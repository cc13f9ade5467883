/**
 * The lazily fetched directory tree of src/pages/index.tsx (`IDirectory`).
 * A node is a directory exactly when it has a `children` field; the page
 * holds the tree by reference and walks it by child names. A reference to a
 * node inside the tree is modelled as its location: the child indices that
 * lead to it from the root.
 */
module FileTree {
  import opened Wrappers
  import Sorting

  /** An `IDirectory`: `children` is absent (None) on a file, present on a directory. */
  datatype Node = Node(name: string, path: string, children: Option<seq<Node>>)

  /** `'children' in item` (index.tsx line 81). */
  predicate IsDirectory(n: Node) {
    n.children.Some?
  }

  /** The children of a directory; a file has none. */
  function Kids(n: Node): seq<Node> {
    if n.children.Some? then n.children.value else []
  }

  /** One entry of a one-level listing returned by the directory gateway. */
  datatype Entry = Entry(name: string, path: string, isDirectory: bool)

  /** The object built for one listing entry (index.tsx lines 176-185): a
      directory entry gets an empty `children`, a file entry has the field deleted. */
  function ToNode(e: Entry): Node {
    Node(e.name, e.path, if e.isDirectory then Some([]) else None)
  }

  /** The listing mapped entry by entry to nodes. */
  function MapEntries(es: seq<Entry>): seq<Node> {
    seq(|es|, i requires 0 <= i < |es| => ToNode(es[i]))
  }

  /** The mapped listing sorted by `fileComparable`, which is the parameter `cmp`. */
  function Listed(es: seq<Entry>, cmp: (Node, Node) -> int): seq<Node> {
    Sorting.SortBy(MapEntries(es), cmp)
  }

  // ---------------------------------------------------------------------------
  // locations
  // ---------------------------------------------------------------------------

  /** `loc` leads from `n` to a node, one child index per step. */
  predicate ValidLoc(n: Node, loc: seq<nat>)
    decreases |loc|
  {
    loc == [] || (loc[0] < |Kids(n)| && ValidLoc(Kids(n)[loc[0]], loc[1..]))
  }

  /** The node that `loc` leads to. */
  function NodeAt(n: Node, loc: seq<nat>): Node
    requires ValidLoc(n, loc)
    decreases |loc|
  {
    if loc == [] then n else NodeAt(Kids(n)[loc[0]], loc[1..])
  }

  /** Extending a location by one child index. */
  lemma {:induction false} NodeAtSnoc(n: Node, loc: seq<nat>, i: nat)
    requires ValidLoc(n, loc) && i < |Kids(NodeAt(n, loc))|
    ensures ValidLoc(n, loc + [i]) && NodeAt(n, loc + [i]) == Kids(NodeAt(n, loc))[i]
    decreases |loc|
  {
    if loc != [] {
      assert (loc + [i])[1..] == loc[1..] + [i];
      NodeAtSnoc(Kids(n)[loc[0]], loc[1..], i);
    }
  }

  /** Every prefix of a valid location is valid. */
  lemma {:induction false} PrefixValid(n: Node, loc: seq<nat>, pre: seq<nat>)
    requires ValidLoc(n, loc) && pre <= loc
    ensures ValidLoc(n, pre)
    decreases |loc|
  {
    if pre != [] {
      PrefixValid(Kids(n)[loc[0]], loc[1..], pre[1..]);
    }
  }

  // ---------------------------------------------------------------------------
  // lookup by walking names
  // ---------------------------------------------------------------------------

  /** JavaScript's `find` over the children by name, as the index of the first match. */
  function FindChild(kids: seq<Node>, name: string): (r: Option<nat>)
    ensures r.Some? ==> r.value < |kids| && kids[r.value].name == name
    ensures r.Some? ==> forall j :: 0 <= j < r.value ==> kids[j].name != name
    ensures r.None? ==> forall j :: 0 <= j < |kids| ==> kids[j].name != name
  {
    if kids == [] then None
    else if kids[0].name == name then Some(0)
    else match FindChild(kids[1..], name)
      case None => None
      case Some(i) => Some(i + 1)
  }

  /** The walk of index.tsx lines 132-136, 151-155 and 237-241, one name per
      step. Where the source would read `children` of a file or of `undefined`
      (and so throw), the walk yields None. */
  function Walk(root: Node, segs: seq<string>): (r: Option<seq<nat>>)
    decreases |segs|
    ensures r.Some? ==> |r.value| == |segs| && ValidLoc(root, r.value)
  {
    if segs == [] then Some([])
    else match Walk(root, segs[..|segs| - 1])
      case None => None
      case Some(loc) =>
        var dir := NodeAt(root, loc);
        if !IsDirectory(dir) then None
        else match FindChild(Kids(dir), segs[|segs| - 1])
          case None => None
          case Some(i) => NodeAtSnoc(root, loc, i); Some(loc + [i])
  }

  /** Every step of `loc` goes from a directory to its first child named by the
      matching segment. */
  ghost predicate StepsTo(root: Node, segs: seq<string>, loc: seq<nat>) {
    && |loc| == |segs|
    && ValidLoc(root, loc)
    && forall k :: 0 <= k < |segs| ==> StepAt(root, segs, loc, k)
  }

  /** Step `k`: from the node reached by the first `k` indices, a directory,
      index `loc[k]` is its first child named `segs[k]`. */
  ghost predicate StepAt(root: Node, segs: seq<string>, loc: seq<nat>, k: nat)
    requires k < |segs| && |loc| == |segs|
  {
    && ValidLoc(root, loc[..k])
    && IsDirectory(NodeAt(root, loc[..k]))
    && FindChild(Kids(NodeAt(root, loc[..k])), segs[k]) == Some(loc[k])
  }

  /** The walk at a prefix is stuck at step `k`: the node reached is a file, or
      a directory with no child named `segs[k]`. */
  ghost predicate StuckAt(root: Node, segs: seq<string>, k: nat)
    requires k < |segs|
  {
    match Walk(root, segs[..k])
    case None => false
    case Some(loc) =>
      !IsDirectory(NodeAt(root, loc)) || FindChild(Kids(NodeAt(root, loc)), segs[k]).None?
  }

  /** The walk with no names returns the root itself. */
  lemma WalkEmpty(root: Node)
    ensures Walk(root, []) == Some([]) && NodeAt(root, []) == root
  {
  }

  /** The name walk from the root, as the loop the handlers run (index.tsx lines 132-136, 151-155 and 237-241). */
  method Resolve(root: Node, segs: seq<string>) returns (loc: Option<seq<nat>>)
    ensures loc == Walk(root, segs)
    ensures loc.Some? ==> ValidLoc(root, loc.value) && |loc.value| == |segs|
  {
    var cur: seq<nat> := [];
    var node := root;
    var i := 0;
    while i < |segs|
      invariant 0 <= i <= |segs|
      invariant Walk(root, segs[..i]) == Some(cur)
      invariant ValidLoc(root, cur) && node == NodeAt(root, cur)
    {
      assert segs[..i + 1][..i] == segs[..i];
      if !IsDirectory(node) {
        // reading `children` of a file throws
        WalkFailsOnward(root, segs, i + 1);
        return None;
      }
      var found := FindChild(Kids(node), segs[i]);
      if found.None? {
        // `find` gave undefined; the next use of it throws
        WalkFailsOnward(root, segs, i + 1);
        return None;
      }
      NodeAtSnoc(root, cur, found.value);
      cur := cur + [found.value];
      node := Kids(node)[found.value];
      i := i + 1;
    }
    assert segs[..i] == segs;
    return Some(cur);
  }

  /** Every location the walk returns descends by first matching names. */
  lemma {:induction false} WalkSteps(root: Node, segs: seq<string>)
    requires Walk(root, segs).Some?
    ensures StepsTo(root, segs, Walk(root, segs).value)
    decreases |segs|
  {
    if segs != [] {
      var n := |segs| - 1;
      var init := segs[..n];
      var loc := Walk(root, segs).value;
      var prev := Walk(root, init).value;
      WalkSteps(root, init);
      assert loc == prev + [loc[n]];
      assert loc[..n] == prev;
      forall k | 0 <= k < |segs|
        ensures StepAt(root, segs, loc, k)
      {
        if k < n {
          assert StepAt(root, init, prev, k);
          assert loc[..k] == prev[..k] && segs[k] == init[k] && loc[k] == prev[k];
        }
      }
    }
  }

  /** Cutting both the names and the location at the same point keeps the descent. */
  lemma StepsPrefix(root: Node, segs: seq<string>, loc: seq<nat>, m: nat)
    requires StepsTo(root, segs, loc) && m <= |segs|
    ensures StepsTo(root, segs[..m], loc[..m])
  {
    var init, prev := segs[..m], loc[..m];
    PrefixValid(root, loc, prev);
    forall k | 0 <= k < |init|
      ensures StepAt(root, init, prev, k)
    {
      assert StepAt(root, segs, loc, k);
      assert prev[..k] == loc[..k];
    }
  }

  /** Every location that descends by first matching names is what the walk returns. */
  lemma {:induction false} StepsWalk(root: Node, segs: seq<string>, loc: seq<nat>)
    requires StepsTo(root, segs, loc)
    ensures Walk(root, segs) == Some(loc)
    decreases |segs|
  {
    if segs != [] {
      var n := |segs| - 1;
      var prev := loc[..n];
      StepsPrefix(root, segs, loc, n);
      StepsWalk(root, segs[..n], prev);
      assert StepAt(root, segs, loc, n);
      assert loc == prev + [loc[n]];
    }
  }

  /** The walk reaches `loc` exactly when every step of `loc` descends to the
      first child whose name is the next segment. */
  lemma WalkFollowsNames(root: Node, segs: seq<string>, loc: seq<nat>)
    ensures Walk(root, segs) == Some(loc) <==> StepsTo(root, segs, loc)
  {
    if Walk(root, segs) == Some(loc) {
      WalkSteps(root, segs);
    }
    if StepsTo(root, segs, loc) {
      StepsWalk(root, segs, loc);
    }
  }

  /** Once a prefix of the names fails, the whole walk fails. */
  lemma {:induction false} WalkFailsOnward(root: Node, segs: seq<string>, k: nat)
    requires k <= |segs| && Walk(root, segs[..k]).None?
    ensures Walk(root, segs).None?
    decreases |segs| - k
  {
    if k < |segs| {
      assert segs[..k + 1][..k] == segs[..k];
      WalkFailsOnward(root, segs, k + 1);
    } else {
      assert segs[..k] == segs;
    }
  }

  /** A failed walk has a first step where it is stuck. */
  lemma {:induction false} FailedWalkIsStuck(root: Node, segs: seq<string>)
    requires Walk(root, segs).None?
    ensures exists k :: 0 <= k < |segs| && StuckAt(root, segs, k)
    decreases |segs|
  {
    var n := |segs| - 1;
    var init := segs[..n];
    if Walk(root, init).None? {
      FailedWalkIsStuck(root, init);
      var k :| 0 <= k < |init| && StuckAt(root, init, k);
      assert init[..k] == segs[..k] && init[k] == segs[k];
      assert StuckAt(root, segs, k);
    } else {
      assert StuckAt(root, segs, n);
    }
  }

  /** A walk stuck at some step fails. */
  lemma StuckWalkFails(root: Node, segs: seq<string>, k: nat)
    requires k < |segs| && StuckAt(root, segs, k)
    ensures Walk(root, segs).None?
  {
    var t := segs[..k + 1];
    assert t[..|t| - 1] == segs[..k] && t[|t| - 1] == segs[k];
    assert Walk(root, t).None?;
    WalkFailsOnward(root, segs, k + 1);
  }

  /** The walk fails exactly when some step is stuck: it reaches a file, or a
      directory with no child of the next name. */
  lemma WalkFailsIffStuck(root: Node, segs: seq<string>)
    ensures Walk(root, segs).None? <==> exists k :: 0 <= k < |segs| && StuckAt(root, segs, k)
  {
    if Walk(root, segs).None? {
      FailedWalkIsStuck(root, segs);
    }
    if k :| 0 <= k < |segs| && StuckAt(root, segs, k) {
      StuckWalkFails(root, segs, k);
    }
  }

  // ---------------------------------------------------------------------------
  // replacing the children of one node
  // ---------------------------------------------------------------------------

  /** `currentDir.children = kids` on the node at `loc`, seen through the root. */
  function ReplaceChildrenAt(n: Node, loc: seq<nat>, kids: seq<Node>): (r: Node)
    requires ValidLoc(n, loc)
    decreases |loc|
    ensures r.name == n.name && r.path == n.path && IsDirectory(r)
  {
    if loc == [] then n.(children := Some(kids))
    else
      var cs := Kids(n);
      n.(children := Some(cs[loc[0] := ReplaceChildrenAt(cs[loc[0]], loc[1..], kids)]))
  }

  /** The node at `loc` keeps its name and path and gets exactly `kids`. */
  lemma {:induction false} ReplaceTarget(n: Node, loc: seq<nat>, kids: seq<Node>)
    requires ValidLoc(n, loc)
    ensures ValidLoc(ReplaceChildrenAt(n, loc, kids), loc)
    ensures NodeAt(ReplaceChildrenAt(n, loc, kids), loc) == NodeAt(n, loc).(children := Some(kids))
    decreases |loc|
  {
    if loc != [] {
      ReplaceTarget(Kids(n)[loc[0]], loc[1..], kids);
    }
  }

  /** No other node changes: a node off the path to `loc` is untouched, and an
      ancestor of `loc` keeps its name, path, kind and number of children. */
  lemma {:induction false} ReplaceFrame(n: Node, loc: seq<nat>, kids: seq<Node>, other: seq<nat>)
    requires ValidLoc(n, loc) && ValidLoc(n, other) && !(loc <= other)
    ensures ValidLoc(ReplaceChildrenAt(n, loc, kids), other)
    ensures !(other <= loc) ==> NodeAt(ReplaceChildrenAt(n, loc, kids), other) == NodeAt(n, other)
    ensures var m := NodeAt(ReplaceChildrenAt(n, loc, kids), other);
      && m.name == NodeAt(n, other).name
      && m.path == NodeAt(n, other).path
      && IsDirectory(m) == IsDirectory(NodeAt(n, other))
      && |Kids(m)| == |Kids(NodeAt(n, other))|
    decreases |loc|
  {
    var r := ReplaceChildrenAt(n, loc, kids);
    if other != [] {
      assert loc != [];
      var cs := Kids(n);
      assert Kids(r) == cs[loc[0] := ReplaceChildrenAt(cs[loc[0]], loc[1..], kids)];
      if other[0] == loc[0] {
        assert !(loc[1..] <= other[1..]);
        assert other <= loc <==> other[1..] <= loc[1..];
        ReplaceFrame(cs[loc[0]], loc[1..], kids, other[1..]);
      } else {
        assert !(other <= loc);
        assert Kids(r)[other[0]] == cs[other[0]];
      }
    }
  }

  /** Applying the same children twice is the same as applying them once. */
  lemma {:induction false} ReplaceIdempotent(n: Node, loc: seq<nat>, kids: seq<Node>)
    requires ValidLoc(n, loc)
    ensures ValidLoc(ReplaceChildrenAt(n, loc, kids), loc)
    ensures ReplaceChildrenAt(ReplaceChildrenAt(n, loc, kids), loc, kids) == ReplaceChildrenAt(n, loc, kids)
    decreases |loc|
  {
    ReplaceTarget(n, loc, kids);
    if loc != [] {
      var cs := Kids(n);
      var r := ReplaceChildrenAt(n, loc, kids);
      var c := ReplaceChildrenAt(cs[loc[0]], loc[1..], kids);
      ReplaceIdempotent(cs[loc[0]], loc[1..], kids);
      assert Kids(r) == cs[loc[0] := c] && Kids(r)[loc[0]] == c;
      assert Kids(r)[loc[0] := c] == Kids(r);
    }
  }

  /** `find` depends only on the children's names. */
  lemma FindChildByNames(a: seq<Node>, b: seq<Node>, name: string)
    requires |a| == |b| && forall j :: 0 <= j < |a| ==> a[j].name == b[j].name
    ensures FindChild(a, name) == FindChild(b, name)
  {
    var fa, fb := FindChild(a, name), FindChild(b, name);
    if fa.Some? && fb.Some? {
      assert !(fa.value < fb.value) && !(fb.value < fa.value);
    }
  }

  /** A strict ancestor of `loc` keeps the names of all its children. */
  lemma ReplaceKeepsKidNames(n: Node, loc: seq<nat>, kids: seq<Node>, p: seq<nat>)
    requires ValidLoc(n, loc) && p <= loc && |p| < |loc|
    ensures ValidLoc(n, p) && ValidLoc(ReplaceChildrenAt(n, loc, kids), p)
    ensures var m, o := NodeAt(ReplaceChildrenAt(n, loc, kids), p), NodeAt(n, p);
      && IsDirectory(m) == IsDirectory(o)
      && |Kids(m)| == |Kids(o)|
      && forall j :: 0 <= j < |Kids(o)| ==> Kids(m)[j].name == Kids(o)[j].name
  {
    var r := ReplaceChildrenAt(n, loc, kids);
    PrefixValid(n, loc, p);
    ReplaceFrame(n, loc, kids, p);
    var m, o := NodeAt(r, p), NodeAt(n, p);
    forall j | 0 <= j < |Kids(o)| ensures Kids(m)[j].name == Kids(o)[j].name {
      NodeAtSnoc(n, p, j);
      NodeAtSnoc(r, p, j);
      if loc == p + [j] {
        ReplaceTarget(n, loc, kids);
      } else {
        ReplaceFrame(n, loc, kids, p + [j]);
      }
    }
  }

  /** Replacing the children of the node a walk reaches leaves that walk intact. */
  lemma WalkSurvivesReplace(root: Node, segs: seq<string>, loc: seq<nat>, kids: seq<Node>)
    requires Walk(root, segs) == Some(loc)
    ensures ValidLoc(root, loc)
    ensures Walk(ReplaceChildrenAt(root, loc, kids), segs) == Some(loc)
  {
    var r := ReplaceChildrenAt(root, loc, kids);
    WalkSteps(root, segs);
    ReplaceTarget(root, loc, kids);
    forall k | 0 <= k < |segs| ensures StepAt(r, segs, loc, k) {
      assert StepAt(root, segs, loc, k);
      var p := loc[..k];
      ReplaceKeepsKidNames(root, loc, kids, p);
      FindChildByNames(Kids(NodeAt(r, p)), Kids(NodeAt(root, p)), segs[k]);
    }
    StepsWalk(r, segs, loc);
  }

  /** After a listing is applied to the node a walk reaches, every listed
      entry can be found one step further by its name (so a created entry
      resolves once its parent is refreshed). */
  lemma ListedEntryResolves(root: Node, segs: seq<string>, loc: seq<nat>, es: seq<Entry>,
                            cmp: (Node, Node) -> int, e: Entry)
    requires Walk(root, segs) == Some(loc) && e in es
    ensures ValidLoc(root, loc)
    ensures var r := Refreshed(root, loc, Some(es), cmp);
      && Walk(r, segs + [e.name]).Some?
      && NodeAt(r, Walk(r, segs + [e.name]).value).name == e.name
  {
    var r := Refreshed(root, loc, Some(es), cmp);
    WalkSurvivesReplace(root, segs, loc, Listed(es, cmp));
    RefreshedChildren(root, loc, es, cmp);
    var dir := NodeAt(r, loc);
    assert ToNode(e) in Kids(dir);
    var t := segs + [e.name];
    assert t[..|t| - 1] == segs && t[|t| - 1] == e.name;
    var i := FindChild(Kids(dir), e.name);
    assert i.Some?;
    NodeAtSnoc(r, loc, i.value);
    assert Walk(r, t) == Some(loc + [i.value]);
  }

  /** `fetchDirectory` on the node at `loc` once the listing has arrived: a
      failed listing (None) changes nothing. */
  function Refreshed(root: Node, loc: seq<nat>, listing: Option<seq<Entry>>, cmp: (Node, Node) -> int): Node
    requires ValidLoc(root, loc)
  {
    match listing
    case None => root
    case Some(es) => ReplaceChildrenAt(root, loc, Listed(es, cmp))
  }

  /** After a listing is applied, the refreshed node keeps its name and path and
      its children are a permutation of the mapped entries: each child carries
      an entry's name and path, directories with empty children and files with
      none, and every entry appears. */
  lemma RefreshedChildren(root: Node, loc: seq<nat>, es: seq<Entry>, cmp: (Node, Node) -> int)
    requires ValidLoc(root, loc)
    ensures ValidLoc(Refreshed(root, loc, Some(es), cmp), loc)
    ensures var m := NodeAt(Refreshed(root, loc, Some(es), cmp), loc);
      && m.name == NodeAt(root, loc).name && m.path == NodeAt(root, loc).path
      && m.children.Some?
      && multiset(m.children.value) == multiset(MapEntries(es))
      && (forall c :: c in m.children.value <==> exists e :: e in es && c == ToNode(e))
  {
    var kids := Listed(es, cmp);
    ReplaceTarget(root, loc, kids);
    forall c ensures c in kids <==> exists e :: e in es && c == ToNode(e) {
      calc {
        c in kids;
        c in multiset(kids);
        c in multiset(MapEntries(es));
        c in MapEntries(es);
      }
      if c in MapEntries(es) {
        var i :| 0 <= i < |es| && MapEntries(es)[i] == c;
        assert es[i] in es;
      }
      if e :| e in es && c == ToNode(e) {
        var i :| 0 <= i < |es| && es[i] == e;
        assert MapEntries(es)[i] == c;
      }
    }
  }
}
