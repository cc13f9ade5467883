/**
 * The cursor updates of src/pages/index.tsx as values: the expanded-path
 * list built with `filter` and `concat` (lines 87-90), the directory the
 * create handlers target (lines 126 and 145), and the dotted-name rule
 * delete uses to pick a gateway (lines 218-220).
 */
module Cursors {
  import opened Wrappers
  import opened PathUtil

  /** The expanded list without every entry that starts with `path`
      (index.tsx line 88); JavaScript's `startsWith` is the sequence prefix
      test `path <= x`. */
  function Collapse(expanded: seq<string>, path: string): (r: seq<string>)
    ensures forall x :: x in r <==> x in expanded && !(path <= x)
    ensures |r| <= |expanded|
  {
    if expanded == [] then []
    else (if path <= expanded[0] then [] else [expanded[0]]) + Collapse(expanded[1..], path)
  }

  /** The expanded list after clicking a directory (index.tsx lines 87-90). */
  function Toggle(expanded: seq<string>, path: string): seq<string> {
    if path in expanded then Collapse(expanded, path) else expanded + [path]
  }

  /** The directory a create handler works in: the last expanded path, or
      the remembered root when the list is empty or its last entry is the
      (falsy) empty string. None is a root that was never remembered. */
  function CreateTarget(expanded: seq<string>, remembered: Option<string>): (r: Option<string>)
    ensures expanded != [] && expanded[|expanded| - 1] != "" ==> r == Some(expanded[|expanded| - 1])
    ensures (expanded == [] || expanded[|expanded| - 1] == "") ==> r == remembered
    ensures r.Some? ==> r.value in expanded || r == remembered
    ensures r.None? ==> remembered.None?
  {
    if expanded != [] && expanded[|expanded| - 1] != "" then Some(expanded[|expanded| - 1]) else remembered
  }

  /** Expanding a directory makes it the place where the next file or
      directory is created, whatever was expanded or remembered before. */
  lemma CreateTargetAfterExpand(expanded: seq<string>, path: string, remembered: Option<string>)
    requires path != "" && path !in expanded
    ensures CreateTarget(Toggle(expanded, path), remembered) == Some(path)
  {
    var e := Toggle(expanded, path);
    assert e == expanded + [path];
    assert e[|e| - 1] == path;
  }

  /** Delete picks `deleteFile` when the last segment contains a dot. */
  predicate IsFileTarget(path: string) {
    '.' in LastSegment(path)
  }

  /** Collapsing filters each part of a list on its own, so the kept entries
      stay in their original order. */
  lemma {:induction false} CollapseConcat(a: seq<string>, b: seq<string>, path: string)
    ensures Collapse(a + b, path) == Collapse(a, path) + Collapse(b, path)
  {
    if a != [] {
      assert (a + b)[0] == a[0] && (a + b)[1..] == a[1..] + b;
      CollapseConcat(a[1..], b, path);
    } else {
      assert a + b == b;
    }
  }

  /** Collapsing keeps a list whose entries all lie outside `path` unchanged. */
  lemma {:induction false} CollapseOutside(expanded: seq<string>, path: string)
    requires forall x :: x in expanded ==> !(path <= x)
    ensures Collapse(expanded, path) == expanded
  {
    if expanded != [] {
      var head, tail := expanded[0], expanded[1..];
      assert head in expanded;
      assert forall x :: x in tail ==> x in expanded;
      CollapseOutside(tail, path);
      assert Collapse(expanded, path) == [head] + Collapse(tail, path);
      assert expanded == [head] + tail;
    }
  }

  /** Collapsing keeps an entry outside `path` and drops one under it. */
  lemma CollapseOne(x: string, path: string)
    ensures Collapse([x], path) == if path <= x then [] else [x]
  {
    assert [x][1..] == [];
  }

  /** Clicking an expanded directory removes it and every entry that starts
      with its path; every other entry stays. */
  lemma ToggleCollapses(expanded: seq<string>, path: string)
    requires path in expanded
    ensures path !in Toggle(expanded, path)
    ensures forall x :: x in Toggle(expanded, path) <==> x in expanded && !(path <= x)
  {
  }

  /** Clicking an unexpanded directory appends exactly its path. */
  lemma ToggleExpands(expanded: seq<string>, path: string)
    requires path !in expanded
    ensures Toggle(expanded, path)[..|expanded|] == expanded
    ensures |Toggle(expanded, path)| == |expanded| + 1 && Toggle(expanded, path)[|expanded|] == path
  {
  }

  /** Clicking an unexpanded directory twice restores the list when no
      expanded entry starts with its path. */
  lemma ToggleTwice(expanded: seq<string>, path: string)
    requires forall x :: x in expanded ==> !(path <= x)
    ensures Toggle(Toggle(expanded, path), path) == expanded
  {
    assert path !in expanded;
    CollapseConcat(expanded, [path], path);
    CollapseOutside(expanded, path);
    CollapseOne(path, path);
  }

  /** Expanding `/root/a`, then `/root/a/b`, then collapsing `/root/a` empties the list. */
  lemma CollapseNested()
    ensures Toggle(Toggle(Toggle([], "/root/a"), "/root/a/b"), "/root/a") == []
  {
    var e := ["/root/a", "/root/a/b"];
    assert "/root/a/b" !in ["/root/a"];
    assert Toggle(Toggle([], "/root/a"), "/root/a/b") == e;
    assert "/root/a" <= "/root/a/b";
    CollapseConcat(["/root/a"], ["/root/a/b"], "/root/a");
    CollapseOne("/root/a", "/root/a");
    CollapseOne("/root/a/b", "/root/a");
  }

  /** The prefix test is on strings, not path components: collapsing `/r/a`
      also collapses its sibling `/r/ab`. */
  lemma CollapseSiblingPrefix()
    ensures Collapse(["/r/a", "/r/ab"], "/r/a") == []
  {
    assert "/r/a" <= "/r/ab";
    CollapseConcat(["/r/a"], ["/r/ab"], "/r/a");
    CollapseOne("/r/a", "/r/a");
    CollapseOne("/r/ab", "/r/a");
  }

  /** Only the last component decides: an entry at base/names/leaf is deleted
      as a file exactly when leaf contains a dot, whatever the directories
      above it are called. */
  lemma DeleteClassifiesByLeaf(base: string, names: seq<string>, leaf: string)
    requires WinSep !in base
    requires forall i :: 0 <= i < |names| ==> PlainName(names[i])
    requires PlainName(leaf)
    ensures IsFileTarget(ChildPath(base, names + [leaf])) <==> '.' in leaf
  {
    ChildPathParts(base, names, leaf);
  }

  /** A directory whose name holds a dot is deleted as a file. */
  lemma DottedDirectoryIsFile()
    ensures IsFileTarget("/r/v1.0")
  {
    var p := "/r/v1.0";
    assert p == ChildPath("/r", ["v1.0"]);
    assert PlainName("v1.0");
    DeleteClassifiesByLeaf("/r", [], "v1.0");
    assert [] + ["v1.0"] == ["v1.0"];
    assert "v1.0"[2] == '.';
  }
}
