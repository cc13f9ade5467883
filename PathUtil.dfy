/**
 * The string helpers the page uses to locate tree nodes: separator
 * normalisation (`replaceAll('\\', '/')`), JavaScript's `split` and `join`
 * on one character, `String.replace` with a string pattern (first
 * occurrence only), and the last-segment, parent-path and relative-segment
 * chains built from them in src/pages/index.tsx.
 */
module PathUtil {
  import opened Wrappers

  /** The canonical separator. */
  const Sep: char := '/'
  /** The Windows separator that normalisation rewrites. */
  const WinSep: char := '\\'

  /** A path component: neither separator occurs in it. */
  predicate PlainName(s: string) {
    Sep !in s && WinSep !in s
  }

  /** Every backslash replaced by the canonical separator (`replaceAll`). */
  function Normalize(p: string): (r: string)
    ensures |r| == |p| && WinSep !in r
    ensures forall i :: 0 <= i < |p| ==> r[i] == (if p[i] == WinSep then Sep else p[i])
  {
    if p == [] then [] else [if p[0] == WinSep then Sep else p[0]] + Normalize(p[1..])
  }

  /** JavaScript's `split` on one character: always at least one piece, and no
      piece holds the separator. */
  function Split(s: string, sep: char): (r: seq<string>)
    ensures |r| >= 1
    ensures forall i :: 0 <= i < |r| ==> sep !in r[i]
  {
    if s == [] then [[]]
    else
      var rest := Split(s[1..], sep);
      if s[0] == sep then [[]] + rest
      else [[s[0]] + rest[0]] + rest[1..]
  }

  /** JavaScript's `join`; the empty array joins to the empty string. */
  function Join(parts: seq<string>, sep: char): string
  {
    if |parts| == 0 then []
    else if |parts| == 1 then parts[0]
    else parts[0] + [sep] + Join(parts[1..], sep)
  }

  /** The last piece of the normalised path (index.tsx lines 59, 117 and 218).
      A split never yields an empty array, so `pop` always returns a piece,
      and the fallback to the empty string only maps the empty piece to itself. */
  function LastSegment(p: string): (r: string)
    ensures PlainName(r)
  {
    var parts := Split(Normalize(p), Sep);
    SplitAvoids(Normalize(p), Sep, WinSep);
    parts[|parts| - 1]
  }

  /** All pieces of the normalised path but the last, joined again (index.tsx line 231). */
  function ParentPath(p: string): string
  {
    var parts := Split(Normalize(p), Sep);
    Join(parts[..|parts| - 1], Sep)
  }

  /** `pat` occurs in `s` starting at index `i`. */
  predicate OccursAt(s: string, pat: string, i: nat) {
    i + |pat| <= |s| && s[i..i + |pat|] == pat
  }

  /** The first index at or after `from` where `pat` occurs in `s`. */
  function FirstOccurrence(s: string, pat: string, from: nat): (r: Option<nat>)
    decreases |s| - from
    ensures r.Some? ==> from <= r.value && OccursAt(s, pat, r.value)
    ensures r.Some? ==> forall j :: from <= j < r.value ==> !OccursAt(s, pat, j)
    ensures r.None? ==> forall j :: from <= j ==> !OccursAt(s, pat, j)
  {
    if from + |pat| > |s| then None
    else if s[from..from + |pat|] == pat then Some(from)
    else FirstOccurrence(s, pat, from + 1)
  }

  /** `replace` with a string pattern and an empty replacement: JavaScript
      removes the FIRST occurrence of `pat` wherever it is, not only a
      leading one, and leaves `s` alone when `pat` does not occur. */
  function RemoveFirst(s: string, pat: string): (r: string)
    ensures forall i: nat :: OccursAt(s, pat, i) && (forall j: nat :: j < i ==> !OccursAt(s, pat, j)) ==>
      r == s[..i] + s[i + |pat|..]
    ensures (exists i :: OccursAt(s, pat, i)) ==> |r| + |pat| == |s|
    ensures (forall i :: !OccursAt(s, pat, i)) ==> r == s
  {
    match FirstOccurrence(s, pat, 0)
    case None => s
    case Some(i) => s[..i] + s[i + |pat|..]
  }

  /** The pieces of a relative path after `shift` drops the first one. */
  function Segments(rel: string): seq<string>
  {
    Split(rel, Sep)[1..]
  }

  /** The names the create handlers walk (index.tsx lines 129-130 and 148-149):
      the first occurrence of the tree root's path is removed from the target,
      then the rest is normalised and split, and the first piece dropped. */
  function CreateSegments(dirPath: string, rootPath: string): seq<string>
  {
    Segments(Normalize(RemoveFirst(dirPath, rootPath)))
  }

  /** The names `getFileParentDirectory` walks (index.tsx lines 231-236): the
      parent of `path`, with the first occurrence of the normalised remembered
      root removed, split and shifted. */
  function ParentSegments(path: string, remembered: string): seq<string>
  {
    Segments(RemoveFirst(ParentPath(path), Normalize(remembered)))
  }

  /** `base` extended by the components `names`, joined with the canonical separator. */
  function ChildPath(base: string, names: seq<string>): string
  {
    if names == [] then base else base + [Sep] + Join(names, Sep)
  }

  // ---------------------------------------------------------------------------
  // split / join
  // ---------------------------------------------------------------------------

  /** Joining the pieces of a split restores the string. */
  lemma {:induction false} JoinSplit(s: string, sep: char)
    ensures Join(Split(s, sep), sep) == s
  {
    if s != [] {
      var rest := Split(s[1..], sep);
      JoinSplit(s[1..], sep);
      if s[0] == sep {
        assert Split(s, sep) == [[]] + rest;
        assert s == [sep] + s[1..];
      } else if |rest| == 1 {
        assert Split(s, sep) == [[s[0]] + rest[0]];
        assert s == [s[0]] + s[1..];
      } else {
        var parts := Split(s, sep);
        assert parts == [[s[0]] + rest[0]] + rest[1..];
        assert parts[1..] == rest[1..];
        assert Join(rest, sep) == rest[0] + [sep] + Join(rest[1..], sep);
        assert s == [s[0]] + s[1..];
      }
    }
  }

  /** A character absent from a string is absent from every piece of its split. */
  lemma {:induction false} SplitAvoids(s: string, sep: char, c: char)
    requires c !in s
    ensures forall i :: 0 <= i < |Split(s, sep)| ==> c !in Split(s, sep)[i]
  {
    if s != [] {
      assert c !in s[1..] by { assert forall k :: 0 <= k < |s| - 1 ==> s[1..][k] == s[k + 1]; }
      SplitAvoids(s[1..], sep, c);
    }
  }

  /** A string without the separator splits into itself alone. */
  lemma {:induction false} SplitPlain(s: string, sep: char)
    requires sep !in s
    ensures Split(s, sep) == [s]
  {
    if s != [] {
      SplitPlain(s[1..], sep);
      assert [s[0]] + s[1..] == s;
    }
  }

  /** Splitting distributes over a separator occurrence. */
  lemma {:induction false} SplitConcat(a: string, b: string, sep: char)
    ensures Split(a + [sep] + b, sep) == Split(a, sep) + Split(b, sep)
  {
    var s := a + [sep] + b;
    if a == [] {
      assert s == [sep] + b;
    } else {
      assert s[0] == a[0] && s[1..] == a[1..] + [sep] + b;
      SplitConcat(a[1..], b, sep);
      if a[0] != sep {
        GlueFirst(a[0], Split(a[1..], sep), Split(b, sep));
      }
    }
  }

  /** Prepending a character to the first piece commutes with appending more pieces. */
  lemma GlueFirst(c: char, xs: seq<string>, ys: seq<string>)
    requires |xs| >= 1
    ensures [[c] + (xs + ys)[0]] + (xs + ys)[1..] == ([[c] + xs[0]] + xs[1..]) + ys
  {
    assert (xs + ys)[1..] == xs[1..] + ys;
  }

  /** Splitting a join of separator-free pieces gives the pieces back. */
  lemma {:induction false} SplitJoin(parts: seq<string>, sep: char)
    requires |parts| >= 1
    requires forall i :: 0 <= i < |parts| ==> sep !in parts[i]
    ensures Split(Join(parts, sep), sep) == parts
  {
    if |parts| == 1 {
      SplitPlain(parts[0], sep);
    } else {
      SplitJoin(parts[1..], sep);
      SplitConcat(parts[0], Join(parts[1..], sep), sep);
      SplitPlain(parts[0], sep);
      assert [parts[0]] + parts[1..] == parts;
    }
  }

  /** Joining two non-empty lists puts one separator between their joins. */
  lemma {:induction false} JoinConcat(a: seq<string>, b: seq<string>, sep: char)
    requires |a| >= 1 && |b| >= 1
    ensures Join(a + b, sep) == Join(a, sep) + [sep] + Join(b, sep)
  {
    if |a| > 1 {
      JoinConcat(a[1..], b, sep);
      assert (a + b)[1..] == a[1..] + b;
    } else {
      assert (a + b)[1..] == b;
    }
  }

  /** A character other than the separator that occurs in no piece does not occur in the join. */
  lemma {:induction false} JoinAvoids(parts: seq<string>, sep: char, c: char)
    requires c != sep
    requires forall i :: 0 <= i < |parts| ==> c !in parts[i]
    ensures c !in Join(parts, sep)
  {
    if |parts| > 1 {
      JoinAvoids(parts[1..], sep, c);
    }
  }

  // ---------------------------------------------------------------------------
  // normalisation, last segment, parent path
  // ---------------------------------------------------------------------------

  /** Normalisation leaves a path without backslashes unchanged (so it is idempotent). */
  lemma NormalizeFixed(p: string)
    requires WinSep !in p
    ensures Normalize(p) == p
  {
  }

  /** The last segment of a path without separators is the whole path. */
  lemma LastSegmentOfPlain(p: string)
    requires PlainName(p)
    ensures LastSegment(p) == p
  {
    NormalizeFixed(p);
    SplitPlain(p, Sep);
  }

  /** For a path holding a separator, parent + '/' + last segment rebuilds the
      normalised path, and the parent is a prefix of it; without a separator
      the parent is the empty string. */
  lemma ParentThenLast(p: string)
    ensures Sep in Normalize(p) ==> ParentPath(p) + [Sep] + LastSegment(p) == Normalize(p)
    ensures Sep in Normalize(p) ==> ParentPath(p) <= Normalize(p)
    ensures Sep !in Normalize(p) ==> ParentPath(p) == []
  {
    var n := Normalize(p);
    var parts := Split(n, Sep);
    var k := |parts| - 1;
    JoinSplit(n, Sep);
    assert ParentPath(p) == Join(parts[..k], Sep);
    assert LastSegment(p) == parts[k];
    if k == 0 {
      assert Join(parts, Sep) == parts[0];
      assert Sep !in n;
    } else {
      assert parts[..k] + [parts[k]] == parts;
      JoinConcat(parts[..k], [parts[k]], Sep);
      assert Join(parts[..k], Sep) + [Sep] + parts[k] == n;
    }
  }

  /** A path built from a backslash-free base and plain names splits into the
      base's pieces followed by the names. */
  lemma SplitChildPath(base: string, names: seq<string>)
    requires WinSep !in base
    requires forall i :: 0 <= i < |names| ==> PlainName(names[i])
    ensures Normalize(ChildPath(base, names)) == ChildPath(base, names)
    ensures Split(ChildPath(base, names), Sep) == Split(base, Sep) + names
  {
    if names != [] {
      var j := Join(names, Sep);
      JoinAvoids(names, Sep, WinSep);
      SplitConcat(base, j, Sep);
      SplitJoin(names, Sep);
      assert WinSep !in ChildPath(base, names);
    } else {
      assert Split(base, Sep) + names == Split(base, Sep);
    }
    NormalizeFixed(ChildPath(base, names));
  }

  /** The last segment of base + '/' + names + '/' + leaf is leaf, and its
      parent path is base + '/' + names. */
  lemma ChildPathParts(base: string, names: seq<string>, leaf: string)
    requires WinSep !in base
    requires forall i :: 0 <= i < |names| ==> PlainName(names[i])
    requires PlainName(leaf)
    ensures LastSegment(ChildPath(base, names + [leaf])) == leaf
    ensures ParentPath(ChildPath(base, names + [leaf])) == ChildPath(base, names)
  {
    var all := names + [leaf];
    assert forall i :: 0 <= i < |all| ==> PlainName(all[i]);
    SplitChildPath(base, all);
    var sb := Split(base, Sep);
    var parts := sb + all;
    assert parts[..|parts| - 1] == sb + names;
    JoinSplit(base, Sep);
    if names != [] {
      JoinConcat(sb, names, Sep);
    } else {
      assert sb + names == sb;
    }
  }

  // ---------------------------------------------------------------------------
  // first-occurrence removal and relative segments
  // ---------------------------------------------------------------------------

  /** When the pattern is a prefix, removing its first occurrence strips that prefix. */
  lemma RemoveFirstOfPrefix(s: string, pat: string)
    requires pat <= s
    ensures RemoveFirst(s, pat) == s[|pat|..]
  {
    assert OccursAt(s, pat, 0);
  }

  /** Removing a string from the front of a concatenation leaves the rest. */
  lemma RemoveFirstOfConcat(a: string, b: string)
    ensures RemoveFirst(a + b, a) == b
  {
    assert a <= a + b && (a + b)[|a|..] == b;
    RemoveFirstOfPrefix(a + b, a);
  }

  /** The removal is not a prefix strip: it deletes the root text from the middle of a path too. */
  lemma RemoveFirstInMiddle()
    ensures RemoveFirst("/x/r/a", "/r") == "/x/a"
  {
    var s, pat := "/x/r/a", "/r";
    assert !OccursAt(s, pat, 0) by { assert s[0..2][1] == 'x'; }
    assert !OccursAt(s, pat, 1) by { assert s[1..3][0] == 'x'; }
    assert OccursAt(s, pat, 2);
    var r := FirstOccurrence(s, pat, 0);
    assert r == Some(2);
    assert s[..2] + s[4..] == "/x/a";
  }

  /** The segments left after removing the base from base + '/' + names are the names. */
  lemma SegmentsBelow(base: string, names: seq<string>)
    requires forall i :: 0 <= i < |names| ==> PlainName(names[i])
    ensures RemoveFirst(ChildPath(base, names), base) == ChildPath([], names)
    ensures Segments(ChildPath([], names)) == names
  {
    if names == [] {
      RemoveFirstOfConcat(base, []);
      assert base + [] == base;
    } else {
      var rel := [Sep] + Join(names, Sep);
      assert ChildPath(base, names) == base + rel;
      assert ChildPath([], names) == rel;
      RemoveFirstOfConcat(base, rel);
    }
    SegmentsOfRelative(names);
  }

  /** Splitting '/' + names joined by '/' and dropping the first, empty, piece
      gives back the names. */
  lemma SegmentsOfRelative(names: seq<string>)
    requires forall i :: 0 <= i < |names| ==> PlainName(names[i])
    ensures Segments(ChildPath([], names)) == names
    ensures names != [] ==> Segments([Sep] + Join(names, Sep)) == names
  {
    if names != [] {
      var j := Join(names, Sep);
      assert ChildPath([], names) == [] + [Sep] + j;
      SplitConcat([], j, Sep);
      SplitJoin(names, Sep);
    }
  }

  /** A create handler whose target is the root path itself walks no names, so
      it refreshes the root. */
  lemma CreateSegmentsOfRoot(rootPath: string)
    ensures CreateSegments(rootPath, rootPath) == []
  {
    SegmentsBelow(rootPath, []);
  }

  /** A create handler whose target is root + '/' + names walks exactly those names. */
  lemma CreateSegmentsOfChild(rootPath: string, names: seq<string>)
    requires forall i :: 0 <= i < |names| ==> PlainName(names[i])
    ensures CreateSegments(ChildPath(rootPath, names), rootPath) == names
  {
    SegmentsBelow(rootPath, names);
    if names != [] {
      JoinAvoids(names, Sep, WinSep);
    }
    NormalizeFixed(ChildPath([], names));
  }

  /** Normalisation turns a backslash-joined list of plain names into the
      slash-joined one. */
  lemma {:induction false} NormalizeJoin(names: seq<string>)
    requires forall i :: 0 <= i < |names| ==> PlainName(names[i])
    ensures Normalize(Join(names, WinSep)) == Join(names, Sep)
  {
    if |names| == 1 {
      NormalizeFixed(names[0]);
    } else if |names| > 1 {
      var head, tail := names[0], names[1..];
      assert forall i :: 0 <= i < |tail| ==> PlainName(tail[i]) by {
        forall i | 0 <= i < |tail| ensures PlainName(tail[i]) {
          assert tail[i] == names[i + 1];
        }
      }
      var w := Join(tail, WinSep);
      assert Normalize(w) == Join(tail, Sep) by {
        NormalizeJoin(tail);
      }
      assert Normalize([WinSep]) == [Sep];
      calc {
        Normalize(head + [WinSep] + w);
      == { NormalizeConcat(head + [WinSep], w); }
        Normalize(head + [WinSep]) + Normalize(w);
      == { NormalizeConcat(head, [WinSep]); NormalizeFixed(head); }
        head + [Sep] + Normalize(w);
      }
      assert Join(names, WinSep) == head + [WinSep] + w;
      assert Join(names, Sep) == head + [Sep] + Join(tail, Sep);
    }
  }

  /** Normalisation works character by character, so it distributes over concatenation. */
  lemma NormalizeConcat(a: string, b: string)
    ensures Normalize(a + b) == Normalize(a) + Normalize(b)
  {
    var l, r := Normalize(a + b), Normalize(a) + Normalize(b);
    assert |l| == |r|;
    forall i | 0 <= i < |l| ensures l[i] == r[i] {
      if i < |a| {
        assert (a + b)[i] == a[i];
      } else {
        assert (a + b)[i] == b[i - |a|];
      }
    }
  }

  /** A create target written with Windows separators, root + '\\' + names
      joined by '\\', walks exactly the names too. */
  lemma CreateSegmentsOfWindowsChild(rootPath: string, names: seq<string>)
    requires names != []
    requires forall i :: 0 <= i < |names| ==> PlainName(names[i])
    ensures CreateSegments(rootPath + ([WinSep] + Join(names, WinSep)), rootPath) == names
  {
    var rel := [WinSep] + Join(names, WinSep);
    calc {
      CreateSegments(rootPath + rel, rootPath);
    == { CreateSegmentsBelowRoot(rootPath, rel); }
      Segments(Normalize(rel));
    == { NormalizeWindowsRelative(names); }
      Segments([Sep] + Join(names, Sep));
    == { SegmentsOfRelative(names); }
      names;
    }
  }

  /** Whatever follows the root's path in a create target is what gets
      normalised and split. */
  lemma CreateSegmentsBelowRoot(rootPath: string, rel: string)
    ensures CreateSegments(rootPath + rel, rootPath) == Segments(Normalize(rel))
  {
    RemoveFirstOfConcat(rootPath, rel);
  }

  /** A Windows relative path below the root normalises to the slash form. */
  lemma NormalizeWindowsRelative(names: seq<string>)
    requires forall i :: 0 <= i < |names| ==> PlainName(names[i])
    ensures Normalize([WinSep] + Join(names, WinSep)) == [Sep] + Join(names, Sep)
  {
    NormalizeJoin(names);
    NormalizeConcat([WinSep], Join(names, WinSep));
    assert Normalize([WinSep]) == [Sep];
  }

  /** The example `C:\r\a` under the root `C:\r`. */
  lemma CreateSegmentsWindowsExample()
    ensures CreateSegments("C:\\r\\a", "C:\\r") == ["a"]
  {
    assert "C:\\r\\a" == "C:\\r" + ([WinSep] + Join(["a"], WinSep));
    CreateSegmentsOfWindowsChild("C:\\r", ["a"]);
  }

  /** The parent lookup normalises the path first, so a path written with
      either separator gives the same names. */
  lemma ParentSegmentsNormalized(path: string, remembered: string)
    ensures ParentSegments(path, remembered) == ParentSegments(Normalize(path), remembered)
  {
    NormalizeFixed(Normalize(path));
  }

  /** For an entry at root + '/' + names + '/' + leaf, where root is the
      normalised remembered folder, the parent lookup walks exactly names. */
  lemma ParentSegmentsOfChild(remembered: string, names: seq<string>, leaf: string)
    requires forall i :: 0 <= i < |names| ==> PlainName(names[i])
    requires PlainName(leaf)
    ensures ParentSegments(ChildPath(Normalize(remembered), names + [leaf]), remembered) == names
  {
    var base := Normalize(remembered);
    ChildPathParts(base, names, leaf);
    SegmentsBelow(base, names);
  }
}
