/**
 * What the archive `zipDirectory` writes holds: exactly one entry per visible node of the
 * tree (a marker for a directory, the bytes for a file), named by its path below the root,
 * each directory's marker before everything under it, and nothing of a hidden entry.
 */
module ArchiveProperties {
  import opened Results
  import opened FileNames
  import opened FileTree
  import opened Archive

  /** The tree with every hidden entry removed, at every depth. */
  function Prune(n: Node): (r: Node)
    ensures r.name == n.name && r.File? == n.File?
    decreases n, 1
  {
    match n
    case File(_, _) => n
    case Dir(name, cs) => Dir(name, PruneAll(cs))
  }

  function PruneAll(cs: seq<Node>): (r: seq<Node>)
    ensures forall y :: y in r ==> !IsHidden(y.name)
    decreases cs
  {
    if cs == [] then []
    else if IsHidden(cs[0].name) then PruneAll(cs[1..])
    else [Prune(cs[0])] + PruneAll(cs[1..])
  }

  /** Hidden files and directories, wherever they are, leave no trace in the archive. */
  lemma {:induction false} ZipIgnoresHidden(n: Node, fileName: string)
    ensures ZipEntries(Prune(n), fileName) == ZipEntries(n, fileName)
    decreases n, 1
  {
    if n.Dir? && !IsHidden(n.name) {
      ZipChildrenIgnoresHidden(n.children, fileName);
    }
  }

  lemma {:induction false} ZipChildrenIgnoresHidden(cs: seq<Node>, fileName: string)
    ensures ZipChildren(PruneAll(cs), fileName) == ZipChildren(cs, fileName)
    decreases cs
  {
    if cs != [] {
      ZipChildrenIgnoresHidden(cs[1..], fileName);
      if !IsHidden(cs[0].name) {
        ZipIgnoresHidden(cs[0], fileName + "/" + cs[0].name);
        assert ([Prune(cs[0])] + PruneAll(cs[1..]))[1..] == PruneAll(cs[1..]);
      }
    }
  }

  /** `s` begins with `p`. */
  predicate StartsWith(s: string, p: string) {
    |p| <= |s| && s[..|p|] == p
  }

  /** `s` is `p` itself or lies below the directory `p`. */
  predicate Beneath(s: string, p: string) {
    s == p || StartsWith(s, p + "/")
  }

  /** Every entry of a node archived as `fileName` is named `fileName` or lies below `fileName/`. */
  lemma {:induction false} EntriesStartWith(n: Node, fileName: string)
    ensures forall e :: e in ZipEntries(n, fileName) ==> Beneath(e.name, fileName)
    decreases n, 1
  {
    if n.Dir? && !IsHidden(n.name) {
      ChildEntriesStartWith(n.children, fileName);
      forall e | e in ZipEntries(n, fileName) ensures Beneath(e.name, fileName) {
        if e !in ZipChildren(n.children, fileName) {
          assert e == Entry(MarkerName(fileName), []);
        }
      }
    }
  }

  lemma {:induction false} ChildEntriesStartWith(cs: seq<Node>, fileName: string)
    ensures forall e :: e in ZipChildren(cs, fileName) ==> StartsWith(e.name, fileName + "/")
    decreases cs
  {
    if cs != [] {
      var g := fileName + "/" + cs[0].name;
      EntriesStartWith(cs[0], g);
      ChildEntriesStartWith(cs[1..], fileName);
      forall e | e in ZipEntries(cs[0], g) ensures StartsWith(e.name, fileName + "/") {
        assert g[..|fileName + "/"|] == fileName + "/";
        assert StartsWith(e.name, g);
        assert e.name[..|fileName + "/"|] == e.name[..|g|][..|fileName + "/"|];
      }
    }
  }

  /** The entries of a child are longer than the child's prefix `fileName/`, its name not being empty. */
  lemma {:induction false} ChildEntriesLonger(cs: seq<Node>, fileName: string)
    requires forall c :: c in cs ==> c.name != ""
    ensures forall e :: e in ZipChildren(cs, fileName) ==> |e.name| > |fileName| + 1
    decreases cs
  {
    if cs != [] {
      EntriesStartWith(cs[0], fileName + "/" + cs[0].name);
      ChildEntriesLonger(cs[1..], fileName);
    }
  }

  /**
   * A visible directory archived as `fileName` starts with its marker, `fileName` ending in
   * one '/', and every other entry lies strictly below `fileName/`.
   */
  lemma DirectoryMarkerFirst(n: Node, fileName: string)
    requires n.Dir? && !IsHidden(n.name) && WellFormed(n)
    ensures var r := ZipEntries(n, fileName);
      |r| > 0 && r[0] == Entry(MarkerName(fileName), []) &&
      forall i :: 1 <= i < |r| ==> StartsWith(r[i].name, fileName + "/") && |r[i].name| > |fileName| + 1
  {
    var r := ZipEntries(n, fileName);
    var rest := ZipChildren(n.children, fileName);
    ChildEntriesStartWith(n.children, fileName);
    ChildEntriesLonger(n.children, fileName);
    assert r == [Entry(MarkerName(fileName), [])] + rest;
    forall i | 1 <= i < |r| ensures StartsWith(r[i].name, fileName + "/") && |r[i].name| > |fileName| + 1 {
      assert r[i] == rest[i - 1] && rest[i - 1] in rest;
    }
  }

  /** Every node on the way down `path`, the start included, exists and is not hidden. */
  ghost predicate VisiblePath(n: Node, path: seq<string>)
    decreases path
  {
    !IsHidden(n.name) &&
    (path != [] ==> n.Dir? && Child(n.children, path[0]).Some? && VisiblePath(Child(n.children, path[0]).value, path[1..]))
  }

  /** The archive name of the node reached by `path` from a node archived as `fileName`. */
  function Under(fileName: string, path: seq<string>): string
    decreases path
  {
    if path == [] then fileName else Under(fileName + "/" + path[0], path[1..])
  }

  /** The entry a node contributes for itself under archive name `name`. */
  function EntryOf(n: Node, name: string): Entry {
    match n
    case File(_, data) => Entry(name, data)
    case Dir(_, _) => Entry(MarkerName(name), [])
  }

  /** The entries of every child are among the entries of the directory's children. */
  lemma {:induction false} ChildEntriesIncluded(cs: seq<Node>, c: Node, fileName: string)
    requires c in cs
    ensures forall e :: e in ZipEntries(c, fileName + "/" + c.name) ==> e in ZipChildren(cs, fileName)
    decreases cs
  {
    if cs[0] != c {
      ChildEntriesIncluded(cs[1..], c, fileName);
    }
  }

  /** Every visible file, with its bytes, and every visible directory, as its marker, is in the archive. */
  lemma {:induction false} VisibleNodeArchived(n: Node, path: seq<string>, fileName: string)
    requires VisiblePath(n, path)
    ensures Lookup(n, path).Some?
    ensures EntryOf(Lookup(n, path).value, Under(fileName, path)) in ZipEntries(n, fileName)
    decreases path
  {
    if path != [] {
      var c := Child(n.children, path[0]).value;
      var g := fileName + "/" + path[0];
      VisibleNodeArchived(c, path[1..], g);
      ChildEntriesIncluded(n.children, c, fileName);
    }
  }

  /** The child whose entries an entry of `ZipChildren` is among. */
  lemma {:induction false} ChildOfEntry(cs: seq<Node>, fileName: string, e: Entry) returns (c: Node)
    requires e in ZipChildren(cs, fileName)
    ensures c in cs && e in ZipEntries(c, fileName + "/" + c.name)
    decreases cs
  {
    if e in ZipEntries(cs[0], fileName + "/" + cs[0].name) {
      c := cs[0];
    } else {
      c := ChildOfEntry(cs[1..], fileName, e);
    }
  }

  /** Conversely, every entry of the archive is that of a visible node, named by its path. */
  lemma {:induction false} ArchivedNodeVisible(n: Node, fileName: string, e: Entry) returns (path: seq<string>)
    requires WellFormed(n) && e in ZipEntries(n, fileName)
    ensures VisiblePath(n, path) && Lookup(n, path).Some?
    ensures e == EntryOf(Lookup(n, path).value, Under(fileName, path))
    decreases n
  {
    if n.File? || e == Entry(MarkerName(fileName), []) {
      path := [];
    } else {
      var c := ChildOfEntry(n.children, fileName, e);
      ChildOfMember(n.children, c);
      var rest := ArchivedNodeVisible(c, fileName + "/" + c.name, e);
      path := [c.name] + rest;
      assert path[1..] == rest;
    }
  }

  /** No two entries have the same name: `putNextEntry` never refuses a duplicate. */
  predicate DistinctNames(es: seq<Entry>) {
    forall i, j :: 0 <= i < j < |es| ==> es[i].name != es[j].name
  }

  lemma DistinctConcat(a: seq<Entry>, b: seq<Entry>)
    requires DistinctNames(a) && DistinctNames(b)
    requires forall x, y :: x in a && y in b ==> x.name != y.name
    ensures DistinctNames(a + b)
  {
    forall i, j | 0 <= i < j < |a + b| ensures (a + b)[i].name != (a + b)[j].name {
      if j < |a| {
        assert (a + b)[i] == a[i] && (a + b)[j] == a[j];
      } else if i >= |a| {
        assert (a + b)[i] == b[i - |a|] && (a + b)[j] == b[j - |a|];
      } else {
        assert (a + b)[i] in a && (a + b)[j] in b;
      }
    }
  }

  /** The characters of `s` from `k` up to the next '/' or the end. */
  function Segment(s: string, k: nat): string
    requires k <= |s|
    decreases |s| - k
  {
    if k == |s| || s[k] == '/' then "" else [s[k]] + Segment(s, k + 1)
  }

  /** In `pre + x + rest`, with `x` free of '/' and `rest` empty or starting with one, `x` is the segment after `pre`. */
  lemma {:induction false} SegmentAfter(pre: string, x: string, rest: string)
    requires '/' !in x && (rest == [] || rest[0] == '/')
    ensures Segment(pre + x + rest, |pre|) == x
    decreases |x|
  {
    var s := pre + x + rest;
    if x == [] {
      assert s == pre + rest;
    } else {
      assert s[|pre|] == x[0] && x[0] in x;
      assert s == (pre + [x[0]]) + x[1..] + rest;
      SegmentAfter(pre + [x[0]], x[1..], rest);
    }
  }

  /** A name beneath `fileName/x` has `x` as its segment after `fileName/`. */
  lemma SegmentOfBeneath(fileName: string, x: string, s: string)
    requires ValidName(x) && Beneath(s, fileName + "/" + x)
    ensures |fileName| + 1 <= |s| && Segment(s, |fileName| + 1) == x
  {
    var pre := fileName + "/";
    var g := pre + x;
    if s == g {
      SegmentAtEnd(pre, x);
    } else {
      var rest := BelowDirectory(g, s);
      SegmentAfter(pre, x, rest);
    }
  }

  lemma SegmentAtEnd(pre: string, x: string)
    requires '/' !in x
    ensures Segment(pre + x, |pre|) == x
  {
    assert pre + x + [] == pre + x;
    SegmentAfter(pre, x, []);
  }

  /** A name below directory `g` is `g` followed by '/' and more. */
  lemma BelowDirectory(g: string, s: string) returns (rest: string)
    requires StartsWith(s, g + "/")
    ensures s == g + rest && rest != [] && rest[0] == '/'
  {
    rest := s[|g|..];
    assert s[..|g|] == (g + "/")[..|g|] == g;
    assert s[|g|] == (g + "/")[|g|];
    assert s == s[..|g|] + rest;
  }

  /** Names below two differently named siblings never meet. */
  lemma SeparateBranches(fileName: string, x: string, y: string, s: string, t: string)
    requires ValidName(x) && ValidName(y) && x != y
    requires Beneath(s, fileName + "/" + x) && Beneath(t, fileName + "/" + y)
    ensures s != t
  {
    SegmentOfBeneath(fileName, x, s);
    SegmentOfBeneath(fileName, y, t);
  }

  /** In a well-formed tree every archive entry has its own name. */
  lemma {:induction false} ArchiveNamesDistinct(n: Node, fileName: string)
    requires WellFormed(n)
    ensures DistinctNames(ZipEntries(n, fileName))
    decreases n, 1
  {
    if n.Dir? && !IsHidden(n.name) {
      ChildrenNamesDistinct(n.children, fileName);
      ChildEntriesStartWith(n.children, fileName);
      ChildEntriesLonger(n.children, fileName);
      DistinctConcat([Entry(MarkerName(fileName), [])], ZipChildren(n.children, fileName));
    }
  }

  lemma {:induction false} ChildrenNamesDistinct(cs: seq<Node>, fileName: string)
    requires UniqueNames(cs) && forall c :: c in cs ==> WellFormed(c)
    ensures DistinctNames(ZipChildren(cs, fileName))
    decreases cs
  {
    if cs != [] {
      var c := cs[0];
      var g := fileName + "/" + c.name;
      UniqueTail(cs);
      ArchiveNamesDistinct(c, g);
      ChildrenNamesDistinct(cs[1..], fileName);
      EntriesStartWith(c, g);
      forall x, y | x in ZipEntries(c, g) && y in ZipChildren(cs[1..], fileName) ensures x.name != y.name {
        var c' := ChildOfEntry(cs[1..], fileName, y);
        var j :| 0 <= j < |cs[1..]| && cs[1..][j] == c';
        assert cs[j + 1] == c';
        EntriesStartWith(c', fileName + "/" + c'.name);
        SeparateBranches(fileName, c.name, c'.name, x.name, y.name);
      }
      DistinctConcat(ZipEntries(c, g), ZipChildren(cs[1..], fileName));
    }
  }
}
