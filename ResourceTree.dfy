/**
 * Where `convertToResources` puts the files of a whole tree: subdirectories present in a
 * listing are converted by the recursive call, files are moved into their resource
 * directories, and neither disturbs what the other has done.
 */
module ResourceTree {
  import opened Results
  import opened FileNames
  import opened FileTree
  import opened Resources
  import opened ResourceProperties
  import opened ResourceRecords
  import opened Bytes

  /**
   * A tree whose files, at every level, are `<base>.py` or `<base>.json` with a non-empty base
   * that names no entry beside them. (A base naming a sibling directory is left out: when that
   * directory is listed after the file, the loop converts it and moves `<base>/<target>` once more.)
   */
  predicate Sources(d: Node)
    decreases d
  {
    MovableFiles(d) && forall c :: c in d.children && c.Dir? ==> Sources(c)
  }

  /**
   * `n` is what the conversion made of directory `o`: every file of `o` has moved to
   * `<base>/<target>`, every subdirectory of `o` is still there and converted in turn.
   */
  ghost predicate Relocated(o: Node, n: Node)
    decreases o
  {
    o.Dir? && n.Dir? &&
    forall c :: c in o.children ==>
      (c.File? ==> MovedFile(n, c)) &&
      (c.Dir? ==> Child(n.children, c.name).Some? && Relocated(c, Child(n.children, c.name).value))
  }

  /** Visited subdirectories are converted. */
  ghost predicate DirsDone(d0: Node, cur: Node, rem: seq<string>)
    requires d0.Dir? && cur.Dir?
  {
    forall c :: c in d0.children && c.Dir? && c.name !in rem ==>
      Child(cur.children, c.name).Some? && Relocated(c, Child(cur.children, c.name).value)
  }

  /** Entries the loop has added are directories holding files only. */
  ghost predicate NewDirsHoldFiles(d0: Node, cur: Node)
    requires d0.Dir? && cur.Dir?
  {
    forall t :: Child(cur.children, t).Some? && Child(d0.children, t).None? ==>
      Child(cur.children, t).value.Dir? && forall s :: s in SubEntries(cur.children, t) ==> s.File?
  }

  /** Where the conversion of directory `d0` stands with `rem` still to visit. */
  ghost predicate TreeState(d0: Node, cur: Node, rem: seq<string>)
    requires d0.Dir? && cur.Dir?
  {
    Unvisited(d0, cur, rem) && Moved(d0, cur, rem) && DirsDone(d0, cur, rem) && NewDirsHoldFiles(d0, cur)
  }

  /** The next listed file moves to `<base>/<target>`: the facts of `PlaceFileMoves`, as `MovedOne`. */
  lemma TreeStepMoves(d0: Node, cur: Node, rem: seq<string>, bound: nat, path: string)
    requires MovableFiles(d0) && WellFormed(d0)
    requires LoopInv(cur, rem, bound) && rem != []
    requires forall t :: t in rem ==> Child(d0.children, t).Some?
    requires Child(d0.children, rem[0]).value.File?
    requires Unvisited(d0, cur, rem) && NewDirsHoldFiles(d0, cur)
    ensures Child(cur.children, rem[0]).value.File?
    ensures PlaceFile(cur, rem[0], path).Ok? && PlaceFile(cur, rem[0], path).value.0.Dir?
    ensures var f := Child(d0.children, rem[0]).value;
      MovedOne(cur, PlaceFile(cur, rem[0], path).value.0, rem[0], RemoveExtension(rem[0]),
               TargetName(GetExtension(rem[0])), f.data)
  {
    var n := rem[0];
    var f := Child(d0.children, n).value;
    assert f in d0.children;
    var base := RemoveExtension(n);
    assert Child(d0.children, base).None?;
    PlaceFileMoves(cur, n, path);
    PlaceFilePreserves(cur, n, path);
    MovedOneOfPut(cur, PlaceFile(cur, n, path).value.0, n, base, TargetName(GetExtension(n)), f.data);
  }

  /** After a file moves, the entries the loop has added still hold files only. */
  lemma StepKeepsNewDirs(d0: Node, cur: Node, cur': Node, n: string, data: seq<int8>)
    requires d0.Dir? && cur.Dir? && cur'.Dir? && Child(d0.children, n).Some?
    requires NewDirsHoldFiles(d0, cur)
    requires MovedOne(cur, cur', n, RemoveExtension(n), TargetName(GetExtension(n)), data)
    ensures NewDirsHoldFiles(d0, cur')
  {
    var base := RemoveExtension(n);
    forall t | Child(cur'.children, t).Some? && Child(d0.children, t).None?
      ensures Child(cur'.children, t).value.Dir? && forall s :: s in SubEntries(cur'.children, t) ==> s.File?
    {
      if t == base && Child(cur.children, t).None? {
        assert SubEntries(cur.children, t) == [];
      }
    }
  }

  /** After a file moves, converted subdirectories stay as they were. */
  lemma StepKeepsDirsDone(d0: Node, cur: Node, cur': Node, rem: seq<string>, data: seq<int8>)
    requires MovableFiles(d0) && WellFormed(d0) && rem != [] && NoDuplicates(rem) && cur.Dir? && cur'.Dir?
    requires forall t :: t in rem ==> Child(d0.children, t).Some?
    requires Child(d0.children, rem[0]).value.File?
    requires DirsDone(d0, cur, rem)
    requires MovedOne(cur, cur', rem[0], RemoveExtension(rem[0]), TargetName(GetExtension(rem[0])), data)
    ensures DirsDone(d0, cur', rem[1..])
  {
    var f := Child(d0.children, rem[0]).value;
    assert f in d0.children;
    forall c | c in d0.children && c.Dir? && c.name !in rem[1..]
      ensures Child(cur'.children, c.name).Some? && Relocated(c, Child(cur'.children, c.name).value)
    {
      ChildOfMember(d0.children, c);
      FlatNames(d0, f, c);
      assert c.name != rem[0];
    }
  }

  /** Visiting the next listed file keeps `TreeState`. */
  lemma TreeFileStep(d0: Node, cur: Node, rem: seq<string>, bound: nat, path: string)
    requires MovableFiles(d0) && WellFormed(d0)
    requires LoopInv(cur, rem, bound) && rem != []
    requires forall t :: t in rem ==> Child(d0.children, t).Some?
    requires Child(d0.children, rem[0]).value.File?
    requires TreeState(d0, cur, rem)
    ensures Child(cur.children, rem[0]).value.File?
    ensures PlaceFile(cur, rem[0], path).Ok? && PlaceFile(cur, rem[0], path).value.0.Dir?
    ensures TreeState(d0, PlaceFile(cur, rem[0], path).value.0, rem[1..])
  {
    TreeStepMoves(d0, cur, rem, bound, path);
    var cur' := PlaceFile(cur, rem[0], path).value.0;
    var f := Child(d0.children, rem[0]).value;
    StepKeepsUnvisited(d0, cur, cur', rem, f.data);
    StepKeepsMoved(d0, cur, cur', rem, f);
    StepKeepsDirsDone(d0, cur, cur', rem, f.data);
    StepKeepsNewDirs(d0, cur, cur', rem[0], f.data);
  }

  /** Writing back subdirectory `n` keeps a moved file of `d0` moved. */
  lemma DirStepKeepsMovedFile(d0: Node, cur: Node, sub: Node, c: Node)
    requires MovableFiles(d0) && WellFormed(d0) && cur.Dir?
    requires Child(d0.children, sub.name).Some? && Child(d0.children, sub.name).value.Dir?
    requires c in d0.children && c.File? && MovedFile(cur, c)
    ensures MovedFile(Dir(cur.name, Put(cur.children, sub)), c)
  {
    var e := Child(d0.children, sub.name).value;
    FlatNames(d0, c, e);
    ChildOfMember(d0.children, c);
    assert c.name != sub.name;
  }

  /** Writing back subdirectory `n` keeps every other converted subdirectory of `d0`. */
  lemma DirStepKeepsDir(d0: Node, cur: Node, sub: Node, c: Node)
    requires d0.Dir? && WellFormed(d0) && cur.Dir? && c in d0.children && c.Dir?
    requires Child(d0.children, sub.name).Some? && Relocated(Child(d0.children, sub.name).value, sub)
    requires c.name != sub.name ==> Child(cur.children, c.name).Some? && Relocated(c, Child(cur.children, c.name).value)
    ensures var cur' := Dir(cur.name, Put(cur.children, sub));
      Child(cur'.children, c.name).Some? && Relocated(c, Child(cur'.children, c.name).value)
  {
    var cur' := Dir(cur.name, Put(cur.children, sub));
    if c.name == sub.name {
      ChildOfMember(d0.children, c);
      assert Child(cur'.children, c.name) == Some(sub);
    } else {
      assert Child(cur'.children, c.name) == Child(cur.children, c.name);
    }
  }

  /** Writing back subdirectory `rem[0]` keeps the rest of the listing unvisited and added entries as they were. */
  lemma DirStepKeepsOthers(d0: Node, cur: Node, rem: seq<string>, sub: Node)
    requires d0.Dir? && cur.Dir? && rem != [] && sub.name == rem[0] && Child(d0.children, rem[0]).Some?
    requires forall t :: t in rem[1..] ==> t in rem && t != rem[0]
    requires Unvisited(d0, cur, rem) && NewDirsHoldFiles(d0, cur)
    ensures Unvisited(d0, Dir(cur.name, Put(cur.children, sub)), rem[1..])
    ensures NewDirsHoldFiles(d0, Dir(cur.name, Put(cur.children, sub)))
  {
    var cur' := Dir(cur.name, Put(cur.children, sub));
    forall t | Child(cur'.children, t).Some? && Child(d0.children, t).None?
      ensures Child(cur'.children, t).value.Dir? && forall s :: s in SubEntries(cur'.children, t) ==> s.File?
    {
      assert Child(cur'.children, t) == Child(cur.children, t);
      assert SubEntries(cur'.children, t) == SubEntries(cur.children, t);
    }
  }

  lemma DirStepKeepsMoved(d0: Node, cur: Node, rem: seq<string>, sub: Node)
    requires MovableFiles(d0) && WellFormed(d0) && rem != [] && cur.Dir?
    requires forall t :: t in rem[1..] ==> t in rem && t != rem[0]
    requires Child(d0.children, rem[0]).Some? && Child(d0.children, rem[0]).value.Dir? && sub.name == rem[0]
    requires Moved(d0, cur, rem)
    ensures Moved(d0, Dir(cur.name, Put(cur.children, sub)), rem[1..])
  {
    forall c | c in d0.children && c.File? && c.name !in rem[1..]
      ensures MovedFile(Dir(cur.name, Put(cur.children, sub)), c)
    {
      ChildOfMember(d0.children, c);
      DirStepKeepsMovedFile(d0, cur, sub, c);
    }
  }

  lemma DirStepKeepsDirsDone(d0: Node, cur: Node, rem: seq<string>, sub: Node)
    requires d0.Dir? && WellFormed(d0) && rem != [] && cur.Dir?
    requires forall t :: t in rem[1..] ==> t in rem && t != rem[0]
    requires Child(d0.children, rem[0]).Some? && sub.name == rem[0]
    requires Relocated(Child(d0.children, rem[0]).value, sub)
    requires DirsDone(d0, cur, rem)
    ensures DirsDone(d0, Dir(cur.name, Put(cur.children, sub)), rem[1..])
  {
    forall c | c in d0.children && c.Dir? && c.name !in rem[1..]
      ensures Child(Put(cur.children, sub), c.name).Some? && Relocated(c, Child(Put(cur.children, sub), c.name).value)
    {
      DirStepKeepsDir(d0, cur, sub, c);
    }
  }

  /** Writing back the converted subdirectory `rem[0]` keeps `TreeState`. */
  lemma TreeDirStep(d0: Node, cur: Node, rem: seq<string>, sub: Node)
    requires MovableFiles(d0) && WellFormed(d0) && rem != [] && NoDuplicates(rem) && cur.Dir?
    requires Child(d0.children, rem[0]).Some? && Child(d0.children, rem[0]).value.Dir?
    requires TreeState(d0, cur, rem)
    requires sub.name == rem[0] && Relocated(Child(d0.children, rem[0]).value, sub)
    ensures TreeState(d0, Dir(cur.name, Put(cur.children, sub)), rem[1..])
  {
    RestOfListing(rem);
    DirStepKeepsOthers(d0, cur, rem, sub);
    DirStepKeepsMoved(d0, cur, rem, sub);
    DirStepKeepsDirsDone(d0, cur, rem, sub);
  }

  /** The loop over the listing of `d0` ends with every entry relocated. */
  lemma {:induction false} TreeFold(d0: Node, cur: Node, rem: seq<string>, path: string, acc: set<string>, bound: nat)
    requires Sources(d0) && WellFormed(d0)
    requires LoopInv(cur, rem, bound)
    requires forall t :: t in rem ==> Child(d0.children, t).Some?
    requires TreeState(d0, cur, rem)
    ensures var r := Fold(cur, rem, path, acc, bound);
      r.Ok? && r.value.0.Dir? && TreeState(d0, r.value.0, [])
    decreases d0, 0, |rem|
  {
    if rem != [] {
      RestOfListing(rem);
      var e := Child(d0.children, rem[0]).value;
      assert e in d0.children;
      if e.File? {
        TreeFileStep(d0, cur, rem, bound, path);
        FoldFileStep(cur, rem, path, acc, bound);
        var next := PlaceFile(cur, rem[0], path).value;
        TreeFold(d0, next.0, rem[1..], path, acc + {next.1}, bound);
      } else {
        FoldDirStep(cur, rem, path, acc, bound);
        TreeConvert(e, path + "/" + rem[0], acc);
        var s := Convert(e, path + "/" + rem[0], acc).value;
        TreeDirStep(d0, cur, rem, s.0);
        TreeFold(d0, Dir(cur.name, Put(cur.children, s.0)), rem[1..], path, s.1, bound);
      }
    }
  }

  /** Converting a `Sources` tree succeeds and relocates every entry, at every depth. */
  lemma {:induction false} TreeConvert(d: Node, path: string, acc: set<string>)
    requires Sources(d) && WellFormed(d) && Convertible(d)
    ensures Convert(d, path, acc).Ok? && Relocated(d, Convert(d, path, acc).value.0)
    decreases d, 1
  {
    var names := Names(d.children);
    ListingInv(d);
    NamesAreEntries(d.children);
    assert TreeState(d, d, names);
    TreeFold(d, d, names, path, acc, Height(d));
    var r := Convert(d, path, acc).value.0;
    assert TreeState(d, r, []);
  }

  /** A file directly inside `o` is gone from `n` and found at `<base>/<target>` in it. */
  lemma RelocatedHere(o: Node, n: Node, name: string)
    requires Relocated(o, n)
    requires Lookup(o, [name]).Some? && Lookup(o, [name]).value.File?
    ensures var f, base, target := Lookup(o, [name]).value, RemoveExtension(name), TargetName(GetExtension(name));
      Lookup(n, [name]).None? &&
      Lookup(n, [base, target]) == Some(File(target, f.data))
  {
    var c := Child(o.children, name).value;
    assert Lookup(o, [name]) == Lookup(c, []);
    assert MovedFile(n, c);
    MovedFileLookup(n, c);
  }

  /** Looking up `[x] + q` is looking up `q` in the entry `x`. */
  lemma LookupFirst(n: Node, x: string, q: seq<string>)
    requires n.Dir? && Child(n.children, x).Some?
    ensures Lookup(n, [x] + q) == Lookup(Child(n.children, x).value, q)
  {
    assert ([x] + q)[1..] == q;
  }

  lemma SplitFirst(p: seq<string>, tail: seq<string>)
    requires p != []
    ensures p + tail == [p[0]] + (p[1..] + tail)
  {
  }

  /** Following `p` from two directories related by `Relocated`, a file's old and new places. */
  lemma {:induction false} RelocatedLookup(o: Node, n: Node, p: seq<string>, name: string)
    requires Relocated(o, n)
    requires Lookup(o, p + [name]).Some? && Lookup(o, p + [name]).value.File?
    ensures var f, base, target := Lookup(o, p + [name]).value, RemoveExtension(name), TargetName(GetExtension(name));
      Lookup(n, p + [name]).None? &&
      Lookup(n, p + [base, target]) == Some(File(target, f.data))
    decreases p
  {
    var base, target := RemoveExtension(name), TargetName(GetExtension(name));
    if p == [] {
      assert p + [name] == [name] && p + [base, target] == [base, target];
      RelocatedHere(o, n, name);
    } else {
      var x, q := p[0], p[1..];
      SplitFirst(p, [name]);
      SplitFirst(p, [base, target]);
      var c := Child(o.children, x).value;
      LookupFirst(o, x, q + [name]);
      assert c.Dir? && Relocated(c, Child(n.children, x).value);
      LookupFirst(n, x, q + [name]);
      LookupFirst(n, x, q + [base, target]);
      RelocatedLookup(c, Child(n.children, x).value, q, name);
    }
  }

  /**
   * In a tree whose files are all `<base>.py` or `<base>.json` with bases free at their level,
   * however deep the tree: the conversion succeeds, and every file `<p>/<base>.<ext>` is gone
   * from its place and found at `<p>/<base>/<target>` with its bytes.
   */
  lemma ConvertRelocatesEveryFile(d: Node, path: string, acc: set<string>, p: seq<string>, name: string)
    requires Sources(d) && WellFormed(d) && Convertible(d)
    requires Lookup(d, p + [name]).Some? && Lookup(d, p + [name]).value.File?
    ensures var r, f := Convert(d, path, acc), Lookup(d, p + [name]).value;
      var base, target := RemoveExtension(name), TargetName(GetExtension(name));
      r.Ok? && Lookup(r.value.0, p + [name]).None? &&
      Lookup(r.value.0, p + [base, target]) == Some(File(target, f.data))
  {
    TreeConvert(d, path, acc);
    RelocatedLookup(d, Convert(d, path, acc).value.0, p, name);
  }

  /**
   * Why `Sources` keeps a base away from sibling directories too: with `<base>.<ext>` listed
   * before an empty directory `<base>`, the file is moved into that directory, and the loop
   * then converts the directory and moves the file once more, so `<base>/<target>` is empty.
   */
  lemma SiblingDirectoryListedLater(dirName: string, n: string, x: seq<int8>, path: string)
    requires ValidName(dirName) && Movable(n)
    ensures var base, target := RemoveExtension(n), TargetName(GetExtension(n));
      var d0 := Dir(dirName, [File(n, x), Dir(base, [])]);
      var stem := if target == "code.py" then "code" else "resource";
      WellFormed(d0) && Convertible(d0) &&
      var r := Convert(d0, path, {});
      r.Ok? && r.value.0 == Dir(dirName, [Dir(base, [Dir(stem, [File(target, x)])])]) &&
      Lookup(r.value.0, [base, target]).None?
  {
    var base, target := RemoveExtension(n), TargetName(GetExtension(n));
    var stem := if target == "code.py" then "code" else "resource";
    SiblingStart(dirName, n, x);
    SiblingFold(dirName, n, base, target, x, path);
    MovedTwiceLookup(dirName, base, target, x);
  }

  /** After the second move, `<base>/<target>` names nothing: `<base>` holds only `<stem>`. */
  lemma MovedTwiceLookup(dirName: string, base: string, target: string, x: seq<int8>)
    requires target == "code.py" || target == "resource.json"
    ensures var stem := if target == "code.py" then "code" else "resource";
      Lookup(Dir(dirName, [Dir(base, [Dir(stem, [File(target, x)])])]), [base, target]).None?
  {
    var stem := if target == "code.py" then "code" else "resource";
    var last := Dir(base, [Dir(stem, [File(target, x)])]);
    assert stem != target && Child(last.children, target).None?;
    assert Child([last], base) == Some(last);
    assert [base, target][1..] == [target];
  }

  /** The names of the counterexample: a movable file name and its base, both valid. */
  predicate SiblingNames(dirName: string, n: string, base: string, target: string) {
    ValidName(dirName) && ValidName(n) && ValidName(base) && base != n &&
    RemoveExtension(n) == base && TargetName(GetExtension(n)) == target &&
    (target == "code.py" || target == "resource.json")
  }

  /** The directory of the counterexample is well-formed and convertible. */
  lemma SiblingStart(dirName: string, n: string, x: seq<int8>)
    requires ValidName(dirName) && Movable(n)
    ensures SiblingNames(dirName, n, RemoveExtension(n), TargetName(GetExtension(n)))
    ensures var d0 := Dir(dirName, [File(n, x), Dir(RemoveExtension(n), [])]);
      WellFormed(d0) && Convertible(d0)
  {
    SplitAtExtension(n);
  }

  /** The loop over the listing `[<base>.<ext>, <base>]` of the counterexample. */
  lemma SiblingFold(dirName: string, n: string, base: string, target: string, x: seq<int8>, path: string)
    requires SiblingNames(dirName, n, base, target)
    requires WellFormed(Dir(dirName, [File(n, x), Dir(base, [])])) && Convertible(Dir(dirName, [File(n, x), Dir(base, [])]))
    ensures var d0 := Dir(dirName, [File(n, x), Dir(base, [])]);
      var stem := if target == "code.py" then "code" else "resource";
      Convert(d0, path, {}) ==
        Ok((Dir(dirName, [Dir(base, [Dir(stem, [File(target, x)])])]),
            {path + "/" + base, path + "/" + base + "/" + stem}))
  {
    var stem := if target == "code.py" then "code" else "resource";
    var d0 := Dir(dirName, [File(n, x), Dir(base, [])]);
    var acc: set<string> := {path + "/" + base};
    ListingInv(d0);
    assert Names(d0.children) == [n, base];
    SiblingFirstPass(dirName, n, base, target, x, path);
    SiblingSecondPass(dirName, base, target, x, path, acc, Height(d0));
    assert acc + {path + "/" + base + "/" + stem} == {path + "/" + base, path + "/" + base + "/" + stem};
  }

  /** The second pass of the loop converts `<base>`, which now holds the moved file. */
  lemma SiblingSecondPass(dirName: string, base: string, target: string, x: seq<int8>, path: string,
                          acc: set<string>, h: nat)
    requires ValidName(base) && (target == "code.py" || target == "resource.json")
    requires LoopInv(Dir(dirName, [Dir(base, [File(target, x)])]), [base], h)
    ensures var stem := if target == "code.py" then "code" else "resource";
      Fold(Dir(dirName, [Dir(base, [File(target, x)])]), [base], path, acc, h) ==
        Ok((Dir(dirName, [Dir(base, [Dir(stem, [File(target, x)])])]), acc + {path + "/" + base + "/" + stem}))
  {
    var cur := Dir(dirName, [Dir(base, [File(target, x)])]);
    SiblingDirStep(dirName, base, target, x, path, acc);
    FoldOneDir(cur, base, path, acc, h);
  }

  /** The first pass of the loop moves the file into the existing directory `<base>`. */
  lemma SiblingFirstPass(dirName: string, n: string, base: string, target: string, x: seq<int8>, path: string)
    requires SiblingNames(dirName, n, base, target)
    requires var d0 := Dir(dirName, [File(n, x), Dir(base, [])]);
      WellFormed(d0) && Convertible(d0) && LoopInv(d0, [n, base], Height(d0))
    ensures var d0 := Dir(dirName, [File(n, x), Dir(base, [])]);
      var cur := Dir(dirName, [Dir(base, [File(target, x)])]);
      LoopInv(cur, [base], Height(d0)) &&
      Fold(d0, [n, base], path, {}, Height(d0)) == Fold(cur, [base], path, {path + "/" + base}, Height(d0))
  {
    var d0 := Dir(dirName, [File(n, x), Dir(base, [])]);
    var none: set<string> := {};
    SiblingFileStep(dirName, n, base, target, x, path);
    FoldFileStep(d0, [n, base], path, none, Height(d0));
    assert [n, base][1..] == [base];
    assert none + {path + "/" + base} == {path + "/" + base};
  }

  /** The file step: `<base>` already exists, so the file is renamed into it. */
  lemma SiblingFileStep(dirName: string, n: string, base: string, target: string, x: seq<int8>, path: string)
    requires SiblingNames(dirName, n, base, target)
    requires WellFormed(Dir(dirName, [File(n, x), Dir(base, [])])) && Convertible(Dir(dirName, [File(n, x), Dir(base, [])]))
    ensures PlaceFile(Dir(dirName, [File(n, x), Dir(base, [])]), n, path) ==
              Ok((Dir(dirName, [Dir(base, [File(target, x)])]), path + "/" + base))
  {
    var d0 := Dir(dirName, [File(n, x), Dir(base, [])]);
    var inner := Dir(base, [File(target, x)]);
    assert d0.children[1..] == [Dir(base, [])];
    assert Child(d0.children, base) == Some(Dir(base, []));
    assert Put(d0.children, inner) == [File(n, x), inner];
    assert Without([File(n, x), inner], n) == [inner];
  }

  /** The directory step: converting `<base>` moves the file that was just moved into it. */
  lemma SiblingDirStep(dirName: string, base: string, target: string, x: seq<int8>, path: string, acc: set<string>)
    requires ValidName(base) && (target == "code.py" || target == "resource.json")
    ensures var stem := if target == "code.py" then "code" else "resource";
      var cur := Dir(dirName, [Dir(base, [File(target, x)])]);
      WellFormed(cur.children[0]) && Convertible(cur.children[0]) &&
      Child(cur.children, base) == Some(Dir(base, [File(target, x)])) &&
      Convert(Dir(base, [File(target, x)]), path + "/" + base, acc) ==
        Ok((Dir(base, [Dir(stem, [File(target, x)])]), acc + {path + "/" + base + "/" + stem})) &&
      Put(cur.children, Dir(base, [Dir(stem, [File(target, x)])])) == [Dir(base, [Dir(stem, [File(target, x)])])]
  {
    TargetIsStable(target);
    ConvertSingle(base, target, x, path + "/" + base, acc);
  }
}
