/**
 * What `convertToResources` does to the files it visits: where a file ends up, what a
 * directory holding only flat `.py`/`.json` files turns into, and why a second run does not
 * leave a converted tree alone.
 */
module ResourceProperties {
  import opened Results
  import opened FileNames
  import opened FileTree
  import opened Resources
  import opened Bytes

  /** The entries of the directory `base` inside `cs`, or none when there is no such directory. */
  function SubEntries(cs: seq<Node>, base: string): seq<Node> {
    match Child(cs, base)
    case Some(Dir(_, sc)) => sc
    case _ => []
  }

  /**
   * A file `<base>.py` or `<base>.json` whose resource directory is absent, or present without
   * a directory in the way of `<target>`, ends as `<base>/<target>` with its bytes: its old
   * name is gone, `<base>/` is a directory holding its old entries with `<target>` written
   * into them, and no other entry changes.
   */
  lemma PlaceFileMoves(d: Node, name: string, path: string)
    requires d.Dir? && WellFormed(d) && Convertible(d)
    requires Child(d.children, name).Some? && Child(d.children, name).value.File?
    requires RemoveExtension(name) != "" && TargetName(GetExtension(name)) != ""
    requires Child(d.children, RemoveExtension(name)).None? ||
             (Child(d.children, RemoveExtension(name)).value.Dir? &&
              forall s :: s in SubEntries(d.children, RemoveExtension(name)) ==> s.File?)
    ensures var r, base, target := PlaceFile(d, name, path), RemoveExtension(name), TargetName(GetExtension(name));
      r.Ok? && var d' := r.value.0;
      d'.Dir? && Child(d'.children, name).None? &&
      Child(d'.children, base) == Some(Dir(base, Put(SubEntries(d.children, base), File(target, Child(d.children, name).value.data)))) &&
      forall t :: t != name && t != base ==> Child(d'.children, t) == Child(d.children, t)
  {
    var base, target := RemoveExtension(name), TargetName(GetExtension(name));
    PlaceFileUnfold(d, name, path);
    var d1 := CreateDirectories(d, base, path + "/" + base).value;
    RenameIntoMoves(d1, name, base, target);
  }

  /** What `PlaceFileMoves` gives, in the form the loop over a flat directory uses. */
  lemma MovedOneOfPut(cur: Node, cur': Node, n: string, base: string, target: string, data: seq<int8>)
    requires cur.Dir? && cur'.Dir?
    requires Child(cur'.children, n).None?
    requires Child(cur'.children, base) == Some(Dir(base, Put(SubEntries(cur.children, base), File(target, data))))
    requires forall t :: t != n && t != base ==> Child(cur'.children, t) == Child(cur.children, t)
    ensures MovedOne(cur, cur', n, base, target, data)
  {
    assert SubEntries(cur'.children, base) == Put(SubEntries(cur.children, base), File(target, data));
  }

  /** The steps `PlaceFile` takes for such a file: create `<base>` (or find it), then rename into it. */
  lemma PlaceFileUnfold(d: Node, name: string, path: string)
    requires d.Dir? && WellFormed(d) && Convertible(d)
    requires Child(d.children, name).Some? && Child(d.children, name).value.File?
    requires RemoveExtension(name) != "" && TargetName(GetExtension(name)) != ""
    requires Child(d.children, RemoveExtension(name)).None? ||
             (Child(d.children, RemoveExtension(name)).value.Dir? &&
              forall s :: s in SubEntries(d.children, RemoveExtension(name)) ==> s.File?)
    ensures var base, target := RemoveExtension(name), TargetName(GetExtension(name));
      var d1 := CreateDirectories(d, base, path + "/" + base);
      base != name && d1.Ok? && Child(d1.value.children, name) == Child(d.children, name) &&
      Child(d1.value.children, base).value.children == SubEntries(d.children, base) &&
      (Child(SubEntries(d.children, base), target).None? || Child(SubEntries(d.children, base), target).value.File?) &&
      PlaceFile(d, name, path) == Ok((RenameInto(d1.value, name, base, target), path + "/" + base))
  {
    var base, target := RemoveExtension(name), TargetName(GetExtension(name));
    SplitAtExtension(name);
    if Child(SubEntries(d.children, base), target).Some? {
      assert Child(SubEntries(d.children, base), target).value in SubEntries(d.children, base);
    }
  }

  /** Renaming into an existing directory where `target` is free or a file: the file goes there, nothing else moves. */
  lemma RenameIntoMoves(d: Node, name: string, base: string, target: string)
    requires d.Dir? && base != name && target != ""
    requires Child(d.children, name).Some? && Child(d.children, name).value.File?
    requires Child(d.children, base).Some? && Child(d.children, base).value.Dir?
    requires var sub := Child(d.children, base).value;
      Child(sub.children, target).None? || Child(sub.children, target).value.File?
    ensures var r := RenameInto(d, name, base, target);
      var sub := Child(d.children, base).value;
      r.Dir? && Child(r.children, name).None? &&
      Child(r.children, base) == Some(Dir(base, Put(sub.children, File(target, Child(d.children, name).value.data)))) &&
      forall t :: t != name && t != base ==> Child(r.children, t) == Child(d.children, t)
  {
    var sub := Child(d.children, base).value;
    var sub' := Dir(base, Put(sub.children, File(target, Child(d.children, name).value.data)));
    var cs := Put(d.children, sub');
    assert RenameInto(d, name, base, target) == Dir(d.name, Without(cs, name));
  }

  /**
   * A file whose extension is neither `py` nor `json` names the resource directory itself as
   * its destination, which a rename cannot replace: the file stays where it is, while
   * `<base>/` is still created and `<dir>/<base>` still recorded.
   */
  lemma UnknownExtensionStays(d: Node, name: string, path: string)
    requires d.Dir? && WellFormed(d) && Convertible(d)
    requires Child(d.children, name).Some? && Child(d.children, name).value.File?
    requires TargetName(GetExtension(name)) == ""
    ensures var r := PlaceFile(d, name, path);
      var base := RemoveExtension(name);
      r.Ok? ==>
        r.value.1 == path + "/" + base &&
        Child(r.value.0.children, name) == Child(d.children, name) &&
        (base != "" ==> Child(r.value.0.children, base).Some? && Child(r.value.0.children, base).value.Dir?) &&
        forall t :: t != base ==> Child(r.value.0.children, t) == Child(d.children, t)
  {
    SplitAtExtension(name);
  }

  /**
   * A directory that holds only files named `<base>.py` or `<base>.json` with a non-empty base,
   * none of whose bases is already an entry of it.
   */
  predicate FlatSources(d: Node) {
    d.Dir? &&
    forall c :: c in d.children ==>
      c.File? && RemoveExtension(c.name) != "" && TargetName(GetExtension(c.name)) != "" &&
      Child(d.children, RemoveExtension(c.name)).None?
  }

  /**
   * Every file of directory `d` is named `<base>.py` or `<base>.json` with a non-empty base
   * that is not already an entry of `d`; subdirectories may hold anything.
   */
  predicate MovableFiles(d: Node) {
    d.Dir? &&
    forall c :: c in d.children && c.File? ==>
      RemoveExtension(c.name) != "" && TargetName(GetExtension(c.name)) != "" &&
      Child(d.children, RemoveExtension(c.name)).None?
  }

  lemma FlatFilesMovable(d: Node)
    requires FlatSources(d)
    ensures MovableFiles(d)
  {
  }

  /** The resource directories recorded for the listed names, at `path`. */
  function ResourceDirs(path: string, names: seq<string>): set<string> {
    if names == [] then {} else {path + "/" + RemoveExtension(names[0])} + ResourceDirs(path, names[1..])
  }

  /** Entries not yet visited are as they were. */
  ghost predicate Unvisited(d0: Node, cur: Node, rem: seq<string>)
    requires d0.Dir? && cur.Dir?
  {
    forall t :: t in rem ==> Child(cur.children, t) == Child(d0.children, t)
  }

  /** The file `c` has moved from `cur` to `<base>/<target>` inside it. */
  ghost predicate MovedFile(cur: Node, c: Node)
    requires cur.Dir? && c.File?
  {
    Child(cur.children, c.name).None? &&
    Child(cur.children, RemoveExtension(c.name)).Some? &&
    Child(SubEntries(cur.children, RemoveExtension(c.name)), TargetName(GetExtension(c.name))) ==
      Some(File(TargetName(GetExtension(c.name)), c.data))
  }

  /** Visited files have moved to `<base>/<target>`. */
  ghost predicate Moved(d0: Node, cur: Node, rem: seq<string>)
    requires d0.Dir? && cur.Dir?
  {
    forall c :: c in d0.children && c.File? && c.name !in rem ==> MovedFile(cur, c)
  }

  /** The entry `t` of `cur` is a resource directory of a visited file and holds files only. */
  ghost predicate ResourceEntry(d0: Node, cur: Node, rem: seq<string>, t: string)
    requires d0.Dir? && cur.Dir?
  {
    Child(cur.children, t).Some? && Child(cur.children, t).value.Dir? &&
    (forall s :: s in SubEntries(cur.children, t) ==> s.File?) &&
    exists c :: c in d0.children && c.name !in rem && RemoveExtension(c.name) == t
  }

  /** Every entry not still to visit is a resource directory of a visited file. */
  ghost predicate OnlyResources(d0: Node, cur: Node, rem: seq<string>)
    requires d0.Dir? && cur.Dir?
  {
    forall t :: Child(cur.children, t).Some? && t !in rem ==> ResourceEntry(d0, cur, rem, t)
  }

  /** Where the conversion of flat directory `d0` stands with `rem` still to visit. */
  ghost predicate FlatState(d0: Node, cur: Node, rem: seq<string>)
    requires d0.Dir? && cur.Dir?
  {
    Unvisited(d0, cur, rem) && Moved(d0, cur, rem) && OnlyResources(d0, cur, rem)
  }

  /** `cur'` is `cur` after the file `n` moved to `<base>/<target>` (the facts `PlaceFileMoves` gives). */
  ghost predicate MovedOne(cur: Node, cur': Node, n: string, base: string, target: string, data: seq<int8>)
    requires cur.Dir? && cur'.Dir?
  {
    Child(cur'.children, n).None? &&
    Child(cur'.children, base).Some? && Child(cur'.children, base).value.Dir? &&
    (forall t :: Child(SubEntries(cur'.children, base), t) ==
       if t == target then Some(File(target, data)) else Child(SubEntries(cur.children, base), t)) &&
    (forall s :: s in SubEntries(cur'.children, base) ==> s == File(target, data) || s in SubEntries(cur.children, base)) &&
    forall t :: t != n && t != base ==> Child(cur'.children, t) == Child(cur.children, t)
  }

  /** The step's facts about the file `rem[0]` of a flat directory. */
  lemma FlatStepMoves(d0: Node, cur: Node, rem: seq<string>, bound: nat, path: string)
    requires FlatSources(d0) && WellFormed(d0)
    requires LoopInv(cur, rem, bound) && rem != []
    requires forall t :: t in rem ==> Child(d0.children, t).Some?
    requires FlatState(d0, cur, rem)
    ensures Child(cur.children, rem[0]).value.File?
    ensures PlaceFile(cur, rem[0], path).Ok?
    ensures PlaceFile(cur, rem[0], path).value.0.Dir?
    ensures var f := Child(d0.children, rem[0]).value;
      f.File? && MovedOne(cur, PlaceFile(cur, rem[0], path).value.0, rem[0], RemoveExtension(rem[0]),
                          TargetName(GetExtension(rem[0])), f.data)
  {
    var n := rem[0];
    var f := Child(d0.children, n).value;
    assert f in d0.children;
    var base := RemoveExtension(n);
    assert base !in rem;
    PlaceFileMoves(cur, n, path);
    PlaceFilePreserves(cur, n, path);
    MovedOneOfPut(cur, PlaceFile(cur, n, path).value.0, n, base, TargetName(GetExtension(n)), f.data);
  }

  lemma RestAvoidsStep(d0: Node, rem: seq<string>)
    requires MovableFiles(d0) && rem != [] && NoDuplicates(rem)
    requires forall t :: t in rem ==> Child(d0.children, t).Some?
    requires Child(d0.children, rem[0]).value.File?
    ensures forall t :: t in rem[1..] ==> t in rem && t != rem[0]
    ensures RemoveExtension(rem[0]) !in rem
  {
    forall t | t in rem[1..] ensures t in rem && t != rem[0] {
      var j :| 0 <= j < |rem[1..]| && rem[1..][j] == t;
      assert rem[j + 1] == t;
    }
    assert Child(d0.children, rem[0]).value in d0.children;
  }

  lemma StepKeepsUnvisited(d0: Node, cur: Node, cur': Node, rem: seq<string>, data: seq<int8>)
    requires MovableFiles(d0) && rem != [] && NoDuplicates(rem) && cur.Dir? && cur'.Dir?
    requires forall t :: t in rem ==> Child(d0.children, t).Some?
    requires Child(d0.children, rem[0]).value.File?
    requires Unvisited(d0, cur, rem)
    requires MovedOne(cur, cur', rem[0], RemoveExtension(rem[0]), TargetName(GetExtension(rem[0])), data)
    ensures Unvisited(d0, cur', rem[1..])
  {
    RestAvoidsStep(d0, rem);
  }

  /** A visited file stays moved when the next one moves; the file that moves is now moved. */
  lemma MovedFileStep(cur: Node, cur': Node, n: string, base: string, target: string, f: Node, c: Node)
    requires cur.Dir? && cur'.Dir? && c.File? && f.File?
    requires MovedOne(cur, cur', n, base, target, f.data)
    requires c.name != base && RemoveExtension(c.name) != n
    requires c.name == n ==> c == f && RemoveExtension(n) == base && TargetName(GetExtension(n)) == target
    requires c.name != n ==> MovedFile(cur, c) && (RemoveExtension(c.name) == base ==> TargetName(GetExtension(c.name)) != target)
    ensures MovedFile(cur', c)
  {
  }

  /** The names of a directory's entries are never the base of one of its files. */
  lemma FlatNames(d0: Node, c: Node, e: Node)
    requires MovableFiles(d0) && c in d0.children && c.File? && e in d0.children
    ensures e.name != RemoveExtension(c.name)
  {
    var i :| 0 <= i < |d0.children| && d0.children[i] == e;
  }

  lemma StepKeepsMoved(d0: Node, cur: Node, cur': Node, rem: seq<string>, f: Node)
    requires MovableFiles(d0) && WellFormed(d0) && rem != [] && NoDuplicates(rem) && cur.Dir? && cur'.Dir?
    requires forall t :: t in rem ==> Child(d0.children, t).Some?
    requires Child(d0.children, rem[0]) == Some(f) && f.File?
    requires Moved(d0, cur, rem)
    requires MovedOne(cur, cur', rem[0], RemoveExtension(rem[0]), TargetName(GetExtension(rem[0])), f.data)
    ensures Moved(d0, cur', rem[1..])
  {
    RestAvoidsStep(d0, rem);
    var n, base, target := rem[0], RemoveExtension(rem[0]), TargetName(GetExtension(rem[0]));
    forall c | c in d0.children && c.File? && c.name !in rem[1..] ensures MovedFile(cur', c) {
      FlatNames(d0, f, c);
      FlatNames(d0, c, f);
      if c.name == n {
        ChildOfMember(d0.children, c);
      } else if RemoveExtension(c.name) == base && TargetName(GetExtension(c.name)) == target {
        ExtensionSplitIsInjective(c.name, n);
      }
      MovedFileStep(cur, cur', n, base, target, f, c);
    }
  }

  lemma ResourceEntryStep(d0: Node, cur: Node, cur': Node, rem: seq<string>, f: Node, t: string)
    requires d0.Dir? && rem != [] && cur.Dir? && cur'.Dir? && f.File? && f in d0.children && f.name == rem[0]
    requires MovedOne(cur, cur', rem[0], RemoveExtension(rem[0]), TargetName(GetExtension(rem[0])), f.data)
    requires forall t :: t in rem[1..] ==> t in rem && t != rem[0]
    requires Child(cur'.children, t).Some? && t !in rem[1..]
    requires t != RemoveExtension(rem[0]) ==> ResourceEntry(d0, cur, rem, t)
    requires t == RemoveExtension(rem[0]) && Child(cur.children, t).Some? ==> ResourceEntry(d0, cur, rem, t)
    ensures ResourceEntry(d0, cur', rem[1..], t)
  {
    if t != RemoveExtension(rem[0]) {
      var c :| c in d0.children && c.name !in rem && RemoveExtension(c.name) == t;
      assert c.name !in rem[1..];
    } else {
      assert f.name !in rem[1..];
    }
  }

  lemma StepKeepsOnlyResources(d0: Node, cur: Node, cur': Node, rem: seq<string>, f: Node)
    requires FlatSources(d0) && rem != [] && NoDuplicates(rem) && cur.Dir? && cur'.Dir?
    requires forall t :: t in rem ==> Child(d0.children, t).Some?
    requires Child(d0.children, rem[0]) == Some(f) && f.File?
    requires OnlyResources(d0, cur, rem)
    requires MovedOne(cur, cur', rem[0], RemoveExtension(rem[0]), TargetName(GetExtension(rem[0])), f.data)
    ensures OnlyResources(d0, cur', rem[1..])
  {
    FlatFilesMovable(d0);
    RestAvoidsStep(d0, rem);
    forall t | Child(cur'.children, t).Some? && t !in rem[1..] ensures ResourceEntry(d0, cur', rem[1..], t) {
      ResourceEntryStep(d0, cur, cur', rem, f, t);
    }
  }

  /** Visiting the next listed file of a flat directory moves it and keeps `FlatState`. */
  lemma FlatStep(d0: Node, cur: Node, rem: seq<string>, bound: nat, path: string)
    requires FlatSources(d0) && WellFormed(d0)
    requires LoopInv(cur, rem, bound) && rem != []
    requires forall t :: t in rem ==> Child(d0.children, t).Some?
    requires FlatState(d0, cur, rem)
    ensures Child(cur.children, rem[0]).value.File?
    ensures PlaceFile(cur, rem[0], path).Ok?
    ensures PlaceFile(cur, rem[0], path).value.0.Dir?
    ensures FlatState(d0, PlaceFile(cur, rem[0], path).value.0, rem[1..])
  {
    FlatStepMoves(d0, cur, rem, bound, path);
    var cur' := PlaceFile(cur, rem[0], path).value.0;
    var f := Child(d0.children, rem[0]).value;
    FlatFilesMovable(d0);
    StepKeepsUnvisited(d0, cur, cur', rem, f.data);
    StepKeepsMoved(d0, cur, cur', rem, f);
    StepKeepsOnlyResources(d0, cur, cur', rem, f);
  }

  /** The loop over a flat directory's listing moves every file and records every base. */
  lemma {:induction false} FlatFold(d0: Node, cur: Node, rem: seq<string>, path: string, acc: set<string>, bound: nat)
    requires FlatSources(d0) && WellFormed(d0)
    requires LoopInv(cur, rem, bound)
    requires forall t :: t in rem ==> Child(d0.children, t).Some?
    requires FlatState(d0, cur, rem)
    ensures var r := Fold(cur, rem, path, acc, bound);
      r.Ok? && r.value.1 == acc + ResourceDirs(path, rem) && r.value.0.Dir? && FlatState(d0, r.value.0, [])
    decreases |rem|
  {
    if rem != [] {
      FlatStep(d0, cur, rem, bound, path);
      FoldFileStep(cur, rem, path, acc, bound);
      var next := PlaceFile(cur, rem[0], path).value;
      FlatFilesMovable(d0);
      RestAvoidsStep(d0, rem);
      FlatFold(d0, next.0, rem[1..], path, acc + {next.1}, bound);
      SetStep(acc, next.1, ResourceDirs(path, rem[1..]));
    }
  }

  lemma SetStep<T>(acc: set<T>, x: T, rest: set<T>)
    ensures acc + ({x} + rest) == acc + {x} + rest
  {
  }

  /** `ResourceDirs` holds one `<path>/<base>` per listed name and nothing else. */
  lemma ResourceDirsMembers(path: string, names: seq<string>)
    ensures forall x :: x in ResourceDirs(path, names) <==> exists n :: n in names && x == path + "/" + RemoveExtension(n)
  {
    forall x ensures x in ResourceDirs(path, names) <==> exists n :: n in names && x == path + "/" + RemoveExtension(n) {
      if x in ResourceDirs(path, names) {
        var n := ResourceDirsSource(path, names, x);
      } else {
        forall n | n in names ensures x != path + "/" + RemoveExtension(n) {
          ResourceDirsHas(path, names, n);
        }
      }
    }
  }

  lemma {:induction false} ResourceDirsSource(path: string, names: seq<string>, x: string) returns (n: string)
    requires x in ResourceDirs(path, names)
    ensures n in names && x == path + "/" + RemoveExtension(n)
    decreases names
  {
    if x == path + "/" + RemoveExtension(names[0]) {
      n := names[0];
    } else {
      n := ResourceDirsSource(path, names[1..], x);
    }
  }

  lemma {:induction false} ResourceDirsHas(path: string, names: seq<string>, n: string)
    requires n in names
    ensures path + "/" + RemoveExtension(n) in ResourceDirs(path, names)
    decreases names
  {
    if n != names[0] {
      ResourceDirsHas(path, names[1..], n);
    }
  }

  /** Where the loop over a flat directory's listing ends: every file moved, only resource directories left. */
  lemma FlatConverted(d0: Node, path: string, acc: set<string>)
    requires FlatSources(d0) && WellFormed(d0) && Convertible(d0)
    ensures var r := Convert(d0, path, acc);
      r.Ok? && r.value.0.Dir? && r.value.1 == acc + ResourceDirs(path, Names(d0.children)) &&
      FlatState(d0, r.value.0, [])
  {
    var names := Names(d0.children);
    ListingInv(d0);
    NamesAreEntries(d0.children);
    assert FlatState(d0, d0, names);
    FlatFold(d0, d0, names, path, acc, Height(d0));
  }

  /**
   * Converting a directory of flat `.py`/`.json` files whose bases are not already entries:
   * every file `<base>.<ext>` is gone from the directory and found at `<base>/<target>` with
   * its bytes, every entry afterwards is such a resource directory, and the set gains exactly
   * the `<path>/<base>` of the listed files.
   */
  lemma FlatConvert(d0: Node, path: string, acc: set<string>)
    requires FlatSources(d0) && WellFormed(d0) && Convertible(d0)
    ensures var r := Convert(d0, path, acc);
      r.Ok? && r.value.0.Dir? &&
      r.value.1 == acc + ResourceDirs(path, Names(d0.children)) &&
      (forall c :: c in d0.children ==>
         Child(r.value.0.children, c.name).None? &&
         Lookup(r.value.0, [RemoveExtension(c.name), TargetName(GetExtension(c.name))]) ==
           Some(File(TargetName(GetExtension(c.name)), c.data))) &&
      forall t :: Child(r.value.0.children, t).Some? ==>
        Child(r.value.0.children, t).value.Dir? && exists c :: c in d0.children && RemoveExtension(c.name) == t
  {
    FlatConverted(d0, path, acc);
    forall c | c in d0.children
      ensures Child(Convert(d0, path, acc).value.0.children, c.name).None? &&
              Lookup(Convert(d0, path, acc).value.0, [RemoveExtension(c.name), TargetName(GetExtension(c.name))]) ==
                Some(File(TargetName(GetExtension(c.name)), c.data))
    {
      FlatConvertAt(d0, path, acc, c);
    }
    forall t | Child(Convert(d0, path, acc).value.0.children, t).Some?
      ensures Child(Convert(d0, path, acc).value.0.children, t).value.Dir? &&
              exists c :: c in d0.children && RemoveExtension(c.name) == t
    {
      assert ResourceEntry(d0, Convert(d0, path, acc).value.0, [], t);
    }
  }

  /** `FlatConvert`, the recorded set alone. */
  lemma FlatConvertSet(d0: Node, path: string, acc: set<string>)
    requires FlatSources(d0) && WellFormed(d0) && Convertible(d0)
    ensures var r := Convert(d0, path, acc);
      r.Ok? && r.value.0.Dir? && r.value.1 == acc + ResourceDirs(path, Names(d0.children))
  {
    FlatConverted(d0, path, acc);
  }

  /** `FlatConvert` for one listed file. */
  lemma FlatConvertAt(d0: Node, path: string, acc: set<string>, c: Node)
    requires FlatSources(d0) && WellFormed(d0) && Convertible(d0) && c in d0.children
    ensures var r := Convert(d0, path, acc);
      r.Ok? && r.value.0.Dir? &&
      Child(r.value.0.children, c.name).None? &&
      Lookup(r.value.0, [RemoveExtension(c.name), TargetName(GetExtension(c.name))]) ==
        Some(File(TargetName(GetExtension(c.name)), c.data))
  {
    FlatConverted(d0, path, acc);
    var d1 := Convert(d0, path, acc).value.0;
    assert c.File? && MovedFile(d1, c);
    assert ResourceEntry(d0, d1, [], RemoveExtension(c.name));
    MovedFileLookup(d1, c);
  }

  /** `FlatConvert` for one entry of the result. */
  lemma FlatConvertOnly(d0: Node, path: string, acc: set<string>, t: string)
    requires FlatSources(d0) && WellFormed(d0) && Convertible(d0)
    requires Convert(d0, path, acc).Ok? && Child(Convert(d0, path, acc).value.0.children, t).Some?
    ensures exists c :: c in d0.children && RemoveExtension(c.name) == t
  {
    FlatConverted(d0, path, acc);
    assert ResourceEntry(d0, Convert(d0, path, acc).value.0, [], t);
  }

  /** When every listed file has base `b`, the converted directory holds nothing but `b`. */
  lemma OneBaseOnly(d0: Node, path: string, acc: set<string>, b: string)
    requires FlatSources(d0) && WellFormed(d0) && Convertible(d0)
    requires forall c :: c in d0.children ==> RemoveExtension(c.name) == b
    requires Convert(d0, path, acc).Ok?
    ensures forall t :: Child(Convert(d0, path, acc).value.0.children, t).Some? ==> t == b
  {
    forall t | Child(Convert(d0, path, acc).value.0.children, t).Some? ensures t == b {
      FlatConvertOnly(d0, path, acc, t);
    }
  }

  lemma MovedFileLookup(d1: Node, c: Node)
    requires d1.Dir? && c.File? && MovedFile(d1, c)
    requires Child(d1.children, RemoveExtension(c.name)).value.Dir?
    ensures Lookup(d1, [RemoveExtension(c.name), TargetName(GetExtension(c.name))]) ==
              Some(File(TargetName(GetExtension(c.name)), c.data))
  {
    var b, target := RemoveExtension(c.name), TargetName(GetExtension(c.name));
    var sub := Child(d1.children, b).value;
    assert SubEntries(d1.children, b) == sub.children;
    assert [b, target][1..] == [target];
    assert Lookup(d1, [b, target]) == Lookup(sub, [target]);
    assert Lookup(sub, [target]) == Lookup(Child(sub.children, target).value, []);
  }

  /** A source file name the conversion moves: a `py` or `json` extension after a plain base. */
  predicate Movable(n: string) {
    ValidName(n) && RemoveExtension(n) != "" && RemoveExtension(n) != "." && RemoveExtension(n) != ".." &&
    TargetName(GetExtension(n)) != ""
  }

  /** Two different movable names with one base form a flat source directory. */
  lemma SharedBaseIsFlat(dirName: string, n1: string, n2: string, x: seq<int8>, y: seq<int8>)
    requires ValidName(dirName) && Movable(n1) && Movable(n2) && n1 != n2
    requires RemoveExtension(n1) == RemoveExtension(n2)
    ensures var d0 := Dir(dirName, [File(n1, x), File(n2, y)]);
      WellFormed(d0) && Convertible(d0) && FlatSources(d0) &&
      TargetName(GetExtension(n1)) != TargetName(GetExtension(n2))
  {
    MovableBaseDiffers(n1);
    MovableBaseDiffers(n2);
    if TargetName(GetExtension(n1)) == TargetName(GetExtension(n2)) {
      ExtensionSplitIsInjective(n1, n2);
    }
    FilePairIsFlat(dirName, File(n1, x), File(n2, y), RemoveExtension(n1));
  }

  /** A movable name has an extension, so its base is a different name. */
  lemma MovableBaseDiffers(n: string)
    requires Movable(n)
    ensures RemoveExtension(n) != n
  {
    SplitAtExtension(n);
  }

  lemma FilePairIsFlat(dirName: string, p: Node, j: Node, b: string)
    requires ValidName(dirName) && p.File? && j.File? && Movable(p.name) && Movable(j.name) && p.name != j.name
    requires RemoveExtension(p.name) == b == RemoveExtension(j.name) && b != p.name && b != j.name
    ensures var d0 := Dir(dirName, [p, j]);
      WellFormed(d0) && Convertible(d0) && FlatSources(d0)
  {
    PairWellFormed(dirName, p, j);
    PairBaseAbsent(p, j, b);
  }

  lemma PairWellFormed(dirName: string, p: Node, j: Node)
    requires ValidName(dirName) && p.File? && j.File? && Movable(p.name) && Movable(j.name) && p.name != j.name
    ensures WellFormed(Dir(dirName, [p, j])) && Convertible(Dir(dirName, [p, j]))
  {
    assert forall c :: c in [p, j] ==> c == p || c == j;
  }

  lemma PairBaseAbsent(p: Node, j: Node, b: string)
    requires b != p.name && b != j.name
    ensures Child([p, j], b).None?
  {
    assert [p, j][1..] == [j];
  }

  /**
   * Two files with one base, such as `<b>.py` and `<b>.json`, share the resource directory
   * `<b>`: it receives both targets with their bytes, both old names are gone, nothing else
   * is left in the directory, and the set gains the one element `<path>/<b>`.
   */
  lemma SharedBaseOneResource(dirName: string, n1: string, n2: string, x: seq<int8>, y: seq<int8>, path: string, acc: set<string>)
    requires ValidName(dirName) && Movable(n1) && Movable(n2) && n1 != n2
    requires RemoveExtension(n1) == RemoveExtension(n2)
    ensures var d0, b := Dir(dirName, [File(n1, x), File(n2, y)]), RemoveExtension(n1);
      var t1, t2 := TargetName(GetExtension(n1)), TargetName(GetExtension(n2));
      WellFormed(d0) && Convertible(d0) && t1 != t2 &&
      var r := Convert(d0, path, acc);
      r.Ok? &&
      r.value.1 == acc + {path + "/" + b} &&
      Lookup(r.value.0, [b, t1]) == Some(File(t1, x)) &&
      Lookup(r.value.0, [b, t2]) == Some(File(t2, y)) &&
      Child(r.value.0.children, n1).None? && Child(r.value.0.children, n2).None? &&
      forall t :: Child(r.value.0.children, t).Some? ==> t == b
  {
    var p, j := File(n1, x), File(n2, y);
    var d0 := Dir(dirName, [p, j]);
    var b := RemoveExtension(n1);
    SharedBaseIsFlat(dirName, n1, n2, x, y);
    FlatConvertSet(d0, path, acc);
    TwoNamesOneDir(path, p, j);
    FlatConvertAt(d0, path, acc, p);
    FlatConvertAt(d0, path, acc, j);
    PairBase(p, j, b);
    OneBaseOnly(d0, path, acc, b);
  }

  lemma PairBase(p: Node, j: Node, b: string)
    requires RemoveExtension(p.name) == b == RemoveExtension(j.name)
    ensures forall c :: c in [p, j] ==> RemoveExtension(c.name) == b
  {
  }

  lemma TwoNamesOneDir(path: string, p: Node, j: Node)
    requires RemoveExtension(p.name) == RemoveExtension(j.name)
    ensures ResourceDirs(path, Names([p, j])) == {path + "/" + RemoveExtension(p.name)}
  {
    assert Names([p, j]) == [p.name, j.name];
    assert [p.name, j.name][1..] == [j.name];
    assert [j.name][1..] == [];
    assert ResourceDirs(path, [j.name]) == {path + "/" + RemoveExtension(j.name)};
  }

  /**
   * A directory holding one file `<base>.py` or `<base>.json` becomes a directory holding
   * the resource directory `<base>` with the one file `<target>`.
   */
  lemma ConvertSingle(dirName: string, n: string, x: seq<int8>, path: string, acc: set<string>)
    requires ValidName(dirName) && ValidName(n)
    requires RemoveExtension(n) != "" && RemoveExtension(n) != "." && RemoveExtension(n) != ".."
    requires TargetName(GetExtension(n)) != ""
    ensures var d0 := Dir(dirName, [File(n, x)]);
      WellFormed(d0) && Convertible(d0) &&
      Convert(d0, path, acc) ==
        Ok((Dir(dirName, [Dir(RemoveExtension(n), [File(TargetName(GetExtension(n)), x)])]),
            acc + {path + "/" + RemoveExtension(n)}))
  {
    var f := File(n, x);
    var d0 := Dir(dirName, [f]);
    assert WellFormed(d0) && Convertible(d0);
    SingleStep(dirName, n, x, path);
    ListingInv(d0);
    assert Names(d0.children) == [n];
    FoldOneFile(d0, n, path, acc, Height(d0));
  }

  lemma SingleStep(dirName: string, n: string, x: seq<int8>, path: string)
    requires ValidName(dirName) && ValidName(n)
    requires RemoveExtension(n) != "" && RemoveExtension(n) != "." && RemoveExtension(n) != ".."
    requires TargetName(GetExtension(n)) != ""
    requires WellFormed(Dir(dirName, [File(n, x)])) && Convertible(Dir(dirName, [File(n, x)]))
    ensures PlaceFile(Dir(dirName, [File(n, x)]), n, path) ==
              Ok((Dir(dirName, [Dir(RemoveExtension(n), [File(TargetName(GetExtension(n)), x)])]),
                  path + "/" + RemoveExtension(n)))
  {
    var base, target := RemoveExtension(n), TargetName(GetExtension(n));
    SplitAtExtension(n);
    var d0 := Dir(dirName, [File(n, x)]);
    assert base != n;
    assert Child(d0.children, base).None?;
    var d1 := Dir(dirName, [File(n, x), Dir(base, [])]);
    assert d0.children[1..] == [];
    assert Put(d0.children, Dir(base, [])) == d1.children;
    assert CreateDirectories(d0, base, path + "/" + base) == Ok(d1);
    assert Put(d1.children, Dir(base, [File(target, x)])) == [File(n, x), Dir(base, [File(target, x)])];
  }

  /** The loop over a one-entry listing naming a file. */
  lemma FoldOneFile(cur: Node, n: string, path: string, acc: set<string>, bound: nat)
    requires LoopInv(cur, [n], bound)
    requires Child(cur.children, n).value.File? && PlaceFile(cur, n, path).Ok?
    ensures Fold(cur, [n], path, acc, bound) ==
              Ok((PlaceFile(cur, n, path).value.0, acc + {PlaceFile(cur, n, path).value.1}))
  {
    FoldFileStep(cur, [n], path, acc, bound);
    assert [n][1..] == [];
  }

  /** The loop over a one-entry listing naming a directory. */
  lemma FoldOneDir(cur: Node, n: string, path: string, acc: set<string>, bound: nat)
    requires LoopInv(cur, [n], bound)
    requires Child(cur.children, n).value.Dir?
    requires Convert(Child(cur.children, n).value, path + "/" + n, acc).Ok?
    ensures var sub := Convert(Child(cur.children, n).value, path + "/" + n, acc).value;
      Fold(cur, [n], path, acc, bound) == Ok((Dir(cur.name, Put(cur.children, sub.0)), sub.1))
  {
    assert [n][1..] == [];
  }

  /**
   * Converting is not idempotent: `<base>.py` becomes `<base>/code.py` (and `<base>.json`
   * becomes `<base>/resource.json`), and running the conversion on that output moves the
   * file once more, to `<base>/code/code.py` (`<base>/resource/resource.json`), recording
   * `<path>/<base>/code` (`<path>/<base>/resource`).
   */
  lemma ConvertTwiceMovesAgain(dirName: string, n: string, x: seq<int8>, path: string)
    requires ValidName(dirName) && ValidName(n)
    requires RemoveExtension(n) != "" && RemoveExtension(n) != "." && RemoveExtension(n) != ".."
    requires TargetName(GetExtension(n)) != ""
    ensures var d0, base, target := Dir(dirName, [File(n, x)]), RemoveExtension(n), TargetName(GetExtension(n));
      var once := Dir(dirName, [Dir(base, [File(target, x)])]);
      var stem := if target == "code.py" then "code" else "resource";
      WellFormed(d0) && Convertible(d0) && WellFormed(once) && Convertible(once) &&
      Convert(d0, path, {}) == Ok((once, {path + "/" + base})) &&
      Convert(once, path, {}) == Ok((Dir(dirName, [Dir(base, [Dir(stem, [File(target, x)])])]), {path + "/" + base + "/" + stem})) &&
      Convert(once, path, {}).value.0 != once
  {
    var base, target := RemoveExtension(n), TargetName(GetExtension(n));
    var none: set<string> := {};
    ConvertSingle(dirName, n, x, path, none);
    assert none + {path + "/" + base} == {path + "/" + base};
    TargetIsStable(target);
    ConvertSingleAgain(dirName, base, target, x, path);
  }

  /** `code.py` and `resource.json` are names the conversion maps onto themselves. */
  lemma TargetIsStable(t: string)
    requires t == "code.py" || t == "resource.json"
    ensures ValidName(t) && TargetName(GetExtension(t)) == t
    ensures RemoveExtension(t) == if t == "code.py" then "code" else "resource"
  {
    if t == "code.py" {
      CodeTargetIsStable();
    } else {
      ResourceTargetIsStable();
    }
  }

  lemma CodeTargetIsStable()
    ensures ValidName("code.py") && GetExtension("code.py") == "py" && RemoveExtension("code.py") == "code"
  {
    JoinExtension("code", "py");
    assert "code.py" == "code" + "." + "py";
  }

  lemma ResourceTargetIsStable()
    ensures ValidName("resource.json") && GetExtension("resource.json") == "json" && RemoveExtension("resource.json") == "resource"
  {
    JoinExtension("resource", "json");
    assert "resource.json" == "resource" + "." + "json";
  }

  /** The resource directory `<b>` holding `<t>` is visited again, and `<t>` moved again. */
  lemma ConvertSingleAgain(dirName: string, b: string, t: string, x: seq<int8>, path: string)
    requires ValidName(dirName) && ValidName(b) && ValidName(t)
    requires RemoveExtension(t) != "" && RemoveExtension(t) != "." && RemoveExtension(t) != ".."
    requires TargetName(GetExtension(t)) != ""
    ensures var once := Dir(dirName, [Dir(b, [File(t, x)])]);
      WellFormed(once) && Convertible(once) &&
      Convert(once, path, {}) ==
        Ok((Dir(dirName, [Dir(b, [Dir(RemoveExtension(t), [File(TargetName(GetExtension(t)), x)])])]),
            {path + "/" + b + "/" + RemoveExtension(t)}))
  {
    var none: set<string> := {};
    var inner := Dir(b, [File(t, x)]);
    var once := Dir(dirName, [inner]);
    var inner' := Dir(b, [Dir(RemoveExtension(t), [File(TargetName(GetExtension(t)), x)])]);
    ConvertSingle(b, t, x, path + "/" + b, none);
    assert none + {path + "/" + b + "/" + RemoveExtension(t)} == {path + "/" + b + "/" + RemoveExtension(t)};
    assert WellFormed(once) && Convertible(once);
    ListingInv(once);
    assert Names(once.children) == [b];
    assert Child(once.children, b) == Some(inner);
    assert Put(once.children, inner') == [inner'];
    FoldOneDir(once, b, path, none, Height(once));
  }
}
