/**
 * `convertToResources` records a resource directory for every file of the tree it is given,
 * however deep: subdirectories present in a listing are recursed into with the same set.
 */
module ResourceRecords {
  import opened Results
  import opened FileNames
  import opened FileTree
  import opened Resources

  /** The resource directories a file anywhere under directory `n` at `path` should produce. */
  function ResourcesOf(n: Node, path: string): set<string>
    decreases n, 1
  {
    match n
    case File(_, _) => {}
    case Dir(_, cs) => ChildResources(cs, path)
  }

  function ChildResources(cs: seq<Node>, path: string): set<string>
    decreases cs
  {
    if cs == [] then {} else EntryResources(cs[0], path) + ChildResources(cs[1..], path)
  }

  /** A file gives `<path>/<base>`; a subdirectory gives what its own entries give below it. */
  function EntryResources(c: Node, path: string): set<string>
    decreases c, 2
  {
    if c.File? then {path + "/" + RemoveExtension(c.name)} else ResourcesOf(c, path + "/" + c.name)
  }

  /** What every entry of `cs` gives lies in `s`, so their union does. */
  lemma {:induction false} ChildResourcesWithin(cs: seq<Node>, path: string, s: set<string>)
    requires forall c :: c in cs ==> EntryResources(c, path) <= s
    ensures ChildResources(cs, path) <= s
    decreases cs
  {
    if cs != [] {
      assert cs[0] in cs;
      ChildResourcesWithin(cs[1..], path, s);
    }
  }

  /**
   * `n` still has everything `o` has: the same name and kind, and for a directory an entry
   * covering each of `o`'s entries. Contents of files and added entries do not matter.
   */
  ghost predicate Covers(o: Node, n: Node)
    decreases o
  {
    o.name == n.name && o.File? == n.File? &&
    (o.Dir? ==> forall c :: c in o.children ==>
       Child(n.children, c.name).Some? && Covers(c, Child(n.children, c.name).value))
  }

  lemma {:induction false} CoversItself(n: Node)
    requires WellFormed(n)
    ensures Covers(n, n)
    decreases n
  {
    if n.Dir? {
      forall c | c in n.children ensures Child(n.children, c.name).Some? && Covers(c, Child(n.children, c.name).value) {
        ChildOfMember(n.children, c);
        CoversItself(c);
      }
    }
  }

  lemma {:induction false} CoversTransitive(a: Node, b: Node, c: Node)
    requires Covers(a, b) && Covers(b, c)
    ensures Covers(a, c)
    decreases a
  {
    if a.Dir? {
      forall x | x in a.children ensures Child(c.children, x.name).Some? && Covers(x, Child(c.children, x.name).value) {
        var y := Child(b.children, x.name).value;
        CoversTransitive(x, y, Child(c.children, y.name).value);
      }
    }
  }

  /** Writing a file over a file, or under a new name, keeps everything the directory had. */
  lemma CoversPut(d: Node, x: Node)
    requires d.Dir? && WellFormed(d) && x.File?
    requires Child(d.children, x.name).Some? ==> Child(d.children, x.name).value.File?
    ensures Covers(d, Dir(d.name, Put(d.children, x)))
  {
    forall c | c in d.children
      ensures Child(Put(d.children, x), c.name).Some? && Covers(c, Child(Put(d.children, x), c.name).value)
    {
      ChildOfMember(d.children, c);
      if c.name != x.name {
        CoversItself(c);
      }
    }
  }

  /** Moving one file keeps every other entry covering what it was. */
  lemma PlaceFileCovers(d: Node, name: string, path: string, t: string)
    requires d.Dir? && WellFormed(d) && Convertible(d)
    requires Child(d.children, name).Some? && Child(d.children, name).value.File?
    requires PlaceFile(d, name, path).Ok?
    requires t != name && Child(d.children, t).Some?
    ensures var d' := PlaceFile(d, name, path).value.0;
      Child(d'.children, t).Some? && Covers(Child(d.children, t).value, Child(d'.children, t).value)
  {
    var base, target := RemoveExtension(name), TargetName(GetExtension(name));
    var f := Child(d.children, name).value;
    var e := Child(d.children, t).value;
    assert e in d.children;
    CoversItself(e);
    if base != "" {
      SplitAtExtension(name);
      var d1 := CreateDirectories(d, base, path + "/" + base).value;
      assert Child(d1.children, t) == Child(d.children, t);
      RenameIntoCovers(d1, name, base, target, t);
    }
  }

  /** The rename keeps every other entry covering what it was; `<base>` gains at most the moved file. */
  lemma RenameIntoCovers(d: Node, name: string, base: string, target: string, t: string)
    requires d.Dir? && base != name
    requires Child(d.children, name).Some? && Child(d.children, name).value.File?
    requires Child(d.children, base).Some? && Child(d.children, base).value.Dir?
    requires t != name && Child(d.children, t).Some? && WellFormed(Child(d.children, t).value)
    ensures var r := RenameInto(d, name, base, target);
      Child(r.children, t).Some? && Covers(Child(d.children, t).value, Child(r.children, t).value)
  {
    CoversItself(Child(d.children, t).value);
    var sub := Child(d.children, base).value;
    if t == base && RenameInto(d, name, base, target) != d {
      CoversPut(sub, File(target, Child(d.children, name).value.data));
    }
  }

  /** Entries of `o` not yet visited are covered in `cur`; visited ones have been recorded in `acc`. */
  ghost predicate RecordsInv(o: Node, cur: Node, rem: seq<string>, path: string, acc: set<string>)
    requires o.Dir? && cur.Dir?
  {
    forall c :: c in o.children ==>
      (c.name in rem ==> Child(cur.children, c.name).Some? && Covers(c, Child(cur.children, c.name).value)) &&
      (c.name !in rem ==> EntryResources(c, path) <= acc)
  }

  /**
   * Converting a directory that covers `o` records the resource directory of every file
   * anywhere under `o`.
   */
  lemma {:induction false} ConvertRecordsAll(o: Node, d: Node, path: string, acc: set<string>)
    requires d.Dir? && WellFormed(d) && Convertible(d) && Covers(o, d)
    ensures var r := Convert(d, path, acc);
      r.Ok? ==> ResourcesOf(o, path) <= r.value.1
    decreases Height(d), 1, 0
  {
    var names := Names(d.children);
    ListingInv(d);
    NamesAreEntries(d.children);
    FoldRecordsAll(o, d, names, path, acc, Height(d));
  }

  lemma {:induction false} FoldRecordsAll(o: Node, cur: Node, rem: seq<string>, path: string, acc: set<string>, bound: nat)
    requires o.Dir? && LoopInv(cur, rem, bound) && RecordsInv(o, cur, rem, path, acc)
    ensures var r := Fold(cur, rem, path, acc, bound);
      r.Ok? ==> ResourcesOf(o, path) <= r.value.1
    decreases bound, 0, |rem|
  {
    if rem == [] {
      ChildResourcesWithin(o.children, path, acc);
    } else {
      var n := rem[0];
      var e := Child(cur.children, n).value;
      RestOfListing(rem);
      if e.Dir? {
        FoldDirStep(cur, rem, path, acc, bound);
        var s := Convert(e, path + "/" + n, acc);
        if s.Ok? {
          forall c | c in o.children && c.name == n ensures EntryResources(c, path) <= s.value.1 {
            ConvertRecordsAll(c, e, path + "/" + n, acc);
          }
          RecordsAfterDir(o, cur, rem, path, acc, s.value.0, s.value.1);
          FoldRecordsAll(o, Dir(cur.name, Put(cur.children, s.value.0)), rem[1..], path, s.value.1, bound);
        }
      } else {
        FoldFileStep(cur, rem, path, acc, bound);
        var next := PlaceFile(cur, n, path);
        if next.Ok? {
          var cur' := next.value.0;
          forall c | c in o.children && c.name in rem[1..]
            ensures Child(cur'.children, c.name).Some? && Covers(c, Child(cur'.children, c.name).value)
          {
            PlaceFileCovers(cur, n, path, c.name);
            CoversTransitive(c, Child(cur.children, c.name).value, Child(cur'.children, c.name).value);
          }
          RecordsAfterFile(o, cur, rem, path, acc, cur', next.value.1);
          FoldRecordsAll(o, cur', rem[1..], path, acc + {next.value.1}, bound);
        }
      }
    }
  }

  /** The names after the first of a listing without duplicates are listed and differ from the first. */
  lemma RestOfListing(rem: seq<string>)
    requires rem != [] && NoDuplicates(rem)
    ensures forall t :: t in rem[1..] ==> t in rem && t != rem[0]
  {
    forall t | t in rem[1..] ensures t in rem && t != rem[0] {
      var j :| 0 <= j < |rem[1..]| && rem[1..][j] == t;
      assert rem[j + 1] == t;
    }
  }

  /** After the subdirectory `rem[0]` is converted in place, the invariant holds for the rest of the listing. */
  lemma RecordsAfterDir(o: Node, cur: Node, rem: seq<string>, path: string, acc: set<string>, sub: Node, acc': set<string>)
    requires o.Dir? && cur.Dir? && rem != [] && RecordsInv(o, cur, rem, path, acc)
    requires forall t :: t in rem[1..] ==> t in rem && t != rem[0]
    requires sub.name == rem[0] && acc <= acc'
    requires forall c :: c in o.children && c.name == rem[0] ==> EntryResources(c, path) <= acc'
    ensures RecordsInv(o, Dir(cur.name, Put(cur.children, sub)), rem[1..], path, acc')
  {
  }

  /** After the file `rem[0]` is moved and its resource directory `x` recorded, the invariant holds for the rest. */
  lemma RecordsAfterFile(o: Node, cur: Node, rem: seq<string>, path: string, acc: set<string>, cur': Node, x: string)
    requires o.Dir? && cur.Dir? && cur'.Dir? && rem != [] && RecordsInv(o, cur, rem, path, acc)
    requires Child(cur.children, rem[0]).Some? && Child(cur.children, rem[0]).value.File?
    requires forall t :: t in rem[1..] ==> t in rem && t != rem[0]
    requires x == path + "/" + RemoveExtension(rem[0])
    requires forall c :: c in o.children && c.name in rem[1..] ==>
      Child(cur'.children, c.name).Some? && Covers(c, Child(cur'.children, c.name).value)
    ensures RecordsInv(o, cur', rem[1..], path, acc + {x})
  {
  }

  /**
   * Every file anywhere in the converted tree has its resource directory recorded: a file
   * `<dir>/<base>.<ext>` gives `<dir>/<base>`, for every subdirectory `<dir>` present when
   * its parent was listed.
   */
  lemma AllFilesRecorded(d: Node, path: string, acc: set<string>)
    requires d.Dir? && WellFormed(d) && Convertible(d)
    ensures var r := Convert(d, path, acc);
      r.Ok? ==> acc + ResourcesOf(d, path) <= r.value.1
  {
    CoversItself(d);
    ConvertRecordsAll(d, d, path, acc);
  }
}
