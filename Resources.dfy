/**
 * `IgnitionCodegen.convertToResources`: every flat file `<dir>/<base>.<ext>` is moved to
 * `<dir>/<base>/<target>`, subdirectories present in the listing are converted the same
 * way, and every `<dir>/<base>` path is collected into one set.
 *
 * The filesystem is a `FileTree.Node`; a directory's path is the string the source builds
 * (`getAbsolutePath()` of the directory, then `"/" + name` per level).
 */
module Resources {
  import opened Results
  import opened FileNames
  import opened FileTree
  import opened Bytes

  /** The fixed name a file gets inside its resource directory. */
  function TargetName(extension: string): (t: string)
    ensures t == "code.py" <==> extension == "py"
    ensures t == "resource.json" <==> extension == "json"
    ensures t == "" <==> extension != "py" && extension != "json"
  {
    if extension == "py" then "code.py" else if extension == "json" then "resource.json" else ""
  }

  /**
   * Trees whose file names the model covers: the base of every file name is empty or a valid
   * entry name (a base "." or ".." would make the source create or move into the directory
   * itself or its parent).
   */
  predicate Convertible(n: Node) {
    match n
    case File(name, _) => RemoveExtension(name) != "." && RemoveExtension(name) != ".."
    case Dir(_, cs) => forall c :: c in cs ==> Convertible(c)
  }

  /**
   * `Files.createDirectories(<dir>/<base>)` inside directory `d`: nothing to do when the
   * directory exists; fails when a file of that name is in the way.
   */
  function CreateDirectories(d: Node, base: string, destinationPath: string): (r: Result<Node>)
    requires d.Dir?
    ensures r.Err? <==> Child(d.children, base).Some? && Child(d.children, base).value.File?
    ensures r.Err? ==> r.error == FileAlreadyExists(destinationPath)
    ensures r.Ok? ==> r.value.Dir? && r.value.name == d.name
    ensures r.Ok? ==> Child(r.value.children, base).Some? && Child(r.value.children, base).value.Dir?
    ensures r.Ok? ==> forall t :: t != base ==> Child(r.value.children, t) == Child(d.children, t)
    ensures r.Ok? && Child(d.children, base).Some? ==> r.value == d
  {
    match Child(d.children, base)
    case Some(File(_, _)) => Err(FileAlreadyExists(destinationPath))
    case Some(Dir(_, _)) => Ok(d)
    case None => Ok(Dir(d.name, Put(d.children, Dir(base, []))))
  }

  /**
   * `file.renameTo(<dir>/<base>/<target>)` for the entry `name` of `d`. POSIX rename replaces
   * an existing file but fails when the destination is a directory; the source ignores the
   * result, so a failed rename leaves `d` as it was. An empty `target` names the directory
   * `<base>` itself, so such a rename always fails.
   */
  function RenameInto(d: Node, name: string, base: string, target: string): (r: Node)
    requires d.Dir? && base != name
    requires Child(d.children, name).Some? && Child(d.children, name).value.File?
    requires Child(d.children, base).Some? && Child(d.children, base).value.Dir?
    ensures r.Dir? && r.name == d.name
    ensures var sub := Child(d.children, base).value;
      target == "" || (Child(sub.children, target).Some? && Child(sub.children, target).value.Dir?) ==> r == d
    ensures var f, sub := Child(d.children, name).value, Child(d.children, base).value;
      target != "" && !(Child(sub.children, target).Some? && Child(sub.children, target).value.Dir?) ==>
        Child(r.children, name).None? &&
        Child(r.children, base).Some? && Child(r.children, base).value.Dir? &&
        Child(Child(r.children, base).value.children, target) == Some(File(target, f.data)) &&
        (forall t :: t != target ==> Child(Child(r.children, base).value.children, t) == Child(sub.children, t)) &&
        (forall t :: t != name && t != base ==> Child(r.children, t) == Child(d.children, t))
  {
    var f := Child(d.children, name).value;
    var sub := Child(d.children, base).value;
    if target == "" then d
    else match Child(sub.children, target)
      case Some(Dir(_, _)) => d
      case _ => Dir(d.name, Without(Put(d.children, Dir(base, Put(sub.children, File(target, f.data)))), name))
  }

  /**
   * The same rename when the base is empty (a name like ".py"): `<dir>/` + "" + `/code.py` is
   * `<dir>/code.py`, so the file is renamed inside `d` itself.
   */
  function RenameWithin(d: Node, name: string, target: string): (r: Node)
    requires d.Dir?
    requires Child(d.children, name).Some? && Child(d.children, name).value.File?
    ensures r.Dir? && r.name == d.name
    ensures target == "" || (Child(d.children, target).Some? && Child(d.children, target).value.Dir?) ==> r == d
    ensures var f := Child(d.children, name).value;
      target != "" && !(Child(d.children, target).Some? && Child(d.children, target).value.Dir?) ==>
        Child(r.children, target) == Some(File(target, f.data)) &&
        (name != target ==> Child(r.children, name).None?) &&
        (forall t :: t != name && t != target ==> Child(r.children, t) == Child(d.children, t))
  {
    var f := Child(d.children, name).value;
    if target == "" then d
    else match Child(d.children, target)
      case Some(Dir(_, _)) => d
      case _ => Dir(d.name, Put(Without(d.children, name), File(target, f.data)))
  }

  /**
   * One pass of the loop body for a listed entry that is not a directory: create
   * `<dir>/<base>`, record it, move the file to `<dir>/<base>/<target>`.
   * Returns the new directory and the recorded path.
   */
  function PlaceFile(d: Node, name: string, path: string): (r: Result<(Node, string)>)
    requires d.Dir? && WellFormed(d) && Convertible(d)
    requires Child(d.children, name).Some? && Child(d.children, name).value.File?
    ensures r.Ok? ==> r.value.1 == path + "/" + RemoveExtension(name)
    ensures r.Err? <==> RemoveExtension(name) != "" && Child(d.children, RemoveExtension(name)).Some? &&
                        Child(d.children, RemoveExtension(name)).value.File?
  {
    var base := RemoveExtension(name);
    var target := TargetName(GetExtension(name));
    var destinationPath := path + "/" + base;
    if base == "" then
      Ok((RenameWithin(d, name, target), destinationPath))
    else
      match CreateDirectories(d, base, destinationPath)
      case Err(e) => Err(e)
      case Ok(d1) =>
        CreateDirectoriesPreserves(d, name, destinationPath);
        Ok((RenameInto(d1, name, base, target), destinationPath))
  }

  /** A file move keeps the directory well-formed and changes no other listed entry's kind or height. */
  lemma PlaceFilePreserves(d: Node, name: string, path: string)
    requires d.Dir? && WellFormed(d) && Convertible(d)
    requires Child(d.children, name).Some? && Child(d.children, name).value.File?
    requires PlaceFile(d, name, path).Ok?
    ensures var d' := PlaceFile(d, name, path).value.0;
      d'.Dir? && d'.name == d.name && WellFormed(d') && Convertible(d') &&
      forall t :: t != name && Child(d.children, t).Some? ==>
        Child(d'.children, t).Some? &&
        Child(d'.children, t).value.Dir? == Child(d.children, t).value.Dir? &&
        Height(Child(d'.children, t).value) <= Height(Child(d.children, t).value)
  {
    var base := RemoveExtension(name);
    var target := TargetName(GetExtension(name));
    TargetFileIsValid(GetExtension(name), Child(d.children, name).value.data);
    if base == "" {
      RenameWithinPreserves(d, name, target);
    } else {
      var d1 := CreateDirectories(d, base, path + "/" + base).value;
      CreateDirectoriesPreserves(d, name, path + "/" + base);
      RenameIntoPreserves(d1, name, base, target);
    }
  }

  /** Creating the resource directory keeps the tree well-formed. */
  lemma CreateDirectoriesPreserves(d: Node, name: string, destinationPath: string)
    requires d.Dir? && WellFormed(d) && Convertible(d)
    requires RemoveExtension(name) != ""
    requires Child(d.children, name).Some? && Child(d.children, name).value.File?
    ensures var r := CreateDirectories(d, RemoveExtension(name), destinationPath);
      r.Ok? ==> WellFormed(r.value) && Convertible(r.value) && RemoveExtension(name) != name
  {
    var base := RemoveExtension(name);
    SplitAtExtension(name);
    var f := Child(d.children, name).value;
    assert WellFormed(f) && Convertible(f);
    assert ValidName(base);
    if Child(d.children, base).None? {
      PutKeepsWellFormed(d, Dir(base, []));
    }
  }

  /** A file named `<base>.<ext>`, both plain words, is a valid, convertible entry. */
  lemma PlainFileIsValid(base: string, ext: string, data: seq<int8>)
    requires base != "" && '.' !in base && '/' !in base
    requires '.' !in ext && '/' !in ext && '\\' !in ext
    ensures WellFormed(File(base + "." + ext, data)) && Convertible(File(base + "." + ext, data))
  {
    var name := base + "." + ext;
    JoinExtension(base, ext);
    forall i | 0 <= i < |name| ensures name[i] != '/' {
      if i < |base| {
        assert name[i] == base[i] && base[i] in base;
      } else if i > |base| {
        assert name[i] == ext[i - |base| - 1] && ext[i - |base| - 1] in ext;
      }
    }
    assert base[0] in base;
  }

  lemma CodeFileIsValid(data: seq<int8>)
    ensures WellFormed(File("code.py", data)) && Convertible(File("code.py", data))
  {
    PlainFileIsValid("code", "py", data);
    assert "code" + "." + "py" == "code.py";
  }

  lemma ResourceFileIsValid(data: seq<int8>)
    ensures WellFormed(File("resource.json", data)) && Convertible(File("resource.json", data))
  {
    PlainFileIsValid("resource", "json", data);
    assert "resource" + "." + "json" == "resource.json";
  }

  /** The file a move creates is a valid, convertible entry. */
  lemma TargetFileIsValid(extension: string, data: seq<int8>)
    ensures var target := TargetName(extension);
      target != "" ==> WellFormed(File(target, data)) && Convertible(File(target, data))
  {
    if extension == "py" {
      CodeFileIsValid(data);
    } else if extension == "json" {
      ResourceFileIsValid(data);
    }
  }

  lemma RenameWithinPreserves(d: Node, name: string, target: string)
    requires d.Dir? && WellFormed(d) && Convertible(d)
    requires Child(d.children, name).Some? && Child(d.children, name).value.File?
    requires target != "" ==> WellFormed(File(target, Child(d.children, name).value.data)) &&
                              Convertible(File(target, Child(d.children, name).value.data))
    ensures var d' := RenameWithin(d, name, target);
      d'.Dir? && d'.name == d.name && WellFormed(d') && Convertible(d') &&
      forall t :: t != name && Child(d.children, t).Some? ==>
        Child(d'.children, t).Some? &&
        Child(d'.children, t).value.Dir? == Child(d.children, t).value.Dir? &&
        Height(Child(d'.children, t).value) <= Height(Child(d.children, t).value)
  {
    var d' := RenameWithin(d, name, target);
    if d' != d {
      var f := Child(d.children, name).value;
      WithoutKeepsWellFormed(d, name);
      PutKeepsWellFormed(Dir(d.name, Without(d.children, name)), File(target, f.data));
    }
  }

  lemma RenameIntoPreserves(d: Node, name: string, base: string, target: string)
    requires d.Dir? && WellFormed(d) && Convertible(d) && base != name
    requires Child(d.children, name).Some? && Child(d.children, name).value.File?
    requires Child(d.children, base).Some? && Child(d.children, base).value.Dir?
    requires target != "" ==> WellFormed(File(target, Child(d.children, name).value.data)) &&
                              Convertible(File(target, Child(d.children, name).value.data))
    ensures var d' := RenameInto(d, name, base, target);
      d'.Dir? && d'.name == d.name && WellFormed(d') && Convertible(d') &&
      forall t :: t != name && Child(d.children, t).Some? ==>
        Child(d'.children, t).Some? &&
        Child(d'.children, t).value.Dir? == Child(d.children, t).value.Dir? &&
        Height(Child(d'.children, t).value) <= Height(Child(d.children, t).value)
  {
    var d' := RenameInto(d, name, base, target);
    if d' != d {
      var f := Child(d.children, name).value;
      var sub := Child(d.children, base).value;
      var sub' := Dir(base, Put(sub.children, File(target, f.data)));
      assert sub in d.children;
      PutFileIntoDir(sub, File(target, f.data));
      PutKeepsWellFormed(d, sub');
      var d2 := Dir(d.name, Put(d.children, sub'));
      WithoutKeepsWellFormed(d2, name);
      assert d' == Dir(d.name, Without(d2.children, name));
    }
    forall t | t != name && Child(d.children, t).Some?
      ensures Child(d'.children, t).Some? &&
              Child(d'.children, t).value.Dir? == Child(d.children, t).value.Dir? &&
              Height(Child(d'.children, t).value) <= Height(Child(d.children, t).value)
    {
      RenameIntoKeeps(d, name, base, target, t);
    }
  }

  /** The rename keeps entry `t`: still there, of the same kind, no taller. */
  lemma RenameIntoKeeps(d: Node, name: string, base: string, target: string, t: string)
    requires d.Dir? && base != name
    requires Child(d.children, name).Some? && Child(d.children, name).value.File?
    requires Child(d.children, base).Some? && Child(d.children, base).value.Dir?
    requires t != name && Child(d.children, t).Some?
    ensures var d' := RenameInto(d, name, base, target);
      Child(d'.children, t).Some? &&
      Child(d'.children, t).value.Dir? == Child(d.children, t).value.Dir? &&
      Height(Child(d'.children, t).value) <= Height(Child(d.children, t).value)
  {
    if RenameInto(d, name, base, target) != d && t == base {
      var sub := Child(d.children, base).value;
      PutHeight(sub.children, File(target, Child(d.children, name).value.data));
    }
  }

  /** Writing a file into a directory keeps it well-formed and convertible and no taller. */
  lemma PutFileIntoDir(sub: Node, f: Node)
    requires sub.Dir? && WellFormed(sub) && Convertible(sub)
    requires f.File? && WellFormed(f) && Convertible(f)
    ensures var sub' := Dir(sub.name, Put(sub.children, f));
      WellFormed(sub') && Convertible(sub') && Height(sub') <= Height(sub)
  {
    PutKeepsWellFormed(sub, f);
    PutHeight(sub.children, f);
  }

  predicate NoDuplicates(s: seq<string>) {
    forall i, j :: 0 <= i < j < |s| ==> s[i] != s[j]
  }

  /**
   * What holds before each pass over `rem`, the part of the listing not yet visited:
   * every listed name is still an entry, and every such entry is lower than `bound`.
   */
  predicate LoopInv(cur: Node, rem: seq<string>, bound: nat) {
    cur.Dir? && WellFormed(cur) && Convertible(cur) && NoDuplicates(rem) &&
    forall t :: t in rem ==> Child(cur.children, t).Some? && Height(Child(cur.children, t).value) < bound
  }

  /** What a successful conversion of directory `d` at `path` keeps and adds. */
  predicate Converted(d: Node, path: string, acc: set<string>, res: (Node, set<string>)) {
    res.0.Dir? && res.0.name == d.name && WellFormed(res.0) && Convertible(res.0) &&
    acc <= res.1 && forall x :: x in res.1 - acc ==> path + "/" <= x
  }

  /** The listing of a directory, taken before its loop starts, satisfies the loop invariant. */
  lemma ListingInv(d: Node)
    requires d.Dir? && WellFormed(d) && Convertible(d)
    ensures LoopInv(d, Names(d.children), Height(d))
  {
    var names := Names(d.children);
    forall t | t in names ensures Child(d.children, t).Some? && Height(Child(d.children, t).value) < Height(d) {
      var i :| 0 <= i < |names| && names[i] == t;
      assert d.children[i].name == t;
      var c := Child(d.children, t).value;
      var k :| 0 <= k < |d.children| && d.children[k] == c;
    }
  }

  lemma PrefixUnder(path: string, name: string, x: string)
    requires path + "/" + name + "/" <= x
    ensures path + "/" <= x
  {
    assert (path + "/" + name + "/")[..|path| + 1] == path + "/";
  }

  /** `convertToResources(path, acc)` on directory `d` (IgnitionCodegen.java:184-216). */
  function Convert(d: Node, path: string, acc: set<string>): (r: Result<(Node, set<string>)>)
    requires d.Dir? && WellFormed(d) && Convertible(d)
    ensures r.Ok? ==> Converted(d, path, acc, r.value)
    decreases Height(d), 1, 0
  {
    ListingInv(d);
    Fold(d, Names(d.children), path, acc, Height(d))
  }

  /** The loop over the listing `rem` of directory `cur` at `path`. */
  function Fold(cur: Node, rem: seq<string>, path: string, acc: set<string>, bound: nat): (r: Result<(Node, set<string>)>)
    requires LoopInv(cur, rem, bound)
    ensures r.Ok? ==> Converted(cur, path, acc, r.value)
    decreases bound, 0, |rem|
  {
    if rem == [] then Ok((cur, acc))
    else
      var name := rem[0];
      var entry := Child(cur.children, name).value;
      if entry.Dir? then
        match Convert(entry, path + "/" + name, acc)
        case Err(e) => Err(e)
        case Ok((sub, acc')) =>
          DirStepKeepsInv(cur, rem, bound, sub);
          SubdirectoryPathsUnder(path, name, acc, acc');
          var r := Fold(Dir(cur.name, Put(cur.children, sub)), rem[1..], path, acc', bound);
          if r.Ok? then ConvertedExtends(cur, Dir(cur.name, Put(cur.children, sub)), path, acc, acc', r.value); r else r
      else
        match PlaceFile(cur, name, path)
        case Err(e) => Err(e)
        case Ok((cur', dest)) =>
          FileStepKeepsInv(cur, rem, bound, path);
          var r := Fold(cur', rem[1..], path, acc + {dest}, bound);
          if r.Ok? then ConvertedExtends(cur, cur', path, acc, acc + {dest}, r.value); r else r
  }

  lemma ConvertedExtends(cur: Node, cur': Node, path: string, acc: set<string>, acc': set<string>, res: (Node, set<string>))
    requires Converted(cur', path, acc', res) && cur'.name == cur.name
    requires acc <= acc' && forall x :: x in acc' - acc ==> path + "/" <= x
    ensures Converted(cur, path, acc, res)
  {
    forall x | x in res.1 - acc ensures path + "/" <= x {
      if x in acc' {
        assert x in acc' - acc;
      } else {
        assert x in res.1 - acc';
      }
    }
  }

  lemma SubdirectoryPathsUnder(path: string, name: string, acc: set<string>, acc': set<string>)
    requires forall x :: x in acc' - acc ==> path + "/" + name + "/" <= x
    ensures forall x :: x in acc' - acc ==> path + "/" <= x
  {
    forall x | x in acc' - acc ensures path + "/" <= x {
      PrefixUnder(path, name, x);
    }
  }

  /** Writing back a converted subdirectory keeps the loop invariant for the rest of the listing. */
  lemma DirStepKeepsInv(cur: Node, rem: seq<string>, bound: nat, sub: Node)
    requires LoopInv(cur, rem, bound) && rem != []
    requires Child(cur.children, rem[0]).value.Dir?
    requires sub.Dir? && sub.name == rem[0] && WellFormed(sub) && Convertible(sub)
    ensures LoopInv(Dir(cur.name, Put(cur.children, sub)), rem[1..], bound)
  {
    PutKeepsWellFormed(cur, sub);
    var cur' := Dir(cur.name, Put(cur.children, sub));
    forall t | t in rem[1..] ensures Child(cur'.children, t) == Child(cur.children, t) {
      var j :| 0 <= j < |rem[1..]| && rem[1..][j] == t;
      assert rem[j + 1] == t;
    }
  }

  /** Moving one listed file keeps the loop invariant for the rest of the listing. */
  lemma FileStepKeepsInv(cur: Node, rem: seq<string>, bound: nat, path: string)
    requires LoopInv(cur, rem, bound) && rem != []
    requires Child(cur.children, rem[0]).value.File?
    requires PlaceFile(cur, rem[0], path).Ok?
    ensures LoopInv(PlaceFile(cur, rem[0], path).value.0, rem[1..], bound)
  {
    PlaceFilePreserves(cur, rem[0], path);
    forall t | t in rem[1..] ensures t != rem[0] {
      var j :| 0 <= j < |rem[1..]| && rem[1..][j] == t;
      assert rem[j + 1] == t;
    }
  }

  /** One pass of the loop for a listed file, unfolded. */
  lemma FoldFileStep(cur: Node, rem: seq<string>, path: string, acc: set<string>, bound: nat)
    requires LoopInv(cur, rem, bound) && rem != []
    requires Child(cur.children, rem[0]).value.File?
    ensures var next := PlaceFile(cur, rem[0], path);
      (next.Err? ==> Fold(cur, rem, path, acc, bound) == Err(next.error)) &&
      (next.Ok? ==>
        LoopInv(next.value.0, rem[1..], bound) &&
        Fold(cur, rem, path, acc, bound) == Fold(next.value.0, rem[1..], path, acc + {next.value.1}, bound))
  {
    if PlaceFile(cur, rem[0], path).Ok? {
      FileStepKeepsInv(cur, rem, bound, path);
    }
  }

  /** One pass of the loop for a listed directory, unfolded. */
  lemma FoldDirStep(cur: Node, rem: seq<string>, path: string, acc: set<string>, bound: nat)
    requires LoopInv(cur, rem, bound) && rem != []
    requires Child(cur.children, rem[0]).value.Dir?
    ensures var e := Child(cur.children, rem[0]).value;
      e in cur.children && WellFormed(e) && Convertible(e) && Height(e) < bound &&
      var s := Convert(e, path + "/" + rem[0], acc);
      (s.Err? ==> Fold(cur, rem, path, acc, bound) == Err(s.error)) &&
      (s.Ok? ==>
        LoopInv(Dir(cur.name, Put(cur.children, s.value.0)), rem[1..], bound) &&
        Fold(cur, rem, path, acc, bound) == Fold(Dir(cur.name, Put(cur.children, s.value.0)), rem[1..], path, s.value.1, bound))
  {
    var e := Child(cur.children, rem[0]).value;
    assert e in cur.children;
    var s := Convert(e, path + "/" + rem[0], acc);
    if s.Ok? {
      DirStepKeepsInv(cur, rem, bound, s.value.0);
    }
  }

  /**
   * The file branch of the loop body: creates `<path>/<base>` (unless the base is empty),
   * then renames the file to `<base>/<target>`. Returns the directory and the resource path.
   */
  method MoveIntoResource(cur: Node, fullName: string, path: string) returns (r: Result<(Node, string)>)
    requires cur.Dir? && WellFormed(cur) && Convertible(cur)
    requires Child(cur.children, fullName).Some? && Child(cur.children, fullName).value.File?
    ensures r == PlaceFile(cur, fullName, path)
  {
    var extension := GetExtension(fullName);
    var oldName := RemoveExtension(fullName);
    var newName := "";
    if extension == "py" {
      newName := "code.py";
    } else if extension == "json" {
      newName := "resource.json";
    }
    var destinationPath := path + "/" + oldName;
    var next := cur;
    if oldName != "" {
      var created := CreateDirectories(cur, oldName, destinationPath);
      if created.Err? {
        return Err(created.error);
      }
      CreateDirectoriesPreserves(cur, fullName, destinationPath);
      next := created.value;
    }
    next := if oldName == "" then RenameWithin(next, fullName, newName) else RenameInto(next, fullName, oldName, newName);
    return Ok((next, destinationPath));
  }

  /**
   * `convertToResources` as the source runs it: the listing is taken once, then each listed
   * entry is looked at as it is now; directories are converted recursively into the same set,
   * files are moved into their resource directory.
   */
  method ConvertToResources(directory: Node, path: string, resourcePaths: set<string>)
    returns (r: Result<(Node, set<string>)>)
    requires directory.Dir? && WellFormed(directory) && Convertible(directory)
    ensures r == Convert(directory, path, resourcePaths)
    decreases Height(directory)
  {
    var allFiles := Names(directory.children);
    ListingInv(directory);
    var cur, paths := directory, resourcePaths;
    for i := 0 to |allFiles|
      invariant LoopInv(cur, allFiles[i..], Height(directory))
      invariant Fold(cur, allFiles[i..], path, paths, Height(directory)) == Convert(directory, path, resourcePaths)
    {
      assert allFiles[i..][0] == allFiles[i] && allFiles[i..][1..] == allFiles[i + 1..];
      var file := Child(cur.children, allFiles[i]).value;
      if !file.Dir? {
        FoldFileStep(cur, allFiles[i..], path, paths, Height(directory));
        var moved := MoveIntoResource(cur, file.name, path);
        if moved.Err? {
          return Err(moved.error);
        }
        paths := paths + {moved.value.1};
        cur := moved.value.0;
      } else {
        FoldDirStep(cur, allFiles[i..], path, paths, Height(directory));
        var converted := ConvertToResources(file, path + "/" + file.name, paths);
        if converted.Err? {
          return converted;
        }
        cur := Dir(cur.name, Put(cur.children, converted.value.0));
        paths := converted.value.1;
      }
    }
    return Ok((cur, paths));
  }
}
