/**
 * The option handling of the generator: where generated code goes (`packagePath`,
 * `modelFileFolder`, `apiFileFolder`) and the rules `processOpts` applies to the options it
 * is given. Paths use '/' as `File.separatorChar`.
 */
module Options {
  import opened Results
  import opened Bytes
  import opened Numbers

  /** Where Ignition keeps project script packages, below the output folder. */
  const ScriptRoot := "ignition/script-python/"

  /** `packagePath()`: the package path of the Python generator, placed under `ignition/script-python/`. */
  function PackagePath(basePackagePath: string): (r: string)
    ensures |r| == |ScriptRoot| + |basePackagePath|
    ensures r[..|ScriptRoot|] == ScriptRoot && r[|ScriptRoot|..] == basePackagePath
  {
    ScriptRoot + basePackagePath
  }

  /** Two package paths are the same only for the same base package path. */
  lemma PackagePathInjective(a: string, b: string)
    requires PackagePath(a) == PackagePath(b)
    ensures a == b
  {
    assert a == PackagePath(a)[|ScriptRoot|..];
  }

  /** The folder `postProcess` converts to resources: the package path below the output folder. */
  function ClientFolder(outputFolder: string, basePackagePath: string): string {
    outputFolder + "/" + PackagePath(basePackagePath)
  }

  /** `modelFileFolder()`: `<outputFolder>/<packagePath>/models`. */
  function ModelFileFolder(outputFolder: string, basePackagePath: string): (r: string)
    ensures r == ClientFolder(outputFolder, basePackagePath) + "/models"
    ensures r[..|outputFolder| + 1 + |ScriptRoot|] == outputFolder + "/" + ScriptRoot
  {
    outputFolder + "/" + PackagePath(basePackagePath) + "/" + "models"
  }

  /** `apiFileFolder()`: `<outputFolder>/<packagePath>/api`. */
  function ApiFileFolder(outputFolder: string, basePackagePath: string): (r: string)
    ensures r == ClientFolder(outputFolder, basePackagePath) + "/api"
    ensures r[..|outputFolder| + 1 + |ScriptRoot|] == outputFolder + "/" + ScriptRoot
  {
    outputFolder + "/" + PackagePath(basePackagePath) + "/" + "api"
  }

  /**
   * Models and APIs are written to two different folders, both directly inside the client
   * folder, so both are converted to resources.
   */
  lemma GeneratedFoldersInsideClientFolder(outputFolder: string, basePackagePath: string)
    ensures var client := ClientFolder(outputFolder, basePackagePath);
      var models, apis := ModelFileFolder(outputFolder, basePackagePath), ApiFileFolder(outputFolder, basePackagePath);
      models == client + "/models" && apis == client + "/api" &&
      models[..|client| + 1] == client + "/" && apis[..|client| + 1] == client + "/" &&
      models != apis
  {
    var client := ClientFolder(outputFolder, basePackagePath);
    var models := ModelFileFolder(outputFolder, basePackagePath);
    var apis := ApiFileFolder(outputFolder, basePackagePath);
    assert models == client + "/models";
    assert apis == client + "/api";
    assert |models| != |apis|;
  }

  /** `packageName.replaceAll("_", "-")`: the default project name. */
  function DefaultProjectName(packageName: string): (r: string)
    ensures |r| == |packageName|
    ensures forall i :: 0 <= i < |r| ==> r[i] == if packageName[i] == '_' then '-' else packageName[i]
  {
    if packageName == [] then []
    else [if packageName[0] == '_' then '-' else packageName[0]] + DefaultProjectName(packageName[1..])
  }

  /** The default project name has no '_' left, and applying the rule again changes nothing. */
  lemma DefaultProjectNameSettled(packageName: string)
    ensures '_' !in DefaultProjectName(packageName)
    ensures DefaultProjectName(DefaultProjectName(packageName)) == DefaultProjectName(packageName)
  {
    var r := DefaultProjectName(packageName);
    assert forall i :: 0 <= i < |r| ==> r[i] != '_';
  }

  /** The pieces of `s` between dots, empty ones included: one more than there are dots. */
  function SplitDots(s: string): (r: seq<string>)
    ensures |r| >= 1
    ensures forall i :: 0 <= i < |r| ==> '.' !in r[i]
  {
    if s == [] then [""]
    else
      var rest := SplitDots(s[1..]);
      if s[0] == '.' then [""] + rest
      else [[s[0]] + rest[0]] + rest[1..]
  }

  /** `parts` joined by `sep`. */
  function Join(parts: seq<string>, sep: char): string
    requires |parts| >= 1
  {
    if |parts| == 1 then parts[0] else parts[0] + [sep] + Join(parts[1..], sep)
  }

  lemma {:induction false} JoinAppend(parts: seq<string>, x: string, sep: char)
    requires |parts| >= 1
    ensures Join(parts + [x], sep) == Join(parts, sep) + [sep] + x
    decreases |parts|
  {
    if |parts| > 1 {
      JoinAppend(parts[1..], x, sep);
      assert (parts + [x])[1..] == parts[1..] + [x];
    } else {
      assert (parts + [x])[1..] == [x];
    }
  }

  /** Joining the pieces with dots gives back the string. */
  lemma {:induction false} JoinSplitDots(s: string)
    ensures Join(SplitDots(s), '.') == s
  {
    if s != [] {
      JoinSplitDots(s[1..]);
      var rest := SplitDots(s[1..]);
      if s[0] != '.' {
        var r := SplitDots(s);
        if |rest| > 1 {
          assert r[1..] == rest[1..];
        }
      }
    }
  }

  /** Splitting dot-free parts joined by dots gives back the parts. */
  lemma {:induction false} SplitJoinDots(parts: seq<string>)
    requires |parts| >= 1 && forall i :: 0 <= i < |parts| ==> '.' !in parts[i]
    ensures SplitDots(Join(parts, '.')) == parts
    decreases |parts|
  {
    if |parts| == 1 {
      SplitWord(parts[0], "");
      assert parts[0] + "" == parts[0];
    } else {
      var tail := Join(parts[1..], '.');
      SplitJoinDots(parts[1..]);
      assert SplitDots("." + tail) == [""] + parts[1..];
      SplitWord(parts[0], "." + tail);
      assert Join(parts, '.') == parts[0] + ("." + tail);
      assert parts[0] + "" == parts[0];
    }
  }

  /** A dot-free word in front of `rest` joins the first piece of `rest`. */
  lemma {:induction false} SplitWord(w: string, rest: string)
    requires '.' !in w
    ensures SplitDots(w + rest) == [w + SplitDots(rest)[0]] + SplitDots(rest)[1..]
    decreases |w|
  {
    if w != [] {
      SplitWord(w[1..], rest);
      var pieces, tail := SplitDots(rest), SplitDots(w[1..] + rest);
      assert w[0] in w;
      assert w + rest == [w[0]] + (w[1..] + rest);
      SplitCons(w[0], w[1..] + rest);
      assert tail[0] == w[1..] + pieces[0] && tail[1..] == pieces[1..];
      assert [w[0]] + (w[1..] + pieces[0]) == w + pieces[0];
    } else {
      var pieces := SplitDots(rest);
      assert w + rest == rest && w + pieces[0] == pieces[0];
      assert pieces == [pieces[0]] + pieces[1..];
    }
  }

  /** A character other than a dot in front of `s` joins the first piece of `s`. */
  lemma SplitCons(c: char, s: string)
    requires c != '.'
    ensures SplitDots([c] + s) == [[c] + SplitDots(s)[0]] + SplitDots(s)[1..]
  {
    assert ([c] + s)[1..] == s;
  }

  /** Drops the empty pieces at the end. */
  function DropTrailingEmpty(parts: seq<string>): (r: seq<string>)
    ensures |r| <= |parts| && r == parts[..|r|]
    ensures r == [] || r[|r| - 1] != ""
    ensures forall i :: |r| <= i < |parts| ==> parts[i] == ""
  {
    if parts == [] || parts[|parts| - 1] != "" then parts else DropTrailingEmpty(parts[..|parts| - 1])
  }

  /**
   * `s.split("\\.")`: the pieces between dots with the empty pieces at the end removed; a
   * string without a dot, the empty string included, is one piece.
   */
  function JavaSplit(s: string): seq<string> {
    if '.' !in s then [s] else DropTrailingEmpty(SplitDots(s))
  }

  /** `n` dots. */
  function Dots(n: nat): (r: string)
    ensures |r| == n && forall i :: 0 <= i < n ==> r[i] == '.'
  {
    if n == 0 then "" else Dots(n - 1) + "."
  }

  /**
   * The pieces `split` returns hold no dot; a string without a dot is one piece; otherwise
   * the last piece is not empty.
   */
  lemma JavaSplitPieces(s: string)
    ensures var r := JavaSplit(s);
      (forall i :: 0 <= i < |r| ==> '.' !in r[i]) &&
      ('.' !in s ==> r == [s]) &&
      ('.' in s ==> r == [] || r[|r| - 1] != "")
  {
    var r := JavaSplit(s);
    if '.' in s {
      var parts := SplitDots(s);
      assert r == parts[..|r|];
      assert forall i :: 0 <= i < |r| ==> r[i] == parts[i];
    }
  }

  /**
   * Joined by dots, the pieces give back the string up to the trailing dots `split` dropped;
   * a string of dots alone gives no piece at all.
   */
  lemma JavaSplitRejoins(s: string)
    ensures var r := JavaSplit(s);
      (r != [] ==> |Join(r, '.')| <= |s| && s == Join(r, '.') + Dots(|s| - |Join(r, '.')|)) &&
      (r == [] ==> s == Dots(|s|))
  {
    var r := JavaSplit(s);
    if '.' in s {
      var parts := SplitDots(s);
      JoinSplitDots(s);
      JoinDropTrailing(parts);
      var n := |parts| - |r|;
      if r != [] {
        assert s == Join(r, '.') + Dots(n);
        assert |s| - |Join(r, '.')| == n;
      } else {
        assert s == Dots(n - 1);
      }
    } else {
      assert r == [s];
      assert Join(r, '.') == s;
      assert s + Dots(0) == s;
    }
  }

  /**
   * Dropping `n` trailing empty pieces drops `n` trailing dots from the joined string (one
   * less when every piece goes).
   */
  lemma {:induction false} JoinDropTrailing(parts: seq<string>)
    requires |parts| >= 1
    ensures var r, n := DropTrailingEmpty(parts), |parts| - |DropTrailingEmpty(parts)|;
      (r != [] ==> Join(parts, '.') == Join(r, '.') + Dots(n)) &&
      (r == [] ==> Join(parts, '.') == Dots(n - 1))
    decreases |parts|
  {
    var last := |parts| - 1;
    if parts[last] == "" {
      if last == 0 {
        assert DropTrailingEmpty(parts[..0]) == [];
      } else {
        var init := parts[..last];
        JoinDropTrailing(init);
        JoinAppend(init, "", '.');
        assert init + [""] == parts;
        assert DropTrailingEmpty(parts) == DropTrailingEmpty(init);
      }
    }
  }

  /** The directories of the enclosing packages: all pieces but the last, joined by '/'. */
  function ParentPath(parts: seq<string>): string {
    if |parts| <= 1 then "" else Join(parts[..|parts| - 1], '/')
  }

  /**
   * The loop over `packageName.split("\\.")` that builds `currentPackagePath`: every piece
   * but the last, separated by '/'.
   */
  method PackageDirs(packageName: string) returns (currentPackagePath: string)
    ensures currentPackagePath == ParentPath(JavaSplit(packageName))
  {
    var packageNameSplits := JavaSplit(packageName);
    currentPackagePath := "";
    var i := 0;
    while i < |packageNameSplits| - 1
      invariant 0 <= i && (|packageNameSplits| == 0 ==> i == 0)
      invariant |packageNameSplits| >= 1 ==> i <= |packageNameSplits| - 1
      invariant currentPackagePath == if i == 0 then "" else Join(packageNameSplits[..i], '/')
    {
      if i > 0 {
        currentPackagePath := currentPackagePath + "/";
        JoinAppend(packageNameSplits[..i], packageNameSplits[i], '/');
        assert packageNameSplits[..i + 1] == packageNameSplits[..i] + [packageNameSplits[i]];
      } else {
        assert packageNameSplits[..1] == [packageNameSplits[0]];
      }
      currentPackagePath := currentPackagePath + packageNameSplits[i];
      i := i + 1;
    }
  }

  /**
   * For a package name made of non-empty dotted parts, the loop gives the directories of the
   * enclosing packages: `openapi.client` gives `openapi`, `a.b.c` gives `a/b`.
   */
  lemma PackageDirsOfDottedName(parts: seq<string>)
    requires |parts| >= 1 && forall i :: 0 <= i < |parts| ==> '.' !in parts[i] && parts[i] != ""
    ensures ParentPath(JavaSplit(Join(parts, '.'))) == ParentPath(parts)
  {
    var s := Join(parts, '.');
    SplitJoinDots(parts);
    if |parts| > 1 {
      assert s == parts[0] + "." + Join(parts[1..], '.');
      assert s[|parts[0]|] == '.';
      assert JavaSplit(s) == DropTrailingEmpty(parts);
    }
  }

  /** An option value: a string, some other object (a number), or null. */
  datatype Value = Str(s: string) | Number(n: int) | Null

  const PackageNameKey := "packageName"
  const ProjectNameKey := "projectName"
  const PackageVersionKey := "packageVersion"
  const PackageUrlKey := "packageUrl"
  const RecursionLimitKey := "recursionLimit"

  const RecursionLimitMessage := "recursionLimit must be an integer, e.g. 2000."

  /**
   * The recursion-limit check: a missing option is fine; a string must parse as an `int`;
   * null or an unparsable string is an `IllegalArgumentException`; a value that is not a
   * string fails the `(String)` cast.
   */
  function CheckRecursionLimit(props: map<string, Value>): (r: Option<Exception>)
    ensures r.None? <==>
      RecursionLimitKey !in props || (props[RecursionLimitKey].Str? && ParseInt(props[RecursionLimitKey].s).Some?)
    ensures r.Some? ==> r.value == ClassCast || r.value == IllegalArgument(RecursionLimitMessage)
    ensures r == Some(ClassCast) <==> RecursionLimitKey in props && props[RecursionLimitKey].Number?
  {
    if RecursionLimitKey !in props then None
    else match props[RecursionLimitKey]
      case Str(s) => if ParseInt(s).Some? then None else Some(IllegalArgument(RecursionLimitMessage))
      case Null => Some(IllegalArgument(RecursionLimitMessage))
      case Number(_) => Some(ClassCast)
  }

  /** Every 32-bit integer written in decimal passes the check; null and non-numerals do not. */
  lemma RecursionLimitAccepts(props: map<string, Value>, v: int32, other: string)
    requires ParseInt(other).None?
    ensures CheckRecursionLimit(props[RecursionLimitKey := Str(IntToString(v as int))]).None?
    ensures CheckRecursionLimit(props[RecursionLimitKey := Str(other)]) == Some(IllegalArgument(RecursionLimitMessage))
    ensures CheckRecursionLimit(props[RecursionLimitKey := Null]) == Some(IllegalArgument(RecursionLimitMessage))
  {
    ParseIntRoundTrip(v);
  }

  const GeneratorName := "ignition-codegen"
  const Timestamp := "2023-01-07T02:03:27Z"
  const HintScope := 2

  /** The keys `processOpts` sets, whatever they held before. */
  const PublishedKeys := {ProjectNameKey, PackageNameKey, PackageVersionKey, "apiDocPath", "modelDocPath", "actor", "timestamp", "hintScope"}

  /** The properties once `processOpts` has published the names, the doc paths and its fixed values. */
  function Published(props: map<string, Value>, projectName: string, packageName: string, packageVersion: string,
                     apiDocPath: string, modelDocPath: string): map<string, Value>
  {
    props[ProjectNameKey := Str(projectName)][PackageNameKey := Str(packageName)]
      [PackageVersionKey := Str(packageVersion)]["apiDocPath" := Str(apiDocPath)]
      ["modelDocPath" := Str(modelDocPath)]["actor" := Str(GeneratorName)]["timestamp" := Str(Timestamp)]
      ["hintScope" := Number(HintScope)]
  }

  /**
   * Publishing adds exactly the published keys, with the given names and doc paths and the
   * fixed actor, timestamp and hint scope; every other option keeps its value.
   */
  lemma PublishedOptions(props: map<string, Value>, projectName: string, packageName: string,
                         packageVersion: string, apiDocPath: string, modelDocPath: string)
    ensures var r := Published(props, projectName, packageName, packageVersion, apiDocPath, modelDocPath);
      r.Keys == props.Keys + PublishedKeys &&
      (forall k :: k in props && k !in PublishedKeys ==> r[k] == props[k]) &&
      r[ProjectNameKey] == Str(projectName) && r[PackageNameKey] == Str(packageName) &&
      r[PackageVersionKey] == Str(packageVersion) &&
      r["apiDocPath"] == Str(apiDocPath) && r["modelDocPath"] == Str(modelDocPath) &&
      r["actor"] == Str(GeneratorName) && r["timestamp"] == Str(Timestamp) && r["hintScope"] == Number(HintScope)
  {
  }

  /** Publishing leaves the package URL and the recursion limit as they were given. */
  lemma PublishedKeepsOptions(props: map<string, Value>, projectName: string, packageName: string,
                              packageVersion: string, apiDocPath: string, modelDocPath: string)
    ensures var r := Published(props, projectName, packageName, packageVersion, apiDocPath, modelDocPath);
      (PackageUrlKey in r <==> PackageUrlKey in props) &&
      (PackageUrlKey in props ==> r[PackageUrlKey] == props[PackageUrlKey]) &&
      CheckRecursionLimit(r) == CheckRecursionLimit(props)
  {
    assert PackageUrlKey !in PublishedKeys && RecursionLimitKey !in PublishedKeys;
  }

  /** The string option `key`, or `otherwise` when it is not given. */
  function StringOption(props: map<string, Value>, key: string, otherwise: string): string
    requires key in props ==> props[key].Str?
  {
    if key in props then props[key].s else otherwise
  }

  /** The options `processOpts` reads as strings hold strings. */
  predicate StringOptions(props: map<string, Value>) {
    (PackageNameKey in props ==> props[PackageNameKey].Str?) &&
    (ProjectNameKey in props ==> props[ProjectNameKey].Str?) &&
    (PackageVersionKey in props ==> props[PackageVersionKey].Str?) &&
    (PackageUrlKey in props ==> props[PackageUrlKey].Str?)
  }

  /** The generator's settings that `processOpts` reads and writes. */
  class Generator {
    var additionalProperties: map<string, Value>
    var packageName: string
    var projectName: string
    var packageVersion: string
    var packageUrl: string
    var modelPackage: string
    var apiPackage: string
    var apiDocPath: string
    var modelDocPath: string

    /** The first block of `processOpts`: the package name, project name and version from the options. */
    method ReadNames()
      requires StringOptions(additionalProperties)
      modifies this
      ensures additionalProperties == old(additionalProperties) && packageUrl == old(packageUrl)
      ensures packageName == StringOption(additionalProperties, PackageNameKey, old(packageName))
      ensures projectName == StringOption(additionalProperties, ProjectNameKey, DefaultProjectName(packageName))
      ensures packageVersion == StringOption(additionalProperties, PackageVersionKey, old(packageVersion))
      ensures ProjectNameKey !in additionalProperties ==> '_' !in projectName
      ensures modelPackage == old(modelPackage) && apiPackage == old(apiPackage)
      ensures apiDocPath == old(apiDocPath) && modelDocPath == old(modelDocPath)
    {
      packageName := StringOption(additionalProperties, PackageNameKey, packageName);
      if ProjectNameKey in additionalProperties {
        projectName := StringOption(additionalProperties, ProjectNameKey, projectName);
      } else {
        projectName := DefaultProjectName(packageName);
        DefaultProjectNameSettled(packageName);
      }
      packageVersion := StringOption(additionalProperties, PackageVersionKey, packageVersion);
    }

    /**
     * `processOpts()`: takes the package name, project name, version and URL from the
     * options, the project name defaulting to the package name with '-' for '_'; publishes
     * them; checks the recursion limit, stopping with its exception; then prefixes the model
     * and API packages with the package name.
     */
    method ProcessOpts() returns (error: Option<Exception>)
      requires StringOptions(additionalProperties)
      modifies this
      ensures packageName == StringOption(old(additionalProperties), PackageNameKey, old(packageName))
      ensures projectName == StringOption(old(additionalProperties), ProjectNameKey, DefaultProjectName(packageName))
      ensures packageVersion == StringOption(old(additionalProperties), PackageVersionKey, old(packageVersion))
      ensures packageUrl == StringOption(old(additionalProperties), PackageUrlKey, old(packageUrl))
      ensures ProjectNameKey !in old(additionalProperties) ==> '_' !in projectName
      ensures apiDocPath == old(apiDocPath) && modelDocPath == old(modelDocPath)
      ensures additionalProperties ==
        Published(old(additionalProperties), projectName, packageName, packageVersion, apiDocPath, modelDocPath)
      ensures error == CheckRecursionLimit(old(additionalProperties))
      ensures error.None? ==>
        modelPackage == packageName + "." + old(modelPackage) && apiPackage == packageName + "." + old(apiPackage)
      ensures error.Some? ==> modelPackage == old(modelPackage) && apiPackage == old(apiPackage)
    {
      ReadNames();
      ghost var given := additionalProperties;
      PublishedKeepsOptions(given, projectName, packageName, packageVersion, apiDocPath, modelDocPath);
      var published := Published(additionalProperties, projectName, packageName, packageVersion, apiDocPath, modelDocPath);
      additionalProperties := published;
      packageUrl := StringOption(additionalProperties, PackageUrlKey, packageUrl);
      error := CheckRecursionLimit(additionalProperties);
      if error.Some? {
        return;
      }
      var currentPackagePath := PackageDirs(packageName);
      modelPackage := packageName + "." + modelPackage;
      apiPackage := packageName + "." + apiPackage;
      assert additionalProperties == published;
    }
  }
}
