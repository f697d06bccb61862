/**
 * File-name rules the conversion relies on: commons-io `FilenameUtils.getExtension`
 * and `removeExtension` (a split at the last '.' that is not followed by a path
 * separator) and the Unix meaning of `java.io.File.isHidden`.
 */
module FileNames {

  /** Index of the last occurrence of `c` in `s`, or -1. */
  function LastIndexOf(s: string, c: char): (i: int)
    ensures -1 <= i < |s|
    ensures i >= 0 ==> s[i] == c
    ensures forall k :: i < k < |s| ==> s[k] != c
  {
    if |s| == 0 then -1
    else if s[|s| - 1] == c then |s| - 1
    else LastIndexOf(s[..|s| - 1], c)
  }

  /** `FilenameUtils.indexOfExtension`: the last '.', unless a '/' or '\' comes after it. */
  function IndexOfExtension(name: string): (i: int)
    ensures -1 <= i < |name|
    ensures i >= 0 ==> name[i] == '.'
    ensures i >= 0 ==> forall k :: i < k < |name| ==> name[k] != '.' && name[k] != '/' && name[k] != '\\'
    ensures i < 0 && '.' in name ==>
      exists k :: LastIndexOf(name, '.') < k < |name| && (name[k] == '/' || name[k] == '\\')
  {
    var dot := LastIndexOf(name, '.');
    var slash := LastIndexOf(name, '/');
    var backslash := LastIndexOf(name, '\\');
    var separator := if slash > backslash then slash else backslash;
    if separator > dot then -1 else dot
  }

  /** `FilenameUtils.getExtension`: the text after the extension dot, or "" when there is none. */
  function GetExtension(name: string): string {
    var i := IndexOfExtension(name);
    if i < 0 then "" else name[i + 1..]
  }

  /** `FilenameUtils.removeExtension`: the text before the extension dot, or the whole name. */
  function RemoveExtension(name: string): string {
    var i := IndexOfExtension(name);
    if i < 0 then name else name[..i]
  }

  /** Base and extension put back together give the name; without an extension dot the base is the name. */
  lemma SplitAtExtension(name: string)
    ensures IndexOfExtension(name) >= 0 ==> name == RemoveExtension(name) + "." + GetExtension(name)
    ensures IndexOfExtension(name) < 0 ==> RemoveExtension(name) == name && GetExtension(name) == ""
    ensures |RemoveExtension(name)| <= |name|
    ensures forall c :: c in RemoveExtension(name) ==> c in name
    ensures '.' !in GetExtension(name) && '/' !in GetExtension(name) && '\\' !in GetExtension(name)
    ensures RemoveExtension(name) == name[..|RemoveExtension(name)|]
  {
    var i := IndexOfExtension(name);
    if i >= 0 {
      assert name == name[..i] + "." + name[i + 1..];
    }
  }

  /** A name with an extension is determined by its base and its (non-empty) extension. */
  lemma {:induction false} ExtensionSplitIsInjective(m: string, n: string)
    requires GetExtension(m) == GetExtension(n) != ""
    requires RemoveExtension(m) == RemoveExtension(n)
    ensures m == n
  {
    SplitAtExtension(m);
    SplitAtExtension(n);
  }

  /** Appending "." and a plain extension yields a name with exactly that base and extension. */
  lemma {:induction false} JoinExtension(base: string, ext: string)
    requires '/' !in base
    requires '.' !in ext && '/' !in ext && '\\' !in ext
    ensures GetExtension(base + "." + ext) == ext
    ensures RemoveExtension(base + "." + ext) == base
  {
    var name := base + "." + ext;
    assert name[|base|] == '.';
    assert forall k :: |base| < k < |name| ==> name[k] == ext[k - |base| - 1];
    var dot := LastIndexOf(name, '.');
    assert dot == |base|;
    assert LastIndexOf(name, '/') < |base|;
    assert LastIndexOf(name, '\\') < |base|;
    assert name[..|base|] == base;
    assert name[|base| + 1..] == ext;
  }

  /** `java.io.File.isHidden` on Unix: the name starts with a dot. */
  predicate IsHidden(name: string) {
    |name| > 0 && name[0] == '.'
  }
}
