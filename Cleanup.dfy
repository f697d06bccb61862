/**
 * `deleteDirectory(path)`: removes the file or directory at `path` and everything under it.
 * `File.delete` only removes a file or an empty directory, so a directory's entries are
 * deleted first, one by one, each by the same recursive call.
 *
 * Every call site names an entry of a directory it knows (`<outputFolder>/<name>`), so the
 * model deletes entry `name` of the directory `parent`.
 */
module Cleanup {
  import opened Results
  import opened FileTree

  /**
   * `File.delete` on entry `name`: a file or an empty directory goes away; a directory that
   * still has entries, or a name with nothing behind it, is left as it was (the refusal is
   * only a `false` result, which the source ignores).
   */
  function DeleteEntry(parent: Node, name: string): (r: Node)
    requires parent.Dir?
    ensures r.Dir? && r.name == parent.name
    ensures Child(parent.children, name).None? ==> r == parent
    ensures var e := Child(parent.children, name);
      e.Some? && (e.value.File? || e.value.children == []) ==>
        Child(r.children, name).None? &&
        (forall t :: t != name ==> Child(r.children, t) == Child(parent.children, t)) &&
        (forall c :: c in r.children ==> c in parent.children)
    ensures var e := Child(parent.children, name);
      e.Some? && e.value.Dir? && e.value.children != [] ==> r == parent
  {
    match Child(parent.children, name)
    case Some(e) =>
      if e.File? || e.children == [] then Dir(parent.name, Without(parent.children, name)) else parent
    case None => parent
  }

  /** Writing an entry and then removing its name is the same as removing the name. */
  lemma {:induction false} WithoutPut(cs: seq<Node>, x: Node)
    ensures Without(Put(cs, x), x.name) == Without(cs, x.name)
  {
    if cs != [] && cs[0].name != x.name {
      WithoutPut(cs[1..], x);
    }
  }

  /** In a directory without duplicate names, removing the first entry's name leaves the rest. */
  lemma WithoutFirst(cs: seq<Node>)
    requires cs != [] && UniqueNames(cs)
    ensures Without(cs, cs[0].name) == cs[1..]
  {
    UniqueTail(cs);
    assert forall i :: 0 <= i < |cs[1..]| ==> cs[1..][i] in cs[1..];
  }

  /** The entries after the first `i` of a well-formed directory form a well-formed directory. */
  lemma SuffixWellFormed(d: Node, i: nat)
    requires d.Dir? && WellFormed(d) && i <= |d.children|
    ensures WellFormed(Dir(d.name, d.children[i..]))
  {
    assert forall c :: c in d.children[i..] ==> c in d.children;
  }

  /**
   * `deleteDirectory(<parent>/<name>)`: afterwards nothing called `name` is left in `parent`
   * (and so nothing under it), every other entry is as it was, and a name with nothing
   * behind it changes nothing.
   */
  method DeleteDirectory(parent: Node, name: string) returns (r: Node)
    requires parent.Dir? && WellFormed(parent)
    ensures r == Dir(parent.name, Without(parent.children, name))
    ensures WellFormed(r)
    ensures Child(r.children, name).None?
    ensures forall below :: Lookup(r, [name] + below).None?
    ensures forall t :: t != name ==> Child(r.children, t) == Child(parent.children, t)
    ensures Child(parent.children, name).None? ==> r == parent
    decreases if Child(parent.children, name).Some? then Height(Child(parent.children, name).value) else 0
  {
    var current := parent;
    var entry := Child(parent.children, name);
    if entry.Some? && entry.value.Dir? {
      var dir := entry.value;
      assert dir in parent.children;
      var files := dir.children;
      var d := dir;
      for i := 0 to |files|
        invariant d == Dir(dir.name, files[i..])
      {
        SuffixWellFormed(dir, i);
        assert files[i] == d.children[0];
        assert Height(files[i]) <= MaxHeight(files) < Height(dir);
        d := DeleteDirectory(d, files[i].name);
        WithoutFirst(files[i..]);
        assert files[i..][1..] == files[i + 1..];
      }
      current := Dir(parent.name, Put(parent.children, d));
      WithoutPut(parent.children, d);
    }
    r := DeleteEntry(current, name);
    WithoutKeepsWellFormed(parent, name);
    forall below ensures Lookup(r, [name] + below).None? {
      assert ([name] + below)[1..] == below;
    }
  }
}
