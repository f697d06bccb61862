/**
 * The part of the filesystem the post-processing stage works on, as a value.
 * A directory's `children` are in the order `File.listFiles` returns them;
 * an entry created in a directory is listed after the entries already there.
 */
module FileTree {
  import opened Results
  import opened Bytes

  datatype Node = File(name: string, data: seq<int8>) | Dir(name: string, children: seq<Node>)

  /** A name a directory entry can have: not empty, not "." or "..", no separator. */
  predicate ValidName(n: string) {
    n != "" && n != "." && n != ".." && '/' !in n
  }

  predicate UniqueNames(cs: seq<Node>) {
    forall i, j :: 0 <= i < j < |cs| ==> cs[i].name != cs[j].name
  }

  /** What a real directory tree looks like: valid names, no two siblings with the same name. */
  predicate WellFormed(n: Node) {
    ValidName(n.name) &&
    (n.Dir? ==> UniqueNames(n.children) && forall c :: c in n.children ==> WellFormed(c))
  }

  /** The names of the entries, in listing order. */
  function Names(cs: seq<Node>): (r: seq<string>)
    ensures |r| == |cs|
    ensures forall i :: 0 <= i < |cs| ==> r[i] == cs[i].name
  {
    if cs == [] then [] else [cs[0].name] + Names(cs[1..])
  }

  /** The entry called `name`, if the directory has one. */
  function Child(cs: seq<Node>, name: string): (r: Option<Node>)
    ensures r.Some? ==> r.value in cs && r.value.name == name
    ensures r.None? <==> forall i :: 0 <= i < |cs| ==> cs[i].name != name
  {
    if cs == [] then None
    else if cs[0].name == name then Some(cs[0])
    else Child(cs[1..], name)
  }

  /** Writes entry `x`: it replaces the entry of the same name in place, or is listed last. */
  function Put(cs: seq<Node>, x: Node): (r: seq<Node>)
    ensures forall t :: Child(r, t) == if t == x.name then Some(x) else Child(cs, t)
    ensures forall y :: y in r ==> y == x || y in cs
    ensures UniqueNames(cs) ==> UniqueNames(r)
  {
    if cs == [] then [x]
    else if cs[0].name == x.name then [x] + cs[1..]
    else
      var rest := Put(cs[1..], x);
      assert forall t :: Child([cs[0]] + rest, t) == if t == cs[0].name then Some(cs[0]) else Child(rest, t);
      if UniqueNames(cs) then
        UniqueTail(cs);
        UniqueCons(cs[0], rest);
        [cs[0]] + rest
      else
        [cs[0]] + rest
  }

  /** Removes every entry called `name`. */
  function Without(cs: seq<Node>, name: string): (r: seq<Node>)
    ensures forall t :: Child(r, t) == if t == name then None else Child(cs, t)
    ensures forall y :: y in r ==> y in cs
    ensures UniqueNames(cs) ==> UniqueNames(r)
    ensures (forall i :: 0 <= i < |cs| ==> cs[i].name != name) ==> r == cs
  {
    if cs == [] then []
    else
      var rest := Without(cs[1..], name);
      if cs[0].name == name then rest
      else
        assert forall t :: Child([cs[0]] + rest, t) == if t == cs[0].name then Some(cs[0]) else Child(rest, t);
        assert (forall i :: 0 <= i < |cs| ==> cs[i].name != name) ==> [cs[0]] + rest == cs;
        if UniqueNames(cs) then
          UniqueTail(cs);
          UniqueCons(cs[0], rest);
          [cs[0]] + rest
        else
          [cs[0]] + rest
  }

  lemma UniqueTail(cs: seq<Node>)
    requires cs != [] && UniqueNames(cs)
    ensures UniqueNames(cs[1..])
    ensures forall y :: y in cs[1..] ==> y.name != cs[0].name
  {
    forall y | y in cs[1..] ensures y.name != cs[0].name {
      var j :| 0 <= j < |cs[1..]| && cs[1..][j] == y;
      assert cs[j + 1] == y;
    }
  }

  lemma UniqueCons(h: Node, rest: seq<Node>)
    requires UniqueNames(rest)
    requires forall y :: y in rest ==> y.name != h.name
    ensures UniqueNames([h] + rest)
  {
    var r := [h] + rest;
    forall i, j | 0 <= i < j < |r| ensures r[i].name != r[j].name {
      assert r[j] == rest[j - 1];
      if i > 0 {
        assert r[i] == rest[i - 1];
      }
    }
  }

  /** The listing names exactly the entries there are. */
  lemma NamesAreEntries(cs: seq<Node>)
    ensures forall t :: t in Names(cs) <==> Child(cs, t).Some?
  {
    forall t | Child(cs, t).Some? ensures t in Names(cs) {
      var i :| 0 <= i < |cs| && cs[i] == Child(cs, t).value;
      assert Names(cs)[i] == t;
    }
  }

  /** In a directory without duplicate names, an entry is what its name looks up. */
  lemma ChildOfMember(cs: seq<Node>, x: Node)
    requires UniqueNames(cs) && x in cs
    ensures Child(cs, x.name) == Some(x)
  {
    var i :| 0 <= i < |cs| && cs[i] == x;
    var y := Child(cs, x.name).value;
    var j :| 0 <= j < |cs| && cs[j] == y;
  }

  /** Files have height 0; a directory is one higher than its highest entry. */
  function Height(n: Node): nat {
    match n
    case File(_, _) => 0
    case Dir(_, cs) => 1 + MaxHeight(cs)
  }

  function MaxHeight(cs: seq<Node>): (h: nat)
    ensures forall i :: 0 <= i < |cs| ==> Height(cs[i]) <= h
    ensures h == 0 || exists i :: 0 <= i < |cs| && Height(cs[i]) == h
  {
    if cs == [] then 0
    else
      var a, b := Height(cs[0]), MaxHeight(cs[1..]);
      assert forall i :: 1 <= i < |cs| ==> cs[i] == cs[1..][i - 1];
      if a >= b then a else b
  }

  /** Writing a well-formed entry into a well-formed directory keeps it well-formed. */
  lemma PutKeepsWellFormed(d: Node, x: Node)
    requires d.Dir? && WellFormed(d) && WellFormed(x)
    ensures WellFormed(Dir(d.name, Put(d.children, x)))
  {
  }

  lemma WithoutKeepsWellFormed(d: Node, name: string)
    requires d.Dir? && WellFormed(d)
    ensures WellFormed(Dir(d.name, Without(d.children, name)))
  {
  }

  /** Writing an entry raises the highest entry at most to the new entry's height. */
  lemma PutHeight(cs: seq<Node>, x: Node)
    ensures MaxHeight(Put(cs, x)) <= if Height(x) > MaxHeight(cs) then Height(x) else MaxHeight(cs)
  {
    var r := Put(cs, x);
    var bound := if Height(x) > MaxHeight(cs) then Height(x) else MaxHeight(cs);
    forall i | 0 <= i < |r| ensures Height(r[i]) <= bound {
      assert r[i] in r;
      if r[i] != x {
        var k :| 0 <= k < |cs| && cs[k] == r[i];
      }
    }
  }

  lemma WithoutHeight(cs: seq<Node>, name: string)
    ensures MaxHeight(Without(cs, name)) <= MaxHeight(cs)
  {
    var r := Without(cs, name);
    forall i | 0 <= i < |r| ensures Height(r[i]) <= MaxHeight(cs) {
      assert r[i] in r;
      var k :| 0 <= k < |cs| && cs[k] == r[i];
    }
  }

  /** The node at a relative path, following entry names from `n`. */
  function Lookup(n: Node, path: seq<string>): Option<Node>
    decreases path
  {
    if path == [] then Some(n)
    else if n.File? then None
    else match Child(n.children, path[0])
      case None => None
      case Some(c) => Lookup(c, path[1..])
  }
}
