/**
 * `zipDirectory` / `zipFile`: a directory tree becomes the ordered sequence of archive
 * entries a `ZipOutputStream` receives. `ZipEntries` says what that sequence is; the
 * `ZipFile` method builds it the way the source does, entry by entry and chunk by chunk.
 */
module Archive {
  import opened FileNames
  import opened FileTree
  import opened Bytes

  /** One archive entry: its name and the bytes written to it. A directory entry has none. */
  datatype Entry = Entry(name: string, data: seq<int8>)

  /** The size of the copy buffer. */
  const BufferSize := 1024

  /** The entry that stands for a directory: its name with exactly one '/' added unless it ends in one. */
  function MarkerName(fileName: string): (m: string)
    ensures |m| > 0 && m[|m| - 1] == '/'
    ensures m == fileName || m == fileName + "/"
    ensures |fileName| > 0 && fileName[|fileName| - 1] == '/' <==> m == fileName
  {
    if |fileName| > 0 && fileName[|fileName| - 1] == '/' then fileName else fileName + "/"
  }

  /**
   * The entries `zipFile(n, fileName)` writes: nothing for a hidden node; for a directory
   * its marker followed by the entries of its children, each under `fileName/<child>`;
   * for a file one entry with its bytes.
   */
  function ZipEntries(n: Node, fileName: string): seq<Entry>
    decreases n, 1
  {
    if IsHidden(n.name) then []
    else match n
      case File(_, data) => [Entry(fileName, data)]
      case Dir(_, cs) => [Entry(MarkerName(fileName), [])] + ZipChildren(cs, fileName)
  }

  function ZipChildren(cs: seq<Node>, fileName: string): seq<Entry>
    decreases cs
  {
    if cs == [] then [] else ZipEntries(cs[0], fileName + "/" + cs[0].name) + ZipChildren(cs[1..], fileName)
  }

  /**
   * A hidden node writes nothing and a visible one writes something: a file exactly one
   * entry with its bytes, a directory first its empty marker entry.
   */
  lemma ZipEntriesShape(n: Node, fileName: string)
    ensures ZipEntries(n, fileName) == [] <==> IsHidden(n.name)
    ensures !IsHidden(n.name) && n.File? ==> ZipEntries(n, fileName) == [Entry(fileName, n.data)]
    ensures !IsHidden(n.name) && n.Dir? ==> ZipEntries(n, fileName)[0] == Entry(MarkerName(fileName), [])
  {
  }

  /** The entries of the children from `i` on: those of child `i`, then those after it. */
  lemma ZipChildrenFrom(cs: seq<Node>, i: nat, fileName: string)
    requires i < |cs|
    ensures ZipChildren(cs[i..], fileName) ==
      ZipEntries(cs[i], fileName + "/" + cs[i].name) + ZipChildren(cs[i + 1..], fileName)
  {
    assert cs[i..][1..] == cs[i + 1..];
  }

  /** The archive being written: the entries so far, the last one open while bytes go into it. */
  class ZipOutputStream {
    var entries: seq<Entry>
    var open: bool

    constructor ()
      ensures entries == [] && !open
    {
      entries := [];
      open := false;
    }

    /** `putNextEntry`: closes the current entry, if any, and starts a new empty one. */
    method PutNextEntry(name: string)
      modifies this
      ensures entries == old(entries) + [Entry(name, [])] && open
    {
      entries := entries + [Entry(name, [])];
      open := true;
    }

    /** `closeEntry`: no more bytes go into the current entry. */
    method CloseEntry()
      modifies this
      ensures entries == old(entries) && !open
    {
      open := false;
    }

    /** `write(b, off, len)`: appends `len` bytes of `b` from `off` to the open entry. */
    method Write(b: array<int8>, off: nat, len: nat)
      requires open && entries != [] && off + len <= b.Length
      modifies this
      ensures open && |entries| == |old(entries)|
      ensures entries[..|entries| - 1] == old(entries)[..|entries| - 1]
      ensures entries[|entries| - 1] ==
        Entry(old(entries)[|entries| - 1].name, old(entries)[|entries| - 1].data + b[off..off + len])
    {
      var last := entries[|entries| - 1];
      entries := entries[..|entries| - 1] + [Entry(last.name, last.data + b[off..off + len])];
    }
  }

  /** A file being read: its bytes and how many have been read. */
  class FileInputStream {
    const contents: seq<int8>
    var pos: nat

    ghost predicate Valid()
      reads this
    {
      pos <= |contents|
    }

    constructor (contents: seq<int8>)
      ensures this.contents == contents && pos == 0 && Valid()
    {
      this.contents := contents;
      pos := 0;
    }

    /**
     * `read(b)`: -1 at the end of the file; otherwise copies the next bytes into the front
     * of `b`, as many as fit, and returns how many.
     */
    method Read(b: array<int8>) returns (n: int)
      requires Valid()
      modifies this, b
      ensures Valid()
      ensures old(pos) == |contents| ==> n == -1 && pos == old(pos)
      ensures old(pos) < |contents| ==>
        n == (if b.Length < |contents| - old(pos) then b.Length else |contents| - old(pos)) &&
        pos == old(pos) + n && b[..n] == contents[old(pos)..pos]
    {
      if pos == |contents| {
        return -1;
      }
      var start := pos;
      n := if b.Length < |contents| - start then b.Length else |contents| - start;
      for k := 0 to n
        invariant b[..k] == contents[start..start + k]
      {
        b[k] := contents[start + k];
      }
      pos := start + n;
    }
  }

  /** `zipFile(fileToZip, fileName, zipOut)`: appends the entries of `fileToZip` to the archive. */
  method ZipFile(fileToZip: Node, fileName: string, zipOut: ZipOutputStream)
    modifies zipOut
    ensures zipOut.entries == old(zipOut.entries) + ZipEntries(fileToZip, fileName)
    decreases fileToZip
  {
    if IsHidden(fileToZip.name) {
      return;
    }
    if fileToZip.Dir? {
      zipOut.PutNextEntry(MarkerName(fileName));
      zipOut.CloseEntry();
      var children := fileToZip.children;
      assert children[0..] == children;
      for i := 0 to |children|
        invariant zipOut.entries + ZipChildren(children[i..], fileName) == old(zipOut.entries) + ZipEntries(fileToZip, fileName)
      {
        ZipChildrenFrom(children, i, fileName);
        ghost var before := zipOut.entries;
        ZipFile(children[i], fileName + "/" + children[i].name, zipOut);
        assert zipOut.entries + ZipChildren(children[i + 1..], fileName) == before + ZipChildren(children[i..], fileName);
      }
      assert children[|children|..] == [];
      return;
    }
    zipOut.PutNextEntry(fileName);
    ghost var before := zipOut.entries;
    CopyContents(fileToZip.data, zipOut);
    assert zipOut.entries == before[..|before| - 1] + [Entry(fileName, fileToZip.data)];
    assert ZipEntries(fileToZip, fileName) == [Entry(fileName, fileToZip.data)];
  }

  /** The read/write loop of `zipFile`: streams `data` through a 1024-byte buffer into the open entry. */
  method CopyContents(data: seq<int8>, zipOut: ZipOutputStream)
    requires zipOut.open && zipOut.entries != [] && zipOut.entries[|zipOut.entries| - 1].data == []
    modifies zipOut
    ensures zipOut.open && |zipOut.entries| == |old(zipOut.entries)|
    ensures zipOut.entries[..|zipOut.entries| - 1] == old(zipOut.entries)[..|zipOut.entries| - 1]
    ensures zipOut.entries[|zipOut.entries| - 1] == Entry(old(zipOut.entries)[|zipOut.entries| - 1].name, data)
  {
    var fis := new FileInputStream(data);
    var bytes := new int8[BufferSize];
    var length := fis.Read(bytes);
    var last := |zipOut.entries| - 1;
    var name := zipOut.entries[last].name;
    ghost var done := 0;
    while length >= 0
      invariant fis.Valid() && fis.contents == data
      invariant 0 <= done <= fis.pos
      invariant length >= 0 ==> length <= bytes.Length && done + length == fis.pos && bytes[..length] == data[done..fis.pos]
      invariant length < 0 ==> done == fis.pos == |data|
      invariant zipOut.open && |zipOut.entries| == last + 1
      invariant zipOut.entries[..last] == old(zipOut.entries)[..last]
      invariant zipOut.entries[last] == Entry(name, data[..done])
      decreases |data| - fis.pos, if length >= 0 then 1 else 0
    {
      zipOut.Write(bytes, 0, length);
      assert data[..done] + bytes[0..length] == data[..fis.pos];
      done := fis.pos;
      length := fis.Read(bytes);
    }
    assert data[..done] == data;
  }

  /** `zipDirectory(path, destination)`: the archive holds the entries of the tree rooted at its own name. */
  method ZipDirectory(root: Node) returns (archive: seq<Entry>)
    ensures archive == ZipEntries(root, root.name)
  {
    var zipOut := new ZipOutputStream();
    ZipFile(root, root.name, zipOut);
    archive := zipOut.entries;
  }
}
