/**
 * The parts of C stdio both tools use: a binary file opened for update, with
 * its stream position, and the directory the unpacker writes its outputs
 * into. Files are byte sequences in memory; I/O errors and short reads are
 * not modelled (reads are only allowed within the file).
 */
module Stdio {
  import opened Bytes

  /** The bytes of a file holding `b` after `s` is written at position `at`. */
  function Overwrite(b: seq<byte>, at: nat, s: seq<byte>): (r: seq<byte>)
    requires at <= |b|
    ensures |r| == if at + |s| <= |b| then |b| else at + |s|
    ensures r[..at] == b[..at]
    ensures r[at..at + |s|] == s
    ensures r[at + |s|..] == if at + |s| <= |b| then b[at + |s|..] else []
  {
    b[..at] + s + (if at + |s| <= |b| then b[at + |s|..] else [])
  }

  /** Writing at the end of a file appends. */
  lemma OverwriteAtEnd(b: seq<byte>, s: seq<byte>)
    ensures Overwrite(b, |b|, s) == b + s
  {
    assert b[..|b|] == b;
  }

  /** Writing at the start of a file replaces its first bytes. */
  lemma OverwriteAtStart(b: seq<byte>, s: seq<byte>)
    requires |s| <= |b|
    ensures Overwrite(b, 0, s) == s + b[|s|..]
  {
    assert b[..0] == [];
  }

  /** A `FILE *` on a binary file: its bytes and the stream position. */
  class File {
    var bytes: seq<byte>
    var pos: nat

    ghost predicate Valid()
      reads this
    {
      pos <= |bytes|
    }

    /** `fopen(path, "wb+")`: an empty file. */
    constructor ()
      ensures Valid() && bytes == [] && pos == 0
    {
      bytes := [];
      pos := 0;
    }

    /** `fopen(path, "rb")` on a file holding `contents`. */
    constructor Open(contents: seq<byte>)
      ensures Valid() && bytes == contents && pos == 0
    {
      bytes := contents;
      pos := 0;
    }

    /** `fwrite` (and `fputc` for one byte): overwrite or extend at the position. */
    method Write(s: seq<byte>)
      requires Valid()
      modifies this
      ensures Valid()
      ensures bytes == Overwrite(old(bytes), old(pos), s) && pos == old(pos) + |s|
    {
      bytes := Overwrite(bytes, pos, s);
      pos := pos + |s|;
    }

    /** `fseek(fp, at, SEEK_SET)`. */
    method Seek(at: nat)
      requires Valid() && at <= |bytes|
      modifies this
      ensures Valid() && bytes == old(bytes) && pos == at
    {
      pos := at;
    }

    /** `fseek(fp, 0, SEEK_END)`. */
    method SeekEnd()
      requires Valid()
      modifies this
      ensures Valid() && bytes == old(bytes) && pos == |bytes|
    {
      pos := |bytes|;
    }

    /** `fread` of `n` bytes that are all present. */
    method Read(n: nat) returns (s: seq<byte>)
      requires Valid() && pos + n <= |bytes|
      modifies this
      ensures Valid() && bytes == old(bytes) && pos == old(pos) + n
      ensures s == bytes[old(pos)..pos]
    {
      s := bytes[pos..pos + n];
      pos := pos + n;
    }
  }

  /** The extraction directory: the contents of each file in it, by name. */
  class Directory {
    var files: map<string, seq<byte>>

    constructor (existing: map<string, seq<byte>>)
      ensures files == existing
    {
      files := existing;
    }

    /** `fopen(path, "wb+")` that succeeds: the file exists and is empty. */
    method Create(name: string)
      modifies this
      ensures files == old(files)[name := []]
    {
      files := files[name := []];
    }

    /** `fwrite` to a file created in this directory. */
    method Append(name: string, s: seq<byte>)
      requires name in files
      modifies this
      ensures files == old(files)[name := old(files)[name] + s]
    {
      files := files[name := files[name] + s];
    }
  }
}
