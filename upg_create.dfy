/**
 * The packer: it builds an UPG image from six source files, in four passes
 * over one output file — a zero placeholder for header and table, the
 * payloads appended in role order with zero padding to 32-byte boundaries,
 * the file table written back at 0xC0, and finally the header at 0.
 *
 * A source file is `Some(contents)` when `stat` succeeds on it and `None`
 * when it does not.
 */
module UpgCreate {
  import opened Bytes
  import opened Wrappers
  import opened UpgFormat
  import opened Stdio

  type Source = Option<seq<byte>>

  // ------------------------------------------------------- specification

  /** The bytes of a source that end up in the image (none when missing). */
  function Contents(file: Source): seq<byte>
  {
    if file.Some? then file.value else []
  }

  /** Where the write cursor is after `file` is appended at `offset`. */
  function Advance(file: Source, offset: nat): (r: nat)
    ensures file.None? ==> r == offset
    ensures file.Some? ==> offset + |file.value| <= r < offset + |file.value| + 32
  {
    if file.None? then offset else RoundUp32(offset + |file.value|)
  }

  /** What appending `file` at `offset` adds to the image: the payload, then zeros up to the next multiple of 32. */
  function Chunk(file: Source, offset: nat): (r: seq<byte>)
    ensures |r| == Advance(file, offset) - offset
  {
    if file.None? then [] else file.value + Zeros(Advance(file, offset) - offset - |file.value|)
  }

  /** A chunk starts with the source's contents and is zero after them. */
  lemma ChunkContents(file: Source, offset: nat)
    ensures Chunk(file, offset)[..|Contents(file)|] == Contents(file)
    ensures forall k | |Contents(file)| <= k < |Chunk(file, offset)| :: Chunk(file, offset)[k] == 0
  {
  }

  /** The write cursor after the first `n` sources are appended, in order, from 0x180. */
  function Cursor(files: seq<Source>, n: nat): (r: nat)
    requires n <= |files|
    ensures DATA_OFFSET <= r
  {
    if n == 0 then DATA_OFFSET else Advance(files[n - 1], Cursor(files, n - 1))
  }

  /** Every cursor is a multiple of 32: 0x180 is, and each step pads up to the next one. */
  lemma {:induction false} CursorAligned(files: seq<Source>, n: nat)
    requires n <= |files|
    ensures Cursor(files, n) % 32 == 0
  {
    if n > 0 {
      CursorAligned(files, n - 1);
    }
  }

  /** The chunks appended for the first `n` sources, in order. */
  function Chunks(files: seq<Source>, n: nat): (r: seq<seq<byte>>)
    requires n <= |files|
    ensures |r| == n
  {
    if n == 0 then [] else Chunks(files, n - 1) + [Chunk(files[n - 1], Cursor(files, n - 1))]
  }

  /** The bytes appended for the first `n` sources, from 0x180 on. */
  function Payloads(files: seq<Source>, n: nat): seq<byte>
    requires n <= |files|
  {
    Concat(Chunks(files, n))
  }

  /** The payload area ends at the cursor. */
  lemma {:induction false} PayloadsLength(files: seq<Source>, n: nat)
    requires n <= |files|
    ensures |Payloads(files, n)| == Cursor(files, n) - DATA_OFFSET
  {
    if n > 0 {
      PayloadsLength(files, n - 1);
      ConcatSnoc(Chunks(files, n - 1), Chunk(files[n - 1], Cursor(files, n - 1)));
    }
  }

  /** Appending later sources keeps the earlier chunks; chunk `i` is source `i`'s. */
  lemma {:induction false} ChunksPrefix(files: seq<Source>, n: nat, i: nat)
    requires i < n <= |files|
    ensures Chunks(files, n)[..i] == Chunks(files, i)
    ensures Chunks(files, n)[i] == Chunk(files[i], Cursor(files, i))
  {
    TakeSnoc(Chunks(files, n - 1), Chunk(files[n - 1], Cursor(files, n - 1)), i);
    if i < n - 1 {
      ChunksPrefix(files, n - 1, i);
      assert Chunks(files, n - 1)[..i] == Chunks(files, i);
    } else {
      assert Chunks(files, n - 1)[..i] == Chunks(files, n - 1);
    }
  }

  /** The table entry `get_file_infos` records for `file` when the cursor is at `offset`. */
  function Slot(file: Source, role: Role, offset: nat, ck: Checksums): (e: FileEntry)
    ensures e.Valid()
    ensures file.None? <==> e == EMPTY_ENTRY
  {
    if file.None? then EMPTY_ENTRY
    else FileEntry(RoleId(role), U32(|file.value|), U32(offset), ck.md5(file.value))
  }

  /** The table slots after recording `file` in slot `i`: a missing source leaves them unchanged. */
  function Recorded(es: seq<FileEntry>, i: nat, file: Source, role: Role, offset: nat, ck: Checksums): (r: seq<FileEntry>)
    requires i < |es|
    ensures |r| == |es|
    ensures forall j | 0 <= j < |es| && j != i :: r[j] == es[j]
    ensures file.None? ==> r[i] == es[i]
    ensures file.Some? ==> r[i] == Slot(file, role, offset, ck) != EMPTY_ENTRY
  {
    if file.None? then es else es[i := Slot(file, role, offset, ck)]
  }

  /** The entry the packer records in slot `i`. */
  function SlotAt(files: seq<Source>, ck: Checksums, i: nat): (e: FileEntry)
    requires i < |files| && i < FILES_COUNT
    ensures e.Valid()
    ensures files[i].None? <==> e == EMPTY_ENTRY
  {
    Slot(files[i], ROLE_ORDER[i], Cursor(files, i), ck)
  }

  /** `files_table = {0}`: six all-zero slots. */
  const EMPTY_SLOTS: seq<FileEntry> := [EMPTY_ENTRY, EMPTY_ENTRY, EMPTY_ENTRY, EMPTY_ENTRY, EMPTY_ENTRY, EMPTY_ENTRY]

  /** The table slots after the first `k` calls of `get_file_infos`. */
  function SlotsAfter(files: seq<Source>, ck: Checksums, k: nat): (es: seq<FileEntry>)
    requires |files| == FILES_COUNT && k <= FILES_COUNT
    ensures |es| == FILES_COUNT && AllValid(es)
  {
    if k == 0 then EMPTY_SLOTS
    else Recorded(SlotsAfter(files, ck, k - 1), k - 1, files[k - 1], ROLE_ORDER[k - 1], Cursor(files, k - 1), ck)
  }

  /** After `k` calls, the first `k` slots hold their entries and the rest are still zero. */
  lemma {:induction false} SlotsAfterAt(files: seq<Source>, ck: Checksums, k: nat, j: nat)
    requires |files| == FILES_COUNT && k <= FILES_COUNT && j < FILES_COUNT
    ensures SlotsAfter(files, ck, k)[j] == if j < k then SlotAt(files, ck, j) else EMPTY_ENTRY
  {
    if k > 0 {
      SlotsAfterAt(files, ck, k - 1, j);
    }
  }

  /** The file table the packer writes at 0xC0: the slots after all six calls. */
  function TableOf(files: seq<Source>, ck: Checksums): (t: FilesTable)
    requires |files| == FILES_COUNT
    ensures t.Valid()
  {
    FilesTable(SlotsAfter(files, ck, FILES_COUNT), Zeros(TABLE_PAD_SIZE))
  }

  /** Slot `i` of the table is the entry recorded for source `i`. */
  lemma TableOfAt(files: seq<Source>, ck: Checksums, i: nat)
    requires |files| == FILES_COUNT && i < FILES_COUNT
    ensures TableOf(files, ck).entries[i] == SlotAt(files, ck, i)
  {
    SlotsAfterAt(files, ck, FILES_COUNT, i);
  }

  /**
   * The header `write_header` computes for an image whose bytes after the
   * header are `body`: `data_size` is the (u32-truncated) body length, the
   * MD5 covers the first `data_size` body bytes, and the CRC32 is taken over
   * the header while its own field is still zero.
   */
  function HeaderFor(body: seq<byte>, ck: Checksums): (h: Header)
    ensures h.Valid()
  {
    var dataSize := U32(|body|);
    var unsigned := Header(MAGIC, VERSION_MAJOR, VERSION_MINOR, Zeros(DATA_SIZE_AT - PAD1_AT), dataSize,
                           ck.md5(body[..dataSize]), FILES_COUNT, DATA_OFFSET, Zeros(CRC32_AT - PAD2_AT), 0);
    unsigned.(crc32 := ck.crc32(EncodeHeader(unsigned)))
  }

  /** Everything from 0xC0 to the end of the image: table, then payloads. */
  function Body(files: seq<Source>, ck: Checksums): (r: seq<byte>)
    requires |files| == FILES_COUNT
    ensures |r| == Cursor(files, FILES_COUNT) - HEADER_SIZE
  {
    PayloadsLength(files, FILES_COUNT);
    EncodeTable(TableOf(files, ck)) + Payloads(files, FILES_COUNT)
  }

  /** The complete image the packer produces. */
  function Image(files: seq<Source>, ck: Checksums): (r: seq<byte>)
    requires |files| == FILES_COUNT
    ensures |r| == Cursor(files, FILES_COUNT)
  {
    var body := Body(files, ck);
    EncodeHeader(HeaderFor(body, ck)) + body
  }

  /** All sizes and offsets of the image fit the u32 fields that record them. */
  predicate Fits(files: seq<Source>)
  {
    |files| == FILES_COUNT && Cursor(files, FILES_COUNT) < U32_LIMIT
  }

  // --------------------------------------------------------------- packer

  /**
   * `get_file_infos`: append one source file at the end of `out`, record its
   * entry in slot `i`, pad with zeros to a multiple of 32, and return the
   * advanced cursor. A missing source changes nothing.
   */
  method GetFileInfos(entries: array<FileEntry>, i: nat, file: Source, role: Role, offset: nat,
                      out: File, ck: Checksums)
    returns (next: nat)
    requires i < entries.Length
    requires out.Valid() && out.pos == |out.bytes| == offset
    modifies entries, out
    ensures out.Valid() && out.pos == |out.bytes| == next
    ensures next == Advance(file, offset)
    ensures out.bytes == old(out.bytes) + Chunk(file, offset)
    ensures entries[..] == Recorded(old(entries[..]), i, file, role, offset, ck)
  {
    if file.None? {
      return offset;
    }
    var contents := file.value;
    entries[i] := FileEntry(RoleId(role), U32(|contents|), U32(offset), ck.md5(contents));
    OverwriteAtEnd(out.bytes, contents);
    out.Write(contents);
    next := offset + |contents|;
    ghost var end := RoundUp32(offset + |contents|);
    while next % 32 != 0
      invariant offset + |contents| <= next <= end
      invariant out.Valid() && out.pos == |out.bytes| == next
      invariant out.bytes == old(out.bytes) + contents + Zeros(next - offset - |contents|)
      invariant entries[..] == old(entries[..])[i := Slot(file, role, offset, ck)]
      decreases end - next
    {
      OverwriteAtEnd(out.bytes, [0]);
      ZerosSnoc(next - offset - |contents|);
      out.Write([0]);
      next := next + 1;
    }
    RoundUp32Least(offset + |contents|, next);
  }

  /**
   * `write_header`: compute the header from the bytes after 0xC0 and write
   * it over the first 0xC0 bytes; nothing after the header changes.
   */
  method WriteHeader(out: File, ck: Checksums)
    requires out.Valid() && HEADER_SIZE <= |out.bytes|
    modifies out
    ensures out.Valid() && out.pos == HEADER_SIZE
    ensures out.bytes == EncodeHeader(HeaderFor(old(out.bytes)[HEADER_SIZE..], ck)) + old(out.bytes)[HEADER_SIZE..]
  {
    ghost var body := out.bytes[HEADER_SIZE..];
    out.SeekEnd();
    var dataSize := U32(out.pos - HEADER_SIZE);
    out.Seek(HEADER_SIZE);
    var buf := out.Read(dataSize);
    assert buf == body[..dataSize];
    var header := Header(MAGIC, VERSION_MAJOR, VERSION_MINOR, Zeros(DATA_SIZE_AT - PAD1_AT), dataSize,
                         ck.md5(buf), FILES_COUNT, DATA_OFFSET, Zeros(CRC32_AT - PAD2_AT), 0);
    header := header.(crc32 := ck.crc32(EncodeHeader(header)));
    assert header == HeaderFor(body, ck);
    var encoded := EncodeHeader(header);
    OverwriteAtStart(out.bytes, encoded);
    out.Seek(0);
    out.Write(encoded);
  }

  /**
   * The state of `main` after the first `k` calls of `get_file_infos`: the
   * cursor, the file (placeholder then `k` chunks) and the table slots.
   */
  ghost predicate Appended(files: seq<Source>, ck: Checksums, k: nat,
                           entries: seq<FileEntry>, bytes: seq<byte>, offset: nat)
    requires |files| == FILES_COUNT && k <= FILES_COUNT
  {
    && offset == Cursor(files, k)
    && bytes == Zeros(DATA_OFFSET) + Payloads(files, k)
    && entries == SlotsAfter(files, ck, k)
  }

  /** One `get_file_infos` call takes `main` from `k` appended sources to `k + 1`. */
  lemma AppendStep(files: seq<Source>, ck: Checksums, k: nat,
                   entries: seq<FileEntry>, bytes: seq<byte>, offset: nat,
                   entries': seq<FileEntry>, bytes': seq<byte>, next: nat)
    requires |files| == FILES_COUNT && k < FILES_COUNT
    requires Appended(files, ck, k, entries, bytes, offset)
    requires next == Advance(files[k], offset)
    requires bytes' == bytes + Chunk(files[k], offset)
    requires entries' == Recorded(entries, k, files[k], ROLE_ORDER[k], offset, ck)
    ensures Appended(files, ck, k + 1, entries', bytes', next)
  {
    ConcatSnoc(Chunks(files, k), Chunk(files[k], offset));
  }

  /** Writing the table at 0xC0 over the zero placeholder leaves the body of the image. */
  lemma TableOverPlaceholder(files: seq<Source>, ck: Checksums)
    requires |files| == FILES_COUNT
    ensures var written := Overwrite(Zeros(DATA_OFFSET) + Payloads(files, FILES_COUNT), HEADER_SIZE, EncodeTable(TableOf(files, ck)));
      HEADER_SIZE <= |written| && written[HEADER_SIZE..] == Body(files, ck)
  {
    var r := Overwrite(Zeros(DATA_OFFSET) + Payloads(files, FILES_COUNT), HEADER_SIZE, EncodeTable(TableOf(files, ck)));
    assert r[HEADER_SIZE..] == r[HEADER_SIZE..DATA_OFFSET] + r[DATA_OFFSET..];
  }

  /**
   * The packer's `main` after its argument checks: placeholder, the six
   * payloads in role order, the table at 0xC0, then the header.
   */
  method Create(files: seq<Source>, ck: Checksums) returns (out: File)
    requires |files| == FILES_COUNT
    ensures fresh(out) && out.Valid()
    ensures out.bytes == Image(files, ck)
  {
    out := new File();
    var entries := new FileEntry[FILES_COUNT](_ => EMPTY_ENTRY);
    var offset := DATA_OFFSET;
    out.Write(Zeros(offset));
    assert entries[..] == EMPTY_SLOTS;
    // One get_file_infos call per slot, in role order.
    for i := 0 to FILES_COUNT
      invariant out.Valid() && out.pos == |out.bytes| == offset
      invariant Appended(files, ck, i, entries[..], out.bytes, offset)
    {
      ghost var before, written, cursor := entries[..], out.bytes, offset;
      offset := GetFileInfos(entries, i, files[i], ROLE_ORDER[i], offset, out, ck);
      AppendStep(files, ck, i, before, written, cursor, entries[..], out.bytes, offset);
    }

    var table := FilesTable(entries[..], Zeros(TABLE_PAD_SIZE));
    out.Seek(HEADER_SIZE);
    out.Write(EncodeTable(table));
    TableOverPlaceholder(files, ck);
    WriteHeader(out, ck);
  }

  // ----------------------------------------------------------- properties

  /** The cursor never moves backwards. */
  lemma {:induction false} CursorMonotone(files: seq<Source>, i: nat, j: nat)
    requires i <= j <= |files|
    ensures Cursor(files, i) <= Cursor(files, j)
  {
    if i < j {
      CursorMonotone(files, i, j - 1);
    }
  }

  /** Missing sources do not move the cursor. */
  lemma {:induction false} CursorSkipsMissing(files: seq<Source>, i: nat, j: nat)
    requires i <= j <= |files|
    requires forall k | i <= k < j :: files[k].None?
    ensures Cursor(files, j) == Cursor(files, i)
  {
    if i < j {
      CursorSkipsMissing(files, i, j - 1);
    }
  }

  /** The image is header, table, then the payload area, and ends at the final cursor. */
  lemma ImageParts(files: seq<Source>, ck: Checksums)
    requires |files| == FILES_COUNT
    ensures |Image(files, ck)| == Cursor(files, FILES_COUNT)
    ensures Image(files, ck)[..HEADER_SIZE] == EncodeHeader(HeaderFor(Body(files, ck), ck))
    ensures Image(files, ck)[HEADER_SIZE..] == Body(files, ck)
    ensures Image(files, ck)[HEADER_SIZE..DATA_OFFSET] == EncodeTable(TableOf(files, ck))
    ensures Image(files, ck)[DATA_OFFSET..] == Payloads(files, FILES_COUNT)
    ensures Image(files, ck) == Image(files, ck)[..DATA_OFFSET] + Payloads(files, FILES_COUNT)
  {
    PayloadsLength(files, FILES_COUNT);
  }

  /**
   * Slot `i` of the table: all zero, with the cursor left in place, when its
   * source is missing; otherwise its role id, size, the cursor before the
   * payload and the payload's MD5, after which the cursor moves to the next
   * multiple of 32 at or after `offset + size`.
   */
  lemma TableEntry(files: seq<Source>, ck: Checksums, i: nat)
    requires Fits(files) && i < FILES_COUNT
    ensures var e := TableOf(files, ck).entries[i];
      && (files[i].None? ==> e == EMPTY_ENTRY && Cursor(files, i + 1) == Cursor(files, i))
      && (files[i].Some? ==>
            && e.id == RoleId(ROLE_ORDER[i])
            && e.size == |files[i].value|
            && e.offset == Cursor(files, i)
            && e.md5 == ck.md5(files[i].value)
            && Cursor(files, i + 1) == RoundUp32(e.offset + e.size))
  {
    TableOfAt(files, ck, i);
    CursorMonotone(files, i + 1, FILES_COUNT);
  }

  /**
   * Every recorded offset, present or not, is a multiple of 32, and so is the
   * image length; u32 truncation keeps this, as 2^32 is a multiple of 32.
   */
  lemma EntriesAligned(files: seq<Source>, ck: Checksums)
    requires |files| == FILES_COUNT
    ensures forall i | 0 <= i < FILES_COUNT :: TableOf(files, ck).entries[i].offset % 32 == 0
    ensures |Image(files, ck)| % 32 == 0
  {
    forall i | 0 <= i < FILES_COUNT
      ensures TableOf(files, ck).entries[i].offset % 32 == 0
    {
      TableOfAt(files, ck, i);
      SlotAligned(files, ck, i);
    }
    ImageParts(files, ck);
    CursorAligned(files, FILES_COUNT);
  }

  lemma SlotAligned(files: seq<Source>, ck: Checksums, i: nat)
    requires |files| == FILES_COUNT && i < FILES_COUNT
    ensures SlotAt(files, ck, i).offset % 32 == 0
  {
    var at := Cursor(files, i);
    CursorAligned(files, i);
    var q := at / U32_LIMIT;
    assert at == U32_LIMIT * q + U32(at);
    assert U32(at) == 32 * (at / 32 - 0x800_0000 * q);
  }

  /**
   * The image bytes `[offset, offset + size)` of a present slot are its
   * source's contents, and the bytes up to the next multiple of 32 are zero.
   */
  lemma PayloadInImage(files: seq<Source>, ck: Checksums, i: nat)
    requires Fits(files) && i < FILES_COUNT && files[i].Some?
    ensures var e := TableOf(files, ck).entries[i];
      && RoundUp32(e.offset + e.size) <= |Image(files, ck)|
      && Image(files, ck)[e.offset..e.offset + e.size] == files[i].value
      && forall k | e.offset + e.size <= k < RoundUp32(e.offset + e.size) :: Image(files, ck)[k] == 0
  {
    TableEntry(files, ck, i);
    ChunkInImage(files, ck, i);
    ChunkContents(files[i], Cursor(files, i));
    Window(Image(files, ck), Cursor(files, i), Chunk(files[i], Cursor(files, i)), |files[i].value|);
  }

  /** Chunk `i` sits in the image at the cursor before it. */
  lemma ChunkInImage(files: seq<Source>, ck: Checksums, i: nat)
    requires |files| == FILES_COUNT && i < FILES_COUNT
    ensures Cursor(files, i) + |Chunk(files[i], Cursor(files, i))| <= |Image(files, ck)|
    ensures Image(files, ck)[Cursor(files, i)..Cursor(files, i) + |Chunk(files[i], Cursor(files, i))|] == Chunk(files[i], Cursor(files, i))
  {
    ImageParts(files, ck);
    ChunksPrefix(files, FILES_COUNT, i);
    PayloadsLength(files, i);
    ConcatPartAfter(Image(files, ck), DATA_OFFSET, Chunks(files, FILES_COUNT), i, Cursor(files, i), Chunk(files[i], Cursor(files, i)));
  }

  /**
   * Payloads do not overlap: a later present slot starts at or after the end
   * of an earlier one, and strictly after its start when it is not empty.
   */
  lemma PayloadsDisjoint(files: seq<Source>, ck: Checksums, i: nat, j: nat)
    requires Fits(files) && i < j < FILES_COUNT && files[i].Some?
    ensures var es := TableOf(files, ck).entries;
      && es[i].offset + es[i].size <= Cursor(files, j)
      && (files[j].Some? ==> es[i].offset + es[i].size <= es[j].offset)
      && (files[j].Some? && es[i].size > 0 ==> es[i].offset < es[j].offset)
  {
    TableEntry(files, ck, i);
    TableEntry(files, ck, j);
    CursorMonotone(files, i + 1, j);
  }

  /** The table read back from bytes 0xC0..0x180 is the one the packer recorded. */
  lemma TableInImage(files: seq<Source>, ck: Checksums)
    requires |files| == FILES_COUNT
    ensures DecodeTable(Image(files, ck)[HEADER_SIZE..DATA_OFFSET]) == TableOf(files, ck)
    ensures TableOf(files, ck).pad == Zeros(TABLE_PAD_SIZE)
    ensures forall i | 0 <= i < FILES_COUNT :: TableOf(files, ck).entries[i].id in {0, RoleId(ROLE_ORDER[i])}
  {
    ImageParts(files, ck);
    DecodeEncodeTable(TableOf(files, ck));
    forall i | 0 <= i < FILES_COUNT
      ensures TableOf(files, ck).entries[i].id in {0, RoleId(ROLE_ORDER[i])}
    {
      TableOfAt(files, ck, i);
    }
  }

  /**
   * The header read back from bytes 0..0xC0: magic "NFWB", version 2/0x21C,
   * six files, data at 0x180, `data_size` the length after the header, an
   * MD5 of everything after the header, and a CRC32 that checks against the
   * header with its CRC field zeroed.
   */
  lemma HeaderOfImage(files: seq<Source>, ck: Checksums)
    requires Fits(files)
    ensures var img := Image(files, ck);
      var h := DecodeHeader(img[..HEADER_SIZE]);
      && h.magic == MAGIC
      && h.versionMajor == 2 && h.versionMinor == 0x21C
      && h.pad1 == Zeros(20) && h.pad2 == Zeros(128)
      && h.filesCount == 6
      && h.dataOffset == DATA_OFFSET
      && h.dataSize == |img| - HEADER_SIZE
      && h.md5 == ck.md5(img[HEADER_SIZE..])
      && h.crc32 == ck.crc32(EncodeHeader(h.(crc32 := 0)))
  {
    ImageParts(files, ck);
    var body := Body(files, ck);
    DecodeEncodeHeader(HeaderFor(body, ck));
    assert body[..U32(|body|)] == body;
  }
}
