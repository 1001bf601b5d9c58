/**
 * The unpacker: it reads the first 0x180 bytes of an image through its own
 * view of the record (header and file table in one struct) and, for each of
 * the first `files_count` table entries, copies the bytes
 * `[offset, offset + size)` into a file named `file_<offset in upper-case hex>`.
 *
 * The tool itself trusts both `files_count` (the struct has six slots) and
 * `offset + size` (it reads past the end of the image). The model rejects a
 * count above six and an entry that ends past the image instead.
 */
module UpgExtract {
  import opened Bytes
  import opened Wrappers
  import opened UpgFormat
  import opened Stdio

  // ------------------------------------------------------ the record view

  // Byte offsets of the fields of the unpacker's own `UPG_header_t`.
  const REC_MAGIC_AT: nat := 0
  const REC_VERSION_AT: nat := 4
  const REC_UNK1_AT: nat := 8
  const REC_PAD1_AT: nat := 12
  const REC_SIG_AT: nat := 32
  const REC_FILES_COUNT_AT: nat := 52
  const REC_HEADER_SIZE_AT: nat := 56
  const REC_PAD2_AT: nat := 60
  const REC_CRC32_AT: nat := 188
  const REC_ENTRIES_AT: nat := 192
  const REC_PAD3_AT: nat := REC_ENTRIES_AT + FILES_COUNT * ENTRY_SIZE
  const RECORD_SIZE: nat := REC_PAD3_AT + 0x18

  /** The unpacker's `UPG_header_t`: the image header and the file table read as one struct. */
  datatype Record = Record(
    magic: u32,
    version: u32,
    unk1: u32,
    pad1: seq<byte>,
    sig: seq<byte>,
    filesCount: u32,
    headerSize: u32,
    pad2: seq<byte>,
    crc32: u32,
    entries: seq<FileEntry>,
    pad3: seq<byte>)

  /** `fread(header, sizeof(UPG_header_t), 1, f)` on the first 0x180 bytes. */
  function ParseRecord(s: seq<byte>): (r: Record)
    requires |s| == RECORD_SIZE
    ensures |r.entries| == FILES_COUNT && AllValid(r.entries)
  {
    Record(
      U32At(s, REC_MAGIC_AT),
      U32At(s, REC_VERSION_AT),
      U32At(s, REC_UNK1_AT),
      s[REC_PAD1_AT..REC_SIG_AT],
      s[REC_SIG_AT..REC_FILES_COUNT_AT],
      U32At(s, REC_FILES_COUNT_AT),
      U32At(s, REC_HEADER_SIZE_AT),
      s[REC_PAD2_AT..REC_CRC32_AT],
      U32At(s, REC_CRC32_AT),
      DecodeEntries(s[REC_ENTRIES_AT..REC_PAD3_AT], FILES_COUNT),
      s[REC_PAD3_AT..RECORD_SIZE])
  }

  /**
   * The two tools agree on the layout: the unpacker's record reads, from the
   * same bytes, the fields the packer's header and table put there
   * (`version`/`unk1` are the two version words, `sig` is `data_size`
   * followed by the MD5, `header_size` is `data_offset`).
   */
  lemma ToolsAgree(s: seq<byte>)
    requires |s| == RECORD_SIZE
    ensures RECORD_SIZE == DATA_OFFSET
    ensures var r := ParseRecord(s);
      var h := DecodeHeader(s[..HEADER_SIZE]);
      var t := DecodeTable(s[HEADER_SIZE..]);
      && r.magic == U32At(h.magic, 0)
      && r.version == h.versionMajor
      && r.unk1 == h.versionMinor
      && r.pad1 == h.pad1
      && r.sig == U32Le(h.dataSize) + h.md5
      && r.filesCount == h.filesCount
      && r.headerSize == h.dataOffset
      && r.pad2 == h.pad2
      && r.crc32 == h.crc32
      && r.entries == t.entries
      && r.pad3 == t.pad
  {
    var head := s[..HEADER_SIZE];
    var table := s[HEADER_SIZE..];
    assert head[MAGIC_AT..VERSION_MAJOR_AT] == s[0..4];
    U32AtSlice(s, REC_MAGIC_AT);
    U32AtSlice(head, DATA_SIZE_AT);
    U32AtRoundTrip(head[DATA_SIZE_AT..DATA_SIZE_AT + 4]);
    assert s[REC_SIG_AT..REC_FILES_COUNT_AT] == head[DATA_SIZE_AT..DATA_SIZE_AT + 4] + head[MD5_AT..FILES_COUNT_AT];
    assert table[..ENTRY_SIZE * FILES_COUNT] == s[REC_ENTRIES_AT..REC_PAD3_AT];
  }

  // ------------------------------------------------------------ file names

  /** The upper-case hex digit for `d`. */
  function HexDigit(d: nat): (c: char)
    requires d < 16
  {
    "0123456789ABCDEF"[d]
  }

  /** The value of an upper-case hex digit, if `c` is one. */
  function DigitValue(c: char): (r: Option<nat>)
    ensures r.Some? ==> r.value < 16 && HexDigit(r.value) == c
  {
    if '0' <= c <= '9' then Some(c as int - '0' as int)
    else if 'A' <= c <= 'F' then Some(c as int - 'A' as int + 10)
    else None
  }

  lemma DigitValueOf(d: nat)
    requires d < 16
    ensures DigitValue(HexDigit(d)) == Some(d)
  {
  }

  /** `printf("%X", n)`: upper-case hex, no leading zeros, "0" for zero. */
  function Hex(n: nat): (s: string)
    ensures |s| >= 1
    ensures |s| > 1 ==> s[0] != '0'
    ensures forall i | 0 <= i < |s| :: DigitValue(s[i]).Some?
  {
    if n < 16 then [HexDigit(n)] else Hex(n / 16) + [HexDigit(n % 16)]
  }

  /** Reading a string of hex digits back as a number. */
  function ParseHex(s: string): (r: Option<nat>)
  {
    if s == [] then Some(0)
    else match (ParseHex(s[..|s| - 1]), DigitValue(s[|s| - 1]))
      case (Some(high), Some(low)) => Some(16 * high + low)
      case _ => None
  }

  /** Appending a digit shifts the value one hex place. */
  lemma ParseHexSnoc(s: string, d: nat)
    requires d < 16 && ParseHex(s).Some?
    ensures ParseHex(s + [HexDigit(d)]) == Some(16 * ParseHex(s).value + d)
  {
    assert (s + [HexDigit(d)])[..|s|] == s;
    DigitValueOf(d);
  }

  lemma {:induction false} ParseHexOfHex(n: nat)
    ensures ParseHex(Hex(n)) == Some(n)
  {
    if n < 16 {
      ParseHexSnoc([], n);
      assert [] + [HexDigit(n)] == Hex(n);
    } else {
      ParseHexOfHex(n / 16);
      ParseHexSnoc(Hex(n / 16), n % 16);
    }
  }

  const FILE_PREFIX: string := "file_"

  /** The name an entry's contents are extracted to, inside the target directory. */
  function FileName(offset: u32): (name: string)
    ensures |name| > |FILE_PREFIX| && name[..|FILE_PREFIX|] == FILE_PREFIX
  {
    FILE_PREFIX + Hex(offset)
  }

  /** Entries with different offsets are extracted to different files. */
  lemma FileNameInjective(a: u32, b: u32)
    ensures FileName(a) == FileName(b) <==> a == b
  {
    if FileName(a) == FileName(b) {
      assert Hex(a) == FileName(a)[|FILE_PREFIX|..];
      assert Hex(b) == FileName(b)[|FILE_PREFIX|..];
      ParseHexOfHex(a);
      ParseHexOfHex(b);
    }
  }

  // ------------------------------------------------------------ extraction

  /** What happened to one table entry. */
  datatype Status =
    | Copied(contents: seq<byte>)   // the output file holds these bytes
    | NotCreated                    // `fopen` of the output failed; the entry is skipped
    | OutOfRange                    // the entry ends past the image; nothing is read

  datatype Output = Output(name: string, status: Status)

  datatype DecodeError =
    | Truncated                     // fewer than 0x180 bytes: no complete record
    | TooManyFiles(count: u32)      // `files_count` above the six table slots

  /** The unpacker's handling of one entry, given whether its output file could be `created`. */
  function ExtractEntry(img: seq<byte>, e: FileEntry, created: bool): (out: Output)
    ensures out.name == FileName(e.offset)
    ensures out.status.Copied? <==> created && e.offset + e.size <= |img|
    ensures out.status.NotCreated? <==> !created
    ensures out.status.Copied? ==>
      (|out.status.contents| == e.size && forall k | 0 <= k < e.size :: out.status.contents[k] == img[e.offset + k])
  {
    Output(FileName(e.offset),
           if !created then NotCreated
           else if e.offset + e.size <= |img| then Copied(img[e.offset..e.offset + e.size])
           else OutOfRange)
  }

  /** The outputs for the first `n` entries, in table order; `opens(i)` says whether the `i`-th output file could be created. */
  function Outputs(img: seq<byte>, entries: seq<FileEntry>, opens: nat -> bool, n: nat): (outs: seq<Output>)
    requires n <= |entries|
    ensures |outs| == n
  {
    if n == 0 then [] else Outputs(img, entries, opens, n - 1) + [ExtractEntry(img, entries[n - 1], opens(n - 1))]
  }

  /** Output `i` comes from entry `i`: entries are handled in table order. */
  lemma {:induction false} OutputsAt(img: seq<byte>, entries: seq<FileEntry>, opens: nat -> bool, n: nat, i: nat)
    requires i < n <= |entries|
    ensures Outputs(img, entries, opens, n)[i] == ExtractEntry(img, entries[i], opens(i))
  {
    if i < n - 1 {
      OutputsAt(img, entries, opens, n - 1, i);
    }
  }

  /** What the unpacker does with an image: an error for a record it cannot use, else one output per counted entry. */
  function Extraction(img: seq<byte>, opens: nat -> bool): (r: Result<seq<Output>, DecodeError>)
    ensures |img| < RECORD_SIZE ==> r == Err(Truncated)
    ensures RECORD_SIZE <= |img| ==> var rec := ParseRecord(img[..RECORD_SIZE]);
      && (rec.filesCount > FILES_COUNT ==> r == Err(TooManyFiles(rec.filesCount)))
      && (rec.filesCount <= FILES_COUNT ==> r.Ok? && |r.value| == rec.filesCount)
  {
    if |img| < RECORD_SIZE then Err(Truncated)
    else
      var rec := ParseRecord(img[..RECORD_SIZE]);
      if rec.filesCount > FILES_COUNT then Err(TooManyFiles(rec.filesCount))
      else Ok(Outputs(img, rec.entries, opens, rec.filesCount))
  }

  /** Output `i` of a successful extraction is entry `i`'s, for every counted entry. */
  lemma ExtractionAt(img: seq<byte>, opens: nat -> bool, i: nat)
    requires RECORD_SIZE <= |img|
    requires i < ParseRecord(img[..RECORD_SIZE]).filesCount <= FILES_COUNT
    ensures Extraction(img, opens).Ok? && i < |Extraction(img, opens).value|
    ensures Extraction(img, opens).value[i] == ExtractEntry(img, ParseRecord(img[..RECORD_SIZE]).entries[i], opens(i))
  {
    var rec := ParseRecord(img[..RECORD_SIZE]);
    OutputsAt(img, rec.entries, opens, rec.filesCount, i);
  }

  /**
   * `e` in `img` and `e'` in `img'` name the same bytes: same offset, same
   * size and, when the entry ends within the image, the same contents there.
   */
  predicate SameRange(img: seq<byte>, img': seq<byte>, e: FileEntry, e': FileEntry)
  {
    && e.offset == e'.offset && e.size == e'.size
    && (e.offset + e.size <= |img| ==>
          e.offset + e.size <= |img'| && img[e.offset..e.offset + e.size] == img'[e.offset..e.offset + e.size])
  }

  /** An entry's output depends on its offset, its size and the bytes there only, never on its id or MD5. */
  lemma EntryIgnoresChecksums(img: seq<byte>, img': seq<byte>, e: FileEntry, e': FileEntry, created: bool)
    requires |img| == |img'| && SameRange(img, img', e, e')
    ensures ExtractEntry(img, e, created) == ExtractEntry(img', e', created)
  {
  }

  lemma {:induction false} OutputsIgnoreChecksums(img: seq<byte>, img': seq<byte>, es: seq<FileEntry>, es': seq<FileEntry>,
                                                  opens: nat -> bool, n: nat)
    requires |img| == |img'| && n <= |es| && n <= |es'|
    requires forall i | 0 <= i < n :: SameRange(img, img', es[i], es'[i])
    ensures Outputs(img, es, opens, n) == Outputs(img', es', opens, n)
  {
    if n > 0 {
      OutputsIgnoreChecksums(img, img', es, es', opens, n - 1);
      EntryIgnoresChecksums(img, img', es[n - 1], es'[n - 1], opens(n - 1));
    }
  }

  /**
   * The unpacker checks no checksum: two images of the same length whose
   * records count the same entries, at the same offsets and sizes and with
   * the same bytes there, extract identically, whatever their header MD5,
   * `data_size`, CRC32 and entry MD5s hold.
   */
  lemma ExtractionIgnoresChecksums(img: seq<byte>, img': seq<byte>, opens: nat -> bool)
    requires |img| == |img'| && RECORD_SIZE <= |img|
    requires ParseRecord(img[..RECORD_SIZE]).filesCount == ParseRecord(img'[..RECORD_SIZE]).filesCount
    requires forall i | 0 <= i < ParseRecord(img[..RECORD_SIZE]).filesCount && i < FILES_COUNT ::
      SameRange(img, img', ParseRecord(img[..RECORD_SIZE]).entries[i], ParseRecord(img'[..RECORD_SIZE]).entries[i])
    ensures Extraction(img, opens) == Extraction(img', opens)
  {
    var rec := ParseRecord(img[..RECORD_SIZE]);
    var rec' := ParseRecord(img'[..RECORD_SIZE]);
    if rec.filesCount <= FILES_COUNT {
      OutputsIgnoreChecksums(img, img', rec.entries, rec'.entries, opens, rec.filesCount);
    }
  }

  /** The directory after one output: a created file is truncated, then receives the copied bytes. */
  function Store(dir: map<string, seq<byte>>, out: Output): (r: map<string, seq<byte>>)
    ensures out.status.NotCreated? ==> r == dir
    ensures !out.status.NotCreated? ==> r.Keys == dir.Keys + {out.name}
    ensures out.status.Copied? ==> r[out.name] == out.status.contents
    ensures out.status.OutOfRange? ==> r[out.name] == []
    ensures forall n | n in dir && n != out.name :: r[n] == dir[n]
  {
    match out.status
    case Copied(contents) => dir[out.name := contents]
    case NotCreated => dir
    case OutOfRange => dir[out.name := []]
  }

  /** No output in `outs` creates or truncates the file `name`. */
  predicate Untouched(outs: seq<Output>, name: string)
  {
    forall j | 0 <= j < |outs| :: outs[j].status.NotCreated? || outs[j].name != name
  }

  /** The directory after a run of outputs, applied in order. */
  function StoreAll(dir: map<string, seq<byte>>, outs: seq<Output>): (r: map<string, seq<byte>>)
    ensures dir.Keys <= r.Keys
    ensures forall n | n in dir && Untouched(outs, n) :: r[n] == dir[n]
  {
    if outs == [] then dir else Store(StoreAll(dir, outs[..|outs| - 1]), outs[|outs| - 1])
  }

  /**
   * The last write wins: the file an output was copied to still holds its
   * bytes after every later output, unless a later one uses the same name.
   */
  lemma {:induction false} LastCopyWins(dir: map<string, seq<byte>>, outs: seq<Output>, i: nat)
    requires i < |outs| && outs[i].status.Copied?
    requires forall j | i < j < |outs| :: outs[j].status.NotCreated? || outs[j].name != outs[i].name
    ensures outs[i].name in StoreAll(dir, outs)
    ensures StoreAll(dir, outs)[outs[i].name] == outs[i].status.contents
  {
    var front := outs[..|outs| - 1];
    if i < |outs| - 1 {
      assert front[i] == outs[i];
      LastCopyWins(dir, front, i);
    }
  }

  /**
   * One turn of the extraction loop: create the output file, then seek to
   * the entry's offset, read its bytes and write them out.
   */
  method ExtractOne(input: File, dir: Directory, e: FileEntry, created: bool) returns (out: Output)
    requires input.Valid()
    modifies input, dir
    ensures input.Valid() && input.bytes == old(input.bytes)
    ensures input.pos == if out.status.Copied? then e.offset + e.size else old(input.pos)
    ensures out == ExtractEntry(input.bytes, e, created)
    ensures dir.files == Store(old(dir.files), out)
  {
    var name := FileName(e.offset);
    if !created {
      return Output(name, NotCreated);
    }
    dir.Create(name);
    if e.offset + e.size <= |input.bytes| {
      input.Seek(e.offset);
      var buf := input.Read(e.size);
      dir.Append(name, buf);
      assert [] + buf == buf;
      out := Output(name, Copied(buf));
    } else {
      out := Output(name, OutOfRange);
    }
  }

  /**
   * `main` after its argument checks, on the image file `input` and the
   * target directory `dir`: read the record, then for each counted entry
   * create its output file, seek to its offset, read its bytes and write
   * them out.
   */
  method Extract(input: File, dir: Directory, opens: nat -> bool) returns (r: Result<seq<Output>, DecodeError>)
    requires input.Valid() && input.pos == 0
    modifies input, dir
    ensures input.Valid() && input.bytes == old(input.bytes)
    ensures r == Extraction(old(input.bytes), opens)
    ensures r.Ok? ==> dir.files == StoreAll(old(dir.files), r.value)
    ensures r.Err? ==> dir.files == old(dir.files)
  {
    if |input.bytes| < RECORD_SIZE {
      return Err(Truncated);
    }
    var raw := input.Read(RECORD_SIZE);
    var header := ParseRecord(raw);
    if header.filesCount > FILES_COUNT {
      return Err(TooManyFiles(header.filesCount));
    }
    var outs: seq<Output> := [];
    for i := 0 to header.filesCount
      invariant input.Valid() && input.bytes == old(input.bytes)
      invariant outs == Outputs(input.bytes, header.entries, opens, i)
      invariant dir.files == StoreAll(old(dir.files), outs)
    {
      var out := ExtractOne(input, dir, header.entries[i], opens(i));
      assert (outs + [out])[..|outs|] == outs;
      outs := outs + [out];
    }
    return Ok(outs);
  }
}
