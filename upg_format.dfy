/**
 * The UPG record layouts shared by the packer and the unpacker: the
 * `FILE_ID` roles, the 28-byte file entry, the 0xC0-byte file table and
 * the 0xC0-byte image header, each with its byte serialisation and the
 * parse that inverts it.
 */
module UpgFormat {
  import opened Bytes
  import opened Wrappers

  /** The `FILE_ID` enumeration: the role of each bundled payload. */
  datatype Role = BootRom | RootFs | SplashScreen | Bootloader | Kernel | BoardFs

  /** The `FILE_ID` value of a role: odd, except 12 for the board filesystem. */
  function RoleId(role: Role): (id: u32)
    ensures id in {1, 3, 5, 7, 9, 12}
    ensures id % 2 == 1 <==> role != BoardFs
  {
    match role
    case BootRom => 1
    case RootFs => 3
    case SplashScreen => 5
    case Bootloader => 7
    case Kernel => 9
    case BoardFs => 12
  }

  /** The role a stored id names, if any: the ids form a closed set. */
  function RoleOf(id: u32): (r: Option<Role>)
    ensures r.Some? <==> id in {1, 3, 5, 7, 9, 12}
    ensures r.Some? ==> RoleId(r.value) == id
    ensures forall role :: RoleId(role) == id ==> r == Some(role)
  {
    match id
    case 1 => Some(BootRom)
    case 3 => Some(RootFs)
    case 5 => Some(SplashScreen)
    case 7 => Some(Bootloader)
    case 9 => Some(Kernel)
    case 12 => Some(BoardFs)
    case _ => None
  }

  /** The order in which the packer lays out the six payloads. */
  const ROLE_ORDER: seq<Role> := [BootRom, RootFs, SplashScreen, Bootloader, Kernel, BoardFs]

  /** Number of slots in the file table. */
  const FILES_COUNT: nat := 6

  const ENTRY_SIZE: nat := 28
  const TABLE_PAD_SIZE: nat := 0x18
  const TABLE_SIZE: nat := FILES_COUNT * ENTRY_SIZE + TABLE_PAD_SIZE

  // Byte offsets of the header fields.
  const MAGIC_AT: nat := 0
  const VERSION_MAJOR_AT: nat := 4
  const VERSION_MINOR_AT: nat := 8
  const PAD1_AT: nat := 12
  const DATA_SIZE_AT: nat := 32
  const MD5_AT: nat := 36
  const FILES_COUNT_AT: nat := 52
  const DATA_OFFSET_AT: nat := 56
  const PAD2_AT: nat := 60
  const CRC32_AT: nat := 188
  const HEADER_SIZE: nat := CRC32_AT + 4

  /** Where the first payload starts: right after the header and the table. */
  const DATA_OFFSET: nat := HEADER_SIZE + TABLE_SIZE

  /** "NFWB" */
  const MAGIC: seq<byte> := [0x4E, 0x46, 0x57, 0x42]
  const VERSION_MAJOR: u32 := 0x2
  const VERSION_MINOR: u32 := 0x21C

  lemma LayoutSizes()
    ensures TABLE_SIZE == 0xC0 && HEADER_SIZE == 0xC0 && DATA_OFFSET == 0x180
    ensures DATA_OFFSET % 32 == 0
  {
  }

  // ---------------------------------------------------------------- entries

  /** `file_entry_t`: id, size and offset as u32, then a 16-byte MD5. */
  datatype FileEntry = FileEntry(id: u32, size: u32, offset: u32, md5: seq<byte>)
  {
    predicate Valid()
    {
      |md5| == 16
    }
  }

  /** The entry of a table slot that was never filled in: all zero. */
  const EMPTY_ENTRY: FileEntry := FileEntry(0, 0, 0, Zeros(16))

  function EncodeEntry(e: FileEntry): (r: seq<byte>)
    requires e.Valid()
    ensures |r| == ENTRY_SIZE
  {
    U32Le(e.id) + U32Le(e.size) + U32Le(e.offset) + e.md5
  }

  function DecodeEntry(s: seq<byte>): (e: FileEntry)
    requires |s| == ENTRY_SIZE
    ensures e.Valid()
  {
    FileEntry(U32At(s, 0), U32At(s, 4), U32At(s, 8), s[12..28])
  }

  lemma DecodeEncodeEntry(e: FileEntry)
    requires e.Valid()
    ensures DecodeEntry(EncodeEntry(e)) == e
  {
    var s := EncodeEntry(e);
    assert s[0..4] == U32Le(e.id);
    assert s[4..8] == U32Le(e.size);
    assert s[8..12] == U32Le(e.offset);
    U32AtSlice(s, 0);
    U32AtSlice(s, 4);
    U32AtSlice(s, 8);
    U32LeRoundTrip(e.id);
    U32LeRoundTrip(e.size);
    U32LeRoundTrip(e.offset);
  }

  lemma EncodeDecodeEntry(s: seq<byte>)
    requires |s| == ENTRY_SIZE
    ensures EncodeEntry(DecodeEntry(s)) == s
  {
    U32AtSlice(s, 0);
    U32AtSlice(s, 4);
    U32AtSlice(s, 8);
    U32AtRoundTrip(s[0..4]);
    U32AtRoundTrip(s[4..8]);
    U32AtRoundTrip(s[8..12]);
    assert s == s[0..4] + s[4..8] + s[8..12] + s[12..28];
  }

  ghost predicate AllValid(es: seq<FileEntry>)
  {
    forall i | 0 <= i < |es| :: es[i].Valid()
  }

  /** Consecutive entries, 28 bytes each. */
  function EncodeEntries(es: seq<FileEntry>): (r: seq<byte>)
    requires AllValid(es)
    ensures |r| == ENTRY_SIZE * |es|
  {
    if es == [] then [] else EncodeEntry(es[0]) + EncodeEntries(es[1..])
  }

  /** The `n` consecutive 28-byte entries that make up `s`. */
  function DecodeEntries(s: seq<byte>, n: nat): (es: seq<FileEntry>)
    requires |s| == ENTRY_SIZE * n
    ensures |es| == n && AllValid(es)
  {
    if n == 0 then [] else [DecodeEntry(s[..ENTRY_SIZE])] + DecodeEntries(s[ENTRY_SIZE..], n - 1)
  }

  lemma {:induction false} DecodeEncodeEntries(es: seq<FileEntry>)
    requires AllValid(es)
    ensures DecodeEntries(EncodeEntries(es), |es|) == es
  {
    if es != [] {
      var s := EncodeEntries(es);
      assert s[..ENTRY_SIZE] == EncodeEntry(es[0]);
      assert s[ENTRY_SIZE..] == EncodeEntries(es[1..]);
      DecodeEncodeEntry(es[0]);
      DecodeEncodeEntries(es[1..]);
    }
  }

  lemma {:induction false} EncodeDecodeEntries(s: seq<byte>, n: nat)
    requires |s| == ENTRY_SIZE * n
    ensures EncodeEntries(DecodeEntries(s, n)) == s
  {
    if n > 0 {
      var es := DecodeEntries(s, n);
      assert es[1..] == DecodeEntries(s[ENTRY_SIZE..], n - 1);
      EncodeDecodeEntry(s[..ENTRY_SIZE]);
      EncodeDecodeEntries(s[ENTRY_SIZE..], n - 1);
      assert s == s[..ENTRY_SIZE] + s[ENTRY_SIZE..];
    }
  }

  /** Entry `i` of a run of entries sits at bytes `[28 * i, 28 * i + 28)`. */
  lemma {:induction false} EntryAt(es: seq<FileEntry>, i: nat)
    requires AllValid(es) && i < |es|
    ensures EncodeEntries(es)[ENTRY_SIZE * i .. ENTRY_SIZE * i + ENTRY_SIZE] == EncodeEntry(es[i])
  {
    if i > 0 {
      EntryAt(es[1..], i - 1);
      SliceAfter(EncodeEntry(es[0]), EncodeEntries(es[1..]), ENTRY_SIZE * (i - 1), ENTRY_SIZE * (i - 1) + ENTRY_SIZE);
    }
  }

  // ------------------------------------------------------------------ table

  /** `files_table_t`: six entries and 0x18 pad bytes. */
  datatype FilesTable = FilesTable(entries: seq<FileEntry>, pad: seq<byte>)
  {
    ghost predicate Valid()
    {
      |entries| == FILES_COUNT && AllValid(entries) && |pad| == TABLE_PAD_SIZE
    }
  }

  function EncodeTable(t: FilesTable): (r: seq<byte>)
    requires t.Valid()
    ensures |r| == TABLE_SIZE
  {
    EncodeEntries(t.entries) + t.pad
  }

  function DecodeTable(s: seq<byte>): (t: FilesTable)
    requires |s| == TABLE_SIZE
    ensures t.Valid()
  {
    FilesTable(DecodeEntries(s[..ENTRY_SIZE * FILES_COUNT], FILES_COUNT), s[ENTRY_SIZE * FILES_COUNT..])
  }

  lemma DecodeEncodeTable(t: FilesTable)
    requires t.Valid()
    ensures DecodeTable(EncodeTable(t)) == t
  {
    var s := EncodeTable(t);
    assert s[..ENTRY_SIZE * FILES_COUNT] == EncodeEntries(t.entries);
    DecodeEncodeEntries(t.entries);
  }

  lemma EncodeDecodeTable(s: seq<byte>)
    requires |s| == TABLE_SIZE
    ensures EncodeTable(DecodeTable(s)) == s
  {
    EncodeDecodeEntries(s[..ENTRY_SIZE * FILES_COUNT], FILES_COUNT);
    assert s == s[..ENTRY_SIZE * FILES_COUNT] + s[ENTRY_SIZE * FILES_COUNT..];
  }

  // ----------------------------------------------------------------- header

  /** `UPG_header_t`, with its pad areas kept so that parsing loses nothing. */
  datatype Header = Header(
    magic: seq<byte>,
    versionMajor: u32,
    versionMinor: u32,
    pad1: seq<byte>,
    dataSize: u32,
    md5: seq<byte>,
    filesCount: u32,
    dataOffset: u32,
    pad2: seq<byte>,
    crc32: u32)
  {
    predicate Valid()
    {
      |magic| == 4 && |pad1| == DATA_SIZE_AT - PAD1_AT && |md5| == 16 && |pad2| == CRC32_AT - PAD2_AT
    }
  }

  function EncodeHeader(h: Header): (r: seq<byte>)
    requires h.Valid()
    ensures |r| == HEADER_SIZE
  {
    h.magic + U32Le(h.versionMajor) + U32Le(h.versionMinor) + h.pad1 + U32Le(h.dataSize) + h.md5
    + U32Le(h.filesCount) + U32Le(h.dataOffset) + h.pad2 + U32Le(h.crc32)
  }

  function DecodeHeader(s: seq<byte>): (h: Header)
    requires |s| == HEADER_SIZE
    ensures h.Valid()
  {
    Header(
      s[MAGIC_AT..VERSION_MAJOR_AT],
      U32At(s, VERSION_MAJOR_AT),
      U32At(s, VERSION_MINOR_AT),
      s[PAD1_AT..DATA_SIZE_AT],
      U32At(s, DATA_SIZE_AT),
      s[MD5_AT..FILES_COUNT_AT],
      U32At(s, FILES_COUNT_AT),
      U32At(s, DATA_OFFSET_AT),
      s[PAD2_AT..CRC32_AT],
      U32At(s, CRC32_AT))
  }

  /** Every header field is read back from the offset it was written at. */
  lemma DecodeEncodeHeader(h: Header)
    requires h.Valid()
    ensures DecodeHeader(EncodeHeader(h)) == h
  {
    var s := EncodeHeader(h);
    assert s[MAGIC_AT..VERSION_MAJOR_AT] == h.magic;
    assert s[VERSION_MAJOR_AT..VERSION_MAJOR_AT + 4] == U32Le(h.versionMajor);
    assert s[VERSION_MINOR_AT..VERSION_MINOR_AT + 4] == U32Le(h.versionMinor);
    assert s[PAD1_AT..DATA_SIZE_AT] == h.pad1;
    assert s[DATA_SIZE_AT..DATA_SIZE_AT + 4] == U32Le(h.dataSize);
    assert s[MD5_AT..FILES_COUNT_AT] == h.md5;
    assert s[FILES_COUNT_AT..FILES_COUNT_AT + 4] == U32Le(h.filesCount);
    assert s[DATA_OFFSET_AT..DATA_OFFSET_AT + 4] == U32Le(h.dataOffset);
    assert s[PAD2_AT..CRC32_AT] == h.pad2;
    var front := h.magic + U32Le(h.versionMajor) + U32Le(h.versionMinor) + h.pad1 + U32Le(h.dataSize) + h.md5
                 + U32Le(h.filesCount) + U32Le(h.dataOffset) + h.pad2;
    SliceRight(front, U32Le(h.crc32));
    assert s[CRC32_AT..CRC32_AT + 4] == U32Le(h.crc32);
    U32AtSlice(s, VERSION_MAJOR_AT);
    U32AtSlice(s, VERSION_MINOR_AT);
    U32AtSlice(s, DATA_SIZE_AT);
    U32AtSlice(s, FILES_COUNT_AT);
    U32AtSlice(s, DATA_OFFSET_AT);
    U32AtSlice(s, CRC32_AT);
    U32LeRoundTrip(h.versionMajor);
    U32LeRoundTrip(h.versionMinor);
    U32LeRoundTrip(h.dataSize);
    U32LeRoundTrip(h.filesCount);
    U32LeRoundTrip(h.dataOffset);
    U32LeRoundTrip(h.crc32);
  }

  /** Parsing a 0xC0-byte block and re-serialising it gives the same bytes. */
  lemma EncodeDecodeHeader(s: seq<byte>)
    requires |s| == HEADER_SIZE
    ensures EncodeHeader(DecodeHeader(s)) == s
  {
    U32AtSlice(s, VERSION_MAJOR_AT);
    U32AtSlice(s, VERSION_MINOR_AT);
    U32AtSlice(s, DATA_SIZE_AT);
    U32AtSlice(s, FILES_COUNT_AT);
    U32AtSlice(s, DATA_OFFSET_AT);
    U32AtSlice(s, CRC32_AT);
    U32AtRoundTrip(s[VERSION_MAJOR_AT..VERSION_MAJOR_AT + 4]);
    U32AtRoundTrip(s[VERSION_MINOR_AT..VERSION_MINOR_AT + 4]);
    U32AtRoundTrip(s[DATA_SIZE_AT..DATA_SIZE_AT + 4]);
    U32AtRoundTrip(s[FILES_COUNT_AT..FILES_COUNT_AT + 4]);
    U32AtRoundTrip(s[DATA_OFFSET_AT..DATA_OFFSET_AT + 4]);
    U32AtRoundTrip(s[CRC32_AT..CRC32_AT + 4]);
    assert s == s[0..4] + s[4..8] + s[8..12] + s[12..32] + s[32..36] + s[36..52]
              + s[52..56] + s[56..60] + s[60..188] + s[188..192];
  }
}
