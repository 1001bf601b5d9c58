# UPG container tools, modelled in Dafny

UPG is a firmware container with the magic `NFWB`. Two small C tools handle it:

- `UPG_create` is the packer. It bundles six payload files into one image. The roles are boot ROM, root filesystem, splash screen, bootloader, kernel and board filesystem.
- `UPG_extract` is the unpacker. It copies every payload named in the image's file table back out into a directory.

## The image

An image is laid out in this order:

- **Header** (0xC0 bytes at 0):
  - magic "NFWB";
  - version 2 / 0x21C;
  - `data_size`, the length after the header;
  - an MD5 of everything after the header;
  - `files_count` = 6;
  - `data_offset` = 0x180;
  - a CRC32 taken over the header while its own field was still zero.
- **File table** (0xC0 bytes at 0xC0): six 28-byte entries `(id, size, offset, md5)` and 0x18 pad bytes.
- **Payloads**, in role order from 0x180. Each payload is followed by zero bytes up to the next multiple of 32.

## Modules

| module | file | models |
|---|---|---|
| `Bytes` | `bytes.dfy` | Bytes, u32 fields (little-endian), explicit u32 truncation, rounding up to 32, concatenation of parts, and the MD5/CRC32 primitives as parameters |
| `Wrappers` | `wrappers.dfy` | `Option` and `Result` |
| `Stdio` | `stdio.dfy` | The part of C stdio the tools use. `File` is a binary file with a stream position (`fwrite`, `fseek`, `fread`). `Directory` is the extraction directory. |
| `UpgFormat` | `upg_format.dfy` | `UPG.h`: the `FILE_ID` roles and the layouts of `file_entry_t`, `files_table_t` and `UPG_header_t`. Each comes with its serialisation, its parse, and round trips both ways. |
| `UpgCreate` | `upg_create.dfy` | `UPG_create.c` |
| `UpgExtract` | `upg_extract.dfy` | `UPG_extract.c` |
| `UpgRoundTrip` | `upg_roundtrip.dfy` | The two tools together |

### The packer

The packer is imperative. `Create` is `main` after its argument checks. It works on a `File`, which is a byte sequence with a position, in the same passes as the C code:

1. It writes a 0x180-byte zero placeholder.
2. It calls `GetFileInfos` once per role. Each call appends one source and pads with `fputc(0)` in a `while` loop. It fills one slot of an `array<FileEntry>` table.
3. It seeks to 0xC0 and writes the table there.
4. `WriteHeader` computes the header from the bytes after 0xC0 and writes it at 0.

Each method is proved against specification functions:

- `Cursor`, `Chunk` and `Payloads` give the write cursor and the appended bytes.
- `TableOf` gives the file table.
- `Image` gives the whole image.

Lemmas then state what the image contains. The main ones are `TableEntry`, `PayloadInImage`, `PayloadsDisjoint`, `EntriesAligned` and `HeaderOfImage`.

A source is `Some(contents)` when `stat` succeeds on it and `None` when it fails. The tool stores sizes and offsets into u32 fields, and the model truncates them explicitly (`Bytes.U32`). The lemmas about the image assume `Fits`: the finished image is shorter than 4 GiB, so no stored value is truncated.

### The unpacker

The unpacker is also imperative. `Extract` is `main` after its argument checks and after `mkdir`.

1. It reads the first 0x180 bytes through `ParseRecord`. This mirrors the unpacker's own `UPG_header_t`, which puts header and table in one struct.
2. For each counted entry, `ExtractOne` creates the output file in the `Directory`. It then seeks to the entry's offset, reads its bytes and writes them out.

The pure function `Extraction` specifies the result, and `StoreAll` specifies the resulting directory. Whether the `i`-th output file can be created depends on the file system, so it is the parameter `opens(i)`.

The C tool trusts two values:

- `files_count`, although its struct has only six entry slots;
- `offset + size`, although it may point past the end of the image.

The model makes both explicit outcomes:

- a count above six is the error `TooManyFiles`;
- an entry that ends past the image has status `OutOfRange`, and nothing is read for it.

The unpacker never checks any MD5 or CRC. `ExtractionIgnoresChecksums` states that the result does not depend on the header's `md5`, `crc32` or `data_size`, or on any entry's `id` or `md5`.

### Both tools

`ToolsAgree` shows that the unpacker's record and the packer's header and table put every field at the same bytes.

`ExtractImage` is the round trip: unpacking a packed image succeeds with six outputs in role order. Each output is named after the offset recorded for it. When its output file could be created, it holds exactly its source's contents.

`DirectoryRoundTrip` carries this through to the directory for every non-empty source whose output file could be created. An empty source does not move the cursor, so it shares its name with the next present source when only missing sources lie between them (`EmptyPayloadSharesName`). When that later output is created too, it replaces the empty one.

`PackThenUnpack` runs the two programs one after the other. `Create` writes the image, `File.Open` reopens it, and `Extract` unpacks it into a directory.

## Model

| member | source | states |
|---|---|---|
| UpgFormat.RoleOf | UPG.h:6-13 | The role ids are exactly {1, 3, 5, 7, 9, 12}. Each id names exactly one role, so the ids are distinct. |
| UpgFormat.RoleId | UPG.h:6-13 | Each role's `FILE_ID` value is one of {1, 3, 5, 7, 9, 12}. It is odd for every role except the board filesystem, whose id is 12. |
| UpgFormat.LayoutSizes | UPG.h:22-38 | The file table and the header are each 0xC0 bytes. The data offset is 0x180, which is a multiple of 32. |
| UpgFormat.EncodeEntry | UPG.h:15-20 | A serialised file entry is 28 bytes. |
| UpgFormat.DecodeEntry | UPG.h:15-20 | Reading any 28 bytes as a `file_entry_t` gives a well-formed entry with a 16-byte MD5. |
| UpgFormat.DecodeEncodeEntry | UPG.h:15-20 | Parsing a serialised entry gives back its id, size, offset and 16-byte MD5. |
| UpgFormat.EncodeDecodeEntry | UPG.h:15-20 | Re-serialising any parsed 28 bytes gives the same bytes. The layout has no unused bits. |
| UpgFormat.EncodeEntries | UPG.h:23 | Consecutive entries take 28 bytes each. |
| UpgFormat.DecodeEntries | UPG.h:23 | Parsing 28·n bytes gives n well-formed entries. |
| UpgFormat.DecodeEncodeEntries | UPG.h:23 | A run of entries survives serialisation. |
| UpgFormat.EncodeDecodeEntries | UPG.h:23 | Any 28·n bytes survive parsing. |
| UpgFormat.EntryAt | UPG.h:23 | Entry i of a run sits at bytes [28·i, 28·i + 28). |
| UpgFormat.EncodeTable | UPG.h:22-25 | A serialised file table is 0xC0 bytes. |
| UpgFormat.DecodeTable | UPG.h:22-25 | Parsing 0xC0 bytes gives six entries and 0x18 pad bytes. |
| UpgFormat.DecodeEncodeTable | UPG.h:22-25 | A table survives serialisation. |
| UpgFormat.EncodeDecodeTable | UPG.h:22-25 | Any 0xC0 bytes survive parsing as a table. |
| UpgFormat.EncodeHeader | UPG.h:27-38 | A serialised header is 0xC0 bytes. |
| UpgFormat.DecodeHeader | UPG.h:27-38 | Parsing 0xC0 bytes gives a well-formed header: 4-byte magic, 20-byte pad1, 16-byte MD5, 128-byte pad2. |
| UpgFormat.DecodeEncodeHeader | UPG.h:27-38 | Each header field is read back from the offset it is written at: magic 0, versions 4 and 8, pad1 12, data_size 32, md5 36, files_count 52, data_offset 56, pad2 60, crc32 188. |
| UpgFormat.EncodeDecodeHeader | UPG.h:27-38 | Any 0xC0 bytes survive parsing as a header. |
| Bytes.U32LeRoundTrip | UPG.h:16-18 | A u32 field read back from its four little-endian bytes is the stored value. |
| Bytes.U32AtRoundTrip | UPG.h:16-18 | Any four bytes are the little-endian encoding of the u32 read from them. |
| Bytes.U32Le | UPG.h:16-18 | A stored u32 takes four bytes. The low byte comes first and the high byte last (little-endian). |
| Bytes.U32At | UPG.h:16-18 | The u32 read from four bytes has the first byte as its low byte and the last as its high byte. |
| Bytes.U32 | UPG_create.c:56-57 | A value stored into a u32 field is unchanged when it is below 2^32, and never grows. |
| Bytes.RoundUp32 | UPG_create.c:70-74 | The padded cursor is a multiple of 32 and within [n, n + 32). It equals n when n is already aligned. |
| Bytes.RoundUp32Least | UPG_create.c:71-74 | The padded cursor is the first multiple of 32 at or after n. |
| Stdio.File.Write | UPG_create.c:67 | `fwrite` overwrites or extends at the stream position, then advances it by the length written. |
| Stdio.File.Seek | UPG_create.c:107 | `fseek(SEEK_SET)` moves the position and changes no byte. |
| Stdio.File.SeekEnd | UPG_create.c:30 | `fseek(SEEK_END)` puts the position at the file length. |
| Stdio.File.Open | UPG_extract.c:50 | `fopen(path, "rb")` gives the file's contents with the position at 0. |
| Stdio.File.constructor | UPG_create.c:89 | `fopen(path, "wb+")` gives an empty file with the position at 0. |
| Stdio.File.Read | UPG_create.c:35 | `fread` returns the bytes at the position and advances past them. |
| Stdio.Overwrite | UPG_create.c:107-108 | Writing at a position keeps the bytes before it. The written bytes follow, then any old bytes after them. |
| Stdio.OverwriteAtEnd | UPG_create.c:67 | Writing at the end of a file appends. |
| Stdio.OverwriteAtStart | UPG_create.c:42-43 | Writing at position 0 replaces only the first bytes. |
| Stdio.Directory.Create | UPG_extract.c:72 | `fopen(path, "wb+")` leaves the named file existing and empty. Other files are unchanged. |
| Stdio.Directory.Append | UPG_extract.c:81 | `fwrite` to a created output appends to that file only. |
| UpgCreate.Advance | UPG_create.c:70-74 | After a present file, the cursor advances by its size, then by fewer than 32 more bytes. A missing file leaves the cursor in place. |
| UpgCreate.Chunk | UPG_create.c:67-74 | Appending a file adds exactly the bytes by which the cursor advances. |
| UpgCreate.Cursor | UPG_create.c:70-74 | The cursor is never before 0x180 (line 95). CursorAligned, CursorMonotone and TableEntry pin it down further. |
| UpgCreate.ChunkContents | UPG_create.c:67-74 | The appended bytes are the source's contents followed only by zeros. |
| UpgCreate.CursorAligned | UPG_create.c:70-74 | Every cursor is a multiple of 32: it starts at 0x180 (line 95) and each padding loop realigns it. |
| UpgCreate.CursorMonotone | UPG_create.c:100-105 | The cursor never moves backwards across the six calls. |
| UpgCreate.PayloadsLength | UPG_create.c:100-105 | The payload area after k calls ends exactly at the k-th cursor. |
| UpgCreate.ChunksPrefix | UPG_create.c:100-105 | Later calls keep earlier chunks. Chunk i is source i's, appended at cursor i. |
| UpgCreate.Chunks | UPG_create.c:100-105 | There is one chunk per call so far. ChunksPrefix fixes chunk i as source i's, appended at cursor i. |
| UpgCreate.Payloads | UPG_create.c:67-74 | The bytes appended after 0x180 are the chunks laid end to end. It has no contract of its own; PayloadsLength gives its length and ChunkInImage places each chunk. |
| UpgCreate.CursorSkipsMissing | UPG_create.c:52-54 | A run of sources whose `stat` fails leaves the cursor where it was. |
| UpgCreate.SlotsAfter | UPG_create.c:81 | The table always has six well-formed slots. |
| UpgCreate.Slot | UPG_create.c:52-57 | The recorded entry is well formed. It is the all-zero entry exactly when `stat` failed, so a present file never looks like an empty slot. TableEntry states its fields. |
| UpgCreate.Recorded | UPG_create.c:55-57 | A call writes only slot i. A failed `stat` leaves it unchanged. A present file puts its (non-zero) entry there. |
| UpgCreate.SlotsAfterAt | UPG_create.c:100-105 | After k calls, slots below k hold their files' entries and the rest are still all zero. |
| UpgCreate.TableOf | UPG_create.c:107-108 | The table written at 0xC0 is well formed: six entries and 0x18 pad bytes. |
| UpgCreate.TableOfAt | UPG_create.c:100-105 | Slot i of the written table is the entry `get_file_infos` recorded for role i. |
| UpgCreate.SlotAt | UPG_create.c:100-105 | The entry recorded for slot i is well formed. It is all zero exactly when source i is missing. TableEntry states its fields. |
| UpgCreate.HeaderFor | UPG_create.c:20-44 | The computed header is well formed. |
| UpgCreate.Body | UPG_create.c:94-108 | Everything after the header ends at the final cursor. |
| UpgCreate.Image | UPG_create.c:94-110 | The produced file ends exactly at the final cursor. ImageParts, TableInImage, PayloadInImage and HeaderOfImage state what it holds. |
| UpgCreate.GetFileInfos | UPG_create.c:46-75 | For a present file, it appends the contents and then zero padding, and returns the padded cursor. It records (role id, size, cursor, MD5) in slot i and changes no other slot. A file whose `stat` fails changes nothing. |
| UpgCreate.WriteHeader | UPG_create.c:20-44 | The first 0xC0 bytes become the header computed from the bytes after them: `data_size` is their length, the MD5 covers them, and the CRC32 is taken with its own field zero. Every later byte is unchanged. |
| UpgCreate.AppendStep | UPG_create.c:100-105 | One call takes the file, cursor and table from k appended sources to k + 1. |
| UpgCreate.TableOverPlaceholder | UPG_create.c:107-108 | Writing the table at 0xC0 over the zero placeholder leaves the table followed by the payloads from 0xC0 on. |
| UpgCreate.Create | UPG_create.c:94-110 | The file the packer produces is exactly `Image`: header, table, then the padded payloads in role order. |
| UpgCreate.ImageParts | UPG_create.c:94-110 | The image is the header, then the table at [0xC0, 0x180), then the payload area. The image ends at the final cursor. |
| UpgCreate.TableEntry | UPG_create.c:52-57 | A missing source leaves its slot all zero and the cursor unchanged. A present one has its role id, its exact size, the cursor before it and its MD5. The next cursor is the first multiple of 32 at or after offset + size. |
| UpgCreate.EntriesAligned | UPG_create.c:70-74 | Every recorded offset and the image length are multiples of 32. |
| UpgCreate.SlotAligned | UPG_create.c:57 | The offset recorded in any slot is a multiple of 32, even after u32 truncation. |
| UpgCreate.PayloadInImage | UPG_create.c:55-67 | Image bytes [offset, offset + size) of a present slot are its source's contents. The bytes up to the next multiple of 32 are zero. |
| UpgCreate.ChunkInImage | UPG_create.c:67-74 | The chunk of source i lies in the image at cursor i. |
| UpgCreate.PayloadsDisjoint | UPG_create.c:70-74 | A payload ends at or before every later cursor. It ends at or before any later payload's offset, and a non-empty one starts strictly before it. |
| UpgCreate.TableInImage | UPG_create.c:107-108 | Bytes [0xC0, 0x180) parse back to the recorded table. Its pad is zero, and slot i's id is 0 or role i's id, in the order boot ROM, root FS, splash, bootloader, kernel, board FS. |
| UpgCreate.HeaderOfImage | UPG_create.c:25-40 | The header parsed from the image has magic "NFWB", version 2/0x21C, zero pads, `files_count` 6 and `data_offset` 0x180. Its `data_size` is the image length minus 0xC0 and its MD5 covers [0xC0, EOF). Its CRC32 checks against the header with the CRC field zeroed. |
| UpgExtract.ParseRecord | UPG_extract.c:15-27 | The unpacker's 0x180-byte record holds six well-formed entries. |
| UpgExtract.ToolsAgree | UPG_extract.c:15-27 | The record is exactly as long as header plus table. Each record field reads the same bytes as the packer's field: `version`/`unk1` are the two version words, `sig` is `data_size` plus MD5, `header_size` is `data_offset`, `crc32` is `crc32`, `entries` is the table. |
| UpgExtract.DigitValue | UPG_extract.c:62 | A character accepted as a hex digit is the upper-case digit of its value. |
| UpgExtract.DigitValueOf | UPG_extract.c:62 | Each upper-case hex digit reads back as its value. |
| UpgExtract.Hex | UPG_extract.c:62 | `%X` gives at least one hex digit, with no leading zero. |
| UpgExtract.ParseHexSnoc | UPG_extract.c:62 | Reading hex after one more digit multiplies by 16 and adds it. |
| UpgExtract.ParseHexOfHex | UPG_extract.c:62 | The `%X` text of a number reads back as that number. |
| UpgExtract.FileName | UPG_extract.c:62 | Every output name is `file_` followed by at least one digit. |
| UpgExtract.FileNameInjective | UPG_extract.c:62 | Two entries get the same output name if and only if they have the same offset. |
| UpgExtract.ExtractEntry | UPG_extract.c:61-81 | The output is named `file_<offset>`. It is skipped exactly when its file cannot be created. It is copied exactly when it was created and the entry ends within the image, and then it holds image bytes [offset, offset + size). |
| UpgExtract.Outputs | UPG_extract.c:60-86 | There is one output per counted entry. |
| UpgExtract.OutputsAt | UPG_extract.c:60 | Output i comes from entry i: entries are handled in table order. |
| UpgExtract.Extraction | UPG_extract.c:55-86 | An image shorter than the record is `Truncated`. A count above six is `TooManyFiles`. Otherwise there is one output per counted entry. |
| UpgExtract.ExtractionAt | UPG_extract.c:60-81 | Output i of a successful extraction is entry i's output, for every i below `files_count`. |
| UpgExtract.EntryIgnoresChecksums | UPG_extract.c:64-81 | An entry's output depends only on its offset, its size and the image bytes there. Its id and MD5 are never consulted. |
| UpgExtract.OutputsIgnoreChecksums | UPG_extract.c:60-81 | Entry runs that agree on offsets, sizes and the bytes there give the same outputs. |
| UpgExtract.ExtractionIgnoresChecksums | UPG_extract.c:55-86 | No MD5 or CRC is checked: two equally long images whose records count the same entries, at the same offsets and sizes with the same bytes there, extract identically. This holds whatever their `data_size`, header MD5, CRC32 and entry MD5s hold. |
| UpgExtract.Store | UPG_extract.c:72-81 | A skipped output leaves the directory unchanged. Otherwise its file exists afterwards: it holds the copied bytes, or nothing when the entry is out of range. No other file changes. |
| UpgExtract.StoreAll | UPG_extract.c:60-86 | Files are never removed. A file that no created output names keeps its contents. |
| UpgExtract.LastCopyWins | UPG_extract.c:72-81 | A copied output's file keeps its bytes to the end unless a later created output reuses its name. |
| UpgExtract.ExtractOne | UPG_extract.c:61-85 | One loop turn returns entry i's output, stores it in the directory and leaves the image unchanged. |
| UpgExtract.Extract | UPG_extract.c:50-86 | It returns `Extraction` of the image. On success, the directory is the old one with every output stored in table order. On error, the directory is unchanged. The image is never changed. |
| UpgRoundTrip.RecordOfImage | UPG_extract.c:55-56 | The record the unpacker reads from a packed image counts six files, has `header_size` 0x180, and holds the packer's table. |
| UpgRoundTrip.SlotRoundTrip | UPG_extract.c:77-81 | The unpacker's output for slot i of a packed image holds source i's exact contents when created: nothing for a missing source, never out of range. |
| UpgRoundTrip.ExtractImage | UPG_extract.c:60-86 | Unpacking a packed image succeeds with six outputs in role order. Each is named after its recorded offset and, when created, holds its source's contents. |
| UpgRoundTrip.DirectoryRoundTrip | UPG_extract.c:60-86 | After unpacking into any directory, the file named after a non-empty source's offset holds that source's contents, provided its output file could be created. |
| UpgRoundTrip.EmptyPayloadSharesName | UPG_extract.c:62 | An empty source shares its output name with the next present source j when every source between them is missing. |
| UpgRoundTrip.PackThenUnpack | UPG_create.c:94-110 | Packing the sources and then unpacking the reopened image into a directory succeeds. The file named after a non-empty source's offset holds that source's contents when its output file could be created. |

## Left out

- MD5 and CRC32 are implemented in files that are not part of this model (`md5.h`, `crc32.c`). Both are arbitrary functions passed as the parameter `Checksums`. `crc32` stands for `crc32(0, buf, len)`.
- Argument checks and usage messages (UPG_create.c:84-87, UPG_extract.c:37-40) are not modelled. Nor are `fopen` failures of the image files (UPG_create.c:89-92, UPG_extract.c:50-53) or `mkdir` with its `EEXIST` tolerance (UPG_extract.c:45-48). The methods start where the C code has an open file and a directory.
- `printf`/`perror` progress text is not modelled. This includes the printed count and each entry's printed MD5 (UPG_extract.c:58, 64-70).
- `malloc`/`free` and the leaks are not modelled: the `buf` in `write_header`, and `path` on the skip path. `fclose` is not modelled either.
- The packer's six calls (UPG_create.c:100-105) are written as one loop over the role order. The model keeps the calls' order, arguments and effects.
- `stat` and the read of a source file are one value per source. A file that changes between `stat` and `fread`, a short read, and a source that `stat` accepts but `fopen` refuses are not modelled.
- Byte order follows the host in both tools. The model fixes it to little-endian.
- The `snprintf` of the magic writes a NUL into `version_major`, which the next line overwrites. The model sets the magic's four bytes directly.
- UpgCreate.TableEntry, PayloadInImage, PayloadsDisjoint, HeaderOfImage: these assume `Fits` (the image is shorter than 2^32 bytes). The tool truncates sizes and offsets into u32 fields, and the model performs that truncation (`Bytes.U32`). The lemmas do not describe truncated images.
- UpgExtract.Extraction: an image shorter than 0x180 bytes (`Truncated`) and a `files_count` above six (`TooManyFiles`) are errors. In the C tool they are reads of uninitialised memory or past the struct.
- UpgExtract.ExtractEntry: for an entry that ends past the image, the tool writes `size` bytes of which only part were read. The model leaves that output file empty (`OutOfRange`).
- Whether an output file can be created is the parameter `opens(i)`. Output names are relative to the extraction directory. The 256-byte truncation of the full path (UPG_extract.c:61-62) is not modelled.
- The image file is assumed distinct from every source file and every output file. The model does not cover `UPG_create` given its own output path as a source: it would `stat` and read that file while writing it (UPG_create.c:52). Nor does it cover `UPG_extract` writing an output file over its own input (UPG_extract.c:72).
