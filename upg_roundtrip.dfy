/**
 * The packer and the unpacker together: unpacking an image the packer built
 * gives back the six source files, in role order, each under the name of
 * the offset the packer recorded for it.
 */
module UpgRoundTrip {
  import opened Bytes
  import opened Wrappers
  import opened UpgFormat
  import opened UpgCreate
  import opened UpgExtract
  import opened Stdio

  /** The unpacker's record view of a packed image: six counted entries, the packer's table, data at 0x180. */
  lemma RecordOfImage(files: seq<Source>, ck: Checksums)
    requires Fits(files)
    ensures RECORD_SIZE <= |Image(files, ck)|
    ensures var r := ParseRecord(Image(files, ck)[..RECORD_SIZE]);
      && r.filesCount == FILES_COUNT
      && r.headerSize == DATA_OFFSET
      && r.entries == TableOf(files, ck).entries
  {
    var img := Image(files, ck);
    ImageParts(files, ck);
    var s := img[..RECORD_SIZE];
    ToolsAgree(s);
    assert s[..HEADER_SIZE] == img[..HEADER_SIZE];
    assert s[HEADER_SIZE..] == img[HEADER_SIZE..DATA_OFFSET];
    HeaderOfImage(files, ck);
    TableInImage(files, ck);
  }

  /** What the unpacker makes of slot `i` of a packed image. */
  lemma SlotRoundTrip(files: seq<Source>, ck: Checksums, created: bool, i: nat)
    requires Fits(files) && i < FILES_COUNT
    ensures var e := TableOf(files, ck).entries[i];
      ExtractEntry(Image(files, ck), e, created)
        == Output(FileName(e.offset), if created then Copied(Contents(files[i])) else NotCreated)
  {
    var img := Image(files, ck);
    var e := TableOf(files, ck).entries[i];
    TableEntry(files, ck, i);
    if files[i].Some? {
      PayloadInImage(files, ck, i);
    } else {
      assert img[0..0] == [];
    }
  }

  /**
   * Unpacking a packed image succeeds with six outputs, one per role in
   * order; output `i` is named after the offset recorded in slot `i` and,
   * when its file could be created, holds exactly source `i`'s contents
   * (nothing for a missing source). No entry is ever out of range.
   */
  lemma ExtractImage(files: seq<Source>, ck: Checksums, opens: nat -> bool)
    requires Fits(files)
    ensures Extraction(Image(files, ck), opens).Ok?
    ensures var outs := Extraction(Image(files, ck), opens).value;
      && |outs| == FILES_COUNT
      && forall i | 0 <= i < FILES_COUNT ::
           outs[i] == Output(FileName(TableOf(files, ck).entries[i].offset),
                             if opens(i) then Copied(Contents(files[i])) else NotCreated)
  {
    var img := Image(files, ck);
    RecordOfImage(files, ck);
    var es := TableOf(files, ck).entries;
    forall i | 0 <= i < FILES_COUNT
      ensures Extraction(img, opens).value[i]
           == Output(FileName(es[i].offset), if opens(i) then Copied(Contents(files[i])) else NotCreated)
    {
      OutputsAt(img, es, opens, FILES_COUNT, i);
      SlotRoundTrip(files, ck, opens(i), i);
    }
  }

  /**
   * After unpacking a packed image into any directory, the file named after
   * the offset recorded for a non-empty source holds that source's contents:
   * no later output reuses its name.
   */
  lemma DirectoryRoundTrip(files: seq<Source>, ck: Checksums, opens: nat -> bool, dir: map<string, seq<byte>>, i: nat)
    requires Fits(files) && i < FILES_COUNT && files[i].Some? && |files[i].value| > 0 && opens(i)
    ensures Extraction(Image(files, ck), opens).Ok?
    ensures var after := StoreAll(dir, Extraction(Image(files, ck), opens).value);
      var name := FileName(TableOf(files, ck).entries[i].offset);
      name in after && after[name] == files[i].value
  {
    ExtractImage(files, ck, opens);
    var outs := Extraction(Image(files, ck), opens).value;
    var es := TableOf(files, ck).entries;
    TableEntry(files, ck, i);
    forall j | i < j < |outs|
      ensures outs[j].status.NotCreated? || outs[j].name != outs[i].name
    {
      TableEntry(files, ck, j);
      if files[j].Some? {
        PayloadsDisjoint(files, ck, i, j);
      }
      FileNameInjective(es[i].offset, es[j].offset);
    }
    LastCopyWins(dir, outs, i);
  }

  /**
   * Why DirectoryRoundTrip asks for a non-empty source: an empty payload
   * leaves the cursor where it was, so the next present source `j` (with
   * only missing sources between) is recorded at the same offset and is
   * extracted under the same name.
   */
  lemma EmptyPayloadSharesName(files: seq<Source>, ck: Checksums, i: nat, j: nat)
    requires Fits(files) && i < j < FILES_COUNT && files[i] == Some([]) && files[j].Some?
    requires forall k | i < k < j :: files[k].None?
    ensures var es := TableOf(files, ck).entries;
      FileName(es[i].offset) == FileName(es[j].offset)
  {
    TableEntry(files, ck, i);
    TableEntry(files, ck, j);
    CursorAligned(files, i);
    CursorSkipsMissing(files, i + 1, j);
  }

  /**
   * The two programs run one after the other: the image the packer writes,
   * opened again and unpacked into a directory holding `existing`, leaves
   * each non-empty source whose output could be created under its name.
   */
  method PackThenUnpack(files: seq<Source>, ck: Checksums, opens: nat -> bool,
                        existing: map<string, seq<byte>>, i: nat)
    returns (r: Result<seq<Output>, DecodeError>, dir: Directory)
    requires Fits(files) && i < FILES_COUNT && files[i].Some? && |files[i].value| > 0 && opens(i)
    ensures r == Extraction(Image(files, ck), opens) && r.Ok?
    ensures FileName(TableOf(files, ck).entries[i].offset) in dir.files
    ensures dir.files[FileName(TableOf(files, ck).entries[i].offset)] == files[i].value
  {
    var image := Create(files, ck);
    var input := new File.Open(image.bytes);
    dir := new Directory(existing);
    r := Extract(input, dir, opens);
    DirectoryRoundTrip(files, ck, opens, existing, i);
  }
}
