/** The packed records of a zip file. Every record has the same three members: `Encode…` lays the
    fields out back to back, `Decode…` reads them at fixed offsets, and the round-trip lemma says
    that decoding wherever an encoding lies in a file gives the record back. */
module ZipFormat {
  import opened Bytes

  const LFH_SIGNATURE: u32 := 0x04034b50
  const LFH_SIZE: nat := 30
  const CDR_SIGNATURE: u32 := 0x02014b50
  const CDR_SIZE: nat := 46
  const EOCD_SIGNATURE: u32 := 0x06054b50
  const EOCD_SIZE: nat := 22
  const ZIP64_LOCATOR_SIGNATURE: u32 := 0x07064b50
  const ZIP64_LOCATOR_SIZE: nat := 20
  const ZIP64_EOCD_SIGNATURE: u32 := 0x06064b50
  const ZIP64_EOCD_SIZE: nat := 56

  const DATA_DESCRIPTOR_SIGNATURE: u32 := 0x08074b50
  const DATA_DESCRIPTOR_FLAG: u16 := 0x0008
  const MAX_COMMENT_LEN: nat := 65535

  const COMPRESS_STORED: u16 := 0
  const COMPRESS_DEFLATED: u16 := 8

  /** The local header that precedes each entry (section 4.3.7 of PKWARE APPNOTE.TXT). */
  datatype LocalFileHeader = LocalFileHeader(
    signature: u32,
    versionNeeded: u16,
    gpbFlags: u16,
    compressionMethod: u16,
    lastModTime: u16,
    lastModDate: u16,
    crc32: u32,
    compressedSize: u32,
    uncompressedSize: u32,
    fileNameLength: u16,
    extraFieldLength: u16)

  function LocalFileHeaderPieces(r: LocalFileHeader): (ps: seq<seq<byte>>) {
    [
      Put32(r.signature), Put16(r.versionNeeded), Put16(r.gpbFlags), Put16(r.compressionMethod),
      Put16(r.lastModTime), Put16(r.lastModDate), Put32(r.crc32), Put32(r.compressedSize),
      Put32(r.uncompressedSize), Put16(r.fileNameLength), Put16(r.extraFieldLength)]
  }

  function EncodeLocalFileHeader(r: LocalFileHeader): (s: seq<byte>)
    ensures |s| == LFH_SIZE
  {
    LocalFileHeaderFields(r);
    Flatten(LocalFileHeaderPieces(r))
  }

  function DecodeLocalFileHeader(s: seq<byte>, o: nat): (r: LocalFileHeader)
    requires o + LFH_SIZE <= |s|
  {
    LocalFileHeader(
      Get32(s, o), Get16(s, o + 4), Get16(s, o + 6), Get16(s, o + 8),
      Get16(s, o + 10), Get16(s, o + 12), Get32(s, o + 14), Get32(s, o + 18),
      Get32(s, o + 22), Get16(s, o + 26), Get16(s, o + 28))
  }

  lemma LocalFileHeaderFields(r: LocalFileHeader)
    ensures var s := Flatten(LocalFileHeaderPieces(r));
            && |s| == LFH_SIZE
            && s[0..4] == Put32(r.signature)
            && s[4..6] == Put16(r.versionNeeded)
            && s[6..8] == Put16(r.gpbFlags)
            && s[8..10] == Put16(r.compressionMethod)
            && s[10..12] == Put16(r.lastModTime)
            && s[12..14] == Put16(r.lastModDate)
            && s[14..18] == Put32(r.crc32)
            && s[18..22] == Put32(r.compressedSize)
            && s[22..26] == Put32(r.uncompressedSize)
            && s[26..28] == Put16(r.fileNameLength)
            && s[28..30] == Put16(r.extraFieldLength)
  {
    var ps := LocalFileHeaderPieces(r);
    assert ps[..|ps|] == ps;
    FlattenSlice(ps, 0);
    FlattenSlice(ps, 1);
    FlattenSlice(ps, 2);
    FlattenSlice(ps, 3);
    FlattenSlice(ps, 4);
    FlattenSlice(ps, 5);
    FlattenSlice(ps, 6);
    FlattenSlice(ps, 7);
    FlattenSlice(ps, 8);
    FlattenSlice(ps, 9);
    FlattenSlice(ps, 10);
  }

  lemma DecodeLocalFileHeaderAt(s: seq<byte>, o: nat, r: LocalFileHeader)
    requires o + LFH_SIZE <= |s| && s[o..o + LFH_SIZE] == EncodeLocalFileHeader(r)
    ensures DecodeLocalFileHeader(s, o) == r
  {
    var enc := EncodeLocalFileHeader(r);
    LocalFileHeaderFields(r);
    Field32(s, o, enc, 0, r.signature);
    Field16(s, o, enc, 4, r.versionNeeded);
    Field16(s, o, enc, 6, r.gpbFlags);
    Field16(s, o, enc, 8, r.compressionMethod);
    Field16(s, o, enc, 10, r.lastModTime);
    Field16(s, o, enc, 12, r.lastModDate);
    Field32(s, o, enc, 14, r.crc32);
    Field32(s, o, enc, 18, r.compressedSize);
    Field32(s, o, enc, 22, r.uncompressedSize);
    Field16(s, o, enc, 26, r.fileNameLength);
    Field16(s, o, enc, 28, r.extraFieldLength);
  }

  /** One record of the central directory (section 4.3.12). */
  datatype CentralDirectoryRecord = CentralDirectoryRecord(
    signature: u32,
    versionMadeBy: u16,
    versionNeeded: u16,
    gpbFlags: u16,
    compressionMethod: u16,
    lastModTime: u16,
    lastModDate: u16,
    crc32: u32,
    compressedSize: u32,
    uncompressedSize: u32,
    fileNameLength: u16,
    extraFieldLength: u16,
    commentLength: u16,
    fileStartDisk: u16,
    internalFileAttributes: u16,
    externalFileAttributes: u32,
    localFileHeaderOffset: u32)

  function CentralDirectoryRecordPieces(r: CentralDirectoryRecord): (ps: seq<seq<byte>>) {
    [
      Put32(r.signature), Put16(r.versionMadeBy), Put16(r.versionNeeded), Put16(r.gpbFlags),
      Put16(r.compressionMethod), Put16(r.lastModTime), Put16(r.lastModDate), Put32(r.crc32),
      Put32(r.compressedSize), Put32(r.uncompressedSize), Put16(r.fileNameLength), Put16(r.extraFieldLength),
      Put16(r.commentLength), Put16(r.fileStartDisk), Put16(r.internalFileAttributes), Put32(r.externalFileAttributes),
      Put32(r.localFileHeaderOffset)]
  }

  function EncodeCentralDirectoryRecord(r: CentralDirectoryRecord): (s: seq<byte>)
    ensures |s| == CDR_SIZE
  {
    CentralDirectoryRecordFields(r);
    Flatten(CentralDirectoryRecordPieces(r))
  }

  function DecodeCentralDirectoryRecord(s: seq<byte>, o: nat): (r: CentralDirectoryRecord)
    requires o + CDR_SIZE <= |s|
  {
    CentralDirectoryRecord(
      Get32(s, o), Get16(s, o + 4), Get16(s, o + 6), Get16(s, o + 8),
      Get16(s, o + 10), Get16(s, o + 12), Get16(s, o + 14), Get32(s, o + 16),
      Get32(s, o + 20), Get32(s, o + 24), Get16(s, o + 28), Get16(s, o + 30),
      Get16(s, o + 32), Get16(s, o + 34), Get16(s, o + 36), Get32(s, o + 38),
      Get32(s, o + 42))
  }

  lemma CentralDirectoryRecordFields(r: CentralDirectoryRecord)
    ensures var s := Flatten(CentralDirectoryRecordPieces(r));
            && |s| == CDR_SIZE
            && s[0..4] == Put32(r.signature)
            && s[4..6] == Put16(r.versionMadeBy)
            && s[6..8] == Put16(r.versionNeeded)
            && s[8..10] == Put16(r.gpbFlags)
            && s[10..12] == Put16(r.compressionMethod)
            && s[12..14] == Put16(r.lastModTime)
            && s[14..16] == Put16(r.lastModDate)
            && s[16..20] == Put32(r.crc32)
            && s[20..24] == Put32(r.compressedSize)
            && s[24..28] == Put32(r.uncompressedSize)
            && s[28..30] == Put16(r.fileNameLength)
            && s[30..32] == Put16(r.extraFieldLength)
            && s[32..34] == Put16(r.commentLength)
            && s[34..36] == Put16(r.fileStartDisk)
            && s[36..38] == Put16(r.internalFileAttributes)
            && s[38..42] == Put32(r.externalFileAttributes)
            && s[42..46] == Put32(r.localFileHeaderOffset)
  {
    var ps := CentralDirectoryRecordPieces(r);
    assert ps[..|ps|] == ps;
    FlattenSlice(ps, 0);
    FlattenSlice(ps, 1);
    FlattenSlice(ps, 2);
    FlattenSlice(ps, 3);
    FlattenSlice(ps, 4);
    FlattenSlice(ps, 5);
    FlattenSlice(ps, 6);
    FlattenSlice(ps, 7);
    FlattenSlice(ps, 8);
    FlattenSlice(ps, 9);
    FlattenSlice(ps, 10);
    FlattenSlice(ps, 11);
    FlattenSlice(ps, 12);
    FlattenSlice(ps, 13);
    FlattenSlice(ps, 14);
    FlattenSlice(ps, 15);
    FlattenSlice(ps, 16);
  }

  lemma DecodeCentralDirectoryRecordAt(s: seq<byte>, o: nat, r: CentralDirectoryRecord)
    requires o + CDR_SIZE <= |s| && s[o..o + CDR_SIZE] == EncodeCentralDirectoryRecord(r)
    ensures DecodeCentralDirectoryRecord(s, o) == r
  {
    var enc := EncodeCentralDirectoryRecord(r);
    CentralDirectoryRecordFields(r);
    Field32(s, o, enc, 0, r.signature);
    Field16(s, o, enc, 4, r.versionMadeBy);
    Field16(s, o, enc, 6, r.versionNeeded);
    Field16(s, o, enc, 8, r.gpbFlags);
    Field16(s, o, enc, 10, r.compressionMethod);
    Field16(s, o, enc, 12, r.lastModTime);
    Field16(s, o, enc, 14, r.lastModDate);
    Field32(s, o, enc, 16, r.crc32);
    Field32(s, o, enc, 20, r.compressedSize);
    Field32(s, o, enc, 24, r.uncompressedSize);
    Field16(s, o, enc, 28, r.fileNameLength);
    Field16(s, o, enc, 30, r.extraFieldLength);
    Field16(s, o, enc, 32, r.commentLength);
    Field16(s, o, enc, 34, r.fileStartDisk);
    Field16(s, o, enc, 36, r.internalFileAttributes);
    Field32(s, o, enc, 38, r.externalFileAttributes);
    Field32(s, o, enc, 42, r.localFileHeaderOffset);
  }

  /** The end of central directory record (section 4.3.16). */
  datatype EocdRecord = EocdRecord(
    signature: u32,
    diskNum: u16,
    cdStartDisk: u16,
    numRecordsOnDisk: u16,
    numRecords: u16,
    cdSize: u32,
    cdStartOffset: u32,
    commentLength: u16)

  function EocdRecordPieces(r: EocdRecord): (ps: seq<seq<byte>>) {
    [
      Put32(r.signature), Put16(r.diskNum), Put16(r.cdStartDisk), Put16(r.numRecordsOnDisk),
      Put16(r.numRecords), Put32(r.cdSize), Put32(r.cdStartOffset), Put16(r.commentLength)]
  }

  function EncodeEocdRecord(r: EocdRecord): (s: seq<byte>)
    ensures |s| == EOCD_SIZE
  {
    EocdRecordFields(r);
    Flatten(EocdRecordPieces(r))
  }

  function DecodeEocdRecord(s: seq<byte>, o: nat): (r: EocdRecord)
    requires o + EOCD_SIZE <= |s|
  {
    EocdRecord(
      Get32(s, o), Get16(s, o + 4), Get16(s, o + 6), Get16(s, o + 8),
      Get16(s, o + 10), Get32(s, o + 12), Get32(s, o + 16), Get16(s, o + 20))
  }

  lemma EocdRecordFields(r: EocdRecord)
    ensures var s := Flatten(EocdRecordPieces(r));
            && |s| == EOCD_SIZE
            && s[0..4] == Put32(r.signature)
            && s[4..6] == Put16(r.diskNum)
            && s[6..8] == Put16(r.cdStartDisk)
            && s[8..10] == Put16(r.numRecordsOnDisk)
            && s[10..12] == Put16(r.numRecords)
            && s[12..16] == Put32(r.cdSize)
            && s[16..20] == Put32(r.cdStartOffset)
            && s[20..22] == Put16(r.commentLength)
  {
    var ps := EocdRecordPieces(r);
    assert ps[..|ps|] == ps;
    FlattenSlice(ps, 0);
    FlattenSlice(ps, 1);
    FlattenSlice(ps, 2);
    FlattenSlice(ps, 3);
    FlattenSlice(ps, 4);
    FlattenSlice(ps, 5);
    FlattenSlice(ps, 6);
    FlattenSlice(ps, 7);
  }

  lemma DecodeEocdRecordAt(s: seq<byte>, o: nat, r: EocdRecord)
    requires o + EOCD_SIZE <= |s| && s[o..o + EOCD_SIZE] == EncodeEocdRecord(r)
    ensures DecodeEocdRecord(s, o) == r
  {
    var enc := EncodeEocdRecord(r);
    EocdRecordFields(r);
    Field32(s, o, enc, 0, r.signature);
    Field16(s, o, enc, 4, r.diskNum);
    Field16(s, o, enc, 6, r.cdStartDisk);
    Field16(s, o, enc, 8, r.numRecordsOnDisk);
    Field16(s, o, enc, 10, r.numRecords);
    Field32(s, o, enc, 12, r.cdSize);
    Field32(s, o, enc, 16, r.cdStartOffset);
    Field16(s, o, enc, 20, r.commentLength);
  }

  /** The zip64 locator expected right before the end record (section 4.3.15). */
  datatype Zip64EocdLocator = Zip64EocdLocator(
    signature: u32,
    eocdStartDisk: u32,
    zip64EocdOffset: u64,
    numOfDisks: u32)

  function Zip64EocdLocatorPieces(r: Zip64EocdLocator): (ps: seq<seq<byte>>) {
    [
      Put32(r.signature), Put32(r.eocdStartDisk), Put64(r.zip64EocdOffset), Put32(r.numOfDisks)]
  }

  function EncodeZip64EocdLocator(r: Zip64EocdLocator): (s: seq<byte>)
    ensures |s| == ZIP64_LOCATOR_SIZE
  {
    Zip64EocdLocatorFields(r);
    Flatten(Zip64EocdLocatorPieces(r))
  }

  function DecodeZip64EocdLocator(s: seq<byte>, o: nat): (r: Zip64EocdLocator)
    requires o + ZIP64_LOCATOR_SIZE <= |s|
  {
    Zip64EocdLocator(
      Get32(s, o), Get32(s, o + 4), Get64(s, o + 8), Get32(s, o + 16))
  }

  lemma Zip64EocdLocatorFields(r: Zip64EocdLocator)
    ensures var s := Flatten(Zip64EocdLocatorPieces(r));
            && |s| == ZIP64_LOCATOR_SIZE
            && s[0..4] == Put32(r.signature)
            && s[4..8] == Put32(r.eocdStartDisk)
            && s[8..16] == Put64(r.zip64EocdOffset)
            && s[16..20] == Put32(r.numOfDisks)
  {
    var ps := Zip64EocdLocatorPieces(r);
    assert ps[..|ps|] == ps;
    FlattenSlice(ps, 0);
    FlattenSlice(ps, 1);
    FlattenSlice(ps, 2);
    FlattenSlice(ps, 3);
  }

  lemma DecodeZip64EocdLocatorAt(s: seq<byte>, o: nat, r: Zip64EocdLocator)
    requires o + ZIP64_LOCATOR_SIZE <= |s| && s[o..o + ZIP64_LOCATOR_SIZE] == EncodeZip64EocdLocator(r)
    ensures DecodeZip64EocdLocator(s, o) == r
  {
    var enc := EncodeZip64EocdLocator(r);
    Zip64EocdLocatorFields(r);
    Field32(s, o, enc, 0, r.signature);
    Field32(s, o, enc, 4, r.eocdStartDisk);
    Field64(s, o, enc, 8, r.zip64EocdOffset);
    Field32(s, o, enc, 16, r.numOfDisks);
  }

  /** The zip64 end of central directory record (section 4.3.14). */
  datatype Zip64EocdRecord = Zip64EocdRecord(
    signature: u32,
    recordSize: u64,
    versionMadeBy: u16,
    versionNeeded: u16,
    diskNum: u32,
    cdStartDisk: u32,
    numRecordsOnDisk: u64,
    numRecords: u64,
    cdSize: u64,
    cdStartOffset: u64)

  function Zip64EocdRecordPieces(r: Zip64EocdRecord): (ps: seq<seq<byte>>) {
    [
      Put32(r.signature), Put64(r.recordSize), Put16(r.versionMadeBy), Put16(r.versionNeeded),
      Put32(r.diskNum), Put32(r.cdStartDisk), Put64(r.numRecordsOnDisk), Put64(r.numRecords),
      Put64(r.cdSize), Put64(r.cdStartOffset)]
  }

  function EncodeZip64EocdRecord(r: Zip64EocdRecord): (s: seq<byte>)
    ensures |s| == ZIP64_EOCD_SIZE
  {
    Zip64EocdRecordFields(r);
    Flatten(Zip64EocdRecordPieces(r))
  }

  function DecodeZip64EocdRecord(s: seq<byte>, o: nat): (r: Zip64EocdRecord)
    requires o + ZIP64_EOCD_SIZE <= |s|
  {
    Zip64EocdRecord(
      Get32(s, o), Get64(s, o + 4), Get16(s, o + 12), Get16(s, o + 14),
      Get32(s, o + 16), Get32(s, o + 20), Get64(s, o + 24), Get64(s, o + 32),
      Get64(s, o + 40), Get64(s, o + 48))
  }

  lemma Zip64EocdRecordFields(r: Zip64EocdRecord)
    ensures var s := Flatten(Zip64EocdRecordPieces(r));
            && |s| == ZIP64_EOCD_SIZE
            && s[0..4] == Put32(r.signature)
            && s[4..12] == Put64(r.recordSize)
            && s[12..14] == Put16(r.versionMadeBy)
            && s[14..16] == Put16(r.versionNeeded)
            && s[16..20] == Put32(r.diskNum)
            && s[20..24] == Put32(r.cdStartDisk)
            && s[24..32] == Put64(r.numRecordsOnDisk)
            && s[32..40] == Put64(r.numRecords)
            && s[40..48] == Put64(r.cdSize)
            && s[48..56] == Put64(r.cdStartOffset)
  {
    var ps := Zip64EocdRecordPieces(r);
    assert ps[..|ps|] == ps;
    FlattenSlice(ps, 0);
    FlattenSlice(ps, 1);
    FlattenSlice(ps, 2);
    FlattenSlice(ps, 3);
    FlattenSlice(ps, 4);
    FlattenSlice(ps, 5);
    FlattenSlice(ps, 6);
    FlattenSlice(ps, 7);
    FlattenSlice(ps, 8);
    FlattenSlice(ps, 9);
  }

  lemma DecodeZip64EocdRecordAt(s: seq<byte>, o: nat, r: Zip64EocdRecord)
    requires o + ZIP64_EOCD_SIZE <= |s| && s[o..o + ZIP64_EOCD_SIZE] == EncodeZip64EocdRecord(r)
    ensures DecodeZip64EocdRecord(s, o) == r
  {
    var enc := EncodeZip64EocdRecord(r);
    Zip64EocdRecordFields(r);
    Field32(s, o, enc, 0, r.signature);
    Field64(s, o, enc, 4, r.recordSize);
    Field16(s, o, enc, 12, r.versionMadeBy);
    Field16(s, o, enc, 14, r.versionNeeded);
    Field32(s, o, enc, 16, r.diskNum);
    Field32(s, o, enc, 20, r.cdStartDisk);
    Field64(s, o, enc, 24, r.numRecordsOnDisk);
    Field64(s, o, enc, 32, r.numRecords);
    Field64(s, o, enc, 40, r.cdSize);
    Field64(s, o, enc, 48, r.cdStartOffset);
  }
}
