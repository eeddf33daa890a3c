/** Finding the central directory: the backward scan for the end record and the zip64 detour. */
module EndRecord {
  import opened Bytes
  import opened ZipErrors
  import opened ZipFormat

  const MAX_EOCD_SEARCH: nat := MAX_COMMENT_LEN + EOCD_SIZE
  const MAX_FILE_LENGTH: nat := 256 * 0x4000_0000

  datatype CentralDirectoryInfo = CentralDirectoryInfo(numRecords: nat, size: nat, start: nat)

  predicate SignatureAt(s: seq<byte>, i: nat)
    requires i + 4 <= |s|
  {
    Get32(s, i) == EOCD_SIGNATURE
  }

  /** The last position up to `i` where an end record may start, or -1. */
  function LastSignature(s: seq<byte>, i: int): (r: int)
    requires i + EOCD_SIZE <= |s|
    ensures -1 <= r && (r <= i || r == -1)
    ensures r >= 0 ==> SignatureAt(s, r)
    ensures forall j: nat :: r < j <= i ==> !SignatureAt(s, j)
    decreases i + 1
  {
    if i < 0 then -1 else if SignatureAt(s, i) then i else LastSignature(s, i - 1)
  }

  lemma SignatureStartsWithP(s: seq<byte>, i: nat)
    requires i + 4 <= |s| && SignatureAt(s, i)
    ensures s[i] == 0x50
  {
    assert EOCD_SIGNATURE == 0x06054b50;
  }

  /** The scan loop, which looks at the whole word only behind a `P`. */
  method ScanBackward(data: seq<byte>) returns (i: int)
    requires |data| >= EOCD_SIZE
    ensures i == LastSignature(data, |data| - EOCD_SIZE)
  {
    i := |data| - EOCD_SIZE;
    while i >= 0
      invariant -1 <= i <= |data| - EOCD_SIZE
      invariant LastSignature(data, |data| - EOCD_SIZE) == LastSignature(data, i)
      decreases i + 1
    {
      if data[i] == 0x50 {
        if Get32(data, i) == EOCD_SIGNATURE {
          return;
        }
      }
      if SignatureAt(data, i) { SignatureStartsWithP(data, i); }
      i := i - 1;
    }
  }

  /** A read that stays inside the file, or nothing. */
  predicate Readable(file: seq<byte>, offset: int, length: nat) {
    0 <= offset && offset + length <= |file|
  }

  function FindZip64Info(file: seq<byte>, eocdOffset: nat): (r: Result<CentralDirectoryInfo>) {
    if eocdOffset <= ZIP64_LOCATOR_SIZE then Err(InvalidFile)
    else
      var locatorOffset := eocdOffset - ZIP64_LOCATOR_SIZE;
      if !Readable(file, locatorOffset, ZIP64_LOCATOR_SIZE) then Err(IoError)
      else
        var locator := DecodeZip64EocdLocator(file, locatorOffset);
        if locator.signature != ZIP64_LOCATOR_SIGNATURE then Err(InvalidFile)
        else if locatorOffset <= ZIP64_EOCD_SIZE || locator.zip64EocdOffset > locatorOffset - ZIP64_EOCD_SIZE then Err(InvalidOffset)
        else if !Readable(file, locator.zip64EocdOffset, ZIP64_EOCD_SIZE) then Err(IoError)
        else
          var record := DecodeZip64EocdRecord(file, locator.zip64EocdOffset);
          if record.signature != ZIP64_EOCD_SIGNATURE then Err(InvalidFile)
          else if locator.zip64EocdOffset <= record.cdSize || record.cdStartOffset > locator.zip64EocdOffset - record.cdSize then Err(InvalidOffset)
          else Ok(CentralDirectoryInfo(record.numRecords, record.cdSize, record.cdStartOffset))
  }

  /** What the end record at `eocdOffset` says about the directory. */
  function InfoAt(file: seq<byte>, eocdOffset: nat): (r: Result<CentralDirectoryInfo>)
    requires eocdOffset + EOCD_SIZE <= |file|
  {
    var eocd := DecodeEocdRecord(file, eocdOffset);
    if eocdOffset + EOCD_SIZE + eocd.commentLength != |file| then Err(InvalidFile)
    else if eocd.cdSize == U32_MAX || eocd.cdStartOffset == U32_MAX then FindZip64Info(file, eocdOffset)
    else if eocd.cdStartOffset + eocd.cdSize > eocdOffset then Err(InvalidOffset)
    else Ok(CentralDirectoryInfo(eocd.numRecords, eocd.cdSize, eocd.cdStartOffset))
  }

  function SearchStart(file: seq<byte>): (n: nat) {
    if |file| <= MAX_EOCD_SEARCH then 0 else |file| - MAX_EOCD_SEARCH
  }

  /** Where the scan of the file's tail finds the end record, or -1. */
  function EndRecordOffset(file: seq<byte>): (r: int)
    requires |file| >= EOCD_SIZE
    ensures r >= 0 ==> r + EOCD_SIZE <= |file|
  {
    var start := SearchStart(file);
    var i := LastSignature(file[start..], |file| - start - EOCD_SIZE);
    if i < 0 then -1 else start + i
  }

  method FindEndRecord(file: seq<byte>) returns (at: int)
    requires |file| >= EOCD_SIZE
    ensures at == EndRecordOffset(file)
  {
    var readAmount := if |file| <= MAX_EOCD_SEARCH then |file| else MAX_EOCD_SEARCH;
    var searchStart := |file| - readAmount;
    assert searchStart == SearchStart(file);
    var tail := file[searchStart..];
    assert |tail| - EOCD_SIZE == |file| - searchStart - EOCD_SIZE;
    var i := ScanBackward(tail);
    at := if i < 0 then -1 else searchStart + i;
  }

  function FindCentralDirectory(file: seq<byte>): (r: Result<CentralDirectoryInfo>) {
    if |file| > MAX_FILE_LENGTH || |file| < EOCD_SIZE then Err(InvalidFile)
    else
      var at := EndRecordOffset(file);
      if at < 0 then Err(InvalidFile) else NonEmpty(InfoAt(file, at))
  }

  function NonEmpty(info: Result<CentralDirectoryInfo>): (r: Result<CentralDirectoryInfo>) {
    if info.Ok? && info.value.numRecords == 0 then Err(EmptyArchive) else info
  }

  method MapCentralDirectory(file: seq<byte>) returns (r: Result<CentralDirectoryInfo>)
    ensures r == FindCentralDirectory(file)
  {
    if |file| > MAX_FILE_LENGTH {
      return Err(InvalidFile);
    }
    if |file| < EOCD_SIZE {
      return Err(InvalidFile);
    }
    var at := FindEndRecord(file);
    if at < 0 {
      return Err(InvalidFile);
    }
    var info := InfoAt(file, at);
    if info.Ok? && info.value.numRecords == 0 {
      return Err(EmptyArchive);
    }
    return info;
  }

  /** By either route, the directory lies before the end record. */
  lemma DirectoryBeforeEnd(file: seq<byte>)
    requires FindCentralDirectory(file).Ok?
    ensures |file| >= EOCD_SIZE
    ensures var info := FindCentralDirectory(file).value;
            info.start + info.size <= EndRecordOffset(file) <= |file| - EOCD_SIZE
  {}

  /** The scan of the tail answers as a scan of the whole file down to the last 65535 + 22 bytes. */
  lemma TailSignature(file: seq<byte>, i: nat)
    requires SearchStart(file) <= i && i + EOCD_SIZE <= |file|
    ensures SignatureAt(file, i) == SignatureAt(file[SearchStart(file)..], i - SearchStart(file))
  {}

  /** No end record seems to start after `at`. */
  ghost predicate NoLaterSignature(file: seq<byte>, at: nat) {
    forall j :: at < j && j + EOCD_SIZE <= |file| ==> !SignatureAt(file, j)
  }

  /** An end record with a comment of any allowed length is found if nothing later looks like one, and the
      directory is where it says, or where its zip64 record says if a field is saturated. */
  lemma EndRecordIsFound(body: seq<byte>, end: EocdRecord, comment: seq<byte>)
    requires end.signature == EOCD_SIGNATURE && end.commentLength == |comment|
    requires NoLaterSignature(body + EncodeEocdRecord(end) + comment, |body|)
    ensures var file := body + EncodeEocdRecord(end) + comment;
            && EndRecordOffset(file) == |body|
            && DecodeEocdRecord(file, |body|) == end
            && (|file| <= MAX_FILE_LENGTH ==>
                  FindCentralDirectory(file) ==
                    if end.cdSize == U32_MAX || end.cdStartOffset == U32_MAX then NonEmpty(FindZip64Info(file, |body|))
                    else if end.cdStartOffset + end.cdSize > |body| then Err(InvalidOffset)
                    else if end.numRecords == 0 then Err(EmptyArchive)
                    else Ok(CentralDirectoryInfo(end.numRecords, end.cdSize, end.cdStartOffset)))
  {
    var file := body + EncodeEocdRecord(end) + comment;
    assert file[|body|..|body| + EOCD_SIZE] == EncodeEocdRecord(end);
    DecodeEocdRecordAt(file, |body|, end);
    OnlyLastSignature(file, |body|);
  }

  lemma OnlyLastSignature(file: seq<byte>, at: nat)
    requires at + EOCD_SIZE <= |file| && SearchStart(file) <= at && SignatureAt(file, at) && NoLaterSignature(file, at)
    ensures EndRecordOffset(file) == at
  {
    var start := SearchStart(file);
    var tail := file[start..];
    var i := LastSignature(tail, |tail| - EOCD_SIZE);
    TailSignature(file, at);
    assert !(i < at - start);
    if i > at - start { TailSignature(file, start + i); }
  }

  /** A well-placed zip64 record is followed through its locator. */
  lemma Zip64RecordIsFound(file: seq<byte>, eocdOffset: nat, record: Zip64EocdRecord, locator: Zip64EocdLocator)
    requires var l, z := eocdOffset - ZIP64_LOCATOR_SIZE, locator.zip64EocdOffset;
             && record.signature == ZIP64_EOCD_SIGNATURE && locator.signature == ZIP64_LOCATOR_SIGNATURE
             && z + ZIP64_EOCD_SIZE <= l && eocdOffset <= |file|
             && file[l..eocdOffset] == EncodeZip64EocdLocator(locator)
             && file[z..z + ZIP64_EOCD_SIZE] == EncodeZip64EocdRecord(record)
             && record.cdSize < z && record.cdStartOffset + record.cdSize <= z
    ensures FindZip64Info(file, eocdOffset) == Ok(CentralDirectoryInfo(record.numRecords, record.cdSize, record.cdStartOffset))
  {
    DecodeZip64EocdLocatorAt(file, eocdOffset - ZIP64_LOCATOR_SIZE, locator);
    DecodeZip64EocdRecordAt(file, locator.zip64EocdOffset, record);
    Zip64Decoded(file, eocdOffset, eocdOffset - ZIP64_LOCATOR_SIZE, locator.zip64EocdOffset, record, locator);
  }

  lemma Zip64Decoded(file: seq<byte>, eocdOffset: nat, l: nat, z: nat, record: Zip64EocdRecord, locator: Zip64EocdLocator)
    requires l + ZIP64_LOCATOR_SIZE == eocdOffset <= |file| && z + ZIP64_EOCD_SIZE <= l && z == locator.zip64EocdOffset
    requires DecodeZip64EocdLocator(file, l) == locator && DecodeZip64EocdRecord(file, z) == record
    requires record.signature == ZIP64_EOCD_SIGNATURE && locator.signature == ZIP64_LOCATOR_SIGNATURE
    requires record.cdSize < z && record.cdStartOffset + record.cdSize <= z
    ensures FindZip64Info(file, eocdOffset) == Ok(CentralDirectoryInfo(record.numRecords, record.cdSize, record.cdStartOffset))
  {}

  // ----- refusals -----

  /** The last end record of a file: a signature in the last 65557 bytes with none after it. */
  ghost predicate LastEnd(file: seq<byte>, at: nat) {
    && at + 22 <= |file| && |file| <= at + 65557 && Get32(file, at) == 0x06054b50
    && NoLaterSignature(file, at)
  }

  lemma LastEndIsFound(file: seq<byte>, at: nat)
    requires LastEnd(file, at)
    ensures EndRecordOffset(file) == at
  {
    OnlyLastSignature(file, at);
  }

  lemma FoundIsLastEnd(file: seq<byte>, at: nat)
    requires |file| >= EOCD_SIZE && EndRecordOffset(file) == at
    ensures LastEnd(file, at)
  {
    TailSignature(file, at);
    forall j | at < j && j + EOCD_SIZE <= |file| ensures !SignatureAt(file, j) {
      TailSignature(file, j);
    }
  }

  /** A file that is refused before its end record is looked at: it is too short or over 256 GiB, or it has no
      signature near its end. */
  lemma NoEndRefused(file: seq<byte>)
    requires |file| < 22 || |file| > 0x40_0000_0000 || forall at :: !LastEnd(file, at)
    ensures FindCentralDirectory(file) == Err(InvalidFile)
  {
    if 22 <= |file| <= 0x40_0000_0000 && EndRecordOffset(file) >= 0 { FoundIsLastEnd(file, EndRecordOffset(file)); }
  }

  /** What becomes of a file whose last end record is at `at`. Its comment must reach the end of the file; with a
      saturated size or start the zip64 record decides; otherwise the directory must end before it, and have
      records. */
  lemma EndRecordDecides(file: seq<byte>, at: nat)
    requires LastEnd(file, at) && |file| <= 0x40_0000_0000
    ensures var r := FindCentralDirectory(file);
            var n, size, start := Get16(file, at + 10), Get32(file, at + 12), Get32(file, at + 16);
            if at + 22 + Get16(file, at + 20) != |file| then r == Err(InvalidFile)
            else if size == 0xFFFF_FFFF || start == 0xFFFF_FFFF then r == NonEmpty(FindZip64Info(file, at))
            else if start + size > at then r == Err(InvalidOffset)
            else if n == 0 then r == Err(EmptyArchive)
            else r == Ok(CentralDirectoryInfo(n, size, start))
  {
    LastEndIsFound(file, at);
  }

  /** What becomes of a saturated end record. The locator must stand right before it with its signature; the
      zip64 record must lie before the locator and have its signature; and the directory must end before it,
      with some room to spare. */
  lemma Zip64Decides(file: seq<byte>, at: nat)
    requires at <= |file|
    ensures var r := FindZip64Info(file, at);
            if at <= 20 || Get32(file, at - 20) != 0x07064b50 then r == Err(InvalidFile)
            else
              var z := Get64(file, at - 12);
              if at <= 76 || z > at - 76 then r == Err(InvalidOffset)
              else if Get32(file, z) != 0x06064b50 then r == Err(InvalidFile)
              else
                var n, size, start := Get64(file, z + 32), Get64(file, z + 40), Get64(file, z + 48);
                if z <= size || start + size > z then r == Err(InvalidOffset)
                else r == Ok(CentralDirectoryInfo(n, size, start))
  {}
}
