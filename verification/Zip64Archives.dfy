/** Whole archives in the zip64 format: the end records, the directory and the entries taken together. */
module Zip64Archives {
  import opened Bytes
  import opened ZipErrors
  import opened ZipFormat
  import opened EndRecord
  import opened EntryName
  import opened ZipDirectory
  import opened ZipArchive
  import opened Zip64Extra
  import opened Zip64Entries

  /** An entry as the directory has it: its record, name and extra field, and the values these declare. */
  datatype Member = Member(record: CentralDirectoryRecord, name: Name, extra: seq<byte>, values: Values, before: seq<Block>, rest: seq<byte>)

  ghost predicate MemberAt(cd: seq<byte>, m: Member, o: nat, d: nat) {
    && RecordInside(cd, o + CDR_SIZE)
    && DecodeCentralDirectoryRecord(cd, o) == m.record && m.record.signature == CDR_SIGNATURE
    && NameBytes(cd, o) == m.name && ValidName(m.name) && ExtraOf(cd, o) == m.extra
    && Declares(m.record, m.extra, m.values, m.before, m.rest) && m.values.offset < d
  }

  /** The directory, which starts at `d` in the file, has the members one after the other from `o` on. */
  ghost predicate HasMembers(cd: seq<byte>, ms: seq<Member>, o: nat, d: nat)
    decreases |ms|
  {
    ms != [] ==> MemberAt(cd, ms[0], o, d) && HasMembers(cd, ms[1..], RecordEnd(ms[0].record, o), d)
  }

  function Positions(ms: seq<Member>, o: nat): (ps: seq<nat>)
    ensures |ps| == |ms|
    decreases |ms|
  {
    if ms == [] then [] else [o] + Positions(ms[1..], RecordEnd(ms[0].record, o))
  }

  function NamesOf(ms: seq<Member>): (ns: seq<Name>)
    ensures |ns| == |ms|
  {
    seq(|ms|, i requires 0 <= i < |ms| => ms[i].name)
  }

  lemma MemberAccepted(cd: seq<byte>, m: Member, o: nat, d: nat)
    requires MemberAt(cd, m, o, d) && d <= MAX_FILE_LENGTH
    ensures CheckRecord(cd, o, d) == Ok(RecordEnd(m.record, o))
  {
    DeclaredOffsetValue(cd, o, m.values, m.before, m.rest);
    RecordAccepted(cd, o, d);
  }

  lemma NamesMore(cd: seq<byte>, all: seq<nat>, rest: seq<nat>, o: nat, next: nat)
    requires all == [o] + rest && o + CDR_SIZE <= |cd| && next == RecordEnd(DecodeCentralDirectoryRecord(cd, o), o) <= |cd| && Walkable(cd, rest, next)
    ensures Walkable(cd, all, o) && Names(cd, all, o) == [NameBytes(cd, o)] + Names(cd, rest, next)
  {
    assert all[1..] == rest;
  }

  /** The first pass accepts the members, and the second finds their names. */
  lemma {:induction false} MembersAccepted(cd: seq<byte>, ms: seq<Member>, o: nat, d: nat)
    requires HasMembers(cd, ms, o, d) && d <= MAX_FILE_LENGTH
    ensures CheckRecords(cd, d, |ms|, o) == Ok(Positions(ms, o))
    ensures Walkable(cd, Positions(ms, o), o) && Names(cd, Positions(ms, o), o) == NamesOf(ms)
    decreases |ms|
  {
    if ms != [] {
      var next := RecordEnd(ms[0].record, o);
      MemberAccepted(cd, ms[0], o, d);
      MembersAccepted(cd, ms[1..], next, d);
      var all, rest := Positions(ms, o), Positions(ms[1..], next);
      assert all == [o] + rest && all[1..] == rest;
      NamesMore(cd, all, rest, o, next);
      assert NamesOf(ms) == [ms[0].name] + NamesOf(ms[1..]);
    }
  }

  /** The directory is refused exactly if a name repeats; otherwise the index is exactly the members. */
  lemma DirectoryRead(cd: seq<byte>, ms: seq<Member>, d: nat)
    requires HasMembers(cd, ms, 0, d) && d <= MAX_FILE_LENGTH
    ensures var r := ReadDirectory(cd, d, |ms|);
            && (r.Ok? <==> Distinct(NamesOf(ms)))
            && (r.Ok? ==> Extends(r.value, map[], NamesOf(ms), Positions(ms, 0)))
            && (r.Err? ==> r == Err(DuplicateEntry))
  {
    MembersAccepted(cd, ms, 0, d);
    IndexExactly(cd, Positions(ms, 0), 0, map[]);
  }

  function FileOf(body: seq<byte>, end: EocdRecord, comment: seq<byte>): (file: seq<byte>) {
    body + EncodeEocdRecord(end) + comment
  }

  /** A saturated end record behind `body`, and a locator that leads to a zip64 record in it. */
  ghost predicate Zip64Tail(body: seq<byte>, end: EocdRecord, comment: seq<byte>, locator: Zip64EocdLocator, record: Zip64EocdRecord) {
    var l, z := |body| - ZIP64_LOCATOR_SIZE, locator.zip64EocdOffset;
    && end.signature == EOCD_SIGNATURE && end.commentLength == |comment|
    && (end.cdSize == U32_MAX || end.cdStartOffset == U32_MAX)
    && NoLaterSignature(FileOf(body, end, comment), |body|) && |FileOf(body, end, comment)| <= MAX_FILE_LENGTH
    && record.signature == ZIP64_EOCD_SIGNATURE && locator.signature == ZIP64_LOCATOR_SIGNATURE
    && z + ZIP64_EOCD_SIZE <= l && body[l..] == EncodeZip64EocdLocator(locator)
    && body[z..z + ZIP64_EOCD_SIZE] == EncodeZip64EocdRecord(record)
    && record.cdSize < z && record.cdStartOffset + record.cdSize <= z && record.numRecords > 0
  }

  function Info(record: Zip64EocdRecord): (info: CentralDirectoryInfo) {
    CentralDirectoryInfo(record.numRecords, record.cdSize, record.cdStartOffset)
  }

  lemma SamePlace(body: seq<byte>, end: EocdRecord, comment: seq<byte>, i: nat, j: nat)
    requires i <= j <= |body|
    ensures FileOf(body, end, comment)[i..j] == body[i..j]
  {}

  lemma Zip64DirectoryFound(body: seq<byte>, end: EocdRecord, comment: seq<byte>, locator: Zip64EocdLocator, record: Zip64EocdRecord, file: seq<byte>)
    requires Zip64Tail(body, end, comment, locator, record) && file == FileOf(body, end, comment)
    ensures FindCentralDirectory(file) == Ok(Info(record)) && record.cdStartOffset + record.cdSize <= |body| && |file| == |body| + EOCD_SIZE + |comment|
  {
    var l, z := |body| - ZIP64_LOCATOR_SIZE, locator.zip64EocdOffset;
    SamePlace(body, end, comment, l, |body|);
    SamePlace(body, end, comment, z, z + ZIP64_EOCD_SIZE);
    assert body[l..|body|] == body[l..];
    Zip64RecordIsFound(file, |body|, record, locator);
    EndRecordIsFound(body, end, comment);
  }

  /** Parsing a directory of the given members. */
  lemma OpenAtMembers(file: seq<byte>, info: CentralDirectoryInfo, ms: seq<Member>, a: Archive)
    requires |file| >= EOCD_SIZE && info.start + info.size <= |file| <= MAX_FILE_LENGTH && a == Located(file, info)
    requires info.numRecords == |ms| && HasMembers(a.cd, ms, 0, info.start)
    ensures var r := OpenAt(file, info);
            && (r.Ok? <==> Get32(file, 0) == LFH_SIGNATURE && Distinct(NamesOf(ms)))
            && (r.Ok? ==> r.value.archive == a && Extends(r.value.index, map[], NamesOf(ms), Positions(ms, 0)))
  {
    DirectoryRead(a.cd, ms, info.start);
  }

  lemma OpensAt(file: seq<byte>, info: CentralDirectoryInfo)
    requires FindCentralDirectory(file) == Ok(info)
    ensures |file| >= EOCD_SIZE && info.start + info.size <= |file| <= MAX_FILE_LENGTH
    ensures Open(file) == OpenAt(file, info)
  {
    DirectoryBeforeEnd(file);
  }

  /** The archive as it opens. */
  function ArchiveOf(file: seq<byte>, record: Zip64EocdRecord): (a: Archive)
    requires record.cdStartOffset + record.cdSize <= |file|
  {
    Located(file, Info(record))
  }

  /** A file in the zip64 format whose directory has the given members. */
  ghost predicate Zip64File(file: seq<byte>, record: Zip64EocdRecord, ms: seq<Member>) {
    && FindCentralDirectory(file) == Ok(Info(record)) && record.numRecords == |ms|
    && record.cdStartOffset + record.cdSize <= |file| && |file| >= EOCD_SIZE
    && HasMembers(ArchiveOf(file, record).cd, ms, 0, record.cdStartOffset)
  }

  lemma IsZip64File(file: seq<byte>, record: Zip64EocdRecord, cd: seq<byte>, ms: seq<Member>)
    requires FindCentralDirectory(file) == Ok(Info(record)) && record.numRecords == |ms|
    requires record.cdStartOffset + record.cdSize <= |file| && |file| >= EOCD_SIZE
    requires file[record.cdStartOffset..record.cdStartOffset + record.cdSize] == cd && HasMembers(cd, ms, 0, record.cdStartOffset)
    ensures Zip64File(file, record, ms)
  {}

  /** What such a file opens as: it opens if and only if it starts with a local header and no name repeats,
      and its index is then exactly the members. */
  ghost predicate OpensAs(file: seq<byte>, r: Result<Opened>, a: Archive, ms: seq<Member>)
    requires |file| >= 4
  {
    && (r.Ok? <==> Get32(file, 0) == LFH_SIGNATURE && Distinct(NamesOf(ms)))
    && (r.Ok? ==> r.value.archive == a && Extends(r.value.index, map[], NamesOf(ms), Positions(ms, 0)))
  }

  lemma MembersOpen(file: seq<byte>, record: Zip64EocdRecord, ms: seq<Member>)
    requires Zip64File(file, record, ms)
    ensures OpensAs(file, Open(file), ArchiveOf(file, record), ms)
  {
    OpensAt(file, Info(record));
    OpenAtMembers(file, Info(record), ms, ArchiveOf(file, record));
  }

  /** Saturated end record, locator, zip64 record and directory together. */
  lemma Zip64ArchiveOpens(body: seq<byte>, end: EocdRecord, comment: seq<byte>, locator: Zip64EocdLocator, record: Zip64EocdRecord, cd: seq<byte>, ms: seq<Member>)
    requires Zip64Tail(body, end, comment, locator, record) && record.numRecords == |ms|
    requires cd == body[record.cdStartOffset..record.cdStartOffset + record.cdSize] && HasMembers(cd, ms, 0, record.cdStartOffset)
    ensures var file := FileOf(body, end, comment);
            Zip64File(file, record, ms) && OpensAs(file, Open(file), ArchiveOf(file, record), ms)
  {
    var file := FileOf(body, end, comment);
    Zip64DirectoryFound(body, end, comment, locator, record, file);
    SamePlace(body, end, comment, record.cdStartOffset, record.cdStartOffset + record.cdSize);
    IsZip64File(file, record, cd, ms);
    MembersOpen(file, record, ms);
  }

  lemma {:induction false} MemberIsAt(cd: seq<byte>, ms: seq<Member>, o: nat, d: nat, i: nat)
    requires HasMembers(cd, ms, o, d) && i < |ms|
    ensures MemberAt(cd, ms[i], Positions(ms, o)[i], d)
    decreases |ms|
  {
    if i > 0 {
      MemberIsAt(cd, ms[1..], RecordEnd(ms[0].record, o), d, i - 1);
    }
  }

  /** The local header of a member: its name ends at `nameEnd`, its data start at `data`. */
  ghost predicate LocalOf(a: Archive, m: Member, h: LocalFileHeader, nameEnd: nat, data: nat, before: seq<Block>, rest: seq<byte>) {
    && LocalAt(a, m.values.offset, h, m.name) && nameEnd == m.values.offset + LFH_SIZE + |m.name| && data == nameEnd + h.extraFieldLength
    && data <= |a.file| && data <= a.directoryOffset
    && DeclaresSizes(h, a.file[nameEnd..nameEnd + h.extraFieldLength], m.values.uncompressed, m.values.compressed, before, rest)
  }

  lemma MemberIndexed(file: seq<byte>, record: Zip64EocdRecord, ms: seq<Member>, i: nat, a: Archive, name: Name, o: nat)
    requires Zip64File(file, record, ms) && Open(file).Ok? && i < |ms| && name == ms[i].name && o == Positions(ms, 0)[i] && a == ArchiveOf(file, record)
    ensures var z := Open(file).value; z.archive == a && name in z.index && z.index[name] == o + CDR_SIZE
  {
    MembersOpen(file, record, ms);
    ExtendsAt(Open(file).value.index, NamesOf(ms), Positions(ms, 0), i, name, o);
  }

  /** Looking up a member of an archive that opens finds its declared sizes and data, whatever their size, if
      and only if the data end before the directory and the checksums agree or a descriptor follows. */
  lemma Zip64MemberFound(file: seq<byte>, record: Zip64EocdRecord, ms: seq<Member>, i: nat, h: LocalFileHeader, nameEnd: nat, data: nat,
                         before: seq<Block>, rest: seq<byte>)
    requires Zip64File(file, record, ms) && Open(file).Ok? && |file| <= MAX_FILE_LENGTH
    requires i < |ms| && ms[i].name != [] && LocalOf(ArchiveOf(file, record), ms[i], h, nameEnd, data, before, rest)
    ensures var d, m, r := record.cdStartOffset, ms[i], LookupIn(file, ms[i].name);
            && (r.Ok? <==>
                  && (h.gpbFlags % 16 >= 8 || m.record.crc32 == h.crc32) && data + m.values.compressed <= d
                  && (m.record.compressionMethod == COMPRESS_STORED ==> data + m.values.uncompressed <= d))
            && (r.Ok? ==>
                  && r.value.compressedLength == m.values.compressed && r.value.uncompressedLength == m.values.uncompressed
                  && r.value.offset == data && r.value.crc32 == m.record.crc32 && (r.value.hasDataDescriptor <==> h.gpbFlags % 16 >= 8))
  {
    var a, m, o := ArchiveOf(file, record), ms[i], Positions(ms, 0)[i];
    MemberIsAt(a.cd, ms, 0, record.cdStartOffset, i);
    MemberIndexed(file, record, ms, i, a, m.name, o);
    IndexedLookup(file, Open(file).value, m.name);
    assert Prepared(a, o, m.values, m.name, h, nameEnd, data, m.before, m.rest, before, rest);
    LargeEntryFound(a, o, m.values, m.name, h, nameEnd, data, m.before, m.rest, before, rest);
  }
}
