/** A directory of more than 4 GiB. Any members can be laid out as a directory that reads back as them, and
    one such archive has a name that the reader's hash table cannot hold. */
module LargeDirectory {
  import opened Bytes
  import opened ZipErrors
  import opened ZipFormat
  import opened ZipLayout
  import opened EndRecord
  import opened EntryName
  import opened ZipDirectory
  import opened ZipArchive
  import opened Zip64Extra
  import opened Zip64Entries
  import opened Zip64Archives

  // ----- any members -----

  function MemberBytes(m: Member): (s: seq<byte>) {
    EncodeCentralDirectoryRecord(m.record) + (m.name + m.extra + Zeros(m.record.commentLength))
  }

  function Encoded(ms: seq<Member>): (s: seq<byte>)
    decreases |ms|
  {
    if ms == [] then [] else MemberBytes(ms[0]) + Encoded(ms[1..])
  }

  /** A member of a directory at offset `d` whose record says what its parts are. */
  ghost predicate Encodable(m: Member, d: nat) {
    && m.record.signature == CDR_SIGNATURE && m.record.fileNameLength == |m.name| && m.record.extraFieldLength == |m.extra|
    && ValidName(m.name) && Declares(m.record, m.extra, m.values, m.before, m.rest) && m.values.offset < d
  }

  ghost predicate AllEncodable(ms: seq<Member>, d: nat) {
    forall i :: 0 <= i < |ms| ==> Encodable(ms[i], d)
  }

  lemma MemberParts(cd: seq<byte>, m: Member, o: nat, after: seq<byte>, n: nat, x: nat)
    requires o <= |cd| && cd[o..] == MemberBytes(m) + after && n == o + CDR_SIZE && x == n + |m.name|
    ensures n <= x <= x + |m.extra| && x + |m.extra| + m.record.commentLength <= |cd|
    ensures cd[o..n] == EncodeCentralDirectoryRecord(m.record) && cd[n..x] == m.name && cd[x..x + |m.extra|] == m.extra
    ensures cd[x + |m.extra| + m.record.commentLength..] == after
  {
    var s := cd[o..];
    assert |s| == CDR_SIZE + |m.name| + |m.extra| + m.record.commentLength + |after|;
    assert cd[o..n] == s[..CDR_SIZE];
    assert cd[n..x] == s[CDR_SIZE..CDR_SIZE + |m.name|];
    assert cd[x..x + |m.extra|] == s[CDR_SIZE + |m.name|..CDR_SIZE + |m.name| + |m.extra|];
    assert cd[x + |m.extra| + m.record.commentLength..] == s[|s| - |after|..];
  }

  lemma MemberEncoded(cd: seq<byte>, m: Member, o: nat, d: nat, after: seq<byte>)
    requires Encodable(m, d) && o <= |cd| && cd[o..] == MemberBytes(m) + after
    ensures MemberAt(cd, m, o, d) && RecordEnd(m.record, o) <= |cd| && cd[RecordEnd(m.record, o)..] == after
  {
    MemberParts(cd, m, o, after, o + CDR_SIZE, o + CDR_SIZE + |m.name|);
    DecodeCentralDirectoryRecordAt(cd, o, m.record);
  }

  /** The encoding of any members is a directory of exactly them. */
  lemma {:induction false} EncodedHasMembers(cd: seq<byte>, ms: seq<Member>, o: nat, d: nat)
    requires o <= |cd| && cd[o..] == Encoded(ms) && AllEncodable(ms, d)
    ensures HasMembers(cd, ms, o, d)
    decreases |ms|
  {
    if ms != [] {
      MemberEncoded(cd, ms[0], o, d, Encoded(ms[1..]));
      EncodedHasMembers(cd, ms[1..], RecordEnd(ms[0].record, o), d);
    }
  }

  // ----- the end of the file -----

  function TailRecord(start: nat, size: nat, n: nat): (r: Zip64EocdRecord)
    requires start + size <= MAX_FILE_LENGTH && n <= U32_MAX
  {
    Zip64EocdRecord(ZIP64_EOCD_SIGNATURE, 44, 0, 0, 0, 0, n, n, size, start)
  }

  function TailLocator(at: nat): (l: Zip64EocdLocator)
    requires at <= MAX_FILE_LENGTH
  {
    Zip64EocdLocator(ZIP64_LOCATOR_SIGNATURE, 0, at, 1)
  }

  const SATURATED_END := EocdRecord(EOCD_SIGNATURE, 0, 0, U16_MAX, U16_MAX, U32_MAX, U32_MAX, 0)

  /** What stands before the end record: entries, directory, zip64 record and locator. */
  function Body(head: seq<byte>, cd: seq<byte>, n: nat): (body: seq<byte>)
    requires |head| + |cd| <= MAX_FILE_LENGTH && n <= U32_MAX
  {
    head + cd + EncodeZip64EocdRecord(TailRecord(|head|, |cd|, n)) + EncodeZip64EocdLocator(TailLocator(|head| + |cd|))
  }

  lemma BodyParts(head: seq<byte>, cd: seq<byte>, r: seq<byte>, l: seq<byte>, body: seq<byte>)
    requires body == head + cd + r + l
    ensures body[|head|..|head| + |cd|] == cd && body[|head| + |cd|..|head| + |cd| + |r|] == r && body[|head| + |cd| + |r|..] == l
    ensures |body| == |head| + |cd| + |r| + |l|
  {}

  lemma BodyHasTail(head: seq<byte>, cd: seq<byte>, n: nat, body: seq<byte>)
    requires 0 < |head| && |head| + |cd| + 1000 <= MAX_FILE_LENGTH && 0 < n <= U32_MAX && body == Body(head, cd, n)
    ensures Zip64Tail(body, SATURATED_END, [], TailLocator(|head| + |cd|), TailRecord(|head|, |cd|, n))
    ensures body[|head|..|head| + |cd|] == cd
  {
    BodyParts(head, cd, EncodeZip64EocdRecord(TailRecord(|head|, |cd|, n)), EncodeZip64EocdLocator(TailLocator(|head| + |cd|)), body);
  }

  lemma TailLeads(head: seq<byte>, cd: seq<byte>, n: nat, body: seq<byte>, file: seq<byte>, record: Zip64EocdRecord)
    requires 0 < |head| && |head| + |cd| + 1000 <= MAX_FILE_LENGTH && 0 < n <= U32_MAX && record == TailRecord(|head|, |cd|, n)
    requires body == Body(head, cd, n) && file == FileOf(body, SATURATED_END, [])
    ensures FindCentralDirectory(file) == Ok(Info(record))
    ensures record.cdStartOffset == |head| && record.cdSize == |cd| && record.numRecords == n
    ensures |head| + |cd| + EOCD_SIZE <= |file| <= MAX_FILE_LENGTH && head <= file
    ensures file[record.cdStartOffset..record.cdStartOffset + record.cdSize] == cd
  {
    BodyHasTail(head, cd, n, body);
    Zip64DirectoryFound(body, SATURATED_END, [], TailLocator(|head| + |cd|), record, file);
    SamePlace(body, SATURATED_END, [], |head|, |head| + |cd|);
    SamePlace(body, SATURATED_END, [], 0, |head|);
    assert body[0..|head|] == head;
  }

  lemma MembersInFile(file: seq<byte>, record: Zip64EocdRecord, cd: seq<byte>, ms: seq<Member>)
    requires FindCentralDirectory(file) == Ok(Info(record)) && record.numRecords == |ms|
    requires record.cdStartOffset + record.cdSize <= |file| && |file| >= EOCD_SIZE
    requires file[record.cdStartOffset..record.cdStartOffset + record.cdSize] == cd
    requires cd == Encoded(ms) && AllEncodable(ms, record.cdStartOffset)
    ensures Zip64File(file, record, ms)
  {
    assert cd[0..] == cd;
    EncodedHasMembers(cd, ms, 0, record.cdStartOffset);
    IsZip64File(file, record, cd, ms);
  }

  /** A whole file with any members, which is read as them. */
  lemma EncodedFile(head: seq<byte>, ms: seq<Member>, cd: seq<byte>, file: seq<byte>, record: Zip64EocdRecord)
    requires cd == Encoded(ms) && 0 < |head| && |head| + |cd| + 1000 <= MAX_FILE_LENGTH && 0 < |ms| <= U32_MAX
    requires file == FileOf(Body(head, cd, |ms|), SATURATED_END, []) && record == TailRecord(|head|, |cd|, |ms|)
    requires AllEncodable(ms, |head|)
    ensures Zip64File(file, record, ms)
    ensures |head| + |cd| <= |file| <= MAX_FILE_LENGTH && head <= file
  {
    TailLeads(head, cd, |ms|, Body(head, cd, |ms|), file, record);
    MembersInFile(file, record, cd, ms);
  }

  // ----- one that is too large -----

  const COUNT: nat := 32768

  /** The least length of one of its records. */
  const RECORD: nat := 131116

  /** The first name is `a`, and each is a letter longer than the one before. */
  function LongName(i: nat): (name: seq<byte>)
    ensures |name| == i + 1
  {
    seq(i + 1, _ => 97)
  }

  lemma {:induction false} LettersScan(s: seq<byte>)
    requires forall k :: 0 <= k < |s| ==> s[k] == 97
    ensures Scans(s)
    decreases |s|
  {
    if s != [] {
      assert s[..1] == [97];
      LettersScan(s[1..]);
    }
  }

  /** Entries without data. */
  function ManyEntries(): (es: seq<Entry>)
    ensures |es| == COUNT
  {
    seq(COUNT, i requires 0 <= i < COUNT => Entry(LongName(i), 0, 0, 0, 0, []))
  }

  lemma {:induction false} OffsetsSmall(m: Mode, es: seq<Entry>, i: nat)
    requires es == ManyEntries() && i <= COUNT
    ensures i <= OffsetOf(m, es, i) <= 32814 * i
    decreases i
  {
    if i > 0 {
      OffsetsSmall(m, es, i - 1);
    }
  }

  /** A member for an entry, with as many extra and comment bytes as a record can have. */
  function Padded(m: Mode, es: seq<Entry>, i: nat): (r: Member)
    requires i < |es|
  {
    Member(RecordOf(m, es, i).(extraFieldLength := U16_MAX, commentLength := U16_MAX), es[i].name, Zeros(U16_MAX),
           Values(0, 0, Low32(OffsetOf(m, es, i))), [], [])
  }

  function ManyMembers(m: Mode): (ms: seq<Member>)
    ensures |ms| == COUNT
  {
    seq(COUNT, i requires 0 <= i < COUNT => Padded(m, ManyEntries(), i))
  }

  lemma MemberOfEntry(m: Mode, es: seq<Entry>, i: nat, o: nat, d: nat)
    requires es == ManyEntries() && i < COUNT && o == OffsetOf(m, es, i) && d == OffsetOf(m, es, COUNT)
    ensures Encodable(Padded(m, es, i), d) && Padded(m, es, i).values.offset == o < d
  {
    OffsetsSmall(m, es, i);
    OffsetsSmall(m, es, COUNT);
    assert OffsetOf(m, es, i + 1) == o + TileLength(m, es[i]);
    OffsetsGrow(m, es, i + 1, COUNT);
    LettersScan(es[i].name);
  }

  /** Every record is at least `RECORD` bytes, and none is much more. */
  lemma {:induction false} PositionsLarge(ms: seq<Member>, o: nat, i: nat)
    requires i < |ms| && forall k :: 0 <= k < |ms| ==> ms[k].record.extraFieldLength == ms[k].record.commentLength == U16_MAX
    ensures Positions(ms, o)[i] >= o + RECORD * i
    decreases i
  {
    if i > 0 {
      PositionsLarge(ms[1..], RecordEnd(ms[0].record, o), i - 1);
    }
  }

  lemma {:induction false} EncodedLength(ms: seq<Member>)
    requires forall k :: 0 <= k < |ms| ==> |ms[k].name| <= U16_MAX && |ms[k].extra| <= U16_MAX
    ensures |Encoded(ms)| <= 200000 * |ms|
    decreases |ms|
  {
    if ms != [] {
      EncodedLength(ms[1..]);
    }
  }

  lemma LongNamesDistinct(m: Mode)
    ensures Distinct(NamesOf(ManyMembers(m)))
  {
    var ns := NamesOf(ManyMembers(m));
    assert forall i :: 0 <= i < COUNT ==> |ns[i]| == i + 1;
  }

  /** The entries, the padded directory and the end of the file. */
  function TooLarge(m: Mode): (file: seq<byte>)
    requires |Layout(m, ManyEntries())| + |Encoded(ManyMembers(m))| <= MAX_FILE_LENGTH
  {
    FileOf(Body(Layout(m, ManyEntries()), Encoded(ManyMembers(m)), COUNT), SATURATED_END, [])
  }

  lemma TooLargeSizes(m: Mode)
    ensures 0 < |Layout(m, ManyEntries())| == OffsetOf(m, ManyEntries(), COUNT)
    ensures |Layout(m, ManyEntries())| + |Encoded(ManyMembers(m))| + 1000 <= MAX_FILE_LENGTH
  {
    LayoutLength(m, ManyEntries());
    OffsetsSmall(m, ManyEntries(), COUNT);
    EncodedLength(ManyMembers(m));
  }

  lemma ManyEncodable(m: Mode, d: nat)
    requires d == OffsetOf(m, ManyEntries(), COUNT)
    ensures AllEncodable(ManyMembers(m), d)
  {
    forall i | 0 <= i < COUNT ensures Encodable(ManyMembers(m)[i], d) {
      MemberOfEntry(m, ManyEntries(), i, OffsetOf(m, ManyEntries(), i), d);
    }
  }

  lemma StartsWithHeader(m: Mode, es: seq<Entry>, file: seq<byte>)
    requires es != [] && Layout(m, es) <= file && |file| >= 4
    ensures Get32(file, 0) == LFH_SIGNATURE
  {
    EntryStored(m, es, 0, file, 0);
  }

  lemma TooLargeOpens(m: Mode, file: seq<byte>, ms: seq<Member>, record: Zip64EocdRecord)
    requires |Layout(m, ManyEntries())| + |Encoded(ManyMembers(m))| <= MAX_FILE_LENGTH
    requires file == TooLarge(m) && ms == ManyMembers(m) && record == TailRecord(|Layout(m, ManyEntries())|, |Encoded(ms)|, COUNT)
    ensures Zip64File(file, record, ms) && Open(file).Ok? && Layout(m, ManyEntries()) <= file && |file| <= MAX_FILE_LENGTH
  {
    TooLargeSizes(m);
    ManyEncodable(m, OffsetOf(m, ManyEntries(), COUNT));
    EncodedFile(Layout(m, ManyEntries()), ms, Encoded(ms), file, record);
    StartsWithHeader(m, ManyEntries(), file);
    LongNamesDistinct(m);
    MembersOpen(file, record, ms);
  }

  /** The last name of such a file is beyond the reach of the hash table. */
  lemma LastBeyond(file: seq<byte>, record: Zip64EocdRecord, ms: seq<Member>, a: Archive)
    requires Zip64File(file, record, ms) && Open(file).Ok? && a == ArchiveOf(file, record) && |file| <= MAX_FILE_LENGTH
    requires |ms| == COUNT && Positions(ms, 0)[COUNT - 1] >= RECORD * (COUNT - 1)
    ensures !Reliable(file) && Beyond(ReadDirectory(a.cd, a.directoryOffset, COUNT), ms[COUNT - 1].name)
  {
    var o := Positions(ms, 0)[COUNT - 1];
    MembersAccepted(a.cd, ms, 0, record.cdStartOffset);
    OpensAt(file, Info(record));
    MemberIndexed(file, record, ms, COUNT - 1, a, ms[COUNT - 1].name, o);
  }

  lemma LastFound(m: Mode, es: seq<Entry>, file: seq<byte>, record: Zip64EocdRecord, ms: seq<Member>)
    requires es == ManyEntries() && ms == ManyMembers(m) && Zip64File(file, record, ms) && Open(file).Ok?
    requires Layout(m, es) <= file && record.cdStartOffset == |Layout(m, es)| && |file| <= MAX_FILE_LENGTH
    ensures LookupIn(file, ms[COUNT - 1].name).Ok?
  {
    var i := COUNT - 1;
    var o, h, member := OffsetOf(m, es, i), HeaderOf(m, es[i]), Padded(m, es, i);
    EntryStored(m, es, i, file, o);
    LayoutLength(m, es);
    MemberOfEntry(m, es, i, o, OffsetOf(m, es, COUNT));
    assert OffsetOf(m, es, COUNT) == o + TileLength(m, es[i]);
    var nameEnd := o + LFH_SIZE + |member.name|;
    assert LocalOf(ArchiveOf(file, record), member, h, nameEnd, nameEnd, [], []);
    Zip64MemberFound(file, record, ms, i, h, nameEnd, nameEnd, [], []);
  }

  /** A file that opens, and a name that a lookup in it should find, for which the hash table does not have
      the right offset. */
  ghost predicate LostIn(file: seq<byte>, name: Name) {
    && Open(file).Ok? && LookupIn(file, name).Ok? && !Reliable(file)
    && var a := Open(file).value.archive;
    && a.numEntries <= U16_MAX && Beyond(ReadDirectory(a.cd, a.directoryOffset, a.numEntries), name)
  }

  lemma IsLost(file: seq<byte>, record: Zip64EocdRecord, ms: seq<Member>, a: Archive, name: Name)
    requires Zip64File(file, record, ms) && Open(file).Ok? && a == ArchiveOf(file, record) && |ms| == COUNT
    requires LookupIn(file, name).Ok? && !Reliable(file) && Beyond(ReadDirectory(a.cd, a.directoryOffset, COUNT), name)
    ensures LostIn(file, name)
  {
    MembersOpen(file, record, ms);
  }

  lemma LastLost(m: Mode, file: seq<byte>, record: Zip64EocdRecord, ms: seq<Member>, name: Name)
    requires ms == ManyMembers(m) && Zip64File(file, record, ms) && Open(file).Ok? && name == ms[COUNT - 1].name
    requires Layout(m, ManyEntries()) <= file && record.cdStartOffset == |Layout(m, ManyEntries())| && |file| <= MAX_FILE_LENGTH
    ensures LostIn(file, name)
  {
    PositionsLarge(ms, 0, COUNT - 1);
    LastBeyond(file, record, ms, ArchiveOf(file, record));
    LastFound(m, ManyEntries(), file, record, ms);
    IsLost(file, record, ms, ArchiveOf(file, record), name);
  }

  lemma LostFrom(m: Mode, file: seq<byte>, ms: seq<Member>, cd: seq<byte>, name: Name)
    requires |Layout(m, ManyEntries())| + |Encoded(ManyMembers(m))| <= MAX_FILE_LENGTH && ms == ManyMembers(m) && cd == Encoded(ms)
    requires file == TooLarge(m) && name == LongName(COUNT - 1)
    ensures LostIn(file, name)
  {
    var record := TailRecord(|Layout(m, ManyEntries())|, |cd|, COUNT);
    TooLargeOpens(m, file, ms, record);
    LastLost(m, file, record, ms, name);
  }

  /** Names of up to 32768 letters and records padded to their full length: the longest name is lost. */
  lemma NameLost(m: Mode)
    ensures |Layout(m, ManyEntries())| + |Encoded(ManyMembers(m))| <= MAX_FILE_LENGTH
    ensures LostIn(TooLarge(m), LongName(COUNT - 1))
  {
    TooLargeSizes(m);
    LostFrom(m, TooLarge(m), ManyMembers(m), Encoded(ManyMembers(m)), LongName(COUNT - 1));
  }
}
