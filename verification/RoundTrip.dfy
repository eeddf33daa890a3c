/** Writer and reader agree: what a finished run of the writer leaves in the file, the reader opens, and
    every surviving entry is found with its payload. */
module RoundTrip {
  import opened Bytes
  import opened ZipErrors
  import opened ZipFormat
  import opened ZipLayout
  import opened EntryName
  import opened EndRecord
  import opened ZipDirectory
  import opened ZipArchive

  /** Entries that fit the end record: few enough, and short enough in total. */
  predicate Fitting(m: Mode, es: seq<Entry>) {
    |es| <= U16_MAX && End(m, es) + RecordOffset(es, |es|) <= U32_MAX
  }

  ghost predicate ValidNames(es: seq<Entry>) {
    forall i :: 0 <= i < |es| ==> ValidName(es[i].name)
  }

  // ----- the end record -----

  lemma FindsPlainDirectory(layout: seq<byte>, cd: seq<byte>, n: nat, end: EocdRecord)
    requires |layout| + |cd| <= U32_MAX && n <= U16_MAX
    requires end == EocdRecord(EOCD_SIGNATURE, 0, 0, n, n, |cd|, |layout|, 0)
    requires |layout| < U32_MAX && |cd| < U32_MAX
    ensures FindCentralDirectory(layout + cd + EncodeEocdRecord(end)) ==
      if n == 0 then Err(EmptyArchive) else Ok(CentralDirectoryInfo(n, |cd|, |layout|))
  {
    var body := layout + cd;
    var file := body + EncodeEocdRecord(end);
    assert body + EncodeEocdRecord(end) + [] == file;
    EndRecordIsFound(body, end, []);
  }

  lemma EntriesFit(m: Mode, es: seq<Entry>, i: nat)
    requires i < |es|
    ensures OffsetOf(m, es, i) + TileLength(m, es[i]) <= End(m, es)
    ensures RecordOffset(es, i) + CDR_SIZE + |es[i].name| <= RecordOffset(es, |es|)
  {
    OffsetsGrow(m, es, i + 1, |es|);
  }

  lemma FittingBounds(m: Mode, es: seq<Entry>)
    requires Fitting(m, es)
    ensures End(m, es) < U32_MAX && RecordOffset(es, |es|) < U32_MAX
  {
    if es != [] { EntriesFit(m, es, 0); }
  }

  lemma EndRecordFields(m: Mode, es: seq<Entry>)
    requires Fitting(m, es)
    ensures EndRecordOf(m, es) == EocdRecord(EOCD_SIGNATURE, 0, 0, |es|, |es|, RecordOffset(es, |es|), End(m, es), 0)
  {}

  lemma FindsDirectory(m: Mode, es: seq<Entry>)
    requires Fitting(m, es)
    ensures FindCentralDirectory(ArchiveBytes(m, es)) ==
      if es == [] then Err(EmptyArchive)
      else Ok(CentralDirectoryInfo(|es|, RecordOffset(es, |es|), End(m, es)))
  {
    LayoutLength(m, es);
    DirectoryLength(m, es, |es|);
    FittingBounds(m, es);
    EndRecordFields(m, es);
    FindsPlainDirectory(Layout(m, es), Directory(m, es, |es|), |es|, EndRecordOf(m, es));
  }

  // ----- the directory -----

  /** A record of `name` at `o`, with no extra field or comment, for an entry before offset `d`. */
  ghost predicate PlainRecord(cd: seq<byte>, o: nat, d: nat, c: CentralDirectoryRecord, name: Name) {
    && o + CDR_SIZE + |name| <= |cd| && DecodeCentralDirectoryRecord(cd, o) == c
    && c.signature == CDR_SIGNATURE && c.fileNameLength == |name| && c.extraFieldLength == 0 && c.commentLength == 0
    && c.localFileHeaderOffset != U32_MAX && c.localFileHeaderOffset < d
    && cd[o + CDR_SIZE..o + CDR_SIZE + |name|] == name && ValidName(name)
  }

  function Next(os: seq<nat>, i: nat, last: nat): (o: nat) {
    if i + 1 < |os| then os[i + 1] else last
  }

  /** Record `i` of a list, which ends where the next one starts. */
  ghost predicate PlainAt(cd: seq<byte>, d: nat, os: seq<nat>, cs: seq<CentralDirectoryRecord>, ns: seq<Name>, i: nat)
    requires i < |os| == |cs| == |ns|
  {
    PlainRecord(cd, os[i], d, cs[i], ns[i]) && os[i] + CDR_SIZE + |ns[i]| == Next(os, i, |cd|)
  }

  /** A directory that consists of such records back to back. */
  ghost predicate PlainDirectory(cd: seq<byte>, d: nat, os: seq<nat>, cs: seq<CentralDirectoryRecord>, ns: seq<Name>) {
    && |os| == |cs| == |ns| && (os != [] ==> os[0] == 0)
    && (forall i :: 0 <= i < |os| ==> PlainAt(cd, d, os, cs, ns, i))
  }

  lemma PlainRecordChecks(cd: seq<byte>, o: nat, d: nat, c: CentralDirectoryRecord, name: Name)
    requires PlainRecord(cd, o, d, c, name)
    ensures CheckRecord(cd, o, d) == Ok(o + CDR_SIZE + |name|)
    ensures RecordEnd(c, o) == o + CDR_SIZE + |name| && NameBytes(cd, o) == name && RecordInside(cd, o + CDR_SIZE)
  {}

  ghost predicate StepsAt(step: nat -> Result<nat>, os: seq<nat>, last: nat, k: nat)
    requires k < |os|
  {
    step(os[k]) == Ok(Next(os, k, last))
  }

  /** If every position of a list steps to the next, following yields the list. */
  lemma {:induction false} FollowsList(step: nat -> Result<nat>, os: seq<nat>, last: nat, i: nat)
    requires i <= |os| && forall k :: 0 <= k < |os| ==> StepsAt(step, os, last, k)
    ensures Follow(step, |os| - i, if i < |os| then os[i] else last) == Ok(os[i..])
    decreases |os| - i
  {
    if i < |os| {
      assert StepsAt(step, os, last, i);
      FollowsList(step, os, last, i + 1);
      assert os[i..] == [os[i]] + os[i + 1..];
    }
  }

  /** What both passes find at record `k` of a plain directory. */
  lemma PlainRecordRead(cd: seq<byte>, d: nat, os: seq<nat>, cs: seq<CentralDirectoryRecord>, ns: seq<Name>, k: nat, o: nat, next: nat)
    requires PlainDirectory(cd, d, os, cs, ns) && k < |os| && o == os[k] && next == Next(os, k, |cd|)
    ensures CheckRecord(cd, o, d) == Ok(next) && RecordInside(cd, o + CDR_SIZE)
    ensures RecordEnd(DecodeCentralDirectoryRecord(cd, o), o) == next && NameBytes(cd, o) == ns[k]
  {
    assert PlainAt(cd, d, os, cs, ns, k);
    PlainRecordChecks(cd, o, d, cs[k], ns[k]);
  }

  lemma PlainStep(cd: seq<byte>, d: nat, os: seq<nat>, cs: seq<CentralDirectoryRecord>, ns: seq<Name>, k: nat, step: nat -> Result<nat>)
    requires PlainDirectory(cd, d, os, cs, ns) && k < |os| && step == Checker(cd, d)
    ensures StepsAt(step, os, |cd|, k)
  {
    PlainRecordRead(cd, d, os, cs, ns, k, os[k], Next(os, k, |cd|));
  }

  /** The first pass accepts a plain directory… */
  lemma PlainDirectoryChecks(cd: seq<byte>, d: nat, os: seq<nat>, cs: seq<CentralDirectoryRecord>, ns: seq<Name>)
    requires PlainDirectory(cd, d, os, cs, ns)
    ensures CheckRecords(cd, d, |os|, 0) == Ok(os)
  {
    var step, last := Checker(cd, d), |cd|;
    forall k | 0 <= k < |os| ensures StepsAt(step, os, last, k) {
      PlainStep(cd, d, os, cs, ns, k, step);
    }
    FollowsList(step, os, last, 0);
    assert os[0..] == os;
  }

  lemma NamesStep(cd: seq<byte>, os: seq<nat>, i: nat, o: nat, next: nat, name: Name)
    requires i < |os| && Walkable(cd, os[i..], o)
    requires RecordEnd(DecodeCentralDirectoryRecord(cd, o), o) == next && NameBytes(cd, o) == name
    ensures Walkable(cd, os[i + 1..], next) && Names(cd, os[i..], o) == [name] + Names(cd, os[i + 1..], next)
  {
    assert os[i..][1..] == os[i + 1..];
  }

  /** …and the second pass reads its names. */
  lemma {:induction false} PlainDirectoryNames(cd: seq<byte>, d: nat, os: seq<nat>, cs: seq<CentralDirectoryRecord>, ns: seq<Name>, i: nat, o: nat)
    requires PlainDirectory(cd, d, os, cs, ns) && i <= |os| && (i < |os| ==> o == os[i]) && Walkable(cd, os[i..], o)
    ensures Names(cd, os[i..], o) == ns[i..]
    decreases |os| - i
  {
    if i < |os| {
      var next := Next(os, i, |cd|);
      PlainRecordRead(cd, d, os, cs, ns, i, o, next);
      NamesStep(cd, os, i, o, next, ns[i]);
      PlainDirectoryNames(cd, d, os, cs, ns, i + 1, next);
      assert ns[i..] == [ns[i]] + ns[i + 1..];
    }
  }

  /** A plain directory is refused exactly if a name repeats; otherwise it is indexed under its names. */
  lemma PlainDirectoryReads(cd: seq<byte>, d: nat, os: seq<nat>, cs: seq<CentralDirectoryRecord>, ns: seq<Name>)
    requires PlainDirectory(cd, d, os, cs, ns)
    ensures var r := ReadDirectory(cd, d, |os|);
            && (Distinct(ns) ==> r.Ok? && Extends(r.value, map[], ns, os))
            && (!Distinct(ns) ==> r == Err(DuplicateEntry))
  {
    PlainDirectoryChecks(cd, d, os, cs, ns);
    FirstPassWalkable(cd, d, |os|, 0);
    assert os[0..] == os && ns[0..] == ns;
    PlainDirectoryNames(cd, d, os, cs, ns, 0, 0);
    IndexExactly(cd, os, 0, map[]);
  }

  function RecordOffsets(es: seq<Entry>): (os: seq<nat>)
    ensures |os| == |es|
  {
    seq(|es|, i requires 0 <= i < |es| => RecordOffset(es, i))
  }

  function EntryNames(es: seq<Entry>): (ns: seq<Name>)
    ensures |ns| == |es|
  {
    seq(|es|, i requires 0 <= i < |es| => es[i].name)
  }

  function DirectoryRecords(m: Mode, es: seq<Entry>): (cs: seq<CentralDirectoryRecord>)
    ensures |cs| == |es|
  {
    seq(|es|, i requires 0 <= i < |es| => RecordOf(m, es, i))
  }

  lemma RecordFields(m: Mode, es: seq<Entry>, i: nat, c: CentralDirectoryRecord, d: nat)
    requires Fitting(m, es) && i < |es| && c == RecordOf(m, es, i) && d == End(m, es)
    ensures c.signature == CDR_SIGNATURE && c.fileNameLength == |es[i].name| && c.extraFieldLength == 0 && c.commentLength == 0
    ensures c.localFileHeaderOffset == OffsetOf(m, es, i) && c.localFileHeaderOffset < d < U32_MAX
  {
    EntriesFit(m, es, i);
    FittingBounds(m, es);
  }

  lemma RecordIsPlain(m: Mode, es: seq<Entry>, i: nat, o: nat, d: nat, cd: seq<byte>, c: CentralDirectoryRecord, name: Name)
    requires Fitting(m, es) && i < |es| && name == es[i].name && ValidName(name) && c == RecordOf(m, es, i)
    requires o == RecordOffset(es, i) && d == End(m, es) && cd == Directory(m, es, |es|)
    ensures PlainRecord(cd, o, d, c, name)
  {
    RecordAt(m, es, i, o, cd, name);
    RecordFields(m, es, i, c, d);
  }

  lemma DirectoryIsPlain(m: Mode, es: seq<Entry>)
    requires Fitting(m, es) && ValidNames(es)
    ensures PlainDirectory(Directory(m, es, |es|), End(m, es), RecordOffsets(es), DirectoryRecords(m, es), EntryNames(es))
  {
    var cd, os, cs, ns := Directory(m, es, |es|), RecordOffsets(es), DirectoryRecords(m, es), EntryNames(es);
    DirectoryLength(m, es, |es|);
    forall i | 0 <= i < |os| ensures PlainAt(cd, End(m, es), os, cs, ns, i) {
      RecordIsPlain(m, es, i, os[i], End(m, es), cd, cs[i], ns[i]);
      RecordsMeet(es, i);
    }
  }

  /** Each record ends where the next one starts. */
  lemma RecordsMeet(es: seq<Entry>, i: nat)
    requires i < |es|
    ensures RecordOffsets(es)[i] + CDR_SIZE + |EntryNames(es)[i]| == Next(RecordOffsets(es), i, RecordOffset(es, |es|))
  {
    assert RecordOffset(es, i + 1) == RecordOffset(es, i) + CDR_SIZE + |es[i].name|;
  }

  // ----- opening -----

  /** Opening reduces to reading the directory, once the end record and the first signature are in place. */
  lemma OpensFrom(file: seq<byte>, layout: seq<byte>, cd: seq<byte>, tail: seq<byte>, n: nat)
    requires file == layout + cd + tail && |file| >= EOCD_SIZE
    requires FindCentralDirectory(file) == Ok(CentralDirectoryInfo(n, |cd|, |layout|)) && Get32(file, 0) == LFH_SIGNATURE
    ensures Open(file) == Accept(Archive(file, |layout|, cd, n), ReadDirectory(cd, |layout|, n))
  {
    assert file[|layout|..|layout| + |cd|] == cd;
  }

  /** The open archive that a list of entries should read back as. */
  function Reopened(m: Mode, es: seq<Entry>): (a: Archive) {
    Archive(ArchiveBytes(m, es), End(m, es), Directory(m, es, |es|), |es|)
  }

  lemma StartsWithSignature(m: Mode, es: seq<Entry>)
    requires es != []
    ensures |ArchiveBytes(m, es)| >= EOCD_SIZE && Get32(ArchiveBytes(m, es), 0) == LFH_SIGNATURE
  {
    EntryStored(m, es, 0, ArchiveBytes(m, es), 0);
    assert DecodeLocalFileHeader(ArchiveBytes(m, es), 0).signature == LFH_SIGNATURE;
  }

  /** An archive opens exactly if it has entries and no name repeats. */
  lemma ArchiveOpens(m: Mode, es: seq<Entry>)
    requires Fitting(m, es) && ValidNames(es)
    ensures es == [] ==> Open(ArchiveBytes(m, es)) == Err(EmptyArchive)
    ensures es != [] && !Distinct(EntryNames(es)) ==> Open(ArchiveBytes(m, es)) == Err(DuplicateEntry)
    ensures es != [] && Distinct(EntryNames(es)) ==>
      var r := Open(ArchiveBytes(m, es));
      r.Ok? && r.value.archive == Reopened(m, es) && Extends(r.value.index, map[], EntryNames(es), RecordOffsets(es))
  {
    FindsDirectory(m, es);
    if es != [] {
      var layout, cd := Layout(m, es), Directory(m, es, |es|);
      LayoutLength(m, es);
      DirectoryLength(m, es, |es|);
      StartsWithSignature(m, es);
      OpensFrom(ArchiveBytes(m, es), layout, cd, EncodeEocdRecord(EndRecordOf(m, es)), |es|);
      DirectoryIsPlain(m, es);
      PlainDirectoryReads(cd, End(m, es), RecordOffsets(es), DirectoryRecords(m, es), EntryNames(es));
    }
  }

  // ----- finding entries -----

  /** The two headers of a stored entry agree, or the local one defers to a descriptor. */
  ghost predicate HeadersAgree(c: CentralDirectoryRecord, h: LocalFileHeader, length: nat, descriptor: bool) {
    && c.compressionMethod == COMPRESS_STORED && c.compressedSize == c.uncompressedSize == length < U32_MAX
    && h.gpbFlags == (if descriptor then DATA_DESCRIPTOR_FLAG else 0)
    && h.compressedSize == h.uncompressedSize == (if descriptor then 0 else length)
    && (!descriptor ==> h.crc32 == c.crc32)
  }

  lemma CentralRead(cd: seq<byte>, o: nat, d: nat, c: CentralDirectoryRecord, name: Name)
    requires PlainRecord(cd, o, d, c, name) && c.compressedSize < U32_MAX && c.uncompressedSize < U32_MAX
    ensures RecordInside(cd, o + CDR_SIZE)
    ensures ReadCentral(cd, o + CDR_SIZE) == Ok(Central(c.localFileHeaderOffset, c.compressedSize, c.uncompressedSize))
  {}

  lemma LocalRead(a: Archive, at: nat, h: LocalFileHeader, name: Name, data: seq<byte>)
    requires StoredAt(a.file, at, h, name, data) && |name| <= U16_MAX
    requires at + LFH_SIZE < a.directoryOffset && at + LFH_SIZE + |name| <= a.directoryOffset
    ensures ReadLocalHeader(a, name, at) == Ok(h)
  {}

  lemma EntryChecks(c: CentralDirectoryRecord, h: LocalFileHeader, length: nat, descriptor: bool, dataOffset: nat, d: nat)
    requires HeadersAgree(c, h, length, descriptor) && dataOffset + length <= d
    ensures var r := CheckEntry(c, Central(c.localFileHeaderOffset, c.compressedSize, c.uncompressedSize), h, (h.compressedSize, h.uncompressedSize), dataOffset, d);
            && r.Ok? && r.value.compressionMethod == COMPRESS_STORED && r.value.offset == dataOffset
            && r.value.compressedLength == r.value.uncompressedLength == length
            && r.value.crc32 == c.crc32 && r.value.hasDataDescriptor == descriptor
            && r.value.modTime == Stamp(c.lastModDate, c.lastModTime)
  {}

  /** A lookup that returns the stored payload `data` at `offset`. */
  ghost predicate FoundAt(r: Result<ZipEntry>, file: seq<byte>, offset: nat, data: seq<byte>, crc: u32, descriptor: bool, stamp: nat) {
    && r.Ok? && r.value.offset == offset && r.value.compressionMethod == COMPRESS_STORED
    && r.value.compressedLength == r.value.uncompressedLength == |data|
    && r.value.crc32 == crc && r.value.hasDataDescriptor == descriptor && r.value.modTime == stamp
    && offset + |data| <= |file| && file[offset..offset + |data|] == data
  }

  lemma PlainLookup(a: Archive, o: nat, c: CentralDirectoryRecord, h: LocalFileHeader, name: Name, data: seq<byte>)
    requires PlainRecord(a.cd, o, a.directoryOffset, c, name) && c.compressedSize < U32_MAX && c.uncompressedSize < U32_MAX
    requires StoredAt(a.file, c.localFileHeaderOffset, h, name, data) && h.compressedSize < U32_MAX && h.uncompressedSize < U32_MAX
    requires c.localFileHeaderOffset + LFH_SIZE < a.directoryOffset && c.localFileHeaderOffset + LFH_SIZE + |name| <= a.directoryOffset
    ensures RecordInside(a.cd, o + CDR_SIZE) && |name| <= U16_MAX
    ensures FindEntryAt(a, name, o + CDR_SIZE) ==
              CheckEntry(c, Central(c.localFileHeaderOffset, c.compressedSize, c.uncompressedSize), h, (h.compressedSize, h.uncompressedSize),
                         c.localFileHeaderOffset + LFH_SIZE + |name| + h.extraFieldLength, a.directoryOffset)
  {
    CentralRead(a.cd, o, a.directoryOffset, c, name);
    LocalRead(a, c.localFileHeaderOffset, h, name, data);
  }

  /** An entry with a plain record at `o` that is stored, with agreeing headers, before the directory. */
  ghost predicate Retrievable(a: Archive, o: nat, c: CentralDirectoryRecord, h: LocalFileHeader, name: Name,
                              offset: nat, data: seq<byte>, crc: u32, descriptor: bool, stamp: nat)
  {
    && PlainRecord(a.cd, o, a.directoryOffset, c, name) && c.localFileHeaderOffset + LFH_SIZE < a.directoryOffset
    && c.crc32 == crc && stamp == Stamp(c.lastModDate, c.lastModTime)
    && StoredAt(a.file, c.localFileHeaderOffset, h, name, data) && HeadersAgree(c, h, |data|, descriptor)
    && offset == c.localFileHeaderOffset + LFH_SIZE + |name| + h.extraFieldLength && offset + |data| <= a.directoryOffset
  }

  lemma RetrievableIsFound(a: Archive, o: nat, c: CentralDirectoryRecord, h: LocalFileHeader, name: Name,
                           offset: nat, data: seq<byte>, crc: u32, descriptor: bool, stamp: nat)
    requires Retrievable(a, o, c, h, name, offset, data, crc, descriptor, stamp)
    ensures RecordInside(a.cd, o + CDR_SIZE) && |name| <= U16_MAX
    ensures FoundAt(FindEntryAt(a, name, o + CDR_SIZE), a.file, offset, data, crc, descriptor, stamp)
  {
    PlainLookup(a, o, c, h, name, data);
    EntryChecks(c, h, |data|, descriptor, offset, a.directoryOffset);
  }

  lemma WrittenHeadersAgree(m: Mode, es: seq<Entry>, i: nat)
    requires Fitting(m, es) && i < |es|
    ensures HeadersAgree(RecordOf(m, es, i), HeaderOf(m, es[i]), |es[i].data|, m.descriptors)
    ensures HeaderOf(m, es[i]).extraFieldLength == es[i].padding
  {
    EntriesFit(m, es, i);
    FittingBounds(m, es);
  }

  function DataOffset(m: Mode, es: seq<Entry>, i: nat): (o: nat)
    requires i < |es|
  {
    OffsetOf(m, es, i) + LFH_SIZE + |es[i].name| + es[i].padding
  }

  /** Something follows the fixed part of the local header before the directory starts. */
  predicate Reachable(m: Mode, es: seq<Entry>, i: nat)
    requires i < |es|
  {
    OffsetOf(m, es, i) + LFH_SIZE < End(m, es)
  }

  /** Only a last entry with no name, padding, data or descriptor is out of reach. */
  lemma UnreachableExactly(m: Mode, es: seq<Entry>, i: nat)
    requires i < |es|
    ensures !Reachable(m, es, i) <==> i == |es| - 1 && es[i].name == [] && es[i].padding == 0 && es[i].data == [] && !m.descriptors
  {
    EntriesFit(m, es, i);
    if i < |es| - 1 { EntriesFit(m, es, i + 1); }
  }

  lemma EntryRetrievable(m: Mode, es: seq<Entry>, i: nat)
    requires Fitting(m, es) && i < |es| && ValidName(es[i].name) && Reachable(m, es, i)
    ensures Retrievable(Reopened(m, es), RecordOffset(es, i), RecordOf(m, es, i), HeaderOf(m, es[i]), es[i].name,
                        DataOffset(m, es, i), es[i].data, Checksum(m.crc, 0, es[i].data), m.descriptors, Stamp(es[i].date, es[i].time))
  {
    RecordIsPlain(m, es, i, RecordOffset(es, i), End(m, es), Directory(m, es, |es|), RecordOf(m, es, i), es[i].name);
    RecordFields(m, es, i, RecordOf(m, es, i), End(m, es));
    EntriesFit(m, es, i);
    EntryStored(m, es, i, ArchiveBytes(m, es), OffsetOf(m, es, i));
    WrittenHeadersAgree(m, es, i);
  }

  lemma EntryFound(m: Mode, es: seq<Entry>, i: nat, o: nat, offset: nat, crc: u32)
    requires Fitting(m, es) && i < |es| && ValidName(es[i].name) && Reachable(m, es, i)
    requires o == RecordOffset(es, i) && offset == DataOffset(m, es, i) && crc == Checksum(m.crc, 0, es[i].data)
    ensures RecordInside(Reopened(m, es).cd, o + CDR_SIZE)
    ensures FoundAt(FindEntryAt(Reopened(m, es), es[i].name, o + CDR_SIZE), Reopened(m, es).file, offset, es[i].data, crc, m.descriptors, Stamp(es[i].date, es[i].time))
  {
    EntryRetrievable(m, es, i);
    RetrievableIsFound(Reopened(m, es), o, RecordOf(m, es, i), HeaderOf(m, es[i]), es[i].name, offset, es[i].data, crc, m.descriptors, Stamp(es[i].date, es[i].time));
  }

  lemma HeaderTooFar(a: Archive, o: nat, c: CentralDirectoryRecord, name: Name)
    requires PlainRecord(a.cd, o, a.directoryOffset, c, name) && c.compressedSize < U32_MAX && c.uncompressedSize < U32_MAX
    requires c.localFileHeaderOffset + LFH_SIZE >= a.directoryOffset
    ensures RecordInside(a.cd, o + CDR_SIZE) && |name| <= U16_MAX && FindEntryAt(a, name, o + CDR_SIZE) == Err(InvalidOffset)
  {
    CentralRead(a.cd, o, a.directoryOffset, c, name);
  }

  lemma EntryOutOfReach(m: Mode, es: seq<Entry>, i: nat, o: nat)
    requires Fitting(m, es) && i < |es| && ValidName(es[i].name) && !Reachable(m, es, i) && o == RecordOffset(es, i)
    ensures RecordInside(Reopened(m, es).cd, o + CDR_SIZE) && FindEntryAt(Reopened(m, es), es[i].name, o + CDR_SIZE) == Err(InvalidOffset)
  {
    var c := RecordOf(m, es, i);
    RecordIsPlain(m, es, i, o, End(m, es), Directory(m, es, |es|), c, es[i].name);
    RecordFields(m, es, i, c, End(m, es));
    ShortData(m, es, i);
    HeaderTooFar(Reopened(m, es), o, c, es[i].name);
  }

  /** A written entry is read through its directory record if and only if it is in reach. */
  lemma EntryReadableExactly(m: Mode, es: seq<Entry>, i: nat, o: nat)
    requires Fitting(m, es) && i < |es| && ValidName(es[i].name) && o == RecordOffset(es, i)
    ensures RecordInside(Reopened(m, es).cd, o + CDR_SIZE)
    ensures FindEntryAt(Reopened(m, es), es[i].name, o + CDR_SIZE).Ok? <==> Reachable(m, es, i)
  {
    if Reachable(m, es, i) {
      EntryFound(m, es, i, o, DataOffset(m, es, i), Checksum(m.crc, 0, es[i].data));
    } else {
      EntryOutOfReach(m, es, i, o);
    }
  }

  lemma IndexedAt(es: seq<Entry>, index: map<Name, nat>, i: nat)
    requires i < |es| && Extends(index, map[], EntryNames(es), RecordOffsets(es))
    ensures es[i].name in index && index[es[i].name] == RecordOffset(es, i) + CDR_SIZE
  {
    assert EntryNames(es)[i] == es[i].name && RecordOffsets(es)[i] == RecordOffset(es, i);
  }

  // ----- descriptors -----

  lemma PlainDescriptorValid(file: seq<byte>, e: ZipEntry, at: nat, length: nat)
    requires e.compressionMethod == COMPRESS_STORED && e.compressedLength == e.uncompressedLength == length < U32_MAX
    requires at == e.offset + length && at + 24 <= |file|
    requires file[at..at + 16] == DescriptorBytes(e.crc32, length)
    ensures ValidateDataDescriptor(file, e) == None
  {
    var ps := [Put32(DATA_DESCRIPTOR_SIGNATURE), Put32(e.crc32), Put32(length), Put32(length)];
    var enc := Flatten(ps);
    assert ps[..4] == ps;
    FlattenSlice(ps, 0);
    FlattenSlice(ps, 1);
    FlattenSlice(ps, 2);
    FlattenSlice(ps, 3);
    Field32(file, at, enc, 0, DATA_DESCRIPTOR_SIGNATURE);
    Field32(file, at, enc, 4, e.crc32);
    Field32(file, at, enc, 8, length);
    Field32(file, at, enc, 12, length);
  }

  /** The sixteen bytes of a descriptor. */
  function DescriptorBytes(crc: u32, length: u32): (s: seq<byte>) {
    Flatten([Put32(DATA_DESCRIPTOR_SIGNATURE), Put32(crc), Put32(length), Put32(length)])
  }

  /** There is room for a whole descriptor read behind every entry. */
  lemma DescriptorFits(m: Mode, es: seq<Entry>, i: nat, at: nat)
    requires i < |es| && m.descriptors && at == DataOffset(m, es, i) + |es[i].data|
    ensures at + 24 <= |ArchiveBytes(m, es)|
  {
    EntriesFit(m, es, i);
    LayoutLength(m, es);
    DirectoryLength(m, es, |es|);
  }

  lemma DescriptorAt(m: Mode, es: seq<Entry>, i: nat, file: seq<byte>, at: nat)
    requires i < |es| && m.descriptors && Layout(m, es) <= file
    requires at == DataOffset(m, es, i) + |es[i].data|
    ensures at + 16 <= |file| && file[at..at + 16] == Trailer(m, es[i])
  {
    EntryStored(m, es, i, file, OffsetOf(m, es, i));
  }

  lemma ShortData(m: Mode, es: seq<Entry>, i: nat)
    requires Fitting(m, es) && i < |es|
    ensures |es[i].data| < U32_MAX
  {
    EntriesFit(m, es, i);
    FittingBounds(m, es);
  }

  lemma DescriptorWritten(m: Mode, es: seq<Entry>, i: nat, file: seq<byte>, at: nat, length: nat, crc: u32)
    requires Fitting(m, es) && i < |es| && m.descriptors && file == ArchiveBytes(m, es)
    requires at == DataOffset(m, es, i) + length && length == |es[i].data| && crc == Checksum(m.crc, 0, es[i].data)
    ensures length < U32_MAX && at + 24 <= |file| && file[at..at + 16] == DescriptorBytes(crc, length)
  {
    ShortData(m, es, i);
    DescriptorFits(m, es, i, at);
    DescriptorAt(m, es, i, file, at);
    DescriptorPieces(m, es[i], crc);
  }

  /** In descriptor mode the trailing descriptor of every entry validates. */
  lemma DescriptorValid(m: Mode, es: seq<Entry>, i: nat, e: ZipEntry, file: seq<byte>, offset: nat, data: seq<byte>, crc: u32)
    requires Fitting(m, es) && i < |es| && m.descriptors && file == ArchiveBytes(m, es)
    requires offset == DataOffset(m, es, i) && data == es[i].data && crc == Checksum(m.crc, 0, data)
    requires FoundAt(Ok(e), file, offset, data, crc, true, e.modTime)
    ensures ValidateDataDescriptor(file, e) == None
  {
    var at, length := offset + |data|, |data|;
    DescriptorWritten(m, es, i, file, at, length, crc);
    PlainDescriptorValid(file, e, at, length);
  }

  lemma DescriptorPieces(m: Mode, e: Entry, crc: u32)
    requires m.descriptors && crc == Checksum(m.crc, 0, e.data)
    ensures Trailer(m, e) == DescriptorBytes(crc, |e.data|)
  {
    var a, b, c := Put32(DATA_DESCRIPTOR_SIGNATURE), Put32(crc), Put32(|e.data|);
    FlattenAppend([], a);
    FlattenAppend([a], b);
    FlattenAppend([a, b], c);
    FlattenAppend([a, b, c], c);
    assert [] + [a] == [a] && [a] + [b] == [a, b] && [a, b] + [c] == [a, b, c] && [a, b, c] + [c] == [a, b, c, c];
  }
}
