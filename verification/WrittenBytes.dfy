/** The finished file byte by byte. Every field that the writer leaves is at its place in the packed structs of
    PKWARE APPNOTE.TXT (sections 4.3.7, 4.3.9, 4.3.12 and 4.3.16), also the ones no reader looks at. */
module WrittenBytes {
  import opened Bytes
  import opened ZipFormat
  import opened ZipLayout
  import opened RoundTrip
  import opened WrittenArchives
  import W = ZipWriter

  /** A stretch of bytes at its place. */
  ghost predicate At(s: seq<byte>, o: nat, part: seq<byte>) {
    o + |part| <= |s| && s[o..o + |part|] == part
  }

  /** The fixed part of a local header. With a descriptor the flag is set, and checksum and sizes are zero. */
  ghost predicate HeaderBytes(file: seq<byte>, o: nat, e: Entry, crc: u32, descriptor: bool) {
    && o + 30 <= |file|
    && Get32(file, o) == 0x04034b50 && Get16(file, o + 4) == 0
    && Get16(file, o + 6) == (if descriptor then 8 else 0) && Get16(file, o + 8) == 0
    && Get16(file, o + 10) == e.time && Get16(file, o + 12) == e.date
    && Get32(file, o + 14) == (if descriptor then 0 else crc)
    && Get32(file, o + 18) == (if descriptor then 0 else |e.data|) && Get32(file, o + 22) == (if descriptor then 0 else |e.data|)
    && Get16(file, o + 26) == |e.name| && Get16(file, o + 28) == e.padding
  }

  /** An entry at `o`: header, name, zero padding, data, and a descriptor if the header could not
      be patched. */
  ghost predicate LocalBytes(file: seq<byte>, o: nat, e: Entry, crc: u32, descriptor: bool) {
    var pad := o + 30 + |e.name|;
    var data := pad + e.padding;
    && HeaderBytes(file, o, e, crc, descriptor)
    && At(file, o + 30, e.name) && At(file, pad, Zeros(e.padding)) && At(file, data, e.data)
    && (descriptor ==> DescriptorBytes(file, data + |e.data|, crc, |e.data|))
  }

  ghost predicate DescriptorBytes(file: seq<byte>, o: nat, crc: u32, size: u32) {
    o + 16 <= |file| && Get32(file, o) == 0x08074b50 && Get32(file, o + 4) == crc && Get32(file, o + 8) == size && Get32(file, o + 12) == size
  }

  /** The directory record at `o` of an entry at `local`. */
  ghost predicate CentralBytes(file: seq<byte>, o: nat, e: Entry, crc: u32, descriptor: bool, local: nat) {
    && o + 46 <= |file| && At(file, o + 46, e.name)
    && Get32(file, o) == 0x02014b50 && Get16(file, o + 4) == 0 && Get16(file, o + 6) == 0
    && Get16(file, o + 8) == (if descriptor then 8 else 0) && Get16(file, o + 10) == 0
    && Get16(file, o + 12) == e.time && Get16(file, o + 14) == e.date && Get32(file, o + 16) == crc
    && Get32(file, o + 20) == |e.data| && Get32(file, o + 24) == |e.data|
    && Get16(file, o + 28) == |e.name| && Get16(file, o + 30) == 0 && Get16(file, o + 32) == 0
    && Get16(file, o + 34) == 0 && Get16(file, o + 36) == 0 && Get32(file, o + 38) == 0 && Get32(file, o + 42) == local
  }

  /** The end record at `o` of a directory of `n` records in `size` bytes from `start` on; nothing follows it. */
  ghost predicate EndBytes(file: seq<byte>, o: nat, n: nat, size: nat, start: nat) {
    && |file| == o + 22 && Get32(file, o) == 0x06054b50 && Get16(file, o + 4) == 0 && Get16(file, o + 6) == 0
    && Get16(file, o + 8) == n && Get16(file, o + 10) == n
    && Get32(file, o + 12) == size && Get32(file, o + 16) == start && Get16(file, o + 20) == 0
  }

  // ----- places -----

  /** A part of a part. */
  lemma Inside(s: seq<byte>, o: nat, part: seq<byte>, i: nat, inner: seq<byte>, p: nat)
    requires At(s, o, part) && At(part, i, inner) && p == o + i
    ensures At(s, p, inner)
  {
    SliceOfSlice(s, o, |part|, i, i + |inner|);
  }

  /** Two stretches in a row, each at its place. */
  lemma Halves(s: seq<byte>, o: nat, a: seq<byte>, b: seq<byte>, p: nat)
    requires At(s, o, a + b) && p == o + |a|
    ensures At(s, o, a) && At(s, p, b)
  {
    assert At(a + b, 0, a) && At(a + b, |a|, b);
    Inside(s, o, a + b, 0, a, o);
    Inside(s, o, a + b, |a|, b, p);
  }

  lemma FiveParts(s: seq<byte>, o: nat, a: seq<byte>, b: seq<byte>, c: seq<byte>, d: seq<byte>, e: seq<byte>, p: nat, q: nat, r: nat, t: nat)
    requires p == o + |a| && q == p + |b| && r == q + |c| && t == r + |d| && At(s, o, a + b + c + d + e)
    ensures At(s, o, a) && At(s, p, b) && At(s, q, c) && At(s, r, d) && At(s, t, e)
  {
    Halves(s, o, a + b + c + d, e, t);
    Halves(s, o, a + b + c, d, r);
    Halves(s, o, a + b, c, q);
    Halves(s, o, a, b, p);
  }

  // ----- entries -----

  lemma TrailerBytes(m: Mode, e: Entry, s: seq<byte>, o: nat, crc: u32, t: seq<byte>)
    requires m.descriptors && t == Trailer(m, e) && At(s, o, t) && crc == Checksum(m.crc, 0, e.data)
    ensures DescriptorBytes(s, o, crc, |e.data|)
  {
    assert t[0..4] == Put32(DATA_DESCRIPTOR_SIGNATURE) && t[4..8] == Put32(crc) && t[8..12] == Put32(|e.data|) && t[12..16] == Put32(|e.data|);
    Field32(s, o, t, 0, DATA_DESCRIPTOR_SIGNATURE);
    Field32(s, o, t, 4, crc);
    Field32(s, o, t, 8, |e.data|);
    Field32(s, o, t, 12, |e.data|);
  }

  lemma HeaderEncoded(m: Mode, e: Entry, s: seq<byte>, o: nat, crc: u32)
    requires At(s, o, EncodeLocalFileHeader(HeaderOf(m, e))) && crc == Checksum(m.crc, 0, e.data)
    ensures HeaderBytes(s, o, e, crc, m.descriptors)
  {
    DecodeLocalFileHeaderAt(s, o, HeaderOf(m, e));
  }

  lemma TileEnds(m: Mode, e: Entry, s: seq<byte>, o: nat, crc: u32, trailer: seq<byte>)
    requires trailer == Trailer(m, e) && At(s, o, trailer) && crc == Checksum(m.crc, 0, e.data)
    ensures m.descriptors ==> DescriptorBytes(s, o, crc, |e.data|)
  {
    if m.descriptors { TrailerBytes(m, e, s, o, crc, trailer); }
  }

  lemma TilePlaces(m: Mode, e: Entry, s: seq<byte>, o: nat, header: seq<byte>, trailer: seq<byte>, pad: nat, data: nat, end: nat)
    requires At(s, o, Tile(m, e)) && header == EncodeLocalFileHeader(HeaderOf(m, e)) && trailer == Trailer(m, e)
    requires pad == o + 30 + |e.name| && data == pad + e.padding && end == data + |e.data|
    ensures At(s, o, header) && At(s, o + 30, e.name) && At(s, pad, Zeros(e.padding)) && At(s, data, e.data) && At(s, end, trailer)
  {
    TileParts(m, e);
    FiveParts(s, o, header, e.name, Zeros(e.padding), e.data, trailer, o + 30, pad, data, end);
  }

  lemma IsLocal(s: seq<byte>, o: nat, e: Entry, crc: u32, descriptor: bool, pad: nat, data: nat, end: nat)
    requires pad == o + 30 + |e.name| && data == pad + e.padding && end == data + |e.data|
    requires HeaderBytes(s, o, e, crc, descriptor) && At(s, o + 30, e.name) && At(s, pad, Zeros(e.padding)) && At(s, data, e.data)
    requires descriptor ==> DescriptorBytes(s, end, crc, |e.data|)
    ensures LocalBytes(s, o, e, crc, descriptor)
  {}

  lemma TileBytes(m: Mode, e: Entry, s: seq<byte>, o: nat, crc: u32, header: seq<byte>, trailer: seq<byte>)
    requires At(s, o, Tile(m, e)) && crc == Checksum(m.crc, 0, e.data)
    requires header == EncodeLocalFileHeader(HeaderOf(m, e)) && trailer == Trailer(m, e)
    ensures LocalBytes(s, o, e, crc, m.descriptors)
  {
    var pad := o + 30 + |e.name|;
    var data, end := pad + e.padding, pad + e.padding + |e.data|;
    TilePlaces(m, e, s, o, header, trailer, pad, data, end);
    HeaderEncoded(m, e, s, o, crc);
    TileEnds(m, e, s, end, crc, trailer);
    IsLocal(s, o, e, crc, m.descriptors, pad, data, end);
  }

  // ----- the directory -----

  lemma RecordEncoded(e: Entry, r: CentralDirectoryRecord, s: seq<byte>, o: nat, crc: u32, descriptor: bool, local: u32)
    requires At(s, o, EncodeCentralDirectoryRecord(r)) && At(s, o + CDR_SIZE, e.name)
    requires r == CentralDirectoryRecord(CDR_SIGNATURE, 0, 0, if descriptor then 8 else 0, 0, e.time, e.date, crc, |e.data|, |e.data|, |e.name|, 0, 0, 0, 0, 0, local)
    ensures CentralBytes(s, o, e, crc, descriptor, local)
  {
    DecodeCentralDirectoryRecordAt(s, o, r);
  }

  lemma EndEncoded(s: seq<byte>, o: nat, r: EocdRecord, n: u16, size: u32, start: u32)
    requires |s| == o + EOCD_SIZE && At(s, o, EncodeEocdRecord(r)) && r == EocdRecord(EOCD_SIGNATURE, 0, 0, n, n, size, start, 0)
    ensures EndBytes(s, o, n, size, start)
  {
    DecodeEocdRecordAt(s, o, r);
  }

  // ----- the whole file -----

  /** Where entries and records start: each right behind the one before. */
  ghost predicate BackToBack(m: Mode, es: seq<Entry>, os: seq<nat>, rs: seq<nat>) {
    && |os| == |rs| == |es| + 1 && os[0] == 0 && rs[0] == os[|es|]
    && forall i :: 0 <= i < |es| ==> Meets(m, es, os, rs, i)
  }

  ghost predicate Meets(m: Mode, es: seq<Entry>, os: seq<nat>, rs: seq<nat>, i: nat)
    requires i < |es| && |os| == |rs| == |es| + 1
  {
    && os[i + 1] == os[i] + 30 + |es[i].name| + es[i].padding + |es[i].data| + (if m.descriptors then 16 else 0)
    && rs[i + 1] == rs[i] + 46 + |es[i].name|
  }

  ghost predicate EntryBytes(file: seq<byte>, m: Mode, e: Entry, o: nat, r: nat) {
    && LocalBytes(file, o, e, Checksum(m.crc, 0, e.data), m.descriptors)
    && CentralBytes(file, r, e, Checksum(m.crc, 0, e.data), m.descriptors, o)
  }

  function Starts(m: Mode, es: seq<Entry>): (os: seq<nat>) {
    seq(|es| + 1, i requires 0 <= i <= |es| => OffsetOf(m, es, i))
  }

  function RecordStarts(m: Mode, es: seq<Entry>): (rs: seq<nat>) {
    seq(|es| + 1, i requires 0 <= i <= |es| => End(m, es) + RecordOffset(es, i))
  }

  lemma StartsMeet(m: Mode, es: seq<Entry>)
    ensures BackToBack(m, es, Starts(m, es), RecordStarts(m, es))
  {
    var os, rs := Starts(m, es), RecordStarts(m, es);
    forall i | 0 <= i < |es| ensures Meets(m, es, os, rs, i) {
      StepFrom(m, es, i, OffsetOf(m, es, i), RecordOffset(es, i));
    }
  }

  lemma StepFrom(m: Mode, es: seq<Entry>, i: nat, o: nat, p: nat)
    requires i < |es| && o == OffsetOf(m, es, i) && p == RecordOffset(es, i)
    ensures OffsetOf(m, es, i + 1) == o + TileLength(m, es[i]) && RecordOffset(es, i + 1) == p + CDR_SIZE + |es[i].name|
  {}

  /** The three stretches of a file, each at its place. */
  lemma Stretches(file: seq<byte>, a: seq<byte>, b: seq<byte>, c: seq<byte>, p: nat, q: nat)
    requires file == a + b + c && p == |a| && q == p + |b|
    ensures a <= file && At(file, p, b) && At(file, q, c) && |file| == q + |c|
  {}

  lemma LocalWritten(m: Mode, es: seq<Entry>, i: nat, file: seq<byte>, o: nat, crc: u32)
    requires i < |es| && Layout(m, es) <= file && o == OffsetOf(m, es, i) && crc == Checksum(m.crc, 0, es[i].data)
    ensures LocalBytes(file, o, es[i], crc, m.descriptors)
  {
    TileIn(m, es, i, file, o, TileLength(m, es[i]));
    TileBytes(m, es[i], file, o, crc, EncodeLocalFileHeader(HeaderOf(m, es[i])), Trailer(m, es[i]));
  }

  lemma RecordPlace(m: Mode, es: seq<Entry>, i: nat, cd: seq<byte>, p: nat, record: seq<byte>)
    requires i < |es| && cd == Directory(m, es, |es|) && p == RecordOffset(es, i) && record == EncodeCentralDirectoryRecord(RecordOf(m, es, i))
    ensures At(cd, p, record + es[i].name)
  {
    RecordBytesAt(m, es, i, p, p + CDR_SIZE + |es[i].name|);
  }

  lemma RecordInFile(m: Mode, es: seq<Entry>, i: nat, file: seq<byte>, cd: seq<byte>, p: nat, d: nat, r: nat, record: seq<byte>, name: seq<byte>)
    requires i < |es| && cd == Directory(m, es, |es|) && At(file, d, cd) && p == RecordOffset(es, i) && r == d + p
    requires record == EncodeCentralDirectoryRecord(RecordOf(m, es, i)) && name == es[i].name
    ensures At(file, r, record) && At(file, r + CDR_SIZE, name)
  {
    RecordPlace(m, es, i, cd, p, record);
    InsideHalves(file, d, cd, p, record, name, r, r + CDR_SIZE);
  }

  lemma InsideHalves(s: seq<byte>, o: nat, part: seq<byte>, i: nat, a: seq<byte>, b: seq<byte>, p: nat, q: nat)
    requires At(s, o, part) && At(part, i, a + b) && p == o + i && q == p + |a|
    ensures At(s, p, a) && At(s, q, b)
  {
    Inside(s, o, part, i, a + b, p);
    Halves(s, p, a, b, q);
  }

  lemma CentralWritten(m: Mode, es: seq<Entry>, i: nat, file: seq<byte>, cd: seq<byte>, o: nat, p: nat, d: nat, r: nat, crc: u32, c: CentralDirectoryRecord)
    requires i < |es| && cd == Directory(m, es, |es|) && At(file, d, cd) && crc == Checksum(m.crc, 0, es[i].data)
    requires o == OffsetOf(m, es, i) <= U32_MAX && p == RecordOffset(es, i) && r == d + p && c == RecordOf(m, es, i)
    ensures CentralBytes(file, r, es[i], crc, m.descriptors, o)
  {
    RecordInFile(m, es, i, file, cd, p, d, r, EncodeCentralDirectoryRecord(c), es[i].name);
    RecordEncoded(es[i], c, file, r, crc, m.descriptors, o);
  }

  lemma EntryWritten(m: Mode, es: seq<Entry>, i: nat, file: seq<byte>, o: nat, p: nat, d: nat, r: nat)
    requires Fitting(m, es) && i < |es| && Layout(m, es) <= file && At(file, d, Directory(m, es, |es|))
    requires o == OffsetOf(m, es, i) && p == RecordOffset(es, i) && d == End(m, es) && r == d + p
    ensures EntryBytes(file, m, es[i], o, r)
  {
    EntriesFit(m, es, i);
    FittingBounds(m, es);
    LocalWritten(m, es, i, file, o, Checksum(m.crc, 0, es[i].data));
    CentralWritten(m, es, i, file, Directory(m, es, |es|), o, p, d, r, Checksum(m.crc, 0, es[i].data), RecordOf(m, es, i));
  }

  lemma FilePlaces(m: Mode, es: seq<Entry>, file: seq<byte>, layout: seq<byte>, cd: seq<byte>, end: seq<byte>, d: nat, q: nat)
    requires file == ArchiveBytes(m, es) && d == End(m, es) && q == d + RecordOffset(es, |es|)
    requires layout == Layout(m, es) && cd == Directory(m, es, |es|) && end == EncodeEocdRecord(EndRecordOf(m, es))
    ensures layout <= file && At(file, d, cd) && At(file, q, end) && |file| == q + EOCD_SIZE
  {
    LayoutLength(m, es);
    DirectoryLength(m, es, |es|);
    Stretches(file, layout, cd, end, d, q);
  }

  lemma EntriesWritten(m: Mode, es: seq<Entry>, file: seq<byte>, os: seq<nat>, rs: seq<nat>)
    requires Fitting(m, es) && Layout(m, es) <= file && At(file, End(m, es), Directory(m, es, |es|))
    requires os == Starts(m, es) && rs == RecordStarts(m, es)
    ensures forall i :: 0 <= i < |es| ==> EntryBytes(file, m, es[i], os[i], rs[i])
  {
    forall i | 0 <= i < |es| ensures EntryBytes(file, m, es[i], os[i], rs[i]) {
      EntryWritten(m, es, i, file, os[i], RecordOffset(es, i), End(m, es), rs[i]);
    }
  }

  lemma EndWritten(m: Mode, es: seq<Entry>, file: seq<byte>, d: nat, size: nat, q: nat)
    requires Fitting(m, es) && d == End(m, es) && size == RecordOffset(es, |es|) && q == d + size
    requires |file| == q + EOCD_SIZE && At(file, q, EncodeEocdRecord(EndRecordOf(m, es)))
    ensures EndBytes(file, q, |es|, size, d)
  {
    EndRecordFields(m, es);
    EndEncoded(file, q, EndRecordOf(m, es), |es|, size, d);
  }

  /** Every byte of a file that a run of the writer finished: entries back to back from the start, then a record
      for each, then the end record, and each field has the value it should have. */
  lemma FinishedBytes(m: Mode, ops: seq<W.Op>, es: seq<Entry>, file: seq<byte>) returns (os: seq<nat>, rs: seq<nat>)
    requires W.Run(m, W.Fresh(), ops).state == W.Done && es == W.Run(m, W.Fresh(), ops).entries && file == ArchiveBytes(m, es)
    ensures BackToBack(m, es, os, rs)
    ensures forall i :: 0 <= i < |es| ==> EntryBytes(file, m, es[i], os[i], rs[i])
    ensures rs[0] <= rs[|es|] && EndBytes(file, rs[|es|], |es|, rs[|es|] - rs[0], rs[0])
  {
    RunIsSound(m, W.Fresh(), ops);
    os, rs := FittingBytes(m, es, file);
  }

  lemma FittingBytes(m: Mode, es: seq<Entry>, file: seq<byte>) returns (os: seq<nat>, rs: seq<nat>)
    requires Fitting(m, es) && file == ArchiveBytes(m, es)
    ensures BackToBack(m, es, os, rs)
    ensures forall i :: 0 <= i < |es| ==> EntryBytes(file, m, es[i], os[i], rs[i])
    ensures rs[0] <= rs[|es|] && EndBytes(file, rs[|es|], |es|, rs[|es|] - rs[0], rs[0])
  {
    os, rs := Starts(m, es), RecordStarts(m, es);
    StartsMeet(m, es);
    FilePlaces(m, es, file, Layout(m, es), Directory(m, es, |es|), EncodeEocdRecord(EndRecordOf(m, es)), End(m, es), rs[|es|]);
    EntriesWritten(m, es, file, os, rs);
    EndWritten(m, es, file, End(m, es), RecordOffset(es, |es|), rs[|es|]);
  }
}
