/** What a finished zip file looks like: the reference layout that the writer must produce and the
    reader must understand. */
module ZipLayout {
  import opened Bytes
  import opened ZipFormat

  /** One step of a running checksum; the checksum itself is left arbitrary. */
  type Crc = (u32, byte) -> u32

  function Checksum(step: Crc, start: u32, data: seq<byte>): (c: u32)
    decreases |data|
  {
    if data == [] then start else Checksum(step, step(start, data[0]), data[1..])
  }

  lemma {:induction false} ChecksumAppend(step: Crc, start: u32, a: seq<byte>, b: seq<byte>)
    ensures Checksum(step, Checksum(step, start, a), b) == Checksum(step, start, a + b)
    decreases |a|
  {
    if a == [] {
      assert a + b == b;
    } else {
      ChecksumAppend(step, step(start, a[0]), a[1..], b);
      assert (a + b)[1..] == a[1..] + b;
    }
  }

  /** A stored entry as its author sees it. The requested alignment shows in the file only as padding. */
  datatype RawEntry = Entry(name: seq<byte>, time: u16, date: u16, alignment: u32, padding: u16, data: seq<byte>)
  type Entry = e: RawEntry | |e.name| <= U16_MAX && |e.data| <= U32_MAX
    witness Entry([], 0, 0, 0, 0, [])

  /** The writer's bookkeeping for one entry. */
  datatype FileEntry = FileEntry(
    path: seq<byte>,
    compressionMethod: u16,
    crc32: u32,
    compressedSize: u32,
    uncompressedSize: u32,
    lastModTime: u16,
    lastModDate: u16,
    paddingLength: u16,
    localFileHeaderOffset: nat)

  /** The checksum in use, and whether sizes trail the data in descriptors or are patched into the headers. */
  datatype Mode = Mode(crc: Crc, descriptors: bool)

  function Describe(m: Mode, e: Entry, offset: nat): (f: FileEntry) {
    FileEntry(e.name, COMPRESS_STORED, Checksum(m.crc, 0, e.data), |e.data|, |e.data|, e.time, e.date, e.padding, offset)
  }

  /** The local header of an entry; with a trailing descriptor the flag is set and the sizes are zero. */
  function LocalHeader(f: FileEntry, descriptor: bool): (h: LocalFileHeader)
    requires |f.path| <= U16_MAX
  {
    LocalFileHeader(
      LFH_SIGNATURE, 0, if descriptor then DATA_DESCRIPTOR_FLAG else 0, f.compressionMethod, f.lastModTime, f.lastModDate,
      if descriptor then 0 else f.crc32, if descriptor then 0 else f.compressedSize, if descriptor then 0 else f.uncompressedSize,
      |f.path|, f.paddingLength)
  }

  function CentralRecord(f: FileEntry, descriptor: bool): (r: CentralDirectoryRecord)
    requires |f.path| <= U16_MAX
  {
    CentralDirectoryRecord(
      CDR_SIGNATURE, 0, 0, if descriptor then DATA_DESCRIPTOR_FLAG else 0, f.compressionMethod, f.lastModTime, f.lastModDate,
      f.crc32, f.compressedSize, f.uncompressedSize, |f.path|, 0, 0, 0, 0, 0, Low32(f.localFileHeaderOffset))
  }

  function Descriptor(f: FileEntry): (s: seq<byte>)
    ensures |s| == 16
  {
    Put32(DATA_DESCRIPTOR_SIGNATURE) + Put32(f.crc32) + Put32(f.compressedSize) + Put32(f.uncompressedSize)
  }

  /** Header, name and zero padding. The header depends on where the entry starts only through `f`. */
  function Prelude(f: FileEntry, descriptor: bool): (s: seq<byte>)
    requires |f.path| <= U16_MAX
    ensures |s| == LFH_SIZE + |f.path| + f.paddingLength
  {
    EncodeLocalFileHeader(LocalHeader(f, descriptor)) + f.path + Zeros(f.paddingLength)
  }

  /** A finished entry. */
  function Tile(m: Mode, e: Entry): (s: seq<byte>)
    ensures |s| == TileLength(m, e)
  {
    var f := Describe(m, e, 0);
    Prelude(f, m.descriptors) + e.data + if m.descriptors then Descriptor(f) else []
  }

  /** An entry still being written: its header announces a descriptor. */
  function OpenTile(m: Mode, e: Entry): (s: seq<byte>)
    ensures |s| == LFH_SIZE + |e.name| + e.padding + |e.data|
  {
    Prelude(Describe(m, e, 0), true) + e.data
  }

  function Tiles(m: Mode, es: seq<Entry>): (ts: seq<seq<byte>>)
    ensures |ts| == |es|
  {
    seq(|es|, i requires 0 <= i < |es| => Tile(m, es[i]))
  }

  /** The entries back to back. */
  function Layout(m: Mode, es: seq<Entry>): (s: seq<byte>) {
    Flatten(Tiles(m, es))
  }

  function TileLength(m: Mode, e: Entry): (n: nat) {
    LFH_SIZE + |e.name| + e.padding + |e.data| + if m.descriptors then 16 else 0
  }

  /** Where entry `i` starts: the sum of the earlier tiles. */
  function OffsetOf(m: Mode, es: seq<Entry>, i: nat): (o: nat)
    requires i <= |es|
  {
    if i == 0 then 0 else OffsetOf(m, es, i - 1) + TileLength(m, es[i - 1])
  }

  function End(m: Mode, es: seq<Entry>): (o: nat) {
    OffsetOf(m, es, |es|)
  }

  /** Where the directory record of entry `i` starts. */
  function RecordOffset(es: seq<Entry>, i: nat): (o: nat)
    requires i <= |es|
  {
    if i == 0 then 0 else RecordOffset(es, i - 1) + CDR_SIZE + |es[i - 1].name|
  }

  function RecordOf(m: Mode, es: seq<Entry>, i: nat): (r: CentralDirectoryRecord)
    requires i < |es|
  {
    CentralRecord(Describe(m, es[i], OffsetOf(m, es, i)), m.descriptors)
  }

  function RecordBytes(r: CentralDirectoryRecord, name: seq<byte>): (s: seq<byte>)
    ensures |s| == CDR_SIZE + |name|
  {
    EncodeCentralDirectoryRecord(r) + name
  }

  function Records(m: Mode, es: seq<Entry>): (rs: seq<seq<byte>>)
    ensures |rs| == |es|
  {
    seq(|es|, i requires 0 <= i < |es| => RecordBytes(RecordOf(m, es, i), es[i].name))
  }

  /** The central directory records of the first `n` entries. */
  function Directory(m: Mode, es: seq<Entry>, n: nat): (s: seq<byte>)
    requires n <= |es|
  {
    Flatten(Records(m, es)[..n])
  }

  /** The end record of a directory of `n` records that takes `size` bytes from `start` on. */
  function EndRecordFor(n: nat, size: nat, start: nat): (r: EocdRecord) {
    EocdRecord(EOCD_SIGNATURE, 0, 0, Low16(n), Low16(n), Low32(size), Low32(start), 0)
  }

  function EndRecordOf(m: Mode, es: seq<Entry>): (r: EocdRecord) {
    EndRecordFor(|es|, RecordOffset(es, |es|), End(m, es))
  }

  /** The whole file. */
  function ArchiveBytes(m: Mode, es: seq<Entry>): (s: seq<byte>) {
    Layout(m, es) + Directory(m, es, |es|) + EncodeEocdRecord(EndRecordOf(m, es))
  }

  // ----- growth of the open entry -----

  lemma OpenTileGrows(m: Mode, e: Entry, chunk: seq<byte>)
    requires |e.data| + |chunk| <= U32_MAX
    ensures OpenTile(m, e.(data := e.data + chunk)) == OpenTile(m, e) + chunk
  {
    assert LocalHeader(Describe(m, e.(data := e.data + chunk), 0), true) == LocalHeader(Describe(m, e, 0), true);
  }

  lemma OpenTileStarts(m: Mode, e: Entry, offset: nat)
    requires e.data == []
    ensures OpenTile(m, e) == Prelude(Describe(m, e, offset), true)
  {
    HeaderIgnoresOffset(m, e, offset, true);
  }

  lemma HeaderIgnoresOffset(m: Mode, e: Entry, offset: nat, descriptor: bool)
    ensures Prelude(Describe(m, e, offset), descriptor) == Prelude(Describe(m, e, 0), descriptor)
    ensures LocalHeader(Describe(m, e, offset), descriptor) == LocalHeader(Describe(m, e, 0), descriptor)
  {
    assert LocalHeader(Describe(m, e, offset), descriptor) == LocalHeader(Describe(m, e, 0), descriptor);
  }

  /** Patching the header of an open tile in place finishes it, up to the descriptor. */
  lemma PatchedHeader(m: Mode, e: Entry)
    ensures OpenTile(m, e)[LFH_SIZE..] == e.name + Zeros(e.padding) + e.data
    ensures Prelude(Describe(m, e, 0), false) + e.data
         == EncodeLocalFileHeader(LocalHeader(Describe(m, e, 0), false)) + OpenTile(m, e)[LFH_SIZE..]
  {}

  lemma TileWithDescriptor(m: Mode, e: Entry, offset: nat)
    requires m.descriptors
    ensures Tile(m, e) == OpenTile(m, e) + Descriptor(Describe(m, e, offset))
  {
    assert Descriptor(Describe(m, e, offset)) == Descriptor(Describe(m, e, 0));
  }

  lemma TileWithHeader(m: Mode, e: Entry, offset: nat)
    requires !m.descriptors
    ensures Tile(m, e) == EncodeLocalFileHeader(LocalHeader(Describe(m, e, offset), false)) + OpenTile(m, e)[LFH_SIZE..]
  {
    PatchedHeader(m, e);
    HeaderIgnoresOffset(m, e, offset, false);
  }

  // ----- where things are -----

  lemma LayoutAppend(m: Mode, es: seq<Entry>, e: Entry)
    ensures Layout(m, es + [e]) == Layout(m, es) + Tile(m, e)
  {
    assert Tiles(m, es + [e]) == Tiles(m, es) + [Tile(m, e)];
    FlattenAppend(Tiles(m, es), Tile(m, e));
  }

  // ----- offsets -----

  lemma {:induction false} OffsetsGrow(m: Mode, es: seq<Entry>, i: nat, j: nat)
    requires i <= j <= |es|
    ensures OffsetOf(m, es, i) <= OffsetOf(m, es, j)
    ensures RecordOffset(es, i) <= RecordOffset(es, j)
    decreases j
  {
    if i < j { OffsetsGrow(m, es, i, j - 1); }
  }

  lemma {:induction false} OffsetOfPrefix(m: Mode, es: seq<Entry>, fs: seq<Entry>, i: nat)
    requires i <= |es| && i <= |fs| && es[..i] == fs[..i]
    ensures OffsetOf(m, es, i) == OffsetOf(m, fs, i)
    decreases i
  {
    if i > 0 {
      assert es[..i][i - 1] == fs[..i][i - 1];
      assert es[..i - 1] == es[..i][..i - 1] && fs[..i - 1] == fs[..i][..i - 1];
      OffsetOfPrefix(m, es, fs, i - 1);
    }
  }

  lemma {:induction false} SumOfTiles(ts: seq<seq<byte>>, m: Mode, es: seq<Entry>, i: nat)
    requires |ts| == |es| && i <= |es| && forall k :: 0 <= k < |ts| ==> |ts[k]| == TileLength(m, es[k])
    ensures SumLengths(ts, i) == OffsetOf(m, es, i)
    decreases i
  {
    if i > 0 { SumOfTiles(ts, m, es, i - 1); }
  }

  lemma TilesLength(m: Mode, es: seq<Entry>, i: nat)
    requires i <= |es|
    ensures SumLengths(Tiles(m, es), i) == OffsetOf(m, es, i)
  {
    SumOfTiles(Tiles(m, es), m, es, i);
  }

  lemma LayoutLength(m: Mode, es: seq<Entry>)
    ensures |Layout(m, es)| == OffsetOf(m, es, |es|)
  {
    TilesLength(m, es, |es|);
    FlattenLength(Tiles(m, es), |es|);
    assert Tiles(m, es)[..|es|] == Tiles(m, es);
  }

  lemma {:induction false} SumOfRecords(rs: seq<seq<byte>>, es: seq<Entry>, i: nat)
    requires |rs| == |es| && i <= |es| && forall k :: 0 <= k < |rs| ==> |rs[k]| == CDR_SIZE + |es[k].name|
    ensures SumLengths(rs, i) == RecordOffset(es, i)
    decreases i
  {
    if i > 0 { SumOfRecords(rs, es, i - 1); }
  }

  lemma RecordsLength(m: Mode, es: seq<Entry>, i: nat)
    requires i <= |es|
    ensures SumLengths(Records(m, es), i) == RecordOffset(es, i)
  {
    SumOfRecords(Records(m, es), es, i);
  }

  lemma DirectoryLength(m: Mode, es: seq<Entry>, i: nat)
    requires i <= |es|
    ensures |Directory(m, es, i)| == RecordOffset(es, i)
  {
    RecordsLength(m, es, i);
    FlattenLength(Records(m, es), i);
  }

  /** Each entry is found again where the earlier ones end. */
  lemma TileAt(m: Mode, es: seq<Entry>, i: nat)
    requires i < |es|
    ensures OffsetOf(m, es, i + 1) <= |Layout(m, es)|
    ensures Layout(m, es)[OffsetOf(m, es, i)..OffsetOf(m, es, i + 1)] == Tile(m, es[i])
  {
    TilesLength(m, es, i);
    TilesLength(m, es, i + 1);
    PieceAt(Tiles(m, es), i);
  }

  lemma RecordBytesAt(m: Mode, es: seq<Entry>, i: nat, o: nat, end: nat)
    requires i < |es| && o == RecordOffset(es, i) && end == RecordOffset(es, i + 1)
    ensures end <= |Directory(m, es, |es|)| && Directory(m, es, |es|)[o..end] == RecordBytes(RecordOf(m, es, i), es[i].name)
  {
    var rs := Records(m, es);
    assert rs[..|es|] == rs;
    RecordsLength(m, es, i);
    RecordsLength(m, es, i + 1);
    PieceAt(rs, i);
  }

  lemma RecordHalves(cd: seq<byte>, o: nat, r: CentralDirectoryRecord, name: seq<byte>)
    requires o + CDR_SIZE + |name| <= |cd| && cd[o..o + CDR_SIZE + |name|] == RecordBytes(r, name)
    ensures DecodeCentralDirectoryRecord(cd, o) == r
    ensures cd[o + CDR_SIZE..o + CDR_SIZE + |name|] == name
  {
    SplitSlice(cd, o, EncodeCentralDirectoryRecord(r), name);
    DecodeCentralDirectoryRecordAt(cd, o, r);
  }

  /** Where the record of entry `i` lies in the directory, and what is there. */
  lemma RecordAt(m: Mode, es: seq<Entry>, i: nat, o: nat, cd: seq<byte>, name: seq<byte>)
    requires i < |es| && o == RecordOffset(es, i) && cd == Directory(m, es, |es|) && name == es[i].name
    ensures o + CDR_SIZE + |name| <= |cd| && DecodeCentralDirectoryRecord(cd, o) == RecordOf(m, es, i)
    ensures cd[o + CDR_SIZE..o + CDR_SIZE + |name|] == name
  {
    RecordBytesAt(m, es, i, o, o + CDR_SIZE + |name|);
    RecordHalves(cd, o, RecordOf(m, es, i), name);
  }

  // ----- inside a tile -----

  /** A stored entry at offset `o` of a file: header, name, padding, data. */
  ghost predicate StoredAt(s: seq<byte>, o: nat, h: LocalFileHeader, name: seq<byte>, data: seq<byte>) {
    var dataAt := o + LFH_SIZE + |name| + h.extraFieldLength;
    && dataAt + |data| <= |s|
    && DecodeLocalFileHeader(s, o) == h
    && h.signature == LFH_SIGNATURE && h.fileNameLength == |name|
    && s[o + LFH_SIZE..o + LFH_SIZE + |name|] == name
    && s[dataAt..dataAt + |data|] == data
  }

  lemma StoredFrom(s: seq<byte>, o: nat, h: LocalFileHeader, name: seq<byte>, pad: seq<byte>, data: seq<byte>, rest: seq<byte>)
    requires h.signature == LFH_SIGNATURE && h.fileNameLength == |name| && h.extraFieldLength == |pad|
    requires var t := EncodeLocalFileHeader(h) + name + pad + data + rest; o + |t| <= |s| && s[o..o + |t|] == t
    ensures StoredAt(s, o, h, name, data)
    ensures var end := o + LFH_SIZE + |name| + |pad| + |data|; s[end..end + |rest|] == rest
  {
    var e := EncodeLocalFileHeader(h);
    SplitSlice(s, o, e + name + pad + data, rest);
    SplitSlice(s, o, e + name + pad, data);
    SplitSlice(s, o, e + name, pad);
    SplitSlice(s, o, e, name);
    DecodeLocalFileHeaderAt(s, o, h);
  }

  function HeaderOf(m: Mode, e: Entry): (h: LocalFileHeader) {
    LocalHeader(Describe(m, e, 0), m.descriptors)
  }

  function Trailer(m: Mode, e: Entry): (s: seq<byte>)
    ensures |s| == if m.descriptors then 16 else 0
  {
    if m.descriptors then Descriptor(Describe(m, e, 0)) else []
  }

  lemma TileParts(m: Mode, e: Entry)
    ensures Tile(m, e) == EncodeLocalFileHeader(HeaderOf(m, e)) + e.name + Zeros(e.padding) + e.data + Trailer(m, e)
  {}

  lemma TileIn(m: Mode, es: seq<Entry>, i: nat, s: seq<byte>, o: nat, n: nat)
    requires i < |es| && Layout(m, es) <= s && o == OffsetOf(m, es, i) && n == TileLength(m, es[i])
    ensures o + n <= |s| && s[o..o + n] == Tile(m, es[i])
  {
    TileAt(m, es, i);
    assert o + n == OffsetOf(m, es, i + 1);
    assert s[o..o + n] == Layout(m, es)[o..o + n];
  }

  lemma TileStores(m: Mode, e: Entry, s: seq<byte>, o: nat)
    requires o + TileLength(m, e) <= |s| && s[o..o + TileLength(m, e)] == Tile(m, e)
    ensures StoredAt(s, o, HeaderOf(m, e), e.name, e.data)
    ensures var end := o + LFH_SIZE + |e.name| + e.padding + |e.data|; s[end..end + |Trailer(m, e)|] == Trailer(m, e)
  {
    TileParts(m, e);
    StoredFrom(s, o, HeaderOf(m, e), e.name, Zeros(e.padding), e.data, Trailer(m, e));
  }

  /** Every entry of a layout is stored at its offset, with its trailer behind it. */
  lemma EntryStored(m: Mode, es: seq<Entry>, i: nat, s: seq<byte>, o: nat)
    requires i < |es| && Layout(m, es) <= s && o == OffsetOf(m, es, i)
    ensures o + TileLength(m, es[i]) <= |s| && StoredAt(s, o, HeaderOf(m, es[i]), es[i].name, es[i].data)
    ensures var end := o + LFH_SIZE + |es[i].name| + es[i].padding + |es[i].data|;
            s[end..end + |Trailer(m, es[i])|] == Trailer(m, es[i])
  {
    TileIn(m, es, i, s, o, TileLength(m, es[i]));
    TileStores(m, es[i], s, o);
  }
}
