/** Large entries: whatever 64-bit sizes and offset an entry has, if its headers carry them as section 4.5.3 of
    PKWARE APPNOTE.TXT asks, the reader resolves exactly those values. */
module Zip64Entries {
  import opened Bytes
  import opened ZipErrors
  import opened ZipFormat
  import opened ZipDirectory
  import opened ZipArchive
  import opened Zip64Extra

  datatype Values = Values(uncompressed: u64, compressed: u64, offset: u64)

  predicate NeedsWide(v: Values) {
    v.uncompressed >= U32_MAX || v.compressed >= U32_MAX || v.offset >= U32_MAX
  }

  /** A central record declares the values: in its own fields, or saturated and in a zip64 block that other
      blocks may precede. */
  ghost predicate Declares(c: CentralDirectoryRecord, extra: seq<byte>, v: Values, before: seq<Block>, rest: seq<byte>) {
    && Fields(c) == FieldsFor(v.uncompressed, v.compressed, v.offset)
    && (NeedsWide(v) ==> Holds(extra, before, WideData(v.uncompressed, v.compressed, v.offset), rest))
  }

  lemma DeclaredParses(c: CentralDirectoryRecord, extra: seq<byte>, v: Values, before: seq<Block>, rest: seq<byte>)
    requires Declares(c, extra, v, before, rest) && NeedsWide(v)
    ensures var r := Parse(extra, Fields(c));
            && r.Ok? && r.value.uncompressedSize.GetOr(c.uncompressedSize) == v.uncompressed
            && r.value.compressedSize.GetOr(c.compressedSize) == v.compressed
            && r.value.localHeaderOffset.GetOr(c.localFileHeaderOffset) == v.offset
  {
    var data := WideData(v.uncompressed, v.compressed, v.offset);
    WideDataMeans(v.uncompressed, v.compressed, v.offset, data);
    UsableIsParsed(extra, Fields(c), before, data, rest);
  }

  function ExtraOf(cd: seq<byte>, o: nat): (extra: seq<byte>)
    requires RecordInside(cd, o + CDR_SIZE)
  {
    var c := DecodeCentralDirectoryRecord(cd, o);
    var at := o + CDR_SIZE + c.fileNameLength;
    cd[at..at + c.extraFieldLength]
  }

  /** The lookup reads the declared values from the directory… */
  lemma CentralValues(cd: seq<byte>, o: nat, v: Values, before: seq<Block>, rest: seq<byte>)
    requires RecordInside(cd, o + CDR_SIZE) && Declares(DecodeCentralDirectoryRecord(cd, o), ExtraOf(cd, o), v, before, rest)
    ensures ReadCentral(cd, o + CDR_SIZE) == Ok(Central(if NeedsWide(v) then ToSigned(v.offset) else v.offset, v.compressed, v.uncompressed))
  {
    if NeedsWide(v) {
      DeclaredParses(DecodeCentralDirectoryRecord(cd, o), ExtraOf(cd, o), v, before, rest);
    }
  }

  /** …and so does the validating pass. */
  lemma DeclaredOffsetValue(cd: seq<byte>, o: nat, v: Values, before: seq<Block>, rest: seq<byte>)
    requires RecordInside(cd, o + CDR_SIZE) && Declares(DecodeCentralDirectoryRecord(cd, o), ExtraOf(cd, o), v, before, rest)
    ensures DeclaredOffset(cd, o) == Ok(if v.offset < U32_MAX then v.offset else ToSigned(v.offset))
  {
    if v.offset >= U32_MAX {
      DeclaredParses(DecodeCentralDirectoryRecord(cd, o), ExtraOf(cd, o), v, before, rest);
      SaturatedReplaced(ExtraOf(cd, o), Fields(DecodeCentralDirectoryRecord(cd, o)));
    }
  }

  /** A local header declares the sizes: in its own fields, or both saturated and in a zip64 block. */
  ghost predicate DeclaresSizes(h: LocalFileHeader, extra: seq<byte>, uncompressed: u64, compressed: u64, before: seq<Block>, rest: seq<byte>) {
    || (h.uncompressedSize == uncompressed < U32_MAX && h.compressedSize == compressed < U32_MAX)
    || (h.uncompressedSize == h.compressedSize == U32_MAX && Holds(extra, before, Put64(uncompressed) + Put64(compressed), rest))
  }

  lemma SizesParse(extra: seq<byte>, uncompressed: u64, compressed: u64, before: seq<Block>, rest: seq<byte>)
    requires Holds(extra, before, Put64(uncompressed) + Put64(compressed), rest)
    ensures Parse(extra, Zip32Fields(U32_MAX, U32_MAX, None)) == Ok(Zip64Info(Some(uncompressed), Some(compressed), None))
  {
    var data := Put64(uncompressed) + Put64(compressed);
    BothSizesMean(uncompressed, compressed, data);
    UsableIsParsed(extra, Zip32Fields(U32_MAX, U32_MAX, None), before, data, rest);
  }

  lemma WideLocalValues(file: seq<byte>, h: LocalFileHeader, at: nat, cdOffset: nat, extra: seq<byte>, uncompressed: u64, compressed: u64, before: seq<Block>, rest: seq<byte>)
    requires at + h.extraFieldLength <= |file| && at + h.extraFieldLength <= cdOffset && extra == file[at..at + h.extraFieldLength]
    requires h.uncompressedSize == h.compressedSize == U32_MAX && Holds(extra, before, Put64(uncompressed) + Put64(compressed), rest)
    ensures ReadLocalSizes(file, h, at, cdOffset) == Ok((compressed, uncompressed))
  {
    SizesParse(extra, uncompressed, compressed, before, rest);
  }

  lemma LocalValues(file: seq<byte>, h: LocalFileHeader, at: nat, cdOffset: nat, uncompressed: u64, compressed: u64, before: seq<Block>, rest: seq<byte>)
    requires at + h.extraFieldLength <= |file| && at + h.extraFieldLength <= cdOffset
    requires DeclaresSizes(h, file[at..at + h.extraFieldLength], uncompressed, compressed, before, rest)
    ensures ReadLocalSizes(file, h, at, cdOffset) == Ok((compressed, uncompressed))
  {
    if h.uncompressedSize == U32_MAX {
      WideLocalValues(file, h, at, cdOffset, file[at..at + h.extraFieldLength], uncompressed, compressed, before, rest);
    }
  }

  /** A local header for `name` at `at`, before the directory. */
  ghost predicate LocalAt(a: Archive, at: nat, h: LocalFileHeader, name: Name) {
    && at + LFH_SIZE < a.directoryOffset && at + LFH_SIZE + |name| <= a.directoryOffset && at + LFH_SIZE + |name| <= |a.file|
    && DecodeLocalFileHeader(a.file, at) == h && h.signature == LFH_SIGNATURE && h.fileNameLength == |name|
    && a.file[at + LFH_SIZE..at + LFH_SIZE + |name|] == name
  }

  lemma LocalHeaderRead(a: Archive, at: nat, h: LocalFileHeader, name: Name)
    requires LocalAt(a, at, h, name) && |name| <= U16_MAX
    ensures ReadLocalHeader(a, name, at) == Ok(h)
  {}

  /** The checks that remain once all values are resolved: the headers agree unless a descriptor follows, and
      the data end before the directory. */
  lemma EntryAccepted(c: CentralDirectoryRecord, v: Values, h: LocalFileHeader, at: nat, d: nat)
    ensures var r := CheckEntry(c, Central(v.offset, v.compressed, v.uncompressed), h, (v.compressed, v.uncompressed), at, d);
            && (r.Ok? <==>
                  && (h.gpbFlags % 16 >= 8 || c.crc32 == h.crc32) && at + v.compressed <= d
                  && (c.compressionMethod == COMPRESS_STORED ==> at + v.uncompressed <= d))
            && (r.Ok? ==>
                  && r.value.compressedLength == v.compressed && r.value.uncompressedLength == v.uncompressed
                  && r.value.offset == at && r.value.crc32 == c.crc32 && (r.value.hasDataDescriptor <==> h.gpbFlags % 16 >= 8))
  {
    DescriptorBit(h.gpbFlags);
  }

  /** The two headers of an entry at `v.offset`: its name ends at `nameEnd`, its data start at `data`. */
  ghost predicate Prepared(a: Archive, o: nat, v: Values, name: Name, h: LocalFileHeader, nameEnd: nat, data: nat,
                           before: seq<Block>, rest: seq<byte>, localBefore: seq<Block>, localRest: seq<byte>)
  {
    && RecordInside(a.cd, o + CDR_SIZE) && |name| <= U16_MAX && v.offset < 0x8000_0000_0000_0000
    && Declares(DecodeCentralDirectoryRecord(a.cd, o), ExtraOf(a.cd, o), v, before, rest)
    && LocalAt(a, v.offset, h, name) && nameEnd == v.offset + LFH_SIZE + |name| && data == nameEnd + h.extraFieldLength
    && data <= |a.file| && data <= a.directoryOffset
    && DeclaresSizes(h, a.file[nameEnd..nameEnd + h.extraFieldLength], v.uncompressed, v.compressed, localBefore, localRest)
  }

  /** Every read of a lookup succeeds with a known value. */
  ghost predicate Resolved(a: Archive, nameOffset: nat, name: Name, central: Central, h: LocalFileHeader, sizes: (u64, u64), nameEnd: nat) {
    && RecordInside(a.cd, nameOffset) && |name| <= U16_MAX && nameEnd == central.localOffset + LFH_SIZE + |name|
    && ReadCentral(a.cd, nameOffset) == Ok(central) && ReadLocalHeader(a, name, central.localOffset) == Ok(h)
    && ReadLocalSizes(a.file, h, nameEnd, a.directoryOffset) == Ok(sizes)
  }

  lemma LocalLookup(a: Archive, name: Name, c: CentralDirectoryRecord, central: Central, h: LocalFileHeader, sizes: (u64, u64), nameEnd: nat)
    requires |name| <= U16_MAX && nameEnd == central.localOffset + LFH_SIZE + |name|
    requires ReadLocalHeader(a, name, central.localOffset) == Ok(h) && ReadLocalSizes(a.file, h, nameEnd, a.directoryOffset) == Ok(sizes)
    ensures FindLocal(a, name, c, central) == CheckEntry(c, central, h, sizes, nameEnd + h.extraFieldLength, a.directoryOffset)
  {}

  lemma ResolvedLookup(a: Archive, nameOffset: nat, name: Name, central: Central, h: LocalFileHeader, sizes: (u64, u64), nameEnd: nat)
    requires Resolved(a, nameOffset, name, central, h, sizes, nameEnd)
    ensures FindEntryAt(a, name, nameOffset) ==
            CheckEntry(DecodeCentralDirectoryRecord(a.cd, nameOffset - CDR_SIZE), central, h, sizes, nameEnd + h.extraFieldLength, a.directoryOffset)
  {
    LocalLookup(a, name, DecodeCentralDirectoryRecord(a.cd, nameOffset - CDR_SIZE), central, h, sizes, nameEnd);
  }

  lemma PreparedResolves(a: Archive, o: nat, v: Values, name: Name, h: LocalFileHeader, nameEnd: nat, data: nat,
                         before: seq<Block>, rest: seq<byte>, localBefore: seq<Block>, localRest: seq<byte>)
    requires Prepared(a, o, v, name, h, nameEnd, data, before, rest, localBefore, localRest)
    ensures Resolved(a, o + CDR_SIZE, name, Central(v.offset, v.compressed, v.uncompressed), h, (v.compressed, v.uncompressed), nameEnd)
  {
    CentralValues(a.cd, o, v, before, rest);
    LocalHeaderRead(a, v.offset, h, name);
    LocalValues(a.file, h, nameEnd, a.directoryOffset, v.uncompressed, v.compressed, localBefore, localRest);
  }

  /** An entry of any size is found, with exactly its declared sizes and offset, if and only if its data end
      before the directory and the checksums agree or a descriptor follows. */
  lemma LargeEntryFound(a: Archive, o: nat, v: Values, name: Name, h: LocalFileHeader, nameEnd: nat, data: nat,
                        before: seq<Block>, rest: seq<byte>, localBefore: seq<Block>, localRest: seq<byte>)
    requires Prepared(a, o, v, name, h, nameEnd, data, before, rest, localBefore, localRest)
    ensures var c, r := DecodeCentralDirectoryRecord(a.cd, o), FindEntryAt(a, name, o + CDR_SIZE);
            && (r.Ok? <==>
                  && (h.gpbFlags % 16 >= 8 || c.crc32 == h.crc32) && data + v.compressed <= a.directoryOffset
                  && (c.compressionMethod == COMPRESS_STORED ==> data + v.uncompressed <= a.directoryOffset))
            && (r.Ok? ==>
                  && r.value.compressedLength == v.compressed && r.value.uncompressedLength == v.uncompressed
                  && r.value.offset == data && r.value.crc32 == c.crc32 && (r.value.hasDataDescriptor <==> h.gpbFlags % 16 >= 8))
  {
    PreparedResolves(a, o, v, name, h, nameEnd, data, before, rest, localBefore, localRest);
    ResolvedLookup(a, o + CDR_SIZE, name, Central(v.offset, v.compressed, v.uncompressed), h, (v.compressed, v.uncompressed), nameEnd);
    EntryAccepted(DecodeCentralDirectoryRecord(a.cd, o), v, h, data, a.directoryOffset);
  }
}
