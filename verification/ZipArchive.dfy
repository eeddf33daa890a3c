/** Opening an archive from memory and looking entries up in it. */
module ZipArchive {
  import opened Bytes
  import opened ZipErrors
  import opened ZipFormat
  import opened EndRecord
  import opened ZipDirectory
  import Zip64Extra
  import CdEntryMap

  /** An archive whose directory has been located. */
  datatype Archive = Archive(file: seq<byte>, directoryOffset: nat, cd: seq<byte>, numEntries: nat)

  /** An open archive with the abstract content of its name index. */
  datatype Opened = Opened(archive: Archive, index: map<Name, nat>)

  /** An indexed archive is accepted if the file starts with a local header. */
  function Accept(a: Archive, index: Result<map<Name, nat>>): (r: Result<Opened>)
    requires |a.file| >= 4
  {
    if index.Err? then Err(index.error)
    else if Get32(a.file, 0) != LFH_SIGNATURE then Err(InvalidFile)
    else Ok(Opened(a, index.value))
  }

  function Located(file: seq<byte>, info: CentralDirectoryInfo): (a: Archive)
    requires info.start + info.size <= |file|
  {
    Archive(file, info.start, file[info.start..info.start + info.size], info.numRecords)
  }

  /** Parse the directory that the end record points at. */
  function OpenAt(file: seq<byte>, info: CentralDirectoryInfo): (r: Result<Opened>)
    requires |file| >= EOCD_SIZE && info.start + info.size <= |file|
  {
    var a := Located(file, info);
    Accept(a, ReadDirectory(a.cd, info.start, info.numRecords))
  }

  function Open(file: seq<byte>): (r: Result<Opened>) {
    var info :- FindCentralDirectory(file);
    DirectoryBeforeEnd(file);
    OpenAt(file, info)
  }

  /** The directory that the end record points at is one the index is trustworthy for. */
  predicate IndexReliable(file: seq<byte>, info: CentralDirectoryInfo)
    requires info.start + info.size <= |file|
  {
    Faithful(Located(file, info).cd, info.start, info.numRecords)
  }

  /** The index of the whole file is trustworthy, if it has one. It always is if the directory is at most 4 GiB
      or has more than 65535 records. */
  predicate Reliable(file: seq<byte>) {
    FindCentralDirectory(file).Ok? ==> (DirectoryBeforeEnd(file); IndexReliable(file, FindCentralDirectory(file).value))
  }

  lemma SmallIsReliable(file: seq<byte>)
    requires FindCentralDirectory(file).Ok? ==>
               FindCentralDirectory(file).value.size <= U32_MAX || FindCentralDirectory(file).value.numRecords > U16_MAX
    ensures Reliable(file)
  {
    if FindCentralDirectory(file).Ok? {
      var info := FindCentralDirectory(file).value;
      DirectoryBeforeEnd(file);
      if info.size <= U32_MAX { SmallIsFaithful(Located(file, info).cd, info.start, info.numRecords); }
    }
  }

  /** A concrete open archive agrees with the abstract one. */
  ghost predicate Agrees(r: Result<(Archive, CdEntryMap.Index)>, o: Result<Opened>)
    reads if r.Ok? then r.value.1.Repr() else {}
  {
    match o
    case Err(e) => r == Err(e)
    case Ok(x) => r.Ok? && r.value.0 == x.archive && r.value.1.Exact() && r.value.1.Contents() == x.index
  }

  method ParseZipArchive(file: seq<byte>, info: CentralDirectoryInfo, hash: Name -> nat) returns (r: Result<(Archive, CdEntryMap.Index)>)
    requires |file| >= EOCD_SIZE && info.start + info.size <= |file|
    ensures r.Ok? ==> r.value.1.Valid(r.value.0.cd) && fresh(r.value.1.Repr())
    ensures IndexReliable(file, info) ==> Agrees(r, OpenAt(file, info))
  {
    var a := Located(file, info);
    var index := ParseDirectory(a.cd, info.start, info.numRecords, hash);
    if index.Err? {
      return Err(index.error);
    }
    if Get32(file, 0) != LFH_SIGNATURE {
      return Err(InvalidFile);
    }
    return Ok((a, index.value));
  }

  // ----- the index of an opened archive -----

  /** Every offset in the index is the name offset of a record inside the directory, and every name is as
      short as its 16-bit length says. */
  ghost predicate WellIndexed(cd: seq<byte>, index: map<Name, nat>) {
    forall n :: n in index ==> RecordInside(cd, index[n]) && |n| <= U16_MAX
  }

  /** Whatever the bytes, an index that both passes built points only at records inside the directory. */
  lemma DirectoryWellIndexed(cd: seq<byte>, directoryOffset: int, n: nat)
    requires ReadDirectory(cd, directoryOffset, n).Ok?
    ensures WellIndexed(cd, ReadDirectory(cd, directoryOffset, n).value)
  {
    var offsets, index := CheckRecords(cd, directoryOffset, n, 0).value, ReadDirectory(cd, directoryOffset, n).value;
    FirstPassWalkable(cd, directoryOffset, n, 0);
    IndexExactly(cd, offsets, 0, map[]);
    var ns := Names(cd, offsets, 0);
    forall name | name in index ensures RecordInside(cd, index[name]) && |name| <= U16_MAX {
      var i :| 0 <= i < |ns| && ns[i] == name;
      WalkedInside(cd, offsets, 0, ns, i);
    }
  }

  /** Any file that opens has such an index: the records that lookups read without a check are there. */
  lemma OpenedWellIndexed(file: seq<byte>)
    requires Open(file).Ok?
    ensures WellIndexed(Open(file).value.archive.cd, Open(file).value.index)
  {
    var info := FindCentralDirectory(file).value;
    DirectoryBeforeEnd(file);
    DirectoryWellIndexed(Located(file, info).cd, info.start, info.numRecords);
  }

  /** A handle that lookups and iteration may use. */
  ghost predicate Sound(a: Archive, index: CdEntryMap.Index)
    reads index.Repr()
  {
    index.Valid(a.cd) && index.Exact() && WellIndexed(a.cd, index.Contents())
  }

  /** Opening any bytes agrees with the reference and yields a handle that may be used. */
  method OpenArchive(file: seq<byte>, hash: Name -> nat) returns (r: Result<(Archive, CdEntryMap.Index)>)
    ensures r.Ok? ==> r.value.1.Valid(r.value.0.cd) && fresh(r.value.1.Repr())
    ensures Reliable(file) ==> Agrees(r, Open(file))
    ensures Reliable(file) && r.Ok? ==> Sound(r.value.0, r.value.1)
  {
    var info := MapCentralDirectory(file);
    if info.Err? {
      return Err(info.error);
    }
    DirectoryBeforeEnd(file);
    r := ParseZipArchive(file, info.value, hash);
    if Open(file).Ok? { OpenedWellIndexed(file); }
  }

  // ----- entries -----

  datatype ZipEntry = ZipEntry(
    compressionMethod: u16,
    modTime: nat,
    crc32: u32,
    compressedLength: u64,
    uncompressedLength: u64,
    zip64FormatSize: bool,
    hasDataDescriptor: bool,
    offset: nat,
    versionMadeBy: u16,
    externalFileAttributes: u32,
    unixMode: nat,
    gpbFlags: u16,
    isText: bool)

  /** What the directory says about an entry, zip64 values filled in. */
  datatype Central = Central(localOffset: int, compressed: u64, uncompressed: u64)

  function ReadCentral(cd: seq<byte>, nameOffset: nat): (r: Result<Central>)
    requires RecordInside(cd, nameOffset)
  {
    var c := DecodeCentralDirectoryRecord(cd, nameOffset - CDR_SIZE);
    if c.uncompressedSize != U32_MAX && c.compressedSize != U32_MAX && c.localFileHeaderOffset != U32_MAX then
      Ok(Central(c.localFileHeaderOffset, c.compressedSize, c.uncompressedSize))
    else
      var at := nameOffset + c.fileNameLength;
      var info :- Zip64Extra.Parse(cd[at..at + c.extraFieldLength], Fields(c));
      Ok(Central(
           ToSigned(info.localHeaderOffset.GetOr(c.localFileHeaderOffset)),
           info.compressedSize.GetOr(c.compressedSize),
           info.uncompressedSize.GetOr(c.uncompressedSize)))
  }

  /** The sizes a local header declares, (compressed, uncompressed), zip64 values filled in. */
  function ReadLocalSizes(file: seq<byte>, h: LocalFileHeader, extraOffset: nat, cdOffset: nat): (r: Result<(u64, u64)>) {
    if h.uncompressedSize != U32_MAX && h.compressedSize != U32_MAX then Ok((h.compressedSize, h.uncompressedSize))
    else if h.uncompressedSize != U32_MAX || h.compressedSize != U32_MAX then Err(InvalidFile)
    else if extraOffset > cdOffset - h.extraFieldLength then Err(InvalidOffset)
    else if !Readable(file, extraOffset, h.extraFieldLength) then Err(IoError)
    else
      var extra := file[extraOffset..extraOffset + h.extraFieldLength];
      var fields := Zip64Extra.Zip32Fields(h.uncompressedSize, h.compressedSize, None);
      var info :- Zip64Extra.Parse(extra, fields);
      Zip64Extra.SaturatedReplaced(extra, fields);
      Ok((info.compressedSize.value, info.uncompressedSize.value))
  }

  predicate HasDescriptorFlag(flags: u16) {
    flags / DATA_DESCRIPTOR_FLAG % 2 == 1
  }

  /** It is bit 3 of the flags, whatever the others are. */
  lemma DescriptorBit(flags: u16)
    ensures HasDescriptorFlag(flags) <==> flags % 16 >= 8
  {}

  /** The local header that backs an entry: its name must be the requested one. */
  function ReadLocalHeader(a: Archive, name: Name, local: int): (r: Result<LocalFileHeader>)
    requires |name| <= U16_MAX
    ensures r.Ok? ==> 0 <= local && local + LFH_SIZE + |name| <= |a.file|
  {
    if local + LFH_SIZE >= a.directoryOffset then Err(InvalidOffset)
    else if !Readable(a.file, local, LFH_SIZE) then Err(IoError)
    else
      var h := DecodeLocalFileHeader(a.file, local);
      if h.signature != LFH_SIGNATURE then Err(InvalidOffset)
      else if h.fileNameLength != |name| then Err(InconsistentInformation)
      else if local + LFH_SIZE + |name| > a.directoryOffset then Err(InvalidOffset)
      else if !Readable(a.file, local + LFH_SIZE, |name|) then Err(IoError)
      else if a.file[local + LFH_SIZE..local + LFH_SIZE + |name|] != name then Err(InconsistentInformation)
      else Ok(h)
  }

  /** Date and time in one word. */
  function Stamp(date: u16, time: u16): (t: nat) {
    date * 0x1_0000 + time
  }

  function UnixMode(versionMadeBy: u16, externalFileAttributes: u32): (m: nat) {
    if versionMadeBy / 256 == 3 then externalFileAttributes / 0x1_0000 else 0x1FF
  }

  /** The comparison of both headers and the bounds on the data, which start at `dataOffset`. */
  function CheckEntry(c: CentralDirectoryRecord, central: Central, h: LocalFileHeader, sizes: (u64, u64), dataOffset: nat, directoryOffset: nat): (r: Result<ZipEntry>) {
    var descriptor := HasDescriptorFlag(h.gpbFlags);
    if !descriptor && (central.compressed != sizes.0 || central.uncompressed != sizes.1 || c.crc32 != h.crc32) then Err(InconsistentInformation)
    else if dataOffset > directoryOffset then Err(InvalidOffset)
    else if central.compressed > directoryOffset - dataOffset then Err(InvalidOffset)
    else if c.compressionMethod == COMPRESS_STORED && central.uncompressed > directoryOffset - dataOffset then Err(InvalidOffset)
    else
      Ok(ZipEntry(
           c.compressionMethod, Stamp(c.lastModDate, c.lastModTime), c.crc32, central.compressed, central.uncompressed,
           c.uncompressedSize == U32_MAX || c.compressedSize == U32_MAX, descriptor, dataOffset,
           c.versionMadeBy, c.externalFileAttributes, UnixMode(c.versionMadeBy, c.externalFileAttributes),
           h.gpbFlags, c.internalFileAttributes % 2 == 1))
  }

  /** The rest of a lookup, from the local header on. */
  function FindLocal(a: Archive, name: Name, c: CentralDirectoryRecord, central: Central): (r: Result<ZipEntry>)
    requires |name| <= U16_MAX
  {
    var h :- ReadLocalHeader(a, name, central.localOffset);
    var nameEnd := central.localOffset + LFH_SIZE + |name|;
    var sizes :- ReadLocalSizes(a.file, h, nameEnd, a.directoryOffset);
    CheckEntry(c, central, h, sizes, nameEnd + h.extraFieldLength, a.directoryOffset)
  }

  function FindEntryAt(a: Archive, name: Name, nameOffset: nat): (r: Result<ZipEntry>)
    requires RecordInside(a.cd, nameOffset) && |name| <= U16_MAX
  {
    var central :- ReadCentral(a.cd, nameOffset);
    FindLocal(a, name, DecodeCentralDirectoryRecord(a.cd, nameOffset - CDR_SIZE), central)
  }

  /** The entry that the index has for a name; iteration reads it without looking at the name first. */
  ghost function EntryOf(o: Opened, name: Name): (r: Result<ZipEntry>)
    requires WellIndexed(o.archive.cd, o.index) && name in o.index
  {
    FindEntryAt(o.archive, name, o.index[name])
  }

  ghost function FindEntry(o: Opened, name: Name): (r: Result<ZipEntry>)
    requires WellIndexed(o.archive.cd, o.index)
  {
    if name == [] || |name| > U16_MAX then Err(ZipError.InvalidEntryName)
    else if name !in o.index then Err(EntryNotFound)
    else EntryOf(o, name)
  }

  // ----- refusals -----

  /** A local header in front of the directory: 30 bytes inside the file that start with its signature. */
  predicate HeaderThere(a: Archive, local: int) {
    0 <= local && local + 30 < a.directoryOffset && local + 30 <= |a.file| && Get32(a.file, local) == 0x04034b50
  }

  /** How a local header is refused. It must be there, before the directory; another name in it is
      inconsistent, and one that runs into the directory is out of place. */
  lemma LocalHeaderRefused(a: Archive, name: Name, local: int)
    requires |name| <= U16_MAX && a.directoryOffset <= |a.file|
    ensures var r := ReadLocalHeader(a, name, local);
            && (r == Err(IoError) <==> local < 0 && local + 30 < a.directoryOffset)
            && (r == Err(InvalidOffset) <==>
                  local + 30 >= a.directoryOffset ||
                  (0 <= local && (!HeaderThere(a, local) ||
                    (Get16(a.file, local + 26) == |name| && local + 30 + |name| > a.directoryOffset))))
            && (r == Err(InconsistentInformation) <==>
                  HeaderThere(a, local) &&
                  (Get16(a.file, local + 26) != |name| ||
                    (local + 30 + |name| <= a.directoryOffset && a.file[local + 30..local + 30 + |name|] != name)))
            && (r.Err? ==> r.error in {IoError, InvalidOffset, InconsistentInformation})
  {}

  /** Which sizes a local header gives. One saturated size alone is refused; with both, the extra field must end
      before the directory, and its zip64 block decides. */
  lemma LocalSizesDecided(file: seq<byte>, h: LocalFileHeader, at: nat, d: nat)
    requires d <= |file|
    ensures var r := ReadLocalSizes(file, h, at, d);
            if h.uncompressedSize != 0xFFFF_FFFF && h.compressedSize != 0xFFFF_FFFF then r == Ok((h.compressedSize, h.uncompressedSize))
            else if h.uncompressedSize != h.compressedSize then r == Err(InvalidFile)
            else if at + h.extraFieldLength > d then r == Err(InvalidOffset)
            else
              var info := Zip64Extra.Parse(file[at..at + h.extraFieldLength], Zip64Extra.Zip32Fields(0xFFFF_FFFF, 0xFFFF_FFFF, None));
              if info.Err? then r == Err(info.error) else info.value.compressedSize.Some? && info.value.uncompressedSize.Some? && r == Ok((info.value.compressedSize.value, info.value.uncompressedSize.value))
  {
    if h.uncompressedSize == h.compressedSize == 0xFFFF_FFFF && at + h.extraFieldLength <= d {
      var extra, f := file[at..at + h.extraFieldLength], Zip64Extra.Zip32Fields(0xFFFF_FFFF, 0xFFFF_FFFF, None);
      if Zip64Extra.Parse(extra, f).Ok? { Zip64Extra.SaturatedReplaced(extra, f); }
    }
  }

  /** How an entry is refused once both headers are read: they must agree unless bit 3 announces a descriptor,
      and the data, as stored and if they are not compressed also as extracted, must end before the directory. */
  lemma EntryRefused(c: CentralDirectoryRecord, central: Central, h: LocalFileHeader, sizes: (u64, u64), dataOffset: nat, d: nat)
    ensures var r := CheckEntry(c, central, h, sizes, dataOffset, d);
            var agree := h.gpbFlags % 16 >= 8 || (sizes == (central.compressed, central.uncompressed) && c.crc32 == h.crc32);
            var fits := dataOffset + central.compressed <= d && (c.compressionMethod == 0 ==> dataOffset + central.uncompressed <= d);
            && (r.Ok? <==> agree && fits)
            && (r == Err(InconsistentInformation) <==> !agree) && (r == Err(InvalidOffset) <==> agree && !fits)
  {
    DescriptorBit(h.gpbFlags);
  }

  /** A lookup that can be trusted: the local header at `local` names the entry, the data end before the
      directory, and both headers agree unless a descriptor follows. */
  ghost predicate SoundEntry(a: Archive, name: Name, local: int, e: ZipEntry) {
    && e.offset + e.compressedLength <= a.directoryOffset
    && (e.compressionMethod == COMPRESS_STORED ==> e.offset + e.uncompressedLength <= a.directoryOffset)
    && 0 <= local && local + LFH_SIZE + |name| <= e.offset
    && local + LFH_SIZE + |name| <= |a.file|
    && a.file[local + LFH_SIZE..local + LFH_SIZE + |name|] == name
    && var h := DecodeLocalFileHeader(a.file, local);
    && h.signature == LFH_SIGNATURE
    && e.offset == local + LFH_SIZE + h.fileNameLength + h.extraFieldLength
    && e.gpbFlags == h.gpbFlags && (e.hasDataDescriptor <==> h.gpbFlags % 16 >= 8)
    && (!e.hasDataDescriptor ==>
          && ReadLocalSizes(a.file, h, local + LFH_SIZE + |name|, a.directoryOffset) == Ok((e.compressedLength, e.uncompressedLength))
          && h.crc32 == e.crc32)
  }

  lemma LocalHeaderSound(a: Archive, name: Name, local: int)
    requires |name| <= U16_MAX && ReadLocalHeader(a, name, local).Ok?
    ensures 0 <= local && local + LFH_SIZE + |name| <= |a.file| && a.file[local + LFH_SIZE..local + LFH_SIZE + |name|] == name
    ensures var h := ReadLocalHeader(a, name, local).value;
            h == DecodeLocalFileHeader(a.file, local) && h.signature == LFH_SIGNATURE && h.fileNameLength == |name|
  {}

  lemma CheckedSound(c: CentralDirectoryRecord, central: Central, h: LocalFileHeader, sizes: (u64, u64), dataOffset: nat, d: nat, e: ZipEntry)
    requires CheckEntry(c, central, h, sizes, dataOffset, d) == Ok(e)
    ensures e.offset == dataOffset && e.offset + e.compressedLength <= d
    ensures e.compressionMethod == COMPRESS_STORED ==> e.offset + e.uncompressedLength <= d
    ensures !e.hasDataDescriptor ==> sizes == (e.compressedLength, e.uncompressedLength) && h.crc32 == e.crc32
    ensures e.gpbFlags == h.gpbFlags && (e.hasDataDescriptor <==> h.gpbFlags % 16 >= 8)
  {
    DescriptorBit(h.gpbFlags);
  }

  /** What a lookup that succeeds has read: a local header and its sizes, which passed all checks. */
  ghost predicate Stepped(a: Archive, name: Name, c: CentralDirectoryRecord, central: Central, e: ZipEntry, h: LocalFileHeader, sizes: (u64, u64)) {
    && |name| <= U16_MAX && ReadLocalHeader(a, name, central.localOffset) == Ok(h)
    && ReadLocalSizes(a.file, h, central.localOffset + LFH_SIZE + |name|, a.directoryOffset) == Ok(sizes)
    && CheckEntry(c, central, h, sizes, central.localOffset + LFH_SIZE + |name| + h.extraFieldLength, a.directoryOffset) == Ok(e)
  }

  lemma LocalSteps(a: Archive, name: Name, c: CentralDirectoryRecord, central: Central, e: ZipEntry)
    returns (h: LocalFileHeader, sizes: (u64, u64))
    requires |name| <= U16_MAX && FindLocal(a, name, c, central) == Ok(e)
    ensures Stepped(a, name, c, central, e, h, sizes)
  {
    h := ReadLocalHeader(a, name, central.localOffset).value;
    sizes := ReadLocalSizes(a.file, h, central.localOffset + LFH_SIZE + |name|, a.directoryOffset).value;
  }

  lemma IsSound(a: Archive, name: Name, c: CentralDirectoryRecord, central: Central, e: ZipEntry, h: LocalFileHeader, sizes: (u64, u64), local: int)
    requires Stepped(a, name, c, central, e, h, sizes) && local == central.localOffset
    requires 0 <= local && local + LFH_SIZE + |name| <= |a.file| && a.file[local + LFH_SIZE..local + LFH_SIZE + |name|] == name
    requires h == DecodeLocalFileHeader(a.file, local) && h.signature == LFH_SIGNATURE && h.fileNameLength == |name|
    requires e.offset == local + LFH_SIZE + |name| + h.extraFieldLength && e.offset + e.compressedLength <= a.directoryOffset
    requires e.compressionMethod == COMPRESS_STORED ==> e.offset + e.uncompressedLength <= a.directoryOffset
    requires !e.hasDataDescriptor ==> sizes == (e.compressedLength, e.uncompressedLength) && h.crc32 == e.crc32
    requires e.gpbFlags == h.gpbFlags && (e.hasDataDescriptor <==> h.gpbFlags % 16 >= 8)
    ensures SoundEntry(a, name, local, e)
  {}

  lemma SoundFrom(a: Archive, name: Name, c: CentralDirectoryRecord, central: Central, e: ZipEntry, h: LocalFileHeader, sizes: (u64, u64), local: int)
    requires Stepped(a, name, c, central, e, h, sizes) && local == central.localOffset
    ensures SoundEntry(a, name, local, e)
  {
    LocalHeaderSound(a, name, local);
    CheckedSound(c, central, h, sizes, local + LFH_SIZE + |name| + h.extraFieldLength, a.directoryOffset, e);
    IsSound(a, name, c, central, e, h, sizes, local);
  }

  lemma FindLocalSound(a: Archive, name: Name, c: CentralDirectoryRecord, central: Central, e: ZipEntry)
    requires |name| <= U16_MAX && FindLocal(a, name, c, central) == Ok(e)
    ensures SoundEntry(a, name, central.localOffset, e)
  {
    var h, sizes := LocalSteps(a, name, c, central, e);
    SoundFrom(a, name, c, central, e, h, sizes, central.localOffset);
  }

  /** The entry has the sizes, checksum, method, stamp and attributes of the directory record whose name is at an
      offset: the date in the upper half of the stamp, the mode in the upper half of the external attributes if
      the record was made on Unix, and the text flag in bit 0 of the internal ones. */
  ghost predicate FromRecord(cd: seq<byte>, nameOffset: nat, e: ZipEntry)
    requires RecordInside(cd, nameOffset)
  {
    var c, central := DecodeCentralDirectoryRecord(cd, nameOffset - CDR_SIZE), ReadCentral(cd, nameOffset);
    && central.Ok? && e.compressedLength == central.value.compressed && e.uncompressedLength == central.value.uncompressed
    && e.crc32 == c.crc32 && e.compressionMethod == c.compressionMethod && e.modTime == c.lastModDate * 0x1_0000 + c.lastModTime
    && e.versionMadeBy == c.versionMadeBy && e.externalFileAttributes == c.externalFileAttributes
    && e.unixMode == (if c.versionMadeBy / 256 == 3 then c.externalFileAttributes / 0x1_0000 else 0x1FF)
    && (e.isText <==> c.internalFileAttributes % 2 == 1)
    && (e.zip64FormatSize <==> c.uncompressedSize == U32_MAX || c.compressedSize == U32_MAX)
  }

  lemma FindEntrySound(a: Archive, name: Name, nameOffset: nat)
    requires RecordInside(a.cd, nameOffset) && |name| <= U16_MAX && FindEntryAt(a, name, nameOffset).Ok?
    ensures SoundEntry(a, name, ReadCentral(a.cd, nameOffset).value.localOffset, FindEntryAt(a, name, nameOffset).value)
    ensures FromRecord(a.cd, nameOffset, FindEntryAt(a, name, nameOffset).value)
  {
    var c, central, e := DecodeCentralDirectoryRecord(a.cd, nameOffset - CDR_SIZE), ReadCentral(a.cd, nameOffset).value, FindEntryAt(a, name, nameOffset).value;
    var h, sizes := LocalSteps(a, name, c, central, e);
    FindLocalSound(a, name, c, central, e);
  }

  /** Opening a file and looking a name up in it. */
  ghost function LookupIn(file: seq<byte>, name: Name): (r: Result<ZipEntry>) {
    var z :- Open(file);
    OpenedWellIndexed(file);
    FindEntry(z, name)
  }

  lemma IndexedLookup(file: seq<byte>, z: Opened, name: Name)
    requires Open(file) == Ok(z) && name in z.index && name != []
    ensures RecordInside(z.archive.cd, z.index[name]) && |name| <= U16_MAX
    ensures LookupIn(file, name) == FindEntryAt(z.archive, name, z.index[name])
  {
    OpenedWellIndexed(file);
  }

  /** For every file and every name, a lookup that succeeds can be trusted: it starts from the record that the
      index has for the name, and that record and the local header it declares both say what is returned. */
  lemma LookupSound(file: seq<byte>, name: Name)
    requires LookupIn(file, name).Ok?
    ensures Open(file).Ok? && name in Open(file).value.index
    ensures var z, e := Open(file).value, LookupIn(file, name).value;
            && RecordInside(z.archive.cd, z.index[name]) && ReadCentral(z.archive.cd, z.index[name]).Ok?
            && SoundEntry(z.archive, name, ReadCentral(z.archive.cd, z.index[name]).value.localOffset, e)
            && FromRecord(z.archive.cd, z.index[name], e)
  {
    var z := Open(file).value;
    OpenedWellIndexed(file);
    FindEntrySound(z.archive, name, z.index[name]);
  }

  /** The descriptor behind an entry's data must repeat what the directory says. */
  function ValidateDataDescriptor(file: seq<byte>, e: ZipEntry): (r: Option<ZipError>) {
    var offset := e.offset + if e.compressionMethod != COMPRESS_STORED then e.compressedLength else e.uncompressedLength;
    if !Readable(file, offset, 24) then Some(IoError)
    else
      var at := if Get32(file, offset) == DATA_DESCRIPTOR_SIGNATURE then offset + 4 else offset;
      var crc := Get32(file, at);
      var wide := e.compressedLength >= U32_MAX || e.uncompressedLength >= U32_MAX;
      var compressed := if wide then Get64(file, at + 4) else Get32(file, at + 4);
      var uncompressed := if wide then Get64(file, at + 12) else Get32(file, at + 8);
      if e.compressedLength != compressed || e.uncompressedLength != uncompressed || e.crc32 != crc then Some(InconsistentInformation)
      else None
  }

  /** A descriptor for an entry: checksum and both sizes, in 64 bits if either size needs them. */
  function DescriptorFor(e: ZipEntry): (s: seq<byte>) {
    if NeedsWideDescriptor(e)
    then Put32(e.crc32) + Put64(e.compressedLength) + Put64(e.uncompressedLength)
    else Put32(e.crc32) + Put32(e.compressedLength) + Put32(e.uncompressedLength)
  }

  lemma NarrowDescriptor(file: seq<byte>, at: nat, crc: u32, c: u32, u: u32)
    requires at + 12 <= |file|
    ensures Get32(file, at) == crc && Get32(file, at + 4) == c && Get32(file, at + 8) == u <==>
            file[at..at + 12] == Put32(crc) + Put32(c) + Put32(u)
  {
    Reads32(file, at, crc);
    Reads32(file, at + 4, c);
    Reads32(file, at + 8, u);
    SameSlices(file, at, Put32(crc), Put32(c), Put32(u));
  }

  lemma WideDescriptor(file: seq<byte>, at: nat, crc: u32, c: u64, u: u64)
    requires at + 20 <= |file|
    ensures Get32(file, at) == crc && Get64(file, at + 4) == c && Get64(file, at + 12) == u <==>
            file[at..at + 20] == Put32(crc) + Put64(c) + Put64(u)
  {
    Reads32(file, at, crc);
    Reads64(file, at + 4, c);
    Reads64(file, at + 12, u);
    SameSlices(file, at, Put32(crc), Put64(c), Put64(u));
  }

  /** Three stretches in a row are there exactly if each is at its place. */
  lemma SameSlices(s: seq<byte>, at: nat, a: seq<byte>, b: seq<byte>, c: seq<byte>)
    requires at + |a| + |b| + |c| <= |s|
    ensures var p, q, r := at + |a|, at + |a| + |b|, at + |a| + |b| + |c|;
            s[at..p] == a && s[p..q] == b && s[q..r] == c <==> s[at..r] == a + b + c
  {
    var p, q, r := at + |a|, at + |a| + |b|, at + |a| + |b| + |c|;
    assert s[at..r] == s[at..p] + s[p..q] + s[q..r];
    if s[at..r] == a + b + c {
      assert s[at..p] == s[at..r][..|a|] == a;
      assert s[p..q] == s[at..r][|a|..|a| + |b|] == b;
      assert s[q..r] == s[at..r][|a| + |b|..] == c;
    }
  }

  predicate NeedsWideDescriptor(e: ZipEntry) {
    e.compressedLength >= U32_MAX || e.uncompressedLength >= U32_MAX
  }

  lemma ValidatedFields(file: seq<byte>, e: ZipEntry, end: nat, at: nat)
    requires end == e.offset + if e.compressionMethod != COMPRESS_STORED then e.compressedLength else e.uncompressedLength
    requires end + 24 <= |file| && at == if Get32(file, end) == DATA_DESCRIPTOR_SIGNATURE then end + 4 else end
    ensures ValidateDataDescriptor(file, e) == None <==>
            if NeedsWideDescriptor(e)
            then Get32(file, at) == e.crc32 && Get64(file, at + 4) == e.compressedLength && Get64(file, at + 12) == e.uncompressedLength
            else Get32(file, at) == e.crc32 && Get32(file, at + 4) == e.compressedLength && Get32(file, at + 8) == e.uncompressedLength
  {}

  lemma FieldsAreDescriptor(file: seq<byte>, at: nat, e: ZipEntry)
    requires at + 20 <= |file|
    ensures file[at..at + |DescriptorFor(e)|] == DescriptorFor(e) <==>
            if NeedsWideDescriptor(e)
            then Get32(file, at) == e.crc32 && Get64(file, at + 4) == e.compressedLength && Get64(file, at + 12) == e.uncompressedLength
            else Get32(file, at) == e.crc32 && Get32(file, at + 4) == e.compressedLength && Get32(file, at + 8) == e.uncompressedLength
  {
    if NeedsWideDescriptor(e) {
      WideDescriptor(file, at, e.crc32, e.compressedLength, e.uncompressedLength);
    } else {
      NarrowDescriptor(file, at, e.crc32, e.compressedLength, e.uncompressedLength);
    }
  }

  /** Where 24 bytes can be read behind the data, a descriptor is accepted if and only if they start, after an
      optional signature, with exactly the descriptor of the entry. */
  lemma DescriptorAcceptedExactly(file: seq<byte>, e: ZipEntry, end: nat, at: nat)
    requires end == e.offset + if e.compressionMethod != COMPRESS_STORED then e.compressedLength else e.uncompressedLength
    requires end + 24 <= |file| && at == if Get32(file, end) == DATA_DESCRIPTOR_SIGNATURE then end + 4 else end
    ensures ValidateDataDescriptor(file, e) == None <==> file[at..at + |DescriptorFor(e)|] == DescriptorFor(e)
  {
    ValidatedFields(file, e, end, at);
    FieldsAreDescriptor(file, at, e);
  }
}
