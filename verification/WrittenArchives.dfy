/** The promise of the pair of writer and reader, over every run of the writer: once a run is done, the
    reader opens the file, finds every surviving entry with its payload, and finds nothing else. */
module WrittenArchives {
  import opened Bytes
  import opened ZipErrors
  import opened ZipFormat
  import opened ZipLayout
  import opened EntryName
  import opened ZipDirectory
  import opened ZipArchive
  import opened RoundTrip
  import W = ZipWriter
  import CdEntryMap
  import Extraction
  import ZipIteration

  // ----- what every run keeps -----

  /** An entry is padded exactly as far as its alignment asks for, from where it starts. */
  ghost predicate Padded(start: nat, e: Entry) {
    W.AlignmentAllowed(e.alignment) && e.padding == W.EntryPadding(start, |e.name|, e.alignment)
  }

  ghost predicate PaddedAt(m: Mode, es: seq<Entry>, i: nat)
    requires i < |es|
  {
    Padded(OffsetOf(m, es, i), es[i])
  }

  ghost predicate AllPadded(m: Mode, es: seq<Entry>) {
    forall i :: 0 <= i < |es| ==> PaddedAt(m, es, i)
  }

  ghost predicate SoundEntries(m: Mode, es: seq<Entry>) {
    ValidNames(es) && |es| <= U16_MAX && AllPadded(m, es)
  }

  ghost predicate Sound(m: Mode, l: W.Ledger) {
    && SoundEntries(m, l.entries)
    && (l.state == W.WritingEntry ==> |l.entries| < U16_MAX && ValidName(l.open.name) && Padded(End(m, l.entries), l.open))
    && (l.state == W.Done ==> Fitting(m, l.entries))
  }

  lemma SoundAppend(m: Mode, es: seq<Entry>, e: Entry)
    requires SoundEntries(m, es) && |es| < U16_MAX && ValidName(e.name) && Padded(End(m, es), e)
    ensures SoundEntries(m, es + [e])
  {
    var es' := es + [e];
    forall i | 0 <= i < |es'| ensures PaddedAt(m, es', i) {
      OffsetOfPrefix(m, es', es, i);
      assert i < |es| ==> PaddedAt(m, es, i);
    }
  }

  lemma SoundFront(m: Mode, es: seq<Entry>, n: nat)
    requires SoundEntries(m, es) && n <= |es|
    ensures SoundEntries(m, es[..n])
  {
    forall i | 0 <= i < n ensures PaddedAt(m, es[..n], i) {
      OffsetOfPrefix(m, es[..n], es, i);
      assert PaddedAt(m, es, i);
    }
  }

  lemma SoundStart(m: Mode, l: W.Ledger, name: seq<byte>, align32: bool, time: u16, date: u16, alignment: u32)
    requires Sound(m, l)
    ensures Sound(m, W.AfterStart(m, l, name, align32, time, date, alignment))
  {
    var code := W.StartCode(m, l, name, align32, alignment);
    if code == W.NoError {
      W.PaddingFits(End(m, l.entries) + LFH_SIZE + |name|, alignment);
      W.StartedOpens(m, l, name, time, date, alignment, W.EntryPadding(End(m, l.entries), |name|, alignment));
    }
  }

  lemma SoundWrite(m: Mode, l: W.Ledger, chunk: seq<byte>)
    requires Sound(m, l)
    ensures Sound(m, W.AfterWrite(l, chunk))
  {}

  lemma SoundFinishEntry(m: Mode, l: W.Ledger)
    requires Sound(m, l)
    ensures Sound(m, W.AfterFinishEntry(l))
  {
    if l.state == W.WritingEntry { SoundAppend(m, l.entries, l.open); }
  }

  lemma SoundDiscard(m: Mode, l: W.Ledger)
    requires Sound(m, l)
    ensures Sound(m, W.AfterDiscard(l))
  {
    if l.state == W.WritingZip && l.entries != [] {
      SoundFront(m, l.entries, |l.entries| - 1);
    }
  }

  lemma SoundFinish(m: Mode, l: W.Ledger)
    requires Sound(m, l)
    ensures Sound(m, W.AfterFinish(m, l))
  {}

  lemma SoundStep(m: Mode, l: W.Ledger, op: W.Op)
    requires Sound(m, l)
    ensures Sound(m, W.Apply(m, l, op))
  {
    match op
    case StartAlignedEntry(name, align32, time, date, alignment) => SoundStart(m, l, name, align32, time, date, alignment);
    case WriteBytes(chunk) => SoundWrite(m, l, chunk);
    case FinishEntry => SoundFinishEntry(m, l);
    case DiscardLastEntry => SoundDiscard(m, l);
    case Finish => SoundFinish(m, l);
  }

  /** Every run keeps names valid, entries countable and padding exact; a run that ends well fits the format. */
  lemma {:induction false} RunIsSound(m: Mode, l: W.Ledger, ops: seq<W.Op>)
    requires Sound(m, l)
    ensures Sound(m, W.Run(m, l, ops))
    decreases |ops|
  {
    if ops != [] {
      SoundStep(m, l, ops[0]);
      RunIsSound(m, W.Apply(m, l, ops[0]), ops[1..]);
    }
  }

  // ----- what the reader then sees -----

  /** What the index leads to for an entry, whose data start at `offset`, is exactly what was written. */
  ghost predicate EntryReadsBack(z: Opened, m: Mode, e: Entry, offset: nat, crc: u32)
    requires WellIndexed(z.archive.cd, z.index)
  {
    && e.name in z.index
    && FoundAt(EntryOf(z, e.name), z.archive.file, offset, e.data, crc, m.descriptors, Stamp(e.date, e.time))
    && (m.descriptors ==> ValidateDataDescriptor(z.archive.file, EntryOf(z, e.name).value) == None)
    && (e.alignment != 0 ==> offset % e.alignment == 0)
  }

  /** Entry `i` reads back, or it is the one that is out of reach. */
  ghost predicate ReadsBackAt(z: Opened, m: Mode, es: seq<Entry>, i: nat)
    requires i < |es| && WellIndexed(z.archive.cd, z.index)
  {
    if Reachable(m, es, i) then EntryReadsBack(z, m, es[i], DataOffset(m, es, i), Checksum(m.crc, 0, es[i].data))
    else es[i].name in z.index && EntryOf(z, es[i].name) == Err(InvalidOffset)
  }

  /** What lookups by name answer: the indexed entry, except that the empty name is never looked up. */
  ghost predicate Answers(z: Opened, es: seq<Entry>, name: Name)
    requires WellIndexed(z.archive.cd, z.index)
  {
    && (name in z.index <==> name in EntryNames(es))
    && FindEntry(z, name) == (
         if name == [] || |name| > U16_MAX then Err(ZipError.InvalidEntryName)
         else if name in z.index then EntryOf(z, name)
         else Err(EntryNotFound))
  }

  ghost predicate ReadsBack(z: Opened, m: Mode, es: seq<Entry>) {
    && z.archive == Reopened(m, es) && WellIndexed(z.archive.cd, z.index)
    && (forall i :: 0 <= i < |es| ==> ReadsBackAt(z, m, es, i))
    && (forall name :: Answers(z, es, name))
  }

  lemma DataAligned(start: nat, e: Entry, offset: nat)
    requires Padded(start, e) && offset == start + LFH_SIZE + |e.name| + e.padding
    ensures e.alignment != 0 ==> offset % e.alignment == 0
  {
    W.PaddingFits(start + LFH_SIZE + |e.name|, e.alignment);
  }

  lemma WrittenEntryReadsBack(z: Opened, m: Mode, es: seq<Entry>, i: nat, start: nat, o: nat, offset: nat, crc: u32)
    requires Fitting(m, es) && ValidNames(es) && i < |es| && Reachable(m, es, i)
    requires z.archive == Reopened(m, es) && WellIndexed(z.archive.cd, z.index)
    requires start == OffsetOf(m, es, i) && Padded(start, es[i]) && o == RecordOffset(es, i)
    requires es[i].name in z.index && z.index[es[i].name] == o + CDR_SIZE
    requires offset == DataOffset(m, es, i) && crc == Checksum(m.crc, 0, es[i].data)
    ensures EntryReadsBack(z, m, es[i], offset, crc)
  {
    EntryFound(m, es, i, o, offset, crc);
    DataAligned(start, es[i], offset);
    if m.descriptors {
      DescriptorValid(m, es, i, EntryOf(z, es[i].name).value, z.archive.file, offset, es[i].data, crc);
    }
  }

  lemma WrittenOutOfReach(z: Opened, m: Mode, es: seq<Entry>, i: nat, o: nat)
    requires Fitting(m, es) && ValidNames(es) && i < |es| && !Reachable(m, es, i)
    requires z.archive == Reopened(m, es) && WellIndexed(z.archive.cd, z.index) && o == RecordOffset(es, i)
    requires es[i].name in z.index && z.index[es[i].name] == o + CDR_SIZE
    ensures ReadsBackAt(z, m, es, i)
  {
    EntryOutOfReach(m, es, i, o);
  }

  lemma WrittenInReach(z: Opened, m: Mode, es: seq<Entry>, i: nat, o: nat)
    requires Fitting(m, es) && ValidNames(es) && i < |es| && Reachable(m, es, i) && PaddedAt(m, es, i)
    requires z.archive == Reopened(m, es) && WellIndexed(z.archive.cd, z.index) && o == RecordOffset(es, i)
    requires es[i].name in z.index && z.index[es[i].name] == o + CDR_SIZE
    ensures ReadsBackAt(z, m, es, i)
  {
    var start, offset, crc := OffsetOf(m, es, i), DataOffset(m, es, i), Checksum(m.crc, 0, es[i].data);
    WrittenEntryReadsBack(z, m, es, i, start, o, offset, crc);
  }

  lemma WrittenReadsBackAt(z: Opened, m: Mode, es: seq<Entry>, i: nat)
    requires Fitting(m, es) && ValidNames(es) && AllPadded(m, es) && i < |es|
    requires z.archive == Reopened(m, es) && Extends(z.index, map[], EntryNames(es), RecordOffsets(es))
    requires WellIndexed(z.archive.cd, z.index)
    ensures ReadsBackAt(z, m, es, i)
  {
    IndexedAt(es, z.index, i);
    assert PaddedAt(m, es, i);
    if Reachable(m, es, i) {
      WrittenInReach(z, m, es, i, RecordOffset(es, i));
    } else {
      WrittenOutOfReach(z, m, es, i, RecordOffset(es, i));
    }
  }

  lemma WrittenReadsBack(z: Opened, m: Mode, es: seq<Entry>)
    requires Fitting(m, es) && ValidNames(es) && AllPadded(m, es)
    requires z.archive == Reopened(m, es) && Extends(z.index, map[], EntryNames(es), RecordOffsets(es))
    requires WellIndexed(z.archive.cd, z.index)
    ensures ReadsBack(z, m, es)
  {
    forall i | 0 <= i < |es| ensures ReadsBackAt(z, m, es, i) {
      WrittenReadsBackAt(z, m, es, i);
    }
  }

  /** What opening the file of a finished run yields, by the entries that survived. */
  ghost predicate OpensAs(r: Result<Opened>, m: Mode, es: seq<Entry>) {
    if es == [] then r == Err(EmptyArchive)
    else if !Distinct(EntryNames(es)) then r == Err(DuplicateEntry)
    else r.Ok? && ReadsBack(r.value, m, es)
  }

  /** Every run that ends in `Done` leaves a file that opens as its surviving entries. */
  lemma FinishedRunReadsBack(m: Mode, ops: seq<W.Op>)
    requires W.Run(m, W.Fresh(), ops).state == W.Done
    ensures var es := W.Run(m, W.Fresh(), ops).entries; OpensAs(Open(ArchiveBytes(m, es)), m, es)
  {
    var es := W.Run(m, W.Fresh(), ops).entries;
    RunIsSound(m, W.Fresh(), ops);
    ArchiveOpens(m, es);
    if es != [] && Distinct(EntryNames(es)) {
      OpenedWellIndexed(ArchiveBytes(m, es));
      WrittenReadsBack(Open(ArchiveBytes(m, es)).value, m, es);
    }
  }

  /** An entry that reads back extracts, into any room that is large enough, as the bytes that were written. */
  lemma WrittenExtracts(z: Opened, m: Mode, e: Entry, offset: nat, crc: u32, room: nat)
    requires WellIndexed(z.archive.cd, z.index) && EntryReadsBack(z, m, e, offset, crc)
    ensures var found := EntryOf(z, e.name).value;
            && Extraction.ExtractCode(z.archive.file, found, room) == (if |e.data| <= room then None else Some(IoError))
            && z.archive.file[found.offset..found.offset + found.uncompressedLength] == e.data
  {}

  /** The directory of a finished run is small enough for the hash index. */
  lemma WrittenIndexReliable(m: Mode, es: seq<Entry>)
    requires Fitting(m, es)
    ensures Reliable(ArchiveBytes(m, es))
  {
    FindsDirectory(m, es);
    SmallIsReliable(ArchiveBytes(m, es));
  }

  /** Writer and reader end to end: any calls on a fresh file that may fail at any operation, then opening
      what is there. If the writer got to `Done`, the opened archive is the ledger's. */
  method WriteThenOpen(file: W.OutputFile, seekable: bool, crc: Crc, ops: seq<W.Op>, hash: Name -> nat)
    returns (w: W.ZipWriter, r: Result<(Archive, CdEntryMap.Index)>)
    requires file.content == [] && file.position == 0 && !file.failed
    modifies file
    ensures w.Valid() && w.mode == Mode(crc, !seekable)
    ensures w.state == W.Done ==> w.View() == W.Run(w.mode, W.Fresh(), ops)
    ensures w.state == W.Done ==>
              Agrees(r, Open(file.content)) && OpensAs(Open(file.content), w.mode, w.entries)
    ensures w.state == W.Done && r.Ok? ==> ZipArchive.Sound(r.value.0, r.value.1) && fresh(r.value.1.Repr())
  {
    w := W.Execute(file, seekable, crc, ops);
    if w.state == W.Done {
      RunIsSound(w.mode, W.Fresh(), ops);
      FinishedRunReadsBack(w.mode, ops);
      WrittenIndexReliable(w.mode, w.entries);
    }
    r := OpenArchive(file.content, hash);
  }

  // ----- iterating -----

  lemma LocatableIffReachable(z: Opened, m: Mode, es: seq<Entry>, i: nat)
    requires ReadsBack(z, m, es) && i < |es|
    ensures ZipIteration.Locatable(z.archive, z.index, es[i].name) <==> Reachable(m, es, i)
  {
    assert ReadsBackAt(z, m, es, i);
  }

  /** An iteration over written entries delivers matching names, each once. It runs to the end with all of
      them if and only if no matching entry is out of reach; otherwise it stops at the empty name of the last
      entry. */
  ghost predicate ListsEntries(m: Mode, es: seq<Entry>, matcher: Name -> bool, names: seq<Name>, last: ZipIteration.Step) {
    && !last.Found? && Distinct(names) && (forall n :: n in names ==> n in EntryNames(es) && matcher(n))
    && (last.End? ==> forall n :: n in EntryNames(es) && matcher(n) ==> n in names)
    && (last.End? <==> forall i :: 0 <= i < |es| ==> ListedAt(m, es, matcher, i))
    && (last.Failed? ==> last == ZipIteration.Failed([], InvalidOffset) && [] !in names && es != [] && !Reachable(m, es, |es| - 1))
  }

  ghost predicate ListedAt(m: Mode, es: seq<Entry>, matcher: Name -> bool, i: nat)
    requires i < |es|
  {
    matcher(es[i].name) ==> Reachable(m, es, i)
  }

  /** The wanted names of the index are the matching names that were written. */
  lemma WantedNames(z: Opened, m: Mode, es: seq<Entry>, matcher: Name -> bool, wanted: set<Name>, n: Name)
    requires ReadsBack(z, m, es) && wanted == ZipIteration.Matching(z.index.Keys, matcher)
    ensures n in wanted <==> n in EntryNames(es) && matcher(n)
  {
    assert Answers(z, es, n);
  }

  lemma ListedIff(z: Opened, m: Mode, es: seq<Entry>, matcher: Name -> bool, wanted: set<Name>, i: nat, n: Name)
    requires ReadsBack(z, m, es) && wanted == ZipIteration.Matching(z.index.Keys, matcher) && i < |es| && n == es[i].name
    ensures ListedAt(m, es, matcher, i) <==> (n in wanted ==> ZipIteration.Locatable(z.archive, z.index, n))
  {
    assert EntryNames(es)[i] == n;
    WantedNames(z, m, es, matcher, wanted, n);
    LocatableIffReachable(z, m, es, i);
  }

  lemma LocatableListed(z: Opened, m: Mode, es: seq<Entry>, matcher: Name -> bool, wanted: set<Name>)
    requires ReadsBack(z, m, es) && wanted == ZipIteration.Matching(z.index.Keys, matcher)
    requires forall n :: n in wanted ==> ZipIteration.Locatable(z.archive, z.index, n)
    ensures forall i :: 0 <= i < |es| ==> ListedAt(m, es, matcher, i)
  {
    forall i | 0 <= i < |es| ensures ListedAt(m, es, matcher, i) {
      ListedIff(z, m, es, matcher, wanted, i, es[i].name);
    }
  }

  lemma WantedEntry(z: Opened, m: Mode, es: seq<Entry>, matcher: Name -> bool, wanted: set<Name>, n: Name) returns (i: nat)
    requires ReadsBack(z, m, es) && wanted == ZipIteration.Matching(z.index.Keys, matcher) && n in wanted
    ensures i < |es| && es[i].name == n
  {
    WantedNames(z, m, es, matcher, wanted, n);
    i :| i < |es| && EntryNames(es)[i] == n;
  }

  lemma ListedLocatable(z: Opened, m: Mode, es: seq<Entry>, matcher: Name -> bool, wanted: set<Name>)
    requires ReadsBack(z, m, es) && wanted == ZipIteration.Matching(z.index.Keys, matcher)
    requires forall i :: 0 <= i < |es| ==> ListedAt(m, es, matcher, i)
    ensures forall n :: n in wanted ==> ZipIteration.Locatable(z.archive, z.index, n)
  {
    forall n | n in wanted ensures ZipIteration.Locatable(z.archive, z.index, n) {
      var i := WantedEntry(z, m, es, matcher, wanted, n);
      ListedIff(z, m, es, matcher, wanted, i, n);
    }
  }

  /** A failure can only be that of the entry out of reach. */
  lemma FailedOutOfReach(z: Opened, m: Mode, es: seq<Entry>, last: ZipIteration.Step, i: nat)
    requires ReadsBack(z, m, es) && i < |es| && last.Failed? && last.name == es[i].name && ZipIteration.Resolves(z.archive, z.index, last)
    ensures last == ZipIteration.Failed([], InvalidOffset) && !Reachable(m, es, |es| - 1)
  {
    assert ReadsBackAt(z, m, es, i);
    UnreachableExactly(m, es, i);
  }

  lemma EndsWritten(z: Opened, m: Mode, es: seq<Entry>, matcher: Name -> bool, wanted: set<Name>)
    requires ReadsBack(z, m, es) && wanted == ZipIteration.Matching(z.index.Keys, matcher)
    ensures (forall n :: n in wanted ==> ZipIteration.Locatable(z.archive, z.index, n)) <==> forall i :: 0 <= i < |es| ==> ListedAt(m, es, matcher, i)
  {
    if forall n :: n in wanted ==> ZipIteration.Locatable(z.archive, z.index, n) {
      LocatableListed(z, m, es, matcher, wanted);
    }
    if forall i :: 0 <= i < |es| ==> ListedAt(m, es, matcher, i) {
      ListedLocatable(z, m, es, matcher, wanted);
    }
  }

  lemma ListsWritten(z: Opened, m: Mode, es: seq<Entry>, matcher: Name -> bool, names: seq<Name>, last: ZipIteration.Step)
    requires ReadsBack(z, m, es) && ZipIteration.Iterates(z.archive, z.index, matcher, names, last)
    ensures ListsEntries(m, es, matcher, names, last)
  {
    var wanted := ZipIteration.Matching(z.index.Keys, matcher);
    EndsWritten(z, m, es, matcher, wanted);
    if last.Failed? {
      var i := WantedEntry(z, m, es, matcher, wanted, last.name);
      FailedOutOfReach(z, m, es, last, i);
    }
    forall n ensures n in wanted <==> n in EntryNames(es) && matcher(n) {
      WantedNames(z, m, es, matcher, wanted, n);
    }
  }

  /** Writer, reader and iteration end to end. */
  method WriteThenList(file: W.OutputFile, seekable: bool, crc: Crc, ops: seq<W.Op>, hash: Name -> nat, matcher: Name -> bool)
    returns (w: W.ZipWriter, names: seq<Name>, last: ZipIteration.Step)
    requires file.content == [] && file.position == 0 && !file.failed
    modifies file
    ensures w.Valid() && w.mode == Mode(crc, !seekable)
    ensures w.state == W.Done ==> w.View() == W.Run(w.mode, W.Fresh(), ops)
    ensures w.state == W.Done && w.entries != [] && Distinct(EntryNames(w.entries)) ==>
              ListsEntries(w.mode, w.entries, matcher, names, last)
  {
    w := W.Execute(file, seekable, crc, ops);
    names, last := [], ZipIteration.End;
    if w.state == W.Done {
      names, last := ListFinished(file.content, hash, matcher, w.mode, ops, w.entries);
    }
  }

  /** Opening and iterating over the file of a finished run. */
  method ListFinished(content: seq<byte>, hash: Name -> nat, matcher: Name -> bool, ghost m: Mode, ghost ops: seq<W.Op>, ghost es: seq<Entry>)
    returns (names: seq<Name>, last: ZipIteration.Step)
    requires W.Run(m, W.Fresh(), ops).state == W.Done && es == W.Run(m, W.Fresh(), ops).entries && content == ArchiveBytes(m, es)
    ensures es != [] && Distinct(EntryNames(es)) ==> ListsEntries(m, es, matcher, names, last)
  {
    RunIsSound(m, W.Fresh(), ops);
    WrittenIndexReliable(m, es);
    var error;
    error, names, last := ZipIteration.OpenAndList(content, hash, matcher);
    FinishedRunReadsBack(m, ops);
    if es != [] && Distinct(EntryNames(es)) { ListsWritten(Open(content).value, m, es, matcher, names, last); }
  }

  // ----- streaming -----

  lemma MappedReads(zip: Extraction.Backing, offset: nat, length: nat)
    requires zip.Mapped? && offset + length <= |zip.bytes|
    ensures Extraction.AllReadable(zip, offset, length)
  {
    Extraction.DependableReadsAll(zip, offset, length);
  }

  /** A stream over an entry that reads back, with the writer's own checksum: if all of it can be read it is
      what was written and verifies, and else something is missing. */
  method StreamWritten(zip: Extraction.Backing, step: Crc, found: ZipEntry, ghost z: Opened, ghost m: Mode, ghost e: Entry, ghost offset: nat)
    returns (out: seq<byte>, verified: bool)
    requires WellIndexed(z.archive.cd, z.index) && EntryReadsBack(z, m, e, offset, Checksum(m.crc, 0, e.data))
    requires found == EntryOf(z, e.name).value && zip.bytes == z.archive.file && step == m.crc
    ensures Extraction.AllReadable(zip, offset, |e.data|) ==> out == e.data && verified
    ensures !Extraction.AllReadable(zip, offset, |e.data|) ==> |out| < |e.data|
    ensures zip.Mapped? ==> Extraction.AllReadable(zip, offset, |e.data|)
  {
    if zip.Mapped? { MappedReads(zip, offset, |e.data|); }
    out, verified := Extraction.Drain(zip, step, found);
  }

  lemma FinishedEntry(m: Mode, ops: seq<W.Op>, es: seq<Entry>, i: nat, content: seq<byte>)
    requires W.Run(m, W.Fresh(), ops).state == W.Done && es == W.Run(m, W.Fresh(), ops).entries && content == ArchiveBytes(m, es)
    requires Distinct(EntryNames(es)) && i < |es| && es[i].name != []
    ensures Open(content).Ok? && Open(content).value.archive.file == content
    ensures WellIndexed(Open(content).value.archive.cd, Open(content).value.index)
    ensures EntryReadsBack(Open(content).value, m, es[i], DataOffset(m, es, i), Checksum(m.crc, 0, es[i].data))
    ensures LookupIn(content, es[i].name) == EntryOf(Open(content).value, es[i].name) && LookupIn(content, es[i].name).Ok?
  {
    FinishedRunReadsBack(m, ops);
    var z := Open(content).value;
    assert ReadsBackAt(z, m, es, i) && Answers(z, es, es[i].name);
    UnreachableExactly(m, es, i);
    ZipIteration.LookupUnfolds(content, es[i].name, z);
  }

  /** Opening the file of a finished run, looking a written name up and reading it as a stream from a mapping
      gives the payload back, verified. */
  method StreamFinished(content: seq<byte>, hash: Name -> nat, step: Crc, name: Name, ghost m: Mode, ghost ops: seq<W.Op>, ghost es: seq<Entry>, ghost i: nat)
    returns (out: seq<byte>, verified: bool)
    requires W.Run(m, W.Fresh(), ops).state == W.Done && es == W.Run(m, W.Fresh(), ops).entries && content == ArchiveBytes(m, es)
    requires Distinct(EntryNames(es)) && i < |es| && name == es[i].name != [] && step == m.crc
    ensures out == es[i].data && verified
  {
    RunIsSound(m, W.Fresh(), ops);
    WrittenIndexReliable(m, es);
    FinishedEntry(m, ops, es, i, content);
    var found := ZipIteration.OpenAndLookup(content, hash, name);
    ghost var offset := DataOffset(m, es, i);
    out, verified := StreamWritten(Extraction.Mapped(content), step, found.value, Open(content).value, m, es[i], offset);
  }
}
