/** The ordinary use of the writer: one entry after the other, each payload in any chunks, then the end.
    Exactly when it succeeds, and what the reader then finds, in terms of what the caller asked for. */
module WriterScripts {
  import opened Bytes
  import opened ZipErrors
  import opened ZipFormat
  import opened ZipLayout
  import opened EntryName
  import opened RoundTrip
  import W = ZipWriter
  import opened WrittenArchives
  import ZipArchive
  import ZipDirectory

  /** What a caller asks for: an entry with its payload in chunks. */
  datatype RawRequest = Request(name: seq<byte>, time: u16, date: u16, alignment: u32, chunks: seq<seq<byte>>)

  ghost predicate Admissible(r: RawRequest) {
    ValidName(r.name) && |r.name| <= U16_MAX && W.AlignmentAllowed(r.alignment) && |Flatten(r.chunks)| <= U32_MAX
  }

  ghost predicate AllAdmissible(rs: seq<RawRequest>) {
    forall i :: 0 <= i < |rs| ==> Admissible(rs[i])
  }

  function Writes(chunks: seq<seq<byte>>): (ops: seq<W.Op>)
    ensures |ops| == |chunks|
  {
    seq(|chunks|, i requires 0 <= i < |chunks| => W.WriteBytes(chunks[i]))
  }

  function Calls(r: RawRequest): (ops: seq<W.Op>) {
    [W.StartAlignedEntry(r.name, false, r.time, r.date, r.alignment)] + Writes(r.chunks) + [W.FinishEntry]
  }

  function AllCalls(rs: seq<RawRequest>): (ops: seq<W.Op>) {
    if rs == [] then [] else AllCalls(rs[..|rs| - 1]) + Calls(rs[|rs| - 1])
  }

  /** The entry that a request becomes behind others. */
  ghost function EntryFor(m: Mode, es: seq<Entry>, r: RawRequest): (e: Entry)
    requires Admissible(r)
  {
    W.PaddingFits(End(m, es) + LFH_SIZE + |r.name|, r.alignment);
    Entry(r.name, r.time, r.date, r.alignment, W.EntryPadding(End(m, es), |r.name|, r.alignment), Flatten(r.chunks))
  }

  ghost function EntriesFor(m: Mode, rs: seq<RawRequest>): (es: seq<Entry>)
    requires AllAdmissible(rs)
    ensures |es| == |rs|
  {
    if rs == [] then []
    else var es := EntriesFor(m, rs[..|rs| - 1]); es + [EntryFor(m, es, rs[|rs| - 1])]
  }

  // ----- runs -----

  lemma {:induction false} RunAppend(m: Mode, l: W.Ledger, a: seq<W.Op>, b: seq<W.Op>)
    ensures W.Run(m, l, a + b) == W.Run(m, W.Run(m, l, a), b)
    decreases |a|
  {
    if a == [] {
      assert a + b == b;
    } else {
      RunAppend(m, W.Apply(m, l, a[0]), a[1..], b);
      assert (a + b)[0] == a[0] && (a + b)[1..] == a[1..] + b;
    }
  }

  lemma RunOne(m: Mode, l: W.Ledger, op: W.Op)
    ensures W.Run(m, l, [op]) == W.Apply(m, l, op)
  {
    assert [op][1..] == [];
    assert W.Run(m, W.Apply(m, l, op), []) == W.Apply(m, l, op);
  }

  function Writing(l: W.Ledger, data: seq<byte>): (r: W.Ledger)
    requires |data| <= U32_MAX
  {
    l.(open := l.open.(data := data))
  }

  lemma WriteOne(l: W.Ledger, data: seq<byte>, chunk: seq<byte>)
    requires l.state == W.WritingEntry && |data| + |chunk| <= U32_MAX
    ensures W.AfterWrite(Writing(l, data), chunk) == Writing(l, data + chunk)
  {}

  /** Any chunks of a payload that fits leave the open entry with their concatenation. */
  lemma {:induction false} RunWrites(m: Mode, l: W.Ledger, chunks: seq<seq<byte>>, data: seq<byte>)
    requires l.state == W.WritingEntry && l.open.data == [] && data == Flatten(chunks) && |data| <= U32_MAX
    ensures W.Run(m, l, Writes(chunks)) == Writing(l, data)
    decreases |chunks|
  {
    if chunks == [] {
      assert W.Run(m, l, []) == l;
    } else {
      var front, last := chunks[..|chunks| - 1], chunks[|chunks| - 1];
      var before := Flatten(front);
      assert data == before + last;
      RunWrites(m, l, front, before);
      assert Writes(chunks) == Writes(front) + [W.WriteBytes(last)];
      RunAppend(m, l, Writes(front), [W.WriteBytes(last)]);
      RunOne(m, Writing(l, before), W.WriteBytes(last));
      WriteOne(l, before, last);
    }
  }

  /** The writer can take another entry. */
  predicate Roomy(m: Mode, es: seq<Entry>) {
    |es| < U16_MAX && End(m, es) <= U32_MAX
  }

  lemma StartSucceeds(m: Mode, l: W.Ledger, r: RawRequest)
    requires l.state == W.WritingZip && Admissible(r) && Roomy(m, l.entries)
    ensures var s := W.AfterStart(m, l, r.name, false, r.time, r.date, r.alignment);
            s.state == W.WritingEntry && s.entries == l.entries && s.open == EntryFor(m, l.entries, r).(data := [])
  {
    assert W.StartCode(m, l, r.name, false, r.alignment) == W.NoError;
  }

  lemma RunRequest(m: Mode, l: W.Ledger, r: RawRequest)
    requires l.state == W.WritingZip && Admissible(r) && Roomy(m, l.entries)
    ensures var l' := W.Run(m, l, Calls(r)); l'.state == W.WritingZip && l'.entries == l.entries + [EntryFor(m, l.entries, r)]
  {
    var start := W.StartAlignedEntry(r.name, false, r.time, r.date, r.alignment);
    var s := W.AfterStart(m, l, r.name, false, r.time, r.date, r.alignment);
    StartSucceeds(m, l, r);
    RunOne(m, l, start);
    RunWrites(m, s, r.chunks, Flatten(r.chunks));
    RunAppend(m, l, [start], Writes(r.chunks));
    RunAppend(m, l, [start] + Writes(r.chunks), [W.FinishEntry]);
    RunOne(m, Writing(s, Flatten(r.chunks)), W.FinishEntry);
  }

  lemma RunRefused(m: Mode, l: W.Ledger, r: RawRequest)
    requires l.state == W.Error || (l.state == W.WritingZip && |l.entries| <= U16_MAX && !Roomy(m, l.entries) && Admissible(r))
    ensures W.Run(m, l, Calls(r)).state == W.Error
  {
    var start := W.StartAlignedEntry(r.name, false, r.time, r.date, r.alignment);
    var rest := Writes(r.chunks) + [W.FinishEntry];
    assert Calls(r) == [start] + rest;
    RunAppend(m, l, [start], rest);
    RunOne(m, l, start);
    W.ErrorIsFinal(m, W.Apply(m, l, start), rest);
  }

  // ----- exactly when a script succeeds -----

  /** Too many entries, or too many bytes for another header. */
  predicate Overfull(m: Mode, es: seq<Entry>) {
    |es| > U16_MAX || End(m, es) > U32_MAX
  }

  lemma OverfullStays(m: Mode, es: seq<Entry>, e: Entry)
    requires Overfull(m, es) || (|es| <= U16_MAX && !Roomy(m, es))
    ensures Overfull(m, es + [e])
  {
    W.EndAppend(m, es, e);
  }

  /** Where the writer stands after some requests: it holds exactly their entries, or it has failed because
      they are too many or too long. */
  ghost predicate Stands(m: Mode, l: W.Ledger, es: seq<Entry>) {
    || (l.state == W.WritingZip && l.entries == es && |es| <= U16_MAX)
    || (l.state == W.Error && Overfull(m, es))
  }

  lemma StandsAfter(m: Mode, l: W.Ledger, es: seq<Entry>, r: RawRequest)
    requires Stands(m, l, es) && Admissible(r)
    ensures Stands(m, W.Run(m, l, Calls(r)), es + [EntryFor(m, es, r)])
  {
    if l.state == W.WritingZip && Roomy(m, es) {
      RunRequest(m, l, r);
    } else {
      RunRefused(m, l, r);
      OverfullStays(m, es, EntryFor(m, es, r));
    }
  }

  lemma {:induction false} RunAll(m: Mode, rs: seq<RawRequest>, l: W.Ledger, es: seq<Entry>)
    requires AllAdmissible(rs) && es == EntriesFor(m, rs) && l == W.Run(m, W.Fresh(), AllCalls(rs))
    ensures Stands(m, l, es)
    decreases |rs|
  {
    if rs != [] {
      var front, last := rs[..|rs| - 1], rs[|rs| - 1];
      var before := W.Run(m, W.Fresh(), AllCalls(front));
      RunAll(m, front, before, EntriesFor(m, front));
      RunAppend(m, W.Fresh(), AllCalls(front), Calls(last));
      StandsAfter(m, before, EntriesFor(m, front), last);
    }
  }

  /** The whole script ends done if and only if its entries fit the format, and then it holds exactly them. */
  lemma ScriptSucceedsExactly(m: Mode, rs: seq<RawRequest>, es: seq<Entry>)
    requires AllAdmissible(rs) && es == EntriesFor(m, rs)
    ensures var l := W.Run(m, W.Fresh(), AllCalls(rs) + [W.Finish]);
            (l.state == W.Done <==> Fitting(m, es)) && (l.state == W.Done ==> l.entries == es)
  {
    var l := W.Run(m, W.Fresh(), AllCalls(rs));
    RunAll(m, rs, l, es);
    RunAppend(m, W.Fresh(), AllCalls(rs), [W.Finish]);
    RunOne(m, l, W.Finish);
  }

  // ----- what the reader finds -----

  /** An entry holds what its request asked for. */
  lemma {:induction false} EntryOfRequest(m: Mode, rs: seq<RawRequest>, i: nat, es: seq<Entry>)
    requires AllAdmissible(rs) && i < |rs| && es == EntriesFor(m, rs)
    ensures es[i].name == rs[i].name && es[i].time == rs[i].time && es[i].date == rs[i].date && es[i].alignment == rs[i].alignment && es[i].data == Flatten(rs[i].chunks)
    decreases |rs|
  {
    if i < |rs| - 1 {
      EntryOfRequest(m, rs[..|rs| - 1], i, EntriesFor(m, rs[..|rs| - 1]));
    }
  }

  ghost predicate DistinctNames(rs: seq<RawRequest>) {
    forall i, j :: 0 <= i < j < |rs| ==> rs[i].name != rs[j].name
  }

  lemma NamesDistinct(m: Mode, rs: seq<RawRequest>, es: seq<Entry>)
    requires AllAdmissible(rs) && es == EntriesFor(m, rs) && DistinctNames(rs)
    ensures ZipDirectory.Distinct(EntryNames(es))
  {
    forall i | 0 <= i < |rs| ensures EntryNames(es)[i] == rs[i].name {
      EntryOfRequest(m, rs, i, es);
    }
  }

  /** The payload of a request, at an offset of the requested alignment. */
  ghost predicate Delivers(z: ZipArchive.Opened, r: RawRequest, offset: nat, crc: u32, descriptor: bool)
    requires ZipArchive.WellIndexed(z.archive.cd, z.index)
  {
    && FoundAt(ZipArchive.FindEntry(z, r.name), z.archive.file, offset, Flatten(r.chunks), crc, descriptor, ZipArchive.Stamp(r.date, r.time))
    && (r.alignment != 0 ==> offset % r.alignment == 0)
  }

  /** Requests with distinct nonempty names that fit the format come back: the file opens, and each name is
      found with the concatenation of its chunks. */
  lemma PayloadsComeBack(m: Mode, rs: seq<RawRequest>, i: nat, es: seq<Entry>)
    requires AllAdmissible(rs) && DistinctNames(rs) && es == EntriesFor(m, rs) && Fitting(m, es)
    requires i < |rs| && rs[i].name != []
    ensures W.Run(m, W.Fresh(), AllCalls(rs) + [W.Finish]).state == W.Done
    ensures var r := ZipArchive.Open(ArchiveBytes(m, es));
            && r.Ok? && ZipArchive.WellIndexed(r.value.archive.cd, r.value.index)
            && Delivers(r.value, rs[i], DataOffset(m, es, i), Checksum(m.crc, 0, Flatten(rs[i].chunks)), m.descriptors)
  {
    ScriptSucceedsExactly(m, rs, es);
    FinishedRunReadsBack(m, AllCalls(rs) + [W.Finish]);
    NamesDistinct(m, rs, es);
    EntryOfRequest(m, rs, i, es);
    var z := ZipArchive.Open(ArchiveBytes(m, es)).value;
    UnreachableExactly(m, es, i);
    assert ReadsBackAt(z, m, es, i) && Answers(z, es, rs[i].name);
  }

  // ----- where the reader does not follow -----

  /** Two entries of the same name: the writer is done, and the reader refuses the file. */
  lemma RepeatedNameRefused(m: Mode)
    ensures var rs := [Request([97], 0, 0, 0, []), Request([97], 0, 0, 0, [])];
            && AllAdmissible(rs)
            && W.Run(m, W.Fresh(), AllCalls(rs) + [W.Finish]).state == W.Done
            && ZipArchive.Open(ArchiveBytes(m, EntriesFor(m, rs))) == Err(DuplicateEntry)
  {
    var rs := [Request([97], 0, 0, 0, []), Request([97], 0, 0, 0, [])];
    PlainNameValid();
    var es := EntriesFor(m, rs);
    SmallScriptFits(m, rs, es);
    ScriptSucceedsExactly(m, rs, es);
    RunIsSound(m, W.Fresh(), AllCalls(rs) + [W.Finish]);
    ArchiveOpens(m, es);
    EntryOfRequest(m, rs, 0, es);
    EntryOfRequest(m, rs, 1, es);
    assert EntryNames(es)[0] == EntryNames(es)[1];
  }

  /** One empty entry with an empty name on seekable output: the writer is done and the file opens, but the
      entry cannot be read, and an iteration stops at it. */
  lemma LastEmptyEntryLost(m: Mode)
    requires !m.descriptors
    ensures var rs := [Request([], 0, 0, 0, [])];
            && AllAdmissible(rs)
            && W.Run(m, W.Fresh(), AllCalls(rs) + [W.Finish]).state == W.Done
            && var z := ZipArchive.Open(ArchiveBytes(m, EntriesFor(m, rs)));
            && z.Ok? && ZipArchive.WellIndexed(z.value.archive.cd, z.value.index) && [] in z.value.index
            && ZipArchive.EntryOf(z.value, []) == Err(InvalidOffset)
  {
    var rs := [Request([], 0, 0, 0, [])];
    PlainNameValid();
    var es := EntriesFor(m, rs);
    assert es == [EntryFor(m, [], rs[0])];
    SmallScriptFits(m, rs, es);
    ScriptSucceedsExactly(m, rs, es);
    FinishedRunReadsBack(m, AllCalls(rs) + [W.Finish]);
    UnreachableExactly(m, es, 0);
    var z := ZipArchive.Open(ArchiveBytes(m, es)).value;
    assert ReadsBackAt(z, m, es, 0);
  }

  lemma PlainNameValid()
    ensures ValidName([97]) && ValidName([])
  {
    assert Scans([97]) && Scans([]);
  }

  lemma SmallScriptFits(m: Mode, rs: seq<RawRequest>, es: seq<Entry>)
    requires AllAdmissible(rs) && es == EntriesFor(m, rs) && |rs| <= 2
    requires forall i :: 0 <= i < |rs| ==> rs[i].chunks == [] && |rs[i].name| <= 1 && rs[i].alignment == 0
    ensures Fitting(m, es)
  {
    assert Flatten([]) == [];
    if |rs| >= 1 {
      EntryOfRequest(m, rs, 0, es);
      assert OffsetOf(m, es, 1) == TileLength(m, es[0]) && RecordOffset(es, 1) == CDR_SIZE + |es[0].name|;
    }
    if |rs| == 2 {
      EntryOfRequest(m, rs, 1, es);
      assert OffsetOf(m, es, 2) == OffsetOf(m, es, 1) + TileLength(m, es[1]);
      assert RecordOffset(es, 2) == RecordOffset(es, 1) + CDR_SIZE + |es[1].name|;
    }
  }
}
