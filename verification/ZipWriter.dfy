/** The archive writer: a state machine over a seekable file that lays entries out, patches headers in
    place and can take its last entry back. Every method is proved against a step of the abstract
    ledger, and the file is proved to hold the reference layout of the ledger at all times. */
module ZipWriter {
  import opened Bytes
  import Bits
  import opened EntryName
  import opened ZipFormat
  import opened ZipLayout

  datatype State = WritingZip | WritingEntry | Done | Error
  datatype Code = NoError | InvalidState | IoError | InvalidEntryName | InvalidAlign32Flag | InvalidAlignment

  // ----- the ledger: what a client of the writer sees -----

  datatype Ledger = Ledger(state: State, entries: seq<Entry>, open: Entry)

  /** One call on the writer. */
  datatype Op =
    | StartAlignedEntry(name: seq<byte>, align32: bool, time: u16, date: u16, alignment: u32)
    | WriteBytes(chunk: seq<byte>)
    | FinishEntry
    | DiscardLastEntry
    | Finish

  /** Zero, or a power of two that fits the 16-bit padding field. */
  ghost predicate AlignmentAllowed(alignment: nat) {
    alignment == 0 || (Bits.IsPowerOf2(alignment) && alignment <= U16_MAX)
  }

  /** The zero bytes that bring `offset` up to the next multiple of the alignment. */
  function Padding(offset: nat, alignment: nat): (p: nat) {
    if alignment == 0 || offset % alignment == 0 then 0 else alignment - offset % alignment
  }

  /** The padding of an entry that starts at `start`: its data follow the header, the name and the padding. */
  function EntryPadding(start: nat, nameLength: nat, alignment: nat): (p: nat) {
    Padding(start + LFH_SIZE + nameLength, alignment)
  }

  ghost function StartCode(m: Mode, l: Ledger, name: seq<byte>, align32: bool, alignment: nat): (c: Code) {
    if l.state != WritingZip then InvalidState
    else if |l.entries| == U16_MAX then IoError
    else if align32 then InvalidAlign32Flag
    else if !AlignmentAllowed(alignment) then InvalidAlignment
    else if End(m, l.entries) > U32_MAX then IoError
    else if !ValidName(name) then InvalidEntryName
    else NoError
  }

  ghost function FinishCode(m: Mode, l: Ledger): (c: Code) {
    if l.state != WritingZip then InvalidState
    else if End(m, l.entries) + RecordOffset(l.entries, |l.entries|) > U32_MAX then IoError
    else NoError
  }

  ghost function WriteCode(l: Ledger, chunk: seq<byte>): (c: Code) {
    if l.state != WritingEntry then InvalidState
    else if |chunk| + |l.open.data| > U32_MAX then IoError
    else NoError
  }

  ghost function EntryCode(l: Ledger): (c: Code) {
    if l.state != WritingEntry then InvalidState else NoError
  }

  ghost function DiscardCode(l: Ledger): (c: Code) {
    if l.state != WritingZip || l.entries == [] then InvalidState else NoError
  }

  ghost function Opened(l: Ledger, name: seq<byte>, time: u16, date: u16, alignment: u32, padding: u16): (r: Ledger)
    requires |name| <= U16_MAX
  {
    l.(state := WritingEntry, open := Entry(name, time, date, alignment, padding, []))
  }

  ghost function StartedWith(code: Code, m: Mode, l: Ledger, name: seq<byte>, time: u16, date: u16, alignment: u32): (r: Ledger)
    requires code == NoError ==> |name| <= U16_MAX && AlignmentAllowed(alignment)
  {
    match code
    case NoError =>
      PaddingFits(End(m, l.entries) + LFH_SIZE + |name|, alignment);
      Opened(l, name, time, date, alignment, EntryPadding(End(m, l.entries), |name|, alignment))
    case IoError => l.(state := Error)
    case _ => l
  }

  lemma StartedOpens(m: Mode, l: Ledger, name: seq<byte>, time: u16, date: u16, alignment: u32, padding: u16)
    requires |name| <= U16_MAX && AlignmentAllowed(alignment) && padding == EntryPadding(End(m, l.entries), |name|, alignment)
    ensures StartedWith(NoError, m, l, name, time, date, alignment) == Opened(l, name, time, date, alignment, padding)
  {}

  ghost function AfterStart(m: Mode, l: Ledger, name: seq<byte>, align32: bool, time: u16, date: u16, alignment: u32): (r: Ledger) {
    StartedWith(StartCode(m, l, name, align32, alignment), m, l, name, time, date, alignment)
  }

  ghost function AfterWrite(l: Ledger, chunk: seq<byte>): (r: Ledger) {
    if WriteCode(l, chunk) == NoError then l.(open := l.open.(data := l.open.data + chunk)) else l.(state := Error)
  }

  ghost function AfterFinishEntry(l: Ledger): (r: Ledger) {
    if EntryCode(l) == NoError then l.(state := WritingZip, entries := l.entries + [l.open]) else l
  }

  ghost function AfterDiscard(l: Ledger): (r: Ledger) {
    if DiscardCode(l) == NoError then l.(entries := l.entries[..|l.entries| - 1]) else l
  }

  ghost function AfterFinish(m: Mode, l: Ledger): (r: Ledger) {
    match FinishCode(m, l)
    case NoError => l.(state := Done)
    case IoError => l.(state := Error)
    case _ => l
  }

  /** The ledger after one call on a file that does not fail. */
  ghost function Apply(m: Mode, l: Ledger, op: Op): (r: Ledger) {
    match op
    case StartAlignedEntry(name, align32, time, date, alignment) => AfterStart(m, l, name, align32, time, date, alignment)
    case WriteBytes(chunk) => AfterWrite(l, chunk)
    case FinishEntry => AfterFinishEntry(l)
    case DiscardLastEntry => AfterDiscard(l)
    case Finish => AfterFinish(m, l)
  }

  ghost function Fresh(): (l: Ledger) {
    Ledger(WritingZip, [], Entry([], 0, 0, 0, 0, []))
  }

  ghost function Run(m: Mode, l: Ledger, ops: seq<Op>): (r: Ledger)
    decreases |ops|
  {
    if ops == [] then l else Run(m, Apply(m, l, ops[0]), ops[1..])
  }

  lemma RunStep(m: Mode, l: Ledger, ops: seq<Op>, i: nat)
    requires i < |ops|
    ensures Run(m, l, ops[i..]) == Run(m, Apply(m, l, ops[i]), ops[i + 1..])
  {
    assert ops[i..][0] == ops[i] && ops[i..][1..] == ops[i + 1..];
  }

  /** No run leaves the error state. */
  lemma {:induction false} ErrorIsFinal(m: Mode, l: Ledger, ops: seq<Op>)
    requires l.state == Error
    ensures Run(m, l, ops).state == Error
    decreases |ops|
  {
    if ops != [] {
      ErrorIsFinal(m, Apply(m, l, ops[0]), ops[1..]);
    }
  }

  /** How a payload is cut into chunks does not matter. */
  lemma SplitWrite(l: Ledger, a: seq<byte>, b: seq<byte>)
    ensures AfterWrite(AfterWrite(l, a), b).state == AfterWrite(l, a + b).state
    ensures WriteCode(l, a + b) == NoError ==> AfterWrite(AfterWrite(l, a), b) == AfterWrite(l, a + b)
  {
    assert l.open.data + a + b == l.open.data + (a + b);
  }

  /** Discarding takes back exactly the last entry: its start, its writes and its end. */
  lemma DiscardUndoes(m: Mode, l: Ledger, name: seq<byte>, time: u16, date: u16, alignment: u32, data: seq<byte>)
    requires StartCode(m, l, name, false, alignment) == NoError && |data| <= U32_MAX
    ensures var r := Run(m, l, [StartAlignedEntry(name, false, time, date, alignment), WriteBytes(data), FinishEntry, DiscardLastEntry]);
            r.state == l.state && r.entries == l.entries
  {
    var l1 := AfterStart(m, l, name, false, time, date, alignment);
    var l2 := AfterWrite(l1, data);
    var l3 := AfterFinishEntry(l2);
    var ops := [StartAlignedEntry(name, false, time, date, alignment), WriteBytes(data), FinishEntry, DiscardLastEntry];
    RunStep(m, l, ops, 0);
    RunStep(m, l1, ops, 1);
    RunStep(m, l2, ops, 2);
    RunStep(m, l3, ops, 3);
    assert ops[0..] == ops && (l.entries + [l2.open])[..|l.entries|] == l.entries;
  }

  // ----- what each call answers -----

  lemma AlignmentsAllowed(alignment: nat)
    ensures AlignmentAllowed(alignment) <==>
            alignment in {0, 1, 2, 4, 8, 16, 32, 64, 128, 256, 512, 1024, 2048, 4096, 8192, 16384, 32768}
  {
    Bits.SmallPowers();
    if Bits.IsPowerOf2(alignment) && alignment <= U16_MAX {
      var k :| Bits.Pow2(k) == alignment;
      if k >= 16 { Bits.PowersGrow(16, k); }
    }
  }

  /** Starting an entry. Exhausted counts and offsets are fatal, other refusals leave the ledger alone, and an
      entry that opens is what was asked for, with the least padding that aligns its data. */
  lemma StartOutcome(m: Mode, l: Ledger, name: seq<byte>, align32: bool, time: u16, date: u16, alignment: u32)
    ensures var code, r := StartCode(m, l, name, align32, alignment), AfterStart(m, l, name, align32, time, date, alignment);
            if l.state != WritingZip then code == InvalidState && r == l
            else if |l.entries| == 65535 then code == IoError && r == l.(state := Error)
            else if align32 then code == InvalidAlign32Flag && r == l
            else if alignment !in {0, 1, 2, 4, 8, 16, 32, 64, 128, 256, 512, 1024, 2048, 4096, 8192, 16384, 32768} then code == InvalidAlignment && r == l
            else if End(m, l.entries) > 0xFFFF_FFFF then code == IoError && r == l.(state := Error)
            else if |name| > 65535 || !IsWellFormed(name) then code == InvalidEntryName && r == l
            else
              var p := r.open.padding;
              && code == NoError && r.state == WritingEntry && r.entries == l.entries
              && r.open == Entry(name, time, date, alignment, p, [])
              && (if alignment == 0 then p == 0 else p < alignment && (End(m, l.entries) + 30 + |name| + p) % alignment == 0)
  {
    AlignmentsAllowed(alignment);
    ScansIffWellFormed(name);
    if StartCode(m, l, name, align32, alignment) == NoError {
      PaddingFits(End(m, l.entries) + LFH_SIZE + |name|, alignment);
    }
  }

  /** Writing out of turn or beyond 32 bits is fatal. */
  lemma WriteOutcome(l: Ledger, chunk: seq<byte>)
    ensures var code, r := WriteCode(l, chunk), AfterWrite(l, chunk);
            if l.state != WritingEntry then code == InvalidState && r == l.(state := Error)
            else if |l.open.data| + |chunk| > 0xFFFF_FFFF then code == IoError && r == l.(state := Error)
            else code == NoError && r == l.(open := l.open.(data := l.open.data + chunk))
  {}

  /** Finishing or discarding an entry out of turn changes nothing. */
  lemma EntryOutcome(l: Ledger)
    ensures if l.state != WritingEntry then EntryCode(l) == InvalidState && AfterFinishEntry(l) == l
            else EntryCode(l) == NoError && AfterFinishEntry(l) == Ledger(WritingZip, l.entries + [l.open], l.open)
    ensures if l.state != WritingZip || |l.entries| == 0 then DiscardCode(l) == InvalidState && AfterDiscard(l) == l
            else DiscardCode(l) == NoError && AfterDiscard(l) == l.(entries := l.entries[..|l.entries| - 1])
  {}

  /** A directory that ends beyond 32 bits is fatal. */
  lemma FinishOutcome(m: Mode, l: Ledger, layout: seq<byte>, directory: seq<byte>)
    requires layout == Layout(m, l.entries) && directory == Directory(m, l.entries, |l.entries|)
    ensures var code, r := FinishCode(m, l), AfterFinish(m, l);
            if l.state != WritingZip then code == InvalidState && r == l
            else if |layout| + |directory| > 0xFFFF_FFFF then code == IoError && r == l.(state := Error)
            else code == NoError && r == l.(state := Done)
  {
    LayoutLength(m, l.entries);
    DirectoryLength(m, l.entries, |l.entries|);
  }

  lemma PaddingFits(offset: nat, alignment: nat)
    requires AlignmentAllowed(alignment)
    ensures Padding(offset, alignment) <= U16_MAX
    ensures alignment == 0 ==> Padding(offset, alignment) == 0
    ensures alignment != 0 ==> (offset + Padding(offset, alignment)) % alignment == 0 && Padding(offset, alignment) < alignment
  {
    if alignment != 0 && offset % alignment != 0 {
      var q := offset / alignment;
      assert offset + Padding(offset, alignment) == alignment * (q + 1) + 0;
      Bits.ModUnique(offset + Padding(offset, alignment), alignment, q + 1, 0);
    }
  }

  // ----- the file -----

  /** A seekable output file. `fails(n)` says that the n-th operation on it fails, in which case a write
      still delivers `partial(n)` bytes at most. */
  class OutputFile {
    const fails: nat -> bool
    const partial: nat -> nat
    var operations: nat
    var content: seq<byte>
    var position: nat
    var failed: bool

    constructor (fails: nat -> bool, partial: nat -> nat)
      ensures content == [] && position == 0 && !failed
    {
      this.fails, this.partial := fails, partial;
      operations, content, position, failed := 0, [], 0, false;
    }

    method Write(data: seq<byte>) returns (ok: bool)
      modifies this
      ensures ok ==> content == Overwrite(old(content), old(position), data) && position == old(position) + |data|
      ensures failed == (old(failed) || !ok)
    {
      if data == [] {
        return true;
      }
      ok := !fails(operations);
      var n := if ok || |data| <= partial(operations) then |data| else partial(operations);
      operations := operations + 1;
      content := Overwrite(content, position, data[..n]);
      position := position + n;
      failed := failed || !ok;
      assert ok ==> data[..n] == data;
    }

    method Seek(offset: nat) returns (ok: bool)
      modifies this
      ensures content == old(content) && (ok ==> position == offset)
      ensures failed == (old(failed) || !ok)
    {
      ok := !fails(operations);
      operations := operations + 1;
      if ok {
        position := offset;
      }
      failed := failed || !ok;
    }

    /** Cut the file off at `length`, or extend it with zeros. */
    method Truncate(length: nat) returns (ok: bool)
      modifies this
      ensures position == old(position)
      ensures ok && length <= |old(content)| ==> content == old(content)[..length]
      ensures failed == (old(failed) || !ok)
    {
      ok := !fails(operations);
      operations := operations + 1;
      if ok {
        content := if length <= |content| then content[..length] else content + Zeros(length - |content|);
      }
      failed := failed || !ok;
    }

    method Flush() returns (ok: bool)
      modifies this
      ensures content == old(content) && position == old(position)
      ensures failed == (old(failed) || !ok)
    {
      ok := !fails(operations);
      operations := operations + 1;
      failed := failed || !ok;
    }
  }

  /** Two writes right after a prefix that ends in `b`. */
  method AppendTwo(file: OutputFile, x: seq<byte>, y: seq<byte>, ghost a: seq<byte>, ghost b: seq<byte>) returns (ok: bool)
    requires a + b <= file.content && file.position == |a| + |b|
    modifies file
    ensures ok ==> a + (b + (x + y)) <= file.content && file.position == |a| + |b| + |x| + |y|
    ensures file.failed == (old(file.failed) || !ok)
  {
    AppendToPair(file.content, a, b, x);
    ok := file.Write(x);
    if !ok {
      return;
    }
    AppendToPair(file.content, a, b + x, y);
    ok := file.Write(y);
    assert b + x + y == b + (x + y);
  }

  /** A last write after a prefix, and the cut that makes the file end there. */
  method AppendAndCut(file: OutputFile, x: seq<byte>, ghost prefix: seq<byte>) returns (ok: bool)
    requires prefix <= file.content && file.position == |prefix|
    modifies file
    ensures ok ==> file.content == prefix + x
    ensures file.failed == (old(file.failed) || !ok)
  {
    AppendToPrefix(file.content, prefix, x);
    ok := file.Write(x);
    if !ok {
      return;
    }
    ok := file.Truncate(file.position);
    if !ok {
      return;
    }
    ok := file.Flush();
  }

  // ----- the tiling invariant, over values -----

  ghost predicate DescribedAt(m: Mode, files: seq<FileEntry>, entries: seq<Entry>, i: nat)
    requires i < |files| == |entries|
  {
    files[i] == Describe(m, entries[i], OffsetOf(m, entries, i))
  }

  /** The writer's list of entries says of each entry what it is and where it starts. */
  ghost predicate Described(m: Mode, files: seq<FileEntry>, entries: seq<Entry>) {
    |files| == |entries| <= U16_MAX && forall i :: 0 <= i < |files| ==> DescribedAt(m, files, entries, i)
  }

  /** The file starts with the finished entries back to back and then the open one, and stands right
      after them. */
  ghost predicate Tiled(m: Mode, l: Ledger, content: seq<byte>) {
    Written(m, l) <= content
  }

  ghost function Written(m: Mode, l: Ledger): (s: seq<byte>) {
    Layout(m, l.entries) + if l.state == WritingEntry then OpenTile(m, l.open) else []
  }

  ghost function WrittenLength(m: Mode, l: Ledger): (n: nat) {
    End(m, l.entries) + if l.state == WritingEntry then LFH_SIZE + |l.open.name| + l.open.padding + |l.open.data| else 0
  }

  lemma WrittenHasLength(m: Mode, l: Ledger)
    ensures |Written(m, l)| == WrittenLength(m, l)
  {
    LayoutLength(m, l.entries);
  }

  ghost predicate OnFile(m: Mode, l: Ledger, current: FileEntry, content: seq<byte>) {
    match l.state
    case Error => true
    case Done => content == ArchiveBytes(m, l.entries)
    case WritingZip => Tiled(m, l, content)
    case WritingEntry => Tiled(m, l, content) && |l.entries| < U16_MAX && current == Describe(m, l.open, End(m, l.entries))
  }

  lemma WrittenAfterWrite(m: Mode, l: Ledger, chunk: seq<byte>)
    requires WriteCode(l, chunk) == NoError
    ensures Written(m, AfterWrite(l, chunk)) == Written(m, l) + chunk
  {
    var a, b := Layout(m, l.entries), OpenTile(m, l.open);
    OpenTileGrows(m, l.open, chunk);
    assert a + (b + chunk) == (a + b) + chunk;
  }

  lemma TiledAfterWrite(m: Mode, l: Ledger, content: seq<byte>, chunk: seq<byte>)
    requires WriteCode(l, chunk) == NoError && Tiled(m, l, content)
    ensures Tiled(m, AfterWrite(l, chunk), Overwrite(content, WrittenLength(m, l), chunk))
    ensures WrittenLength(m, AfterWrite(l, chunk)) == WrittenLength(m, l) + |chunk|
  {
    WrittenAfterWrite(m, l, chunk);
    WrittenHasLength(m, l);
    AppendToPrefix(content, Written(m, l), chunk);
  }

  /** The running sizes and checksum of the open entry after one more chunk. */
  method Account(m: Mode, f: FileEntry, chunk: seq<byte>, ghost l: Ledger) returns (g: FileEntry)
    requires WriteCode(l, chunk) == NoError && f == Describe(m, l.open, End(m, l.entries))
    ensures g == Describe(m, AfterWrite(l, chunk).open, End(m, AfterWrite(l, chunk).entries))
  {
    ChecksumAppend(m.crc, 0, l.open.data, chunk);
    g := f.(compressedSize := f.compressedSize + |chunk|);
    g := g.(crc32 := Checksum(m.crc, f.crc32, chunk), uncompressedSize := f.uncompressedSize + |chunk|);
  }

  lemma TiledAfterStart(m: Mode, l: Ledger, name: seq<byte>, time: u16, date: u16, alignment: u32, padding: u16, content: seq<byte>)
    requires l.state == WritingZip && |name| <= U16_MAX
    requires var f := FileEntry(name, COMPRESS_STORED, 0, 0, 0, time, date, padding, WrittenLength(m, l));
             Written(m, l) + Prelude(f, true) <= content
    ensures var f := FileEntry(name, COMPRESS_STORED, 0, 0, 0, time, date, padding, WrittenLength(m, l));
            var l' := Opened(l, name, time, date, alignment, padding);
            && f == Describe(m, l'.open, End(m, l.entries))
            && Tiled(m, l', content) && WrittenLength(m, l') == WrittenLength(m, l) + |Prelude(f, true)|
  {
    var l' := Opened(l, name, time, date, alignment, padding);
    OpenTileStarts(m, l'.open, WrittenLength(m, l));
    assert Written(m, l) == Layout(m, l.entries);
  }

  lemma WrittenAfterFinish(m: Mode, l: Ledger)
    requires l.state == WritingEntry
    ensures Written(m, AfterFinishEntry(l)) == Layout(m, l.entries) + Tile(m, l.open)
  {
    LayoutAppend(m, l.entries, l.open);
    assert Written(m, AfterFinishEntry(l)) == Layout(m, l.entries + [l.open]);
  }

  /** A trailing descriptor completes the open tile… */
  lemma TiledAfterDescriptor(m: Mode, l: Ledger, content: seq<byte>, d: seq<byte>)
    requires l.state == WritingEntry && m.descriptors && Tiled(m, l, content)
    requires d == Descriptor(Describe(m, l.open, End(m, l.entries)))
    ensures Tiled(m, AfterFinishEntry(l), Overwrite(content, WrittenLength(m, l), d))
    ensures WrittenLength(m, AfterFinishEntry(l)) == WrittenLength(m, l) + |d|
  {
    WrittenAfterFinish(m, l);
    TileWithDescriptor(m, l.open, End(m, l.entries));
    WrittenHasLength(m, l);
    EndAppend(m, l.entries, l.open);
    AppendToPair(content, Layout(m, l.entries), OpenTile(m, l.open), d);
  }

  /** …and so does patching its header in place. */
  lemma TiledAfterPatch(m: Mode, l: Ledger, content: seq<byte>, h: seq<byte>)
    requires l.state == WritingEntry && !m.descriptors && Tiled(m, l, content)
    requires h == EncodeLocalFileHeader(LocalHeader(Describe(m, l.open, End(m, l.entries)), false))
    ensures Tiled(m, AfterFinishEntry(l), Overwrite(content, End(m, l.entries), h))
    ensures WrittenLength(m, AfterFinishEntry(l)) == WrittenLength(m, l)
  {
    WrittenAfterFinish(m, l);
    TileWithHeader(m, l.open, End(m, l.entries));
    LayoutLength(m, l.entries);
    EndAppend(m, l.entries, l.open);
    PatchInPlace(content, Layout(m, l.entries), OpenTile(m, l.open), h);
  }

  lemma PatchInPlace(content: seq<byte>, a: seq<byte>, t: seq<byte>, h: seq<byte>)
    requires a + t <= content && |h| <= |t|
    ensures a + (h + t[|h|..]) <= Overwrite(content, |a|, h)
  {
    OverwriteAt(content, |a|, h);
    var r := Overwrite(content, |a|, h);
    assert r[|a| + |h|..] == content[|a| + |h|..];
    assert content[|a| + |h|..|a| + |t|] == t[|h|..];
  }

  lemma DescribedAppend(m: Mode, files: seq<FileEntry>, entries: seq<Entry>, e: Entry)
    requires Described(m, files, entries) && |entries| < U16_MAX
    ensures Described(m, files + [Describe(m, e, End(m, entries))], entries + [e])
  {
    var files', entries' := files + [Describe(m, e, End(m, entries))], entries + [e];
    forall i | 0 <= i < |files'| ensures DescribedAt(m, files', entries', i) {
      OffsetOfPrefix(m, entries', entries, i);
      assert i < |files| ==> DescribedAt(m, files, entries, i);
    }
  }

  lemma DescribedFront(m: Mode, files: seq<FileEntry>, entries: seq<Entry>)
    requires Described(m, files, entries) && entries != []
    ensures Described(m, files[..|files| - 1], entries[..|entries| - 1])
    ensures files[|files| - 1].localFileHeaderOffset == OffsetOf(m, entries, |entries| - 1)
  {
    var files', entries' := files[..|files| - 1], entries[..|entries| - 1];
    forall i | 0 <= i < |files'| ensures DescribedAt(m, files', entries', i) {
      OffsetOfPrefix(m, entries', entries, i);
      assert DescribedAt(m, files, entries, i);
    }
    assert DescribedAt(m, files, entries, |entries| - 1);
  }

  lemma EndAppend(m: Mode, entries: seq<Entry>, e: Entry)
    ensures End(m, entries + [e]) == End(m, entries) + TileLength(m, e)
  {
    OffsetOfPrefix(m, entries + [e], entries, |entries|);
  }

  lemma TiledAfterDiscard(m: Mode, l: Ledger, content: seq<byte>)
    requires DiscardCode(l) == NoError && Tiled(m, l, content)
    ensures Tiled(m, AfterDiscard(l), content)
    ensures WrittenLength(m, AfterDiscard(l)) == OffsetOf(m, l.entries, |l.entries| - 1)
  {
    var front, last := l.entries[..|l.entries| - 1], l.entries[|l.entries| - 1];
    LayoutAppend(m, front, last);
    assert front + [last] == l.entries;
    OffsetOfPrefix(m, front, l.entries, |front|);
  }

  /** Dropping the last entry leaves a valid ledger that ends where that entry began. */
  lemma DiscardKeeps(m: Mode, l: Ledger, l': Ledger, files: seq<FileEntry>, current: FileEntry, content: seq<byte>)
    requires DiscardCode(l) == NoError && l' == AfterDiscard(l)
    requires Described(m, files, l.entries) && OnFile(m, l, current, content)
    ensures Described(m, files[..|files| - 1], l'.entries) && OnFile(m, l', current, content)
    ensures WrittenLength(m, l') == files[|files| - 1].localFileHeaderOffset
  {
    TiledAfterDiscard(m, l, content);
    DescribedFront(m, files, l.entries);
  }

  /** The file starts with two stretches of bytes and stands after them. */
  ghost predicate Appended(layout: seq<byte>, directory: seq<byte>, content: seq<byte>, position: nat) {
    layout + directory <= content && position == |layout| + |directory|
  }

  lemma DirectoryBegins(m: Mode, l: Ledger, content: seq<byte>)
    requires l.state == WritingZip && Tiled(m, l, content)
    ensures Appended(Layout(m, l.entries), [], content, WrittenLength(m, l))
  {
    WrittenHasLength(m, l);
    assert Layout(m, l.entries) + [] == Written(m, l);
  }

  lemma DirectoryEnds(m: Mode, es: seq<Entry>, layout: seq<byte>, directory: seq<byte>)
    requires layout == Layout(m, es) && directory == Directory(m, es, |es|)
    ensures |layout| == End(m, es) && |directory| == RecordOffset(es, |es|)
    ensures layout + directory + EncodeEocdRecord(EndRecordFor(|es|, |directory|, |layout|)) == ArchiveBytes(m, es)
  {
    LayoutLength(m, es);
    DirectoryLength(m, es, |es|);
  }

  lemma DirectoryGrows(m: Mode, es: seq<Entry>, i: nat)
    requires i < |es|
    ensures Directory(m, es, i + 1) == Directory(m, es, i) + RecordBytes(RecordOf(m, es, i), es[i].name)
  {
    FlattenNext(Records(m, es), i);
  }

  /** `offset & (alignment - 1)` decides whether padding is needed. */
  method PaddingFor(start: nat, nameLength: nat, alignment: u32) returns (p: u16)
    requires AlignmentAllowed(alignment)
    ensures p == EntryPadding(start, nameLength, alignment)
  {
    var offset := start + LFH_SIZE + nameLength;
    PaddingFits(offset, alignment);
    p := 0;
    if alignment != 0 {
      ghost var k: nat :| alignment == Bits.Pow2(k);
      Bits.AndMask(offset, k);
      if Bits.And(offset, alignment - 1) != 0 {
        p := alignment - offset % alignment;
      }
    }
  }

  // ----- the writer -----

  class ZipWriter {
    const file: OutputFile
    const mode: Mode
    var state: State
    var currentOffset: nat
    var files: seq<FileEntry>
    var current: FileEntry
    ghost var entries: seq<Entry>
    ghost var open: Entry

    ghost function View(): (l: Ledger)
      reads this
    {
      Ledger(state, entries, open)
    }

    ghost predicate Valid()
      reads this, file
    {
      && Described(mode, files, entries)
      && OnFile(mode, View(), current, file.content)
      && (state == WritingZip || state == WritingEntry ==> file.position == currentOffset == WrittenLength(mode, View()))
      && (file.failed ==> state == Error)
    }

    /** A writer on a fresh file; `seekable` decides between patched headers and data descriptors. */
    constructor (file: OutputFile, seekable: bool, crc: Crc)
      requires file.content == [] && file.position == 0 && !file.failed
      ensures Valid() && this.file == file && mode == Mode(crc, !seekable)
      ensures View() == Fresh()
    {
      this.file, mode := file, Mode(crc, !seekable);
      state, currentOffset, files := WritingZip, 0, [];
      entries := [];
      var nothing: Entry := Entry([], 0, 0, 0, 0, []);
      open := nothing;
      current := FileEntry([], 0, 0, 0, 0, 0, 0, 0, 0);
    }

    method HandleError(code: Code) returns (r: Code)
      requires Described(mode, files, entries)
      modifies this`state
      ensures Valid() && r == code && state == Error
    {
      state := Error;
      r := code;
    }

    /** Store a chunk that fits, and account for it. */
    method StoreBytes(chunk: seq<byte>) returns (ok: bool)
      requires Valid() && WriteCode(View(), chunk) == NoError
      modifies this`current, this`currentOffset, this`open, file
      ensures file.failed == (old(file.failed) || !ok)
      ensures ok ==> View() == AfterWrite(old(View()), chunk)
      ensures ok ==> OnFile(mode, View(), current, file.content) && file.position == currentOffset == WrittenLength(mode, View())
    {
      TiledAfterWrite(mode, View(), file.content, chunk);
      ok := file.Write(chunk);
      if ok {
        current := Account(mode, current, chunk, View());
        currentOffset := currentOffset + |chunk|;
        open := open.(data := open.data + chunk);
      }
    }

    method WriteBytes(chunk: seq<byte>) returns (code: Code)
      requires Valid()
      modifies this, file
      ensures Valid()
      ensures !file.failed ==> View() == AfterWrite(old(View()), chunk) && code == WriteCode(old(View()), chunk)
      ensures old(file.failed) ==> file.failed
      ensures file.failed && !old(file.failed) ==> code == IoError
    {
      if state != WritingEntry {
        code := HandleError(InvalidState);
        return;
      }
      if |chunk| + current.uncompressedSize > U32_MAX {
        code := HandleError(IoError);
        return;
      }
      var stored := StoreBytes(chunk);
      if !stored {
        code := HandleError(IoError);
        return;
      }
      code := NoError;
    }

    /** The checks of `StartAlignedEntryWithTime`, in their order. */
    method CheckStart(name: seq<byte>, align32: bool, alignment: u32) returns (code: Code)
      requires Valid()
      ensures code == StartCode(mode, View(), name, align32, alignment)
    {
      if state != WritingZip {
        return InvalidState;
      }
      if |files| == U16_MAX {
        return IoError;
      }
      if align32 {
        return InvalidAlign32Flag;
      }
      if alignment != 0 { Bits.PowerOf2Test(alignment); }
      if alignment != 0 && Bits.And(alignment, alignment - 1) != 0 {
        return InvalidAlignment;
      }
      if alignment > U16_MAX {
        return InvalidAlignment;
      }
      if currentOffset > U32_MAX {
        return IoError;
      }
      var valid := IsValidEntryName(name);
      if !valid {
        return InvalidEntryName;
      }
      return NoError;
    }

    /** Local header, name and padding, each with its own write. */
    method WritePrelude(f: FileEntry, ghost before: seq<byte>) returns (ok: bool)
      requires |f.path| <= U16_MAX && before <= file.content && file.position == |before|
      modifies file
      ensures ok ==> before + Prelude(f, true) <= file.content && file.position == |before| + |Prelude(f, true)|
      ensures file.failed == (old(file.failed) || !ok)
    {
      var header := EncodeLocalFileHeader(LocalHeader(f, true));
      AppendToPrefix(file.content, before, header);
      ok := file.Write(header);
      if !ok {
        return;
      }
      AppendToPrefix(file.content, before + header, f.path);
      ok := file.Write(f.path);
      if !ok {
        return;
      }
      AppendToPrefix(file.content, before + header + f.path, Zeros(f.paddingLength));
      if f.paddingLength != 0 {
        ok := file.Write(Zeros(f.paddingLength));
      }
      assert before + header + f.path + Zeros(f.paddingLength) == before + Prelude(f, true);
    }

    /** Lay down the start of an entry that passed the checks. */
    method BeginEntry(name: seq<byte>, time: u16, date: u16, ghost alignment: u32, padding: u16) returns (ok: bool)
      requires Valid() && state == WritingZip && |entries| < U16_MAX && |name| <= U16_MAX
      modifies this`current, this`currentOffset, this`state, this`open, file
      ensures file.failed == (old(file.failed) || !ok)
      ensures ok ==> View() == Opened(old(View()), name, time, date, alignment, padding)
      ensures ok ==> OnFile(mode, View(), current, file.content) && file.position == currentOffset == WrittenLength(mode, View())
    {
      var f := FileEntry(name, COMPRESS_STORED, 0, 0, 0, time, date, padding, currentOffset);
      WrittenHasLength(mode, View());
      ok := WritePrelude(f, Written(mode, View()));
      if ok {
        TiledAfterStart(mode, View(), name, time, date, alignment, padding, file.content);
        current, state := f, WritingEntry;
        currentOffset := currentOffset + LFH_SIZE + |name| + padding;
        open := Entry(name, time, date, alignment, padding, []);
      }
    }

    /** Pad the start of an entry that passed the checks, and lay it down. */
    method PadAndBegin(name: seq<byte>, time: u16, date: u16, alignment: u32) returns (ok: bool)
      requires Valid() && state == WritingZip && |entries| < U16_MAX && |name| <= U16_MAX && AlignmentAllowed(alignment)
      modifies this`current, this`currentOffset, this`state, this`open, file
      ensures file.failed == (old(file.failed) || !ok)
      ensures ok ==> View() == StartedWith(NoError, mode, old(View()), name, time, date, alignment)
      ensures ok ==> OnFile(mode, View(), current, file.content) && file.position == currentOffset == WrittenLength(mode, View())
    {
      assert currentOffset == End(mode, entries);
      var padding := PaddingFor(currentOffset, |name|, alignment);
      StartedOpens(mode, View(), name, time, date, alignment, padding);
      ok := BeginEntry(name, time, date, alignment, padding);
    }

    method StartAlignedEntry(name: seq<byte>, align32: bool, time: u16, date: u16, alignment: u32) returns (code: Code)
      requires Valid()
      modifies this, file
      ensures Valid()
      ensures !file.failed ==> code == StartCode(mode, old(View()), name, align32, alignment)
      ensures !file.failed ==> View() == StartedWith(code, mode, old(View()), name, time, date, alignment)
      ensures old(file.failed) ==> file.failed
      ensures file.failed && !old(file.failed) ==> code == IoError
    {
      code := CheckStart(name, align32, alignment);
      if code == IoError {
        code := HandleError(IoError);
      } else if code == NoError {
        var ok := PadAndBegin(name, time, date, alignment);
        if !ok {
          code := HandleError(IoError);
        }
      }
    }

    method WriteDescriptor() returns (ok: bool)
      requires Valid() && state == WritingEntry && mode.descriptors
      modifies this`currentOffset, file
      ensures ok ==> Tiled(mode, AfterFinishEntry(View()), file.content)
      ensures ok ==> file.position == currentOffset == WrittenLength(mode, AfterFinishEntry(View()))
      ensures file.failed == (old(file.failed) || !ok)
    {
      TiledAfterDescriptor(mode, View(), file.content, Descriptor(current));
      ok := file.Write(Descriptor(current));
      currentOffset := currentOffset + 16;
    }

    method FinishEntry() returns (code: Code)
      requires Valid()
      modifies this, file
      ensures Valid()
      ensures !file.failed ==> View() == AfterFinishEntry(old(View())) && code == EntryCode(old(View()))
      ensures old(file.failed) ==> file.failed
      ensures file.failed && !old(file.failed) ==> code == IoError
    {
      if state != WritingEntry {
        return InvalidState;
      }
      var ok;
      if mode.descriptors {
        ok := WriteDescriptor();
      } else {
        ok := PatchHeader();
      }
      if !ok {
        code := HandleError(IoError);
        return;
      }
      DescribedAppend(mode, files, entries, open);
      files, state := files + [current], WritingZip;
      entries := entries + [open];
      code := NoError;
    }

    /** Seek back, rewrite the header with the final sizes, and return to the end. */
    method PatchHeader() returns (ok: bool)
      requires Valid() && state == WritingEntry && !mode.descriptors
      modifies file
      ensures ok ==> Tiled(mode, AfterFinishEntry(View()), file.content)
      ensures ok ==> file.position == currentOffset == WrittenLength(mode, AfterFinishEntry(View()))
      ensures file.failed == (old(file.failed) || !ok)
    {
      var header := EncodeLocalFileHeader(LocalHeader(current, false));
      TiledAfterPatch(mode, View(), file.content, header);
      ok := file.Seek(current.localFileHeaderOffset);
      if !ok {
        return;
      }
      ok := file.Write(header);
      if !ok {
        return;
      }
      ok := file.Seek(currentOffset);
    }

    /** Go back to where the last entry began and forget it. */
    method DropLast() returns (ok: bool)
      requires Valid() && DiscardCode(View()) == NoError
      modifies this`currentOffset, this`files, this`entries, file
      ensures file.failed == (old(file.failed) || !ok) && Described(mode, files, entries)
      ensures ok ==> Valid() && View() == AfterDiscard(old(View()))
    {
      ghost var after := AfterDiscard(View());
      DiscardKeeps(mode, View(), after, files, current, file.content);
      currentOffset := files[|files| - 1].localFileHeaderOffset;
      ok := file.Seek(currentOffset);
      if ok {
        files := files[..|files| - 1];
        entries := entries[..|entries| - 1];
        assert View() == after;
      }
    }

    method DiscardLastEntry() returns (code: Code)
      requires Valid()
      modifies this, file
      ensures Valid()
      ensures !file.failed ==> View() == AfterDiscard(old(View())) && code == DiscardCode(old(View()))
      ensures old(file.failed) ==> file.failed
      ensures file.failed && !old(file.failed) ==> code == IoError
    {
      if state != WritingZip || files == [] {
        return InvalidState;
      }
      var ok := DropLast();
      if !ok {
        code := HandleError(IoError);
        return;
      }
      code := NoError;
    }

    /** One turn of the loop in `Finish`: a directory record and its name. */
    method WriteRecord(i: nat, ghost layout: seq<byte>, ghost directory: seq<byte>) returns (ok: bool, ghost longer: seq<byte>)
      requires Described(mode, files, entries) && i < |files|
      requires Appended(layout, directory, file.content, file.position) && currentOffset == file.position
      modifies this`currentOffset, file
      ensures longer == directory + RecordBytes(RecordOf(mode, entries, i), entries[i].name)
      ensures ok ==> Appended(layout, longer, file.content, file.position) && currentOffset == file.position
      ensures file.failed == (old(file.failed) || !ok)
    {
      assert DescribedAt(mode, files, entries, i);
      var record := EncodeCentralDirectoryRecord(CentralRecord(files[i], mode.descriptors));
      longer := directory + (record + files[i].path);
      ok := AppendTwo(file, record, files[i].path, layout, directory);
      currentOffset := currentOffset + CDR_SIZE + |files[i].path|;
    }

    method WriteDirectory(ghost layout: seq<byte>) returns (ok: bool)
      requires Described(mode, files, entries)
      requires Appended(layout, [], file.content, file.position) && currentOffset == file.position
      modifies this`currentOffset, file
      ensures ok ==> Appended(layout, Directory(mode, entries, |entries|), file.content, file.position) && currentOffset == file.position
      ensures file.failed == (old(file.failed) || !ok)
    {
      var i := 0;
      ghost var directory: seq<byte> := [];
      assert Directory(mode, entries, 0) == [];
      while i < |files|
        invariant 0 <= i <= |files| == |entries| && directory == Directory(mode, entries, i)
        invariant Appended(layout, directory, file.content, file.position) && currentOffset == file.position
        invariant file.failed == old(file.failed)
      {
        DirectoryGrows(mode, entries, i);
        ok, directory := WriteRecord(i, layout, directory);
        if !ok {
          return;
        }
        i := i + 1;
      }
      return true;
    }

    /** The end record, and the cut that drops what a discarded entry left behind. */
    method WriteEnd(startOfDirectory: nat, ghost layout: seq<byte>, ghost directory: seq<byte>) returns (ok: bool)
      requires startOfDirectory == |layout|
      requires Appended(layout, directory, file.content, file.position) && currentOffset == file.position
      modifies this`currentOffset, file
      ensures ok ==> file.content == layout + directory + EncodeEocdRecord(EndRecordFor(|files|, |directory|, |layout|))
      ensures file.failed == (old(file.failed) || !ok)
    {
      var end := EncodeEocdRecord(EndRecordFor(|files|, currentOffset - startOfDirectory, startOfDirectory));
      currentOffset := currentOffset + EOCD_SIZE;
      ok := AppendAndCut(file, end, layout + directory);
    }

    /** Everything behind the entries. It does not go through if the file fails or the end record cannot hold
        the offsets. */
    method WriteTail() returns (ok: bool)
      requires Valid() && state == WritingZip
      modifies this`currentOffset, file
      ensures ok ==> file.content == ArchiveBytes(mode, entries) && FinishCode(mode, View()) == NoError
      ensures !ok ==> file.failed || FinishCode(mode, View()) == IoError
      ensures (old(file.failed) ==> file.failed) && (ok && !old(file.failed) ==> !file.failed)
    {
      var startOfDirectory := currentOffset;
      ghost var layout, directory := Layout(mode, entries), Directory(mode, entries, |entries|);
      DirectoryBegins(mode, View(), file.content);
      DirectoryEnds(mode, entries, layout, directory);
      ok := WriteDirectory(layout);
      if !ok || currentOffset > U32_MAX {
        return false;
      }
      ok := WriteEnd(startOfDirectory, layout, directory);
    }

    method Finish() returns (code: Code)
      requires Valid()
      modifies this, file
      ensures Valid()
      ensures !file.failed ==> View() == AfterFinish(mode, old(View())) && code == FinishCode(mode, old(View()))
      ensures old(file.failed) ==> file.failed
      ensures file.failed && !old(file.failed) ==> code == IoError
    {
      if state != WritingZip {
        return InvalidState;
      }
      var ok := WriteTail();
      if !ok {
        code := HandleError(IoError);
        return;
      }
      state := Done;
      code := NoError;
    }

    method GetLastEntry() returns (code: Code, entry: FileEntry)
      requires Valid()
      ensures code == (if entries == [] then InvalidState else NoError)
      ensures entries != [] ==> entry == Describe(mode, entries[|entries| - 1], OffsetOf(mode, entries, |entries| - 1))
    {
      if files == [] {
        return InvalidState, current;
      }
      assert DescribedAt(mode, files, entries, |files| - 1);
      return NoError, files[|files| - 1];
    }

    method Perform(op: Op)
      requires Valid()
      modifies this, file
      ensures Valid()
      ensures !file.failed ==> View() == Apply(mode, old(View()), op)
      ensures old(file.failed) ==> file.failed
    {
      var code;
      match op
      case StartAlignedEntry(name, align32, time, date, alignment) => code := StartAlignedEntry(name, align32, time, date, alignment);
      case WriteBytes(chunk) => code := WriteBytes(chunk);
      case FinishEntry => code := FinishEntry();
      case DiscardLastEntry => code := DiscardLastEntry();
      case Finish => code := Finish();
    }
  }

  /** Every run of calls on a fresh file keeps the tiling invariant. Unless the file fails, in which case
      the writer ends in its error state, the run ends where the ledger says. */
  method Execute(file: OutputFile, seekable: bool, crc: Crc, ops: seq<Op>) returns (w: ZipWriter)
    requires file.content == [] && file.position == 0 && !file.failed
    modifies file
    ensures w.Valid() && w.file == file && w.mode == Mode(crc, !seekable)
    ensures if file.failed then w.state == Error else w.View() == Run(w.mode, Fresh(), ops)
  {
    w := new ZipWriter(file, seekable, crc);
    ghost var m := w.mode;
    var i := 0;
    assert ops[0..] == ops;
    while i < |ops|
      invariant 0 <= i <= |ops|
      invariant w.Valid() && w.file == file && w.mode == m && fresh(w)
      invariant !file.failed ==> Run(m, Fresh(), ops) == Run(m, w.View(), ops[i..])
    {
      ghost var before := w.View();
      w.Perform(ops[i]);
      RunStep(m, before, ops, i);
      i := i + 1;
    }
  }
}
