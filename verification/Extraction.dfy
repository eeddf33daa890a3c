/** Copying a stored entry out of an archive: in one piece from a mapping, straight into the caller's
    buffer, through a local buffer, or chunk by chunk as a stream. All ways deliver the same bytes. */
module Extraction {
  import opened Bytes
  import opened ZipErrors
  import opened ZipFormat
  import opened ZipLayout
  import opened ZipArchive
  import EndRecord

  const COPY_BUFFER: nat := 32768
  const STREAM_BUFFER: nat := 65535

  /** Where the archive's bytes come from. A descriptor may fail any read it is asked for, and some
      bytes of a failed read may still have arrived. */
  datatype Backing =
    | Mapped(bytes: seq<byte>)
    | Descriptor(bytes: seq<byte>, fails: (nat, nat) -> bool, arrived: (nat, nat) -> nat)

  function Least(a: nat, b: nat): (r: nat) {
    if a < b then a else b
  }

  predicate CanRead(zip: Backing, offset: nat, length: nat) {
    offset + length <= |zip.bytes| && (zip.Descriptor? ==> !zip.fails(offset, length))
  }

  /** The bytes a failed read leaves in its buffer: none from a mapping. */
  function Fragment(zip: Backing, offset: nat, length: nat): (r: seq<byte>)
    ensures |r| <= length && (r != [] ==> offset + |r| <= |zip.bytes| && r == zip.bytes[offset..offset + |r|])
  {
    if zip.Mapped? || |zip.bytes| <= offset then []
    else zip.bytes[offset..offset + Least(zip.arrived(offset, length), Least(length, |zip.bytes| - offset))]
  }

  /** A source that fails no read inside the file. */
  ghost predicate Dependable(zip: Backing) {
    zip.Descriptor? ==> forall o, n :: !zip.fails(o, n)
  }

  // ----- destinations -----

  /** A fixed region of memory. */
  class MemoryWriter {
    const buf: array<byte>
    var written: nat

    constructor (buf: array<byte>)
      ensures this.buf == buf && written == 0
    {
      this.buf, written := buf, 0;
    }

    /** Take a chunk; one that already lies in the region is left alone. */
    method Append(chunk: seq<byte>, inside: bool) returns (ok: bool)
      modifies this`written, buf
      ensures ok == (|chunk| == 0 || inside || old(written) + |chunk| <= buf.Length)
      ensures |chunk| == 0 || inside || !ok ==> written == old(written) && buf[..] == old(buf[..])
      ensures |chunk| > 0 && !inside && ok ==>
        && written == old(written) + |chunk|
        && buf[..] == old(buf[..written]) + chunk + old(buf[written + |chunk|..])
    {
      if |chunk| == 0 || inside {
        return true;
      }
      if buf.Length < |chunk| || written > buf.Length - |chunk| {
        return false;
      }
      Store(written, chunk);
      written := written + |chunk|;
      return true;
    }

    /** Copy a chunk into the region. */
    method Store(at: nat, chunk: seq<byte>)
      requires at + |chunk| <= buf.Length
      modifies buf
      ensures buf[..] == old(buf[..at]) + chunk + old(buf[at + |chunk|..])
    {
      var i := 0;
      while i < |chunk|
        invariant 0 <= i <= |chunk|
        invariant forall k :: 0 <= k < buf.Length ==> buf[k] == if at <= k < at + i then chunk[k - at] else old(buf[k])
      {
        buf[at + i] := chunk[i];
        i := i + 1;
      }
    }
  }

  /** A file or a callback that takes chunks one after the other and may refuse one. */
  class ChunkWriter {
    const accepts: (seq<byte>, seq<byte>) -> bool
    var received: seq<byte>

    constructor (accepts: (seq<byte>, seq<byte>) -> bool)
      ensures this.accepts == accepts && received == []
    {
      this.accepts, received := accepts, [];
    }

    method Append(chunk: seq<byte>) returns (ok: bool)
      modifies this`received
      ensures ok == accepts(old(received), chunk)
      ensures received == if ok then old(received) + chunk else old(received)
    {
      ok := accepts(received, chunk);
      if ok {
        received := received + chunk;
      }
    }
  }

  // ----- copying -----

  /** The next block of a copy: the remaining bytes up to the limit, narrowed to 32 bits. */
  function BlockSize(length: nat, maxRead: nat, count: nat): (r: u32)
    requires count <= length
  {
    Low32(Least(length - count, maxRead))
  }

  /** The limit where the destination has no buffer of its own. */
  function ChunkLimit(zip: Backing, length: nat): (r: nat) {
    if zip.Descriptor? || |zip.bytes| < length then Least(length, COPY_BUFFER) else length
  }

  /** The count after some turns of the copying loop; nothing once a block could not be read or taken. */
  function CountAfter(goes: (nat, nat) -> bool, length: nat, maxRead: nat, turns: nat): (r: Option<nat>)
    ensures r.Some? ==> r.value <= length
  {
    if turns == 0 then Some(0)
    else
      var c := CountAfter(goes, length, maxRead, turns - 1);
      if c.None? || c.value == length then c
      else
        var block := BlockSize(length, maxRead, c.value);
        if goes(c.value, block) then Some(c.value + block) else None
  }

  /** The loop is over: everything is copied, or a block failed. */
  predicate Over(goes: (nat, nat) -> bool, length: nat, maxRead: nat, turns: nat) {
    var c := CountAfter(goes, length, maxRead, turns);
    c.None? || c.value == length
  }

  lemma {:induction false} NarrowAdvances(goes: (nat, nat) -> bool, length: nat, maxRead: nat, turns: nat)
    requires 0 < maxRead <= U32_MAX
    ensures Over(goes, length, maxRead, turns) || CountAfter(goes, length, maxRead, turns).value >= turns
  {
    if turns > 0 {
      NarrowAdvances(goes, length, maxRead, turns - 1);
    }
  }

  lemma RestIsMultiple(length: nat)
    ensures Low32(length) <= length && Low32(length - Low32(length)) == 0
  {}

  /** A whole entry of 4 GiB or more asked for at once: the first block is the length's low half, and
      every later block is empty. */
  lemma {:induction false} WideStalls(goes: (nat, nat) -> bool, length: nat, turns: nat)
    requires length > U32_MAX
    ensures var c := CountAfter(goes, length, length, turns);
            if turns == 0 then c == Some(0)
            else if !goes(0, Low32(length)) then c == None
            else if turns > 1 && !goes(Low32(length), 0) then c == None
            else c == Some(Low32(length))
  {
    RestIsMultiple(length);
    if turns > 0 {
      WideStalls(goes, length, turns - 1);
    }
  }

  predicate Ends(goes: (nat, nat) -> bool, length: nat, maxRead: nat) {
    maxRead <= U32_MAX || !goes(0, Low32(length)) || !goes(Low32(length), 0)
  }

  /** When the copying loop ends. It always does with blocks of less than 4 GiB; an entry of 4 GiB or more
      asked for at once is never copied whole, and unless one of the first two blocks fails the loop runs
      forever. */
  lemma CopyEndsExactly(goes: (nat, nat) -> bool, length: nat, maxRead: nat)
    requires maxRead == length || 0 < maxRead <= U32_MAX
    ensures (exists t :: Over(goes, length, maxRead, t)) <==> Ends(goes, length, maxRead)
    ensures maxRead > U32_MAX ==> forall t :: CountAfter(goes, length, maxRead, t) != Some(length)
  {
    if maxRead <= U32_MAX {
      if length == 0 {
        assert Over(goes, length, maxRead, 0);
      } else {
        NarrowAdvances(goes, length, maxRead, length);
        assert Over(goes, length, maxRead, length);
      }
    } else {
      forall t: nat
        ensures CountAfter(goes, length, maxRead, t) != Some(length)
        ensures Over(goes, length, maxRead, t) ==> !goes(0, Low32(length)) || !goes(Low32(length), 0)
      {
        WideStalls(goes, length, t);
      }
      WideStalls(goes, length, 2);
      assert !goes(0, Low32(length)) || !goes(Low32(length), 0) ==> Over(goes, length, maxRead, 2);
    }
  }

  /** Where a copy in one piece can stand, and the block it then asks for. */
  ghost predicate AtStop(length: nat, count: nat) {
    count == 0 || count == Low32(length)
  }

  lemma BlockAtStop(length: nat, count: nat)
    requires AtStop(length, count) && count < length
    ensures BlockSize(length, length, count) == if count == 0 then Low32(length) else 0
    ensures length <= U32_MAX ==> count == 0
  {
    RestIsMultiple(length);
  }

  /** If the loop is to end, a block it gets through is not empty. */
  lemma ProgressAtStop(goes: (nat, nat) -> bool, length: nat, count: nat, block: nat)
    requires AtStop(length, count) && count < length && Ends(goes, length, length)
    requires block == BlockSize(length, length, count) && goes(count, block) && (count > 0 ==> goes(0, count))
    ensures block > 0 && AtStop(length, count + block)
  {
    BlockAtStop(length, count);
  }

  /** With no failure, a mapped entry of exactly 4 GiB is copied zero bytes at a time. */
  lemma FourGibibytesNeverEnd(t: nat)
    ensures var all := (count: nat, block: nat) => true;
            CountAfter(all, U32_MAX + 1, U32_MAX + 1, t) == Some(0)
  {
    WideStalls((count: nat, block: nat) => true, U32_MAX + 1, t);
  }

  /** The `n` bytes from `o` on. Nothing is read for an empty range, wherever it lies. */
  function Range(s: seq<byte>, o: nat, n: nat): (r: seq<byte>)
    requires n > 0 ==> o + n <= |s|
    ensures |r| == n
  {
    if n == 0 then [] else s[o..o + n]
  }

  lemma ExtendRange(s: seq<byte>, o: nat, a: nat, b: nat)
    requires o + a + b <= |s|
    ensures Range(s, o, a) + s[o + a..o + a + b] == Range(s, o, a + b)
  {}

  /** The region holds the range and is untouched behind it. */
  ghost predicate Filled(now: seq<byte>, before: seq<byte>, range: seq<byte>) {
    |range| <= |before| && now == range + before[|range|..]
  }

  lemma FilledAtOnce(now: seq<byte>, before: seq<byte>, chunk: seq<byte>)
    requires |chunk| <= |before| && now == before[..0] + chunk + before[0 + |chunk|..]
    ensures Filled(now, before, chunk)
  {}

  /** The region holds the chunk, and the checksum covers it. */
  ghost predicate Received(chunk: seq<byte>, now: seq<byte>, before: seq<byte>, crc: Crc, sum: u32) {
    Filled(now, before, chunk) && sum == Checksum(crc, 0, chunk)
  }

  /** Whether the copy into memory gets through a block. */
  function Reads(zip: Backing, offset: nat): (goes: (nat, nat) -> bool) {
    (count: nat, block: nat) => CanRead(zip, offset + count, block)
  }

  /** What a failed copy leaves in the region: what arrived of the block that could not be read, or the first
      block of an entry of 4 GiB or more. */
  function Remains(zip: Backing, offset: nat, length: nat): (r: seq<byte>) {
    if length > U32_MAX && CanRead(zip, offset, Low32(length)) then zip.bytes[offset..offset + Low32(length)]
    else Fragment(zip, offset, Low32(length))
  }

  /** One turn of copying into memory, at the start of the region. */
  method FillFrom(zip: Backing, offset: nat, block: nat, writer: MemoryWriter, cursor: nat) returns (ok: bool, chunk: seq<byte>)
    requires cursor + block <= writer.buf.Length && (block > 0 ==> writer.written == 0 && cursor == 0)
    modifies writer`written, writer.buf
    ensures ok == CanRead(zip, offset, block)
    ensures ok ==> chunk == zip.bytes[offset..offset + block]
    ensures Filled(writer.buf[..], old(writer.buf[..]), if ok then chunk else Fragment(zip, offset, block))
  {
    ghost var before := writer.buf[..];
    var direct := zip.Descriptor?;
    ok := CanRead(zip, offset, block);
    chunk := if ok then zip.bytes[offset..offset + block] else Fragment(zip, offset, block);
    if direct || !ok {
      writer.Store(cursor, chunk);
    }
    if ok {
      ok := writer.Append(chunk, direct);
    }
    FilledAtOnce(writer.buf[..], before, chunk);
  }

  /** The copy stands at `count`: nothing has happened, or the first block is in the region. */
  ghost predicate CopyStands(zip: Backing, offset: nat, length: nat, count: nat, cursor: nat, written: nat, sum: u32,
                             now: seq<byte>, before: seq<byte>, crc: Crc)
  {
    && AtStop(length, count) && count <= length && cursor <= |now| == |before|
    && (count == 0 ==> written == 0 && cursor == 0 && sum == 0 && now == before)
    && (count > 0 ==> CanRead(zip, offset, count) && Received(zip.bytes[offset..offset + count], now, before, crc, sum))
  }

  lemma FailedCopy(zip: Backing, offset: nat, length: nat, count: nat, block: nat, now: seq<byte>, held: seq<byte>, before: seq<byte>, crc: Crc, sum: u32)
    requires AtStop(length, count) && count < length && block == BlockSize(length, length, count) && !CanRead(zip, offset + count, block)
    requires count == 0 ==> held == before
    requires count > 0 ==> CanRead(zip, offset, count) && Received(zip.bytes[offset..offset + count], held, before, crc, sum)
    requires Filled(now, held, Fragment(zip, offset + count, block))
    ensures Filled(now, before, Remains(zip, offset, length)) && !(length <= U32_MAX && CanRead(zip, offset, length))
  {
    BlockAtStop(length, count);
    if count > 0 {
      assert Fragment(zip, offset + count, block) == [];
      FilledWithNothing(now, held);
    }
  }

  lemma FilledWithNothing(now: seq<byte>, held: seq<byte>)
    requires Filled(now, held, [])
    ensures now == held
  {}

  /** A first block that is not empty is the only one. */
  lemma CopyAdvances(zip: Backing, offset: nat, length: nat, block: nat, chunk: seq<byte>, cursor: nat, written: nat, sum: u32,
                     now: seq<byte>, before: seq<byte>, crc: Crc)
    requires 0 < block <= length && AtStop(length, block) && CanRead(zip, offset, block) && chunk == zip.bytes[offset..offset + block]
    requires Filled(now, before, chunk) && cursor <= |now| && sum == Checksum(crc, 0, chunk)
    ensures CopyStands(zip, offset, length, block, cursor, written, sum, now, before, crc)
  {}

  /** One turn of the loop that copies into memory. */
  method CopyTurn(zip: Backing, offset: nat, length: u64, count: nat, cursor: nat, writer: MemoryWriter, crc: Crc, sum: u32, ghost before: seq<byte>)
    returns (ok: bool, count': nat, cursor': nat, sum': u32)
    requires length <= writer.buf.Length && Ends(Reads(zip, offset), length, length) && count < length
    requires CopyStands(zip, offset, length, count, cursor, writer.written, sum, writer.buf[..], before, crc)
    modifies writer`written, writer.buf
    ensures ok ==> count < count' <= length && CopyStands(zip, offset, length, count', cursor', writer.written, sum', writer.buf[..], before, crc)
    ensures !ok ==> Filled(writer.buf[..], before, Remains(zip, offset, length)) && !(length <= U32_MAX && CanRead(zip, offset, length))
  {
    var inPlace := zip.Mapped? && length <= |zip.bytes|;
    var maxRead := length;
    var block := BlockSize(length, maxRead, count);
    BlockAtStop(length, count);
    ghost var held := writer.buf[..];
    var chunk;
    ok, chunk := FillFrom(zip, offset + count, block, writer, cursor);
    if !ok {
      FailedCopy(zip, offset, length, count, block, writer.buf[..], held, before, crc, sum);
      return false, count, cursor, sum;
    }
    ProgressAtStop(Reads(zip, offset), length, count, block);
    cursor' := if inPlace then cursor else cursor + block;
    sum' := Checksum(crc, sum, chunk);
    count' := count + block;
    CopyAdvances(zip, offset, length, block, chunk, cursor', writer.written, sum', writer.buf[..], before, crc);
  }

  /** Copy into memory: mapped bytes are appended, a descriptor reads straight into the region. */
  method CopyEntryToMemory(zip: Backing, offset: nat, length: u64, writer: MemoryWriter, crc: Crc) returns (ok: bool, sum: u32)
    requires writer.written == 0 && length <= writer.buf.Length && Ends(Reads(zip, offset), length, length)
    modifies writer`written, writer.buf
    ensures ok == (length == 0 || (length <= U32_MAX && CanRead(zip, offset, length)))
    ensures ok ==> Filled(writer.buf[..], old(writer.buf[..]), Range(zip.bytes, offset, length))
    ensures ok ==> sum == Checksum(crc, 0, Range(zip.bytes, offset, length))
    ensures !ok ==> Filled(writer.buf[..], old(writer.buf[..]), Remains(zip, offset, length))
  {
    var count: nat, cursor: nat := 0, 0;
    sum := 0;
    ghost var before := writer.buf[..];
    while count < length
      invariant count <= length && CopyStands(zip, offset, length, count, cursor, writer.written, sum, writer.buf[..], before, crc)
    {
      ok, count, cursor, sum := CopyTurn(zip, offset, length, count, cursor, writer, crc, sum, before);
      if !ok {
        return;
      }
    }
    return true, sum;
  }

  /** A sink that refuses nothing. */
  ghost predicate Willing(w: ChunkWriter) {
    forall a, b :: w.accepts(a, b)
  }

  /** The bytes copied so far, and their running checksum. */
  ghost predicate Copied(base: seq<byte>, received: seq<byte>, crc: Crc, sum: u32, range: seq<byte>) {
    received == base + range && sum == Checksum(crc, 0, range)
  }

  lemma CopyMore(base: seq<byte>, received: seq<byte>, crc: Crc, sum: u32, range: seq<byte>, chunk: seq<byte>)
    requires Copied(base, received, crc, sum, range)
    ensures Copied(base, received + chunk, crc, Checksum(crc, sum, chunk), range + chunk)
  {
    ChecksumAppend(crc, 0, range, chunk);
    assert base + range + chunk == base + (range + chunk);
  }

  /** Whether the copy to a sink that has received `base` gets through a block. */
  function Takes(zip: Backing, offset: nat, accepts: (seq<byte>, seq<byte>) -> bool, base: seq<byte>): (goes: (nat, nat) -> bool) {
    (count: nat, block: nat) =>
      && CanRead(zip, offset + count, block)
      && accepts(base + Range(zip.bytes, offset, count), zip.bytes[offset + count..offset + count + block])
  }

  lemma TakesBlock(zip: Backing, offset: nat, accepts: (seq<byte>, seq<byte>) -> bool, base: seq<byte>, received: seq<byte>,
                   count: nat, block: nat, chunk: seq<byte>)
    requires CanRead(zip, offset + count, block) && received == base + Range(zip.bytes, offset, count)
    requires chunk == zip.bytes[offset + count..offset + count + block]
    ensures accepts(received, chunk) == Takes(zip, offset, accepts, base)(count, block)
  {}

  /** Which copies to files and callbacks end: every one through the buffer, and no mapped one of 4 GiB or more
      that nothing stops. */
  lemma WhichCopiesEnd(zip: Backing, offset: nat, length: nat, accepts: (seq<byte>, seq<byte>) -> bool, base: seq<byte>)
    ensures zip.Descriptor? || |zip.bytes| < length ==> Ends(Takes(zip, offset, accepts, base), length, ChunkLimit(zip, length))
    ensures zip.Mapped? && length > U32_MAX && offset + length <= |zip.bytes| && (forall a, b :: accepts(a, b)) ==>
              !Ends(Takes(zip, offset, accepts, base), length, ChunkLimit(zip, length))
  {
    RestIsMultiple(length);
    if zip.Mapped? && length > U32_MAX && offset + length <= |zip.bytes| && forall a, b :: accepts(a, b) {
      TakesBlock(zip, offset, accepts, base, base + Range(zip.bytes, offset, 0), 0, Low32(length), zip.bytes[offset..offset + Low32(length)]);
      TakesBlock(zip, offset, accepts, base, base + Range(zip.bytes, offset, Low32(length)), Low32(length), 0, zip.bytes[offset + Low32(length)..offset + Low32(length)]);
    }
  }

  /** One turn of the copying loop. */
  method CopyBlock(zip: Backing, offset: nat, count: nat, block: nat, writer: ChunkWriter, crc: Crc, sum: u32, ghost base: seq<byte>)
    returns (ok: bool, sum': u32)
    requires count > 0 ==> offset + count <= |zip.bytes|
    requires Copied(base, writer.received, crc, sum, Range(zip.bytes, offset, count))
    modifies writer`received
    ensures ok ==> offset + count + block <= |zip.bytes| && Takes(zip, offset, writer.accepts, base)(count, block)
    ensures ok ==> Copied(base, writer.received, crc, sum', Range(zip.bytes, offset, count + block))
    ensures Dependable(zip) && Willing(writer) ==> (ok <==> offset + count + block <= |zip.bytes|)
  {
    if !CanRead(zip, offset + count, block) {
      return false, sum;
    }
    var chunk := zip.bytes[offset + count..offset + count + block];
    TakesBlock(zip, offset, writer.accepts, base, writer.received, count, block, chunk);
    CopyMore(base, writer.received, crc, sum, Range(zip.bytes, offset, count), chunk);
    ExtendRange(zip.bytes, offset, count, block);
    ok := writer.Append(chunk);
    sum' := Checksum(crc, sum, chunk);
  }

  /** Where a copy in chunks can stand: anywhere, unless it is one piece of 4 GiB or more. */
  ghost predicate ChunksStand(length: nat, maxRead: nat, count: nat, goes: (nat, nat) -> bool) {
    maxRead > U32_MAX ==> maxRead == length && AtStop(length, count) && (count > 0 ==> goes(0, count))
  }

  lemma ChunksAdvance(length: nat, maxRead: nat, count: nat, block: nat, goes: (nat, nat) -> bool)
    requires ChunksStand(length, maxRead, count, goes) && count < length && maxRead > 0 && Ends(goes, length, maxRead)
    requires block == BlockSize(length, maxRead, count) && goes(count, block)
    ensures block > 0 && count + block <= length && ChunksStand(length, maxRead, count + block, goes)
  {
    if maxRead > U32_MAX { ProgressAtStop(goes, length, count, block); }
  }

  /** One turn of the loop that copies in chunks. */
  method ChunkTurn(zip: Backing, offset: nat, length: u64, maxRead: nat, count: nat, writer: ChunkWriter, crc: Crc, sum: u32,
                   ghost base: seq<byte>, ghost goes: (nat, nat) -> bool)
    returns (ok: bool, count': nat, sum': u32)
    requires count < length && maxRead > 0 && (count > 0 ==> offset + count <= |zip.bytes|)
    requires ChunksStand(length, maxRead, count, goes) && Ends(goes, length, maxRead) && goes == Takes(zip, offset, writer.accepts, base)
    requires Copied(base, writer.received, crc, sum, Range(zip.bytes, offset, count))
    modifies writer`received
    ensures ok ==> count < count' <= length && offset + count' <= |zip.bytes| && ChunksStand(length, maxRead, count', goes)
    ensures ok ==> Copied(base, writer.received, crc, sum', Range(zip.bytes, offset, count'))
    ensures Dependable(zip) && Willing(writer) && !ok ==> offset + length > |zip.bytes|
  {
    var block := BlockSize(length, maxRead, count);
    ok, sum' := CopyBlock(zip, offset, count, block, writer, crc, sum, base);
    count' := count;
    if ok {
      ChunksAdvance(length, maxRead, count, block, goes);
      count' := count + block;
    } else {
      BlockInside(length, maxRead, count);
    }
  }

  lemma BlockInside(length: nat, maxRead: nat, count: nat)
    requires count <= length
    ensures count + BlockSize(length, maxRead, count) <= length
  {}

  /** Copy to a file or callback: mapped bytes in one chunk, otherwise through a buffer of 32768 bytes. */
  method CopyEntryToChunks(zip: Backing, offset: nat, length: u64, writer: ChunkWriter, crc: Crc) returns (ok: bool, sum: u32)
    requires Ends(Takes(zip, offset, writer.accepts, writer.received), length, ChunkLimit(zip, length))
    modifies writer`received
    ensures ok ==> (length > 0 ==> offset + length <= |zip.bytes|)
    ensures ok ==> Copied(old(writer.received), writer.received, crc, sum, Range(zip.bytes, offset, length))
    ensures Dependable(zip) && Willing(writer) ==> (ok <==> length == 0 || offset + length <= |zip.bytes|)
  {
    ghost var base := writer.received;
    ghost var goes := Takes(zip, offset, writer.accepts, base);
    var maxRead := ChunkLimit(zip, length);
    var count: nat := 0;
    sum := 0;
    while count < length
      invariant count <= length && (count > 0 ==> offset + count <= |zip.bytes|)
      invariant ChunksStand(length, maxRead, count, goes)
      invariant Copied(base, writer.received, crc, sum, Range(zip.bytes, offset, count))
    {
      ok, count, sum := ChunkTurn(zip, offset, length, maxRead, count, writer, crc, sum, base, goes);
      if !ok {
        return;
      }
    }
    return true, sum;
  }

  // ----- extraction into memory -----

  /** The outcome of extracting an entry that is not deflated from a dependable source into `room` bytes.
      An unknown method gives the code of a finished iteration. */
  function ExtractCode(file: seq<byte>, e: ZipEntry, room: nat): (r: Option<ZipError>) {
    if e.uncompressedLength > room then Some(IoError)
    else if e.compressionMethod != COMPRESS_STORED then Some(IterationEnd)
    else if e.uncompressedLength > 0 && !EndRecord.Readable(file, e.offset, e.uncompressedLength) then Some(IoError)
    else if e.hasDataDescriptor then ValidateDataDescriptor(file, e)
    else None
  }

  /** When an extraction from a dependable source succeeds: there is room, the entry is stored, its bytes lie
      inside the file, and a descriptor, if there is one, is that of the entry. */
  lemma ExtractsExactly(file: seq<byte>, e: ZipEntry, room: nat, end: nat)
    requires end == e.offset + e.uncompressedLength
    ensures ExtractCode(file, e, room) == None <==>
            && e.uncompressedLength <= room && e.compressionMethod == 0 && (e.uncompressedLength == 0 || end <= |file|)
            && (e.hasDataDescriptor ==>
                  && end + 24 <= |file|
                  && var at := if Get32(file, end) == 0x08074b50 then end + 4 else end;
                     file[at..at + |DescriptorFor(e)|] == DescriptorFor(e))
    ensures e.uncompressedLength > room ==> ExtractCode(file, e, room) == Some(IoError)
    ensures e.uncompressedLength <= room && e.compressionMethod != 0 ==> ExtractCode(file, e, room) == Some(IterationEnd)
    ensures e.uncompressedLength <= room && e.compressionMethod == 0 && e.uncompressedLength > 0 && end > |file| ==> ExtractCode(file, e, room) == Some(IoError)
  {
    if e.hasDataDescriptor && e.compressionMethod == 0 && end + 24 <= |file| {
      DescriptorAcceptedExactly(file, e, end, if Get32(file, end) == DATA_DESCRIPTOR_SIGNATURE then end + 4 else end);
    }
  }

  /** A dependable source ends the copy of 4 GiB or more only by its length. */
  lemma EndsShort(zip: Backing, offset: nat, length: nat)
    requires Dependable(zip) && length > U32_MAX && Ends(Reads(zip, offset), length, length)
    ensures offset + length > |zip.bytes|
  {
    RestIsMultiple(length);
    assert !CanRead(zip, offset + 0, Low32(length)) || !CanRead(zip, offset + Low32(length), 0);
    assert zip.Descriptor? ==> !zip.fails(offset, Low32(length)) && !zip.fails(offset + Low32(length), 0);
  }

  /** The checksum is not compared: the check is compiled out. Whenever the copying loop ends, so does this. */
  method ExtractToMemory(zip: Backing, e: ZipEntry, dest: array<byte>, crc: Crc) returns (code: Option<ZipError>)
    requires e.compressionMethod != COMPRESS_DEFLATED
    requires e.compressionMethod == COMPRESS_STORED && e.uncompressedLength <= dest.Length ==>
               Ends(Reads(zip, e.offset), e.uncompressedLength, e.uncompressedLength)
    modifies dest
    ensures Dependable(zip) ==> code == ExtractCode(zip.bytes, e, dest.Length)
    ensures code == None ==> ExtractCode(zip.bytes, e, dest.Length) == None
    ensures code == None ==> Filled(dest[..], old(dest[..]), Range(zip.bytes, e.offset, e.uncompressedLength))
  {
    if e.uncompressedLength > dest.Length {
      return Some(IoError);
    }
    if e.compressionMethod != COMPRESS_STORED {
      return Some(IterationEnd);
    }
    var writer := new MemoryWriter(dest);
    var ok, sum := CopyEntryToMemory(zip, e.offset, e.uncompressedLength, writer, crc);
    if !ok {
      if Dependable(zip) && e.uncompressedLength > U32_MAX { EndsShort(zip, e.offset, e.uncompressedLength); }
      return Some(IoError);
    }
    if e.hasDataDescriptor {
      if !CanRead(zip, e.offset + e.uncompressedLength, 24) {
        return Some(IoError);
      }
      return ValidateDataDescriptor(zip.bytes, e);
    }
    return None;
  }

  // ----- streaming -----

  /** What a stream delivers of a range before a read fails or the range ends. */
  function Delivered(zip: Backing, offset: nat, length: nat): (s: seq<byte>)
    decreases length
  {
    var bytes := Least(length, STREAM_BUFFER);
    if length == 0 || !CanRead(zip, offset, bytes) then []
    else zip.bytes[offset..offset + bytes] + Delivered(zip, offset + bytes, length - bytes)
  }

  class StreamEntry {
    const zip: Backing
    const step: Crc
    const crc32: u32
    var offset: nat
    var length: u32
    var data: seq<byte>
    var computed: u32

    constructor (zip: Backing, step: Crc, e: ZipEntry)
      requires e.uncompressedLength <= U32_MAX
      ensures this.zip == zip && this.step == step && crc32 == e.crc32
      ensures Valid() && offset == e.offset && length == e.uncompressedLength && computed == 0
    {
      this.zip, this.step, crc32 := zip, step, e.crc32;
      offset, length, data, computed := e.offset, e.uncompressedLength, Zeros(STREAM_BUFFER), 0;
    }

    /** The buffer keeps its full size until the last chunk. */
    ghost predicate Valid()
      reads this
    {
      length > 0 ==> |data| == STREAM_BUFFER
    }

    /** The next chunk, or nothing at the end or after a failed read. */
    method Read() returns (r: Option<seq<byte>>)
      requires Valid()
      modifies this
      ensures Valid()
      ensures r.None? ==> length == 0 && computed == old(computed) && Delivered(zip, old(offset), old(length)) == []
      ensures r.Some? ==>
        && |r.value| > 0 && |r.value| == (if old(length) < 65535 then old(length) else 65535) && length == old(length) - |r.value|
        && Delivered(zip, old(offset), old(length)) == r.value + Delivered(zip, offset, length)
        && computed == Checksum(step, old(computed), r.value)
    {
      if length == 0 {
        return None;
      }
      var bytes := if length > |data| then |data| else length;
      if !CanRead(zip, offset, bytes) {
        length := 0;
        return None;
      }
      data := zip.bytes[offset..offset + bytes];
      computed := Checksum(step, computed, data);
      length := length - bytes;
      offset := offset + bytes;
      return Some(data);
    }

    predicate Verify()
      reads this
    {
      length == 0 && crc32 == computed
    }
  }

  /** `all` is what has come out so far and what is still to come, and the checksum covers the former. */
  ghost predicate Streaming(zip: Backing, step: Crc, all: seq<byte>, out: seq<byte>, computed: u32, offset: nat, length: nat) {
    all == out + Delivered(zip, offset, length) && computed == Checksum(step, 0, out)
  }

  lemma StreamMore(all: seq<byte>, out: seq<byte>, chunk: seq<byte>, rest: seq<byte>, step: Crc)
    requires all == out + (chunk + rest)
    ensures all == (out + chunk) + rest
    ensures Checksum(step, Checksum(step, 0, out), chunk) == Checksum(step, 0, out + chunk)
  {
    ChecksumAppend(step, 0, out, chunk);
  }

  method ReadMore(s: StreamEntry, out: seq<byte>, ghost all: seq<byte>) returns (more: bool, longer: seq<byte>)
    requires s.Valid() && Streaming(s.zip, s.step, all, out, s.computed, s.offset, s.length)
    modifies s
    ensures s.Valid() && Streaming(s.zip, s.step, all, longer, s.computed, s.offset, s.length)
    ensures if more then s.length < old(s.length) else s.length == 0 && longer == all
  {
    var chunk := s.Read();
    if chunk.None? {
      return false, out;
    }
    StreamMore(all, out, chunk.value, Delivered(s.zip, s.offset, s.length), s.step);
    return true, out + chunk.value;
  }

  /** Read a stream to its end: the chunks join to what is delivered, and `Verify` then compares the
      checksum of exactly that. */
  method Drain(zip: Backing, step: Crc, e: ZipEntry) returns (out: seq<byte>, verified: bool)
    requires e.uncompressedLength <= U32_MAX
    ensures out == Delivered(zip, e.offset, e.uncompressedLength)
    ensures verified <==> Verifies(step, out, e.crc32)
    ensures AllReadable(zip, e.offset, e.uncompressedLength) ==>
      && InFile(zip, e.offset, e.uncompressedLength)
      && out == Range(zip.bytes, e.offset, e.uncompressedLength)
    ensures !AllReadable(zip, e.offset, e.uncompressedLength) ==> |out| < e.uncompressedLength
  {
    DeliveredIsPrefix(zip, e.offset, e.uncompressedLength, Delivered(zip, e.offset, e.uncompressedLength));
    DeliveredIsRange(zip, e.offset, e.uncompressedLength);
    var s := new StreamEntry(zip, step, e);
    ghost var all := Delivered(zip, s.offset, s.length);
    out := [];
    var more := true;
    while more
      invariant s.Valid() && s.zip == zip && s.step == step && s.crc32 == e.crc32 && fresh(s)
      invariant Streaming(zip, step, all, out, s.computed, s.offset, s.length)
      invariant !more ==> s.length == 0 && out == all
      decreases more, s.length
    {
      more, out := ReadMore(s, out, all);
    }
    verified := s.Verify();
  }

  /** A stream that is given up after some reads: it verifies only if all that could be read has come out. */
  method StopEarly(zip: Backing, step: Crc, e: ZipEntry, turns: nat) returns (out: seq<byte>, verified: bool)
    requires e.uncompressedLength <= U32_MAX
    ensures out <= Delivered(zip, e.offset, e.uncompressedLength)
    ensures verified ==> out == Delivered(zip, e.offset, e.uncompressedLength) && Verifies(step, out, e.crc32)
  {
    var s := new StreamEntry(zip, step, e);
    ghost var all := Delivered(zip, s.offset, s.length);
    out := [];
    var i, more := 0, true;
    while i < turns && more
      invariant s.Valid() && s.zip == zip && s.step == step && s.crc32 == e.crc32 && fresh(s)
      invariant Streaming(zip, step, all, out, s.computed, s.offset, s.length)
    {
      more, out := ReadMore(s, out, all);
      i := i + 1;
    }
    verified := s.Verify();
  }

  lemma JoinRanges(s: seq<byte>, o: nat, a: nat, d: seq<byte>)
    requires a > 0 && o + a <= |s| && (d != [] ==> o + a + |d| <= |s| && d == Range(s, o + a, |d|))
    ensures s[o..o + a] + d == Range(s, o, a + |d|)
  {}

  /** What is delivered is a prefix of the range… */
  lemma {:induction false} DeliveredIsPrefix(zip: Backing, offset: nat, length: nat, d: seq<byte>)
    requires d == Delivered(zip, offset, length)
    ensures |d| <= length && (d != [] ==> offset + |d| <= |zip.bytes| && d == Range(zip.bytes, offset, |d|))
    decreases length
  {
    var bytes := Least(length, STREAM_BUFFER);
    if length > 0 && CanRead(zip, offset, bytes) {
      var rest := Delivered(zip, offset + bytes, length - bytes);
      assert d == zip.bytes[offset..offset + bytes] + rest;
      DeliveredIsPrefix(zip, offset + bytes, length - bytes, rest);
      JoinRanges(zip.bytes, offset, bytes, rest);
    }
  }

  /** Every block a stream asks for can be read. */
  predicate AllReadable(zip: Backing, offset: nat, length: nat)
    decreases length
  {
    var bytes := Least(length, STREAM_BUFFER);
    length == 0 || (CanRead(zip, offset, bytes) && AllReadable(zip, offset + bytes, length - bytes))
  }

  predicate InFile(zip: Backing, offset: nat, length: nat) {
    length == 0 || offset + length <= |zip.bytes|
  }

  /** …and all of it if and only if every block can be read. */
  lemma {:induction false} DeliveredIsRange(zip: Backing, offset: nat, length: nat)
    ensures |Delivered(zip, offset, length)| == length <==> AllReadable(zip, offset, length)
    ensures AllReadable(zip, offset, length) ==>
              InFile(zip, offset, length) && Delivered(zip, offset, length) == Range(zip.bytes, offset, length)
    decreases length
  {
    DeliveredIsPrefix(zip, offset, length, Delivered(zip, offset, length));
    if length > 0 {
      var bytes := Least(length, STREAM_BUFFER);
      DeliveredIsRange(zip, offset + bytes, length - bytes);
    }
  }

  /** From a dependable source every block of a range inside the file can be read. */
  lemma {:induction false} DependableReadsAll(zip: Backing, offset: nat, length: nat)
    requires Dependable(zip)
    ensures AllReadable(zip, offset, length) <==> InFile(zip, offset, length)
    decreases length
  {
    if length > 0 {
      var bytes := Least(length, STREAM_BUFFER);
      DependableReadsAll(zip, offset + bytes, length - bytes);
    }
  }

  predicate Verifies(step: Crc, data: seq<byte>, recorded: u32) {
    Checksum(step, 0, data) == recorded
  }

  /** Whatever the checksum function and the recorded value, the verdict at the end of the stream is the
      verdict on the entry's own bytes. */
  ghost predicate VerifyDecides(zip: Backing, offset: nat, length: nat) {
    forall step: Crc, recorded: u32 ::
      Verifies(step, Delivered(zip, offset, length), recorded) <==>
      InFile(zip, offset, length) && Verifies(step, Range(zip.bytes, offset, length), recorded)
  }

  /** A checksum that counts bytes. */
  function Counting(): (step: Crc) {
    (c: u32, b: byte) => Low32(c + 1)
  }

  lemma {:induction false} CountsBytes(start: u32, data: seq<byte>)
    requires start + |data| <= U32_MAX
    ensures Checksum(Counting(), start, data) == start + |data|
    decreases |data|
  {
    if data != [] {
      CountsBytes(start + 1, data[1..]);
    }
  }

  /** A verdict can be relied on if and only if every block of the entry could be read. */
  lemma VerifyDecidesExactly(zip: Backing, offset: nat, length: u32)
    ensures VerifyDecides(zip, offset, length) <==> AllReadable(zip, offset, length)
  {
    var d := Delivered(zip, offset, length);
    DeliveredIsRange(zip, offset, length);
    if !AllReadable(zip, offset, length) {
      DeliveredIsPrefix(zip, offset, length, d);
      CountsBytes(0, d);
      assert Verifies(Counting(), d, |d|);
      if InFile(zip, offset, length) {
        CountsBytes(0, Range(zip.bytes, offset, length));
        assert !Verifies(Counting(), Range(zip.bytes, offset, length), |d|);
      }
    }
  }

  /** A read error on the first block of any entry, wherever it lies: nothing is delivered, and the stream
      still verifies if the recorded checksum is zero. */
  lemma VerifyMissesFailedRead(zip: Backing, offset: nat, length: nat, step: Crc)
    requires length > 0 && !CanRead(zip, offset, Least(length, STREAM_BUFFER))
    ensures Delivered(zip, offset, length) == [] && Verifies(step, Delivered(zip, offset, length), 0)
    ensures !AllReadable(zip, offset, length)
  {}
}
