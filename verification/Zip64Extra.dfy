/** The zip64 extended information in an extra field (section 4.5.3 of PKWARE APPNOTE.TXT): a walk over
    tagged blocks, and the 64-bit values that stand in for saturated 32-bit fields. */
module Zip64Extra {
  import opened Bytes
  import opened ZipErrors

  const ZIP64_HEADER_ID: u16 := 0x0001

  datatype Zip64Info = Zip64Info(uncompressedSize: Option<u64>, compressedSize: Option<u64>, localHeaderOffset: Option<u64>)

  /** The 32-bit fields that the block may replace. A local header has no offset field. */
  datatype Zip32Fields = Zip32Fields(uncompressedSize: u32, compressedSize: u32, localHeaderOffset: Option<u32>) {
    predicate UncompressedSaturated() {
      uncompressedSize == U32_MAX
    }
    predicate CompressedSaturated() {
      compressedSize == U32_MAX
    }
    predicate OffsetSaturated() {
      localHeaderOffset == Some(U32_MAX)
    }
    function Saturated(): (n: nat) {
      (if UncompressedSaturated() then 1 else 0) + (if CompressedSaturated() then 1 else 0) + (if OffsetSaturated() then 1 else 0)
    }
  }

  /** Read 64 bits at `pos` if `wanted`, moving past them; the bound is the end of the whole field. */
  function TryConsume(wanted: bool, extra: seq<byte>, pos: nat): (r: Result<(Option<u64>, nat)>)
    ensures r.Ok? ==> r.value.1 == pos + (if wanted then 8 else 0) && (r.value.0.Some? <==> wanted)
  {
    if !wanted then Ok((None, pos))
    else if |extra| < 8 || pos > |extra| - 8 then Err(InvalidOffset)
    else Ok((Some(Get64(extra, pos)), pos + 8))
  }

  /** The body of a zip64 block of declared size `dataSize` at `at`. */
  function ParseBlock(extra: seq<byte>, at: nat, dataSize: u16, zip32: Zip32Fields): (r: Result<Zip64Info>) {
    var size := if dataSize == 28 then 24 else dataSize;
    var complete := size == 24;
    var (uncompressed, p1) :- TryConsume(zip32.UncompressedSaturated() || complete, extra, at);
    var (compressed, p2) :- TryConsume(zip32.CompressedSaturated() || complete, extra, p1);
    var (offset, p3) :- TryConsume(zip32.OffsetSaturated() || complete, extra, p2);
    if p3 == at || size != p3 - at then Err(InvalidFile)
    else Ok(Zip64Info(uncompressed, compressed, offset))
  }

  /** The walk from `offset` on: where the first zip64 block has its data, and how much. */
  function Locate(extra: seq<byte>, offset: nat): (r: Result<(nat, u16)>)
    ensures r.Ok? ==> r.value.0 + r.value.1 <= |extra|
    decreases |extra| - offset
  {
    if offset >= |extra| - 4 then Err(InvalidFile)
    else
      var headerId, dataSize, at := Get16(extra, offset), Get16(extra, offset + 2), offset + 4;
      if dataSize > |extra| - at then Err(InvalidOffset)
      else if headerId != ZIP64_HEADER_ID then Locate(extra, at + dataSize)
      else Ok((at, dataSize))
  }

  function Parse(extra: seq<byte>, zip32: Zip32Fields): (r: Result<Zip64Info>) {
    var (at, dataSize) :- Locate(extra, 0);
    ParseBlock(extra, at, dataSize, zip32)
  }

  /** The loop; every read it makes lies inside the field. */
  method ParseZip64ExtendedInfo(extra: seq<byte>, zip32: Zip32Fields) returns (r: Result<Zip64Info>)
    requires |extra| <= U16_MAX
    ensures r == Parse(extra, zip32)
  {
    if |extra| <= 4 {
      return Err(InvalidFile);
    }
    var offset: nat := 0;
    while offset < |extra| - 4
      invariant offset <= |extra|
      invariant Locate(extra, 0) == Locate(extra, offset)
      decreases |extra| - offset
    {
      var headerId, dataSize := Get16(extra, offset), Get16(extra, offset + 2);
      offset := offset + 4;
      if dataSize > |extra| - offset {
        return Err(InvalidOffset);
      }
      if headerId != ZIP64_HEADER_ID {
        offset := offset + dataSize;
        continue;
      }
      return ParseBlock(extra, offset, dataSize, zip32);
    }
    return Err(InvalidFile);
  }

  // ----- the block grammar -----

  datatype RawBlock = Block(id: u16, data: seq<byte>)
  type Block = b: RawBlock | |b.data| <= U16_MAX witness Block(0, [])

  function EncodeBlock(b: Block): (s: seq<byte>)
    ensures |s| == 4 + |b.data|
  {
    Put16(b.id) + Put16(|b.data|) + b.data
  }

  function EncodeBlocks(bs: seq<Block>): (s: seq<byte>) {
    if bs == [] then [] else EncodeBlock(bs[0]) + EncodeBlocks(bs[1..])
  }

  /** A zip64 block is usable if it holds exactly the saturated fields, or all three, or all three and a
      disk number. */
  predicate Usable(data: seq<byte>, zip32: Zip32Fields) {
    |data| == 24 || |data| == 28 || (|data| == 8 * zip32.Saturated() && zip32.Saturated() > 0)
  }

  /** What a usable block says. */
  function Meaning(data: seq<byte>, zip32: Zip32Fields): (r: Zip64Info)
    requires Usable(data, zip32)
  {
    var complete := |data| == 24 || |data| == 28;
    var u := complete || zip32.UncompressedSaturated();
    var c := complete || zip32.CompressedSaturated();
    var o := complete || zip32.OffsetSaturated();
    var p1 := if u then 8 else 0;
    var p2 := if c then p1 + 8 else p1;
    Zip64Info(
      if u then Some(Get64(data, 0)) else None,
      if c then Some(Get64(data, p1)) else None,
      if o then Some(Get64(data, p2)) else None)
  }

  /** The extra field is blocks of other kinds, then a zip64 block with the given data, then anything. */
  ghost predicate Holds(extra: seq<byte>, before: seq<Block>, data: seq<byte>, rest: seq<byte>) {
    && |data| <= U16_MAX
    && (forall i :: 0 <= i < |before| ==> before[i].id != ZIP64_HEADER_ID)
    && extra == EncodeBlocks(before) + EncodeBlock(Block(ZIP64_HEADER_ID, data)) + rest
  }

  /** Reading a block header where one was written, and where it ends. */
  lemma BlockAt(extra: seq<byte>, offset: nat, b: Block, rest: seq<byte>)
    requires offset <= |extra| && extra[offset..] == EncodeBlock(b) + rest
    ensures offset + 4 + |b.data| <= |extra|
    ensures Get16(extra, offset) == b.id && Get16(extra, offset + 2) == |b.data|
    ensures extra[offset + 4..offset + 4 + |b.data|] == b.data
    ensures extra[offset + 4 + |b.data|..] == rest
  {
    var e := EncodeBlock(b);
    assert |extra| - offset == |e| + |rest|;
    assert extra[offset..offset + |e|] == extra[offset..][..|e|] == e;
    assert e[0..2] == Put16(b.id) && e[2..4] == Put16(|b.data|) && e[4..] == b.data;
    Field16(extra, offset, e, 0, b.id);
    Field16(extra, offset, e, 2, |b.data|);
    SliceOfSlice(extra, offset, |e|, 4, |e|);
    assert extra[offset + |e|..] == extra[offset..][|e|..] == rest;
  }

  /** A block header is always the header of some block. */
  lemma BlockRead(extra: seq<byte>, offset: nat)
    requires offset + 4 <= |extra| && offset + 4 + Get16(extra, offset + 2) <= |extra|
    ensures var at, n := offset + 4, Get16(extra, offset + 2);
            extra[offset..] == EncodeBlock(Block(Get16(extra, offset), extra[at..at + n])) + extra[at + n..]
  {
    PutGet16(extra, offset);
    PutGet16(extra, offset + 2);
    var at, n := offset + 4, Get16(extra, offset + 2);
    assert extra[offset..] == extra[offset..offset + 2] + extra[offset + 2..at] + extra[at..at + n] + extra[at + n..];
  }

  lemma SameField64(extra: seq<byte>, at: nat, data: seq<byte>, k: nat)
    requires at + |data| <= |extra| && extra[at..at + |data|] == data && k + 8 <= |data|
    ensures Get64(extra, at + k) == Get64(data, k)
  {
    assert forall j :: 0 <= j < |data| ==> data[j] == extra[at + j];
  }

  lemma SameFields64(extra: seq<byte>, at: nat, data: seq<byte>)
    requires at + |data| <= |extra| && extra[at..at + |data|] == data
    ensures |data| >= 8 ==> Get64(extra, at) == Get64(data, 0)
    ensures |data| >= 16 ==> Get64(extra, at + 8) == Get64(data, 8)
    ensures |data| >= 24 ==> Get64(extra, at + 16) == Get64(data, 16)
  {
    if |data| >= 8 { SameField64(extra, at, data, 0); }
    if |data| >= 16 { SameField64(extra, at, data, 8); }
    if |data| >= 24 { SameField64(extra, at, data, 16); }
  }

  /** A zip64 block is accepted exactly when it is usable, and then read as what it says. */
  lemma BlockParses(extra: seq<byte>, at: nat, data: seq<byte>, zip32: Zip32Fields)
    requires |data| <= U16_MAX && at + |data| <= |extra| && extra[at..at + |data|] == data
    ensures ParseBlock(extra, at, |data|, zip32).Ok? <==> Usable(data, zip32)
    ensures Usable(data, zip32) ==> ParseBlock(extra, at, |data|, zip32) == Ok(Meaning(data, zip32))
  {
    SameFields64(extra, at, data);
  }

  lemma LocateHere(extra: seq<byte>, offset: nat, data: seq<byte>, rest: seq<byte>)
    requires offset <= |extra| && data != [] && |data| <= U16_MAX
    requires extra[offset..] == EncodeBlock(Block(ZIP64_HEADER_ID, data)) + rest
    ensures Locate(extra, offset) == Ok((offset + 4, |data|)) && extra[offset + 4..offset + 4 + |data|] == data
  {
    BlockAt(extra, offset, Block(ZIP64_HEADER_ID, data), rest);
  }

  lemma LocateSkips(extra: seq<byte>, offset: nat, b: Block, tail: seq<byte>, next: nat)
    requires offset <= |extra| && b.id != ZIP64_HEADER_ID && tail != [] && extra[offset..] == EncodeBlock(b) + tail
    requires next == offset + 4 + |b.data|
    ensures next <= |extra| && extra[next..] == tail && Locate(extra, offset) == Locate(extra, next)
  {
    BlockAt(extra, offset, b, tail);
  }

  lemma HoldsTail(extra: seq<byte>, before: seq<Block>, data: seq<byte>, rest: seq<byte>) returns (tail: seq<byte>)
    requires Holds(extra, before, data, rest) && before != []
    ensures tail != [] && extra == EncodeBlock(before[0]) + tail && before[0].id != ZIP64_HEADER_ID && Holds(tail, before[1..], data, rest)
  {
    var z := EncodeBlock(Block(ZIP64_HEADER_ID, data));
    tail := EncodeBlocks(before[1..]) + z + rest;
    assert EncodeBlock(before[0]) + EncodeBlocks(before[1..]) + z + rest == EncodeBlock(before[0]) + tail;
  }

  lemma HoldsHere(extra: seq<byte>, data: seq<byte>, rest: seq<byte>)
    requires Holds(extra, [], data, rest)
    ensures extra == EncodeBlock(Block(ZIP64_HEADER_ID, data)) + rest
  {}

  /** The first zip64 block is found behind any other blocks. */
  lemma {:induction false} LocatesBlock(extra: seq<byte>, offset: nat, here: seq<byte>, before: seq<Block>, data: seq<byte>, rest: seq<byte>,
                                        r: Result<(nat, u16)>)
    requires offset <= |extra| && here == extra[offset..] && Holds(here, before, data, rest) && data != [] && r == Locate(extra, offset)
    ensures r.Ok? && r.value.1 == |data| && extra[r.value.0..r.value.0 + |data|] == data
    decreases |before|
  {
    if before == [] {
      HoldsHere(here, data, rest);
      LocateHere(extra, offset, data, rest);
    } else {
      var tail := HoldsTail(here, before, data, rest);
      var next := offset + 4 + |before[0].data|;
      LocateSkips(extra, offset, before[0], tail, next);
      LocatesBlock(extra, next, tail, before[1..], data, rest, r);
    }
  }

  lemma {:induction false} BlockLocated(extra: seq<byte>, offset: nat, p: nat, k: nat) returns (before: seq<Block>, rest: seq<byte>)
    requires offset <= |extra| && Locate(extra, offset) == Ok((p, k))
    ensures Holds(extra[offset..], before, extra[p..p + k], rest)
    decreases |extra| - offset
  {
    BlockRead(extra, offset);
    var id, at, n := Get16(extra, offset), offset + 4, Get16(extra, offset + 2);
    var b: Block := Block(id, extra[at..at + n]);
    var tail := extra[at + n..];
    assert extra[offset..] == EncodeBlock(b) + tail;
    if id == ZIP64_HEADER_ID {
      before, rest := [], tail;
    } else {
      before, rest := BlockLocated(extra, at + n, p, k);
      PrependBlock(tail, b, before, extra[p..p + k], rest);
      before := [b] + before;
    }
  }

  lemma PrependBlock(extra: seq<byte>, b: Block, before: seq<Block>, data: seq<byte>, rest: seq<byte>)
    requires Holds(extra, before, data, rest) && b.id != ZIP64_HEADER_ID
    ensures Holds(EncodeBlock(b) + extra, [b] + before, data, rest)
  {
    assert ([b] + before)[1..] == before;
  }

  lemma ParsedIsUsable(extra: seq<byte>, zip32: Zip32Fields) returns (before: seq<Block>, data: seq<byte>, rest: seq<byte>)
    requires Parse(extra, zip32).Ok?
    ensures Holds(extra, before, data, rest) && Usable(data, zip32) && Parse(extra, zip32).value == Meaning(data, zip32)
  {
    assert extra[0..] == extra;
    var (at, n) := Locate(extra, 0).value;
    before, rest := BlockLocated(extra, 0, at, n);
    data := extra[at..at + n];
    BlockParses(extra, at, data, zip32);
  }

  lemma UsableIsParsed(extra: seq<byte>, zip32: Zip32Fields, before: seq<Block>, data: seq<byte>, rest: seq<byte>)
    requires Holds(extra, before, data, rest) && Usable(data, zip32)
    ensures Parse(extra, zip32) == Ok(Meaning(data, zip32))
  {
    assert extra[0..] == extra;
    LocatesBlock(extra, 0, extra, before, data, rest, Locate(extra, 0));
    BlockParses(extra, Locate(extra, 0).value.0, data, zip32);
  }

  /** The parser succeeds exactly on fields whose first zip64 block is usable, whatever precedes and follows
      it, and returns what that block says. */
  lemma ParsesExactly(extra: seq<byte>, zip32: Zip32Fields, info: Zip64Info)
    ensures Parse(extra, zip32) == Ok(info) <==>
      exists before, data, rest :: Holds(extra, before, data, rest) && Usable(data, zip32) && info == Meaning(data, zip32)
  {
    if Parse(extra, zip32) == Ok(info) {
      var before, data, rest := ParsedIsUsable(extra, zip32);
    }
    if before, data, rest :| Holds(extra, before, data, rest) && Usable(data, zip32) && info == Meaning(data, zip32) {
      UsableIsParsed(extra, zip32, before, data, rest);
    }
  }

  /** A saturated field is always replaced, so the reader's assertions that the value is there never fail. */
  lemma SaturatedReplaced(extra: seq<byte>, zip32: Zip32Fields)
    requires Parse(extra, zip32).Ok?
    ensures var info := Parse(extra, zip32).value;
            && (zip32.UncompressedSaturated() ==> info.uncompressedSize.Some?)
            && (zip32.CompressedSaturated() ==> info.compressedSize.Some?)
            && (zip32.OffsetSaturated() ==> info.localHeaderOffset.Some?)
  {}

  // ----- values and their encoding -----

  /** The 32-bit field for a 64-bit value. */
  function Saturate(x: u64): (f: u32) {
    if x < U32_MAX then x else U32_MAX
  }

  function Wide(x: u64): (s: seq<byte>)
    ensures |s| == if x < U32_MAX then 0 else 8
  {
    if x < U32_MAX then [] else Put64(x)
  }

  /** The block data for the values whose fields are saturated, in the order of the format. */
  function WideData(uncompressed: u64, compressed: u64, offset: u64): (s: seq<byte>) {
    Wide(uncompressed) + Wide(compressed) + Wide(offset)
  }

  function FieldsFor(uncompressed: u64, compressed: u64, offset: u64): (f: Zip32Fields) {
    Zip32Fields(Saturate(uncompressed), Saturate(compressed), Some(Saturate(offset)))
  }

  /** The value at position `at` of the block data, if it is there. */
  lemma WideAt(data: seq<byte>, at: nat, x: u64)
    requires at + |Wide(x)| <= |data| && data[at..at + |Wide(x)|] == Wide(x)
    ensures x >= U32_MAX ==> Get64(data, at) == x
  {
    if x >= U32_MAX {
      GetPut64(data, at, x);
    }
  }

  lemma WideParts(data: seq<byte>, a: seq<byte>, b: seq<byte>, c: seq<byte>)
    requires data == a + b + c
    ensures data[0..|a|] == a && data[|a|..|a| + |b|] == b && data[|a| + |b|..|a| + |b| + |c|] == c
  {}

  /** A block that gives all three values, with or without a disk number behind them, says them whatever the
      header has in its own fields. */
  lemma CompleteBlockParses(uncompressed: u64, compressed: u64, offset: u64, disk: seq<byte>, f: Zip32Fields, extra: seq<byte>, rest: seq<byte>, data: seq<byte>)
    requires data == Put64(uncompressed) + Put64(compressed) + Put64(offset) + disk && |disk| in {0, 4}
    requires extra == [1, 0, |data|, 0] + data + rest
    ensures Parse(extra, f) == Ok(Zip64Info(Some(uncompressed), Some(compressed), Some(offset)))
  {
    CompleteData(uncompressed, compressed, offset, disk, data);
    SoleBlockHolds(extra, data, rest);
    UsableIsParsed(extra, f, [], data, rest);
    CompleteMeaning(data, f);
  }

  lemma SoleBlockHolds(extra: seq<byte>, data: seq<byte>, rest: seq<byte>)
    requires |data| < 256 && extra == [1, 0, |data|, 0] + data + rest
    ensures Holds(extra, [], data, rest)
  {
    assert EncodeBlock(Block(ZIP64_HEADER_ID, data)) == [1, 0, |data|, 0] + data;
    assert EncodeBlocks([]) + EncodeBlock(Block(ZIP64_HEADER_ID, data)) + rest == extra;
  }

  lemma CompleteMeaning(data: seq<byte>, f: Zip32Fields)
    requires |data| in {24, 28}
    ensures Usable(data, f) && Meaning(data, f) == Zip64Info(Some(Get64(data, 0)), Some(Get64(data, 8)), Some(Get64(data, 16)))
  {}

  lemma CompleteData(uncompressed: u64, compressed: u64, offset: u64, disk: seq<byte>, data: seq<byte>)
    requires data == Put64(uncompressed) + Put64(compressed) + Put64(offset) + disk
    ensures Get64(data, 0) == uncompressed && Get64(data, 8) == compressed && Get64(data, 16) == offset
  {
    assert data[0..8] == Put64(uncompressed) && data[8..16] == Put64(compressed) && data[16..24] == Put64(offset);
    GetPut64(data, 0, uncompressed);
    GetPut64(data, 8, compressed);
    GetPut64(data, 16, offset);
  }

  lemma WideUsable(uncompressed: u64, compressed: u64, offset: u64, data: seq<byte>, f: Zip32Fields)
    requires uncompressed >= U32_MAX || compressed >= U32_MAX || offset >= U32_MAX
    requires f == FieldsFor(uncompressed, compressed, offset) && |data| == |Wide(uncompressed)| + |Wide(compressed)| + |Wide(offset)|
    ensures Usable(data, f)
    ensures var r := Meaning(data, f);
            && r.uncompressedSize == (if uncompressed >= U32_MAX then Some(Get64(data, 0)) else None)
            && r.compressedSize == (if compressed >= U32_MAX then Some(Get64(data, |Wide(uncompressed)|)) else None)
            && r.localHeaderOffset == (if offset >= U32_MAX then Some(Get64(data, |Wide(uncompressed)| + |Wide(compressed)|)) else None)
  {}

  lemma WideValues(uncompressed: u64, compressed: u64, offset: u64, data: seq<byte>, p1: nat, p2: nat)
    requires data == WideData(uncompressed, compressed, offset)
    requires p1 == |Wide(uncompressed)| && p2 == p1 + |Wide(compressed)|
    ensures uncompressed >= U32_MAX ==> Get64(data, 0) == uncompressed
    ensures compressed >= U32_MAX ==> Get64(data, p1) == compressed
    ensures offset >= U32_MAX ==> Get64(data, p2) == offset
  {
    WideParts(data, Wide(uncompressed), Wide(compressed), Wide(offset));
    WideAt(data, 0, uncompressed);
    WideAt(data, p1, compressed);
    WideAt(data, p2, offset);
  }

  /** Whatever the three values, if any needs 64 bits the encoded block is usable and says all three. */
  lemma WideDataMeans(uncompressed: u64, compressed: u64, offset: u64, data: seq<byte>)
    requires uncompressed >= U32_MAX || compressed >= U32_MAX || offset >= U32_MAX
    requires data == WideData(uncompressed, compressed, offset)
    ensures var f := FieldsFor(uncompressed, compressed, offset);
            && Usable(data, f)
            && Meaning(data, f).uncompressedSize.GetOr(f.uncompressedSize) == uncompressed
            && Meaning(data, f).compressedSize.GetOr(f.compressedSize) == compressed
            && Meaning(data, f).localHeaderOffset.GetOr(Saturate(offset)) == offset
  {
    WideUsable(uncompressed, compressed, offset, data, FieldsFor(uncompressed, compressed, offset));
    WideValues(uncompressed, compressed, offset, data, |Wide(uncompressed)|, |Wide(uncompressed)| + |Wide(compressed)|);
  }

  /** A local header that saturates both sizes gives both in its block, however small they are. */
  lemma BothSizesMean(uncompressed: u64, compressed: u64, data: seq<byte>)
    requires data == Put64(uncompressed) + Put64(compressed)
    ensures var f := Zip32Fields(U32_MAX, U32_MAX, None);
            Usable(data, f) && Meaning(data, f) == Zip64Info(Some(uncompressed), Some(compressed), None)
  {
    assert data[0..8] == Put64(uncompressed) && data[8..16] == Put64(compressed);
    GetPut64(data, 0, uncompressed);
    GetPut64(data, 8, compressed);
  }
}
