/** The two passes over the central directory: a validating walk, then an unchecked one that fills the
    name index. */
module ZipDirectory {
  import opened Bytes
  import opened ZipErrors
  import opened ZipFormat
  import opened EntryName
  import Zip64Extra
  import CdEntryMap

  type Name = CdEntryMap.Name

  /** 64 bits read into a signed type. */
  function ToSigned(x: u64): (r: int)
    ensures -0x8000_0000_0000_0000 <= r < 0x8000_0000_0000_0000
  {
    if x < 0x8000_0000_0000_0000 then x else x - 0x1_0000_0000_0000_0000
  }

  function RecordEnd(r: CentralDirectoryRecord, o: nat): (e: nat) {
    o + CDR_SIZE + r.fileNameLength + r.extraFieldLength + r.commentLength
  }

  function Fields(r: CentralDirectoryRecord): (f: Zip64Extra.Zip32Fields) {
    Zip64Extra.Zip32Fields(r.uncompressedSize, r.compressedSize, Some(r.localFileHeaderOffset))
  }

  function NameBytes(cd: seq<byte>, o: nat): (n: Name)
    requires o + CDR_SIZE <= |cd| && o + CDR_SIZE + DecodeCentralDirectoryRecord(cd, o).fileNameLength <= |cd|
  {
    cd[o + CDR_SIZE..o + CDR_SIZE + DecodeCentralDirectoryRecord(cd, o).fileNameLength]
  }

  /** The local header offset a record declares, through its zip64 block if the field is saturated. */
  function DeclaredOffset(cd: seq<byte>, o: nat): (r: Result<int>)
    requires o + CDR_SIZE <= |cd|
    requires var c := DecodeCentralDirectoryRecord(cd, o); o + CDR_SIZE + c.fileNameLength + c.extraFieldLength <= |cd|
  {
    var c := DecodeCentralDirectoryRecord(cd, o);
    if c.localFileHeaderOffset != U32_MAX then Ok(c.localFileHeaderOffset)
    else
      var at := o + CDR_SIZE + c.fileNameLength;
      var info :- Zip64Extra.Parse(cd[at..at + c.extraFieldLength], Fields(c));
      Zip64Extra.SaturatedReplaced(cd[at..at + c.extraFieldLength], Fields(c));
      Ok(ToSigned(info.localHeaderOffset.value))
  }

  /** All checks on the record at `o`; the result is where the next record starts. */
  function CheckRecord(cd: seq<byte>, o: nat, directoryOffset: int): (r: Result<nat>) {
    if o > |cd| - CDR_SIZE then Err(InvalidFile)
    else
      var c := DecodeCentralDirectoryRecord(cd, o);
      var nameAt := o + CDR_SIZE;
      if c.signature != CDR_SIGNATURE then Err(InvalidFile)
      else if c.fileNameLength >= |cd| || nameAt > |cd| - c.fileNameLength then Err(InvalidEntryName)
      else
        var extraAt := nameAt + c.fileNameLength;
        if c.extraFieldLength >= |cd| || extraAt > |cd| - c.extraFieldLength then Err(InvalidFile)
        else
          var localOffset :- DeclaredOffset(cd, o);
          if localOffset >= directoryOffset then Err(InvalidFile)
          else if !ValidName(NameBytes(cd, o)) then Err(InvalidEntryName)
          else if RecordEnd(c, o) > |cd| then Err(InvalidFile)
          else Ok(RecordEnd(c, o))
  }

  /** A record is accepted if and only if all of it lies inside the directory, it has the signature and a
      valid name, and the local header it declares starts before the directory. */
  lemma RecordAccepted(cd: seq<byte>, o: nat, directoryOffset: int)
    ensures CheckRecord(cd, o, directoryOffset).Ok? <==>
      && o + CDR_SIZE <= |cd|
      && var c := DecodeCentralDirectoryRecord(cd, o);
      && c.signature == CDR_SIGNATURE && RecordEnd(c, o) <= |cd| && ValidName(NameBytes(cd, o))
      && DeclaredOffset(cd, o).Ok? && DeclaredOffset(cd, o).value < directoryOffset
    ensures CheckRecord(cd, o, directoryOffset).Ok? ==>
      CheckRecord(cd, o, directoryOffset).value == RecordEnd(DecodeCentralDirectoryRecord(cd, o), o)
  {}

  /** How a record is refused, in the order of the checks. */
  lemma RecordRefused(cd: seq<byte>, o: nat, directoryOffset: int)
    ensures var r := CheckRecord(cd, o, directoryOffset);
            if o + 46 > |cd| || Get32(cd, o) != 0x02014b50 then r == Err(InvalidFile)
            else
              var name, extra, comment := Get16(cd, o + 28), Get16(cd, o + 30), Get16(cd, o + 32);
              if o + 46 + name > |cd| then r == Err(InvalidEntryName)
              else if o + 46 + name + extra > |cd| then r == Err(InvalidFile)
              else if DeclaredOffset(cd, o).Err? then r == Err(DeclaredOffset(cd, o).error)
              else if DeclaredOffset(cd, o).value >= directoryOffset then r == Err(InvalidFile)
              else if !ValidName(cd[o + 46..o + 46 + name]) then r == Err(InvalidEntryName)
              else if o + 46 + name + extra + comment > |cd| then r == Err(InvalidFile)
              else r == Ok(o + 46 + name + extra + comment)
  {}

  /** Follow `n` steps from `o`, collecting the positions, until a step fails. */
  function Follow(step: nat -> Result<nat>, n: nat, o: nat): (r: Result<seq<nat>>)
    decreases n
  {
    if n == 0 then Ok([])
    else
      var next :- step(o);
      var rest :- Follow(step, n - 1, next);
      Ok([o] + rest)
  }

  function Checker(cd: seq<byte>, directoryOffset: int): (step: nat -> Result<nat>) {
    (o: nat) => CheckRecord(cd, o, directoryOffset)
  }

  /** The first pass: the offsets of `n` records from `o` on. */
  function CheckRecords(cd: seq<byte>, directoryOffset: int, n: nat, o: nat): (r: Result<seq<nat>>) {
    Follow(Checker(cd, directoryOffset), n, o)
  }

  /** Record offsets that the second pass may follow blindly: they step from record end to record end, and
      every header and name lies inside the directory. */
  predicate Walkable(cd: seq<byte>, offsets: seq<nat>, o: nat)
    decreases |offsets|
  {
    offsets != [] ==>
    && offsets[0] == o && o + CDR_SIZE <= |cd|
    && var c := DecodeCentralDirectoryRecord(cd, o);
    && RecordEnd(c, o) <= |cd|
    && Walkable(cd, offsets[1..], RecordEnd(c, o))
  }

  lemma {:induction false} FirstPassWalkable(cd: seq<byte>, directoryOffset: int, n: nat, o: nat)
    requires CheckRecords(cd, directoryOffset, n, o).Ok?
    ensures |CheckRecords(cd, directoryOffset, n, o).value| == n
    ensures Walkable(cd, CheckRecords(cd, directoryOffset, n, o).value, o)
    decreases n
  {
    if n > 0 {
      var next := CheckRecord(cd, o, directoryOffset).value;
      FirstPassWalkable(cd, directoryOffset, n - 1, next);
      var all := CheckRecords(cd, directoryOffset, n, o).value;
      assert all[1..] == CheckRecords(cd, directoryOffset, n - 1, next).value;
    }
  }

  lemma {:induction false} WalkableIncreases(cd: seq<byte>, offsets: seq<nat>, o: nat)
    requires Walkable(cd, offsets, o) && offsets != []
    ensures offsets[0] == o
    ensures forall i :: 0 <= i < |offsets| - 1 ==> offsets[i] + CDR_SIZE <= offsets[i + 1]
    ensures o + CDR_SIZE * |offsets| <= |cd|
    decreases |offsets|
  {
    if |offsets| > 1 {
      var next := RecordEnd(DecodeCentralDirectoryRecord(cd, o), o);
      WalkableIncreases(cd, offsets[1..], next);
      assert forall i :: 1 <= i < |offsets| - 1 ==> offsets[i] == offsets[1..][i - 1] && offsets[i + 1] == offsets[1..][i];
    }
  }

  /** The record whose name starts at `nameOffset` lies inside the directory. */
  predicate RecordInside(cd: seq<byte>, nameOffset: nat) {
    && CDR_SIZE <= nameOffset <= |cd|
    && RecordEnd(DecodeCentralDirectoryRecord(cd, nameOffset - CDR_SIZE), nameOffset - CDR_SIZE) <= |cd|
  }

  predicate NamedInside(cd: seq<byte>, offsets: seq<nat>, ns: seq<Name>, i: nat)
    requires i < |offsets| == |ns|
  {
    RecordInside(cd, offsets[i] + CDR_SIZE) && |ns[i]| <= U16_MAX
  }

  /** Every walked record lies inside the directory, and so does its name. */
  lemma {:induction false} WalkedInside(cd: seq<byte>, offsets: seq<nat>, o: nat, ns: seq<Name>, i: nat)
    requires Walkable(cd, offsets, o) && ns == Names(cd, offsets, o) && i < |offsets|
    ensures NamedInside(cd, offsets, ns, i)
    decreases |offsets|
  {
    if i > 0 {
      var next := RecordEnd(DecodeCentralDirectoryRecord(cd, o), o);
      WalkedInside(cd, offsets[1..], next, Names(cd, offsets[1..], next), i - 1);
      assert offsets[1..][i - 1] == offsets[i] && ns[i] == Names(cd, offsets[1..], next)[i - 1];
    }
  }

  /** More records than 46-byte headers fit are always refused. */
  lemma TooManyRecords(cd: seq<byte>, directoryOffset: int, n: nat)
    requires CDR_SIZE * n > |cd|
    ensures CheckRecords(cd, directoryOffset, n, 0).Err?
  {
    if CheckRecords(cd, directoryOffset, n, 0).Ok? {
      FirstPassWalkable(cd, directoryOffset, n, 0);
      WalkableIncreases(cd, CheckRecords(cd, directoryOffset, n, 0).value, 0);
    }
  }

  // ----- the index the second pass builds -----

  /** Add the names at the given record offsets; a repeated name is refused. */
  function IndexRecords(cd: seq<byte>, offsets: seq<nat>, o: nat, index: map<Name, nat>): (r: Result<map<Name, nat>>)
    requires Walkable(cd, offsets, o)
    decreases |offsets|
  {
    if offsets == [] then Ok(index)
    else
      var name := NameBytes(cd, o);
      if name in index then Err(DuplicateEntry)
      else IndexRecords(cd, offsets[1..], RecordEnd(DecodeCentralDirectoryRecord(cd, o), o), index[name := o + CDR_SIZE])
  }

  function Names(cd: seq<byte>, offsets: seq<nat>, o: nat): (ns: seq<Name>)
    requires Walkable(cd, offsets, o)
    ensures |ns| == |offsets|
    decreases |offsets|
  {
    if offsets == [] then []
    else [NameBytes(cd, o)] + Names(cd, offsets[1..], RecordEnd(DecodeCentralDirectoryRecord(cd, o), o))
  }

  ghost predicate Distinct(ns: seq<Name>) {
    forall i, j :: 0 <= i < j < |ns| ==> ns[i] != ns[j]
  }

  ghost predicate NoneIn(ns: seq<Name>, index: map<Name, nat>) {
    forall i :: 0 <= i < |ns| ==> ns[i] !in index
  }

  /** `index` is `before` plus each name at its record's name offset, and nothing else. */
  ghost predicate Extends(index: map<Name, nat>, before: map<Name, nat>, ns: seq<Name>, offsets: seq<nat>)
    requires |ns| == |offsets|
  {
    && (forall n :: n in index <==> n in before || n in ns)
    && (forall n :: n in before ==> n in index && index[n] == before[n])
    && (forall i :: 0 <= i < |ns| ==> ns[i] in index && index[ns[i]] == offsets[i] + CDR_SIZE)
  }

  lemma DistinctCons(n: Name, ns: seq<Name>, index: map<Name, nat>, v: nat)
    ensures Distinct([n] + ns) && NoneIn([n] + ns, index) <==> n !in index && Distinct(ns) && NoneIn(ns, index[n := v])
  {
    var all := [n] + ns;
    assert all[0] == n && forall i :: 0 <= i < |ns| ==> ns[i] == all[i + 1];
    if Distinct(all) {
      assert forall i :: 0 <= i < |ns| ==> ns[i] != n;
      forall i, j | 0 <= i < j < |ns| ensures ns[i] != ns[j] { assert all[i + 1] != all[j + 1]; }
    }
    if Distinct(ns) && NoneIn(ns, index[n := v]) {
      assert forall j :: 1 <= j < |all| ==> all[j] == ns[j - 1];
    }
  }

  lemma ExtendsCons(r: map<Name, nat>, index: map<Name, nat>, n: Name, ns: seq<Name>, o: nat, offsets: seq<nat>)
    requires |ns| == |offsets| && n !in index && Extends(r, index[n := o + CDR_SIZE], ns, offsets)
    ensures Extends(r, index, [n] + ns, [o] + offsets)
  {}

  lemma ExtendsAt(index: map<Name, nat>, ns: seq<Name>, offsets: seq<nat>, i: nat, name: Name, o: nat)
    requires |ns| == |offsets| && i < |ns| && Extends(index, map[], ns, offsets) && ns[i] == name && offsets[i] == o
    ensures name in index && index[name] == o + CDR_SIZE
  {}

  /** The index is refused exactly when a name repeats; otherwise it holds exactly the walked names. */
  lemma {:induction false} IndexExactly(cd: seq<byte>, offsets: seq<nat>, o: nat, index: map<Name, nat>)
    requires Walkable(cd, offsets, o)
    ensures var ns, r := Names(cd, offsets, o), IndexRecords(cd, offsets, o, index);
            && (r.Ok? <==> Distinct(ns) && NoneIn(ns, index))
            && (r.Ok? ==> Extends(r.value, index, ns, offsets))
            && (r.Err? ==> r == Err(DuplicateEntry))
    decreases |offsets|
  {
    if offsets != [] {
      var n, next := NameBytes(cd, o), RecordEnd(DecodeCentralDirectoryRecord(cd, o), o);
      var ns := Names(cd, offsets[1..], next);
      DistinctCons(n, ns, index, o + CDR_SIZE);
      if n !in index {
        IndexExactly(cd, offsets[1..], next, index[n := o + CDR_SIZE]);
        var r := IndexRecords(cd, offsets[1..], next, index[n := o + CDR_SIZE]);
        if r.Ok? { ExtendsCons(r.value, index, n, ns, o, offsets[1..]); }
        assert [o] + offsets[1..] == offsets;
      }
    }
  }

  // ----- the loops -----

  /** The checks of the first pass on one record. */
  method ValidateRecord(cd: seq<byte>, o: nat, directoryOffset: int) returns (r: Result<nat>)
    ensures r == CheckRecord(cd, o, directoryOffset)
  {
    if o > |cd| - CDR_SIZE {
      return Err(InvalidFile);
    }
    var c := DecodeCentralDirectoryRecord(cd, o);
    if c.signature != CDR_SIGNATURE {
      return Err(InvalidFile);
    }
    var nameAt := o + CDR_SIZE;
    if c.fileNameLength >= |cd| || nameAt > |cd| - c.fileNameLength {
      return Err(InvalidEntryName);
    }
    var extraAt := nameAt + c.fileNameLength;
    if c.extraFieldLength >= |cd| || extraAt > |cd| - c.extraFieldLength {
      return Err(InvalidFile);
    }
    var localOffset: int := c.localFileHeaderOffset;
    if localOffset == U32_MAX {
      var extra := cd[extraAt..extraAt + c.extraFieldLength];
      var info := Zip64Extra.ParseZip64ExtendedInfo(extra, Fields(c));
      if info.Err? {
        return Err(info.error);
      }
      Zip64Extra.SaturatedReplaced(extra, Fields(c));
      localOffset := ToSigned(info.value.localHeaderOffset.value);
    }
    if localOffset >= directoryOffset {
      return Err(InvalidFile);
    }
    var valid := IsValidEntryName(cd[nameAt..extraAt]);
    if !valid {
      return Err(InvalidEntryName);
    }
    if RecordEnd(c, o) > |cd| {
      return Err(InvalidFile);
    }
    return Ok(RecordEnd(c, o));
  }

  /** `done` are consecutive successful steps from `start`, the last of which leads to `o`. */
  ghost predicate Chain(step: nat -> Result<nat>, start: nat, done: seq<nat>, o: nat)
    decreases |done|
  {
    if done == [] then o == start
    else
      var last := done[|done| - 1];
      step(last) == Ok(o) && Chain(step, start, done[..|done| - 1], last)
  }

  function Prefixed(done: seq<nat>, left: Result<seq<nat>>): (r: Result<seq<nat>>) {
    if left.Ok? then Ok(done + left.value) else left
  }

  lemma FollowOneMore(step: nat -> Result<nat>, n: nat, o: nat, next: nat, done: seq<nat>)
    requires step(o) == Ok(next)
    ensures Prefixed(done, Follow(step, n + 1, o)) == Prefixed(done + [o], Follow(step, n, next))
  {
    var left := Follow(step, n, next);
    if left.Ok? { assert done + ([o] + left.value) == (done + [o]) + left.value; }
  }

  /** Following from the start is the chain so far, continued. */
  lemma {:induction false} ChainResumes(step: nat -> Result<nat>, n: nat, start: nat, done: seq<nat>, o: nat)
    requires Chain(step, start, done, o) && |done| <= n
    ensures Follow(step, n, start) == Prefixed(done, Follow(step, n - |done|, o))
    decreases |done|
  {
    if done != [] {
      var front, last := done[..|done| - 1], done[|done| - 1];
      ChainResumes(step, n, start, front, last);
      FollowOneMore(step, n - |done|, last, o, front);
      assert front + [last] == done;
    } else {
      var all := Follow(step, n, o);
      if all.Ok? { assert done + all.value == all.value; }
    }
  }

  lemma ChainGrows(step: nat -> Result<nat>, start: nat, done: seq<nat>, o: nat, next: nat)
    requires Chain(step, start, done, o) && step(o) == Ok(next)
    ensures Chain(step, start, done + [o], next)
  {
    assert (done + [o])[..|done|] == done;
  }

  ghost predicate NamesAtMost(cd: seq<byte>, offsets: seq<nat>, m: nat) {
    forall i :: 0 <= i < |offsets| ==> offsets[i] + CDR_SIZE <= |cd| && DecodeCentralDirectoryRecord(cd, offsets[i]).fileNameLength <= m
  }

  /** The validating pass. */
  method FirstPass(cd: seq<byte>, directoryOffset: int, n: nat) returns (error: Option<ZipError>, maxNameLength: nat)
    ensures error.Some? ==> CheckRecords(cd, directoryOffset, n, 0) == Err(error.value)
    ensures error.None? ==> CheckRecords(cd, directoryOffset, n, 0).Ok? && NamesAtMost(cd, CheckRecords(cd, directoryOffset, n, 0).value, maxNameLength)
    ensures maxNameLength <= U16_MAX
  {
    ghost var step, done: seq<nat> := Checker(cd, directoryOffset), [];
    var o: nat := 0;
    maxNameLength := 0;
    var i := 0;
    while i < n
      invariant |done| == i <= n
      invariant Chain(step, 0, done, o)
      invariant NamesAtMost(cd, done, maxNameLength) && maxNameLength <= U16_MAX
    {
      var next := ValidateRecord(cd, o, directoryOffset);
      if next.Err? {
        ChainResumes(step, n, 0, done, o);
        return Some(next.error), maxNameLength;
      }
      ChainGrows(step, 0, done, o, next.value);
      var nameLength := DecodeCentralDirectoryRecord(cd, o).fileNameLength;
      maxNameLength := if nameLength > maxNameLength then nameLength else maxNameLength;
      done := done + [o];
      o := next.value;
      i := i + 1;
    }
    ChainResumes(step, n, 0, done, o);
    assert done + [] == done;
    return None, maxNameLength;
  }

  // ----- how far the hash table reaches -----

  /** All name offsets fit 32 bits. */
  predicate Addressable(offsets: seq<nat>) {
    forall i :: 0 <= i < |offsets| ==> offsets[i] + CDR_SIZE <= U32_MAX
  }

  /** The second pass on one record: add its name and step to the next record. */
  method AddRecord(cd: seq<byte>, o: nat, index: CdEntryMap.Index, ghost maxNameLength: nat) returns (ok: bool, next: nat)
    requires o + CDR_SIZE <= |cd| && RecordEnd(DecodeCentralDirectoryRecord(cd, o), o) <= |cd|
    requires DecodeCentralDirectoryRecord(cd, o).fileNameLength <= maxNameLength <= U16_MAX
    requires index.Valid(cd) && index.HasRoom()
    requires index.Zip32? ==> index.t.packing == CdEntryMap.ChoosePacking(|cd|, maxNameLength)
    modifies index.Repr()
    ensures index.Valid(cd) && next == RecordEnd(DecodeCentralDirectoryRecord(cd, o), o)
    ensures index.Zip32? && ok ==> index.t.adds == old(index.t.adds) + 1
    ensures (index.Zip32? ==> o + CDR_SIZE <= U32_MAX) && old(index.Exact()) ==>
      && index.Exact()
      && ok == (NameBytes(cd, o) !in old(index.Contents()))
      && (ok ==> index.Contents() == old(index.Contents())[NameBytes(cd, o) := o + CDR_SIZE])
  {
    var c := DecodeCentralDirectoryRecord(cd, o);
    CdEntryMap.ChosenPackingFits(|cd|, maxNameLength, o + CDR_SIZE, c.fileNameLength);
    ok := index.AddToMap(o + CDR_SIZE, c.fileNameLength, cd);
    next := RecordEnd(c, o);
  }

  /** The unchecked second pass: it follows the record lengths again and adds each name. */
  method SecondPass(cd: seq<byte>, n: nat, index: CdEntryMap.Index, ghost offsets: seq<nat>, ghost maxNameLength: nat) returns (ok: bool)
    requires |offsets| == n && Walkable(cd, offsets, 0) && NamesAtMost(cd, offsets, maxNameLength) && maxNameLength <= U16_MAX
    requires index.Valid(cd) && index.Exact() && index.Contents() == map[]
    requires index.Zip32? ==> index.t.adds == 0 && index.t.capacity == n && index.t.packing == CdEntryMap.ChoosePacking(|cd|, maxNameLength)
    modifies index.Repr()
    ensures index.Valid(cd)
    ensures (index.Zip32? ==> Addressable(offsets)) ==> index.Exact() && ok == IndexRecords(cd, offsets, 0, map[]).Ok?
    ensures (index.Zip32? ==> Addressable(offsets)) && ok ==> index.Contents() == IndexRecords(cd, offsets, 0, map[]).value
  {
    ghost var all := IndexRecords(cd, offsets, 0, map[]);
    ghost var reliable := index.Zip32? ==> Addressable(offsets);
    var o: nat := 0;
    var i := 0;
    assert offsets[0..] == offsets;
    while i < n
      invariant 0 <= i <= n && index.Valid(cd)
      invariant index.Zip32? ==> index.t.adds == i
      invariant Walkable(cd, offsets[i..], o)
      invariant reliable ==> index.Exact() && all == IndexRecords(cd, offsets[i..], o, index.Contents())
    {
      IndexStep(cd, offsets, i, o, index.Contents());
      ok, o := AddRecord(cd, o, index, maxNameLength);
      if !ok {
        return;
      }
      i := i + 1;
    }
    ok := true;
  }

  lemma IndexStep(cd: seq<byte>, offsets: seq<nat>, i: nat, o: nat, index: map<Name, nat>)
    requires i < |offsets| && Walkable(cd, offsets[i..], o)
    ensures offsets[i] == o && o + CDR_SIZE <= |cd|
    ensures var c := DecodeCentralDirectoryRecord(cd, o);
            && o + CDR_SIZE + c.fileNameLength <= RecordEnd(c, o) <= |cd|
            && Walkable(cd, offsets[i + 1..], RecordEnd(c, o))
            && IndexRecords(cd, offsets[i..], o, index) ==
                 if NameBytes(cd, o) in index then Err(DuplicateEntry)
                 else IndexRecords(cd, offsets[i + 1..], RecordEnd(c, o), index[NameBytes(cd, o) := o + CDR_SIZE])
  {
    assert offsets[i..][0] == offsets[i] && offsets[i..][1..] == offsets[i + 1..];
  }

  /** Both passes: the name index of a directory of `n` records at `directoryOffset`. */
  function ReadDirectory(cd: seq<byte>, directoryOffset: int, n: nat): (r: Result<map<Name, nat>>) {
    var offsets :- CheckRecords(cd, directoryOffset, n, 0);
    FirstPassWalkable(cd, directoryOffset, n, 0);
    IndexRecords(cd, offsets, 0, map[])
  }

  /** The index is trustworthy: it is the ordered map, or every name offset fits the hash table. */
  predicate Faithful(cd: seq<byte>, directoryOffset: int, n: nat) {
    n <= U16_MAX && CheckRecords(cd, directoryOffset, n, 0).Ok? ==> Addressable(CheckRecords(cd, directoryOffset, n, 0).value)
  }

  /** A directory of at most 4 GiB is always trustworthy. */
  lemma SmallIsFaithful(cd: seq<byte>, directoryOffset: int, n: nat)
    requires |cd| <= U32_MAX
    ensures Faithful(cd, directoryOffset, n)
  {
    var r := CheckRecords(cd, directoryOffset, n, 0);
    if r.Ok? {
      FirstPassWalkable(cd, directoryOffset, n, 0);
      forall i | 0 <= i < |r.value| ensures r.value[i] + CDR_SIZE <= U32_MAX {
        WalkedInside(cd, r.value, 0, Names(cd, r.value, 0), i);
      }
    }
  }

  method ParseDirectory(cd: seq<byte>, directoryOffset: int, n: nat, hash: Name -> nat) returns (r: Result<CdEntryMap.Index>)
    ensures r.Ok? ==> r.value.Valid(cd) && fresh(r.value.Repr()) && (r.value.Zip32? <==> n <= U16_MAX)
    ensures Faithful(cd, directoryOffset, n) ==>
      match ReadDirectory(cd, directoryOffset, n)
      case Ok(index) => r.Ok? && r.value.Exact() && r.value.Contents() == index
      case Err(e) => r == Err(e)
  {
    var error, maxNameLength := FirstPass(cd, directoryOffset, n);
    if error.Some? {
      return Err(error.value);
    }
    var index := CdEntryMap.Create(hash, n, |cd|, maxNameLength);
    ghost var offsets := CheckRecords(cd, directoryOffset, n, 0).value;
    FirstPassWalkable(cd, directoryOffset, n, 0);
    IndexExactly(cd, offsets, 0, map[]);
    var added := SecondPass(cd, n, index, offsets, maxNameLength);
    if !added {
      return Err(DuplicateEntry);
    }
    return Ok(index);
  }

  /** What looking a name up in a directory should answer. */
  function Answer(index: Result<map<Name, nat>>, name: Name): (r: Result<Option<nat>>) {
    if index.Err? then Err(index.error) else if name in index.value then Ok(Some(index.value[name])) else Ok(None)
  }

  /** Parsing and one lookup. It answers right for every name if the directory is trustworthy, and wrong for
      each name whose offset exceeds 32 bits if the hash table holds it. */
  method ParseThenLookup(cd: seq<byte>, directoryOffset: int, n: nat, hash: Name -> nat, name: Name) returns (r: Result<Option<nat>>)
    ensures Faithful(cd, directoryOffset, n) ==> r == Answer(ReadDirectory(cd, directoryOffset, n), name)
    ensures n <= U16_MAX && Beyond(ReadDirectory(cd, directoryOffset, n), name) ==> r != Answer(ReadDirectory(cd, directoryOffset, n), name)
  {
    var index := ParseDirectory(cd, directoryOffset, n, hash);
    if index.Err? {
      return Err(index.error);
    }
    var found, offset := index.value.GetCdEntryOffset(name, cd);
    return Ok(if found then Some(offset) else None);
  }

  predicate Beyond(index: Result<map<Name, nat>>, name: Name) {
    index.Ok? && name in index.value && index.value[name] > U32_MAX
  }

  /** A directory that is not trustworthy has such a name, unless it is refused anyway. */
  lemma UnfaithfulName(cd: seq<byte>, directoryOffset: int, n: nat) returns (name: Name)
    requires !Faithful(cd, directoryOffset, n) && ReadDirectory(cd, directoryOffset, n).Ok?
    ensures n <= U16_MAX && Beyond(ReadDirectory(cd, directoryOffset, n), name)
  {
    var offsets := CheckRecords(cd, directoryOffset, n, 0).value;
    FirstPassWalkable(cd, directoryOffset, n, 0);
    IndexExactly(cd, offsets, 0, map[]);
    var i :| 0 <= i < |offsets| && offsets[i] + CDR_SIZE > U32_MAX;
    name := Names(cd, offsets, 0)[i];
  }
}
