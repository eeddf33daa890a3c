/** The name index of an open archive: a packed open-addressing hash table that refines a plain
    map from entry names to name offsets in the central directory. */
module CdEntryMap {
  import opened Bytes
  import Bits

  type Name = seq<byte>

  /** What a table slot stores of a name: where it starts in the central directory and how long it is.
      Offset zero marks a free slot. */
  datatype Slot = Slot(offset: nat, length: nat)

  /** The bit-field widths of the two slot layouts, as the first value that no longer fits. */
  datatype Packing = Packing(offsetLimit: nat, lengthLimit: nat)

  const OFFSET20 := Packing(0x10_0000, 0x1000)
  const OFFSET32 := Packing(0x1_0000_0000, 0x1_0000)

  predicate InRange(cd: seq<byte>, offset: nat, length: nat) {
    offset + length <= |cd|
  }

  predicate AllInRange(t: seq<Slot>, cd: seq<byte>) {
    forall i :: 0 <= i < |t| ==> InRange(cd, t[i].offset, t[i].length)
  }

  function View(cd: seq<byte>, s: Slot): (n: Name)
    requires InRange(cd, s.offset, s.length)
  {
    cd[s.offset..s.offset + s.length]
  }

  predicate Fits(p: Packing, offset: nat, length: nat) {
    offset < p.offsetLimit && length < p.lengthLimit
  }

  /** Storing into a bit field keeps the low bits only. */
  function Store(p: Packing, offset: nat, length: nat): (s: Slot)
    requires p == OFFSET20 || p == OFFSET32
    ensures s.offset <= offset && s.length <= length && s.offset < p.offsetLimit
    ensures s == Slot(offset, length) <==> Fits(p, offset, length)
  {
    Slot(offset % p.offsetLimit, length % p.lengthLimit)
  }

  /** A name 4 GiB into the directory is stored as a free slot: its addition is lost. */
  lemma NameBeyondLimitLost()
    ensures Store(OFFSET32, 0x1_0000_0000, 5) == Slot(0, 5)
  {}

  /** The slot reached from home position `h` after `d` probes. */
  function At(size: nat, h: nat, d: nat): (i: nat)
    requires h < size && d < size
    ensures i < size
  {
    if h + d < size then h + d else h + d - size
  }

  /** The number of probes from `h` to slot `i`. */
  function Distance(size: nat, h: nat, i: nat): (d: nat)
    requires h < size && i < size
    ensures d < size && At(size, h, d) == i
  {
    if h <= i then i - h else i + size - h
  }

  function Home(hash: Name -> nat, size: nat, n: Name): (h: nat)
    requires size > 0
    ensures h < size
  {
    hash(n) % size
  }

  /** Every slot on the probe path of `n` before `d` is taken by another name. */
  predicate Passed(t: seq<Slot>, cd: seq<byte>, h: nat, d: nat, n: Name)
    requires h < |t| && d <= |t|
  {
    forall e :: 0 <= e < d ==>
      var s := t[At(|t|, h, e)];
      s.offset != 0 && (InRange(cd, s.offset, s.length) ==> View(cd, s) != n)
  }

  /** A ghost ledger for the table: what was added under each name, and how far from home it sits. */
  datatype Record = Record(offset: nat, dist: nat)
  type Ledger = map<Name, Record>

  ghost function Offsets(ledger: Ledger): (m: map<Name, nat>) {
    map n | n in ledger :: ledger[n].offset
  }

  lemma OffsetsUpdate(ledger: Ledger, n: Name, r: Record)
    ensures Offsets(ledger[n := r]) == Offsets(ledger)[n := r.offset]
  {}

  ghost predicate Seated(t: seq<Slot>, cd: seq<byte>, hash: Name -> nat, n: Name, r: Record) {
    && 0 < |t| && r.dist < |t| && r.offset != 0
    && var s := t[At(|t|, Home(hash, |t|, n), r.dist)];
    && s.offset == r.offset && InRange(cd, s.offset, s.length) && View(cd, s) == n
    && forall e :: 0 <= e < r.dist ==> t[At(|t|, Home(hash, |t|, n), e)].offset != 0
  }

  ghost predicate Accounted(t: seq<Slot>, cd: seq<byte>, hash: Name -> nat, ledger: Ledger, i: nat)
    requires i < |t|
  {
    t[i].offset != 0 ==>
      && InRange(cd, t[i].offset, t[i].length)
      && View(cd, t[i]) in ledger
      && ledger[View(cd, t[i])].dist < |t|
      && At(|t|, Home(hash, |t|, View(cd, t[i])), ledger[View(cd, t[i])].dist) == i
  }

  /** The table represents the ledger: every recorded name sits where probing finds it, and every
      taken slot is the seat of the name it spells. */
  ghost predicate Represents(t: seq<Slot>, cd: seq<byte>, hash: Name -> nat, ledger: Ledger) {
    && (forall n :: n in ledger ==> Seated(t, cd, hash, n, ledger[n]))
    && (forall i :: 0 <= i < |t| ==> Accounted(t, cd, hash, ledger, i))
  }

  /** A probe that ends on a free slot proves the name absent… */
  lemma FreeSlotMeansAbsent(t: seq<Slot>, cd: seq<byte>, hash: Name -> nat, ledger: Ledger, n: Name, d: nat)
    requires Represents(t, cd, hash, ledger) && d < |t|
    requires Passed(t, cd, Home(hash, |t|, n), d, n)
    requires t[At(|t|, Home(hash, |t|, n), d)].offset == 0
    ensures n !in ledger
  {
    assert n in ledger ==> Seated(t, cd, hash, n, ledger[n]);
  }

  /** …and filling that slot with the name extends the ledger by it. */
  lemma FillFreeSlot(t: seq<Slot>, cd: seq<byte>, hash: Name -> nat, ledger: Ledger, n: Name, d: nat, s: Slot)
    requires Represents(t, cd, hash, ledger) && d < |t| && n !in ledger
    requires Passed(t, cd, Home(hash, |t|, n), d, n)
    requires t[At(|t|, Home(hash, |t|, n), d)].offset == 0
    requires s.offset != 0 && InRange(cd, s.offset, s.length) && View(cd, s) == n
    ensures Represents(t[At(|t|, Home(hash, |t|, n), d) := s], cd, hash, ledger[n := Record(s.offset, d)])
  {
    var t' := t[At(|t|, Home(hash, |t|, n), d) := s];
    var ledger' := ledger[n := Record(s.offset, d)];
    forall m | m in ledger' ensures Seated(t', cd, hash, m, ledger'[m]) {
      if m != n { assert Seated(t, cd, hash, m, ledger[m]); }
    }
    forall i | 0 <= i < |t'| ensures Accounted(t', cd, hash, ledger', i) {
      assert Accounted(t, cd, hash, ledger, i);
    }
  }

  // ----- a free slot always exists -----

  ghost function Taken(t: seq<Slot>): (r: set<nat>) {
    set i: nat | i < |t| && t[i].offset != 0
  }

  ghost function Below(n: nat): (r: set<nat>)
    ensures |r| == n && forall i: nat :: i in r <==> i < n
  {
    if n == 0 then {} else Below(n - 1) + {n - 1}
  }

  lemma FreeSlotExists(t: seq<Slot>)
    requires |Taken(t)| < |t|
    ensures exists i: nat :: i < |t| && t[i].offset == 0
  {
    assert (forall i: nat :: i < |t| ==> t[i].offset != 0) ==> Taken(t) == Below(|t|);
  }

  lemma TakenAfterStore(t: seq<Slot>, i: nat, s: Slot)
    requires i < |t|
    ensures |Taken(t[i := s])| <= |Taken(t)| + 1
  {
    assert Taken(t[i := s]) <= Taken(t) + {i};
    SubsetSize(Taken(t[i := s]), Taken(t) + {i});
  }

  lemma {:induction false} SubsetSize(a: set<nat>, b: set<nat>)
    requires a <= b
    ensures |a| <= |b|
  {
    if a != {} {
      var x :| x in a;
      SubsetSize(a - {x}, b - {x});
    }
  }

  // ----- probing -----

  lemma SmallRemainders(x: nat, m: nat)
    requires m >= 1
    ensures x < m ==> x % m == x
    ensures x == m ==> x % m == 0
  {
    if x < m { Bits.ModUnique(x, m, 0, x); }
    if x == m { Bits.ModUnique(x, m, 1, 0); }
  }

  /** `x & (size - 1)` for a power-of-two size. */
  method Wrap(x: nat, size: nat) returns (i: nat)
    requires Bits.IsPowerOf2(size)
    ensures i == x % size
    ensures x < size ==> i == x
    ensures x == size ==> i == 0
  {
    ghost var k: nat :| size == Bits.Pow2(k);
    Bits.AndMask(x, k);
    SmallRemainders(x, size);
    i := Bits.And(x, size - 1);
  }

  /** The probe loop that lookup and insertion share: it stops on the first free slot or the first slot
      spelling `name`. A free slot anywhere in the table bounds the walk. */
  method Probe(table: array<Slot>, hash: Name -> nat, name: Name, cd: seq<byte>, ghost free: nat)
    returns (found: bool, ent: nat, ghost d: nat)
    requires Bits.IsPowerOf2(table.Length)
    requires free < table.Length && table[free].offset == 0
    requires AllInRange(table[..], cd)
    ensures d < table.Length && ent == At(table.Length, Home(hash, table.Length, name), d)
    ensures Passed(table[..], cd, Home(hash, table.Length, name), d, name)
    ensures found ==> table[ent].offset != 0 && View(cd, table[ent]) == name
    ensures !found ==> table[ent].offset == 0
  {
    ghost var size, h := table.Length, Home(hash, table.Length, name);
    ent := Wrap(hash(name), table.Length);
    d := 0;
    while table[ent].offset != 0
      invariant d <= Distance(size, h, free)
      invariant ent == At(size, h, d)
      invariant Passed(table[..], cd, h, d, name)
      decreases size - d
    {
      if View(cd, table[ent]) == name {
        return true, ent, d;
      }
      assert ent != free;
      ent := Wrap(ent + 1, table.Length);
      d := d + 1;
    }
    return false, ent, d;
  }

  // ----- the table -----

  class CdEntryMapZip32 {
    const hash: Name -> nat
    const packing: Packing
    const capacity: nat
    const table: array<Slot>
    var position: nat
    /** How many adds succeeded, what they added, and whether every one of them fitted its bit fields. */
    ghost var adds: nat
    ghost var ledger: Ledger
    ghost var exact: bool

    ghost predicate Valid(cd: seq<byte>)
      reads this, table
    {
      && (packing == OFFSET20 || packing == OFFSET32)
      && Bits.IsPowerOf2(table.Length) && capacity < table.Length
      && |Taken(table[..])| <= adds <= capacity
      && position <= table.Length
      && AllInRange(table[..], cd)
      && (forall i :: 0 <= i < table.Length ==> table[i].offset < packing.offsetLimit)
      && (exact ==> Represents(table[..], cd, hash, ledger))
    }

    ghost function Contents(): (m: map<Name, nat>)
      reads this`ledger
    {
      Offsets(ledger)
    }

    ghost function Seat(n: Name): (i: nat)
      requires n in ledger && table.Length > 0 && ledger[n].dist < table.Length
      reads this`ledger
    {
      At(table.Length, Home(hash, table.Length, n), ledger[n].dist)
    }

    /** The names seated at slot `p` or later: what an iteration standing at `p` has yet to return. */
    ghost function PendingFrom(p: nat): (s: set<Name>)
      reads this`ledger
    {
      set n | n in ledger && 0 < table.Length && ledger[n].dist < table.Length && Seat(n) >= p
    }

    ghost function Pending(): (s: set<Name>)
      reads this`ledger, this`position
    {
      PendingFrom(position)
    }

    /** Stepping over a slot takes exactly the name seated there, if any, off the pending set. */
    lemma PendingStep(cd: seq<byte>, i: nat)
      requires Valid(cd) && exact && i < table.Length
      ensures table[i].offset == 0 ==> PendingFrom(i + 1) == PendingFrom(i)
      ensures table[i].offset != 0 ==>
        var n := View(cd, table[i]);
        && n in PendingFrom(i) && PendingFrom(i + 1) == PendingFrom(i) - {n}
        && ledger[n].offset == table[i].offset
    {
      assert Accounted(table[..], cd, hash, ledger, i);
      forall n | n in ledger
        ensures ledger[n].dist < table.Length
        ensures Seat(n) == i ==> table[i].offset != 0 && View(cd, table[i]) == n && ledger[n].offset == table[i].offset
      {
        assert Seated(table[..], cd, hash, n, ledger[n]);
      }
    }

    lemma FreeSlot(cd: seq<byte>) returns (i: nat)
      requires Valid(cd)
      ensures i < table.Length && table[i].offset == 0
    {
      FreeSlotExists(table[..]);
      i :| i < table.Length && table[..][i].offset == 0;
    }

    constructor (hash: Name -> nat, packing: Packing, numEntries: u16)
      requires packing == OFFSET20 || packing == OFFSET32
      ensures forall cd :: Valid(cd)
      ensures fresh(table) && this.hash == hash && this.packing == packing && capacity == numEntries
      ensures adds == 0 && ledger == map[] && exact && position == 0
    {
      var size := Bits.RoundUpPower2(1 + numEntries * 4 / 3);
      this.hash, this.packing, this.capacity := hash, packing, numEntries;
      table := new Slot[size](_ => Slot(0, 0));
      position := 0;
      adds, ledger, exact := 0, map[], true;
      new;
      assert Taken(table[..]) == {};
    }

    /** Lookup answers exactly what was added, as long as everything fitted, and never an offset beyond 32 bits. */
    method GetCdEntryOffset(name: Name, cd: seq<byte>) returns (found: bool, offset: nat)
      requires Valid(cd)
      ensures offset <= U32_MAX
      ensures exact ==> found == (name in Contents())
      ensures exact && found ==> offset == Contents()[name]
      ensures !found ==> offset == 0
    {
      ghost var d;
      var ent;
      ghost var free := FreeSlot(cd);
      found, ent, d := Probe(table, hash, name, cd, free);
      if !found {
        if exact { FreeSlotMeansAbsent(table[..], cd, hash, ledger, name, d); }
        return false, 0;
      }
      assert exact ==> Accounted(table[..], cd, hash, ledger, ent);
      assert exact ==> Seated(table[..], cd, hash, name, ledger[name]);
      return true, table[ent].offset;
    }

    /** Fill the free slot that probing for the name ended on. */
    method Fill(ent: nat, offset: nat, length: nat, cd: seq<byte>, ghost d: nat)
      requires Valid(cd) && adds < capacity && 0 < offset && InRange(cd, offset, length)
      requires var name := cd[offset..offset + length];
               && d < table.Length && ent == At(table.Length, Home(hash, table.Length, name), d)
               && Passed(table[..], cd, Home(hash, table.Length, name), d, name)
               && table[ent].offset == 0 && (exact ==> name !in ledger)
      modifies this`adds, this`ledger, this`exact, table
      ensures Valid(cd) && adds == old(adds) + 1
      ensures exact == (old(exact) && Fits(packing, offset, length))
      ensures exact ==> Contents() == old(Contents())[cd[offset..offset + length] := offset]
    {
      ghost var before, name := table[..], cd[offset..offset + length];
      var s := Store(packing, offset, length);
      TakenAfterStore(before, ent, s);
      table[ent] := s;
      assert table[..] == before[ent := s];
      adds := adds + 1;
      exact := exact && Fits(packing, offset, length);
      if exact {
        FillFreeSlot(before, cd, hash, ledger, name, d, s);
        OffsetsUpdate(ledger, name, Record(offset, d));
        ledger := ledger[name := Record(offset, d)];
      }
    }

    /** Insertion rejects exactly the duplicates, and otherwise adds exactly this name. */
    method AddToMap(offset: nat, length: nat, cd: seq<byte>) returns (ok: bool)
      requires Valid(cd) && adds < capacity && 0 < offset && InRange(cd, offset, length)
      modifies this`adds, this`ledger, this`exact, table
      ensures Valid(cd) && adds == old(adds) + (if ok then 1 else 0)
      ensures exact == (old(exact) && (ok ==> Fits(packing, offset, length)))
      ensures old(exact) ==> ok == (cd[offset..offset + length] !in old(Contents()))
      ensures ok && exact ==> Contents() == old(Contents())[cd[offset..offset + length] := offset]
      ensures !ok ==> Contents() == old(Contents())
    {
      var name := cd[offset..offset + length];
      ghost var free := FreeSlot(cd);
      var found, ent, d := Probe(table, hash, name, cd, free);
      if found {
        assert exact ==> Accounted(table[..], cd, hash, ledger, ent);
        return false;
      }
      if exact { FreeSlotMeansAbsent(table[..], cd, hash, ledger, name, d); }
      Fill(ent, offset, length, cd, d);
      return true;
    }

    method ResetIteration(ghost cd: seq<byte>)
      requires Valid(cd)
      modifies this`position
      ensures Valid(cd) && position == 0
      ensures exact ==> Pending() == Contents().Keys
    {
      position := 0;
      assert exact ==> forall n :: n in ledger ==> Seated(table[..], cd, hash, n, ledger[n]);
    }

    lemma {:induction false} PendingOverFree(cd: seq<byte>, a: nat, b: nat)
      requires Valid(cd) && exact && a <= b <= table.Length
      requires forall j :: a <= j < b ==> table[j].offset == 0
      ensures PendingFrom(a) == PendingFrom(b)
      decreases b - a
    {
      if a < b {
        PendingStep(cd, a);
        PendingOverFree(cd, a + 1, b);
      }
    }

    /** Each call returns one pending pair and takes it off; the empty pair comes only when none is left. */
    method Next(cd: seq<byte>) returns (name: Name, offset: nat)
      requires Valid(cd)
      modifies this`position
      ensures Valid(cd)
      ensures exact && old(Pending()) == {} ==> name == [] && offset == 0 && Pending() == {}
      ensures exact && old(Pending()) != {} ==>
        name in old(Pending()) && offset == Contents()[name] != 0 && Pending() == old(Pending()) - {name}
    {
      while position < table.Length
        invariant old(position) <= position <= table.Length
        invariant forall j :: old(position) <= j < position ==> table[j].offset == 0
      {
        var entry := table[position];
        position := position + 1;
        if entry.offset != 0 {
          if exact {
            PendingOverFree(cd, old(position), position - 1);
            PendingStep(cd, position - 1);
          }
          return View(cd, entry), entry.offset;
        }
      }
      if exact { PendingOverFree(cd, old(position), position); }
      return [], 0;
    }
  }

  // ----- the ordered map used beyond 65535 entries -----

  /** The order of names: byte by byte, a prefix first. */
  predicate NotAfter(a: Name, b: Name)
    decreases |a|
  {
    a == [] || (b != [] && (a[0] < b[0] || (a[0] == b[0] && NotAfter(a[1..], b[1..]))))
  }

  lemma {:induction false} OrderIsTotal(a: Name, b: Name)
    ensures NotAfter(a, a) && (NotAfter(a, b) || NotAfter(b, a))
    decreases |a|
  {
    if a != [] {
      OrderIsTotal(a[1..], if b == [] then [] else b[1..]);
    }
  }

  lemma {:induction false} OrderIsTransitive(a: Name, b: Name, c: Name)
    requires NotAfter(a, b) && NotAfter(b, c)
    ensures NotAfter(a, c)
    decreases |a|
  {
    if a != [] && a[0] == b[0] == c[0] {
      OrderIsTransitive(a[1..], b[1..], c[1..]);
    }
  }

  /** Every nonempty set of names has a first one. */
  lemma {:induction false} LeastOf(s: set<Name>) returns (first: Name)
    requires s != {}
    ensures first in s && forall n :: n in s ==> NotAfter(first, n)
    decreases |s|
  {
    first :| first in s;
    var rest := s - {first};
    if rest != {} {
      var other := LeastOf(rest);
      OrderIsTotal(first, other);
      var least := if NotAfter(first, other) then first else other;
      forall n | n in s ensures NotAfter(least, n) {
        OrderIsTotal(n, n);
        if n != first && least == first { OrderIsTransitive(first, other, n); }
      }
      first := least;
    } else {
      OrderIsTotal(first, first);
    }
  }

  class CdEntryMapZip64 {
    var table: map<Name, nat>
    /** The keys at or after the iterator. */
    var pending: set<Name>

    constructor ()
      ensures table == map[] && pending == {}
    {
      table, pending := map[], {};
    }

    method AddToMap(offset: nat, length: nat, cd: seq<byte>) returns (ok: bool)
      requires InRange(cd, offset, length)
      modifies this`table
      ensures ok == (cd[offset..offset + length] !in old(table))
      ensures table == if ok then old(table)[cd[offset..offset + length] := offset] else old(table)
    {
      var name := cd[offset..offset + length];
      ok := name !in table;
      if ok {
        table := table[name := offset];
      }
    }

    method GetCdEntryOffset(name: Name) returns (found: bool, offset: nat)
      ensures found == (name in table)
      ensures offset == if found then table[name] else 0
    {
      if name !in table {
        return false, 0;
      }
      return true, table[name];
    }

    method ResetIteration()
      modifies this`pending
      ensures pending == table.Keys
    {
      pending := table.Keys;
    }

    method Next() returns (name: Name, offset: nat)
      requires pending <= table.Keys
      modifies this`pending
      ensures old(pending) == {} ==> name == [] && offset == 0 && pending == {}
      ensures old(pending) != {} ==>
        && name in old(pending) && offset == table[name] && pending == old(pending) - {name}
        && forall n :: n in old(pending) ==> NotAfter(name, n)
    {
      if pending == {} {
        return [], 0;
      }
      var first := LeastOf(pending);
      name :| name in pending && forall n :: n in pending ==> NotAfter(name, n);
      pending := pending - {name};
      offset := table[name];
    }
  }

  // ----- the interface over both -----

  /** The slot layout for a directory of the given length and longest name. */
  function ChoosePacking(cdLength: nat, maxNameLength: nat): (p: Packing) {
    if cdLength >= OFFSET20.offsetLimit || maxNameLength >= OFFSET20.lengthLimit then OFFSET32 else OFFSET20
  }

  /** The chosen layout loses nothing of a name in the directory, up to 4 GiB; beyond that it does. */
  lemma ChosenPackingFits(cdLength: nat, maxNameLength: nat, offset: nat, length: nat)
    requires offset + length <= cdLength && length <= maxNameLength <= U16_MAX
    ensures Fits(ChoosePacking(cdLength, maxNameLength), offset, length) <==> offset <= U32_MAX
  {}

  datatype Index = Zip32(t: CdEntryMapZip32) | Zip64(m: CdEntryMapZip64) {

    ghost function Repr(): (r: set<object>) {
      match this
      case Zip32(t) => {t, t.table}
      case Zip64(m) => {m}
    }

    ghost predicate Valid(cd: seq<byte>)
      reads Repr()
    {
      match this
      case Zip32(t) => t.Valid(cd)
      case Zip64(m) => m.pending <= m.table.Keys && forall n :: n in m.table ==> m.table[n] != 0
    }

    /** How many more names may be added. */
    ghost predicate HasRoom()
      reads Repr()
    {
      Zip32? ==> t.adds < t.capacity
    }

    ghost predicate Exact()
      reads Repr()
    {
      Zip32? ==> t.exact
    }

    ghost predicate Accepts(offset: nat, length: nat)
      reads Repr()
    {
      Zip32? ==> Fits(t.packing, offset, length)
    }

    ghost function Contents(): (m: map<Name, nat>)
      reads Repr()
    {
      match this
      case Zip32(t) => t.Contents()
      case Zip64(m) => m.table
    }

    ghost function Pending(): (s: set<Name>)
      reads Repr()
    {
      match this
      case Zip32(t) => t.Pending()
      case Zip64(m) => m.pending
    }

    method AddToMap(offset: nat, length: nat, cd: seq<byte>) returns (ok: bool)
      requires Valid(cd) && HasRoom() && 0 < offset && InRange(cd, offset, length)
      modifies Repr()
      ensures Valid(cd)
      ensures Exact() == (old(Exact()) && (ok ==> Accepts(offset, length)))
      ensures old(Exact()) ==> ok == (cd[offset..offset + length] !in old(Contents()))
      ensures ok && Exact() ==> Contents() == old(Contents())[cd[offset..offset + length] := offset]
      ensures !ok ==> Contents() == old(Contents())
      ensures Zip32? ==> t.adds == old(t.adds) + (if ok then 1 else 0)
    {
      match this
      case Zip32(t) => ok := t.AddToMap(offset, length, cd);
      case Zip64(m) => ok := m.AddToMap(offset, length, cd);
    }

    method GetCdEntryOffset(name: Name, cd: seq<byte>) returns (found: bool, offset: nat)
      requires Valid(cd)
      ensures Zip32? ==> offset <= U32_MAX
      ensures Exact() ==> found == (name in Contents())
      ensures Exact() && found ==> offset == Contents()[name]
    {
      match this
      case Zip32(t) => found, offset := t.GetCdEntryOffset(name, cd);
      case Zip64(m) => found, offset := m.GetCdEntryOffset(name);
    }

    method ResetIteration(ghost cd: seq<byte>)
      requires Valid(cd)
      modifies Repr()
      ensures Valid(cd) && Exact() == old(Exact()) && Contents() == old(Contents())
      ensures Exact() ==> Pending() == Contents().Keys
    {
      match this
      case Zip32(t) => t.ResetIteration(cd);
      case Zip64(m) => m.ResetIteration();
    }

    method Next(cd: seq<byte>) returns (name: Name, offset: nat)
      requires Valid(cd)
      modifies Repr()
      ensures Valid(cd) && Exact() == old(Exact()) && Contents() == old(Contents())
      ensures Exact() && old(Pending()) == {} ==> name == [] && offset == 0 && Pending() == {}
      ensures Exact() && old(Pending()) != {} ==>
        name in old(Pending()) && offset == Contents()[name] != 0 && Pending() == old(Pending()) - {name}
    {
      match this
      case Zip32(t) => name, offset := t.Next(cd);
      case Zip64(m) => name, offset := m.Next();
    }
  }

  method Create(hash: Name -> nat, numEntries: nat, cdLength: nat, maxNameLength: nat) returns (index: Index)
    ensures forall cd :: index.Valid(cd)
    ensures fresh(index.Repr()) && index.Exact() && index.Contents() == map[]
    ensures index.Zip64? <==> numEntries > U16_MAX
    ensures index.Zip32? ==> index.t.adds == 0 && index.t.capacity == numEntries && index.t.packing == ChoosePacking(cdLength, maxNameLength)
  {
    if numEntries > U16_MAX {
      var m := new CdEntryMapZip64();
      index := Zip64(m);
    } else {
      var t := new CdEntryMapZip32(hash, ChoosePacking(cdLength, maxNameLength), numEntries);
      index := Zip32(t);
    }
  }

  /** `pairs` lists, without repetition, the part of `all` whose names are not `left` over. */
  ghost predicate Listed(pairs: seq<(Name, nat)>, all: map<Name, nat>, left: set<Name>) {
    && left <= all.Keys && |pairs| + |left| == |all|
    && (forall i, j :: 0 <= i < j < |pairs| ==> pairs[i].0 != pairs[j].0)
    && (forall i :: 0 <= i < |pairs| ==> pairs[i] in all.Items && pairs[i].0 !in left)
  }

  lemma ListOne(pairs: seq<(Name, nat)>, all: map<Name, nat>, left: set<Name>, name: Name)
    requires Listed(pairs, all, left) && name in left
    ensures Listed(pairs + [(name, all[name])], all, left - {name})
  {
    assert (name, all[name]) in all.Items;
  }

  /** Reset and then `Next` until the empty pair: every added pair comes out exactly once, whichever
      implementation holds the index. */
  method Enumerate(index: Index, cd: seq<byte>) returns (pairs: seq<(Name, nat)>)
    requires index.Valid(cd) && index.Exact()
    modifies index.Repr()
    ensures index.Valid(cd) && index.Exact() && index.Contents() == old(index.Contents())
    ensures Listed(pairs, index.Contents(), {})
  {
    index.ResetIteration(cd);
    ghost var all, left := index.Contents(), index.Pending();
    pairs := [];
    var name, offset := index.Next(cd);
    while offset != 0
      invariant index.Valid(cd) && index.Exact() && index.Contents() == all
      invariant Listed(pairs, all, left)
      invariant left == {} ==> offset == 0
      invariant left != {} ==> name in left && offset == all[name] != 0 && index.Pending() == left - {name}
      decreases |left|
    {
      ListOne(pairs, all, left, name);
      pairs := pairs + [(name, offset)];
      left := left - {name};
      name, offset := index.Next(cd);
    }
  }
}
