/** Translating a guest variable argument list into a host one. The guest list follows the appendix on
    variable argument lists of the Arm AAPCS64, the host list section 3.5.7 of the System V AMD64 psABI.
    Both are run on a script of integer and double reads, and the main result says exactly for which
    scripts the host reads what the guest would have read. */
module VaList {
  import opened Bytes
  import Calls = CallMarshalling

  /** Guest memory. */
  type Memory = int -> byte

  datatype Read = Integer | Double

  // ----- the guest's list -----

  datatype GuestList = GuestList(stack: nat, grTop: nat, vrTop: nat, grOffs: int, vrOffs: int)

  /** A list as `va_start` and `va_arg` leave it: the offsets count whole save slots down to zero, and the
      stacked arguments do not lie in the save area. */
  predicate WellFormed(g: GuestList) {
    && -64 <= g.grOffs <= 0 && g.grOffs % 8 == 0 && -128 <= g.vrOffs <= 0 && g.vrOffs % 16 == 0
    && !(g.grTop + g.grOffs <= g.stack < g.grTop)
  }

  /** One `va_arg`: the address it reads, and the list after it. */
  function GuestRead(g: GuestList, r: Read): (p: (int, GuestList)) {
    match r
    case Integer =>
      if g.grOffs >= 0 then (g.stack, g.(stack := g.stack + 8))
      else (g.grTop + g.grOffs, g.(grOffs := g.grOffs + 8))
    case Double =>
      if g.vrOffs >= 0 then (g.stack, g.(stack := g.stack + 8))
      else (g.vrTop + g.vrOffs, g.(vrOffs := g.vrOffs + 16))
  }

  /** The list after the first `k` reads of a script. */
  function GuestAfter(g: GuestList, rs: seq<Read>, k: nat): (r: GuestList)
    requires k <= |rs|
  {
    if k == 0 then g else GuestRead(GuestAfter(g, rs, k - 1), rs[k - 1]).1
  }

  /** The address that read `k` of a script reads. */
  function GuestAddress(g: GuestList, rs: seq<Read>, k: nat): (a: int)
    requires k < |rs|
  {
    GuestRead(GuestAfter(g, rs, k), rs[k]).0
  }

  // ----- the host's list -----

  /** A host pointer: into guest memory, or into the translator's local buffer. */
  datatype Ptr = At(address: int) | Local(offset: int)

  function Advance(p: Ptr): (q: Ptr) {
    match p
    case At(a) => At(a + 8)
    case Local(o) => Local(o + 8)
  }

  datatype HostList = HostList(gpOffset: int, fpOffset: int, overflow: Ptr, regSave: int)

  function HostRead(h: HostList, r: Read): (p: (Ptr, HostList)) {
    match r
    case Integer =>
      if h.gpOffset >= 48 then (h.overflow, h.(overflow := Advance(h.overflow)))
      else (At(h.regSave + h.gpOffset), h.(gpOffset := h.gpOffset + 8))
    case Double =>
      if h.fpOffset >= 176 then (h.overflow, h.(overflow := Advance(h.overflow)))
      else (At(h.regSave + h.fpOffset), h.(fpOffset := h.fpOffset + 16))
  }

  function HostAfter(h: HostList, rs: seq<Read>, k: nat): (r: HostList)
    requires k <= |rs|
  {
    if k == 0 then h else HostRead(HostAfter(h, rs, k - 1), rs[k - 1]).1
  }

  function HostPointer(h: HostList, rs: seq<Read>, k: nat): (p: Ptr)
    requires k < |rs|
  {
    HostRead(HostAfter(h, rs, k), rs[k]).0
  }

  // ----- the translation -----

  const BUFFER_SIZE: nat := 128

  /** The host list: general registers are marked used up, so integers come from the overflow area, which
      is the guest's stack, or the local buffer if saved registers are left. */
  function Translated(g: GuestList): (h: HostList) {
    HostList(48, 176 + g.vrOffs, if g.grOffs >= 0 then At(g.stack) else Local(0), g.vrTop - 176)
  }

  /** What the local buffer holds at an offset: the saved registers, then the start of the stack if there
      is one, then whatever was there before. */
  function BufferByte(g: GuestList, m: Memory, junk: Memory, o: int): (b: byte) {
    var size := -g.grOffs;
    if 0 <= o < size then m(g.grTop - size + o)
    else if size <= o < BUFFER_SIZE && g.stack != 0 then m(g.stack + (o - size))
    else junk(o)
  }

  /** The translation as it is done: two copies into the buffer. */
  method Translate(g: GuestList, m: Memory, buffer: array<byte>) returns (h: HostList)
    requires WellFormed(g) && buffer.Length == BUFFER_SIZE
    modifies buffer
    ensures h == Translated(g)
    ensures g.grOffs < 0 ==> forall o :: 0 <= o < BUFFER_SIZE ==> buffer[o] == BufferByte(g, m, i => old(if 0 <= i < buffer.Length then buffer[i] else 0), o)
  {
    var overflow := At(g.stack);
    if g.grOffs < 0 {
      var size := -g.grOffs;
      overflow := Local(0);
      CopyIn(m, g.grTop - size, buffer, 0, size);
      if BUFFER_SIZE - size > 0 && g.stack != 0 {
        CopyIn(m, g.stack, buffer, size, BUFFER_SIZE - size);
      }
    }
    h := HostList(48, 176 + g.vrOffs, overflow, g.vrTop - 176);
  }

  /** Copy `n` bytes of guest memory into the buffer. */
  method CopyIn(m: Memory, from: int, buffer: array<byte>, at: nat, n: nat)
    requires at + n <= buffer.Length
    modifies buffer
    ensures forall o :: 0 <= o < buffer.Length ==>
      buffer[o] == if at <= o < at + n then m(from + (o - at)) else old(buffer[o])
  {
    var i := 0;
    while i < n
      invariant 0 <= i <= n
      invariant forall o :: 0 <= o < buffer.Length ==>
        buffer[o] == if at <= o < at + i then m(from + (o - at)) else old(buffer[o])
    {
      buffer[at + i] := m(from + i);
      i := i + 1;
    }
  }

  // ----- values -----

  /** The eight bytes of guest memory at an address. */
  function Word(m: Memory, a: int): (w: seq<byte>)
    ensures |w| == 8
  {
    seq(8, i requires 0 <= i < 8 => m(a + i))
  }

  /** The eight bytes behind a host pointer after the translation of `g`. */
  function Load(g: GuestList, m: Memory, junk: Memory, p: Ptr): (w: seq<byte>)
    ensures |w| == 8
  {
    match p
    case At(a) => Word(m, a)
    case Local(o) => Word(b => BufferByte(g, m, junk, b), o)
  }

  /** In every memory, the host reads the values that the guest would have read. */
  ghost predicate SameValues(g: GuestList, rs: seq<Read>) {
    forall m: Memory, junk: Memory, k :: 0 <= k < |rs| ==>
      Load(g, m, junk, HostPointer(Translated(g), rs, k)) == Word(m, GuestAddress(g, rs, k))
  }

  /** Where the bytes behind a host pointer come from: a guest address, or nowhere. */
  datatype Source = From(address: int) | Nowhere

  function SourceOf(g: GuestList, p: Ptr): (s: Source) {
    match p
    case At(a) => From(a)
    case Local(o) =>
      if 0 <= o < -g.grOffs then From(g.grTop + g.grOffs + o)
      else if -g.grOffs <= o < BUFFER_SIZE && g.stack != 0 then From(g.stack + (o + g.grOffs))
      else Nowhere
  }

  predicate OnSlots(p: Ptr) {
    p.Local? ==> p.offset % 8 == 0
  }

  lemma LoadsSource(g: GuestList, m: Memory, junk: Memory, p: Ptr)
    requires WellFormed(g) && OnSlots(p)
    ensures SourceOf(g, p).From? ==> Load(g, m, junk, p) == Word(m, SourceOf(g, p).address)
    ensures SourceOf(g, p).Nowhere? ==> Load(g, m, junk, p) == Word(junk, p.offset)
  {}

  /** Two places agree in every memory only if they are the same place. */
  lemma SourcesDecide(g: GuestList, p: Ptr, a: int)
    requires WellFormed(g) && OnSlots(p)
    ensures (forall m: Memory, junk: Memory :: Load(g, m, junk, p) == Word(m, a)) <==> SourceOf(g, p) == From(a)
  {
    if SourceOf(g, p) == From(a) {
      forall m: Memory, junk: Memory ensures Load(g, m, junk, p) == Word(m, a) {
        LoadsSource(g, m, junk, p);
      }
    } else {
      var m: Memory := i => if i == a then 1 else 0;
      var junk: Memory := i => 0;
      LoadsSource(g, m, junk, p);
      assert Word(m, a)[0] == 1 && Load(g, m, junk, p)[0] == 0;
    }
  }

  // ----- where the reads go -----

  /** How many integers, and how many doubles, come before read `k`. */
  function Integers(rs: seq<Read>, k: nat): (n: nat)
    requires k <= |rs|
    ensures n <= k
  {
    if k == 0 then 0 else Integers(rs, k - 1) + if rs[k - 1] == Integer then 1 else 0
  }

  function Doubles(rs: seq<Read>, k: nat): (n: nat)
    requires k <= |rs|
  {
    k - Integers(rs, k)
  }

  /** The saved registers that the guest list has left. */
  function SavedGeneral(g: GuestList): (n: nat)
    requires WellFormed(g)
    ensures g.grOffs == -8 * n && n <= 8
  {
    -g.grOffs / 8
  }

  function SavedVector(g: GuestList): (n: nat)
    requires WellFormed(g)
    ensures g.vrOffs == -16 * n
  {
    -g.vrOffs / 16
  }

  /** How many of the first `k` reads are integers or doubles beyond the saved vector registers. */
  function Overflowed(g: GuestList, rs: seq<Read>, k: nat): (n: nat)
    requires WellFormed(g) && k <= |rs|
  {
    Integers(rs, k) + Calls.Excess(Doubles(rs, k), SavedVector(g))
  }

  predicate Spilled(g: GuestList, rs: seq<Read>, k: nat)
    requires WellFormed(g) && k < |rs|
  {
    rs[k] == Double && Doubles(rs, k) >= SavedVector(g)
  }

  predicate Overflows(g: GuestList, rs: seq<Read>, k: nat)
    requires WellFormed(g) && k < |rs|
  {
    rs[k] == Integer || Spilled(g, rs, k)
  }

  lemma {:induction false} GuestState(g: GuestList, rs: seq<Read>, k: nat)
    requires WellFormed(g) && k <= |rs|
    ensures var i, d, n, v := Integers(rs, k), Doubles(rs, k), SavedGeneral(g), SavedVector(g);
            GuestAfter(g, rs, k) == GuestList(
              g.stack + 8 * (Calls.Excess(i, n) + Calls.Excess(d, v)), g.grTop, g.vrTop, -8 * Calls.Excess(n, i), -16 * Calls.Excess(v, d))
    decreases k
  {
    if k > 0 { GuestState(g, rs, k - 1); }
  }

  function Moved(p: Ptr, words: nat): (q: Ptr) {
    match p
    case At(a) => At(a + 8 * words)
    case Local(o) => Local(o + 8 * words)
  }

  /** The host list after `i` integers and `d` doubles, with `v` saved vector registers at the start. */
  function HostAt(h: HostList, v: nat, i: nat, d: nat): (r: HostList) {
    HostList(48, 176 - 16 * Calls.Excess(v, d), Moved(h.overflow, i + Calls.Excess(d, v)), h.regSave)
  }

  lemma HostStep(h: HostList, v: nat, i: nat, d: nat)
    ensures HostRead(HostAt(h, v, i, d), Integer).1 == HostAt(h, v, i + 1, d)
    ensures HostRead(HostAt(h, v, i, d), Double).1 == HostAt(h, v, i, d + 1)
  {}

  lemma {:induction false} HostState(h: HostList, v: nat, rs: seq<Read>, k: nat)
    requires h.gpOffset == 48 && h.fpOffset == 176 - 16 * v && k <= |rs|
    ensures HostAfter(h, rs, k) == HostAt(h, v, Integers(rs, k), Doubles(rs, k))
    decreases k
  {
    if k > 0 {
      HostState(h, v, rs, k - 1);
      HostStep(h, v, Integers(rs, k - 1), Doubles(rs, k - 1));
    }
  }

  // ----- exactly when -----

  /** If read `k` is a double on the stack, no saved general register is left. */
  predicate SpillsLate(g: GuestList, rs: seq<Read>, k: nat)
    requires WellFormed(g) && k < |rs|
  {
    Spilled(g, rs, k) ==> Integers(rs, k) >= SavedGeneral(g)
  }

  /** The scripts that translate. With saved registers left: every double on the stack is read only after
      all of them; at most sixteen reads go to the buffer; and the stack is there if it is needed. */
  predicate Translatable(g: GuestList, rs: seq<Read>)
    requires WellFormed(g)
  {
    g.grOffs == 0 ||
    (&& (forall k :: 0 <= k < |rs| ==> SpillsLate(g, rs, k))
     && Overflowed(g, rs, |rs|) <= 16
     && (g.stack != 0 || Overflowed(g, rs, |rs|) <= SavedGeneral(g)))
  }

  ghost predicate SamePlace(g: GuestList, rs: seq<Read>, k: nat)
    requires k < |rs|
  {
    SourceOf(g, HostPointer(Translated(g), rs, k)) == From(GuestAddress(g, rs, k))
  }

  /** The closed forms of both reads. */
  lemma ReadPlaces(g: GuestList, rs: seq<Read>, k: nat)
    requires WellFormed(g) && k < |rs|
    ensures var i, d, n, v := Integers(rs, k), Doubles(rs, k), SavedGeneral(g), SavedVector(g);
            && GuestAddress(g, rs, k) == (
                 if rs[k] == Integer && i < n then g.grTop + g.grOffs + 8 * i
                 else if rs[k] == Double && d < v then g.vrTop + g.vrOffs + 16 * d
                 else g.stack + 8 * (Calls.Excess(i, n) + Calls.Excess(d, v)))
            && HostPointer(Translated(g), rs, k) == (
                 if Overflows(g, rs, k) then Moved(Translated(g).overflow, Overflowed(g, rs, k))
                 else At(g.vrTop + g.vrOffs + 16 * d))
  {
    GuestState(g, rs, k);
    HostState(Translated(g), SavedVector(g), rs, k);
  }

  lemma {:induction false} CountsGrow(g: GuestList, rs: seq<Read>, j: nat, k: nat)
    requires WellFormed(g) && j <= k <= |rs|
    ensures Integers(rs, j) <= Integers(rs, k) && Doubles(rs, j) <= Doubles(rs, k) && Overflowed(g, rs, j) <= Overflowed(g, rs, k)
    decreases k
  {
    if j < k { CountsGrow(g, rs, j, k - 1); }
  }

  /** In a translatable script every read goes to the same place on both sides. */
  lemma TranslatableReads(g: GuestList, rs: seq<Read>, k: nat)
    requires WellFormed(g) && Translatable(g, rs) && k < |rs|
    ensures SamePlace(g, rs, k)
  {
    ReadPlaces(g, rs, k);
    CountsGrow(g, rs, k + 1, |rs|);
    if Doubles(rs, k) > SavedVector(g) {
      var j := FirstSpilled(g, rs, k);
      CountsGrow(g, rs, j, k);
      assert g.grOffs == 0 || SpillsLate(g, rs, j);
    }
    assert g.grOffs == 0 || SpillsLate(g, rs, k);
  }

  /** The read that goes to word `c` of the overflow area. */
  lemma {:induction false} OverflowNumber(g: GuestList, rs: seq<Read>, end: nat, c: nat) returns (k: nat)
    requires WellFormed(g) && end <= |rs| && c < Overflowed(g, rs, end)
    ensures k < end && Overflows(g, rs, k) && Overflowed(g, rs, k) == c
    decreases end
  {
    if Overflowed(g, rs, end - 1) <= c {
      k := end - 1;
    } else {
      k := OverflowNumber(g, rs, end - 1, c);
    }
  }

  /** The first double that finds no saved register. */
  lemma {:induction false} FirstSpilled(g: GuestList, rs: seq<Read>, end: nat) returns (k: nat)
    requires WellFormed(g) && end <= |rs| && SavedVector(g) < Doubles(rs, end)
    ensures k < end && Spilled(g, rs, k) && Doubles(rs, k) == SavedVector(g)
    decreases end
  {
    if Doubles(rs, end - 1) <= SavedVector(g) {
      k := end - 1;
    } else {
      k := FirstSpilled(g, rs, end - 1);
    }
  }

  /** A script that is not translatable has a read that goes astray. */
  lemma UntranslatableRead(g: GuestList, rs: seq<Read>) returns (k: nat)
    requires WellFormed(g) && !Translatable(g, rs)
    ensures k < |rs| && !SamePlace(g, rs, k)
  {
    if Overflowed(g, rs, |rs|) > 16 {
      k := OverflowNumber(g, rs, |rs|, 16);
    } else if g.stack == 0 && Overflowed(g, rs, |rs|) > SavedGeneral(g) {
      k := OverflowNumber(g, rs, |rs|, SavedGeneral(g));
    } else {
      var j :| 0 <= j < |rs| && !SpillsLate(g, rs, j);
      k := FirstSpilled(g, rs, j + 1);
      CountsGrow(g, rs, k, j);
    }
    ReadPlaces(g, rs, k);
  }

  /** The translation is faithful, in every memory, exactly for the translatable scripts. */
  lemma FaithfulExactly(g: GuestList, rs: seq<Read>)
    requires WellFormed(g)
    ensures SameValues(g, rs) <==> Translatable(g, rs)
  {
    forall k | 0 <= k < |rs| ensures OnSlots(HostPointer(Translated(g), rs, k)) {
      ReadPlaces(g, rs, k);
    }
    if Translatable(g, rs) {
      forall m: Memory, junk: Memory, k | 0 <= k < |rs|
        ensures Load(g, m, junk, HostPointer(Translated(g), rs, k)) == Word(m, GuestAddress(g, rs, k))
      {
        TranslatableReads(g, rs, k);
        LoadsSource(g, m, junk, HostPointer(Translated(g), rs, k));
      }
    } else {
      var k := UntranslatableRead(g, rs);
      SourcesDecide(g, HostPointer(Translated(g), rs, k), GuestAddress(g, rs, k));
    }
  }

  /** A double that spilled to the stack, read while a saved integer is still unread, goes astray. */
  lemma SpilledDoubleGoesAstray()
    ensures !SameValues(GuestList(0x1000, 0x800, 0x700, -8, 0), [Double])
  {
    var g, rs := GuestList(0x1000, 0x800, 0x700, -8, 0), [Double];
    assert !SpillsLate(g, rs, 0);
    FaithfulExactly(g, rs);
  }
}
