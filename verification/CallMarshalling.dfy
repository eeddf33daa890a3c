/** Calls from AArch64 guest code into x86-64 host functions. The slow path walks the signature and takes
    each argument from the guest's registers or stack; the fast path loads host registers directly. Both
    are compared with the parameter passing rules of the two platforms: section 6.8.2 of the Arm AAPCS64
    and section 3.2.3 of the System V AMD64 psABI. */
module CallMarshalling {
  import opened Bytes

  datatype ArgType =
    | UnsignedByte | SignedByte | UnsignedHalfword | SignedHalfword | UnsignedWord | SignedWord
    | UnsignedDoubleword | SignedDoubleword | Pointer
    | SinglePrecision | DoublePrecision
    | VariadicList | NoType | Unsupported

  datatype Class = General | Vector | List | Invalid

  function ClassOf(t: ArgType): (c: Class) {
    match t
    case SinglePrecision | DoublePrecision => Vector
    case VariadicList => List
    case NoType | Unsupported => Invalid
    case _ => General
  }

  datatype VectorRegister = VectorRegister(low: u64, high: u64)

  /** The guest registers, and the doublewords of its stack counted from the stack pointer. */
  datatype RawGuest = RawGuest(x: seq<u64>, v: seq<VectorRegister>, stack: nat -> u64)
  type Guest = g: RawGuest | |g.x| == 31 && |g.v| == 32
    witness RawGuest(seq(31, _ => 0), seq(32, _ => VectorRegister(0, 0)), _ => 0)

  /** An argument as the host receives it: 64 bits in the general or the vector class, or a guest
      variable argument list to be translated. */
  datatype Value = Integer(bits: u64) | Float(bits: u64) | ListAt(bits: u64)

  /** A host function reachable from the guest. `types[0]` is the return type. */
  datatype RawTrampoline = Trampoline(types: seq<ArgType>, ellipsis: bool, sideEffects: bool)
  type Trampoline = t: RawTrampoline | |t.types| > 0
    witness Trampoline([NoType], false, false)

  /** Supervisor calls below this number are not trampolines. */
  const ID_OFFSET: nat := 0x10

  // ----- the guest's rules -----

  /** How many of the first `i` arguments want a general register; lists are passed by address. */
  function Generals(types: seq<ArgType>, i: nat): (n: nat)
    requires 1 <= i <= |types|
    ensures n < i
  {
    if i == 1 then 0 else Generals(types, i - 1) + if ClassOf(types[i - 1]) in {General, List} then 1 else 0
  }

  function Vectors(types: seq<ArgType>, i: nat): (n: nat)
    requires 1 <= i <= |types|
    ensures n < i
  {
    if i == 1 then 0 else Vectors(types, i - 1) + if ClassOf(types[i - 1]) == Vector then 1 else 0
  }

  function Excess(n: nat, limit: nat): (e: nat) {
    if n > limit then n - limit else 0
  }

  /** The next stacked argument: one doubleword for each earlier argument that found no register. */
  function NextStacked(types: seq<ArgType>, i: nat): (n: nat)
    requires 1 <= i <= |types|
  {
    Excess(Generals(types, i), 8) + Excess(Vectors(types, i), 8)
  }

  /** The 64 bits that the procedure call standard assigns to argument `i`. */
  function AssignedBits(g: Guest, types: seq<ArgType>, i: nat): (b: u64)
    requires 1 <= i < |types|
  {
    if ClassOf(types[i]) == Vector then
      if Vectors(types, i) < 8 then g.v[Vectors(types, i)].low else g.stack(NextStacked(types, i))
    else
      if Generals(types, i) < 8 then g.x[Generals(types, i)] else g.stack(NextStacked(types, i))
  }

  function Assigned(g: Guest, types: seq<ArgType>, i: nat): (v: Value)
    requires 1 <= i < |types|
  {
    match ClassOf(types[i])
    case Vector => Float(AssignedBits(g, types, i))
    case List => ListAt(AssignedBits(g, types, i))
    case _ => Integer(AssignedBits(g, types, i))
  }

  predicate Callable(types: seq<ArgType>) {
    forall i :: 1 <= i < |types| ==> ClassOf(types[i]) != Invalid
  }

  /** The assigned arguments as a list. */
  function Fixed(g: Guest, types: seq<ArgType>): (args: seq<Value>)
    requires |types| > 0
    ensures |args| == |types| - 1
  {
    seq(|types| - 1, i requires 0 <= i < |types| - 1 => Assigned(g, types, i + 1))
  }

  /** What the type of an argument, and of a result, means for where it goes. */
  lemma TypeTable(t: ArgType)
    ensures ClassOf(t) == Vector <==> t in {SinglePrecision, DoublePrecision}
    ensures ClassOf(t) == List <==> t == VariadicList
    ensures ClassOf(t) == Invalid <==> t in {NoType, Unsupported}
    ensures ReturnOf(t) == ReturnsVoid <==> t == NoType
    ensures ReturnOf(t) == ReturnsInteger <==> ClassOf(t) == General
    ensures ReturnOf(t) == ReturnsFloat <==> ClassOf(t) == Vector
  {}

  // ----- where arguments are -----

  /** The arguments before `i` of a vector type, or all others. */
  function OfKind(types: seq<ArgType>, i: nat, vector: bool): (s: set<nat>)
    requires i <= |types|
  {
    set j: nat | 1 <= j < i && (ClassOf(types[j]) == Vector) == vector
  }

  /** The earlier arguments that compete with argument `i` for registers. */
  function Rivals(types: seq<ArgType>, i: nat): (s: set<nat>)
    requires i < |types|
  {
    OfKind(types, i, ClassOf(types[i]) == Vector)
  }

  /** An argument has eight earlier rivals, and so finds no register. */
  predicate Spilled(types: seq<ArgType>, i: nat)
    requires i < |types|
  {
    |Rivals(types, i)| >= 8
  }

  function SpilledBefore(types: seq<ArgType>, i: nat): (s: set<nat>)
    requires i <= |types|
  {
    set j: nat | 1 <= j < i && Spilled(types, j)
  }

  lemma KindGrows(types: seq<ArgType>, i: nat, vector: bool, s: set<nat>, t: set<nat>)
    requires 1 <= i < |types| && s == OfKind(types, i, vector) && t == OfKind(types, i + 1, vector)
    ensures |t| == |s| + if (ClassOf(types[i]) == Vector) == vector then 1 else 0
  {
    assert i !in s && t == if (ClassOf(types[i]) == Vector) == vector then s + {i} else s;
  }

  lemma {:induction false} CountsAreSets(types: seq<ArgType>, i: nat)
    requires Callable(types) && 1 <= i <= |types|
    ensures |OfKind(types, i, false)| == Generals(types, i) && |OfKind(types, i, true)| == Vectors(types, i)
    decreases i
  {
    if i == 1 {
      assert OfKind(types, 1, false) == {} && OfKind(types, 1, true) == {};
    } else {
      CountsAreSets(types, i - 1);
      KindGrows(types, i - 1, false, OfKind(types, i - 1, false), OfKind(types, i, false));
      KindGrows(types, i - 1, true, OfKind(types, i - 1, true), OfKind(types, i, true));
    }
  }

  lemma RivalCount(types: seq<ArgType>, i: nat)
    requires Callable(types) && 1 <= i < |types|
    ensures |Rivals(types, i)| == if ClassOf(types[i]) == Vector then Vectors(types, i) else Generals(types, i)
  {
    CountsAreSets(types, i);
  }

  lemma SpilledGrows(types: seq<ArgType>, i: nat, s: set<nat>, t: set<nat>)
    requires 1 <= i < |types| && s == SpilledBefore(types, i) && t == SpilledBefore(types, i + 1)
    ensures |t| == |s| + if Spilled(types, i) then 1 else 0
  {
    assert i !in s && t == if Spilled(types, i) then s + {i} else s;
  }

  lemma StackedGrows(types: seq<ArgType>, i: nat)
    requires Callable(types) && 1 <= i < |types|
    ensures NextStacked(types, i + 1) == NextStacked(types, i) +
              if (if ClassOf(types[i]) == Vector then Vectors(types, i) else Generals(types, i)) >= 8 then 1 else 0
  {}

  lemma {:induction false} SpilledCount(types: seq<ArgType>, i: nat)
    requires Callable(types) && 1 <= i <= |types|
    ensures |SpilledBefore(types, i)| == NextStacked(types, i)
    decreases i
  {
    if i == 1 {
      assert SpilledBefore(types, 1) == {};
    } else {
      SpilledCount(types, i - 1);
      RivalCount(types, i - 1);
      SpilledGrows(types, i - 1, SpilledBefore(types, i - 1), SpilledBefore(types, i));
      StackedGrows(types, i - 1);
    }
  }

  /** Where the slow path finds argument `i` of any signature it knows: in the register numbered by its earlier
      rivals, or, once those have taken eight, in the stack word numbered by the earlier arguments of either
      kind that found no register. */
  lemma ArgumentPlaces(g: Guest, types: seq<ArgType>, i: nat)
    requires Callable(types) && 1 <= i < |types|
    ensures var n := |Rivals(types, i)|;
            Fixed(g, types)[i - 1].bits ==
              if n >= 8 then g.stack(|SpilledBefore(types, i)|) else if ClassOf(types[i]) == Vector then g.v[n].low else g.x[n]
    ensures var a := Fixed(g, types)[i - 1];
            (a.Float? <==> ClassOf(types[i]) == Vector) && (a.ListAt? <==> ClassOf(types[i]) == List)
  {
    RivalCount(types, i);
    SpilledCount(types, i);
    assert Fixed(g, types)[i - 1] == Assigned(g, types, i);
  }

  // ----- the slow path -----

  /** The next general register, or the next doubleword of the stack once eight are used. */
  method NextGeneral(g: Guest, xReg: nat, cursor: nat) returns (bits: u64, xReg': nat, cursor': nat)
    requires xReg <= 8
    ensures bits == if xReg < 8 then g.x[xReg] else g.stack(cursor)
    ensures xReg' == (if xReg < 8 then xReg + 1 else xReg) && cursor' == (if xReg < 8 then cursor else cursor + 1)
  {
    if xReg > 7 {
      return g.stack(cursor), xReg, cursor + 1;
    }
    return g.x[xReg], xReg + 1, cursor;
  }

  method NextVector(g: Guest, vReg: nat, cursor: nat) returns (bits: u64, vReg': nat, cursor': nat)
    requires vReg <= 8
    ensures bits == if vReg < 8 then g.v[vReg].low else g.stack(cursor)
    ensures vReg' == (if vReg < 8 then vReg + 1 else vReg) && cursor' == (if vReg < 8 then cursor else cursor + 1)
  {
    if vReg > 7 {
      return g.stack(cursor), vReg, cursor + 1;
    }
    return g.v[vReg].low, vReg + 1, cursor;
  }

  /** The loop variables before argument `i`. */
  ghost predicate Counters(types: seq<ArgType>, i: nat, xReg: nat, vReg: nat, cursor: nat)
    requires 1 <= i <= |types|
  {
    && xReg == Generals(types, i) - Excess(Generals(types, i), 8)
    && vReg == Vectors(types, i) - Excess(Vectors(types, i), 8)
    && cursor == NextStacked(types, i)
  }

  /** One turn of the loop over the signature. */
  method NextArgument(g: Guest, types: seq<ArgType>, i: nat, xReg: nat, vReg: nat, cursor: nat)
    returns (ok: bool, arg: Value, xReg': nat, vReg': nat, cursor': nat)
    requires 1 <= i < |types| && Counters(types, i, xReg, vReg, cursor)
    ensures ok <==> ClassOf(types[i]) != Invalid
    ensures ok ==> arg == Assigned(g, types, i) && Counters(types, i + 1, xReg', vReg', cursor')
  {
    ok, xReg', vReg', cursor' := true, xReg, vReg, cursor;
    var bits: u64 := 0;
    match ClassOf(types[i])
    case General =>
      bits, xReg', cursor' := NextGeneral(g, xReg, cursor);
      arg := Integer(bits);
    case Vector =>
      bits, vReg', cursor' := NextVector(g, vReg, cursor);
      arg := Float(bits);
    case List =>
      bits, xReg', cursor' := NextGeneral(g, xReg, cursor);
      arg := ListAt(bits);
    case Invalid =>
      ok, arg := false, Integer(0);
  }

  /** The guest list that was translated last; all lists of a call share the memory of their translation. */
  function Shared(args: seq<Value>): (list: u64) {
    if args == [] then 0 else if args[|args| - 1].ListAt? then args[|args| - 1].bits else Shared(args[..|args| - 1])
  }

  /** The loop over the signature: it locates what the guest's standard assigns, or gives up on an argument
      type it does not know. `list` is the guest list whose translation the host finds behind every list. */
  method MarshalFixed(g: Guest, types: seq<ArgType>) returns (args: seq<Value>, ok: bool, xReg: nat, vReg: nat, list: u64)
    requires |types| > 0
    ensures ok <==> Callable(types)
    ensures ok ==> args == Fixed(g, types) && Counters(types, |types|, xReg, vReg, NextStacked(types, |types|))
    ensures ok ==> list == Shared(args)
  {
    xReg, vReg, args, ok, list := 0, 0, [], true, 0;
    var cursor: nat := 0;
    var i := 1;
    while i < |types|
      invariant 1 <= i <= |types| && args == Fixed(g, types)[..i - 1] && ok
      invariant Counters(types, i, xReg, vReg, cursor) && list == Shared(args)
      invariant forall k :: 1 <= k < i ==> ClassOf(types[k]) != Invalid
    {
      var arg;
      ok, arg, xReg, vReg, cursor := NextArgument(g, types, i, xReg, vReg, cursor);
      if !ok {
        return;
      }
      if arg.ListAt? {
        list := arg.bits;
      }
      args := args + [arg];
      i := i + 1;
    }
  }

  /** The registers from `n` on as further arguments. */
  function RestGeneral(g: Guest, n: nat): (s: seq<Value>)
    requires n <= 8
    ensures |s| == 8 - n
  {
    seq(8 - n, i requires 0 <= i < 8 - n => Integer(g.x[n + i]))
  }

  function RestVector(g: Guest, n: nat): (s: seq<Value>)
    requires n <= 8
    ensures |s| == 8 - n
  {
    seq(8 - n, i requires 0 <= i < 8 - n => Float(g.v[n + i].low))
  }

  method PassGenerals(g: Guest, fixed: seq<Value>, xReg: nat) returns (args: seq<Value>)
    requires xReg <= 8
    ensures args == fixed + RestGeneral(g, xReg)
  {
    args := fixed;
    var i := xReg;
    while i < 8
      invariant xReg <= i <= 8 && args == fixed + RestGeneral(g, xReg)[..i - xReg]
    {
      args := args + [Integer(g.x[i])];
      i := i + 1;
    }
  }

  method PassVectors(g: Guest, fixed: seq<Value>, vReg: nat) returns (args: seq<Value>)
    requires vReg <= 8
    ensures args == fixed + RestVector(g, vReg)
  {
    args := fixed;
    var i := vReg;
    while i < 8
      invariant vReg <= i <= 8 && args == fixed + RestVector(g, vReg)[..i - vReg]
    {
      args := args + [Float(g.v[i].low)];
      i := i + 1;
    }
  }

  /** The whole argument list of the slow path: for an ellipsis function all remaining registers follow. */
  method Marshal(g: Guest, t: Trampoline) returns (args: seq<Value>, ok: bool, list: u64)
    ensures ok <==> Callable(t.types)
    ensures ok ==> args == SlowArguments(g, t) && list == Shared(Fixed(g, t.types))
  {
    var xReg, vReg;
    args, ok, xReg, vReg, list := MarshalFixed(g, t.types);
    if ok && t.ellipsis {
      args := PassGenerals(g, args, xReg);
      args := PassVectors(g, args, vReg);
    }
  }

  function SlowArguments(g: Guest, t: Trampoline): (args: seq<Value>) {
    var x := Generals(t.types, |t.types|);
    var v := Vectors(t.types, |t.types|);
    Fixed(g, t.types) + if t.ellipsis then RestGeneral(g, x - Excess(x, 8)) + RestVector(g, v - Excess(v, 8)) else []
  }

  // ----- several lists -----

  /** The arguments as the host sees them once it follows its lists. */
  function Seen(args: seq<Value>): (r: seq<Value>)
    ensures |r| == |args|
  {
    seq(|args|, i requires 0 <= i < |args| => if args[i].ListAt? then ListAt(Shared(args)) else args[i])
  }

  predicate OneList(types: seq<ArgType>) {
    forall i, j :: 1 <= i < j < |types| && ClassOf(types[i]) == List ==> ClassOf(types[j]) != List
  }

  lemma {:induction false} OnlyListShared(args: seq<Value>, i: nat)
    requires i < |args| && args[i].ListAt? && forall j :: i < j < |args| ==> !args[j].ListAt?
    ensures Shared(args) == args[i].bits
    decreases |args|
  {
    if i < |args| - 1 {
      OnlyListShared(args[..|args| - 1], i);
    }
  }

  /** A guest whose registers differ from each other and from its stack, which differs at one place. */
  function Spread(at: nat): (g: Guest) {
    RawGuest(seq(31, i requires 0 <= i < 31 => i), seq(32, _ => VectorRegister(0, 0)), k => if k == at then 101 else 100)
  }

  lemma {:induction false} CountsGrow(types: seq<ArgType>, i: nat, j: nat)
    requires 1 <= i <= j <= |types|
    ensures Generals(types, i) <= Generals(types, j) && Vectors(types, i) <= Vectors(types, j)
    decreases j
  {
    if i < j { CountsGrow(types, i, j - 1); }
  }

  lemma ListsApart(types: seq<ArgType>, i: nat, j: nat)
    requires 1 <= i < j < |types| && ClassOf(types[i]) == ClassOf(types[j]) == List
    ensures var g := Spread(NextStacked(types, j)); AssignedBits(g, types, i) != AssignedBits(g, types, j)
  {
    CountsGrow(types, i + 1, j);
  }

  /** Each list leads the host to the guest's own list, for every guest, if and only if there is at most one. */
  lemma ListsSeenExactly(types: seq<ArgType>)
    requires |types| > 0
    ensures (forall g: Guest :: Seen(Fixed(g, types)) == Fixed(g, types)) <==> OneList(types)
  {
    if OneList(types) {
      forall g: Guest ensures Seen(Fixed(g, types)) == Fixed(g, types) {
        var args := Fixed(g, types);
        forall i | 0 <= i < |args| && args[i].ListAt? ensures Shared(args) == args[i].bits {
          OnlyListShared(args, i);
        }
      }
    } else {
      var i, j :| 1 <= i < j < |types| && ClassOf(types[i]) == ClassOf(types[j]) == List;
      ListsApart(types, i, j);
      var g := Spread(NextStacked(types, j));
      var args := Fixed(g, types);
      assert args[i - 1] == Assigned(g, types, i) && args[j - 1] == Assigned(g, types, j);
      assert Seen(args)[i - 1] == Seen(args)[j - 1] && args[i - 1] != args[j - 1];
      assert Seen(Fixed(g, types)) != Fixed(g, types);
    }
  }

  /** Two lists: the host finds the second behind both. */
  lemma TwoListsShareOne()
    ensures var args := Fixed(Spread(0), [NoType, VariadicList, VariadicList]);
            args == [ListAt(0), ListAt(1)] && Seen(args) == [ListAt(1), ListAt(1)]
  {
    var args := Fixed(Spread(0), [NoType, VariadicList, VariadicList]);
    assert args[0] == ListAt(0) && args[1] == ListAt(1);
  }

  // ----- the host's rules -----

  /** Where the host finds its arguments. */
  datatype Frame = Frame(general: seq<u64>, vector: seq<u64>, stack: seq<u64>)

  predicate Scalar(args: seq<Value>) {
    forall i :: 0 <= i < |args| ==> !args[i].ListAt?
  }

  /** Six general and eight vector registers, then the stack, in order. */
  function Push(f: Frame, a: Value): (r: Frame)
    requires !a.ListAt?
  {
    if a.Integer? then
      if |f.general| < 6 then f.(general := f.general + [a.bits]) else f.(stack := f.stack + [a.bits])
    else
      if |f.vector| < 8 then f.(vector := f.vector + [a.bits]) else f.(stack := f.stack + [a.bits])
  }

  function Place(f: Frame, args: seq<Value>): (r: Frame)
    requires Scalar(args)
    decreases |args|
  {
    if args == [] then f else Place(Push(f, args[0]), args[1..])
  }

  const EMPTY_FRAME := Frame([], [], [])

  /** What the callee reads, given the classes of its parameters and how much it has read so far. */
  function Receive(f: Frame, classes: seq<Class>, g: nat, v: nat, s: nat): (args: seq<Value>)
    decreases |classes|
  {
    if classes == [] then []
    else if classes[0] == General then
      if g < 6 then [Integer(At(f.general, g))] + Receive(f, classes[1..], g + 1, v, s)
      else [Integer(At(f.stack, s))] + Receive(f, classes[1..], g, v, s + 1)
    else
      if v < 8 then [Float(At(f.vector, v))] + Receive(f, classes[1..], g, v + 1, s)
      else [Float(At(f.stack, s))] + Receive(f, classes[1..], g, v, s + 1)
  }

  function At(s: seq<u64>, i: nat): (b: u64) {
    if i < |s| then s[i] else 0
  }

  function ClassOfValue(v: Value): (c: Class) {
    match v
    case Integer(_) => General
    case Float(_) => Vector
    case ListAt(_) => List
  }

  function Classes(args: seq<Value>): (cs: seq<Class>)
    ensures |cs| == |args|
  {
    seq(|args|, i requires 0 <= i < |args| => ClassOfValue(args[i]))
  }

  lemma {:induction false} PlaceGrows(f: Frame, args: seq<Value>)
    requires Scalar(args)
    ensures var r := Place(f, args); f.general <= r.general && f.vector <= r.vector && f.stack <= r.stack
    decreases |args|
  {
    if args != [] {
      PlaceGrows(Push(f, args[0]), args[1..]);
    }
  }

  /** The host reads back the very list that was placed. */
  lemma {:induction false} ReceivesPlaced(f: Frame, args: seq<Value>)
    requires Scalar(args) && |f.general| <= 6 && |f.vector| <= 8
    ensures Receive(Place(f, args), Classes(args), |f.general|, |f.vector|, |f.stack|) == args
    decreases |args|
  {
    if args != [] {
      var f' := Push(f, args[0]);
      ReceivesPlaced(f', args[1..]);
      PlaceGrows(f', args[1..]);
      assert Classes(args)[1..] == Classes(args[1..]);
      assert args == [args[0]] + args[1..];
    }
  }

  // ----- the fast path -----

  datatype ReturnClass = ReturnsVoid | ReturnsInteger | ReturnsFloat | ReturnsUnknown

  function ReturnOf(t: ArgType): (c: ReturnClass) {
    match t
    case NoType => ReturnsVoid
    case SinglePrecision | DoublePrecision => ReturnsFloat
    case VariadicList | Unsupported => ReturnsUnknown
    case _ => ReturnsInteger
  }

  /** How many registers of each kind the fast path loads. */
  datatype FastCall = FastCall(integers: nat, floats: nat, result: ReturnClass)

  predicate ScalarTypes(types: seq<ArgType>) {
    forall i :: 1 <= i < |types| ==> ClassOf(types[i]) in {General, Vector}
  }

  predicate FastAccepts(t: Trampoline) {
    && !t.sideEffects && ScalarTypes(t.types) && ReturnOf(t.types[0]) != ReturnsUnknown
    && Generals(t.types, |t.types|) <= 6 && Vectors(t.types, |t.types|) <= 8
  }

  /** An entry of the table of host functions; some have no function yet. */
  datatype Symbol = Symbol(trampoline: Trampoline, native: bool)

  predicate Known(symbols: seq<Symbol>, id: nat) {
    ID_OFFSET <= id && id - ID_OFFSET < |symbols| && symbols[id - ID_OFFSET].native
  }

  /** Counts the registers a signature needs; refuses exactly an id without a function and what the fast
      path cannot express. */
  method GetSupervisorFastCall(symbols: seq<Symbol>, id: u32) returns (accepted: bool, call: FastCall)
    ensures accepted <==> 16 <= id < 16 + |symbols| && symbols[id - 16].native && FastAccepts(symbols[id - 16].trampoline)
    ensures accepted ==> call == FastCallOf(symbols[id - 16].trampoline)
  {
    call := FastCall(0, 0, ReturnsVoid);
    if !Known(symbols, id) {
      return false, call;
    }
    var t := symbols[id - ID_OFFSET].trampoline;
    if t.sideEffects {
      return false, call;
    }
    var integers: nat, floats: nat := 0, 0;
    var i := 1;
    while i < |t.types|
      invariant 1 <= i <= |t.types|
      invariant forall k :: 1 <= k < i ==> ClassOf(t.types[k]) in {General, Vector}
      invariant integers == Generals(t.types, i) && floats == Vectors(t.types, i)
    {
      match ClassOf(t.types[i]) {
        case General => integers := integers + 1;
        case Vector => floats := floats + 1;
        case _ => return false, call;
      }
      i := i + 1;
    }
    if integers > 6 || floats > 8 {
      return false, call;
    }
    if t.ellipsis {
      integers, floats := 6, 8;
    }
    if ReturnOf(t.types[0]) == ReturnsUnknown {
      return false, call;
    }
    return true, FastCall(integers, floats, ReturnOf(t.types[0]));
  }

  function FastCallOf(t: Trampoline): (c: FastCall) {
    if t.ellipsis then FastCall(6, 8, ReturnOf(t.types[0]))
    else FastCall(Generals(t.types, |t.types|), Vectors(t.types, |t.types|), ReturnOf(t.types[0]))
  }

  function Lows(g: Guest, n: nat): (s: seq<u64>)
    requires n <= 8
    ensures |s| == n
  {
    seq(n, i requires 0 <= i < n => g.v[i].low)
  }

  /** The registers the emitted code loads before the call. */
  function FastFrame(g: Guest, t: Trampoline): (f: Frame)
    requires FastAccepts(t)
  {
    Frame(g.x[..FastCallOf(t).integers], Lows(g, FastCallOf(t).floats), [])
  }

  // ----- both paths agree -----

  /** The bits of the arguments of one class, in order. */
  function BitsOf(args: seq<Value>, c: Class): (s: seq<u64>)
    decreases |args|
  {
    if args == [] then [] else (if ClassOfValue(args[0]) == c then [args[0].bits] else []) + BitsOf(args[1..], c)
  }

  lemma BitsUnfold(args: seq<Value>, v: Value, rest: seq<Value>, c: Class)
    requires args != [] && args[0] == v && args[1..] == rest
    ensures BitsOf(args, c) == (if ClassOfValue(v) == c then [v.bits] else []) + BitsOf(rest, c)
  {}

  lemma Regroup(a: seq<u64>, b: seq<u64>, c: seq<u64>)
    ensures a + (b + c) == (a + b) + c
  {}

  lemma {:induction false} BitsAppend(a: seq<Value>, b: seq<Value>, c: Class)
    ensures BitsOf(a + b, c) == BitsOf(a, c) + BitsOf(b, c)
    decreases |a|
  {
    if a == [] {
      assert a + b == b;
    } else {
      BitsAppend(a[1..], b, c);
      assert (a + b)[1..] == a[1..] + b;
      BitsUnfold(a + b, a[0], a[1..] + b, c);
      BitsUnfold(a, a[0], a[1..], c);
      Regroup(if ClassOfValue(a[0]) == c then [a[0].bits] else [], BitsOf(a[1..], c), BitsOf(b, c));
    }
  }

  lemma BitsSnoc(a: seq<Value>, v: Value, c: Class)
    ensures BitsOf(a + [v], c) == BitsOf(a, c) + if ClassOfValue(v) == c then [v.bits] else []
  {
    BitsAppend(a, [v], c);
  }

  function Take(s: seq<u64>, n: nat): (r: seq<u64>) {
    if |s| <= n then s else s[..n]
  }

  function Drop(s: seq<u64>, n: nat): (r: seq<u64>) {
    if |s| <= n then [] else s[n..]
  }

  /** The frame after placing lists of general and vector bits, if the vector registers suffice. */
  function Split(f: Frame, general: seq<u64>, vector: seq<u64>): (r: Frame) {
    Frame(Take(f.general + general, 6), f.vector + vector, f.stack + Drop(f.general + general, 6))
  }

  lemma SplitInteger(f: Frame, b: u64, general: seq<u64>, vector: seq<u64>)
    requires |f.general| <= 6
    ensures Split(Push(f, Integer(b)), general, vector) == Split(f, [b] + general, vector)
  {
    if |f.general| < 6 {
      assert f.general + [b] + general == f.general + ([b] + general);
    } else {
      assert Drop(f.general + ([b] + general), 6) == [b] + general;
    }
  }

  lemma SplitFloat(f: Frame, b: u64, general: seq<u64>, vector: seq<u64>)
    requires |f.vector| < 8
    ensures Split(Push(f, Float(b)), general, vector) == Split(f, general, [b] + vector)
  {
    assert f.vector + [b] + vector == f.vector + ([b] + vector);
  }

  /** With at most eight vector arguments, the frame is determined by the two lists of bits. */
  lemma {:induction false} PlaceIsSplit(f: Frame, args: seq<Value>)
    requires Scalar(args) && |f.general| <= 6 && |f.vector| + |BitsOf(args, Vector)| <= 8
    ensures Place(f, args) == Split(f, BitsOf(args, General), BitsOf(args, Vector))
    decreases |args|
  {
    if args == [] {
      assert Split(f, [], []) == f;
    } else {
      PlaceIsSplit(Push(f, args[0]), args[1..]);
      var general, vector := BitsOf(args[1..], General), BitsOf(args[1..], Vector);
      if args[0].Integer? {
        SplitInteger(f, args[0].bits, general, vector);
      } else {
        SplitFloat(f, args[0].bits, general, vector);
      }
    }
  }

  /** The assigned arguments take the guest registers in order. */
  lemma {:induction false} FixedBits(g: Guest, types: seq<ArgType>, i: nat)
    requires 1 <= i <= |types| && ScalarTypes(types)
    requires Generals(types, |types|) <= 8 && Vectors(types, |types|) <= 8
    ensures Generals(types, i) <= 8 && Vectors(types, i) <= 8
    ensures BitsOf(Fixed(g, types)[..i - 1], General) == g.x[..Generals(types, i)]
    ensures BitsOf(Fixed(g, types)[..i - 1], Vector) == Lows(g, Vectors(types, i))
    decreases i
  {
    CountsGrow(types, i, |types|);
    if i > 1 {
      FixedBits(g, types, i - 1);
      var args := Fixed(g, types);
      assert args[..i - 1] == args[..i - 2] + [args[i - 2]];
      NextFixedBits(g, args[..i - 2], Generals(types, i - 1), Vectors(types, i - 1), args[i - 2]);
    }
  }

  lemma NextFixedBits(g: Guest, args: seq<Value>, x: nat, v: nat, a: Value)
    requires x <= 8 && v <= 8 && BitsOf(args, General) == g.x[..x] && BitsOf(args, Vector) == Lows(g, v)
    requires (x < 8 && a == Integer(g.x[x])) || (v < 8 && a == Float(g.v[v].low))
    ensures BitsOf(args + [a], General) == if a.Integer? then g.x[..x + 1] else g.x[..x]
    ensures BitsOf(args + [a], Vector) == if a.Integer? then Lows(g, v) else Lows(g, v + 1)
  {
    BitsSnoc(args, a, General);
    BitsSnoc(args, a, Vector);
  }

  lemma {:induction false} RestBits(g: Guest, n: nat)
    requires n <= 8
    ensures BitsOf(RestGeneral(g, n), General) == g.x[n..8] && BitsOf(RestGeneral(g, n), Vector) == []
    ensures BitsOf(RestVector(g, n), Vector) == Lows(g, 8)[n..] && BitsOf(RestVector(g, n), General) == []
    decreases 8 - n
  {
    if n < 8 {
      RestBits(g, n + 1);
      assert RestGeneral(g, n)[1..] == RestGeneral(g, n + 1);
      assert RestVector(g, n)[1..] == RestVector(g, n + 1);
    }
  }

  lemma BitsOfThree(a: seq<Value>, b: seq<Value>, c: seq<Value>, k: Class)
    ensures BitsOf(a + (b + c), k) == BitsOf(a, k) + (BitsOf(b, k) + BitsOf(c, k))
  {
    BitsAppend(b, c, k);
    BitsAppend(a, b + c, k);
  }

  lemma EllipsisBits(g: Guest, fixed: seq<Value>, x: nat, v: nat, args: seq<Value>)
    requires x <= 8 && v <= 8 && BitsOf(fixed, General) == g.x[..x] && BitsOf(fixed, Vector) == Lows(g, v)
    requires args == fixed + (RestGeneral(g, x) + RestVector(g, v))
    ensures BitsOf(args, General) == g.x[..8] && BitsOf(args, Vector) == Lows(g, 8)
  {
    RestBits(g, x);
    RestBits(g, v);
    BitsOfThree(fixed, RestGeneral(g, x), RestVector(g, v), General);
    BitsOfThree(fixed, RestGeneral(g, x), RestVector(g, v), Vector);
    Completed(g.x[..8], x, g.x[..x], g.x[x..8]);
    Completed(Lows(g, 8), v, Lows(g, v), Lows(g, 8)[v..]);
  }

  lemma Completed(all: seq<u64>, n: nat, front: seq<u64>, rest: seq<u64>)
    requires n <= |all| && front == all[..n] && rest == all[n..]
    ensures front + (rest + []) == all && front + ([] + rest) == all
  {}

  lemma SlowScalar(g: Guest, t: Trampoline)
    requires ScalarTypes(t.types)
    ensures Scalar(SlowArguments(g, t))
  {}

  /** The bits of the whole slow argument list. */
  lemma SlowBits(g: Guest, t: Trampoline)
    requires FastAccepts(t)
    ensures BitsOf(SlowArguments(g, t), General) == g.x[..if t.ellipsis then 8 else Generals(t.types, |t.types|)]
    ensures BitsOf(SlowArguments(g, t), Vector) == Lows(g, if t.ellipsis then 8 else Vectors(t.types, |t.types|))
  {
    var n := |t.types|;
    var fixed := Fixed(g, t.types);
    FixedBits(g, t.types, n);
    assert fixed[..n - 1] == fixed;
    if t.ellipsis {
      EllipsisBits(g, fixed, Generals(t.types, n), Vectors(t.types, n), SlowArguments(g, t));
    } else {
      assert SlowArguments(g, t) == fixed;
    }
  }

  /** Whenever the fast path accepts a signature, the registers it loads are those of the System V placement
      of the slow path's list. Only an ellipsis function also gets x6 and x7 on the stack from the slow path. */
  lemma FastFrameIsPlacement(g: Guest, t: Trampoline)
    requires FastAccepts(t)
    ensures Scalar(SlowArguments(g, t))
    ensures Place(EMPTY_FRAME, SlowArguments(g, t)) == FastFrame(g, t).(stack := if t.ellipsis then [g.x[6], g.x[7]] else [])
  {
    SlowScalar(g, t);
    SlowBits(g, t);
    PlaceIsSplit(EMPTY_FRAME, SlowArguments(g, t));
    assert t.ellipsis ==> Lows(g, 8)[..] == Lows(g, 8) && g.x[..8][..6] == g.x[..6] && g.x[..8][6..] == [g.x[6], g.x[7]];
  }

  // ----- what the fast path accepts -----

  /** How much of a list does not fit the host's registers. */
  lemma {:induction false} StackLength(f: Frame, args: seq<Value>)
    requires Scalar(args) && |f.general| <= 6 && |f.vector| <= 8
    ensures |Place(f, args).stack| == |f.stack| + Excess(|f.general| + |BitsOf(args, General)|, 6) + Excess(|f.vector| + |BitsOf(args, Vector)|, 8)
    decreases |args|
  {
    if args != [] {
      StackLength(Push(f, args[0]), args[1..]);
      BitsUnfold(args, args[0], args[1..], General);
      BitsUnfold(args, args[0], args[1..], Vector);
    }
  }

  lemma {:induction false} FixedCounts(g: Guest, types: seq<ArgType>, i: nat)
    requires 1 <= i <= |types| && ScalarTypes(types)
    ensures |BitsOf(Fixed(g, types)[..i - 1], General)| == Generals(types, i)
    ensures |BitsOf(Fixed(g, types)[..i - 1], Vector)| == Vectors(types, i)
    decreases i
  {
    if i > 1 {
      FixedCounts(g, types, i - 1);
      var args := Fixed(g, types);
      assert args[..i - 1] == args[..i - 2] + [args[i - 2]];
      BitsSnoc(args[..i - 2], args[i - 2], General);
      BitsSnoc(args[..i - 2], args[i - 2], Vector);
    }
  }

  lemma ScalarsByType(g: Guest, types: seq<ArgType>, args: seq<Value>)
    requires |types| > 0 && args == Fixed(g, types)
    ensures Scalar(args) && Callable(types) <==> ScalarTypes(types)
  {
    if Scalar(args) && Callable(types) {
      forall i | 1 <= i < |types| ensures ClassOf(types[i]) in {General, Vector} {
        assert args[i - 1] == Assigned(g, types, i) && !args[i - 1].ListAt?;
      }
    }
  }

  lemma FixedStack(args: seq<Value>, general: nat, vector: nat)
    requires Scalar(args) && |BitsOf(args, General)| == general && |BitsOf(args, Vector)| == vector
    ensures Place(EMPTY_FRAME, args).stack == [] <==> general <= 6 && vector <= 8
  {
    StackLength(EMPTY_FRAME, args);
  }

  /** The fast path takes exactly the functions without side effects on the execution context whose arguments
      are scalars that the host's standard passes in registers alone, and whose result it knows. */
  lemma FastAcceptsExactly(t: Trampoline, g: Guest, args: seq<Value>)
    requires args == Fixed(g, t.types)
    ensures FastAccepts(t) <==>
            && !t.sideEffects && ReturnOf(t.types[0]) != ReturnsUnknown
            && Scalar(args) && Callable(t.types) && Place(EMPTY_FRAME, args).stack == []
  {
    ScalarsByType(g, t.types, args);
    if ScalarTypes(t.types) {
      FixedCounts(g, t.types, |t.types|);
      assert args[..|t.types| - 1] == args;
      FixedStack(args, Generals(t.types, |t.types|), Vectors(t.types, |t.types|));
    }
  }

  // ----- the effect on the guest -----

  /** A host function, as what it returns for the arguments it reads. */
  type HostFunction = seq<Value> -> u64

  function ParameterClasses(types: seq<ArgType>): (cs: seq<Class>)
    requires |types| > 0
  {
    seq(|types| - 1, i requires 0 <= i < |types| - 1 => ClassOf(types[i + 1]))
  }

  function Return(g: Guest, c: ReturnClass, bits: u64): (r: Guest) {
    match c
    case ReturnsInteger => g.(x := g.x[0 := bits])
    case ReturnsFloat => g.(v := g.v[0 := g.v[0].(low := bits)])
    case _ => g
  }

  /** A result changes x0, or the low half of v0, and nothing else. */
  lemma ReturnDelivers(g: Guest, c: ReturnClass, bits: u64, i: nat)
    requires i < 31
    ensures var r := Return(g, c, bits);
            && r.x[i] == (if c == ReturnsInteger && i == 0 then bits else g.x[i])
            && r.v[i].low == (if c == ReturnsFloat && i == 0 then bits else g.v[i].low)
            && r.v[i].high == g.v[i].high && r.stack == g.stack
  {}

  /** The guest after a host function has read its parameters from a frame. */
  function Called(g: Guest, t: Trampoline, f: Frame, host: HostFunction): (r: Guest) {
    Return(g, ReturnOf(t.types[0]), host(Receive(f, ParameterClasses(t.types), 0, 0, 0)))
  }

  /** For every host function and every guest state, a call through the fast path leaves the guest as the
      slow path does, and the function has read exactly the arguments that the guest's standard assigns. */
  lemma FastCallIsSlowCall(g: Guest, t: Trampoline, host: HostFunction)
    requires FastAccepts(t) && !t.ellipsis
    ensures Scalar(SlowArguments(g, t))
    ensures Called(g, t, FastFrame(g, t), host) == Called(g, t, Place(EMPTY_FRAME, SlowArguments(g, t)), host)
    ensures Called(g, t, FastFrame(g, t), host) == Return(g, ReturnOf(t.types[0]), host(Fixed(g, t.types)))
  {
    FastFrameIsPlacement(g, t);
    var args := SlowArguments(g, t);
    assert args == Fixed(g, t.types);
    assert Classes(args) == ParameterClasses(t.types);
    ReceivesPlaced(EMPTY_FRAME, args);
  }

  predicate WithinRegisters(classes: seq<Class>, g: nat, v: nat)
    decreases |classes|
  {
    classes == [] ||
    (if classes[0] == General then g < 6 && WithinRegisters(classes[1..], g + 1, v)
     else v < 8 && WithinRegisters(classes[1..], g, v + 1))
  }

  lemma {:induction false} SameRegisters(f: Frame, h: Frame, classes: seq<Class>, g: nat, v: nat)
    requires WithinRegisters(classes, g, v) && f.general == h.general && f.vector == h.vector
    ensures Receive(f, classes, g, v, 0) == Receive(h, classes, g, v, 0)
    decreases |classes|
  {
    if classes != [] {
      if classes[0] == General {
        SameRegisters(f, h, classes[1..], g + 1, v);
      } else {
        SameRegisters(f, h, classes[1..], g, v + 1);
      }
    }
  }

  // ----- ellipsis functions -----

  /** What a function with an ellipsis keeps of the registers it was called with: the vector registers are
      saved for later only if the caller announced some in %al; otherwise there is anything in their place. */
  function Saved(f: Frame, al: byte, junk: seq<u64>): (r: Frame) {
    if al == 0 then f.(vector := junk) else f
  }

  /** What such a function reads: its named parameters, then arguments of the classes it asks for. */
  function VariadicView(f: Frame, al: byte, junk: seq<u64>, types: seq<ArgType>, extra: seq<Class>): (args: seq<Value>)
    requires |types| > 0
  {
    Receive(f, ParameterClasses(types), 0, 0, 0)
      + Receive(Saved(f, al, junk), extra, Generals(types, |types|), Vectors(types, |types|), 0)
  }

  /** The emitted code does not set %al. A far call leaves the low byte of the function's address there, a
      near call whatever was there before. */
  function LeftInAl(address: u64, far: bool, before: byte): (al: byte) {
    if far then address % 256 else before
  }

  /** The function reads the same on both paths, whatever the guest and whatever lay in its own frame. The
      library behind the slow path announces eight vector registers. */
  ghost predicate EllipsisAgrees(t: Trampoline, al: byte, extra: seq<Class>)
    requires FastAccepts(t)
  {
    forall g: Guest, junk: seq<u64> :: EllipsisAgreesOn(g, t, al, junk, extra)
  }

  ghost predicate EllipsisAgreesOn(g: Guest, t: Trampoline, al: byte, junk: seq<u64>, extra: seq<Class>)
    requires FastAccepts(t)
  {
    Scalar(SlowArguments(g, t)) &&
    VariadicView(FastFrame(g, t), al, junk, t.types, extra)
      == VariadicView(Place(EMPTY_FRAME, SlowArguments(g, t)), 8, junk, t.types, extra)
  }

  predicate IntegersOnly(classes: seq<Class>) {
    forall i :: 0 <= i < |classes| ==> classes[i] == General
  }

  lemma {:induction false} SameIntegers(f: Frame, h: Frame, classes: seq<Class>, g: nat, v: nat)
    requires WithinRegisters(classes, g, v) && IntegersOnly(classes) && f.general == h.general
    ensures Receive(f, classes, g, v, 0) == Receive(h, classes, g, v, 0)
    decreases |classes|
  {
    if classes != [] {
      SameIntegers(f, h, classes[1..], g + 1, v);
    }
  }

  /** If every vector register differs, whatever reads one differs. */
  lemma {:induction false} OtherFloats(f: Frame, h: Frame, classes: seq<Class>, g: nat, v: nat)
    requires WithinRegisters(classes, g, v) && !IntegersOnly(classes) && f.general == h.general
    requires forall k :: 0 <= k < 8 ==> At(f.vector, k) != At(h.vector, k)
    ensures Receive(f, classes, g, v, 0) != Receive(h, classes, g, v, 0)
    decreases |classes|
  {
    if classes[0] == General {
      OtherFloats(f, h, classes[1..], g + 1, v);
      assert Receive(f, classes, g, v, 0)[1..] == Receive(f, classes[1..], g + 1, v, 0);
      assert Receive(h, classes, g, v, 0)[1..] == Receive(h, classes[1..], g + 1, v, 0);
    } else {
      assert Receive(f, classes, g, v, 0)[0] != Receive(h, classes, g, v, 0)[0];
    }
  }

  lemma {:induction false} ParametersFit(types: seq<ArgType>, i: nat)
    requires 1 <= i <= |types| && ScalarTypes(types)
    requires Generals(types, |types|) <= 6 && Vectors(types, |types|) <= 8
    ensures Generals(types, i) <= 6 && Vectors(types, i) <= 8
    ensures WithinRegisters(ParameterClasses(types)[i - 1..], Generals(types, i), Vectors(types, i))
    decreases |types| - i
  {
    CountsGrow(types, i, |types|);
    if i < |types| {
      ParametersFit(types, i + 1);
      CountsGrow(types, i + 1, |types|);
      assert ParameterClasses(types)[i - 1..][1..] == ParameterClasses(types)[i..];
    }
  }

  /** The named parameters are the same on both paths, and the slow path's vector registers are loaded by
      the fast path too. */
  lemma EllipsisFrames(g: Guest, t: Trampoline)
    requires FastAccepts(t) && t.ellipsis
    ensures Scalar(SlowArguments(g, t))
    ensures var slow := Place(EMPTY_FRAME, SlowArguments(g, t));
            && FastFrame(g, t).general == slow.general && FastFrame(g, t).vector == slow.vector == Lows(g, 8)
            && Receive(FastFrame(g, t), ParameterClasses(t.types), 0, 0, 0) == Receive(slow, ParameterClasses(t.types), 0, 0, 0)
  {
    FastFrameIsPlacement(g, t);
    ParametersFit(t.types, 1);
    assert ParameterClasses(t.types)[0..] == ParameterClasses(t.types);
    SameRegisters(FastFrame(g, t), Place(EMPTY_FRAME, SlowArguments(g, t)), ParameterClasses(t.types), 0, 0);
  }

  lemma EllipsisAgreesHere(g: Guest, t: Trampoline, al: byte, junk: seq<u64>, extra: seq<Class>)
    requires FastAccepts(t) && t.ellipsis && WithinRegisters(extra, Generals(t.types, |t.types|), Vectors(t.types, |t.types|))
    requires al != 0 || IntegersOnly(extra)
    ensures EllipsisAgreesOn(g, t, al, junk, extra)
  {
    EllipsisFrames(g, t);
    var x, v := Generals(t.types, |t.types|), Vectors(t.types, |t.types|);
    var slow := Place(EMPTY_FRAME, SlowArguments(g, t));
    if al != 0 {
      SameRegisters(FastFrame(g, t), slow, extra, x, v);
    } else {
      SameIntegers(Saved(FastFrame(g, t), al, junk), slow, extra, x, v);
    }
  }

  /** A guest that passes ones in its vector registers. */
  function Ones(): (g: Guest) {
    RawGuest(seq(31, _ => 0), seq(32, _ => VectorRegister(1, 0)), _ => 0)
  }

  lemma EllipsisDiffers(t: Trampoline, extra: seq<Class>)
    requires FastAccepts(t) && t.ellipsis && WithinRegisters(extra, Generals(t.types, |t.types|), Vectors(t.types, |t.types|))
    requires !IntegersOnly(extra)
    ensures !EllipsisAgreesOn(Ones(), t, 0, [], extra)
  {
    var g := Ones();
    EllipsisFrames(g, t);
    var fast, slow := FastFrame(g, t), Place(EMPTY_FRAME, SlowArguments(g, t));
    assert forall k :: 0 <= k < 8 ==> At(Lows(g, 8), k) == 1;
    OtherFloats(Saved(fast, 0, []), slow, extra, Generals(t.types, |t.types|), Vectors(t.types, |t.types|));
    var named := Receive(fast, ParameterClasses(t.types), 0, 0, 0);
    assert VariadicView(fast, 0, [], t.types, extra)[|named|..] != VariadicView(slow, 8, [], t.types, extra)[|named|..];
  }

  /** An ellipsis function that asks for no more than the registers hold reads the same on both paths if and
      only if a nonzero byte is left in %al or it asks for integers only. */
  lemma FastEllipsisCall(t: Trampoline, address: u64, far: bool, before: byte, extra: seq<Class>)
    requires FastAccepts(t) && t.ellipsis && WithinRegisters(extra, Generals(t.types, |t.types|), Vectors(t.types, |t.types|))
    ensures EllipsisAgrees(t, LeftInAl(address, far, before), extra) <==> LeftInAl(address, far, before) != 0 || IntegersOnly(extra)
  {
    var al := LeftInAl(address, far, before);
    if al != 0 || IntegersOnly(extra) {
      forall g: Guest, junk: seq<u64> ensures EllipsisAgreesOn(g, t, al, junk, extra) {
        EllipsisAgreesHere(g, t, al, junk, extra);
      }
    } else {
      EllipsisDiffers(t, extra);
    }
  }

  /** A function that prints by a format, at an address divisible by 256 and called from afar: it does not get
      the number it is to print. */
  lemma FloatNotPrinted(before: byte)
    ensures var format := Trampoline([SignedWord, Pointer], true, false);
            FastAccepts(format) && !EllipsisAgrees(format, LeftInAl(0x7F00_0000_0100, true, before), [Vector])
  {
    var format := Trampoline([SignedWord, Pointer], true, false);
    assert FastAccepts(format) && WithinRegisters([Vector], 1, 0);
    FastEllipsisCall(format, 0x7F00_0000_0100, true, before, [Vector]);
  }
}
