/** Guest code calls host functions, which call back into guest code on nested fibers, to any depth. What
    guest code does between two supervisor calls is an arbitrary change of its registers; the trees below
    range over everything that can happen. */
module Fibers {
  import opened Bytes
  import opened CallMarshalling

  datatype RawRegisters = Registers(x: seq<u64>, v: seq<VectorRegister>, sp: u64, pc: u64)
  type Registers = r: RawRegisters | |r.x| == 31 && |r.v| == 32
    witness Registers(seq(31, _ => 0), seq(32, _ => VectorRegister(0, 0)), 0, 0)

  /** x19 to x30, the stack pointer, the program counter and the low halves of v8 to v15. */
  datatype RawSaved = Saved(x: seq<u64>, sp: u64, pc: u64, d: seq<u64>)
  type Saved = s: RawSaved | |s.x| == 12 && |s.d| == 8
    witness Saved(seq(12, _ => 0), 0, 0, seq(8, _ => 0))

  function Save(r: Registers): (s: Saved) {
    Saved(r.x[19..31], r.sp, r.pc, seq(8, i requires 0 <= i < 8 => r.v[8 + i].low))
  }

  function Restore(r: Registers, s: Saved): (t: Registers) {
    Registers(r.x[..19] + s.x, seq(32, i requires 0 <= i < 32 => if 8 <= i < 16 then r.v[i].(low := s.d[i - 8]) else r.v[i]), s.sp, s.pc)
  }

  /** Restoring brings back exactly what was saved, leaves every other register alone, and undoes nothing
      if nothing changed. */
  lemma SaveRestore(r: Registers, s: Saved)
    ensures Save(Restore(r, s)) == s
    ensures Restore(r, s).x[..19] == r.x[..19]
    ensures forall i :: 0 <= i < 32 ==> Restore(r, s).v[i].high == r.v[i].high
    ensures forall i :: 0 <= i < 32 && !(8 <= i < 16) ==> Restore(r, s).v[i] == r.v[i]
    ensures Restore(r, Save(r)) == r
  {
    assert Restore(r, Save(r)).x == r.x;
    assert Restore(r, Save(r)).v == r.v;
    assert Save(Restore(r, s)).x == s.x && Save(Restore(r, s)).d == s.d;
  }

  /** The saved state is the same exactly if x19 to x30, the stack pointer, the program counter and d8 to d15 are. */
  lemma SavedState(r: Registers, t: Registers)
    ensures Save(r) == Save(t) <==>
            && r.sp == t.sp && r.pc == t.pc
            && (forall k :: 19 <= k <= 30 ==> r.x[k] == t.x[k]) && (forall k :: 8 <= k <= 15 ==> r.v[k].low == t.v[k].low)
  {
    var s, u := Save(r), Save(t);
    assert forall k :: 19 <= k <= 30 ==> s.x[k - 19] == r.x[k] && u.x[k - 19] == t.x[k];
    assert forall k :: 8 <= k <= 15 ==> s.d[k - 8] == r.v[k].low && u.d[k - 8] == t.v[k].low;
    if r.sp == t.sp && r.pc == t.pc && (forall k :: 19 <= k <= 30 ==> r.x[k] == t.x[k]) && (forall k :: 8 <= k <= 15 ==> r.v[k].low == t.v[k].low) {
      assert forall k :: 0 <= k < 12 ==> s.x[k] == r.x[k + 19] && u.x[k] == t.x[k + 19];
      assert s.x == u.x && s.d == u.d;
    }
  }

  // ----- trees of calls -----

  datatype Kind = Root | Callee

  /** What one stretch of guest code does to the registers. */
  type Change = Registers -> Registers

  /** The register file has a place for each argument, from the given ones on. */
  predicate Fits(args: seq<Value>, xi: nat, vi: nat) {
    Scalar(args) && xi + |BitsOf(args, General)| <= 31 && vi + |BitsOf(args, Vector)| <= 32
  }

  /** Callback arguments: as many as there are registers, although the standard passes only eight of each kind
      in them. */
  type Arguments = a: seq<Value> | Fits(a, 0, 0) witness []

  /** An execution loop: stretches of guest code, each ended by a supervisor call, and a last one that
      reaches the exit. */
  datatype Loop = Exit(change: Change) | Turn(change: Change, call: Host, rest: Loop)

  /** A host function: callbacks one after the other and then its return, or one of the two jumps. */
  datatype Host =
    | Done(result: ReturnClass, bits: u64)
    | Callback(kind: Kind, address: u64, args: Arguments, body: Loop, rest: Host)
    | SetJmp(context: u64)
    | LongJmp(context: u64, value: int)

  /** The registers of one thread, the jump buffers in guest memory, and the address guest code returns to. */
  datatype Machine = Machine(r: Registers, jumps: map<u64, Saved>, exit: u64)

  function SetX(r: Registers, i: nat, bits: u64): (t: Registers)
    requires i < 31
  {
    r.(x := r.x[i := bits])
  }

  function SetLow(r: Registers, i: nat, bits: u64): (t: Registers)
    requires i < 32
  {
    r.(v := r.v[i := r.v[i].(low := bits)])
  }

  /** Arguments from the left into x0, x1, … and v0, v1, …. */
  function PlaceArguments(r: Registers, args: seq<Value>, xi: nat, vi: nat): (t: Registers)
    requires Fits(args, xi, vi)
    decreases |args|
  {
    if args == [] then r
    else if args[0].Integer? then PlaceArguments(SetX(r, xi, args[0].bits), args[1..], xi + 1, vi)
    else PlaceArguments(SetLow(r, vi, args[0].bits), args[1..], xi, vi + 1)
  }

  function Enter(m: Machine, address: u64, args: Arguments): (r: Registers) {
    SetX(PlaceArguments(m.r, args, 0, 0), 30, m.exit).(pc := address)
  }

  function Result(r: Registers, c: ReturnClass, bits: u64): (t: Registers) {
    match c
    case ReturnsInteger => SetX(r, 0, bits)
    case ReturnsFloat => SetLow(r, 0, bits)
    case _ => r
  }

  /** An `int` as a register holds it. */
  function Extended(value: int): (b: u64) {
    value % 0x1_0000_0000_0000_0000
  }

  function RunLoop(m: Machine, l: Loop): (r: Machine)
    decreases l
  {
    match l
    case Exit(c) => m.(r := c(m.r))
    case Turn(c, h, rest) => RunLoop(Supervise(m.(r := c(m.r)), h), rest)
  }

  /** A supervisor call: the host function runs and its result is delivered. */
  function Supervise(m: Machine, h: Host): (r: Machine)
    decreases h
  {
    match h
    case Done(c, bits) => m.(r := Result(m.r, c, bits))
    case Callback(kind, address, args, body, rest) =>
      var inner := RunLoop(m.(r := Enter(m, address, args)), body);
      Supervise(Leave(kind, inner, Save(m.r)), rest)
    case SetJmp(context) => m.(r := SetX(m.r, 0, 0), jumps := m.jumps[context := Save(m.r)])
    case LongJmp(context, value) =>
      if context in m.jumps then m.(r := SetX(Restore(m.r, m.jumps[context]), 0, Extended(value))) else m
  }

  /** The end of a fiber: only a callee fiber puts back what it saved. */
  function Leave(kind: Kind, m: Machine, s: Saved): (r: Machine) {
    if kind == Callee then m.(r := Restore(m.r, s)) else m
  }

  // ----- transparency -----

  /** The host function itself uses only callee fibers and does not jump; what happens inside its
      callbacks does not matter. */
  predicate Returns(h: Host)
    decreases h
  {
    match h
    case Callback(kind, _, _, _, rest) => kind == Callee && Returns(rest)
    case LongJmp(_, _) => false
    case _ => true
  }

  lemma ResultKeepsSaved(r: Registers, c: ReturnClass, bits: u64)
    ensures Save(Result(r, c, bits)) == Save(r)
  {
    assert Save(Result(r, c, bits)).x == Save(r).x && Save(Result(r, c, bits)).d == Save(r).d;
  }

  /** Every supervisor call returns with the callee-saved registers, the stack pointer and the program
      counter as they were, whatever the callbacks, and the calls nested in them, do. */
  lemma {:induction false} SupervisorCallTransparent(m: Machine, h: Host)
    requires Returns(h)
    ensures Save(Supervise(m, h).r) == Save(m.r)
    decreases h
  {
    match h
    case Done(c, bits) => ResultKeepsSaved(m.r, c, bits);
    case Callback(kind, address, args, body, rest) =>
      var inner := RunLoop(m.(r := Enter(m, address, args)), body);
      SaveRestore(inner.r, Save(m.r));
      SupervisorCallTransparent(Leave(kind, inner, Save(m.r)), rest);
    case SetJmp(context) => ResultKeepsSaved(m.r, ReturnsInteger, 0);
  }

  /** The value of a host function arrives in x0 or the low half of v0. */
  lemma {:induction false} SupervisorCallResult(m: Machine, h: Host, c: ReturnClass, bits: u64)
    requires Outcome(h) == Done(c, bits)
    ensures c == ReturnsInteger ==> Supervise(m, h).r.x[0] == bits
    ensures c == ReturnsFloat ==> Supervise(m, h).r.v[0].low == bits
    decreases h
  {
    if h.Callback? {
      var inner := RunLoop(m.(r := Enter(m, h.address, h.args)), h.body);
      SupervisorCallResult(Leave(h.kind, inner, Save(m.r)), h.rest, c, bits);
    }
  }

  /** How a host function ends. */
  function Outcome(h: Host): (o: Host)
    decreases h
  {
    match h
    case Callback(_, _, _, _, rest) => Outcome(rest)
    case _ => h
  }

  function MoveStack(r: Registers): (t: Registers) {
    r.(sp := 16)
  }

  /** A root fiber does not restore: this one leaves another stack pointer behind. */
  lemma RootFiberLeaks(m: Machine)
    requires m.r.sp == 0
    ensures Save(Supervise(m, Callback(Root, 0, [], Exit(MoveStack), Done(ReturnsVoid, 0))).r) != Save(m.r)
  {
    var h := Callback(Root, 0, [], Exit(MoveStack), Done(ReturnsVoid, 0));
    assert RunLoop(m.(r := Enter(m, 0, [])), h.body).r.sp == 16;
    assert Supervise(m, h).r.sp == 16;
  }

  // ----- jumps -----

  /** No `setjmp` on a buffer anywhere in a tree. */
  predicate LoopSpares(l: Loop, context: u64)
    decreases l
  {
    match l
    case Exit(_) => true
    case Turn(_, h, rest) => HostSpares(h, context) && LoopSpares(rest, context)
  }

  predicate HostSpares(h: Host, context: u64)
    decreases h
  {
    match h
    case Callback(_, _, _, body, rest) => LoopSpares(body, context) && HostSpares(rest, context)
    case SetJmp(c) => c != context
    case _ => true
  }

  lemma {:induction false} LoopKeepsJump(m: Machine, l: Loop, context: u64)
    requires LoopSpares(l, context) && context in m.jumps
    ensures context in RunLoop(m, l).jumps && RunLoop(m, l).jumps[context] == m.jumps[context]
    decreases l
  {
    if l.Turn? {
      var n := m.(r := l.change(m.r));
      HostKeepsJump(n, l.call, context);
      LoopKeepsJump(Supervise(n, l.call), l.rest, context);
    }
  }

  lemma {:induction false} HostKeepsJump(m: Machine, h: Host, context: u64)
    requires HostSpares(h, context) && context in m.jumps
    ensures context in Supervise(m, h).jumps && Supervise(m, h).jumps[context] == m.jumps[context]
    decreases h
  {
    if h.Callback? {
      var n := m.(r := Enter(m, h.address, h.args));
      LoopKeepsJump(n, h.body, context);
      HostKeepsJump(Leave(h.kind, RunLoop(n, h.body), Save(m.r)), h.rest, context);
    }
  }

  /** Any number of turns of an execution loop. */
  function Turns(m: Machine, ts: seq<(Change, Host)>): (r: Machine)
    decreases |ts|
  {
    if ts == [] then m else Turns(Supervise(m.(r := ts[0].0(m.r)), ts[0].1), ts[1..])
  }

  predicate TurnsSpare(ts: seq<(Change, Host)>, context: u64) {
    forall i :: 0 <= i < |ts| ==> HostSpares(ts[i].1, context)
  }

  lemma {:induction false} TurnsKeepJump(m: Machine, ts: seq<(Change, Host)>, context: u64)
    requires TurnsSpare(ts, context) && context in m.jumps
    ensures context in Turns(m, ts).jumps && Turns(m, ts).jumps[context] == m.jumps[context]
    decreases |ts|
  {
    if ts != [] {
      var n := m.(r := ts[0].0(m.r));
      HostKeepsJump(n, ts[0].1, context);
      TurnsKeepJump(Supervise(n, ts[0].1), ts[1..], context);
    }
  }

  lemma JumpRestores(m: Machine, context: u64, value: int)
    requires context in m.jumps
    ensures var j := Supervise(m, LongJmp(context, value)); Save(j.r) == m.jumps[context] && j.r.x[0] == Extended(value)
  {
    var r := Restore(m.r, m.jumps[context]);
    SaveRestore(m.r, m.jumps[context]);
    ResultKeepsSaved(r, ReturnsInteger, Extended(value));
  }

  /** `longjmp` after any turns of the same loop that leave the buffer alone: the saved state is that of the
      `setjmp`, and x0 holds the given value where the `setjmp` had left zero. */
  lemma LongJumpReturnsToSetJump(m: Machine, ts: seq<(Change, Host)>, context: u64, value: int, last: Change)
    requires TurnsSpare(ts, context)
    ensures var first := Supervise(m, SetJmp(context));
            var late := Turns(first, ts);
            var second := Supervise(late.(r := last(late.r)), LongJmp(context, value));
            && Save(first.r) == Save(second.r) == Save(m.r)
            && first.r.x[0] == 0 && second.r.x[0] == Extended(value)
  {
    var first := Supervise(m, SetJmp(context));
    SupervisorCallTransparent(m, SetJmp(context));
    TurnsKeepJump(first, ts, context);
    var late := Turns(first, ts);
    JumpRestores(late.(r := last(late.r)), context, value);
  }

  // ----- what guest code goes on with -----

  /** An execution loop from its turns and the last stretch of guest code. */
  function LoopOf(ts: seq<(Change, Host)>, last: Change): (l: Loop)
    decreases |ts|
  {
    if ts == [] then Exit(last) else Turn(ts[0].0, ts[0].1, LoopOf(ts[1..], last))
  }

  /** A supervisor call made in `m` was served, and guest code goes on in `n`: with the value of the host
      function in x0 or d0, after a `setjmp` with its state in the buffer, and after a `longjmp` with the state
      of the buffer. A call that returns leaves the callee-saved state alone, and one without callbacks leaves
      everything else alone. */
  ghost predicate Served(m: Machine, h: Host, n: Machine) {
    && (Returns(h) ==> Save(n.r) == Save(m.r))
    && (Outcome(h).Done? ==>
          && (Outcome(h).result == ReturnsInteger ==> n.r.x[0] == Outcome(h).bits)
          && (Outcome(h).result == ReturnsFloat ==> n.r.v[0].low == Outcome(h).bits))
    && (h.Done? ==>
          && n.jumps == m.jumps && n.r.x[1..] == m.r.x[1..] && n.r.v[1..] == m.r.v[1..] && n.r.v[0].high == m.r.v[0].high
          && (h.result != ReturnsInteger ==> n.r.x[0] == m.r.x[0]) && (h.result != ReturnsFloat ==> n.r.v[0] == m.r.v[0]))
    && (h.SetJmp? ==> n.r.x[0] == 0 && n.jumps == m.jumps[h.context := Save(m.r)])
    && (h.LongJmp? && h.context in m.jumps ==> Save(n.r) == m.jumps[h.context] && n.r.x[0] == Extended(h.value))
  }

  lemma CallServed(m: Machine, h: Host)
    ensures Served(m, h, Supervise(m, h))
  {
    if Returns(h) { SupervisorCallTransparent(m, h); }
    if Outcome(h).Done? { SupervisorCallResult(m, h, Outcome(h).result, Outcome(h).bits); }
    if h.LongJmp? && h.context in m.jumps { JumpRestores(m, h.context, h.value); }
  }

  ghost predicate ServedAt(states: seq<Machine>, ts: seq<(Change, Host)>, i: nat)
    requires i < |ts| && |states| == |ts| + 1
  {
    Served(states[i].(r := ts[i].0(states[i].r)), ts[i].1, states[i + 1])
  }

  /** An execution loop of any number of turns: each stretch of guest code starts where the last call was
      served, and the call it ends with is served before the next one starts. */
  lemma {:induction false} LoopServesCalls(m: Machine, ts: seq<(Change, Host)>, last: Change) returns (states: seq<Machine>)
    ensures |states| == |ts| + 1 && states[0] == m && forall i :: 0 <= i < |ts| ==> ServedAt(states, ts, i)
    ensures RunLoop(m, LoopOf(ts, last)) == states[|ts|].(r := last(states[|ts|].r))
    decreases |ts|
  {
    if ts == [] {
      states := [m];
    } else {
      var n := m.(r := ts[0].0(m.r));
      CallServed(n, ts[0].1);
      var rest := LoopServesCalls(Supervise(n, ts[0].1), ts[1..], last);
      states := [m] + rest;
      forall i | 0 <= i < |ts| ensures ServedAt(states, ts, i) {
        if i > 0 {
          assert ServedAt(rest, ts[1..], i - 1);
        }
      }
    }
  }

  /** The delivered value reads back as the `int` it was, so the second return is told apart from the first
      unless the value is zero: unlike the C library, this `longjmp` does not turn zero into one. */
  lemma SecondReturnDistinct(value: int)
    requires -0x8000_0000 <= value < 0x8000_0000
    ensures (if Extended(value) < 0x8000_0000_0000_0000 then Extended(value) else Extended(value) - 0x1_0000_0000_0000_0000) == value
    ensures Extended(value) != 0 <==> value != 0
  {}

  // ----- arguments of callbacks -----

  function TypesOf(args: seq<Value>): (ts: seq<ArgType>)
    ensures |ts| == |args| + 1
  {
    [NoType] + seq(|args|, i requires 0 <= i < |args| => if args[i].Integer? then UnsignedDoubleword else DoublePrecision)
  }

  /** The guest as its procedure call standard sees it, with any stack. */
  function GuestOf(r: Registers, stack: nat -> u64): (g: Guest) {
    RawGuest(r.x, r.v, stack)
  }

  /** Arguments of the same classes with the same bits per class are the same. */
  lemma {:induction false} SameArguments(a: seq<Value>, b: seq<Value>)
    requires Scalar(a) && Scalar(b) && Classes(a) == Classes(b)
    requires BitsOf(a, General) == BitsOf(b, General) && BitsOf(a, Vector) == BitsOf(b, Vector)
    ensures a == b
    decreases |a|
  {
    assert |a| == |Classes(a)| == |b|;
    if a != [] {
      assert ClassOfValue(a[0]) == Classes(a)[0] == Classes(b)[0] == ClassOfValue(b[0]);
      assert Classes(a[1..]) == Classes(a)[1..] && Classes(b[1..]) == Classes(b)[1..];
      BitsTail(a);
      BitsTail(b);
      if a[0].Integer? {
        SameHeads(a[0].bits, BitsOf(a[1..], General), b[0].bits, BitsOf(b[1..], General));
      } else {
        SameHeads(a[0].bits, BitsOf(a[1..], Vector), b[0].bits, BitsOf(b[1..], Vector));
      }
      SameArguments(a[1..], b[1..]);
    }
  }

  lemma SameHeads(x: u64, a: seq<u64>, y: u64, b: seq<u64>)
    requires [x] + a == [y] + b
    ensures x == y && a == b
  {
    assert ([x] + a)[0] == x && ([x] + a)[1..] == a;
    assert ([y] + b)[0] == y && ([y] + b)[1..] == b;
  }

  lemma BitsTail(a: seq<Value>)
    requires a != [] && Scalar(a)
    ensures a[0].Integer? ==> BitsOf(a, General) == [a[0].bits] + BitsOf(a[1..], General) && BitsOf(a, Vector) == BitsOf(a[1..], Vector)
    ensures a[0].Float? ==> BitsOf(a, Vector) == [a[0].bits] + BitsOf(a[1..], Vector) && BitsOf(a, General) == BitsOf(a[1..], General)
  {}

  function LowHalves(r: Registers, from: nat, to: nat): (s: seq<u64>)
    requires from <= to <= 32
  {
    seq<u64>(to - from, i requires 0 <= i < to - from => r.v[from + i].low)
  }

  /** Placing fills the registers from the given ones on, and none below. */
  lemma {:induction false} PlacedBits(r: Registers, args: seq<Value>, xi: nat, vi: nat)
    requires Fits(args, xi, vi)
    ensures var t := PlaceArguments(r, args, xi, vi);
            var nx, nv := |BitsOf(args, General)|, |BitsOf(args, Vector)|;
            t.x[..xi] == r.x[..xi] && t.x[xi..xi + nx] == BitsOf(args, General)
            && LowHalves(t, 0, vi) == LowHalves(r, 0, vi) && LowHalves(t, vi, vi + nv) == BitsOf(args, Vector)
    decreases |args|
  {
    if args != [] {
      BitsTail(args);
      if args[0].Integer? {
        PlacedInteger(r, args, xi, vi);
      } else {
        PlacedFloat(r, args, xi, vi);
      }
    }
  }

  lemma {:induction false} PlacedInteger(r: Registers, args: seq<Value>, xi: nat, vi: nat)
    requires Fits(args, xi, vi) && args != [] && args[0].Integer?
    ensures var t := PlaceArguments(r, args, xi, vi);
            var nx, nv := |BitsOf(args, General)|, |BitsOf(args, Vector)|;
            t.x[..xi] == r.x[..xi] && t.x[xi..xi + nx] == BitsOf(args, General)
            && LowHalves(t, 0, vi) == LowHalves(r, 0, vi) && LowHalves(t, vi, vi + nv) == BitsOf(args, Vector)
    decreases |args|, 0
  {
    var t, r' := PlaceArguments(r, args, xi, vi), SetX(r, xi, args[0].bits);
    PlacedBits(r', args[1..], xi + 1, vi);
    BitsTail(args);
    var nx := |BitsOf(args[1..], General)|;
    assert t.x[..xi] == t.x[..xi + 1][..xi] && t.x[xi] == t.x[..xi + 1][xi] == r'.x[xi];
    assert t.x[xi..xi + 1 + nx] == [t.x[xi]] + t.x[xi + 1..xi + 1 + nx];
    assert LowHalves(r', 0, vi) == LowHalves(r, 0, vi);
  }

  lemma {:induction false} PlacedFloat(r: Registers, args: seq<Value>, xi: nat, vi: nat)
    requires Fits(args, xi, vi) && args != [] && args[0].Float?
    ensures var t := PlaceArguments(r, args, xi, vi);
            var nx, nv := |BitsOf(args, General)|, |BitsOf(args, Vector)|;
            t.x[..xi] == r.x[..xi] && t.x[xi..xi + nx] == BitsOf(args, General)
            && LowHalves(t, 0, vi) == LowHalves(r, 0, vi) && LowHalves(t, vi, vi + nv) == BitsOf(args, Vector)
    decreases |args|, 0
  {
    var t, r' := PlaceArguments(r, args, xi, vi), SetLow(r, vi, args[0].bits);
    PlacedBits(r', args[1..], xi, vi + 1);
    BitsTail(args);
    var nv := |BitsOf(args[1..], Vector)|;
    assert t.v[vi].low == LowHalves(t, 0, vi + 1)[vi] == LowHalves(r', 0, vi + 1)[vi] == args[0].bits;
    assert LowHalves(t, vi, vi + 1 + nv) == [t.v[vi].low] + LowHalves(t, vi + 1, vi + 1 + nv);
    assert LowHalves(t, 0, vi) == LowHalves(t, 0, vi + 1)[..vi];
    assert LowHalves(r', 0, vi + 1)[..vi] == LowHalves(r, 0, vi);
  }

  lemma {:induction false} CountsOfTypes(args: seq<Value>, i: nat)
    requires Scalar(args) && i <= |args|
    ensures Generals(TypesOf(args), i + 1) == |BitsOf(args[..i], General)|
    ensures Vectors(TypesOf(args), i + 1) == |BitsOf(args[..i], Vector)|
  {
    if i > 0 {
      CountsOfTypes(args, i - 1);
      assert args[..i] == args[..i - 1] + [args[i - 1]];
      BitsSnoc(args[..i - 1], args[i - 1], General);
      BitsSnoc(args[..i - 1], args[i - 1], Vector);
    }
  }

  lemma EnteredBits(m: Machine, address: u64, args: Arguments, r: Registers, nx: nat, nv: nat)
    requires r == Enter(m, address, args) && nx == |BitsOf(args, General)| && nv == |BitsOf(args, Vector)|
    ensures LowHalves(r, 0, nv) == BitsOf(args, Vector) && (nx <= 30 ==> r.x[..nx] == BitsOf(args, General))
  {
    var t := PlaceArguments(m.r, args, 0, 0);
    PlacedBits(m.r, args, 0, 0);
    assert nx <= 30 ==> r.x[..nx] == t.x[..nx] == t.x[0..nx];
    assert LowHalves(r, 0, nv) == LowHalves(t, 0, nv);
  }

  lemma AssignedClasses(g: Guest, args: Arguments, got: seq<Value>)
    requires got == Fixed(g, TypesOf(args))
    ensures Classes(got) == Classes(args) && Scalar(got)
  {
    assert forall i :: 0 <= i < |args| ==> ClassOfValue(got[i]) == ClassOfValue(args[i]);
  }

  /** At most eight of each kind. */
  predicate InRegisters(args: seq<Value>) {
    |BitsOf(args, General)| <= 8 && |BitsOf(args, Vector)| <= 8
  }

  /** What the standard assigns has the bits of the registers, class by class. */
  lemma AssignedByClass(g: Guest, args: Arguments, got: seq<Value>)
    requires InRegisters(args) && got == Fixed(g, TypesOf(args))
    ensures BitsOf(got, General) == g.x[..|BitsOf(args, General)|] && BitsOf(got, Vector) == Lows(g, |BitsOf(args, Vector)|)
  {
    var n := |args|;
    CountsOfTypes(args, n);
    assert args[..n] == args && got[..n] == got;
    FixedBits(g, TypesOf(args), n + 1);
  }

  /** A callback finds the arguments it was given where its own procedure call standard looks for them. */
  ghost predicate Receives(m: Machine, address: u64, args: Arguments, stack: nat -> u64) {
    Fixed(GuestOf(Enter(m, address, args), stack), TypesOf(args)) == args
  }

  lemma InRegistersReceived(m: Machine, address: u64, args: Arguments, stack: nat -> u64)
    requires InRegisters(args)
    ensures Receives(m, address, args, stack)
  {
    var r := Enter(m, address, args);
    var nx, nv := |BitsOf(args, General)|, |BitsOf(args, Vector)|;
    var g := GuestOf(r, stack);
    var got := Fixed(g, TypesOf(args));
    EnteredBits(m, address, args, r, nx, nv);
    AssignedClasses(g, args, got);
    AssignedByClass(g, args, got);
    assert Lows(g, nv) == LowHalves(r, 0, nv);
    SameArguments(got, args);
  }

  /** The ninth argument of a class that has so many. */
  lemma {:induction false} Ninth(args: seq<Value>, c: Class, n: nat) returns (i: nat)
    requires n <= |args| && |BitsOf(args[..n], c)| > 8
    ensures i < n && ClassOfValue(args[i]) == c && |BitsOf(args[..i], c)| == 8
    decreases n
  {
    assert args[..n] == args[..n - 1] + [args[n - 1]];
    BitsSnoc(args[..n - 1], args[n - 1], c);
    if |BitsOf(args[..n - 1], c)| > 8 {
      i := Ninth(args, c, n - 1);
    } else {
      i := n - 1;
    }
  }

  /** It is looked for on the stack, where nothing was put. */
  lemma NinthMissed(m: Machine, address: u64, args: Arguments, c: Class) returns (stack: nat -> u64)
    requires c in {General, Vector} && |BitsOf(args, c)| > 8
    ensures !Receives(m, address, args, stack)
  {
    assert args[..|args|] == args;
    var i := Ninth(args, c, |args|);
    var other: u64 := if args[i].bits == 0 then 1 else 0;
    stack := (k: nat) => other;
    CountsOfTypes(args, i);
    var g := GuestOf(Enter(m, address, args), stack);
    assert Fixed(g, TypesOf(args))[i] == Assigned(g, TypesOf(args), i + 1);
    assert AssignedBits(g, TypesOf(args), i + 1) == other;
  }

  /** A callback receives its arguments, from every state and with every stack, if and only if they are at most
      eight of each kind. */
  lemma CallbackReceivesArguments(m: Machine, address: u64, args: Arguments)
    ensures (forall stack: nat -> u64 :: Receives(m, address, args, stack)) <==> InRegisters(args)
    ensures var r := Enter(m, address, args); r.pc == address && r.x[30] == m.exit
  {
    if InRegisters(args) {
      forall stack: nat -> u64 ensures Receives(m, address, args, stack) {
        InRegistersReceived(m, address, args, stack);
      }
    } else {
      var stack := NinthMissed(m, address, args, if |BitsOf(args, General)| > 8 then General else Vector);
    }
  }

  // ----- what callbacks start and end with -----

  /** Placing changes no register beyond those it fills. */
  lemma {:induction false} PlacedElse(r: Registers, args: seq<Value>, xi: nat, vi: nat)
    requires Fits(args, xi, vi)
    ensures var t := PlaceArguments(r, args, xi, vi);
            var nx, nv := |BitsOf(args, General)|, |BitsOf(args, Vector)|;
            && t.sp == r.sp && t.pc == r.pc
            && (forall k :: 0 <= k < 31 && !(xi <= k < xi + nx) ==> t.x[k] == r.x[k])
            && (forall k :: 0 <= k < 32 ==> t.v[k].high == r.v[k].high)
            && (forall k :: 0 <= k < 32 && !(vi <= k < vi + nv) ==> t.v[k].low == r.v[k].low)
    decreases |args|
  {
    if args != [] {
      BitsTail(args);
      if args[0].Integer? {
        PlacedElse(SetX(r, xi, args[0].bits), args[1..], xi + 1, vi);
      } else {
        PlacedElse(SetLow(r, vi, args[0].bits), args[1..], xi, vi + 1);
      }
    }
  }

  /** One callback of a host function. */
  datatype Call = Call(kind: Kind, address: u64, args: Arguments, body: Loop)

  function HostOf(cs: seq<Call>, end: Host): (h: Host)
    decreases |cs|
  {
    if cs == [] then end else Callback(cs[0].kind, cs[0].address, cs[0].args, cs[0].body, HostOf(cs[1..], end))
  }

  /** A callback starts at its address with its arguments in the first registers of each kind and the exit in
      x30; every other register is as the host function found it. */
  ghost predicate StartsWith(m: Machine, c: Call, e: Registers) {
    var xs, ds := BitsOf(c.args, General), BitsOf(c.args, Vector);
    && e.pc == c.address && e.sp == m.r.sp && e.x[30] == m.exit
    && (forall k :: 0 <= k < 30 ==> e.x[k] == if k < |xs| then xs[k] else m.r.x[k])
    && (forall k :: 0 <= k < 32 ==> e.v[k].high == m.r.v[k].high && e.v[k].low == if k < |ds| then ds[k] else m.r.v[k].low)
  }

  /** When a callee fiber ends, the callee-saved state is as before and all else as the callback left it; a root
      fiber changes nothing back. */
  ghost predicate EndsWith(kind: Kind, m: Machine, inner: Machine, n: Machine) {
    && n.jumps == inner.jumps && n.exit == inner.exit
    && (kind == Root ==> n == inner)
    && (kind == Callee ==>
          && Save(n.r) == Save(m.r) && n.r.x[..19] == inner.r.x[..19]
          && forall k :: 0 <= k < 32 ==> n.r.v[k].high == inner.r.v[k].high && (8 <= k < 16 || n.r.v[k] == inner.r.v[k]))
  }

  lemma EntryStarts(m: Machine, c: Call)
    ensures StartsWith(m, c, Enter(m, c.address, c.args))
  {
    var e, t := Enter(m, c.address, c.args), PlaceArguments(m.r, c.args, 0, 0);
    var xs, ds := BitsOf(c.args, General), BitsOf(c.args, Vector);
    PlacedElse(m.r, c.args, 0, 0);
    PlacedBits(m.r, c.args, 0, 0);
    assert forall k :: 0 <= k < |xs| ==> t.x[k] == t.x[0..|xs|][k];
    assert forall k :: 0 <= k < |ds| ==> t.v[k].low == LowHalves(t, 0, |ds|)[k];
  }

  lemma FiberEnds(kind: Kind, m: Machine, inner: Machine)
    ensures EndsWith(kind, m, inner, Leave(kind, inner, Save(m.r)))
  {
    SaveRestore(inner.r, Save(m.r));
  }

  ghost predicate RanAt(states: seq<Machine>, entries: seq<Registers>, cs: seq<Call>, i: nat)
    requires i < |cs| == |entries| && |states| == |cs| + 1
  {
    && StartsWith(states[i], cs[i], entries[i])
    && EndsWith(cs[i].kind, states[i], RunLoop(states[i].(r := entries[i]), cs[i].body), states[i + 1])
  }

  /** A host function with any callbacks runs every one of them, in order, from where the one before left
      things, and then ends. */
  lemma {:induction false} CallbacksRun(m: Machine, cs: seq<Call>, end: Host) returns (states: seq<Machine>, entries: seq<Registers>)
    ensures |entries| == |cs| && |states| == |cs| + 1 && states[0] == m && forall i :: 0 <= i < |cs| ==> RanAt(states, entries, cs, i)
    ensures Supervise(m, HostOf(cs, end)) == Supervise(states[|cs|], end)
    decreases |cs|
  {
    if cs == [] {
      states, entries := [m], [];
    } else {
      var e := Enter(m, cs[0].address, cs[0].args);
      var inner := RunLoop(m.(r := e), cs[0].body);
      EntryStarts(m, cs[0]);
      FiberEnds(cs[0].kind, m, inner);
      var laterStates, laterEntries := CallbacksRun(Leave(cs[0].kind, inner, Save(m.r)), cs[1..], end);
      states, entries := [m] + laterStates, [e] + laterEntries;
      forall i | 0 <= i < |cs| ensures RanAt(states, entries, cs, i) {
        if i > 0 {
          assert RanAt(laterStates, laterEntries, cs[1..], i - 1);
        }
      }
    }
  }

  // ----- the machine as it runs -----

  class Jit {
    var r: Registers
    var jumps: map<u64, Saved>
    const exit: u64

    constructor (r: Registers, exit: u64)
      ensures View() == Machine(r, map[], exit)
    {
      this.r, jumps, this.exit := r, map[], exit;
    }

    ghost function View(): (m: Machine)
      reads this
    {
      Machine(r, jumps, exit)
    }

    /** Run until the exit, serving supervisor calls on the way. */
    method ExecutionLoop(l: Loop)
      modifies this
      ensures View() == RunLoop(old(View()), l)
      decreases l, 0
    {
      var rest := l;
      while rest.Turn?
        invariant rest == l || rest < l
        invariant RunLoop(View(), rest) == RunLoop(old(View()), l)
        decreases rest
      {
        r := rest.change(r);
        HandleCallSvc(rest.call);
        rest := rest.rest;
      }
      r := rest.change(r);
    }

    /** Serve one supervisor call. */
    method HandleCallSvc(h: Host)
      modifies this
      ensures View() == Supervise(old(View()), h)
      decreases h, 0
    {
      var rest := h;
      while rest.Callback?
        invariant rest == h || rest < h
        invariant Supervise(View(), rest) == Supervise(old(View()), h)
        decreases rest
      {
        RunFiber(rest.kind, rest.address, rest.args, rest.body);
        rest := rest.rest;
      }
      match rest
      case Done(c, bits) =>
        r := Result(r, c, bits);
      case SetJmp(context) =>
        jumps := jumps[context := Save(r)];
        r := SetX(r, 0, 0);
      case LongJmp(context, value) =>
        if context in jumps {
          r := SetX(Restore(r, jumps[context]), 0, Extended(value));
        }
    }

    /** A fiber from its construction to its destruction. */
    method RunFiber(kind: Kind, address: u64, args: Arguments, body: Loop)
      modifies this
      ensures View() == Leave(kind, RunLoop(old(View()).(r := Enter(old(View()), address, args)), body), Save(old(r)))
      decreases body, 1
    {
      var saved := Save(r);
      SetArguments(args);
      r := SetX(r, 30, exit);
      r := r.(pc := address);
      ExecutionLoop(body);
      if kind == Callee {
        r := Restore(r, saved);
      }
    }

    method SetArguments(args: Arguments)
      modifies this`r
      ensures r == PlaceArguments(old(r), args, 0, 0)
    {
      var xi: nat, vi: nat, i := 0, 0, 0;
      while i < |args|
        invariant 0 <= i <= |args| && Fits(args[i..], xi, vi)
        invariant PlaceArguments(r, args[i..], xi, vi) == PlaceArguments(old(r), args, 0, 0)
      {
        assert args[i..][1..] == args[i + 1..];
        if args[i].Integer? {
          r := SetX(r, xi, args[i].bits);
          xi := xi + 1;
        } else {
          r := SetLow(r, vi, args[i].bits);
          vi := vi + 1;
        }
        i := i + 1;
      }
    }
  }
}
