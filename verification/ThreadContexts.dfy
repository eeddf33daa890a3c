/** The lifetime of per-thread execution contexts. Each thread counts references to its context: one for
    its routine, one for every key it has set and one for a key destructor that is running. Threads take
    their steps in any order, and every run is covered. */
module ThreadContexts {

  const MAX_CPUS: nat := 64

  /** A thread library makes at least this many rounds of destructor calls while keys are still set: the
      constant PTHREAD_DESTRUCTOR_ITERATIONS of POSIX. */
  const DESTRUCTOR_ROUNDS: nat := 4

  // ----- processor ids -----

  /** The lowest free id, or the size of the table. */
  function FirstFree(used: seq<bool>): (id: nat)
    ensures id <= |used| && (id < |used| ==> !used[id]) && forall j :: 0 <= j < id ==> used[j]
  {
    if used == [] then 0 else if !used[0] then 0 else 1 + FirstFree(used[1..])
  }

  lemma FirstFreeUnique(used: seq<bool>, id: nat)
    requires id <= |used| && (id < |used| ==> !used[id]) && forall j :: 0 <= j < id ==> used[j]
    ensures id == FirstFree(used)
  {}

  class ProcessorPool {
    const used: array<bool>

    constructor ()
      ensures fresh(used) && used.Length == MAX_CPUS && used[..] == seq(MAX_CPUS, _ => false)
    {
      used := new bool[MAX_CPUS](_ => false);
    }

    /** Take the lowest free id; without one the process ends. */
    method Allocate() returns (ok: bool, id: nat)
      modifies used
      ensures id == FirstFree(old(used[..])) && (ok <==> id < used.Length)
      ensures used[..] == if ok then old(used[..])[id := true] else old(used[..])
    {
      id := 0;
      while id < used.Length
        invariant 0 <= id <= used.Length && forall j :: 0 <= j < id ==> used[j]
        invariant used[..] == old(used[..])
      {
        if !used[id] {
          FirstFreeUnique(used[..], id);
          used[id] := true;
          return true, id;
        }
        id := id + 1;
      }
      FirstFreeUnique(used[..], id);
      return false, id;
    }

    method Release(id: nat)
      requires id < used.Length
      modifies used
      ensures used[..] == old(used[..])[id := false]
    {
      used[id] := false;
    }
  }

  // ----- threads -----

  type Key = nat

  /** Guest code runs in the routine and in key destructors. */
  datatype Phase = Unstarted | Routine | Exiting | Destroying(key: Key) | Ended

  /** `slots` holds the nonzero values of the thread's keys; `frees` counts how often the context was freed.
      At exit, `round` counts the rounds of destructor calls, and `due` are the keys that were set when the
      round began and have not been taken up since. */
  datatype Thread = Thread(
    phase: Phase, refCount: int, slots: map<Key, nat>, live: bool, processor: nat, frees: nat, round: nat, due: set<Key>)

  const FRESH_THREAD := Thread(Unstarted, 1, map[], false, 0, 0, 0, {})

  /** All threads, the table of processor ids, and the keys with their guest destructors. */
  datatype World = World(threads: seq<Thread>, used: seq<bool>, keys: map<Key, nat>)

  predicate GuestRunning(t: Thread) {
    t.phase == Routine || t.phase.Destroying?
  }

  datatype Code = Success | InvalidKey | NoMemory

  /** `pthread_setspecific`: a null value drops the key and its reference, a first value adds one. */
  function SetSpecific(t: Thread, keys: map<Key, nat>, key: Key, value: nat, fails: bool): (r: (Thread, Code)) {
    if value == 0 then
      if key in t.slots then (t.(slots := t.slots - {key}, refCount := t.refCount - 1), Success) else (t, Success)
    else if key in t.slots then (t.(slots := t.slots[key := value]), Success)
    else if key !in keys then (t, InvalidKey)
    else if fails then (t, NoMemory)
    else (t.(slots := t.slots[key := value], refCount := t.refCount + 1), Success)
  }

  function GetSpecific(t: Thread, key: Key): (value: nat) {
    if key in t.slots then t.slots[key] else 0
  }

  /** What a thread or its host thread library does next. */
  datatype Action =
    | Start
    | CreateKey(key: Key, destructor: nat)
    | Set(key: Key, value: nat, fails: bool)
    | EndRoutine
    | Visit(key: Key)
    | EndDestructor
    | NextRound
    | End

  /** Drop one reference; the last one frees the context and its processor id. */
  function Drop(w: World, i: nat, phase: Phase): (r: World)
    requires i < |w.threads|
  {
    var t := w.threads[i];
    if t.refCount - 1 != 0 then w.(threads := w.threads[i := t.(phase := phase, refCount := t.refCount - 1)])
    else
      World(
        w.threads[i := t.(phase := phase, refCount := 0, live := false, frees := t.frees + 1)],
        if t.processor < |w.used| then w.used[t.processor := false] else w.used,
        w.keys)
  }

  /** A round of destructor calls begins with the keys that are set. */
  function BeginRound(w: World, i: nat): (r: World)
    requires i < |w.threads|
  {
    var t := w.threads[i];
    w.(threads := w.threads[i := t.(round := t.round + 1, due := t.slots.Keys)])
  }

  predicate RoundOver(t: Thread) {
    forall key :: key in t.due ==> key !in t.slots
  }

  /** An action is possible in its phase only. At thread exit the host library picks a key that is set,
      clears its slot and runs the destructor. It begins another round while keys are set, and gives up on
      them only after the rounds it owes; the order within a round, and further rounds, are its choice. */
  predicate Enabled(w: World, i: nat, a: Action) {
    i < |w.threads| &&
    match a
    case Start => w.threads[i].phase == Unstarted && FirstFree(w.used) < |w.used|
    case CreateKey(key, _) => GuestRunning(w.threads[i]) && key !in w.keys
    case Set(_, _, _) => GuestRunning(w.threads[i])
    case EndRoutine => w.threads[i].phase == Routine
    case Visit(key) => w.threads[i].phase == Exiting && key in w.threads[i].slots
    case EndDestructor => w.threads[i].phase.Destroying?
    case NextRound => w.threads[i].phase == Exiting && RoundOver(w.threads[i]) && w.threads[i].slots != map[]
    case End =>
      && w.threads[i].phase == Exiting
      && (w.threads[i].slots == map[] || (RoundOver(w.threads[i]) && w.threads[i].round >= DESTRUCTOR_ROUNDS))
  }

  function Act(w: World, i: nat, a: Action): (r: World)
    requires Enabled(w, i, a)
    ensures |r.threads| == |w.threads|
  {
    var t := w.threads[i];
    match a
    case Start =>
      var id := FirstFree(w.used);
      w.(threads := w.threads[i := t.(phase := Routine, live := true, processor := id)], used := w.used[id := true])
    case CreateKey(key, destructor) => w.(keys := w.keys[key := destructor])
    case Set(key, value, fails) => w.(threads := w.threads[i := SetSpecific(t, w.keys, key, value, fails).0])
    case EndRoutine => Drop(BeginRound(w, i), i, Exiting)
    case Visit(key) =>
      w.(threads := w.threads[i := t.(phase := Destroying(key), slots := t.slots - {key}, due := t.due - {key})])
    case EndDestructor => Drop(w, i, Exiting)
    case NextRound => BeginRound(w, i)
    case End => w.(threads := w.threads[i := t.(phase := Ended)])
  }

  predicate Possible(w: World, steps: seq<(nat, Action)>)
    decreases |steps|
  {
    steps == [] || (Enabled(w, steps[0].0, steps[0].1) && Possible(Act(w, steps[0].0, steps[0].1), steps[1..]))
  }

  /** Any interleaving of any threads' actions. */
  function Run(w: World, steps: seq<(nat, Action)>): (r: World)
    requires Possible(w, steps)
    decreases |steps|
  {
    if steps == [] then w else Run(Act(w, steps[0].0, steps[0].1), steps[1..])
  }

  function Initial(n: nat): (w: World) {
    World(seq(n, _ => FRESH_THREAD), seq(MAX_CPUS, _ => false), map[])
  }

  // ----- the invariant -----

  function Bit(b: bool): (n: nat) {
    if b then 1 else 0
  }

  /** The count is exact: one while guest code runs in the routine or a destructor, one per set key. The
      context is live exactly while the count is positive, and is freed once, when it is not. */
  ghost predicate Counted(t: Thread) {
    if t.phase == Unstarted then t.refCount == 1 && t.slots == map[] && !t.live && t.frees == 0
    else
      && t.refCount == Bit(GuestRunning(t)) + |t.slots|
      && (t.live <==> t.refCount > 0) && t.frees == Bit(!t.live)
  }

  ghost predicate OwnProcessors(ts: seq<Thread>, used: seq<bool>) {
    && |used| == MAX_CPUS
    && (forall i :: 0 <= i < |ts| && ts[i].live ==> ts[i].processor < |used| && used[ts[i].processor])
    && (forall i, j :: 0 <= i < j < |ts| && ts[i].live && ts[j].live ==> ts[i].processor != ts[j].processor)
    && (forall id :: 0 <= id < |used| && used[id] ==> exists i :: 0 <= i < |ts| && ts[i].live && ts[i].processor == id)
  }

  /** Only created keys are set, and none to zero. */
  ghost predicate Registered(t: Thread, keys: map<Key, nat>) {
    forall key :: key in t.slots ==> key in keys && t.slots[key] != 0
  }

  ghost predicate Invariant(w: World) {
    && (forall i :: 0 <= i < |w.threads| ==> Counted(w.threads[i]) && Registered(w.threads[i], w.keys))
    && OwnProcessors(w.threads, w.used)
  }

  lemma RemoveKey(m: map<Key, nat>, key: Key)
    requires key in m
    ensures |m - {key}| == |m| - 1
  {
    assert m == (m - {key})[key := m[key]];
  }

  lemma SetKeepsCount(t: Thread, keys: map<Key, nat>, key: Key, value: nat, fails: bool)
    requires Counted(t) && Registered(t, keys) && GuestRunning(t)
    ensures var r := SetSpecific(t, keys, key, value, fails).0; Counted(r) && Registered(r, keys)
  {
    if key in t.slots {
      RemoveKey(t.slots, key);
      assert |t.slots[key := value]| == |t.slots|;
    }
  }

  /** A change of one thread that keeps it live with its id, or keeps it dead, leaves the ids alone. */
  lemma ProcessorsKept(ts: seq<Thread>, used: seq<bool>, i: nat, t: Thread)
    requires OwnProcessors(ts, used) && i < |ts| && t.live == ts[i].live && t.processor == ts[i].processor
    ensures OwnProcessors(ts[i := t], used)
  {
    var us := ts[i := t];
    forall id | 0 <= id < |used| && used[id] ensures exists k :: 0 <= k < |us| && us[k].live && us[k].processor == id {
      var k :| 0 <= k < |ts| && ts[k].live && ts[k].processor == id;
      assert us[k].live && us[k].processor == id;
    }
  }

  lemma ThreadKept(w: World, i: nat, t: Thread)
    requires Invariant(w) && i < |w.threads| && Counted(t) && Registered(t, w.keys)
    requires t.live == w.threads[i].live && t.processor == w.threads[i].processor
    ensures Invariant(w.(threads := w.threads[i := t]))
  {
    ProcessorsKept(w.threads, w.used, i, t);
  }

  lemma RoundKeepsInvariant(w: World, i: nat)
    requires Invariant(w) && i < |w.threads|
    ensures Invariant(BeginRound(w, i))
  {
    var t, t' := w.threads[i], BeginRound(w, i).threads[i];
    assert Counted(t) && Counted(t') && Registered(t, w.keys) && Registered(t', w.keys);
    ThreadKept(w, i, t');
  }

  lemma StartKeepsInvariant(w: World, i: nat)
    requires Invariant(w) && Enabled(w, i, Start)
    ensures Invariant(Act(w, i, Start))
  {
    var t := Act(w, i, Start).threads[i];
    assert Counted(w.threads[i]) && Counted(t) && Registered(t, w.keys);
    ProcessorTaken(w.threads, w.used, i, t);
  }

  lemma VisitKeepsInvariant(w: World, i: nat, key: Key)
    requires Invariant(w) && Enabled(w, i, Visit(key))
    ensures Invariant(Act(w, i, Visit(key)))
  {
    var t, t' := w.threads[i], Act(w, i, Visit(key)).threads[i];
    RemoveKey(t.slots, key);
    assert Counted(t) && Counted(t') && Registered(t, w.keys) && Registered(t', w.keys);
    ThreadKept(w, i, t');
  }

  lemma ProcessorTaken(ts: seq<Thread>, used: seq<bool>, i: nat, t: Thread)
    requires OwnProcessors(ts, used) && i < |ts| && !ts[i].live && t.live && t.processor < |used| && !used[t.processor]
    ensures OwnProcessors(ts[i := t], used[t.processor := true])
  {
    var us, used' := ts[i := t], used[t.processor := true];
    forall id | 0 <= id < |used| && used'[id] ensures exists k :: 0 <= k < |us| && us[k].live && us[k].processor == id {
      if id == t.processor {
        assert us[i].live && us[i].processor == id;
      } else {
        var k :| 0 <= k < |ts| && ts[k].live && ts[k].processor == id;
        assert us[k].live && us[k].processor == id;
      }
    }
  }

  lemma ProcessorReleased(ts: seq<Thread>, used: seq<bool>, i: nat, t: Thread)
    requires OwnProcessors(ts, used) && i < |ts| && ts[i].live && !t.live
    ensures OwnProcessors(ts[i := t], used[ts[i].processor := false])
  {
    var us, used' := ts[i := t], used[ts[i].processor := false];
    forall id | 0 <= id < |used| && used'[id] ensures exists k :: 0 <= k < |us| && us[k].live && us[k].processor == id {
      var k :| 0 <= k < |ts| && ts[k].live && ts[k].processor == id;
      assert us[k].live && us[k].processor == id;
    }
  }

  lemma DropKeepsInvariant(w: World, i: nat)
    requires Invariant(w) && i < |w.threads| && GuestRunning(w.threads[i])
    ensures Invariant(Drop(w, i, Exiting))
  {
    var t, t' := w.threads[i], Drop(w, i, Exiting).threads[i];
    assert Counted(t) && Counted(t') && Registered(t, w.keys) && Registered(t', w.keys);
    if t.refCount - 1 != 0 {
      ProcessorsKept(w.threads, w.used, i, t');
    } else {
      ProcessorReleased(w.threads, w.used, i, t');
    }
  }

  lemma StepKeepsInvariant(w: World, i: nat, a: Action)
    requires Invariant(w) && Enabled(w, i, a)
    ensures Invariant(Act(w, i, a))
  {
    var t, t' := w.threads[i], Act(w, i, a).threads[i];
    assert Counted(t);
    match a
    case Start => StartKeepsInvariant(w, i);
    case CreateKey(_, _) =>
    case Set(key, value, fails) =>
      SetKeepsCount(t, w.keys, key, value, fails);
      ThreadKept(w, i, t');
    case EndRoutine =>
      RoundKeepsInvariant(w, i);
      DropKeepsInvariant(BeginRound(w, i), i);
    case Visit(key) => VisitKeepsInvariant(w, i, key);
    case EndDestructor => DropKeepsInvariant(w, i);
    case NextRound => RoundKeepsInvariant(w, i);
    case End => ThreadKept(w, i, t');
  }

  lemma {:induction false} RunKeepsInvariant(w: World, steps: seq<(nat, Action)>)
    requires Invariant(w) && Possible(w, steps)
    ensures Invariant(Run(w, steps)) && |Run(w, steps).threads| == |w.threads|
    ensures forall i :: 0 <= i < |w.threads| ==> w.threads[i].frees <= Run(w, steps).threads[i].frees
    decreases |steps|
  {
    if steps != [] {
      StepKeepsInvariant(w, steps[0].0, steps[0].1);
      RunKeepsInvariant(Act(w, steps[0].0, steps[0].1), steps[1..]);
    }
  }

  /** In every state of every run of any number of threads: counts are exact, a context is freed at most
      once, guest code runs only on live contexts, and live contexts have distinct processor ids. */
  lemma EveryRun(n: nat, steps: seq<(nat, Action)>)
    requires Possible(Initial(n), steps)
    ensures var w := Run(Initial(n), steps);
            && Invariant(w) && |w.threads| == n
            && forall i :: 0 <= i < n ==>
                 && w.threads[i].frees <= 1
                 && (GuestRunning(w.threads[i]) ==> w.threads[i].live && w.threads[i].frees == 0)
  {
    RunKeepsInvariant(Initial(n), steps);
    var w := Run(Initial(n), steps);
    forall i | 0 <= i < n ensures w.threads[i].frees <= 1 && (GuestRunning(w.threads[i]) ==> w.threads[i].live && w.threads[i].frees == 0) {
      assert Counted(w.threads[i]);
    }
  }

  /** Once a context has been freed, no guest code ever runs on that thread again. */
  lemma FreedIsFinal(n: nat, steps: seq<(nat, Action)>, more: seq<(nat, Action)>, i: nat)
    requires Possible(Initial(n), steps) && Possible(Run(Initial(n), steps), more) && i < n
    requires |Run(Initial(n), steps).threads| == n && Run(Initial(n), steps).threads[i].frees == 1
    ensures |Run(Run(Initial(n), steps), more).threads| == n
    ensures !GuestRunning(Run(Run(Initial(n), steps), more).threads[i])
  {
    EveryRun(n, steps);
    RunKeepsInvariant(Run(Initial(n), steps), more);
    assert Counted(Run(Run(Initial(n), steps), more).threads[i]);
  }

  // ----- how many are live -----

  /** The threads whose contexts are live. */
  ghost function Live(ts: seq<Thread>): (s: set<nat>) {
    set i: nat | i < |ts| && ts[i].live
  }

  /** Distinct ids below the limit cannot be more than the limit. */
  lemma {:induction false} DistinctBelow(ts: seq<Thread>, s: set<nat>, limit: nat)
    requires forall i :: i in s ==> i < |ts| && ts[i].processor < limit
    requires forall i, j :: i in s && j in s && i != j ==> ts[i].processor != ts[j].processor
    ensures |s| <= limit
    decreases limit
  {
    if s != {} && limit > 0 {
      if i :| i in s && ts[i].processor == limit - 1 {
        DistinctBelow(ts, s - {i}, limit - 1);
      } else {
        DistinctBelow(ts, s, limit - 1);
      }
    } else if i :| i in s {
      assert false;
    }
  }

  /** No more than 64 contexts are ever live. */
  lemma LiveBounded(n: nat, steps: seq<(nat, Action)>)
    requires Possible(Initial(n), steps)
    ensures |Live(Run(Initial(n), steps).threads)| <= 64
  {
    EveryRun(n, steps);
    var ts := Run(Initial(n), steps).threads;
    DistinctBelow(ts, Live(ts), MAX_CPUS);
  }

  /** An id is in use exactly if some live context has it. */
  lemma UsedExactly(n: nat, steps: seq<(nat, Action)>, id: nat)
    requires Possible(Initial(n), steps) && id < MAX_CPUS
    ensures var w := Run(Initial(n), steps);
            |w.used| == MAX_CPUS && (w.used[id] <==> exists i :: 0 <= i < |w.threads| && w.threads[i].live && w.threads[i].processor == id)
  {
    EveryRun(n, steps);
  }

  // ----- thread-specific values -----

  /** A successful set is what a later get returns, for this key only; a failed one changes nothing. */
  lemma SetThenGet(t: Thread, keys: map<Key, nat>, key: Key, value: nat, fails: bool, other: Key)
    ensures var (r, code) := SetSpecific(t, keys, key, value, fails);
            && (code == Success ==> GetSpecific(r, key) == value)
            && (code != Success ==> r == t)
            && (other != key ==> GetSpecific(r, other) == GetSpecific(t, other))
            && (code == InvalidKey <==> value != 0 && key !in t.slots && key !in keys)
            && (code == NoMemory <==> value != 0 && key !in t.slots && key in keys && fails)
            && r.refCount - t.refCount == Bit(GetSpecific(r, key) != 0) - Bit(key in t.slots)
            && r.phase == t.phase && r.live == t.live && r.processor == t.processor && r.frees == t.frees
  {}

  lemma {:induction false} RunKeepsKeys(w: World, steps: seq<(nat, Action)>, key: Key)
    requires Possible(w, steps) && key in w.keys
    ensures key in Run(w, steps).keys && Run(w, steps).keys[key] == w.keys[key]
    decreases |steps|
  {
    if steps != [] {
      RunKeepsKeys(Act(w, steps[0].0, steps[0].1), steps[1..], key);
    }
  }

  /** Once a step of a run has created a key with a destructor, the key has that destructor in every later
      state. */
  lemma {:induction false} DestructorKept(w: World, steps: seq<(nat, Action)>, j: nat, key: Key, destructor: nat)
    requires Possible(w, steps) && j < |steps| && steps[j].1 == CreateKey(key, destructor)
    ensures key in Run(w, steps).keys && Run(w, steps).keys[key] == destructor
    decreases |steps|
  {
    var r := Act(w, steps[0].0, steps[0].1);
    if j == 0 {
      RunKeepsKeys(r, steps[1..], key);
    } else {
      DestructorKept(r, steps[1..], j - 1, key, destructor);
    }
  }

  // ----- the runtime as it runs -----

  class Runtime {
    const pool: ProcessorPool
    var threads: seq<Thread>
    var keys: map<Key, nat>

    constructor (n: nat)
      ensures View() == Initial(n) && fresh(pool) && fresh(pool.used)
    {
      pool := new ProcessorPool();
      threads := seq(n, _ => FRESH_THREAD);
      keys := map[];
    }

    ghost function View(): (w: World)
      reads this, pool.used
    {
      World(threads, pool.used[..], keys)
    }

    /** The start of `thread_routine`; it fails only if all processor ids are taken. */
    method ContextInit(i: nat) returns (ok: bool)
      requires i < |threads| && threads[i].phase == Unstarted
      modifies this`threads, pool.used
      ensures ok <==> old(Enabled(View(), i, Start))
      ensures ok ==> View() == Act(old(View()), i, Start)
      ensures !ok ==> View() == old(View())
    {
      var id;
      ok, id := pool.Allocate();
      if ok {
        threads := threads[i := threads[i].(phase := Routine, live := true, processor := id)];
      }
    }

    /** Drop a reference at the end of the routine or of a destructor, and free the context with the last. */
    method SubRef(i: nat)
      requires Invariant(View()) && i < |threads| && GuestRunning(threads[i])
      modifies this`threads, pool.used
      ensures View() == Drop(old(View()), i, Exiting) && Invariant(View())
    {
      DropKeepsInvariant(View(), i);
      var t := threads[i];
      assert Counted(t);
      t := t.(refCount := t.refCount - 1, phase := Exiting);
      if t.refCount == 0 {
        t := t.(live := false, frees := t.frees + 1);
        pool.Release(t.processor);
      }
      threads := threads[i := t];
    }

    /** `key` is what the host library hands out. A new key is zero on every thread and can be set; if the
        host library has none left nothing changes. */
    method KeyCreate(i: nat, key: Key, destructor: nat, fails: bool) returns (code: Code)
      requires Invariant(View()) && (fails || Enabled(View(), i, CreateKey(key, destructor)))
      modifies this`keys
      ensures Invariant(View()) && threads == old(threads)
      ensures if fails then code != Success && keys == old(keys)
              else code == Success && View() == Act(old(View()), i, CreateKey(key, destructor))
      ensures !fails ==> key in keys && keys[key] == destructor
      ensures !fails ==> forall j :: 0 <= j < |threads| ==> GetSpecific(threads[j], key) == 0
      ensures !fails ==> forall t: Thread, value: nat :: SetSpecific(t, keys, key, value, false).1 == Success
      ensures forall other: Key :: other in old(keys) ==> other in keys && keys[other] == old(keys)[other]
    {
      if fails {
        return NoMemory;
      }
      StepKeepsInvariant(View(), i, CreateKey(key, destructor));
      keys := keys[key := destructor];
      return Success;
    }

    method SetSpecificOn(i: nat, key: Key, value: nat, fails: bool) returns (code: Code)
      requires i < |threads| && GuestRunning(threads[i])
      modifies this`threads
      ensures View() == Act(old(View()), i, Set(key, value, fails))
      ensures code == SetSpecific(old(threads[i]), keys, key, value, fails).1
      ensures |threads| == |old(threads)| && GetSpecific(threads[i], key) == if code == Success then value else old(GetSpecific(threads[i], key))
      ensures forall other: Key :: other != key ==> GetSpecific(threads[i], other) == old(GetSpecific(threads[i], other))
      ensures forall j :: 0 <= j < |threads| && j != i ==> threads[j] == old(threads)[j]
    {
      var t := threads[i];
      if value == 0 {
        if key in t.slots {
          t := t.(refCount := t.refCount - 1, slots := t.slots - {key});
        }
      } else if key !in t.slots {
        if key !in keys {
          code := InvalidKey;
          assert threads == threads[i := t];
          return;
        }
        if fails {
          code := NoMemory;
          assert threads == threads[i := t];
          return;
        }
        t := t.(slots := t.slots[key := value], refCount := t.refCount + 1);
      } else {
        t := t.(slots := t.slots[key := value]);
      }
      threads := threads[i := t];
      code := Success;
    }

    /** The host library takes up a key of an exiting thread. Its destructor gets the nonzero value last
        set, while the key itself reads as zero; the context stays live and no other key changes. */
    method StartDestructor(i: nat, key: Key) returns (routine: nat, value: nat)
      requires Invariant(View()) && Enabled(View(), i, Visit(key))
      modifies this`threads
      ensures View() == Act(old(View()), i, Visit(key)) && Invariant(View())
      ensures key in keys && routine == keys[key] && value == old(GetSpecific(threads[i], key)) != 0
      ensures GetSpecific(threads[i], key) == 0 && GuestRunning(threads[i]) && threads[i].live && threads[i].frees == 0
      ensures forall other: Key :: other != key ==> GetSpecific(threads[i], other) == old(GetSpecific(threads[i], other))
    {
      StepKeepsInvariant(View(), i, Visit(key));
      var t := threads[i];
      assert Counted(t.(phase := Destroying(key), slots := t.slots - {key}, due := t.due - {key}));
      routine, value := keys[key], t.slots[key];
      threads := threads[i := t.(phase := Destroying(key), slots := t.slots - {key}, due := t.due - {key})];
    }
  }
}
