/** Contexts that are never freed. A context lives as long as a key of its thread is set, and at thread exit
    the host library clears the keys in rounds of destructor calls. Which threads can keep it from
    succeeding is decided by how often they set a key in a destructor. */
module LeakedContexts {
  import opened ThreadContexts

  /** A thread that has ended leaves its context behind exactly if a key is still set. */
  lemma EndedWithKeys(n: nat, steps: seq<(nat, Action)>, i: nat)
    requires Possible(Initial(n), steps) && i < n && |Run(Initial(n), steps).threads| == n
    requires Run(Initial(n), steps).threads[i].phase == Ended
    ensures var t := Run(Initial(n), steps).threads[i]; t.live <==> t.slots != map[]
  {
    EveryRun(n, steps);
    assert Counted(Run(Initial(n), steps).threads[i]);
  }

  /** A step in which thread `i` sets a key to something. */
  predicate SetsKey(step: (nat, Action), i: nat) {
    step.0 == i && step.1.Set? && step.1.value != 0
  }

  function KeySets(steps: seq<(nat, Action)>, i: nat): (n: nat)
    decreases |steps|
  {
    if steps == [] then 0 else (if SetsKey(steps[0], i) then 1 else 0) + KeySets(steps[1..], i)
  }

  /** How often thread `i` sets a key after the end of its routine, which it can do in destructors only. */
  function LateSets(steps: seq<(nat, Action)>, i: nat): (n: nat)
    decreases |steps|
  {
    if steps == [] then 0 else if steps[0] == (i, EndRoutine) then KeySets(steps[1..], i) else LateSets(steps[1..], i)
  }

  /** After `c` late sets: one was made in each round that is over, and in the present one unless no other
      keys are set than those still due. */
  ghost predicate Paced(t: Thread, c: nat) {
    && (t.phase in {Exiting, Ended} || t.phase.Destroying?)
    && c + 1 >= t.round && (c >= t.round || t.slots.Keys <= t.due)
    && (t.phase == Ended && t.slots != map[] ==> c >= DESTRUCTOR_ROUNDS)
  }

  lemma NotEmpty(t: Thread)
    requires t.slots != map[] && RoundOver(t)
    ensures !(t.slots.Keys <= t.due)
  {
    var key :| key in t.slots;
  }

  lemma StepKeepsPace(w: World, step: (nat, Action), i: nat, c: nat)
    requires Enabled(w, step.0, step.1) && i < |w.threads| && Paced(w.threads[i], c)
    ensures Paced(Act(w, step.0, step.1).threads[i], c + if SetsKey(step, i) then 1 else 0)
  {
    var t := w.threads[i];
    if step.0 == i && t.slots != map[] && RoundOver(t) { NotEmpty(t); }
  }

  lemma {:induction false} RunKeepsPace(w: World, steps: seq<(nat, Action)>, i: nat, c: nat)
    requires Possible(w, steps) && i < |w.threads| && Paced(w.threads[i], c)
    ensures |Run(w, steps).threads| == |w.threads| && Paced(Run(w, steps).threads[i], c + KeySets(steps, i))
    decreases |steps|
  {
    if steps != [] {
      StepKeepsPace(w, steps[0], i, c);
      RunKeepsPace(Act(w, steps[0].0, steps[0].1), steps[1..], i, c + if SetsKey(steps[0], i) then 1 else 0);
    }
  }

  lemma {:induction false} ReachesPace(w: World, steps: seq<(nat, Action)>, i: nat)
    requires Possible(w, steps) && i < |w.threads|
    requires w.threads[i].phase in {Unstarted, Routine} && w.threads[i].round == 0
    ensures |Run(w, steps).threads| == |w.threads|
    ensures var t := Run(w, steps).threads[i];
            (t.phase in {Unstarted, Routine} && t.round == 0) || Paced(t, LateSets(steps, i))
    decreases |steps|
  {
    if steps != [] {
      var w' := Act(w, steps[0].0, steps[0].1);
      if steps[0] == (i, EndRoutine) {
        RunKeepsPace(w', steps[1..], i, 0);
      } else {
        ReachesPace(w', steps[1..], i);
      }
    }
  }

  /** A thread that sets keys less than four times after its routine ends with its context freed. */
  lemma FewLateSetsFreed(n: nat, steps: seq<(nat, Action)>, i: nat)
    requires Possible(Initial(n), steps) && i < n && |Run(Initial(n), steps).threads| == n
    requires Run(Initial(n), steps).threads[i].phase == Ended && LateSets(steps, i) < DESTRUCTOR_ROUNDS
    ensures !Run(Initial(n), steps).threads[i].live && Run(Initial(n), steps).threads[i].frees == 1
  {
    ReachesPace(Initial(n), steps, i);
    EveryRun(n, steps);
    assert Counted(Run(Initial(n), steps).threads[i]);
  }
  // ----- a thread that leaks -----

  ghost predicate Leads(w: World, steps: seq<(nat, Action)>, r: World) {
    Possible(w, steps) && Run(w, steps) == r
  }

  lemma LeadsStep(w: World, step: (nat, Action), r: World)
    requires Enabled(w, step.0, step.1) && Act(w, step.0, step.1) == r
    ensures Leads(w, [step], r)
  {
    assert [step][1..] == [];
  }

  lemma {:induction false} LeadsOn(w: World, a: seq<(nat, Action)>, m: World, b: seq<(nat, Action)>, r: World)
    requires Leads(w, a, m) && Leads(m, b, r)
    ensures Leads(w, a + b, r)
    decreases |a|
  {
    if a == [] {
      assert a + b == b;
    } else {
      assert (a + b)[1..] == a[1..] + b;
      LeadsOn(Act(w, a[0].0, a[0].1), a[1..], m, b, r);
    }
  }

  lemma {:induction false} KeySetsAppend(a: seq<(nat, Action)>, b: seq<(nat, Action)>, i: nat)
    ensures KeySets(a + b, i) == KeySets(a, i) + KeySets(b, i)
    decreases |a|
  {
    if a == [] {
      assert a + b == b;
    } else {
      assert (a + b)[1..] == a[1..] + b;
      KeySetsAppend(a[1..], b, i);
    }
  }

  /** The only thread, at exit with its key set. */
  function Waiting(due: set<Key>, round: nat): (w: World) {
    World([Thread(Exiting, 1, map[1 := 5], true, 0, 0, round, due)], seq(MAX_CPUS, _ => false)[0 := true], map[1 := 0])
  }

  /** The same thread in the destructor of its key. */
  function Destructing(round: nat, again: bool): (w: World) {
    var t := Thread(Destroying(1), if again then 2 else 1, if again then map[1 := 5] else map[], true, 0, 0, round, {});
    Waiting({}, round).(threads := [t])
  }

  lemma VisitStep(round: nat)
    ensures Enabled(Waiting({1}, round), 0, Visit(1)) && Act(Waiting({1}, round), 0, Visit(1)) == Destructing(round, false)
  {
    var slots: map<Key, nat> := map[1 := 5];
    assert slots - {1} == map[];
    var due: set<Key> := {1};
    assert due - {1} == {};
  }

  /** Setting the key, for the first time or again. */
  lemma SetStep(round: nat, again: bool)
    ensures Act(Destructing(round, again), 0, Set(1, 5, false)) == Destructing(round, true)
  {
    var slots: map<Key, nat> := map[1 := 5];
    assert slots[1 := 5] == slots;
  }

  lemma ReturnStep(round: nat)
    ensures Act(Destructing(round, true), 0, EndDestructor) == Waiting({}, round)
  {}

  lemma RoundStep(round: nat)
    ensures Enabled(Waiting({}, round), 0, NextRound) && Act(Waiting({}, round), 0, NextRound) == Waiting({1}, round + 1)
  {
    var slots: map<Key, nat> := map[1 := 5];
    assert slots.Keys == {1} && 1 in slots;
  }

  function Sets(n: nat): (steps: seq<(nat, Action)>) {
    if n == 0 then [] else [(0, Set(1, 5, false))] + Sets(n - 1)
  }

  lemma {:induction false} SetsAgain(n: nat, round: nat)
    requires n > 0
    ensures Leads(Destructing(round, false), Sets(n), Destructing(round, true)) && KeySets(Sets(n), 0) == n
  {
    SetStep(round, false);
    SetStep(round, true);
    var w, first, rest := Destructing(round, false), [(0, Set(1, 5, false))], Sets(n - 1);
    LeadsStep(w, first[0], Destructing(round, true));
    KeySetsAppend(first, rest, 0);
    if n > 1 {
      SetsStay(n - 1, round);
      LeadsOn(w, first, Destructing(round, true), rest, Destructing(round, true));
    } else {
      assert first + rest == first;
    }
  }

  lemma {:induction false} SetsStay(n: nat, round: nat)
    ensures Leads(Destructing(round, true), Sets(n), Destructing(round, true)) && KeySets(Sets(n), 0) == n
  {
    if n > 0 {
      SetsStay(n - 1, round);
      SetStep(round, true);
      assert Sets(n)[1..] == Sets(n - 1);
    }
  }

  /** A destructor that sets its key again, `n` times. */
  function Again(n: nat): (steps: seq<(nat, Action)>) {
    [(0, Visit(1))] + (Sets(n) + [(0, EndDestructor)])
  }

  lemma DestructorSetsAgain(n: nat, round: nat)
    requires n > 0
    ensures Leads(Waiting({1}, round), Again(n), Waiting({}, round)) && KeySets(Again(n), 0) == n
  {
    var inner := Sets(n) + [(0, EndDestructor)];
    VisitStep(round);
    LeadsStep(Waiting({1}, round), (0, Visit(1)), Destructing(round, false));
    SetsAgain(n, round);
    ReturnStep(round);
    LeadsStep(Destructing(round, true), (0, EndDestructor), Waiting({}, round));
    LeadsOn(Destructing(round, false), Sets(n), Destructing(round, true), [(0, EndDestructor)], Waiting({}, round));
    LeadsOn(Waiting({1}, round), [(0, Visit(1))], Destructing(round, false), inner, Waiting({}, round));
    KeySetsAppend(Sets(n), [(0, EndDestructor)], 0);
    KeySetsAppend([(0, Visit(1))], inner, 0);
  }

  /** `r` rounds and a last one, in each of which the key is set again, after which the host library gives up. */
  function Rounds(r: nat, last: nat): (steps: seq<(nat, Action)>) {
    if r == 0 then Again(last) + [(0, End)] else Again(1) + ([(0, NextRound)] + Rounds(r - 1, last))
  }

  function Leaked(round: nat): (w: World) {
    Waiting({}, round).(threads := [Waiting({}, round).threads[0].(phase := Ended)])
  }

  lemma LastRoundLeaks(last: nat, round: nat)
    requires last > 0 && round >= DESTRUCTOR_ROUNDS
    ensures Leads(Waiting({1}, round), Again(last) + [(0, End)], Leaked(round)) && KeySets(Again(last) + [(0, End)], 0) == last
  {
    DestructorSetsAgain(last, round);
    LeadsStep(Waiting({}, round), (0, End), Leaked(round));
    LeadsOn(Waiting({1}, round), Again(last), Waiting({}, round), [(0, End)], Leaked(round));
    KeySetsAppend(Again(last), [(0, End)], 0);
  }

  lemma AnotherRound(round: nat, rest: seq<(nat, Action)>, r: World)
    requires Leads(Waiting({1}, round + 1), rest, r)
    ensures Leads(Waiting({1}, round), Again(1) + ([(0, NextRound)] + rest), r)
    ensures KeySets(Again(1) + ([(0, NextRound)] + rest), 0) == 1 + KeySets(rest, 0)
  {
    DestructorSetsAgain(1, round);
    RoundStep(round);
    LeadsStep(Waiting({}, round), (0, NextRound), Waiting({1}, round + 1));
    LeadsOn(Waiting({}, round), [(0, NextRound)], Waiting({1}, round + 1), rest, r);
    LeadsOn(Waiting({1}, round), Again(1), Waiting({}, round), [(0, NextRound)] + rest, r);
    KeySetsAppend([(0, NextRound)], rest, 0);
    KeySetsAppend(Again(1), [(0, NextRound)] + rest, 0);
  }

  lemma {:induction false} RoundsLeak(r: nat, last: nat, round: nat)
    requires last > 0 && round + r >= DESTRUCTOR_ROUNDS
    ensures Leads(Waiting({1}, round), Rounds(r, last), Leaked(round + r)) && KeySets(Rounds(r, last), 0) == r + last
    decreases r
  {
    if r == 0 {
      LastRoundLeaks(last, round);
    } else {
      RoundsLeak(r - 1, last, round + 1);
      AnotherRound(round, Rounds(r - 1, last), Leaked(round + r));
    }
  }

  function Setup(): (steps: seq<(nat, Action)>) {
    [(0, Start), (0, CreateKey(1, 0)), (0, Set(1, 5, false))]
  }

  lemma SetupRuns()
    ensures Leads(Initial(1), Setup() + [(0, EndRoutine)], Waiting({1}, 1))
  {
    var w1 := Act(Initial(1), 0, Start);
    var w2 := Act(w1, 0, CreateKey(1, 0));
    var w3 := Act(w2, 0, Set(1, 5, false));
    assert FirstFree(Initial(1).used) == 0;
    var none: map<Key, nat> := map[];
    assert none[1 := 5] == map[1 := 5] && none[1 := 5].Keys == {1};
    assert Act(w3, 0, EndRoutine) == Waiting({1}, 1);
    LeadsStep(w3, (0, EndRoutine), Waiting({1}, 1));
    LeadsStep(w2, (0, Set(1, 5, false)), w3);
    LeadsStep(w1, (0, CreateKey(1, 0)), w2);
    LeadsStep(Initial(1), (0, Start), w1);
    LeadsOn(Initial(1), [(0, Start)], w1, [(0, CreateKey(1, 0))], w2);
    LeadsOn(Initial(1), [(0, Start)] + [(0, CreateKey(1, 0))], w2, [(0, Set(1, 5, false))], w3);
    assert Setup() == [(0, Start)] + [(0, CreateKey(1, 0))] + [(0, Set(1, 5, false))];
    LeadsOn(Initial(1), Setup(), w3, [(0, EndRoutine)], Waiting({1}, 1));
  }

  lemma {:induction false} LateSetsBehind(a: seq<(nat, Action)>, b: seq<(nat, Action)>, i: nat)
    requires forall j :: 0 <= j < |a| ==> a[j] != (i, EndRoutine)
    ensures LateSets(a + [(i, EndRoutine)] + b, i) == KeySets(b, i)
    decreases |a|
  {
    var all := a + [(i, EndRoutine)] + b;
    if a == [] {
      assert all == [(i, EndRoutine)] + b && all[1..] == b;
    } else {
      assert all[1..] == a[1..] + [(i, EndRoutine)] + b;
      LateSetsBehind(a[1..], b, i);
    }
  }

  /** A thread whose destructor sets its key again in each of four rounds, `k` times in all. */
  function Stubborn(k: nat): (steps: seq<(nat, Action)>)
    requires k >= DESTRUCTOR_ROUNDS
  {
    Setup() + [(0, EndRoutine)] + Rounds(DESTRUCTOR_ROUNDS - 1, k - DESTRUCTOR_ROUNDS + 1)
  }

  /** Its context stays behind. */
  lemma ContextLeaks(k: nat)
    requires k >= DESTRUCTOR_ROUNDS
    ensures Leads(Initial(1), Stubborn(k), Leaked(DESTRUCTOR_ROUNDS)) && LateSets(Stubborn(k), 0) == k
    ensures Leaked(DESTRUCTOR_ROUNDS).threads[0].phase == Ended && Leaked(DESTRUCTOR_ROUNDS).threads[0].live
  {
    var rest := Rounds(DESTRUCTOR_ROUNDS - 1, k - DESTRUCTOR_ROUNDS + 1);
    RoundsLeak(DESTRUCTOR_ROUNDS - 1, k - DESTRUCTOR_ROUNDS + 1, 1);
    SetupRuns();
    LeadsOn(Initial(1), Setup() + [(0, EndRoutine)], Waiting({1}, 1), rest, Leaked(DESTRUCTOR_ROUNDS));
    LateSetsBehind(Setup(), rest, 0);
  }

  /** Whatever else happens, a thread that sets keys `k` times after its routine ends with its context freed. */
  ghost predicate AlwaysFreed(k: nat) {
    forall n: nat, steps: seq<(nat, Action)>, i: nat ::
      Possible(Initial(n), steps) && i < n && EndsAfter(Run(Initial(n), steps), steps, i, k) ==> FreedIn(Run(Initial(n), steps), i)
  }

  predicate EndsAfter(w: World, steps: seq<(nat, Action)>, i: nat, k: nat) {
    i < |w.threads| && w.threads[i].phase == Ended && LateSets(steps, i) == k
  }

  predicate FreedIn(w: World, i: nat) {
    i < |w.threads| && !w.threads[i].live
  }

  /** That is so if and only if it does it less than four times. */
  lemma LeakedExactly(k: nat)
    ensures AlwaysFreed(k) <==> k < 4
  {
    if k < DESTRUCTOR_ROUNDS {
      forall n: nat, steps: seq<(nat, Action)>, i: nat
        | Possible(Initial(n), steps) && i < n && EndsAfter(Run(Initial(n), steps), steps, i, k)
        ensures FreedIn(Run(Initial(n), steps), i)
      {
        EveryRun(n, steps);
        FewLateSetsFreed(n, steps, i);
      }
    } else {
      ContextLeaks(k);
      assert EndsAfter(Run(Initial(1), Stubborn(k)), Stubborn(k), 0, k);
    }
  }
}
