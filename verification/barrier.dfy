/** The reusable barrier of `critical_concurrency/barrier.c`. The wait is not in a
    loop, so spurious wakeups matter; they are steps of their own here. */
module Barriers {
  datatype Pc = Running | Asleep(gen: nat) | Woken(gen: nat)

  /** A completed call: the generation it entered, whether it returned
      PTHREAD_BARRIER_SERIAL_THREAD, and how many calls had entered that generation
      by then. */
  datatype Done = Done(gen: nat, serial: bool, enteredThen: nat)

  /** `entered[g]` counts the calls that entered generation `g`; `rounds[t]` the
      calls thread `t` has completed. */
  datatype State = State(count: nat, timesUsed: nat, threads: seq<Pc>,
                         entered: seq<nat>, rounds: seq<nat>, done: seq<Done>)

  datatype Label = Enter(t: nat) | Return(t: nat) | Spurious(t: nat)

  function Wake(pc: Pc): Pc {
    if pc.Asleep? then Woken(pc.gen) else pc
  }

  function Broadcast(threads: seq<Pc>): seq<Pc> {
    seq(|threads|, t requires 0 <= t < |threads| => Wake(threads[t]))
  }

  predicate Shaped(s: State) {
    |s.rounds| == |s.threads| && |s.entered| == s.timesUsed + 1
  }

  predicate Enabled(s: State, l: Label) {
    && Shaped(s) && l.t < |s.threads|
    && match l {
         case Enter(t) => s.threads[t].Running?
         case Return(t) => s.threads[t].Woken? && s.threads[t].gen <= s.timesUsed
         case Spurious(t) => s.threads[t].Asleep?
       }
  }

  /** `barrier_wait` up to its return or its wait, the rest of it after the wait,
      and a wakeup nobody sent. */
  function Apply(n: nat, s: State, l: Label): State
    requires Enabled(s, l)
  {
    match l
    case Enter(t) =>
      var g := s.timesUsed;
      var entered := s.entered[g := s.entered[g] + 1];
      if s.count + 1 == n then
        State(0, g + 1, Broadcast(s.threads), entered + [0], s.rounds[t := s.rounds[t] + 1],
              s.done + [Done(g, true, entered[g])])
      else
        s.(count := s.count + 1, threads := s.threads[t := Asleep(g)], entered := entered)
    case Return(t) =>
      var g := s.threads[t].gen;
      s.(threads := s.threads[t := Running], rounds := s.rounds[t := s.rounds[t] + 1],
         done := s.done + [Done(g, g != s.timesUsed, s.entered[g])])
    case Spurious(t) => s.(threads := s.threads[t := Wake(s.threads[t])])
  }

  function Start(m: nat): State {
    State(0, 0, seq(m, _ => Running), [0], seq(m, _ => 0), [])
  }

  /** Runs of `m` threads on a barrier for `n`; `calm` ones have no spurious wakeups. */
  ghost predicate ReachableIn(n: nat, m: nat, calm: bool, k: nat, s: State) {
    if k == 0 then s == Start(m)
    else exists p, l ::
      ReachableIn(n, m, calm, k - 1, p) && Enabled(p, l) && !(calm && l.Spurious?) && s == Apply(n, p, l)
  }

  lemma LastStep(n: nat, m: nat, calm: bool, k: nat, s: State) returns (p: State, l: Label)
    requires ReachableIn(n, m, calm, k, s) && k > 0
    ensures ReachableIn(n, m, calm, k - 1, p) && Enabled(p, l) && !(calm && l.Spurious?) && s == Apply(n, p, l)
  {
    p, l :| ReachableIn(n, m, calm, k - 1, p) && Enabled(p, l) && !(calm && l.Spurious?) && s == Apply(n, p, l);
  }

  lemma NextStep(n: nat, m: nat, calm: bool, k: nat, p: State, l: Label)
    requires ReachableIn(n, m, calm, k, p) && Enabled(p, l) && !(calm && l.Spurious?)
    ensures ReachableIn(n, m, calm, k + 1, Apply(n, p, l))
  {
  }

  /** `count` is what the current generation has seen, and the past ones saw `n`. */
  ghost predicate Counted(n: nat, s: State) {
    && Shaped(s) && s.count < n && s.entered[s.timesUsed] == s.count
    && (forall g :: 0 <= g < s.timesUsed ==> s.entered[g] == n)
    && (forall t :: 0 <= t < |s.threads| ==> s.threads[t].Asleep? ==> s.threads[t].gen == s.timesUsed)
    && (forall t :: 0 <= t < |s.threads| ==> s.threads[t].Woken? ==> s.threads[t].gen <= s.timesUsed)
  }

  /** The return value tells whether the generation was complete. */
  ghost predicate Honest(n: nat, s: State) {
    forall i :: 0 <= i < |s.done| ==> (s.done[i].serial <==> s.done[i].enteredThen == n)
  }

  lemma StepKeepsCounted(n: nat, s: State, l: Label)
    requires n >= 1 && Counted(n, s) && Enabled(s, l)
    ensures Counted(n, Apply(n, s, l)) && |Apply(n, s, l).threads| == |s.threads|
  {
    var r := Apply(n, s, l);
    match l
    case Enter(t) =>
      assert forall g :: 0 <= g < s.timesUsed ==> r.entered[g] == s.entered[g];
      if s.count + 1 == n { assert r.entered[s.timesUsed] == n; }
    case Return(t) =>
    case Spurious(t) =>
  }

  lemma StepKeepsHonest(n: nat, s: State, l: Label)
    requires n >= 1 && Counted(n, s) && Honest(n, s) && Enabled(s, l)
    ensures Honest(n, Apply(n, s, l))
  {
    var r := Apply(n, s, l);
    assert forall i :: 0 <= i < |s.done| ==> r.done[i] == s.done[i];
    if l.Return? { assert s.entered[s.threads[l.t].gen] == n <==> s.threads[l.t].gen != s.timesUsed; }
  }

  lemma {:induction false} EveryRun(n: nat, m: nat, calm: bool, k: nat, s: State)
    requires ReachableIn(n, m, calm, k, s) && n >= 1
    ensures Counted(n, s) && Honest(n, s) && |s.threads| == m
  {
    if k > 0 {
      var p, l := LastStep(n, m, calm, k, s);
      EveryRun(n, m, calm, k - 1, p);
      StepKeepsCounted(n, p, l);
      StepKeepsHonest(n, p, l);
    }
  }

  lemma LastCountedStep(n: nat, m: nat, calm: bool, k: nat, s: State) returns (p: State, l: Label)
    requires ReachableIn(n, m, calm, k, s) && k > 0 && n >= 1
    ensures ReachableIn(n, m, calm, k - 1, p) && Enabled(p, l) && !(calm && l.Spurious?) && s == Apply(n, p, l)
    ensures Counted(n, p) && |p.threads| == m
  {
    p, l := LastStep(n, m, calm, k, s);
    EveryRun(n, m, calm, k - 1, p);
  }

  // ---- without spurious wakeups ----

  function Sleepers(threads: seq<Pc>): nat {
    if threads == [] then 0
    else Sleepers(threads[..|threads| - 1]) + if threads[|threads| - 1].Asleep? then 1 else 0
  }

  lemma {:induction false} SleepersUpdate(threads: seq<Pc>, t: nat, pc: Pc)
    requires t < |threads|
    ensures Sleepers(threads[t := pc]) + (if threads[t].Asleep? then 1 else 0)
         == Sleepers(threads) + (if pc.Asleep? then 1 else 0)
  {
    var front := threads[..|threads| - 1];
    if t < |front| {
      SleepersUpdate(front, t, pc);
      assert threads[t := pc][..|threads| - 1] == front[t := pc];
    } else {
      assert threads[t := pc][..|threads| - 1] == front;
    }
  }

  lemma {:induction false} NoSleepers(threads: seq<Pc>)
    requires forall t :: 0 <= t < |threads| ==> !threads[t].Asleep?
    ensures Sleepers(threads) == 0
  {
    if threads != [] { NoSleepers(threads[..|threads| - 1]); }
  }

  lemma {:induction false} SleepersAtMost(threads: seq<Pc>)
    ensures Sleepers(threads) <= |threads|
  {
    if threads != [] { SleepersAtMost(threads[..|threads| - 1]); }
  }

  /** If all but one sleep, everyone other than a thread that does not, does. */
  lemma TheOthersSleep(threads: seq<Pc>, t: nat, u: nat)
    requires t < |threads| && u < |threads| && t != u && !threads[t].Asleep?
    requires Sleepers(threads) == |threads| - 1
    ensures threads[u].Asleep?
  {
    SleepersUpdate(threads, t, Asleep(0));
    SleepersUpdate(threads[t := Asleep(0)], u, Asleep(0));
    SleepersAtMost(threads[t := Asleep(0)][u := Asleep(0)]);
  }

  /** `count` is the number of sleepers, and woken threads are leaving complete
      generations. */
  ghost predicate Calm(s: State) {
    && s.count == Sleepers(s.threads)
    && (forall t :: 0 <= t < |s.threads| ==> s.threads[t].Woken? ==> s.threads[t].gen < s.timesUsed)
    && (forall i :: 0 <= i < |s.done| ==> s.done[i].serial)
  }

  lemma StepKeepsCalm(n: nat, s: State, l: Label)
    requires n >= 1 && Counted(n, s) && Calm(s) && Enabled(s, l) && !l.Spurious?
    ensures Calm(Apply(n, s, l))
  {
    match l
    case Enter(t) =>
      SleepersUpdate(s.threads, t, Asleep(s.timesUsed));
      if s.count + 1 == n { NoSleepers(Broadcast(s.threads)); }
    case Return(t) => SleepersUpdate(s.threads, t, Running);
  }

  lemma {:induction false} CalmRun(n: nat, m: nat, k: nat, s: State)
    requires ReachableIn(n, m, true, k, s) && n >= 1
    ensures Calm(s)
  {
    if k == 0 {
      NoSleepers(s.threads);
    } else {
      var p, l := LastCountedStep(n, m, true, k, s);
      CalmRun(n, m, k - 1, p);
      StepKeepsCalm(n, p, l);
    }
  }

  lemma LastCalmStep(n: nat, m: nat, k: nat, s: State) returns (p: State, l: Label)
    requires ReachableIn(n, m, true, k, s) && k > 0 && n >= 1
    ensures ReachableIn(n, m, true, k - 1, p) && Enabled(p, l) && !l.Spurious? && s == Apply(n, p, l)
    ensures Counted(n, p) && Calm(p) && |p.threads| == m
  {
    p, l := LastCountedStep(n, m, true, k, s);
    CalmRun(n, m, k - 1, p);
  }

  /** Every call then returns the serial value, after `n` calls entered its
      generation, and `count` is the number of sleepers, fewer than `n`. */
  lemma CallsReturnAfterAllEntered(n: nat, m: nat, k: nat, s: State)
    requires ReachableIn(n, m, true, k, s) && n >= 1
    ensures s.count == Sleepers(s.threads) < n
    ensures forall i :: 0 <= i < |s.done| ==> s.done[i].serial && s.done[i].enteredThen == n
  {
    EveryRun(n, m, true, k, s);
    CalmRun(n, m, k, s);
  }

  /** With exactly `n` threads, one still leaving is a round behind the others. */
  ghost predicate InStep(s: State) {
    |s.rounds| == |s.threads| && forall t :: 0 <= t < |s.threads| ==> ThreadInStep(s, t)
  }

  predicate ThreadInStep(s: State, t: nat)
    requires t < |s.threads| == |s.rounds|
  {
    if s.threads[t].Woken? then s.rounds[t] == s.threads[t].gen == s.timesUsed - 1 else s.rounds[t] == s.timesUsed
  }

  lemma StepKeepsInStep(n: nat, s: State, l: Label)
    requires n >= 1 && Counted(n, s) && Calm(s) && InStep(s) && Enabled(s, l) && !l.Spurious? && |s.threads| == n
    ensures InStep(Apply(n, s, l))
  {
    var r := Apply(n, s, l);
    forall u | 0 <= u < n ensures ThreadInStep(r, u) {
      assert ThreadInStep(s, u) && ThreadInStep(s, l.t);
      if l.Enter? && s.count + 1 == n && u != l.t { TheOthersSleep(s.threads, l.t, u); }
    }
  }

  lemma {:induction false} CalmRunInStep(n: nat, k: nat, s: State)
    requires ReachableIn(n, n, true, k, s) && n >= 1
    ensures InStep(s) && |s.threads| == n
  {
    EveryRun(n, n, true, k, s);
    if k == 0 {
      assert InStep(s);
    } else {
      var p, l := LastCalmStep(n, n, k, s);
      CalmRunInStep(n, k - 1, p);
      StepKeepsInStep(n, p, l);
    }
  }

  /** `n` looping threads are never more than one round apart. */
  lemma RoundsDifferByAtMostOne(n: nat, k: nat, s: State, t: nat, u: nat)
    requires ReachableIn(n, n, true, k, s) && n >= 1 && t < n && u < n
    ensures |s.rounds| == n && s.rounds[t] <= s.rounds[u] + 1
  {
    CalmRunInStep(n, k, s);
    assert ThreadInStep(s, t) && ThreadInStep(s, u);
  }

  // ---- with spurious wakeups ----

  /** Every call that has returned did so after `n` calls had entered its generation. */
  ghost predicate CallsWaited(n: nat, s: State) {
    forall i :: 0 <= i < |s.done| ==> s.done[i].enteredThen == n
  }

  /** On a barrier for one thread nobody sleeps. */
  ghost predicate AllServedAtOnce(s: State) {
    && (forall t :: 0 <= t < |s.threads| ==> s.threads[t].Running?)
    && (forall i :: 0 <= i < |s.done| ==> s.done[i].serial)
  }

  lemma StepServesAtOnce(s: State, l: Label)
    requires Counted(1, s) && AllServedAtOnce(s) && Enabled(s, l)
    ensures AllServedAtOnce(Apply(1, s, l))
  {
  }

  lemma {:induction false} OneServesAtOnce(m: nat, k: nat, s: State)
    requires ReachableIn(1, m, false, k, s)
    ensures AllServedAtOnce(s)
  {
    if k > 0 {
      var p, l := LastCountedStep(1, m, false, k, s);
      OneServesAtOnce(m, k - 1, p);
      StepServesAtOnce(p, l);
    }
  }

  lemma NobodyMakesNoCalls(n: nat, k: nat, s: State)
    requires ReachableIn(n, 0, false, k, s) && n >= 1
    ensures s.done == []
  {
    if k > 0 {
      var p, l := LastCountedStep(n, 0, false, k, s);
    }
  }

  /** A thread that enters first and is woken by nobody's signal returns alone. */
  lemma LeakedCall(n: nat, m: nat) returns (s: State)
    requires n >= 2 && m >= 1
    ensures ReachableIn(n, m, false, 3, s) && s.done == [Done(0, false, 1)]
  {
    var start := Start(m);
    var entered := Apply(n, start, Enter(0));
    NextStep(n, m, false, 0, start, Enter(0));
    assert entered.threads[0] == Asleep(0) && entered.entered == [1];
    var woken := Apply(n, entered, Spurious(0));
    NextStep(n, m, false, 1, entered, Spurious(0));
    assert woken.threads[0] == Woken(0);
    s := Apply(n, woken, Return(0));
    NextStep(n, m, false, 2, woken, Return(0));
  }

  ghost predicate AllCallsWait(n: nat, m: nat) {
    forall k: nat, s :: ReachableIn(n, m, false, k, s) ==> CallsWaited(n, s)
  }

  /** If wakeups may be spurious, the barrier makes every call wait for its generation
      only where there is nothing to wait for: for one thread, or for no callers. */
  lemma WaitsDespiteSpuriousIff(n: nat, m: nat)
    requires n >= 1
    ensures AllCallsWait(n, m) <==> n == 1 || m == 0
  {
    if n == 1 || m == 0 {
      forall k: nat, s | ReachableIn(n, m, false, k, s) ensures CallsWaited(n, s) {
        EveryRun(n, m, false, k, s);
        if m == 0 { NobodyMakesNoCalls(n, k, s); } else { OneServesAtOnce(m, k, s); }
      }
    } else {
      var s := LeakedCall(n, m);
      assert s.done[0].enteredThen == 1;
      assert !CallsWaited(n, s);
    }
  }

  /** The structure itself, and the two locked parts of `barrier_wait`: up to the
      return or the wait, and after the wait. */
  class Barrier {
    const nThreads: nat
    var count: nat
    var timesUsed: nat
    ghost var threads: seq<Pc>
    ghost var entered: seq<nat>
    ghost var rounds: seq<nat>
    ghost var done: seq<Done>

    ghost function Abs(): State
      reads this
    {
      State(count, timesUsed, threads, entered, rounds, done)
    }

    /** `barrier_init`, for `m` threads that will use it. */
    constructor (numThreads: nat, ghost m: nat)
      ensures nThreads == numThreads && Abs() == Start(m) && count == timesUsed == 0
    {
      nThreads, count, timesUsed := numThreads, 0, 0;
      threads, entered, rounds, done := seq(m, _ => Running), [0], seq(m, _ => 0), [];
    }

    /** `returned` is whether the call returns at once, with the serial value; if
        not, the caller keeps `currentTimesUsed` while it sleeps. */
    method Arrive(ghost t: nat) returns (returned: bool, currentTimesUsed: nat)
      requires Enabled(Abs(), Enter(t))
      modifies this
      ensures Abs() == Apply(nThreads, old(Abs()), Enter(t))
      ensures returned <==> old(count) + 1 == nThreads
      ensures returned ==>
        && count == 0 && timesUsed == old(timesUsed) + 1 && |threads| == |old(threads)|
        && done == old(done) + [Done(old(timesUsed), true, old(entered)[old(timesUsed)] + 1)]
        && forall u :: 0 <= u < |threads| ==>
             threads[u] == if old(threads)[u].Asleep? then Woken(old(threads)[u].gen) else old(threads)[u]
      ensures !returned ==>
        && count == old(count) + 1 && timesUsed == old(timesUsed) == currentTimesUsed && done == old(done)
        && threads == old(threads)[t := Asleep(currentTimesUsed)]
    {
      currentTimesUsed := timesUsed;
      entered := entered[timesUsed := entered[timesUsed] + 1];
      count := count + 1;
      if count == nThreads {
        done := done + [Done(timesUsed, true, entered[timesUsed])];
        rounds, entered := rounds[t := rounds[t] + 1], entered + [0];
        timesUsed := timesUsed + 1;
        count := 0;
        threads := Broadcast(threads);
        returned := true;
      } else {
        threads := threads[t := Asleep(timesUsed)];
        returned := false;
      }
    }

    method Leave(ghost t: nat, currentTimesUsed: nat) returns (serial: bool)
      requires Enabled(Abs(), Return(t)) && threads[t].gen == currentTimesUsed
      modifies this
      ensures Abs() == Apply(nThreads, old(Abs()), Return(t))
      ensures serial <==> currentTimesUsed != timesUsed
      ensures count == old(count) && timesUsed == old(timesUsed) && threads == old(threads)[t := Running]
      ensures done == old(done) + [Done(currentTimesUsed, serial, entered[currentTimesUsed])]
    {
      serial := currentTimesUsed != timesUsed;
      rounds, threads := rounds[t := rounds[t] + 1], threads[t := Running];
      done := done + [Done(currentTimesUsed, serial, entered[currentTimesUsed])];
    }
  }
}
