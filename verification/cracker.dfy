/** The worker pool of `password_cracker/cracker1.c`: `start` fills an unbounded
    queue with the lines and one NULL per worker, then the workers pull until they
    get a NULL. */
module Cracker {
  import opened Options

  /** A worker between pulls, at work on line `i`, or gone. `found` is whether it has
      added to `recovered` for that line. */
  datatype Pc = Pulling | Working(i: nat, found: bool) | Exited

  /** `cracks[i]` is whether the search of line `i` reaches its password before
      `incrementString` runs over. */
  datatype Config = Config(cracks: seq<bool>, workers: nat)

  /** Queue entries are line numbers, or `None` for NULL. `processed` logs finished
      lines, `nulls[w]` the NULLs worker `w` has taken. */
  datatype State = State(queue: seq<Option<nat>>, workers: seq<Pc>,
                         recovered: nat, processed: seq<nat>, nulls: seq<nat>)

  datatype Label = Pull(w: nat) | Recover(w: nat) | Finish(w: nat)

  /** `start` up to the creation of the threads. */
  method Fill(lines: seq<bool>, threadCount: nat) returns (queue: seq<Option<nat>>, totalNum: nat)
    ensures totalNum == |lines| && queue == Start(Config(lines, threadCount)).queue
    ensures |queue| == |lines| + threadCount
    ensures forall j :: 0 <= j < |queue| ==> queue[j] == if j < |lines| then Some(j) else None
  {
    queue, totalNum := [], 0;
    for i := 0 to |lines|
      invariant totalNum == i && queue == seq(i, j => Some(j))
    {
      queue := queue + [Some(i)];
      totalNum := totalNum + 1;
    }
    ghost var lined := queue;
    for i := 0 to threadCount
      invariant queue == lined + seq(i, _ => None)
    {
      queue := queue + [None];
    }
  }

  function Start(c: Config): State {
    State(seq(|c.cracks|, j => Some(j)) + seq(c.workers, _ => None), seq(c.workers, _ => Pulling), 0, [],
          seq(c.workers, _ => 0))
  }

  predicate Enabled(c: Config, s: State, l: Label) {
    && l.w < |s.workers| == |s.nulls|
    && match l {
         case Pull(w) => s.workers[w].Pulling? && s.queue != []
         case Recover(w) =>
           s.workers[w].Working? && s.workers[w].i < |c.cracks| && c.cracks[s.workers[w].i] && !s.workers[w].found
         case Finish(w) =>
           s.workers[w].Working? && s.workers[w].i < |c.cracks| && s.workers[w].found == c.cracks[s.workers[w].i]
       }
  }

  function Apply(c: Config, s: State, l: Label): State
    requires Enabled(c, s, l)
  {
    match l
    case Pull(w) =>
      var rest := s.(queue := s.queue[1..]);
      (match s.queue[0]
       case Some(i) => rest.(workers := s.workers[w := Working(i, false)])
       case None => rest.(workers := s.workers[w := Exited], nulls := s.nulls[w := s.nulls[w] + 1]))
    case Recover(w) =>
      s.(recovered := s.recovered + 1, workers := s.workers[w := Working(s.workers[w].i, true)])
    case Finish(w) =>
      s.(processed := s.processed + [s.workers[w].i], workers := s.workers[w := Pulling])
  }

  ghost predicate ReachableIn(c: Config, k: nat, s: State) {
    if k == 0 then s == Start(c)
    else exists p, l :: ReachableIn(c, k - 1, p) && Enabled(c, p, l) && s == Apply(c, p, l)
  }

  lemma NextStep(c: Config, k: nat, s: State, l: Label)
    requires ReachableIn(c, k, s) && Enabled(c, s, l)
    ensures ReachableIn(c, k + 1, Apply(c, s, l))
  {
  }

  // ---- counting ----

  /** 1 for a worker that is at work on line `i`. */
  function On(pc: Pc, i: nat): nat {
    if pc.Working? && pc.i == i then 1 else 0
  }

  function Live(pc: Pc): nat {
    if pc.Exited? then 0 else 1
  }

  function Found(pc: Pc): nat {
    if pc.Working? && pc.found then 1 else 0
  }

  /** How many workers are at work on line `i`. */
  function AtWork(workers: seq<Pc>, i: nat): nat {
    Sum(pc => On(pc, i), workers)
  }

  function Sum(f: Pc -> nat, workers: seq<Pc>): nat {
    if workers == [] then 0 else Sum(f, workers[..|workers| - 1]) + f(workers[|workers| - 1])
  }

  lemma {:induction false} SumUpdate(f: Pc -> nat, workers: seq<Pc>, w: nat, pc: Pc)
    requires w < |workers|
    ensures Sum(f, workers[w := pc]) + f(workers[w]) == Sum(f, workers) + f(pc)
  {
    var front := workers[..|workers| - 1];
    if w < |front| {
      SumUpdate(f, front, w, pc);
      assert workers[w := pc][..|workers| - 1] == front[w := pc];
    } else {
      assert workers[w := pc][..|workers| - 1] == front;
    }
  }

  lemma {:induction false} SumAtLeast(f: Pc -> nat, workers: seq<Pc>, w: nat)
    requires w < |workers|
    ensures Sum(f, workers) >= f(workers[w])
  {
    if w < |workers| - 1 { SumAtLeast(f, workers[..|workers| - 1], w); }
  }

  lemma {:induction false} SumOfConstant(f: Pc -> nat, workers: seq<Pc>, v: nat)
    requires forall w :: 0 <= w < |workers| ==> f(workers[w]) == v
    ensures Sum(f, workers) == v * |workers|
  {
    if workers != [] { SumOfConstant(f, workers[..|workers| - 1], v); }
  }

  /** How many of `done` crack. */
  function Cracked(c: Config, done: seq<nat>): nat {
    if done == [] then 0
    else Cracked(c, done[..|done| - 1]) + if done[|done| - 1] < |c.cracks| && c.cracks[done[|done| - 1]] then 1 else 0
  }

  // ---- every run ----

  /** `h` lines have been handed out: the queue holds the others in order, and then
      a NULL for each live worker. */
  ghost predicate QueueHolds(c: Config, s: State, h: nat) {
    && h <= |c.cracks| && |s.workers| == |s.nulls| == c.workers
    && (forall j :: 0 <= j < |c.cracks| - h ==> j < |s.queue| && s.queue[j] == Some(h + j))
    && (forall j :: |c.cracks| - h <= j < |s.queue| ==> s.queue[j] == None)
    && |s.queue| == |c.cracks| - h + Sum(Live, s.workers)
    && (forall w :: 0 <= w < |s.workers| ==> s.nulls[w] == if s.workers[w].Exited? then 1 else 0)
    && (forall w :: 0 <= w < |s.workers| ==> s.workers[w].Exited? ==> h == |c.cracks|)
  }

  /** A line handed out is finished or in one worker's hands; no other is. */
  ghost predicate EachOnce(c: Config, s: State, h: nat) {
    forall i: nat :: multiset(s.processed)[i] + AtWork(s.workers, i) == if i < h then 1 else 0
  }

  /** `recovered` counts the finished lines that crack and those just found. */
  ghost predicate RecoveredCounts(c: Config, s: State) {
    s.recovered == Cracked(c, s.processed) + Sum(Found, s.workers)
  }

  function HandedOut(s: State, l: Label, h: nat): nat {
    if l.Pull? && s.queue != [] && s.queue[0].Some? then h + 1 else h
  }

  lemma StepKeepsQueue(c: Config, s: State, l: Label, h: nat)
    requires QueueHolds(c, s, h) && Enabled(c, s, l)
    ensures QueueHolds(c, Apply(c, s, l), HandedOut(s, l, h))
  {
    SumUpdate(Live, s.workers, l.w, Apply(c, s, l).workers[l.w]);
  }

  lemma StepKeepsEachOnce(c: Config, s: State, l: Label, h: nat)
    requires QueueHolds(c, s, h) && EachOnce(c, s, h) && Enabled(c, s, l)
    ensures EachOnce(c, Apply(c, s, l), HandedOut(s, l, h))
  {
    var n := Apply(c, s, l);
    forall i: nat
      ensures multiset(n.processed)[i] + AtWork(n.workers, i) == if i < HandedOut(s, l, h) then 1 else 0 {
      SumUpdate(pc => On(pc, i), s.workers, l.w, n.workers[l.w]);
      assert multiset(s.processed)[i] + AtWork(s.workers, i) == if i < h then 1 else 0;
    }
  }

  lemma StepKeepsRecovered(c: Config, s: State, l: Label)
    requires RecoveredCounts(c, s) && Enabled(c, s, l)
    ensures RecoveredCounts(c, Apply(c, s, l))
  {
    var n := Apply(c, s, l);
    SumUpdate(Found, s.workers, l.w, n.workers[l.w]);
    if l.Finish? { assert n.processed[..|n.processed| - 1] == s.processed; }
  }

  lemma StartHolds(c: Config)
    ensures QueueHolds(c, Start(c), 0) && EachOnce(c, Start(c), 0) && RecoveredCounts(c, Start(c))
  {
    var s := Start(c);
    SumOfConstant(Live, s.workers, 1);
    SumOfConstant(Found, s.workers, 0);
    forall i: nat ensures AtWork(s.workers, i) == 0 {
      SumOfConstant(pc => On(pc, i), s.workers, 0);
    }
  }

  lemma {:induction false} EveryRun(c: Config, k: nat, s: State) returns (h: nat)
    requires ReachableIn(c, k, s)
    ensures QueueHolds(c, s, h) && EachOnce(c, s, h) && RecoveredCounts(c, s)
  {
    if k == 0 {
      h := 0;
      StartHolds(c);
    } else {
      var p, l :| ReachableIn(c, k - 1, p) && Enabled(c, p, l) && s == Apply(c, p, l);
      var g := EveryRun(c, k - 1, p);
      h := HandedOut(p, l, g);
      StepKeepsQueue(c, p, l, g);
      StepKeepsEachOnce(c, p, l, g);
      StepKeepsRecovered(c, p, l);
    }
  }

  /** No worker ever finds the queue empty: the pool steps until all have exited. */
  lemma NoPullBlocks(c: Config, k: nat, s: State, w: nat)
    requires ReachableIn(c, k, s) && w < |s.workers| && !s.workers[w].Exited?
    ensures s.queue != [] && exists l: Label :: l.w == w && Enabled(c, s, l)
  {
    var h := EveryRun(c, k, s);
    SumAtLeast(Live, s.workers, w);
    match s.workers[w]
    case Pulling => assert Enabled(c, s, Pull(w));
    case Working(i, found) =>
      SumAtLeast(pc => On(pc, i), s.workers, w);
      assert multiset(s.processed)[i] + AtWork(s.workers, i) == if i < h then 1 else 0;
      if found { WorkerIsHonest(c, k, s, w); }
      assert Enabled(c, s, Recover(w)) || Enabled(c, s, Finish(w));
  }

  /** Only lines that crack are reported found. */
  lemma {:induction false} WorkerIsHonest(c: Config, k: nat, s: State, w: nat)
    requires ReachableIn(c, k, s) && w < |s.workers| && s.workers[w].Working? && s.workers[w].found
    ensures s.workers[w].i < |c.cracks| && c.cracks[s.workers[w].i]
  {
    if k > 0 {
      var p, l :| ReachableIn(c, k - 1, p) && Enabled(c, p, l) && s == Apply(c, p, l);
      if l.w != w { WorkerIsHonest(c, k - 1, p, w); }
    }
  }

  /** Runs are bounded: every step uses up some of this. */
  function Remaining(s: State): nat {
    4 * |s.queue| + Sum(Effort, s.workers)
  }

  function Effort(pc: Pc): nat {
    if pc.Working? then if pc.found then 2 else 3 else 1
  }

  lemma StepUsesUp(c: Config, s: State, l: Label)
    requires Enabled(c, s, l)
    ensures Remaining(Apply(c, s, l)) < Remaining(s)
  {
    SumUpdate(Effort, s.workers, l.w, Apply(c, s, l).workers[l.w]);
  }

  function Lines(n: nat): seq<nat> {
    seq(n, j => j)
  }

  lemma {:induction false} LinesOnce(n: nat, i: nat)
    ensures multiset(Lines(n))[i] == if i < n then 1 else 0
  {
    if n > 0 {
      LinesOnce(n - 1, i);
      assert Lines(n) == Lines(n - 1) + [n - 1];
    }
  }

  /** The count does not depend on the order of the lines. */
  lemma {:induction false} CrackedInAnyOrder(c: Config, a: seq<nat>, b: seq<nat>)
    requires multiset(a) == multiset(b)
    ensures Cracked(c, a) == Cracked(c, b)
    decreases |a|
  {
    SameLength(a, b);
    if a != [] {
      var front, x := a[..|a| - 1], a[|a| - 1];
      assert x in a && x in multiset(b);
      var p :| 0 <= p < |b| && b[p] == x;
      var rest := b[..p] + b[p + 1..];
      assert multiset(front) == multiset(rest) by {
        TakenOut(a, |a| - 1);
        TakenOut(b, p);
        assert a[..|a| - 1] + a[|a|..] == front;
      }
      CrackedInAnyOrder(c, front, rest);
      CrackedWithout(c, b, p);
    }
  }

  lemma SameLength(a: seq<nat>, b: seq<nat>)
    requires multiset(a) == multiset(b)
    ensures |a| == |b|
  {
    assert |multiset(a)| == |multiset(b)|;
  }

  lemma TakenOut(b: seq<nat>, p: nat)
    requires p < |b|
    ensures multiset(b[..p] + b[p + 1..]) == multiset(b) - multiset{b[p]}
  {
    assert b == b[..p] + [b[p]] + b[p + 1..];
  }

  lemma {:induction false} CrackedWithout(c: Config, b: seq<nat>, p: nat)
    requires p < |b|
    ensures Cracked(c, b) == Cracked(c, b[..p] + b[p + 1..]) + Cracked(c, [b[p]])
    decreases |b|
  {
    var rest := b[..p] + b[p + 1..];
    if p == |b| - 1 {
      assert rest == b[..|b| - 1];
    } else {
      var front := b[..|b| - 1];
      CrackedWithout(c, front, p);
      assert rest[..|rest| - 1] == front[..p] + front[p + 1..];
    }
  }

  /** With everything handed out and nobody at work, each line was processed once. */
  lemma ProcessedOnce(c: Config, s: State)
    requires EachOnce(c, s, |c.cracks|) && forall w :: 0 <= w < |s.workers| ==> s.workers[w].Exited?
    ensures multiset(s.processed) == multiset(Lines(|c.cracks|))
  {
    forall i: nat ensures multiset(s.processed)[i] == multiset(Lines(|c.cracks|))[i] {
      SumOfConstant(pc => On(pc, i), s.workers, 0);
      LinesOnce(|c.cracks|, i);
      assert multiset(s.processed)[i] + AtWork(s.workers, i) == if i < |c.cracks| then 1 else 0;
    }
  }

  /** When all workers have exited, as they all do, each took one NULL; with at least
      one worker every line was processed exactly once, and `recovered` is the number
      of lines that crack, whatever the schedule. */
  lemma AllDone(c: Config, k: nat, s: State)
    requires ReachableIn(c, k, s) && forall w :: 0 <= w < |s.workers| ==> s.workers[w].Exited?
    ensures |s.nulls| == c.workers && forall w :: 0 <= w < c.workers ==> s.nulls[w] == 1
    ensures c.workers >= 1 ==>
      && s.queue == [] && (forall i: nat :: multiset(s.processed)[i] == if i < |c.cracks| then 1 else 0)
      && s.recovered == |set i | 0 <= i < |c.cracks| && c.cracks[i]| <= |c.cracks|
  {
    var h := EveryRun(c, k, s);
    SumOfConstant(Live, s.workers, 0);
    SumOfConstant(Found, s.workers, 0);
    if c.workers >= 1 {
      assert s.workers[0].Exited?;
      ProcessedOnce(c, s);
      CrackedInAnyOrder(c, s.processed, Lines(|c.cracks|));
      CrackedAtMost(c, Lines(|c.cracks|));
      CrackedIsSet(c, |c.cracks|);
      forall i: nat ensures multiset(s.processed)[i] == if i < |c.cracks| then 1 else 0 { LinesOnce(|c.cracks|, i); }
    }
  }

  lemma {:induction false} CrackedAtMost(c: Config, done: seq<nat>)
    ensures Cracked(c, done) <= |done|
  {
    if done != [] { CrackedAtMost(c, done[..|done| - 1]); }
  }

  lemma OneMore(cracks: seq<bool>, n: nat)
    requires 0 < n <= |cracks|
    ensures |set i | 0 <= i < n && cracks[i]| ==
            |set i | 0 <= i < n - 1 && cracks[i]| + if cracks[n - 1] then 1 else 0
  {
    var before := set i | 0 <= i < n - 1 && cracks[i];
    assert (set i | 0 <= i < n && cracks[i]) == if cracks[n - 1] then before + {n - 1} else before;
  }

  lemma {:induction false} CrackedIsSet(c: Config, n: nat)
    requires n <= |c.cracks|
    ensures Cracked(c, Lines(n)) == |set i | 0 <= i < n && c.cracks[i]|
  {
    if n > 0 {
      CrackedIsSet(c, n - 1);
      assert Lines(n)[..|Lines(n)| - 1] == Lines(n - 1);
      OneMore(c.cracks, n);
    }
  }

  ghost predicate Reachable(c: Config, s: State) {
    exists k: nat :: ReachableIn(c, k, s)
  }

  /** One step of a live worker. */
  method Schedule(c: Config, s: State, w: nat) returns (next: State)
    requires Reachable(c, s) && w < |s.workers| && !s.workers[w].Exited?
    ensures Reachable(c, next) && Remaining(next) < Remaining(s)
  {
    ghost var k: nat :| ReachableIn(c, k, s);
    NoPullBlocks(c, k, s, w);
    var l: Label :| l.w == w && Enabled(c, s, l);
    StepUsesUp(c, s, l);
    NextStep(c, k, s, l);
    next := Apply(c, s, l);
  }

  /** `start`: fill the queue, let the workers run in whatever order the scheduler
      picks, and report. All runs end, and with a worker all report the same. */
  method StartCracking(lines: seq<bool>, threadCount: nat) returns (recovered: nat, failed: int)
    ensures recovered == if threadCount == 0 then 0 else |set i | 0 <= i < |lines| && lines[i]|
    ensures 0 <= failed == |lines| - recovered
  {
    var c := Config(lines, threadCount);
    var queue, totalNum := Fill(lines, threadCount);
    var s := Start(c).(queue := queue);
    assert ReachableIn(c, 0, s);
    while exists w :: 0 <= w < |s.workers| && !s.workers[w].Exited?
      invariant Reachable(c, s) && (threadCount == 0 ==> s == Start(c))
      decreases Remaining(s)
    {
      var w :| 0 <= w < |s.workers| && !s.workers[w].Exited?;
      s := Schedule(c, s, w);
    }
    ghost var k: nat :| ReachableIn(c, k, s);
    AllDone(c, k, s);
    recovered, failed := s.recovered, totalNum - s.recovered;
  }
}
