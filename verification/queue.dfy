/** The blocking queue of `critical_concurrency/queue.c`: a linked list under one
    mutex and one condition variable. */
module BlockingQueue {
  import opened Options

  /** The wait conditions of `queue_push` and `queue_pull`. */
  predicate PushMustWait(maxSize: int, size: nat) {
    maxSize > 0 && size >= maxSize
  }

  class Node<T> {
    const data: T
    var next: Node?<T>

    constructor (x: T)
      ensures data == x && next == null
    {
      data, next := x, null;
    }
  }

  /** Between critical regions `nodes` lists the reachable nodes. */
  class Queue<T> {
    var head: Node?<T>
    var tail: Node?<T>
    var size: int
    const maxSize: int
    ghost var nodes: seq<Node<T>>

    ghost predicate Valid()
      reads this, nodes
    {
      && size == |nodes| && (maxSize > 0 ==> size <= maxSize)
      && (nodes == [] ==> head == null && tail == null)
      && (nodes != [] ==> head == nodes[0] && tail == nodes[|nodes| - 1])
      && (forall i :: 0 <= i < |nodes| ==> nodes[i].next == After(nodes, i))
      && (forall i, j :: 0 <= i < j < |nodes| ==> nodes[i] != nodes[j])
    }

    static ghost function After(nodes: seq<Node<T>>, i: nat): Node?<T> {
      if i + 1 < |nodes| then nodes[i + 1] else null
    }

    ghost function Contents(): (s: seq<T>)
      reads this, nodes
      ensures |s| == |nodes|
    {
      var ns := nodes;
      seq(|ns|, i requires 0 <= i < |ns| => ns[i].data)
    }

    /** `queue_create` */
    constructor (max: int)
      ensures Valid() && Contents() == [] && maxSize == max
    {
      head, tail, size, maxSize, nodes := null, null, 0, max, [];
    }

    /** One critical region of `queue_push`: it goes to wait, or appends. */
    method Push(x: T) returns (done: bool)
      requires Valid()
      modifies this, nodes
      ensures Valid() && (forall n :: n in nodes ==> n in old(nodes) || fresh(n))
      ensures done <==> maxSize <= 0 || |old(Contents())| < maxSize
      ensures Contents() == if done then old(Contents()) + [x] else old(Contents())
    {
      if maxSize > 0 && size >= maxSize {
        return false;
      }
      var node := new Node(x);
      if head == null {
        head := node;
        tail := node;
      } else {
        tail.next := node;
        tail := node;
      }
      nodes := nodes + [node];
      size := size + 1;
      done := true;
      assert Contents() == old(Contents()) + [x];
    }

    /** One critical region of `queue_pull`: it goes to wait, or takes the first element. */
    method Pull() returns (x: Option<T>)
      requires Valid()
      modifies this
      ensures Valid() && (forall n :: n in nodes ==> n in old(nodes))
      ensures x.None? <==> old(Contents()) == []
      ensures Contents() == if x.None? then old(Contents()) else old(Contents())[1..]
      ensures x.Some? ==> x.value == old(Contents())[0]
    {
      if size == 0 {
        return None;
      }
      var node := head;
      x := Some(node.data);
      head := node.next;
      if head == null {
        tail := null;
      }
      nodes := nodes[1..];
      assert forall i :: 0 <= i < |nodes| ==> nodes[i] == old(nodes)[i + 1];
      size := size - 1;
      assert Contents() == old(Contents())[1..];
    }
  }
}

/** Any number of threads pushing and pulling: critical regions interleave, a
    signal wakes one sleeper of either kind, and wakeups may be spurious. */
module QueueMonitor {
  import opened BlockingQueue
  import opened Options

  datatype Pc<T> =
    | Idle
    | WantPush(x: T) | PushAsleep(x: T) | PushWoken(x: T)
    | WantPull | PullAsleep | PullWoken

  /** `pushed` and `pulled` log the completed calls in the order of their regions. */
  datatype State<T> = State(contents: seq<T>, pushed: seq<T>, pulled: seq<T>, threads: seq<Pc<T>>)

  datatype Label<T> =
    | CallPush(t: nat, x: T)
    | CallPull(t: nat)
    | Region(t: nat, woken: Option<nat>)
    | Spurious(t: nat)

  predicate Asleep<T>(pc: Pc<T>) {
    pc.PushAsleep? || pc.PullAsleep?
  }

  function Wake<T>(pc: Pc<T>): Pc<T>
    requires Asleep(pc)
  {
    match pc
    case PushAsleep(x) => PushWoken(x)
    case PullAsleep => PullWoken
  }

  /** `pthread_cond_signal`: some sleeper if there is one. */
  predicate CanSignal<T>(threads: seq<Pc<T>>, woken: Option<nat>) {
    match woken
    case None => forall u :: 0 <= u < |threads| ==> !Asleep(threads[u])
    case Some(u) => u < |threads| && Asleep(threads[u])
  }

  function Signalled<T>(threads: seq<Pc<T>>, woken: Option<nat>): seq<Pc<T>>
    requires CanSignal(threads, woken)
  {
    match woken
    case None => threads
    case Some(u) => threads[u := Wake(threads[u])]
  }

  predicate IsPush<T>(pc: Pc<T>) {
    pc.WantPush? || pc.PushWoken?
  }

  predicate IsPull<T>(pc: Pc<T>) {
    pc.WantPull? || pc.PullWoken?
  }

  predicate MustWait<T>(max: int, s: State<T>, t: nat)
    requires t < |s.threads|
  {
    if IsPush(s.threads[t]) then PushMustWait(max, |s.contents|) else s.contents == []
  }

  predicate Enabled<T>(max: int, s: State<T>, l: Label<T>) {
    && l.t < |s.threads|
    && match l {
         case CallPush(t, _) => s.threads[t].Idle?
         case CallPull(t) => s.threads[t].Idle?
         case Spurious(t) => Asleep(s.threads[t])
         case Region(t, woken) =>
           && (IsPush(s.threads[t]) || IsPull(s.threads[t]))
           && if MustWait(max, s, t) then woken == None else CanSignal(s.threads[t := Idle], woken)
       }
  }

  function Apply<T>(max: int, s: State<T>, l: Label<T>): State<T>
    requires Enabled(max, s, l)
  {
    match l
    case CallPush(t, x) => s.(threads := s.threads[t := WantPush(x)])
    case CallPull(t) => s.(threads := s.threads[t := WantPull])
    case Spurious(t) => s.(threads := s.threads[t := Wake(s.threads[t])])
    case Region(t, woken) =>
      if IsPush(s.threads[t]) then
        var x := s.threads[t].x;
        if MustWait(max, s, t) then s.(threads := s.threads[t := PushAsleep(x)])
        else State(s.contents + [x], s.pushed + [x], s.pulled, Signalled(s.threads[t := Idle], woken))
      else if MustWait(max, s, t) then s.(threads := s.threads[t := PullAsleep])
      else State(s.contents[1..], s.pushed, s.pulled + [s.contents[0]], Signalled(s.threads[t := Idle], woken))
  }

  /** The regions of the linked queue are the monitor's: if the list holds the monitor's
      contents, then after the region it holds what they have become. `woken` is the
      sleeper the signal picks. */
  method PushRegion<T>(q: Queue<T>, ghost s: State<T>, ghost t: nat, ghost woken: Option<nat>, x: T)
    returns (done: bool, ghost next: State<T>)
    requires q.Valid() && q.Contents() == s.contents
    requires Enabled(q.maxSize, s, Region(t, woken)) && IsPush(s.threads[t]) && s.threads[t].x == x
    modifies q, q.nodes
    ensures next == Apply(q.maxSize, s, Region(t, woken))
    ensures q.Valid() && q.Contents() == next.contents
    ensures next.pushed == if done then s.pushed + [x] else s.pushed
    ensures done <==> next.threads[t].Idle?
  {
    next := Apply(q.maxSize, s, Region(t, woken));
    done := q.Push(x);
  }

  method PullRegion<T>(q: Queue<T>, ghost s: State<T>, ghost t: nat, ghost woken: Option<nat>)
    returns (x: Option<T>, ghost next: State<T>)
    requires q.Valid() && q.Contents() == s.contents
    requires Enabled(q.maxSize, s, Region(t, woken)) && IsPull(s.threads[t])
    modifies q
    ensures next == Apply(q.maxSize, s, Region(t, woken))
    ensures q.Valid() && q.Contents() == next.contents
    ensures next.pulled == if x.Some? then s.pulled + [x.value] else s.pulled
    ensures x.Some? <==> next.threads[t].Idle?
  {
    next := Apply(q.maxSize, s, Region(t, woken));
    x := q.Pull();
  }

  /** A region either puts its own thread to sleep, exactly when the queue is full for a
      push or empty for a pull, and then does nothing else; or it does its work and wakes
      one sleeper of any kind if there is one, and nobody else. */
  lemma RegionEffect<T>(max: int, s: State<T>, t: nat, woken: Option<nat>)
    requires Enabled(max, s, Region(t, woken))
    ensures var n, pc := Apply(max, s, Region(t, woken)), s.threads[t];
      var push := pc.WantPush? || pc.PushWoken?;
      if (if push then 0 < max <= |s.contents| else s.contents == [])
      then n == s.(threads := s.threads[t := if push then PushAsleep(pc.x) else PullAsleep])
      else
        && n.threads[t] == Idle && |n.threads| == |s.threads|
        && (if push then n.contents == s.contents + [pc.x] && n.pushed == s.pushed + [pc.x] && n.pulled == s.pulled
            else s.contents == [s.contents[0]] + n.contents && n.pulled == s.pulled + [s.contents[0]]
                 && n.pushed == s.pushed)
        && WakesOne(s.threads, n.threads, t)
  {
    var n := Apply(max, s, Region(t, woken));
    if !MustWait(max, s, t) {
      if u :| 0 <= u < |s.threads| && u != t && Asleep(s.threads[u]) {
        assert Asleep(s.threads[t := Idle][u]);
        assert WokenAt(s.threads, n.threads, t, woken.value);
      }
      if !IsPush(s.threads[t]) { assert s.contents == [s.contents[0]] + s.contents[1..]; }
    }
  }

  /** Besides thread `t` just thread `u` has changed: it was asleep and is woken. */
  ghost predicate WokenAt<T>(before: seq<Pc<T>>, after: seq<Pc<T>>, t: nat, u: nat)
    requires |before| == |after|
  {
    && u < |before| && u != t
    && (|| (before[u].PullAsleep? && after[u] == PullWoken)
        || (before[u].PushAsleep? && after[u] == PushWoken(before[u].x)))
    && forall v :: 0 <= v < |before| && v != t && v != u ==> after[v] == before[v]
  }

  ghost predicate WakesOne<T>(before: seq<Pc<T>>, after: seq<Pc<T>>, t: nat)
    requires |before| == |after|
  {
    if exists u :: 0 <= u < |before| && u != t && (before[u].PullAsleep? || before[u].PushAsleep?)
    then exists u: nat :: WokenAt(before, after, t, u)
    else forall v :: 0 <= v < |before| && v != t ==> after[v] == before[v]
  }

  function Start<T>(n: nat): State<T> {
    State([], [], [], seq(n, _ => Idle))
  }

  ghost predicate ReachableIn<T(!new)>(max: int, n: nat, k: nat, s: State<T>) {
    if k == 0 then s == Start(n)
    else exists p, l :: ReachableIn(max, n, k - 1, p) && Enabled(max, p, l) && s == Apply(max, p, l)
  }

  ghost predicate Reachable<T(!new)>(max: int, n: nat, s: State<T>) {
    exists k: nat :: ReachableIn(max, n, k, s)
  }

  lemma Extend<T(!new)>(max: int, n: nat, s: State<T>, l: Label<T>)
    requires Reachable(max, n, s) && Enabled(max, s, l)
    ensures Reachable(max, n, Apply(max, s, l))
  {
    var k: nat :| ReachableIn(max, n, k, s);
    assert ReachableIn(max, n, k + 1, Apply(max, s, l));
  }

  // ---- first in, first out, and no lost wakeups without a bound ----

  function WokenPullers<T>(threads: seq<Pc<T>>): nat {
    if threads == [] then 0
    else WokenPullers(threads[..|threads| - 1]) + if threads[|threads| - 1].PullWoken? then 1 else 0
  }

  lemma {:induction false} WokenPullersUpdate<T>(threads: seq<Pc<T>>, t: nat, pc: Pc<T>)
    requires t < |threads|
    ensures WokenPullers(threads[t := pc]) + (if threads[t].PullWoken? then 1 else 0)
         == WokenPullers(threads) + (if pc.PullWoken? then 1 else 0)
  {
    var front := threads[..|threads| - 1];
    if t < |front| {
      WokenPullersUpdate(front, t, pc);
      assert threads[t := pc][..|threads| - 1] == front[t := pc];
    } else {
      assert threads[t := pc][..|threads| - 1] == front;
    }
  }

  /** Elements come out in the order they went in, and a bound is respected. */
  ghost predicate Fifo<T>(max: int, s: State<T>) {
    s.pushed == s.pulled + s.contents && (max > 0 ==> |s.contents| <= max)
  }

  ghost predicate SomePullerSleeps<T>(s: State<T>) {
    exists t :: 0 <= t < |s.threads| && s.threads[t].PullAsleep?
  }

  /** Without a bound, pushers never sleep, and while a puller sleeps every element
      has a woken puller coming for it. */
  ghost predicate NoLostWakeup<T>(max: int, s: State<T>) {
    max <= 0 ==>
      && (forall t :: 0 <= t < |s.threads| ==> !s.threads[t].PushAsleep? && !s.threads[t].PushWoken?)
      && (SomePullerSleeps(s) ==> WokenPullers(s.threads) >= |s.contents|)
  }

  lemma StepKeepsFifo<T>(max: int, s: State<T>, l: Label<T>)
    requires Fifo(max, s) && Enabled(max, s, l)
    ensures Fifo(max, Apply(max, s, l))
  {
    var n := Apply(max, s, l);
    if n.pulled != s.pulled {
      assert s.contents == [s.contents[0]] + s.contents[1..];
    }
  }

  lemma StepKeepsWakeups<T>(max: int, s: State<T>, l: Label<T>)
    requires NoLostWakeup(max, s) && Enabled(max, s, l) && max <= 0
    ensures NoLostWakeup(max, Apply(max, s, l))
  {
    var n := Apply(max, s, l);
    match l
    case CallPush(t, x) => WokenPullersUpdate(s.threads, t, WantPush(x)); SleepersBefore(s, n, t);
    case CallPull(t) => WokenPullersUpdate(s.threads, t, WantPull); SleepersBefore(s, n, t);
    case Spurious(t) => WokenPullersUpdate(s.threads, t, PullWoken);
    case Region(t, woken) =>
      if !IsPush(s.threads[t]) && MustWait(max, s, t) {
      } else {
        var left := s.threads[t := Idle];
        WokenPullersUpdate(s.threads, t, Idle);
        if woken.Some? {
          WokenPullersUpdate(left, woken.value, PullWoken);
          assert left[woken.value].PullAsleep? && s.threads[woken.value].PullAsleep?;
        }
      }
  }

  /** A thread that leaves `Idle` does not put anyone to sleep. */
  lemma SleepersBefore<T>(s: State<T>, n: State<T>, t: nat)
    requires t < |s.threads| && |n.threads| == |s.threads| && !n.threads[t].PullAsleep?
    requires forall u :: 0 <= u < |s.threads| && u != t ==> n.threads[u] == s.threads[u]
    ensures SomePullerSleeps(n) ==> SomePullerSleeps(s)
  {
  }

  lemma {:induction false} EveryRun<T(!new)>(max: int, n: nat, k: nat, s: State<T>)
    requires ReachableIn(max, n, k, s)
    ensures Fifo(max, s) && NoLostWakeup(max, s)
  {
    if k > 0 {
      var p, l :| ReachableIn(max, n, k - 1, p) && Enabled(max, p, l) && s == Apply(max, p, l);
      EveryRun(max, n, k - 1, p);
      StepKeepsFifo(max, p, l);
      if max <= 0 { StepKeepsWakeups(max, p, l); }
    }
  }

  // ---- when a queue can stall ----

  /** Nobody is running or woken, and somebody sleeps who need not. */
  ghost predicate Stalled<T>(max: int, s: State<T>) {
    && (forall t :: 0 <= t < |s.threads| ==> s.threads[t].Idle? || Asleep(s.threads[t]))
    && exists t :: 0 <= t < |s.threads| && SleepsInVain(max, s, t)
  }

  predicate SleepsInVain<T>(max: int, s: State<T>, t: nat)
    requires t < |s.threads|
  {
    || (s.threads[t].PushAsleep? && !PushMustWait(max, |s.contents|))
    || (s.threads[t].PullAsleep? && s.contents != [])
  }

  lemma {:induction false} NoWokenPuller<T>(threads: seq<Pc<T>>)
    requires forall t :: 0 <= t < |threads| ==> !threads[t].PullWoken?
    ensures WokenPullers(threads) == 0
  {
    if threads != [] { NoWokenPuller(threads[..|threads| - 1]); }
  }

  function Copies<T>(x: T, n: nat): seq<T> {
    seq(n, _ => x)
  }

  /** The stages of a stall with bound `m`: thread 0 pushes, threads 1 to 2m pull. */
  function Sleeping<T>(m: nat, i: nat): State<T> {
    State([], [], [], seq(2 * m + 1, t => if 1 <= t <= i then PullAsleep else Idle))
  }

  function Filling<T>(m: nat, j: nat, x: T): State<T> {
    State(Copies(x, j), Copies(x, j), [],
          seq(2 * m + 1, t => if t == 0 then Idle else if t <= j then PullWoken else PullAsleep))
  }

  function Draining<T>(m: nat, j: nat, x: T): State<T>
    requires j <= m
  {
    State(Copies(x, m - j), Copies(x, m), Copies(x, j),
          seq(2 * m + 1, t => if t == 0 then PushAsleep(x) else if t <= j then Idle
                              else if t <= m + j then PullWoken else PullAsleep))
  }

  function Resleeping<T>(m: nat, j: nat, x: T): State<T> {
    State([], Copies(x, m), Copies(x, m),
          seq(2 * m + 1, t => if t == 0 then PushAsleep(x) else if t <= m then Idle
                              else if t <= m + j then PullAsleep else PullWoken))
  }

  lemma {:induction false} SleepingIsReachable<T(!new)>(m: nat, i: nat)
    requires i <= 2 * m
    ensures Reachable(m, 2 * m + 1, Sleeping<T>(m, i))
  {
    if i == 0 {
      assert Sleeping<T>(m, 0) == Start(2 * m + 1);
      assert ReachableIn(m, 2 * m + 1, 0, Sleeping<T>(m, 0));
    } else {
      SleepingIsReachable<T>(m, i - 1);
      var s := Sleeping<T>(m, i - 1);
      Extend(m, 2 * m + 1, s, CallPull(i));
      var called := Apply(m, s, CallPull(i));
      Extend(m, 2 * m + 1, called, Region(i, None));
      assert Apply(m, called, Region(i, None)) == Sleeping<T>(m, i);
    }
  }

  lemma PushFillsOne<T>(m: nat, j: nat, x: T)
    requires 1 <= j <= m
    ensures Enabled(m, Filling(m, j - 1, x), CallPush(0, x))
    ensures var called := Apply(m, Filling(m, j - 1, x), CallPush(0, x));
      Enabled(m, called, Region(0, Some(j))) && Apply(m, called, Region(0, Some(j))) == Filling(m, j, x)
  {
    var called := Apply(m, Filling(m, j - 1, x), CallPush(0, x));
    assert called.threads[0 := Idle][j] == PullAsleep;
    var next := Apply(m, called, Region(0, Some(j)));
    assert next.contents == Copies(x, j) && next.pushed == Copies(x, j) && next.pulled == [];
    assert next.threads == Filling(m, j, x).threads;
  }

  lemma {:induction false} FillingIsReachable<T(!new)>(m: nat, j: nat, x: T)
    requires j <= m
    ensures Reachable(m, 2 * m + 1, Filling(m, j, x))
  {
    if j == 0 {
      SleepingIsReachable<T>(m, 2 * m);
      assert Filling(m, 0, x) == Sleeping<T>(m, 2 * m);
    } else {
      FillingIsReachable(m, j - 1, x);
      PushFillsOne(m, j, x);
      var s := Filling(m, j - 1, x);
      Extend(m, 2 * m + 1, s, CallPush(0, x));
      Extend(m, 2 * m + 1, Apply(m, s, CallPush(0, x)), Region(0, Some(j)));
    }
  }

  lemma PusherSleeps<T(!new)>(m: nat, x: T)
    requires 1 <= m
    ensures Reachable(m, 2 * m + 1, Draining(m, 0, x))
  {
    FillingIsReachable(m, m, x);
    var s := Filling(m, m, x);
    Extend(m, 2 * m + 1, s, CallPush(0, x));
    var called := Apply(m, s, CallPush(0, x));
    Extend(m, 2 * m + 1, called, Region(0, None));
    assert Apply(m, called, Region(0, None)) == Draining(m, 0, x);
  }

  lemma {:induction false} DrainingIsReachable<T(!new)>(m: nat, j: nat, x: T)
    requires 1 <= m && j <= m
    ensures Reachable(m, 2 * m + 1, Draining(m, j, x))
  {
    if j == 0 {
      PusherSleeps(m, x);
    } else {
      DrainingIsReachable(m, j - 1, x);
      var s := Draining(m, j - 1, x);
      assert s.threads[j] == PullWoken && s.threads[j := Idle][m + j] == PullAsleep;
      Extend(m, 2 * m + 1, s, Region(j, Some(m + j)));
      var next := Apply(m, s, Region(j, Some(m + j)));
      assert next.contents == Copies(x, m - j) && next.pulled == Copies(x, j);
      assert next.threads == Draining(m, j, x).threads;
    }
  }

  lemma {:induction false} ResleepingIsReachable<T(!new)>(m: nat, j: nat, x: T)
    requires 1 <= m && j <= m
    ensures Reachable(m, 2 * m + 1, Resleeping(m, j, x))
  {
    if j == 0 {
      DrainingIsReachable(m, m, x);
      assert Resleeping(m, 0, x) == Draining(m, m, x);
    } else {
      ResleepingIsReachable(m, j - 1, x);
      var s := Resleeping(m, j - 1, x);
      Extend(m, 2 * m + 1, s, Region(m + j, None));
      assert Apply(m, s, Region(m + j, None)) == Resleeping(m, j, x);
    }
  }

  /** One condition variable with single signals is enough exactly for unbounded
      queues: with any bound `m`, one pusher and 2m pullers can stall. */
  lemma NeverStallsIffUnbounded<T(!new)>(max: int, x: T)
    ensures (forall n: nat, s: State<T> :: Reachable(max, n, s) ==> !Stalled(max, s)) <==> max <= 0
  {
    if max <= 0 {
      forall n: nat, s: State<T> | Reachable(max, n, s) ensures !Stalled(max, s) {
        var k: nat :| ReachableIn(max, n, k, s);
        EveryRun(max, n, k, s);
        if forall t :: 0 <= t < |s.threads| ==> s.threads[t].Idle? || Asleep(s.threads[t]) { NoWokenPuller(s.threads); }
      }
    } else {
      ResleepingIsReachable(max, max, x);
      var s := Resleeping(max, max, x);
      assert SleepsInVain(max, s, 0);
      assert Reachable(max, 2 * max + 1, s) && Stalled(max, s);
    }
  }
}
