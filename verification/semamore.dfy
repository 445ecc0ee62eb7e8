/** The two-sided semaphore of `critical_concurrency/semamore.c`: both ends block,
    and every change of the value is broadcast. */
module Semaphores {
  datatype Pc = Idle | WantWait | WaitAsleep | WantPost | PostAsleep

  /** `waits` and `posts` count completed calls. */
  datatype State = State(value: int, waits: nat, posts: nat, threads: seq<Pc>)

  datatype Label = CallWait(t: nat) | CallPost(t: nat) | Region(t: nat) | Spurious(t: nat)

  function Woken(pc: Pc): Pc {
    match pc
    case WaitAsleep => WantWait
    case PostAsleep => WantPost
    case _ => pc
  }

  function Broadcast(threads: seq<Pc>): (woken: seq<Pc>)
    ensures |woken| == |threads| && forall t :: 0 <= t < |woken| ==> !woken[t].WaitAsleep? && !woken[t].PostAsleep?
  {
    seq(|threads|, t requires 0 <= t < |threads| => Woken(threads[t]))
  }

  /** Thread `t` is through with its call, and all sleepers are back at their test. */
  ghost predicate AllWoken(before: seq<Pc>, after: seq<Pc>, t: nat) {
    && t < |before| == |after| && after[t] == Idle
    && forall u :: 0 <= u < |before| && u != t ==>
         after[u] == match before[u] { case WaitAsleep => WantWait case PostAsleep => WantPost case pc => pc }
  }

  predicate Enabled(s: State, l: Label) {
    && l.t < |s.threads|
    && match l {
         case CallWait(t) => s.threads[t] == Idle
         case CallPost(t) => s.threads[t] == Idle
         case Region(t) => s.threads[t] == WantWait || s.threads[t] == WantPost
         case Spurious(t) => s.threads[t] == WaitAsleep || s.threads[t] == PostAsleep
       }
  }

  /** A region runs from getting the mutex to `pthread_cond_wait` or the unlock. */
  function Apply(max: int, s: State, l: Label): State
    requires Enabled(s, l)
  {
    match l
    case CallWait(t) => s.(threads := s.threads[t := WantWait])
    case CallPost(t) => s.(threads := s.threads[t := WantPost])
    case Spurious(t) => s.(threads := s.threads[t := Woken(s.threads[t])])
    case Region(t) =>
      if s.threads[t] == WantWait then
        if s.value == 0 then s.(threads := s.threads[t := WaitAsleep])
        else State(s.value - 1, s.waits + 1, s.posts, Broadcast(s.threads[t := Idle]))
      else
        if s.value == max then s.(threads := s.threads[t := PostAsleep])
        else State(s.value + 1, s.waits, s.posts + 1, Broadcast(s.threads[t := Idle]))
  }

  ghost predicate ReachableIn(init: int, max: int, n: nat, k: nat, s: State) {
    if k == 0 then s == State(init, 0, 0, seq(n, _ => Idle))
    else exists p, l :: ReachableIn(init, max, n, k - 1, p) && Enabled(p, l) && s == Apply(max, p, l)
  }

  /** Nobody sleeps without reason. */
  ghost predicate SleepersMustSleep(max: int, s: State) {
    forall t :: 0 <= t < |s.threads| ==>
      (s.threads[t] == WaitAsleep ==> s.value == 0) && (s.threads[t] == PostAsleep ==> s.value == max)
  }

  ghost predicate Balanced(init: int, s: State) {
    s.value == init + s.posts - s.waits
  }

  lemma StepKeeps(init: int, max: int, s: State, l: Label)
    requires Balanced(init, s) && SleepersMustSleep(max, s) && Enabled(s, l)
    ensures Balanced(init, Apply(max, s, l)) && SleepersMustSleep(max, Apply(max, s, l))
    ensures |Apply(max, s, l).threads| == |s.threads|
    ensures 0 <= s.value <= max ==> 0 <= Apply(max, s, l).value <= max
  {
  }

  lemma {:induction false} EveryRun(init: int, max: int, n: nat, k: nat, s: State)
    requires ReachableIn(init, max, n, k, s)
    ensures Balanced(init, s) && SleepersMustSleep(max, s) && |s.threads| == n
    ensures 0 <= init <= max ==> 0 <= s.value <= max
  {
    if k > 0 {
      var p, l :| ReachableIn(init, max, n, k - 1, p) && Enabled(p, l) && s == Apply(max, p, l);
      EveryRun(init, max, n, k - 1, p);
      StepKeeps(init, max, p, l);
    }
  }

  /** Waiters and posters never sleep at the same time, except on a semaphore that
      can hold nothing. */
  lemma OnlyOneSideSleeps(init: int, max: int, n: nat, k: nat, s: State, t: nat, u: nat)
    requires ReachableIn(init, max, n, k, s) && t < n && u < n && max != 0
    ensures |s.threads| == n && !(s.threads[t] == WaitAsleep && s.threads[u] == PostAsleep)
  {
    EveryRun(init, max, n, k, s);
  }

  /** When nobody runs, the waiters left asleep are owed nothing: every credit,
      initial or posted, has been taken. Dually for posters. */
  lemma SleepersAreOwedNothing(init: int, max: int, n: nat, k: nat, s: State, t: nat)
    requires ReachableIn(init, max, n, k, s) && t < n
    ensures |s.threads| == n
    ensures s.threads[t] == WaitAsleep ==> s.waits == init + s.posts
    ensures s.threads[t] == PostAsleep ==> s.posts + init == max + s.waits
  {
    EveryRun(init, max, n, k, s);
  }

  ghost predicate Reachable(init: int, max: int, n: nat, s: State) {
    exists k: nat :: ReachableIn(init, max, n, k, s)
  }

  lemma Extend(init: int, max: int, n: nat, s: State, l: Label)
    requires Reachable(init, max, n, s) && Enabled(s, l)
    ensures Reachable(init, max, n, Apply(max, s, l))
  {
    var k: nat :| ReachableIn(init, max, n, k, s);
    assert ReachableIn(init, max, n, k + 1, Apply(max, s, l));
  }

  /** One thread, in between its calls, can make a post that does not sleep. */
  lemma OnePost(init: int, max: int, s: State)
    requires Reachable(init, max, 1, s) && s.threads == [Idle] && s.value != max
    ensures Reachable(init, max, 1, State(s.value + 1, s.waits, s.posts + 1, [Idle]))
  {
    var called := s.(threads := [WantPost]);
    assert Apply(max, s, CallPost(0)) == called by { assert s.threads[0 := WantPost] == [WantPost]; }
    Extend(init, max, 1, s, CallPost(0));
    assert Apply(max, called, Region(0)) == State(s.value + 1, s.waits, s.posts + 1, [Idle]) by {
      assert [WantPost][0 := Idle] == Broadcast([Idle]) == [Idle];
    }
    Extend(init, max, 1, called, Region(0));
  }

  /** And a wait. */
  lemma OneWait(init: int, max: int, s: State)
    requires Reachable(init, max, 1, s) && s.threads == [Idle] && s.value != 0
    ensures Reachable(init, max, 1, State(s.value - 1, s.waits + 1, s.posts, [Idle]))
  {
    var called := s.(threads := [WantWait]);
    assert Apply(max, s, CallWait(0)) == called by { assert s.threads[0 := WantWait] == [WantWait]; }
    Extend(init, max, 1, s, CallWait(0));
    assert Apply(max, called, Region(0)) == State(s.value - 1, s.waits + 1, s.posts, [Idle]) by {
      assert [WantWait][0 := Idle] == Broadcast([Idle]) == [Idle];
    }
    Extend(init, max, 1, called, Region(0));
  }

  lemma OneThreadStarts(init: int, max: int)
    ensures Reachable(init, max, 1, State(init, 0, 0, [Idle]))
  {
    assert seq(1, _ => Idle) == [Idle];
    assert ReachableIn(init, max, 1, 0, State(init, 0, 0, [Idle]));
  }

  /** It can post and post from above the maximum. */
  lemma {:induction false} Climb(init: int, max: int, j: nat)
    requires init > max
    ensures Reachable(init, max, 1, State(init + j, 0, j, [Idle]))
  {
    if j == 0 {
      OneThreadStarts(init, max);
    } else {
      Climb(init, max, j - 1);
      OnePost(init, max, State(init + j - 1, 0, j - 1, [Idle]));
    }
  }

  /** It can wait and wait from below 0. */
  lemma {:induction false} Sink(init: int, max: int, j: nat)
    requires init < 0
    ensures Reachable(init, max, 1, State(init - j, j, 0, [Idle]))
  {
    if j == 0 {
      OneThreadStarts(init, max);
    } else {
      Sink(init, max, j - 1);
      OneWait(init, max, State(init - (j - 1), j - 1, 0, [Idle]));
    }
  }

  ghost predicate Exceeds(init: int, max: int, b: nat) {
    exists n: nat, s :: Reachable(init, max, n, s) && (s.value > b || s.value + b < 0)
  }

  /** The value stays between 0 and the maximum if it starts there; if it does not, it
      has no bounds at all, for going up it never meets the maximum and going down
      it never meets 0. */
  lemma UnboundedIff(init: int, max: int)
    ensures (forall b: nat :: Exceeds(init, max, b)) <==> !(0 <= init <= max)
  {
    if 0 <= init <= max {
      forall n: nat, s | Reachable(init, max, n, s) ensures 0 <= s.value <= max {
        var k: nat :| ReachableIn(init, max, n, k, s);
        EveryRun(init, max, n, k, s);
      }
      assert !Exceeds(init, max, max);
    } else {
      forall b: nat ensures Exceeds(init, max, b) {
        if init < 0 {
          Sink(init, max, b + 1);
        } else {
          Climb(init, max, b + 1);
        }
      }
    }
  }

  /** The structure itself, and the critical regions of its two operations. The
      callers' places and the counts of completed calls are ghost. */
  class Semamore {
    var value: int
    const maxVal: int
    ghost var waits: nat
    ghost var posts: nat
    ghost var threads: seq<Pc>

    ghost function Abs(): State
      reads this
    {
      State(value, waits, posts, threads)
    }

    /** `semm_init`, for `n` threads that will use it. */
    constructor (value: int, maxVal: int, ghost n: nat)
      ensures ReachableIn(value, maxVal, n, 0, Abs()) && this.maxVal == maxVal
      ensures this.value == value && waits == posts == 0
      ensures |threads| == n && forall t :: 0 <= t < n ==> threads[t] == Idle
    {
      this.value, this.maxVal, waits, posts := value, maxVal, 0, 0;
      threads := seq(n, _ => Idle);
    }

    /** `semm_wait` from getting the mutex; false when it goes to sleep. */
    method Wait(ghost t: nat) returns (done: bool)
      requires Enabled(Abs(), Region(t)) && threads[t] == WantWait
      modifies this
      ensures Abs() == Apply(maxVal, old(Abs()), Region(t))
      ensures done <==> old(value) != 0
      ensures !done ==> value == old(value) && waits == old(waits) && threads == old(threads)[t := WaitAsleep]
      ensures done ==>
        value == old(value) - 1 && waits == old(waits) + 1 && AllWoken(old(threads), threads, t)
      ensures posts == old(posts)
    {
      if value == 0 {
        threads := threads[t := WaitAsleep];
        return false;
      }
      value := value - 1;
      waits, threads := waits + 1, Broadcast(threads[t := Idle]);
      done := true;
    }

    /** `semm_post` from getting the mutex; false when it goes to sleep. */
    method Post(ghost t: nat) returns (done: bool)
      requires Enabled(Abs(), Region(t)) && threads[t] == WantPost
      modifies this
      ensures Abs() == Apply(maxVal, old(Abs()), Region(t))
      ensures done <==> old(value) != maxVal
      ensures !done ==> value == old(value) && posts == old(posts) && threads == old(threads)[t := PostAsleep]
      ensures done ==>
        value == old(value) + 1 && posts == old(posts) + 1 && AllWoken(old(threads), threads, t)
      ensures waits == old(waits)
    {
      if value == maxVal {
        threads := threads[t := PostAsleep];
        return false;
      }
      value := value + 1;
      posts, threads := posts + 1, Broadcast(threads[t := Idle]);
      done := true;
    }
  }
}
