/** Deadlock-avoiding resource managers: `deadlock_demolition/libdrm.c`.

    A region of code that holds the global mutex `m` is one atomic step.
    `drm_wait` is three steps: the request (with the cycle check), taking the
    DRM's own mutex outside `m`, and recording the holder edge under `m` again.
    Between the last two the graph still shows the thread as waiting although
    it already owns the DRM. */
module Drm {
  import opened Graphs
  import opened Options

  datatype Node = Drm(id: nat) | Thread(id: nat)

  /** Where a thread is: outside `drm_wait`; blocked on a DRM's mutex; or owning
      that mutex without having recorded it yet. */
  datatype Pc = Idle | Blocked(d: nat) | Window(d: nat)

  datatype State = State(g: Graph<Node>, owner: map<nat, nat>, pc: map<nat, Pc>)

  function PcOf(s: State, t: nat): Pc {
    if t in s.pc then s.pc[t] else Idle
  }

  // ---- the atomic steps ----

  function InitStep(s: State, d: nat): State {
    s.(g := AddVertex(s.g, Drm(d)))
  }

  predicate MayPost(s: State, t: nat, d: nat) {
    Drm(d) in s.g && Thread(t) in s.g && Edge(s.g, Drm(d), Thread(t))
  }

  function PostStep(s: State, t: nat, d: nat): State {
    if MayPost(s, t, d)
    then s.(g := RemoveEdge(s.g, Drm(d), Thread(t)), owner := s.owner - {d})
    else s
  }

  function WithRequest(s: State, t: nat, d: nat): Graph<Node> {
    AddEdge(AddVertex(s.g, Thread(t)), Thread(t), Drm(d))
  }

  /** `drm_wait` gives up: the caller is already recorded as the holder, or the
      request edge would close a cycle. */
  ghost predicate Refused(s: State, t: nat, d: nat) {
    || Edge(s.g, Drm(d), Thread(t))
    || EntersCycle(WithRequest(s, t, d), Thread(t))
  }

  ghost function RequestStep(s: State, t: nat, d: nat): State {
    if Edge(s.g, Drm(d), Thread(t)) then s.(g := AddVertex(s.g, Thread(t)))
    else if EntersCycle(WithRequest(s, t, d), Thread(t)) then
      s.(g := RemoveEdge(WithRequest(s, t, d), Thread(t), Drm(d)))
    else s.(g := WithRequest(s, t, d), pc := s.pc[t := Blocked(d)])
  }

  predicate MayAcquire(s: State, t: nat) {
    PcOf(s, t).Blocked? && PcOf(s, t).d !in s.owner
  }

  function AcquireStep(s: State, t: nat): State
    requires MayAcquire(s, t)
  {
    var d := PcOf(s, t).d;
    s.(owner := s.owner[d := t], pc := s.pc[t := Window(d)])
  }

  function RecordStep(s: State, t: nat): State
    requires PcOf(s, t).Window?
  {
    var d := PcOf(s, t).d;
    s.(g := AddEdge(RemoveEdge(s.g, Thread(t), Drm(d)), Drm(d), Thread(t)), pc := s.pc[t := Idle])
  }

  /** The graphs have the same edges, but for `x -> y`. */
  ghost predicate SameEdgesBut(g: Graph<Node>, h: Graph<Node>, x: Node, y: Node) {
    forall v, w :: (v, w) != (x, y) ==> (Edge(h, v, w) <==> Edge(g, v, w))
  }

  // ---- what every step keeps ----

  /** What the graph should say: a thread's only edge is the DRM it asked for and
      has not recorded; a DRM's only edge is its owner, once recorded. */
  ghost predicate Justified(s: State, v: Node, w: Node) {
    if v.Thread? && w.Drm? then PcOf(s, v.id) == Blocked(w.id) || PcOf(s, v.id) == Window(w.id)
    else if v.Drm? && w.Thread? then v.id in s.owner && s.owner[v.id] == w.id && PcOf(s, w.id) != Window(v.id)
    else false
  }

  ghost predicate GraphAgrees(s: State) {
    forall v, w :: Edge(s.g, v, w) <==> Justified(s, v, w)
  }

  ghost predicate Ownership(s: State) {
    && (forall t :: t in s.pc && s.pc[t].Window? ==> s.pc[t].d in s.owner && s.owner[s.pc[t].d] == t)
    && (forall d :: d in s.owner ==> Drm(d) in s.g && Thread(s.owner[d]) in s.g)
  }

  ghost predicate Inv(s: State) {
    Closed(s.g) && OutDegreeAtMostOne(s.g) && Acyclic(s.g) && GraphAgrees(s) && Ownership(s)
  }

  lemma InitKeeps(s: State, d: nat)
    requires Inv(s) && Drm(d) !in s.g
    ensures Inv(InitStep(s, d))
  {
    var s' := InitStep(s, d);
    SubgraphAcyclic(s.g, s'.g);
    forall v, w ensures Edge(s'.g, v, w) <==> Justified(s', v, w) {
      assert Edge(s.g, v, w) <==> Justified(s, v, w);
    }
  }

  lemma PostKeeps(s: State, t: nat, d: nat)
    requires Inv(s) && PcOf(s, t).Idle?
    ensures Inv(PostStep(s, t, d))
  {
    if MayPost(s, t, d) {
      var s' := PostStep(s, t, d);
      assert Justified(s, Drm(d), Thread(t));
      forall v, w ensures Edge(s'.g, v, w) <==> Justified(s', v, w) {
        EdgeAfterRemove(s.g, Drm(d), Thread(t), v, w);
        assert Edge(s.g, v, w) <==> Justified(s, v, w);
      }
      SubgraphAcyclic(s.g, s'.g);
    }
  }

  /** An idle thread has no edge, so its request is its only one. */
  lemma IdleHasNoEdge(s: State, t: nat)
    requires Inv(s) && PcOf(s, t).Idle?
    ensures var g := AddVertex(s.g, Thread(t));
            g[Thread(t)] == [] && Acyclic(g) && Closed(g) && forall v, w :: Edge(g, v, w) <==> Edge(s.g, v, w)
  {
    var g := AddVertex(s.g, Thread(t));
    SubgraphAcyclic(s.g, g);
    assert forall w :: Edge(s.g, Thread(t), w) <==> Justified(s, Thread(t), w);
    NoNeighborOrEdge(g, Thread(t));
  }

  lemma GrantKeeps(s: State, t: nat, d: nat)
    requires Inv(s) && PcOf(s, t).Idle? && Drm(d) in s.g && !Refused(s, t, d)
    ensures Inv(RequestStep(s, t, d))
  {
    IdleHasNoEdge(s, t);
    var s' := RequestStep(s, t, d);
    var g := AddVertex(s.g, Thread(t));
    forall v, w ensures Edge(s'.g, v, w) <==> Justified(s', v, w) ensures Edge(s'.g, v, w) ==> w in s'.g {
      EdgeAfterAdd(g, Thread(t), Drm(d), v, w);
      assert Edge(s.g, v, w) <==> Justified(s, v, w);
    }
    AddEdgeAcyclic(g, Thread(t), Drm(d));
  }

  lemma RefusalKeeps(s: State, t: nat, d: nat)
    requires Inv(s) && PcOf(s, t).Idle? && Drm(d) in s.g && Refused(s, t, d)
    ensures Inv(RequestStep(s, t, d))
    ensures RequestStep(s, t, d).owner == s.owner && RequestStep(s, t, d).pc == s.pc
    ensures RequestStep(s, t, d).g.Keys == s.g.Keys + {Thread(t)}
    ensures forall v, w :: Edge(RequestStep(s, t, d).g, v, w) <==> Edge(s.g, v, w)
  {
    IdleHasNoEdge(s, t);
    var s' := RequestStep(s, t, d);
    var g := AddVertex(s.g, Thread(t));
    forall v, w ensures Edge(s'.g, v, w) <==> Edge(s.g, v, w) ensures Edge(s'.g, v, w) <==> Justified(s', v, w) {
      EdgeAfterAdd(g, Thread(t), Drm(d), v, w);
      EdgeAfterRemove(WithRequest(s, t, d), Thread(t), Drm(d), v, w);
      assert Edge(s.g, v, w) <==> Justified(s, v, w);
    }
    SubgraphAcyclic(s.g, s'.g);
  }

  /** A request adds the caller's edge exactly if it is granted, and no other. */
  lemma RequestEffect(s: State, t: nat, d: nat)
    requires Inv(s) && PcOf(s, t).Idle? && Drm(d) in s.g
    ensures var r := RequestStep(s, t, d);
      && r.owner == s.owner && r.g.Keys == s.g.Keys + {Thread(t)}
      && SameEdgesBut(s.g, r.g, Thread(t), Drm(d))
      && (Edge(r.g, Thread(t), Drm(d)) <==> !Refused(s, t, d))
      && r.pc == if Refused(s, t, d) then s.pc else s.pc[t := Blocked(d)]
  {
    IdleHasNoEdge(s, t);
    var g := AddVertex(s.g, Thread(t));
    forall v, w ensures
      (Edge(WithRequest(s, t, d), v, w) <==> Edge(s.g, v, w) || (v == Thread(t) && w == Drm(d)))
      && (Edge(RemoveEdge(WithRequest(s, t, d), Thread(t), Drm(d)), v, w) <==> Edge(s.g, v, w)) {
      EdgeAfterAdd(g, Thread(t), Drm(d), v, w);
      EdgeAfterRemove(WithRequest(s, t, d), Thread(t), Drm(d), v, w);
      assert Edge(s.g, v, w) <==> Edge(g, v, w);
    }
  }

  lemma AcquireKeeps(s: State, t: nat)
    requires Inv(s) && MayAcquire(s, t)
    ensures Inv(AcquireStep(s, t))
  {
    var s' := AcquireStep(s, t);
    assert Edge(s.g, Thread(t), Drm(PcOf(s, t).d)) <==> Justified(s, Thread(t), Drm(PcOf(s, t).d));
    forall v, w ensures Edge(s'.g, v, w) <==> Justified(s', v, w) ensures Edge(s'.g, v, w) ==> w in s'.g {
      assert Edge(s.g, v, w) <==> Justified(s, v, w);
    }
  }

  lemma RecordKeeps(s: State, t: nat)
    requires Inv(s) && PcOf(s, t).Window?
    ensures Inv(RecordStep(s, t))
  {
    var s' := RecordStep(s, t);
    var d := PcOf(s, t).d;
    var g := RemoveEdge(s.g, Thread(t), Drm(d));
    assert Edge(s.g, Thread(t), Drm(d)) <==> Justified(s, Thread(t), Drm(d));
    assert forall w :: Edge(s.g, Drm(d), w) <==> Justified(s, Drm(d), w);
    NoNeighborOrEdge(s.g, Drm(d));
    forall v, w ensures Edge(s'.g, v, w) <==> Justified(s', v, w) ensures Edge(s'.g, v, w) ==> w in s'.g {
      EdgeAfterRemove(s.g, Thread(t), Drm(d), v, w);
      EdgeAfterAdd(g, Drm(d), Thread(t), v, w);
      assert Edge(s.g, v, w) <==> Justified(s, v, w);
    }
    forall x ensures Edge(s.g, Thread(t), x) ==> x == Drm(d) {
      assert Edge(s.g, Thread(t), x) <==> Justified(s, Thread(t), x);
    }
    ReverseEdgeAcyclic(s.g, Thread(t), Drm(d));
  }

  // ---- who really waits for whom ----

  /** `t` sleeps on a DRM mutex that `u` owns, whatever the graph says. */
  ghost predicate WaitsFor(s: State, t: nat, u: nat) {
    PcOf(s, t).Blocked? && PcOf(s, t).d in s.owner && s.owner[PcOf(s, t).d] == u
  }

  ghost predicate WaitChain(s: State, c: seq<nat>) {
    && c != []
    && forall i :: 0 <= i < |c| - 1 ==> WaitsFor(s, c[i], c[i + 1])
  }

  /** Following real owners from DRM `d` arrives at thread `t`. */
  ghost predicate LeadsBack(s: State, d: nat, t: nat) {
    exists c :: WaitChain(s, c) && d in s.owner && s.owner[d] == c[0] && c[|c| - 1] == t
  }

  ghost predicate Runnable(s: State, t: nat) {
    forall u :: !WaitsFor(s, t, u)
  }

  lemma HolderEdge(s: State, d: nat, t: nat)
    requires Inv(s) && d in s.owner && s.owner[d] == t && !PcOf(s, t).Window?
    ensures Edge(s.g, Drm(d), Thread(t))
  {
    assert Justified(s, Drm(d), Thread(t));
  }

  lemma RequestEdge(s: State, t: nat)
    requires Inv(s) && PcOf(s, t).Blocked?
    ensures Edge(s.g, Thread(t), Drm(PcOf(s, t).d)) && Thread(t) in s.g
  {
    assert Justified(s, Thread(t), Drm(PcOf(s, t).d));
  }

  /** A real chain is a graph path as long as it does not end in the window. */
  lemma {:induction false} ChainPath(s: State, c: seq<nat>) returns (p: seq<Node>)
    requires Inv(s) && WaitChain(s, c) && !PcOf(s, c[|c| - 1]).Window?
    ensures IsPath(s.g, p) && |p| >= |c| && p[0] == Thread(c[0]) && p[|p| - 1] == Thread(c[|c| - 1])
  {
    if |c| == 1 {
      p := [Thread(c[0])];
    } else {
      var rest := c[1..];
      forall i | 0 <= i < |rest| - 1 ensures WaitsFor(s, rest[i], rest[i + 1]) {
        assert WaitsFor(s, c[i + 1], c[i + 1 + 1]);
      }
      var q := ChainPath(s, rest);
      assert WaitsFor(s, c[0], c[0 + 1]);
      assert |c| > 2 ==> WaitsFor(s, c[1], c[1 + 1]);
      var d := PcOf(s, c[0]).d;
      RequestEdge(s, c[0]);
      HolderEdge(s, d, c[1]);
      p := [Thread(c[0]), Drm(d)] + q;
      forall i | 0 <= i < |p| - 1 ensures Edge(s.g, p[i], p[i + 1]) {
        if i >= 2 { assert Edge(s.g, q[i - 2], q[i - 2 + 1]); }
      }
    }
  }

  /** Conversely, a graph path from a DRM to a thread is a chain of real owners. */
  lemma {:induction false} PathChain(s: State, p: seq<Node>) returns (c: seq<nat>)
    requires Inv(s) && IsPath(s.g, p) && p[0].Drm? && p[|p| - 1].Thread?
    ensures WaitChain(s, c) && p[0].id in s.owner && s.owner[p[0].id] == c[0] && c[|c| - 1] == p[|p| - 1].id
    decreases |p|
  {
    assert Edge(s.g, p[0], p[0 + 1]) <==> Justified(s, p[0], p[0 + 1]);
    var u := p[1].id;
    if |p| == 2 {
      c := [u];
    } else {
      assert Edge(s.g, p[1], p[1 + 1]) <==> Justified(s, p[1], p[1 + 1]);
      SubPath(s.g, p, 2, |p|);
      var rest := PathChain(s, p[2..]);
      assert Edge(s.g, p[2], p[2 + 1]) <==> Justified(s, p[2], p[2 + 1]);
      assert WaitsFor(s, u, rest[0]);
      c := [u] + rest;
      forall i | 0 <= i < |c| - 1 ensures WaitsFor(s, c[i], c[i + 1]) {
        if i > 0 { assert WaitsFor(s, rest[i - 1], rest[i - 1 + 1]); }
      }
    }
  }

  lemma OwnersPath(s: State, d: nat, t: nat)
    requires Inv(s) && !PcOf(s, t).Window? && LeadsBack(s, d, t)
    ensures Reaches(s.g, Drm(d), Thread(t))
  {
    var c :| WaitChain(s, c) && d in s.owner && s.owner[d] == c[0] && c[|c| - 1] == t;
    var q := ChainPath(s, c);
    assert |c| > 1 ==> WaitsFor(s, c[0], c[0 + 1]);
    HolderEdge(s, d, c[0]);
    var p := [Drm(d)] + q;
    forall i | 0 <= i < |p| - 1 ensures Edge(s.g, p[i], p[i + 1]) {
      if i > 0 { assert Edge(s.g, q[i - 1], q[i - 1 + 1]); }
    }
    assert IsPath(s.g, p) && p[0] == Drm(d) && p[|p| - 1] == Thread(t);
  }

  /** The cycle check is exact although the graph lags behind the mutexes: a
      request is refused just when the DRM's real owner already waits, directly or
      through others, for the caller (or is the caller). */
  lemma RefusalIsExact(s: State, t: nat, d: nat)
    requires Inv(s) && PcOf(s, t).Idle? && Drm(d) in s.g
    ensures Refused(s, t, d) <==> LeadsBack(s, d, t)
  {
    var g := AddVertex(s.g, Thread(t));
    IdleHasNoEdge(s, t);
    CycleNeedsReturnPath(g, Thread(t), Drm(d));
    if LeadsBack(s, d, t) {
      OwnersPath(s, d, t);
      var p :| IsPath(s.g, p) && p[0] == Drm(d) && p[|p| - 1] == Thread(t);
      assert IsPath(g, p);
    }
    if Edge(s.g, Drm(d), Thread(t)) {
      assert Justified(s, Drm(d), Thread(t));
      assert WaitChain(s, [t]);
    } else if p :| IsPath(g, p) && p[0] == Drm(d) && p[|p| - 1] == Thread(t) {
      assert IsPath(s.g, p);
      var c := PathChain(s, p);
    }
  }

  /** `drm_post` succeeds just for the real owner, so it never unlocks a mutex
      that its caller does not hold. */
  lemma PostIsExact(s: State, t: nat, d: nat)
    requires Inv(s) && PcOf(s, t).Idle?
    ensures MayPost(s, t, d) <==> d in s.owner && s.owner[d] == t
  {
    assert Edge(s.g, Drm(d), Thread(t)) <==> Justified(s, Drm(d), Thread(t));
  }

  /** What the owner's post does: the DRM has no owner and no holder edge, and whoever
      waits for it may have it. */
  lemma PostReleases(s: State, t: nat, d: nat)
    requires Inv(s) && PcOf(s, t).Idle? && d in s.owner && s.owner[d] == t
    ensures var r := PostStep(s, t, d);
      && r.owner == s.owner - {d} && r.pc == s.pc && r.g.Keys == s.g.Keys
      && SameEdgesBut(s.g, r.g, Drm(d), Thread(t)) && !Edge(r.g, Drm(d), Thread(t))
      && forall w :: PcOf(s, w) == Blocked(d) ==> MayAcquire(r, w)
  {
    PostIsExact(s, t, d);
    forall v, w ensures Edge(RemoveEdge(s.g, Drm(d), Thread(t)), v, w) <==>
        Edge(s.g, v, w) && !(v == Drm(d) && w == Thread(t)) {
      EdgeAfterRemove(s.g, Drm(d), Thread(t), v, w);
    }
  }

  lemma BlockedChainIsDistinct(s: State, c: seq<nat>)
    requires Inv(s) && WaitChain(s, c) && PcOf(s, c[|c| - 1]).Blocked?
    ensures |c| <= |s.g.Keys|
  {
    var p := seq(|c|, i requires 0 <= i < |c| => Thread(c[i]));
    forall i, j | 0 <= i < j < |p| ensures p[i] != p[j] {
      var sub := c[i..j + 1];
      forall k | 0 <= k < |sub| - 1 ensures WaitsFor(s, sub[k], sub[k + 1]) {
        assert WaitsFor(s, c[i + k], c[i + k + 1]);
      }
      assert j < |c| - 1 ==> WaitsFor(s, c[j], c[j + 1]);
      var q := ChainPath(s, sub);
      assert !Repeats(q);
      assert q[0] != q[|q| - 1];
    }
    forall i | 0 <= i < |p| ensures p[i] in s.g.Keys {
      assert i < |c| - 1 ==> WaitsFor(s, c[i], c[i + 1]);
      RequestEdge(s, c[i]);
    }
    DistinctLength(p, s.g.Keys);
  }

  /** Any chain of waiting threads can be followed to one that can run. */
  lemma {:induction false} ChainEndsRunnable(s: State, c: seq<nat>) returns (e: seq<nat>)
    requires Inv(s) && WaitChain(s, c)
    ensures WaitChain(s, e) && c <= e && Runnable(s, e[|e| - 1])
    decreases |s.g.Keys| + 1 - |c|
  {
    var t := c[|c| - 1];
    if u :| WaitsFor(s, t, u) {
      BlockedChainIsDistinct(s, c);
      var next := c + [u];
      forall i | 0 <= i < |next| - 1 ensures WaitsFor(s, next[i], next[i + 1]) {
        if i < |c| - 1 { assert WaitsFor(s, c[i], c[i + 1]); }
      }
      e := ChainEndsRunnable(s, next);
    } else {
      e := c;
    }
  }

  // ---- whole runs ----

  datatype Event = Init(d: nat) | Post(t: nat, d: nat) | Request(t: nat, d: nat) | Acquire(t: nat) | Record(t: nat)

  /** A thread calls `drm_wait` or `drm_post` only when it is outside both; the DRM
      it waits for has been made by `drm_init`. */
  ghost predicate Enabled(s: State, e: Event) {
    match e
    case Init(d) => Drm(d) !in s.g
    case Post(t, d) => PcOf(s, t).Idle?
    case Request(t, d) => PcOf(s, t).Idle? && Drm(d) in s.g
    case Acquire(t) => MayAcquire(s, t)
    case Record(t) => PcOf(s, t).Window?
  }

  ghost function Next(s: State, e: Event): State
    requires Enabled(s, e)
  {
    match e
    case Init(d) => InitStep(s, d)
    case Post(t, d) => PostStep(s, t, d)
    case Request(t, d) => RequestStep(s, t, d)
    case Acquire(t) => AcquireStep(s, t)
    case Record(t) => RecordStep(s, t)
  }

  const INITIAL := State(map[], map[], map[])

  /** The state after an interleaving of steps, or None if some step was not enabled. */
  ghost function Run(s: State, es: seq<Event>): Option<State>
    decreases |es|
  {
    if es == [] then Some(s)
    else if Enabled(s, es[0]) then Run(Next(s, es[0]), es[1..])
    else None
  }

  /** A thread that waits for nobody can make a step: it is outside, has locked, or
      its DRM is free. */
  lemma RunnableCanStep(s: State, t: nat) returns (e: Event)
    requires Runnable(s, t)
    ensures Enabled(s, e) && !e.Init? && e.t == t
  {
    match PcOf(s, t)
    case Idle => e := Post(t, 0);
    case Window(_) => e := Record(t);
    case Blocked(d) =>
      assert d in s.owner ==> WaitsFor(s, t, s.owner[d]);
      e := Acquire(t);
  }

  lemma NextKeeps(s: State, e: Event)
    requires Inv(s) && Enabled(s, e)
    ensures Inv(Next(s, e))
  {
    match e
    case Init(d) => InitKeeps(s, d);
    case Post(t, d) => PostKeeps(s, t, d);
    case Request(t, d) => if Refused(s, t, d) { RefusalKeeps(s, t, d); } else { GrantKeeps(s, t, d); }
    case Acquire(t) => AcquireKeeps(s, t);
    case Record(t) => RecordKeeps(s, t);
  }

  lemma {:induction false} RunKeeps(s: State, es: seq<Event>)
    requires Inv(s) && Run(s, es).Some?
    ensures Inv(Run(s, es).value)
    decreases |es|
  {
    if es != [] {
      NextKeeps(s, es[0]);
      RunKeeps(Next(s, es[0]), es[1..]);
    }
  }

  lemma InitialInv()
    ensures Inv(INITIAL)
  {
    forall p: seq<Node> | IsPath(INITIAL.g, p) ensures !Repeats(p) {
      assert |p| > 1 ==> Edge(INITIAL.g, p[0], p[0 + 1]);
    }
  }

  /** No deadlock is reachable: in every state of every interleaving, following
      the real owners from any thread ends at one that can take a step. */
  lemma NoReachableDeadlock(es: seq<Event>, t: nat)
    requires Run(INITIAL, es).Some?
    ensures exists c ::
      WaitChain(Run(INITIAL, es).value, c) && c[0] == t && Runnable(Run(INITIAL, es).value, c[|c| - 1])
  {
    InitialInv();
    RunKeeps(INITIAL, es);
    var c := ChainEndsRunnable(Run(INITIAL, es).value, [t]);
  }

  /** Equivalently, no nonempty group of threads all wait for one another. */
  lemma NoCircularWait(es: seq<Event>, group: set<nat>)
    requires Run(INITIAL, es).Some? && group != {}
    ensures exists t :: t in group && forall u :: u in group ==> !WaitsFor(Run(INITIAL, es).value, t, u)
  {
    var s := Run(INITIAL, es).value;
    var t :| t in group;
    NoReachableDeadlock(es, t);
    var c :| WaitChain(s, c) && c[0] == t && Runnable(s, c[|c| - 1]);
    var i := 0;
    while i < |c| - 1 && c[i + 1] in group
      invariant 0 <= i < |c| && c[i] in group
    {
      i := i + 1;
    }
    assert i < |c| - 1 ==> WaitsFor(s, c[i], c[i + 1]);
  }

  /** In every reachable state the graph is acyclic with out-degree at most one, and
      a DRM's owner is its edge target or a thread between lock and record. */
  lemma GraphTracksOwners(es: seq<Event>, d: nat)
    requires Run(INITIAL, es).Some?
    ensures var s := Run(INITIAL, es).value;
            && Acyclic(s.g) && OutDegreeAtMostOne(s.g)
            && (d in s.owner ==> PcOf(s, s.owner[d]) == Window(d) || Edge(s.g, Drm(d), Thread(s.owner[d])))
            && (forall t :: Edge(s.g, Drm(d), Thread(t)) ==> d in s.owner && s.owner[d] == t)
  {
    InitialInv();
    RunKeeps(INITIAL, es);
    var s := Run(INITIAL, es).value;
    forall t ensures Edge(s.g, Drm(d), Thread(t)) <==> Justified(s, Drm(d), Thread(t)) {}
  }

  // ---- the program itself ----

  /** The library's globals `g` and `set_`, the DRM mutexes, and each thread's
      position (which the C program keeps in its program counters). */
  class Library {
    var g: Graph<Node>
    var visited: Option<set<Node>>
    var mutex: map<nat, nat>
    ghost var pc: map<nat, Pc>

    ghost function Abs(): State
      reads this
    {
      State(g, mutex, pc)
    }

    ghost predicate Valid()
      reads this
    {
      Inv(Abs()) && visited == None
    }

    constructor ()
      ensures Valid() && Abs() == INITIAL && g == map[] && mutex == map[] && pc == map[]
    {
      g, visited, mutex, pc := map[], None, map[], map[];
      new;
      InitialInv();
    }

    /** `is_Cycle`: the visited set is global and is destroyed on every return,
        even in the middle of the recursion. `trail` is the walk made so far. */
    method IsCycle(n: Node, ghost trail: seq<Node>) returns (r: int)
      requires Closed(g) && OutDegreeAtMostOne(g) && n in g
      requires IsPath(g, trail + [n]) && Distinct(trail)
      requires visited == Some(Elements(trail)) || (visited == None && trail == [])
      modifies this`visited
      ensures visited == None
      ensures r == (if EntersCycle(g, (trail + [n])[0]) then 1 else 0)
      decreases g.Keys - Elements(trail)
    {
      ghost var walk := trail + [n];
      if visited.None? {
        visited := Some({});
      }
      assert visited.value == Elements(trail);
      if n in visited.value {
        visited := None;
        ghost var i :| 0 <= i < |trail| && trail[i] == n;
        assert walk[i] == walk[|trail|];
        assert Repeats(walk);
        return 1;
      }
      visited := Some(visited.value + {n});
      assert Elements(walk) == Elements(trail) + {n};
      var neighbors := g[n];
      var i := 0;
      while i < |neighbors|
        invariant 0 <= i <= |neighbors| <= 1
        invariant visited == if i == 0 then Some(Elements(walk)) else None
        invariant i == 1 ==> !EntersCycle(g, walk[0])
      {
        assert Edge(g, n, neighbors[i]);
        ghost var next := walk + [neighbors[i]];
        assert IsPath(g, next) by { ExtendPath(g, walk, neighbors[i]); }
        assert next[0] == walk[0];
        var found := IsCycle(neighbors[i], walk);
        if found == 1 {
          return 1;
        }
        i := i + 1;
      }
      if neighbors == [] {
        DeadEndEntersNoCycle(g, walk);
      }
      visited := None;
      return 0;
    }

    /** `drm_init`, with `d` the fresh address malloc returned. */
    method DrmInit(d: nat)
      requires Valid() && Drm(d) !in g
      modifies this
      ensures Valid() && Abs() == Next(old(Abs()), Init(d))
      ensures g == old(g)[Drm(d) := []] && mutex == old(mutex) && pc == old(pc)
    {
      InitKeeps(Abs(), d);
      g := AddVertex(g, Drm(d));
    }

    method DrmPost(d: nat, t: nat) returns (r: int)
      requires Valid() && PcOf(Abs(), t).Idle?
      modifies this
      ensures Valid() && Abs() == Next(old(Abs()), Post(t, d))
      ensures r == if d in old(mutex) && old(mutex)[d] == t then 1 else 0
      ensures r == 1 ==>
        && mutex == old(mutex) - {d} && pc == old(pc) && g.Keys == old(g).Keys
        && SameEdgesBut(old(g), g, Drm(d), Thread(t)) && !Edge(g, Drm(d), Thread(t))
        && forall w :: PcOf(Abs(), w) == Blocked(d) ==> MayAcquire(Abs(), w)
      ensures r == 0 ==> Abs() == old(Abs())
    {
      PostKeeps(Abs(), t, d);
      PostIsExact(Abs(), t, d);
      if Drm(d) !in g {
        return 0;
      }
      if Thread(t) !in g {
        return 0;
      }
      if !Edge(g, Drm(d), Thread(t)) {
        return 0;
      }
      g := RemoveEdge(g, Drm(d), Thread(t));
      mutex := mutex - {d};
      return 1;
    }

    /** `drm_wait` up to `pthread_mutex_lock(&drm->m)`; false is the early return 0. */
    method DrmWaitRequest(d: nat, t: nat) returns (waiting: bool)
      requires Valid() && PcOf(Abs(), t).Idle? && Drm(d) in g
      modifies this
      ensures Valid() && Abs() == Next(old(Abs()), Request(t, d))
      ensures !waiting <==> LeadsBack(old(Abs()), d, t)
      ensures mutex == old(mutex) && g.Keys == old(g).Keys + {Thread(t)}
      ensures pc == if waiting then old(pc)[t := Blocked(d)] else old(pc)
      ensures SameEdgesBut(old(g), g, Thread(t), Drm(d))
      ensures Edge(g, Thread(t), Drm(d)) <==> waiting
    {
      ghost var s := Abs();
      RequestEffect(s, t, d);
      RefusalIsExact(s, t, d);
      IdleHasNoEdge(s, t);
      NextKeeps(s, Request(t, d));
      if Thread(t) !in g {
        g := AddVertex(g, Thread(t));
      }
      if Edge(g, Drm(d), Thread(t)) {
        assert Abs() == RequestStep(s, t, d);
        return false;
      }
      g := AddEdge(g, Thread(t), Drm(d));
      assert g == WithRequest(s, t, d);
      RequestGraphShape(s, t, d);
      var cyclic := IsCycle(Thread(t), []);
      if cyclic != 1 {
        pc := pc[t := Blocked(d)];
        assert Abs() == RequestStep(s, t, d);
        return true;
      }
      g := RemoveEdge(g, Thread(t), Drm(d));
      assert Abs() == RequestStep(s, t, d);
      return false;
    }

    /** The DRM's mutex is granted. */
    method DrmWaitAcquire(d: nat, t: nat)
      requires Valid() && PcOf(Abs(), t) == Blocked(d) && d !in mutex
      modifies this
      ensures Valid() && Abs() == Next(old(Abs()), Acquire(t))
      ensures mutex == old(mutex)[d := t] && pc == old(pc)[t := Window(d)] && g == old(g)
    {
      AcquireKeeps(Abs(), t);
      mutex := mutex[d := t];
      pc := pc[t := Window(d)];
    }

    /** The tail of `drm_wait`: record the holder; the call returns 1. */
    method DrmWaitRecord(d: nat, t: nat) returns (r: int)
      requires Valid() && PcOf(Abs(), t) == Window(d)
      modifies this
      ensures Valid() && Abs() == Next(old(Abs()), Record(t))
      ensures r == 1 && mutex == old(mutex) && d in mutex && mutex[d] == t
      ensures pc == old(pc)[t := Idle] && g.Keys == old(g).Keys
      ensures Edge(g, Drm(d), Thread(t)) && !Edge(g, Thread(t), Drm(d))
      ensures forall v, w :: (v, w) != (Thread(t), Drm(d)) && (v, w) != (Drm(d), Thread(t)) ==>
        (Edge(g, v, w) <==> Edge(old(g), v, w))
    {
      RecordKeeps(Abs(), t);
      g := RemoveEdge(g, Thread(t), Drm(d));
      g := AddEdge(g, Drm(d), Thread(t));
      pc := pc[t := Idle];
      assert Justified(Abs(), Drm(d), Thread(t));
      return 1;
    }
  }

  lemma RequestGraphShape(s: State, t: nat, d: nat)
    requires Inv(s) && PcOf(s, t).Idle? && Drm(d) in s.g
    ensures Closed(WithRequest(s, t, d)) && OutDegreeAtMostOne(WithRequest(s, t, d))
  {
    IdleHasNoEdge(s, t);
    forall v, w | Edge(WithRequest(s, t, d), v, w) ensures w in WithRequest(s, t, d) {
      EdgeAfterAdd(AddVertex(s.g, Thread(t)), Thread(t), Drm(d), v, w);
    }
  }
}
