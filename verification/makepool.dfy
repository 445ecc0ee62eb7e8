/** The worker pool of `parallel_make/parmake.c` (`process_rules`, `get_status`).

    Each read of another rule's state is its own step, because rule states are
    written without the lock; so is each broadcast, and so is going to sleep,
    which a broadcast may come too early for. The branch of `get_status` for
    goals that name existing files is not modelled. */
module MakePool {
  import opened Graphs
  import opened MakeRules
  import opened Options

  /** `rule->state`: 0 (never set), TARGET_ERROR and TARGET_DONE. */
  datatype RuleState = Unset | Error | Done

  /** Where a worker is. From `Enter` to `Parking` it holds the lock. It examines
      rule `i` of the list, having found the first `j` dependencies done; at
      `Reread` it has seen dependency `j` not done and reads its state again. At
      `Parking` it has passed over all `i` rules and is about to wait. */
  datatype Pc =
    | Start
    | Enter(i: nat)
    | Scan(i: nat, j: nat)
    | Reread(i: nat, j: nat)
    | Parking(i: nat)
    | Running(r: Rule)
    | Broadcasting
    | Asleep
    | Woken
    | Exited

  /** `order` is the collected rule list; `fails` are the rules one of whose
      commands fails. */
  datatype Config = Config(g: Graph<Rule>, order: seq<Rule>, fails: set<Rule>)

  /** `started` logs the rules whose commands have been run, in order. */
  datatype Pool = Pool(rules: seq<Rule>, state: map<Rule, RuleState>, workers: seq<Pc>, started: seq<Rule>)

  ghost predicate GoodConfig(c: Config) {
    && Distinct(c.order) && Ordered(c.g, c.order)
    && (forall r :: r in c.order ==> r in c.g)
  }

  function Initial(c: Config, n: nat): Pool {
    Pool(c.order, map r | r in c.order :: Unset, seq(n, _ => Start), [])
  }

  predicate HasLock(pc: Pc) {
    pc.Enter? || pc.Scan? || pc.Reread? || pc.Parking?
  }

  predicate LockFree(s: Pool) {
    forall v :: 0 <= v < |s.workers| ==> !HasLock(s.workers[v])
  }

  /** The positions and states a step looks at exist. */
  predicate InBounds(c: Config, s: Pool, pc: Pc) {
    match pc
    case Enter(i) => i < |s.rules| && s.rules[i] in s.state
    case Scan(i, j) =>
      && i < |s.rules| && s.rules[i] in c.g && j <= |c.g[s.rules[i]]|
      && (j < |c.g[s.rules[i]]| ==> c.g[s.rules[i]][j] in s.state)
    case Reread(i, j) =>
      && i < |s.rules| && s.rules[i] in c.g && j < |c.g[s.rules[i]]| && c.g[s.rules[i]][j] in s.state
    case _ => true
  }

  predicate CanStep(c: Config, s: Pool, w: nat) {
    && w < |s.workers| && InBounds(c, s, s.workers[w])
    && match s.workers[w] {
         case Asleep => false
         case Exited => false
         case Start => LockFree(s)
         case Woken => LockFree(s)
         case _ => true
       }
  }

  function At(s: Pool, w: nat, pc: Pc): Pool
    requires w < |s.workers|
  {
    s.(workers := s.workers[w := pc])
  }

  function Erase(s: Pool, i: nat): Pool
    requires i < |s.rules|
  {
    s.(rules := s.rules[..i] + s.rules[i + 1..])
  }

  function WakeAll(workers: seq<Pc>): seq<Pc> {
    seq(|workers|, v requires 0 <= v < |workers| => if workers[v].Asleep? then Woken else workers[v])
  }

  /** One step of worker `w`. */
  function Step(c: Config, s: Pool, w: nat): Pool
    requires CanStep(c, s, w)
  {
    match s.workers[w]
    case Start => At(s, w, if s.rules == [] then Exited else Enter(0))
    case Enter(i) => if s.state[s.rules[i]].Done? then At(Erase(s, i), w, Start) else At(s, w, Scan(i, 0))
    case Scan(i, j) =>
      var r := s.rules[i];
      if j == |c.g[r]| then At(Erase(s, i), w, Running(r)).(started := s.started + [r])
      else if s.state[c.g[r][j]].Done? then At(s, w, Scan(i, j + 1))
      else At(s, w, Reread(i, j))
    case Reread(i, j) =>
      if s.state[c.g[s.rules[i]][j]].Error? then At(Erase(s, i), w, Broadcasting)
      else if i + 1 == |s.rules| then At(s, w, Parking(i + 1))
      else At(s, w, Enter(i + 1))
    case Parking(_) => At(s, w, Asleep)
    case Running(r) => At(s, w, Broadcasting).(state := s.state[r := if r in c.fails then Error else Done])
    case Broadcasting => s.(workers := WakeAll(s.workers)[w := Start])
    case Woken => At(s, w, Start)
  }

  /** A sleeper may also wake without a signal. */
  predicate CanWake(s: Pool, w: nat) {
    w < |s.workers| && s.workers[w].Asleep?
  }

  // ---- what becomes of each rule ----

  datatype Outcome = Succeeds | Fails | Dropped | Stuck

  /** A rule is judged by its first dependency that does not succeed: one that
      fails makes the rule be dropped with its state still unset; one that is
      itself left unset keeps the rule waiting for ever. */
  function JudgeFrom(c: Config, m: map<Rule, Outcome>, r: Rule, j: nat): Outcome
    requires r in c.g && j <= |c.g[r]|
    requires forall d :: d in c.g[r] ==> d in m
    decreases |c.g[r]| - j
  {
    if j == |c.g[r]| then (if r in c.fails then Fails else Succeeds)
    else match m[c.g[r][j]] {
      case Succeeds => JudgeFrom(c, m, r, j + 1)
      case Fails => Dropped
      case Dropped => Stuck
      case Stuck => Stuck
    }
  }

  ghost function Position(c: Config, r: Rule): (k: nat)
    requires GoodConfig(c) && r in c.order
    ensures k < |c.order| && c.order[k] == r
    ensures forall i :: 0 <= i < |c.order| && c.order[i] == r ==> i == k
  {
    var k :| 0 <= k < |c.order| && c.order[k] == r;
    k
  }

  ghost predicate DepsInOrder(c: Config, r: Rule) {
    r in c.g && forall d :: d in c.g[r] ==> d in c.order
  }

  /** Dependencies are listed, and earlier. */
  lemma DepsComeFirst(c: Config, k: nat)
    requires GoodConfig(c) && k < |c.order|
    ensures DepsInOrder(c, c.order[k])
    ensures forall d :: d in c.g[c.order[k]] ==> Position(c, d) < k
  {
    forall d | d in c.g[c.order[k]] ensures d in c.order && Position(c, d) < k {
      assert Edge(c.g, c.order[k], d);
      var i :| 0 <= i < k && c.order[..k][i] == d;
      assert c.order[i] == d;
    }
  }

  lemma DepsAreOrdered(c: Config, r: Rule)
    requires GoodConfig(c) && r in c.order
    ensures DepsInOrder(c, r)
  {
    DepsComeFirst(c, Position(c, r));
  }

  /** The outcome of the `k`-th rule, judged from its dependency `j` on. */
  ghost function OutcomeAt(c: Config, k: nat, j: nat): Outcome
    requires GoodConfig(c) && k < |c.order| && j <= |c.g[c.order[k]]|
    decreases k, |c.g[c.order[k]]| - j
  {
    DepsComeFirst(c, k);
    var r := c.order[k];
    if j == |c.g[r]| then (if r in c.fails then Fails else Succeeds)
    else
      assert c.g[r][j] in c.g[r];
      match OutcomeAt(c, Position(c, c.g[r][j]), 0) {
        case Succeeds => OutcomeAt(c, k, j + 1)
        case Fails => Dropped
        case Dropped => Stuck
        case Stuck => Stuck
      }
  }

  ghost function Outcomes(c: Config): map<Rule, Outcome>
    requires GoodConfig(c)
  {
    map r | r in c.order :: OutcomeAt(c, Position(c, r), 0)
  }

  lemma {:induction false} JudgeIsOutcomeAt(c: Config, k: nat, j: nat)
    requires GoodConfig(c) && k < |c.order| && j <= |c.g[c.order[k]]|
    requires DepsInOrder(c, c.order[k])
    ensures JudgeFrom(c, Outcomes(c), c.order[k], j) == OutcomeAt(c, k, j)
    decreases |c.g[c.order[k]]| - j
  {
    var deps := c.g[c.order[k]];
    if j < |deps| {
      assert deps[j] in deps;
      assert Outcomes(c)[deps[j]] == OutcomeAt(c, Position(c, deps[j]), 0);
      JudgeIsOutcomeAt(c, k, j + 1);
    }
  }

  /** Outcomes satisfy their own defining equation. */
  lemma OutcomeIs(c: Config, r: Rule)
    requires GoodConfig(c) && r in c.order
    ensures DepsInOrder(c, r) && Outcomes(c).Keys == Elements(c.order)
    ensures Outcomes(c)[r] == JudgeFrom(c, Outcomes(c), r, 0)
  {
    DepsAreOrdered(c, r);
    JudgeIsOutcomeAt(c, Position(c, r), 0);
  }

  /** The first dependency that does not succeed decides. */
  lemma {:induction false} JudgeByFirst(c: Config, m: map<Rule, Outcome>, r: Rule, j: nat, i: nat)
    requires r in c.g && i <= j <= |c.g[r]| && forall d :: d in c.g[r] ==> d in m
    requires forall k :: i <= k < j ==> m[c.g[r][k]] == Succeeds
    ensures JudgeFrom(c, m, r, i) == JudgeFrom(c, m, r, j)
    decreases j - i
  {
    if i < j { JudgeByFirst(c, m, r, j, i + 1); }
  }

  // ---- outcomes in terms of the graph and the failing commands ----

  /** No command of the rule or of anything below it fails. */
  ghost predicate Clean(c: Config, r: Rule) {
    forall d :: Reaches(c.g, r, d) ==> d !in c.fails
  }

  /** The rule's own commands fail, and nothing below it does. */
  ghost predicate FailsItself(c: Config, r: Rule) {
    r in c.fails && forall d :: d != r && Reaches(c.g, r, d) ==> d !in c.fails
  }

  /** What the `k`-th rule reaches comes no later in the list. */
  lemma {:induction false} ReachedEarlier(c: Config, k: nat, p: seq<Rule>)
    requires GoodConfig(c) && k < |c.order| && IsPath(c.g, p) && p[0] == c.order[k]
    ensures exists l :: 0 <= l <= k && c.order[l] == p[|p| - 1]
    decreases |p|
  {
    if |p| > 1 {
      assert Edge(c.g, p[0], p[0 + 1]);
      var l :| 0 <= l < k && c.order[..k][l] == p[1];
      SubPath(c.g, p, 1, |p|);
      assert p[1..][|p| - 2] == p[|p| - 1];
      ReachedEarlier(c, l, p[1..]);
    }
  }

  lemma DepsDoNotReach(c: Config, k: nat, i: nat)
    requires GoodConfig(c) && k < |c.order| && i < |c.g[c.order[k]]|
    ensures !Reaches(c.g, c.g[c.order[k]][i], c.order[k])
  {
    var d := c.g[c.order[k]][i];
    assert Edge(c.g, c.order[k], d);
    var l :| 0 <= l < k && c.order[..k][l] == d;
    forall p | IsPath(c.g, p) && p[0] == d ensures p[|p| - 1] != c.order[k] { ReachedEarlier(c, l, p); }
  }

  lemma CleanByDeps(c: Config, k: nat)
    requires GoodConfig(c) && k < |c.order|
    ensures var r := c.order[k]; var below := forall i :: 0 <= i < |c.g[r]| ==> Clean(c, c.g[r][i]);
      (Clean(c, r) <==> r !in c.fails && below) && (FailsItself(c, r) <==> r in c.fails && below)
  {
    var r := c.order[k];
    forall d ensures Reaches(c.g, r, d) <==> d == r || ReachedFrom(c.g, c.g[r], d) { ReachesStep(c.g, r, d); }
    forall i | 0 <= i < |c.g[r]| ensures !Reaches(c.g, c.g[r][i], r) { DepsDoNotReach(c, k, i); }
    assert Reaches(c.g, r, r);
    if FailsItself(c, r) || Clean(c, r) {
      forall i | 0 <= i < |c.g[r]| ensures Clean(c, c.g[r][i]) {
        forall d | Reaches(c.g, c.g[r][i], d) ensures d !in c.fails { assert ReachedFrom(c.g, c.g[r], d); }
      }
    }
    if forall i :: 0 <= i < |c.g[r]| ==> Clean(c, c.g[r][i]) {
      forall d | d != r && Reaches(c.g, r, d) ensures d !in c.fails {
        var i :| 0 <= i < |c.g[r]| && Reaches(c.g, c.g[r][i], d);
        assert Clean(c, c.g[r][i]);
      }
    }
  }

  /** The first dependency that does not succeed, if there is one. */
  lemma FirstDoubtful(c: Config, r: Rule) returns (j: nat)
    requires GoodConfig(c) && r in c.order && r in c.g
    requires DepsInOrder(c, r) && Outcomes(c).Keys == Elements(c.order)
    ensures j <= |c.g[r]| && forall i :: 0 <= i < j ==> Outcomes(c)[c.g[r][i]] == Succeeds
    ensures j < |c.g[r]| ==> Outcomes(c)[c.g[r][j]] != Succeeds
  {
    j := 0;
    while j < |c.g[r]| && Outcomes(c)[c.g[r][j]] == Succeeds
      invariant j <= |c.g[r]| && forall i :: 0 <= i < j ==> Outcomes(c)[c.g[r][i]] == Succeeds
    {
      j := j + 1;
    }
  }

  /** A rule succeeds exactly if nothing at or below it fails, and fails exactly if its
      own commands do and nothing below it. */
  lemma {:induction false} OutcomeMeans(c: Config, k: nat)
    requires GoodConfig(c) && k < |c.order|
    ensures var r := c.order[k];
      && r in Outcomes(c)
      && (Outcomes(c)[r] == Succeeds <==> Clean(c, r)) && (Outcomes(c)[r] == Fails <==> FailsItself(c, r))
    decreases k
  {
    var r := c.order[k];
    OutcomeIs(c, r);
    CleanByDeps(c, k);
    forall i | 0 <= i < |c.g[r]| ensures Outcomes(c)[c.g[r][i]] == Succeeds <==> Clean(c, c.g[r][i]) {
      assert Edge(c.g, c.order[k], c.g[r][i]);
      var l :| 0 <= l < k && c.order[..k][l] == c.g[r][i];
      OutcomeMeans(c, l);
    }
    var j := FirstDoubtful(c, r);
    JudgeByFirst(c, Outcomes(c), r, j, 0);
  }

  // ---- what every step keeps ----

  ghost predicate FirstDone(c: Config, s: Pool, r: Rule, j: nat) {
    && r in c.g && j <= |c.g[r]|
    && forall k :: 0 <= k < j ==> c.g[r][k] in s.state && s.state[c.g[r][k]].Done?
  }

  /** `r` is held up: its first dependency that is not done has no state yet. */
  ghost predicate HeldUp(c: Config, s: Pool, r: Rule) {
    exists j: nat :: FirstDone(c, s, r, j) && j < |c.g[r]| && c.g[r][j] in s.state && s.state[c.g[r][j]].Unset?
  }

  /** Listed rules are untouched. */
  ghost predicate Listed(c: Config, s: Pool) {
    && Distinct(s.rules) && s.state.Keys == Elements(c.order)
    && forall r :: r in s.rules ==> r in s.state && s.state[r].Unset? && r !in s.started
  }

  /** Rules start once, after all their dependencies, and keep their worker until
      their state is set. */
  ghost predicate Started(c: Config, s: Pool) {
    && Distinct(s.started)
    && forall r :: r in s.started ==>
         r in s.state && r in c.g && FirstDone(c, s, r, |c.g[r]|) && (s.state[r].Unset? ==> Running(r) in s.workers)
  }

  /** States and disappearances agree with the outcomes. */
  ghost predicate Settled(c: Config, s: Pool)
    requires GoodConfig(c)
  {
    forall r :: r in s.state ==> r in Outcomes(c) && SettledRule(s, r, Outcomes(c)[r])
  }

  ghost predicate SettledRule(s: Pool, r: Rule, o: Outcome)
    requires r in s.state
  {
    match s.state[r]
    case Unset => r in s.rules || r in s.started || o == Dropped
    case Error => r in s.started && o == Fails
    case Done => r in s.started && o == Succeeds
  }

  ghost predicate Busy(c: Config, s: Pool) {
    && (forall w :: 0 <= w < |s.workers| && s.workers[w].Running? ==>
          s.workers[w].r in s.started && s.workers[w].r in s.state && s.state[s.workers[w].r].Unset?)
    && (forall v, w :: 0 <= v < w < |s.workers| && s.workers[v].Running? ==> s.workers[v] != s.workers[w])
  }

  ghost predicate Located(c: Config, s: Pool, pc: Pc) {
    match pc
    case Enter(i) => i < |s.rules|
    case Scan(i, j) => i < |s.rules| && FirstDone(c, s, s.rules[i], j)
    case Reread(i, j) => i < |s.rules| && FirstDone(c, s, s.rules[i], j) && j < |c.g[s.rules[i]]|
    case Parking(i) => i == |s.rules| && s.rules != []
    case _ => true
  }

  ghost predicate Locked(c: Config, s: Pool) {
    && (forall w :: 0 <= w < |s.workers| ==> Located(c, s, s.workers[w]))
    && (forall v, w :: 0 <= v < w < |s.workers| && HasLock(s.workers[v]) ==> !HasLock(s.workers[w]))
  }

  predicate Inactive(pc: Pc) {
    pc.Asleep? || pc.Exited?
  }

  predicate Alone(s: Pool, w: nat) {
    forall v :: 0 <= v < |s.workers| && v != w ==> Inactive(s.workers[v])
  }

  /** While everyone else sleeps, what a worker has passed over stays held up. */
  ghost predicate Passed(c: Config, s: Pool, pc: Pc) {
    && (HasLock(pc) ==> forall k :: 0 <= k < pc.i && k < |s.rules| ==> HeldUp(c, s, s.rules[k]))
    && (pc.Reread? && InBounds(c, s, pc) ==> !s.state[c.g[s.rules[pc.i]][pc.j]].Done?)
  }

  ghost predicate Quiet(s: Pool) {
    forall v :: 0 <= v < |s.workers| ==> Inactive(s.workers[v])
  }

  ghost predicate AllHeldUp(c: Config, s: Pool) {
    forall k :: 0 <= k < |s.rules| ==> HeldUp(c, s, s.rules[k])
  }

  ghost predicate NoLostWork(c: Config, s: Pool) {
    && (forall w :: 0 <= w < |s.workers| && Alone(s, w) ==> Passed(c, s, s.workers[w]))
    && (Quiet(s) ==> AllHeldUp(c, s))
  }

  predicate WillBroadcast(pc: Pc) {
    pc.Running? || pc.Broadcasting?
  }

  /** Nobody leaves early, and nobody oversleeps the last rule. */
  ghost predicate Dismissed(s: Pool) {
    && (Exited in s.workers ==> s.rules == [])
    && (s.rules == [] && Asleep in s.workers ==> exists w :: 0 <= w < |s.workers| && WillBroadcast(s.workers[w]))
  }

  ghost predicate Inv(c: Config, s: Pool) {
    && GoodConfig(c)
    && Listed(c, s) && Started(c, s) && Settled(c, s) && Busy(c, s) && Locked(c, s) && NoLostWork(c, s) && Dismissed(s)
  }

  lemma InitialInv(c: Config, n: nat)
    requires GoodConfig(c) && n > 0
    ensures Inv(c, Initial(c, n))
  {
    var s := Initial(c, n);
    forall r | r in s.state ensures r in Outcomes(c) { OutcomeIs(c, r); }
    assert s.workers[0] == Start;
  }

  lemma MoveKeepsRules(c: Config, s: Pool, w: nat, pc: Pc)
    requires GoodConfig(c) && Listed(c, s) && Started(c, s) && Settled(c, s) && Busy(c, s)
    requires w < |s.workers| && !s.workers[w].Running? && !pc.Running?
    ensures Listed(c, At(s, w, pc)) && Started(c, At(s, w, pc)) && Settled(c, At(s, w, pc)) && Busy(c, At(s, w, pc))
  {
    var s' := At(s, w, pc);
    forall r | r in s'.started
      ensures FirstDone(c, s', r, |c.g[r]|) && (s'.state[r].Unset? ==> Running(r) in s'.workers) {
      assert FirstDone(c, s, r, |c.g[r]|);
      if s.state[r].Unset? {
        var v :| 0 <= v < |s.workers| && s.workers[v] == Running(r);
        assert s'.workers[v] == Running(r);
      }
    }
    forall r | r in s'.state ensures r in Outcomes(c) && SettledRule(s', r, Outcomes(c)[r]) {
      assert SettledRule(s, r, Outcomes(c)[r]);
    }
  }

  lemma SameLocation(c: Config, s: Pool, s': Pool, pc: Pc)
    requires s.state == s'.state && s.rules == s'.rules
    ensures Located(c, s, pc) == Located(c, s', pc)
  {
    forall r, j: nat ensures FirstDone(c, s, r, j) == FirstDone(c, s', r, j) {}
  }

  lemma MoveKeepsLock(c: Config, s: Pool, w: nat, pc: Pc)
    requires Locked(c, s) && w < |s.workers| && Located(c, s, pc)
    requires HasLock(pc) ==> HasLock(s.workers[w]) || LockFree(s)
    ensures Locked(c, At(s, w, pc))
  {
    var s' := At(s, w, pc);
    forall v | 0 <= v < |s'.workers| ensures Located(c, s', s'.workers[v]) {
      SameLocation(c, s, s', s'.workers[v]);
    }
  }

  lemma MoveKeepsDismissed(s: Pool, w: nat, pc: Pc)
    requires Dismissed(s) && w < |s.workers| && !WillBroadcast(s.workers[w])
    requires (pc.Exited? ==> s.rules == []) && (pc.Asleep? ==> s.rules != [])
    ensures Dismissed(At(s, w, pc))
  {
    var s' := At(s, w, pc);
    if Exited in s'.workers {
      var v :| 0 <= v < |s'.workers| && s'.workers[v] == Exited;
      if v != w { assert s.workers[v] == Exited; }
    }
    if s'.rules == [] && Asleep in s'.workers {
      var v :| 0 <= v < |s'.workers| && s'.workers[v] == Asleep;
      assert s.workers[v] == Asleep;
      var u :| 0 <= u < |s.workers| && WillBroadcast(s.workers[u]);
      assert WillBroadcast(s'.workers[u]);
    }
  }

  /** A step that moves one worker and changes nothing else. */
  lemma MoveKeeps(c: Config, s: Pool, w: nat, pc: Pc)
    requires Inv(c, s) && w < |s.workers| && !WillBroadcast(s.workers[w]) && !pc.Running?
    requires Located(c, s, pc)
    requires HasLock(pc) || Inactive(pc) ==> HasLock(s.workers[w]) || LockFree(s)
    requires Alone(s, w) ==> Passed(c, s, pc) && (Inactive(pc) ==> AllHeldUp(c, s))
    requires (pc.Exited? ==> s.rules == []) && (pc.Asleep? ==> s.rules != [])
    ensures Inv(c, At(s, w, pc))
  {
    MoveKeepsRules(c, s, w, pc);
    MoveKeepsLock(c, s, w, pc);
    MoveLosesNoWork(c, s, w, pc);
    MoveKeepsDismissed(s, w, pc);
  }

  lemma SameStates(c: Config, s: Pool, s': Pool)
    requires s.state == s'.state
    ensures forall r :: HeldUp(c, s, r) ==> HeldUp(c, s', r)
  {
    forall r | HeldUp(c, s, r) ensures HeldUp(c, s', r) {
      var j: nat :| FirstDone(c, s, r, j) && j < |c.g[r]| && c.g[r][j] in s.state && s.state[c.g[r][j]].Unset?;
      assert FirstDone(c, s', r, j);
    }
  }

  lemma MoveLosesNoWork(c: Config, s: Pool, w: nat, pc: Pc)
    requires Locked(c, s) && NoLostWork(c, s) && w < |s.workers|
    requires HasLock(pc) || Inactive(pc) ==> HasLock(s.workers[w]) || LockFree(s)
    requires Alone(s, w) ==> Passed(c, s, pc) && (Inactive(pc) ==> AllHeldUp(c, s))
    ensures NoLostWork(c, At(s, w, pc))
  {
    var s' := At(s, w, pc);
    SameStates(c, s, s');
    forall v | 0 <= v < |s'.workers| && Alone(s', v) ensures Passed(c, s', s'.workers[v]) {
      if v == w {
        assert Alone(s, w) by {
          forall u | 0 <= u < |s.workers| && u != w ensures Inactive(s.workers[u]) { assert Inactive(s'.workers[u]); }
        }
        assert Passed(c, s, pc);
      } else {
        assert Inactive(s'.workers[w]);
        assert !HasLock(s.workers[v]);
      }
    }
    if Quiet(s') {
      assert Alone(s, w) by {
        forall u | 0 <= u < |s.workers| && u != w ensures Inactive(s.workers[u]) { assert Inactive(s'.workers[u]); }
      }
      assert Inactive(s'.workers[w]);
    }
  }

  // ---- the steps of a scanning worker ----

  lemma StartKeeps(c: Config, s: Pool, w: nat)
    requires Inv(c, s) && CanStep(c, s, w) && (s.workers[w].Start? || s.workers[w].Woken?)
    ensures Inv(c, Step(c, s, w))
  {
    MoveKeeps(c, s, w, if s.workers[w].Woken? then Start else if s.rules == [] then Exited else Enter(0));
  }

  lemma EnterKeeps(c: Config, s: Pool, w: nat)
    requires Inv(c, s) && CanStep(c, s, w) && s.workers[w].Enter?
    ensures Inv(c, Step(c, s, w))
  {
    var i := s.workers[w].i;
    assert s.rules[i] in s.rules;
    DepsAreOrdered(c, s.rules[i]);
    assert FirstDone(c, s, s.rules[i], 0);
    MoveKeeps(c, s, w, Scan(i, 0));
  }

  lemma ScanFacts(c: Config, s: Pool, w: nat)
    requires Locked(c, s) && NoLostWork(c, s) && CanStep(c, s, w) && s.workers[w].Scan?
    requires s.workers[w].j < |c.g[s.rules[s.workers[w].i]]|
    ensures Located(c, s, Step(c, s, w).workers[w])
    ensures Alone(s, w) ==> Passed(c, s, Step(c, s, w).workers[w])
  {
    assert Located(c, s, s.workers[w]);
    if Alone(s, w) { assert Passed(c, s, s.workers[w]); }
  }

  lemma ScanKeeps(c: Config, s: Pool, w: nat)
    requires Inv(c, s) && CanStep(c, s, w) && s.workers[w].Scan?
    requires s.workers[w].j < |c.g[s.rules[s.workers[w].i]]|
    ensures Inv(c, Step(c, s, w))
  {
    ScanFacts(c, s, w);
    MoveKeeps(c, s, w, Step(c, s, w).workers[w]);
  }

  lemma RereadFacts(c: Config, s: Pool, w: nat)
    requires Locked(c, s) && NoLostWork(c, s) && CanStep(c, s, w) && s.workers[w].Reread?
    requires !s.state[c.g[s.rules[s.workers[w].i]][s.workers[w].j]].Error?
    ensures Located(c, s, Step(c, s, w).workers[w])
    ensures Alone(s, w) ==> Passed(c, s, Step(c, s, w).workers[w])
  {
    var Reread(i, j) := s.workers[w];
    assert Located(c, s, s.workers[w]);
    if Alone(s, w) {
      assert Passed(c, s, s.workers[w]);
      assert HeldUp(c, s, s.rules[i]);
    }
  }

  lemma RereadKeeps(c: Config, s: Pool, w: nat)
    requires Inv(c, s) && CanStep(c, s, w) && s.workers[w].Reread?
    requires !s.state[c.g[s.rules[s.workers[w].i]][s.workers[w].j]].Error?
    ensures Inv(c, Step(c, s, w))
  {
    RereadFacts(c, s, w);
    MoveKeeps(c, s, w, Step(c, s, w).workers[w]);
  }

  /** A worker that has passed over the whole list goes to sleep, whatever has been
      set and broadcast since its last look. */
  lemma ParkKeeps(c: Config, s: Pool, w: nat)
    requires Inv(c, s) && CanStep(c, s, w) && s.workers[w].Parking?
    ensures Inv(c, Step(c, s, w))
  {
    assert Located(c, s, s.workers[w]);
    if Alone(s, w) { assert Passed(c, s, s.workers[w]); }
    MoveKeeps(c, s, w, Asleep);
  }

  // ---- taking a rule off the list ----

  lemma ListWithout(c: Config, s: Pool, s': Pool, i: nat)
    requires Listed(c, s) && i < |s.rules| && s'.rules == s.rules[..i] + s.rules[i + 1..] && s'.state == s.state
    requires forall r :: r in s'.started ==> r in s.started || r == s.rules[i]
    ensures Listed(c, s') && s.rules[i] !in s'.rules
    ensures forall r :: r in s.rules <==> r in s'.rules || r == s.rules[i]
  {
    forall r ensures r in s.rules <==> r in s'.rules || r == s.rules[i] {
      assert s.rules == s.rules[..i] + [s.rules[i]] + s.rules[i + 1..];
    }
    forall k, l | 0 <= k < l < |s'.rules| ensures s'.rules[k] != s'.rules[l] {
      assert s'.rules[k] == s.rules[if k < i then k else k + 1];
      assert s'.rules[l] == s.rules[if l < i then l else l + 1];
    }
    forall k | 0 <= k < |s'.rules| ensures s'.rules[k] != s.rules[i] {
      assert s'.rules[k] == s.rules[if k < i then k else k + 1];
    }
  }

  /** After the lock holder has taken a rule off the list it is awake and lockless. */
  lemma TakenKeepsRest(c: Config, s: Pool, s': Pool, w: nat, pc: Pc)
    requires Locked(c, s) && Dismissed(s) && w < |s.workers| && HasLock(s.workers[w]) && s.rules != []
    requires WillBroadcast(pc) && s'.workers == s.workers[w := pc]
    ensures Locked(c, s') && NoLostWork(c, s') && Dismissed(s')
  {
    assert Exited !in s.workers;
    forall v | 0 <= v < |s'.workers|
      ensures !HasLock(s'.workers[v]) && Located(c, s', s'.workers[v]) && !s'.workers[v].Exited? {
      assert v != w ==> s.workers[v] in s.workers;
    }
    assert !Inactive(s'.workers[w]);
  }

  lemma ReadyKeepsStarted(c: Config, s: Pool, w: nat)
    requires Started(c, s) && Listed(c, s) && Locked(c, s) && CanStep(c, s, w) && s.workers[w].Scan?
    requires s.workers[w].j == |c.g[s.rules[s.workers[w].i]]|
    ensures Started(c, Step(c, s, w))
  {
    var r := s.rules[s.workers[w].i];
    var s' := Step(c, s, w);
    assert Located(c, s, s.workers[w]);
    assert r in s.rules;
    forall q | q in s'.started
      ensures q in c.g && FirstDone(c, s', q, |c.g[q]|) && (s'.state[q].Unset? ==> Running(q) in s'.workers) {
      assert FirstDone(c, s, q, |c.g[q]|);
      if s.state[q].Unset? && q != r {
        var v :| 0 <= v < |s.workers| && s.workers[v] == Running(q);
        assert s'.workers[v] == Running(q);
      } else {
        assert s'.workers[w] == Running(r);
      }
    }
  }

  lemma ReadyKeepsSettled(c: Config, s: Pool, w: nat)
    requires GoodConfig(c) && Settled(c, s) && Listed(c, s) && CanStep(c, s, w) && s.workers[w].Scan?
    requires s.workers[w].j == |c.g[s.rules[s.workers[w].i]]|
    ensures Settled(c, Step(c, s, w)) && Listed(c, Step(c, s, w))
  {
    var s' := Step(c, s, w);
    ListWithout(c, s, s', s.workers[w].i);
    forall q | q in s'.state ensures q in Outcomes(c) && SettledRule(s', q, Outcomes(c)[q]) {
      assert SettledRule(s, q, Outcomes(c)[q]);
    }
  }

  lemma ReadyKeeps(c: Config, s: Pool, w: nat)
    requires Inv(c, s) && CanStep(c, s, w) && s.workers[w].Scan?
    requires s.workers[w].j == |c.g[s.rules[s.workers[w].i]]|
    ensures Inv(c, Step(c, s, w))
  {
    assert s.rules[s.workers[w].i] in s.rules;
    ReadyKeepsStarted(c, s, w);
    ReadyKeepsSettled(c, s, w);
    TakenKeepsRest(c, s, Step(c, s, w), w, Running(s.rules[s.workers[w].i]));
  }

  lemma DropKeeps(c: Config, s: Pool, w: nat)
    requires Inv(c, s) && CanStep(c, s, w) && s.workers[w].Reread?
    requires s.state[c.g[s.rules[s.workers[w].i]][s.workers[w].j]].Error?
    ensures Inv(c, Step(c, s, w))
  {
    var Reread(i, j) := s.workers[w];
    var r := s.rules[i];
    var s' := Step(c, s, w);
    assert Located(c, s, s.workers[w]);
    assert r in s.rules;
    ListWithout(c, s, s', i);
    TakenKeepsRest(c, s, s', w, Broadcasting);
    MoveKeepsRules(c, s, w, Broadcasting);
    assert Started(c, s') by {
      forall q | q in s'.started
        ensures q in c.g && FirstDone(c, s', q, |c.g[q]|) && (s'.state[q].Unset? ==> Running(q) in s'.workers) {
        assert FirstDone(c, At(s, w, Broadcasting), q, |c.g[q]|);
      }
    }
    OutcomeOfRule(c, s, r, j);
    assert Settled(c, s') by {
      forall q | q in s'.state ensures q in Outcomes(c) && SettledRule(s', q, Outcomes(c)[q]) {
        assert SettledRule(s, q, Outcomes(c)[q]);
      }
    }
  }

  /** What the states say about a rule whose first `j` dependencies are done. */
  lemma OutcomeOfRule(c: Config, s: Pool, r: Rule, j: nat)
    requires GoodConfig(c) && Settled(c, s) && s.state.Keys == Elements(c.order)
    requires r in c.order && FirstDone(c, s, r, j)
    ensures DepsInOrder(c, r) && Outcomes(c).Keys == Elements(c.order)
    ensures Outcomes(c)[r] == JudgeFrom(c, Outcomes(c), r, j)
    ensures j < |c.g[r]| && c.g[r][j] in s.state && s.state[c.g[r][j]].Error? ==> Outcomes(c)[r] == Dropped
  {
    OutcomeIs(c, r);
    forall k | 0 <= k < j ensures Outcomes(c)[c.g[r][k]] == Succeeds {
      assert SettledRule(s, c.g[r][k], Outcomes(c)[c.g[r][k]]);
    }
    JudgeByFirst(c, Outcomes(c), r, j, 0);
    if j < |c.g[r]| && c.g[r][j] in s.state {
      assert SettledRule(s, c.g[r][j], Outcomes(c)[c.g[r][j]]);
    }
  }

  // ---- finishing a rule ----

  lemma FinishKeepsStarted(c: Config, s: Pool, w: nat)
    requires Started(c, s) && Busy(c, s) && Listed(c, s) && CanStep(c, s, w) && s.workers[w].Running?
    ensures Started(c, Step(c, s, w)) && Listed(c, Step(c, s, w))
  {
    var s' := Step(c, s, w);
    forall q | q in s'.started
      ensures FirstDone(c, s', q, |c.g[q]|) && (s'.state[q].Unset? ==> Running(q) in s'.workers) {
      assert FirstDone(c, s, q, |c.g[q]|);
      if s'.state[q].Unset? {
        var v :| 0 <= v < |s.workers| && s.workers[v] == Running(q);
        assert s'.workers[v] == Running(q);
      }
    }
  }

  lemma FinishKeepsSettled(c: Config, s: Pool, w: nat)
    requires GoodConfig(c) && Started(c, s) && Settled(c, s) && Busy(c, s) && Listed(c, s)
    requires CanStep(c, s, w) && s.workers[w].Running?
    ensures Settled(c, Step(c, s, w))
  {
    var r := s.workers[w].r;
    var s' := Step(c, s, w);
    assert FirstDone(c, s, r, |c.g[r]|);
    OutcomeOfRule(c, s, r, |c.g[r]|);
    forall q | q in s'.state ensures q in Outcomes(c) && SettledRule(s', q, Outcomes(c)[q]) {
      assert SettledRule(s, q, Outcomes(c)[q]);
    }
  }

  lemma FinishKeepsRest(c: Config, s: Pool, w: nat)
    requires Locked(c, s) && Dismissed(s) && Busy(c, s) && CanStep(c, s, w) && s.workers[w].Running?
    ensures var s' := Step(c, s, w); Locked(c, s') && NoLostWork(c, s') && Dismissed(s') && Busy(c, s')
  {
    var s' := Step(c, s, w);
    assert !Inactive(s'.workers[w]) && !HasLock(s'.workers[w]) && WillBroadcast(s'.workers[w]);
    forall q, j: nat | FirstDone(c, s, q, j) ensures FirstDone(c, s', q, j) {}
    forall v | 0 <= v < |s'.workers| ensures Located(c, s', s'.workers[v]) {
      assert Located(c, s, s.workers[v]);
    }
    forall v | 0 <= v < |s'.workers| && s'.workers[v] == Exited ensures Exited in s.workers {
      assert s.workers[v] == Exited;
    }
  }

  lemma FinishKeeps(c: Config, s: Pool, w: nat)
    requires Inv(c, s) && CanStep(c, s, w) && s.workers[w].Running?
    ensures Inv(c, Step(c, s, w))
  {
    FinishKeepsStarted(c, s, w);
    FinishKeepsSettled(c, s, w);
    FinishKeepsRest(c, s, w);
  }

  lemma BroadcastKeepsStarted(c: Config, s: Pool, w: nat)
    requires Listed(c, s) && Started(c, s) && Busy(c, s)
    requires CanStep(c, s, w) && s.workers[w].Broadcasting?
    ensures var s' := Step(c, s, w); Listed(c, s') && Started(c, s') && Busy(c, s')
  {
    var s' := Step(c, s, w);
    forall q | q in s'.started
      ensures FirstDone(c, s', q, |c.g[q]|) && (s'.state[q].Unset? ==> Running(q) in s'.workers) {
      assert FirstDone(c, s, q, |c.g[q]|);
      if s.state[q].Unset? {
        var v :| 0 <= v < |s.workers| && s.workers[v] == Running(q);
        assert s'.workers[v] == Running(q);
      }
    }
  }

  lemma BroadcastKeepsSettled(c: Config, s: Pool, w: nat)
    requires GoodConfig(c) && Settled(c, s) && CanStep(c, s, w) && s.workers[w].Broadcasting?
    ensures Settled(c, Step(c, s, w))
  {
    var s' := Step(c, s, w);
    forall q | q in s'.state ensures q in Outcomes(c) && SettledRule(s', q, Outcomes(c)[q]) {
      assert SettledRule(s, q, Outcomes(c)[q]);
    }
  }

  lemma BroadcastKeepsRest(c: Config, s: Pool, w: nat)
    requires Locked(c, s) && Dismissed(s) && CanStep(c, s, w) && s.workers[w].Broadcasting?
    ensures var s' := Step(c, s, w); Locked(c, s') && NoLostWork(c, s') && Dismissed(s')
  {
    var s' := Step(c, s, w);
    assert !Inactive(s'.workers[w]) && !HasLock(s'.workers[w]);
    forall v | 0 <= v < |s'.workers| ensures Located(c, s', s'.workers[v]) {
      SameLocation(c, s, s', s.workers[v]);
    }
    forall v | 0 <= v < |s'.workers| && s'.workers[v] == Exited ensures Exited in s.workers {
      assert s.workers[v] == Exited;
    }
  }

  lemma BroadcastKeeps(c: Config, s: Pool, w: nat)
    requires Inv(c, s) && CanStep(c, s, w) && s.workers[w].Broadcasting?
    ensures Inv(c, Step(c, s, w))
  {
    BroadcastKeepsStarted(c, s, w);
    BroadcastKeepsSettled(c, s, w);
    BroadcastKeepsRest(c, s, w);
  }

  lemma StepKeeps(c: Config, s: Pool, w: nat)
    requires Inv(c, s) && CanStep(c, s, w)
    ensures Inv(c, Step(c, s, w))
  {
    match s.workers[w]
    case Start => StartKeeps(c, s, w);
    case Woken => StartKeeps(c, s, w);
    case Enter(i) => EnterKeeps(c, s, w);
    case Scan(i, j) => if j == |c.g[s.rules[i]]| { ReadyKeeps(c, s, w); } else { ScanKeeps(c, s, w); }
    case Reread(i, j) => if s.state[c.g[s.rules[i]][j]].Error? { DropKeeps(c, s, w); } else { RereadKeeps(c, s, w); }
    case Parking(_) => ParkKeeps(c, s, w);
    case Running(r) => FinishKeeps(c, s, w);
    case Broadcasting => BroadcastKeeps(c, s, w);
  }

  lemma WakeKeeps(c: Config, s: Pool, w: nat)
    requires Inv(c, s) && CanWake(s, w)
    ensures Inv(c, At(s, w, Woken))
  {
    MoveKeeps(c, s, w, Woken);
  }

  // ---- runs ----

  /** `Act` is a step of a worker, `Spurious` a wakeup nobody asked for. */
  datatype Event = Act(w: nat) | Spurious(w: nat)

  function Next(c: Config, s: Pool, e: Event): Option<Pool> {
    match e
    case Act(w) => if CanStep(c, s, w) then Some(Step(c, s, w)) else None
    case Spurious(w) => if CanWake(s, w) then Some(At(s, w, Woken)) else None
  }

  function Run(c: Config, s: Pool, es: seq<Event>): Option<Pool>
    decreases |es|
  {
    if es == [] then Some(s)
    else match Next(c, s, es[0]) {
      case None => None
      case Some(s') => Run(c, s', es[1..])
    }
  }

  lemma {:induction false} RunKeeps(c: Config, s: Pool, es: seq<Event>)
    requires Inv(c, s) && Run(c, s, es).Some?
    ensures Inv(c, Run(c, s, es).value)
    decreases |es|
  {
    if es != [] {
      match es[0] {
        case Act(w) => StepKeeps(c, s, w);
        case Spurious(w) => WakeKeeps(c, s, w);
      }
      RunKeeps(c, Next(c, s, es[0]).value, es[1..]);
    }
  }

  lemma {:induction false} SuccessMeansNoFailure(c: Config, m: map<Rule, Outcome>, r: Rule, j: nat)
    requires r in c.g && j <= |c.g[r]| && forall d :: d in c.g[r] ==> d in m
    requires JudgeFrom(c, m, r, j) == Succeeds
    ensures r !in c.fails
    decreases |c.g[r]| - j
  {
    if j < |c.g[r]| { SuccessMeansNoFailure(c, m, r, j + 1); }
  }

  lemma {:induction false} DoneBelow(c: Config, s: Pool, p: seq<Rule>)
    requires Inv(c, s) && IsPath(c.g, p) && |p| > 1 && p[0] in s.started
    ensures p[|p| - 1] in s.state && s.state[p[|p| - 1]].Done? && p[|p| - 1] !in c.fails
    decreases |p|
  {
    assert FirstDone(c, s, p[0], |c.g[p[0]]|);
    assert Edge(c.g, p[0], p[0 + 1]);
    assert SettledRule(s, p[1], Outcomes(c)[p[1]]);
    if |p| == 2 {
      OutcomeIs(c, p[1]);
      SuccessMeansNoFailure(c, Outcomes(c), p[1], 0);
    } else {
      SubPath(c.g, p, 1, |p|);
      assert p[1..][|p| - 2] == p[|p| - 1];
      DoneBelow(c, s, p[1..]);
    }
  }

  /** In every interleaving, failed commands included: a rule's commands are run
      at most once, and only when everything below it is done and nothing below
      it has failed. */
  lemma RunsOnceAfterDependencies(c: Config, n: nat, es: seq<Event>, r: Rule)
    requires GoodConfig(c) && n > 0 && Run(c, Initial(c, n), es).Some?
    ensures var s := Run(c, Initial(c, n), es).value;
      && Distinct(s.started)
      && (r in s.started ==>
            forall d :: d != r && Reaches(c.g, r, d) ==> d in s.state && s.state[d].Done? && d !in c.fails)
  {
    InitialInv(c, n);
    RunKeeps(c, Initial(c, n), es);
    var s := Run(c, Initial(c, n), es).value;
    if r in s.started {
      forall d | d != r && Reaches(c.g, r, d) ensures d in s.state && s.state[d].Done? && d !in c.fails {
        var p :| IsPath(c.g, p) && p[0] == r && p[|p| - 1] == d;
        DoneBelow(c, s, p);
      }
    }
  }

  // ---- when everyone sleeps or has left ----

  lemma {:induction false} QuietRule(c: Config, s: Pool, k: nat)
    requires Inv(c, s) && Quiet(s) && k < |c.order|
    ensures c.order[k] in s.state && c.order[k] in Outcomes(c)
    ensures c.order[k] in s.rules <==> Outcomes(c)[c.order[k]] == Stuck
    ensures s.state[c.order[k]].Done? <==> Outcomes(c)[c.order[k]] == Succeeds
    decreases k
  {
    var r := c.order[k];
    OutcomeIs(c, r);
    assert SettledRule(s, r, Outcomes(c)[r]);
    if r in s.rules {
      var i :| 0 <= i < |s.rules| && s.rules[i] == r;
      assert HeldUp(c, s, r);
      var j: nat :| FirstDone(c, s, r, j) && j < |c.g[r]| && c.g[r][j] in s.state && s.state[c.g[r][j]].Unset?;
      OutcomeOfRule(c, s, r, j);
      var d := c.g[r][j];
      assert Edge(c.g, c.order[k], d);
      var l :| 0 <= l < k && c.order[..k][l] == d;
      QuietRule(c, s, l);
      QuietHasNoRunner(s, d);
      assert SettledRule(s, d, Outcomes(c)[d]);
    } else if r in s.started {
      QuietHasNoRunner(s, r);
    }
  }

  lemma QuietHasNoRunner(s: Pool, r: Rule)
    requires Quiet(s)
    ensures Running(r) !in s.workers
  {
  }

  /** Dependency `j` is the first that is not done, and it has no state. */
  predicate HeldAt(g: Graph<Rule>, s: Pool, r: Rule, j: nat)
    requires r in g && forall d :: d in g[r] ==> d in s.state
  {
    j < |g[r]| && s.state[g[r][j]].Unset? && forall i :: 0 <= i < j ==> s.state[g[r][i]].Done?
  }

  /** What has become of rule `r`, by its commands and those of what it reaches: done if
      none of them fails; failed if only its own do; not run otherwise. It is still
      listed if its first dependency that is not done has not failed either. */
  ghost predicate Fate(g: Graph<Rule>, fails: set<Rule>, s: Pool, r: Rule) {
    && r in s.state && r in g && (forall d :: d in g[r] ==> d in s.state)
    && (s.state[r].Done? <==> forall d :: Reaches(g, r, d) ==> d !in fails)
    && (s.state[r].Error? <==> r in fails && forall d :: d != r && Reaches(g, r, d) ==> d !in fails)
    && (r in s.started <==> s.state[r].Done? || s.state[r].Error?)
    && (r in s.rules <==> exists j: nat :: HeldAt(g, s, r, j))
  }

  /** The rule was run exactly if it has a state. */
  lemma QuietState(c: Config, s: Pool, k: nat)
    requires Inv(c, s) && Quiet(s) && k < |c.order|
    ensures var r := c.order[k];
      && r in s.state
      && (s.state[r].Done? <==> Clean(c, r)) && (s.state[r].Error? <==> FailsItself(c, r))
      && (r in s.started <==> s.state[r].Done? || s.state[r].Error?)
  {
    var r := c.order[k];
    QuietRule(c, s, k);
    OutcomeMeans(c, k);
    assert SettledRule(s, r, Outcomes(c)[r]);
    QuietHasNoRunner(s, r);
  }

  /** At rest a dependency without a state has neither succeeded nor failed. */
  lemma QuietDep(c: Config, s: Pool, k: nat, j: nat)
    requires Inv(c, s) && Quiet(s) && k < |c.order| && j < |c.g[c.order[k]]|
    requires c.g[c.order[k]][j] in s.state && s.state[c.g[c.order[k]][j]].Unset?
    ensures c.g[c.order[k]][j] in Outcomes(c)
    ensures Outcomes(c)[c.g[c.order[k]][j]] == Dropped || Outcomes(c)[c.g[c.order[k]][j]] == Stuck
  {
    var d := c.g[c.order[k]][j];
    assert Edge(c.g, c.order[k], d);
    var l :| 0 <= l < k && c.order[..k][l] == d;
    QuietRule(c, s, l);
    QuietHasNoRunner(s, d);
    assert SettledRule(s, d, Outcomes(c)[d]);
  }

  lemma QuietListed(c: Config, s: Pool, k: nat)
    requires Inv(c, s) && Quiet(s) && k < |c.order|
    ensures var r := c.order[k];
      && r in c.g && (forall d :: d in c.g[r] ==> d in s.state)
      && (r in s.rules <==> exists j: nat :: HeldAt(c.g, s, r, j))
  {
    var r := c.order[k];
    QuietRule(c, s, k);
    OutcomeIs(c, r);
    if r in s.rules {
      assert HeldUp(c, s, r);
      var j: nat :| FirstDone(c, s, r, j) && j < |c.g[r]| && c.g[r][j] in s.state && s.state[c.g[r][j]].Unset?;
      assert HeldAt(c.g, s, r, j);
    }
    if j: nat :| HeldAt(c.g, s, r, j) {
      assert FirstDone(c, s, r, j);
      OutcomeOfRule(c, s, r, j);
      QuietDep(c, s, k, j);
    }
  }

  lemma QuietFate(c: Config, s: Pool, k: nat)
    requires Inv(c, s) && Quiet(s) && k < |c.order|
    ensures Fate(c.g, c.fails, s, c.order[k])
  {
    QuietState(c, s, k);
    QuietListed(c, s, k);
  }

  /** Whatever the interleaving, the pool comes to rest with exactly the stuck
      rules still listed, and exactly the succeeding ones done. */
  lemma RestIsDetermined(c: Config, n: nat, es: seq<Event>, r: Rule)
    requires GoodConfig(c) && n > 0 && Run(c, Initial(c, n), es).Some? && Quiet(Run(c, Initial(c, n), es).value)
    requires r in c.order
    ensures var s := Run(c, Initial(c, n), es).value;
      && Fate(c.g, c.fails, s, r) && r in Outcomes(c)
      && (r in s.rules <==> Outcomes(c)[r] == Stuck)
      && (s.state[r].Done? <==> Outcomes(c)[r] == Succeeds)
  {
    InitialInv(c, n);
    RunKeeps(c, Initial(c, n), es);
    var k :| 0 <= k < |c.order| && c.order[k] == r;
    QuietRule(c, Run(c, Initial(c, n), es).value, k);
    QuietFate(c, Run(c, Initial(c, n), es).value, k);
  }

  /** A pool at rest with nothing listed has sent every worker home. */
  lemma RestWithoutRulesIsExit(c: Config, s: Pool)
    requires Inv(c, s) && Quiet(s) && s.rules == []
    ensures forall w :: 0 <= w < |s.workers| ==> s.workers[w].Exited?
  {
    forall w | 0 <= w < |s.workers| ensures s.workers[w].Exited? {
      assert Inactive(s.workers[w]);
      assert s.workers[w] in s.workers;
    }
  }

  /** Wherever something fails at or below a dependency, the first such dependency of the
      rule fails itself. */
  ghost predicate NothingStuck(c: Config) {
    forall r, j {:trigger Waits(c, r, j)} :: r in c.order && r in c.g && 0 <= j < |c.g[r]| ==> !Waits(c, r, j)
  }

  /** Dependency `j` is the first with a failure at or below it, and was dropped or waits
      itself. */
  ghost predicate Waits(c: Config, r: Rule, j: nat)
    requires r in c.g && j < |c.g[r]|
  {
    (forall i :: 0 <= i < j ==> Clean(c, c.g[r][i])) && !Clean(c, c.g[r][j]) && !FailsItself(c, c.g[r][j])
  }

  lemma StuckMeans(c: Config, k: nat)
    requires GoodConfig(c) && k < |c.order|
    ensures var r := c.order[k];
      && r in Outcomes(c) && r in c.g
      && (Outcomes(c)[r] == Stuck <==> exists j: nat :: j < |c.g[r]| && Waits(c, r, j))
  {
    var r := c.order[k];
    OutcomeIs(c, r);
    forall i | 0 <= i < |c.g[r]|
      ensures (Outcomes(c)[c.g[r][i]] == Succeeds <==> Clean(c, c.g[r][i]))
        && (Outcomes(c)[c.g[r][i]] == Fails <==> FailsItself(c, c.g[r][i])) {
      var l: nat :| l < |c.order| && c.order[l] == c.g[r][i];
      OutcomeMeans(c, l);
    }
    var j := FirstDoubtful(c, r);
    JudgeByFirst(c, Outcomes(c), r, j, 0);
    if j < |c.g[r]| && Outcomes(c)[c.g[r][j]] != Fails { assert Waits(c, r, j); }
    forall i: nat | i < |c.g[r]| && Waits(c, r, i) ensures i == j {}
  }

  lemma NothingStuckMeans(c: Config)
    requires GoodConfig(c)
    ensures NothingStuck(c) <==> forall r :: r in c.order ==> r in Outcomes(c) && Outcomes(c)[r] != Stuck
  {
    forall r | r in c.order
      ensures r in Outcomes(c) && r in c.g
        && (Outcomes(c)[r] == Stuck <==> exists j: nat :: j < |c.g[r]| && Waits(c, r, j)) {
      var k: nat :| k < |c.order| && c.order[k] == r;
      StuckMeans(c, k);
    }
  }

  lemma {:induction false} NoFailureSucceeds(c: Config, k: nat)
    requires GoodConfig(c) && c.fails == {} && k < |c.order|
    ensures c.order[k] in Outcomes(c) && Outcomes(c)[c.order[k]] == Succeeds
    decreases k
  {
    var r := c.order[k];
    OutcomeIs(c, r);
    forall i | 0 <= i < |c.g[r]| ensures Outcomes(c)[c.g[r][i]] == Succeeds {
      assert Edge(c.g, c.order[k], c.g[r][i]);
      var l :| 0 <= l < k && c.order[..k][l] == c.g[r][i];
      NoFailureSucceeds(c, l);
    }
    JudgeByFirst(c, Outcomes(c), r, |c.g[r]|, 0);
  }

  // ---- progress ----

  lemma HolderCanStep(c: Config, s: Pool, w: nat)
    requires Inv(c, s) && w < |s.workers| && HasLock(s.workers[w])
    ensures CanStep(c, s, w)
  {
    var pc := s.workers[w];
    assert Located(c, s, pc);
    if !pc.Parking? {
      var r := s.rules[pc.i];
      assert r in s.rules && r in s.state;
      DepsAreOrdered(c, r);
      assert !pc.Enter? && pc.j < |c.g[r]| ==> c.g[r][pc.j] in c.order;
    }
  }

  /** Unless everyone sleeps or has left, somebody can step. */
  lemma SomebodyCanStep(c: Config, s: Pool)
    requires Inv(c, s) && !Quiet(s)
    ensures exists w :: CanStep(c, s, w)
  {
    if w :| 0 <= w < |s.workers| && HasLock(s.workers[w]) {
      HolderCanStep(c, s, w);
    } else {
      var w :| 0 <= w < |s.workers| && !Inactive(s.workers[w]);
      assert CanStep(c, s, w);
    }
  }

  // ---- termination ----

  function DepCount(c: Config, r: Rule): nat {
    if r in c.g then |c.g[r]| else 0
  }

  /** Steps of one scan over `rs`. */
  function Work(c: Config, rs: seq<Rule>): nat {
    if rs == [] then 0 else DepCount(c, rs[0]) + 3 + Work(c, rs[1..])
  }

  /** Most steps a worker can take before it pops a rule, sleeps or leaves, when a
      whole scan takes at most `top` steps. */
  function Local(c: Config, rules: seq<Rule>, top: nat, pc: Pc): nat {
    match pc
    case Start => 3 + top
    case Woken => 4 + top
    case Enter(i) => 2 + (if i < |rules| then Work(c, rules[i..]) else 0)
    case Scan(i, j) =>
      if i < |rules| && j <= DepCount(c, rules[i]) then 4 + DepCount(c, rules[i]) - j + Work(c, rules[i + 1..]) else 0
    case Reread(i, j) =>
      if i < |rules| && j < DepCount(c, rules[i]) then 3 + DepCount(c, rules[i]) - j + Work(c, rules[i + 1..]) else 0
    case Parking(_) => 2
    case Running(_) => 1
    case Broadcasting => 0
    case Asleep => 1
    case Exited => 0
  }

  /** `b` pays for the sleepers a broadcast will wake. */
  function Potential(c: Config, rules: seq<Rule>, top: nat, b: nat, pc: Pc): nat {
    Local(c, rules, top, pc) + if WillBroadcast(pc) then b else 0
  }

  function Total(c: Config, rules: seq<Rule>, top: nat, b: nat, ws: seq<Pc>): nat {
    if ws == [] then 0 else Potential(c, rules, top, b, ws[0]) + Total(c, rules, top, b, ws[1..])
  }

  function Budget(n: nat, top: nat): nat {
    n * (3 + top) + 1
  }

  function MeasureFor(c: Config, s: Pool, top: nat, b: nat): nat {
    |s.rules| * b + Total(c, s.rules, top, b, s.workers)
  }

  function Measure(c: Config, s: Pool): nat {
    MeasureFor(c, s, Work(c, c.order), Budget(|s.workers|, Work(c, c.order)))
  }

  lemma {:induction false} TotalUpdate(c: Config, rules: seq<Rule>, top: nat, b: nat, ws: seq<Pc>, w: nat, pc: Pc)
    requires w < |ws|
    ensures Total(c, rules, top, b, ws[w := pc]) ==
            Total(c, rules, top, b, ws) - Potential(c, rules, top, b, ws[w]) + Potential(c, rules, top, b, pc)
  {
    if w > 0 {
      assert ws[w := pc][1..] == ws[1..][w - 1 := pc];
      TotalUpdate(c, rules, top, b, ws[1..], w - 1, pc);
    } else {
      assert ws[w := pc][1..] == ws[1..];
    }
  }

  /** Only the lock holder's share depends on the list. */
  lemma {:induction false} TotalIgnoresRules(c: Config, rules: seq<Rule>, rules': seq<Rule>,
        top: nat, b: nat, ws: seq<Pc>)
    requires forall v :: 0 <= v < |ws| ==> !HasLock(ws[v])
    ensures Total(c, rules, top, b, ws) == Total(c, rules', top, b, ws)
  {
    if ws != [] {
      assert !HasLock(ws[0]);
      TotalIgnoresRules(c, rules, rules', top, b, ws[1..]);
    }
  }

  lemma WakePotential(c: Config, rules: seq<Rule>, top: nat, b: nat, pc: Pc)
    ensures Potential(c, rules, top, b, if pc.Asleep? then Woken else pc) <= Potential(c, rules, top, b, pc) + 3 + top
  {
  }

  lemma {:induction false} TotalAfterWakeAll(c: Config, rules: seq<Rule>, top: nat, b: nat, ws: seq<Pc>, gain: nat)
    requires gain == |ws| * (3 + top)
    ensures Total(c, rules, top, b, WakeAll(ws)) <= Total(c, rules, top, b, ws) + gain
  {
    if ws != [] {
      assert WakeAll(ws)[1..] == WakeAll(ws[1..]);
      assert gain - (3 + top) == (|ws| - 1) * (3 + top);
      TotalAfterWakeAll(c, rules, top, b, ws[1..], gain - (3 + top));
      WakePotential(c, rules, top, b, ws[0]);
    }
  }

  lemma {:induction false} WorkConcat(c: Config, a: seq<Rule>, b: seq<Rule>)
    ensures Work(c, a + b) == Work(c, a) + Work(c, b)
  {
    if a == [] {
      assert a + b == b;
    } else {
      assert (a + b)[1..] == a[1..] + b;
      WorkConcat(c, a[1..], b);
    }
  }

  lemma WorkAt(c: Config, rules: seq<Rule>, i: nat)
    requires i < |rules|
    ensures Work(c, rules[i..]) == DepCount(c, rules[i]) + 3 + Work(c, rules[i + 1..])
    ensures Work(c, rules[..i] + rules[i + 1..]) <= Work(c, rules)
  {
    assert rules[i..][1..] == rules[i + 1..];
    assert rules == rules[..i] + rules[i..];
    WorkConcat(c, rules[..i], rules[i..]);
    WorkConcat(c, rules[..i], rules[i + 1..]);
  }

  ghost predicate WorkBounded(c: Config, s: Pool) {
    Work(c, s.rules) <= Work(c, c.order)
  }

  lemma MoveMeasure(c: Config, s: Pool, w: nat, pc: Pc, top: nat, b: nat)
    requires w < |s.workers| && Potential(c, s.rules, top, b, pc) < Potential(c, s.rules, top, b, s.workers[w])
    ensures MeasureFor(c, At(s, w, pc), top, b) < MeasureFor(c, s, top, b)
  {
    TotalUpdate(c, s.rules, top, b, s.workers, w, pc);
  }

  /** The lock holder takes a rule off the list and owes one broadcast for it. */
  lemma TakeMeasure(c: Config, s: Pool, s': Pool, w: nat, i: nat, pc: Pc, top: nat, b: nat)
    requires Locked(c, s) && w < |s.workers| && HasLock(s.workers[w]) && i < |s.rules|
    requires s'.rules == s.rules[..i] + s.rules[i + 1..] && s'.workers == s.workers[w := pc] && WillBroadcast(pc)
    requires Local(c, s.rules, top, pc) < Local(c, s.rules, top, s.workers[w])
    ensures MeasureFor(c, s', top, b) < MeasureFor(c, s, top, b)
  {
    TotalUpdate(c, s.rules, top, b, s.workers, w, pc);
    forall v | 0 <= v < |s'.workers| ensures !HasLock(s'.workers[v]) {
      assert v != w ==> s'.workers[v] == s.workers[v];
    }
    TotalIgnoresRules(c, s.rules, s'.rules, top, b, s'.workers);
    assert |s.rules| * b == (|s.rules| - 1) * b + b;
  }

  /** A broadcast is paid for: the broadcaster restarts, the sleepers wake. */
  lemma {:induction false} BroadcastShare(c: Config, rules: seq<Rule>, top: nat, b: nat, ws: seq<Pc>, w: nat, gain: nat)
    requires w < |ws| && ws[w].Broadcasting? && gain == (|ws| - 1) * (3 + top)
    ensures Total(c, rules, top, b, WakeAll(ws)) <= Total(c, rules, top, b, ws) + gain
  {
    assert WakeAll(ws)[1..] == WakeAll(ws[1..]);
    if w == 0 {
      TotalAfterWakeAll(c, rules, top, b, ws[1..], gain);
    } else {
      assert gain - (3 + top) == (|ws| - 2) * (3 + top);
      BroadcastShare(c, rules, top, b, ws[1..], w - 1, gain - (3 + top));
      WakePotential(c, rules, top, b, ws[0]);
    }
  }

  lemma BroadcastMeasure(c: Config, s: Pool, w: nat, top: nat, b: nat)
    requires CanStep(c, s, w) && s.workers[w].Broadcasting? && b == Budget(|s.workers|, top)
    ensures MeasureFor(c, Step(c, s, w), top, b) < MeasureFor(c, s, top, b)
  {
    var gain := (|s.workers| - 1) * (3 + top);
    assert b == gain + 3 + top + 1;
    BroadcastShare(c, s.rules, top, b, s.workers, w, gain);
    TotalUpdate(c, s.rules, top, b, WakeAll(s.workers), w, Start);
  }

  lemma LocalDrops(c: Config, s: Pool, w: nat, top: nat)
    requires CanStep(c, s, w) && HasLock(s.workers[w]) && !s.workers[w].Parking?
    requires s.workers[w].Enter? ==> !s.state[s.rules[s.workers[w].i]].Done? && s.rules[s.workers[w].i] in c.g
    ensures Local(c, s.rules, top, Step(c, s, w).workers[w]) < Local(c, s.rules, top, s.workers[w])
    ensures Step(c, s, w).rules == s.rules || WillBroadcast(Step(c, s, w).workers[w])
  {
    WorkAt(c, s.rules, s.workers[w].i);
  }

  lemma ScanMeasure(c: Config, s: Pool, w: nat, top: nat, b: nat)
    requires Locked(c, s) && CanStep(c, s, w) && HasLock(s.workers[w]) && !s.workers[w].Parking?
    requires s.workers[w].Enter? ==> !s.state[s.rules[s.workers[w].i]].Done? && s.rules[s.workers[w].i] in c.g
    ensures MeasureFor(c, Step(c, s, w), top, b) < MeasureFor(c, s, top, b)
    ensures Work(c, Step(c, s, w).rules) <= Work(c, s.rules)
  {
    var i := s.workers[w].i;
    var pc := Step(c, s, w).workers[w];
    LocalDrops(c, s, w, top);
    WorkAt(c, s.rules, i);
    if WillBroadcast(pc) {
      TakeMeasure(c, s, Step(c, s, w), w, i, pc, top, b);
    } else {
      MoveMeasure(c, s, w, pc, top, b);
    }
  }

  lemma IdleMeasure(c: Config, s: Pool, w: nat, top: nat, b: nat)
    requires CanStep(c, s, w) && (HasLock(s.workers[w]) ==> s.workers[w].Parking?)
    requires b == Budget(|s.workers|, top) && Work(c, s.rules) <= top
    ensures MeasureFor(c, Step(c, s, w), top, b) < MeasureFor(c, s, top, b)
    ensures Step(c, s, w).rules == s.rules
  {
    match s.workers[w]
    case Start =>
      assert s.rules[0..] == s.rules;
      MoveMeasure(c, s, w, if s.rules == [] then Exited else Enter(0), top, b);
    case Parking(_) => MoveMeasure(c, s, w, Asleep, top, b);
    case Woken => MoveMeasure(c, s, w, Start, top, b);
    case Running(_) => MoveMeasure(c, s, w, Broadcasting, top, b);
    case Broadcasting => BroadcastMeasure(c, s, w, top, b);
  }

  /** A rule about to be looked at is a known one that is not done. */
  ghost predicate FreshEntry(c: Config, s: Pool, w: nat)
    requires CanStep(c, s, w)
  {
    s.workers[w].Enter? ==> !s.state[s.rules[s.workers[w].i]].Done? && s.rules[s.workers[w].i] in c.g
  }

  lemma EntryIsFresh(c: Config, s: Pool, w: nat)
    requires Inv(c, s) && CanStep(c, s, w)
    ensures FreshEntry(c, s, w)
  {
    if s.workers[w].Enter? {
      assert s.rules[s.workers[w].i] in s.rules;
      DepsAreOrdered(c, s.rules[s.workers[w].i]);
    }
  }

  lemma AnyMeasure(c: Config, s: Pool, w: nat, top: nat, b: nat)
    requires Locked(c, s) && CanStep(c, s, w) && FreshEntry(c, s, w)
    requires b == Budget(|s.workers|, top) && Work(c, s.rules) <= top
    ensures MeasureFor(c, Step(c, s, w), top, b) < MeasureFor(c, s, top, b)
    ensures Work(c, Step(c, s, w).rules) <= Work(c, s.rules) && |Step(c, s, w).workers| == |s.workers|
  {
    if HasLock(s.workers[w]) && !s.workers[w].Parking? {
      ScanMeasure(c, s, w, top, b);
    } else {
      IdleMeasure(c, s, w, top, b);
    }
  }

  /** Every step that is not a spurious wakeup uses up part of a finite supply. */
  lemma StepMeasure(c: Config, s: Pool, w: nat)
    requires Inv(c, s) && WorkBounded(c, s) && CanStep(c, s, w)
    ensures Measure(c, Step(c, s, w)) < Measure(c, s) && WorkBounded(c, Step(c, s, w))
    ensures |Step(c, s, w).workers| == |s.workers|
  {
    EntryIsFresh(c, s, w);
    AnyMeasure(c, s, w, Work(c, c.order), Budget(|s.workers|, Work(c, c.order)));
  }

  /** Every run without spurious wakeups is finite, with a bound fixed at the start. */
  lemma {:induction false} RunsAreBounded(c: Config, s: Pool, es: seq<Event>)
    requires Inv(c, s) && WorkBounded(c, s) && Run(c, s, es).Some? && forall e :: e in es ==> e.Act?
    ensures |es| + Measure(c, Run(c, s, es).value) <= Measure(c, s)
    decreases |es|
  {
    if es != [] {
      StepMeasure(c, s, es[0].w);
      StepKeeps(c, s, es[0].w);
      RunsAreBounded(c, Step(c, s, es[0].w), es[1..]);
    }
  }

  /** From every state the pool can be run to rest. */
  lemma {:induction false} CanComeToRest(c: Config, s: Pool) returns (es: seq<Event>)
    requires Inv(c, s) && WorkBounded(c, s)
    ensures Run(c, s, es).Some? && Quiet(Run(c, s, es).value)
    decreases Measure(c, s)
  {
    if Quiet(s) {
      es := [];
    } else {
      SomebodyCanStep(c, s);
      var w :| CanStep(c, s, w);
      StepMeasure(c, s, w);
      StepKeeps(c, s, w);
      var rest := CanComeToRest(c, Step(c, s, w));
      es := [Act(w)] + rest;
    }
  }

  // ---- the whole pool ----

  /** No worker can make a step. */
  ghost predicate Ended(c: Config, s: Pool) {
    forall w :: !CanStep(c, s, w)
  }

  /** A run that has ended with all workers gone and nothing left to do. */
  predicate Drained(s: Pool) {
    s.rules == [] && forall w :: 0 <= w < |s.workers| ==> s.workers[w].Exited?
  }

  ghost predicate AlwaysDrains(c: Config, n: nat) {
    forall es :: Run(c, Initial(c, n), es).Some? && Ended(c, Run(c, Initial(c, n), es).value) ==>
      Drained(Run(c, Initial(c, n), es).value)
  }

  lemma StuckRuleStrands(c: Config, n: nat, r: Rule)
    requires GoodConfig(c) && n > 0 && r in c.order && r in Outcomes(c) && Outcomes(c)[r] == Stuck
    ensures !AlwaysDrains(c, n)
  {
    InitialInv(c, n);
    var es := CanComeToRest(c, Initial(c, n));
    RestIsDetermined(c, n, es, r);
    QuietHasEnded(c, Run(c, Initial(c, n), es).value);
  }

  lemma QuietHasEnded(c: Config, s: Pool)
    requires Quiet(s)
    ensures Ended(c, s)
  {
    forall w: nat ensures !CanStep(c, s, w) {
      assert w < |s.workers| ==> Inactive(s.workers[w]);
    }
  }

  /** The pool drains on every schedule just when no rule gets stuck, that is when
      none waits for a rule that was dropped because of a failure below it. */
  lemma DrainsIffNothingStuck(c: Config, n: nat)
    requires GoodConfig(c) && n > 0
    ensures NothingStuck(c) <==> AlwaysDrains(c, n)
  {
    NothingStuckMeans(c);
    if NothingStuck(c) {
      forall es | Run(c, Initial(c, n), es).Some? && Ended(c, Run(c, Initial(c, n), es).value)
        ensures Drained(Run(c, Initial(c, n), es).value)
      {
        EndedDrains(c, n, es);
      }
    } else {
      var r :| r in c.order && !(r in Outcomes(c) && Outcomes(c)[r] != Stuck);
      OutcomeIs(c, r);
      StuckRuleStrands(c, n, r);
    }
  }

  lemma EndedDrains(c: Config, n: nat, es: seq<Event>)
    requires GoodConfig(c) && n > 0 && NothingStuck(c)
    requires Run(c, Initial(c, n), es).Some? && Ended(c, Run(c, Initial(c, n), es).value)
    ensures Drained(Run(c, Initial(c, n), es).value)
  {
    var s := Run(c, Initial(c, n), es).value;
    InitialInv(c, n);
    RunKeeps(c, Initial(c, n), es);
    NothingStuckMeans(c);
    if !Quiet(s) { SomebodyCanStep(c, s); }
    if s.rules != [] {
      assert s.rules[0] in s.rules;
      RestIsDetermined(c, n, es, s.rules[0]);
    }
    RestWithoutRulesIsExit(c, s);
  }

  /** When all commands succeed, every schedule ends, and ends with every rule run
      and every worker gone. */
  lemma {:induction false} SuccessfulCommandsDrain(c: Config, n: nat, es: seq<Event>)
    requires GoodConfig(c) && n > 0 && c.fails == {} && Run(c, Initial(c, n), es).Some?
    ensures (forall e :: e in es ==> e.Act?) ==> |es| <= Measure(c, Initial(c, n))
    ensures Ended(c, Run(c, Initial(c, n), es).value) ==>
      Drained(Run(c, Initial(c, n), es).value)
      && forall r :: r in c.order ==> r in Run(c, Initial(c, n), es).value.started
  {
    InitialInv(c, n);
    if forall e :: e in es ==> e.Act? {
      RunsAreBounded(c, Initial(c, n), es);
    }
    var s := Run(c, Initial(c, n), es).value;
    if Ended(c, s) {
      forall r | r in c.order ensures r in Outcomes(c) && Outcomes(c)[r] == Succeeds {
        var k :| 0 <= k < |c.order| && c.order[k] == r;
        NoFailureSucceeds(c, k);
      }
      EndedDrains(c, n, es);
      RunKeeps(c, Initial(c, n), es);
      forall r | r in c.order ensures r in s.started {
        assert SettledRule(s, r, Outcomes(c)[r]);
      }
    }
  }

  lemma AtRest(c: Config, s: Pool)
    requires Inv(c, s) && Quiet(s)
    ensures forall r :: r in c.order ==> Fate(c.g, c.fails, s, r)
    ensures s.state.Keys == Elements(c.order) && forall r :: r in s.rules ==> r in c.order
    ensures forall w :: 0 <= w < |s.workers| ==> if s.rules == [] then s.workers[w].Exited? else s.workers[w].Asleep?
  {
    forall r | r in c.order ensures Fate(c.g, c.fails, s, r) {
      var k: nat :| k < |c.order| && c.order[k] == r;
      QuietFate(c, s, k);
    }
    forall w | 0 <= w < |s.workers| ensures if s.rules == [] then s.workers[w].Exited? else s.workers[w].Asleep? {
      assert Inactive(s.workers[w]) && s.workers[w] in s.workers;
    }
  }

  /** The threads of `parmake`, run by any scheduler to the end: which rules are left
      in the list and which are done depends only on the rules and failures. */
  method ProcessRules(c: Config, numThreads: nat) returns (s: Pool)
    requires GoodConfig(c) && numThreads > 0
    ensures forall r :: r in c.order ==> Fate(c.g, c.fails, s, r)
    ensures s.state.Keys == Elements(c.order) && forall r :: r in s.rules ==> r in c.order
    ensures |s.workers| == numThreads && Ended(c, s)
    ensures forall w :: 0 <= w < numThreads ==> if s.rules == [] then s.workers[w].Exited? else s.workers[w].Asleep?
  {
    s := Initial(c, numThreads);
    InitialInv(c, numThreads);
    ghost var es: seq<Event> := [];
    while exists w :: 0 <= w < |s.workers| && CanStep(c, s, w)
      invariant Inv(c, s) && WorkBounded(c, s) && Run(c, Initial(c, numThreads), es) == Some(s)
      invariant |s.workers| == numThreads
      decreases Measure(c, s)
    {
      var w :| 0 <= w < |s.workers| && CanStep(c, s, w);
      StepMeasure(c, s, w);
      StepKeeps(c, s, w);
      RunExtends(c, Initial(c, numThreads), es, Act(w));
      s, es := Step(c, s, w), es + [Act(w)];
    }
    if !Quiet(s) { SomebodyCanStep(c, s); }
    AtRest(c, s);
  }

  lemma NoFailureClears(g: Graph<Rule>, s: Pool)
    requires forall r :: r in s.state ==> Fate(g, {}, s, r)
    requires forall r :: r in s.rules ==> r in s.state
    ensures s.rules == [] && forall r :: r in s.state ==> s.state[r].Done?
  {
    assert s.rules != [] ==> s.rules[0] in s.rules;
    forall r | r in s.state ensures s.state[r].Done? { assert Fate(g, {}, s, r); }
    forall r | r in s.state ensures r !in s.rules { assert Fate(g, {}, s, r); }
  }

  /** `parmake` on an acyclic graph whose goals exist, with any number of threads and
      under any scheduler: the goals and what they reach are taken up, and what becomes
      of each rule depends on which commands fail at and below it. */
  method Parmake(g: Graph<Rule>, goals: seq<Rule>, numThreads: nat, fails: set<Rule>) returns (s: Pool)
    requires Closed(g) && Acyclic(g) && (forall goal :: goal in goals ==> goal in g) && numThreads > 0
    ensures forall r :: r in s.state <==> ReachedFrom(g, goals, r)
    ensures forall r :: r in s.state ==> Fate(g, fails, s, r)
    ensures |s.workers| == numThreads
    ensures forall w :: 0 <= w < numThreads ==> if s.rules == [] then s.workers[w].Exited? else s.workers[w].Asleep?
    ensures fails == {} ==> s.rules == [] && forall r :: r in s.state ==> s.state[r].Done?
  {
    var order := CollectRules(g, goals);
    s := ProcessRules(Config(g, order, fails), numThreads);
    if fails == {} { NoFailureClears(g, s); }
  }

  lemma {:induction false} RunExtends(c: Config, s: Pool, es: seq<Event>, e: Event)
    requires Run(c, s, es).Some?
    ensures Run(c, s, es + [e]) == Next(c, Run(c, s, es).value, e)
    decreases |es|
  {
    if es == [] {
      assert (es + [e])[1..] == [];
    } else {
      RunExtends(c, Next(c, s, es[0]).value, es[1..], e);
      assert (es + [e])[1..] == es[1..] + [e];
    }
  }

  /** A chain of three rules whose lowest one fails. */
  function FailingChain(): Config {
    Config(map["app" := ["lib"], "lib" := ["gen"], "gen" := []], ["gen", "lib", "app"], {"gen"})
  }

  lemma ChainOutcome()
    ensures GoodConfig(FailingChain()) && "app" in FailingChain().order
    ensures "app" in Outcomes(FailingChain()) && Outcomes(FailingChain())["app"] == Stuck
  {
    var c := FailingChain();
    assert c.order[..1] == ["gen"] && c.order[..2] == ["gen", "lib"];
    OutcomeIs(c, "gen");
    OutcomeIs(c, "lib");
    OutcomeIs(c, "app");
  }

  /** The pool does not always drain: when the bottom of a chain of three fails,
      every schedule that ends leaves the top rule listed and all workers asleep. */
  lemma FailureStrandsTheChain(n: nat, es: seq<Event>)
    requires n > 0 && Run(FailingChain(), Initial(FailingChain(), n), es).Some?
    requires Ended(FailingChain(), Run(FailingChain(), Initial(FailingChain(), n), es).value)
    ensures var s := Run(FailingChain(), Initial(FailingChain(), n), es).value;
      "app" in s.rules && forall w :: 0 <= w < |s.workers| ==> s.workers[w].Asleep?
  {
    var c := FailingChain();
    ChainOutcome();
    InitialInv(c, n);
    RunKeeps(c, Initial(c, n), es);
    var s := Run(c, Initial(c, n), es).value;
    if !Quiet(s) { SomebodyCanStep(c, s); }
    RestIsDetermined(c, n, es, "app");
    forall w | 0 <= w < |s.workers| ensures s.workers[w].Asleep? {
      assert Inactive(s.workers[w]);
      assert s.workers[w] in s.workers;
    }
  }
}
