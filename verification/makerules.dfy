/** Collecting the rules to run: `help_get_rules` of `parallel_make/parmake.c`. */
module MakeRules {
  import opened Graphs

  type Rule = string

  /** Every rule comes after all of its dependencies. */
  ghost predicate Ordered(g: Graph<Rule>, rules: seq<Rule>) {
    forall i, d :: 0 <= i < |rules| && Edge(g, rules[i], d) ==> d in rules[..i]
  }

  ghost predicate ReachedFrom(g: Graph<Rule>, goals: seq<Rule>, v: Rule) {
    exists i :: 0 <= i < |goals| && Reaches(g, goals[i], v)
  }

  /** `after` is `before` and everything the goals need. */
  ghost predicate Adds(g: Graph<Rule>, before: seq<Rule>, goals: seq<Rule>, after: seq<Rule>) {
    forall v :: v in after <==> v in before || ReachedFrom(g, goals, v)
  }

  lemma ReachesStep(g: Graph<Rule>, v: Rule, w: Rule)
    requires v in g
    ensures Reaches(g, v, w) <==> v == w || ReachedFrom(g, g[v], w)
  {
    if v == w {
      assert IsPath(g, [v]);
    }
    if ReachedFrom(g, g[v], w) {
      var i :| 0 <= i < |g[v]| && Reaches(g, g[v][i], w);
      var p :| IsPath(g, p) && p[0] == g[v][i] && p[|p| - 1] == w;
      assert Edge(g, v, g[v][i]);
      assert IsPath(g, [v, p[0]]);
      JoinPaths(g, [v, p[0]], p);
      var q := [v, p[0]] + p[1..];
      assert q[0] == v && q[|q| - 1] == w;
    }
    if Reaches(g, v, w) && v != w {
      var p :| IsPath(g, p) && p[0] == v && p[|p| - 1] == w;
      assert Edge(g, p[0], p[0 + 1]);
      SubPath(g, p, 1, |p|);
      assert Reaches(g, p[1], w) by { assert p[1..][0] == p[1]; }
    }
  }

  /** `rules` lists vertices once each, dependencies first, and the counters mark
      just the listed ones. */
  ghost predicate Marks(g: Graph<Rule>, rules: seq<Rule>, counter: map<Rule, int>) {
    && counter.Keys == g.Keys
    && (forall v :: v in g ==> counter[v] == if v in rules then 1 else 0)
    && (forall v :: v in rules ==> v in g)
    && Distinct(rules) && Ordered(g, rules)
  }

  class Collector {
    const g: Graph<Rule>
    var rules: seq<Rule>
    var counter: map<Rule, int>

    ghost predicate Valid()
      reads this
    {
      Closed(g) && Acyclic(g) && Marks(g, rules, counter)
    }

    /** `parmake` sets every vertex's counter to 0 and starts with no rules. */
    constructor (g: Graph<Rule>)
      requires Closed(g) && Acyclic(g)
      ensures Valid() && rules == [] && this.g == g
    {
      this.g := g;
      rules := [];
      counter := map v | v in g :: 0;
    }

    /** `trail` is the chain of goals whose neighbours are being visited; it bounds
        the recursion, which revisits shared dependencies. */
    method HelpGetRules(goals: seq<Rule>, ghost trail: seq<Rule>)
      requires Valid() && Trail(g, trail)
      requires forall goal :: goal in goals ==> goal in g && Extends(g, trail, goal)
      modifies `rules, `counter
      ensures Valid() && old(rules) <= rules
      ensures Adds(g, old(rules), goals, rules)
      decreases |g.Keys| - |trail|, |goals| + 1
    {
      var i := 0;
      while i < |goals|
        invariant 0 <= i <= |goals|
        invariant Valid() && old(rules) <= rules
        invariant Adds(g, old(rules), goals[..i], rules)
      {
        assert goals[i] in goals;
        ghost var before := rules;
        VisitGoal(goals[i], trail);
        GoalsAdd(g, goals, i, old(rules), before, rules);
        i := i + 1;
      }
      assert goals[..|goals|] == goals;
    }

    /** The body of the loop over the goals. */
    method VisitGoal(goal: Rule, ghost trail: seq<Rule>)
      requires Valid() && Trail(g, trail) && goal in g && Extends(g, trail, goal)
      modifies `rules, `counter
      ensures Valid() && old(rules) <= rules
      ensures Adds(g, old(rules), [goal], rules)
      decreases |g.Keys| - |trail|, 0
    {
      var neighbors := g[goal];
      TrailGrows(g, trail, goal);
      assert forall n :: n in neighbors ==> Edge(g, goal, n);
      HelpGetRules(neighbors, trail + [goal]);
      NeighborsCollected(g, goal, old(rules), rules);
      GoalAdds(g, goal, old(rules), rules);
      if counter[goal] == 0 {
        PushKeeps(g, rules, counter, goal);
        rules := rules + [goal];
        counter := counter[goal := 1];
      }
    }
  }

  ghost predicate Trail(g: Graph<Rule>, trail: seq<Rule>) {
    (forall v :: v in trail ==> v in g) && (trail != [] ==> IsPath(g, trail))
  }

  ghost predicate Extends(g: Graph<Rule>, trail: seq<Rule>, goal: Rule) {
    trail != [] ==> Edge(g, trail[|trail| - 1], goal)
  }

  lemma ReachedFromNext(g: Graph<Rule>, goals: seq<Rule>, i: nat, v: Rule)
    requires i < |goals|
    ensures ReachedFrom(g, goals[..i + 1], v) <==> ReachedFrom(g, goals[..i], v) || Reaches(g, goals[i], v)
  {
    if ReachedFrom(g, goals[..i], v) {
      var k :| 0 <= k < i && Reaches(g, goals[..i][k], v);
      assert goals[..i + 1][k] == goals[..i][k];
    }
    if Reaches(g, goals[i], v) {
      assert goals[..i + 1][i] == goals[i];
    }
  }

  lemma NeighborsCollected(g: Graph<Rule>, goal: Rule, before: seq<Rule>, deps: seq<Rule>)
    requires goal in g && Closed(g)
    requires Adds(g, before, g[goal], deps)
    ensures forall d :: Edge(g, goal, d) ==> d in deps
  {
    forall d | Edge(g, goal, d) ensures d in deps {
      var i :| 0 <= i < |g[goal]| && g[goal][i] == d;
      ReachesStep(g, d, d);
    }
  }

  lemma GoalAdds(g: Graph<Rule>, goal: Rule, before: seq<Rule>, deps: seq<Rule>)
    requires goal in g && Adds(g, before, g[goal], deps)
    ensures Adds(g, before, [goal], if goal in deps then deps else deps + [goal])
  {
    var after := if goal in deps then deps else deps + [goal];
    forall v ensures v in after <==> v in before || ReachedFrom(g, [goal], v) {
      ReachesStep(g, goal, v);
      assert [goal][0] == goal;
    }
  }

  lemma GoalsAdd(g: Graph<Rule>, goals: seq<Rule>, i: nat, start: seq<Rule>, before: seq<Rule>, after: seq<Rule>)
    requires i < |goals| && Adds(g, start, goals[..i], before) && Adds(g, before, [goals[i]], after)
    ensures Adds(g, start, goals[..i + 1], after)
  {
    forall v ensures v in after <==> v in start || ReachedFrom(g, goals[..i + 1], v) {
      assert [goals[i]][0] == goals[i];
      ReachedFromNext(g, goals, i, v);
    }
  }

  /** A chain of goals in an acyclic graph is shorter than the graph is large. */
  lemma TrailGrows(g: Graph<Rule>, trail: seq<Rule>, goal: Rule)
    requires Acyclic(g) && goal in g && Trail(g, trail) && Extends(g, trail, goal)
    ensures Trail(g, trail + [goal]) && |trail| < |g.Keys|
  {
    if trail != [] { ExtendPath(g, trail, goal); }
    var next := trail + [goal];
    assert !Repeats(next);
    forall i | 0 <= i < |next| ensures next[i] in g.Keys { assert next[i] in next; }
    DistinctLength(next, g.Keys);
  }

  lemma PushKeeps(g: Graph<Rule>, rules: seq<Rule>, counter: map<Rule, int>, goal: Rule)
    requires Marks(g, rules, counter) && goal in g && counter[goal] == 0
    requires forall d :: Edge(g, goal, d) ==> d in rules
    ensures Marks(g, rules + [goal], counter[goal := 1])
  {
    var r := rules + [goal];
    forall i, d | 0 <= i < |r| && Edge(g, r[i], d) ensures d in r[..i] {
      if i < |rules| { assert d in rules[..i]; assert r[..i] == rules[..i]; } else { assert r[..i] == rules; }
    }
  }

  /** `parmake` up to starting the threads: on any acyclic graph the list holds
      exactly what the goals need, each once and after its dependencies. */
  method CollectRules(g: Graph<Rule>, goals: seq<Rule>) returns (rules: seq<Rule>)
    requires Closed(g) && Acyclic(g) && forall goal :: goal in goals ==> goal in g
    ensures forall v :: v in rules <==> ReachedFrom(g, goals, v)
    ensures Distinct(rules) && Ordered(g, rules) && forall v :: v in rules ==> v in g
  {
    var c := new Collector(g);
    c.HelpGetRules(goals, []);
    rules := c.rules;
  }
}
