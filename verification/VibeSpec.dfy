/** The rules the tasks of a spec meet before it is stored, and what they mean for plans made from it. */
module VibeSpec {
  import opened TaskGraph
  import opened Wrappers
  import Delegation
  import SqlSplitter

  // ----- The task rules -----

  datatype SpecError =
    | NoTasks
    | BlankId(index: nat)
    | BlankDescription(index: nat)
    | DuplicateId(id: string)
    | UnknownDependency(id: string, target: string)
    | CycleFound(path: seq<string>)

  predicate Blank(s: string) {
    SqlSplitter.Trim(s) == ""
  }

  predicate Own(ts: seq<SpecTask>, i: nat)
    requires i < |ts|
  {
    !Blank(ts[i].id) && !Blank(ts[i].description) && ts[i].id !in IdsOf(ts[..i])
  }

  predicate OwnBefore(ts: seq<SpecTask>, n: nat)
    requires n <= |ts|
  {
    forall i: nat | i < n :: Own(ts, i)
  }

  predicate Known(ts: seq<SpecTask>, d: string) {
    External(d) || d in IdsOf(ts)
  }

  predicate KnownBefore(ts: seq<SpecTask>, n: nat)
    requires n <= |ts|
  {
    forall t, d | t in ts[..n] && d in t.dependsOn :: Known(ts, d)
  }

  predicate Rules(ts: seq<SpecTask>) {
    ts != [] && OwnBefore(ts, |ts|) && KnownBefore(ts, |ts|)
  }

  /** Some task has this id. */
  predicate Named(ts: seq<SpecTask>, d: string) {
    exists u :: u in ts && u.id == d
  }

  lemma {:induction false} RulesSay(ts: seq<SpecTask>)
    requires Rules(ts)
    ensures UniqueIds(ts)
    ensures forall t | t in ts :: SqlSplitter.Trim(t.id) != "" && SqlSplitter.Trim(t.description) != ""
    ensures forall t, d | t in ts && d in t.dependsOn :: "ext:" <= d || Named(ts, d)
  {
    assert ts[..|ts|] == ts;
    RulesGiveUniqueIds(ts);
    forall t | t in ts ensures !Blank(t.id) && !Blank(t.description) {
      var i :| 0 <= i < |ts| && ts[i] == t;
      assert Own(ts, i);
    }
    forall t, d | t in ts && d in t.dependsOn ensures "ext:" <= d || Named(ts, d) {
      assert t in ts[..|ts|] && Known(ts, d);
      if !External(d) {
        var i :| 0 <= i < |ts| && IdsOf(ts)[i] == d;
        assert ts[i] in ts;
      }
    }
  }

  lemma {:induction false} RulesHold(ts: seq<SpecTask>)
    requires ts != [] && UniqueIds(ts)
    requires forall t | t in ts :: SqlSplitter.Trim(t.id) != "" && SqlSplitter.Trim(t.description) != ""
    requires forall t, d | t in ts && d in t.dependsOn :: "ext:" <= d || Named(ts, d)
    ensures Rules(ts)
  {
    assert ts[..|ts|] == ts;
    forall i: nat | i < |ts| ensures Own(ts, i) {
      assert ts[i] in ts && forall j | 0 <= j < i :: IdsOf(ts[..i])[j] == ts[j].id;
    }
    forall t, d | t in ts && d in t.dependsOn ensures Known(ts, d) {
      if !("ext:" <= d) {
        assert Named(ts, d);
        var u :| u in ts && u.id == d;
        var i :| 0 <= i < |ts| && ts[i] == u;
        assert IdsOf(ts)[i] == d;
      }
    }
  }

  /** The rules in plain terms. */
  lemma {:induction false} RulesIff(ts: seq<SpecTask>)
    ensures Rules(ts) <==>
            && ts != []
            && (forall t | t in ts :: SqlSplitter.Trim(t.id) != "" && SqlSplitter.Trim(t.description) != "")
            && (forall i, j | 0 <= i < j < |ts| :: ts[i].id != ts[j].id)
            && (forall t, d | t in ts && d in t.dependsOn :: "ext:" <= d || Named(ts, d))
  {
    if Rules(ts) {
      RulesSay(ts);
    } else if ts != [] && UniqueIds(ts) &&
              (forall t | t in ts :: SqlSplitter.Trim(t.id) != "" && SqlSplitter.Trim(t.description) != "") &&
              (forall t, d | t in ts && d in t.dependsOn :: "ext:" <= d || Named(ts, d)) {
      RulesHold(ts);
    }
  }

  ghost predicate Accepted(ts: seq<SpecTask>) {
    Rules(ts) && !HasLoop(Adjacency(ts))
  }

  /** The error is the first offence in checking order. */
  ghost predicate Explains(e: SpecError, ts: seq<SpecTask>) {
    match e
    case NoTasks => ts == []
    case BlankId(i) => i < |ts| && OwnBefore(ts, i) && Blank(ts[i].id)
    case BlankDescription(i) => i < |ts| && OwnBefore(ts, i) && !Blank(ts[i].id) && Blank(ts[i].description)
    case DuplicateId(id) =>
      exists i: nat :: i < |ts| && OwnBefore(ts, i) && ts[i].id == id && !Blank(id) && !Blank(ts[i].description) &&
        id in IdsOf(ts[..i])
    case UnknownDependency(id, target) =>
      exists i: nat, k: nat :: i < |ts| && k < |ts[i].dependsOn| && OwnBefore(ts, |ts|) && KnownBefore(ts, i) &&
        ts[i].id == id && ts[i].dependsOn[k] == target && !Known(ts, target) &&
        (forall m: nat | m < k :: Known(ts, ts[i].dependsOn[m]))
    case CycleFound(path) => Rules(ts) && Reported(FirstLasso(Adjacency(ts), IdsOf(ts))) == Some(path)
  }

  method CheckTasks(ts: seq<SpecTask>) returns (r: Option<SpecError>)
    ensures r.None? <==> Accepted(ts)
    ensures r.Some? ==> Explains(r.value, ts)
  {
    if |ts| == 0 {
      return Some(NoTasks);
    }
    var seen: set<string> := {};
    for i := 0 to |ts|
      invariant forall d :: d in seen <==> d in IdsOf(ts[..i])
      invariant OwnBefore(ts, i)
    {
      var t := ts[i];
      if Blank(t.id) {
        assert !Own(ts, i);
        return Some(BlankId(i));
      }
      if Blank(t.description) {
        assert !Own(ts, i);
        return Some(BlankDescription(i));
      }
      if t.id in seen {
        assert !Own(ts, i);
        return Some(DuplicateId(t.id));
      }
      assert IdsOf(ts[..i + 1]) == IdsOf(ts[..i]) + [t.id];
      seen := seen + {t.id};
    }
    assert ts[..|ts|] == ts;
    r := CheckDependencies(ts, seen);
    if r.None? {
      var cycle := DetectCycle(ts);
      if cycle.Some? {
        r := Some(CycleFound(cycle.value));
      }
    }
  }

  method CheckDependencies(ts: seq<SpecTask>, seen: set<string>) returns (r: Option<SpecError>)
    requires OwnBefore(ts, |ts|) && forall d :: d in seen <==> d in IdsOf(ts)
    ensures r.None? <==> KnownBefore(ts, |ts|)
    ensures r.Some? ==> r.value.UnknownDependency? && Explains(r.value, ts)
  {
    for i := 0 to |ts|
      invariant KnownBefore(ts, i)
    {
      var deps := ts[i].dependsOn;
      for k := 0 to |deps|
        invariant forall m: nat | m < k :: Known(ts, deps[m])
      {
        if !External(deps[k]) && deps[k] !in seen {
          assert ts[i] in ts[..|ts|] && deps[k] in ts[i].dependsOn && !Known(ts, deps[k]);
          assert !KnownBefore(ts, |ts|);
          return Some(UnknownDependency(ts[i].id, deps[k]));
        }
      }
      assert ts[..i + 1] == ts[..i] + [ts[i]];
    }
    r := None;
  }

  // ----- Plans made from a spec -----

  /** The plan has the tasks of the spec, in order, with their ids and dependencies. */
  predicate SameGraph(ts: seq<SpecTask>, plan: seq<Delegation.SubTask>) {
    |ts| == |plan| && forall i | 0 <= i < |ts| :: plan[i].id == ts[i].id && plan[i].dependsOn == ts[i].dependsOn
  }

  predicate UniqueIds(ts: seq<SpecTask>) {
    forall i, j | 0 <= i < j < |ts| :: ts[i].id != ts[j].id
  }

  lemma {:induction false} AdjacencyAt(ts: seq<SpecTask>, i: nat)
    requires UniqueIds(ts) && i < |ts|
    ensures Edges(Adjacency(ts), ts[i].id) == ts[i].dependsOn
  {
    var n := |ts| - 1;
    if i < n {
      AdjacencyAt(ts[..n], i);
      AdjacencyKeys(ts[..n]);
      assert IdsOf(ts[..n])[i] == ts[i].id;
    }
  }

  lemma {:induction false} PlanEdges(ts: seq<SpecTask>, plan: seq<Delegation.SubTask>, t: Delegation.SubTask)
    requires UniqueIds(ts) && SameGraph(ts, plan) && t in plan
    ensures Edges(Adjacency(ts), t.id) == t.dependsOn
  {
    var i :| 0 <= i < |plan| && plan[i] == t;
    AdjacencyAt(ts, i);
  }

  lemma {:induction false} PlanTask(ts: seq<SpecTask>, plan: seq<Delegation.SubTask>, u: string)
    requires SameGraph(ts, plan) && u in Adjacency(ts)
    ensures u in Delegation.Ids(plan)
  {
    AdjacencyKeys(ts);
    var i :| 0 <= i < |ts| && ts[i].id == u;
    assert plan[i] in plan;
  }

  ghost function Owner(plan: seq<Delegation.SubTask>, u: string): (t: Delegation.SubTask)
    requires u in Delegation.Ids(plan)
    ensures t in plan && t.id == u
  {
    var t :| t in plan && t.id == u;
    t
  }

  /** A circle of plan tasks, each a dependency of the next. */
  ghost predicate Circle(plan: seq<Delegation.SubTask>, c: seq<Delegation.SubTask>) {
    Delegation.Chain(plan, c) && |c| >= 2 && c[0] == c[|c| - 1]
  }

  lemma {:induction false} CyclicIffCircle(plan: seq<Delegation.SubTask>)
    ensures Delegation.Cyclic(plan) <==> exists c :: Circle(plan, c)
  {
    if Delegation.Cyclic(plan) {
      var t :| t in plan && Delegation.OnCycle(plan, t);
      var c :| Delegation.ChainTo(plan, c, t) && |c| >= 2 && c[0] == t;
      assert Circle(plan, c);
    }
    if c: seq<Delegation.SubTask> :| Circle(plan, c) {
      assert Delegation.ChainTo(plan, c, c[0]);
      assert Delegation.OnCycle(plan, c[0]);
    }
  }

  lemma {:induction false} LoopToCircle(ts: seq<SpecTask>, plan: seq<Delegation.SubTask>, p: seq<string>)
    returns (c: seq<Delegation.SubTask>)
    requires UniqueIds(ts) && SameGraph(ts, plan) && Loop(Adjacency(ts), p)
    ensures Circle(plan, c)
  {
    assert Dep(Adjacency(ts), p[0], p[0 + 1]);
    PlanTask(ts, plan, p[0]);
    c := LoopToChain(ts, plan, p);
  }

  /** The owners of the ids on a path, last one first. */
  lemma {:induction false} LoopToChain(ts: seq<SpecTask>, plan: seq<Delegation.SubTask>, p: seq<string>)
    returns (c: seq<Delegation.SubTask>)
    requires UniqueIds(ts) && SameGraph(ts, plan) && p != [] && Steps(Adjacency(ts), p)
    requires p[|p| - 1] in Delegation.Ids(plan)
    ensures Delegation.Chain(plan, c) && |c| == |p|
    ensures p[0] in Delegation.Ids(plan) && c[|c| - 1] == Owner(plan, p[0]) && c[0] == Owner(plan, p[|p| - 1])
  {
    if |p| == 1 {
      c := [Owner(plan, p[0])];
    } else {
      assert Dep(Adjacency(ts), p[0], p[0 + 1]);
      PlanTask(ts, plan, p[0]);
      StepsTail(Adjacency(ts), p);
      var before := LoopToChain(ts, plan, p[1..]);
      var t := Owner(plan, p[0]);
      PlanEdges(ts, plan, t);
      Delegation.ChainAppend(plan, before, before[|before| - 1], t);
      c := before + [t];
    }
  }

  lemma {:induction false} StepsTail(g: Graph, p: seq<string>)
    requires |p| > 1 && Steps(g, p)
    ensures Steps(g, p[1..])
  {
    forall i: nat | i + 1 < |p[1..]| ensures Dep(g, p[1..][i], p[1..][i + 1]) {
      assert Dep(g, p[i + 1], p[i + 1 + 1]);
    }
  }

  lemma {:induction false} CircleToLoop(ts: seq<SpecTask>, plan: seq<Delegation.SubTask>, c: seq<Delegation.SubTask>)
    returns (p: seq<string>)
    requires UniqueIds(ts) && SameGraph(ts, plan) && Circle(plan, c)
    requires forall t | t in c :: !External(t.id)
    ensures Loop(Adjacency(ts), p)
  {
    p := ChainToSteps(ts, plan, c);
  }

  /** The ids on a chain, last one first. */
  lemma {:induction false} ChainToSteps(ts: seq<SpecTask>, plan: seq<Delegation.SubTask>, c: seq<Delegation.SubTask>)
    returns (p: seq<string>)
    requires UniqueIds(ts) && SameGraph(ts, plan) && Delegation.Chain(plan, c)
    requires forall t | t in c :: !External(t.id)
    ensures Steps(Adjacency(ts), p) && |p| == |c| && p[0] == c[|c| - 1].id && p[|p| - 1] == c[0].id
  {
    var n := |c| - 1;
    if n == 0 {
      p := [c[0].id];
    } else {
      Delegation.ChainSlice(plan, c, 0, n);
      assert c[0..n][n - 1] == c[n - 1] && c[n - 1] in c && c[n - 1].id in c[n - 1 + 1].dependsOn;
      var after := ChainToSteps(ts, plan, c[0..n]);
      PlanEdges(ts, plan, c[n]);
      StepsCons(Adjacency(ts), c[n].id, after);
      p := [c[n].id] + after;
    }
  }

  lemma {:induction false} StepsCons(g: Graph, u: string, p: seq<string>)
    requires p != [] && Steps(g, p) && Dep(g, u, p[0])
    ensures Steps(g, [u] + p)
  {
    var more := [u] + p;
    forall i: nat | i + 1 < |more| ensures Dep(g, more[i], more[i + 1]) {
      if i > 0 {
        assert Dep(g, p[i - 1], p[i - 1 + 1]);
      }
    }
  }

  /** With unique ids and no external references the search finds nothing iff the plan graph is acyclic. */
  lemma {:induction false} LoopIffCyclic(ts: seq<SpecTask>, plan: seq<Delegation.SubTask>)
    requires UniqueIds(ts) && SameGraph(ts, plan)
    requires forall t, d | t in ts && d in t.dependsOn :: !External(d)
    ensures HasLoop(Adjacency(ts)) <==> Delegation.Cyclic(plan)
  {
    CyclicIffCircle(plan);
    if HasLoop(Adjacency(ts)) {
      var p :| Loop(Adjacency(ts), p);
      var c := LoopToCircle(ts, plan, p);
    }
    if c: seq<Delegation.SubTask> :| Circle(plan, c) {
      forall t | t in c ensures !External(t.id) {
        CircleTaskIsNeeded(ts, plan, c, t);
      }
      var p := CircleToLoop(ts, plan, c);
    }
  }

  /** Every task on a circle is a dependency of a task of the spec. */
  lemma {:induction false} CircleTaskIsNeeded(ts: seq<SpecTask>, plan: seq<Delegation.SubTask>, c: seq<Delegation.SubTask>,
        t: Delegation.SubTask)
    requires SameGraph(ts, plan) && Circle(plan, c) && t in c
    ensures exists u :: u in ts && t.id in u.dependsOn
  {
    var k: nat :| k < |c| && c[k] == t;
    var m := if k + 1 < |c| then k else 0;
    assert c[m].id in c[m + 1].dependsOn;
    var i :| 0 <= i < |plan| && plan[i] == c[m + 1];
    assert ts[i] in ts;
  }

  predicate AllInSpec(ts: seq<SpecTask>) {
    forall t, d | t in ts && d in t.dependsOn :: d in IdsOf(ts)
  }

  /** A circle through a task whose id looks like an external reference. */
  ghost predicate ExternalCircle(plan: seq<Delegation.SubTask>) {
    exists c: seq<Delegation.SubTask>, t: Delegation.SubTask :: Circle(plan, c) && t in c && External(t.id)
  }

  lemma {:induction false} RulesGiveUniqueIds(ts: seq<SpecTask>)
    requires Rules(ts)
    ensures UniqueIds(ts)
  {
    forall i, j | 0 <= i < j < |ts| ensures ts[i].id != ts[j].id {
      assert Own(ts, j);
      assert IdsOf(ts[..j])[i] == ts[i].id;
    }
  }

  /** A plan made from an accepted spec runs in layers alone iff nothing outside the spec is needed and no circle
      passes through an id that starts like an external reference. */
  lemma {:induction false} AcceptedFallbackIff(ts: seq<SpecTask>, plan: seq<Delegation.SubTask>)
    requires Accepted(ts) && SameGraph(ts, plan)
    ensures Delegation.Layers(plan, {}).stuck == [] <==> AllInSpec(ts) && !ExternalCircle(plan)
  {
    RulesGiveUniqueIds(ts);
    if AllInSpec(ts) {
      PlanIsResolvable(ts, plan);
      Delegation.FallbackIffCyclic(plan);
      CyclicIffCircle(plan);
      if c: seq<Delegation.SubTask> :| Circle(plan, c) {
        if forall t | t in c :: !External(t.id) {
          var p := CircleToLoop(ts, plan, c);
          assert false;
        }
      }
    } else {
      MissingIsStuck(ts, plan);
    }
  }

  lemma {:induction false} PlanIsResolvable(ts: seq<SpecTask>, plan: seq<Delegation.SubTask>)
    requires UniqueIds(ts) && AllInSpec(ts) && SameGraph(ts, plan)
    ensures Delegation.Resolvable(plan)
  {
    forall t, d | t in plan && d in t.dependsOn ensures d in Delegation.Ids(plan) {
      var i :| 0 <= i < |plan| && plan[i] == t;
      assert ts[i] in ts && d in IdsOf(ts);
      AdjacencyKeys(ts);
      PlanTask(ts, plan, d);
    }
  }

  /** A task that needs something outside the spec is left to the fallback. */
  lemma {:induction false} MissingIsStuck(ts: seq<SpecTask>, plan: seq<Delegation.SubTask>)
    requires SameGraph(ts, plan) && !AllInSpec(ts)
    ensures Delegation.Layers(plan, {}).stuck != []
  {
    var t, d :| t in ts && d in t.dependsOn && d !in IdsOf(ts);
    var i :| 0 <= i < |ts| && ts[i] == t;
    forall u | u in plan ensures u.id != d {
      var j :| 0 <= j < |plan| && plan[j] == u;
      assert IdsOf(ts)[j] == u.id;
    }
    assert Delegation.Deadlocked(plan, {plan[i]});
    Delegation.FallbackIsGreatestDeadlock(plan, {plan[i]});
  }

  /** Without external references the promise holds: an accepted spec never needs the fallback. */
  lemma {:induction false} AcceptedNeedsNoFallback(ts: seq<SpecTask>, plan: seq<Delegation.SubTask>)
    requires Accepted(ts) && SameGraph(ts, plan)
    requires forall t, d | t in ts && d in t.dependsOn :: !External(d)
    ensures Delegation.Layers(plan, {}).stuck == []
  {
    AcceptedFallbackIff(ts, plan);
    assert ts[..|ts|] == ts;
    forall t, d | t in ts && d in t.dependsOn ensures d in IdsOf(ts) {
      assert Known(ts, d);
    }
    if c: seq<Delegation.SubTask>, t: Delegation.SubTask :| Circle(plan, c) && t in c && External(t.id) {
      CircleTaskIsNeeded(ts, plan, c, t);
    }
  }

  const EXTERNAL_IDS := [SpecTask("ext:a", "first", ["ext:b"], ""), SpecTask("ext:b", "second", ["ext:a"], "")]
  const EXTERNAL_PLAN := [Delegation.SubTask("ext:a", "", "", ["ext:b"]), Delegation.SubTask("ext:b", "", "", ["ext:a"])]

  lemma {:induction false} NotBlank(s: string)
    requires s != "" && !SqlSplitter.IsSpace(s[0]) && !SqlSplitter.IsSpace(s[|s| - 1])
    ensures !Blank(s)
  {
  }

  lemma {:induction false} ExternalIdsAccepted()
    ensures Accepted(EXTERNAL_IDS)
  {
    var ts := EXTERNAL_IDS;
    NotBlank("ext:a");
    NotBlank("ext:b");
    NotBlank("first");
    NotBlank("second");
    assert IdsOf(ts[..0]) == [] && IdsOf(ts[..1]) == ["ext:a"];
    assert Own(ts, 0) && Own(ts, 1);
    assert ts[..2] == ts;
    ExternalOnly(ts);
  }

  lemma {:induction false} ExternalOnly(ts: seq<SpecTask>)
    requires forall t, d | t in ts && d in t.dependsOn :: External(d)
    ensures !HasLoop(Adjacency(ts))
  {
    if p :| Loop(Adjacency(ts), p) {
      assert Dep(Adjacency(ts), p[0], p[0 + 1]);
      EdgesAreDependencies(ts, p[0]);
    }
  }

  lemma {:induction false} EdgesAreDependencies(ts: seq<SpecTask>, u: string)
    ensures forall d | d in Edges(Adjacency(ts), u) :: exists t :: t in ts && d in t.dependsOn
  {
    if ts != [] {
      var n := |ts| - 1;
      EdgesAreDependencies(ts[..n], u);
      forall d | d in Edges(Adjacency(ts), u) ensures exists t :: t in ts && d in t.dependsOn {
        if u == ts[n].id {
          assert ts[n] in ts && d in ts[n].dependsOn;
        } else {
          assert d in Edges(Adjacency(ts[..n]), u);
          var t :| t in ts[..n] && d in t.dependsOn;
          assert t in ts;
        }
      }
    }
  }

  lemma {:induction false} ExternalPlanWellFormed(parses: string -> bool)
    ensures Delegation.WellFormed(EXTERNAL_PLAN, parses)
    ensures Delegation.Deadlocked(EXTERNAL_PLAN, {EXTERNAL_PLAN[0], EXTERNAL_PLAN[1]})
  {
    var plan := EXTERNAL_PLAN;
    assert plan[0] in plan && plan[1] in plan;
    assert "ext:a" in Delegation.Ids(plan) && "ext:b" in Delegation.Ids(plan);
    assert Delegation.Own(plan, parses, 0) && Delegation.Own(plan, parses, 1);
    assert "ext:b" in plan[0].dependsOn && "ext:a" in plan[1].dependsOn;
  }

  /** Two tasks with such ids that depend on each other pass the rules of specs and of plans, and need the fallback. */
  lemma {:induction false} ExternalIdsSlipThrough(parses: string -> bool)
    ensures Accepted(EXTERNAL_IDS) && SameGraph(EXTERNAL_IDS, EXTERNAL_PLAN)
    ensures Delegation.WellFormed(EXTERNAL_PLAN, parses)
    ensures Delegation.Layers(EXTERNAL_PLAN, {}).stuck != []
  {
    ExternalIdsAccepted();
    ExternalPlanWellFormed(parses);
    Delegation.FallbackIsGreatestDeadlock(EXTERNAL_PLAN, {EXTERNAL_PLAN[0], EXTERNAL_PLAN[1]});
  }
}
