/** Sub-agent plans: structural validation and batching by dependency order. */
module Delegation {
  import opened Wrappers

  datatype SubTask = SubTask(id: string, vibeCase: string, task: string, dependsOn: seq<string>)

  datatype Plan = Plan(subtasks: seq<SubTask>)

  datatype PlanError =
    | EmptyId
    | DuplicateId(id: string)
    | BadCase(id: string)
    | SelfDependency(id: string)
    | UnknownDependency(id: string, target: string)

  // ----- Validation -----

  /** The checks subtask i passes on its own and against the ids before it. */
  predicate Own(ts: seq<SubTask>, parses: string -> bool, i: nat)
    requires i < |ts|
  {
    && ts[i].id != ""
    && (forall j | 0 <= j < i :: ts[j].id != ts[i].id)
    && (ts[i].vibeCase == "" || parses(ts[i].vibeCase))
    && ts[i].id !in ts[i].dependsOn
  }

  predicate Known(ts: seq<SubTask>, i: nat)
    requires i < |ts|
  {
    forall d | d in ts[i].dependsOn :: d in Ids(ts)
  }

  /** What Validate promises about the subtasks of an accepted plan. */
  predicate WellFormed(ts: seq<SubTask>, parses: string -> bool) {
    forall i | 0 <= i < |ts| :: Own(ts, parses, i) && Known(ts, i)
  }

  function Ids(ts: seq<SubTask>): set<string> {
    set t | t in ts :: t.id
  }

  /** Acceptance in plain terms. */
  lemma {:induction false} WellFormedIff(ts: seq<SubTask>, parses: string -> bool)
    ensures WellFormed(ts, parses) <==>
            && (forall t | t in ts :: t.id != "" && (t.vibeCase == "" || parses(t.vibeCase)))
            && (forall i, j | 0 <= i < j < |ts| :: ts[i].id != ts[j].id)
            && (forall t, d | t in ts && d in t.dependsOn :: d != t.id && exists u :: u in ts && u.id == d)
  {
    if WellFormed(ts, parses) {
      forall t | t in ts ensures exists i :: 0 <= i < |ts| && ts[i] == t && Own(ts, parses, i) && Known(ts, i) {
        var i :| 0 <= i < |ts| && ts[i] == t;
        assert Own(ts, parses, i);
      }
      forall i, j | 0 <= i < j < |ts| ensures ts[i].id != ts[j].id {
        assert Own(ts, parses, j);
      }
    }
  }

  /** The error names the first offending subtask, and nothing before it offends. */
  ghost predicate Explains(e: PlanError, ts: seq<SubTask>, parses: string -> bool) {
    match e
    case EmptyId => exists i: nat :: i < |ts| && OwnBefore(ts, parses, i) && ts[i].id == ""
    case DuplicateId(id) =>
      exists i: nat :: i < |ts| && OwnBefore(ts, parses, i) && ts[i].id == id != "" && id in Ids(ts[..i])
    case BadCase(id) =>
      exists i: nat :: i < |ts| && OwnBefore(ts, parses, i) && ts[i].id == id != "" && id !in Ids(ts[..i]) &&
        ts[i].vibeCase != "" && !parses(ts[i].vibeCase)
    case SelfDependency(id) =>
      exists i: nat :: i < |ts| && OwnBefore(ts, parses, i) && ts[i].id == id != "" && id !in Ids(ts[..i]) &&
        (ts[i].vibeCase == "" || parses(ts[i].vibeCase)) && id in ts[i].dependsOn
    case UnknownDependency(id, target) =>
      exists i: nat, k: nat :: i < |ts| && k < |ts[i].dependsOn| && OwnBefore(ts, parses, |ts|) &&
        ts[i].id == id && ts[i].dependsOn[k] == target && target !in Ids(ts) &&
        (forall j: nat | j < i :: Known(ts, j)) &&
        (forall m: nat | m < k :: ts[i].dependsOn[m] in Ids(ts))
  }

  predicate OwnBefore(ts: seq<SubTask>, parses: string -> bool, n: nat)
    requires n <= |ts|
  {
    forall i: nat | i < n :: Own(ts, parses, i)
  }

  method Validate(plan: Plan, parses: string -> bool) returns (r: Option<PlanError>)
    ensures r.None? <==> WellFormed(plan.subtasks, parses)
    ensures r.Some? ==> Explains(r.value, plan.subtasks, parses)
  {
    var ts := plan.subtasks;
    var seen: set<string> := {};
    for i := 0 to |ts|
      invariant seen == Ids(ts[..i])
      invariant OwnBefore(ts, parses, i)
    {
      var st := ts[i];
      assert ts[..i+1] == ts[..i] + [st];
      if st.id == "" {
        assert !Own(ts, parses, i);
        return Some(EmptyId);
      }
      if st.id in seen {
        assert !Own(ts, parses, i);
        return Some(DuplicateId(st.id));
      }
      seen := seen + {st.id};
      if st.vibeCase != "" && !parses(st.vibeCase) {
        assert !Own(ts, parses, i);
        return Some(BadCase(st.id));
      }
      for k := 0 to |st.dependsOn|
        invariant st.id !in st.dependsOn[..k]
      {
        if st.dependsOn[k] == st.id {
          assert !Own(ts, parses, i);
          return Some(SelfDependency(st.id));
        }
      }
      assert Own(ts, parses, i);
    }
    assert ts[..|ts|] == ts;
    for i := 0 to |ts|
      invariant forall j: nat | j < i :: Known(ts, j)
    {
      for k := 0 to |ts[i].dependsOn|
        invariant forall m: nat | m < k :: ts[i].dependsOn[m] in seen
      {
        if ts[i].dependsOn[k] !in seen {
          assert !Known(ts, i);
          return Some(UnknownDependency(ts[i].id, ts[i].dependsOn[k]));
        }
      }
      assert Known(ts, i);
    }
    return None;
  }

  // ----- Batching -----

  predicate Ready(t: SubTask, resolved: set<string>) {
    forall d | d in t.dependsOn :: d in resolved
  }

  function ReadyOf(ts: seq<SubTask>, resolved: set<string>): seq<SubTask> {
    if ts == [] then []
    else (if Ready(ts[0], resolved) then [ts[0]] else []) + ReadyOf(ts[1..], resolved)
  }

  function BlockedOf(ts: seq<SubTask>, resolved: set<string>): seq<SubTask> {
    if ts == [] then []
    else (if Ready(ts[0], resolved) then [] else [ts[0]]) + BlockedOf(ts[1..], resolved)
  }

  lemma {:induction false} PassMembers(ts: seq<SubTask>, resolved: set<string>)
    ensures forall t :: t in ReadyOf(ts, resolved) <==> t in ts && Ready(t, resolved)
    ensures forall t :: t in BlockedOf(ts, resolved) <==> t in ts && !Ready(t, resolved)
    ensures multiset(ReadyOf(ts, resolved)) + multiset(BlockedOf(ts, resolved)) == multiset(ts)
    ensures |ReadyOf(ts, resolved)| + |BlockedOf(ts, resolved)| == |ts|
  {
    if ts != [] {
      PassMembers(ts[1..], resolved);
      assert ts == [ts[0]] + ts[1..];
    }
  }

  lemma {:induction false} PassExtend(ts: seq<SubTask>, t: SubTask, resolved: set<string>)
    ensures ReadyOf(ts + [t], resolved) == ReadyOf(ts, resolved) + if Ready(t, resolved) then [t] else []
    ensures BlockedOf(ts + [t], resolved) == BlockedOf(ts, resolved) + if Ready(t, resolved) then [] else [t]
  {
    if ts != [] {
      assert (ts + [t])[1..] == ts[1..] + [t];
      PassExtend(ts[1..], t, resolved);
    }
  }

  /** Regular layers, followed by the tasks a pass could not move (the no-progress fallback). */
  datatype Schedule = Schedule(layers: seq<seq<SubTask>>, stuck: seq<SubTask>)
  {
    function Batches(): seq<seq<SubTask>> {
      if stuck == [] then layers else layers + [stuck]
    }

    function After(done: seq<seq<SubTask>>): Schedule {
      Schedule(done + layers, stuck)
    }
  }

  function Layers(remaining: seq<SubTask>, resolved: set<string>): Schedule
    decreases |remaining|
  {
    if remaining == [] then Schedule([], [])
    else
      var batch := ReadyOf(remaining, resolved);
      if batch == [] then Schedule([], remaining)
      else
        PassMembers(remaining, resolved);
        var rest := Layers(BlockedOf(remaining, resolved), resolved + Ids(batch));
        Schedule([batch] + rest.layers, rest.stuck)
  }

  /** One pass over the waiting tasks; an id resolved by this pass does not help within it. */
  method Pass(remaining: seq<SubTask>, resolved: set<string>) returns (batch: seq<SubTask>, next: seq<SubTask>)
    ensures batch == ReadyOf(remaining, resolved)
    ensures next == BlockedOf(remaining, resolved)
  {
    batch, next := [], [];
    for i := 0 to |remaining|
      invariant batch == ReadyOf(remaining[..i], resolved)
      invariant next == BlockedOf(remaining[..i], resolved)
    {
      var st := remaining[i];
      var ready := true;
      for k := 0 to |st.dependsOn|
        invariant ready
        invariant forall m: nat | m < k :: st.dependsOn[m] in resolved
      {
        if st.dependsOn[k] !in resolved {
          ready := false;
          break;
        }
      }
      PassExtend(remaining[..i], st, resolved);
      assert remaining[..i + 1] == remaining[..i] + [st];
      if ready {
        batch := batch + [st];
      } else {
        next := next + [st];
      }
    }
    assert remaining[..|remaining|] == remaining;
  }

  lemma {:induction false} LayersStep(remaining: seq<SubTask>, resolved: set<string>, done: seq<seq<SubTask>>)
    requires remaining != []
    ensures var batch, next := ReadyOf(remaining, resolved), BlockedOf(remaining, resolved);
            var r := Layers(remaining, resolved).After(done);
            if batch == [] then r.Batches() == done + [remaining]
            else |next| < |remaining| && r == Layers(next, resolved + Ids(batch)).After(done + [batch])
  {
    var batch, next := ReadyOf(remaining, resolved), BlockedOf(remaining, resolved);
    PassMembers(remaining, resolved);
    var r := Layers(remaining, resolved);
    if batch == [] {
      assert r == Schedule([], remaining);
      assert done + [] == done;
    } else {
      var rest := Layers(next, resolved + Ids(batch));
      assert r == Schedule([batch] + rest.layers, rest.stuck);
      assert done + ([batch] + rest.layers) == (done + [batch]) + rest.layers;
    }
  }

  method MarkResolved(resolved: set<string>, batch: seq<SubTask>) returns (r: set<string>)
    ensures r == resolved + Ids(batch)
  {
    r := resolved;
    for i := 0 to |batch|
      invariant r == resolved + Ids(batch[..i])
    {
      assert batch[..i + 1] == batch[..i] + [batch[i]];
      r := r + {batch[i].id};
    }
    assert batch[..|batch|] == batch;
  }

  method Batch(plan: Plan) returns (batches: seq<seq<SubTask>>)
    ensures batches == Layers(plan.subtasks, {}).Batches()
  {
    var resolved: set<string> := {};
    var remaining := plan.subtasks;
    batches := [];
    while |remaining| > 0
      invariant Layers(plan.subtasks, {}) == Layers(remaining, resolved).After(batches)
      decreases |remaining|
    {
      LayersStep(remaining, resolved, batches);
      var batch, next := Pass(remaining, resolved);
      resolved := MarkResolved(resolved, batch);
      if |batch| == 0 {
        return batches + [remaining];
      }
      batches := batches + [batch];
      remaining := next;
    }
  }

  function Concat(batches: seq<seq<SubTask>>): seq<SubTask> {
    if batches == [] then [] else batches[0] + Concat(batches[1..])
  }

  lemma {:induction false} ConcatAppend(a: seq<seq<SubTask>>, b: seq<SubTask>)
    ensures Concat(a + [b]) == Concat(a) + b
  {
    if a == [] {
      assert Concat([b]) == b + Concat([]);
    } else {
      assert (a + [b])[1..] == a[1..] + [b];
      ConcatAppend(a[1..], b);
    }
  }

  lemma {:induction false} LayersArePermutation(remaining: seq<SubTask>, resolved: set<string>)
    ensures var r := Layers(remaining, resolved);
            multiset(Concat(r.layers)) + multiset(r.stuck) == multiset(remaining)
    decreases |remaining|
  {
    var batch := ReadyOf(remaining, resolved);
    if remaining != [] && batch != [] {
      PassMembers(remaining, resolved);
      var rest := Layers(BlockedOf(remaining, resolved), resolved + Ids(batch));
      LayersArePermutation(BlockedOf(remaining, resolved), resolved + Ids(batch));
      assert ([batch] + rest.layers)[1..] == rest.layers;
    }
  }

  /** Batching any plan, valid or not, neither drops, repeats nor invents a subtask. */
  lemma {:induction false} BatchIsPermutation(plan: Plan)
    ensures multiset(Concat(Layers(plan.subtasks, {}).Batches())) == multiset(plan.subtasks)
  {
    var r := Layers(plan.subtasks, {});
    LayersArePermutation(plan.subtasks, {});
    ConcatAppend(r.layers, r.stuck);
  }

  // ----- What a layer means, for every plan -----

  /** Ids of the tasks in the first k layers. */
  function IdsUpTo(layers: seq<seq<SubTask>>, k: nat): set<string>
    requires k <= |layers|
  {
    if k == 0 then {} else Ids(layers[0]) + IdsUpTo(layers[1..], k - 1)
  }

  lemma {:induction false} IdsUpToOwner(layers: seq<seq<SubTask>>, k: nat, d: string) returns (j: nat, u: SubTask)
    requires k <= |layers| && d in IdsUpTo(layers, k)
    ensures j < k && u in layers[j] && u.id == d
  {
    if d in Ids(layers[0]) {
      u :| u in layers[0] && u.id == d;
      j := 0;
    } else {
      j, u := IdsUpToOwner(layers[1..], k - 1, d);
      j := j + 1;
    }
  }

  lemma {:induction false} IdsUpToCovers(layers: seq<seq<SubTask>>, k: nat, j: nat, u: SubTask)
    requires j < k <= |layers| && u in layers[j]
    ensures u.id in IdsUpTo(layers, k)
  {
    if j > 0 {
      IdsUpToCovers(layers[1..], k - 1, j - 1, u);
    }
  }

  /** Where a task is placed: it is ready at its layer and was not ready one layer earlier. */
  lemma {:induction false} LayerMeaning(remaining: seq<SubTask>, resolved: set<string>, k: nat, t: SubTask)
    requires k < |Layers(remaining, resolved).layers| && t in Layers(remaining, resolved).layers[k]
    ensures t in remaining
    ensures Ready(t, resolved + IdsUpTo(Layers(remaining, resolved).layers, k))
    ensures k > 0 ==> !Ready(t, resolved + IdsUpTo(Layers(remaining, resolved).layers, k - 1))
    decreases k
  {
    PassMembers(remaining, resolved);
    var r := Layers(remaining, resolved);
    if k > 0 {
      var blocked, more := BlockedOf(remaining, resolved), resolved + Ids(r.layers[0]);
      var rest := Layers(blocked, more);
      assert r.layers[1..] == rest.layers;
      LayerMeaning(blocked, more, k - 1, t);
      assert more + IdsUpTo(rest.layers, k - 1) == resolved + IdsUpTo(r.layers, k);
      if k > 1 {
        assert more + IdsUpTo(rest.layers, k - 2) == resolved + IdsUpTo(r.layers, k - 1);
      } else {
        assert resolved + IdsUpTo(r.layers, 0) == resolved;
      }
    } else {
      assert resolved + IdsUpTo(r.layers, 0) == resolved;
    }
  }

  ghost predicate Layered(layers: seq<seq<SubTask>>, t: SubTask) {
    exists k: nat :: k < |layers| && t in layers[k]
  }

  lemma {:induction false} LayeredTail(layers: seq<seq<SubTask>>, t: SubTask)
    requires layers != [] && Layered(layers[1..], t)
    ensures Layered(layers, t)
  {
    var k: nat :| k < |layers[1..]| && t in layers[1..][k];
    assert t in layers[k + 1];
  }

  /** Every task lands in a layer or in the fallback. */
  lemma {:induction false} Placed(remaining: seq<SubTask>, resolved: set<string>, t: SubTask)
    requires t in remaining
    ensures t in Layers(remaining, resolved).stuck || Layered(Layers(remaining, resolved).layers, t)
    decreases |remaining|
  {
    PassMembers(remaining, resolved);
    var r := Layers(remaining, resolved);
    var batch := ReadyOf(remaining, resolved);
    if t in batch {
      assert r.layers[0] == batch;
    } else if batch != [] {
      var blocked, more := BlockedOf(remaining, resolved), resolved + Ids(batch);
      Placed(blocked, more, t);
      assert r.layers[1..] == Layers(blocked, more).layers;
      if t !in r.stuck {
        LayeredTail(r.layers, t);
      }
    }
  }

  /** The fallback holds only plan tasks that still wait for something at the end. */
  lemma {:induction false} StuckWaits(remaining: seq<SubTask>, resolved: set<string>, t: SubTask)
    requires t in Layers(remaining, resolved).stuck
    ensures t in remaining
    ensures var layers := Layers(remaining, resolved).layers; !Ready(t, resolved + IdsUpTo(layers, |layers|))
    decreases |remaining|
  {
    PassMembers(remaining, resolved);
    var r := Layers(remaining, resolved);
    var batch := ReadyOf(remaining, resolved);
    if batch == [] {
      assert resolved + IdsUpTo(r.layers, 0) == resolved;
    } else {
      var blocked, more := BlockedOf(remaining, resolved), resolved + Ids(batch);
      StuckWaits(blocked, more, t);
      IdsUpToCons(batch, Layers(blocked, more).layers, resolved);
    }
  }

  lemma {:induction false} IdsUpToCons(batch: seq<SubTask>, rest: seq<seq<SubTask>>, resolved: set<string>)
    ensures var layers := [batch] + rest;
            resolved + Ids(batch) + IdsUpTo(rest, |rest|) == resolved + IdsUpTo(layers, |layers|)
  {
    assert ([batch] + rest)[1..] == rest;
  }

  /** A set of plan tasks in which each one waits for an id that no task outside the set carries. */
  ghost predicate Deadlocked(ts: seq<SubTask>, s: set<SubTask>) {
    forall t | t in s :: t in ts && exists d :: d in t.dependsOn && forall u | u in ts && u.id == d :: u in s
  }

  lemma {:induction false} DeadlockedNotLayered(ts: seq<SubTask>, s: set<SubTask>, k: nat, t: SubTask)
    requires Deadlocked(ts, s) && k < |Layers(ts, {}).layers| && t in Layers(ts, {}).layers[k]
    ensures t !in s
    decreases k
  {
    var layers := Layers(ts, {}).layers;
    LayerMeaning(ts, {}, k, t);
    if t in s {
      var d :| d in t.dependsOn && forall u | u in ts && u.id == d :: u in s;
      assert d in IdsUpTo(layers, k);
      var j, u := IdsUpToOwner(layers, k, d);
      LayerMeaning(ts, {}, j, u);
      DeadlockedNotLayered(ts, s, j, u);
    }
  }

  /** A fallback task waits for an id whose every carrier is in the fallback too. */
  lemma {:induction false} StuckOn(ts: seq<SubTask>, t: SubTask) returns (d: string)
    requires t in Layers(ts, {}).stuck
    ensures t in ts && d in t.dependsOn
    ensures forall u | u in ts && u.id == d :: u in Layers(ts, {}).stuck
  {
    var r := Layers(ts, {});
    StuckWaits(ts, {}, t);
    d :| d in t.dependsOn && d !in {} + IdsUpTo(r.layers, |r.layers|);
    forall u | u in ts && u.id == d ensures u in r.stuck {
      Placed(ts, {}, u);
      if u !in r.stuck {
        var k: nat :| k < |r.layers| && u in r.layers[k];
        IdsUpToCovers(r.layers, |r.layers|, k, u);
      }
    }
  }

  /** For every plan, even one Validate rejects, the fallback batch is the largest deadlocked set. */
  lemma {:induction false} FallbackIsGreatestDeadlock(ts: seq<SubTask>, s: set<SubTask>)
    ensures var stuck := set t | t in Layers(ts, {}).stuck; Deadlocked(ts, stuck)
    ensures Deadlocked(ts, s) ==> forall t | t in s :: t in Layers(ts, {}).stuck
  {
    var r := Layers(ts, {});
    var stuck := set t | t in r.stuck;
    forall t | t in stuck
      ensures t in ts && exists d :: d in t.dependsOn && forall u | u in ts && u.id == d :: u in stuck
    {
      var d := StuckOn(ts, t);
    }
    if Deadlocked(ts, s) {
      forall t | t in s ensures t in r.stuck {
        Placed(ts, {}, t);
        if t !in r.stuck {
          var k: nat :| k < |r.layers| && t in r.layers[k];
          DeadlockedNotLayered(ts, s, k, t);
          assert false;
        }
      }
    }
  }

  // ----- Dependency chains -----

  /** Each element is a dependency of the next. */
  ghost predicate Chain(ts: seq<SubTask>, c: seq<SubTask>) {
    && c != []
    && (forall i: nat | i < |c| :: c[i] in ts)
    && (forall i: nat | i + 1 < |c| :: c[i].id in c[i + 1].dependsOn)
  }

  ghost predicate ChainTo(ts: seq<SubTask>, c: seq<SubTask>, t: SubTask) {
    Chain(ts, c) && c[|c| - 1] == t
  }

  ghost predicate OnCycle(ts: seq<SubTask>, t: SubTask) {
    exists c :: ChainTo(ts, c, t) && |c| >= 2 && c[0] == t
  }

  /** t lies on a cycle or reaches one through its dependencies. */
  ghost predicate DependsOnCycle(ts: seq<SubTask>, t: SubTask) {
    exists c :: ChainTo(ts, c, t) && OnCycle(ts, c[0])
  }

  ghost predicate Cyclic(ts: seq<SubTask>) {
    exists t :: t in ts && OnCycle(ts, t)
  }

  /** Ids name at most one task, and every dependency names one: what Validate guarantees. */
  ghost predicate Resolvable(ts: seq<SubTask>) {
    && (forall t, u | t in ts && u in ts && t.id == u.id :: t == u)
    && (forall t, d | t in ts && d in t.dependsOn :: d in Ids(ts))
  }

  lemma {:induction false} ValidatedIsResolvable(ts: seq<SubTask>, parses: string -> bool)
    requires WellFormed(ts, parses)
    ensures Resolvable(ts)
  {
    forall t, u | t in ts && u in ts && t.id == u.id ensures t == u {
      var i :| 0 <= i < |ts| && ts[i] == t;
      var j :| 0 <= j < |ts| && ts[j] == u;
      assert Own(ts, parses, i) && Own(ts, parses, j);
    }
    forall t, d | t in ts && d in t.dependsOn ensures d in Ids(ts) {
      var i :| 0 <= i < |ts| && ts[i] == t;
      assert Known(ts, i);
    }
  }

  /** A dependency of a layered task sits in a strictly earlier layer. */
  lemma {:induction false} DependencyLayer(ts: seq<SubTask>, k: nat, t: SubTask, u: SubTask) returns (j: nat)
    requires Resolvable(ts)
    requires k < |Layers(ts, {}).layers| && t in Layers(ts, {}).layers[k]
    requires u in ts && u.id in t.dependsOn
    ensures j < k && u in Layers(ts, {}).layers[j]
  {
    var v;
    LayerMeaning(ts, {}, k, t);
    j, v := IdsUpToOwner(Layers(ts, {}).layers, k, u.id);
    LayerMeaning(ts, {}, j, v);
  }

  lemma {:induction false} ChainInit(ts: seq<SubTask>, c: seq<SubTask>)
    requires Chain(ts, c) && |c| > 1
    ensures var n := |c| - 1; Chain(ts, c[..n]) && c[n - 1] in ts && c[n - 1].id in c[n].dependsOn
  {
    var n := |c| - 1;
    assert c[n - 1].id in c[n - 1 + 1].dependsOn;
  }

  lemma {:induction false} ChainBound(ts: seq<SubTask>, k: nat, c: seq<SubTask>, i: nat) returns (j: nat)
    requires Resolvable(ts) && Chain(ts, c) && i < |c|
    requires k < |Layers(ts, {}).layers| && c[|c| - 1] in Layers(ts, {}).layers[k]
    ensures j + (|c| - 1 - i) <= k && c[i] in Layers(ts, {}).layers[j]
    decreases |c|
  {
    if i == |c| - 1 {
      j := k;
    } else {
      var n := |c| - 1;
      ChainInit(ts, c);
      var m := DependencyLayer(ts, k, c[n], c[n - 1]);
      j := ChainBound(ts, m, c[..n], i);
    }
  }

  lemma {:induction false} ChainAppend(ts: seq<SubTask>, c: seq<SubTask>, u: SubTask, t: SubTask)
    requires ChainTo(ts, c, u) && t in ts && u.id in t.dependsOn
    ensures ChainTo(ts, c + [t], t)
  {
  }

  lemma {:induction false} LatestOwner(layers: seq<seq<SubTask>>, k: nat, t: SubTask) returns (u: SubTask)
    requires 0 < k <= |layers|
    requires Ready(t, {} + IdsUpTo(layers, k)) && !Ready(t, {} + IdsUpTo(layers, k - 1))
    ensures u in layers[k - 1] && u.id in t.dependsOn
  {
    var d :| d in t.dependsOn && d !in {} + IdsUpTo(layers, k - 1);
    var j;
    j, u := IdsUpToOwner(layers, k, d);
    if j < k - 1 {
      IdsUpToCovers(layers, k - 1, j, u);
    }
  }

  /** A task beyond the first layer waits for some task of the layer just before it. */
  lemma {:induction false} TightDependency(ts: seq<SubTask>, k: nat, t: SubTask) returns (u: SubTask)
    requires 0 < k < |Layers(ts, {}).layers| && t in Layers(ts, {}).layers[k]
    ensures u in Layers(ts, {}).layers[k - 1] && u.id in t.dependsOn
  {
    LayerMeaning(ts, {}, k, t);
    u := LatestOwner(Layers(ts, {}).layers, k, t);
  }

  lemma {:induction false} InLayer(ts: seq<SubTask>, k: nat, t: SubTask)
    requires k < |Layers(ts, {}).layers| && t in Layers(ts, {}).layers[k]
    ensures t in ts
  {
    LayerMeaning(ts, {}, k, t);
  }

  lemma {:induction false} ChainExists(ts: seq<SubTask>, k: nat, t: SubTask) returns (c: seq<SubTask>)
    requires k < |Layers(ts, {}).layers| && t in Layers(ts, {}).layers[k]
    ensures ChainTo(ts, c, t) && |c| == k + 1
    decreases k
  {
    InLayer(ts, k, t);
    if k == 0 {
      c := [t];
    } else {
      var u := TightDependency(ts, k, t);
      c := ChainExists(ts, k - 1, u);
      ChainAppend(ts, c, u, t);
      c := c + [t];
    }
  }

  /** n is the number of tasks on the longest chain that ends at t. */
  ghost predicate LongestChain(ts: seq<SubTask>, t: SubTask, n: nat) {
    && (exists c :: ChainTo(ts, c, t) && |c| == n)
    && (forall c :: ChainTo(ts, c, t) ==> |c| <= n)
  }

  lemma {:induction false} LongestChainUnique(ts: seq<SubTask>, t: SubTask, m: nat, n: nat)
    requires LongestChain(ts, t, m) && LongestChain(ts, t, n)
    ensures m == n
  {
    var c :| ChainTo(ts, c, t) && |c| == m;
    var d :| ChainTo(ts, d, t) && |d| == n;
  }

  /** The layer index is exactly the length of the longest dependency chain below the task. */
  lemma {:induction false} LayerIsLongestChain(ts: seq<SubTask>, k: nat, t: SubTask)
    requires Resolvable(ts)
    requires k < |Layers(ts, {}).layers| && t in Layers(ts, {}).layers[k]
    ensures LongestChain(ts, t, k + 1)
  {
    var c := ChainExists(ts, k, t);
    forall c | ChainTo(ts, c, t) ensures |c| <= k + 1 {
      var j := ChainBound(ts, k, c, 0);
    }
  }

  /** A layering that runs every dependency strictly before its dependents. */
  ghost predicate Layering(ts: seq<SubTask>, level: SubTask -> nat) {
    forall t, u | t in ts && u in ts && u.id in t.dependsOn :: level(u) < level(t)
  }

  lemma {:induction false} ChainClimbs(ts: seq<SubTask>, level: SubTask -> nat, c: seq<SubTask>)
    requires Layering(ts, level) && Chain(ts, c)
    ensures |c| <= level(c[|c| - 1]) + 1
  {
    if |c| > 1 {
      ChainClimbs(ts, level, c[..|c| - 1]);
    }
  }

  /** No valid layering can place any task earlier than Batch does. */
  lemma {:induction false} BatchIsEarliest(ts: seq<SubTask>, level: SubTask -> nat, k: nat, t: SubTask)
    requires Resolvable(ts) && Layering(ts, level)
    requires k < |Layers(ts, {}).layers| && t in Layers(ts, {}).layers[k]
    ensures k <= level(t)
  {
    var c := ChainExists(ts, k, t);
    ChainClimbs(ts, level, c);
  }

  // ----- The no-progress fallback -----

  lemma {:induction false} Pigeonhole(c: seq<SubTask>, s: set<SubTask>) returns (i: nat, j: nat)
    requires forall k: nat | k < |c| :: c[k] in s
    requires |c| > |s|
    ensures i < j < |c| && c[i] == c[j]
    decreases |c|
  {
    var last := c[|c| - 1];
    if last in c[..|c| - 1] {
      i :| 0 <= i < |c| - 1 && c[i] == last;
      j := |c| - 1;
    } else {
      i, j := Pigeonhole(c[..|c| - 1], s - {last});
    }
  }

  /** A stuck task waits for another stuck task, so chains of stuck tasks grow without bound. */
  lemma {:induction false} StuckChain(ts: seq<SubTask>, t: SubTask, n: nat) returns (c: seq<SubTask>)
    requires Resolvable(ts) && t in Layers(ts, {}).stuck
    ensures ChainTo(ts, c, t) && |c| == n + 1
    decreases n
  {
    var d := StuckOn(ts, t);
    if n == 0 {
      c := [t];
    } else {
      assert d in Ids(ts);
      var u :| u in ts && u.id == d;
      c := StuckChain(ts, u, n - 1);
      ChainAppend(ts, c, u, t);
      c := c + [t];
    }
  }

  lemma {:induction false} ChainSlice(ts: seq<SubTask>, c: seq<SubTask>, i: nat, j: nat)
    requires Chain(ts, c) && i < j <= |c|
    ensures ChainTo(ts, c[i..j], c[j - 1]) && c[i..j][0] == c[i]
  {
  }

  lemma {:induction false} RepeatIsCycle(ts: seq<SubTask>, c: seq<SubTask>, i: nat, j: nat)
    requires Chain(ts, c) && i < j < |c| && c[i] == c[j]
    ensures DependsOnCycle(ts, c[|c| - 1])
  {
    ChainSlice(ts, c, i, j + 1);
    ChainSlice(ts, c, i, |c|);
    var loop, path := c[i..j + 1], c[i..|c|];
    assert ChainTo(ts, loop, c[i]) && |loop| >= 2 && loop[0] == c[i];
    assert OnCycle(ts, path[0]);
    assert ChainTo(ts, path, c[|c| - 1]);
  }

  lemma {:induction false} StuckDependsOnCycle(ts: seq<SubTask>, t: SubTask)
    requires Resolvable(ts) && t in Layers(ts, {}).stuck
    ensures DependsOnCycle(ts, t)
  {
    var s := set u | u in ts;
    var c := StuckChain(ts, t, |s|);
    var i, j := Pigeonhole(c, s);
    RepeatIsCycle(ts, c, i, j);
  }

  lemma {:induction false} CycleIsNotLayered(ts: seq<SubTask>, k: nat, t: SubTask)
    requires Resolvable(ts) && DependsOnCycle(ts, t)
    ensures k < |Layers(ts, {}).layers| ==> t !in Layers(ts, {}).layers[k]
  {
    if k < |Layers(ts, {}).layers| && t in Layers(ts, {}).layers[k] {
      var c :| ChainTo(ts, c, t) && OnCycle(ts, c[0]);
      var o :| ChainTo(ts, o, c[0]) && |o| >= 2 && o[0] == c[0];
      var j := ChainBound(ts, k, c, 0);
      LayerIsLongestChain(ts, j, c[0]);
      var i := ChainBound(ts, j, o, 0);
      LayerIsLongestChain(ts, i, c[0]);
      assert false;
    }
  }

  /** The fallback batch is exactly the set of tasks that transitively depend on a cycle. */
  lemma {:induction false} FallbackIsCycleClosure(ts: seq<SubTask>, t: SubTask)
    requires Resolvable(ts)
    ensures t in Layers(ts, {}).stuck <==> DependsOnCycle(ts, t)
  {
    if t in Layers(ts, {}).stuck {
      StuckDependsOnCycle(ts, t);
    }
    if DependsOnCycle(ts, t) {
      var c :| ChainTo(ts, c, t) && OnCycle(ts, c[0]);
      assert t in ts;
      Placed(ts, {}, t);
      forall k: nat | k < |Layers(ts, {}).layers| ensures t !in Layers(ts, {}).layers[k] {
        CycleIsNotLayered(ts, k, t);
      }
    }
  }

  /** On a validated plan the fallback is taken iff the dependency graph has a cycle. */
  lemma {:induction false} FallbackIffCyclic(ts: seq<SubTask>)
    requires Resolvable(ts)
    ensures Layers(ts, {}).stuck != [] <==> Cyclic(ts)
  {
    var r := Layers(ts, {});
    if r.stuck != [] {
      StuckDependsOnCycle(ts, r.stuck[0]);
      var c :| ChainTo(ts, c, r.stuck[0]) && OnCycle(ts, c[0]);
      assert c[0] in ts;
    }
    if t :| t in ts && OnCycle(ts, t) {
      assert ChainTo(ts, [t], t);
      FallbackIsCycleClosure(ts, t);
    }
  }

  lemma {:induction false} LongestChainLayer(ts: seq<SubTask>, k: nat, t: SubTask)
    requires Resolvable(ts) && t in ts && LongestChain(ts, t, k + 1)
    requires t !in Layers(ts, {}).stuck
    ensures k < |Layers(ts, {}).layers| && t in Layers(ts, {}).layers[k]
  {
    Placed(ts, {}, t);
    var j: nat :| j < |Layers(ts, {}).layers| && t in Layers(ts, {}).layers[j];
    LayerIsLongestChain(ts, j, t);
    LongestChainUnique(ts, t, j + 1, k + 1);
  }

  /** On a validated acyclic plan, batch k holds exactly the tasks whose longest chain has k edges. */
  lemma {:induction false} BatchesByLongestChain(ts: seq<SubTask>, parses: string -> bool, k: nat, t: SubTask)
    requires WellFormed(ts, parses) && !Cyclic(ts)
    ensures var batches := Layers(ts, {}).Batches();
            (k < |batches| && t in batches[k]) <==> (t in ts && LongestChain(ts, t, k + 1))
  {
    var r := Layers(ts, {});
    ValidatedIsResolvable(ts, parses);
    FallbackIffCyclic(ts);
    if k < |r.layers| && t in r.layers[k] {
      LayerMeaning(ts, {}, k, t);
      LayerIsLongestChain(ts, k, t);
    }
    if t in ts && LongestChain(ts, t, k + 1) {
      LongestChainLayer(ts, k, t);
    }
  }

  /** The structural check admits cycles, so a hand-built plan that passes it can still need the fallback. */
  lemma {:induction false} ValidateAcceptsCycle(parses: string -> bool)
    ensures var ts := [SubTask("a", "", "", ["b"]), SubTask("b", "", "", ["a"])];
            WellFormed(ts, parses) && Cyclic(ts)
  {
    var a, b := SubTask("a", "", "", ["b"]), SubTask("b", "", "", ["a"]);
    var ts := [a, b];
    assert ts[0] == a && ts[1] == b;
    assert "a" in Ids(ts) && "b" in Ids(ts);
    assert Own(ts, parses, 0) && Own(ts, parses, 1);
    var loop := [a, b, a];
    assert loop[0].id in loop[1].dependsOn && loop[1].id in loop[2].dependsOn;
    assert ChainTo(ts, loop, a);
    assert OnCycle(ts, a);
  }
}
