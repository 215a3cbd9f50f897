/** Provider health: failure counters per class, cooldowns, and the routing filter. */
module LlmHealth {
  import opened Wrappers

  const AUTH := "auth"
  const RATE := "rate"
  const TIMEOUT := "timeout"
  const SERVER := "server"

  /** Times are in nanoseconds. */
  const SECOND := 1_000_000_000

  const VALID := "valid"
  const UNKNOWN := "unknown"

  /** N allowed failures means cooldown on failure N + 1; a class that is not listed allows none. */
  datatype Policy = Policy(allowed: map<string, int>, cooldownTime: int, ignoreTransient: bool)
  {
    function Allowed(failClass: string): int {
      if failClass in allowed then allowed[failClass] else 0
    }

    predicate Ignores(failClass: string) {
      ignoreTransient && (failClass == RATE || failClass == TIMEOUT)
    }
  }

  const DEFAULT_ALLOWED: map<string, int> := map[AUTH := 0, RATE := 3, TIMEOUT := 3, SERVER := 1]

  /** cooldownUntil None stands for the zero time. */
  datatype ProviderHealth = ProviderHealth(
    failed: map<string, nat>, cooldownUntil: Option<int>, lastState: string, lastCheck: Option<int>)
  {
    function Count(failClass: string): nat {
      if failClass in failed then failed[failClass] else 0
    }
  }

  const NEW: ProviderHealth := ProviderHealth(map[], None, "", None)

  type Registry = map<string, ProviderHealth>

  function Get(reg: Registry, id: string): ProviderHealth {
    if id in reg then reg[id] else NEW
  }

  datatype Event =
    | Failure(id: string, failClass: string, now: int)
    | Success(id: string, now: int)
    | Probe(id: string, state: string, failClass: string, now: int)

  function ClassOf(failClass: string): string {
    if failClass == "" then SERVER else failClass
  }

  function Charge(p: Policy, ph: ProviderHealth, failClass: string, now: int): ProviderHealth {
    var n := ph.Count(failClass) + 1;
    ph.(failed := ph.failed[failClass := n],
        cooldownUntil := if n > p.Allowed(failClass) then Some(now + p.cooldownTime) else ph.cooldownUntil)
  }

  function Apply(p: Policy, reg: Registry, ev: Event): Registry {
    var ph := Get(reg, ev.id);
    match ev
    case Failure(id, failClass, now) =>
      if p.Ignores(ClassOf(failClass)) then reg else reg[id := Charge(p, ph, ClassOf(failClass), now)]
    case Success(id, now) => reg[id := ProviderHealth(map[], None, VALID, Some(now))]
    case Probe(id, state, failClass, now) =>
      var seen := ph.(lastState := state, lastCheck := Some(now));
      if state == VALID || state == UNKNOWN then reg[id := seen.(failed := map[], cooldownUntil := None)]
      else if p.Ignores(ClassOf(failClass)) then reg[id := seen]
      else reg[id := Charge(p, seen, ClassOf(failClass), now)]
  }

  function ApplyAll(p: Policy, reg: Registry, events: seq<Event>): Registry {
    if events == [] then reg
    else Apply(p, ApplyAll(p, reg, events[..|events| - 1]), events[|events| - 1])
  }

  // ----- Routing filter -----

  predicate CoolingDown(ph: ProviderHealth, now: int) {
    ph.cooldownUntil.Some? && now < ph.cooldownUntil.value
  }

  predicate Routable(ph: ProviderHealth, now: int) {
    ph.cooldownUntil.None? || now > ph.cooldownUntil.value
  }

  function Healthy(reg: Registry, now: int, ids: seq<string>): seq<string> {
    if ids == [] then []
    else
      var last := ids[|ids| - 1];
      if Routable(Get(reg, last), now) then Healthy(reg, now, ids[..|ids| - 1]) + [last]
      else Healthy(reg, now, ids[..|ids| - 1])
  }

  function Filtered(reg: Registry, now: int, ids: seq<string>): seq<string> {
    if Healthy(reg, now, ids) == [] then ids else Healthy(reg, now, ids)
  }

  class HealthRegistry {
    const policy: Policy
    var providers: Registry

    /** No allowances means the default ones, and a cooldown that is not positive means one minute. */
    constructor (allowedFails: Option<map<string, int>>, cooldownTime: int, ignoreTransient: bool)
      ensures providers == map[] && policy.ignoreTransient == ignoreTransient && policy.cooldownTime > 0
      ensures policy.cooldownTime == cooldownTime || (cooldownTime <= 0 && policy.cooldownTime == 60_000_000_000)
      ensures match allowedFails case Some(a) => policy.allowed == a case None => policy.allowed == DEFAULT_ALLOWED
    {
      var allowed := match allowedFails case Some(a) => a case None => DEFAULT_ALLOWED;
      policy := Policy(allowed, if cooldownTime <= 0 then 60 * SECOND else cooldownTime, ignoreTransient);
      providers := map[];
    }

    /** The accounting that requests and probes share. */
    method Account(id: string, failClass: string, now: int)
      modifies this
      ensures providers == old(providers)[id := Charge(policy, old(Get(providers, id)), failClass, now)]
    {
      var ph := Get(providers, id);
      var n := ph.Count(failClass) + 1;
      ph := ph.(failed := ph.failed[failClass := n]);
      if n > policy.Allowed(failClass) {
        ph := ph.(cooldownUntil := Some(now + policy.cooldownTime));
      }
      providers := providers[id := ph];
    }

    method RecordFailure(id: string, failClass: string, now: int)
      modifies this
      ensures providers == Apply(policy, old(providers), Failure(id, failClass, now))
    {
      var c := if failClass == "" then SERVER else failClass;
      if policy.ignoreTransient && (c == RATE || c == TIMEOUT) {
        return;
      }
      Account(id, c, now);
    }

    method RecordSuccess(id: string, now: int)
      modifies this
      ensures providers == Apply(policy, old(providers), Success(id, now))
    {
      var ph := Get(providers, id);
      ph := ph.(failed := map[], cooldownUntil := None);
      ph := ph.(lastState := VALID, lastCheck := Some(now));
      providers := providers[id := ph];
    }

    /** The effect of one provider's turn in a probe cycle. */
    method RecordProbe(id: string, state: string, failClass: string, now: int)
      modifies this
      ensures providers == Apply(policy, old(providers), Probe(id, state, failClass, now))
    {
      var ph := Get(providers, id);
      ph := ph.(lastCheck := Some(now), lastState := state);
      if state == VALID || state == UNKNOWN {
        ph := ph.(failed := map[], cooldownUntil := None);
        providers := providers[id := ph];
        return;
      }
      providers := providers[id := ph];
      var c := if failClass == "" then SERVER else failClass;
      if policy.ignoreTransient && (c == RATE || c == TIMEOUT) {
        return;
      }
      Account(id, c, now);
    }

    method InCooldown(id: string, now: int) returns (r: bool)
      ensures r <==> CoolingDown(Get(providers, id), now)
    {
      if id !in providers {
        return false;
      }
      var until := providers[id].cooldownUntil;
      return until.Some? && now < until.value;
    }

    method FilterCandidates(ids: seq<string>, now: int) returns (out: seq<string>)
      ensures out == Filtered(providers, now, ids)
    {
      out := [];
      for i := 0 to |ids|
        invariant out == Healthy(providers, now, ids[..i])
      {
        assert ids[..i + 1][..i] == ids[..i];
        if ids[i] !in providers || providers[ids[i]].cooldownUntil.None? || now > providers[ids[i]].cooldownUntil.value {
          out := out + [ids[i]];
        }
      }
      assert ids[..|ids|] == ids;
      if |out| == 0 && |ids| > 0 {
        return ids;
      }
    }
  }

  // ----- The filter -----

  lemma {:induction false} HealthyMembers(reg: Registry, now: int, ids: seq<string>)
    ensures forall x :: x in Healthy(reg, now, ids) <==> x in ids && Routable(Get(reg, x), now)
  {
    if ids != [] {
      HealthyMembers(reg, now, ids[..|ids| - 1]);
      assert ids == ids[..|ids| - 1] + [ids[|ids| - 1]];
    }
  }

  /** Filtering never empties a non-empty list, and drops a provider only while another one is routable. */
  lemma {:induction false} FilterFailsOpen(reg: Registry, now: int, ids: seq<string>, x: string)
    ensures ids != [] ==> Filtered(reg, now, ids) != []
    ensures x in Filtered(reg, now, ids) <==>
            x in ids && (Routable(Get(reg, x), now) || forall y | y in ids :: !Routable(Get(reg, y), now))
  {
    HealthyMembers(reg, now, ids);
    if Healthy(reg, now, ids) != [] {
      var y := Healthy(reg, now, ids)[0];
      assert y in Healthy(reg, now, ids);
    } else {
      forall y | y in ids ensures !Routable(Get(reg, y), now) {
        assert y !in Healthy(reg, now, ids);
      }
    }
  }

  /** The two notions of "in cooldown" agree except at the instant the cooldown ends. */
  lemma {:induction false} RoutableIff(ph: ProviderHealth, now: int)
    ensures Routable(ph, now) <==> !CoolingDown(ph, now) && ph.cooldownUntil != Some(now)
  {
  }

  // ----- What one event does -----

  /** One more failure of this class on the books, and a cooldown from now on if that is more than are allowed. */
  ghost predicate OneFailureMore(p: Policy, was: ProviderHealth, next: ProviderHealth, failClass: string, now: int) {
    var allowed := if failClass in p.allowed then p.allowed[failClass] else 0;
    && (forall c :: next.Count(c) == was.Count(c) + if c == failClass then 1 else 0)
    && next.cooldownUntil == (if was.Count(failClass) >= allowed then Some(now + p.cooldownTime) else was.cooldownUntil)
  }

  /** A failure is charged to its class, "server" when it has none; transient classes go free when the policy says so. */
  ghost predicate Penalised(p: Policy, was: ProviderHealth, next: ProviderHealth, failClass: string, now: int) {
    if p.ignoreTransient && (failClass == "rate" || failClass == "timeout") then
      next.failed == was.failed && next.cooldownUntil == was.cooldownUntil
    else OneFailureMore(p, was, next, if failClass == "" then "server" else failClass, now)
  }

  lemma {:induction false} FailurePenalises(p: Policy, reg: Registry, id: string, failClass: string, now: int)
    ensures var was, next := Get(reg, id), Get(Apply(p, reg, Failure(id, failClass, now)), id);
            Penalised(p, was, next, failClass, now) && next.lastState == was.lastState && next.lastCheck == was.lastCheck
  {
  }

  /** A probe that finds the provider valid, or cannot tell, clears it; any other is a failure. */
  lemma {:induction false} ProbeEffect(p: Policy, reg: Registry, id: string, state: string, failClass: string, now: int)
    ensures var was, next := Get(reg, id), Get(Apply(p, reg, Probe(id, state, failClass, now)), id);
            && next.lastState == state && next.lastCheck == Some(now)
            && if state == "valid" || state == "unknown" then next.failed == map[] && next.cooldownUntil == None
               else Penalised(p, was, next, failClass, now)
  {
  }

  lemma {:induction false} SuccessClears(p: Policy, reg: Registry, id: string, now: int)
    ensures Get(Apply(p, reg, Success(id, now)), id) == ProviderHealth(map[], None, "valid", Some(now))
  {
  }

  lemma {:induction false} EventIsLocal(p: Policy, reg: Registry, ev: Event, id: string)
    requires ev.id != id
    ensures Get(Apply(p, reg, ev), id) == Get(reg, id)
  {
  }

  // ----- Health as a function of the event trace -----

  predicate Resets(ev: Event, id: string) {
    ev.id == id && (ev.Success? || (ev.Probe? && (ev.state == VALID || ev.state == UNKNOWN)))
  }

  /** ev is a failure of this class that counts against the provider. */
  predicate Counts(p: Policy, ev: Event, id: string, failClass: string) {
    && ev.id == id && !ev.Success? && !Resets(ev, id)
    && ClassOf(ev.failClass) == failClass && !p.Ignores(failClass)
  }

  /** Position just after the provider's last reset, 0 if it never was. */
  function Since(events: seq<Event>, id: string): (n: nat)
    ensures n <= |events|
    ensures n > 0 ==> Resets(events[n - 1], id)
    ensures forall i | n <= i < |events| :: !Resets(events[i], id)
  {
    if events == [] then 0
    else if Resets(events[|events| - 1], id) then |events|
    else Since(events[..|events| - 1], id)
  }

  /** The counted failures of one class since the last reset. */
  function Counted(p: Policy, events: seq<Event>, id: string, failClass: string): set<nat> {
    set i: nat | Since(events, id) <= i < |events| && Counts(p, events[i], id, failClass)
  }

  /** Event i exceeded its class's allowance when it happened. */
  ghost predicate OverAllowance(p: Policy, events: seq<Event>, id: string, i: nat)
    requires i < |events|
  {
    exists c :: Counts(p, events[i], id, c) && |Counted(p, events[..i + 1], id, c)| > p.Allowed(c)
  }

  /** events[i] is the last over-allowance failure since the last reset. */
  ghost predicate LastOver(p: Policy, events: seq<Event>, id: string, i: nat) {
    && Since(events, id) <= i < |events| && OverAllowance(p, events, id, i)
    && forall j | i < j < |events| :: !OverAllowance(p, events, id, j)
  }

  lemma {:induction false} SinceSnoc(events: seq<Event>, ev: Event, id: string)
    ensures Since(events + [ev], id) == if Resets(ev, id) then |events| + 1 else Since(events, id)
  {
    assert (events + [ev])[..|events|] == events;
  }

  lemma {:induction false} CountedSnoc(p: Policy, events: seq<Event>, ev: Event, id: string, c: string)
    ensures var next := Counted(p, events + [ev], id, c);
            if Resets(ev, id) then next == {}
            else if Counts(p, ev, id, c) then next == Counted(p, events, id, c) + {|events|}
            else next == Counted(p, events, id, c)
    ensures |events| !in Counted(p, events, id, c)
  {
    SinceSnoc(events, ev, id);
    var all, next, was := events + [ev], Counted(p, events + [ev], id, c), Counted(p, events, id, c);
    forall i: nat ensures i in next <==> Since(all, id) <= i < |all| && Counts(p, all[i], id, c) {
    }
    if !Resets(ev, id) {
      assert forall i: nat | i < |events| :: i in next <==> i in was;
    }
  }

  lemma {:induction false} ReplaySnoc(p: Policy, events: seq<Event>, ev: Event)
    ensures ApplyAll(p, map[], events + [ev]) == Apply(p, ApplyAll(p, map[], events), ev)
  {
    assert (events + [ev])[..|events|] == events;
  }

  /** How one event changes one class counter. */
  lemma {:induction false} CountStep(p: Policy, reg: Registry, ev: Event, id: string, c: string)
    ensures Get(Apply(p, reg, ev), id).Count(c) ==
            if Resets(ev, id) then 0
            else if Counts(p, ev, id, c) then Get(reg, id).Count(c) + 1
            else Get(reg, id).Count(c)
  {
  }

  lemma {:induction false} CountedSizeSnoc(p: Policy, events: seq<Event>, ev: Event, id: string, c: string)
    ensures |Counted(p, events + [ev], id, c)| ==
            if Resets(ev, id) then 0
            else if Counts(p, ev, id, c) then |Counted(p, events, id, c)| + 1
            else |Counted(p, events, id, c)|
  {
    CountedSnoc(p, events, ev, id, c);
  }

  /** Each class counter is the number of counted failures since the last reset. */
  lemma {:induction false} CountersFromTrace(p: Policy, events: seq<Event>, id: string, c: string)
    ensures Get(ApplyAll(p, map[], events), id).Count(c) == |Counted(p, events, id, c)|
    decreases |events|
  {
    if events == [] {
      assert Counted(p, events, id, c) == {};
    } else {
      var init, ev := events[..|events| - 1], events[|events| - 1];
      assert events == init + [ev];
      CountersFromTrace(p, init, id, c);
      CountStep(p, ApplyAll(p, map[], init), ev, id, c);
      CountedSizeSnoc(p, init, ev, id, c);
    }
  }

  predicate WithinAllowance(p: Policy, ph: ProviderHealth) {
    forall c | c in ph.failed :: ph.failed[c] <= p.Allowed(c)
  }

  /** No cooldown is set iff every counted class is within its allowance. */
  lemma {:induction false} CooldownUnsetIff(p: Policy, events: seq<Event>, id: string)
    ensures var ph := Get(ApplyAll(p, map[], events), id); ph.cooldownUntil.None? <==> WithinAllowance(p, ph)
    decreases |events|
  {
    if events != [] {
      var init, ev := events[..|events| - 1], events[|events| - 1];
      assert events == init + [ev];
      CooldownUnsetIff(p, init, id);
      ReplaySnoc(p, init, ev);
      if !ev.Success? && Counts(p, ev, id, ClassOf(ev.failClass)) {
        ChargeKeepsUnsetIff(p, Get(ApplyAll(p, map[], init), id), ClassOf(ev.failClass), ev.now);
      }
    }
  }

  lemma {:induction false} ChargeKeepsUnsetIff(p: Policy, ph: ProviderHealth, c: string, now: int)
    requires ph.cooldownUntil.None? <==> WithinAllowance(p, ph)
    ensures var next := Charge(p, ph, c, now); next.cooldownUntil.None? <==> WithinAllowance(p, next)
  {
    var next := Charge(p, ph, c, now);
    if !WithinAllowance(p, ph) {
      var d :| d in ph.failed && ph.failed[d] > p.Allowed(d);
      assert d in next.failed && next.failed[d] > p.Allowed(d);
    }
  }

  lemma {:induction false} LastIsOverIff(p: Policy, events: seq<Event>, id: string, c: string)
    requires events != [] && Counts(p, events[|events| - 1], id, c)
    ensures OverAllowance(p, events, id, |events| - 1) <==> |Counted(p, events, id, c)| > p.Allowed(c)
  {
    assert events[..|events|] == events;
  }

  lemma {:induction false} OverSnoc(p: Policy, events: seq<Event>, ev: Event, id: string, i: nat)
    requires i < |events|
    ensures OverAllowance(p, events + [ev], id, i) == OverAllowance(p, events, id, i)
  {
    assert (events + [ev])[..i + 1] == events[..i + 1];
  }

  /** until is what the trace demands: unset, or cooldownTime after the last over-allowance failure. */
  ghost predicate CooldownMatches(p: Policy, events: seq<Event>, id: string, until: Option<int>) {
    match until
    case None => forall i | Since(events, id) <= i < |events| :: !OverAllowance(p, events, id, i)
    case Some(u) => exists i: nat :: LastOver(p, events, id, i) && u == events[i].now + p.cooldownTime
  }

  lemma {:induction false} LastOverSnoc(p: Policy, events: seq<Event>, ev: Event, id: string, i: nat)
    requires LastOver(p, events, id, i) && !Resets(ev, id)
    requires !OverAllowance(p, events + [ev], id, |events|)
    ensures LastOver(p, events + [ev], id, i)
  {
    var all := events + [ev];
    SinceSnoc(events, ev, id);
    OverSnoc(p, events, ev, id, i);
    forall j | i < j < |all| ensures !OverAllowance(p, all, id, j) {
      if j < |events| {
        OverSnoc(p, events, ev, id, j);
      }
    }
  }

  lemma {:induction false} NeverOverSnoc(p: Policy, events: seq<Event>, ev: Event, id: string)
    requires forall i | Since(events, id) <= i < |events| :: !OverAllowance(p, events, id, i)
    requires !Resets(ev, id) && !OverAllowance(p, events + [ev], id, |events|)
    ensures var all := events + [ev]; forall i | Since(all, id) <= i < |all| :: !OverAllowance(p, all, id, i)
  {
    var all := events + [ev];
    SinceSnoc(events, ev, id);
    forall i | Since(all, id) <= i < |all| ensures !OverAllowance(p, all, id, i) {
      if i < |events| {
        OverSnoc(p, events, ev, id, i);
      }
    }
  }

  lemma {:induction false} MatchesQuiet(p: Policy, events: seq<Event>, ev: Event, id: string, until: Option<int>)
    requires CooldownMatches(p, events, id, until) && !Resets(ev, id)
    requires !OverAllowance(p, events + [ev], id, |events|)
    ensures CooldownMatches(p, events + [ev], id, until)
  {
    match until
    case None => NeverOverSnoc(p, events, ev, id);
    case Some(u) =>
      var i: nat :| LastOver(p, events, id, i) && u == events[i].now + p.cooldownTime;
      LastOverSnoc(p, events, ev, id, i);
      assert (events + [ev])[i] == events[i];
  }

  lemma {:induction false} MatchesOver(p: Policy, events: seq<Event>, ev: Event, id: string)
    requires !Resets(ev, id) && OverAllowance(p, events + [ev], id, |events|)
    ensures CooldownMatches(p, events + [ev], id, Some(ev.now + p.cooldownTime))
  {
    SinceSnoc(events, ev, id);
    assert LastOver(p, events + [ev], id, |events|) && (events + [ev])[|events|] == ev;
  }

  /** How one event changes a provider's cooldown. */
  lemma {:induction false} CooldownStep(p: Policy, reg: Registry, ev: Event, id: string)
    ensures var was, now := Get(reg, id), Get(Apply(p, reg, ev), id);
            now.cooldownUntil ==
            if Resets(ev, id) then None
            else if Counts(p, ev, id, ClassOf(if ev.Success? then "" else ev.failClass)) &&
                    was.Count(ClassOf(ev.failClass)) + 1 > p.Allowed(ClassOf(ev.failClass)) then Some(ev.now + p.cooldownTime)
            else was.cooldownUntil
  {
  }

  /** A cooldown is set iff some failure since the last reset was over its allowance, and ends after the last one. */
  lemma {:induction false} CooldownFromTrace(p: Policy, events: seq<Event>, id: string)
    ensures CooldownMatches(p, events, id, Get(ApplyAll(p, map[], events), id).cooldownUntil)
    decreases |events|
  {
    if events != [] {
      var init, ev := events[..|events| - 1], events[|events| - 1];
      assert events == init + [ev];
      var reg := ApplyAll(p, map[], init);
      CooldownFromTrace(p, init, id);
      ReplaySnoc(p, init, ev);
      CooldownStep(p, reg, ev, id);
      SinceSnoc(init, ev, id);
      if !Resets(ev, id) {
        var c := ClassOf(if ev.Success? then "" else ev.failClass);
        if Counts(p, ev, id, c) {
          CountersFromTrace(p, init, id, c);
          CountedSnoc(p, init, ev, id, c);
          LastIsOverIff(p, events, id, c);
        }
        if OverAllowance(p, events, id, |init|) {
          MatchesOver(p, init, ev, id);
        } else {
          MatchesQuiet(p, init, ev, id, Get(reg, id).cooldownUntil);
        }
      }
    }
  }

  /** A failure beyond the allowance keeps a provider out of routing, as long as some other has no cooldown, for exactly
      the cooldown time; "in cooldown" ends one instant earlier. */
  lemma {:induction false} CooldownKeepsOut(
    p: Policy, reg: Registry, id: string, failClass: string, t: int, ids: seq<string>, other: string, now: int)
    requires failClass != "" && !(p.ignoreTransient && (failClass == "rate" || failClass == "timeout"))
    requires Get(reg, id).Count(failClass) >= if failClass in p.allowed then p.allowed[failClass] else 0
    requires id in ids && other in ids && other != id && Get(reg, other).cooldownUntil.None?
    ensures var after := Apply(p, reg, Failure(id, failClass, t));
            && (id in Filtered(after, now, ids) <==> now > t + p.cooldownTime)
            && (CoolingDown(Get(after, id), now) <==> now < t + p.cooldownTime)
            && other in Filtered(after, now, ids)
  {
    var after := Apply(p, reg, Failure(id, failClass, t));
    FilterFailsOpen(after, now, ids, id);
    FilterFailsOpen(after, now, ids, other);
  }

  // ----- How many failures a policy allows -----

  lemma {:induction false} CountedRun(p: Policy, id: string, failClass: string, n: nat, clock: nat -> int)
    requires failClass != "" && !p.Ignores(failClass)
    ensures var ph := Get(ApplyAll(p, map[], seq(n, k requires 0 <= k < n => Failure(id, failClass, clock(k)))), id);
            ph.Count(failClass) == n && (forall c | c in ph.failed :: c == failClass) && (n > 0 ==> failClass in ph.failed)
  {
    if n > 0 {
      var run := seq(n, k requires 0 <= k < n => Failure(id, failClass, clock(k)));
      assert run[..n - 1] == seq(n - 1, k requires 0 <= k < n - 1 => Failure(id, failClass, clock(k)));
      CountedRun(p, id, failClass, n - 1, clock);
    }
  }

  /** n failures of one class in a row put a fresh provider on cooldown iff more than are allowed. */
  lemma {:induction false} RunCoolsIff(p: Policy, id: string, failClass: string, n: nat, clock: nat -> int)
    requires failClass != "" && !p.Ignores(failClass) && p.Allowed(failClass) >= 0
    ensures var run := seq(n, k requires 0 <= k < n => Failure(id, failClass, clock(k)));
            Get(ApplyAll(p, map[], run), id).cooldownUntil.Some? <==> n > p.Allowed(failClass)
  {
    var run := seq(n, k requires 0 <= k < n => Failure(id, failClass, clock(k)));
    CountedRun(p, id, failClass, n, clock);
    CooldownUnsetIff(p, run, id);
  }

  /** By default the first refused key cools a provider down, the second server error, the fourth limit or timeout. */
  lemma {:induction false} DefaultRunCoolsIff(id: string, failClass: string, cooldown: int, n: nat, clock: nat -> int)
    requires failClass in {"auth", "rate", "timeout", "server"}
    ensures var run := seq(n, k requires 0 <= k < n => Failure(id, failClass, clock(k)));
            Get(ApplyAll(Policy(DEFAULT_ALLOWED, cooldown, false), map[], run), id).cooldownUntil.Some? <==>
            n >= if failClass == "auth" then 1 else if failClass == "server" then 2 else 4
  {
    RunCoolsIff(Policy(DEFAULT_ALLOWED, cooldown, false), id, failClass, n, clock);
  }
}
