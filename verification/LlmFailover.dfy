/** The failover chain: which providers are candidates, in what order they are tried, what is recorded. */
module LlmFailover {
  import opened Wrappers
  import opened LlmHealth

  datatype Spec = Spec(id: string, endpoint: string)

  /** Provider catalog data: the known specs and the legacy names of their ids. */
  datatype Catalog = Catalog(specs: seq<Spec>, aliases: map<string, string>)
  {
    function ResolveID(id: string): string {
      if id in aliases then aliases[id] else id
    }

    function SpecByID(id: string): (r: Option<Spec>)
      ensures var resolved := if id in aliases then aliases[id] else id;
              match r
              case Some(spec) => exists i: nat :: IsFirst(specs, i, resolved) && spec == specs[i]
              case None => forall s | s in specs :: s.id != resolved
    {
      FirstWithId(specs, ResolveID(id))
    }
  }

  /** Spec i is the first with this id. */
  predicate IsFirst(specs: seq<Spec>, i: nat, id: string) {
    i < |specs| && specs[i].id == id && forall j | 0 <= j < i :: specs[j].id != id
  }

  lemma {:induction false} FirstOfTail(specs: seq<Spec>, i: nat, id: string)
    requires specs != [] && specs[0].id != id && IsFirst(specs[1..], i, id)
    ensures IsFirst(specs, i + 1, id) && specs[i + 1] == specs[1..][i]
  {
    forall j | 0 <= j < i + 1 ensures specs[j].id != id {
      assert j > 0 ==> specs[j] == specs[1..][j - 1];
    }
  }

  function FirstWithId(specs: seq<Spec>, id: string): (r: Option<Spec>)
    ensures r.Some? ==> exists i: nat :: IsFirst(specs, i, id) && r.value == specs[i]
    ensures r.None? ==> forall s | s in specs :: s.id != id
  {
    if specs == [] then None
    else if specs[0].id == id then
      assert IsFirst(specs, 0, id);
      Some(specs[0])
    else
      var r := FirstWithId(specs[1..], id);
      assert r.Some? ==> exists i: nat :: IsFirst(specs, i, id) && r.value == specs[i] by {
        if r.Some? {
          var i: nat :| IsFirst(specs[1..], i, id) && r.value == specs[1..][i];
          FirstOfTail(specs, i, id);
        }
      }
      r
  }

  /** What happens when one candidate is tried; KeyGone is a keystore lookup that fails the second time. */
  datatype Attempt =
    | KeyGone
    | BuildError(err: string)
    | CallError(err: string, failClass: string)
    | Answer(response: string)

  datatype Outcome =
    | Answered(response: string)
    | NoCandidates
    | AllFailed(tried: nat, last: Option<Attempt>)

  // ----- Candidates -----

  function Ids(specs: seq<Spec>): (ids: seq<string>)
    ensures |ids| == |specs|
    ensures forall i | 0 <= i < |specs| :: ids[i] == specs[i].id
  {
    seq(|specs|, i requires 0 <= i < |specs| => specs[i].id)
  }

  predicate Distinct(specs: seq<Spec>) {
    forall i, j | 0 <= i < j < |specs| :: specs[i].id != specs[j].id
  }

  /** The list the chain is drawn from: the pinned spec, if any, then the configured ones. */
  function Listed(catalog: Catalog, pin: string, specs: seq<Option<Spec>>): seq<Option<Spec>> {
    if pin != "" && catalog.ResolveID(pin) != "" then [catalog.SpecByID(catalog.ResolveID(pin))] + specs else specs
  }

  /** One more listed spec: kept when it is keyed and its id is new. */
  function Add(out: seq<Spec>, spec: Option<Spec>, keyed: set<string>): seq<Spec> {
    if spec.Some? && spec.value.id in keyed && spec.value.id !in Ids(out) then out + [spec.value] else out
  }

  /** The keyed specs of a list, each id once, at its first occurrence. */
  function Collect(list: seq<Option<Spec>>, keyed: set<string>): seq<Spec> {
    if list == [] then [] else Add(Collect(list[..|list| - 1], keyed), list[|list| - 1], keyed)
  }

  function Candidates(catalog: Catalog, pin: string, specs: seq<Option<Spec>>, keyed: set<string>): seq<Spec> {
    Collect(Listed(catalog, pin, specs), keyed)
  }

  method AppendSpec(seen: set<string>, out: seq<Spec>, spec: Option<Spec>, keyed: set<string>)
    returns (seen': set<string>, out': seq<Spec>)
    requires forall x :: x in seen <==> x in Ids(out)
    ensures forall x :: x in seen' <==> x in Ids(out')
    ensures out' == Add(out, spec, keyed)
  {
    seen', out' := seen, out;
    if spec.None? || spec.value.id in seen || spec.value.id !in keyed {
      return;
    }
    seen' := seen + {spec.value.id};
    out' := out + [spec.value];
    assert Ids(out') == Ids(out) + [spec.value.id];
  }

  method OrderedCandidates(catalog: Catalog, pin: string, specs: seq<Option<Spec>>, keyed: set<string>)
    returns (out: seq<Spec>)
    ensures out == Candidates(catalog, pin, specs, keyed)
  {
    var seen: set<string> := {};
    out := [];
    var pinned := "";
    if pin != "" {
      pinned := catalog.ResolveID(pin);
    }
    ghost var front: seq<Option<Spec>> := [];
    if pinned != "" {
      front := [catalog.SpecByID(pinned)];
      assert front[..0] == [];
      seen, out := AppendSpec(seen, out, catalog.SpecByID(pinned), keyed);
    }
    assert front + specs[..0] == front;
    for i := 0 to |specs|
      invariant out == Collect(front + specs[..i], keyed)
      invariant forall x :: x in seen <==> x in Ids(out)
    {
      CollectStep(front, specs, keyed, i);
      seen, out := AppendSpec(seen, out, specs[i], keyed);
    }
    assert front + specs[..|specs|] == Listed(catalog, pin, specs);
  }

  lemma {:induction false} CollectStep(front: seq<Option<Spec>>, specs: seq<Option<Spec>>, keyed: set<string>, i: nat)
    requires i < |specs|
    ensures Collect(front + specs[..i + 1], keyed) == Add(Collect(front + specs[..i], keyed), specs[i], keyed)
  {
    assert (front + specs[..i + 1])[..|front| + i] == front + specs[..i];
  }

  /** Position k of the list holds the first spec with its id. */
  predicate FirstAt(list: seq<Option<Spec>>, k: nat)
    requires k < |list|
  {
    list[k].Some? && forall j | 0 <= j < k :: list[j].Some? ==> list[j].value.id != list[k].value.id
  }

  /** Candidates are keyed and distinct, and each one is the first spec of the list with its id. */
  lemma {:induction false} CandidatesAreFirst(list: seq<Option<Spec>>, keyed: set<string>)
    ensures var out := Collect(list, keyed);
            && Distinct(out)
            && (forall s | s in out :: s.id in keyed && exists k: nat :: k < |list| && FirstAt(list, k) && list[k] == Some(s))
  {
    if list != [] {
      var init, out := list[..|list| - 1], Collect(list, keyed);
      CandidatesAreFirst(init, keyed);
      forall s | s in out
        ensures s.id in keyed && exists k: nat :: k < |list| && FirstAt(list, k) && list[k] == Some(s)
      {
        if s in Collect(init, keyed) {
          var k: nat :| k < |init| && FirstAt(init, k) && init[k] == Some(s);
          assert FirstAt(list, k) && list[k] == Some(s);
        } else {
          NewIsFirst(list, keyed);
        }
      }
    }
  }

  /** Every keyed provider of the list is a candidate, and no other provider is. */
  lemma {:induction false} CandidateIff(list: seq<Option<Spec>>, keyed: set<string>, id: string)
    ensures id in Ids(Collect(list, keyed)) <==>
            id in keyed && exists k: nat :: k < |list| && list[k].Some? && list[k].value.id == id
  {
    if list != [] {
      var init, last := list[..|list| - 1], list[|list| - 1];
      CandidateIff(init, keyed, id);
      var was, out := Collect(init, keyed), Collect(list, keyed);
      assert out != was ==> Ids(out) == Ids(was) + [last.value.id];
      if last.Some? && last.value.id == id {
        assert list[|list| - 1].value.id == id;
      } else {
        assert forall k: nat | k < |init| :: list[k] == init[k];
      }
    }
  }

  lemma {:induction false} FirstAtExtends(list: seq<Option<Spec>>, k: nat)
    requires k < |list| - 1 && FirstAt(list[..|list| - 1], k)
    ensures FirstAt(list, k)
  {
  }

  /** Candidates keep list order. */
  lemma {:induction false} CandidateOrder(list: seq<Option<Spec>>, keyed: set<string>, i: nat, j: nat)
    returns (k: nat, l: nat)
    requires i < j < |Collect(list, keyed)|
    ensures k < l < |list| && FirstAt(list, k) && FirstAt(list, l)
    ensures list[k] == Some(Collect(list, keyed)[i]) && list[l] == Some(Collect(list, keyed)[j])
  {
    var init, out := list[..|list| - 1], Collect(list, keyed);
    var was := Collect(init, keyed);
    if j < |was| {
      k, l := CandidateOrder(init, keyed, i, j);
      FirstAtExtends(list, l);
    } else {
      assert was[i] in was;
      k := PositionOf(init, keyed, was[i]);
      l := |list| - 1;
      NewIsFirst(list, keyed);
    }
    FirstAtExtends(list, k);
  }

  lemma {:induction false} PositionOf(list: seq<Option<Spec>>, keyed: set<string>, s: Spec) returns (k: nat)
    requires s in Collect(list, keyed)
    ensures k < |list| && FirstAt(list, k) && list[k] == Some(s)
  {
    CandidatesAreFirst(list, keyed);
    k :| k < |list| && FirstAt(list, k) && list[k] == Some(s);
  }

  lemma {:induction false} NewIsFirst(list: seq<Option<Spec>>, keyed: set<string>)
    requires list != [] && Collect(list, keyed) != Collect(list[..|list| - 1], keyed)
    ensures FirstAt(list, |list| - 1)
  {
    CandidateIff(list[..|list| - 1], keyed, list[|list| - 1].value.id);
  }

  function Without(specs: seq<Spec>, id: string): seq<Spec> {
    if specs == [] then []
    else
      var init, last := Without(specs[..|specs| - 1], id), specs[|specs| - 1];
      if last.id == id then init else init + [last]
  }

  lemma {:induction false} WithoutIds(specs: seq<Spec>, id: string)
    ensures forall x :: x in Ids(Without(specs, id)) <==> x in Ids(specs) && x != id
  {
    if specs != [] {
      var init, last := specs[..|specs| - 1], specs[|specs| - 1];
      WithoutIds(init, id);
      assert Ids(specs) == Ids(init) + [last.id];
      assert last.id != id ==> Ids(Without(specs, id)) == Ids(Without(init, id)) + [last.id];
    }
  }

  lemma {:induction false} WithoutSnoc(specs: seq<Spec>, last: Spec, id: string)
    ensures Without(specs + [last], id) == if last.id == id then Without(specs, id) else Without(specs, id) + [last]
  {
    assert (specs + [last])[..|specs|] == specs;
  }

  lemma {:induction false} FrontIds(s: Spec, specs: seq<Spec>, id: string)
    ensures id in Ids([s] + Without(specs, s.id)) <==> id == s.id || id in Ids(specs)
  {
    WithoutIds(specs, s.id);
    assert Ids([s] + Without(specs, s.id)) == [s.id] + Ids(Without(specs, s.id));
  }

  lemma {:induction false} FrontStep(s: Spec, was: seq<Spec>, last: Spec)
    ensures var front := [s] + Without(was, s.id);
            (if last.id in Ids(front) then front else front + [last]) ==
            [s] + Without(if last.id in Ids(was) then was else was + [last], s.id)
  {
    FrontIds(s, was, last.id);
    WithoutSnoc(was, last, s.id);
  }

  lemma {:induction false} FrontMoves(s: Spec, list: seq<Option<Spec>>, keyed: set<string>)
    requires s.id in keyed
    ensures Collect([Some(s)] + list, keyed) == [s] + Without(Collect(list, keyed), s.id)
  {
    if list == [] {
      assert ([Some(s)] + list)[..0] == [];
    } else {
      var init, last := list[..|list| - 1], list[|list| - 1];
      FrontMoves(s, init, keyed);
      assert ([Some(s)] + list)[..|list|] == [Some(s)] + init;
      if last.Some? && last.value.id in keyed {
        FrontStep(s, Collect(init, keyed), last.value);
      }
    }
  }

  /** A pin moves its provider to the front when that provider is known and keyed, and changes nothing otherwise. */
  lemma {:induction false} PinMovesToFront(catalog: Catalog, pin: string, specs: seq<Option<Spec>>, keyed: set<string>)
    ensures var rest := Candidates(catalog, "", specs, keyed);
            var pinned := catalog.SpecByID(catalog.ResolveID(pin));
            Candidates(catalog, pin, specs, keyed) ==
            if pin != "" && catalog.ResolveID(pin) != "" && pinned.Some? && pinned.value.id in keyed
            then [pinned.value] + Without(rest, pinned.value.id)
            else rest
  {
    if pin != "" && catalog.ResolveID(pin) != "" {
      var pinned := catalog.SpecByID(catalog.ResolveID(pin));
      if pinned.Some? && pinned.value.id in keyed {
        FrontMoves(pinned.value, specs, keyed);
      } else {
        FrontIgnored(pinned, specs, keyed);
      }
    }
  }

  lemma {:induction false} FrontIgnored(front: Option<Spec>, list: seq<Option<Spec>>, keyed: set<string>)
    requires front.Some? ==> front.value.id !in keyed
    ensures Collect([front] + list, keyed) == Collect(list, keyed)
  {
    if list == [] {
      assert ([front] + list)[..0] == [];
    } else {
      FrontIgnored(front, list[..|list| - 1], keyed);
      assert ([front] + list)[..|list|] == [front] + list[..|list| - 1];
    }
  }

  // ----- Cooldown filter over specs -----

  function RoutableSpecs(reg: Registry, now: int, specs: seq<Spec>): seq<Spec> {
    if specs == [] then []
    else
      var init, last := RoutableSpecs(reg, now, specs[..|specs| - 1]), specs[|specs| - 1];
      if Routable(Get(reg, last.id), now) then init + [last] else init
  }

  /** The providers a call tries: the routable candidates, or all of them when none is routable. */
  function Chain(reg: Registry, now: int, specs: seq<Spec>): seq<Spec> {
    if RoutableSpecs(reg, now, specs) == [] then specs else RoutableSpecs(reg, now, specs)
  }

  lemma {:induction false} HealthyIds(reg: Registry, now: int, specs: seq<Spec>)
    ensures Healthy(reg, now, Ids(specs)) == Ids(RoutableSpecs(reg, now, specs))
  {
    if specs != [] {
      var init, last := specs[..|specs| - 1], specs[|specs| - 1];
      HealthyIds(reg, now, init);
      assert Ids(specs)[..|specs| - 1] == Ids(init);
      assert Ids(RoutableSpecs(reg, now, init) + [last]) == Ids(RoutableSpecs(reg, now, init)) + [last.id];
    }
  }

  lemma {:induction false} FilteredIds(reg: Registry, now: int, specs: seq<Spec>)
    ensures Filtered(reg, now, Ids(specs)) == Ids(Chain(reg, now, specs))
  {
    HealthyIds(reg, now, specs);
  }

  lemma {:induction false} RoutableMembers(reg: Registry, now: int, specs: seq<Spec>, s: Spec)
    ensures s in RoutableSpecs(reg, now, specs) <==> s in specs && Routable(Get(reg, s.id), now)
  {
    if specs != [] {
      var init, last := specs[..|specs| - 1], specs[|specs| - 1];
      RoutableMembers(reg, now, init, s);
      assert specs == init + [last];
    }
  }

  lemma {:induction false} RoutableIsDistinct(reg: Registry, now: int, specs: seq<Spec>)
    requires Distinct(specs)
    ensures Distinct(RoutableSpecs(reg, now, specs))
  {
    if specs != [] {
      var init, last := specs[..|specs| - 1], specs[|specs| - 1];
      RoutableIsDistinct(reg, now, init);
      forall s | s in RoutableSpecs(reg, now, init) ensures s.id != last.id {
        RoutableMembers(reg, now, init, s);
      }
    }
  }

  lemma {:induction false} ChainIsDistinct(reg: Registry, now: int, specs: seq<Spec>)
    requires Distinct(specs)
    ensures Distinct(Chain(reg, now, specs))
    ensures forall s | s in Chain(reg, now, specs) :: s in specs
  {
    RoutableIsDistinct(reg, now, specs);
    forall s | s in RoutableSpecs(reg, now, specs) ensures s in specs {
      RoutableMembers(reg, now, specs, s);
    }
  }

  // ----- One call -----

  function FailEvent(s: Spec, a: Attempt, now: int): seq<Event> {
    match a
    case BuildError(_) => [Failure(s.id, SERVER, now)]
    case CallError(_, failClass) => [Failure(s.id, failClass, now)]
    case _ => []
  }

  /** Position of the first spec that answers, the length when none does. */
  function Winner(chain: seq<Spec>, attempt: Spec -> Attempt): (w: nat)
    ensures w <= |chain|
    ensures forall i | 0 <= i < w :: !attempt(chain[i]).Answer?
    ensures w < |chain| ==> attempt(chain[w]).Answer?
  {
    if chain == [] then 0
    else
      var w := Winner(chain[..|chain| - 1], attempt);
      if w < |chain| - 1 then w
      else if attempt(chain[|chain| - 1]).Answer? then |chain| - 1
      else |chain|
  }

  function Failures(tried: seq<Spec>, attempt: Spec -> Attempt, clock: nat -> int): seq<Event> {
    if tried == [] then []
    else
      var k := |tried| - 1;
      Failures(tried[..k], attempt, clock) + FailEvent(tried[k], attempt(tried[k]), clock(k))
  }

  /** What one call reports to the registry, in order. */
  function Report(chain: seq<Spec>, attempt: Spec -> Attempt, clock: nat -> int): seq<Event> {
    var w := Winner(chain, attempt);
    Failures(chain[..w], attempt, clock) + (if w < |chain| then [Success(chain[w].id, clock(w))] else [])
  }

  function LastError(tried: seq<Spec>, attempt: Spec -> Attempt): Option<Attempt> {
    if tried == [] then None
    else
      var a := attempt(tried[|tried| - 1]);
      if a.BuildError? || a.CallError? then Some(a) else LastError(tried[..|tried| - 1], attempt)
  }

  function OutcomeOf(chain: seq<Spec>, attempt: Spec -> Attempt): Outcome {
    var w := Winner(chain, attempt);
    if chain == [] then NoCandidates
    else if w < |chain| then Answered(attempt(chain[w]).response)
    else AllFailed(|chain|, LastError(chain, attempt))
  }

  /** The id of the provider behind the latest answer. */
  function LastProvider(chain: seq<Spec>, attempt: Spec -> Attempt, was: string): string {
    var w := Winner(chain, attempt);
    if w < |chain| then chain[w].id else was
  }

  lemma {:induction false} LastErrorStep(chain: seq<Spec>, attempt: Spec -> Attempt, i: nat)
    requires i < |chain|
    ensures LastError(chain[..i + 1], attempt) ==
            if attempt(chain[i]).BuildError? || attempt(chain[i]).CallError? then Some(attempt(chain[i]))
            else LastError(chain[..i], attempt)
  {
    assert chain[..i + 1][..i] == chain[..i];
  }

  lemma {:induction false} ApplyAllConcat(p: Policy, reg: Registry, a: seq<Event>, b: seq<Event>)
    ensures ApplyAll(p, reg, a + b) == ApplyAll(p, ApplyAll(p, reg, a), b)
    decreases |b|
  {
    if b == [] {
      assert a + b == a;
    } else {
      ApplyAllConcat(p, reg, a, b[..|b| - 1]);
      assert (a + b)[..|a + b| - 1] == a + b[..|b| - 1];
    }
  }

  lemma {:induction false} ApplyOne(p: Policy, reg: Registry, ev: Event)
    ensures ApplyAll(p, reg, [ev]) == Apply(p, reg, ev)
  {
    assert [ev][..0] == [];
  }

  lemma {:induction false} WinnerIs(chain: seq<Spec>, attempt: Spec -> Attempt, w: nat)
    requires w <= |chain|
    requires forall i | 0 <= i < w :: !attempt(chain[i]).Answer?
    requires w < |chain| ==> attempt(chain[w]).Answer?
    ensures Winner(chain, attempt) == w
  {
  }

  /** Reporting attempt i on top of the earlier ones. */
  lemma {:induction false} ReportStep(
    p: Policy, reg: Registry, chain: seq<Spec>, attempt: Spec -> Attempt, clock: nat -> int, i: nat)
    requires i < |chain|
    ensures var before := ApplyAll(p, reg, Failures(chain[..i], attempt, clock));
            var evs := FailEvent(chain[i], attempt(chain[i]), clock(i));
            ApplyAll(p, reg, Failures(chain[..i + 1], attempt, clock)) ==
            if evs == [] then before else Apply(p, before, evs[0])
  {
    assert chain[..i + 1][..i] == chain[..i];
    var evs := FailEvent(chain[i], attempt(chain[i]), clock(i));
    ApplyAllConcat(p, reg, Failures(chain[..i], attempt, clock), evs);
    if evs != [] {
      ApplyOne(p, ApplyAll(p, reg, Failures(chain[..i], attempt, clock)), evs[0]);
    }
  }

  lemma {:induction false} ReportWin(
    p: Policy, reg: Registry, chain: seq<Spec>, attempt: Spec -> Attempt, clock: nat -> int)
    requires Winner(chain, attempt) < |chain|
    ensures var w := Winner(chain, attempt);
            ApplyAll(p, reg, Report(chain, attempt, clock)) ==
            Apply(p, ApplyAll(p, reg, Failures(chain[..w], attempt, clock)), Success(chain[w].id, clock(w)))
  {
    var w := Winner(chain, attempt);
    ApplyAllConcat(p, reg, Failures(chain[..w], attempt, clock), [Success(chain[w].id, clock(w))]);
    ApplyOne(p, ApplyAll(p, reg, Failures(chain[..w], attempt, clock)), Success(chain[w].id, clock(w)));
  }

  lemma {:induction false} ReportFirst(
    p: Policy, reg: Registry, chain: seq<Spec>, attempt: Spec -> Attempt, clock: nat -> int, i: nat)
    requires i < |chain| && attempt(chain[i]).Answer? && forall j | 0 <= j < i :: !attempt(chain[j]).Answer?
    ensures ApplyAll(p, reg, Report(chain, attempt, clock)) ==
            Apply(p, ApplyAll(p, reg, Failures(chain[..i], attempt, clock)), Success(chain[i].id, clock(i)))
  {
    WinnerIs(chain, attempt, i);
    ReportWin(p, reg, chain, attempt, clock);
  }

  lemma {:induction false} ReportLose(chain: seq<Spec>, attempt: Spec -> Attempt, clock: nat -> int)
    requires Winner(chain, attempt) == |chain|
    ensures Report(chain, attempt, clock) == Failures(chain, attempt, clock)
  {
    assert chain[..|chain|] == chain;
  }

  lemma {:induction false} AllTried(chain: seq<Spec>, attempt: Spec -> Attempt, clock: nat -> int, was: string)
    requires chain != [] && forall j | 0 <= j < |chain| :: !attempt(chain[j]).Answer?
    ensures OutcomeOf(chain, attempt) == AllFailed(|chain|, LastError(chain[..|chain|], attempt))
    ensures Report(chain, attempt, clock) == Failures(chain[..|chain|], attempt, clock)
    ensures LastProvider(chain, attempt, was) == was
  {
    assert chain[..|chain|] == chain;
    WinnerIs(chain, attempt, |chain|);
    ReportLose(chain, attempt, clock);
  }

  lemma {:induction false} ApplyIsLocal(p: Policy, reg: Registry, was: Registry, ev: Event, id: string)
    requires Get(reg, id) == Get(was, id)
    ensures Get(Apply(p, reg, ev), id) == if ev.id == id then Get(Apply(p, was, ev), id) else Get(was, id)
  {
  }

  /** The one change that attempt i makes to its own provider's health. */
  function Charged(p: Policy, reg: Registry, s: Spec, a: Attempt, now: int): ProviderHealth {
    var evs := FailEvent(s, a, now);
    if evs == [] then Get(reg, s.id) else Get(Apply(p, reg, evs[0]), s.id)
  }

  lemma {:induction false} FailureStepEffect(
    p: Policy, reg: Registry, chain: seq<Spec>, attempt: Spec -> Attempt, clock: nat -> int, k: nat, id: string)
    requires k < |chain|
    ensures var before := ApplyAll(p, reg, Failures(chain[..k], attempt, clock));
            var after := ApplyAll(p, reg, Failures(chain[..k + 1], attempt, clock));
            Get(before, id) == Get(reg, id) || chain[k].id != id ==>
            Get(after, id) ==
            if chain[k].id == id then Charged(p, reg, chain[k], attempt(chain[k]), clock(k)) else Get(before, id)
  {
    var before := ApplyAll(p, reg, Failures(chain[..k], attempt, clock));
    ReportStep(p, reg, chain, attempt, clock, k);
    var evs := FailEvent(chain[k], attempt(chain[k]), clock(k));
    if evs != [] {
      if chain[k].id != id {
        ApplyIsLocal(p, before, before, evs[0], id);
      } else if Get(before, id) == Get(reg, id) {
        ApplyIsLocal(p, before, reg, evs[0], id);
      }
    }
  }

  lemma {:induction false} NotTried(
    p: Policy, reg: Registry, chain: seq<Spec>, attempt: Spec -> Attempt, clock: nat -> int, n: nat, id: string)
    requires n <= |chain| && forall i: nat | i < n :: chain[i].id != id
    ensures Get(ApplyAll(p, reg, Failures(chain[..n], attempt, clock)), id) == Get(reg, id)
  {
    if n > 0 {
      NotTried(p, reg, chain, attempt, clock, n - 1, id);
      FailureStepEffect(p, reg, chain, attempt, clock, n - 1, id);
    }
  }

  lemma {:induction false} TriedOnce(
    p: Policy, reg: Registry, chain: seq<Spec>, attempt: Spec -> Attempt, clock: nat -> int, n: nat, i: nat)
    requires Distinct(chain) && i < n <= |chain|
    ensures Get(ApplyAll(p, reg, Failures(chain[..n], attempt, clock)), chain[i].id) ==
            Charged(p, reg, chain[i], attempt(chain[i]), clock(i))
  {
    if i == n - 1 {
      TriedLast(p, reg, chain, attempt, clock, i);
    } else {
      TriedOnce(p, reg, chain, attempt, clock, n - 1, i);
      OtherUnaffected(p, reg, chain, attempt, clock, n, i);
    }
  }

  lemma {:induction false} OtherUnaffected(
    p: Policy, reg: Registry, chain: seq<Spec>, attempt: Spec -> Attempt, clock: nat -> int, n: nat, i: nat)
    requires Distinct(chain) && i < n - 1 < |chain|
    ensures Get(ApplyAll(p, reg, Failures(chain[..n], attempt, clock)), chain[i].id) ==
            Get(ApplyAll(p, reg, Failures(chain[..n - 1], attempt, clock)), chain[i].id)
  {
    assert chain[i].id != chain[n - 1].id;
    FailureStepEffect(p, reg, chain, attempt, clock, n - 1, chain[i].id);
  }

  lemma {:induction false} TriedLast(
    p: Policy, reg: Registry, chain: seq<Spec>, attempt: Spec -> Attempt, clock: nat -> int, i: nat)
    requires Distinct(chain) && i < |chain|
    ensures Get(ApplyAll(p, reg, Failures(chain[..i + 1], attempt, clock)), chain[i].id) ==
            Charged(p, reg, chain[i], attempt(chain[i]), clock(i))
  {
    NotTried(p, reg, chain, attempt, clock, i, chain[i].id);
    FailureStepEffect(p, reg, chain, attempt, clock, i, chain[i].id);
  }

  /** A call charges each failed provider with its one failure, resets the winner, and leaves everyone else alone. */
  lemma {:induction false} CallEffect(
    p: Policy, reg: Registry, chain: seq<Spec>, attempt: Spec -> Attempt, clock: nat -> int, i: nat)
    requires Distinct(chain) && i < |chain|
    ensures var w := Winner(chain, attempt);
            Get(ApplyAll(p, reg, Report(chain, attempt, clock)), chain[i].id) ==
            if i < w then Charged(p, reg, chain[i], attempt(chain[i]), clock(i))
            else if i == w then ProviderHealth(map[], None, VALID, Some(clock(w)))
            else Get(reg, chain[i].id)
  {
    var w, id := Winner(chain, attempt), chain[i].id;
    if i < w {
      TriedOnce(p, reg, chain, attempt, clock, w, i);
    } else {
      NotTried(p, reg, chain, attempt, clock, w, id);
    }
    if w < |chain| {
      ReportWin(p, reg, chain, attempt, clock);
      var before := ApplyAll(p, reg, Failures(chain[..w], attempt, clock));
      ApplyIsLocal(p, before, before, Success(chain[w].id, clock(w)), id);
    } else {
      ReportLose(chain, attempt, clock);
      assert chain[..w] == chain;
    }
  }

  /** What a call does to each provider it tried in vain, by the way its attempt failed. */
  lemma {:induction false} CallPenalises(
    p: Policy, reg: Registry, chain: seq<Spec>, attempt: Spec -> Attempt, clock: nat -> int, i: nat)
    requires Distinct(chain) && i < |chain| && forall j | 0 <= j <= i :: !attempt(chain[j]).Answer?
    ensures var was, next := Get(reg, chain[i].id), Get(ApplyAll(p, reg, Report(chain, attempt, clock)), chain[i].id);
            match attempt(chain[i])
            case KeyGone => next == was
            case BuildError(_) => Penalised(p, was, next, "server", clock(i))
            case CallError(_, failClass) => Penalised(p, was, next, failClass, clock(i))
            case Answer(_) => false
  {
    CallEffect(p, reg, chain, attempt, clock, i);
    assert i < Winner(chain, attempt);
    match attempt(chain[i])
    case CallError(_, failClass) => FailurePenalises(p, reg, chain[i].id, failClass, clock(i));
    case BuildError(_) => FailurePenalises(p, reg, chain[i].id, "server", clock(i));
    case _ =>
  }

  lemma {:induction false} CallLeavesOthers(
    p: Policy, reg: Registry, chain: seq<Spec>, attempt: Spec -> Attempt, clock: nat -> int, id: string)
    requires Distinct(chain) && id !in Ids(chain)
    ensures Get(ApplyAll(p, reg, Report(chain, attempt, clock)), id) == Get(reg, id)
  {
    var w := Winner(chain, attempt);
    assert forall i: nat | i < |chain| :: Ids(chain)[i] == chain[i].id;
    NotTried(p, reg, chain, attempt, clock, w, id);
    if w < |chain| {
      ReportWin(p, reg, chain, attempt, clock);
    } else {
      ReportLose(chain, attempt, clock);
      assert chain[..w] == chain;
    }
  }

  /** The first provider that answers decides the outcome and is remembered. */
  lemma {:induction false} FirstAnswerWins(chain: seq<Spec>, attempt: Spec -> Attempt, i: nat, was: string)
    requires i < |chain| && attempt(chain[i]).Answer? && forall j | 0 <= j < i :: !attempt(chain[j]).Answer?
    ensures OutcomeOf(chain, attempt) == Answered(attempt(chain[i]).response)
    ensures LastProvider(chain, attempt, was) == chain[i].id
  {
    WinnerIs(chain, attempt, i);
  }

  /** Position of the last attempt that failed with an error, -1 if every key was gone. */
  ghost predicate IsLastError(tried: seq<Spec>, attempt: Spec -> Attempt, i: int) {
    && -1 <= i < |tried| && (i >= 0 ==> !attempt(tried[i]).KeyGone?)
    && forall j | i < j < |tried| :: attempt(tried[j]).KeyGone?
  }

  lemma {:induction false} LastErrorAt(tried: seq<Spec>, attempt: Spec -> Attempt) returns (i: int)
    requires forall s | s in tried :: !attempt(s).Answer?
    ensures IsLastError(tried, attempt, i)
    ensures LastError(tried, attempt) == if i < 0 then None else Some(attempt(tried[i]))
  {
    if tried == [] {
      i := -1;
    } else {
      var init, last := tried[..|tried| - 1], tried[|tried| - 1];
      assert last in tried;
      i := if attempt(last).KeyGone? then -1 else |tried| - 1;
      if attempt(last).KeyGone? {
        i := LastErrorAt(init, attempt);
      }
    }
  }

  /** When nobody answers, all attempts are counted and the last error is reported. */
  lemma {:induction false} NoAnswerReports(chain: seq<Spec>, attempt: Spec -> Attempt, was: string) returns (i: int)
    requires chain != [] && forall s | s in chain :: !attempt(s).Answer?
    ensures IsLastError(chain, attempt, i)
    ensures OutcomeOf(chain, attempt) == AllFailed(|chain|, if i < 0 then None else Some(attempt(chain[i])))
    ensures LastProvider(chain, attempt, was) == was
  {
    WinnerIs(chain, attempt, |chain|);
    i := LastErrorAt(chain, attempt);
  }

  predicate Open(reg: Registry, now: int, s: Spec) {
    Routable(Get(reg, s.id), now)
  }

  /** A call is answered iff some candidate answers that is routable, or is not routable but neither is any other. */
  lemma {:induction false} AnsweredIff(reg: Registry, now: int, candidates: seq<Spec>, attempt: Spec -> Attempt)
    ensures OutcomeOf(Chain(reg, now, candidates), attempt).Answered? <==>
            exists s | s in candidates :: attempt(s).Answer? &&
              (Open(reg, now, s) || forall t | t in candidates :: !Open(reg, now, t))
    ensures OutcomeOf(Chain(reg, now, candidates), attempt).NoCandidates? <==> candidates == []
  {
    forall s ensures s in RoutableSpecs(reg, now, candidates) <==> s in candidates && Open(reg, now, s) {
      RoutableMembers(reg, now, candidates, s);
    }
    var open, chain := RoutableSpecs(reg, now, candidates), Chain(reg, now, candidates);
    var w := Winner(chain, attempt);
    if open != [] {
      assert open[0] in open && Open(reg, now, open[0]);
    } else {
      forall t | t in candidates ensures !Open(reg, now, t) {
        assert t !in open;
      }
    }
    if w < |chain| {
      assert chain[w] in chain && attempt(chain[w]).Answer?;
    } else {
      assert forall s | s in chain :: !attempt(s).Answer?;
    }
  }

  /** The candidates behind a list of ids. */
  function Picked(candidates: seq<Spec>, kept: seq<string>): seq<Spec> {
    if kept == [] then []
    else
      var init, s := Picked(candidates, kept[..|kept| - 1]), FirstWithId(candidates, kept[|kept| - 1]);
      if s.Some? then init + [s.value] else init
  }

  lemma {:induction false} FirstSnoc(specs: seq<Spec>, s: Spec, id: string)
    ensures FirstWithId(specs + [s], id) ==
            if FirstWithId(specs, id).Some? then FirstWithId(specs, id) else if s.id == id then Some(s) else None
  {
    if specs == [] {
      assert specs + [s] == [s] && [s][1..] == [];
    } else {
      assert (specs + [s])[1..] == specs[1..] + [s];
      FirstSnoc(specs[1..], s, id);
    }
  }

  lemma {:induction false} PickedStep(candidates: seq<Spec>, kept: seq<string>, i: nat)
    requires i < |kept|
    ensures var init, s := Picked(candidates, kept[..i]), FirstWithId(candidates, kept[i]);
            Picked(candidates, kept[..i + 1]) == if s.Some? then init + [s.value] else init
  {
    assert kept[..i + 1][..i] == kept[..i];
  }

  /** byID finds what a search through the specs finds. */
  ghost predicate Maps(byID: map<string, Spec>, specs: seq<Spec>) {
    forall x :: FirstWithId(specs, x) == if x in byID then Some(byID[x]) else None
  }

  lemma {:induction false} MapsStep(byID: map<string, Spec>, specs: seq<Spec>, i: nat)
    requires i < |specs| && Distinct(specs) && Maps(byID, specs[..i])
    ensures Maps(byID[specs[i].id := specs[i]], specs[..i + 1])
  {
    var seen, next := specs[..i + 1], byID[specs[i].id := specs[i]];
    assert seen == specs[..i] + [specs[i]];
    forall x ensures FirstWithId(seen, x) == if x in next then Some(next[x]) else None {
      FirstSnoc(specs[..i], specs[i], x);
    }
  }

  /** The kept candidates, through the map by id that a call builds. */
  method Narrow(candidates: seq<Spec>, kept: seq<string>) returns (filtered: seq<Spec>)
    requires Distinct(candidates)
    ensures filtered == Picked(candidates, kept)
  {
    var byID: map<string, Spec> := map[];
    for i := 0 to |candidates|
      invariant Maps(byID, candidates[..i])
    {
      MapsStep(byID, candidates, i);
      byID := byID[candidates[i].id := candidates[i]];
    }
    assert candidates[..|candidates|] == candidates;
    filtered := [];
    for i := 0 to |kept|
      invariant filtered == Picked(candidates, kept[..i])
    {
      PickedStep(candidates, kept, i);
      assert FirstWithId(candidates, kept[i]) == if kept[i] in byID then Some(byID[kept[i]]) else None;
      if kept[i] in byID {
        filtered := filtered + [byID[kept[i]]];
      }
    }
    assert kept[..|kept|] == kept;
  }

  lemma {:induction false} FirstIsIt(specs: seq<Spec>, s: Spec)
    requires Distinct(specs) && s in specs
    ensures FirstWithId(specs, s.id) == Some(s)
  {
    var f := FirstWithId(specs, s.id);
    var i :| 0 <= i < |specs| && specs[i] == s;
    assert f.Some?;
    var j :| 0 <= j < |specs| && specs[j] == f.value;
  }

  /** Going from candidates to ids and back loses nothing, because ids are distinct. */
  lemma {:induction false} PickedIds(candidates: seq<Spec>, chosen: seq<Spec>)
    requires Distinct(candidates) && forall s | s in chosen :: s in candidates
    ensures Picked(candidates, Ids(chosen)) == chosen
  {
    if chosen != [] {
      var init, last := chosen[..|chosen| - 1], chosen[|chosen| - 1];
      PickedIds(candidates, init);
      assert Ids(chosen)[..|chosen| - 1] == Ids(init);
      assert last in chosen;
      FirstIsIt(candidates, last);
      assert chosen == init + [last];
    }
  }

  class FailoverClient {
    const catalog: Catalog
    const specs: seq<Option<Spec>>
    const pin: string
    const health: HealthRegistry?
    var lastProviderID: string

    constructor (catalog: Catalog, specs: seq<Option<Spec>>, pin: string, health: HealthRegistry?)
      ensures this.catalog == catalog && this.specs == specs && this.pin == pin && this.health == health
      ensures lastProviderID == ""
    {
      this.catalog, this.specs, this.pin, this.health := catalog, specs, pin, health;
      lastProviderID := "";
    }

    /** The specs a call made now would try, in order. */
    function Route(keyed: set<string>, now: int): seq<Spec>
      reads if health == null then {} else {health}
    {
      var candidates := Candidates(catalog, pin, specs, keyed);
      if health == null then candidates else Chain(health.providers, now, candidates)
    }

    method SelectChain(keyed: set<string>, now: int) returns (chain: seq<Spec>)
      ensures chain == Route(keyed, now)
    {
      chain := OrderedCandidates(catalog, pin, specs, keyed);
      if |chain| == 0 || health == null {
        return;
      }
      CandidatesAreFirst(Listed(catalog, pin, specs), keyed);
      ChainIsDistinct(health.providers, now, chain);
      FilteredIds(health.providers, now, chain);
      PickedIds(chain, Chain(health.providers, now, chain));
      var kept := health.FilterCandidates(Ids(chain), now);
      chain := Narrow(chain, kept);
    }

    /** Charge a failed attempt to its provider; a key that is gone is nobody's failure. */
    method ReportFailure(spec: Spec, a: Attempt, now: int)
      requires health != null && !a.Answer?
      modifies health
      ensures var evs := FailEvent(spec, a, now);
              health.providers ==
              if evs == [] then old(health.providers) else Apply(health.policy, old(health.providers), evs[0])
    {
      match a {
        case BuildError(_) => health.RecordFailure(spec.id, SERVER, now);
        case CallError(_, failClass) => health.RecordFailure(spec.id, failClass, now);
        case _ =>
      }
    }

    /** Try the chain in order; clock(k) is the time at which attempt k is reported. */
    method TryInOrder(chain: seq<Spec>, attempt: Spec -> Attempt, clock: nat -> int) returns (r: Outcome)
      requires chain != []
      modifies this`lastProviderID, health
      ensures r == OutcomeOf(chain, attempt)
      ensures health != null ==>
                health.providers == ApplyAll(health.policy, old(health.providers), Report(chain, attempt, clock))
      ensures lastProviderID == LastProvider(chain, attempt, old(lastProviderID))
    {
      var lastErr: Option<Attempt> := None;
      for i := 0 to |chain|
        invariant forall j | 0 <= j < i :: !attempt(chain[j]).Answer?
        invariant lastErr == LastError(chain[..i], attempt)
        invariant lastProviderID == old(lastProviderID)
        invariant health != null ==>
                    health.providers == ApplyAll(health.policy, old(health.providers), Failures(chain[..i], attempt, clock))
      {
        var spec := chain[i];
        var a := attempt(spec);
        if a.Answer? {
          FirstAnswerWins(chain, attempt, i, lastProviderID);
          if health != null {
            ReportFirst(health.policy, old(health.providers), chain, attempt, clock, i);
            health.RecordSuccess(spec.id, clock(i));
          }
          lastProviderID := spec.id;
          return Answered(a.response);
        }
        LastErrorStep(chain, attempt, i);
        if !a.KeyGone? {
          lastErr := Some(a);
        }
        if health != null {
          ReportStep(health.policy, old(health.providers), chain, attempt, clock, i);
          ReportFailure(spec, a, clock(i));
        }
      }
      AllTried(chain, attempt, clock, lastProviderID);
      return AllFailed(|chain|, lastErr);
    }

    method Judge(keyed: set<string>, attempt: Spec -> Attempt, now: int, clock: nat -> int) returns (r: Outcome)
      modifies this`lastProviderID, health
      ensures r == OutcomeOf(old(Route(keyed, now)), attempt)
      ensures health != null ==>
                health.providers == ApplyAll(health.policy, old(health.providers), Report(old(Route(keyed, now)), attempt, clock))
      ensures lastProviderID == LastProvider(old(Route(keyed, now)), attempt, old(lastProviderID))
    {
      var chain := SelectChain(keyed, now);
      if |chain| == 0 {
        return NoCandidates;
      }
      r := TryInOrder(chain, attempt, clock);
    }
  }
}
