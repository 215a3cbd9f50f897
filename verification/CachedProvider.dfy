/** The caching provider: any number of concurrent callers, one lock, single-flight inner calls. */
module CachedProvider {
  import opened Wrappers
  import opened LruCache
  import opened LruTheorems

  datatype Outcome = Success(score: Score) | Failure

  /**
   * Where a caller is inside Score. Everything from Locked to Unlocking runs with the lock held; a caller that
   * is Leaving has been counted and has let go of the lock, but has not returned yet.
   */
  datatype Pc =
    | Idle
    | Fast(key: Key)
    | FastHit(key: Key, score: Score)
    | WantLock(key: Key)
    | Locked(key: Key)
    | SlowHit(key: Key, score: Score)
    | Missed(key: Key)
    | Waiting(key: Key, call: nat)
    | Won(key: Key, call: nat)
    | Calling(key: Key, call: nat)
    | Answered(key: Key, call: nat, out: Outcome)
    | Published(key: Key, call: nat, out: Outcome)
    | Closed(key: Key, out: Outcome)
    | Unlocking(key: Key, out: Outcome)
    | Leaving(key: Key, out: Outcome)
  {
    predicate HoldsLock() {
      !Idle? && !Fast? && !FastHit? && !WantLock? && !Leaving?
    }
  }

  datatype Config = Config(cap: nat, ttl: int)
  {
    /** What the two constructors insist on. */
    predicate Valid() {
      cap > 0 && ttl > 0
    }
  }

  datatype Stats = Stats(hits: nat, misses: nat, waiters: nat, innerErrors: nat, puts: nat, cacheErrors: nat)

  datatype Call = Call(key: Key, out: Outcome)

  /** log, returned, stored and removed are history: they record the run and steer nothing. */
  datatype State = State(
    pcs: seq<Pc>,
    lock: Option<nat>,
    inflight: map<Key, nat>,
    calls: seq<Option<Outcome>>,
    cache: seq<Entry>,
    stats: Stats,
    log: seq<Call>,
    returned: seq<Call>,
    stored: multiset<string>,
    removed: multiset<string>)

  function Init(callers: nat): State {
    State(seq(callers, _ => Idle), None, map[], [], [], Stats(0, 0, 0, 0, 0, 0), [], [], multiset{}, multiset{})
  }

  /** The counters of errors and puts, which nobody else can touch, change with the step beside them. */
  datatype Event =
    | Enter(key: Key)
    | FastLook(now: int)
    | CountHit
    | Acquire
    | SlowGet(now: int)
    | CountSlowHit
    | LoadOrStore
    | CountMiss
    | Wake
    | Reply(out: Outcome)
    | WriteThrough(now: int)
    | CloseDone
    | Delete
    | Unlock
    | Return
  {
    /** A step that neither needs the lock nor touches it. */
    predicate Outside() {
      Enter? || FastLook? || CountHit? || Return?
    }
  }

  predicate Enabled(s: State, c: nat, ev: Event) {
    c < |s.pcs| &&
    var pc := s.pcs[c];
    match ev
    case Enter(_) => pc.Idle?
    case FastLook(_) => pc.Fast?
    case CountHit => pc.FastHit?
    case Acquire => pc.WantLock? && s.lock.None?
    case SlowGet(_) => pc.Locked?
    case CountSlowHit => pc.SlowHit?
    case LoadOrStore => pc.Missed?
    case CountMiss => pc.Won?
    case Wake => pc.Waiting? && pc.call < |s.calls| && s.calls[pc.call].Some?
    case Reply(_) => pc.Calling?
    case WriteThrough(_) => pc.Answered?
    case CloseDone => pc.Published? && pc.call < |s.calls|
    case Delete => pc.Closed?
    case Unlock => pc.Unlocking?
    case Return => pc.Leaving?
  }

  /** Where the caller goes. */
  function NextPc(s: State, c: nat, ev: Event): Pc
    requires Enabled(s, c, ev)
  {
    var pc := s.pcs[c];
    match ev
    case Enter(key) => Fast(key)
    case FastLook(now) =>
      var r := GetResult(s.cache, pc.key, now);
      if r.Some? then FastHit(pc.key, r.value) else WantLock(pc.key)
    case CountHit => Leaving(pc.key, Success(pc.score))
    case Acquire => Locked(pc.key)
    case SlowGet(now) =>
      var r := GetResult(s.cache, pc.key, now);
      if r.Some? then SlowHit(pc.key, r.value) else Missed(pc.key)
    case CountSlowHit => Unlocking(pc.key, Success(pc.score))
    case LoadOrStore =>
      if pc.key in s.inflight then Waiting(pc.key, s.inflight[pc.key]) else Won(pc.key, |s.calls|)
    case CountMiss => Calling(pc.key, pc.call)
    case Wake => Unlocking(pc.key, s.calls[pc.call].value)
    case Reply(out) => Answered(pc.key, pc.call, out)
    case WriteThrough(_) => Published(pc.key, pc.call, pc.out)
    case CloseDone => Closed(pc.key, pc.out)
    case Delete => Unlocking(pc.key, pc.out)
    case Unlock => Leaving(pc.key, pc.out)
    case Return => Idle
  }

  // What the step does to each variable the callers share.

  function LockAfter(s: State, c: nat, ev: Event): Option<nat> {
    if ev.Acquire? then Some(c) else if ev.Unlock? then None else s.lock
  }

  function InflightAfter(s: State, c: nat, ev: Event): map<Key, nat>
    requires Enabled(s, c, ev)
  {
    var pc := s.pcs[c];
    match ev
    case LoadOrStore => if pc.key in s.inflight then s.inflight else s.inflight[pc.key := |s.calls|]
    case Delete => s.inflight - {pc.key}
    case _ => s.inflight
  }

  function CallsAfter(s: State, c: nat, ev: Event): seq<Option<Outcome>>
    requires Enabled(s, c, ev)
  {
    var pc := s.pcs[c];
    match ev
    case LoadOrStore => if pc.key in s.inflight then s.calls else s.calls + [None]
    case CloseDone => s.calls[pc.call := Some(pc.out)]
    case _ => s.calls
  }

  /** Only a success under a valid key reaches the cache. */
  predicate Stores(s: State, c: nat, ev: Event)
    requires Enabled(s, c, ev)
  {
    ev.WriteThrough? && s.pcs[c].out.Success? && s.pcs[c].key.Valid()
  }

  function CacheAfter(cfg: Config, s: State, c: nat, ev: Event): seq<Entry>
    requires Enabled(s, c, ev)
  {
    var pc := s.pcs[c];
    match ev
    case FastLook(now) => GetState(s.cache, pc.key, now)
    case SlowGet(now) => GetState(s.cache, pc.key, now)
    case WriteThrough(now) =>
      if Stores(s, c, ev) then PutState(cfg.cap, s.cache, pc.key, pc.out.score, cfg.ttl, now) else s.cache
    case _ => s.cache
  }

  function StatsAfter(s: State, c: nat, ev: Event): Stats
    requires Enabled(s, c, ev)
  {
    var pc, n := s.pcs[c], s.stats;
    match ev
    case CountHit => n.(hits := n.hits + 1)
    case CountSlowHit => n.(hits := n.hits + 1)
    case LoadOrStore => if pc.key in s.inflight then n.(waiters := n.waiters + 1) else n
    case CountMiss => n.(misses := n.misses + 1)
    case Reply(out) => if out.Failure? then n.(innerErrors := n.innerErrors + 1) else n
    case WriteThrough(_) =>
      if pc.out.Failure? then n
      else n.(puts := n.puts + 1, cacheErrors := n.cacheErrors + if pc.key.Valid() then 0 else 1)
    case _ => n
  }

  function LogAfter(s: State, c: nat, ev: Event): seq<Call>
    requires Enabled(s, c, ev)
  {
    if ev.Reply? then s.log + [Call(s.pcs[c].key, ev.out)] else s.log
  }

  function ReturnedAfter(s: State, c: nat, ev: Event): seq<Call>
    requires Enabled(s, c, ev)
  {
    var pc := s.pcs[c];
    if ev.Return? then s.returned + [Call(pc.key, pc.out)] else s.returned
  }

  function StoredAfter(s: State, c: nat, ev: Event): multiset<string>
    requires Enabled(s, c, ev)
  {
    if Stores(s, c, ev) then s.stored + multiset{s.pcs[c].key.Digest()} else s.stored
  }

  /** Whatever key a cache operation makes disappear counts as removed. */
  function RemovedAfter(cfg: Config, s: State, c: nat, ev: Event): multiset<string>
    requires Enabled(s, c, ev)
  {
    if ev.FastLook? || ev.SlowGet? || Stores(s, c, ev) then
      s.removed + multiset(Keys(s.cache) - Keys(CacheAfter(cfg, s, c, ev)))
    else s.removed
  }

  function Do(cfg: Config, s: State, c: nat, ev: Event): State
    requires Enabled(s, c, ev)
  {
    State(s.pcs[c := NextPc(s, c, ev)], LockAfter(s, c, ev), InflightAfter(s, c, ev), CallsAfter(s, c, ev),
          CacheAfter(cfg, s, c, ev), StatsAfter(s, c, ev), LogAfter(s, c, ev), ReturnedAfter(s, c, ev),
          StoredAfter(s, c, ev), RemovedAfter(cfg, s, c, ev))
  }

  /** An interleaving: which caller does what, in order. */
  datatype Action = Action(caller: nat, event: Event)

  predicate Leads(cfg: Config, s: State, a: Action, t: State) {
    Enabled(s, a.caller, a.event) && t == Do(cfg, s, a.caller, a.event)
  }

  /** The states passed through, from the start of so many callers. */
  ghost predicate Passes(cfg: Config, callers: nat, run: seq<Action>, states: seq<State>) {
    && |states| == |run| + 1 && states[0] == Init(callers)
    && forall i | 0 <= i < |run| :: Leads(cfg, states[i], run[i], states[i + 1])
  }

  ghost predicate Reachable(cfg: Config, s: State) {
    exists callers: nat, run: seq<Action>, states: seq<State> ::
      Passes(cfg, callers, run, states) && s == states[|run|]
  }

  // ----- What the cache operations do to keys and entries -----

  lemma {:induction false} WithoutMembers(s: seq<Entry>, k: string)
    ensures forall e | e in Without(s, k) :: e in s
    ensures Find(s, k).Some? ==> Find(s, k).value in s && Find(s, k).value.key == k
  {
    if s != [] {
      WithoutMembers(s[1..], k);
      assert forall e | e in s[1..] :: e in s;
    }
  }

  lemma {:induction false} LookedFacts(s: seq<Entry>, k: string, now: int)
    requires Unique(s)
    ensures var t := Looked(s, k, now);
            Unique(t) && |t| <= |s| && Keys(t) <= Keys(s) &&
            (forall e | e in t :: e in s) && (!Hit(s, k, now) ==> k !in Keys(t))
  {
    WithoutFacts(s, k);
    WithoutMembers(s, k);
    if Find(s, k).Some? {
      KeysCons(Find(s, k).value, Without(s, k));
    }
  }

  lemma {:induction false} StoredFacts(cap: nat, s: seq<Entry>, e: Entry)
    requires Unique(s) && cap > 0 && |s| <= cap
    ensures var t := Stored(cap, s, e);
            Unique(t) && |t| <= cap && e.key in Keys(t) && Keys(t) <= Keys(s) + {e.key} &&
            (forall x | x in t :: x == e || x in s)
  {
    var full := [e] + Without(s, e.key);
    WithoutFacts(s, e.key);
    WithoutMembers(s, e.key);
    KeysCons(e, Without(s, e.key));
    assert Stored(cap, s, e)[0] == e;
    assert forall x | x in full :: x == e || x in s;
    if |full| > cap {
      PopKeys(full);
    }
  }

  lemma {:induction false} GetFacts(s: seq<Entry>, key: Key, now: int)
    requires Unique(s)
    ensures var t, r := GetState(s, key, now), GetResult(s, key, now);
            Unique(t) && |t| <= |s| && Keys(t) <= Keys(s) &&
            (forall e | e in t :: e in s) &&
            (r.None? && key.Valid() ==> key.Digest() !in Keys(t)) &&
            (r.Some? ==> exists e :: e in s && e.key == key.Digest() && e.score == r.value)
  {
    LookedFacts(s, key.Digest(), now);
    WithoutMembers(s, key.Digest());
  }

  lemma {:induction false} PutFacts(cfg: Config, s: seq<Entry>, key: Key, score: Score, now: int)
    requires Unique(s) && |s| <= cfg.cap && cfg.Valid()
    ensures var t := PutState(cfg.cap, s, key, score, cfg.ttl, now);
            Unique(t) && |t| <= cfg.cap &&
            (key.Valid() ==> key.Digest() in Keys(t)) && Keys(t) <= Keys(s) + {key.Digest()} &&
            (forall e | e in t :: e in s || (e.key == key.Digest() && e.score == score))
  {
    StoredFacts(cfg.cap, s, Entry(key.Digest(), score, now + cfg.ttl));
  }

  // ----- The invariant -----

  function Holder(s: State): Pc {
    if s.lock.Some? && s.lock.value < |s.pcs| then s.pcs[s.lock.value] else Idle
  }

  /** Exactly the lock owner is between Locked and Unlocking. */
  ghost predicate LockInv(s: State) {
    && (s.lock.Some? ==> s.lock.value < |s.pcs|)
    && (forall c: nat | c < |s.pcs| :: s.pcs[c].HoldsLock() <==> s.lock == Some(c))
  }

  /** Only the owner's own call is ever in flight, and nobody waits for it. */
  ghost predicate FlightInv(s: State) {
    && s.stats.waiters == 0
    && match Holder(s)
       case Waiting(_, _) => false
       case Won(key, call) => s.inflight == map[key := call] && call < |s.calls|
       case Calling(key, call) => s.inflight == map[key := call] && call < |s.calls|
       case Answered(key, call, _) => s.inflight == map[key := call] && call < |s.calls|
       case Published(key, call, _) => s.inflight == map[key := call] && call < |s.calls|
       case Closed(key, _) => s.inflight.Keys == {key}
       case _ => s.inflight == map[]
  }

  function Failures(calls: seq<Call>): nat {
    if calls == [] then 0
    else Failures(calls[..|calls| - 1]) + if calls[|calls| - 1].out.Failure? then 1 else 0
  }

  predicate HasOut(pc: Pc) {
    pc.Answered? || pc.Published? || pc.Closed? || pc.Unlocking?
  }

  predicate Failed(pc: Pc) {
    HasOut(pc) && pc.out.Failure?
  }

  /** The counters, corrected for the one call that may be under way. */
  ghost predicate CountInv(s: State) {
    var h := Holder(s);
    && s.stats.misses == s.stats.puts + s.stats.innerErrors +
                         (if h.Calling? || (h.Answered? && h.out.Success?) then 1 else 0)
    && s.stats.puts == |s.stored| + s.stats.cacheErrors
  }

  /** Callers that are counted but have not returned. */
  function Leavers(pcs: seq<Pc>): nat {
    if pcs == [] then 0 else Leavers(pcs[..|pcs| - 1]) + if pcs[|pcs| - 1].Leaving? then 1 else 0
  }

  /** ... and those of them whose inner call failed. */
  function FailedLeavers(pcs: seq<Pc>): nat {
    if pcs == [] then 0
    else
      var pc := pcs[|pcs| - 1];
      FailedLeavers(pcs[..|pcs| - 1]) + if pc.Leaving? && pc.out.Failure? then 1 else 0
  }

  ghost predicate TallyInv(s: State) {
    var h := Holder(s);
    s.stats.hits + s.stats.misses == |s.returned| + Leavers(s.pcs) + (if h.Calling? || HasOut(h) then 1 else 0)
  }

  ghost predicate ErrorInv(s: State) {
    var h := Holder(s);
    s.stats.innerErrors == Failures(s.returned) + FailedLeavers(s.pcs) + (if Failed(h) then 1 else 0)
  }

  ghost predicate ReturnInv(s: State) {
    TallyInv(s) && ErrorInv(s)
  }

  ghost predicate CacheInv(cfg: Config, s: State) {
    Unique(s.cache) && |s.cache| <= cfg.cap
  }

  /** Some inner call for a key with this digest ended this way. */
  ghost predicate Produced(log: seq<Call>, d: string, out: Outcome) {
    exists i :: 0 <= i < |log| && log[i].key.Digest() == d && log[i].out == out
  }

  /** The answer a caller carries came from an inner call. */
  ghost predicate Genuine(log: seq<Call>, pc: Pc) {
    && (pc.FastHit? || pc.SlowHit? ==> Produced(log, pc.key.Digest(), Success(pc.score)))
    && (HasOut(pc) || pc.Leaving? ==> Produced(log, pc.key.Digest(), pc.out))
  }

  ghost predicate SourceInv(s: State) {
    && (forall e | e in s.cache :: Produced(s.log, e.key, Success(e.score)))
    && (forall r | r in s.returned :: Produced(s.log, r.key.Digest(), r.out))
    && (forall c: nat | c < |s.pcs| :: Genuine(s.log, s.pcs[c]))
  }

  function Successes(log: seq<Call>, d: string): nat {
    if log == [] then 0
    else
      var last := log[|log| - 1];
      Successes(log[..|log| - 1], d) +
      if last.out.Success? && last.key.Valid() && last.key.Digest() == d then 1 else 0
  }

  predicate About(pc: Pc, d: string) {
    !pc.Idle? && pc.key.Valid() && pc.key.Digest() == d
  }

  /** Every stored result is in the cache or was removed from it, one for one. */
  ghost predicate Ledger(keys: set<string>, log: seq<Call>, stored: multiset<string>, removed: multiset<string>, h: Pc) {
    && (forall d :: stored[d] == removed[d] + if d in keys then 1 else 0)
    && (forall d :: Successes(log, d) == stored[d] + if h.Answered? && h.out.Success? && About(h, d) then 1 else 0)
    && (h.Missed? || h.Won? || h.Calling? || h.Answered? ==> h.key.Valid() ==> h.key.Digest() !in keys)
  }

  ghost predicate StoreInv(s: State) {
    Ledger(Keys(s.cache), s.log, s.stored, s.removed, Holder(s))
  }

  /** A key is computed again after a success only if its entry was removed in between. */
  ghost predicate Once(log: seq<Call>, removed: multiset<string>) {
    forall i, j | 0 <= i < j < |log| && log[i].key.Valid() && log[i].out.Success? && log[j].key.Valid() &&
                  log[i].key.Digest() == log[j].key.Digest() ::
      removed[log[i].key.Digest()] > 0
  }

  ghost predicate OnceInv(s: State) {
    Once(s.log, s.removed)
  }

  ghost predicate Inv(cfg: Config, s: State) {
    && LockInv(s) && FlightInv(s) && CountInv(s) && ReturnInv(s)
    && CacheInv(cfg, s) && SourceInv(s) && StoreInv(s) && OnceInv(s)
  }

  // ----- Every step keeps it -----

  lemma {:induction false} LockFrame(s: State, c: nat, ev: Event, t: State)
    requires LockInv(s) && c < |s.pcs| && |t.pcs| == |s.pcs| && t.pcs == s.pcs[c := t.pcs[c]]
    requires t.lock == if ev.Acquire? then Some(c) else if ev.Unlock? then None else s.lock
    requires s.pcs[c].HoldsLock() <==> !ev.Outside() && !ev.Acquire?
    requires t.pcs[c].HoldsLock() <==> !ev.Outside() && !ev.Unlock?
    requires ev.Acquire? ==> s.lock.None?
    ensures LockInv(t)
    ensures ev.Outside() ==> Holder(t) == Holder(s)
    ensures ev.Acquire? ==> Holder(s) == Idle
    ensures !ev.Outside() && !ev.Acquire? ==> Holder(s) == s.pcs[c]
    ensures !ev.Outside() ==> Holder(t) == if ev.Unlock? then Idle else t.pcs[c]
  {
  }

  /** How the lock and its owner's position change. */
  lemma {:induction false} LockStep(cfg: Config, s: State, c: nat, ev: Event)
    requires LockInv(s) && Enabled(s, c, ev)
    ensures var t := Do(cfg, s, c, ev);
            LockInv(t) &&
            (ev.Outside() ==> Holder(t) == Holder(s)) &&
            (ev.Acquire? ==> Holder(s) == Idle) &&
            (!ev.Outside() && !ev.Acquire? ==> Holder(s) == s.pcs[c]) &&
            (!ev.Outside() ==> Holder(t) == if ev.Unlock? then Idle else t.pcs[c])
  {
    LockFrame(s, c, ev, Do(cfg, s, c, ev));
  }

  lemma {:induction false} FlightStep(cfg: Config, s: State, c: nat, ev: Event)
    requires LockInv(s) && FlightInv(s) && Enabled(s, c, ev)
    ensures FlightInv(Do(cfg, s, c, ev))
  {
    LockStep(cfg, s, c, ev);
  }

  lemma {:induction false} CountStep(cfg: Config, s: State, c: nat, ev: Event)
    requires LockInv(s) && FlightInv(s) && CountInv(s) && Enabled(s, c, ev)
    ensures CountInv(Do(cfg, s, c, ev))
  {
    LockStep(cfg, s, c, ev);
  }

  lemma {:induction false} LeaversUpdate(pcs: seq<Pc>, c: nat, pc: Pc)
    requires c < |pcs|
    ensures Leavers(pcs[c := pc]) == Leavers(pcs) - (if pcs[c].Leaving? then 1 else 0) + (if pc.Leaving? then 1 else 0)
    decreases |pcs|
  {
    var n := |pcs| - 1;
    if c < n {
      assert pcs[c := pc][..n] == pcs[..n][c := pc];
      LeaversUpdate(pcs[..n], c, pc);
    } else {
      assert pcs[c := pc][..n] == pcs[..n];
    }
  }

  lemma {:induction false} FailedLeaversUpdate(pcs: seq<Pc>, c: nat, pc: Pc)
    requires c < |pcs|
    ensures FailedLeavers(pcs[c := pc]) ==
            FailedLeavers(pcs) - (if pcs[c].Leaving? && pcs[c].out.Failure? then 1 else 0) +
            (if pc.Leaving? && pc.out.Failure? then 1 else 0)
    decreases |pcs|
  {
    var n := |pcs| - 1;
    if c < n {
      assert pcs[c := pc][..n] == pcs[..n][c := pc];
      FailedLeaversUpdate(pcs[..n], c, pc);
    } else {
      assert pcs[c := pc][..n] == pcs[..n];
    }
  }

  lemma {:induction false} TallyStep(cfg: Config, s: State, c: nat, ev: Event)
    requires LockInv(s) && FlightInv(s) && TallyInv(s) && Enabled(s, c, ev)
    ensures TallyInv(Do(cfg, s, c, ev))
  {
    LockStep(cfg, s, c, ev);
    LeaversUpdate(s.pcs, c, NextPc(s, c, ev));
  }

  lemma {:induction false} ReturnStep(cfg: Config, s: State, c: nat, ev: Event)
    requires LockInv(s) && FlightInv(s) && ReturnInv(s) && Enabled(s, c, ev)
    ensures ReturnInv(Do(cfg, s, c, ev))
  {
    TallyStep(cfg, s, c, ev);
    ErrorStep(cfg, s, c, ev);
  }

  lemma {:induction false} ErrorStep(cfg: Config, s: State, c: nat, ev: Event)
    requires LockInv(s) && FlightInv(s) && ErrorInv(s) && Enabled(s, c, ev)
    ensures ErrorInv(Do(cfg, s, c, ev))
  {
    FailedStep(cfg, s, c, ev);
    FailedLeaversStep(s, c, ev);
  }

  /** A failure is pending from the reply to the release of the lock. */
  lemma {:induction false} FailedStep(cfg: Config, s: State, c: nat, ev: Event)
    requires LockInv(s) && FlightInv(s) && Enabled(s, c, ev)
    ensures Failed(Holder(Do(cfg, s, c, ev))) ==
            if ev.Reply? then ev.out.Failure? else if ev.Unlock? then false else Failed(Holder(s))
    ensures ev.Reply? ==> !Failed(Holder(s))
    ensures ev.Unlock? ==> Failed(Holder(s)) == s.pcs[c].out.Failure?
    ensures StatsAfter(s, c, ev).innerErrors == s.stats.innerErrors + if ev.Reply? && ev.out.Failure? then 1 else 0
  {
    LockStep(cfg, s, c, ev);
  }

  /** A caller with a failure becomes a leaver at the release of the lock and a returned call after that. */
  lemma {:induction false} FailedLeaversStep(s: State, c: nat, ev: Event)
    requires Enabled(s, c, ev)
    ensures Failures(ReturnedAfter(s, c, ev)) + FailedLeavers(s.pcs[c := NextPc(s, c, ev)]) ==
            Failures(s.returned) + FailedLeavers(s.pcs) + if ev.Unlock? && s.pcs[c].out.Failure? then 1 else 0
  {
    FailedLeaversUpdate(s.pcs, c, NextPc(s, c, ev));
    if ev.Return? {
      FailuresAppend(s.returned, Call(s.pcs[c].key, s.pcs[c].out));
    }
  }

  lemma {:induction false} FailuresAppend(calls: seq<Call>, x: Call)
    ensures Failures(calls + [x]) == Failures(calls) + if x.out.Failure? then 1 else 0
  {
    assert (calls + [x])[..|calls|] == calls;
  }

  lemma {:induction false} CacheStep(cfg: Config, s: State, c: nat, ev: Event)
    requires cfg.Valid() && CacheInv(cfg, s) && Enabled(s, c, ev)
    ensures CacheInv(cfg, Do(cfg, s, c, ev))
  {
    var pc := s.pcs[c];
    match ev
    case FastLook(now) => GetFacts(s.cache, pc.key, now);
    case SlowGet(now) => GetFacts(s.cache, pc.key, now);
    case WriteThrough(now) =>
      if pc.out.Success? {
        PutFacts(cfg, s.cache, pc.key, pc.out.score, now);
      }
    case _ =>
  }

  lemma {:induction false} ProducedMore(log: seq<Call>, x: Call)
    ensures forall d, out | Produced(log, d, out) :: Produced(log + [x], d, out)
    ensures Produced(log + [x], x.key.Digest(), x.out)
  {
    var more := log + [x];
    assert more[|log|] == x;
    forall d, out | Produced(log, d, out) ensures Produced(more, d, out) {
      var i :| 0 <= i < |log| && log[i].key.Digest() == d && log[i].out == out;
      assert more[i] == log[i];
    }
  }

  lemma {:induction false} LogStep(s: State, c: nat, ev: Event)
    requires Enabled(s, c, ev)
    ensures forall d, out | Produced(s.log, d, out) :: Produced(LogAfter(s, c, ev), d, out)
    ensures ev.Reply? ==> Produced(LogAfter(s, c, ev), s.pcs[c].key.Digest(), ev.out)
  {
    if ev.Reply? {
      ProducedMore(s.log, Call(s.pcs[c].key, ev.out));
    }
  }

  lemma {:induction false} NextIsGenuine(cfg: Config, s: State, c: nat, ev: Event)
    requires LockInv(s) && FlightInv(s) && CacheInv(cfg, s) && SourceInv(s) && Enabled(s, c, ev)
    ensures Genuine(LogAfter(s, c, ev), NextPc(s, c, ev))
  {
    LogStep(s, c, ev);
    assert Genuine(s.log, s.pcs[c]);
    match ev
    case FastLook(now) => HitIsGenuine(cfg, s, s.pcs[c].key, now);
    case SlowGet(now) => HitIsGenuine(cfg, s, s.pcs[c].key, now);
    case _ =>
  }

  lemma {:induction false} HitIsGenuine(cfg: Config, s: State, key: Key, now: int)
    requires CacheInv(cfg, s) && SourceInv(s)
    ensures var r := GetResult(s.cache, key, now);
            r.Some? ==> Produced(s.log, key.Digest(), Success(r.value))
  {
    GetFacts(s.cache, key, now);
  }

  lemma {:induction false} CacheIsGenuine(cfg: Config, s: State, c: nat, ev: Event)
    requires cfg.Valid() && CacheInv(cfg, s) && SourceInv(s) && Enabled(s, c, ev)
    ensures forall e | e in CacheAfter(cfg, s, c, ev) :: Produced(s.log, e.key, Success(e.score))
  {
    var pc := s.pcs[c];
    match ev
    case FastLook(now) => GetFacts(s.cache, pc.key, now);
    case SlowGet(now) => GetFacts(s.cache, pc.key, now);
    case WriteThrough(now) =>
      assert Genuine(s.log, pc);
      if pc.out.Success? {
        PutFacts(cfg, s.cache, pc.key, pc.out.score, now);
      }
    case _ =>
  }

  lemma {:induction false} SourceStep(cfg: Config, s: State, c: nat, ev: Event)
    requires cfg.Valid() && LockInv(s) && FlightInv(s) && CacheInv(cfg, s) && SourceInv(s) && Enabled(s, c, ev)
    ensures SourceInv(Do(cfg, s, c, ev))
  {
    LogStep(s, c, ev);
    NextIsGenuine(cfg, s, c, ev);
    CacheIsGenuine(cfg, s, c, ev);
    var t := Do(cfg, s, c, ev);
    forall d: nat | d < |t.pcs| ensures Genuine(t.log, t.pcs[d]) {
      assert d != c ==> Genuine(s.log, s.pcs[d]);
    }
    if ev.Return? {
      assert Genuine(s.log, s.pcs[c]);
    }
  }

  lemma {:induction false} SuccessesAppend(log: seq<Call>, x: Call, d: string)
    ensures Successes(log + [x], d) ==
            Successes(log, d) + if x.out.Success? && x.key.Valid() && x.key.Digest() == d then 1 else 0
  {
    assert (log + [x])[..|log|] == log;
  }

  /** Keys that disappear move from the cache side to the removed side. */
  lemma {:induction false} LedgerLook(keys: set<string>, log: seq<Call>, stored: multiset<string>, removed: multiset<string>, h: Pc,
                   next: set<string>, g: Pc)
    requires Ledger(keys, log, stored, removed, h) && next <= keys
    requires g == h || (h.Locked? && g.SlowHit?) ||
             (h.Locked? && g.Missed? && (g.key.Valid() ==> g.key.Digest() !in next))
    ensures Ledger(next, log, stored, removed + multiset(keys - next), g)
  {
  }

  lemma {:induction false} LedgerReply(keys: set<string>, log: seq<Call>, stored: multiset<string>, removed: multiset<string>, h: Pc,
                    out: Outcome)
    requires Ledger(keys, log, stored, removed, h) && h.Calling?
    ensures Ledger(keys, log + [Call(h.key, out)], stored, removed, Answered(h.key, h.call, out))
  {
    forall d { SuccessesAppend(log, Call(h.key, out), d); }
  }

  lemma {:induction false} LedgerPut(keys: set<string>, log: seq<Call>, stored: multiset<string>, removed: multiset<string>, h: Pc,
                  next: set<string>, d: string)
    requires Ledger(keys, log, stored, removed, h) && h.Answered? && h.out.Success? && h.key.Valid()
    requires d == h.key.Digest() && d in next && next <= keys + {d}
    ensures Ledger(next, log, stored + multiset{d}, removed + multiset(keys - next), Published(h.key, h.call, h.out))
  {
  }

  lemma {:induction false} StoreStep(cfg: Config, s: State, c: nat, ev: Event)
    requires cfg.Valid() && LockInv(s) && FlightInv(s) && CacheInv(cfg, s) && StoreInv(s) && Enabled(s, c, ev)
    ensures StoreInv(Do(cfg, s, c, ev))
  {
    LockStep(cfg, s, c, ev);
    var pc, t := s.pcs[c], Do(cfg, s, c, ev);
    match ev
    case FastLook(now) =>
      GetFacts(s.cache, pc.key, now);
      LedgerLook(Keys(s.cache), s.log, s.stored, s.removed, Holder(s), Keys(t.cache), Holder(t));
    case SlowGet(now) =>
      GetFacts(s.cache, pc.key, now);
      LedgerLook(Keys(s.cache), s.log, s.stored, s.removed, Holder(s), Keys(t.cache), Holder(t));
    case Reply(out) =>
      LedgerReply(Keys(s.cache), s.log, s.stored, s.removed, Holder(s), out);
    case WriteThrough(now) =>
      if pc.out.Success? && pc.key.Valid() {
        PutFacts(cfg, s.cache, pc.key, pc.out.score, now);
        LedgerPut(Keys(s.cache), s.log, s.stored, s.removed, Holder(s), Keys(t.cache), pc.key.Digest());
      } else {
        LedgerIdle(Keys(s.cache), s.log, s.stored, s.removed, Holder(s), Holder(t));
      }
    case _ =>
      LedgerIdle(Keys(s.cache), s.log, s.stored, s.removed, Holder(s), Holder(t));
  }

  /** Steps that touch neither the cache nor the log. */
  lemma {:induction false} LedgerIdle(keys: set<string>, log: seq<Call>, stored: multiset<string>, removed: multiset<string>, h: Pc, g: Pc)
    requires Ledger(keys, log, stored, removed, h)
    requires h.Answered? ==> h.out.Failure? || !h.key.Valid() || g == h
    requires g.Missed? || g.Won? || g.Calling? || g.Answered? ==>
               g == h || (h.Missed? && g.Won? && g.key == h.key) || (h.Won? && g.Calling? && g.key == h.key)
    ensures Ledger(keys, log, stored, removed, g)
  {
  }

  lemma {:induction false} SuccessCounted(log: seq<Call>, i: nat)
    requires i < |log| && log[i].out.Success? && log[i].key.Valid()
    ensures Successes(log, log[i].key.Digest()) > 0
    decreases |log|
  {
    if i < |log| - 1 {
      SuccessCounted(log[..|log| - 1], i);
    }
  }

  lemma {:induction false} OnceAppend(keys: set<string>, log: seq<Call>, stored: multiset<string>, removed: multiset<string>, h: Pc,
                   out: Outcome)
    requires Ledger(keys, log, stored, removed, h) && h.Calling? && Once(log, removed)
    ensures Once(log + [Call(h.key, out)], removed)
  {
    if h.key.Valid() {
      var d := h.key.Digest();
      forall i | 0 <= i < |log| && log[i].key.Valid() && log[i].out.Success? && log[i].key.Digest() == d
        ensures removed[d] > 0
      {
        SuccessCounted(log, i);
      }
    }
  }

  lemma {:induction false} OnceMore(log: seq<Call>, removed: multiset<string>, more: multiset<string>)
    requires Once(log, removed) && removed <= more
    ensures Once(log, more)
  {
  }

  /** Nothing is ever taken back from the removals, and only a reply extends the log. */
  lemma {:induction false} HistoryGrows(cfg: Config, s: State, c: nat, ev: Event)
    requires Enabled(s, c, ev)
    ensures s.removed <= Do(cfg, s, c, ev).removed
    ensures !ev.Reply? ==> Do(cfg, s, c, ev).log == s.log
    ensures ev.Reply? ==> Do(cfg, s, c, ev).removed == s.removed
  {
  }

  lemma {:induction false} OnceStep(cfg: Config, s: State, c: nat, ev: Event)
    requires cfg.Valid() && LockInv(s) && StoreInv(s) && OnceInv(s) && Enabled(s, c, ev)
    ensures OnceInv(Do(cfg, s, c, ev))
  {
    LockStep(cfg, s, c, ev);
    match ev
    case Reply(out) => OnceAppend(Keys(s.cache), s.log, s.stored, s.removed, Holder(s), out);
    case _ =>
      HistoryGrows(cfg, s, c, ev);
      OnceMore(s.log, s.removed, Do(cfg, s, c, ev).removed);
  }

  lemma {:induction false} InvStep(cfg: Config, s: State, c: nat, ev: Event)
    requires cfg.Valid() && Inv(cfg, s) && Enabled(s, c, ev)
    ensures Inv(cfg, Do(cfg, s, c, ev))
  {
    LockStep(cfg, s, c, ev);
    FlightStep(cfg, s, c, ev);
    CountStep(cfg, s, c, ev);
    ReturnStep(cfg, s, c, ev);
    CacheStep(cfg, s, c, ev);
    SourceStep(cfg, s, c, ev);
    StoreStep(cfg, s, c, ev);
    OnceStep(cfg, s, c, ev);
  }

  lemma {:induction false} InitInv(cfg: Config, callers: nat)
    requires cfg.Valid()
    ensures Inv(cfg, Init(callers))
  {
    FailedLeaversLeave(Init(callers).pcs);
  }

  lemma {:induction false} InvRun(cfg: Config, callers: nat, run: seq<Action>, states: seq<State>, i: nat)
    requires cfg.Valid() && Passes(cfg, callers, run, states) && i <= |run|
    ensures Inv(cfg, states[i])
  {
    if i == 0 {
      InitInv(cfg, callers);
    } else {
      InvRun(cfg, callers, run, states, i - 1);
      assert Leads(cfg, states[i - 1], run[i - 1], states[i]);
      InvStep(cfg, states[i - 1], run[i - 1].caller, run[i - 1].event);
    }
  }

  lemma {:induction false} ReachableInv(cfg: Config, s: State)
    requires cfg.Valid() && Reachable(cfg, s)
    ensures Inv(cfg, s)
  {
    var callers: nat, run, states :| Passes(cfg, callers, run, states) && s == states[|run|];
    InvRun(cfg, callers, run, states, |run|);
  }

  // ----- Theorems about every reachable state -----

  /** At most one inner call runs; with the lock free nothing is in flight; the waiting branch is never taken. */
  lemma {:induction false} SingleFlight(cfg: Config, s: State)
    requires cfg.Valid() && Reachable(cfg, s)
    ensures forall c: nat, d: nat | c < |s.pcs| && d < |s.pcs| && s.pcs[c].Calling? && s.pcs[d].Calling? :: c == d
    ensures s.lock.None? ==> s.inflight == map[]
    ensures s.stats.waiters == 0 && forall c: nat | c < |s.pcs| :: !s.pcs[c].Waiting?
  {
    ReachableInv(cfg, s);
  }

  /** Every answer came from an inner call for the same key, and the cache holds only such successes. */
  lemma {:induction false} AnswersAreGenuine(cfg: Config, s: State)
    requires cfg.Valid() && Reachable(cfg, s)
    ensures forall r | r in s.returned :: Produced(s.log, r.key.Digest(), r.out)
    ensures forall e | e in s.cache :: Produced(s.log, e.key, Success(e.score))
  {
    ReachableInv(cfg, s);
  }

  ghost predicate NulFree(calls: seq<Call>) {
    forall r | r in calls :: NUL !in r.key.providerId && NUL !in r.key.premise
  }

  /** With no NUL in provider ids and premises, "same digest" is "same key". */
  lemma {:induction false} AnswersAreForTheKey(cfg: Config, s: State, r: Call)
    requires cfg.Valid() && Reachable(cfg, s) && NulFree(s.log) && NulFree(s.returned) && r in s.returned
    ensures r in s.log
  {
    ReachableInv(cfg, s);
    var i :| 0 <= i < |s.log| && s.log[i].key.Digest() == r.key.Digest() && s.log[i].out == r.out;
    assert s.log[i] in s.log;
    DigestInjective(s.log[i].key, r.key);
  }

  /** The counters whenever no caller holds the lock. Every counted call is a hit or a miss, failed or not. */
  lemma {:induction false} CountersBalance(cfg: Config, s: State)
    requires cfg.Valid() && Reachable(cfg, s) && s.lock.None?
    ensures s.stats.misses == s.stats.puts + s.stats.innerErrors
    ensures s.stats.hits + s.stats.misses == |s.returned| + Leavers(s.pcs)
    ensures s.stats.innerErrors == Failures(s.returned) + FailedLeavers(s.pcs)
  {
    ReachableInv(cfg, s);
  }

  /** What a caller writes is served from then on for the configured time, and not after it. */
  lemma {:induction false} WrittenIsServed(cfg: Config, s: State, c: nat, t: int, now: int)
    requires cfg.Valid() && Reachable(cfg, s) && Enabled(s, c, WriteThrough(t))
    requires s.pcs[c].out.Success? && s.pcs[c].key.Valid()
    ensures var key, score := s.pcs[c].key, s.pcs[c].out.score;
            GetResult(Do(cfg, s, c, WriteThrough(t)).cache, key, now) ==
            if t + cfg.ttl == 0 || now <= t + cfg.ttl then Some(score) else None
  {
    var key, score := s.pcs[c].key, s.pcs[c].out.score;
    ReachableInv(cfg, s);
    var put := Put(key, score, cfg.ttl, t);
    assert [put] + [] == [put] && Run(cfg.cap, s.cache, [put]) == LruTheorems.Step(cfg.cap, s.cache, put);
    assert Touched([]) == {};
    ServedUntil(cfg.cap, s.cache, key, score, cfg.ttl, t, [], now);
  }

  lemma {:induction false} LookHits(cfg: Config, s: State, c: nat, key: Key, now: int, e: Entry) returns (a: State, b: State)
    requires Enabled(s, c, Enter(key)) && key.Valid() && Find(s.cache, key.Digest()) == Some(e)
    requires e.expiresAt == 0 || now <= e.expiresAt
    ensures Leads(cfg, s, Action(c, Enter(key)), a) && Leads(cfg, a, Action(c, FastLook(now)), b)
    ensures b == s.(pcs := s.pcs[c := FastHit(key, e.score)], cache := b.cache, removed := b.removed)
    ensures b.cache == [e] + Without(s.cache, key.Digest())
  {
    a := Do(cfg, s, c, Enter(key));
    b := Do(cfg, a, c, FastLook(now));
    assert s.pcs[c := Fast(key)][c := FastHit(key, e.score)] == s.pcs[c := FastHit(key, e.score)];
  }

  lemma {:induction false} HitReturns(cfg: Config, b: State, c: nat, key: Key, score: Score) returns (d: State, t: State)
    requires c < |b.pcs| && b.pcs[c] == FastHit(key, score)
    ensures Leads(cfg, b, Action(c, CountHit), d) && Leads(cfg, d, Action(c, Return), t)
    ensures t == b.(pcs := b.pcs[c := Idle], stats := b.stats.(hits := b.stats.hits + 1),
                    returned := b.returned + [Call(key, Success(score))])
  {
    d := Do(cfg, b, c, CountHit);
    t := Do(cfg, d, c, Return);
    assert d.pcs[c := Idle] == b.pcs[c := Idle];
  }

  /** A caller that finds a live entry is answered from it, whoever holds the lock: one more hit, nothing else moves. */
  lemma {:induction false} LiveKeyIsServedFast(cfg: Config, s: State, c: nat, key: Key, now: int, e: Entry)
    returns (a: State, b: State, d: State, t: State)
    requires Enabled(s, c, Enter(key)) && key.Valid() && Find(s.cache, key.Digest()) == Some(e)
    requires e.expiresAt == 0 || now <= e.expiresAt
    ensures Leads(cfg, s, Action(c, Enter(key)), a) && Leads(cfg, a, Action(c, FastLook(now)), b)
    ensures Leads(cfg, b, Action(c, CountHit), d) && Leads(cfg, d, Action(c, Return), t)
    ensures t.pcs == s.pcs && t.returned == s.returned + [Call(key, Success(e.score))]
    ensures t.lock == s.lock && t.inflight == s.inflight && t.calls == s.calls && t.log == s.log
    ensures t.stats == s.stats.(hits := s.stats.hits + 1) && t.cache == [e] + Without(s.cache, key.Digest())
  {
    a, b := LookHits(cfg, s, c, key, now, e);
    d, t := HitReturns(cfg, b, c, key, e.score);
    assert s.pcs[c := FastHit(key, e.score)][c := Idle] == s.pcs;
  }

  /** The same for a caller that only finds it once it holds the lock: it starts no inner call and lets go. */
  lemma {:induction false} LiveKeyEndsTheWait(cfg: Config, s: State, c: nat, key: Key, now: int, e: Entry)
    returns (a: State, b: State, d: State)
    requires c < |s.pcs| && s.pcs[c] == Locked(key) && key.Valid() && Find(s.cache, key.Digest()) == Some(e)
    requires e.expiresAt == 0 || now <= e.expiresAt
    ensures Leads(cfg, s, Action(c, SlowGet(now)), a) && Leads(cfg, a, Action(c, CountSlowHit), b)
    ensures Leads(cfg, b, Action(c, Unlock), d) && d.pcs == s.pcs[c := Leaving(key, Success(e.score))] && d.lock == None
    ensures d.inflight == s.inflight && d.calls == s.calls && d.log == s.log && d.returned == s.returned
    ensures d.stats == s.stats.(hits := s.stats.hits + 1) && d.cache == [e] + Without(s.cache, key.Digest())
  {
    a := Do(cfg, s, c, SlowGet(now));
    assert a.pcs == s.pcs[c := SlowHit(key, e.score)];
    b := Do(cfg, a, c, CountSlowHit);
    assert b.pcs == s.pcs[c := Unlocking(key, Success(e.score))];
    d := Do(cfg, b, c, Unlock);
  }

  lemma {:induction false} FailedLeaversLeave(pcs: seq<Pc>)
    ensures FailedLeavers(pcs) <= Leavers(pcs)
    ensures Leavers(pcs) == 0 <==> forall c | 0 <= c < |pcs| :: !pcs[c].Leaving?
  {
    if pcs != [] {
      FailedLeaversLeave(pcs[..|pcs| - 1]);
    }
  }

  /**
   * The documented reading (hits plus misses count successful calls only) holds iff no counted call is still inside
   * or about to return, and nothing has failed.
   */
  lemma {:induction false} DocumentedCountIff(cfg: Config, s: State)
    requires cfg.Valid() && Reachable(cfg, s)
    ensures s.stats.hits + s.stats.misses == |s.returned| - Failures(s.returned) <==>
            && s.stats.innerErrors == 0 && !Holder(s).Calling? && !HasOut(Holder(s))
            && forall c | 0 <= c < |s.pcs| :: !s.pcs[c].Leaving?
  {
    ReachableInv(cfg, s);
    FailedLeaversLeave(s.pcs);
  }

  lemma {:induction false} ReachableStep(cfg: Config, s: State, ev: Event) returns (t: State)
    requires Reachable(cfg, s) && Enabled(s, 0, ev)
    ensures t == Do(cfg, s, 0, ev) && Reachable(cfg, t)
  {
    t := Do(cfg, s, 0, ev);
    var callers: nat, run, states :| Passes(cfg, callers, run, states) && s == states[|run|];
    var more, all := run + [Action(0, ev)], states + [t];
    forall i | 0 <= i < |more| ensures Leads(cfg, all[i], more[i], all[i + 1]) {
      if i < |run| {
        assert Leads(cfg, states[i], run[i], states[i + 1]);
        assert all[i] == states[i] && all[i + 1] == states[i + 1] && more[i] == run[i];
      }
    }
    assert Passes(cfg, callers, more, all) && t == all[|more|];
  }

  lemma {:induction false} InitReachable(cfg: Config, callers: nat)
    ensures Reachable(cfg, Init(callers))
  {
    var run: seq<Action> := [];
    assert Passes(cfg, callers, run, [Init(callers)]) && Init(callers) == [Init(callers)][|run|];
  }

  lemma {:induction false} LoneFastMiss(cfg: Config, key: Key) returns (s: State)
    ensures Reachable(cfg, s) && s == Init(1).(pcs := [WantLock(key)])
  {
    InitReachable(cfg, 1);
    s := ReachableStep(cfg, Init(1), Enter(key));
    assert s.pcs == [Fast(key)];
    s := ReachableStep(cfg, s, FastLook(0));
    assert s.pcs == [WantLock(key)];
    assert s.removed == multiset{};
  }

  lemma {:induction false} LoneSlowMiss(cfg: Config, key: Key) returns (s: State)
    ensures Reachable(cfg, s) && s == Init(1).(pcs := [Missed(key)], lock := Some(0))
  {
    s := LoneFastMiss(cfg, key);
    s := ReachableStep(cfg, s, Acquire);
    assert s.pcs == [Locked(key)];
    s := ReachableStep(cfg, s, SlowGet(0));
    assert s.pcs == [Missed(key)];
    assert s.removed == multiset{};
  }

  /** One caller whose inner call is running: counted, although no call has returned and nothing has failed. */
  lemma {:induction false} RunningCallIsCounted(cfg: Config, key: Key) returns (s: State)
    ensures Reachable(cfg, s) && s.pcs == [Calling(key, 0)] && s.lock == Some(0) && s.inflight == map[key := 0]
    ensures s.calls == [None] && s.stats == Stats(0, 1, 0, 0, 0, 0) && s.returned == []
  {
    s := LoneSlowMiss(cfg, key);
    s := ReachableStep(cfg, s, LoadOrStore);
    assert s.pcs == [Won(key, 0)];
    s := ReachableStep(cfg, s, CountMiss);
  }

  /** One caller whose inner call fails: a hit-plus-miss count of one although no call has succeeded. */
  lemma {:induction false} FailureIsCounted(cfg: Config, key: Key) returns (s: State)
    ensures Reachable(cfg, s) && s.lock.None? && s.pcs == [Idle] && s.returned == [Call(key, Failure)]
    ensures s.stats == Stats(0, 1, 0, 1, 0, 0)
  {
    s := RunningCallIsCounted(cfg, key);
    s := ReachableStep(cfg, s, Reply(Failure));
    s := ReachableStep(cfg, s, WriteThrough(0));
    assert s.pcs == [Published(key, 0, Failure)] && |s.calls| == 1;
    s := ReachableStep(cfg, s, CloseDone);
    s := ReachableStep(cfg, s, Delete);
    s := ReachableStep(cfg, s, Unlock);
    assert s.pcs == [Leaving(key, Failure)];
    s := ReachableStep(cfg, s, Return);
  }

  /** Per digest: successful computations whose result was stored = present now + removed so far. */
  lemma {:induction false} StoredResultsAccounted(cfg: Config, s: State, d: string)
    requires cfg.Valid() && Reachable(cfg, s) && s.lock.None?
    ensures Successes(s.log, d) == s.removed[d] + if d in Keys(s.cache) then 1 else 0
  {
    ReachableInv(cfg, s);
  }

  /** While a key is neither expired nor evicted, a success is its last inner call and its only success. */
  lemma {:induction false} ComputedOnce(cfg: Config, s: State, i: nat, j: nat)
    requires cfg.Valid() && Reachable(cfg, s)
    requires i < |s.log| && s.log[i].key.Valid() && s.log[i].out.Success?
    requires j < |s.log| && s.log[j].key == s.log[i].key && j != i
    requires s.removed[s.log[i].key.Digest()] == 0
    ensures j < i && s.log[j].out.Failure?
  {
    ReachableInv(cfg, s);
  }

  /** ... and no further inner call for it is running. */
  lemma {:induction false} NotRecomputing(cfg: Config, s: State, i: nat, c: nat)
    requires cfg.Valid() && Reachable(cfg, s)
    requires i < |s.log| && s.log[i].key.Valid() && s.log[i].out.Success?
    requires s.removed[s.log[i].key.Digest()] == 0
    requires c < |s.pcs|
    ensures !(s.pcs[c].Calling? && s.pcs[c].key == s.log[i].key)
  {
    ReachableInv(cfg, s);
    SuccessCounted(s.log, i);
  }

  // ----- Progress -----

  function Rank(pc: Pc): nat {
    match pc
    case Idle => 0
    case Fast(_) => 11
    case FastHit(_, _) => 2
    case WantLock(_) => 10
    case Locked(_) => 9
    case SlowHit(_, _) => 3
    case Missed(_) => 8
    case Won(_, _) => 7
    case Calling(_, _) => 6
    case Answered(_, _, _) => 5
    case Published(_, _, _) => 4
    case Closed(_, _) => 3
    case Waiting(_, _) => 3
    case Unlocking(_, _) => 2
    case Leaving(_, _) => 1
  }

  function TotalRank(pcs: seq<Pc>): nat {
    if pcs == [] then 0 else Rank(pcs[0]) + TotalRank(pcs[1..])
  }

  lemma {:induction false} TotalRankUpdate(pcs: seq<Pc>, c: nat, pc: Pc)
    requires c < |pcs|
    ensures TotalRank(pcs[c := pc]) == TotalRank(pcs) - Rank(pcs[c]) + Rank(pc)
  {
    if c > 0 {
      assert pcs[c := pc][1..] == pcs[1..][c - 1 := pc];
      TotalRankUpdate(pcs[1..], c - 1, pc);
    } else {
      assert pcs[c := pc][1..] == pcs[1..];
    }
  }

  /** No deadlock: unless every caller is idle, some caller can move on. */
  lemma {:induction false} SomeoneCanMove(cfg: Config, s: State) returns (c: nat, ev: Event)
    requires cfg.Valid() && Reachable(cfg, s)
    requires exists d: nat :: d < |s.pcs| && !s.pcs[d].Idle?
    ensures Enabled(s, c, ev) && !ev.Enter?
  {
    ReachableInv(cfg, s);
    if s.lock.Some? {
      c := s.lock.value;
    } else {
      c :| c < |s.pcs| && !s.pcs[c].Idle?;
    }
    ev := match s.pcs[c]
      case Fast(_) => FastLook(0)
      case FastHit(_, _) => CountHit
      case Leaving(_, _) => Return
      case WantLock(_) => Acquire
      case Locked(_) => SlowGet(0)
      case SlowHit(_, _) => CountSlowHit
      case Missed(_) => LoadOrStore
      case Won(_, _) => CountMiss
      case Calling(_, _) => Reply(Failure)
      case Answered(_, _, _) => WriteThrough(0)
      case Published(_, _, _) => CloseDone
      case Closed(_, _) => Delete
      case _ => Unlock;
  }

  lemma {:induction false} RankFalls(s: State, c: nat, ev: Event)
    requires Enabled(s, c, ev) && !ev.Enter?
    ensures Rank(NextPc(s, c, ev)) < Rank(s.pcs[c])
  {
  }

  /** No livelock: every step but a new call brings the callers strictly closer to done. */
  lemma {:induction false} StepsRunOut(cfg: Config, s: State, c: nat, ev: Event)
    requires Enabled(s, c, ev) && !ev.Enter?
    ensures TotalRank(Do(cfg, s, c, ev).pcs) < TotalRank(s.pcs)
  {
    RankFalls(s, c, ev);
    TotalRankUpdate(s.pcs, c, NextPc(s, c, ev));
  }
}
