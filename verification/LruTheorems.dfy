/** Whole-run properties of the cache, stated on its recency list. */
module LruTheorems {
  import opened Wrappers
  import opened LruCache

  datatype Op = Get(key: Key, now: int) | Put(key: Key, score: Score, ttl: int, now: int) | Clear

  function Step(cap: nat, s: seq<Entry>, op: Op): seq<Entry> {
    match op
    case Get(key, now) => GetState(s, key, now)
    case Put(key, score, ttl, now) => PutState(cap, s, key, score, ttl, now)
    case Clear => []
  }

  /** What the caller sees: only Get answers. */
  function Answer(s: seq<Entry>, op: Op): Option<Score> {
    match op
    case Get(key, now) => GetResult(s, key, now)
    case _ => None
  }

  function Run(cap: nat, s: seq<Entry>, ops: seq<Op>): seq<Entry>
    decreases |ops|
  {
    if ops == [] then s else Run(cap, Step(cap, s, ops[0]), ops[1..])
  }

  function Answers(cap: nat, s: seq<Entry>, ops: seq<Op>): seq<Option<Score>>
    decreases |ops|
  {
    if ops == [] then [] else [Answer(s, ops[0])] + Answers(cap, Step(cap, s, ops[0]), ops[1..])
  }

  function Keys(s: seq<Entry>): set<string> {
    set i | 0 <= i < |s| :: s[i].key
  }

  // ----- Keeping a subset of the keys -----

  function Keep(s: seq<Entry>, ks: set<string>): seq<Entry> {
    if s == [] then []
    else if s[0].key in ks then [s[0]] + Keep(s[1..], ks)
    else Keep(s[1..], ks)
  }

  lemma {:induction false} ConsFacts(e: Entry, s: seq<Entry>, ks: set<string>, k: string)
    ensures Keep([e] + s, ks) == if e.key in ks then [e] + Keep(s, ks) else Keep(s, ks)
    ensures Without([e] + s, k) == if e.key == k then Without(s, k) else [e] + Without(s, k)
    ensures Find([e] + s, k) == if e.key == k then Some(e) else Find(s, k)
  {
    assert ([e] + s)[1..] == s;
  }

  lemma {:induction false} UniqueTail(s: seq<Entry>)
    requires s != [] && Unique(s)
    ensures Unique(s[1..]) && s[0].key !in Keys(s[1..])
    ensures Keys(s) == {s[0].key} + Keys(s[1..])
  {
    assert forall k | k in Keys(s) :: k == s[0].key || k in Keys(s[1..]) by {
      forall k | k in Keys(s) ensures k == s[0].key || k in Keys(s[1..]) {
        var i :| 0 <= i < |s| && s[i].key == k;
        if i > 0 {
          assert s[1..][i - 1].key == k;
        }
      }
    }
    forall k | k in Keys(s[1..]) ensures k in Keys(s) {
      var i :| 0 <= i < |s[1..]| && s[1..][i].key == k;
      assert s[i + 1].key == k;
    }
  }

  lemma {:induction false} KeysCons(e: Entry, s: seq<Entry>)
    ensures Keys([e] + s) == {e.key} + Keys(s)
    ensures Unique(s) && e.key !in Keys(s) ==> Unique([e] + s)
  {
    var t := [e] + s;
    assert t[0] == e;
    forall k | k in Keys(s) ensures k in Keys(t) {
      var i :| 0 <= i < |s| && s[i].key == k;
      assert t[i + 1].key == k;
    }
    forall k | k in Keys(t) ensures k in {e.key} + Keys(s) {
      var i :| 0 <= i < |t| && t[i].key == k;
      if i > 0 {
        assert s[i - 1].key == k;
      }
    }
  }

  lemma {:induction false} KeepFacts(s: seq<Entry>, ks: set<string>)
    requires Unique(s)
    ensures Unique(Keep(s, ks)) && Keys(Keep(s, ks)) == Keys(s) * ks
    ensures |Keep(s, ks)| <= |s|
  {
    if s != [] {
      UniqueTail(s);
      KeepFacts(s[1..], ks);
      KeysCons(s[0], Keep(s[1..], ks));
    }
  }

  lemma {:induction false} WithoutFacts(s: seq<Entry>, k: string)
    requires Unique(s)
    ensures Unique(Without(s, k)) && Keys(Without(s, k)) == Keys(s) - {k}
    ensures |Without(s, k)| == if k in Keys(s) then |s| - 1 else |s|
    ensures k in Keys(s) <==> Find(s, k).Some?
    ensures Find(s, k).Some? ==> Find(s, k).value.key == k
  {
    if s != [] {
      UniqueTail(s);
      WithoutFacts(s[1..], k);
      KeysCons(s[0], Without(s[1..], k));
      if s[0].key == k {
        WithoutAbsent(s[1..], k);
      }
    }
  }

  lemma {:induction false} KeepWithout(s: seq<Entry>, ks: set<string>, k: string)
    ensures Keep(Without(s, k), ks - {k}) == Without(Keep(s, ks), k)
    ensures k in ks ==> Find(Keep(s, ks), k) == Find(s, k)
  {
    if s != [] {
      KeepWithout(s[1..], ks, k);
      ConsFacts(s[0], Without(s[1..], k), ks - {k}, k);
      ConsFacts(s[0], Keep(s[1..], ks), ks, k);
    }
  }

  /** Only the keys that occur matter. */
  lemma {:induction false} KeepSame(s: seq<Entry>, ks: set<string>, ls: set<string>)
    requires forall i | 0 <= i < |s| :: s[i].key in ks <==> s[i].key in ls
    ensures Keep(s, ks) == Keep(s, ls)
  {
    if s != [] {
      KeepSame(s[1..], ks, ls);
    }
  }

  lemma {:induction false} KeepAppend(s: seq<Entry>, e: Entry, ks: set<string>)
    ensures Keep(s + [e], ks) == Keep(s, ks) + if e.key in ks then [e] else []
  {
    if s != [] {
      assert (s + [e])[1..] == s[1..] + [e];
      KeepAppend(s[1..], e, ks);
    }
  }

  // ----- Inclusion: a larger cache holds everything a smaller one does -----

  /** small is a subsequence of large, entry for entry. */
  ghost predicate Nested(small: seq<Entry>, large: seq<Entry>) {
    && Unique(small) && Unique(large)
    && small == Keep(large, Keys(small))
    && Keys(small) <= Keys(large)
  }

  /** ... and large has at most m - n keys more. */
  ghost predicate Included(small: seq<Entry>, n: nat, large: seq<Entry>, m: nat) {
    && Nested(small, large)
    && |small| <= n && |large| <= m
    && |large| - |small| <= m - n
  }

  lemma {:induction false} KeyOf(s: seq<Entry>, i: nat)
    requires i < |s|
    ensures s[i].key in Keys(s)
  {
  }

  lemma {:induction false} DropKey(small: seq<Entry>, large: seq<Entry>, k: string)
    requires Nested(small, large)
    ensures var s, l := Without(small, k), Without(large, k);
            Nested(s, l)
    ensures k in Keys(small) ==> Find(small, k) == Find(large, k)
  {
    WithoutFacts(small, k);
    WithoutFacts(large, k);
    KeepWithout(large, Keys(small), k);
  }

  lemma {:induction false} PushKey(small: seq<Entry>, large: seq<Entry>, e: Entry)
    requires Nested(small, large)
    requires e.key !in Keys(large)
    ensures var s, l := [e] + small, [e] + large;
            Nested(s, l)
  {
    KeysCons(e, small);
    KeysCons(e, large);
    var l := [e] + large;
    assert l[1..] == large;
    forall i | 0 <= i < |large| ensures large[i].key != e.key {
      KeyOf(large, i);
    }
    KeepSame(large, Keys(small), Keys([e] + small));
  }

  lemma {:induction false} PopKeys(s: seq<Entry>)
    requires s != [] && Unique(s)
    ensures var t := s[..|s| - 1];
            Unique(t) && Keys(t) == Keys(s) - {s[|s| - 1].key} && s[|s| - 1].key in Keys(s)
  {
    var t, last := s[..|s| - 1], s[|s| - 1];
    KeyOf(s, |s| - 1);
    forall k | k in Keys(s) && k != last.key ensures k in Keys(t) {
      var i :| 0 <= i < |s| && s[i].key == k;
      assert t[i].key == k;
    }
    forall k | k in Keys(t) ensures k in Keys(s) && k != last.key {
      var i :| 0 <= i < |t| && t[i].key == k;
      assert s[i].key == k;
    }
  }

  /** Evicting from the small cache alone. */
  lemma {:induction false} PopSmall(small: seq<Entry>, large: seq<Entry>)
    requires Nested(small, large)
    requires small != []
    ensures var s := small[..|small| - 1]; Nested(s, large)
  {
    var s, last := small[..|small| - 1], small[|small| - 1];
    PopKeys(small);
    assert small == s + [last];
    KeepKeep(large, Keys(small), Keys(s));
    KeepAppend(s, last, Keys(s));
    KeepAll(s, Keys(s));
  }

  lemma {:induction false} KeepKeep(s: seq<Entry>, ks: set<string>, ls: set<string>)
    requires ls <= ks
    ensures Keep(Keep(s, ks), ls) == Keep(s, ls)
  {
    if s != [] {
      KeepKeep(s[1..], ks, ls);
      ConsFacts(s[0], Keep(s[1..], ks), ls, "");
    }
  }

  lemma {:induction false} KeepAll(s: seq<Entry>, ks: set<string>)
    requires forall i | 0 <= i < |s| :: s[i].key in ks
    ensures Keep(s, ks) == s
  {
    if s != [] {
      KeepAll(s[1..], ks);
    }
  }

  /** When both evict, the victim of the large cache is not kept by the small one. */
  lemma {:induction false} PopBoth(small: seq<Entry>, large: seq<Entry>)
    requires Nested(small, large)
    requires small != [] && large != []
    ensures var s, l := small[..|small| - 1], large[..|large| - 1];
            Nested(s, l)
  {
    var s, l, victim := small[..|small| - 1], large[..|large| - 1], large[|large| - 1];
    PopKeys(small);
    PopKeys(large);
    PopSmall(small, large);
    assert large == l + [victim];
    KeepAppend(l, victim, Keys(small));
    assert victim.key in Keys(small) ==> small[|small| - 1] == victim;
    KeepAppend(l, victim, Keys(s));
  }

  lemma {:induction false} InclusionGet(small: seq<Entry>, n: nat, large: seq<Entry>, m: nat, k: string, now: int)
    requires Included(small, n, large, m)
    ensures Included(Looked(small, k, now), n, Looked(large, k, now), m)
    ensures Hit(small, k, now) ==> Find(large, k) == Find(small, k)
  {
    var s, l := Without(small, k), Without(large, k);
    DropKey(small, large, k);
    WithoutFacts(small, k);
    WithoutFacts(large, k);
    if k !in Keys(small) {
      AbsentFront(small, k);
    }
    if k in Keys(large) {
      var e := Find(large, k).value;
      if k in Keys(small) {
        PushKey(s, l, e);
      } else {
        KeysCons(e, l);
        ConsFacts(e, l, Keys(small), k);
        assert Nested(small, [e] + l);
      }
    }
  }

  lemma {:induction false} InclusionPut(small: seq<Entry>, n: nat, large: seq<Entry>, m: nat, e: Entry)
    requires Included(small, n, large, m) && 0 < n <= m
    ensures Included(Stored(n, small, e), n, Stored(m, large, e), m)
  {
    DropKey(small, large, e.key);
    WithoutFacts(small, e.key);
    WithoutFacts(large, e.key);
    PushKey(Without(small, e.key), Without(large, e.key), e);
    InclusionCap([e] + Without(small, e.key), n, [e] + Without(large, e.key), m);
  }

  lemma {:induction false} InclusionStep(small: seq<Entry>, n: nat, large: seq<Entry>, m: nat, op: Op)
    requires Included(small, n, large, m) && 0 < n <= m
    ensures Included(Step(n, small, op), n, Step(m, large, op), m)
    ensures Answer(small, op).Some? ==> Answer(large, op) == Answer(small, op)
  {
    match op
    case Clear =>
    case Get(key, now) => InclusionGet(small, n, large, m, key.Digest(), now);
    case Put(key, score, ttl, now) => InclusionPut(small, n, large, m, Entry(key.Digest(), score, now + ttl));
  }

  lemma {:induction false} InclusionCap(small: seq<Entry>, n: nat, large: seq<Entry>, m: nat)
    requires Nested(small, large)
    requires 0 < n <= m && |small| <= n + 1 && |large| <= m + 1
    requires |large| - |small| <= m - n
    ensures Included(Capped(n, small), n, Capped(m, large), m)
  {
    if |large| > m {
      PopBoth(small, large);
    } else if |small| > n {
      PopSmall(small, large);
    }
  }

  /** On the same trace, more capacity never loses a hit and never answers differently. */
  lemma {:induction false} Inclusion(small: seq<Entry>, n: nat, large: seq<Entry>, m: nat, ops: seq<Op>)
    requires Included(small, n, large, m) && 0 < n <= m
    ensures Included(Run(n, small, ops), n, Run(m, large, ops), m)
    ensures |Answers(n, small, ops)| == |Answers(m, large, ops)| == |ops|
    ensures forall i | 0 <= i < |ops| && Answers(n, small, ops)[i].Some? ::
              Answers(m, large, ops)[i] == Answers(n, small, ops)[i]
    decreases |ops|
  {
    if ops != [] {
      InclusionStep(small, n, large, m, ops[0]);
      Inclusion(Step(n, small, ops[0]), n, Step(m, large, ops[0]), m, ops[1..]);
    }
  }

  /** Both caches start empty. */
  lemma {:induction false} InclusionFromEmpty(n: nat, m: nat, ops: seq<Op>)
    requires 0 < n <= m
    ensures Included(Run(n, [], ops), n, Run(m, [], ops), m)
    ensures |Answers(n, [], ops)| == |Answers(m, [], ops)| == |ops|
    ensures forall i | 0 <= i < |ops| && Answers(n, [], ops)[i].Some? ::
              Answers(m, [], ops)[i] == Answers(n, [], ops)[i]
  {
    Inclusion([], n, [], m, ops);
  }

  // ----- Retention: how long an entry survives -----

  function Touched(ops: seq<Op>): set<string> {
    set i | 0 <= i < |ops| && !ops[i].Clear? :: ops[i].key.Digest()
  }

  /** e sits in the list, and everything in front of it has a key in ks. */
  ghost predicate Behind(s: seq<Entry>, e: Entry, ks: set<string>) {
    && Unique(s)
    && exists i :: 0 <= i < |s| && s[i] == e && Keys(s[..i]) <= ks
  }

  lemma {:induction false} WithoutAppend(a: seq<Entry>, b: seq<Entry>, k: string)
    ensures Without(a + b, k) == Without(a, k) + Without(b, k)
  {
    if a == [] {
      assert a + b == b;
    } else {
      assert (a + b)[1..] == a[1..] + b;
      WithoutAppend(a[1..], b, k);
    }
  }

  lemma {:induction false} BehindWithout(s: seq<Entry>, e: Entry, ks: set<string>, k: string)
    requires Behind(s, e, ks) && e.key != k
    ensures Behind(Without(s, k), e, ks)
  {
    var i :| 0 <= i < |s| && s[i] == e && Keys(s[..i]) <= ks;
    WithoutFacts(s, k);
    WithoutFacts(s[..i], k);
    WithoutSplit(s, i, k);
    var j := |Without(s[..i], k)|;
    assert Without(s, k)[..j] == Without(s[..i], k);
  }

  lemma {:induction false} WithoutSplit(s: seq<Entry>, i: nat, k: string)
    requires i < |s| && s[i].key != k
    ensures Without(s, k) == Without(s[..i], k) + [s[i]] + Without(s[i + 1..], k)
  {
    assert s == s[..i] + ([s[i]] + s[i + 1..]);
    WithoutAppend(s[..i], [s[i]] + s[i + 1..], k);
    WithoutAppend([s[i]], s[i + 1..], k);
    assert [s[i]][1..] == [];
  }

  lemma {:induction false} BehindPush(s: seq<Entry>, e: Entry, ks: set<string>, x: Entry)
    requires Behind(s, e, ks) && x.key !in Keys(s)
    ensures Behind([x] + s, e, ks + {x.key})
  {
    var i :| 0 <= i < |s| && s[i] == e && Keys(s[..i]) <= ks;
    KeysCons(x, s);
    KeysCons(x, s[..i]);
    assert ([x] + s)[..i + 1] == [x] + s[..i];
  }

  lemma {:induction false} KeyCount(s: seq<Entry>)
    requires Unique(s)
    ensures |Keys(s)| == |s|
  {
    if s != [] {
      UniqueTail(s);
      KeyCount(s[1..]);
    }
  }

  lemma {:induction false} SubsetCount(a: set<string>, b: set<string>)
    requires a <= b
    ensures |a| <= |b|
    decreases a
  {
    if a != {} {
      var x :| x in a;
      SubsetCount(a - {x}, b - {x});
    }
  }

  lemma {:induction false} BehindCapped(cap: nat, s: seq<Entry>, e: Entry, ks: set<string>)
    requires Behind(s, e, ks) && |ks| < cap
    ensures Behind(Capped(cap, s), e, ks)
  {
    var i :| 0 <= i < |s| && s[i] == e && Keys(s[..i]) <= ks;
    KeyCount(s[..i]);
    SubsetCount(Keys(s[..i]), ks);
    assert i < |Capped(cap, s)| && Capped(cap, s)[..i] == s[..i];
  }

  lemma {:induction false} BehindGet(s: seq<Entry>, e: Entry, ks: set<string>, k: string, now: int)
    requires Behind(s, e, ks) && k != e.key
    ensures Behind(Looked(s, k, now), e, ks + {k})
  {
    if Find(s, k).Some? {
      WithoutFacts(s, k);
      BehindMoved(s, e, ks, Find(s, k).value);
    } else {
      BehindMore(s, e, ks, ks + {k});
    }
  }

  lemma {:induction false} BehindPut(cap: nat, s: seq<Entry>, e: Entry, ks: set<string>, x: Entry)
    requires Behind(s, e, ks) && x.key != e.key && |ks + {x.key}| < cap
    ensures Behind(Stored(cap, s, x), e, ks + {x.key})
  {
    BehindMoved(s, e, ks, x);
    BehindCapped(cap, [x] + Without(s, x.key), e, ks + {x.key});
  }

  lemma {:induction false} BehindStep(cap: nat, s: seq<Entry>, e: Entry, ks: set<string>, op: Op, k: string)
    requires Behind(s, e, ks) && !op.Clear? && op.key.Digest() == k != e.key
    requires |ks + {k}| < cap
    ensures Behind(Step(cap, s, op), e, ks + {k})
  {
    BehindMore(s, e, ks, ks + {k});
    match op
    case Get(key, now) => BehindGet(s, e, ks, k, now);
    case Put(key, score, ttl, now) => BehindPut(cap, s, e, ks, Entry(k, score, now + ttl));
  }

  lemma {:induction false} BehindMoved(s: seq<Entry>, e: Entry, ks: set<string>, x: Entry)
    requires Behind(s, e, ks) && x.key != e.key
    ensures Behind(Without(s, x.key), e, ks + {x.key})
    ensures Behind([x] + Without(s, x.key), e, ks + {x.key})
  {
    WithoutFacts(s, x.key);
    BehindWithout(s, e, ks, x.key);
    BehindMore(Without(s, x.key), e, ks, ks + {x.key});
    BehindPush(Without(s, x.key), e, ks, x);
  }

  lemma {:induction false} BehindMore(s: seq<Entry>, e: Entry, ks: set<string>, ls: set<string>)
    requires Behind(s, e, ks) && ks <= ls
    ensures Behind(s, e, ls)
  {
  }

  lemma {:induction false} BehindRun(cap: nat, s: seq<Entry>, e: Entry, ks: set<string>, ops: seq<Op>)
    requires Behind(s, e, ks)
    requires forall i | 0 <= i < |ops| :: !ops[i].Clear? && ops[i].key.Digest() != e.key
    requires |ks + Touched(ops)| < cap
    ensures Behind(Run(cap, s, ops), e, ks + Touched(ops))
    decreases |ops|
  {
    if ops != [] {
      var k := ops[0].key.Digest();
      TouchedFirst(ks, ops);
      BehindStep(cap, s, e, ks, ops[0], k);
      BehindRun(cap, Step(cap, s, ops[0]), e, ks + {k}, ops[1..]);
    } else {
      assert ks + Touched(ops) == ks;
    }
  }

  lemma {:induction false} TouchedFirst(ks: set<string>, ops: seq<Op>)
    requires ops != [] && !ops[0].Clear?
    ensures var k := ops[0].key.Digest();
            ks + Touched(ops) == ks + {k} + Touched(ops[1..]) && |ks + {k}| <= |ks + Touched(ops)|
  {
    TouchedCons(ops);
    SubsetCount(ks + {ops[0].key.Digest()}, ks + Touched(ops));
  }

  lemma {:induction false} TouchedCons(ops: seq<Op>)
    requires ops != [] && !ops[0].Clear?
    ensures Touched(ops) == {ops[0].key.Digest()} + Touched(ops[1..])
  {
    forall k | k in Touched(ops) ensures k in {ops[0].key.Digest()} + Touched(ops[1..]) {
      var i :| 0 <= i < |ops| && !ops[i].Clear? && ops[i].key.Digest() == k;
      if i > 0 {
        assert ops[1..][i - 1] == ops[i];
      }
    }
    forall k | k in Touched(ops[1..]) ensures k in Touched(ops) {
      var i :| 0 <= i < |ops[1..]| && !ops[1..][i].Clear? && ops[1..][i].key.Digest() == k;
      assert ops[i + 1] == ops[1..][i];
    }
  }

  lemma {:induction false} FindAt(s: seq<Entry>, i: nat)
    requires Unique(s) && i < |s|
    ensures Find(s, s[i].key) == Some(s[i])
  {
    WithoutAt(s, i);
  }

  /** After touches of fewer than cap distinct other keys the front entry is served up to its expiry and not after. */
  lemma {:induction false} Retention(cap: nat, s: seq<Entry>, ops: seq<Op>, key: Key, now: int)
    requires Unique(s) && s != [] && key.Valid() && s[0].key == key.Digest()
    requires forall i | 0 <= i < |ops| :: !ops[i].Clear? && ops[i].key.Digest() != key.Digest()
    requires |Touched(ops)| < cap
    ensures GetResult(Run(cap, s, ops), key, now) ==
            if s[0].expiresAt == 0 || now <= s[0].expiresAt then Some(s[0].score) else None
  {
    var e := s[0];
    assert Keys(s[..0]) == {};
    assert {} + Touched(ops) == Touched(ops);
    BehindRun(cap, s, e, {}, ops);
    var r := Run(cap, s, ops);
    var i :| 0 <= i < |r| && r[i] == e;
    FindAt(r, i);
  }

  /** A Put, or a Get that hits, leaves its own entry in front. */
  lemma {:induction false} FrontAfter(cap: nat, s: seq<Entry>, op: Op)
    requires Unique(s) && 0 < cap && |s| <= cap && !op.Clear? && op.key.Valid()
    requires op.Put? ==> op.ttl > 0
    requires op.Get? ==> Answer(s, op).Some?
    ensures var t := Step(cap, s, op);
            Unique(t) && 0 < |t| <= cap && t[0].key == op.key.Digest() &&
            (op.Put? ==> t[0] == Entry(op.key.Digest(), op.score, op.now + op.ttl)) &&
            (op.Get? ==> Some(t[0]) == Find(s, op.key.Digest()))
  {
    var k := op.key.Digest();
    WithoutFacts(s, k);
    match op
    case Get(key, now) => KeysCons(Find(s, k).value, Without(s, k));
    case Put(key, score, ttl, now) => KeysCons(Entry(k, score, now + ttl), Without(s, k));
  }

  /** A score put at time t answers until t + ttl, whatever fewer than cap distinct other keys do in between. */
  lemma {:induction false} ServedUntil(cap: nat, s: seq<Entry>, key: Key, score: Score, ttl: int, t: int, ops: seq<Op>, now: int)
    requires Unique(s) && 0 < cap && |s| <= cap && key.Valid() && ttl > 0
    requires forall i | 0 <= i < |ops| :: !ops[i].Clear? && ops[i].key.Digest() != key.Digest()
    requires |Touched(ops)| < cap
    ensures GetResult(Run(cap, s, [Put(key, score, ttl, t)] + ops), key, now) ==
            if t + ttl == 0 || now <= t + ttl then Some(score) else None
  {
    var put := Put(key, score, ttl, t);
    FrontAfter(cap, s, put);
    assert ([put] + ops)[0] == put && ([put] + ops)[1..] == ops;
    Retention(cap, Step(cap, s, put), ops, key, now);
  }

  lemma {:induction false} FindWithout(s: seq<Entry>, k: string, l: string)
    requires l != k
    ensures Find(Without(s, k), l) == Find(s, l)
  {
    if s != [] {
      FindWithout(s[1..], k, l);
      ConsFacts(s[0], Without(s[1..], k), {}, l);
    }
  }

  /** A Get after the expiry misses and drops the entry, one before it keeps it; no other key notices either. */
  lemma {:induction false} LookDropsExpired(s: seq<Entry>, key: Key, now: int, e: Entry, l: string)
    requires Unique(s) && key.Valid() && Find(s, key.Digest()) == Some(e)
    ensures var t := GetState(s, key, now);
            Find(t, l) ==
            if l == key.Digest() && e.expiresAt != 0 && e.expiresAt < now then None else Find(s, l)
  {
    var k := key.Digest();
    WithoutFacts(s, k);
    if l != k {
      FindWithout(s, k, l);
    } else {
      WithoutFacts(Without(s, k), k);
    }
    ConsFacts(e, Without(s, k), {}, l);
  }

  // ----- The bound is sharp -----

  ghost predicate DistinctPuts(ops: seq<Op>) {
    && (forall i | 0 <= i < |ops| :: ops[i].Put? && ops[i].key.Valid() && ops[i].ttl > 0)
    && (forall i, j | 0 <= i < j < |ops| :: ops[i].key.Digest() != ops[j].key.Digest())
  }

  /** The first n entries are the n keys put last. */
  lemma {:induction false} PutsFillFront(cap: nat, s: seq<Entry>, ops: seq<Op>)
    requires Unique(s) && |s| <= cap && DistinctPuts(ops) && |ops| <= cap
    ensures var r := Run(cap, s, ops);
            Unique(r) && |ops| <= |r| <= cap && Keys(r[..|ops|]) == Touched(ops)
    decreases |ops|
  {
    if ops != [] {
      var last := |ops| - 1;
      var init, op := ops[..last], ops[last];
      PutsFillFront(cap, s, init);
      RunAppend(cap, s, init, op);
      assert init + [op] == ops;
      TouchedSnoc(ops);
      var k := op.key.Digest();
      PutInFront(cap, Run(cap, s, init), last, Entry(k, op.score, op.now + op.ttl));
      PutStep(cap, Run(cap, s, init), op);
    }
  }

  lemma {:induction false} PutStep(cap: nat, s: seq<Entry>, op: Op)
    requires op.Put? && op.key.Valid() && op.ttl > 0
    ensures Step(cap, s, op) == Stored(cap, s, Entry(op.key.Digest(), op.score, op.now + op.ttl))
  {
  }

  lemma {:induction false} PutInFront(cap: nat, r: seq<Entry>, n: nat, e: Entry)
    requires Unique(r) && n <= |r| <= cap && n < cap && e.key !in Keys(r[..n])
    ensures var t := Stored(cap, r, e);
            Unique(t) && n < |t| <= cap && Keys(t[..n + 1]) == {e.key} + Keys(r[..n])
  {
    var w := Without(r, e.key);
    WithoutFacts(r, e.key);
    KeysCons(e, w);
    KeysCons(e, r[..n]);
    WithoutPrefix(r, n, e.key);
    assert Stored(cap, r, e)[..n + 1] == [e] + r[..n];
  }

  lemma {:induction false} WithoutPrefix(r: seq<Entry>, n: nat, k: string)
    requires n <= |r| && k !in Keys(r[..n])
    ensures n <= |Without(r, k)| && Without(r, k)[..n] == r[..n]
  {
    assert r == r[..n] + r[n..];
    WithoutAppend(r[..n], r[n..], k);
    AbsentFront(r[..n], k);
  }

  lemma {:induction false} AbsentFront(s: seq<Entry>, k: string)
    requires k !in Keys(s)
    ensures Without(s, k) == s
  {
    forall i | 0 <= i < |s| ensures s[i].key != k {
      KeyOf(s, i);
    }
    WithoutAbsent(s, k);
  }

  lemma {:induction false} TouchedSnoc(ops: seq<Op>)
    requires ops != [] && DistinctPuts(ops)
    ensures var last := |ops| - 1;
            Touched(ops) == {ops[last].key.Digest()} + Touched(ops[..last]) &&
            ops[last].key.Digest() !in Touched(ops[..last])
  {
    var last := |ops| - 1;
    forall k | k in Touched(ops) ensures k == ops[last].key.Digest() || k in Touched(ops[..last]) {
      var i :| 0 <= i < |ops| && !ops[i].Clear? && ops[i].key.Digest() == k;
      if i < last {
        assert ops[..last][i] == ops[i];
      }
    }
    forall k | k in Touched(ops[..last]) ensures k in Touched(ops) && k != ops[last].key.Digest() {
      var i :| 0 <= i < |ops[..last]| && ops[..last][i].key.Digest() == k;
      assert ops[i] == ops[..last][i];
    }
  }

  lemma {:induction false} RunAppend(cap: nat, s: seq<Entry>, ops: seq<Op>, op: Op)
    ensures Run(cap, s, ops + [op]) == Step(cap, Run(cap, s, ops), op)
    decreases |ops|
  {
    if ops == [] {
      assert ops + [op] == [op];
    } else {
      assert (ops + [op])[1..] == ops[1..] + [op];
      RunAppend(cap, Step(cap, s, ops[0]), ops[1..], op);
    }
  }

  /** cap distinct Puts of other keys evict everything that was there before. */
  lemma {:induction false} Eviction(cap: nat, s: seq<Entry>, ops: seq<Op>, key: Key, now: int)
    requires Unique(s) && |s| <= cap && DistinctPuts(ops) && |ops| == cap
    requires key.Digest() !in Touched(ops)
    ensures GetResult(Run(cap, s, ops), key, now) == None
  {
    PutsFillFront(cap, s, ops);
    var r := Run(cap, s, ops);
    assert r[..|ops|] == r;
    WithoutFacts(r, key.Digest());
  }
}
