/** The bounded response cache: a recency list plus an index, with lazy expiry. */
module LruCache {
  import opened Wrappers

  const NUL: char := '\0'

  datatype Key = Key(providerId: string, premise: string, hypothesis: string)
  {
    predicate Valid() {
      providerId != "" && premise != "" && hypothesis != ""
    }

    /** What the index is keyed by. SHA-256 is taken to be injective, so its input stands for it. */
    function Digest(): string {
      providerId + [NUL] + premise + [NUL] + hypothesis
    }
  }

  lemma {:induction false} CutAtNul(a: string, b: string, c: string, d: string)
    requires NUL !in a && NUL !in c && a + [NUL] + b == c + [NUL] + d
    ensures a == c && b == d
  {
    var x := a + [NUL] + b;
    assert x[|a|] == NUL && x[|c|] == NUL;
    assert forall i | 0 <= i < |a| :: x[i] == a[i] != NUL;
    assert forall i | 0 <= i < |c| :: x[i] == c[i] != NUL;
    assert x[..|a|] == a && x[|a| + 1..] == b;
  }

  /** The separator makes digests unambiguous as long as it stays out of the first two fields. */
  lemma {:induction false} DigestInjective(k: Key, l: Key)
    requires NUL !in k.providerId && NUL !in l.providerId && NUL !in k.premise && NUL !in l.premise
    requires k.Digest() == l.Digest()
    ensures k == l
  {
    var kt, lt := k.premise + [NUL] + k.hypothesis, l.premise + [NUL] + l.hypothesis;
    assert k.Digest() == k.providerId + [NUL] + kt;
    assert l.Digest() == l.providerId + [NUL] + lt;
    CutAtNul(k.providerId, kt, l.providerId, lt);
    CutAtNul(k.premise, k.hypothesis, l.premise, l.hypothesis);
  }

  lemma {:induction false} DigestCollision()
    ensures exists k: Key, l: Key :: k.Valid() && l.Valid() && k != l && k.Digest() == l.Digest()
  {
    var k, l := Key("p", "a" + [NUL] + "b", "c"), Key("p", "a", "b" + [NUL] + "c");
    assert k.Digest() == "p" + [NUL] + "a" + [NUL] + "b" + [NUL] + "c" == l.Digest();
    assert |k.premise| != |l.premise|;
  }

  datatype Score = Score(category: string, confidence: int)

  datatype Entry = Entry(key: string, score: Score, expiresAt: int)

  datatype PutError = InvalidKey | InvalidTTL

  // ----- Specification: a list of entries, most recently used first -----

  predicate Expired(e: Entry, now: int) {
    e.expiresAt != 0 && now > e.expiresAt
  }

  function Find(s: seq<Entry>, k: string): Option<Entry> {
    if s == [] then None
    else if s[0].key == k then Some(s[0])
    else Find(s[1..], k)
  }

  function Without(s: seq<Entry>, k: string): seq<Entry> {
    if s == [] then []
    else if s[0].key == k then Without(s[1..], k)
    else [s[0]] + Without(s[1..], k)
  }

  predicate Hit(s: seq<Entry>, k: string, now: int) {
    Find(s, k).Some? && !Expired(Find(s, k).value, now)
  }

  /** A hit moves to the front, an expired entry is dropped. */
  function Looked(s: seq<Entry>, k: string, now: int): seq<Entry> {
    if Find(s, k).None? then s
    else if Hit(s, k, now) then [Find(s, k).value] + Without(s, k)
    else Without(s, k)
  }

  function Capped(cap: nat, s: seq<Entry>): seq<Entry> {
    if |s| > cap then s[..cap] else s
  }

  function Stored(cap: nat, s: seq<Entry>, e: Entry): seq<Entry> {
    Capped(cap, [e] + Without(s, e.key))
  }

  function GetState(s: seq<Entry>, key: Key, now: int): seq<Entry> {
    if key.Valid() then Looked(s, key.Digest(), now) else s
  }

  function GetResult(s: seq<Entry>, key: Key, now: int): Option<Score> {
    if key.Valid() && Hit(s, key.Digest(), now) then Some(Find(s, key.Digest()).value.score) else None
  }

  function PutState(cap: nat, s: seq<Entry>, key: Key, score: Score, ttl: int, now: int): seq<Entry> {
    if key.Valid() && ttl > 0 then Stored(cap, s, Entry(key.Digest(), score, now + ttl)) else s
  }

  // ----- Implementation -----

  class Element {
    const key: string
    var score: Score
    var expiresAt: int

    constructor (key: string, score: Score, expiresAt: int)
      ensures this.key == key && this.score == score && this.expiresAt == expiresAt
    {
      this.key, this.score, this.expiresAt := key, score, expiresAt;
    }

    function View(): Entry
      reads this
    {
      Entry(key, score, expiresAt)
    }
  }

  predicate Unique(s: seq<Entry>) {
    forall i, j | 0 <= i < j < |s| :: s[i].key != s[j].key
  }

  lemma {:induction false} WithoutAbsent(s: seq<Entry>, k: string)
    requires forall i | 0 <= i < |s| :: s[i].key != k
    ensures Without(s, k) == s && Find(s, k) == None
  {
    if s != [] {
      WithoutAbsent(s[1..], k);
    }
  }

  function DropAt<T>(s: seq<T>, i: nat): (r: seq<T>)
    requires i < |s|
    ensures |r| == |s| - 1
    ensures forall j | 0 <= j < |r| :: r[j] == if j < i then s[j] else s[j + 1]
    ensures forall x | x in r :: x in s
    ensures forall x | x in s && x != s[i] :: x in r
  {
    assert s == s[..i] + [s[i]] + s[i + 1..];
    s[..i] + s[i + 1..]
  }

  lemma {:induction false} WithoutAt(s: seq<Entry>, i: nat)
    requires Unique(s) && i < |s|
    ensures Without(s, s[i].key) == DropAt(s, i)
    ensures Find(s, s[i].key) == Some(s[i])
  {
    if i == 0 {
      WithoutAbsent(s[1..], s[0].key);
    } else {
      WithoutAt(s[1..], i - 1);
      assert s[..i] == [s[0]] + s[1..][..i - 1];
    }
  }

  /** Position of an element in the list. */
  function Position(es: seq<Element>, e: Element): (i: nat)
    requires e in es
    ensures i < |es| && es[i] == e
  {
    if es[0] == e then 0 else 1 + Position(es[1..], e)
  }

  ghost predicate Mirrors(contents: seq<Entry>, order: seq<Element>)
    reads order
  {
    |contents| == |order| && forall i | 0 <= i < |order| :: contents[i] == order[i].View()
  }

  predicate Indexes(index: map<string, Element>, order: seq<Element>) {
    && (forall i | 0 <= i < |order| :: order[i].key in index && index[order[i].key] == order[i])
    && (forall k | k in index :: index[k] in order && index[k].key == k)
  }

  lemma {:induction false} DropEntry(contents: seq<Entry>, order: seq<Element>, i: nat)
    requires Unique(contents) && Mirrors(contents, order) && i < |order|
    ensures Unique(DropAt(contents, i)) && Mirrors(DropAt(contents, i), DropAt(order, i))
    ensures Unique([contents[i]] + DropAt(contents, i))
    ensures Mirrors([contents[i]] + DropAt(contents, i), [order[i]] + DropAt(order, i))
    ensures forall j | 0 <= j < |order| - 1 :: DropAt(order, i)[j].key != order[i].key
  {
  }

  lemma {:induction false} IndexFront(index: map<string, Element>, order: seq<Element>, i: nat)
    requires Indexes(index, order) && i < |order|
    ensures Indexes(index, [order[i]] + DropAt(order, i))
  {
  }

  lemma {:induction false} IndexDrop(index: map<string, Element>, order: seq<Element>, i: nat)
    requires Indexes(index, order) && i < |order|
    requires forall j | 0 <= j < |order| - 1 :: DropAt(order, i)[j].key != order[i].key
    ensures Indexes(index - {order[i].key}, DropAt(order, i))
  {
  }

  class InMemoryLRU {
    const maxEntries: nat
    var order: seq<Element>
    var index: map<string, Element>
    ghost var contents: seq<Entry>

    ghost predicate Valid()
      reads this, order
    {
      maxEntries > 0 && |order| <= maxEntries && Linked()
    }

    /** The list and the index hold the same elements, key for key. */
    ghost predicate Linked()
      reads this, order
    {
      Unique(contents) && Mirrors(contents, order) && Indexes(index, order)
    }

    constructor (maxEntries: nat)
      requires maxEntries > 0
      ensures Valid() && contents == [] && this.maxEntries == maxEntries
    {
      this.maxEntries := maxEntries;
      order := [];
      index := map[];
      contents := [];
    }

    lemma {:induction false} Lookup(k: string)
      requires Linked()
      ensures k in index ==> Find(contents, k) == Some(index[k].View())
      ensures k !in index ==> Find(contents, k) == None && Without(contents, k) == contents
    {
      if k in index {
        WithoutAt(contents, Position(order, index[k]));
      } else {
        WithoutAbsent(contents, k);
      }
    }

    method Remove(el: Element)
      requires Linked() && el in order
      modifies this
      ensures Linked() && |order| == old(|order|) - 1
      ensures contents == Without(old(contents), el.key)
      ensures el !in order && (forall e | e in order :: e in old(order))
      ensures el.key !in index
    {
      var i := Position(order, el);
      WithoutAt(contents, i);
      DropEntry(contents, order, i);
      IndexDrop(index, order, i);
      order := DropAt(order, i);
      index := index - {el.key};
      contents := DropAt(contents, i);
    }

    method PushFront(el: Element)
      requires Linked() && el.key !in index
      modifies this
      ensures Linked() && order == [el] + old(order)
      ensures contents == [el.View()] + old(contents)
    {
      order := [el] + order;
      index := index[el.key := el];
      contents := [el.View()] + contents;
    }

    method MoveToFront(el: Element)
      requires Linked() && el in order
      modifies this`order, this`contents
      ensures Linked() && |order| == old(|order|)
      ensures contents == [el.View()] + Without(old(contents), el.key)
      ensures forall e | e in order :: e in old(order)
    {
      var i := Position(order, el);
      WithoutAt(contents, i);
      DropEntry(contents, order, i);
      IndexFront(index, order, i);
      order := [el] + DropAt(order, i);
      contents := [el.View()] + DropAt(contents, i);
    }

    method Get(key: Key, now: int) returns (r: Option<Score>)
      requires Valid()
      modifies this
      ensures Valid()
      ensures contents == old(GetState(contents, key, now))
      ensures r == old(GetResult(contents, key, now))
      ensures forall e | e in order :: e in old(order)
    {
      var k := key.Digest();
      if !key.Valid() {
        return None;
      }
      Lookup(k);
      if k !in index {
        return None;
      }
      var el := index[k];
      if el.expiresAt != 0 && now > el.expiresAt {
        Remove(el);
        return None;
      }
      MoveToFront(el);
      return Some(el.score);
    }

    method Put(key: Key, score: Score, ttl: int, now: int) returns (r: Result<nat, PutError>)
      requires Valid()
      modifies this, order
      ensures Valid()
      ensures contents == old(PutState(maxEntries, contents, key, score, ttl, now))
      ensures r == if key.providerId == "" || key.premise == "" || key.hypothesis == "" then Err(InvalidKey)
                   else if ttl <= 0 then Err(InvalidTTL)
                   else Ok(|contents|)
      ensures forall e | e in order :: e in old(order) || fresh(e)
    {
      if !key.Valid() {
        return Err(InvalidKey);
      }
      if ttl <= 0 {
        return Err(InvalidTTL);
      }
      Store(key.Digest(), score, now + ttl);
      return Ok(|order|);
    }

    /** Put under its lock: replace in place, or insert and evict. */
    method Store(k: string, score: Score, expiresAt: int)
      requires Valid()
      modifies this, order
      ensures Valid() && contents == Stored(maxEntries, old(contents), Entry(k, score, expiresAt))
      ensures forall e | e in order :: e in old(order) || fresh(e)
    {
      Lookup(k);
      if k in index {
        var el := index[k];
        Overwrite(el, score, expiresAt);
        MoveToFront(el);
      } else {
        var el := new Element(k, score, expiresAt);
        PushFront(el);
        EvictOverCap();
      }
    }

    method EvictOverCap()
      requires maxEntries > 0 && Linked()
      modifies this
      ensures Valid() && contents == Capped(maxEntries, old(contents))
      ensures forall e | e in order :: e in old(order)
    {
      while |order| > maxEntries
        invariant Linked() && contents <= old(contents) && order <= old(order)
        invariant |contents| < |old(contents)| ==> |contents| >= maxEntries
        decreases |order|
      {
        PopBack();
      }
    }

    /** The in-place update of an entry that is already in the list. */
    method Overwrite(el: Element, score: Score, expiresAt: int)
      requires Linked() && el in order
      modifies this`contents, el
      ensures Linked() && order == old(order) && el.View() == Entry(el.key, score, expiresAt)
      ensures Without(contents, el.key) == Without(old(contents), el.key)
    {
      var i := Position(order, el);
      WithoutAt(contents, i);
      el.score := score;
      el.expiresAt := expiresAt;
      contents := contents[i := el.View()];
      WithoutAt(contents, i);
    }

    method PopBack()
      requires Linked() && order != []
      modifies this
      ensures Linked() && order == old(order)[..old(|order|) - 1]
      ensures contents == old(contents)[..old(|order|) - 1]
    {
      var last := |order| - 1;
      var back := order[last];
      order := order[..last];
      index := index - {back.key};
      contents := contents[..last];
    }

    method Clear()
      requires Valid()
      modifies this
      ensures Valid() && contents == []
    {
      order := [];
      index := map[];
      contents := [];
    }

    method Size() returns (n: nat)
      requires Valid()
      ensures n == |contents| <= maxEntries
    {
      n := |order|;
    }
  }

  /** A cap below one is a configuration error. */
  method NewInMemoryLRU(maxEntries: int) returns (r: Option<InMemoryLRU>)
    ensures r.None? <==> maxEntries <= 0
    ensures r.Some? ==> fresh(r.value) && r.value.Valid() && r.value.contents == [] && r.value.maxEntries == maxEntries
  {
    if maxEntries <= 0 {
      return None;
    }
    var cache := new InMemoryLRU(maxEntries);
    return Some(cache);
  }
}
