/** Retrieval pipeline stages: duplicate removal, confidence filter, top-N cap. */
module Economy {
  import opened Wrappers

  datatype Item = Item(id: int, url: string, title: string, source: string, confidence: int, snippet: string)

  datatype Key = Key(url: string, title: string, source: string)

  function KeyOf(it: Item): Key {
    Key(it.url, it.title, it.source)
  }

  // ----- Duplicate removal -----

  /** The keys of a list in order of first occurrence. */
  function Keys(items: seq<Item>): seq<Key> {
    if items == [] then []
    else
      var init, last := Keys(items[..|items| - 1]), KeyOf(items[|items| - 1]);
      if last in init then init else init + [last]
  }

  /** b is the position of the earliest most confident copy of key k. */
  predicate IsBest(items: seq<Item>, k: Key, b: nat) {
    && b < |items| && KeyOf(items[b]) == k
    && (forall j | 0 <= j < b :: KeyOf(items[j]) == k ==> items[j].confidence < items[b].confidence)
    && (forall j | b < j < |items| :: KeyOf(items[j]) == k ==> items[j].confidence <= items[b].confidence)
  }

  /** Position of the earliest most confident copy of a key, None when the key is absent. */
  function Best(items: seq<Item>, k: Key): (b: Option<nat>)
    ensures match b
            case Some(i) => IsBest(items, k, i)
            case None => forall j | 0 <= j < |items| :: KeyOf(items[j]) != k
  {
    if items == [] then None
    else
      var best, i := Best(items[..|items| - 1], k), |items| - 1;
      if KeyOf(items[i]) == k && (best.None? || items[i].confidence > items[best.value].confidence) then Some(i) else best
  }

  lemma {:induction false} KeysHaveBest(items: seq<Item>)
    ensures forall k :: k in Keys(items) <==> Best(items, k).Some?
  {
    if items != [] {
      KeysHaveBest(items[..|items| - 1]);
    }
  }

  /** One item a key: the earliest most confident copy, keys in order of first occurrence. */
  function Deduped(items: seq<Item>): (r: seq<Item>)
    ensures |r| == |Keys(items)|
    ensures forall i | 0 <= i < |r| ::
              Best(items, Keys(items)[i]).Some? && r[i] == items[Best(items, Keys(items)[i]).value]
  {
    var ks := Keys(items);
    KeysHaveBest(items);
    assert forall i | 0 <= i < |ks| :: ks[i] in ks;
    seq(|ks|, i requires 0 <= i < |ks| => items[Best(items, ks[i]).value])
  }

  lemma {:induction false} KeysStep(items: seq<Item>, i: nat)
    requires i < |items|
    ensures var was, now := Keys(items[..i]), Keys(items[..i + 1]);
            now == if KeyOf(items[i]) in was then was else was + [KeyOf(items[i])]
  {
    assert items[..i + 1][..i] == items[..i];
  }

  /** The position of every key's best copy. */
  function BestMap(items: seq<Item>): (m: map<Key, nat>)
    ensures forall k | k in m :: m[k] < |items|
  {
    if items == [] then map[]
    else
      var best, i := BestMap(items[..|items| - 1]), |items| - 1;
      var k := KeyOf(items[i]);
      if k !in best || items[i].confidence > items[best[k]].confidence then best[k := i] else best
  }

  lemma {:induction false} BestMapIsBest(items: seq<Item>, k: Key)
    ensures Best(items, k) == if k in BestMap(items) then Some(BestMap(items)[k]) else None
  {
    if items != [] {
      BestMapIsBest(items[..|items| - 1], k);
    }
  }

  lemma {:induction false} KeysAreMapped(items: seq<Item>, k: Key)
    ensures k in Keys(items) <==> k in BestMap(items)
  {
    KeysHaveBest(items);
    BestMapIsBest(items, k);
  }

  lemma {:induction false} BestMapStep(items: seq<Item>, i: nat)
    requires i < |items|
    ensures var best, k := BestMap(items[..i]), KeyOf(items[i]);
            BestMap(items[..i + 1]) ==
            if k !in best || items[i].confidence > items[best[k]].confidence then best[k := i] else best
  {
    assert items[..i + 1][..i] == items[..i];
  }

  /** What one turn of the loop owes. */
  lemma {:induction false} DedupTurn(items: seq<Item>, i: nat)
    requires i < |items|
    ensures var best, k := BestMap(items[..i]), KeyOf(items[i]);
            && BestMap(items[..i + 1]) ==
               (if k !in best || items[i].confidence > items[best[k]].confidence then best[k := i] else best)
            && Keys(items[..i + 1]) == if k in best then Keys(items[..i]) else Keys(items[..i]) + [k]
  {
    KeysStep(items, i);
    KeysAreMapped(items[..i], KeyOf(items[i]));
    BestMapStep(items, i);
  }

  method Dedup(items: seq<Item>) returns (out: seq<Item>)
    ensures out == Deduped(items)
  {
    if |items| <= 1 {
      SmallIsDeduped(items);
      return items;
    }
    var best: map<Key, nat> := map[];
    var order: seq<Key> := [];
    for i := 0 to |items|
      invariant order == Keys(items[..i]) && best == BestMap(items[..i])
    {
      var k := KeyOf(items[i]);
      DedupTurn(items, i);
      if k in best {
        if items[i].confidence > items[best[k]].confidence {
          best := best[k := i];
        }
      } else {
        best := best[k := i];
        order := order + [k];
      }
    }
    assert items[..|items|] == items;
    out := InKeyOrder(items, order, best);
  }

  /** The best copies, in the order in which their keys were first seen. */
  method InKeyOrder(items: seq<Item>, order: seq<Key>, best: map<Key, nat>) returns (out: seq<Item>)
    requires order == Keys(items) && best == BestMap(items)
    ensures out == Deduped(items)
  {
    out := [];
    for i := 0 to |order|
      invariant |out| == i && forall j | 0 <= j < i :: out[j] == Deduped(items)[j]
    {
      DedupedAt(items, i);
      out := out + [items[best[order[i]]]];
    }
  }

  lemma {:induction false} DedupedAt(items: seq<Item>, i: nat)
    requires i < |Keys(items)|
    ensures var k := Keys(items)[i]; k in BestMap(items) && Deduped(items)[i] == items[BestMap(items)[k]]
  {
    KeysAreMapped(items, Keys(items)[i]);
    BestMapIsBest(items, Keys(items)[i]);
  }

  lemma {:induction false} SmallIsDeduped(items: seq<Item>)
    requires |items| <= 1
    ensures Deduped(items) == items
  {
    if items != [] {
      assert items[..0] == [] && Keys(items) == [KeyOf(items[0])];
    }
  }

  predicate DistinctKeys(ks: seq<Key>) {
    forall i, j | 0 <= i < j < |ks| :: ks[i] != ks[j]
  }

  function KeysInOrder(items: seq<Item>): (ks: seq<Key>)
    ensures |ks| == |items| && forall i | 0 <= i < |items| :: ks[i] == KeyOf(items[i])
  {
    seq(|items|, i requires 0 <= i < |items| => KeyOf(items[i]))
  }

  lemma {:induction false} KeysAreDistinct(items: seq<Item>)
    ensures DistinctKeys(Keys(items))
  {
    if items != [] {
      KeysAreDistinct(items[..|items| - 1]);
    }
  }

  lemma {:induction false} KeysOfDistinct(items: seq<Item>)
    requires DistinctKeys(KeysInOrder(items))
    ensures Keys(items) == KeysInOrder(items)
  {
    if items != [] {
      var init := items[..|items| - 1];
      assert KeysInOrder(items) == KeysInOrder(init) + [KeyOf(items[|items| - 1])];
      KeysOfDistinct(init);
    }
  }

  lemma {:induction false} DedupedKeys(items: seq<Item>)
    ensures KeysInOrder(Deduped(items)) == Keys(items)
  {
    var r := Deduped(items);
    forall i | 0 <= i < |r| ensures KeyOf(r[i]) == Keys(items)[i] {
      assert IsBest(items, Keys(items)[i], Best(items, Keys(items)[i]).value);
    }
  }

  /** With no key repeated nothing is removed. */
  lemma {:induction false} DistinctIsDeduped(items: seq<Item>)
    requires DistinctKeys(KeysInOrder(items))
    ensures Deduped(items) == items
  {
    KeysOfDistinct(items);
    forall i | 0 <= i < |items| ensures Deduped(items)[i] == items[i] {
      var b := Best(items, Keys(items)[i]).value;
      assert IsBest(items, Keys(items)[i], b);
      assert KeysInOrder(items)[b] == KeysInOrder(items)[i];
    }
  }

  /** Removing duplicates twice is removing them once. */
  lemma {:induction false} DedupIdempotent(items: seq<Item>)
    ensures Deduped(Deduped(items)) == Deduped(items)
  {
    DedupedKeys(items);
    KeysAreDistinct(items);
    DistinctIsDeduped(Deduped(items));
  }

  // ----- The documented notion of a duplicate -----

  predicate SameWork(a: Item, b: Item) {
    a.url == b.url && a.title == b.title && a.source == b.source
  }

  predicate SharesUrlOrTitle(a: Item, b: Item) {
    a.url == b.url || (a.title == b.title && a.source == b.source)
  }

  /** No two items share a URL, or a title together with a source. */
  predicate DuplicateFree(items: seq<Item>) {
    forall i, j | 0 <= i < j < |items| :: !SharesUrlOrTitle(items[i], items[j])
  }

  lemma {:induction false} CopyKept(items: seq<Item>, i: nat) returns (k: nat)
    requires i < |items|
    ensures k < |Deduped(items)| && KeyOf(Deduped(items)[k]) == KeyOf(items[i])
  {
    KeysHaveBest(items);
    assert Best(items, KeyOf(items[i])).Some?;
    k :| 0 <= k < |Keys(items)| && Keys(items)[k] == KeyOf(items[i]);
    DedupedKeys(items);
    assert KeysInOrder(Deduped(items))[k] == KeyOf(Deduped(items)[k]);
  }

  lemma {:induction false} KeptFromInput(items: seq<Item>, k: nat) returns (i: nat)
    requires k < |Deduped(items)|
    ensures i < |items| && items[i] == Deduped(items)[k]
  {
    i := Best(items, Keys(items)[k]).value;
    assert IsBest(items, Keys(items)[k], i);
  }

  /** "Duplicate URL or duplicate title and source" is removed iff input items that share one of them share all three. */
  lemma {:induction false} DocumentedDuplicatesIff(items: seq<Item>)
    ensures DuplicateFree(Deduped(items)) <==>
            forall a, b | a in items && b in items && SharesUrlOrTitle(a, b) :: SameWork(a, b)
  {
    var out := Deduped(items);
    DedupedKeys(items);
    KeysAreDistinct(items);
    if DuplicateFree(out) {
      forall a, b | a in items && b in items && SharesUrlOrTitle(a, b) ensures SameWork(a, b) {
        var i :| 0 <= i < |items| && items[i] == a;
        var j :| 0 <= j < |items| && items[j] == b;
        var k := CopyKept(items, i);
        var l := CopyKept(items, j);
        SharingIsByKey(a, b, out[k], out[l]);
      }
    }
    if forall a, b | a in items && b in items && SharesUrlOrTitle(a, b) :: SameWork(a, b) {
      forall k, l | 0 <= k < l < |out| ensures !SharesUrlOrTitle(out[k], out[l]) {
        var i := KeptFromInput(items, k);
        var j := KeptFromInput(items, l);
        assert items[i] in items && items[j] in items;
        assert KeysInOrder(out)[k] != KeysInOrder(out)[l];
      }
    }
  }

  /** Every input item is represented by a kept one with its URL, title and source, at least as confident, and nothing else is kept. */
  lemma {:induction false} EveryItemRepresented(items: seq<Item>)
    ensures forall a | a in items ::
              exists b :: b in Deduped(items) && b.confidence >= a.confidence && SameWork(a, b)
    ensures forall b | b in Deduped(items) :: b in items
  {
    var out := Deduped(items);
    forall a | a in items
      ensures exists b :: b in out && b.confidence >= a.confidence && SameWork(a, b)
    {
      var i :| 0 <= i < |items| && items[i] == a;
      KeysHaveBest(items);
      assert Best(items, KeyOf(a)).Some?;
      var k :| 0 <= k < |Keys(items)| && Keys(items)[k] == KeyOf(a);
      assert IsBest(items, KeyOf(a), Best(items, KeyOf(a)).value);
      assert out[k] in out;
    }
    forall b | b in out ensures b in items {
      var k :| 0 <= k < |out| && out[k] == b;
      var i := KeptFromInput(items, k);
    }
  }

  lemma {:induction false} SharingIsByKey(a: Item, b: Item, c: Item, d: Item)
    requires KeyOf(a) == KeyOf(c) && KeyOf(b) == KeyOf(d)
    ensures SharesUrlOrTitle(a, b) == SharesUrlOrTitle(c, d)
  {
  }

  const SAME_URL: seq<Item> := [Item(1, "u", "t", "s", 5, ""), Item(2, "u", "x", "s", 5, "")]

  /** Two items with one URL and different titles both stay. */
  lemma {:induction false} SameUrlKept()
    ensures Deduped(SAME_URL) == SAME_URL && !DuplicateFree(SAME_URL)
  {
    var ks := KeysInOrder(SAME_URL);
    assert ks[0].title == "t" && ks[1].title == "x" && "t"[0] != "x"[0];
    DistinctIsDeduped(SAME_URL);
    assert SharesUrlOrTitle(SAME_URL[0], SAME_URL[1]);
  }

  // ----- Confidence filter -----

  function AtLeastOnly(items: seq<Item>, t: int): seq<Item> {
    if items == [] then []
    else
      var init, last := AtLeastOnly(items[..|items| - 1], t), items[|items| - 1];
      if last.confidence >= t then init + [last] else init
  }

  function Confident(items: seq<Item>, t: int): seq<Item> {
    if t <= 0 then items else AtLeastOnly(items, t)
  }

  method FilterConfidence(items: seq<Item>, threshold: int) returns (out: seq<Item>)
    ensures out == Confident(items, threshold)
  {
    if threshold <= 0 {
      return items;
    }
    out := [];
    for i := 0 to |items|
      invariant out == AtLeastOnly(items[..i], threshold)
    {
      assert items[..i + 1][..i] == items[..i];
      if items[i].confidence >= threshold {
        out := out + [items[i]];
      }
    }
    assert items[..|items|] == items;
  }

  /** A threshold at or below zero keeps every item, and so is not the filter its sign suggests. */
  lemma {:induction false} ThresholdMeaning(items: seq<Item>, t: int, it: Item)
    ensures it in Confident(items, t) <==> it in items && (t <= 0 || it.confidence >= t)
  {
    if t > 0 && items != [] {
      var init, last := items[..|items| - 1], items[|items| - 1];
      ThresholdMeaning(init, t, it);
      assert it in items <==> it in init || it == last;
    }
  }

  /** As documented: zero keeps all, a negative threshold keeps none. */
  function DocConfident(items: seq<Item>, t: int): seq<Item> {
    if t < 0 then [] else if t == 0 then items else AtLeastOnly(items, t)
  }

  /** The documentation is followed exactly when the threshold is not negative or there is nothing to keep. */
  lemma {:induction false} DocumentedThresholdIff(items: seq<Item>, t: int)
    ensures Confident(items, t) == DocConfident(items, t) <==> t >= 0 || items == []
    ensures t < 0 ==> Confident(items, t) == items
  {
  }

  lemma {:induction false} FilterConcat(a: seq<Item>, b: seq<Item>, t: int)
    ensures AtLeastOnly(a + b, t) == AtLeastOnly(a, t) + AtLeastOnly(b, t)
  {
    if b == [] {
      assert a + b == a;
    } else {
      FilterConcat(a, b[..|b| - 1], t);
      assert (a + b)[..|a + b| - 1] == a + b[..|b| - 1];
    }
  }

  // ----- Top-N cap -----

  datatype Ranked = Ranked(idx: nat, item: Item)

  /** Insert after every element whose key is not greater. */
  function Insert<T>(s: seq<T>, x: T, key: T -> int): (r: seq<T>)
    ensures |r| == |s| + 1
  {
    if s == [] then [x]
    else if key(s[|s| - 1]) <= key(x) then s + [x]
    else Insert(s[..|s| - 1], x, key) + [s[|s| - 1]]
  }

  /** The library's stable sort, ascending by key. */
  function StableSort<T>(s: seq<T>, key: T -> int): (r: seq<T>)
    ensures |r| == |s|
  {
    if s == [] then [] else Insert(StableSort(s[..|s| - 1], key), s[|s| - 1], key)
  }

  function Number(items: seq<Item>): (rs: seq<Ranked>)
    ensures |rs| == |items|
    ensures forall i | 0 <= i < |rs| :: rs[i] == Ranked(i, items[i])
  {
    seq(|items|, i requires 0 <= i < |items| => Ranked(i, items[i]))
  }

  function Items(rs: seq<Ranked>): (items: seq<Item>)
    ensures |items| == |rs|
    ensures forall i | 0 <= i < |rs| :: items[i] == rs[i].item
  {
    seq(|rs|, i requires 0 <= i < |rs| => rs[i].item)
  }

  const DESCENDING: Ranked -> int := (r: Ranked) => -r.item.confidence

  /** The position of the first element of sorted with the target's id. */
  function OriginalIndex(sorted: seq<Ranked>, target: Item): nat {
    if sorted == [] then 0
    else if sorted[0].item.id == target.id then sorted[0].idx
    else OriginalIndex(sorted[1..], target)
  }

  function ByOrigin(sorted: seq<Ranked>): Item -> int {
    it => OriginalIndex(sorted, it)
  }

  function Sorted(items: seq<Item>): seq<Ranked> {
    StableSort(Number(items), DESCENDING)
  }

  function Capped(items: seq<Item>, n: int): seq<Item> {
    if n <= 0 || |items| <= n then items
    else StableSort(Items(Sorted(items)[..n]), ByOrigin(Sorted(items)))
  }

  method CapTop(items: seq<Item>, n: int) returns (out: seq<Item>)
    ensures out == Capped(items, n)
  {
    if n <= 0 || |items| <= n {
      return items;
    }
    var ranked: seq<Ranked> := [];
    for i := 0 to |items|
      invariant |ranked| == i && forall j | 0 <= j < i :: ranked[j] == Ranked(j, items[j])
    {
      ranked := ranked + [Ranked(i, items[i])];
    }
    assert ranked == Number(items);
    var sorted := StableSort(ranked, DESCENDING);
    out := [];
    for i := 0 to n
      invariant |out| == i && forall j | 0 <= j < i :: out[j] == sorted[j].item
    {
      out := out + [sorted[i].item];
    }
    assert out == Items(sorted[..n]);
    out := StableSort(out, ByOrigin(sorted));
  }

  // ----- What the cap promises -----

  function AtLeast(items: seq<Item>, c: int): nat {
    if items == [] then 0
    else AtLeast(items[..|items| - 1], c) + if items[|items| - 1].confidence >= c then 1 else 0
  }

  function Above(items: seq<Item>, c: int): nat {
    if items == [] then 0
    else Above(items[..|items| - 1], c) + if items[|items| - 1].confidence > c then 1 else 0
  }

  /** How many items are better: earlier and at least as confident, or later and more confident. */
  function Rank(items: seq<Item>, i: nat): nat
    requires i < |items|
  {
    AtLeast(items[..i], items[i].confidence) + Above(items[i + 1..], items[i].confidence)
  }

  /** From position m on, the positions with fewer than n better ones. */
  function KeepFrom(items: seq<Item>, m: nat, n: int): seq<Ranked>
    requires m <= |items|
    decreases |items| - m
  {
    if m == |items| then []
    else if Rank(items, m) < n then [Ranked(m, items[m])] + KeepFrom(items, m + 1, n)
    else KeepFrom(items, m + 1, n)
  }

  /** The n best items in input order. */
  function TopN(items: seq<Item>, n: int): seq<Item> {
    Items(KeepFrom(items, 0, n))
  }

  // ----- The stable sort -----

  predicate Ordered<T(!new)>(s: seq<T>, key: T -> int, before: (T, T) -> bool) {
    forall i, j | 0 <= i < j < |s| :: key(s[i]) < key(s[j]) || (key(s[i]) == key(s[j]) && before(s[i], s[j]))
  }

  predicate Chained<T(!new)>(s: seq<T>, before: (T, T) -> bool) {
    forall i, j | 0 <= i < j < |s| :: before(s[i], s[j])
  }

  lemma {:induction false} InsertMembers<T>(s: seq<T>, x: T, key: T -> int)
    ensures forall y :: y in Insert(s, x, key) <==> y in s || y == x
  {
    if s != [] && key(s[|s| - 1]) > key(x) {
      InsertMembers(s[..|s| - 1], x, key);
      assert s == s[..|s| - 1] + [s[|s| - 1]];
    }
  }

  lemma {:induction false} SortMembers<T>(s: seq<T>, key: T -> int)
    ensures forall y :: y in StableSort(s, key) <==> y in s
  {
    if s != [] {
      SortMembers(s[..|s| - 1], key);
      InsertMembers(StableSort(s[..|s| - 1], key), s[|s| - 1], key);
      assert s == s[..|s| - 1] + [s[|s| - 1]];
    }
  }

  lemma {:induction false} InsertOrdered<T(!new)>(s: seq<T>, x: T, key: T -> int, before: (T, T) -> bool)
    requires Ordered(s, key, before) && forall y | y in s :: before(y, x)
    ensures Ordered(Insert(s, x, key), key, before)
  {
    if s != [] {
      var last := s[|s| - 1];
      assert last in s;
      if key(last) <= key(x) {
        forall i | 0 <= i < |s| ensures key(s[i]) <= key(x) {
          assert i < |s| - 1 ==> key(s[i]) <= key(last);
        }
      } else {
        var init := s[..|s| - 1];
        InsertOrdered(init, x, key, before);
        InsertMembers(init, x, key);
        var r := Insert(init, x, key);
        forall i | 0 <= i < |r| ensures key(r[i]) < key(last) || (key(r[i]) == key(last) && before(r[i], last)) {
          assert r[i] in r;
          if r[i] != x {
            var j :| 0 <= j < |init| && init[j] == r[i];
            assert s[j] == r[i];
          }
        }
      }
    }
  }

  /** A stable sort orders by key, and by the input's own order among equal keys. */
  lemma {:induction false} SortOrdered<T(!new)>(s: seq<T>, key: T -> int, before: (T, T) -> bool)
    requires Chained(s, before)
    ensures Ordered(StableSort(s, key), key, before)
  {
    if s != [] {
      var init, last := s[..|s| - 1], s[|s| - 1];
      SortOrdered(init, key, before);
      SortMembers(init, key);
      forall y | y in StableSort(init, key) ensures before(y, last) {
        var j :| 0 <= j < |init| && init[j] == y;
        assert s[j] == y;
      }
      InsertOrdered(StableSort(init, key), last, key, before);
    }
  }

  ghost predicate Asymmetric<T(!new)>(before: (T, T) -> bool) {
    forall x, y :: before(x, y) ==> !before(y, x)
  }

  lemma {:induction false} FirstIn<T>(s: seq<T>)
    ensures s == [] || s[0] in s
  {
  }

  /** Two strictly ordered lists with the same members are equal. */
  lemma {:induction false} OrderedUnique<T(!new)>(a: seq<T>, b: seq<T>, before: (T, T) -> bool)
    requires Chained(a, before) && Chained(b, before) && Asymmetric(before)
    requires forall x :: x in a <==> x in b
    ensures a == b
  {
    if a != [] && b != [] {
      assert a[|a| - 1] in a && b[|b| - 1] in b;
      LastsAgree(a, b, before);
      var a', b' := a[..|a| - 1], b[..|b| - 1];
      forall z ensures z in a' <==> z in b' {
        NotLast(a, before, z);
        NotLast(b, before, z);
      }
      OrderedUnique(a', b', before);
      assert a == a[..|a| - 1] + [a[|a| - 1]] && b == b[..|b| - 1] + [b[|b| - 1]];
    } else {
      FirstIn(a);
      FirstIn(b);
    }
  }

  lemma {:induction false} NotLast<T(!new)>(a: seq<T>, before: (T, T) -> bool, z: T)
    requires a != [] && Chained(a, before) && Asymmetric(before)
    ensures z in a[..|a| - 1] <==> z in a && z != a[|a| - 1]
  {
    var x := a[|a| - 1];
    forall i | 0 <= i < |a| - 1 ensures a[i] != x {
      assert before(a[i], x);
    }
    assert a == a[..|a| - 1] + [x];
  }

  lemma {:induction false} LastsAgree<T(!new)>(a: seq<T>, b: seq<T>, before: (T, T) -> bool)
    requires Chained(a, before) && Chained(b, before) && Asymmetric(before) && a != [] && b != []
    requires a[|a| - 1] in b && b[|b| - 1] in a
    ensures a[|a| - 1] == b[|b| - 1]
  {
    var x, y := a[|a| - 1], b[|b| - 1];
    assert x != y ==> before(x, y);
    assert x != y ==> before(y, x);
  }

  lemma {:induction false} InsertMap(rs: seq<Ranked>, x: Ranked, key: Item -> int, keyR: Ranked -> int)
    requires forall r :: keyR(r) == key(r.item)
    ensures Items(Insert(rs, x, keyR)) == Insert(Items(rs), x.item, key)
  {
    if rs != [] {
      var init := rs[..|rs| - 1];
      InsertMap(init, x, key, keyR);
      assert Items(rs)[..|rs| - 1] == Items(init);
      assert Items(rs)[|rs| - 1] == rs[|rs| - 1].item;
    }
  }

  /** Sorting numbered items by a key of the item is sorting the items. */
  lemma {:induction false} SortMap(rs: seq<Ranked>, key: Item -> int, keyR: Ranked -> int)
    requires forall r :: keyR(r) == key(r.item)
    ensures Items(StableSort(rs, keyR)) == StableSort(Items(rs), key)
  {
    if rs == [] {
    } else {
      var init := rs[..|rs| - 1];
      SortMap(init, key, keyR);
      assert Items(rs)[..|rs| - 1] == Items(init);
      InsertMap(StableSort(init, keyR), rs[|rs| - 1], key, keyR);
    }
  }

  // ----- Ranks -----

  predicate Beats(a: Ranked, b: Ranked) {
    a.item.confidence > b.item.confidence || (a.item.confidence == b.item.confidence && a.idx < b.idx)
  }

  function CountBeats(rs: seq<Ranked>, r: Ranked): nat {
    if rs == [] then 0
    else CountBeats(rs[..|rs| - 1], r) + if Beats(rs[|rs| - 1], r) then 1 else 0
  }

  lemma {:induction false} CountInsert(rs: seq<Ranked>, x: Ranked, key: Ranked -> int, r: Ranked)
    ensures CountBeats(Insert(rs, x, key), r) == CountBeats(rs, r) + if Beats(x, r) then 1 else 0
  {
    if rs == [] {
      assert [x][..0] == [];
    } else if key(rs[|rs| - 1]) <= key(x) {
      assert (rs + [x])[..|rs|] == rs;
    } else {
      var init := rs[..|rs| - 1];
      CountInsert(init, x, key, r);
      var s := Insert(init, x, key);
      assert (s + [rs[|rs| - 1]])[..|s|] == s;
    }
  }

  lemma {:induction false} CountSort(rs: seq<Ranked>, key: Ranked -> int, r: Ranked)
    ensures CountBeats(StableSort(rs, key), r) == CountBeats(rs, r)
  {
    if rs != [] {
      CountSort(rs[..|rs| - 1], key, r);
      CountInsert(StableSort(rs[..|rs| - 1], key), rs[|rs| - 1], key, r);
    }
  }

  lemma {:induction false} CountIsPosition(rs: seq<Ranked>, m: nat, p: nat)
    requires m <= |rs| && p < |rs|
    requires Chained(rs, Beats)
    ensures CountBeats(rs[..m], rs[p]) == if m <= p then m else p
  {
    if m > 0 {
      CountIsPosition(rs, m - 1, p);
      assert rs[..m][..m - 1] == rs[..m - 1];
      if m - 1 > p {
        assert Beats(rs[p], rs[m - 1]);
      }
    }
  }

  lemma {:induction false} CountConcat(a: seq<Ranked>, b: seq<Ranked>, r: Ranked)
    ensures CountBeats(a + b, r) == CountBeats(a, r) + CountBeats(b, r)
  {
    if b == [] {
      assert a + b == a;
    } else {
      CountConcat(a, b[..|b| - 1], r);
      assert (a + b)[..|a + b| - 1] == a + b[..|b| - 1];
    }
  }

  /** Earlier items beat r when they are at least as confident. */
  lemma {:induction false} CountEarlier(rs: seq<Ranked>, r: Ranked)
    requires forall q | q in rs :: q.idx < r.idx
    ensures CountBeats(rs, r) == AtLeast(Items(rs), r.item.confidence)
  {
    if rs != [] {
      assert rs[|rs| - 1] in rs;
      CountEarlier(rs[..|rs| - 1], r);
      assert Items(rs)[..|rs| - 1] == Items(rs[..|rs| - 1]);
    }
  }

  /** Later items, and r itself, beat r when they are more confident. */
  lemma {:induction false} CountLater(rs: seq<Ranked>, r: Ranked)
    requires forall q | q in rs :: q.idx >= r.idx
    ensures CountBeats(rs, r) == Above(Items(rs), r.item.confidence)
  {
    if rs != [] {
      assert rs[|rs| - 1] in rs;
      CountLater(rs[..|rs| - 1], r);
      assert Items(rs)[..|rs| - 1] == Items(rs[..|rs| - 1]);
    }
  }

  predicate NumberLess(a: Ranked, b: Ranked) { a.idx < b.idx }

  lemma {:induction false} SortedIsBeating(items: seq<Item>)
    ensures Chained(Sorted(items), Beats)
  {
    var sorted := Sorted(items);
    SortOrdered(Number(items), DESCENDING, NumberLess);
    assert forall i, j | 0 <= i < j < |sorted| :: Beats(sorted[i], sorted[j]);
  }

  lemma {:induction false} SortedMembers(items: seq<Item>, r: Ranked)
    ensures r in Sorted(items) <==> r.idx < |items| && r.item == items[r.idx]
  {
    SortMembers(Number(items), DESCENDING);
    assert r in Number(items) <==> r.idx < |items| && Number(items)[r.idx] == r;
  }

  lemma {:induction false} NumberParts(items: seq<Item>, i: nat)
    requires i < |items|
    ensures Items(Number(items)[..i]) == items[..i]
    ensures Items(Number(items)[i..]) == [items[i]] + items[i + 1..]
  {
  }

  lemma {:induction false} CountIsRank(items: seq<Item>, i: nat)
    requires i < |items|
    ensures CountBeats(Number(items), Ranked(i, items[i])) == Rank(items, i)
  {
    var rs, r := Number(items), Ranked(i, items[i]);
    assert rs == rs[..i] + rs[i..];
    CountConcat(rs[..i], rs[i..], r);
    CountEarlier(rs[..i], r);
    CountLater(rs[i..], r);
    NumberParts(items, i);
    AboveFirst(items[i], items[i + 1..]);
  }

  /** An item is not more confident than itself. */
  lemma {:induction false} AboveFirst(x: Item, rest: seq<Item>)
    ensures Above([x] + rest, x.confidence) == Above(rest, x.confidence)
  {
    if rest == [] {
      assert ([x] + rest)[..0] == [];
    } else {
      AboveFirst(x, rest[..|rest| - 1]);
      assert ([x] + rest)[..|rest|] == [x] + rest[..|rest| - 1];
    }
  }

  lemma {:induction false} SortedPosition(items: seq<Item>, p: nat)
    requires p < |items|
    ensures CountBeats(Sorted(items), Sorted(items)[p]) == p
  {
    var sorted := Sorted(items);
    SortedIsBeating(items);
    CountIsPosition(sorted, |sorted|, p);
    assert sorted[..|sorted|] == sorted;
  }

  /** The confidence sort puts every item at the position given by its rank. */
  lemma {:induction false} SortedByRank(items: seq<Item>, p: nat)
    requires p < |items|
    ensures var r := Sorted(items)[p]; r.idx < |items| && r.item == items[r.idx] && Rank(items, r.idx) == p
  {
    var r := Sorted(items)[p];
    assert r in Sorted(items);
    SortedMembers(items, r);
    SortedPosition(items, p);
    CountSort(Number(items), DESCENDING, r);
    CountIsRank(items, r.idx);
  }

  lemma {:induction false} InHead(rs: seq<Ranked>, n: nat, p: nat)
    requires n <= |rs| && p < |rs|
    ensures p < n ==> rs[p] in rs[..n]
  {
    if p < n {
      assert rs[..n][p] == rs[p];
    }
  }

  /** The first n of the sorted items are the ones with rank below n. */
  lemma {:induction false} HeadMembers(items: seq<Item>, n: nat, r: Ranked)
    requires n <= |items|
    ensures r in Sorted(items)[..n] <==> r.idx < |items| && r.item == items[r.idx] && Rank(items, r.idx) < n
  {
    var sorted := Sorted(items);
    if r in sorted[..n] {
      var p :| 0 <= p < n && sorted[p] == r;
      SortedByRank(items, p);
    } else if r.idx < |items| && r.item == items[r.idx] {
      SortedMembers(items, r);
      var p :| 0 <= p < |sorted| && sorted[p] == r;
      SortedByRank(items, p);
      assert p >= n by {
        InHead(sorted, n, p);
      }
    }
  }

  lemma {:induction false} KeptMembers(items: seq<Item>, m: nat, n: int, r: Ranked)
    requires m <= |items|
    ensures r in KeepFrom(items, m, n) <==>
            m <= r.idx < |items| && r.item == items[r.idx] && Rank(items, r.idx) < n
    decreases |items| - m
  {
    if m < |items| {
      KeptMembers(items, m + 1, n, r);
    }
  }

  lemma {:induction false} KeptInOrder(items: seq<Item>, m: nat, n: int)
    requires m <= |items|
    ensures Chained(KeepFrom(items, m, n), NumberLess)
    decreases |items| - m
  {
    if m < |items| {
      KeptInOrder(items, m + 1, n);
      forall r | r in KeepFrom(items, m + 1, n) ensures m < r.idx {
        KeptMembers(items, m + 1, n, r);
      }
    }
  }

  // ----- The cap keeps the best items -----

  /** The position recorded for the first sorted item with item i's id. */
  function Leader(items: seq<Item>, i: nat): nat
    requires i < |items|
  {
    OriginalIndex(Sorted(items), items[i])
  }

  lemma {:induction false} OriginIn(sorted: seq<Ranked>, target: Item) returns (p: nat)
    requires exists r :: r in sorted && r.item.id == target.id
    ensures p < |sorted| && sorted[p].idx == OriginalIndex(sorted, target) && sorted[p].item.id == target.id
    ensures forall q | 0 <= q < p :: sorted[q].item.id != target.id
  {
    if sorted[0].item.id == target.id {
      p := 0;
    } else {
      var r :| r in sorted && r.item.id == target.id;
      assert sorted == [sorted[0]] + sorted[1..];
      assert r in sorted[1..];
      p := OriginIn(sorted[1..], target);
      p := p + 1;
    }
  }

  /** A leader carries the same id and is the best ranked item that does. */
  lemma {:induction false} LeaderIsBest(items: seq<Item>, i: nat, j: nat)
    requires i < |items| && j < |items| && items[j].id == items[i].id
    ensures var l := Leader(items, i); l < |items| && items[l].id == items[i].id && Rank(items, l) <= Rank(items, j)
  {
    var sorted := Sorted(items);
    SortedMembers(items, Ranked(j, items[j]));
    var p := OriginIn(sorted, items[i]);
    SortedByRank(items, p);
    var q :| 0 <= q < |sorted| && sorted[q] == Ranked(j, items[j]);
    SortedByRank(items, q);
  }

  /** No kept item comes after a kept item whose id leads later, or after a less confident one with its own id. */
  predicate OrderSafe(items: seq<Item>, n: int) {
    forall i, j | 0 <= i < j < |items| && Rank(items, i) < n && Rank(items, j) < n ::
      || Leader(items, i) < Leader(items, j)
      || (items[i].id == items[j].id && items[i].confidence >= items[j].confidence)
  }

  function ByLeader(sorted: seq<Ranked>): Ranked -> int {
    (r: Ranked) => OriginalIndex(sorted, r.item)
  }

  function LeaderThenRank(sorted: seq<Ranked>): (Ranked, Ranked) -> bool {
    (a: Ranked, b: Ranked) =>
      var x, y := OriginalIndex(sorted, a.item), OriginalIndex(sorted, b.item);
      x < y || (x == y && Beats(a, b))
  }

  /** The order in which the capped items come out. */
  lemma {:induction false} CappedOrder(items: seq<Item>, n: nat) returns (rs: seq<Ranked>)
    requires 0 < n < |items|
    ensures Capped(items, n) == Items(rs)
    ensures Chained(rs, LeaderThenRank(Sorted(items)))
    ensures forall r :: r in rs <==> r in KeepFrom(items, 0, n)
  {
    var sorted := Sorted(items);
    var head, key := sorted[..n], ByLeader(sorted);
    rs := StableSort(head, key);
    SortMap(head, ByOrigin(sorted), key);
    SortedIsBeating(items);
    SortOrdered(head, key, Beats);
    SortMembers(head, key);
    forall r ensures r in rs <==> r in KeepFrom(items, 0, n) {
      HeadMembers(items, n, r);
      KeptMembers(items, 0, n, r);
    }
  }

  lemma {:induction false} SafeIsChained(items: seq<Item>, n: nat)
    requires OrderSafe(items, n)
    ensures Chained(KeepFrom(items, 0, n), LeaderThenRank(Sorted(items)))
  {
    var kept := KeepFrom(items, 0, n);
    KeptInOrder(items, 0, n);
    forall a, b | 0 <= a < b < |kept| ensures LeaderThenRank(Sorted(items))(kept[a], kept[b]) {
      assert kept[a] in kept && kept[b] in kept && NumberLess(kept[a], kept[b]);
      SafePair(items, n, kept[a], kept[b]);
    }
  }

  lemma {:induction false} SafePair(items: seq<Item>, n: nat, a: Ranked, b: Ranked)
    requires OrderSafe(items, n) && a in KeepFrom(items, 0, n) && b in KeepFrom(items, 0, n) && NumberLess(a, b)
    ensures LeaderThenRank(Sorted(items))(a, b)
  {
    KeptMembers(items, 0, n, a);
    KeptMembers(items, 0, n, b);
    SafeAt(items, n, a.idx, b.idx);
    SameIdSameOrigin(Sorted(items), a.item, b.item);
  }

  lemma {:induction false} SafeAt(items: seq<Item>, n: nat, i: nat, j: nat)
    requires OrderSafe(items, n) && i < j < |items| && Rank(items, i) < n && Rank(items, j) < n
    ensures Leader(items, i) < Leader(items, j) ||
            (items[i].id == items[j].id && items[i].confidence >= items[j].confidence)
  {
  }

  lemma {:induction false} SameIdSameOrigin(sorted: seq<Ranked>, a: Item, b: Item)
    ensures a.id == b.id ==> OriginalIndex(sorted, a) == OriginalIndex(sorted, b)
  {
    if sorted != [] {
      SameIdSameOrigin(sorted[1..], a, b);
    }
  }

  lemma {:induction false} KeptPositions(items: seq<Item>, n: nat, i: nat, j: nat) returns (a: nat, b: nat)
    requires i < j < |items| && Rank(items, i) < n && Rank(items, j) < n
    ensures a < b < |TopN(items, n)| && TopN(items, n)[a] == items[i] && TopN(items, n)[b] == items[j]
  {
    var kept := KeepFrom(items, 0, n);
    KeptMembers(items, 0, n, Ranked(i, items[i]));
    KeptMembers(items, 0, n, Ranked(j, items[j]));
    a :| a < |kept| && kept[a] == Ranked(i, items[i]);
    b :| b < |kept| && kept[b] == Ranked(j, items[j]);
    KeptInOrder(items, 0, n);
    assert b < a ==> NumberLess(kept[b], kept[a]);
  }

  lemma {:induction false} EqualIsSafe(items: seq<Item>, n: nat, rs: seq<Ranked>, i: nat, j: nat)
    requires Chained(rs, LeaderThenRank(Sorted(items))) && Items(rs) == TopN(items, n)
    requires i < j < |items| && Rank(items, i) < n && Rank(items, j) < n
    ensures Leader(items, i) < Leader(items, j) ||
            (items[i].id == items[j].id && items[i].confidence >= items[j].confidence)
  {
    var a, b := KeptPositions(items, n, i, j);
    assert Items(rs)[a] == items[i] && Items(rs)[b] == items[j];
    assert LeaderThenRank(Sorted(items))(rs[a], rs[b]);
    LeaderIsBest(items, i, i);
    LeaderIsBest(items, j, j);
  }

  /** Capping returns the n best items in input order exactly when repeated ids do not disturb that order. */
  lemma {:induction false} CapIff(items: seq<Item>, n: nat)
    requires 0 < n < |items|
    ensures Capped(items, n) == TopN(items, n) <==> OrderSafe(items, n)
  {
    var rs := CappedOrder(items, n);
    if OrderSafe(items, n) {
      SafeIsChained(items, n);
      OrderedUnique(rs, KeepFrom(items, 0, n), LeaderThenRank(Sorted(items)));
    }
    if Capped(items, n) == TopN(items, n) {
      forall i, j | 0 <= i < j < |items| && Rank(items, i) < n && Rank(items, j) < n
        ensures Leader(items, i) < Leader(items, j) ||
                (items[i].id == items[j].id && items[i].confidence >= items[j].confidence)
      {
        EqualIsSafe(items, n, rs, i, j);
      }
    }
  }

  predicate DistinctIds(items: seq<Item>) {
    forall i, j | 0 <= i < j < |items| :: items[i].id != items[j].id
  }

  lemma {:induction false} CountsAreBounded(items: seq<Item>, c: int)
    ensures AtLeast(items, c) <= |items| && Above(items, c) <= |items|
  {
    if items != [] {
      CountsAreBounded(items[..|items| - 1], c);
    }
  }

  lemma {:induction false} KeepAll(items: seq<Item>, m: nat, n: int)
    requires m <= |items| <= n
    ensures Items(KeepFrom(items, m, n)) == items[m..]
    decreases |items| - m
  {
    if m < |items| {
      KeepAll(items, m + 1, n);
      CountsAreBounded(items[..m], items[m].confidence);
      CountsAreBounded(items[m + 1..], items[m].confidence);
    }
  }

  /** With distinct ids the cap keeps exactly the n best items, in input order. */
  lemma {:induction false} CapKeepsBest(items: seq<Item>, n: nat)
    requires DistinctIds(items) && 0 < n
    ensures Capped(items, n) == TopN(items, n)
  {
    if |items| <= n {
      KeepAll(items, 0, n);
    } else {
      forall i | 0 <= i < |items| ensures Leader(items, i) == i {
        LeaderIsBest(items, i, i);
      }
      CapIff(items, n);
    }
  }

  const REPEATED: seq<Item> := [
    Item(1, "", "", "", 5, ""), Item(2, "", "", "", 4, ""), Item(1, "", "", "", 3, ""), Item(3, "", "", "", 2, "")
  ]

  /** A repeated id can put a later item in front: capped at three, the third of these four overtakes the second. */
  lemma {:induction false} RepeatedIdReorders()
    ensures Capped(REPEATED, 3) != TopN(REPEATED, 3)
  {
    var items := REPEATED;
    DescendingRank(items, 0);
    DescendingRank(items, 1);
    DescendingRank(items, 2);
    LeaderIsBest(items, 1, 1);
    LeaderIsBest(items, 2, 0);
    assert Leader(items, 1) == 1;
    assert Leader(items, 2) == 0;
    CapIff(items, 3);
  }

  lemma {:induction false} AtLeastAll(items: seq<Item>, c: int)
    requires forall x | x in items :: x.confidence >= c
    ensures AtLeast(items, c) == |items|
  {
    if items != [] {
      assert items[|items| - 1] in items;
      AtLeastAll(items[..|items| - 1], c);
    }
  }

  lemma {:induction false} AboveNone(items: seq<Item>, c: int)
    requires forall x | x in items :: x.confidence <= c
    ensures Above(items, c) == 0
  {
    if items != [] {
      assert items[|items| - 1] in items;
      AboveNone(items[..|items| - 1], c);
    }
  }

  lemma {:induction false} DescendingRank(items: seq<Item>, i: nat)
    requires i < |items| && forall j, k | 0 <= j < k < |items| :: items[j].confidence > items[k].confidence
    ensures Rank(items, i) == i
  {
    AtLeastAll(items[..i], items[i].confidence);
    AboveNone(items[i + 1..], items[i].confidence);
  }

  // ----- Capping and filtering commute -----

  lemma {:induction false} CountsSnoc(items: seq<Item>, x: Item, c: int)
    ensures AtLeast(items + [x], c) == AtLeast(items, c) + if x.confidence >= c then 1 else 0
    ensures Above(items + [x], c) == Above(items, c) + if x.confidence > c then 1 else 0
  {
    assert (items + [x])[..|items|] == items;
  }

  lemma {:induction false} FilterKeepsCounts(items: seq<Item>, t: int, c: int)
    requires t <= c
    ensures AtLeast(AtLeastOnly(items, t), c) == AtLeast(items, c)
    ensures Above(AtLeastOnly(items, t), c) == Above(items, c)
  {
    if items != [] {
      FilterKeepsCounts(items[..|items| - 1], t, c);
      CountsSnoc(AtLeastOnly(items[..|items| - 1], t), items[|items| - 1], c);
    }
  }

  lemma {:induction false} FilterSplit(items: seq<Item>, m: nat, t: int)
    requires m < |items|
    ensures var a, x, b := AtLeastOnly(items[..m], t), items[m], AtLeastOnly(items[m + 1..], t);
            && AtLeastOnly(items, t) == (if x.confidence >= t then a + [x] + b else a + b)
            && AtLeastOnly(items[..m + 1], t) == (if x.confidence >= t then a + [x] else a)
  {
    assert items[..m + 1][..m] == items[..m];
    assert items == items[..m + 1] + items[m + 1..];
    FilterConcat(items[..m + 1], items[m + 1..], t);
  }

  lemma {:induction false} FilterKeepsRank(items: seq<Item>, m: nat, t: int)
    requires m < |items| && items[m].confidence >= t
    ensures var f, k := AtLeastOnly(items, t), |AtLeastOnly(items[..m], t)|;
            k < |f| && f[k] == items[m] && Rank(f, k) == Rank(items, m)
  {
    FilterSplit(items, m, t);
    var f, k, c := AtLeastOnly(items, t), |AtLeastOnly(items[..m], t)|, items[m].confidence;
    assert f[..k] == AtLeastOnly(items[..m], t) && f[k + 1..] == AtLeastOnly(items[m + 1..], t);
    FilterKeepsCounts(items[..m], t, c);
    FilterKeepsCounts(items[m + 1..], t, c);
  }

  function Kept(items: seq<Item>, m: nat, n: int): seq<Item>
    requires m <= |items|
  {
    Items(KeepFrom(items, m, n))
  }

  lemma {:induction false} KeptStep(items: seq<Item>, m: nat, n: int)
    requires m < |items|
    ensures Kept(items, m, n) ==
            if Rank(items, m) < n then [items[m]] + Kept(items, m + 1, n) else Kept(items, m + 1, n)
  {
    var rest := KeepFrom(items, m + 1, n);
    assert Items([Ranked(m, items[m])] + rest) == [items[m]] + Items(rest);
  }

  lemma {:induction false} FilterCons(x: Item, items: seq<Item>, t: int)
    ensures AtLeastOnly([x] + items, t) == if x.confidence >= t then [x] + AtLeastOnly(items, t) else AtLeastOnly(items, t)
  {
    FilterConcat([x], items, t);
    assert [x][..0] == [];
  }

  lemma {:induction false} KeepFilteredIn(items: seq<Item>, m: nat, n: int, t: int, f: seq<Item>, k: nat)
    requires m < |items| && items[m].confidence >= t && k < |f| && f[k] == items[m] && Rank(f, k) == Rank(items, m)
    requires Kept(f, k + 1, n) == AtLeastOnly(Kept(items, m + 1, n), t)
    ensures Kept(f, k, n) == AtLeastOnly(Kept(items, m, n), t)
  {
    KeptStep(items, m, n);
    KeptStep(f, k, n);
    FilterCons(items[m], Kept(items, m + 1, n), t);
  }

  lemma {:induction false} KeepFilteredOut(items: seq<Item>, m: nat, n: int, t: int)
    requires m < |items| && items[m].confidence < t
    ensures AtLeastOnly(Kept(items, m, n), t) == AtLeastOnly(Kept(items, m + 1, n), t)
  {
    KeptStep(items, m, n);
    FilterCons(items[m], Kept(items, m + 1, n), t);
  }

  lemma {:induction false} KeepFiltered(items: seq<Item>, m: nat, n: int, t: int)
    requires m <= |items|
    ensures var f, k := AtLeastOnly(items, t), |AtLeastOnly(items[..m], t)|;
            k <= |f| && Kept(f, k, n) == AtLeastOnly(Kept(items, m, n), t)
    decreases |items| - m
  {
    if m == |items| {
      assert items[..m] == items;
    } else {
      KeepFiltered(items, m + 1, n, t);
      FilterSplit(items, m, t);
      if items[m].confidence >= t {
        FilterKeepsRank(items, m, t);
        KeepFilteredIn(items, m, n, t, AtLeastOnly(items, t), |AtLeastOnly(items[..m], t)|);
      } else {
        KeepFilteredOut(items, m, n, t);
      }
    }
  }

  lemma {:induction false} FilterKeepsDistinct(items: seq<Item>, t: int)
    requires DistinctIds(items)
    ensures DistinctIds(AtLeastOnly(items, t))
  {
    if items != [] {
      var init, last := items[..|items| - 1], items[|items| - 1];
      FilterKeepsDistinct(init, t);
      forall x | x in AtLeastOnly(init, t) ensures x.id != last.id {
        FilterMember(init, t, x);
      }
    }
  }

  lemma {:induction false} FilterMember(items: seq<Item>, t: int, x: Item)
    requires x in AtLeastOnly(items, t)
    ensures x in items
  {
    if x != items[|items| - 1] || items[|items| - 1].confidence < t {
      FilterMember(items[..|items| - 1], t, x);
    }
  }

  /** Filtering by confidence before the cap or after it gives the same items. */
  lemma {:induction false} CapFilterCommute(items: seq<Item>, n: int, t: int)
    requires DistinctIds(items)
    ensures Capped(Confident(items, t), n) == Confident(Capped(items, n), t)
  {
    if n > 0 && t > 0 {
      FilterKeepsDistinct(items, t);
      CapKeepsBest(items, n);
      CapKeepsBest(AtLeastOnly(items, t), n);
      KeepFiltered(items, 0, n, t);
      assert items[..0] == [];
    }
  }
}
