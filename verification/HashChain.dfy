/** Hash chains in general: each link digests the previous link and one item. */
module HashChain {

  datatype Chainer<!R, !C> = Chainer(step: (R, C) -> R, start: R)
  {
    /** The link after a whole list of items. */
    function Head(items: seq<C>): R {
      if items == [] then start else step(Head(items[..|items| - 1]), items[|items| - 1])
    }

    /** The link stored beside each item. */
    function Links(items: seq<C>): (links: seq<R>) {
      seq(|items|, i requires 0 <= i < |items| => Head(items[..i + 1]))
    }
  }

  /** No two digests collide and none equals the start link. */
  ghost predicate CollisionFree<R(!new), C(!new)>(h: Chainer<R, C>) {
    && (forall p, c, q, d :: h.step(p, c) == h.step(q, d) ==> p == q && c == d)
    && (forall p, c :: h.step(p, c) != h.start)
  }

  /** The head determines every item. */
  lemma {:induction false} HeadInjective<R(!new), C(!new)>(h: Chainer<R, C>, a: seq<C>, b: seq<C>)
    requires CollisionFree(h) && h.Head(a) == h.Head(b)
    ensures a == b
    decreases |a|
  {
    if a != [] && b != [] {
      var x, y := |a| - 1, |b| - 1;
      HeadInjective(h, a[..x], b[..y]);
      assert a == a[..x] + [a[x]] && b == b[..y] + [b[y]];
    }
  }

  /** items with the links stored beside them, as a verifier sees them. */
  ghost predicate Honest<R, C>(h: Chainer<R, C>, items: seq<C>, links: seq<R>) {
    links == h.Links(items)
  }

  lemma {:induction false} HonestPrefix<R, C>(h: Chainer<R, C>, items: seq<C>, links: seq<R>, n: nat)
    requires Honest(h, items, links) && n <= |items|
    ensures Honest(h, items[..n], links[..n])
  {
    forall i | 0 <= i < n ensures links[..n][i] == h.Links(items[..n])[i] {
      assert items[..n][..i + 1] == items[..i + 1];
    }
  }

  lemma {:induction false} HonestSnoc<R, C>(h: Chainer<R, C>, items: seq<C>, links: seq<R>, c: C, r: R)
    requires |items| == |links|
    ensures Honest(h, items + [c], links + [r]) <==> Honest(h, items, links) && r == h.step(h.Head(items), c)
  {
    var all, ends := items + [c], links + [r];
    var n := |items|;
    assert all[..n + 1] == all && all[..n] == items && ends[..n] == links && all[n] == c && ends[n] == r;
    if Honest(h, all, ends) {
      HonestPrefix(h, all, ends, n);
      assert ends[n] == h.Links(all)[n] == h.Head(all);
    }
    if Honest(h, items, links) && r == h.step(h.Head(items), c) {
      forall i | 0 <= i <= n ensures ends[i] == h.Links(all)[i] {
        if i < n {
          assert all[..i + 1] == items[..i + 1];
          assert ends[i] == links[i] == h.Links(items)[i];
        }
      }
    }
  }

  /** Picking rows out of an honest chain, in any order and with repeats, is honest only for a prefix. */
  lemma {:induction false} PickedIsPrefix<R(!new), C(!new)>(h: Chainer<R, C>, items: seq<C>, links: seq<R>, picked: seq<C>, pickedLinks: seq<R>, from: seq<nat>)
    requires CollisionFree(h) && Honest(h, items, links) && Honest(h, picked, pickedLinks)
    requires |from| == |picked| && forall j | 0 <= j < |from| :: from[j] < |items| && pickedLinks[j] == links[from[j]]
    ensures forall j | 0 <= j < |from| :: from[j] == j
    ensures picked <= items
  {
    forall j | 0 <= j < |from| ensures from[j] == j && picked[j] == items[j] {
      var i := from[j];
      assert pickedLinks[j] == h.Head(picked[..j + 1]);
      assert links[i] == h.Head(items[..i + 1]);
      HeadInjective(h, picked[..j + 1], items[..i + 1]);
      assert picked[..j + 1][j] == items[..i + 1][j];
    }
    if |picked| > 0 {
      assert from[|picked| - 1] < |items|;
    }
  }

  // ----- The assumption can be met: digests as terms -----

  datatype Term<C> = Start | Node(prev: Term<C>, item: C)

  function TermChainer<C>(): Chainer<Term<C>, C> {
    Chainer((p: Term<C>, c: C) => Node(p, c), Start)
  }

  lemma {:induction false} TermsAreCollisionFree<C(!new)>()
    ensures CollisionFree(TermChainer<C>())
  {
  }
}
