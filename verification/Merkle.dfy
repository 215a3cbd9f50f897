/** The tamper-evident chain over drift reports. */
module Merkle {
  import opened Wrappers
  import opened HashChain

  datatype CanonicalInput = CanonicalInput(
    artifactId: int, specId: int, verdict: string, specDiff: string, judgeReasoning: string, createdAt: string)

  /** SHA-256 over (prev || JSON) as an abstract function; roots of type R stand for their hex text. */
  datatype Scheme<!R> = Scheme(chain: Chainer<R, CanonicalInput>, empty: R, wellFormed: R -> bool)

  /** Digests are well-formed roots, the genesis root is one too, and the empty text is not. */
  ghost predicate Sound<R(!new)>(s: Scheme<R>) {
    && CollisionFree(s.chain)
    && s.wellFormed(s.chain.start) && !s.wellFormed(s.empty)
    && forall p, c :: s.wellFormed(s.chain.step(p, c))
  }

  function ComputeRoot<R>(s: Scheme<R>, prev: R, input: CanonicalInput): Result<R, string> {
    if !s.wellFormed(prev) then Err("prev is not a root") else Ok(s.chain.step(prev, input))
  }

  datatype Report<R> = Report(id: int, canonical: CanonicalInput, root: R)

  datatype Why<R> = Nothing | Gap | Compute(message: string) | Mismatch(expected: R, got: R)

  datatype VerifyResult<R> = VerifyResult(
    ok: bool, firstBadId: int, why: Why<R>, rowsChecked: nat, rowsSkipped: nat, chainHead: R)

  function Contents<R>(rows: seq<Report<R>>): (c: seq<CanonicalInput>)
    ensures |c| == |rows|
  {
    seq(|rows|, i requires 0 <= i < |rows| => rows[i].canonical)
  }

  function Roots<R>(rows: seq<Report<R>>): (r: seq<R>)
    ensures |r| == |rows|
  {
    seq(|rows|, i requires 0 <= i < |rows| => rows[i].root)
  }

  /** Rows whose stored roots are what the writer computes from genesis. */
  ghost predicate Built<R>(s: Scheme<R>, rows: seq<Report<R>>) {
    Honest(s.chain, Contents(rows), Roots(rows))
  }

  /** Legacy rows in front: those without a root. */
  function Legacy<R(==)>(s: Scheme<R>, rows: seq<Report<R>>): (k: nat)
    ensures k <= |rows|
    ensures forall i | 0 <= i < k :: rows[i].root == s.empty
    ensures k < |rows| ==> rows[k].root != s.empty
  {
    if rows != [] && rows[0].root == s.empty then 1 + Legacy(s, rows[1..]) else 0
  }

  lemma {:induction false} BuiltSnoc<R>(s: Scheme<R>, rows: seq<Report<R>>, row: Report<R>)
    ensures Built(s, rows + [row]) <==>
            Built(s, rows) && row.root == s.chain.step(s.chain.Head(Contents(rows)), row.canonical)
    ensures Built(s, rows + [row]) ==> row.root == s.chain.Head(Contents(rows + [row]))
  {
    assert Contents(rows + [row]) == Contents(rows) + [row.canonical];
    assert Roots(rows + [row]) == Roots(rows) + [row.root];
    HonestSnoc(s.chain, Contents(rows), Roots(rows), row.canonical, row.root);
    assert (Contents(rows) + [row.canonical])[..|rows|] == Contents(rows);
  }

  lemma {:induction false} BuiltPrefix<R>(s: Scheme<R>, rows: seq<Report<R>>, n: nat)
    requires Built(s, rows) && n <= |rows|
    ensures Built(s, rows[..n])
  {
    HonestPrefix(s.chain, Contents(rows), Roots(rows), n);
    assert Contents(rows[..n]) == Contents(rows)[..n] && Roots(rows[..n]) == Roots(rows)[..n];
  }

  lemma {:induction false} BuiltIsRooted<R(!new)>(s: Scheme<R>, rows: seq<Report<R>>, i: nat)
    requires Sound(s) && Built(s, rows) && i < |rows|
    ensures rows[i].root != s.empty
  {
    assert Roots(rows)[i] == s.chain.Head(Contents(rows)[..i + 1]);
  }

  /** n rows pass: k legacy ones, then rows built from genesis. */
  ghost predicate Passed<R>(s: Scheme<R>, rows: seq<Report<R>>, k: nat, n: nat) {
    && k <= n <= |rows|
    && (forall i | 0 <= i < k :: rows[i].root == s.empty)
    && Built(s, rows[k..n])
  }

  /** The first row that does not continue what precedes it, and why. */
  ghost predicate Fails<R>(s: Scheme<R>, rows: seq<Report<R>>, k: nat, n: nat, why: Why<R>) {
    && Passed(s, rows, k, n) && n < |rows|
    && var head, row := s.chain.Head(Contents(rows[k..n])), rows[n];
       if row.root == s.empty then n > k && why == Gap
       else row.root != s.chain.step(head, row.canonical) && why == Mismatch(s.chain.step(head, row.canonical), row.root)
  }

  lemma {:induction false} PassedNothing<R>(s: Scheme<R>, rows: seq<Report<R>>, k: nat)
    requires k <= |rows| && forall i | 0 <= i < k :: rows[i].root == s.empty
    ensures Passed(s, rows, k, k) && s.chain.Head(Contents(rows[k..k])) == s.chain.start
  {
    assert rows[k..k] == [] && Contents(rows[k..k]) == [];
  }

  lemma {:induction false} PassedStep<R>(s: Scheme<R>, rows: seq<Report<R>>, k: nat, n: nat)
    requires Passed(s, rows, k, n) && n < |rows|
    requires rows[n].root == s.chain.step(s.chain.Head(Contents(rows[k..n])), rows[n].canonical)
    ensures Passed(s, rows, k, n + 1) && rows[n].root == s.chain.Head(Contents(rows[k..n + 1]))
  {
    BuiltSnoc(s, rows[k..n], rows[n]);
    assert rows[k..n] + [rows[n]] == rows[k..n + 1];
  }

  lemma {:induction false} GapFails<R>(s: Scheme<R>, rows: seq<Report<R>>, k: nat, n: nat)
    requires Passed(s, rows, k, n) && k < n < |rows| && rows[n].root == s.empty
    ensures Fails(s, rows, k, n, Gap)
  {
  }

  lemma {:induction false} MismatchFails<R>(s: Scheme<R>, rows: seq<Report<R>>, k: nat, n: nat)
    requires Passed(s, rows, k, n) && n < |rows| && rows[n].root != s.empty
    requires rows[n].root != s.chain.step(s.chain.Head(Contents(rows[k..n])), rows[n].canonical)
    ensures Fails(s, rows, k, n, Mismatch(s.chain.step(s.chain.Head(Contents(rows[k..n])), rows[n].canonical), rows[n].root))
  {
  }

  /** What the result says about the rows: all passed, or which row failed first and why. */
  ghost predicate Describes<R>(s: Scheme<R>, rows: seq<Report<R>>, res: VerifyResult<R>) {
    var k := Legacy(s, rows);
    if res.ok then
      Passed(s, rows, k, |rows|) && res.rowsSkipped == k && res.rowsChecked == |rows| - k &&
      res.chainHead == s.chain.Head(Contents(rows[k..]))
    else
      var n := k + res.rowsChecked;
      Fails(s, rows, k, n, res.why) && res.firstBadId == rows[n].id &&
      res.rowsSkipped == k + (if res.why.Gap? then 1 else 0)
  }

  lemma {:induction false} DescribedVerdict<R(!new)>(s: Scheme<R>, rows: seq<Report<R>>, res: VerifyResult<R>)
    requires Sound(s) && Describes(s, rows, res)
    ensures res.ok <==> Accepted(s, rows)
  {
    if !res.ok {
      FailureIsFirst(s, rows, Legacy(s, rows), Legacy(s, rows) + res.rowsChecked, res.why, |rows|);
    }
  }

  lemma {:induction false} FailureVerdict<R(!new)>(s: Scheme<R>, rows: seq<Report<R>>, n: nat, res: VerifyResult<R>)
    requires Sound(s) && !res.ok && n == Legacy(s, rows) + res.rowsChecked && n < |rows|
    requires Fails(s, rows, Legacy(s, rows), n, res.why) && res.firstBadId == rows[n].id
    requires res.rowsSkipped == Legacy(s, rows) + if res.why.Gap? then 1 else 0
    ensures Describes(s, rows, res) && !Accepted(s, rows)
  {
    DescribedVerdict(s, rows, res);
  }

  lemma {:induction false} PassVerdict<R(!new)>(s: Scheme<R>, rows: seq<Report<R>>, res: VerifyResult<R>)
    requires Sound(s) && res.ok && Passed(s, rows, Legacy(s, rows), |rows|)
    requires res.rowsSkipped == Legacy(s, rows) && res.rowsChecked == |rows| - Legacy(s, rows)
    requires res.chainHead == s.chain.Head(Contents(rows[Legacy(s, rows)..|rows|]))
    ensures Describes(s, rows, res) && Accepted(s, rows)
  {
    assert rows[Legacy(s, rows)..|rows|] == rows[Legacy(s, rows)..];
  }

  method VerifyChain<R(==,!new)>(s: Scheme<R>, rows: seq<Report<R>>) returns (res: VerifyResult<R>)
    requires Sound(s)
    ensures res.ok <==> Accepted(s, rows)
    ensures Describes(s, rows, res)
  {
    var prev := s.chain.start;
    var checked: nat, skipped: nat := 0, 0;
    var seenNonEmpty := false;
    ghost var k := Legacy(s, rows);
    PassedNothing(s, rows, k);
    for i := 0 to |rows|
      invariant seenNonEmpty <==> i > k
      invariant if i > k then checked == i - k && skipped == k else checked == 0 && skipped == i
      invariant if i >= k then Passed(s, rows, k, i) && prev == s.chain.Head(Contents(rows[k..i])) else prev == s.chain.start
      invariant s.wellFormed(prev)
    {
      var r := rows[i];
      if r.root == s.empty {
        skipped := skipped + 1;
        if seenNonEmpty {
          GapFails(s, rows, k, i);
          res := VerifyResult(false, r.id, Gap, checked, skipped, s.empty);
          FailureVerdict(s, rows, i, res);
          return;
        }
        continue;
      }
      seenNonEmpty := true;
      var expected := ComputeRoot(s, prev, r.canonical);
      if expected.Err? {
        assert false; // prev is genesis or a recomputed root, so the compute error cannot occur
      }
      if expected.value != r.root {
        MismatchFails(s, rows, k, i);
        res := VerifyResult(false, r.id, Mismatch(expected.value, r.root), checked, skipped, s.empty);
        FailureVerdict(s, rows, i, res);
        return;
      }
      PassedStep(s, rows, k, i);
      prev := r.root;
      checked := checked + 1;
    }
    res := VerifyResult(true, 0, Nothing, checked, skipped, prev);
    PassVerdict(s, rows, res);
  }

  // ----- What acceptance means -----

  ghost predicate Accepted<R>(s: Scheme<R>, rows: seq<Report<R>>) {
    Passed(s, rows, Legacy(s, rows), |rows|)
  }

  lemma {:induction false} PassedFromLegacy<R(!new)>(s: Scheme<R>, rows: seq<Report<R>>, k: nat)
    requires Sound(s) && Passed(s, rows, k, |rows|)
    ensures k == Legacy(s, rows)
  {
    if k < |rows| {
      BuiltIsRooted(s, rows[k..|rows|], 0);
    }
  }

  /** Accepted lists are exactly: rows without a root, then an honestly built chain. */
  lemma {:induction false} AcceptedIff<R(!new)>(s: Scheme<R>, rows: seq<Report<R>>)
    requires Sound(s)
    ensures Accepted(s, rows) <==> exists k: nat :: Passed(s, rows, k, |rows|)
  {
    if k: nat :| Passed(s, rows, k, |rows|) {
      PassedFromLegacy(s, rows, k);
    }
  }

  /** What the verifier reports as ChainHead. */
  function ChainHead<R(==)>(s: Scheme<R>, rows: seq<Report<R>>): R {
    s.chain.Head(Contents(rows[Legacy(s, rows)..]))
  }

  /** Two accepted lists with one head agree on everything that is chained. */
  lemma {:induction false} SameHeadSameContents<R(!new)>(s: Scheme<R>, a: seq<Report<R>>, b: seq<Report<R>>)
    requires Sound(s) && Accepted(s, a) && Accepted(s, b) && ChainHead(s, a) == ChainHead(s, b)
    ensures Contents(a[Legacy(s, a)..]) == Contents(b[Legacy(s, b)..])
  {
    HeadInjective(s.chain, Contents(a[Legacy(s, a)..]), Contents(b[Legacy(s, b)..]));
  }

  /** Failing at n means no longer part passes, so n is the row VerifyChain reports. */
  lemma {:induction false} FailureIsFirst<R(!new)>(s: Scheme<R>, rows: seq<Report<R>>, k: nat, n: nat, why: Why<R>, m: nat)
    requires Sound(s) && Fails(s, rows, k, n, why) && n < m <= |rows|
    ensures !Passed(s, rows, k, m)
  {
    if Passed(s, rows, k, m) {
      PassedContinues(s, rows, k, n, m);
    }
  }

  /** In a list that passes, every chained row continues the ones before it. */
  lemma {:induction false} PassedContinues<R(!new)>(s: Scheme<R>, rows: seq<Report<R>>, k: nat, n: nat, m: nat)
    requires Sound(s) && Passed(s, rows, k, m) && k <= n < m
    ensures rows[n].root != s.empty
    ensures rows[n].root == s.chain.step(s.chain.Head(Contents(rows[k..n])), rows[n].canonical)
  {
    BuiltPrefix(s, rows[k..m], n + 1 - k);
    assert rows[k..m][..n + 1 - k] == rows[k..n] + [rows[n]];
    BuiltSnoc(s, rows[k..n], rows[n]);
    BuiltIsRooted(s, rows[k..n] + [rows[n]], n - k);
  }

  /** Changing only the content of one chained row of an accepted list is reported at exactly that row. */
  lemma {:induction false} TamperReported<R(!new)>(s: Scheme<R>, rows: seq<Report<R>>, i: nat, c: CanonicalInput)
    requires Sound(s) && Accepted(s, rows) && Legacy(s, rows) <= i < |rows| && c != rows[i].canonical
    ensures var k, bad := Legacy(s, rows), rows[i := rows[i].(canonical := c)];
            var why := Mismatch(s.chain.step(s.chain.Head(Contents(rows[k..i])), c), rows[i].root);
            Legacy(s, bad) == k && Fails(s, bad, k, i, why) &&
            forall res | Describes(s, bad, res) ::
              !res.ok && res.firstBadId == rows[i].id && res.why == why && res.rowsChecked == i - k && res.rowsSkipped == k
  {
    var k, bad := Legacy(s, rows), rows[i := rows[i].(canonical := c)];
    SameLegacy(s, rows, bad);
    assert rows[k..|rows|][..i - k] == rows[k..i] == bad[k..i];
    BuiltPrefix(s, rows[k..|rows|], i - k);
    BuiltPrefix(s, rows[k..|rows|], i + 1 - k);
    assert rows[k..|rows|][..i + 1 - k] == rows[k..i] + [rows[i]];
    BuiltSnoc(s, rows[k..i], rows[i]);
    var why := Mismatch(s.chain.step(s.chain.Head(Contents(rows[k..i])), c), rows[i].root);
    assert Fails(s, bad, k, i, why);
    forall res | Describes(s, bad, res)
      ensures !res.ok && res.firstBadId == rows[i].id && res.why == why && res.rowsChecked == i - k && res.rowsSkipped == k
    {
      FailureDescribed(s, bad, i, why, res);
    }
  }

  /** A list with a failing row has one description: that row and that cause. */
  lemma {:induction false} FailureDescribed<R(!new)>(s: Scheme<R>, rows: seq<Report<R>>, n: nat, why: Why<R>, res: VerifyResult<R>)
    requires Sound(s) && Fails(s, rows, Legacy(s, rows), n, why) && Describes(s, rows, res)
    ensures !res.ok && res.firstBadId == rows[n].id && res.why == why && res.rowsChecked == n - Legacy(s, rows)
    ensures res.rowsSkipped == Legacy(s, rows) + if why.Gap? then 1 else 0
  {
    var k := Legacy(s, rows);
    FailureIsFirst(s, rows, k, n, why, |rows|);
    var m := k + res.rowsChecked;
    if n < m {
      FailureIsFirst(s, rows, k, n, why, m);
    } else if m < n {
      FailureIsFirst(s, rows, k, m, res.why, n);
    }
  }

  /** Row n has no root although the rows before it pass and hold a chain. */
  ghost predicate GapAt<R>(s: Scheme<R>, rows: seq<Report<R>>, n: nat) {
    Legacy(s, rows) < n < |rows| && rows[n].root == s.empty && Passed(s, rows, Legacy(s, rows), n)
  }

  /** Only leading rows without a root are counted as skipped, as documented, iff no passing chain runs into a gap. */
  lemma {:induction false} DocumentedSkipsIff<R(!new)>(s: Scheme<R>, rows: seq<Report<R>>, res: VerifyResult<R>)
    requires Sound(s) && Describes(s, rows, res)
    ensures res.rowsSkipped == Legacy(s, rows) <==> !exists n: nat :: GapAt(s, rows, n)
  {
    if n: nat :| GapAt(s, rows, n) {
      GapFails(s, rows, Legacy(s, rows), n);
      FailureDescribed(s, rows, n, Gap, res);
    }
    if res.rowsSkipped != Legacy(s, rows) {
      assert GapAt(s, rows, Legacy(s, rows) + res.rowsChecked);
    }
  }

  /** One chained row, one without a root, one more row: the second is reported and counted as skipped. */
  lemma {:induction false} GapInTheMiddle<R(!new)>(s: Scheme<R>, a: Report<R>, b: Report<R>, c: Report<R>, res: VerifyResult<R>)
    requires Sound(s) && a.root == s.chain.step(s.chain.start, a.canonical) && b.root == s.empty
    requires Describes(s, [a, b, c], res)
    ensures Legacy(s, [a, b, c]) == 0 && res.rowsSkipped == 1
    ensures !res.ok && res.why == Gap && res.firstBadId == b.id && res.rowsChecked == 1
  {
    var rows := [a, b, c];
    PassedNothing(s, rows, 0);
    PassedStep(s, rows, 0, 0);
    GapFails(s, rows, 0, 1);
    FailureDescribed(s, rows, 1, Gap, res);
  }

  lemma {:induction false} SameLegacy<R>(s: Scheme<R>, a: seq<Report<R>>, b: seq<Report<R>>)
    requires |a| == |b| && forall i | 0 <= i < |a| :: a[i].root == b[i].root
    ensures Legacy(s, a) == Legacy(s, b)
  {
    if a != [] {
      SameLegacy(s, a[1..], b[1..]);
    }
  }

  lemma {:induction false} LegacyFree<R>(s: Scheme<R>, rows: seq<Report<R>>)
    requires forall i | 0 <= i < |rows| :: rows[i].root != s.empty
    ensures Legacy(s, rows) == 0 && rows[0..|rows|] == rows
    ensures Accepted(s, rows) <==> Built(s, rows)
  {
    assert rows[0..|rows|] == rows;
  }

  /** Dropping, repeating or reordering rows of an accepted chain is accepted only if a prefix remains. */
  lemma {:induction false} PickedIffPrefix<R(!new)>(s: Scheme<R>, rows: seq<Report<R>>, picked: seq<Report<R>>)
    requires Sound(s) && Accepted(s, rows)
    requires forall i | 0 <= i < |rows| :: rows[i].root != s.empty
    requires forall r | r in picked :: r in rows
    ensures Accepted(s, picked) <==> picked <= rows
  {
    LegacyFree(s, rows);
    forall j | 0 <= j < |picked| ensures picked[j].root != s.empty {
      assert picked[j] in picked;
    }
    LegacyFree(s, picked);
    if picked <= rows {
      BuiltPrefix(s, rows, |picked|);
      assert rows[..|picked|] == picked;
    }
    if Built(s, picked) {
      var from := Positions(rows, picked);
      PickedIsPrefix(s.chain, Contents(rows), Roots(rows), Contents(picked), Roots(picked), from);
      assert forall j | 0 <= j < |picked| :: picked[j] == rows[from[j]] && from[j] == j;
      if picked != [] {
        assert from[|picked| - 1] < |rows|;
      }
    }
  }

  lemma {:induction false} Positions<T>(all: seq<T>, picked: seq<T>) returns (from: seq<nat>)
    requires forall r | r in picked :: r in all
    ensures |from| == |picked| && forall j | 0 <= j < |from| :: from[j] < |all| && all[from[j]] == picked[j]
  {
    if picked == [] {
      from := [];
    } else {
      assert picked[0] in picked;
      var i: nat :| i < |all| && all[i] == picked[0];
      forall r | r in picked[1..] ensures r in all {
        assert r in picked;
      }
      var rest := Positions(all, picked[1..]);
      from := [i] + rest;
    }
  }

  /** The assumptions are satisfiable. */
  lemma {:induction false} SoundSchemeExists()
    ensures exists s: Scheme<Option<Term<CanonicalInput>>> :: Sound(s)
  {
    var start: Option<Term<CanonicalInput>> := Some(Start);
    var step := (p: Option<Term<CanonicalInput>>, c: CanonicalInput) =>
      if p.Some? then Some(Node(Node(p.value, c), c)) else Some(Node(Start, c));
    var s := Scheme(Chainer(step, start), None, (r: Option<Term<CanonicalInput>>) => r.Some?);
    assert Sound(s);
  }
}
