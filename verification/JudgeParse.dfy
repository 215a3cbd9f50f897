/** The last-occurrence verdict scan over a judge's free-form reply. */
module JudgeParse {

  const ALIGNED := "aligned"
  const DRIFT_DETECTED := "drift_detected"
  const NEEDS_HUMAN := "needs_human"

  datatype Token = Token(text: string, verdict: string)

  const TOKENS: seq<Token> := [
    Token("\"verdict\":\"aligned\"", ALIGNED),
    Token("verdict:\"aligned\"", ALIGNED),
    Token("verdict:aligned", ALIGNED),
    Token("\"aligned\":true", ALIGNED),
    Token("\"drift\":false", ALIGNED),
    Token("\"verdict\":\"needs_human\"", NEEDS_HUMAN),
    Token("verdict:\"needs_human\"", NEEDS_HUMAN),
    Token("verdict:needs_human", NEEDS_HUMAN),
    Token("\"verdict\":\"drift_detected\"", DRIFT_DETECTED),
    Token("verdict:\"drift_detected\"", DRIFT_DETECTED),
    Token("verdict:drift_detected", DRIFT_DETECTED)
  ]

  // ----- Normalisation -----

  function Lower(c: char): char {
    if 'A' <= c <= 'Z' then c + ('a' - 'A') else c
  }

  function ToLower(s: string): (r: string)
    ensures |r| == |s| && forall i | 0 <= i < |s| :: r[i] == Lower(s[i])
  {
    seq(|s|, i requires 0 <= i < |s| => Lower(s[i]))
  }

  predicate IsSpace(c: char) {
    c == ' ' || c == '\t' || c == '\n' || c == '\r'
  }

  /** Each run of white space becomes one space, or none when a space came just before. */
  function Collapse(s: string, prevSpace: bool): string {
    if s == "" then ""
    else if !IsSpace(s[0]) then [s[0]] + Collapse(s[1..], false)
    else if prevSpace then Collapse(s[1..], true)
    else [' '] + Collapse(s[1..], true)
  }

  function Remove(s: string, c: char): string {
    if s == "" then ""
    else if s[0] == c then Remove(s[1..], c)
    else [s[0]] + Remove(s[1..], c)
  }

  /** Replace each leftmost non-overlapping pair a, b. */
  function ReplacePair(s: string, a: char, b: char, sub: string): string {
    if |s| < 2 then s
    else if s[0] == a && s[1] == b then sub + ReplacePair(s[2..], a, b, sub)
    else [s[0]] + ReplacePair(s[1..], a, b, sub)
  }

  function Compact(blob: string): string {
    var plain := Remove(Collapse(ToLower(blob), false), '`');
    ReplacePair(ReplacePair(ReplacePair(plain, '*', '*', ""), ':', ' ', ":"), ' ', ':', ":")
  }

  // ----- The scan -----

  predicate OccursAt(s: string, t: string, i: int) {
    0 <= i <= i + |t| <= |s| && s[i..i + |t|] == t
  }

  /** The greatest position of t in s below n, -1 when there is none. */
  function LastBelow(s: string, t: string, n: nat): (i: int)
    ensures -1 <= i < n && (i >= 0 ==> OccursAt(s, t, i))
    ensures forall j | i < j < n :: !OccursAt(s, t, j)
  {
    if n == 0 then -1
    else if OccursAt(s, t, n - 1) then n - 1
    else LastBelow(s, t, n - 1)
  }

  function LastIndex(s: string, t: string): (i: int)
    ensures -1 <= i && (i >= 0 ==> OccursAt(s, t, i))
    ensures forall j | i < j :: !OccursAt(s, t, j)
  {
    LastBelow(s, t, |s| + 1)
  }

  datatype Found = Found(idx: int, verdict: string)

  function Latest(s: string, tokens: seq<Token>): Found {
    if tokens == [] then Found(-1, "")
    else
      var best, t := Latest(s, tokens[..|tokens| - 1]), tokens[|tokens| - 1];
      if LastIndex(s, t.text) > best.idx then Found(LastIndex(s, t.text), t.verdict) else best
  }

  function Scan(blob: string): string {
    Latest(Compact(blob), TOKENS).verdict
  }

  /** The token loop: a later occurrence displaces an earlier one. */
  method PickLatest(compact: string, tokens: seq<Token>) returns (verdict: string)
    ensures verdict == Latest(compact, tokens).verdict
  {
    verdict := "";
    var bestIdx := -1;
    for k := 0 to |tokens|
      invariant Found(bestIdx, verdict) == Latest(compact, tokens[..k])
    {
      assert tokens[..k + 1][..k] == tokens[..k];
      var idx := LastIndex(compact, tokens[k].text);
      if idx > bestIdx {
        bestIdx, verdict := idx, tokens[k].verdict;
      }
    }
    assert tokens[..|tokens|] == tokens;
  }

  method ScanCanonicalTokens(blob: string) returns (verdict: string)
    ensures verdict == Scan(blob)
  {
    var normalized := ToLower(blob);
    var b := "";
    var prevSpace := false;
    assert b + Collapse(normalized[0..], prevSpace) == Collapse(normalized, false);
    for i := 0 to |normalized|
      invariant b + Collapse(normalized[i..], prevSpace) == Collapse(normalized, false)
    {
      var r := normalized[i];
      assert normalized[i..][1..] == normalized[i + 1..];
      if IsSpace(r) {
        if !prevSpace {
          b := b + [' '];
        }
        prevSpace := true;
        continue;
      }
      prevSpace := false;
      b := b + [r];
    }
    assert normalized[|normalized|..] == "" && b + "" == b;
    var b2 := Remove(b, '`');
    b2 := ReplacePair(b2, '*', '*', "");
    var compact := ReplacePair(b2, ':', ' ', ":");
    compact := ReplacePair(compact, ' ', ':', ":");
    verdict := PickLatest(compact, TOKENS);
  }

  /** The winner is a token occurrence, no token of the table occurs after it, and "" means none occurs at all. */
  lemma {:induction false} LatestIsLast(s: string, tokens: seq<Token>)
    ensures var best := Latest(s, tokens);
            && (forall t, j | t in tokens && OccursAt(s, t.text, j) :: j <= best.idx)
            && (best == Found(-1, "") ||
                exists t :: t in tokens && OccursAt(s, t.text, best.idx) && t.verdict == best.verdict)
  {
    if tokens != [] {
      var init, last := tokens[..|tokens| - 1], tokens[|tokens| - 1];
      LatestIsLast(s, init);
      assert forall t | t in tokens :: t in init || t == last;
      assert last in tokens;
    }
  }

  // ----- The final conclusion wins -----

  /** Nothing but characters no token begins with. */
  predicate Light(d: string) {
    forall i | 0 <= i < |d| :: d[i] == ' ' || d[i] == '*'
  }

  /**
   * u and v end alike, up to leading spaces and stars of u. Every normalisation stage keeps this
   * between the normalised conclusion u and the normalised whole reply v.
   */
  ghost predicate EndsAlike(u: string, v: string) {
    exists d, p, w :: Aligned(u, v, d, p, w)
  }

  predicate Aligned(u: string, v: string, d: string, p: string, w: string) {
    Light(d) && u == d + w && v == p + w
  }

  function EndSpace(s: string, prevSpace: bool): bool {
    if s == "" then prevSpace else IsSpace(s[|s| - 1])
  }

  lemma {:induction false} CollapseConcat(x: string, y: string, prevSpace: bool)
    ensures Collapse(x + y, prevSpace) == Collapse(x, prevSpace) + Collapse(y, EndSpace(x, prevSpace))
  {
    if x == "" {
      assert x + y == y;
    } else {
      assert (x + y)[1..] == x[1..] + y;
      CollapseConcat(x[1..], y, IsSpace(x[0]));
    }
  }

  lemma {:induction false} CollapseKeeps(x: string, y: string)
    ensures EndsAlike(Collapse(y, false), Collapse(x + y, false))
  {
    CollapseConcat(x, y, false);
    var p := Collapse(x, false);
    if EndSpace(x, false) && y != "" && IsSpace(y[0]) {
      assert Aligned(Collapse(y, false), Collapse(x + y, false), " ", p, Collapse(y, true));
    } else {
      assert Collapse(y, EndSpace(x, false)) == Collapse(y, false);
      assert Aligned(Collapse(y, false), Collapse(x + y, false), "", p, Collapse(y, false));
    }
  }

  lemma {:induction false} RemoveConcat(x: string, y: string, c: char)
    ensures Remove(x + y, c) == Remove(x, c) + Remove(y, c)
  {
    if x == "" {
      assert x + y == y;
    } else {
      assert (x + y)[1..] == x[1..] + y;
      RemoveConcat(x[1..], y, c);
    }
  }

  lemma {:induction false} RemoveLight(d: string, c: char)
    requires Light(d)
    ensures Light(Remove(d, c))
  {
    if d != "" {
      RemoveLight(d[1..], c);
    }
  }

  lemma {:induction false} RemoveKeeps(u: string, v: string, c: char)
    requires EndsAlike(u, v)
    ensures EndsAlike(Remove(u, c), Remove(v, c))
  {
    var d, p, w :| Aligned(u, v, d, p, w);
    RemoveConcat(d, w, c);
    RemoveConcat(p, w, c);
    RemoveLight(d, c);
    assert Aligned(Remove(u, c), Remove(v, c), Remove(d, c), Remove(p, c), Remove(w, c));
  }

  /** When x + y is scanned, x's last character pairs up with y's first. */
  predicate Paired(x: string, y: string, a: char, b: char) {
    if x == "" then false
    else if |x| == 1 then y != "" && x[0] == a && y[0] == b
    else if x[0] == a && x[1] == b then Paired(x[2..], y, a, b)
    else Paired(x[1..], y, a, b)
  }

  /** What the scan of x + y writes for x, not counting a pair shared with y. */
  function Head(x: string, y: string, a: char, b: char, sub: string): string {
    if x == "" then ""
    else if |x| == 1 then if Paired(x, y, a, b) then "" else x
    else if x[0] == a && x[1] == b then sub + Head(x[2..], y, a, b, sub)
    else [x[0]] + Head(x[1..], y, a, b, sub)
  }

  function Rest(x: string, y: string, a: char, b: char, sub: string): string {
    if Paired(x, y, a, b) && y != "" then sub + ReplacePair(y[1..], a, b, sub) else ReplacePair(y, a, b, sub)
  }

  lemma {:induction false} PairedFacts(x: string, y: string, a: char, b: char)
    requires Paired(x, y, a, b)
    ensures x[|x| - 1] == a && y != "" && y[0] == b
  {
    if |x| > 1 {
      PairedFacts(if x[0] == a && x[1] == b then x[2..] else x[1..], y, a, b);
    }
  }

  lemma {:induction false} HeadLight(x: string, y: string, a: char, b: char, sub: string)
    requires Light(x) && (Light(sub) || !Light([b]))
    ensures Light(Head(x, y, a, b, sub))
  {
    if |x| > 1 {
      if x[0] == a && x[1] == b {
        HeadLight(x[2..], y, a, b, sub);
        assert [b][0] == x[1];
      } else {
        HeadLight(x[1..], y, a, b, sub);
      }
    }
  }

  lemma {:induction false} PairConcatOne(x: string, y: string, a: char, b: char, sub: string)
    requires |x| == 1
    ensures ReplacePair(x + y, a, b, sub) == Head(x, y, a, b, sub) + Rest(x, y, a, b, sub)
  {
    if Paired(x, y, a, b) {
      assert (x + y)[2..] == y[1..];
    } else if y != "" {
      assert (x + y)[1..] == y && [(x + y)[0]] == x;
    } else {
      assert x + y == x;
    }
  }

  /** Replacing pairs in x + y is replacing them in each part, unless x's last character pairs up with y's first. */
  lemma {:induction false} PairConcat(x: string, y: string, a: char, b: char, sub: string)
    ensures ReplacePair(x + y, a, b, sub) == Head(x, y, a, b, sub) + Rest(x, y, a, b, sub)
  {
    if x == "" {
      assert x + y == y;
    } else if |x| == 1 {
      PairConcatOne(x, y, a, b, sub);
    } else if x[0] == a && x[1] == b {
      PairConcat(x[2..], y, a, b, sub);
      assert (x + y)[2..] == x[2..] + y;
      Assoc(sub, Head(x[2..], y, a, b, sub), Rest(x[2..], y, a, b, sub));
    } else {
      PairConcat(x[1..], y, a, b, sub);
      assert (x + y)[1..] == x[1..] + y;
      Assoc([x[0]], Head(x[1..], y, a, b, sub), Rest(x[1..], y, a, b, sub));
    }
  }

  lemma {:induction false} Assoc(x: string, y: string, z: string)
    ensures (x + y) + z == x + (y + z)
  {
  }

  function NoBold(s: string): string {
    ReplacePair(s, '*', '*', "")
  }

  lemma {:induction false} StarShift(w: string)
    requires w != "" && w[0] == '*'
    ensures NoBold(w) == "*" + NoBold(w[1..]) || NoBold(w[1..]) == "*" + NoBold(w)
  {
    if |w| >= 2 && w[1] == '*' {
      StarShift(w[1..]);
      assert w[1..][1..] == w[2..];
    }
  }

  lemma {:induction false} OneStarApart(qU: string, qV: string, r: string, s: string)
    requires Light(qU) && (r == s || r == "*" + s || s == "*" + r)
    ensures EndsAlike(qU + r, qV + s)
  {
    if r == s {
      assert Aligned(qU + r, qV + s, qU, qV, r);
    } else if r == "*" + s {
      assert Aligned(qU + r, qV + s, qU + "*", qV, s);
    } else {
      assert Aligned(qU + r, qV + s, qU, qV + "*", r);
    }
  }

  lemma {:induction false} NoBoldKeeps(u: string, v: string)
    requires EndsAlike(u, v)
    ensures EndsAlike(NoBold(u), NoBold(v))
  {
    var d, p, w :| Aligned(u, v, d, p, w);
    PairConcat(d, w, '*', '*', "");
    PairConcat(p, w, '*', '*', "");
    HeadLight(d, w, '*', '*', "");
    var r, s := Rest(d, w, '*', '*', ""), Rest(p, w, '*', '*', "");
    RestOfStars(d, w);
    RestOfStars(p, w);
    if w != "" && w[0] == '*' {
      StarShift(w);
    }
    OneStarApart(Head(d, w, '*', '*', ""), Head(p, w, '*', '*', ""), r, s);
  }

  lemma {:induction false} RestOfStars(x: string, w: string)
    ensures Rest(x, w, '*', '*', "") ==
            if w != "" && w[0] == '*' && Paired(x, w, '*', '*') then NoBold(w[1..]) else NoBold(w)
  {
    if Paired(x, w, '*', '*') {
      PairedFacts(x, w, '*', '*');
    }
  }

  lemma {:induction false} NotPaired(d: string, w: string, a: char, b: char)
    requires Light(d) && a != ' ' && a != '*'
    ensures !Paired(d, w, a, b)
  {
    if Paired(d, w, a, b) {
      PairedFacts(d, w, a, b);
      assert false;
    }
  }

  lemma {:induction false} ColonSpaceKeeps(u: string, v: string)
    requires EndsAlike(u, v)
    ensures EndsAlike(ReplacePair(u, ':', ' ', ":"), ReplacePair(v, ':', ' ', ":"))
  {
    var d, p, w :| Aligned(u, v, d, p, w);
    PairConcat(d, w, ':', ' ', ":");
    PairConcat(p, w, ':', ' ', ":");
    NotPaired(d, w, ':', ' ');
    var qU, qV := Head(d, w, ':', ' ', ":"), Head(p, w, ':', ' ', ":");
    HeadHasNoPair(d, w, ':', ' ', ":");
    var u', v' := ReplacePair(u, ':', ' ', ":"), ReplacePair(v, ':', ' ', ":");
    if Paired(p, w, ':', ' ') {
      PairedFacts(p, w, ':', ' ');
      var tail := ReplacePair(w[1..], ':', ' ', ":");
      assert ReplacePair(w, ':', ' ', ":") == " " + tail;
      Assoc(qU, " ", tail);
      Assoc(qV, ":", tail);
      assert Aligned(u', v', qU + " ", qV + ":", tail);
    } else {
      assert Aligned(u', v', qU, qV, ReplacePair(w, ':', ' ', ":"));
    }
  }

  lemma {:induction false} HeadHasNoPair(d: string, y: string, a: char, b: char, sub: string)
    requires Light(d) && a != ' ' && a != '*'
    ensures Head(d, y, a, b, sub) == d
  {
    if |d| > 1 {
      HeadHasNoPair(d[1..], y, a, b, sub);
    } else if |d| == 1 {
      NotPaired(d, y, a, b);
    }
  }

  lemma {:induction false} RestIsWhole(x: string, w: string)
    ensures Rest(x, w, ' ', ':', ":") == ReplacePair(w, ' ', ':', ":")
  {
    if Paired(x, w, ' ', ':') {
      PairedFacts(x, w, ' ', ':');
      assert ReplacePair(w, ' ', ':', ":") == ":" + ReplacePair(w[1..], ' ', ':', ":");
    }
  }

  lemma {:induction false} SpaceColonKeeps(u: string, v: string)
    requires EndsAlike(u, v)
    ensures EndsAlike(ReplacePair(u, ' ', ':', ":"), ReplacePair(v, ' ', ':', ":"))
  {
    var d, p, w :| Aligned(u, v, d, p, w);
    PairConcat(d, w, ' ', ':', ":");
    PairConcat(p, w, ' ', ':', ":");
    RestIsWhole(d, w);
    RestIsWhole(p, w);
    assert [':'][0] == ':';
    HeadLight(d, w, ' ', ':', ":");
    assert Aligned(ReplacePair(u, ' ', ':', ":"), ReplacePair(v, ' ', ':', ":"),
                   Head(d, w, ' ', ':', ":"), Head(p, w, ' ', ':', ":"), ReplacePair(w, ' ', ':', ":"));
  }

  /** The normalised conclusion ends the normalised reply. */
  lemma {:induction false} CompactKeeps(x: string, y: string)
    ensures EndsAlike(Compact(y), Compact(x + y))
  {
    assert ToLower(x + y) == ToLower(x) + ToLower(y);
    var u, v := Collapse(ToLower(y), false), Collapse(ToLower(x + y), false);
    CollapseKeeps(ToLower(x), ToLower(y));
    RemoveKeeps(u, v, '`');
    u, v := Remove(u, '`'), Remove(v, '`');
    NoBoldKeeps(u, v);
    u, v := NoBold(u), NoBold(v);
    ColonSpaceKeeps(u, v);
    SpaceColonKeeps(ReplacePair(u, ':', ' ', ":"), ReplacePair(v, ':', ' ', ":"));
  }

  lemma {:induction false} OccursShift(p: string, w: string, t: string, i: int)
    requires i >= |p|
    ensures OccursAt(p + w, t, i) <==> OccursAt(w, t, i - |p|)
  {
    if i + |t| <= |p + w| {
      assert (p + w)[i..i + |t|] == w[i - |p|..i - |p| + |t|];
    }
  }

  /** A token's last occurrence in p + w is its last one in w, or lies before w. */
  lemma {:induction false} LastAfterPrefix(p: string, w: string, t: string)
    ensures var i := LastIndex(w, t);
            if i >= 0 then LastIndex(p + w, t) == |p| + i else LastIndex(p + w, t) < |p|
  {
    var i, j := LastIndex(w, t), LastIndex(p + w, t);
    if j >= |p| {
      OccursShift(p, w, t, j);
    }
    if i >= 0 {
      OccursShift(p, w, t, |p| + i);
    }
  }

  lemma {:induction false} OccursHead(s: string, t: string, i: int)
    requires OccursAt(s, t, i) && t != ""
    ensures s[i] == t[0]
  {
    assert s[i..i + |t|][0] == s[i];
  }

  /** No token begins inside a light prefix. */
  lemma {:induction false} NotInLight(d: string, w: string, t: string)
    requires Light(d) && t != "" && t[0] != ' ' && t[0] != '*'
    ensures LastIndex(w, t) < 0 ==> LastIndex(d + w, t) == -1
  {
    LastAfterPrefix(d, w, t);
    var j := LastIndex(d + w, t);
    if j >= 0 {
      OccursHead(d + w, t, j);
    }
  }

  predicate Solid(tokens: seq<Token>) {
    forall t | t in tokens :: t.text != "" && t.text[0] != ' ' && t.text[0] != '*'
  }

  /** u's best token is v's best token, at the shifted position, or u has none and v's lies before the shared end. */
  lemma {:induction false} LatestAlike(d: string, p: string, w: string, tokens: seq<Token>)
    requires Light(d) && Solid(tokens)
    ensures var a, b := Latest(d + w, tokens), Latest(p + w, tokens);
            if a.idx >= 0 then a.idx >= |d| && b.idx == a.idx - |d| + |p| && a.verdict == b.verdict
            else a == Found(-1, "") && b.idx < |p|
  {
    if tokens != [] {
      var init, t := tokens[..|tokens| - 1], tokens[|tokens| - 1];
      assert t in tokens && forall x | x in init :: x in tokens;
      LatestAlike(d, p, w, init);
      LastAfterPrefix(d, w, t.text);
      LastAfterPrefix(p, w, t.text);
      NotInLight(d, w, t.text);
    }
  }

  lemma {:induction false} TokensAreSolid()
    ensures Solid(TOKENS)
  {
    forall t | t in TOKENS ensures t.text != "" && t.text[0] != ' ' && t.text[0] != '*' {
      var k :| 0 <= k < |TOKENS| && TOKENS[k] == t;
      assert t.text[0] == '"' || t.text[0] == 'v';
    }
  }

  /** Whatever comes first, a verdict found in the final part is the verdict of the whole reply. */
  lemma {:induction false} FinalConclusionWins(x: string, y: string)
    requires Scan(y) != ""
    ensures Scan(x + y) == Scan(y)
  {
    CompactKeeps(x, y);
    TokensAreSolid();
    var d, p, w :| Aligned(Compact(y), Compact(x + y), d, p, w);
    LatestAlike(d, p, w, TOKENS);
  }
}
