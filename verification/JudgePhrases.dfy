/** What the verdict scan answers to the ways a judge writes down its conclusion. */
module JudgePhrases {
  import opened JudgeParse

  // ----- How a conclusion may be written -----

  /** s is t, letters in either case. */
  predicate Spells(s: string, t: string) {
    |s| == |t| && forall i | 0 <= i < |s| :: s[i] == t[i] || ('a' <= t[i] <= 'z' && s[i] == t[i] - 'a' + 'A')
  }

  predicate Blanks(s: string) {
    forall c | c in s :: c == ' ' || c == '\t' || c == '\n' || c == '\r'
  }

  /** Markdown marks: back quotes and pairs of stars. */
  predicate Marks(m: string) {
    m == "" || (m[0] == '`' && Marks(m[1..])) || (|m| >= 2 && m[0] == '*' && m[1] == '*' && Marks(m[2..]))
  }

  function Quoted(s: string): string {
    "\"" + s + "\""
  }

  /** This key with this value, in small letters, states verdict v. */
  predicate States(key: string, value: string, v: string) {
    || (v in {"aligned", "drift_detected", "needs_human"} &&
        ((key == "verdict" && (value == v || value == Quoted(v))) || (key == Quoted("verdict") && value == Quoted(v))))
    || (v == "aligned" && key == Quoted("aligned") && value == "true")
    || (v == "aligned" && key == Quoted("drift") && value == "false")
  }

  /** The key, the colon and the value, with white space and marks between them. */
  datatype Phrase = Phrase(
    key: string, marks0: string, gap0: string, marks1: string, gap1: string, marks2: string, value: string)
  {
    function Text(): string {
      key + (marks0 + (gap0 + (":" + (marks1 + (gap1 + (marks2 + value))))))
    }

    predicate Proper() {
      Marks(marks0) && Marks(marks1) && Marks(marks2) && Blanks(gap0) && Blanks(gap1)
    }
  }

  // ----- Small letters -----

  lemma {:induction false} LowerConcat(a: string, b: string)
    ensures ToLower(a + b) == ToLower(a) + ToLower(b)
  {
  }

  lemma {:induction false} LowerSpelled(s: string, t: string)
    requires Spells(s, t) && forall c | c in t :: !('A' <= c <= 'Z')
    ensures ToLower(s) == t
  {
    forall i | 0 <= i < |s| ensures ToLower(s)[i] == t[i] {
      assert t[i] in t;
    }
  }

  lemma {:induction false} LowerBlanks(s: string)
    requires Blanks(s)
    ensures ToLower(s) == s
  {
    assert forall i | 0 <= i < |s| :: s[i] in s;
  }

  lemma {:induction false} LowerMarks(m: string)
    requires Marks(m)
    ensures ToLower(m) == m && forall c | c in m :: c == '`' || c == '*'
  {
    if m != "" {
      var n := if m[0] == '`' then 1 else 2;
      LowerMarks(m[n..]);
      assert m == m[..n] + m[n..];
      LowerConcat(m[..n], m[n..]);
    }
  }

  lemma {:induction false} LowerTail(tail: string)
    requires ':' !in tail
    ensures ':' !in ToLower(tail)
  {
  }

  // ----- Single stages -----

  lemma {:induction false} CollapseSolid(p: string, y: string)
    requires forall c | c in p :: !IsSpace(c)
    ensures Collapse(p + y, false) == p + Collapse(y, false)
  {
    if p == "" {
      assert p + y == y;
    } else {
      assert (p + y)[1..] == p[1..] + y;
      assert p[0] in p;
      CollapseSolid(p[1..], y);
    }
  }

  function Squeezed(gap: string): string {
    if gap == "" then "" else " "
  }

  lemma {:induction false} CollapseGap(gap: string, y: string, prevSpace: bool)
    requires Blanks(gap) && y != "" && !IsSpace(y[0])
    ensures Collapse(gap + y, prevSpace) == (if prevSpace then "" else Squeezed(gap)) + Collapse(y, false)
  {
    if gap == "" {
      assert gap + y == y;
    } else {
      assert (gap + y)[1..] == gap[1..] + y;
      assert gap[0] in gap && forall c | c in gap[1..] :: c in gap;
      CollapseGap(gap[1..], y, true);
    }
  }

  lemma {:induction false} CollapseKeepsOut(s: string, prevSpace: bool, c: char)
    requires c !in s && c != ' '
    ensures c !in Collapse(s, prevSpace)
  {
    if s != "" {
      CollapseKeepsOut(s[1..], IsSpace(s[0]), c);
    }
  }

  lemma {:induction false} RemoveAbsent(s: string, c: char)
    requires c !in s
    ensures Remove(s, c) == s
  {
    if s != "" {
      RemoveAbsent(s[1..], c);
    }
  }

  lemma {:induction false} RemoveKeepsOut(s: string, r: char, c: char)
    requires c !in s
    ensures c !in Remove(s, r)
  {
    if s != "" {
      RemoveKeepsOut(s[1..], r, c);
    }
  }

  /** Stars in pairs only. */
  predicate Stars(m: string) {
    m == "" || (|m| >= 2 && m[0] == '*' && m[1] == '*' && Stars(m[2..]))
  }

  lemma {:induction false} MarksBecomeStars(m: string)
    requires Marks(m)
    ensures Stars(Remove(m, '`'))
  {
    if m != "" && m[0] == '`' {
      MarksBecomeStars(m[1..]);
    } else if m != "" {
      MarksBecomeStars(m[2..]);
      assert m[1..][0] == '*' && m[1..][1..] == m[2..];
      var rest := Remove(m[2..], '`');
      assert Remove(m, '`') == ['*'] + (['*'] + rest);
      assert (['*'] + (['*'] + rest))[2..] == rest;
    }
  }

  lemma {:induction false} PlainFront(p: string, y: string, a: char, b: char, sub: string)
    requires a !in p
    ensures ReplacePair(p + y, a, b, sub) == p + ReplacePair(y, a, b, sub)
  {
    if p == "" {
      assert p + y == y;
    } else {
      var rest := p[1..] + y;
      assert (p + y)[1..] == rest && (p + y)[0] == p[0] && p[0] in p;
      PlainFront(p[1..], y, a, b, sub);
      PlainStep(p + y, a, b, sub);
      assert [p[0]] + (p[1..] + ReplacePair(y, a, b, sub)) == p + ReplacePair(y, a, b, sub);
    }
  }

  lemma {:induction false} PlainStep(s: string, a: char, b: char, sub: string)
    requires s != "" && s[0] != a
    ensures ReplacePair(s, a, b, sub) == [s[0]] + ReplacePair(s[1..], a, b, sub)
  {
    if |s| == 1 {
      assert s[1..] == "" && s == [s[0]] + "";
    }
  }

  lemma {:induction false} PairAbsent(s: string, a: char, b: char, sub: string)
    requires a !in s || b !in s
    ensures ReplacePair(s, a, b, sub) == s
  {
    if |s| >= 2 {
      PairAbsent(s[1..], a, b, sub);
    }
  }

  lemma {:induction false} StarsFront(m: string, y: string)
    requires Stars(m)
    ensures NoBold(m + y) == NoBold(y)
  {
    if m == "" {
      assert m + y == y;
    } else {
      StarsFront(m[2..], y);
      assert (m + y)[2..] == m[2..] + y;
      assert "" + NoBold((m + y)[2..]) == NoBold((m + y)[2..]);
    }
  }

  lemma {:induction false} PairKeepsOut(s: string, a: char, b: char, sub: string, c: char)
    requires c !in s && c !in sub
    ensures c !in ReplacePair(s, a, b, sub)
  {
    if |s| >= 2 {
      PairKeepsOut(s[2..], a, b, sub, c);
      PairKeepsOut(s[1..], a, b, sub, c);
    }
  }

  // ----- The stages on a phrase -----

  /** Letters, quotation marks and underscores: what no stage touches. */
  predicate Firm(s: string) {
    s != "" && forall c | c in s :: c != ':' && c != '`' && c != '*' && !IsSpace(c) && !('A' <= c <= 'Z')
  }

  function Spread(k: string, m0: string, g0: string, m1: string, g1: string, m2: string, val: string, w: string): string {
    k + (m0 + (g0 + (":" + (m1 + (g1 + (m2 + (val + w)))))))
  }

  lemma {:induction false} LowerPhrase(ph: Phrase, tail: string, k: string, val: string)
    requires ph.Proper() && Spells(ph.key, k) && Spells(ph.value, val) && Firm(k) && Firm(val)
    ensures ToLower(ph.Text() + tail) ==
            Spread(k, ph.marks0, ph.gap0, ph.marks1, ph.gap1, ph.marks2, val, ToLower(tail))
  {
    var v := ph.value + tail;
    var f := ph.marks2 + v;
    var e := ph.gap1 + f;
    var d := ph.marks1 + e;
    var c := ":" + d;
    var b := ph.gap0 + c;
    var a := ph.marks0 + b;
    assert ph.Text() + tail == ph.key + a;
    LowerConcat(ph.key, a);
    LowerConcat(ph.marks0, b);
    LowerConcat(ph.gap0, c);
    LowerConcat(":", d);
    LowerConcat(ph.marks1, e);
    LowerConcat(ph.gap1, f);
    LowerConcat(ph.marks2, v);
    LowerConcat(ph.value, tail);
    LowerSpelled(ph.key, k);
    LowerSpelled(ph.value, val);
    LowerMarks(ph.marks0);
    LowerMarks(ph.marks1);
    LowerMarks(ph.marks2);
    LowerBlanks(ph.gap0);
    LowerBlanks(ph.gap1);
    assert ToLower(":") == ":";
  }

  lemma {:induction false} CollapsePhrase(
    k: string, m0: string, g0: string, m1: string, g1: string, m2: string, val: string, w: string)
    requires Firm(k) && Firm(val) && Marks(m0) && Marks(m1) && Marks(m2) && Blanks(g0) && Blanks(g1)
    ensures Collapse(Spread(k, m0, g0, m1, g1, m2, val, w), false) ==
            Spread(k, m0, Squeezed(g0), m1, Squeezed(g1), m2, val, Collapse(w, false))
  {
    LowerMarks(m0);
    LowerMarks(m1);
    LowerMarks(m2);
    var f := m2 + (val + w);
    var d := m1 + (g1 + f);
    CollapseSolid(val, w);
    CollapseSolid(m2, val + w);
    assert f[0] == if m2 == "" then val[0] else m2[0];
    assert val[0] in val && (m2 != "" ==> m2[0] in m2);
    CollapseGap(g1, f, false);
    CollapseSolid(m1, g1 + f);
    CollapseSolid(":", d);
    CollapseGap(g0, ":" + d, false);
    CollapseSolid(m0, g0 + (":" + d));
    CollapseSolid(k, m0 + (g0 + (":" + d)));
  }

  lemma {:induction false} RemovePhrase(
    k: string, m0: string, s0: string, m1: string, s1: string, m2: string, val: string, w: string)
    requires Firm(k) && Firm(val) && '`' !in s0 && '`' !in s1
    ensures Remove(Spread(k, m0, s0, m1, s1, m2, val, w), '`') ==
            Spread(k, Remove(m0, '`'), s0, Remove(m1, '`'), s1, Remove(m2, '`'), val, Remove(w, '`'))
  {
    RemoveConcat(val, w, '`');
    RemoveConcat(m2, val + w, '`');
    RemoveConcat(s1, m2 + (val + w), '`');
    RemoveConcat(m1, s1 + (m2 + (val + w)), '`');
    RemoveConcat(":", m1 + (s1 + (m2 + (val + w))), '`');
    RemoveConcat(s0, ":" + (m1 + (s1 + (m2 + (val + w)))), '`');
    RemoveConcat(m0, s0 + (":" + (m1 + (s1 + (m2 + (val + w))))), '`');
    RemoveConcat(k, m0 + (s0 + (":" + (m1 + (s1 + (m2 + (val + w)))))), '`');
    RemoveAbsent(k, '`');
    RemoveAbsent(val, '`');
    RemoveAbsent(s0, '`');
    RemoveAbsent(s1, '`');
    RemoveAbsent(":", '`');
  }

  lemma {:induction false} UnboldPhrase(
    k: string, t0: string, s0: string, t1: string, s1: string, t2: string, val: string, w: string)
    requires Firm(k) && Firm(val) && Stars(t0) && Stars(t1) && Stars(t2) && '*' !in s0 && '*' !in s1
    ensures NoBold(Spread(k, t0, s0, t1, s1, t2, val, w)) == k + (s0 + (":" + (s1 + (val + NoBold(w)))))
  {
    var f := t2 + (val + w);
    var d := t1 + (s1 + f);
    PlainFront(val, w, '*', '*', "");
    StarsFront(t2, val + w);
    PlainFront(s1, f, '*', '*', "");
    StarsFront(t1, s1 + f);
    PlainFront(":", d, '*', '*', "");
    PlainFront(s0, ":" + d, '*', '*', "");
    StarsFront(t0, s0 + (":" + d));
    PlainFront(k, t0 + (s0 + (":" + d)), '*', '*', "");
  }

  lemma {:induction false} ColonPhrase(k: string, s0: string, s1: string, val: string, w: string)
    requires Firm(k) && Firm(val) && ':' !in w && (s0 == "" || s0 == " ") && (s1 == "" || s1 == " ")
    ensures ReplacePair(k + (s0 + (":" + (s1 + (val + w)))), ':', ' ', ":") == k + (s0 + (":" + (val + w)))
  {
    var rest := val + w;
    assert rest[0] == val[0] && val[0] in val;
    PairAbsent(rest, ':', ' ', ":");
    PlainFront(k, s0 + (":" + (s1 + rest)), ':', ' ', ":");
    PlainFront(s0, ":" + (s1 + rest), ':', ' ', ":");
    var c := ":" + (s1 + rest);
    if s1 == " " {
      assert c[0] == ':' && c[1] == ' ' && c[2..] == rest;
    } else {
      assert c[1..] == rest && c[1] != ' ';
    }
  }

  lemma {:induction false} SpacePhrase(k: string, s0: string, val: string, w: string)
    requires Firm(k) && Firm(val) && ':' !in w && (s0 == "" || s0 == " ")
    ensures ReplacePair(k + (s0 + (":" + (val + w))), ' ', ':', ":") == k + (":" + (val + w))
  {
    var rest := val + w;
    PairAbsent(rest, ' ', ':', ":");
    PlainFront(k, s0 + (":" + rest), ' ', ':', ":");
    var c := s0 + (":" + rest);
    if s0 == " " {
      assert c[0] == ' ' && c[1] == ':' && c[2..] == rest;
    } else {
      assert c == ":" + rest;
      PlainFront(":", rest, ' ', ':', ":");
    }
  }

  /** However a phrase is written, what is left is key, colon and value, with no other colon behind them. */
  lemma {:induction false} CompactPhrase(ph: Phrase, tail: string, k: string, val: string) returns (w: string)
    requires ph.Proper() && Spells(ph.key, k) && Spells(ph.value, val) && Firm(k) && Firm(val) && ':' !in tail
    ensures Compact(ph.Text() + tail) == k + (":" + (val + w)) && ':' !in w
  {
    var s0, s1 := Squeezed(ph.gap0), Squeezed(ph.gap1);
    w := ToLower(tail);
    LowerPhrase(ph, tail, k, val);
    LowerTail(tail);
    CollapsePhrase(k, ph.marks0, ph.gap0, ph.marks1, ph.gap1, ph.marks2, val, w);
    CollapseKeepsOut(w, false, ':');
    w := Collapse(w, false);
    RemovePhrase(k, ph.marks0, s0, ph.marks1, s1, ph.marks2, val, w);
    RemoveKeepsOut(w, '`', ':');
    w := Remove(w, '`');
    MarksBecomeStars(ph.marks0);
    MarksBecomeStars(ph.marks1);
    MarksBecomeStars(ph.marks2);
    UnboldPhrase(k, Remove(ph.marks0, '`'), s0, Remove(ph.marks1, '`'), s1, Remove(ph.marks2, '`'), val, w);
    PairKeepsOut(w, '*', '*', "", ':');
    w := NoBold(w);
    ColonPhrase(k, s0, s1, val, w);
    SpacePhrase(k, s0, val, w);
  }

  // ----- The table -----

  /** The verdict a value's first letters point to. */
  function Decoded(first: char, second: char): string {
    var letter := if first == '"' then second else first;
    if letter == 'n' then "needs_human" else if letter == 'd' then "drift_detected" else "aligned"
  }

  lemma {:induction false} FirmKeys()
    ensures Firm("verdict") && Firm("aligned") && Firm("drift")
  {
  }

  lemma {:induction false} FirmVerdicts()
    ensures Firm("drift_detected") && Firm("needs_human")
  {
  }

  lemma {:induction false} FirmFacts()
    ensures Firm("true") && Firm("false")
  {
  }

  lemma {:induction false} FirmQuoted(s: string)
    requires Firm(s)
    ensures Firm(Quoted(s)) && Quoted(s)[0] == '"' && Quoted(s)[1] == s[0] && |Quoted(s)| >= 3
  {
  }

  lemma {:induction false} PhraseShape(k: string, val: string, v: string)
    requires States(k, val, v)
    ensures Firm(k) && Firm(val) && |val| >= 2 && Decoded(val[0], val[1]) == v
  {
    FirmKeys();
    FirmVerdicts();
    FirmFacts();
    FirmQuoted("verdict");
    FirmQuoted("aligned");
    FirmQuoted("drift");
    FirmQuoted("drift_detected");
    FirmQuoted("needs_human");
  }

  /** Row i of the table is this key with this value. */
  predicate Row(i: nat, k: string, val: string, v: string) {
    i < |TOKENS| && TOKENS[i] == Token(k + (":" + val), v)
  }

  lemma {:induction false} AlignedRows()
    ensures Row(0, Quoted("verdict"), Quoted("aligned"), "aligned") && Row(1, "verdict", Quoted("aligned"), "aligned")
    ensures Row(2, "verdict", "aligned", "aligned")
  {
  }

  lemma {:induction false} FactRows()
    ensures Row(3, Quoted("aligned"), "true", "aligned") && Row(4, Quoted("drift"), "false", "aligned")
  {
  }

  lemma {:induction false} HumanRows()
    ensures Row(5, Quoted("verdict"), Quoted("needs_human"), "needs_human")
    ensures Row(6, "verdict", Quoted("needs_human"), "needs_human") && Row(7, "verdict", "needs_human", "needs_human")
  {
    QuotedHumanRow();
    BareHumanRows();
  }

  lemma {:induction false} QuotedHumanRow()
    ensures Row(5, Quoted("verdict"), Quoted("needs_human"), "needs_human")
  {
  }

  lemma {:induction false} BareHumanRows()
    ensures Row(6, "verdict", Quoted("needs_human"), "needs_human") && Row(7, "verdict", "needs_human", "needs_human")
  {
  }

  lemma {:induction false} DriftRows()
    ensures Row(8, Quoted("verdict"), Quoted("drift_detected"), "drift_detected")
    ensures Row(9, "verdict", Quoted("drift_detected"), "drift_detected")
    ensures Row(10, "verdict", "drift_detected", "drift_detected")
  {
    QuotedDriftRow();
    QuotedDriftValueRow();
    BareDriftRow();
  }

  lemma {:induction false} QuotedDriftRow()
    ensures Row(8, Quoted("verdict"), Quoted("drift_detected"), "drift_detected")
  {
  }

  lemma {:induction false} QuotedDriftValueRow()
    ensures Row(9, "verdict", Quoted("drift_detected"), "drift_detected")
  {
  }

  lemma {:induction false} BareDriftRow()
    ensures Row(10, "verdict", "drift_detected", "drift_detected")
  {
  }

  /** The table holds exactly the ways to state a verdict. */
  lemma {:induction false} TableIsComplete(k: string, val: string, v: string)
    ensures States(k, val, v) ==> Token(k + (":" + val), v) in TOKENS
  {
    if States(k, val, v) {
      AlignedRows();
      FactRows();
      HumanRows();
      DriftRows();
      if val == "true" {
        assert Row(3, k, val, v);
      } else if val == "false" {
        assert Row(4, k, val, v);
      } else {
        var first := if v == "aligned" then 0 else if v == "needs_human" then 5 else 8;
        assert Row(first, k, val, v) || Row(first + 1, k, val, v) || Row(first + 2, k, val, v);
      }
    }
  }

  lemma {:induction false} TableIsSound(t: Token) returns (k: string, val: string)
    requires t in TOKENS
    ensures t.text == k + (":" + val) && States(k, val, t.verdict)
  {
    var i :| 0 <= i < |TOKENS| && TOKENS[i] == t;
    AlignedRows();
    FactRows();
    HumanRows();
    DriftRows();
    k := if i in {0, 5, 8} then Quoted("verdict") else if i == 3 then Quoted("aligned") else if i == 4 then Quoted("drift") else "verdict";
    var word := if i < 3 then "aligned" else if i < 8 then "needs_human" else "drift_detected";
    val := if i == 3 then "true" else if i == 4 then "false" else if i in {2, 7, 10} then word else Quoted(word);
  }

  lemma {:induction false} OnlyColon(k: string, rest: string, n: nat)
    requires ':' !in k && ':' !in rest && n < |k + (":" + rest)| && (k + (":" + rest))[n] == ':'
    ensures n == |k|
  {
  }

  /** With a single colon in the text, a token can only occur with its colon there. */
  lemma {:induction false} ColonsMeet(k: string, rest: string, tk: string, tv: string, i: int)
    requires ':' !in k && ':' !in rest && OccursAt(k + (":" + rest), tk + (":" + tv), i)
    ensures i + |tk| == |k| && |tv| <= |rest| && rest[..|tv|] == tv
  {
    var s, t := k + (":" + rest), tk + (":" + tv);
    assert s[i..i + |t|][|tk|] == t[|tk|] == ':';
    OnlyColon(k, rest, i + |tk|);
    forall j | 0 <= j < |tv| ensures rest[j] == tv[j] {
      assert s[i..i + |t|][|tk| + 1 + j] == t[|tk| + 1 + j];
    }
  }

  /** Whatever token occurs in a normalised phrase says what the phrase says. */
  lemma {:induction false} TokensAgree(k: string, val: string, w: string, v: string, t: Token, i: int)
    requires States(k, val, v) && ':' !in w && t in TOKENS && OccursAt(k + (":" + (val + w)), t.text, i)
    ensures t.verdict == v
  {
    var tk, tv := TableIsSound(t);
    PhraseShape(k, val, v);
    PhraseShape(tk, tv, t.verdict);
    ColonsMeet(k, val + w, tk, tv, i);
    assert (val + w)[0] == tv[0] && (val + w)[1] == tv[1];
  }

  lemma {:induction false} FrontOccurs(k: string, val: string, w: string)
    ensures OccursAt(k + (":" + (val + w)), k + (":" + val), 0)
  {
    assert (k + (":" + (val + w)))[0..|k + (":" + val)|] == k + (":" + val);
  }

  lemma {:induction false} NormalisedVerdict(k: string, val: string, w: string, v: string)
    requires States(k, val, v) && ':' !in w
    ensures Latest(k + (":" + (val + w)), TOKENS).verdict == v
  {
    var s, own := k + (":" + (val + w)), Token(k + (":" + val), v);
    TableIsComplete(k, val, v);
    LatestIsLast(s, TOKENS);
    FrontOccurs(k, val, w);
    var best := Latest(s, TOKENS);
    assert best != Found(-1, "");
    var t :| t in TOKENS && OccursAt(s, t.text, best.idx) && t.verdict == best.verdict;
    TokensAgree(k, val, w, v, t, best.idx);
  }

  /**
   * A reply that ends with a verdict is answered that verdict: whatever comes before, in any case of letters, with any
   * white space around the colon, with marks around key and value, and with any text behind it that has no colon.
   */
  lemma {:induction false} PhraseDecides(before: string, ph: Phrase, tail: string, key: string, value: string, v: string)
    requires ph.Proper() && Spells(ph.key, key) && Spells(ph.value, value) && States(key, value, v) && ':' !in tail
    ensures Scan(before + (ph.Text() + tail)) == v
  {
    PhraseShape(key, value, v);
    var w := CompactPhrase(ph, tail, key, value);
    NormalisedVerdict(key, value, w, v);
    FinalConclusionWins(before, ph.Text() + tail);
  }
}
