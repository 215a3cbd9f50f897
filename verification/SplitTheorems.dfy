/** What the splitter guarantees about whole bodies. */
module SplitTheorems {
  import opened SqlSplitter

  function Join(pieces: seq<string>): string {
    if pieces == [] then ""
    else if |pieces| == 1 then pieces[0]
    else pieces[0] + ";" + Join(pieces[1..])
  }

  // ----- Conservation -----

  lemma {:induction false} StepConserves(l: Lexer, text: string)
    requires text != ""
    ensures var m := Step(l, text);
            if m.cut then text[0] == ';' && m.used == 1 && m.next == l.(stmt := "") && l.mode.Normal?
            else m.next.stmt == l.stmt + text[..m.used]
  {
    assert text[..1] == [text[0]];
  }

  lemma {:induction false} JoinCons(p: string, rest: seq<string>)
    requires rest != []
    ensures Join([p] + rest) == p + ";" + Join(rest)
  {
    assert ([p] + rest)[1..] == rest;
  }

  lemma {:induction false} PiecesStep(l: Lexer, text: string)
    requires text != ""
    ensures var m := Step(l, text);
            var rest := Lex(m.next, text[m.used..]).Pieces();
            Lex(l, text).Pieces() == if m.cut then [l.stmt] + rest else rest
  {
    var m := Step(l, text);
    var r := Lex(m.next, text[m.used..]);
    assert ([l.stmt] + r.closed) + [r.last.stmt] == [l.stmt] + (r.closed + [r.last.stmt]);
  }

  /** Gluing back what one step took off the text. */
  lemma {:induction false} Glue(s: string, text: string, n: nat)
    requires n <= |text|
    ensures s + text == (s + text[..n]) + text[n..]
  {
    assert text == text[..n] + text[n..];
  }

  lemma {:induction false} GlueCut(s: string, text: string)
    requires text != "" && text[0] == ';'
    ensures s + text == s + ";" + ("" + text[1..])
  {
    assert "" + text[1..] == text[1..];
    assert text == ";" + text[1..];
    assert s + (";" + text[1..]) == (s + ";") + text[1..];
  }

  /** The untrimmed pieces, rejoined at the dropped semicolons, are the text: nothing lost, nothing invented. */
  lemma {:induction false} LexConserves(l: Lexer, text: string)
    ensures Join(Lex(l, text).Pieces()) == l.stmt + text
    decreases |text|
  {
    if text == "" {
      assert l.stmt + text == l.stmt;
      assert Lex(l, text).Pieces() == [l.stmt];
    } else {
      StepConserves(l, text);
      PiecesStep(l, text);
      var m := Step(l, text);
      LexConserves(m.next, text[m.used..]);
      Glue(l.stmt, text, m.used);
      if m.cut {
        GlueCut(l.stmt, text);
        JoinCons(l.stmt, Lex(m.next, text[m.used..]).Pieces());
      }
    }
  }

  // ----- State invariant -----

  predicate HasInk(s: string) {
    exists i :: 0 <= i < |s| && !IsSpace(s[i])
  }

  /** Depth is positive exactly inside a BEGIN block and the tag is set exactly inside a dollar quote. */
  predicate Consistent(l: Lexer) {
    && l.depth >= 0
    && (l.depth > 0 <==> l.mode.BeginBlock?)
    && (l.tag != "" <==> l.mode.Dollar?)
    && |l.tag| <= |l.stmt|
    && (!l.mode.Normal? ==> HasInk(l.stmt))
  }

  lemma {:induction false} InkGrows(s: string, t: string)
    ensures HasInk(s) ==> HasInk(s + t)
    ensures HasInk(t) ==> HasInk(s + t)
  {
    if HasInk(s) {
      var i :| 0 <= i < |s| && !IsSpace(s[i]);
      assert (s + t)[i] == s[i];
    }
    if HasInk(t) {
      var i :| 0 <= i < |t| && !IsSpace(t[i]);
      assert (s + t)[|s| + i] == t[i];
    }
  }

  lemma {:induction false} StepConsistent(l: Lexer, text: string)
    requires text != "" && Consistent(l)
    ensures Consistent(Step(l, text).next)
  {
    StepConserves(l, text);
    var m := Step(l, text);
    InkGrows(l.stmt, text[..m.used]);
    if l.mode.Normal? && !m.next.mode.Normal? {
      assert !IsSpace(text[..m.used][0]);
    }
  }

  lemma {:induction false} LexConsistent(l: Lexer, text: string)
    requires Consistent(l)
    ensures Consistent(Lex(l, text).last)
    decreases |text|
  {
    if text != "" {
      StepConsistent(l, text);
      LexConsistent(Step(l, text).next, text[Step(l, text).used..]);
    }
  }

  /** In every state the machine can be in after any body. */
  lemma {:induction false} DepthAndTagTrackState(body: string)
    ensures var l := Lex(START, body).last;
            (l.depth > 0 <==> l.mode.BeginBlock?) && l.depth >= 0 && (l.tag != "" <==> l.mode.Dollar?)
  {
    LexConsistent(START, body);
  }

  // ----- Locality: a neutral character ends every lookahead -----

  predicate Neutral(c: char) {
    c != '-' && c != '/' && c != '*' && c != '\'' && c != '$' && !IsWord(c)
  }

  lemma {:induction false} NameEndLocal(p: string, w: string, k: nat)
    requires w != "" && Neutral(w[0]) && k <= |p|
    ensures NameEnd(p + w, k) == NameEnd(p, k)
    decreases |p| - k
  {
    if k < |p| {
      NameEndLocal(p, w, k + 1);
      assert (p + w)[k] == p[k];
    } else {
      assert (p + w)[k] == w[0];
    }
  }

  lemma {:induction false} StepLocal(l: Lexer, p: string, w: string)
    requires p != "" && w != "" && Neutral(w[0])
    ensures Step(l, p + w) == Step(l, p)
  {
    var text := p + w;
    assert text[0] == p[0];
    assert |p| == 1 ==> text[1] == w[0];
    assert |p| > 1 ==> text[1] == p[1] && text[..2] == p[..2];
    if |p| > 1 {
      NameEndLocal(p, w, 2);
    }
    assert TagLength(text) == TagLength(p);
    assert text[..TagLength(p)] == p[..TagLength(p)];
    assert text[..1] == p[..1];
  }

  lemma {:induction false} LexPrefix(l: Lexer, p: string, w: string)
    requires w != "" && Neutral(w[0])
    ensures var a := Lex(l, p);
            var b := Lex(a.last, w);
            Lex(l, p + w) == Lexed(a.closed + b.closed, b.last)
    decreases |p|
  {
    if p == "" {
      assert p + w == w;
      assert [] + Lex(l, w).closed == Lex(l, w).closed;
    } else {
      StepLocal(l, p, w);
      var m := Step(l, p);
      LexPrefix(m.next, p[m.used..], w);
      DropFront(p, w, m.used);
      ClosedFirst(l.stmt, Lex(m.next, p[m.used..]).closed, Lex(Lex(m.next, p[m.used..]).last, w).closed);
    }
  }

  lemma {:induction false} DropFront(p: string, w: string, n: nat)
    requires n <= |p|
    ensures (p + w)[n..] == p[n..] + w
  {
  }

  lemma {:induction false} ClosedFirst(s: string, a: seq<string>, b: seq<string>)
    ensures [s] + (a + b) == ([s] + a) + b
  {
  }

  // ----- Splitting a concatenation -----

  /** At the start of a body, or right after a split. */
  lemma {:induction false} LexSemicolon(l: Lexer, b: string)
    requires Consistent(l) && l.mode.Normal?
    ensures Lex(l, ";" + b) == Lexed([l.stmt] + Lex(START, b).closed, Lex(START, b).last)
  {
    var text := ";" + b;
    assert text[1..] == b;
    assert !IsWord(';');
    assert Step(l, text) == Move(START, 1, true);
  }

  function EndState(s: string): Mode {
    Lex(START, s).last.mode
  }

  /** split(a;b) = split(a) ++ split(b) when a ends in the normal state. */
  lemma {:induction false} SplitConcat(a: string, b: string)
    requires EndState(a).Normal?
    ensures Split(a + ";" + b) == Split(a) + Split(b)
    ensures Lex(START, a + ";" + b) ==
            Lexed(Lex(START, a).Pieces() + Lex(START, b).closed, Lex(START, b).last)
  {
    var la, lb := Lex(START, a), Lex(START, b);
    assert a + ";" + b == a + (";" + b);
    LexConsistent(START, a);
    LexPrefix(START, a, ";" + b);
    LexSemicolon(la.last, b);
    assert la.closed + ([la.last.stmt] + lb.closed) == la.Pieces() + lb.closed;
    assert (la.Pieces() + lb.closed) + [lb.last.stmt] == la.Pieces() + lb.Pieces();
    StatementsAppend(la.Pieces(), lb.Pieces());
  }

  /** The first piece only grows. */
  lemma {:induction false} FirstPiece(l: Lexer, text: string)
    ensures l.stmt <= Lex(l, text).Pieces()[0]
    decreases |text|
  {
    if text != "" {
      StepConserves(l, text);
      var m := Step(l, text);
      if !m.cut {
        FirstPiece(m.next, text[m.used..]);
      }
    }
  }

  lemma {:induction false} FirstPieceInside(l: Lexer, b: string)
    requires !l.mode.Normal?
    ensures l.stmt + ";" <= Lex(l, ";" + b).Pieces()[0]
  {
    var text := ";" + b;
    var m := Step(l, text);
    assert text[0] == ';';
    assert m.next.stmt == l.stmt + [';'] && !m.cut;
    FirstPiece(m.next, text[m.used..]);
  }

  // ----- Trimming -----

  lemma {:induction false} TrimLeftFacts(s: string) returns (lead: string)
    ensures s == lead + TrimLeft(s) && !HasInk(lead)
    ensures TrimLeft(s) == "" || !IsSpace(TrimLeft(s)[0])
  {
    if s != "" && IsSpace(s[0]) {
      lead := TrimLeftFacts(s[1..]);
      assert s == [s[0]] + (lead + TrimLeft(s));
      lead := [s[0]] + lead;
    } else {
      lead := "";
    }
  }

  lemma {:induction false} TrimRightFacts(s: string) returns (trail: string)
    ensures s == TrimRight(s) + trail && !HasInk(trail)
    ensures TrimRight(s) == "" || !IsSpace(TrimRight(s)[|TrimRight(s)| - 1])
  {
    if s != "" && IsSpace(s[|s| - 1]) {
      trail := TrimRightFacts(s[..|s| - 1]);
      assert s == TrimRight(s) + trail + [s[|s| - 1]];
      trail := trail + [s[|s| - 1]];
    } else {
      trail := "";
    }
  }

  lemma {:induction false} BlankAppend(a: string, b: string)
    requires !HasInk(a) && !HasInk(b)
    ensures !HasInk(a + b)
  {
    forall i | 0 <= i < |a + b| ensures IsSpace((a + b)[i]) {
      if i < |a| {
        assert (a + b)[i] == a[i];
      } else {
        assert (a + b)[i] == b[i - |a|];
      }
    }
  }

  lemma {:induction false} TrimFacts(s: string) returns (lead: string, trail: string)
    ensures s == lead + Trim(s) + trail && !HasInk(lead) && !HasInk(trail)
    ensures Trim(s) == "" || (!IsSpace(Trim(s)[0]) && !IsSpace(Trim(s)[|Trim(s)| - 1]))
    ensures Trim(s) == "" <==> !HasInk(s)
    ensures Trim(Trim(s)) == Trim(s)
  {
    lead := TrimLeftFacts(s);
    trail := TrimRightFacts(TrimLeft(s));
    assert TrimLeft(s)[..|Trim(s)|] == Trim(s);
    if Trim(s) != "" {
      assert TrimLeft(Trim(s)) == Trim(s);
      InkInside(lead, Trim(s), trail);
    } else {
      assert s == lead + trail;
      BlankAppend(lead, trail);
    }
  }

  lemma {:induction false} InkInside(lead: string, s: string, trail: string)
    requires s != "" && !IsSpace(s[0])
    ensures HasInk(lead + s + trail)
  {
    assert HasInk(s);
    InkGrows(lead, s);
    InkGrows(lead + s, trail);
  }

  /** Text with more ink behind it trims to something longer. */
  lemma {:induction false} TrimGrows(s: string, x: string)
    requires HasInk(s) && s + ";" <= x
    ensures Trim(x) != Trim(s) && HasInk(x)
  {
    var lead, trail := TrimFacts(s);
    var lead', trail' := TrimFacts(x);
    var n := |lead|;
    assert x[..|s| + 1] == s + ";";
    InkGrows(s, x[|s|..]);
    assert x == s + x[|s|..];
    LeadIs(s, lead);
    LeadIs(x, lead');
    assert x[|s|] == ';';
    forall i | |x| - |trail'| <= i < |x| ensures IsSpace(x[i]) {
      assert x[i] == trail'[i - (|x| - |trail'|)];
    }
  }

  /** The leading blank part is determined by the position of the first ink. */
  lemma {:induction false} LeadIs(s: string, lead: string)
    requires HasInk(s) && !HasInk(lead) && lead < s && !IsSpace(s[|lead|])
    ensures forall i | 0 <= i < |lead| :: IsSpace(s[i])
  {
    forall i | 0 <= i < |lead| ensures IsSpace(s[i]) {
      assert lead[i] == s[i];
    }
  }

  // ----- Exactly when splitting distributes over ";" -----

  /** If a ends inside a comment, a literal or a block, the ";" is swallowed and the statement there changes. */
  lemma {:induction false} SplitSwallowed(a: string, b: string)
    requires !EndState(a).Normal?
    ensures var la := Lex(START, a);
            |Split(a + ";" + b)| > |Statements(la.closed)| &&
            Split(a + ";" + b)[|Statements(la.closed)|] != Trim(la.last.stmt) &&
            Split(a) == Statements(la.closed) + [Trim(la.last.stmt)]
  {
    var la := Lex(START, a);
    var lb := Lex(la.last, ";" + b);
    assert a + ";" + b == a + (";" + b);
    LexConsistent(START, a);
    LexPrefix(START, a, ";" + b);
    FirstPieceInside(la.last, b);
    var p := lb.Pieces()[0];
    TrimGrows(la.last.stmt, p);
    assert (la.closed + lb.closed) + [lb.last.stmt] == la.closed + lb.Pieces();
    StatementsAppend(la.closed, lb.Pieces());
    var _, _ := TrimFacts(p);
    assert Statements(lb.Pieces())[0] == Trim(p);
    StatementsAppend(la.closed, [la.last.stmt]);
    var _, _ := TrimFacts(la.last.stmt);
    assert Statements([la.last.stmt]) == [Trim(la.last.stmt)];
  }

  lemma {:induction false} SplitConcatIff(a: string, b: string)
    ensures Split(a + ";" + b) == Split(a) + Split(b) <==> EndState(a).Normal?
  {
    if EndState(a).Normal? {
      SplitConcat(a, b);
    } else {
      SplitSwallowed(a, b);
      var n := |Statements(Lex(START, a).closed)|;
      assert (Split(a) + Split(b))[n] == Split(a)[n];
    }
  }

  // ----- Every output statement splits to itself -----

  /** Reading from a buffer with extra blanks in front changes no decision. */
  lemma {:induction false} KeywordAfterBlank(z: string, buf: string, kw: string)
    requires !HasInk(z) && kw != "" && forall i | 0 <= i < |kw| :: IsLetter(kw[i])
    ensures EndsWithKeyword(z + buf, kw) == EndsWithKeyword(buf, kw)
  {
    var all := z + buf;
    if |kw| <= |buf| {
      assert all[|all| - |kw|..] == buf[|buf| - |kw|..];
      if |buf| == |kw| && z != "" {
        assert all[|all| - |kw| - 1] == z[|z| - 1];
      }
    } else if |kw| <= |all| {
      var j := |all| - |kw|;
      assert all[j..][0] == z[j];
      assert IsSpace(z[j]) && IsLetter(kw[0]);
    }
  }

  lemma {:induction false} TagAfterBlank(z: string, buf: string, tag: string)
    requires |tag| <= |buf|
    ensures EndsWith(z + buf, tag) == EndsWith(buf, tag)
  {
    assert (z + buf)[|z + buf| - |tag|..] == buf[|buf| - |tag|..];
  }

  lemma {:induction false} Assoc(z: string, s: string, t: string)
    ensures (z + s) + t == z + (s + t)
  {
  }

  lemma {:induction false} StepAfterBlank(z: string, l: Lexer, text: string)
    requires !HasInk(z) && text != "" && Consistent(l)
    ensures var m, n := Step(l, text), Step(l.(stmt := z + l.stmt), text);
            m.used == n.used && m.cut == n.cut &&
            n.next == if m.cut then m.next else m.next.(stmt := z + m.next.stmt)
  {
    var add := l.stmt + [text[0]];
    Assoc(z, l.stmt, [text[0]]);
    match l.mode
    case LineCmt =>
    case BlockCmt => Assoc(z, l.stmt, text[..if |text| > 1 then 2 else 1]);
    case Str => Assoc(z, l.stmt, text[..if |text| > 1 then 2 else 1]);
    case Dollar => TagAfterBlank(z, add, l.tag);
    case BeginBlock =>
      KeywordAfterBlank(z, add, "BEGIN");
      KeywordAfterBlank(z, add, "END");
    case Normal =>
      KeywordAfterBlank(z, add, "BEGIN");
      Assoc(z, l.stmt, text[..if |text| > 1 then 2 else 1]);
      Assoc(z, l.stmt, text[..TagLength(text)]);
  }

  lemma {:induction false} LexAfterBlank(z: string, l: Lexer, text: string)
    requires !HasInk(z) && Consistent(l)
    ensures (Lex(l.(stmt := z + l.stmt), text).closed == []) == (Lex(l, text).closed == [])
    decreases |text|
  {
    if text != "" {
      StepAfterBlank(z, l, text);
      StepConsistent(l, text);
      var m := Step(l, text);
      if !m.cut {
        LexAfterBlank(z, m.next, text[m.used..]);
      }
    }
  }

  lemma {:induction false} LexBlank(z: string, s: string, y: string)
    requires !HasInk(s)
    ensures Lex(START.(stmt := z), s + y) == Lex(START.(stmt := z + s), y)
    decreases |s|
  {
    if s == "" {
      assert s + y == y && z + s == z;
    } else {
      assert IsSpace(s[0]);
      forall i | 0 <= i < |s[1..]| ensures IsSpace(s[1..][i]) {
        assert s[1..][i] == s[i + 1];
      }
      assert (s + y)[0] == s[0] && (s + y)[1..] == s[1..] + y;
      assert Step(START.(stmt := z), s + y) == Move(START.(stmt := z + [s[0]]), 1, false);
      LexBlank(z + [s[0]], s[1..], y);
      assert (z + [s[0]]) + s[1..] == z + s;
    }
  }

  /** Text that contains no split point still contains none when trimmed. */
  lemma {:induction false} TrimmedStaysWhole(x: string)
    requires Lex(START, x).closed == []
    ensures Lex(START, Trim(x)).closed == []
  {
    var lead, trail := TrimFacts(x);
    var y := Trim(x);
    if trail != "" {
      assert IsSpace(trail[0]);
      assert x == (lead + y) + trail;
      LexPrefix(START, lead + y, trail);
    } else {
      assert x == lead + y;
    }
    assert START.(stmt := "") == START;
    LexBlank("", lead, y);
    assert "" + lead == lead + "";
    LexAfterBlank(lead, START, y);
  }

  lemma {:induction false} WholeStmt(y: string)
    requires Lex(START, y).closed == []
    ensures Lex(START, y).last.stmt == y && Lex(START, y).Pieces() == [y]
  {
    LexConserves(START, y);
    assert Lex(START, y).Pieces() == [Lex(START, y).last.stmt];
    assert "" + y == y;
  }

  lemma {:induction false} WholeSplitsToItself(x: string)
    requires Lex(START, x).closed == [] && HasInk(x)
    ensures Split(Trim(x)) == [Trim(x)]
  {
    TrimmedStaysWhole(x);
    var y := Trim(x);
    var _, _ := TrimFacts(x);
    WholeStmt(y);
    assert Statements([y]) == [y];
  }

  lemma {:induction false} JoinFirstLength(pieces: seq<string>)
    requires |pieces| > 1
    ensures |pieces[0]| < |Join(pieces)|
  {
  }

  lemma {:induction false} FirstCutText(s: string) returns (p: string, rest: string)
    requires Lex(START, s).closed != []
    ensures s == p + (";" + rest) && p == Lex(START, s).closed[0]
  {
    var pieces := Lex(START, s).Pieces();
    LexConserves(START, s);
    p, rest := pieces[0], Join(pieces[1..]);
    assert pieces == [p] + pieces[1..];
    JoinCons(p, pieces[1..]);
    assert "" + s == s;
    Assoc(p, ";", rest);
  }

  /** Cutting at the first closed piece: before it there is no split point, and it ends in the normal state. */
  lemma {:induction false} FirstCutAlone(p: string, rest: string)
    requires Lex(START, p + (";" + rest)).closed != [] && Lex(START, p + (";" + rest)).closed[0] == p
    ensures Lex(START, p) == Lexed([], START.(stmt := p))
  {
    var a := Lex(START, p);
    LexPrefix(START, p, ";" + rest);
    LexConserves(START, p);
    LexConsistent(START, p);
    if a.closed != [] {
      JoinFirstLength(a.Pieces());
      assert false;
    }
    WholeStmt(p);
    if !a.last.mode.Normal? {
      FirstPieceInside(a.last, rest);
      assert false;
    }
  }

  /** The first closed piece, taken alone, has no split point and ends in the normal state. */
  lemma {:induction false} FirstCut(s: string) returns (p: string, rest: string)
    requires Lex(START, s).closed != []
    ensures |rest| < |s| && p == Lex(START, s).closed[0]
    ensures Lex(START, p) == Lexed([], START.(stmt := p))
    ensures Lex(START, s) == Lexed([p] + Lex(START, rest).closed, Lex(START, rest).last)
  {
    p, rest := FirstCutText(s);
    FirstCutAlone(p, rest);
    LexPrefix(START, p, ";" + rest);
    LexSemicolon(START.(stmt := p), rest);
    assert [] + ([p] + Lex(START, rest).closed) == [p] + Lex(START, rest).closed;
  }

  lemma {:induction false} StatementsOne(p: string)
    ensures Statements([p]) == if Trim(p) == "" then [] else [Trim(p)]
  {
    assert [p][1..] == [];
    assert [Trim(p)] + [] == [Trim(p)];
  }

  lemma {:induction false} SplitFirst(body: string, p: string, rest: string)
    requires Lex(START, body) == Lexed([p] + Lex(START, rest).closed, Lex(START, rest).last)
    ensures Split(body) == Statements([p]) + Split(rest)
  {
    var r := Lex(START, rest);
    assert ([p] + r.closed) + [r.last.stmt] == [p] + r.Pieces();
    StatementsAppend([p], r.Pieces());
  }

  lemma {:induction false} WholeOutput(body: string, k: nat)
    requires Lex(START, body).closed == [] && k < |Split(body)|
    ensures Split(Split(body)[k]) == [Split(body)[k]]
  {
    var _, _ := TrimFacts(body);
    WholeStmt(body);
    StatementsOne(body);
    WholeSplitsToItself(body);
  }

  /** Re-splitting any statement that Split returns gives just that statement. */
  lemma {:induction false} OutputsAreWhole(body: string, k: nat)
    requires k < |Split(body)|
    ensures Split(Split(body)[k]) == [Split(body)[k]]
    decreases |body|
  {
    if Lex(START, body).closed == [] {
      WholeOutput(body, k);
    } else {
      var p, rest := FirstCut(body);
      var _, _ := TrimFacts(p);
      SplitFirst(body, p, rest);
      StatementsOne(p);
      if k < |Statements([p])| {
        WholeSplitsToItself(p);
      } else {
        OutputsAreWhole(rest, k - |Statements([p])|);
      }
    }
  }

  // ----- Printing and parsing -----

  /** Statements as the splitter returns them. */
  ghost predicate Whole(ss: seq<string>) {
    forall i | 0 <= i < |ss| :: Split(ss[i]) == [ss[i]]
  }

  ghost predicate AllButLastEndNormal(ss: seq<string>) {
    forall i | 0 <= i < |ss| - 1 :: EndState(ss[i]).Normal?
  }

  lemma {:induction false} RoundTripTail(ss: seq<string>)
    requires ss != [] && EndState(ss[0]).Normal?
    ensures AllButLastEndNormal(ss[1..]) <==> AllButLastEndNormal(ss)
  {
    if AllButLastEndNormal(ss[1..]) {
      forall i | 0 <= i < |ss| - 1 ensures EndState(ss[i]).Normal? {
        if i > 0 {
          assert ss[i] == ss[1..][i - 1];
        }
      }
    }
    if AllButLastEndNormal(ss) {
      forall i | 0 <= i < |ss[1..]| - 1 ensures EndState(ss[1..][i]).Normal? {
        assert ss[1..][i] == ss[i + 1];
      }
    }
  }

  lemma {:induction false} SwallowedHead(s: string, b: string)
    requires Split(s) == [s] && !EndState(s).Normal?
    ensures Split(s + ";" + b) != [] && Split(s + ";" + b)[0] != s
  {
    SplitSwallowed(s, b);
    assert |Statements(Lex(START, s).closed)| == 0;
    assert Split(s)[0] == Trim(Lex(START, s).last.stmt);
  }

  lemma {:induction false} KeptHead(s: string, rest: seq<string>)
    requires Split(s) == [s] && EndState(s).Normal?
    ensures Split(s + ";" + Join(rest)) == [s] + rest <==> Split(Join(rest)) == rest
  {
    SplitConcat(s, Join(rest));
    var r := Split(Join(rest));
    assert ([s] + r)[1..] == r && ([s] + rest)[1..] == rest;
  }

  /** Joining whole statements and splitting again returns them iff each, bar the last, ends in the normal state. */
  lemma {:induction false} RoundTripIff(ss: seq<string>)
    requires Whole(ss)
    ensures Split(Join(ss)) == ss <==> AllButLastEndNormal(ss)
  {
    if ss == [] {
      assert Lex(START, "").Pieces() == [""];
    } else if |ss| == 1 {
      assert Split(ss[0]) == [ss[0]];
      assert ss == [ss[0]];
    } else {
      var s, rest := ss[0], ss[1..];
      assert Split(s) == [s] && ss == [s] + rest;
      forall i | 0 <= i < |rest| ensures Split(rest[i]) == [rest[i]] {
        assert rest[i] == ss[i + 1];
      }
      RoundTripIff(rest);
      if EndState(s).Normal? {
        KeptHead(s, rest);
        RoundTripTail(ss);
      } else {
        SwallowedHead(s, Join(rest));
      }
    }
  }

  lemma {:induction false} OneStep(l: Lexer, text: string, m: Move)
    requires text != "" && Step(l, text) == m && !m.cut
    ensures Lex(l, text) == Lex(m.next, text[m.used..])
  {
  }

  lemma {:induction false} CommentAlone()
    ensures Lex(START, "--") == Lexed([], Lexer(LineCmt, 0, "", "--"))
    ensures Lex(START, "--\n") == Lexed([], START.(stmt := "--\n"))
  {
    var open := Lexer(LineCmt, 0, "", "-");
    OneStep(START, "--", Move(open, 1, false));
    OneStep(START, "--\n", Move(open, 1, false));
    assert "--"[1..] == "-" && "--\n"[1..] == "-\n";
    var more := Lexer(LineCmt, 0, "", "--");
    OneStep(open, "-", Move(more, 1, false));
    OneStep(open, "-\n", Move(more, 1, false));
    assert "-"[1..] == "" && "-\n"[1..] == "\n";
    OneStep(more, "\n", Move(START.(stmt := "--\n"), 1, false));
    assert "\n"[1..] == "";
  }

  lemma {:induction false} LetterAlone()
    ensures Lex(START, "y") == Lexed([], START.(stmt := "y"))
  {
    OneStep(START, "y", Move(START.(stmt := "y"), 1, false));
    assert "y"[1..] == "";
  }

  lemma {:induction false} TrimCommentLine()
    ensures Trim("--\n") == "--" && Trim("--") == "--" && Trim("y") == "y"
  {
    assert "--\n"[..2] == "--";
    assert TrimRight("--\n") == TrimRight("--");
  }

  lemma {:induction false} SplitCommentLine()
    ensures Split("--\n;y") == ["--", "y"]
  {
    CommentAlone();
    LetterAlone();
    TrimCommentLine();
    StatementsOne("--\n");
    StatementsOne("y");
    assert "--\n;y" == "--\n" + ";" + "y";
    SplitConcat("--\n", "y");
  }

  /** A trimmed line comment is whole but swallows the ";" after it, so printing a split body may not parse back. */
  lemma {:induction false} RoundTripFails()
    ensures Split("--\n;y") == ["--", "y"] && Whole(["--", "y"]) && Split(Join(["--", "y"])) != ["--", "y"]
  {
    var ss := ["--", "y"];
    CommentAlone();
    LetterAlone();
    TrimCommentLine();
    StatementsOne("--");
    StatementsOne("y");
    assert Split("--") == ["--"] && Split("y") == ["y"];
    SplitCommentLine();
    RoundTripIff(ss);
    assert !EndState(ss[0]).Normal?;
  }

  // ----- Dollar quotes -----

  /** Shape of the tags TagLength recognises: a "$" at both ends and word characters between. */
  predicate IsTag(tag: string) {
    && |tag| >= 2 && tag[0] == '$' && tag[|tag| - 1] == '$'
    && forall i | 0 < i < |tag| - 1 :: IsWord(tag[i])
  }

  lemma {:induction false} NameEndShape(text: string, k: nat)
    requires NameEnd(text, k) > 0
    ensures text[NameEnd(text, k) - 1] == '$'
    ensures forall i | k <= i < NameEnd(text, k) - 1 :: IsWord(text[i])
    decreases |text| - k
  {
    if text[k] != '$' {
      NameEndShape(text, k + 1);
    }
  }

  lemma {:induction false} TagShape(text: string)
    requires TagLength(text) > 0
    ensures IsTag(text[..TagLength(text)])
  {
    if text[1] != '$' {
      NameEndShape(text, 2);
    }
  }

  /** The machine leaves the quote after n characters of the text that follows the opening tag. */
  predicate CodeCloses(pre: string, tag: string, text: string, n: nat) {
    0 < n <= |text| && text[n - 1] == '$' && EndsWith(pre + tag + text[..n], tag)
  }

  /** A closing tag of its own ends after n characters. */
  predicate TagEndsAt(tag: string, text: string, n: nat) {
    n <= |text| && EndsWith(text[..n], tag)
  }

  /** The machine also accepts a close whose first "$" is the last "$" of the opening tag. */
  lemma {:induction false} CodeClosesIff(pre: string, tag: string, text: string, n: nat)
    requires IsTag(tag)
    ensures CodeCloses(pre, tag, text, n) <==> TagEndsAt(tag, text, n) || (n == |tag| - 1 && tag[1..] <= text)
  {
    if 0 < n <= |text| {
      var t := text[..n];
      if n >= |tag| {
        EndsWithTail(pre + tag, t, tag);
        if EndsWith(t, tag) {
          TagEndsInDollar(t, tag);
        }
      } else {
        EndsWithShort(pre, tag, t);
        ShortOverlap(tag, t, n);
        TailIsPrefix(text, tag, n);
      }
    }
  }

  lemma {:induction false} EndsWithTail(x: string, y: string, tag: string)
    requires |y| >= |tag|
    ensures EndsWith(x + y, tag) == EndsWith(y, tag)
  {
    assert (x + y)[|x + y| - |tag|..] == y[|y| - |tag|..];
  }

  lemma {:induction false} TagEndsInDollar(t: string, tag: string)
    requires IsTag(tag) && EndsWith(t, tag)
    ensures t[|t| - 1] == '$'
  {
    assert t[|t| - |tag|..][|tag| - 1] == t[|t| - 1];
  }

  lemma {:induction false} EndsWithShort(pre: string, tag: string, t: string)
    requires 0 < |t| < |tag|
    ensures EndsWith(pre + tag + t, tag) <==> tag[|t|..] + t == tag
  {
    var buf := pre + tag + t;
    assert buf[|buf| - |tag|..] == tag[|t|..] + t;
  }

  lemma {:induction false} TailIsPrefix(text: string, tag: string, n: nat)
    requires IsTag(tag) && 0 < n < |tag| && n <= |text|
    ensures n == |tag| - 1 ==> (text[..n] == tag[1..] <==> tag[1..] <= text)
    ensures text[..n] == tag[1..] ==> text[n - 1] == '$'
  {
    assert text[..n] == tag[1..] ==> text[..n][n - 1] == tag[|tag| - 1];
  }

  lemma {:induction false} ShortOverlap(tag: string, t: string, n: nat)
    requires IsTag(tag) && 0 < n < |tag| && |t| == n
    ensures tag[n..] + t == tag <==> n == |tag| - 1 && t == tag[1..]
  {
    var both := tag[n..] + t;
    if both == tag {
      assert both[0] == tag[n];
      assert both[1..] == tag[1..];
    }
    if n == |tag| - 1 && t == tag[1..] {
      assert tag[n..] == [tag[0]];
      assert tag == [tag[0]] + tag[1..];
    }
  }

  /** While no close is found the machine just collects; at the first one it returns to the normal state. */
  lemma {:induction false} DollarRun(pre: string, tag: string, text: string, k: nat, n: nat)
    requires IsTag(tag) && k < n <= |text| && CodeCloses(pre, tag, text, n)
    requires forall m | 0 < m < n :: !CodeCloses(pre, tag, text, m)
    ensures Lex(Lexer(Dollar, 0, tag, pre + tag + text[..k]), text[k..]) ==
            Lex(Lexer(Normal, 0, "", pre + tag + text[..n]), text[n..])
    decreases n - k
  {
    var l, rest := Lexer(Dollar, 0, tag, pre + tag + text[..k]), text[k..];
    assert text[..k + 1] == text[..k] + [text[k]];
    assert l.stmt + [rest[0]] == pre + tag + text[..k + 1];
    assert rest[1..] == text[k + 1..];
    if k + 1 < n {
      assert !CodeCloses(pre, tag, text, k + 1);
      DollarRun(pre, tag, text, k + 1, n);
    }
  }

  /** Without a close the machine collects the whole text and the quote stays open. */
  lemma {:induction false} DollarStaysOpen(pre: string, tag: string, text: string, k: nat)
    requires IsTag(tag) && k <= |text| && forall m: nat :: !CodeCloses(pre, tag, text, m)
    ensures Lex(Lexer(Dollar, 0, tag, pre + tag + text[..k]), text[k..]) == Lexed([], Lexer(Dollar, 0, tag, pre + tag + text))
    decreases |text| - k
  {
    if k == |text| {
      assert text[..k] == text;
    } else {
      var l, rest := Lexer(Dollar, 0, tag, pre + tag + text[..k]), text[k..];
      assert text[..k + 1] == text[..k] + [text[k]];
      assert l.stmt + [rest[0]] == pre + tag + text[..k + 1];
      assert rest[1..] == text[k + 1..];
      assert !CodeCloses(pre, tag, text, k + 1);
      DollarStaysOpen(pre, tag, text, k + 1);
    }
  }

  /** n is the first position with the property. */
  predicate FirstTagEnd(tag: string, text: string, n: nat) {
    TagEndsAt(tag, text, n) && forall m | 0 <= m < n :: !TagEndsAt(tag, text, m)
  }

  predicate FirstCodeClose(pre: string, tag: string, text: string, n: nat) {
    CodeCloses(pre, tag, text, n) && forall m | 0 < m < n :: !CodeCloses(pre, tag, text, m)
  }

  /** Quotes close where their first closing tag ends, or stay open without one, iff the text does not start with tag[1..]. */
  lemma {:induction false} DollarCloseExactIff(pre: string, tag: string, text: string)
    requires IsTag(tag)
    ensures (forall n: nat :: FirstCodeClose(pre, tag, text, n) <==> FirstTagEnd(tag, text, n)) <==> !(tag[1..] <= text)
    ensures tag[1..] <= text ==> FirstCodeClose(pre, tag, text, |tag| - 1)
  {
    forall n: nat ensures CodeCloses(pre, tag, text, n) <==> TagEndsAt(tag, text, n) || (n == |tag| - 1 && tag[1..] <= text) {
      CodeClosesIff(pre, tag, text, n);
    }
    if tag[1..] <= text {
      assert forall m: nat | m < |tag| :: !TagEndsAt(tag, text, m);
      assert FirstCodeClose(pre, tag, text, |tag| - 1) && !FirstTagEnd(tag, text, |tag| - 1);
    }
  }

  lemma {:induction false} EmptyTagOpens(text: string)
    ensures Lex(START, "$$" + text) == Lex(Lexer(Dollar, 0, "$$", "$$"), text)
  {
    var body := "$$" + text;
    assert TagLength(body) == 2 && body[..2] == "$$" && body[2..] == text;
    assert "" + "$$" == "$$";
    OneStep(START, body, Move(Lexer(Dollar, 0, "$$", "$$"), 2, false));
  }

  lemma {:induction false} ThirdDollarCloses(text: string)
    ensures Lex(Lexer(Dollar, 0, "$$", "$$"), "$" + text) == Lex(START.(stmt := "$$$"), text)
  {
    var rest := "$" + text;
    assert "$$$"[1..] == "$$" && "$$" + ['$'] == "$$$";
    assert rest[0] == '$' && rest[1..] == text;
    OneStep(Lexer(Dollar, 0, "$$", "$$"), rest, Move(START.(stmt := "$$$"), 1, false));
  }

  /** A third "$" closes the quote that "$$" has just opened, so the ";" after it splits. */
  lemma {:induction false} OverlappingClose(text: string)
    ensures Lex(START, "$$$;" + text).closed == ["$$$"] + Lex(START, text).closed
    ensures IsTag("$$") && "$$"[1..] <= "$;" + text
  {
    Dollars(text);
    EmptyTagOpens("$;" + text);
    ThirdDollarCloses(";" + text);
    LexSemicolon(START.(stmt := "$$$"), text);
  }

  lemma {:induction false} Dollars(text: string)
    ensures "$$$;" + text == "$$" + ("$;" + text)
    ensures "$;" + text == "$" + (";" + text)
    ensures IsTag("$$") && "$$"[1..] <= "$;" + text
  {
  }
}
