/** The documented BEGIN/END detector, and when the splitter follows it. */
module KeywordRule {
  import opened SqlSplitter
  import opened SplitTheorems

  // ----- The documented machine -----

  /** As documented: white space or nothing before the keyword, no word character after it. */
  predicate DocKeyword(buf: string, kw: string, after: string) {
    && |kw| <= |buf|
    && (|buf| > |kw| ==> IsSpace(buf[|buf| - |kw| - 1]))
    && SameIgnoringCase(buf[|buf| - |kw|..], kw)
    && (after != "" ==> !IsWord(after[0]))
  }

  /** One turn with the documented detector. */
  function DocStep(l: Lexer, text: string): (m: Move)
    requires text != ""
    ensures 0 < m.used <= |text|
  {
    var c, after := text[0], text[1..];
    var add := l.(stmt := l.stmt + [c]);
    if l.mode.BeginBlock? then
      if DocKeyword(add.stmt, "BEGIN", after) then Move(add.(depth := l.depth + 1), 1, false)
      else if DocKeyword(add.stmt, "END", after) then
        Move(add.(depth := l.depth - 1, mode := if l.depth == 1 then Normal else BeginBlock), 1, false)
      else Move(add, 1, false)
    else if l.mode.Normal? && IsWord(c) then
      if DocKeyword(add.stmt, "BEGIN", after) then Move(add.(depth := l.depth + 1, mode := BeginBlock), 1, false)
      else Move(add, 1, false)
    else Step(l, text)
  }

  function DocLex(l: Lexer, text: string): Lexed
    decreases |text|
  {
    if text == "" then Lexed([], l)
    else
      var m := DocStep(l, text);
      var r := DocLex(m.next, text[m.used..]);
      if m.cut then Lexed([l.stmt] + r.closed, r.last) else r
  }

  // ----- One turn -----

  /** The splitter sees the keyword, but it follows "(" or runs on into a word. */
  predicate Misreads(buf: string, kw: string, after: string) {
    && EndsWithKeyword(buf, kw)
    && ((|buf| > |kw| && buf[|buf| - |kw| - 1] == '(') || (after != "" && IsWord(after[0])))
  }

  predicate Misread(l: Lexer, text: string)
    requires text != ""
  {
    var buf, after := l.stmt + [text[0]], text[1..];
    match l.mode
    case Normal => Misreads(buf, "BEGIN", after)
    case BeginBlock => Misreads(buf, "BEGIN", after) || Misreads(buf, "END", after)
    case _ => false
  }

  lemma {:induction false} DetectorIff(buf: string, kw: string, after: string)
    ensures EndsWithKeyword(buf, kw) <==> DocKeyword(buf, kw, after) || Misreads(buf, kw, after)
    ensures !(DocKeyword(buf, kw, after) && Misreads(buf, kw, after))
  {
  }

  lemma {:induction false} LastLetter(buf: string, kw: string)
    requires kw != "" && EndsWithKeyword(buf, kw)
    ensures Lower(buf[|buf| - 1]) == Lower(kw[|kw| - 1])
  {
    assert buf[|buf| - |kw|..][|kw| - 1] == buf[|buf| - 1];
  }

  lemma {:induction false} WordBelow(c: char, kw: string)
    requires (kw == "BEGIN" || kw == "END") && Lower(c) == Lower(kw[|kw| - 1])
    ensures IsWord(c) && (Lower(c) == 'n' <==> kw == "BEGIN")
  {
  }

  lemma {:induction false} NotBoth(buf: string, after: string)
    requires buf != ""
    ensures !(EndsWithKeyword(buf, "BEGIN") && EndsWithKeyword(buf, "END"))
    ensures EndsWithKeyword(buf, "BEGIN") ==> IsWord(buf[|buf| - 1])
  {
    if EndsWithKeyword(buf, "BEGIN") {
      LastLetter(buf, "BEGIN");
      WordBelow(buf[|buf| - 1], "BEGIN");
      if EndsWithKeyword(buf, "END") {
        LastLetter(buf, "END");
        WordBelow(buf[|buf| - 1], "END");
      }
    }
  }

  lemma {:induction false} BlockTurnIff(l: Lexer, text: string)
    requires text != "" && l.mode.BeginBlock?
    ensures Step(l, text) == DocStep(l, text) <==> !Misread(l, text)
  {
    var buf, after := l.stmt + [text[0]], text[1..];
    DetectorIff(buf, "BEGIN", after);
    DetectorIff(buf, "END", after);
    NotBoth(buf, after);
  }

  lemma {:induction false} NormalTurnIff(l: Lexer, text: string)
    requires text != "" && l.mode.Normal?
    ensures Step(l, text) == DocStep(l, text) <==> !Misread(l, text)
  {
    var buf, after := l.stmt + [text[0]], text[1..];
    DetectorIff(buf, "BEGIN", after);
    NotBoth(buf, after);
  }

  /** A turn follows the documentation iff it does not misread a keyword. */
  lemma {:induction false} TurnIff(l: Lexer, text: string)
    requires text != ""
    ensures Step(l, text) == DocStep(l, text) <==> !Misread(l, text)
  {
    match l.mode
    case Normal => NormalTurnIff(l, text);
    case BeginBlock => BlockTurnIff(l, text);
    case _ =>
  }

  // ----- Whole bodies -----

  /** The keyword stands at i where a statement buffer can see it as free-standing. */
  predicate KeywordAt(body: string, i: nat, kw: string) {
    && i + |kw| <= |body| && SameIgnoringCase(body[i..i + |kw|], kw)
    && (i == 0 || IsSpace(body[i - 1]) || body[i - 1] == '(' || body[i - 1] == ';')
  }

  predicate CleanFor(body: string, kw: string) {
    forall i: nat | i <= |body| && KeywordAt(body, i, kw) ::
      (i == 0 || body[i - 1] != '(') && (i + |kw| == |body| || !IsWord(body[i + |kw|]))
  }

  /** No BEGIN or END at the start, or after a space, "(" or ";", follows the "(" or runs on into a word. */
  predicate Clean(body: string) {
    CleanFor(body, "BEGIN") && CleanFor(body, "END")
  }

  /** stmt is what body[..n] holds since its start or since one of its ";". */
  predicate Buffers(stmt: string, body: string, n: nat) {
    && |stmt| <= n <= |body| && stmt == body[n - |stmt|..n]
    && (|stmt| == n || body[n - |stmt| - 1] == ';')
  }

  lemma {:induction false} BufferSlice(stmt: string, body: string, n: nat, k: nat)
    requires n < |body| && Buffers(stmt, body, n) && k <= |stmt| + 1
    ensures var buf := stmt + [body[n]]; buf[|buf| - k..] == body[n + 1 - k..n + 1]
    ensures k < |stmt| + 1 ==> (stmt + [body[n]])[|stmt| - k] == body[n - k]
  {
    var buf := stmt + [body[n]];
    assert buf == body[n - |stmt|..n + 1];
  }

  lemma {:induction false} SeenAt(stmt: string, body: string, n: nat, kw: string)
    requires n < |body| && Buffers(stmt, body, n) && EndsWithKeyword(stmt + [body[n]], kw)
    ensures n + 1 >= |kw| && KeywordAt(body, n + 1 - |kw|, kw)
  {
    BufferSlice(stmt, body, n, |kw|);
  }

  lemma {:induction false} CleanAt(body: string, i: nat, kw: string)
    requires CleanFor(body, kw) && i <= |body| && KeywordAt(body, i, kw)
    ensures (i == 0 || body[i - 1] != '(') && (i + |kw| == |body| || !IsWord(body[i + |kw|]))
  {
  }

  lemma {:induction false} CleanReads(stmt: string, body: string, n: nat, kw: string)
    requires n < |body| && Buffers(stmt, body, n) && CleanFor(body, kw)
    ensures !Misreads(stmt + [body[n]], kw, body[n + 1..])
  {
    if EndsWithKeyword(stmt + [body[n]], kw) {
      SeenAt(stmt, body, n, kw);
      CleanAt(body, n + 1 - |kw|, kw);
      BufferSlice(stmt, body, n, |kw|);
    }
  }

  lemma {:induction false} CleanTurn(l: Lexer, body: string, n: nat)
    requires n < |body| && Buffers(l.stmt, body, n) && Clean(body)
    ensures !Misread(l, body[n..])
  {
    CleanReads(l.stmt, body, n, "BEGIN");
    CleanReads(l.stmt, body, n, "END");
    assert body[n..][1..] == body[n + 1..];
  }

  lemma {:induction false} BuffersStep(l: Lexer, body: string, n: nat)
    requires n < |body| && Buffers(l.stmt, body, n)
    ensures var m := Step(l, body[n..]); Buffers(m.next.stmt, body, n + m.used)
  {
    var m := Step(l, body[n..]);
    StepConserves(l, body[n..]);
    assert body[n..][..m.used] == body[n..n + m.used];
    if !m.cut {
      assert body[n - |l.stmt|..n] + body[n..n + m.used] == body[n - |l.stmt|..n + m.used];
    }
  }

  lemma {:induction false} CleanRun(l: Lexer, body: string, n: nat, text: string)
    requires n <= |body| && Clean(body) && Buffers(l.stmt, body, n) && text == body[n..]
    ensures Lex(l, text) == DocLex(l, text)
    decreases |text|
  {
    if text != "" {
      CleanTurn(l, body, n);
      TurnIff(l, text);
      BuffersStep(l, body, n);
      var m := Step(l, text);
      DropTwice(body, n, m.used);
      CleanRun(m.next, body, n + m.used, text[m.used..]);
      SameTurn(l, text);
    }
  }

  lemma {:induction false} DropTwice(s: string, n: nat, k: nat)
    requires n + k <= |s|
    ensures s[n..][k..] == s[n + k..]
  {
  }

  lemma {:induction false} SameTurn(l: Lexer, text: string)
    requires text != "" && Step(l, text) == DocStep(l, text)
    requires var m := Step(l, text); Lex(m.next, text[m.used..]) == DocLex(m.next, text[m.used..])
    ensures Lex(l, text) == DocLex(l, text)
  {
  }

  /** On every clean body the splitter is the documented one. */
  lemma {:induction false} CleanBodiesFollowTheRule(body: string)
    requires Clean(body)
    ensures Lex(START, body) == DocLex(START, body)
  {
    assert body[0..] == body;
    CleanRun(START, body, 0, body);
  }

  // ----- Whole runs -----

  /** The states the splitter passes through. */
  function States(l: Lexer, text: string): seq<Lexer>
    decreases |text|
  {
    if text == "" then [l] else [l] + States(Step(l, text).next, text[Step(l, text).used..])
  }

  /** The states the documented machine passes through. */
  function DocStates(l: Lexer, text: string): seq<Lexer>
    decreases |text|
  {
    if text == "" then [l] else [l] + DocStates(DocStep(l, text).next, text[DocStep(l, text).used..])
  }

  /** No turn of the splitter's run misreads a keyword. */
  predicate NeverMisreads(l: Lexer, text: string)
    decreases |text|
  {
    text == "" || (!Misread(l, text) && NeverMisreads(Step(l, text).next, text[Step(l, text).used..]))
  }

  lemma {:induction false} StatesHead(l: Lexer, text: string)
    ensures States(l, text) != [] && States(l, text)[0] == l
    ensures DocStates(l, text) != [] && DocStates(l, text)[0] == l
  {
  }

  lemma {:induction false} MisreadTurn(l: Lexer, text: string)
    requires text != "" && Misread(l, text)
    ensures Step(l, text).used == DocStep(l, text).used == 1 && Step(l, text).next != DocStep(l, text).next
  {
    TurnIff(l, text);
    var buf := l.stmt + [text[0]];
    NotBoth(buf, text[1..]);
  }

  lemma {:induction false} SameHeads<T>(x: T, a: seq<T>, b: seq<T>)
    ensures [x] + a == [x] + b <==> a == b
  {
    assert ([x] + a)[1..] == a && ([x] + b)[1..] == b;
  }

  /** The two machines pass through the same states iff no turn of the run misreads a keyword. */
  lemma {:induction false} RunIff(l: Lexer, text: string)
    ensures States(l, text) == DocStates(l, text) <==> NeverMisreads(l, text)
    decreases |text|
  {
    if text != "" {
      var m, d := Step(l, text), DocStep(l, text);
      var rest, docRest := States(m.next, text[m.used..]), DocStates(d.next, text[d.used..]);
      SameHeads(l, rest, docRest);
      if Misread(l, text) {
        MisreadTurn(l, text);
        StatesHead(m.next, text[m.used..]);
        StatesHead(d.next, text[d.used..]);
      } else {
        TurnIff(l, text);
        RunIff(m.next, text[m.used..]);
      }
    }
  }

  /** Clean bodies have no such turn. */
  lemma {:induction false} CleanNeverMisreads(l: Lexer, body: string, n: nat, text: string)
    requires n <= |body| && Clean(body) && Buffers(l.stmt, body, n) && text == body[n..]
    ensures NeverMisreads(l, text)
    decreases |text|
  {
    if text != "" {
      CleanTurn(l, body, n);
      BuffersStep(l, body, n);
      var m := Step(l, text);
      DropTwice(body, n, m.used);
      CleanNeverMisreads(m.next, body, n + m.used, text[m.used..]);
    }
  }

  // ----- Inputs that break the rule -----

  lemma {:induction false} WordHead(s: string, t: string, text: string)
    requires t != ""
    ensures t + text == [t[0]] + (t[1..] + text) && (s + [t[0]]) + t[1..] == s + t && s + t[..1] == s + [t[0]]
    ensures forall n | 0 < n <= |t| - 1 :: (s + [t[0]]) + t[1..][..n] == s + t[..n + 1] && t[1..][n..] == t[n + 1..]
  {
  }

  lemma {:induction false} DocWordTurn(s: string, c: char, text: string)
    requires IsWord(c) && !DocKeyword(s + [c], "BEGIN", text)
    ensures DocLex(START.(stmt := s), [c] + text) == DocLex(START.(stmt := s + [c]), text)
  {
    assert ([c] + text)[1..] == text;
    assert DocStep(START.(stmt := s), [c] + text) == Move(START.(stmt := s + [c]), 1, false);
  }

  /** Word characters that complete no documented BEGIN are just collected. */
  lemma {:induction false} DocPlainWord(s: string, t: string, text: string)
    requires forall i | 0 <= i < |t| :: IsWord(t[i])
    requires forall n | 0 < n <= |t| :: !DocKeyword(s + t[..n], "BEGIN", t[n..] + text)
    ensures DocLex(START.(stmt := s), t + text) == DocLex(START.(stmt := s + t), text)
    decreases |t|
  {
    if t == "" {
      assert t + text == text && s + t == s;
    } else {
      WordHead(s, t, text);
      DocWordTurn(s, t[0], t[1..] + text);
      DocPlainWord(s + [t[0]], t[1..], text);
    }
  }

  lemma {:induction false} WordTurn(s: string, c: char, text: string)
    requires IsWord(c) && !EndsWithKeyword(s + [c], "BEGIN")
    ensures Lex(START.(stmt := s), [c] + text) == Lex(START.(stmt := s + [c]), text)
  {
    assert ([c] + text)[1..] == text;
    OneStep(START.(stmt := s), [c] + text, Move(START.(stmt := s + [c]), 1, false));
  }

  lemma {:induction false} PlainWord(s: string, t: string, text: string)
    requires forall i | 0 <= i < |t| :: IsWord(t[i])
    requires forall n | 0 < n <= |t| :: !EndsWithKeyword(s + t[..n], "BEGIN")
    ensures Lex(START.(stmt := s), t + text) == Lex(START.(stmt := s + t), text)
    decreases |t|
  {
    if t == "" {
      assert t + text == text && s + t == s;
    } else {
      WordHead(s, t, text);
      WordTurn(s, t[0], t[1..] + text);
      PlainWord(s + [t[0]], t[1..], text);
    }
  }

  lemma {:induction false} BeginIsKeyword()
    ensures "begi" + ['n'] == "begin" && EndsWithKeyword("begin", "BEGIN")
  {
    assert "begin"[0..] == "begin";
  }

  /** A word character that completes BEGIN opens a block, whatever follows. */
  lemma {:induction false} WordOpensBlock(s: string, c: char, text: string)
    requires IsWord(c) && EndsWithKeyword(s + [c], "BEGIN")
    ensures Lex(START.(stmt := s), [c] + text) == Lex(Lexer(BeginBlock, 1, "", s + [c]), text)
  {
    var rest := [c] + text;
    assert rest[0] == c && rest[1..] == text;
    OneStep(START.(stmt := s), rest, Move(Lexer(BeginBlock, 1, "", s + [c]), 1, false));
  }

  /** "begin" opens a block for every continuation. */
  lemma {:induction false} BeginIgnoresWhatFollows(text: string)
    ensures Lex(START, "begin" + text) == Lex(Lexer(BeginBlock, 1, "", "begin"), text)
  {
    var rest := "n" + text;
    assert "begin" + text == "begi" + rest && "" + "begi" == "begi" && "n" == ['n'];
    NeverKeyword("", "begi", "BEGIN");
    PlainWord("", "begi", rest);
    BeginIsKeyword();
    WordOpensBlock("begi", 'n', text);
  }

  /** A block lasts, and hides every ";", as long as no END is seen. */
  lemma {:induction false} BlockKeeps(l: Lexer, text: string)
    requires l.mode.BeginBlock?
    requires forall n | 0 < n <= |text| :: !EndsWithKeyword(l.stmt + text[..n], "END")
    ensures Lex(l, text).closed == [] && Lex(l, text).last.mode.BeginBlock?
    decreases |text|
  {
    if text != "" {
      var add := l.stmt + [text[0]];
      assert text[..1] == [text[0]];
      forall n | 0 < n <= |text| - 1 ensures !EndsWithKeyword(add + text[1..][..n], "END") {
        assert add + text[1..][..n] == l.stmt + text[..n + 1];
      }
      BlockKeeps(Step(l, text).next, text[1..]);
    }
  }

  /** Characters other than the keyword's last letter never complete it. */
  lemma {:induction false} NeverKeyword(s: string, t: string, kw: string)
    requires kw != "" && forall i | 0 <= i < |t| :: Lower(t[i]) != Lower(kw[|kw| - 1])
    ensures forall n | 0 < n <= |t| :: !EndsWithKeyword(s + t[..n], kw)
  {
    forall n | 0 < n <= |t| ensures !EndsWithKeyword(s + t[..n], kw) {
      LastOf(s, t, n);
      OtherLastLetter(s + t[..n], kw);
    }
  }

  lemma {:induction false} LastOf(s: string, t: string, n: nat)
    requires 0 < n <= |t|
    ensures (s + t[..n])[|s| + n - 1] == t[n - 1]
  {
  }

  /** An identifier that starts with "begin" hides every ";" after it up to the first END. */
  lemma {:induction false} IdentifierOpensBlock(text: string)
    requires forall n | 0 < n <= |text| :: !EndsWithKeyword("begin" + text[..n], "END")
    ensures Lex(START, "begin" + text).closed == []
  {
    BeginIgnoresWhatFollows(text);
    BlockKeeps(Lexer(BeginBlock, 1, "", "begin"), text);
  }

  lemma {:induction false} OtherLastLetter(buf: string, kw: string)
    requires kw != "" && (buf != "" ==> Lower(buf[|buf| - 1]) != Lower(kw[|kw| - 1]))
    ensures !EndsWithKeyword(buf, kw)
  {
    if EndsWithKeyword(buf, kw) {
      LastLetter(buf, kw);
    }
  }

  /** Inside a block an identifier that starts with "end" closes it, whatever follows. */
  lemma {:induction false} EndIgnoresWhatFollows(text: string)
    ensures Lex(Lexer(BeginBlock, 1, "", "begin "), "end" + text) == Lex(Lexer(Normal, 0, "", "begin end"), text)
  {
    EndIsKeyword();
    var e, n := "begin e", "begin en";
    BlockPlain("begin ", 'e', "nd" + text);
    BlockPlain(e, 'n', "d" + text);
    BlockCloses(n, 'd', text);
    EndLetters(text);
  }

  lemma {:induction false} EndLetters(text: string)
    ensures "end" + text == ['e'] + ("nd" + text) && "nd" + text == ['n'] + ("d" + text) && "d" + text == ['d'] + text
  {
  }

  lemma {:induction false} EndIsKeyword()
    ensures "begin " + ['e'] == "begin e" && "begin e" + ['n'] == "begin en" && "begin en" + ['d'] == "begin end"
    ensures EndsWithKeyword("begin end", "END") && !EndsWithKeyword("begin end", "BEGIN")
    ensures !EndsWithKeyword("begin e", "BEGIN") && !EndsWithKeyword("begin e", "END")
    ensures !EndsWithKeyword("begin en", "BEGIN") && !EndsWithKeyword("begin en", "END")
  {
    assert "begin end"[6..] == "end";
    OtherLastLetter("begin end", "BEGIN");
    OtherLastLetter("begin e", "BEGIN");
    OtherLastLetter("begin e", "END");
    OtherLastLetter("begin en", "END");
    assert "begin en"[3..][0] == 'i';
  }

  lemma {:induction false} BlockPlain(s: string, c: char, text: string)
    requires !EndsWithKeyword(s + [c], "BEGIN") && !EndsWithKeyword(s + [c], "END")
    ensures Lex(Lexer(BeginBlock, 1, "", s), [c] + text) == Lex(Lexer(BeginBlock, 1, "", s + [c]), text)
  {
    assert ([c] + text)[1..] == text;
    OneStep(Lexer(BeginBlock, 1, "", s), [c] + text, Move(Lexer(BeginBlock, 1, "", s + [c]), 1, false));
  }

  lemma {:induction false} BlockCloses(s: string, c: char, text: string)
    requires EndsWithKeyword(s + [c], "END") && !EndsWithKeyword(s + [c], "BEGIN")
    ensures Lex(Lexer(BeginBlock, 1, "", s), [c] + text) == Lex(Lexer(Normal, 0, "", s + [c]), text)
  {
    assert ([c] + text)[1..] == text;
    OneStep(Lexer(BeginBlock, 1, "", s), [c] + text, Move(Lexer(Normal, 0, "", s + [c]), 1, false));
  }

  lemma {:induction false} NeverDocKeyword(s: string, t: string, kw: string, rest: string)
    requires kw != "" && forall i | 0 <= i < |t| :: Lower(t[i]) != Lower(kw[|kw| - 1])
    ensures forall n | 0 < n <= |t| :: !DocKeyword(s + t[..n], kw, t[n..] + rest)
  {
    NeverKeyword(s, t, kw);
    forall n | 0 < n <= |t| ensures !DocKeyword(s + t[..n], kw, t[n..] + rest) {
      DetectorIff(s + t[..n], kw, t[n..] + rest);
    }
  }

  /** A ";" right after plain text splits in both machines. */
  lemma {:induction false} DocSemicolon(s: string)
    ensures DocLex(START.(stmt := s), ";").closed == [s]
  {
    assert ";"[1..] == "" && DocStep(START.(stmt := s), ";") == Move(START, 1, true);
  }

  lemma {:induction false} DocOpensBlock(s: string, c: char, text: string)
    requires IsWord(c) && DocKeyword(s + [c], "BEGIN", text)
    ensures DocLex(START.(stmt := s), [c] + text) == DocLex(Lexer(BeginBlock, 1, "", s + [c]), text)
  {
    assert ([c] + text)[1..] == text;
    assert DocStep(START.(stmt := s), [c] + text) == Move(Lexer(BeginBlock, 1, "", s + [c]), 1, false);
  }

  /** In the documented machine too a block lasts until an END. */
  lemma {:induction false} DocBlockKeeps(l: Lexer, text: string)
    requires l.mode.BeginBlock?
    requires forall n | 0 < n <= |text| :: !DocKeyword(l.stmt + text[..n], "END", text[n..])
    ensures DocLex(l, text).closed == []
    decreases |text|
  {
    if text != "" {
      var add := l.stmt + [text[0]];
      assert text[..1] == [text[0]];
      forall n | 0 < n <= |text| - 1 ensures !DocKeyword(add + text[1..][..n], "END", text[1..][n..]) {
        assert add + text[1..][..n] == l.stmt + text[..n + 1] && text[1..][n..] == text[n + 1..];
      }
      DocBlockKeeps(DocStep(l, text).next, text[1..]);
    }
  }

  lemma {:induction false} BeginSpelled(s: string, rest: string)
    ensures "begin" + rest == "begi" + (['n'] + rest)
    ensures (s + "begi") + ['n'] == s + "begin"
  {
  }

  /** "begin" before a word character: the splitter opens a block, the documented machine reads on. */
  lemma {:induction false} DocReadsOn(text: string)
    requires text != "" && IsWord(text[0])
    ensures DocLex(START, "begin" + text) == DocLex(START.(stmt := "begin"), text)
  {
    BeginSpelled("", text);
    assert "" + "begi" == "begi" && "" + "begin" == "begin";
    NeverDocKeyword("", "begi", "BEGIN", ['n'] + text);
    DocPlainWord("", "begi", ['n'] + text);
    DocWordTurn("begi", 'n', text);
  }

  lemma {:induction false} DocAfterIdentifier()
    ensures DocLex(START.(stmt := "begin"), "x;").closed == ["beginx"]
  {
    assert "x;" == ['x'] + ";" && "begin" + ['x'] == "beginx";
    OtherLastLetter("beginx", "BEGIN");
    DetectorIff("beginx", "BEGIN", ";");
    DocWordTurn("begin", 'x', ";");
    DocSemicolon("beginx");
  }

  /** An identifier that starts with "begin": the documented machine splits after it, the splitter does not. */
  lemma {:induction false} BeginIdentifierSwallows()
    ensures Lex(START, "beginx;").closed == [] && DocLex(START, "beginx;").closed == ["beginx"]
  {
    assert "begin" + "x;" == "beginx;";
    NeverKeyword("begin", "x;", "END");
    IdentifierOpensBlock("x;");
    DocReadsOn("x;");
    DocAfterIdentifier();
  }

  lemma {:induction false} ParenthesisTurn(text: string)
    ensures Lex(START, "(" + text) == Lex(START.(stmt := "("), text)
    ensures DocLex(START, "(" + text) == DocLex(START.(stmt := "("), text)
  {
    assert ("(" + text)[1..] == text && "" + ['('] == "(";
    OneStep(START, "(" + text, Move(START.(stmt := "("), 1, false));
  }

  lemma {:induction false} ParenthesisOpens(text: string)
    ensures Lex(START.(stmt := "("), "begin" + text) == Lex(Lexer(BeginBlock, 1, "", "(begin"), text)
  {
    BeginSpelled("(", text);
    NeverKeyword("(", "begi", "BEGIN");
    PlainWord("(", "begi", ['n'] + text);
    AfterParenthesis();
    WordOpensBlock("(" + "begi", 'n', text);
  }

  lemma {:induction false} AfterParenthesis()
    ensures "(" + "begin" == "(begin" && EndsWithKeyword("(begin", "BEGIN")
    ensures forall after :: !DocKeyword("(begin", "BEGIN", after)
  {
    assert "(begin"[1..] == "begin";
  }

  lemma {:induction false} DocParenthesis()
    ensures DocLex(START.(stmt := "("), "begin" + ";").closed == ["(begin"]
  {
    BeginSpelled("(", ";");
    NeverDocKeyword("(", "begi", "BEGIN", ['n'] + ";");
    DocPlainWord("(", "begi", ['n'] + ";");
    AfterParenthesis();
    DocWordTurn("(" + "begi", 'n', ";");
    DocSemicolon("(begin");
  }

  /** The splitter also takes a keyword right after "(". */
  lemma {:induction false} ParenthesisSwallows()
    ensures Lex(START, "(begin;").closed == [] && DocLex(START, "(begin;").closed == ["(begin"]
  {
    ParenthesisSpelled();
    ParenthesisTurn("begin" + ";");
    ParenthesisOpens(";");
    ParenthesisHolds();
    DocParenthesis();
  }

  lemma {:induction false} ParenthesisSpelled()
    ensures "(begin;" == "(" + ("begin" + ";")
  {
  }

  lemma {:induction false} ParenthesisHolds()
    ensures Lex(Lexer(BeginBlock, 1, "", "(begin"), ";").closed == []
  {
    NeverKeyword("(begin", ";", "END");
    BlockKeeps(Lexer(BeginBlock, 1, "", "(begin"), ";");
  }

  lemma {:induction false} BeginSpace(tail: string)
    ensures Lex(START, "begin" + ([' '] + tail)) == Lex(Lexer(BeginBlock, 1, "", "begin "), tail)
  {
    assert "begin" + [' '] == "begin ";
    BeginIgnoresWhatFollows([' '] + tail);
    OtherLastLetter("begin ", "BEGIN");
    OtherLastLetter("begin ", "END");
    BlockPlain("begin", ' ', tail);
  }

  lemma {:induction false} UnderscoreSplits(text: string)
    ensures Lex(Lexer(Normal, 0, "", "begin end"), "_;" + text).closed == ["begin end_"] + Lex(START, text).closed
  {
    assert "_;" + text == "_" + (";" + text) && "begin end" + "_" == "begin end_";
    NeverKeyword("begin end", "_", "BEGIN");
    PlainWord("begin end", "_", ";" + text);
    LexSemicolon(START.(stmt := "begin end_"), text);
  }

  /** An identifier that starts with "end" closes the block, so the next ";" cuts it. */
  lemma {:induction false} EndIdentifierSplits(text: string)
    ensures Lex(START, "begin end_;" + text).closed == ["begin end_"] + Lex(START, text).closed
  {
    EndSpelled(text);
    BeginSpace("end" + ("_;" + text));
    EndIgnoresWhatFollows("_;" + text);
    UnderscoreSplits(text);
  }

  lemma {:induction false} EndSpelled(text: string)
    ensures "begin end_;" + text == "begin" + ([' '] + ("end" + ("_;" + text)))
  {
  }

  lemma {:induction false} DocNoEnd(n: nat)
    requires 0 < n <= 6
    ensures !DocKeyword("begin" + " end_;"[..n], "END", " end_;"[n..])
  {
    var tail := " end_;";
    if n == 4 {
      assert tail[4..][0] == '_';
    } else {
      LastOf("begin", tail, n);
      OtherLastLetter("begin" + tail[..n], "END");
      DetectorIff("begin" + tail[..n], "END", tail[n..]);
    }
  }

  /** The documented machine stays inside the block there. */
  lemma {:induction false} DocEndReadsOn()
    ensures DocLex(START, "begin" + " end_;").closed == []
  {
    var tail := " end_;";
    BeginSpelled("", tail);
    assert "" + "begi" == "begi" && "" + "begin" == "begin";
    NeverDocKeyword("", "begi", "BEGIN", ['n'] + tail);
    DocPlainWord("", "begi", ['n'] + tail);
    BeginIsKeyword();
    DocOpensBlock("begi", 'n', tail);
    forall n | 0 < n <= |tail| ensures !DocKeyword("begin" + tail[..n], "END", tail[n..]) {
      DocNoEnd(n);
    }
    DocBlockKeeps(Lexer(BeginBlock, 1, "", "begin"), tail);
  }
}
