/** What the splitter reads: literals, comments, blocks and dollar quotes, and the semicolons outside of them. */
module SplitSegments {
  import opened SqlSplitter
  import opened SplitTheorems

  function At(pre: string): Lexer {
    START.(stmt := pre)
  }

  lemma {:induction false} OneChar(l: Lexer, c: char, text: string, next: Lexer)
    requires Step(l, [c] + text) == Move(next, 1, false)
    ensures Lex(l, [c] + text) == Lex(next, text)
  {
    assert ([c] + text)[1..] == text;
  }

  lemma {:induction false} TwoChars(l: Lexer, c: char, d: char, text: string, next: Lexer)
    requires Step(l, [c] + ([d] + text)) == Move(next, 2, false)
    ensures Lex(l, [c] + ([d] + text)) == Lex(next, text)
  {
    assert ([c] + ([d] + text))[2..] == text;
  }

  // ----- Literals -----

  /** Quotes come in pairs only. */
  predicate Escaped(q: string) {
    q == "" || (q[0] != '\'' && Escaped(q[1..])) || (|q| >= 2 && q[0] == '\'' && q[1] == '\'' && Escaped(q[2..]))
  }

  predicate StartsWith(text: string, c: char) {
    text != "" && text[0] == c
  }

  function InString(buf: string): Lexer {
    Lexer(Str, 0, "", buf)
  }

  lemma {:induction false} QuoteOpens(pre: string, text: string)
    ensures Lex(At(pre), "'" + text) == Lex(InString(pre + "'"), text)
  {
    OneChar(At(pre), '\'', text, InString(pre + "'"));
  }

  lemma {:induction false} StringChar(buf: string, c: char, text: string)
    requires c != '\''
    ensures Lex(InString(buf), [c] + text) == Lex(InString(buf + [c]), text)
  {
    OneChar(InString(buf), c, text, InString(buf + [c]));
  }

  lemma {:induction false} StringPair(buf: string, text: string)
    ensures Lex(InString(buf), "'" + ("'" + text)) == Lex(InString(buf + "''"), text)
  {
    var all := "'" + ("'" + text);
    assert all[..2] == "''";
    TwoChars(InString(buf), '\'', '\'', text, InString(buf + "''"));
  }

  lemma {:induction false} StringRun(buf: string, q: string, text: string)
    requires Escaped(q)
    ensures Lex(InString(buf), q + text) == Lex(InString(buf + q), text)
    decreases |q|
  {
    if q == "" {
      assert q + text == text && buf + q == buf;
    } else if q[0] != '\'' {
      assert q + text == [q[0]] + (q[1..] + text);
      StringChar(buf, q[0], q[1..] + text);
      StringRun(buf + [q[0]], q[1..], text);
      assert buf + [q[0]] + q[1..] == buf + q;
    } else {
      assert q + text == "'" + ("'" + (q[2..] + text));
      StringPair(buf, q[2..] + text);
      StringRun(buf + "''", q[2..], text);
      assert buf + "''" + q[2..] == buf + q;
    }
  }

  lemma {:induction false} QuoteCloses(buf: string, text: string)
    requires !StartsWith(text, '\'')
    ensures Lex(InString(buf), "'" + text) == Lex(At(buf + "'"), text)
  {
    var all := "'" + text;
    assert text != "" ==> all[1] == text[0];
    OneChar(InString(buf), '\'', text, At(buf + "'"));
  }

  /** A literal is carried over whole, semicolons and doubled quotes included. */
  lemma {:induction false} LiteralRun(pre: string, q: string, rest: string)
    requires Escaped(q) && !StartsWith(rest, '\'')
    ensures Lex(At(pre), "'" + (q + ("'" + rest))) == Lex(At(pre + ("'" + q + "'")), rest)
  {
    QuoteOpens(pre, q + ("'" + rest));
    StringRun(pre + "'", q, "'" + rest);
    QuoteCloses(pre + "'" + q, rest);
    assert pre + "'" + q + "'" == pre + ("'" + q + "'");
  }

  /** Without a closing quote the rest of the body is one literal. */
  lemma {:induction false} LiteralStaysOpen(pre: string, q: string)
    requires Escaped(q)
    ensures Lex(At(pre), "'" + q) == Lexed([], InString(pre + ("'" + q)))
  {
    QuoteOpens(pre, q);
    StringRun(pre + "'", q, "");
    assert q + "" == q && pre + "'" + q == pre + ("'" + q);
  }

  // ----- Line comments -----

  function InLine(buf: string): Lexer {
    Lexer(LineCmt, 0, "", buf)
  }

  lemma {:induction false} DashesOpen(pre: string, text: string)
    ensures Lex(At(pre), "--" + text) == Lex(InLine(pre + "--"), text)
  {
    assert "--" + text == "-" + ("-" + text);
    OneChar(At(pre), '-', "-" + text, InLine(pre + "-"));
    OneChar(InLine(pre + "-"), '-', text, InLine(pre + "-" + "-"));
    assert pre + "-" + "-" == pre + "--";
  }

  lemma {:induction false} LineRun(buf: string, c: string, text: string)
    requires '\n' !in c
    ensures Lex(InLine(buf), c + text) == Lex(InLine(buf + c), text)
    decreases |c|
  {
    if c == "" {
      assert c + text == text && buf + c == buf;
    } else {
      assert c + text == [c[0]] + (c[1..] + text);
      OneChar(InLine(buf), c[0], c[1..] + text, InLine(buf + [c[0]]));
      LineRun(buf + [c[0]], c[1..], text);
      assert buf + [c[0]] + c[1..] == buf + c;
    }
  }

  /** A line comment is carried over up to its newline. */
  lemma {:induction false} LineCommentRun(pre: string, c: string, rest: string)
    requires '\n' !in c
    ensures Lex(At(pre), "--" + (c + ("\n" + rest))) == Lex(At(pre + ("--" + c + "\n")), rest)
  {
    DashesOpen(pre, c + ("\n" + rest));
    LineRun(pre + "--", c, "\n" + rest);
    OneChar(InLine(pre + "--" + c), '\n', rest, At(pre + "--" + c + "\n"));
    assert pre + "--" + c + "\n" == pre + ("--" + c + "\n");
  }

  lemma {:induction false} LineCommentStaysOpen(pre: string, c: string)
    requires '\n' !in c
    ensures Lex(At(pre), "--" + c) == Lexed([], InLine(pre + ("--" + c)))
  {
    DashesOpen(pre, c);
    LineRun(pre + "--", c, "");
    assert c + "" == c && pre + "--" + c == pre + ("--" + c);
  }

  // ----- Block comments -----

  function InComment(buf: string): Lexer {
    Lexer(BlockCmt, 0, "", buf)
  }

  predicate NoPair(s: string, a: char, b: char) {
    forall i | 0 <= i < |s| - 1 :: !(s[i] == a && s[i + 1] == b)
  }

  lemma {:induction false} CommentOpens(pre: string, text: string)
    ensures Lex(At(pre), "/" + ("*" + text)) == Lex(InComment(pre + "/*"), text)
  {
    var all := "/" + ("*" + text);
    assert all[..2] == "/*";
    TwoChars(At(pre), '/', '*', text, InComment(pre + "/*"));
  }

  lemma {:induction false} CommentRun(buf: string, c: string, text: string)
    requires NoPair(c, '*', '/') && !(c != "" && c[|c| - 1] == '*' && StartsWith(text, '/'))
    ensures Lex(InComment(buf), c + text) == Lex(InComment(buf + c), text)
    decreases |c|
  {
    if c == "" {
      assert c + text == text && buf + c == buf;
    } else {
      var all, more := c + text, c[1..] + text;
      assert all == [c[0]] + more;
      if |c| > 1 {
        assert all[1] == c[1];
      } else if text != "" {
        assert all[1] == text[0];
      }
      OneChar(InComment(buf), c[0], more, InComment(buf + [c[0]]));
      CommentRun(buf + [c[0]], c[1..], text);
      assert buf + [c[0]] + c[1..] == buf + c;
    }
  }

  lemma {:induction false} CommentCloses(buf: string, text: string)
    ensures Lex(InComment(buf), "*" + ("/" + text)) == Lex(At(buf + "*/"), text)
  {
    var all := "*" + ("/" + text);
    assert all[..2] == "*/";
    TwoChars(InComment(buf), '*', '/', text, At(buf + "*/"));
  }

  /** A block comment is carried over up to its first end; it does not nest. */
  lemma {:induction false} BlockCommentRun(pre: string, c: string, rest: string)
    requires NoPair(c, '*', '/')
    ensures Lex(At(pre), "/" + ("*" + (c + ("*" + ("/" + rest))))) == Lex(At(pre + ("/*" + c + "*/")), rest)
  {
    CommentOpens(pre, c + ("*" + ("/" + rest)));
    CommentRun(pre + "/*", c, "*" + ("/" + rest));
    CommentCloses(pre + "/*" + c, rest);
    assert pre + "/*" + c + "*/" == pre + ("/*" + c + "*/");
  }

  lemma {:induction false} BlockCommentStaysOpen(pre: string, c: string)
    requires NoPair(c, '*', '/')
    ensures Lex(At(pre), "/" + ("*" + c)) == Lexed([], InComment(pre + ("/*" + c)))
  {
    CommentOpens(pre, c);
    CommentRun(pre + "/*", c, "");
    assert c + "" == c && pre + "/*" + c == pre + ("/*" + c);
  }

  // ----- BEGIN..END blocks -----

  function InBlock(depth: int, buf: string): Lexer {
    Lexer(BeginBlock, depth, "", buf)
  }

  /** s is the keyword, letters in either case. */
  predicate Reads(s: string, kw: string) {
    |s| == |kw| && forall i | 0 <= i < |s| :: s[i] == kw[i] || ('A' <= kw[i] <= 'Z' && s[i] == kw[i] - 'A' + 'a')
  }

  /** Where a keyword may begin: at the start, after white space or after "(". */
  predicate Open(buf: string) {
    buf == "" || buf[|buf| - 1] in {' ', '\t', '\n', '\r', 11 as char, 12 as char, '('}
  }

  /** The buffer ends with this keyword. */
  predicate Ends(buf: string, kw: string) {
    |kw| <= |buf| && Open(buf[..|buf| - |kw|]) && Reads(buf[|buf| - |kw|..], kw)
  }

  predicate Capitals(kw: string) {
    forall i | 0 <= i < |kw| :: 'A' <= kw[i] <= 'Z'
  }

  lemma {:induction false} EndsIff(buf: string, kw: string)
    requires Capitals(kw)
    ensures EndsWithKeyword(buf, kw) <==> Ends(buf, kw)
  {
    if |kw| <= |buf| {
      var s := buf[|buf| - |kw|..];
      assert forall i | 0 <= i < |kw| :: Lower(s[i]) == Lower(kw[i]) <==> s[i] == kw[i] || s[i] == kw[i] - 'A' + 'a';
    }
  }

  /** Keyword that ends here: +1 for BEGIN, -1 for END, 0 for neither. */
  function Turn(buf: string): int {
    if Ends(buf, "BEGIN") then 1 else if Ends(buf, "END") then -1 else 0
  }

  /** Open blocks after n more characters. */
  function DepthAt(depth: int, buf: string, text: string, n: nat): int
    requires n <= |text|
  {
    if n == 0 then depth else DepthAt(depth, buf, text, n - 1) + Turn(buf + text[..n])
  }

  lemma {:induction false} BlockGoesOn(d: int, buf: string, c: char, text: string, e: int)
    requires d > 0 && e == d + Turn(buf + [c]) && e > 0
    ensures Lex(InBlock(d, buf), [c] + text) == Lex(InBlock(e, buf + [c]), text)
  {
    EndsIff(buf + [c], "BEGIN");
    EndsIff(buf + [c], "END");
    OneChar(InBlock(d, buf), c, text, InBlock(e, buf + [c]));
  }

  lemma {:induction false} BlockEnds(d: int, buf: string, c: char, text: string)
    requires d > 0 && d + Turn(buf + [c]) == 0
    ensures Lex(InBlock(d, buf), [c] + text) == Lex(At(buf + [c]), text)
  {
    EndsIff(buf + [c], "BEGIN");
    EndsIff(buf + [c], "END");
    OneChar(InBlock(d, buf), c, text, At(buf + [c]));
  }

  lemma {:induction false} ShiftOne(buf: string, text: string, n: nat, rest: string)
    requires 0 < n <= |text|
    ensures text[..n] + rest == text[..n - 1] + ([text[n - 1]] + rest)
    ensures buf + text[..n - 1] + [text[n - 1]] == buf + text[..n]
  {
  }

  /** Inside a block everything is collected as long as the keywords leave it open. */
  lemma {:induction false} BlockRun(depth: int, buf: string, text: string, n: nat, rest: string)
    requires n <= |text| && forall m: nat | m <= n :: DepthAt(depth, buf, text, m) > 0
    ensures Lex(InBlock(depth, buf), text[..n] + rest) == Lex(InBlock(DepthAt(depth, buf, text, n), buf + text[..n]), rest)
    decreases n
  {
    if n == 0 {
      assert text[..0] + rest == rest && buf + text[..0] == buf;
    } else {
      ShiftOne(buf, text, n, rest);
      BlockRun(depth, buf, text, n - 1, [text[n - 1]] + rest);
      var d, e := DepthAt(depth, buf, text, n - 1), DepthAt(depth, buf, text, n);
      assert d > 0 && e > 0 && e == d + Turn(buf + text[..n]);
      BlockGoesOn(d, buf + text[..n - 1], text[n - 1], rest, e);
    }
  }

  /** A block that is opened at the end of buf runs to the END that balances it. */
  lemma {:induction false} BlockToEnd(buf: string, text: string, rest: string)
    requires Balanced(buf, text)
    ensures Lex(InBlock(1, buf), text + rest) == Lex(At(buf + text), rest)
  {
    var n := |text|;
    assert text[..n] == text;
    ShiftOne(buf, text, n, rest);
    BlockRun(1, buf, text, n - 1, [text[n - 1]] + rest);
    BlockEnds(DepthAt(1, buf, text, n - 1), buf + text[..n - 1], text[n - 1], rest);
  }

  /** The first place where as many ENDs as BEGINs have been read is the end of the text. */
  predicate Balanced(buf: string, text: string) {
    DepthAt(1, buf, text, |text|) == 0 && forall m: nat | m < |text| :: DepthAt(1, buf, text, m) > 0
  }

  /** While the END is missing the block takes the whole rest of the body. */
  lemma {:induction false} BlockStaysOpen(depth: int, buf: string, text: string)
    requires forall m: nat | m <= |text| :: DepthAt(depth, buf, text, m) > 0
    ensures Lex(InBlock(depth, buf), text) == Lexed([], InBlock(DepthAt(depth, buf, text, |text|), buf + text))
  {
    BlockRun(depth, buf, text, |text|, "");
    assert text[..|text|] + "" == text && text[..|text|] == text;
  }

  // ----- Dollar quotes -----

  /** "$$", or "$" and a name that does not begin with a digit and "$". */
  predicate Tag(tag: string) {
    IsTag(tag) && (|tag| > 2 ==> IsLetter(tag[1]) || tag[1] == '_')
  }

  lemma {:induction false} NameEndAt(text: string, k: nat, n: nat)
    requires k < n <= |text| && text[n - 1] == '$' && forall i | k <= i < n - 1 :: IsWord(text[i])
    ensures NameEnd(text, k) == n
    decreases n - k
  {
    if k < n - 1 {
      NameEndAt(text, k + 1, n);
    }
  }

  /** A tag is recognised iff the text starts with one. */
  lemma {:induction false} TagIff(text: string, n: nat)
    requires 0 < n <= |text|
    ensures TagLength(text) == n <==> Tag(text[..n])
  {
    var tag := text[..n];
    if TagLength(text) == n {
      TagShape(text);
      assert n > 2 ==> tag[1] == text[1];
    }
    if Tag(tag) {
      assert tag[0] == text[0] && tag[1] == text[1] && tag[n - 1] == text[n - 1];
      if n > 2 {
        assert forall i | 2 <= i < n - 1 :: IsWord(tag[i]) && tag[i] == text[i];
        NameEndAt(text, 2, n);
        assert IsWord(text[1]);
      }
    }
  }

  lemma {:induction false} TagOpens(pre: string, tag: string, text: string)
    requires Tag(tag)
    ensures Lex(At(pre), tag + text) == Lex(Lexer(Dollar, 0, tag, pre + tag), text)
  {
    var all := tag + text;
    assert all[..|tag|] == tag && all[|tag|..] == text && all[0] == '$';
    TagIff(all, |tag|);
    OneStep(At(pre), all, Move(Lexer(Dollar, 0, tag, pre + tag), |tag|, false));
  }

  lemma {:induction false} ClosesAt(pre: string, tag: string, quote: string, rest: string, m: nat)
    requires IsTag(tag) && FirstTagEnd(tag, quote, |quote|) && !(tag[1..] <= quote) && |tag| <= |quote| && 0 < m <= |quote|
    ensures CodeCloses(pre, tag, quote + rest, m) <==> m == |quote|
  {
    CodeClosesIff(pre, tag, quote + rest, m);
    assert (quote + rest)[..m] == quote[..m];
    assert (quote + rest)[..|tag| - 1] == quote[..|tag| - 1];
    assert TagEndsAt(tag, quote + rest, m) == TagEndsAt(tag, quote, m);
  }

  /** A quote is carried over up to its first closing tag, unless it starts with the opening tag less its first "$". */
  lemma {:induction false} DollarQuoteRun(pre: string, tag: string, quote: string, rest: string)
    requires Tag(tag) && FirstTagEnd(tag, quote, |quote|) && !(tag[1..] <= quote) && |tag| <= |quote|
    ensures Lex(At(pre), tag + (quote + rest)) == Lex(At(pre + (tag + quote)), rest)
  {
    var text, n := quote + rest, |quote|;
    TagOpens(pre, tag, text);
    forall m | 0 < m <= n ensures CodeCloses(pre, tag, text, m) <==> m == n {
      ClosesAt(pre, tag, quote, rest, m);
    }
    DollarEnds(pre, tag, quote, rest);
    DollarRun(pre, tag, text, 0, n);
  }

  lemma {:induction false} DollarEnds(pre: string, tag: string, quote: string, rest: string)
    ensures var text, n := quote + rest, |quote|;
            && text[..0] == quote[..0] == "" && text[0..] == text && quote[0..] == quote && text[..n] == quote && text[n..] == rest
            && pre + tag + "" == pre + tag && pre + tag + quote == pre + (tag + quote)
  {
  }

  // ----- Plain text -----

  /** c, behind buf and before text, opens nothing and splits nothing. */
  predicate Quiet(buf: string, c: char, text: string) {
    && c != '\'' && c != ';'
    && !(c == '-' && StartsWith(text, '-'))
    && !(c == '/' && StartsWith(text, '*'))
    && (c == '$' ==> forall n | 0 < n <= |text| :: !Tag("$" + text[..n]))
    && !Ends(buf + [c], "BEGIN")
  }

  lemma {:induction false} NoTagHere(text: string)
    requires forall n | 0 < n <= |text| :: !Tag("$" + text[..n])
    ensures TagLength("$" + text) == 0
  {
    var all := "$" + text;
    var n := TagLength(all);
    if n > 0 {
      DollarFront(text, n);
      TagIff(all, n);
    }
  }

  lemma {:induction false} DollarFront(text: string, n: nat)
    requires 0 < n <= |text| + 1
    ensures ("$" + text)[..n] == "$" + text[..n - 1]
  {
  }

  lemma {:induction false} QuietChar(pre: string, c: char, text: string)
    requires Quiet(pre, c, text)
    ensures Lex(At(pre), [c] + text) == Lex(At(pre + [c]), text)
  {
    var all := [c] + text;
    assert text != "" ==> all[1] == text[0];
    if c == '$' {
      NoTagHere(text);
    }
    EndsIff(pre + [c], "BEGIN");
    OneChar(At(pre), c, text, At(pre + [c]));
  }

  predicate Plainly(pre: string, t: string, rest: string) {
    forall i | 0 <= i < |t| :: Quiet(pre + t[..i], t[i], t[i + 1..] + rest)
  }

  /** What each character of t allows to be moved from the text to the buffer, all of t does. */
  lemma {:induction false} Carry<T>(f: (string, string) -> T, pre: string, t: string, rest: string, n: nat)
    requires n <= |t|
    requires forall i | 0 <= i < |t| :: f(pre + t[..i], [t[i]] + (t[i + 1..] + rest)) == f(pre + t[..i + 1], t[i + 1..] + rest)
    ensures f(pre, t + rest) == f(pre + t[..n], t[n..] + rest)
  {
    if n == 0 {
      assert pre + t[..0] == pre && t[0..] == t;
    } else {
      Carry(f, pre, t, rest, n - 1);
      assert t[n - 1..] + rest == [t[n - 1]] + (t[n - 1 + 1..] + rest);
    }
  }

  /** Text that opens nothing and holds no semicolon is carried over. */
  lemma {:induction false} PlainRun(pre: string, t: string, rest: string)
    requires Plainly(pre, t, rest)
    ensures Lex(At(pre), t + rest) == Lex(At(pre + t), rest)
  {
    var f := (buf: string, text: string) => Lex(At(buf), text);
    forall i | 0 <= i < |t|
      ensures f(pre + t[..i], [t[i]] + (t[i + 1..] + rest)) == f(pre + t[..i + 1], t[i + 1..] + rest)
    {
      QuietChar(pre + t[..i], t[i], t[i + 1..] + rest);
      assert pre + t[..i] + [t[i]] == pre + t[..i + 1];
    }
    Carry(f, pre, t, rest, |t|);
    AllMoved(pre, t, rest);
  }

  lemma {:induction false} AllMoved(pre: string, t: string, rest: string)
    ensures pre + t[..|t|] == pre + t && t[|t|..] + rest == rest
  {
  }

  /** BEGIN, in any case of letters and where a keyword may begin, opens a block whatever follows. */
  lemma {:induction false} BeginOpens(pre: string, w: string, text: string)
    requires Open(pre) && Reads(w, "BEGIN")
    ensures Lex(At(pre), w[..4] + ([w[4]] + text)) == Lex(InBlock(1, pre + w), text)
  {
    LettersBefore(pre, w, text);
    PlainRun(pre, w[..4], [w[4]] + text);
    LastLetterOpens(pre, w, text);
  }

  lemma {:induction false} LastLetterOpens(pre: string, w: string, text: string)
    requires Open(pre) && Reads(w, "BEGIN")
    ensures Lex(At(pre + w[..4]), [w[4]] + text) == Lex(InBlock(1, pre + w), text)
  {
    var buf, c := pre + w[..4], w[4];
    assert (pre + w)[..|pre|] == pre && (pre + w)[|pre|..] == w && buf + [c] == pre + w;
    EndsIff(pre + w, "BEGIN");
    OneChar(At(buf), c, text, InBlock(1, pre + w));
  }

  /** No keyword ends before its last letter. */
  lemma {:induction false} NotYet(pre: string, t: string)
    requires Open(pre) && 0 < |t| < 5
    ensures !Ends(pre + t, "BEGIN")
  {
    var buf := pre + t;
    if |buf| >= 5 {
      assert buf[|buf| - 5..][4 - |t|] == pre[|pre| - 1];
    }
  }

  lemma {:induction false} LettersBefore(pre: string, w: string, text: string)
    requires Open(pre) && Reads(w, "BEGIN")
    ensures Plainly(pre, w[..4], [w[4]] + text)
  {
    var t := w[..4];
    forall i | 0 <= i < |t| ensures Quiet(pre + t[..i], t[i], t[i + 1..] + ([w[4]] + text)) {
      NotYet(pre, t[..i + 1]);
      assert pre + t[..i] + [t[i]] == pre + t[..i + 1];
    }
  }

  // ----- Whole bodies -----

  /** A piece of a body. The quote of a dollar quote includes its closing tag, the body of a block its last END. */
  datatype Segment =
    | Plain(text: string)
    | Literal(body: string)
    | LineComment(body: string)
    | BlockComment(body: string)
    | DollarQuote(tag: string, quote: string)
    | Block(begin: string, body: string)
    | Semicolon

  function Text(s: Segment): string {
    match s
    case Plain(t) => t
    case Literal(q) => "'" + q + "'"
    case LineComment(c) => "--" + c + "\n"
    case BlockComment(c) => "/*" + c + "*/"
    case DollarQuote(tag, quote) => tag + quote
    case Block(begin, body) => begin + body
    case Semicolon => ";"
  }

  /** The segment is complete and ends where it says, between the buffer and the text around it. */
  predicate Fits(buf: string, s: Segment, rest: string) {
    match s
    case Plain(t) => Plainly(buf, t, rest)
    case Literal(q) => Escaped(q) && !StartsWith(rest, '\'')
    case LineComment(c) => '\n' !in c
    case BlockComment(c) => NoPair(c, '*', '/')
    case DollarQuote(tag, quote) =>
      Tag(tag) && |tag| <= |quote| && FirstTagEnd(tag, quote, |quote|) && !(tag[1..] <= quote)
    case Block(begin, body) => Open(buf) && Reads(begin, "BEGIN") && Balanced(buf + begin, body)
    case Semicolon => true
  }

  lemma {:induction false} LiteralSegment(buf: string, q: string, rest: string)
    requires Escaped(q) && !StartsWith(rest, '\'')
    ensures Lex(At(buf), "'" + q + "'" + rest) == Lex(At(buf + ("'" + q + "'")), rest)
  {
    LiteralRun(buf, q, rest);
    assert "'" + q + "'" + rest == "'" + (q + ("'" + rest));
  }

  lemma {:induction false} LineSegment(buf: string, c: string, rest: string)
    requires '\n' !in c
    ensures Lex(At(buf), "--" + c + "\n" + rest) == Lex(At(buf + ("--" + c + "\n")), rest)
  {
    LineCommentRun(buf, c, rest);
    assert "--" + c + "\n" + rest == "--" + (c + ("\n" + rest));
  }

  lemma {:induction false} CommentSegment(buf: string, c: string, rest: string)
    requires NoPair(c, '*', '/')
    ensures Lex(At(buf), "/*" + c + "*/" + rest) == Lex(At(buf + ("/*" + c + "*/")), rest)
  {
    BlockCommentRun(buf, c, rest);
    assert "/*" + c + "*/" + rest == "/" + ("*" + (c + ("*" + ("/" + rest))));
  }

  lemma {:induction false} DollarSegment(buf: string, tag: string, quote: string, rest: string)
    requires Fits(buf, DollarQuote(tag, quote), rest)
    ensures Lex(At(buf), tag + quote + rest) == Lex(At(buf + (tag + quote)), rest)
  {
    DollarQuoteRun(buf, tag, quote, rest);
    assert tag + quote + rest == tag + (quote + rest);
  }

  /** BeginOpens on the undivided text. */
  lemma {:induction false} BeginOpensWhole(buf: string, w: string, text: string, whole: string)
    requires Open(buf) && Reads(w, "BEGIN") && whole == w + text
    ensures Lex(At(buf), whole) == Lex(InBlock(1, buf + w), text)
  {
    assert whole == w[..4] + ([w[4]] + text);
    BeginOpens(buf, w, text);
  }

  lemma {:induction false} BlockTexts(buf: string, begin: string, body: string, rest: string)
    ensures begin + body + rest == begin + (body + rest) && buf + begin + body == buf + (begin + body)
  {
  }

  lemma {:induction false} BlockSegment(buf: string, begin: string, body: string, rest: string)
    requires Open(buf) && Reads(begin, "BEGIN") && Balanced(buf + begin, body)
    ensures Lex(At(buf), begin + body + rest) == Lex(At(buf + (begin + body)), rest)
  {
    BlockTexts(buf, begin, body, rest);
    BeginOpensWhole(buf, begin, body + rest, begin + body + rest);
    BlockToEnd(buf + begin, body, rest);
  }

  /** A complete segment other than a semicolon is carried over to the buffer whole. */
  lemma {:induction false} SegmentRun(buf: string, s: Segment, rest: string)
    requires Fits(buf, s, rest) && !s.Semicolon?
    ensures Lex(At(buf), Text(s) + rest) == Lex(At(buf + Text(s)), rest)
  {
    match s
    case Plain(t) => PlainRun(buf, t, rest);
    case Literal(q) => LiteralSegment(buf, q, rest);
    case LineComment(c) => LineSegment(buf, c, rest);
    case BlockComment(c) => CommentSegment(buf, c, rest);
    case DollarQuote(tag, quote) => DollarSegment(buf, tag, quote, rest);
    case Block(begin, body) => BlockSegment(buf, begin, body, rest);
  }

  function Render(segments: seq<Segment>, rest: string): string {
    if segments == [] then rest else Text(segments[0]) + Render(segments[1..], rest)
  }

  function BufferAfter(buf: string, s: Segment): string {
    if s.Semicolon? then "" else buf + Text(s)
  }

  predicate AllFit(buf: string, segments: seq<Segment>, rest: string)
    decreases |segments|
  {
    segments == [] ||
    (Fits(buf, segments[0], Render(segments[1..], rest)) && AllFit(BufferAfter(buf, segments[0]), segments[1..], rest))
  }

  /** The text between the semicolon segments; the last piece is still open. */
  function Between(buf: string, segments: seq<Segment>): (pieces: seq<string>)
    ensures pieces != []
    decreases |segments|
  {
    if segments == [] then [buf]
    else (if segments[0].Semicolon? then [buf] else []) + Between(BufferAfter(buf, segments[0]), segments[1..])
  }

  lemma {:induction false} SemicolonCuts(buf: string, text: string)
    ensures Lex(At(buf), ";" + text) == Lexed([buf] + Lex(START, text).closed, Lex(START, text).last)
  {
    LexSemicolon(At(buf), text);
  }

  lemma {:induction false} AddPiece(buf: string, q: seq<string>, closed: seq<string>)
    requires q != []
    ensures var p := [buf] + q; p[..|p| - 1] + closed == [buf] + (q[..|q| - 1] + closed) && p[|p| - 1] == q[|q| - 1]
  {
  }

  /** Text read behind buf is cut into these pieces, and the last of them goes on with rest. */
  ghost predicate Cuts(buf: string, text: string, pieces: seq<string>, rest: string)
    requires pieces != []
  {
    var more := Lex(At(pieces[|pieces| - 1]), rest);
    Lex(At(buf), text) == Lexed(pieces[..|pieces| - 1] + more.closed, more.last)
  }

  lemma {:induction false} NoPieceCut(buf: string, rest: string)
    ensures Cuts(buf, rest, [buf], rest)
  {
    assert [buf][..0] + Lex(At(buf), rest).closed == Lex(At(buf), rest).closed;
  }

  lemma {:induction false} PieceCut(buf: string, text: string, q: seq<string>, rest: string)
    requires q != [] && Cuts("", text, q, rest)
    ensures Cuts(buf, ";" + text, [buf] + q, rest)
  {
    AddPiece(buf, q, Lex(At(q[|q| - 1]), rest).closed);
    SemicolonCuts(buf, text);
  }

  /** A body made of complete segments is cut exactly at its semicolon segments, and then continues with the rest. */
  lemma {:induction false} CutsAtSemicolons(buf: string, segments: seq<Segment>, rest: string)
    requires AllFit(buf, segments, rest)
    ensures Cuts(buf, Render(segments, rest), Between(buf, segments), rest)
    decreases |segments|
  {
    if segments == [] {
      NoPieceCut(buf, rest);
    } else {
      var s, tail := segments[0], Render(segments[1..], rest);
      CutsAtSemicolons(BufferAfter(buf, s), segments[1..], rest);
      if s.Semicolon? {
        PieceCut(buf, tail, Between("", segments[1..]), rest);
      } else {
        SegmentRun(buf, s, tail);
        assert [] + Between(buf + Text(s), segments[1..]) == Between(buf + Text(s), segments[1..]);
      }
    }
  }

  /** What a body holds when the text ends inside a segment. */
  function OpenText(s: Segment): string {
    match s
    case Literal(q) => "'" + q
    case LineComment(c) => "--" + c
    case BlockComment(c) => "/*" + c
    case DollarQuote(tag, quote) => tag + quote
    case Block(begin, body) => begin + body
    case _ => ""
  }

  predicate FitsOpen(buf: string, s: Segment) {
    match s
    case Literal(q) => Escaped(q)
    case LineComment(c) => '\n' !in c
    case BlockComment(c) => NoPair(c, '*', '/')
    case DollarQuote(tag, quote) =>
      Tag(tag) && (forall n: nat | n <= |quote| :: !TagEndsAt(tag, quote, n)) && !(tag[1..] <= quote)
    case Block(begin, body) =>
      Open(buf) && Reads(begin, "BEGIN") && forall m: nat | m <= |body| :: DepthAt(1, buf + begin, body, m) > 0
    case _ => false
  }

  lemma {:induction false} DollarOpen(buf: string, tag: string, quote: string)
    requires FitsOpen(buf, DollarQuote(tag, quote))
    ensures Lex(At(buf), tag + quote) == Lexed([], Lexer(Dollar, 0, tag, buf + (tag + quote)))
  {
    TagOpens(buf, tag, quote);
    forall m: nat ensures !CodeCloses(buf, tag, quote, m) {
      if m <= |quote| {
        CodeClosesIff(buf, tag, quote, m);
      }
    }
    DollarEnds(buf, tag, quote, "");
    DollarStaysOpen(buf, tag, quote, 0);
  }

  lemma {:induction false} BlockOpen(buf: string, begin: string, body: string)
    requires Open(buf) && Reads(begin, "BEGIN") && forall m: nat | m <= |body| :: DepthAt(1, buf + begin, body, m) > 0
    ensures Lex(At(buf), begin + body) ==
            Lexed([], InBlock(DepthAt(1, buf + begin, body, |body|), buf + (begin + body)))
  {
    BlockTexts(buf, begin, body, "");
    BeginOpensWhole(buf, begin, body, begin + body);
    BlockStaysOpen(1, buf + begin, body);
  }

  /** A segment that is not closed takes the whole rest of the body, without a cut. */
  lemma {:induction false} OpenSegmentTakesAll(buf: string, s: Segment)
    requires FitsOpen(buf, s)
    ensures var r := Lex(At(buf), OpenText(s)); r.closed == [] && r.last.stmt == buf + OpenText(s) && !r.last.mode.Normal?
  {
    match s
    case Literal(q) => LiteralStaysOpen(buf, q);
    case LineComment(c) => LineCommentStaysOpen(buf, c);
    case BlockComment(c) => BlockCommentStaysOpen(buf, c); assert "/" + ("*" + c) == "/*" + c;
    case DollarQuote(tag, quote) => DollarOpen(buf, tag, quote);
    case Block(begin, body) => BlockOpen(buf, begin, body);
  }

  lemma {:induction false} PiecesAre(text: string, pieces: seq<string>, rest: string)
    requires pieces != [] && Cuts("", text, pieces, rest) && Lex(At(pieces[|pieces| - 1]), rest).closed == []
    ensures Split(text) == Statements(pieces[..|pieces| - 1] + [Lex(At(pieces[|pieces| - 1]), rest).last.stmt])
  {
    assert pieces[..|pieces| - 1] + [] == pieces[..|pieces| - 1];
  }

  lemma {:induction false} LastBack(pieces: seq<string>)
    requires pieces != []
    ensures pieces[..|pieces| - 1] + [Lex(At(pieces[|pieces| - 1]), "").last.stmt] == pieces
    ensures Lex(At(pieces[|pieces| - 1]), "").closed == []
  {
  }

  /** The statements of a body are the trimmed texts between its semicolons, whatever its literals, comments, blocks and
      dollar quotes contain. */
  lemma {:induction false} SplitAtSemicolons(segments: seq<Segment>)
    requires AllFit("", segments, "")
    ensures Split(Render(segments, "")) == Statements(Between("", segments))
  {
    CutsAtSemicolons("", segments, "");
    var pieces := Between("", segments);
    LastBack(pieces);
    PiecesAre(Render(segments, ""), pieces, "");
  }

  /** The same for a body that ends inside a segment: that segment belongs to the last statement. */
  lemma {:induction false} SplitWithOpenEnd(segments: seq<Segment>, s: Segment)
    requires AllFit("", segments, OpenText(s))
    requires var pieces := Between("", segments); FitsOpen(pieces[|pieces| - 1], s)
    ensures var pieces := Between("", segments);
            Split(Render(segments, OpenText(s))) ==
            Statements(pieces[..|pieces| - 1] + [pieces[|pieces| - 1] + OpenText(s)])
  {
    CutsAtSemicolons("", segments, OpenText(s));
    var pieces := Between("", segments);
    OpenSegmentTakesAll(pieces[|pieces| - 1], s);
    PiecesAre(Render(segments, OpenText(s)), pieces, OpenText(s));
  }
}
