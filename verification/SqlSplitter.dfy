/** The statement splitter: a single pass over the body with one character of lookahead. */
module SqlSplitter {

  datatype Mode = Normal | LineCmt | BlockCmt | Str | BeginBlock | Dollar

  /** depth counts open BEGINs, tag is the open dollar tag, stmt the text since the last split. */
  datatype Lexer = Lexer(mode: Mode, depth: int, tag: string, stmt: string)

  const START: Lexer := Lexer(Normal, 0, "", "")

  // ----- Characters, keywords and tags -----

  predicate IsSpace(c: char) {
    c == ' ' || c == '\t' || c == '\n' || c == '\r' || c == 11 as char || c == 12 as char
  }

  predicate IsLetter(c: char) {
    'a' <= c <= 'z' || 'A' <= c <= 'Z'
  }

  predicate IsWord(c: char) {
    IsLetter(c) || '0' <= c <= '9' || c == '_'
  }

  function Lower(c: char): char {
    if 'A' <= c <= 'Z' then c - 'A' + 'a' else c
  }

  predicate SameIgnoringCase(s: string, t: string) {
    |s| == |t| && forall i | 0 <= i < |s| :: Lower(s[i]) == Lower(t[i])
  }

  /** buf ends with the keyword, and what precedes it is the start of the buffer, a space or "(". */
  predicate EndsWithKeyword(buf: string, kw: string) {
    && |kw| <= |buf|
    && (|buf| > |kw| ==> IsSpace(buf[|buf| - |kw| - 1]) || buf[|buf| - |kw| - 1] == '(')
    && SameIgnoringCase(buf[|buf| - |kw|..], kw)
  }

  /** The candidate always ends the buffer, so there is never a following character to reject it. */
  method IsStandaloneKeyword(buf: string, kw: string) returns (r: bool)
    ensures r <==> EndsWithKeyword(buf, kw)
  {
    if |buf| < |kw| {
      return false;
    }
    var start := |buf| - |kw|;
    if start > 0 {
      var prev := buf[start - 1];
      if !IsSpace(prev) && prev != '(' {
        return false;
      }
    }
    for i := 0 to |kw|
      invariant forall j | 0 <= j < i :: Lower(buf[start..][j]) == Lower(kw[j])
    {
      if Lower(buf[start + i]) != Lower(kw[i]) {
        assert Lower(buf[start..][i]) != Lower(kw[i]);
        return false;
      }
    }
    return true;
  }

  predicate EndsWith(buf: string, tag: string) {
    |tag| <= |buf| && buf[|buf| - |tag|..] == tag
  }

  /** From position k: the end of name$ if word characters lead to a "$", otherwise 0. */
  function NameEnd(text: string, k: nat): (n: nat)
    ensures n == 0 || k < n <= |text|
    decreases |text| - k
  {
    if k >= |text| then 0
    else if text[k] == '$' then k + 1
    else if IsWord(text[k]) then NameEnd(text, k + 1)
    else 0
  }

  /** Length of the opening tag $$ or $name$ at the front of the text, 0 if there is none. */
  function TagLength(text: string): (n: nat)
    ensures n <= |text| && n != 1
  {
    if |text| < 2 || text[0] != '$' then 0
    else if text[1] == '$' then 2
    else if IsLetter(text[1]) || text[1] == '_' then NameEnd(text, 2)
    else 0
  }

  method ScanDollarTag(runes: string, i: nat) returns (tag: string, length: nat)
    requires i < |runes|
    ensures length == TagLength(runes[i..]) && tag == runes[i..][..length]
  {
    ghost var text := runes[i..];
    if runes[i] != '$' {
      return "", 0;
    }
    if i + 1 < |runes| && runes[i + 1] == '$' {
      return "$$", 2;
    }
    if i + 1 >= |runes| {
      return "", 0;
    }
    var first := runes[i + 1];
    if !(IsLetter(first) || first == '_') {
      return "", 0;
    }
    var end := i + 2;
    while end < |runes|
      invariant i + 2 <= end <= |runes|
      invariant TagLength(text) == NameEnd(text, end - i)
    {
      var c := runes[end];
      assert text[end - i] == c;
      if c == '$' {
        return runes[i..end + 1], end + 1 - i;
      }
      if !IsWord(c) {
        return "", 0;
      }
      end := end + 1;
    }
    return "", 0;
  }

  // ----- The machine -----

  /** One turn of the loop: the new state, how much text it consumed, whether it closed a statement. */
  datatype Move = Move(next: Lexer, used: nat, cut: bool)

  function Step(l: Lexer, text: string): (m: Move)
    requires text != ""
    ensures 0 < m.used <= |text|
  {
    var c := text[0];
    var peek := if |text| > 1 then text[1] else ' ';
    var add := l.(stmt := l.stmt + [c]);
    var two := l.(stmt := l.stmt + text[..if |text| > 1 then 2 else 1]);
    match l.mode
    case LineCmt => Move(if c == '\n' then add.(mode := Normal) else add, 1, false)
    case BlockCmt => if c == '*' && peek == '/' then Move(two.(mode := Normal), 2, false) else Move(add, 1, false)
    case Str =>
      if c == '\'' && peek == '\'' then Move(two, 2, false)
      else if c == '\'' then Move(add.(mode := Normal), 1, false)
      else Move(add, 1, false)
    case Dollar =>
      if c == '$' && l.tag != "" && EndsWith(add.stmt, l.tag) then Move(add.(mode := Normal, tag := ""), 1, false)
      else Move(add, 1, false)
    case BeginBlock =>
      if EndsWithKeyword(add.stmt, "BEGIN") then Move(add.(depth := l.depth + 1), 1, false)
      else if EndsWithKeyword(add.stmt, "END") then
        Move(add.(depth := l.depth - 1, mode := if l.depth == 1 then Normal else BeginBlock), 1, false)
      else Move(add, 1, false)
    case Normal =>
      if c == '-' && peek == '-' then Move(add.(mode := LineCmt), 1, false)
      else if c == '/' && peek == '*' then Move(two.(mode := BlockCmt), 2, false)
      else if c == '\'' then Move(add.(mode := Str), 1, false)
      else if c == '$' && TagLength(text) > 0 then
        var tag := text[..TagLength(text)];
        Move(l.(stmt := l.stmt + tag, tag := tag, mode := Dollar), |tag|, false)
      else if IsWord(c) then
        if EndsWithKeyword(add.stmt, "BEGIN") then Move(add.(depth := l.depth + 1, mode := BeginBlock), 1, false)
        else Move(add, 1, false)
      else if c == ';' then Move(l.(stmt := ""), 1, true)
      else Move(add, 1, false)
  }

  /** The untrimmed statements that were closed, and the state at the end of the text. */
  datatype Lexed = Lexed(closed: seq<string>, last: Lexer)
  {
    function Pieces(): seq<string> {
      closed + [last.stmt]
    }
  }

  function Lex(l: Lexer, text: string): Lexed
    decreases |text|
  {
    if text == "" then Lexed([], l)
    else
      var m := Step(l, text);
      var r := Lex(m.next, text[m.used..]);
      if m.cut then Lexed([l.stmt] + r.closed, r.last) else r
  }

  function TrimLeft(s: string): string {
    if s != "" && IsSpace(s[0]) then TrimLeft(s[1..]) else s
  }

  function TrimRight(s: string): string {
    if s != "" && IsSpace(s[|s| - 1]) then TrimRight(s[..|s| - 1]) else s
  }

  function Trim(s: string): string {
    TrimRight(TrimLeft(s))
  }

  /** Trimmed pieces, blank ones left out. */
  function Statements(pieces: seq<string>): seq<string> {
    if pieces == [] then []
    else if Trim(pieces[0]) == "" then Statements(pieces[1..])
    else [Trim(pieces[0])] + Statements(pieces[1..])
  }

  function SplitFrom(l: Lexer, text: string): seq<string> {
    Statements(Lex(l, text).Pieces())
  }

  function Split(body: string): seq<string> {
    SplitFrom(START, body)
  }

  lemma {:induction false} StatementsAppend(a: seq<string>, b: seq<string>)
    ensures Statements(a + b) == Statements(a) + Statements(b)
  {
    if a == [] {
      assert a + b == b;
    } else {
      assert (a + b)[1..] == a[1..] + b;
      StatementsAppend(a[1..], b);
    }
  }

  lemma {:induction false} SplitStep(l: Lexer, text: string)
    requires text != ""
    ensures var m := Step(l, text);
            SplitFrom(l, text) == (if m.cut then Statements([l.stmt]) else []) + SplitFrom(m.next, text[m.used..])
  {
    var m := Step(l, text);
    var r := Lex(m.next, text[m.used..]);
    if m.cut {
      assert Lex(l, text).Pieces() == [l.stmt] + r.Pieces();
      StatementsAppend([l.stmt], r.Pieces());
    }
  }

  /** The state change inside a BEGIN block, once the character is in the buffer. */
  method CountKeyword(stmt: string, depth: int) returns (depth': int, state: Mode)
    ensures depth' == depth + (if EndsWithKeyword(stmt, "BEGIN") then 1 else if EndsWithKeyword(stmt, "END") then -1 else 0)
    ensures state == if !EndsWithKeyword(stmt, "BEGIN") && EndsWithKeyword(stmt, "END") && depth == 1 then Normal else BeginBlock
  {
    depth', state := depth, BeginBlock;
    var isBegin := IsStandaloneKeyword(stmt, "BEGIN");
    if isBegin {
      depth' := depth' + 1;
      return;
    }
    var isEnd := IsStandaloneKeyword(stmt, "END");
    if isEnd {
      depth' := depth' - 1;
      if depth' == 0 {
        state := Normal;
      }
    }
  }

  /** The loop body in the states that only watch for their own end. */
  method InsideTurn(body: string, i: nat, l: Lexer) returns (next: Lexer, j: nat)
    requires i < |body| && !l.mode.Normal?
    ensures i < j && Step(l, body[i..]) == Move(next, j - i, false)
  {
    var c := body[i];
    var stmt, state, beginDepth, dollarTag := l.stmt + [c], l.mode, l.depth, l.tag;
    j := i + 1;
    match l.mode {
      case LineCmt =>
        if c == '\n' {
          state := Normal;
        }
      case BlockCmt =>
        if c == '*' && j < |body| && body[j] == '/' {
          stmt := stmt + ['/'];
          j := j + 1;
          state := Normal;
        }
      case Str =>
        if c == '\'' {
          if j < |body| && body[j] == '\'' {
            stmt := stmt + ['\''];
            j := j + 1;
          } else {
            state := Normal;
          }
        }
      case Dollar =>
        if c == '$' && dollarTag != "" && EndsWith(stmt, dollarTag) {
          state := Normal;
          dollarTag := "";
        }
      case BeginBlock =>
        beginDepth, state := CountKeyword(stmt, beginDepth);
      case Normal =>
    }
    next := Lexer(state, beginDepth, dollarTag, stmt);
  }

  /** The loop body in the normal state. */
  method NormalTurn(body: string, i: nat, l: Lexer) returns (next: Lexer, j: nat, closed: bool)
    requires i < |body| && l.mode.Normal?
    ensures i < j && Step(l, body[i..]) == Move(next, j - i, closed)
  {
    var c := body[i];
    closed := false;
    j := i + 1;
    var tag, length := ScanDollarTag(body, i);
    var isBegin := IsStandaloneKeyword(l.stmt + [c], "BEGIN");
    if c == '-' && j < |body| && body[j] == '-' {
      next := l.(stmt := l.stmt + [c], mode := LineCmt);
    } else if c == '/' && j < |body| && body[j] == '*' {
      next := l.(stmt := l.stmt + [c] + ['*'], mode := BlockCmt);
      j := j + 1;
    } else if c == '\'' {
      next := l.(stmt := l.stmt + [c], mode := Str);
    } else if c == '$' && length > 0 {
      next := l.(stmt := l.stmt + tag, tag := tag, mode := Dollar);
      j := i + length;
    } else if IsWord(c) {
      next := l.(stmt := l.stmt + [c]);
      if isBegin {
        next := next.(depth := next.depth + 1, mode := BeginBlock);
      }
    } else if c == ';' {
      closed := true;
      next := l.(stmt := "");
    } else {
      next := l.(stmt := l.stmt + [c]);
    }
  }

  lemma {:induction false} SplitTurn(out: seq<string>, l: Lexer, body: string, i: nat, m: Move)
    requires i < |body| && Step(l, body[i..]) == m
    ensures var done := if m.cut then out + Statements([l.stmt]) else out;
            out + SplitFrom(l, body[i..]) == done + SplitFrom(m.next, body[i + m.used..])
  {
    SplitStep(l, body[i..]);
    assert body[i..][m.used..] == body[i + m.used..];
    var rest := SplitFrom(m.next, body[i + m.used..]);
    if m.cut {
      assert out + (Statements([l.stmt]) + rest) == (out + Statements([l.stmt])) + rest;
    } else {
      assert [] + rest == rest;
    }
  }

  method SplitSQL(body: string) returns (out: seq<string>)
    ensures out == Split(body)
  {
    out := [];
    var l := START;
    var i := 0;
    while i < |body|
      invariant i <= |body|
      invariant out + SplitFrom(l, body[i..]) == Split(body)
    {
      var next, j, closed := l, i, false;
      if l.mode.Normal? {
        next, j, closed := NormalTurn(body, i, l);
      } else {
        next, j := InsideTurn(body, i, l);
      }
      SplitTurn(out, l, body, i, Move(next, j - i, closed));
      if closed {
        out := AppendTrimmed(out, l.stmt);
      }
      l, i := next, j;
    }
    assert body[i..] == "";
    assert Lex(l, "").Pieces() == [l.stmt];
    out := AppendTrimmed(out, l.stmt);
  }

  method AppendTrimmed(out: seq<string>, stmt: string) returns (r: seq<string>)
    ensures r == out + Statements([stmt])
  {
    var s := Trim(stmt);
    r := if s != "" then out + [s] else out;
  }
}
