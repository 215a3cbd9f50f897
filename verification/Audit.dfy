/** The audit stream: exporting write events as an HMAC chain and verifying such a stream. */
module Audit {
  import opened Wrappers
  import opened HashChain

  // ----- Keys -----

  datatype KeyPair = KeyPair(id: string, secret: string)

  datatype KeyError = EmptyId | TooShort(id: string) | NoKeys

  predicate GoodPair(p: KeyPair) {
    p.id != "" && |p.secret| >= 16
  }

  /** id -> secret; a later pair replaces an earlier one with the same id. */
  type Keyring = map<string, string>

  /** Pair i is the first that NewKeyring cannot use. */
  predicate FirstBad(pairs: seq<KeyPair>, i: nat) {
    i < |pairs| && !GoodPair(pairs[i]) && forall j | 0 <= j < i :: GoodPair(pairs[j])
  }

  predicate LastOf(pairs: seq<KeyPair>, i: nat, id: string) {
    i < |pairs| && pairs[i].id == id && forall j | i < j < |pairs| :: pairs[j].id != id
  }

  /** Exactly the given ids, each with the secret given last. */
  ghost predicate Holds(ring: Keyring, pairs: seq<KeyPair>) {
    && (forall i | 0 <= i < |pairs| :: pairs[i].id in ring)
    && (forall id | id in ring :: exists i: nat :: LastOf(pairs, i, id) && ring[id] == pairs[i].secret)
  }

  function KeyMap(pairs: seq<KeyPair>): Keyring {
    if pairs == [] then map[]
    else
      var last := pairs[|pairs| - 1];
      KeyMap(pairs[..|pairs| - 1])[last.id := last.secret]
  }

  lemma {:induction false} KeyMapIds(pairs: seq<KeyPair>, i: nat)
    requires i < |pairs|
    ensures pairs[i].id in KeyMap(pairs)
  {
    if i < |pairs| - 1 {
      KeyMapIds(pairs[..|pairs| - 1], i);
    }
  }

  lemma {:induction false} KeyMapLast(pairs: seq<KeyPair>, id: string) returns (i: nat)
    requires id in KeyMap(pairs)
    ensures LastOf(pairs, i, id) && KeyMap(pairs)[id] == pairs[i].secret
  {
    i := |pairs| - 1;
    if pairs[i].id != id {
      i := KeyMapLast(pairs[..i], id);
    }
  }

  lemma {:induction false} KeyMapHolds(pairs: seq<KeyPair>)
    ensures Holds(KeyMap(pairs), pairs) && (KeyMap(pairs) == map[] <==> pairs == [])
    ensures (forall i | 0 <= i < |pairs| :: GoodPair(pairs[i])) ==> GoodRing(KeyMap(pairs))
  {
    var ring := KeyMap(pairs);
    forall i | 0 <= i < |pairs| ensures pairs[i].id in ring {
      KeyMapIds(pairs, i);
    }
    forall id | id in ring ensures exists i: nat :: LastOf(pairs, i, id) && ring[id] == pairs[i].secret {
      var i := KeyMapLast(pairs, id);
    }
    if pairs != [] {
      KeyMapIds(pairs, 0);
    }
  }

  /** The error names the first pair that cannot be used, or there is none. */
  ghost predicate Blames(e: KeyError, pairs: seq<KeyPair>) {
    match e
    case NoKeys => pairs == []
    case EmptyId => exists i: nat :: FirstBad(pairs, i) && pairs[i].id == ""
    case TooShort(id) => exists i: nat :: FirstBad(pairs, i) && pairs[i].id == id != ""
  }

  lemma {:induction false} FirstBadBlamed(pairs: seq<KeyPair>, i: nat)
    requires FirstBad(pairs, i)
    ensures Blames(if pairs[i].id == "" then EmptyId else TooShort(pairs[i].id), pairs)
  {
  }

  method NewKeyring(pairs: seq<KeyPair>) returns (r: Result<Keyring, KeyError>)
    ensures r.Ok? <==> pairs != [] && forall i | 0 <= i < |pairs| :: pairs[i].id != "" && |pairs[i].secret| >= 16
    ensures r.Ok? ==> GoodRing(r.value) && r.value != map[] && Holds(r.value, pairs)
    ensures r.Err? ==> Blames(r.error, pairs)
  {
    var keys: Keyring := map[];
    for i := 0 to |pairs|
      invariant forall j | 0 <= j < i :: GoodPair(pairs[j])
      invariant keys == KeyMap(pairs[..i])
    {
      var p := pairs[i];
      if p.id == "" {
        FirstBadBlamed(pairs, i);
        return Err(EmptyId);
      }
      if |p.secret| < 16 {
        FirstBadBlamed(pairs, i);
        return Err(TooShort(p.id));
      }
      assert pairs[..i + 1][..i] == pairs[..i];
      keys := keys[p.id := p.secret];
    }
    assert pairs[..|pairs|] == pairs;
    KeyMapHolds(pairs);
    if |keys| == 0 {
      return Err(NoKeys);
    }
    return Ok(keys);
  }

  predicate GoodRing(ring: Keyring) {
    forall id | id in ring :: id != "" && |ring[id]| >= 16
  }

  // ----- Events and the chain -----

  /** The columns that are signed; the chain fields are cleared before signing. */
  datatype Columns = Columns(
    id: int, tableName: string, rowId: int, projectId: string, actor: string, sessionId: string, writePath: string,
    contentSha256: string, canaryPresent: bool, constitutionId: string, constitutionVer: string,
    sessionEvent: string, notes: string, createdAt: string)

  datatype WriteEvent<R> = WriteEvent(columns: Columns, chainPrev: R, chainSelf: R, chainKeyId: string)

  /** Block size of SHA-256 in bytes. */
  const BLOCK := 64

  function Pad(key: string): string {
    if |key| < BLOCK then key + seq(BLOCK - |key|, _ => 0 as char) else key
  }

  /**
   * HMAC-SHA256 over (previous link || JSON of the columns). As in section 2 of RFC 2104 a secret longer than a
   * block is hashed first, and then zeros fill the block, so digest sees the padded key. Links stand for their hex text.
   */
  datatype Mac<!R> = Mac(hashKey: string -> string, digest: (string, R, Columns) -> R, empty: R)
  {
    function BlockKey(secret: string): string {
      Pad(if |secret| > BLOCK then hashKey(secret) else secret)
    }

    function Sign(secret: string, prev: R, c: Columns): R {
      digest(BlockKey(secret), prev, c)
    }

    /** Items pair the padded key with the columns. */
    function Chain(): Chainer<R, (string, Columns)> {
      Chainer((prev: R, item: (string, Columns)) => digest(item.0, prev, item.1), empty)
    }
  }

  /** A digest is never the empty text. */
  ghost predicate NonEmpty<R(!new)>(m: Mac<R>) {
    forall secret, prev, c :: m.Sign(secret, prev, c) != m.empty
  }

  /** Under one secret and after one link, different columns are signed differently. */
  ghost predicate SeparatesColumns<R(!new)>(m: Mac<R>) {
    forall secret, prev, c, d :: m.Sign(secret, prev, c) == m.Sign(secret, prev, d) ==> c == d
  }

  function ComputeChain<R>(m: Mac<R>, secret: string, prev: R, ev: WriteEvent<R>): Result<R, string> {
    if |secret| == 0 then Err("empty secret") else Ok(m.Sign(secret, prev, ev.columns))
  }

  // ----- Export -----

  function Reversed<T>(s: seq<T>): (r: seq<T>)
    ensures |r| == |s| && forall i | 0 <= i < |s| :: r[i] == s[|s| - 1 - i]
  {
    seq(|s|, i requires 0 <= i < |s| => s[|s| - 1 - i])
  }

  method ReverseInPlace<T>(s: array<T>)
    modifies s
    ensures s[..] == Reversed(old(s[..]))
  {
    var i, j := 0, s.Length - 1;
    while i < j
      invariant 0 <= i && j == s.Length - 1 - i && i <= j + 1
      invariant forall k | 0 <= k < i || j < k < s.Length :: s[k] == old(s[s.Length - 1 - k])
      invariant forall k | i <= k <= j :: s[k] == old(s[k])
    {
      s[i], s[j] := s[j], s[i];
      i, j := i + 1, j - 1;
    }
  }

  /** Each event stamped with the previous link, its own link and the key id. */
  function Stamped<R>(m: Mac<R>, secret: string, keyId: string, prev: R, events: seq<WriteEvent<R>>): seq<WriteEvent<R>> {
    if events == [] then []
    else
      var self := m.Sign(secret, prev, events[0].columns);
      [WriteEvent(events[0].columns, prev, self, keyId)] + Stamped(m, secret, keyId, self, events[1..])
  }

  datatype ExportError = KeyNotInRing | EmptySecret

  /**
   * rows arrives newest first and is reversed in place. primary is whichever key the map yields first,
   * and is outside the ring only when the ring is empty.
   */
  method ExportJSONL<R>(m: Mac<R>, ring: Keyring, keyId: string, primary: string, rows: array<WriteEvent<R>>)
      returns (out: seq<WriteEvent<R>>, count: nat, err: Option<ExportError>)
    modifies rows
    ensures count == |out|
    ensures var id := if keyId != "" then keyId else primary;
            if id !in ring then err == Some(KeyNotInRing) && out == [] && rows[..] == old(rows[..])
            else
              rows[..] == Reversed(old(rows[..])) &&
              if ring[id] == "" && rows.Length > 0 then err == Some(EmptySecret) && out == []
              else err == None && out == Stamped(m, ring[id], id, m.empty, Reversed(old(rows[..])))
  {
    var id := if keyId != "" then keyId else primary;
    if id !in ring {
      return [], 0, Some(KeyNotInRing);
    }
    ReverseInPlace(rows);
    out, count, err := WriteChain(m, ring[id], id, rows);
  }

  lemma {:induction false} StampedStep<R>(m: Mac<R>, secret: string, id: string, prev: R, rows: seq<WriteEvent<R>>, i: nat)
    requires i < |rows|
    ensures var self := m.Sign(secret, prev, rows[i].columns);
            Stamped(m, secret, id, prev, rows[i..]) ==
            [WriteEvent(rows[i].columns, prev, self, id)] + Stamped(m, secret, id, self, rows[i + 1..])
  {
    assert rows[i..][1..] == rows[i + 1..];
  }

  lemma {:induction false} Shift<T>(a: seq<T>, b: seq<T>)
    requires b != []
    ensures a + b == (a + [b[0]]) + b[1..]
  {
  }

  method WriteChain<R>(m: Mac<R>, secret: string, id: string, rows: array<WriteEvent<R>>)
      returns (out: seq<WriteEvent<R>>, count: nat, err: Option<ExportError>)
    ensures count == |out|
    ensures if secret == "" && rows.Length > 0 then err == Some(EmptySecret) && out == []
            else err == None && out == Stamped(m, secret, id, m.empty, rows[..])
  {
    out := [];
    var prev := m.empty;
    ghost var all := rows[..];
    ghost var rest := Stamped(m, secret, id, prev, all);
    assert all[0..] == all;
    for i := 0 to rows.Length
      invariant |out| == i && (i > 0 ==> secret != "")
      invariant rest == Stamped(m, secret, id, prev, all[i..])
      invariant out + rest == Stamped(m, secret, id, m.empty, all)
    {
      var ev := rows[i];
      var self := ComputeChain(m, secret, prev, ev);
      if self.Err? {
        return out, i, Some(EmptySecret);
      }
      StampedStep(m, secret, id, prev, all, i);
      Shift(out, rest);
      rest := rest[1..];
      out := out + [WriteEvent(ev.columns, prev, self.value, id)];
      prev := self.value;
    }
    return out, rows.Length, None;
  }

  // ----- Verification -----

  datatype Line<R> = Blank | Garbage(id: int) | Row(event: WriteEvent<R>)

  datatype Status = OK | Broken | UnknownKey | Malformed

  datatype Report = Report(status: Status, rowsVerified: nat, firstBadId: int, keyId: string) | EmptyStream | ZeroRows

  /** The check of one row against the link before it. */
  function CheckRow<R(==)>(m: Mac<R>, ring: Keyring, prev: R, ev: WriteEvent<R>): Status {
    if ev.chainSelf == m.empty || ev.chainKeyId == "" then Malformed
    else if ev.chainKeyId !in ring then UnknownKey
    else if ev.chainPrev != prev then Broken
    else if |ring[ev.chainKeyId]| == 0 then Broken
    else if m.Sign(ring[ev.chainKeyId], prev, ev.columns) != ev.chainSelf then Broken
    else OK
  }

  function Rows<R>(lines: seq<Line<R>>): seq<WriteEvent<R>> {
    if lines == [] then []
    else if lines[0].Row? then [lines[0].event] + Rows(lines[1..])
    else Rows(lines[1..])
  }

  /** Every row continues the chain that starts at prev. */
  predicate Continues<R(==)>(m: Mac<R>, ring: Keyring, prev: R, rows: seq<WriteEvent<R>>) {
    rows == [] || (CheckRow(m, ring, prev, rows[0]) == OK && Continues(m, ring, rows[0].chainSelf, rows[1..]))
  }

  function LastLink<R>(prev: R, rows: seq<WriteEvent<R>>): R {
    if rows == [] then prev else rows[|rows| - 1].chainSelf
  }

  predicate NoGarbage<R>(lines: seq<Line<R>>) {
    forall i | 0 <= i < |lines| :: !lines[i].Garbage?
  }

  /** What an OK report stands for. */
  ghost predicate Accepts<R>(m: Mac<R>, ring: Keyring, lines: seq<Line<R>>) {
    NoGarbage(lines) && Rows(lines) != [] && Continues(m, ring, m.empty, Rows(lines))
  }

  /** Lines up to n are fine and line n is the first that is not, with this status and id. */
  ghost predicate StopsAt<R>(m: Mac<R>, ring: Keyring, lines: seq<Line<R>>, n: nat, status: Status, id: int) {
    && n < |lines| && NoGarbage(lines[..n]) && Continues(m, ring, m.empty, Rows(lines[..n]))
    && match lines[n]
       case Blank => false
       case Garbage(bad) => status == Malformed && id == bad
       case Row(ev) =>
         status == CheckRow(m, ring, LastLink(m.empty, Rows(lines[..n])), ev) && status != OK && id == ev.columns.id
  }

  method VerifyJSONL<R(==)>(m: Mac<R>, ring: Keyring, lines: seq<Line<R>>) returns (rep: Report)
    ensures rep.EmptyStream? <==> lines == []
    ensures rep.ZeroRows? <==> lines != [] && NoGarbage(lines) && Rows(lines) == []
    ensures rep.Report? && rep.status == OK <==> Accepts(m, ring, lines)
    ensures rep.Report? && rep.status == OK ==>
              rep.rowsVerified == |Rows(lines)| && rep.keyId == Rows(lines)[|Rows(lines)| - 1].chainKeyId
    ensures rep.Report? && rep.status != OK ==>
              exists n: nat :: StopsAt(m, ring, lines, n, rep.status, rep.firstBadId) && rep.rowsVerified == |Rows(lines[..n])|
  {
    var prev := m.empty;
    var verified, keyId := 0, "";
    for i := 0 to |lines|
      invariant NoGarbage(lines[..i]) && Continues(m, ring, m.empty, Rows(lines[..i]))
      invariant prev == LastLink(m.empty, Rows(lines[..i])) && verified == |Rows(lines[..i])|
      invariant verified > 0 ==> keyId == Rows(lines[..i])[verified - 1].chainKeyId
    {
      RowsSnoc(lines, i);
      match lines[i] {
        case Blank =>
        case Garbage(bad) =>
          assert StopsAt(m, ring, lines, i, Malformed, bad);
          StopRejects(m, ring, lines, i, Malformed, bad);
          return Report(Malformed, verified, bad, keyId);
        case Row(ev) =>
          var status := CheckRow(m, ring, prev, ev);
          if status != OK {
            assert StopsAt(m, ring, lines, i, status, ev.columns.id);
            StopRejects(m, ring, lines, i, status, ev.columns.id);
            return Report(status, verified, ev.columns.id, keyId);
          }
          ContinuesSnoc(m, ring, m.empty, Rows(lines[..i]), ev);
          verified := verified + 1;
          keyId := ev.chainKeyId;
          prev := ev.chainSelf;
      }
    }
    assert lines[..|lines|] == lines;
    if |lines| == 0 {
      return EmptyStream;
    }
    if verified == 0 {
      return ZeroRows;
    }
    return Report(OK, verified, 0, keyId);
  }

  lemma {:induction false} RowsAppend<R>(a: seq<Line<R>>, b: seq<Line<R>>)
    ensures Rows(a + b) == Rows(a) + Rows(b)
  {
    if a == [] {
      assert a + b == b;
    } else {
      assert (a + b)[1..] == a[1..] + b;
      RowsAppend(a[1..], b);
    }
  }

  lemma {:induction false} RowsSnoc<R>(lines: seq<Line<R>>, i: nat)
    requires i < |lines|
    ensures Rows(lines[..i + 1]) == if lines[i].Row? then Rows(lines[..i]) + [lines[i].event] else Rows(lines[..i])
    ensures NoGarbage(lines[..i + 1]) <==> NoGarbage(lines[..i]) && !lines[i].Garbage?
  {
    assert lines[..i + 1] == lines[..i] + [lines[i]];
    RowsAppend(lines[..i], [lines[i]]);
    assert Rows([lines[i]]) == if lines[i].Row? then [lines[i].event] else [];
    assert lines[..i + 1][i] == lines[i] && forall j | 0 <= j < i :: lines[..i + 1][j] == lines[..i][j];
  }

  lemma {:induction false} ContinuesSnoc<R>(m: Mac<R>, ring: Keyring, prev: R, rows: seq<WriteEvent<R>>, ev: WriteEvent<R>)
    ensures Continues(m, ring, prev, rows + [ev]) <==>
            Continues(m, ring, prev, rows) && CheckRow(m, ring, LastLink(prev, rows), ev) == OK
    decreases |rows|
  {
    if rows == [] {
      assert rows + [ev] == [ev];
    } else {
      assert (rows + [ev])[0] == rows[0] && (rows + [ev])[1..] == rows[1..] + [ev];
      ContinuesSnoc(m, ring, rows[0].chainSelf, rows[1..], ev);
      assert LastLink(prev, rows) == LastLink(rows[0].chainSelf, rows[1..]);
    }
  }

  lemma {:induction false} ContinuesPrefix<R>(m: Mac<R>, ring: Keyring, prev: R, a: seq<WriteEvent<R>>, b: seq<WriteEvent<R>>)
    requires Continues(m, ring, prev, a + b)
    ensures Continues(m, ring, prev, a)
    decreases |a|
  {
    if a != [] {
      assert (a + b)[0] == a[0] && (a + b)[1..] == a[1..] + b;
      ContinuesPrefix(m, ring, a[0].chainSelf, a[1..], b);
    }
  }

  lemma {:induction false} StopRejects<R>(m: Mac<R>, ring: Keyring, lines: seq<Line<R>>, n: nat, status: Status, id: int)
    requires StopsAt(m, ring, lines, n, status, id)
    ensures !Accepts(m, ring, lines)
    ensures NoGarbage(lines) ==> Rows(lines) != []
  {
    RowsSnoc(lines, n);
    RowsAppend(lines[..n + 1], lines[n + 1..]);
    assert lines == lines[..n + 1] + lines[n + 1..];
    if Accepts(m, ring, lines) {
      ContinuesPrefix(m, ring, m.empty, Rows(lines[..n + 1]), Rows(lines[n + 1..]));
      ContinuesSnoc(m, ring, m.empty, Rows(lines[..n]), lines[n].event);
      assert false;
    }
  }

  /** Why verification stops at a row: it is incomplete, its key is not in the ring, or it does not continue the chain. */
  lemma {:induction false} StopStatus<R>(m: Mac<R>, ring: Keyring, lines: seq<Line<R>>, n: nat, status: Status, id: int)
    requires StopsAt(m, ring, lines, n, status, id) && lines[n].Row?
    ensures var ev := lines[n].event;
            var complete, known := ev.chainSelf != m.empty && ev.chainKeyId != "", ev.chainKeyId in ring;
            && id == ev.columns.id && status != OK
            && (status == Malformed <==> !complete)
            && (status == UnknownKey <==> complete && !known)
            && (status == Broken <==> complete && known)
  {
  }

  /** An export under an id that the ring does not hold stops at its first row as an unknown key. */
  lemma {:induction false} ForeignKeyReported<R(!new)>(m: Mac<R>, ring: Keyring, secret: string, keyId: string, events: seq<WriteEvent<R>>)
    requires CollisionFree(m.Chain()) && events != [] && keyId != "" && keyId !in ring
    ensures StopsAt(m, ring, AsLines(Stamped(m, secret, keyId, m.empty, events)), 0, UnknownKey, events[0].columns.id)
  {
    var out := Stamped(m, secret, keyId, m.empty, events);
    SignIsNonEmpty(m);
    assert AsLines(out)[..0] == [];
    assert out[0] == WriteEvent(events[0].columns, m.empty, m.Sign(secret, m.empty, events[0].columns), keyId);
  }

  // ----- Export and verification belong together -----

  function AsLines<R>(rows: seq<WriteEvent<R>>): (lines: seq<Line<R>>)
    ensures |lines| == |rows| && NoGarbage(lines)
  {
    seq(|rows|, i requires 0 <= i < |rows| => Row(rows[i]))
  }

  lemma {:induction false} RowsOfLines<R>(rows: seq<WriteEvent<R>>)
    ensures Rows(AsLines(rows)) == rows
  {
    if rows != [] {
      assert AsLines(rows)[1..] == AsLines(rows[1..]);
      RowsOfLines(rows[1..]);
    }
  }

  lemma {:induction false} StampedColumns<R>(m: Mac<R>, secret: string, keyId: string, prev: R, events: seq<WriteEvent<R>>)
    ensures var out := Stamped(m, secret, keyId, prev, events);
            |out| == |events| && forall i | 0 <= i < |out| :: out[i].columns == events[i].columns
  {
    if events != [] {
      StampedColumns(m, secret, keyId, m.Sign(secret, prev, events[0].columns), events[1..]);
    }
  }

  lemma {:induction false} StampedContinues<R(!new)>(m: Mac<R>, ring: Keyring, keyId: string, prev: R, events: seq<WriteEvent<R>>)
    requires NonEmpty(m) && keyId != "" && keyId in ring && ring[keyId] != ""
    ensures Continues(m, ring, prev, Stamped(m, ring[keyId], keyId, prev, events))
    decreases |events|
  {
    if events != [] {
      var self := m.Sign(ring[keyId], prev, events[0].columns);
      StampedContinues(m, ring, keyId, self, events[1..]);
      var out := Stamped(m, ring[keyId], keyId, prev, events);
      assert out[1..] == Stamped(m, ring[keyId], keyId, self, events[1..]);
    }
  }

  /** A non-empty export verifies under exactly the rings whose secret for its id is its own up to zero padding. */
  lemma {:induction false} ExportVerifiesIff<R(!new)>(m: Mac<R>, ring: Keyring, secret: string, keyId: string, events: seq<WriteEvent<R>>)
    requires CollisionFree(m.Chain()) && events != [] && secret != ""
    ensures var out := Stamped(m, secret, keyId, m.empty, events);
            (Accepts(m, ring, AsLines(out)) <==> UsableKey(ring, keyId) && m.BlockKey(ring[keyId]) == m.BlockKey(secret)) &&
            |Rows(AsLines(out))| == |events| &&
            forall i | 0 <= i < |events| :: Rows(AsLines(out))[i].columns == events[i].columns
  {
    var out := Stamped(m, secret, keyId, m.empty, events);
    RowsOfLines(out);
    StampedColumns(m, secret, keyId, m.empty, events);
    SignIsNonEmpty(m);
    if UsableKey(ring, keyId) && m.BlockKey(ring[keyId]) == m.BlockKey(secret) {
      SameBlockKey(m, secret, ring[keyId], keyId, m.empty, events);
      StampedContinues(m, ring, keyId, m.empty, events);
    }
    if Accepts(m, ring, AsLines(out)) {
      var c := events[0].columns;
      assert m.Chain().step(m.empty, (m.BlockKey(ring[keyId]), c)) == m.Chain().step(m.empty, (m.BlockKey(secret), c));
    }
  }

  lemma {:induction false} SameBlockKey<R>(m: Mac<R>, k: string, l: string, keyId: string, prev: R, events: seq<WriteEvent<R>>)
    requires m.BlockKey(k) == m.BlockKey(l)
    ensures Stamped(m, k, keyId, prev, events) == Stamped(m, l, keyId, prev, events)
  {
    if events != [] {
      SameBlockKey(m, k, l, keyId, m.Sign(k, prev, events[0].columns), events[1..]);
    }
  }

  /** A secret shorter than a block and the same secret with a zero byte behind it are one key. */
  lemma {:induction false} ZeroByteIsPadding<R>(m: Mac<R>, secret: string)
    requires |secret| < 64
    ensures m.BlockKey(secret + [0 as char]) == m.BlockKey(secret)
  {
  }

  /** So an export under one of them verifies under a ring that holds the other. */
  lemma {:induction false} PaddedSecretVerifies<R(!new)>(m: Mac<R>, secret: string, keyId: string, events: seq<WriteEvent<R>>)
    requires CollisionFree(m.Chain()) && events != [] && 0 < |secret| < 64 && keyId != ""
    ensures secret + [0 as char] != secret
    ensures Accepts(m, map[keyId := secret + [0 as char]], AsLines(Stamped(m, secret, keyId, m.empty, events)))
  {
    ZeroByteIsPadding(m, secret);
    ExportVerifiesIff(m, map[keyId := secret + [0 as char]], secret, keyId, events);
  }

  lemma {:induction false} SignIsNonEmpty<R(!new)>(m: Mac<R>)
    requires CollisionFree(m.Chain())
    ensures NonEmpty(m)
  {
    forall secret, prev, c ensures m.Sign(secret, prev, c) != m.empty {
      assert m.Chain().step(prev, (m.BlockKey(secret), c)) == m.Sign(secret, prev, c);
    }
  }

  /** The rows stamped afresh, each with the key it names. */
  function Restamped<R>(m: Mac<R>, ring: Keyring, prev: R, rows: seq<WriteEvent<R>>): seq<WriteEvent<R>> {
    if rows == [] then []
    else
      var id := rows[0].chainKeyId;
      var self := m.Sign(if id in ring then ring[id] else "", prev, rows[0].columns);
      [WriteEvent(rows[0].columns, prev, self, id)] + Restamped(m, ring, self, rows[1..])
  }

  predicate UsableKey(ring: Keyring, id: string) {
    id != "" && id in ring && ring[id] != ""
  }

  /** An accepted stream is exactly the chain rebuilt from its own stripped events, starting at the empty link. */
  lemma {:induction false} AcceptedIsRestamped<R(!new)>(m: Mac<R>, ring: Keyring, prev: R, rows: seq<WriteEvent<R>>)
    requires NonEmpty(m)
    ensures Continues(m, ring, prev, rows) <==>
            rows == Restamped(m, ring, prev, rows) && forall i | 0 <= i < |rows| :: UsableKey(ring, rows[i].chainKeyId)
    decreases |rows|
  {
    if rows != [] {
      var id := rows[0].chainKeyId;
      var self := m.Sign(if id in ring then ring[id] else "", prev, rows[0].columns);
      AcceptedIsRestamped(m, ring, self, rows[1..]);
      var first := WriteEvent(rows[0].columns, prev, self, id);
      assert rows == Restamped(m, ring, prev, rows) <==>
             rows[0] == first && rows[1..] == Restamped(m, ring, self, rows[1..]) by {
        assert Restamped(m, ring, prev, rows)[0] == first;
        assert Restamped(m, ring, prev, rows)[1..] == Restamped(m, ring, self, rows[1..]);
        assert rows == [rows[0]] + rows[1..];
      }
      AllFromTail(ring, rows);
    }
  }

  lemma {:induction false} AllFromTail<R>(ring: Keyring, rows: seq<WriteEvent<R>>)
    requires rows != []
    ensures (forall i | 0 <= i < |rows| :: UsableKey(ring, rows[i].chainKeyId)) <==>
            UsableKey(ring, rows[0].chainKeyId) &&
            forall i | 0 <= i < |rows[1..]| :: UsableKey(ring, rows[1..][i].chainKeyId)
  {
    if forall i | 0 <= i < |rows[1..]| :: UsableKey(ring, rows[1..][i].chainKeyId) {
      forall i | 1 <= i < |rows| ensures UsableKey(ring, rows[i].chainKeyId) {
        assert rows[1..][i - 1] == rows[i];
      }
    }
    if forall i | 0 <= i < |rows| :: UsableKey(ring, rows[i].chainKeyId) {
      forall i | 0 <= i < |rows[1..]| ensures UsableKey(ring, rows[1..][i].chainKeyId) {
        assert rows[1..][i] == rows[i + 1];
      }
    }
  }

  /** Acceptance is closed under prefixes that still hold a row. */
  lemma {:induction false} PrefixAccepted<R>(m: Mac<R>, ring: Keyring, lines: seq<Line<R>>, n: nat)
    requires Accepts(m, ring, lines) && n <= |lines| && Rows(lines[..n]) != []
    ensures Accepts(m, ring, lines[..n])
  {
    assert lines == lines[..n] + lines[n..];
    RowsAppend(lines[..n], lines[n..]);
    ContinuesPrefix(m, ring, m.empty, Rows(lines[..n]), Rows(lines[n..]));
  }

  // ----- Tampering -----

  function Items<R>(m: Mac<R>, ring: Keyring, rows: seq<WriteEvent<R>>): (items: seq<(string, Columns)>)
    ensures |items| == |rows|
  {
    seq(|rows|, i requires 0 <= i < |rows| =>
      (m.BlockKey(if rows[i].chainKeyId in ring then ring[rows[i].chainKeyId] else ""), rows[i].columns))
  }

  function Selves<R>(rows: seq<WriteEvent<R>>): (links: seq<R>)
    ensures |links| == |rows|
  {
    seq(|rows|, i requires 0 <= i < |rows| => rows[i].chainSelf)
  }

  lemma {:induction false} ContinuesIsHonest<R>(m: Mac<R>, ring: Keyring, rows: seq<WriteEvent<R>>)
    requires Continues(m, ring, m.empty, rows)
    ensures Honest(m.Chain(), Items(m, ring, rows), Selves(rows))
    ensures LastLink(m.empty, rows) == m.Chain().Head(Items(m, ring, rows))
    decreases |rows|
  {
    if rows != [] {
      var n := |rows| - 1;
      var init, last := rows[..n], rows[n];
      assert rows == init + [last];
      ContinuesPrefix(m, ring, m.empty, init, [last]);
      ContinuesSnoc(m, ring, m.empty, init, last);
      ContinuesIsHonest(m, ring, init);
      var item := (m.BlockKey(ring[last.chainKeyId]), last.columns);
      assert Items(m, ring, rows) == Items(m, ring, init) + [item] && Selves(rows) == Selves(init) + [last.chainSelf];
      HonestSnoc(m.Chain(), Items(m, ring, init), Selves(init), item, last.chainSelf);
      assert (Items(m, ring, init) + [item])[..n] == Items(m, ring, init);
    } else {
      assert Items(m, ring, rows) == [];
    }
  }

  /** Changing the signed columns of one row of an accepted stream, the canary flag included, stops verification there. */
  lemma {:induction false} TamperReported<R(!new)>(m: Mac<R>, ring: Keyring, rows: seq<WriteEvent<R>>, i: nat, c: Columns)
    requires SeparatesColumns(m) && Continues(m, ring, m.empty, rows) && i < |rows| && c != rows[i].columns
    ensures StopsAt(m, ring, AsLines(rows[i := rows[i].(columns := c)]), i, Broken, c.id)
  {
    var bad := rows[i].(columns := c);
    var lines := AsLines(rows[i := bad]);
    assert lines[..i] == AsLines(rows[..i]);
    RowsOfLines(rows[..i]);
    assert rows == rows[..i + 1] + rows[i + 1..] && rows[..i + 1] == rows[..i] + [rows[i]];
    ContinuesPrefix(m, ring, m.empty, rows[..i + 1], rows[i + 1..]);
    ContinuesSnoc(m, ring, m.empty, rows[..i], rows[i]);
    var prev, secret := LastLink(m.empty, rows[..i]), ring[rows[i].chainKeyId];
    assert m.Sign(secret, prev, c) != m.Sign(secret, prev, rows[i].columns);
  }

  /** Dropping, repeating or reordering rows of an accepted stream is accepted iff a non-empty prefix remains. */
  lemma {:induction false} PickedIffPrefix<R(!new)>(m: Mac<R>, ring: Keyring, rows: seq<WriteEvent<R>>, picked: seq<WriteEvent<R>>, from: seq<nat>)
    requires CollisionFree(m.Chain()) && Continues(m, ring, m.empty, rows)
    requires |from| == |picked| && forall j | 0 <= j < |from| :: from[j] < |rows| && picked[j] == rows[from[j]]
    ensures Accepts(m, ring, AsLines(picked)) <==> picked != [] && picked <= rows
  {
    RowsOfLines(picked);
    if picked <= rows {
      assert rows == picked + rows[|picked|..];
      ContinuesPrefix(m, ring, m.empty, picked, rows[|picked|..]);
    }
    if Continues(m, ring, m.empty, picked) {
      PickedInOrder(m, ring, rows, picked, from);
    }
  }

  lemma {:induction false} PickedInOrder<R(!new)>(m: Mac<R>, ring: Keyring, rows: seq<WriteEvent<R>>, picked: seq<WriteEvent<R>>, from: seq<nat>)
    requires CollisionFree(m.Chain()) && Continues(m, ring, m.empty, rows) && Continues(m, ring, m.empty, picked)
    requires |from| == |picked| && forall j | 0 <= j < |from| :: from[j] < |rows| && picked[j] == rows[from[j]]
    ensures picked <= rows
  {
    ContinuesIsHonest(m, ring, rows);
    ContinuesIsHonest(m, ring, picked);
    PickedIsPrefix(m.Chain(), Items(m, ring, rows), Selves(rows), Items(m, ring, picked), Selves(picked), from);
    assert forall j | 0 <= j < |picked| :: picked[j] == rows[from[j]] == rows[j];
  }

  /** The key id only selects a secret: acceptance is the same under any other id with that secret. */
  lemma {:induction false} KeyIdIsALabel<R>(m: Mac<R>, ring: Keyring, prev: R, rows: seq<WriteEvent<R>>, i: nat, id: string)
    requires Continues(m, ring, prev, rows) && i < |rows|
    requires UsableKey(ring, id) && rows[i].chainKeyId in ring && ring[id] == ring[rows[i].chainKeyId]
    ensures Continues(m, ring, prev, rows[i := rows[i].(chainKeyId := id)])
    decreases |rows|
  {
    var out := rows[i := rows[i].(chainKeyId := id)];
    if i > 0 {
      assert out[0] == rows[0] && out[1..] == rows[1..][i - 1 := rows[i].(chainKeyId := id)];
      KeyIdIsALabel(m, ring, rows[0].chainSelf, rows[1..], i - 1, id);
    } else {
      assert out[1..] == rows[1..];
    }
  }

  // ----- The documented fallback to other keys -----

  /** Some usable key of the ring signed this row after prev. */
  ghost predicate SignedBy<R>(m: Mac<R>, ring: Keyring, prev: R, ev: WriteEvent<R>, id: string) {
    UsableKey(ring, id) && m.Sign(ring[id], prev, ev.columns) == ev.chainSelf
  }

  /** The documented check: the declared key first, then every other known key. */
  ghost function DocCheckRow<R>(m: Mac<R>, ring: Keyring, prev: R, ev: WriteEvent<R>): Status {
    if CheckRow(m, ring, prev, ev) == OK then OK
    else if ev.chainSelf != m.empty && ev.chainKeyId != "" && ev.chainPrev == prev && exists id :: SignedBy(m, ring, prev, ev, id)
    then OK
    else CheckRow(m, ring, prev, ev)
  }

  /** The ring's secret for the declared id is, up to padding, the one under this id. */
  predicate DeclaresKeyOf<R>(m: Mac<R>, ring: Keyring, ev: WriteEvent<R>, id: string)
    requires id in ring
  {
    UsableKey(ring, ev.chainKeyId) && m.BlockKey(ring[ev.chainKeyId]) == m.BlockKey(ring[id])
  }

  /** The fallback matters exactly for complete rows in their place whose signing key is not the one they declare. */
  lemma {:induction false} FallbackIff<R(!new)>(m: Mac<R>, ring: Keyring, prev: R, ev: WriteEvent<R>)
    requires CollisionFree(m.Chain())
    ensures CheckRow(m, ring, prev, ev) == DocCheckRow(m, ring, prev, ev) <==>
            ev.chainSelf == m.empty || ev.chainKeyId == "" || ev.chainPrev != prev ||
            forall id | id in ring && SignedBy(m, ring, prev, ev, id) :: DeclaresKeyOf(m, ring, ev, id)
  {
    forall id | id in ring && SignedBy(m, ring, prev, ev, id)
      ensures ev.chainSelf != m.empty && ev.chainKeyId != "" && ev.chainPrev == prev ==>
              (CheckRow(m, ring, prev, ev) == OK <==> DeclaresKeyOf(m, ring, ev, id))
    {
      if UsableKey(ring, ev.chainKeyId) && m.Sign(ring[ev.chainKeyId], prev, ev.columns) == ev.chainSelf {
        var item, declared := (m.BlockKey(ring[id]), ev.columns), (m.BlockKey(ring[ev.chainKeyId]), ev.columns);
        assert m.Chain().step(prev, item) == m.Chain().step(prev, declared);
      }
    }
  }

  /** A row signed with a key of the ring but labelled with another known id, or an unknown one, is not accepted. */
  lemma {:induction false} MislabelledRowRejected<R(!new)>(m: Mac<R>, ring: Keyring, prev: R, c: Columns, id: string, named: string)
    requires CollisionFree(m.Chain()) && UsableKey(ring, id) && named != ""
    requires named in ring ==> m.BlockKey(ring[named]) != m.BlockKey(ring[id])
    ensures var ev := WriteEvent(c, prev, m.Sign(ring[id], prev, c), named);
            CheckRow(m, ring, prev, ev) == (if named in ring then Broken else UnknownKey) && DocCheckRow(m, ring, prev, ev) == OK
  {
    var ev := WriteEvent(c, prev, m.Sign(ring[id], prev, c), named);
    SignIsNonEmpty(m);
    assert SignedBy(m, ring, prev, ev, id);
    if named in ring {
      assert m.Chain().step(prev, (m.BlockKey(ring[named]), c)) != m.Chain().step(prev, (m.BlockKey(ring[id]), c));
    }
  }

  /** The assumptions on the digest can be met. */
  lemma {:induction false} SoundMacExists()
    ensures exists m: Mac<Term<(string, Columns)>> :: CollisionFree(m.Chain()) && SeparatesColumns(m)
  {
    var m: Mac<Term<(string, Columns)>> :=
      Mac((k: string) => k, (k: string, p: Term<(string, Columns)>, c: Columns) => Node(p, (k, c)), Start);
    assert CollisionFree(m.Chain()) && SeparatesColumns(m);
  }

  /** Signing the row as documented, with the canary flag cleared, gives the same link exactly when the flag is clear. */
  lemma {:induction false} CanaryClearedIff<R(!new)>(m: Mac<R>, secret: string, prev: R, c: Columns)
    requires SeparatesColumns(m)
    ensures m.Sign(secret, prev, c) == m.Sign(secret, prev, c.(canaryPresent := false)) <==> !c.canaryPresent
  {
    var cleared := c.(canaryPresent := false);
    assert m.Sign(secret, prev, c) == m.Sign(secret, prev, cleared) ==> c == cleared;
  }
}
