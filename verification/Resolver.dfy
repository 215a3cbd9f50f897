/** Bounded artifact reads: byte caps, ranges, read limits, and the capped output buffer. */
module Resolver {
  import opened Wrappers

  newtype byte = x: int | 0 <= x < 256

  const DEFAULT_MAX_BYTES := 256 * 1024
  const HARD_MAX_BYTES := 4 * 1024 * 1024

  /** A byte window; end 0 means "to the end of the source". */
  datatype Range = Range(start: int, end: int)

  datatype Resolved = Resolved(bytes: seq<byte>, truncated: bool)

  datatype Failure =
    | SizeExceeded
    | SliceOutOfRange // the program stops: a slice with a negative bound

  function EffectiveMaxBytes(maxBytes: int): (cap: nat)
    ensures 1 <= cap <= 4194304
    ensures maxBytes > 0 ==> cap <= maxBytes && (cap == maxBytes || cap == 4194304)
    ensures maxBytes <= 0 ==> cap == 262144
  {
    if maxBytes <= 0 then DEFAULT_MAX_BYTES
    else if maxBytes > HARD_MAX_BYTES then HARD_MAX_BYTES
    else maxBytes
  }

  predicate FitsCap(rng: Option<Range>, cap: nat) {
    match rng
    case None => true
    case Some(r) =>
      var end := if r.end == 0 then r.start + cap else r.end;
      var start := if r.start < 0 then 0 else r.start;
      end - start <= cap
  }

  function ApplyRange(b: seq<byte>, rng: Option<Range>): Result<Resolved, Failure> {
    match rng
    case None => Ok(Resolved(b, false))
    case Some(r) =>
      var end := if r.end == 0 || r.end > |b| then |b| else r.end;
      var low := if r.start < 0 then 0 else r.start;
      var start := if low > end then end else low;
      if start < 0 then Err(SliceOutOfRange) else Ok(Resolved(b[start..end], true))
  }

  function ReadLimit(cap: nat, rng: Option<Range>): nat {
    if rng.Some? && rng.value.end > 0 && rng.value.end + 1 > cap + 1 then rng.value.end + 1 else cap + 1
  }

  function Take(b: seq<byte>, n: nat): seq<byte> {
    if n <= |b| then b[..n] else b
  }

  /** Window the bytes that were read, then cut to the cap. */
  function Finish(b: seq<byte>, rng: Option<Range>, cap: nat): Result<Resolved, Failure> {
    match ApplyRange(b, rng)
    case Err(e) => Err(e)
    case Ok(w) => if |w.bytes| > cap then Ok(Resolved(w.bytes[..cap], true)) else Ok(w)
  }

  /** A source that is already in memory is windowed whole. */
  function ResolveWhole(source: seq<byte>, maxBytes: int, rng: Option<Range>): Result<Resolved, Failure> {
    var cap := EffectiveMaxBytes(maxBytes);
    if !FitsCap(rng, cap) then Err(SizeExceeded) else Finish(source, rng, cap)
  }

  /** Any other source is read up to the limit first. */
  function ResolveLimited(source: seq<byte>, maxBytes: int, rng: Option<Range>): Result<Resolved, Failure> {
    var cap := EffectiveMaxBytes(maxBytes);
    if !FitsCap(rng, cap) then Err(SizeExceeded) else Finish(Take(source, ReadLimit(cap, rng)), rng, cap)
  }

  // ----- The capped buffer -----

  function Concat(chunks: seq<seq<byte>>): seq<byte> {
    if chunks == [] then [] else Concat(chunks[..|chunks| - 1]) + chunks[|chunks| - 1]
  }

  class CapWriter {
    const cap: nat
    var buf: seq<byte>

    constructor (cap: nat)
      ensures this.cap == cap && buf == []
    {
      this.cap := cap;
      buf := [];
    }

    /** Every byte is accepted; only the first cap of them are kept. */
    method Write(p: seq<byte>) returns (n: nat)
      requires |buf| <= cap
      modifies this`buf
      ensures n == |p| && buf == Take(old(buf) + p, cap)
    {
      var remaining := cap - |buf|;
      if remaining <= 0 {
        return |p|;
      }
      if |p| > remaining {
        buf := buf + p[..remaining];
        return |p|;
      }
      buf := buf + p;
      return |p|;
    }
  }

  lemma {:induction false} TakeAppend(b: seq<byte>, p: seq<byte>, n: nat)
    ensures Take(Take(b, n) + p, n) == Take(b + p, n)
  {
  }

  /** The producer writes its output in chunks of its own choosing. */
  method ResolveStream(chunks: seq<seq<byte>>, maxBytes: int, rng: Option<Range>)
    returns (r: Result<Resolved, Failure>)
    ensures r == ResolveLimited(Concat(chunks), maxBytes, rng)
  {
    var cap := EffectiveMaxBytes(maxBytes);
    if !FitsCap(rng, cap) {
      return Err(SizeExceeded);
    }
    var w := new CapWriter(ReadLimit(cap, rng));
    for i := 0 to |chunks|
      invariant w.buf == Take(Concat(chunks[..i]), w.cap)
    {
      TakeAppend(Concat(chunks[..i]), chunks[i], w.cap);
      assert chunks[..i + 1][..i] == chunks[..i];
      var n := w.Write(chunks[i]);
    }
    assert chunks[..|chunks|] == chunks;
    return Finish(w.buf, rng, cap);
  }

  // ----- What a resolve returns -----

  /** The positions lo <= i < hi that exist. */
  function Window(source: seq<byte>, lo: int, hi: int): seq<byte> {
    var from, to := if lo < 0 then 0 else lo, if hi > |source| then |source| else hi;
    if from < to then source[from..to] else []
  }

  /** A bounded range that fits the cap is served exactly, whether or not the source was read whole. */
  lemma {:induction false} RangeServed(source: seq<byte>, maxBytes: int, r: Range)
    requires r.end > 0
    ensures var cap := EffectiveMaxBytes(maxBytes);
            var size := r.end - if r.start < 0 then 0 else r.start;
            var expected := if size <= cap then Ok(Resolved(Window(source, r.start, r.end), true)) else Err(SizeExceeded);
            && ResolveLimited(source, maxBytes, Some(r)) == expected
            && ResolveWhole(source, maxBytes, Some(r)) == expected
            && (expected.Ok? ==> |expected.value.bytes| <= cap)
  {
    var cap := EffectiveMaxBytes(maxBytes);
    var read := Take(source, ReadLimit(cap, Some(r)));
    assert Window(read, r.start, r.end) == Window(source, r.start, r.end);
    assert FitsCap(Some(r), cap) ==> |Window(source, r.start, r.end)| <= cap;
  }

  /** Without a range the first cap bytes are served, and cutting is always reported. */
  lemma {:induction false} PrefixServed(source: seq<byte>, maxBytes: int)
    ensures var cap := EffectiveMaxBytes(maxBytes);
            && ResolveLimited(source, maxBytes, None) == Ok(Resolved(Window(source, 0, cap), |source| > cap))
            && ResolveWhole(source, maxBytes, None) == ResolveLimited(source, maxBytes, None)
  {
    var cap := EffectiveMaxBytes(maxBytes);
    if |source| > cap {
      assert Take(source, cap + 1)[..cap] == source[..cap] == Window(source, 0, cap);
    } else {
      assert Take(source, cap + 1) == source == Window(source, 0, cap);
    }
  }

  lemma {:induction false} TakeThenWindow(source: seq<byte>, low: nat, cap: nat)
    requires |source| > cap + 1 && low <= 1
    ensures var read := source[..cap + 1];
            var cut := read[low..cap + 1];
            (if |cut| > cap then cut[..cap] else cut) == source[low..|source|][..cap]
  {
    var read := source[..cap + 1];
    var cut := read[low..cap + 1];
    var got, want := if |cut| > cap then cut[..cap] else cut, source[low..|source|][..cap];
    assert |got| == |want| == cap;
    assert forall i | 0 <= i < cap :: got[i] == source[low + i] && want[i] == source[low + i];
  }

  /** An open-ended range is served as from the whole source exactly when the read limit does not show. */
  lemma {:induction false} OpenRangeServedIff(source: seq<byte>, maxBytes: int, start: int)
    ensures var cap := EffectiveMaxBytes(maxBytes);
            ResolveLimited(source, maxBytes, Some(Range(start, 0))) == ResolveWhole(source, maxBytes, Some(Range(start, 0)))
            <==> |source| <= cap + 1 || start <= 1 || start >= |source|
  {
    var cap, rng := EffectiveMaxBytes(maxBytes), Some(Range(start, 0));
    var read := Take(source, cap + 1);
    if |source| > cap + 1 {
      var whole, cut := Finish(source, rng, cap).value.bytes, Finish(read, rng, cap).value.bytes;
      if start <= 1 {
        TakeThenWindow(source, if start < 0 then 0 else start, cap);
      } else if start < |source| {
        assert |cut| < |whole|;
      } else {
        assert whole == [] && cut == [];
      }
    } else {
      assert read == source;
    }
  }

  /** Every served result is within the cap; a resolve stops the program exactly on a negative end. */
  lemma {:induction false} NeverAboveCap(source: seq<byte>, maxBytes: int, rng: Option<Range>)
    ensures var cap, r := EffectiveMaxBytes(maxBytes), ResolveLimited(source, maxBytes, rng);
            && (r.Ok? ==> |r.value.bytes| <= cap)
            && (r == Err(SliceOutOfRange) <==> rng.Some? && rng.value.end < 0)
  {
  }

  // ----- Documented readings -----

  /**
   * A range that fits agrees with "both bounds are inclusive", cut to the cap, exactly when the end is past the source,
   * before the start, or a whole cap behind it.
   */
  lemma {:induction false} InclusiveBoundsIff(source: seq<byte>, maxBytes: int, r: Range)
    requires r.end > 0 && FitsCap(Some(r), EffectiveMaxBytes(maxBytes))
    ensures var cap := EffectiveMaxBytes(maxBytes);
            var low := if r.start < 0 then 0 else r.start;
            ResolveLimited(source, maxBytes, Some(r)) == Ok(Resolved(Take(Window(source, r.start, r.end + 1), cap), true)) <==>
            r.end >= |source| || r.end < r.start || r.end - low == cap
  {
    RangeServed(source, maxBytes, r);
    var cap := EffectiveMaxBytes(maxBytes);
    var low := if r.start < 0 then 0 else r.start;
    if low <= r.end < |source| {
      var half, whole := Window(source, r.start, r.end), Window(source, r.start, r.end + 1);
      assert |whole| == |half| + 1 && whole[..|half|] == half;
    } else {
      var same := Window(source, r.start, r.end);
      assert |same| <= cap && Window(source, r.start, r.end + 1) == same;
      assert Take(same, cap) == same;
      assert r.end >= |source| || r.end < r.start;
    }
  }

  /** Bytes 0 to 1 of a three-byte source: only the first is served. */
  lemma {:induction false} EndIsExcluded(a: byte, b: byte, c: byte)
    ensures ResolveLimited([a, b, c], 10, Some(Range(0, 1))) == Ok(Resolved([a], true))
    ensures Window([a, b, c], 0, 1 + 1) == [a, b]
  {
    RangeServed([a, b, c], 10, Range(0, 1));
    assert Window([a, b, c], 0, 1) == [a] && Window([a, b, c], 0, 2) == [a, b];
  }

  /** An open-ended range is served up to start plus cap, as documented, exactly under these conditions on the source. */
  lemma {:induction false} OpenRangeDocumentedIff(source: seq<byte>, maxBytes: int, start: int)
    ensures var cap := EffectiveMaxBytes(maxBytes);
            ResolveLimited(source, maxBytes, Some(Range(start, 0))) == Ok(Resolved(Window(source, start, start + cap), true)) <==>
            if start < 0 then source == [] || |source| <= start + cap
            else |source| <= cap + 1 || start <= 1 || start >= |source|
  {
    var cap := EffectiveMaxBytes(maxBytes);
    if start < 0 {
      ServedFromFront(source, maxBytes, start);
      if source != [] && |source| > start + cap {
        assert |Window(source, start, start + cap)| < |Take(source, cap)|;
      }
    } else {
      OpenRangeServedIff(source, maxBytes, start);
      WholeFromStart(source, maxBytes, start);
    }
  }

  lemma {:induction false} ServedFromFront(source: seq<byte>, maxBytes: int, start: int)
    requires start < 0
    ensures ResolveLimited(source, maxBytes, Some(Range(start, 0))) == Ok(Resolved(Take(source, EffectiveMaxBytes(maxBytes)), true))
  {
    var cap := EffectiveMaxBytes(maxBytes);
    var read := Take(source, cap + 1);
    assert read[0..|read|] == read;
    if |read| > cap {
      assert read[..cap] == source[..cap];
    }
  }

  lemma {:induction false} WholeFromStart(source: seq<byte>, maxBytes: int, start: nat)
    ensures ResolveWhole(source, maxBytes, Some(Range(start, 0))) ==
            Ok(Resolved(Window(source, start, start + EffectiveMaxBytes(maxBytes)), true))
  {
    var cap := EffectiveMaxBytes(maxBytes);
    if start < |source| && |source| - start > cap {
      assert source[start..|source|][..cap] == source[start..start + cap];
    }
  }

  /** From byte -1 of a three-byte source under a cap of two: two bytes are served, one more than start plus cap allows. */
  lemma {:induction false} NegativeStartServesMore(a: byte, b: byte, c: byte)
    ensures ResolveLimited([a, b, c], 2, Some(Range(-1, 0))) == Ok(Resolved([a, b], true))
    ensures Window([a, b, c], -1, -1 + 2) == [a]
  {
    ServedFromFront([a, b, c], 2, -1);
    assert [a, b, c][..2] == [a, b] && [a, b, c][0..1] == [a];
  }

  /** From byte 2 of a four-byte source under a cap of one: nothing is served, although one byte is there and fits. */
  lemma {:induction false} OpenRangeFallsShort(a: byte, b: byte, c: byte, d: byte)
    ensures ResolveLimited([a, b, c, d], 1, Some(Range(2, 0))) == Ok(Resolved([], true))
    ensures ResolveWhole([a, b, c, d], 1, Some(Range(2, 0))) == Ok(Resolved([c], true))
  {
    assert Take([a, b, c, d], 2) == [a, b];
    assert [a, b, c, d][2..4] == [c, d] && [c, d][..1] == [c];
  }
}
