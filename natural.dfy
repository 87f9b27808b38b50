/**
 * The length-prefixed natural-number code (`decode_natural`): a unary depth
 * `d` ended by a `0`, then `d` levels, each reading as many bits as the
 * previous level's value into a seed of 1, starting from the value 1.
 */
module NaturalCodec {
  import opened Errors
  import opened Bits

  /** The largest per-level length the decoder accepts. */
  const MaxLevelLength: nat := 31

  /** The largest value the code can produce: 2^32 - 1. */
  const MaxNatural: nat := 0xFFFF_FFFF

  lemma Pow2OfSmall(k: nat)
    requires k <= 32
    ensures Pow2(k) <= Pow2(32) == MaxNatural + 1
    ensures k >= 16 ==> Pow2(k) >= 65536
    ensures k >= 5 ==> Pow2(k) >= 32
  {
    Pow2Constants();
    Pow2Monotone(k, 32);
    if k >= 16 { Pow2Monotone(16, k); }
    if k >= 5 { assert Pow2(5) == 32; Pow2Monotone(5, k); }
  }

  // ---------------------------------------------------------------------
  // Decoding

  /** The unary depth: counts the `1` bits (on top of `acc`) up to the first `0`. */
  function ReadDepth(bits: seq<bool>, pos: nat, acc: nat): (r: Result<(nat, nat), Error>)
    ensures r.Ok? ==> pos < r.value.1 <= |bits| && acc <= r.value.0
    ensures r.Err? ==> r.error == EndOfStream
    decreases |bits| - pos
  {
    if pos >= |bits| then Err(EndOfStream)
    else if bits[pos] then ReadDepth(bits, pos + 1, acc + 1)
    else Ok((acc, pos + 1))
  }

  /** The seed 1 followed by the `len` bits at `pos`, read big-endian. */
  function Seeded(bits: seq<bool>, pos: nat, len: nat): (r: nat)
    requires pos + len <= |bits|
    ensures Pow2(len) <= r < Pow2(len + 1)
  {
    if len == 0 then 1
    else 2 * Seeded(bits, pos, len - 1) + (if bits[pos + len - 1] then 1 else 0)
  }

  /** One level: read `len` bits into a seed of 1, then continue with `Step`. */
  function Levels(bits: seq<bool>, pos: nat, depth: nat, len: nat, bound: Option<nat>): (r: Result<(nat, nat), Error>)
    requires len <= MaxLevelLength
    ensures r.Ok? ==> 1 <= r.value.0 <= MaxNatural && pos + len <= r.value.1 <= |bits|
    ensures r.Ok? && bound.Some? ==> r.value.0 <= bound.value
    ensures r.Err? ==> r.error == EndOfStream || r.error == NaturalOverflow || r.error == BadIndex
    ensures r == Err(BadIndex) ==> bound.Some?
    decreases depth, 1
  {
    if pos + len > |bits| then Err(EndOfStream)
    else
      var n := Seeded(bits, pos, len);
      assert n <= MaxNatural by { Pow2OfSmall(len + 1); }
      Step(bits, pos + len, depth, n, bound)
  }

  /** After a level produced `n`: return it when no level is left, otherwise use it as the next length. */
  function Step(bits: seq<bool>, pos: nat, depth: nat, n: nat, bound: Option<nat>): (r: Result<(nat, nat), Error>)
    requires 1 <= n <= MaxNatural && pos <= |bits|
    ensures r.Ok? ==> 1 <= r.value.0 <= MaxNatural && pos <= r.value.1 <= |bits|
    ensures r.Ok? && bound.Some? ==> r.value.0 <= bound.value
    ensures r.Err? ==> r.error == EndOfStream || r.error == NaturalOverflow || r.error == BadIndex
    ensures r == Err(BadIndex) ==> bound.Some?
    decreases depth, 0
  {
    if depth == 0 then
      if bound.Some? && n > bound.value then Err(BadIndex) else Ok((n, pos))
    else if n > MaxLevelLength then Err(NaturalOverflow)
    else Levels(bits, pos, depth - 1, n, bound)
  }

  /**
   * `decode_natural(bits, bound)` started at `pos`: on success the value and the
   * position after it. The value lies in 1 .. 2^32-1, respects the bound, and at
   * least one bit is consumed; the only errors are end of stream, an over-long
   * level and (only when a bound is given) a value above the bound.
   */
  function Natural(bits: seq<bool>, pos: nat, bound: Option<nat>): (r: Result<(nat, nat), Error>)
    ensures r.Ok? ==> 1 <= r.value.0 <= MaxNatural && pos < r.value.1 <= |bits|
    ensures r.Ok? && bound.Some? ==> r.value.0 <= bound.value
    ensures r.Err? ==> r.error == EndOfStream || r.error == NaturalOverflow || r.error == BadIndex
    ensures r == Err(BadIndex) ==> bound.Some?
  {
    var d :- ReadDepth(bits, pos, 0);
    Levels(bits, d.1, d.0, 0, bound)
  }

  /** One more bit of a level: the seed so far doubled, plus the bit at `q`. */
  lemma SeededStep(bits: seq<bool>, pos: nat, i: nat, q: nat)
    requires q == pos + i < |bits|
    ensures Seeded(bits, pos, i + 1) == 2 * Seeded(bits, pos, i) + (if bits[q] then 1 else 0)
  {
  }

  /** One level read from `len` bits ends at `next` with the seeded value. */
  lemma LevelRead(bits: seq<bool>, pos: nat, depth: nat, len: nat, next: nat, bound: Option<nat>)
    requires len <= MaxLevelLength && next == pos + len <= |bits|
    ensures Seeded(bits, pos, len) <= MaxNatural
    ensures Levels(bits, pos, depth, len, bound) == Step(bits, next, depth, Seeded(bits, pos, len), bound)
  {
    Pow2OfSmall(len + 1);
  }

  /** The source's two loops: count the unary depth, then read the levels. */
  method DecodeNatural(bits: seq<bool>, start: nat, bound: Option<nat>) returns (r: Result<(nat, nat), Error>)
    ensures r == Natural(bits, start, bound)
  {
    var pos: nat := start;
    var recurseDepth: nat := 0;
    while true
      invariant ReadDepth(bits, start, 0) == ReadDepth(bits, pos, recurseDepth)
      decreases |bits| - pos
    {
      if pos >= |bits| {
        return Err(EndOfStream);
      }
      var bit := bits[pos];
      pos := pos + 1;
      if bit {
        recurseDepth := recurseDepth + 1;
      } else {
        break;
      }
    }
    assert ReadDepth(bits, start, 0) == Ok((recurseDepth, pos));
    assert Natural(bits, start, bound) == Levels(bits, pos, recurseDepth, 0, bound);

    var len: nat := 0;
    while true
      invariant len <= MaxLevelLength && pos <= |bits|
      invariant Natural(bits, start, bound) == Levels(bits, pos, recurseDepth, len, bound)
      decreases recurseDepth
    {
      var n: nat := 1;
      ghost var levelStart := pos;
      for i := 0 to len
        invariant pos == levelStart + i <= |bits|
        invariant n == Seeded(bits, levelStart, i)
      {
        if pos >= |bits| {
          return Err(EndOfStream);
        }
        var bit := if bits[pos] then 1 else 0;
        SeededStep(bits, levelStart, i, pos);
        pos := pos + 1;
        n := 2 * n + bit;
      }
      assert 1 <= n <= MaxNatural by {
        Pow2OfSmall(len + 1);
      }
      LevelRead(bits, levelStart, recurseDepth, len, pos, bound);
      if recurseDepth == 0 {
        if bound.Some? && n > bound.value {
          return Err(BadIndex);
        }
        return Ok((n, pos));
      } else {
        len := n;
        if len > MaxLevelLength {
          return Err(NaturalOverflow);
        }
        recurseDepth := recurseDepth - 1;
      }
    }
  }
}

module NaturalCodecProps {
  import opened Errors
  import opened Bits
  import opened NaturalCodec

  // ---------------------------------------------------------------------
  // The encoder (the inverse of `decode_natural`)

  /** floor(log2 n): the number of bits of `n` after its leading 1. */
  function Log2(n: nat): (r: nat)
    requires n >= 1
    ensures Pow2(r) <= n < Pow2(r + 1)
    ensures r < n
  {
    if n == 1 then 0 else 1 + Log2(n / 2)
  }

  /** The number of levels the decoder reads to arrive at `n`. */
  function Depth(n: nat): nat
    requires n >= 1
  {
    if n == 1 then 0 else 1 + Depth(Log2(n))
  }

  /** The bits of `n` after its leading 1. */
  function LowBits(n: nat): (r: seq<bool>)
    requires n >= 1
    ensures |r| == Log2(n)
  {
    ToBits(n - Pow2(Log2(n)), Log2(n))
  }

  /** The levels' bits, innermost first: each level writes its value without the leading 1. */
  function Payload(n: nat): seq<bool>
    requires n >= 1
  {
    if n == 1 then [] else Payload(Log2(n)) + LowBits(n)
  }

  /** The encoding of a positive natural: the unary depth, a `0`, then the levels. */
  function EncodeNatural(n: nat): seq<bool>
    requires n >= 1
  {
    Ones(Depth(n)) + [false] + Payload(n)
  }

  // ---------------------------------------------------------------------
  // Round trip

  lemma {:induction false} ReadDepthOfOnes(bits: seq<bool>, pos: nat, acc: nat, d: nat)
    requires At(bits, pos, Ones(d) + [false])
    ensures ReadDepth(bits, pos, acc) == Ok((acc + d, pos + d + 1))
    decreases d
  {
    AtIndex(bits, pos, Ones(d) + [false], 0);
    if d > 0 {
      assert Ones(d) + [false] == [true] + (Ones(d - 1) + [false]);
      AtSplit(bits, pos, [true], Ones(d - 1) + [false]);
      ReadDepthOfOnes(bits, pos + 1, acc + 1, d - 1);
    }
  }

  lemma Log2Small(n: nat)
    requires 2 <= n <= MaxNatural
    ensures 1 <= Log2(n) <= MaxLevelLength
  {
    var m := Log2(n);
    if m >= 32 {
      Pow2Monotone(32, m);
      Pow2Constants();
    }
  }

  /** A level over the bits of `x` in `w` bits yields the seed followed by `x`. */
  lemma {:induction false} SeededOfBits(bits: seq<bool>, pos: nat, x: nat, w: nat)
    requires x < Pow2(w) && At(bits, pos, ToBits(x, w))
    ensures pos + w <= |bits| && Seeded(bits, pos, w) == Pow2(w) + x
    decreases w
  {
    if w > 0 {
      var front := ToBits(x / 2, w - 1);
      AtSplit(bits, pos, front, [x % 2 == 1]);
      AtIndex(bits, pos + |front|, [x % 2 == 1], 0);
      SeededOfBits(bits, pos, x / 2, w - 1);
    }
  }

  /** A level of length 0 reads nothing and yields 1. */
  lemma LevelOfNothing(bits: seq<bool>, pos: nat, depth: nat, bound: Option<nat>)
    requires pos <= |bits|
    ensures Levels(bits, pos, depth, 0, bound) == Step(bits, pos, depth, 1, bound)
  {
    assert Seeded(bits, pos, 0) == 1;
  }

  /** A step with a level left reads that level. */
  lemma StepIntoLevel(bits: seq<bool>, pos: nat, e: nat, m: nat, n: nat, bound: Option<nat>)
    requires 1 <= m <= MaxLevelLength && pos + m <= |bits|
    requires Seeded(bits, pos, m) == n <= MaxNatural
    ensures Step(bits, pos, e + 1, m, bound) == Step(bits, pos + m, e, n, bound)
  {
  }

  /** A step with a level left, where the level runs past the end, ends the stream. */
  lemma StepIntoShortLevel(bits: seq<bool>, pos: nat, e: nat, m: nat, bound: Option<nat>)
    requires 1 <= m <= MaxLevelLength && pos <= |bits| < pos + m
    ensures Step(bits, pos, e + 1, m, bound) == Err(EndOfStream)
  {
  }

  /** The level after `Payload(m)`, `m = Log2(n)`, reads the low bits of `n` and yields `n`. */
  lemma LevelOfLowBits(bits: seq<bool>, pos: nat, n: nat, m: nat, e: nat, end: nat, bound: Option<nat>)
    requires 2 <= n <= MaxNatural && m == Log2(n) && end == pos + m
    requires At(bits, pos, LowBits(n))
    ensures Step(bits, pos, e + 1, m, bound) == Step(bits, end, e, n, bound)
  {
    Log2Small(n);
    SeededOfBits(bits, pos, n - Pow2(m), m);
    StepIntoLevel(bits, pos, e, m, n, bound);
  }

  /** Reading the levels of `n` (`depth` of them, `e` more than `n` needs) ends at `end` with `n` in hand. */
  lemma {:induction false} LevelsOfPayload(bits: seq<bool>, pos: nat, n: nat, e: nat, depth: nat, end: nat, bound: Option<nat>)
    requires 1 <= n <= MaxNatural
    requires At(bits, pos, Payload(n))
    requires depth == Depth(n) + e && end == pos + |Payload(n)|
    ensures Levels(bits, pos, depth, 0, bound) == Step(bits, end, e, n, bound)
    decreases n
  {
    if n == 1 {
      LevelOfNothing(bits, pos, depth, bound);
    } else {
      var m := Log2(n);
      Log2Small(n);
      AtSplit(bits, pos, Payload(m), LowBits(n));
      var mid := pos + |Payload(m)|;
      LevelsOfPayload(bits, pos, m, e + 1, depth, mid, bound);
      LevelOfLowBits(bits, mid, n, m, e, end, bound);
    }
  }

  /** Decoding the encoding of `n` gives back `n` (or `BadIndex` when `n` exceeds the bound) and consumes exactly the encoding. */
  lemma NaturalRoundTrip(bits: seq<bool>, pos: nat, n: nat, bound: Option<nat>)
    requires 1 <= n <= MaxNatural
    requires At(bits, pos, EncodeNatural(n))
    ensures Natural(bits, pos, bound)
         == if bound.Some? && n > bound.value then Err(BadIndex) else Ok((n, (pos + |EncodeNatural(n)|) as nat))
  {
    var end := pos + |EncodeNatural(n)|;
    NaturalRoundTripAt(bits, pos, n, bound, end);
  }

  /** `NaturalRoundTrip` with the end position named. */
  lemma NaturalRoundTripAt(bits: seq<bool>, pos: nat, n: nat, bound: Option<nat>, end: nat)
    requires 1 <= n <= MaxNatural
    requires At(bits, pos, EncodeNatural(n)) && end == pos + |EncodeNatural(n)|
    ensures Natural(bits, pos, bound) == if bound.Some? && n > bound.value then Err(BadIndex) else Ok((n, end))
  {
    var d := Depth(n);
    var start := pos + d + 1;
    AtSplitAt(bits, pos, Ones(d) + [false], Payload(n), start);
    ReadDepthOfOnes(bits, pos, 0, d);
    assert ReadDepth(bits, pos, 0) == Ok((d, start));
    LevelsOfPayload(bits, start, n, 0, d, end, bound);
  }

  /** `NaturalRoundTrip` under a bound the value respects, with the end position named. */
  lemma NaturalWithin(bits: seq<bool>, pos: nat, n: nat, b: nat, e: nat)
    requires 1 <= n <= b && n <= MaxNatural
    requires At(bits, pos, EncodeNatural(n)) && e == pos + |EncodeNatural(n)|
    ensures Natural(bits, pos, Some(b)) == Ok((n, e))
  {
    NaturalRoundTrip(bits, pos, n, Some(b));
  }

  // ---------------------------------------------------------------------
  // Truncation

  lemma {:induction false} ReadDepthOfTruncatedOnes(bits: seq<bool>, pos: nat, acc: nat)
    requires pos <= |bits|
    requires forall i | pos <= i < |bits| :: bits[i]
    ensures ReadDepth(bits, pos, acc) == Err(EndOfStream)
    decreases |bits| - pos
  {
    if pos < |bits| {
      ReadDepthOfTruncatedOnes(bits, pos + 1, acc + 1);
    }
  }

  /** `bits` ends strictly inside an occurrence of `s` at `pos`. */
  predicate EndsInside(bits: seq<bool>, pos: nat, s: seq<bool>)
  {
    pos <= |bits| < pos + |s| && bits[pos..] == s[..|bits| - pos]
  }

  lemma EndsInsideSplit(bits: seq<bool>, pos: nat, a: seq<bool>, b: seq<bool>)
    requires EndsInside(bits, pos, a + b)
    ensures EndsInside(bits, pos, a) || (At(bits, pos, a) && EndsInside(bits, pos + |a|, b))
  {
    if |bits| >= pos + |a| {
      assert bits[pos..pos + |a|] == bits[pos..][..|a|];
      assert bits[pos + |a|..] == bits[pos..][|a|..];
    }
  }

  lemma {:induction false} LevelsOfTruncatedPayload(bits: seq<bool>, pos: nat, n: nat, e: nat, depth: nat, bound: Option<nat>)
    requires 1 <= n <= MaxNatural
    requires EndsInside(bits, pos, Payload(n))
    requires depth == Depth(n) + e
    ensures Levels(bits, pos, depth, 0, bound) == Err(EndOfStream)
    decreases n
  {
    if n > 1 {
      var m := Log2(n);
      Log2Small(n);
      EndsInsideSplit(bits, pos, Payload(m), LowBits(n));
      if EndsInside(bits, pos, Payload(m)) {
        LevelsOfTruncatedPayload(bits, pos, m, e + 1, depth, bound);
      } else {
        var mid := pos + |Payload(m)|;
        LevelsOfPayload(bits, pos, m, e + 1, depth, mid, bound);
        StepIntoShortLevel(bits, mid, e, m, bound);
      }
    }
  }

  /** Any proper prefix of an encoding (in particular, the encoding without its last bit) ends the stream early. */
  lemma NaturalTruncated(bits: seq<bool>, pos: nat, n: nat, bound: Option<nat>)
    requires 1 <= n <= MaxNatural
    requires EndsInside(bits, pos, EncodeNatural(n))
    ensures Natural(bits, pos, bound) == Err(EndOfStream)
  {
    var d := Depth(n);
    var e := EncodeNatural(n);
    EndsInsideSplit(bits, pos, Ones(d) + [false], Payload(n));
    if EndsInside(bits, pos, Ones(d) + [false]) {
      forall i | pos <= i < |bits| ensures bits[i] {
        assert bits[i] == bits[pos..][i - pos];
      }
      ReadDepthOfTruncatedOnes(bits, pos, 0);
    } else {
      ReadDepthOfOnes(bits, pos, 0, d);
      LevelsOfTruncatedPayload(bits, pos + d + 1, n, 0, d, bound);
    }
  }

  /** The source's test: every table encoding without its last bit fails with `EndOfStream`. */
  lemma DroppingLastBitEndsStream(n: nat, bound: Option<nat>)
    requires 1 <= n <= MaxNatural
    ensures |EncodeNatural(n)| >= 1
    ensures Natural(EncodeNatural(n)[..|EncodeNatural(n)| - 1], 0, bound) == Err(EndOfStream)
  {
    var e := EncodeNatural(n);
    var bits := e[..|e| - 1];
    assert bits[0..] == e[..|bits|];
    NaturalTruncated(bits, 0, n, bound);
  }

  // ---------------------------------------------------------------------
  // The bound and the recursion limit

  lemma {:induction false} LevelsBound(bits: seq<bool>, pos: nat, depth: nat, len: nat, b: nat)
    requires len <= MaxLevelLength
    ensures Levels(bits, pos, depth, len, Some(b))
         == match Levels(bits, pos, depth, len, None)
            case Ok(v) => if v.0 > b then Err(BadIndex) else Ok(v)
            case Err(e) => Err(e)
    decreases depth
  {
    if pos + len <= |bits| {
      var n := Seeded(bits, pos, len);
      if depth > 0 && n <= MaxLevelLength {
        LevelsBound(bits, pos + len, depth - 1, n, b);
      }
    }
  }

  /** The bound acts on the final value only: it is `BadIndex` exactly when the unbounded decode gives a larger value. */
  lemma NaturalBound(bits: seq<bool>, pos: nat, b: nat)
    ensures Natural(bits, pos, Some(b))
         == match Natural(bits, pos, None)
            case Ok(v) => if v.0 > b then Err(BadIndex) else Ok(v)
            case Err(e) => Err(e)
  {
    var d := ReadDepth(bits, pos, 0);
    if d.Ok? {
      LevelsBound(bits, d.value.1, d.value.0, 0, b);
    }
  }

  /** The smallest length a level must start from for `depth` more levels to overflow. */
  function OverflowThreshold(depth: nat): nat
  {
    if depth >= 5 then 0 else if depth == 4 then 1 else if depth == 3 then 2 else if depth == 2 then 4 else 16
  }

  /** Each level multiplies the reachable lengths exponentially: the threshold of one level less is within reach. */
  lemma ThresholdReach(depth: nat, len: nat)
    requires 1 <= depth && OverflowThreshold(depth) <= len
    ensures depth == 1 ==> Pow2(len) > MaxLevelLength
    ensures depth > 1 ==> Pow2(len) >= OverflowThreshold(depth - 1)
  {
    Pow2Monotone(OverflowThreshold(depth), len);
    if depth == 1 {
      Pow2Constants();
    } else if depth == 2 {
      assert Pow2(4) == 16;
    } else if depth == 3 {
      assert Pow2(2) == 4;
    } else if depth == 4 {
      assert Pow2(1) == 2;
    }
  }

  lemma {:induction false} DeepLevelsFail(bits: seq<bool>, pos: nat, depth: nat, len: nat, bound: Option<nat>)
    requires 1 <= depth && OverflowThreshold(depth) <= len <= MaxLevelLength
    ensures Levels(bits, pos, depth, len, bound).Err?
    ensures Levels(bits, pos, depth, len, bound).error == EndOfStream
         || Levels(bits, pos, depth, len, bound).error == NaturalOverflow
    decreases depth
  {
    if pos + len <= |bits| {
      var next := pos + len;
      LevelRead(bits, pos, depth, len, next, bound);
      ThresholdReach(depth, len);
      var n := Seeded(bits, pos, len);
      if n <= MaxLevelLength {
        DeepLevelsFail(bits, next, depth - 1, n, bound);
      }
    }
  }

  /** A unary depth of 5 or more can never decode: every value it could reach exceeds 32 bits. */
  lemma DepthAtMostFour(bits: seq<bool>, pos: nat, bound: Option<nat>)
    requires ReadDepth(bits, pos, 0).Ok? && ReadDepth(bits, pos, 0).value.0 >= 5
    ensures Natural(bits, pos, bound) == Err(EndOfStream) || Natural(bits, pos, bound) == Err(NaturalOverflow)
  {
    var d := ReadDepth(bits, pos, 0).value;
    DeepLevelsFail(bits, d.1, d.0, 0, bound);
  }

  /** A level of 5 or more bits yields at least 32, too long for a level still to come: `NaturalOverflow`. */
  lemma WideLevelOverflows(bits: seq<bool>, pos: nat, depth: nat, len: nat, next: nat, bound: Option<nat>)
    requires 1 <= depth && 5 <= len <= MaxLevelLength && next == pos + len <= |bits|
    ensures Levels(bits, pos, depth, len, bound) == Err(NaturalOverflow)
  {
    LevelRead(bits, pos, depth, len, next, bound);
    Pow2OfSmall(len);
  }

  // ---------------------------------------------------------------------
  // The encoding as a number, and the test table of decode.rs

  /** The number the payload's bits spell, computed level by level. */
  function PayloadValue(n: nat): nat
    requires n >= 1
  {
    if n == 1 then 0 else Shift(PayloadValue(Log2(n)), Log2(n)) + (n - Pow2(Log2(n)))
  }

  /** The payload's length, computed level by level. */
  function PayloadLength(n: nat): nat
    requires n >= 1
  {
    if n == 1 then 0 else PayloadLength(Log2(n)) + Log2(n)
  }

  lemma {:induction false} PayloadAsNumber(n: nat)
    requires n >= 1
    ensures |Payload(n)| == PayloadLength(n)
    ensures BeValue(Payload(n)) == PayloadValue(n)
    decreases n
  {
    if n > 1 {
      var m := Log2(n);
      var low := LowBits(n);
      PayloadAsNumber(m);
      ToBitsValue(n - Pow2(m), m);
      ConcatValue(Payload(m), low, PayloadValue(m), n - Pow2(m), m);
    }
  }

  /** The encoding of `n`, as a number: the unary depth and its `0`, shifted above the payload. */
  lemma EncodingAsNumber(n: nat, v: nat, w: nat)
    requires n >= 1
    requires v == Shift(Pow2(Depth(n)) - 1, 1 + PayloadLength(n)) + PayloadValue(n)
    requires w == Depth(n) + 1 + PayloadLength(n)
    ensures EncodeNatural(n) == ToBits(v, w)
  {
    PayloadAsNumber(n);
    UnaryThenBits(Depth(n), Payload(n), PayloadLength(n), PayloadValue(n), v, w);
  }

  /** `Log2` is determined by the power of two at or below `n`. */
  lemma Log2Unique(n: nat, k: nat)
    requires Pow2(k) <= n < Pow2(k + 1)
    ensures Log2(n) == k
  {
    var r := Log2(n);
    if r < k {
      Pow2Monotone(r + 1, k);
    } else if r > k {
      Pow2Monotone(k + 1, r);
    }
  }

  // ---------------------------------------------------------------------
  // Every decoded natural was read from its encoding

  /** The unary depth is a run of ones ended by a zero. */
  lemma {:induction false} ReadDepthIsOnes(bits: seq<bool>, pos: nat, acc: nat)
    requires ReadDepth(bits, pos, acc).Ok?
    ensures At(bits, pos, Ones(ReadDepth(bits, pos, acc).value.0 - acc) + [false])
    ensures ReadDepth(bits, pos, acc).value.1 == pos + (ReadDepth(bits, pos, acc).value.0 - acc) + 1
    decreases |bits| - pos
  {
    var k := ReadDepth(bits, pos, acc).value.0 - acc;
    if bits[pos] {
      ReadDepthIsOnes(bits, pos + 1, acc + 1);
      assert bits[pos..pos + 1] == [true];
      AtJoin(bits, pos, [true], Ones(k - 1) + [false]);
      assert [true] + (Ones(k - 1) + [false]) == Ones(k) + [false];
    } else {
      assert bits[pos..pos + 1] == [false] == Ones(0) + [false];
    }
  }

  /** A level of `m` bits yields a value whose low bits are those bits. */
  lemma LowBitsOfLevel(bits: seq<bool>, q: nat, m: nat, v: nat)
    requires 1 <= m && q + m <= |bits| && v == Seeded(bits, q, m)
    ensures v >= 2 && Log2(v) == m && At(bits, q, LowBits(v))
  {
    var x := BeValue(bits[q..q + m]);
    BeValueBits(bits[q..q + m]);
    SeededOfBits(bits, q, x, m);
    Log2Unique(v, m);
    Pow2Monotone(1, m);
    assert Pow2(1) == 2;
  }

  /** A step that succeeds with a level left reads that level in full and goes on with its value. */
  lemma StepReadsLevel(bits: seq<bool>, q: nat, depth: nat, m: nat, bound: Option<nat>, n: nat, e: nat, next: nat, v: nat)
    requires 1 <= m <= MaxNatural && q <= |bits| && depth > 0 && next == q + m
    requires Step(bits, q, depth, m, bound) == Ok((n, e))
    ensures m <= MaxLevelLength && next <= |bits|
    ensures v == Seeded(bits, q, m) ==> 1 <= v <= MaxNatural && Step(bits, next, depth - 1, v, bound) == Ok((n, e))
  {
    assert m <= MaxLevelLength;
    LevelRead(bits, q, depth - 1, m, next, bound);
  }

  /** A step with no level left returns its value where it stands. */
  lemma StepReturns(bits: seq<bool>, q: nat, m: nat, bound: Option<nat>, n: nat, e: nat)
    requires 1 <= m <= MaxNatural && q <= |bits|
    requires Step(bits, q, 0, m, bound) == Ok((n, e))
    ensures n == m && e == q
  {
  }

  /** The payload of `m` followed by a level of `m` bits is the payload of the level's value. */
  lemma PayloadGrows(bits: seq<bool>, p0: nat, q: nat, m: nat, v: nat, next: nat)
    requires 1 <= m <= MaxLevelLength && next == q + m <= |bits| && v == Seeded(bits, q, m)
    requires At(bits, p0, Payload(m)) && q == p0 + |Payload(m)|
    ensures v >= 2 && At(bits, p0, Payload(v)) && next == p0 + |Payload(v)| && Depth(v) == Depth(m) + 1
  {
    LowBitsOfLevel(bits, q, m, v);
    assert Payload(v) == Payload(m) + LowBits(v);
    AtConcat(bits, p0, Payload(m), LowBits(v), Payload(v));
  }

  /** The payload of `m` lies at `p0` and ends at `q`, where a step with `m` succeeds with `(n, e)`. */
  predicate PayloadThenStep(bits: seq<bool>, p0: nat, q: nat, depth: nat, m: nat, bound: Option<nat>, n: nat, e: nat) {
    1 <= m <= MaxNatural && q <= |bits| &&
    At(bits, p0, Payload(m)) && q == p0 + |Payload(m)| &&
    Step(bits, q, depth, m, bound) == Ok((n, e))
  }

  /** One level read after the payload of `m`: the payload of its value `v`, and the step that goes on with `v`. */
  lemma LevelExtendsPayload(bits: seq<bool>, p0: nat, q: nat, depth: nat, m: nat, bound: Option<nat>, n: nat, e: nat, next: nat)
    requires depth > 0 && next == q + m && PayloadThenStep(bits, p0, q, depth, m, bound, n, e)
    ensures next <= |bits|
    ensures PayloadThenStep(bits, p0, next, depth - 1, Seeded(bits, q, m), bound, n, e)
    ensures Depth(Seeded(bits, q, m)) == Depth(m) + 1
  {
    var v := Seeded(bits, q, m);
    StepReadsLevel(bits, q, depth, m, bound, n, e, next, v);
    PayloadGrows(bits, p0, q, m, v, next);
  }

  /**
   * The levels read after the payload of `m` (which ends at `q`) spell the payload of
   * the value they return, and there were as many as that value's depth asks for.
   */
  lemma {:induction false} StepIsPayload(bits: seq<bool>, p0: nat, q: nat, depth: nat, m: nat, bound: Option<nat>, n: nat, e: nat)
    requires PayloadThenStep(bits, p0, q, depth, m, bound, n, e)
    ensures n >= 1 && At(bits, p0, Payload(n)) && e == p0 + |Payload(n)| && Depth(n) == Depth(m) + depth
    decreases depth
  {
    if depth > 0 {
      var next := q + m;
      LevelExtendsPayload(bits, p0, q, depth, m, bound, n, e, next);
      StepIsPayload(bits, p0, next, depth - 1, Seeded(bits, q, m), bound, n, e);
    } else {
      StepReturns(bits, q, m, bound, n, e);
    }
  }

  /** A decoded natural was read from exactly its encoding: the code has one spelling per value. */
  lemma NaturalDecodedIsEncoding(bits: seq<bool>, pos: nat, bound: Option<nat>)
    requires Natural(bits, pos, bound).Ok?
    ensures At(bits, pos, EncodeNatural(Natural(bits, pos, bound).value.0))
    ensures Natural(bits, pos, bound).value.1 == pos + |EncodeNatural(Natural(bits, pos, bound).value.0)|
  {
    var r := Natural(bits, pos, bound).value;
    var d := ReadDepth(bits, pos, 0).value;
    ReadDepthIsOnes(bits, pos, 0);
    LevelOfNothing(bits, d.1, d.0, bound);
    assert bits[d.1..d.1] == Payload(1);
    StepIsPayload(bits, d.1, d.1, d.0, 1, bound, r.0, r.1);
    AtJoin(bits, pos, Ones(d.0) + [false], Payload(r.0));
  }
}

/**
 * The rows of the source's `decode_fixed_natural` test. Each row's bit vector is
 * written as a number and a width: `ToBits(v, w)` is the `w`-bit big-endian
 * representation of `v` (for 16, `0x700` in 11 bits is 1110 0 00 0000).
 */
module NaturalTable {
  import opened Errors
  import opened Bits
  import opened NaturalCodec
  import opened NaturalCodecProps

  /** What the test checks of each row: the vector decodes to its value, and without its last bit it ends the stream. */
  lemma RowDecodes(n: nat, v: nat, w: nat)
    requires 1 <= n <= MaxNatural && EncodeNatural(n) == ToBits(v, w)
    ensures Natural(ToBits(v, w), 0, None) == Ok((n, w))
    ensures Natural(ToBits(v, w)[..w - 1], 0, None) == Err(EndOfStream)
  {
    var e := EncodeNatural(n);
    assert e[0..0 + |e|] == e;
    NaturalRoundTrip(e, 0, n, None);
    DroppingLastBitEndsStream(n, None);
  }

  lemma Pow2Table()
    ensures Pow2(15) == 32768 && Pow2(16) == 65536 && Pow2(17) == 131072
    ensures Pow2(20) == 0x10_0000 && Pow2(24) == 0x100_0000
  {
    Pow2Constants();
    assert Pow2(4) == 16;
    Pow2Add(16, 4);
    Pow2Add(16, 8);
  }

  lemma Row1()
    ensures EncodeNatural(1) == ToBits(0, 1)
  {
    assert Depth(1) == 0;
    assert PayloadLength(1) == 0;
    assert PayloadValue(1) == 0;
    assert Shift(Pow2(0) - 1, 1) + 0 == 0;
    EncodingAsNumber(1, 0, 1);
  }

  lemma Row2()
    ensures EncodeNatural(2) == ToBits(0x4, 3)
  {
    assert Log2(2) == 1;
    assert Depth(2) == 1;
    assert PayloadLength(2) == 1;
    assert PayloadValue(2) == 0;
    assert Shift(Pow2(1) - 1, 2) + 0 == 0x4;
    EncodingAsNumber(2, 0x4, 3);
  }

  lemma Row3()
    ensures EncodeNatural(3) == ToBits(0x5, 3)
  {
    assert Log2(3) == 1;
    assert Depth(3) == 1;
    assert PayloadLength(3) == 1;
    assert PayloadValue(3) == 1;
    assert Shift(Pow2(1) - 1, 2) + 1 == 0x5;
    EncodingAsNumber(3, 0x5, 3);
  }

  lemma Row4()
    ensures EncodeNatural(4) == ToBits(0x30, 6)
  {
    assert Log2(2) == 1 && Log2(4) == 2;
    assert Depth(4) == 2;
    assert PayloadLength(4) == 3;
    assert PayloadValue(4) == 0;
    assert Shift(Pow2(2) - 1, 4) + 0 == 0x30;
    EncodingAsNumber(4, 0x30, 6);
  }

  lemma Row5()
    ensures EncodeNatural(5) == ToBits(0x31, 6)
  {
    assert Log2(2) == 1 && Log2(5) == 2;
    assert Depth(5) == 2;
    assert PayloadLength(5) == 3;
    assert PayloadValue(5) == 1;
    assert Shift(Pow2(2) - 1, 4) + 1 == 0x31;
    EncodingAsNumber(5, 0x31, 6);
  }

  lemma Row6()
    ensures EncodeNatural(6) == ToBits(0x32, 6)
  {
    assert Log2(2) == 1 && Log2(6) == 2;
    assert Depth(6) == 2;
    assert PayloadLength(6) == 3;
    assert PayloadValue(6) == 2;
    assert Shift(Pow2(2) - 1, 4) + 2 == 0x32;
    EncodingAsNumber(6, 0x32, 6);
  }

  lemma Row7()
    ensures EncodeNatural(7) == ToBits(0x33, 6)
  {
    assert Log2(2) == 1 && Log2(7) == 2;
    assert Depth(7) == 2;
    assert PayloadLength(7) == 3;
    assert PayloadValue(7) == 3;
    assert Shift(Pow2(2) - 1, 4) + 3 == 0x33;
    EncodingAsNumber(7, 0x33, 6);
  }

  lemma Row8()
    ensures EncodeNatural(8) == ToBits(0x68, 7)
  {
    assert Log2(3) == 1 && Log2(8) == 3;
    assert Depth(8) == 2;
    assert PayloadLength(8) == 4;
    assert PayloadValue(8) == 8;
    assert Shift(Pow2(2) - 1, 5) + 8 == 0x68;
    EncodingAsNumber(8, 0x68, 7);
  }

  lemma Row15()
    ensures EncodeNatural(15) == ToBits(0x6F, 7)
  {
    assert Log2(3) == 1 && Log2(15) == 3;
    assert Depth(15) == 2;
    assert PayloadLength(15) == 4;
    assert PayloadValue(15) == 15;
    assert Shift(Pow2(2) - 1, 5) + 15 == 0x6F;
    EncodingAsNumber(15, 0x6F, 7);
  }

  lemma Row16()
    ensures EncodeNatural(16) == ToBits(0x700, 11)
  {
    assert Log2(2) == 1 && Log2(4) == 2 && Log2(16) == 4;
    assert Depth(16) == 3;
    assert PayloadLength(16) == 7;
    assert PayloadValue(16) == 0;
    assert Shift(Pow2(3) - 1, 8) + 0 == 0x700;
    EncodingAsNumber(16, 0x700, 11);
  }

  lemma Row31()
    ensures EncodeNatural(31) == ToBits(0x70F, 11)
  {
    assert Log2(2) == 1 && Log2(4) == 2 && Log2(31) == 4;
    assert Depth(31) == 3;
    assert PayloadLength(31) == 7;
    assert PayloadValue(31) == 15;
    assert Shift(Pow2(3) - 1, 8) + 15 == 0x70F;
    EncodingAsNumber(31, 0x70F, 11);
  }

  lemma Row32()
    ensures EncodeNatural(32) == ToBits(0xE20, 12)
  {
    assert Log2(2) == 1;
    assert Log2(5) == 2;
    assert Log2(32) == 5;
    assert PayloadLength(5) == 3;
    assert PayloadValue(5) == 1;
    assert Depth(32) == 3;
    assert PayloadLength(32) == 8;
    assert PayloadValue(32) == 32;
    assert Pow2(3) == 8;
    ShiftIsProduct(7, 9);
    EncodingAsNumber(32, 0xE20, 12);
  }

  lemma Row32768()
    ensures EncodeNatural(32768) == ToBits(0x77_8000, 23)
  {
    Pow2Table();
    Log2Unique(32768, 15);
    assert Log2(3) == 1 && Log2(15) == 3;
    assert PayloadLength(15) == 4 && PayloadValue(15) == 15;
    ShiftIsProduct(15, 15);
    ShiftIsProduct(7, 20);
    assert Depth(32768) == 3;
    assert PayloadLength(32768) == 19;
    assert PayloadValue(32768) == 0x7_8000;
    assert Shift(Pow2(3) - 1, 20) + 0x7_8000 == 0x77_8000;
    EncodingAsNumber(32768, 0x77_8000, 23);
  }

  lemma Row65535()
    ensures EncodeNatural(65535) == ToBits(0x77_FFFF, 23)
  {
    Pow2Table();
    Log2Unique(65535, 15);
    assert Log2(3) == 1 && Log2(15) == 3;
    assert PayloadLength(15) == 4 && PayloadValue(15) == 15;
    ShiftIsProduct(15, 15);
    ShiftIsProduct(7, 20);
    assert Depth(65535) == 3;
    assert PayloadLength(65535) == 19;
    assert PayloadValue(65535) == 0x7_FFFF;
    assert Shift(Pow2(3) - 1, 20) + 0x7_FFFF == 0x77_FFFF;
    EncodingAsNumber(65535, 0x77_FFFF, 23);
  }

  lemma Row65536()
    ensures EncodeNatural(65536) == ToBits(0xF00_0000, 28)
  {
    Pow2Table();
    Log2Unique(65536, 16);
    assert Log2(2) == 1 && Log2(4) == 2 && Log2(16) == 4;
    assert Depth(16) == 3 && PayloadLength(16) == 7 && PayloadValue(16) == 0;
    ShiftIsProduct(0, 16);
    ShiftIsProduct(15, 24);
    assert Depth(65536) == 4;
    assert PayloadLength(65536) == 23;
    assert PayloadValue(65536) == 0;
    assert Shift(Pow2(4) - 1, 24) + 0 == 0xF00_0000;
    EncodingAsNumber(65536, 0xF00_0000, 28);
  }

  /** Depth 5, then nineteen ones. */
  function OverlongBits(): (r: seq<bool>)
    ensures |r| == 25
  {
    Ones(5) + [false] + Ones(19)
  }

  /** The first three levels of `OverlongBits`: 1, then 3, then 15. */
  lemma OverlongHead()
    ensures Levels(OverlongBits(), 6, 5, 0, None) == Levels(OverlongBits(), 10, 2, 15, None)
  {
    var bits := OverlongBits();
    assert bits[6] && bits[7] && bits[8] && bits[9];
    LevelRead(bits, 6, 5, 0, 6, None);
    LevelRead(bits, 6, 4, 1, 7, None);
    assert Seeded(bits, 6, 1) == 3;
    LevelRead(bits, 7, 3, 3, 10, None);
    assert Seeded(bits, 7, 3) == 15 by {
      assert Seeded(bits, 7, 1) == 3;
      assert Seeded(bits, 7, 2) == 7;
    }
  }

  /**
   * A level value above 31 with a level still to come is `NaturalOverflow`: from depth 5
   * over ones, the levels give 1, 3, 15 and then 65535, which would be the next length.
   */
  lemma OverlongLevelOverflows()
    ensures Natural(OverlongBits(), 0, None) == Err(NaturalOverflow)
  {
    var bits := OverlongBits();
    assert At(bits, 0, Ones(5) + [false]) by { assert bits[0..6] == Ones(5) + [false]; }
    ReadDepthOfOnes(bits, 0, 0, 5);
    OverlongHead();
    WideLevelOverflows(bits, 10, 2, 15, 25, None);
  }
}
