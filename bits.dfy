/** Bit strings read most-significant bit first, as the bit iterator's `read_bits_be` does. */
module Bits {
  import opened Errors

  function Pow2(k: nat): (r: nat)
    ensures r >= 1
  {
    if k == 0 then 1 else 2 * Pow2(k - 1)
  }

  lemma {:induction false} Pow2Add(a: nat, b: nat)
    ensures Pow2(a + b) == Pow2(a) * Pow2(b)
  {
    if b > 0 { Pow2Add(a, b - 1); }
  }

  lemma {:induction false} Pow2Monotone(a: nat, b: nat)
    requires a <= b
    ensures Pow2(a) <= Pow2(b)
  {
    if a < b { Pow2Monotone(a, b - 1); }
  }

  lemma Pow2Constants()
    ensures Pow2(8) == 256 && Pow2(16) == 65536 && Pow2(32) == 0x1_0000_0000
  {
    assert Pow2(8) == 256;
    Pow2Add(8, 8);
    Pow2Add(16, 16);
  }

  /** The value of a big-endian bit string: its first bit is the most significant. */
  function BeValue(s: seq<bool>): (r: nat)
    ensures r < Pow2(|s|)
  {
    if s == [] then 0 else 2 * BeValue(s[..|s| - 1]) + (if s[|s| - 1] then 1 else 0)
  }

  /** The `width`-bit big-endian representation of `x`. */
  function ToBits(x: nat, width: nat): (r: seq<bool>)
    ensures |r| == width
  {
    if width == 0 then [] else ToBits(x / 2, width - 1) + [x % 2 == 1]
  }

  /** `read_bits_be(n)`: the next `n` bits as a big-endian number, or nothing when fewer remain. */
  function ReadBitsBe(bits: seq<bool>, pos: nat, n: nat): (r: Option<nat>)
    ensures r.Some? <==> pos + n <= |bits|
    ensures r.Some? ==> r.value < Pow2(n)
  {
    if pos + n <= |bits| then Some(BeValue(bits[pos..pos + n])) else None
  }

  function Ones(k: nat): (r: seq<bool>)
    ensures |r| == k && forall i | 0 <= i < k :: r[i]
  {
    if k == 0 then [] else [true] + Ones(k - 1)
  }

  lemma {:induction false} ToBitsValue(x: nat, width: nat)
    requires x < Pow2(width)
    ensures BeValue(ToBits(x, width)) == x
  {
    if width > 0 {
      var h := x / 2;
      var init := ToBits(h, width - 1);
      var s := ToBits(x, width);
      assert s[..|s| - 1] == init;
      assert h < Pow2(width - 1);
      ToBitsValue(h, width - 1);
      assert BeValue(s) == 2 * h + (if x % 2 == 1 then 1 else 0);
    }
  }

  lemma {:induction false} BeValueBits(s: seq<bool>)
    ensures ToBits(BeValue(s), |s|) == s
  {
    if s != [] {
      var init := s[..|s| - 1];
      BeValueBits(init);
      assert BeValue(s) / 2 == BeValue(init);
      assert s == init + [s[|s| - 1]];
    }
  }

  /** `x` followed by `k` zero bits: `x * 2^k`, written without a multiplication of unknowns. */
  function Shift(x: nat, k: nat): nat
  {
    if k == 0 then x else 2 * Shift(x, k - 1)
  }

  lemma {:induction false} ShiftIsProduct(x: nat, k: nat)
    ensures Shift(x, k) == x * Pow2(k)
  {
    if k > 0 {
      ShiftIsProduct(x, k - 1);
      MulDouble(x, Pow2(k - 1));
    }
  }

  lemma MulDouble(x: int, p: int)
    ensures 2 * (x * p) == x * (2 * p)
  {
  }

  lemma {:induction false} ShiftAdd(x: nat, a: nat, b: nat)
    ensures Shift(Shift(x, a), b) == Shift(x, a + b)
    decreases b
  {
    if b > 0 {
      ShiftAdd(x, a, b - 1);
    }
  }

  /** Concatenation shifts the first part left by the length of the second. */
  lemma {:induction false} BeValueAppend(a: seq<bool>, b: seq<bool>)
    ensures BeValue(a + b) == Shift(BeValue(a), |b|) + BeValue(b)
    decreases |b|
  {
    if b == [] {
      assert a + b == a;
    } else {
      var init := b[..|b| - 1];
      assert (a + b)[..|a + b| - 1] == a + init;
      BeValueAppend(a, init);
    }
  }

  /** `BeValueAppend` with the parts' values and the second part's length named. */
  lemma ConcatValue(a: seq<bool>, b: seq<bool>, av: nat, bv: nat, k: nat)
    requires BeValue(a) == av && BeValue(b) == bv && |b| == k
    ensures BeValue(a + b) == Shift(av, k) + bv
  {
    BeValueAppend(a, b);
  }

  /** A run of `k` ones is `2^k - 1`. */
  lemma {:induction false} OnesValue(k: nat)
    ensures BeValue(Ones(k)) == Pow2(k) - 1
  {
    if k > 0 {
      SeededValue(Ones(k - 1));
      OnesValue(k - 1);
    }
  }

  /** `d` ones, a zero, then `p`: the `w`-bit representation of `v`. */
  lemma UnaryThenBits(d: nat, p: seq<bool>, len: nat, pv: nat, v: nat, w: nat)
    requires |p| == len
    requires BeValue(p) == pv
    requires v == Shift(Pow2(d) - 1, 1 + len) + pv
    requires w == d + 1 + len
    ensures Ones(d) + [false] + p == ToBits(v, w)
  {
    var head := Ones(d) + [false];
    OnesValue(d);
    BeValueAppend(Ones(d), [false]);
    assert BeValue([false]) == 0;
    assert BeValue(head) == Shift(Pow2(d) - 1, 1);
    BeValueAppend(head, p);
    ShiftAdd(Pow2(d) - 1, 1, len);
    var e := head + p;
    assert BeValue(e) == v;
    BeValueBits(e);
  }

  /** A leading `1` bit adds `2^|s|`: reading `len` bits into a seed of 1. */
  lemma {:induction false} SeededValue(s: seq<bool>)
    ensures BeValue([true] + s) == Pow2(|s|) + BeValue(s)
  {
    if s != [] {
      var init := s[..|s| - 1];
      assert ([true] + s)[..|s|] == [true] + init;
      SeededValue(init);
    }
  }

  /** `s` occurs in `bits` at position `pos`. */
  predicate At(bits: seq<bool>, pos: nat, s: seq<bool>)
  {
    pos + |s| <= |bits| && bits[pos..pos + |s|] == s
  }

  lemma AtSplit(bits: seq<bool>, pos: nat, a: seq<bool>, b: seq<bool>)
    requires At(bits, pos, a + b)
    ensures At(bits, pos, a) && At(bits, pos + |a|, b)
  {
    assert bits[pos..pos + |a|] == bits[pos..pos + |a + b|][..|a|];
    assert bits[pos + |a|..pos + |a| + |b|] == bits[pos..pos + |a + b|][|a|..];
  }

  /** `AtSplit`, naming the position where `b` starts. */
  lemma AtSplitAt(bits: seq<bool>, pos: nat, a: seq<bool>, b: seq<bool>, m: nat)
    requires At(bits, pos, a + b) && m == pos + |a|
    ensures At(bits, pos, a) && At(bits, m, b)
  {
    AtSplit(bits, pos, a, b);
  }

  lemma AtJoin(bits: seq<bool>, pos: nat, a: seq<bool>, b: seq<bool>)
    requires At(bits, pos, a) && At(bits, pos + |a|, b)
    ensures At(bits, pos, a + b)
  {
    assert bits[pos..pos + |a + b|] == bits[pos..pos + |a|] + bits[pos + |a|..pos + |a| + |b|];
  }

  /** `AtJoin`, naming the position where `b` starts. */
  lemma AtJoinAt(bits: seq<bool>, pos: nat, a: seq<bool>, b: seq<bool>, m: nat)
    requires At(bits, pos, a) && m == pos + |a| && At(bits, m, b)
    ensures At(bits, pos, a + b)
  {
    AtJoin(bits, pos, a, b);
  }

  /** `AtJoin`, naming the concatenation. */
  lemma AtConcat(bits: seq<bool>, pos: nat, a: seq<bool>, b: seq<bool>, c: seq<bool>)
    requires c == a + b && At(bits, pos, a) && At(bits, pos + |a|, b)
    ensures At(bits, pos, c)
  {
    AtJoin(bits, pos, a, b);
  }

  lemma AtIndex(bits: seq<bool>, pos: nat, s: seq<bool>, i: nat)
    requires At(bits, pos, s) && i < |s|
    ensures bits[pos + i] == s[i]
  {
    assert bits[pos..pos + |s|][i] == bits[pos + i];
  }
}
