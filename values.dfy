/** `decode_value`: a value read from bits, directed by its fully inferred type. */
module Values {
  import opened Errors
  import opened Bits

  /** A complete type: the shape of its `CompleteBound`. */
  datatype Ty = UnitTy | SumTy(left: Ty, right: Ty) | ProductTy(left: Ty, right: Ty)

  datatype Value = Unit | SumL(inner: Value) | SumR(inner: Value) | Prod(first: Value, second: Value)

  /** `v` inhabits `ty`. */
  predicate HasType(v: Value, ty: Ty) {
    match v
    case Unit => ty.UnitTy?
    case SumL(a) => ty.SumTy? && HasType(a, ty.left)
    case SumR(b) => ty.SumTy? && HasType(b, ty.right)
    case Prod(a, b) => ty.ProductTy? && HasType(a, ty.left) && HasType(b, ty.right)
  }

  /** The bit encoding of a value: one tag bit per sum, components left then right. */
  function EncodeValue(v: Value): seq<bool> {
    match v
    case Unit => []
    case SumL(a) => [false] + EncodeValue(a)
    case SumR(b) => [true] + EncodeValue(b)
    case Prod(a, b) => EncodeValue(a) + EncodeValue(b)
  }

  /** `decode_value` at `pos`: the value and the position after it. */
  function DecodeValue(ty: Ty, bits: seq<bool>, pos: nat): (r: Result<(Value, nat), Error>)
    ensures r.Ok? ==> HasType(r.value.0, ty) && r.value.1 == pos + |EncodeValue(r.value.0)|
    ensures r.Ok? && pos <= |bits| ==> r.value.1 <= |bits|
    ensures r.Err? ==> r.error == EndOfStream
  {
    match ty
    case UnitTy => Ok((Unit, pos))
    case SumTy(l, rt) =>
      if pos >= |bits| then Err(EndOfStream)
      else if !bits[pos] then
        var a :- DecodeValue(l, bits, pos + 1);
        Ok((SumL(a.0), a.1))
      else
        var b :- DecodeValue(rt, bits, pos + 1);
        Ok((SumR(b.0), b.1))
    case ProductTy(l, rt) =>
      var a :- DecodeValue(l, bits, pos);
      var b :- DecodeValue(rt, bits, a.1);
      Ok((Prod(a.0, b.0), b.1))
  }

  /** Decoding the encoding of a value of `ty` gives it back and consumes exactly its encoding. */
  lemma {:induction false} ValueRoundTrip(ty: Ty, v: Value, bits: seq<bool>, pos: nat)
    requires HasType(v, ty) && At(bits, pos, EncodeValue(v))
    ensures DecodeValue(ty, bits, pos) == Ok((v, pos + |EncodeValue(v)|))
    decreases v, 1
  {
    match v
    case Unit =>
    case SumL(a) => InjectionRoundTrip(ty, v, false, a, bits, pos);
    case SumR(b) => InjectionRoundTrip(ty, v, true, b, bits, pos);
    case Prod(a, b) => ProductRoundTrip(ty, v, a, b, bits, pos);
  }

  /** `ValueRoundTrip` for a sum: the tag bit, then the branch's value. */
  lemma {:induction false} InjectionRoundTrip(ty: Ty, v: Value, tag: bool, a: Value, bits: seq<bool>, pos: nat)
    requires v == if tag then SumR(a) else SumL(a)
    requires ty.SumTy? && HasType(a, if tag then ty.right else ty.left)
    requires At(bits, pos, [tag] + EncodeValue(a))
    ensures DecodeValue(ty, bits, pos) == Ok((v, pos + 1 + |EncodeValue(a)|))
    decreases v, 0
  {
    AtSplit(bits, pos, [tag], EncodeValue(a));
    AtIndex(bits, pos, [tag], 0);
    ValueRoundTrip(if tag then ty.right else ty.left, a, bits, pos + 1);
  }

  /** `ValueRoundTrip` for a product: the first component, then the second. */
  lemma {:induction false} ProductRoundTrip(ty: Ty, v: Value, a: Value, b: Value, bits: seq<bool>, pos: nat)
    requires v == Prod(a, b)
    requires ty.ProductTy? && HasType(a, ty.left) && HasType(b, ty.right)
    requires At(bits, pos, EncodeValue(a) + EncodeValue(b))
    ensures DecodeValue(ty, bits, pos) == Ok((v, pos + |EncodeValue(a)| + |EncodeValue(b)|))
    decreases v, 0
  {
    var mid := pos + |EncodeValue(a)|;
    AtSplit(bits, pos, EncodeValue(a), EncodeValue(b));
    ValueRoundTrip(ty.left, a, bits, pos);
    ValueRoundTrip(ty.right, b, bits, mid);
  }

  /** A decoded value is exactly the bits it was read from. */
  lemma {:induction false} ValueDecodedIsEncoding(ty: Ty, bits: seq<bool>, pos: nat)
    requires pos <= |bits| && DecodeValue(ty, bits, pos).Ok?
    ensures At(bits, pos, EncodeValue(DecodeValue(ty, bits, pos).value.0))
  {
    match ty
    case UnitTy =>
      assert bits[pos..pos] == [];
    case SumTy(l, rt) =>
      var tag := bits[pos];
      ValueDecodedIsEncoding(if tag then rt else l, bits, pos + 1);
      assert bits[pos..pos + 1] == [tag];
      AtJoin(bits, pos, [tag], EncodeValue(DecodeValue(if tag then rt else l, bits, pos + 1).value.0));
    case ProductTy(l, rt) =>
      var a := DecodeValue(l, bits, pos).value;
      ValueDecodedIsEncoding(l, bits, pos);
      ValueDecodedIsEncoding(rt, bits, a.1);
      AtJoinAt(bits, pos, EncodeValue(a.0), EncodeValue(DecodeValue(rt, bits, a.1).value.0), a.1);
  }

  /** The decoder succeeds exactly when some value of the type is encoded at `pos`; otherwise it is `EndOfStream`. */
  lemma ValueDecodeFails(ty: Ty, bits: seq<bool>, pos: nat)
    requires pos <= |bits|
    ensures DecodeValue(ty, bits, pos).Ok? <==> exists v :: HasType(v, ty) && At(bits, pos, EncodeValue(v))
  {
    if DecodeValue(ty, bits, pos).Ok? {
      var v := DecodeValue(ty, bits, pos).value.0;
      ValueDecodedIsEncoding(ty, bits, pos);
      assert HasType(v, ty) && At(bits, pos, EncodeValue(v));
      assert exists w :: HasType(w, ty) && At(bits, pos, EncodeValue(w));
    } else if v :| HasType(v, ty) && At(bits, pos, EncodeValue(v)) {
      ValueRoundTrip(ty, v, bits, pos);
    }
  }

  /** The type of `2^k`-bit words: the bit `1 + 1`, then products of two equal halves. */
  function PowerOfTwoTy(k: nat): Ty {
    if k == 0 then SumTy(UnitTy, UnitTy) else ProductTy(PowerOfTwoTy(k - 1), PowerOfTwoTy(k - 1))
  }

  /** Every value of the `2^k`-bit word type is encoded in exactly `2^k` bits. */
  lemma {:induction false} WordWidth(k: nat, v: Value)
    requires HasType(v, PowerOfTwoTy(k))
    ensures |EncodeValue(v)| == Pow2(k)
  {
    if k > 0 {
      WordWidth(k - 1, v.first);
      WordWidth(k - 1, v.second);
    }
  }

  /** So a word is read from exactly `2^k` bits, and fails when fewer remain. */
  lemma WordConsumption(k: nat, bits: seq<bool>, pos: nat)
    requires pos <= |bits|
    ensures DecodeValue(PowerOfTwoTy(k), bits, pos).Ok? ==> DecodeValue(PowerOfTwoTy(k), bits, pos).value.1 == pos + Pow2(k)
    ensures |bits| < pos + Pow2(k) ==> DecodeValue(PowerOfTwoTy(k), bits, pos) == Err(EndOfStream)
  {
    var r := DecodeValue(PowerOfTwoTy(k), bits, pos);
    if r.Ok? {
      WordWidth(k, r.value.0);
    }
  }
}
