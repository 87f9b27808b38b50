/**
 * `WitnessDecoder`: the witness block that follows a program in the same bit stream. A
 * `0` bit announces no witness data; a `1` bit is followed by the data's length in bits,
 * a natural. The values are then read one type at a time, and the block is consistent
 * when the values end exactly where the announced length ends (`max_n`).
 */
module WitnessCodec {
  import opened Errors
  import opened Bits
  import opened NaturalCodec
  import opened NaturalCodecProps
  import opened Values

  /** The witness iterator's errors: a decoding error, or a length that does not match the values read. */
  datatype WitnessError = Decode(error: Error) | InconsistentWitnessLength

  /** What `WitnessDecoder::new` reads at `pos`: the position after the length prefix, and `max_n`. */
  function Header(bits: seq<bool>, pos: nat): (r: Result<(nat, nat), Error>)
    ensures r.Ok? ==> pos < r.value.0 <= |bits| && r.value.0 <= r.value.1
    ensures r.Ok? ==> r.value.1 - r.value.0 <= MaxNatural
    ensures r.Err? ==> r.error == EndOfStream || r.error == NaturalOverflow
  {
    if pos >= |bits| then Err(EndOfStream)
    else if !bits[pos] then Ok((pos + 1, pos + 1))
    else
      var n :- Natural(bits, pos + 1, None);
      Ok((n.1, n.1 + n.0))
  }

  /** The iterator over the stream, with the number of bits read so far and the position where the witness data must end. */
  class WitnessDecoder {
    const bits: seq<bool>
    var pos: nat
    const maxN: nat

    ghost predicate Valid()
      reads this
    {
      pos <= |bits|
    }

    constructor (bits: seq<bool>, pos: nat, maxN: nat)
      requires pos <= |bits|
      ensures this.bits == bits && this.pos == pos && this.maxN == maxN && Valid()
    {
      this.bits := bits;
      this.pos := pos;
      this.maxN := maxN;
    }

    /** `new`: the length prefix at `pos`, then a decoder positioned after it. */
    static method New(bits: seq<bool>, pos: nat) returns (r: Result<WitnessDecoder, Error>)
      ensures Header(bits, pos).Err? ==> r.Err? && r.error == Header(bits, pos).error
      ensures Header(bits, pos).Ok? ==> r.Ok? && fresh(r.value) && r.value.Valid() && r.value.bits == bits
      ensures Header(bits, pos).Ok? ==> r.value.pos == Header(bits, pos).value.0 && r.value.maxN == Header(bits, pos).value.1
    {
      if pos >= |bits| {
        return Err(EndOfStream);
      }
      var bitLen: nat := 0;
      var start := pos + 1;
      if bits[pos] {
        var n := DecodeNatural(bits, pos + 1, None);
        if n.Err? {
          return Err(n.error);
        }
        bitLen := n.value.0;
        start := n.value.1;
      }
      var d := new WitnessDecoder(bits, start, start + bitLen);
      return Ok(d);
    }

    /** `next`: one value of type `ty`. A stream that runs out is read to its end. */
    method Next(ty: Ty) returns (r: Result<Value, WitnessError>)
      requires Valid()
      modifies this
      ensures Valid()
      ensures DecodeValue(ty, bits, old(pos)).Ok? ==>
        r.Ok? && r.value == DecodeValue(ty, bits, old(pos)).value.0 && pos == DecodeValue(ty, bits, old(pos)).value.1
      ensures DecodeValue(ty, bits, old(pos)).Err? ==> r == Err(Decode(EndOfStream)) && pos == |bits|
    {
      var d := DecodeValue(ty, bits, pos);
      if d.Err? {
        pos := |bits|;
        return Err(Decode(d.error));
      }
      pos := d.value.1;
      return Ok(d.value.0);
    }

    /** `finish`: the bits read so far must be exactly `max_n`. */
    method Finish() returns (r: Result<(), WitnessError>)
      ensures r.Ok? <==> pos == maxN
      ensures r.Err? ==> r.error == InconsistentWitnessLength
    {
      if pos != maxN {
        return Err(InconsistentWitnessLength);
      }
      return Ok(());
    }
  }

  // ---------------------------------------------------------------------
  // The witness block as a whole

  /** One value per type, read in order from `pos`. */
  function ReadValues(tys: seq<Ty>, bits: seq<bool>, pos: nat): (r: Result<(seq<Value>, nat), Error>)
    ensures r.Ok? ==> |r.value.0| == |tys| && pos <= r.value.1
    ensures r.Ok? ==> forall i | 0 <= i < |tys| :: HasType(r.value.0[i], tys[i])
    ensures r.Err? ==> r.error == EndOfStream
    decreases |tys|
  {
    if tys == [] then Ok(([], pos))
    else
      var v :- DecodeValue(tys[0], bits, pos);
      var rest :- ReadValues(tys[1..], bits, v.1);
      Ok(([v.0] + rest.0, rest.1))
  }

  /** `new`, then `next` once per type, then `finish`: the values and the position after them. */
  function ReadWitness(bits: seq<bool>, pos: nat, tys: seq<Ty>): (r: Result<(seq<Value>, nat), WitnessError>)
    ensures r.Ok? ==> Header(bits, pos).Ok? && r.value.1 == Header(bits, pos).value.1
    ensures r.Ok? ==> ReadValues(tys, bits, Header(bits, pos).value.0) == Ok(r.value)
    ensures r == Err(InconsistentWitnessLength) <==>
      Header(bits, pos).Ok? && ReadValues(tys, bits, Header(bits, pos).value.0).Ok? &&
      ReadValues(tys, bits, Header(bits, pos).value.0).value.1 != Header(bits, pos).value.1
  {
    match Header(bits, pos)
    case Err(e) => Err(Decode(e))
    case Ok((start, maxN)) =>
      match ReadValues(tys, bits, start)
      case Err(e) => Err(Decode(e))
      case Ok((vs, e)) => if e != maxN then Err(InconsistentWitnessLength) else Ok((vs, e))
  }

  /** The values' encodings, one after the other. */
  function EncodeValues(vs: seq<Value>): seq<bool> {
    if vs == [] then [] else EncodeValue(vs[0]) + EncodeValues(vs[1..])
  }

  /** The length prefix for `n` bits of witness data. */
  function EncodeLength(n: nat): seq<bool>
    requires n <= MaxNatural
  {
    if n == 0 then [false] else [true] + EncodeNatural(n)
  }

  /** The witness block: the length prefix, then the values. */
  function EncodeWitness(vs: seq<Value>): seq<bool>
    requires |EncodeValues(vs)| <= MaxNatural
  {
    EncodeLength(|EncodeValues(vs)|) + EncodeValues(vs)
  }

  // ---------------------------------------------------------------------
  // Encoder, then decoder

  /** The length prefix is read back: the data starts after it and `max_n` is `n` bits further. */
  lemma HeaderRoundTrip(bits: seq<bool>, pos: nat, n: nat, start: nat)
    requires n <= MaxNatural && At(bits, pos, EncodeLength(n)) && start == pos + |EncodeLength(n)|
    ensures Header(bits, pos) == Ok((start, start + n))
  {
    AtIndex(bits, pos, EncodeLength(n), 0);
    if n > 0 {
      var p1 := pos + 1;
      AtSplitAt(bits, pos, [true], EncodeNatural(n), p1);
      NaturalRoundTripAt(bits, p1, n, None, start);
    }
  }

  /** The first value's encoding, then the others'. */
  lemma ValuesLaid(bits: seq<bool>, pos: nat, vs: seq<Value>, m: nat)
    requires vs != [] && At(bits, pos, EncodeValues(vs)) && m == pos + |EncodeValue(vs[0])|
    ensures At(bits, pos, EncodeValue(vs[0])) && At(bits, m, EncodeValues(vs[1..]))
    ensures |EncodeValues(vs)| == |EncodeValue(vs[0])| + |EncodeValues(vs[1..])|
  {
    AtSplitAt(bits, pos, EncodeValue(vs[0]), EncodeValues(vs[1..]), m);
  }

  /** A value, then the others. */
  lemma ValuesStep(bits: seq<bool>, pos: nat, tys: seq<Ty>, vs: seq<Value>, m: nat, e: nat)
    requires tys != [] && vs != []
    requires DecodeValue(tys[0], bits, pos) == Ok((vs[0], m))
    requires ReadValues(tys[1..], bits, m) == Ok((vs[1..], e))
    ensures ReadValues(tys, bits, pos) == Ok((vs, e))
  {
    assert [vs[0]] + vs[1..] == vs;
  }

  /** Values of the given types, encoded one after the other, are read back. */
  lemma {:induction false} ValuesRoundTrip(bits: seq<bool>, pos: nat, tys: seq<Ty>, vs: seq<Value>, e: nat)
    requires |vs| == |tys| && forall i | 0 <= i < |tys| :: HasType(vs[i], tys[i])
    requires At(bits, pos, EncodeValues(vs)) && e == pos + |EncodeValues(vs)|
    ensures ReadValues(tys, bits, pos) == Ok((vs, e))
    decreases |tys|
  {
    if tys != [] {
      var m := pos + |EncodeValue(vs[0])|;
      ValuesLaid(bits, pos, vs, m);
      ValueRoundTrip(tys[0], vs[0], bits, pos);
      assert forall i | 0 <= i < |tys[1..]| :: HasType(vs[1..][i], tys[1..][i]) by {
        forall i | 0 <= i < |tys[1..]| ensures HasType(vs[1..][i], tys[1..][i]) {
          assert vs[1..][i] == vs[i + 1] && tys[1..][i] == tys[i + 1];
        }
      }
      ValuesRoundTrip(bits, m, tys[1..], vs[1..], e);
      ValuesStep(bits, pos, tys, vs, m, e);
    }
  }

  /** The length prefix, then the values. */
  lemma WitnessLaid(bits: seq<bool>, pos: nat, vs: seq<Value>, start: nat)
    requires |EncodeValues(vs)| <= MaxNatural && At(bits, pos, EncodeWitness(vs))
    requires start == pos + |EncodeLength(|EncodeValues(vs)|)|
    ensures At(bits, pos, EncodeLength(|EncodeValues(vs)|)) && At(bits, start, EncodeValues(vs))
  {
    AtSplitAt(bits, pos, EncodeLength(|EncodeValues(vs)|), EncodeValues(vs), start);
  }

  /** A witness block of values of the given types is read back, and `finish` accepts it. */
  lemma WitnessRoundTrip(bits: seq<bool>, pos: nat, tys: seq<Ty>, vs: seq<Value>)
    requires |vs| == |tys| && forall i | 0 <= i < |tys| :: HasType(vs[i], tys[i])
    requires |EncodeValues(vs)| <= MaxNatural && At(bits, pos, EncodeWitness(vs))
    ensures ReadWitness(bits, pos, tys).Ok?
    ensures ReadWitness(bits, pos, tys).value.0 == vs
    ensures ReadWitness(bits, pos, tys).value.1 == pos + |EncodeWitness(vs)|
  {
    var n := |EncodeValues(vs)|;
    var start := pos + |EncodeLength(n)|;
    var e := start + n;
    WitnessLaid(bits, pos, vs, start);
    HeaderRoundTrip(bits, pos, n, start);
    ValuesRoundTrip(bits, start, tys, vs, e);
  }

  /** A length prefix that announces more bits than the values use is rejected by `finish`. */
  lemma OverstatedLengthRejected(bits: seq<bool>, pos: nat, tys: seq<Ty>, vs: seq<Value>, extra: nat)
    requires |vs| == |tys| && forall i | 0 <= i < |tys| :: HasType(vs[i], tys[i])
    requires extra > 0 && |EncodeValues(vs)| + extra <= MaxNatural
    requires At(bits, pos, EncodeLength(|EncodeValues(vs)| + extra) + EncodeValues(vs))
    ensures ReadWitness(bits, pos, tys) == Err(InconsistentWitnessLength)
  {
    var n := |EncodeValues(vs)| + extra;
    var start := pos + |EncodeLength(n)|;
    var e := start + |EncodeValues(vs)|;
    AtSplitAt(bits, pos, EncodeLength(n), EncodeValues(vs), start);
    HeaderRoundTrip(bits, pos, n, start);
    ValuesRoundTrip(bits, start, tys, vs, e);
  }
}
