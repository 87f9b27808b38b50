/** `decode_hash`: a 256-bit commitment read as 32 bytes, each byte most significant bit first. */
module Hashes {
  import opened Errors
  import opened Bits

  newtype byte = x: int | 0 <= x < 256

  const HashBytes: nat := 32
  const HashBits: nat := 256

  /** Byte `k` of a hash that starts at `pos`: the eight bits from `pos + 8k`, read big-endian. */
  function ByteAt(bits: seq<bool>, pos: nat, k: nat): (r: byte)
    requires pos + 8 * k + 8 <= |bits|
    ensures r as nat == BeValue(bits[pos + 8 * k..pos + 8 * k + 8])
  {
    Pow2Constants();
    BeValue(bits[pos + 8 * k..pos + 8 * k + 8]) as byte
  }

  /** The first `k` bytes of a hash that starts at `pos`. */
  function ReadBytes(bits: seq<bool>, pos: nat, k: nat): (r: seq<byte>)
    requires pos + 8 * k <= |bits|
    ensures |r| == k
  {
    if k == 0 then [] else ReadBytes(bits, pos, k - 1) + [ByteAt(bits, pos, k - 1)]
  }

  /** What `decode_hash` reads at `pos`: the 32 bytes and the position after them, or `EndOfStream`. */
  function Hash256(bits: seq<bool>, pos: nat): (r: Result<(seq<byte>, nat), Error>)
    ensures r.Ok? ==> |r.value.0| == HashBytes && r.value.1 == pos + HashBits <= |bits|
    ensures r.Err? <==> |bits| < pos + HashBits
    ensures r.Err? ==> r.error == EndOfStream
  {
    if pos + HashBits <= |bits| then Ok((ReadBytes(bits, pos, HashBytes), pos + HashBits)) else Err(EndOfStream)
  }

  /** The source's loop: fill a 32-byte array with `read_bits_be(8)`, failing at the first short read. */
  method DecodeHash(bits: seq<bool>, pos: nat) returns (r: Result<(seq<byte>, nat), Error>)
    ensures r == Hash256(bits, pos)
  {
    var h := new byte[HashBytes];
    var p := pos;
    for k := 0 to HashBytes
      invariant p == pos + 8 * k
      invariant k > 0 ==> p <= |bits| && h[..k] == ReadBytes(bits, pos, k)
    {
      match ReadBitsBe(bits, p, 8)
      case None =>
        return Err(EndOfStream);
      case Some(n) =>
        Pow2Constants();
        h[k] := n as byte;
        assert h[..k + 1] == h[..k] + [ByteAt(bits, pos, k)] by {
          if k > 0 { assert h[..k + 1][..k] == h[..k]; }
        }
      p := p + 8;
    }
    assert h[..] == h[..HashBytes];
    return Ok((h[..], p));
  }

  /** The bytes written back as bits, eight per byte, most significant first. */
  function EncodeHash(h: seq<byte>): (r: seq<bool>)
    ensures |r| == 8 * |h|
  {
    if h == [] then [] else EncodeHash(h[..|h| - 1]) + ToBits(h[|h| - 1] as nat, 8)
  }

  /** The byte whose bits are the encoding of `b` is `b`. */
  lemma ByteOfBits(bits: seq<bool>, pos: nat, k: nat, b: byte)
    requires pos + 8 * k + 8 <= |bits| && At(bits, pos + 8 * k, ToBits(b as nat, 8))
    ensures ByteAt(bits, pos, k) == b
  {
    Pow2Constants();
    ToBitsValue(b as nat, 8);
  }

  /** Reading bytes where an encoding lies gives its bytes back. */
  lemma {:induction false} ReadEncodedBytes(bits: seq<bool>, pos: nat, h: seq<byte>)
    requires At(bits, pos, EncodeHash(h))
    ensures ReadBytes(bits, pos, |h|) == h
  {
    if h != [] {
      var k := |h| - 1;
      var init := h[..k];
      AtSplit(bits, pos, EncodeHash(init), ToBits(h[k] as nat, 8));
      ReadEncodedBytes(bits, pos, init);
      ByteOfBits(bits, pos, k, h[k]);
      assert ReadBytes(bits, pos, k + 1) == init + [h[k]];
    }
  }

  /** The bytes read are an encoding of themselves, found where they were read. */
  lemma {:induction false} ReadBytesEncoded(bits: seq<bool>, pos: nat, k: nat)
    requires pos + 8 * k <= |bits|
    ensures At(bits, pos, EncodeHash(ReadBytes(bits, pos, k)))
  {
    var h := ReadBytes(bits, pos, k);
    if k == 0 {
      assert bits[pos..pos] == [];
    } else {
      var j := k - 1;
      var init := ReadBytes(bits, pos, j);
      var b := ByteAt(bits, pos, j);
      var s := pos + 8 * j;
      assert h[..|h| - 1] == init && h[|h| - 1] == b;
      ReadBytesEncoded(bits, pos, j);
      ByteLaid(bits, s, b);
      AtJoinAt(bits, pos, EncodeHash(init), ToBits(b as nat, 8), s);
    }
  }

  /** A byte read from the eight bits at `s` is their encoding. */
  lemma ByteLaid(bits: seq<bool>, s: nat, b: byte)
    requires s + 8 <= |bits| && b as nat == BeValue(bits[s..s + 8])
    ensures At(bits, s, ToBits(b as nat, 8))
  {
    BeValueBits(bits[s..s + 8]);
  }

  /** Decoding the encoding of a 32-byte hash gives it back and consumes exactly 256 bits. */
  lemma HashRoundTrip(bits: seq<bool>, pos: nat, h: seq<byte>)
    requires |h| == HashBytes && At(bits, pos, EncodeHash(h))
    ensures Hash256(bits, pos) == Ok((h, pos + HashBits))
  {
    ReadEncodedBytes(bits, pos, h);
  }

  /** A decoded hash is exactly the 256 bits it was read from. */
  lemma HashDecodedIsEncoding(bits: seq<bool>, pos: nat)
    requires Hash256(bits, pos).Ok?
    ensures At(bits, pos, EncodeHash(Hash256(bits, pos).value.0))
  {
    ReadBytesEncoded(bits, pos, HashBytes);
  }
}
