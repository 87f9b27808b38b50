/**
 * `decode_node`: one node of the program, read at the cursor and resolved against the
 * nodes decoded before it. Children are positions in that table, found as
 * `index - n` from a bounded natural `n`.
 */
module Nodes {
  import opened Errors
  import opened Bits
  import opened Hashes
  import opened NaturalCodec
  import Values

  /** A node of the program; children are table positions, commitments are 32 bytes. */
  datatype Node =
    | Iden
    | Unit
    | InjL(child: nat)
    | InjR(child: nat)
    | Take(child: nat)
    | Drop(child: nat)
    | Comp(left: nat, right: nat)
    | Case(left: nat, right: nat)
    /** A case whose right branch is the hidden node at `right`. */
    | AssertL(left: nat, right: nat)
    /** A case whose left branch is the hidden node at `left`. */
    | AssertR(left: nat, right: nat)
    | Pair(left: nat, right: nat)
    | Disconnect(left: nat, right: nat)
    | Witness
    | Fail(first: seq<byte>, second: seq<byte>)
    | Hidden(hash: seq<byte>)
    | Jet(jet: nat)
    | Word(depth: nat, word: Values.Value)

  function Children(n: Node): seq<nat> {
    match n
    case InjL(c) => [c]
    case InjR(c) => [c]
    case Take(c) => [c]
    case Drop(c) => [c]
    case Comp(l, r) => [l, r]
    case Case(l, r) => [l, r]
    case AssertL(l, r) => [l, r]
    case AssertR(l, r) => [l, r]
    case Pair(l, r) => [l, r]
    case Disconnect(l, r) => [l, r]
    case _ => []
  }

  /** The largest depth of a word leaf: its depth is read with `decode_natural(bits, Some(32))`. */
  const MaxWordDepth: nat := 32

  /**
   * A jet decoder reads a jet identifier at the cursor (`J::decode`, generated code): on
   * success, the identifier and the position after it, within the stream.
   */
  ghost predicate JetAdvances(f: (seq<bool>, nat) -> Result<(nat, nat), Error>) {
    forall bits: seq<bool>, pos: nat :: f(bits, pos).Ok? ==> pos <= f(bits, pos).value.1 <= |bits|
  }

  type JetDecoder = f: (seq<bool>, nat) -> Result<(nat, nat), Error> | JetAdvances(f)
    witness (bits: seq<bool>, pos: nat) => Err(InvalidJet)

  // ---------------------------------------------------------------------
  // What a node may be, given the table before it

  /** Every child is an earlier node. */
  predicate ChildrenBefore(n: Node, index: nat) {
    match n
    case InjL(c) => c < index
    case InjR(c) => c < index
    case Take(c) => c < index
    case Drop(c) => c < index
    case Iden | Unit | Witness | Fail(_, _) | Hidden(_) | Jet(_) | Word(_, _) => true
    case _ => n.left < index && n.right < index
  }

  /** The case family: a hidden branch makes an assertion, and a case cannot have two. */
  predicate HiddenRule(prefix: seq<Node>, n: Node) {
    match n
    case Case(l, r) => l < |prefix| && r < |prefix| && !prefix[l].Hidden? && !prefix[r].Hidden?
    case AssertL(l, r) => l < |prefix| && r < |prefix| && !prefix[l].Hidden? && prefix[r].Hidden?
    case AssertR(l, r) => l < |prefix| && r < |prefix| && prefix[l].Hidden? && !prefix[r].Hidden?
    case _ => true
  }

  /** A commitment has 32 bytes, and a word of depth `d` is a value of the `2^(d-1)`-bit word type. */
  predicate PayloadFits(n: Node) {
    match n
    case Fail(a, b) => |a| == HashBytes && |b| == HashBytes
    case Hidden(h) => |h| == HashBytes
    case Word(d, v) => 1 <= d <= MaxWordDepth && Values.HasType(v, Values.PowerOfTwoTy(d - 1))
    case _ => true
  }

  /** `n` may be the node decoded after the nodes of `prefix`. */
  predicate NodeFits(prefix: seq<Node>, n: Node) {
    ChildrenBefore(n, |prefix|) && HiddenRule(prefix, n) && PayloadFits(n)
  }

  // ---------------------------------------------------------------------
  // The decoder

  /** `read_bits_be(n).ok_or(EndOfStream)`. */
  function ReadCode(bits: seq<bool>, pos: nat, n: nat): (r: Result<nat, Error>)
    ensures r.Ok? ==> pos + n <= |bits| && r.value < Pow2(n)
    ensures r.Err? ==> r == Err(EndOfStream) && |bits| < pos + n
  {
    match ReadBitsBe(bits, pos, n)
    case Some(v) => Ok(v)
    case None => Err(EndOfStream)
  }

  /** The subcode has two bits for codes 0 to 2 and one bit for code 3. */
  function SubcodeWidth(code: nat): nat {
    if code < 3 then 2 else 1
  }

  /** A back-reference: `index - decode_natural(bits, Some(index))`, the position of an earlier node. */
  function BackRef(bits: seq<bool>, pos: nat, index: nat): (r: Result<(nat, nat), Error>)
    ensures r.Ok? ==> r.value.0 < index && pos < r.value.1 <= |bits|
    ensures r.Err? ==> r.error == EndOfStream || r.error == NaturalOverflow || r.error == BadIndex
  {
    var n :- Natural(bits, pos, Some(index));
    Ok((index - n.0, n.1))
  }

  /** The case family's hidden-child rule. */
  function CaseNode(nodes: seq<Node>, l: nat, r: nat): (res: Result<Node, Error>)
    requires l < |nodes| && r < |nodes|
    ensures res.Err? <==> nodes[l].Hidden? && nodes[r].Hidden?
    ensures res.Err? ==> res.error == BothChildrenHidden
    ensures res.Ok? ==> (res.value.Case? || res.value.AssertL? || res.value.AssertR?)
    ensures res.Ok? ==> Children(res.value) == [l, r] && HiddenRule(nodes, res.value)
  {
    if nodes[l].Hidden? && nodes[r].Hidden? then Err(BothChildrenHidden)
    else if nodes[r].Hidden? then Ok(AssertL(l, r))
    else if nodes[l].Hidden? then Ok(AssertR(l, r))
    else Ok(Case(l, r))
  }

  /** After `1` and `0`: a word's depth, at most 32, then a value of the `2^(depth-1)`-bit word type. */
  function DecodeWord(bits: seq<bool>, pos: nat): (r: Result<(Node, nat), Error>)
    ensures r.Ok? ==> pos < r.value.1 <= |bits| && r.value.0.Word? && PayloadFits(r.value.0)
  {
    var d :- Natural(bits, pos, Some(MaxWordDepth));
    var w :- Values.DecodeValue(Values.PowerOfTwoTy(d.0 - 1), bits, d.1);
    Ok((Word(d.0, w.0), w.1))
  }

  /** After a leading `1`: `1` is a jet, `0` a word. */
  function DecodeJetOrWord(bits: seq<bool>, pos: nat, jet: JetDecoder): (r: Result<(Node, nat), Error>)
    ensures r.Ok? ==> pos < r.value.1 <= |bits| && PayloadFits(r.value.0)
    ensures r.Ok? ==> r.value.0.Jet? || r.value.0.Word?
  {
    if pos >= |bits| then Err(EndOfStream)
    else if bits[pos] then
      var j :- jet(bits, pos + 1);
      Ok((Jet(j.0), j.1))
    else DecodeWord(bits, pos + 1)
  }

  /** Code 0: two back-references, then the combinator its subcode names. */
  function DecodeBinary(bits: seq<bool>, pos: nat, nodes: seq<Node>, sub: nat): (r: Result<(Node, nat), Error>)
    ensures r.Ok? ==> pos < r.value.1 <= |bits| && NodeFits(nodes, r.value.0)
  {
    var l :- BackRef(bits, pos, |nodes|);
    var r :- BackRef(bits, l.1, |nodes|);
    var n :- BinaryNode(nodes, sub, l.0, r.0);
    Ok((n, r.1))
  }

  /** The combinator of code 0 that `sub` names, over the earlier nodes `l` and `r`. */
  function BinaryNode(nodes: seq<Node>, sub: nat, l: nat, r: nat): (res: Result<Node, Error>)
    requires l < |nodes| && r < |nodes|
    ensures res.Ok? ==> Children(res.value) == [l, r] && NodeFits(nodes, res.value)
  {
    match sub
    case 0 => Ok(Comp(l, r))
    case 1 => CaseNode(nodes, l, r)
    case 2 => Ok(Pair(l, r))
    case _ => Ok(Disconnect(l, r))
  }

  /** Code 1: one back-reference, then the combinator its subcode names. */
  function DecodeUnary(bits: seq<bool>, pos: nat, nodes: seq<Node>, sub: nat): (r: Result<(Node, nat), Error>)
    ensures r.Ok? ==> pos < r.value.1 <= |bits| && NodeFits(nodes, r.value.0)
  {
    var c :- BackRef(bits, pos, |nodes|);
    var n := match sub
      case 0 => InjL(c.0)
      case 1 => InjR(c.0)
      case 2 => Take(c.0)
      case _ => Drop(c.0);
    Ok((n, c.1))
  }

  /** Code 2: identity, unit, a failure with two commitments, or the stop code. */
  function DecodeCodeTwo(bits: seq<bool>, pos: nat, sub: nat): (r: Result<(Node, nat), Error>)
    ensures r.Ok? ==> pos <= r.value.1 && (pos <= |bits| ==> r.value.1 <= |bits|) && PayloadFits(r.value.0)
    ensures r.Ok? ==> r.value.0.Iden? || r.value.0.Unit? || r.value.0.Fail?
    ensures sub == 3 ==> r == Err(StopCode)
  {
    match sub
    case 0 => Ok((Iden, pos))
    case 1 => Ok((Unit, pos))
    case 2 =>
      var a :- Hash256(bits, pos);
      var b :- Hash256(bits, a.1);
      Ok((Fail(a.0, b.0), b.1))
    case _ => Err(StopCode)
  }

  /** Code 3: a hidden node with its commitment, or a witness. */
  function DecodeCodeThree(bits: seq<bool>, pos: nat, sub: nat): (r: Result<(Node, nat), Error>)
    ensures r.Ok? ==> pos <= r.value.1 && (pos <= |bits| ==> r.value.1 <= |bits|) && PayloadFits(r.value.0)
    ensures r.Ok? ==> r.value.0.Hidden? || r.value.0.Witness?
  {
    if sub == 0 then
      var h :- Hash256(bits, pos);
      Ok((Hidden(h.0), h.1))
    else
      Ok((Witness, pos))
  }

  /** The node for a 2-bit `code` and its `sub`code, whose operands start at `pos`. */
  function DecodeCoded(bits: seq<bool>, pos: nat, nodes: seq<Node>, code: nat, sub: nat): (r: Result<(Node, nat), Error>)
    ensures r.Ok? ==> pos <= r.value.1 && (pos <= |bits| ==> r.value.1 <= |bits|)
    ensures r.Ok? ==> NodeFits(nodes, r.value.0) && !r.value.0.Jet? && !r.value.0.Word?
  {
    if code == 0 then DecodeBinary(bits, pos, nodes, sub)
    else if code == 1 then DecodeUnary(bits, pos, nodes, sub)
    else if code == 2 then DecodeCodeTwo(bits, pos, sub)
    else DecodeCodeThree(bits, pos, sub)
  }

  /** `decode_node`: the node at `pos`, decoded against the table `nodes` of the nodes before it. */
  function DecodeNode(bits: seq<bool>, pos: nat, nodes: seq<Node>, jet: JetDecoder): (r: Result<(Node, nat), Error>)
    ensures r.Ok? ==> pos < r.value.1 <= |bits| && NodeFits(nodes, r.value.0)
  {
    if pos >= |bits| then Err(EndOfStream)
    else if bits[pos] then DecodeJetOrWord(bits, pos + 1, jet)
    else
      var code :- ReadCode(bits, pos + 1, 2);
      var sub :- ReadCode(bits, pos + 3, SubcodeWidth(code));
      DecodeCoded(bits, pos + 3 + SubcodeWidth(code), nodes, code, sub)
  }
}

/** The node encoder, the inverse of `decode_node` on every node but a jet. */
module NodeCodecProps {
  import opened Errors
  import opened Bits
  import opened Hashes
  import opened NaturalCodec
  import opened NaturalCodecProps
  import opened Nodes
  import Values

  /** The `0`, the 2-bit code and the subcode. */
  function Tag(code: nat, sub: nat): seq<bool> {
    [false] + ToBits(code, 2) + ToBits(sub, SubcodeWidth(code))
  }

  /** A back-reference to the earlier node `c`, from the node at `index`. */
  function Ref(index: nat, c: nat): seq<bool>
    requires c < index
  {
    EncodeNatural(index - c)
  }

  /** Two back-references, left then right. */
  function Refs(index: nat, l: nat, r: nat): seq<bool>
    requires l < index && r < index
  {
    Ref(index, l) + Ref(index, r)
  }

  /** The code and subcode of a node that has them (every node but a jet and a word). */
  function CodeOf(n: Node): (nat, nat)
    requires !n.Jet? && !n.Word?
  {
    match n
    case Comp(_, _) => (0, 0)
    case Case(_, _) => (0, 1)
    case AssertL(_, _) => (0, 1)
    case AssertR(_, _) => (0, 1)
    case Pair(_, _) => (0, 2)
    case Disconnect(_, _) => (0, 3)
    case InjL(_) => (1, 0)
    case InjR(_) => (1, 1)
    case Take(_) => (1, 2)
    case Drop(_) => (1, 3)
    case Iden => (2, 0)
    case Unit => (2, 1)
    case Fail(_, _) => (2, 2)
    case Hidden(_) => (3, 0)
    case Witness => (3, 1)
  }

  /** The bits of node `n` at position `index` of the table. */
  function EncodeNode(n: Node, index: nat): seq<bool>
    requires ChildrenBefore(n, index) && PayloadFits(n) && !n.Jet?
  {
    if n.Word? then
      [true, false] + (EncodeNatural(n.depth) + Values.EncodeValue(n.word))
    else
      Tag(CodeOf(n).0, CodeOf(n).1) + Operands(n, index)
  }

  /** What follows the tag: the back-references to the children, then the commitments. */
  function Operands(n: Node, index: nat): seq<bool>
    requires ChildrenBefore(n, index)
  {
    RefList(index, Children(n)) + Commitments(n)
  }

  /** The back-references to the children `cs`, in order. */
  function RefList(index: nat, cs: seq<nat>): seq<bool>
    requires forall k | 0 <= k < |cs| :: cs[k] < index
    decreases |cs|
  {
    if cs == [] then [] else Ref(index, cs[0]) + RefList(index, cs[1..])
  }

  /** The commitments a node carries: two for a failure, one for a hidden node. */
  function Commitments(n: Node): seq<bool> {
    match n
    case Fail(a, b) => EncodeHash(a) + EncodeHash(b)
    case Hidden(h) => EncodeHash(h)
    case _ => []
  }

  /** The operands by the number of children: one reference, two, or the commitments. */
  lemma OperandsOf(n: Node, index: nat)
    requires ChildrenBefore(n, index)
    ensures |Children(n)| == 1 ==> Operands(n, index) == Ref(index, Children(n)[0])
    ensures |Children(n)| == 2 ==> Operands(n, index) == Refs(index, Children(n)[0], Children(n)[1])
    ensures Children(n) == [] ==> Operands(n, index) == Commitments(n)
  {
    var cs := Children(n);
    if |cs| == 2 {
      assert cs[1..][1..] == [];
      assert RefList(index, cs[1..]) == Ref(index, cs[1]) + RefList(index, cs[1..][1..]);
    } else if |cs| == 1 {
      assert cs[1..] == [];
    }
  }

  // ---------------------------------------------------------------------
  // Encoder, then decoder

  /** Reading a tag gives its code and subcode, and the operands are read after it. */
  lemma TagRead(bits: seq<bool>, pos: nat, nodes: seq<Node>, jet: JetDecoder, code: nat, sub: nat, p: nat)
    requires code < 4 && sub < Pow2(SubcodeWidth(code))
    requires At(bits, pos, Tag(code, sub)) && p == pos + 3 + SubcodeWidth(code)
    ensures DecodeNode(bits, pos, nodes, jet) == DecodeCoded(bits, p, nodes, code, sub)
  {
    var w := SubcodeWidth(code);
    AtSplit(bits, pos, [false] + ToBits(code, 2), ToBits(sub, w));
    AtSplit(bits, pos, [false], ToBits(code, 2));
    AtIndex(bits, pos, [false], 0);
    assert Pow2(2) == 4;
    ToBitsValue(code, 2);
    ToBitsValue(sub, w);
    assert ReadCode(bits, pos + 1, 2) == Ok(code);
    assert ReadCode(bits, pos + 3, w) == Ok(sub);
  }

  lemma RefRoundTrip(bits: seq<bool>, pos: nat, index: nat, c: nat)
    requires c < index <= MaxNatural && At(bits, pos, Ref(index, c))
    ensures BackRef(bits, pos, index) == Ok((c, pos + |Ref(index, c)|))
  {
    NaturalWithin(bits, pos, index - c, index, pos + |Ref(index, c)|);
  }

  lemma UnaryRoundTrip(bits: seq<bool>, pos: nat, nodes: seq<Node>, n: Node, sub: nat, e: nat)
    requires n.InjL? || n.InjR? || n.Take? || n.Drop?
    requires sub == CodeOf(n).1 && n.child < |nodes| <= MaxNatural
    requires At(bits, pos, Ref(|nodes|, n.child)) && e == pos + |Ref(|nodes|, n.child)|
    ensures DecodeUnary(bits, pos, nodes, sub) == Ok((n, e))
  {
    RefRoundTrip(bits, pos, |nodes|, n.child);
  }

  /** The combinator a code-0 subcode names is the node it was encoded from. */
  lemma BinaryNodeOf(nodes: seq<Node>, n: Node, sub: nat)
    requires n.Comp? || n.Case? || n.AssertL? || n.AssertR? || n.Pair? || n.Disconnect?
    requires sub == CodeOf(n).1 && NodeFits(nodes, n)
    ensures BinaryNode(nodes, sub, n.left, n.right) == Ok(n)
  {
    if sub == 1 {
      assert CaseNode(nodes, n.left, n.right) == Ok(n);
    }
  }

  lemma BinaryRoundTrip(bits: seq<bool>, pos: nat, nodes: seq<Node>, n: Node, sub: nat, e: nat)
    requires n.Comp? || n.Case? || n.AssertL? || n.AssertR? || n.Pair? || n.Disconnect?
    requires sub == CodeOf(n).1 && NodeFits(nodes, n) && |nodes| <= MaxNatural
    requires At(bits, pos, Refs(|nodes|, n.left, n.right)) && e == pos + |Refs(|nodes|, n.left, n.right)|
    ensures DecodeBinary(bits, pos, nodes, sub) == Ok((n, e))
  {
    var m := pos + |Ref(|nodes|, n.left)|;
    RefsRoundTrip(bits, pos, |nodes|, n.left, n.right, m, e);
    BinaryNodeOf(nodes, n, sub);
    BinaryOfParts(bits, pos, nodes, sub, n, m, e);
  }

  /** Two back-references, read one after the other. */
  lemma RefsRoundTrip(bits: seq<bool>, pos: nat, index: nat, l: nat, r: nat, m: nat, e: nat)
    requires l < index <= MaxNatural && r < index
    requires At(bits, pos, Refs(index, l, r)) && m == pos + |Ref(index, l)| && e == m + |Ref(index, r)|
    ensures BackRef(bits, pos, index) == Ok((l, m)) && BackRef(bits, m, index) == Ok((r, e))
  {
    AtSplit(bits, pos, Ref(index, l), Ref(index, r));
    RefRoundTrip(bits, pos, index, l);
    RefRoundTrip(bits, m, index, r);
  }

  lemma BinaryOfParts(bits: seq<bool>, pos: nat, nodes: seq<Node>, sub: nat, n: Node, m: nat, e: nat)
    requires n.Comp? || n.Case? || n.AssertL? || n.AssertR? || n.Pair? || n.Disconnect?
    requires BackRef(bits, pos, |nodes|) == Ok((n.left, m)) && BackRef(bits, m, |nodes|) == Ok((n.right, e))
    requires n.left < |nodes| && n.right < |nodes| && BinaryNode(nodes, sub, n.left, n.right) == Ok(n)
    ensures DecodeBinary(bits, pos, nodes, sub) == Ok((n, e))
  {
  }

  lemma FailRoundTrip(bits: seq<bool>, pos: nat, a: seq<byte>, b: seq<byte>, e: nat)
    requires |a| == HashBytes && |b| == HashBytes
    requires At(bits, pos, EncodeHash(a) + EncodeHash(b)) && e == pos + 2 * HashBits
    ensures DecodeCodeTwo(bits, pos, 2) == Ok((Fail(a, b), e))
  {
    AtSplit(bits, pos, EncodeHash(a), EncodeHash(b));
    HashRoundTrip(bits, pos, a);
    HashRoundTrip(bits, pos + HashBits, b);
  }

  lemma CodeTwoRoundTrip(bits: seq<bool>, pos: nat, n: Node, sub: nat, e: nat)
    requires n.Iden? || n.Unit? || n.Fail?
    requires sub == CodeOf(n).1 && PayloadFits(n)
    requires At(bits, pos, Operands(n, 0)) && e == pos + |Operands(n, 0)|
    ensures DecodeCodeTwo(bits, pos, sub) == Ok((n, e))
  {
    if n.Fail? {
      FailRoundTrip(bits, pos, n.first, n.second, e);
    }
  }

  lemma CodeThreeRoundTrip(bits: seq<bool>, pos: nat, n: Node, sub: nat, e: nat)
    requires n.Hidden? || n.Witness?
    requires sub == CodeOf(n).1 && PayloadFits(n)
    requires At(bits, pos, Operands(n, 0)) && e == pos + |Operands(n, 0)|
    ensures DecodeCodeThree(bits, pos, sub) == Ok((n, e))
  {
    if n.Hidden? {
      HashRoundTrip(bits, pos, n.hash);
    }
  }

  /** A word: its depth as a natural bounded by 32, then its value. */
  lemma WordRoundTrip(bits: seq<bool>, pos: nat, n: Node, q: nat, e: nat)
    requires n.Word? && PayloadFits(n)
    requires At(bits, pos, EncodeNatural(n.depth) + Values.EncodeValue(n.word))
    requires q == pos + |EncodeNatural(n.depth)| && e == q + |Values.EncodeValue(n.word)|
    ensures DecodeWord(bits, pos) == Ok((n, e))
  {
    WordDepthRead(bits, pos, n.depth, Values.EncodeValue(n.word), q);
    WordValueRead(bits, pos, n.depth, n.word, q, e);
    WordOfParts(bits, pos, n.depth, n.word, q, e);
  }

  lemma WordDepthRead(bits: seq<bool>, pos: nat, d: nat, rest: seq<bool>, q: nat)
    requires 1 <= d <= MaxWordDepth && At(bits, pos, EncodeNatural(d) + rest) && q == pos + |EncodeNatural(d)|
    ensures Natural(bits, pos, Some(MaxWordDepth)) == Ok((d, q))
  {
    AtSplit(bits, pos, EncodeNatural(d), rest);
    NaturalWithin(bits, pos, d, MaxWordDepth, q);
  }

  lemma WordValueRead(bits: seq<bool>, pos: nat, d: nat, v: Values.Value, q: nat, e: nat)
    requires d >= 1 && Values.HasType(v, Values.PowerOfTwoTy(d - 1))
    requires At(bits, pos, EncodeNatural(d) + Values.EncodeValue(v))
    requires q == pos + |EncodeNatural(d)| && e == q + |Values.EncodeValue(v)|
    ensures Values.DecodeValue(Values.PowerOfTwoTy(d - 1), bits, q) == Ok((v, e))
  {
    AtSplit(bits, pos, EncodeNatural(d), Values.EncodeValue(v));
    Values.ValueRoundTrip(Values.PowerOfTwoTy(d - 1), v, bits, q);
  }

  lemma WordOfParts(bits: seq<bool>, pos: nat, d: nat, v: Values.Value, q: nat, e: nat)
    requires Natural(bits, pos, Some(MaxWordDepth)) == Ok((d, q))
    requires Values.DecodeValue(Values.PowerOfTwoTy(d - 1), bits, q) == Ok((v, e))
    ensures DecodeWord(bits, pos) == Ok((Word(d, v), e))
  {
  }

  /** The operands of every node but a jet and a word, read after its code and subcode. */
  lemma OperandsRoundTrip(bits: seq<bool>, pos: nat, nodes: seq<Node>, n: Node, code: nat, sub: nat, e: nat)
    requires NodeFits(nodes, n) && !n.Jet? && !n.Word? && |nodes| <= MaxNatural
    requires (code, sub) == CodeOf(n)
    requires At(bits, pos, Operands(n, |nodes|)) && e == pos + |Operands(n, |nodes|)|
    ensures DecodeCoded(bits, pos, nodes, code, sub) == Ok((n, e))
  {
    OperandsOf(n, |nodes|);
    if code == 0 {
      BinaryRoundTrip(bits, pos, nodes, n, sub, e);
    } else if code == 1 {
      UnaryRoundTrip(bits, pos, nodes, n, sub, e);
    } else if code == 2 {
      CodeTwoRoundTrip(bits, pos, n, sub, e);
    } else {
      CodeThreeRoundTrip(bits, pos, n, sub, e);
    }
  }

  /** The tag and operands of every node but a jet and a word. */
  lemma CodedRoundTrip(bits: seq<bool>, pos: nat, nodes: seq<Node>, jet: JetDecoder, n: Node, e: nat)
    requires NodeFits(nodes, n) && !n.Jet? && !n.Word? && |nodes| <= MaxNatural
    requires At(bits, pos, EncodeNode(n, |nodes|)) && e == pos + |EncodeNode(n, |nodes|)|
    ensures DecodeNode(bits, pos, nodes, jet) == Ok((n, e))
  {
    TagThenOperands(bits, pos, nodes, jet, n, CodeOf(n).0, CodeOf(n).1, e);
  }

  lemma TagThenOperands(bits: seq<bool>, pos: nat, nodes: seq<Node>, jet: JetDecoder, n: Node, code: nat, sub: nat, e: nat)
    requires NodeFits(nodes, n) && !n.Jet? && !n.Word? && |nodes| <= MaxNatural
    requires code == CodeOf(n).0 && sub == CodeOf(n).1
    requires At(bits, pos, Tag(code, sub) + Operands(n, |nodes|))
    requires e == pos + 3 + SubcodeWidth(code) + |Operands(n, |nodes|)|
    ensures DecodeNode(bits, pos, nodes, jet) == Ok((n, e))
  {
    var p := pos + 3 + SubcodeWidth(code);
    AtSplit(bits, pos, Tag(code, sub), Operands(n, |nodes|));
    assert code < 4 && sub < Pow2(SubcodeWidth(code)) by {
      assert Pow2(2) == 4 && Pow2(1) == 2;
    }
    TagRead(bits, pos, nodes, jet, code, sub, p);
    OperandsRoundTrip(bits, p, nodes, n, code, sub, e);
  }

  /** After `1` then `0`, `decode_node` reads a word. */
  lemma WordPrefix(bits: seq<bool>, pos: nat, nodes: seq<Node>, jet: JetDecoder)
    requires pos + 1 < |bits| && bits[pos] && !bits[pos + 1]
    ensures DecodeNode(bits, pos, nodes, jet) == DecodeWord(bits, pos + 2)
  {
  }

  /** The prefix `10` and what follows it. */
  lemma PrefixBits(bits: seq<bool>, pos: nat, rest: seq<bool>)
    requires At(bits, pos, [true, false] + rest)
    ensures pos + 1 < |bits| && bits[pos] && !bits[pos + 1] && At(bits, pos + 2, rest)
  {
    AtSplit(bits, pos, [true, false], rest);
    AtIndex(bits, pos, [true, false], 0);
    AtIndex(bits, pos, [true, false], 1);
  }

  /** A word node: the prefix `10`, then its depth and value. */
  lemma WordNodeRoundTrip(bits: seq<bool>, pos: nat, nodes: seq<Node>, jet: JetDecoder, n: Node, e: nat)
    requires n.Word? && PayloadFits(n)
    requires At(bits, pos, EncodeNode(n, |nodes|)) && e == pos + |EncodeNode(n, |nodes|)|
    ensures DecodeNode(bits, pos, nodes, jet) == Ok((n, e))
  {
    var rest := EncodeNatural(n.depth) + Values.EncodeValue(n.word);
    PrefixBits(bits, pos, rest);
    WordPrefix(bits, pos, nodes, jet);
    WordRoundTrip(bits, pos + 2, n, pos + 2 + |EncodeNatural(n.depth)|, e);
  }

  /** Decoding the encoding of any node but a jet gives it back and consumes exactly its encoding. */
  lemma NodeRoundTrip(bits: seq<bool>, pos: nat, nodes: seq<Node>, jet: JetDecoder, n: Node, e: nat)
    requires NodeFits(nodes, n) && !n.Jet? && |nodes| <= MaxNatural
    requires At(bits, pos, EncodeNode(n, |nodes|)) && e == pos + |EncodeNode(n, |nodes|)|
    ensures DecodeNode(bits, pos, nodes, jet) == Ok((n, e))
  {
    if n.Word? {
      WordNodeRoundTrip(bits, pos, nodes, jet, n, e);
    } else {
      CodedRoundTrip(bits, pos, nodes, jet, n, e);
    }
  }

  // ---------------------------------------------------------------------
  // Decoder, then encoder

  /** A back-reference that decodes is the encoding of the distance it names. */
  lemma RefDecoded(bits: seq<bool>, pos: nat, index: nat)
    requires BackRef(bits, pos, index).Ok?
    ensures At(bits, pos, Ref(index, BackRef(bits, pos, index).value.0))
    ensures BackRef(bits, pos, index).value.1 == pos + |Ref(index, BackRef(bits, pos, index).value.0)|
  {
    NaturalDecodedIsEncoding(bits, pos, Some(index));
  }

  lemma BinaryDecoded(bits: seq<bool>, pos: nat, nodes: seq<Node>, sub: nat)
    requires sub < 4 && DecodeBinary(bits, pos, nodes, sub).Ok?
    ensures var (n, e) := DecodeBinary(bits, pos, nodes, sub).value;
      (n.Comp? || n.Case? || n.AssertL? || n.AssertR? || n.Pair? || n.Disconnect?) &&
      CodeOf(n) == (0, sub) && At(bits, pos, Operands(n, |nodes|)) && e == pos + |Operands(n, |nodes|)|
  {
    var index := |nodes|;
    var l := BackRef(bits, pos, index).value;
    var r := BackRef(bits, l.1, index).value;
    var n := BinaryNode(nodes, sub, l.0, r.0).value;
    RefDecoded(bits, pos, index);
    RefDecoded(bits, l.1, index);
    AtJoin(bits, pos, Ref(index, l.0), Ref(index, r.0));
    BinaryNodeCode(nodes, sub, l.0, r.0);
    OperandsOf(n, index);
  }

  /** The combinator a code-0 subcode names has that subcode and the two children given. */
  lemma BinaryNodeCode(nodes: seq<Node>, sub: nat, l: nat, r: nat)
    requires sub < 4 && l < |nodes| && r < |nodes| && BinaryNode(nodes, sub, l, r).Ok?
    ensures var n := BinaryNode(nodes, sub, l, r).value;
      (n.Comp? || n.Case? || n.AssertL? || n.AssertR? || n.Pair? || n.Disconnect?) &&
      CodeOf(n) == (0, sub) && n.left == l && n.right == r
  {
  }

  lemma UnaryDecoded(bits: seq<bool>, pos: nat, nodes: seq<Node>, sub: nat)
    requires sub < 4 && DecodeUnary(bits, pos, nodes, sub).Ok?
    ensures var (n, e) := DecodeUnary(bits, pos, nodes, sub).value;
      (n.InjL? || n.InjR? || n.Take? || n.Drop?) &&
      CodeOf(n) == (1, sub) && At(bits, pos, Operands(n, |nodes|)) && e == pos + |Operands(n, |nodes|)|
  {
    RefDecoded(bits, pos, |nodes|);
    OperandsOf(DecodeUnary(bits, pos, nodes, sub).value.0, |nodes|);
  }

  lemma CodeTwoDecoded(bits: seq<bool>, pos: nat, sub: nat)
    requires pos <= |bits| && sub < 4 && DecodeCodeTwo(bits, pos, sub).Ok?
    ensures var (n, e) := DecodeCodeTwo(bits, pos, sub).value;
      CodeOf(n) == (2, sub) && At(bits, pos, Operands(n, 0)) && e == pos + |Operands(n, 0)|
  {
    if sub == 2 {
      var a := Hash256(bits, pos).value;
      HashDecodedIsEncoding(bits, pos);
      HashDecodedIsEncoding(bits, a.1);
      AtJoin(bits, pos, EncodeHash(a.0), EncodeHash(Hash256(bits, a.1).value.0));
    } else {
      assert bits[pos..pos] == [];
    }
  }

  lemma CodeThreeDecoded(bits: seq<bool>, pos: nat, sub: nat)
    requires pos <= |bits| && sub < 2 && DecodeCodeThree(bits, pos, sub).Ok?
    ensures var (n, e) := DecodeCodeThree(bits, pos, sub).value;
      CodeOf(n) == (3, sub) && At(bits, pos, Operands(n, 0)) && e == pos + |Operands(n, 0)|
  {
    if sub == 0 {
      HashDecodedIsEncoding(bits, pos);
    } else {
      assert bits[pos..pos] == [];
    }
  }

  /** A word that decodes is the encoding of its depth followed by the encoding of its value. */
  lemma WordDecoded(bits: seq<bool>, pos: nat)
    requires DecodeWord(bits, pos).Ok?
    ensures var (n, e) := DecodeWord(bits, pos).value;
      At(bits, pos, EncodeNatural(n.depth) + Values.EncodeValue(n.word)) &&
      e == pos + |EncodeNatural(n.depth)| + |Values.EncodeValue(n.word)|
  {
    var d := Natural(bits, pos, Some(MaxWordDepth)).value;
    var ty := Values.PowerOfTwoTy(d.0 - 1);
    var w := Values.DecodeValue(ty, bits, d.1).value;
    assert DecodeWord(bits, pos).value == (Word(d.0, w.0), w.1);
    WordPartsLaid(bits, pos, d.0, d.1, ty, w.0, w.1);
  }

  /** The depth's encoding, then the value's, each read where the decoder read it. */
  lemma WordPartsLaid(bits: seq<bool>, pos: nat, depth: nat, start: nat, ty: Values.Ty, v: Values.Value, e: nat)
    requires Natural(bits, pos, Some(MaxWordDepth)) == Ok((depth, start))
    requires Values.DecodeValue(ty, bits, start) == Ok((v, e))
    ensures At(bits, pos, EncodeNatural(depth) + Values.EncodeValue(v))
    ensures e == pos + |EncodeNatural(depth)| + |Values.EncodeValue(v)|
  {
    NaturalDecodedIsEncoding(bits, pos, Some(MaxWordDepth));
    Values.ValueDecodedIsEncoding(ty, bits, start);
    AtJoinAt(bits, pos, EncodeNatural(depth), Values.EncodeValue(v), start);
  }

  /** The bits a code and subcode were read from are their tag. */
  lemma TagDecoded(bits: seq<bool>, pos: nat, code: nat, sub: nat)
    requires pos < |bits| && !bits[pos]
    requires ReadCode(bits, pos + 1, 2) == Ok(code)
    requires ReadCode(bits, pos + 3, SubcodeWidth(code)) == Ok(sub)
    ensures At(bits, pos, Tag(code, sub))
  {
    var w := SubcodeWidth(code);
    var p1 := pos + 1;
    var p3 := pos + 3;
    BeValueBits(bits[p1..p3]);
    BeValueBits(bits[p3..p3 + w]);
    assert At(bits, pos, [false]);
    AtJoinAt(bits, pos, [false], ToBits(code, 2), p1);
    AtJoinAt(bits, pos, [false] + ToBits(code, 2), ToBits(sub, w), p3);
  }

  /** The operands of a coded node that decodes are the bits they were read from. */
  lemma CodedDecoded(bits: seq<bool>, pos: nat, nodes: seq<Node>, code: nat, sub: nat)
    requires pos <= |bits| && code < 4 && sub < Pow2(SubcodeWidth(code))
    requires DecodeCoded(bits, pos, nodes, code, sub).Ok?
    ensures var (n, e) := DecodeCoded(bits, pos, nodes, code, sub).value;
      CodeOf(n) == (code, sub) && At(bits, pos, Operands(n, |nodes|)) && e == pos + |Operands(n, |nodes|)|
  {
    assert Pow2(2) == 4 && Pow2(1) == 2;
    if code == 0 {
      BinaryDecoded(bits, pos, nodes, sub);
    } else if code == 1 {
      UnaryDecoded(bits, pos, nodes, sub);
    } else if code == 2 {
      CodeTwoDecoded(bits, pos, sub);
    } else {
      CodeThreeDecoded(bits, pos, sub);
    }
  }

  /** Every node but a jet that `decode_node` accepts is exactly the encoding it was read from. */
  lemma NodeDecodedIsEncoding(bits: seq<bool>, pos: nat, nodes: seq<Node>, jet: JetDecoder)
    requires DecodeNode(bits, pos, nodes, jet).Ok? && !DecodeNode(bits, pos, nodes, jet).value.0.Jet?
    ensures var (n, e) := DecodeNode(bits, pos, nodes, jet).value;
      At(bits, pos, EncodeNode(n, |nodes|)) && e == pos + |EncodeNode(n, |nodes|)|
  {
    if bits[pos] {
      WordNodeDecoded(bits, pos, nodes, jet);
    } else {
      CodedNodeDecoded(bits, pos, nodes, jet);
    }
  }

  lemma WordNodeDecoded(bits: seq<bool>, pos: nat, nodes: seq<Node>, jet: JetDecoder)
    requires pos < |bits| && bits[pos]
    requires DecodeNode(bits, pos, nodes, jet).Ok? && !DecodeNode(bits, pos, nodes, jet).value.0.Jet?
    ensures var (n, e) := DecodeNode(bits, pos, nodes, jet).value;
      At(bits, pos, EncodeNode(n, |nodes|)) && e == pos + |EncodeNode(n, |nodes|)|
  {
    assert pos + 1 < |bits| && !bits[pos + 1];
    assert DecodeNode(bits, pos, nodes, jet) == DecodeWord(bits, pos + 2);
    var (n, e) := DecodeWord(bits, pos + 2).value;
    var rest := EncodeNatural(n.depth) + Values.EncodeValue(n.word);
    WordDecoded(bits, pos + 2);
    assert At(bits, pos, [true, false]);
    AtConcat(bits, pos, [true, false], rest, EncodeNode(n, |nodes|));
  }

  lemma CodedNodeDecoded(bits: seq<bool>, pos: nat, nodes: seq<Node>, jet: JetDecoder)
    requires pos < |bits| && !bits[pos]
    requires DecodeNode(bits, pos, nodes, jet).Ok?
    ensures var (n, e) := DecodeNode(bits, pos, nodes, jet).value;
      !n.Jet? && !n.Word? && At(bits, pos, EncodeNode(n, |nodes|)) && e == pos + |EncodeNode(n, |nodes|)|
  {
    var code := ReadCode(bits, pos + 1, 2).value;
    var sub := ReadCode(bits, pos + 3, SubcodeWidth(code)).value;
    var p := pos + 3 + SubcodeWidth(code);
    assert DecodeNode(bits, pos, nodes, jet) == DecodeCoded(bits, p, nodes, code, sub);
    var (n, e) := DecodeCoded(bits, p, nodes, code, sub).value;
    TagDecoded(bits, pos, code, sub);
    CodedDecoded(bits, p, nodes, code, sub);
    AtConcat(bits, pos, Tag(code, sub), Operands(n, |nodes|), EncodeNode(n, |nodes|));
  }

  // ---------------------------------------------------------------------
  // The tag grammar's special cases

  /** Tag `0 10 11` is the stop code: `decode_node` reports `StopCode`. */
  lemma StopCodeRejected(bits: seq<bool>, pos: nat, nodes: seq<Node>, jet: JetDecoder)
    requires At(bits, pos, Tag(2, 3))
    ensures DecodeNode(bits, pos, nodes, jet) == Err(StopCode)
  {
    assert Pow2(2) == 4;
    TagRead(bits, pos, nodes, jet, 2, 3, pos + 5);
  }

  /** Prefix `11` hands the rest to the jet decoder, whose identifier becomes a jet node. */
  lemma JetPrefix(bits: seq<bool>, pos: nat, nodes: seq<Node>, jet: JetDecoder)
    requires At(bits, pos, [true, true])
    ensures jet(bits, pos + 2).Ok? ==>
      DecodeNode(bits, pos, nodes, jet) == Ok((Jet(jet(bits, pos + 2).value.0), jet(bits, pos + 2).value.1))
    ensures jet(bits, pos + 2).Err? ==> DecodeNode(bits, pos, nodes, jet) == Err(jet(bits, pos + 2).error)
  {
    AtIndex(bits, pos, [true, true], 0);
    AtIndex(bits, pos, [true, true], 1);
  }

  /** The first node of a program has no earlier node to refer to: a combinator there is `BadIndex`. */
  lemma FirstCombinatorBadIndex(bits: seq<bool>, pos: nat, jet: JetDecoder, code: nat, sub: nat)
    requires code < 2 && sub < 4 && At(bits, pos, Tag(code, sub))
    requires Natural(bits, pos + 5, None).Ok?
    ensures DecodeNode(bits, pos, [], jet) == Err(BadIndex)
  {
    assert Pow2(2) == 4;
    TagRead(bits, pos, [], jet, code, sub, pos + 5);
    NaturalBound(bits, pos + 5, 0);
    assert BackRef(bits, pos + 5, 0) == Err(BadIndex);
  }
}
