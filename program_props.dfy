/** The program encoder, the inverse of the program decoder on tables without jets, and the decoder's error cases. */
module ProgramCodecProps {
  import opened Errors
  import opened Bits
  import opened NaturalCodec
  import opened NaturalCodecProps
  import opened Nodes
  import opened NodeCodecProps
  import opened PostOrder
  import opened ProgramCodec

  /** The nodes `rest` may follow the table `done`: each fits the nodes before it, and none is a jet. */
  predicate Extends(done: seq<Node>, rest: seq<Node>)
    decreases |rest|
  {
    rest == [] ||
    (NodeFits(done, rest[0]) && !rest[0].Jet? && Extends(done + [rest[0]], rest[1..]))
  }

  /** A table the encoder can write: without jets (their encoding belongs to the jet set), each node fitting the ones before it. */
  predicate Encodable(nodes: seq<Node>) {
    Extends([], nodes)
  }

  /** The nodes `rest` after the table `done`, each encoded at its own position. */
  function EncodeNodes(done: seq<Node>, rest: seq<Node>): seq<bool>
    requires Extends(done, rest)
    decreases |rest|
  {
    if rest == [] then []
    else EncodeNode(rest[0], |done|) + EncodeNodes(done + [rest[0]], rest[1..])
  }

  /** The node count, then the nodes. */
  function EncodeProgram(nodes: seq<Node>): seq<bool>
    requires Encodable(nodes) && 1 <= |nodes| <= MaxNatural
  {
    EncodeNatural(|nodes|) + EncodeNodes([], nodes)
  }

  // ---------------------------------------------------------------------
  // Encoder, then decoder

  /** The first node of `rest` and the encoding of the others. */
  lemma EncodeNodesFirst(done: seq<Node>, rest: seq<Node>)
    requires Extends(done, rest) && rest != []
    ensures NodeFits(done, rest[0]) && !rest[0].Jet? && Extends(done + [rest[0]], rest[1..])
    ensures EncodeNodes(done, rest) == EncodeNode(rest[0], |done|) + EncodeNodes(done + [rest[0]], rest[1..])
  {
  }

  /** A node that fits `done` may be put in front of nodes that extend `done` with it. */
  lemma ExtendsPush(done: seq<Node>, n: Node, rest: seq<Node>, longer: seq<Node>, all: seq<Node>)
    requires longer == done + [n] && all == [n] + rest
    requires NodeFits(done, n) && !n.Jet? && Extends(longer, rest)
    ensures Extends(done, all)
    ensures EncodeNodes(done, all) == EncodeNode(n, |done|) + EncodeNodes(longer, rest)
  {
    assert all[1..] == rest;
  }

  lemma AppendFirst(done: seq<Node>, rest: seq<Node>)
    requires rest != []
    ensures (done + [rest[0]]) + rest[1..] == done + rest
  {
  }

  /** The encoding of `rest` at `pos`: its first node's, then the others' from `m` on. */
  lemma FirstLaid(bits: seq<bool>, pos: nat, done: seq<Node>, rest: seq<Node>, m: nat)
    requires Extends(done, rest) && rest != []
    requires At(bits, pos, EncodeNodes(done, rest)) && m == pos + |EncodeNode(rest[0], |done|)|
    ensures NodeFits(done, rest[0]) && !rest[0].Jet? && Extends(done + [rest[0]], rest[1..])
    ensures At(bits, pos, EncodeNode(rest[0], |done|))
    ensures At(bits, m, EncodeNodes(done + [rest[0]], rest[1..]))
    ensures |EncodeNodes(done, rest)| == |EncodeNode(rest[0], |done|)| + |EncodeNodes(done + [rest[0]], rest[1..])|
  {
    EncodeNodesFirst(done, rest);
    AtSplitAt(bits, pos, EncodeNode(rest[0], |done|), EncodeNodes(done + [rest[0]], rest[1..]), m);
  }

  /** The first node, then the others. */
  lemma FirstThenOthers(bits: seq<bool>, pos: nat, done: seq<Node>, rest: seq<Node>, jet: JetDecoder, m: nat, e: nat)
    requires WellFormed(done) && rest != []
    requires DecodeNode(bits, pos, done, jet) == Ok((rest[0], m))
    requires WellFormed(done + [rest[0]])
    requires DecodeNodes(bits, m, done + [rest[0]], |rest[1..]|, jet) == Ok(((done + [rest[0]]) + rest[1..], e))
    ensures DecodeNodes(bits, pos, done, |rest|, jet) == Ok((done + rest, e))
  {
    DecodeNodesStep(bits, pos, done, |rest|, |rest[1..]|, jet, rest[0], m);
    AppendFirst(done, rest);
  }

  /** `DecodeNodes` on the encoding of `rest`, after the table `done`, appends `rest` and stops at its end. */
  lemma {:induction false} NodesRoundTrip(bits: seq<bool>, pos: nat, done: seq<Node>, rest: seq<Node>, jet: JetDecoder, e: nat)
    requires WellFormed(done) && Extends(done, rest) && |done| + |rest| <= MaxNatural
    requires At(bits, pos, EncodeNodes(done, rest)) && e == pos + |EncodeNodes(done, rest)|
    ensures DecodeNodes(bits, pos, done, |rest|, jet) == Ok((done + rest, e))
    decreases |rest|
  {
    if rest == [] {
      assert done + rest == done;
    } else {
      var m := pos + |EncodeNode(rest[0], |done|)|;
      FirstLaid(bits, pos, done, rest, m);
      NodeRoundTrip(bits, pos, done, jet, rest[0], m);
      WellFormedPush(done, rest[0]);
      NodesRoundTrip(bits, m, done + [rest[0]], rest[1..], jet, e);
      FirstThenOthers(bits, pos, done, rest, jet, m, e);
    }
  }

  /** `decode_natural` without a bound reads back an encoded count. */
  lemma CountRoundTrip(bits: seq<bool>, pos: nat, n: nat, e: nat)
    requires 1 <= n <= MaxNatural && At(bits, pos, EncodeNatural(n)) && e == pos + |EncodeNatural(n)|
    ensures Natural(bits, pos, None) == Ok((n, e))
  {
    NaturalRoundTrip(bits, pos, n, None);
  }

  /** The count, then the table: what the program decoder reads before its canonical-order check. */
  lemma TableRoundTrip(bits: seq<bool>, pos: nat, nodes: seq<Node>, jet: JetDecoder, start: nat, e: nat)
    requires Encodable(nodes) && 1 <= |nodes| <= MaxNodes
    requires At(bits, pos, EncodeProgram(nodes))
    requires start == pos + |EncodeNatural(|nodes|)| && e == start + |EncodeNodes([], nodes)|
    ensures Natural(bits, pos, None) == Ok((|nodes|, start))
    ensures DecodeNodes(bits, start, [], |nodes|, jet) == Ok((nodes, e))
  {
    var n := |nodes|;
    var empty: seq<Node> := [];
    AtSplitAt(bits, pos, EncodeNatural(n), EncodeNodes(empty, nodes), start);
    CountRoundTrip(bits, pos, n, start);
    assert WellFormed(empty) && |empty| + n <= MaxNatural;
    NodesRoundTrip(bits, start, empty, nodes, jet, e);
    assert [] + nodes == nodes;
  }

  /** Decoding the encoding of a canonical table gives it back and consumes exactly its encoding. */
  lemma ProgramRoundTrip(bits: seq<bool>, pos: nat, nodes: seq<Node>, jet: JetDecoder)
    requires Encodable(nodes) && 1 <= |nodes| <= MaxNodes
    requires Ordered(nodes) && Canonical(nodes)
    requires At(bits, pos, EncodeProgram(nodes))
    ensures DecodeProgramSpec(bits, pos, jet).Ok?
    ensures DecodeProgramSpec(bits, pos, jet).value.0 == nodes
    ensures DecodeProgramSpec(bits, pos, jet).value.1 == pos + |EncodeProgram(nodes)|
  {
    var start := pos + |EncodeNatural(|nodes|)|;
    var e := start + |EncodeNodes([], nodes)|;
    TableRoundTrip(bits, pos, nodes, jet, start, e);
    ProgramOfParts(bits, pos, jet, |nodes|, start, nodes, e);
  }

  /** The encoding of a table that is not canonical is rejected with `NotInCanonicalOrder`. */
  lemma NonCanonicalRejected(bits: seq<bool>, pos: nat, nodes: seq<Node>, jet: JetDecoder)
    requires Encodable(nodes) && 1 <= |nodes| <= MaxNodes
    requires Ordered(nodes) && !Canonical(nodes)
    requires At(bits, pos, EncodeProgram(nodes))
    ensures DecodeProgramSpec(bits, pos, jet) == Err(NotInCanonicalOrder)
  {
    var start := pos + |EncodeNatural(|nodes|)|;
    var e := start + |EncodeNodes([], nodes)|;
    TableRoundTrip(bits, pos, nodes, jet, start, e);
    ProgramOfParts(bits, pos, jet, |nodes|, start, nodes, e);
  }

  /** A count above the ceiling is rejected with `TooManyNodes` carrying the count, before any node is read. */
  lemma TooManyRejected(bits: seq<bool>, pos: nat, n: nat, jet: JetDecoder)
    requires MaxNodes < n <= MaxNatural && At(bits, pos, EncodeNatural(n))
    ensures DecodeProgramSpec(bits, pos, jet) == Err(TooManyNodes(n))
  {
    CountRoundTrip(bits, pos, n, pos + |EncodeNatural(n)|);
    ProgramHeader(bits, pos, jet);
  }

  // ---------------------------------------------------------------------
  // Decoder, then encoder

  /** When `DecodeNodes` appends `rest`, the first node decoded is `rest[0]` and the others append the remainder. */
  lemma NodesFirst(bits: seq<bool>, pos: nat, done: seq<Node>, count: nat, jet: JetDecoder, rest: seq<Node>, e: nat)
    requires WellFormed(done) && count > 0 && DecodeNodes(bits, pos, done, count, jet) == Ok((done + rest, e))
    ensures rest != [] && DecodeNode(bits, pos, done, jet).Ok? && DecodeNode(bits, pos, done, jet).value.0 == rest[0]
    ensures WellFormed(done + [rest[0]])
    ensures DecodeNodes(bits, DecodeNode(bits, pos, done, jet).value.1, done + [rest[0]], count - 1, jet) == Ok(((done + [rest[0]]) + rest[1..], e))
  {
    if DecodeNode(bits, pos, done, jet).Err? {
      DecodeNodesFails(bits, pos, done, count, jet);
      assert false;
    }
    var (n, m) := DecodeNode(bits, pos, done, jet).value;
    DecodeNodesStep(bits, pos, done, count, count - 1, jet, n, m);
    var t := DecodeNodes(bits, m, done + [n], count - 1, jet).value.0;
    assert t == done + rest;
    assert rest[0] == t[|done|] == n;
    AppendFirst(done, rest);
  }

  /** `DecodeNodes` at `pos` appends `rest`, none of them a jet, and stops at `e`. */
  predicate AppendsNoJets(bits: seq<bool>, pos: nat, done: seq<Node>, count: nat, jet: JetDecoder, rest: seq<Node>, e: nat) {
    WellFormed(done) && pos <= |bits| && DecodeNodes(bits, pos, done, count, jet) == Ok((done + rest, e)) &&
    forall k | 0 <= k < |rest| :: !rest[k].Jet?
  }

  /** `rest` may follow `done`, and its encoding lies at `pos` and ends at `e`. */
  predicate EncodedAt(bits: seq<bool>, pos: nat, done: seq<Node>, rest: seq<Node>, e: nat) {
    Extends(done, rest) && At(bits, pos, EncodeNodes(done, rest)) && e == pos + |EncodeNodes(done, rest)|
  }

  /** The first node `DecodeNodes` appends, read from exactly its encoding, and where the others start. */
  lemma FirstDecoded(bits: seq<bool>, pos: nat, done: seq<Node>, count: nat, jet: JetDecoder, rest: seq<Node>, e: nat) returns (m: nat)
    requires count > 0 && AppendsNoJets(bits, pos, done, count, jet, rest, e)
    ensures rest != [] && NodeFits(done, rest[0]) && !rest[0].Jet?
    ensures At(bits, pos, EncodeNode(rest[0], |done|)) && m == pos + |EncodeNode(rest[0], |done|)|
    ensures AppendsNoJets(bits, m, done + [rest[0]], count - 1, jet, rest[1..], e)
  {
    NodesFirst(bits, pos, done, count, jet, rest, e);
    m := DecodeNode(bits, pos, done, jet).value.1;
    NodeDecodedIsEncoding(bits, pos, done, jet);
    forall k | 0 <= k < |rest[1..]| ensures !rest[1..][k].Jet? {
      assert rest[1..][k] == rest[k + 1];
    }
  }

  /** A node's encoding followed by the encoding of the nodes after it is the encoding of them all. */
  lemma NodesJoined(bits: seq<bool>, pos: nat, done: seq<Node>, rest: seq<Node>, m: nat, e: nat)
    requires rest != [] && NodeFits(done, rest[0]) && !rest[0].Jet?
    requires At(bits, pos, EncodeNode(rest[0], |done|)) && m == pos + |EncodeNode(rest[0], |done|)|
    requires EncodedAt(bits, m, done + [rest[0]], rest[1..], e)
    ensures EncodedAt(bits, pos, done, rest, e)
  {
    var n := rest[0];
    var longer := done + [n];
    var tail := rest[1..];
    assert rest == [n] + tail;
    ExtendsPush(done, n, tail, longer, rest);
    AtJoinAt(bits, pos, EncodeNode(n, |done|), EncodeNodes(longer, tail), m);
  }

  /** The nodes `DecodeNodes` appends, when none is a jet, are nodes the encoder writes, read from exactly their encoding. */
  lemma {:induction false} NodesDecodedIsEncoding(bits: seq<bool>, pos: nat, done: seq<Node>, count: nat, jet: JetDecoder, rest: seq<Node>, e: nat)
    requires AppendsNoJets(bits, pos, done, count, jet, rest, e)
    ensures EncodedAt(bits, pos, done, rest, e)
    decreases count
  {
    if count == 0 {
      assert |done + rest| == |done|;
    } else {
      var m := FirstDecoded(bits, pos, done, count, jet, rest, e);
      NodesDecodedIsEncoding(bits, m, done + [rest[0]], count - 1, jet, rest[1..], e);
      NodesJoined(bits, pos, done, rest, m, e);
    }
  }

  /**
   * A decoded program without jets re-encodes to exactly the bits it was read from:
   * its table is one the encoder can write, and the encoding ends where decoding ended.
   */
  lemma ProgramDecodedIsEncoding(bits: seq<bool>, pos: nat, jet: JetDecoder)
    requires DecodeProgramSpec(bits, pos, jet).Ok?
    requires forall k | 0 <= k < |DecodeProgramSpec(bits, pos, jet).value.0| :: !DecodeProgramSpec(bits, pos, jet).value.0[k].Jet?
    ensures Encodable(DecodeProgramSpec(bits, pos, jet).value.0)
    ensures At(bits, pos, EncodeProgram(DecodeProgramSpec(bits, pos, jet).value.0))
    ensures DecodeProgramSpec(bits, pos, jet).value.1 == pos + |EncodeProgram(DecodeProgramSpec(bits, pos, jet).value.0)|
  {
    var (nodes, e) := DecodeProgramSpec(bits, pos, jet).value;
    var (count, start) := Natural(bits, pos, None).value;
    var empty: seq<Node> := [];
    ProgramHeader(bits, pos, jet);
    var t := DecodeNodes(bits, start, empty, count, jet).value;
    ProgramOfParts(bits, pos, jet, count, start, t.0, t.1);
    assert t == (nodes, e);
    assert empty + nodes == nodes;
    NaturalDecodedIsEncoding(bits, pos, None);
    NodesDecodedIsEncoding(bits, start, empty, count, jet, nodes, e);
    AtJoinAt(bits, pos, EncodeNatural(count), EncodeNodes(empty, nodes), start);
  }

  /** A decoded program lists its nodes in post-order: position `k` is the `k`-th node visited from the root, the last one. */
  lemma DecodedInPostOrder(bits: seq<bool>, pos: nat, jet: JetDecoder)
    requires DecodeProgramSpec(bits, pos, jet).Ok?
    ensures var nodes := DecodeProgramSpec(bits, pos, jet).value.0;
      Traversal(nodes) == Range(|nodes|)
  {
    CanonicalIff(DecodeProgramSpec(bits, pos, jet).value.0);
  }
}
