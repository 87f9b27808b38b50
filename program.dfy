/**
 * `decode_program_arbitrary_type`: the node count, the node table read one node at a
 * time against the nodes before it, and the canonical-order check. The program is the
 * table; its root is the last node.
 */
module ProgramCodec {
  import opened Errors
  import opened Bits
  import opened NaturalCodec
  import opened Nodes
  import opened PostOrder

  /** The ceiling on the node count. */
  const MaxNodes: nat := 1_000_000

  /** Every node fits the table before it, as `decode_node` leaves it: the last one, and the rest likewise. */
  predicate WellFormed(nodes: seq<Node>)
    decreases |nodes|
  {
    nodes == [] ||
    (var init := nodes[..|nodes| - 1];
     WellFormed(init) && NodeFits(init, nodes[|nodes| - 1]))
  }

  /** A prefix of a well-formed table is well formed. */
  lemma {:induction false} PrefixWellFormed(nodes: seq<Node>, j: nat)
    requires WellFormed(nodes) && j <= |nodes|
    ensures WellFormed(nodes[..j])
    decreases |nodes|
  {
    if j < |nodes| {
      var init := nodes[..|nodes| - 1];
      PrefixWellFormed(init, j);
      assert init[..j] == nodes[..j];
    } else {
      assert nodes[..j] == nodes;
    }
  }

  /** Each node of a well-formed table fits the nodes before it. */
  lemma WellFormedAt(nodes: seq<Node>, i: nat)
    requires WellFormed(nodes) && i < |nodes|
    ensures NodeFits(nodes[..i], nodes[i])
  {
    PrefixWellFormed(nodes, i + 1);
    var t := nodes[..i + 1];
    assert t[..i] == nodes[..i];
  }

  lemma WellFormedOrdered(nodes: seq<Node>)
    requires WellFormed(nodes)
    ensures Ordered(nodes)
  {
    forall i | 0 <= i < |nodes| ensures ChildrenBefore(nodes[i], i) {
      WellFormedAt(nodes, i);
    }
  }

  /** A node that fits the table may be pushed onto it. */
  lemma WellFormedPush(nodes: seq<Node>, n: Node)
    requires WellFormed(nodes) && NodeFits(nodes, n)
    ensures WellFormed(nodes + [n])
  {
    assert (nodes + [n])[..|nodes|] == nodes;
  }

  /** `count` more nodes read at `pos`, each decoded against the table built so far. */
  function DecodeNodes(bits: seq<bool>, pos: nat, nodes: seq<Node>, count: nat, jet: JetDecoder): (r: Result<(seq<Node>, nat), Error>)
    requires WellFormed(nodes)
    ensures r.Ok? ==> |r.value.0| == |nodes| + count && nodes <= r.value.0 && WellFormed(r.value.0)
    ensures r.Ok? ==> pos <= r.value.1 && (count > 0 ==> r.value.1 <= |bits|)
    decreases count
  {
    if count == 0 then Ok((nodes, pos))
    else
      var n :- DecodeNode(bits, pos, nodes, jet);
      WellFormedPush(nodes, n.0);
      DecodeNodes(bits, n.1, nodes + [n.0], count - 1, jet)
  }

  /** One step of `DecodeNodes`: the next node, then the rest against the longer table. */
  lemma DecodeNodesStep(bits: seq<bool>, pos: nat, nodes: seq<Node>, count: nat, left: nat, jet: JetDecoder, n: Node, m: nat)
    requires WellFormed(nodes) && count == left + 1 && DecodeNode(bits, pos, nodes, jet) == Ok((n, m))
    ensures WellFormed(nodes + [n])
    ensures DecodeNodes(bits, pos, nodes, count, jet) == DecodeNodes(bits, m, nodes + [n], left, jet)
  {
    WellFormedPush(nodes, n);
  }

  /** A node that fails to decode fails the table with the same error. */
  lemma DecodeNodesFails(bits: seq<bool>, pos: nat, nodes: seq<Node>, count: nat, jet: JetDecoder)
    requires WellFormed(nodes) && count > 0 && DecodeNode(bits, pos, nodes, jet).Err?
    ensures DecodeNodes(bits, pos, nodes, count, jet) == Err(DecodeNode(bits, pos, nodes, jet).error)
  {
  }

  /** What `decode_program_arbitrary_type` reads at `pos`: the node table and the position after it. */
  function DecodeProgramSpec(bits: seq<bool>, pos: nat, jet: JetDecoder): (r: Result<(seq<Node>, nat), Error>)
    ensures r.Ok? ==> 1 <= |r.value.0| <= MaxNodes && WellFormed(r.value.0)
    ensures r.Ok? ==> Natural(bits, pos, None).Ok? && |r.value.0| == Natural(bits, pos, None).value.0
    ensures r.Ok? ==> pos < r.value.1 <= |bits|
    ensures r.Ok? ==> Ordered(r.value.0) && Canonical(r.value.0)
  {
    var len :- Natural(bits, pos, None);
    // The count is at least 1, so `EmptyProgram` is never returned here.
    if len.0 == 0 then assert false; Err(EmptyProgram)
    else if len.0 > MaxNodes then Err(TooManyNodes(len.0))
    else
      var t :- DecodeNodes(bits, len.1, [], len.0, jet);
      WellFormedOrdered(t.0);
      if !Canonical(t.0) then Err(NotInCanonicalOrder) else Ok(t)
  }

  /** The spec once the count and the table are read: the canonical-order check decides. */
  lemma ProgramOfParts(bits: seq<bool>, pos: nat, jet: JetDecoder, count: nat, start: nat, nodes: seq<Node>, p: nat)
    requires Natural(bits, pos, None) == Ok((count, start)) && 1 <= count <= MaxNodes
    requires DecodeNodes(bits, start, [], count, jet) == Ok((nodes, p))
    ensures |nodes| > 0 && Ordered(nodes)
    ensures DecodeProgramSpec(bits, pos, jet) == if Canonical(nodes) then Ok((nodes, p)) else Err(NotInCanonicalOrder)
  {
    WellFormedOrdered(nodes);
    if Canonical(nodes) {
      assert DecodeProgramSpec(bits, pos, jet) == Ok((nodes, p));
    } else {
      assert DecodeProgramSpec(bits, pos, jet) == Err(NotInCanonicalOrder);
    }
  }

  /** The spec when the count or a node fails, or the count is out of range. */
  lemma ProgramHeader(bits: seq<bool>, pos: nat, jet: JetDecoder)
    ensures Natural(bits, pos, None).Err? ==> DecodeProgramSpec(bits, pos, jet) == Err(Natural(bits, pos, None).error)
    ensures Natural(bits, pos, None).Ok? && Natural(bits, pos, None).value.0 > MaxNodes ==>
      DecodeProgramSpec(bits, pos, jet) == Err(TooManyNodes(Natural(bits, pos, None).value.0))
    ensures Natural(bits, pos, None).Ok? && 1 <= Natural(bits, pos, None).value.0 <= MaxNodes ==>
      var (count, start) := Natural(bits, pos, None).value;
      DecodeNodes(bits, start, [], count, jet).Err? ==>
      DecodeProgramSpec(bits, pos, jet) == Err(DecodeNodes(bits, start, [], count, jet).error)
  {
  }

  /** The walk over the post-order from the root: each visited node must sit at its own position. */
  method CheckCanonical(nodes: seq<Node>) returns (ok: bool)
    requires |nodes| > 0 && Ordered(nodes)
    ensures ok <==> Canonical(nodes)
  {
    var t := Traversal(nodes);
    for k := 0 to |t|
      invariant forall j | 0 <= j < k :: j < |nodes| && t[j] == j
    {
      if k >= |nodes| || t[k] != k {
        return false;
      }
    }
    return true;
  }

  /** The source's procedure: the count, then a loop pushing one node at a time, then the check. */
  method DecodeProgram(bits: seq<bool>, pos: nat, jet: JetDecoder) returns (r: Result<(seq<Node>, nat), Error>)
    ensures r == DecodeProgramSpec(bits, pos, jet)
  {
    ProgramHeader(bits, pos, jet);
    var len := DecodeNatural(bits, pos, None);
    if len.Err? {
      return Err(len.error);
    }
    var count := len.value.0;
    var start := len.value.1;
    if count == 0 {
      assert false;
      return Err(EmptyProgram);
    }
    if count > MaxNodes {
      return Err(TooManyNodes(count));
    }
    var nodes: seq<Node> := [];
    var p := start;
    var left := count;
    for k := 0 to count
      invariant |nodes| == k && WellFormed(nodes) && left == count - k
      invariant DecodeNodes(bits, start, [], count, jet) == DecodeNodes(bits, p, nodes, left, jet)
    {
      var n := DecodeNode(bits, p, nodes, jet);
      if n.Err? {
        DecodeNodesFails(bits, p, nodes, left, jet);
        return Err(n.error);
      }
      var next := left - 1;
      DecodeNodesStep(bits, p, nodes, left, next, jet, n.value.0, n.value.1);
      nodes := nodes + [n.value.0];
      p := n.value.1;
      left := next;
    }
    ProgramOfParts(bits, pos, jet, count, start, nodes, p);
    var ok := CheckCanonical(nodes);
    if !ok {
      return Err(NotInCanonicalOrder);
    }
    return Ok((nodes, p));
  }
}
