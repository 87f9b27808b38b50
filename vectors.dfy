/**
 * The program test vectors of src/decode.rs, stated on the model: the node tables they
 * decode to, and what the program decoder makes of them.
 */
module Vectors {
  import opened Errors
  import opened Bits
  import opened Hashes
  import opened NaturalCodec
  import opened NaturalCodecProps
  import opened Nodes
  import opened NodeCodecProps
  import opened PostOrder
  import opened ProgramCodec
  import opened ProgramCodecProps

  /** "comp unit iden" written with the `iden` first: `iden`, `unit`, then `comp` of node 1 and node 0. */
  const SwappedTable: seq<Node> := [Iden, Unit, Comp(1, 0)]

  /** "comp unit unit" with an extra unconnected `unit` in front. */
  const ExtraUnitTable: seq<Node> := [Unit, Unit, Comp(1, 1)]

  /** The first three naturals' encodings. */
  lemma SmallNaturals()
    ensures EncodeNatural(1) == [false]
    ensures EncodeNatural(2) == [true, false, false]
    ensures EncodeNatural(3) == [true, false, true]
  {
    assert Log2(2) == 1 && Log2(3) == 1;
    assert Depth(2) == 1 && Depth(3) == 1;
    assert LowBits(2) == [false] && LowBits(3) == [true];
  }

  /** The bytes of a program, eight bits each, most significant first. */
  function ProgramBits(bytes: seq<byte>): (r: seq<bool>)
    ensures |r| == 8 * |bytes|
  {
    EncodeHash(bytes)
  }

  /** Three nodes, each fitting the ones before it, make an encodable table of three encodings. */
  lemma ThreeNodes(a: Node, b: Node, c: Node)
    requires NodeFits([], a) && NodeFits([a], b) && NodeFits([a, b], c)
    requires !a.Jet? && !b.Jet? && !c.Jet?
    ensures Encodable([a, b, c])
    ensures EncodeNodes([], [a, b, c]) == EncodeNode(a, 0) + (EncodeNode(b, 1) + EncodeNode(c, 2))
  {
    LastNode([a, b], c, 2);
    ExtendsPush([a], b, [c], [a, b], [b, c]);
    ExtendsPush([], a, [b, c], [a], [a, b, c]);
  }

  /** A table of one node after `done`. */
  lemma LastNode(done: seq<Node>, c: Node, index: nat)
    requires NodeFits(done, c) && !c.Jet? && index == |done|
    ensures Extends(done, [c]) && EncodeNodes(done, [c]) == EncodeNode(c, index)
  {
    ExtendsPush(done, c, [], done + [c], [c]);
  }

  /** A node without children, not yet seen, is listed after `seen`. */
  lemma VisitLeaf(nodes: seq<Node>, i: nat, seen: seq<nat>)
    requires i < |nodes| && Ordered(nodes) && i !in seen && Children(nodes[i]) == []
    ensures Visit(nodes, i, seen) == seen + [i]
  {
  }

  /** A binary node not yet seen: its left child's visit, its right child's, then the node. */
  lemma VisitBinary(nodes: seq<Node>, i: nat, l: nat, r: nat, seen: seq<nat>, s1: seq<nat>, s2: seq<nat>)
    requires i < |nodes| && Ordered(nodes) && i !in seen && Children(nodes[i]) == [l, r]
    requires l < |nodes| && r < |nodes| && s1 == Visit(nodes, l, seen) && s2 == Visit(nodes, r, s1)
    ensures Visit(nodes, i, seen) == s2 + [i]
  {
    ChildrenBelow(nodes[i], i);
    VisitUnseen(nodes, i, seen, s1, s2);
  }

  /** The positions `0, 1, 2, 3, 4`, each in its own place. */
  lemma PositionsInPlace(t: seq<nat>)
    requires t == [0, 1, 2, 3, 4]
    ensures forall k | 0 <= k < |t| :: k < 5 && t[k] == k
  {
  }

  lemma SwappedOrdered()
    ensures Ordered(SwappedTable)
  {
    assert ChildrenBefore(SwappedTable[2], 2);
  }

  lemma SwappedVisitOne()
    ensures Ordered(SwappedTable) && Visit(SwappedTable, 1, []) == [1]
  {
    SwappedOrdered();
    VisitLeaf(SwappedTable, 1, []);
  }

  lemma SwappedVisitZero()
    ensures Ordered(SwappedTable) && Visit(SwappedTable, 0, [1]) == [1, 0]
  {
    SwappedOrdered();
    VisitLeaf(SwappedTable, 0, [1]);
  }

  /** The swapped table's post-order: `unit` (node 1), then `iden` (node 0), then the root. */
  lemma SwappedTraversal()
    ensures Ordered(SwappedTable) && Traversal(SwappedTable) == [1, 0, 2]
  {
    SwappedVisitOne();
    SwappedVisitZero();
    VisitBinary(SwappedTable, 2, 1, 0, [], [1], [1, 0]);
  }

  /** The swapped table fails the canonical-order check at its first node. */
  lemma SwappedTableNotCanonical()
    ensures Encodable(SwappedTable) && Ordered(SwappedTable) && !Canonical(SwappedTable)
  {
    ThreeNodes(Iden, Unit, Comp(1, 0));
    SwappedTraversal();
    assert Traversal(SwappedTable)[0] == 1;
  }

  lemma ExtraUnitOrdered()
    ensures Ordered(ExtraUnitTable)
  {
    assert ChildrenBefore(ExtraUnitTable[2], 2);
  }

  lemma ExtraUnitVisitOne()
    ensures Ordered(ExtraUnitTable) && Visit(ExtraUnitTable, 1, []) == [1] && Visit(ExtraUnitTable, 1, [1]) == [1]
  {
    ExtraUnitOrdered();
    VisitLeaf(ExtraUnitTable, 1, []);
  }

  /** The post-order of the table with the extra `unit`: node 1 once, then the root; node 0 is never reached. */
  lemma ExtraUnitTraversal()
    ensures Ordered(ExtraUnitTable) && Traversal(ExtraUnitTable) == [1, 2]
  {
    ExtraUnitVisitOne();
    VisitBinary(ExtraUnitTable, 2, 1, 1, [], [1], [1]);
  }

  /** The table with the extra `unit` fails the canonical-order check at its first node. */
  lemma ExtraUnitTableNotCanonical()
    ensures Encodable(ExtraUnitTable) && Ordered(ExtraUnitTable) && !Canonical(ExtraUnitTable)
  {
    ThreeNodes(Unit, Unit, Comp(1, 1));
    ExtraUnitTraversal();
    assert Traversal(ExtraUnitTable)[0] == 1;
  }

  /** The tag of `iden`: code 2, subcode 0. */
  lemma IdenTag(index: nat)
    ensures EncodeNode(Iden, index) == [false, true, false, false, false]
  {
    assert ToBits(2, 2) == [true, false];
    assert ToBits(0, 2) == [false, false];
  }

  /** The tag of `unit`: code 2, subcode 1. */
  lemma UnitTag(index: nat)
    ensures EncodeNode(Unit, index) == [false, true, false, false, true]
  {
    assert ToBits(2, 2) == [true, false];
    assert ToBits(1, 2) == [false, true];
  }

  /** `comp` of node 1 and node 0, at position 2: the tag `00000`, then the distances 1 and 2. */
  lemma SwappedRoot()
    ensures EncodeNode(Comp(1, 0), 2) == [false, false, false, false, false] + ([false] + [true, false, false])
  {
    SmallNaturals();
    assert ToBits(0, 2) == [false, false];
    OperandsOf(Comp(1, 0), 2);
  }

  /** A three-node table: the count 3, then the nodes. */
  lemma ThreeNodeProgram(t: seq<Node>)
    requires |t| == 3 && NodeFits([], t[0]) && NodeFits([t[0]], t[1]) && NodeFits([t[0], t[1]], t[2])
    requires !t[0].Jet? && !t[1].Jet? && !t[2].Jet?
    ensures Encodable(t)
    ensures EncodeProgram(t) == EncodeNatural(3) + (EncodeNode(t[0], 0) + (EncodeNode(t[1], 1) + EncodeNode(t[2], 2)))
  {
    assert t == [t[0], t[1], t[2]];
    ThreeNodes(t[0], t[1], t[2]);
  }

  /** The swapped table in bits: 3, then `01000`, `01001`, `00000` with references 1 and 2. */
  lemma SwappedTableBits()
    ensures Encodable(SwappedTable)
    ensures EncodeProgram(SwappedTable) == SwappedBits()
  {
    SmallNaturals();
    IdenTag(0);
    UnitTag(1);
    SwappedRoot();
    ThreeNodeProgram(SwappedTable);
  }

  function SwappedBits(): seq<bool> {
    [true, false, true] + ([false, true, false, false, false] + ([false, true, false, false, true] +
      ([false, false, false, false, false] + ([false] + [true, false, false]))))
  }

  /** The bits of `a8 48 10`, byte by byte. */
  lemma SwappedByteBits()
    ensures ProgramBits([0xa8, 0x48, 0x10]) == ToBits(0xa8, 8) + ToBits(0x48, 8) + ToBits(0x10, 8)
  {
    assert [0xa8, 0x48, 0x10][..2] == [0xa8, 0x48] && [0xa8, 0x48][..1] == [0xa8] && [0xa8][..0] == [];
    assert EncodeHash([0xa8]) == ToBits(0xa8, 8);
  }

  lemma ByteA8()
    ensures ToBits(0xa8, 8) == [true, false, true, false, true, false, false, false]
  {
  }

  lemma Byte48()
    ensures ToBits(0x48, 8) == [false, true, false, false, true, false, false, false]
  {
  }

  lemma Byte10()
    ensures ToBits(0x10, 8) == [false, false, false, true, false, false, false, false]
  {
  }

  /** The bytes `a8 48 10` hold the swapped table and two bits of padding. */
  lemma SwappedBytes()
    ensures ProgramBits([0xa8, 0x48, 0x10]) == SwappedBits() + [false, false]
  {
    SwappedByteBits();
    ByteA8();
    Byte48();
    Byte10();
  }

  /** The canonical-order test: `a8 48 10` is rejected with `NotInCanonicalOrder`, whatever the jet set. */
  lemma SwappedProgramRejected(jet: JetDecoder)
    ensures DecodeProgramSpec(ProgramBits([0xa8, 0x48, 0x10]), 0, jet) == Err(NotInCanonicalOrder)
  {
    var bits := ProgramBits([0xa8, 0x48, 0x10]);
    SwappedTableNotCanonical();
    SwappedTableBits();
    SwappedBytes();
    assert bits[0..|SwappedBits()|] == SwappedBits();
    NonCanonicalRejected(bits, 0, SwappedTable, jet);
  }

  // ---------------------------------------------------------------------
  // The extra-nodes test

  /** `comp` of node 1 with itself, at position 2: the tag `00000`, then the distance 1 twice. */
  lemma ExtraUnitRoot()
    ensures EncodeNode(Comp(1, 1), 2) == [false, false, false, false, false] + ([false] + [false])
  {
    SmallNaturals();
    assert ToBits(0, 2) == [false, false];
    OperandsOf(Comp(1, 1), 2);
  }

  function ExtraUnitBits(): seq<bool> {
    [true, false, true] + ([false, true, false, false, true] + ([false, true, false, false, true] +
      ([false, false, false, false, false] + ([false] + [false]))))
  }

  lemma ExtraUnitTableBits()
    ensures Encodable(ExtraUnitTable)
    ensures EncodeProgram(ExtraUnitTable) == ExtraUnitBits()
  {
    SmallNaturals();
    UnitTag(0);
    UnitTag(1);
    ExtraUnitRoot();
    ThreeNodeProgram(ExtraUnitTable);
  }

  lemma ExtraUnitByteBits()
    ensures ProgramBits([0xa9, 0x48, 0x00]) == ToBits(0xa9, 8) + ToBits(0x48, 8) + ToBits(0x00, 8)
  {
    assert [0xa9, 0x48, 0x00][..2] == [0xa9, 0x48] && [0xa9, 0x48][..1] == [0xa9] && [0xa9][..0] == [];
    assert EncodeHash([0xa9]) == ToBits(0xa9, 8);
  }

  lemma ByteA9()
    ensures ToBits(0xa9, 8) == [true, false, true, false, true, false, false, true]
  {
  }

  lemma Byte00()
    ensures ToBits(0x00, 8) == [false, false, false, false, false, false, false, false]
  {
  }

  /** The bytes `a9 48 00` hold the table with the extra `unit` and four bits of padding. */
  lemma ExtraUnitBytes()
    ensures ProgramBits([0xa9, 0x48, 0x00]) == ExtraUnitBits() + [false, false, false, false]
  {
    ExtraUnitByteBits();
    ByteA9();
    Byte48();
    Byte00();
  }

  /** The extra-nodes test: `a9 48 00` is rejected with `NotInCanonicalOrder`, whatever the jet set. */
  lemma ExtraUnitProgramRejected(jet: JetDecoder)
    ensures DecodeProgramSpec(ProgramBits([0xa9, 0x48, 0x00]), 0, jet) == Err(NotInCanonicalOrder)
  {
    var bits := ProgramBits([0xa9, 0x48, 0x00]);
    ExtraUnitTableNotCanonical();
    ExtraUnitTableBits();
    ExtraUnitBytes();
    assert bits[0..|ExtraUnitBits()|] == ExtraUnitBits();
    NonCanonicalRejected(bits, 0, ExtraUnitTable, jet);
  }

  // ---------------------------------------------------------------------
  // The assertion test

  /** The commitment `deadbeef` repeated eight times. */
  const DeadBeef: seq<byte> := [
    0xde, 0xad, 0xbe, 0xef, 0xde, 0xad, 0xbe, 0xef, 0xde, 0xad, 0xbe, 0xef, 0xde, 0xad, 0xbe, 0xef,
    0xde, 0xad, 0xbe, 0xef, 0xde, 0xad, 0xbe, 0xef, 0xde, 0xad, 0xbe, 0xef, 0xde, 0xad, 0xbe, 0xef]

  /** "main = comp witness (assertl unit deadbeef..)": the hidden right branch sits at node 2. */
  const AssertLTable: seq<Node> := [Witness, Unit, Hidden(DeadBeef), AssertL(1, 2), Comp(0, 3)]

  /** "main = comp witness (assertr deadbeef.. unit)": the hidden left branch sits at node 1. */
  const AssertRTable: seq<Node> := [Witness, Hidden(DeadBeef), Unit, AssertR(1, 2), Comp(0, 3)]

  /** Three nodes that extend `[a, b]`. */
  lemma ThreeLast(a: Node, b: Node, c: Node, d: Node, f: Node)
    requires NodeFits([a, b], c) && NodeFits([a, b, c], d) && NodeFits([a, b, c, d], f)
    requires !c.Jet? && !d.Jet? && !f.Jet?
    ensures Extends([a, b], [c, d, f])
  {
    LastNode([a, b, c, d], f, 4);
    ExtendsPush([a, b, c], d, [f], [a, b, c, d], [d, f]);
    ExtendsPush([a, b], c, [d, f], [a, b, c], [c, d, f]);
  }

  /** Four nodes that extend `[a]`. */
  lemma FourLast(a: Node, b: Node, c: Node, d: Node, f: Node)
    requires NodeFits([a], b) && NodeFits([a, b], c) && NodeFits([a, b, c], d) && NodeFits([a, b, c, d], f)
    requires !b.Jet? && !c.Jet? && !d.Jet? && !f.Jet?
    ensures Extends([a], [b, c, d, f])
  {
    ThreeLast(a, b, c, d, f);
    ExtendsPush([a], b, [c, d, f], [a, b], [b, c, d, f]);
  }

  /** Five nodes, each fitting the ones before it, none a jet, make an encodable table. */
  lemma FiveNodes(a: Node, b: Node, c: Node, d: Node, f: Node)
    requires NodeFits([], a) && NodeFits([a], b) && NodeFits([a, b], c)
    requires NodeFits([a, b, c], d) && NodeFits([a, b, c, d], f)
    requires !a.Jet? && !b.Jet? && !c.Jet? && !d.Jet? && !f.Jet?
    ensures Encodable([a, b, c, d, f])
  {
    FourLast(a, b, c, d, f);
    ExtendsPush([], a, [b, c, d, f], [a], [a, b, c, d, f]);
  }

  lemma AssertLEncodable()
    ensures Encodable(AssertLTable)
  {
    var t := AssertLTable;
    assert NodeFits(t[..3], t[3]) by { assert t[..3] == [Witness, Unit, Hidden(DeadBeef)]; }
    FiveNodes(Witness, Unit, Hidden(DeadBeef), AssertL(1, 2), Comp(0, 3));
  }

  lemma AssertLOrdered()
    ensures Ordered(AssertLTable)
  {
    assert ChildrenBefore(AssertLTable[3], 3) && ChildrenBefore(AssertLTable[4], 4);
  }

  lemma AssertLVisitWitness()
    ensures Ordered(AssertLTable) && Visit(AssertLTable, 0, []) == [0]
  {
    AssertLOrdered();
    VisitLeaf(AssertLTable, 0, []);
  }

  lemma AssertLVisitUnit()
    ensures Ordered(AssertLTable) && Visit(AssertLTable, 1, [0]) == [0, 1]
  {
    AssertLOrdered();
    VisitLeaf(AssertLTable, 1, [0]);
  }

  lemma AssertLVisitHidden()
    ensures Ordered(AssertLTable) && Visit(AssertLTable, 2, [0, 1]) == [0, 1, 2]
  {
    AssertLOrdered();
    VisitLeaf(AssertLTable, 2, [0, 1]);
  }

  /** The assertion is visited after both its branches, the hidden one included. */
  lemma AssertLVisitAssert()
    ensures Ordered(AssertLTable) && Visit(AssertLTable, 3, [0]) == [0, 1, 2, 3]
  {
    AssertLVisitUnit();
    AssertLVisitHidden();
    VisitBinary(AssertLTable, 3, 1, 2, [0], [0, 1], [0, 1, 2]);
  }

  /** The post-order of the `assertl` table: `0, 1, 2, 3, 4`. */
  lemma AssertLTraversal()
    ensures Ordered(AssertLTable) && Traversal(AssertLTable) == [0, 1, 2, 3, 4]
  {
    AssertLVisitRoot();
    assert |AssertLTable| - 1 == 4;
  }

  /** The composition at the root is visited after the witness and the assertion. */
  lemma AssertLVisitRoot()
    ensures Ordered(AssertLTable) && Visit(AssertLTable, 4, []) == [0, 1, 2, 3, 4]
  {
    AssertLVisitWitness();
    AssertLVisitAssert();
    assert AssertLTable[4] == Comp(0, 3);
    VisitBinary(AssertLTable, 4, 0, 3, [], [0], [0, 1, 2, 3]);
    assert [0, 1, 2, 3] + [4] == [0, 1, 2, 3, 4];
  }

  /** The `assertl` table is canonical. */
  lemma AssertLCanonical()
    ensures Ordered(AssertLTable) && Canonical(AssertLTable)
  {
    AssertLTraversal();
    PositionsInPlace(Traversal(AssertLTable));
  }

  /** The program decoder accepts the encoding of the `assertl` table and gives the table back. */
  lemma AssertLProgramDecodes(bits: seq<bool>, jet: JetDecoder)
    requires (AssertLEncodable(); At(bits, 0, EncodeProgram(AssertLTable)))
    ensures DecodeProgramSpec(bits, 0, jet).Ok? && DecodeProgramSpec(bits, 0, jet).value.0 == AssertLTable
  {
    AssertLEncodable();
    AssertLCanonical();
    ProgramRoundTrip(bits, 0, AssertLTable, jet);
  }

  lemma AssertREncodable()
    ensures Encodable(AssertRTable)
  {
    var t := AssertRTable;
    assert NodeFits(t[..3], t[3]) by { assert t[..3] == [Witness, Hidden(DeadBeef), Unit]; }
    FiveNodes(Witness, Hidden(DeadBeef), Unit, AssertR(1, 2), Comp(0, 3));
  }

  lemma AssertROrdered()
    ensures Ordered(AssertRTable)
  {
    assert ChildrenBefore(AssertRTable[3], 3) && ChildrenBefore(AssertRTable[4], 4);
  }

  lemma AssertRVisitWitness()
    ensures Ordered(AssertRTable) && Visit(AssertRTable, 0, []) == [0]
  {
    AssertROrdered();
    VisitLeaf(AssertRTable, 0, []);
  }

  lemma AssertRVisitHidden()
    ensures Ordered(AssertRTable) && Visit(AssertRTable, 1, [0]) == [0, 1]
  {
    AssertROrdered();
    VisitLeaf(AssertRTable, 1, [0]);
  }

  lemma AssertRVisitUnit()
    ensures Ordered(AssertRTable) && Visit(AssertRTable, 2, [0, 1]) == [0, 1, 2]
  {
    AssertROrdered();
    VisitLeaf(AssertRTable, 2, [0, 1]);
  }

  lemma AssertRVisitAssert()
    ensures Ordered(AssertRTable) && Visit(AssertRTable, 3, [0]) == [0, 1, 2, 3]
  {
    AssertRVisitHidden();
    AssertRVisitUnit();
    VisitBinary(AssertRTable, 3, 1, 2, [0], [0, 1], [0, 1, 2]);
  }

  /** The post-order of the `assertr` table: `0, 1, 2, 3, 4`. */
  lemma AssertRTraversal()
    ensures Ordered(AssertRTable) && Traversal(AssertRTable) == [0, 1, 2, 3, 4]
  {
    AssertRVisitRoot();
    assert |AssertRTable| - 1 == 4;
  }

  /** The composition at the root is visited after the witness and the assertion. */
  lemma AssertRVisitRoot()
    ensures Ordered(AssertRTable) && Visit(AssertRTable, 4, []) == [0, 1, 2, 3, 4]
  {
    AssertRVisitWitness();
    AssertRVisitAssert();
    assert AssertRTable[4] == Comp(0, 3);
    VisitBinary(AssertRTable, 4, 0, 3, [], [0], [0, 1, 2, 3]);
    assert [0, 1, 2, 3] + [4] == [0, 1, 2, 3, 4];
  }

  /** The `assertr` table is canonical. */
  lemma AssertRCanonical()
    ensures Ordered(AssertRTable) && Canonical(AssertRTable)
  {
    AssertRTraversal();
    PositionsInPlace(Traversal(AssertRTable));
  }

  /** The program decoder accepts the encoding of the `assertr` table and gives the table back. */
  lemma AssertRProgramDecodes(bits: seq<bool>, jet: JetDecoder)
    requires (AssertREncodable(); At(bits, 0, EncodeProgram(AssertRTable)))
    ensures DecodeProgramSpec(bits, 0, jet).Ok? && DecodeProgramSpec(bits, 0, jet).value.0 == AssertRTable
  {
    AssertREncodable();
    AssertRCanonical();
    ProgramRoundTrip(bits, 0, AssertRTable, jet);
  }

  // ---------------------------------------------------------------------
  // Node identity is table position

  /** `injl unit` written twice: nodes 2 and 3 spell the same program as nodes 0 and 1. */
  const CopiesTable: seq<Node> := [Unit, InjL(0), Unit, InjL(2)]

  lemma CopiesOrdered()
    ensures Ordered(CopiesTable)
  {
    assert ChildrenBefore(CopiesTable[1], 1) && ChildrenBefore(CopiesTable[3], 3);
  }

  /** A unary node not yet seen: its child's visit, then the node. */
  lemma VisitUnary(nodes: seq<Node>, i: nat, c: nat, seen: seq<nat>, s1: seq<nat>)
    requires i < |nodes| && Ordered(nodes) && i !in seen && Children(nodes[i]) == [c]
    requires c < |nodes| && s1 == Visit(nodes, c, seen)
    ensures Visit(nodes, i, seen) == s1 + [i]
  {
    ChildrenBelow(nodes[i], i);
    VisitUnseen(nodes, i, seen, s1, s1);
  }

  /** The root of the copies reaches only the second copy: nodes 2, then 3. */
  lemma CopiesVisitRoot()
    ensures Ordered(CopiesTable) && Visit(CopiesTable, 3, []) == [2, 3]
  {
    CopiesOrdered();
    VisitLeaf(CopiesTable, 2, []);
    VisitUnary(CopiesTable, 3, 2, [], [2]);
  }

  /**
   * With nodes identified by position, the copies fail the canonical-order check: the
   * traversal starts at node 2, not 0, although node 2 equals node 0 as a value.
   */
  lemma CopiesTableNotCanonical()
    ensures Ordered(CopiesTable) && !Canonical(CopiesTable)
    ensures CopiesTable[2] == CopiesTable[0] && CopiesTable[3] != CopiesTable[1]
  {
    CopiesVisitRoot();
    assert |CopiesTable| - 1 == 3;
    assert Traversal(CopiesTable)[0] == 2;
  }

  // ---------------------------------------------------------------------
  // An assertion's hidden child is a table position

  /** One hidden node shared by the root's `comp` and by the `assertl` below it. */
  const SharedHiddenTable: seq<Node> := [Hidden(DeadBeef), Unit, AssertL(1, 0), Comp(0, 2)]

  /** Two nodes that extend `[a, b]`. */
  lemma TwoLast(a: Node, b: Node, c: Node, d: Node)
    requires NodeFits([a, b], c) && NodeFits([a, b, c], d) && !c.Jet? && !d.Jet?
    ensures Extends([a, b], [c, d])
  {
    LastNode([a, b, c], d, 3);
    ExtendsPush([a, b], c, [d], [a, b, c], [c, d]);
  }

  /** Four nodes, each fitting the ones before it, none a jet, make an encodable table. */
  lemma FourNodes(a: Node, b: Node, c: Node, d: Node)
    requires NodeFits([], a) && NodeFits([a], b) && NodeFits([a, b], c) && NodeFits([a, b, c], d)
    requires !a.Jet? && !b.Jet? && !c.Jet? && !d.Jet?
    ensures Encodable([a, b, c, d])
  {
    TwoLast(a, b, c, d);
    ExtendsPush([a], b, [c, d], [a, b], [b, c, d]);
    ExtendsPush([], a, [b, c, d], [a], [a, b, c, d]);
  }

  lemma SharedHiddenEncodable()
    ensures Encodable(SharedHiddenTable)
  {
    FourNodes(Hidden(DeadBeef), Unit, AssertL(1, 0), Comp(0, 2));
  }

  lemma SharedHiddenOrdered()
    ensures Ordered(SharedHiddenTable)
  {
    assert ChildrenBefore(SharedHiddenTable[2], 2) && ChildrenBefore(SharedHiddenTable[3], 3);
  }

  /** The assertion's hidden child, node 0, is already seen: only the unit branch is new. */
  lemma SharedHiddenVisitAssert()
    ensures Ordered(SharedHiddenTable) && Visit(SharedHiddenTable, 2, [0]) == [0, 1, 2]
  {
    SharedHiddenOrdered();
    VisitLeaf(SharedHiddenTable, 1, [0]);
    assert SharedHiddenTable[2] == AssertL(1, 0);
    VisitBinary(SharedHiddenTable, 2, 1, 0, [0], [0, 1], [0, 1]);
  }

  lemma SharedHiddenVisitHidden()
    ensures Ordered(SharedHiddenTable) && Visit(SharedHiddenTable, 0, []) == [0]
  {
    SharedHiddenOrdered();
    VisitLeaf(SharedHiddenTable, 0, []);
  }

  /** The root lists the hidden node once although two nodes reach it: `0, 1, 2, 3`. */
  lemma SharedHiddenVisitRoot()
    ensures Ordered(SharedHiddenTable) && Visit(SharedHiddenTable, 3, []) == [0, 1, 2, 3]
  {
    SharedHiddenVisitHidden();
    SharedHiddenVisitAssert();
    assert SharedHiddenTable[3] == Comp(0, 2);
    assert Children(SharedHiddenTable[3]) == [0, 2];
    VisitBinary(SharedHiddenTable, 3, 0, 2, [], [0], [0, 1, 2]);
  }

  lemma SharedHiddenTraversal()
    ensures Ordered(SharedHiddenTable) && Traversal(SharedHiddenTable) == [0, 1, 2, 3]
  {
    SharedHiddenVisitRoot();
    assert |SharedHiddenTable| - 1 == 3;
  }

  /** The model finds the shared hidden child canonical: every node is visited at its own position. */
  lemma SharedHiddenCanonical()
    ensures Ordered(SharedHiddenTable) && Canonical(SharedHiddenTable)
    ensures SharedHiddenTable[2].AssertL? && SharedHiddenTable[2].right == 0 && Children(SharedHiddenTable[3])[0] == 0
  {
    SharedHiddenTraversal();
    var t := Traversal(SharedHiddenTable);
    assert forall k | 0 <= k < |t| :: k < 4 && t[k] == k;
  }

  /** The program decoder accepts the encoding of the shared hidden child and gives the table back. */
  lemma SharedHiddenProgramDecodes(bits: seq<bool>, jet: JetDecoder)
    requires (SharedHiddenEncodable(); At(bits, 0, EncodeProgram(SharedHiddenTable)))
    ensures DecodeProgramSpec(bits, 0, jet).Ok? && DecodeProgramSpec(bits, 0, jet).value.0 == SharedHiddenTable
  {
    SharedHiddenEncodable();
    SharedHiddenCanonical();
    ProgramRoundTrip(bits, 0, SharedHiddenTable, jet);
  }
}
