# Simplicity program decoder, modelled in Dafny

This project models the bit-level decoder of rust-simplicity, `src/decode.rs`, and proves properties of the model. A Simplicity program is sent as a bit stream. The stream holds the node count as a self-delimiting natural, then the nodes of a DAG in a table. Each node is a tag; a combinator's tag is followed by back-references to earlier nodes, and some leaves carry a payload (a 256-bit commitment, a word value or a jet identifier). The decoder accepts only the canonical table, the one whose order is the sharing post-order from the root. A separate witness block may follow the program: a length prefix, then the witness values, one per type.

Every decoder takes the bit stream as `bits: seq<bool>` and the read position `pos`. It returns a `Result` holding the decoded value and the position after it. Running out of bits is `EndOfStream`.

Files and modules:

- `errors.dfy` (`Errors`): the source's error kinds, `Option` and `Result`.
- `bits.dfy` (`Bits`): powers of two and big-endian bit strings. `At(bits, pos, s)` says that `s` occurs in `bits` at `pos`.
- `hashes.dfy` (`Hashes`): `decode_hash`. A method fills a 32-byte array in a loop. A function states its result, and there is an encoder.
- `values.dfy` (`Values`): the final types (unit, sum, product), the values, and the type-directed `decode_value`. There is an encoder, and the `2^k`-bit word types.
- `natural.dfy`: `decode_natural`.
  - `NaturalCodec` holds the source's two loops as a method and a recursive specification: the unary depth, then the levels.
  - `NaturalCodecProps` holds the encoder and the properties.
  - `NaturalTable` holds the rows of the source's `decode_fixed_natural` test.
- `nodes.dfy`: `decode_node`.
  - `Nodes` holds the tag grammar, back-references, the case and assertion rule for hidden children, the stop code, words and jets.
  - `NodeCodecProps` holds a node encoder and the round trips.
- `postorder.dfy` (`PostOrder`): the sharing post-order from the root, and the canonical-order condition.
- `program.dfy` (`ProgramCodec`): `decode_program_arbitrary_type`. It has a specification function and a method with the source's node loop and check loop.
- `program_props.dfy` (`ProgramCodecProps`): the program encoder, the round trip and the rejections.
- `vectors.dfy` (`Vectors`): the source's program tests `canonical_order`, `extra_nodes` and `assert_lr`, stated on the model.
- `witness.dfy` (`WitnessCodec`): `WitnessDecoder` is a class. Its field `pos` is the iterator's bit count and `maxN` is `max_n`. The file also specifies the whole witness block.

Modelling choices:

- **Node identity.** A node is identified by its table position. A child is the absolute position `index - distance` that `decode_node` computes. `Rc` sharing becomes these positions, and the canonical-order check compares positions where the source compares `CommitNode` values. The two can disagree in both directions (see "## Left out").
- **Assertions keep the hidden child.** `AssertL(l, r)` and `AssertR(l, r)` keep the table position of the hidden child, where the source's assertion keeps only that node's hash (`decode.rs:194`, `decode.rs:196`). The post-order therefore visits the hidden node like any other node. This is what lets the source's `assert_lr` programs pass the canonical-order check.
- **Jets.** `J::decode` is a parameter `jet: JetDecoder`, a function from the stream and a position to an identifier and an end position. The only requirement on it (`JetAdvances`) is that on success its end position is neither before its start nor past the end of the stream. Its error is passed on unchanged, as `decode.rs:220` does.
- **Stream position after an error.** On an error, the pure decoders return no position, because the source's callers abandon the stream. `WitnessDecoder.Next` is the exception. Its iterator stays in use, so a value that runs out of bits leaves `pos` at the end of the stream.

Where the doc comments of `src/decode.rs` and its code differ, the model follows the code:

- **EmptyProgram cannot happen.** `decode_natural` never returns 0, so the `EmptyProgram` branch (`decode.rs:124-126`) can never be taken, although the error's doc comment (`decode.rs:39`, "must not be empty") presents it as the error for an empty program. `DecodeProgramSpec` and `DecodeProgram` keep the branch and prove it dead with `assert false`.
- **The bound is checked at the end.** The doc comment of `decode_natural` (`decode.rs:331`) says that with a bound, decoding stops before it reads a larger number. The code checks the bound only on the final value, after every level has been read (`decode.rs:356-361`). `NaturalBound` states this.
- **Jet errors are not rewritten.** The doc comment of `InvalidJet` (`decode.rs:43-44`) presents it as the error for a jet name that is not recognised. The code returns the jet decoder's own decode error (`decode.rs:220`). The model passes on whatever error `jet` returns.

## Model

| member | source | states |
|---|---|---|
| NaturalCodec.Natural | src/decode.rs:330-372 | On success the value is in 1..2^32-1, at most the bound, and at least one bit is read. The only errors are EndOfStream, NaturalOverflow and BadIndex. BadIndex only occurs when a bound is given. |
| NaturalCodec.DecodeNatural | src/decode.rs:332-372 | The source's two loops (count the unary depth, then read the levels) compute exactly `Natural`. |
| NaturalCodecProps.NaturalRoundTrip | src/decode.rs:332-372 | Decoding the encoding of `n` (1 <= n <= 2^32-1) gives `n` and ends right after the encoding, or BadIndex when `n` exceeds the bound. |
| NaturalCodecProps.NaturalWithin | src/decode.rs:356-362 | With a bound of at least `n`, the encoding of `n` decodes to `n`. |
| NaturalCodecProps.NaturalDecodedIsEncoding | src/decode.rs:332-372 | Every accepted input is exactly the encoding of the value read, and the end position is just after it. Each natural has one spelling. |
| NaturalCodecProps.NaturalTruncated | src/decode.rs:337-354 | A stream that ends inside an encoding gives EndOfStream, whatever the bound. |
| NaturalCodecProps.DroppingLastBitEndsStream | src/decode.rs:629-634 | For every natural, its encoding without the last bit gives EndOfStream. |
| NaturalCodecProps.NaturalBound | src/decode.rs:356-362 | The bound acts on the final value only. The bounded decode is BadIndex exactly when the unbounded decode gives a larger value, and otherwise agrees with it. |
| NaturalCodecProps.WideLevelOverflows | src/decode.rs:363-368 | A level of 5 or more bits that is followed by another level gives NaturalOverflow. |
| NaturalCodecProps.DeepLevelsFail | src/decode.rs:344-370 | From depth `d`, a level at least as long as the overflow threshold always fails with EndOfStream or NaturalOverflow. |
| NaturalCodecProps.DepthAtMostFour | src/decode.rs:336-370 | A unary depth of 5 or more never decodes: the result is EndOfStream or NaturalOverflow. |
| NaturalTable.OverlongLevelOverflows | src/decode.rs:363-368 | Depth 5 over ones reaches 65535 with a level still to come, and gives NaturalOverflow. |
| NaturalTable.RowDecodes | src/decode.rs:629-646 | A test row that is an encoding decodes to its natural and consumes its full width. Without its last bit it gives EndOfStream. |
| NaturalTable.Row1 | src/decode.rs:557 | The encoding of 1 is `0`. |
| NaturalTable.Row2 | src/decode.rs:558 | The encoding of 2 is the test's 3-bit vector. |
| NaturalTable.Row3 | src/decode.rs:559 | The encoding of 3 is the test's 3-bit vector. |
| NaturalTable.Row4 | src/decode.rs:560 | The encoding of 4 is the test's 6-bit vector. |
| NaturalTable.Row5 | src/decode.rs:561 | The encoding of 5 is the test's 6-bit vector. |
| NaturalTable.Row6 | src/decode.rs:562 | The encoding of 6 is the test's 6-bit vector. |
| NaturalTable.Row7 | src/decode.rs:563 | The encoding of 7 is the test's 6-bit vector. |
| NaturalTable.Row8 | src/decode.rs:564 | The encoding of 8 is the test's 7-bit vector. |
| NaturalTable.Row15 | src/decode.rs:565 | The encoding of 15 is the test's 7-bit vector. |
| NaturalTable.Row16 | src/decode.rs:566-575 | The encoding of 16 is the test's 11-bit vector. |
| NaturalTable.Row31 | src/decode.rs:576-585 | The encoding of 31 is the test's 11-bit vector. |
| NaturalTable.Row32 | src/decode.rs:586-595 | The encoding of 32 is the test's 12-bit vector. |
| NaturalTable.Row32768 | src/decode.rs:596-605 | The encoding of 2^15 is the test's 23-bit vector. |
| NaturalTable.Row65535 | src/decode.rs:606-615 | The encoding of 2^16-1 is the test's 23-bit vector. |
| NaturalTable.Row65536 | src/decode.rs:616-626 | The encoding of 2^16 is the test's 28-bit vector. |
| Hashes.Hash256 | src/decode.rs:316-328 | On success there are 32 bytes and exactly 256 bits are read. The result is EndOfStream exactly when fewer than 256 bits remain. |
| Hashes.DecodeHash | src/decode.rs:317-328 | The loop that fills a 32-byte array, 8 big-endian bits per byte, computes exactly `Hash256`. |
| Hashes.HashRoundTrip | src/decode.rs:317-328 | The 256-bit big-endian encoding of a 32-byte hash decodes to that hash and ends 256 bits later. |
| Hashes.HashDecodedIsEncoding | src/decode.rs:317-328 | The 256 bits read are the encoding of the hash returned. |
| Values.DecodeValue | src/decode.rs:295-314 | The result inhabits the type and consumes exactly its encoding: 0 bits for unit, a tag bit for a sum, left then right for a product. The only error is EndOfStream. |
| Values.ValueRoundTrip | src/decode.rs:296-314 | The encoding of a value of type `ty` decodes back to the value and ends right after it. |
| Values.InjectionRoundTrip | src/decode.rs:302-306 | Tag bit `0` reads the left injection and `1` the right, each followed by the inner value. |
| Values.ProductRoundTrip | src/decode.rs:307-310 | A product reads its left component, then its right one. |
| Values.ValueDecodedIsEncoding | src/decode.rs:296-314 | The bits read are the encoding of the value returned. |
| Values.ValueDecodeFails | src/decode.rs:296-314 | Decoding succeeds if and only if some value of the type is encoded at the position. |
| Values.WordWidth | src/decode.rs:222-225 | A value of the `2^k`-bit word type is encoded in exactly `2^k` bits. |
| Values.WordConsumption | src/decode.rs:222-225 | A word decode reads exactly `2^k` bits, and gives EndOfStream when fewer remain. |
| Nodes.ReadCode | src/decode.rs:166-169 | `read_bits_be(n)` gives a value below 2^n. It is EndOfStream exactly when fewer than `n` bits remain. |
| Nodes.BackRef | src/decode.rs:174-178 | A back-reference is a natural bounded by the node's index, taken as a distance. Its result is a position strictly before the node. The errors are EndOfStream, NaturalOverflow and BadIndex. |
| Nodes.CaseNode | src/decode.rs:186-201 | Two hidden children give BothChildrenHidden, and this is the only failure. A hidden right child makes AssertL, a hidden left child AssertR, and otherwise the node is Case. The children are kept. |
| Nodes.DecodeWord | src/decode.rs:222-226 | A word has a depth of at most 32 and a value of the `2^(depth-1)`-bit word type. |
| Nodes.DecodeJetOrWord | src/decode.rs:216-227 | After the first `1`, `1` is a jet and `0` is a word, and the payload fits. |
| Nodes.DecodeBinary | src/decode.rs:173-205 | Code 0 reads two back-references, left then right. The node it makes fits the table before it. |
| Nodes.BinaryNode | src/decode.rs:183-204 | Subcodes 0 to 3 are Comp, the case family, Pair and Disconnect. The children are the two positions. |
| Nodes.DecodeUnary | src/decode.rs:206-213 | Code 1 reads one back-reference. The node it makes fits the table before it. |
| Nodes.DecodeCodeTwo | src/decode.rs:229-239 | Code 2 gives Iden, Unit or Fail with two commitments, and subcode 3 is always StopCode. |
| Nodes.DecodeCodeThree | src/decode.rs:240-244 | Code 3 gives Hidden with one commitment or Witness. |
| Nodes.DecodeCoded | src/decode.rs:172-245 | A coded node fits the table and is neither a jet nor a word. |
| Nodes.DecodeNode | src/decode.rs:155-251 | A decoded node fits the table before it: children before it, the hidden-child rule, and payload sizes. At least one bit is read. |
| NodeCodecProps.NodeRoundTrip | src/decode.rs:155-251 | Every node but a jet that fits the table decodes back from its encoding, ending right after it. |
| NodeCodecProps.NodeDecodedIsEncoding | src/decode.rs:155-251 | Every non-jet node that is accepted was read from exactly its encoding. |
| NodeCodecProps.StopCodeRejected | src/decode.rs:238 | The tag `0 10 11` gives StopCode. |
| NodeCodecProps.JetPrefix | src/decode.rs:216-221 | The prefix `11` hands the rest of the stream to the jet decoder and returns its identifier or its error. |
| NodeCodecProps.FirstCombinatorBadIndex | src/decode.rs:173-175 | At index 0 a combinator whose reference decodes gives BadIndex, because no earlier node exists. |
| PostOrder.Visit | src/decode.rs:140-148 | A visit extends the nodes already seen, lists the node, and lists only nodes at or below it. |
| PostOrder.VisitEndsWithNode | src/decode.rs:140-143 | A node not yet seen is listed last, after its children. |
| PostOrder.VisitDistinct | src/decode.rs:140-143 | A visit lists no node twice: a node reached through two parents is listed once. |
| PostOrder.VisitChildrenFirst | src/decode.rs:140-143 | Every listed node comes after all of its children. |
| PostOrder.TraversalDistinct | src/decode.rs:140-143 | The traversal from the root lists no node twice. |
| PostOrder.CanonicalIff | src/decode.rs:140-148 | The check passes exactly when the traversal is `0, 1, ..., len-1`. |
| PostOrder.CanonicalReachesAll | src/decode.rs:140-148 | In a canonical table the root reaches every node, so no node is unreferenced. |
| ProgramCodec.DecodeNodes | src/decode.rs:133-138 | `count` nodes are appended, each decoded against the table before it, and the table stays well formed. Its one-step unfoldings (`DecodeNodesStep`, `DecodeNodesFails`) serve the node loop of `DecodeProgram`. |
| ProgramCodec.DecodeProgramSpec | src/decode.rs:119-151 | On success there are 1 to 1,000,000 nodes, as many as the count read. The table is well formed, ordered and canonical, and at least one bit is read. |
| ProgramCodec.ProgramOfParts | src/decode.rs:122-150 | Once the count and the table are read, the canonical-order check alone decides between the table and NotInCanonicalOrder. |
| ProgramCodec.ProgramHeader | src/decode.rs:122-138 | A count error is passed on. A count above 1,000,000 is TooManyNodes carrying the count. A node error is passed on. |
| ProgramCodec.CheckCanonical | src/decode.rs:140-148 | The loop over the post-order accepts exactly the canonical tables. |
| ProgramCodec.DecodeProgram | src/decode.rs:119-151 | The source's procedure (count, node loop, check loop) computes exactly `DecodeProgramSpec`. |
| ProgramCodecProps.NodesRoundTrip | src/decode.rs:133-138 | The node loop reads back an encoded table and ends right after it. |
| ProgramCodecProps.TableRoundTrip | src/decode.rs:122-138 | The count and the table are read back from a program's encoding. |
| ProgramCodecProps.ProgramRoundTrip | src/decode.rs:119-151 | Decoding the encoding of a canonical table without jets gives the table back and ends right after the encoding. With `ProgramDecodedIsEncoding` (the other direction) the program encoder and decoder are inverse on canonical tables without jets. |
| ProgramCodecProps.NodesDecodedIsEncoding | src/decode.rs:133-138 | The nodes the node loop appends, when none is a jet, are nodes the encoder writes, read from exactly their encoding. |
| ProgramCodecProps.ProgramDecodedIsEncoding | src/decode.rs:119-151 | A decoded program without jets re-encodes to exactly the bits it was read from, the property the tests' re-serialisation checks (`decode.rs:392-401`). |
| ProgramCodecProps.NonCanonicalRejected | src/decode.rs:140-148 | The encoding of an ordered table that is not canonical gives NotInCanonicalOrder. |
| ProgramCodecProps.TooManyRejected | src/decode.rs:127-130 | A count above 1,000,000 gives TooManyNodes with that count, before any node is read. |
| ProgramCodecProps.DecodedInPostOrder | src/decode.rs:140-150 | A decoded table's traversal is `0, 1, ..., len-1`, so position `k` is the `k`-th node visited. |
| Vectors.SwappedTraversal | src/decode.rs:425-431 | The table `iden, unit, comp 1 0` is visited in the order 1, 0, 2. |
| Vectors.SwappedTableNotCanonical | src/decode.rs:425-431 | That table is not canonical. |
| Vectors.SwappedProgramRejected | src/decode.rs:425-431 | The bytes `a8 48 10` give NotInCanonicalOrder, with any jet decoder. |
| Vectors.ExtraUnitTraversal | src/decode.rs:513-518 | The table `unit, unit, comp 1 1` is visited in the order 1, 2. Node 0 is never reached. |
| Vectors.ExtraUnitTableNotCanonical | src/decode.rs:513-518 | That table is not canonical. |
| Vectors.ExtraUnitProgramRejected | src/decode.rs:513-518 | The bytes `a9 48 00` give NotInCanonicalOrder, with any jet decoder. |
| Vectors.CopiesTableNotCanonical | src/decode.rs:140-148 | The table `unit, injl 0, unit, injl 2`, whose nodes 2 and 3 spell the same program as nodes 0 and 1, fails the check when nodes are identified by position: the traversal starts at node 2. |
| Vectors.SharedHiddenCanonical | src/decode.rs:140-148 | The table `hidden, unit, assertl 1 0, comp 0 2`, whose hidden node 0 is both the root's left child and the assertion's hidden branch, passes the check in the model: the traversal lists node 0 once and is `0, 1, 2, 3`. |
| Vectors.SharedHiddenProgramDecodes | src/decode.rs:119-151 | The encoding of that table is accepted by the program decoder, which gives the table back. |
| Vectors.AssertLCanonical | src/decode.rs:437-445 | The table `witness, unit, hidden, assertl 1 2, comp 0 3` is canonical, with the hidden node visited in its place. |
| Vectors.AssertLProgramDecodes | src/decode.rs:437-445 | The encoding of that table decodes back to it. |
| Vectors.AssertRCanonical | src/decode.rs:447-455 | The table `witness, hidden, unit, assertr 1 2, comp 0 3` is canonical. |
| Vectors.AssertRProgramDecodes | src/decode.rs:447-455 | The encoding of that table decodes back to it. |
| WitnessCodec.Header | src/decode.rs:266-278 | No bit is EndOfStream. Flag `0` means 0 bits of witness data. Flag `1` is followed by a natural length. `max_n` is the position after the prefix plus the length. |
| WitnessCodec.WitnessDecoder.New | src/decode.rs:266-278 | `new` reads the prefix and returns a fresh decoder positioned after it, with `max_n` as in `Header`, or the prefix's error. |
| WitnessCodec.WitnessDecoder.Next | src/decode.rs:282-284 | `next` decodes one value of the type from the current position, or returns EndOfStream with the stream read to its end. |
| WitnessCodec.WitnessDecoder.Finish | src/decode.rs:286-292 | `finish` succeeds exactly when `max_n` bits have been read, and otherwise gives InconsistentWitnessLength. |
| WitnessCodec.ReadValues | src/decode.rs:282-284 | One value per type, each inhabiting its type. The only error is EndOfStream. |
| WitnessCodec.ReadWitness | src/decode.rs:253-293 | `new`, then `next` per type, then `finish`. On success the values end at `max_n`. InconsistentWitnessLength exactly when the header and the values decode and the values end elsewhere. |
| WitnessCodec.HeaderRoundTrip | src/decode.rs:266-278 | The length prefix for `n` bits is read back: the data starts after it and `max_n` is `n` bits further. |
| WitnessCodec.ValuesRoundTrip | src/decode.rs:282-284 | Values of the given types, encoded one after another, are read back. |
| WitnessCodec.WitnessRoundTrip | src/decode.rs:253-293 | A witness block of values of the given types is read back and accepted by `finish`. |
| WitnessCodec.OverstatedLengthRejected | src/decode.rs:286-292 | A prefix that announces more bits than the values use gives InconsistentWitnessLength. |

## Left out

- Type inference and unification (`Context`, `types::Final`, the `?` on each `CommitNode` constructor): node constructors are infallible in the model, and the witness decoder takes the final type as a `Ty`.
- `decode_program` (decode.rs:105-117) unifies the root's types with unit. It needs the type system, which is not modelled.
- Commitment computation (the `Cmr` of each node, from src/cmr.rs): commitments are carried as 32-byte payloads and never hashed.
- `J::decode`: the jet set and its encoding are a function parameter. The program encoder therefore covers tables without jets, and the round trips exclude jet nodes.
- `nth_power_of_2_final`: modelled as `PowerOfTwoTy`, the `2^k`-bit word type built from products of the bit type. The type cache is not modelled.
- `Rc` sharing: a node is its table position. A child is the position its back-reference names, and an assertion's hidden child is the position of the hidden node, although the source's assertion keeps only that node's hash.
- PostOrder.Canonical: the source compares each visited node with `nodes[data.index]` by `CommitNode` equality (`decode.rs:145`), whose definition is not part of this model, nor is the `InternalSharing` iterator (`decode.rs:143`). The model compares table positions, which need not agree with the source in either direction. If that equality compares values (for instance commitments), the table `unit, injl 0, unit, injl 2` passes the source's check but not the model's (`Vectors.CopiesTableNotCanonical`).
- PostOrder.Visit: an assertion's hidden child is visited as the table node it names, so a hidden node reached from two parents is listed once. In the source the assertion holds a hidden node rebuilt from the hash (`decode.rs:194`, `decode.rs:196`). If `InternalSharing` shares nodes by pointer, that node is met a second time, so the table `hidden, unit, assertl 1 0, comp 0 2` gives NotInCanonicalOrder in the source, while the model accepts it (`Vectors.SharedHiddenCanonical`, `Vectors.SharedHiddenProgramDecodes`).
- `BitIter` chunking into bytes: the stream is a sequence of bits. `ProgramBits` spells bytes as 8 big-endian bits each.
- The `Error::Type` variant and the `Display` and `std::error::Error` implementations: there is no type system, and messages are not modelled.
- The tests' execution steps (their re-serialisation is `ProgramCodecProps.ProgramDecodedIsEncoding` for tables without jets), the `shared_witnesses` and `root_unit_to_unit` tests (they need jets, types and execution), and the `decode_schnorr` vector.
- Vectors.AssertLProgramDecodes: states the `assert_lr` test on the encoding of its node table. The 38 literal bytes of the test are not matched bit for bit against that encoding.
- Vectors.AssertRProgramDecodes: likewise, the test's 38 literal bytes are not matched against the encoding of its table.
- ProgramCodec.CheckCanonical: the source stops at the first post-order entry that is out of place while iterating. The model computes the whole traversal first, which gives the same answer. It compares positions, not `CommitNode` values (see PostOrder.Canonical above).
- Integer widths: counts and positions are unbounded naturals. `decode_natural`'s result fits 32 bits by its own range, and neither `usize` overflow nor the `u64` subcode arises in the model.
