/**
 * The sharing post-order of a node table: from a node, each child (left, then right) is
 * visited unless already visited, then the node itself is listed. Nodes are identified by
 * their table position, so a node reached twice is listed once.
 */
module PostOrder {
  import opened Nodes

  /** Every child of every node is an earlier position of the table. */
  predicate Ordered(nodes: seq<Node>) {
    forall i | 0 <= i < |nodes| :: ChildrenBefore(nodes[i], i)
  }

  lemma ChildrenBelow(n: Node, index: nat)
    requires ChildrenBefore(n, index)
    ensures forall k | 0 <= k < |Children(n)| :: Children(n)[k] < index
  {
  }

  /** No position is listed twice. */
  predicate Distinct(s: seq<nat>) {
    forall j, k | 0 <= j < k < |s| :: s[j] != s[k]
  }

  /** The children of `n` all occur in `prefix`. */
  predicate ChildrenListed(n: Node, prefix: seq<nat>) {
    forall c | c in Children(n) :: c in prefix
  }

  /** Each listed node is a table position listed after all its children. */
  predicate ChildrenFirst(nodes: seq<Node>, s: seq<nat>)
    decreases |s|
  {
    s == [] ||
    (var init := s[..|s| - 1];
     ChildrenFirst(nodes, init) && s[|s| - 1] < |nodes| && ChildrenListed(nodes[s[|s| - 1]], init))
  }

  /** Visiting node `i` after the nodes `seen`: `seen`, then the newly visited nodes in post-order. */
  function Visit(nodes: seq<Node>, i: nat, seen: seq<nat>): (r: seq<nat>)
    requires i < |nodes| && Ordered(nodes)
    ensures seen <= r && i in r
    ensures forall k | |seen| <= k < |r| :: r[k] <= i
    decreases i
  {
    if i in seen then seen
    else
      var cs := Children(nodes[i]);
      ChildrenBelow(nodes[i], i);
      var s1 := if |cs| >= 1 then Visit(nodes, cs[0], seen) else seen;
      var s2 := if |cs| >= 2 then Visit(nodes, cs[1], s1) else s1;
      s2 + [i]
  }

  /** The post-order from the last node, the program's root. */
  function Traversal(nodes: seq<Node>): seq<nat>
    requires |nodes| > 0 && Ordered(nodes)
  {
    Visit(nodes, |nodes| - 1, [])
  }

  /** The positions `0, 1, ..., n - 1`. */
  function Range(n: nat): (r: seq<nat>)
    ensures |r| == n && forall k | 0 <= k < n :: r[k] == k
  {
    seq(n, k => k)
  }

  /** The source's condition on each visited node: it is visited at its own position, within the table. */
  predicate Canonical(nodes: seq<Node>)
    requires |nodes| > 0 && Ordered(nodes)
  {
    var t := Traversal(nodes);
    forall k | 0 <= k < |t| :: k < |nodes| && t[k] == k
  }

  // ---------------------------------------------------------------------
  // Properties of the traversal

  /** A node not yet seen is listed last. */
  lemma VisitEndsWithNode(nodes: seq<Node>, i: nat, seen: seq<nat>)
    requires i < |nodes| && Ordered(nodes) && i !in seen
    ensures var r := Visit(nodes, i, seen); |r| > |seen| && r[|r| - 1] == i
  {
  }

  /** A visit lists no node twice. */
  lemma {:induction false} VisitDistinct(nodes: seq<Node>, i: nat, seen: seq<nat>)
    requires i < |nodes| && Ordered(nodes) && Distinct(seen)
    ensures Distinct(Visit(nodes, i, seen))
    decreases i
  {
    if i !in seen {
      var cs := Children(nodes[i]);
      ChildrenBelow(nodes[i], i);
      var s1 := if |cs| >= 1 then Visit(nodes, cs[0], seen) else seen;
      if |cs| >= 1 { VisitDistinct(nodes, cs[0], seen); }
      var s2 := if |cs| >= 2 then Visit(nodes, cs[1], s1) else s1;
      if |cs| >= 2 { VisitDistinct(nodes, cs[1], s1); }
      assert i !in s2 by {
        forall k | 0 <= k < |s2| ensures s2[k] != i {
          if k < |seen| {
            assert s2[k] == seen[k];
          } else if k < |s1| {
            assert s2[k] == s1[k];
          }
        }
      }
    }
  }

  /** Appending a node whose children are already listed keeps children first. */
  lemma ChildrenFirstAppend(nodes: seq<Node>, s: seq<nat>, i: nat)
    requires ChildrenFirst(nodes, s) && i < |nodes| && ChildrenListed(nodes[i], s)
    ensures ChildrenFirst(nodes, s + [i])
  {
    assert (s + [i])[..|s|] == s;
  }

  lemma InLonger(x: nat, s: seq<nat>, r: seq<nat>)
    requires x in s && s <= r
    ensures x in r
  {
    var k :| 0 <= k < |s| && s[k] == x;
    assert r[k] == x;
  }

  /** A node has at most two children. */
  lemma AtMostTwoChildren(n: Node)
    ensures |Children(n)| <= 2
  {
  }

  /** The children visited before `i` are listed once both visits are done. */
  lemma ChildrenVisited(cs: seq<nat>, s1: seq<nat>, s2: seq<nat>)
    requires |cs| <= 2 && s1 <= s2
    requires |cs| >= 1 ==> cs[0] in s1
    requires |cs| >= 2 ==> cs[1] in s2
    ensures forall c | c in cs :: c in s2
  {
    if |cs| >= 1 { InLonger(cs[0], s1, s2); }
  }

  /** One step of `Visit` on a node not yet seen. */
  lemma VisitUnseen(nodes: seq<Node>, i: nat, seen: seq<nat>, s1: seq<nat>, s2: seq<nat>)
    requires i < |nodes| && Ordered(nodes) && i !in seen
    requires forall k | 0 <= k < |Children(nodes[i])| :: Children(nodes[i])[k] < i
    requires s1 == if |Children(nodes[i])| >= 1 then Visit(nodes, Children(nodes[i])[0], seen) else seen
    requires s2 == if |Children(nodes[i])| >= 2 then Visit(nodes, Children(nodes[i])[1], s1) else s1
    ensures Visit(nodes, i, seen) == s2 + [i]
  {
  }

  /** A visit lists every node after its children. */
  lemma {:induction false} VisitChildrenFirst(nodes: seq<Node>, i: nat, seen: seq<nat>)
    requires i < |nodes| && Ordered(nodes) && ChildrenFirst(nodes, seen)
    ensures ChildrenFirst(nodes, Visit(nodes, i, seen))
    decreases i
  {
    if i !in seen {
      var cs := Children(nodes[i]);
      ChildrenBelow(nodes[i], i);
      AtMostTwoChildren(nodes[i]);
      var s1 := if |cs| >= 1 then Visit(nodes, cs[0], seen) else seen;
      if |cs| >= 1 { VisitChildrenFirst(nodes, cs[0], seen); }
      var s2 := if |cs| >= 2 then Visit(nodes, cs[1], s1) else s1;
      if |cs| >= 2 { VisitChildrenFirst(nodes, cs[1], s1); }
      ChildrenVisited(cs, s1, s2);
      ChildrenFirstAppend(nodes, s2, i);
      VisitUnseen(nodes, i, seen, s1, s2);
    }
  }

  /** The source's check passes exactly when the traversal is `0, 1, ..., len - 1`. */
  lemma CanonicalIff(nodes: seq<Node>)
    requires |nodes| > 0 && Ordered(nodes)
    ensures Canonical(nodes) <==> Traversal(nodes) == Range(|nodes|)
  {
    var t := Traversal(nodes);
    VisitEndsWithNode(nodes, |nodes| - 1, []);
    if Canonical(nodes) {
      assert t[|t| - 1] == |t| - 1;
      assert t == Range(|nodes|);
    }
  }

  /** In a canonical table the root reaches every node. */
  lemma CanonicalReachesAll(nodes: seq<Node>, j: nat)
    requires |nodes| > 0 && Ordered(nodes) && Canonical(nodes) && j < |nodes|
    ensures j in Traversal(nodes)
  {
    var t := Traversal(nodes);
    CanonicalIff(nodes);
    assert t == Range(|nodes|);
    assert t[j] == j;
  }

  /** The traversal lists no node twice. */
  lemma TraversalDistinct(nodes: seq<Node>)
    requires |nodes| > 0 && Ordered(nodes)
    ensures Distinct(Traversal(nodes))
  {
    VisitDistinct(nodes, |nodes| - 1, []);
  }
}
