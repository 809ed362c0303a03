/** Singly linked lists of named nodes, as C code threads them through its records. */
module LinkedList {
  import opened CText

  class Node {
    const name: CString
    var next: Node?
    // The head of a list that the node owns
    var sub: Node?

    constructor (name: CString)
      ensures this.name == name && next == null && sub == null
    {
      this.name := name;
      next, sub := null, null;
    }
  }

  /** Node `i`, or the end of the list. */
  ghost function NodeAt(nodes: seq<Node>, i: nat): Node? {
    if i < |nodes| then nodes[i] else null
  }

  ghost predicate Distinct(nodes: seq<Node>) {
    forall i, j :: 0 <= i < j < |nodes| ==> nodes[i] != nodes[j]
  }

  /** Following `next` from `head` visits the nodes once each, in order, and ends. */
  ghost predicate IsList(head: Node?, nodes: seq<Node>)
    reads (set n | n in nodes)`next
  {
    && Distinct(nodes) && head == NodeAt(nodes, 0)
    && forall i :: 0 <= i < |nodes| ==> nodes[i].next == NodeAt(nodes, i + 1)
  }

  function InsertAt<T>(s: seq<T>, k: nat, x: T): seq<T>
    requires k <= |s|
  {
    s[..k] + [x] + s[k..]
  }

  /** Puts `node` in front of position `k`, behind `prev`. */
  method Link(head: Node?, prev: Node?, node: Node, ghost nodes: seq<Node>, ghost k: nat) returns (newHead: Node?)
    requires IsList(head, nodes) && node !in nodes && k <= |nodes|
    requires prev == if k == 0 then null else nodes[k - 1]
    modifies (if prev == null then {} else {prev})`next, node`next
    ensures IsList(newHead, InsertAt(nodes, k, node))
  {
    ghost var now := InsertAt(nodes, k, node);
    Positions(nodes, k, node);
    if prev == null {
      node.next := head;
      newHead := node;
    } else {
      node.next := prev.next;
      prev.next := node;
      newHead := head;
    }
  }

  lemma Positions(nodes: seq<Node>, k: nat, node: Node)
    requires k <= |nodes| && node !in nodes && Distinct(nodes)
    ensures var now := InsertAt(nodes, k, node);
            && |now| == |nodes| + 1 && Distinct(now)
            && (forall i :: 0 <= i < k ==> now[i] == nodes[i])
            && now[k] == node
            && (forall i :: k < i <= |nodes| ==> now[i] == nodes[i - 1])
  {
  }

  // ---------------------------------------------------------------------------------------
  // strcmp
  // ---------------------------------------------------------------------------------------

  /** `strcmp(a, b) < 0` */
  predicate Less(a: CString, b: CString) {
    b != [] && (a == [] || a[0] < b[0] || (a[0] == b[0] && Less(a[1..], b[1..])))
  }

  lemma {:induction false} LessTotal(a: CString, b: CString)
    ensures Less(a, b) || a == b || Less(b, a)
    ensures !(Less(a, b) && Less(b, a))
    decreases |a| + |b|
  {
    if a != [] && b != [] && a[0] == b[0] {
      LessTotal(a[1..], b[1..]);
      assert a == [a[0]] + a[1..] && b == [b[0]] + b[1..];
    }
  }

  /** Behind the longest common beginning, the smaller string ends or has the smaller character. */
  lemma {:induction false} LessIsLexicographic(a: CString, b: CString)
    ensures Less(a, b) <==>
            exists k: nat :: k <= |a| && k < |b| && a[..k] == b[..k] && (k == |a| || a[k] < b[k])
    decreases |a|
  {
    if b != [] {
      if a == [] {
        assert a[..0] == b[..0];
      } else if a[0] < b[0] {
        assert a[..0] == b[..0];
      } else if a[0] == b[0] {
        LessIsLexicographic(a[1..], b[1..]);
        forall k: nat | 0 < k <= |a| && k < |b|
          ensures a[..k] == b[..k] <==> a[1..][..k - 1] == b[1..][..k - 1]
        {
          assert a[..k] == [a[0]] + a[1..][..k - 1] && b[..k] == [b[0]] + b[1..][..k - 1];
        }
        if Less(a[1..], b[1..]) {
          var j: nat :| j <= |a[1..]| && j < |b[1..]| && a[1..][..j] == b[1..][..j]
                        && (j == |a[1..]| || a[1..][j] < b[1..][j]);
          assert a[..j + 1] == b[..j + 1];
        }
        if k: nat :| k <= |a| && k < |b| && a[..k] == b[..k] && (k == |a| || a[k] < b[k]) {
          assert k > 0;
          assert a[1..][..k - 1] == b[1..][..k - 1];
        }
      } else {
        forall k: nat | 0 < k <= |a| && k < |b|
          ensures a[..k] != b[..k]
        {
          assert a[..k][0] == a[0] && b[..k][0] == b[0];
        }
      }
    }
  }

  lemma {:induction false} LessTransitive(a: CString, b: CString, c: CString)
    requires Less(a, b) && Less(b, c)
    ensures Less(a, c)
    decreases |a|
  {
    if a != [] && a[0] == b[0] == c[0] {
      LessTransitive(a[1..], b[1..], c[1..]);
    }
  }
}
