/** The nodes of src/json.c on the heap, and the steps by which the parser links them. */
module JsonNodes {
  import opened JsonTree
  import opened JsonLayout
  import opened Sequences
  import W = Wrappers

  /** struct CS_JsonNode. `text` and `container` share one union in the source; the type of the
      node tells which is meant. */
  class JsonNode {
    var name: Name
    var up: JsonNode?
    var next: JsonNode?
    var last: JsonNode?
    var kind: Type
    var nItemsOrLength: nat
    var text: string
    var container: JsonNode?
    /** What the node has allocated outside the linear allocator. */
    var alloc: W.Option<int>

    constructor ()
      ensures name == W.None && up == null && next == null && last == null && alloc == W.None
      ensures kind == Unknown && nItemsOrLength == 0 && text == [] && container == null
    {
      name, up, next, last := W.None, null, null, null;
      kind, nItemsOrLength, text, container, alloc := Unknown, 0, [], null, W.None;
    }
  }

  ghost function Ref(nodes: seq<JsonNode>, i: int): JsonNode?
  {
    if 0 <= i < |nodes| then nodes[i] else null
  }

  predicate Linkable(i: int, n: nat) { NONE <= i < n }

  /** Node `k` is what its record says. */
  ghost predicate MirrorAt(nodes: seq<JsonNode>, recs: seq<Rec>, k: nat)
    requires k < |nodes| == |recs|
    reads nodes
  {
    var n, r := nodes[k], recs[k];
    && Linkable(r.up, |nodes|) && Linkable(r.next, |nodes|) && Linkable(r.last, |nodes|)
    && Linkable(r.container, |nodes|)
    && n.name == r.name && n.kind == r.kind && n.nItemsOrLength == r.items && n.text == r.text
    && n.up == Ref(nodes, r.up) && n.next == Ref(nodes, r.next)
    && n.last == Ref(nodes, r.last) && n.container == Ref(nodes, r.container)
  }

  ghost predicate Mirror(nodes: seq<JsonNode>, recs: seq<Rec>)
    reads nodes
  {
    && |nodes| == |recs| && Distinct(nodes)
    && forall k :: 0 <= k < |nodes| ==> MirrorAt(nodes, recs, k)
  }

  /** The linear allocator as the source of nodes: those it has given out, in order, and what
      they hold. */
  class Arena {
    ghost var nodes: seq<JsonNode>
    ghost var recs: seq<Rec>

    ghost predicate Valid()
      reads this, nodes
    {
      Mirror(nodes, recs)
    }

    ghost predicate Has(node: JsonNode, i: nat)
      reads this
    {
      i < |nodes| && nodes[i] == node
    }

    constructor ()
      ensures Valid() && nodes == [] && recs == []
    {
      nodes, recs := [], [];
    }

    /** privateNewNode. */
    method NewNode() returns (r: JsonNode)
      requires Valid()
      modifies this
      ensures Valid() && fresh(r) && nodes == old(nodes) + [r]
      ensures recs == old(recs) + [Fresh(W.None, NONE, NONE)]
    {
      r := new JsonNode();
      nodes, recs := nodes + [r], recs + [Fresh(W.None, NONE, NONE)];
      forall k | 0 <= k < |nodes| ensures MirrorAt(nodes, recs, k) {
        assert k < |old(nodes)| ==> old(MirrorAt(nodes, recs, k));
      }
    }

    /** privateNewNext. */
    method NewNext(node: JsonNode, ghost i: nat) returns (r: JsonNode)
      requires Valid() && Has(node, i)
      modifies this, node
      ensures Valid() && fresh(r) && nodes == old(nodes) + [r]
      ensures var n := |old(recs)|;
              recs == old(recs)[i := old(recs)[i].(next := n)]
                      + [Fresh(W.None, old(recs)[i].up, i).(next := old(recs)[i].next)]
    {
      ghost var was := recs;
      assert MirrorAt(nodes, recs, i);
      r := NewNode();
      label Made:
      assert MirrorAt(nodes, recs, i);
      r.up := node.up;
      r.last := node;
      r.next := node.next;
      node.next := r;
      ghost var n := |was|;
      recs := was[i := was[i].(next := n)] + [Fresh(W.None, was[i].up, i).(next := was[i].next)];
      forall k | 0 <= k < |nodes| ensures MirrorAt(nodes, recs, k) {
        assert old@Made(MirrorAt(nodes, recs, k));
      }
    }

    /** privateNewContained, on a node that contains nothing yet. */
    method NewContained(node: JsonNode, ghost i: nat) returns (r: JsonNode)
      requires Valid() && Has(node, i) && node.container == null
      modifies this, node
      ensures Valid() && fresh(r) && nodes == old(nodes) + [r]
      ensures recs == old(recs)[i := old(recs)[i].(container := |old(recs)|)] + [Fresh(W.None, i, NONE)]
    {
      ghost var was := recs;
      r := NewNode();
      label Made:
      r.up := node;
      node.container := r;
      recs := was[i := was[i].(container := |was|)] + [Fresh(W.None, i, NONE)];
      forall k | 0 <= k < |nodes| ensures MirrorAt(nodes, recs, k) {
        assert old@Made(MirrorAt(nodes, recs, k));
      }
    }

    /** The first part of privateClose: the node is cut off from its container. */
    method CutOff(node: JsonNode, ghost i: nat)
      requires Valid() && Has(node, i) && recs[i].last < i && 0 <= recs[i].up < |recs|
      modifies this`recs, nodes
      ensures Valid() && recs == AfterCut(old(recs), i)
    {
      assert MirrorAt(nodes, recs, i);
      ghost var l, u := recs[i].last, recs[i].up;
      if node.last != null {
        node.last.next := null;
        recs := recs[l := recs[l].(next := NONE)];
      } else {
        node.up.container := null;
        recs := recs[u := recs[u].(container := NONE)];
      }
      forall k | 0 <= k < |nodes| ensures MirrorAt(nodes, recs, k) {
        assert old(MirrorAt(nodes, recs, k));
      }
    }

    /** Its last part: the node is hung behind the container. */
    method Rehang(node: JsonNode, ghost i: nat, items: nat)
      requires Valid() && Has(node, i) && 0 <= recs[i].up < |recs| && recs[i].up != i
      modifies this`recs, nodes
      ensures Valid() && recs == AfterRehang(old(recs), i, items)
    {
      assert MirrorAt(nodes, recs, i);
      ghost var u := recs[i].up;
      var current := node.up;
      assert MirrorAt(nodes, recs, u);
      current.nItemsOrLength := items;
      current.next := node;
      node.up := current.up;
      node.last := current;
      recs := AfterRehang(recs, i, items);
      forall k | 0 <= k < |nodes| ensures MirrorAt(nodes, recs, k) {
        assert old(MirrorAt(nodes, recs, k));
      }
    }

    /** The loop of privateClose: back along the siblings. */
    method CountBack(node: JsonNode?, ghost j: int, items: nat) returns (n: nat)
      requires Valid() && LastsBack(recs) && Linkable(j, |nodes|) && node == Ref(nodes, j)
      ensures n == items + Count(recs, j)
    {
      n := items;
      var current := node;
      ghost var k := j;
      while current != null
        invariant Linkable(k, |nodes|) && current == Ref(nodes, k)
        invariant n + Count(recs, k) == items + Count(recs, j)
        decreases k
      {
        assert MirrorAt(nodes, recs, k);
        n := n + 1;
        current := current.last;
        k := recs[k].last;
      }
    }

    /** privateClose: the container counts its items, and the node that waited in it waits behind it. */
    method Close(node: JsonNode, ghost i: nat, ghost items: nat)
      requires Valid() && Has(node, i) && recs[i].last < i && 0 <= recs[i].up < i
      requires var b := AfterCut(recs, i);
               && LastsBack(b) && Count(b, recs[i].last) == items && b[i] == recs[i] && b[recs[i].up].items == 0
      modifies this`recs, nodes
      ensures Valid() && recs == AfterClose(old(recs), i, items)
    {
      CutOff(node, i);
      assert MirrorAt(nodes, recs, i) && MirrorAt(nodes, recs, recs[i].up);
      var n := CountBack(node.last, recs[i].last, node.up.nItemsOrLength);
      Rehang(node, i, n);
    }
  }
}
