/** The stream form of Dict and HashMultimap: all values behind each other, then the nodes with
    offsets in place of pointers. */
module Arenas {
  import opened DsUtil

  /** Where a node's values lie in a stream: an offset into the values written before the nodes. */
  datatype Span = Span(off: nat, size: nat)

  datatype Image<V> = Image(size: nat, values: seq<V>, nodes: seq<Node<Span>>)

  /** The spans tile a prefix of the values, in order and without gaps. */
  ghost predicate Tiled(nodes: seq<Node<Span>>, total: nat) {
    && (forall i :: 0 <= i < |nodes| ==> nodes[i].val.off + nodes[i].val.size <= total)
    && (forall i :: 0 <= i < |nodes| ==> nodes[i].val.off == if i == 0 then 0 else nodes[i - 1].val.off + nodes[i - 1].val.size)
    && (if nodes == [] then total == 0 else nodes[|nodes| - 1].val.off + nodes[|nodes| - 1].val.size == total)
  }

  /** Every entry of view is one node, whose span of the values is the entry's value. */
  ghost predicate Carries<V>(nodes: seq<Node<Span>>, values: seq<V>, view: map<int, seq<V>>) {
    && Unique(nodes)
    && (forall k :: k in view ==> exists i :: 0 <= i < |nodes| && nodes[i].key == k)
    && (forall i :: 0 <= i < |nodes| ==> Spans(nodes[i], values, view))
  }

  ghost predicate Spans<V>(x: Node<Span>, values: seq<V>, view: map<int, seq<V>>) {
    && x.val.size > 0 && x.val.off + x.val.size <= |values|
    && x.key in view && view[x.key] == values[x.val.off..x.val.off + x.val.size]
  }

  /** In a tiling, different spans do not overlap. */
  lemma {:induction false} TilesApart(nodes: seq<Node<Span>>, total: nat, i: nat, j: nat)
    requires Tiled(nodes, total) && i < j < |nodes|
    ensures nodes[i].val.off + nodes[i].val.size <= nodes[j].val.off
  {
    if i + 1 < j { TilesApart(nodes, total, i, j - 1); }
  }

  /** What the values and spans of an image are, one by one. */
  lemma ImageParts<V>(ns: seq<Node<Span>>, vs: seq<V>, view: map<int, seq<V>>)
    requires Tiled(ns, |vs|) && Carries(ns, vs, view)
    ensures forall i :: 0 <= i < |ns| ==>
      ns[i].val.off == if i == 0 then 0 else ns[i - 1].val.off + ns[i - 1].val.size
    ensures forall x :: x in ns ==>
      && x.val.off + x.val.size <= |vs| && x.key in view
      && view[x.key] == vs[x.val.off..x.val.off + x.val.size]
    ensures |vs| == if ns == [] then 0 else var x := ns[|ns| - 1]; x.val.off + x.val.size
    ensures forall k :: k in view ==> exists i :: 0 <= i < |ns| && ns[i].key == k
  {
    forall x | x in ns ensures Spans(x, vs, view) {
      var i :| 0 <= i < |ns| && ns[i] == x;
    }
  }

  lemma NoTiles()
    ensures Tiled([], 0)
  {
  }

  /** One more node with its values at the end. */
  lemma NextTile<V>(ns: seq<Node<Span>>, vs: seq<V>, k: int, more: seq<V>, view: map<int, seq<V>>)
    requires Tiled(ns, |vs|) && more != [] && k in view && view[k] == more
    ensures var x := Node(k, Span(|vs|, |more|));
      Tiled(ns + [x], |vs + more|) && Spans(x, vs + more, view)
    ensures forall x :: Spans(x, vs, view) ==> Spans(x, vs + more, view)
  {
    forall x | Spans(x, vs, view) ensures Spans(x, vs + more, view) {
      assert (vs + more)[x.val.off..x.val.off + x.val.size] == vs[x.val.off..x.val.off + x.val.size];
    }
    assert (vs + more)[|vs|..|vs| + |more|] == more;
  }
}
