/** Circular queues (compilateur/src/queue.c): a queue is its last link, whose successor is the
    first. `nodes` is the ghost sequence of links, first to last. */
module Queue {
  import opened Lists

  /** Link i points to link i + 1, the last one back to the first. */
  ghost predicate Cyclic<T>(nodes: seq<Link<T>>, i: nat)
    requires i < |nodes|
    reads nodes
  {
    nodes[i].next == nodes[if i + 1 < |nodes| then i + 1 else 0]
  }

  /** `q` is null for the empty queue and otherwise the last link of one cycle. */
  ghost predicate Ring<T>(q: Link?<T>, nodes: seq<Link<T>>)
    reads nodes
  {
    && q == (if nodes == [] then null else nodes[|nodes| - 1])
    && (forall i :: 0 <= i < |nodes| ==> Cyclic(nodes, i))
    && Distinct(nodes)
  }

  /** enqueue: the new link goes between the last and the first, and becomes the last. */
  method Enqueue<T>(q: Link?<T>, x: T, ghost nodes: seq<Link<T>>) returns (r: Link<T>, ghost more: seq<Link<T>>)
    requires Ring(q, nodes)
    modifies nodes
    ensures more == nodes + [r] && fresh(r) && Ring(r, more)
    ensures Contents(more) == old(Contents(nodes)) + [x]
  {
    r := new Link(x, null);
    more := nodes + [r];
    ghost var was := Contents(nodes);
    if q == null {
      r.next := r;
      assert Cyclic(more, 0);
    } else {
      assert Cyclic(nodes, |nodes| - 1);
      r.next := q.next;
      q.next := r;
      forall i | 0 <= i < |more| ensures Cyclic(more, i) {
        assert i < |nodes| ==> old(Cyclic(nodes, i));
      }
    }
    SameContents(more, was + [x]);
  }

  lemma Around<T>(q: Link<T>, nodes: seq<Link<T>>, k: nat)
    requires Ring(q, nodes) && k < |nodes|
    ensures nodes[k].next == nodes[if k + 1 < |nodes| then k + 1 else 0]
    ensures nodes[k] == q <==> k == |nodes| - 1
  {
    assert Cyclic(nodes, k);
  }

  /** queue_to_list: once around the cycle, from the first link to the last. */
  method QueueToList<T>(q: Link?<T>, ghost nodes: seq<Link<T>>) returns (l: Link?<T>, ghost list: seq<Link<T>>)
    requires Ring(q, nodes)
    ensures Chain(l, list) && Contents(list) == Contents(nodes)
    ensures forall i :: 0 <= i < |list| ==> fresh(list[i])
  {
    hide Ring, Chain, Contents;
    ghost var was := Contents(nodes);
    l, list := null, [];
    EmptyChain<T>();
    if q == null {
      EmptyRing(nodes);
      return;
    }
    NonEmptyRing(q, nodes);
    Around(q, nodes, |nodes| - 1);
    var p := q.next;
    ghost var k := 0;
    Around(q, nodes, 0);
    while p != q
      invariant 0 <= k < |nodes| && p == nodes[k] && (p == q <==> k == |nodes| - 1)
      invariant unchanged(nodes)
      invariant Chain(l, list) && |list| == k && Contents(list) == was[..k]
      invariant forall i :: 0 <= i < |list| ==> fresh(list[i])
      decreases |nodes| - k
    {
      Around(q, nodes, k);
      var following := p.next;
      assert p.content == was[k];
      l, list := AddLast(l, p.content, list);
      p := following;
      k := k + 1;
      Around(q, nodes, k);
    }
    assert p.content == was[k] && was[..k] + [was[k]] == was;
    l, list := AddLast(l, p.content, list);
    assert unchanged(nodes);
  }

  lemma EmptyChain<T>()
    ensures Chain<T>(null, [])
  {
  }

  lemma EmptyRing<T>(nodes: seq<Link<T>>)
    requires Ring(null, nodes)
    ensures nodes == []
  {
  }

  lemma NonEmptyRing<T>(q: Link<T>, nodes: seq<Link<T>>)
    requires Ring(q, nodes)
    ensures nodes != [] && nodes[|nodes| - 1] == q
  {
  }

  /** Any sequence of enqueues, then the conversion: first in, first out. */
  method EnqueueAll<T>(xs: seq<T>) returns (l: Link?<T>, ghost list: seq<Link<T>>)
    ensures Chain(l, list) && Contents(list) == xs
  {
    hide Ring, Chain;
    var q: Link?<T> := null;
    ghost var nodes: seq<Link<T>> := [];
    assert Ring<T>(null, []) by { EmptyIsRing<T>(); }
    for k := 0 to |xs|
      invariant Ring(q, nodes) && Contents(nodes) == xs[..k]
      invariant forall i :: 0 <= i < |nodes| ==> fresh(nodes[i])
    {
      q, nodes := Enqueue(q, xs[k], nodes);
    }
    l, list := QueueToList(q, nodes);
  }

  lemma EmptyIsRing<T>()
    ensures Ring<T>(null, [])
  {
  }
}
