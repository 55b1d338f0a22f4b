/** Singly linked lists (compilateur/src/list.c). `nodes` is the ghost sequence of a list's links. */
module Lists {
  class Link<T> {
    var content: T
    var next: Link?<T>

    constructor (content: T, next: Link?<T>)
      ensures this.content == content && this.next == next
    {
      this.content, this.next := content, next;
    }
  }

  /** Link i points to link i + 1, the last one to nothing. */
  ghost predicate Linked<T>(nodes: seq<Link<T>>, i: nat)
    requires i < |nodes|
    reads nodes
  {
    nodes[i].next == if i + 1 < |nodes| then nodes[i + 1] else null
  }

  predicate Distinct<T(==)>(nodes: seq<Link<T>>) {
    forall i, j :: 0 <= i < j < |nodes| ==> nodes[i] != nodes[j]
  }

  ghost predicate Chain<T>(l: Link?<T>, nodes: seq<Link<T>>)
    reads nodes
  {
    && l == (if nodes == [] then null else nodes[0])
    && (forall i :: 0 <= i < |nodes| ==> Linked(nodes, i))
    && Distinct(nodes)
  }

  ghost function Contents<T>(nodes: seq<Link<T>>): (s: seq<T>)
    reads nodes
    ensures |s| == |nodes| && forall i :: 0 <= i < |nodes| ==> s[i] == nodes[i].content
  {
    if nodes == [] then [] else Contents(nodes[..|nodes| - 1]) + [nodes[|nodes| - 1].content]
  }

  lemma SameContents<T>(a: seq<Link<T>>, b: seq<T>)
    requires |a| == |b| && forall i :: 0 <= i < |a| ==> a[i].content == b[i]
    ensures Contents(a) == b
  {
  }

  /** list_add_last */
  method AddLast<T>(l: Link?<T>, x: T, ghost nodes: seq<Link<T>>) returns (r: Link<T>, ghost more: seq<Link<T>>)
    requires Chain(l, nodes)
    modifies nodes
    ensures |more| == |nodes| + 1 && more[..|nodes|] == nodes && fresh(more[|nodes|])
    ensures Chain(r, more) && Contents(more) == old(Contents(nodes)) + [x]
  {
    var link := new Link(x, null);
    more := nodes + [link];
    ghost var was := Contents(nodes);
    if l == null {
      r := link;
    } else {
      var last := l;
      ghost var k := 0;
      assert Linked(nodes, k);
      while last.next != null
        invariant 0 <= k < |nodes| && last == nodes[k] && Linked(nodes, k)
        decreases |nodes| - k
      {
        last := last.next;
        k := k + 1;
        assert Linked(nodes, k);
      }
      last.next := link;
      r := l;
      forall i | 0 <= i < |more| ensures Linked(more, i) {
        assert i < |nodes| ==> old(Linked(nodes, i));
      }
    }
    SameContents(more, was + [x]);
  }

  /** list_del_first of the link after `p`, and relinking: the list loses that link. */
  method Unlink<T>(p: Link<T>, ghost nodes: seq<Link<T>>, ghost k: nat, ghost head: Link?<T>)
    returns (l: Link?<T>, ghost left: seq<Link<T>>)
    requires Chain(head, nodes) && k + 1 < |nodes| && p == nodes[k]
    modifies p`next
    ensures left == nodes[..k + 1] + nodes[k + 2..] && Chain(head, left) && l == p.next
    ensures Contents(left) == old(Contents(nodes))[..k + 1] + old(Contents(nodes))[k + 2..]
  {
    hide Contents;
    ghost var was := Contents(nodes);
    left := nodes[..k + 1] + nodes[k + 2..];
    assert Linked(nodes, k) && Linked(nodes, k + 1);
    p.next := p.next.next;
    l := p.next;
    forall i | 0 <= i < |left| ensures Linked(left, i) {
      assert old(Linked(nodes, if i <= k then i else i + 1));
    }
    SameContents(left, was[..k + 1] + was[k + 2..]);
  }

  /** Overwrite the content of link k. */
  method SetContent<T>(p: Link<T>, x: T, ghost nodes: seq<Link<T>>, ghost k: nat, ghost head: Link?<T>)
    requires Chain(head, nodes) && k < |nodes| && p == nodes[k]
    modifies p`content
    ensures p.content == x && Chain(head, nodes)
    ensures Contents(nodes) == old(Contents(nodes))[k := x]
  {
    ghost var was := Contents(nodes);
    p.content := x;
    forall i | 0 <= i < |nodes| ensures Linked(nodes, i) {
      assert old(Linked(nodes, i));
    }
    SameContents(nodes, was[k := x]);
  }
}
