/** The in-place rewriting that lets the greedy matcher work (compilateur/src/regexp.c:35-77). */
module Rewriter {
  import opened Regexp
  import opened Lists

  // ----- what the pass leaves -----

  /** The pass with `p` as the previous group and `rest` still ahead. */
  function Opti(p: Group, rest: seq<Group>): (r: seq<Group>)
    ensures r != []
    decreases |rest|
  {
    if rest == [] then [p]
    else
      var c := rest[0];
      if p.members == c.members && p.op == ZOM && c.op in {NOP, OOM} then
        Opti(p.(op := OOM), rest[1..])
      else if p.members == c.members && p.op == OOM && c.op == NOP then
        [p.(op := NOP)] + Opti(c.(op := OOM), rest[1..])
      else [p] + Opti(c, rest[1..])
  }

  function OptiAll(gs: seq<Group>): seq<Group> {
    if gs == [] then [] else Opti(gs[0], gs[1..])
  }

  // ----- the pass in place -----

  method SameGroup(a: Group, b: Group) returns (same: bool)
    ensures same == (a.members == b.members)
  {
    same := true;
    for i := 0 to 256
      invariant same == (a.members[..i] == b.members[..i])
    {
      assert a.members[..i + 1] == a.members[..i] + [a.members[i]];
      assert b.members[..i + 1] == b.members[..i] + [b.members[i]];
      if a.members[i] != b.members[i] { same := false; }
    }
    assert a.members[..256] == a.members && b.members[..256] == b.members;
  }

  lemma NextLink(head: Link?<Group>, nodes: seq<Link<Group>>, k: nat)
    requires Chain(head, nodes) && k < |nodes|
    ensures nodes[k].next == if k + 1 < |nodes| then nodes[k + 1] else null
  {
    assert Linked(nodes, k);
  }

  /** `a*a` and `a*a+`: the first becomes `a+`, the second is removed. */
  method Merge(p: Link<Group>, ghost nodes: seq<Link<Group>>, ghost k: nat, ghost head: Link?<Group>)
    returns (l: Link?<Group>, ghost left: seq<Link<Group>>)
    requires Chain(head, nodes) && k + 1 < |nodes| && p == nodes[k]
    modifies p
    ensures left == nodes[..k + 1] + nodes[k + 2..] && Chain(head, left) && l == p.next
    ensures forall n :: n in left ==> n in nodes
    ensures var was := old(Contents(nodes));
      Contents(left) == was[..k] + [was[k].(op := OOM)] + was[k + 2..]
  {
    hide Chain;
    ghost var was := Contents(nodes);
    SetContent(p, p.content.(op := OOM), nodes, k, head);
    l, left := Unlink(p, nodes, k, head);
    forall n | n in left ensures n in nodes {}
    Spliced(was, k, was[k].(op := OOM));
  }

  lemma Spliced(s: seq<Group>, k: nat, g: Group)
    requires k + 1 < |s|
    ensures s[k := g][..k + 1] + s[k := g][k + 2..] == s[..k] + [g] + s[k + 2..]
  {
  }

  /** `a+a`: the operator moves to the second. */
  method Shift(p: Link<Group>, l: Link<Group>, ghost nodes: seq<Link<Group>>, ghost k: nat, ghost head: Link?<Group>)
    requires Chain(head, nodes) && k + 1 < |nodes| && p == nodes[k] && l == nodes[k + 1]
    modifies p`content, l`content
    ensures Chain(head, nodes)
    ensures var was := old(Contents(nodes));
      Contents(nodes) == was[k := was[k].(op := NOP)][k + 1 := was[k + 1].(op := OOM)]
  {
    SetContent(p, p.content.(op := NOP), nodes, k, head);
    SetContent(l, l.content.(op := OOM), nodes, k + 1, head);
  }

  /** One round of the loop, at link k and its successor. */
  method Round(p: Link<Group>, l: Link<Group>, ghost nodes: seq<Link<Group>>, ghost k: nat, ghost head: Link?<Group>)
    returns (p': Link<Group>, ghost left: seq<Link<Group>>, ghost k': nat)
    requires Chain(head, nodes) && k + 1 < |nodes| && p == nodes[k] && l == nodes[k + 1]
    modifies p, l
    ensures Chain(head, left) && k' < |left| && p' == left[k'] && |left| - k' < |nodes| - k
    ensures forall n :: n in left ==> n in nodes
    ensures Step(Contents(left), k') == old(Step(Contents(nodes), k))
  {
    hide Opti, Step, Chain;
    ghost var was := Contents(nodes);
    var sameGroup := SameGroup(p.content, l.content);
    if sameGroup && p.content.op == ZOM && l.content.op in {NOP, OOM} {
      Merges(was, k);
      var _, merged := Merge(p, nodes, k, head);
      p', left, k' := p, merged, k;
    } else {
      Moves(was, k);
      if sameGroup && p.content.op == OOM && l.content.op == NOP {
        Shift(p, l, nodes, k, head);
      }
      p', left, k' := l, nodes, k + 1;
    }
  }

  /** opti_regexp: operators are overwritten and merged links unlinked; the head stays. */
  method OptiRegexp(groups: Link?<Group>, ghost nodes: seq<Link<Group>>) returns (ghost left: seq<Link<Group>>)
    requires Chain(groups, nodes)
    modifies nodes
    ensures Chain(groups, left) && (forall n :: n in left ==> n in nodes)
    ensures Contents(left) == OptiAll(old(Contents(nodes)))
  {
    left := nodes;
    if groups == null { return; }
    var p := groups;
    ghost var k := 0;
    ghost var goal := OptiAll(Contents(nodes));
    assert Contents(left)[..0] == [];
    NextLink(groups, left, k);
    while p.next != null
      invariant Chain(groups, left) && (forall n :: n in left ==> n in nodes)
      invariant 0 <= k < |left| && p == left[k] && p.next == (if k + 1 < |left| then left[k + 1] else null)
      invariant Step(Contents(left), k) == goal
      decreases |left| - k
    {
      hide Opti, Step, Chain;
      assert p in left && left[k + 1] in left;
      p, left, k := Round(p, p.next, left, k, groups);
      NextLink(groups, left, k);
    }
    Finished(Contents(left), k);
  }

  lemma Finished(gs: seq<Group>, k: nat)
    requires |gs| == k + 1
    ensures Step(gs, k) == gs
  {
    assert gs[..k] + [gs[k]] == gs && gs[k + 1..] == [];
  }

  /** What the pass makes of `gs` from position k on. */
  function Step(gs: seq<Group>, k: nat): seq<Group>
    requires k < |gs|
  {
    gs[..k] + Opti(gs[k], gs[k + 1..])
  }

  lemma Merges(gs: seq<Group>, k: nat)
    requires k + 1 < |gs| && gs[k].members == gs[k + 1].members && gs[k].op == ZOM && gs[k + 1].op in {NOP, OOM}
    ensures Step(gs, k) == Step(gs[..k] + [gs[k].(op := OOM)] + gs[k + 2..], k)
  {
    var hs := gs[..k] + [gs[k].(op := OOM)] + gs[k + 2..];
    assert hs[..k] == gs[..k] && hs[k + 1..] == gs[k + 2..] && gs[k + 1..][1..] == gs[k + 2..];
  }

  lemma Moves(gs: seq<Group>, k: nat)
    requires k + 1 < |gs| && !(gs[k].members == gs[k + 1].members && gs[k].op == ZOM && gs[k + 1].op in {NOP, OOM})
    ensures Step(gs, k) ==
      Step(if gs[k].members == gs[k + 1].members && gs[k].op == OOM && gs[k + 1].op == NOP
           then gs[k := gs[k].(op := NOP)][k + 1 := gs[k + 1].(op := OOM)] else gs, k + 1)
  {
    var swap := gs[k].members == gs[k + 1].members && gs[k].op == OOM && gs[k + 1].op == NOP;
    var hs := if swap then gs[k := gs[k].(op := NOP)][k + 1 := gs[k + 1].(op := OOM)] else gs;
    assert hs[..k + 1] == gs[..k] + [hs[k]] && hs[k + 2..] == gs[k + 1..][1..];
    var tail := Opti(hs[k + 1], hs[k + 2..]);
    assert gs[..k] + ([hs[k]] + tail) == hs[..k + 1] + tail;
  }

  // ----- the language is kept -----

  lemma AllInConcat(a: Group, b: Group, u: string, v: string)
    requires a.members == b.members
    ensures AllIn(a, u + v) <==> AllIn(a, u) && AllIn(b, v)
  {
    assert forall k :: 0 <= k < |v| ==> (u + v)[|u| + k] == v[k];
    assert forall k :: 0 <= k < |u| ==> (u + v)[k] == u[k];
  }

  /** The first i + j characters belong to two groups of the same characters, the rest to `rest`. */
  ghost predicate Joint(a: Group, rest: seq<Group>, w: string, i: nat, j: nat) {
    i + j <= |w| && AllIn(a, w[..i + j]) && Lang(rest, w[i + j..])
  }

  /** The lengths of the two runs of a word. */
  lemma SplitWord(a: Group, b: Group, rest: seq<Group>, w: string) returns (i: nat, j: nat)
    requires a.members == b.members && Lang([a, b] + rest, w)
    ensures a.op.Allows(i) && b.op.Allows(j) && Joint(a, rest, w, i, j)
  {
    hide AllIn;
    i := HasRun([a, b] + rest, w);
    assert ([a, b] + rest)[1..] == [b] + rest && ([b] + rest)[1..] == rest;
    j := HasRun([b] + rest, w[i..]);
    assert w[..i + j] == w[..i] + w[i..][..j] && w[i..][j..] == w[i + j..];
    AllInConcat(a, b, w[..i], w[i..][..j]);
  }

  /** Any two runs that fit make a word. */
  lemma JoinWord(a: Group, b: Group, rest: seq<Group>, w: string, i: nat, j: nat)
    requires a.members == b.members && a.op.Allows(i) && b.op.Allows(j) && Joint(a, rest, w, i, j)
    ensures Lang([a, b] + rest, w)
  {
    hide AllIn, Lang;
    assert ([a, b] + rest)[1..] == [b] + rest && ([b] + rest)[1..] == rest;
    assert w[..i + j] == w[..i] + w[i..][..j] && w[i..][j..] == w[i + j..];
    AllInConcat(a, b, w[..i], w[i..][..j]);
    RunIsWord([b] + rest, w[i..], j);
    RunIsWord([a, b] + rest, w, i);
  }

  lemma SameJoint(a: Group, b: Group, rest: seq<Group>, w: string, i: nat, j: nat, i': nat, j': nat)
    requires a.members == b.members && Joint(a, rest, w, i, j) && i + j == i' + j'
    ensures Joint(b, rest, w, i', j')
  {
    hide Lang;
  }

  /** `a*a` and `a*a+` are `a+`. */
  lemma MergeKeeps(p: Group, c: Group, rest: seq<Group>, w: string)
    requires p.members == c.members && p.op == ZOM && c.op in {NOP, OOM}
    ensures Lang([p, c] + rest, w) <==> Lang([p.(op := OOM)] + rest, w)
  {
    hide Lang, AllIn;
    var p' := p.(op := OOM);
    var one := [p'] + rest;
    assert one[1..] == rest;
    if Lang([p, c] + rest, w) {
      var i, j := SplitWord(p, c, rest, w);
      SameJoint(p, p', rest, w, i, j, i + j, 0);
      RunIsWord(one, w, i + j);
    }
    if Lang(one, w) {
      var k := HasRun(one, w);
      SameJoint(p', p, rest, w, k, 0, k - 1, 1);
      JoinWord(p, c, rest, w, k - 1, 1);
    }
  }

  /** `a+a` is `aa+`. */
  lemma ShiftKeeps(p: Group, c: Group, rest: seq<Group>, w: string)
    requires p.members == c.members && p.op == OOM && c.op == NOP
    ensures Lang([p, c] + rest, w) <==> Lang([p.(op := NOP), c.(op := OOM)] + rest, w)
  {
    hide Lang, AllIn;
    var p', c' := p.(op := NOP), c.(op := OOM);
    if Lang([p, c] + rest, w) {
      var i, j := SplitWord(p, c, rest, w);
      SameJoint(p, p', rest, w, i, j, j, i);
      JoinWord(p', c', rest, w, j, i);
    }
    if Lang([p', c'] + rest, w) {
      var i, j := SplitWord(p', c', rest, w);
      SameJoint(p', p, rest, w, i, j, j, i);
      JoinWord(p, c, rest, w, j, i);
    }
  }

  /** Equal languages stay equal behind a common first group. */
  lemma SameBehind(g: Group, a: seq<Group>, b: seq<Group>, w: string)
    requires forall v :: Lang(a, v) <==> Lang(b, v)
    ensures Lang([g] + a, w) <==> Lang([g] + b, w)
  {
    assert ([g] + a)[1..] == a && ([g] + b)[1..] == b;
    if Lang([g] + a, w) {
      var k := HasRun([g] + a, w);
      RunIsWord([g] + b, w, k);
    }
    if Lang([g] + b, w) {
      var k := HasRun([g] + b, w);
      RunIsWord([g] + a, w, k);
    }
  }

  lemma {:induction false} OptiKeeps(p: Group, rest: seq<Group>, w: string)
    ensures Lang(Opti(p, rest), w) <==> Lang([p] + rest, w)
    decreases |rest|
  {
    hide Lang;
    if rest == [] {
      assert [p] + [] == [p];
    } else {
      var c, tail := rest[0], rest[1..];
      assert [p] + rest == [p, c] + tail;
      if p.members == c.members && p.op == ZOM && c.op in {NOP, OOM} {
        MergeKeeps(p, c, tail, w);
        OptiKeeps(p.(op := OOM), tail, w);
      } else {
        var shift := p.members == c.members && p.op == OOM && c.op == NOP;
        var p', c' := if shift then p.(op := NOP) else p, if shift then c.(op := OOM) else c;
        if shift {
          ShiftKeeps(p, c, tail, w);
        }
        forall v ensures Lang(Opti(c', tail), v) <==> Lang([c'] + tail, v) {
          OptiKeeps(c', tail, v);
        }
        SameBehind(p', Opti(c', tail), [c'] + tail, w);
        assert [p'] + ([c'] + tail) == [p', c'] + tail;
      }
    }
  }

  /** The rewriter keeps the language of every list of groups. */
  lemma LanguageKept(gs: seq<Group>, w: string)
    ensures Lang(OptiAll(gs), w) <==> Lang(gs, w)
  {
    if gs != [] {
      OptiKeeps(gs[0], gs[1..], w);
      assert [gs[0]] + gs[1..] == gs;
    }
  }

  // ----- normal form -----

  /** The rewriter keeps the number of mandatory characters. */
  lemma {:induction false} MandatoryKept(p: Group, rest: seq<Group>)
    ensures Mandatory(Opti(p, rest)) == Mandatory([p] + rest)
    decreases |rest|
  {
    if rest != [] {
      var c, tail := rest[0], rest[1..];
      MandatoryCons(p, rest);
      MandatoryCons(c, tail);
      assert [c] + tail == rest;
      if p.members == c.members && p.op == ZOM && c.op in {NOP, OOM} {
        MandatoryKept(p.(op := OOM), tail);
        MandatoryCons(p.(op := OOM), tail);
      } else {
        var shift := p.members == c.members && p.op == OOM && c.op == NOP;
        var p', c' := if shift then p.(op := NOP) else p, if shift then c.(op := OOM) else c;
        MandatoryKept(c', tail);
        MandatoryCons(c', tail);
        MandatoryCons(p', Opti(c', tail));
      }
    } else {
      assert [p] + rest == [p];
    }
  }

  lemma MandatoryCons(g: Group, gs: seq<Group>)
    ensures Mandatory([g] + gs) == (if g.op in {NOP, OOM} then 1 else 0) + Mandatory(gs)
  {
    assert ([g] + gs)[1..] == gs;
  }

  /** After its own plain repetitions, a closure is disjoint from what can follow. */
  ghost predicate ClosureApart(g: Group, gs: seq<Group>) {
    if gs != [] && gs[0].members == g.members && gs[0].op == NOP then ClosureApart(g, gs[1..])
    else Apart(g, gs)
  }

  /** `a*` right before `a+`. */
  predicate Absorbed(g: Group, gs: seq<Group>) {
    g.op == ZOM && gs != [] && gs[0].members == g.members && gs[0].op == OOM
  }

  /** The lists the rewriter makes deterministic: every closure may be followed by plain groups of
      its own characters, then by nothing it could also consume, unless it is `a*` before `a+`;
      every `?` is disjoint from what can follow it. */
  ghost predicate Tame(gs: seq<Group>) {
    gs == [] || (
      && (gs[0].op in {ZOM, OOM} ==> Absorbed(gs[0], gs[1..]) || ClosureApart(gs[0], gs[1..]))
      && (gs[0].op == ZOO ==> Apart(gs[0], gs[1..]))
      && Tame(gs[1..]))
  }

  lemma {:induction false} FirstKept(p: Group, rest: seq<Group>, c: char)
    ensures First(Opti(p, rest), c) <==> First([p] + rest, c)
    decreases |rest|
  {
    if rest == [] {
      assert [p] + rest == [p];
    } else {
      var d, tail := rest[0], rest[1..];
      assert ([p] + rest)[1..] == rest;
      if p.members == d.members && p.op == ZOM && d.op in {NOP, OOM} {
        FirstKept(p.(op := OOM), tail, c);
      } else {
        var shift := p.members == d.members && p.op == OOM && d.op == NOP;
        var p', d' := if shift then p.(op := NOP) else p, if shift then d.(op := OOM) else d;
        FirstKept(d', tail, c);
        assert ([p'] + Opti(d', tail))[1..] == Opti(d', tail);
        assert ([d'] + tail)[1..] == tail;
      }
    }
  }

  lemma ClosureApartSame(g: Group, h: Group, gs: seq<Group>)
    requires g.members == h.members
    ensures ClosureApart(g, gs) <==> ClosureApart(h, gs)
    decreases |gs|
  {
    if gs != [] {
      ClosureApartSame(g, h, gs[1..]);
    }
    assert forall c :: g.In(c) <==> h.In(c);
  }

  lemma {:induction false} OptiDeterministic(p: Group, rest: seq<Group>)
    ensures Deterministic(Opti(p, rest)) <==> Tame([p] + rest)
    decreases |rest|
  {
    assert ([p] + rest)[1..] == rest;
    if rest == [] {
      assert ([p])[1..] == [];
    } else {
      var d, tail := rest[0], rest[1..];
      if p.members == d.members && p.op == ZOM && d.op in {NOP, OOM} {
        MergedTame(p, d, tail);
        assert [d] + tail == rest;
        OptiDeterministic(p.(op := OOM), tail);
      } else {
        var shift := p.members == d.members && p.op == OOM && d.op == NOP;
        var p', d' := if shift then p.(op := NOP) else p, if shift then d.(op := OOM) else d;
        assert ([d'] + tail)[1..] == tail;
        if shift {
          ClosureApartSame(p, d', tail);
        } else {
          assert [d'] + tail == rest;
        }
        OptiDeterministic(d', tail);
        var r := Opti(d', tail);
        assert ([p'] + r)[1..] == r;
        forall c ensures First(r, c) <==> First([d'] + tail, c) {
          FirstKept(d', tail, c);
        }
      }
    }
  }

  lemma MergedTame(p: Group, d: Group, tail: seq<Group>)
    requires p.members == d.members && p.op == ZOM && d.op in {NOP, OOM}
    ensures Tame([p] + ([d] + tail)) <==> Tame([p.(op := OOM)] + tail)
  {
    assert ([p] + ([d] + tail))[1..] == [d] + tail && ([d] + tail)[1..] == tail;
    assert ([p.(op := OOM)] + tail)[1..] == tail;
    ClosureApartSame(p, p.(op := OOM), tail);
    ClosureApartSame(d, p.(op := OOM), tail);
  }

  /** The pass makes a list deterministic exactly when the list is tame. */
  lemma TameExact(gs: seq<Group>)
    ensures Deterministic(OptiAll(gs)) <==> Tame(gs)
  {
    if gs != [] {
      assert [gs[0]] + gs[1..] == gs;
      OptiDeterministic(gs[0], gs[1..]);
    }
  }

  /** A list on which no rewrite applies is left as it is. */
  lemma {:induction false} Unchanged(p: Group, rest: seq<Group>)
    requires var gs := [p] + rest;
      forall i :: 0 <= i < |rest| ==> gs[i].op in {NOP, ZOO} || gs[i].members != gs[i + 1].members
    ensures Opti(p, rest) == [p] + rest
    decreases |rest|
  {
    if rest != [] {
      var gs, hs := [p] + rest, [rest[0]] + rest[1..];
      assert gs[0] == p && gs[0 + 1] == rest[0];
      assert hs == rest && forall i :: 0 <= i < |rest| ==> gs[i + 1] == hs[i];
      forall i | 0 <= i < |rest[1..]| ensures hs[i].op in {NOP, ZOO} || hs[i].members != hs[i + 1].members {
        assert gs[i + 1] == hs[i] && gs[(i + 1) + 1] == hs[i + 1];
      }
      Unchanged(rest[0], rest[1..]);
    }
  }

  // ----- normal form: closures last in their runs -----

  /** Only plain groups follow in the run of g's characters. */
  predicate PlainRun(g: Group, gs: seq<Group>) {
    gs != [] && gs[0].members == g.members ==> gs[0].op == NOP && PlainRun(g, gs[1..])
  }

  /** Every closure is followed by plain groups only in its run, unless it is `a*` before `a+`. */
  predicate Settling(gs: seq<Group>) {
    gs == [] || (
      && (gs[0].op in {ZOM, OOM} ==> Absorbed(gs[0], gs[1..]) || PlainRun(gs[0], gs[1..]))
      && Settling(gs[1..]))
  }

  /** Every closure is the last group of its run. */
  predicate ClosuresLast(gs: seq<Group>) {
    forall i :: 0 <= i < |gs| - 1 && gs[i].op in {ZOM, OOM} ==> gs[i + 1].members != gs[i].members
  }

  lemma ClosuresLastCons(g: Group, gs: seq<Group>)
    requires gs != []
    ensures ClosuresLast([g] + gs) <==> (g.op in {ZOM, OOM} ==> gs[0].members != g.members) && ClosuresLast(gs)
  {
    var hs := [g] + gs;
    assert forall i :: 0 <= i < |gs| ==> hs[i + 1] == gs[i];
    if ClosuresLast(hs) {
      assert hs[0] == g && hs[0 + 1] == gs[0];
      forall i | 0 <= i < |gs| - 1 && gs[i].op in {ZOM, OOM} ensures gs[i + 1].members != gs[i].members {
        assert hs[(i + 1) + 1].members != hs[i + 1].members;
      }
    }
  }

  lemma PlainRunSame(g: Group, h: Group, gs: seq<Group>)
    requires g.members == h.members
    ensures PlainRun(g, gs) <==> PlainRun(h, gs)
    decreases |gs|
  {
    if gs != [] {
      PlainRunSame(g, h, gs[1..]);
    }
  }

  lemma {:induction false} OptiSettles(p: Group, rest: seq<Group>)
    ensures ClosuresLast(Opti(p, rest)) <==> Settling([p] + rest)
    ensures Opti(p, rest)[0].members == p.members
    decreases |rest|
  {
    assert ([p] + rest)[1..] == rest;
    if rest != [] {
      var d, tail := rest[0], rest[1..];
      assert [d] + tail == rest;
      if p.members == d.members && p.op == ZOM && d.op in {NOP, OOM} {
        var p' := p.(op := OOM);
        assert ([p'] + tail)[1..] == tail;
        PlainRunSame(p, p', tail);
        PlainRunSame(d, p', tail);
        OptiSettles(p', tail);
      } else {
        var shift := p.members == d.members && p.op == OOM && d.op == NOP;
        var p', d' := if shift then p.(op := NOP) else p, if shift then d.(op := OOM) else d;
        assert ([d'] + tail)[1..] == tail;
        if shift {
          PlainRunSame(p, d', tail);
        }
        OptiSettles(d', tail);
        ClosuresLastCons(p', Opti(d', tail));
      }
    }
  }

  /** The pass leaves every closure last in its run exactly when the list is settling. */
  lemma SettlesExact(gs: seq<Group>)
    ensures ClosuresLast(OptiAll(gs)) <==> Settling(gs)
  {
    if gs != [] {
      assert [gs[0]] + gs[1..] == gs;
      OptiSettles(gs[0], gs[1..]);
    }
  }

  /** Groups i to j are of the same characters. */
  predicate OneRun(gs: seq<Group>, i: nat, j: nat)
    requires i <= j < |gs|
  {
    forall k :: i <= k <= j ==> gs[k].members == gs[i].members
  }

  /** At most one closure in every run, and no `?`. */
  predicate OneClosurePerRun(gs: seq<Group>) {
    && (forall k :: 0 <= k < |gs| ==> gs[k].op != ZOO)
    && (forall i, j :: 0 <= i < j < |gs| && OneRun(gs, i, j) ==> gs[i].op == NOP || gs[j].op == NOP)
  }

  /** With at most one closure per run and no `?`, the pass leaves the closure last in its run and
      keeps the number of mandatory characters. */
  lemma NormalForm(gs: seq<Group>)
    requires OneClosurePerRun(gs)
    ensures ClosuresLast(OptiAll(gs)) && Mandatory(OptiAll(gs)) == Mandatory(gs)
  {
    OneClosureSettles(gs);
    SettlesExact(gs);
    if gs != [] {
      assert [gs[0]] + gs[1..] == gs;
      MandatoryKept(gs[0], gs[1..]);
    }
  }

  lemma {:induction false} OneClosureSettles(gs: seq<Group>)
    requires OneClosurePerRun(gs)
    ensures Settling(gs)
    decreases |gs|
  {
    if gs != [] {
      OneClosureRest(gs);
      OneClosureSettles(gs[1..]);
      if gs[0].op in {ZOM, OOM} {
        RestOfRun(gs, 1);
      }
    }
  }

  lemma OneClosureRest(gs: seq<Group>)
    requires gs != [] && OneClosurePerRun(gs)
    ensures OneClosurePerRun(gs[1..])
  {
    var hs := gs[1..];
    forall i, j | 0 <= i < j < |hs| && OneRun(hs, i, j) ensures hs[i].op == NOP || hs[j].op == NOP {
      forall k | i + 1 <= k <= j + 1 ensures gs[k].members == gs[i + 1].members {
        assert hs[k - 1].members == hs[i].members;
      }
      assert OneRun(gs, i + 1, j + 1);
    }
  }

  /** Behind a closure at the front, group i and what follows it in the run are plain. */
  lemma {:induction false} RestOfRun(gs: seq<Group>, i: nat)
    requires OneClosurePerRun(gs) && 1 <= i <= |gs| && gs[0].op in {ZOM, OOM} && OneRun(gs, 0, i - 1)
    ensures PlainRun(gs[0], gs[i..])
    decreases |gs| - i
  {
    if i < |gs| && gs[i].members == gs[0].members {
      assert OneRun(gs, 0, i);
      assert gs[i..][1..] == gs[i + 1..];
      RestOfRun(gs, i + 1);
    }
  }
}
