/** Character groups, and the language a list of groups denotes, stated without reference to how
    it is matched (compilateur/include/rv32ias/char_group.h, compilateur/src/char_group.c). */
module Regexp {

  /** NOP: exactly once; ZOM: `*`; OOM: `+`; ZOO: `?`. */
  datatype Operator = NOP | ZOM | OOM | ZOO {
    predicate Allows(k: nat) {
      match this
      case NOP => k == 1
      case ZOM => true
      case OOM => k >= 1
      case ZOO => k <= 1
    }
  }

  type CharSet = s: seq<bool> | |s| == 256 witness seq(256, _ => false)

  datatype Group = Group(members: CharSet, op: Operator) {
    /** A C `char` is signed: codes above 127 are negative there and in no group. */
    predicate In(c: char) {
      c as int < 128 && members[c as int]
    }
  }

  /** char_group_in */
  method CharGroupIn(g: Group, c: char) returns (r: bool)
    ensures r == g.In(c)
  {
    var chr := if c as int < 128 then c as int else c as int % 256 - 256;
    for i := 0 to 256
      invariant 0 <= chr < i ==> !g.members[chr]
    {
      if g.members[i] {
        if i == chr {
          return true;
        }
      }
    }
    return false;
  }

  predicate AllIn(g: Group, w: string) {
    forall k :: 0 <= k < |w| ==> g.In(w[k])
  }

  /** The word is a concatenation of runs, one for each group, each as long as its operator allows. */
  ghost predicate Lang(gs: seq<Group>, w: string)
    decreases |gs|
  {
    if gs == [] then w == ""
    else exists k :: 0 <= k <= |w| && gs[0].op.Allows(k) && AllIn(gs[0], w[..k]) && Lang(gs[1..], w[k..])
  }

  ghost predicate RunOf(gs: seq<Group>, w: string, k: nat)
    requires gs != []
  {
    k <= |w| && gs[0].op.Allows(k) && AllIn(gs[0], w[..k]) && Lang(gs[1..], w[k..])
  }

  lemma HasRun(gs: seq<Group>, w: string) returns (k: nat)
    requires gs != [] && Lang(gs, w)
    ensures RunOf(gs, w, k)
  {
    k :| 0 <= k <= |w| && gs[0].op.Allows(k) && AllIn(gs[0], w[..k]) && Lang(gs[1..], w[k..]);
  }

  lemma RunIsWord(gs: seq<Group>, w: string, k: nat)
    requires gs != [] && RunOf(gs, w, k)
    ensures Lang(gs, w)
  {
  }

  function With(gs: seq<Group>, op: Operator): seq<Group>
    requires gs != []
  {
    [gs[0].(op := op)] + gs[1..]
  }

  // ----- the first run, one character at a time -----

  /** The word starts with a character of the first group. */
  predicate Starts(gs: seq<Group>, w: string)
    requires gs != []
  {
    w != "" && gs[0].In(w[0])
  }

  lemma RunShorter(gs: seq<Group>, hs: seq<Group>, w: string, k: nat)
    requires gs != [] && hs != [] && gs[1..] == hs[1..] && gs[0].members == hs[0].members
    requires RunOf(gs, w, k) && k > 0 && hs[0].op.Allows(k - 1)
    ensures Starts(gs, w) && RunOf(hs, w[1..], k - 1)
  {
    assert w[..k][0] == w[0] && w[1..][..k - 1] == w[..k][1..] && w[1..][k - 1..] == w[k..];
  }

  lemma RunLonger(gs: seq<Group>, hs: seq<Group>, w: string, k: nat)
    requires gs != [] && hs != [] && gs[1..] == hs[1..] && gs[0].members == hs[0].members
    requires Starts(gs, w) && RunOf(hs, w[1..], k) && gs[0].op.Allows(k + 1)
    ensures RunOf(gs, w, k + 1)
  {
    assert w[..k + 1] == [w[0]] + w[1..][..k] && w[1..][k..] == w[k + 1..];
  }

  lemma NoRun(gs: seq<Group>, w: string)
    requires gs != [] && gs[0].op.Allows(0)
    ensures RunOf(gs, w, 0) <==> Lang(gs[1..], w)
  {
    assert w[0..] == w;
    if Lang(gs[1..], w) {
      assert AllIn(gs[0], w[..0]);
    }
  }

  lemma LangOnce(gs: seq<Group>, w: string)
    requires gs != [] && gs[0].op == NOP
    ensures Lang(gs, w) <==> Starts(gs, w) && Lang(gs[1..], w[1..])
  {
    if Lang(gs, w) {
      var k := HasRun(gs, w);
      assert w[..1][0] == w[0];
    }
    if Starts(gs, w) && Lang(gs[1..], w[1..]) {
      RunIsWord(gs, w, 1);
    }
  }

  lemma LangMany(gs: seq<Group>, w: string)
    requires gs != [] && gs[0].op == ZOM
    ensures Lang(gs, w) <==> Lang(gs[1..], w) || (Starts(gs, w) && Lang(gs, w[1..]))
  {
    NoRun(gs, w);
    if Lang(gs[1..], w) { RunIsWord(gs, w, 0); }
    if Lang(gs, w) {
      var k := HasRun(gs, w);
      if k > 0 { RunShorter(gs, gs, w, k); RunIsWord(gs, w[1..], k - 1); }
    }
    if Starts(gs, w) && Lang(gs, w[1..]) {
      var k := HasRun(gs, w[1..]);
      RunLonger(gs, gs, w, k); RunIsWord(gs, w, k + 1);
    }
  }

  lemma LangSome(gs: seq<Group>, w: string)
    requires gs != [] && gs[0].op == OOM
    ensures Lang(gs, w) <==> Starts(gs, w) && Lang(With(gs, ZOM), w[1..])
  {
    var hs := With(gs, ZOM);
    if Lang(gs, w) {
      var k := HasRun(gs, w);
      RunShorter(gs, hs, w, k); RunIsWord(hs, w[1..], k - 1);
    }
    if Starts(gs, w) && Lang(hs, w[1..]) {
      var k := HasRun(hs, w[1..]);
      RunLonger(gs, hs, w, k); RunIsWord(gs, w, k + 1);
    }
  }

  lemma LangOpt(gs: seq<Group>, w: string)
    requires gs != [] && gs[0].op == ZOO
    ensures Lang(gs, w) <==> Lang(gs[1..], w) || (Starts(gs, w) && Lang(gs[1..], w[1..]))
  {
    NoRun(gs, w);
    if Lang(gs[1..], w) { RunIsWord(gs, w, 0); }
    if Lang(gs, w) {
      var k := HasRun(gs, w);
      if k > 0 { assert w[..1][0] == w[0]; }
    }
    if Starts(gs, w) && Lang(gs[1..], w[1..]) {
      RunIsWord(gs, w, 1);
    }
  }

  // ----- nullable, first characters, determinism -----

  predicate Nullable(gs: seq<Group>) {
    forall k :: 0 <= k < |gs| ==> gs[k].op.Allows(0)
  }

  lemma {:induction false} EmptyWord(gs: seq<Group>)
    ensures Lang(gs, "") <==> Nullable(gs)
  {
    if gs != [] {
      EmptyWord(gs[1..]);
      if Lang(gs, "") {
        var k := HasRun(gs, "");
        assert k == 0;
      }
      if Nullable(gs) {
        assert gs[0].op.Allows(0);
        NoRun(gs, "");
        RunIsWord(gs, "", 0);
      }
    }
  }

  /** The character can start a word: it is in a group before which all groups can be skipped. */
  predicate First(gs: seq<Group>, c: char) {
    gs != [] && (gs[0].In(c) || (gs[0].op.Allows(0) && First(gs[1..], c)))
  }

  lemma {:induction false} FirstOfWord(gs: seq<Group>, w: string)
    requires w != "" && Lang(gs, w)
    ensures First(gs, w[0])
  {
    var k := HasRun(gs, w);
    if k == 0 {
      assert w[0..] == w;
      FirstOfWord(gs[1..], w);
    } else {
      assert w[..k][0] == w[0];
    }
  }

  ghost predicate Apart(g: Group, gs: seq<Group>) {
    forall c :: g.In(c) ==> !First(gs, c)
  }

  /** Every group with an operator is disjoint from what can follow it. */
  ghost predicate Deterministic(gs: seq<Group>) {
    gs == [] || ((gs[0].op != NOP ==> Apart(gs[0], gs[1..])) && Deterministic(gs[1..]))
  }

  /** Groups that must consume a character. */
  function Mandatory(gs: seq<Group>): nat {
    if gs == [] then 0 else (if gs[0].op in {NOP, OOM} then 1 else 0) + Mandatory(gs[1..])
  }
}
