/** Enumeration of all shortest witnesses (its/ITSModel.cpp, `printPaths`).

    The search walks the distance layers with one cursor per step. It is proved to report, in order of
    length and then lexicographically, each transition sequence that is a shortest one for some initial
    state, once, up to the limit. */
module Witnesses {
  import opened Graphs
  import opened Its
  import opened Witness
  import opened WitnessBack
  import opened WitnessPath

  // ---------------------------------------------------------------- the lexicographic enumeration

  ghost function PrependAll(p: seq<nat>, ws: seq<seq<nat>>): (r: seq<seq<nat>>)
    ensures |r| == |ws| && forall k :: 0 <= k < |ws| ==> r[k] == p + ws[k]
  {
    seq(|ws|, k requires 0 <= k < |ws| => p + ws[k])
  }

  /** What transition `i` reaches from `xs` in the next layer. */
  function Hit<S(==)>(trs: seq<Named<S>>, xs: set<S>, comps: seq<set<S>>, i: nat): set<S>
    requires i < |trs| && comps != []
  {
    Post(trs[i].rel, xs) * comps[0]
  }

  /** Sequences that start with transition `i`. */
  ghost function Block<S(!new)>(trs: seq<Named<S>>, xs: set<S>, comps: seq<set<S>>, i: nat): seq<seq<nat>>
    requires i < |trs| && comps != []
    decreases |comps|, 0, 0
  {
    var ys := Hit(trs, xs, comps, i);
    if ys == {} then [] else if |comps| == 1 then [[i]] else PrependAll([i], EnumFrom(trs, ys, comps[1..], 0))
  }

  /** Sequences through the layers, in lexicographic order, whose first transition is `i` or later. */
  ghost function EnumFrom<S(!new)>(trs: seq<Named<S>>, xs: set<S>, comps: seq<set<S>>, i: nat): seq<seq<nat>>
    requires comps != []
    decreases |comps|, 1, |trs| - i
  {
    if i >= |trs| then [] else Block(trs, xs, comps, i) + EnumFrom(trs, xs, comps, i + 1)
  }

  /** `idx` leads from `x` to `y` visiting the layers in order. */
  ghost predicate Through<S(!new)>(trs: seq<Named<S>>, comps: seq<set<S>>, idx: seq<nat>, x: S, y: S)
    requires InRange(trs, idx) && |idx| == |comps|
  {
    if idx == [] then x == y
    else exists z :: z in comps[0] && Pair(x, z) in trs[idx[0]].rel && Through(trs, comps[1..], idx[1..], z, y)
  }

  ghost predicate ThroughFrom<S(!new)>(trs: seq<Named<S>>, comps: seq<set<S>>, idx: seq<nat>, xs: set<S>) {
    InRange(trs, idx) && |idx| == |comps| && exists x, y :: x in xs && Through(trs, comps, idx, x, y)
  }

  lemma {:induction false} ThroughHit<S(!new)>(trs: seq<Named<S>>, comps: seq<set<S>>, idx: seq<nat>, xs: set<S>)
    requires comps != [] && InRange(trs, idx) && |idx| == |comps|
    ensures ThroughFrom(trs, comps, idx, xs) <==> ThroughFrom(trs, comps[1..], idx[1..], Hit(trs, xs, comps, idx[0]))
  {
    hide Post;
    var ys := Hit(trs, xs, comps, idx[0]);
    if ThroughFrom(trs, comps, idx, xs) {
      var x, y :| x in xs && Through(trs, comps, idx, x, y);
      var z :| z in comps[0] && Pair(x, z) in trs[idx[0]].rel && Through(trs, comps[1..], idx[1..], z, y);
      StepInto(trs[idx[0]].rel, xs, x, z);
      assert z in ys;
    }
    if ThroughFrom(trs, comps[1..], idx[1..], ys) {
      var z, y :| z in ys && Through(trs, comps[1..], idx[1..], z, y);
      var e := PostHas(trs[idx[0]].rel, xs, z);
      match e.lab case () =>
      assert Pair(e.src, z) in trs[idx[0]].rel;
      assert Through(trs, comps, idx, e.src, y);
    }
  }

  lemma ThroughEmpty<S(!new)>(trs: seq<Named<S>>, xs: set<S>)
    ensures ThroughFrom(trs, [], [], xs) <==> xs != {}
  {
    if x :| x in xs {
      assert Through(trs, [], [], x, x);
    }
  }

  lemma ThroughNothing<S(!new)>(trs: seq<Named<S>>, comps: seq<set<S>>, idx: seq<nat>)
    ensures !ThroughFrom(trs, comps, idx, {})
  {
  }

  lemma PrependHas(i: nat, ws: seq<seq<nat>>, w: seq<nat>)
    ensures w in PrependAll([i], ws) <==> w != [] && w[0] == i && w[1..] in ws
  {
    var r := PrependAll([i], ws);
    if w in r {
      var k :| 0 <= k < |ws| && r[k] == w;
      assert w == [i] + ws[k] && w[1..] == ws[k];
    }
    if w != [] && w[0] == i && w[1..] in ws {
      var k :| 0 <= k < |ws| && ws[k] == w[1..];
      assert w == [i] + w[1..] && r[k] == w;
    }
  }

  /** The enumeration lists exactly the sequences through the layers. */
  lemma {:induction false} EnumHas<S(!new)>(trs: seq<Named<S>>, xs: set<S>, comps: seq<set<S>>, i: nat, idx: seq<nat>)
    requires comps != []
    ensures idx in EnumFrom(trs, xs, comps, i) <==> ThroughFrom(trs, comps, idx, xs) && idx[0] >= i
    decreases |comps|, 1, |trs| - i
  {
    hide ThroughFrom, Block;
    ThroughShape(trs, comps, idx, xs);
    if i < |trs| {
      EnumHas(trs, xs, comps, i + 1, idx);
      BlockHas(trs, xs, comps, i, idx);
    }
  }

  lemma ThroughShape<S(!new)>(trs: seq<Named<S>>, comps: seq<set<S>>, idx: seq<nat>, xs: set<S>)
    requires comps != []
    ensures ThroughFrom(trs, comps, idx, xs) ==> InRange(trs, idx) && |idx| == |comps| && idx[0] < |trs|
  {
  }

  lemma {:induction false} BlockHas<S(!new)>(trs: seq<Named<S>>, xs: set<S>, comps: seq<set<S>>, i: nat, idx: seq<nat>)
    requires comps != [] && i < |trs|
    ensures idx in Block(trs, xs, comps, i) <==> ThroughFrom(trs, comps, idx, xs) && idx[0] == i
    decreases |comps|, 0, 1
  {
    hide Hit;
    var ys := Hit(trs, xs, comps, i);
    if InRange(trs, idx) && |idx| == |comps| && idx[0] == i {
      ThroughHit(trs, comps, idx, xs);
      if ys == {} {
        ThroughNothing(trs, comps[1..], idx[1..]);
      } else if |comps| == 1 {
        assert idx == [i] && idx[1..] == [] && comps[1..] == [];
        ThroughEmpty(trs, ys);
      } else {
        EnumHas(trs, ys, comps[1..], 0, idx[1..]);
        PrependHas(i, EnumFrom(trs, ys, comps[1..], 0), idx);
      }
    } else if idx in Block(trs, xs, comps, i) {
      BlockShape(trs, xs, comps, i, idx);
    }
  }

  lemma BlockShape<S(!new)>(trs: seq<Named<S>>, xs: set<S>, comps: seq<set<S>>, i: nat, idx: seq<nat>)
    requires comps != [] && i < |trs| && idx in Block(trs, xs, comps, i)
    ensures InRange(trs, idx) && |idx| == |comps| && idx[0] == i
    decreases |comps|, 0, 0
  {
    hide Hit, ThroughFrom;
    var ys := Hit(trs, xs, comps, i);
    if |comps| > 1 && ys != {} {
      PrependHas(i, EnumFrom(trs, ys, comps[1..], 0), idx);
      EnumHas(trs, ys, comps[1..], 0, idx[1..]);
      ThroughShape(trs, comps[1..], idx[1..], ys);
    }
  }

  // ---------------------------------------------------------------- order

  /** Lexicographic order on sequences of equal length; shorter sequences come first. */
  ghost predicate Before(a: seq<nat>, b: seq<nat>) {
    |a| < |b| || (|a| == |b| && LexBefore(a, b))
  }

  ghost predicate Sorted(ws: seq<seq<nat>>) {
    forall j, k :: 0 <= j < k < |ws| ==> Before(ws[j], ws[k])
  }

  lemma SortedConcat(a: seq<seq<nat>>, b: seq<seq<nat>>)
    requires Sorted(a) && Sorted(b) && forall u, v :: u in a && v in b ==> Before(u, v)
    ensures Sorted(a + b)
  {
    hide Before;
    var c := a + b;
    forall j, k | 0 <= j < k < |c| ensures Before(c[j], c[k]) {
      if j < |a| && |a| <= k {
        assert c[j] in a && c[k] in b;
      }
    }
  }

  lemma SortedPrepend(i: nat, ws: seq<seq<nat>>)
    requires Sorted(ws)
    ensures Sorted(PrependAll([i], ws))
  {
    var r := PrependAll([i], ws);
    forall j, k | 0 <= j < k < |r| ensures Before(r[j], r[k]) {
      assert Before(ws[j], ws[k]);
      assert r[j][1..] == ws[j] && r[k][1..] == ws[k];
    }
  }

  lemma {:induction false} EnumSorted<S(!new)>(trs: seq<Named<S>>, xs: set<S>, comps: seq<set<S>>, i: nat)
    requires comps != []
    ensures Sorted(EnumFrom(trs, xs, comps, i))
    decreases |comps|, 1, |trs| - i
  {
    if i < |trs| {
      var a, b := Block(trs, xs, comps, i), EnumFrom(trs, xs, comps, i + 1);
      EnumSorted(trs, xs, comps, i + 1);
      BlockSorted(trs, xs, comps, i);
      BlockBeforeRest(trs, xs, comps, i);
      SortedConcat(a, b);
    }
  }

  lemma BlockBeforeRest<S(!new)>(trs: seq<Named<S>>, xs: set<S>, comps: seq<set<S>>, i: nat)
    requires comps != [] && i < |trs|
    ensures forall u, v :: u in Block(trs, xs, comps, i) && v in EnumFrom(trs, xs, comps, i + 1) ==> Before(u, v)
  {
    hide Block, EnumFrom, ThroughFrom;
    forall u, v | u in Block(trs, xs, comps, i) && v in EnumFrom(trs, xs, comps, i + 1) ensures Before(u, v) {
      BlockHas(trs, xs, comps, i, u);
      EnumHas(trs, xs, comps, i + 1, v);
      ThroughShape(trs, comps, u, xs);
      ThroughShape(trs, comps, v, xs);
    }
  }

  lemma {:induction false} BlockSorted<S(!new)>(trs: seq<Named<S>>, xs: set<S>, comps: seq<set<S>>, i: nat)
    requires comps != [] && i < |trs|
    ensures Sorted(Block(trs, xs, comps, i))
    decreases |comps|, 0, 0
  {
    var ys := Hit(trs, xs, comps, i);
    if ys != {} && |comps| > 1 {
      EnumSorted(trs, ys, comps[1..], 0);
      SortedPrepend(i, EnumFrom(trs, ys, comps[1..], 0));
    }
  }

  // ---------------------------------------------------------------- what a cursor vector leaves to do

  /** States reached from `xs` by the transitions of `p`, kept in the layers. */
  ghost function SetOf<S(!new)>(trs: seq<Named<S>>, xs: set<S>, comps: seq<set<S>>, p: seq<nat>): set<S>
    requires InRange(trs, p) && |p| <= |comps|
  {
    if p == [] then xs
    else Post(trs[p[|p| - 1]].rel, SetOf(trs, xs, comps, p[..|p| - 1])) * comps[|p| - 1]
  }

  /** Sequences that come after everything starting with `p`. */
  ghost function Tail<S(!new)>(trs: seq<Named<S>>, xs: set<S>, comps: seq<set<S>>, p: seq<nat>): seq<seq<nat>>
    requires InRange(trs, p) && |p| <= |comps|
  {
    if p == [] then []
    else
      var q := p[..|p| - 1];
      PrependAll(q, EnumFrom(trs, SetOf(trs, xs, comps, q), comps[|q|..], p[|p| - 1] + 1)) + Tail(trs, xs, comps, q)
  }

  /** Sequences left when the cursors stand at `p`, then `i`, then at the beginning. */
  ghost function Rem<S(!new)>(trs: seq<Named<S>>, xs: set<S>, comps: seq<set<S>>, p: seq<nat>, i: nat): seq<seq<nat>>
    requires InRange(trs, p) && |p| < |comps|
  {
    PrependAll(p, EnumFrom(trs, SetOf(trs, xs, comps, p), comps[|p|..], i)) + Tail(trs, xs, comps, p)
  }

  lemma PrependConcat(p: seq<nat>, a: seq<seq<nat>>, b: seq<seq<nat>>)
    ensures PrependAll(p, a + b) == PrependAll(p, a) + PrependAll(p, b)
  {
  }

  lemma PrependTwice(p: seq<nat>, i: nat, ws: seq<seq<nat>>)
    ensures PrependAll(p, PrependAll([i], ws)) == PrependAll(p + [i], ws)
  {
    forall k | 0 <= k < |ws| ensures p + ([i] + ws[k]) == (p + [i]) + ws[k] {}
  }

  lemma SetOfNext<S(!new)>(trs: seq<Named<S>>, xs: set<S>, comps: seq<set<S>>, p: seq<nat>, i: nat)
    requires InRange(trs, p) && |p| < |comps| && i < |trs|
    ensures InRange(trs, p + [i])
    ensures SetOf(trs, xs, comps, p + [i]) == Hit(trs, SetOf(trs, xs, comps, p), comps[|p|..], i)
  {
    assert (p + [i])[..|p|] == p;
  }

  lemma TailNext<S(!new)>(trs: seq<Named<S>>, xs: set<S>, comps: seq<set<S>>, p: seq<nat>, i: nat)
    requires InRange(trs, p) && |p| < |comps| && i < |trs|
    ensures InRange(trs, p + [i]) && Tail(trs, xs, comps, p + [i]) == Rem(trs, xs, comps, p, i + 1)
  {
    assert (p + [i])[..|p|] == p;
  }

  lemma RemStart<S(!new)>(trs: seq<Named<S>>, xs: set<S>, comps: seq<set<S>>)
    requires comps != []
    ensures Rem(trs, xs, comps, [], 0) == EnumFrom(trs, xs, comps, 0)
    ensures Rem(trs, xs, comps, [], |trs|) == []
  {
    var e := EnumFrom(trs, xs, comps, 0);
    assert comps[0..] == comps;
    forall k | 0 <= k < |e| ensures [] + e[k] == e[k] {}
    assert PrependAll([], e) == e;
  }

  /** A transition that does not match leaves the same work. */
  lemma RemSkip<S(!new)>(trs: seq<Named<S>>, xs: set<S>, comps: seq<set<S>>, p: seq<nat>, i: nat)
    requires InRange(trs, p) && |p| < |comps| && i < |trs|
    requires Hit(trs, SetOf(trs, xs, comps, p), comps[|p|..], i) == {}
    ensures Rem(trs, xs, comps, p, i) == Rem(trs, xs, comps, p, i + 1)
  {
    hide SetOf, Tail, Hit;
    var ys := SetOf(trs, xs, comps, p);
    assert EnumFrom(trs, ys, comps[|p|..], i) == Block(trs, ys, comps[|p|..], i) + EnumFrom(trs, ys, comps[|p|..], i + 1);
    assert Block(trs, ys, comps[|p|..], i) == [];
    assert [] + EnumFrom(trs, ys, comps[|p|..], i + 1) == EnumFrom(trs, ys, comps[|p|..], i + 1);
  }

  /** A match before the last layer moves the work one cursor further. */
  lemma RemDown<S(!new)>(trs: seq<Named<S>>, xs: set<S>, comps: seq<set<S>>, p: seq<nat>, i: nat)
    requires InRange(trs, p) && |p| + 1 < |comps| && i < |trs|
    requires Hit(trs, SetOf(trs, xs, comps, p), comps[|p|..], i) != {}
    ensures InRange(trs, p + [i]) && Rem(trs, xs, comps, p, i) == Rem(trs, xs, comps, p + [i], 0)
  {
    hide SetOf, Tail, Hit;
    var cs := comps[|p|..];
    var ys := SetOf(trs, xs, comps, p);
    var zs := Hit(trs, ys, cs, i);
    var deeper, after := EnumFrom(trs, zs, cs[1..], 0), EnumFrom(trs, ys, cs, i + 1);
    assert EnumFrom(trs, ys, cs, i) == Block(trs, ys, cs, i) + after;
    assert Block(trs, ys, cs, i) == PrependAll([i], deeper);
    PrependConcat(p, PrependAll([i], deeper), after);
    PrependTwice(p, i, deeper);
    SetOfNext(trs, xs, comps, p, i);
    TailNext(trs, xs, comps, p, i);
    assert cs[1..] == comps[|p + [i]|..];
  }

  /** A match in the last layer is one sequence. */
  lemma RemLeaf<S(!new)>(trs: seq<Named<S>>, xs: set<S>, comps: seq<set<S>>, p: seq<nat>, i: nat)
    requires InRange(trs, p) && |p| + 1 == |comps| && i < |trs|
    requires Hit(trs, SetOf(trs, xs, comps, p), comps[|p|..], i) != {}
    ensures Rem(trs, xs, comps, p, i) == [p + [i]] + Rem(trs, xs, comps, p, i + 1)
  {
    hide SetOf, Tail, Hit;
    var cs := comps[|p|..];
    var ys := SetOf(trs, xs, comps, p);
    var after := EnumFrom(trs, ys, cs, i + 1);
    assert EnumFrom(trs, ys, cs, i) == Block(trs, ys, cs, i) + after;
    assert Block(trs, ys, cs, i) == [[i]];
    PrependConcat(p, [[i]], after);
    assert PrependAll(p, [[i]]) == [p + [i]];
  }

  /** An exhausted cursor hands the work back to the one before. */
  lemma RemUp<S(!new)>(trs: seq<Named<S>>, xs: set<S>, comps: seq<set<S>>, p: seq<nat>)
    requires InRange(trs, p) && 0 < |p| < |comps|
    ensures Rem(trs, xs, comps, p, |trs|) == Rem(trs, xs, comps, p[..|p| - 1], p[|p| - 1] + 1)
  {
    hide SetOf;
    assert PrependAll(p, []) == [];
    assert p == p[..|p| - 1] + [p[|p| - 1]];
    TailNext(trs, xs, comps, p[..|p| - 1], p[|p| - 1]);
  }

  // ---------------------------------------------------------------- how much is left to do

  /** The matches still to be tried below transition `i` and the later ones, those that lead nowhere included. */
  ghost function WorkFrom<S(!new)>(trs: seq<Named<S>>, xs: set<S>, comps: seq<set<S>>, i: nat): nat
    requires comps != []
    decreases |comps|, 1, |trs| - i
  {
    if i >= |trs| then 0 else WorkAt(trs, xs, comps, i) + WorkFrom(trs, xs, comps, i + 1)
  }

  ghost function WorkAt<S(!new)>(trs: seq<Named<S>>, xs: set<S>, comps: seq<set<S>>, i: nat): nat
    requires i < |trs| && comps != []
    decreases |comps|, 0, 0
  {
    var ys := Hit(trs, xs, comps, i);
    if ys == {} then 0 else if |comps| == 1 then 1 else 1 + WorkFrom(trs, ys, comps[1..], 0)
  }

  ghost function WorkAfter<S(!new)>(trs: seq<Named<S>>, xs: set<S>, comps: seq<set<S>>, p: seq<nat>): nat
    requires InRange(trs, p) && |p| <= |comps|
  {
    if p == [] then 0
    else
      var q := p[..|p| - 1];
      WorkFrom(trs, SetOf(trs, xs, comps, q), comps[|q|..], p[|p| - 1] + 1) + WorkAfter(trs, xs, comps, q)
  }

  /** The same for cursors that stand at `p`, then `i`, then at the beginning. */
  ghost function Work<S(!new)>(trs: seq<Named<S>>, xs: set<S>, comps: seq<set<S>>, p: seq<nat>, i: nat): nat
    requires InRange(trs, p) && |p| < |comps|
  {
    WorkFrom(trs, SetOf(trs, xs, comps, p), comps[|p|..], i) + WorkAfter(trs, xs, comps, p)
  }

  lemma WorkSkip<S(!new)>(trs: seq<Named<S>>, xs: set<S>, comps: seq<set<S>>, p: seq<nat>, i: nat)
    requires InRange(trs, p) && |p| < |comps| && i < |trs|
    requires Hit(trs, SetOf(trs, xs, comps, p), comps[|p|..], i) == {}
    ensures Work(trs, xs, comps, p, i) == Work(trs, xs, comps, p, i + 1)
  {
    hide SetOf, WorkAfter, Hit;
    var cs, ys := comps[|p|..], SetOf(trs, xs, comps, p);
    assert WorkFrom(trs, ys, cs, i) == WorkAt(trs, ys, cs, i) + WorkFrom(trs, ys, cs, i + 1);
    assert WorkAt(trs, ys, cs, i) == 0;
  }

  /** A match costs one. */
  lemma WorkMatch<S(!new)>(trs: seq<Named<S>>, xs: set<S>, comps: seq<set<S>>, p: seq<nat>, i: nat)
    requires InRange(trs, p) && |p| < |comps| && i < |trs|
    requires Hit(trs, SetOf(trs, xs, comps, p), comps[|p|..], i) != {}
    ensures InRange(trs, p + [i])
    ensures |p| + 1 < |comps| ==> Work(trs, xs, comps, p, i) == 1 + Work(trs, xs, comps, p + [i], 0)
    ensures |p| + 1 == |comps| ==> Work(trs, xs, comps, p, i) == 1 + Work(trs, xs, comps, p, i + 1)
  {
    hide SetOf, Hit;
    SetOfNext(trs, xs, comps, p, i);
    assert (p + [i])[..|p|] == p && (p + [i])[|p|] == i;
    var cs, ys := comps[|p|..], SetOf(trs, xs, comps, p);
    assert WorkFrom(trs, ys, cs, i) == WorkAt(trs, ys, cs, i) + WorkFrom(trs, ys, cs, i + 1);
    if |p| + 1 < |comps| {
      assert cs[1..] == comps[|p + [i]|..];
      assert WorkAt(trs, ys, cs, i) == 1 + WorkFrom(trs, Hit(trs, ys, cs, i), cs[1..], 0);
      assert WorkAfter(trs, xs, comps, p + [i]) == WorkFrom(trs, ys, cs, i + 1) + WorkAfter(trs, xs, comps, p);
    } else {
      assert WorkAt(trs, ys, cs, i) == 1;
    }
  }

  lemma WorkUp<S(!new)>(trs: seq<Named<S>>, xs: set<S>, comps: seq<set<S>>, p: seq<nat>)
    requires InRange(trs, p) && 0 < |p| < |comps|
    ensures Work(trs, xs, comps, p, |trs|) == Work(trs, xs, comps, p[..|p| - 1], p[|p| - 1] + 1)
  {
    hide SetOf;
  }

  // ---------------------------------------------------------------- the search

  /** Move one cursor to the next transition that matches. */
  method FindFrom<S(==, !new)>(trs: seq<Named<S>>, mi: set<S>, comp: set<S>, start: nat,
                               ghost xs: set<S>, ghost comps: seq<set<S>>, ghost p: seq<nat>)
      returns (i: nat, hit: set<S>)
    requires start <= |trs| && InRange(trs, p) && |p| < |comps| && mi == SetOf(trs, xs, comps, p) && comp == comps[|p|]
    ensures start <= i <= |trs| && Rem(trs, xs, comps, p, i) == Rem(trs, xs, comps, p, start)
    ensures Work(trs, xs, comps, p, i) == Work(trs, xs, comps, p, start)
    ensures i < |trs| ==> hit == Post(trs[i].rel, mi) * comp && hit != {}
    ensures forall k: nat :: start <= k < i ==> Post(trs[k].rel, mi) * comp == {}
  {
    hide SetOf, Rem, Work, Post;
    i, hit := start, {};
    while i != |trs|
      invariant start <= i <= |trs| && Rem(trs, xs, comps, p, i) == Rem(trs, xs, comps, p, start)
      invariant Work(trs, xs, comps, p, i) == Work(trs, xs, comps, p, start)
      invariant forall k: nat :: start <= k < i ==> Post(trs[k].rel, mi) * comp == {}
    {
      hit := Post(trs[i].rel, mi) * comp;
      if hit != {} { return; }
      RemSkip(trs, xs, comps, p, i);
      WorkSkip(trs, xs, comps, p, i);
      i := i + 1;
    }
  }

  /** Cursors before `c` match, those after it stand at the beginning. */
  ghost predicate Cursors<S(!new)>(trs: seq<Named<S>>, xs: set<S>, comps: seq<set<S>>, iters: seq<nat>, c: nat) {
    && |iters| == |comps| && c < |comps| && iters[c] <= |trs|
    && InRange(trs, iters[..c]) && SetOf(trs, xs, comps, iters[..c]) != {}
    && forall j :: c < j < |iters| ==> iters[j] == 0
  }

  ghost function Left<S(!new)>(trs: seq<Named<S>>, xs: set<S>, comps: seq<set<S>>, iters: seq<nat>, c: nat): seq<seq<nat>>
    requires Cursors(trs, xs, comps, iters, c)
  {
    Rem(trs, xs, comps, iters[..c], iters[c])
  }

  ghost function ToDo<S(!new)>(trs: seq<Named<S>>, xs: set<S>, comps: seq<set<S>>, iters: seq<nat>, c: nat): nat
    requires Cursors(trs, xs, comps, iters, c)
  {
    Work(trs, xs, comps, iters[..c], iters[c])
  }

  lemma SetOfPrefix<S(!new)>(trs: seq<Named<S>>, xs: set<S>, comps: seq<set<S>>, p: seq<nat>, c: nat)
    requires InRange(trs, p) && c <= |p| <= |comps| && SetOf(trs, xs, comps, p) != {}
    ensures InRange(trs, p[..c]) && SetOf(trs, xs, comps, p[..c]) != {}
    ensures c > 0 ==> SetOf(trs, xs, comps, p[..c]) <= comps[c - 1]
  {
    if c < |p| {
      var y :| y in SetOf(trs, xs, comps, p);
      var e := PostHas(trs[p[|p| - 1]].rel, SetOf(trs, xs, comps, p[..|p| - 1]), y);
      SetOfPrefix(trs, xs, comps, p[..|p| - 1], c);
      assert p[..|p| - 1][..c] == p[..c];
    } else {
      assert p[..c] == p;
    }
  }

  /** Where one descent stands: the first `cur` cursors match, nothing has been skipped. */
  ghost predicate Descending<S(!new)>(trs: seq<Named<S>>, xs: set<S>, comps: seq<set<S>>, iters0: seq<nat>, c: nat,
                                      iters: seq<nat>, cur: nat)
    requires Cursors(trs, xs, comps, iters0, c)
  {
    && |iters| == |comps| && cur <= |comps| && InRange(trs, iters[..cur])
    && SetOf(trs, xs, comps, iters[..cur]) != {}
    && (cur <= c ==> iters == iters0)
    && (c < cur < |comps| ==>
          && Cursors(trs, xs, comps, iters, cur) && iters[cur] == 0
          && Left(trs, xs, comps, iters, cur) == Left(trs, xs, comps, iters0, c)
          && ToDo(trs, xs, comps, iters, cur) < ToDo(trs, xs, comps, iters0, c))
    && (cur == |comps| ==>
          && Left(trs, xs, comps, iters0, c) == [iters] + Rem(trs, xs, comps, iters[..cur - 1], iters[cur - 1] + 1)
          && Work(trs, xs, comps, iters[..cur - 1], iters[cur - 1] + 1) < ToDo(trs, xs, comps, iters0, c))
  }

  lemma StartDescent<S(!new)>(trs: seq<Named<S>>, xs: set<S>, comps: seq<set<S>>, iters0: seq<nat>, c: nat)
    requires Cursors(trs, xs, comps, iters0, c)
    ensures Descending(trs, xs, comps, iters0, c, iters0, 0) && SetOf(trs, xs, comps, iters0[..0]) == xs
  {
    SetOfPrefix(trs, xs, comps, iters0[..c], 0);
  }

  /** A cursor that already matches does not move. */
  lemma KeepCursor<S(!new)>(trs: seq<Named<S>>, xs: set<S>, comps: seq<set<S>>, iters0: seq<nat>, c: nat,
                            iters: seq<nat>, cur: nat)
    requires Cursors(trs, xs, comps, iters0, c) && Descending(trs, xs, comps, iters0, c, iters, cur) && cur < c
    ensures iters[cur] < |trs| && Post(trs[iters[cur]].rel, SetOf(trs, xs, comps, iters[..cur])) * comps[cur] != {}
    ensures Descending(trs, xs, comps, iters0, c, iters, cur + 1)
    ensures SetOf(trs, xs, comps, iters[..cur + 1]) == Post(trs[iters[cur]].rel, SetOf(trs, xs, comps, iters[..cur])) * comps[cur]
  {
    SetOfPrefix(trs, xs, comps, iters[..c], cur + 1);
    assert iters[..c][..cur + 1] == iters[..cur + 1];
    assert iters[..cur + 1][..cur] == iters[..cur];
  }

  /** A cursor at or past the critical one moves to transition `i`, which matches. */
  lemma MoveCursor<S(!new)>(trs: seq<Named<S>>, xs: set<S>, comps: seq<set<S>>, iters0: seq<nat>, c: nat,
                            iters: seq<nat>, cur: nat, i: nat)
    requires Cursors(trs, xs, comps, iters0, c) && Descending(trs, xs, comps, iters0, c, iters, cur)
    requires c <= cur < |comps| && i < |trs|
    requires Rem(trs, xs, comps, iters[..cur], i) == Rem(trs, xs, comps, iters[..cur], iters[cur])
    requires Work(trs, xs, comps, iters[..cur], i) == Work(trs, xs, comps, iters[..cur], iters[cur])
    requires Post(trs[i].rel, SetOf(trs, xs, comps, iters[..cur])) * comps[cur] != {}
    ensures Descending(trs, xs, comps, iters0, c, iters[cur := i], cur + 1)
    ensures SetOf(trs, xs, comps, iters[cur := i][..cur + 1]) == Post(trs[i].rel, SetOf(trs, xs, comps, iters[..cur])) * comps[cur]
  {
    hide Rem, SetOf, Work, Post;
    var p := iters[..cur];
    var next := iters[cur := i];
    SetOfNext(trs, xs, comps, p, i);
    assert next[..cur + 1] == p + [i];
    assert Left(trs, xs, comps, iters0, c) == Rem(trs, xs, comps, p, i);
    assert Work(trs, xs, comps, p, i) <= ToDo(trs, xs, comps, iters0, c);
    WorkMatch(trs, xs, comps, p, i);
    if cur + 1 < |comps| {
      RemDown(trs, xs, comps, p, i);
      assert next[cur + 1] == 0;
    } else {
      RemLeaf(trs, xs, comps, p, i);
      assert next == p + [i] && next[..cur] == p;
    }
  }

  /** One pass over the layers: replay the matching cursors, advance the critical one, restart the others. It fails at
      the critical cursor, or at a later one when the sets entered lead nowhere. */
  method Descend<S(==, !new)>(trs: seq<Named<S>>, init: set<S>, comps: seq<set<S>>, iters0: seq<nat>, ghost c: nat)
      returns (ok: bool, cur: nat, iters: seq<nat>, fired: seq<string>)
    requires Cursors(trs, init, comps, iters0, c)
    ensures |iters| == |comps| == |iters0|
    ensures !ok ==> c <= cur < |comps| && iters[cur] == |trs| && Cursors(trs, init, comps, iters, cur)
    ensures !ok ==> Left(trs, init, comps, iters, cur) == Left(trs, init, comps, iters0, c)
    ensures !ok ==> if cur == c then ToDo(trs, init, comps, iters, cur) == ToDo(trs, init, comps, iters0, c)
                    else ToDo(trs, init, comps, iters, cur) < ToDo(trs, init, comps, iters0, c)
    ensures ok ==> cur == |comps| && Descending(trs, init, comps, iters0, c, iters, cur) && fired == Names(trs, iters)
  {
    hide SetOf, Rem, Work, Post, Cursors, Descending, Left, ToDo;
    StartDescent(trs, init, comps, iters0, c);
    DescendingFacts(trs, init, comps, iters0, c, iters0, 0);
    var mi := init;
    cur, iters, fired := 0, iters0, [];
    while cur < |comps|
      invariant |iters| == |comps| && cur <= |comps| && InRange(trs, iters[..cur])
      invariant Descending(trs, init, comps, iters0, c, iters, cur)
      invariant mi == SetOf(trs, init, comps, iters[..cur]) && fired == Names(trs, iters[..cur])
    {
      DescendingFacts(trs, init, comps, iters0, c, iters, cur);
      var i, hit := FindFrom(trs, mi, comps[cur], iters[cur], init, comps, iters[..cur]);
      if cur < c {
        KeepCursor(trs, init, comps, iters0, c, iters, cur);
        assert i == iters[cur] && iters[cur := i] == iters;
      } else if i < |trs| {
        MoveCursor(trs, init, comps, iters0, c, iters, cur, i);
      } else {
        UsedUp(trs, init, comps, iters0, c, iters, cur);
      }
      if i == |trs| {
        iters := iters[cur := i];
        return false, cur, iters, fired;
      }
      NamesMore(trs, iters[..cur], i);
      iters := iters[cur := i];
      assert iters[..cur + 1] == iters[..cur] + [i];
      mi := hit;
      fired := fired + [trs[i].name];
      cur := cur + 1;
      DescendingFacts(trs, init, comps, iters0, c, iters, cur);
    }
    assert iters[..cur] == iters;
    ok := true;
  }

  /** Nothing matches at this cursor: it is used up, and the work before it is left. */
  lemma UsedUp<S(!new)>(trs: seq<Named<S>>, xs: set<S>, comps: seq<set<S>>, iters0: seq<nat>, c: nat, iters: seq<nat>, cur: nat)
    requires Cursors(trs, xs, comps, iters0, c) && Descending(trs, xs, comps, iters0, c, iters, cur) && c <= cur < |comps|
    requires Rem(trs, xs, comps, iters[..cur], |trs|) == Rem(trs, xs, comps, iters[..cur], iters[cur])
    requires Work(trs, xs, comps, iters[..cur], |trs|) == Work(trs, xs, comps, iters[..cur], iters[cur])
    ensures var after := iters[cur := |trs|];
      && Cursors(trs, xs, comps, after, cur) && Left(trs, xs, comps, after, cur) == Left(trs, xs, comps, iters0, c)
      && if cur == c then ToDo(trs, xs, comps, after, cur) == ToDo(trs, xs, comps, iters0, c)
         else ToDo(trs, xs, comps, after, cur) < ToDo(trs, xs, comps, iters0, c)
  {
    hide SetOf, Rem, Work;
    var after := iters[cur := |trs|];
    assert after[..cur] == iters[..cur];
  }

  lemma NamesMore<S(!new)>(trs: seq<Named<S>>, p: seq<nat>, i: nat)
    requires InRange(trs, p) && i < |trs|
    ensures InRange(trs, p + [i]) && Names(trs, p + [i]) == Names(trs, p) + [trs[i].name]
  {
  }

  lemma DescendingFacts<S(!new)>(trs: seq<Named<S>>, xs: set<S>, comps: seq<set<S>>, iters0: seq<nat>, c: nat,
                                 iters: seq<nat>, cur: nat)
    requires Cursors(trs, xs, comps, iters0, c) && Descending(trs, xs, comps, iters0, c, iters, cur)
    ensures c < |comps| && |iters| == |iters0| == |comps| && cur <= |comps| && InRange(trs, iters[..cur])
    ensures cur <= c ==> iters == iters0
    ensures SetOf(trs, xs, comps, iters[..cur]) != {}
    ensures cur < |comps| ==> iters[cur] <= |trs|
    ensures c < cur < |comps| ==> iters[cur] == 0
  {
    hide SetOf, Rem;
    if cur < c {
      assert iters[cur] == iters[..c][cur];
    }
  }

  // ---------------------------------------------------------------- one stage of the search

  function Min(a: nat, b: nat): (r: nat) {
    if a <= b then a else b
  }

  ghost function AllNames<S>(trs: seq<Named<S>>, ws: seq<seq<nat>>): (r: seq<seq<string>>)
    requires forall w :: w in ws ==> InRange(trs, w)
    ensures |r| == |ws| && forall k :: 0 <= k < |ws| ==> r[k] == Names(trs, ws[k])
  {
    seq(|ws|, k requires 0 <= k < |ws| => Names(trs, ws[k]))
  }

  /** What the outer loop keeps: reported so far, plus what the cursors leave, is the enumeration. */
  ghost predicate Searching<S(!new)>(trs: seq<Named<S>>, xs: set<S>, comps: seq<set<S>>, out: seq<seq<nat>>,
                                     iters: seq<nat>, c: nat) {
    Cursors(trs, xs, comps, iters, c) && comps != [] && out + Left(trs, xs, comps, iters, c) == EnumFrom(trs, xs, comps, 0)
  }

  lemma StartSearch<S(!new)>(trs: seq<Named<S>>, xs: set<S>, comps: seq<set<S>>, iters: seq<nat>)
    requires comps != [] && xs != {} && |iters| == |comps| && forall j :: 0 <= j < |iters| ==> iters[j] == 0
    ensures Searching(trs, xs, comps, [], iters, 0)
  {
    hide EnumFrom, Rem;
    assert iters[..0] == [];
    RemStart(trs, xs, comps);
    var e := EnumFrom(trs, xs, comps, 0);
    assert [] + e == e;
  }

  /** A complete descent reports the next sequence; the last cursor moves on. */
  lemma Report<S(!new)>(trs: seq<Named<S>>, xs: set<S>, comps: seq<set<S>>, out: seq<seq<nat>>, iters0: seq<nat>, c: nat,
                        iters: seq<nat>)
    requires Searching(trs, xs, comps, out, iters0, c)
    requires Descending(trs, xs, comps, iters0, c, iters, |comps|)
    ensures var k := |comps| - 1; iters[k] < |trs| && Searching(trs, xs, comps, out + [iters], iters[k := iters[k] + 1], k)
    ensures var k := |comps| - 1; ToDo(trs, xs, comps, iters[k := iters[k] + 1], k) < ToDo(trs, xs, comps, iters0, c)
    ensures InRange(trs, iters)
  {
    hide EnumFrom, Rem, SetOf, Work;
    var k := |comps| - 1;
    assert iters[..|comps|] == iters;
    SetOfPrefix(trs, xs, comps, iters, k);
    var next := iters[k := iters[k] + 1];
    assert next[..k] == iters[..k];
    var rest := Rem(trs, xs, comps, iters[..k], iters[k] + 1);
    assert out + ([iters] + rest) == (out + [iters]) + rest;
  }

  /** A cursor that is used up hands over to the previous one. */
  lemma Backtrack<S(!new)>(trs: seq<Named<S>>, xs: set<S>, comps: seq<set<S>>, out: seq<seq<nat>>, iters: seq<nat>, c: nat,
                           next: seq<nat>)
    requires Searching(trs, xs, comps, out, iters, c) && c > 0 && iters[c] == |trs|
    requires |next| == |iters| && next[..c - 1] == iters[..c - 1] && next[c - 1] == iters[c - 1] + 1
    requires forall j :: c <= j < |next| ==> next[j] == 0
    ensures Searching(trs, xs, comps, out, next, c - 1)
    ensures ToDo(trs, xs, comps, next, c - 1) == ToDo(trs, xs, comps, iters, c)
  {
    hide EnumFrom, Rem, SetOf, Work;
    var p := iters[..c];
    RemUp(trs, xs, comps, p);
    WorkUp(trs, xs, comps, p);
    SetOfPrefix(trs, xs, comps, p, c - 1);
    assert p[..c - 1] == iters[..c - 1];
    assert p[c - 1] == iters[c - 1];
  }

  lemma SearchDone<S(!new)>(trs: seq<Named<S>>, xs: set<S>, comps: seq<set<S>>, out: seq<seq<nat>>, iters: seq<nat>)
    requires Searching(trs, xs, comps, out, iters, 0) && iters[0] == |trs|
    ensures out == EnumFrom(trs, xs, comps, 0)
  {
    hide EnumFrom, Rem, SetOf;
    assert iters[..0] == [];
    RemStart(trs, xs, comps);
    assert out + [] == out;
  }

  lemma SearchOn<S(!new)>(trs: seq<Named<S>>, xs: set<S>, comps: seq<set<S>>, out: seq<seq<nat>>, iters0: seq<nat>, c: nat,
                          iters: seq<nat>, cur: nat)
    requires Searching(trs, xs, comps, out, iters0, c) && Cursors(trs, xs, comps, iters, cur)
    requires Left(trs, xs, comps, iters, cur) == Left(trs, xs, comps, iters0, c)
    ensures Searching(trs, xs, comps, out, iters, cur)
  {
    hide EnumFrom, Left;
  }

  /** The cursor loop: report sequences until the limit, or until the first cursor is exhausted. */
  method SearchStage<S(==, !new)>(trs: seq<Named<S>>, init: set<S>, comps: seq<set<S>>, limit: nat)
      returns (printed: seq<seq<string>>, exhausted: bool, ghost out: seq<seq<nat>>)
    requires comps != [] && init != {}
    ensures var all := EnumFrom(trs, init, comps, 0); out == all[..Min(limit, |all|)]
    ensures exhausted <==> limit > |EnumFrom(trs, init, comps, 0)|
    ensures (forall w :: w in out ==> InRange(trs, w)) && printed == AllNames(trs, out)
  {
    hide EnumFrom, Rem, SetOf, Work, Searching, Descending, Cursors, Left, ToDo;
    ghost var all := EnumFrom(trs, init, comps, 0);
    var iters: seq<nat> := seq(|comps|, j => 0);
    ghost var c: nat := 0;
    printed, out := [], [];
    StartSearch(trs, init, comps, iters);
    while |printed| < limit
      invariant Searching(trs, init, comps, out, iters, c)
      invariant |printed| == |out| <= limit && (forall w :: w in out ==> InRange(trs, w)) && printed == AllNames(trs, out)
      decreases SearchMeasure(trs, init, comps, iters, c), c
    {
      SearchingFacts(trs, init, comps, out, iters, c);
      var ok, cur, advanced, fired := Descend(trs, init, comps, iters, c);
      if ok {
        Report(trs, init, comps, out, iters, c, advanced);
        var last := cur - 1;
        SearchingFacts(trs, init, comps, out + [advanced], advanced[last := advanced[last] + 1], last);
        iters := advanced[last := advanced[last] + 1];
        c := last;
        out := out + [advanced];
        printed := printed + [fired];
      } else {
        SearchOn(trs, init, comps, out, iters, c, advanced, cur);
        if cur == 0 {
          SearchDone(trs, init, comps, out, advanced);
          assert all[..|all|] == all;
          return printed, true, out;
        }
        iters := ResetFrom(advanced, cur);
        Backtrack(trs, init, comps, out, advanced, cur, iters);
        SearchingFacts(trs, init, comps, out, iters, cur - 1);
        c := cur - 1;
      }
    }
    SearchingFacts(trs, init, comps, out, iters, c);
    exhausted := false;
  }

  /** Put the cursors from `cur` on back to the beginning and advance the one before. */
  method ResetFrom(iters: seq<nat>, cur: nat) returns (r: seq<nat>)
    requires 0 < cur <= |iters|
    ensures |r| == |iters| && r[..cur - 1] == iters[..cur - 1] && r[cur - 1] == iters[cur - 1] + 1
    ensures forall j :: cur <= j < |r| ==> r[j] == 0
  {
    r := iters;
    var j := cur;
    while j < |r|
      invariant cur <= j <= |r| == |iters| && r[..cur] == iters[..cur]
      invariant forall k :: cur <= k < j ==> r[k] == 0
    {
      r := r[j := 0];
      j := j + 1;
    }
    assert r[cur - 1] == iters[..cur][cur - 1];
    r := r[cur - 1 := r[cur - 1] + 1];
  }

  ghost function SearchMeasure<S(!new)>(trs: seq<Named<S>>, xs: set<S>, comps: seq<set<S>>, iters: seq<nat>, c: nat): nat {
    if Cursors(trs, xs, comps, iters, c) then ToDo(trs, xs, comps, iters, c) else 0
  }

  lemma SearchingFacts<S(!new)>(trs: seq<Named<S>>, xs: set<S>, comps: seq<set<S>>, out: seq<seq<nat>>, iters: seq<nat>, c: nat)
    requires Searching(trs, xs, comps, out, iters, c)
    ensures Cursors(trs, xs, comps, iters, c) && |iters| == |comps| && c < |comps|
    ensures var all := EnumFrom(trs, xs, comps, 0); |out| <= |all| && out == all[..|out|]
    ensures out + Left(trs, xs, comps, iters, c) == EnumFrom(trs, xs, comps, 0)
  {
    hide EnumFrom, Rem, SetOf;
  }

  // ---------------------------------------------------------------- shortest sequences of a state

  /** `idx` is a shortest transition sequence from `x` to `goal` inside the envelope. */
  ghost predicate Minimal<S(!new)>(trs: seq<Named<S>>, env: set<S>, goal: set<S>, x: S, idx: seq<nat>) {
    && InRange(trs, idx) && (exists y :: y in goal && FiresIn(trs, env, idx, x, y))
    && forall n: nat :: n < |idx| ==> !CanReach(Inside(trs, env), {x}, goal, n)
  }

  /** `w` is a shortest sequence of some state of `xs`. */
  ghost predicate Wanted<S(!new)>(trs: seq<Named<S>>, env: set<S>, goal: set<S>, xs: set<S>, w: seq<nat>) {
    exists x :: x in xs && Minimal(trs, env, goal, x, w)
  }

  /** The first `limit` wanted sequences in order, each once; all of them if there are no more. */
  ghost predicate FirstOnes<S(!new)>(trs: seq<Named<S>>, env: set<S>, goal: set<S>, xs: set<S>, limit: nat, ws: seq<seq<nat>>) {
    && |ws| <= limit && Sorted(ws)
    && (forall w :: w in ws ==> Wanted(trs, env, goal, xs, w))
    && (forall w :: Wanted(trs, env, goal, xs, w) && w !in ws ==> |ws| == limit && AllBefore(ws, w))
  }

  ghost predicate AllBefore(ws: seq<seq<nat>>, w: seq<nat>) {
    forall u :: u in ws ==> Before(u, w)
  }

  lemma LayersTail<S(!new)>(g: Rel<S>, goal: set<S>, comps: seq<set<S>>)
    requires Layers(g, goal, comps)
    ensures comps != [] && comps[0] == Layer(g, goal, |comps| - 1)
    ensures |comps| > 1 ==> Layers(g, goal, comps[1..])
  {
    hide Layer;
    if |comps| > 1 {
      forall i | 0 <= i < |comps[1..]| ensures comps[1..][i] == Layer(g, goal, |comps[1..]| - 1 - i) {
        assert comps[1..][i] == comps[i + 1];
      }
    }
  }

  /** A sequence from a state that is no nearer than its length crosses the layers one by one. */
  lemma {:induction false} CrossesLayers<S(!new)>(trs: seq<Named<S>>, env: set<S>, goal: set<S>, comps: seq<set<S>>,
                                                  idx: seq<nat>, x: S, y: S)
    requires Layers(Inside(trs, env), goal, comps) && InRange(trs, idx) && |idx| == |comps| > 0
    requires FiresIn(trs, env, idx, x, y) && y in goal && x !in Near(Inside(trs, env), goal, |idx| - 1)
    ensures Through(trs, comps, idx, x, y)
    decreases |idx|
  {
    hide Layers, Inside, Near, CanReach;
    LayersTail(Inside(trs, env), goal, comps);
    var z :| x in env && Pair(x, z) in trs[idx[0]].rel && FiresIn(trs, env, idx[1..], z, y);
    FiresInNear(trs, env, goal, idx[1..], z, y);
    if |idx| > 1 {
      var n := |idx| - 2;
      if z in Near(Inside(trs, env), goal, n) { NearStep(trs, env, goal, idx[0], x, z, n); }
      CrossesLayers(trs, env, goal, comps[1..], idx[1..], z, y);
    } else {
      assert idx[1..] == [] && comps[1..] == [];
    }
  }

  /** No start state outside the envelope steps into it or to the goal, from itself apart. */
  ghost predicate StartsInside<S(!new)>(trs: seq<Named<S>>, env: set<S>, goal: set<S>, xs: set<S>) {
    forall e :: e in NextRel(trs) && e.src in xs && e.dst in env + goal && e.src != e.dst ==> e.src in env
  }

  lemma StartInside<S(!new)>(trs: seq<Named<S>>, env: set<S>, goal: set<S>, xs: set<S>, i: nat, x: S, z: S)
    requires StartsInside(trs, env, goal, xs) && x in xs && z in env + goal && x != z && i < |trs| && Pair(x, z) in trs[i].rel
    ensures x in env
  {
    NextRelHas(trs, Pair(x, z));
    assert trs[i] in trs;
    var e := Pair(x, z);
    assert e in NextRel(trs) && e.src in xs && e.dst in env + goal;
  }

  lemma LayerIn<S(!new)>(trs: seq<Named<S>>, env: set<S>, goal: set<S>, n: nat)
    ensures Layer(Inside(trs, env), goal, n) <= env + goal && (n > 0 ==> Layer(Inside(trs, env), goal, n) <= env)
  {
    hide Layer, Inside;
    var g := Inside(trs, env);
    InsideFrom(trs, env);
    NearInSources(g, goal, n);
    LayerInNear(g, goal, n);
    if n > 0 { LayersApart(g, goal, n - 1); }
  }

  lemma {:induction false} ThroughIsFiring<S(!new)>(trs: seq<Named<S>>, env: set<S>, goal: set<S>, comps: seq<set<S>>,
                                                    idx: seq<nat>, x: S, y: S)
    requires Layers(Inside(trs, env), goal, comps) && InRange(trs, idx) && |idx| == |comps| > 0
    requires Through(trs, comps, idx, x, y)
    requires x in env || (StartsInside(trs, env, goal, {x}) && x !in Near(Inside(trs, env), goal, |comps| - 1))
    ensures FiresIn(trs, env, idx, x, y) && y in goal
    decreases |idx|
  {
    hide Layers, Inside, StartsInside, Layer, Near;
    LayersTail(Inside(trs, env), goal, comps);
    var n := |comps| - 1;
    LayerIn(trs, env, goal, n);
    LayerInNear(Inside(trs, env), goal, n);
    var z :| z in comps[0] && Pair(x, z) in trs[idx[0]].rel && Through(trs, comps[1..], idx[1..], z, y);
    if x !in env { StartInside(trs, env, goal, {x}, idx[0], x, z); }
    if |idx| > 1 {
      ThroughIsFiring(trs, env, goal, comps[1..], idx[1..], z, y);
    } else {
      FirstLayerIsGoal(Inside(trs, env), goal);
      assert idx[1..] == [];
    }
  }

  /** One stage enumerates the wanted sequences of its length. */
  lemma StageHas<S(!new)>(trs: seq<Named<S>>, env: set<S>, goal: set<S>, comps: seq<set<S>>, xs: set<S>, w: seq<nat>)
    requires Layers(Inside(trs, env), goal, comps) && comps != [] && StartsInside(trs, env, goal, xs)
    requires xs * Near(Inside(trs, env), goal, |comps| - 1) == {}
    ensures w in EnumFrom(trs, xs, comps, 0) <==> |w| == |comps| && Wanted(trs, env, goal, xs, w)
  {
    hide EnumFrom, Layers, Inside, Near, FiresIn, Through, CanReach, NextRel;
    EnumHas(trs, xs, comps, 0, w);
    if w in EnumFrom(trs, xs, comps, 0) {
      var x, y :| x in xs && Through(trs, comps, w, x, y);
      assert x !in xs * Near(Inside(trs, env), goal, |comps| - 1);
      assert StartsInside(trs, env, goal, {x});
      ThroughIsFiring(trs, env, goal, comps, w, x, y);
      assert {x} * Near(Inside(trs, env), goal, |comps| - 1) == {};
      NothingShorter(Inside(trs, env), {x}, goal, |comps| - 1);
      assert Minimal(trs, env, goal, x, w);
    }
    if |w| == |comps| && Wanted(trs, env, goal, xs, w) {
      var x :| x in xs && Minimal(trs, env, goal, x, w);
      var y :| y in goal && FiresIn(trs, env, w, x, y);
      assert x !in xs * Near(Inside(trs, env), goal, |comps| - 1);
      CrossesLayers(trs, env, goal, comps, w, x, y);
    }
  }

  /** The exact condition on the starts: every stage, for any part of them and any goal, reports shortest sequences only. */
  lemma StartsIff<S(!new)>(trs: seq<Named<S>>, env: set<S>, goals: set<S>, xs: set<S>)
    ensures StartsInside(trs, env, goals, xs) <==>
      forall start, goal, comps, w ::
        && start <= xs && goal <= env + goals && comps != [] && Layers(Inside(trs, env), goal, comps)
        && start * Near(Inside(trs, env), goal, |comps| - 1) == {} && w in EnumFrom(trs, start, comps, 0) ==>
        Wanted(trs, env, goal, start, w)
  {
    hide EnumFrom, Near, Inside, Layers, Layer, Wanted, NextRel;
    if StartsInside(trs, env, goals, xs) {
      forall start, goal, comps, w |
        && start <= xs && goal <= env + goals && comps != [] && Layers(Inside(trs, env), goal, comps)
        && start * Near(Inside(trs, env), goal, |comps| - 1) == {} && w in EnumFrom(trs, start, comps, 0)
        ensures Wanted(trs, env, goal, start, w)
      {
        LayersTail(Inside(trs, env), goal, comps);
        StageHas(trs, env, goal, comps, start, w);
      }
    } else {
      var e :| e in NextRel(trs) && e.src in xs && e.dst in env + goals && e.src != e.dst && e.src !in env;
      OutsideStart(trs, env, e);
      assert {e.src} <= xs && {e.dst} <= env + goals;
    }
  }

  /** A start outside the envelope that steps to the goal is reported, though no sequence leads from it inside. */
  lemma OutsideStart<S(!new)>(trs: seq<Named<S>>, env: set<S>, e: Edge<S, ()>)
    requires e in NextRel(trs) && e.src != e.dst && e.src !in env
    ensures var g, comps := Inside(trs, env), [{e.dst}];
      && Layers(g, {e.dst}, comps) && {e.src} * Near(g, {e.dst}, |comps| - 1) == {}
      && exists w :: w in EnumFrom(trs, {e.src}, comps, 0) && !Wanted(trs, env, {e.dst}, {e.src}, w)
  {
    hide EnumFrom, CanReach, Inside;
    match e.lab case () =>
    var x, z := e.src, e.dst;
    NextRelHas(trs, e);
    var t :| t in trs && e in t.rel;
    var i: nat :| i < |trs| && trs[i] == t;
    var w: seq<nat> := [i];
    StartLayers(Inside(trs, env), {z});
    assert w[1..] == [] && [{z}][1..] == [];
    assert Through(trs, [{z}][1..], w[1..], z, z);
    assert Pair(x, z) in trs[w[0]].rel && z in [{z}][0];
    assert Through(trs, [{z}], w, x, z);
    assert x in {x} && ThroughFrom(trs, [{z}], w, {x});
    EnumHas(trs, {x}, [{z}], 0, w);
    assert !Wanted(trs, env, {z}, {x}, w) by { NotInside(trs, env, {z}, x, w); }
  }

  lemma NotInside<S(!new)>(trs: seq<Named<S>>, env: set<S>, goal: set<S>, x: S, w: seq<nat>)
    requires w != [] && x !in env
    ensures !Wanted(trs, env, goal, {x}, w)
  {
    hide CanReach;
  }

  // ---------------------------------------------------------------- what later stages have left to do

  /** The states that cannot step into the nearest layer are those further away than this stage. */
  lemma RemainIsFurther<S(!new)>(trs: seq<Named<S>>, env: set<S>, goal: set<S>, comps: seq<set<S>>, x: S)
    requires Layers(Inside(trs, env), goal, comps) && StartsInside(trs, env, goal, {x})
    requires x !in Near(Inside(trs, env), goal, |comps| - 1)
    ensures x in Pre(NextRel(trs), comps[0]) <==> x in Near(Inside(trs, env), goal, |comps|)
  {
    var g := Inside(trs, env);
    LayersTail(g, goal, comps);
    var n := |comps| - 1;
    LayerIn(trs, env, goal, n);
    LayerInNear(g, goal, n);
    if x in Pre(NextRel(trs), comps[0]) {
      var e :| e in NextRel(trs) && e.dst in comps[0] && e.src == x;
      assert e in g;
    }
    if x in Near(g, goal, n + 1) {
      var e :| e in g && e.dst in Near(g, goal, n) && e.src == x;
      assert n > 0 ==> e.dst !in Near(g, goal, n - 1);
      assert e.dst in comps[0];
    }
  }

  lemma MinimalLength<S(!new)>(trs: seq<Named<S>>, env: set<S>, goal: set<S>, x: S, w: seq<nat>, k: nat)
    requires Minimal(trs, env, goal, x, w)
    ensures x in Near(Inside(trs, env), goal, k) <==> |w| <= k
  {
    var y :| y in goal && FiresIn(trs, env, w, x, y);
    FiresInNear(trs, env, goal, w, x, y);
    if |w| <= k {
      NearGrows(Inside(trs, env), goal, |w|, k);
    }
    if x in Near(Inside(trs, env), goal, k) {
      NearIsWalk(Inside(trs, env), goal, k, x);
    }
  }

  /** This stage's states and the remaining ones share the work by length. */
  lemma StageSplit<S(!new)>(trs: seq<Named<S>>, env: set<S>, goal: set<S>, xs: set<S>, remain: set<S>, k: nat, w: seq<nat>)
    requires k > 0 && xs * Near(Inside(trs, env), goal, k - 1) == {}
    requires remain == xs - Near(Inside(trs, env), goal, k)
    ensures Wanted(trs, env, goal, xs, w) <==> (|w| == k && Wanted(trs, env, goal, xs, w)) || Wanted(trs, env, goal, remain, w)
    ensures Wanted(trs, env, goal, remain, w) ==> |w| > k
  {
    hide Near, Minimal, Inside;
    if Wanted(trs, env, goal, xs, w) {
      var x :| x in xs && Minimal(trs, env, goal, x, w);
      assert x !in xs * Near(Inside(trs, env), goal, k - 1);
      MinimalLength(trs, env, goal, x, w, k);
      MinimalLength(trs, env, goal, x, w, k - 1);
      if |w| != k { assert x in remain; }
    }
    if Wanted(trs, env, goal, remain, w) {
      var x :| x in remain && Minimal(trs, env, goal, x, w);
      MinimalLength(trs, env, goal, x, w, k);
    }
  }

  /** The stage was cut by the limit: its prefix is the first part of everything. */
  lemma CutStage<S(!new)>(trs: seq<Named<S>>, env: set<S>, goal: set<S>, comps: seq<set<S>>, xs: set<S>, limit: nat)
    requires Layers(Inside(trs, env), goal, comps) && comps != [] && StartsInside(trs, env, goal, xs)
    requires xs * Near(Inside(trs, env), goal, |comps| - 1) == {}
    requires limit <= |EnumFrom(trs, xs, comps, 0)|
    ensures FirstOnes(trs, env, goal, xs, limit, EnumFrom(trs, xs, comps, 0)[..limit])
  {
    hide EnumFrom, Near, Inside, Layers, Before, Wanted, StartsInside;
    var all := EnumFrom(trs, xs, comps, 0);
    var ws := all[..limit];
    EnumSorted(trs, xs, comps, 0);
    var remain := xs - Near(Inside(trs, env), goal, |comps|);
    forall w | w in ws ensures Wanted(trs, env, goal, xs, w) {
      assert w in all;
      StageHas(trs, env, goal, comps, xs, w);
    }
    forall w | Wanted(trs, env, goal, xs, w) && w !in ws ensures AllBefore(ws, w) {
      StageHas(trs, env, goal, comps, xs, w);
      StageSplit(trs, env, goal, xs, remain, |comps|, w);
      forall u | u in ws ensures Before(u, w) {
        var j :| 0 <= j < limit && all[j] == u;
        if w in all {
          var k :| 0 <= k < |all| && all[k] == w;
          assert forall l :: 0 <= l < limit ==> all[l] == ws[l];
        } else {
          assert u in all;
          StageHas(trs, env, goal, comps, xs, u);
          assert |u| < |w|;
          ShorterBefore(u, w);
        }
      }
    }
  }

  lemma ShorterBefore(u: seq<nat>, w: seq<nat>)
    requires |u| < |w|
    ensures Before(u, w)
  {
  }

  /** A finished stage followed by the first ones of the remaining states. */
  lemma FullStage<S(!new)>(trs: seq<Named<S>>, env: set<S>, goal: set<S>, comps: seq<set<S>>, xs: set<S>, remain: set<S>,
                           limit: nat, later: seq<seq<nat>>)
    requires Layers(Inside(trs, env), goal, comps) && comps != [] && StartsInside(trs, env, goal, xs)
    requires xs * Near(Inside(trs, env), goal, |comps| - 1) == {} && remain == xs - Near(Inside(trs, env), goal, |comps|)
    requires limit > |EnumFrom(trs, xs, comps, 0)|
    requires FirstOnes(trs, env, goal, remain, limit - |EnumFrom(trs, xs, comps, 0)|, later)
    ensures FirstOnes(trs, env, goal, xs, limit, EnumFrom(trs, xs, comps, 0) + later)
  {
    hide EnumFrom, Near, Inside, Layers, Before, Wanted, StartsInside;
    var all := EnumFrom(trs, xs, comps, 0);
    var ws := all + later;
    EnumSorted(trs, xs, comps, 0);
    forall u, v | u in all && v in later ensures Before(u, v) {
      StageHas(trs, env, goal, comps, xs, u);
      StageSplit(trs, env, goal, xs, remain, |comps|, v);
      ShorterBefore(u, v);
    }
    SortedConcat(all, later);
    forall w | w in ws ensures Wanted(trs, env, goal, xs, w) {
      StageHas(trs, env, goal, comps, xs, w);
      StageSplit(trs, env, goal, xs, remain, |comps|, w);
    }
    forall w | Wanted(trs, env, goal, xs, w) && w !in ws ensures |ws| == limit && AllBefore(ws, w) {
      StageHas(trs, env, goal, comps, xs, w);
      StageSplit(trs, env, goal, xs, remain, |comps|, w);
      assert AllBefore(later, w);
      forall u | u in ws ensures Before(u, w) {
        if u in all {
          StageHas(trs, env, goal, comps, xs, u);
          ShorterBefore(u, w);
        }
      }
    }
  }

  // ---------------------------------------------------------------- narrowing the question

  /** Dropping goals and states that cannot meet does not change what is wanted. */
  lemma WantedNarrow<S(!new)>(trs: seq<Named<S>>, env: set<S>, goal: set<S>, xs: set<S>, all: set<S>, rev: Rel<S>, w: seq<nat>)
    requires xs <= all && Closed(NextRel(trs), all) && PredOf(rev, NextRel(trs), all)
    ensures Wanted(trs, env, goal, xs, w) <==> Wanted(trs, env, goal * all, xs * ReachSet(rev, goal * all), w)
  {
    hide NextRel, PredOf, Minimal;
    var goal', xs' := goal * all, xs * ReachSet(rev, goal * all);
    if Wanted(trs, env, goal, xs, w) {
      var x :| x in xs && Minimal(trs, env, goal, x, w);
      MinimalNarrow(trs, env, goal, all, x, w);
      MinimalReaches(trs, env, goal', all, rev, x, w);
    }
    if Wanted(trs, env, goal', xs', w) {
      var x :| x in xs' && Minimal(trs, env, goal', x, w);
      MinimalNarrow(trs, env, goal, all, x, w);
    }
  }

  lemma InsideStays<S(!new)>(trs: seq<Named<S>>, env: set<S>, all: set<S>, x: S, es: seq<Edge<S, ()>>, y: S)
    requires Walk(Inside(trs, env), x, es, y) && x in all && Closed(NextRel(trs), all)
    ensures y in all
  {
    assert Closed(Inside(trs, env), all);
    WalkStays(Inside(trs, env), x, es, y, all);
  }

  lemma MinimalNarrow<S(!new)>(trs: seq<Named<S>>, env: set<S>, goal: set<S>, all: set<S>, x: S, w: seq<nat>)
    requires x in all && Closed(NextRel(trs), all)
    ensures Minimal(trs, env, goal, x, w) <==> Minimal(trs, env, goal * all, x, w)
  {
    hide NextRel;
    forall n: nat ensures CanReach(Inside(trs, env), {x}, goal, n) <==> CanReach(Inside(trs, env), {x}, goal * all, n) {
      if CanReach(Inside(trs, env), {x}, goal, n) {
        var z, es, y :| z in {x} && y in goal && Walk(Inside(trs, env), z, es, y) && |es| == n;
        InsideStays(trs, env, all, x, es, y);
      }
    }
    if InRange(trs, w) {
      forall y | FiresIn(trs, env, w, x, y) ensures y in all {
        var es := FiresInWalk(trs, env, w, x, y);
        InsideStays(trs, env, all, x, es, y);
      }
    }
  }

  lemma {:induction false} ReverseWalk<S(!new)>(trs: seq<Named<S>>, env: set<S>, all: set<S>, rev: Rel<S>, x: S, es: seq<Edge<S, ()>>, y: S)
    requires Walk(Inside(trs, env), x, es, y) && x in all && Closed(NextRel(trs), all) && PredOf(rev, NextRel(trs), all)
    ensures Reach(rev, y, x)
  {
    hide NextRel;
    if es == [] {
      ReachRefl(rev, x);
    } else {
      var e := es[0];
      InsideSources(trs, env, e);
      match e.lab case () =>
      assert e == Pair(x, e.dst);
      ReverseWalk(trs, env, all, rev, e.dst, es[1..], y);
      ReachEdge(rev, Pair(e.dst, x));
      ReachTrans(rev, y, e.dst, x);
    }
  }

  lemma MinimalReaches<S(!new)>(trs: seq<Named<S>>, env: set<S>, goal: set<S>, all: set<S>, rev: Rel<S>, x: S, w: seq<nat>)
    requires x in all && Closed(NextRel(trs), all) && PredOf(rev, NextRel(trs), all) && Minimal(trs, env, goal, x, w)
    ensures x in ReachSet(rev, goal)
  {
    hide NextRel, PredOf;
    var y :| y in goal && FiresIn(trs, env, w, x, y);
    var es := FiresInWalk(trs, env, w, x, y);
    ReverseWalk(trs, env, all, rev, x, es, y);
    ReachSetHas(rev, goal, y, x);
  }

  lemma FirstOnesNarrow<S(!new)>(trs: seq<Named<S>>, env: set<S>, goal: set<S>, xs: set<S>, goal': set<S>, xs': set<S>,
                                 limit: nat, ws: seq<seq<nat>>)
    requires forall w :: Wanted(trs, env, goal, xs, w) <==> Wanted(trs, env, goal', xs', w)
    requires FirstOnes(trs, env, goal', xs', limit, ws)
    ensures FirstOnes(trs, env, goal, xs, limit, ws)
  {
    hide Wanted, Before;
    forall w | w in ws ensures Wanted(trs, env, goal, xs, w) {
      assert Wanted(trs, env, goal', xs', w);
    }
    forall w | Wanted(trs, env, goal, xs, w) && w !in ws ensures |ws| == limit && AllBefore(ws, w) {
      assert Wanted(trs, env, goal', xs', w);
    }
  }

  lemma NothingWanted<S(!new)>(trs: seq<Named<S>>, env: set<S>, goal: set<S>, xs: set<S>, limit: nat)
    requires forall n: nat :: xs * Near(Inside(trs, env), goal, n) == {}
    ensures FirstOnes(trs, env, goal, xs, limit, [])
  {
    hide Near, Inside, Wanted;
    forall w ensures !Wanted(trs, env, goal, xs, w) {
      if Wanted(trs, env, goal, xs, w) {
        WantedMeets(trs, env, goal, xs, w);
      }
    }
  }

  lemma WantedMeets<S(!new)>(trs: seq<Named<S>>, env: set<S>, goal: set<S>, xs: set<S>, w: seq<nat>)
    requires Wanted(trs, env, goal, xs, w)
    ensures xs * Near(Inside(trs, env), goal, |w|) != {}
  {
    hide Near, Inside, Minimal;
    var x :| x in xs && Minimal(trs, env, goal, x, w);
    MinimalLength(trs, env, goal, x, w, |w|);
    assert x in xs * Near(Inside(trs, env), goal, |w|);
  }

  // ---------------------------------------------------------------- what the starts can see of the layers

  /** `goal` is what the starts can reach of the goals first asked for; `all` holds what they can reach. */
  ghost predicate Seen<S(!new)>(trs: seq<Named<S>>, all: set<S>, goals: set<S>, goal: set<S>) {
    Closed(NextRel(trs), all) && goal <= goals && goals * all <= goal
  }

  /** One step of the search and one step inside the envelope see the same of what can be reached. */
  lemma SamePreOn<S(!new)>(trs: seq<Named<S>>, env: set<S>, goals: set<S>, goal: set<S>, all: set<S>, ys: set<S>, ys': set<S>)
    requires Trusted(trs, env, env, goals) && StaysInside(trs, env, goals) && Seen(trs, all, goals, goal)
    requires ys * all == ys' * all && ys + ys' <= env + goals && goal <= ys'
    ensures var h, g := Converse(ChosenRel(trs, env)), Inside(trs, env);
      && (ys + Pre(h, ys)) * all == (ys' + Pre(g, ys')) * all && Pre(h, ys) <= env + goals
  {
    hide ChosenRel, Inside, NextRel, Trusted, Converse;
    var rev, h, g := ChosenRel(trs, env), Converse(ChosenRel(trs, env)), Inside(trs, env);
    ChosenStays(trs, env);
    forall x | x in Pre(h, ys) ensures x in env + goals && (x in all ==> x in ys' + Pre(g, ys')) {
      var y := StepOfPre(h, ys, x);
      ConverseHas(rev, x, y);
      if y in env { StepInto(rev, env, y, x); } else { StepInto(rev, goals, y, x); }
      if x in goals {
        assert x in all ==> x in goals * all;
      } else {
        ChosenIsConverse(trs, env, goals, x, y);
        InsideHas(trs, env, x, y);
        if x in all {
          StepStays(NextRel(trs), all, x, y);
          assert y in ys * all;
          IntoPre(g, ys', x, y);
        }
      }
    }
    forall x | x in Pre(g, ys') && x in all ensures x in Pre(h, ys) {
      var y := StepOfPre(g, ys', x);
      InsideHas(trs, env, x, y);
      StepStays(NextRel(trs), all, x, y);
      assert y in ys' * all;
      ChosenIsConverse(trs, env, goals, x, y);
      ConverseHas(rev, x, y);
      IntoPre(h, ys, x, y);
    }
    forall x | x in all ensures x in ys + Pre(h, ys) <==> x in ys' + Pre(g, ys') {
      assert x in ys * all <==> x in ys' * all;
    }
  }

  lemma StepOfPre<S(!new)>(g: Rel<S>, ys: set<S>, x: S) returns (y: S)
    requires x in Pre(g, ys)
    ensures y in ys && Pair(x, y) in g
  {
    var e :| e in g && e.dst in ys && e.src == x;
    match e.lab case () =>
    assert e == Pair(x, e.dst);
    y := e.dst;
  }

  lemma IntoPre<S(!new)>(g: Rel<S>, ys: set<S>, x: S, y: S)
    requires y in ys && Pair(x, y) in g
    ensures x in Pre(g, ys)
  {
    var e := Pair(x, y);
    assert e.dst in ys;
  }

  lemma StepStays<S(!new)>(g: Rel<S>, all: set<S>, x: S, y: S)
    requires Closed(g, all) && x in all && Pair(x, y) in g
    ensures y in all
  {
    var e := Pair(x, y);
    assert e.src in all;
  }

  lemma {:induction false} SameNearOn<S(!new)>(trs: seq<Named<S>>, env: set<S>, goals: set<S>, goal: set<S>, all: set<S>, n: nat)
    requires Trusted(trs, env, env, goals) && StaysInside(trs, env, goals) && Seen(trs, all, goals, goal)
    ensures Near(Converse(ChosenRel(trs, env)), goal, n) * all == Near(Inside(trs, env), goal, n) * all
    ensures Near(Converse(ChosenRel(trs, env)), goal, n) <= env + goals
    ensures goal <= Near(Inside(trs, env), goal, n) <= env + goal
  {
    hide ChosenRel, Trusted, StaysInside, Inside, Converse, Sources;
    var h, g := Converse(ChosenRel(trs, env)), Inside(trs, env);
    InsideFrom(trs, env);
    NearInSources(g, goal, n);
    if n > 0 {
      SameNearOn(trs, env, goals, goal, all, n - 1);
      SamePreOn(trs, env, goals, goal, all, Near(h, goal, n - 1), Near(g, goal, n - 1));
    }
  }

  lemma SameLayerOn<S(!new)>(trs: seq<Named<S>>, env: set<S>, goals: set<S>, goal: set<S>, all: set<S>, n: nat)
    requires Trusted(trs, env, env, goals) && StaysInside(trs, env, goals) && Seen(trs, all, goals, goal)
    ensures Layer(Converse(ChosenRel(trs, env)), goal, n) * all == Layer(Inside(trs, env), goal, n) * all
    ensures Layer(Converse(ChosenRel(trs, env)), goal, n) <= env + goals
  {
    hide ChosenRel, Trusted, StaysInside, Inside, Converse, Near, Seen;
    var h, g := Converse(ChosenRel(trs, env)), Inside(trs, env);
    SameNearOn(trs, env, goals, goal, all, n);
    if n > 0 {
      SameNearOn(trs, env, goals, goal, all, n - 1);
      forall x | x in all ensures x in Layer(h, goal, n) <==> x in Layer(g, goal, n) {
        assert x in Near(h, goal, n) * all <==> x in Near(g, goal, n) * all;
        assert x in Near(h, goal, n - 1) * all <==> x in Near(g, goal, n - 1) * all;
      }
    } else {
      FirstLayerIsGoal(h, goal);
      FirstLayerIsGoal(g, goal);
      SeenGoal(trs, all, goals, goal);
    }
  }

  lemma SeenGoal<S(!new)>(trs: seq<Named<S>>, all: set<S>, goals: set<S>, goal: set<S>)
    requires Seen(trs, all, goals, goal)
    ensures goal <= goals
  {
  }

  /** The layers `n`, ..., 0. */
  ghost function LayersDown<S(!new)>(g: Rel<S>, goal: set<S>, n: nat): (r: seq<set<S>>)
    ensures |r| == n + 1 && Layers(g, goal, r)
  {
    seq(n + 1, j requires 0 <= j <= n => Layer(g, goal, n - j))
  }

  /** What the search finds, read inside the envelope on what the starts can reach. */
  ghost predicate FoundOn<S(!new)>(g: Rel<S>, goal: set<S>, all: set<S>, init: set<S>, found: bool, comps: seq<set<S>>) {
    && comps != [] && init * Near(g, goal, |comps| - 1) == {}
    && (forall j {:trigger comps[j]} :: 0 <= j < |comps| ==> comps[j] * all == LayersDown(g, goal, |comps| - 1)[j] * all)
    && (found ==> init * Layer(g, goal, |comps|) != {})
    && (!found ==> forall n: nat :: init * Near(g, goal, n) == {})
  }

  lemma SearchedOn<S(!new)>(trs: seq<Named<S>>, env: set<S>, goals: set<S>, goal: set<S>, all: set<S>, init: set<S>, found: bool,
                            comps: seq<set<S>>, meet: set<S>)
    requires Trusted(trs, env, env, goals) && StaysInside(trs, env, goals) && Seen(trs, all, goals, goal) && init <= all
    requires Searched(Converse(ChosenRel(trs, env)), init, goal, found, comps, meet)
    ensures FoundOn(Inside(trs, env), goal, all, init, found, comps) && comps[0] <= env + goals
  {
    hide ChosenRel, Trusted, StaysInside, Inside, Converse, Near, Layer, Seen;
    var h, g, n := Converse(ChosenRel(trs, env)), Inside(trs, env), |comps| - 1;
    SearchedParts(h, init, goal, found, comps, meet);
    FirstLayer(h, goal, comps);
    forall k: nat ensures init * Near(h, goal, k) == init * Near(g, goal, k) {
      SameNearOn(trs, env, goals, goal, all, k);
      OnSubset(init, all, Near(h, goal, k), Near(g, goal, k));
    }
    assert init * Near(h, goal, n) == init * Near(g, goal, n);
    SameLayerOn(trs, env, goals, goal, all, |comps|);
    OnSubset(init, all, Layer(h, goal, |comps|), Layer(g, goal, |comps|));
    SameLayerOn(trs, env, goals, goal, all, n);
    forall j: nat | j <= n ensures comps[j] * all == LayersDown(g, goal, n)[j] * all {
      SameLayerOn(trs, env, goals, goal, all, n - j);
      assert comps[j] == Layer(h, goal, n - j);
    }
  }

  lemma SearchedParts<S(!new)>(g: Rel<S>, init: set<S>, goal: set<S>, found: bool, layers: seq<set<S>>, meet: set<S>)
    requires Searched(g, init, goal, found, layers, meet)
    ensures layers != [] && Layers(g, goal, layers) && init * Near(g, goal, |layers| - 1) == {}
    ensures found ==> init * meet != {} && meet == Layer(g, goal, |layers|)
    ensures !found ==> forall n: nat :: init * Near(g, goal, n) == {}
  {
    hide Near, Layer;
  }

  lemma OnSubset<S(!new)>(init: set<S>, all: set<S>, xs: set<S>, ys: set<S>)
    requires init <= all && xs * all == ys * all
    ensures init * xs == init * ys
  {
    forall x | x in init ensures x in xs <==> x in ys {
      assert x in xs * all <==> x in ys * all;
    }
  }

  /** The enumeration depends only on what can be reached of the layers. */
  lemma {:induction false} EnumSame<S(!new)>(trs: seq<Named<S>>, all: set<S>, xs: set<S>, a: seq<set<S>>, b: seq<set<S>>, i: nat)
    requires Closed(NextRel(trs), all) && xs <= all && |a| == |b| > 0
    requires forall j {:trigger a[j]} {:trigger b[j]} :: 0 <= j < |a| ==> a[j] * all == b[j] * all
    ensures EnumFrom(trs, xs, a, i) == EnumFrom(trs, xs, b, i)
    decreases |a|, 1, |trs| - i
  {
    hide Hit, NextRel;
    if i < |trs| {
      HitSame(trs, all, xs, a, b, i);
      EnumSame(trs, all, xs, a, b, i + 1);
      var ys := Hit(trs, xs, a, i);
      if ys != {} && |a| > 1 {
        forall j | 0 <= j < |a[1..]| ensures a[1..][j] * all == b[1..][j] * all {
          assert a[j + 1] * all == b[j + 1] * all;
        }
        EnumSame(trs, all, ys, a[1..], b[1..], 0);
      }
    }
  }

  lemma HitSame<S(!new)>(trs: seq<Named<S>>, all: set<S>, xs: set<S>, a: seq<set<S>>, b: seq<set<S>>, i: nat)
    requires Closed(NextRel(trs), all) && xs <= all && |a| == |b| > 0 && i < |trs| && a[0] * all == b[0] * all
    ensures Hit(trs, xs, a, i) == Hit(trs, xs, b, i) && Hit(trs, xs, a, i) <= all
  {
    hide NextRel;
    forall y | y in Post(trs[i].rel, xs) ensures y in all && (y in a[0] <==> y in b[0]) {
      var e := PostHas(trs[i].rel, xs, y);
      NextRelHas(trs, e);
      assert trs[i] in trs;
      assert y in a[0] * all <==> y in b[0] * all;
    }
  }

  // ---------------------------------------------------------------- printPaths

  /** What the search relies on: inverses are trusted from the goals, relative to the envelope and to the reachable
      states, and the search stays inside the envelope. */
  ghost predicate Askable<S(!new)>(trs: seq<Named<S>>, env: set<S>, reachable: set<S>, goals: set<S>) {
    Trusted(trs, env, env, goals) && Trusted(trs, reachable, reachable, goals) && StaysInside(trs, env, goals)
  }

  lemma StartsFewer<S(!new)>(trs: seq<Named<S>>, env: set<S>, goal: set<S>, xs: set<S>, goal': set<S>, xs': set<S>)
    requires StartsInside(trs, env, goal, xs) && goal' <= goal && xs' <= xs
    ensures StartsInside(trs, env, goal', xs')
  {
    hide NextRel;
  }

  /** Report the shortest witnesses of the nearest initial states, then recurse on the others. `goals` are the goals of
      the first call; those that recursion has dropped are out of reach. */
  method PrintPaths<S(==, !new)>(m: ItsModel<S>, init0: set<S>, toreach0: set<S>, reach: set<S>, limit: nat, ghost goals: set<S>)
      returns (printed: seq<seq<string>>, ghost out: seq<seq<nat>>)
    requires m.Valid() && init0 + m.Envelope(reach) <= m.Reachable() && Askable(m.trs, m.Envelope(reach), m.Reachable(), goals)
    requires toreach0 <= goals && goals * ReachSet(NextRel(m.trs), init0) <= toreach0
    modifies m
    ensures m.Valid()
    ensures init0 * toreach0 != {} ==> printed == [[]]
    ensures init0 * toreach0 == {} ==> (forall w :: w in out ==> InRange(m.trs, w)) && printed == AllNames(m.trs, out)
    ensures init0 * toreach0 == {} && StartsInside(m.trs, m.Envelope(reach), toreach0, init0) ==>
      FirstOnes(m.trs, m.Envelope(reach), toreach0, init0, limit, out)
    decreases init0
  {
    hide EnumFrom, Near, Inside, NextRel, Layers, Before, Wanted, Layer, PredOf, FirstOnes, GoodInverses, GoodInverse, ReachSet, Post, Pre, ChosenRel, Converse, Searched, StartsInside, Askable, FoundOn, LayersDown, Seen;
    out := [];
    if init0 * toreach0 != {} {
      return [[]], [];
    }
    ghost var env := m.Envelope(reach);
    ghost var g := Inside(m.trs, env);
    var allReach := Closure(NextRel(m.trs), init0);
    ReachSetClosed(NextRel(m.trs), init0);
    var toreach := toreach0 * allReach;
    var back := m.GetPredRel(allReach);
    var allToGoal := Closure(back, toreach);
    var init := init0 * allToGoal;
    forall w ensures Wanted(m.trs, env, toreach0, init0, w) <==> Wanted(m.trs, env, toreach, init, w) {
      NarrowStart(m, env, toreach0, init0, allReach, back, w);
    }
    ghost var inside := StartsInside(m.trs, env, toreach0, init0);
    if inside { StartsFewer(m.trs, env, toreach0, init0, toreach, init); }
    NowSeen(m.trs, allReach, goals, toreach0, toreach);
    var revTrans := m.GetPredRel(reach);
    assert init * toreach == {};
    var found, comps, meet := BackwardLayers(revTrans, init, toreach);
    AskedSearch(m.trs, env, m.Reachable(), goals, toreach, allReach, init, found, comps, meet);
    if !found {
      NothingFound(m.trs, env, toreach, allReach, init, comps, limit);
      FirstOnesNarrow(m.trs, env, toreach0, init0, toreach, init, limit, []);
      return [], [];
    }
    StageShape(g, toreach, allReach, init, comps);
    var exhausted;
    printed, exhausted, out := SearchStage(m.trs, init, comps, limit);
    ghost var layers := LayersDown(g, toreach, |comps| - 1);
    SameStage(m.trs, env, toreach, allReach, init, comps);
    ghost var all := EnumFrom(m.trs, init, layers, 0);
    if !exhausted {
      if inside {
        CutStage(m.trs, env, toreach, layers, init, limit);
        FirstOnesNarrow(m.trs, env, toreach0, init0, toreach, init, limit, out);
      }
      return;
    }
    assert out == all;
    var pred := m.GetPredRel({});
    var remain := init - Post(pred, comps[0]);
    RemainOn(m, env, goals, toreach, allReach, init, comps);
    if inside { RemainIs(m.trs, env, toreach, layers, init); }
    if |printed| < limit && remain != {} {
      StillSeen(m.trs, allReach, goals, toreach, remain);
      var later, laterOut := PrintPaths(m, remain, toreach, reach, limit - |printed|, goals);
      if inside {
        StartsFewer(m.trs, env, toreach, init, toreach, remain);
        FullStage(m.trs, env, toreach, layers, init, remain, limit, laterOut);
      }
      NamesConcat(m.trs, out, laterOut);
      printed, out := printed + later, out + laterOut;
    } else if inside {
      NoneLeft(m.trs, env, toreach, limit - |out|);
      FullStage(m.trs, env, toreach, layers, init, remain, limit, []);
      assert out + [] == out;
    }
    if inside { FirstOnesNarrow(m.trs, env, toreach0, init0, toreach, init, limit, out); }
  }

  lemma NowSeen<S(!new)>(trs: seq<Named<S>>, all: set<S>, goals: set<S>, goal0: set<S>, goal: set<S>)
    requires Closed(NextRel(trs), all) && goal0 <= goals && goals * all <= goal0 && goal == goal0 * all
    ensures Seen(trs, all, goals, goal)
  {
    hide NextRel;
  }

  /** Fewer starts reach less, so the goals dropped stay out of reach. */
  lemma StillSeen<S(!new)>(trs: seq<Named<S>>, all: set<S>, goals: set<S>, goal: set<S>, xs: set<S>)
    requires Seen(trs, all, goals, goal) && xs <= all
    ensures goal <= goals && goals * ReachSet(NextRel(trs), xs) <= goal
  {
    hide NextRel, ReachSet;
    ReachSetLeast(NextRel(trs), xs, all);
  }

  lemma AskedSearch<S(!new)>(trs: seq<Named<S>>, env: set<S>, reachable: set<S>, goals: set<S>, goal: set<S>, all: set<S>, init: set<S>,
                             found: bool, comps: seq<set<S>>, meet: set<S>)
    requires Askable(trs, env, reachable, goals) && Seen(trs, all, goals, goal) && init <= all
    requires Searched(Converse(ChosenRel(trs, env)), init, goal, found, comps, meet)
    ensures FoundOn(Inside(trs, env), goal, all, init, found, comps) && comps != [] && comps[0] <= env + goals
  {
    hide Seen, Searched, Trusted, StaysInside, Converse, ChosenRel, Inside, Near, Layer, LayersDown;
    SearchedOn(trs, env, goals, goal, all, init, found, comps, meet);
  }

  lemma NothingFound<S(!new)>(trs: seq<Named<S>>, env: set<S>, goal: set<S>, all: set<S>, init: set<S>, comps: seq<set<S>>, limit: nat)
    requires FoundOn(Inside(trs, env), goal, all, init, false, comps)
    ensures FirstOnes(trs, env, goal, init, limit, [])
  {
    hide Near, Inside, FirstOnes, LayersDown, Layer;
    NothingWanted(trs, env, goal, init, limit);
  }

  lemma StageShape<S(!new)>(g: Rel<S>, goal: set<S>, all: set<S>, init: set<S>, comps: seq<set<S>>)
    requires FoundOn(g, goal, all, init, true, comps)
    ensures init != {} && comps != []
    ensures var layers := LayersDown(g, goal, |comps| - 1);
      Layers(g, goal, layers) && |layers| == |comps| && init * Near(g, goal, |layers| - 1) == {}
  {
    hide Near, Layer, Layers;
    var x :| x in init * Layer(g, goal, |comps|);
  }

  lemma SameStage<S(!new)>(trs: seq<Named<S>>, env: set<S>, goal: set<S>, all: set<S>, init: set<S>, comps: seq<set<S>>)
    requires FoundOn(Inside(trs, env), goal, all, init, true, comps) && Closed(NextRel(trs), all) && init <= all
    ensures comps != [] && EnumFrom(trs, init, comps, 0) == EnumFrom(trs, init, LayersDown(Inside(trs, env), goal, |comps| - 1), 0)
  {
    hide Near, Inside, Layer, NextRel, EnumFrom, Layers;
    var layers := LayersDown(Inside(trs, env), goal, |comps| - 1);
    forall j | 0 <= j < |comps| ensures comps[j] * all == layers[j] * all {}
    EnumSame(trs, all, init, comps, layers, 0);
  }

  lemma NarrowStart<S(!new)>(m: ItsModel<S>, env: set<S>, goal: set<S>, xs: set<S>, all: set<S>, back: Rel<S>, w: seq<nat>)
    requires all == ReachSet(NextRel(m.trs), xs)
    requires PredOf(back, NextRel(m.trs), m.Envelope(all))
    ensures Wanted(m.trs, env, goal, xs, w) <==> Wanted(m.trs, env, goal * all, xs * ReachSet(back, goal * all), w)
  {
    hide NextRel, Minimal, ReachSet, PredOf;
    ReachSetClosed(NextRel(m.trs), xs);
    if xs != {} {
      WantedNarrow(m.trs, env, goal, xs, all, back, w);
    }
  }

  /** Subtracting the predecessors of the nearest layer leaves the starts that cannot step into it, which are fewer. */
  lemma RemainOn<S(!new)>(m: ItsModel<S>, env: set<S>, goals: set<S>, goal: set<S>, all: set<S>, init: set<S>, comps: seq<set<S>>)
    requires env + init <= m.Reachable() && init <= all && Askable(m.trs, env, m.Reachable(), goals)
    requires Seen(m.trs, all, goals, goal) && comps != [] && comps[0] <= env + goals
    requires FoundOn(Inside(m.trs, env), goal, all, init, true, comps)
    ensures var remain := init - Post(ChosenRel(m.trs, m.Reachable()), comps[0]);
      remain == init - Pre(NextRel(m.trs), LayersDown(Inside(m.trs, env), goal, |comps| - 1)[0]) && remain < init
  {
    hide NextRel, Inside, Near, Layers, Layer, LayersDown, ChosenRel, ReachSet, Trusted, StaysInside, FoundOn;
    var pred, layers := ChosenRel(m.trs, m.Reachable()), LayersDown(Inside(m.trs, env), goal, |comps| - 1);
    FirstOfFound(m.trs, env, goal, all, init, comps);
    forall x | x in init ensures x in Post(pred, comps[0]) <==> x in Pre(NextRel(m.trs), layers[0]) {
      if x in Post(pred, comps[0]) {
        var e := PostHas(pred, comps[0], x);
        match e.lab case () =>
        assert e == Pair(e.src, x);
        ChosenIsConverse(m.trs, m.Reachable(), goals, x, e.src);
        StepStays(NextRel(m.trs), all, x, e.src);
        assert e.src in comps[0] * all;
        IntoPre(NextRel(m.trs), layers[0], x, e.src);
      }
      if x in Pre(NextRel(m.trs), layers[0]) {
        var y := StepOfPre(NextRel(m.trs), layers[0], x);
        StepStays(NextRel(m.trs), all, x, y);
        assert y in layers[0] * all;
        ChosenIsConverse(m.trs, m.Reachable(), goals, x, y);
        StepInto(pred, comps[0], y, x);
      }
    }
    var x :| x in init && x in Pre(NextRel(m.trs), layers[0]);
  }

  lemma FirstOfFound<S(!new)>(trs: seq<Named<S>>, env: set<S>, goal: set<S>, all: set<S>, init: set<S>, comps: seq<set<S>>)
    requires FoundOn(Inside(trs, env), goal, all, init, true, comps)
    ensures comps != [] && comps[0] * all == LayersDown(Inside(trs, env), goal, |comps| - 1)[0] * all
    ensures init * Pre(NextRel(trs), LayersDown(Inside(trs, env), goal, |comps| - 1)[0]) != {}
  {
    hide Near, Layer, Inside, NextRel, Layers;
    var g, n := Inside(trs, env), |comps| - 1;
    var x :| x in init * Layer(g, goal, n + 1);
    NextLayer(g, goal, n);
    assert LayersDown(g, goal, n)[0] == Layer(g, goal, n);
    var y := StepOfPre(g, Layer(g, goal, n), x);
    InsideHas(trs, env, x, y);
    IntoPre(NextRel(trs), Layer(g, goal, n), x, y);
    assert x in init * Pre(NextRel(trs), LayersDown(g, goal, n)[0]);
  }

  /** When no start steps in from outside, these are the states further away. */
  lemma RemainIs<S(!new)>(trs: seq<Named<S>>, env: set<S>, goal: set<S>, layers: seq<set<S>>, init: set<S>)
    requires Layers(Inside(trs, env), goal, layers) && StartsInside(trs, env, goal, init)
    requires init * Near(Inside(trs, env), goal, |layers| - 1) == {}
    ensures init - Pre(NextRel(trs), layers[0]) == init - Near(Inside(trs, env), goal, |layers|)
  {
    hide NextRel, Inside, Near, Layer, Pre;
    forall x | x in init ensures x in Pre(NextRel(trs), layers[0]) <==> x in Near(Inside(trs, env), goal, |layers|) {
      assert x !in init * Near(Inside(trs, env), goal, |layers| - 1);
      assert StartsInside(trs, env, goal, {x});
      RemainIsFurther(trs, env, goal, layers, x);
    }
  }

  lemma NoneLeft<S(!new)>(trs: seq<Named<S>>, env: set<S>, goal: set<S>, limit: nat)
    ensures FirstOnes(trs, env, goal, {}, limit, [])
  {
  }

  lemma NamesConcat<S(!new)>(trs: seq<Named<S>>, a: seq<seq<nat>>, b: seq<seq<nat>>)
    requires (forall w :: w in a ==> InRange(trs, w)) && (forall w :: w in b ==> InRange(trs, w))
    ensures (forall w :: w in a + b ==> InRange(trs, w)) && AllNames(trs, a + b) == AllNames(trs, a) + AllNames(trs, b)
  {
    forall w | w in a + b ensures InRange(trs, w) {
      assert w in a || w in b;
    }
  }

  // ---------------------------------------------------------------- both searches

  lemma LeastIsWanted<S(!new)>(trs: seq<Named<S>>, env: set<S>, init: set<S>, goal: set<S>, idx: seq<nat>)
    requires LeastPath(trs, env, init, goal, idx)
    ensures Wanted(trs, env, goal, init, idx)
  {
    hide FiresIn, FirstFires, Fires, LexBefore;
    LeastLeads(trs, env, init, goal, idx);
    var x, y :| x in init && y in goal && FiresIn(trs, env, idx, x, y);
    forall n: nat | n < |idx| ensures !CanReach(Inside(trs, env), {x}, goal, n) {
      if CanReach(Inside(trs, env), {x}, goal, n) { MoreStarts(Inside(trs, env), {x}, init, goal, n); }
    }
    assert Minimal(trs, env, goal, x, idx);
  }

  lemma MoreStarts<S(!new)>(g: Rel<S>, xs: set<S>, ys: set<S>, goal: set<S>, n: nat)
    requires CanReach(g, xs, goal, n) && xs <= ys
    ensures CanReach(g, ys, goal, n)
  {
    var x, es, y :| x in xs && y in goal && Walk(g, x, es, y) && |es| == n;
  }

  /** Nothing wanted comes before the answer of `findPath`. */
  lemma NothingBeforeLeast<S(!new)>(trs: seq<Named<S>>, env: set<S>, init: set<S>, goal: set<S>, idx: seq<nat>, w: seq<nat>)
    requires LeastPath(trs, env, init, goal, idx) && Wanted(trs, env, goal, init, w)
    ensures !Before(w, idx)
  {
    hide FiresIn, FirstFires, Fires, LexBefore, CanReach;
    var x :| x in init && Minimal(trs, env, goal, x, w);
    var y :| y in goal && FiresIn(trs, env, w, x, y);
    FiresInNear(trs, env, goal, w, x, y);
    MoreStarts(Inside(trs, env), {x}, init, goal, |w|);
    if |w| == |idx| {
      assert Leads(trs, env, init, goal, w);
      if LexBefore(w, idx) { LexNotBoth(w, idx); }
    }
  }

  /** `findPath` answers with the first witness that `printPaths` prints. */
  lemma FirstReported<S(!new)>(trs: seq<Named<S>>, env: set<S>, init: set<S>, goal: set<S>, idx: seq<nat>, limit: nat, ws: seq<seq<nat>>)
    requires LeastPath(trs, env, init, goal, idx) && FirstOnes(trs, env, goal, init, limit, ws) && limit > 0
    ensures ws != [] && ws[0] == idx
  {
    hide LeastPath, Wanted, Before;
    LeastIsWanted(trs, env, init, goal, idx);
    if idx in ws {
      var k :| 0 <= k < |ws| && ws[k] == idx;
      NothingBeforeLeast(trs, env, init, goal, idx, ws[0]);
    } else {
      assert Before(ws[0], idx);
      NothingBeforeLeast(trs, env, init, goal, idx, ws[0]);
    }
  }
}
