/** The fully symbolic emptiness check (LTL/src/fsltl.cpp).

    `FindScc` is the nested fixpoint in both variants. It is proved to return exactly the states
    reachable from a reachable cycle that uses an edge of every acceptance relation, so the
    Emerson-Lei and OWCTY variants agree. */
module Fsltl {
  import opened Graphs
  import opened Buchi

  ghost function MarksOf<S>(accs: seq<Rel<S>>, e: Edge<S, ()>): set<nat> {
    set i: nat | i < |accs| && e in accs[i]
  }

  /** The full relation, each edge marked with the acceptance relations it belongs to. */
  ghost function Labelled<S>(all: Rel<S>, accs: seq<Rel<S>>): set<Marked<S>> {
    set e | e in all :: Edge(e.src, MarksOf(accs, e), e.dst)
  }

  ghost function Indices<T>(accs: seq<T>): (r: set<nat>) {
    Below(|accs|)
  }

  ghost predicate OnAcceptingCycle<S(!new)>(all: Rel<S>, accs: seq<Rel<S>>, c: S) {
    AcceptingCycle(Labelled(all, accs), Indices(accs), c)
  }

  ghost predicate AfterCycle<S(!new)>(all: Rel<S>, accs: seq<Rel<S>>, reach: set<S>, x: S) {
    exists c :: c in reach && OnAcceptingCycle(all, accs, c) && Reach(all, c, x)
  }

  /** "The set of accepting states + suffix": reachable states that follow a reachable accepting cycle. */
  ghost function AcceptingSuffixes<S(!new)>(all: Rel<S>, accs: seq<Rel<S>>, init: set<S>): set<S> {
    set x | x in ReachSet(all, init) && AfterCycle(all, accs, ReachSet(all, init), x)
  }

  // ---------------------------------------------------------------- the plain and the marked graph

  lemma {:induction false} LabelledWalk<S(!new)>(all: Rel<S>, accs: seq<Rel<S>>, x: S, es: seq<Edge<S, ()>>, y: S)
      returns (fs: seq<Marked<S>>)
    requires Walk(all, x, es, y)
    ensures Walk(Labelled(all, accs), x, fs, y) && |fs| == |es|
  {
    if es == [] {
      fs := [];
    } else {
      var e := es[0];
      var rest := LabelledWalk(all, accs, e.dst, es[1..], y);
      var f := Edge(e.src, MarksOf(accs, e), e.dst);
      fs := [f] + rest;
      assert fs[1..] == rest;
      assert f in Labelled(all, accs);
    }
  }

  lemma {:induction false} PlainWalk<S(!new)>(all: Rel<S>, accs: seq<Rel<S>>, x: S, fs: seq<Marked<S>>, y: S)
    requires Walk(Labelled(all, accs), x, fs, y)
    ensures Reach(all, x, y)
  {
    if fs == [] {
      ReachRefl(all, x);
    } else {
      PlainWalk(all, accs, fs[0].dst, fs[1..], y);
      var e :| e in all && fs[0] == Edge(e.src, MarksOf(accs, e), e.dst);
      ReachEdge(all, e);
      ReachTrans(all, x, e.dst, y);
    }
  }

  // ---------------------------------------------------------------- completeness: nothing on or after a cycle is lost

  /** A cycle state reached in one marked step of a cycle; the heart of the lower bound. */
  lemma CycleEdge<S(!new)>(all: Rel<S>, accs: seq<Rel<S>>, c: S, i: nat) returns (e: Edge<S, ()>)
    requires OnAcceptingCycle(all, accs, c) && (i < |accs| || |accs| == 0)
    ensures e in all && Reach(all, c, e.src) && Reach(all, e.dst, c)
    ensures i < |accs| ==> e in accs[i]
  {
    var g := Labelled(all, accs);
    var es :| CycleAt(g, Indices(accs), c, es);
    var k := 0;
    if i < |accs| {
      k := MarksFind(es, i);
    }
    var m := WalkSplit(g, c, es, c, k);
    e :| e in all && es[k] == Edge(e.src, MarksOf(accs, e), e.dst);
    PlainWalk(all, accs, c, es[..k], m);
    PlainWalk(all, accs, e.dst, es[k..][1..], c);
  }

  lemma SuffixesClosed<S(!new)>(all: Rel<S>, accs: seq<Rel<S>>, init: set<S>, c: S, x: S)
    requires c in ReachSet(all, init) && OnAcceptingCycle(all, accs, c) && Reach(all, c, x)
    ensures x in AcceptingSuffixes(all, accs, init)
  {
    var s :| s in init && Reach(all, s, c);
    ReachTrans(all, s, c, x);
    ReachSetHas(all, init, s, x);
  }

  lemma SuffixesKeptByAcc<S(!new)>(all: Rel<S>, accs: seq<Rel<S>>, init: set<S>, div: set<S>, i: nat)
    requires i < |accs| && AcceptingSuffixes(all, accs, init) <= div
    ensures AcceptingSuffixes(all, accs, init) <= ReachSet(all, Post(accs[i], div))
  {
    var reach := ReachSet(all, init);
    forall x | x in AcceptingSuffixes(all, accs, init) ensures x in ReachSet(all, Post(accs[i], div)) {
      var c :| c in reach && OnAcceptingCycle(all, accs, c) && Reach(all, c, x);
      var e := CycleEdge(all, accs, c, i);
      SuffixesClosed(all, accs, init, c, e.src);
      assert e.dst in Post(accs[i], div);
      ReachTrans(all, e.dst, c, x);
      ReachSetHas(all, Post(accs[i], div), e.dst, x);
    }
  }

  lemma SuffixesSelfSustained<S(!new)>(all: Rel<S>, accs: seq<Rel<S>>, init: set<S>)
    ensures SelfSustained(all, AcceptingSuffixes(all, accs, init))
  {
    var reach := ReachSet(all, init);
    var ss := AcceptingSuffixes(all, accs, init);
    forall x | x in ss ensures HasEdgeInto(all, ss, x) {
      var c :| c in reach && OnAcceptingCycle(all, accs, c) && Reach(all, c, x);
      var es: seq<Edge<S, ()>> :| Walk(all, c, es, x);
      if es == [] {
        var e := CycleEdge(all, accs, c, 0);
        // go round once more: c -> e -> c, so the last edge into c starts from a suffix state
        ReachSetPred(all, e, c);
        var e' :| e' in all && Reach(all, e.src, e'.src) && e'.dst == c;
        ReachTrans(all, c, e.src, e'.src);
        SuffixesClosed(all, accs, init, c, e'.src);
      } else {
        var k := |es| - 1;
        var m := WalkSplit(all, c, es, x, k);
        assert Reach(all, c, m);
        WalkEnd(all, c, es, x);
        SuffixesClosed(all, accs, init, c, m);
        assert es[k] in all && es[k].src == m && es[k].dst == x;
      }
    }
  }

  /** If an edge can be followed back to `c`, some edge reachable from it enters `c`. */
  lemma ReachSetPred<S(!new)>(all: Rel<S>, e: Edge<S, ()>, c: S)
    requires e in all && Reach(all, e.dst, c)
    ensures exists e' :: e' in all && Reach(all, e.src, e'.src) && e'.dst == c
  {
    var es: seq<Edge<S, ()>> :| Walk(all, e.dst, es, c);
    if es == [] {
      ReachRefl(all, e.src);
    } else {
      var k := |es| - 1;
      var m := WalkSplit(all, e.dst, es, c, k);
      WalkEnd(all, e.dst, es, c);
      ReachEdge(all, e);
      assert Reach(all, e.dst, m);
      ReachTrans(all, e.src, e.dst, m);
      assert es[k] in all && es[k].dst == c && es[k].src == m;
    }
  }

  // ---------------------------------------------------------------- soundness: a fixpoint contains only such states

  /** Every state of `div` is fed by an edge of `acc` that starts in `div`. */
  ghost predicate Fed<S(!new)>(all: Rel<S>, acc: Rel<S>, div: set<S>) {
    forall v {:trigger FedAt(all, acc, div, v)} :: v in div ==> FedAt(all, acc, div, v)
  }

  ghost predicate FedAt<S(!new)>(all: Rel<S>, acc: Rel<S>, div: set<S>, v: S) {
    exists e :: e in acc && e.src in div && Reach(all, e.dst, v)
  }

  ghost predicate BackSteps<S(!new)>(all: Rel<S>, accs: seq<Rel<S>>, div: set<S>) {
    && (forall i: nat {:trigger Fed(all, accs[i], div)} :: i < |accs| ==> accs[i] <= all && Fed(all, accs[i], div))
    && (accs == [] ==> SelfSustained(all, div))
  }

  lemma FixpointFed<S(!new)>(all: Rel<S>, acc: Rel<S>, div: set<S>)
    requires div <= ReachSet(all, Post(acc, div))
    ensures Fed(all, acc, div)
  {
    forall v | v in div ensures FedAt(all, acc, div, v) {
      var y :| y in Post(acc, div) && Reach(all, y, v);
    }
  }

  /** A step back through relation `i`, inside `div`. */
  lemma BackOnce<S(!new)>(all: Rel<S>, accs: seq<Rel<S>>, div: set<S>, v: S, i: nat) returns (u: S, fs: seq<Marked<S>>)
    requires BackSteps(all, accs, div) && v in div && (i < |accs| || accs == [])
    ensures u in div && fs != [] && Walk(Labelled(all, accs), u, fs, v)
    ensures i < |accs| ==> i in Marks(fs)
  {
    var e: Edge<S, ()>;
    if accs == [] {
      assert HasEdgeInto(all, div, v);
      e :| e in all && e.src in div && e.dst == v;
      ReachRefl(all, v);
    } else {
      assert Fed(all, accs[i], div);
      assert FedAt(all, accs[i], div, v);
      e :| e in accs[i] && e.src in div && Reach(all, e.dst, v);
    }
    fs := Prepend(all, accs, e, v);
    u := e.src;
  }

  lemma Prepend<S(!new)>(all: Rel<S>, accs: seq<Rel<S>>, e: Edge<S, ()>, v: S) returns (fs: seq<Marked<S>>)
    requires e in all && Reach(all, e.dst, v)
    ensures fs != [] && Walk(Labelled(all, accs), e.src, fs, v) && MarksOf(accs, e) <= Marks(fs)
  {
    var es :| Walk(all, e.dst, es, v);
    var rest := LabelledWalk(all, accs, e.dst, es, v);
    var f := Edge(e.src, MarksOf(accs, e), e.dst);
    assert f in Labelled(all, accs);
    fs := [f] + rest;
    assert fs[1..] == rest;
  }

  /** A walk inside the graph, started in `div`, that carries the first `k` marks and ends in `v`. */
  lemma {:induction false} BackThrough<S(!new)>(all: Rel<S>, accs: seq<Rel<S>>, div: set<S>, v: S, k: nat)
      returns (u: S, fs: seq<Marked<S>>)
    requires BackSteps(all, accs, div) && v in div && k <= |accs|
    ensures u in div && fs != [] && Walk(Labelled(all, accs), u, fs, v) && (forall i: nat :: i < k ==> i in Marks(fs))
  {
    if k == 0 {
      u, fs := BackOnce(all, accs, div, v, 0);
    } else {
      var w, gs := BackThrough(all, accs, div, v, k - 1);
      var hs;
      u, hs := BackOnce(all, accs, div, w, k - 1);
      fs := hs + gs;
      WalkConcat(Labelled(all, accs), u, hs, w, gs, v);
      MarksConcat(hs, gs);
    }
  }

  lemma FixpointSound<S(!new)>(all: Rel<S>, accs: seq<Rel<S>>, init: set<S>, div: set<S>)
    requires BackSteps(all, accs, div) && div <= ReachSet(all, init)
    ensures div <= AcceptingSuffixes(all, accs, init)
  {
    var g, want := Labelled(all, accs), Indices(accs);
    forall v | v in div ensures HasFullStepInto(g, want, div, v) {
      var u, fs := BackThrough(all, accs, div, v, |accs|);
      assert FullStep(g, want, u, v);
    }
    forall x | x in div ensures x in AcceptingSuffixes(all, accs, init) {
      var c := FullStepsLoop(g, want, div, x);
      var fs :| fs != [] && Walk(g, c, fs, x) && Full(want, Marks(fs));
      PlainWalk(all, accs, c, fs, x);
      SuffixesClosed(all, accs, init, c, x);
    }
  }

  // ---------------------------------------------------------------- the algorithm

  /** Restricting to what an acceptance relation feeds never grows a closed set. */
  lemma AccStepShrinks<S(!new)>(all: Rel<S>, acc: Rel<S>, div: set<S>)
    requires acc <= all && Closed(all, div)
    ensures ReachSet(all, Post(acc, div)) <= div && Closed(all, ReachSet(all, Post(acc, div)))
  {
    ReachSetLeast(all, Post(acc, div), div);
    ReachSetClosed(all, Post(acc, div));
  }

  /** What the outer loop keeps: a closed set of reachable states that has lost no accepting suffix. */
  ghost predicate Keeps<S(!new)>(all: Rel<S>, accs: seq<Rel<S>>, init: set<S>, div: set<S>) {
    Closed(all, div) && AcceptingSuffixes(all, accs, init) <= div
  }

  ghost predicate AllFed<S(!new)>(all: Rel<S>, accs: seq<Rel<S>>, div: set<S>, k: nat) {
    forall i: nat {:trigger Fed(all, accs[i], div)} :: i < k && i < |accs| ==> Fed(all, accs[i], div)
  }

  lemma AccStep<S(!new)>(all: Rel<S>, accs: seq<Rel<S>>, init: set<S>, div: set<S>, k: nat)
    requires k < |accs| && accs[k] <= all && Keeps(all, accs, init, div)
    ensures ReachSet(all, Post(accs[k], div)) <= div
    ensures ReachSet(all, Post(accs[k], div)) == div ==> Fed(all, accs[k], div)
    ensures Keeps(all, accs, init, ReachSet(all, Post(accs[k], div)))
  {
    AccStepShrinks(all, accs[k], div);
    if ReachSet(all, Post(accs[k], div)) == div {
      FixpointFed(all, accs[k], div);
    }
    SuffixesKeptByAcc(all, accs, init, div, k);
  }

  /** One pass of the inner loop over the acceptance relations. */
  method AccPass<S(==, !new)>(nextAll: Rel<S>, nextAccs: seq<Rel<S>>, ghost init: set<S>, div0: set<S>) returns (div: set<S>)
    requires forall i: nat :: i < |nextAccs| ==> nextAccs[i] <= nextAll
    requires Keeps(nextAll, nextAccs, init, div0)
    ensures div <= div0 && Keeps(nextAll, nextAccs, init, div)
    ensures div == div0 ==> AllFed(nextAll, nextAccs, div, |nextAccs|)
  {
    hide Keeps, Fed;
    div := div0;
    var k := 0;
    while k < |nextAccs|
      invariant k <= |nextAccs|
      invariant div <= div0 && Keeps(nextAll, nextAccs, init, div)
      invariant div == div0 ==> AllFed(nextAll, nextAccs, div, k)
    {
      AccStep(nextAll, nextAccs, init, div, k);
      div := Closure(nextAll, Post(nextAccs[k], div));
      k := k + 1;
    }
  }

  lemma SuffixesReachable<S(!new)>(all: Rel<S>, accs: seq<Rel<S>>, init: set<S>)
    ensures AcceptingSuffixes(all, accs, init) <= ReachSet(all, init)
    ensures Keeps(all, accs, init, ReachSet(all, init))
    ensures SelfSustained(all, AcceptingSuffixes(all, accs, init))
  {
    ReachSetClosed(all, init);
    SuffixesSelfSustained(all, accs, init);
  }

  /** `findSCC_fsltl`: the nested fixpoint; `isOWCTY` adds the loop-and-suffix reduction to each pass. */
  method FindScc<S(==, !new)>(nextAll: Rel<S>, nextAccs: seq<Rel<S>>, init: set<S>, isOWCTY: bool) returns (div: set<S>)
    requires forall i: nat :: i < |nextAccs| ==> nextAccs[i] <= nextAll
    ensures div == AcceptingSuffixes(nextAll, nextAccs, init)
  {
    hide Fed, ReachSet, AcceptingSuffixes;
    var reach := Closure(nextAll, init);
    SuffixesReachable(nextAll, nextAccs, init);
    if nextAccs == [] {
      div := GreatestImage(nextAll, reach);
    } else {
      div := reach;
      var sat := reach;
      var first := true;
      while first || div != sat
        invariant div <= reach && Keeps(nextAll, nextAccs, init, div)
        invariant !first && div == sat ==> AllFed(nextAll, nextAccs, div, |nextAccs|)
        invariant div <= sat
        decreases first, sat
      {
        first := false;
        sat := div;
        if isOWCTY {
          div := GreatestImage(nextAll, div);
        }
        div := AccPass(nextAll, nextAccs, init, div);
      }
    }
    FixpointSound(nextAll, nextAccs, init, div);
  }

  /** Both variants return the same set. */
  method FindSccBoth<S(==, !new)>(nextAll: Rel<S>, nextAccs: seq<Rel<S>>, init: set<S>) returns (el: set<S>, owcty: set<S>)
    requires forall i: nat :: i < |nextAccs| ==> nextAccs[i] <= nextAll
    ensures el == owcty
    ensures el != {} <==> NonEmpty(Labelled(nextAll, nextAccs), Indices(nextAccs), init)
  {
    el := FindScc(nextAll, nextAccs, init, false);
    owcty := FindScc(nextAll, nextAccs, init, true);
    SuffixesDecideEmptiness(nextAll, nextAccs, init);
  }

  lemma LabelledReachSet<S(!new)>(all: Rel<S>, accs: seq<Rel<S>>, init: set<S>)
    ensures ReachSet(Labelled(all, accs), init) == ReachSet(all, init)
  {
    var g := Labelled(all, accs);
    forall y | y in ReachSet(g, init) ensures y in ReachSet(all, init) {
      var x :| x in init && Reach(g, x, y);
      var fs :| Walk(g, x, fs, y);
      PlainWalk(all, accs, x, fs, y);
      ReachSetHas(all, init, x, y);
    }
    forall y | y in ReachSet(all, init) ensures y in ReachSet(g, init) {
      var x :| x in init && Reach(all, x, y);
      var es :| Walk(all, x, es, y);
      var fs := LabelledWalk(all, accs, x, es, y);
      ReachSetHas(g, init, x, y);
    }
  }

  /** The returned set is non-empty exactly when an accepted infinite run exists. */
  lemma SuffixesDecideEmptiness<S(!new)>(all: Rel<S>, accs: seq<Rel<S>>, init: set<S>)
    ensures AcceptingSuffixes(all, accs, init) != {} <==> NonEmpty(Labelled(all, accs), Indices(accs), init)
    ensures AcceptingSuffixes(all, accs, init) != {} <==> HasAcceptedRun(Labelled(all, accs), Indices(accs), init)
  {
    var g := Labelled(all, accs);
    LabelledReachSet(all, accs, init);
    NonEmptyIffRun(g, Indices(accs), init);
    if NonEmpty(g, Indices(accs), init) {
      var c :| c in ReachSet(g, init) && AcceptingCycle(g, Indices(accs), c);
      ReachRefl(all, c);
      SuffixesClosed(all, accs, init, c, c);
    }
    if x :| x in AcceptingSuffixes(all, accs, init) {
      assert AfterCycle(all, accs, ReachSet(all, init), x);
    }
  }
}
