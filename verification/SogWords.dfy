/** Stuttering behaviour of the observation graph: the words its paths carry. */
module SogWords {
  import opened Graphs
  import opened Buchi
  import opened SogIts
  import opened Sog

  /** Append a valuation unless it repeats the last one. */
  ghost function Extend(w: seq<nat>, v: nat): (r: seq<nat>)
    ensures r != [] && r[|r| - 1] == v
  {
    if w != [] && w[|w| - 1] == v then w else w + [v]
  }

  /** The stutter-reduced label word of a walk. */
  ghost function Trace<S>(lab: S -> nat, x: S, es: seq<Edge<S, ()>>): (w: seq<nat>)
    ensures w != []
  {
    if es == [] then [lab(x)]
    else Extend(Trace(lab, x, es[..|es| - 1]), lab(es[|es| - 1].dst))
  }

  ghost predicate TracedTo<S(!new)>(m: Model<S>, w: seq<nat>, y: S) {
    exists x, es :: x in m.init && Walk(m.rel, x, es, y) && Trace(m.lab, x, es) == w
  }

  /** `w` is the stutter-reduced label word of some finite path of the model. */
  ghost predicate ModelWord<S(!new)>(m: Model<S>, w: seq<nat>) {
    exists y :: TracedTo(m, w, y)
  }

  // ---------------------------------------------------------------- aggregates and the states they gather

  ghost function Entry<S(!new)>(m: Model<S>, w: seq<nat>): set<S>
    requires w != []
    decreases |w|, 0
  {
    if |w| == 1 then m.init else NodeOf(m, w[..|w| - 1]).succ
  }

  /** The aggregate a word leads to. */
  ghost function NodeOf<S(!new)>(m: Model<S>, w: seq<nat>): SogState<S>
    requires w != []
    decreases |w|, 1
  {
    StateOf(m, Entry(m, w), w[|w| - 1])
  }

  ghost function AggOf<S(!new)>(m: Model<S>, w: seq<nat>): set<S>
    requires w != []
  {
    NodeOf(m, w).states
  }

  lemma TraceLast<S>(lab: S -> nat, x: S, es: seq<Edge<S, ()>>)
    ensures var w := Trace(lab, x, es); w[|w| - 1] == if es == [] then lab(x) else lab(es[|es| - 1].dst)
  {
  }

  lemma TraceStep<S(!new)>(lab: S -> nat, x: S, es: seq<Edge<S, ()>>, e: Edge<S, ()>)
    ensures Trace(lab, x, es + [e]) == Extend(Trace(lab, x, es), lab(e.dst))
  {
    assert (es + [e])[..|es|] == es;
  }

  lemma WalkSnoc<S(!new)>(g: Rel<S>, x: S, es: seq<Edge<S, ()>>, e: Edge<S, ()>)
    requires Walk(g, x, es, e.src) && e in g
    ensures Walk(g, x, es + [e], e.dst)
  {
    WalkOne(g, e);
    WalkConcat(g, x, es, e.src, [e], e.dst);
  }

  /** The last edge of a walk, split off. */
  lemma WalkUnsnoc<S(!new)>(g: Rel<S>, x: S, es: seq<Edge<S, ()>>, y: S) returns (e: Edge<S, ()>)
    requires es != [] && Walk(g, x, es, y)
    ensures e in g && e == es[|es| - 1] && e.dst == y && Walk(g, x, es[..|es| - 1], e.src)
  {
    e := es[|es| - 1];
    var k := WalkSplit(g, x, es, y, |es| - 1);
    WalkEnd(g, x, es, y);
  }

  lemma SaturateFacts<S(!new)>(m: Model<S>, entry: set<S>, v: nat)
    ensures forall s :: s in entry && m.lab(s) == v ==> s in Saturate(m, entry, v)
    ensures forall e :: e in m.rel && e.src in Saturate(m, entry, v) && m.lab(e.dst) == v ==> e.dst in Saturate(m, entry, v)
    ensures forall s :: s in Saturate(m, entry, v) ==> m.lab(s) == v
  {
    var g := GuardDst(m.rel, m.lab, {v});
    var xs := Select(m.lab, entry, {v});
    ReachSetClosed(g, xs);
    forall s | s in Saturate(m, entry, v) ensures m.lab(s) == v {
      var x :| x in xs && Reach(g, x, s);
      var es :| Walk(g, x, es, s);
      WalkEnd(g, x, es, s);
    }
  }

  lemma AggIs<S(!new)>(m: Model<S>, w: seq<nat>)
    requires w != []
    ensures AggOf(m, w) == Saturate(m, Entry(m, w), w[|w| - 1])
    ensures |w| == 1 ==> Entry(m, w) == m.init
    ensures |w| > 1 ==>
      var u := w[..|w| - 1];
      Entry(m, w) == SelectNot(m.lab, Post(m.rel, AggOf(m, u)), {u[|u| - 1]})
  {
  }

  /** A state traced to by a word is in the word's aggregate. */
  lemma {:induction false} TracedIsGathered<S(!new)>(m: Model<S>, x: S, es: seq<Edge<S, ()>>, y: S)
    requires x in m.init && Walk(m.rel, x, es, y)
    ensures y in AggOf(m, Trace(m.lab, x, es))
    decreases |es|
  {
    hide Saturate, AggOf, Entry;
    var w := Trace(m.lab, x, es);
    AggIs(m, w);
    SaturateFacts(m, Entry(m, w), w[|w| - 1]);
    if es != [] {
      var e := WalkUnsnoc(m.rel, x, es, y);
      var es' := es[..|es| - 1];
      TracedIsGathered(m, x, es', e.src);
      var u := Trace(m.lab, x, es');
      if m.lab(y) != u[|u| - 1] {
        assert w[..|w| - 1] == u;
        assert y in Post(m.rel, AggOf(m, u));
      }
    }
  }

  /** Walking on inside one valuation does not change the trace. */
  lemma {:induction false} TraceWithin<S(!new)>(m: Model<S>, w: seq<nat>, v: nat, y: S, es: seq<Edge<S, ()>>, z: S)
    requires TracedTo(m, w, y) && w != [] && w[|w| - 1] == v
    requires Walk(GuardDst(m.rel, m.lab, {v}), y, es, z)
    ensures TracedTo(m, w, z)
    decreases |es|
  {
    if es != [] {
      var g := GuardDst(m.rel, m.lab, {v});
      var e := WalkUnsnoc(g, y, es, z);
      TraceWithin(m, w, v, y, es[..|es| - 1], e.src);
      TraceOneMore(m, w, e);
    }
  }

  lemma TraceOneMore<S(!new)>(m: Model<S>, w: seq<nat>, e: Edge<S, ()>)
    requires TracedTo(m, w, e.src) && e in m.rel
    ensures TracedTo(m, Extend(w, m.lab(e.dst)), e.dst)
  {
    var x, es :| x in m.init && Walk(m.rel, x, es, e.src) && Trace(m.lab, x, es) == w;
    WalkSnoc(m.rel, x, es, e);
    TraceStep(m.lab, x, es, e);
  }

  /** Words of the graph never repeat a valuation twice in a row. */
  ghost predicate Reduced(w: seq<nat>) {
    w != [] && forall k {:trigger w[k]} :: 1 <= k < |w| ==> w[k - 1] != w[k]
  }

  lemma {:induction false} TraceIsReduced<S(!new)>(lab: S -> nat, x: S, es: seq<Edge<S, ()>>)
    ensures Reduced(Trace(lab, x, es))
    decreases |es|
  {
    if es != [] {
      TraceIsReduced(lab, x, es[..|es| - 1]);
    }
  }

  /** A state in a word's aggregate is traced to by the word. */
  lemma {:induction false} GatheredIsTraced<S(!new)>(m: Model<S>, w: seq<nat>, y: S)
    requires w != [] && y in AggOf(m, w)
    ensures TracedTo(m, w, y)
    decreases |w|
  {
    var v := w[|w| - 1];
    var entry := Entry(m, w);
    var s :| s in Select(m.lab, entry, {v}) && Reach(GuardDst(m.rel, m.lab, {v}), s, y);
    if |w| == 1 {
      assert Walk(m.rel, s, [], s) && Trace(m.lab, s, []) == w;
      assert TracedTo(m, w, s);
    } else {
      EntryIsTraced(m, w, s);
    }
    var es: seq<Edge<S, ()>> :| Walk(GuardDst(m.rel, m.lab, {v}), s, es, y);
    TraceWithin(m, w, v, s, es, y);
  }

  lemma {:induction false} EntryIsTraced<S(!new)>(m: Model<S>, w: seq<nat>, s: S)
    requires |w| > 1 && s in Entry(m, w) && m.lab(s) == w[|w| - 1]
    ensures TracedTo(m, w, s)
    decreases |w|, 0
  {
    var u := w[..|w| - 1];
    var v := u[|u| - 1];
    StateOfCond(m, Entry(m, u), v);
    assert s in SelectNot(m.lab, Post(m.rel, AggOf(m, u)), {v});
    var e := PostHas(m.rel, AggOf(m, u), s);
    GatheredIsTraced(m, u, e.src);
    TraceOneMore(m, u, e);
    assert u + [m.lab(s)] == w;
  }

  /** The aggregate of a word holds exactly the last states of the paths with that reduced word. */
  lemma AggregateMeaning<S(!new)>(m: Model<S>, w: seq<nat>, y: S)
    requires w != []
    ensures y in AggOf(m, w) <==> TracedTo(m, w, y)
  {
    if TracedTo(m, w, y) {
      var x, es :| x in m.init && Walk(m.rel, x, es, y) && Trace(m.lab, x, es) == w;
      TracedIsGathered(m, x, es, y);
    }
    if y in AggOf(m, w) {
      GatheredIsTraced(m, w, y);
    }
  }

  // ---------------------------------------------------------------- paths of the graph

  ghost predicate ObsPath<S(!new)>(m: Model<S>, nodes: seq<SogState<S>>) {
    && nodes != [] && IsInitState(m, nodes[0])
    && forall k {:trigger nodes[k]} :: 1 <= k < |nodes| ==> Agg(nodes[k]) in Successors(m, nodes[k - 1])
  }

  ghost function Conds<S>(nodes: seq<SogState<S>>): seq<nat> {
    seq(|nodes|, k requires 0 <= k < |nodes| => nodes[k].cond)
  }

  ghost predicate ObsWord<S(!new)>(m: Model<S>, w: seq<nat>) {
    exists nodes :: ObsPath(m, nodes) && Conds(nodes) == w
  }

  /** A path of the graph visits exactly the aggregates of its prefixes. */
  lemma {:induction false} PathNodes<S(!new)>(m: Model<S>, nodes: seq<SogState<S>>)
    requires ObsPath(m, nodes)
    ensures nodes[|nodes| - 1] == NodeOf(m, Conds(nodes)) && nodes[|nodes| - 1].states != {}
    decreases |nodes|
  {
    hide StateOf, Successors, AggsFrom, Select, Saturate;
    var w := Conds(nodes);
    var last := nodes[|nodes| - 1];
    if |nodes| == 1 {
      var s :| s in m.init && m.lab(s) == last.cond;
      SaturateFacts(m, m.init, last.cond);
      StateOfCond(m, m.init, last.cond);
    } else {
      var before := nodes[..|nodes| - 1];
      PathNodes(m, before);
      assert Conds(before) == w[..|w| - 1];
      assert Agg(last) in Successors(m, before[|before| - 1]);
      AggSuccessor(m, before[|before| - 1], last);
      assert Entry(m, w) == before[|before| - 1].succ;
    }
  }

  lemma ExtendPath<S(!new)>(m: Model<S>, before: seq<SogState<S>>, next: SogState<S>) returns (nodes: seq<SogState<S>>)
    requires ObsPath(m, before) && next.cond < Pow2(m.size)
    requires next == StateOf(m, before[|before| - 1].succ, next.cond) && next.states != {}
    ensures ObsPath(m, nodes) && Conds(nodes) == Conds(before) + [next.cond]
  {
    hide StateOf, Successors, AggsFrom, IsInitState;
    AggSuccessor(m, before[|before| - 1], next);
    nodes := before + [next];
  }

  /** The path of the graph that a model word follows. */
  lemma {:induction false} WordPath<S(!new)>(m: Model<S>, x: S, es: seq<Edge<S, ()>>, y: S) returns (nodes: seq<SogState<S>>)
    requires Labelled(m) && x in m.init && LeastLabel(m, m.lab(x)) && Walk(m.rel, x, es, y)
    ensures ObsPath(m, nodes) && Conds(nodes) == Trace(m.lab, x, es)
    decreases |es|
  {
    hide StateOf, Successors, AggsFrom, Select, Saturate, Pow2;
    var w := Trace(m.lab, x, es);
    if es == [] {
      nodes := [StateOf(m, m.init, m.lab(x))];
      StateOfCond(m, m.init, m.lab(x));
    } else {
      var e := WalkUnsnoc(m.rel, x, es, y);
      var u := Trace(m.lab, x, es[..|es| - 1]);
      var before := WordPath(m, x, es[..|es| - 1], e.src);
      if m.lab(y) == u[|u| - 1] {
        nodes := before;
      } else {
        PathNodes(m, before);
        TracedIsGathered(m, x, es, y);
        assert w[..|w| - 1] == u;
        var next := NodeOf(m, w);
        StateOfCond(m, Entry(m, w), m.lab(y));
        assert m.lab(y) < Pow2(m.size);
        assert Entry(m, w) == before[|before| - 1].succ;
        nodes := ExtendPath(m, before, next);
      }
    }
  }

  /** A finite word labels a path of the graph exactly when it is the reduced word of a model path
      that starts with the valuation the graph starts with. */
  lemma ObsWordIff<S(!new)>(m: Model<S>, w: seq<nat>)
    requires Labelled(m)
    ensures ObsWord(m, w) <==> ModelWord(m, w) && w != [] && LeastLabel(m, w[0])
    ensures ObsWord(m, w) ==> Reduced(w)
  {
    if ObsWord(m, w) {
      var nodes: seq<SogState<S>> :| ObsPath(m, nodes) && Conds(nodes) == w;
      PathNodes(m, nodes);
      var y :| y in nodes[|nodes| - 1].states;
      AggregateMeaning(m, w, y);
      var x, es :| x in m.init && Walk(m.rel, x, es, y) && Trace(m.lab, x, es) == w;
      TraceIsReduced(m.lab, x, es);
    }
    if ModelWord(m, w) && w != [] && LeastLabel(m, w[0]) {
      var y :| TracedTo(m, w, y);
      var x, es :| x in m.init && Walk(m.rel, x, es, y) && Trace(m.lab, x, es) == w;
      TraceFirst(m.lab, x, es);
      var nodes := WordPath(m, x, es, y);
    }
  }

  lemma {:induction false} TraceFirst<S(!new)>(lab: S -> nat, x: S, es: seq<Edge<S, ()>>)
    ensures Trace(lab, x, es)[0] == lab(x)
    decreases |es|
  {
    if es != [] {
      TraceFirst(lab, x, es[..|es| - 1]);
    }
  }

  /** With one initial state the graph has exactly the reduced words of the model. */
  lemma ObsWordIffSingle<S(!new)>(m: Model<S>, s0: S, w: seq<nat>)
    requires Labelled(m) && m.init == {s0}
    ensures ObsWord(m, w) <==> ModelWord(m, w)
  {
    ObsWordIff(m, w);
    assert LeastLabel(m, m.lab(s0));
    if ModelWord(m, w) {
      var y :| TracedTo(m, w, y);
      var x, es :| x in m.init && Walk(m.rel, x, es, y) && Trace(m.lab, x, es) == w;
      TraceFirst(m.lab, x, es);
    }
  }

  /** With several initial states only those of the first cube are kept, so no word is lost exactly
      when all initial states carry the same valuation. */
  lemma NoWordLostIff<S(!new)>(m: Model<S>)
    requires Labelled(m) && m.init != {}
    ensures (forall w :: ModelWord(m, w) ==> ObsWord(m, w))
            <==> (forall s, t :: s in m.init && t in m.init ==> m.lab(s) == m.lab(t))
  {
    if forall w :: ModelWord(m, w) ==> ObsWord(m, w) {
      forall s | s in m.init ensures LeastLabel(m, m.lab(s)) {
        var w := [m.lab(s)];
        assert Walk(m.rel, s, [], s) && Trace(m.lab, s, []) == w;
        assert TracedTo(m, w, s);
        ObsWordIff(m, w);
      }
    }
    if forall s, t :: s in m.init && t in m.init ==> m.lab(s) == m.lab(t) {
      forall w | ModelWord(m, w) ensures ObsWord(m, w) {
        var y :| TracedTo(m, w, y);
        var x, es :| x in m.init && Walk(m.rel, x, es, y) && Trace(m.lab, x, es) == w;
        TraceFirst(m.lab, x, es);
        assert LeastLabel(m, m.lab(x));
        ObsWordIff(m, w);
      }
    }
  }
}
