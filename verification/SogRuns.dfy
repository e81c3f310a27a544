/** Infinite behaviour of the observation graph: divergence and infinite words. */
module SogRuns {
  import opened Graphs
  import opened Buchi
  import opened SogIts
  import opened Sog
  import opened SogWords

  type Run<!S> = nat -> Edge<S, ()>

  ghost predicate RunFromInit<S(!new)>(m: Model<S>, run: Run<S>) {
    IsRun(m.rel, run) && run(0).src in m.init
  }

  // ---------------------------------------------------------------- divergence

  ghost predicate KeepsFrom<S(!new)>(m: Model<S>, run: Run<S>, v: nat, k: nat) {
    forall j: nat {:trigger run(j)} :: k <= j ==> m.lab(run(j).src) == v
  }

  /** The run reads `w` in its first `k` steps and keeps the last valuation of `w` for ever. */
  ghost predicate SettlesAfter<S(!new)>(m: Model<S>, run: Run<S>, w: seq<nat>, k: nat) {
    && w != [] && RunFromInit(m, run)
    && Trace(m.lab, run(0).src, Window(run, 0, k)) == w
    && KeepsFrom(m, run, w[|w| - 1], k)
  }

  ghost predicate CanSettle<S(!new)>(m: Model<S>, w: seq<nat>) {
    exists run: Run<S>, k: nat :: SettlesAfter(m, run, w, k)
  }

  lemma AggLabels<S(!new)>(m: Model<S>, w: seq<nat>)
    requires w != []
    ensures forall y :: y in AggOf(m, w) ==> m.lab(y) == w[|w| - 1]
    ensures NodeOf(m, w).div <==> Divergent(m.rel, m.lab, AggOf(m, w), {w[|w| - 1]}) != {}
  {
    AggIs(m, w);
    SaturateFacts(m, Entry(m, w), w[|w| - 1]);
    StateOfCond(m, Entry(m, w), w[|w| - 1]);
  }

  lemma CycleStates<S(!new)>(g: Rel<S>, c: S, cycle: seq<Edge<S, ()>>)
    requires cycle != [] && Walk(g, c, cycle, c)
    ensures c in Targets(g) && forall e :: e in cycle ==> e in g
  {
    WalkEnd(g, c, cycle, c);
  }

  lemma DivergentSettles<S(!new)>(m: Model<S>, w: seq<nat>)
    requires w != [] && NodeOf(m, w).div
    ensures CanSettle(m, w)
  {
    hide NodeOf, AggOf, Entry, Divergent, Walk, Trace;
    var v, agg := w[|w| - 1], AggOf(m, w);
    var g := Inside(m.rel, m.lab, agg, {v});
    AggLabels(m, w);
    DivergesIffCycle(m.rel, m.lab, agg, {v});
    var c :| NonEmptyWalk(g, c, c);
    var cycle: seq<Edge<S, ()>> :| cycle != [] && Walk(g, c, cycle, c);
    CycleStates(g, c, cycle);
    AggregateMeaning(m, w, c);
    var x, es :| x in m.init && Walk(m.rel, x, es, c) && Trace(m.lab, x, es) == w;
    WalkMonotone(g, m.rel, c, cycle, c);
    LassoSettles(m, w, x, es, c, cycle);
  }

  lemma LassoSettles<S(!new)>(m: Model<S>, w: seq<nat>, x: S, es: seq<Edge<S, ()>>, c: S, cycle: seq<Edge<S, ()>>)
    requires w != [] && x in m.init && Walk(m.rel, x, es, c) && Trace(m.lab, x, es) == w
    requires cycle != [] && Walk(m.rel, c, cycle, c) && forall e :: e in cycle ==> m.lab(e.src) == w[|w| - 1]
    ensures CanSettle(m, w)
  {
    hide Walk, Trace;
    var run := Lasso(es, cycle);
    LassoIsRun(m.rel, x, es, c, cycle);
    assert Window(run, 0, |es|) == es;
    forall j: nat | |es| <= j ensures m.lab(run(j).src) == w[|w| - 1] {
      assert run(j) in cycle;
    }
    assert SettlesAfter(m, run, w, |es|);
  }

  lemma {:induction false} SettledTrace<S(!new)>(m: Model<S>, run: Run<S>, w: seq<nat>, k: nat, j: nat)
    requires SettlesAfter(m, run, w, k) && k <= j
    ensures Trace(m.lab, run(0).src, Window(run, 0, j)) == w && run(j).src in AggOf(m, w)
    decreases j - k
  {
    hide Trace, AggOf;
    WindowWalk(m.rel, run, 0, j);
    if k < j {
      SettledTrace(m, run, w, k, j - 1);
      TraceSnoc(m, run, j);
    }
    TracedIsGathered(m, run(0).src, Window(run, 0, j), run(j).src);
  }

  /** An infinite run inside a finite set of states closes a cycle there. */
  lemma RunCloses<S(!new)>(g: Rel<S>, tail: Run<S>, xs: set<S>) returns (c: S)
    requires IsRun(g, tail) && forall j: nat {:trigger tail(j)} :: tail(j).src in xs
    ensures NonEmptyWalk(g, c, c)
  {
    var srcs: nat -> S := (j: nat) => tail(j).src;
    c := InfinitePigeonhole(xs, srcs, 0);
    assert OccursFrom(srcs, c, 0);
    var a: nat :| srcs(a) == c;
    assert OccursFrom(srcs, c, a + 1);
    var b: nat :| a + 1 <= b && srcs(b) == c;
    WindowWalk(g, tail, a, b);
  }

  lemma SettledStep<S(!new)>(m: Model<S>, run: Run<S>, w: seq<nat>, k: nat, j: nat)
    requires SettlesAfter(m, run, w, k) && k <= j
    ensures run(j).src in AggOf(m, w) && run(j).dst == run(j + 1).src
    ensures run(j) in Inside(m.rel, m.lab, AggOf(m, w), {w[|w| - 1]})
  {
    SettledTrace(m, run, w, k, j);
    SettledTrace(m, run, w, k, j + 1);
    assert RunStep(m.rel, run, j);
    assert m.lab(run(j + 1).src) == w[|w| - 1];
  }

  lemma SettledDiverges<S(!new)>(m: Model<S>, run: Run<S>, w: seq<nat>, k: nat)
    requires SettlesAfter(m, run, w, k)
    ensures NodeOf(m, w).div
  {
    hide NodeOf, AggOf, Entry, Divergent, Inside;
    var agg := AggOf(m, w);
    var g := Inside(m.rel, m.lab, agg, {w[|w| - 1]});
    var tail: Run<S> := (j: nat) => run(k + j);
    forall j: nat ensures RunStep(g, tail, j) && tail(j).src in agg {
      SettledStep(m, run, w, k, k + j);
      SettledStep(m, run, w, k, k + j + 1);
    }
    var c := RunCloses(g, tail, agg);
    DivergesIffCycle(m.rel, m.lab, agg, {w[|w| - 1]});
    AggLabels(m, w);
  }

  /** The aggregate of a word offers the divergence successor exactly when some run of the model reads
      the word and then keeps its last valuation for ever. */
  lemma DivergenceIff<S(!new)>(m: Model<S>, w: seq<nat>)
    requires w != []
    ensures Div(w[|w| - 1]) in Successors(m, NodeOf(m, w)) <==> CanSettle(m, w)
  {
    StateOfCond(m, Entry(m, w), w[|w| - 1]);
    DivSuccessor(m, NodeOf(m, w), w[|w| - 1]);
    if NodeOf(m, w).div {
      DivergentSettles(m, w);
    }
    if CanSettle(m, w) {
      var run: Run<S>, k: nat :| SettlesAfter(m, run, w, k);
      SettledDiverges(m, run, w, k);
    }
  }

  // ---------------------------------------------------------------- infinite words

  type Omega = nat -> nat

  ghost function Slice(om: Omega, i: nat, j: nat): (w: seq<nat>)
    requires i <= j
    ensures |w| == j - i && forall k :: 0 <= k < j - i ==> w[k] == om(i + k)
  {
    seq(j - i, k requires 0 <= k < j - i => om(i + k))
  }

  /** An infinite path of the graph through aggregates with valuations `om(0), om(1), ...` */
  ghost predicate ObsOmegaPath<S(!new)>(m: Model<S>, om: Omega, nodes: nat -> SogState<S>) {
    && IsInitState(m, nodes(0)) && nodes(0).cond == om(0)
    && forall k: nat :: ObsOmegaStep(m, om, nodes, k)
  }

  ghost predicate ObsOmegaStep<S(!new)>(m: Model<S>, om: Omega, nodes: nat -> SogState<S>, k: nat) {
    nodes(k + 1).cond == om(k + 1) && Agg(nodes(k + 1)) in Successors(m, nodes(k))
  }

  ghost predicate ObsOmega<S(!new)>(m: Model<S>, om: Omega) {
    exists nodes: nat -> SogState<S> :: ObsOmegaPath(m, om, nodes)
  }

  ghost predicate Changes(om: Omega, i: nat) {
    om(i) != om(i + 1)
  }

  ghost predicate Stutterless(om: Omega) {
    forall i: nat :: Changes(om, i)
  }

  /** Between positions `p(i)` and `p(i+1)` the run keeps valuation `om(i)`. */
  ghost predicate BlockAt<S(!new)>(m: Model<S>, om: Omega, run: Run<S>, p: nat -> nat, i: nat) {
    p(i) < p(i + 1) && forall j: nat {:trigger run(j)} :: p(i) <= j < p(i + 1) ==> m.lab(run(j).src) == om(i)
  }

  /** `om` is the stutter-reduced label word of an infinite run that never settles. */
  ghost predicate ReadsOmega<S(!new)>(m: Model<S>, om: Omega, run: Run<S>, p: nat -> nat) {
    && RunFromInit(m, run) && p(0) == 0
    && (forall i: nat :: BlockAt(m, om, run, p, i))
    && Stutterless(om)
  }

  ghost predicate ModelOmega<S(!new)>(m: Model<S>, om: Omega) {
    exists run: Run<S>, p: nat -> nat :: ReadsOmega(m, om, run, p)
  }

  // ---------------------------------------------------------------- traces in pieces

  lemma ExtendConcat(b: seq<nat>, c: seq<nat>, v: nat)
    requires b != [] && c != [] && b[|b| - 1] == c[0]
    ensures Extend(b + c[1..], v) == b + Extend(c, v)[1..]
  {
    var a := b + c[1..];
    assert a[|a| - 1] == c[|c| - 1];
  }

  lemma TraceUnsnoc<S(!new)>(g: Rel<S>, lab: S -> nat, x: S, es: seq<Edge<S, ()>>, y: S) returns (e: Edge<S, ()>)
    requires es != [] && Walk(g, x, es, y)
    ensures e in g && e == es[|es| - 1] && e.dst == y && Walk(g, x, es[..|es| - 1], e.src)
    ensures Trace(lab, x, es) == Extend(Trace(lab, x, es[..|es| - 1]), lab(y))
  {
    e := WalkUnsnoc(g, x, es, y);
  }

  lemma {:induction false} TraceConcat<S(!new)>(g: Rel<S>, lab: S -> nat, x: S, es: seq<Edge<S, ()>>, u: S, fs: seq<Edge<S, ()>>, y: S)
    requires Walk(g, x, es, u) && Walk(g, u, fs, y)
    ensures Trace(lab, x, es + fs) == Trace(lab, x, es) + Trace(lab, u, fs)[1..]
    decreases |fs|
  {
    if fs == [] {
      assert es + fs == es;
    } else {
      TraceConcatStep(g, lab, x, es, u, fs, y);
    }
  }

  lemma {:induction false} TraceConcatStep<S(!new)>(g: Rel<S>, lab: S -> nat, x: S, es: seq<Edge<S, ()>>, u: S, fs: seq<Edge<S, ()>>, y: S)
    requires fs != [] && Walk(g, x, es, u) && Walk(g, u, fs, y)
    ensures Trace(lab, x, es + fs) == Trace(lab, x, es) + Trace(lab, u, fs)[1..]
    decreases |fs|, 0
  {
    hide Trace, Walk;
    var e := TraceUnsnoc(g, lab, u, fs, y);
    var fs' := fs[..|fs| - 1];
    TraceConcat(g, lab, x, es, u, fs', e.src);
    TraceStep(lab, x, es + fs', e);
    assert es + fs == (es + fs') + [e];
    EndsAt(g, lab, x, es, u);
    TraceFirst(lab, u, fs');
    ExtendConcat(Trace(lab, x, es), Trace(lab, u, fs'), lab(y));
  }

  lemma EndsAt<S(!new)>(g: Rel<S>, lab: S -> nat, x: S, es: seq<Edge<S, ()>>, u: S)
    requires Walk(g, x, es, u)
    ensures var w := Trace(lab, x, es); w[|w| - 1] == lab(u)
  {
    WalkEnd(g, x, es, u);
    TraceLast(lab, x, es);
  }

  /** The first time a walk reaches a given length of its trace. */
  lemma {:induction false} TraceCut<S(!new)>(g: Rel<S>, lab: S -> nat, x: S, es: seq<Edge<S, ()>>, y: S, l: nat) returns (k: nat)
    requires Walk(g, x, es, y) && 2 <= l <= |Trace(lab, x, es)|
    ensures 1 <= k <= |es|
    ensures Trace(lab, x, es[..k]) == Trace(lab, x, es)[..l]
    ensures Trace(lab, x, es[..k - 1]) == Trace(lab, x, es)[..l - 1]
    decreases |es|
  {
    assert es != [];
    k := TraceCutStep(g, lab, x, es, y, l);
  }

  lemma {:induction false} TraceCutStep<S(!new)>(g: Rel<S>, lab: S -> nat, x: S, es: seq<Edge<S, ()>>, y: S, l: nat) returns (k: nat)
    requires es != [] && Walk(g, x, es, y) && 2 <= l <= |Trace(lab, x, es)|
    ensures 1 <= k <= |es|
    ensures Trace(lab, x, es[..k]) == Trace(lab, x, es)[..l]
    ensures Trace(lab, x, es[..k - 1]) == Trace(lab, x, es)[..l - 1]
    decreases |es|, 0
  {
    hide Trace, Walk;
    var w := Trace(lab, x, es);
    var e := TraceUnsnoc(g, lab, x, es, y);
    var es' := es[..|es| - 1];
    var w' := Trace(lab, x, es');
    if w == w' || l < |w| {
      k := TraceCut(g, lab, x, es', e.src, l);
      assert es'[..k] == es[..k] && es'[..k - 1] == es[..k - 1];
    } else {
      k := |es|;
      assert es[..k] == es;
    }
  }

  /** A walk whose trace is one valuation keeps it in every state. */
  lemma {:induction false} ConstantTrace<S(!new)>(g: Rel<S>, lab: S -> nat, x: S, es: seq<Edge<S, ()>>, y: S, v: nat)
    requires Walk(g, x, es, y) && Trace(lab, x, es) == [v]
    ensures lab(x) == v && lab(y) == v && forall j :: 0 <= j < |es| ==> lab(es[j].src) == v
    decreases |es|
  {
    TraceFirst(lab, x, es);
    if es != [] {
      var e := WalkUnsnoc(g, x, es, y);
      ConstantTrace(g, lab, x, es[..|es| - 1], e.src, v);
    }
  }

  // ---------------------------------------------------------------- choosing an infinite run

  ghost predicate Served<S(!new)>(xs: set<S>, p: (S, nat) -> bool, n: nat) {
    exists x :: x in xs && p(x, n)
  }

  /** Koenig's choice: if every depth is served by some element of a finite set, and depth is
      downward closed, one element serves every depth. */
  lemma {:induction false} FiniteChoice<S(!new)>(xs: set<S>, p: (S, nat) -> bool) returns (x: S)
    requires forall n: nat :: Served(xs, p, n)
    requires forall x, n: nat, k: nat :: p(x, n) && k <= n ==> p(x, k)
    ensures x in xs && forall n: nat :: p(x, n)
    decreases xs
  {
    assert Served(xs, p, 0);
    var y :| y in xs && p(y, 0);
    if n0: nat :| !p(y, n0) {
      forall n: nat ensures Served(xs - {y}, p, n) {
        var d := if n < n0 then n0 else n;
        assert Served(xs, p, d);
        var x :| x in xs && p(x, d);
        assert p(x, n) && x in xs - {y};
      }
      x := FiniteChoice(xs - {y}, p);
    } else {
      x := y;
    }
  }

  /** From `s` the valuations `om(i), ..., om(i+d)` can be read. */
  ghost predicate Ext<S(!new)>(m: Model<S>, om: Omega, i: nat, s: S, d: nat) {
    exists es, t :: Walk(m.rel, s, es, t) && Trace(m.lab, s, es) == Slice(om, i, i + d + 1)
  }

  ghost predicate Live<S(!new)>(m: Model<S>, om: Omega, i: nat, s: S) {
    forall d: nat :: Ext(m, om, i, s, d)
  }

  lemma ExtDown<S(!new)>(m: Model<S>, om: Omega, i: nat, s: S, d: nat, c: nat)
    requires Ext(m, om, i, s, d) && c <= d
    ensures Ext(m, om, i, s, c)
  {
    var es, t :| Walk(m.rel, s, es, t) && Trace(m.lab, s, es) == Slice(om, i, i + d + 1);
    if c < d {
      var k := TraceCut(m.rel, m.lab, s, es, t, c + 2);
      var u := WalkSplit(m.rel, s, es, t, k - 1);
      assert Slice(om, i, i + d + 1)[..c + 1] == Slice(om, i, i + c + 1);
    }
  }

  /** A walk from `s` that keeps `om(i)` and ends by entering a state from which the rest of `om` can be read. */
  ghost predicate Hop<S(!new)>(m: Model<S>, om: Omega, i: nat, s: S, es: seq<Edge<S, ()>>) {
    && es != [] && Walk(m.rel, s, es, es[|es| - 1].dst)
    && (forall j :: 0 <= j < |es| ==> m.lab(es[j].src) == om(i))
    && Live(m, om, i + 1, es[|es| - 1].dst)
  }

  /** `u` is entered from `s` by such a walk. */
  ghost predicate HopTo<S(!new)>(m: Model<S>, om: Omega, i: nat, s: S, u: S) {
    exists es: seq<Edge<S, ()>> :: es != [] && Walk(m.rel, s, es, u) && forall j :: 0 <= j < |es| ==> m.lab(es[j].src) == om(i)
  }

  ghost predicate HopExt<S(!new)>(m: Model<S>, om: Omega, i: nat, s: S, u: S, d: nat) {
    HopTo(m, om, i, s, u) && Ext(m, om, i + 1, u, d)
  }

  lemma ExtHop<S(!new)>(m: Model<S>, om: Omega, i: nat, s: S, d: nat) returns (u: S)
    requires Ext(m, om, i, s, d + 1)
    ensures u in Targets(m.rel) && HopExt(m, om, i, s, u, d)
  {
    hide Trace, Walk;
    var es, t :| Walk(m.rel, s, es, t) && Trace(m.lab, s, es) == Slice(om, i, i + d + 2);
    var w := Slice(om, i, i + d + 2);
    var k := TraceCut(m.rel, m.lab, s, es, t, 2);
    u := WalkSplit(m.rel, s, es, t, k);
    assert es[..k][..k - 1] == es[..k - 1] && w[..1] == [om(i)];
    HopPart(m, om, i, s, es[..k], u);
    RestPart(m.rel, m.lab, s, es, t, k, u);
    assert Trace(m.lab, u, es[k..]) == Slice(om, i + 1, i + 1 + d + 1);
  }

  lemma HopPart<S(!new)>(m: Model<S>, om: Omega, i: nat, s: S, pre: seq<Edge<S, ()>>, u: S)
    requires pre != [] && Walk(m.rel, s, pre, u) && Trace(m.lab, s, pre[..|pre| - 1]) == [om(i)]
    ensures u in Targets(m.rel) && HopTo(m, om, i, s, u)
  {
    hide Trace, Walk;
    var k := |pre|;
    var e := WalkUnsnoc(m.rel, s, pre, u);
    ConstantTrace(m.rel, m.lab, s, pre[..k - 1], e.src, om(i));
    WalkEnd(m.rel, s, pre, u);
    forall j | 0 <= j < k ensures m.lab(pre[j].src) == om(i) {
      if j < k - 1 { assert pre[..k - 1][j] == pre[j]; }
    }
  }

  /** What follows the first valuation change reads the trace from there. */
  lemma RestPart<S(!new)>(g: Rel<S>, lab: S -> nat, s: S, es: seq<Edge<S, ()>>, t: S, k: nat, u: S)
    requires k <= |es| && Walk(g, s, es[..k], u) && Walk(g, u, es[k..], t)
    requires |Trace(lab, s, es)| >= 2 && Trace(lab, s, es[..k]) == Trace(lab, s, es)[..2]
    ensures Trace(lab, u, es[k..]) == Trace(lab, s, es)[1..]
  {
    hide Trace, Walk;
    var w, rest := Trace(lab, s, es), Trace(lab, u, es[k..]);
    assert es == es[..k] + es[k..];
    TraceConcat(g, lab, s, es[..k], u, es[k..], t);
    assert w == w[..2] + rest[1..];
    TraceFirst(lab, u, es[k..]);
    EndsAt(g, lab, s, es[..k], u);
    assert w[1] == rest[0];
    assert w[1..] == [w[1]] + rest[1..];
  }

  lemma HopMeets<S(!new)>(m: Model<S>, om: Omega, i: nat, s: S, u: S)
    requires HopTo(m, om, i, s, u) && Live(m, om, i + 1, u)
    ensures exists es :: Hop(m, om, i, s, es)
  {
    var es: seq<Edge<S, ()>> :| es != [] && Walk(m.rel, s, es, u) && forall j :: 0 <= j < |es| ==> m.lab(es[j].src) == om(i);
    WalkEnd(m.rel, s, es, u);
    assert Hop(m, om, i, s, es);
  }

  lemma LiveHops<S(!new)>(m: Model<S>, om: Omega, i: nat, s: S)
    requires Live(m, om, i, s)
    ensures exists es :: Hop(m, om, i, s, es)
  {
    hide Ext, HopTo;
    var p := (u: S, d: nat) => HopExt(m, om, i, s, u, d);
    forall d: nat ensures Served(Targets(m.rel), p, d) {
      assert Ext(m, om, i, s, d + 1);
      var u := ExtHop(m, om, i, s, d);
      assert p(u, d);
    }
    forall u, d: nat, c: nat | p(u, d) && c <= d ensures p(u, c) {
      ExtDown(m, om, i + 1, u, d, c);
    }
    var u := FiniteChoice(Targets(m.rel), p);
    var i1 := i + 1;
    assert Live(m, om, i1, u) by {
      forall d: nat ensures Ext(m, om, i1, u, d) {
        assert p(u, d);
      }
    }
    assert p(u, 0);
    HopMeets(m, om, i, s, u);
  }

  ghost function ChooseHop<S(!new)>(m: Model<S>, om: Omega, i: nat, s: S): (es: seq<Edge<S, ()>>)
    requires Live(m, om, i, s)
    ensures Hop(m, om, i, s, es)
  {
    LiveHops(m, om, i, s);
    var es :| Hop(m, om, i, s, es);
    es
  }

  /** Where the constructed run stands: in block `level`, with `es` still to walk. */
  datatype Conf<S> = Conf(level: nat, es: seq<Edge<S, ()>>)

  ghost predicate GoodConf<S(!new)>(m: Model<S>, om: Omega, c: Conf<S>) {
    c.es != [] && Hop(m, om, c.level, c.es[0].src, c.es)
  }

  ghost function NextConf<S(!new)>(m: Model<S>, om: Omega, c: Conf<S>): (d: Conf<S>)
    requires GoodConf(m, om, c)
    ensures GoodConf(m, om, d) && c.es != [] && d.es != [] && c.es[0] in m.rel && c.es[0].dst == d.es[0].src
    ensures |c.es| > 1 ==> d == Conf(c.level, c.es[1..])
    ensures |c.es| == 1 ==> d.level == c.level + 1
  {
    HopTail(m, om, c.level, c.es);
    if |c.es| > 1 then Conf(c.level, c.es[1..])
    else Conf(c.level + 1, ChooseHop(m, om, c.level + 1, c.es[0].dst))
  }

  lemma HopTail<S(!new)>(m: Model<S>, om: Omega, i: nat, es: seq<Edge<S, ()>>)
    requires es != [] && Hop(m, om, i, es[0].src, es)
    ensures es[0] in m.rel
    ensures |es| > 1 ==> es[1].src == es[0].dst && Hop(m, om, i, es[1].src, es[1..])
    ensures |es| == 1 ==> Live(m, om, i + 1, es[0].dst)
  {
    hide Live;
    WalkSteps(m.rel, es[0].src, es, es[|es| - 1].dst, 0);
  }

  lemma HopStarts<S(!new)>(m: Model<S>, om: Omega, i: nat, s: S, es: seq<Edge<S, ()>>)
    requires Hop(m, om, i, s, es)
    ensures es[0].src == s
  {
  }

  ghost function ConfAt<S(!new)>(m: Model<S>, om: Omega, s: S, k: nat): (c: Conf<S>)
    requires Live(m, om, 0, s)
    ensures GoodConf(m, om, c) && c.es != []
  {
    if k == 0 then Conf(0, ChooseHop(m, om, 0, s)) else NextConf(m, om, ConfAt(m, om, s, k - 1))
  }

  ghost function BlockStart<S(!new)>(m: Model<S>, om: Omega, s: S, i: nat): nat
    requires Live(m, om, 0, s)
  {
    if i == 0 then 0
    else var k := BlockStart(m, om, s, i - 1); k + |ConfAt(m, om, s, k).es|
  }

  lemma {:induction false} WithinBlock<S(!new)>(m: Model<S>, om: Omega, s: S, k: nat, j: nat)
    requires Live(m, om, 0, s) && j < |ConfAt(m, om, s, k).es|
    ensures ConfAt(m, om, s, k + j) == Conf(ConfAt(m, om, s, k).level, ConfAt(m, om, s, k).es[j..])
  {
    hide GoodConf, NextConf, Live;
    var c := ConfAt(m, om, s, k);
    if j == 0 {
      assert c.es[0..] == c.es;
    } else {
      WithinBlock(m, om, s, k, j - 1);
      assert c.es[j - 1..][1..] == c.es[j..];
      assert ConfAt(m, om, s, k + j) == NextConf(m, om, ConfAt(m, om, s, k + j - 1));
    }
  }

  lemma NextBlock<S(!new)>(m: Model<S>, om: Omega, s: S, k: nat)
    requires Live(m, om, 0, s)
    ensures ConfAt(m, om, s, k + |ConfAt(m, om, s, k).es|).level == ConfAt(m, om, s, k).level + 1
  {
    hide GoodConf, NextConf, Live;
    var n := |ConfAt(m, om, s, k).es|;
    WithinBlock(m, om, s, k, n - 1);
    assert ConfAt(m, om, s, k + n) == NextConf(m, om, ConfAt(m, om, s, k + n - 1));
  }

  lemma {:induction false} BlockLevel<S(!new)>(m: Model<S>, om: Omega, s: S, i: nat)
    requires Live(m, om, 0, s)
    ensures ConfAt(m, om, s, BlockStart(m, om, s, i)).level == i
  {
    hide GoodConf, NextConf, Live, ConfAt;
    if i > 0 {
      BlockLevel(m, om, s, i - 1);
      NextBlock(m, om, s, BlockStart(m, om, s, i - 1));
    } else {
      ConfAtStart(m, om, s);
    }
  }

  lemma ConfAtStart<S(!new)>(m: Model<S>, om: Omega, s: S)
    requires Live(m, om, 0, s)
    ensures ConfAt(m, om, s, 0).level == 0 && ConfAt(m, om, s, 0).es[0].src == s
  {
    HopStarts(m, om, 0, s, ConfAt(m, om, s, 0).es);
  }

  ghost function ConfRun<S(!new)>(m: Model<S>, om: Omega, s: S): Run<S>
    requires Live(m, om, 0, s)
  {
    (k: nat) => ConfAt(m, om, s, k).es[0]
  }

  lemma ConfRunStep<S(!new)>(m: Model<S>, om: Omega, s: S, k: nat)
    requires Live(m, om, 0, s)
    ensures RunStep(m.rel, ConfRun(m, om, s), k)
  {
    hide GoodConf, NextConf, Live;
    assert ConfAt(m, om, s, k + 1) == NextConf(m, om, ConfAt(m, om, s, k));
  }

  lemma ConfRunBlock<S(!new)>(m: Model<S>, om: Omega, s: S, i: nat, j: nat)
    requires Live(m, om, 0, s) && BlockStart(m, om, s, i) <= j < BlockStart(m, om, s, i + 1)
    ensures m.lab(ConfRun(m, om, s)(j).src) == om(i)
  {
    hide ConfAt, Live, NextConf;
    var k := BlockStart(m, om, s, i);
    BlockLevel(m, om, s, i);
    WithinBlock(m, om, s, k, j - k);
    assert GoodConf(m, om, ConfAt(m, om, s, j));
  }

  lemma LiveGivesRun<S(!new)>(m: Model<S>, om: Omega, s: S)
    requires s in m.init && Live(m, om, 0, s)
    requires Stutterless(om)
    ensures ModelOmega(m, om)
  {
    hide ConfAt, Live, GoodConf, RunStep, Changes;
    var run := ConfRun(m, om, s);
    var p: nat -> nat := (i: nat) => BlockStart(m, om, s, i);
    forall k: nat ensures RunStep(m.rel, run, k) {
      ConfRunStep(m, om, s, k);
    }
    ConfAtStart(m, om, s);
    forall i: nat ensures BlockAt(m, om, run, p, i) {
      forall j: nat | p(i) <= j < p(i + 1) ensures m.lab(run(j).src) == om(i) {
        ConfRunBlock(m, om, s, i, j);
      }
    }
    assert ReadsOmega(m, om, run, p);
  }

  // ---------------------------------------------------------------- the two directions

  lemma {:induction false} OmegaPrefix<S(!new)>(m: Model<S>, om: Omega, nodes: nat -> SogState<S>, n: nat)
    requires ObsOmegaPath(m, om, nodes)
    ensures nodes(n) == NodeOf(m, Slice(om, 0, n + 1)) && nodes(n).states != {}
    ensures n > 0 ==> om(n - 1) != om(n)
  {
    hide StateOf, Successors, AggsFrom;
    var w := Slice(om, 0, n + 1);
    if n == 0 {
      var s :| s in m.init && m.lab(s) == om(0);
      SaturateFacts(m, m.init, om(0));
      StateOfCond(m, m.init, om(0));
    } else {
      OmegaPrefix(m, om, nodes, n - 1);
      assert ObsOmegaStep(m, om, nodes, n - 1);
      AggSuccessor(m, nodes(n - 1), nodes(n));
      assert w[..n] == Slice(om, 0, n);
      assert Entry(m, w) == nodes(n - 1).succ;
      FollowsDiffers(m, w);
    }
  }

  lemma FollowsDiffers<S(!new)>(m: Model<S>, w: seq<nat>)
    requires |w| > 1 && AggOf(m, w) != {}
    ensures w[|w| - 2] != w[|w| - 1]
  {
    AggIs(m, w);
    var y :| y in AggOf(m, w);
    var s :| s in Select(m.lab, Entry(m, w), {w[|w| - 1]}) && Reach(GuardDst(m.rel, m.lab, {w[|w| - 1]}), s, y);
  }

  lemma ObsOmegaIsReal<S(!new)>(m: Model<S>, om: Omega)
    requires ObsOmega(m, om)
    ensures ModelOmega(m, om) && LeastLabel(m, om(0))
  {
    var nodes: nat -> SogState<S> :| ObsOmegaPath(m, om, nodes);
    var p := (x: S, d: nat) => x in m.init && Ext(m, om, 0, x, d);
    forall d: nat ensures Served(m.init, p, d) {
      OmegaPrefix(m, om, nodes, d);
      var w := Slice(om, 0, d + 1);
      var y :| y in nodes(d).states;
      AggregateMeaning(m, w, y);
      var x, es :| x in m.init && Walk(m.rel, x, es, y) && Trace(m.lab, x, es) == w;
      assert p(x, d);
    }
    forall x, d: nat, c: nat | p(x, d) && c <= d ensures p(x, c) {
      ExtDown(m, om, 0, x, d, c);
    }
    var s := FiniteChoice(m.init, p);
    forall d: nat ensures Ext(m, om, 0, s, d) {
      assert p(s, d);
    }
    forall i: nat ensures Changes(om, i) {
      OmegaPrefix(m, om, nodes, i + 1);
    }
    LiveGivesRun(m, om, s);
  }

  lemma TraceSnoc<S(!new)>(m: Model<S>, run: Run<S>, j: nat)
    requires IsRun(m.rel, run) && j > 0
    ensures Trace(m.lab, run(0).src, Window(run, 0, j)) ==
      Extend(Trace(m.lab, run(0).src, Window(run, 0, j - 1)), m.lab(run(j).src))
  {
    assert RunStep(m.rel, run, j - 1);
    assert Window(run, 0, j) == Window(run, 0, j - 1) + [run(j - 1)];
    TraceStep(m.lab, run(0).src, Window(run, 0, j - 1), run(j - 1));
  }

  /** Inside block `i` the run has read the first `i + 1` valuations. */
  lemma {:induction false} BlockTrace<S(!new)>(m: Model<S>, om: Omega, run: Run<S>, p: nat -> nat, i: nat, j: nat)
    requires ReadsOmega(m, om, run, p) && p(i) <= j < p(i + 1)
    ensures Trace(m.lab, run(0).src, Window(run, 0, j)) == Slice(om, 0, i + 1)
    decreases j
  {
    hide Trace, IsRun;
    assert BlockAt(m, om, run, p, i);
    assert m.lab(run(j).src) == om(i);
    if j == 0 {
      BlocksGrow(m, om, run, p, i);
      assert Window(run, 0, 0) == [];
      assert Trace(m.lab, run(0).src, []) == [om(0)] by { TraceEmpty(m.lab, run(0).src); }
    } else {
      TraceSnoc(m, run, j);
      if p(i) < j {
        BlockTrace(m, om, run, p, i, j - 1);
      } else {
        assert BlockAt(m, om, run, p, i - 1);
        BlockTrace(m, om, run, p, i - 1, j - 1);
        assert Changes(om, i - 1);
      }
    }
  }

  lemma TraceEmpty<S(!new)>(lab: S -> nat, x: S)
    ensures Trace(lab, x, []) == [lab(x)]
  {
  }

  lemma {:induction false} BlocksGrow<S(!new)>(m: Model<S>, om: Omega, run: Run<S>, p: nat -> nat, i: nat)
    requires ReadsOmega(m, om, run, p)
    ensures p(i) >= i
  {
    if i > 0 {
      BlocksGrow(m, om, run, p, i - 1);
      assert BlockAt(m, om, run, p, i - 1);
    }
  }

  lemma RealOmegaIsObserved<S(!new)>(m: Model<S>, om: Omega)
    requires Labelled(m) && ModelOmega(m, om) && LeastLabel(m, om(0))
    ensures ObsOmega(m, om)
  {
    hide NodeOf, StateOf, Successors, AggsFrom, ReadsOmega, Slice;
    var run: Run<S>, p: nat -> nat :| ReadsOmega(m, om, run, p);
    var nodes: nat -> SogState<S> := (k: nat) => NodeOf(m, Slice(om, 0, k + 1));
    forall k: nat ensures ObsOmegaStep(m, om, nodes, k) {
      OmegaNode(m, om, run, p, k + 1);
    }
    OmegaNode(m, om, run, p, 0);
    assert ObsOmegaPath(m, om, nodes);
  }

  lemma OmegaNode<S(!new)>(m: Model<S>, om: Omega, run: Run<S>, p: nat -> nat, k: nat)
    requires Labelled(m) && ReadsOmega(m, om, run, p)
    ensures var w := Slice(om, 0, k + 1);
            NodeOf(m, w).cond == om(k) &&
            (k == 0 ==> NodeOf(m, w) == StateOf(m, m.init, om(0))) &&
            (k > 0 ==> Agg(NodeOf(m, w)) in Successors(m, NodeOf(m, Slice(om, 0, k))))
  {
    hide StateOf, Successors, AggsFrom;
    var w := Slice(om, 0, k + 1);
    StateOfCond(m, Entry(m, w), om(k));
    assert BlockAt(m, om, run, p, k);
    BlockTrace(m, om, run, p, k, p(k));
    WindowWalk(m.rel, run, 0, p(k));
    TracedIsGathered(m, run(0).src, Window(run, 0, p(k)), run(p(k)).src);
    if k > 0 {
      var u := Slice(om, 0, k);
      assert w[..k] == u;
      assert Entry(m, w) == NodeOf(m, u).succ;
      assert m.lab(run(p(k)).src) < Pow2(m.size);
      AggSuccessor(m, NodeOf(m, u), NodeOf(m, w));
    }
  }

  /** An infinite word labels the graph exactly when it is the reduced word of an infinite run of the
      model that starts with the valuation the graph starts with. */
  lemma ObsOmegaIff<S(!new)>(m: Model<S>, om: Omega)
    requires Labelled(m)
    ensures ObsOmega(m, om) <==> ModelOmega(m, om) && LeastLabel(m, om(0))
  {
    if ObsOmega(m, om) {
      ObsOmegaIsReal(m, om);
    }
    if ModelOmega(m, om) && LeastLabel(m, om(0)) {
      RealOmegaIsObserved(m, om);
    }
  }
}
