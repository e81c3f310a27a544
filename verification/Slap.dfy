/** The symbolic local observation graph product (LTL/src/slap.cpp, NOFS mode).

    A node pairs an automaton state with an aggregate of model states; following an arc also absorbs
    the model steps that the target's weaker self-loops can read. Main result: the product has a
    reachable accepting cycle exactly when the model has an infinite run that the automaton accepts,
    with or without the shortcut that drops self-loops carrying no mark. */
module Slap {
  import opened Graphs
  import opened Buchi
  import opened Automata
  import opened SogIts

  /** An automaton with `n` acceptance marks and the model it is checked on. */
  datatype Problem<!S(==), V(==)> =
    Problem(arcs: set<Arc<V>>, q0: int, n: nat, rel: Rel<S>, init: set<S>, lab: S -> V)

  datatype Node<S(==)> = Node(q: int, xs: set<S>)

  /** Valuations read by some self-loop of `q` whose marks are among `ac`. */
  ghost function SelfLoops<V(!new)>(arcs: set<Arc<V>>, q: int, ac: set<nat>): set<V> {
    set a, v | a in arcs && a.src == q && a.dst == q && a.lab.acc <= ac && v in a.lab.cond :: v
  }

  /** Model steps that self-loops of `q` weaker than `ac` read. */
  ghost function Absorbed<S(!new), V(!new)>(m: Problem<S, V>, q: int, ac: set<nat>): Rel<S> {
    GuardSrc(m.rel, m.lab, SelfLoops(m.arcs, q, ac))
  }

  /** The aggregate reached through arc `a`. */
  ghost function Dest<S(!new), V(!new)>(m: Problem<S, V>, xs: set<S>, a: Arc<V>): set<S> {
    ReachSet(Absorbed(m, a.dst, a.lab.acc), SuccSatisfying(m.rel, m.lab, xs, a.lab.cond))
  }

  ghost function InitAbsorbed<S(!new), V(!new)>(m: Problem<S, V>): Rel<S> {
    if m.n > 0 then Absorbed(m, m.q0, {}) else GuardSrc(m.rel, m.lab, {})
  }

  ghost function InitNode<S(!new), V(!new)>(m: Problem<S, V>): Node<S> {
    Node(m.q0, ReachSet(InitAbsorbed(m), m.init))
  }

  /** Self-loops without marks, dropped by the shortcut when there is at least one mark. */
  predicate Dropped<V(==)>(skip: bool, n: nat, a: Arc<V>) {
    skip && n > 0 && a.lab.acc == {} && a.src == a.dst
  }

  ghost function Universe<S, V>(m: Problem<S, V>): set<S> {
    m.init + Targets(m.rel)
  }

  ghost predicate Fires<S(!new), V(!new)>(m: Problem<S, V>, skip: bool, xs: set<S>, a: Arc<V>) {
    a in m.arcs && !Dropped(skip, m.n, a) && Dest(m, xs, a) != {}
  }

  /** The product graph; `skip = false` is the iterator as written. */
  ghost function SlapGraph<S(!new), V(!new)>(m: Problem<S, V>, skip: bool): set<Marked<Node<S>>> {
    set a, xs | a in m.arcs && xs <= Universe(m) && Fires(m, skip, xs, a) ::
      Edge(Node(a.src, xs), a.lab.acc, Node(a.dst, Dest(m, xs, a)))
  }

  ghost predicate SlapNonEmpty<S(!new), V(!new)>(m: Problem<S, V>, skip: bool) {
    NonEmpty(SlapGraph(m, skip), Below(m.n), {InitNode(m)})
  }

  ghost function Plain<S(!new), V(!new)>(m: Problem<S, V>): set<Marked<(int, S)>> {
    Product(m.arcs, m.rel, m.lab)
  }

  // ---------------------------------------------------------------- an aggregate hides only real steps

  lemma SelfLoopEdge<S(!new), V(!new)>(m: Problem<S, V>, q: int, ac: set<nat>, t: Edge<S, ()>) returns (e: Marked<(int, S)>)
    requires t in Absorbed(m, q, ac)
    ensures e in Plain(m) && e.src == (q, t.src) && e.dst == (q, t.dst)
  {
    var a, v :| a in m.arcs && a.src == q && a.dst == q && a.lab.acc <= ac && v in a.lab.cond && v == m.lab(t.src);
    match t.lab case () =>
    EdgeOfProduct(m.arcs, m.rel, m.lab, a, t.src, t.dst);
    e := Edge((q, t.src), a.lab.acc, (q, t.dst));
  }

  lemma {:induction false} SaturationWalk<S(!new), V(!new)>(m: Problem<S, V>, q: int, ac: set<nat>, y: S,
                                                            es: seq<Edge<S, ()>>, s: S) returns (fs: seq<Marked<(int, S)>>)
    requires Walk(Absorbed(m, q, ac), y, es, s)
    ensures Walk(Plain(m), (q, y), fs, (q, s))
  {
    if es == [] {
      fs := [];
    } else {
      var rest := SaturationWalk(m, q, ac, es[0].dst, es[1..], s);
      var e := SelfLoopEdge(m, q, ac, es[0]);
      fs := [e] + rest;
      assert fs[1..] == rest;
    }
  }

  /** Every state of the target aggregate is reached from a state of the source aggregate by a walk
      that carries the arc's marks. */
  lemma BackArc<S(!new), V(!new)>(m: Problem<S, V>, a: Arc<V>, xs: set<S>, t: S) returns (s: S, fs: seq<Marked<(int, S)>>)
    requires a in m.arcs && t in Dest(m, xs, a)
    ensures s in xs && fs != [] && Walk(Plain(m), (a.src, s), fs, (a.dst, t)) && a.lab.acc <= Marks(fs)
  {
    var y :| y in SuccSatisfying(m.rel, m.lab, xs, a.lab.cond) && Reach(Absorbed(m, a.dst, a.lab.acc), y, t);
    var p := PostHas(m.rel, Select(m.lab, xs, a.lab.cond), y);
    s := p.src;
    match p.lab case () =>
    EdgeOfProduct(m.arcs, m.rel, m.lab, a, s, y);
    var e := Edge((a.src, s), a.lab.acc, (a.dst, y));
    var es :| Walk(Absorbed(m, a.dst, a.lab.acc), y, es, t);
    var rest := SaturationWalk(m, a.dst, a.lab.acc, y, es, t);
    fs := [e] + rest;
    assert fs[1..] == rest;
  }

  lemma SlapEdge<S(!new), V(!new)>(m: Problem<S, V>, skip: bool, e: Marked<Node<S>>) returns (a: Arc<V>)
    requires e in SlapGraph(m, skip)
    ensures Fires(m, skip, e.src.xs, a) && e.src.q == a.src && e.lab == a.lab.acc
    ensures e.dst == Node(a.dst, Dest(m, e.src.xs, a))
  {
    var b, xs :| b in m.arcs && xs <= Universe(m) && Fires(m, skip, xs, b) &&
      e == Edge(Node(b.src, xs), b.lab.acc, Node(b.dst, Dest(m, xs, b)));
    a := b;
  }

  lemma {:induction false} BackWalk<S(!new), V(!new)>(m: Problem<S, V>, skip: bool, x: Node<S>, es: seq<Marked<Node<S>>>,
                                                      y: Node<S>, t: S) returns (s: S, fs: seq<Marked<(int, S)>>)
    requires Walk(SlapGraph(m, skip), x, es, y) && t in y.xs
    ensures s in x.xs && Walk(Plain(m), (x.q, s), fs, (y.q, t)) && Marks(es) <= Marks(fs)
    ensures es != [] ==> fs != []
    decreases |es|
  {
    hide SlapGraph, Dest, Product;
    if es == [] {
      s, fs := t, [];
    } else {
      var u, gs := BackWalk(m, skip, es[0].dst, es[1..], y, t);
      var a := SlapEdge(m, skip, es[0]);
      var hs;
      s, hs := BackArc(m, a, x.xs, u);
      fs := hs + gs;
      WalkConcat(Plain(m), (x.q, s), hs, (a.dst, u), gs, (y.q, t));
      MarksConcat(hs, gs);
    }
  }

  lemma BackInit<S(!new), V(!new)>(m: Problem<S, V>, t: S)
    requires t in InitNode(m).xs
    ensures (m.q0, t) in ReachSet(Plain(m), Initial(m.q0, m.init))
  {
    var s :| s in m.init && Reach(InitAbsorbed(m), s, t);
    var es: seq<Edge<S, ()>> :| Walk(InitAbsorbed(m), s, es, t);
    if m.n > 0 {
      var fs := SaturationWalk(m, m.q0, {}, s, es, t);
    } else {
      assert InitAbsorbed(m) == {};
      ReachRefl(Plain(m), (m.q0, s));
    }
    ReachSetHas(Plain(m), Initial(m.q0, m.init), (m.q0, s), (m.q0, t));
  }

  lemma {:induction false} WalkNodesInhabited<S(!new), V(!new)>(m: Problem<S, V>, skip: bool, x: Node<S>,
                                                                es: seq<Marked<Node<S>>>, y: Node<S>)
    requires es != [] && Walk(SlapGraph(m, skip), x, es, y)
    ensures y.xs != {}
  {
    WalkEnd(SlapGraph(m, skip), x, es, y);
    var last := es[|es| - 1];
    assert last in es;
    var a := SlapEdge(m, skip, last);
  }

  ghost function AtState<S(!new)>(x: Node<S>): set<(int, S)> {
    set s | s in x.xs :: (x.q, s)
  }

  /** An accepting cycle of aggregates holds an accepting cycle of states. */
  lemma SlapCycleIsReal<S(!new), V(!new)>(m: Problem<S, V>, skip: bool)
    requires SlapNonEmpty(m, skip)
    ensures NonEmpty(Plain(m), Below(m.n), Initial(m.q0, m.init))
  {
    hide SlapGraph, Product, Dest;
    var g, want, h := SlapGraph(m, skip), Below(m.n), Plain(m);
    var x :| x in ReachSet(g, {InitNode(m)}) && AcceptingCycle(g, want, x);
    var es :| CycleAt(g, want, x, es);
    WalkNodesInhabited(m, skip, x, es, x);
    var t :| t in x.xs;
    var d := AtState(x);
    forall v | v in d ensures HasFullStepInto(h, want, d, v) {
      var s, fs := BackWalk(m, skip, x, es, x, v.1);
      assert (x.q, s) in d && FullStep(h, want, (x.q, s), v);
    }
    var c := FullStepsLoop(h, want, d, (x.q, t));
    var stem :| Walk(g, InitNode(m), stem, x);
    var s0, gs := BackWalk(m, skip, InitNode(m), stem, x, c.1);
    BackInit(m, s0);
    var i :| i in Initial(m.q0, m.init) && Reach(h, i, (m.q0, s0));
    ReachTrans(h, i, (m.q0, s0), c);
    ReachSetHas(h, Initial(m.q0, m.init), i, c);
  }

  // ---------------------------------------------------------------- no accepted run escapes the aggregates

  /** The node reached after the first `k` arcs of a run; dropped self-loops leave it where it is. */
  ghost function NodeAt<S(!new), V(!new)>(m: Problem<S, V>, skip: bool, a: nat -> Arc<V>, k: nat): Node<S> {
    if k == 0 then InitNode(m)
    else
      var x := NodeAt(m, skip, a, k - 1);
      if Dropped(skip, m.n, a(k - 1)) then x else Node(a(k - 1).dst, Dest(m, x.xs, a(k - 1)))
  }

  /** Steps that unmarked self-loops read stay inside the aggregate. */
  ghost predicate Saturated<S(!new), V(!new)>(m: Problem<S, V>, x: Node<S>) {
    m.n > 0 ==> Closed(Absorbed(m, x.q, {}), x.xs)
  }

  ghost predicate Tracks<S(!new), V(!new)>(m: Problem<S, V>, x: Node<S>, q: int, s: S) {
    x.q == q && s in x.xs && x.xs <= Universe(m) && Saturated(m, x)
  }

  lemma InitTracks<S(!new), V(!new)>(m: Problem<S, V>, s: S)
    requires s in m.init
    ensures Tracks(m, InitNode(m), m.q0, s)
  {
    ReachSetClosed(InitAbsorbed(m), m.init);
    assert Targets(InitAbsorbed(m)) <= Targets(m.rel);
  }

  lemma DestTracks<S(!new), V(!new)>(m: Problem<S, V>, xs: set<S>, a: Arc<V>, s: S, t: S)
    requires a in m.arcs && s in xs && m.lab(s) in a.lab.cond && Pair(s, t) in m.rel
    ensures Tracks(m, Node(a.dst, Dest(m, xs, a)), a.dst, t)
  {
    var g := Absorbed(m, a.dst, a.lab.acc);
    var ys := SuccSatisfying(m.rel, m.lab, xs, a.lab.cond);
    ReachSetClosed(g, ys);
    var p := Pair(s, t);
    assert s in Select(m.lab, xs, a.lab.cond) && p.dst in ys;
    assert Targets(g) <= Targets(m.rel) && ys <= Targets(m.rel);
    assert Absorbed(m, a.dst, {}) <= g;
  }

  lemma StepTracks<S(!new), V(!new)>(m: Problem<S, V>, skip: bool, a: nat -> Arc<V>, s: nat -> S, k: nat)
    requires ReadsStep(m.arcs, m.rel, m.lab, a, s, k)
    requires Tracks(m, NodeAt(m, skip, a, k), a(k).src, s(k))
    ensures Tracks(m, NodeAt(m, skip, a, k + 1), a(k + 1).src, s(k + 1))
    ensures !Dropped(skip, m.n, a(k)) ==>
      Edge(NodeAt(m, skip, a, k), a(k).lab.acc, NodeAt(m, skip, a, k + 1)) in SlapGraph(m, skip)
  {
    var x, arc := NodeAt(m, skip, a, k), a(k);
    if Dropped(skip, m.n, arc) {
      var v := m.lab(s(k));
      assert v in SelfLoops(m.arcs, arc.src, {});
      assert Pair(s(k), s(k + 1)) in Absorbed(m, x.q, {});
    } else {
      DestTracks(m, x.xs, arc, s(k), s(k + 1));
      assert Fires(m, skip, x.xs, arc);
      assert arc.src == x.q;
    }
  }

  lemma {:induction false} RunTracks<S(!new), V(!new)>(m: Problem<S, V>, skip: bool, a: nat -> Arc<V>, s: nat -> S, k: nat)
    requires Reads(m.arcs, m.rel, m.q0, m.init, m.lab, a, s)
    ensures Tracks(m, NodeAt(m, skip, a, k), a(k).src, s(k))
  {
    hide Tracks, SlapGraph, Dest, ReadsStep;
    if k == 0 {
      InitTracks(m, s(0));
    } else {
      RunTracks(m, skip, a, s, k - 1);
      assert ReadsStep(m.arcs, m.rel, m.lab, a, s, k - 1);
      StepTracks(m, skip, a, s, k - 1);
    }
  }

  /** The marks of the arcs `i, ..., j-1`. */
  ghost function ArcMarks<V>(a: nat -> Arc<V>, i: nat, j: nat): set<nat>
    requires i <= j
    decreases j - i
  {
    if i == j then {} else a(i).lab.acc + ArcMarks(a, i + 1, j)
  }

  /** A stretch of the run is a walk of the product that carries the same marks. */
  lemma {:induction false} RunWalk<S(!new), V(!new)>(m: Problem<S, V>, skip: bool, a: nat -> Arc<V>, s: nat -> S, i: nat, j: nat)
      returns (es: seq<Marked<Node<S>>>)
    requires Reads(m.arcs, m.rel, m.q0, m.init, m.lab, a, s) && i <= j
    ensures Walk(SlapGraph(m, skip), NodeAt(m, skip, a, i), es, NodeAt(m, skip, a, j))
    ensures Marks(es) == ArcMarks(a, i, j)
    ensures m.n == 0 && i < j ==> es != []
    decreases j - i
  {
    hide SlapGraph, Tracks;
    if i == j {
      es := [];
    } else {
      var rest := RunWalk(m, skip, a, s, i + 1, j);
      RunTracks(m, skip, a, s, i);
      assert ReadsStep(m.arcs, m.rel, m.lab, a, s, i);
      StepTracks(m, skip, a, s, i);
      if Dropped(skip, m.n, a(i)) {
        es := rest;
      } else {
        var e := Edge(NodeAt(m, skip, a, i), a(i).lab.acc, NodeAt(m, skip, a, i + 1));
        es := [e] + rest;
        assert es[1..] == rest;
      }
    }
  }

  lemma {:induction false} ArcMarksHas<V>(a: nat -> Arc<V>, i: nat, j: nat, k: nat, x: nat)
    requires i <= k < j && x in a(k).lab.acc
    ensures x in ArcMarks(a, i, j)
    decreases j - i
  {
    if i < k {
      ArcMarksHas(a, i + 1, j, k, x);
    }
  }

  /** From any point on, some finite stretch of an accepted run sees every wanted mark. */
  lemma {:induction false} FullStretch<V>(want: set<nat>, a: nat -> Arc<V>, i: nat) returns (j: nat)
    requires Sees(want, a)
    ensures i < j && forall j': nat :: j <= j' ==> want <= ArcMarks(a, i, j')
  {
    if want == {} {
      j := i + 1;
    } else {
      var x :| x in want;
      var l := FullStretch(want - {x}, a, i);
      assert SeesFrom(a, x, i);
      var k: nat :| i <= k && x in a(k).lab.acc;
      j := if k < l then l else k + 1;
      forall j': nat | j <= j' ensures want <= ArcMarks(a, i, j') {
        ArcMarksHas(a, i, j', k, x);
      }
    }
  }

  ghost function Nodes<S(!new), V(!new)>(m: Problem<S, V>, skip: bool): set<Node<S>> {
    {InitNode(m)} + Targets(SlapGraph(m, skip))
  }

  lemma NodeAtInNodes<S(!new), V(!new)>(m: Problem<S, V>, skip: bool, a: nat -> Arc<V>, s: nat -> S, k: nat)
    requires Reads(m.arcs, m.rel, m.q0, m.init, m.lab, a, s)
    ensures NodeAt(m, skip, a, k) in Nodes(m, skip)
    ensures NodeAt(m, skip, a, k) in ReachSet(SlapGraph(m, skip), {InitNode(m)})
  {
    hide SlapGraph;
    var es := RunWalk(m, skip, a, s, 0, k);
    WalkEnd(SlapGraph(m, skip), InitNode(m), es, NodeAt(m, skip, a, k));
    ReachSetHas(SlapGraph(m, skip), {InitNode(m)}, InitNode(m), NodeAt(m, skip, a, k));
  }

  /** An accepted run of the model closes an accepting cycle of aggregates. */
  lemma RealRunIsCovered<S(!new), V(!new)>(m: Problem<S, V>, skip: bool)
    requires ModelHasAcceptedRun(m.arcs, m.rel, m.q0, m.init, m.lab, Below(m.n))
    ensures SlapNonEmpty(m, skip)
  {
    hide SlapGraph, NodeAt;
    var a: nat -> Arc<V>, s: nat -> S :|
      Reads(m.arcs, m.rel, m.q0, m.init, m.lab, a, s) && Sees(Below(m.n), a);
    var node: nat -> Node<S> := (k: nat) => NodeAt(m, skip, a, k);
    forall k: nat ensures node(k) in Nodes(m, skip) {
      NodeAtInNodes(m, skip, a, s, k);
    }
    var x := InfinitePigeonhole(Nodes(m, skip), node, 0);
    assert OccursFrom(node, x, 0);
    var i: nat :| node(i) == x;
    var j := FullStretch(Below(m.n), a, i);
    assert OccursFrom(node, x, j);
    var l: nat :| j <= l && node(l) == x;
    var es := RunWalk(m, skip, a, s, i, l);
    if m.n > 0 { assert 0 in Below(m.n); }
    assert CycleAt(SlapGraph(m, skip), Below(m.n), x, es);
    NodeAtInNodes(m, skip, a, s, i);
  }

  /** The aggregating product has a reachable accepting cycle exactly when the model has a run the
      automaton accepts. */
  lemma SlapEmptiness<S(!new), V(!new)>(m: Problem<S, V>, skip: bool)
    ensures SlapNonEmpty(m, skip) <==> ModelHasAcceptedRun(m.arcs, m.rel, m.q0, m.init, m.lab, Below(m.n))
    ensures SlapNonEmpty(m, skip) <==> NonEmpty(Plain(m), Below(m.n), Initial(m.q0, m.init))
  {
    hide SlapNonEmpty;
    NonEmptyIffRun(Plain(m), Below(m.n), Initial(m.q0, m.init));
    ProductRunIffModelRun(m.arcs, m.rel, m.q0, m.init, m.lab, Below(m.n));
    if SlapNonEmpty(m, skip) {
      SlapCycleIsReal(m, skip);
    }
    if ModelHasAcceptedRun(m.arcs, m.rel, m.q0, m.init, m.lab, Below(m.n)) {
      RealRunIsCovered(m, skip);
    }
  }

  // ---------------------------------------------------------------- what an aggregate holds

  /** Some self-loop of `q` with no marks but those in `ac` reads state `x`. */
  ghost predicate Loops<S, V(!new)>(arcs: set<Arc<V>>, lab: S -> V, q: int, ac: set<nat>, x: S) {
    exists b :: b in arcs && b.src == q && b.dst == q && b.lab.acc <= ac && lab(x) in b.lab.cond
  }

  /** A path of the model along which every state left is read by such a self-loop. */
  ghost predicate LoopPath<S(!new), V(!new)>(arcs: set<Arc<V>>, rel: Rel<S>, lab: S -> V, q: int, ac: set<nat>, path: seq<S>) {
    path != [] && forall i {:trigger path[i]} :: 0 <= i < |path| - 1 ==>
      Pair(path[i], path[i + 1]) in rel && Loops(arcs, lab, q, ac, path[i])
  }

  ghost predicate LoopsTo<S(!new), V(!new)>(arcs: set<Arc<V>>, rel: Rel<S>, lab: S -> V, q: int, ac: set<nat>, y: S, t: S) {
    exists path :: LoopPath(arcs, rel, lab, q, ac, path) && path[0] == y && path[|path| - 1] == t
  }

  /** A state of `xs` that arc `a` reads steps to some y, from which self-loops of the target with no marks but the
      arc's lead to `t`. */
  ghost predicate LedTo<S(!new), V(!new)>(arcs: set<Arc<V>>, rel: Rel<S>, lab: S -> V, xs: set<S>, a: Arc<V>, t: S) {
    exists s, y :: s in xs && lab(s) in a.lab.cond && Pair(s, y) in rel && LoopsTo(arcs, rel, lab, a.dst, a.lab.acc, y, t)
  }

  /** Without acceptance sets the initial states; with them also what unmarked self-loops of `q0` lead to. */
  ghost predicate StartsWith<S(!new), V(!new)>(arcs: set<Arc<V>>, n: nat, rel: Rel<S>, init: set<S>, lab: S -> V, q0: int, t: S) {
    if n == 0 then t in init
    else exists s :: s in init && LoopsTo(arcs, rel, lab, q0, {}, s, t)
  }

  lemma {:induction false} WalkLoops<S(!new), V(!new)>(m: Problem<S, V>, q: int, ac: set<nat>, y: S, es: seq<Edge<S, ()>>, t: S)
    requires Walk(Absorbed(m, q, ac), y, es, t)
    ensures LoopsTo(m.arcs, m.rel, m.lab, q, ac, y, t)
  {
    if es == [] {
      assert LoopPath(m.arcs, m.rel, m.lab, q, ac, [y]);
    } else {
      WalkLoops(m, q, ac, es[0].dst, es[1..], t);
      var rest :| LoopPath(m.arcs, m.rel, m.lab, q, ac, rest) && rest[0] == es[0].dst && rest[|rest| - 1] == t;
      match es[0].lab case () =>
      var a, v :| a in m.arcs && a.src == q && a.dst == q && a.lab.acc <= ac && v in a.lab.cond && v == m.lab(y);
      assert Loops(m.arcs, m.lab, q, ac, y) && es[0] == Pair(y, rest[0]);
      var path := [y] + rest;
      assert forall i :: 0 < i < |path| ==> path[i] == rest[i - 1];
      assert LoopPath(m.arcs, m.rel, m.lab, q, ac, path);
    }
  }

  lemma {:induction false} LoopsWalk<S(!new), V(!new)>(m: Problem<S, V>, q: int, ac: set<nat>, path: seq<S>)
    requires LoopPath(m.arcs, m.rel, m.lab, q, ac, path)
    ensures Reach(Absorbed(m, q, ac), path[0], path[|path| - 1])
  {
    var g := Absorbed(m, q, ac);
    if |path| == 1 {
      ReachRefl(g, path[0]);
    } else {
      assert forall i :: 0 <= i < |path| - 1 ==> path[1..][i] == path[i + 1];
      LoopsWalk(m, q, ac, path[1..]);
      assert Loops(m.arcs, m.lab, q, ac, path[0]);
      var b :| b in m.arcs && b.src == q && b.dst == q && b.lab.acc <= ac && m.lab(path[0]) in b.lab.cond;
      assert m.lab(path[0]) in SelfLoops(m.arcs, q, ac);
      var e := Pair(path[0], path[1]);
      assert e in g;
      ReachEdge(g, e);
      ReachTrans(g, path[0], path[1], path[|path| - 1]);
    }
  }

  /** Saturation adds exactly what paths of self-loops lead to. */
  lemma AbsorbedMeans<S(!new), V(!new)>(m: Problem<S, V>, q: int, ac: set<nat>, ys: set<S>, t: S)
    ensures t in ReachSet(Absorbed(m, q, ac), ys) <==> exists y :: y in ys && LoopsTo(m.arcs, m.rel, m.lab, q, ac, y, t)
  {
    var g := Absorbed(m, q, ac);
    if t in ReachSet(g, ys) {
      var y :| y in ys && Reach(g, y, t);
      var es: seq<Edge<S, ()>> :| Walk(g, y, es, t);
      WalkLoops(m, q, ac, y, es, t);
    }
    if y :| y in ys && LoopsTo(m.arcs, m.rel, m.lab, q, ac, y, t) {
      var path :| LoopPath(m.arcs, m.rel, m.lab, q, ac, path) && path[0] == y && path[|path| - 1] == t;
      LoopsWalk(m, q, ac, path);
      ReachSetHas(g, ys, y, t);
    }
  }

  /** The aggregate behind an arc is exactly what its states lead to through the arc and then weaker self-loops. */
  lemma DestMeans<S(!new), V(!new)>(m: Problem<S, V>, xs: set<S>, a: Arc<V>, t: S)
    ensures t in Dest(m, xs, a) <==> LedTo(m.arcs, m.rel, m.lab, xs, a, t)
  {
    var ys := SuccSatisfying(m.rel, m.lab, xs, a.lab.cond);
    AbsorbedMeans(m, a.dst, a.lab.acc, ys, t);
    if t in Dest(m, xs, a) {
      var y :| y in ys && LoopsTo(m.arcs, m.rel, m.lab, a.dst, a.lab.acc, y, t);
      var p := PostHas(m.rel, Select(m.lab, xs, a.lab.cond), y);
      match p.lab case () =>
      assert p == Pair(p.src, y);
    }
    if s, y :| s in xs && m.lab(s) in a.lab.cond && Pair(s, y) in m.rel && LoopsTo(m.arcs, m.rel, m.lab, a.dst, a.lab.acc, y, t) {
      assert s in Select(m.lab, xs, a.lab.cond) && Pair(s, y).dst in ys;
    }
  }

  lemma InitMeans<S(!new), V(!new)>(m: Problem<S, V>, t: S)
    ensures t in InitNode(m).xs <==> StartsWith(m.arcs, m.n, m.rel, m.init, m.lab, m.q0, t)
  {
    if m.n > 0 {
      AbsorbedMeans(m, m.q0, {}, m.init, t);
    } else {
      assert InitAbsorbed(m) == {};
      if t in m.init { ReachRefl(InitAbsorbed(m), t); }
      if t in InitNode(m).xs {
        var s :| s in m.init && Reach(InitAbsorbed(m), s, t);
        var es: seq<Edge<S, ()>> :| Walk(InitAbsorbed(m), s, es, t);
      }
    }
  }

  // ---------------------------------------------------------------- the iterator

  /** The arcs leaving `q`, in order. */
  function Out<V(==)>(aut: seq<Arc<V>>, q: int): seq<Arc<V>> {
    if aut == [] then []
    else (if aut[0].src == q then [aut[0]] else []) + Out(aut[1..], q)
  }

  lemma {:induction false} OutHas<V(!new)>(aut: seq<Arc<V>>, q: int)
    ensures forall a :: a in Out(aut, q) <==> a in aut && a.src == q
  {
    if aut != [] {
      OutHas(aut[1..], q);
      assert aut == [aut[0]] + aut[1..];
    }
  }

  ghost function ArcsOf<V(!new)>(aut: seq<Arc<V>>): set<Arc<V>> {
    set a | a in aut
  }

  /** The edges an aggregate has along a list of arcs: one for each arc that leads somewhere. */
  ghost function Successors<S(!new), V(!new)>(m: Problem<S, V>, x: Node<S>, left: seq<Arc<V>>): seq<Marked<Node<S>>> {
    if left == [] then []
    else
      var d := Dest(m, x.xs, left[0]);
      (if d != {} then [Edge(x, left[0].lab.acc, Node(left[0].dst, d))] else []) + Successors(m, x, left[1..])
  }

  lemma {:induction false} SuccessorsHas<S(!new), V(!new)>(m: Problem<S, V>, x: Node<S>, left: seq<Arc<V>>, e: Marked<Node<S>>)
    ensures e in Successors(m, x, left) <==>
      exists a :: a in left && Dest(m, x.xs, a) != {} && e == Edge(x, a.lab.acc, Node(a.dst, Dest(m, x.xs, a)))
  {
    hide Dest;
    if left != [] {
      SuccessorsHas(m, x, left[1..], e);
      assert left == [left[0]] + left[1..];
    }
  }

  /** The iterator's list is exactly the edges of the product graph that leave the node. */
  lemma SuccessorsAreEdges<S(!new), V(!new)>(m: Problem<S, V>, aut: seq<Arc<V>>, x: Node<S>, e: Marked<Node<S>>)
    requires m.arcs == ArcsOf(aut) && x.xs <= Universe(m)
    ensures e in Successors(m, x, Out(aut, x.q)) <==> e in SlapGraph(m, false) && e.src == x
  {
    hide Dest;
    SuccessorsHas(m, x, Out(aut, x.q), e);
    OutHas(aut, x.q);
    if e in Successors(m, x, Out(aut, x.q)) {
      var a :| a in Out(aut, x.q) && Dest(m, x.xs, a) != {} && e == Edge(x, a.lab.acc, Node(a.dst, Dest(m, x.xs, a)));
      assert Fires(m, false, x.xs, a);
    }
    if e in SlapGraph(m, false) && e.src == x {
      var a := SlapEdge(m, false, e);
      assert a in Out(aut, x.q);
    }
  }

  ghost function EdgeBy<S(!new), V(!new)>(m: Problem<S, V>, x: Node<S>, a: Arc<V>): (e: Marked<Node<S>>) {
    Edge(x, a.lab.acc, Node(a.dst, Dest(m, x.xs, a)))
  }

  ghost predicate Leads<S(!new), V(!new)>(m: Problem<S, V>, x: Node<S>, a: Arc<V>) {
    a.src == x.q && Dest(m, x.xs, a) != {}
  }

  /** From left to right the positions of the arcs that lead somewhere. */
  ghost function Places<S(!new), V(!new)>(m: Problem<S, V>, aut: seq<Arc<V>>, x: Node<S>): (at: seq<nat>)
    ensures forall i, j :: 0 <= i < j < |at| ==> at[i] < at[j]
    ensures forall k: nat {:trigger k in at} :: k in at <==> k < |aut| && Leads(m, x, aut[k])
  {
    if aut == [] then []
    else
      var w := aut[..|aut| - 1];
      assert forall k: nat {:trigger w[k]} :: k < |w| ==> aut[k] == w[k];
      assert forall j :: 0 <= j < |Places(m, w, x)| ==> Places(m, w, x)[j] in Places(m, w, x);
      Places(m, w, x) + if Leads(m, x, aut[|aut| - 1]) then [|aut| - 1] else []
  }

  /** The successors are listed in the order of the automaton, one for each arc that leads somewhere. */
  lemma {:induction false} SuccessorsInOrder<S(!new), V(!new)>(m: Problem<S, V>, aut: seq<Arc<V>>, x: Node<S>)
    ensures var at, es := Places(m, aut, x), Successors(m, x, Out(aut, x.q));
      |es| == |at| && forall j {:trigger at[j]} {:trigger es[j]} :: 0 <= j < |at| ==> at[j] in at && es[j] == EdgeBy(m, x, aut[at[j]])
    decreases |aut|
  {
    hide Leads, EdgeBy, Out, Successors;
    LastSuccessor(m, aut, x);
    if aut != [] {
      var w := aut[..|aut| - 1];
      SuccessorsInOrder(m, w, x);
      var at, before := Places(m, aut, x), Places(m, w, x);
      forall j | 0 <= j < |before| ensures aut[at[j]] == w[before[j]] {
        assert before[j] in before;
      }
      forall j | 0 <= j < |at| ensures at[j] in at {}
    }
  }

  lemma {:induction false} LastSuccessor<S(!new), V(!new)>(m: Problem<S, V>, aut: seq<Arc<V>>, x: Node<S>)
    ensures aut == [] ==> Successors(m, x, Out(aut, x.q)) == []
    ensures aut != [] ==>
      var n := |aut| - 1;
      Successors(m, x, Out(aut, x.q)) ==
        Successors(m, x, Out(aut[..n], x.q)) + if Leads(m, x, aut[n]) then [EdgeBy(m, x, aut[n])] else []
    decreases |aut|
  {
    hide Leads, EdgeBy, Out, Successors;
    FirstSuccessor(m, aut, x);
    if aut != [] {
      var n := |aut| - 1;
      FirstSuccessor(m, aut[..n], x);
      LastSuccessor(m, aut[1..], x);
      if n > 0 {
        assert aut[1..][..n - 1] == aut[..n][1..];
      } else {
        assert aut[1..] == [] && aut[..0] == [];
      }
    }
  }

  lemma FirstSuccessor<S(!new), V(!new)>(m: Problem<S, V>, aut: seq<Arc<V>>, x: Node<S>)
    ensures aut == [] ==> Successors(m, x, Out(aut, x.q)) == []
    ensures aut != [] ==>
      Successors(m, x, Out(aut, x.q)) ==
        if Leads(m, x, aut[0]) then [EdgeBy(m, x, aut[0])] + Successors(m, x, Out(aut[1..], x.q))
        else Successors(m, x, Out(aut[1..], x.q))
  {
    hide Dest;
    if aut != [] {
      if aut[0].src == x.q { assert Out(aut, x.q)[1..] == Out(aut[1..], x.q); }
      else { assert Out(aut, x.q) == Out(aut[1..], x.q); }
    }
  }

  class SlapSuccIterator<S(==, !new), V(==, !new)> {
    ghost const m: Problem<S, V>
    const aut: seq<Arc<V>>
    const numSets: nat
    const rel: Rel<S>
    const lab: S -> V
    const autState: int
    const right: set<S>
    const left: seq<Arc<V>>  // the automaton's own iterator ...
    var pos: nat             // ... and where it stands
    var dest: set<S>

    ghost predicate Fixed() {
      && m.arcs == ArcsOf(aut) && m.rel == rel && m.lab == lab && m.n == numSets
      && left == Out(aut, autState)
    }

    /** Positioned on an arc that leads somewhere, or past the end. */
    ghost predicate Valid()
      reads this
    {
      Fixed() && pos <= |left| && (pos < |left| ==> dest == Dest(m, right, left[pos]) && dest != {})
    }

    ghost function Remaining(): seq<Marked<Node<S>>>
      reads this
      requires pos <= |left|
    {
      Successors(m, Node(autState, right), left[pos..])
    }

    constructor (ghost m: Problem<S, V>, aut: seq<Arc<V>>, n: nat, rel: Rel<S>, lab: S -> V, q: int, xs: set<S>)
      requires m.arcs == ArcsOf(aut) && m.rel == rel && m.lab == lab && m.n == n
      ensures Valid() && Done() && this.m == m && this.aut == aut && autState == q && right == xs
    {
      this.m, this.aut, this.numSets, this.rel, this.lab, this.autState, this.right := m, aut, n, rel, lab, q, xs;
      left := Out(aut, q);
      pos := |Out(aut, q)|;
      dest := {};
    }

    /** Conditions of the target's self-loops whose marks the current arc subsumes. */
    method ComputeWeakerSelfloopAp() returns (f: set<V>)
      requires Fixed() && pos < |left|
      ensures f == SelfLoops(m.arcs, left[pos].dst, left[pos].lab.acc)
    {
      var ac := left[pos].lab.acc;
      var q2 := left[pos].dst;
      var out := Out(aut, q2);
      f := {};
      var k := 0;
      while k < |out|
        invariant k <= |out|
        invariant f == SelfLoops(ArcsOf(out[..k]), q2, ac)
      {
        assert ArcsOf(out[..k + 1]) == ArcsOf(out[..k]) + {out[k]} by {
          assert out[..k + 1] == out[..k] + [out[k]];
        }
        if out[k].dst == q2 {
          var acprime := out[k].lab.acc;
          if ac * acprime == acprime {
            f := f + out[k].lab.cond;
          }
        }
        OutHas(aut, q2);
        assert out[k] in out;
        SelfLoopsAdd(ArcsOf(out[..k]), out[k], q2, ac);
        k := k + 1;
      }
      assert out[..k] == out;
      OutHas(aut, q2);
      assert SelfLoops(ArcsOf(out), q2, ac) == SelfLoops(m.arcs, q2, ac);
    }

    /** Compute the aggregate behind the current arc. The first test has no effect: what it assigns is
        overwritten. */
    method Step()
      requires Fixed() && pos < |left|
      modifies `dest
      ensures dest == Dest(m, right, left[pos])
      ensures forall t :: t in dest <==> LedTo(m.arcs, rel, lab, right, left[pos], t)
    {
      forall t ensures t in Dest(m, right, left[pos]) <==> LedTo(m.arcs, rel, lab, right, left[pos], t) {
        DestMeans(m, right, left[pos], t);
      }
      if numSets > 0 {
        if left[pos].lab.acc == {} {
          var q2 := left[pos].dst;
          if q2 == autState { dest := {}; }
        }
      }
      var curcond := left[pos].lab.cond;
      dest := SuccSatisfying(rel, lab, right, curcond);
      if dest == {} {
        NothingReached(Absorbed(m, left[pos].dst, left[pos].lab.acc));
        return;
      }
      var f := ComputeWeakerSelfloopAp();
      dest := LeastPreTestFixpoint(rel, lab, dest, f);
    }

    /** Move on to the next arc that leads somewhere. */
    method NextNonFalse()
      requires Fixed() && pos <= |left|
      modifies this
      ensures Valid() && Remaining() == old(Remaining())
    {
      while pos < |left|
        invariant Fixed() && pos <= |left| && Remaining() == old(Remaining())
        decreases |left| - pos
      {
        Step();
        if dest != {} { return; }
        assert left[pos..][1..] == left[pos + 1..];
        pos := pos + 1;
      }
    }

    method First() returns (some: bool)
      requires Fixed()
      modifies this
      ensures Valid() && some == !Done()
      ensures Remaining() == Successors(m, Node(autState, right), Out(aut, autState))
    {
      pos := 0;
      NextNonFalse();
      assert left[0..] == left;
      some := !Done();
    }

    method Next() returns (some: bool)
      requires Valid() && !Done()
      modifies this
      ensures Valid() && some == !Done()
      ensures Remaining() == old(Remaining())[1..]
    {
      assert left[pos..][1..] == left[pos + 1..];
      pos := pos + 1;
      NextNonFalse();
      some := !Done();
    }

    predicate Done()
      reads this
    {
      pos >= |left|
    }

    /** Target node and marks of the current edge: the head of what remains. */
    function Dst(): (r: Node<S>)
      reads this
      requires Valid() && !Done()
      ensures Remaining() != [] && r == Remaining()[0].dst
    {
      Node(left[pos].dst, dest)
    }

    function Acc(): (r: set<nat>)
      reads this
      requires Valid() && !Done()
      ensures Remaining() != [] && r == Remaining()[0].lab
    {
      left[pos].lab.acc
    }
  }

  lemma SelfLoopsAdd<V(!new)>(arcs: set<Arc<V>>, a: Arc<V>, q: int, ac: set<nat>)
    ensures SelfLoops(arcs + {a}, q, ac) ==
      SelfLoops(arcs, q, ac) + (if a.src == q && a.dst == q && a.lab.acc <= ac then a.lab.cond else {})
  {
  }

  lemma NothingReached<S(!new)>(g: Rel<S>)
    ensures ReachSet(g, {}) == {}
  {
  }

  /** `get_init_state`: absorb from the initial states along unmarked self-loops, if there are marks. */
  method GetInitState<S(==, !new), V(==, !new)>(ghost m: Problem<S, V>, aut: seq<Arc<V>>, n: nat, rel: Rel<S>, init: set<S>,
                                                lab: S -> V, q0: int) returns (x: Node<S>)
    requires m == Problem(ArcsOf(aut), q0, n, rel, init, lab)
    ensures x == InitNode(m)
    ensures x.q == q0 && forall t :: t in x.xs <==> StartsWith(ArcsOf(aut), n, rel, init, lab, q0, t)
  {
    forall t ensures t in InitNode(m).xs <==> StartsWith(ArcsOf(aut), n, rel, init, lab, q0, t) {
      InitMeans(m, t);
    }
    var f := {};
    var out := Out(aut, q0);
    var k := 0;
    while k < |out|
      invariant k <= |out|
      invariant f == if n > 0 then SelfLoops(ArcsOf(out[..k]), q0, {}) else {}
    {
      assert ArcsOf(out[..k + 1]) == ArcsOf(out[..k]) + {out[k]} by {
        assert out[..k + 1] == out[..k] + [out[k]];
      }
      OutHas(aut, q0);
      assert out[k] in out;
      SelfLoopsAdd(ArcsOf(out[..k]), out[k], q0, {});
      if out[k].dst == q0 {
        if out[k].lab.acc == {} && n > 0 {
          f := f + out[k].lab.cond;
        }
      }
      k := k + 1;
    }
    assert out[..k] == out;
    OutHas(aut, q0);
    assert SelfLoops(ArcsOf(out), q0, {}) == SelfLoops(m.arcs, q0, {});
    var xs := LeastPreTestFixpoint(rel, lab, init, f);
    x := Node(q0, xs);
  }
}
