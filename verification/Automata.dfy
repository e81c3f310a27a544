/** Transition-based generalised Buchi automata read over a model.

    A condition of the automaton is a set of valuations of the atomic propositions and `lab` gives the
    valuation of a model state; an arc fires when its condition holds in the source state of the model
    step. The module defines the synchronous product and proves that its accepted runs are the runs
    of the model that the automaton accepts. */
module Automata {
  import opened Graphs
  import opened Buchi

  datatype Label<V(==)> = Label(cond: set<V>, acc: set<nat>)
  datatype Arc<V(==)> = Arc(src: int, lab: Label<V>, dst: int)

  /** The product with its acceptance marks: one edge for each arc and each model step it reads. */
  ghost function Product<S, V>(arcs: set<Arc<V>>, rel: Rel<S>, lab: S -> V): set<Marked<(int, S)>> {
    set a, t | a in arcs && t in rel && lab(t.src) in a.lab.cond ::
      Edge((a.src, t.src), a.lab.acc, (a.dst, t.dst))
  }

  /** A run of the model together with the run of the automaton that reads it. */
  ghost predicate Reads<S(!new), V(!new)>(arcs: set<Arc<V>>, rel: Rel<S>, q0: int, init: set<S>, lab: S -> V,
                                          a: nat -> Arc<V>, s: nat -> S) {
    && s(0) in init && a(0).src == q0
    && forall k: nat :: ReadsStep(arcs, rel, lab, a, s, k)
  }

  ghost predicate ReadsStep<S, V>(arcs: set<Arc<V>>, rel: Rel<S>, lab: S -> V, a: nat -> Arc<V>, s: nat -> S, k: nat) {
    a(k) in arcs && a(k).dst == a(k + 1).src && lab(s(k)) in a(k).lab.cond && Pair(s(k), s(k + 1)) in rel
  }

  ghost predicate SeesFrom<V>(a: nat -> Arc<V>, i: nat, m: nat) {
    exists k: nat :: m <= k && i in a(k).lab.acc
  }

  /** Each wanted mark is seen infinitely often. */
  ghost predicate Sees<V>(want: set<nat>, a: nat -> Arc<V>) {
    forall i: nat, m: nat :: i in want ==> SeesFrom(a, i, m)
  }

  ghost predicate ModelHasAcceptedRun<S(!new), V(!new)>(arcs: set<Arc<V>>, rel: Rel<S>, q0: int, init: set<S>, lab: S -> V,
                                                        want: set<nat>) {
    exists a: nat -> Arc<V>, s: nat -> S :: Reads(arcs, rel, q0, init, lab, a, s) && Sees(want, a)
  }

  ghost function Initial<S(!new)>(q0: int, init: set<S>): set<(int, S)> {
    set s | s in init :: (q0, s)
  }

  ghost predicate IsProductEdge<S(!new), V(!new)>(arcs: set<Arc<V>>, rel: Rel<S>, lab: S -> V,
                                                  e: Marked<(int, S)>, a: Arc<V>) {
    && a in arcs && Pair(e.src.1, e.dst.1) in rel && lab(e.src.1) in a.lab.cond
    && e == Edge((a.src, e.src.1), a.lab.acc, (a.dst, e.dst.1))
  }

  lemma ProductEdge<S(!new), V(!new)>(arcs: set<Arc<V>>, rel: Rel<S>, lab: S -> V, e: Marked<(int, S)>) returns (a: Arc<V>)
    requires e in Product(arcs, rel, lab)
    ensures IsProductEdge(arcs, rel, lab, e, a)
  {
    var b, t :| b in arcs && t in rel && lab(t.src) in b.lab.cond &&
      e == Edge((b.src, t.src), b.lab.acc, (b.dst, t.dst));
    a := b;
    match t.lab case () =>
    assert t == Pair(t.src, t.dst);
  }

  lemma EdgeOfProduct<S(!new), V(!new)>(arcs: set<Arc<V>>, rel: Rel<S>, lab: S -> V, a: Arc<V>, s: S, t: S)
    requires a in arcs && Pair(s, t) in rel && lab(s) in a.lab.cond
    ensures Edge((a.src, s), a.lab.acc, (a.dst, t)) in Product(arcs, rel, lab)
  {
    var p := Pair(s, t);
    assert lab(p.src) in a.lab.cond;
  }

  /** Runs of the product are runs of the model read by the automaton. */
  lemma ProductRunIffModelRun<S(!new), V(!new)>(arcs: set<Arc<V>>, rel: Rel<S>, q0: int, init: set<S>, lab: S -> V, want: set<nat>)
    ensures HasAcceptedRun(Product(arcs, rel, lab), want, Initial(q0, init))
            <==> ModelHasAcceptedRun(arcs, rel, q0, init, lab, want)
  {
    if HasAcceptedRun(Product(arcs, rel, lab), want, Initial(q0, init)) {
      ProductRunToModel(arcs, rel, q0, init, lab, want);
    }
    if ModelHasAcceptedRun(arcs, rel, q0, init, lab, want) {
      ModelRunToProduct(arcs, rel, q0, init, lab, want);
    }
  }

  lemma ProductRunToModel<S(!new), V(!new)>(arcs: set<Arc<V>>, rel: Rel<S>, q0: int, init: set<S>, lab: S -> V, want: set<nat>)
    requires HasAcceptedRun(Product(arcs, rel, lab), want, Initial(q0, init))
    ensures ModelHasAcceptedRun(arcs, rel, q0, init, lab, want)
  {
    var g := Product(arcs, rel, lab);
    var run: nat -> Marked<(int, S)> :| AcceptedRunFrom(g, want, Initial(q0, init), run);
    forall k: nat ensures exists b :: IsProductEdge(arcs, rel, lab, run(k), b) {
      assert RunStep(g, run, k);
      var b := ProductEdge(arcs, rel, lab, run(k));
    }
    var a: nat -> Arc<V> := (k: nat) => var b :| IsProductEdge(arcs, rel, lab, run(k), b); b;
    var s: nat -> S := (k: nat) => run(k).src.1;
    forall k: nat ensures ReadsStep(arcs, rel, lab, a, s, k) {
      assert IsProductEdge(arcs, rel, lab, run(k), a(k));
      assert IsProductEdge(arcs, rel, lab, run(k + 1), a(k + 1));
      assert RunStep(g, run, k);
    }
    forall i: nat, m: nat | i in want ensures SeesFrom(a, i, m) {
      assert MarkFrom(run, i, m);
      var k: nat :| m <= k && i in run(k).lab;
      assert IsProductEdge(arcs, rel, lab, run(k), a(k));
    }
    assert IsProductEdge(arcs, rel, lab, run(0), a(0));
    assert Reads(arcs, rel, q0, init, lab, a, s) && Sees(want, a);
  }

  ghost function ProductRun<S, V>(a: nat -> Arc<V>, s: nat -> S): nat -> Marked<(int, S)> {
    (k: nat) => Edge((a(k).src, s(k)), a(k).lab.acc, (a(k).dst, s(k + 1)))
  }

  lemma ProductRunStep<S(!new), V(!new)>(arcs: set<Arc<V>>, rel: Rel<S>, lab: S -> V, a: nat -> Arc<V>, s: nat -> S, k: nat)
    requires ReadsStep(arcs, rel, lab, a, s, k)
    ensures RunStep(Product(arcs, rel, lab), ProductRun(a, s), k)
  {
    hide Product;
    var run := ProductRun(a, s);
    assert run(k) == Edge((a(k).src, s(k)), a(k).lab.acc, (a(k).dst, s(k + 1)));
    assert run(k + 1).src == (a(k + 1).src, s(k + 1));
    EdgeOfProduct(arcs, rel, lab, a(k), s(k), s(k + 1));
  }

  lemma ProductRunMark<S(!new), V(!new)>(want: set<nat>, a: nat -> Arc<V>, s: nat -> S, i: nat, m: nat)
    requires SeesFrom(a, i, m)
    ensures MarkFrom(ProductRun(a, s), i, m)
  {
    var k: nat :| m <= k && i in a(k).lab.acc;
    assert i in ProductRun(a, s)(k).lab;
  }

  lemma ProductRunStart<S(!new), V(!new)>(a: nat -> Arc<V>, s: nat -> S)
    ensures ProductRun(a, s)(0).src == (a(0).src, s(0))
  {
  }

  lemma ModelRunToProduct<S(!new), V(!new)>(arcs: set<Arc<V>>, rel: Rel<S>, q0: int, init: set<S>, lab: S -> V, want: set<nat>)
    requires ModelHasAcceptedRun(arcs, rel, q0, init, lab, want)
    ensures HasAcceptedRun(Product(arcs, rel, lab), want, Initial(q0, init))
  {
    hide Product, MarkFrom, SeesFrom, RunStep, ReadsStep, ProductRun;
    var a: nat -> Arc<V>, s: nat -> S :| Reads(arcs, rel, q0, init, lab, a, s) && Sees(want, a);
    forall k: nat ensures RunStep(Product(arcs, rel, lab), ProductRun(a, s), k) {
      ProductRunStep(arcs, rel, lab, a, s, k);
    }
    forall i: nat, m: nat | i in want ensures MarkFrom(ProductRun(a, s), i, m) {
      ProductRunMark(want, a, s, i, m);
    }
    ProductRunStart(a, s);
    assert AcceptedRunFrom(Product(arcs, rel, lab), want, Initial(q0, init), ProductRun(a, s));
  }
}
