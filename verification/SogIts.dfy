/** Saturation primitives over a model (LTL/src/sogIts.cpp).

    `f & g` applies `g` first, so `next & cond` filters sources and `cond & next` filters targets. */
module SogIts {
  import opened Graphs

  /** A selector keeps the states whose valuation satisfies the condition. */
  function Select<S(==), V(==)>(lab: S -> V, xs: set<S>, cond: set<V>): set<S> {
    set x | x in xs && lab(x) in cond
  }

  /** A negated selector. */
  function SelectNot<S(==), V(==)>(lab: S -> V, xs: set<S>, cond: set<V>): set<S> {
    set x | x in xs && lab(x) !in cond
  }

  /** `next & cond` */
  function GuardSrc<S(==), V(==)>(rel: Rel<S>, lab: S -> V, cond: set<V>): Rel<S> {
    set t | t in rel && lab(t.src) in cond
  }

  /** `cond & next` */
  function GuardDst<S(==), V(==)>(rel: Rel<S>, lab: S -> V, cond: set<V>): Rel<S> {
    set t | t in rel && lab(t.dst) in cond
  }

  /** Keep the states of `init` satisfying `cond` and saturate along steps into `cond` states. */
  method LeastPostTestFixpoint<S(==, !new), V(==, !new)>(rel: Rel<S>, lab: S -> V, init: set<S>, cond: set<V>)
      returns (res: set<S>)
    ensures res == ReachSet(GuardDst(rel, lab, cond), Select(lab, init, cond))
  {
    res := Closure(GuardDst(rel, lab, cond), Select(lab, init, cond));
  }

  /** Keep `init` and saturate along steps from `cond` states. */
  method LeastPreTestFixpoint<S(==, !new), V(==, !new)>(rel: Rel<S>, lab: S -> V, init: set<S>, cond: set<V>)
      returns (res: set<S>)
    ensures res == ReachSet(GuardSrc(rel, lab, cond), init)
  {
    res := Closure(GuardSrc(rel, lab, cond), init);
  }

  function SuccSatisfying<S(==), V(==)>(rel: Rel<S>, lab: S -> V, init: set<S>, cond: set<V>): set<S> {
    Post(rel, Select(lab, init, cond))
  }

  // ---------------------------------------------------------------- divergence

  /** The steps that stay in `xs` and enter `cond` states. */
  function Inside<S(==), V(==)>(rel: Rel<S>, lab: S -> V, xs: set<S>, cond: set<V>): Rel<S> {
    set t | t in rel && t.src in xs && t.dst in xs && lab(t.dst) in cond
  }

  ghost predicate AfterLoop<S(!new)>(g: Rel<S>, x: S) {
    exists c :: NonEmptyWalk(g, c, c) && Reach(g, c, x)
  }

  /** States of `init` reachable, through `cond` states of `init`, from a cycle of `cond` states of `init`. */
  ghost function Divergent<S(!new), V(!new)>(rel: Rel<S>, lab: S -> V, init: set<S>, cond: set<V>): set<S> {
    set x | x in init && AfterLoop(Inside(rel, lab, init, cond), x)
  }

  /** `fixpoint ((cond & next) * id) (init)` */
  method GetDivergent<S(==, !new), V(==, !new)>(rel: Rel<S>, lab: S -> V, init: set<S>, cond: set<V>)
      returns (res: set<S>)
    ensures res == Divergent(rel, lab, init, cond)
  {
    hide Divergent;
    DivergentSustained(rel, lab, init, cond);
    ghost var target := Divergent(rel, lab, init, cond);
    res := init;
    var next := Post(GuardDst(rel, lab, cond), res) * res;
    while next != res
      invariant next == Post(GuardDst(rel, lab, cond), res) * res
      invariant target <= res <= init
      decreases res
    {
      KeepsDivergent(rel, lab, init, cond, res);
      res := next;
      next := Post(GuardDst(rel, lab, cond), res) * res;
    }
    SustainedDivergent(rel, lab, init, cond, res);
  }

  lemma DivergentSustained<S(!new), V(!new)>(rel: Rel<S>, lab: S -> V, init: set<S>, cond: set<V>)
    ensures Divergent(rel, lab, init, cond) <= init
    ensures SelfSustained(Inside(rel, lab, init, cond), Divergent(rel, lab, init, cond))
  {
    var g := Inside(rel, lab, init, cond);
    var div := Divergent(rel, lab, init, cond);
    forall x | x in div ensures HasEdgeInto(g, div, x) {
      var c :| NonEmptyWalk(g, c, c) && Reach(g, c, x);
      var loop: seq<Edge<S, ()>> :| loop != [] && Walk(g, c, loop, c);
      var es: seq<Edge<S, ()>> :| Walk(g, c, es, x);
      WalkConcat(g, c, loop, c, es, x);
      var ws := loop + es;
      var m := WalkSplit(g, c, ws, x, |ws| - 1);
      WalkEnd(g, c, ws, x);
      assert Reach(g, c, m);
      assert m in div;
    }
  }

  lemma KeepsDivergent<S(!new), V(!new)>(rel: Rel<S>, lab: S -> V, init: set<S>, cond: set<V>, xs: set<S>)
    requires Divergent(rel, lab, init, cond) <= xs
    ensures Divergent(rel, lab, init, cond) <= Post(GuardDst(rel, lab, cond), xs)
  {
    hide Divergent;
    DivergentSustained(rel, lab, init, cond);
    SelfSustainedPost(Inside(rel, lab, init, cond), Divergent(rel, lab, init, cond), xs);
    assert Inside(rel, lab, init, cond) <= GuardDst(rel, lab, cond);
  }

  /** A set each of whose states has a `cond` step into it from the set lies after cycles. */
  lemma SustainedDivergent<S(!new), V(!new)>(rel: Rel<S>, lab: S -> V, init: set<S>, cond: set<V>, xs: set<S>)
    requires xs <= init && xs == Post(GuardDst(rel, lab, cond), xs) * xs
    ensures xs <= Divergent(rel, lab, init, cond)
  {
    hide Post;
    var g := Inside(rel, lab, init, cond);
    forall v | v in xs ensures HasEdgeInto(g, xs, v) {
      var t := PostHas(GuardDst(rel, lab, cond), xs, v);
      assert t in g;
    }
    forall x | x in xs ensures x in Divergent(rel, lab, init, cond) {
      var c := SustainedLoop(g, xs, x);
      assert NonEmptyWalk(g, c, c) && Reach(g, c, x);
    }
  }

  /** A set of states diverges exactly when it holds a cycle of `cond` states. */
  lemma DivergesIffCycle<S(!new), V(!new)>(rel: Rel<S>, lab: S -> V, init: set<S>, cond: set<V>)
    ensures Divergent(rel, lab, init, cond) != {} <==> exists c :: NonEmptyWalk(Inside(rel, lab, init, cond), c, c)
  {
    var g := Inside(rel, lab, init, cond);
    if c :| NonEmptyWalk(g, c, c) {
      var es: seq<Edge<S, ()>> :| es != [] && Walk(g, c, es, c);
      ReachRefl(g, c);
      assert c in init;
      assert c in Divergent(rel, lab, init, cond);
    }
    if x :| x in Divergent(rel, lab, init, cond) {
      assert AfterLoop(g, x);
    }
  }
}
