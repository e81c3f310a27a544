/** Reachability services of a model (its/ITSModel.cpp): the predecessor relation inside an envelope.

    A transition has a name, a relation and a way to invert it relative to an envelope. The inverse is
    only trusted inside the envelope: it may also produce states outside it. */
module Its {
  import opened Graphs

  datatype Named<!S(==)> = Named(name: string, rel: Rel<S>, invert: set<S> -> Rel<S>)

  /** Between states of the envelope the inverse is the converse of the relation. */
  ghost predicate GoodInverse<S(!new)>(t: Named<S>) {
    forall reach: set<S>, x, y {:trigger Pair(y, x) in t.invert(reach)} ::
      x in reach && y in reach ==> (Pair(y, x) in t.invert(reach) <==> Pair(x, y) in t.rel)
  }

  ghost predicate GoodInverses<S(!new)>(trs: seq<Named<S>>) {
    forall t :: t in trs ==> GoodInverse(t)
  }

  /** One step of any transition. */
  function NextRel<S(==)>(trs: seq<Named<S>>): (r: Rel<S>) {
    if trs == [] then {} else trs[0].rel + NextRel(trs[1..])
  }

  /** The inverse of a sum is the sum of the inverses. */
  function Inverse<S(==)>(trs: seq<Named<S>>, reach: set<S>): (r: Rel<S>) {
    if trs == [] then {} else trs[0].invert(reach) + Inverse(trs[1..], reach)
  }

  /** `rel * reach`: drop images outside the set. */
  function Restrict<S(==)>(rel: Rel<S>, reach: set<S>): Rel<S> {
    set e | e in rel && e.dst in reach
  }

  lemma {:induction false} NextRelHas<S(!new)>(trs: seq<Named<S>>, e: Edge<S, ()>)
    ensures e in NextRel(trs) <==> exists t :: t in trs && e in t.rel
  {
    if trs != [] {
      NextRelHas(trs[1..], e);
      assert trs == [trs[0]] + trs[1..];
    }
  }

  lemma {:induction false} InverseHas<S(!new)>(trs: seq<Named<S>>, reach: set<S>, e: Edge<S, ()>)
    ensures e in Inverse(trs, reach) <==> exists t :: t in trs && e in t.invert(reach)
  {
    if trs != [] {
      InverseHas(trs[1..], reach, e);
      assert trs == [trs[0]] + trs[1..];
    }
  }

  /** `r` leads from each state of the envelope to exactly its predecessors inside the envelope. */
  ghost predicate PredOf<S(!new)>(r: Rel<S>, next: Rel<S>, env: set<S>) {
    forall x, y {:trigger Pair(y, x) in r} {:trigger Pair(x, y) in next} ::
      y in env ==> (Pair(y, x) in r <==> x in env && Pair(x, y) in next)
  }

  /** On sets: subsets of the envelope are mapped to exactly their predecessors inside it. */
  lemma PredOfSets<S(!new)>(r: Rel<S>, next: Rel<S>, env: set<S>, xs: set<S>)
    requires PredOf(r, next, env) && xs <= env
    ensures Post(r, xs) == Pre(next, xs) * env
  {
    forall x ensures x in Post(r, xs) <==> x in Pre(next, xs) && x in env {
      if x in Post(r, xs) {
        var e := PostHas(r, xs, x);
        match e.lab case () =>
        assert e == Pair(e.src, x);
        var f := Pair(x, e.src);
        assert f in next && f.dst in xs;
      }
      if x in Pre(next, xs) && x in env {
        var f :| f in next && f.dst in xs && f.src == x;
        match f.lab case () =>
        assert f == Pair(x, f.dst);
        var e := Pair(f.dst, x);
        assert e in r && e.src in xs;
      }
    }
  }

  // ---------------------------------------------------------------- the relation chosen for an envelope

  /** The transition fires somewhere in the envelope. */
  predicate FiresSomewhere<S(==)>(t: Named<S>, reach: set<S>) {
    Post(t.rel, reach) != {}
  }

  /** The inverse of `t` never leaves the envelope. */
  predicate StaysIn<S(==)>(t: Named<S>, reach: set<S>) {
    Post(t.invert(reach), reach) <= reach
  }

  /** Transitions of use in the envelope whose inverse needs no protection. */
  function ToAdd<S(==)>(trs: seq<Named<S>>, reach: set<S>): (r: seq<Named<S>>) {
    if trs == [] then []
    else (if FiresSomewhere(trs[0], reach) && StaysIn(trs[0], reach) then [trs[0]] else []) + ToAdd(trs[1..], reach)
  }

  /** Transitions of use in the envelope whose inverse leaves it. */
  function ToProtect<S(==)>(trs: seq<Named<S>>, reach: set<S>): (r: seq<Named<S>>) {
    if trs == [] then []
    else (if FiresSomewhere(trs[0], reach) && !StaysIn(trs[0], reach) then [trs[0]] else []) + ToProtect(trs[1..], reach)
  }

  /** The inverse as it is when it stays in the envelope; else split in two parts, the second protected. */
  function ChosenRel<S(==)>(trs: seq<Named<S>>, reach: set<S>): Rel<S> {
    var rel := Inverse(trs, reach);
    if NextRel(trs) == {} then {}
    else if Post(rel, reach) <= reach then rel
    else if ToAdd(trs, reach) == [] then Restrict(rel, reach)
    else Inverse(ToAdd(trs, reach), reach) + Restrict(Inverse(ToProtect(trs, reach), reach), reach)
  }

  lemma {:induction false} ToAddHas<S(!new)>(trs: seq<Named<S>>, reach: set<S>, t: Named<S>)
    ensures t in ToAdd(trs, reach) <==> t in trs && FiresSomewhere(t, reach) && StaysIn(t, reach)
  {
    if trs != [] {
      ToAddHas(trs[1..], reach, t);
      assert trs == [trs[0]] + trs[1..];
    }
  }

  lemma {:induction false} ToProtectHas<S(!new)>(trs: seq<Named<S>>, reach: set<S>, t: Named<S>)
    ensures t in ToProtect(trs, reach) <==> t in trs && FiresSomewhere(t, reach) && !StaysIn(t, reach)
  {
    if trs != [] {
      ToProtectHas(trs[1..], reach, t);
      assert trs == [trs[0]] + trs[1..];
    }
  }

  lemma SeqAssoc<T>(a: seq<T>, b: seq<T>, c: seq<T>)
    ensures a + (b + c) == (a + b) + c
  {
  }

  lemma {:induction false} ToAddMore<S(!new)>(trs: seq<Named<S>>, t: Named<S>, reach: set<S>)
    ensures ToAdd(trs + [t], reach) == ToAdd(trs, reach) + ToAdd([t], reach)
  {
    hide StaysIn, FiresSomewhere;
    if trs == [] {
      assert trs + [t] == [t];
    } else {
      ToAddMore(trs[1..], t, reach);
      assert (trs + [t])[1..] == trs[1..] + [t];
      var head := if FiresSomewhere(trs[0], reach) && StaysIn(trs[0], reach) then [trs[0]] else [];
      SeqAssoc(head, ToAdd(trs[1..], reach), ToAdd([t], reach));
    }
  }

  lemma {:induction false} ToProtectMore<S(!new)>(trs: seq<Named<S>>, t: Named<S>, reach: set<S>)
    ensures ToProtect(trs + [t], reach) == ToProtect(trs, reach) + ToProtect([t], reach)
  {
    hide StaysIn, FiresSomewhere;
    if trs == [] {
      assert trs + [t] == [t];
    } else {
      ToProtectMore(trs[1..], t, reach);
      assert (trs + [t])[1..] == trs[1..] + [t];
      var head := if FiresSomewhere(trs[0], reach) && !StaysIn(trs[0], reach) then [trs[0]] else [];
      SeqAssoc(head, ToProtect(trs[1..], reach), ToProtect([t], reach));
    }
  }

  /** Between the envelope and `goal` the inverses taken relative to `reach` are converses. */
  ghost predicate Trusted<S(!new)>(trs: seq<Named<S>>, reach: set<S>, env: set<S>, goal: set<S>) {
    forall t, x, y {:trigger t in trs, Pair(y, x) in t.invert(reach)} ::
      t in trs && x in env && y in env + goal ==> (Pair(y, x) in t.invert(reach) <==> Pair(x, y) in t.rel)
  }

  lemma GoodIsTrusted<S(!new)>(trs: seq<Named<S>>, env: set<S>, goal: set<S>)
    requires GoodInverses(trs) && goal <= env
    ensures Trusted(trs, env, env, goal)
  {
    forall t, x, y | t in trs && x in env && y in env + goal
      ensures Pair(y, x) in t.invert(env) <==> Pair(x, y) in t.rel
    {
      assert GoodInverse(t);
    }
  }

  /** From trusted states the chosen relation leads to exactly their predecessors in the envelope. */
  lemma ChosenIsConverse<S(!new)>(trs: seq<Named<S>>, env: set<S>, goal: set<S>, x: S, y: S)
    requires Trusted(trs, env, env, goal) && x in env && y in env + goal
    ensures Pair(y, x) in ChosenRel(trs, env) <==> Pair(x, y) in NextRel(trs)
  {
    hide StaysIn, ToAdd, ToProtect, Inverse, NextRel;
    var e, f := Pair(y, x), Pair(x, y);
    var adds, protects := ToAdd(trs, env), ToProtect(trs, env);
    NextRelHas(trs, f);
    InverseHas(trs, env, e);
    InverseHas(adds, env, e);
    InverseHas(protects, env, e);
    if t :| t in trs && f in t.rel {
      assert e in t.invert(env);
      assert f.src in env && f.dst in Post(t.rel, env);
      ToAddHas(trs, env, t);
      ToProtectHas(trs, env, t);
    }
    if t :| t in adds && e in t.invert(env) {
      ToAddHas(trs, env, t);
    }
    if t :| t in protects && e in t.invert(env) {
      ToProtectHas(trs, env, t);
    }
  }

  /** From states of the envelope the chosen relation does not leave it. */
  lemma ChosenStays<S(!new)>(trs: seq<Named<S>>, env: set<S>)
    ensures Post(ChosenRel(trs, env), env) <= env
  {
    hide ToAdd, ToProtect;
    forall x | x in Post(ChosenRel(trs, env), env) ensures x in env {
      var e := PostHas(ChosenRel(trs, env), env, x);
      InverseHas(ToAdd(trs, env), env, e);
      if t :| t in ToAdd(trs, env) && e in t.invert(env) {
        ToAddHas(trs, env, t);
        assert x in Post(t.invert(env), env);
      }
      if e in Inverse(trs, env) {
        assert x in Post(Inverse(trs, env), env);
      }
    }
  }

  lemma ChosenIsPred<S(!new)>(trs: seq<Named<S>>, env: set<S>)
    requires GoodInverses(trs)
    ensures PredOf(ChosenRel(trs, env), NextRel(trs), env)
  {
    hide ChosenRel;
    GoodIsTrusted(trs, env, {});
    ChosenStays(trs, env);
    forall x, y | y in env
      ensures Pair(y, x) in ChosenRel(trs, env) <==> x in env && Pair(x, y) in NextRel(trs)
    {
      var e := Pair(y, x);
      if e in ChosenRel(trs, env) {
        assert e.src in env && e.dst in Post(ChosenRel(trs, env), env);
      }
      if x in env { ChosenIsConverse(trs, env, {}, x, y); }
    }
  }

  lemma NoDifference<S(!new)>(a: set<S>, b: set<S>)
    ensures a - b == {} <==> a <= b
  {
    if a - b == {} {
      forall x | x in a ensures x in b {
        assert x !in a - b;
      }
    }
  }

  /** The transitions to add as they are, and those to protect. */
  method Classify<S(==, !new)>(trs: seq<Named<S>>, reach: set<S>) returns (toadd: seq<Named<S>>, toprotect: seq<Named<S>>)
    ensures toadd == ToAdd(trs, reach) && toprotect == ToProtect(trs, reach)
  {
    hide Post;
    toadd, toprotect := [], [];
    var k := 0;
    while k < |trs|
      invariant k <= |trs|
      invariant toadd == ToAdd(trs[..k], reach) && toprotect == ToProtect(trs[..k], reach)
    {
      var t := trs[k];
      assert trs[..k + 1] == trs[..k] + [t];
      ToAddMore(trs[..k], t, reach);
      ToProtectMore(trs[..k], t, reach);
      var res := Post(t.rel, reach);
      if res != {} {
        var preds := Post(t.invert(reach), reach);
        var falsepreds := preds - reach;
        NoDifference(preds, reach);
        if falsepreds != {} {
          toprotect := toprotect + [t];
        } else {
          toadd := toadd + [t];
        }
      }
      k := k + 1;
    }
    assert trs[..k] == trs;
  }

  /** `getPredRel` on an envelope: exact, split into unprotected and protected parts, or protected. */
  method BuildPredRel<S(==, !new)>(trs: seq<Named<S>>, reach: set<S>) returns (pred: Rel<S>)
    ensures pred == ChosenRel(trs, reach)
    ensures GoodInverses(trs) ==> PredOf(pred, NextRel(trs), reach)
  {
    hide Post;
    if GoodInverses(trs) { ChosenIsPred(trs, reach); }
    var nextRel := NextRel(trs);
    if nextRel == {} {
      return {};
    }
    var rel := Inverse(trs, reach);
    var border := Post(rel, reach) - reach;
    NoDifference(Post(rel, reach), reach);
    if border == {} {
      pred := rel;
    } else {
      var toadd, toprotect := Classify(trs, reach);
      if |toadd| > 0 {
        pred := Inverse(toadd, reach) + Restrict(Inverse(toprotect, reach), reach);
      } else {
        pred := Restrict(rel, reach);
      }
    }
  }

  // ---------------------------------------------------------------- the model and its caches

  class ItsModel<S(==, !new)> {
    const trs: seq<Named<S>>
    const init: set<S>
    const printStatesInTrace: bool
    var reached: set<S>   // empty: not computed
    var predRel: Rel<S>   // empty: not computed

    ghost function Reachable(): set<S> {
      ReachSet(NextRel(trs), init)
    }

    ghost predicate Valid()
      reads this
    {
      && GoodInverses(trs)
      && (reached != {} ==> reached == Reachable())
      && (predRel != {} ==> predRel == ChosenRel(trs, Reachable()))
    }

    constructor (trs: seq<Named<S>>, init: set<S>, printStatesInTrace: bool)
      requires GoodInverses(trs)
      ensures Valid() && this.trs == trs && this.init == init && this.printStatesInTrace == printStatesInTrace
    {
      this.trs, this.init, this.printStatesInTrace := trs, init, printStatesInTrace;
      reached, predRel := {}, {};
    }

    method ComputeReachable() returns (r: set<S>)
      requires Valid()
      modifies `reached
      ensures Valid() && r == Reachable()
    {
      if reached == {} {
        reached := Closure(NextRel(trs), init);
      }
      r := reached;
    }

    /** An empty envelope stands for "all reachable states". */
    ghost function Envelope(reach: set<S>): set<S> {
      if reach == {} then Reachable() else reach
    }

    /** `getPredRel`; the result for a given envelope is not cached and clears the cache. */
    method GetPredRel(reachEnvelope: set<S>) returns (r: Rel<S>)
      requires Valid()
      modifies this
      ensures Valid() && r == ChosenRel(trs, Envelope(reachEnvelope))
      ensures PredOf(r, NextRel(trs), Envelope(reachEnvelope))
    {
      hide ChosenRel, PredOf, ReachSet;
      ChosenIsPred(trs, Envelope(reachEnvelope));
      if predRel == {} || reachEnvelope != {} {
        var reach;
        if reachEnvelope == {} {
          reach := ComputeReachable();
        } else {
          reach := reachEnvelope;
        }
        var built := BuildPredRel(trs, reach);
        if reachEnvelope != {} {
          predRel := {};
          return built;
        }
        predRel := built;
      }
      r := predRel;
    }
  }
}
