/** The search for shortest witnesses: backward layers and the forward pass (its/ITSModel.cpp, `findPath`). */
module Witness {
  import opened Graphs
  import opened Its

  // ---------------------------------------------------------------- distance to a goal

  /** The steps taken from states of the envelope. */
  ghost function Within<S>(next: Rel<S>, env: set<S>): Rel<S> {
    set e | e in next && e.src in env
  }

  /** The steps of the model taken from states of the envelope: on their paths all states but the last lie in it. */
  ghost function Inside<S>(trs: seq<Named<S>>, env: set<S>): Rel<S> {
    Within(NextRel(trs), env)
  }

  function Converse<S(==)>(g: Rel<S>): Rel<S> {
    set e | e in g :: Pair(e.dst, e.src)
  }

  /** States from which `goal` can be reached in at most `n` steps. */
  ghost function Near<S(!new)>(g: Rel<S>, goal: set<S>, n: nat): set<S> {
    if n == 0 then goal else Near(g, goal, n - 1) + Pre(g, Near(g, goal, n - 1))
  }

  /** States at distance exactly `n`. */
  ghost function Layer<S(!new)>(g: Rel<S>, goal: set<S>, n: nat): set<S> {
    if n == 0 then goal else Near(g, goal, n) - Near(g, goal, n - 1)
  }

  /** `goal` can be reached from `xs` in exactly `n` steps. */
  ghost predicate CanReach<S(!new)>(g: Rel<S>, xs: set<S>, goal: set<S>, n: nat) {
    exists x, es, y :: x in xs && y in goal && Walk(g, x, es, y) && |es| == n
  }

  lemma {:induction false} NearIsWalk<S(!new)>(g: Rel<S>, goal: set<S>, n: nat, x: S)
    requires x in Near(g, goal, n)
    ensures exists k: nat :: k <= n && CanReach(g, {x}, goal, k)
  {
    var g := g;
    if n == 0 {
      assert Walk(g, x, [], x);
      assert CanReach(g, {x}, goal, 0);
    } else if x in Near(g, goal, n - 1) {
      NearIsWalk(g, goal, n - 1, x);
    } else {
      var e :| e in g && e.dst in Near(g, goal, n - 1) && e.src == x;
      NearIsWalk(g, goal, n - 1, e.dst);
      var k: nat :| k <= n - 1 && CanReach(g, {e.dst}, goal, k);
      var z, es, y :| z in {e.dst} && y in goal && Walk(g, z, es, y) && |es| == k;
      assert ([e] + es)[1..] == es;
      assert Walk(g, x, [e] + es, y);
      assert CanReach(g, {x}, goal, k + 1);
    }
  }

  lemma {:induction false} WalkIsNear<S(!new)>(g: Rel<S>, goal: set<S>, x: S, es: seq<Edge<S, ()>>, y: S)
    requires Walk(g, x, es, y) && y in goal
    ensures x in Near(g, goal, |es|)
  {
    if es != [] {
      WalkIsNear(g, goal, es[0].dst, es[1..], y);
    }
  }

  lemma {:induction false} NearGrows<S(!new)>(g: Rel<S>, goal: set<S>, m: nat, n: nat)
    requires m <= n
    ensures Near(g, goal, m) <= Near(g, goal, n)
    decreases n - m
  {
    if m < n {
      NearGrows(g, goal, m, n - 1);
    }
  }

  lemma {:induction false} NearInSources<S(!new)>(g: Rel<S>, goal: set<S>, n: nat)
    ensures Near(g, goal, n) <= goal + Sources(g)
  {
    if n > 0 {
      NearInSources(g, goal, n - 1);
      forall x | x in Near(g, goal, n) ensures x in goal + Sources(g) {
        if e :| e in g && e.dst in Near(g, goal, n - 1) && e.src == x {
          assert e.src in Sources(g);
        }
      }
    }
  }

  lemma PostIsPre<S(!new)>(rev: Rel<S>, xs: set<S>)
    ensures Post(rev, xs) == Pre(Converse(rev), xs)
  {
    forall x ensures x in Post(rev, xs) <==> x in Pre(Converse(rev), xs) {
      if x in Post(rev, xs) {
        var e := PostHas(rev, xs, x);
        var f := Pair(e.dst, e.src);
        assert f in Converse(rev) && f.dst in xs && f.src == x;
      }
      if f :| f in Converse(rev) && f.dst in xs && f.src == x {
        var e :| e in rev && f == Pair(e.dst, e.src);
        assert e.src in xs && e.dst == x;
      }
    }
  }

  /** One backward step from the last layer gives the next one. */
  lemma {:induction false} NextLayer<S(!new)>(g: Rel<S>, goal: set<S>, n: nat)
    ensures Pre(g, Layer(g, goal, n)) - Near(g, goal, n) == Layer(g, goal, n + 1)
    ensures Near(g, goal, n) + Layer(g, goal, n + 1) == Near(g, goal, n + 1)
  {
    var near, layer := Near(g, goal, n), Layer(g, goal, n);
    forall x ensures x in Pre(g, layer) - near <==> x in Layer(g, goal, n + 1) {
      if x in Layer(g, goal, n + 1) {
        var e :| e in g && e.dst in near && e.src == x;
        assert n > 0 ==> e.dst !in Near(g, goal, n - 1);
      }
    }
  }

  lemma NearUnfold<S(!new)>(g: Rel<S>, goal: set<S>, n: nat)
    ensures Near(g, goal, n + 1) == Near(g, goal, n) + Pre(g, Near(g, goal, n))
  {
  }

  lemma EmptyLayer<S(!new)>(g: Rel<S>, goal: set<S>, n: nat)
    requires Layer(g, goal, n + 1) == {}
    ensures Near(g, goal, n + 1) == Near(g, goal, n)
  {
    hide Near;
    NearGrows(g, goal, n, n + 1);
    forall x | x in Near(g, goal, n + 1) ensures x in Near(g, goal, n) {
      assert x !in Layer(g, goal, n + 1);
    }
  }

  /** Once a layer is empty nothing further away reaches the goal. */
  lemma {:induction false} NearStable<S(!new)>(g: Rel<S>, goal: set<S>, n: nat, k: nat)
    requires Layer(g, goal, n + 1) == {} && n <= k
    ensures Near(g, goal, k) == Near(g, goal, n)
    decreases k - n
  {
    hide Near, Layer, Pre;
    if n < k {
      NearStable(g, goal, n, k - 1);
      EmptyLayer(g, goal, n);
      NearUnfold(g, goal, n);
      NearUnfold(g, goal, k - 1);
    }
  }

  // ---------------------------------------------------------------- the backward search

  /** `comps` are the layers `|comps| - 1, ..., 1, 0`. */
  ghost predicate Layers<S(!new)>(g: Rel<S>, goal: set<S>, comps: seq<set<S>>) {
    comps != [] && forall i {:trigger comps[i]} :: 0 <= i < |comps| ==> comps[i] == Layer(g, goal, |comps| - 1 - i)
  }

  lemma PushLayer<S(!new)>(g: Rel<S>, goal: set<S>, comps: seq<set<S>>, m: set<S>)
    requires Layers(g, goal, comps) && m == Layer(g, goal, |comps|)
    ensures Layers(g, goal, [m] + comps)
  {
    hide Layer;
  }

  /** The search has reached a fixpoint without meeting `init`. */
  lemma NeverMeets<S(!new)>(g: Rel<S>, goal: set<S>, init: set<S>, n: nat)
    requires init * Near(g, goal, n) == {} && Layer(g, goal, n + 1) == {}
    ensures forall k: nat :: init * Near(g, goal, k) == {}
  {
    forall k: nat ensures init * Near(g, goal, k) == {} {
      if k >= n { NearStable(g, goal, n, k); } else { NearGrows(g, goal, k, n); }
    }
  }

  lemma StartLayers<S(!new)>(g: Rel<S>, goal: set<S>)
    ensures Layers(g, goal, [goal]) && Near(g, goal, 0) == goal
  {
  }

  lemma FirstLayer<S(!new)>(g: Rel<S>, goal: set<S>, comps: seq<set<S>>)
    requires Layers(g, goal, comps)
    ensures comps != [] && comps[0] == Layer(g, goal, |comps| - 1)
  {
  }

  lemma LayerInNear<S(!new)>(g: Rel<S>, goal: set<S>, n: nat)
    ensures Layer(g, goal, n) <= Near(g, goal, n)
  {
  }

  /** What the backward search found: the layers, and the first that meets `init`. */
  ghost predicate Searched<S(!new)>(g: Rel<S>, init: set<S>, goal: set<S>, found: bool, layers: seq<set<S>>, meet: set<S>) {
    && Layers(g, goal, layers)
    && init * Near(g, goal, |layers| - 1) == {}
    && (found ==> meet == Layer(g, goal, |layers|) && init * meet != {})
    && (!found ==> forall n: nat :: init * Near(g, goal, n) == {})
  }

  /** Layers of predecessors, pushed in front until one meets `init`. `comps` excludes that last layer,
      which is returned in `meet`. */
  method BackwardLayers<S(==, !new)>(rev: Rel<S>, init: set<S>, toreach: set<S>)
      returns (found: bool, comps: seq<set<S>>, meet: set<S>)
    requires init * toreach == {}
    ensures Searched(Converse(rev), init, toreach, found, comps, meet)
  {
    hide Near, Layer, Layers, Post, Pre, Converse, Sources;
    ghost var g := Converse(rev);
    StartLayers(g, toreach);
    comps := [toreach];
    var m3 := toreach;
    var seen := m3;
    while true
      invariant comps != [] && Layers(g, toreach, comps) && m3 == comps[0]
      invariant seen == Near(g, toreach, |comps| - 1) && seen <= toreach + Sources(g)
      invariant init * seen == {}
      decreases toreach + Sources(g) - seen
    {
      ghost var n := |comps| - 1;
      FirstLayer(g, toreach, comps);
      PostIsPre(rev, m3);
      NextLayer(g, toreach, n);
      LayerInNear(g, toreach, n);
      NearInSources(g, toreach, n + 1);
      var m2 := Post(rev, m3) - seen;
      if m2 == {} {
        NeverMeets(g, toreach, init, n);
        return false, comps, {};
      }
      seen := seen + m2;
      if init * m2 == {} {
        PushLayer(g, toreach, comps, m2);
        comps := [m2] + comps;
        // the states of a layer are new, so the layer differs from the previous one
        assert m3 != m2;
        m3 := m2;
      } else {
        return true, comps, m2;
      }
    }
  }

  // ---------------------------------------------------------------- when the search stays in the envelope

  /** Outside the goal, the predecessors of the goal under the chosen relation lie in the envelope. */
  ghost predicate StaysInside<S(!new)>(trs: seq<Named<S>>, env: set<S>, goal: set<S>) {
    Post(ChosenRel(trs, env), goal) - goal <= env
  }

  lemma InsideHas<S(!new)>(trs: seq<Named<S>>, env: set<S>, x: S, y: S)
    ensures Pair(x, y) in Inside(trs, env) <==> x in env && Pair(x, y) in NextRel(trs)
  {
  }

  lemma ConverseHas<S(!new)>(rev: Rel<S>, x: S, y: S)
    ensures Pair(x, y) in Converse(rev) <==> Pair(y, x) in rev
  {
    if Pair(x, y) in Converse(rev) {
      var e :| e in rev && Pair(x, y) == Pair(e.dst, e.src);
      match e.lab case () =>
      assert e == Pair(y, x);
    }
    if Pair(y, x) in rev {
      var e := Pair(y, x);
      assert Pair(e.dst, e.src) in Converse(rev);
    }
  }

  /** Outside `ys`, both relations lead to the same predecessors of `ys`. */
  lemma SamePre<S(!new)>(trs: seq<Named<S>>, env: set<S>, goal: set<S>, ys: set<S>)
    requires Trusted(trs, env, env, goal) && StaysInside(trs, env, goal) && goal <= ys <= env + goal
    ensures ys + Pre(Converse(ChosenRel(trs, env)), ys) == ys + Pre(Inside(trs, env), ys)
  {
    hide ChosenRel, Inside, NextRel, Trusted, Converse;
    var rev := ChosenRel(trs, env);
    forall x | x in Pre(Converse(rev), ys) && x !in ys ensures x in Pre(Inside(trs, env), ys) {
      var f :| f in Converse(rev) && f.dst in ys && f.src == x;
      match f.lab case () =>
      ConverseHas(rev, x, f.dst);
      assert f == Pair(x, f.dst);
      var e := Pair(f.dst, x);
      assert e.src in ys && e.dst == x;
      ChosenStays(trs, env);
      assert x in env by {
        if e.src in env { assert x in Post(rev, env); } else { assert x in Post(rev, goal) - goal; }
      }
      ChosenIsConverse(trs, env, goal, x, f.dst);
      InsideHas(trs, env, x, f.dst);
    }
    forall x | x in Pre(Inside(trs, env), ys) ensures x in Pre(Converse(rev), ys) {
      var f :| f in Inside(trs, env) && f.dst in ys && f.src == x;
      match f.lab case () =>
      assert f == Pair(x, f.dst);
      InsideHas(trs, env, x, f.dst);
      ChosenIsConverse(trs, env, goal, x, f.dst);
      ConverseHas(rev, x, f.dst);
    }
  }

  /** Then the search measures distances inside the envelope. */
  lemma {:induction false} SameNear<S(!new)>(trs: seq<Named<S>>, env: set<S>, goal: set<S>, n: nat)
    requires Trusted(trs, env, env, goal) && StaysInside(trs, env, goal)
    ensures Near(Converse(ChosenRel(trs, env)), goal, n) == Near(Inside(trs, env), goal, n)
    ensures goal <= Near(Inside(trs, env), goal, n) <= env + goal
  {
    hide ChosenRel, Trusted, StaysInside;
    if n > 0 {
      SameNear(trs, env, goal, n - 1);
      SamePre(trs, env, goal, Near(Inside(trs, env), goal, n - 1));
      NearInSources(Inside(trs, env), goal, n);
    }
  }

  /** In both relations the states at each distance from the goal are the same. */
  ghost predicate SameDistances<S(!new)>(g: Rel<S>, h: Rel<S>, goal: set<S>) {
    forall n: nat :: Near(g, goal, n) == Near(h, goal, n)
  }

  /** The search measures distances inside the envelope exactly when it stays inside. */
  lemma StaysInsideIff<S(!new)>(trs: seq<Named<S>>, env: set<S>, goal: set<S>)
    requires Trusted(trs, env, env, goal)
    ensures StaysInside(trs, env, goal) <==> SameDistances(Converse(ChosenRel(trs, env)), Inside(trs, env), goal)
  {
    hide ChosenRel, Trusted, Inside;
    var rev, g := ChosenRel(trs, env), Inside(trs, env);
    if StaysInside(trs, env, goal) {
      forall n: nat ensures Near(Converse(rev), goal, n) == Near(g, goal, n) {
        SameNear(trs, env, goal, n);
      }
    }
    if SameDistances(Converse(rev), g, goal) {
      PostIsPre(rev, goal);
      assert Near(Converse(rev), goal, 1) == Near(Converse(rev), goal, 0) + Pre(Converse(rev), Near(Converse(rev), goal, 0));
      forall x | x in Post(rev, goal) - goal ensures x in env {
        assert x in Near(Converse(rev), goal, 1);
        assert x in Near(g, goal, 1) && Near(g, goal, 1) == Near(g, goal, 0) + Pre(g, Near(g, goal, 0));
        var f :| f in g && f.dst in goal && f.src == x;
        InsideSources(trs, env, f);
      }
    }
  }

  lemma InsideSources<S(!new)>(trs: seq<Named<S>>, env: set<S>, f: Edge<S, ()>)
    requires f in Inside(trs, env)
    ensures f.src in env && f in NextRel(trs)
  {
  }

  // ---------------------------------------------------------------- firing sequences

  /** The transitions with indices `idx`, fired in order, can lead from `x` to `y`. */
  ghost predicate Fires<S(!new)>(trs: seq<Named<S>>, idx: seq<nat>, x: S, y: S)
    requires InRange(trs, idx)
  {
    if idx == [] then x == y
    else exists z :: Pair(x, z) in trs[idx[0]].rel && Fires(trs, idx[1..], z, y)
  }

  ghost predicate InRange<S>(trs: seq<Named<S>>, idx: seq<nat>) {
    forall j :: 0 <= j < |idx| ==> idx[j] < |trs|
  }

  ghost function Names<S>(trs: seq<Named<S>>, idx: seq<nat>): (r: seq<string>)
    requires InRange(trs, idx)
    ensures |r| == |idx| && forall j :: 0 <= j < |idx| ==> r[j] == trs[idx[j]].name
  {
    seq(|idx|, j requires 0 <= j < |idx| => trs[idx[j]].name)
  }

  /** Every state of `states[j+1]` is entered from `states[j]` by the `j`-th transition. */
  ghost predicate Entered<S(!new)>(trs: seq<Named<S>>, idx: seq<nat>, states: seq<set<S>>, j: nat)
    requires InRange(trs, idx) && |states| == |idx| + 1 && j < |idx|
  {
    states[j + 1] <= Post(trs[idx[j]].rel, states[j])
  }

  /** Every state of `states[j]` can fire the `j`-th transition into `states[j+1]`. */
  ghost predicate Leaves<S(!new)>(trs: seq<Named<S>>, idx: seq<nat>, states: seq<set<S>>, j: nat)
    requires InRange(trs, idx) && |states| == |idx| + 1 && j < |idx|
  {
    states[j] <= Pre(trs[idx[j]].rel, states[j + 1])
  }

  ghost predicate AllEntered<S(!new)>(trs: seq<Named<S>>, idx: seq<nat>, states: seq<set<S>>) {
    InRange(trs, idx) && |states| == |idx| + 1 && forall j: nat :: j < |idx| ==> Entered(trs, idx, states, j)
  }

  ghost predicate AllLeave<S(!new)>(trs: seq<Named<S>>, idx: seq<nat>, states: seq<set<S>>) {
    InRange(trs, idx) && |states| == |idx| + 1 && forall j: nat :: j < |idx| ==> Leaves(trs, idx, states, j)
  }

  lemma {:induction false} EnteredFires<S(!new)>(trs: seq<Named<S>>, idx: seq<nat>, states: seq<set<S>>, y: S) returns (x: S)
    requires AllEntered(trs, idx, states) && y in states[|idx|]
    ensures x in states[0] && Fires(trs, idx, x, y)
    decreases |idx|
  {
    if idx == [] {
      x := y;
    } else {
      var rest, later := idx[1..], states[1..];
      forall j: nat | j < |rest| ensures Entered(trs, rest, later, j) {
        assert Entered(trs, idx, states, j + 1);
      }
      var z := EnteredFires(trs, rest, later, y);
      assert Entered(trs, idx, states, 0);
      var e := PostHas(trs[idx[0]].rel, states[0], z);
      match e.lab case () =>
      x := e.src;
      assert Pair(x, z) in trs[idx[0]].rel;
    }
  }

  // ---------------------------------------------------------------- firing inside the envelope

  /** `idx` leads from `x` to `y` inside the envelope. */
  ghost predicate FiresIn<S(!new)>(trs: seq<Named<S>>, env: set<S>, idx: seq<nat>, x: S, y: S)
    requires InRange(trs, idx)
  {
    if idx == [] then x == y
    else exists z :: x in env && Pair(x, z) in trs[idx[0]].rel && FiresIn(trs, env, idx[1..], z, y)
  }

  lemma {:induction false} FiresInWalk<S(!new)>(trs: seq<Named<S>>, env: set<S>, idx: seq<nat>, x: S, y: S) returns (es: seq<Edge<S, ()>>)
    requires InRange(trs, idx) && FiresIn(trs, env, idx, x, y)
    ensures Walk(Inside(trs, env), x, es, y) && |es| == |idx|
  {
    if idx == [] {
      es := [];
    } else {
      var z :| x in env && Pair(x, z) in trs[idx[0]].rel && FiresIn(trs, env, idx[1..], z, y);
      var rest := FiresInWalk(trs, env, idx[1..], z, y);
      var e := Pair(x, z);
      NextRelHas(trs, e);
      assert trs[idx[0]] in trs;
      es := [e] + rest;
      assert es[1..] == rest;
    }
  }

  lemma FiresInNear<S(!new)>(trs: seq<Named<S>>, env: set<S>, goal: set<S>, idx: seq<nat>, x: S, y: S)
    requires InRange(trs, idx) && FiresIn(trs, env, idx, x, y) && y in goal
    ensures x in Near(Inside(trs, env), goal, |idx|) && CanReach(Inside(trs, env), {x}, goal, |idx|)
  {
    var es := FiresInWalk(trs, env, idx, x, y);
    WalkIsNear(Inside(trs, env), goal, x, es, y);
  }

  lemma NearStep<S(!new)>(trs: seq<Named<S>>, env: set<S>, goal: set<S>, i: nat, x: S, z: S, n: nat)
    requires i < |trs| && Pair(x, z) in trs[i].rel && x in env && z in Near(Inside(trs, env), goal, n)
    ensures x in Near(Inside(trs, env), goal, n + 1)
  {
    var e := Pair(x, z);
    NextRelHas(trs, e);
    assert trs[i] in trs;
    assert e in Inside(trs, env) && e.dst in Near(Inside(trs, env), goal, n);
  }

  lemma {:induction false} FiresInFires<S(!new)>(trs: seq<Named<S>>, env: set<S>, idx: seq<nat>, x: S, y: S)
    requires InRange(trs, idx) && FiresIn(trs, env, idx, x, y)
    ensures Fires(trs, idx, x, y)
  {
    if idx != [] {
      var z :| x in env && Pair(x, z) in trs[idx[0]].rel && FiresIn(trs, env, idx[1..], z, y);
      FiresInFires(trs, env, idx[1..], z, y);
    }
  }

  lemma {:induction false} FiresInConcat<S(!new)>(trs: seq<Named<S>>, env: set<S>, a: seq<nat>, b: seq<nat>, x: S, y: S, z: S)
    requires InRange(trs, a) && InRange(trs, b) && FiresIn(trs, env, a, x, y) && FiresIn(trs, env, b, y, z)
    ensures InRange(trs, a + b) && FiresIn(trs, env, a + b, x, z)
  {
    if a == [] {
      assert a + b == b;
    } else {
      var u :| x in env && Pair(x, u) in trs[a[0]].rel && FiresIn(trs, env, a[1..], u, y);
      FiresInConcat(trs, env, a[1..], b, u, y, z);
      assert (a + b)[1..] == a[1..] + b;
    }
  }

  lemma {:induction false} FiresInSplit<S(!new)>(trs: seq<Named<S>>, env: set<S>, idx: seq<nat>, k: nat, x: S, z: S) returns (y: S)
    requires InRange(trs, idx) && FiresIn(trs, env, idx, x, z) && k <= |idx|
    ensures InRange(trs, idx[..k]) && FiresIn(trs, env, idx[..k], x, y) && InRange(trs, idx[k..]) && FiresIn(trs, env, idx[k..], y, z)
  {
    if k == 0 {
      y := x;
      assert idx[0..] == idx && idx[..0] == [];
    } else {
      var u :| x in env && Pair(x, u) in trs[idx[0]].rel && FiresIn(trs, env, idx[1..], u, z);
      y := FiresInSplit(trs, env, idx[1..], k - 1, u, z);
      assert idx[..k][1..] == idx[1..][..k - 1] && idx[1..][k - 1..] == idx[k..];
    }
  }

  lemma FiresInOne<S(!new)>(trs: seq<Named<S>>, env: set<S>, i: nat, x: S, y: S)
    requires i < |trs|
    ensures InRange(trs, [i]) && (FiresIn(trs, env, [i], x, y) <==> x in env && Pair(x, y) in trs[i].rel)
  {
    assert [i][1..] == [];
    assert forall z :: FiresIn(trs, env, [i][1..], z, y) <==> z == y;
  }

  /** Lexicographic order on sequences of equal length. */
  ghost predicate LexBefore(a: seq<nat>, b: seq<nat>)
    requires |a| == |b|
  {
    a != [] && (a[0] < b[0] || (a[0] == b[0] && LexBefore(a[1..], b[1..])))
  }

  lemma {:induction false} LexNotBoth(a: seq<nat>, b: seq<nat>)
    requires |a| == |b| && LexBefore(a, b)
    ensures a != b && !LexBefore(b, a)
  {
    if a[0] == b[0] { LexNotBoth(a[1..], b[1..]); }
  }

  // ---------------------------------------------------------------- the forward pass

  /** `comps[j]` lies in the layer at distance `|comps| - 1 - j`; all but the first are whole layers. */
  ghost predicate Ladder<S(!new)>(g: Rel<S>, goal: set<S>, comps: seq<set<S>>) {
    && comps != [] && comps[0] != {} && comps[0] <= Layer(g, goal, |comps| - 1)
    && forall j {:trigger comps[j]} :: 1 <= j < |comps| ==> comps[j] == Layer(g, goal, |comps| - 1 - j)
  }

  /** Some transition leads from `xs` into `ys`. */
  ghost predicate Steps<S(!new)>(trs: seq<Named<S>>, xs: set<S>, ys: set<S>) {
    exists i: nat :: i < |trs| && Post(trs[i].rel, xs) * ys != {}
  }

  ghost predicate StepsDown<S(!new)>(trs: seq<Named<S>>, g: Rel<S>, goal: set<S>, n: nat, x: S) {
    n > 0 && x in Layer(g, goal, n) ==> Steps(trs, {x}, Layer(g, goal, n - 1))
  }

  /** Every state of a layer can make a step of the model into the next. */
  ghost predicate Climbable<S(!new)>(trs: seq<Named<S>>, g: Rel<S>, goal: set<S>) {
    forall n: nat, x {:trigger StepsDown(trs, g, goal, n, x)} :: StepsDown(trs, g, goal, n, x)
  }

  /** So it is when all steps of the graph are steps of the model. */
  lemma RealIsClimbable<S(!new)>(trs: seq<Named<S>>, g: Rel<S>, goal: set<S>)
    requires g <= NextRel(trs)
    ensures Climbable(trs, g, goal)
  {
    forall n: nat, x | n > 0 && x in Layer(g, goal, n) ensures Steps(trs, {x}, Layer(g, goal, n - 1)) {
      var e :| e in g && e.dst in Near(g, goal, n - 1) && e.src == x;
      assert n > 1 ==> e.dst !in Near(g, goal, n - 2);
      NextRelHas(trs, e);
      var t :| t in trs && e in t.rel;
      var i: nat :| i < |trs| && trs[i] == t;
      assert e.dst in Post(trs[i].rel, {x}) * Layer(g, goal, n - 1);
    }
  }

  /** From any part of a layer some transition enters the next layer. */
  lemma NotStuck<S(!new)>(trs: seq<Named<S>>, g: Rel<S>, goal: set<S>, n: nat, xs: set<S>) returns (i: nat)
    requires Climbable(trs, g, goal) && xs != {} && xs <= Layer(g, goal, n + 1)
    ensures i < |trs| && Post(trs[i].rel, xs) * Layer(g, goal, n) != {}
  {
    hide Layer;
    var x :| x in xs;
    assert StepsDown(trs, g, goal, n + 1, x);
    i :| i < |trs| && Post(trs[i].rel, {x}) * Layer(g, goal, n) != {};
    PostGrows(trs[i].rel, {x}, xs);
  }

  lemma PostGrows<S(!new)>(g: Rel<S>, xs: set<S>, ys: set<S>)
    requires xs <= ys
    ensures Post(g, xs) <= Post(g, ys)
  {
  }

  lemma LadderFacts<S(!new)>(g: Rel<S>, goal: set<S>, comps: seq<set<S>>)
    requires Ladder(g, goal, comps)
    ensures comps != [] && comps[0] != {}
    ensures forall j {:trigger comps[j]} :: 0 <= j < |comps| ==> comps[j] <= Layer(g, goal, |comps| - 1 - j)
    ensures forall j {:trigger comps[j]} :: 1 <= j < |comps| ==> comps[j] == Layer(g, goal, |comps| - 1 - j)
  {
    hide Layer;
  }

  /** First transition, in order, that leads from `from` into `into`. */
  method FirstMatch<S(==, !new)>(trs: seq<Named<S>>, from: set<S>, into: set<S>) returns (ok: bool, i: nat, hit: set<S>)
    ensures ok ==> i < |trs| && hit == Post(trs[i].rel, from) * into && hit != {}
    ensures ok ==> forall k: nat :: k < i ==> Post(trs[k].rel, from) * into == {}
    ensures !ok ==> forall k: nat :: k < |trs| ==> Post(trs[k].rel, from) * into == {}
  {
    i := 0;
    while i < |trs|
      invariant i <= |trs|
      invariant forall k: nat :: k < i ==> Post(trs[k].rel, from) * into == {}
    {
      hit := Post(trs[i].rel, from) * into;
      if hit != {} {
        return true, i, hit;
      }
      i := i + 1;
    }
    return false, i, {};
  }

  /** No transition before the `j`-th of the sequence leads from `states[j]` into `states[j+1]`. */
  ghost predicate NoneBefore<S(!new)>(trs: seq<Named<S>>, idx: seq<nat>, states: seq<set<S>>, j: nat)
    requires InRange(trs, idx) && |states| == |idx| + 1 && j < |idx|
  {
    forall k: nat :: k < idx[j] ==> Post(trs[k].rel, states[j]) * states[j + 1] == {}
  }

  ghost predicate AllFirst<S(!new)>(trs: seq<Named<S>>, idx: seq<nat>, states: seq<set<S>>) {
    InRange(trs, idx) && |states| == |idx| + 1 && forall j: nat :: j < |idx| ==> NoneBefore(trs, idx, states, j)
  }

  /** The `j`-th transition is the first that leads from `states[j]` into `layers[j+1]`, and all it reaches there is kept. */
  ghost predicate Chosen<S(!new)>(trs: seq<Named<S>>, idx: seq<nat>, layers: seq<set<S>>, states: seq<set<S>>, j: nat)
    requires InRange(trs, idx) && |states| == |layers| == |idx| + 1 && j < |idx|
  {
    && states[j + 1] == Post(trs[idx[j]].rel, states[j]) * layers[j + 1]
    && forall k: nat :: k < idx[j] ==> Post(trs[k].rel, states[j]) * layers[j + 1] == {}
  }

  ghost predicate AllChosen<S(!new)>(trs: seq<Named<S>>, idx: seq<nat>, layers: seq<set<S>>, states: seq<set<S>>) {
    && InRange(trs, idx) && |states| == |layers| == |idx| + 1 && states[0] == layers[0]
    && (forall j: nat :: j < |idx| ==> Chosen(trs, idx, layers, states, j))
    && (forall j {:trigger states[j]} :: 0 <= j < |states| ==> states[j] != {})
  }

  lemma ChosenPass<S(!new)>(trs: seq<Named<S>>, idx: seq<nat>, layers: seq<set<S>>, states: seq<set<S>>)
    requires AllChosen(trs, idx, layers, states)
    ensures AllEntered(trs, idx, states) && AllFirst(trs, idx, states) && |states| == |layers| == |idx| + 1
    ensures forall j {:trigger states[j]} :: 0 <= j < |states| ==> states[j] != {} && states[j] <= layers[j]
  {
    hide Post;
    forall j: nat | j < |idx|
      ensures Entered(trs, idx, states, j) && NoneBefore(trs, idx, states, j) && states[j + 1] <= layers[j + 1]
    {
      assert Chosen(trs, idx, layers, states, j);
    }
    forall j | 0 <= j < |states| ensures states[j] <= layers[j] {
      if j > 0 { assert Chosen(trs, idx, layers, states, j - 1); }
    }
  }

  lemma ChooseMore<S(!new)>(trs: seq<Named<S>>, idx: seq<nat>, layers: seq<set<S>>, states: seq<set<S>>, i: nat, layer: set<S>, hit: set<S>)
    requires AllChosen(trs, idx, layers, states) && i < |trs|
    requires hit == Post(trs[i].rel, states[|idx|]) * layer && hit != {}
    requires forall k: nat :: k < i ==> Post(trs[k].rel, states[|idx|]) * layer == {}
    ensures AllChosen(trs, idx + [i], layers + [layer], states + [hit])
  {
    hide Post;
    var idx', layers', states' := idx + [i], layers + [layer], states + [hit];
    forall j: nat | j < |idx'| ensures Chosen(trs, idx', layers', states', j) {
      if j < |idx| { assert Chosen(trs, idx, layers, states, j); }
    }
  }

  /** Walk the layers forward, keeping in each only what the chosen transition reaches. A layer that no transition
      enters is left as it is, and its step gets no name. */
  method ForwardPass<S(==, !new)>(trs: seq<Named<S>>, comps0: seq<set<S>>, ghost g: Rel<S>, ghost goal: set<S>)
      returns (fired: seq<string>, comps: seq<set<S>>, ghost idx: seq<nat>)
    requires comps0 != [] && comps0[0] != {}
    ensures |comps| == |comps0| > |fired| && comps[0] == comps0[0]
    ensures forall j :: 0 <= j < |comps| ==> comps[j] <= comps0[j]
    ensures InRange(trs, idx) && fired == Names(trs, idx)
    ensures |fired| + 1 == |comps| ==> AllChosen(trs, idx, comps0, comps)
    ensures Ladder(g, goal, comps0) && Climbable(trs, g, goal) ==> |fired| + 1 == |comps|
  {
    hide Ladder, Layer, Climbable, Chosen, NextRel, Post;
    ghost var climbs := Ladder(g, goal, comps0) && Climbable(trs, g, goal);
    if climbs { LadderFacts(g, goal, comps0); }
    comps := comps0;
    idx, fired := [], [];
    var c := 0;
    while c + 1 < |comps|
      invariant c < |comps| == |comps0| && |idx| <= c && comps[0] == comps0[0]
      invariant InRange(trs, idx) && fired == Names(trs, idx)
      invariant forall j :: 0 <= j < |comps| ==> comps[j] <= comps0[j]
      invariant forall j :: c < j < |comps| ==> comps[j] == comps0[j]
      invariant |idx| == c ==> AllChosen(trs, idx, comps0[..c + 1], comps[..c + 1])
      invariant climbs ==> |idx| == c
    {
      var ok, i, hit := FirstMatch(trs, comps[c], comps[c + 1]);
      if climbs {
        assert comps[..c + 1][c] != {};
        ghost var w := NotStuck(trs, g, goal, |comps| - 2 - c, comps[c]);
      }
      if ok {
        if |idx| == c { ChooseMore(trs, idx, comps0[..c + 1], comps[..c + 1], i, comps[c + 1], hit); }
        comps := comps[c + 1 := hit];
        fired := fired + [trs[i].name];
        idx := idx + [i];
        assert comps[..c + 2] == comps[..c + 1] + [hit] && comps0[..c + 2] == comps0[..c + 1] + [comps0[c + 1]];
      }
      c := c + 1;
    }
    assert comps[..c + 1] == comps && comps0[..c + 1] == comps0;
  }

  // ---------------------------------------------------------------- what the search has found

  ghost predicate Reachable<S(!new)>(g: Rel<S>, xs: set<S>, goal: set<S>) {
    exists n: nat :: CanReach(g, xs, goal, n)
  }

  lemma CanReachNear<S(!new)>(g: Rel<S>, xs: set<S>, goal: set<S>, n: nat)
    requires CanReach(g, xs, goal, n)
    ensures xs * Near(g, goal, n) != {}
  {
    var x, es, y :| x in xs && y in goal && Walk(g, x, es, y) && |es| == n;
    WalkIsNear(g, goal, x, es, y);
    assert x in xs * Near(g, goal, n);
  }

  /** No path is shorter than the number of layers crossed. */
  lemma NothingShorter<S(!new)>(g: Rel<S>, xs: set<S>, goal: set<S>, k: nat)
    requires xs * Near(g, goal, k) == {}
    ensures forall n: nat :: n <= k ==> !CanReach(g, xs, goal, n)
  {
    forall n: nat | n <= k && CanReach(g, xs, goal, n) ensures false {
      CanReachNear(g, xs, goal, n);
      NearGrows(g, goal, n, k);
    }
  }

  lemma MeetReaches<S(!new)>(g: Rel<S>, xs: set<S>, goal: set<S>, k: nat)
    requires k > 0 && xs * Near(g, goal, k - 1) == {} && xs * Layer(g, goal, k) != {}
    ensures CanReach(g, xs, goal, k)
  {
    var x :| x in xs * Layer(g, goal, k);
    NearIsWalk(g, goal, k, x);
    var n: nat :| n <= k && CanReach(g, {x}, goal, n);
    var z, es, y :| z in {x} && y in goal && Walk(g, z, es, y) && |es| == n;
    assert CanReach(g, xs, goal, n);
    NothingShorter(g, xs, goal, k - 1);
  }

  /** `idx` is a transition sequence from `init` to `goal`, as long as the shortest path of `g`. */
  ghost predicate Shortest<S(!new)>(trs: seq<Named<S>>, g: Rel<S>, init: set<S>, goal: set<S>, idx: seq<nat>) {
    && InRange(trs, idx)
    && (exists x, y :: x in init && y in goal && Fires(trs, idx, x, y))
    && CanReach(g, init, goal, |idx|)
    && forall n: nat :: n < |idx| ==> !CanReach(g, init, goal, n)
  }

  /** The search sees a relation only through its distances. */
  lemma SearchedSame<S(!new)>(g: Rel<S>, h: Rel<S>, init: set<S>, goal: set<S>, found: bool, layers: seq<set<S>>, meet: set<S>)
    requires Searched(g, init, goal, found, layers, meet)
    requires SameDistances(g, h, goal)
    ensures Searched(h, init, goal, found, layers, meet)
  {
    hide Near;
    forall n: nat ensures Layer(g, goal, n) == Layer(h, goal, n) {
      if n > 0 { assert Near(g, goal, n - 1) == Near(h, goal, n - 1); }
    }
  }

  lemma SearchedFacts<S(!new)>(g: Rel<S>, init: set<S>, goal: set<S>, found: bool, layers: seq<set<S>>, meet: set<S>)
    requires Searched(g, init, goal, found, layers, meet)
    ensures layers != [] && layers[|layers| - 1] == goal
    ensures found ==> init * meet != {}
    ensures found <==> Reachable(g, init, goal)
  {
    hide Near;
    if found { MeetReaches(g, init, goal, |layers|); }
    if !found && Reachable(g, init, goal) {
      var n: nat :| CanReach(g, init, goal, n);
      CanReachNear(g, init, goal, n);
    }
  }

  /** The ladder the forward pass climbs. */
  lemma FoundLadder<S(!new)>(g: Rel<S>, init: set<S>, goal: set<S>, layers: seq<set<S>>, meet: set<S>)
    requires Searched(g, init, goal, true, layers, meet)
    ensures Ladder(g, goal, [meet * init] + layers)
  {
    hide Layer, Near;
    var all := [meet * init] + layers;
    forall j | 1 <= j < |all| ensures all[j] == Layer(g, goal, |all| - 1 - j) {
      assert all[j] == layers[j - 1];
    }
  }

  lemma LayersApart<S(!new)>(g: Rel<S>, goal: set<S>, n: nat)
    ensures Layer(g, goal, n + 1) * Layer(g, goal, n) == {} && Layer(g, goal, n + 1) <= Sources(g)
  {
    hide Pre, Sources;
    LayerInNear(g, goal, n);
    forall x | x in Layer(g, goal, n + 1) ensures x in Sources(g) {
      assert x in Pre(g, Near(g, goal, n));
      PreInSources(g, Near(g, goal, n));
    }
  }

  lemma PreInSources<S(!new)>(g: Rel<S>, ys: set<S>)
    ensures Pre(g, ys) <= Sources(g)
  {
    forall x | x in Pre(g, ys) ensures x in Sources(g) {
      var e :| e in g && e.dst in ys && e.src == x;
    }
  }

  lemma FirstLayerIsGoal<S(!new)>(g: Rel<S>, goal: set<S>)
    ensures Layer(g, goal, 0) == goal
  {
  }

  lemma InsideFrom<S(!new)>(trs: seq<Named<S>>, env: set<S>)
    ensures Sources(Inside(trs, env)) <= env && Inside(trs, env) <= NextRel(trs)
  {
  }

  /** What the passes establish about the witness. */
  lemma WitnessFound<S(!new)>(trs: seq<Named<S>>, g: Rel<S>, init: set<S>, goal: set<S>, layers: seq<set<S>>, meet: set<S>,
                              idx: seq<nat>, comps: seq<set<S>>)
    requires Searched(g, init, goal, true, layers, meet)
    requires AllEntered(trs, idx, comps) && |comps| == |layers| + 1
    requires comps[0] <= init && comps[|idx|] != {} && comps[|idx|] <= goal
    ensures Shortest(trs, g, init, goal, idx) && Reachable(g, init, goal)
  {
    hide Near, Layer, Fires, CanReach;
    var y :| y in comps[|idx|];
    var x := EnteredFires(trs, idx, comps, y);
    MeetReaches(g, init, goal, |layers|);
    NothingShorter(g, init, goal, |layers| - 1);
  }

  /** The search read in the envelope, when it stays there. */
  lemma SearchInside<S(!new)>(trs: seq<Named<S>>, env: set<S>, init: set<S>, goal: set<S>, found: bool, layers: seq<set<S>>, meet: set<S>)
    requires Searched(Converse(ChosenRel(trs, env)), init, goal, found, layers, meet)
    requires Trusted(trs, env, env, goal) && StaysInside(trs, env, goal)
    ensures Searched(Inside(trs, env), init, goal, found, layers, meet)
  {
    hide Searched, Inside, Trusted, StaysInside, Near, Converse, ChosenRel;
    StaysInsideIff(trs, env, goal);
    SearchedSame(Converse(ChosenRel(trs, env)), Inside(trs, env), init, goal, found, layers, meet);
  }

  /** Some start state at distance `n` makes a step of the model towards the goal. */
  ghost predicate FirstStep<S(!new)>(trs: seq<Named<S>>, g: Rel<S>, init: set<S>, goal: set<S>, n: nat) {
    n > 0 && Steps(trs, init * Layer(g, goal, n), Layer(g, goal, n - 1))
  }

  lemma FirstOfClimb<S(!new)>(trs: seq<Named<S>>, g: Rel<S>, init: set<S>, goal: set<S>, layers: seq<set<S>>, meet: set<S>,
                              idx: seq<nat>, comps: seq<set<S>>)
    requires Searched(g, init, goal, true, layers, meet) && |comps| == |layers| + 1
    requires AllEntered(trs, idx, comps) && comps[0] == meet * init && comps[1] <= layers[0] && comps[1] != {}
    ensures FirstStep(trs, g, init, goal, |idx|)
  {
    hide Near, Layer, Post;
    FirstLayer(g, goal, layers);
    assert Entered(trs, idx, comps, 0);
    assert meet * init == init * Layer(g, goal, |idx|);
    assert Post(trs[idx[0]].rel, comps[0]) * Layer(g, goal, |idx| - 1) != {} by {
      var y :| y in comps[1];
      assert y in Post(trs[idx[0]].rel, comps[0]) * Layer(g, goal, |idx| - 1);
    }
  }

  /** No start runs past the end of the witness exactly when the layers can be climbed. */
  lemma ClimbableIff<S(!new)>(trs: seq<Named<S>>, g: Rel<S>, goal: set<S>)
    ensures Climbable(trs, g, goal) <==>
      forall n: nat, x :: n > 0 && x in Layer(g, goal, n) ==> FirstStep(trs, g, {x}, goal, n)
  {
    hide Layer;
    if Climbable(trs, g, goal) {
      forall n: nat, x | n > 0 && x in Layer(g, goal, n) ensures FirstStep(trs, g, {x}, goal, n) {
        assert StepsDown(trs, g, goal, n, x);
        assert {x} * Layer(g, goal, n) == {x};
      }
    }
    if forall n: nat, x :: n > 0 && x in Layer(g, goal, n) ==> FirstStep(trs, g, {x}, goal, n) {
      forall n: nat, x ensures StepsDown(trs, g, goal, n, x) {
        if n > 0 && x in Layer(g, goal, n) {
          assert FirstStep(trs, g, {x}, goal, n);
          assert {x} * Layer(g, goal, n) == {x};
        }
      }
    }
  }
}
