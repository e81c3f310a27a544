/** Inputs on which `findPath`, `findCycle` and `printPaths` (its/ITSModel.cpp) do something else than one expects. */
module WitnessInputs {
  import opened Graphs
  import opened Its
  import opened Witness
  import opened WitnessBack
  import opened WitnessPath
  import opened WitnessCycle
  import opened Witnesses

  /** A transition with one step, inverted exactly whatever the envelope. */
  function Step(name: string, x: int, y: int): Named<int> {
    Named(name, {Pair(x, y)}, (reach: set<int>) => {Pair(y, x)})
  }

  /** The same, but the inverse is restricted to the envelope it is given. */
  function StepInside(name: string, x: int, y: int): Named<int> {
    Named(name, {Pair(x, y)}, (reach: set<int>) => if x in reach then {Pair(y, x)} else {})
  }

  lemma StepTrusted(trs: seq<Named<int>>, steps: seq<(string, int, int)>)
    requires |trs| == |steps| && forall k :: 0 <= k < |trs| ==> trs[k] == Step(steps[k].0, steps[k].1, steps[k].2)
    ensures GoodInverses(trs) && forall reach, env, goal :: Trusted(trs, reach, env, goal)
  {
    forall t, x, y, reach | t in trs ensures Pair(y, x) in t.invert(reach) <==> Pair(x, y) in t.rel {
      var k :| 0 <= k < |trs| && trs[k] == t;
    }
  }

  // ---------------------------------------------------------------- a goal outside the envelope

  /** 0 to 2 by 1, which is outside the envelope {0, 3, 4}, or by 3 and 4. */
  function Detour(): seq<Named<int>> {
    [Step("a", 0, 1), Step("b", 1, 2), Step("c", 0, 3), Step("d", 3, 4), Step("e", 4, 2)]
  }

  function DetourNext(): Rel<int> {
    {Pair(0, 1), Pair(1, 2), Pair(0, 3), Pair(3, 4), Pair(4, 2)}
  }

  function DetourInverse(): Rel<int> {
    {Pair(1, 0), Pair(2, 1), Pair(3, 0), Pair(4, 3), Pair(2, 4)}
  }

  lemma Unfold(t: Named<int>, rest: seq<Named<int>>, env: set<int>)
    ensures NextRel([t] + rest) == t.rel + NextRel(rest) && Inverse([t] + rest, env) == t.invert(env) + Inverse(rest, env)
  {
    assert ([t] + rest)[1..] == rest;
  }

  lemma DetourRels(env: set<int>)
    ensures NextRel(Detour()) == DetourNext() && Inverse(Detour(), env) == DetourInverse()
  {
    var a, b, c, d, e := Step("a", 0, 1), Step("b", 1, 2), Step("c", 0, 3), Step("d", 3, 4), Step("e", 4, 2);
    Unfold(e, [], env);
    Unfold(d, [e], env);
    Unfold(c, [d, e], env);
    Unfold(b, [c, d, e], env);
    Unfold(a, [b, c, d, e], env);
    assert [e] + [] == [e] && [d] + [e] == [d, e] && [c] + [d, e] == [c, d, e];
    assert [b] + [c, d, e] == [b, c, d, e] && [a] + [b, c, d, e] == Detour();
  }

  lemma DetourChosen()
    ensures var env := {0, 3, 4};
      ChosenRel(Detour(), env) == DetourInverse() && Converse(ChosenRel(Detour(), env)) == DetourNext()
    ensures Inside(Detour(), {0, 3, 4}) == {Pair(0, 1), Pair(0, 3), Pair(3, 4), Pair(4, 2)}
  {
    hide Inverse, NextRel;
    var env := {0, 3, 4};
    DetourRels(env);
    var rel := DetourInverse();
    assert Pair(0, 1) in NextRel(Detour());
    assert Post(rel, env) <= env;
  }

  /** All inverses are right, but the search steps back from the goal to 1: it reports the two steps through 1, while
      the only path whose states before the last lie in the envelope has three. */
  lemma GoalOutside()
    ensures var trs, env := Detour(), {0, 3, 4}; var h := Converse(ChosenRel(trs, env));
      && GoodInverses(trs) && Trusted(trs, env, env, {2}) && !StaysInside(trs, env, {2}) && Climbable(trs, h, {2})
      && CanReach(h, {0}, {2}, 2) && (forall n: nat :: n < 2 ==> !CanReach(h, {0}, {2}, n))
      && CanReach(Inside(trs, env), {0}, {2}, 3) && (forall n: nat :: n < 3 ==> !CanReach(Inside(trs, env), {0}, {2}, n))
  {
    hide ChosenRel, NextRel, Climbable, CanReach, Trusted, GoodInverses, Inside, Converse;
    var trs, env := Detour(), {0, 3, 4};
    StepTrusted(trs, [("a", 0, 1), ("b", 1, 2), ("c", 0, 3), ("d", 3, 4), ("e", 4, 2)]);
    DetourChosen();
    DetourRels(env);
    RealIsClimbable(trs, Converse(ChosenRel(trs, env)), {2});
    DetourDistances();
    InsideDistances();
    var e := Pair(2, 1);
    assert e in ChosenRel(trs, env) && 1 in Post(ChosenRel(trs, env), {2}) - {2};
  }

  lemma DetourDistances()
    ensures CanReach(DetourNext(), {0}, {2}, 2) && forall n: nat :: n < 2 ==> !CanReach(DetourNext(), {0}, {2}, n)
  {
    hide CanReach;
    var h := DetourNext();
    assert Pre(h, {2}) == {1, 4};
    assert Near(h, {2}, 1) == {1, 2, 4};
    assert Pre(h, {1, 2, 4}) == {0, 1, 3, 4};
    assert 0 in {0} * Layer(h, {2}, 2);
    MeetReaches(h, {0}, {2}, 2);
    NothingShorter(h, {0}, {2}, 1);
  }

  lemma InsideDistances()
    ensures var g := {Pair(0, 1), Pair(0, 3), Pair(3, 4), Pair(4, 2)};
      CanReach(g, {0}, {2}, 3) && forall n: nat :: n < 3 ==> !CanReach(g, {0}, {2}, n)
  {
    hide CanReach;
    var g := {Pair(0, 1), Pair(0, 3), Pair(3, 4), Pair(4, 2)};
    assert Pre(g, {2}) == {4};
    assert Near(g, {2}, 1) == {2, 4};
    assert Pre(g, {2, 4}) == {3, 4};
    assert Near(g, {2}, 2) == {2, 3, 4};
    assert Pre(g, {2, 3, 4}) == {0, 3, 4};
    assert 0 in {0} * Layer(g, {2}, 3);
    MeetReaches(g, {0}, {2}, 3);
    NothingShorter(g, {0}, {2}, 2);
  }

  // ---------------------------------------------------------------- an inverse that invents a state

  /** 0 to 2; outside the envelope the inverse also gives 5, which cannot make the step. */
  function Invented(): seq<Named<int>> {
    [Named("t", {Pair(0, 2)}, (reach: set<int>) => if 5 in reach then {Pair(2, 0)} else {Pair(2, 0), Pair(2, 5)})]
  }

  lemma InventedChosen()
    ensures ChosenRel(Invented(), {0}) == {Pair(2, 0), Pair(2, 5)}
    ensures Pair(5, 2) in Converse(ChosenRel(Invented(), {0}))
  {
    var trs := Invented();
    var rel := trs[0].invert({0});
    assert trs[1..] == [];
    assert Inverse(trs, {0}) == rel;
    assert Pair(0, 2) in NextRel(trs);
    assert Post(rel, {0}) == {};
    ConverseHas(ChosenRel(trs, {0}), 5, 2);
  }

  /** From 5 the backward search finds the goal, no transition follows, and the backward pass runs out of names. */
  lemma ReadsPastTheEnd()
    ensures var trs := Invented(); var h := Converse(ChosenRel(trs, {0}));
      && GoodInverses(trs) && Trusted(trs, {0}, {0}, {2}) && !StaysInside(trs, {0}, {2})
      && Reachable(h, {5}, {2}) && (forall n: nat :: !FirstStep(trs, h, {5}, {2}, n)) && !Climbable(trs, h, {2})
  {
    hide ChosenRel, Converse, Layer;
    var trs := Invented();
    var h := Converse(ChosenRel(trs, {0}));
    InventedChosen();
    var e := Pair(2, 5);
    assert e in ChosenRel(trs, {0}) && 5 in Post(ChosenRel(trs, {0}), {2}) - {2};
    WalkOne(h, Pair(5, 2));
    assert CanReach(h, {5}, {2}, |[Pair(5, 2)]|);
    assert Post(trs[0].rel, {5}) == {} && Post(trs[0].rel, {}) == {};
    ClimbableIff(trs, h, {2});
    assert 5 in Layer(h, {2}, 1) by { OneAway(h, 5, 2); }
  }

  lemma OneAway(g: Rel<int>, x: int, y: int)
    requires Pair(x, y) in g && x != y
    ensures x in Layer(g, {y}, 1)
  {
    var e := Pair(x, y);
    assert Near(g, {y}, 0) == {y} && e.dst in {y};
  }

  // ---------------------------------------------------------------- equal names

  function Homonyms(): seq<Named<int>> {
    [Step("t", 5, 6), Step("t", 0, 1)]
  }

  /** The only answer fires the second transition, and its name finds the first: the start set comes back empty. */
  lemma EqualNames(env: set<int>)
    requires 0 in env
    ensures var trs := Homonyms();
      && GoodInverses(trs) && Trusted(trs, env, env, {1}) && !StepNames(trs, env, {1}) && LeastPath(trs, env, {0}, {1}, [1])
      && forall idx :: LeastPath(trs, env, {0}, {1}, idx) ==> !NamesFirst(trs, idx)
  {
    hide LeastPath, Trusted, GoodInverses;
    var trs := Homonyms();
    StepTrusted(trs, [("t", 5, 6), ("t", 0, 1)]);
    assert FirstMakes(trs, 1, 0, 1);
    assert trs[0].name == trs[1].name && !NameFirst(trs, 1);
    OneStepLeast(trs, env, 1, 0, 1);
    OneNameFirst(trs, 1);
    forall idx | LeastPath(trs, env, {0}, {1}, idx) ensures !NamesFirst(trs, idx) {
      LeastIsOne(trs, env, {0}, {1}, idx, [1]);
    }
  }

  /** The step back closes a cycle, but the path from 0 to its predecessor 1 has lost its start. */
  lemma EqualNamesInCycle()
    ensures var trs, scc := Homonyms() + [Step("u", 1, 0)], {0, 1}; var preds := Preds(trs, scc, scc, 0);
      && GoodInverses(trs) && HasCycle(Inside(trs, scc), 0) && preds == {1}
      && LeastPath(trs, scc, {0}, preds, [1]) && forall path :: PathTaken(trs, scc, scc, 0, path) ==> !NamesFirst(trs, path)
  {
    hide CanReach, LeastPath;
    var trs, scc := Homonyms() + [Step("u", 1, 0)], {0, 1};
    StepTrusted(trs, [("t", 5, 6), ("t", 0, 1), ("u", 1, 0)]);
    Unfold(Step("u", 1, 0), [], scc);
    Unfold(Step("t", 0, 1), [Step("u", 1, 0)], scc);
    Unfold(Step("t", 5, 6), [Step("t", 0, 1), Step("u", 1, 0)], scc);
    assert [Step("u", 1, 0)] + [] == [Step("u", 1, 0)];
    assert [Step("t", 0, 1)] + [Step("u", 1, 0)] == [Step("t", 0, 1), Step("u", 1, 0)];
    assert trs == [Step("t", 5, 6)] + [Step("t", 0, 1), Step("u", 1, 0)];
    assert NextRel(trs) == {Pair(5, 6), Pair(0, 1), Pair(1, 0)};
    var g := Inside(trs, scc);
    assert g == {Pair(0, 1), Pair(1, 0)};
    assert Pre(g, {0}) == {1} && Preds(trs, scc, scc, 0) == {1};
    assert FirstMakes(trs, 1, 0, 1);
    OneStepLeast(trs, scc, 1, 0, 1);
    assert Around(trs, scc, 0);
    LeastReaches(trs, scc, {0}, {1}, [1]);
    CycleIffReachable(trs, scc, scc, 0);
    assert trs[0].name == trs[1].name && !NameFirst(trs, 1);
    OneNameFirst(trs, 1);
    forall path | PathTaken(trs, scc, scc, 0, path) ensures !NamesFirst(trs, path) {
      LeastIsOne(trs, scc, {0}, {1}, path, [1]);
    }
  }

  lemma LeastReaches(trs: seq<Named<int>>, env: set<int>, init: set<int>, goal: set<int>, idx: seq<nat>)
    requires LeastPath(trs, env, init, goal, idx)
    ensures Reachable(Inside(trs, env), init, goal)
  {
    hide CanReach;
  }

  // ---------------------------------------------------------------- no envelope

  /** The empty argument stands for all reachable states in the search, but reaches the inverses as it is: the backward
      pass empties the start set although the names are right. */
  lemma NoEnvelope()
    ensures var trs := [StepInside("t", 0, 1)]; var env := {0, 1};
      && GoodInverses(trs) && ReachSet(NextRel(trs), {0}) == env && StepNames(trs, env, {1})
      && LeastPath(trs, env, {0}, {1}, [0]) && !StepExact(trs, {}, env, {1})
      && forall states :: AllBack(trs, [0], {}, [{0}, {1}], states) ==> states[0] == {}
  {
    hide LeastPath;
    var trs, env := [StepInside("t", 0, 1)], {0, 1};
    assert trs[1..] == [];
    assert NextRel(trs) == {Pair(0, 1)};
    ReachSetClosed(NextRel(trs), {0});
    assert Pair(0, 1) in NextRel(trs);
    ReachSetLeast(NextRel(trs), {0}, env);
    assert FirstMakes(trs, 0, 0, 1);
    OneStepLeast(trs, env, 0, 0, 1);
    assert !Invertible(trs, {}, env, 0, 0, 1);
    forall states | AllBack(trs, [0], {}, [{0}, {1}], states) ensures states[0] == {} {
      assert SteppedBack(trs, [0], {}, [{0}, {1}], states, 0);
      assert Post(trs[0].invert({}), states[1]) == {};
    }
  }

  // ---------------------------------------------------------------- no cycle

  /** 0 to 1 to 2, asked for a cycle through 1: the step from 0 closes the answer, which has the shape of a cycle of one
      step although there is none. */
  lemma LooksLikeACycle()
    ensures var trs, scc, all := [Step("a", 0, 1), Step("b", 1, 2)], {0, 1}, {0, 1, 2};
      && GoodInverses(trs) && StepNames(trs, scc, {}) && Preds(trs, scc, all, 1) == {0} && !HasCycle(Inside(trs, scc), 1)
      && forall p, path, i: nat, trace :: CycleAnswer(trs, scc, all, 1, p, path, i, trace) ==> p == Path(["a"], [{1}, {0}, {1}])
  {
    hide CanReach;
    var trs, scc, all := [Step("a", 0, 1), Step("b", 1, 2)], {0, 1}, {0, 1, 2};
    StepTrusted(trs, [("a", 0, 1), ("b", 1, 2)]);
    assert trs[1..] == [Step("b", 1, 2)] && trs[1..][1..] == [];
    assert NextRel(trs) == {Pair(0, 1), Pair(1, 2)};
    var g := Inside(trs, scc);
    assert g == {Pair(0, 1), Pair(1, 2)};
    assert Pre(g, {1}) == {0} && Pre(g, {0}) == {} && Preds(trs, scc, all, 1) == {0};
    assert Around(trs, all, 1);
    CycleIffReachable(trs, scc, all, 1);
    NeverBack(g);
    forall p, path, i: nat, trace | CycleAnswer(trs, scc, all, 1, p, path, i, trace) ensures p == Path(["a"], [{1}, {0}, {1}]) {
      assert Post(trs[1].rel, {0}) == {};
      assert [i][0] == 0;
    }
  }

  lemma NeverBack(g: Rel<int>)
    requires Pre(g, {0}) == {}
    ensures !Reachable(g, {1}, {0})
  {
    hide CanReach;
    if Reachable(g, {1}, {0}) {
      var n: nat :| CanReach(g, {1}, {0}, n);
      CanReachNear(g, {1}, {0}, n);
      NearStays(g, n);
    }
  }

  lemma {:induction false} NearStays(g: Rel<int>, n: nat)
    requires Pre(g, {0}) == {}
    ensures Near(g, {0}, n) == {0}
  {
    if n > 0 { NearStays(g, n - 1); }
  }

  // ---------------------------------------------------------------- a state that does not close the loop

  /** 0 to 1 or 2 by one transition, and back by one each. */
  function Fork(): seq<Named<int>> {
    [Named("a", {Pair(0, 1), Pair(0, 2)}, (reach: set<int>) => {Pair(1, 0), Pair(2, 0)}), Step("b", 1, 0), Step("c", 2, 0)]
  }

  lemma ForkFacts()
    ensures GoodInverses(Fork()) && NextRel(Fork()) == {Pair(0, 1), Pair(0, 2), Pair(1, 0), Pair(2, 0)}
    ensures Post(Fork()[0].rel, {1, 2}) == {} && Post(Fork()[1].rel, {1, 2}) == {0}
    ensures Pre(Fork()[1].rel, {0}) == {1} && FirstMakes(Fork(), 0, 0, 1)
  {
    var trs := Fork();
    assert trs[1..] == [Step("b", 1, 0), Step("c", 2, 0)] && trs[1..][1..] == [Step("c", 2, 0)] && trs[1..][1..][1..] == [];
    assert Pair(1, 0) in trs[1].rel;
  }

  lemma ForkInside()
    ensures var trs, scc := Fork(), {0, 1, 2};
      Inside(trs, scc) == NextRel(trs) && Preds(trs, scc, scc, 0) == {1, 2} && Around(trs, scc, 0)
  {
    ForkFacts();
    var trs, scc := Fork(), {0, 1, 2};
    assert Inside(trs, scc) == NextRel(trs);
    assert Pre(NextRel(trs), {0}) == {1, 2};
  }

  lemma ForkShortest()
    ensures var trs, scc := Fork(), {0, 1, 2}; Shortest(trs, Inside(trs, scc), {0}, {1, 2}, [0])
    ensures exists x, y :: x in {0} && y in {1, 2} && FirstFires(Fork(), {0, 1, 2}, [0], x, y)
  {
    hide CanReach, NextRel, Inside, Fork, FirstFires, Fires;
    var trs, scc := Fork(), {0, 1, 2};
    ForkFacts();
    var g := Inside(trs, scc);
    OneStep(trs, scc, 0, 0, 1);
    var x, y :| x in {0} && y in {1} && FirstFires(trs, scc, [0], x, y);
    var u, v :| u in {0} && v in {1} && Fires(trs, [0], u, v);
    assert v in {1, 2} && y in {1, 2};
    WiderGoal(g, {0}, {1}, {1, 2}, 1);
    assert {0} * Near(g, {1, 2}, 0) == {};
    NothingShorter(g, {0}, {1, 2}, 0);
  }

  /** The only shortest way from 0 to its predecessors is the first transition. */
  lemma ForkPath()
    ensures var trs, scc := Fork(), {0, 1, 2};
      && HasCycle(Inside(trs, scc), 0) && Finals(trs, scc, {0}, {1, 2}, [0]) == {1, 2}
      && forall path :: PathTaken(trs, scc, scc, 0, path) ==> path == [0]
  {
    hide CanReach, LexBefore, Shortest, Inside, NextRel, FirstFires, Preds, Around, HasCycle, FiresIn;
    var trs, scc := Fork(), {0, 1, 2};
    ForkInside();
    ForkShortest();
    forall w | |w| == |[0]| && Leads(trs, scc, {0}, {1, 2}, w) ensures w == [0] || LexBefore([0], w) {
      FirstBefore(w);
    }
    assert LeastPath(trs, scc, {0}, {1, 2}, [0]);
    LeastReaches(trs, scc, {0}, {1, 2}, [0]);
    CycleIffReachable(trs, scc, scc, 0);
    forall path | PathTaken(trs, scc, scc, 0, path) ensures path == [0] {
      assert LeastPath(trs, scc, {0}, {1, 2}, path);
      LeastIsOne(trs, scc, {0}, {1, 2}, path, [0]);
    }
    FiresInOne(trs, scc, 0, 0, 1);
    FiresInOne(trs, scc, 0, 0, 2);
    assert 0 in {0};
  }

  lemma FirstBefore(w: seq<nat>)
    requires |w| == 1
    ensures w == [0] || LexBefore([0], w)
  {
    assert w == [w[0]];
  }

  lemma WiderGoal(g: Rel<int>, xs: set<int>, goal: set<int>, wider: set<int>, n: nat)
    requires CanReach(g, xs, goal, n) && goal <= wider
    ensures CanReach(g, xs, wider, n)
  {
    var x, es, y :| x in xs && y in goal && Walk(g, x, es, y) && |es| == n;
    assert y in wider;
  }

  /** The cycle through 0 by the first two transitions shows 2 before its last step, which 2 cannot make. */
  lemma SomeCannotClose()
    ensures var trs, scc := Fork(), {0, 1, 2};
      && GoodInverses(trs) && HasCycle(Inside(trs, scc), 0) && Preds(trs, scc, scc, 0) == {1, 2}
      && forall p, path, i: nat :: PathTaken(trs, scc, scc, 0, path) && CycleAnswer(trs, scc, scc, 0, p, path, i, true) ==>
        path == [0] && i == 1 && p.states[|p.states| - 2] == {1, 2} && !AllLeave(trs, path + [i], p.states)
  {
    hide HasCycle, PathTaken, ShortestCycle, Finals, CycleSets, Preds, GoodInverses, Post, Pre;
    var trs, scc := Fork(), {0, 1, 2};
    ForkFacts();
    ForkInside();
    ForkPath();
    forall p, path, i: nat | PathTaken(trs, scc, scc, 0, path) && CycleAnswer(trs, scc, scc, 0, p, path, i, true)
      ensures path == [0] && i == 1 && p.states[|p.states| - 2] == {1, 2} && !AllLeave(trs, path + [i], p.states)
    {
      assert i == 1 && NameFirst(trs, 0);
      OneNameFirst(trs, 0);
      CycleSteps(trs, scc, scc, 0, p, path, i);
      assert 2 !in Pre(trs[1].rel, {0});
    }
  }

  // ---------------------------------------------------------------- a start outside the envelope

  /** Beside the start 1 the stage lists the step from 0, which is outside the envelope. */
  lemma StartOutside()
    ensures var trs, env := [Step("a", 0, 2), Step("b", 1, 2)], {1, 2};
      && GoodInverses(trs) && Layers(Inside(trs, env), {2}, [{2}]) && !StartsInside(trs, env, {2}, {0, 1})
      && [0] in EnumFrom(trs, {0, 1}, [{2}], 0) && !Wanted(trs, env, {2}, {0, 1}, [0])
  {
    hide CanReach, EnumFrom;
    var trs, env := [Step("a", 0, 2), Step("b", 1, 2)], {1, 2};
    StepTrusted(trs, [("a", 0, 2), ("b", 1, 2)]);
    var e := Pair(0, 2);
    NextRelHas(trs, e);
    assert trs[0] in trs && e in NextRel(trs);
    var idx: seq<nat> := [0];
    assert idx[1..] == [] && [{2}][1..] == [];
    assert Through(trs, [{2}][1..], idx[1..], 2, 2);
    assert Pair(0, 2) in trs[idx[0]].rel;
    assert Through(trs, [{2}], idx, 0, 2);
    assert ThroughFrom(trs, [{2}], idx, {0, 1});
    EnumHas(trs, {0, 1}, [{2}], 0, idx);
  }
}
