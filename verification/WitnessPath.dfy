/** Shortest witnesses (its/ITSModel.cpp, `findPath`): which path is reported, and with which end sets. */
module WitnessPath {
  import opened Graphs
  import opened Its
  import opened Witness
  import opened WitnessBack

  // ---------------------------------------------------------------- which transitions are fired, and their names

  /** Inside the envelope, each step by the first transition that makes it. */
  ghost predicate FirstFires<S(!new)>(trs: seq<Named<S>>, env: set<S>, idx: seq<nat>, x: S, y: S) {
    if idx == [] then x == y
    else exists z :: x in env && x != z && FirstMakes(trs, idx[0], x, z) && FirstFires(trs, env, idx[1..], z, y)
  }

  lemma {:induction false} PassFires<S(!new)>(trs: seq<Named<S>>, env: set<S>, goal: set<S>, idx: seq<nat>, states: seq<set<S>>, y: S)
      returns (x: S)
    requires AllEntered(trs, idx, states) && AllFirst(trs, idx, states) && y in states[|idx|]
    requires InEnvelope(env, goal, states) && Apart(states)
    ensures x in states[0] && FirstFires(trs, env, idx, x, y)
    decreases |idx|
  {
    if idx == [] {
      x := y;
    } else {
      var rest, later := idx[1..], states[1..];
      forall j: nat | j < |rest| ensures Entered(trs, rest, later, j) && NoneBefore(trs, rest, later, j) {
        assert Entered(trs, idx, states, j + 1) && NoneBefore(trs, idx, states, j + 1);
      }
      var z := PassFires(trs, env, goal, rest, later, y);
      assert Entered(trs, idx, states, 0) && NoneBefore(trs, idx, states, 0);
      var e := PostHas(trs[idx[0]].rel, states[0], z);
      match e.lab case () =>
      x := e.src;
      FirstOfSets(trs, idx[0], states[0], states[1], x, z);
      assert x !in states[0] * states[1];
    }
  }

  lemma {:induction false} StepNamesSuffice<S(!new)>(trs: seq<Named<S>>, env: set<S>, goal: set<S>, idx: seq<nat>, x: S, y: S)
    requires StepNames(trs, env, goal) && FirstFires(trs, env, idx, x, y) && y in goal
    ensures NamesFirst(trs, idx)
    decreases |idx|
  {
    if idx != [] {
      var z :| x in env && x != z && FirstMakes(trs, idx[0], x, z) && FirstFires(trs, env, idx[1..], z, y);
      StepNamesSuffice(trs, env, goal, idx[1..], z, y);
      FiresFromEnvelope(trs, env, idx[1..], z, y);
      assert NameFirst(trs, idx[0]);
      assert idx == [idx[0]] + idx[1..];
    }
  }

  lemma FiresFromEnvelope<S(!new)>(trs: seq<Named<S>>, env: set<S>, idx: seq<nat>, x: S, y: S)
    requires FirstFires(trs, env, idx, x, y)
    ensures idx == [] ==> x == y
    ensures idx != [] ==> x in env
  {
  }

  /** A shortest path in which each step is made by the first transition that makes it. */
  ghost predicate PathOfFirsts<S(!new)>(trs: seq<Named<S>>, env: set<S>, init: set<S>, goal: set<S>, idx: seq<nat>) {
    && Shortest(trs, Inside(trs, env), init, goal, idx)
    && exists x, y :: x in init && y in goal && FirstFires(trs, env, idx, x, y)
  }

  lemma OneStep<S(!new)>(trs: seq<Named<S>>, env: set<S>, i: nat, x: S, y: S)
    requires x in env && x != y && FirstMakes(trs, i, x, y)
    ensures PathOfFirsts(trs, env, {x}, {y}, [i])
  {
    var g, e := Inside(trs, env), Pair(x, y);
    NextRelHas(trs, e);
    assert trs[i] in trs && e in g;
    WalkOne(g, e);
    assert Walk(g, x, [e], y) && |[e]| == 1;
    assert CanReach(g, {x}, {y}, 1);
    assert {x} * Near(g, {y}, 0) == {};
    NothingShorter(g, {x}, {y}, 0);
    assert [i][1..] == [];
    assert Fires(trs, [i][1..], y, y) && FirstFires(trs, env, [i][1..], y, y);
    assert Fires(trs, [i], x, y) && FirstFires(trs, env, [i], x, y);
    assert x in {x} && y in {y};
  }

  lemma SameLength<S(!new)>(trs: seq<Named<S>>, g: Rel<S>, init: set<S>, goal: set<S>, a: seq<nat>, b: seq<nat>)
    requires Shortest(trs, g, init, goal, a) && Shortest(trs, g, init, goal, b)
    ensures |a| == |b|
  {
    hide CanReach, Fires;
  }

  lemma StepNamesWiden<S(!new)>(trs: seq<Named<S>>, env: set<S>, goals: set<S>)
    requires StepNames(trs, env, goals)
    ensures StepNames(trs, env, env + goals)
  {
  }

  lemma OneNameFirst<S(!new)>(trs: seq<Named<S>>, i: nat)
    ensures NamesFirst(trs, [i]) <==> NameFirst(trs, i)
  {
    assert [i][0] == i;
  }

  lemma {:induction false} FirstFiresIn<S(!new)>(trs: seq<Named<S>>, env: set<S>, idx: seq<nat>, x: S, y: S)
    requires FirstFires(trs, env, idx, x, y) && InRange(trs, idx)
    ensures FiresIn(trs, env, idx, x, y)
  {
    if idx != [] {
      var z :| x in env && x != z && FirstMakes(trs, idx[0], x, z) && FirstFires(trs, env, idx[1..], z, y);
      FirstFiresIn(trs, env, idx[1..], z, y);
    }
  }

  /** `w` leads from some start to some goal state, all states but the last in the envelope. */
  ghost predicate Leads<S(!new)>(trs: seq<Named<S>>, env: set<S>, init: set<S>, goal: set<S>, w: seq<nat>) {
    InRange(trs, w) && exists x, y :: x in init && y in goal && FiresIn(trs, env, w, x, y)
  }

  /** What `findPath` answers: of the shortest sequences the lexicographically first. */
  ghost predicate LeastPath<S(!new)>(trs: seq<Named<S>>, env: set<S>, init: set<S>, goal: set<S>, idx: seq<nat>) {
    && PathOfFirsts(trs, env, init, goal, idx)
    && forall w {:trigger Leads(trs, env, init, goal, w)} ::
         |w| == |idx| && Leads(trs, env, init, goal, w) ==> w == idx || LexBefore(idx, w)
  }

  lemma LeastLeads<S(!new)>(trs: seq<Named<S>>, env: set<S>, init: set<S>, goal: set<S>, idx: seq<nat>)
    requires LeastPath(trs, env, init, goal, idx)
    ensures Leads(trs, env, init, goal, idx)
  {
    var x, y :| x in init && y in goal && FirstFires(trs, env, idx, x, y);
    FirstFiresIn(trs, env, idx, x, y);
  }

  /** There is no other. */
  lemma LeastIsOne<S(!new)>(trs: seq<Named<S>>, env: set<S>, init: set<S>, goal: set<S>, a: seq<nat>, b: seq<nat>)
    requires LeastPath(trs, env, init, goal, a) && LeastPath(trs, env, init, goal, b)
    ensures a == b
  {
    hide Shortest, Leads, FirstFires, LexBefore;
    LeastLeads(trs, env, init, goal, a);
    LeastLeads(trs, env, init, goal, b);
    SameLength(trs, Inside(trs, env), init, goal, a, b);
    if a != b { LexNotBoth(a, b); }
  }

  lemma OneStepLeast<S(!new)>(trs: seq<Named<S>>, env: set<S>, i: nat, x: S, y: S)
    requires x in env && x != y && FirstMakes(trs, i, x, y)
    ensures LeastPath(trs, env, {x}, {y}, [i])
  {
    OneStep(trs, env, i, x, y);
    forall w | |w| == |[i]| && Leads(trs, env, {x}, {y}, w) ensures w == [i] || LexBefore([i], w) {
      var u, v :| u in {x} && v in {y} && FiresIn(trs, env, w, u, v);
      assert w[1..] == [] && FiresIn(trs, env, w[1..], y, y);
      var z :| x in env && Pair(x, z) in trs[w[0]].rel && FiresIn(trs, env, w[1..], z, y);
      assert w == [w[0]] && w[0] >= i;
    }
  }

  /** The names of every answer find the transitions fired exactly when the first transition making a step is the first
      of its name. */
  lemma NamesIff<S(!new)>(trs: seq<Named<S>>, env: set<S>, goals: set<S>)
    ensures StepNames(trs, env, goals) <==>
      forall init, goal, idx :: goal <= env + goals && LeastPath(trs, env, init, goal, idx) ==> NamesFirst(trs, idx)
  {
    hide Shortest, FirstFires, NamesFirst, Leads;
    if StepNames(trs, env, goals) {
      forall init, goal, idx | goal <= env + goals && LeastPath(trs, env, init, goal, idx) ensures NamesFirst(trs, idx) {
        var x, y :| x in init && y in goal && FirstFires(trs, env, idx, x, y);
        StepNamesWiden(trs, env, goals);
        StepNamesSuffice(trs, env, env + goals, idx, x, y);
      }
    }
    if forall init, goal, idx :: goal <= env + goals && LeastPath(trs, env, init, goal, idx) ==> NamesFirst(trs, idx) {
      forall i: nat, x, y | x in env && y in env + goals && x != y && FirstMakes(trs, i, x, y) ensures NameFirst(trs, i) {
        OneStepLeast(trs, env, i, x, y);
        assert {y} <= env + goals;
        OneNameFirst(trs, i);
      }
    }
  }

  // ---------------------------------------------------------------- the climb of a question

  /** The nearest starts, then the layers down to the goal. */
  ghost function Rungs<S(!new)>(g: Rel<S>, init: set<S>, goal: set<S>, n: nat): (r: seq<set<S>>)
    ensures |r| == n + 1
  {
    seq(n + 1, j requires 0 <= j <= n => if j == 0 then init * Layer(g, goal, n) else Layer(g, goal, n - j))
  }

  /** What the forward pass makes of the question. */
  ghost predicate Climb<S(!new)>(trs: seq<Named<S>>, env: set<S>, init: set<S>, goal: set<S>, idx: seq<nat>, was: seq<set<S>>) {
    var g := Inside(trs, env);
    && idx != [] && init * Near(g, goal, |idx| - 1) == {}
    && AllChosen(trs, idx, Rungs(g, init, goal, |idx|), was)
  }

  lemma RungAt<S(!new)>(g: Rel<S>, init: set<S>, goal: set<S>, n: nat, j: nat)
    requires j <= n
    ensures Rungs(g, init, goal, n)[j] <= Layer(g, goal, n - j)
    ensures Rungs(g, init, goal, n)[0] == init * Layer(g, goal, n)
    ensures j > 0 ==> Rungs(g, init, goal, n)[j] == Layer(g, goal, n - j)
  {
    hide Layer;
  }

  /** The sets of the climb lie in their layers, and so in the envelope and apart from each other. */
  lemma ClimbIsClimbed<S(!new)>(trs: seq<Named<S>>, env: set<S>, init: set<S>, goal: set<S>, idx: seq<nat>, was: seq<set<S>>)
    requires Climb(trs, env, init, goal, idx, was)
    ensures Climbed(trs, env, goal, idx, was) && |was| == |idx| + 1 && was[0] == init * Layer(Inside(trs, env), goal, |idx|)
    ensures forall j {:trigger was[j]} :: 0 <= j <= |idx| ==> was[j] != {} && was[j] <= Layer(Inside(trs, env), goal, |idx| - j)
  {
    hide Layer, Inside, Sources, Near;
    var g, n := Inside(trs, env), |idx|;
    ChosenPass(trs, idx, Rungs(g, init, goal, n), was);
    InsideFrom(trs, env);
    RungAt(g, init, goal, n, 0);
    forall j: nat | j <= n ensures was[j] <= Layer(g, goal, n - j) {
      RungAt(g, init, goal, n, j);
    }
    forall j: nat | j < n ensures was[j] <= env && was[j] * was[j + 1] == {} {
      LayersApart(g, goal, n - j - 1);
      assert was[j + 1] <= Layer(g, goal, n - (j + 1));
    }
    FirstLayerIsGoal(g, goal);
    assert was[n] <= Layer(g, goal, n - n);
  }

  /** A sequence as long as the distance crosses the layers. */
  lemma CrossTo<S(!new)>(trs: seq<Named<S>>, env: set<S>, goal: set<S>, w: seq<nat>, x: S, z: S, y: S)
    requires InRange(trs, w) && w != [] && y in goal && x in Layer(Inside(trs, env), goal, |w|)
    requires x in env && Pair(x, z) in trs[w[0]].rel && FiresIn(trs, env, w[1..], z, y)
    ensures z in Layer(Inside(trs, env), goal, |w| - 1)
  {
    hide Inside, CanReach;
    FiresInNear(trs, env, goal, w[1..], z, y);
    if |w| > 1 && z in Near(Inside(trs, env), goal, |w| - 2) {
      NearStep(trs, env, goal, w[0], x, z, |w| - 2);
    }
  }

  lemma CrossOne<S(!new)>(trs: seq<Named<S>>, env: set<S>, goal: set<S>, w: seq<nat>, x: S, y: S) returns (z: S)
    requires InRange(trs, w) && w != [] && FiresIn(trs, env, w, x, y) && y in goal && x in Layer(Inside(trs, env), goal, |w|)
    ensures x in env && Pair(x, z) in trs[w[0]].rel && FiresIn(trs, env, w[1..], z, y)
    ensures z in Layer(Inside(trs, env), goal, |w| - 1)
  {
    hide Inside, Layer;
    z :| x in env && Pair(x, z) in trs[w[0]].rel && FiresIn(trs, env, w[1..], z, y);
    CrossTo(trs, env, goal, w, x, z, y);
  }

  /** From a state of the climb, a sequence to the goal is the rest of the climb, and ends in it, or comes later. */
  lemma {:induction false} ClimbLeast<S(!new)>(trs: seq<Named<S>>, env: set<S>, init: set<S>, goal: set<S>, idx: seq<nat>, was: seq<set<S>>,
                                               c: nat, w: seq<nat>, x: S, y: S)
    requires Climb(trs, env, init, goal, idx, was) && c <= |idx| && |w| == |idx| - c && |was| == |idx| + 1
    requires x in was[c] && InRange(trs, w) && FiresIn(trs, env, w, x, y) && y in goal
    ensures w == idx[c..] || LexBefore(idx[c..], w)
    ensures w == idx[c..] ==> y in was[|idx|]
    decreases |w|
  {
    hide Layer, Inside, Near, Post, Climbed;
    var g, n := Inside(trs, env), |idx|;
    ClimbIsClimbed(trs, env, init, goal, idx, was);
    if w != [] {
      assert was[c] <= Layer(g, goal, n - c);
      var z := CrossOne(trs, env, goal, w, x, y);
      RungAt(g, init, goal, n, c + 1);
      assert Chosen(trs, idx, Rungs(g, init, goal, n), was, c);
      StepHits(trs[w[0]].rel, was[c], Rungs(g, init, goal, n)[c + 1], x, z);
      assert w[0] >= idx[c];
      if w[0] == idx[c] {
        StepInto(trs[w[0]].rel, was[c], x, z);
        ClimbLeast(trs, env, init, goal, idx, was, c + 1, w[1..], z, y);
        assert idx[c..][1..] == idx[c + 1..];
        assert w == [w[0]] + w[1..] && idx[c..] == [idx[c]] + idx[c + 1..];
      }
    } else {
      assert idx[c..] == [];
    }
  }

  lemma StartsNearest<S(!new)>(trs: seq<Named<S>>, env: set<S>, init: set<S>, goal: set<S>, idx: seq<nat>, was: seq<set<S>>,
                               w: seq<nat>, x: S, y: S)
    requires Climb(trs, env, init, goal, idx, was) && |w| == |idx| && |was| == |idx| + 1
    requires x in init && y in goal && InRange(trs, w) && FiresIn(trs, env, w, x, y)
    ensures x in was[0]
  {
    hide Inside, Near, CanReach, Climbed;
    ClimbIsClimbed(trs, env, init, goal, idx, was);
    FiresInNear(trs, env, goal, w, x, y);
    assert x !in init * Near(Inside(trs, env), goal, |idx| - 1);
  }

  /** The climb reports the first of the shortest sequences. */
  lemma ClimbIsLeast<S(!new)>(trs: seq<Named<S>>, env: set<S>, init: set<S>, goal: set<S>, idx: seq<nat>, was: seq<set<S>>)
    requires Climb(trs, env, init, goal, idx, was) && Shortest(trs, Inside(trs, env), init, goal, idx)
    ensures LeastPath(trs, env, init, goal, idx)
  {
    hide Inside, Climb, Shortest, FiresIn, LexBefore, Layer, FirstFires;
    ClimbIsClimbed(trs, env, init, goal, idx, was);
    var y :| y in was[|idx|];
    var x := PassFires(trs, env, goal, idx, was, y);
    forall w | |w| == |idx| && Leads(trs, env, init, goal, w) ensures w == idx || LexBefore(idx, w) {
      var u, v :| u in init && v in goal && FiresIn(trs, env, w, u, v);
      StartsNearest(trs, env, init, goal, idx, was, w, u, v);
      ClimbLeast(trs, env, init, goal, idx, was, 0, w, u, v);
      assert idx[0..] == idx;
    }
  }

  // ---------------------------------------------------------------- the end sets

  ghost predicate LeadsFrom<S(!new)>(trs: seq<Named<S>>, env: set<S>, goal: set<S>, idx: seq<nat>, x: S) {
    InRange(trs, idx) && exists y :: y in goal && FiresIn(trs, env, idx, x, y)
  }

  ghost predicate LeadsTo<S(!new)>(trs: seq<Named<S>>, env: set<S>, init: set<S>, idx: seq<nat>, y: S) {
    InRange(trs, idx) && exists x :: x in init && FiresIn(trs, env, idx, x, y)
  }

  /** The goal states to which the sequence leads from a start. */
  ghost function Finals<S(!new)>(trs: seq<Named<S>>, env: set<S>, init: set<S>, goal: set<S>, idx: seq<nat>): (r: set<S>) {
    set y | y in goal && LeadsTo(trs, env, init, idx, y)
  }

  lemma ClimbFinals<S(!new)>(trs: seq<Named<S>>, env: set<S>, init: set<S>, goal: set<S>, idx: seq<nat>, was: seq<set<S>>)
    requires Climb(trs, env, init, goal, idx, was)
    ensures |was| == |idx| + 1 && was[|idx|] == Finals(trs, env, init, goal, idx)
  {
    hide Inside, Climb, FiresIn, LexBefore, Layer, FirstFires;
    ClimbIsClimbed(trs, env, init, goal, idx, was);
    forall y | y in was[|idx|] ensures y in Finals(trs, env, init, goal, idx) {
      var x := PassFires(trs, env, goal, idx, was, y);
      FirstFiresIn(trs, env, idx, x, y);
      assert x in init && y in goal;
    }
    forall y | y in Finals(trs, env, init, goal, idx) ensures y in was[|idx|] {
      var x :| x in init && FiresIn(trs, env, idx, x, y);
      StartsNearest(trs, env, init, goal, idx, was, idx, x, y);
      assert idx[0..] == idx;
      ClimbLeast(trs, env, init, goal, idx, was, 0, idx, x, y);
    }
  }

  // ---------------------------------------------------------------- the sets along the path

  /** The states after `j` steps on the ways of the sequence from a start to the goal. */
  ghost function Midway<S(!new)>(trs: seq<Named<S>>, env: set<S>, init: set<S>, goal: set<S>, idx: seq<nat>, j: nat): (r: set<S>)
    requires j <= |idx|
  {
    set x | x in init + env + goal && LeadsTo(trs, env, init, idx[..j], x) && LeadsFrom(trs, env, goal, idx[j..], x)
  }

  /** The set a witness shows after `j` steps: where the inverses may rest on names, it is empty as soon as a later name
      finds another transition. */
  ghost function SetAt<S(!new)>(trs: seq<Named<S>>, env: set<S>, init: set<S>, goal: set<S>, idx: seq<nat>, sure: bool, j: nat): (r: set<S>)
    requires j <= |idx|
  {
    if sure || NamesFirst(trs, idx[j..]) then Midway(trs, env, init, goal, idx, j) else {}
  }

  /** All these sets, or the first and the last. */
  ghost function Shown<S(!new)>(trs: seq<Named<S>>, env: set<S>, init: set<S>, goal: set<S>, idx: seq<nat>, sure: bool, all: bool): (r: seq<set<S>>)
    ensures |r| == if all then |idx| + 1 else 2
  {
    if all then seq(|idx| + 1, j requires 0 <= j <= |idx| => SetAt(trs, env, init, goal, idx, sure, j))
    else [SetAt(trs, env, init, goal, idx, sure, 0), SetAt(trs, env, init, goal, idx, sure, |idx|)]
  }

  lemma MidwayHas<S(!new)>(trs: seq<Named<S>>, env: set<S>, init: set<S>, goal: set<S>, idx: seq<nat>, j: nat, x0: S, x: S, y: S)
    requires InRange(trs, idx) && j <= |idx| && x0 in init && y in goal
    requires FiresIn(trs, env, idx[..j], x0, x) && FiresIn(trs, env, idx[j..], x, y)
    ensures x in Midway(trs, env, init, goal, idx, j)
  {
    assert x in env + goal by {
      if j < |idx| { assert idx[j..] != []; }
    }
    assert LeadsTo(trs, env, init, idx[..j], x) && LeadsFrom(trs, env, goal, idx[j..], x);
  }

  lemma StepOfSequence<S(!new)>(trs: seq<Named<S>>, env: set<S>, init: set<S>, goal: set<S>, idx: seq<nat>, j: nat, x0: S, x: S, z: S, y: S)
    requires InRange(trs, idx) && j < |idx| && x0 in init && y in goal && x in env && Pair(x, z) in trs[idx[j]].rel
    requires FiresIn(trs, env, idx[..j], x0, x) && FiresIn(trs, env, idx[j + 1..], z, y)
    ensures x in Midway(trs, env, init, goal, idx, j) && z in Midway(trs, env, init, goal, idx, j + 1)
  {
    FiresInOne(trs, env, idx[j], x, z);
    assert idx[..j] + [idx[j]] == idx[..j + 1] && [idx[j]] + idx[j + 1..] == idx[j..];
    FiresInConcat(trs, env, idx[..j], [idx[j]], x0, x, z);
    FiresInConcat(trs, env, [idx[j]], idx[j + 1..], x, z, y);
    MidwayHas(trs, env, init, goal, idx, j, x0, x, y);
    MidwayHas(trs, env, init, goal, idx, j + 1, x0, z, y);
  }

  /** Each state shown is entered from the set before and leaves into the set after, by the transition named. */
  lemma ShownSteps<S(!new)>(trs: seq<Named<S>>, env: set<S>, init: set<S>, goal: set<S>, idx: seq<nat>)
    requires InRange(trs, idx)
    ensures var states := Shown(trs, env, init, goal, idx, true, true);
      AllEntered(trs, idx, states) && AllLeave(trs, idx, states)
  {
    hide FiresIn;
    var states := Shown(trs, env, init, goal, idx, true, true);
    forall j: nat | j < |idx| ensures Entered(trs, idx, states, j) && Leaves(trs, idx, states, j) {
      forall z | z in states[j + 1] ensures z in Post(trs[idx[j]].rel, states[j]) {
        var x := EntersMidway(trs, env, init, goal, idx, j, z);
        StepInto(trs[idx[j]].rel, states[j], x, z);
      }
      forall x | x in states[j] ensures x in Pre(trs[idx[j]].rel, states[j + 1]) {
        var z := LeavesMidway(trs, env, init, goal, idx, j, x);
        var e := Pair(x, z);
        assert e in trs[idx[j]].rel && e.dst in states[j + 1];
      }
    }
  }

  lemma {:induction false} NamesOfRest<S(!new)>(trs: seq<Named<S>>, idx: seq<nat>, j: nat)
    requires NamesFirst(trs, idx) && j <= |idx|
    ensures NamesFirst(trs, idx[j..])
  {
    hide NameFirst;
    forall k | 0 <= k < |idx[j..]| ensures NameFirst(trs, idx[j..][k]) {
      assert idx[j..][k] == idx[j + k];
    }
  }

  /** When all names find the transitions fired, no set is lost. */
  lemma ShownNamed<S(!new)>(trs: seq<Named<S>>, env: set<S>, init: set<S>, goal: set<S>, idx: seq<nat>, all: bool)
    requires NamesFirst(trs, idx)
    ensures Shown(trs, env, init, goal, idx, false, all) == Shown(trs, env, init, goal, idx, true, all)
  {
    hide Midway, NamesFirst;
    forall j: nat | j <= |idx| ensures SetAt(trs, env, init, goal, idx, false, j) == SetAt(trs, env, init, goal, idx, true, j) {
      NamesOfRest(trs, idx, j);
    }
  }

  lemma EntersMidway<S(!new)>(trs: seq<Named<S>>, env: set<S>, init: set<S>, goal: set<S>, idx: seq<nat>, j: nat, z: S) returns (x: S)
    requires InRange(trs, idx) && j < |idx| && z in Midway(trs, env, init, goal, idx, j + 1)
    ensures x in Midway(trs, env, init, goal, idx, j) && Pair(x, z) in trs[idx[j]].rel
  {
    hide FiresIn;
    var x0 :| x0 in init && FiresIn(trs, env, idx[..j + 1], x0, z);
    var y :| y in goal && FiresIn(trs, env, idx[j + 1..], z, y);
    x := FiresInSplit(trs, env, idx[..j + 1], j, x0, z);
    assert idx[..j + 1][..j] == idx[..j] && idx[..j + 1][j..] == [idx[j]];
    FiresInOne(trs, env, idx[j], x, z);
    StepOfSequence(trs, env, init, goal, idx, j, x0, x, z, y);
  }

  lemma LeavesMidway<S(!new)>(trs: seq<Named<S>>, env: set<S>, init: set<S>, goal: set<S>, idx: seq<nat>, j: nat, x: S) returns (z: S)
    requires InRange(trs, idx) && j < |idx| && x in Midway(trs, env, init, goal, idx, j)
    ensures z in Midway(trs, env, init, goal, idx, j + 1) && Pair(x, z) in trs[idx[j]].rel
  {
    hide FiresIn;
    var x0 :| x0 in init && FiresIn(trs, env, idx[..j], x0, x);
    var y :| y in goal && FiresIn(trs, env, idx[j..], x, y);
    z := FiresInSplit(trs, env, idx[j..], 1, x, y);
    assert idx[j..][..1] == [idx[j]] && idx[j..][1..] == idx[j + 1..];
    FiresInOne(trs, env, idx[j], x, z);
    StepOfSequence(trs, env, init, goal, idx, j, x0, x, z, y);
  }

  // ---------------------------------------------------------------- what the passes leave

  ghost predicate KeepsFrom<S(!new)>(trs: seq<Named<S>>, idx: seq<nat>, was: seq<set<S>>, states: seq<set<S>>, c: nat) {
    && InRange(trs, idx) && |was| == |states| == |idx| + 1 && states[|idx|] == was[|idx|]
    && forall j: nat :: c <= j < |idx| ==> Keeps(trs, idx, was, states, j)
  }

  ghost predicate LeaveFrom<S(!new)>(trs: seq<Named<S>>, idx: seq<nat>, states: seq<set<S>>, c: nat) {
    InRange(trs, idx) && |states| == |idx| + 1 && forall j: nat :: c <= j < |idx| ==> Leaves(trs, idx, states, j)
  }

  /** A step of a sequence to the goal stays in the climb. */
  lemma ClimbOn<S(!new)>(trs: seq<Named<S>>, env: set<S>, init: set<S>, goal: set<S>, idx: seq<nat>, was: seq<set<S>>,
                         c: nat, x: S, z: S, y: S)
    requires Climb(trs, env, init, goal, idx, was) && c < |idx| && |was| == |idx| + 1 && InRange(trs, idx)
    requires x in was[c] && x in env && Pair(x, z) in trs[idx[c]].rel && FiresIn(trs, env, idx[c + 1..], z, y) && y in goal
    ensures z in was[c + 1]
  {
    hide Layer, Inside, Near, Post, Climbed;
    var g, n := Inside(trs, env), |idx|;
    ClimbIsClimbed(trs, env, init, goal, idx, was);
    assert was[c] <= Layer(g, goal, n - c) && idx[c..][1..] == idx[c + 1..];
    CrossTo(trs, env, goal, idx[c..], x, z, y);
    RungAt(g, init, goal, n, c + 1);
    assert Chosen(trs, idx, Rungs(g, init, goal, n), was, c);
    StepInto(trs[idx[c]].rel, was[c], x, z);
  }

  /** The states after `c` steps on the way to the goal are in the climb. */
  lemma {:induction false} ClimbPasses<S(!new)>(trs: seq<Named<S>>, env: set<S>, init: set<S>, goal: set<S>, idx: seq<nat>, was: seq<set<S>>,
                                                j: nat, c: nat, x: S, z: S, y: S)
    requires Climb(trs, env, init, goal, idx, was) && j <= c <= |idx| && |was| == |idx| + 1 && InRange(trs, idx)
    requires x in was[j] && FiresIn(trs, env, idx[j..c], x, z) && FiresIn(trs, env, idx[c..], z, y) && y in goal
    ensures z in was[c]
    decreases c - j
  {
    hide Climb;
    if j < c {
      var u :| x in env && Pair(x, u) in trs[idx[j..c][0]].rel && FiresIn(trs, env, idx[j..c][1..], u, z);
      assert idx[j..c][1..] == idx[j + 1..c] && idx[j + 1..c] + idx[c..] == idx[j + 1..];
      FiresInConcat(trs, env, idx[j + 1..c], idx[c..], u, z, y);
      ClimbOn(trs, env, init, goal, idx, was, j, x, u, y);
      ClimbPasses(trs, env, init, goal, idx, was, j + 1, c, u, z, y);
    } else {
      assert idx[j..c] == [];
    }
  }

  /** States of the climb that lead to the goal are not lost by exact inverses. */
  lemma {:induction false} NotLost<S(!new)>(trs: seq<Named<S>>, env: set<S>, init: set<S>, goal: set<S>, idx: seq<nat>,
                                            was: seq<set<S>>, states: seq<set<S>>, c: nat, x: S, y: S)
    requires Climb(trs, env, init, goal, idx, was) && KeepsFrom(trs, idx, was, states, c) && c <= |idx|
    requires x in was[c] && InRange(trs, idx[c..]) && FiresIn(trs, env, idx[c..], x, y) && y in goal
    ensures x in states[c]
    decreases |idx| - c
  {
    hide Climb;
    if c < |idx| {
      var z :| x in env && Pair(x, z) in trs[idx[c..][0]].rel && FiresIn(trs, env, idx[c..][1..], z, y);
      assert idx[c..][1..] == idx[c + 1..];
      ClimbOn(trs, env, init, goal, idx, was, c, x, z, y);
      NotLost(trs, env, init, goal, idx, was, states, c + 1, z, y);
      assert Keeps(trs, idx, was, states, c);
    }
  }

  lemma {:induction false} LeavesFiresIn<S(!new)>(trs: seq<Named<S>>, env: set<S>, idx: seq<nat>, states: seq<set<S>>, c: nat, x: S)
      returns (y: S)
    requires LeaveFrom(trs, idx, states, c) && c <= |idx| && x in states[c]
    requires forall j :: 0 <= j < |idx| ==> states[j] <= env
    ensures y in states[|idx|] && FiresIn(trs, env, idx[c..], x, y)
    decreases |idx| - c
  {
    if c == |idx| {
      y := x;
    } else {
      assert Leaves(trs, idx, states, c);
      var e :| e in trs[idx[c]].rel && e.dst in states[c + 1] && e.src == x;
      match e.lab case () =>
      assert Pair(x, e.dst) in trs[idx[c]].rel && idx[c..][1..] == idx[c + 1..];
      y := LeavesFiresIn(trs, env, idx, states, c + 1, e.dst);
    }
  }

  lemma {:induction false} EnteredFiresIn<S(!new)>(trs: seq<Named<S>>, env: set<S>, idx: seq<nat>, was: seq<set<S>>, c: nat, z: S)
      returns (x: S)
    requires AllEntered(trs, idx, was) && c <= |idx| && z in was[c]
    requires forall j :: 0 <= j < |idx| ==> was[j] <= env
    ensures x in was[0] && FiresIn(trs, env, idx[..c], x, z)
    decreases c
  {
    if c == 0 {
      x := z;
    } else {
      var u := EnteredBy(trs, idx, was, c - 1, z);
      x := EnteredFiresIn(trs, env, idx, was, c - 1, u);
      FiresInOne(trs, env, idx[c - 1], u, z);
      FiresInConcat(trs, env, idx[..c - 1], [idx[c - 1]], x, u, z);
      assert idx[..c - 1] + [idx[c - 1]] == idx[..c];
    }
  }

  /** Where the backward pass keeps all it should and nothing else, it leaves exactly the states on the ways. */
  lemma ClimbMidway<S(!new)>(trs: seq<Named<S>>, env: set<S>, init: set<S>, goal: set<S>, idx: seq<nat>, reach: set<S>,
                              was: seq<set<S>>, states: seq<set<S>>, c: nat)
    requires Climb(trs, env, init, goal, idx, was) && AllBack(trs, idx, reach, was, states) && c <= |idx|
    requires KeepsFrom(trs, idx, was, states, c) && LeaveFrom(trs, idx, states, c)
    ensures states[c] == Midway(trs, env, init, goal, idx, c)
  {
    hide Inside, Climb, FiresIn, Layer, KeepsFrom, LeaveFrom, SteppedBack;
    ClimbIsClimbed(trs, env, init, goal, idx, was);
    forall j: nat | j <= |idx| ensures states[j] <= was[j] { BackSmaller(trs, idx, reach, was, states, j); }
    forall z | z in states[c] ensures z in Midway(trs, env, init, goal, idx, c) {
      forall j | 0 <= j < |idx| ensures states[j] <= env { assert states[j] <= was[j] <= env; }
      var x := EnteredFiresIn(trs, env, idx, was, c, z);
      var y := LeavesFiresIn(trs, env, idx, states, c, z);
      MidwayHas(trs, env, init, goal, idx, c, x, z, y);
    }
    forall z | z in Midway(trs, env, init, goal, idx, c) ensures z in states[c] {
      var x :| x in init && FiresIn(trs, env, idx[..c], x, z);
      var y :| y in goal && FiresIn(trs, env, idx[c..], z, y);
      assert idx[..c] + idx[c..] == idx && idx[0..c] == idx[..c];
      FiresInConcat(trs, env, idx[..c], idx[c..], x, z, y);
      StartsNearest(trs, env, init, goal, idx, was, idx, x, y);
      ClimbPasses(trs, env, init, goal, idx, was, 0, c, x, z, y);
      NotLost(trs, env, init, goal, idx, was, states, c, z, y);
    }
  }

  // ---------------------------------------------------------------- which inverses make the answers exact

  /** The inverses found by name invent no step from the goals. */
  ghost predicate InventNothing<S(!new)>(trs: seq<Named<S>>, reach: set<S>, env: set<S>, goals: set<S>) {
    forall i: nat, z, y {:trigger Invents(trs, reach, i, z, y)} ::
      i < |trs| && z in env && y in env + goals ==> !Invents(trs, reach, i, z, y)
  }

  ghost predicate Invents<S(!new)>(trs: seq<Named<S>>, reach: set<S>, i: nat, z: S, y: S)
  {
    i < |trs| && Pair(y, z) in trs[FirstNamed(trs, i)].invert(reach) && Pair(z, y) !in NextRel(trs)
  }

  /** A question of one step with one or two starts, and its climb. */
  lemma OneStepClimb<S(!new)>(trs: seq<Named<S>>, env: set<S>, i: nat, x: S, z: S, y: S)
    requires x in env && z in env && x != y && z != y && FirstMakes(trs, i, x, y) && Pair(z, y) in NextRel(trs)
    requires z != x ==> !MadeBy(trs, i, z, y)
    ensures Climb(trs, env, {x, z}, {y}, [i], [{x, z}, {y}])
  {
    var g, idx, was: seq<set<S>> := Inside(trs, env), [i], [{x, z}, {y}];
    NextRelHas(trs, Pair(x, y));
    assert trs[i] in trs;
    forall u | u in {x, z} ensures u in Layer(g, {y}, 1) {
      var e := Pair(u, y);
      assert e in g && e.dst in Near(g, {y}, 0);
    }
    assert Near(g, {y}, 0) == {y};
    assert {x, z} * Layer(g, {y}, 1) == {x, z};
    assert Rungs(g, {x, z}, {y}, 1) == [{x, z}, {y}];
    StepInto(trs[i].rel, {x, z}, x, y);
    forall k: nat | k < i ensures Post(trs[k].rel, {x, z}) * {y} == {} {
      NoneInto(trs[k].rel, {x, z}, y);
    }
    assert Chosen(trs, idx, was, was, 0);
  }

  /** Where no step is invented, the answers to all questions have exact sets exactly when all steps are invertible. */
  lemma AnswersExactIff<S(!new)>(trs: seq<Named<S>>, reach: set<S>, env: set<S>, goals: set<S>)
    requires InventNothing(trs, reach, env, goals)
    ensures StepExact(trs, reach, env, goals) <==>
      forall init, goal, idx, was, states ::
        goal <= env + goals && Climb(trs, env, init, goal, idx, was) && AllBack(trs, idx, reach, was, states) ==>
        Exact(trs, idx, was, states)
  {
    hide Exact, AllBack, Climb, FirstNamed, OneBack, Invertible, InventNothing;
    if StepExact(trs, reach, env, goals) {
      forall init, goal, idx, was, states |
        goal <= env + goals && Climb(trs, env, init, goal, idx, was) && AllBack(trs, idx, reach, was, states)
        ensures Exact(trs, idx, was, states)
      {
        ClimbIsClimbed(trs, env, init, goal, idx, was);
        StepExactSuffices(trs, reach, env, goals, goal, idx, was, states);
      }
    } else {
      var i: nat, x, y :| x in env && y in env + goals && x != y && FirstMakes(trs, i, x, y) && !Invertible(trs, reach, env, i, x, y);
      assert {y} <= env + goals;
      NotInvertibleAnswer(trs, reach, env, goals, i, x, y);
    }
  }

  lemma NotInvertibleAnswer<S(!new)>(trs: seq<Named<S>>, reach: set<S>, env: set<S>, goals: set<S>, i: nat, x: S, y: S)
    requires InventNothing(trs, reach, env, goals)
    requires x in env && y in env + goals && x != y && FirstMakes(trs, i, x, y) && !Invertible(trs, reach, env, i, x, y)
    ensures exists init, was, states ::
      Climb(trs, env, init, {y}, [i], was) && AllBack(trs, [i], reach, was, states) && !Exact(trs, [i], was, states)
  {
    hide Exact, AllBack, Climb, OneBack;
    var inv := trs[FirstNamed(trs, i)].invert(reach);
    NextRelHas(trs, Pair(x, y));
    assert trs[i] in trs && {x, x} == {x};
    OneStepClimb(trs, env, i, x, x, y);
    OneClimb(trs, reach, env, i, x, y, {x});
    if Exact(trs, [i], [{x}, {y}], OneBack(trs, reach, i, {x}, y)) {
      if Pair(y, x) in inv {
        var z :| z in env && z != y && Pair(y, z) in inv && !MadeBy(trs, i, z, y);
        assert !Invents(trs, reach, i, z, y);
        OneStepClimb(trs, env, i, x, z, y);
        OneClimb(trs, reach, env, i, x, y, {x, z});
        if Exact(trs, [i], [{x, z}, {y}], OneBack(trs, reach, i, {x, z}, y)) {
          ExactIsInvertible(trs, reach, env, i, x, y, z);
        }
      } else {
        ExactIsInvertible(trs, reach, env, i, x, y, y);
      }
    }
  }

  // ---------------------------------------------------------------- findPath

  datatype Path<!S(==)> = Path(names: seq<string>, states: seq<set<S>>)

  /** `PastTheEnd`: the backward pass runs out of names and reads past the front of the witness. */
  datatype Answer<!S(==)> = Found(path: Path<S>) | PastTheEnd

  /** The answer that stands for "there is no path". */
  function NoPath<S(==)>(init: set<S>, goal: set<S>): Answer<S> {
    Found(Path([], [init, goal]))
  }

  /** A shortest sequence with respect to `g` between parts of the two sets, or no path when there is none. */
  ghost predicate Answers<S(!new)>(trs: seq<Named<S>>, g: Rel<S>, init: set<S>, goal: set<S>, r: Answer<S>, idx: seq<nat>) {
    if Reachable(g, init, goal) then
      && Shortest(trs, g, init, goal, idx) && r.Found? && r.path.names == Names(trs, idx) && |r.path.states| > 1
      && r.path.states[0] <= init && r.path.states[|r.path.states| - 1] <= goal && r.path.states[|r.path.states| - 1] != {}
    else r == NoPath(init, goal)
  }

  /** The first of the shortest sequences, and the goal states it leads to. */
  ghost predicate AnswersLeast<S(!new)>(trs: seq<Named<S>>, env: set<S>, init: set<S>, goal: set<S>, r: Answer<S>, idx: seq<nat>) {
    && LeastPath(trs, env, init, goal, idx)
    && r.Found? && |r.path.states| > 1 && r.path.states[|r.path.states| - 1] == Finals(trs, env, init, goal, idx)
  }

  lemma FoundClimb<S(!new)>(trs: seq<Named<S>>, env: set<S>, init: set<S>, goal: set<S>, layers: seq<set<S>>, meet: set<S>,
                            idx: seq<nat>, comps: seq<set<S>>)
    requires Searched(Inside(trs, env), init, goal, true, layers, meet) && |comps| == |layers| + 1
    requires AllChosen(trs, idx, [meet * init] + layers, comps)
    ensures Climb(trs, env, init, goal, idx, comps)
  {
    hide Near, Layer, Chosen, Inside;
    var g, rungs := Inside(trs, env), Rungs(Inside(trs, env), init, goal, |idx|);
    var steps := [meet * init] + layers;
    forall j: nat | j <= |idx| ensures steps[j] == rungs[j] {
      RungAt(g, init, goal, |idx|, j);
      if j > 0 { assert steps[j] == layers[j - 1]; }
    }
    assert steps == rungs;
  }

  lemma FoundInside<S(!new)>(trs: seq<Named<S>>, env: set<S>, init: set<S>, goal: set<S>, layers: seq<set<S>>, meet: set<S>,
                             idx: seq<nat>, comps: seq<set<S>>)
    requires Searched(Inside(trs, env), init, goal, true, layers, meet) && |comps| == |layers| + 1
    requires AllChosen(trs, idx, [meet * init] + layers, comps)
    ensures Climb(trs, env, init, goal, idx, comps) && LeastPath(trs, env, init, goal, idx)
    ensures comps[0] == init * Layer(Inside(trs, env), goal, |idx|) && |comps| == |idx| + 1
    ensures comps[|idx|] == Finals(trs, env, init, goal, idx)
  {
    hide Inside, Shortest, Reachable, Near, Layer, Searched, Climb, LeastPath, Chosen, Finals;
    var g := Inside(trs, env);
    FoundClimb(trs, env, init, goal, layers, meet, idx, comps);
    ClimbIsClimbed(trs, env, init, goal, idx, comps);
    ClimbedEnters(trs, env, goal, idx, comps);
    ClimbEnds(trs, env, init, goal, idx, comps);
    WitnessFound(trs, g, init, goal, layers, meet, idx, comps);
    ClimbIsLeast(trs, env, init, goal, idx, comps);
    ClimbFinals(trs, env, init, goal, idx, comps);
  }

  lemma ClimbEnds<S(!new)>(trs: seq<Named<S>>, env: set<S>, init: set<S>, goal: set<S>, idx: seq<nat>, comps: seq<set<S>>)
    requires Climb(trs, env, init, goal, idx, comps)
    ensures |comps| == |idx| + 1 && comps[0] <= init && comps[|idx|] <= goal && comps[|idx|] != {}
  {
    hide Inside, Layer, Climb, Climbed;
    ClimbIsClimbed(trs, env, init, goal, idx, comps);
    FirstLayerIsGoal(Inside(trs, env), goal);
    assert comps[|idx|] <= Layer(Inside(trs, env), goal, |idx| - |idx|);
  }

  lemma BackShape<S(!new)>(trs: seq<Named<S>>, idx: seq<nat>, reach: set<S>, comps: seq<set<S>>, states: seq<set<S>>)
    requires AllBack(trs, idx, reach, comps, states)
    ensures |states| == |comps| == |idx| + 1 && states[|idx|] == comps[|idx|] && states[0] <= comps[0]
  {
    BackSmaller(trs, idx, reach, comps, states, 0);
  }

  /** With trusted inverses the names decide, ... */
  lemma TrustedSets<S(!new)>(trs: seq<Named<S>>, idx: seq<nat>, reach: set<S>, comps: seq<set<S>>, states: seq<set<S>>,
                             env: set<S>, init: set<S>, goal: set<S>)
    requires Climb(trs, env, init, goal, idx, comps) && AllBack(trs, idx, reach, comps, states) && Trusted(trs, reach, env, goal)
    ensures states == Shown(trs, env, init, goal, idx, false, true)
  {
    hide Trusted, InEnvelope, NamesFirst, SteppedBack, Climb, Apart, AllEntered, AllFirst, Midway;
    ClimbIsClimbed(trs, env, init, goal, idx, comps);
    forall c: nat | c <= |idx| ensures states[c] == SetAt(trs, env, init, goal, idx, false, c) {
      BackFrom(trs, idx, reach, comps, states, env, goal, c);
      if NamesFirst(trs, idx[c..]) { ClimbMidway(trs, env, init, goal, idx, reach, comps, states, c); }
    }
  }

  /** ... and with invertible steps nothing is lost. */
  lemma ExactSets<S(!new)>(trs: seq<Named<S>>, idx: seq<nat>, reach: set<S>, comps: seq<set<S>>, states: seq<set<S>>,
                           env: set<S>, init: set<S>, goal: set<S>)
    requires Climb(trs, env, init, goal, idx, comps) && AllBack(trs, idx, reach, comps, states) && StepExact(trs, reach, env, goal)
    ensures states == Shown(trs, env, init, goal, idx, true, true)
  {
    hide StepExact, Climb, Midway, Climbed, SteppedBack;
    ClimbIsClimbed(trs, env, init, goal, idx, comps);
    StepExactSuffices(trs, reach, env, goal, goal, idx, comps, states);
    forall c: nat | c <= |idx| ensures states[c] == SetAt(trs, env, init, goal, idx, true, c) {
      ClimbMidway(trs, env, init, goal, idx, reach, comps, states, c);
    }
  }

  /** `findPath` */
  method FindPath<S(==, !new)>(m: ItsModel<S>, init: set<S>, toreach: set<S>, reach: set<S>, precise: bool)
      returns (r: Answer<S>, ghost idx: seq<nat>)
    requires m.Valid()
    modifies m
    ensures m.Valid()
    ensures init * toreach != {} ==> r == Found(Path([], [init * toreach, init * toreach]))
    ensures init * toreach == {} ==> var env := m.Envelope(reach); var h := Converse(ChosenRel(m.trs, env));
      && (!Reachable(h, init, toreach) ==> r == NoPath(init, toreach))
      && (Climbable(m.trs, h, toreach) ==> Answers(m.trs, h, init, toreach, r, idx))
      && (precise && Reachable(h, init, toreach) && r.Found? ==>
            Answers(m.trs, h, init, toreach, r, idx) && FirstStep(m.trs, h, init, toreach, |idx|))
    ensures init * toreach == {} ==> var env := m.Envelope(reach); var g := Inside(m.trs, env);
      Trusted(m.trs, env, env, toreach) && StaysInside(m.trs, env, toreach) ==>
        && Answers(m.trs, g, init, toreach, r, idx)
        && (Reachable(g, init, toreach) ==> AnswersLeast(m.trs, env, init, toreach, r, idx))
        && (Reachable(g, init, toreach) && !precise && !m.printStatesInTrace ==>
              r.path.states[0] == init * Layer(g, toreach, |idx|))
        && (Reachable(g, init, toreach) && (precise || m.printStatesInTrace) && Trusted(m.trs, reach, env, toreach) ==>
              r.path.states == Shown(m.trs, env, init, toreach, idx, false, m.printStatesInTrace))
        && (Reachable(g, init, toreach) && (precise || m.printStatesInTrace) && StepExact(m.trs, reach, env, toreach) ==>
              r.path.states == Shown(m.trs, env, init, toreach, idx, true, m.printStatesInTrace))
        && (Reachable(g, init, toreach) && m.printStatesInTrace
            && (StepExact(m.trs, reach, env, toreach) || (Trusted(m.trs, reach, env, toreach) && NamesFirst(m.trs, idx))) ==>
              AllEntered(m.trs, idx, r.path.states) && AllLeave(m.trs, idx, r.path.states))
  {
    hide Near, Layer, Layers, PredOf, CanReach, Fires, Ladder, AllBack, AllChosen, NextRel, Shortest, ChosenRel, Converse, Inside, Reachable, Searched, StaysInside, Trusted, InRange, GoodInverses, ReachSet, Climbable, FirstStep, Climb, LeastPath, Finals, SetAt, StepExact, NamesFirst, AllEntered, AllLeave;
    idx := [];
    var inter := init * toreach;
    if inter != {} {
      return Found(Path([], [inter, inter])), [];
    }
    ghost var env := m.Envelope(reach);
    var revTrans := m.GetPredRel(reach);
    ghost var g, h := Inside(m.trs, env), Converse(revTrans);
    ghost var inside, sound := Trusted(m.trs, env, env, toreach) && StaysInside(m.trs, env, toreach), Climbable(m.trs, h, toreach);
    var found, layers, meet := BackwardLayers(revTrans, init, toreach);
    SearchedFacts(h, init, toreach, found, layers, meet);
    if inside {
      SearchInside(m.trs, env, init, toreach, found, layers, meet);
      SearchedFacts(g, init, toreach, found, layers, meet);
    }
    if !found {
      return Found(Path([], [init, toreach])), [];
    }
    var comps0 := [meet * init] + layers;
    InsideFrom(m.trs, env);
    if inside {
      FoundLadder(g, init, toreach, layers, meet);
      RealIsClimbable(m.trs, g, toreach);
    }
    if sound { FoundLadder(h, init, toreach, layers, meet); }
    var names, comps;
    names, comps, idx := ForwardPass(m.trs, comps0, if inside then g else h, toreach);
    if |names| + 1 == |comps| {
      ChosenFacts(m.trs, idx, comps0, comps);
      WitnessFound(m.trs, h, init, toreach, layers, meet, idx, comps);
      FirstOfClimb(m.trs, h, init, toreach, layers, meet, idx, comps);
    }
    if inside {
      FoundInside(m.trs, env, init, toreach, layers, meet, idx, comps);
      WitnessFound(m.trs, g, init, toreach, layers, meet, idx, comps);
    }
    if !precise && !m.printStatesInTrace {
      r := Found(Path(names, [comps[0], comps[|comps| - 1]]));
      return;
    }
    if |names| + 1 < |comps| {
      return PastTheEnd, idx;
    }
    var states := BackwardPass(m.trs, names, reach, comps, idx);
    BackShape(m.trs, idx, reach, comps, states);
    if inside && Trusted(m.trs, reach, env, toreach) {
      TrustedSets(m.trs, idx, reach, comps, states, env, init, toreach);
    }
    if inside && StepExact(m.trs, reach, env, toreach) {
      ExactSets(m.trs, idx, reach, comps, states, env, init, toreach);
    }
    ShownSteps(m.trs, env, init, toreach, idx);
    if NamesFirst(m.trs, idx) { ShownNamed(m.trs, env, init, toreach, idx, true); }
    if m.printStatesInTrace {
      r := Found(Path(names, states));
    } else {
      r := Found(Path(names, [states[0], states[|states| - 1]]));
    }
  }

  lemma ChosenFacts<S(!new)>(trs: seq<Named<S>>, idx: seq<nat>, layers: seq<set<S>>, states: seq<set<S>>)
    requires AllChosen(trs, idx, layers, states)
    ensures AllEntered(trs, idx, states) && |states| == |idx| + 1 && states[|idx|] != {} && |layers| == |idx| + 1
    ensures |idx| > 0 ==> states[1] != {}
  {
    ChosenPass(trs, idx, layers, states);
  }
}
