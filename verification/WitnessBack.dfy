/** The backward pass of `findPath` (its/ITSModel.cpp): which inverses make the sets it leaves exact. */
module WitnessBack {
  import opened Graphs
  import opened Its
  import opened Witness

  // ---------------------------------------------------------------- the backward pass

  /** Look a transition up by name: the first one wins. */
  method ByName<S(==, !new)>(trs: seq<Named<S>>, name: string) returns (i: nat)
    requires exists k: nat :: k < |trs| && trs[k].name == name
    ensures i < |trs| && trs[i].name == name && forall k: nat :: k < i ==> trs[k].name != name
  {
    i := 0;
    while trs[i].name != name
      invariant i < |trs| && forall k: nat :: k < i ==> trs[k].name != name
      decreases |trs| - i
    {
      i := i + 1;
    }
  }

  /** No earlier transition has the same name. */
  ghost predicate NameFirst<S(!new)>(trs: seq<Named<S>>, i: nat) {
    i < |trs| && forall k: nat :: k < i ==> trs[k].name != trs[i].name
  }

  ghost predicate NamesFirst<S(!new)>(trs: seq<Named<S>>, idx: seq<nat>) {
    forall j {:trigger idx[j]} :: 0 <= j < |idx| ==> NameFirst(trs, idx[j])
  }

  /** `states[j]` is what remains of `was[j]` after stepping back from `states[j+1]` by the first transition with the
      name of the `j`-th. */
  ghost predicate SteppedBack<S(!new)>(trs: seq<Named<S>>, idx: seq<nat>, reach: set<S>, was: seq<set<S>>, states: seq<set<S>>, j: nat)
    requires InRange(trs, idx) && |states| == |was| == |idx| + 1 && j < |idx|
  {
    exists k: nat :: NameFirst(trs, k) && trs[k].name == trs[idx[j]].name
                     && states[j] == was[j] * Post(trs[k].invert(reach), states[j + 1])
  }

  ghost predicate AllBack<S(!new)>(trs: seq<Named<S>>, idx: seq<nat>, reach: set<S>, was: seq<set<S>>, states: seq<set<S>>) {
    && InRange(trs, idx) && |states| == |was| == |idx| + 1 && states[|idx|] == was[|idx|]
    && forall j: nat :: j < |idx| ==> SteppedBack(trs, idx, reach, was, states, j)
  }

  /** Step back along the witness, keeping in each set only what the inverse reaches. */
  method BackwardPass<S(==, !new)>(trs: seq<Named<S>>, names: seq<string>, reach: set<S>, comps0: seq<set<S>>, ghost idx: seq<nat>)
      returns (comps: seq<set<S>>)
    requires InRange(trs, idx) && names == Names(trs, idx) && |comps0| == |idx| + 1
    ensures AllBack(trs, idx, reach, comps0, comps)
  {
    hide Post;
    comps := comps0;
    var c := |names|;
    while c > 0
      invariant 0 <= c <= |names| && |comps| == |comps0| && comps[|idx|] == comps0[|idx|]
      invariant forall j :: 0 <= j < c ==> comps[j] == comps0[j]
      invariant forall j: nat :: c <= j < |idx| ==> SteppedBack(trs, idx, reach, comps0, comps, j)
    {
      c := c - 1;
      assert trs[idx[c]].name == names[c];
      var i := ByName(trs, names[c]);
      assert NameFirst(trs, i);
      var revt := trs[i].invert(reach);
      ghost var was := comps;
      comps := comps[c := comps[c] * Post(revt, comps[c + 1])];
      assert SteppedBack(trs, idx, reach, comps0, comps, c);
      forall j: nat | c < j < |idx| ensures SteppedBack(trs, idx, reach, comps0, comps, j) {
        assert SteppedBack(trs, idx, reach, comps0, was, j);
      }
    }
  }

  /** All sets but the last lie in the envelope, and the last in the goal. */
  ghost predicate InEnvelope<S>(env: set<S>, goal: set<S>, states: seq<set<S>>) {
    && (forall j :: 0 <= j < |states| - 1 ==> states[j] <= env)
    && (states != [] ==> states[|states| - 1] <= goal)
  }

  /** No state that can still fire the `j`-th transition into `states[j+1]` is lost. */
  ghost predicate Keeps<S(!new)>(trs: seq<Named<S>>, idx: seq<nat>, was: seq<set<S>>, states: seq<set<S>>, j: nat)
    requires InRange(trs, idx) && |states| == |was| == |idx| + 1 && j < |idx|
  {
    forall x, y {:trigger Pair(x, y)} :: x in was[j] && y in states[j + 1] && Pair(x, y) in trs[idx[j]].rel ==> x in states[j]
  }

  /** The sets are exact: each state fires the rest of the sequence, each is entered, and none that does is lost. */
  ghost predicate Exact<S(!new)>(trs: seq<Named<S>>, idx: seq<nat>, was: seq<set<S>>, states: seq<set<S>>) {
    && AllLeave(trs, idx, states) && AllEntered(trs, idx, states) && |was| == |states|
    && forall j: nat :: j < |idx| ==> Keeps(trs, idx, was, states, j)
  }

  lemma {:induction false} BackSmaller<S(!new)>(trs: seq<Named<S>>, idx: seq<nat>, reach: set<S>, was: seq<set<S>>,
                                                states: seq<set<S>>, j: nat)
    requires AllBack(trs, idx, reach, was, states) && j <= |idx|
    ensures states[j] <= was[j]
  {
    if j < |idx| { assert SteppedBack(trs, idx, reach, was, states, j); }
  }

  /** The transition found by name is the one fired: its inverse keeps what can fire it. */
  lemma StepBack<S(!new)>(trs: seq<Named<S>>, idx: seq<nat>, reach: set<S>, was: seq<set<S>>, states: seq<set<S>>, j: nat,
                          env: set<S>, goal: set<S>)
    requires AllBack(trs, idx, reach, was, states) && AllEntered(trs, idx, was) && j < |idx|
    requires Trusted(trs, reach, env, goal) && InEnvelope(env, goal, was) && NameFirst(trs, idx[j])
    ensures Leaves(trs, idx, states, j) && Entered(trs, idx, states, j) && Keeps(trs, idx, was, states, j)
  {
    var t := trs[idx[j]];
    assert SteppedBack(trs, idx, reach, was, states, j);
    assert states[j] == was[j] * Post(t.invert(reach), states[j + 1]);
    BackSmaller(trs, idx, reach, was, states, j + 1);
    assert t in trs;
    forall x | x in states[j] ensures x in Pre(t.rel, states[j + 1]) {
      var e := PostHas(t.invert(reach), states[j + 1], x);
      match e.lab case () =>
      assert Pair(e.src, x) in t.invert(reach);
      var f := Pair(x, e.src);
      assert f in t.rel && f.dst in states[j + 1];
    }
    forall y | y in states[j + 1] ensures y in Post(t.rel, states[j]) {
      assert Entered(trs, idx, was, j);
      var e := PostHas(t.rel, was[j], y);
      match e.lab case () =>
      assert Pair(e.src, y) in t.rel;
      var f := Pair(y, e.src);
      assert f in t.invert(reach) && f.src in states[j + 1];
      assert e.src in states[j];
    }
    forall x, y | x in was[j] && y in states[j + 1] && Pair(x, y) in t.rel ensures x in states[j] {
      var f := Pair(y, x);
      assert f in t.invert(reach) && f.src in states[j + 1];
    }
  }

  lemma StepHits<S(!new)>(g: Rel<S>, xs: set<S>, ys: set<S>, x: S, y: S)
    requires x in xs && y in ys && Pair(x, y) in g
    ensures Post(g, xs) * ys != {}
  {
    var e := Pair(x, y);
    assert e.src in xs && y in Post(g, xs) * ys;
  }

  /** A transition that makes no step between the sets has no inverse step between them. */
  lemma NoStepBack<S(!new)>(trs: seq<Named<S>>, reach: set<S>, env: set<S>, goal: set<S>, k: nat, xs: set<S>, ys: set<S>)
    requires Trusted(trs, reach, env, goal) && k < |trs| && xs <= env && ys <= env + goal
    requires Post(trs[k].rel, xs) * ys == {}
    ensures xs * Post(trs[k].invert(reach), ys) == {}
  {
    hide Post;
    var t := trs[k];
    assert t in trs;
    if x :| x in xs * Post(t.invert(reach), ys) {
      var e := PostHas(t.invert(reach), ys, x);
      match e.lab case () =>
      assert e == Pair(e.src, x);
      assert Pair(x, e.src) in t.rel;
      StepHits(t.rel, xs, ys, x, e.src);
    }
  }

  /** The name finds an earlier transition, which made no step here: nothing remains. */
  lemma StepLost<S(!new)>(trs: seq<Named<S>>, idx: seq<nat>, reach: set<S>, was: seq<set<S>>, states: seq<set<S>>, j: nat,
                          env: set<S>, goal: set<S>)
    requires AllBack(trs, idx, reach, was, states) && AllFirst(trs, idx, was) && j < |idx|
    requires Trusted(trs, reach, env, goal) && InEnvelope(env, goal, was) && !NameFirst(trs, idx[j])
    ensures states[j] == {}
  {
    hide Trusted, Post;
    assert SteppedBack(trs, idx, reach, was, states, j);
    var k: nat :| NameFirst(trs, k) && trs[k].name == trs[idx[j]].name
                  && states[j] == was[j] * Post(trs[k].invert(reach), states[j + 1]);
    assert k < idx[j];
    BackSmaller(trs, idx, reach, was, states, j + 1);
    assert NoneBefore(trs, idx, was, j);
    NoStepBack(trs, reach, env, goal, k, was[j], states[j + 1]);
  }

  lemma BackFromNothing<S(!new)>(trs: seq<Named<S>>, idx: seq<nat>, reach: set<S>, was: seq<set<S>>, states: seq<set<S>>, j: nat)
    requires AllBack(trs, idx, reach, was, states) && j < |idx| && states[j + 1] == {}
    ensures states[j] == {}
  {
    assert SteppedBack(trs, idx, reach, was, states, j);
  }

  lemma {:induction false} BackFrom<S(!new)>(trs: seq<Named<S>>, idx: seq<nat>, reach: set<S>, was: seq<set<S>>, states: seq<set<S>>,
                                             env: set<S>, goal: set<S>, c: nat)
    requires AllBack(trs, idx, reach, was, states) && AllEntered(trs, idx, was) && AllFirst(trs, idx, was) && c <= |idx|
    requires Trusted(trs, reach, env, goal) && InEnvelope(env, goal, was)
    ensures NamesFirst(trs, idx[c..]) ==> forall j: nat :: c <= j < |idx| ==>
      Leaves(trs, idx, states, j) && Entered(trs, idx, states, j) && Keeps(trs, idx, was, states, j)
    ensures !NamesFirst(trs, idx[c..]) ==> states[c] == {}
    decreases |idx| - c
  {
    hide Post, Trusted, InEnvelope, NameFirst, Leaves, Entered, Keeps;
    if c < |idx| {
      BackFrom(trs, idx, reach, was, states, env, goal, c + 1);
      assert idx[c..] == [idx[c]] + idx[c + 1..];
      if NameFirst(trs, idx[c]) {
        StepBack(trs, idx, reach, was, states, c, env, goal);
        if !NamesFirst(trs, idx[c + 1..]) {
          BackFromNothing(trs, idx, reach, was, states, c);
        }
      } else {
        StepLost(trs, idx, reach, was, states, c, env, goal);
      }
    }
  }

  /** After both passes the answer is exact, or empty, as the names are looked up right or not. */
  lemma PassesMean<S(!new)>(trs: seq<Named<S>>, idx: seq<nat>, reach: set<S>, was: seq<set<S>>, states: seq<set<S>>,
                            env: set<S>, goal: set<S>)
    requires AllBack(trs, idx, reach, was, states) && AllEntered(trs, idx, was) && AllFirst(trs, idx, was)
    requires Trusted(trs, reach, env, goal) && InEnvelope(env, goal, was)
    ensures NamesFirst(trs, idx) ==> Exact(trs, idx, was, states)
    ensures !NamesFirst(trs, idx) ==> states[0] == {}
  {
    hide Trusted, InEnvelope, NamesFirst, Leaves, Entered, Keeps, SteppedBack, NoneBefore;
    BackFrom(trs, idx, reach, was, states, env, goal, 0);
    assert idx[0..] == idx;
  }

  // ---------------------------------------------------------------- exact inverses

  /** Transition `i` is the first that leads from `x` to `y`. */
  ghost predicate FirstMakes<S(!new)>(trs: seq<Named<S>>, i: nat, x: S, y: S) {
    i < |trs| && Pair(x, y) in trs[i].rel && forall k: nat :: k < i ==> Pair(x, y) !in trs[k].rel
  }

  ghost predicate Apart<S>(states: seq<set<S>>) {
    forall j {:trigger states[j]} :: 0 <= j < |states| - 1 ==> states[j] * states[j + 1] == {}
  }

  lemma FirstOfSets<S(!new)>(trs: seq<Named<S>>, i: nat, xs: set<S>, ys: set<S>, x: S, y: S)
    requires i < |trs| && x in xs && y in ys && Pair(x, y) in trs[i].rel
    requires forall k: nat :: k < i ==> Post(trs[k].rel, xs) * ys == {}
    ensures FirstMakes(trs, i, x, y)
  {
    forall k: nat | k < i ensures Pair(x, y) !in trs[k].rel {
      if Pair(x, y) in trs[k].rel { StepHits(trs[k].rel, xs, ys, x, y); }
    }
  }

  lemma {:induction false} FirstNamedExists<S(!new)>(trs: seq<Named<S>>, i: nat)
    requires i < |trs|
    ensures exists k: nat :: NameFirst(trs, k) && trs[k].name == trs[i].name
  {
    if !NameFirst(trs, i) {
      var k: nat :| k < i && trs[k].name == trs[i].name;
      FirstNamedExists(trs, k);
    }
  }

  /** The transition that the name of `i` finds. */
  ghost function FirstNamed<S(!new)>(trs: seq<Named<S>>, i: nat): (k: nat)
    requires i < |trs|
    ensures NameFirst(trs, k) && trs[k].name == trs[i].name && k <= i
  {
    FirstNamedExists(trs, i);
    var k: nat :| NameFirst(trs, k) && trs[k].name == trs[i].name;
    k
  }

  /** One of the first `i + 1` transitions leads from `z` to `y`. */
  ghost predicate MadeBy<S(!new)>(trs: seq<Named<S>>, i: nat, z: S, y: S) {
    exists k: nat :: k <= i && k < |trs| && Pair(z, y) in trs[k].rel
  }

  /** What the name of `i` finds inverts the step from `x` to `y`; of the other states of the envelope it leads to from
      `y`, each makes a step to `y` by `i` or an earlier transition. */
  ghost predicate Invertible<S(!new)>(trs: seq<Named<S>>, reach: set<S>, env: set<S>, i: nat, x: S, y: S)
    requires i < |trs|
  {
    var inv := trs[FirstNamed(trs, i)].invert(reach);
    && Pair(y, x) in inv
    && forall z {:trigger Pair(y, z)} :: z in env && z != y && Pair(y, z) in inv ==> MadeBy(trs, i, z, y)
  }

  /** So it is for every step from the envelope, in it or to the goals, and the first transition that makes it. */
  ghost predicate StepExact<S(!new)>(trs: seq<Named<S>>, reach: set<S>, env: set<S>, goals: set<S>) {
    forall i: nat, x, y {:trigger FirstMakes(trs, i, x, y)} ::
      x in env && y in env + goals && x != y && FirstMakes(trs, i, x, y) ==> Invertible(trs, reach, env, i, x, y)
  }

  /** A climb as the forward pass may leave it. */
  ghost predicate Climbed<S(!new)>(trs: seq<Named<S>>, env: set<S>, goal: set<S>, idx: seq<nat>, was: seq<set<S>>) {
    AllEntered(trs, idx, was) && AllFirst(trs, idx, was) && Apart(was) && InEnvelope(env, goal, was)
  }

  /** A step of the climb, in terms of its states. */
  lemma ClimbedStep<S(!new)>(trs: seq<Named<S>>, env: set<S>, goal: set<S>, idx: seq<nat>, was: seq<set<S>>, j: nat, x: S, y: S)
    requires Climbed(trs, env, goal, idx, was) && j < |idx| && x in was[j] && y in was[j + 1] && Pair(x, y) in trs[idx[j]].rel
    ensures x != y && x in env && y in env + goal && FirstMakes(trs, idx[j], x, y)
  {
    assert NoneBefore(trs, idx, was, j);
    FirstOfSets(trs, idx[j], was[j], was[j + 1], x, y);
    assert was[j] * was[j + 1] == {};
    assert x !in was[j] * was[j + 1];
  }

  /** A state of the climb that makes a step into the next set makes it by no earlier transition. */
  lemma ClimbedMade<S(!new)>(trs: seq<Named<S>>, idx: seq<nat>, was: seq<set<S>>, j: nat, z: S, y: S)
    requires AllFirst(trs, idx, was) && j < |idx| && z in was[j] && y in was[j + 1] && MadeBy(trs, idx[j], z, y)
    ensures Pair(z, y) in trs[idx[j]].rel
  {
    var k: nat :| k <= idx[j] && k < |trs| && Pair(z, y) in trs[k].rel;
    assert NoneBefore(trs, idx, was, j);
    if k < idx[j] { StepHits(trs[k].rel, was[j], was[j + 1], z, y); }
  }

  lemma EnteredBy<S(!new)>(trs: seq<Named<S>>, idx: seq<nat>, was: seq<set<S>>, j: nat, y: S) returns (x: S)
    requires AllEntered(trs, idx, was) && j < |idx| && y in was[j + 1]
    ensures x in was[j] && Pair(x, y) in trs[idx[j]].rel
  {
    assert Entered(trs, idx, was, j);
    var e := PostHas(trs[idx[j]].rel, was[j], y);
    match e.lab case () =>
    assert e == Pair(e.src, y);
    x := e.src;
  }

  lemma BackBy<S(!new)>(trs: seq<Named<S>>, idx: seq<nat>, reach: set<S>, was: seq<set<S>>, states: seq<set<S>>, j: nat)
    requires AllBack(trs, idx, reach, was, states) && j < |idx|
    ensures states[j] == was[j] * Post(trs[FirstNamed(trs, idx[j])].invert(reach), states[j + 1]) && states[j + 1] <= was[j + 1]
  {
    hide Post;
    assert SteppedBack(trs, idx, reach, was, states, j);
    BackSmaller(trs, idx, reach, was, states, j + 1);
  }

  lemma BackKeeps<S(!new)>(trs: seq<Named<S>>, idx: seq<nat>, reach: set<S>, was: seq<set<S>>, states: seq<set<S>>, j: nat,
                           env: set<S>, goal: set<S>, goals: set<S>)
    requires Climbed(trs, env, goal, idx, was) && AllBack(trs, idx, reach, was, states) && j < |idx|
    requires StepExact(trs, reach, env, goals) && goal <= env + goals
    ensures Keeps(trs, idx, was, states, j) && Entered(trs, idx, states, j)
  {
    hide Climbed, Post, FirstNamed, FirstMakes;
    BackBy(trs, idx, reach, was, states, j);
    var inv := trs[FirstNamed(trs, idx[j])].invert(reach);
    forall x, y | x in was[j] && y in states[j + 1] && Pair(x, y) in trs[idx[j]].rel ensures x in states[j] {
      ClimbedStep(trs, env, goal, idx, was, j, x, y);
      assert Invertible(trs, reach, env, idx[j], x, y);
      StepInto(inv, states[j + 1], y, x);
    }
    forall y | y in states[j + 1] ensures y in Post(trs[idx[j]].rel, states[j]) {
      assert AllEntered(trs, idx, was) by { ClimbedEnters(trs, env, goal, idx, was); }
      var x := EnteredBy(trs, idx, was, j, y);
      StepInto(trs[idx[j]].rel, states[j], x, y);
    }
  }

  lemma ClimbedEnters<S(!new)>(trs: seq<Named<S>>, env: set<S>, goal: set<S>, idx: seq<nat>, was: seq<set<S>>)
    requires Climbed(trs, env, goal, idx, was)
    ensures AllEntered(trs, idx, was) && AllFirst(trs, idx, was)
  {
  }

  lemma StepInto<S(!new)>(g: Rel<S>, xs: set<S>, x: S, y: S)
    requires x in xs && Pair(x, y) in g
    ensures y in Post(g, xs)
  {
    var e := Pair(x, y);
    assert e.src in xs;
  }

  lemma BackLeaves<S(!new)>(trs: seq<Named<S>>, idx: seq<nat>, reach: set<S>, was: seq<set<S>>, states: seq<set<S>>, j: nat,
                            env: set<S>, goal: set<S>, goals: set<S>)
    requires Climbed(trs, env, goal, idx, was) && AllBack(trs, idx, reach, was, states) && j < |idx|
    requires StepExact(trs, reach, env, goals) && goal <= env + goals
    ensures Leaves(trs, idx, states, j)
  {
    hide Climbed, Post, FirstNamed, FirstMakes;
    BackBy(trs, idx, reach, was, states, j);
    ClimbedEnters(trs, env, goal, idx, was);
    var inv := trs[FirstNamed(trs, idx[j])].invert(reach);
    forall z | z in states[j] ensures z in Pre(trs[idx[j]].rel, states[j + 1]) {
      var e := PostHas(inv, states[j + 1], z);
      match e.lab case () =>
      var y := e.src;
      assert Pair(y, z) in inv;
      var x := EnteredBy(trs, idx, was, j, y);
      ClimbedStep(trs, env, goal, idx, was, j, x, y);
      assert Invertible(trs, reach, env, idx[j], x, y);
      ClimbedApart(trs, env, goal, idx, was, j, z, y);
      assert MadeBy(trs, idx[j], z, y);
      ClimbedMade(trs, idx, was, j, z, y);
      var f := Pair(z, y);
      assert f in trs[idx[j]].rel && f.dst in states[j + 1];
    }
  }

  lemma ClimbedApart<S(!new)>(trs: seq<Named<S>>, env: set<S>, goal: set<S>, idx: seq<nat>, was: seq<set<S>>, j: nat, z: S, y: S)
    requires Climbed(trs, env, goal, idx, was) && j < |idx| && z in was[j] && y in was[j + 1]
    ensures z in env && z != y
  {
    assert was[j] * was[j + 1] == {};
    assert z !in was[j] * was[j + 1];
  }

  lemma StepExactSuffices<S(!new)>(trs: seq<Named<S>>, reach: set<S>, env: set<S>, goals: set<S>, goal: set<S>, idx: seq<nat>,
                                   was: seq<set<S>>, states: seq<set<S>>)
    requires StepExact(trs, reach, env, goals) && goal <= env + goals
    requires Climbed(trs, env, goal, idx, was) && AllBack(trs, idx, reach, was, states)
    ensures Exact(trs, idx, was, states)
  {
    hide StepExact, Leaves, Entered, Keeps, SteppedBack, Climbed;
    forall j: nat | j < |idx|
      ensures Leaves(trs, idx, states, j) && Entered(trs, idx, states, j) && Keeps(trs, idx, was, states, j)
    {
      BackKeeps(trs, idx, reach, was, states, j, env, goal, goals);
      BackLeaves(trs, idx, reach, was, states, j, env, goal, goals);
    }
  }

  // ---------------------------------------------------------------- only these inverses

  /** A climb of one step, and what the backward pass makes of it. */
  ghost function OneBack<S(!new)>(trs: seq<Named<S>>, reach: set<S>, i: nat, xs: set<S>, y: S): (states: seq<set<S>>)
    requires i < |trs|
  {
    [xs * Post(trs[FirstNamed(trs, i)].invert(reach), {y}), {y}]
  }

  lemma NoneInto<S(!new)>(g: Rel<S>, xs: set<S>, y: S)
    requires forall z {:trigger Pair(z, y)} :: z in xs ==> Pair(z, y) !in g
    ensures Post(g, xs) * {y} == {}
  {
    forall t | t in Post(g, xs) ensures t != y {
      var e := PostHas(g, xs, t);
      match e.lab case () =>
      assert e == Pair(e.src, t);
    }
  }

  lemma OneInto<S(!new)>(g: Rel<S>, z: S, y: S)
    requires z in Pre(g, {y})
    ensures Pair(z, y) in g
  {
    var e :| e in g && e.dst in {y} && e.src == z;
    match e.lab case () =>
    assert e == Pair(z, y);
  }

  lemma OneClimb<S(!new)>(trs: seq<Named<S>>, reach: set<S>, env: set<S>, i: nat, x: S, y: S, xs: set<S>)
    requires FirstMakes(trs, i, x, y) && x in xs && xs <= env && y !in xs
    requires forall z, k: nat {:trigger Pair(z, y) in trs[k].rel} :: z in xs && k < i ==> Pair(z, y) !in trs[k].rel
    ensures Climbed(trs, env, {y}, [i], [xs, {y}])
    ensures AllBack(trs, [i], reach, [xs, {y}], OneBack(trs, reach, i, xs, y))
  {
    var idx, was, states := [i], [xs, {y}], OneBack(trs, reach, i, xs, y);
    StepInto(trs[i].rel, xs, x, y);
    assert Entered(trs, idx, was, 0);
    forall k: nat | k < i ensures Post(trs[k].rel, xs) * {y} == {} {
      NoneInto(trs[k].rel, xs, y);
    }
    assert NoneBefore(trs, idx, was, 0);
    assert xs * {y} == {};
    assert SteppedBack(trs, idx, reach, was, states, 0);
  }

  /** One-step climbs that are exact make the step invertible. */
  lemma ExactIsInvertible<S(!new)>(trs: seq<Named<S>>, reach: set<S>, env: set<S>, i: nat, x: S, y: S, z: S)
    requires FirstMakes(trs, i, x, y) && x in env && x != y
    requires Exact(trs, [i], [{x}, {y}], OneBack(trs, reach, i, {x}, y))
    requires z in env && z != y && !MadeBy(trs, i, z, y) ==> Exact(trs, [i], [{x, z}, {y}], OneBack(trs, reach, i, {x, z}, y))
    ensures var inv := trs[FirstNamed(trs, i)].invert(reach);
      Pair(y, x) in inv && (z in env && z != y && Pair(y, z) in inv ==> MadeBy(trs, i, z, y))
  {
    var inv, one := trs[FirstNamed(trs, i)].invert(reach), OneBack(trs, reach, i, {x}, y);
    assert Entered(trs, [i], one, 0);
    var e := PostHas(trs[i].rel, one[0], y);
    assert x in one[0];
    var f := PostHas(inv, {y}, x);
    match f.lab case () =>
    assert f == Pair(y, x);
    if z in env && z != y && Pair(y, z) in inv && !MadeBy(trs, i, z, y) {
      var both := OneBack(trs, reach, i, {x, z}, y);
      StepInto(inv, {y}, y, z);
      assert z in both[0] && Leaves(trs, [i], both, 0);
      OneInto(trs[i].rel, z, y);
    }
  }

  /** The exact condition: the backward pass leaves exact sets after every climb exactly with such inverses. */
  lemma StepExactIff<S(!new)>(trs: seq<Named<S>>, reach: set<S>, env: set<S>, goals: set<S>)
    ensures StepExact(trs, reach, env, goals) <==>
      forall goal, idx, was, states :: goal <= env + goals && Climbed(trs, env, goal, idx, was) && AllBack(trs, idx, reach, was, states) ==>
        Exact(trs, idx, was, states)
  {
    hide Exact, AllBack, Climbed, FirstNamed, OneBack, Invertible;
    if StepExact(trs, reach, env, goals) {
      forall goal, idx, was, states | goal <= env + goals && Climbed(trs, env, goal, idx, was) && AllBack(trs, idx, reach, was, states)
        ensures Exact(trs, idx, was, states)
      {
        StepExactSuffices(trs, reach, env, goals, goal, idx, was, states);
      }
    } else {
      var i: nat, x, y :| x in env && y in env + goals && x != y && FirstMakes(trs, i, x, y) && !Invertible(trs, reach, env, i, x, y);
      NotInvertible(trs, reach, env, i, x, y);
    }
  }

  /** A step that is not invertible spoils a climb of one step. */
  lemma NotInvertible<S(!new)>(trs: seq<Named<S>>, reach: set<S>, env: set<S>, i: nat, x: S, y: S)
    requires x in env && x != y && FirstMakes(trs, i, x, y) && !Invertible(trs, reach, env, i, x, y)
    ensures exists was, states :: Climbed(trs, env, {y}, [i], was) && AllBack(trs, [i], reach, was, states) && !Exact(trs, [i], was, states)
  {
    hide Exact, AllBack, Climbed, OneBack;
    var inv := trs[FirstNamed(trs, i)].invert(reach);
    OneClimb(trs, reach, env, i, x, y, {x});
    if Exact(trs, [i], [{x}, {y}], OneBack(trs, reach, i, {x}, y)) {
      if Pair(y, x) in inv {
        var z :| z in env && z != y && Pair(y, z) in inv && !MadeBy(trs, i, z, y);
        OneClimb(trs, reach, env, i, x, y, {x, z});
        if Exact(trs, [i], [{x, z}, {y}], OneBack(trs, reach, i, {x, z}, y)) {
          ExactIsInvertible(trs, reach, env, i, x, y, z);
        }
      } else {
        ExactIsInvertible(trs, reach, env, i, x, y, y);
      }
    }
  }

  /** The first transition making a step from the envelope, in it or to the goal, is the first of its name. */
  ghost predicate StepNames<S(!new)>(trs: seq<Named<S>>, env: set<S>, goal: set<S>) {
    forall i: nat, x, y {:trigger FirstMakes(trs, i, x, y)} ::
      x in env && y in env + goal && x != y && FirstMakes(trs, i, x, y) ==> NameFirst(trs, i)
  }

  /** With trusted inverses only the names matter. */
  lemma TrustedNeedsNames<S(!new)>(trs: seq<Named<S>>, reach: set<S>, env: set<S>, goals: set<S>)
    requires Trusted(trs, reach, env, goals)
    ensures StepExact(trs, reach, env, goals) <==> StepNames(trs, env, goals)
  {
    forall i: nat, x, y | x in env && y in env + goals && x != y && FirstMakes(trs, i, x, y)
      ensures Invertible(trs, reach, env, i, x, y) <==> NameFirst(trs, i)
    {
      TrustedStep(trs, reach, env, goals, i, x, y);
    }
  }

  lemma TrustedStep<S(!new)>(trs: seq<Named<S>>, reach: set<S>, env: set<S>, goals: set<S>, i: nat, x: S, y: S)
    requires Trusted(trs, reach, env, goals) && x in env && y in env + goals && FirstMakes(trs, i, x, y)
    ensures Invertible(trs, reach, env, i, x, y) <==> NameFirst(trs, i)
  {
    var k := FirstNamed(trs, i);
    assert trs[k] in trs;
    assert Pair(y, x) in trs[k].invert(reach) <==> Pair(x, y) in trs[k].rel;
    if NameFirst(trs, i) {
      assert k == i;
      forall z | z in env && z != y && Pair(y, z) in trs[i].invert(reach) ensures MadeBy(trs, i, z, y) {
        assert Pair(z, y) in trs[i].rel;
      }
    }
  }
}
