/** Shortest cycles (its/ITSModel.cpp, `findCycle`): a path to a predecessor, closed by one more step. */
module WitnessCycle {
  import opened Graphs
  import opened Its
  import opened Witness
  import opened WitnessBack
  import opened WitnessPath

  // ---------------------------------------------------------------- cycles

  /** A cycle of `n` steps through `c`. */
  ghost predicate CycleIn<S(!new)>(g: Rel<S>, c: S, n: nat) {
    n > 0 && CanReach(g, {c}, {c}, n)
  }

  ghost predicate HasCycle<S(!new)>(g: Rel<S>, c: S) {
    exists n: nat :: CycleIn(g, c, n)
  }

  /** A cycle is a path to a predecessor, closed by one step. */
  lemma CycleIffPred<S(!new)>(g: Rel<S>, c: S, n: nat)
    ensures CycleIn(g, c, n + 1) <==> CanReach(g, {c}, Pre(g, {c}), n)
  {
    var pred := Pre(g, {c});
    if CycleIn(g, c, n + 1) {
      var x, es: seq<Edge<S, ()>>, y :| x in {c} && y in {c} && Walk(g, x, es, y) && |es| == n + 1;
      var m := WalkSplit(g, c, es, c, n);
      WalkEnd(g, c, es, c);
      assert es[n] in g && es[n].dst == c;
      assert m in pred;
      assert |es[..n]| == n;
    }
    if CanReach(g, {c}, pred, n) {
      var x, es, y :| x in {c} && y in pred && Walk(g, x, es, y) && |es| == n;
      var e :| e in g && e.dst in {c} && e.src == y;
      WalkOne(g, e);
      WalkConcat(g, c, es, y, [e], c);
      assert |es + [e]| == n + 1;
    }
  }

  /** The predecessors of `c` inside the set, as the relation for the reachable states `all` gives them. */
  ghost function Preds<S(!new)>(trs: seq<Named<S>>, scc: set<S>, all: set<S>, c: S): set<S> {
    Pre(Inside(trs, scc), {c}) * all
  }

  /** `all` holds `c` and is closed: nothing outside it matters for the cycles through `c`. */
  ghost predicate Around<S(!new)>(trs: seq<Named<S>>, all: set<S>, c: S) {
    c in all && Closed(NextRel(trs), all)
  }

  lemma CycleIffPreds<S(!new)>(trs: seq<Named<S>>, scc: set<S>, all: set<S>, c: S, n: nat)
    requires Around(trs, all, c)
    ensures CycleIn(Inside(trs, scc), c, n + 1) <==> CanReach(Inside(trs, scc), {c}, Preds(trs, scc, all, c), n)
  {
    var g := Inside(trs, scc);
    CycleIffPred(g, c, n);
    if CanReach(g, {c}, Pre(g, {c}), n) {
      var x, es, y :| x in {c} && y in Pre(g, {c}) && Walk(g, x, es, y) && |es| == n;
      assert Closed(g, all) by { InsideFrom(trs, scc); }
      WalkStays(g, c, es, y, all);
      assert y in Preds(trs, scc, all, c);
    }
  }

  lemma CycleIffReachable<S(!new)>(trs: seq<Named<S>>, scc: set<S>, all: set<S>, c: S)
    requires Around(trs, all, c)
    ensures HasCycle(Inside(trs, scc), c) <==> Reachable(Inside(trs, scc), {c}, Preds(trs, scc, all, c))
  {
    hide CanReach, Inside, Preds, Around;
    var g := Inside(trs, scc);
    if HasCycle(g, c) {
      var n: nat :| CycleIn(g, c, n);
      CycleIffPreds(trs, scc, all, c, n - 1);
    }
    if Reachable(g, {c}, Preds(trs, scc, all, c)) {
      var n: nat :| CanReach(g, {c}, Preds(trs, scc, all, c), n);
      CycleIffPreds(trs, scc, all, c, n);
    }
  }

  lemma FiresOneMore<S(!new)>(trs: seq<Named<S>>, idx: seq<nat>, i: nat, x: S, y: S, z: S)
    requires InRange(trs, idx) && i < |trs| && Fires(trs, idx, x, y) && Pair(y, z) in trs[i].rel
    ensures InRange(trs, idx + [i]) && Fires(trs, idx + [i], x, z)
  {
    if idx == [] {
      assert [i][1..] == [];
      assert Fires(trs, [i][1..], z, z);
      assert idx + [i] == [i];
    } else {
      var w :| Pair(x, w) in trs[idx[0]].rel && Fires(trs, idx[1..], w, y);
      FiresOneMore(trs, idx[1..], i, w, y, z);
      assert (idx + [i])[1..] == idx[1..] + [i];
    }
  }

  /** A sequence of transitions leading from `c` back to `c`, no longer than any cycle inside the set. */
  ghost predicate ShortestCycle<S(!new)>(trs: seq<Named<S>>, scc: set<S>, c: S, idx: seq<nat>) {
    && InRange(trs, idx) && idx != [] && Fires(trs, idx, c, c)
    && CycleIn(Inside(trs, scc), c, |idx|)
    && forall n: nat :: n < |idx| ==> !CycleIn(Inside(trs, scc), c, n)
  }

  /** The closing step: some transition leads from `from` to `c`. */
  lemma SomeCloses<S(!new)>(trs: seq<Named<S>>, scc: set<S>, from: set<S>, c: S)
    requires from != {} && from <= Pre(Inside(trs, scc), {c})
    ensures exists i: nat :: i < |trs| && Post(trs[i].rel, from) * {c} != {}
  {
    var y :| y in from;
    var e :| e in Inside(trs, scc) && e.dst in {c} && e.src == y;
    NextRelHas(trs, e);
    var t :| t in trs && e in t.rel;
    var i: nat :| i < |trs| && trs[i] == t;
    assert c in Post(trs[i].rel, from) * {c};
  }

  lemma ClosesCycle<S(!new)>(trs: seq<Named<S>>, scc: set<S>, all: set<S>, c: S, path: seq<nat>, ys: set<S>, i: nat)
    requires Around(trs, all, c) && i < |trs|
    requires Shortest(trs, Inside(trs, scc), {c}, Preds(trs, scc, all, c), path)
    requires forall y :: y in ys ==> Fires(trs, path, c, y)
    requires Post(trs[i].rel, ys) * {c} != {}
    ensures ShortestCycle(trs, scc, c, path + [i])
  {
    hide Fires, CanReach, Inside, Preds, Around;
    var g := Inside(trs, scc);
    var z :| z in Post(trs[i].rel, ys) * {c};
    var e := PostHas(trs[i].rel, ys, c);
    match e.lab case () =>
    assert e == Pair(e.src, c) && e.src in ys;
    FiresOneMore(trs, path, i, c, e.src, c);
    CycleIffPreds(trs, scc, all, c, |path|);
    forall n: nat | n < |path| + 1 ensures !CycleIn(g, c, n) {
      if n > 0 { CycleIffPreds(trs, scc, all, c, n - 1); }
    }
  }

  // ---------------------------------------------------------------- the answer

  /** The sets of the path, before the loop is closed. */
  ghost function CycleSets<S(!new)>(trs: seq<Named<S>>, scc: set<S>, all: set<S>, c: S, path: seq<nat>, trace: bool): (r: seq<set<S>>)
    ensures r != []
  {
    var preds := Preds(trs, scc, all, c);
    if c in preds then [{c}, {c}]
    else if HasCycle(Inside(trs, scc), c) then Shown(trs, scc, {c}, preds, path, false, trace)
    else [{c}, preds]
  }

  /** Transition `i` is the first that leads from the set to `c`. */
  ghost predicate FirstBack<S(!new)>(trs: seq<Named<S>>, from: set<S>, c: S, i: nat) {
    i < |trs| && c in Post(trs[i].rel, from) && forall k: nat :: k < i ==> c !in Post(trs[k].rel, from)
  }

  /** What `findCycle` answers when it closes the loop: a shortest cycle if there is any. Otherwise some transition
      leads into `c`, and the answer has the shape of a cycle of one step. On a cycle the set before the last holds
      exactly the states that the path leads to from `c` and that a step leads back to `c`; the first transition that
      leads from one of them to `c` closes the loop. */
  ghost predicate CycleAnswer<S(!new)>(trs: seq<Named<S>>, scc: set<S>, all: set<S>, c: S, p: Path<S>, path: seq<nat>, i: nat, trace: bool) {
    var idx, from := path + [i], CycleSets(trs, scc, all, c, path, trace)[|CycleSets(trs, scc, all, c, path, trace)| - 1];
    && InRange(trs, idx) && p.names == Names(trs, idx) && FirstBack(trs, from, c, i)
    && p.states == CycleSets(trs, scc, all, c, path, trace) + [{c}] && p.states[0] == {c}
    && (HasCycle(Inside(trs, scc), c) <==> ShortestCycle(trs, scc, c, idx))
    && (HasCycle(Inside(trs, scc), c) ==> from == Finals(trs, scc, {c}, Preds(trs, scc, all, c), path))
    && (!HasCycle(Inside(trs, scc), c) ==> path == [] && p.states == [{c}, Preds(trs, scc, all, c), {c}])
  }

  lemma CycleFound<S(!new)>(trs: seq<Named<S>>, scc: set<S>, c: S, idx: seq<nat>)
    requires ShortestCycle(trs, scc, c, idx)
    ensures HasCycle(Inside(trs, scc), c) && InRange(trs, idx) && idx != []
  {
  }

  /** The part of the answer that `findPath` finds: the first of the shortest paths from `c` to a predecessor. There is
      none when `c` is its own predecessor or lies on no cycle. */
  ghost predicate PathTaken<S(!new)>(trs: seq<Named<S>>, scc: set<S>, all: set<S>, c: S, path: seq<nat>) {
    var preds := Preds(trs, scc, all, c);
    if c !in preds && HasCycle(Inside(trs, scc), c) then LeastPath(trs, scc, {c}, preds, path) else path == []
  }

  /** It is determined by the question. */
  lemma PathTakenIsOne<S(!new)>(trs: seq<Named<S>>, scc: set<S>, all: set<S>, c: S, a: seq<nat>, b: seq<nat>)
    requires PathTaken(trs, scc, all, c, a) && PathTaken(trs, scc, all, c, b)
    ensures a == b
  {
    hide LeastPath, HasCycle, Preds;
    var preds := Preds(trs, scc, all, c);
    if c !in preds && HasCycle(Inside(trs, scc), c) { LeastIsOne(trs, scc, {c}, preds, a, b); }
  }

  /** A name of the path found another transition: the answer ends in an empty set without a name. */
  ghost predicate CycleLost<S(!new)>(trs: seq<Named<S>>, scc: set<S>, all: set<S>, c: S, p: Path<S>, path: seq<nat>, trace: bool) {
    InRange(trs, path) && p == Path(Names(trs, path) + [""], CycleSets(trs, scc, all, c, path, trace) + [{}])
  }

  /** What `findPath` returns for the question `findCycle` asks. */
  ghost predicate CyclePath<S(!new)>(trs: seq<Named<S>>, scc: set<S>, all: set<S>, c: S, r: Answer<S>, path: seq<nat>, trace: bool) {
    var g, preds := Inside(trs, scc), Preds(trs, scc, all, c);
    if c in preds then r == Found(Path([], [{c}, {c}])) && path == []
    else if Reachable(g, {c}, preds) then
      && Answers(trs, g, {c}, preds, r, path) && AnswersLeast(trs, scc, {c}, preds, r, path)
      && r.path.states == Shown(trs, scc, {c}, preds, path, false, trace)
    else r == NoPath({c}, preds) && path == []
  }

  lemma NoNames<S(!new)>(trs: seq<Named<S>>)
    ensures NamesFirst(trs, [])
  {
  }

  lemma NothingLeads<S(!new)>(g: Rel<S>, c: S)
    ensures !Reachable(g, {c}, {})
  {
  }

  lemma OneOf<S(!new)>(xs: set<S>, c: S)
    requires xs != {} && xs <= {c}
    ensures xs == {c}
  {
    var x :| x in xs;
  }

  /** The only start leads to the goal. */
  lemma OneStarter<S(!new)>(trs: seq<Named<S>>, env: set<S>, c: S, goal: set<S>, idx: seq<nat>)
    requires LeastPath(trs, env, {c}, goal, idx)
    ensures Midway(trs, env, {c}, goal, idx, 0) == {c}
    ensures forall y :: y in Finals(trs, env, {c}, goal, idx) ==> InRange(trs, idx) && Fires(trs, idx, c, y)
  {
    hide Shortest, FirstFires, FiresIn;
    LeastLeads(trs, env, {c}, goal, idx);
    var x, y :| x in {c} && y in goal && FiresIn(trs, env, idx, x, y);
    assert idx[0..] == idx && idx[..0] == [];
    NoSteps(trs, env, c);
    MidwayHas(trs, env, {c}, goal, idx, 0, c, c, y);
    forall z | z in Midway(trs, env, {c}, goal, idx, 0) ensures z == c { OnlyStart(trs, env, c, z); }
    forall z | z in Finals(trs, env, {c}, goal, idx) ensures Fires(trs, idx, c, z) {
      FiresInFires(trs, env, idx, c, z);
    }
  }

  lemma NoSteps<S(!new)>(trs: seq<Named<S>>, env: set<S>, c: S)
    ensures InRange(trs, []) && FiresIn(trs, env, [], c, c)
  {
  }

  lemma OnlyStart<S(!new)>(trs: seq<Named<S>>, env: set<S>, c: S, z: S)
    requires LeadsTo(trs, env, {c}, [], z)
    ensures z == c
  {
  }

  lemma ShownEnds<S(!new)>(trs: seq<Named<S>>, env: set<S>, init: set<S>, goal: set<S>, idx: seq<nat>, sure: bool, trace: bool)
    ensures var states := Shown(trs, env, init, goal, idx, sure, trace);
      && |states| > 0 && states[0] == SetAt(trs, env, init, goal, idx, sure, 0)
      && states[|states| - 1] == SetAt(trs, env, init, goal, idx, sure, |idx|)
  {
    hide SetAt;
  }

  lemma CyclePathFacts<S(!new)>(trs: seq<Named<S>>, scc: set<S>, all: set<S>, c: S, r: Answer<S>, path: seq<nat>, trace: bool)
    requires Around(trs, all, c) && CyclePath(trs, scc, all, c, r, path, trace)
    ensures r.Found? && |r.path.states| > 1 && InRange(trs, path) && r.path.names == Names(trs, path)
    ensures PathTaken(trs, scc, all, c, path)
    ensures Preds(trs, scc, all, c) == {} ==> r == NoPath({c}, {})
    ensures r.path.states[|r.path.states| - 1] <= Preds(trs, scc, all, c)
    ensures Preds(trs, scc, all, c) != {} ==> r.path.states[|r.path.states| - 1] != {}
    ensures r.path.states[0] == if NamesFirst(trs, path) then {c} else {}
    ensures r.path.states == CycleSets(trs, scc, all, c, path, trace)
    ensures HasCycle(Inside(trs, scc), c) ==>
      r.path.states[|r.path.states| - 1] == Finals(trs, scc, {c}, Preds(trs, scc, all, c), path)
  {
    hide Inside, Reachable, CanReach, Fires, NamesFirst, LeastPath, Midway, Finals, Preds, HasCycle, Around, Shown;
    var preds := Preds(trs, scc, all, c);
    NoNames(trs);
    NothingLeads(Inside(trs, scc), c);
    CycleIffReachable(trs, scc, all, c);
    if c in preds {
      FinalsOfNone(trs, scc, c, preds);
    } else if Reachable(Inside(trs, scc), {c}, preds) {
      OneStarter(trs, scc, c, preds, path);
      ShownEnds(trs, scc, {c}, preds, path, false, trace);
      assert path[0..] == path;
    }
  }

  lemma FinalsOfNone<S(!new)>(trs: seq<Named<S>>, env: set<S>, c: S, goal: set<S>)
    requires c in goal
    ensures Finals(trs, env, {c}, goal, []) == {c}
  {
    NoSteps(trs, env, c);
  }

  lemma StartIsGoal<S(!new)>(trs: seq<Named<S>>, scc: set<S>, all: set<S>, c: S)
    requires c in Preds(trs, scc, all, c)
    ensures Shortest(trs, Inside(trs, scc), {c}, Preds(trs, scc, all, c), []) && Fires(trs, [], c, c)
    ensures Reachable(Inside(trs, scc), {c}, Preds(trs, scc, all, c))
  {
    assert c in {c} && Walk(Inside(trs, scc), c, [], c);
    assert CanReach(Inside(trs, scc), {c}, Preds(trs, scc, all, c), 0);
    assert Fires(trs, [], c, c);
  }

  /** Closing the loop turns the path into an answer. */
  lemma CloseLoop<S(!new)>(trs: seq<Named<S>>, scc: set<S>, all: set<S>, c: S, r: Answer<S>, path: seq<nat>, i: nat, trace: bool)
    requires Around(trs, all, c) && CyclePath(trs, scc, all, c, r, path, trace) && r.Found? && i < |trs| && r.path.states != []
    requires Post(trs[i].rel, r.path.states[|r.path.states| - 1]) * {c} != {}
    ensures HasCycle(Inside(trs, scc), c) ==> ShortestCycle(trs, scc, c, path + [i])
    ensures !HasCycle(Inside(trs, scc), c) ==> path == [] && r == NoPath({c}, Preds(trs, scc, all, c))
  {
    hide Fires, CanReach, Post, ShortestCycle, HasCycle, Inside, Shortest, LeastPath, Preds, Around, Finals, Shown;
    var g, preds := Inside(trs, scc), Preds(trs, scc, all, c);
    CycleIffReachable(trs, scc, all, c);
    if c in preds {
      StartIsGoal(trs, scc, all, c);
      ClosesCycle(trs, scc, all, c, [], {c}, i);
    } else if Reachable(g, {c}, preds) {
      OneStarter(trs, scc, c, preds, path);
      ClosesCycle(trs, scc, all, c, path, r.path.states[|r.path.states| - 1], i);
    }
  }

  /** The loop stays open only without predecessors, or when a name was looked up wrong. */
  lemma StaysOpen<S(!new)>(trs: seq<Named<S>>, scc: set<S>, all: set<S>, c: S, r: Answer<S>, path: seq<nat>, trace: bool)
    requires Around(trs, all, c) && CyclePath(trs, scc, all, c, r, path, trace) && r.Found? && r.path.states != []
    requires forall k: nat :: k < |trs| ==> Post(trs[k].rel, r.path.states[|r.path.states| - 1]) * r.path.states[0] == {}
    ensures Preds(trs, scc, all, c) != {} ==> !NamesFirst(trs, path)
  {
    hide CyclePath, Inside, NamesFirst, Post, Around;
    CyclePathFacts(trs, scc, all, c, r, path, trace);
    if Preds(trs, scc, all, c) != {} && NamesFirst(trs, path) {
      SomeCloses(trs, scc, r.path.states[|r.path.states| - 1], c);
    }
  }

  lemma IsCycleAnswer<S(!new)>(trs: seq<Named<S>>, scc: set<S>, all: set<S>, c: S, p: Path<S>, path: seq<nat>, i: nat, trace: bool)
    requires InRange(trs, path + [i]) && p.names == Names(trs, path + [i])
    requires var sets := CycleSets(trs, scc, all, c, path, trace);
      && p.states == sets + [{c}] && sets[0] == {c} && FirstBack(trs, sets[|sets| - 1], c, i)
      && (HasCycle(Inside(trs, scc), c) ==>
            ShortestCycle(trs, scc, c, path + [i]) && sets[|sets| - 1] == Finals(trs, scc, {c}, Preds(trs, scc, all, c), path))
      && (!HasCycle(Inside(trs, scc), c) ==> path == [] && sets == [{c}, Preds(trs, scc, all, c)])
    ensures CycleAnswer(trs, scc, all, c, p, path, i, trace)
  {
    hide HasCycle, ShortestCycle, Inside, Preds, CycleSets, FirstBack, Finals;
    if ShortestCycle(trs, scc, c, path + [i]) { CycleFound(trs, scc, c, path + [i]); }
  }

  /** The answer is determined by the question. */
  lemma CycleAnswerIsOne<S(!new)>(trs: seq<Named<S>>, scc: set<S>, all: set<S>, c: S, p: Path<S>, q: Path<S>, a: seq<nat>, b: seq<nat>,
                                  i: nat, k: nat, trace: bool)
    requires PathTaken(trs, scc, all, c, a) && PathTaken(trs, scc, all, c, b)
    requires CycleAnswer(trs, scc, all, c, p, a, i, trace) && CycleAnswer(trs, scc, all, c, q, b, k, trace)
    ensures p == q
  {
    hide PathTaken, CycleSets, HasCycle, ShortestCycle, Finals, Preds, Post;
    PathTakenIsOne(trs, scc, all, c, a, b);
    assert i == k;
  }

  /** With all sets shown, each state of the path is entered from the set before and leaves into the set after, by the
      transition named. From the set before the last every state has a step to `c`, but all have the one named exactly
      when it makes them all. */
  lemma CycleSteps<S(!new)>(trs: seq<Named<S>>, scc: set<S>, all: set<S>, c: S, p: Path<S>, path: seq<nat>, i: nat)
    requires HasCycle(Inside(trs, scc), c) && c !in Preds(trs, scc, all, c) && NamesFirst(trs, path)
    requires CycleAnswer(trs, scc, all, c, p, path, i, true)
    ensures AllEntered(trs, path + [i], p.states)
    ensures forall j: nat :: j < |path| ==> Leaves(trs, path + [i], p.states, j)
    ensures p.states[|path|] <= Pre(NextRel(trs), {c})
    ensures AllLeave(trs, path + [i], p.states) <==> Finals(trs, scc, {c}, Preds(trs, scc, all, c), path) <= Pre(trs[i].rel, {c})
  {
    hide HasCycle, ShortestCycle, Preds, NamesFirst, Shown, Inside, Finals, AllEntered, AllLeave, Entered, Leaves, Pre, Post;
    var goal := Preds(trs, scc, all, c);
    var sets := Shown(trs, scc, {c}, goal, path, false, true);
    ShownNamed(trs, scc, {c}, goal, path, true);
    PartInRange(trs, path, i);
    ShownSteps(trs, scc, {c}, goal, path);
    assert p.states == sets + [{c}];
    OneMoreStep(trs, path, sets, c, i);
    FinalsLead(trs, scc, all, c, path);
  }

  /** A step to `c` after the last set. */
  lemma OneMoreStep<S(!new)>(trs: seq<Named<S>>, path: seq<nat>, sets: seq<set<S>>, c: S, i: nat)
    requires AllEntered(trs, path, sets) && AllLeave(trs, path, sets) && InRange(trs, path + [i])
    requires i < |trs| && c in Post(trs[i].rel, sets[|path|])
    ensures |sets| == |path| + 1
    ensures var idx, states := path + [i], sets + [{c}];
      && AllEntered(trs, idx, states) && (forall j: nat :: j < |path| ==> Leaves(trs, idx, states, j))
      && (AllLeave(trs, idx, states) <==> sets[|path|] <= Pre(trs[i].rel, {c}))
  {
    hide Post, Pre;
    var idx, states := path + [i], sets + [{c}];
    forall j: nat | j < |path| ensures Entered(trs, idx, states, j) && Leaves(trs, idx, states, j) {
      assert Entered(trs, path, sets, j) && Leaves(trs, path, sets, j);
    }
    assert Entered(trs, idx, states, |path|);
    assert Leaves(trs, idx, states, |path|) <==> sets[|path|] <= Pre(trs[i].rel, {c});
  }

  lemma PartInRange<S>(trs: seq<Named<S>>, path: seq<nat>, i: nat)
    requires InRange(trs, path + [i])
    ensures InRange(trs, path)
  {
    assert forall j :: 0 <= j < |path| ==> (path + [i])[j] == path[j];
  }

  lemma FinalsLead<S(!new)>(trs: seq<Named<S>>, scc: set<S>, all: set<S>, c: S, path: seq<nat>)
    ensures Finals(trs, scc, {c}, Preds(trs, scc, all, c), path) <= Pre(NextRel(trs), {c})
  {
    hide NextRel;
    forall y | y in Preds(trs, scc, all, c) ensures y in Pre(NextRel(trs), {c}) {
      var e :| e in Inside(trs, scc) && e.dst in {c} && e.src == y;
      InsideSources(trs, scc, e);
    }
  }

  // ---------------------------------------------------------------- findCycle

  /** The first transition, in order, leading from `final` back into `start`. */
  method ClosingStep<S(==, !new)>(trs: seq<Named<S>>, final: set<S>, start: set<S>) returns (i: nat, target: set<S>)
    ensures target != {} ==> i < |trs| && target == Post(trs[i].rel, final) * start
    ensures target != {} ==> forall k: nat :: k < i ==> Post(trs[k].rel, final) * start == {}
    ensures target == {} ==> forall k: nat :: k < |trs| ==> Post(trs[k].rel, final) * start == {}
  {
    i, target := 0, {};
    while i < |trs|
      invariant i <= |trs| && target == {}
      invariant forall k: nat :: k < i ==> Post(trs[k].rel, final) * start == {}
    {
      target := Post(trs[i].rel, final) * start;
      if target != {} { return; }
      i := i + 1;
    }
  }

  /** The predecessors inside the set, as the relation for all reachable states gives them. */
  lemma PredInside<S(!new)>(trs: seq<Named<S>>, pred: Rel<S>, all: set<S>, scc: set<S>, c: S)
    requires PredOf(pred, NextRel(trs), all) && c in all
    ensures Post(pred, {c}) * scc == Preds(trs, scc, all, c)
  {
    hide NextRel, PredOf;
    PredOfSets(pred, NextRel(trs), all, {c});
    forall x ensures x in Pre(NextRel(trs), {c}) && x in scc <==> x in Pre(Inside(trs, scc), {c}) {
      if x in Pre(NextRel(trs), {c}) && x in scc {
        var e :| e in NextRel(trs) && e.dst in {c} && e.src == x;
        assert e in Inside(trs, scc);
      }
      if x in Pre(Inside(trs, scc), {c}) {
        var e :| e in Inside(trs, scc) && e.dst in {c} && e.src == x;
        InsideSources(trs, scc, e);
      }
    }
  }

  /** A goal inside the envelope keeps the search inside. */
  lemma GoalInside<S(!new)>(trs: seq<Named<S>>, env: set<S>, goal: set<S>)
    requires goal <= env
    ensures StaysInside(trs, env, goal)
  {
    ChosenStays(trs, env);
    forall x | x in Post(ChosenRel(trs, env), goal) - goal ensures x in env {
      var e := PostHas(ChosenRel(trs, env), goal, x);
      assert e.src in env;
    }
  }

  lemma TrustInside<S(!new)>(m: ItsModel<S>, scc: set<S>, goal: set<S>)
    requires m.Valid() && goal <= scc && scc != {}
    ensures m.Envelope(scc) == scc && Trusted(m.trs, scc, scc, goal)
  {
    GoodIsTrusted(m.trs, scc, goal);
  }

  lemma AroundReachable<S(!new)>(m: ItsModel<S>, c: S)
    requires c in m.Reachable()
    ensures Around(m.trs, m.Reachable(), c)
  {
    hide ReachSet;
    ReachSetClosed(NextRel(m.trs), m.init);
  }

  /** `findPath` answers the question of `findCycle`. */
  lemma CycleQuestion<S(!new)>(trs: seq<Named<S>>, scc: set<S>, all: set<S>, c: S, r: Answer<S>, idx: seq<nat>, path: seq<nat>, trace: bool)
    requires var g, preds := Inside(trs, scc), Preds(trs, scc, all, c);
      if {c} * preds != {} then r == Found(Path([], [{c} * preds, {c} * preds]))
      else if preds == {} then r == NoPath({c}, preds)
      else
        && Answers(trs, g, {c}, preds, r, idx)
        && (Reachable(g, {c}, preds) ==>
              AnswersLeast(trs, scc, {c}, preds, r, idx) && r.path.states == Shown(trs, scc, {c}, preds, idx, false, trace))
    requires var preds := Preds(trs, scc, all, c);
      path == if c !in preds && Reachable(Inside(trs, scc), {c}, preds) then idx else []
    ensures CyclePath(trs, scc, all, c, r, path, trace)
  {
    hide CanReach, Fires, Inside, LeastPath, Shortest, Reachable, Preds, Shown;
    var preds := Preds(trs, scc, all, c);
    if c in preds {
      assert c in {c} * preds;
      OneOf({c} * preds, c);
    } else {
      assert {c} * preds == {};
      NothingLeads(Inside(trs, scc), c);
    }
  }

  lemma NamesOfLeast<S(!new)>(trs: seq<Named<S>>, scc: set<S>, all: set<S>, c: S, path: seq<nat>)
    requires StepNames(trs, scc, {}) && PathTaken(trs, scc, all, c, path)
    ensures NamesFirst(trs, path)
  {
    hide LeastPath, HasCycle, NamesFirst, Inside, StepNames;
    NoNames(trs);
    NamesIff(trs, scc, {});
    assert Preds(trs, scc, all, c) <= scc + {} by {
      InsideFrom(trs, scc);
      PreInSources(Inside(trs, scc), {c});
    }
  }

  lemma ImageOfSome<S(!new)>(g: Rel<S>, xs: set<S>, ys: set<S>)
    requires Post(g, xs) * ys != {}
    ensures xs != {} && ys != {}
  {
    var y :| y in Post(g, xs) * ys;
    var e := PostHas(g, xs, y);
  }

  lemma OneName<S(!new)>(trs: seq<Named<S>>, idx: seq<nat>, i: nat)
    requires InRange(trs, idx) && i < |trs|
    ensures InRange(trs, idx + [i]) && Names(trs, idx + [i]) == Names(trs, idx) + [trs[i].name]
  {
  }

  /** The search for a predecessor inside the set. */
  method PathBack<S(==, !new)>(m: ItsModel<S>, c: S, scc: set<S>) returns (r: Answer<S>, pred: set<S>, ghost path: seq<nat>)
    requires m.Valid() && c in m.Reachable()
    modifies m
    ensures m.Valid() && Around(m.trs, m.Reachable(), c) && pred == Preds(m.trs, scc, m.Reachable(), c)
    ensures CyclePath(m.trs, scc, m.Reachable(), c, r, path, m.printStatesInTrace)
  {
    hide PredOf, CanReach, Fires, NextRel, GoodInverse, GoodInverses, Shortest, CyclePath, HasCycle, Reachable, Post, ReachSet, Names, InRange, Answers, AnswersLeast, ChosenRel, Inside, StaysInside, Trusted, LeastPath, Shown, NamesFirst, Converse, Around, Preds, StepExact, Finals, AllEntered, AllLeave, Climbable, FirstStep;
    ghost var all := m.Reachable();
    AroundReachable(m, c);
    var predRel := m.GetPredRel({});
    PredInside(m.trs, predRel, all, scc, c);
    pred := Post(predRel, {c}) * scc;
    if pred != {} {
      TrustInside(m, scc, pred);
      GoalInside(m.trs, scc, pred);
    }
    ghost var idx;
    r, idx := FindPath(m, {c}, pred, scc, true);
    NothingLeads(Converse(ChosenRel(m.trs, m.Envelope(scc))), c);
    path := if c !in pred && Reachable(Inside(m.trs, scc), {c}, pred) then idx else [];
    CycleQuestion(m.trs, scc, all, c, r, idx, path, m.printStatesInTrace);
  }

  /** `findCycle` from one of the given reachable states. */
  method FindCycle<S(==, !new)>(m: ItsModel<S>, init: set<S>, scc: set<S>)
      returns (p: Path<S>, ghost path: seq<nat>, ghost c: S)
    requires m.Valid() && init != {} && init <= m.Reachable()
    modifies m
    ensures m.Valid() && c in init && PathTaken(m.trs, scc, m.Reachable(), c, path)
    ensures Preds(m.trs, scc, m.Reachable(), c) == {} ==> p == Path([""], [{c}, {}, {}])
    ensures Preds(m.trs, scc, m.Reachable(), c) != {} ==>
      if NamesFirst(m.trs, path) then exists i: nat :: CycleAnswer(m.trs, scc, m.Reachable(), c, p, path, i, m.printStatesInTrace)
      else CycleLost(m.trs, scc, m.Reachable(), c, p, path, m.printStatesInTrace)
    ensures StepNames(m.trs, scc, {}) ==> NamesFirst(m.trs, path)
  {
    hide PredOf, CyclePath, PathTaken, CycleAnswer, CycleLost, Around, Preds, Post, NamesFirst, StepNames, ReachSet;
    var one :| one in init;
    c := one;
    ghost var all := m.Reachable();
    var r, pred;
    r, pred, path := PathBack(m, one, scc);
    CyclePathShape(m.trs, scc, all, c, r, path, m.printStatesInTrace);
    p := r.path;
    var final := p.states[|p.states| - 1];
    var i, target := ClosingStep(m.trs, final, p.states[0]);
    if target == {} {
      OpenAnswer(m.trs, scc, all, c, r, path, m.printStatesInTrace);
      p := Path(p.names + [""], p.states + [target]);
    } else {
      ImageOfSome(m.trs[i].rel, final, p.states[0]);
      OneOf(target, c);
      OneOf(p.states[0], c);
      var back := m.GetPredRel({});
      PredInside(m.trs, back, all, scc, c);
      assert final * Post(back, target) == final;
      assert p.states[|p.states| - 1 := final] == p.states;
      ClosedAnswer(m.trs, scc, all, c, r, path, i, m.printStatesInTrace);
      p := Path(p.names + [m.trs[i].name], p.states[|p.states| - 1 := final * Post(back, target)] + [target]);
    }
  }

  /** The path, left open. */
  lemma OpenAnswer<S(!new)>(trs: seq<Named<S>>, scc: set<S>, all: set<S>, c: S, r: Answer<S>, path: seq<nat>, trace: bool)
    requires Around(trs, all, c) && CyclePath(trs, scc, all, c, r, path, trace) && r.Found? && r.path.states != []
    requires forall k: nat :: k < |trs| ==> Post(trs[k].rel, r.path.states[|r.path.states| - 1]) * r.path.states[0] == {}
    ensures CycleLost(trs, scc, all, c, Path(r.path.names + [""], r.path.states + [{}]), path, trace)
    ensures Preds(trs, scc, all, c) != {} ==> !NamesFirst(trs, path)
    ensures Preds(trs, scc, all, c) == {} ==> r == NoPath({c}, {})
  {
    hide CyclePath, Inside, Preds, Finals, CycleSets, Around, HasCycle, Post, NamesFirst;
    CyclePathFacts(trs, scc, all, c, r, path, trace);
    StaysOpen(trs, scc, all, c, r, path, trace);
  }

  lemma CyclePathShape<S(!new)>(trs: seq<Named<S>>, scc: set<S>, all: set<S>, c: S, r: Answer<S>, path: seq<nat>, trace: bool)
    requires Around(trs, all, c) && CyclePath(trs, scc, all, c, r, path, trace)
    ensures r.Found? && |r.path.states| > 1 && r.path.states[0] <= {c} && PathTaken(trs, scc, all, c, path)
    ensures r.path.states[|r.path.states| - 1] <= Preds(trs, scc, all, c)
    ensures r.path.states[0] == {c} ==> NamesFirst(trs, path)
    ensures StepNames(trs, scc, {}) ==> NamesFirst(trs, path)
  {
    hide CyclePath, Inside, Preds, Finals, CycleSets, Around, HasCycle, NamesFirst, StepNames, PathTaken;
    CyclePathFacts(trs, scc, all, c, r, path, trace);
    if StepNames(trs, scc, {}) { NamesOfLeast(trs, scc, all, c, path); }
  }

  /** The path, closed by the first transition that leads back. */
  lemma ClosedAnswer<S(!new)>(trs: seq<Named<S>>, scc: set<S>, all: set<S>, c: S, r: Answer<S>, path: seq<nat>, i: nat, trace: bool)
    requires Around(trs, all, c) && CyclePath(trs, scc, all, c, r, path, trace) && r.Found? && r.path.states != [] && i < |trs|
    requires var final := r.path.states[|r.path.states| - 1];
      && r.path.states[0] == {c} && Post(trs[i].rel, final) * {c} != {}
      && forall k: nat :: k < i ==> Post(trs[k].rel, final) * {c} == {}
    ensures CycleAnswer(trs, scc, all, c, Path(r.path.names + [trs[i].name], r.path.states + [{c}]), path, i, trace)
  {
    hide CyclePath, ShortestCycle, HasCycle, Inside, Preds, Finals, CycleSets, Around, Post, Names, InRange, FirstBack;
    CyclePathFacts(trs, scc, all, c, r, path, trace);
    CloseLoop(trs, scc, all, c, r, path, i, trace);
    OneName(trs, path, i);
    IsFirstBack(trs, r.path.states[|r.path.states| - 1], c, i);
    IsCycleAnswer(trs, scc, all, c, Path(r.path.names + [trs[i].name], r.path.states + [{c}]), path, i, trace);
  }

  lemma IsFirstBack<S(!new)>(trs: seq<Named<S>>, from: set<S>, c: S, i: nat)
    requires i < |trs| && Post(trs[i].rel, from) * {c} != {} && forall k: nat :: k < i ==> Post(trs[k].rel, from) * {c} == {}
    ensures FirstBack(trs, from, c, i)
  {
    hide Post;
    var z :| z in Post(trs[i].rel, from) * {c};
    forall k: nat | k < i ensures c !in Post(trs[k].rel, from) {
      assert c !in Post(trs[k].rel, from) * {c};
    }
  }
}
