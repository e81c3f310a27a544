/** Generalised Buchi acceptance on a finite graph whose edges carry acceptance marks.

    A run is accepted when each wanted mark occurs infinitely often on it. On a finite graph this is
    the same as reaching a closed walk that carries every wanted mark (any closed walk when no mark
    is wanted). */
module Buchi {
  import opened Graphs

  type Marked<S(==)> = Edge<S, set<nat>>

  /** The union of the marks on a sequence of edges. */
  ghost function Marks<S>(es: seq<Marked<S>>): set<nat> {
    if es == [] then {} else es[0].lab + Marks(es[1..])
  }

  ghost predicate Full(want: set<nat>, marks: set<nat>) {
    want <= marks
  }

  ghost predicate CycleAt<S>(g: set<Marked<S>>, want: set<nat>, c: S, es: seq<Marked<S>>) {
    es != [] && Walk(g, c, es, c) && Full(want, Marks(es))
  }

  /** Some closed walk through `c` carries every mark. */
  ghost predicate AcceptingCycle<S(!new)>(g: set<Marked<S>>, want: set<nat>, c: S) {
    exists es :: CycleAt(g, want, c, es)
  }

  /** Some state reachable from `xs` lies on an accepting closed walk. */
  ghost predicate NonEmpty<S(!new)>(g: set<Marked<S>>, want: set<nat>, xs: set<S>) {
    exists c :: c in ReachSet(g, xs) && AcceptingCycle(g, want, c)
  }

  lemma {:induction false} MarksConcat<S>(es: seq<Marked<S>>, fs: seq<Marked<S>>)
    ensures Marks(es + fs) == Marks(es) + Marks(fs)
  {
    if es == [] {
      assert es + fs == fs;
    } else {
      assert (es + fs)[1..] == es[1..] + fs;
      MarksConcat(es[1..], fs);
    }
  }

  lemma {:induction false} MarksAt<S>(es: seq<Marked<S>>, k: nat, i: nat)
    requires k < |es| && i in es[k].lab
    ensures i in Marks(es)
  {
    if k > 0 {
      MarksAt(es[1..], k - 1, i);
    }
  }

  lemma {:induction false} MarksFind<S>(es: seq<Marked<S>>, i: nat) returns (k: nat)
    requires i in Marks(es)
    ensures k < |es| && i in es[k].lab
  {
    if i in es[0].lab {
      k := 0;
    } else {
      k := MarksFind(es[1..], i);
      k := k + 1;
    }
  }

  // ---------------------------------------------------------------- infinite runs

  ghost predicate IsRun<S(!new), L(!new)>(g: set<Edge<S, L>>, run: nat -> Edge<S, L>) {
    forall k: nat :: RunStep(g, run, k)
  }

  ghost predicate RunStep<S(!new), L(!new)>(g: set<Edge<S, L>>, run: nat -> Edge<S, L>, k: nat) {
    run(k) in g && run(k).dst == run(k + 1).src
  }

  ghost predicate MarkFrom<S>(run: nat -> Marked<S>, i: nat, m: nat) {
    exists k: nat :: m <= k && i in run(k).lab
  }

  ghost predicate Accepted<S>(want: set<nat>, run: nat -> Marked<S>) {
    forall i: nat, m: nat :: i in want ==> MarkFrom(run, i, m)
  }

  ghost predicate AcceptedRunFrom<S(!new)>(g: set<Marked<S>>, want: set<nat>, xs: set<S>, run: nat -> Marked<S>) {
    IsRun(g, run) && run(0).src in xs && Accepted(want, run)
  }

  ghost predicate HasAcceptedRun<S(!new)>(g: set<Marked<S>>, want: set<nat>, xs: set<S>) {
    exists run: nat -> Marked<S> :: AcceptedRunFrom(g, want, xs, run)
  }

  /** The edges `i, ..., j-1` of a run. */
  ghost function Window<S, L>(run: nat -> Edge<S, L>, i: nat, j: nat): (es: seq<Edge<S, L>>)
    requires i <= j
    ensures |es| == j - i
  {
    seq(j - i, k requires 0 <= k < j - i => run(i + k))
  }

  lemma {:induction false} WindowWalk<S(!new), L(!new)>(g: set<Edge<S, L>>, run: nat -> Edge<S, L>, i: nat, j: nat)
    requires IsRun(g, run) && i <= j
    ensures Walk(g, run(i).src, Window(run, i, j), run(j).src)
    decreases j - i
  {
    if i < j {
      assert RunStep(g, run, i);
      WindowWalk(g, run, i + 1, j);
      var es := Window(run, i, j);
      assert es[1..] == Window(run, i + 1, j);
      assert es[0] == run(i) && es[0] in g && es[0].dst == run(i + 1).src;
    }
  }

  /** From any point on, some finite stretch of an accepted run carries every mark. */
  lemma {:induction false} FullWindow<S(!new)>(want: set<nat>, run: nat -> Marked<S>, m: nat) returns (j: nat)
    requires Accepted(want, run)
    ensures m < j && Full(want, Marks(Window(run, m, j)))
  {
    if want == {} {
      j := m + 1;
    } else {
      var i :| i in want;
      var l := FullWindow(want - {i}, run, m);
      assert MarkFrom(run, i, m);
      var k: nat :| m <= k && i in run(k).lab;
      j := if k < l then l else k + 1;
      MarksAt(Window(run, m, j), k - m, i);
      assert Window(run, m, j) == Window(run, m, l) + Window(run, l, j);
      MarksConcat(Window(run, m, l), Window(run, l, j));
    }
  }

  /** An accepted run of a finite graph closes an accepting cycle. */
  lemma RunGivesCycle<S(!new)>(g: set<Marked<S>>, want: set<nat>, xs: set<S>, run: nat -> Marked<S>)
    requires AcceptedRunFrom(g, want, xs, run)
    ensures NonEmpty(g, want, xs)
  {
    var srcs: nat -> S := (k: nat) => run(k).src;
    forall k: nat ensures srcs(k) in Sources(g) {
      assert RunStep(g, run, k);
    }
    var c := InfinitePigeonhole(Sources(g), srcs, 0);
    assert OccursFrom(srcs, c, 0);
    var a: nat :| srcs(a) == c;
    var j := FullWindow(want, run, a);
    assert OccursFrom(srcs, c, j);
    var b: nat :| j <= b && srcs(b) == c;
    WindowWalk(g, run, a, b);
    assert Window(run, a, b) == Window(run, a, j) + Window(run, j, b);
    MarksConcat(Window(run, a, j), Window(run, j, b));
    assert CycleAt(g, want, c, Window(run, a, b));
    WindowWalk(g, run, 0, a);
    ReachSetHas(g, xs, run(0).src, c);
  }

  /** The run that follows `stem` and then `cycle` forever. */
  ghost function Lasso<S, L>(stem: seq<Edge<S, L>>, cycle: seq<Edge<S, L>>): nat -> Edge<S, L>
    requires cycle != []
  {
    (k: nat) => if k < |stem| then stem[k] else cycle[(k - |stem|) % |cycle|]
  }

  lemma {:induction false} WalkSteps<S(!new), L(!new)>(g: set<Edge<S, L>>, x: S, es: seq<Edge<S, L>>, y: S, k: nat)
    requires Walk(g, x, es, y) && k < |es|
    ensures es[k] in g && es[k].dst == (if k + 1 < |es| then es[k + 1].src else y)
    ensures k == 0 ==> es[k].src == x
  {
    if k > 0 {
      WalkSteps(g, es[0].dst, es[1..], y, k - 1);
    } else if |es| > 1 {
      assert es[1..][0] == es[1];
    } else {
      assert es[1..] == [];
    }
  }

  lemma ModStep(k: nat, n: nat)
    requires n > 0
    ensures (k + 1) % n == if k % n + 1 == n then 0 else k % n + 1
  {
    var q, r := k / n, k % n;
    assert k == q * n + r;
    if r + 1 == n {
      assert k + 1 == (q + 1) * n;
      ModMultiple(q + 1, 0, n);
    } else {
      ModMultiple(q, r + 1, n);
    }
  }

  lemma ModMultiple(q: nat, r: nat, n: nat)
    requires r < n
    ensures (q * n + r) % n == r
  {
    var k := q * n + r;
    var q', r' := k / n, k % n;
    assert k == q' * n + r';
    assert (q - q') * n == r' - r;
    MulBound(q - q', n);
  }

  lemma MulBound(a: int, n: int)
    requires n >= 0
    ensures a >= 1 ==> a * n >= n
    ensures a <= -1 ==> a * n <= -n
  {
    assert a * n - n == (a - 1) * n;
    assert a * n + n == (a + 1) * n;
  }

  lemma LassoStep<S(!new), L(!new)>(g: set<Edge<S, L>>, x: S, stem: seq<Edge<S, L>>, c: S, cycle: seq<Edge<S, L>>, k: nat)
    requires Walk(g, x, stem, c) && cycle != [] && Walk(g, c, cycle, c)
    ensures RunStep(g, Lasso(stem, cycle), k)
  {
    hide Walk;
    WalkSteps(g, c, cycle, c, 0);
    if k < |stem| {
      WalkSteps(g, x, stem, c, k);
    } else {
      ModStep(k - |stem|, |cycle|);
      WalkSteps(g, c, cycle, c, (k - |stem|) % |cycle|);
    }
  }

  lemma LassoIsRun<S(!new), L(!new)>(g: set<Edge<S, L>>, x: S, stem: seq<Edge<S, L>>, c: S, cycle: seq<Edge<S, L>>)
    requires Walk(g, x, stem, c) && cycle != [] && Walk(g, c, cycle, c)
    ensures IsRun(g, Lasso(stem, cycle)) && Lasso(stem, cycle)(0).src == x
  {
    var run := Lasso(stem, cycle);
    WalkSteps(g, c, cycle, c, 0);
    forall k: nat ensures RunStep(g, run, k) {
      LassoStep(g, x, stem, c, cycle, k);
    }
    if stem != [] { WalkSteps(g, x, stem, c, 0); }
  }

  /** A mark of the cycle comes back forever. */
  lemma LassoMark<S(!new)>(stem: seq<Marked<S>>, cycle: seq<Marked<S>>, i: nat, j: nat, m: nat)
    requires j < |cycle| && i in cycle[j].lab
    ensures MarkFrom(Lasso(stem, cycle), i, m)
  {
    var turn := m * |cycle|;
    MulBound(m, |cycle|);
    ModMultiple(m, j, |cycle|);
    MulAtLeast(m, |cycle|);
    var k := |stem| + (turn + j);
    assert k - |stem| == turn + j && k >= m;
    assert Lasso(stem, cycle)(k) == cycle[j];
  }

  lemma {:induction false} MulAtLeast(m: nat, n: nat)
    requires n > 0
    ensures m * n >= m
  {
    if m > 0 {
      MulAtLeast(m - 1, n);
      assert m * n == (m - 1) * n + n;
    }
  }

  /** A reachable accepting cycle is an accepted run. */
  lemma CycleGivesRun<S(!new)>(g: set<Marked<S>>, want: set<nat>, xs: set<S>)
    requires NonEmpty(g, want, xs)
    ensures HasAcceptedRun(g, want, xs)
  {
    hide Lasso, MarkFrom, IsRun;
    var c :| c in ReachSet(g, xs) && AcceptingCycle(g, want, c);
    var x :| x in xs && Reach(g, x, c);
    var stem :| Walk(g, x, stem, c);
    var cycle :| CycleAt(g, want, c, cycle);
    var run := Lasso(stem, cycle);
    LassoIsRun(g, x, stem, c, cycle);
    forall i: nat, m: nat | i in want ensures MarkFrom(run, i, m) {
      var j := MarksFind(cycle, i);
      LassoMark(stem, cycle, i, j, m);
    }
    assert AcceptedRunFrom(g, want, xs, run);
  }

  /** Emptiness on cycles is emptiness on infinite runs. */
  lemma NonEmptyIffRun<S(!new)>(g: set<Marked<S>>, want: set<nat>, xs: set<S>)
    ensures NonEmpty(g, want, xs) <==> HasAcceptedRun(g, want, xs)
  {
    if NonEmpty(g, want, xs) {
      CycleGivesRun(g, want, xs);
    }
    if HasAcceptedRun(g, want, xs) {
      var run: nat -> Marked<S> :| AcceptedRunFrom(g, want, xs, run);
      RunGivesCycle(g, want, xs, run);
    }
  }

  // ---------------------------------------------------------------- loops in finite sets

  ghost predicate FullStep<S(!new)>(g: set<Marked<S>>, want: set<nat>, u: S, v: S) {
    exists fs :: fs != [] && Walk(g, u, fs, v) && Full(want, Marks(fs))
  }

  lemma FullStepTrans<S(!new)>(g: set<Marked<S>>, want: set<nat>, u: S, v: S, w: S)
    requires FullStep(g, want, u, v) && FullStep(g, want, v, w)
    ensures FullStep(g, want, u, w)
  {
    var fs :| fs != [] && Walk(g, u, fs, v) && Full(want, Marks(fs));
    var gs :| gs != [] && Walk(g, v, gs, w) && Full(want, Marks(gs));
    WalkConcat(g, u, fs, v, gs, w);
    MarksConcat(fs, gs);
  }

  ghost predicate HasFullStepInto<S(!new)>(g: set<Marked<S>>, want: set<nat>, div: set<S>, v: S) {
    exists u :: u in div && FullStep(g, want, u, v)
  }

  ghost function FullSteps<S(!new)>(g: set<Marked<S>>, want: set<nat>, div: set<S>): set<(S, S)> {
    set u, v | u in div && v in div && FullStep(g, want, u, v) :: (u, v)
  }

  lemma FullStepsTransitive<S(!new)>(g: set<Marked<S>>, want: set<nat>, div: set<S>)
    ensures Transitive(FullSteps(g, want, div))
  {
    var b := FullSteps(g, want, div);
    forall u, v, w | (u, v) in b && (v, w) in b ensures (u, w) in b {
      FullStepTrans(g, want, u, v, w);
    }
  }

  /** A finite set every element of which can be reached from inside through a full walk consists
      of states that follow an accepting cycle of the set. */
  lemma FullStepsLoop<S(!new)>(g: set<Marked<S>>, want: set<nat>, div: set<S>, x: S) returns (c: S)
    requires x in div && forall v {:trigger HasFullStepInto(g, want, div, v)} :: v in div ==> HasFullStepInto(g, want, div, v)
    ensures c in div && AcceptingCycle(g, want, c) && FullStep(g, want, c, x)
  {
    var b := FullSteps(g, want, div);
    FullStepsTransitive(g, want, div);
    forall v | v in div ensures HasBefore(div, b, v) {
      assert HasFullStepInto(g, want, div, v);
      var u :| u in div && FullStep(g, want, u, v);
      assert (u, v) in b;
    }
    c := BackwardLoop(div, b, x);
    var fs :| fs != [] && Walk(g, c, fs, c) && Full(want, Marks(fs));
    assert CycleAt(g, want, c, fs);
  }
}
