/** The synchronized product of a TGBA and a model, as relations (LTL/src/tgbaIts.cpp, LTL/src/fsltl.cpp).

    A condition of the automaton is a set of valuations of the atomic propositions; `lab` gives the
    valuation of a model state. Main result: on the relations that `BuildComposedSystem` accumulates,
    the emptiness check is non-empty exactly when the model has an infinite run, read by the
    automaton on source states, that sees every acceptance mark occurring on some arc infinitely
    often. Marks that occur on no arc are silently dropped, so the answer is the automaton's own
    acceptance for every model exactly when no mark is missing, or the automaton alone has no cycle
    with all the marks that occur. */
module Composed {
  import opened Graphs
  import opened Buchi
  import opened Fsltl
  import opened Automata
  import SogIts

  type ArcMap<V(==)> = map<Label<V>, seq<(int, int)>>

  const INIT_STATE: int := 1

  ghost predicate Describes<V(!new)>(arcs: ArcMap<V>, a: Arc<V>) {
    a.lab in arcs && (a.src, a.dst) in arcs[a.lab]
  }

  /** The arcs of the automaton grouped by label. */
  class TgbaType<V(==, !new)> {
    var arcs: ArcMap<V>

    /** Breadth-first loading of the automaton's links. */
    constructor (links: seq<Arc<V>>)
      ensures forall a :: a in links <==> Describes(arcs, a)
      ensures forall l :: l in arcs ==> arcs[l] != []
    {
      arcs := map[];
      new;
      var k := 0;
      while k < |links|
        invariant k <= |links|
        invariant forall a :: a in links[..k] <==> Describes(arcs, a)
        invariant forall l :: l in arcs ==> arcs[l] != []
      {
        assert links[..k + 1] == links[..k] + [links[k]];
        ProcessLink(links[k]);
        k := k + 1;
      }
      assert links[..k] == links;
    }

    /** File the arc under its label. */
    method ProcessLink(a: Arc<V>)
      modifies this
      ensures forall b :: Describes(arcs, b) <==> b == a || Describes(old(arcs), b)
      ensures (forall l :: l in old(arcs) ==> old(arcs)[l] != []) ==> forall l :: l in arcs ==> arcs[l] != []
    {
      if a.lab in arcs {
        arcs := arcs[a.lab := arcs[a.lab] + [(a.src, a.dst)]];
      } else {
        arcs := arcs[a.lab := [(a.src, a.dst)]];
      }
    }
  }

  // ---------------------------------------------------------------- transitions of the automaton

  function VarEqState(q: int, xs: set<int>): set<int> {
    set x | x in xs && x == q
  }

  function SetVarConst(q: int, xs: set<int>): set<int> {
    set x | x in xs :: q
  }

  /** `buildTransition`: a self-loop is a test without a write. */
  function BuildTransition(arc: (int, int), xs: set<int>): set<int> {
    if arc.0 == arc.1 then VarEqState(arc.0, xs)
    else SetVarConst(arc.1, VarEqState(arc.0, xs))
  }

  function Moves(arcs: seq<(int, int)>): Rel<int> {
    set p | p in arcs :: Pair(p.0, p.1)
  }

  /** `buildTransitionSet`: the sum over the arcs of one label moves each source to its targets. */
  method BuildTransitionSet(arcs: seq<(int, int)>, xs: set<int>) returns (ys: set<int>)
    ensures ys == Post(Moves(arcs), xs)
  {
    ys := {};
    var k := 0;
    while k < |arcs|
      invariant k <= |arcs|
      invariant ys == Post(Moves(arcs[..k]), xs)
    {
      assert arcs[..k + 1] == arcs[..k] + [arcs[k]];
      ArcMoves(arcs[k], xs);
      MovesSum(arcs[..k], [arcs[k]], xs);
      ys := ys + BuildTransition(arcs[k], xs);
      k := k + 1;
    }
    assert arcs[..k] == arcs;
  }

  lemma ArcMoves(arc: (int, int), xs: set<int>)
    ensures BuildTransition(arc, xs) == Post(Moves([arc]), xs)
  {
    assert Moves([arc]) == {Pair(arc.0, arc.1)};
    assert arc.0 in xs ==> arc.0 in VarEqState(arc.0, xs);
  }

  lemma MovesSum(a: seq<(int, int)>, b: seq<(int, int)>, xs: set<int>)
    ensures Post(Moves(a + b), xs) == Post(Moves(a), xs) + Post(Moves(b), xs)
  {
    assert Moves(a + b) == Moves(a) + Moves(b) by {
      forall p | p in a + b ensures p in a || p in b {}
    }
  }

  // ---------------------------------------------------------------- the composed relations

  /** Synchronize the moves of the automaton with the model steps whose source satisfies `cond`. */
  function Sync<S(==), V(==)>(arcs: seq<(int, int)>, cond: set<V>, rel: Rel<S>, lab: S -> V): Rel<(int, S)> {
    set p, t | p in arcs && t in rel && lab(t.src) in cond :: Pair((p.0, t.src), (p.1, t.dst))
  }

  /** Apply a relation to the second component of a pair. */
  function OnModel<S(==)>(rel: Rel<S>, xs: set<(int, S)>): set<(int, S)> {
    set x, t | x in xs && t in rel && t.src == x.1 :: (x.0, t.dst)
  }

  /** Apply a relation to the first component of a pair. */
  function OnAutomaton<S(==)>(moves: Rel<int>, xs: set<(int, S)>): set<(int, S)> {
    set x, t | x in xs && t in moves && t.src == x.0 :: (t.dst, x.1)
  }

  lemma SyncThenParts<S(!new), V(!new)>(arcs: seq<(int, int)>, cond: set<V>, rel: Rel<S>, lab: S -> V, xs: set<(int, S)>, y: (int, S))
    requires y in Post(Sync(arcs, cond, rel, lab), xs)
    ensures y in OnAutomaton(Moves(arcs), OnModel(SogIts.GuardSrc(rel, lab, cond), xs))
  {
    hide Post;
    var e := PostHas(Sync(arcs, cond, rel, lab), xs, y);
    var p, t :| p in arcs && t in rel && lab(t.src) in cond && e == Pair((p.0, t.src), (p.1, t.dst));
    assert t in SogIts.GuardSrc(rel, lab, cond) && t.src == e.src.1;
    var x: (int, S) := (p.0, t.dst);
    assert x in OnModel(SogIts.GuardSrc(rel, lab, cond), xs);
    var move := Pair(p.0, p.1);
    assert move in Moves(arcs) && move.src == x.0;
  }

  lemma PartsThenSync<S(!new), V(!new)>(arcs: seq<(int, int)>, cond: set<V>, rel: Rel<S>, lab: S -> V, xs: set<(int, S)>, y: (int, S))
    requires y in OnAutomaton(Moves(arcs), OnModel(SogIts.GuardSrc(rel, lab, cond), xs))
    ensures y in Post(Sync(arcs, cond, rel, lab), xs)
  {
    var mid := OnModel(SogIts.GuardSrc(rel, lab, cond), xs);
    var x, move :| x in mid && move in Moves(arcs) && move.src == x.0 && y == (move.dst, x.1);
    var z, t :| z in xs && t in SogIts.GuardSrc(rel, lab, cond) && t.src == z.1 && x == (z.0, t.dst);
    var p :| p in arcs && move == Pair(p.0, p.1);
    var e := Pair((p.0, t.src), (p.1, t.dst));
    assert e in Sync(arcs, cond, rel, lab) && e.src in xs && e.dst == y;
  }

  /** The synchronized relation is the guarded step of the model followed by the move of the automaton. */
  lemma SyncIsComposed<S(!new), V(!new)>(arcs: seq<(int, int)>, cond: set<V>, rel: Rel<S>, lab: S -> V, xs: set<(int, S)>)
    ensures Post(Sync(arcs, cond, rel, lab), xs) == OnAutomaton(Moves(arcs), OnModel(SogIts.GuardSrc(rel, lab, cond), xs))
  {
    hide Sync, Moves, OnAutomaton, OnModel, SogIts.GuardSrc, Post;
    forall y | y in Post(Sync(arcs, cond, rel, lab), xs) ensures y in OnAutomaton(Moves(arcs), OnModel(SogIts.GuardSrc(rel, lab, cond), xs)) {
      SyncThenParts(arcs, cond, rel, lab, xs, y);
    }
    forall y | y in OnAutomaton(Moves(arcs), OnModel(SogIts.GuardSrc(rel, lab, cond), xs)) ensures y in Post(Sync(arcs, cond, rel, lab), xs) {
      PartsThenSync(arcs, cond, rel, lab, xs, y);
    }
  }

  ghost predicate InLabels<S(!new), V(!new)>(m: ArcMap<V>, labels: set<Label<V>>, rel: Rel<S>, lab: S -> V,
                                             e: Edge<(int, S), ()>) {
    exists l :: l in labels && l in m && e in Sync(m[l], l.cond, rel, lab)
  }

  ghost predicate InLabelsWith<S(!new), V(!new)>(m: ArcMap<V>, labels: set<Label<V>>, rel: Rel<S>, lab: S -> V,
                                                 i: nat, e: Edge<(int, S), ()>) {
    exists l :: l in labels && l in m && i in l.acc && e in Sync(m[l], l.cond, rel, lab)
  }

  ghost predicate MarkInLabels<V(!new)>(labels: set<Label<V>>, i: nat) {
    exists l :: l in labels && i in l.acc
  }

  ghost predicate AccFor<S(!new), V(!new)>(m: ArcMap<V>, labels: set<Label<V>>, rel: Rel<S>, lab: S -> V,
                                           acc: map<nat, Rel<(int, S)>>) {
    && (forall i :: i in acc <==> MarkInLabels(labels, i))
    && (forall i, e {:trigger InLabelsWith(m, labels, rel, lab, i, e)} :: i in acc ==>
          (e in acc[i] <==> InLabelsWith(m, labels, rel, lab, i, e)))
  }

  ghost predicate AllFor<S(!new), V(!new)>(m: ArcMap<V>, labels: set<Label<V>>, rel: Rel<S>, lab: S -> V,
                                           all: Rel<(int, S)>) {
    forall e {:trigger InLabels(m, labels, rel, lab, e)} :: e in all <==> InLabels(m, labels, rel, lab, e)
  }

  class FsltlModel<S(==, !new), V(==, !new)> {
    const rel: Rel<S>
    const init: set<S>
    const lab: S -> V
    const hasInstance: bool
    const tgba: TgbaType?<V>
    var allTrans: Rel<(int, S)>
    var accToTrans: map<nat, Rel<(int, S)>>

    constructor (rel: Rel<S>, init: set<S>, lab: S -> V, hasInstance: bool, tgba: TgbaType?<V>)
      ensures this.rel == rel && this.init == init && this.lab == lab
      ensures this.hasInstance == hasInstance && this.tgba == tgba
      ensures allTrans == {} && accToTrans == map[]
    {
      this.rel, this.init, this.lab, this.hasInstance, this.tgba := rel, init, lab, hasInstance, tgba;
      allTrans, accToTrans := {}, map[];
    }

    /** `buildComposedSystem`: accumulate the full relation and one relation per acceptance mark. */
    method BuildComposedSystem() returns (ok: bool)
      requires allTrans == {} && accToTrans == map[]
      modifies this
      ensures ok <==> hasInstance && init != {} && tgba != null
      ensures !ok ==> allTrans == {} && accToTrans == map[]
      ensures ok ==> AllFor(tgba.arcs, tgba.arcs.Keys, rel, lab, allTrans)
      ensures ok ==> AccFor(tgba.arcs, tgba.arcs.Keys, rel, lab, accToTrans)
    {
      hide AllFor, AccFor, Sync, Extended;
      if !hasInstance { return false; }
      if init == {} { return false; }
      if tgba == null { return false; }
      var todo := tgba.arcs.Keys;
      NothingYet(tgba.arcs, rel, lab);
      assert tgba.arcs.Keys - todo == {};
      while todo != {}
        invariant todo <= tgba.arcs.Keys
        invariant AllFor(tgba.arcs, tgba.arcs.Keys - todo, rel, lab, allTrans)
        invariant AccFor(tgba.arcs, tgba.arcs.Keys - todo, rel, lab, accToTrans)
        decreases todo
      {
        var l :| l in todo;
        var toadd := Sync(tgba.arcs[l], l.cond, rel, lab);
        ghost var done := tgba.arcs.Keys - todo;
        AddLabelAll(tgba.arcs, done, l, rel, lab, allTrans);
        allTrans := allTrans + toadd;
        ghost var before := accToTrans;
        AddToMarks(l.acc, toadd);
        AddLabelAcc(tgba.arcs, done, l, rel, lab, before, accToTrans);
        todo := todo - {l};
        assert tgba.arcs.Keys - todo == done + {l};
      }
      assert tgba.arcs.Keys - todo == tgba.arcs.Keys;
      ok := true;
    }

    /** Add a relation to the entry of each mark of a label, creating the entry on first occurrence. */
    method AddToMarks(marks: set<nat>, toadd: Rel<(int, S)>)
      modifies this`accToTrans
      ensures Extended(old(accToTrans), marks, toadd, accToTrans)
    {
      var accs := marks;
      while accs != {}
        invariant accs <= marks
        invariant Extended(old(accToTrans), marks - accs, toadd, accToTrans)
        decreases accs
      {
        var acc :| acc in accs;
        if acc !in accToTrans {
          accToTrans := accToTrans[acc := toadd];
        } else {
          accToTrans := accToTrans[acc := accToTrans[acc] + toadd];
        }
        accs := accs - {acc};
      }
      assert marks - accs == marks;
    }

    /** `getInitState`: the automaton's first state with the model's initial states. */
    function GetInitState(): (r: set<(int, S)>) {
      set s | s in init :: (INIT_STATE, s)
    }

    /** `findSCC_owcty ()` and `findSCC_el ()`: run the check on the accumulated relations. */
    method FindScc(isOWCTY: bool) returns (div: set<(int, S)>)
      requires forall i :: i in accToTrans ==> accToTrans[i] <= allTrans
      ensures FoundWith(allTrans, accToTrans, GetInitState(), div)
    {
      var nextAccs: seq<Rel<(int, S)>> := [];
      ghost var keys: seq<nat> := [];
      var todo := accToTrans.Keys;
      while todo != {}
        invariant todo <= accToTrans.Keys
        invariant IsEnumeration(keys, accToTrans.Keys - todo)
        invariant nextAccs == Select(accToTrans, keys)
        decreases todo
      {
        var i :| i in todo;
        nextAccs := nextAccs + [accToTrans[i]];
        keys := keys + [i];
        todo := todo - {i};
      }
      assert accToTrans.Keys - todo == accToTrans.Keys;
      forall j: nat | j < |nextAccs| ensures nextAccs[j] <= allTrans {
        assert nextAccs[j] == accToTrans[keys[j]];
      }
      div := Fsltl.FindScc(allTrans, nextAccs, GetInitState(), isOWCTY);
    }
  }

  ghost predicate Extended<S>(before: map<nat, Rel<(int, S)>>, marks: set<nat>, toadd: Rel<(int, S)>,
                              after: map<nat, Rel<(int, S)>>) {
    && after.Keys == before.Keys + marks
    && forall i :: i in after ==>
         after[i] == (if i in before then before[i] else {}) + (if i in marks then toadd else {})
  }

  ghost predicate IsEnumeration(keys: seq<nat>, marks: set<nat>) {
    forall i: nat :: i in keys <==> i in marks
  }

  ghost function Select<T>(m: map<nat, T>, keys: seq<nat>): (r: seq<T>)
    requires forall i :: i in keys ==> i in m
  {
    seq(|keys|, j requires 0 <= j < |keys| => m[keys[j]])
  }

  /** `div` is what the emptiness check returns, whatever order the marks are taken in. */
  ghost predicate FoundWith<S(!new)>(all: Rel<S>, acc: map<nat, Rel<S>>, init: set<S>, div: set<S>) {
    exists keys: seq<nat> ::
      IsEnumeration(keys, acc.Keys) && div == AcceptingSuffixes(all, Select(acc, keys), init)
  }

  lemma NothingYet<S(!new), V(!new)>(m: ArcMap<V>, rel: Rel<S>, lab: S -> V)
    ensures AllFor(m, {}, rel, lab, {}) && AccFor(m, {}, rel, lab, map[])
  {
  }

  lemma AddLabelAll<S(!new), V(!new)>(m: ArcMap<V>, done: set<Label<V>>, l: Label<V>, rel: Rel<S>, lab: S -> V,
                                      all: Rel<(int, S)>)
    requires l in m && AllFor(m, done, rel, lab, all)
    ensures AllFor(m, done + {l}, rel, lab, all + Sync(m[l], l.cond, rel, lab))
  {
    var toadd := Sync(m[l], l.cond, rel, lab);
    forall e ensures e in all + toadd <==> InLabels(m, done + {l}, rel, lab, e) {
      assert e in all <==> InLabels(m, done, rel, lab, e);
    }
  }

  lemma AddLabelAcc<S(!new), V(!new)>(m: ArcMap<V>, done: set<Label<V>>, l: Label<V>, rel: Rel<S>, lab: S -> V,
                                      before: map<nat, Rel<(int, S)>>, after: map<nat, Rel<(int, S)>>)
    requires l in m && AccFor(m, done, rel, lab, before)
    requires Extended(before, l.acc, Sync(m[l], l.cond, rel, lab), after)
    ensures AccFor(m, done + {l}, rel, lab, after)
  {
    forall i ensures i in after <==> MarkInLabels(done + {l}, i) {
      assert i in before <==> MarkInLabels(done, i);
    }
    forall i, e | i in after ensures e in after[i] <==> InLabelsWith(m, done + {l}, rel, lab, i, e) {
      assert i in before ==> (e in before[i] <==> InLabelsWith(m, done, rel, lab, i, e));
      assert i in before <==> MarkInLabels(done, i);
    }
  }

  // ---------------------------------------------------------------- merging parallel edges

  /** The accumulated relations are the product with parallel edges merged. */
  ghost predicate Merges<S(!new)>(all: Rel<S>, accs: seq<Rel<S>>, g: set<Marked<S>>, keys: seq<nat>) {
    && |accs| == |keys|
    && (forall e :: e in g ==> Pair(e.src, e.dst) in all)
    && (forall p {:trigger p in all} :: p in all ==> HasEdge(g, p))
    && (forall j: nat, e {:trigger accs[j], e in g} :: j < |keys| && e in g && keys[j] in e.lab ==> Pair(e.src, e.dst) in accs[j])
    && (forall j: nat, p {:trigger HasEdgeWith(g, p, keys[j])} :: j < |keys| && p in accs[j] ==> HasEdgeWith(g, p, keys[j]))
  }

  ghost predicate HasEdge<S(!new)>(g: set<Marked<S>>, p: Edge<S, ()>) {
    exists e :: e in g && e.src == p.src && e.dst == p.dst
  }

  ghost predicate HasEdgeWith<S(!new)>(g: set<Marked<S>>, p: Edge<S, ()>, i: nat) {
    exists e :: e in g && e.src == p.src && e.dst == p.dst && i in e.lab
  }

  ghost function MarkSet(keys: seq<nat>): set<nat> {
    set i | i in keys
  }

  /** A product walk projects to a walk over merged edges that carries at least its marks. */
  lemma {:induction false} Project<S(!new)>(all: Rel<S>, accs: seq<Rel<S>>, g: set<Marked<S>>, keys: seq<nat>,
                                            x: S, es: seq<Marked<S>>, y: S) returns (fs: seq<Marked<S>>)
    requires Merges(all, accs, g, keys) && Walk(g, x, es, y)
    ensures Walk(Labelled(all, accs), x, fs, y) && |fs| == |es|
    ensures forall j: nat :: j < |keys| && keys[j] in Marks(es) ==> j in Marks(fs)
  {
    if es == [] {
      fs := [];
    } else {
      var rest := Project(all, accs, g, keys, es[0].dst, es[1..], y);
      var p := Pair(es[0].src, es[0].dst);
      var f := Edge(p.src, MarksOf(accs, p), p.dst);
      assert es[0] in g && f in Labelled(all, accs);
      fs := [f] + rest;
      assert fs[1..] == rest;
      forall j: nat | j < |keys| && keys[j] in Marks(es) ensures j in Marks(fs) {
        if keys[j] in es[0].lab {
          assert p in accs[j];
        }
      }
    }
  }

  /** A walk over merged edges lifts to a product walk; one chosen mark can be kept. */
  lemma {:induction false} Lift<S(!new)>(all: Rel<S>, accs: seq<Rel<S>>, g: set<Marked<S>>, keys: seq<nat>,
                                         x: S, fs: seq<Marked<S>>, y: S, j: nat) returns (es: seq<Marked<S>>)
    requires Merges(all, accs, g, keys) && Walk(Labelled(all, accs), x, fs, y)
    ensures Walk(g, x, es, y) && |es| == |fs|
    ensures j < |keys| && j in Marks(fs) ==> keys[j] in Marks(es)
  {
    if fs == [] {
      es := [];
    } else {
      var rest := Lift(all, accs, g, keys, fs[0].dst, fs[1..], y, j);
      var e := LiftEdge(all, accs, g, keys, fs[0], j);
      es := [e] + rest;
      assert es[1..] == rest;
    }
  }

  lemma LiftEdge<S(!new)>(all: Rel<S>, accs: seq<Rel<S>>, g: set<Marked<S>>, keys: seq<nat>, f: Marked<S>, j: nat)
      returns (e: Marked<S>)
    requires Merges(all, accs, g, keys) && f in Labelled(all, accs)
    ensures e in g && e.src == f.src && e.dst == f.dst
    ensures j < |keys| && j in f.lab ==> keys[j] in e.lab
  {
    var p :| p in all && f == Edge(p.src, MarksOf(accs, p), p.dst);
    if j < |keys| && j in f.lab {
      assert p in accs[j] && HasEdgeWith(g, p, keys[j]);
      e :| e in g && e.src == p.src && e.dst == p.dst && keys[j] in e.lab;
    } else {
      assert HasEdge(g, p);
      e :| e in g && e.src == p.src && e.dst == p.dst;
    }
  }

  /** Going round a merged cycle once per mark gives a product cycle with all of them. */
  lemma {:induction false} LiftCycle<S(!new)>(all: Rel<S>, accs: seq<Rel<S>>, g: set<Marked<S>>, keys: seq<nat>,
                                              c: S, fs: seq<Marked<S>>, k: nat) returns (es: seq<Marked<S>>)
    requires Merges(all, accs, g, keys) && CycleAt(Labelled(all, accs), Indices(accs), c, fs) && k <= |keys|
    ensures es != [] && Walk(g, c, es, c) && MarkSet(keys[..k]) <= Marks(es)
  {
    if k == 0 {
      es := Lift(all, accs, g, keys, c, fs, c, 0);
    } else {
      var gs := LiftCycle(all, accs, g, keys, c, fs, k - 1);
      var hs := Lift(all, accs, g, keys, c, fs, c, k - 1);
      es := gs + hs;
      WalkConcat(g, c, gs, c, hs, c);
      MarksConcat(gs, hs);
      assert keys[..k] == keys[..k - 1] + [keys[k - 1]];
    }
  }

  lemma MergedReach<S(!new)>(all: Rel<S>, accs: seq<Rel<S>>, g: set<Marked<S>>, keys: seq<nat>, xs: set<S>)
    requires Merges(all, accs, g, keys)
    ensures ReachSet(g, xs) == ReachSet(Labelled(all, accs), xs)
  {
    var h := Labelled(all, accs);
    forall y | y in ReachSet(g, xs) ensures y in ReachSet(h, xs) {
      var x :| x in xs && Reach(g, x, y);
      var es :| Walk(g, x, es, y);
      var fs := Project(all, accs, g, keys, x, es, y);
      ReachSetHas(h, xs, x, y);
    }
    forall y | y in ReachSet(h, xs) ensures y in ReachSet(g, xs) {
      var x :| x in xs && Reach(h, x, y);
      var fs :| Walk(h, x, fs, y);
      var es := Lift(all, accs, g, keys, x, fs, y, 0);
      ReachSetHas(g, xs, x, y);
    }
  }

  /** Merging parallel edges and their marks does not change emptiness. */
  lemma MergedNonEmpty<S(!new)>(all: Rel<S>, accs: seq<Rel<S>>, g: set<Marked<S>>, keys: seq<nat>, xs: set<S>)
    requires Merges(all, accs, g, keys)
    ensures NonEmpty(Labelled(all, accs), Indices(accs), xs) <==> NonEmpty(g, MarkSet(keys), xs)
  {
    var h := Labelled(all, accs);
    MergedReach(all, accs, g, keys, xs);
    if NonEmpty(h, Indices(accs), xs) {
      var c :| c in ReachSet(h, xs) && AcceptingCycle(h, Indices(accs), c);
      var fs :| CycleAt(h, Indices(accs), c, fs);
      var es := LiftCycle(all, accs, g, keys, c, fs, |keys|);
      assert keys[..|keys|] == keys;
      assert CycleAt(g, MarkSet(keys), c, es);
    }
    if NonEmpty(g, MarkSet(keys), xs) {
      var c :| c in ReachSet(g, xs) && AcceptingCycle(g, MarkSet(keys), c);
      var es :| CycleAt(g, MarkSet(keys), c, es);
      var fs := Project(all, accs, g, keys, c, es, c);
      assert CycleAt(h, Indices(accs), c, fs);
    }
  }

  // ---------------------------------------------------------------- main result

  ghost function ArcSet<V(!new)>(m: ArcMap<V>): set<Arc<V>> {
    set l, p | l in m.Keys && p in m[l] :: Arc(p.0, l, p.1)
  }

  lemma SyncIsProduct<S(!new), V(!new)>(m: ArcMap<V>, rel: Rel<S>, lab: S -> V, l: Label<V>, p: Edge<(int, S), ()>)
    requires l in m
    ensures p in Sync(m[l], l.cond, rel, lab) <==>
      Edge(p.src, l.acc, p.dst) in Product(ArcSet(m), rel, lab) && InSync(m, rel, lab, l, p)
  {
    if p in Sync(m[l], l.cond, rel, lab) {
      var q, t :| q in m[l] && t in rel && lab(t.src) in l.cond && p == Pair((q.0, t.src), (q.1, t.dst));
      match t.lab case () =>
      assert t == Pair(t.src, t.dst);
      assert Arc(q.0, l, q.1) in ArcSet(m);
      EdgeOfProduct(ArcSet(m), rel, lab, Arc(q.0, l, q.1), t.src, t.dst);
    }
    if InSync(m, rel, lab, l, p) {
      match p.lab case () =>
      var t := Pair(p.src.1, p.dst.1);
      assert lab(t.src) in l.cond;
    }
  }

  /** Membership of a pair in the relation of label `l`, spelled out. */
  ghost predicate InSync<S, V>(m: ArcMap<V>, rel: Rel<S>, lab: S -> V, l: Label<V>, p: Edge<(int, S), ()>)
    requires l in m
  {
    (p.src.0, p.dst.0) in m[l] && Pair(p.src.1, p.dst.1) in rel && lab(p.src.1) in l.cond
  }

  lemma ProductIsSync<S(!new), V(!new)>(m: ArcMap<V>, rel: Rel<S>, lab: S -> V, e: Marked<(int, S)>) returns (l: Label<V>)
    requires e in Product(ArcSet(m), rel, lab)
    ensures l in m && l.acc == e.lab && Pair(e.src, e.dst) in Sync(m[l], l.cond, rel, lab)
  {
    var a := ProductEdge(ArcSet(m), rel, lab, e);
    l := a.lab;
    SyncIsProduct(m, rel, lab, l, Pair(e.src, e.dst));
  }

  lemma AccumulatedMerges<S(!new), V(!new)>(m: ArcMap<V>, rel: Rel<S>, lab: S -> V, all: Rel<(int, S)>,
                                            acc: map<nat, Rel<(int, S)>>, keys: seq<nat>)
    requires AllFor(m, m.Keys, rel, lab, all) && AccFor(m, m.Keys, rel, lab, acc) && IsEnumeration(keys, acc.Keys)
    ensures Merges(all, Select(acc, keys), Product(ArcSet(m), rel, lab), keys)
  {
    hide Product, Sync;
    var g, accs := Product(ArcSet(m), rel, lab), Select(acc, keys);
    forall e | e in g ensures Pair(e.src, e.dst) in all {
      var l := ProductIsSync(m, rel, lab, e);
      assert InLabels(m, m.Keys, rel, lab, Pair(e.src, e.dst));
    }
    forall p | p in all ensures HasEdge(g, p) {
      assert InLabels(m, m.Keys, rel, lab, p);
      var l :| l in m && p in Sync(m[l], l.cond, rel, lab);
      SyncIsProduct(m, rel, lab, l, p);
    }
    forall j: nat, e | j < |keys| && e in g && keys[j] in e.lab ensures Pair(e.src, e.dst) in accs[j] {
      var l := ProductIsSync(m, rel, lab, e);
      assert InLabelsWith(m, m.Keys, rel, lab, keys[j], Pair(e.src, e.dst));
    }
    forall j: nat, p | j < |keys| && p in accs[j] ensures HasEdgeWith(g, p, keys[j]) {
      assert InLabelsWith(m, m.Keys, rel, lab, keys[j], p);
      var l :| l in m && keys[j] in l.acc && p in Sync(m[l], l.cond, rel, lab);
      SyncIsProduct(m, rel, lab, l, p);
    }
  }

  /** The marks that occur on some arc: the only ones the check looks at. */
  ghost function Occurring<V(!new)>(m: ArcMap<V>): set<nat> {
    set l, i | l in m.Keys && i in l.acc :: i
  }

  /** The check on the accumulated relations is non-empty exactly when the model has an infinite run
      that the automaton reads with every occurring mark seen infinitely often. */
  lemma FoundIffModelRun<S(!new), V(!new)>(m: ArcMap<V>, rel: Rel<S>, init: set<S>, lab: S -> V, all: Rel<(int, S)>,
                                           acc: map<nat, Rel<(int, S)>>, div: set<(int, S)>)
    requires AllFor(m, m.Keys, rel, lab, all) && AccFor(m, m.Keys, rel, lab, acc)
    requires FoundWith(all, acc, Initial(INIT_STATE, init), div)
    ensures div != {} <==> ModelHasAcceptedRun(ArcSet(m), rel, INIT_STATE, init, lab, Occurring(m))
  {
    var keys: seq<nat> :| IsEnumeration(keys, acc.Keys) && div == AcceptingSuffixes(all, Select(acc, keys), Initial(INIT_STATE, init));
    var g, accs := Product(ArcSet(m), rel, lab), Select(acc, keys);
    AccumulatedMerges(m, rel, lab, all, acc, keys);
    SuffixesDecideEmptiness(all, accs, Initial(INIT_STATE, init));
    MergedNonEmpty(all, accs, g, keys, Initial(INIT_STATE, init));
    NonEmptyIffRun(g, MarkSet(keys), Initial(INIT_STATE, init));
    ProductRunIffModelRun(ArcSet(m), rel, INIT_STATE, init, lab, MarkSet(keys));
    forall i ensures i in MarkSet(keys) <==> i in Occurring(m) {
      assert i in acc <==> MarkInLabels(m.Keys, i);
    }
    assert MarkSet(keys) == Occurring(m);
  }

  /** A run can only see marks that occur on some arc. */
  lemma SeenMarksOccur<S(!new), V(!new)>(m: ArcMap<V>, rel: Rel<S>, init: set<S>, lab: S -> V, want: set<nat>)
    requires ModelHasAcceptedRun(ArcSet(m), rel, INIT_STATE, init, lab, want)
    ensures want <= Occurring(m)
  {
    var a: nat -> Arc<V>, s: nat -> S :| Reads(ArcSet(m), rel, INIT_STATE, init, lab, a, s) && Sees(want, a);
    forall i | i in want ensures i in Occurring(m) {
      assert SeesFrom(a, i, 0);
      var k: nat :| i in a(k).lab.acc;
      assert ReadsStep(ArcSet(m), rel, lab, a, s, k);
      assert a(k).lab in m.Keys;
    }
  }

  // ---------------------------------------------------------------- marks that occur on no arc

  /** The automaton alone: its arcs that some valuation satisfies, with their marks. */
  ghost function Skeleton<V(!new)>(m: ArcMap<V>): set<Marked<int>> {
    set a | a in ArcSet(m) && a.lab.cond != {} :: Edge(a.src, a.lab.acc, a.dst)
  }

  /** No mark is missing from the arcs, or no reachable cycle of the automaton carries all that occur. */
  ghost predicate MarksSuffice<V(!new)>(m: ArcMap<V>, n: nat) {
    Occurring(m) == Below(n) || !NonEmpty(Skeleton(m), Occurring(m), {INIT_STATE})
  }

  /** A run of the model is read along a run of the automaton alone. */
  lemma ModelRunInSkeleton<S(!new), V(!new)>(m: ArcMap<V>, rel: Rel<S>, init: set<S>, lab: S -> V, want: set<nat>)
    requires ModelHasAcceptedRun(ArcSet(m), rel, INIT_STATE, init, lab, want)
    ensures NonEmpty(Skeleton(m), want, {INIT_STATE})
  {
    hide NonEmpty, ArcSet;
    var a: nat -> Arc<V>, s: nat -> S :| Reads(ArcSet(m), rel, INIT_STATE, init, lab, a, s) && Sees(want, a);
    var g := Skeleton(m);
    var run: nat -> Marked<int> := (k: nat) => Edge(a(k).src, a(k).lab.acc, a(k).dst);
    forall k: nat ensures RunStep(g, run, k) {
      assert ReadsStep(ArcSet(m), rel, lab, a, s, k);
      assert a(k).lab.cond != {};
    }
    forall i: nat, j: nat | i in want ensures MarkFrom(run, i, j) {
      assert SeesFrom(a, i, j);
      var k: nat :| j <= k && i in a(k).lab.acc;
      assert i in run(k).lab;
    }
    assert AcceptedRunFrom(g, want, {INIT_STATE}, run);
    RunGivesCycle(g, want, {INIT_STATE}, run);
  }

  /** The valuations that satisfy some condition, any of which may follow any other. */
  ghost function Valuations<V(!new)>(m: ArcMap<V>): set<V> {
    set l, v | l in m.Keys && v in l.cond :: v
  }

  ghost function AnyStep<V(!new)>(vs: set<V>): Rel<V> {
    set u, v | u in vs && v in vs :: Pair(u, v)
  }

  /** `e` stands for the arc `a`, whose condition `v` satisfies. */
  ghost predicate Satisfies<V(!new)>(m: ArcMap<V>, e: Marked<int>, a: Arc<V>, v: V) {
    a in ArcSet(m) && e == Edge(a.src, a.lab.acc, a.dst) && v in a.lab.cond
  }

  lemma SkeletonArc<V(!new)>(m: ArcMap<V>, e: Marked<int>) returns (a: Arc<V>, v: V)
    requires e in Skeleton(m)
    ensures Satisfies(m, e, a, v)
  {
    a :| a in ArcSet(m) && a.lab.cond != {} && e == Edge(a.src, a.lab.acc, a.dst);
    v :| v in a.lab.cond;
  }

  ghost predicate HasArc<V(!new)>(m: ArcMap<V>, e: Marked<int>) {
    exists a, v :: Satisfies(m, e, a, v)
  }

  ghost function PickArc<V(!new)>(m: ArcMap<V>, e: Marked<int>): (r: (Arc<V>, V))
    requires HasArc(m, e)
    ensures Satisfies(m, e, r.0, r.1)
  {
    var a, v :| Satisfies(m, e, a, v);
    (a, v)
  }

  /** A run of the automaton alone is read by the model that can take any valuation at any time. */
  lemma SkeletonRunInModel<V(!new)>(m: ArcMap<V>, want: set<nat>)
    requires NonEmpty(Skeleton(m), want, {INIT_STATE})
    ensures ModelHasAcceptedRun(ArcSet(m), AnyStep(Valuations(m)), INIT_STATE, Valuations(m), (v: V) => v, want)
  {
    hide NonEmpty, ArcSet, Skeleton;
    var g, vs, lab := Skeleton(m), Valuations(m), (v: V) => v;
    CycleGivesRun(g, want, {INIT_STATE});
    var run: nat -> Marked<int> :| AcceptedRunFrom(g, want, {INIT_STATE}, run);
    forall k: nat ensures HasArc(m, run(k)) {
      assert RunStep(g, run, k);
      var a, v := SkeletonArc(m, run(k));
    }
    var a: nat -> Arc<V>, s: nat -> V := (k: nat) => PickArc(m, run(k)).0, (k: nat) => PickArc(m, run(k)).1;
    forall k: nat ensures Satisfies(m, run(k), a(k), s(k)) && s(k) in vs {
      ArcLabel(m, a(k));
    }
    forall k: nat ensures ReadsStep(ArcSet(m), AnyStep(vs), lab, a, s, k) {
      assert RunStep(g, run, k);
      assert Satisfies(m, run(k), a(k), s(k)) && Satisfies(m, run(k + 1), a(k + 1), s(k + 1));
      assert s(k) in vs && s(k + 1) in vs;
    }
    forall i: nat, j: nat | i in want ensures SeesFrom(a, i, j) {
      assert MarkFrom(run, i, j);
      var k: nat :| j <= k && i in run(k).lab;
      assert Satisfies(m, run(k), a(k), s(k));
    }
    assert Satisfies(m, run(0), a(0), s(0)) && s(0) in vs;
    assert Reads(ArcSet(m), AnyStep(vs), INIT_STATE, vs, lab, a, s) && Sees(want, a);
  }

  lemma ArcLabel<V(!new)>(m: ArcMap<V>, a: Arc<V>)
    requires a in ArcSet(m)
    ensures a.lab in m.Keys
  {
  }

  /** Then the check decides acceptance with `n` marks, whatever the model. */
  lemma CheckRight<S(!new), V(!new)>(m: ArcMap<V>, rel: Rel<S>, init: set<S>, lab: S -> V, all: Rel<(int, S)>,
                                     acc: map<nat, Rel<(int, S)>>, div: set<(int, S)>, n: nat)
    requires AllFor(m, m.Keys, rel, lab, all) && AccFor(m, m.Keys, rel, lab, acc)
    requires FoundWith(all, acc, Initial(INIT_STATE, init), div) && Occurring(m) <= Below(n) && MarksSuffice(m, n)
    ensures div != {} <==> ModelHasAcceptedRun(ArcSet(m), rel, INIT_STATE, init, lab, Below(n))
  {
    hide AllFor, AccFor, FoundWith, ArcSet, NonEmpty, Skeleton, Occurring;
    FoundIffModelRun(m, rel, init, lab, all, acc, div);
    if ModelHasAcceptedRun(ArcSet(m), rel, INIT_STATE, init, lab, Below(n)) {
      SeenMarksOccur(m, rel, init, lab, Below(n));
    }
    if ModelHasAcceptedRun(ArcSet(m), rel, INIT_STATE, init, lab, Occurring(m)) {
      ModelRunInSkeleton(m, rel, init, lab, Occurring(m));
    }
  }

  /** Otherwise it reports a run that is not accepted, on the model that can take any valuation at any time. */
  lemma CheckWrong<V(!new)>(m: ArcMap<V>, all: Rel<(int, V)>, acc: map<nat, Rel<(int, V)>>, div: set<(int, V)>, n: nat)
    requires var vs := Valuations(m); AllFor(m, m.Keys, AnyStep(vs), (v: V) => v, all) && AccFor(m, m.Keys, AnyStep(vs), (v: V) => v, acc)
    requires FoundWith(all, acc, Initial(INIT_STATE, Valuations(m)), div) && Occurring(m) <= Below(n) && !MarksSuffice(m, n)
    ensures div != {} && !ModelHasAcceptedRun(ArcSet(m), AnyStep(Valuations(m)), INIT_STATE, Valuations(m), (v: V) => v, Below(n))
  {
    hide AllFor, AccFor, FoundWith, ArcSet, NonEmpty, Skeleton, Occurring, Valuations, AnyStep;
    var vs, lab := Valuations(m), (v: V) => v;
    FoundIffModelRun(m, AnyStep(vs), vs, lab, all, acc, div);
    SkeletonRunInModel(m, Occurring(m));
    if ModelHasAcceptedRun(ArcSet(m), AnyStep(vs), INIT_STATE, vs, lab, Below(n)) {
      SeenMarksOccur(m, AnyStep(vs), vs, lab, Below(n));
    }
  }

  /** On a model whose states are valuations, the occurring marks decide acceptance with `n` marks. */
  ghost predicate SameVerdict<V(!new)>(m: ArcMap<V>, rel: Rel<V>, init: set<V>, n: nat) {
    var lab := (v: V) => v;
    ModelHasAcceptedRun(ArcSet(m), rel, INIT_STATE, init, lab, Occurring(m))
    <==> ModelHasAcceptedRun(ArcSet(m), rel, INIT_STATE, init, lab, Below(n))
  }

  /** The exact condition on the automaton: what the check looks at decides acceptance with `n` marks on every model. */
  lemma CheckRightIff<V(!new)>(m: ArcMap<V>, n: nat)
    requires Occurring(m) <= Below(n)
    ensures MarksSuffice(m, n) <==> forall rel, init :: SameVerdict(m, rel, init, n)
  {
    hide ArcSet, NonEmpty, Skeleton, Occurring, Valuations, AnyStep;
    var lab := (v: V) => v;
    if MarksSuffice(m, n) {
      forall rel, init ensures SameVerdict(m, rel, init, n) {
        if ModelHasAcceptedRun(ArcSet(m), rel, INIT_STATE, init, lab, Below(n)) {
          SeenMarksOccur(m, rel, init, lab, Below(n));
        }
        if ModelHasAcceptedRun(ArcSet(m), rel, INIT_STATE, init, lab, Occurring(m)) {
          ModelRunInSkeleton(m, rel, init, lab, Occurring(m));
        }
      }
    } else {
      var vs := Valuations(m);
      SkeletonRunInModel(m, Occurring(m));
      if SameVerdict(m, AnyStep(vs), vs, n) {
        SeenMarksOccur(m, AnyStep(vs), vs, lab, Below(n));
      }
    }
  }

  /** A missing mark does mislead the check: one arc, one looping state, one mark on no arc. */
  lemma MissingMarkMisleads()
    ensures var m: ArcMap<bool> := map[Label({true}, {}) := [(INIT_STATE, INIT_STATE)]];
            var rel: Rel<int> := {Pair(0, 0)};
            var lab: int -> bool := x => true;
            ModelHasAcceptedRun(ArcSet(m), rel, INIT_STATE, {0}, lab, Occurring(m)) &&
            !ModelHasAcceptedRun(ArcSet(m), rel, INIT_STATE, {0}, lab, Below(1))
  {
    var l := Label({true}, {});
    var m: ArcMap<bool> := map[l := [(INIT_STATE, INIT_STATE)]];
    var rel: Rel<int> := {Pair(0, 0)};
    var lab: int -> bool := x => true;
    var arc := Arc(INIT_STATE, l, INIT_STATE);
    var a: nat -> Arc<bool> := k => arc;
    var s: nat -> int := k => 0;
    assert (INIT_STATE, INIT_STATE) in m[l];
    assert arc in ArcSet(m);
    assert Occurring(m) == {};
    forall k: nat ensures ReadsStep(ArcSet(m), rel, lab, a, s, k) {}
    assert Reads(ArcSet(m), rel, INIT_STATE, {0}, lab, a, s) && Sees(Occurring(m), a);
    assert 0 in Below(1);
    if ModelHasAcceptedRun(ArcSet(m), rel, INIT_STATE, {0}, lab, Below(1)) {
      SeenMarksOccur(m, rel, {0}, lab, Below(1));
    }
  }

  lemma ArcSetDescribes<V(!new)>(m: ArcMap<V>, links: seq<Arc<V>>)
    requires forall a :: a in links <==> Describes(m, a)
    ensures ArcSet(m) == set a | a in links
  {
    forall a ensures a in ArcSet(m) <==> a in links {
      assert a in links <==> Describes(m, a);
      assert a == Arc(a.src, a.lab, a.dst);
      if Describes(m, a) {
        var p := (a.src, a.dst);
        assert p in m[a.lab];
        assert Arc(p.0, a.lab, p.1) in ArcSet(m);
      }
    }
  }

  lemma AccInAll<S(!new), V(!new)>(m: ArcMap<V>, rel: Rel<S>, lab: S -> V, all: Rel<(int, S)>, acc: map<nat, Rel<(int, S)>>)
    requires AllFor(m, m.Keys, rel, lab, all) && AccFor(m, m.Keys, rel, lab, acc)
    ensures forall i :: i in acc ==> acc[i] <= all
  {
    forall i, e | i in acc && e in acc[i] ensures e in all {
      assert InLabelsWith(m, m.Keys, rel, lab, i, e);
      assert InLabels(m, m.Keys, rel, lab, e);
    }
  }

  /** The marks on the given arcs. */
  ghost function MarksOn<V(!new)>(links: seq<Arc<V>>): (r: set<nat>) {
    set a, i | a in links && i in a.lab.acc :: i
  }

  /** `fs_model_check`: load the automaton, build the product, run either variant of the check. */
  method FsModelCheck<S(==, !new), V(==, !new)>(links: seq<Arc<V>>, rel: Rel<S>, init: set<S>, lab: S -> V, isOWCTY: bool)
      returns (accepting: bool)
    ensures accepting <==> ModelHasAcceptedRun((set a | a in links), rel, INIT_STATE, init, lab, MarksOn(links))
  {
    var tgba := new TgbaType(links);
    var fs := new FsltlModel(rel, init, lab, true, tgba);
    var ok := fs.BuildComposedSystem();
    ghost var m := tgba.arcs;
    ArcSetDescribes(m, links);
    OccurringInLinks(m, links);
    if ok {
      AccInAll(m, rel, lab, fs.allTrans, fs.accToTrans);
    }
    var div := fs.FindScc(isOWCTY);
    if ok {
      FoundIffModelRun(m, rel, init, lab, fs.allTrans, fs.accToTrans, div);
    }
    accepting := div != {};
  }

  lemma OccurringInLinks<V(!new)>(m: ArcMap<V>, links: seq<Arc<V>>)
    requires ArcSet(m) == set a | a in links
    requires forall l :: l in m ==> m[l] != []
    ensures Occurring(m) == MarksOn(links)
  {
    forall i: nat ensures i in Occurring(m) <==> i in MarksOn(links) {
      if i in Occurring(m) {
        var l :| l in m && i in l.acc;
        var p := m[l][0];
        var a := Arc(p.0, l, p.1);
        assert a in ArcSet(m);
        assert i in a.lab.acc;
      }
      if i in MarksOn(links) {
        var a :| a in links && i in a.lab.acc;
        assert a in ArcSet(m);
        assert a.lab in m;
      }
    }
  }
}
