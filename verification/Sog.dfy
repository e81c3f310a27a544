/** The symbolic observation graph (LTL/src/sogstate.cpp, sogsucciter.cpp, sogtgba.cpp, apiterator.hh).

    A valuation of the `size` observed propositions is a number below 2^size, the cube the iterator
    counts through. An aggregate gathers the states reached while one valuation lasts. Main results:
    a finite word labels a path of the graph exactly when it is the stutter-reduced label word of a
    model path; an aggregate offers the divergence successor exactly when a matching model run can
    keep its valuation forever; and an infinite word labels the graph exactly when some infinite
    model run has it as its stutter-reduced label word. */
module Sog {
  import opened Graphs
  import opened Buchi
  import opened SogIts

  function Pow2(n: nat): (r: nat)
    ensures r > 0
  {
    if n == 0 then 1 else 2 * Pow2(n - 1)
  }

  datatype Model<!S(==)> = Model(rel: Rel<S>, init: set<S>, lab: S -> nat, size: nat)

  /** Labels are valuations of the observed propositions. */
  ghost predicate Labelled<S(!new)>(m: Model<S>) {
    forall s :: m.lab(s) < Pow2(m.size)
  }

  datatype SogState<S(==)> = SogState(states: set<S>, div: bool, succ: set<S>, cond: nat)
  datatype Target<S(==)> = Div(cond: nat) | Agg(state: SogState<S>)

  ghost function Saturate<S(!new)>(m: Model<S>, entry: set<S>, v: nat): set<S> {
    ReachSet(GuardDst(m.rel, m.lab, {v}), Select(m.lab, entry, {v}))
  }

  ghost function StateOf<S(!new)>(m: Model<S>, entry: set<S>, v: nat): SogState<S> {
    var states := Saturate(m, entry, v);
    SogState(states, Divergent(m.rel, m.lab, states, {v}) != {}, SelectNot(m.lab, Post(m.rel, states), {v}), v)
  }

  /** The aggregate constructor. */
  method MakeSogState<S(==, !new)>(m: Model<S>, entry: set<S>, ap: nat) returns (r: SogState<S>)
    ensures r == StateOf(m, entry, ap)
  {
    var states := LeastPostTestFixpoint(m.rel, m.lab, entry, {ap});
    var d := GetDivergent(m.rel, m.lab, states, {ap});
    var succ := SelectNot(m.lab, Post(m.rel, states), {ap});
    r := SogState(states, d != {}, succ, ap);
  }

  // ---------------------------------------------------------------- enumeration of cubes

  /** The cubes from `lo` up to but not including `hi`, in increasing order. */
  ghost function Cubes(lo: nat, hi: nat): (r: seq<nat>)
    ensures |r| == (if lo < hi then hi - lo else 0) && forall k :: 0 <= k < |r| ==> r[k] == lo + k
    decreases hi - lo
  {
    if lo >= hi then [] else [lo] + Cubes(lo + 1, hi)
  }

  /** Counts through the cubes of `size` propositions; with none, through the single cube `true`. */
  class ApIterator {
    const size: nat
    var cur: nat
    var last: bool

    /** The cubes still to come, the current one first. */
    ghost function ToCome(): (r: seq<nat>)
      reads this
    {
      if last then [] else Cubes(cur, Pow2(size))
    }

    constructor (size: nat)
      ensures this.size == size && ToCome() == [] && last && cur < Pow2(size)
    {
      this.size := size;
      cur := Pow2(size) - 1;
      last := true;
    }

    method First()
      modifies this
      ensures ToCome() == Cubes(0, Pow2(size)) && !last && cur == ToCome()[0]
    {
      last := false;
      cur := 0;
    }

    method Next()
      requires !last && cur < Pow2(size)
      modifies this
      ensures ToCome() == old(ToCome())[1..] && cur < Pow2(size)
      ensures last <==> ToCome() == []
      ensures !last ==> cur == ToCome()[0]
    {
      if cur == Pow2(size) - 1 {
        last := true;
      } else {
        cur := cur + 1;
      }
    }
  }

  // ---------------------------------------------------------------- successors of an aggregate

  /** The non-empty aggregates entered from `succ`, for the cubes from `v` on. */
  ghost function AggsFrom<S(!new)>(m: Model<S>, succ: set<S>, v: nat): seq<Target<S>>
    decreases Pow2(m.size) - v
  {
    if v >= Pow2(m.size) then []
    else
      var s := StateOf(m, succ, v);
      (if s.states != {} then [Agg(s)] else []) + AggsFrom(m, succ, v + 1)
  }

  /** Divergence first, then one aggregate for each valuation that can follow. */
  ghost function Successors<S(!new)>(m: Model<S>, from: SogState<S>): seq<Target<S>> {
    (if from.div then [Div(from.cond)] else []) + AggsFrom(m, from.succ, 0)
  }

  class SogSuccIterator<S(==, !new)> {
    const m: Model<S>
    const from: SogState<S>
    const it: ApIterator
    var divNeedsVisit: bool
    var currentSucc: SogState<S>

    ghost predicate Fixed()
      reads this, it
    {
      it.size == m.size && it.cur < Pow2(it.size)
    }

    ghost predicate Valid()
      reads this, it
    {
      && Fixed()
      && (!it.last ==> currentSucc == StateOf(m, from.succ, it.cur) && currentSucc.states != {})
      && (divNeedsVisit ==> from.div)
    }

    /** What is still to be visited, the current successor first. */
    ghost function Remaining(): seq<Target<S>>
      reads this, it
    {
      (if divNeedsVisit then [Div(from.cond)] else []) + (if it.last then [] else AggsFrom(m, from.succ, it.cur))
    }

    constructor (m: Model<S>, from: SogState<S>)
      ensures Valid() && this.m == m && this.from == from && Remaining() == [] && !divNeedsVisit
      ensures fresh(it)
    {
      this.m, this.from := m, from;
      it := new ApIterator(m.size);
      divNeedsVisit := false;
      currentSucc := from;
    }

    /** Advance to the next cube with a non-empty aggregate. */
    method Step()
      requires Fixed() && (divNeedsVisit ==> from.div)
      modifies it, `currentSucc
      ensures Valid() && Remaining() == old(Remaining())
    {
      hide StateOf, Successors;
      ghost var aggs := if it.last then [] else AggsFrom(m, from.succ, it.cur);
      while !it.last
        invariant Fixed() && aggs == if it.last then [] else AggsFrom(m, from.succ, it.cur)
        decreases !it.last, Pow2(it.size) - it.cur
      {
        var s := MakeSogState(m, from.succ, it.cur);
        if s.states != {} {
          currentSucc := s;
          return;
        }
        EndOfCubes(m, from.succ, it.cur);
        it.Next();
      }
    }

    method First() returns (some: bool)
      requires Fixed() && !divNeedsVisit
      modifies this, it
      ensures Valid() && Remaining() == Successors(m, from)
      ensures some <==> !Done()
    {
      if from.div {
        divNeedsVisit := true;
      }
      it.First();
      Step();
      some := !Done();
    }

    method Next() returns (some: bool)
      requires Valid() && !Done()
      modifies this, it
      ensures Valid() && Remaining() == old(Remaining())[1..]
      ensures some <==> !Done()
    {
      hide StateOf, Pow2, AggsFrom;
      if divNeedsVisit {
        divNeedsVisit := false;
        some := !Done();
        return;
      }
      EndOfCubes(m, from.succ, it.cur);
      FirstAgg(m, from.succ, it.cur);
      it.Next();
      Step();
      some := !Done();
    }

    predicate Done()
      reads this, it
    {
      it.last && !divNeedsVisit
    }

    /** The current successor is the head of what remains. */
    function Dst(): (r: Target<S>)
      reads this, it
      requires Valid() && !Done()
      ensures Remaining() != [] && r == Remaining()[0]
    {
      if !divNeedsVisit then Agg(currentSucc) else Div(from.cond)
    }
  }

  lemma EndOfCubes<S(!new)>(m: Model<S>, succ: set<S>, v: nat)
    requires v < Pow2(m.size)
    ensures v + 1 == Pow2(m.size) ==> AggsFrom(m, succ, v + 1) == []
  {
  }

  lemma FirstAgg<S(!new)>(m: Model<S>, succ: set<S>, v: nat)
    requires v < Pow2(m.size) && StateOf(m, succ, v).states != {}
    ensures AggsFrom(m, succ, v) != [] && AggsFrom(m, succ, v)[1..] == AggsFrom(m, succ, v + 1)
  {
    hide StateOf, Pow2;
  }

  lemma {:induction false} AggsFromHas<S(!new)>(m: Model<S>, succ: set<S>, v: nat, t: Target<S>)
    ensures t in AggsFrom(m, succ, v) <==>
      t.Agg? && v <= t.state.cond < Pow2(m.size) && t.state == StateOf(m, succ, t.state.cond) && t.state.states != {}
    decreases Pow2(m.size) - v
  {
    hide StateOf;
    if v < Pow2(m.size) {
      AggsFromHas(m, succ, v + 1, t);
      assert StateOf(m, succ, v).cond == v by { StateOfCond(m, succ, v); }
    }
  }

  /** The aggregates an aggregate leads to: one for each valuation its exits can enter. */
  lemma AggSuccessor<S(!new)>(m: Model<S>, from: SogState<S>, t: SogState<S>)
    ensures Agg(t) in Successors(m, from) <==>
      t.cond < Pow2(m.size) && t == StateOf(m, from.succ, t.cond) && t.states != {}
  {
    AggsFromHas(m, from.succ, 0, Agg(t));
  }

  /** The divergence successor is offered exactly by divergent aggregates. */
  lemma DivSuccessor<S(!new)>(m: Model<S>, from: SogState<S>, v: nat)
    ensures Div(v) in Successors(m, from) <==> from.div && v == from.cond
  {
    AggsFromHas(m, from.succ, 0, Div(v));
  }

  lemma StateOfCond<S(!new)>(m: Model<S>, succ: set<S>, v: nat)
    ensures StateOf(m, succ, v).cond == v && StateOf(m, succ, v).states == Saturate(m, succ, v)
    ensures StateOf(m, succ, v).succ == SelectNot(m.lab, Post(m.rel, Saturate(m, succ, v)), {v})
    ensures StateOf(m, succ, v).div <==> Divergent(m.rel, m.lab, Saturate(m, succ, v), {v}) != {}
  {
  }

  /** Each successor valuation is offered once, in increasing order. */
  lemma {:induction false} AggsFromSorted<S(!new)>(m: Model<S>, succ: set<S>, v: nat, i: nat, j: nat)
    requires i < j < |AggsFrom(m, succ, v)|
    ensures AggsFrom(m, succ, v)[i].Agg? && AggsFrom(m, succ, v)[j].Agg?
    ensures v <= AggsFrom(m, succ, v)[i].state.cond < AggsFrom(m, succ, v)[j].state.cond
    decreases Pow2(m.size) - v
  {
    hide StateOf;
    var s, rest := StateOf(m, succ, v), AggsFrom(m, succ, v + 1);
    StateOfCond(m, succ, v);
    if s.states == {} {
      AggsFromSorted(m, succ, v + 1, i, j);
    } else if i > 0 {
      AggsFromSorted(m, succ, v + 1, i - 1, j - 1);
    } else {
      AggsFromHas(m, succ, v + 1, rest[j - 1]);
    }
  }

  /** The first cube that some initial state satisfies; the initial aggregate is built for it. */
  method GetInitState<S(==, !new)>(m: Model<S>) returns (r: SogState<S>)
    requires m.init != {} && Labelled(m)
    ensures IsInitState(m, r)
  {
    ghost var some :| some in m.init;
    assert m.lab(some) < Pow2(m.size);
    var it := new ApIterator(m.size);
    it.First();
    while !it.last
      invariant it.size == m.size && it.cur < Pow2(m.size)
      invariant forall s :: s in m.init ==> m.lab(s) >= it.cur + (if it.last then 1 else 0)
      invariant it.last ==> it.cur + 1 == Pow2(m.size)
      decreases !it.last, Pow2(m.size) - it.cur
    {
      var msel := Select(m.lab, m.init, {it.cur});
      if msel != {} {
        r := MakeSogState(m, m.init, it.cur);
        return;
      }
      forall s | s in m.init ensures m.lab(s) != it.cur {
        assert m.lab(s) == it.cur ==> s in msel;
      }
      it.Next();
    }
    assert false;
  }

  ghost predicate LeastLabel<S(!new)>(m: Model<S>, v: nat) {
    (exists s :: s in m.init && m.lab(s) == v) && (forall s :: s in m.init ==> v <= m.lab(s))
  }

  ghost predicate IsInitState<S(!new)>(m: Model<S>, r: SogState<S>) {
    LeastLabel(m, r.cond) && r == StateOf(m, m.init, r.cond)
  }
}
