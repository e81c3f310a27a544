/** Re-encoding a circuit in place (its/aiger/aiger.c, `aiger_is_reencoded` and `aiger_reencode`). */
module AigerReencode {
  import opened AigerNet
  import opened AigerCycles
  import opened AigerNumbering
  import opened AigerCircuit
  import opened AigerRenumbered
  import opened AigerCompact
  import Graphs

  // ---------------------------------------------------------------- numbering the roots

  /** What holds between two calls of `aiger_reencode_lit`. */
  ghost predicate Numbering(c: Circuit, code: seq<nat>, onstack: seq<bool>, next: nat, order: seq<nat>) {
    && Coded(code, |c.types|, order) && next == NextCode(order)
    && Topological(NetOf(c), order) && LeavesCoded(NetOf(c), order)
    && |onstack| >= |c.types| && (forall v :: 0 <= v < |onstack| ==> !onstack[v])
  }

  /** Only gates of the cone were added. */
  ghost predicate Grown(c: Circuit, from: seq<nat>, to: seq<nat>) {
    from <= to && forall k: nat {:trigger to[k]} :: |from| <= k < |to| ==> IsGate(NetOf(c), to[k]) && InCone(c, to[k])
  }

  lemma GrownSelf(c: Circuit, order: seq<nat>)
    ensures Grown(c, order, order)
  {
  }

  lemma GrownMore(c: Circuit, a: seq<nat>, b: seq<nat>, d: seq<nat>)
    requires Grown(c, a, b) && Grown(c, b, d)
    ensures Grown(c, a, d) && b <= d
  {
    forall k: nat | |a| <= k < |d| ensures IsGate(NetOf(c), d[k]) && InCone(c, d[k]) {
      if k < |b| { assert d[k] == b[k]; }
    }
  }

  lemma ExtendsGrown(c: Circuit, lit: nat, from: seq<nat>, to: seq<nat>)
    requires Root(c, lit) && Extends(NetOf(c), Lit2Var(lit), from, to) && LeavesCoded(NetOf(c), from)
    ensures Grown(c, from, to) && LeavesCoded(NetOf(c), to)
  {
  }

  method ReencodeRoot(net: Net, lit: nat, next0: nat, code: array<nat>, onstack: array<bool>,
                      ghost c: Circuit, ghost order0: seq<nat>)
      returns (res: nat, next: nat, ghost order: seq<nat>)
    requires net == NetOf(c) && CheckedCircuit(c) && Root(c, lit)
    requires Numbering(c, code[..], onstack[..], next0, order0)
    modifies code, onstack
    ensures Numbering(c, code[..], onstack[..], next, order) && Grown(c, order0, order)
    ensures Known(order, lit) && res == CodeOf(order, lit)
  {
    hide Coded, Topological, LeavesCoded, Root, TablesMatch, Cyclic;
    CheckedNet(c);
    AcyclicHasRank(net);
    res, next, order := ReencodeLit(net, lit, next0, code, onstack, order0, Rank(net));
    ExtendsGrown(c, lit, order0, order);
    CodedMeans(code[..], |c.types|, order, lit);
  }

  /** A list of literals replaced by their codes. */
  method ReencodeLits(net: Net, lits: seq<nat>, next0: nat, code: array<nat>, onstack: array<bool>,
                      ghost c: Circuit, ghost order0: seq<nat>)
      returns (res: seq<nat>, next: nat, ghost order: seq<nat>)
    requires net == NetOf(c) && CheckedCircuit(c) && forall i :: 0 <= i < |lits| ==> Root(c, lits[i])
    requires Numbering(c, code[..], onstack[..], next0, order0)
    modifies code, onstack
    ensures Numbering(c, code[..], onstack[..], next, order) && Grown(c, order0, order)
    ensures AllKnown(order, lits) && res == Translated(order, lits)
  {
    hide Numbering, CheckedCircuit, Grown, Root;
    res, next, order := lits, next0, order0;
    GrownSelf(c, order0);
    var i := 0;
    while i < |res|
      invariant 0 <= i <= |res| == |lits|
      invariant Numbering(c, code[..], onstack[..], next, order) && Grown(c, order0, order)
      invariant AllKnown(order, lits[..i]) && res[..i] == Translated(order, lits[..i]) && res[i..] == lits[i..]
    {
      ghost var before, was := order, res;
      var lit: nat;
      assert res[i] == lits[i] by { assert res[i..][0] == lits[i..][0]; }
      lit, next, order := ReencodeRoot(net, res[i], next, code, onstack, c, order);
      GrownMore(c, order0, before, order);
      res := res[i := lit];
      TranslatedMore(before, order, lits, i);
      assert res[..i + 1] == was[..i] + [lit];
      assert res[i + 1..] == was[i..][1..] == lits[i..][1..] == lits[i + 1..];
      i := i + 1;
    }
    assert lits[..i] == lits;
    assert res[..i] == res;
  }

  ghost predicate AllKnown(order: seq<nat>, lits: seq<nat>) {
    forall i {:trigger lits[i]} :: 0 <= i < |lits| ==> Known(order, lits[i])
  }

  /** Codes given earlier stay. */
  lemma TranslatedPrefix(order: seq<nat>, order': seq<nat>, lits: seq<nat>)
    requires order <= order' && AllKnown(order, lits)
    ensures AllKnown(order', lits) && Translated(order', lits) == Translated(order, lits)
  {
    forall i | 0 <= i < |lits| ensures Known(order', lits[i]) && CodeOf(order', lits[i]) == CodeOf(order, lits[i]) {
      CodePrefix(order, order', lits[i]);
    }
  }

  lemma TranslatedMore(order: seq<nat>, order': seq<nat>, lits: seq<nat>, i: nat)
    requires order <= order' && i < |lits| && AllKnown(order, lits[..i]) && Known(order', lits[i])
    ensures AllKnown(order', lits[..i + 1])
    ensures Translated(order', lits[..i + 1]) == Translated(order, lits[..i]) + [CodeOf(order', lits[i])]
  {
    TranslatedPrefix(order, order', lits[..i]);
    assert lits[..i + 1] == lits[..i] + [lits[i]];
  }

  /** Next and reset literals of the first `n` latches replaced by their codes. */
  ghost predicate LatchesDone(c: Circuit, order: seq<nat>, ls: seq<Latch>, n: nat) {
    |ls| == |c.latches| && n <= |ls|
    && (forall i {:trigger ls[i]} :: 0 <= i < n ==> LatchDone(order, c.latches[i], ls[i]))
    && (forall i {:trigger ls[i]} :: n <= i < |ls| ==> ls[i] == c.latches[i])
  }

  ghost predicate LatchDone(order: seq<nat>, was: Latch, l: Latch) {
    && Known(order, was.next) && Known(order, was.reset)
    && l == Latch(was.lit, CodeOf(order, was.next), CodeOf(order, was.reset))
  }

  lemma LatchesPrefix(c: Circuit, order: seq<nat>, order': seq<nat>, ls: seq<Latch>, n: nat)
    requires order <= order' && LatchesDone(c, order, ls, n)
    ensures LatchesDone(c, order', ls, n)
  {
    forall i | 0 <= i < n ensures LatchDone(order', c.latches[i], ls[i]) {
      assert LatchDone(order, c.latches[i], ls[i]);
      CodePrefix(order, order', c.latches[i].next);
      CodePrefix(order, order', c.latches[i].reset);
    }
  }

  lemma LatchTodo(c: Circuit, order: seq<nat>, ls: seq<Latch>, i: nat)
    requires LatchesDone(c, order, ls, i) && i < |ls|
    ensures i < |c.latches| && ls[i] == c.latches[i] && Root(c, ls[i].next) && Root(c, ls[i].reset)
  {
  }

  lemma LatchLits(c: Circuit, order: seq<nat>, ls: seq<Latch>)
    requires LatchesDone(c, order, ls, |ls|)
    ensures |ls| == |c.latches| && forall i {:trigger ls[i]} :: 0 <= i < |ls| ==> ls[i].lit == c.latches[i].lit
  {
    forall i | 0 <= i < |ls| ensures ls[i].lit == c.latches[i].lit {
      assert LatchDone(order, c.latches[i], ls[i]);
    }
  }

  lemma LatchesMore(c: Circuit, order: seq<nat>, was: seq<Latch>, ls: seq<Latch>, i: nat)
    requires LatchesDone(c, order, was, i) && i < |c.latches| == |was| == |ls|
    requires Known(order, c.latches[i].next) && Known(order, c.latches[i].reset)
    requires var l := c.latches[i]; ls == was[i := Latch(l.lit, CodeOf(order, l.next), CodeOf(order, l.reset))]
    ensures LatchesDone(c, order, ls, i + 1)
  {
    hide Known, CodeOf;
    assert LatchDone(order, c.latches[i], ls[i]);
    forall k | 0 <= k < i + 1 ensures LatchDone(order, c.latches[k], ls[k]) {
      if k < i { assert ls[k] == was[k]; }
    }
  }

  ghost predicate ListsDone(order: seq<nat>, was: seq<seq<nat>>, now: seq<seq<nat>>, n: nat) {
    |now| == |was| && n <= |was|
    && (forall j {:trigger now[j]} :: 0 <= j < n ==> AllKnown(order, was[j]) && now[j] == Translated(order, was[j]))
    && (forall j {:trigger now[j]} :: n <= j < |was| ==> now[j] == was[j])
  }

  lemma ListsPrefix(order: seq<nat>, order': seq<nat>, was: seq<seq<nat>>, now: seq<seq<nat>>, n: nat)
    requires order <= order' && ListsDone(order, was, now, n)
    ensures ListsDone(order', was, now, n)
  {
    forall j | 0 <= j < n ensures AllKnown(order', was[j]) && now[j] == Translated(order', was[j]) {
      assert now[j] == Translated(order, was[j]);
      TranslatedPrefix(order, order', was[j]);
    }
  }

  lemma ListsMore(order: seq<nat>, was: seq<seq<nat>>, now: seq<seq<nat>>, j: nat, lits: seq<nat>)
    requires ListsDone(order, was, now, j) && j < |was| && AllKnown(order, was[j]) && lits == Translated(order, was[j])
    ensures ListsDone(order, was, now[j := lits], j + 1)
  {
    hide AllKnown;
    var next := now[j := lits];
    forall i | 0 <= i < j + 1 ensures AllKnown(order, was[i]) && next[i] == Translated(order, was[i]) {
      if i < j { assert next[i] == now[i]; }
    }
  }

  /** Every literal the circuit names replaced by its code; inputs, latches and gates as they were. */
  ghost predicate RootsDone(c: Circuit, d: Circuit, order: seq<nat>) {
    && LatchesDone(c, order, d.latches, |d.latches|)
    && AllKnown(order, c.outputs) && d.outputs == Translated(order, c.outputs)
    && AllKnown(order, c.bad) && d.bad == Translated(order, c.bad)
    && AllKnown(order, c.constraints) && d.constraints == Translated(order, c.constraints)
    && ListsDone(order, c.justice, d.justice, |c.justice|)
    && AllKnown(order, c.fairness) && d.fairness == Translated(order, c.fairness)
    && d.maxvar == c.maxvar && d.inputs == c.inputs && d.ands == c.ands && d.types == c.types
  }

  lemma RootsGathered(c: Circuit, d: Circuit, order: seq<nat>)
    requires LatchesDone(c, order, d.latches, |d.latches|) && ListsDone(order, c.justice, d.justice, |c.justice|)
    requires AllKnown(order, c.outputs) && d.outputs == Translated(order, c.outputs)
    requires AllKnown(order, c.bad) && d.bad == Translated(order, c.bad)
    requires AllKnown(order, c.constraints) && d.constraints == Translated(order, c.constraints)
    requires AllKnown(order, c.fairness) && d.fairness == Translated(order, c.fairness)
    requires d.maxvar == c.maxvar && d.inputs == c.inputs && d.ands == c.ands && d.types == c.types
    ensures RootsDone(c, d, order)
  {
  }

  lemma RootsKnown(c: Circuit, d: Circuit, order: seq<nat>, lit: nat)
    requires RootsDone(c, d, order) && Root(c, lit)
    ensures Known(order, lit)
  {
    if i :| 0 <= i < |c.latches| && (lit == c.latches[i].next || lit == c.latches[i].reset) {
      assert LatchDone(order, c.latches[i], d.latches[i]);
    } else if j :| 0 <= j < |c.justice| && lit in c.justice[j] {
      assert d.justice[j] == Translated(order, c.justice[j]);
    }
  }

  lemma NamedLists(c: Circuit)
    ensures forall i {:trigger c.outputs[i]} :: 0 <= i < |c.outputs| ==> Root(c, c.outputs[i])
    ensures forall i {:trigger c.bad[i]} :: 0 <= i < |c.bad| ==> Root(c, c.bad[i])
    ensures forall i {:trigger c.constraints[i]} :: 0 <= i < |c.constraints| ==> Root(c, c.constraints[i])
    ensures forall i {:trigger c.fairness[i]} :: 0 <= i < |c.fairness| ==> Root(c, c.fairness[i])
  {
  }

  // ---------------------------------------------------------------- numbering the leaves

  lemma CheckedTables(c: Circuit)
    requires CheckedCircuit(c)
    ensures TablesMatch(c) && |c.types| == c.maxvar + 1 && c.types[0] == UNUSED
  {
  }

  lemma NothingCoded(code: seq<nat>, n: nat)
    requires n > 0 && |code| == 2 * n && code[1] == 1 && forall k :: 0 <= k < |code| && k != 1 ==> code[k] == 0
    ensures Coded(code, n, [])
  {
  }

  /** The variables of the inputs, then of the latches. */
  ghost function Leaves(c: Circuit): (r: seq<nat>)
    ensures |r| == |c.inputs| + |c.latches|
  {
    seq(|c.inputs|, i requires 0 <= i < |c.inputs| => Lit2Var(c.inputs[i])) +
    seq(|c.latches|, i requires 0 <= i < |c.latches| => Lit2Var(c.latches[i].lit))
  }

  lemma LeafAt(c: Circuit, k: nat)
    requires TablesMatch(c) && k < |Leaves(c)|
    ensures 0 < Leaves(c)[k] < |c.types|
    ensures c.types[Leaves(c)[k]] == if k < |c.inputs| then InputType(k) else LatchType(k - |c.inputs|)
    ensures k < |c.inputs| ==> c.inputs[k] == Var2Lit(Leaves(c)[k])
    ensures k >= |c.inputs| ==> c.latches[k - |c.inputs|].lit == Var2Lit(Leaves(c)[k])
  {
    if k < |c.inputs| {
      assert Owns(c, c.inputs[k], InputType(k));
    } else {
      assert Owns(c, c.latches[k - |c.inputs|].lit, LatchType(k - |c.inputs|));
    }
  }

  lemma LeafNew(c: Circuit, k: nat)
    requires TablesMatch(c) && k < |Leaves(c)|
    ensures Leaves(c)[k] !in Leaves(c)[..k]
  {
    LeafAt(c, k);
    forall j: nat | j < k ensures Leaves(c)[j] != Leaves(c)[k] {
      LeafAt(c, j);
    }
  }

  lemma LeavesReady(c: Circuit)
    requires CheckedCircuit(c)
    ensures Topological(NetOf(c), Leaves(c)) && LeavesCoded(NetOf(c), Leaves(c))
  {
    hide Cyclic, Root, Leaves;
    forall k: nat | k < |Leaves(c)| ensures OperandsBefore(NetOf(c), Leaves(c), k) {
      LeafAt(c, k);
    }
    forall v | 0 < v < |c.types| && (c.types[v].input || c.types[v].latch) ensures v in Leaves(c) {
      assert TypeOk(c, v);
      LeafAt(c, if c.types[v].input then c.types[v].idx else |c.inputs| + c.types[v].idx);
    }
  }

  // ---------------------------------------------------------------- the gate table

  lemma NothingKept(order: seq<nat>)
    ensures Kept([], order) == []
  {
  }

  lemma NewGateIs(order: seq<nat>, g: And, h: And)
    requires h.lhs == CodeOf(order, g.lhs) && h.rhs1 <= h.rhs0
    requires || (h.rhs0 == CodeOf(order, g.rhs0) && h.rhs1 == CodeOf(order, g.rhs1))
             || (h.rhs0 == CodeOf(order, g.rhs1) && h.rhs1 == CodeOf(order, g.rhs0))
    ensures h == NewGate(order, g)
  {
  }

  lemma KeptMore(ands: seq<And>, order: seq<nat>, i: nat)
    requires i < |ands|
    ensures Kept(ands[..i + 1], order) == Kept(ands[..i], order) + if Known(order, ands[i].lhs) then [NewGate(order, ands[i])] else []
  {
    assert ands[..i + 1][..i] == ands[..i];
  }

  /** A gate has a code when it is kept, and then so have its operands. */
  lemma CodeOfGate(c: Circuit, code: seq<nat>, order: seq<nat>, i: nat)
    requires CheckedCircuit(c) && OrderOk(c, order) && Coded(code, |c.types|, order) && i < |c.ands|
    ensures var g := c.ands[i];
      && g.lhs < |code| && (code[g.lhs] != 0 <==> Known(order, g.lhs))
      && (Known(order, g.lhs) ==> code[g.lhs] == CodeOf(order, g.lhs))
      && (Known(order, g.lhs) ==> g.rhs0 < |code| && code[g.rhs0] == CodeOf(order, g.rhs0))
      && (Known(order, g.lhs) ==> g.rhs1 < |code| && code[g.rhs1] == CodeOf(order, g.rhs1))
  {
    hide OrderOk, Cyclic, Root;
    var g := c.ands[i];
    assert Owns(c, g.lhs, AndType(i)) && LitOk(c, g.rhs0) && LitOk(c, g.rhs1);
    CodedVar(code, |c.types|, order, Lit2Var(g.lhs));
    CodedEnds(code, |c.types|, order);
    hide Coded;
    if Known(order, g.lhs) {
      var p := KeptIsNew(c, order, i);
      OperandBelow(c, order, p, g.rhs0);
      OperandBelow(c, order, p, g.rhs1);
      CodedMeans(code, |c.types|, order, g.lhs);
      CodedMeans(code, |c.types|, order, g.rhs0);
      CodedMeans(code, |c.types|, order, g.rhs1);
    }
  }

  /** Inputs and latches are numbered consecutively. */
  lemma LeafCode(c: Circuit, code: seq<nat>, order: seq<nat>, k: nat)
    requires CheckedCircuit(c) && OrderOk(c, order) && Coded(code, |c.types|, order) && k < |c.inputs| + |c.latches|
    ensures var lit := if k < |c.inputs| then c.inputs[k] else c.latches[k - |c.inputs|].lit;
      lit < |code| && code[lit] == CodeOf(order, lit) == 2 * (k + 1)
  {
    hide Cyclic, Root, Topological;
    var lit := if k < |c.inputs| then c.inputs[k] else c.latches[k - |c.inputs|].lit;
    LeafAt(c, k);
    assert order[k] == Lit2Var(lit);
    IndexIs(order, k);
    CodedEnds(code, |c.types|, order);
    CodedMeans(code, |c.types|, order, lit);
  }

  // ---------------------------------------------------------------- putting the tables together

  lemma DistinctBounded(s: seq<nat>, n: nat)
    requires forall i, j :: 0 <= i < j < |s| ==> s[i] != s[j]
    requires forall i {:trigger s[i]} :: 0 <= i < |s| ==> 0 < s[i] < n
    ensures |s| == 0 || |s| < n
  {
    if |s| > 0 && |s| >= n {
      BelowSize(n);
      forall i | 0 <= i < |s + [0]| ensures (s + [0])[i] in Graphs.Below(n) {
        if i < |s| { assert (s + [0])[i] == s[i]; } else { assert 0 < s[0] < n; }
      }
      assert forall i, j :: 0 <= i < j < |s + [0]| ==> (s + [0])[i] != (s + [0])[j];
      var i, j := Graphs.Pigeonhole(Graphs.Below(n), s + [0]);
      assert false;
    }
  }

  lemma {:induction false} BelowSize(n: nat)
    ensures |Graphs.Below(n)| == n
  {
    if n > 0 { BelowSize(n - 1); }
  }

  /** The order the roots leave is a good one and fits under the old maximum. */
  lemma NumberedOrder(c: Circuit, e: Circuit, code: seq<nat>, onstack: seq<bool>, next: nat, order: seq<nat>)
    requires CheckedCircuit(c) && Numbering(c, code, onstack, next, order) && Grown(c, Leaves(c), order) && RootsDone(c, e, order)
    ensures OrderOk(c, order) && ConeOk(c, order) && Coded(code, |c.types|, order) && next == NextCode(order)
    ensures |order| <= c.maxvar && |c.types| == c.maxvar + 1
  {
    hide Cyclic, Coded, Topological, LeavesCoded, Known, InCone, Child, RootsDone, Root, Below;
    forall lit | Root(c, lit) ensures Known(order, lit) {
      RootsKnown(c, e, order, lit);
    }
    forall j, k | 0 <= j < k < |order| ensures order[j] != order[k] {
      CodedDistinct(code, |c.types|, order, j, k);
    }
    forall k | 0 <= k < |Leaves(c)| ensures order[k] == Leaves(c)[k] {
    }
    forall k: nat | k < |order| ensures 0 < order[k] < |c.types| {
      CodedRange(code, |c.types|, order, k);
    }
    DistinctBounded(order, |c.types|);
  }

  lemma CodedRange(code: seq<nat>, n: nat, order: seq<nat>, k: nat)
    requires Coded(code, n, order) && k < |order|
    ensures 0 < order[k] < n
  {
    assert CodedAt(code, n, order, k);
  }

  lemma NewTable(c: Circuit, order: seq<nat>, r: seq<And>)
    requires CheckedCircuit(c) && OrderOk(c, order) && r == NewAnds(c, order)
    ensures |r| == |order| - |c.inputs| - |c.latches|
    ensures forall k {:trigger r[k]} :: 0 <= k < |r| ==> r[k].lhs == 2 * (|c.inputs| + |c.latches| + k + 1)
  {
    hide CheckedCircuit, Topological, NewGate;
    forall k | 0 <= k < |r| ensures r[k].lhs == 2 * (|c.inputs| + |c.latches| + k + 1) {
      NewLhs(c, order, |c.inputs| + |c.latches| + k);
    }
  }

  /** `e` is the circuit after its roots, `d` after its gates, inputs and latches. */
  lemma Rebuilt(c: Circuit, e: Circuit, d: Circuit, order: seq<nat>)
    requires OrderOk(c, order) && ConeOk(c, order) && RootsDone(c, e, order)
    requires d.outputs == e.outputs && d.bad == e.bad && d.constraints == e.constraints && d.justice == e.justice
    requires d.fairness == e.fairness && d.inputs == Translated(order, c.inputs) && |d.latches| == |c.latches|
    requires forall i {:trigger d.latches[i]} :: 0 <= i < |d.latches| ==>
      d.latches[i] == e.latches[i].(lit := CodeOf(order, c.latches[i].lit))
    requires d.ands == NewAnds(c, order) && TypesOk(d)
    ensures Renumbered(c, d, order)
  {
    hide ConeOk, TypesOk, Topological, AllKnown, NewGate, Known, CodeOf;
    forall i | 0 <= i < |c.latches| ensures d.latches[i] == NewLatch(order, c.latches[i]) {
      assert LatchDone(order, c.latches[i], e.latches[i]);
    }
    forall j | 0 <= j < |c.justice| ensures d.justice[j] == Translated(order, c.justice[j]) {
      assert e.justice[j] == Translated(order, c.justice[j]);
    }
  }

  // ---------------------------------------------------------------- the circuit as the library holds it

  class Aiger {
    var maxvar: nat
    var inputs: seq<nat>
    var latches: seq<Latch>
    var outputs: seq<nat>
    var bad: seq<nat>
    var constraints: seq<nat>
    var justice: seq<seq<nat>>
    var fairness: seq<nat>
    var numAnds: nat
    const ands: array<And>
    const types: array<AType>
    const onstack: array<bool>

    /** The library's tables for a circuit. */
    constructor (c: Circuit)
      requires CheckedCircuit(c)
      ensures Valid() && Value() == c && fresh(ands) && fresh(types) && fresh(onstack)
    {
      maxvar, inputs, latches, outputs := c.maxvar, c.inputs, c.latches, c.outputs;
      bad, constraints, justice, fairness := c.bad, c.constraints, c.justice, c.fairness;
      numAnds := |c.ands|;
      ands := new And[|c.ands|](i requires 0 <= i < |c.ands| => c.ands[i]);
      types := new AType[|c.types|](i requires 0 <= i < |c.types| => c.types[i]);
      onstack := new bool[|c.types|](i => false);
      new;
      assert ands[..numAnds] == c.ands && types[..maxvar + 1] == c.types;
    }

    ghost predicate Shaped()
      reads this
    {
      numAnds <= ands.Length && maxvar < types.Length && onstack.Length == types.Length
    }

    /** The circuit in use: the tables up to their counts. */
    ghost function Value(): (c: Circuit)
      requires Shaped()
      reads this, ands, types
    {
      Circuit(maxvar, inputs, latches, outputs, bad, constraints, justice, fairness, ands[..numAnds], types[..maxvar + 1])
    }

    /** A checked circuit with no gate left under exploration. */
    ghost predicate Valid()
      reads this, ands, types, onstack
    {
      Shaped() && CheckedCircuit(Value()) && forall v :: 0 <= v < onstack.Length ==> !onstack[v]
    }

    /** `aiger_is_reencoded`. */
    method IsReencoded() returns (r: bool)
      requires Shaped()
      ensures r <==> Reencoded(Value())
    {
      var max, i := 0, 0;
      while i < |inputs|
        invariant 0 <= i <= |inputs| && max == 2 * i
        invariant forall k :: 0 <= k < i ==> inputs[k] == 2 * (k + 1)
      {
        max := max + 2;
        if max != inputs[i] { return false; }
        i := i + 1;
      }
      i := 0;
      while i < |latches|
        invariant 0 <= i <= |latches| && max == 2 * (|inputs| + i)
        invariant forall k :: 0 <= k < i ==> latches[k].lit == 2 * (|inputs| + k + 1)
      {
        max := max + 2;
        if max != latches[i].lit { return false; }
        i := i + 1;
      }
      ConsecutiveMax(inputs, latches);
      var lhs := MaxInputOrLatch(inputs, latches);
      lhs := lhs + 2;
      i := 0;
      while i < numAnds
        invariant 0 <= i <= numAnds && lhs == max + 2 * (i + 1)
        invariant forall k :: 0 <= k < i ==> ands[k].lhs == max + 2 * (k + 1) && ands[k].rhs1 <= ands[k].rhs0 <= ands[k].lhs
      {
        var and := ands[i];
        assert Value().ands[i] == and;
        if and.lhs <= max { return false; }
        if and.lhs != lhs { return false; }
        if and.lhs < and.rhs0 { return false; }
        if and.rhs0 < and.rhs1 { return false; }
        lhs := lhs + 2;
        i := i + 1;
      }
      r := true;
    }

    /** Inputs and latches take the first codes. */
    method NumberLeaves(code: array<nat>) returns (next: nat, ghost order: seq<nat>)
      requires Valid() && code.Length == 2 * (maxvar + 1)
      requires code[1] == 1 && forall k :: 0 <= k < code.Length && k != 1 ==> code[k] == 0
      modifies code
      ensures order == Leaves(Value()) && Numbering(Value(), code[..], onstack[..], next, order)
    {
      hide CheckedCircuit, Leaves, Coded;
      ghost var c := Value();
      ghost var n := |c.types|;
      CheckedTables(c);
      next, order := 2, [];
      NothingCoded(code[..], n);
      var i := 0;
      while i < |inputs|
        invariant 0 <= i <= |inputs| && order == Leaves(c)[..i]
        invariant Coded(code[..], n, order) && next == NextCode(order)
      {
        LeafAt(c, i);
        LeafNew(c, i);
        next := NewCode(Lit2Var(inputs[i]), next, code, n, order);
        order := order + [Lit2Var(inputs[i])];
        i := i + 1;
      }
      i := 0;
      while i < |latches|
        invariant 0 <= i <= |latches| && order == Leaves(c)[..|inputs| + i]
        invariant Coded(code[..], n, order) && next == NextCode(order)
      {
        LeafAt(c, |inputs| + i);
        LeafNew(c, |inputs| + i);
        next := NewCode(Lit2Var(latches[i].lit), next, code, n, order);
        order := order + [Lit2Var(latches[i].lit)];
        i := i + 1;
      }
      assert order == Leaves(c);
      LeavesReady(c);
    }

    /** Next and reset literals of the latches, in place. */
    method NumberLatches(net: Net, code: array<nat>, next0: nat, ghost c: Circuit, ghost order0: seq<nat>)
        returns (next: nat, ghost order: seq<nat>)
      requires net == NetOf(c) && CheckedCircuit(c) && latches == c.latches
      requires Numbering(c, code[..], onstack[..], next0, order0)
      modifies this`latches, code, onstack
      ensures Numbering(c, code[..], onstack[..], next, order) && Grown(c, order0, order)
      ensures LatchesDone(c, order, latches, |latches|)
    {
      hide Numbering, CheckedCircuit, Grown;
      next, order := next0, order0;
      GrownSelf(c, order0);
      var i := 0;
      while i < |latches|
        invariant 0 <= i <= |latches| && LatchesDone(c, order, latches, i)
        invariant Numbering(c, code[..], onstack[..], next, order) && Grown(c, order0, order)
      {
        hide Root, LatchesDone, Known, LatchDone;
        ghost var before, was := order, latches;
        LatchTodo(c, order, latches, i);
        var lit: nat;
        lit, next, order := ReencodeRoot(net, latches[i].next, next, code, onstack, c, order);
        GrownMore(c, order0, before, order);
        ghost var middle := order;
        latches := latches[i := latches[i].(next := lit)];
        lit, next, order := ReencodeRoot(net, latches[i].reset, next, code, onstack, c, order);
        GrownMore(c, order0, middle, order);
        latches := latches[i := latches[i].(reset := lit)];
        LatchesPrefix(c, before, order, was, i);
        CodePrefix(middle, order, c.latches[i].next);
        LatchesMore(c, order, was, latches, i);
        i := i + 1;
      }
    }

    /** Justice lists, in place. */
    method NumberJustice(net: Net, code: array<nat>, next0: nat, ghost c: Circuit, ghost order0: seq<nat>)
        returns (next: nat, ghost order: seq<nat>)
      requires net == NetOf(c) && CheckedCircuit(c) && justice == c.justice
      requires Numbering(c, code[..], onstack[..], next0, order0)
      modifies this`justice, code, onstack
      ensures Numbering(c, code[..], onstack[..], next, order) && Grown(c, order0, order)
      ensures ListsDone(order, c.justice, justice, |c.justice|)
    {
      hide Numbering, CheckedCircuit, Grown, AllKnown, Translated;
      next, order := next0, order0;
      GrownSelf(c, order0);
      var j := 0;
      while j < |justice|
        invariant 0 <= j <= |justice| && ListsDone(order, c.justice, justice, j)
        invariant Numbering(c, code[..], onstack[..], next, order) && Grown(c, order0, order)
      {
        ghost var before, was := order, justice;
        var lits: seq<nat>;
        assert justice[j] == c.justice[j];
        lits, next, order := ReencodeLits(net, justice[j], next, code, onstack, c, order);
        GrownMore(c, order0, before, order);
        ListsPrefix(before, order, c.justice, was, j);
        ListsMore(order, c.justice, was, j, lits);
        justice := justice[j := lits];
        j := j + 1;
      }
    }

    /** Every named literal of the circuit, in the order of the tables. */
    method NumberRoots(net: Net, code: array<nat>, next0: nat, ghost c: Circuit, ghost order0: seq<nat>)
        returns (next: nat, ghost order: seq<nat>)
      requires Shaped() && c == Value() && net == NetOf(c) && CheckedCircuit(c)
      requires Numbering(c, code[..], onstack[..], next0, order0)
      modifies this`latches, this`outputs, this`bad, this`constraints, this`justice, this`fairness, code, onstack
      ensures Numbering(c, code[..], onstack[..], next, order) && Grown(c, order0, order)
      ensures RootsDone(c, Value(), order)
    {
      hide Numbering, CheckedCircuit, Grown, LatchesDone, ListsDone, AllKnown, Root, Translated, RootsDone;
      NamedLists(c);
      ghost var o0, o1, o2, o3, o4: seq<nat>;
      next, o0 := NumberLatches(net, code, next0, c, order0);
      outputs, next, o1 := ReencodeLits(net, outputs, next, code, onstack, c, o0);
      bad, next, o2 := ReencodeLits(net, bad, next, code, onstack, c, o1);
      constraints, next, o3 := ReencodeLits(net, constraints, next, code, onstack, c, o2);
      next, o4 := NumberJustice(net, code, next, c, o3);
      fairness, next, order := ReencodeLits(net, fairness, next, code, onstack, c, o4);
      GrownMore(c, order0, o0, o1);
      GrownMore(c, order0, o1, o2);
      GrownMore(c, order0, o2, o3);
      GrownMore(c, order0, o3, o4);
      GrownMore(c, order0, o4, order);
      LatchesPrefix(c, o0, order, latches, |latches|);
      TranslatedPrefix(o1, order, c.outputs);
      TranslatedPrefix(o2, order, c.bad);
      TranslatedPrefix(o3, order, c.constraints);
      ListsPrefix(o4, order, c.justice, justice, |c.justice|);
      RootsGathered(c, Value(), order);
    }

    /** Drop gates without a code, in place, and translate the others. */
    method DropGates(code: array<nat>, ghost c: Circuit, ghost order: seq<nat>)
      requires numAnds <= ands.Length && ands[..numAnds] == c.ands && CheckedCircuit(c) && OrderOk(c, order)
      requires Coded(code[..], |c.types|, order)
      modifies this`numAnds, ands
      ensures numAnds <= old(numAnds) && ands[..numAnds] == Kept(c.ands, order)
    {
      hide Coded, CheckedCircuit, OrderOk, Known, Kept, NewGate;
      ghost var was := ands[..];
      var i, j := 0, 0;
      NothingKept(order);
      while i < numAnds
        invariant 0 <= j <= i <= numAnds == |c.ands| <= ands.Length == |was|
        invariant forall k {:trigger ands[k]} :: i <= k < ands.Length ==> ands[k] == was[k]
        invariant ands[..j] == Kept(c.ands[..i], order)
      {
        var and := ands[i];
        assert and == was[i] == c.ands[i];
        KeptMore(c.ands, order, i);
        CodeOfGate(c, code[..], order, i);
        ghost var kept := ands[..j];
        var lhs := code[and.lhs];
        if lhs != 0 {
          var rhs0, rhs1 := code[and.rhs0], code[and.rhs1];
          if rhs0 < rhs1 {
            rhs0, rhs1 := rhs1, rhs0;
          }
          ands[j] := And(lhs, rhs0, rhs1);
          NewGateIs(order, and, ands[j]);
          j := j + 1;
          assert ands[..j] == kept + [ands[j - 1]];
        }
        i := i + 1;
      }
      numAnds := j;
      assert c.ands[..i] == c.ands;
    }

    /** Inputs up to `i`, latches from `m` to `l`, gates above `n`, nothing between. */
    static function TypeSoFar(i: nat, m: nat, l: nat, n: nat, v: nat): (t: AType)
      requires v > 0
    {
      if v <= i then InputType(v - 1) else if m < v <= l then LatchType(v - 1 - m)
      else if n < v then AndType(v - 1 - n) else UNUSED
    }

    /** Clear the types in use and enter the gates. */
    method ResetTypes(ghost n: nat)
      requires numAnds <= ands.Length && n + numAnds == maxvar < types.Length && types[0] == UNUSED
      requires forall k {:trigger ands[k]} :: 0 <= k < numAnds ==> ands[k].lhs == 2 * (n + k + 1)
      modifies types
      ensures types[0] == UNUSED
      ensures forall v {:trigger types[v]} :: 1 <= v <= maxvar ==> types[v] == TypeSoFar(0, 0, 0, n, v)
    {
      var i := 1;
      while i <= maxvar
        invariant 1 <= i <= maxvar + 1 && types[0] == UNUSED
        invariant forall v {:trigger types[v]} :: 1 <= v < i ==> types[v] == UNUSED
      {
        types[i] := types[i].(input := false, latch := false, isAnd := false, idx := 0);
        i := i + 1;
      }
      i := 0;
      while i < numAnds
        invariant 0 <= i <= numAnds && types[0] == UNUSED
        invariant forall v {:trigger types[v]} :: 1 <= v <= maxvar ==>
          types[v] == if n < v <= n + i then AndType(v - 1 - n) else UNUSED
      {
        var v := Lit2Var(ands[i].lhs);
        types[v] := types[v].(isAnd := true, idx := i);
        i := i + 1;
      }
    }

    /** Renumber the inputs and enter their types. */
    method FixInputs(code: array<nat>, ghost c: Circuit, ghost order: seq<nat>, ghost n: nat)
      requires CheckedCircuit(c) && OrderOk(c, order) && Coded(code[..], |c.types|, order)
      requires |inputs| <= n <= maxvar < types.Length && types[0] == UNUSED && inputs == c.inputs
      requires forall v {:trigger types[v]} :: 1 <= v <= maxvar ==> types[v] == TypeSoFar(0, 0, 0, n, v)
      modifies this`inputs, types
      ensures inputs == Translated(order, c.inputs) && types[0] == UNUSED
      ensures forall v {:trigger types[v]} :: 1 <= v <= maxvar ==> types[v] == TypeSoFar(|inputs|, |inputs|, |inputs|, n, v)
    {
      hide CheckedCircuit, OrderOk, Coded, CodeOf;
      ghost var m := |inputs|;
      var i := 0;
      while i < |inputs|
        invariant 0 <= i <= |inputs| == m && types[0] == UNUSED
        invariant forall k {:trigger inputs[k]} :: 0 <= k < m ==> inputs[k] == if k < i then CodeOf(order, c.inputs[k]) else c.inputs[k]
        invariant forall v {:trigger types[v]} :: 1 <= v <= maxvar ==> types[v] == TypeSoFar(i, i, i, n, v)
      {
        LeafCode(c, code[..], order, i);
        inputs := inputs[i := code[inputs[i]]];
        var v := Lit2Var(inputs[i]);
        types[v] := types[v].(input := true, idx := i);
        i := i + 1;
      }
      assert inputs == Translated(order, c.inputs);
    }

    /** Renumber the latches and enter their types. */
    method FixLatches(code: array<nat>, ghost c: Circuit, ghost order: seq<nat>)
      requires CheckedCircuit(c) && OrderOk(c, order) && Coded(code[..], |c.types|, order)
      requires |inputs| + |latches| <= maxvar < types.Length && types[0] == UNUSED
      requires |inputs| == |c.inputs| && |latches| == |c.latches|
      requires forall i {:trigger latches[i]} :: 0 <= i < |latches| ==> latches[i].lit == c.latches[i].lit
      requires forall v {:trigger types[v]} :: 1 <= v <= maxvar ==>
        types[v] == TypeSoFar(|inputs|, |inputs|, |inputs|, |inputs| + |latches|, v)
      modifies this`latches, types
      ensures |latches| == |c.latches| && types[0] == UNUSED
      ensures forall i {:trigger latches[i]} :: 0 <= i < |latches| ==>
        latches[i] == old(latches[i]).(lit := CodeOf(order, c.latches[i].lit))
      ensures forall v {:trigger types[v]} :: 1 <= v <= maxvar ==> types[v] == TypeAt(|inputs|, |latches|, v)
    {
      hide CheckedCircuit, OrderOk, Coded, CodeOf;
      ghost var m, n := |inputs|, |inputs| + |latches|;
      ghost var was := latches;
      var i := 0;
      while i < |latches|
        invariant 0 <= i <= |latches| == |was| && types[0] == UNUSED
        invariant forall k {:trigger latches[k]} :: 0 <= k < |latches| ==>
          latches[k] == if k < i then was[k].(lit := CodeOf(order, c.latches[k].lit)) else was[k]
        invariant forall v {:trigger types[v]} :: 1 <= v <= maxvar ==> types[v] == TypeSoFar(m, m, m + i, n, v)
      {
        LeafCode(c, code[..], order, m + i);
        assert latches[i] == was[i];
        latches := latches[i := latches[i].(lit := code[latches[i].lit])];
        var v := Lit2Var(latches[i].lit);
        types[v] := types[v].(latch := true, idx := i);
        i := i + 1;
      }
    }

    method RebuildGates(code: array<nat>, ghost c: Circuit, ghost order: seq<nat>)
      requires numAnds <= ands.Length && ands[..numAnds] == c.ands && CheckedCircuit(c) && OrderOk(c, order)
      requires Coded(code[..], |c.types|, order)
      modifies this`numAnds, ands
      ensures numAnds <= old(numAnds) && ands[..numAnds] == NewAnds(c, order)
      ensures numAnds == |order| - |c.inputs| - |c.latches|
      ensures forall k {:trigger ands[k]} :: 0 <= k < numAnds ==> ands[k].lhs == 2 * (|c.inputs| + |c.latches| + k + 1)
    {
      hide CheckedCircuit, OrderOk, Coded, NewAnds, Kept;
      DropGates(code, c, order);
      SortAnds(ands, numAnds);
      SortedKept(c, order, ands[..numAnds]);
      NewTable(c, order, ands[..numAnds]);
      assert forall k {:trigger ands[k]} :: 0 <= k < numAnds ==> ands[..numAnds][k] == ands[k];
    }

    /** Gates, then the type table, inputs and latches, once everything is numbered. */
    method Rebuild(code: array<nat>, next: nat, ghost c: Circuit, ghost order: seq<nat>)
      requires Shaped() && RootsDone(c, Value(), order) && CheckedCircuit(c) && OrderOk(c, order) && ConeOk(c, order)
      requires Coded(code[..], |c.types|, order) && next == NextCode(order) && |order| <= maxvar && types[0] == UNUSED
      modifies this`numAnds, this`maxvar, this`inputs, this`latches, ands, types
      ensures Shaped() && Renumbered(c, Value(), order)
    {
      hide CheckedCircuit, OrderOk, ConeOk, LatchesDone, ListsDone, AllKnown, Coded, Translated, NewAnds, Renumbered;
      ghost var e := Value();
      LatchLits(c, order, latches);
      RebuildGates(code, c, order);
      maxvar := Lit2Var(next - 1);
      ResetTypes(|inputs| + |latches|);
      FixInputs(code, c, order, |inputs| + |latches|);
      FixLatches(code, c, order);
      Rebuilt(c, e, Value(), order);
    }

    /** `aiger_reencode`. */
    method Reencode() returns (ghost order: seq<nat>)
      requires Valid()
      modifies this, ands, types, onstack
      ensures Valid() && Reencoded(Value())
      ensures Reencoded(old(Value())) ==> Value() == old(Value())
      ensures !Reencoded(old(Value())) ==>
        && Renumbered(old(Value()), Value(), order) && NormalForm(Value())
        && SameMeaning(old(Value()), Value())
    {
      hide CheckedCircuit, OrderOk, ConeOk, Reencoded, Grown, SameMeaning, NormalForm, TablesMatch, RootsDone, Renumbered;
      ghost var c := Value();
      CheckedTables(c);
      order := [];
      var done := IsReencoded();
      if done {
        return;
      }
      var net := Net(ands[..numAnds], types[..maxvar + 1]);
      var code := new nat[2 * (maxvar + 1)](k => 0);
      code[1] := 1;
      var next: nat;
      next, order := NumberLeaves(code);
      next, order := NumberRoots(net, code, next, c, order);
      NumberedOrder(c, Value(), code[..], onstack[..], next, order);
      Rebuild(code, next, c, order);
      RenumberedNormal(c, Value(), order);
      RenumberedMeansSame(c, Value(), order);
    }
  }
}