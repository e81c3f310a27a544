/** Circuits over the and-inverter graph, what it means for one to be checked, and the values of its
    literals under a valuation of inputs and latches (its/aiger/aiger.h, aiger.c). */
module AigerCircuit {
  import opened AigerNet
  import opened AigerCycles
  import opened AigerNumbering

  datatype Circuit = Circuit(
    maxvar: nat, inputs: seq<nat>, latches: seq<Latch>, outputs: seq<nat>, bad: seq<nat>, constraints: seq<nat>,
    justice: seq<seq<nat>>, fairness: seq<nat>, ands: seq<And>, types: seq<AType>)

  function NetOf(c: Circuit): (net: Net) {
    Net(c.ands, c.types)
  }

  // ---------------------------------------------------------------- checked circuits

  const UNUSED := AType(false, false, false, 0)

  function InputType(i: nat): AType { AType(true, false, false, i) }
  function LatchType(i: nat): AType { AType(false, true, false, i) }
  function AndType(i: nat): AType { AType(false, false, true, i) }

  /** A literal of a defined variable. */
  ghost predicate LitOk(c: Circuit, lit: nat) {
    Lit2Var(lit) < |c.types| && DefinedVar(NetOf(c), Lit2Var(lit))
  }

  ghost predicate Owns(c: Circuit, lit: nat, t: AType) {
    !Sign(lit) && 0 < Lit2Var(lit) < |c.types| && c.types[Lit2Var(lit)] == t
  }

  /** The type of a variable is that of its entry in the tables. */
  ghost predicate TypeOk(c: Circuit, v: nat)
    requires v < |c.types|
  {
    var t := c.types[v];
    || (!t.input && !t.latch && !t.isAnd)
    || (t == InputType(t.idx) && t.idx < |c.inputs| && c.inputs[t.idx] == Var2Lit(v))
    || (t == LatchType(t.idx) && t.idx < |c.latches| && c.latches[t.idx].lit == Var2Lit(v))
    || (t == AndType(t.idx) && t.idx < |c.ands| && c.ands[t.idx].lhs == Var2Lit(v))
  }

  /** The type table lists each input, latch and gate at its place, and nothing else. */
  ghost predicate TablesMatch(c: Circuit) {
    && |c.types| == c.maxvar + 1 && c.types[0] == UNUSED
    && (forall i {:trigger c.inputs[i]} :: 0 <= i < |c.inputs| ==> Owns(c, c.inputs[i], InputType(i)))
    && (forall i {:trigger c.latches[i]} :: 0 <= i < |c.latches| ==> Owns(c, c.latches[i].lit, LatchType(i)))
    && (forall i {:trigger c.ands[i]} :: 0 <= i < |c.ands| ==> Owns(c, c.ands[i].lhs, AndType(i)))
    && (forall v {:trigger c.types[v]} :: 0 <= v < |c.types| ==> TypeOk(c, v))
  }

  /** A literal named by a latch, an output, a property or a constraint. */
  ghost predicate Root(c: Circuit, lit: nat) {
    || (exists i :: 0 <= i < |c.latches| && (lit == c.latches[i].next || lit == c.latches[i].reset))
    || lit in c.outputs || lit in c.bad || lit in c.constraints || lit in c.fairness
    || (exists i :: 0 <= i < |c.justice| && lit in c.justice[i])
  }

  /** What `aiger_check` establishes: every literal used is defined and no gate depends on itself. */
  ghost predicate CheckedCircuit(c: Circuit) {
    && TablesMatch(c)
    && (forall lit :: Root(c, lit) ==> LitOk(c, lit))
    && (forall i {:trigger c.ands[i]} :: 0 <= i < |c.ands| ==> LitOk(c, c.ands[i].rhs0) && LitOk(c, c.ands[i].rhs1))
    && !Cyclic(NetOf(c), {})
  }

  lemma GateFacts(c: Circuit, v: nat)
    requires CheckedCircuit(c) && IsGate(NetOf(c), v)
    ensures var g := GateOf(NetOf(c), v);
      && g.lhs == Var2Lit(v) && v > 0 && LitOk(c, g.rhs0) && LitOk(c, g.rhs1)
      && c.types[v] == AndType(c.types[v].idx)
  {
    assert TypeOk(c, v);
    assert c.ands[c.types[v].idx] == GateOf(NetOf(c), v);
  }

  lemma CheckedNet(c: Circuit)
    requires CheckedCircuit(c)
    ensures Checked(NetOf(c))
  {
    var net := NetOf(c);
    forall v | 0 <= v < |net.types|
      ensures GateOk(net, v) && (net.types[v].isAnd ==> !net.types[v].input && !net.types[v].latch)
    {
      assert TypeOk(c, v);
      if net.types[v].isAnd { GateFacts(c, v); }
    }
    forall v, u | Child(net, v, u) ensures DefinedVar(net, u) {
      GateFacts(c, v);
    }
  }

  // ---------------------------------------------------------------- acyclic nets have ranks

  /** The gates a gate depends on. */
  ghost function Depends(net: Net, v: nat): (r: set<nat>) {
    set u | 0 <= u < |net.types| && DependsOn(net, {}, v, u)
  }

  lemma ChainMore(net: Net, p: seq<nat>, v: nat)
    requires Chain(net, {}, p) && Dep(net, {}, v, p[0])
    ensures Chain(net, {}, [v] + p)
  {
    var q := [v] + p;
    forall k: nat | 1 <= k < |q| ensures ChainStep(net, {}, q, k) {
      if k > 1 { assert ChainStep(net, {}, p, k - 1); }
    }
  }

  lemma DependsShrinks(net: Net, v: nat, u: nat)
    requires NetOk(net) && !Cyclic(net, {}) && Dep(net, {}, v, u)
    ensures Depends(net, u) < Depends(net, v) && |Depends(net, u)| < |Depends(net, v)|
  {
    assert ChainStep(net, {}, [v, u], 1);
    assert Chain(net, {}, [v, u]);
    assert u in Depends(net, v) && u !in Depends(net, u);
    forall w | w in Depends(net, u) ensures w in Depends(net, v) {
      var p :| Chain(net, {}, p) && p[0] == u && p[|p| - 1] == w;
      ChainMore(net, p, v);
      assert ([v] + p)[|p|] == w;
    }
    Strict(Depends(net, u), Depends(net, v));
  }

  lemma Strict<T>(a: set<T>, b: set<T>)
    requires a < b
    ensures |a| < |b|
  {
    assert b == a + (b - a);
    assert |b - a| > 0;
  }

  ghost function Rank(net: Net): (rank: nat -> nat) {
    v => |Depends(net, v)|
  }

  /** Counting what lies below a gate ranks an acyclic net. */
  lemma AcyclicHasRank(net: Net)
    requires NetOk(net) && !Cyclic(net, {})
    ensures Ranks(net, {}, Rank(net))
  {
    forall v, u | Dep(net, {}, v, u) ensures Rank(net)(u) < Rank(net)(v) {
      DependsShrinks(net, v, u);
    }
  }

  // ---------------------------------------------------------------- values

  /** The value of a variable under a valuation of inputs and latches. */
  ghost function VarValue(net: Net, ins: seq<bool>, lats: seq<bool>, v: nat): (b: bool)
    requires NetOk(net) && !Cyclic(net, {})
    decreases |Depends(net, v)|
  {
    if v == 0 || v >= |net.types| then false
    else if net.types[v].input then net.types[v].idx < |ins| && ins[net.types[v].idx]
    else if net.types[v].latch then net.types[v].idx < |lats| && lats[net.types[v].idx]
    else if IsGate(net, v) then
      OperandValue(net, ins, lats, v, GateOf(net, v).rhs0) && OperandValue(net, ins, lats, v, GateOf(net, v).rhs1)
    else false
  }

  ghost function OperandValue(net: Net, ins: seq<bool>, lats: seq<bool>, v: nat, lit: nat): (b: bool)
    requires NetOk(net) && !Cyclic(net, {}) && IsGate(net, v) && (lit == GateOf(net, v).rhs0 || lit == GateOf(net, v).rhs1)
    decreases |Depends(net, v)|, 0
  {
    var u := Lit2Var(lit);
    if IsGate(net, u) && u > 0 then
      DependsShrinks(net, v, u);
      VarValue(net, ins, lats, u) != Sign(lit)
    else LeafValue(net, ins, lats, u) != Sign(lit)
  }

  ghost function LeafValue(net: Net, ins: seq<bool>, lats: seq<bool>, v: nat): (b: bool) {
    v > 0 && v < |net.types| &&
    if net.types[v].input then net.types[v].idx < |ins| && ins[net.types[v].idx]
    else net.types[v].latch && net.types[v].idx < |lats| && lats[net.types[v].idx]
  }

  /** A literal negates its variable when it has a sign. */
  ghost function LitValue(net: Net, ins: seq<bool>, lats: seq<bool>, lit: nat): (b: bool)
    requires NetOk(net) && !Cyclic(net, {})
  {
    VarValue(net, ins, lats, Lit2Var(lit)) != Sign(lit)
  }

  /** A gate is the conjunction of its operands. */
  lemma GateValue(net: Net, ins: seq<bool>, lats: seq<bool>, v: nat)
    requires NetOk(net) && !Cyclic(net, {}) && IsGate(net, v) && v > 0 && !net.types[v].input && !net.types[v].latch
    ensures VarValue(net, ins, lats, v) ==
      (LitValue(net, ins, lats, GateOf(net, v).rhs0) && LitValue(net, ins, lats, GateOf(net, v).rhs1))
  {
  }

  /** Two lists of literals agree under every valuation. */
  ghost predicate ListsAgree(net: Net, net': Net, xs: seq<nat>, ys: seq<nat>)
    requires NetOk(net) && !Cyclic(net, {}) && NetOk(net') && !Cyclic(net', {})
  {
    |xs| == |ys| && forall ins, lats, i {:trigger LitValue(net, ins, lats, xs[i])} :: 0 <= i < |xs| ==>
      LitValue(net, ins, lats, xs[i]) == LitValue(net', ins, lats, ys[i])
  }

  function NextLits(latches: seq<Latch>): (r: seq<nat>) {
    seq(|latches|, i requires 0 <= i < |latches| => latches[i].next)
  }

  function ResetLits(latches: seq<Latch>): (r: seq<nat>) {
    seq(|latches|, i requires 0 <= i < |latches| => latches[i].reset)
  }

  /** The two circuits have as many inputs and latches, and each named literal of one has, under every
      valuation, the value of the literal in the same place of the other. */
  ghost predicate SameMeaning(c: Circuit, d: Circuit)
    requires CheckedCircuit(c) && CheckedCircuit(d)
  {
    CheckedNet(c); CheckedNet(d);
    var m, n := NetOf(c), NetOf(d);
    && |c.inputs| == |d.inputs| && |c.latches| == |d.latches| && |c.justice| == |d.justice|
    && ListsAgree(m, n, NextLits(c.latches), NextLits(d.latches))
    && ListsAgree(m, n, ResetLits(c.latches), ResetLits(d.latches))
    && ListsAgree(m, n, c.outputs, d.outputs) && ListsAgree(m, n, c.bad, d.bad)
    && ListsAgree(m, n, c.constraints, d.constraints) && ListsAgree(m, n, c.fairness, d.fairness)
    && forall j {:trigger c.justice[j]} :: 0 <= j < |c.justice| ==> ListsAgree(m, n, c.justice[j], d.justice[j])
  }

  // ---------------------------------------------------------------- the largest input or latch

  function MaxOf(lits: seq<nat>): (m: nat) {
    if lits == [] then 0
    else
      var m := MaxOf(lits[..|lits| - 1]);
      if lits[|lits| - 1] > m then lits[|lits| - 1] else m
  }

  function LitsOf(ls: seq<Latch>): (r: seq<nat>) {
    seq(|ls|, i requires 0 <= i < |ls| => ls[i].lit)
  }

  function MaxLeaf(inputs: seq<nat>, latches: seq<Latch>): (m: nat) {
    var i, l := MaxOf(inputs), MaxOf(LitsOf(latches));
    if l > i then l else i
  }

  /** `aiger_max_input_or_latch`. */
  method MaxInputOrLatch(inputs: seq<nat>, latches: seq<Latch>) returns (res: nat)
    ensures res == MaxLeaf(inputs, latches)
    ensures forall i :: 0 <= i < |inputs| ==> inputs[i] <= res
    ensures forall i :: 0 <= i < |latches| ==> latches[i].lit <= res
  {
    res := 0;
    var i := 0;
    while i < |inputs|
      invariant 0 <= i <= |inputs| && res == MaxOf(inputs[..i])
      invariant forall k :: 0 <= k < i ==> inputs[k] <= res
    {
      assert inputs[..i + 1][..i] == inputs[..i];
      if inputs[i] > res { res := inputs[i]; }
      i := i + 1;
    }
    assert inputs[..i] == inputs;
    i := 0;
    ghost var lits := LitsOf(latches);
    while i < |latches|
      invariant 0 <= i <= |latches|
      invariant res == if MaxOf(lits[..i]) > MaxOf(inputs) then MaxOf(lits[..i]) else MaxOf(inputs)
      invariant forall k :: 0 <= k < |inputs| ==> inputs[k] <= res
      invariant forall k :: 0 <= k < i ==> latches[k].lit <= res
    {
      assert lits[..i + 1][..i] == lits[..i];
      if latches[i].lit > res { res := latches[i].lit; }
      i := i + 1;
    }
    assert lits[..i] == lits;
  }

  lemma {:induction false} MaxOfIs(lits: seq<nat>, m: nat)
    requires forall i :: 0 <= i < |lits| ==> lits[i] <= m
    requires m == 0 || exists i :: 0 <= i < |lits| && lits[i] == m
    ensures MaxOf(lits) == m
  {
    if lits != [] {
      var k := |lits| - 1;
      if lits[k] == m {
        MaxOfLess(lits[..k], m);
      } else {
        if m > 0 {
          var i :| 0 <= i < |lits| && lits[i] == m;
          assert lits[..k][i] == m;
        }
        MaxOfIs(lits[..k], m);
      }
    }
  }

  lemma {:induction false} MaxOfLess(lits: seq<nat>, m: nat)
    requires forall i :: 0 <= i < |lits| ==> lits[i] <= m
    ensures MaxOf(lits) <= m
  {
    if lits != [] {
      MaxOfLess(lits[..|lits| - 1], m);
    }
  }

  /** Numbered consecutively, the last of them is the largest. */
  lemma ConsecutiveMax(inputs: seq<nat>, latches: seq<Latch>)
    requires forall k {:trigger inputs[k]} :: 0 <= k < |inputs| ==> inputs[k] == 2 * (k + 1)
    requires forall k {:trigger latches[k]} :: 0 <= k < |latches| ==> latches[k].lit == 2 * (|inputs| + k + 1)
    ensures MaxLeaf(inputs, latches) == 2 * (|inputs| + |latches|)
  {
    var i, l := |inputs|, |latches|;
    if i > 0 { assert inputs[i - 1] == 2 * i; }
    MaxOfIs(inputs, 2 * i);
    if l > 0 {
      assert LitsOf(latches)[l - 1] == 2 * (i + l);
      MaxOfIs(LitsOf(latches), 2 * (i + l));
    }
  }
}
