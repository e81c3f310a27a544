/** What re-encoding makes of a circuit, as a relation between the old tables and the new, and what
    follows from it: the normal form, the cone of influence, and the preserved meaning. */
module AigerRenumbered {
  import opened AigerNet
  import opened AigerCycles
  import opened AigerNumbering
  import opened AigerCircuit

  // ---------------------------------------------------------------- translation

  /** The code of a literal once the variables of `order` are numbered. */
  ghost function CodeOf(order: seq<nat>, lit: nat): (r: nat) {
    if lit < 2 then lit else Var2Lit(Index(order, Lit2Var(lit)) + 1) + lit % 2
  }

  ghost function Translated(order: seq<nat>, lits: seq<nat>): (r: seq<nat>)
    ensures |r| == |lits|
  {
    seq(|lits|, i requires 0 <= i < |lits| => CodeOf(order, lits[i]))
  }

  ghost function NewLatch(order: seq<nat>, l: Latch): (r: Latch) {
    Latch(CodeOf(order, l.lit), CodeOf(order, l.next), CodeOf(order, l.reset))
  }

  /** The larger operand comes first. */
  ghost function NewGate(order: seq<nat>, g: And): (r: And) {
    var a, b := CodeOf(order, g.rhs0), CodeOf(order, g.rhs1);
    And(CodeOf(order, g.lhs), if a < b then b else a, if a < b then a else b)
  }

  ghost predicate Known(order: seq<nat>, lit: nat) {
    lit < 2 || Lit2Var(lit) in order
  }

  // ---------------------------------------------------------------- the relation

  /** Inputs, then latches, then gates, each once, operands before the gates that read them. */
  ghost predicate OrderOk(c: Circuit, order: seq<nat>) {
    var n := |c.inputs| + |c.latches|;
    && n <= |order|
    && (forall i {:trigger c.inputs[i]} :: 0 <= i < |c.inputs| ==> order[i] == Lit2Var(c.inputs[i]))
    && (forall i {:trigger c.latches[i]} :: 0 <= i < |c.latches| ==> order[|c.inputs| + i] == Lit2Var(c.latches[i].lit))
    && (forall k: nat {:trigger order[k]} :: n <= k < |order| ==> IsGate(NetOf(c), order[k]))
    && (forall j, k :: 0 <= j < k < |order| ==> order[j] != order[k])
    && Topological(NetOf(c), order)
  }

  ghost predicate InCone(c: Circuit, v: nat) {
    exists lit :: Root(c, lit) && Below(NetOf(c), Lit2Var(lit), v)
  }

  /** Everything named is numbered, and every numbered gate is below something named. */
  ghost predicate ConeOk(c: Circuit, order: seq<nat>) {
    && (forall lit :: Root(c, lit) ==> Known(order, lit))
    && (forall k: nat {:trigger order[k]} :: |c.inputs| + |c.latches| <= k < |order| ==> InCone(c, order[k]))
  }

  ghost predicate GatesOk(c: Circuit, d: Circuit, order: seq<nat>)
    requires OrderOk(c, order)
  {
    var n := |c.inputs| + |c.latches|;
    && |d.ands| == |order| - n
    && forall k {:trigger d.ands[k]} :: 0 <= k < |d.ands| ==> d.ands[k] == NewGate(order, GateOf(NetOf(c), order[n + k]))
  }

  /** The type of variable `v` when `i` inputs come first, then `l` latches, then gates. */
  function TypeAt(i: nat, l: nat, v: nat): (t: AType)
    requires v > 0
  {
    if v <= i then InputType(v - 1) else if v <= i + l then LatchType(v - 1 - i) else AndType(v - 1 - i - l)
  }

  ghost predicate TypesOk(d: Circuit) {
    && |d.types| == d.maxvar + 1 && d.types[0] == UNUSED && d.maxvar == |d.inputs| + |d.latches| + |d.ands|
    && (forall v {:trigger d.types[v]} :: 1 <= v < |d.types| ==> d.types[v] == TypeAt(|d.inputs|, |d.latches|, v))
  }

  ghost predicate Renumbered(c: Circuit, d: Circuit, order: seq<nat>) {
    && OrderOk(c, order) && ConeOk(c, order)
    && d.inputs == Translated(order, c.inputs)
    && |d.latches| == |c.latches|
    && (forall i {:trigger d.latches[i]} :: 0 <= i < |c.latches| ==> d.latches[i] == NewLatch(order, c.latches[i]))
    && d.outputs == Translated(order, c.outputs) && d.bad == Translated(order, c.bad)
    && d.constraints == Translated(order, c.constraints) && d.fairness == Translated(order, c.fairness)
    && |d.justice| == |c.justice|
    && (forall j {:trigger d.justice[j]} :: 0 <= j < |c.justice| ==> d.justice[j] == Translated(order, c.justice[j]))
    && GatesOk(c, d, order) && TypesOk(d)
  }

  // ---------------------------------------------------------------- codes

  lemma {:induction false} IndexIs(order: seq<nat>, k: nat)
    requires k < |order| && forall i, j :: 0 <= i < j < |order| ==> order[i] != order[j]
    ensures Index(order, order[k]) == k
  {
    IndexOf(order, k);
    var i := Index(order, order[k]);
    if i < k { assert false; }
  }

  lemma {:induction false} IndexMember(order: seq<nat>, v: nat)
    requires v in order
    ensures Index(order, v) < |order| && order[Index(order, v)] == v
  {
  }

  /** Codes do not change as more variables are numbered. */
  lemma {:induction false} IndexPrefix(order: seq<nat>, order': seq<nat>, v: nat)
    requires order <= order' && v in order
    ensures Index(order', v) == Index(order, v)
  {
    if order[0] != v {
      IndexPrefix(order[1..], order'[1..], v);
    }
  }

  lemma CodePrefix(order: seq<nat>, order': seq<nat>, lit: nat)
    requires order <= order' && Known(order, lit)
    ensures CodeOf(order', lit) == CodeOf(order, lit) && Known(order', lit)
  {
    if lit >= 2 { IndexPrefix(order, order', Lit2Var(lit)); }
  }

  /** The code table holds these codes. */
  lemma CodedMeans(code: seq<nat>, n: nat, order: seq<nat>, lit: nat)
    requires Coded(code, n, order) && lit < 2 * n && Known(order, lit)
    ensures code[lit] == CodeOf(order, lit)
  {
    if lit >= 2 {
      IndexMember(order, Lit2Var(lit));
      assert CodedAt(code, n, order, Index(order, Lit2Var(lit)));
    }
  }

  lemma CodeVar(order: seq<nat>, lit: nat)
    requires Known(order, lit)
    ensures Sign(CodeOf(order, lit)) == Sign(lit)
    ensures lit < 2 ==> Lit2Var(CodeOf(order, lit)) == 0
    ensures lit >= 2 ==> var k := Index(order, Lit2Var(lit)); k < |order| && order[k] == Lit2Var(lit) && Lit2Var(CodeOf(order, lit)) == k + 1
  {
    if lit >= 2 { IndexMember(order, Lit2Var(lit)); }
  }

  // ---------------------------------------------------------------- the normal form

  /** `aiger_is_reencoded`. */
  ghost predicate Reencoded(c: Circuit) {
    var i, l := |c.inputs|, |c.latches|;
    && (forall k {:trigger c.inputs[k]} :: 0 <= k < i ==> c.inputs[k] == 2 * (k + 1))
    && (forall k {:trigger c.latches[k]} :: 0 <= k < l ==> c.latches[k].lit == 2 * (i + k + 1))
    && (forall k {:trigger c.ands[k]} :: 0 <= k < |c.ands| ==>
      c.ands[k].lhs == 2 * (i + l + k + 1) && c.ands[k].rhs1 <= c.ands[k].rhs0 <= c.ands[k].lhs)
  }

  /** Numbered consecutively, operands ordered and below their gate, no variable besides. */
  ghost predicate NormalForm(c: Circuit) {
    && Reencoded(c) && TablesMatch(c)
    && c.maxvar == |c.inputs| + |c.latches| + |c.ands|
    && (forall k {:trigger c.ands[k]} :: 0 <= k < |c.ands| ==> c.ands[k].rhs0 < c.ands[k].lhs)
  }

  /** An operand of the gate at position `n + k` has a smaller code. */
  lemma OperandBelow(c: Circuit, order: seq<nat>, p: nat, lit: nat)
    requires CheckedCircuit(c) && OrderOk(c, order) && |c.inputs| + |c.latches| <= p < |order|
    requires var g := GateOf(NetOf(c), order[p]); lit == g.rhs0 || lit == g.rhs1
    ensures Known(order, lit) && Lit2Var(CodeOf(order, lit)) <= p
  {
    if lit >= 2 {
      var u := Lit2Var(lit);
      assert OperandsBefore(NetOf(c), order, p);
      assert Child(NetOf(c), order[p], u);
      var q: nat :| q < p && order[q] == u;
      IndexIs(order, q);
      CodeVar(order, lit);
    }
  }

  lemma GateForm(c: Circuit, d: Circuit, order: seq<nat>, k: nat)
    requires CheckedCircuit(c) && Renumbered(c, d, order) && k < |d.ands|
    ensures var n := |c.inputs| + |c.latches|;
      && d.ands[k].lhs == 2 * (n + k + 1) && d.ands[k].rhs1 <= d.ands[k].rhs0 < d.ands[k].lhs
      && Lit2Var(d.ands[k].rhs0) < |d.types| && Lit2Var(d.ands[k].rhs1) < |d.types|
  {
    hide ConeOk, Topological, CheckedCircuit, CodeOf;
    var p := |c.inputs| + |c.latches| + k;
    var g := GateOf(NetOf(c), order[p]);
    GateFacts(c, order[p]);
    CodeVar(order, g.lhs);
    assert d.ands[k] == NewGate(order, g);
    IndexIs(order, p);
    OperandBelow(c, order, p, g.rhs0);
    OperandBelow(c, order, p, g.rhs1);
  }

  lemma LeafForm(c: Circuit, d: Circuit, order: seq<nat>)
    requires CheckedCircuit(c) && Renumbered(c, d, order)
    ensures forall i {:trigger d.inputs[i]} :: 0 <= i < |d.inputs| ==> d.inputs[i] == 2 * (i + 1)
    ensures forall i {:trigger d.latches[i]} :: 0 <= i < |d.latches| ==> d.latches[i].lit == 2 * (|d.inputs| + i + 1)
  {
    forall i | 0 <= i < |c.inputs| ensures d.inputs[i] == 2 * (i + 1) {
      assert Owns(c, c.inputs[i], InputType(i));
      IndexIs(order, i);
    }
    forall i | 0 <= i < |c.latches| ensures d.latches[i].lit == 2 * (|d.inputs| + i + 1) {
      assert Owns(c, c.latches[i].lit, LatchType(i));
      IndexIs(order, |c.inputs| + i);
    }
  }

  lemma TypesForm(d: Circuit)
    requires TypesOk(d)
    requires forall i {:trigger d.inputs[i]} :: 0 <= i < |d.inputs| ==> d.inputs[i] == 2 * (i + 1)
    requires forall i {:trigger d.latches[i]} :: 0 <= i < |d.latches| ==> d.latches[i].lit == 2 * (|d.inputs| + i + 1)
    requires forall k {:trigger d.ands[k]} :: 0 <= k < |d.ands| ==> d.ands[k].lhs == 2 * (|d.inputs| + |d.latches| + k + 1)
    ensures TablesMatch(d)
  {
    forall v | 0 <= v < |d.types| ensures TypeOk(d, v) {
      var i, l := |d.inputs|, |d.latches|;
      if v > 0 {
        assert d.types[v] == TypeAt(i, l, v);
        if v <= i {
          assert d.inputs[v - 1] == 2 * v;
        } else if v <= i + l {
          assert d.latches[v - 1 - i].lit == 2 * v;
        } else {
          assert d.ands[v - 1 - i - l].lhs == 2 * v;
        }
      }
    }
  }

  lemma TablesForm(c: Circuit, d: Circuit, order: seq<nat>)
    requires CheckedCircuit(c) && Renumbered(c, d, order)
    ensures NormalForm(d)
  {
    hide OrderOk, ConeOk, CheckedCircuit, GatesOk, CodeOf;
    LeafForm(c, d, order);
    forall k | 0 <= k < |d.ands|
      ensures d.ands[k].lhs == 2 * (|d.inputs| + |d.latches| + k + 1) && d.ands[k].rhs1 <= d.ands[k].rhs0 < d.ands[k].lhs
    {
      GateForm(c, d, order, k);
    }
    TypesForm(d);
  }

  /** A numbered literal stays defined. */
  lemma CodeOk(c: Circuit, d: Circuit, order: seq<nat>, lit: nat)
    requires Renumbered(c, d, order) && Known(order, lit)
    ensures LitOk(d, CodeOf(order, lit))
  {
    CodeVar(order, lit);
  }

  lemma RootOk(c: Circuit, d: Circuit, order: seq<nat>, lit: nat)
    requires Renumbered(c, d, order) && Root(d, lit)
    ensures LitOk(d, lit)
  {
    var was: nat;
    if i :| 0 <= i < |d.latches| && (lit == d.latches[i].next || lit == d.latches[i].reset) {
      assert d.latches[i] == NewLatch(order, c.latches[i]);
      was := if lit == d.latches[i].next then c.latches[i].next else c.latches[i].reset;
    } else if lit in d.outputs {
      was := Source(order, c.outputs, lit);
    } else if lit in d.bad {
      was := Source(order, c.bad, lit);
    } else if lit in d.constraints {
      was := Source(order, c.constraints, lit);
    } else if lit in d.fairness {
      was := Source(order, c.fairness, lit);
    } else {
      var j :| 0 <= j < |d.justice| && lit in d.justice[j];
      was := Source(order, c.justice[j], lit);
    }
    assert Root(c, was);
    CodeOk(c, d, order, was);
  }

  lemma Source(order: seq<nat>, lits: seq<nat>, lit: nat) returns (was: nat)
    requires lit in Translated(order, lits)
    ensures was in lits && CodeOf(order, was) == lit
  {
    var i: nat :| i < |lits| && Translated(order, lits)[i] == lit;
    was := lits[i];
  }

  /** Operands below their gate exclude cycles. */
  lemma DescendingAcyclic(d: Circuit)
    requires TablesMatch(d)
    requires forall k {:trigger d.ands[k]} :: 0 <= k < |d.ands| ==> d.ands[k].rhs1 <= d.ands[k].rhs0 < d.ands[k].lhs
    ensures !Cyclic(NetOf(d), {})
  {
    var net := NetOf(d);
    forall v: nat, u: nat | Dep(net, {}, v, u) ensures u < v {
      assert TypeOk(d, v);
      assert d.ands[d.types[v].idx] == GateOf(net, v);
    }
    var rank: nat -> nat := v => v;
    RankExcludesCycle(net, {}, rank);
  }

  /** Re-encoding ends in normal form, with a checked circuit that counts as re-encoded. */
  lemma RenumberedNormal(c: Circuit, d: Circuit, order: seq<nat>)
    requires CheckedCircuit(c) && Renumbered(c, d, order)
    ensures CheckedCircuit(d) && NormalForm(d) && Reencoded(d)
  {
    hide OrderOk, ConeOk;
    TablesForm(c, d, order);
    DescendingAcyclic(d);
    forall lit | Root(d, lit) ensures LitOk(d, lit) {
      RootOk(c, d, order, lit);
    }
    forall k | 0 <= k < |d.ands| ensures LitOk(d, d.ands[k].rhs0) && LitOk(d, d.ands[k].rhs1) {
      GateForm(c, d, order, k);
    }
  }

  // ---------------------------------------------------------------- the cone

  lemma ReadInOrder(c: Circuit, order: seq<nat>, v: nat, u: nat)
    requires OrderOk(c, order) && v in order && Child(NetOf(c), v, u)
    ensures u in order
  {
    hide Child;
    var k: nat :| k < |order| && order[k] == v;
    assert OperandsBefore(NetOf(c), order, k);
  }

  lemma {:induction false} ChainInOrder(c: Circuit, order: seq<nat>, p: seq<nat>)
    requires CheckedCircuit(c) && OrderOk(c, order) && Chain(NetOf(c), {}, p) && p[0] in order
    ensures p[|p| - 1] in order
    decreases |p|
  {
    hide OrderOk, CheckedCircuit, Child, IsGate;
    var m := |p| - 1;
    assert ChainStep(NetOf(c), {}, p, m);
    if |p| > 2 {
      var q := p[..m];
      forall k: nat | 1 <= k < |q| ensures ChainStep(NetOf(c), {}, q, k) {
        assert ChainStep(NetOf(c), {}, p, k);
      }
      ChainInOrder(c, order, q);
    }
    ReadInOrder(c, order, p[m - 1], p[m]);
  }

  lemma ConeNumbered(c: Circuit, order: seq<nat>, v: nat)
    requires CheckedCircuit(c) && OrderOk(c, order) && ConeOk(c, order) && InCone(c, v) && IsGate(NetOf(c), v)
    ensures v in order
  {
    hide CheckedCircuit, OrderOk, Root;
    GateFacts(c, v);
    var lit :| Root(c, lit) && Below(NetOf(c), Lit2Var(lit), v);
    assert Known(order, lit);
    if v != Lit2Var(lit) {
      var p :| Chain(NetOf(c), {}, p) && p[0] == Lit2Var(lit) && p[|p| - 1] == v;
      assert ChainStep(NetOf(c), {}, p, 1);
      GateFacts(c, Lit2Var(lit));
      ChainInOrder(c, order, p);
    }
  }

  /** The types of the leading positions. */
  lemma LeafType(c: Circuit, order: seq<nat>, k: nat)
    requires TablesMatch(c) && OrderOk(c, order) && k < |c.inputs| + |c.latches|
    ensures order[k] < |c.types| && order[k] > 0
    ensures c.types[order[k]] == if k < |c.inputs| then InputType(k) else LatchType(k - |c.inputs|)
  {
    hide Topological, TypeOk, IsGate;
    if k < |c.inputs| {
      assert Owns(c, c.inputs[k], InputType(k));
    } else {
      assert Owns(c, c.latches[k - |c.inputs|].lit, LatchType(k - |c.inputs|));
    }
  }

  /** Gates stand behind the inputs and latches. */
  lemma LeafNoGate(c: Circuit, order: seq<nat>, k: nat)
    requires CheckedCircuit(c) && OrderOk(c, order) && k < |c.inputs| + |c.latches|
    ensures !IsGate(NetOf(c), order[k])
  {
    hide OrderOk, TablesMatch, Cyclic, Root;
    LeafType(c, order, k);
  }

  /** The gates that survive are exactly those in the cone of some named literal. */
  lemma ConeSurvives(c: Circuit, order: seq<nat>, v: nat)
    requires CheckedCircuit(c) && OrderOk(c, order) && ConeOk(c, order) && IsGate(NetOf(c), v)
    ensures v in order[|c.inputs| + |c.latches|..] <==> InCone(c, v)
  {
    hide CheckedCircuit, InCone, Root, Topological;
    var n := |c.inputs| + |c.latches|;
    if InCone(c, v) {
      ConeNumbered(c, order, v);
      var k: nat :| k < |order| && order[k] == v;
      if k < n { LeafNoGate(c, order, k); }
      assert order[n..][k - n] == v;
    }
    if v in order[n..] {
      var k: nat :| k < |order| - n && order[n..][k] == v;
      assert order[n + k] == v;
    }
  }

  // ---------------------------------------------------------------- meaning

  /** The variable at position `k` and its new number have the same value. */
  lemma {:induction false} SameVar(c: Circuit, d: Circuit, order: seq<nat>, ins: seq<bool>, lats: seq<bool>, k: nat)
    requires CheckedCircuit(c) && CheckedCircuit(d) && Renumbered(c, d, order) && k < |order|
    requires NetOk(NetOf(c)) && NetOk(NetOf(d))
    ensures VarValue(NetOf(c), ins, lats, order[k]) == VarValue(NetOf(d), ins, lats, k + 1)
    decreases k + 1, 1
  {
    hide ConeOk, Cyclic, NetOk, Topological, TablesMatch, GatesOk, IsGate, Root;
    var i, l := |c.inputs|, |c.latches|;
    if k < i + l {
      LeafType(c, order, k);
      assert d.types[k + 1] == TypeAt(i, l, k + 1);
    } else {
      SameGate(c, d, order, ins, lats, k);
    }
  }

  lemma NewOperands(order: seq<nat>, g: And)
    ensures var h := NewGate(order, g);
      || (h.rhs0 == CodeOf(order, g.rhs0) && h.rhs1 == CodeOf(order, g.rhs1))
      || (h.rhs0 == CodeOf(order, g.rhs1) && h.rhs1 == CodeOf(order, g.rhs0))
  {
  }

  /** The gate at position `k`, in both circuits. */
  lemma GateShape(c: Circuit, d: Circuit, order: seq<nat>, k: nat)
    requires CheckedCircuit(c) && Renumbered(c, d, order) && |c.inputs| + |c.latches| <= k < |order|
    ensures var m, n, v := NetOf(c), NetOf(d), order[k];
      && IsGate(m, v) && v > 0 && !c.types[v].input && !c.types[v].latch
      && IsGate(n, k + 1) && !d.types[k + 1].input && !d.types[k + 1].latch
      && GateOf(n, k + 1) == NewGate(order, GateOf(m, v))
  {
    hide ConeOk, Topological, CheckedCircuit, NewGate;
    GateFacts(c, order[k]);
    var n := |c.inputs| + |c.latches|;
    assert d.types[k + 1] == AndType(k - n) && d.ands[k - n] == NewGate(order, GateOf(NetOf(c), order[k]));
  }

  lemma {:induction false} SameGate(c: Circuit, d: Circuit, order: seq<nat>, ins: seq<bool>, lats: seq<bool>, k: nat)
    requires CheckedCircuit(c) && CheckedCircuit(d) && Renumbered(c, d, order) && k < |order|
    requires NetOk(NetOf(c)) && NetOk(NetOf(d)) && |c.inputs| + |c.latches| <= k && OrderOk(c, order)
    requires !Cyclic(NetOf(c), {}) && !Cyclic(NetOf(d), {})
    ensures VarValue(NetOf(c), ins, lats, order[k]) == VarValue(NetOf(d), ins, lats, k + 1)
    decreases k + 1, 0
  {
    hide Cyclic, NetOk, VarValue, LitValue, CheckedCircuit, Renumbered, OrderOk, CodeOf, NewGate, IsGate, Known;
    GateShape(c, d, order, k);
    var g := GateOf(NetOf(c), order[k]);
    GateValue(NetOf(c), ins, lats, order[k]);
    GateValue(NetOf(d), ins, lats, k + 1);
    NewOperands(order, g);
    OperandBelow(c, order, k, g.rhs0);
    OperandBelow(c, order, k, g.rhs1);
    SameLit(c, d, order, ins, lats, g.rhs0, k);
    SameLit(c, d, order, ins, lats, g.rhs1, k);
  }

  lemma {:induction false} SameLit(c: Circuit, d: Circuit, order: seq<nat>, ins: seq<bool>, lats: seq<bool>, lit: nat, bound: nat)
    requires CheckedCircuit(c) && CheckedCircuit(d) && Renumbered(c, d, order) && Known(order, lit)
    requires NetOk(NetOf(c)) && NetOk(NetOf(d)) && Lit2Var(CodeOf(order, lit)) <= bound
    ensures LitValue(NetOf(c), ins, lats, lit) == LitValue(NetOf(d), ins, lats, CodeOf(order, lit))
    decreases bound, 2
  {
    hide ConeOk, Cyclic, NetOk, Renumbered;
    CodeVar(order, lit);
    if lit >= 2 {
      SameVar(c, d, order, ins, lats, Index(order, Lit2Var(lit)));
    }
  }

  lemma SameList(c: Circuit, d: Circuit, order: seq<nat>, xs: seq<nat>, ys: seq<nat>)
    requires CheckedCircuit(c) && CheckedCircuit(d) && Renumbered(c, d, order)
    requires NetOk(NetOf(c)) && NetOk(NetOf(d)) && ys == Translated(order, xs)
    requires forall i {:trigger xs[i]} :: 0 <= i < |xs| ==> Root(c, xs[i])
    ensures ListsAgree(NetOf(c), NetOf(d), xs, ys)
  {
    hide TablesMatch, Cyclic, LitValue, OrderOk, Root;
    assert forall i :: 0 <= i < |xs| ==> Root(c, xs[i]);
    forall ins, lats, i | 0 <= i < |xs|
      ensures LitValue(NetOf(c), ins, lats, xs[i]) == LitValue(NetOf(d), ins, lats, ys[i])
    {
      SameLit(c, d, order, ins, lats, xs[i], Lit2Var(CodeOf(order, xs[i])));
    }
  }

  /** Re-encoding preserves the meaning of the circuit. */
  lemma RenumberedMeansSame(c: Circuit, d: Circuit, order: seq<nat>)
    requires CheckedCircuit(c) && Renumbered(c, d, order)
    ensures CheckedCircuit(d) && SameMeaning(c, d)
  {
    RenumberedNormal(c, d, order);
    CheckedNet(c);
    CheckedNet(d);
    hide CheckedCircuit, OrderOk, ConeOk, GatesOk, TypesOk, ListsAgree;
    assert NextLits(d.latches) == Translated(order, NextLits(c.latches));
    assert ResetLits(d.latches) == Translated(order, ResetLits(c.latches));
    SameList(c, d, order, NextLits(c.latches), NextLits(d.latches));
    SameList(c, d, order, ResetLits(c.latches), ResetLits(d.latches));
    SameList(c, d, order, c.outputs, d.outputs);
    SameList(c, d, order, c.bad, d.bad);
    SameList(c, d, order, c.constraints, d.constraints);
    SameList(c, d, order, c.fairness, d.fairness);
    forall j | 0 <= j < |c.justice| ensures ListsAgree(NetOf(c), NetOf(d), c.justice[j], d.justice[j]) {
      SameList(c, d, order, c.justice[j], d.justice[j]);
    }
  }
}
