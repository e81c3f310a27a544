/** The guarded-action model made of a circuit (its/aiger/aigerModel.cpp): one action for each input, which
    is the one input set to 1 while the action fires. Latches are integer variables that start at 0. */
module Gal {
  import opened AigerNet
  import opened AigerCycles
  import opened AigerNumbering
  import opened AigerCircuit

  /** Boolean expressions over inputs and latches; a variable is true when it equals 1. */
  datatype Exp = Const(b: bool) | InputIs1(i: nat) | LatchIs1(l: nat) | Neg(e: Exp) | Conj(left: Exp, right: Exp)

  ghost predicate Eval(e: Exp, ins: seq<bool>, s: seq<int>) {
    match e
    case Const(b) => b
    case InputIs1(i) => i < |ins| && ins[i]
    case LatchIs1(l) => l < |s| && s[l] == 1
    case Neg(f) => !Eval(f, ins, s)
    case Conj(f, g) => Eval(f, ins, s) && Eval(g, ins, s)
  }

  // ---------------------------------------------------------------- literals as expressions

  ghost function Height(net: Net, v: nat): (h: nat) {
    if IsGate(net, v) then 1 + |Depends(net, v)| else 0
  }

  lemma OperandLower(c: Circuit, v: nat, lit: nat)
    requires CheckedCircuit(c) && IsGate(NetOf(c), v)
    requires var g := GateOf(NetOf(c), v); lit == g.rhs0 || lit == g.rhs1
    ensures LitOk(c, lit) && Height(NetOf(c), Lit2Var(lit)) < Height(NetOf(c), v)
  {
    GateFacts(c, v);
    CheckedNet(c);
    var u := Lit2Var(lit);
    if IsGate(NetOf(c), u) {
      GateFacts(c, u);
      DependsShrinks(NetOf(c), v, u);
    }
  }

  /** A defined variable that is no leaf is a gate over lower literals. */
  lemma GateBelow(c: Circuit, v: nat)
    requires CheckedCircuit(c) && v < |c.types| && DefinedVar(NetOf(c), v) && v > 0 && !c.types[v].input && !c.types[v].latch
    ensures IsGate(NetOf(c), v) && c.types[v].idx < |c.ands|
    ensures var g := c.ands[c.types[v].idx];
      && LitOk(c, g.rhs0) && Height(NetOf(c), Lit2Var(g.rhs0)) < Height(NetOf(c), v)
      && LitOk(c, g.rhs1) && Height(NetOf(c), Lit2Var(g.rhs1)) < Height(NetOf(c), v)
  {
    hide Height, Cyclic, Root;
    assert TypeOk(c, v);
    var g := c.ands[c.types[v].idx];
    assert g == GateOf(NetOf(c), v);
    OperandLower(c, v, g.rhs0);
    OperandLower(c, v, g.rhs1);
  }

  lemma Acyclic(c: Circuit)
    requires CheckedCircuit(c)
    ensures !Cyclic(NetOf(c), {})
  {
  }

  lemma Unsigned(c: Circuit, lit: nat)
    requires LitOk(c, lit) && Sign(lit)
    ensures LitOk(c, Not(lit)) && Lit2Var(Not(lit)) == Lit2Var(lit) && Not(lit) % 2 < lit % 2
  {
  }

  lemma LitInTable(c: Circuit, lit: nat)
    requires LitOk(c, lit)
    ensures Lit2Var(lit) < |c.types| && DefinedVar(NetOf(c), Lit2Var(lit))
  {
  }

  /** `get_value`. Acyclicity makes it end. */
  function GetValue(c: Circuit, lit: nat): (e: Exp)
    requires CheckedCircuit(c) && LitOk(c, lit)
    decreases Height(NetOf(c), Lit2Var(lit)), lit % 2
  {
    hide CheckedCircuit, Height, NetOf, LitOk;
    if Sign(lit) then
      Unsigned(c, lit);
      Neg(GetValue(c, Not(lit)))
    else
      LitInTable(c, lit);
      var v := Lit2Var(lit);
      if v == 0 then Const(lit == 1)
      else
        var t := c.types[v];
        if t.input then InputIs1(t.idx)
        else if t.latch then LatchIs1(t.idx)
        else
          GateBelow(c, v);
          var g := c.ands[t.idx];
          Conj(GetValue(c, g.rhs0), GetValue(c, g.rhs1))
  }

  /** Which latches are 1. */
  ghost function Ones(s: seq<int>): (r: seq<bool>)
    ensures |r| == |s| && forall l :: 0 <= l < |s| ==> r[l] == (s[l] == 1)
  {
    seq(|s|, l requires 0 <= l < |s| => s[l] == 1)
  }

  lemma {:induction false} GetGateIs(c: Circuit, v: nat, ins: seq<bool>, s: seq<int>)
    requires CheckedCircuit(c) && NetOk(NetOf(c)) && !Cyclic(NetOf(c), {}) && LitOk(c, Var2Lit(v))
    requires IsGate(NetOf(c), v) && v > 0 && !c.types[v].input && !c.types[v].latch
    ensures Eval(GetValue(c, Var2Lit(v)), ins, s) == VarValue(NetOf(c), ins, Ones(s), v)
    decreases Height(NetOf(c), v), 0
  {
    hide Cyclic, NetOk, CheckedCircuit, Height, LitValue, VarValue;
    var g := GateOf(NetOf(c), v);
    OperandLower(c, v, g.rhs0);
    OperandLower(c, v, g.rhs1);
    GetValueIs(c, g.rhs0, ins, s);
    GetValueIs(c, g.rhs1, ins, s);
    GateValue(NetOf(c), ins, Ones(s), v);
  }

  /** The expression of a literal has the literal's value. */
  lemma {:induction false} GetValueIs(c: Circuit, lit: nat, ins: seq<bool>, s: seq<int>)
    requires CheckedCircuit(c) && LitOk(c, lit) && NetOk(NetOf(c))
    ensures Eval(GetValue(c, lit), ins, s) == LitValue(NetOf(c), ins, Ones(s), lit)
    decreases Height(NetOf(c), Lit2Var(lit)), 1 + lit % 2
  {
    hide Cyclic, NetOk, Height, CheckedCircuit, IsGate, LitOk;
    Acyclic(c);
    if Sign(lit) {
      Unsigned(c, lit);
      GetValueIs(c, Not(lit), ins, s);
    } else if lit > 0 {
      LitInTable(c, lit);
      var v := Lit2Var(lit);
      if !c.types[v].input && !c.types[v].latch {
        GateBelow(c, v);
        GetGateIs(c, v, ins, s);
      }
    }
  }

  // ---------------------------------------------------------------- fixing the inputs

  function MkNeg(e: Exp): (r: Exp) {
    if e.Const? then Const(!e.b) else Neg(e)
  }

  function MkConj(f: Exp, g: Exp): (r: Exp) {
    if f.Const? then (if f.b then g else Const(false))
    else if g.Const? then (if g.b then f else Const(false))
    else Conj(f, g)
  }

  /** The assertion that input `j` has a value, applied to an expression; constants are folded. */
  function Assert1(e: Exp, j: nat, val: bool): (r: Exp) {
    match e
    case Const(b) => e
    case InputIs1(i) => if i == j then Const(val) else e
    case LatchIs1(l) => e
    case Neg(f) => MkNeg(Assert1(f, j, val))
    case Conj(f, g) => MkConj(Assert1(f, j, val), Assert1(g, j, val))
  }

  lemma {:induction false} Assert1Is(e: Exp, j: nat, val: bool, ins: seq<bool>, s: seq<int>)
    requires j < |ins|
    ensures Eval(Assert1(e, j, val), ins, s) == Eval(e, ins[j := val], s)
  {
    match e
    case Const(b) =>
    case InputIs1(i) =>
    case LatchIs1(l) =>
    case Neg(f) => Assert1Is(f, j, val, ins, s);
    case Conj(f, g) =>
      Assert1Is(f, j, val, ins, s);
      Assert1Is(g, j, val, ins, s);
  }

  /** Inputs from `j` on fixed: input `i` to 1, the others to 0. */
  function AssertFrom(e: Exp, i: nat, j: nat, n: nat): (r: Exp)
    requires j <= n
    decreases n - j
  {
    if j == n then e else AssertFrom(Assert1(e, j, i == j), i, j + 1, n)
  }

  /** Exactly input `i` is 1. */
  function OneHot(i: nat, n: nat): (r: seq<bool>) {
    seq(n, j => j == i)
  }

  lemma {:induction false} AssertFromIs(e: Exp, i: nat, j: nat, n: nat, ins: seq<bool>, s: seq<int>)
    requires j <= n == |ins|
    ensures Eval(AssertFrom(e, i, j, n), ins, s) == Eval(e, ins[..j] + OneHot(i, n)[j..], s)
    decreases n - j
  {
    if j == n {
      assert ins[..j] + OneHot(i, n)[j..] == ins;
    } else {
      AssertFromIs(Assert1(e, j, i == j), i, j + 1, n, ins, s);
      var next := ins[..j + 1] + OneHot(i, n)[j + 1..];
      Assert1Is(e, j, i == j, next, s);
      assert next[j := i == j] == ins[..j] + OneHot(i, n)[j..];
    }
  }

  /** Once all inputs are fixed the expression has its value under the one-hot input, whatever the inputs. */
  lemma FixedIs(e: Exp, i: nat, n: nat, ins: seq<bool>, s: seq<int>)
    requires n == |ins|
    ensures Eval(AssertFrom(e, i, 0, n), ins, s) == Eval(e, OneHot(i, n), s)
  {
    AssertFromIs(e, i, 0, n, ins, s);
    assert ins[..0] + OneHot(i, n)[0..] == OneHot(i, n);
  }

  // ---------------------------------------------------------------- actions

  /** One latch set to 1 or 0 by an expression. */
  datatype Assign = Assign(latch: nat, value: Exp)

  /** A guarded action that sets its latches all at once. */
  datatype Action = Action(input: nat, guard: Exp, assigns: seq<Assign>)

  function NextExp(c: Circuit, i: nat, l: nat): (e: Exp)
    requires CheckedCircuit(c) && l < |c.latches|
  {
    NextOk(c, l);
    AssertFrom(GetValue(c, c.latches[l].next), i, 0, |c.inputs|)
  }

  lemma NextOk(c: Circuit, l: nat)
    requires CheckedCircuit(c) && l < |c.latches|
    ensures LitOk(c, c.latches[l].next)
  {
    assert Root(c, c.latches[l].next);
  }

  lemma AllNextOk(c: Circuit)
    requires CheckedCircuit(c)
    ensures forall l {:trigger c.latches[l]} :: 0 <= l < |c.latches| ==> LitOk(c, c.latches[l].next)
  {
    forall l | 0 <= l < |c.latches| ensures LitOk(c, c.latches[l].next) {
      NextOk(c, l);
    }
  }

  /** Assignments of the first `n` latches; one that leaves the latch as it is is skipped. */
  function AssignsTo(c: Circuit, i: nat, n: nat): (r: seq<Assign>)
    requires CheckedCircuit(c) && n <= |c.latches|
  {
    if n == 0 then []
    else
      var e := NextExp(c, i, n - 1);
      AssignsTo(c, i, n - 1) + if e == LatchIs1(n - 1) then [] else [Assign(n - 1, e)]
  }

  /** The guard before inputs are fixed: the last latch's next value is 0. Without latches it is never set and stays the
      constant false of the default constructor. */
  function GuardOf(c: Circuit): (e: Exp)
    requires CheckedCircuit(c)
  {
    if c.latches == [] then Const(false)
    else
      NextOk(c, |c.latches| - 1);
      Neg(GetValue(c, c.latches[|c.latches| - 1].next))
  }

  /** The action of input `i`. */
  function ActionFor(c: Circuit, i: nat): (a: Action)
    requires CheckedCircuit(c)
  {
    Action(i, AssertFrom(GuardOf(c), i, 0, |c.inputs|), AssignsTo(c, i, |c.latches|))
  }

  /** `gen_transitions`: one action for each input, named after it. */
  method GenTransitions(c: Circuit) returns (gal: seq<Action>)
    requires CheckedCircuit(c)
    ensures |gal| == |c.inputs|
    ensures forall i {:trigger gal[i]} :: 0 <= i < |gal| ==> gal[i].input == i && gal[i] == ActionFor(c, i)
  {
    hide CheckedCircuit, ActionFor, LitOk, IsGate;
    AllNextOk(c);
    var assigns: seq<Assign> := [];
    var guard := Const(false);
    var l := 0;
    while l < |c.latches|
      invariant 0 <= l <= |c.latches| && |assigns| == l
      invariant forall k {:trigger assigns[k]} :: 0 <= k < l ==> assigns[k] == Assign(k, GetValue(c, c.latches[k].next))
      invariant guard == if l < |c.latches| then Const(false) else GuardOf(c)
    {
      ghost var was := assigns;
      var e := GetValue(c, c.latches[l].next);
      assigns := assigns + [Assign(l, e)];
      assert forall k :: 0 <= k < l ==> assigns[k] == was[k];
      if l == |c.latches| - 1 {
        guard := Neg(e);
      }
      l := l + 1;
    }
    gal := [];
    var i := 0;
    while i < |c.inputs|
      invariant 0 <= i <= |c.inputs| && |gal| == i
      invariant forall k {:trigger gal[k]} :: 0 <= k < i ==> gal[k].input == k && gal[k] == ActionFor(c, k)
    {
      var action := MakeAction(c, i, guard, assigns);
      gal := gal + [action];
      i := i + 1;
    }
  }

  /** The inner loops of `gen_transitions`. */
  method MakeAction(c: Circuit, i: nat, guard: Exp, assigns: seq<Assign>) returns (a: Action)
    requires CheckedCircuit(c) && |assigns| == |c.latches| && guard == GuardOf(c)
    requires forall k {:trigger assigns[k]} :: 0 <= k < |assigns| ==>
      LitOk(c, c.latches[k].next) && assigns[k] == Assign(k, GetValue(c, c.latches[k].next))
    ensures a.input == i && a == ActionFor(c, i)
  {
    hide GetValue, CheckedCircuit, Assert1;
    var newAssigns, newGuard, j := assigns, guard, 0;
    while j < |c.inputs|
      invariant 0 <= j <= |c.inputs| && |newAssigns| == |assigns|
      invariant AssertFrom(newGuard, i, j, |c.inputs|) == AssertFrom(guard, i, 0, |c.inputs|)
      invariant forall k {:trigger newAssigns[k]} :: 0 <= k < |assigns| ==> (newAssigns[k].latch == k &&
        AssertFrom(newAssigns[k].value, i, j, |c.inputs|) == AssertFrom(assigns[k].value, i, 0, |c.inputs|))
    {
      newAssigns := AssertAll(newAssigns, j, i == j);
      newGuard := Assert1(newGuard, j, i == j);
      j := j + 1;
    }
    var kept: seq<Assign>, k := [], 0;
    while k < |newAssigns|
      invariant 0 <= k <= |newAssigns| && kept == AssignsTo(c, i, k)
    {
      NextOk(c, k);
      assert assigns[k] == Assign(k, GetValue(c, c.latches[k].next));
      assert newAssigns[k].latch == k && newAssigns[k].value == NextExp(c, i, k);
      if newAssigns[k].value != LatchIs1(newAssigns[k].latch) {
        kept := kept + [newAssigns[k]];
      }
      k := k + 1;
    }
    a := Action(i, newGuard, kept);
  }

  method AssertAll(assigns: seq<Assign>, j: nat, val: bool) returns (r: seq<Assign>)
    ensures |r| == |assigns| && forall k {:trigger r[k]} :: 0 <= k < |r| ==>
      r[k] == Assign(assigns[k].latch, Assert1(assigns[k].value, j, val))
  {
    r := [];
    var k := 0;
    while k < |assigns|
      invariant 0 <= k <= |assigns| && |r| == k
      invariant forall m {:trigger r[m]} :: 0 <= m < k ==> r[m] == Assign(assigns[m].latch, Assert1(assigns[m].value, j, val))
    {
      r := r + [Assign(assigns[k].latch, Assert1(assigns[k].value, j, val))];
      k := k + 1;
    }
  }

  // ---------------------------------------------------------------- runs of the model

  ghost predicate Enabled(a: Action, s: seq<int>, ins: seq<bool>) {
    Eval(a.guard, ins, s)
  }

  /** The latches after the action: all right-hand sides are taken in the state before. */
  ghost function Fire(assigns: seq<Assign>, s: seq<int>, ins: seq<bool>): (r: seq<int>)
    ensures |r| == |s|
  {
    seq(|s|, l requires 0 <= l < |s| => Assigned(assigns, l, s, ins))
  }

  ghost function Assigned(assigns: seq<Assign>, l: nat, s: seq<int>, ins: seq<bool>): (x: int)
    requires l < |s|
  {
    if assigns == [] then s[l]
    else
      var last := assigns[|assigns| - 1];
      if last.latch == l then (if Eval(last.value, ins, s) then 1 else 0) else Assigned(assigns[..|assigns| - 1], l, s, ins)
  }

  ghost predicate Bits(s: seq<int>) {
    forall l :: 0 <= l < |s| ==> s[l] == 0 || s[l] == 1
  }

  ghost function Bit(b: bool): (x: int) {
    if b then 1 else 0
  }

  /** One step of the circuit under an input valuation. */
  ghost function CircuitStep(c: Circuit, ins: seq<bool>, s: seq<int>): (r: seq<int>)
    requires CheckedCircuit(c) && |s| == |c.latches| && NetOk(NetOf(c))
    ensures |r| == |s| && Bits(r)
  {
    seq(|s|, l requires 0 <= l < |s| => Bit(LitValue(NetOf(c), ins, Ones(s), c.latches[l].next)))
  }

  lemma NothingAssigned(l: nat, s: seq<int>, ins: seq<bool>)
    requires l < |s|
    ensures Assigned([], l, s, ins) == s[l]
  {
  }

  lemma AssignedMore(assigns: seq<Assign>, x: Assign, l: nat, s: seq<int>, ins: seq<bool>)
    requires l < |s|
    ensures Assigned(assigns + [x], l, s, ins) ==
      if x.latch == l then Bit(Eval(x.value, ins, s)) else Assigned(assigns, l, s, ins)
  {
    hide Eval;
    assert (assigns + [x])[..|assigns|] == assigns;
  }

  /** The value of a latch after the assignments of the first `n` latches. */
  lemma {:induction false} AssignedIs(c: Circuit, i: nat, n: nat, l: nat, s: seq<int>, ins: seq<bool>)
    requires CheckedCircuit(c) && n <= |c.latches| == |s| && l < |s| && |ins| == |c.inputs| && NetOk(NetOf(c))
    ensures Assigned(AssignsTo(c, i, n), l, s, ins) ==
      if l < n && NextExp(c, i, l) != LatchIs1(l) then CircuitStep(c, OneHot(i, |c.inputs|), s)[l] else s[l]
    decreases n
  {
    hide CheckedCircuit, LitValue, GetValue, NetOk, AssertFrom, NextExp, Eval, Assigned;
    NothingAssigned(l, s, ins);
    if n > 0 {
      AssignedIs(c, i, n - 1, l, s, ins);
      var before, all := AssignsTo(c, i, n - 1), AssignsTo(c, i, n);
      var e := NextExp(c, i, n - 1);
      if e != LatchIs1(n - 1) {
        AssignedMore(before, Assign(n - 1, e), l, s, ins);
        NextIs(c, i, n - 1, s, ins);
      } else {
        assert all == before;
      }
    }
  }

  lemma NextIs(c: Circuit, i: nat, l: nat, s: seq<int>, ins: seq<bool>)
    requires CheckedCircuit(c) && l < |c.latches| == |s| && |ins| == |c.inputs| && NetOk(NetOf(c))
    ensures Eval(NextExp(c, i, l), ins, s) == LitValue(NetOf(c), OneHot(i, |c.inputs|), Ones(s), c.latches[l].next)
  {
    hide LitValue, GetValue, NetOk, AssertFrom, Cyclic;
    NextOk(c, l);
    FixedIs(GetValue(c, c.latches[l].next), i, |c.inputs|, ins, s);
    GetValueIs(c, c.latches[l].next, OneHot(i, |c.inputs|), s);
  }

  /** What the action does when no assignment is skipped. */
  ghost predicate SkipSound(c: Circuit, i: nat, s: seq<int>)
    requires CheckedCircuit(c) && |s| == |c.latches|
  {
    forall l {:trigger s[l]} :: 0 <= l < |s| && NextExp(c, i, l) == LatchIs1(l) ==> s[l] == 0 || s[l] == 1
  }

  /** There is a latch, and the last one's next value is 0. */
  ghost predicate MayFire(c: Circuit, ins: seq<bool>, s: seq<int>)
    requires CheckedCircuit(c) && |s| == |c.latches| && NetOk(NetOf(c))
  {
    c.latches != [] && !LitValue(NetOf(c), ins, Ones(s), c.latches[|c.latches| - 1].next)
  }

  /** The action of input `i` is enabled exactly when there is a latch and the last one's next value is 0 under the
      one-hot input. It then makes one circuit step exactly when the latches whose assignment was skipped hold bits. */
  lemma ActionIs(c: Circuit, i: nat, s: seq<int>, ins: seq<bool>)
    requires CheckedCircuit(c) && |s| == |c.latches| && i < |c.inputs| == |ins| && NetOk(NetOf(c))
    ensures Enabled(ActionFor(c, i), s, ins) <==> MayFire(c, OneHot(i, |c.inputs|), s)
    ensures Fire(ActionFor(c, i).assigns, s, ins) == CircuitStep(c, OneHot(i, |c.inputs|), s) <==> SkipSound(c, i, s)
  {
    hide LitValue, GetValue, NetOk, AssertFrom, Cyclic, Root, TablesMatch;
    FixedIs(GuardOf(c), i, |c.inputs|, ins, s);
    if c.latches != [] {
      NextOk(c, |c.latches| - 1);
      GetValueIs(c, c.latches[|c.latches| - 1].next, OneHot(i, |c.inputs|), s);
    }
    var fired, stepped := Fire(ActionFor(c, i).assigns, s, ins), CircuitStep(c, OneHot(i, |c.inputs|), s);
    forall l | 0 <= l < |s|
      ensures fired[l] == if NextExp(c, i, l) != LatchIs1(l) then stepped[l] else s[l]
      ensures NextExp(c, i, l) == LatchIs1(l) ==> stepped[l] == Bit(s[l] == 1)
    {
      AssignedIs(c, i, |s|, l, s, ins);
      NextIs(c, i, l, s, ins);
    }
    if SkipSound(c, i, s) {
      assert fired == stepped;
    }
    if fired == stepped {
      forall l | 0 <= l < |s| && NextExp(c, i, l) == LatchIs1(l) ensures s[l] == 0 || s[l] == 1 {
        assert fired[l] == stepped[l];
      }
    }
  }

  /** A run of the model: latches start at 0, each step fires an enabled action. */
  ghost predicate Run(c: Circuit, run: seq<seq<int>>, picks: seq<nat>)
    requires CheckedCircuit(c)
  {
    && |run| == |picks| + 1 && run[0] == seq(|c.latches|, l => 0)
    && (forall k: nat :: k < |picks| ==> RunStep(c, run, picks, k))
  }

  ghost predicate RunStep(c: Circuit, run: seq<seq<int>>, picks: seq<nat>, k: nat)
    requires CheckedCircuit(c) && k < |picks| && |run| == |picks| + 1
  {
    var a := picks[k];
    a < |c.inputs| && Enabled(ActionFor(c, a), run[k], NoInputs(c)) &&
    run[k + 1] == Fire(ActionFor(c, a).assigns, run[k], NoInputs(c))
  }

  /** The model has no input variables; nothing is read from this. */
  ghost function NoInputs(c: Circuit): (r: seq<bool>) {
    seq(|c.inputs|, j => false)
  }

  /** Every reachable state holds bits, so every step of a run is a circuit step under one input, taken
      while the last latch's next value is 0; without latches there is none. */
  lemma {:induction false} RunIsCircuitRun(c: Circuit, run: seq<seq<int>>, picks: seq<nat>, k: nat)
    requires CheckedCircuit(c) && NetOk(NetOf(c)) && Run(c, run, picks) && k < |run|
    ensures |run[k]| == |c.latches| && Bits(run[k])
    ensures k < |picks| ==>
      && run[k + 1] == CircuitStep(c, OneHot(picks[k], |c.inputs|), run[k])
      && MayFire(c, OneHot(picks[k], |c.inputs|), run[k])
    decreases k
  {
    hide CheckedCircuit, LitValue, NetOk, ActionFor, Fire, CircuitStep, NextExp;
    if k > 0 {
      RunIsCircuitRun(c, run, picks, k - 1);
    }
    if k < |picks| {
      assert RunStep(c, run, picks, k);
      ActionIs(c, picks[k], run[k], NoInputs(c));
    }
  }
}
