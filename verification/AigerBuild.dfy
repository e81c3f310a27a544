/** Building a circuit call by call, and what the mark bits of earlier checks do to a later one (its/aiger/aiger.c).

    The cycle check never clears its marks. It sees every cycle of every net only with clear marks, but on no run of
    library calls do the marks left behind hide one: what a successful check marks is finished, and no call
    redefines a variable. So `aiger_check` accepts exactly the checked circuits. */
module AigerBuild {
  import opened AigerNet
  import opened AigerCycles
  import opened AigerNumbering
  import opened AigerCircuit
  import opened AigerRenumbered
  import opened AigerFormat

  // ---------------------------------------------------------------- what the calls add

  /** Variable `v` has got type `t`; all other variables are as before, new ones unused. */
  ghost predicate OneMore(c: Circuit, d: Circuit, v: nat, t: AType) {
    && |c.types| <= |d.types| && v < |d.types| && d.types[v] == t
    && forall w {:trigger d.types[w]} :: 0 <= w < |d.types| && w != v ==> d.types[w] == if w < |c.types| then c.types[w] else UNUSED
  }

  ghost predicate Unused(c: Circuit, v: nat) {
    v > 0 && (v < |c.types| ==> !c.types[v].input && !c.types[v].latch && !c.types[v].isAnd)
  }

  /** Entries of the tables keep their types. */
  lemma OwnsStay(c: Circuit, d: Circuit, v: nat, t: AType, lit: nat, u: AType)
    requires OneMore(c, d, v, t) && Unused(c, v) && Owns(c, lit, u) && (u.input || u.latch || u.isAnd)
    ensures Owns(d, lit, u)
  {
  }

  ghost predicate AllTypesOk(c: Circuit) {
    forall w: nat {:trigger TypeOk(c, w)} :: w < |c.types| ==> TypeOk(c, w)
  }

  lemma TypesStay(c: Circuit, d: Circuit, v: nat, t: AType)
    requires TablesMatch(c) && OneMore(c, d, v, t) && Unused(c, v) && TypeOk(d, v)
    requires c.inputs <= d.inputs && c.latches <= d.latches && c.ands <= d.ands
    ensures d.types[0] == UNUSED && AllTypesOk(d)
  {
    forall w: nat | w < |d.types| ensures TypeOk(d, w) {
      if w != v && w < |c.types| { assert TypeOk(c, w); }
    }
  }

  /** `aiger_add_input`: one more input, the tables still match. */
  lemma InputAdded(c: Circuit, lit: nat)
    requires TablesMatch(c) && CanDefine(c, lit)
    ensures var d := AddInput(c, lit);
      && TablesMatch(d) && OneMore(c, d, Lit2Var(lit), InputType(|c.inputs|))
      && d == c.(inputs := c.inputs + [lit], maxvar := d.maxvar, types := d.types)
  {
    var d, v, t := AddInput(c, lit), Lit2Var(lit), InputType(|c.inputs|);
    assert OneMore(c, d, v, t);
    TypesStay(c, d, v, t);
    forall w | 0 <= w < |d.types| ensures TypeOk(d, w) {}
    forall i | 0 <= i < |d.inputs| ensures Owns(d, d.inputs[i], InputType(i)) {
      if i < |c.inputs| { OwnsStay(c, d, v, t, c.inputs[i], InputType(i)); }
    }
    forall i | 0 <= i < |d.latches| ensures Owns(d, d.latches[i].lit, LatchType(i)) {
      OwnsStay(c, d, v, t, c.latches[i].lit, LatchType(i));
    }
    forall i | 0 <= i < |d.ands| ensures Owns(d, d.ands[i].lhs, AndType(i)) {
      OwnsStay(c, d, v, t, c.ands[i].lhs, AndType(i));
    }
  }

  /** `aiger_add_latch`: one more latch, reset to 0; its next state is in the type table. */
  lemma LatchAdded(c: Circuit, lit: nat, next: nat)
    requires TablesMatch(c) && CanDefine(c, lit)
    ensures var d := AddLatch(c, lit, next);
      && TablesMatch(d) && OneMore(c, d, Lit2Var(lit), LatchType(|c.latches|)) && Lit2Var(next) < |d.types|
      && d == c.(latches := c.latches + [Latch(lit, next, 0)], maxvar := d.maxvar, types := d.types)
  {
    var d, v, t := AddLatch(c, lit, next), Lit2Var(lit), LatchType(|c.latches|);
    assert OneMore(c, d, v, t);
    TypesStay(c, d, v, t);
    forall w | 0 <= w < |d.types| ensures TypeOk(d, w) {}
    forall i | 0 <= i < |d.inputs| ensures Owns(d, d.inputs[i], InputType(i)) {
      OwnsStay(c, d, v, t, c.inputs[i], InputType(i));
    }
    forall i | 0 <= i < |d.latches| ensures Owns(d, d.latches[i].lit, LatchType(i)) {
      if i < |c.latches| { OwnsStay(c, d, v, t, c.latches[i].lit, LatchType(i)); }
    }
    forall i | 0 <= i < |d.ands| ensures Owns(d, d.ands[i].lhs, AndType(i)) {
      OwnsStay(c, d, v, t, c.ands[i].lhs, AndType(i));
    }
  }

  /** `aiger_add_and`: one more gate; its operands are in the type table. */
  lemma AndAdded(c: Circuit, lhs: nat, rhs0: nat, rhs1: nat)
    requires TablesMatch(c) && CanDefine(c, lhs)
    ensures var d := AddAnd(c, lhs, rhs0, rhs1);
      && TablesMatch(d) && OneMore(c, d, Lit2Var(lhs), AndType(|c.ands|))
      && Lit2Var(rhs0) < |d.types| && Lit2Var(rhs1) < |d.types|
      && d == c.(ands := c.ands + [And(lhs, rhs0, rhs1)], maxvar := d.maxvar, types := d.types)
  {
    var d, v, t := AddAnd(c, lhs, rhs0, rhs1), Lit2Var(lhs), AndType(|c.ands|);
    assert OneMore(c, d, v, t);
    TypesStay(c, d, v, t);
    forall w | 0 <= w < |d.types| ensures TypeOk(d, w) {}
    forall i | 0 <= i < |d.inputs| ensures Owns(d, d.inputs[i], InputType(i)) {
      OwnsStay(c, d, v, t, c.inputs[i], InputType(i));
    }
    forall i | 0 <= i < |d.latches| ensures Owns(d, d.latches[i].lit, LatchType(i)) {
      OwnsStay(c, d, v, t, c.latches[i].lit, LatchType(i));
    }
    forall i | 0 <= i < |d.ands| ensures Owns(d, d.ands[i].lhs, AndType(i)) {
      if i < |c.ands| { OwnsStay(c, d, v, t, c.ands[i].lhs, AndType(i)); }
    }
  }

  // ---------------------------------------------------------------- aiger_check

  predicate IsDefined(c: Circuit, lit: nat) {
    DefinedVar(NetOf(c), Lit2Var(lit))
  }

  ghost predicate AllAreDefined(c: Circuit, lits: seq<nat>) {
    forall lit {:trigger IsDefined(c, lit)} :: lit in lits ==> IsDefined(c, lit)
  }

  ghost function Nexts(c: Circuit): (r: seq<nat>)
    ensures |r| == |c.latches| && forall i :: 0 <= i < |r| ==> r[i] == c.latches[i].next
  {
    seq(|c.latches|, i requires 0 <= i < |c.latches| => c.latches[i].next)
  }

  /** Every literal that a latch's next state, an output, a property or a constraint names is defined. */
  ghost predicate NamedDefined(c: Circuit) {
    && AllAreDefined(c, Nexts(c)) && AllAreDefined(c, c.outputs) && AllAreDefined(c, c.bad) && AllAreDefined(c, c.constraints)
    && (forall i {:trigger c.justice[i]} :: 0 <= i < |c.justice| ==> AllAreDefined(c, c.justice[i]))
    && AllAreDefined(c, c.fairness)
  }

  ghost predicate OperandsDefined(c: Circuit) {
    forall i {:trigger c.ands[i]} :: 0 <= i < |c.ands| ==> IsDefined(c, c.ands[i].rhs0) && IsDefined(c, c.ands[i].rhs1)
  }

  method CheckDefined(c: Circuit, lits: seq<nat>) returns (ok: bool)
    ensures ok <==> AllAreDefined(c, lits)
  {
    ok := true;
    var i := 0;
    while ok && i < |lits|
      invariant i <= |lits| && (ok ==> AllAreDefined(c, lits[..i])) && (!ok ==> !AllAreDefined(c, lits))
    {
      assert lits[..i + 1] == lits[..i] + [lits[i]];
      ok := IsDefined(c, lits[i]);
      i := i + 1;
    }
    assert ok ==> lits[..i] == lits;
  }

  method CheckNexts(c: Circuit) returns (ok: bool)
    ensures ok <==> AllAreDefined(c, Nexts(c))
  {
    ok := true;
    var i := 0;
    ghost var nexts := Nexts(c);
    while ok && i < |c.latches|
      invariant i <= |c.latches| && (ok ==> AllAreDefined(c, nexts[..i])) && (!ok ==> !AllAreDefined(c, nexts))
    {
      assert nexts[..i + 1] == nexts[..i] + [nexts[i]];
      ok := IsDefined(c, c.latches[i].next);
      i := i + 1;
    }
    assert ok ==> nexts[..i] == nexts;
  }

  method CheckJustice(c: Circuit) returns (ok: bool)
    ensures ok <==> forall i {:trigger c.justice[i]} :: 0 <= i < |c.justice| ==> AllAreDefined(c, c.justice[i])
  {
    hide AllAreDefined;
    ok := true;
    var i := 0;
    while ok && i < |c.justice|
      invariant i <= |c.justice|
      invariant ok ==> forall j {:trigger c.justice[j]} :: 0 <= j < i ==> AllAreDefined(c, c.justice[j])
      invariant !ok ==> exists j {:trigger c.justice[j]} :: 0 <= j < |c.justice| && !AllAreDefined(c, c.justice[j])
    {
      ok := CheckDefined(c, c.justice[i]);
      i := i + 1;
    }
  }

  method CheckOperands(c: Circuit) returns (ok: bool)
    ensures ok <==> OperandsDefined(c)
  {
    ok := true;
    var i := 0;
    while ok && i < |c.ands|
      invariant i <= |c.ands| && (!ok ==> !OperandsDefined(c))
      invariant ok ==> forall j {:trigger c.ands[j]} :: 0 <= j < i ==> IsDefined(c, c.ands[j].rhs0) && IsDefined(c, c.ands[j].rhs1)
    {
      ok := IsDefined(c, c.ands[i].rhs0);
      if ok { ok := IsDefined(c, c.ands[i].rhs1); }
      i := i + 1;
    }
  }

  /** `aiger_check`: the named literals, the operands, and last the search for cycles. */
  method Check(c: Circuit, mark: array<bool>, onstack: array<bool>) returns (ok: bool)
    requires NetOk(NetOf(c)) && mark.Length == onstack.Length == |c.types| && mark != onstack
    requires forall v :: 0 <= v < onstack.Length ==> !onstack[v]
    modifies mark, onstack
    ensures ok <==> NamedDefined(c) && OperandsDefined(c) && !Cyclic(NetOf(c), MarkedIn(old(mark[..])))
    ensures ok ==> Passes(c, old(mark[..]), mark[..]) && forall v :: 0 <= v < onstack.Length ==> !onstack[v]
  {
    hide AllAreDefined, OperandsDefined, Cyclic, NetOk;
    ok := CheckNexts(c);
    if ok { ok := CheckDefined(c, c.outputs); }
    if ok { ok := CheckDefined(c, c.bad); }
    if ok { ok := CheckDefined(c, c.constraints); }
    if ok { ok := CheckJustice(c); }
    if ok { ok := CheckDefined(c, c.fairness); }
    if ok { ok := CheckOperands(c); }
    if ok {
      ghost var was := mark[..];
      var error := CheckForCycles(NetOf(c), mark, onstack);
      ok := !error;
      if ok {
        ChildrenDefined(c);
        assert mark[..] == mark[..mark.Length];
      }
    }
  }

  lemma ChildrenDefined(c: Circuit)
    requires OperandsDefined(c)
    ensures forall v: nat, u: nat {:trigger Child(NetOf(c), v, u)} :: Child(NetOf(c), v, u) ==> DefinedVar(NetOf(c), u)
  {
    forall v: nat, u: nat | Child(NetOf(c), v, u) ensures DefinedVar(NetOf(c), u) {
      var g := c.ands[c.types[v].idx];
      assert IsDefined(c, g.rhs0) && IsDefined(c, g.rhs1);
    }
  }

  /** What a check without an error has seen and marked. */
  ghost predicate Passes(c: Circuit, mark: seq<bool>, mark': seq<bool>) {
    var net := NetOf(c);
    && |mark'| == |mark| && !Cyclic(net, MarkedIn(mark))
    && (forall v: nat, u: nat {:trigger Child(net, v, u)} :: Child(net, v, u) ==> DefinedVar(net, u))
    && (forall v: nat {:trigger IsGate(net, v)} :: v < |mark'| && IsGate(net, v) ==> mark'[v])
    && (forall v: nat {:trigger mark'[v]} :: v < |mark'| && mark'[v] ==> mark[v] || IsGate(net, v))
  }

  // ---------------------------------------------------------------- marks left by earlier checks

  ghost function NotIn(n: nat, done: set<nat>): (r: set<nat>) {
    set v: nat | v < n && v !in done
  }

  /** Only defined variables are marked, and only gates of `done`; these gates read defined variables and gates of `done`,
      and have no cycle. */
  ghost predicate SettledBy(net: Net, mark: seq<bool>, done: set<nat>) {
    && |mark| == |net.types|
    && (forall v: nat {:trigger DefinedVar(net, v)} :: v < |mark| && mark[v] ==> DefinedVar(net, v))
    && (forall v: nat {:trigger IsGate(net, v)} :: v < |mark| && mark[v] && IsGate(net, v) ==> v in done)
    && (forall v: nat {:trigger v in done} :: v in done ==> IsGate(net, v))
    && (forall v: nat, u: nat {:trigger Child(net, v, u)} :: Child(net, v, u) && v in done ==>
          DefinedVar(net, u) && (IsGate(net, u) ==> u in done))
    && !Cyclic(net, NotIn(|net.types|, done))
  }

  ghost predicate Settled(net: Net, mark: seq<bool>) {
    exists done :: SettledBy(net, mark, done)
  }

  lemma FewerExcluded(net: Net, seen: set<nat>, seen': set<nat>)
    requires seen' <= seen && Cyclic(net, seen)
    ensures Cyclic(net, seen')
  {
    var v: nat :| DependsOn(net, seen, v, v);
    var p :| Chain(net, seen, p) && p[0] == v && p[|p| - 1] == v;
    forall k: nat | 1 <= k < |p| ensures ChainStep(net, seen', p, k) {
      assert ChainStep(net, seen, p, k);
    }
    assert Chain(net, seen', p);
    assert DependsOn(net, seen', v, v);
  }

  lemma {:induction false} DoneUpTo(net: Net, mark: seq<bool>, done: set<nat>, p: seq<nat>, j: nat, k: nat)
    requires SettledBy(net, mark, done) && Chain(net, {}, p) && j <= k < |p| && p[j] in done
    ensures p[k] in done
  {
    if j < k {
      DoneUpTo(net, mark, done, p, j, k - 1);
      assert ChainStep(net, {}, p, k);
    }
  }

  lemma SettledChain(net: Net, mark: seq<bool>, done: set<nat>, p: seq<nat>, v: nat)
    requires SettledBy(net, mark, done) && Chain(net, {}, p) && p[0] == v && p[|p| - 1] == v
    ensures Chain(net, if v in done then NotIn(|net.types|, done) else MarkedIn(mark), p)
  {
    hide Cyclic;
    var rest := if v in done then NotIn(|net.types|, done) else MarkedIn(mark);
    forall k: nat | 1 <= k < |p| ensures ChainStep(net, rest, p, k) {
      assert ChainStep(net, {}, p, k);
      if v in done {
        DoneUpTo(net, mark, done, p, 0, k - 1);
        DoneUpTo(net, mark, done, p, 0, k);
      } else {
        if p[k - 1] in done { DoneUpTo(net, mark, done, p, k - 1, |p| - 1); }
        if p[k] in done { DoneUpTo(net, mark, done, p, k, |p| - 1); }
      }
    }
  }

  /** Then the marks hide no cycle. */
  lemma SettledIsExact(net: Net, mark: seq<bool>)
    requires Settled(net, mark)
    ensures Cyclic(net, MarkedIn(mark)) <==> Cyclic(net, {})
  {
    var done :| SettledBy(net, mark, done);
    if Cyclic(net, MarkedIn(mark)) { FewerExcluded(net, MarkedIn(mark), {}); }
    if Cyclic(net, {}) {
      var v: nat :| DependsOn(net, {}, v, v);
      var p :| Chain(net, {}, p) && p[0] == v && p[|p| - 1] == v;
      SettledChain(net, mark, done, p, v);
      assert DependsOn(net, if v in done then NotIn(|net.types|, done) else MarkedIn(mark), v, v);
    }
  }

  ghost function Gates(net: Net): (r: set<nat>) {
    set v: nat | v < |net.types| && IsGate(net, v)
  }

  /** Any marks on an acyclic net do no harm, as long as they mark what is defined. */
  lemma AcyclicSettles(net: Net, mark: seq<bool>)
    requires |mark| == |net.types| && !Cyclic(net, {})
    requires forall v: nat, u: nat {:trigger Child(net, v, u)} :: Child(net, v, u) ==> DefinedVar(net, u)
    requires forall v: nat {:trigger mark[v]} :: v < |mark| && mark[v] ==> DefinedVar(net, v)
    ensures Settled(net, mark)
  {
    hide Cyclic;
    if Cyclic(net, NotIn(|net.types|, Gates(net))) { FewerExcluded(net, NotIn(|net.types|, Gates(net)), {}); }
    assert SettledBy(net, mark, Gates(net));
  }

  /** So does a successful check. */
  lemma CheckSettles(c: Circuit, mark: seq<bool>, mark': seq<bool>)
    requires Settled(NetOf(c), mark) && Passes(c, mark, mark')
    ensures Settled(NetOf(c), mark')
  {
    hide Cyclic;
    var net := NetOf(c);
    var done :| SettledBy(net, mark, done);
    SettledIsExact(net, mark);
    forall v: nat | v < |mark'| && mark'[v] ensures DefinedVar(net, v) {
      assert mark[v] || IsGate(net, v);
    }
    AcyclicSettles(net, mark');
  }

  /** The tables grow; of the types only that of `v` may be new, and `v` had none. */
  ghost predicate GrowsBy(a: Net, b: Net, v: nat) {
    && |a.types| <= |b.types| && a.ands <= b.ands && v > 0
    && (v < |a.types| ==> !a.types[v].input && !a.types[v].latch && !a.types[v].isAnd)
    && forall w {:trigger b.types[w]} :: 0 <= w < |b.types| && w != v ==> b.types[w] == if w < |a.types| then a.types[w] else UNUSED
  }

  ghost function MoreMarks(mark: seq<bool>, n: nat): (r: seq<bool>)
    ensures |mark| <= n ==> |r| == n
  {
    if |mark| <= n then mark + seq(n - |mark|, i => false) else mark
  }

  lemma OldGate(a: Net, b: Net, v: nat, w: nat)
    requires NetOk(a) && GrowsBy(a, b, v) && w < |a.types| && w != v && (IsGate(b, w) || IsGate(a, w))
    ensures IsGate(a, w) && IsGate(b, w) && GateOf(b, w) == GateOf(a, w)
  {
    assert b.types[w] == a.types[w];
    assert GateOk(a, w);
  }

  lemma OldChild(a: Net, b: Net, v: nat, mark: seq<bool>, done: set<nat>, w: nat, u: nat)
    requires NetOk(a) && GrowsBy(a, b, v) && SettledBy(a, mark, done) && Child(b, w, u) && w in done
    ensures Child(a, w, u) && u != v && DefinedVar(b, u)
    ensures IsGate(b, u) ==> IsGate(a, u) && u in done
  {
    hide Cyclic;
    assert IsGate(a, w) && w != v;
    OldGate(a, b, v, w);
    assert Child(a, w, u);
    assert DefinedVar(a, u) && u > 0;
    assert b.types[u] == a.types[u];
    if IsGate(b, u) { OldGate(a, b, v, u); }
  }

  /** Defining a variable leaves the marks settled. */
  lemma GrowSettles(a: Net, b: Net, v: nat, mark: seq<bool>)
    requires NetOk(a) && GrowsBy(a, b, v) && Settled(a, mark)
    ensures Settled(b, MoreMarks(mark, |b.types|))
  {
    hide MoreMarks, Cyclic;
    var done :| SettledBy(a, mark, done);
    var mark' := MoreMarks(mark, |b.types|);
    MoreMarksAt(mark, |b.types|);
    forall w: nat | w < |mark'| && mark'[w] ensures DefinedVar(b, w) && (IsGate(b, w) ==> w in done) {
      assert DefinedVar(a, w);
      if w > 0 {
        assert b.types[w] == a.types[w];
        if IsGate(b, w) { OldGate(a, b, v, w); }
      } else if IsGate(b, w) { OldGate(a, b, v, w); }
    }
    forall w: nat | w in done ensures IsGate(b, w) {
      assert IsGate(a, w) && w != v;
      OldGate(a, b, v, w);
    }
    forall w: nat, u: nat | Child(b, w, u) && w in done ensures DefinedVar(b, u) && (IsGate(b, u) ==> u in done) {
      OldChild(a, b, v, mark, done, w, u);
    }
    if Cyclic(b, NotIn(|b.types|, done)) { OldCycle(a, b, v, mark, done); }
    assert SettledBy(b, mark', done);
  }

  lemma MoreMarksAt(mark: seq<bool>, n: nat)
    requires |mark| <= n
    ensures |MoreMarks(mark, n)| == n && forall w: nat :: w < n ==> (MoreMarks(mark, n)[w] <==> w < |mark| && mark[w])
  {
  }

  lemma OldCycle(a: Net, b: Net, v: nat, mark: seq<bool>, done: set<nat>)
    requires NetOk(a) && GrowsBy(a, b, v) && SettledBy(a, mark, done) && Cyclic(b, NotIn(|b.types|, done))
    ensures Cyclic(a, NotIn(|a.types|, done))
  {
    var x: nat :| DependsOn(b, NotIn(|b.types|, done), x, x);
    var p :| Chain(b, NotIn(|b.types|, done), p) && p[0] == x && p[|p| - 1] == x;
    forall k: nat | 1 <= k < |p| ensures ChainStep(a, NotIn(|a.types|, done), p, k) {
      assert ChainStep(b, NotIn(|b.types|, done), p, k);
      OldChild(a, b, v, mark, done, p[k - 1], p[k]);
    }
    assert Chain(a, NotIn(|a.types|, done), p);
    assert DependsOn(a, NotIn(|a.types|, done), x, x);
  }

  // ---------------------------------------------------------------- runs of the library

  /** The library between two calls: the circuit so far, the mark bits, and how far the type table has been used. */
  datatype Library = Library(c: Circuit, mark: seq<bool>, high: nat)

  /** `aiger_init`. */
  const FRESH := Library(Circuit(0, [], [], [], [], [], [], [], [], [UNUSED]), [false], 1)

  /** An input, a latch or a gate is added. */
  ghost predicate Adds(c: Circuit, d: Circuit) {
    |c.types| == c.maxvar + 1 && (
      || (exists lit :: CanDefine(c, lit) && d == AddInput(c, lit))
      || (exists lit, next :: CanDefine(c, lit) && d == AddLatch(c, lit, next))
      || (exists lhs, rhs0, rhs1 :: CanDefine(c, lhs) && d == AddAnd(c, lhs, rhs0, rhs1)))
  }

  /** A literal is named by an output or a property. */
  ghost predicate Names(c: Circuit, d: Circuit) {
    |c.types| == c.maxvar + 1 && exists lit ::
      d == Import(c, lit).(outputs := d.outputs, bad := d.bad, constraints := d.constraints, justice := d.justice, fairness := d.fairness)
  }

  function Larger(a: nat, b: nat): (r: nat) {
    if a < b then b else a
  }

  /** New variables come unmarked, and not from among those a re-encoding has left behind. */
  ghost predicate Grows(a: Library, b: Library) {
    && b.mark == MoreMarks(a.mark, |b.c.types|) && b.high == Larger(a.high, |b.c.types|)
    && (|b.c.types| > |a.c.types| ==> |a.c.types| >= a.high)
  }

  /** `aiger_reencode`: a checked circuit in normal form over no more variables, with whatever marks. */
  ghost predicate Reencodes(a: Library, b: Library) {
    && CheckedCircuit(b.c) && NormalForm(b.c) && b.c.maxvar <= a.c.maxvar
    && |b.mark| == |b.c.types| && b.high == a.high
  }

  ghost predicate Call(a: Library, b: Library) {
    || ((Adds(a.c, b.c) || Names(a.c, b.c)) && Grows(a, b))
    || (b.c == a.c && b.high == a.high && Passes(a.c, a.mark, b.mark))
    || Reencodes(a, b)
  }

  ghost predicate Ready(c: Circuit, mark: seq<bool>) {
    TablesMatch(c) && NetOk(NetOf(c)) && Settled(NetOf(c), mark)
  }

  lemma FreshReady()
    ensures Ready(FRESH.c, FRESH.mark)
  {
    var net := NetOf(FRESH.c);
    assert TypeOk(FRESH.c, 0);
    RankExcludesCycle(net, {}, (v: nat) => 0);
    AcyclicSettles(net, FRESH.mark);
  }

  /** Operands of new gates are in the table, so the net stays well formed. */
  lemma GrownNetOk(a: Net, b: Net, v: nat)
    requires NetOk(a) && GrowsBy(a, b, v)
    requires v < |b.types| ==> GateOk(b, v)
    ensures NetOk(b)
  {
    forall w: nat | w < |b.types| ensures GateOk(b, w) {
      if w != v && w < |a.types| {
        assert b.types[w] == a.types[w] && GateOk(a, w);
      }
    }
  }

  lemma AddKeepsReady(c: Circuit, d: Circuit, mark: seq<bool>)
    requires Ready(c, mark) && Adds(c, d)
    ensures Ready(d, MoreMarks(mark, |d.types|))
  {
    hide TablesMatch, Settled, AddInput, AddLatch, AddAnd;
    if lit :| CanDefine(c, lit) && d == AddInput(c, lit) {
      InputAdded(c, lit);
      Added(c, d, mark, Lit2Var(lit), InputType(|c.inputs|));
    } else if lit, next :| CanDefine(c, lit) && d == AddLatch(c, lit, next) {
      LatchAdded(c, lit, next);
      Added(c, d, mark, Lit2Var(lit), LatchType(|c.latches|));
    } else {
      var lhs, rhs0, rhs1 :| CanDefine(c, lhs) && d == AddAnd(c, lhs, rhs0, rhs1);
      AndAdded(c, lhs, rhs0, rhs1);
      Added(c, d, mark, Lit2Var(lhs), AndType(|c.ands|));
    }
  }

  lemma Added(c: Circuit, d: Circuit, mark: seq<bool>, v: nat, t: AType)
    requires Ready(c, mark) && TablesMatch(d) && OneMore(c, d, v, t) && Unused(c, v) && c.ands <= d.ands
    requires GateOk(NetOf(d), v)
    ensures Ready(d, MoreMarks(mark, |d.types|))
  {
    hide TablesMatch, Settled;
    assert GrowsBy(NetOf(c), NetOf(d), v);
    GrownNetOk(NetOf(c), NetOf(d), v);
    GrowSettles(NetOf(c), NetOf(d), v, mark);
  }

  lemma NameKeepsReady(c: Circuit, d: Circuit, mark: seq<bool>)
    requires Ready(c, mark) && Names(c, d)
    ensures Ready(d, MoreMarks(mark, |d.types|))
  {
    hide Settled;
    assert GrowsBy(NetOf(c), NetOf(d), |d.types|);
    GrownNetOk(NetOf(c), NetOf(d), |d.types|);
    GrowSettles(NetOf(c), NetOf(d), |d.types|, mark);
    forall w: nat | w < |d.types| ensures TypeOk(d, w) {
      if w < |c.types| { assert TypeOk(c, w); }
    }
  }

  lemma PassKeepsReady(c: Circuit, mark: seq<bool>, mark': seq<bool>)
    requires Ready(c, mark) && Passes(c, mark, mark')
    ensures Ready(c, mark')
  {
    hide TablesMatch, Cyclic, Settled, Passes;
    CheckSettles(c, mark, mark');
  }

  /** In normal form no variable is unused. */
  lemma NormalUsesAll(c: Circuit, v: nat)
    requires NormalForm(c) && 0 < v < |c.types|
    ensures DefinedVar(NetOf(c), v)
  {
    var i, l := |c.inputs|, |c.latches|;
    if v <= i {
      assert Owns(c, c.inputs[v - 1], InputType(v - 1));
    } else if v <= i + l {
      assert Owns(c, c.latches[v - 1 - i].lit, LatchType(v - 1 - i));
    } else {
      assert Owns(c, c.ands[v - 1 - i - l].lhs, AndType(v - 1 - i - l));
    }
  }

  lemma ReencodedReady(c: Circuit, mark: seq<bool>)
    requires CheckedCircuit(c) && NormalForm(c) && |mark| == |c.types|
    ensures Ready(c, mark)
  {
    hide Root, NormalForm;
    CheckedNet(c);
    forall v: nat | v < |mark| && mark[v] ensures DefinedVar(NetOf(c), v) {
      if v > 0 { NormalUsesAll(c, v); }
    }
    AcyclicSettles(NetOf(c), mark);
  }

  ghost predicate Run(run: seq<Library>) {
    run != [] && run[0] == FRESH && forall k: nat {:trigger CallAt(run, k)} :: 1 <= k < |run| ==> CallAt(run, k)
  }

  ghost predicate CallAt(run: seq<Library>, k: nat)
    requires 1 <= k < |run|
  {
    Call(run[k - 1], run[k])
  }

  lemma {:induction false} RunReady(run: seq<Library>, k: nat)
    requires Run(run) && k < |run|
    ensures Ready(run[k].c, run[k].mark)
  {
    hide Ready, Adds, Names, Passes, CheckedCircuit, NormalForm;
    if k == 0 {
      FreshReady();
    } else {
      RunReady(run, k - 1);
      assert CallAt(run, k);
      var a, b := run[k - 1], run[k];
      if Adds(a.c, b.c) && Grows(a, b) {
        AddKeepsReady(a.c, b.c, a.mark);
      } else if Names(a.c, b.c) && Grows(a, b) {
        NameKeepsReady(a.c, b.c, a.mark);
      } else if Reencodes(a, b) {
        ReencodedReady(b.c, b.mark);
      } else {
        PassKeepsReady(a.c, a.mark, b.mark);
      }
    }
  }

  /** At every point of every run of calls the next check sees all cycles, whatever earlier checks have marked. */
  lemma MarksNeverHide(run: seq<Library>, k: nat)
    requires Run(run) && k < |run|
    ensures var net, mark := NetOf(run[k].c), run[k].mark;
      NetOk(net) && |mark| == |net.types| && (Cyclic(net, MarkedIn(mark)) <==> Cyclic(net, {}))
  {
    RunReady(run, k);
    SettledIsExact(NetOf(run[k].c), run[k].mark);
  }

  /** Resets are what `aiger_add_reset` allows. */
  ghost predicate ResetsAllowed(c: Circuit) {
    forall i {:trigger c.latches[i]} :: 0 <= i < |c.latches| ==> c.latches[i].reset <= 1 || c.latches[i].reset == c.latches[i].lit
  }

  /** So on such runs `aiger_check` reports no error exactly for the circuits that every later call takes as checked. */
  lemma CheckIsExact(run: seq<Library>, k: nat)
    requires Run(run) && k < |run| && ResetsAllowed(run[k].c)
    ensures var c, mark := run[k].c, run[k].mark;
      NamedDefined(c) && OperandsDefined(c) && !Cyclic(NetOf(c), MarkedIn(mark)) <==> CheckedCircuit(c)
  {
    hide Cyclic, Run;
    var c := run[k].c;
    RunReady(run, k);
    SettledIsExact(NetOf(c), run[k].mark);
    DefinedIffRoots(c);
    OperandsIff(c);
  }

  lemma OperandsIff(c: Circuit)
    requires TablesMatch(c)
    ensures OperandsDefined(c) <==>
      forall i {:trigger c.ands[i]} :: 0 <= i < |c.ands| ==> LitOk(c, c.ands[i].rhs0) && LitOk(c, c.ands[i].rhs1)
  {
    forall lit: nat ensures IsDefined(c, lit) <==> LitOk(c, lit) {}
    if forall i {:trigger c.ands[i]} :: 0 <= i < |c.ands| ==> LitOk(c, c.ands[i].rhs0) && LitOk(c, c.ands[i].rhs1) {
      forall i | 0 <= i < |c.ands| ensures IsDefined(c, c.ands[i].rhs0) && IsDefined(c, c.ands[i].rhs1) {
        assert LitOk(c, c.ands[i].rhs0);
      }
    }
  }

  lemma DefinedIffRoots(c: Circuit)
    requires TablesMatch(c) && ResetsAllowed(c)
    ensures NamedDefined(c) <==> forall lit :: Root(c, lit) ==> LitOk(c, lit)
  {
    if NamedDefined(c) {
      forall lit | Root(c, lit) ensures LitOk(c, lit) {
        NamedIsDefined(c, lit);
      }
    }
    if forall lit :: Root(c, lit) ==> LitOk(c, lit) {
      forall lit | lit in Nexts(c) ensures IsDefined(c, lit) {
        var i :| 0 <= i < |c.latches| && c.latches[i].next == lit;
        assert Root(c, lit);
      }
      forall lit | lit in c.outputs || lit in c.bad || lit in c.constraints || lit in c.fairness ensures IsDefined(c, lit) {
        assert Root(c, lit);
      }
      forall i, lit | 0 <= i < |c.justice| && lit in c.justice[i] ensures IsDefined(c, lit) {
        assert Root(c, lit);
      }
    }
  }

  lemma NamedIsDefined(c: Circuit, lit: nat)
    requires TablesMatch(c) && ResetsAllowed(c) && NamedDefined(c) && Root(c, lit)
    ensures LitOk(c, lit)
  {
    if i :| 0 <= i < |c.latches| && (lit == c.latches[i].next || lit == c.latches[i].reset) {
      assert Nexts(c)[i] in Nexts(c);
      assert IsDefined(c, c.latches[i].next);
      assert Owns(c, c.latches[i].lit, LatchType(i));
    } else {
      assert IsDefined(c, lit) by {
        if i :| 0 <= i < |c.justice| && lit in c.justice[i] { assert AllAreDefined(c, c.justice[i]); }
      }
    }
  }
}
