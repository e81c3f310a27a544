/** The circuits the binary AIGER reader builds, and which streams it accepts (its/aiger/aiger.c).

    The reader accepts exactly the streams that spell a circuit numbered without gaps whose literals name its
    variables; only the literals of justice properties are not checked. */
module AigerAccept {
  import opened AigerNet
  import opened AigerCircuit
  import opened AigerRenumbered
  import opened AigerBytes
  import opened AigerFormat
  import opened AigerGrammar

  // ---------------------------------------------------------------- what the reader has built

  /** The types with `i` inputs, `l` latches and `g` gates, numbered in this order. */
  ghost function Types(m: nat, i: nat, l: nat, g: nat): (r: seq<AType>)
    ensures |r| == m + 1
  {
    seq(m + 1, v requires 0 <= v <= m => TypeAt(i, l, g, v))
  }

  ghost function TypeAt(i: nat, l: nat, g: nat, v: nat): (t: AType) {
    if v == 0 then UNUSED
    else if v <= i then InputType(v - 1)
    else if v <= i + l then LatchType(v - 1 - i)
    else if v <= i + l + g then AndType(v - 1 - i - l)
    else UNUSED
  }

  ghost function Evens(n: nat): (r: seq<nat>) {
    seq(n, k requires 0 <= k < n => 2 * (k + 1))
  }

  /** `i` inputs and some latches. */
  ghost function Leaves(m: nat, i: nat, ls: seq<Latch>): (c: Circuit)
    ensures |c.types| == c.maxvar + 1
  {
    Circuit(m, Evens(i), ls, [], [], [], [], [], [], Types(m, i, |ls|, 0))
  }

  lemma {:induction false} InputsRead(m: nat, s: seq<Byte>, i: nat, n: nat)
    requires i <= n <= m && 2 * m + 1 < WORD
    ensures ParseInputs(Leaves(m, i, []), s, i, n) == Ok(Leaves(m, n, []), s)
    decreases n - i
  {
    hide Leaves, AddInput, CanDefine;
    if i < n {
      InputStep(m, i);
      InputsRead(m, s, i + 1, n);
    }
  }

  lemma InputStep(m: nat, i: nat)
    requires i < m && 2 * m + 1 < WORD
    ensures CanDefine(Leaves(m, i, []), 2 * (i + 1)) && AddInput(Leaves(m, i, []), 2 * (i + 1)) == Leaves(m, i + 1, [])
  {
    var c := Leaves(m, i, []);
    assert c.types[i + 1 := c.types[i + 1].(input := true, idx := i)] == Types(m, i + 1, 0, 0);
    assert Evens(i) + [2 * (i + 1)] == Evens(i + 1);
  }

  /** A latch as the reader numbers it, its next state within the table, its reset one that may be set. */
  ghost predicate LatchAt(m: nat, i: nat, k: nat, l: Latch) {
    l.lit == 2 * (i + k + 1) && Lit2Var(l.next) <= m && (l.reset <= 1 || l.reset == l.lit)
  }

  lemma LatchStep(m: nat, i: nat, ls: seq<Latch>, l: Latch)
    requires i + |ls| < m && 2 * m + 1 < WORD && LatchAt(m, i, |ls|, l)
    ensures var c, d := Leaves(m, i, ls), Leaves(m, i, ls + [l]);
      && CanDefine(c, l.lit)
      && (l.reset == 0 ==> AddLatch(c, l.lit, l.next) == d) && AddReset(AddLatch(c, l.lit, l.next), l.lit, l.reset) == d
  {
    var c, v := Leaves(m, i, ls), i + |ls| + 1;
    assert Lit2Var(l.lit) == v;
    assert c.types[v := c.types[v].(latch := true, idx := |ls|)] == Types(m, i, |ls| + 1, 0);
    assert Import(c, l.lit) == c;
    var e := c.(types := Types(m, i, |ls| + 1, 0));
    assert Import(e, l.next) == e;
    assert (ls + [Latch(l.lit, l.next, 0)])[|ls| := l] == ls + [l];
  }

  lemma LatchRead(m: nat, i: nat, ls: seq<Latch>, l: Latch, s: seq<Byte>, t: seq<Byte>)
    requires i + |ls| < m && 2 * m + 1 < WORD && LatchAt(m, i, |ls|, l) && LatchIs(s, l.next, l.reset, t)
    ensures ParseLatch(Leaves(m, i, ls), s, l.lit) == Ok(Leaves(m, i, ls + [l]), t)
  {
    hide ParseLiteral, Spells, Leaves, AddLatch, AddReset, CanDefine;
    LatchStep(m, i, ls, l);
    LeavesSize(m, i, ls);
    if l.reset == 0 && Spells(s, l.next, NEWLINE, t) {
      LiteralIff(s, ByEither, l.next, NEWLINE, t);
    } else {
      var u :| Spells(s, l.next, SPACE, u) && Spells(u, l.reset, NEWLINE, t);
      LiteralIff(s, ByEither, l.next, SPACE, u);
      LiteralIff(u, ByNewLine, l.reset, NEWLINE, t);
    }
  }

  lemma LeavesSize(m: nat, i: nat, ls: seq<Latch>)
    ensures Leaves(m, i, ls).maxvar == m
  {
  }

  lemma LatchParsed(m: nat, i: nat, ls: seq<Latch>, s: seq<Byte>) returns (l: Latch)
    requires i + |ls| < m && 2 * m + 1 < WORD && ParseLatch(Leaves(m, i, ls), s, 2 * (i + |ls| + 1)).Ok?
    ensures var r := ParseLatch(Leaves(m, i, ls), s, 2 * (i + |ls| + 1));
      LatchAt(m, i, |ls|, l) && LatchIs(s, l.next, l.reset, r.rest) && r.value == Leaves(m, i, ls + [l])
  {
    hide ParseLiteral, Spells, Leaves, AddLatch, AddReset, CanDefine;
    LeavesSize(m, i, ls);
    var lit := 2 * (i + |ls| + 1);
    var next := ParseLiteral(s, ByEither);
    LiteralIff(s, ByEither, next.value.value, next.value.follow, next.rest);
    if next.value.follow != SPACE {
      l := Latch(lit, next.value.value, 0);
    } else {
      var reset := ParseLiteral(next.rest, ByNewLine);
      LiteralIff(next.rest, ByNewLine, reset.value.value, reset.value.follow, reset.rest);
      l := Latch(lit, next.value.value, reset.value.value);
    }
    LatchStep(m, i, ls, l);
  }

  ghost predicate LatchesAt(m: nat, i: nat, ls: seq<Latch>) {
    forall k {:trigger ls[k]} :: 0 <= k < |ls| ==> LatchAt(m, i, k, ls[k])
  }

  lemma {:induction false} LatchesRead(m: nat, i: nat, ls: seq<Latch>, k: nat, s: seq<Byte>, t: seq<Byte>)
    requires i + |ls| <= m && 2 * m + 1 < WORD && LatchesAt(m, i, ls) && k <= |ls| && LatchesAre(s, ls[k..], t)
    ensures ParseLatches(Leaves(m, i, ls[..k]), s, i, k, |ls|) == Ok(Leaves(m, i, ls), t)
    decreases |ls| - k
  {
    hide ParseLatch, LatchIs, Leaves, LatchAt;
    if k < |ls| {
      var u :| LatchIs(s, ls[k..][0].next, ls[k..][0].reset, u) && LatchesAre(u, ls[k..][1..], t);
      assert ls[k..][1..] == ls[k + 1..] && ls[..k] + [ls[k]] == ls[..k + 1];
      LatchLit(m, i, k, ls[k]);
      LatchRead(m, i, ls[..k], ls[k], s, u);
      LatchesRead(m, i, ls, k + 1, u, t);
    } else {
      assert ls[..k] == ls && ls[k..] == [];
    }
  }

  lemma LatchLit(m: nat, i: nat, k: nat, l: Latch)
    requires LatchAt(m, i, k, l)
    ensures l.lit == 2 * (i + k + 1)
  {
  }

  lemma {:induction false} LatchesParsed(m: nat, i: nat, before: seq<Latch>, s: seq<Byte>, n: nat) returns (ls: seq<Latch>)
    requires |before| <= n && i + n <= m && 2 * m + 1 < WORD && LatchesAt(m, i, before)
    requires ParseLatches(Leaves(m, i, before), s, i, |before|, n).Ok?
    ensures var r := ParseLatches(Leaves(m, i, before), s, i, |before|, n);
      && |before + ls| == n && LatchesAt(m, i, before + ls) && LatchesAre(s, ls, r.rest) && r.value == Leaves(m, i, before + ls)
    decreases n - |before|
  {
    hide ParseLatch, LatchIs, Leaves, LatchAt;
    if |before| == n {
      ls := [];
      assert before + ls == before;
    } else {
      var l := LatchParsed(m, i, before, s);
      var rest := ParseLatch(Leaves(m, i, before), s, 2 * (i + |before| + 1)).rest;
      var more := LatchesParsed(m, i, before + [l], rest, n);
      ls := [l] + more;
      assert before + ls == (before + [l]) + more && ls[1..] == more;
    }
  }

  // ---------------------------------------------------------------- justice

  /** The table holds variable `m`. */
  ghost function Grown(c: Circuit, m: nat): (d: Circuit) {
    if m <= c.maxvar then c else c.(maxvar := m, types := Types(m, |c.inputs|, |c.latches|, 0))
  }

  ghost function Top(lits: seq<nat>): (m: nat)
    ensures forall i {:trigger lits[i]} :: 0 <= i < |lits| ==> Lit2Var(lits[i]) <= m
    ensures m == 0 || exists i {:trigger lits[i]} :: 0 <= i < |lits| && Lit2Var(lits[i]) == m
  {
    if lits == [] then 0
    else
      var v, more := Lit2Var(lits[0]), Top(lits[1..]);
      assert forall i :: 0 < i < |lits| ==> lits[i] == lits[1..][i - 1];
      if more > 0 then assert exists i :: 0 <= i < |lits[1..]| && Lit2Var(lits[1..][i]) == more; if v > more then v else more
      else v
  }

  ghost function TopOf(lists: seq<seq<nat>>): (m: nat)
    ensures forall j {:trigger lists[j]} :: 0 <= j < |lists| ==> Top(lists[j]) <= m
    ensures m == 0 || exists j {:trigger lists[j]} :: 0 <= j < |lists| && Top(lists[j]) == m
  {
    if lists == [] then 0
    else
      var v, more := Top(lists[0]), TopOf(lists[1..]);
      assert forall j :: 0 < j < |lists| ==> lists[j] == lists[1..][j - 1];
      if more > 0 then assert exists j :: 0 <= j < |lists[1..]| && Top(lists[1..][j]) == more; if v > more then v else more
      else v
  }

  /** Inputs and latches are in the table, and nothing else. */
  ghost predicate Leafy(c: Circuit) {
    c.types == Types(c.maxvar, |c.inputs|, |c.latches|, 0) && |c.inputs| + |c.latches| <= c.maxvar
  }

  lemma GrownTwice(c: Circuit, a: nat, b: nat)
    requires Leafy(c)
    ensures Leafy(Grown(c, a)) && Grown(Grown(c, a), b) == Grown(c, if a > b then a else b)
  {
  }

  lemma {:induction false} ImportAllIs(c: Circuit, lits: seq<nat>)
    requires Leafy(c)
    ensures ImportAll(c, lits) == Grown(c, Top(lits))
    decreases |lits|
  {
    hide Types;
    if lits != [] {
      ImportIs(c, lits[0]);
      GrownTwice(c, Lit2Var(lits[0]), Top(lits[1..]));
      ImportAllIs(Import(c, lits[0]), lits[1..]);
    }
  }

  lemma ImportIs(c: Circuit, lit: nat)
    requires Leafy(c)
    ensures Import(c, lit) == Grown(c, Lit2Var(lit))
  {
    var v := Lit2Var(lit);
    if v > c.maxvar {
      assert c.types + seq(v - c.maxvar, i => UNUSED) == Types(v, |c.inputs|, |c.latches|, 0);
    }
  }

  /** The circuit with justice properties added. */
  ghost function WithJustice(c: Circuit, lists: seq<seq<nat>>): (d: Circuit)
    requires Leafy(c)
    ensures Leafy(d)
  {
    Grown(c, TopOf(lists)).(justice := c.justice + lists)
  }

  lemma NoJustice(c: Circuit)
    requires Leafy(c)
    ensures WithJustice(c, []) == c && |c.types| == c.maxvar + 1
  {
    assert c.justice + [] == c.justice;
  }

  lemma GrownKeeps(c: Circuit, m: nat, lists: seq<seq<nat>>)
    requires Leafy(c)
    ensures Grown(c, m).justice == c.justice && Leafy(Grown(c, m).(justice := lists)) && |c.types| == c.maxvar + 1
  {
  }

  lemma GrownAgain(c: Circuit, a: nat, b: nat, lists: seq<seq<nat>>)
    requires Leafy(c)
    ensures Grown(Grown(c, a).(justice := lists), b) == Grown(Grown(c, a), b).(justice := lists)
  {
  }

  lemma JusticeStep(c: Circuit, lits: seq<nat>, more: seq<seq<nat>>)
    requires Leafy(c)
    ensures Leafy(AddJustice(c, lits)) && WithJustice(AddJustice(c, lits), more) == WithJustice(c, [lits] + more)
  {
    hide Types, Grown, Top, Leafy;
    ImportAllIs(c, lits);
    GrownTwice(c, Top(lits), TopOf(more));
    assert ([lits] + more)[1..] == more;
    var d := Grown(c, Top(lits)).(justice := c.justice + [lits]);
    GrownKeeps(c, Top(lits), d.justice);
    GrownAgain(c, Top(lits), TopOf(more), d.justice);
    assert (c.justice + [lits]) + more == c.justice + ([lits] + more);
  }

  lemma WordLits(s: seq<Byte>, lits: seq<nat>, t: seq<Byte>)
    requires LinesAre(s, lits, t)
    ensures AllUpTo(lits, WORD)
    decreases |lits|
  {
    if lits != [] {
      var u :| Spells(s, lits[0], NEWLINE, u) && LinesAre(u, lits[1..], t);
      WordLits(u, lits[1..], t);
      assert forall i :: 0 < i < |lits| ==> lits[i] == lits[1..][i - 1];
    }
  }

  lemma {:induction false} JusticeRead(c: Circuit, s: seq<Byte>, lists: seq<seq<nat>>, t: seq<Byte>)
    requires Leafy(c) && ListsAre(s, lists, t)
    ensures ParseJustice(c, s, ListSizes(lists)) == Ok(WithJustice(c, lists), t)
    decreases |lists|
  {
    hide LinesAre, ParseLits, AddJustice, WithJustice, Leafy;
    NoJustice(c);
    if lists != [] {
      var u :| LinesAre(s, lists[0], u) && ListsAre(u, lists[1..], t);
      WordLits(s, lists[0], u);
      LitsIff(s, |lists[0]|, WORD, lists[0], u);
      assert ListSizes(lists)[1..] == ListSizes(lists[1..]);
      JusticeStep(c, lists[0], lists[1..]);
      JusticeRead(AddJustice(c, lists[0]), u, lists[1..], t);
      assert [lists[0]] + lists[1..] == lists;
    }
  }

  lemma {:induction false} JusticeParsed(c: Circuit, s: seq<Byte>, sizes: seq<nat>) returns (lists: seq<seq<nat>>)
    requires Leafy(c) && ParseJustice(c, s, sizes).Ok?
    ensures ListSizes(lists) == sizes && ListsAre(s, lists, ParseJustice(c, s, sizes).rest)
    ensures ParseJustice(c, s, sizes).value == WithJustice(c, lists)
    decreases |sizes|
  {
    hide LinesAre, ParseLits, AddJustice, WithJustice, Leafy;
    NoJustice(c);
    if sizes == [] {
      lists := [];
    } else {
      var lits := ParseLits(s, sizes[0], WORD);
      LitsIff(s, sizes[0], WORD, lits.value, lits.rest);
      JusticeStep(c, lits.value, []);
      var more := JusticeParsed(AddJustice(c, lits.value), lits.rest, sizes[1..]);
      JusticeStep(c, lits.value, more);
      lists := [lits.value] + more;
      assert lists[1..] == more && ListSizes(lists) == [sizes[0]] + ListSizes(more);
    }
  }

  // ---------------------------------------------------------------- gates

  /** The circuit with these gates above its leaves. */
  ghost function WithGates(c: Circuit, gs: seq<And>): (d: Circuit)
    ensures |d.types| == d.maxvar + 1
  {
    c.(ands := gs, types := Types(c.maxvar, |c.inputs|, |c.latches|, |gs|))
  }

  /** A gate as the reader numbers it above `n` leaves, its operands in order and not above it. */
  ghost predicate GateAt(n: nat, k: nat, g: And) {
    g.lhs == 2 * (n + k + 1) && g.rhs1 <= g.rhs0 <= g.lhs
  }

  lemma GateStep(c: Circuit, gs: seq<And>, g: And)
    requires var n := |c.inputs| + |c.latches|; GateAt(n, |gs|, g) && n + |gs| < c.maxvar
    ensures CanDefine(WithGates(c, gs), g.lhs) && AddAnd(WithGates(c, gs), g.lhs, g.rhs0, g.rhs1) == WithGates(c, gs + [g])
  {
    var d, v := WithGates(c, gs), |c.inputs| + |c.latches| + |gs| + 1;
    assert Lit2Var(g.lhs) == v;
    assert d.types[v := d.types[v].(isAnd := true, idx := |gs|)] == Types(c.maxvar, |c.inputs|, |c.latches|, |gs| + 1);
    assert gs + [And(g.lhs, g.rhs0, g.rhs1)] == gs + [g];
  }

  lemma GateRead(c: Circuit, gs: seq<And>, g: And, s: seq<Byte>, t: seq<Byte>)
    requires var n := |c.inputs| + |c.latches|; GateAt(n, |gs|, g) && n + |gs| < c.maxvar && GateIs(s, g, t)
    ensures ParseGate(WithGates(c, gs), s, g.lhs) == Ok(WithGates(c, gs + [g]), t)
  {
    hide DeltaFrom, DeltaSpells, WithGates, AddAnd, CanDefine;
    GateStep(c, gs, g);
    var u :| DeltaSpells(s, g.lhs - g.rhs0, u) && DeltaSpells(u, g.rhs0 - g.rhs1, t);
    DeltaIff(s, g.lhs - g.rhs0, u);
    DeltaIff(u, g.rhs0 - g.rhs1, t);
  }

  lemma GateParsed(c: Circuit, gs: seq<And>, s: seq<Byte>) returns (g: And)
    requires |c.inputs| + |c.latches| + |gs| < c.maxvar
    requires ParseGate(WithGates(c, gs), s, 2 * (|c.inputs| + |c.latches| + |gs| + 1)).Ok?
    ensures var r := ParseGate(WithGates(c, gs), s, 2 * (|c.inputs| + |c.latches| + |gs| + 1));
      GateAt(|c.inputs| + |c.latches|, |gs|, g) && GateIs(s, g, r.rest) && r.value == WithGates(c, gs + [g])
  {
    hide DeltaFrom, DeltaSpells, WithGates, AddAnd, CanDefine;
    var lhs := 2 * (|c.inputs| + |c.latches| + |gs| + 1);
    var d0 := DeltaFrom(s, 0, 0);
    var d1 := DeltaFrom(d0.rest, 0, 0);
    DeltaIff(s, d0.value, d0.rest);
    DeltaIff(d0.rest, d1.value, d1.rest);
    g := And(lhs, lhs - d0.value, lhs - d0.value - d1.value);
    GateStep(c, gs, g);
    assert DeltaSpells(s, g.lhs - g.rhs0, d0.rest) && DeltaSpells(d0.rest, g.rhs0 - g.rhs1, d1.rest);
  }

  ghost predicate GatesAt(n: nat, gs: seq<And>) {
    forall k {:trigger gs[k]} :: 0 <= k < |gs| ==> GateAt(n, k, gs[k])
  }

  lemma GateLit(n: nat, k: nat, g: And)
    requires GateAt(n, k, g)
    ensures g.lhs == 2 * (n + k + 1)
  {
  }

  lemma {:induction false} GatesRead(c: Circuit, gs: seq<And>, k: nat, s: seq<Byte>, t: seq<Byte>)
    requires var n := |c.inputs| + |c.latches|;
      n + |gs| <= c.maxvar && 2 * (n + |gs|) + 1 < WORD && GatesAt(n, gs) && k <= |gs| && GatesAre(s, gs[k..], t)
    ensures ParseGates(WithGates(c, gs[..k]), s, 2 * (|c.inputs| + |c.latches| + k), |gs| - k) == Ok(WithGates(c, gs), t)
    decreases |gs| - k
  {
    hide ParseGate, GateIs, WithGates, GateAt;
    if k < |gs| {
      var u :| GateIs(s, gs[k..][0], u) && GatesAre(u, gs[k..][1..], t);
      assert gs[k..][1..] == gs[k + 1..] && gs[..k] + [gs[k]] == gs[..k + 1];
      GateLit(|c.inputs| + |c.latches|, k, gs[k]);
      GateRead(c, gs[..k], gs[k], s, u);
      GatesRead(c, gs, k + 1, u, t);
    } else {
      assert gs[..k] == gs && gs[k..] == [];
    }
  }

  /** `n` more gates are read above these. */
  ghost function MoreGates(c: Circuit, before: seq<And>, s: seq<Byte>, n: nat): (r: Parsed<Circuit>) {
    ParseGates(WithGates(c, before), s, 2 * (|c.inputs| + |c.latches| + |before|), n)
  }

  lemma {:induction false} GatesParsed(c: Circuit, before: seq<And>, s: seq<Byte>, n: nat) returns (gs: seq<And>)
    requires var x := |c.inputs| + |c.latches|;
      x + |before| + n <= c.maxvar && 2 * (x + |before| + n) + 1 < WORD && GatesAt(x, before)
    requires MoreGates(c, before, s, n).Ok?
    ensures |gs| == n && GatesAt(|c.inputs| + |c.latches|, before + gs) && GatesAre(s, gs, MoreGates(c, before, s, n).rest)
    ensures MoreGates(c, before, s, n).value == WithGates(c, before + gs)
    decreases n
  {
    hide ParseGate, GateIs, WithGates, GateAt;
    if n == 0 {
      gs := [];
      assert before + gs == before;
    } else {
      var g := GateParsed(c, before, s);
      var rest := ParseGate(WithGates(c, before), s, 2 * (|c.inputs| + |c.latches| + |before| + 1)).rest;
      var more := GatesParsed(c, before + [g], rest, n - 1);
      gs := [g] + more;
      assert before + gs == (before + [g]) + more && gs[1..] == more;
    }
  }

  // ---------------------------------------------------------------- the counts are no larger than they say

  ghost predicate LeavesNumbered(c: Circuit) {
    && (forall k {:trigger c.inputs[k]} :: 0 <= k < |c.inputs| ==> c.inputs[k] == 2 * (k + 1))
    && (forall k {:trigger c.latches[k]} :: 0 <= k < |c.latches| ==> c.latches[k].lit == 2 * (|c.inputs| + k + 1))
  }

  lemma InputNumbered(c: Circuit)
    requires |c.types| == c.maxvar + 1 && 2 * |c.inputs| < WORD && LeavesNumbered(c) && c.latches == []
    requires CanDefine(c, 2 * (|c.inputs| + 1) % WORD)
    ensures var d := AddInput(c, 2 * (|c.inputs| + 1) % WORD);
      LeavesNumbered(d) && |d.inputs| == |c.inputs| + 1 && d.latches == [] && 2 * |d.inputs| < WORD
  {
    assert 2 * (|c.inputs| + 1) % WORD == 2 * (|c.inputs| + 1);
  }

  lemma {:induction false} InputsNumbered(c: Circuit, s: seq<Byte>, n: nat)
    requires |c.types| == c.maxvar + 1 && |c.inputs| <= n && 2 * |c.inputs| < WORD && LeavesNumbered(c) && c.latches == []
    requires ParseInputs(c, s, |c.inputs|, n).Ok?
    ensures var r := ParseInputs(c, s, |c.inputs|, n);
      r.rest == s && LeavesNumbered(r.value) && |r.value.inputs| == n && r.value.latches == [] && 2 * n < WORD
    decreases n - |c.inputs|
  {
    hide LeavesNumbered, CanDefine, AddInput;
    if |c.inputs| < n {
      InputNumbered(c);
      InputsNumbered(AddInput(c, 2 * (|c.inputs| + 1) % WORD), s, n);
    }
  }

  lemma LatchNumbered(c: Circuit, s: seq<Byte>)
    requires |c.types| == c.maxvar + 1 && LeavesNumbered(c) && 2 * (|c.inputs| + |c.latches|) < WORD
    requires ParseLatch(c, s, 2 * (|c.latches| + |c.inputs| + 1) % WORD).Ok?
    ensures var d := ParseLatch(c, s, 2 * (|c.latches| + |c.inputs| + 1) % WORD).value;
      && LeavesNumbered(d) && |d.inputs| == |c.inputs| && |d.latches| == |c.latches| + 1
      && 2 * (|d.inputs| + |d.latches|) < WORD
  {
    hide ParseLiteral;
    var lit := 2 * (|c.latches| + |c.inputs| + 1) % WORD;
    assert CanDefine(c, lit);
    assert lit == 2 * (|c.latches| + |c.inputs| + 1);
  }

  lemma {:induction false} LatchesNumbered(c: Circuit, s: seq<Byte>, n: nat)
    requires |c.types| == c.maxvar + 1 && |c.latches| <= n && LeavesNumbered(c) && 2 * (|c.inputs| + |c.latches|) < WORD
    requires ParseLatches(c, s, |c.inputs|, |c.latches|, n).Ok?
    ensures var d := ParseLatches(c, s, |c.inputs|, |c.latches|, n).value;
      LeavesNumbered(d) && |d.inputs| == |c.inputs| && |d.latches| == n && 2 * (|c.inputs| + n) < WORD
    decreases n - |c.latches|
  {
    hide ParseLatch, LeavesNumbered;
    if |c.latches| < n {
      LatchNumbered(c, s);
      var r := ParseLatch(c, s, 2 * (|c.latches| + |c.inputs| + 1) % WORD);
      LatchesNumbered(r.value, r.rest, n);
    }
  }

  lemma {:induction false} ImportKeeps(c: Circuit, lits: seq<nat>)
    requires |c.types| == c.maxvar + 1
    ensures ImportAll(c, lits).inputs == c.inputs && ImportAll(c, lits).latches == c.latches
    decreases |lits|
  {
    if lits != [] { ImportKeeps(Import(c, lits[0]), lits[1..]); }
  }

  lemma {:induction false} JusticeKeeps(c: Circuit, s: seq<Byte>, sizes: seq<nat>)
    requires |c.types| == c.maxvar + 1 && ParseJustice(c, s, sizes).Ok?
    ensures var d := ParseJustice(c, s, sizes).value; d.inputs == c.inputs && d.latches == c.latches
    decreases |sizes|
  {
    hide ParseLits, ImportAll;
    if sizes != [] {
      var lits := ParseLits(s, sizes[0], WORD);
      ImportKeeps(c, lits.value);
      JusticeKeeps(AddJustice(c, lits.value), lits.rest, sizes[1..]);
    }
  }

  lemma GateDefines(c: Circuit, s: seq<Byte>, lhs: nat)
    requires |c.types| == c.maxvar + 1 && ParseGate(c, s, lhs).Ok?
    ensures lhs != 0
  {
    hide DeltaFrom;
    assert CanDefine(c, lhs);
  }

  lemma NextEven(x: nat)
    requires 2 * x < WORD && (2 * x + 2) % WORD != 0
    ensures (2 * x + 2) % WORD == 2 * (x + 1)
  {
  }

  lemma {:induction false} GatesFit(c: Circuit, s: seq<Byte>, x: nat, n: nat)
    requires |c.types| == c.maxvar + 1 && 2 * x < WORD && ParseGates(c, s, 2 * x, n).Ok?
    ensures 2 * (x + n) < WORD
    decreases n
  {
    hide ParseGate, CanDefine;
    if n > 0 {
      var lhs := (2 * x + 2) % WORD;
      GateDefines(c, s, lhs);
      NextEven(x);
      var r := ParseGate(c, s, lhs);
      GatesFit(r.value, r.rest, x + 1, n - 1);
    }
  }

  /** A header whose counts add up only modulo the word size is followed by nothing that can be read. */
  lemma CountsFit(s: seq<Byte>)
    requires Decode(s).Ok?
    ensures var h := ParseHeader(s).value; h.m == h.i + h.l + h.a && 2 * h.m + 1 < WORD
  {
    hide ParseHeader, ParseInputs, ParseLatches, ParseLits, ParseJustice, ParseGates, LeavesNumbered, MaxLeaf;
    var h, s1 := ParseHeader(s).value, ParseHeader(s).rest;
    var inputs := ParseInputs(Blank(h.m), s1, 0, h.i);
    NoLeaves(h.m);
    InputsNumbered(Blank(h.m), s1, h.i);
    LatchesNumbered(inputs.value, inputs.rest, h.l);
    var first := ParseFirst(h, s1);
    var sizes := ParseLits(first.rest, h.j, WORD);
    JusticeKeeps(first.value, sizes.rest, sizes.value);
    var second := ParseSecond(h, first.value, first.rest);
    SameLeaves(ParseLatches(inputs.value, inputs.rest, h.i, 0, h.l).value, second.value);
    GatesFit(second.value, second.rest, h.i + h.l, h.a);
    HeaderIff(s, h, s1);
  }

  lemma NoLeaves(m: nat)
    ensures LeavesNumbered(Blank(m)) && Blank(m).inputs == [] && Blank(m).latches == []
  {
  }

  lemma SameLeaves(c: Circuit, d: Circuit)
    requires LeavesNumbered(c) && d.inputs == c.inputs && d.latches == c.latches
    ensures MaxLeaf(d.inputs, d.latches) == 2 * (|c.inputs| + |c.latches|)
  {
    ConsecutiveMax(d.inputs, d.latches);
  }

  // ---------------------------------------------------------------- exactly what is accepted

  ghost function Used(c: Circuit): (n: nat) {
    |c.inputs| + |c.latches| + |c.ands|
  }

  ghost function CountsOf(c: Circuit): (h: Header) {
    Header(Used(c), |c.inputs|, |c.latches|, |c.outputs|, |c.ands|, |c.bad|, |c.constraints|, |c.justice|, |c.fairness|)
  }

  /** `s` is the format string, the counts, and then the parts of `c` in order; `rests` is what follows each of them. */
  ghost predicate Parts(s: seq<Byte>, c: Circuit, rests: seq<seq<Byte>>, t: seq<Byte>) {
    && |rests| == 8 && MAGIC <= s && CountsAre(s[4..], CountsOf(c), rests[0])
    && LatchesAre(rests[0], c.latches, rests[1]) && LinesAre(rests[1], c.outputs, rests[2])
    && LinesAre(rests[2], c.bad, rests[3]) && LinesAre(rests[3], c.constraints, rests[4])
    && LinesAre(rests[4], ListSizes(c.justice), rests[5]) && ListsAre(rests[5], c.justice, rests[6])
    && LinesAre(rests[6], c.fairness, rests[7]) && GatesAre(rests[7], c.ands, t)
  }

  ghost predicate SpellsCircuit(s: seq<Byte>, c: Circuit, t: seq<Byte>) {
    exists rests :: Parts(s, c, rests, t)
  }

  /** Inputs, latches and gates numbered without gaps, and nothing but them within reach of a literal; only a justice
      property may name other variables, and the largest it names is then the largest there is. */
  ghost predicate Accepted(c: Circuit) {
    var n := Used(c);
    && Reencoded(c) && TablesMatch(c) && 2 * n + 1 < WORD
    && (forall k {:trigger c.latches[k]} :: 0 <= k < |c.latches| ==>
      Lit2Var(c.latches[k].next) <= n && (c.latches[k].reset <= 1 || c.latches[k].reset == c.latches[k].lit))
    && AllUpTo(c.outputs, n) && AllUpTo(c.bad, n) && AllUpTo(c.constraints, n) && AllUpTo(c.fairness, c.maxvar)
    && n <= c.maxvar && (forall j {:trigger c.justice[j]} :: 0 <= j < |c.justice| ==> AllUpTo(c.justice[j], c.maxvar))
    && (n < c.maxvar ==> Reached(c.justice, c.maxvar))
    && (forall v {:trigger c.types[v]} :: n < v < |c.types| ==> c.types[v] == UNUSED)
  }

  ghost predicate Reached(lists: seq<seq<nat>>, v: nat) {
    exists j, i {:trigger lists[j][i]} :: 0 <= j < |lists| && 0 <= i < |lists[j]| && Lit2Var(lists[j][i]) == v
  }

  /** The circuit before its justice properties and fairness are read. */
  ghost function Front(c: Circuit): (d: Circuit)
    ensures |d.types| == d.maxvar + 1
  {
    Leaves(Used(c), |c.inputs|, c.latches).(outputs := c.outputs, bad := c.bad, constraints := c.constraints)
  }

  lemma FrontLeafy(c: Circuit)
    ensures Leafy(Front(c)) && Front(c).maxvar == Used(c) && Front(c).justice == [] && Front(c).ands == []
    ensures Front(c).inputs == Evens(|c.inputs|) && Front(c).latches == c.latches
  {
  }

  /** What the reader builds. */
  ghost function Rebuilt(c: Circuit): (d: Circuit) {
    FrontLeafy(c);
    WithGates(WithJustice(Front(c), c.justice).(fairness := c.fairness), c.ands)
  }

  /** What the reader checks on its way. */
  ghost predicate Checks(c: Circuit) {
    var n := Used(c);
    && 2 * n + 1 < WORD && LatchesAt(n, |c.inputs|, c.latches) && GatesAt(|c.inputs| + |c.latches|, c.ands)
    && AllUpTo(c.outputs, n) && AllUpTo(c.bad, n) && AllUpTo(c.constraints, n)
    && AllUpTo(c.fairness, if TopOf(c.justice) > n then TopOf(c.justice) else n)
  }

  lemma TopReached(lists: seq<seq<nat>>)
    requires TopOf(lists) > 0
    ensures Reached(lists, TopOf(lists))
  {
    var j :| 0 <= j < |lists| && Top(lists[j]) == TopOf(lists);
    var i :| 0 <= i < |lists[j]| && Lit2Var(lists[j][i]) == Top(lists[j]);
    assert Lit2Var(lists[j][i]) == TopOf(lists);
  }

  lemma TopIs(lists: seq<seq<nat>>, n: nat, m: nat)
    ensures m == (if TopOf(lists) > n then TopOf(lists) else n) <==>
      n <= m && (forall j {:trigger lists[j]} :: 0 <= j < |lists| ==> AllUpTo(lists[j], m)) && (n < m ==> Reached(lists, m))
  {
    if n <= m && (forall j {:trigger lists[j]} :: 0 <= j < |lists| ==> AllUpTo(lists[j], m)) {
      if TopOf(lists) > 0 {
        TopReached(lists);
        var j, i :| 0 <= j < |lists| && 0 <= i < |lists[j]| && Lit2Var(lists[j][i]) == TopOf(lists);
        assert AllUpTo(lists[j], m);
      }
      if n < m && Reached(lists, m) {
        var j, i :| 0 <= j < |lists| && 0 <= i < |lists[j]| && Lit2Var(lists[j][i]) == m;
        assert m <= Top(lists[j]) <= TopOf(lists);
      }
    }
    if m == (if TopOf(lists) > n then TopOf(lists) else n) {
      forall j | 0 <= j < |lists| ensures AllUpTo(lists[j], m) {
        assert Top(lists[j]) <= TopOf(lists);
      }
      if n < m { TopReached(lists); }
    }
  }

  lemma TablesFromTypes(c: Circuit)
    requires Reencoded(c) && Used(c) <= c.maxvar && c.types == Types(c.maxvar, |c.inputs|, |c.latches|, |c.ands|)
    ensures TablesMatch(c) && forall v {:trigger c.types[v]} :: Used(c) < v < |c.types| ==> c.types[v] == UNUSED
  {
    hide TypeOk, Owns;
    forall k | 0 <= k < |c.inputs| ensures Owns(c, c.inputs[k], InputType(k)) { TypeGiven(c, k + 1); }
    forall k | 0 <= k < |c.latches| ensures Owns(c, c.latches[k].lit, LatchType(k)) { TypeGiven(c, |c.inputs| + k + 1); }
    forall k | 0 <= k < |c.ands| ensures Owns(c, c.ands[k].lhs, AndType(k)) { TypeGiven(c, |c.inputs| + |c.latches| + k + 1); }
    forall v | 0 <= v < |c.types| ensures TypeOk(c, v) { TypeGiven(c, v); }
  }

  lemma TypeGiven(c: Circuit, v: nat)
    requires Reencoded(c) && v <= c.maxvar && c.types == Types(c.maxvar, |c.inputs|, |c.latches|, |c.ands|)
    ensures TypeOk(c, v) && c.types[v] == TypeAt(|c.inputs|, |c.latches|, |c.ands|, v)
    ensures 0 < v <= |c.inputs| ==> Owns(c, c.inputs[v - 1], InputType(v - 1))
    ensures 0 < v - |c.inputs| <= |c.latches| ==> var k := v - 1 - |c.inputs|; Owns(c, c.latches[k].lit, LatchType(k))
    ensures 0 < v - |c.inputs| - |c.latches| <= |c.ands| ==>
      var k := v - 1 - |c.inputs| - |c.latches|; Owns(c, c.ands[k].lhs, AndType(k))
  {
    if 0 < v <= |c.inputs| { assert c.inputs[v - 1] == 2 * v; }
    else if 0 < v - |c.inputs| <= |c.latches| { assert c.latches[v - 1 - |c.inputs|].lit == 2 * v; }
    else if 0 < v - |c.inputs| - |c.latches| <= |c.ands| { assert c.ands[v - 1 - |c.inputs| - |c.latches|].lhs == 2 * v; }
  }

  lemma TypesLength(c: Circuit)
    requires TablesMatch(c)
    ensures |c.types| == c.maxvar + 1
  {
  }

  lemma TypeFound(c: Circuit, v: nat)
    requires Reencoded(c) && TablesMatch(c) && v < |c.types| && (Used(c) < v ==> c.types[v] == UNUSED)
    ensures c.types[v] == TypeAt(|c.inputs|, |c.latches|, |c.ands|, v)
  {
    var i, l := |c.inputs|, |c.latches|;
    if 0 < v <= i { assert Owns(c, c.inputs[v - 1], InputType(v - 1)); }
    else if i < v <= i + l { assert Owns(c, c.latches[v - 1 - i].lit, LatchType(v - 1 - i)); }
    else if i + l < v <= Used(c) { assert Owns(c, c.ands[v - 1 - i - l].lhs, AndType(v - 1 - i - l)); }
  }

  lemma TypesFromTables(c: Circuit)
    requires Reencoded(c) && Used(c) <= c.maxvar && TablesMatch(c)
    requires forall v {:trigger c.types[v]} :: Used(c) < v < |c.types| ==> c.types[v] == UNUSED
    ensures c.types == Types(c.maxvar, |c.inputs|, |c.latches|, |c.ands|)
  {
    hide TablesMatch, Reencoded;
    forall v: nat | v < |c.types| ensures c.types[v] == TypeAt(|c.inputs|, |c.latches|, |c.ands|, v) {
      TypeFound(c, v);
    }
    TypesLength(c);
  }

  /** A circuit is accepted exactly when it passes the checks and is what the reader builds from its parts. */
  lemma AcceptedIff(c: Circuit)
    ensures Accepted(c) <==> Checks(c) && Rebuilt(c) == c
  {
    hide Types, TablesMatch, Rebuilt, AllUpTo;
    TopIs(c.justice, Used(c), c.maxvar);
    RebuiltIs(c);
    NumbersIff(c);
    if Accepted(c) { TypesFromTables(c); }
    if Checks(c) && Rebuilt(c) == c { TablesFromTypes(c); }
  }

  lemma RebuiltIs(c: Circuit)
    ensures Rebuilt(c) == c <==>
      && c.inputs == Evens(|c.inputs|) && c.maxvar == (if TopOf(c.justice) > Used(c) then TopOf(c.justice) else Used(c))
      && c.types == Types(c.maxvar, |c.inputs|, |c.latches|, |c.ands|)
  {
    hide Types;
    FrontLeafy(c);
    assert [] + c.justice == c.justice;
  }

  lemma NumbersIff(c: Circuit)
    ensures (Reencoded(c) && forall k {:trigger c.latches[k]} :: 0 <= k < |c.latches| ==>
      Lit2Var(c.latches[k].next) <= Used(c) && (c.latches[k].reset <= 1 || c.latches[k].reset == c.latches[k].lit))
      <==> c.inputs == Evens(|c.inputs|) && LatchesAt(Used(c), |c.inputs|, c.latches) && GatesAt(|c.inputs| + |c.latches|, c.ands)
  {
    if Reencoded(c) {
      assert c.inputs == Evens(|c.inputs|);
      assert GatesAt(|c.inputs| + |c.latches|, c.ands);
    }
    if c.inputs == Evens(|c.inputs|) && LatchesAt(Used(c), |c.inputs|, c.latches) && GatesAt(|c.inputs| + |c.latches|, c.ands) {
      forall k | 0 <= k < |c.latches| ensures c.latches[k].lit == 2 * (|c.inputs| + k + 1) {
        assert LatchAt(Used(c), |c.inputs|, k, c.latches[k]);
      }
      forall k | 0 <= k < |c.ands| ensures c.ands[k].lhs == 2 * (|c.inputs| + |c.latches| + k + 1) {
        assert GateAt(|c.inputs| + |c.latches|, k, c.ands[k]);
      }
    }
  }

  /** Reading a stream that spells a circuit which passes the checks. */
  lemma PartsRead(s: seq<Byte>, c: Circuit, t: seq<Byte>)
    requires SpellsCircuit(s, c, t) && Checks(c)
    ensures Decode(s) == Ok(Rebuilt(c), t)
  {
    hide Decode, ParseHeader, ParseFirst, ParseSecond, ParseGates, Types, TopOf, Leaves, Front, WithJustice, WithGates, Leafy, MaxLeaf,
      CountsAre, LatchesAre, LinesAre, ListsAre, GatesAre, LatchesAt, GatesAt, AllUpTo;
    var rests :| Parts(s, c, rests, t);
    HeaderIff(s, CountsOf(c), rests[0]);
    FrontRead(c, rests[..5]);
    FrontLeafy(c);
    BackRead(c, rests[4..]);
    var e := WithJustice(Front(c), c.justice);
    WithJusticeSize(Front(c), c.justice);
    var f := e.(fairness := c.fairness);
    EvensMax(f, Used(c), |c.inputs|);
    StartGates(f);
    assert c.ands[..0] == [] && c.ands[0..] == c.ands;
    GatesRead(f, c.ands, 0, rests[7], t);
    DecodeFrom(s, CountsOf(c), rests[0], Front(c), rests[4], f, rests[7]);
  }

  lemma DecodeFrom(s: seq<Byte>, h: Header, s1: seq<Byte>, c: Circuit, s2: seq<Byte>, d: Circuit, s3: seq<Byte>)
    requires ParseHeader(s) == Ok(h, s1) && ParseFirst(h, s1) == Ok(c, s2)
    requires |c.types| == c.maxvar + 1 && ParseSecond(h, c, s2) == Ok(d, s3) && |d.types| == d.maxvar + 1
    ensures Decode(s) == ParseGates(d, s3, MaxLeaf(d.inputs, d.latches), h.a)
  {
  }

  /** Inputs to constraints. */
  lemma FrontRead(c: Circuit, rests: seq<seq<Byte>>)
    requires Checks(c) && |rests| == 5 && LatchesAre(rests[0], c.latches, rests[1]) && LinesAre(rests[1], c.outputs, rests[2])
    requires LinesAre(rests[2], c.bad, rests[3]) && LinesAre(rests[3], c.constraints, rests[4])
    ensures ParseFirst(CountsOf(c), rests[0]) == Ok(Front(c), rests[4])
  {
    hide ParseInputs, ParseLatches, ParseLits, Leaves, LatchesAre, LinesAre, LatchesAt, GatesAt, AllUpTo;
    var n, i := Used(c), |c.inputs|;
    BlankIs(n);
    InputsRead(n, rests[0], 0, i);
    assert c.latches[..0] == [] && c.latches[0..] == c.latches;
    LatchesRead(n, i, c.latches, 0, rests[0], rests[1]);
    LeavesSize(n, i, c.latches);
    LitsIff(rests[1], |c.outputs|, n, c.outputs, rests[2]);
    LitsIff(rests[2], |c.bad|, n, c.bad, rests[3]);
    LitsIff(rests[3], |c.constraints|, n, c.constraints, rests[4]);
  }

  /** Justice and fairness. */
  lemma BackRead(c: Circuit, rests: seq<seq<Byte>>)
    requires Checks(c) && |rests| == 4 && LinesAre(rests[0], ListSizes(c.justice), rests[1])
    requires ListsAre(rests[1], c.justice, rests[2]) && LinesAre(rests[2], c.fairness, rests[3])
    requires Leafy(Front(c)) && Front(c).maxvar == Used(c)
    ensures ParseSecond(CountsOf(c), Front(c), rests[0]) == Ok(WithJustice(Front(c), c.justice).(fairness := c.fairness), rests[3])
  {
    hide ParseJustice, ParseLits, Front, WithJustice, Leafy, LinesAre, ListsAre, LatchesAt, GatesAt, AllUpTo;
    WordLits(rests[0], ListSizes(c.justice), rests[1]);
    LitsIff(rests[0], |c.justice|, WORD, ListSizes(c.justice), rests[1]);
    JusticeRead(Front(c), rests[1], c.justice, rests[2]);
    WithJusticeSize(Front(c), c.justice);
    LitsIff(rests[2], |c.fairness|, WithJustice(Front(c), c.justice).maxvar, c.fairness, rests[3]);
  }

  lemma BlankIs(n: nat)
    ensures Blank(n) == Leaves(n, 0, [])
  {
    assert Evens(0) == [];
    assert Blank(n).types == Types(n, 0, 0, 0);
  }

  lemma WithJusticeSize(c: Circuit, lists: seq<seq<nat>>)
    requires Leafy(c)
    ensures var d := WithJustice(c, lists);
      && d.maxvar == (if TopOf(lists) > c.maxvar then TopOf(lists) else c.maxvar) && Leafy(d) && |d.types| == d.maxvar + 1
      && d.inputs == c.inputs && d.latches == c.latches && d.ands == c.ands
  {
  }

  lemma EvensMax(c: Circuit, n: nat, i: nat)
    requires c.inputs == Evens(i) && LatchesAt(n, i, c.latches)
    ensures MaxLeaf(c.inputs, c.latches) == 2 * (i + |c.latches|)
  {
    assert forall k {:trigger c.latches[k]} :: 0 <= k < |c.latches| ==> LatchAt(n, i, k, c.latches[k]);
    ConsecutiveMax(c.inputs, c.latches);
  }

  lemma StartGates(c: Circuit)
    requires Leafy(c) && c.ands == []
    ensures WithGates(c, []) == c
  {
  }

  /** What the reader makes of a stream is spelled by it and passes the checks. */
  lemma DecodeParts(s: seq<Byte>)
    requires Decode(s).Ok?
    ensures var c := Decode(s).value; Checks(c) && Rebuilt(c) == c && SpellsCircuit(s, c, Decode(s).rest)
  {
    hide Decode, ParseHeader, ParseFirst, ParseSecond, ParseGates, Leaves, WithJustice, WithGates, Leafy, MaxLeaf,
      CountsAre, LatchesAre, LinesAre, ListsAre, GatesAre, LatchesAt, GatesAt, AllUpTo, TopOf, Rebuilt, Types;
    DecodeSteps(s);
    var h, s0 := ParseHeader(s).value, ParseHeader(s).rest;
    CountsFit(s);
    HeaderIff(s, h, s0);
    var d, rests := FirstParsed(h, s0);
    var e, s6, s7 := SecondParsed(h, d, rests[3]);
    EvensMax(e, h.m, h.i);
    var gs := ThirdParsed(h, e, s7);
    BuiltIs(h, d, e, gs);
    var s5 := ParseLits(rests[3], h.j, WORD).rest;
    assert Parts(s, WithGates(e, gs), [s0, rests[0], rests[1], rests[2], rests[3], s5, s6, s7], Decode(s).rest);
  }

  /** The gates. */
  lemma ThirdParsed(h: Header, e: Circuit, s: seq<Byte>) returns (gs: seq<And>)
    requires Leafy(e) && e.ands == [] && |e.inputs| == h.i && |e.latches| == h.l && |e.types| == e.maxvar + 1
    requires h.i + h.l + h.a <= e.maxvar && 2 * (h.i + h.l + h.a) + 1 < WORD && ParseGates(e, s, 2 * (h.i + h.l), h.a).Ok?
    ensures |gs| == h.a && GatesAt(h.i + h.l, gs) && GatesAre(s, gs, ParseGates(e, s, 2 * (h.i + h.l), h.a).rest)
    ensures ParseGates(e, s, 2 * (h.i + h.l), h.a).value == WithGates(e, gs)
  {
    hide ParseGates, Leafy, WithGates, GatesAt, GatesAre;
    StartGates(e);
    NoGatesAt(h.i + h.l);
    gs := GatesParsed(e, [], s, h.a);
    assert [] + gs == gs;
  }

  lemma DecodeSteps(s: seq<Byte>)
    requires Decode(s).Ok?
    ensures ParseHeader(s).Ok?
    ensures var h := ParseHeader(s);
      && ParseFirst(h.value, h.rest).Ok?
      && var first := ParseFirst(h.value, h.rest);
        && ParseSecond(h.value, first.value, first.rest).Ok?
        && var second := ParseSecond(h.value, first.value, first.rest);
          Decode(s) == ParseGates(second.value, second.rest, MaxLeaf(second.value.inputs, second.value.latches), h.value.a)
  {
  }

  /** Inputs to constraints. */
  lemma FirstParsed(h: Header, s: seq<Byte>) returns (d: Circuit, rests: seq<seq<Byte>>)
    requires h.i + h.l <= h.m && 2 * h.m + 1 < WORD && ParseFirst(h, s).Ok?
    ensures |rests| == 4 && LatchesAre(s, d.latches, rests[0]) && LinesAre(rests[0], d.outputs, rests[1])
    ensures LinesAre(rests[1], d.bad, rests[2]) && LinesAre(rests[2], d.constraints, rests[3])
    ensures ParseFirst(h, s) == Ok(d, rests[3])
    ensures d == Leaves(h.m, h.i, d.latches).(outputs := d.outputs, bad := d.bad, constraints := d.constraints) && Leafy(d)
    ensures d.maxvar == h.m && |d.inputs| == h.i && d.inputs == Evens(h.i) && |d.latches| == h.l && LatchesAt(h.m, h.i, d.latches)
    ensures |d.outputs| == h.o && |d.bad| == h.b && |d.constraints| == h.c && d.justice == [] && d.ands == []
    ensures AllUpTo(d.outputs, h.m) && AllUpTo(d.bad, h.m) && AllUpTo(d.constraints, h.m)
  {
    hide ParseInputs, ParseLatches, ParseLits, Leaves, Leafy, LatchesAre, LinesAre, LatchesAt, AllUpTo;
    BlankIs(h.m);
    InputsRead(h.m, s, 0, h.i);
    var latches := ParseLatches(Leaves(h.m, h.i, []), s, h.i, 0, h.l);
    NoLatchesAt(h.m, h.i);
    var ls := LatchesParsed(h.m, h.i, [], s, h.l);
    assert [] + ls == ls;
    LeavesSize(h.m, h.i, ls);
    var o := ParseLits(latches.rest, h.o, h.m);
    LitsIff(latches.rest, h.o, h.m, o.value, o.rest);
    var b := ParseLits(o.rest, h.b, h.m);
    LitsIff(o.rest, h.b, h.m, b.value, b.rest);
    var k := ParseLits(b.rest, h.c, h.m);
    LitsIff(b.rest, h.c, h.m, k.value, k.rest);
    d := Leaves(h.m, h.i, ls).(outputs := o.value, bad := b.value, constraints := k.value);
    LeavesLeafy(h.m, h.i, ls, d);
    rests := [latches.rest, o.rest, b.rest, k.rest];
  }

  /** Justice and fairness. */
  lemma SecondParsed(h: Header, d: Circuit, s: seq<Byte>) returns (e: Circuit, s2: seq<Byte>, s3: seq<Byte>)
    requires Leafy(d) && d.justice == [] && |d.types| == d.maxvar + 1 && ParseSecond(h, d, s).Ok?
    ensures ParseSecond(h, d, s) == Ok(e, s3) && |e.justice| == h.j && |e.fairness| == h.f
    ensures e == WithJustice(d, e.justice).(fairness := e.fairness) && Leafy(e) && e.inputs == d.inputs && e.latches == d.latches
    ensures e.ands == d.ands && e.maxvar == if TopOf(e.justice) > d.maxvar then TopOf(e.justice) else d.maxvar
    ensures var s1 := ParseLits(s, h.j, WORD).rest;
      LinesAre(s, ListSizes(e.justice), s1) && ListsAre(s1, e.justice, s2) && LinesAre(s2, e.fairness, s3)
    ensures ParseLits(s, h.j, WORD).Ok? && AllUpTo(e.fairness, e.maxvar)
  {
    hide ParseLits, ParseJustice, LinesAre, ListsAre, AllUpTo, TopOf, Types;
    var sizes := ParseLits(s, h.j, WORD);
    LitsIff(s, h.j, WORD, sizes.value, sizes.rest);
    var justice := ParseJustice(d, sizes.rest, sizes.value);
    var lists := JusticeParsed(d, sizes.rest, sizes.value);
    WithJusticeSize(d, lists);
    var j := WithJustice(d, lists);
    var f := ParseLits(justice.rest, h.f, j.maxvar);
    LitsIff(justice.rest, h.f, j.maxvar, f.value, f.rest);
    assert [] + lists == lists;
    e, s2, s3 := j.(fairness := f.value), justice.rest, f.rest;
  }

  lemma NoLatchesAt(m: nat, i: nat)
    ensures LatchesAt(m, i, [])
  {
  }

  lemma NoGatesAt(n: nat)
    ensures GatesAt(n, [])
  {
  }

  lemma LeavesLeafy(m: nat, i: nat, ls: seq<Latch>, c: Circuit)
    requires i + |ls| <= m && var d := Leaves(m, i, ls); c == d.(outputs := c.outputs, bad := c.bad, constraints := c.constraints)
    ensures Leafy(c) && c.maxvar == m && c.inputs == Evens(i) && c.latches == ls && c.justice == [] && c.ands == []
  {
  }

  /** The parts as they were read are the parts of the circuit. */
  lemma BuiltIs(h: Header, d: Circuit, e: Circuit, gs: seq<And>)
    requires h.m == h.i + h.l + h.a && |d.inputs| == h.i && |d.latches| == h.l && |gs| == h.a && Leafy(d)
    requires d == Leaves(h.m, h.i, d.latches).(outputs := d.outputs, bad := d.bad, constraints := d.constraints)
    requires e == WithJustice(d, e.justice).(fairness := e.fairness)
    ensures var c := WithGates(e, gs);
      && Used(c) == h.m && Rebuilt(c) == c && |c.inputs| == h.i && c.latches == d.latches && c.outputs == d.outputs && c.bad == d.bad
      && c.constraints == d.constraints && c.justice == e.justice && c.fairness == e.fairness && c.ands == gs
  {
    hide Types;
  }

  /** The reader accepts exactly the streams that spell a circuit of this form, and makes that circuit of them. */
  lemma ReaderIff(s: seq<Byte>, c: Circuit, t: seq<Byte>)
    ensures Decode(s) == Ok(c, t) <==> SpellsCircuit(s, c, t) && Accepted(c)
  {
    hide Decode, Accepted, SpellsCircuit, Checks, Rebuilt;
    AcceptedIff(c);
    if Decode(s) == Ok(c, t) { DecodeParts(s); }
    if SpellsCircuit(s, c, t) && Accepted(c) { PartsRead(s, c, t); }
  }

  // ---------------------------------------------------------------- what is left of the stream

  predicate EndsWith(s: seq<Byte>, t: seq<Byte>) {
    |t| <= |s| && s[|s| - |t|..] == t
  }

  lemma EndsLater(s: seq<Byte>, t: seq<Byte>, u: seq<Byte>)
    requires EndsWith(s, t) && EndsWith(t, u)
    ensures EndsWith(s, u)
  {
    assert s[|s| - |t|..][|t| - |u|..] == s[|s| - |u|..];
  }

  lemma SpellsRest(s: seq<Byte>, n: nat, b: Byte, t: seq<Byte>)
    requires Spells(s, n, b, t)
    ensures EndsWith(s, t)
  {
  }

  lemma {:induction false} LinesRest(s: seq<Byte>, lits: seq<nat>, t: seq<Byte>)
    requires LinesAre(s, lits, t)
    ensures EndsWith(s, t)
    decreases |lits|
  {
    if lits != [] {
      var u :| Spells(s, lits[0], NEWLINE, u) && LinesAre(u, lits[1..], t);
      SpellsRest(s, lits[0], NEWLINE, u);
      LinesRest(u, lits[1..], t);
      EndsLater(s, u, t);
    }
  }

  lemma {:induction false} LatchesRest(s: seq<Byte>, ls: seq<Latch>, t: seq<Byte>)
    requires LatchesAre(s, ls, t)
    ensures EndsWith(s, t)
    decreases |ls|
  {
    if ls != [] {
      var l := ls[0];
      var u :| LatchIs(s, l.next, l.reset, u) && LatchesAre(u, ls[1..], t);
      if l.reset == 0 && Spells(s, l.next, NEWLINE, u) {
        SpellsRest(s, l.next, NEWLINE, u);
      } else {
        var v :| Spells(s, l.next, SPACE, v) && Spells(v, l.reset, NEWLINE, u);
        SpellsRest(s, l.next, SPACE, v);
        SpellsRest(v, l.reset, NEWLINE, u);
        EndsLater(s, v, u);
      }
      LatchesRest(u, ls[1..], t);
      EndsLater(s, u, t);
    }
  }

  lemma {:induction false} ListsRest(s: seq<Byte>, lists: seq<seq<nat>>, t: seq<Byte>)
    requires ListsAre(s, lists, t)
    ensures EndsWith(s, t)
    decreases |lists|
  {
    if lists != [] {
      var u :| LinesAre(s, lists[0], u) && ListsAre(u, lists[1..], t);
      LinesRest(s, lists[0], u);
      ListsRest(u, lists[1..], t);
      EndsLater(s, u, t);
    }
  }

  lemma {:induction false} GatesRest(s: seq<Byte>, gs: seq<And>, t: seq<Byte>)
    requires GatesAre(s, gs, t)
    ensures EndsWith(s, t)
    decreases |gs|
  {
    if gs != [] {
      var u :| GateIs(s, gs[0], u) && GatesAre(u, gs[1..], t);
      var v :| DeltaSpells(s, gs[0].lhs - gs[0].rhs0, v) && DeltaSpells(v, gs[0].rhs0 - gs[0].rhs1, u);
      EndsLater(s, v, u);
      GatesRest(u, gs[1..], t);
      EndsLater(s, u, t);
    }
  }

  lemma {:induction false} ExtraRest(b: Byte, s: seq<Byte>, counts: seq<nat>, t: seq<Byte>)
    requires ExtraAre(b, s, counts, t)
    ensures EndsWith(s, t)
    decreases |counts|
  {
    if b != NEWLINE {
      var b', u :| Spells(s, counts[0], b', u) && ExtraAre(b', u, counts[1..], t);
      SpellsRest(s, counts[0], b', u);
      ExtraRest(b', u, counts[1..], t);
      EndsLater(s, u, t);
    }
  }

  lemma CountsRest(s: seq<Byte>, h: Header, t: seq<Byte>)
    requires CountsAre(s, h, t)
    ensures EndsWith(s, t)
  {
    hide Spells, ExtraAre, EndsWith;
    var s1, s2, s3, s4, b, s5 :|
      && Spells(s, h.m, SPACE, s1) && Spells(s1, h.i, SPACE, s2) && Spells(s2, h.l, SPACE, s3) && Spells(s3, h.o, SPACE, s4)
      && Spells(s4, h.a, b, s5) && ExtraAre(b, s5, [h.b, h.c, h.j, h.f], t);
    SpellsRest(s, h.m, SPACE, s1);
    SpellsRest(s1, h.i, SPACE, s2);
    SpellsRest(s2, h.l, SPACE, s3);
    SpellsRest(s3, h.o, SPACE, s4);
    SpellsRest(s4, h.a, b, s5);
    ExtraRest(b, s5, [h.b, h.c, h.j, h.f], t);
    EndsLater(s, s1, s2);
    EndsLater(s, s2, s3);
    EndsLater(s, s3, s4);
    EndsLater(s, s4, s5);
    EndsLater(s, s5, t);
  }

  lemma CircuitRest(s: seq<Byte>, c: Circuit, t: seq<Byte>)
    requires SpellsCircuit(s, c, t)
    ensures EndsWith(s, t)
  {
    hide CountsAre, LatchesAre, LinesAre, ListsAre, GatesAre, EndsWith;
    var rests :| Parts(s, c, rests, t);
    WithoutMagic(s);
    CountsRest(s[4..], CountsOf(c), rests[0]);
    LatchesRest(rests[0], c.latches, rests[1]);
    LinesRest(rests[1], c.outputs, rests[2]);
    LinesRest(rests[2], c.bad, rests[3]);
    LinesRest(rests[3], c.constraints, rests[4]);
    LinesRest(rests[4], ListSizes(c.justice), rests[5]);
    ListsRest(rests[5], c.justice, rests[6]);
    LinesRest(rests[6], c.fairness, rests[7]);
    GatesRest(rests[7], c.ands, t);
    EndsLater(s, s[4..], rests[0]);
    EndsLater(s, rests[0], rests[1]);
    EndsLater(s, rests[1], rests[2]);
    EndsLater(s, rests[2], rests[3]);
    EndsLater(s, rests[3], rests[4]);
    EndsLater(s, rests[4], rests[5]);
    EndsLater(s, rests[5], rests[6]);
    EndsLater(s, rests[6], rests[7]);
    EndsLater(s, rests[7], t);
  }

  lemma WithoutMagic(s: seq<Byte>)
    requires |s| >= 4
    ensures EndsWith(s, s[4..])
  {
  }

  /** What every stream the reader accepts gives: an end of the stream is left, the tables match, and every literal is one
      of the circuit's own. The variables are as many as inputs, latches and gates exactly when no justice property
      names a larger one. */
  lemma DecodeSound(s: seq<Byte>)
    requires Decode(s).Ok?
    ensures var c := Decode(s).value;
      && EndsWith(s, Decode(s).rest) && TablesMatch(c) && Reencoded(c)
      && (forall k {:trigger c.latches[k]} :: 0 <= k < |c.latches| ==> Lit2Var(c.latches[k].next) <= Used(c))
      && AllUpTo(c.outputs, Used(c)) && AllUpTo(c.bad, Used(c)) && AllUpTo(c.constraints, Used(c))
      && AllUpTo(c.fairness, c.maxvar) && Used(c) <= c.maxvar
      && (c.maxvar == Used(c) <==> forall j {:trigger c.justice[j]} :: 0 <= j < |c.justice| ==> AllUpTo(c.justice[j], Used(c)))
  {
    hide Decode, SpellsCircuit, TablesMatch, Reencoded;
    var c, n := Decode(s).value, Used(Decode(s).value);
    ReaderIff(s, c, Decode(s).rest);
    CircuitRest(s, c, Decode(s).rest);
    if n < c.maxvar { ReachedBeyond(c.justice, n, c.maxvar); }
  }

  lemma ReachedBeyond(lists: seq<seq<nat>>, n: nat, m: nat)
    requires n < m && Reached(lists, m)
    ensures exists j {:trigger lists[j]} :: 0 <= j < |lists| && !AllUpTo(lists[j], n)
  {
    var j, i :| 0 <= j < |lists| && 0 <= i < |lists[j]| && Lit2Var(lists[j][i]) == m;
    assert !AllUpTo(lists[j], n);
  }
}
