/** Reading back what the binary writer emits (its/aiger/aiger.c).

    A re-encoded circuit comes back unchanged exactly when its largest variable is the number of its inputs,
    latches and gates. Re-encoding always ends so, but a circuit that already counts as re-encoded may have
    more variables; the writer writes it as it is, and the reader refuses it. */
module AigerRoundTrip {
  import opened AigerNet
  import opened AigerCycles
  import opened AigerNumbering
  import opened AigerCircuit
  import opened AigerRenumbered
  import opened AigerBytes
  import opened AigerFormat
  import opened AigerGrammar
  import opened AigerAccept

  /** Every number of the circuit is a 32-bit word. */
  ghost predicate Fits(c: Circuit) {
    && 2 * c.maxvar + 1 < WORD
    && |c.outputs| < WORD && |c.bad| < WORD && |c.constraints| < WORD && |c.justice| < WORD && |c.fairness| < WORD
    && (forall j {:trigger c.justice[j]} :: 0 <= j < |c.justice| ==> |c.justice[j]| < WORD)
  }

  /** Resets are constants or the latch itself, as `aiger_add_reset` demands. */
  ghost predicate ResetsOk(c: Circuit) {
    forall i {:trigger c.latches[i]} :: 0 <= i < |c.latches| ==>
      c.latches[i].reset <= 1 || c.latches[i].reset == c.latches[i].lit
  }

  /** Re-encoding keeps resets in that form. */
  lemma ResetsStay(c: Circuit, d: Circuit, order: seq<nat>)
    requires ResetsOk(c) && Renumbered(c, d, order)
    ensures ResetsOk(d)
  {
    hide OrderOk, ConeOk, GatesOk, TypesOk;
    forall i | 0 <= i < |d.latches| ensures d.latches[i].reset <= 1 || d.latches[i].reset == d.latches[i].lit {
      assert d.latches[i] == NewLatch(order, c.latches[i]);
    }
  }

  // ---------------------------------------------------------------- what is written spells the circuit

  ghost predicate AllWords(lits: seq<nat>) {
    forall i {:trigger lits[i]} :: 0 <= i < |lits| ==> lits[i] < WORD
  }

  lemma WordsBelow(lits: seq<nat>, limit: nat)
    requires AllUpTo(lits, limit) && 2 * limit + 1 < WORD
    ensures AllWords(lits)
  {
    forall i | 0 <= i < |lits| ensures lits[i] < WORD { assert Lit2Var(lits[i]) <= limit; }
  }

  lemma {:induction false} LinesSpelled(lits: seq<nat>, t: seq<Byte>)
    requires AllWords(lits)
    ensures LinesAre(Lines(lits, t), lits, t)
  {
    hide Spells, Decimal;
    if lits != [] {
      DecimalSpells(lits[0], NEWLINE, Lines(lits[1..], t));
      LinesSpelled(lits[1..], t);
    }
  }

  lemma LatchSpelled(l: Latch, t: seq<Byte>)
    requires l.next < WORD && l.reset < WORD
    ensures LatchIs(Decimal(l.next) + if l.reset == 0 then [NEWLINE] + t else [SPACE] + Line(l.reset, t), l.next, l.reset, t)
  {
    hide Spells, Decimal;
    DecimalSpells(l.next, NEWLINE, t);
    DecimalSpells(l.next, SPACE, Line(l.reset, t));
    DecimalSpells(l.reset, NEWLINE, t);
  }

  lemma {:induction false} LatchesSpelled(ls: seq<Latch>, t: seq<Byte>)
    requires forall k {:trigger ls[k]} :: 0 <= k < |ls| ==> ls[k].next < WORD && ls[k].reset < WORD
    ensures LatchesAre(LatchLines(ls, t), ls, t)
  {
    hide LatchIs, Decimal, Line;
    if ls != [] {
      LatchSpelled(ls[0], LatchLines(ls[1..], t));
      LatchesSpelled(ls[1..], t);
    }
  }

  lemma {:induction false} ListsSpelled(lists: seq<seq<nat>>, t: seq<Byte>)
    requires forall j {:trigger lists[j]} :: 0 <= j < |lists| ==> AllWords(lists[j])
    ensures ListsAre(ListLines(lists, t), lists, t)
  {
    hide LinesAre, Lines, AllWords;
    if lists != [] {
      LinesSpelled(lists[0], ListLines(lists[1..], t));
      ListsSpelled(lists[1..], t);
    }
  }

  lemma {:induction false} GatesSpelled(gs: seq<And>, t: seq<Byte>)
    requires forall k {:trigger gs[k]} :: 0 <= k < |gs| ==> gs[k].rhs1 <= gs[k].rhs0 <= gs[k].lhs < WORD
    ensures GatesAre(GateDeltas(gs, t), gs, t)
  {
    hide DeltaSpells, EncodeDelta;
    if gs != [] {
      var g, u := gs[0], GateDeltas(gs[1..], t);
      EncodeDeltaSpells(g.lhs - g.rhs0, EncodeDelta(g.rhs0 - g.rhs1) + u);
      EncodeDeltaSpells(g.rhs0 - g.rhs1, u);
      GatesSpelled(gs[1..], t);
      assert GateIs(GateDeltas(gs, t), g, u);
    }
  }

  // ---------------------------------------------------------------- the header

  ghost function HeaderOf(c: Circuit): (h: Header) {
    CountsOf(c).(m := c.maxvar)
  }

  ghost predicate LeavesFit(c: Circuit) {
    |c.inputs| + |c.latches| + |c.ands| <= c.maxvar
  }

  /** The header comes back when the counts add up, and is refused otherwise. */
  lemma HeaderBack(c: Circuit, t: seq<Byte>)
    requires Fits(c) && LeavesFit(c)
    ensures ParseHeader(Encode(c, t)) ==
      if c.maxvar == |c.inputs| + |c.latches| + |c.ands| then Ok(HeaderOf(c), Body(c, t)) else Err(InvalidMaxvar)
  {
    hide ParseCounts, Counts, ExtraCounts, Body, Spaced;
    var h := HeaderOf(c);
    var k := ExtraEndsAtLast(h.b, h.c, h.j, h.f, Body(c, t));
    ZerosMayBeLeftOut(h, k, Body(c, t));
    var counts := Counts(h.m, h.i, h.l, h.o, h.a, ExtraCounts(h.b, h.c, h.j, h.f, Body(c, t)));
    assert (MAGIC + counts)[4..] == counts;
  }

  // ---------------------------------------------------------------- the round trip

  /** The written circuit spells itself. */
  lemma EncodeSpells(c: Circuit, t: seq<Byte>)
    requires Fits(c) && Accepted(c) && c.maxvar == Used(c)
    ensures SpellsCircuit(Encode(c, t), c, t)
  {
    hide Encode, ParseHeader, CountsAre, LatchesAre, LinesAre, ListsAre, GatesAre, LatchLines, Lines, ListLines, GateDeltas, TablesMatch,
      AllUpTo, AllWords;
    var s3 := GateDeltas(c.ands, t);
    var s2 := Lines(c.fairness, s3);
    var s1 := ListLines(c.justice, s2);
    var s0 := Lines(ListSizes(c.justice), s1);
    var r2 := Lines(c.constraints, s0);
    var r1 := Lines(c.bad, r2);
    var r0 := Lines(c.outputs, r1);
    AllFit(c);
    HeaderBack(c, t);
    HeaderIff(Encode(c, t), CountsOf(c), Body(c, t));
    LatchesSpelled(c.latches, r0);
    LinesSpelled(c.outputs, r1);
    LinesSpelled(c.bad, r2);
    LinesSpelled(c.constraints, s0);
    LinesSpelled(ListSizes(c.justice), s1);
    ListsSpelled(c.justice, s2);
    LinesSpelled(c.fairness, s3);
    GatesSpelled(c.ands, t);
    assert Parts(Encode(c, t), c, [Body(c, t), r0, r1, r2, s0, s1, s2, s3], t);
  }

  lemma AllFit(c: Circuit)
    requires Fits(c) && Accepted(c) && c.maxvar == Used(c)
    ensures AllWords(c.outputs) && AllWords(c.bad) && AllWords(c.constraints) && AllWords(c.fairness) && AllWords(ListSizes(c.justice))
    ensures forall j {:trigger c.justice[j]} :: 0 <= j < |c.justice| ==> AllWords(c.justice[j])
    ensures forall k {:trigger c.latches[k]} :: 0 <= k < |c.latches| ==> c.latches[k].next < WORD && c.latches[k].reset < WORD
    ensures forall k {:trigger c.ands[k]} :: 0 <= k < |c.ands| ==> c.ands[k].rhs1 <= c.ands[k].rhs0 <= c.ands[k].lhs < WORD
  {
    hide AllUpTo, TablesMatch;
    WordsBelow(c.outputs, c.maxvar);
    WordsBelow(c.bad, c.maxvar);
    WordsBelow(c.constraints, c.maxvar);
    WordsBelow(c.fairness, c.maxvar);
    forall j | 0 <= j < |c.justice| ensures AllWords(c.justice[j]) {
      WordsBelow(c.justice[j], c.maxvar);
    }
  }

  /** Whatever circuit the reader accepts is, when every variable is used, read back as it was written, and nothing
      after it is touched. */
  lemma RoundTrip(c: Circuit, t: seq<Byte>)
    requires Fits(c) && Accepted(c) && c.maxvar == Used(c)
    ensures Decode(Encode(c, t)) == Ok(c, t)
  {
    hide Fits, Accepted, Encode, Decode, SpellsCircuit;
    EncodeSpells(c, t);
    ReaderIff(Encode(c, t), c, t);
  }

  // ---------------------------------------------------------------- nothing shorter spells the circuit

  lemma {:induction false} DigitsNeeded(n: nat, ds: seq<Byte>)
    requires ds != [] && AllDigits(ds) && n <= ValueOf(ds)
    ensures |Decimal(n)| <= |ds|
    decreases |ds|
  {
    var k := |ds| - 1;
    if k == 0 {
      assert ds[..0] == [] && IsDigit(ds[0]);
    } else if n >= 10 {
      assert IsDigit(ds[k]);
      DigitsNeeded(n / 10, ds[..k]);
    }
  }

  lemma NumberShort(s: seq<Byte>, n: nat, b: Byte, t: seq<Byte>)
    requires Spells(s, n, b, t)
    ensures |Decimal(n)| + 1 + |t| <= |s|
  {
    var ds :| ds != [] && AllDigits(ds) && ValueOf(ds) % WORD == n && s == ds + ([b] + t);
    DigitsNeeded(n, ds);
  }

  lemma {:induction false} BytesNeeded(d: nat, code: seq<Byte>)
    requires code != [] && d <= CodeValue(code)
    ensures |EncodeDelta(d)| <= |code|
  {
    if d >= 128 {
      assert code[0] % 128 < 128;
      assert CodeValue([]) == 0;
      BytesNeeded(d / 128, code[1..]);
    }
  }

  lemma DeltaShort(s: seq<Byte>, d: nat, t: seq<Byte>)
    requires DeltaSpells(s, d, t)
    ensures |EncodeDelta(d)| + |t| <= |s|
  {
    var code :| IsCode(code) && CodeValue(code) % WORD == d && s == code + t;
    BytesNeeded(d, code);
  }

  lemma {:induction false} LinesShort(s: seq<Byte>, lits: seq<nat>, t: seq<Byte>, v: seq<Byte>)
    requires LinesAre(s, lits, t) && |v| <= |t|
    ensures |Lines(lits, v)| <= |s|
    decreases |lits|
  {
    hide Spells, Decimal;
    if lits != [] {
      var u :| Spells(s, lits[0], NEWLINE, u) && LinesAre(u, lits[1..], t);
      NumberShort(s, lits[0], NEWLINE, u);
      LinesShort(u, lits[1..], t, v);
    }
  }

  lemma LatchShort(s: seq<Byte>, l: Latch, t: seq<Byte>, v: seq<Byte>)
    requires LatchIs(s, l.next, l.reset, t) && |v| <= |t|
    ensures |Decimal(l.next) + if l.reset == 0 then [NEWLINE] + v else [SPACE] + Line(l.reset, v)| <= |s|
  {
    hide Spells, Decimal;
    if l.reset == 0 && Spells(s, l.next, NEWLINE, t) {
      NumberShort(s, l.next, NEWLINE, t);
    } else {
      var u :| Spells(s, l.next, SPACE, u) && Spells(u, l.reset, NEWLINE, t);
      NumberShort(s, l.next, SPACE, u);
      NumberShort(u, l.reset, NEWLINE, t);
    }
  }

  lemma {:induction false} LatchesShort(s: seq<Byte>, ls: seq<Latch>, t: seq<Byte>, v: seq<Byte>)
    requires LatchesAre(s, ls, t) && |v| <= |t|
    ensures |LatchLines(ls, v)| <= |s|
    decreases |ls|
  {
    hide LatchIs, Decimal, Line;
    if ls != [] {
      var u :| LatchIs(s, ls[0].next, ls[0].reset, u) && LatchesAre(u, ls[1..], t);
      LatchesShort(u, ls[1..], t, v);
      LatchShort(s, ls[0], u, LatchLines(ls[1..], v));
    }
  }

  lemma {:induction false} ListsShort(s: seq<Byte>, lists: seq<seq<nat>>, t: seq<Byte>, v: seq<Byte>)
    requires ListsAre(s, lists, t) && |v| <= |t|
    ensures |ListLines(lists, v)| <= |s|
    decreases |lists|
  {
    hide LinesAre, Lines;
    if lists != [] {
      var u :| LinesAre(s, lists[0], u) && ListsAre(u, lists[1..], t);
      ListsShort(u, lists[1..], t, v);
      LinesShort(s, lists[0], u, ListLines(lists[1..], v));
    }
  }

  lemma {:induction false} GatesShort(s: seq<Byte>, gs: seq<And>, t: seq<Byte>, v: seq<Byte>)
    requires GatesAre(s, gs, t) && |v| <= |t|
    ensures |GateDeltas(gs, v)| <= |s|
    decreases |gs|
  {
    hide DeltaSpells, EncodeDelta;
    if gs != [] {
      var u :| GateIs(s, gs[0], u) && GatesAre(u, gs[1..], t);
      var w :| DeltaSpells(s, gs[0].lhs - gs[0].rhs0, w) && DeltaSpells(w, gs[0].rhs0 - gs[0].rhs1, u);
      DeltaShort(s, gs[0].lhs - gs[0].rhs0, w);
      DeltaShort(w, gs[0].rhs0 - gs[0].rhs1, u);
      GatesShort(u, gs[1..], t, v);
    }
  }

  /** No header with these counts ends before the last that is not zero. */
  lemma {:induction false} ExtraShort(b: Byte, s: seq<Byte>, counts: seq<nat>, t: seq<Byte>, k: nat, v: seq<Byte>)
    requires ExtraAre(b, s, counts, t) && LastShown(counts, k) && |v| <= |t|
    ensures |Spaced(counts[..k], v)| <= |s| + 1
    decreases |counts|
  {
    hide Spells, Decimal;
    if b != NEWLINE && k > 0 {
      var b', u :| Spells(s, counts[0], b', u) && ExtraAre(b', u, counts[1..], t);
      NumberShort(s, counts[0], b', u);
      if k > 1 { assert counts[1..][k - 2] == counts[k - 1]; }
      ExtraShort(b', u, counts[1..], t, k - 1, v);
      assert counts[..k][1..] == counts[1..][..k - 1];
    } else {
      if b != NEWLINE {
        ExtraRest(b, s, counts, t);
      }
      assert counts[..0] == [];
    }
  }

  lemma CountsShort(s: seq<Byte>, h: Header, t: seq<Byte>, v: seq<Byte>)
    requires CountsAre(s, h, t) && |v| <= |t|
    ensures |Counts(h.m, h.i, h.l, h.o, h.a, ExtraCounts(h.b, h.c, h.j, h.f, v))| <= |s|
  {
    hide Spells, Decimal, ExtraAre, ExtraCounts, Spaced;
    var s1, s2, s3, s4, b, s5 :|
      && Spells(s, h.m, SPACE, s1) && Spells(s1, h.i, SPACE, s2) && Spells(s2, h.l, SPACE, s3) && Spells(s3, h.o, SPACE, s4)
      && Spells(s4, h.a, b, s5) && ExtraAre(b, s5, [h.b, h.c, h.j, h.f], t);
    var k := ExtraEndsAtLast(h.b, h.c, h.j, h.f, v);
    ExtraShort(b, s5, [h.b, h.c, h.j, h.f], t, k, v);
    NumberShort(s4, h.a, b, s5);
    NumberShort(s3, h.o, SPACE, s4);
    NumberShort(s2, h.l, SPACE, s3);
    NumberShort(s1, h.i, SPACE, s2);
    NumberShort(s, h.m, SPACE, s1);
  }

  /** What is written is a shortest stream that spells the circuit. */
  lemma EncodeShortest(s: seq<Byte>, c: Circuit, t: seq<Byte>)
    requires SpellsCircuit(s, c, t) && c.maxvar == Used(c)
    ensures |Encode(c, t)| <= |s|
  {
    hide CountsAre, LatchesAre, LinesAre, ListsAre, GatesAre, LatchLines, Lines, ListLines, GateDeltas, Counts, ExtraCounts;
    var rests :| Parts(s, c, rests, t);
    var s3 := GateDeltas(c.ands, t);
    var s2 := Lines(c.fairness, s3);
    var s1 := ListLines(c.justice, s2);
    var s0 := Lines(ListSizes(c.justice), s1);
    var r2 := Lines(c.constraints, s0);
    var r1 := Lines(c.bad, r2);
    var r0 := Lines(c.outputs, r1);
    GatesShort(rests[7], c.ands, t, t);
    LinesShort(rests[6], c.fairness, rests[7], s3);
    ListsShort(rests[5], c.justice, rests[6], s2);
    LinesShort(rests[4], ListSizes(c.justice), rests[5], s1);
    LinesShort(rests[3], c.constraints, rests[4], s0);
    LinesShort(rests[2], c.bad, rests[3], r2);
    LinesShort(rests[1], c.outputs, rests[2], r1);
    LatchesShort(rests[0], c.latches, rests[1], r0);
    CountsShort(s[4..], CountsOf(c), rests[0], Body(c, t));
  }

  /** Written and read again, what was read comes back exactly when no justice property names a variable that is not
      an input, a latch or a gate; otherwise the stream is refused. */
  lemma ReadAgainIff(s: seq<Byte>, t: seq<Byte>)
    requires Decode(s).Ok? && Fits(Decode(s).value)
    ensures var c := Decode(s).value;
      Decode(Encode(c, t)) ==
        if forall j {:trigger c.justice[j]} :: 0 <= j < |c.justice| ==> AllUpTo(c.justice[j], Used(c)) then Ok(c, t)
        else Err(InvalidMaxvar)
  {
    hide Encode, Accepted, SpellsCircuit, ParseHeader, ParseFirst, ParseSecond, ParseGates, MaxLeaf, Body, TablesMatch, Reencoded, Fits, EndsWith;
    var c := Decode(s).value;
    DecodeSound(s);
    ReaderIff(s, c, Decode(s).rest);
    HeaderBack(c, t);
    if c.maxvar == Used(c) { RoundTrip(c, t); }
  }

  /** Such a stream exists: nothing but one justice property, of any literal. */
  lemma JusticeUnchecked(lit: nat, t: seq<Byte>)
    requires lit < WORD
    ensures Decode(MAGIC + Counts(0, 0, 0, 0, 0, ExtraCounts(0, 0, 1, 0, Line(1, Line(lit, t))))) ==
      Ok(Circuit(Lit2Var(lit), [], [], [], [], [], [[lit]], [], [], seq(Lit2Var(lit) + 1, i => UNUSED)), t)
  {
    hide ParseCounts, Counts, ExtraCounts, Spaced, CountsAre, Spells, Decimal, Decode;
    var c := Circuit(Lit2Var(lit), [], [], [], [], [], [[lit]], [], [], seq(Lit2Var(lit) + 1, i => UNUSED));
    var u := Line(lit, t);
    var body := Line(1, u);
    var h := CountsOf(c);
    var k := ExtraEndsAtLast(0, 0, 1, 0, body);
    ZerosMayBeLeftOut(h, k, body);
    var counts := Counts(0, 0, 0, 0, 0, ExtraCounts(0, 0, 1, 0, body));
    assert (MAGIC + counts)[4..] == counts;
    HeaderIff(MAGIC + counts, h, body);
    DecimalSpells(1, NEWLINE, u);
    DecimalSpells(lit, NEWLINE, t);
    OneLine(body, 1, u);
    OneLine(u, lit, t);
    OneList(u, lit, t);
    assert ListSizes([[lit]]) == [1];
    assert Parts(MAGIC + counts, c, [body, body, body, body, body, u, t, t], t);
    OneJusticeAccepted(lit);
    ReaderIff(MAGIC + counts, c, t);
  }

  lemma OneLine(s: seq<Byte>, lit: nat, t: seq<Byte>)
    requires Spells(s, lit, NEWLINE, t)
    ensures LinesAre(s, [lit], t)
  {
    assert [lit][1..] == [] && LinesAre(t, [], t);
  }

  lemma OneList(s: seq<Byte>, lit: nat, t: seq<Byte>)
    requires LinesAre(s, [lit], t)
    ensures ListsAre(s, [[lit]], t)
  {
    assert [[lit]][1..] == [] && ListsAre(t, [], t);
  }

  lemma OneJusticeAccepted(lit: nat)
    ensures Accepted(Circuit(Lit2Var(lit), [], [], [], [], [], [[lit]], [], [], seq(Lit2Var(lit) + 1, i => UNUSED)))
  {
    var c := Circuit(Lit2Var(lit), [], [], [], [], [], [[lit]], [], [], seq(Lit2Var(lit) + 1, i => UNUSED));
    assert AllUpTo([lit], Lit2Var(lit));
    assert c.justice[0][0] == lit;
    assert forall v: nat :: v < |c.types| ==> TypeOk(c, v);
  }

  /** A literal beyond the variables is refused: one input, and an output that names another variable. */
  lemma OutputRefused(lit: nat, t: seq<Byte>)
    requires lit < WORD && Lit2Var(lit) > 1
    ensures Decode(MAGIC + Counts(1, 1, 0, 1, 0, [NEWLINE] + Line(lit, t))) == Err(InvalidLiteral)
  {
    hide ParseCounts, Counts, Spaced, ParseInputs, ParseLits, Leaves, Decimal;
    var s := Line(lit, t);
    var h := Header(1, 1, 0, 1, 0, 0, 0, 0, 0);
    assert [0, 0, 0, 0][..0] == [];
    SpacedMore([], 0, s, 0);
    ZerosMayBeLeftOut(h, 0, s);
    var counts := Counts(1, 1, 0, 1, 0, [NEWLINE] + s);
    assert (MAGIC + counts)[4..] == counts;
    BlankIs(1);
    InputsRead(1, s, 0, 1);
    LeavesSize(1, 1, []);
    DecimalSpells(lit, NEWLINE, t);
    OneLine(s, lit, t);
    assert Beyond(s, 1, 1, [lit], t);
    LitsRefusedIff(s, 1, 1);
  }

  // ---------------------------------------------------------------- exactly when

  lemma SelfLoopCyclic(net: Net, v: nat)
    requires Child(net, v, v)
    ensures Cyclic(net, {})
  {
    assert ChainStep(net, {}, [v, v], 1);
    assert Chain(net, {}, [v, v]);
    assert DependsOn(net, {}, v, v);
  }

  /** In a checked circuit that counts as re-encoded, operands are below their gate. */
  lemma StrictOperands(c: Circuit, k: nat)
    requires CheckedCircuit(c) && Reencoded(c) && k < |c.ands|
    ensures c.ands[k].rhs0 < c.ands[k].lhs && |c.inputs| + |c.latches| + k + 1 <= c.maxvar
  {
    var net, g := NetOf(c), c.ands[k];
    assert Owns(c, g.lhs, AndType(k));
    var v := Lit2Var(g.lhs);
    assert GateOf(net, v) == g;
    if g.rhs0 == g.lhs {
      SelfLoopCyclic(net, v);
    }
  }

  lemma UsedFit(c: Circuit)
    requires CheckedCircuit(c) && Reencoded(c)
    ensures LeavesFit(c)
  {
    if |c.ands| > 0 {
      StrictOperands(c, |c.ands| - 1);
    } else if |c.latches| > 0 {
      assert Owns(c, c.latches[|c.latches| - 1].lit, LatchType(|c.latches| - 1));
    } else if |c.inputs| > 0 {
      assert Owns(c, c.inputs[|c.inputs| - 1], InputType(|c.inputs| - 1));
    }
  }

  lemma RootsBelow(c: Circuit, lits: seq<nat>)
    requires CheckedCircuit(c) && forall i {:trigger lits[i]} :: 0 <= i < |lits| ==> Root(c, lits[i])
    ensures AllUpTo(lits, c.maxvar)
  {
    forall i | 0 <= i < |lits| ensures Lit2Var(lits[i]) <= c.maxvar {
      assert LitOk(c, lits[i]);
    }
  }

  lemma CheckedAccepted(c: Circuit)
    requires CheckedCircuit(c) && Reencoded(c) && ResetsOk(c) && Fits(c) && c.maxvar == Used(c)
    ensures Accepted(c)
  {
    hide Root, AllUpTo, Cyclic;
    NamedRoots(c);
    forall i | 0 <= i < |c.latches| ensures Lit2Var(c.latches[i].next) <= c.maxvar {
      assert LitOk(c, c.latches[i].next);
    }
    RootsBelow(c, c.outputs);
    RootsBelow(c, c.bad);
    RootsBelow(c, c.constraints);
    RootsBelow(c, c.fairness);
    forall j | 0 <= j < |c.justice| ensures AllUpTo(c.justice[j], c.maxvar) {
      RootsBelow(c, c.justice[j]);
    }
  }

  lemma NamedRoots(c: Circuit)
    ensures forall i {:trigger c.latches[i]} :: 0 <= i < |c.latches| ==> Root(c, c.latches[i].next)
    ensures forall i {:trigger c.outputs[i]} :: 0 <= i < |c.outputs| ==> Root(c, c.outputs[i])
    ensures forall i {:trigger c.bad[i]} :: 0 <= i < |c.bad| ==> Root(c, c.bad[i])
    ensures forall i {:trigger c.constraints[i]} :: 0 <= i < |c.constraints| ==> Root(c, c.constraints[i])
    ensures forall i {:trigger c.fairness[i]} :: 0 <= i < |c.fairness| ==> Root(c, c.fairness[i])
    ensures forall j, i {:trigger c.justice[j][i]} :: 0 <= j < |c.justice| && 0 <= i < |c.justice[j]| ==> Root(c, c.justice[j][i])
  {
  }

  /** A checked, re-encoded circuit is read back exactly when it has no variable besides its inputs,
      latches and gates; otherwise the reader refuses what the writer wrote. */
  lemma ReadBackIff(c: Circuit, t: seq<Byte>)
    requires CheckedCircuit(c) && Reencoded(c) && ResetsOk(c) && Fits(c)
    ensures c.maxvar == |c.inputs| + |c.latches| + |c.ands| ==> Decode(Encode(c, t)) == Ok(c, t)
    ensures c.maxvar != |c.inputs| + |c.latches| + |c.ands| ==> Decode(Encode(c, t)) == Err(InvalidMaxvar)
  {
    hide CheckedCircuit, Reencoded, Encode, ParseHeader, Body;
    UsedFit(c);
    HeaderBack(c, t);
    if c.maxvar == |c.inputs| + |c.latches| + |c.ands| {
      CheckedAccepted(c);
      RoundTrip(c, t);
    }
  }

  /** Such a circuit exists: one input, and a variable nothing uses. */
  lemma UnusedVariableRefused(t: seq<Byte>)
    ensures var c := Circuit(2, [2], [], [2], [], [], [], [], [], [UNUSED, InputType(0), UNUSED]);
      && CheckedCircuit(c) && Reencoded(c) && ResetsOk(c) && Fits(c) && Decode(Encode(c, t)) == Err(InvalidMaxvar)
  {
    var c := Circuit(2, [2], [], [2], [], [], [], [], [], [UNUSED, InputType(0), UNUSED]);
    assert TypeOk(c, 0) && TypeOk(c, 1) && TypeOk(c, 2);
    var rank: nat -> nat := v => v;
    RankExcludesCycle(NetOf(c), {}, rank);
    ReadBackIff(c, t);
  }
}
