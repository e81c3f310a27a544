/** Which byte streams the binary AIGER reader accepts, and what it makes of them (its/aiger/aiger.c).

    A grammar says how a stream may spell a circuit: numbers with any leading zeros and modulo the word size, header
    counts that are zero left out or not, resets of zero written or not, deltas in more bytes than they need. The
    reader accepts exactly the streams that spell a circuit numbered without gaps whose literals name its variables. */
module AigerGrammar {
  import opened AigerNet
  import opened AigerCircuit
  import opened AigerRenumbered
  import opened AigerBytes
  import opened AigerFormat

  // ---------------------------------------------------------------- numbers

  ghost predicate AllDigits(ds: seq<Byte>) {
    forall i {:trigger ds[i]} :: 0 <= i < |ds| ==> IsDigit(ds[i])
  }

  ghost function ValueOf(ds: seq<Byte>): (n: nat)
    requires AllDigits(ds)
  {
    if ds == [] then 0 else 10 * ValueOf(ds[..|ds| - 1]) + (ds[|ds| - 1] - ZERO)
  }

  /** `s` is a decimal number that is `n` modulo the word size, the character `b`, and then `t`. */
  ghost predicate Spells(s: seq<Byte>, n: nat, b: Byte, t: seq<Byte>) {
    exists ds :: ds != [] && AllDigits(ds) && ValueOf(ds) % WORD == n && s == ds + ([b] + t)
  }

  lemma {:induction false} DigitsRead(ds: seq<Byte>, t: seq<Byte>)
    requires AllDigits(ds)
    ensures NumberFrom(0, ds + t) == NumberFrom(ValueOf(ds) % WORD, t)
  {
    hide NumberFrom;
    if ds == [] {
      assert ds + t == t;
    } else {
      var k := |ds| - 1;
      var d: Byte, v := ds[k], ValueOf(ds[..k]);
      assert IsDigit(ds[k]);
      assert ds + t == ds[..k] + ([d] + t);
      DigitsRead(ds[..k], [d] + t);
      NumberStep(v % WORD, d - ZERO, t);
      DigitWord(v, d - ZERO);
    }
  }

  lemma DigitWord(v: nat, d: nat)
    ensures (10 * (v % WORD) + d) % WORD == (10 * v + d) % WORD
  {
  }

  lemma {:induction false} DigitsSplit(acc: nat, s: seq<Byte>) returns (ds: seq<Byte>)
    ensures var t := NumberFrom(acc, s).1;
      AllDigits(ds) && s == ds + t && (t == [] || !IsDigit(t[0])) && (s != [] && IsDigit(s[0]) ==> ds != [])
    decreases |s|
  {
    if s == [] || !IsDigit(s[0]) {
      ds := [];
    } else {
      var more := DigitsSplit((10 * acc + (s[0] - ZERO)) % WORD, s[1..]);
      ds := [s[0]] + more;
      assert forall i :: 0 < i < |ds| ==> ds[i] == more[i - 1];
    }
  }

  /** A literal is read exactly where one is spelled and a character that may follow does. */
  lemma LiteralIff(s: seq<Byte>, expected: Follow, n: nat, b: Byte, t: seq<Byte>)
    ensures ParseLiteral(s, expected) == Ok(Token(n, b), t) <==> Matches(expected, b) && Spells(s, n, b, t)
  {
    if ParseLiteral(s, expected) == Ok(Token(n, b), t) {
      var ds := DigitsSplit(0, s);
      DigitsRead(ds, [b] + t);
      assert s == ds + ([b] + t);
    }
    if Matches(expected, b) && Spells(s, n, b, t) {
      var ds :| ds != [] && AllDigits(ds) && ValueOf(ds) % WORD == n && s == ds + ([b] + t);
      DigitsRead(ds, [b] + t);
      assert IsDigit(ds[0]) && s[0] == ds[0];
      assert ([b] + t)[1..] == t;
    }
  }

  lemma {:induction false} DecimalDigits(n: nat)
    ensures AllDigits(Decimal(n)) && ValueOf(Decimal(n)) == n
  {
    if n >= 10 {
      DecimalDigits(n / 10);
      assert Decimal(n)[..|Decimal(n)| - 1] == Decimal(n / 10);
    } else {
      assert ValueOf([]) == 0;
    }
  }

  lemma DecimalSpells(n: nat, b: Byte, t: seq<Byte>)
    requires n < WORD
    ensures Spells(Decimal(n) + ([b] + t), n, b, t)
  {
    DecimalDigits(n);
  }

  /** A number that fits a word is read back, with the white space after it, and the rest of the stream is untouched. */
  lemma LiteralBack(n: nat, b: Byte, t: seq<Byte>, expected: Follow)
    requires n < WORD && Matches(expected, b)
    ensures ParseLiteral(Decimal(n) + ([b] + t), expected) == Ok(Token(n, b), t)
  {
    hide ParseLiteral, Spells;
    DecimalSpells(n, b, t);
    LiteralIff(Decimal(n) + ([b] + t), expected, n, b, t);
  }

  // ---------------------------------------------------------------- deltas

  /** At most five bytes, the high bit set on all but the last. */
  ghost predicate IsCode(code: seq<Byte>) {
    0 < |code| <= 5 && code[|code| - 1] < 128 && forall k {:trigger code[k]} :: 0 <= k < |code| - 1 ==> code[k] >= 128
  }

  ghost function CodeValue(code: seq<Byte>): (n: nat) {
    if code == [] then 0 else code[0] % 128 + 128 * CodeValue(code[1..])
  }

  ghost predicate DeltaSpells(s: seq<Byte>, d: nat, t: seq<Byte>) {
    exists code :: IsCode(code) && CodeValue(code) % WORD == d && s == code + t
  }

  lemma NextTerm(res: nat, b: nat, more: nat, i: nat)
    ensures res + (b + 128 * more) * Pow128(i) == (res + b * Pow128(i)) + more * Pow128(i + 1)
  {
  }

  lemma SumWord(res: nat, x: nat)
    ensures (res % WORD + x) % WORD == (res + x) % WORD
  {
  }

  lemma ByteRead(s: seq<Byte>, i: nat, res: nat, x: nat)
    requires s != [] && i < 5 && x == (s[0] % 128) * Pow128(i)
    ensures s[0] >= 128 ==> DeltaFrom(s, i, res % WORD) == DeltaFrom(s[1..], i + 1, (res + x) % WORD)
    ensures s[0] < 128 ==> DeltaFrom(s, i, res % WORD) == Ok((res + x) % WORD, s[1..])
  {
    hide Pow128;
    SumWord(res, x);
  }

  lemma {:induction false} CodeRead(code: seq<Byte>, t: seq<Byte>, i: nat, res: nat)
    requires IsCode(code) && i + |code| <= 5
    ensures DeltaFrom(code + t, i, res % WORD) == Ok((res + CodeValue(code) * Pow128(i)) % WORD, t)
  {
    hide Pow128, DeltaFrom;
    var s, x := code + t, (code[0] % 128) * Pow128(i);
    NextTerm(res, code[0] % 128, CodeValue(code[1..]), i);
    ByteRead(s, i, res, x);
    if |code| == 1 {
      assert s[1..] == t && CodeValue(code[1..]) == 0;
    } else {
      assert s[1..] == code[1..] + t && code[0] >= 128;
      CodeRead(code[1..], t, i + 1, res + x);
    }
  }

  lemma {:induction false} CodeSplit(s: seq<Byte>, i: nat, res: nat) returns (code: seq<Byte>)
    requires i <= 5 && DeltaFrom(s, i, res).Ok?
    ensures IsCode(code) && i + |code| <= 5 && s == code + DeltaFrom(s, i, res).rest
    decreases |s|
  {
    hide Pow128;
    if s[0] >= 128 {
      var more := CodeSplit(s[1..], i + 1, (res + (s[0] - 128) * Pow128(i)) % WORD);
      code := [s[0]] + more;
      assert forall k :: 0 < k < |code| ==> code[k] == more[k - 1];
    } else {
      code := [s[0]];
    }
  }

  /** A delta is read exactly where one is spelled. */
  lemma DeltaIff(s: seq<Byte>, d: nat, t: seq<Byte>)
    ensures DeltaFrom(s, 0, 0) == Ok(d, t) <==> DeltaSpells(s, d, t)
  {
    if DeltaFrom(s, 0, 0) == Ok(d, t) {
      var code := CodeSplit(s, 0, 0);
      CodeRead(code, t, 0, 0);
    }
    if DeltaSpells(s, d, t) {
      var code :| IsCode(code) && CodeValue(code) % WORD == d && s == code + t;
      CodeRead(code, t, 0, 0);
    }
  }

  lemma {:induction false} EncodeDeltaCode(d: nat, k: nat)
    requires k > 0 && d < Pow128(k) && k <= 5
    ensures IsCode(EncodeDelta(d)) && |EncodeDelta(d)| <= k && CodeValue(EncodeDelta(d)) == d
  {
    if d >= 128 {
      EncodeDeltaCode(d / 128, k - 1);
      assert EncodeDelta(d)[1..] == EncodeDelta(d / 128);
      assert forall i :: 0 < i < |EncodeDelta(d)| ==> EncodeDelta(d)[i] == EncodeDelta(d / 128)[i - 1];
    } else {
      assert EncodeDelta(d)[1..] == [];
    }
  }

  lemma EncodeDeltaSpells(d: nat, t: seq<Byte>)
    requires d < WORD
    ensures DeltaSpells(EncodeDelta(d) + t, d, t)
  {
    assert Pow128(5) == 128 * 128 * 128 * 128 * 128;
    EncodeDeltaCode(d, 5);
  }

  /** So is a delta of one word. */
  lemma DeltaBack(d: nat, t: seq<Byte>)
    requires d < WORD
    ensures DeltaFrom(EncodeDelta(d) + t, 0, 0) == Ok(d, t)
  {
    hide DeltaSpells;
    EncodeDeltaSpells(d, t);
    DeltaIff(EncodeDelta(d) + t, d, t);
  }

  // ---------------------------------------------------------------- lists

  /** One literal a line. */
  ghost predicate LinesAre(s: seq<Byte>, lits: seq<nat>, t: seq<Byte>)
    decreases |lits|
  {
    if lits == [] then s == t else exists u :: Spells(s, lits[0], NEWLINE, u) && LinesAre(u, lits[1..], t)
  }

  ghost predicate AllUpTo(lits: seq<nat>, limit: nat) {
    forall i {:trigger lits[i]} :: 0 <= i < |lits| ==> Lit2Var(lits[i]) <= limit
  }

  /** `n` literals are read exactly where `n` are spelled and the variables of all are within the limit. */
  lemma {:induction false} LitsIff(s: seq<Byte>, n: nat, limit: nat, lits: seq<nat>, t: seq<Byte>)
    ensures ParseLits(s, n, limit) == Ok(lits, t) <==> |lits| == n && AllUpTo(lits, limit) && LinesAre(s, lits, t)
    decreases n
  {
    hide ParseLiteral, Spells;
    if n > 0 {
      if ParseLits(s, n, limit) == Ok(lits, t) {
        var token := ParseLiteral(s, ByNewLine);
        LiteralIff(s, ByNewLine, token.value.value, token.value.follow, token.rest);
        LitsIff(token.rest, n - 1, limit, lits[1..], t);
        assert lits == [lits[0]] + lits[1..];
      }
      if |lits| == n && AllUpTo(lits, limit) && LinesAre(s, lits, t) {
        var u :| Spells(s, lits[0], NEWLINE, u) && LinesAre(u, lits[1..], t);
        LiteralIff(s, ByNewLine, lits[0], NEWLINE, u);
        LitsIff(u, n - 1, limit, lits[1..], t);
        assert lits == [lits[0]] + lits[1..];
      }
    }
  }

  /** A literal beyond the limit, and the ones before it. */
  ghost predicate Beyond(s: seq<Byte>, n: nat, limit: nat, lits: seq<nat>, t: seq<Byte>) {
    && 0 < |lits| <= n && AllUpTo(lits[..|lits| - 1], limit) && Lit2Var(lits[|lits| - 1]) > limit
    && LinesAre(s, lits, t)
  }

  /** Literals are refused as invalid exactly where one beyond the limit is spelled. */
  lemma {:induction false} LitsRefusedIff(s: seq<Byte>, n: nat, limit: nat)
    ensures ParseLits(s, n, limit) == Err(InvalidLiteral) <==> exists lits, t :: Beyond(s, n, limit, lits, t)
    decreases n
  {
    hide ParseLiteral, Spells;
    if ParseLits(s, n, limit) == Err(InvalidLiteral) {
      NeverInvalid(s, ByNewLine);
      var token := ParseLiteral(s, ByNewLine);
      var x := token.value.value;
      LiteralIff(s, ByNewLine, x, token.value.follow, token.rest);
      if Lit2Var(x) > limit {
        assert LinesAre(token.rest, [x][1..], token.rest);
        assert Beyond(s, n, limit, [x], token.rest);
      } else {
        LitsRefusedIff(token.rest, n - 1, limit);
        var more, t :| Beyond(token.rest, n - 1, limit, more, t);
        var lits := [x] + more;
        assert lits[1..] == more && lits[..|lits| - 1] == [x] + more[..|more| - 1];
        assert Beyond(s, n, limit, lits, t);
      }
    }
    if lits, t :| Beyond(s, n, limit, lits, t) {
      var u :| Spells(s, lits[0], NEWLINE, u) && LinesAre(u, lits[1..], t);
      LiteralIff(s, ByNewLine, lits[0], NEWLINE, u);
      if |lits| > 1 {
        assert lits[..|lits| - 1][0] == lits[0];
        assert lits[1..][..|lits| - 2] == lits[..|lits| - 1][1..];
        assert Beyond(u, n - 1, limit, lits[1..], t);
        LitsRefusedIff(u, n - 1, limit);
      }
    }
  }

  lemma NeverInvalid(s: seq<Byte>, expected: Follow)
    ensures ParseLiteral(s, expected) != Err(InvalidLiteral)
  {
  }

  /** The next state, and the reset unless it is zero and left out. */
  ghost predicate LatchIs(s: seq<Byte>, next: nat, reset: nat, t: seq<Byte>) {
    || (reset == 0 && Spells(s, next, NEWLINE, t))
    || exists u :: Spells(s, next, SPACE, u) && Spells(u, reset, NEWLINE, t)
  }

  ghost predicate LatchesAre(s: seq<Byte>, ls: seq<Latch>, t: seq<Byte>)
    decreases |ls|
  {
    if ls == [] then s == t else exists u :: LatchIs(s, ls[0].next, ls[0].reset, u) && LatchesAre(u, ls[1..], t)
  }

  ghost predicate ListsAre(s: seq<Byte>, lists: seq<seq<nat>>, t: seq<Byte>)
    decreases |lists|
  {
    if lists == [] then s == t else exists u :: LinesAre(s, lists[0], u) && ListsAre(u, lists[1..], t)
  }

  ghost predicate TwoDeltas(s: seq<Byte>, d0: nat, d1: nat, t: seq<Byte>) {
    exists u :: DeltaSpells(s, d0, u) && DeltaSpells(u, d1, t)
  }

  /** The differences between a gate's literals, from the largest down. */
  ghost predicate GateIs(s: seq<Byte>, g: And, t: seq<Byte>) {
    g.rhs1 <= g.rhs0 <= g.lhs && TwoDeltas(s, g.lhs - g.rhs0, g.rhs0 - g.rhs1, t)
  }

  ghost predicate GatesAre(s: seq<Byte>, gs: seq<And>, t: seq<Byte>)
    decreases |gs|
  {
    if gs == [] then s == t else exists u :: GateIs(s, gs[0], u) && GatesAre(u, gs[1..], t)
  }

  // ---------------------------------------------------------------- the header

  /** The rest of the header after a count followed by `b`: a newline ends it, and counts left out are zero. */
  ghost predicate ExtraAre(b: Byte, s: seq<Byte>, counts: seq<nat>, t: seq<Byte>)
    decreases |counts|
  {
    if b == NEWLINE then s == t && forall i {:trigger counts[i]} :: 0 <= i < |counts| ==> counts[i] == 0
    else b == SPACE && counts != [] && exists b', u :: Spells(s, counts[0], b', u) && ExtraAre(b', u, counts[1..], t)
  }

  /** Five counts, and the four that may be left out. */
  ghost predicate CountsAre(s: seq<Byte>, h: Header, t: seq<Byte>) {
    exists s1, s2, s3, s4, b, s5 ::
      && Spells(s, h.m, SPACE, s1) && Spells(s1, h.i, SPACE, s2) && Spells(s2, h.l, SPACE, s3) && Spells(s3, h.o, SPACE, s4)
      && Spells(s4, h.a, b, s5) && ExtraAre(b, s5, [h.b, h.c, h.j, h.f], t)
  }

  lemma ExtraMore(s: seq<Byte>, n: nat, b: Byte, u: seq<Byte>, counts: seq<nat>, t: seq<Byte>)
    requires Spells(s, n, b, u) && ExtraAre(b, u, counts, t)
    ensures ExtraAre(SPACE, s, [n] + counts, t)
  {
    assert ([n] + counts)[1..] == counts;
  }

  lemma ExtraLess(s: seq<Byte>, counts: seq<nat>, t: seq<Byte>) returns (b: Byte, u: seq<Byte>)
    requires ExtraAre(SPACE, s, counts, t)
    ensures counts != [] && Spells(s, counts[0], b, u) && ExtraAre(b, u, counts[1..], t) && (b == NEWLINE || b == SPACE)
  {
    b, u :| Spells(s, counts[0], b, u) && ExtraAre(b, u, counts[1..], t);
  }

  /** The counts that may be left out are read exactly where they are spelled. */
  lemma ExtraIff(h: Header, b: Byte, s: seq<Byte>, h': Header, t: seq<Byte>)
    requires h.b == h.c == h.j == h.f == 0 && (b == SPACE || b == NEWLINE)
    ensures ParseExtra(h, b, s) == Ok(h', t) <==>
      && h' == h.(b := h'.b, c := h'.c, j := h'.j, f := h'.f)
      && ExtraAre(b, s, [h'.b, h'.c, h'.j, h'.f], t)
  {
    var counts := [h'.b, h'.c, h'.j, h'.f];
    if b == NEWLINE {
      if ParseExtra(h, b, s) == Ok(h', t) { ExtraEnds(s, counts); }
      if ExtraAre(b, s, counts, t) {
        ExtraEnded(s, counts, t);
        assert counts[0] == 0 && counts[1] == 0 && counts[2] == 0 && counts[3] == 0;
      }
    } else {
      if ParseExtra(h, b, s) == Ok(h', t) { ExtraParsed(h, s, h', t); }
      if h' == h.(b := h'.b, c := h'.c, j := h'.j, f := h'.f) && ExtraAre(b, s, [h'.b, h'.c, h'.j, h'.f], t) { ExtraRead(h, s, h', t); }
    }
  }

  lemma ExtraParsed(h: Header, s: seq<Byte>, h': Header, t: seq<Byte>)
    requires h.b == h.c == h.j == h.f == 0 && ParseExtra(h, SPACE, s) == Ok(h', t)
    ensures h' == h.(b := h'.b, c := h'.c, j := h'.j, f := h'.f)
    ensures ExtraAre(SPACE, s, [h'.b, h'.c, h'.j, h'.f], t)
  {
    hide ParseLiteral, Spells, ExtraAre;
    var b := ParseLiteral(s, ByEither);
    LiteralIff(s, ByEither, b.value.value, b.value.follow, b.rest);
    if b.value.follow == SPACE {
      var c := ParseLiteral(b.rest, ByEither);
      LiteralIff(b.rest, ByEither, c.value.value, c.value.follow, c.rest);
      if c.value.follow == SPACE {
        var j := ParseLiteral(c.rest, ByEither);
        LiteralIff(c.rest, ByEither, j.value.value, j.value.follow, j.rest);
        if j.value.follow == SPACE {
          var f := ParseLiteral(j.rest, ByNewLine);
          LiteralIff(j.rest, ByNewLine, f.value.value, f.value.follow, f.rest);
          ExtraEnds(f.rest, []);
          ExtraMore(j.rest, h'.f, NEWLINE, f.rest, [], t);
          assert [h'.f] + [] == [h'.f];
        } else {
          ExtraEnds(j.rest, [0]);
        }
        ExtraMore(c.rest, h'.j, j.value.follow, j.rest, [h'.f], t);
        assert [h'.j] + [h'.f] == [h'.j, h'.f];
      } else {
        ExtraEnds(c.rest, [0, 0]);
      }
      ExtraMore(b.rest, h'.c, c.value.follow, c.rest, [h'.j, h'.f], t);
      assert [h'.c] + [h'.j, h'.f] == [h'.c, h'.j, h'.f];
    } else {
      ExtraEnds(b.rest, [0, 0, 0]);
    }
    ExtraMore(s, h'.b, b.value.follow, b.rest, [h'.c, h'.j, h'.f], t);
    assert [h'.b] + [h'.c, h'.j, h'.f] == [h'.b, h'.c, h'.j, h'.f];
  }

  lemma ExtraEnds(s: seq<Byte>, counts: seq<nat>)
    requires forall i :: 0 <= i < |counts| ==> counts[i] == 0
    ensures ExtraAre(NEWLINE, s, counts, s)
  {
  }

  lemma ExtraEnded(s: seq<Byte>, counts: seq<nat>, t: seq<Byte>)
    requires ExtraAre(NEWLINE, s, counts, t)
    ensures s == t && forall i :: 0 <= i < |counts| ==> counts[i] == 0
  {
  }

  lemma ExtraRead(h: Header, s: seq<Byte>, h': Header, t: seq<Byte>)
    requires h.b == h.c == h.j == h.f == 0 && h' == h.(b := h'.b, c := h'.c, j := h'.j, f := h'.f)
    requires ExtraAre(SPACE, s, [h'.b, h'.c, h'.j, h'.f], t)
    ensures ParseExtra(h, SPACE, s) == Ok(h', t)
  {
    hide ParseLiteral, Spells, ExtraAre;
    var b, s1 := ExtraLess(s, [h'.b, h'.c, h'.j, h'.f], t);
    assert [h'.b, h'.c, h'.j, h'.f][1..] == [h'.c, h'.j, h'.f];
    LiteralIff(s, ByEither, h'.b, b, s1);
    if b == SPACE {
      var c, s2 := ExtraLess(s1, [h'.c, h'.j, h'.f], t);
      assert [h'.c, h'.j, h'.f][1..] == [h'.j, h'.f];
      LiteralIff(s1, ByEither, h'.c, c, s2);
      if c == SPACE {
        var j, s3 := ExtraLess(s2, [h'.j, h'.f], t);
        assert [h'.j, h'.f][1..] == [h'.f];
        LiteralIff(s2, ByEither, h'.j, j, s3);
        if j == SPACE {
          var f, s4 := ExtraLess(s3, [h'.f], t);
          LastCount(f, s4, [h'.f][1..], t);
          LiteralIff(s3, ByNewLine, h'.f, f, s4);
        } else {
          ExtraEnded(s3, [h'.f], t);
          assert [h'.f][0] == 0;
        }
      } else {
        ExtraEnded(s2, [h'.j, h'.f], t);
        assert [h'.j, h'.f][0] == 0 && [h'.j, h'.f][1] == 0;
      }
    } else {
      ExtraEnded(s1, [h'.c, h'.j, h'.f], t);
      assert [h'.c, h'.j, h'.f][0] == 0 && [h'.c, h'.j, h'.f][1] == 0 && [h'.c, h'.j, h'.f][2] == 0;
    }
  }

  lemma LastCount(b: Byte, s: seq<Byte>, counts: seq<nat>, t: seq<Byte>)
    requires counts == [] && ExtraAre(b, s, counts, t)
    ensures b == NEWLINE && s == t
  {
  }

  lemma CountsIff(s: seq<Byte>, h: Header, t: seq<Byte>)
    ensures ParseCounts(s) == Ok(h, t) <==> CountsAre(s, h, t)
  {
    if ParseCounts(s) == Ok(h, t) { CountsParsed(s, h, t); }
    if CountsAre(s, h, t) { CountsRead(s, h, t); }
  }

  lemma CountsParsed(s: seq<Byte>, h: Header, t: seq<Byte>)
    requires ParseCounts(s) == Ok(h, t)
    ensures CountsAre(s, h, t)
  {
    hide ParseLiteral, Spells, ExtraAre, ParseExtra;
    var m := ParseLiteral(s, BySpace);
    LiteralIff(s, BySpace, m.value.value, m.value.follow, m.rest);
    var i := ParseLiteral(m.rest, BySpace);
    LiteralIff(m.rest, BySpace, i.value.value, i.value.follow, i.rest);
    var l := ParseLiteral(i.rest, BySpace);
    LiteralIff(i.rest, BySpace, l.value.value, l.value.follow, l.rest);
    var o := ParseLiteral(l.rest, BySpace);
    LiteralIff(l.rest, BySpace, o.value.value, o.value.follow, o.rest);
    var a := ParseLiteral(o.rest, ByEither);
    LiteralIff(o.rest, ByEither, a.value.value, a.value.follow, a.rest);
    ExtraIff(Header(m.value.value, i.value.value, l.value.value, o.value.value, a.value.value, 0, 0, 0, 0), a.value.follow, a.rest, h, t);
    assert Spells(s, h.m, SPACE, m.rest) && Spells(m.rest, h.i, SPACE, i.rest) && Spells(i.rest, h.l, SPACE, l.rest);
    assert Spells(l.rest, h.o, SPACE, o.rest) && Spells(o.rest, h.a, a.value.follow, a.rest);
  }

  lemma CountsRead(s: seq<Byte>, h: Header, t: seq<Byte>)
    requires CountsAre(s, h, t)
    ensures ParseCounts(s) == Ok(h, t)
  {
    hide ParseLiteral, Spells, ExtraAre, ParseExtra;
    var s1, s2, s3, s4, b, s5 :|
      && Spells(s, h.m, SPACE, s1) && Spells(s1, h.i, SPACE, s2) && Spells(s2, h.l, SPACE, s3) && Spells(s3, h.o, SPACE, s4)
      && Spells(s4, h.a, b, s5) && ExtraAre(b, s5, [h.b, h.c, h.j, h.f], t);
    LiteralIff(s, BySpace, h.m, SPACE, s1);
    LiteralIff(s1, BySpace, h.i, SPACE, s2);
    LiteralIff(s2, BySpace, h.l, SPACE, s3);
    LiteralIff(s3, BySpace, h.o, SPACE, s4);
    EndsCount(b, s5, [h.b, h.c, h.j, h.f], t);
    LiteralIff(s4, ByEither, h.a, b, s5);
    ExtraIff(Header(h.m, h.i, h.l, h.o, h.a, 0, 0, 0, 0), b, s5, h, t);
  }

  lemma EndsCount(b: Byte, s: seq<Byte>, counts: seq<nat>, t: seq<Byte>)
    requires ExtraAre(b, s, counts, t)
    ensures b == SPACE || b == NEWLINE
  {
  }

  /** The counts, each after a space, and the end of the line. */
  ghost function Spaced(counts: seq<nat>, t: seq<Byte>): (r: seq<Byte>) {
    if counts == [] then [NEWLINE] + t else [SPACE] + (Decimal(counts[0]) + Spaced(counts[1..], t))
  }

  ghost predicate ZeroFrom(counts: seq<nat>, k: nat) {
    k <= |counts| && forall i {:trigger counts[i]} :: k <= i < |counts| ==> counts[i] == 0
  }

  lemma {:induction false} SpacedAre(counts: seq<nat>, k: nat, t: seq<Byte>)
    requires ZeroFrom(counts, k) && forall i {:trigger counts[i]} :: 0 <= i < |counts| ==> counts[i] < WORD
    ensures var s := Spaced(counts[..k], t); s != [] && ExtraAre(s[0], s[1..], counts, t)
  {
    var s := Spaced(counts[..k], t);
    if k == 0 {
      assert s[1..] == t;
    } else {
      assert counts[..k][1..] == counts[1..][..k - 1] && [counts[0]] + counts[1..] == counts;
      var more := Spaced(counts[1..][..k - 1], t);
      SpacedAre(counts[1..], k - 1, t);
      assert s[1..] == Decimal(counts[0]) + ([more[0]] + more[1..]);
      DecimalSpells(counts[0], more[0], more[1..]);
      ExtraMore(s[1..], counts[0], more[0], more[1..], counts[1..], t);
    }
  }

  /** The header is read back wherever the line ends, as long as only zeros are left out. */
  lemma ZerosMayBeLeftOut(h: Header, k: nat, t: seq<Byte>)
    requires h.m < WORD && h.i < WORD && h.l < WORD && h.o < WORD && h.a < WORD && h.b < WORD && h.c < WORD && h.j < WORD && h.f < WORD
    requires ZeroFrom([h.b, h.c, h.j, h.f], k)
    ensures ParseCounts(Counts(h.m, h.i, h.l, h.o, h.a, Spaced([h.b, h.c, h.j, h.f][..k], t))) == Ok(h, t)
  {
    hide ExtraAre, ParseCounts, Decimal, Spells, Spaced;
    var s := Spaced([h.b, h.c, h.j, h.f][..k], t);
    SpacedAre([h.b, h.c, h.j, h.f], k, t);
    var b, s5 := s[0], s[1..];
    assert s == [b] + s5;
    DecimalSpells(h.a, b, s5);
    var s4 := Decimal(h.a) + ([b] + s5);
    DecimalSpells(h.o, SPACE, s4);
    var s3 := Decimal(h.o) + ([SPACE] + s4);
    DecimalSpells(h.l, SPACE, s3);
    var s2 := Decimal(h.l) + ([SPACE] + s3);
    DecimalSpells(h.i, SPACE, s2);
    var s1 := Decimal(h.i) + ([SPACE] + s2);
    DecimalSpells(h.m, SPACE, s1);
    CountsIff(Decimal(h.m) + ([SPACE] + s1), h, t);
  }

  /** Count `k` is the first of those left out: zeros from there on, and not before. */
  ghost predicate LastShown(counts: seq<nat>, k: nat) {
    ZeroFrom(counts, k) && (k > 0 ==> counts[k - 1] != 0)
  }

  /** The writer ends the line after the last count that is not zero. */
  lemma ExtraEndsAtLast(b: nat, c: nat, j: nat, f: nat, t: seq<Byte>) returns (k: nat)
    ensures LastShown([b, c, j, f], k)
    ensures ExtraCounts(b, c, j, f, t) == Spaced([b, c, j, f][..k], t)
  {
    hide Decimal;
    var s := [b, c, j, f];
    k := if f != 0 then 4 else if j != 0 then 3 else if c != 0 then 2 else if b != 0 then 1 else 0;
    SpacedMore(s, k, t, 0);
    SpacedMore(s, k, t, 1);
    SpacedMore(s, k, t, 2);
    SpacedMore(s, k, t, 3);
    SpacedMore(s, k, t, 4);
    assert s[0..k] == s[..k];
  }

  lemma SpacedMore(counts: seq<nat>, k: nat, t: seq<Byte>, i: nat)
    requires k <= |counts|
    ensures i < k ==> Spaced(counts[i..k], t) == [SPACE] + (Decimal(counts[i]) + Spaced(counts[i + 1..k], t))
    ensures i == k ==> Spaced(counts[i..k], t) == [NEWLINE] + t
  {
    if i < k { assert counts[i..k][1..] == counts[i + 1..k]; }
  }

  lemma NeverMaxvar(s: seq<Byte>, expected: Follow)
    ensures ParseLiteral(s, expected) != Err(InvalidMaxvar)
  {
  }

  lemma CountsNeverMaxvar(s: seq<Byte>)
    ensures ParseCounts(s) != Err(InvalidMaxvar)
  {
    hide ParseLiteral;
    forall u, expected ensures ParseLiteral(u, expected) != Err(InvalidMaxvar) {
      NeverMaxvar(u, expected);
    }
  }

  /** The largest variable is refused exactly where a header is spelled whose counts do not add up to it. */
  lemma MaxvarRefusedIff(s: seq<Byte>)
    ensures ParseHeader(s) == Err(InvalidMaxvar) <==>
      MAGIC <= s && exists h, t :: CountsAre(s[4..], h, t) && (h.i + h.l + h.a) % WORD != h.m
  {
    hide ParseCounts, CountsAre;
    assert MAGIC <= s <==> |s| >= 4 && s[0] == 97 && s[1] == 105 && s[2] == 103 && s[3] == SPACE;
    if |s| >= 4 {
      CountsNeverMaxvar(s[4..]);
      if ParseCounts(s[4..]).Ok? { CountsIff(s[4..], ParseCounts(s[4..]).value, ParseCounts(s[4..]).rest); }
      forall h, t | CountsAre(s[4..], h, t) ensures ParseCounts(s[4..]) == Ok(h, t) {
        CountsIff(s[4..], h, t);
      }
    }
  }

  lemma HeaderIff(s: seq<Byte>, h: Header, t: seq<Byte>)
    ensures ParseHeader(s) == Ok(h, t) <==> MAGIC <= s && CountsAre(s[4..], h, t) && (h.i + h.l + h.a) % WORD == h.m
  {
    hide ParseCounts, CountsAre;
    assert MAGIC <= s <==> |s| >= 4 && s[0] == 97 && s[1] == 105 && s[2] == 103 && s[3] == SPACE;
    if |s| >= 4 { CountsIff(s[4..], h, t); }
  }
}
