/** The binary writer and reader over streams (its/aiger/aiger.c): a buffer of fixed size that refuses
    characters once it is full, and a reader that holds the current character. */
module AigerStream {
  import opened AigerNet
  import opened AigerCycles
  import opened AigerCircuit
  import opened AigerRenumbered
  import opened AigerReencode
  import opened AigerBytes
  import opened AigerFormat
  import opened AigerGrammar
  import opened AigerAccept
  import opened AigerRoundTrip

  // ---------------------------------------------------------------- writing

  /** The string buffer of `aiger_write_to_string`.

      The writing methods take two ghost arguments: `whole`, all the buffer is to hold in the end, and
      `later`, what is left to write after the call. */
  class Buffer {
    const end: nat
    var bytes: seq<Byte>

    constructor (len: nat)
      ensures end == len && bytes == []
    {
      end := len;
      bytes := [];
    }

    /** Written so far and `later` make up the whole. */
    ghost predicate Due(later: seq<Byte>, whole: seq<Byte>)
      reads this
    {
      |bytes| <= end && bytes + later == whole
    }

    /** The buffer is full and the whole does not fit. */
    ghost predicate Full(whole: seq<Byte>)
      reads this
    {
      |whole| > end && bytes == whole[..end]
    }

    /** `aiger_string_put`. */
    method Put(b: Byte, ghost later: seq<Byte>, ghost whole: seq<Byte>) returns (ok: bool)
      requires Due([b] + later, whole)
      modifies this`bytes
      ensures if ok then Due(later, whole) else Full(whole)
    {
      assert whole[|bytes|] == b;
      if |bytes| == end {
        return false;
      }
      assert (bytes + [b]) + later == whole;
      bytes := bytes + [b];
      ok := true;
    }

    /** `aiger_put_s`. */
    method PutAll(s: seq<Byte>, ghost later: seq<Byte>, ghost whole: seq<Byte>) returns (ok: bool)
      requires Due(s + later, whole)
      modifies this`bytes
      ensures if ok then Due(later, whole) else Full(whole)
    {
      var p := 0;
      assert s[p..] + later == s + later;
      while p < |s|
        invariant 0 <= p <= |s| && Due(s[p..] + later, whole)
      {
        assert s[p..] + later == [s[p]] + (s[p + 1..] + later);
        ok := Put(s[p], s[p + 1..] + later, whole);
        if !ok { return; }
        p := p + 1;
      }
      assert s[p..] + later == later;
      ok := true;
    }

    /** A number and the character after it. */
    method PutNumber(n: nat, b: Byte, ghost later: seq<Byte>, ghost whole: seq<Byte>) returns (ok: bool)
      requires Due(Decimal(n) + ([b] + later), whole)
      modifies this`bytes
      ensures if ok then Due(later, whole) else Full(whole)
    {
      ok := PutAll(Decimal(n), [b] + later, whole);
      if ok {
        ok := Put(b, later, whole);
      }
    }

    /** `aiger_write_delta`. */
    method WriteDelta(delta: nat, ghost later: seq<Byte>, ghost whole: seq<Byte>) returns (ok: bool)
      requires Due(EncodeDelta(delta) + later, whole)
      modifies this`bytes
      ensures if ok then Due(later, whole) else Full(whole)
    {
      var tmp := delta;
      while tmp >= 128
        invariant Due(EncodeDelta(tmp) + later, whole)
      {
        assert EncodeDelta(tmp) + later == [128 + tmp % 128] + (EncodeDelta(tmp / 128) + later);
        ok := Put(128 + tmp % 128, EncodeDelta(tmp / 128) + later, whole);
        if !ok { return; }
        tmp := tmp / 128;
      }
      ok := Put(tmp, later, whole);
    }

    /** One literal a line. */
    method WriteLits(lits: seq<nat>, ghost later: seq<Byte>, ghost whole: seq<Byte>) returns (ok: bool)
      requires Due(Lines(lits, later), whole)
      modifies this`bytes
      ensures if ok then Due(later, whole) else Full(whole)
    {
      var i := 0;
      while i < |lits|
        invariant 0 <= i <= |lits| && Due(Lines(lits[i..], later), whole)
      {
        assert lits[i..][0] == lits[i] && lits[i..][1..] == lits[i + 1..];
        ok := PutNumber(lits[i], NEWLINE, Lines(lits[i + 1..], later), whole);
        if !ok { return; }
        i := i + 1;
      }
      ok := true;
    }

    /** Next state and, unless zero, reset of each latch. */
    method WriteLatches(ls: seq<Latch>, ghost later: seq<Byte>, ghost whole: seq<Byte>) returns (ok: bool)
      requires Due(LatchLines(ls, later), whole)
      modifies this`bytes
      ensures if ok then Due(later, whole) else Full(whole)
    {
      var i := 0;
      while i < |ls|
        invariant 0 <= i <= |ls| && Due(LatchLines(ls[i..], later), whole)
      {
        ghost var after := LatchLines(ls[i + 1..], later);
        assert ls[i..][0] == ls[i] && ls[i..][1..] == ls[i + 1..];
        if ls[i].reset != 0 {
          ok := PutNumber(ls[i].next, SPACE, Line(ls[i].reset, after), whole);
          if !ok { return; }
          ok := PutNumber(ls[i].reset, NEWLINE, after, whole);
          if !ok { return; }
        } else {
          ok := PutNumber(ls[i].next, NEWLINE, after, whole);
          if !ok { return; }
        }
        i := i + 1;
      }
      ok := true;
    }

    /** Sizes of the lists, then their literals. */
    method WriteLists(lists: seq<seq<nat>>, ghost later: seq<Byte>, ghost whole: seq<Byte>) returns (ok: bool)
      requires Due(Lines(ListSizes(lists), ListLines(lists, later)), whole)
      modifies this`bytes
      ensures if ok then Due(later, whole) else Full(whole)
    {
      ok := WriteLits(ListSizes(lists), ListLines(lists, later), whole);
      if !ok { return; }
      var i := 0;
      while i < |lists|
        invariant 0 <= i <= |lists| && Due(ListLines(lists[i..], later), whole)
      {
        assert lists[i..][0] == lists[i] && lists[i..][1..] == lists[i + 1..];
        ok := WriteLits(lists[i], ListLines(lists[i + 1..], later), whole);
        if !ok { return; }
        i := i + 1;
      }
      ok := true;
    }

    /** The counts that may be left out, and the end of the line: after the last count that is not zero. */
    method WriteExtra(b: nat, c: nat, j: nat, f: nat, ghost later: seq<Byte>, ghost whole: seq<Byte>) returns (ok: bool)
      requires Due(ExtraCounts(b, c, j, f, later), whole)
      modifies this`bytes
      ensures if ok then Due(later, whole) else Full(whole)
      ensures exists k: nat {:trigger LastShown([b, c, j, f], k)} ::
        LastShown([b, c, j, f], k) && whole == old(bytes) + Spaced([b, c, j, f][..k], later)
    {
      ghost var last := ExtraEndsAtLast(b, c, j, f, later);
      ghost var end3 := if f == 0 then [NEWLINE] + later else [SPACE] + Line(f, later);
      ghost var end2 := if j == 0 && f == 0 then [NEWLINE] + later else [SPACE] + (Decimal(j) + end3);
      ghost var end1 := if c == 0 && j == 0 && f == 0 then [NEWLINE] + later else [SPACE] + (Decimal(c) + end2);
      ghost var end0 := if b == 0 && c == 0 && j == 0 && f == 0 then [NEWLINE] + later else [SPACE] + (Decimal(b) + end1);
      assert ExtraCounts(b, c, j, f, later) == end0;
      if b != 0 || c != 0 || j != 0 || f != 0 {
        ok := Put(SPACE, Decimal(b) + end1, whole);
        if !ok { return; }
        ok := PutAll(Decimal(b), end1, whole);
        if !ok { return; }
      }
      if c != 0 || j != 0 || f != 0 {
        ok := Put(SPACE, Decimal(c) + end2, whole);
        if !ok { return; }
        ok := PutAll(Decimal(c), end2, whole);
        if !ok { return; }
      }
      if j != 0 || f != 0 {
        ok := Put(SPACE, Decimal(j) + end3, whole);
        if !ok { return; }
        ok := PutAll(Decimal(j), end3, whole);
        if !ok { return; }
      }
      if f != 0 {
        ok := Put(SPACE, Line(f, later), whole);
        if !ok { return; }
        ok := PutAll(Decimal(f), [NEWLINE] + later, whole);
        if !ok { return; }
      }
      ok := Put(NEWLINE, later, whole);
    }

    /** `aiger_write_header` in the binary format. */
    method WriteHeader(c: Circuit, ghost t: seq<Byte>, ghost whole: seq<Byte>) returns (ok: bool)
      requires Due(Encode(c, t), whole)
      modifies this`bytes
      ensures if ok then Due(GateDeltas(c.ands, t), whole) else Full(whole)
    {
      hide LatchLines, Lines, ListLines, ListSizes, GateDeltas, ExtraCounts, Full, Due, Decimal;
      ghost var extra := ExtraCounts(|c.bad|, |c.constraints|, |c.justice|, |c.fairness|, Body(c, t));
      ghost var s4 := Decimal(|c.ands|) + extra;
      ghost var s3 := Decimal(|c.outputs|) + ([SPACE] + s4);
      ghost var s2 := Decimal(|c.latches|) + ([SPACE] + s3);
      ghost var s1 := Decimal(|c.inputs|) + ([SPACE] + s2);
      ok := PutAll(MAGIC, Counts(c.maxvar, |c.inputs|, |c.latches|, |c.outputs|, |c.ands|, extra), whole);
      if !ok { return; }
      ok := PutNumber(c.maxvar, SPACE, s1, whole);
      if !ok { return; }
      ok := PutNumber(|c.inputs|, SPACE, s2, whole);
      if !ok { return; }
      ok := PutNumber(|c.latches|, SPACE, s3, whole);
      if !ok { return; }
      ok := PutNumber(|c.outputs|, SPACE, s4, whole);
      if !ok { return; }
      ok := PutAll(Decimal(|c.ands|), extra, whole);
      if !ok { return; }
      ok := WriteExtra(|c.bad|, |c.constraints|, |c.justice|, |c.fairness|, Body(c, t), whole);
      if !ok { return; }
      ok := WriteBody(c, t, whole);
    }

    method WriteBody(c: Circuit, ghost t: seq<Byte>, ghost whole: seq<Byte>) returns (ok: bool)
      requires Due(Body(c, t), whole)
      modifies this`bytes
      ensures if ok then Due(GateDeltas(c.ands, t), whole) else Full(whole)
    {
      hide LatchLines, Lines, ListLines, ListSizes, GateDeltas, Full, Due;
      ghost var s6 := GateDeltas(c.ands, t);
      ghost var s5 := Lines(c.fairness, s6);
      ghost var s4 := Lines(ListSizes(c.justice), ListLines(c.justice, s5));
      ghost var s3 := Lines(c.constraints, s4);
      ghost var s2 := Lines(c.bad, s3);
      ghost var s1 := Lines(c.outputs, s2);
      ok := WriteLatches(c.latches, s1, whole);
      if !ok { return; }
      ok := WriteLits(c.outputs, s2, whole);
      if !ok { return; }
      ok := WriteLits(c.bad, s3, whole);
      if !ok { return; }
      ok := WriteLits(c.constraints, s4, whole);
      if !ok { return; }
      ok := WriteLists(c.justice, s5, whole);
      if !ok { return; }
      ok := WriteLits(c.fairness, s6, whole);
    }

    /** The gate part of `aiger_write_binary`. */
    method WriteGates(ands: seq<And>, lhs0: nat, ghost t: seq<Byte>, ghost whole: seq<Byte>) returns (ok: bool)
      requires Due(GateDeltas(ands, t), whole)
      requires forall k {:trigger ands[k]} :: 0 <= k < |ands| ==>
        ands[k].lhs == lhs0 + 2 * k && ands[k].rhs1 <= ands[k].rhs0 <= ands[k].lhs
      modifies this`bytes
      ensures if ok then Due(t, whole) else Full(whole)
    {
      var lhs, i := lhs0, 0;
      while i < |ands|
        invariant 0 <= i <= |ands| && lhs == lhs0 + 2 * i && Due(GateDeltas(ands[i..], t), whole)
      {
        var and := ands[i];
        assert ands[i..][0] == and && ands[i..][1..] == ands[i + 1..];
        ghost var after := GateDeltas(ands[i + 1..], t);
        ok := WriteDelta(lhs - and.rhs0, EncodeDelta(and.rhs0 - and.rhs1) + after, whole);
        if !ok { return; }
        ok := WriteDelta(and.rhs0 - and.rhs1, after, whole);
        if !ok { return; }
        lhs := lhs + 2;
        i := i + 1;
      }
      ok := true;
    }

    /** `aiger_write_binary`: the circuit is re-encoded, then written. What is read back is the re-encoded
        circuit, unless it was taken for re-encoded and has variables that nothing uses. */
    method WriteBinary(a: Aiger) returns (ok: bool)
      requires a.Valid() && |bytes| <= end
      modifies this`bytes, a, a.ands, a.types, a.onstack
      ensures a.Valid() && Reencoded(a.Value())
      ensures Reencoded(old(a.Value())) ==> a.Value() == old(a.Value())
      ensures !Reencoded(old(a.Value())) ==> NormalForm(a.Value()) && SameMeaning(old(a.Value()), a.Value())
      ensures var whole := old(bytes) + Encode(a.Value(), []);
        if ok then bytes == whole else |whole| > end && bytes == whole[..end]
      ensures ok && ResetsOk(old(a.Value())) && Fits(a.Value()) ==>
        var c := a.Value();
        Decode(bytes[|old(bytes)|..]) ==
          if c.maxvar == |c.inputs| + |c.latches| + |c.ands| then Ok(c, []) else Err(InvalidMaxvar)
    {
      hide CheckedCircuit, SameMeaning, NormalForm, Renumbered, Encode, Decode, GateDeltas, Fits, ResetsOk;
      ghost var was := a.Value();
      ghost var order := a.Reencode();
      ghost var c := a.Value();
      ghost var whole := bytes + Encode(c, []);
      ok := WriteHeader(Circuit(a.maxvar, a.inputs, a.latches, a.outputs, a.bad, a.constraints, a.justice, a.fairness,
        a.ands[..a.numAnds], a.types[..a.maxvar + 1]), [], whole);
      if !ok { return; }
      var max := MaxInputOrLatch(a.inputs, a.latches);
      ConsecutiveMax(c.inputs, c.latches);
      ok := WriteGates(a.ands[..a.numAnds], max + 2, [], whole);
      if ok {
        assert bytes == whole;
        assert bytes[|old(bytes)|..] == Encode(c, []);
        if ResetsOk(was) && Fits(c) {
          ReadBackAfter(was, c, order);
        }
      }
    }
  }

  lemma ReadBackAfter(was: Circuit, c: Circuit, order: seq<nat>)
    requires CheckedCircuit(c) && Reencoded(c) && ResetsOk(was) && Fits(c)
    requires Reencoded(was) ==> c == was
    requires !Reencoded(was) ==> Renumbered(was, c, order)
    ensures Decode(Encode(c, [])) ==
      if c.maxvar == |c.inputs| + |c.latches| + |c.ands| then Ok(c, []) else Err(InvalidMaxvar)
  {
    hide CheckedCircuit, Reencoded, ResetsOk, Fits, Encode, Decode;
    if !Reencoded(was) {
      ResetsStay(was, c, order);
    }
    ReadBackIff(c, []);
  }

  // ---------------------------------------------------------------- reading

  /** What a reading method returns. */
  datatype Outcome<T> = Value(value: T) | Fault(error: Error)

  /** A method read what the grammar says, and left the rest of the stream. */
  ghost predicate Agrees<T>(p: Parsed<T>, r: Outcome<T>, rest: seq<Byte>) {
    match p
    case Ok(v, t) => r == Value(v) && rest == t
    case Err(e) => r == Fault(e)
  }

  /** What a stream spells and what is read from it. */
  lemma ReadsExactly(s: seq<Byte>)
    ensures Decode(s).Ok? ==> var r := Decode(s); SpellsCircuit(s, r.value, r.rest) && Accepted(r.value) && EndsWith(s, r.rest)
    ensures forall c, t {:trigger SpellsCircuit(s, c, t)} :: SpellsCircuit(s, c, t) && Accepted(c) ==> Decode(s) == Ok(c, t)
  {
    hide Decode, SpellsCircuit, Accepted;
    if Decode(s).Ok? {
      ReaderIff(s, Decode(s).value, Decode(s).rest);
      CircuitRest(s, Decode(s).value, Decode(s).rest);
    }
    forall c, t | SpellsCircuit(s, c, t) && Accepted(c) ensures Decode(s) == Ok(c, t) {
      ReaderIff(s, c, t);
    }
  }

  /** The reader: `rest` begins with the current character; it is empty at the end of the file. */
  class Reader {
    var rest: seq<Byte>
    var public: Circuit

    /** `aiger_next_ch` has fetched the first character. */
    constructor (s: seq<Byte>)
      ensures rest == s
    {
      rest := s;
      public := Blank(0);
    }

    /** `aiger_next_ch`. */
    method NextCh()
      modifies this`rest
      ensures rest == if old(rest) == [] then [] else old(rest)[1..]
    {
      if rest != [] {
        rest := rest[1..];
      }
    }

    predicate At(b: Byte)
      reads this`rest
    {
      rest != [] && rest[0] == b
    }

    /** `aiger_read_number`. */
    method ReadNumber() returns (res: nat)
      requires rest != [] && IsDigit(rest[0])
      modifies this`rest
      ensures (res, rest) == NumberFrom(0, old(rest))
    {
      res := rest[0] - ZERO;
      NextCh();
      while rest != [] && IsDigit(rest[0])
        invariant NumberFrom(res, rest) == NumberFrom(0, old(rest))
        decreases |rest|
      {
        res := (10 * res + (rest[0] - ZERO)) % WORD;
        NextCh();
      }
    }

    /** `aiger_read_literal`. */
    method ReadLiteral(expected: Follow) returns (r: Outcome<Token>)
      modifies this`rest
      ensures Agrees(ParseLiteral(old(rest), expected), r, rest)
    {
      if rest == [] || !IsDigit(rest[0]) {
        return Fault(ExpectedLiteral);
      }
      var res := ReadNumber();
      if expected.BySpace? && !At(SPACE) { return Fault(ExpectedSpace); }
      if expected.ByNewLine? && !At(NEWLINE) { return Fault(ExpectedNewLine); }
      if expected.ByEither? && !At(NEWLINE) && !At(SPACE) { return Fault(ExpectedSpaceOrNewLine); }
      r := Value(Token(res, rest[0]));
      NextCh();
    }

    /** `aiger_read_delta`. */
    method ReadDelta() returns (r: Outcome<nat>)
      modifies this`rest
      ensures Agrees(DeltaFrom(old(rest), 0, 0), r, rest)
    {
      if rest == [] { return Fault(UnexpectedEof); }
      var i: nat, res: nat := 0, 0;
      var ch := rest[0];
      while ch >= 128
        invariant rest != [] && ch == rest[0] && 0 <= i <= 5
        invariant DeltaFrom(rest, i, res) == DeltaFrom(old(rest), 0, 0)
        decreases |rest|
      {
        if i == 5 { return Fault(InvalidCode); }
        res := (res + (ch - 128) * Pow128(i)) % WORD;
        i := i + 1;
        NextCh();
        if rest == [] { return Fault(UnexpectedEof); }
        ch := rest[0];
      }
      if i == 5 {
        if ch >= 8 { return Fault(InvalidCode); }
        return Fault(UndefinedShift);
      }
      r := Value((res + ch * Pow128(i)) % WORD);
      NextCh();
    }

    /** One literal a line, each checked against the largest variable. */
    method ReadLits(n: nat, limit: nat) returns (r: Outcome<seq<nat>>)
      modifies this`rest
      ensures Agrees(ParseLits(old(rest), n, limit), r, rest)
    {
      var lits: seq<nat>, i := [], 0;
      assert forall q: seq<nat> :: lits + q == q;
      while i < n
        invariant 0 <= i <= n
        invariant var p, q := ParseLits(old(rest), n, limit), ParseLits(rest, n - i, limit);
          if q.Ok? then p == Ok(lits + q.value, q.rest) else p == q
      {
        ghost var before := rest;
        var token := ReadLiteral(ByNewLine);
        if token.Fault? { return Fault(token.error); }
        if Lit2Var(token.value.value) > limit { return Fault(InvalidLiteral); }
        ghost var q := ParseLits(rest, n - i - 1, limit);
        assert q.Ok? ==> (lits + [token.value.value]) + q.value == lits + ([token.value.value] + q.value);
        lits := lits + [token.value.value];
        i := i + 1;
      }
      assert lits + [] == lits;
      r := Value(lits);
    }

    /** Inputs are not in the stream: they are numbered from one. */
    method ReadInputs(n: nat) returns (r: Outcome<()>)
      requires |public.types| == public.maxvar + 1
      modifies this`public
      ensures Built(ParseInputs(old(public), rest, 0, n), r)
    {
      var i := 0;
      while i < n
        invariant 0 <= i <= n && |public.types| == public.maxvar + 1
        invariant ParseInputs(public, rest, i, n) == ParseInputs(old(public), rest, 0, n)
      {
        var lit := 2 * (i + 1) % WORD;
        if !CanDefine(public, lit) { return Fault(AssertionFailed); }
        public := AddInput(public, lit);
        i := i + 1;
      }
      r := Value(());
    }

    /** The circuit read so far and the rest of the stream are what the grammar says. */
    ghost predicate Built(p: Parsed<Circuit>, r: Outcome<()>)
      reads this
    {
      match p
      case Ok(c, t) => r == Value(()) && public == c && rest == t
      case Err(e) => r == Fault(e)
    }

    method ReadLatch(lit: nat) returns (r: Outcome<()>)
      requires |public.types| == public.maxvar + 1
      modifies this`rest, this`public
      ensures Built(ParseLatch(old(public), old(rest), lit), r)
    {
      var next := ReadLiteral(ByEither);
      if next.Fault? { return Fault(next.error); }
      if Lit2Var(next.value.value) > public.maxvar { return Fault(InvalidLiteral); }
      if !CanDefine(public, lit) { return Fault(AssertionFailed); }
      public := AddLatch(public, lit, next.value.value);
      if next.value.follow == SPACE {
        var reset := ReadLiteral(ByNewLine);
        if reset.Fault? { return Fault(reset.error); }
        if reset.value.value > 1 && reset.value.value != lit { return Fault(AssertionFailed); }
        public := AddReset(public, lit, reset.value.value);
      }
      r := Value(());
    }

    method ReadLatches(inputs: nat, n: nat) returns (r: Outcome<()>)
      requires |public.types| == public.maxvar + 1
      modifies this`rest, this`public
      ensures Built(ParseLatches(old(public), old(rest), inputs, 0, n), r)
    {
      hide ParseLatch;
      var i := 0;
      while i < n
        invariant 0 <= i <= n && |public.types| == public.maxvar + 1
        invariant ParseLatches(public, rest, inputs, i, n) == ParseLatches(old(public), old(rest), inputs, 0, n)
      {
        r := ReadLatch(2 * (i + inputs + 1) % WORD);
        if r.Fault? { return; }
        i := i + 1;
      }
      r := Value(());
    }

    method ReadJustice(sizes: seq<nat>) returns (r: Outcome<()>)
      requires |public.types| == public.maxvar + 1
      modifies this`rest, this`public
      ensures Built(ParseJustice(old(public), old(rest), sizes), r)
    {
      var i := 0;
      while i < |sizes|
        invariant 0 <= i <= |sizes| && |public.types| == public.maxvar + 1
        invariant ParseJustice(public, rest, sizes[i..]) == ParseJustice(old(public), old(rest), sizes)
      {
        assert sizes[i..][0] == sizes[i] && sizes[i..][1..] == sizes[i + 1..];
        var lits := ReadLits(sizes[i], WORD);
        if lits.Fault? { return Fault(lits.error); }
        public := AddJustice(public, lits.value);
        i := i + 1;
      }
      r := Value(());
    }

    method ReadGate(lhs: nat) returns (r: Outcome<()>)
      requires |public.types| == public.maxvar + 1
      modifies this`rest, this`public
      ensures Built(ParseGate(old(public), old(rest), lhs), r)
    {
      var delta := ReadDelta();
      if delta.Fault? { return Fault(delta.error); }
      if delta.value > lhs { return Fault(InvalidDelta); }
      var rhs0 := lhs - delta.value;
      delta := ReadDelta();
      if delta.Fault? { return Fault(delta.error); }
      if delta.value > rhs0 { return Fault(InvalidDelta); }
      if !CanDefine(public, lhs) { return Fault(AssertionFailed); }
      public := AddAnd(public, lhs, rhs0, rhs0 - delta.value);
      r := Value(());
    }

    /** `aiger_read_binary`, above the largest input or latch. */
    method ReadGates(lhs0: nat, n: nat) returns (r: Outcome<()>)
      requires |public.types| == public.maxvar + 1
      modifies this`rest, this`public
      ensures Built(ParseGates(old(public), old(rest), lhs0, n), r)
    {
      hide ParseGate, AddAnd;
      var lhs: nat, i := lhs0, 0;
      while i < n
        invariant 0 <= i <= n && |public.types| == public.maxvar + 1
        invariant ParseGates(public, rest, lhs, n - i) == ParseGates(old(public), old(rest), lhs0, n)
      {
        lhs := (lhs + 2) % WORD;
        r := ReadGate(lhs);
        if r.Fault? { return; }
        i := i + 1;
      }
      r := Value(());
    }

    /** The counts of the header, the last ones optional. */
    method ReadCounts() returns (r: Outcome<Header>)
      modifies this`rest
      ensures Agrees(ParseCounts(old(rest)), r, rest)
    {
      hide ParseLiteral, ParseExtra;
      var m := ReadLiteral(BySpace);
      if m.Fault? { return Fault(m.error); }
      var i := ReadLiteral(BySpace);
      if i.Fault? { return Fault(i.error); }
      var l := ReadLiteral(BySpace);
      if l.Fault? { return Fault(l.error); }
      var o := ReadLiteral(BySpace);
      if o.Fault? { return Fault(o.error); }
      var a := ReadLiteral(ByEither);
      if a.Fault? { return Fault(a.error); }
      r := ReadExtra(Header(m.value.value, i.value.value, l.value.value, o.value.value, a.value.value, 0, 0, 0, 0), a.value.follow);
    }

    method ReadExtra(h0: Header, follow: Byte) returns (r: Outcome<Header>)
      modifies this`rest
      ensures Agrees(ParseExtra(h0, follow, old(rest)), r, rest)
    {
      hide ParseLiteral;
      var h, ch := h0, follow;
      if ch == SPACE {
        var b := ReadLiteral(ByEither);
        if b.Fault? { return Fault(b.error); }
        h := h.(b := b.value.value);
        ch := b.value.follow;
        if ch == SPACE {
          var c := ReadLiteral(ByEither);
          if c.Fault? { return Fault(c.error); }
          h := h.(c := c.value.value);
          ch := c.value.follow;
          if ch == SPACE {
            var j := ReadLiteral(ByEither);
            if j.Fault? { return Fault(j.error); }
            h := h.(j := j.value.value);
            ch := j.value.follow;
            if ch == SPACE {
              var f := ReadLiteral(ByNewLine);
              if f.Fault? { return Fault(f.error); }
              h := h.(f := f.value.value);
            }
          }
        }
      }
      r := Value(h);
    }

    /** The format string, the counts, and their sum. */
    method ReadHeaderLine() returns (r: Outcome<Header>)
      modifies this`rest
      ensures Agrees(ParseHeader(old(rest)), r, rest)
    {
      hide ParseCounts;
      if !At(97) { return Fault(BadMagic); }
      NextCh();
      if !At(105) && !At(97) { return Fault(BadMagic); }
      if At(97) { return Fault(AsciiMode); }
      NextCh();
      if !At(103) { return Fault(BadMagic); }
      NextCh();
      if !At(SPACE) { return Fault(BadMagic); }
      NextCh();
      assert rest == old(rest)[4..];
      r := ReadCounts();
      if r.Value? && (r.value.i + r.value.l + r.value.a) % WORD != r.value.m {
        r := Fault(InvalidMaxvar);
      }
    }

    method ReadFirst(h: Header) returns (r: Outcome<()>)
      modifies this`rest, this`public
      ensures Built(ParseFirst(h, old(rest)), r)
    {
      hide ParseInputs, ParseLatches, ParseLits;
      public := Blank(h.m);
      r := ReadInputs(h.i);
      if r.Fault? { return; }
      r := ReadLatches(h.i, h.l);
      if r.Fault? { return; }
      var outputs := ReadLits(h.o, public.maxvar);
      if outputs.Fault? { return Fault(outputs.error); }
      var bad := ReadLits(h.b, public.maxvar);
      if bad.Fault? { return Fault(bad.error); }
      var constraints := ReadLits(h.c, public.maxvar);
      if constraints.Fault? { return Fault(constraints.error); }
      public := public.(outputs := outputs.value, bad := bad.value, constraints := constraints.value);
    }

    method ReadSecond(h: Header) returns (r: Outcome<()>)
      requires |public.types| == public.maxvar + 1
      modifies this`rest, this`public
      ensures Built(ParseSecond(h, old(public), old(rest)), r)
    {
      hide ParseJustice, ParseLits;
      var sizes := ReadLits(h.j, WORD);
      if sizes.Fault? { return Fault(sizes.error); }
      r := ReadJustice(sizes.value);
      if r.Fault? { return; }
      var fairness := ReadLits(h.f, public.maxvar);
      if fairness.Fault? { return Fault(fairness.error); }
      public := public.(fairness := fairness.value);
    }

    /** `aiger_read_header` and `aiger_read_binary`. */
    method Read() returns (r: Outcome<()>)
      modifies this`rest, this`public
      ensures Built(Decode(old(rest)), r)
      ensures r == Value(()) ==> SpellsCircuit(old(rest), public, rest) && Accepted(public) && EndsWith(old(rest), rest)
      ensures forall c, t {:trigger SpellsCircuit(old(rest), c, t)} :: SpellsCircuit(old(rest), c, t) && Accepted(c) ==>
        r == Value(()) && public == c && rest == t
    {
      hide ParseHeader, ParseFirst, ParseSecond, ParseGates, MaxLeaf, SpellsCircuit, Accepted, EndsWith;
      ReadsExactly(rest);
      var h := ReadHeaderLine();
      if h.Fault? { return Fault(h.error); }
      r := ReadFirst(h.value);
      if r.Fault? { return; }
      r := ReadSecond(h.value);
      if r.Fault? { return; }
      var max := MaxInputOrLatch(public.inputs, public.latches);
      r := ReadGates(max, h.value.a);
    }
  }
}
