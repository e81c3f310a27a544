/** The binary AIGER format: what the writer emits for a circuit, what the reader makes of a stream, and
    when reading back gives the same circuit (its/aiger/aiger.c). The header is that of the section "Binary
    Format" with the extra counts of "AIGER 1.9 and Beyond". */
module AigerFormat {
  import opened AigerNet
  import opened AigerCircuit
  import opened AigerRenumbered
  import opened AigerBytes

  // ---------------------------------------------------------------- what is written

  function Line(n: nat, t: seq<Byte>): (r: seq<Byte>) {
    Decimal(n) + ([NEWLINE] + t)
  }

  function Lines(lits: seq<nat>, t: seq<Byte>): (r: seq<Byte>) {
    if lits == [] then t else Line(lits[0], Lines(lits[1..], t))
  }

  function LatchLines(ls: seq<Latch>, t: seq<Byte>): (r: seq<Byte>) {
    if ls == [] then t
    else
      var after := LatchLines(ls[1..], t);
      Decimal(ls[0].next) + if ls[0].reset == 0 then [NEWLINE] + after else [SPACE] + Line(ls[0].reset, after)
  }

  function ListSizes(lists: seq<seq<nat>>): (r: seq<nat>)
    ensures |r| == |lists|
  {
    seq(|lists|, i requires 0 <= i < |lists| => |lists[i]|)
  }

  function ListLines(lists: seq<seq<nat>>, t: seq<Byte>): (r: seq<Byte>) {
    if lists == [] then t else Lines(lists[0], ListLines(lists[1..], t))
  }

  /** The gates whose left-hand sides are `lhs`, `lhs` + 2 and so on. */
  function GateDeltas(ands: seq<And>, t: seq<Byte>): (r: seq<Byte>) {
    if ands == [] then t
    else
      var g := ands[0];
      if g.rhs0 <= g.lhs && g.rhs1 <= g.rhs0 then
        EncodeDelta(g.lhs - g.rhs0) + (EncodeDelta(g.rhs0 - g.rhs1) + GateDeltas(ands[1..], t))
      else t
  }

  /** Counts after the first five stop at the last that is not zero. */
  function ExtraCounts(b: nat, c: nat, j: nat, f: nat, t: seq<Byte>): (r: seq<Byte>) {
    if b == 0 && c == 0 && j == 0 && f == 0 then [NEWLINE] + t
    else if c == 0 && j == 0 && f == 0 then [SPACE] + Line(b, t)
    else if j == 0 && f == 0 then [SPACE] + (Decimal(b) + ([SPACE] + Line(c, t)))
    else if f == 0 then [SPACE] + (Decimal(b) + ([SPACE] + (Decimal(c) + ([SPACE] + Line(j, t)))))
    else [SPACE] + (Decimal(b) + ([SPACE] + (Decimal(c) + ([SPACE] + (Decimal(j) + ([SPACE] + Line(f, t)))))))
  }

  function Counts(m: nat, i: nat, l: nat, o: nat, a: nat, t: seq<Byte>): (r: seq<Byte>) {
    Decimal(m) + ([SPACE] + (Decimal(i) + ([SPACE] + (Decimal(l) + ([SPACE] + (Decimal(o) + ([SPACE] + (Decimal(a) + t))))))))
  }

  const MAGIC: seq<Byte> := [97, 105, 103, 32]

  /** The circuit in the binary format, followed by `t`. */
  function Encode(c: Circuit, t: seq<Byte>): (r: seq<Byte>) {
    MAGIC + Counts(c.maxvar, |c.inputs|, |c.latches|, |c.outputs|, |c.ands|,
      ExtraCounts(|c.bad|, |c.constraints|, |c.justice|, |c.fairness|, Body(c, t)))
  }

  function Body(c: Circuit, t: seq<Byte>): (r: seq<Byte>) {
    LatchLines(c.latches, Lines(c.outputs, Lines(c.bad, Lines(c.constraints,
      Lines(ListSizes(c.justice), ListLines(c.justice, Lines(c.fairness, GateDeltas(c.ands, t))))))))
  }

  // ---------------------------------------------------------------- building a circuit

  /** `aiger_import_literal`: the type table grows to hold the variable. */
  function Import(c: Circuit, lit: nat): (d: Circuit)
    requires |c.types| == c.maxvar + 1
    ensures |d.types| == d.maxvar + 1 && Lit2Var(lit) <= d.maxvar
    ensures Lit2Var(lit) <= c.maxvar ==> d == c
  {
    var v := Lit2Var(lit);
    if v <= c.maxvar then c else c.(maxvar := v, types := c.types + seq(v - c.maxvar, i => UNUSED))
  }

  /** The assertions of `aiger_add_input`, `aiger_add_latch` and `aiger_add_and` on the literal defined. */
  predicate CanDefine(c: Circuit, lit: nat) {
    lit >= 2 && !Sign(lit) &&
    var v := Lit2Var(lit);
    v < |c.types| ==> !c.types[v].input && !c.types[v].latch && !c.types[v].isAnd
  }

  function AddInput(c: Circuit, lit: nat): (d: Circuit)
    requires |c.types| == c.maxvar + 1
    ensures |d.types| == d.maxvar + 1
  {
    var d, v := Import(c, lit), Lit2Var(lit);
    d.(inputs := d.inputs + [lit], types := d.types[v := d.types[v].(input := true, idx := |d.inputs|)])
  }

  function AddLatch(c: Circuit, lit: nat, next: nat): (d: Circuit)
    requires |c.types| == c.maxvar + 1
    ensures |d.types| == d.maxvar + 1 && d.latches == c.latches + [Latch(lit, next, 0)]
    ensures Lit2Var(lit) < |d.types| && d.types[Lit2Var(lit)].latch && d.types[Lit2Var(lit)].idx == |c.latches|
  {
    var d, v := Import(c, lit), Lit2Var(lit);
    var e := Import(d.(types := d.types[v := d.types[v].(latch := true, idx := |d.latches|)]), next);
    e.(latches := e.latches + [Latch(lit, next, 0)])
  }

  function AddReset(c: Circuit, lit: nat, reset: nat): (d: Circuit)
    requires |c.types| == c.maxvar + 1
    requires Lit2Var(lit) < |c.types| && c.types[Lit2Var(lit)].idx < |c.latches|
    ensures |d.types| == d.maxvar + 1
  {
    var i := c.types[Lit2Var(lit)].idx;
    c.(latches := c.latches[i := c.latches[i].(reset := reset)])
  }

  function AddAnd(c: Circuit, lhs: nat, rhs0: nat, rhs1: nat): (d: Circuit)
    requires |c.types| == c.maxvar + 1
    ensures |d.types| == d.maxvar + 1
  {
    var d, v := Import(c, lhs), Lit2Var(lhs);
    var e := Import(Import(d.(types := d.types[v := d.types[v].(isAnd := true, idx := |d.ands|)]), rhs0), rhs1);
    e.(ands := e.ands + [And(lhs, rhs0, rhs1)])
  }

  function ImportAll(c: Circuit, lits: seq<nat>): (d: Circuit)
    requires |c.types| == c.maxvar + 1
    ensures |d.types| == d.maxvar + 1
    decreases |lits|
  {
    if lits == [] then c else ImportAll(Import(c, lits[0]), lits[1..])
  }

  function AddJustice(c: Circuit, lits: seq<nat>): (d: Circuit)
    requires |c.types| == c.maxvar + 1
    ensures |d.types| == d.maxvar + 1
  {
    var d := ImportAll(c, lits);
    d.(justice := d.justice + [lits])
  }

  // ---------------------------------------------------------------- what is read

  /** `n` literals, one a line, whose variables are at most `limit`. */
  function ParseLits(s: seq<Byte>, n: nat, limit: nat): (r: Parsed<seq<nat>>)
    ensures r.Ok? ==> |r.value| == n
    decreases n
  {
    if n == 0 then Ok([], s)
    else
      match ParseLiteral(s, ByNewLine)
      case Err(e) => Err(e)
      case Ok(token, t) =>
        if Lit2Var(token.value) > limit then Err(InvalidLiteral)
        else
          match ParseLits(t, n - 1, limit)
          case Err(e) => Err(e)
          case Ok(more, u) => Ok([token.value] + more, u)
  }

  function ParseInputs(c: Circuit, s: seq<Byte>, i: nat, n: nat): (r: Parsed<Circuit>)
    requires |c.types| == c.maxvar + 1 && i <= n
    ensures r.Ok? ==> |r.value.types| == r.value.maxvar + 1
    decreases n - i
  {
    if i == n then Ok(c, s)
    else
      var lit := 2 * (i + 1) % WORD;
      if !CanDefine(c, lit) then Err(AssertionFailed) else ParseInputs(AddInput(c, lit), s, i + 1, n)
  }

  /** One latch line: the next state, and the reset when a space follows. */
  function ParseLatch(c: Circuit, s: seq<Byte>, lit: nat): (r: Parsed<Circuit>)
    requires |c.types| == c.maxvar + 1
    ensures r.Ok? ==> |r.value.types| == r.value.maxvar + 1
  {
    match ParseLiteral(s, ByEither)
    case Err(e) => Err(e)
    case Ok(next, t) =>
      if Lit2Var(next.value) > c.maxvar then Err(InvalidLiteral)
      else if !CanDefine(c, lit) then Err(AssertionFailed)
      else
        var d := AddLatch(c, lit, next.value);
        if next.follow != SPACE then Ok(d, t)
        else
          match ParseLiteral(t, ByNewLine)
          case Err(e) => Err(e)
          case Ok(reset, u) =>
            if reset.value > 1 && reset.value != lit then Err(AssertionFailed) else Ok(AddReset(d, lit, reset.value), u)
  }

  function ParseLatches(c: Circuit, s: seq<Byte>, inputs: nat, i: nat, n: nat): (r: Parsed<Circuit>)
    requires |c.types| == c.maxvar + 1 && i <= n
    ensures r.Ok? ==> |r.value.types| == r.value.maxvar + 1
    decreases n - i
  {
    if i == n then Ok(c, s)
    else
      match ParseLatch(c, s, 2 * (i + inputs + 1) % WORD)
      case Err(e) => Err(e)
      case Ok(d, t) => ParseLatches(d, t, inputs, i + 1, n)
  }

  /** The lists of the justice properties, after their sizes; their literals are not checked. */
  function ParseJustice(c: Circuit, s: seq<Byte>, sizes: seq<nat>): (r: Parsed<Circuit>)
    requires |c.types| == c.maxvar + 1
    ensures r.Ok? ==> |r.value.types| == r.value.maxvar + 1
    decreases sizes
  {
    if sizes == [] then Ok(c, s)
    else
      match ParseLits(s, sizes[0], WORD)
      case Err(e) => Err(e)
      case Ok(lits, t) => ParseJustice(AddJustice(c, lits), t, sizes[1..])
  }

  /** One gate: the two differences, each at most what it is taken from. */
  function ParseGate(c: Circuit, s: seq<Byte>, lhs: nat): (r: Parsed<Circuit>)
    requires |c.types| == c.maxvar + 1
    ensures r.Ok? ==> |r.value.types| == r.value.maxvar + 1
  {
    match DeltaFrom(s, 0, 0)
    case Err(e) => Err(e)
    case Ok(d0, t) =>
      if d0 > lhs then Err(InvalidDelta)
      else
        match DeltaFrom(t, 0, 0)
        case Err(e) => Err(e)
        case Ok(d1, u) =>
          if d1 > lhs - d0 then Err(InvalidDelta)
          else if !CanDefine(c, lhs) then Err(AssertionFailed)
          else Ok(AddAnd(c, lhs, lhs - d0, lhs - d0 - d1), u)
  }

  /** `aiger_read_binary`: `n` gates above `lhs`. */
  function ParseGates(c: Circuit, s: seq<Byte>, lhs: nat, n: nat): (r: Parsed<Circuit>)
    requires |c.types| == c.maxvar + 1
    ensures r.Ok? ==> |r.value.types| == r.value.maxvar + 1
    decreases n
  {
    if n == 0 then Ok(c, s)
    else
      match ParseGate(c, s, (lhs + 2) % WORD)
      case Err(e) => Err(e)
      case Ok(d, t) => ParseGates(d, t, (lhs + 2) % WORD, n - 1)
  }

  /** The counts of the header. */
  datatype Header = Header(m: nat, i: nat, l: nat, o: nat, a: nat, b: nat, c: nat, j: nat, f: nat)

  /** The counts that may be missing, once `follow` ended the one before. */
  function ParseExtra(h: Header, follow: Byte, s: seq<Byte>): (r: Parsed<Header>) {
    if follow != SPACE then Ok(h, s)
    else
      match ParseLiteral(s, ByEither)
      case Err(e) => Err(e)
      case Ok(b, t) =>
        if b.follow != SPACE then Ok(h.(b := b.value), t)
        else
          match ParseLiteral(t, ByEither)
          case Err(e) => Err(e)
          case Ok(c, u) =>
            if c.follow != SPACE then Ok(h.(b := b.value, c := c.value), u)
            else
              match ParseLiteral(u, ByEither)
              case Err(e) => Err(e)
              case Ok(j, v) =>
                if j.follow != SPACE then Ok(h.(b := b.value, c := c.value, j := j.value), v)
                else
                  match ParseLiteral(v, ByNewLine)
                  case Err(e) => Err(e)
                  case Ok(f, w) => Ok(h.(b := b.value, c := c.value, j := j.value, f := f.value), w)
  }

  function ParseCounts(s: seq<Byte>): (r: Parsed<Header>) {
    match ParseLiteral(s, BySpace)
    case Err(e) => Err(e)
    case Ok(m, s1) =>
      match ParseLiteral(s1, BySpace)
      case Err(e) => Err(e)
      case Ok(i, s2) =>
        match ParseLiteral(s2, BySpace)
        case Err(e) => Err(e)
        case Ok(l, s3) =>
          match ParseLiteral(s3, BySpace)
          case Err(e) => Err(e)
          case Ok(o, s4) =>
            match ParseLiteral(s4, ByEither)
            case Err(e) => Err(e)
            case Ok(a, s5) => ParseExtra(Header(m.value, i.value, l.value, o.value, a.value, 0, 0, 0, 0), a.follow, s5)
  }

  function ParseMagic(s: seq<Byte>): (r: Parsed<()>) {
    if |s| < 1 || s[0] != 97 then Err(BadMagic)
    else if |s| < 2 || (s[1] != 105 && s[1] != 97) then Err(BadMagic)
    else if s[1] == 97 then Err(AsciiMode)
    else if |s| < 3 || s[2] != 103 then Err(BadMagic)
    else if |s| < 4 || s[3] != SPACE then Err(BadMagic)
    else Ok((), s[4..])
  }

  function Blank(m: nat): (c: Circuit)
    ensures |c.types| == c.maxvar + 1
  {
    Circuit(m, [], [], [], [], [], [], [], [], seq(m + 1, i => UNUSED))
  }

  /** Inputs to constraints. */
  function ParseFirst(h: Header, s: seq<Byte>): (r: Parsed<Circuit>)
    ensures r.Ok? ==> |r.value.types| == r.value.maxvar + 1
  {
    match ParseInputs(Blank(h.m), s, 0, h.i)
    case Err(e) => Err(e)
    case Ok(c1, s1) =>
      match ParseLatches(c1, s1, h.i, 0, h.l)
      case Err(e) => Err(e)
      case Ok(c2, s2) =>
        match ParseLits(s2, h.o, c2.maxvar)
        case Err(e) => Err(e)
        case Ok(outputs, s3) =>
          match ParseLits(s3, h.b, c2.maxvar)
          case Err(e) => Err(e)
          case Ok(bad, s4) =>
            match ParseLits(s4, h.c, c2.maxvar)
            case Err(e) => Err(e)
            case Ok(constraints, s5) => Ok(c2.(outputs := outputs, bad := bad, constraints := constraints), s5)
  }

  /** Justice lists and fairness. */
  function ParseSecond(h: Header, c: Circuit, s: seq<Byte>): (r: Parsed<Circuit>)
    requires |c.types| == c.maxvar + 1
    ensures r.Ok? ==> |r.value.types| == r.value.maxvar + 1
  {
    match ParseLits(s, h.j, WORD)
    case Err(e) => Err(e)
    case Ok(sizes, s1) =>
      match ParseJustice(c, s1, sizes)
      case Err(e) => Err(e)
      case Ok(d, s2) =>
        match ParseLits(s2, h.f, d.maxvar)
        case Err(e) => Err(e)
        case Ok(fairness, s3) => Ok(d.(fairness := fairness), s3)
  }

  function ParseHeader(s: seq<Byte>): (r: Parsed<Header>) {
    match ParseMagic(s)
    case Err(e) => Err(e)
    case Ok(_, s1) =>
      match ParseCounts(s1)
      case Err(e) => Err(e)
      case Ok(h, s2) => if (h.i + h.l + h.a) % WORD != h.m then Err(InvalidMaxvar) else Ok(h, s2)
  }

  /** `aiger_read_header` and `aiger_read_binary`. */
  function Decode(s: seq<Byte>): (r: Parsed<Circuit>) {
    match ParseHeader(s)
    case Err(e) => Err(e)
    case Ok(h, s1) =>
      match ParseFirst(h, s1)
      case Err(e) => Err(e)
      case Ok(c, s2) =>
        match ParseSecond(h, c, s2)
        case Err(e) => Err(e)
        case Ok(d, s3) => ParseGates(d, s3, MaxLeaf(d.inputs, d.latches), h.a)
  }
}
