/** Numbers as the AIGER formats write them: decimal text and the base-128 deltas of the section "Binary
    Format" of "The AIGER And-Inverter Graph (AIG) Format" (its/aiger/aiger.c). Words have 32 bits. */
module AigerBytes {

  type Byte = b: nat | b < 256

  const WORD: nat := 0x1_0000_0000
  const SPACE: Byte := 32
  const NEWLINE: Byte := 10
  const ZERO: Byte := 48

  datatype Error =
    | BadMagic | AsciiMode | ExpectedLiteral | ExpectedSpace | ExpectedNewLine | ExpectedSpaceOrNewLine
    | InvalidMaxvar | InvalidLiteral | UnexpectedEof | InvalidCode | UndefinedShift | InvalidDelta | AssertionFailed

  /** A value read and the stream left, or an error. */
  datatype Parsed<T> = Ok(value: T, rest: seq<Byte>) | Err(error: Error)

  // ---------------------------------------------------------------- decimal numbers

  predicate IsDigit(b: Byte) {
    ZERO <= b < ZERO + 10
  }

  /** What `%u` prints. */
  function Decimal(n: nat): (r: seq<Byte>)
    ensures r != [] && IsDigit(r[0])
  {
    if n < 10 then [ZERO + n] else Decimal(n / 10) + [ZERO + n % 10]
  }

  /** The loop of `aiger_read_number`: digits are added modulo the word size. */
  function NumberFrom(acc: nat, s: seq<Byte>): (r: (nat, seq<Byte>))
    decreases |s|
  {
    if s == [] || !IsDigit(s[0]) then (acc, s) else NumberFrom((10 * acc + (s[0] - ZERO)) % WORD, s[1..])
  }

  lemma NumberStep(acc: nat, d: nat, t: seq<Byte>)
    requires d < 10
    ensures NumberFrom(acc, [ZERO + d] + t) == NumberFrom((10 * acc + d) % WORD, t)
  {
    assert ([ZERO + d] + t)[1..] == t;
  }

  // ---------------------------------------------------------------- literals

  datatype Follow = BySpace | ByNewLine | ByEither

  /** A literal and the white space after it. */
  datatype Token = Token(value: nat, follow: Byte)

  /** `aiger_read_literal`. */
  function ParseLiteral(s: seq<Byte>, expected: Follow): (r: Parsed<Token>) {
    if s == [] || !IsDigit(s[0]) then Err(ExpectedLiteral)
    else
      var (n, t) := NumberFrom(0, s);
      if expected.BySpace? && (t == [] || t[0] != SPACE) then Err(ExpectedSpace)
      else if expected.ByNewLine? && (t == [] || t[0] != NEWLINE) then Err(ExpectedNewLine)
      else if t == [] || (t[0] != SPACE && t[0] != NEWLINE) then Err(ExpectedSpaceOrNewLine)
      else Ok(Token(n, t[0]), t[1..])
  }

  predicate Matches(expected: Follow, b: Byte) {
    match expected
    case BySpace => b == SPACE
    case ByNewLine => b == NEWLINE
    case ByEither => b == SPACE || b == NEWLINE
  }

  // ---------------------------------------------------------------- deltas

  /** `aiger_write_delta`: seven bits a byte, low bits first, the high bit set on all but the last. */
  function EncodeDelta(d: nat): (r: seq<Byte>)
    ensures r != []
  {
    if d < 128 then [d] else [128 + d % 128] + EncodeDelta(d / 128)
  }

  function Pow128(i: nat): (p: nat)
    ensures p > 0
  {
    if i == 0 then 1 else 128 * Pow128(i - 1)
  }

  /** The loop of `aiger_read_delta` after `i` bytes. Bits shifted out of the word are lost; a shift by 35
      is undefined in C. */
  function DeltaFrom(s: seq<Byte>, i: nat, res: nat): (r: Parsed<nat>) {
    if s == [] then Err(UnexpectedEof)
    else if s[0] >= 128 then
      if i == 5 then Err(InvalidCode) else DeltaFrom(s[1..], i + 1, (res + (s[0] - 128) * Pow128(i)) % WORD)
    else if i == 5 then
      if s[0] >= 8 then Err(InvalidCode) else Err(UndefinedShift)
    else Ok((res + s[0] * Pow128(i)) % WORD, s[1..])
  }

  /** The bytes read from position `i` on go one past the last that fits a word, which is below 8. */
  ghost predicate OneTooMany(s: seq<Byte>, i: nat)
    requires i <= 5
  {
    |s| >= 6 - i && (forall k :: 0 <= k < 5 - i ==> s[k] >= 128) && s[5 - i] < 8
  }

  lemma {:induction false} UndefinedFrom(s: seq<Byte>, i: nat, res: nat)
    requires i <= 5
    ensures DeltaFrom(s, i, res) == Err(UndefinedShift) <==> OneTooMany(s, i)
    decreases |s|
  {
    hide Pow128;
    if s != [] && s[0] >= 128 && i < 5 {
      UndefinedFrom(s[1..], i + 1, (res + (s[0] - 128) * Pow128(i)) % WORD);
      assert OneTooMany(s, i) <==> OneTooMany(s[1..], i + 1) by { NextByte(s, i); }
    }
  }

  lemma NextByte(s: seq<Byte>, i: nat)
    requires i < 5 && s != [] && s[0] >= 128
    ensures OneTooMany(s, i) <==> OneTooMany(s[1..], i + 1)
  {
    if OneTooMany(s[1..], i + 1) {
      forall k | 0 <= k < 5 - i ensures s[k] >= 128 {
        if k > 0 { assert s[1..][k - 1] >= 128; }
      }
    }
  }

  /** The exact inputs on which the reader shifts by 35. */
  lemma UndefinedShiftIff(s: seq<Byte>)
    ensures DeltaFrom(s, 0, 0) == Err(UndefinedShift) <==> |s| >= 6 && (forall k :: 0 <= k < 5 ==> s[k] >= 128) && s[5] < 8
  {
    UndefinedFrom(s, 0, 0);
  }

  lemma {:induction false} DeltaLength(d: nat, k: nat)
    requires d < Pow128(k) && k > 0
    ensures |EncodeDelta(d)| <= k
  {
    if d >= 128 {
      DeltaLength(d / 128, k - 1);
    }
  }

  /** A delta of one word takes at most five bytes. */
  lemma DeltaFits(d: nat)
    requires d < WORD
    ensures |EncodeDelta(d)| <= 5
  {
    assert Pow128(5) == 128 * 128 * 128 * 128 * 128;
    DeltaLength(d, 5);
  }
}
