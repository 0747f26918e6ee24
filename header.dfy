/**
 * The ninja log header line `# ninja log v<N>\n`, parsed the way
 * src/main.rs:28-38 does with nom's byte-slice combinators, and the version
 * gate that main applies to the parsed value (src/main.rs:63-70).
 */
module Header {
  import opened Decimal

  type u8 = x: int | 0 <= x < 256

  /** nom's `ErrorKind` values that these combinators can produce. */
  datatype ErrorKind = Tag | Digit | Char | Eof

  /**
   * nom's `IResult<&[u8], O>` over the complete-input combinators: either the
   * unconsumed input and the output, or an error holding the input at which
   * the failing combinator stood and its kind.
   */
  datatype IResult<O> = Done(rest: seq<byte>, out: O) | Fail(input: seq<byte>, code: ErrorKind)

  /** The bytes of `# ninja log v`. */
  const MAGIC: seq<byte> := [0x23, 0x20, 0x6e, 0x69, 0x6e, 0x6a, 0x61, 0x20, 0x6c, 0x6f, 0x67, 0x20, 0x76]

  /** ASCII line feed. */
  const LF: byte := 0x0a

  /** The only log version the driver accepts. */
  const SUPPORTED_VERSION: u8 := 5

  // ---------------------------------------------------------------------------
  // The combinators

  /** `tag(t)`: consume exactly the bytes `t`. */
  function TagP(t: seq<byte>, input: seq<byte>): IResult<()> {
    if |t| <= |input| && input[..|t|] == t then Done(input[|t|..], ()) else Fail(input, Tag)
  }

  /**
   * `character::complete::u8`: at least one digit, read greedily; the value is
   * built one digit at a time with checked arithmetic and any overflow past
   * 255 is an error.
   */
  function U8P(input: seq<byte>): IResult<u8> {
    if |input| == 0 then Fail(input, Digit) else U8Digits(input, 0, 0)
  }

  function U8Digits(input: seq<byte>, pos: nat, value: u8): IResult<u8>
    requires pos <= |input|
    decreases |input| - pos
  {
    if pos == |input| then Done([], value)
    else if !IsDigit(input[pos]) then
      if pos == 0 then Fail(input, Digit) else Done(input[pos..], value)
    else
      var next := value * 10 + (input[pos] - ZERO);
      if next > 255 then Fail(input, Digit) else U8Digits(input, pos + 1, next)
  }

  /** `newline`: exactly one line feed. */
  function NewlineP(input: seq<byte>): IResult<byte> {
    if |input| > 0 && input[0] == LF then Done(input[1..], LF) else Fail(input, Char)
  }

  /** `all_consuming(f)` applied to the result of `f`. */
  function AllConsuming<O>(r: IResult<O>): IResult<O> {
    match r
    case Fail(_, _) => r
    case Done(rest, out) => if rest == [] then r else Fail(rest, Eof)
  }

  // ---------------------------------------------------------------------------
  // parse_header_help and parse_header

  function ParseHeaderHelp(input: seq<byte>): IResult<u8> {
    match TagP(MAGIC, input)
    case Fail(e, k) => Fail(e, k)
    case Done(i1, _) =>
      match U8P(i1)
      case Fail(e, k) => Fail(e, k)
      case Done(i2, d) =>
        match NewlineP(i2)
        case Fail(e, k) => Fail(e, k)
        case Done(i3, _) => Done(i3, d)
  }

  function ParseHeader(input: seq<byte>): (r: IResult<u8>)
    ensures r.Done? ==> r.rest == []
  {
    AllConsuming(ParseHeaderHelp(input))
  }

  // ---------------------------------------------------------------------------
  // Reference description of the header language

  /** The digits between the magic prefix and the final byte. */
  function VersionDigits(s: seq<byte>): seq<byte>
    requires |s| > |MAGIC|
  {
    s[|MAGIC|..|s| - 1]
  }

  /**
   * A header line: the magic prefix, one or more digits whose value fits in a
   * byte, a line feed, and nothing else.
   */
  predicate IsHeaderLine(s: seq<byte>) {
    |s| >= |MAGIC| + 2 && s[..|MAGIC|] == MAGIC && s[|s| - 1] == LF
    && AllDigits(VersionDigits(s)) && Value(VersionDigits(s)) <= 255
  }

  /** The canonical header line for version `n`. */
  function HeaderLine(n: u8): seq<byte> {
    MAGIC + Render(n) + [LF]
  }

  // ---------------------------------------------------------------------------
  // Properties of the combinators

  lemma {:induction false} U8DigitsRun(input: seq<byte>, pos: nat, value: u8)
    requires 0 < |input| && pos <= DigitRun(input)
    requires value == Value(input[..pos])
    ensures U8Digits(input, pos, value) ==
      var k := DigitRun(input);
      if k == 0 then Fail(input, Digit)
      else if Value(input[..k]) <= 255 then Done(input[k..], Value(input[..k]))
      else Fail(input, Digit)
    decreases |input| - pos
  {
    var k := DigitRun(input);
    if pos == k {
      if pos == |input| {
        assert input[k..] == [];
      }
    } else {
      var pre := input[..pos + 1];
      assert pre[..pos] == input[..pos];
      assert input[..k][..pos + 1] == pre;
      var next := value * 10 + (input[pos] - ZERO);
      assert next == Value(pre);
      if next > 255 {
        ValuePrefix(input[..k], pos + 1);
      } else {
        U8DigitsRun(input, pos + 1, next);
      }
    }
  }

  /** `u8` accepts exactly a non-empty digit run of value at most 255 and stops after it. */
  lemma U8Run(input: seq<byte>)
    ensures U8P(input) ==
      var k := DigitRun(input);
      if k == 0 then Fail(input, Digit)
      else if Value(input[..k]) <= 255 then Done(input[k..], Value(input[..k]))
      else Fail(input, Digit)
  {
    if |input| > 0 {
      assert input[..0] == [];
      U8DigitsRun(input, 0, 0);
    }
  }

  /** On the digits of `n` followed by a non-digit (or nothing), `u8` yields `n`. */
  lemma U8OfRender(n: u8, rest: seq<byte>)
    requires rest == [] || !IsDigit(rest[0])
    ensures U8P(Render(n) + rest) == Done(rest, n)
  {
    DigitRunOf(Render(n), rest);
    U8Run(Render(n) + rest);
  }

  // ---------------------------------------------------------------------------
  // Properties of parse_header_help and parse_header

  /** parse_header_help consumes `# ninja log v<n>\n` and returns what follows, unchanged. */
  lemma HelpLeavesRest(n: u8, rest: seq<byte>)
    ensures ParseHeaderHelp(HeaderLine(n) + rest) == Done(rest, n)
  {
    var input := HeaderLine(n) + rest;
    assert input == MAGIC + (Render(n) + ([LF] + rest));
    assert input[..|MAGIC|] == MAGIC;
    assert input[|MAGIC|..] == Render(n) + ([LF] + rest);
    U8OfRender(n, [LF] + rest);
    assert ([LF] + rest)[1..] == rest;
  }

  /** Round trip: the rendered header of every byte value parses back to it, with nothing left over. */
  lemma ParseRendered(n: u8)
    ensures ParseHeader(HeaderLine(n)) == Done([], n)
  {
    HelpLeavesRest(n, []);
    assert HeaderLine(n) + [] == HeaderLine(n);
  }

  /** Any byte after the line feed makes parse_header fail at end-of-input checking. */
  lemma TrailingBytesRejected(n: u8, rest: seq<byte>)
    requires rest != []
    ensures ParseHeader(HeaderLine(n) + rest) == Fail(rest, Eof)
  {
    HelpLeavesRest(n, rest);
  }

  /** Input that does not begin with `# ninja log v` fails at the tag, holding the whole input. */
  lemma WrongPrefixRejected(s: seq<byte>)
    requires |s| < |MAGIC| || s[..|MAGIC|] != MAGIC
    ensures ParseHeader(s) == Fail(s, Tag)
  {
  }

  /** Without its line feed the header is rejected: `newline` finds no input. */
  lemma MissingNewlineRejected(n: u8)
    ensures ParseHeader(MAGIC + Render(n)) == Fail([], Char)
  {
    var input := MAGIC + Render(n);
    assert input[..|MAGIC|] == MAGIC;
    assert input[|MAGIC|..] == Render(n) + [];
    U8OfRender(n, []);
  }

  /** parse_header accepts exactly the header language, and returns the version digits' value. */
  lemma ParseHeaderIff(s: seq<byte>)
    ensures ParseHeader(s).Done? <==> IsHeaderLine(s)
    ensures IsHeaderLine(s) ==> ParseHeader(s) == Done([], Value(VersionDigits(s)))
  {
    if |s| >= |MAGIC| && s[..|MAGIC|] == MAGIC {
      var i1 := s[|MAGIC|..];
      U8Run(i1);
      var k := DigitRun(i1);
      if IsHeaderLine(s) {
        var ds := VersionDigits(s);
        assert i1 == ds + [LF];
        DigitRunOf(ds, [LF]);
      }
      if ParseHeader(s).Done? {
        assert k > 0 && Value(i1[..k]) <= 255;
        var i2 := i1[k..];
        assert |i2| == 1 && i2[0] == LF;
        assert |s| == |MAGIC| + k + 1;
        assert VersionDigits(s) == i1[..k];
      }
    }
  }

  /** The concrete cases of the test module (src/main.rs:96-102). */
  lemma HeaderExamples()
    ensures ParseHeader(MAGIC + [0x35, LF]) == Done([], 5)
    ensures ParseHeader(MAGIC + [0x34, LF]) == Done([], 4)
    ensures ParseHeader(MAGIC + [0x34]).Fail?
  {
    ParseRendered(5);
    assert HeaderLine(5) == MAGIC + [0x35, LF];
    ParseRendered(4);
    assert HeaderLine(4) == MAGIC + [0x34, LF];
    MissingNewlineRejected(4);
  }

  // ---------------------------------------------------------------------------
  // The version gate of main

  /** What main decides from the header line alone. */
  datatype Verdict = Proceed | BadHeader | Unsupported(version: u8)

  function CheckHeader(line: seq<byte>): Verdict {
    match ParseHeader(line)
    case Fail(_, _) => BadHeader
    case Done(_, version) => if version != SUPPORTED_VERSION then Unsupported(version) else Proceed
  }

  /**
   * The run passes the header stage exactly for a header line of version 5;
   * an unparsable line and a wrong version are told apart, and the latter
   * carries the version read.
   */
  lemma CheckHeaderIff(line: seq<byte>)
    ensures CheckHeader(line) == Proceed <==>
      IsHeaderLine(line) && Value(VersionDigits(line)) == SUPPORTED_VERSION
    ensures CheckHeader(line) == BadHeader <==> !IsHeaderLine(line)
    ensures forall v: u8 :: CheckHeader(line) == Unsupported(v) <==>
      IsHeaderLine(line) && Value(VersionDigits(line)) == v && v != SUPPORTED_VERSION
  {
    ParseHeaderIff(line);
  }

  /** The gate on a rendered header: only version 5 proceeds. */
  lemma CheckRendered(n: u8)
    ensures CheckHeader(HeaderLine(n)) == if n == SUPPORTED_VERSION then Proceed else Unsupported(n)
  {
    ParseRendered(n);
  }
}
