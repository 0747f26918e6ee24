/**
 * One body line of the log decoded into a `Record` (src/main.rs:18-26) under
 * the reader configuration of src/main.rs:73-77: no header row, `#` starts a
 * comment line, fields are separated by tabs. Fields are decoded in
 * declaration order: `start` and `end` as `u64`, `timestamp` as the signed
 * 64-bit nanosecond count that chrono's `ts_nanoseconds` reads, then `name`
 * and the hash as raw bytes.
 */
module RecordLine {
  import opened Wrappers
  import opened Decimal

  const U64_LIMIT: int := 0x1_0000_0000_0000_0000
  const I64_LIMIT: int := 0x8000_0000_0000_0000

  type u64 = x: int | 0 <= x < 0x1_0000_0000_0000_0000
  type i64 = x: int | -0x8000_0000_0000_0000 <= x < 0x8000_0000_0000_0000

  const TAB: byte := 0x09
  const HASH: byte := 0x23
  const PLUS: byte := 0x2b
  const MINUS: byte := 0x2d
  const QUOTE: byte := 0x22
  const LINE_FEED: byte := 0x0a
  const CARRIAGE_RETURN: byte := 0x0d

  datatype Record = Record(start: u64, end: u64, timestamp: i64, name: seq<byte>, hash: seq<byte>)

  /** Why a non-comment line did not decode: the field count, or which numeric field (0, 1 or 2) was invalid. */
  datatype DecodeError = FieldCount(found: nat) | BadInteger(field: nat)

  /**
   * Text that the reader hands back unchanged as one field: no tab, no quote
   * character and no line end.
   */
  predicate IsPlainText(s: seq<byte>) {
    TAB !in s && QUOTE !in s && LINE_FEED !in s && CARRIAGE_RETURN !in s
  }

  /** A record whose name and hash are plain text. */
  predicate IsPlainRecord(r: Record) {
    IsPlainText(r.name) && IsPlainText(r.hash)
  }

  /** Lines the reader never hands to the decoder: blank lines and comment lines. */
  predicate IsSkipped(line: seq<byte>) {
    line == [] || line[0] == HASH
  }

  // ---------------------------------------------------------------------------
  // Splitting on the delimiter

  /** Fields joined by `d`; the inverse of `Split`. */
  function Join(fields: seq<seq<byte>>, d: byte): seq<byte>
    requires |fields| >= 1
  {
    if |fields| == 1 then fields[0] else fields[0] + [d] + Join(fields[1..], d)
  }

  function IndexOf(s: seq<byte>, d: byte): (k: nat)
    requires d in s
    ensures k < |s| && s[k] == d && d !in s[..k]
  {
    if s[0] == d then 0
    else
      var k' := IndexOf(s[1..], d);
      assert s[..k' + 1] == [s[0]] + s[1..][..k'];
      k' + 1
  }

  /** The fields of `s` between occurrences of `d`. */
  function Split(s: seq<byte>, d: byte): (fields: seq<seq<byte>>)
    ensures |fields| >= 1 && Join(fields, d) == s
    ensures forall i :: 0 <= i < |fields| ==> d !in fields[i]
    decreases |s|
  {
    if d !in s then [s]
    else
      var k := IndexOf(s, d);
      var tail := Split(s[k + 1..], d);
      assert s == s[..k] + [d] + s[k + 1..];
      assert ([s[..k]] + tail)[1..] == tail;
      [s[..k]] + tail
  }

  /** There is one field more than there are delimiters. */
  lemma {:induction false} SplitCount(s: seq<byte>, d: byte)
    ensures |Split(s, d)| == multiset(s)[d] + 1
    decreases |s|
  {
    if d in s {
      var k := IndexOf(s, d);
      assert s == s[..k] + [d] + s[k + 1..];
      assert multiset(s) == multiset(s[..k]) + multiset{d} + multiset(s[k + 1..]);
      SplitCount(s[k + 1..], d);
    } else {
      assert multiset(s)[d] == 0;
    }
  }

  /** Splitting tab-free fields joined by tabs gives the fields back. */
  lemma {:induction false} SplitJoin(fields: seq<seq<byte>>, d: byte)
    requires |fields| >= 1
    requires forall i :: 0 <= i < |fields| ==> d !in fields[i]
    ensures Split(Join(fields, d), d) == fields
    decreases |fields|
  {
    if |fields| > 1 {
      var s := Join(fields, d);
      var f0 := fields[0];
      var tail := Join(fields[1..], d);
      assert s == f0 + [d] + tail;
      assert d in s by { assert s[|f0|] == d; }
      var k := IndexOf(s, d);
      assert s[..k] == f0 && s[k + 1..] == tail;
      SplitJoin(fields[1..], d);
    }
  }

  // ---------------------------------------------------------------------------
  // Integer fields, as Rust's `str::parse` reads them

  /** `u64::from_str`: an optional `+`, then one or more digits, value below 2^64. */
  function ParseU64(f: seq<byte>): (r: Option<u64>)
    ensures r.Some? ==> |f| > 0 && AllDigits(f[1..]) && (f[0] == PLUS || IsDigit(f[0]))
  {
    var ds := if |f| > 1 && f[0] == PLUS then f[1..] else f;
    if ds != [] && AllDigits(ds) && Value(ds) < U64_LIMIT then Some(Value(ds)) else None
  }

  /** `i64::from_str`: an optional `+` or `-`, then one or more digits, value in the i64 range. */
  function ParseI64(f: seq<byte>): (r: Option<i64>)
    ensures r.Some? ==> |f| > 0 && AllDigits(f[1..]) && (f[0] == PLUS || f[0] == MINUS || IsDigit(f[0]))
  {
    if |f| > 1 && f[0] == MINUS then
      var ds := f[1..];
      if AllDigits(ds) && Value(ds) <= I64_LIMIT then Some(Negate(Value(ds))) else None
    else
      var ds := if |f| > 1 && f[0] == PLUS then f[1..] else f;
      if ds != [] && AllDigits(ds) && Value(ds) < I64_LIMIT then Some(Value(ds)) else None
  }

  function Negate(n: nat): int {
    -(n as int)
  }

  /** Decimal rendering of a signed value: a `-` before the digits of a negative one. */
  function RenderSigned(t: int): seq<byte> {
    if t < 0 then [MINUS] + Render(-t) else Render(t)
  }

  lemma ParseU64Render(n: u64)
    ensures ParseU64(Render(n)) == Some(n)
  {
  }

  lemma ParseI64Render(t: i64)
    ensures ParseI64(RenderSigned(t)) == Some(t)
  {
    var f := RenderSigned(t);
    if t < 0 {
      var m: nat := -(t as int);
      var ds := Render(m);
      assert f == [MINUS] + ds;
      assert f[0] == MINUS && f[1..] == ds;
      assert ParseI64(f) == Some(Negate(Value(ds)));
    } else {
      assert f == Render(t) && f[0] != MINUS && f[0] != PLUS;
    }
  }

  /** Rust's unsigned parse refuses a minus sign, whatever follows it. */
  lemma ParseU64RejectsMinus(f: seq<byte>)
    requires |f| > 0 && f[0] == MINUS
    ensures ParseU64(f) == None
  {
  }

  // ---------------------------------------------------------------------------
  // Decoding and encoding a line

  /**
   * Decode a non-comment line: exactly five tab-separated fields, the first
   * three numeric. A wrong field count is reported before any field is read;
   * otherwise the first numeric field that fails decides the error.
   */
  function DecodeRecord(line: seq<byte>): Result<Record, DecodeError> {
    var fs := Split(line, TAB);
    if |fs| != 5 then Err(FieldCount(|fs|))
    else
      match ParseU64(fs[0])
      case None => Err(BadInteger(0))
      case Some(start) =>
        match ParseU64(fs[1])
        case None => Err(BadInteger(1))
        case Some(end) =>
          match ParseI64(fs[2])
          case None => Err(BadInteger(2))
          case Some(timestamp) => Ok(Record(start, end, timestamp, fs[3], fs[4]))
  }

  /** The line written for a record: its five fields in order, separated by tabs. */
  function EncodeRecord(r: Record): seq<byte> {
    Join([Render(r.start), Render(r.end), RenderSigned(r.timestamp), r.name, r.hash], TAB)
  }

  /** Rendered numbers consist of digits and at most a leading minus, never a tab. */
  lemma RenderedHasNoTab(t: int)
    ensures TAB !in Render(if t < 0 then -t else t) && TAB !in RenderSigned(t)
  {
    assert !IsDigit(TAB);
    var m: nat := if t < 0 then -t else t;
    assert TAB !in Render(m);
    if t < 0 {
      assert RenderSigned(t) == [MINUS] + Render(m);
    }
  }

  /** A record whose text fields are plain text decodes back from its line. */
  lemma DecodeEncode(r: Record)
    requires IsPlainRecord(r)
    ensures !IsSkipped(EncodeRecord(r))
    ensures DecodeRecord(EncodeRecord(r)) == Ok(r)
  {
    var fields := [Render(r.start), Render(r.end), RenderSigned(r.timestamp), r.name, r.hash];
    RenderedHasNoTab(r.start);
    RenderedHasNoTab(r.end);
    RenderedHasNoTab(r.timestamp);
    SplitJoin(fields, TAB);
    var line := EncodeRecord(r);
    assert Split(line, TAB) == fields;
    ParseU64Render(r.start);
    ParseU64Render(r.end);
    ParseI64Render(r.timestamp);
    assert line[0] == Render(r.start)[0];
  }

  /** A line decodes exactly when it has four tabs and its three numeric fields parse. */
  lemma DecodeIff(line: seq<byte>)
    ensures DecodeRecord(line).Ok? <==>
      var fs := Split(line, TAB);
      multiset(line)[TAB] == 4 && ParseU64(fs[0]).Some? && ParseU64(fs[1]).Some? && ParseI64(fs[2]).Some?
    ensures DecodeRecord(line).Ok? ==> DecodeRecord(line).value.name == Split(line, TAB)[3]
    ensures multiset(line)[TAB] != 4 ==> DecodeRecord(line) == Err(FieldCount(multiset(line)[TAB] + 1))
  {
    SplitCount(line, TAB);
  }
}
