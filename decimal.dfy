/**
 * Bytes, ASCII decimal digits, the value of a digit string and the canonical
 * decimal rendering of a natural number.
 */
module Decimal {

  type byte = x: int | 0 <= x < 256

  /** ASCII '0'. */
  const ZERO: byte := 0x30

  predicate IsDigit(b: byte) {
    ZERO <= b <= ZERO + 9
  }

  predicate AllDigits(s: seq<byte>) {
    forall i :: 0 <= i < |s| ==> IsDigit(s[i])
  }

  /** The value of a digit string read most significant digit first. */
  function Value(ds: seq<byte>): nat
    requires AllDigits(ds)
  {
    if ds == [] then 0 else 10 * Value(ds[..|ds| - 1]) + (ds[|ds| - 1] - ZERO)
  }

  /** Length of the longest run of digits at the front of `s`. */
  function DigitRun(s: seq<byte>): (k: nat)
    ensures k <= |s| && AllDigits(s[..k])
    ensures k < |s| ==> !IsDigit(s[k])
  {
    if s == [] || !IsDigit(s[0]) then 0
    else
      var k' := DigitRun(s[1..]);
      assert s[..k' + 1] == [s[0]] + s[1..][..k'];
      k' + 1
  }

  /** Canonical decimal rendering: no sign, no leading zeros. */
  function Render(n: nat): (ds: seq<byte>)
    ensures ds != [] && AllDigits(ds) && Value(ds) == n
    ensures |ds| > 1 ==> ds[0] != ZERO
  {
    if n < 10 then [ZERO + n]
    else
      var hi := Render(n / 10);
      var ds := hi + [ZERO + n % 10];
      assert ds[..|ds| - 1] == hi;
      ds
  }

  /** A prefix of a digit string never has a larger value. */
  lemma {:induction false} ValuePrefix(ds: seq<byte>, k: nat)
    requires AllDigits(ds) && k <= |ds|
    ensures Value(ds[..k]) <= Value(ds)
  {
    if k < |ds| {
      ValuePrefix(ds[..|ds| - 1], k);
      assert ds[..|ds| - 1][..k] == ds[..k];
    } else {
      assert ds[..k] == ds;
    }
  }

  /** The digit run stops exactly where the digits `ds` end. */
  lemma DigitRunOf(ds: seq<byte>, rest: seq<byte>)
    requires AllDigits(ds)
    requires rest == [] || !IsDigit(rest[0])
    ensures DigitRun(ds + rest) == |ds|
    ensures (ds + rest)[..|ds|] == ds && (ds + rest)[|ds|..] == rest
  {
    assert (ds + rest)[..|ds|] == ds && (ds + rest)[|ds|..] == rest;
  }
}
