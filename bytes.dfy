/** Bytes, ASCII constants and unsigned decimal numerals. */
module Bytes {

  import opened Errors

  newtype byte = x: int | 0 <= x < 0x100

  newtype uint16 = x: int | 0 <= x < 0x1_0000

  const SP: byte := 0x20    // ' '
  const CR: byte := 0x0D    // '\r'
  const LF: byte := 0x0A    // '\n'
  const DOT: byte := 0x2E   // '.'
  const MINUS: byte := 0x2D // '-'
  const ZERO: byte := 0x30  // '0'
  const NINE: byte := 0x39  // '9'

  const CRLF: seq<byte> := [CR, LF]

  predicate IsDigit(b: byte) {
    ZERO <= b <= NINE
  }

  predicate AllDigits(t: seq<byte>) {
    forall i :: 0 <= i < |t| ==> IsDigit(t[i])
  }

  /** A decimal numeral without a superfluous leading zero ("0" itself is canonical). */
  predicate Canonical(t: seq<byte>) {
    |t| >= 1 && AllDigits(t) && (t[0] == ZERO ==> |t| == 1)
  }

  /** The value of a numeral, most significant digit first; leading zeros are allowed. */
  function DigitsValue(t: seq<byte>): nat
    requires AllDigits(t)
  {
    if t == [] then 0 else DigitsValue(t[..|t| - 1]) * 10 + (t[|t| - 1] - ZERO) as int
  }

  /** The canonical numeral of n, as Go's %d and strconv print it. */
  function DecimalDigits(n: nat): (t: seq<byte>)
    ensures Canonical(t)
    ensures DigitsValue(t) == n
  {
    if n < 10 then [ZERO + n as byte]
    else
      var init := DecimalDigits(n / 10);
      var t := init + [ZERO + (n % 10) as byte];
      assert t[..|t| - 1] == init;
      t
  }

  /** %d of a signed integer: a minus sign, then the numeral of the magnitude. */
  function FormatInt(i: int): (t: seq<byte>)
    ensures 0 <= i ==> t == DecimalDigits(i)
    ensures i < 0 ==> t == [MINUS] + DecimalDigits(-i)
  {
    if i < 0 then [MINUS] + DecimalDigits(-i) else DecimalDigits(i)
  }

  /** A canonical numeral is the numeral of its own value, so DecimalDigits and
      DigitsValue are inverse on canonical numerals. */
  lemma {:induction false} CanonicalIsDecimalOfValue(t: seq<byte>)
    requires Canonical(t)
    ensures DecimalDigits(DigitsValue(t)) == t
  {
    if |t| > 1 {
      var init := t[..|t| - 1];
      assert Canonical(init);
      LeadingDigitBound(init);
      CanonicalIsDecimalOfValue(init);
      var n := DigitsValue(t);
      assert n / 10 == DigitsValue(init);
      assert n % 10 == (t[|t| - 1] - ZERO) as int;
      assert t == init + [t[|t| - 1]];
    }
  }

  /** A numeral that starts with a non-zero digit has a non-zero value. */
  lemma {:induction false} LeadingDigitBound(t: seq<byte>)
    requires |t| >= 1 && AllDigits(t) && t[0] != ZERO
    ensures DigitsValue(t) >= 1
  {
    if |t| > 1 {
      var init := t[..|t| - 1];
      assert init[0] == t[0];
      LeadingDigitBound(init);
    }
  }

  /** strconv.ParseUint(t, 10, 16): a non-empty all-digit numeral whose value fits
      in 16 bits; leading zeros are accepted. */
  function ParseUint16(t: seq<byte>): (r: (uint16, Outcome))
    ensures r.1 == Pass <==> |t| >= 1 && AllDigits(t) && DigitsValue(t) <= 65535
    ensures r.1 == Pass ==> r.0 as int == DigitsValue(t)
    ensures r.1 != Pass ==> r.1 == Fail(BadNumber) && r.0 == 0
  {
    if |t| == 0 || !AllDigits(t) || DigitsValue(t) > 65535 then (0, Fail(BadNumber))
    else (DigitsValue(t) as uint16, Pass)
  }

  /** The first index at or after `from` that holds `b`, or |s| if there is none. */
  function FirstIndex(s: seq<byte>, from: nat, b: byte): (i: nat)
    requires from <= |s|
    ensures from <= i <= |s|
    ensures i < |s| ==> s[i] == b
    ensures forall k :: from <= k < i ==> s[k] != b
    decreases |s| - from
  {
    if from == |s| || s[from] == b then from else FirstIndex(s, from + 1, b)
  }

  /** The end of the maximal run of ASCII digits that starts at `from`. */
  function DigitRunEnd(s: seq<byte>, from: nat): (e: nat)
    requires from <= |s|
    ensures from <= e <= |s|
    ensures AllDigits(s[from..e])
    ensures e < |s| ==> !IsDigit(s[e])
    decreases |s| - from
  {
    if from == |s| || !IsDigit(s[from]) then from
    else
      var e := DigitRunEnd(s, from + 1);
      assert s[from..e] == [s[from]] + s[from + 1..e];
      e
  }

  /** FirstIndex is determined by its contract: any index at or after `from` that holds
      `b` (or is |s|) with no `b` before it is the one it returns. */
  lemma {:induction false} FirstIndexIs(s: seq<byte>, from: nat, b: byte, i: nat)
    requires from <= i <= |s|
    requires i < |s| ==> s[i] == b
    requires forall k :: from <= k < i ==> s[k] != b
    ensures FirstIndex(s, from, b) == i
    decreases i - from
  {
    if from < i {
      FirstIndexIs(s, from + 1, b, i);
    }
  }

  /** DigitRunEnd is determined by its contract. */
  lemma {:induction false} DigitRunEndIs(s: seq<byte>, from: nat, e: nat)
    requires from <= e <= |s|
    requires forall k :: from <= k < e ==> IsDigit(s[k])
    requires e < |s| ==> !IsDigit(s[e])
    ensures DigitRunEnd(s, from) == e
    decreases e - from
  {
    if from < e {
      DigitRunEndIs(s, from + 1, e);
    }
  }
}
