/**
 * Integer text as java.lang.Integer and java.lang.Long print and parse it:
 * Integer.toString / Integer.parseInt for the maxDepth line, and
 * Long.toUnsignedString(_, 36) / Long.parseLong(_, 36) for sample times.
 * Only ASCII digits and letters are modelled as digits.
 */
module Numerals {
  import opened Wrappers
  import opened JavaTypes

  /** 2^64, the modulus Long.toUnsignedString reads a negative long against. */
  const TwoTo64: int := 0x1_0000_0000_0000_0000

  /** Character.MAX_RADIX. */
  const MaxRadix: nat := 36

  predicate IsDigitChar(c: char) {
    '0' <= c <= '9' || 'a' <= c <= 'z' || 'A' <= c <= 'Z'
  }

  /** Character.forDigit: the lower-case digit character for `d`. */
  function DigitChar(d: nat): (c: char)
    requires d < MaxRadix
    ensures IsDigitChar(c)
  {
    if d < 10 then ('0' as int + d) as char else ('a' as int + d - 10) as char
  }

  /** Character.digit restricted to ASCII: the value of `c` in `radix`, if it is a digit there. */
  function DigitValue(c: char, radix: nat): (r: Option<nat>)
    ensures r.Some? ==> r.value < radix && IsDigitChar(c)
  {
    var v :=
      if '0' <= c <= '9' then c as int - '0' as int
      else if 'a' <= c <= 'z' then c as int - 'a' as int + 10
      else if 'A' <= c <= 'Z' then c as int - 'A' as int + 10
      else MaxRadix;
    if radix <= MaxRadix && v < radix then Some(v) else None
  }

  lemma DigitRoundTrip(d: nat, radix: nat)
    requires d < radix <= MaxRadix
    ensures DigitValue(DigitChar(d), radix) == Some(d)
  {
  }

  /** The digits of `n` in `radix`, most significant first, without leading zeros ("0" for zero). */
  function NatToString(n: nat, radix: nat): (s: string)
    requires 2 <= radix <= MaxRadix
    ensures |s| > 0
    decreases n
  {
    if n < radix then [DigitChar(n)]
    else
      DivFacts(n, radix);
      NatToString(n / radix, radix) + [DigitChar(n % radix)]
  }

  /** Every character written is a digit: no sign, space or line break. */
  lemma {:induction false} NatToStringDigits(n: nat, radix: nat)
    requires 2 <= radix <= MaxRadix
    ensures forall i :: 0 <= i < |NatToString(n, radix)| ==> IsDigitChar(NatToString(n, radix)[i])
    decreases n
  {
    if n >= radix {
      DivFacts(n, radix);
      NatToStringDigits(n / radix, radix);
    }
  }

  /** The value of a non-empty string of digits in `radix`; None if any character is not such a digit. */
  function DigitsValue(s: string, radix: nat): (r: Option<nat>)
    decreases |s|
  {
    if |s| == 0 then None
    else
      var last := DigitValue(s[|s| - 1], radix);
      if last.None? then None
      else if |s| == 1 then last
      else
        var high := DigitsValue(s[..|s| - 1], radix);
        if high.None? then None
        else
          MulNat(high.value, radix);
          Some(high.value * radix + last.value)
  }

  lemma MulNat(a: nat, b: nat)
    ensures a * b >= 0
  {
  }

  /** Appending one digit multiplies the value so far by the radix and adds the digit. */
  lemma DigitsAppend(s: string, d: nat, radix: nat)
    requires 2 <= radix <= MaxRadix && d < radix && |s| > 0
    ensures DigitsValue(s + [DigitChar(d)], radix) ==
      (if DigitsValue(s, radix).None? then None else Some(DigitsValue(s, radix).value * radix + d))
  {
    var t := s + [DigitChar(d)];
    assert t[..|t| - 1] == s;
    DigitRoundTrip(d, radix);
  }

  lemma DivFacts(n: nat, radix: nat)
    requires 2 <= radix <= n
    ensures n / radix < n && n % radix < radix
    ensures n == (n / radix) * radix + n % radix
  {
    var q, r := n / radix, n % radix;
    assert n == q * radix + r;
    assert q * radix - q * 2 == q * (radix - 2);
    assert q * (radix - 2) >= 0;
  }

  lemma {:induction false} DigitsRoundTrip(n: nat, radix: nat)
    requires 2 <= radix <= MaxRadix
    ensures DigitsValue(NatToString(n, radix), radix) == Some(n)
    decreases n
  {
    if n < radix {
      DigitRoundTrip(n, radix);
    } else {
      DivFacts(n, radix);
      DigitsRoundTrip(n / radix, radix);
      DigitsStep(n, radix);
    }
  }

  /** The digits of `n` read back as `n` once those of `n / radix` do. */
  lemma DigitsStep(n: nat, radix: nat)
    requires 2 <= radix <= n && radix <= MaxRadix
    requires DigitsValue(NatToString(n / radix, radix), radix) == Some(n / radix)
    ensures DigitsValue(NatToString(n, radix), radix) == Some(n)
  {
    DivFacts(n, radix);
    var q, d := n / radix, n % radix;
    assert NatToString(n, radix) == NatToString(q, radix) + [DigitChar(d)];
    DigitsAppend(NatToString(q, radix), d, radix);
  }

  /**
   * Integer.parseInt / Long.parseLong in `radix`: an optional '+' or '-' sign,
   * at least one digit, and a value in [lo, hi]; anything else is a NumberFormatException.
   */
  function ParseSigned(s: string, radix: nat, lo: int, hi: int): (r: Option<int>)
    ensures r.Some? ==> lo <= r.value <= hi
  {
    if |s| == 0 then None
    else
      var negative := s[0] == '-';
      var digits := if s[0] == '-' || s[0] == '+' then s[1..] else s;
      var magnitude := DigitsValue(digits, radix);
      if magnitude.None? then None
      else
        var v: int := if negative then -(magnitude.value as int) else magnitude.value;
        if lo <= v <= hi then Some(v) else None
  }

  /** Integer.toString(i). */
  function IntToString(i: int): (s: string)
    ensures |s| > 0
  {
    if i < 0 then "-" + NatToString(-i, 10) else NatToString(i, 10)
  }

  /** Integer.parseInt(s). */
  function ParseInt(s: string): (r: Option<Int32>)
  {
    var v := ParseSigned(s, 10, MinInt, MaxInt);
    if v.None? then None else Some(v.value as Int32)
  }

  lemma IntRoundTrip(i: Int32)
    ensures ParseInt(IntToString(i)) == Some(i)
  {
    if i < 0 {
      var m: nat := -(i as int);
      DigitsRoundTrip(m, 10);
      assert IntToString(i)[1..] == NatToString(m, 10);
    } else {
      DigitsRoundTrip(i, 10);
      NatToStringDigits(i, 10);
    }
  }

  /** Long.toUnsignedString(t, 36): a negative long is printed as t + 2^64. */
  function UnsignedString36(t: Long): (s: string)
    ensures |s| > 0
  {
    NatToString(if t >= 0 then t else t + TwoTo64, MaxRadix)
  }

  lemma UnsignedDigits(t: Long)
    ensures forall k :: 0 <= k < |UnsignedString36(t)| ==> IsDigitChar(UnsignedString36(t)[k])
  {
    NatToStringDigits(if t >= 0 then t else t + TwoTo64, MaxRadix);
  }

  lemma IntToStringChars(i: Int32)
    ensures forall k :: 0 <= k < |IntToString(i)| ==> IsDigitChar(IntToString(i)[k]) || IntToString(i)[k] == '-'
  {
    NatToStringDigits(if i < 0 then -(i as int) else i as int, 10);
  }

  /** Long.parseLong(s, 36). */
  function ParseLong36(s: string): (r: Option<Long>)
  {
    var v := ParseSigned(s, MaxRadix, MinLong, MaxLong);
    if v.None? then None else Some(v.value as Long)
  }

  /**
   * A time survives printing with toUnsignedString and parsing with the signed
   * parseLong exactly when it is not negative: a negative long prints as a
   * value above Long.MAX_VALUE, which parseLong rejects.
   */
  lemma TimeRoundTrip(t: Long)
    ensures ParseLong36(UnsignedString36(t)) == (if t >= 0 then Some(t) else None)
  {
    var u := if t >= 0 then t else t + TwoTo64;
    DigitsRoundTrip(u, MaxRadix);
    var s := UnsignedString36(t);
    UnsignedDigits(t);
    assert s[0] != '-' && s[0] != '+';
  }
}
