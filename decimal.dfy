/**
 * Decimal text <-> integer, as the firmware sees it.
 *
 * `ToInt` models Arduino's `String::toInt`, which hands the buffer to C's
 * `atol`: skip leading white space, accept one optional sign, then read the
 * longest run of decimal digits; no digits at all gives 0. `Show` is an
 * independent decimal rendering used as its partner (round trip) and to
 * describe the speed labels of the menu.
 */
module Decimal {

  predicate IsDigit(c: char) { '0' <= c <= '9' }

  /** The characters C's isspace accepts: space, \t, \n, \v, \f, \r. */
  predicate IsSpace(c: char) { c == ' ' || (9 <= c as int <= 13) }

  function DigitValue(c: char): (d: nat)
    requires IsDigit(c)
    ensures d < 10
  {
    c as int - '0' as int
  }

  function DigitChar(d: nat): (c: char)
    requires d < 10
    ensures IsDigit(c) && DigitValue(c) == d
  {
    ('0' as int + d) as char
  }

  predicate AllDigits(s: string) { forall i :: 0 <= i < |s| ==> IsDigit(s[i]) }

  /** Length of the run of decimal digits that starts s. */
  function DigitRun(s: string): (n: nat)
    ensures n <= |s|
    ensures AllDigits(s[..n])
    ensures n < |s| ==> !IsDigit(s[n])
  {
    if s != [] && IsDigit(s[0]) then
      var n := 1 + DigitRun(s[1..]);
      assert s[..n] == [s[0]] + s[1..][..n - 1];
      n
    else 0
  }

  /** Value of a string of digits, most significant digit first. */
  function DigitsValue(ds: string): nat
    requires AllDigits(ds)
  {
    if ds == [] then 0
    else 10 * DigitsValue(ds[..|ds| - 1]) + DigitValue(ds[|ds| - 1])
  }

  /** s without its leading white space. */
  function SkipSpaces(s: string): (t: string)
    ensures |t| <= |s| && t == s[|s| - |t|..]
    ensures t == [] || !IsSpace(t[0])
  {
    if s != [] && IsSpace(s[0]) then SkipSpaces(s[1..]) else s
  }

  /** Value of the run of digits that starts u (atol after the sign). */
  function LeadingValue(u: string): nat
  {
    DigitsValue(u[..DigitRun(u)])
  }

  /** String::toInt: optional white space, optional sign, digits; 0 when there are none. */
  function ToInt(s: string): (r: int)
    ensures SkipSpaces(s) == [] ==> r == 0
    ensures r < 0 ==> SkipSpaces(s) != [] && SkipSpaces(s)[0] == '-'
  {
    var t := SkipSpaces(s);
    if t != [] && t[0] == '-' then -(LeadingValue(t[1..]) as int)
    else if t != [] && t[0] == '+' then LeadingValue(t[1..])
    else LeadingValue(t)
  }

  /** Decimal rendering of a natural number, without leading zeros. */
  function ShowNat(n: nat): (s: string)
    ensures s != [] && AllDigits(s)
    ensures n < 10 <==> |s| == 1
  {
    if n < 10 then [DigitChar(n)] else ShowNat(n / 10) + [DigitChar(n % 10)]
  }

  /** Decimal rendering of an integer, with a '-' in front of negative numbers. */
  function Show(n: int): (s: string)
    ensures s != []
    ensures n < 0 <==> s[0] == '-'
  {
    if n < 0 then "-" + ShowNat(-n) else ShowNat(n)
  }

  lemma {:induction false} DigitsValueShowNat(n: nat)
    ensures DigitsValue(ShowNat(n)) == n
  {
    if n >= 10 {
      var s := ShowNat(n);
      assert s[..|s| - 1] == ShowNat(n / 10);
      DigitsValueShowNat(n / 10);
    }
  }

  /** A run of digits followed by a non-digit (or nothing) is read to its end. */
  lemma {:induction false} DigitRunStopsAfter(ds: string, rest: string)
    requires AllDigits(ds)
    requires rest == [] || !IsDigit(rest[0])
    ensures DigitRun(ds + rest) == |ds|
  {
    if ds != [] {
      assert (ds + rest)[1..] == ds[1..] + rest;
      DigitRunStopsAfter(ds[1..], rest);
    }
  }

  /** Digits followed by a non-digit: the run of digits is read to its end. */
  lemma LeadingValueDigits(ds: string, rest: string)
    requires AllDigits(ds)
    requires rest == [] || !IsDigit(rest[0])
    ensures LeadingValue(ds + rest) == DigitsValue(ds)
  {
    DigitRunStopsAfter(ds, rest);
    assert (ds + rest)[..|ds|] == ds;
  }

  /** Text that starts with a digit is read from its first character. */
  lemma ToIntUnsigned(t: string)
    requires t != [] && IsDigit(t[0])
    ensures ToInt(t) == LeadingValue(t)
  {
    assert SkipSpaces(t) == t;
  }

  /** Text that starts with '-' is read, negated, from its second character. */
  lemma ToIntSigned(t: string)
    requires t != [] && t[0] == '-'
    ensures ToInt(t) == -(LeadingValue(t[1..]) as int)
  {
    assert SkipSpaces(t) == t;
  }

  /** A '-' in front of unsigned text negates what toInt reads from it. */
  lemma ToIntMinus(u: string)
    requires u == [] || (!IsSpace(u[0]) && u[0] != '-' && u[0] != '+')
    ensures ToInt("-" + u) == -ToInt(u)
  {
    var m := "-" + u;
    assert m[0] == '-' && m[1..] == u;
    ToIntSigned(m);
    assert SkipSpaces(u) == u;
  }

  /** A '+' in front of unsigned text changes nothing: "+50" reads as 50. */
  lemma ToIntPlus(u: string)
    requires u == [] || (!IsSpace(u[0]) && u[0] != '-' && u[0] != '+')
    ensures ToInt("+" + u) == ToInt(u)
  {
    var p := "+" + u;
    assert p[0] == '+' && p[1..] == u;
    assert !IsSpace(p[0]);
    assert SkipSpaces(p) == p;
    assert ToInt(p) == LeadingValue(u);
    if u != [] {
      assert SkipSpaces(u) == u;
    }
  }

  /** Digits followed by a non-digit (or nothing) read as their value. */
  lemma ToIntDigits(ds: string, rest: string)
    requires ds != [] && AllDigits(ds)
    requires rest == [] || !IsDigit(rest[0])
    ensures ToInt(ds + rest) == DigitsValue(ds)
  {
    assert (ds + rest)[0] == ds[0];
    ToIntUnsigned(ds + rest);
    LeadingValueDigits(ds, rest);
  }

  /** A '-' and digits followed by a non-digit (or nothing) read as minus their value. */
  lemma ToIntMinusDigits(ds: string, rest: string)
    requires ds != [] && AllDigits(ds)
    requires rest == [] || !IsDigit(rest[0])
    ensures ToInt("-" + ds + rest) == -(DigitsValue(ds) as int)
  {
    var t := "-" + ds + rest;
    assert t[0] == '-' && t[1..] == ds + rest;
    ToIntSigned(t);
    LeadingValueDigits(ds, rest);
  }

  /**
   * Round trip: toInt reads back what Show wrote, whatever non-digit text
   * follows it (a trailing '\r' from a terminal, for instance).
   */
  lemma ToIntShow(n: int, rest: string)
    requires rest == [] || !IsDigit(rest[0])
    ensures ToInt(Show(n) + rest) == n
  {
    if n < 0 {
      DigitsValueShowNat(-n);
      ToIntMinusDigits(ShowNat(-n), rest);
    } else {
      DigitsValueShowNat(n);
      ToIntDigits(ShowNat(n), rest);
    }
  }

  /** Leading white space is ignored. */
  lemma ToIntSkipsSpace(c: char, s: string)
    requires IsSpace(c)
    ensures ToInt([c] + s) == ToInt(s)
  {
    assert ([c] + s)[1..] == s;
  }

  /** Text that starts with neither white space, a sign nor a digit reads as 0. */
  lemma ToIntNoDigits(s: string)
    requires s == [] || (!IsSpace(s[0]) && !IsDigit(s[0]) && s[0] != '-' && s[0] != '+')
    ensures ToInt(s) == 0
  {
  }
}
