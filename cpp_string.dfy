/**
 * The handful of C++ standard-library behaviours the server's decisions rest on:
 * prefix tests written as `s.find(p) == 0`, the decimal parse `std::stoi`, and the
 * decimal rendering used by `std::stringstream << long`.
 */
module CppString {

  datatype Option<+T> = None | Some(value: T) {
    /** The contained value, or `default` when there is none. */
    function GetOr(default: T): T {
      match this
      case Some(v) => v
      case None => default
    }
  }

  /** A C++ call either returns a value or lets a `std::exception` escape to its caller. */
  datatype Outcome<+T> = Returned(value: T) | Threw

  /** Range of a 32-bit `int`. */
  const IntMin: int := -0x8000_0000
  const IntMax: int := 0x7fff_ffff

  /** `s.find(p) == 0`: the lowest position at which `p` occurs in `s` is 0. */
  predicate StartsWith(s: string, p: string) {
    |p| <= |s| && s[..|p|] == p
  }

  /** `isspace` in the "C" locale. */
  predicate IsSpace(c: char) {
    c == ' ' || c == '\t' || c == '\n' || c == '\U{0B}' || c == '\U{0C}' || c == '\r'
  }

  predicate IsDigit(c: char) {
    '0' <= c <= '9'
  }

  predicate AllDigits(s: string) {
    forall i :: 0 <= i < |s| ==> IsDigit(s[i])
  }

  /** What is left of `s` once its leading white space is skipped. */
  function SkipSpaces(s: string): (r: string)
    ensures |r| <= |s| && r == s[|s| - |r|..]
    ensures r == [] || !IsSpace(r[0])
    ensures forall i :: 0 <= i < |s| - |r| ==> IsSpace(s[i])
  {
    if s != [] && IsSpace(s[0]) then SkipSpaces(s[1..]) else s
  }

  /** Length of the longest run of decimal digits at the start of `s`. */
  function DigitRun(s: string): (n: nat)
    ensures n <= |s|
    ensures AllDigits(s[..n])
    ensures n < |s| ==> !IsDigit(s[n])
  {
    if s != [] && IsDigit(s[0]) then
      var n := 1 + DigitRun(s[1..]);
      assert s[..n] == [s[0]] + s[1..][..n - 1];
      n
    else 0
  }

  /** The value of a string of decimal digits, most significant first. */
  function DigitsValue(d: string): nat
    requires AllDigits(d)
  {
    if d == [] then 0
    else DigitsValue(d[..|d| - 1]) * 10 + (d[|d| - 1] as int - '0' as int)
  }

  /**
   * `std::stoi(s)` (base 10): leading white space, an optional sign, then at least one
   * digit; the digits end at the first non-digit. `None` stands for the exceptions it
   * throws: `std::invalid_argument` when there is no digit, `std::out_of_range` when
   * the value does not fit an `int`.
   */
  function Stoi(s: string): (r: Option<int>)
    ensures r.Some? ==> IntMin <= r.value <= IntMax
    ensures r.Some? ==> exists k :: 0 <= k < |s| && IsDigit(s[k])
  {
    var t := SkipSpaces(s);
    assert forall k :: 0 <= k < |t| ==> t[k] == s[|s| - |t| + k];
    SignedDecimal(t)
  }

  /** What `std::stoi` reads once the white space is skipped: an optional sign and the digits. */
  function SignedDecimal(t: string): (r: Option<int>)
    ensures r.Some? ==> IntMin <= r.value <= IntMax
    ensures r.Some? ==> exists k :: 0 <= k < |t| && IsDigit(t[k])
  {
    if t != [] && (t[0] == '-' || t[0] == '+') then
      assert forall k :: 0 <= k < |t| - 1 ==> t[1..][k] == t[k + 1];
      DecimalRun(t[0] == '-', t[1..])
    else DecimalRun(false, t)
  }

  /** The run of digits at the start of `u`, negated when a minus sign preceded it. */
  function DecimalRun(negative: bool, u: string): (r: Option<int>)
    ensures r.Some? ==> IntMin <= r.value <= IntMax
    ensures r.Some? ==> exists k :: 0 <= k < |u| && IsDigit(u[k])
  {
    var n := DigitRun(u);
    if n == 0 then None
    else
      assert IsDigit(u[..n][0]);
      var v: int := DigitsValue(u[..n]);
      var value: int := if negative then -v else v;
      if IntMin <= value <= IntMax then Some(value) else None
  }

  function DigitChar(d: nat): (c: char)
    requires d < 10
    ensures IsDigit(c) && c as int - '0' as int == d
  {
    ('0' as int + d) as char
  }

  /** The decimal rendering of a natural number, without leading zeros. */
  function DecimalString(n: nat): (s: string)
    ensures |s| > 0 && AllDigits(s)
    ensures n < 10 <==> |s| == 1
  {
    if n < 10 then [DigitChar(n)] else DecimalString(n / 10) + [DigitChar(n % 10)]
  }

  /** `std::stringstream << v` for an integer `v`. */
  function IntToString(v: int): (s: string)
    ensures |s| > 0 && '_' !in s
  {
    if v < 0 then "-" + DecimalString(-v) else DecimalString(v)
  }

  /** Reading back a decimal rendering gives the number rendered. */
  lemma {:induction false} DigitsValueOfDecimal(n: nat)
    ensures DigitsValue(DecimalString(n)) == n
  {
    var s := DecimalString(n);
    if n >= 10 {
      assert s[..|s| - 1] == DecimalString(n / 10);
      DigitsValueOfDecimal(n / 10);
    }
  }

  /** `std::stoi` reads back every non-negative `int` that `<<` renders. */
  lemma StoiOfDecimal(n: nat)
    requires n <= IntMax
    ensures Stoi(DecimalString(n)) == Some(n)
  {
    var s := DecimalString(n);
    assert !IsSpace(s[0]) && s[0] != '-' && s[0] != '+';
    assert SkipSpaces(s) == s;
    assert DigitRun(s) == |s|;
    assert s[..|s|] == s;
    DigitsValueOfDecimal(n);
  }

  /** Different naturals have different decimal renderings. */
  lemma DecimalInjective(m: nat, n: nat)
    requires DecimalString(m) == DecimalString(n)
    ensures m == n
  {
    DigitsValueOfDecimal(m);
    DigitsValueOfDecimal(n);
  }

  /** A rendering starts with '-' exactly for a negative number, followed by its magnitude. */
  lemma SignOfRendering(v: int)
    ensures IntToString(v)[0] == '-' <==> v < 0
    ensures v < 0 ==> IntToString(v)[1..] == DecimalString(-v)
    ensures v >= 0 ==> IntToString(v) == DecimalString(v)
  {
    assert !IsDigit('-');
  }

  /** Different integers have different renderings. */
  lemma IntToStringInjective(a: int, b: int)
    requires IntToString(a) == IntToString(b)
    ensures a == b
  {
    SignOfRendering(a);
    SignOfRendering(b);
    if a < 0 {
      DecimalInjective(-a, -b);
    } else {
      DecimalInjective(a, b);
    }
  }

  /** White space in front of text that does not start with white space is skipped entirely. */
  lemma {:induction false} SkipSpacesOfPadded(ws: string, x: string)
    requires forall i :: 0 <= i < |ws| ==> IsSpace(ws[i])
    requires x == [] || !IsSpace(x[0])
    ensures SkipSpaces(ws + x) == x
  {
    if ws != [] {
      assert (ws + x)[1..] == ws[1..] + x;
      SkipSpacesOfPadded(ws[1..], x);
    }
  }

  /** The digit run of digits followed by a non-digit (or nothing) is exactly those digits. */
  lemma DigitRunOfDigits(d: string, rest: string)
    requires AllDigits(d)
    requires rest == [] || !IsDigit(rest[0])
    ensures DigitRun(d + rest) == |d|
    ensures (d + rest)[..|d|] == d
  {
    var s := d + rest;
    var n := DigitRun(s);
    assert forall i :: 0 <= i < |d| ==> s[i] == d[i];
    assert forall i :: |d| <= i < n ==> s[..n][i] == s[i];
    assert |d| < |s| ==> s[|d|] == rest[0];
    assert s[..|d|] == d;
  }

  /** Digits followed by a non-digit (or nothing) are read as their value. */
  lemma SignedDecimalOfDigits(d: string, rest: string)
    requires d != [] && AllDigits(d)
    requires rest == [] || !IsDigit(rest[0])
    ensures SignedDecimal(d + rest) == if DigitsValue(d) <= IntMax then Some(DigitsValue(d)) else None
  {
    assert (d + rest)[0] == d[0];
    DigitRunOfDigits(d, rest);
    DecimalRunOfPrefix(d + rest, d);
  }

  /** A minus sign, digits and a non-digit (or nothing) are read as the negated value. */
  lemma SignedDecimalOfNegated(d: string, rest: string)
    requires d != [] && AllDigits(d)
    requires rest == [] || !IsDigit(rest[0])
    ensures SignedDecimal(['-'] + d + rest) ==
      if IntMin <= -(DigitsValue(d) as int) then Some(-(DigitsValue(d) as int)) else None
  {
    var t := ['-'] + d + rest;
    var u := d + rest;
    assert t != [] && t[0] == '-' && t[1..] == u;
    assert SignedDecimal(t) == DecimalRun(true, u);
    DigitRunOfDigits(d, rest);
    DecimalRunOfPrefix(u, d);
  }

  /** A digit run that is exactly `d` is read as the value of `d`, negated or not. */
  lemma DecimalRunOfPrefix(u: string, d: string)
    requires d != [] && AllDigits(d)
    requires DigitRun(u) == |d| && u[..|d|] == d
    ensures DecimalRun(true, u) ==
      if IntMin <= -(DigitsValue(d) as int) then Some(-(DigitsValue(d) as int)) else None
    ensures DecimalRun(false, u) == if DigitsValue(d) <= IntMax then Some(DigitsValue(d)) else None
  {
  }

  /** `std::stoi` on white space, digits, and a non-digit (or nothing). */
  lemma StoiOfPaddedDigits(ws: string, d: string, rest: string)
    requires forall i :: 0 <= i < |ws| ==> IsSpace(ws[i])
    requires d != [] && AllDigits(d)
    requires rest == [] || !IsDigit(rest[0])
    ensures Stoi(ws + d + rest) == if DigitsValue(d) <= IntMax then Some(DigitsValue(d)) else None
  {
    var x := d + rest;
    assert ws + d + rest == ws + x;
    assert x[0] == d[0];
    SkipSpacesOfPadded(ws, x);
    assert Stoi(ws + x) == SignedDecimal(x);
    SignedDecimalOfDigits(d, rest);
  }

  /** `std::stoi` on white space, a minus sign, digits, and a non-digit (or nothing). */
  lemma StoiOfPaddedNegated(ws: string, d: string, rest: string)
    requires forall i :: 0 <= i < |ws| ==> IsSpace(ws[i])
    requires d != [] && AllDigits(d)
    requires rest == [] || !IsDigit(rest[0])
    ensures Stoi(ws + (['-'] + d) + rest) ==
      if IntMin <= -(DigitsValue(d) as int) then Some(-(DigitsValue(d) as int)) else None
  {
    var x := ['-'] + d + rest;
    assert ws + (['-'] + d) + rest == ws + x;
    SkipSpacesOfPadded(ws, x);
    assert Stoi(ws + x) == SignedDecimal(x);
    SignedDecimalOfNegated(d, rest);
  }

  /**
   * `std::stoi` reads back what `<<` renders for any integer, after any white space
   * and before any text that does not continue the digits; a value outside the
   * `int` range throws `std::out_of_range`.
   */
  lemma StoiOfRendering(ws: string, v: int, rest: string)
    requires forall i :: 0 <= i < |ws| ==> IsSpace(ws[i])
    requires rest == [] || !IsDigit(rest[0])
    ensures Stoi(ws + IntToString(v) + rest) == if IntMin <= v <= IntMax then Some(v) else None
  {
    if v < 0 {
      var d := DecimalString(-v);
      assert IntToString(v) == ['-'] + d;
      DigitsValueOfDecimal(-v);
      StoiOfPaddedNegated(ws, d, rest);
    } else {
      var d := DecimalString(v);
      assert IntToString(v) == d;
      DigitsValueOfDecimal(v);
      StoiOfPaddedDigits(ws, d, rest);
    }
  }

  /**
   * `std::stoi` throws `std::invalid_argument` when no digit follows the leading white
   * space and the optional sign.
   */
  lemma StoiWithoutDigits(ws: string, sign: string, rest: string)
    requires forall i :: 0 <= i < |ws| ==> IsSpace(ws[i])
    requires sign == "" || sign == "-" || sign == "+"
    requires rest == [] || !IsDigit(rest[0])
    requires sign == "" ==> rest == [] || (!IsSpace(rest[0]) && rest[0] != '-' && rest[0] != '+')
    ensures Stoi(ws + sign + rest) == None
  {
    var x := sign + rest;
    assert ws + sign + rest == ws + x;
    assert x == [] || !IsSpace(x[0]) by {
      if sign != "" { assert x[0] == sign[0]; } else { assert x == rest; }
    }
    SkipSpacesOfPadded(ws, x);
    assert Stoi(ws + x) == SignedDecimal(x);
    SignedDecimalWithoutDigits(sign, rest);
  }

  /** An optional sign followed by no digit is read as nothing. */
  lemma SignedDecimalWithoutDigits(sign: string, rest: string)
    requires sign == "" || sign == "-" || sign == "+"
    requires rest == [] || !IsDigit(rest[0])
    requires sign == "" ==> rest == [] || (rest[0] != '-' && rest[0] != '+')
    ensures SignedDecimal(sign + rest) == None
  {
    var x := sign + rest;
    assert DigitRun(rest) == 0;
    if sign != "" {
      assert x[0] == sign[0] && x[1..] == rest;
    } else {
      assert x == rest;
    }
  }

  /** Splitting at the first `sep`: a prefix free of `sep` is recovered uniquely. */
  lemma SplitAtSeparator(a: string, b: string, c: string, d: string, sep: char)
    requires sep !in a && sep !in c
    requires a + [sep] + b == c + [sep] + d
    ensures a == c && b == d
  {
    var s := a + [sep] + b;
    assert s[|a|] == sep && s[|c|] == sep;
    assert a == s[..|a|] == c;
    assert b == s[|a| + 1..] == d;
  }
}
