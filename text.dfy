/**
 * The pieces of JavaScript's string handling that the sorter relies on:
 * String.prototype.trim, parseInt(s, 10), parseFloat(s) and String(n) for
 * an integer n.  Characters are Unicode scalar values.
 */
module Text {
  import opened Wrappers

  /** ECMAScript WhiteSpace and LineTerminator code points, which trim,
      parseInt and parseFloat all skip. */
  predicate IsSpace(c: char) {
    || c == '\t' || c == '\n' || c == '\U{000B}' || c == '\U{000C}' || c == '\r'
    || c == ' ' || c == '\U{00A0}' || c == '\U{1680}' || ('\U{2000}' <= c <= '\U{200A}')
    || c == '\U{2028}' || c == '\U{2029}' || c == '\U{202F}' || c == '\U{205F}'
    || c == '\U{3000}' || c == '\U{FEFF}'
  }

  predicate AllSpace(s: string) {
    forall k :: 0 <= k < |s| ==> IsSpace(s[k])
  }

  predicate IsDigit(c: char) {
    '0' <= c <= '9'
  }

  predicate AllDigits(s: string) {
    forall k :: 0 <= k < |s| ==> IsDigit(s[k])
  }

  /** The string with its leading whitespace removed. */
  function TrimStart(s: string): string {
    if |s| > 0 && IsSpace(s[0]) then TrimStart(s[1..]) else s
  }

  /** TrimStart cuts exactly the leading whitespace. */
  lemma {:induction false} TrimStartIsSuffix(s: string)
    ensures var r := TrimStart(s);
      && |r| <= |s| && r == s[|s| - |r|..]
      && AllSpace(s[..|s| - |r|])
      && (r == [] || !IsSpace(r[0]))
  {
    if |s| > 0 && IsSpace(s[0]) {
      TrimStartIsSuffix(s[1..]);
      var r := TrimStart(s);
      var n := |s| - |r|;
      forall k | 0 <= k < n
        ensures IsSpace(s[k])
      {
        if k > 0 {
          assert s[k] == s[1..][..n - 1][k - 1];
        }
      }
    }
  }

  /** String.prototype.trim: whitespace removed from both ends. */
  function Trim(s: string): string
    decreases |s|
  {
    if |s| > 0 && IsSpace(s[0]) then Trim(s[1..])
    else if |s| > 0 && IsSpace(s[|s| - 1]) then Trim(s[..|s| - 1])
    else s
  }

  /** `r` is what is left of `s` once some whitespace is cut from each end. */
  predicate SpaceFramed(s: string, r: string) {
    exists i, j :: 0 <= i <= j <= |s| && r == s[i..j] && AllSpace(s[..i]) && AllSpace(s[j..])
  }

  /** Trim keeps the infix of `s` left once the whitespace on both ends is
      gone. */
  lemma {:induction false} TrimIsInfix(s: string)
    ensures SpaceFramed(s, Trim(s))
    ensures Trim(s) == [] || (!IsSpace(Trim(s)[0]) && !IsSpace(Trim(s)[|Trim(s)| - 1]))
    decreases |s|
  {
    if |s| > 0 && IsSpace(s[0]) {
      TrimIsInfix(s[1..]);
      FramedAfterFront(s, Trim(s));
    } else if |s| > 0 && IsSpace(s[|s| - 1]) {
      TrimIsInfix(s[..|s| - 1]);
      FramedAfterBack(s, Trim(s));
    } else {
      assert s == s[0..|s|] && s[..0] == [] && s[|s|..] == [];
    }
  }

  lemma FramedAfterFront(s: string, r: string)
    requires |s| > 0 && IsSpace(s[0]) && SpaceFramed(s[1..], r)
    ensures SpaceFramed(s, r)
  {
    var t := s[1..];
    var i, j :| 0 <= i <= j <= |t| && r == t[i..j] && AllSpace(t[..i]) && AllSpace(t[j..]);
    forall k | 0 <= k < i + 1
      ensures IsSpace(s[k])
    {
      if k > 0 {
        assert s[k] == t[..i][k - 1];
      }
    }
    assert s[j + 1..] == t[j..];
    assert r == s[i + 1..j + 1];
  }

  lemma FramedAfterBack(s: string, r: string)
    requires |s| > 0 && IsSpace(s[|s| - 1]) && SpaceFramed(s[..|s| - 1], r)
    ensures SpaceFramed(s, r)
  {
    var t := s[..|s| - 1];
    var i, j :| 0 <= i <= j <= |t| && r == t[i..j] && AllSpace(t[..i]) && AllSpace(t[j..]);
    assert s[..i] == t[..i];
    assert s[j..] == t[j..] + [s[|s| - 1]];
    assert r == s[i..j];
  }

  /** The length of the longest prefix of `s` made of decimal digits. */
  function DigitRun(s: string): (n: nat)
    ensures n <= |s|
  {
    if |s| > 0 && IsDigit(s[0]) then 1 + DigitRun(s[1..]) else 0
  }

  /** DigitRun stops at the first character that is not a digit. */
  lemma {:induction false} DigitRunIsDigits(s: string)
    ensures var n := DigitRun(s);
      AllDigits(s[..n]) && (n == |s| || !IsDigit(s[n]))
  {
    if |s| > 0 && IsDigit(s[0]) {
      DigitRunIsDigits(s[1..]);
      var n := DigitRun(s);
      assert s[..n] == [s[0]] + s[1..][..n - 1];
    }
  }

  function DigitValue(c: char): int {
    (c as int) - ('0' as int)
  }

  /** The integer a string of decimal digits denotes (0 for the empty string). */
  function DigitsValue(s: string): int {
    if |s| == 0 then 0 else DigitsValue(s[..|s| - 1]) * 10 + DigitValue(s[|s| - 1])
  }

  /** `s` without one leading '+' or '-'. */
  function StripSign(s: string): string {
    if |s| > 0 && (s[0] == '+' || s[0] == '-') then s[1..] else s
  }

  predicate IsNegative(s: string) {
    |s| > 0 && s[0] == '-'
  }

  /** parseInt(s, 10): skip leading whitespace, read an optional sign and
      the longest run of decimal digits after it; no digits at all is NaN
      (here None).  Whatever follows the digits is ignored. */
  function ParseInt(s: string): (r: Option<int>)
    ensures r.None? <==> DigitRun(StripSign(TrimStart(s))) == 0
  {
    var t := TrimStart(s);
    var u := StripSign(t);
    var n := DigitRun(u);
    if n == 0 then None
    else
      var m: int := DigitsValue(u[..n]);
      Some(if IsNegative(t) then -m else m)
  }

  function Pow10(n: nat): (r: real)
    ensures r >= 1.0
  {
    if n == 0 then 1.0 else 10.0 * Pow10(n - 1)
  }

  /** The value of the ExponentPart that may start `s` ('e' or 'E', an
      optional sign, at least one digit); 0 when `s` does not start with one. */
  function Exponent(s: string): int {
    if |s| > 0 && (s[0] == 'e' || s[0] == 'E') then
      var u := StripSign(s[1..]);
      var n := DigitRun(u);
      if n == 0 then 0
      else
        var m: int := DigitsValue(u[..n]);
        if IsNegative(s[1..]) then -m else m
    else 0
  }

  /** Whether an unsigned decimal literal starts `u`: a digit, or a point
      followed by a digit. */
  predicate StartsDecimal(u: string) {
    (|u| > 0 && IsDigit(u[0])) || (|u| > 1 && u[0] == '.' && IsDigit(u[1]))
  }

  /** parseFloat(s) over finite decimal literals: skip leading whitespace,
      read the longest prefix of the form [sign] digits [. digits] [exponent]
      or [sign] . digits [exponent], and give its exact value; None stands
      for NaN. */
  function ParseFloat(s: string): (r: Option<real>)
    ensures r.Some? <==> StartsDecimal(StripSign(TrimStart(s)))
  {
    var t := TrimStart(s);
    var u := StripSign(t);
    var whole := DigitRun(u);
    var rest := u[whole..];
    var hasPoint := |rest| > 0 && rest[0] == '.';
    var frac := if hasPoint then DigitRun(rest[1..]) else 0;
    if whole == 0 && frac == 0 then None
    else
      var fracDigits := if hasPoint then rest[1..][..frac] else "";
      var mantissa := DigitsValue(u[..whole]) as real + DigitsValue(fracDigits) as real / Pow10(frac);
      var afterMantissa := if hasPoint then rest[1 + frac..] else rest;
      var e := Exponent(afterMantissa);
      var magnitude := if e >= 0 then mantissa * Pow10(e) else mantissa / Pow10(-e);
      Some(if IsNegative(t) then -magnitude else magnitude)
  }

  function DigitChar(d: nat): (c: char)
    requires d < 10
    ensures IsDigit(c) && DigitValue(c) == d
  {
    ('0' as int + d) as char
  }

  /** The decimal numeral of a natural number. */
  function NatToString(n: nat): string {
    if n < 10 then [DigitChar(n)] else NatToString(n / 10) + [DigitChar(n % 10)]
  }

  /** The numeral is a non-empty run of digits without a leading zero. */
  lemma {:induction false} NatToStringDigits(n: nat)
    ensures var s := NatToString(n);
      |s| > 0 && AllDigits(s) && (|s| > 1 ==> s[0] != '0')
  {
    if n >= 10 {
      NatToStringDigits(n / 10);
    }
  }

  /** String(n) for an integer n (within the range JavaScript prints without
      an exponent). */
  function IntToString(n: int): string {
    if n < 0 then "-" + NatToString(-n) else NatToString(n)
  }

  lemma {:induction false} NatToStringValue(n: nat)
    ensures DigitsValue(NatToString(n)) == n
  {
    if n >= 10 {
      var s := NatToString(n);
      assert s[..|s| - 1] == NatToString(n / 10);
      NatToStringValue(n / 10);
    }
  }

  lemma {:induction false} DigitRunOfDigits(d: string, rest: string)
    requires AllDigits(d)
    requires rest == [] || !IsDigit(rest[0])
    ensures DigitRun(d + rest) == |d|
  {
    if |d| > 0 {
      assert (d + rest)[1..] == d[1..] + rest;
      DigitRunOfDigits(d[1..], rest);
    } else {
      assert d + rest == rest;
    }
  }

  /** The numeral String prints for `n`, split into its sign and digits. */
  lemma IntToStringShape(n: int)
    ensures var digits := NatToString(if n < 0 then -n else n);
      && AllDigits(digits) && |digits| > 0
      && IntToString(n) == (if n < 0 then "-" else "") + digits
      && !IsSpace(IntToString(n)[0])
      && StripSign(IntToString(n)) == digits
      && (IsNegative(IntToString(n)) <==> n < 0)
  {
    NatToStringDigits(if n < 0 then -n else n);
  }

  /** parseInt reads back every integer String prints, whatever non-digit
      text follows it: "3" and "3px" both give 3, "-1" gives -1. */
  lemma ParseIntOfInt(n: int, rest: string)
    requires rest == [] || !IsDigit(rest[0])
    ensures ParseInt(IntToString(n) + rest) == Some(n)
  {
    var m: nat := if n < 0 then -n else n;
    var digits := NatToString(m);
    var numeral := IntToString(n);
    var s := numeral + rest;
    IntToStringShape(n);
    assert s[0] == numeral[0];
    assert TrimStart(s) == s;
    assert StripSign(s) == StripSign(numeral) + rest;
    DigitRunOfDigits(digits, rest);
    assert (digits + rest)[..|digits|] == digits;
    NatToStringValue(m);
  }

  /** parseFloat reads back every integer String prints. */
  lemma ParseFloatOfInt(n: int)
    ensures ParseFloat(IntToString(n)) == Some(n as real)
  {
    var m: nat := if n < 0 then -n else n;
    var digits := NatToString(m);
    var s := IntToString(n);
    IntToStringShape(n);
    assert TrimStart(s) == s;
    DigitRunOfDigits(digits, "");
    assert digits + "" == digits;
    assert digits[..|digits|] == digits;
    assert digits[|digits|..] == "";
    NatToStringValue(m);
  }
}
