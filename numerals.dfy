/**
 * Positional numerals as JavaScript writes and reads them: `n.toString(radix)`
 * for non-negative integers, and the digit reading shared by `parseInt` and by
 * the decimal amount strings of the forms.
 */
module Numerals {
  import opened Wrappers
  import opened Folds

  /** The value of a digit character in radices up to 36 (letters in either case). */
  function DigitValue(c: char): Option<nat>
  {
    if '0' <= c <= '9' then Some(c as nat - '0' as nat)
    else if 'a' <= c <= 'z' then Some(c as nat - 'a' as nat + 10)
    else if 'A' <= c <= 'Z' then Some(c as nat - 'A' as nat + 10)
    else None
  }

  predicate IsRadixDigit(c: char, radix: nat)
  {
    DigitValue(c).Some? && DigitValue(c).value < radix
  }

  predicate IsDecimalDigit(c: char)
  {
    '0' <= c <= '9'
  }

  predicate AllRadixDigits(s: string, radix: nat)
  {
    forall i :: 0 <= i < |s| ==> IsRadixDigit(s[i], radix)
  }

  /** A string of decimal digits only (possibly empty): the strings the amount inputs store. */
  predicate IsDigits(s: string)
  {
    forall i :: 0 <= i < |s| ==> IsDecimalDigit(s[i])
  }

  /** The lower-case digit character `toString` writes for `d`. */
  function DigitChar(d: nat): (c: char)
    requires d < 36
    ensures DigitValue(c) == Some(d)
    ensures '0' <= c <= '9' || 'a' <= c <= 'z'
  {
    if d < 10 then ('0' as int + d) as char else ('a' as int + d - 10) as char
  }

  lemma DivMod(n: nat, radix: nat)
    requires 2 <= radix
    ensures n == n / radix * radix + n % radix && n % radix < radix
    ensures n >= radix ==> 1 <= n / radix < n
  {
  }

  /** Division by the radix undoes appending a digit. */
  lemma DivModUnique(q: nat, d: nat, radix: nat)
    requires 2 <= radix && d < radix
    ensures (q * radix + d) / radix == q && (q * radix + d) % radix == d
  {
    var n := q * radix + d;
    DivMod(n, radix);
    MulStep(n / radix, q, radix);
    MulStep(q, n / radix, radix);
  }

  lemma MulStep(a: nat, b: nat, c: nat)
    ensures a < b ==> a * c + c <= b * c
  {
    if a < b {
      MulMonotone(a + 1, b, c);
      assert (a + 1) * c == a * c + c;
    }
  }

  lemma {:induction false} MulMonotone(a: nat, b: nat, c: nat)
    requires a <= b
    ensures a * c <= b * c
  {
    if a < b {
      MulMonotone(a, b - 1, c);
      assert (b - 1) * c + c == b * c;
    }
  }

  /** `n.toString(radix)` for a non-negative integer `n`. */
  function ToRadix(n: nat, radix: nat): (r: string)
    requires 2 <= radix <= 36
    ensures |r| >= 1 && AllRadixDigits(r, radix)
    ensures forall i :: 0 <= i < |r| ==> '0' <= r[i] <= '9' || 'a' <= r[i] <= 'z'
    ensures r[0] == '0' ==> n == 0 && r == "0"
  {
    DivMod(n, radix);
    if n < radix then [DigitChar(n)]
    else
      var front := ToRadix(n / radix, radix);
      var r := front + [DigitChar(n % radix)];
      assert r[0] == front[0];
      r
  }

  /** The value the digits of `s` denote in `radix`, most significant first. */
  function ValueOf(s: string, radix: nat): nat
    requires AllRadixDigits(s, radix)
  {
    if s == [] then 0
    else ValueOf(s[..|s| - 1], radix) * radix + DigitValue(s[|s| - 1]).value
  }

  /** Reads a whole string as a numeral; None (NaN) when it is empty or holds a non-digit. */
  function ParseRadix(s: string, radix: nat): (r: Option<nat>)
    ensures r.Some? <==> |s| > 0 && AllRadixDigits(s, radix)
  {
    if |s| > 0 && AllRadixDigits(s, radix) then Some(ValueOf(s, radix)) else None
  }

  /** `n.toString()` for a non-negative integer. */
  function DecimalString(n: nat): (r: string)
    ensures |r| >= 1 && IsDigits(r)
  {
    ToRadix(n, 10)
  }

  /**
   * The numeric reading of an amount string the forms store: the value of a
   * non-empty decimal digit string, None (parseFloat's NaN) for "" or a string
   * with any other character.
   */
  function ParseAmount(s: string): (r: Option<nat>)
    ensures r.Some? <==> |s| > 0 && IsDigits(s)
  {
    ParseRadix(s, 10)
  }

  /** `parseFloat(s) || 0`: NaN and 0 both read as 0. */
  function AmountOrZero(s: string): nat
  {
    match ParseAmount(s)
    case Some(v) => v
    case None => 0
  }

  lemma {:induction false} ValueOfToRadix(n: nat, radix: nat)
    requires 2 <= radix <= 36
    ensures ValueOf(ToRadix(n, radix), radix) == n
  {
    var r := ToRadix(n, radix);
    DivMod(n, radix);
    if n < radix {
      assert r[..0] == [];
    } else {
      ValueOfToRadix(n / radix, radix);
      assert r[..|r| - 1] == ToRadix(n / radix, radix);
    }
  }

  /** Reading back what `toString(radix)` wrote gives the number. */
  lemma RadixRoundTrip(n: nat, radix: nat)
    requires 2 <= radix <= 36
    ensures ParseRadix(ToRadix(n, radix), radix) == Some(n)
  {
    ValueOfToRadix(n, radix);
  }

  /** Conversely, a numeral without a leading zero is exactly what `toString` writes for its value. */
  lemma {:induction false} ToRadixValueOf(s: string, radix: nat)
    requires 2 <= radix <= 36
    requires |s| > 0 && AllRadixDigits(s, radix)
    requires forall i :: 0 <= i < |s| ==> '0' <= s[i] <= '9' || 'a' <= s[i] <= 'z'
    requires s[0] != '0' || |s| == 1
    ensures ToRadix(ValueOf(s, radix), radix) == s
  {
    if |s| == 1 {
      SingleDigit(s, radix);
    } else {
      FrontDigits(s, radix);
      ToRadixValueOf(s[..|s| - 1], radix);
      LastDigit(s, radix);
    }
  }

  /** A numeral of two or more digits is written back when its front is. */
  lemma LastDigit(s: string, radix: nat)
    requires 2 <= radix <= 36
    requires |s| > 1 && AllRadixDigits(s, radix) && s[0] != '0'
    requires forall i :: 0 <= i < |s| ==> '0' <= s[i] <= '9' || 'a' <= s[i] <= 'z'
    requires ToRadix(ValueOf(s[..|s| - 1], radix), radix) == s[..|s| - 1]
    ensures ToRadix(ValueOf(s, radix), radix) == s
  {
    var s', last := s[..|s| - 1], s[|s| - 1];
    var d := DigitValue(last).value;
    DigitCharOfValue(last);
    FrontDigits(s, radix);
    ValueOfPositive(s', radix);
    ToRadixStep(ValueOf(s, radix), ValueOf(s', radix), d, radix);
    SplitLast(s);
  }

  /** A one-digit numeral is what `toString` writes for its value. */
  lemma SingleDigit(s: string, radix: nat)
    requires 2 <= radix <= 36
    requires |s| == 1 && AllRadixDigits(s, radix) && ('0' <= s[0] <= '9' || 'a' <= s[0] <= 'z')
    ensures ToRadix(ValueOf(s, radix), radix) == s
  {
    var d := DigitValue(s[0]).value;
    DigitCharOfValue(s[0]);
    assert s[..0] == [];
    assert ValueOf(s, radix) == d;
  }

  /** The front of a numeral without its last digit is a numeral with the same first digit. */
  lemma FrontDigits(s: string, radix: nat)
    requires |s| > 1 && AllRadixDigits(s, radix)
    requires forall i :: 0 <= i < |s| ==> '0' <= s[i] <= '9' || 'a' <= s[i] <= 'z'
    ensures var s' := s[..|s| - 1];
      && s'[0] == s[0] && AllRadixDigits(s', radix)
      && forall i :: 0 <= i < |s'| ==> '0' <= s'[i] <= '9' || 'a' <= s'[i] <= 'z'
  {
    var s' := s[..|s| - 1];
    assert forall i :: 0 <= i < |s'| ==> s'[i] == s[i];
  }

  /** Writing a positive number followed by one more digit. */
  lemma ToRadixStep(n: nat, v: nat, d: nat, radix: nat)
    requires 2 <= radix <= 36 && 1 <= v && d < radix && n == v * radix + d
    ensures ToRadix(n, radix) == ToRadix(v, radix) + [DigitChar(d)]
  {
    DivModUnique(v, d, radix);
    MulMonotone(1, v, radix);
    assert n >= radix;
  }

  lemma DigitCharOfValue(c: char)
    requires '0' <= c <= '9' || 'a' <= c <= 'z'
    ensures DigitValue(c).Some? && DigitValue(c).value < 36 && DigitChar(DigitValue(c).value) == c
  {
  }

  lemma {:induction false} ValueOfPositive(s: string, radix: nat)
    requires 2 <= radix
    requires |s| > 0 && AllRadixDigits(s, radix) && s[0] != '0'
    requires forall i :: 0 <= i < |s| ==> '0' <= s[i] <= '9' || 'a' <= s[i] <= 'z'
    ensures ValueOf(s, radix) > 0
  {
    var s' := s[..|s| - 1];
    var d := DigitValue(s[|s| - 1]).value;
    if |s| > 1 {
      FrontDigits(s, radix);
      ValueOfPositive(s', radix);
      var v' := ValueOf(s', radix);
      assert ValueOf(s, radix) == v' * radix + d;
      MulMonotone(1, v', radix);
    } else {
      assert s' == [];
      assert ValueOf(s, radix) == d;
    }
  }

  lemma ToRadixInjective(m: nat, n: nat, radix: nat)
    requires 2 <= radix <= 36
    requires ToRadix(m, radix) == ToRadix(n, radix)
    ensures m == n
  {
    RadixRoundTrip(m, radix);
    RadixRoundTrip(n, radix);
  }

  lemma AmountRoundTrip(n: nat)
    ensures ParseAmount(DecimalString(n)) == Some(n)
  {
    RadixRoundTrip(n, 10);
  }
}

/**
 * The JavaScript string built-ins the core calls: `trim`, the start of
 * `parseInt`, and `toLowerCase` on the ASCII letters.
 */
module JsText {
  import opened Wrappers
  import opened Numerals

  /** WhiteSpace and LineTerminator code points, the set `trim` and `parseInt` skip. */
  predicate IsJsWhitespace(c: char)
  {
    c == '\t' || c == '\n' || c == '\U{000B}' || c == '\U{000C}' || c == '\r' || c == ' '
    || c == '\U{00A0}' || c == '\U{1680}' || ('\U{2000}' <= c <= '\U{200A}')
    || c == '\U{2028}' || c == '\U{2029}' || c == '\U{202F}' || c == '\U{205F}'
    || c == '\U{3000}' || c == '\U{FEFF}'
  }

  function TrimStart(s: string): (r: string)
    ensures |r| <= |s| && r == s[|s| - |r|..]
    ensures r != [] ==> !IsJsWhitespace(r[0])
    ensures forall i :: 0 <= i < |s| - |r| ==> IsJsWhitespace(s[i])
  {
    if s != [] && IsJsWhitespace(s[0]) then TrimStart(s[1..]) else s
  }

  function TrimEnd(s: string): (r: string)
    ensures |r| <= |s| && r == s[..|r|]
    ensures r != [] ==> !IsJsWhitespace(r[|r| - 1])
    ensures forall i :: |r| <= i < |s| ==> IsJsWhitespace(s[i])
  {
    if s != [] && IsJsWhitespace(s[|s| - 1]) then TrimEnd(s[..|s| - 1]) else s
  }

  /** `s.trim()`. */
  function Trim(s: string): string
  {
    TrimEnd(TrimStart(s))
  }

  /** `s.trim() !== ''`. */
  lemma TrimEmptyIffBlank(s: string)
    ensures Trim(s) == "" <==> forall i :: 0 <= i < |s| ==> IsJsWhitespace(s[i])
  {
    var t := TrimStart(s);
    assert Trim(s) == "" ==> t == [];
  }

  /** The longest prefix of `s` made of `radix` digits. */
  function DigitPrefix(s: string, radix: nat): (r: string)
    ensures |r| <= |s| && r == s[..|r|] && AllRadixDigits(r, radix)
    ensures |r| < |s| ==> !IsRadixDigit(s[|r|], radix)
  {
    if s != [] && IsRadixDigit(s[0], radix) then [s[0]] + DigitPrefix(s[1..], radix) else []
  }

  /**
   * `parseInt(s)` without a radix argument: skip leading white space, read an
   * optional sign, read hexadecimal after "0x"/"0X" and decimal otherwise, and
   * stop at the first character that is not a digit. None stands for NaN.
   */
  function ParseInt(s: string): Option<int>
  {
    var t := TrimStart(s);
    var negative := |t| > 0 && t[0] == '-';
    var u := if |t| > 0 && (t[0] == '-' || t[0] == '+') then t[1..] else t;
    var hex := |u| >= 2 && u[0] == '0' && (u[1] == 'x' || u[1] == 'X');
    var radix := if hex then 16 else 10;
    var z := DigitPrefix(if hex then u[2..] else u, radix);
    if z == [] then None
    else
      var v: int := ValueOf(z, radix);
      Some(if negative then -v else v)
  }

  lemma DigitPrefixAll(s: string, radix: nat)
    requires AllRadixDigits(s, radix)
    ensures DigitPrefix(s, radix) == s
  {
    if s != [] {
      assert AllRadixDigits(s[1..], radix);
      DigitPrefixAll(s[1..], radix);
    }
  }

  /** A decimal digit string reads as its value. */
  lemma ParseIntDigits(s: string)
    requires |s| > 0 && IsDigits(s)
    ensures ParseInt(s) == Some(ValueOf(s, 10))
  {
    DigitsAreRadixDigits(s);
    assert TrimStart(s) == s by {
      assert !IsJsWhitespace(s[0]);
    }
    assert s[0] != '-' && s[0] != '+';
    if |s| >= 2 {
      assert s[1] != 'x' && s[1] != 'X';
    }
    DigitPrefixAll(s, 10);
  }

  lemma DigitsAreRadixDigits(s: string)
    requires IsDigits(s)
    ensures AllRadixDigits(s, 10)
  {
    forall i | 0 <= i < |s| ensures IsRadixDigit(s[i], 10) {
      assert IsDecimalDigit(s[i]);
    }
  }

  /** `parseInt(n.toString()) === n`. */
  lemma ParseIntDecimalString(n: nat)
    ensures ParseInt(DecimalString(n)) == Some(n)
  {
    ParseIntDigits(DecimalString(n));
    ValueOfToRadix(n, 10);
  }

  /** `c.toLowerCase()` on ASCII; every other character is left as it is. */
  function LowerChar(c: char): (r: char)
    ensures 'A' <= c <= 'Z' ==> 'a' <= r <= 'z'
    ensures !('A' <= c <= 'Z') ==> r == c
  {
    if 'A' <= c <= 'Z' then (c as int - 'A' as int + 'a' as int) as char else c
  }

  /** `s.toLowerCase()` restricted to ASCII letters. */
  function ToLower(s: string): (r: string)
    ensures |r| == |s| && forall i :: 0 <= i < |s| ==> r[i] == LowerChar(s[i])
  {
    if s == [] then [] else [LowerChar(s[0])] + ToLower(s[1..])
  }
}
