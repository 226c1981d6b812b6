/** Decimal digit strings: Python's `str(n)` for a natural `n`, the value a
    digit string spells, and Python's `int(text)` for decimal text. */
module Decimal {
  import opened PyResults
  import opened Text

  predicate IsDigit(c: char) {
    '0' <= c <= '9'
  }

  predicate IsDigitString(s: string) {
    forall i :: 0 <= i < |s| ==> IsDigit(s[i])
  }

  function DigitChar(d: nat): (c: char)
    requires d < 10
    ensures IsDigit(c)
  {
    ('0' as int + d) as char
  }

  function DigitValue(c: char): (d: nat)
    requires IsDigit(c)
    ensures d < 10 && DigitChar(d) == c
  {
    c as int - '0' as int
  }

  function Pow10(k: nat): (p: nat)
    ensures p >= 1
  {
    if k == 0 then 1 else 10 * Pow10(k - 1)
  }

  /** The natural number a digit string spells (leading zeros allowed). */
  function Value(s: string): nat
    requires IsDigitString(s)
  {
    if s == [] then 0 else Value(s[..|s| - 1]) * 10 + DigitValue(s[|s| - 1])
  }

  /** True when a digit string is written the way `str` writes a natural:
      non-empty and without a leading zero (except "0" itself). */
  predicate IsCanonical(s: string) {
    IsDigitString(s) && |s| >= 1 && (|s| > 1 ==> s[0] != '0')
  }

  /** Python's `str(n)` for `n >= 0`. */
  function Str(n: nat): (s: string)
    ensures IsCanonical(s)
    ensures Value(s) == n
  {
    if n < 10 then [DigitChar(n)]
    else
      var t := Str(n / 10);
      assert (t + [DigitChar(n % 10)])[..|t|] == t;
      t + [DigitChar(n % 10)]
  }

  lemma {:induction false} Pow10Monotone(j: nat, k: nat)
    ensures j <= k ==> Pow10(j) <= Pow10(k)
  {
    if j < k { Pow10Monotone(j, k - 1); }
  }

  /** A digit string of length k spells a number below 10^k. */
  lemma {:induction false} ValueBelowPow10(s: string)
    requires IsDigitString(s)
    ensures Value(s) < Pow10(|s|)
  {
    if s != [] { ValueBelowPow10(s[..|s| - 1]); }
  }

  /** A digit string of length k without a leading zero spells at least 10^(k-1). */
  lemma {:induction false} ValueAtLeastPow10(s: string)
    requires IsDigitString(s) && |s| >= 1 && s[0] != '0'
    ensures Value(s) >= Pow10(|s| - 1)
  {
    if |s| > 1 {
      ValueAtLeastPow10(s[..|s| - 1]);
    }
  }

  /** `str` never gets shorter as the number grows. */
  lemma StrLengthMonotone(n: nat, m: nat)
    requires n <= m
    ensures |Str(n)| <= |Str(m)|
  {
    ValueBelowPow10(Str(m));
    if |Str(n)| > 1 {
      ValueAtLeastPow10(Str(n));
      Pow10Monotone(|Str(m)|, |Str(n)| - 1);
    }
  }

  /** Splitting a digit string splits its value positionally. */
  lemma {:induction false} ValueAppend(x: string, y: string)
    requires IsDigitString(x) && IsDigitString(y)
    ensures IsDigitString(x + y)
    ensures Value(x + y) == Value(x) * Pow10(|y|) + Value(y)
  {
    if y != [] {
      var y' := y[..|y| - 1];
      assert (x + y)[..|x + y| - 1] == x + y';
      ValueAppend(x, y');
      var vx, vy', d, p' := Value(x), Value(y'), DigitValue(y[|y| - 1]), Pow10(|y'|);
      assert Value(x + y) == Value(x + y') * 10 + d;
      assert Value(y) == vy' * 10 + d;
      assert Pow10(|y|) == p' * 10;
      Distribute(vx, p', vy');
    } else {
      assert x + y == x;
    }
  }

  lemma Distribute(a: nat, b: nat, c: nat)
    ensures (a * b + c) * 10 == a * (b * 10) + c * 10
  {
  }

  lemma MulMonotone(a: nat, b: nat, p: nat)
    requires a <= b
    ensures a * p <= b * p
  {
  }

  lemma PositionalLess(va: nat, vb: nat, ra: nat, rb: nat, p: nat)
    requires va + 1 <= vb && ra < p
    ensures va * p + ra < vb * p + rb
  {
    MulMonotone(va + 1, vb, p);
  }

  /** Appending one digit multiplies by ten and adds the digit. */
  lemma ValueSnoc(x: string, c: char)
    requires IsDigitString(x) && IsDigit(c)
    ensures IsDigitString(x + [c]) && Value(x + [c]) == Value(x) * 10 + DigitValue(c)
  {
    assert (x + [c])[..|x|] == x;
  }

  /** Cutting a digit string at `k` splits its value positionally. */
  lemma ValueSplitAt(s: string, k: nat)
    requires IsDigitString(s) && k <= |s|
    ensures Value(s) == Value(s[..k]) * Pow10(|s| - k) + Value(s[k..])
  {
    assert s == s[..k] + s[k..];
    ValueAppend(s[..k], s[k..]);
  }

  /** Equal prefixes followed by a smaller digit give a smaller prefix value. */
  lemma PrefixValueLess(s: string, t: string, j: nat)
    requires IsDigitString(s) && IsDigitString(t) && j < |s| && j < |t| && s[..j] == t[..j]
    requires DigitValue(s[j]) < DigitValue(t[j])
    ensures Value(s[..j + 1]) + 1 <= Value(t[..j + 1])
  {
    assert s[..j + 1] == s[..j] + [s[j]] && t[..j + 1] == t[..j] + [t[j]];
    ValueSnoc(s[..j], s[j]);
    ValueSnoc(t[..j], t[j]);
  }

  /** Two digit strings of the same length compare like their first
      differing digit: this is why decimal order is lexicographic order. */
  lemma FirstDifferenceDecides(s: string, t: string, j: nat)
    requires IsDigitString(s) && IsDigitString(t) && |s| == |t|
    requires j < |s| && s[..j] == t[..j]
    requires DigitValue(s[j]) < DigitValue(t[j])
    ensures Value(s) < Value(t)
  {
    PrefixValueLess(s, t, j);
    ValueSplitAt(s, j + 1);
    ValueSplitAt(t, j + 1);
    ValueBelowPow10(s[j + 1..]);
    PositionalLess(Value(s[..j + 1]), Value(t[..j + 1]), Value(s[j + 1..]), Value(t[j + 1..]), Pow10(|s| - j - 1));
  }

  /** A sign followed by one or more digits. */
  predicate IsSignedDigits(t: string, sign: char) {
    |t| >= 2 && t[0] == sign && IsDigitString(t[1..])
  }

  /** What `int()` accepts once the surrounding whitespace is gone: one or
      more digits, with an optional sign in front. */
  predicate IsIntText(t: string) {
    (t != [] && IsDigitString(t)) || IsSignedDigits(t, '-') || IsSignedDigits(t, '+')
  }

  /** Python's `int(text)` on ASCII decimal text: surrounding whitespace,
      then an optional sign, then one or more digits; anything else raises
      `ValueError`. */
  function ParseInt(text: string): (r: Outcome<int>)
    ensures r.Ok? <==> IsIntText(Strip(text))
    ensures r.Err? ==> r.error == ValueError
    ensures IsDigitString(Strip(text)) && Strip(text) != [] ==> r == Ok(Value(Strip(text)))
    ensures IsSignedDigits(Strip(text), '-') ==> r == Ok(-(Value(Strip(text)[1..]) as int))
    ensures IsSignedDigits(Strip(text), '+') ==> r == Ok(Value(Strip(text)[1..]))
  {
    var t := Strip(text);
    if IsSignedDigits(t, '-') then Ok(-(Value(t[1..]) as int))
    else if IsSignedDigits(t, '+') then Ok(Value(t[1..]))
    else if t != [] && IsDigitString(t) then Ok(Value(t))
    else Err(ValueError)
  }

  /** `int(str(n)) == n`. */
  lemma ParseIntOfStr(n: nat)
    ensures ParseInt(Str(n)) == Ok(n)
  {
    StripCanonical(Str(n));
  }

  /** `int('-' + str(n)) == -n` and `int('+' + str(n)) == n`. */
  lemma ParseIntOfSignedStr(n: nat)
    ensures ParseInt("-" + Str(n)) == Ok(-(n as int))
    ensures ParseInt("+" + Str(n)) == Ok(n)
  {
    var s := Str(n);
    assert ParseInt("-" + s) == Ok(-(n as int)) by {
      assert "-" + s == ['-'] + s;
      SignedStr(s, '-');
    }
    assert ParseInt("+" + s) == Ok(n) by {
      assert "+" + s == ['+'] + s;
      SignedStr(s, '+');
    }
  }

  lemma SignedStr(s: string, sign: char)
    requires IsCanonical(s) && (sign == '-' || sign == '+')
    ensures Strip([sign] + s) == [sign] + s && IsSignedDigits([sign] + s, sign)
    ensures ([sign] + s)[1..] == s
  {
    var t := [sign] + s;
    assert t[1..] == s;
    assert t[|t| - 1] == s[|s| - 1];
    StripUnchanged(t);
  }

  /** Decimal text has no whitespace to strip. */
  lemma StripCanonical(s: string)
    requires IsCanonical(s)
    ensures Strip(s) == s
  {
    StripUnchanged(s);
  }
}
