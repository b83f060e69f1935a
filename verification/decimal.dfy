/**
 Decimal digit strings as the discount tool handles them: picking the digit
 characters out of a string, their numeric value, zero-padding on the left
 (Python's `str.zfill`) and the base-10 parse done by `int(...)`.

 A digit is one of the ASCII characters '0'..'9'.
 */
module Decimal {

  predicate IsDigit(c: char)
  {
    '0' <= c <= '9'
  }

  predicate AllDigits(s: string) {
    forall i :: 0 <= i < |s| ==> IsDigit(s[i])
  }

  predicate NoDigits(s: string) {
    forall i :: 0 <= i < |s| ==> !IsDigit(s[i])
  }

  function Pow10(n: nat): (p: nat)
    ensures p >= 1
  {
    if n == 0 then 1 else 10 * Pow10(n - 1)
  }

  /** The digit characters of `s`, in the order in which they occur. */
  function Digits(s: string): (d: string)
    ensures AllDigits(d)
    ensures |d| <= |s|
  {
    if s == [] then []
    else if IsDigit(s[0]) then [s[0]] + Digits(s[1..])
    else Digits(s[1..])
  }

  /** Filtering distributes over concatenation, so the order of the digits is kept. */
  lemma {:induction false} DigitsConcat(a: string, b: string)
    ensures Digits(a + b) == Digits(a) + Digits(b)
  {
    if a == [] {
      assert a + b == b;
    } else {
      assert (a + b)[0] == a[0];
      assert (a + b)[1..] == a[1..] + b;
      DigitsConcat(a[1..], b);
    }
  }

  /** Nothing survives the filter exactly when no character is a digit. */
  lemma {:induction false} DigitsEmptyIff(s: string)
    ensures Digits(s) == [] <==> NoDigits(s)
  {
    if s != [] {
      DigitsEmptyIff(s[1..]);
      assert forall i :: 1 <= i < |s| ==> s[i] == s[1..][i - 1];
    }
  }

  /** A string made only of digits passes through the filter unchanged. */
  lemma {:induction false} DigitsOfAllDigits(s: string)
    requires AllDigits(s)
    ensures Digits(s) == s
  {
    if s != [] {
      DigitsOfAllDigits(s[1..]);
    }
  }

  /** Every digit character of `s` is kept and every other character dropped. */
  lemma {:induction false} DigitsCounts(s: string, c: char)
    ensures multiset(Digits(s))[c] == if IsDigit(c) then multiset(s)[c] else 0
  {
    if s != [] {
      assert s == [s[0]] + s[1..];
      DigitsCounts(s[1..], c);
    }
  }

  /** The weight of one digit: its position in "0123456789". */
  function DigitValue(c: char): (v: nat)
    requires IsDigit(c)
    ensures v < 10 && "0123456789"[v] == c
  {
    (c as int - '0' as int) as nat
  }

  /** One more digit: `(x * p + y) * 10 + c == x * (p * 10) + (y * 10 + c)`. */
  lemma ShiftDigit(x: int, p: int, y: int, c: int)
    ensures (x * p + y) * 10 + c == x * (p * 10) + (y * 10 + c)
  {
  }

  /** The base-10 value of a digit string, most significant digit first. */
  function Value(d: string): (n: nat)
    requires AllDigits(d)
    ensures n < Pow10(|d|)
    decreases |d|
  {
    if d == [] then 0
    else
      var init := Value(d[..|d| - 1]);
      assert init <= Pow10(|d| - 1) - 1;
      init * 10 + DigitValue(d[|d| - 1])
  }

  lemma ConcatAllDigits(a: string, b: string)
    requires AllDigits(a) && AllDigits(b)
    ensures AllDigits(a + b)
  {
    forall i | 0 <= i < |a + b| ensures IsDigit((a + b)[i]) {
      if i < |a| { assert (a + b)[i] == a[i]; } else { assert (a + b)[i] == b[i - |a|]; }
    }
  }

  /** Positional notation: the value of a concatenation. */
  lemma {:induction false} ValueConcat(a: string, b: string)
    requires AllDigits(a) && AllDigits(b)
    ensures AllDigits(a + b)
    ensures Value(a + b) == Value(a) * Pow10(|b|) + Value(b)
    decreases |b|
  {
    ConcatAllDigits(a, b);
    if b == [] {
      assert a + b == a;
    } else {
      var b' := b[..|b| - 1];
      var c := b[|b| - 1];
      assert (a + b)[..|a + b| - 1] == a + b';
      assert (a + b)[|a + b| - 1] == c;
      ValueConcat(a, b');
      assert Value(a + b) == Value(a + b') * 10 + DigitValue(c);
      assert Value(b) == Value(b') * 10 + DigitValue(c);
      assert Pow10(|b|) == Pow10(|b'|) * 10;
      ShiftDigit(Value(a), Pow10(|b'|), Value(b'), DigitValue(c));
    }
  }

  /** A number of the form `h * 10^2 + v` with `v < 10^2` leaves `v` modulo 100. */
  lemma ModHundred(n: int, h: nat, k: nat, v: nat)
    requires k == 2 && n == h * Pow10(k) + v && v < Pow10(k)
    ensures n % 100 == v
  {
    assert Pow10(1) == 10;
  }

  /** The last two digits of a digit string carry its value modulo 100. */
  lemma LastTwoDigitsValue(d: string)
    requires AllDigits(d) && |d| >= 2
    ensures Value(d[|d| - 2..]) == Value(d) % 100
  {
    var head, tail := d[..|d| - 2], d[|d| - 2..];
    assert d == head + tail;
    ValueConcat(head, tail);
    ModHundred(Value(d), Value(head), |tail|, Value(tail));
  }

  /** A string of at most two digits is its own value modulo 100. */
  lemma ShortValue(d: string)
    requires AllDigits(d) && |d| <= 2
    ensures Value(d) < 100 && Value(d) % 100 == Value(d)
  {
    assert Pow10(|d|) <= 100 by {
      assert Pow10(1) == 10;
      assert Pow10(2) == 100;
    }
  }

  /** `n` copies of the character '0'. */
  function Zeros(n: nat): (z: string)
    ensures |z| == n
    ensures forall i :: 0 <= i < n ==> z[i] == '0'
  {
    seq(n, _ => '0')
  }

  lemma {:induction false} ZerosValue(n: nat)
    ensures AllDigits(Zeros(n))
    ensures Value(Zeros(n)) == 0
  {
    if n > 0 {
      assert Zeros(n)[..n - 1] == Zeros(n - 1);
      ZerosValue(n - 1);
    }
  }

  predicate IsSign(c: char) {
    c == '+' || c == '-'
  }

  /**
   Python's `str.zfill(width)`: a string shorter than `width` is padded with
   '0' to `width` characters, after a leading sign if there is one; a string
   at least that long is returned as it is.
   */
  function ZFill(s: string, width: nat): (r: string)
    ensures |r| == if |s| >= width then |s| else width
    ensures |s| >= width ==> r == s
    ensures s == [] || !IsSign(s[0]) ==>
      r[|r| - |s|..] == s && forall i :: 0 <= i < |r| - |s| ==> r[i] == '0'
    ensures s != [] && IsSign(s[0]) && |s| < width ==>
      r[0] == s[0] && r[|r| - |s| + 1..] == s[1..] && forall i :: 1 <= i <= |r| - |s| ==> r[i] == '0'
  {
    if |s| >= width then s
    else if s != [] && IsSign(s[0]) then [s[0]] + Zeros(width - |s|) + s[1..]
    else Zeros(width - |s|) + s
  }

  /** Zero-padding a digit string keeps it a digit string and keeps its value. */
  lemma ZFillValue(d: string, width: nat)
    requires AllDigits(d)
    ensures AllDigits(ZFill(d, width))
    ensures Value(ZFill(d, width)) == Value(d)
  {
    if |d| < width {
      assert d == [] || !IsSign(d[0]);
      assert ZFill(d, width) == Zeros(width - |d|) + d;
      ZerosValue(width - |d|);
      ValueConcat(Zeros(width - |d|), d);
    }
  }

  datatype ParseResult = Parsed(value: nat) | ValueError(message: string)

  /**
   Python's `int(t)` with base 10, on the strings the discount tool can hand it:
   a non-empty run of digits gives its value; anything else raises
   `ValueError` with Python's message.  Signs, surrounding whitespace and
   underscores, which `int` also accepts, are not modelled.
   */
  function ParseDecimal(t: string): (r: ParseResult)
    ensures r.Parsed? <==> t != [] && AllDigits(t)
    ensures r.Parsed? ==> r.value < Pow10(|t|)
  {
    if t != [] && AllDigits(t) then Parsed(Value(t))
    else ValueError("invalid literal for int() with base 10: '" + t + "'")
  }
}
