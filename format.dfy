/**
 * Decimal numerals as Python's `%d` and `%0<width>d` conversions write them
 * for nonnegative integers, and the value read back from a digit string.
 */
module Format {
  import opened StringOrder

  function Pow10(n: nat): (r: nat)
    ensures r >= 1
  {
    if n == 0 then 1 else 10 * Pow10(n - 1)
  }

  predicate IsDigit(c: char)
  {
    '0' <= c <= '9'
  }

  predicate IsDigits(s: string)
  {
    forall i :: 0 <= i < |s| ==> IsDigit(s[i])
  }

  function DigitValue(c: char): (d: nat)
    requires IsDigit(c)
    ensures d < 10
  {
    c as int - '0' as int
  }

  function DigitChar(d: nat): (c: char)
    requires d < 10
    ensures IsDigit(c) && DigitValue(c) == d
  {
    (d + '0' as int) as char
  }

  /** The number a string of decimal digits denotes (leading zeros allowed). */
  function ValueOf(s: string): nat
    requires IsDigits(s)
  {
    if s == [] then 0 else ValueOf(s[..|s| - 1]) * 10 + DigitValue(s[|s| - 1])
  }

  function Zeros(k: nat): string
  {
    seq(k, _ => '0')
  }

  /** `%d` of a nonnegative integer: its numeral without leading zeros. */
  function Decimal(n: nat): string
  {
    if n < 10 then [DigitChar(n)] else Decimal(n / 10) + [DigitChar(n % 10)]
  }

  /**
   * `%0<width>d` of a nonnegative integer: the numeral left-padded with '0'
   * up to `width` characters; a longer numeral is written whole.
   */
  function ZeroPad(n: nat, width: nat): string
  {
    var d := Decimal(n);
    if |d| < width then Zeros(width - |d|) + d else d
  }

  /** The numeral of n is a nonempty string of digits that reads back as n. */
  lemma {:induction false} DecimalValue(n: nat)
    ensures 1 <= |Decimal(n)| && IsDigits(Decimal(n)) && ValueOf(Decimal(n)) == n
  {
    if n >= 10 {
      var s := Decimal(n);
      DecimalValue(n / 10);
      assert s[..|s| - 1] == Decimal(n / 10);
    }
  }

  /** The numeral fits in `width` characters exactly when n is below 10^width. */
  lemma {:induction false} DecimalLength(n: nat, width: nat)
    requires 1 <= width
    ensures |Decimal(n)| <= width <==> n < Pow10(width)
  {
    if n >= 10 && width > 1 {
      DecimalLength(n / 10, width - 1);
    }
  }

  lemma {:induction false} ZerosValue(k: nat)
    ensures IsDigits(Zeros(k)) && ValueOf(Zeros(k)) == 0
  {
    if k > 0 {
      assert Zeros(k)[..k - 1] == Zeros(k - 1);
      ZerosValue(k - 1);
    }
  }

  lemma {:induction false} LeadingZerosValue(k: nat, s: string)
    requires IsDigits(s)
    ensures IsDigits(Zeros(k) + s) && ValueOf(Zeros(k) + s) == ValueOf(s)
  {
    var t := Zeros(k) + s;
    ZerosValue(k);
    if s == [] {
      assert t == Zeros(k);
      ZerosValue(k);
    } else {
      assert t[..|t| - 1] == Zeros(k) + s[..|s| - 1];
      LeadingZerosValue(k, s[..|s| - 1]);
    }
  }

  /** Reading back a `%0<width>d` numeral gives the number written. */
  lemma ZeroPadValue(n: nat, width: nat)
    ensures IsDigits(ZeroPad(n, width)) && ValueOf(ZeroPad(n, width)) == n
  {
    DecimalValue(n);
    var d := Decimal(n);
    if |d| < width {
      LeadingZerosValue(width - |d|, d);
    }
  }

  /** A number below 10^width is written in exactly `width` characters. */
  lemma ZeroPadLength(n: nat, width: nat)
    requires 1 <= width && n < Pow10(width)
    ensures |ZeroPad(n, width)| == width
  {
    DecimalLength(n, width);
  }

  lemma ZeroPadInjective(x: nat, y: nat, width: nat)
    ensures ZeroPad(x, width) == ZeroPad(y, width) <==> x == y
  {
    ZeroPadValue(x, width);
    ZeroPadValue(y, width);
  }

  lemma {:induction false} ValueOfInjective(a: string, b: string)
    requires IsDigits(a) && IsDigits(b) && |a| == |b|
    requires ValueOf(a) == ValueOf(b)
    ensures a == b
  {
    if a != [] {
      var n := |a|;
      var x, y := DigitValue(a[n - 1]), DigitValue(b[n - 1]);
      assert ValueOf(a[..n - 1]) * 10 + x == ValueOf(b[..n - 1]) * 10 + y;
      assert x == y && ValueOf(a[..n - 1]) == ValueOf(b[..n - 1]);
      ValueOfInjective(a[..n - 1], b[..n - 1]);
      assert a == a[..n - 1] + [a[n - 1]] && b == b[..n - 1] + [b[n - 1]];
    }
  }

  /** On digit strings of one length, string order is numeric order. */
  lemma {:induction false} LexLessDigits(a: string, b: string)
    requires IsDigits(a) && IsDigits(b) && |a| == |b|
    ensures LexLess(a, b) <==> ValueOf(a) < ValueOf(b)
  {
    if a != [] {
      var n := |a|;
      var a', b' := a[..n - 1], b[..n - 1];
      assert a == a' + [a[n - 1]] && b == b' + [b[n - 1]];
      LexLessConcat(a', b', [a[n - 1]], [b[n - 1]]);
      LexLessDigits(a', b');
      if ValueOf(a') == ValueOf(b') {
        ValueOfInjective(a', b');
      }
      assert a' == b' ==> ValueOf(a') == ValueOf(b');
    }
  }

  /** Zero-padded numerals of one width sort as the numbers they denote. */
  lemma ZeroPadOrder(x: nat, y: nat, width: nat)
    requires 1 <= width && x < Pow10(width) && y < Pow10(width)
    ensures LexLess(ZeroPad(x, width), ZeroPad(y, width)) <==> x < y
  {
    ZeroPadLength(x, width);
    ZeroPadLength(y, width);
    ZeroPadValue(x, width);
    ZeroPadValue(y, width);
    LexLessDigits(ZeroPad(x, width), ZeroPad(y, width));
  }

  /** A number below 100 written with `%02d`, digit by digit. */
  lemma ZeroPadTwoDigits(n: nat)
    requires n < 100
    ensures ZeroPad(n, 2) == [DigitChar(n / 10), DigitChar(n % 10)]
  {
    if n >= 10 {
      assert Decimal(n / 10) == [DigitChar(n / 10)];
    }
  }

  /** A four-digit number written with `%04d`, digit by digit. */
  lemma ZeroPadFourDigits(n: nat)
    requires 1000 <= n < 10000
    ensures ZeroPad(n, 4) == [DigitChar(n / 1000), DigitChar(n / 100 % 10), DigitChar(n / 10 % 10), DigitChar(n % 10)]
  {
    assert n / 10 / 10 == n / 100;
    assert n / 100 / 10 == n / 1000;
    assert Decimal(n / 1000) == [DigitChar(n / 1000)];
    assert Decimal(n / 100) == [DigitChar(n / 1000), DigitChar(n / 100 % 10)];
    assert Decimal(n / 10) == [DigitChar(n / 1000), DigitChar(n / 100 % 10), DigitChar(n / 10 % 10)];
  }
}
