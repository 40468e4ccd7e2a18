/** Rendering of natural numbers as digit strings, as `strftime`'s `%Y`,
    `%m`, `%d`, `uuid.hex` and `str(int)` produce them, together with the
    reading back of such strings. */
module Format {

  /** `b ** e`. */
  function Pow(b: nat, e: nat): (r: nat)
    ensures b >= 1 ==> r >= 1
  {
    if e == 0 then 1 else b * Pow(b, e - 1)
  }

  /** The lower-case digit character for `d` (as `%x` and `uuid.hex` write it). */
  function DigitChar(d: nat): (c: char)
    requires d < 16
  {
    if d < 10 then ('0' as int + d) as char else ('a' as int + d - 10) as char
  }

  predicate IsDigitOf(c: char, base: nat)
  {
    ('0' <= c <= '9' && (c as int - '0' as int) < base)
    || ('a' <= c <= 'f' && (c as int - 'a' as int) + 10 < base)
  }

  function DigitValue(c: char): nat
  {
    if '0' <= c <= '9' then c as int - '0' as int
    else if 'a' <= c <= 'f' then c as int - 'a' as int + 10
    else 0
  }

  lemma DigitRoundTrip(d: nat, base: nat)
    requires d < base <= 16
    ensures IsDigitOf(DigitChar(d), base) && DigitValue(DigitChar(d)) == d
  {
  }

  predicate AllDigits(s: string, base: nat)
  {
    forall k :: 0 <= k < |s| ==> IsDigitOf(s[k], base)
  }

  /** `n` written with exactly `width` digits in `base`, zero-padded on the
      left (the high digits beyond `width` are dropped). */
  function Digits(n: nat, base: nat, width: nat): (r: string)
    requires 2 <= base <= 16
    ensures |r| == width && AllDigits(r, base)
    decreases width
  {
    if width == 0 then []
    else
      var d := n % base;
      var rest := Digits(n / base, base, width - 1);
      DigitRoundTrip(d, base);
      rest + [DigitChar(d)]
  }

  /** The number a string of digits in `base` denotes. */
  function ValueOf(s: string, base: nat): nat
  {
    if s == [] then 0 else ValueOf(s[..|s| - 1], base) * base + DigitValue(s[|s| - 1])
  }

  lemma DivBelowPow(n: nat, base: nat, width: nat)
    requires 2 <= base && width >= 1 && n < Pow(base, width)
    ensures n / base < Pow(base, width - 1)
  {
    var p, q := Pow(base, width - 1), n / base;
    assert q * base <= n;
    assert n < p * base;
    MulStrict(q, p, base);
  }

  lemma DivMod(n: nat, base: nat)
    requires base >= 1
    ensures n == (n / base) * base + n % base
  {
  }

  lemma MulStrict(q: nat, p: nat, base: nat)
    requires base >= 1 && q * base < p * base
    ensures q < p
  {
  }

  /** Appending a digit shifts the value by one place. */
  lemma ValueOfSnoc(rest: string, c: char, base: nat)
    ensures ValueOf(rest + [c], base) == ValueOf(rest, base) * base + DigitValue(c)
  {
    assert (rest + [c])[..|rest|] == rest;
  }

  /** Peeling off the last digit of a rendering. */
  lemma DigitsStep(n: nat, base: nat, width: nat)
    requires 2 <= base <= 16 && width >= 1
    ensures ValueOf(Digits(n, base, width), base)
            == ValueOf(Digits(n / base, base, width - 1), base) * base + n % base
  {
    ValueOfSnoc(Digits(n / base, base, width - 1), DigitChar(n % base), base);
    DigitRoundTrip(n % base, base);
  }

  /** Reading back a zero-padded rendering gives the number, whenever the
      number fits in `width` digits. */
  lemma {:induction false} ValueOfDigits(n: nat, base: nat, width: nat)
    requires 2 <= base <= 16 && n < Pow(base, width)
    ensures ValueOf(Digits(n, base, width), base) == n
    decreases width
  {
    if width > 0 {
      DivBelowPow(n, base, width);
      ValueOfDigits(n / base, base, width - 1);
      DigitsStep(n, base, width);
      DivMod(n, base);
    }
  }

  /** Two numbers that fit in `width` digits have the same rendering only
      if they are equal. */
  lemma DigitsInjective(m: nat, n: nat, base: nat, width: nat)
    requires 2 <= base <= 16 && m < Pow(base, width) && n < Pow(base, width)
    requires Digits(m, base, width) == Digits(n, base, width)
    ensures m == n
  {
    ValueOfDigits(m, base, width);
    ValueOfDigits(n, base, width);
  }

  /** Python's `str(n)` for a natural number: decimal, no leading zeros. */
  function Decimal(n: nat): (r: string)
    ensures |r| >= 1 && AllDigits(r, 10)
    ensures |r| > 1 ==> r[0] != '0'
  {
    DigitRoundTrip(n % 10, 10);
    if n < 10 then [DigitChar(n)] else Decimal(n / 10) + [DigitChar(n % 10)]
  }

  /** Reading back `str(n)` gives `n`. */
  lemma {:induction false} ValueOfDecimal(n: nat)
    ensures ValueOf(Decimal(n), 10) == n
  {
    DigitRoundTrip(n % 10, 10);
    if n >= 10 {
      var d := Decimal(n);
      ValueOfDecimal(n / 10);
      assert d[..|d| - 1] == Decimal(n / 10);
    }
  }

  /** Python's `str(i)` for an integer. */
  function IntToStr(i: int): (r: string)
    ensures |r| >= 1
    ensures r[0] == '-' <==> i < 0
  {
    if i < 0 then "-" + Decimal(-i) else Decimal(i)
  }

  /** Python's `int(s)` on the strings `str` produces. */
  function ParseInt(s: string): int
  {
    if |s| > 0 && s[0] == '-' then -(ValueOf(s[1..], 10) as int) else ValueOf(s, 10)
  }

  /** `int(str(i)) == i`. */
  lemma IntToStrRoundTrip(i: int)
    ensures ParseInt(IntToStr(i)) == i
  {
    if i < 0 {
      ValueOfDecimal(-i);
      assert IntToStr(i)[1..] == Decimal(-i);
    } else {
      ValueOfDecimal(i);
      assert Decimal(i)[0] != '-';
    }
  }
}
