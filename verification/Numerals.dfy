/** Numerals as the number writers of src/scrn.c produce them, and how to read them back. */
module Numerals {
  import opened Numbers

  /** The table "0123456789abcdef" of writeHexDigit. */
  function DigitChar(d: int): (c: char)
    requires 0 <= d < 16
    ensures DigitValue(c) == d && IsDigit(c) && (c == '0' <==> d == 0)
    ensures c == if d < 10 then '0' + d as char else 'a' + (d - 10) as char
  {
    "0123456789abcdef"[d]
  }

  predicate IsDigit(c: char) {
    '0' <= c <= '9' || 'a' <= c <= 'f'
  }

  function DigitValue(c: char): nat {
    if '0' <= c <= '9' then (c - '0') as nat
    else if 'a' <= c <= 'f' then (c - 'a') as nat + 10
    else 0
  }

  function Power(base: nat, n: nat): (p: nat)
    ensures base > 0 ==> p > 0
  {
    if n == 0 then 1 else base * Power(base, n - 1)
  }

  /** The number a numeral stands for, by the usual left-to-right reading. */
  function Read(s: string, base: nat): nat {
    if s == [] then 0 else Read(s[..|s| - 1], base) * base + DigitValue(s[|s| - 1])
  }

  lemma ReadAppend(s: string, c: char, base: nat)
    ensures Read(s + [c], base) == Read(s, base) * base + DigitValue(c)
  {
    assert (s + [c])[..|s + [c]| - 1] == s;
  }

  ghost predicate IsNumeral(s: string, base: nat) {
    forall i :: 0 <= i < |s| ==> IsDigit(s[i]) && DigitValue(s[i]) < base
  }

  /** A digit is determined by its value. */
  lemma DigitOfValue(c: char)
    requires IsDigit(c)
    ensures DigitValue(c) < 16 && DigitChar(DigitValue(c)) == c
  {
  }

  /** The last digit of a numeral and the numeral before it. */
  lemma LastDigit(s: string, base: nat)
    requires s != [] && IsNumeral(s, base)
    ensures var d := DigitValue(s[|s| - 1]); d < base && d < 16 && s == s[..|s| - 1] + [DigitChar(d)]
    ensures IsNumeral(s[..|s| - 1], base)
    ensures Read(s, base) / base == Read(s[..|s| - 1], base)
    ensures Read(s, base) % base == DigitValue(s[|s| - 1])
  {
    DigitOfValue(s[|s| - 1]);
    hide IsDigit, DigitChar;
    var q := Read(s[..|s| - 1], base);
    assert q * base == base * q;
    DivModUnique(Read(s, base), base, q, DigitValue(s[|s| - 1]));
  }

  // ----- Numerals of fixed length

  /** The last n digits of num, most significant first. */
  function Fixed(num: nat, n: nat, base: nat): (s: string)
    requires 2 <= base <= 16
    ensures |s| == n
  {
    if n == 0 then [] else Fixed(num / base, n - 1, base) + [DigitChar(num % base)]
  }

  lemma {:induction false} FixedReadsBack(num: nat, n: nat, base: nat)
    requires 2 <= base <= 16
    ensures Read(Fixed(num, n, base), base) == num % Power(base, n)
    ensures IsNumeral(Fixed(num, n, base), base)
  {
    hide DigitChar, DigitValue, IsDigit, Read;
    if n == 0 {
      ReadEmpty(base);
      DivModUnique(num, 1, num, 0);
    } else {
      FixedReadsBack(num / base, n - 1, base);
      ReadAppend(Fixed(num / base, n - 1, base), DigitChar(num % base), base);
      SplitModulus(num, base, Power(base, n - 1));
    }
  }

  /** Numerals of the same length with the same value are the same. */
  lemma {:induction false} SameNumeral(s: string, t: string, base: nat)
    requires |s| == |t| && IsNumeral(s, base) && IsNumeral(t, base) && Read(s, base) == Read(t, base)
    ensures s == t
  {
    hide DigitChar, DigitValue, IsDigit, IsNumeral, Read;
    if s != [] {
      LastDigit(s, base);
      LastDigit(t, base);
      SameNumeral(s[..|s| - 1], t[..|t| - 1], base);
    }
  }

  /** The n digits are the only numeral of that length with that value. */
  lemma FixedExactly(s: string, num: nat, n: nat, base: nat)
    requires 2 <= base <= 16
    ensures s == Fixed(num, n, base) <==>
      |s| == n && IsNumeral(s, base) && Read(s, base) == num % Power(base, n)
  {
    hide IsNumeral, Read, Fixed;
    FixedReadsBack(num, n, base);
    if |s| == n && IsNumeral(s, base) && Read(s, base) == num % Power(base, n) {
      SameNumeral(s, Fixed(num, n, base), base);
    }
  }

  lemma ReadEmpty(base: nat)
    ensures Read([], base) == 0
  {
  }

  lemma SplitModulus(x: nat, b: nat, p: nat)
    requires b > 0 && p > 0 && b * p > 0
    ensures x % (b * p) == (x / b % p) * b + x % b
    ensures x / (b * p) == x / b / p
  {
    var q := x / b;
    DivModEquation(x, b);
    DivModEquation(q, p);
    var r := (q % p) * b + x % b;
    assert b * q == (b * p) * (q / p) + b * (q % p) by {
      MulDistributes(b, p * (q / p), q % p);
      MulAssociates(b, p, q / p);
    }
    assert r < b * p by {
      MulDistributes(b, q % p, 1);
      MulMonotone(b, q % p + 1, p);
    }
    DivModUnique(x, b * p, q / p, r);
  }

  /** Reading num from the digit of weight base^m down: the next digit is the one of weight base^(m-1). */
  lemma NextDigit(num: nat, m: nat, n: nat, base: nat)
    requires 2 <= base <= 16 && 0 < m <= n
    ensures Power(base, m - 1) > 0 && Power(base, m) > 0
    ensures Fixed(Quot(num, Power(base, m - 1)), n - m + 1, base)
         == Fixed(Quot(num, Power(base, m)), n - m, base) + [DigitChar(Quot(num, Power(base, m - 1)) % base)]
  {
    hide DigitChar;
    var p := Power(base, m - 1);
    assert Power(base, m) == base * p;
    assert base * p == p * base;
    SplitModulus(num, p, base);
  }

  lemma AllDigits(num: nat, n: nat, base: nat)
    requires 2 <= base <= 16
    ensures Power(base, n) > 0 && Fixed(Quot(num, Power(base, n)), 0, base) == []
    ensures Power(base, 0) == 1 && Fixed(Quot(num, Power(base, 0)), n, base) == Fixed(num, n, base)
  {
    assert Power(base, 0) == 1;
    DivModUnique(num, 1, num, 0);
  }

  // ----- Decimal numerals

  function Decimal(n: nat): (s: string)
    ensures s != []
  {
    if n < 10 then [DigitChar(n)] else Decimal(n / 10) + [DigitChar(n % 10)]
  }

  lemma {:induction false} DecimalReadsBack(n: nat)
    ensures Read(Decimal(n), 10) == n
    ensures IsNumeral(Decimal(n), 10)
    ensures n > 0 ==> Decimal(n)[0] != '0'
  {
    hide DigitChar, DigitValue, IsDigit, Read;
    if n < 10 {
      ReadEmpty(10);
      ReadAppend([], DigitChar(n), 10);
      assert [] + [DigitChar(n)] == Decimal(n);
    } else {
      DecimalReadsBack(n / 10);
      ReadAppend(Decimal(n / 10), DigitChar(n % 10), 10);
    }
  }

  /** Decimal digits without a superfluous zero in front. */
  ghost predicate IsDecimal(s: string) {
    s != [] && IsNumeral(s, 10) && (s[0] == '0' ==> |s| == 1)
  }

  /** The decimal numeral is the only one without a superfluous zero that reads back as the number. */
  lemma {:induction false} DecimalExactly(s: string, n: nat)
    ensures s == Decimal(n) <==> IsDecimal(s) && Read(s, 10) == n
    decreases |s|
  {
    DecimalReadsBack(n);
    SingleDigit(n);
    if IsDecimal(s) && Read(s, 10) == n {
      hide DigitChar, IsDigit, IsNumeral, Read;
      LastDigit(s, 10);
      var front := s[..|s| - 1];
      if |s| == 1 {
        ReadEmpty(10);
        assert front == [] && [] + [DigitChar(n)] == [DigitChar(n)];
      } else {
        NotZero(front);
        DecimalExactly(front, n / 10);
      }
    }
  }

  lemma SingleDigit(n: nat)
    ensures n < 10 ==> |Decimal(n)| == 1
    ensures n == 0 ==> Decimal(n) == "0"
  {
  }

  lemma {:induction false} NotZero(s: string)
    requires s != [] && IsNumeral(s, 10) && s[0] != '0'
    ensures Read(s, 10) > 0
  {
    if |s| > 1 {
      NotZero(s[..|s| - 1]);
    }
  }

  lemma {:induction false} DecimalLength(n: nat, k: nat)
    requires n < Power(10, k) && k > 0
    ensures |Decimal(n)| <= k
  {
    if n >= 10 {
      assert Power(10, k) == 10 * Power(10, k - 1);
      assert k > 1;
      DecimalLength(n / 10, k - 1);
    }
  }

  /** The digits of n without the digit 0 that stands for zero. */
  function Digits(n: nat): string {
    if n == 0 then [] else Decimal(n)
  }

  /** n has at most k digits. */
  ghost predicate Fits(n: nat, k: nat) {
    n < Power(10, k)
  }

  lemma FewerDigits(n: nat, k: nat)
    requires 0 < n && Fits(n, k)
    ensures k > 0 && Fits(n / 10, k - 1)
  {
    if k > 0 {
      assert Power(10, k) == 10 * Power(10, k - 1);
    }
  }

  /** One step of a division loop that runs until n is 0. */
  lemma LastOfDigits(n: nat, tail: string)
    requires n > 0
    ensures Digits(n) + tail == Digits(n / 10) + ([DigitChar(n % 10)] + tail)
  {
    hide DigitChar;
    Appended(Digits(n / 10), DigitChar(n % 10), tail);
    if n < 10 {
      assert [] + [DigitChar(n)] == [DigitChar(n)];
    }
  }

  lemma Appended(s: string, c: char, tail: string)
    ensures (s + [c]) + tail == s + ([c] + tail)
  {
  }

  lemma TenDigits()
    ensures Power(10, 10) >= U32_SIZE && Power(10, 20) >= U64_SIZE
  {
    assert Power(10, 10) == 10_000_000_000;
    assert Power(10, 20) == 10_000_000_000 * 10_000_000_000;
  }

  lemma IntegersFit(n: nat)
    ensures n < U32_SIZE ==> Fits(n, 10)
    ensures n < U64_SIZE ==> Fits(n, 20)
  {
    TenDigits();
  }

  /** Signed numerals: a minus sign before the digits of the absolute value. */
  function SignedDecimal(n: int): string {
    if n < 0 then "-" + Decimal(-n) else Decimal(n)
  }

  function ReadSigned(s: string): int {
    if s != [] && s[0] == '-' then -(Read(s[1..], 10) as int) else Read(s, 10) as int
  }

  lemma SignedReadsBack(n: int)
    ensures ReadSigned(SignedDecimal(n)) == n
  {
    if n < 0 {
      DecimalReadsBack(-n);
      assert ("-" + Decimal(-n))[1..] == Decimal(-n);
    } else {
      DecimalReadsBack(n);
    }
  }

  /** A sign only in front of a number other than zero, and then a decimal numeral. */
  ghost predicate IsSignedDecimal(s: string) {
    if s != [] && s[0] == '-' then IsDecimal(s[1..]) && s[1..] != "0" else IsDecimal(s)
  }

  /** The signed numeral is the only one of that form that reads back as the number. */
  lemma SignedExactly(s: string, n: int)
    ensures s == SignedDecimal(n) <==> IsSignedDecimal(s) && ReadSigned(s) == n
  {
    hide Decimal, Read;
    if s != [] && s[0] == '-' {
      assert s == "-" + s[1..];
      ZeroOnly(s[1..]);
      SignTaken(s[1..], n);
    } else {
      NoSign(s, n);
    }
  }

  lemma ZeroOnly(s: string)
    ensures s == "0" <==> IsDecimal(s) && Read(s, 10) == 0
  {
    DecimalExactly(s, 0);
    SingleDigit(0);
  }

  lemma SignTaken(s: string, n: int)
    ensures "-" + s == SignedDecimal(n) <==> n < 0 && s == Decimal(-n)
    ensures n < 0 ==> (s == Decimal(-n) <==> IsDecimal(s) && Read(s, 10) == -n)
  {
    if n < 0 {
      DecimalExactly(s, -n);
      assert ("-" + s)[1..] == s && ("-" + Decimal(-n))[1..] == Decimal(-n);
    } else {
      DecimalReadsBack(n);
      assert ("-" + s)[0] == '-';
    }
  }

  lemma NoSign(s: string, n: int)
    requires s == [] || s[0] != '-'
    ensures s == SignedDecimal(n) <==> n >= 0 && IsDecimal(s) && Read(s, 10) == n
  {
    if n < 0 {
      assert SignedDecimal(n)[0] == '-';
    } else {
      DecimalExactly(s, n);
    }
  }

  /** The minus sign is there exactly for negative numbers, and every 32-bit number has at most ten digits. */
  lemma SignAndLength(n: i32)
    ensures SignedDecimal(n) != [] && (SignedDecimal(n)[0] == '-' <==> n < 0)
    ensures |SignedDecimal(n)| <= if n < 0 then 11 else 10
  {
    hide Decimal;
    TenDigits();
    hide Power;
    if n < 0 {
      DecimalLength(-(n as int), 10);
    } else {
      DecimalLength(n, 10);
      DecimalReadsBack(n);
    }
  }
}
