/** intToStr, the decimal serializer shared by the calculator server (server.c:90-115) and
    its client (client.c:142-167, the same text): 0 is written "0", a positive number its
    decimal digits most significant first, and a negative number nothing at all, because the
    digit loop only runs while the number is positive. The digits are collected least
    significant first in a ten-character buffer and copied out reversed. */
module IntText {

  /** The character of decimal digit d. */
  function DigitChar(d: nat): char
    requires d < 10
  {
    (('0' as int) + d) as char
  }

  predicate IsDigit(c: char)
  {
    '0' <= c <= '9'
  }

  function DigitValue(c: char): nat
    requires IsDigit(c)
  {
    (c as int) - ('0' as int)
  }

  function Pow10(k: nat): nat
  {
    if k == 0 then 1 else 10 * Pow10(k - 1)
  }

  /** Decimal digits of a positive number, most significant first; empty for 0. */
  function Digits(n: nat): string
  {
    if n == 0 then [] else Digits(n / 10) + [DigitChar(n % 10)]
  }

  /** The text intToStr writes for num. */
  function IntStr(num: int): string
  {
    if num == 0 then "0" else if num < 0 then "" else Digits(num)
  }

  /** Value of a string of decimal digits, most significant first. */
  function ParseNat(s: string): nat
    requires forall k :: 0 <= k < |s| ==> IsDigit(s[k])
  {
    if |s| == 0 then 0 else 10 * ParseNat(s[..|s| - 1]) + DigitValue(s[|s| - 1])
  }

  /** A canonical decimal numeral: digits only, and no leading zero unless it is "0". */
  predicate Canonical(s: string)
  {
    && |s| > 0
    && (forall k :: 0 <= k < |s| ==> IsDigit(s[k]))
    && (|s| > 1 ==> s[0] != '0')
  }

  function Rev(s: string): (r: string)
    ensures |r| == |s|
  {
    if |s| == 0 then [] else Rev(s[1..]) + [s[0]]
  }

  lemma {:induction false} RevIndex(s: string, k: nat)
    requires k < |s|
    ensures Rev(s)[k] == s[|s| - 1 - k]
  {
    if k < |s| - 1 {
      RevIndex(s[1..], k);
    }
  }

  lemma RevSnoc(s: string, c: char)
    ensures Rev(s + [c]) == [c] + Rev(s)
  {
    var l, r := Rev(s + [c]), [c] + Rev(s);
    forall k | 0 <= k < |l|
      ensures l[k] == r[k]
    {
      RevIndex(s + [c], k);
      if k > 0 {
        RevIndex(s, k - 1);
      }
    }
  }

  lemma {:induction false} DigitsAreDigits(n: nat)
    ensures forall k :: 0 <= k < |Digits(n)| ==> IsDigit(Digits(n)[k])
  {
    if n > 0 {
      DigitsAreDigits(n / 10);
    }
  }

  /** Parsing the digits back gives the number. */
  lemma {:induction false} ParseDigits(n: nat)
    ensures forall k :: 0 <= k < |Digits(n)| ==> IsDigit(Digits(n)[k])
    ensures ParseNat(Digits(n)) == n
  {
    DigitsAreDigits(n);
    if n > 0 {
      var d := Digits(n);
      assert d[..|d| - 1] == Digits(n / 10);
      ParseDigits(n / 10);
    }
  }

  /** The digits of a positive number do not start with 0. */
  lemma {:induction false} DigitsNoLeadingZero(n: nat)
    requires n > 0
    ensures |Digits(n)| > 0 && Digits(n)[0] != '0'
  {
    if n >= 10 {
      DigitsNoLeadingZero(n / 10);
    }
  }

  /** A positive number has k digits exactly when 10^(k-1) <= n < 10^k. */
  lemma {:induction false} DigitsLength(n: nat)
    requires n > 0
    ensures Pow10(|Digits(n)| - 1) <= n < Pow10(|Digits(n)|)
  {
    if n >= 10 {
      DigitsLength(n / 10);
    }
  }

  /** intToStr's text for every input: "0" for 0, nothing for a negative number, and for a
      positive one a canonical numeral that parses back to it and is as long as its digit
      count. */
  lemma IntStrCases(num: int)
    ensures num == 0 ==> IntStr(num) == "0"
    ensures num < 0 ==> IntStr(num) == ""
    ensures num >= 0 ==> Canonical(IntStr(num)) && ParseNat(IntStr(num)) == num
    ensures num > 0 ==> Pow10(|IntStr(num)| - 1) <= num < Pow10(|IntStr(num)|)
  {
    if num > 0 {
      ParseDigits(num);
      DigitsNoLeadingZero(num);
      DigitsLength(num);
    }
  }

  /** A canonical numeral is the text intToStr writes for its value. */
  lemma {:induction false} CanonicalRoundTrip(s: string)
    requires Canonical(s)
    ensures IntStr(ParseNat(s)) == s
  {
    if |s| == 1 {
      if s[0] != '0' {
        assert s[..0] == [];
        assert Digits(ParseNat(s)) == Digits(0) + [DigitChar(DigitValue(s[0]))];
      }
    } else {
      var init := s[..|s| - 1];
      assert Canonical(init) by {
        assert init[0] == s[0];
      }
      CanonicalRoundTrip(init);
      var n := ParseNat(s);
      PositivePrefix(init);
      assert n / 10 == ParseNat(init) && n % 10 == DigitValue(s[|s| - 1]);
      assert s == init + [s[|s| - 1]];
    }
  }

  /** A canonical numeral of two or more digits has a positive value. */
  lemma {:induction false} PositivePrefix(s: string)
    requires Canonical(s) && s[0] != '0'
    ensures ParseNat(s) > 0
  {
    if |s| > 1 {
      var init := s[..|s| - 1];
      assert init[0] == s[0];
      PositivePrefix(init);
    }
  }

  /** No more than nine digits below 10^9: the bound that keeps intToStr inside its buffer. */
  lemma NineDigits(n: nat)
    requires 0 < n < 1000000000
    ensures |Digits(n)| <= 9
  {
    DigitsLength(n);
    if |Digits(n)| > 9 {
      PowMonotone(9, |Digits(n)| - 1);
    }
  }

  lemma {:induction false} PowMonotone(a: nat, b: nat)
    requires a <= b
    ensures Pow10(a) <= Pow10(b)
  {
    if a < b {
      PowMonotone(a, b - 1);
    }
  }

  /** intToStr as the source runs it: the digits are peeled off least significant first into
      a ten-character buffer (temp), then copied out in reverse. The source's buffer holds
      nine digits and the terminator, so its callers need num < 10^9. */
  method IntToStr(num: int) returns (s: string)
    requires num < 1000000000
    ensures s == IntStr(num)
  {
    if num == 0 {
      return "0";
    }
    var n := num;
    var temp: string := [];
    if num > 0 {
      NineDigits(num);
    }
    while n > 0
      invariant num > 0 ==> 0 <= n && Digits(num) == Digits(n) + Rev(temp)
      invariant num < 0 ==> n == num && temp == []
      decreases if n > 0 then n else 0
    {
      assert |temp| < 10 by {
        assert |Digits(num)| == |Digits(n)| + |temp|;
      }
      RevSnoc(temp, DigitChar(n % 10));
      temp := temp + [DigitChar(n % 10)];
      n := n / 10;
    }
    s := [];
    var j := 0;
    while j < |temp|
      invariant 0 <= j <= |temp|
      invariant s == Rev(temp)[..j]
    {
      RevIndex(temp, j);
      s := s + [temp[|temp| - j - 1]];
      j := j + 1;
    }
    assert s == Rev(temp);
  }
}
