/**
 * Decimal notation of integers: the text `to_string` produces and the string constructor
 * reads, written as reference definitions on unbounded integers.
 */
module DecimalNotation {
  import opened Arith

  predicate IsDigit(c: char) { '0' <= c <= '9' }

  predicate AllDigits(s: string) { forall i :: 0 <= i < |s| ==> IsDigit(s[i]) }

  /** `str[i] - '0'`. */
  function DigitValue(c: char): (d: nat)
    requires IsDigit(c)
    ensures d < 10
  {
    c as int - '0' as int
  }

  /** `'0' + d`. */
  function DigitChar(d: nat): (c: char)
    requires d < 10
    ensures IsDigit(c) && DigitValue(c) == d
  {
    ('0' as int + d) as char
  }

  /** The number a string of digits denotes, read most significant digit first. */
  function ParseDigits(s: string): nat
    requires AllDigits(s)
    decreases |s|
  {
    if s == [] then 0 else 10 * ParseDigits(s[..|s| - 1]) + DigitValue(s[|s| - 1])
  }

  /** Reading one more digit multiplies by ten and adds it. */
  lemma ParseStep(s: string, k: nat)
    requires AllDigits(s) && k < |s|
    ensures ParseDigits(s[..k + 1]) == 10 * ParseDigits(s[..k]) + DigitValue(s[k])
  {
    assert s[..k + 1][..k] == s[..k];
  }

  /** The digits of n, most significant first, with no leading zero ("0" for zero). */
  function Decimal(n: nat): string
    decreases n
  {
    if n < 10 then [DigitChar(n)] else Decimal(n / 10) + [DigitChar(n % 10)]
  }

  /** The usual decimal form of an integer: a '-' for negatives, then the digits of |v|. */
  function Render(v: int): string
  {
    (if v < 0 then "-" else "") + Decimal(Abs(v))
  }

  /** The digits of x without the "0" of zero: what is left to print while x is not zero. */
  function SignificantDigits(x: nat): string
  {
    if x == 0 then "" else Decimal(x)
  }

  lemma SignificantStep(x: nat)
    requires x > 0
    ensures SignificantDigits(x) == SignificantDigits(x / 10) + [DigitChar(x % 10)]
  {
  }

  /** What the string constructor accepts: an optional '-' followed by digits. */
  predicate WellFormed(s: string)
  {
    |s| >= 1 && AllDigits(Digits(s))
  }

  /** The digit part of s: everything after a leading '-'. */
  function Digits(s: string): (r: string)
    requires |s| >= 1
    ensures r == s || (s[0] == '-' && r == s[1..])
  {
    if s[0] == '-' then s[1..] else s
  }

  /** The integer a well-formed string denotes. */
  function Parse(s: string): int
    requires WellFormed(s)
  {
    var m: int := ParseDigits(Digits(s));
    if s[0] == '-' then -m else m
  }

  /** std::reverse. */
  function Reverse(s: string): (r: string)
    ensures |r| == |s|
    ensures forall i :: 0 <= i < |s| ==> r[i] == s[|s| - 1 - i]
    decreases |s|
  {
    if s == [] then [] else Reverse(s[1..]) + [s[0]]
  }

  lemma ReverseAppend(s: string, c: char)
    ensures Reverse(s + [c]) == [c] + Reverse(s)
  {
    var l, r := Reverse(s + [c]), [c] + Reverse(s);
    assert |l| == |r|;
    forall i | 0 <= i < |l|
      ensures l[i] == r[i]
    {
      if i > 0 {
        assert (s + [c])[|s| - i] == s[|s| - 1 - (i - 1)];
      }
    }
  }

  /** Decimal(n) consists of digits, starts with a non-zero digit unless n is 0, and is "0" for 0. */
  lemma {:induction false} DecimalShape(n: nat)
    ensures |Decimal(n)| >= 1 && AllDigits(Decimal(n))
    ensures Decimal(n)[0] == '0' <==> n == 0
    ensures n == 0 ==> Decimal(n) == "0"
    decreases n
  {
    if n >= 10 {
      DecimalShape(n / 10);
      assert Decimal(n)[0] == Decimal(n / 10)[0];
    }
  }

  /** Reading back the digits of n gives n. */
  lemma {:induction false} ParseDecimal(n: nat)
    ensures AllDigits(Decimal(n)) && ParseDigits(Decimal(n)) == n
    decreases n
  {
    DecimalShape(n);
    var s := Decimal(n);
    if n < 10 {
      assert s[..0] == [];
    } else {
      ParseDecimal(n / 10);
      assert s[..|s| - 1] == Decimal(n / 10);
    }
  }

  /** A digit string without a leading zero is the decimal form of the number it denotes. */
  lemma {:induction false} DecimalParse(s: string)
    requires |s| >= 1 && AllDigits(s) && (s[0] != '0' || s == "0")
    ensures Decimal(ParseDigits(s)) == s
    decreases |s|
  {
    var t := s[..|s| - 1];
    if |s| == 1 {
      assert t == [];
    } else {
      DecimalParse(t);
      var p := ParseDigits(t);
      DecimalShape(p);
      assert p > 0;
      DivAddMultiple(DigitValue(s[|s| - 1]), p, 10);
      assert s == t + [s[|s| - 1]];
    }
  }

  /**
   * Render(v) is "0" for zero, starts with '-' exactly for negatives, has no leading zero in
   * its digits, and reads back as v.
   */
  lemma RenderRoundTrip(v: int)
    ensures v == 0 ==> Render(v) == "0"
    ensures Render(v)[0] == '-' <==> v < 0
    ensures WellFormed(Render(v)) && Parse(Render(v)) == v
    ensures |Digits(Render(v))| >= 1 && (Digits(Render(v))[0] == '0' <==> v == 0)
  {
    var r := Render(v);
    DecimalShape(Abs(v));
    ParseDecimal(Abs(v));
    if v < 0 {
      assert r[1..] == Decimal(Abs(v));
    } else {
      assert r == Decimal(Abs(v)) && IsDigit(r[0]);
    }
  }

  /** A well-formed string with at least one digit, no leading zero and not "-0". */
  predicate CanonicalSpelling(s: string)
  {
    WellFormed(s) && |Digits(s)| >= 1 && (Digits(s)[0] != '0' || Digits(s) == "0") && s != "-0"
  }

  /** Parse is onto the canonical spellings: each one renders back to itself. */
  lemma ParseRoundTrip(s: string)
    requires CanonicalSpelling(s)
    ensures Render(Parse(s)) == s
  {
    var d := Digits(s);
    DecimalParse(d);
    if s[0] == '-' {
      DecimalShape(ParseDigits(d));
      assert s == "-" + d;
    }
  }
}
