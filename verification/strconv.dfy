/** Go's `strconv.Atoi` on a 64-bit platform, which the port parser uses as
    its sort key, proved against decimal formatting. */
module Strconv {

  const MaxUint64: nat := 0xFFFF_FFFF_FFFF_FFFF
  const MaxInt64: int := 0x7FFF_FFFF_FFFF_FFFF
  const MinInt64: int := -0x8000_0000_0000_0000

  predicate IsDigit(c: char)
  {
    '0' <= c <= '9'
  }

  predicate AllDigits(s: string)
  {
    forall k :: 0 <= k < |s| ==> IsDigit(s[k])
  }

  function DigitValue(c: char): nat
    requires IsDigit(c)
  {
    c as int - '0' as int
  }

  function DigitChar(d: nat): char
    requires d < 10
  {
    ('0' as int + d) as char
  }

  function Pow10(n: nat): nat
  {
    if n == 0 then 1 else 10 * Pow10(n - 1)
  }

  /** The value of a string of decimal digits (the empty string is 0). */
  function DecimalValue(s: string): nat
    requires AllDigits(s)
  {
    if s == [] then 0 else DecimalValue(s[..|s| - 1]) * 10 + DigitValue(s[|s| - 1])
  }

  /** `strconv.Itoa` for non-negative numbers: digits without leading zeros. */
  function Itoa(n: nat): string
  {
    if n < 10 then [DigitChar(n)] else Itoa(n / 10) + [DigitChar(n % 10)]
  }

  /** A decimal numeral as `Itoa` writes it: digits, no leading zero. */
  predicate IsCanonicalDecimal(s: string)
  {
    |s| >= 1 && AllDigits(s) && (s[0] == '0' ==> |s| == 1)
  }

  /** A signed decimal numeral as `Atoi` accepts it: an optional sign and at
      least one digit. */
  predicate IsIntegerSyntax(s: string)
  {
    if s != [] && (s[0] == '+' || s[0] == '-') then |s| >= 2 && AllDigits(s[1..])
    else |s| >= 1 && AllDigits(s)
  }

  /** How the digit loop of `strconv.ParseUint` ends: a character that is not
      a digit, a value past 2^64 - 1 (reported as soon as it happens, before
      the rest of the string is looked at), or the value. */
  datatype Magnitude = SyntaxError | RangeError | Parsed(value: nat)

  function ParseMagnitude(s: string, acc: nat): Magnitude
    requires acc <= MaxUint64
    decreases |s|
  {
    if s == [] then Parsed(acc)
    else if !IsDigit(s[0]) then SyntaxError
    else
      var n := acc * 10 + DigitValue(s[0]);
      if n > MaxUint64 then RangeError else ParseMagnitude(s[1..], n)
  }

  /** `strconv.Atoi(s)` with its error dropped, as the sort comparator uses
      it: a malformed string gives 0, an out-of-range one the nearest 64-bit
      bound. */
  function Atoi(s: string): (n: int)
    ensures MinInt64 <= n <= MaxInt64
    ensures !IsIntegerSyntax(s) && |s| < 19 ==> n == 0
  {
    if s == [] then 0
    else
      var negative := s[0] == '-';
      var digits := if s[0] == '-' || s[0] == '+' then s[1..] else s;
      if digits == [] then 0
      else
        ParseRejects(digits);
        match ParseMagnitude(digits, 0)
        case SyntaxError => 0
        case RangeError => if negative then MinInt64 else MaxInt64
        case Parsed(u) =>
          if negative then (if u > -MinInt64 then MinInt64 else -(u as int))
          else (if u > MaxInt64 then MaxInt64 else u)
  }

  /** Text whose first character after an optional sign is not a digit
      reads as 0, whatever its length: the digit loop stops on that
      character before it can overflow. */
  lemma AtoiOfNonNumeral(s: string)
    ensures s != [] && !IsDigit(s[0]) && s[0] != '+' && s[0] != '-' ==> Atoi(s) == 0
    ensures |s| >= 2 && (s[0] == '+' || s[0] == '-') && !IsDigit(s[1]) ==> Atoi(s) == 0
  {
    if |s| >= 2 && (s[0] == '+' || s[0] == '-') {
      assert s[1..][0] == s[1];
    }
  }

  lemma {:induction false} Pow10Monotone(a: nat, b: nat)
    requires a <= b
    ensures Pow10(a) <= Pow10(b)
  {
    if a < b {
      Pow10Monotone(a, b - 1);
    }
  }

  lemma Pow10Of19()
    ensures Pow10(19) == 10_000_000_000_000_000_000
  {
    assert Pow10(0) == 1;
    assert Pow10(1) == 10;
    assert Pow10(2) == 100;
    assert Pow10(3) == 1000;
    assert Pow10(4) == 10_000;
    assert Pow10(5) == 100_000;
    assert Pow10(6) == 1_000_000;
    assert Pow10(7) == 10_000_000;
    assert Pow10(8) == 100_000_000;
    assert Pow10(9) == 1_000_000_000;
    assert Pow10(10) == 10_000_000_000;
    assert Pow10(11) == 100_000_000_000;
    assert Pow10(12) == 1_000_000_000_000;
    assert Pow10(13) == 10_000_000_000_000;
    assert Pow10(14) == 100_000_000_000_000;
    assert Pow10(15) == 1_000_000_000_000_000;
    assert Pow10(16) == 10_000_000_000_000_000;
    assert Pow10(17) == 100_000_000_000_000_000;
    assert Pow10(18) == 1_000_000_000_000_000_000;
  }

  /** With fewer than 19 characters the digit loop cannot overflow, so a
      string with a non-digit in it is a syntax error. */
  lemma {:induction false} ParseRejectsFrom(s: string, acc: nat)
    requires |s| <= 19 && acc < Pow10(19 - |s|)
    requires !AllDigits(s)
    ensures acc <= MaxUint64 && ParseMagnitude(s, acc) == SyntaxError
  {
    Pow10Monotone(19 - |s|, 19);
    Pow10Of19();
    if IsDigit(s[0]) {
      var n := acc * 10 + DigitValue(s[0]);
      assert Pow10(19 - |s[1..]|) == 10 * Pow10(19 - |s|);
      assert !AllDigits(s[1..]) by {
        var k :| 0 <= k < |s| && !IsDigit(s[k]);
        assert k != 0 && s[1..][k - 1] == s[k];
      }
      ParseRejectsFrom(s[1..], n);
    }
  }

  lemma ParseRejects(digits: string)
    ensures |digits| < 19 && !AllDigits(digits) ==> ParseMagnitude(digits, 0) == SyntaxError
  {
    if |digits| < 19 && !AllDigits(digits) {
      Pow10Monotone(0, 19 - |digits|);
      ParseRejectsFrom(digits, 0);
    }
  }

  lemma {:induction false} DecimalPrefixMonotone(p: string, q: string)
    requires AllDigits(p + q)
    ensures AllDigits(p) && DecimalValue(p) <= DecimalValue(p + q)
  {
    assert forall k :: 0 <= k < |p| ==> p[k] == (p + q)[k];
    if q != [] {
      var q' := q[..|q| - 1];
      assert (p + q)[..|p + q| - 1] == p + q';
      DecimalPrefixMonotone(p, q');
    } else {
      assert p + q == p;
    }
  }

  /** The digit loop, started on the value of the digits already read,
      reaches the value of the whole numeral when that fits in 64 bits. */
  lemma {:induction false} ParseDigits(read: string, s: string)
    requires AllDigits(read + s)
    requires DecimalValue(read + s) <= MaxUint64
    ensures AllDigits(read) && DecimalValue(read) <= MaxUint64
    ensures ParseMagnitude(s, DecimalValue(read)) == Parsed(DecimalValue(read + s))
    decreases |s|
  {
    DecimalPrefixMonotone(read, s);
    if s == [] {
      assert read + s == read;
    } else {
      var read' := read + [s[0]];
      assert read + s == read' + s[1..];
      assert IsDigit(s[0]) by { assert s[0] == (read + s)[|read|]; }
      assert read'[..|read'| - 1] == read;
      DecimalPrefixMonotone(read', s[1..]);
      ParseDigits(read', s[1..]);
    }
  }

  /** What `Atoi` makes of the digit loop's outcome on an unsigned numeral. */
  lemma AtoiUnsigned(s: string)
    requires |s| >= 1 && IsDigit(s[0])
    ensures ParseMagnitude(s, 0) == RangeError ==> Atoi(s) == MaxInt64
    ensures ParseMagnitude(s, 0).Parsed? ==>
      Atoi(s) == (if ParseMagnitude(s, 0).value > MaxInt64 then MaxInt64 else ParseMagnitude(s, 0).value)
  {
    assert s[0] != '-' && s[0] != '+';
  }

  /** What `Atoi` makes of the digit loop's outcome after a minus sign. */
  lemma AtoiNegative(s: string)
    requires |s| >= 1
    ensures ParseMagnitude(s, 0) == RangeError ==> Atoi("-" + s) == MinInt64
    ensures ParseMagnitude(s, 0).Parsed? ==>
      Atoi("-" + s) == (if ParseMagnitude(s, 0).value > -MinInt64 then MinInt64 else -(ParseMagnitude(s, 0).value as int))
  {
    var t := "-" + s;
    assert t[0] == '-' && t[1..] == s;
  }

  /** A string of digits whose value fits in a 64-bit int reads as that value. */
  lemma AtoiOfDigits(s: string)
    requires |s| >= 1 && AllDigits(s) && DecimalValue(s) <= MaxInt64
    ensures Atoi(s) == DecimalValue(s)
  {
    assert [] + s == s;
    ParseDigits([], s);
    assert DecimalValue([]) == 0;
    AtoiUnsigned(s);
  }

  /** The digit loop on a string of digits either reports overflow or
      reaches the numeral's value. */
  lemma {:induction false} ParseDigitsOrOverflow(read: string, s: string)
    requires AllDigits(read + s) && AllDigits(read)
    requires DecimalValue(read) <= MaxUint64
    ensures var m := ParseMagnitude(s, DecimalValue(read));
      m == RangeError || m == Parsed(DecimalValue(read + s))
    decreases |s|
  {
    DecimalPrefixMonotone(read, s);
    if s == [] {
      assert read + s == read;
    } else {
      var read' := read + [s[0]];
      assert read + s == read' + s[1..];
      assert IsDigit(s[0]) by { assert s[0] == (read + s)[|read|]; }
      assert read'[..|read'| - 1] == read;
      DecimalPrefixMonotone(read', s[1..]);
      if DecimalValue(read') <= MaxUint64 {
        ParseDigitsOrOverflow(read', s[1..]);
      }
    }
  }

  /** A plus sign before text that does not itself start with a sign
      changes nothing: the same digits are read the same way. */
  lemma AtoiPlusSign(s: string)
    requires s != [] && s[0] != '+' && s[0] != '-'
    ensures Atoi("+" + s) == Atoi(s)
  {
    var t := "+" + s;
    assert t[0] == '+' && t[1..] == s;
  }

  /** A numeral too large for a 64-bit int reads as the nearest bound:
      2^63 - 1 without a sign, -2^63 after a minus sign. */
  lemma AtoiClampsOverflow(s: string)
    requires |s| >= 1 && AllDigits(s)
    ensures DecimalValue(s) > MaxInt64 ==> Atoi(s) == MaxInt64
    ensures DecimalValue(s) > -MinInt64 ==> Atoi("-" + s) == MinInt64
  {
    assert [] + s == s;
    assert AllDigits([]);
    ParseDigitsOrOverflow([], s);
    assert DecimalValue([]) == 0;
    AtoiUnsigned(s);
    AtoiNegative(s);
  }

  /** A minus sign before a numeral that fits negates its value. */
  lemma AtoiOfNegative(s: string)
    requires |s| >= 1 && AllDigits(s) && DecimalValue(s) <= -MinInt64
    ensures Atoi("-" + s) == -(DecimalValue(s) as int)
  {
    assert [] + s == s;
    ParseDigits([], s);
    assert DecimalValue([]) == 0;
    AtoiNegative(s);
  }

  lemma {:induction false} ItoaIsCanonical(n: nat)
    ensures IsCanonicalDecimal(Itoa(n))
    ensures DecimalValue(Itoa(n)) == n
    ensures n > 0 ==> Itoa(n)[0] != '0'
  {
    if n >= 10 {
      ItoaIsCanonical(n / 10);
      var x := Itoa(n / 10);
      var s := x + [DigitChar(n % 10)];
      assert s[..|s| - 1] == x;
      assert s[0] == x[0];
    }
  }

  lemma {:induction false} LeadingDigitPositive(s: string)
    requires |s| >= 1 && AllDigits(s) && s[0] != '0'
    ensures DecimalValue(s) >= 1
  {
    if |s| > 1 {
      var p := s[..|s| - 1];
      assert p[0] == s[0];
      LeadingDigitPositive(p);
    }
  }

  /** Formatting undoes reading on canonical numerals. */
  lemma {:induction false} ItoaOfDecimal(s: string)
    requires IsCanonicalDecimal(s)
    ensures Itoa(DecimalValue(s)) == s
  {
    if |s| > 1 {
      var p := s[..|s| - 1];
      assert p[0] == s[0];
      LeadingDigitPositive(p);
      ItoaOfDecimal(p);
      assert s == p + [s[|s| - 1]];
    }
  }

  /** `Atoi` reads back what `Itoa` writes, for every non-negative int. */
  lemma AtoiItoa(n: nat)
    requires n <= MaxInt64
    ensures Atoi(Itoa(n)) == n
  {
    ItoaIsCanonical(n);
    AtoiOfDigits(Itoa(n));
  }

  /** Two different canonical numerals that fit in a 64-bit int have
      different `Atoi` values. */
  lemma AtoiInjective(a: string, b: string)
    requires IsCanonicalDecimal(a) && DecimalValue(a) <= MaxInt64
    requires IsCanonicalDecimal(b) && DecimalValue(b) <= MaxInt64
    requires Atoi(a) == Atoi(b)
    ensures a == b
  {
    AtoiOfDigits(a);
    AtoiOfDigits(b);
    ItoaOfDecimal(a);
    ItoaOfDecimal(b);
  }
}
