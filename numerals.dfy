/**
 * Decimal numerals as the converter produces and reads them: fmt's `%v` of a
 * non-negative int (generated column names and duplicate counters) and
 * strconv.Atoi on a 64-bit platform (array indices in header segments).
 */
module Numerals {

  const MaxInt64: int := 0x7FFF_FFFF_FFFF_FFFF
  const MinInt64: int := -0x8000_0000_0000_0000
  const MaxUint64: nat := 0xFFFF_FFFF_FFFF_FFFF
  /** ParseUint's overflow threshold in base 10: an accumulator this large cannot take one more digit. */
  const Cutoff: nat := MaxUint64 / 10 + 1

  predicate IsDigit(c: char) { '0' <= c <= '9' }

  function DigitValue(c: char): (d: nat)
    requires IsDigit(c)
    ensures d < 10
  {
    c as int - '0' as int
  }

  function DigitChar(d: nat): (c: char)
    requires d < 10
    ensures IsDigit(c) && DigitValue(c) == d
  {
    ('0' as int + d) as char
  }

  /** The decimal text of n, most significant digit first, without leading zeros. */
  function Decimal(n: nat): (s: string)
    ensures |s| >= 1
    ensures forall i :: 0 <= i < |s| ==> IsDigit(s[i])
    ensures s[0] == '0' ==> n == 0
  {
    if n < 10 then [DigitChar(n)] else Decimal(n / 10) + [DigitChar(n % 10)]
  }

  /** Outcome of ParseUint's digit loop. */
  datatype UintScan = SyntaxError | RangeError | Parsed(n: nat)

  /** ParseUint's loop in base 10, continuing from accumulator acc over the rest s. */
  function ScanUint(acc: nat, s: string): (r: UintScan)
    requires acc <= MaxUint64
    ensures r.Parsed? ==> acc <= r.n <= MaxUint64
    decreases |s|
  {
    if |s| == 0 then Parsed(acc)
    else if !IsDigit(s[0]) then SyntaxError
    else if acc >= Cutoff then RangeError
    else if acc * 10 + DigitValue(s[0]) > MaxUint64 then RangeError
    else ScanUint(acc * 10 + DigitValue(s[0]), s[1..])
  }

  /** strconv.ParseUint in base 10: text it accepts is a non-empty run of digits whose value fits 64 bits. */
  function ParseUint(s: string): (r: UintScan)
    ensures r.Parsed? ==> |s| >= 1 && r.n <= MaxUint64
  {
    if |s| == 0 then SyntaxError else ScanUint(0, s)
  }

  /** The value of a run of digits, most significant first; leading zeros add nothing. */
  function DigitsValue(s: string): nat
    requires forall i :: 0 <= i < |s| ==> IsDigit(s[i])
  {
    if |s| == 0 then 0 else 10 * DigitsValue(s[..|s| - 1]) + DigitValue(s[|s| - 1])
  }

  function Pow10(k: nat): (p: nat)
    ensures p >= 1
  {
    if k == 0 then 1 else 10 * Pow10(k - 1)
  }

  /**
   * strconv.Atoi with a 64-bit int, keeping only the value (the converter
   * drops the error): 0 after a syntax error, the int64 bound on overflow.
   */
  function Atoi(s: string): (n: int)
    ensures MinInt64 <= n <= MaxInt64
  {
    if |s| == 0 then 0
    else
      var neg := s[0] == '-';
      var digits := if s[0] == '-' || s[0] == '+' then s[1..] else s;
      match ParseUint(digits)
      case SyntaxError => 0
      case RangeError => if neg then MinInt64 else MaxInt64
      case Parsed(u) =>
        if !neg && u > MaxInt64 then MaxInt64
        else if neg && u > -MinInt64 then MinInt64
        else if neg then -(u as int) else u
  }

  /** Appending one digit to a text: the loop either failed already or takes one more step. */
  lemma {:induction false} ScanUintSnoc(acc: nat, s: string, d: char)
    requires acc <= MaxUint64 && IsDigit(d)
    ensures ScanUint(acc, s + [d]) ==
      match ScanUint(acc, s)
      case Parsed(m) =>
        if m >= Cutoff || m * 10 + DigitValue(d) > MaxUint64 then RangeError
        else Parsed(m * 10 + DigitValue(d))
      case failure => failure
    decreases |s|
  {
    if |s| == 0 {
      assert s + [d] == [d];
      assert ([d])[1..] == [];
    } else {
      assert (s + [d])[0] == s[0];
      if IsDigit(s[0]) && acc < Cutoff && acc * 10 + DigitValue(s[0]) <= MaxUint64 {
        assert (s + [d])[1..] == s[1..] + [d];
        ScanUintSnoc(acc * 10 + DigitValue(s[0]), s[1..], d);
      }
    }
  }

  /** The rendered text of n reads back as n when it fits 64 bits and as a range error otherwise. */
  lemma {:induction false} ScanDecimal(n: nat)
    ensures ScanUint(0, Decimal(n)) == if n <= MaxUint64 then Parsed(n) else RangeError
  {
    if n < 10 {
      assert Decimal(n)[1..] == [];
    } else {
      ScanDecimal(n / 10);
      ScanUintSnoc(0, Decimal(n / 10), DigitChar(n % 10));
      assert n == n / 10 * 10 + n % 10;
    }
  }

  /** On a run of digits the loop yields the run's value, or a range error when that value exceeds 64 bits. */
  lemma {:induction false} ScanDigits(s: string)
    requires forall i :: 0 <= i < |s| ==> IsDigit(s[i])
    ensures ScanUint(0, s) == if DigitsValue(s) <= MaxUint64 then Parsed(DigitsValue(s)) else RangeError
    decreases |s|
  {
    if |s| > 0 {
      var init, last := s[..|s| - 1], s[|s| - 1];
      ScanDigits(init);
      assert init + [last] == s;
      ScanUintSnoc(0, init, last);
    }
  }

  lemma {:induction false} Pow10Monotone(a: nat, b: nat)
    requires a <= b
    ensures Pow10(a) <= Pow10(b)
    decreases b
  {
    if a < b {
      Pow10Monotone(a, b - 1);
    }
  }

  /** Text the loop accepts holds only digits. */
  lemma {:induction false} ScanUintDigits(acc: nat, s: string)
    requires acc <= MaxUint64 && ScanUint(acc, s).Parsed?
    ensures forall i :: 0 <= i < |s| ==> IsDigit(s[i])
    decreases |s|
  {
    if |s| > 0 {
      ScanUintDigits(acc * 10 + DigitValue(s[0]), s[1..]);
      assert forall i :: 1 <= i < |s| ==> s[i] == s[1..][i - 1];
    }
  }

  /** ParseUint accepts exactly the non-empty runs of digits whose value fits 64 bits, and yields that value. */
  lemma ParseUintAccepts(s: string)
    ensures ParseUint(s).Parsed? <==>
      |s| >= 1 && (forall i :: 0 <= i < |s| ==> IsDigit(s[i])) && DigitsValue(s) <= MaxUint64
    ensures ParseUint(s).Parsed? ==>
      (forall i :: 0 <= i < |s| ==> IsDigit(s[i])) && ParseUint(s).n == DigitsValue(s)
  {
    if ParseUint(s).Parsed? {
      ScanUintDigits(0, s);
      ScanDigits(s);
    } else if |s| >= 1 && (forall i :: 0 <= i < |s| ==> IsDigit(s[i])) {
      ScanDigits(s);
    }
  }

  lemma Pow10Wide()
    ensures Pow10(18) == 1_000_000_000_000_000_000
    ensures Pow10(19) == 10_000_000_000_000_000_000
  {
    assert Pow10(6) == 1_000_000;
    assert Pow10(12) == 1_000_000_000_000;
  }

  /**
   * Nineteen digits cannot overflow 64 bits, so on a text that short the
   * loop fails only at a non-digit.
   */
  lemma {:induction false} ScanShort(acc: nat, t: string)
    requires acc <= MaxUint64
    requires |t| <= 19 && acc < Pow10(19 - |t|)
    ensures ScanUint(acc, t) != RangeError
    ensures (exists i :: 0 <= i < |t| && !IsDigit(t[i])) ==> ScanUint(acc, t) == SyntaxError
    decreases |t|
  {
    if |t| > 0 && IsDigit(t[0]) {
      var k := 19 - |t|;
      Pow10Wide();
      Pow10Monotone(k, 18);
      var next := acc * 10 + DigitValue(t[0]);
      assert next < Pow10(k + 1);
      Pow10Monotone(k + 1, 19);
      ScanShort(next, t[1..]);
      if exists i :: 0 <= i < |t| && !IsDigit(t[i]) {
        var j :| 0 <= j < |t| && !IsDigit(t[j]);
        assert t[1..][j - 1] == t[j];
      }
    }
  }

  /** Reading back a rendered index gives the index: Decimal and Atoi are inverse on int64. */
  lemma AtoiDecimal(n: nat)
    requires n <= MaxInt64
    ensures Atoi(Decimal(n)) == n
  {
    ScanDecimal(n);
  }

  /** A minus sign before a rendered number negates it, down to the int64 minimum. */
  lemma AtoiNegatedDecimal(n: nat)
    requires n <= -MinInt64
    ensures Atoi("-" + Decimal(n)) == -(n as int)
  {
    ScanDecimal(n);
    assert ("-" + Decimal(n))[1..] == Decimal(n);
  }

  /**
   * A run of digits, with or without a leading `+`, reads as its value
   * (leading zeros allowed) up to the int64 maximum and saturates beyond it;
   * with a leading `-` it reads as the negated value down to the int64 minimum.
   */
  lemma AtoiDigits(s: string)
    requires |s| >= 1 && forall i :: 0 <= i < |s| ==> IsDigit(s[i])
    ensures var v := DigitsValue(s);
      && Atoi(s) == (if v <= MaxInt64 then v else MaxInt64)
      && Atoi("+" + s) == Atoi(s)
      && Atoi("-" + s) == (if v <= -MinInt64 then -(v as int) else MinInt64)
  {
    ScanDigits(s);
    assert ("+" + s)[1..] == s && ("-" + s)[1..] == s;
  }

  /** At most nineteen characters after the optional sign, and none of them or not all of them digits. */
  predicate Malformed(s: string) {
    var digits := if |s| > 0 && (s[0] == '-' || s[0] == '+') then s[1..] else s;
    |digits| <= 19 && (|digits| == 0 || exists i :: 0 <= i < |digits| && !IsDigit(digits[i]))
  }

  /**
   * Text whose part after the optional sign is empty or holds a non-digit is
   * a syntax error, which reads as 0; up to nineteen characters no range
   * error can come before it.
   */
  lemma AtoiSyntaxError(s: string)
    requires Malformed(s)
    ensures Atoi(s) == 0
  {
    if |s| > 0 {
      var digits := if s[0] == '-' || s[0] == '+' then s[1..] else s;
      if |digits| > 0 {
        ScanShort(0, digits);
      }
    }
  }

  /** A number beyond the int64 range reads as the bound on its side, whether or not it fits 64 bits. */
  lemma AtoiSaturates(n: nat)
    ensures n > MaxInt64 ==> Atoi(Decimal(n)) == MaxInt64
    ensures n > -MinInt64 ==> Atoi("-" + Decimal(n)) == MinInt64
  {
    ScanDecimal(n);
    assert ("-" + Decimal(n))[1..] == Decimal(n);
  }

  /** Text with no digit after its optional sign is a syntax error, which reads as 0. */
  lemma AtoiNoDigits(s: string)
    requires forall i :: 0 <= i < |s| ==> !IsDigit(s[i])
    ensures Atoi(s) == 0
  {
  }

  /** Decimal never yields the same text for two numbers. */
  lemma DecimalInjective(n: nat, m: nat)
    requires n <= MaxInt64 && m <= MaxInt64
    requires Decimal(n) == Decimal(m)
    ensures n == m
  {
    AtoiDecimal(n);
    AtoiDecimal(m);
  }
}
