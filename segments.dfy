/**
 * One `.`-separated piece of a header name, split into a key and an
 * optional bracketed array index (arrayContentMatch).
 */
module Segments {
  import opened Results
  import opened Numerals
  import opened Text

  /** The index that marks a segment as a plain key rather than an array segment. */
  const NotArray: int := -1

  /** A parsed segment; `index == NotArray` when it is a plain key. */
  datatype Segment = Segment(key: string, index: int)

  /**
   * The key is the text before the first "[" and the index is Atoi of the
   * text between the first "[" and the first "]"; text after "]" is dropped.
   * Without both brackets the whole text is a plain key. A "]" before the
   * first "[" makes the Go slice expression panic.
   */
  function ParseSegment(s: string): (r: Result<Segment>)
    ensures r.Success? ==> r.value.key <= s
    ensures r.Success? && r.value.index != NotArray ==>
      '[' !in r.value.key && |r.value.key| < |s| && s[|r.value.key|] == '['
    ensures r.Failure? ==> r.error == BracketsReversed(s)
  {
    var i := IndexOf(s, '[');
    if i >= 0 then
      var j := IndexOf(s, ']');
      if j >= 0 then
        if j < i + 1 then Failure(BracketsReversed(s))
        else Success(Segment(s[..i], Atoi(s[i + 1..j])))
      else Success(Segment(s, NotArray))
    else Success(Segment(s, NotArray))
  }

  /** A segment without a "[" or without a "]" is a plain key and keeps its whole text. */
  predicate IsPlain(s: string) {
    '[' !in s || ']' !in s
  }

  lemma ParsePlain(s: string)
    requires IsPlain(s)
    ensures ParseSegment(s) == Success(Segment(s, NotArray))
  {
  }

  /** Parsing fails exactly when both brackets occur and some "]" comes before every "[". */
  lemma ParseFailsIff(s: string)
    ensures ParseSegment(s).Failure? <==>
      ('[' in s && exists p :: 0 <= p < |s| && s[p] == ']' && '[' !in s[..p])
  {
    var i := IndexOf(s, '[');
    var j := IndexOf(s, ']');
    if ParseSegment(s).Failure? {
      assert s[j] == ']' && '[' !in s[..j] by {
        assert forall k :: 0 <= k < j ==> s[..j][k] == s[..i][k];
      }
    }
    if '[' in s && exists p :: 0 <= p < |s| && s[p] == ']' && '[' !in s[..p] {
      var p :| 0 <= p < |s| && s[p] == ']' && '[' !in s[..p];
      assert i >= p by {
        assert forall k :: 0 <= k < p ==> s[..p][k] == s[k];
      }
      assert j <= p by {
        assert forall k :: 0 <= k < j ==> s[..j][k] == s[k];
      }
    }
  }

  /** The array-segment text `key[n]` for a bracket-free key. */
  function FormatArraySegment(key: string, n: nat): string {
    key + "[" + Decimal(n) + "]"
  }

  /** Parsing a formatted array segment recovers its key and index. */
  lemma ParseFormatted(key: string, n: nat)
    requires '[' !in key && ']' !in key
    requires n <= MaxInt64
    ensures ParseSegment(FormatArraySegment(key, n)) == Success(Segment(key, n))
  {
    var d := Decimal(n);
    assert ']' !in d by {
      assert forall k :: 0 <= k < |d| ==> IsDigit(d[k]);
    }
    assert FormatArraySegment(key, n) == key + "[" + d + "]" + "";
    BracketedIndex(key, d, "");
    AtoiDecimal(n);
  }

  /** `key[index]tail` with a bracket-free key and a `]`-free index is array segment Atoi(index) of key. */
  lemma BracketedIndex(key: string, index: string, tail: string)
    requires '[' !in key && ']' !in key && ']' !in index
    ensures ParseSegment(key + "[" + index + "]" + tail) == Success(Segment(key, Atoi(index)))
  {
    var s := key + "[" + index + "]" + tail;
    assert s[..|key|] == key;
    IndexOfAt(s, '[', |key|);
    var close := |key| + 1 + |index|;
    assert s[..close] == key + "[" + index;
    IndexOfAt(s, ']', close);
    assert s[|key| + 1..close] == index;
  }

  /**
   * An empty or non-numeric index reads as 0, so `a[]` and `a[x]` are array
   * segment 0 of `a`, whatever follows the closing bracket.
   */
  lemma EmptyIndexIsZero(key: string, junk: string, tail: string)
    requires '[' !in key && ']' !in key && ']' !in junk
    requires forall k :: 0 <= k < |junk| ==> !IsDigit(junk[k])
    ensures ParseSegment(key + "[" + junk + "]" + tail) == Success(Segment(key, 0))
  {
    BracketedIndex(key, junk, tail);
    AtoiNoDigits(junk);
  }

  /** A short malformed index such as `a[1x]`, `a[ 1]` or `a[+]` also reads as 0. */
  lemma MalformedIndexIsZero(key: string, junk: string, tail: string)
    requires '[' !in key && ']' !in key && ']' !in junk
    requires Malformed(junk)
    ensures ParseSegment(key + "[" + junk + "]" + tail) == Success(Segment(key, 0))
  {
    BracketedIndex(key, junk, tail);
    AtoiSyntaxError(junk);
  }

  /**
   * An index written as digits, leading zeros and a `+` sign allowed (`a[007]`,
   * `a[+5]`), addresses the element its value names, the int64 maximum at most.
   */
  lemma DigitIndex(key: string, index: string, digits: string, tail: string)
    requires '[' !in key && ']' !in key
    requires index == digits || index == "+" + digits
    requires |digits| >= 1 && forall k :: 0 <= k < |digits| ==> IsDigit(digits[k])
    ensures var v := DigitsValue(digits);
      ParseSegment(key + "[" + index + "]" + tail) == Success(Segment(key, if v <= MaxInt64 then v else MaxInt64))
  {
    assert ']' !in index by {
      forall k | 0 <= k < |index|
        ensures index[k] != ']'
      {
        if index != digits && k > 0 {
          assert index[k] == digits[k - 1];
        }
      }
    }
    BracketedIndex(key, index, tail);
    AtoiDigits(digits);
  }

  /** An index beyond the int64 range saturates, so `a[n]` addresses element MaxInt64 of `a`. */
  lemma HugeIndexSaturates(key: string, n: nat)
    requires '[' !in key && ']' !in key
    requires n > MaxInt64
    ensures ParseSegment(FormatArraySegment(key, n)) == Success(Segment(key, MaxInt64))
  {
    var d := Decimal(n);
    assert ']' !in d by {
      assert forall k :: 0 <= k < |d| ==> IsDigit(d[k]);
    }
    assert FormatArraySegment(key, n) == key + "[" + d + "]" + "";
    BracketedIndex(key, d, "");
    AtoiSaturates(n);
  }

  /** `a[-1]` carries the "not an array" index, so the converter treats it as the plain key `a`. */
  lemma MinusOneIsPlainKey(key: string)
    requires '[' !in key && ']' !in key
    ensures ParseSegment(key + "[-1]") == Success(Segment(key, NotArray))
  {
    var s := key + "[-1]";
    assert s == key + "[" + ("-" + Decimal(1)) + "]";
    var close := |key| + 3;
    assert s[..|key|] == key;
    IndexOfAt(s, '[', |key|);
    assert s[..close] == key + "[-1";
    IndexOfAt(s, ']', close);
    assert s[|key| + 1..close] == "-" + Decimal(1);
    AtoiNegatedDecimal(1);
  }

  /** Text after the closing bracket is dropped. */
  lemma TrailingTextDropped(key: string, n: nat, tail: string)
    requires '[' !in key && ']' !in key
    requires n <= MaxInt64
    ensures ParseSegment(FormatArraySegment(key, n) + tail) == Success(Segment(key, n))
  {
    var s := FormatArraySegment(key, n) + tail;
    var d := Decimal(n);
    assert s[..|key|] == key;
    IndexOfAt(s, '[', |key|);
    var close := |key| + 1 + |d|;
    assert s[..close] == key + "[" + d;
    assert s[close] == ']';
    assert ']' !in d by {
      assert forall k :: 0 <= k < |d| ==> IsDigit(d[k]);
    }
    IndexOfAt(s, ']', close);
    assert s[|key| + 1..close] == d;
    AtoiDecimal(n);
  }
}
