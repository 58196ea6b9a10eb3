/** The string operations the converter takes from Go's strings package, and an occurrence count. */
module Text {

  /** strings.Index for a one-character needle: the first position of c in s, or -1. */
  function IndexOf(s: string, c: char): (i: int)
    ensures -1 <= i < |s|
    ensures i == -1 <==> c !in s
    ensures i >= 0 ==> s[i] == c && c !in s[..i]
  {
    if |s| == 0 then -1
    else if s[0] == c then 0
    else
      var j := IndexOf(s[1..], c);
      assert j >= 0 ==> s[1..][..j] == s[1..j + 1];
      if j == -1 then -1 else j + 1
  }

  /** The first position of c is pinned down by where c occurs and where it does not. */
  lemma IndexOfAt(s: string, c: char, i: nat)
    requires i < |s| && s[i] == c && c !in s[..i]
    ensures IndexOf(s, c) == i
  {
    var j := IndexOf(s, c);
    assert forall k :: 0 <= k < i ==> s[..i][k] == s[k];
    assert forall k :: 0 <= k < j ==> s[..j][k] == s[k];
  }

  /** strings.Split with a one-character separator: the pieces between successive separators. */
  function Split(s: string, sep: char): (parts: seq<string>)
    ensures |parts| >= 1
    ensures forall k :: 0 <= k < |parts| ==> sep !in parts[k]
    decreases |s|
  {
    var i := IndexOf(s, sep);
    if i == -1 then [s] else [s[..i]] + Split(s[i + 1..], sep)
  }

  /** strings.Join with a one-character separator, the inverse of Split. */
  function Join(parts: seq<string>, sep: char): string
    requires |parts| >= 1
  {
    if |parts| == 1 then parts[0] else parts[0] + [sep] + Join(parts[1..], sep)
  }

  lemma {:induction false} JoinSplit(s: string, sep: char)
    ensures Join(Split(s, sep), sep) == s
    decreases |s|
  {
    var i := IndexOf(s, sep);
    if i != -1 {
      var head, tail := s[..i], s[i + 1..];
      assert s == head + [sep] + tail;
      var rest := Split(tail, sep);
      var parts := [head] + rest;
      assert parts[0] == head && parts[1..] == rest;
      assert Split(s, sep) == parts;
      JoinSplit(tail, sep);
      assert Join(parts, sep) == head + [sep] + Join(rest, sep);
    }
  }

  lemma {:induction false} SplitJoin(parts: seq<string>, sep: char)
    requires |parts| >= 1
    requires forall k :: 0 <= k < |parts| ==> sep !in parts[k]
    ensures Split(Join(parts, sep), sep) == parts
  {
    if |parts| > 1 {
      var first, tail := parts[0], parts[1..];
      assert parts == [first] + tail;
      var rest := Join(tail, sep);
      var s := first + [sep] + rest;
      assert Join(parts, sep) == s;
      assert s[..|first|] == first;
      assert sep !in s[..|first|];
      IndexOfAt(s, sep, |first|);
      assert s[|first| + 1..] == rest;
      assert forall k :: 0 <= k < |tail| ==> tail[k] == parts[k + 1];
      SplitJoin(tail, sep);
      assert Split(s, sep) == [first] + Split(rest, sep);
    }
  }

  /** Number of occurrences of x in s. */
  function Count<T(==)>(s: seq<T>, x: T): (n: nat)
    ensures n <= |s|
  {
    if |s| == 0 then 0
    else
      assert s == s[..|s| - 1] + [s[|s| - 1]];
      Count(s[..|s| - 1], x) + (if s[|s| - 1] == x then 1 else 0)
  }

  /** A count is zero exactly when the element does not occur. */
  lemma {:induction false} CountZero<T>(s: seq<T>, x: T)
    ensures Count(s, x) == 0 <==> x !in s
  {
    if |s| > 0 {
      CountZero(s[..|s| - 1], x);
      assert s == s[..|s| - 1] + [s[|s| - 1]];
    }
  }

  /** The positions of s that hold x. */
  function Positions<T(==)>(s: seq<T>, x: T): set<nat> {
    set j: nat | j < |s| && s[j] == x
  }

  /** Count agrees with the number of positions that hold x. */
  lemma {:induction false} CountPositions<T>(s: seq<T>, x: T)
    ensures Count(s, x) == |Positions(s, x)|
  {
    if |s| > 0 {
      var n := |s| - 1;
      CountPositions(s[..n], x);
      if s[n] == x {
        assert Positions(s, x) == Positions(s[..n], x) + {n};
      } else {
        assert Positions(s, x) == Positions(s[..n], x);
      }
    }
  }

  /** Extending a sequence by one element adds one to the count of that element only. */
  lemma CountSnoc<T>(s: seq<T>, y: T, x: T)
    ensures Count(s + [y], x) == Count(s, x) + (if y == x then 1 else 0)
  {
    assert (s + [y])[..|s|] == s;
  }
}
