/**
 * The header normaliser: pads the header to the widest row, names empty
 * and added columns `prefix + index`, and renames the k-th occurrence of a
 * repeated name (k >= 2) to `name + suffix + k`.
 */
module Header {
  import opened Numerals
  import opened Text

  /** genEmptyColName: the prefix followed by the 0-based column index in decimal. */
  function GenName(prefix: string, i: nat): (name: string)
    ensures |name| > |prefix| && name[..|prefix|] == prefix
  {
    prefix + Decimal(i)
  }

  /** The column index can be read back from a generated name. */
  lemma GenNameIndex(prefix: string, i: nat)
    requires i <= MaxInt64
    ensures Atoi(GenName(prefix, i)[|prefix|..]) == i
  {
    assert GenName(prefix, i)[|prefix|..] == Decimal(i);
    AtoiDecimal(i);
  }

  /** The number of cells of the widest row, header included. */
  function MaxWidth(rows: seq<seq<string>>): (w: nat)
    ensures forall k :: 0 <= k < |rows| ==> |rows[k]| <= w
    ensures |rows| == 0 ==> w == 0
    ensures |rows| > 0 ==> exists k :: 0 <= k < |rows| && |rows[k]| == w
  {
    if |rows| == 0 then 0
    else
      var w := MaxWidth(rows[..|rows| - 1]);
      assert forall k :: 0 <= k < |rows| - 1 ==> rows[..|rows| - 1][k] == rows[k];
      if |rows[|rows| - 1]| > w then |rows[|rows| - 1]| else w
  }

  /** The header with generated names appended for columns |header| .. width-1. */
  function Padded(header: seq<string>, width: nat, prefix: string): (r: seq<string>)
    ensures |r| == if |header| < width then width else |header|
    ensures r[..|header|] == header
    ensures forall i :: |header| <= i < |r| ==> r[i] == GenName(prefix, i)
    decreases width - |header|
  {
    if |header| >= width then header
    else
      var r := Padded(header + [GenName(prefix, |header|)], width, prefix);
      assert r[..|header|] == (r[..|header| + 1])[..|header|];
      r
  }

  /** Every empty name replaced by the generated name of its position. */
  function Filled(attrs: seq<string>, prefix: string): (r: seq<string>)
    ensures |r| == |attrs|
    ensures forall i :: 0 <= i < |r| ==> r[i] != ""
  {
    seq(|attrs|, i requires 0 <= i < |attrs| => if attrs[i] == "" then GenName(prefix, i) else attrs[i])
  }

  /** Which occurrence of its name position i holds, counting from 1. */
  function Occurrence(attrs: seq<string>, i: nat): (k: nat)
    requires i < |attrs|
    ensures k >= 1
  {
    assert attrs[..i + 1] == attrs[..i] + [attrs[i]];
    CountSnoc(attrs[..i], attrs[i], attrs[i]);
    Count(attrs[..i + 1], attrs[i])
  }

  /**
   * The name after de-duplication: the first occurrence stays, the k-th gets
   * suffix and k. The name is always kept as a prefix, and it is changed
   * exactly at repeated occurrences.
   */
  function DedupName(attrs: seq<string>, suffix: string, i: nat): (r: string)
    requires i < |attrs|
    ensures |attrs[i]| <= |r| && r[..|attrs[i]|] == attrs[i]
    ensures r == attrs[i] <==> Occurrence(attrs, i) == 1
  {
    var k := Occurrence(attrs, i);
    if k == 1 then attrs[i] else attrs[i] + suffix + Decimal(k)
  }

  function Deduped(attrs: seq<string>, suffix: string): (r: seq<string>)
    ensures |r| == |attrs|
    ensures forall i :: 0 <= i < |r| ==> r[i] == DedupName(attrs, suffix, i)
  {
    seq(|attrs|, i requires 0 <= i < |attrs| => DedupName(attrs, suffix, i))
  }

  /** The names after padding and filling, before de-duplication (the keys of the counter map). */
  function Named(rows: seq<seq<string>>, prefix: string): (r: seq<string>)
    requires |rows| >= 1
    ensures |r| == MaxWidth(rows)
  {
    Filled(Padded(rows[0], MaxWidth(rows), prefix), prefix)
  }

  /** The final attribute names: one per column of the widest row, none empty. */
  function NormalizedHeader(rows: seq<seq<string>>, prefix: string, suffix: string): (r: seq<string>)
    requires |rows| >= 1
    ensures |r| == MaxWidth(rows)
    ensures forall k :: 0 <= k < |rows| ==> |rows[k]| <= |r|
    ensures forall i :: 0 <= i < |r| ==> r[i] != ""
  {
    var named := Named(rows, prefix);
    var r := Deduped(named, suffix);
    assert forall i :: 0 <= i < |r| ==> |r[i]| >= |named[i]| > 0;
    r
  }

  /**
   * The line-number key after the header pass: a key equal to some name
   * before de-duplication gets the suffix and that name's total count.
   */
  function RenamedLineNumber(lineNumber: string, named: seq<string>, suffix: string): (r: string)
    ensures |lineNumber| <= |r| && r[..|lineNumber|] == lineNumber
    ensures r == lineNumber <==> lineNumber !in named
  {
    if lineNumber in named then lineNumber + suffix + Decimal(Count(named, lineNumber)) else lineNumber
  }

  // ---- Properties of the normaliser ----

  /** Position i holds the first occurrence of its name exactly when that name is absent before i. */
  lemma OccurrenceFirst(attrs: seq<string>, i: nat)
    requires i < |attrs|
    ensures Occurrence(attrs, i) == 1 <==> attrs[i] !in attrs[..i]
  {
    assert attrs[..i + 1] == attrs[..i] + [attrs[i]];
    CountSnoc(attrs[..i], attrs[i], attrs[i]);
    CountZero(attrs[..i], attrs[i]);
  }

  /** A name survives de-duplication unchanged exactly when it did not occur earlier. */
  lemma DedupKeepsFirst(attrs: seq<string>, suffix: string, i: nat)
    requires i < |attrs|
    ensures Deduped(attrs, suffix)[i] == attrs[i] <==> attrs[i] !in attrs[..i]
  {
    OccurrenceFirst(attrs, i);
  }

  /** A repeated name becomes name + suffix + k, k >= 2 being the number of its occurrences up to i. */
  lemma DedupRenamesRepeat(attrs: seq<string>, suffix: string, i: nat)
    requires i < |attrs| && attrs[i] in attrs[..i]
    ensures var k := |Positions(attrs[..i + 1], attrs[i])|;
      k >= 2 && Deduped(attrs, suffix)[i] == attrs[i] + suffix + Decimal(k)
  {
    OccurrenceFirst(attrs, i);
    CountPositions(attrs[..i + 1], attrs[i]);
  }

  /** De-duplication leaves a list of pairwise distinct names unchanged. */
  lemma DedupDistinct(attrs: seq<string>, suffix: string)
    requires forall i, j :: 0 <= i < j < |attrs| ==> attrs[i] != attrs[j]
    ensures Deduped(attrs, suffix) == attrs
  {
    forall i | 0 <= i < |attrs|
      ensures Deduped(attrs, suffix)[i] == attrs[i]
    {
      assert attrs[i] !in attrs[..i];
      DedupKeepsFirst(attrs, suffix, i);
    }
  }

  /** Renamed names are not checked again, so the result can still repeat a name. */
  lemma DedupNotAlwaysUnique()
    ensures Deduped(["a", "a", "a_2"], "_") == ["a", "a_2", "a_2"]
  {
    var attrs := ["a", "a", "a_2"];
    var r := Deduped(attrs, "_");
    assert attrs[..1] == ["a"] && attrs[..2] == ["a", "a"];
    OccurrenceFirst(attrs, 0);
    OccurrenceFirst(attrs, 2);
    assert Occurrence(attrs, 1) == 2 by {
      assert attrs[..2][..1] == ["a"];
    }
    assert Decimal(2) == "2";
    assert r[0] == "a" && r[1] == "a_2" && r[2] == "a_2";
  }

  /**
   * The line-number key is renamed exactly when it equals some name, and then
   * gets the suffix and the number of columns with that name (`n` over the
   * names `n, n` becomes `n` + suffix + "2"); a single occurrence gives "1".
   */
  lemma LineNumberRenamed(lineNumber: string, named: seq<string>, suffix: string)
    ensures RenamedLineNumber(lineNumber, named, suffix) == lineNumber <==> lineNumber !in named
    ensures lineNumber in named ==>
      RenamedLineNumber(lineNumber, named, suffix) == lineNumber + suffix + Decimal(|Positions(named, lineNumber)|)
    ensures Count(named, lineNumber) == 1 ==>
      RenamedLineNumber(lineNumber, named, suffix) == lineNumber + suffix + "1"
  {
    CountZero(named, lineNumber);
    CountPositions(named, lineNumber);
    assert Decimal(1) == "1";
  }

  /** The renamed line-number key is not checked again and can equal a column name. */
  lemma LineNumberCanCollide()
    ensures RenamedLineNumber("n", ["n", "n_1"], "_") == "n_1"
  {
    assert Count(["n", "n_1"], "n") == 1 by {
      assert ["n", "n_1"][..1] == ["n"];
    }
    assert Decimal(1) == "1";
  }

  /** Every column of the widest row gets a name, so no cell of any row lacks one. */
  lemma EveryCellNamed(rows: seq<seq<string>>, prefix: string, suffix: string, k: nat, i: nat)
    requires k < |rows| && i < |rows[k]|
    ensures i < |NormalizedHeader(rows, prefix, suffix)|
  {
  }

  /** Columns beyond the header are named prefix + index before de-duplication, and keep that name unless it repeats. */
  lemma GeneratedColumn(rows: seq<seq<string>>, prefix: string, suffix: string, i: nat)
    requires |rows| >= 1 && |rows[0]| <= i < MaxWidth(rows)
    ensures Named(rows, prefix)[i] == GenName(prefix, i)
    ensures GenName(prefix, i) !in Named(rows, prefix)[..i] ==>
      NormalizedHeader(rows, prefix, suffix)[i] == GenName(prefix, i)
  {
    var named := Named(rows, prefix);
    assert named[i] == GenName(prefix, i);
    if GenName(prefix, i) !in named[..i] {
      DedupKeepsFirst(named, suffix, i);
    }
  }

  /** An empty header cell is named prefix + its index before de-duplication; other cells keep their text. */
  lemma EmptyCellNamed(rows: seq<seq<string>>, prefix: string, i: nat)
    requires |rows| >= 1 && i < |rows[0]|
    ensures Named(rows, prefix)[i] == if rows[0][i] == "" then GenName(prefix, i) else rows[0][i]
  {
    var padded := Padded(rows[0], MaxWidth(rows), prefix);
    assert padded[i] == padded[..|rows[0]|][i];
  }

  /** A header of distinct non-empty names, as wide as every row, comes out unchanged. */
  lemma CleanHeaderUnchanged(rows: seq<seq<string>>, prefix: string, suffix: string)
    requires |rows| >= 1
    requires forall k :: 0 <= k < |rows| ==> |rows[k]| <= |rows[0]|
    requires forall i :: 0 <= i < |rows[0]| ==> rows[0][i] != ""
    requires forall i, j :: 0 <= i < j < |rows[0]| ==> rows[0][i] != rows[0][j]
    ensures NormalizedHeader(rows, prefix, suffix) == rows[0]
  {
    var header := rows[0];
    assert MaxWidth(rows) == |header|;
    var named := Named(rows, prefix);
    assert named == header by {
      forall i | 0 <= i < |header|
        ensures named[i] == header[i]
      {
        EmptyCellNamed(rows, prefix, i);
      }
    }
    DedupDistinct(named, suffix);
  }

  // ---- The normaliser's loops ----

  /** The count the counter map holds for a name, 0 when the name is absent. */
  function Tally(c: map<string, nat>, name: string): nat {
    if name in c then c[name] else 0
  }

  /** One step of the counter map: counting position i as well keeps it equal to Count on the longer prefix. */
  lemma CounterStep(named: seq<string>, i: nat, c: map<string, nat>, c': map<string, nat>)
    requires i < |named|
    requires forall name :: Tally(c, name) == Count(named[..i], name)
    requires c' == c[named[i] := Tally(c, named[i]) + 1]
    ensures forall name :: Tally(c', name) == Count(named[..i + 1], name)
  {
    var key := named[i];
    assert named[..i + 1] == named[..i] + [key];
    forall name
      ensures Count(named[..i + 1], name) == Count(named[..i], name) + (if key == name then 1 else 0)
    {
      CountSnoc(named[..i], key, name);
    }
  }

  /** The widest-row scan of the header pass. */
  method MaxRowWidth(rows: seq<seq<string>>) returns (mcol: nat)
    ensures mcol == MaxWidth(rows)
  {
    mcol := 0;
    for k := 0 to |rows|
      invariant mcol == MaxWidth(rows[..k])
    {
      assert rows[..k + 1][..k] == rows[..k];
      if |rows[k]| > mcol {
        mcol := |rows[k]|;
      }
    }
    assert rows[..|rows|] == rows;
  }

  /** Appends a generated name for every column the header lacks. */
  method PadHeader(header: seq<string>, width: nat, prefix: string) returns (attrs: seq<string>)
    ensures attrs == Padded(header, width, prefix)
  {
    attrs := header;
    var i := |header|;
    while i < width
      invariant i == |attrs|
      invariant Padded(attrs, width, prefix) == Padded(header, width, prefix)
      decreases width - i
    {
      attrs := attrs + [GenName(prefix, i)];
      i := i + 1;
    }
  }

  /** Replaces every empty name, in place, by the generated name of its position. */
  method FillEmptyNames(header: seq<string>, prefix: string) returns (attrs: seq<string>)
    ensures attrs == Filled(header, prefix)
  {
    attrs := header;
    for i := 0 to |attrs|
      invariant |attrs| == |header|
      invariant forall k :: 0 <= k < i ==> attrs[k] == Filled(header, prefix)[k]
      invariant forall k :: i <= k < |attrs| ==> attrs[k] == header[k]
    {
      if |attrs[i]| == 0 {
        attrs := attrs[i := GenName(prefix, i)];
      }
    }
  }

  /**
   * The de-duplication loop: a counter per name, the k-th occurrence renamed
   * in place. Also returns the counter map, whose keys are the names before
   * renaming and whose values are their total counts.
   */
  method DedupNames(named: seq<string>, suffix: string) returns (attrs: seq<string>, c: map<string, nat>)
    ensures attrs == Deduped(named, suffix)
    ensures forall name :: name in c <==> name in named
    ensures forall name :: name in c ==> c[name] == Count(named, name)
  {
    ghost var target := Deduped(named, suffix);
    attrs := named;
    c := map[];
    for i := 0 to |attrs|
      invariant |attrs| == |named|
      invariant forall k :: 0 <= k < i ==> attrs[k] == target[k]
      invariant forall k :: i <= k < |attrs| ==> attrs[k] == named[k]
      invariant forall name :: Tally(c, name) == Count(named[..i], name)
      invariant forall name :: name in c ==> c[name] > 0
    {
      var key := attrs[i];
      ghost var before := c;
      c := c[key := Tally(c, key) + 1];
      CounterStep(named, i, before, c);
      assert key == named[i] && Tally(c, key) == Count(named[..i + 1], key);
      assert c[key] == Occurrence(named, i);
      if c[key] != 1 {
        attrs := attrs[i := key + suffix + Decimal(c[key])];
      }
      assert attrs[i] == target[i];
    }
    assert named[..|named|] == named;
    forall name
      ensures name in c <==> name in named
    {
      CountZero(named, name);
    }
  }
}
