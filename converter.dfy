/**
 * csvToJson up to the JSON encoding: the header pass, then one fresh entry
 * per data row built cell by cell, with the optional row number.
 */
module Converter {
  import opened Results
  import opened Numerals
  import opened Text
  import opened Header
  import opened Tree

  /**
   * The options the conversion reads. The header pass rewrites lineNumber in
   * place, and the same object serves every input file, so a rename made for
   * one file is still in effect for the next.
   */
  class Args {
    var prefix: string
    var suffix: string
    var lineNumber: string

    constructor (prefix: string, suffix: string, lineNumber: string)
      ensures this.prefix == prefix && this.suffix == suffix && this.lineNumber == lineNumber
    {
      this.prefix := prefix;
      this.suffix := suffix;
      this.lineNumber := lineNumber;
    }
  }

  // ---- Specification ----

  /** The entry of data row `index` (0-based): its cells, then the 1-based row number under a non-empty lineNumber. */
  function Entry(attrs: seq<string>, row: seq<string>, lineNumber: string, index: nat): (r: Result<Object>)
    requires |row| <= |attrs|
    ensures r.Success? <==> BuildEntry(attrs, row).Success?
  {
    var e :- BuildEntry(attrs, row);
    if |lineNumber| != 0 then Success(e[lineNumber := Int(index + 1)]) else Success(e)
  }

  predicate Fits(data: seq<seq<string>>, attrs: seq<string>) {
    forall j :: 0 <= j < |data| ==> |data[j]| <= |attrs|
  }

  /** The entries of data rows k.., in order; the first failing row decides the failure. */
  function EntriesFrom(attrs: seq<string>, data: seq<seq<string>>, lineNumber: string, k: nat): (r: Result<seq<Object>>)
    requires Fits(data, attrs) && k <= |data|
    ensures r.Success? ==> |r.value| == |data| - k
    decreases |data| - k
  {
    if k == |data| then Success([])
    else
      var e :- Entry(attrs, data[k], lineNumber, k);
      var rest :- EntriesFrom(attrs, data, lineNumber, k + 1);
      Success([e] + rest)
  }

  /** The line-number key in effect after converting rows (unchanged when there is no header). */
  function NewLineNumber(rows: seq<seq<string>>, prefix: string, suffix: string, lineNumber: string): string {
    if |rows| == 0 then lineNumber else RenamedLineNumber(lineNumber, Named(rows, prefix), suffix)
  }

  /**
   * The entries csvToJson serialises, or the panic that stops it: a table
   * without a header row fails, and otherwise each data row gives one entry.
   */
  function Convert(rows: seq<seq<string>>, prefix: string, suffix: string, lineNumber: string): (r: Result<seq<Object>>)
    ensures |rows| == 0 ==> r == Failure(NoHeaderRow)
    ensures r.Success? ==> |rows| >= 1 && |r.value| == |rows| - 1
  {
    if |rows| == 0 then Failure(NoHeaderRow)
    else
      var attrs := NormalizedHeader(rows, prefix, suffix);
      assert Fits(rows[1..], attrs) by {
        assert forall j :: 0 <= j < |rows| - 1 ==> rows[1..][j] == rows[j + 1];
      }
      EntriesFrom(attrs, rows[1..], NewLineNumber(rows, prefix, suffix, lineNumber), 0)
  }

  /** A result with acc placed before its entries; a failure stays as it is. */
  function Prepend(acc: seq<Object>, r: Result<seq<Object>>): Result<seq<Object>> {
    if r.Failure? then r else Success(acc + r.value)
  }

  // ---- The conversion ----

  /** The header pass; it renames args.lineNumber in place when it equals a column name. */
  method NormalizeHeader(rows: seq<seq<string>>, args: Args) returns (attrs: seq<string>)
    requires |rows| >= 1
    modifies args`lineNumber
    ensures attrs == NormalizedHeader(rows, args.prefix, args.suffix)
    ensures args.lineNumber == NewLineNumber(rows, args.prefix, args.suffix, old(args.lineNumber))
  {
    var mcol := MaxRowWidth(rows);
    attrs := PadHeader(rows[0], mcol, args.prefix);
    attrs := FillEmptyNames(attrs, args.prefix);
    var c;
    attrs, c := DedupNames(attrs, args.suffix);
    if args.lineNumber in c {
      args.lineNumber := args.lineNumber + args.suffix + Decimal(c[args.lineNumber]);
    }
  }

  /** The cell loop of one row: a fresh entry, each cell written under its attribute, left to right. */
  method BuildRow(attrs: seq<string>, row: seq<string>) returns (r: Result<Object>)
    requires |row| <= |attrs|
    ensures r == BuildEntry(attrs, row)
  {
    var entry: Object := map[];
    for i := 0 to |row|
      invariant BuildFrom(entry, attrs, row, i) == BuildEntry(attrs, row)
    {
      var written := WriteCell(entry, attrs[i], row[i]);
      if written.Failure? {
        return Failure(written.error);
      }
      entry := written.value;
    }
    return Success(entry);
  }

  /** The row loop: a fresh entry per data row, each cell written in turn, then the row number. */
  method BuildEntries(data: seq<seq<string>>, attrs: seq<string>, lineNumber: string) returns (r: Result<seq<Object>>)
    requires Fits(data, attrs)
    ensures r == EntriesFrom(attrs, data, lineNumber, 0)
  {
    var entries: seq<Object> := [];
    ghost var all := EntriesFrom(attrs, data, lineNumber, 0);
    assert all.Success? ==> [] + all.value == all.value;
    for rowIndex := 0 to |data|
      invariant all == Prepend(entries, EntriesFrom(attrs, data, lineNumber, rowIndex))
    {
      var row := data[rowIndex];
      var built := BuildRow(attrs, row);
      if built.Failure? {
        assert EntriesFrom(attrs, data, lineNumber, rowIndex) == Failure(built.error);
        return Failure(built.error);
      }
      var entry := built.value;
      if |lineNumber| != 0 {
        entry := entry[lineNumber := Int(rowIndex + 1)];
      }
      assert Entry(attrs, row, lineNumber, rowIndex) == Success(entry);
      ghost var rest := EntriesFrom(attrs, data, lineNumber, rowIndex + 1);
      assert EntriesFrom(attrs, data, lineNumber, rowIndex) == if rest.Failure? then rest else Success([entry] + rest.value);
      assert rest.Success? ==> entries + ([entry] + rest.value) == entries + [entry] + rest.value;
      entries := entries + [entry];
    }
    assert entries + [] == entries;
    r := Success(entries);
  }

  /** csvToJson without the final encoding: an empty table fails, as indexing rows[0] panics. */
  method CsvToJson(rows: seq<seq<string>>, args: Args) returns (r: Result<seq<Object>>)
    modifies args`lineNumber
    ensures r == Convert(rows, args.prefix, args.suffix, old(args.lineNumber))
    ensures args.lineNumber == NewLineNumber(rows, args.prefix, args.suffix, old(args.lineNumber))
  {
    if |rows| == 0 {
      return Failure(NoHeaderRow);
    }
    var attrs := NormalizeHeader(rows, args);
    assert Fits(rows[1..], attrs) by {
      assert forall j :: 0 <= j < |rows| - 1 ==> rows[1..][j] == rows[j + 1];
    }
    r := BuildEntries(rows[1..], attrs, args.lineNumber);
  }

  // ---- Properties of the conversion ----

  /** Rows k.. convert exactly when each of them builds. */
  lemma {:induction false} EntriesFromSucceeds(attrs: seq<string>, data: seq<seq<string>>, lineNumber: string, k: nat)
    requires Fits(data, attrs) && k <= |data|
    ensures EntriesFrom(attrs, data, lineNumber, k).Success? <==>
      forall j :: k <= j < |data| ==> BuildEntry(attrs, data[j]).Success?
    decreases |data| - k
  {
    if k < |data| {
      EntriesFromSucceeds(attrs, data, lineNumber, k + 1);
      var e := Entry(attrs, data[k], lineNumber, k);
      assert EntriesFrom(attrs, data, lineNumber, k).Success? <==>
        e.Success? && EntriesFrom(attrs, data, lineNumber, k + 1).Success?;
      if !e.Success? {
        assert !BuildEntry(attrs, data[k]).Success?;
      } else if !EntriesFrom(attrs, data, lineNumber, k + 1).Success? {
        var j :| k + 1 <= j < |data| && !BuildEntry(attrs, data[j]).Success?;
      } else {
        assert forall j :: k < j < |data| ==> BuildEntry(attrs, data[j]).Success?;
      }
    }
  }

  /** Converted rows k.. give one entry per row, in order. */
  lemma {:induction false} EntriesFromItems(attrs: seq<string>, data: seq<seq<string>>, lineNumber: string, k: nat)
    requires Fits(data, attrs) && k <= |data|
    requires EntriesFrom(attrs, data, lineNumber, k).Success?
    ensures var r := EntriesFrom(attrs, data, lineNumber, k).value;
      && |r| == |data| - k
      && forall j :: k <= j < |data| ==>
           Entry(attrs, data[j], lineNumber, j).Success? && r[j - k] == Entry(attrs, data[j], lineNumber, j).value
    decreases |data| - k
  {
    if k < |data| {
      var r := EntriesFrom(attrs, data, lineNumber, k).value;
      var e := Entry(attrs, data[k], lineNumber, k);
      var rest := EntriesFrom(attrs, data, lineNumber, k + 1);
      assert e.Success? && rest.Success? && r == [e.value] + rest.value;
      var tail := rest.value;
      assert r[0] == e.value && r[1..] == tail;
      EntriesFromItems(attrs, data, lineNumber, k + 1);
      forall j | k < j < |data|
        ensures Entry(attrs, data[j], lineNumber, j).Success? && r[j - k] == Entry(attrs, data[j], lineNumber, j).value
      {
        var ej := Entry(attrs, data[j], lineNumber, j);
        assert ej.Success? && tail[j - (k + 1)] == ej.value;
        assert r[j - k] == tail[j - (k + 1)];
      }
    }
  }

  /** A table with a header converts exactly when every data row builds. */
  lemma ConvertSucceeds(rows: seq<seq<string>>, prefix: string, suffix: string, lineNumber: string)
    requires |rows| >= 1
    ensures Convert(rows, prefix, suffix, lineNumber).Success? <==>
      forall j :: 1 <= j < |rows| ==> BuildEntry(NormalizedHeader(rows, prefix, suffix), rows[j]).Success?
  {
    var attrs := NormalizedHeader(rows, prefix, suffix);
    var data := rows[1..];
    assert forall j :: 0 <= j < |data| ==> data[j] == rows[j + 1];
    EntriesFromSucceeds(attrs, data, NewLineNumber(rows, prefix, suffix, lineNumber), 0);
    assert forall j :: 1 <= j < |rows| ==> rows[j] == data[j - 1];
  }

  /** Converted data rows give, in order, each row's cells plus, under a non-empty key, its 1-based number. */
  lemma EntriesFromRows(attrs: seq<string>, data: seq<seq<string>>, lineNumber: string)
    requires Fits(data, attrs) && EntriesFrom(attrs, data, lineNumber, 0).Success?
    ensures var r := EntriesFrom(attrs, data, lineNumber, 0).value;
      && |r| == |data|
      && forall j :: 0 <= j < |data| ==>
           BuildEntry(attrs, data[j]).Success? &&
           r[j] == if lineNumber == "" then BuildEntry(attrs, data[j]).value
                   else BuildEntry(attrs, data[j]).value[lineNumber := Int(j + 1)]
  {
    EntriesFromItems(attrs, data, lineNumber, 0);
    var r := EntriesFrom(attrs, data, lineNumber, 0).value;
    forall j | 0 <= j < |data|
      ensures BuildEntry(attrs, data[j]).Success?
      ensures r[j] == if lineNumber == "" then BuildEntry(attrs, data[j]).value
                      else BuildEntry(attrs, data[j]).value[lineNumber := Int(j + 1)]
    {
      assert Entry(attrs, data[j], lineNumber, j).Success? && r[j] == Entry(attrs, data[j], lineNumber, j).value;
    }
  }

  /** Convert is the header pass followed by the row pass over the data rows. */
  lemma ConvertRows(rows: seq<seq<string>>, prefix: string, suffix: string, lineNumber: string)
    requires |rows| >= 1
    ensures Fits(rows[1..], NormalizedHeader(rows, prefix, suffix))
    ensures Convert(rows, prefix, suffix, lineNumber) ==
      EntriesFrom(NormalizedHeader(rows, prefix, suffix), rows[1..], NewLineNumber(rows, prefix, suffix, lineNumber), 0)
  {
  }

  /**
   * A converted table has one entry per data row, in order: the row's cells
   * and, under a non-empty line-number key, the row's 1-based number.
   */
  lemma ConvertItems(rows: seq<seq<string>>, prefix: string, suffix: string, lineNumber: string)
    requires |rows| >= 1 && Convert(rows, prefix, suffix, lineNumber).Success?
    ensures var attrs := NormalizedHeader(rows, prefix, suffix);
      var key := NewLineNumber(rows, prefix, suffix, lineNumber);
      var r := Convert(rows, prefix, suffix, lineNumber).value;
      && |r| == |rows| - 1
      && forall j :: 1 <= j < |rows| ==>
           BuildEntry(attrs, rows[j]).Success? &&
           r[j - 1] == if key == "" then BuildEntry(attrs, rows[j]).value
                       else BuildEntry(attrs, rows[j]).value[key := Int(j)]
  {
    var attrs := NormalizedHeader(rows, prefix, suffix);
    var key := NewLineNumber(rows, prefix, suffix, lineNumber);
    var data := rows[1..];
    ConvertRows(rows, prefix, suffix, lineNumber);
    EntriesFromRows(attrs, data, key);
    assert forall j :: 1 <= j < |rows| ==> rows[j] == data[j - 1];
  }

  /** With a non-empty line-number key, entry j (0-based) holds j + 1 there, overriding any cell. */
  lemma LineNumberField(rows: seq<seq<string>>, prefix: string, suffix: string, lineNumber: string, j: nat)
    requires |rows| >= 1 && Convert(rows, prefix, suffix, lineNumber).Success?
    requires j < |rows| - 1
    requires NewLineNumber(rows, prefix, suffix, lineNumber) != ""
    ensures var key := NewLineNumber(rows, prefix, suffix, lineNumber);
      |Convert(rows, prefix, suffix, lineNumber).value| == |rows| - 1 &&
      key in Convert(rows, prefix, suffix, lineNumber).value[j] &&
      Convert(rows, prefix, suffix, lineNumber).value[j][key] == Int(j + 1)
  {
    ConvertItems(rows, prefix, suffix, lineNumber);
    var attrs := NormalizedHeader(rows, prefix, suffix);
    var key := NewLineNumber(rows, prefix, suffix, lineNumber);
    assert 1 <= j + 1 < |rows|;
    assert Convert(rows, prefix, suffix, lineNumber).value[j] == BuildEntry(attrs, rows[j + 1]).value[key := Int(j + 1)];
  }
}
