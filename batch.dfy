/**
 * The loop over input files in main: every file is converted with the same
 * Args, so a line-number key renamed for one file stays renamed for the
 * files after it. Reading the files and writing the outputs are left out;
 * each file is given as its table of rows. The loop does not depend on what
 * one conversion does, so it is stated for any conversion and key update;
 * Conversion and Renaming give csvToJson's.
 */
module Batch {
  import opened Results
  import opened Tree
  import opened Converter

  /** One file's conversion as the loop sees it: from a table and the key in effect, its entries or its panic. */
  type FileConversion = (seq<seq<string>>, string) -> Result<seq<Object>>

  /** The line-number key a file's conversion leaves behind in Args. */
  type KeyUpdate = (seq<seq<string>>, string) -> string

  /** csvToJson under fixed prefix and suffix. */
  function Conversion(prefix: string, suffix: string): FileConversion {
    (rows, key) => Convert(rows, prefix, suffix, key)
  }

  /** The header pass's rename of the line-number key under a fixed prefix and suffix. */
  function Renaming(prefix: string, suffix: string): KeyUpdate {
    (rows, key) => NewLineNumber(rows, prefix, suffix, key)
  }

  /** What a run over the files yields: the entries of each converted file, the failure that ended it, the final key. */
  datatype Outcome = Outcome(outputs: seq<seq<Object>>, stopped: Option<Error>, lineNumber: string)

  /** The line-number key in effect when file i is converted: each earlier file may have renamed it. */
  function KeyBefore(files: seq<seq<seq<string>>>, rename: KeyUpdate, lineNumber: string, i: nat): string
    requires i <= |files|
  {
    if i == 0 then lineNumber else rename(files[i - 1], KeyBefore(files, rename, lineNumber, i - 1))
  }

  /**
   * The run as main performs it: the recover is deferred in main's own frame,
   * so the first failing file ends the run and no later file is converted.
   * It yields at most one output per file, and one per file when nothing
   * stopped it.
   */
  function Run(files: seq<seq<seq<string>>>, convert: FileConversion, rename: KeyUpdate, lineNumber: string): (r: Outcome)
    ensures |r.outputs| <= |files|
    ensures r.stopped.None? ==> |r.outputs| == |files|
    decreases |files|
  {
    if |files| == 0 then Outcome([], None, lineNumber)
    else
      var key := rename(files[0], lineNumber);
      match convert(files[0], lineNumber)
      case Failure(e) => Outcome([], Some(e), key)
      case Success(entries) =>
        var rest := Run(files[1..], convert, rename, key);
        Outcome([entries] + rest.outputs, rest.stopped, rest.lineNumber)
  }

  /** A run that recovers per file: one result per file, each under the key left by the files before it. */
  function RunIsolated(files: seq<seq<seq<string>>>, convert: FileConversion, rename: KeyUpdate, lineNumber: string): (r: seq<Result<seq<Object>>>)
    ensures |r| == |files|
    decreases |files|
  {
    if |files| == 0 then []
    else [convert(files[0], lineNumber)] + RunIsolated(files[1..], convert, rename, rename(files[0], lineNumber))
  }

  /** The tail's keys are the whole list's keys, shifted by one file. */
  lemma {:induction false} KeyBeforeTail(files: seq<seq<seq<string>>>, rename: KeyUpdate, lineNumber: string, i: nat)
    requires 1 <= |files| && i < |files|
    ensures KeyBefore(files[1..], rename, rename(files[0], lineNumber), i) == KeyBefore(files, rename, lineNumber, i + 1)
  {
    if i > 0 {
      KeyBeforeTail(files, rename, lineNumber, i - 1);
      assert files[1..][i - 1] == files[i];
    }
  }

  // ---- The loops ----

  /**
   * The run from file i, after the outputs done: a failing file i ends it, a
   * converted one is followed by the rest under the key it leaves.
   */
  lemma RunStep(files: seq<seq<seq<string>>>, i: nat, convert: FileConversion, rename: KeyUpdate, key: string, done: seq<seq<Object>>)
    requires i < |files|
    ensures var next := rename(files[i], key);
      var here, rest := Run(files[i..], convert, rename, key), Run(files[i + 1..], convert, rename, next);
      Outcome(done + here.outputs, here.stopped, here.lineNumber) ==
        match convert(files[i], key)
        case Failure(e) => Outcome(done, Some(e), next)
        case Success(entries) => Outcome(done + [entries] + rest.outputs, rest.stopped, rest.lineNumber)
  {
    assert files[i..][0] == files[i] && files[i..][1..] == files[i + 1..];
    var here := Run(files[i..], convert, rename, key);
    if convert(files[i], key).Failure? {
      assert done + here.outputs == done + [];
    } else {
      var rest := Run(files[i + 1..], convert, rename, rename(files[i], key));
      assert done + here.outputs == done + ([convert(files[i], key).value] + rest.outputs);
    }
  }

  /** The per-file run from file i, after the results done: file i's result, then the rest under the key it leaves. */
  lemma RunIsolatedStep(files: seq<seq<seq<string>>>, i: nat, convert: FileConversion, rename: KeyUpdate, key: string,
                        done: seq<Result<seq<Object>>>)
    requires i < |files|
    ensures done + RunIsolated(files[i..], convert, rename, key) ==
      done + [convert(files[i], key)] + RunIsolated(files[i + 1..], convert, rename, rename(files[i], key))
  {
    assert files[i..][0] == files[i] && files[i..][1..] == files[i + 1..];
    var rest := RunIsolated(files[i + 1..], convert, rename, rename(files[i], key));
    assert done + ([convert(files[i], key)] + rest) == done + [convert(files[i], key)] + rest;
  }

  /** main's loop over the input files, ending at the first file whose conversion fails. */
  method ConvertFiles(files: seq<seq<seq<string>>>, args: Args) returns (outputs: seq<seq<Object>>, stopped: Option<Error>)
    modifies args`lineNumber
    ensures Run(files, Conversion(args.prefix, args.suffix), Renaming(args.prefix, args.suffix), old(args.lineNumber)) ==
      Outcome(outputs, stopped, args.lineNumber)
  {
    ghost var convert, rename := Conversion(args.prefix, args.suffix), Renaming(args.prefix, args.suffix);
    ghost var whole := Run(files, convert, rename, args.lineNumber);
    outputs, stopped := [], None;
    var i := 0;
    while i < |files|
      invariant i <= |files|
      invariant convert == Conversion(args.prefix, args.suffix) && rename == Renaming(args.prefix, args.suffix)
      invariant var rest := Run(files[i..], convert, rename, args.lineNumber);
        whole == Outcome(outputs + rest.outputs, rest.stopped, rest.lineNumber)
    {
      RunStep(files, i, convert, rename, args.lineNumber, outputs);
      var r := CsvToJson(files[i], args);
      if r.Failure? {
        return outputs, Some(r.error);
      }
      outputs := outputs + [r.value];
      i := i + 1;
    }
    assert outputs + [] == outputs;
  }

  /** The loop with a recover per file: a failing file yields its failure and the next file is still converted. */
  method ConvertFilesIsolated(files: seq<seq<seq<string>>>, args: Args) returns (results: seq<Result<seq<Object>>>)
    modifies args`lineNumber
    ensures results == RunIsolated(files, Conversion(args.prefix, args.suffix), Renaming(args.prefix, args.suffix), old(args.lineNumber))
  {
    ghost var convert, rename := Conversion(args.prefix, args.suffix), Renaming(args.prefix, args.suffix);
    ghost var whole := RunIsolated(files, convert, rename, args.lineNumber);
    results := [];
    for i := 0 to |files|
      invariant convert == Conversion(args.prefix, args.suffix) && rename == Renaming(args.prefix, args.suffix)
      invariant whole == results + RunIsolated(files[i..], convert, rename, args.lineNumber)
    {
      RunIsolatedStep(files, i, convert, rename, args.lineNumber, results);
      var r := CsvToJson(files[i], args);
      results := results + [r];
    }
    assert files[|files|..] == [];
    assert results + [] == results;
  }

  // ---- Properties of the runs ----

  /** main's run converts a prefix of the files, each under the key the files before it left. */
  lemma {:induction false} RunConverts(files: seq<seq<seq<string>>>, convert: FileConversion, rename: KeyUpdate, lineNumber: string)
    ensures var o := Run(files, convert, rename, lineNumber);
      forall i :: 0 <= i < |o.outputs| ==> convert(files[i], KeyBefore(files, rename, lineNumber, i)) == Success(o.outputs[i])
    decreases |files|
  {
    if |files| > 0 && convert(files[0], lineNumber).Success? {
      var key := rename(files[0], lineNumber);
      var o := Run(files, convert, rename, lineNumber);
      var rest := Run(files[1..], convert, rename, key);
      assert o.outputs == [convert(files[0], lineNumber).value] + rest.outputs;
      RunConverts(files[1..], convert, rename, key);
      forall i | 1 <= i < |o.outputs|
        ensures convert(files[i], KeyBefore(files, rename, lineNumber, i)) == Success(o.outputs[i])
      {
        assert files[1..][i - 1] == files[i] && rest.outputs[i - 1] == o.outputs[i];
        KeyBeforeTail(files, rename, lineNumber, i - 1);
      }
    }
  }

  /**
   * main's run stops exactly at the first file that fails, with that file's
   * failure; a run that does not stop has converted every file.
   */
  lemma {:induction false} RunStops(files: seq<seq<seq<string>>>, convert: FileConversion, rename: KeyUpdate, lineNumber: string)
    ensures var o := Run(files, convert, rename, lineNumber);
      o.stopped.Some? ==>
        && |o.outputs| < |files|
        && convert(files[|o.outputs|], KeyBefore(files, rename, lineNumber, |o.outputs|)) == Failure(o.stopped.value)
    decreases |files|
  {
    if |files| > 0 && convert(files[0], lineNumber).Success? {
      var key := rename(files[0], lineNumber);
      var o := Run(files, convert, rename, lineNumber);
      var rest := Run(files[1..], convert, rename, key);
      assert o == Outcome([convert(files[0], lineNumber).value] + rest.outputs, rest.stopped, rest.lineNumber);
      RunStops(files[1..], convert, rename, key);
      if o.stopped.Some? {
        var n := |rest.outputs|;
        KeyBeforeTail(files, rename, lineNumber, n);
        assert files[1..][n] == files[n + 1];
      }
    }
  }

  /** The per-file run converts every file, each under the key the files before it left. */
  lemma {:induction false} RunIsolatedShape(files: seq<seq<seq<string>>>, convert: FileConversion, rename: KeyUpdate, lineNumber: string)
    ensures var r := RunIsolated(files, convert, rename, lineNumber);
      forall i :: 0 <= i < |files| ==> r[i] == convert(files[i], KeyBefore(files, rename, lineNumber, i))
    decreases |files|
  {
    if |files| > 0 {
      var key := rename(files[0], lineNumber);
      var r := RunIsolated(files, convert, rename, lineNumber);
      var rest := RunIsolated(files[1..], convert, rename, key);
      assert r == [convert(files[0], lineNumber)] + rest;
      RunIsolatedShape(files[1..], convert, rename, key);
      forall i | 1 <= i < |files|
        ensures r[i] == convert(files[i], KeyBefore(files, rename, lineNumber, i))
      {
        KeyBeforeTail(files, rename, lineNumber, i - 1);
        assert r[i] == rest[i - 1];
        assert files[1..][i - 1] == files[i];
      }
    }
  }

  /** Two files that both convert: the second is converted under the key the first left. */
  lemma TwoFiles(first: seq<seq<string>>, second: seq<seq<string>>, convert: FileConversion, rename: KeyUpdate, lineNumber: string)
    requires convert(first, lineNumber).Success?
    requires convert(second, rename(first, lineNumber)).Success?
    ensures var key := rename(first, lineNumber);
      Run([first, second], convert, rename, lineNumber) ==
      Outcome([convert(first, lineNumber).value, convert(second, key).value], None, rename(second, key))
  {
    var key := rename(first, lineNumber);
    var out1, out2 := convert(first, lineNumber).value, convert(second, key).value;
    assert Run([second], convert, rename, key) == Outcome([out2], None, rename(second, key)) by {
      assert [second][1..] == [];
    }
    assert [first, second][1..] == [second];
    assert [out1] + [out2] == [out1, out2];
  }

  /**
   * Since the recover is deferred in main's frame, a failing first file keeps
   * a convertible second file from being converted at all; the per-file run
   * still converts it.
   */
  lemma FailureSkipsLaterFiles(bad: seq<seq<string>>, good: seq<seq<string>>, convert: FileConversion, rename: KeyUpdate,
                               lineNumber: string)
    requires convert(bad, lineNumber).Failure?
    requires convert(good, rename(bad, lineNumber)).Success?
    ensures Run([bad, good], convert, rename, lineNumber).outputs == []
    ensures Run([bad, good], convert, rename, lineNumber).stopped == Some(convert(bad, lineNumber).error)
    ensures RunIsolated([bad, good], convert, rename, lineNumber) ==
      [convert(bad, lineNumber), convert(good, rename(bad, lineNumber))]
  {
    var files := [bad, good];
    var key := rename(bad, lineNumber);
    assert files[1..] == [good];
    assert [good][1..] == [];
    assert RunIsolated([good], convert, rename, key) == [convert(good, key)];
  }
}
