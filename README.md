# csv2json converter, modelled in Dafny

csv2json turns a CSV table into a JSON array with one object per data row.
The first row names the columns. A column name is a path:

- `.` separates nested object keys (`user.name`);
- `key[n]` addresses an array (`tags[0]`);
- an optional line-number key records each row's 1-based number.

This project models the converter in `main.go`. The model stops where the
entries are handed to the JSON encoder. It has four parts:

- **Segments** model `arrayContentMatch`. It splits one path segment into a key and an index, where `-1` means "not an array".
- **Header** models the header pass of `csvToJson`:
  - pad the header to the widest row;
  - name the missing and empty columns `prefix + index` (`genEmptyColName`);
  - rename the k-th repeat of a name to `name + suffix + k`;
  - rename the line-number key when it equals a column name.
- **Tree** models the cell writer. It walks a column's path through nested objects and arrays, creating them on the way, and stores the cell's raw string.
- **Converter** models the row loop and `csvToJson` as a whole. `Args` is a class whose `lineNumber` field the header pass rewrites in place.

`Batch` models main's loop over input files. Two things carry over between
files:

- the same `Args`, so a renamed line-number key stays renamed for every later file;
- the deferred `recover` in main's own frame, so the first file that panics ends the run.

Go panics are modelled as `Failure` values of `Results.Error`:

- no header row (indexing `rows[0]`);
- a `]` before the first `[` (the slice at line 115);
- a value of the wrong kind under a key (the type assertions at lines 211, 221 and 230);
- an array index outside the array (line 221).

The imperative parts keep their shape:

- the header loops are methods on sequences, with a counter map;
- the row loop builds each entry cell by cell;
- the file loop updates `args.lineNumber`.

Each method is proved equal to a specification function. Lemmas then state what those functions promise. Numbers follow Go: `Numerals.Decimal` is `%v` of a non-negative int, and `Numerals.Atoi` is `strconv.Atoi` on a 64-bit platform. A syntax error reads as 0 and an overflow saturates.

Where the program's own comments and help text promise more than the code does, the model follows the code:

- **Unique names.** The comment at main.go:152 says equal names get the suffix and a number so that they do not collide as JSON keys. The code does not check renamed names again, so `a, a, a_2` becomes `a, a_2, a_2`. A renamed line-number key can also equal a column name (`Header.DedupNotAlwaysUnique`, `Header.LineNumberCanCollide`).
- **Generated names.** The `--prefix` help at main.go:391 says an empty third column is named `col_3`. `genEmptyColName` uses the 0-based column index, so the code names it `col_2` (`Scenarios.ThirdColumnName`).
- **Failing files.** The comment at main.go:66 says the files are processed one by one, and the recover sits inside the loop. It still runs in main's frame, so the first failing file ends the loop (see Findings).

Other behaviour of the code that the model keeps:

- **Array growth.** An inner array segment appends at most one object and fails for an index beyond that. A last array segment always appends and ignores its index.
- **Wrong-kind values.** A value of the wrong kind under a key makes a type assertion panic (`Tree.ObjectAt`, `Tree.ArrayAt`).
- **Key order.** The code builds Go maps, which the encoder writes with sorted keys. The model uses Dafny maps.
- **File loop.** `Batch` states main's loop for any per-file conversion and key update; `Batch.Conversion` and `Batch.Renaming` are csvToJson's, and the loop methods are proved against them.

## Model

| member | source | states |
|---|---|---|
| Numerals.Decimal | main.go:124 | `%v` of a non-negative int: at least one character, all digits, no leading zero except for 0 itself |
| Numerals.ScanUint | main.go:115 | ParseUint's digit loop: an accepted value is at least the starting accumulator and fits 64 bits |
| Numerals.ParseUint | main.go:115 | an accepted text is non-empty and its value fits 64 bits |
| Numerals.ParseUintAccepts | main.go:115 | ParseUint accepts exactly the non-empty runs of digits whose value, leading zeros included, fits 64 bits, and then yields that value |
| Numerals.ScanDecimal | main.go:115 | the decimal text of n reads back as n up to the uint64 maximum and as a range error beyond it |
| Numerals.ScanDigits | main.go:115 | on any run of digits the loop yields the run's value, or a range error when that value exceeds 64 bits |
| Numerals.Atoi | main.go:115 | the index strconv.Atoi yields once its error is dropped always lies within int64 |
| Numerals.AtoiDecimal | main.go:115 | Atoi reads back the decimal text of every n up to the int64 maximum: rendering and parsing are inverse |
| Numerals.AtoiNegatedDecimal | main.go:115 | a minus sign before a decimal numeral yields its negation, down to the int64 minimum (so `-1` gives -1) |
| Numerals.AtoiDigits | main.go:115 | a run of digits, with or without `+`, reads as its value up to the int64 maximum and saturates beyond; with `-` as the negated value down to the minimum |
| Numerals.AtoiNoDigits | main.go:115 | text with no digit, the empty index of `a[]` included, reads as 0 because the error is ignored |
| Numerals.AtoiSyntaxError | main.go:115 | an index of at most nineteen characters after its sign that is empty there or holds a non-digit (`1x`, ` 1`, `1-2`, `+`) reads as 0 |
| Numerals.AtoiSaturates | main.go:115 | a number beyond int64 reads as the int64 maximum, and its negation as the minimum, whether or not it fits 64 bits |
| Numerals.DecimalInjective | main.go:124 | two numbers never get the same decimal text, so generated names of distinct columns differ |
| Text.IndexOf | main.go:111-113 | strings.Index for one character: -1 exactly when the character is absent, otherwise its first position |
| Text.Split | main.go:202 | strings.Split on `.` yields at least one piece and no piece contains a dot |
| Text.JoinSplit | main.go:202 | joining the pieces of a column name with `.` gives back the name, so splitting loses no text |
| Text.SplitJoin | main.go:202 | dot-free pieces joined with `.` split back into the same pieces |
| Segments.ParseSegment | main.go:110-120 | the key is a prefix of the segment; an array segment's key stops at the first `[` and has no `[`; the only failure is the reversed-bracket panic |
| Segments.ParsePlain | main.go:111-119 | a segment missing `[` or `]` is a plain key holding the whole text, with index -1 |
| Segments.ParseFailsIff | main.go:111-116 | parsing panics exactly when a `[` exists and some `]` comes before every `[` |
| Segments.ParseFormatted | main.go:111-116 | `key[n]` with a bracket-free key parses back to key and n for every n in int64 |
| Segments.DigitIndex | main.go:111-116 | `key[digits]` and `key[+digits]`, leading zeros allowed, address the element the digits' value names, at most the int64 maximum |
| Segments.EmptyIndexIsZero | main.go:115-116 | an empty or non-numeric index reads as 0 (`a[]`, `a[x]`), whatever follows `]` |
| Segments.MalformedIndexIsZero | main.go:115-116 | a short malformed index (`a[1x]`, `a[ 1]`, `a[+]`) is array segment 0 of `a` |
| Segments.HugeIndexSaturates | main.go:115-116 | `a[n]` with n beyond int64 is array segment MaxInt64 of `a` |
| Segments.MinusOneIsPlainKey | main.go:115-119 | `a[-1]` yields the not-an-array marker, so it is treated as the plain key `a` |
| Segments.TrailingTextDropped | main.go:116 | text after the closing bracket does not change the key or the index |
| Header.GenName | main.go:123-125 | a generated name starts with the prefix and is longer than it |
| Header.GenNameIndex | main.go:123-125 | the 0-based column index reads back from the text after the prefix |
| Header.MaxWidth | main.go:133-136 | the width bounds every row, is attained by some row, and is 0 for no rows |
| Header.MaxRowWidth | main.go:133-136 | the scan over the rows computes MaxWidth |
| Header.Padded | main.go:140-145 | padding keeps the header as its prefix, reaches the width, and names each added column i `prefix + i` |
| Header.PadHeader | main.go:140-145 | the append loop computes Padded |
| Header.Filled | main.go:146-150 | filling keeps the length and leaves no empty name |
| Header.FillEmptyNames | main.go:146-150 | the in-place loop computes Filled |
| Header.EmptyCellNamed | main.go:146-150 | an empty header cell at position i becomes `prefix + i`; a non-empty one keeps its text |
| Header.Occurrence | main.go:154-159 | the counter for a name after position i is at least 1 |
| Header.DedupName | main.go:160-163 | the renamed name keeps the original as its prefix, and differs from it exactly at a repeated occurrence |
| Header.Deduped | main.go:152-164 | de-duplication keeps the length and renames each position by its occurrence number |
| Header.OccurrenceFirst | main.go:154-160 | the counter is 1 exactly when the name did not occur earlier |
| Header.DedupKeepsFirst | main.go:160-163 | a name is kept exactly when it did not occur earlier |
| Header.DedupRenamesRepeat | main.go:160-163 | a repeat becomes `name + suffix + k`, k >= 2 being its occurrences so far |
| Header.DedupDistinct | main.go:152-164 | pairwise distinct names pass unchanged |
| Header.DedupNotAlwaysUnique | main.go:152-164 | renamed names are not checked again: `a, a, a_2` becomes `a, a_2, a_2` |
| Header.DedupNames | main.go:152-164 | the counter loop computes Deduped; its map holds exactly the names before renaming, each with its total count |
| Header.Named | main.go:132-150 | the names before de-duplication are as many as the widest row |
| Header.NormalizedHeader | main.go:132-164 | the final header is as wide as the widest row, every row fits under it, and no name is empty |
| Header.EveryCellNamed | main.go:188-197 | every cell of every row has a header name, so the width check before `attributes[i]` never fires |
| Header.GeneratedColumn | main.go:140-145 | a column beyond the header is named `prefix + i`, and keeps that name unless it repeats an earlier one |
| Header.CleanHeaderUnchanged | main.go:132-164 | a header of distinct non-empty names, as wide as every row, comes out unchanged |
| Header.LineNumberRenamed | main.go:165-168 | the line-number key changes exactly when it equals a name before renaming, and then becomes `key + suffix + c`, c the number of columns with that name (one occurrence gives `1`) |
| Header.LineNumberCanCollide | main.go:165-168 | the renamed key is not checked again: key `n` over `n, n_1` becomes `n_1` |
| Header.RenamedLineNumber | main.go:165-168 | the renamed key keeps the original as its prefix, and differs from it exactly when the key equals a name before de-duplication |
| Tree.ArrayAt | main.go:208-211 | the array under a key is available exactly when the key is absent or holds an array |
| Tree.ObjectAt | main.go:227-230 | the object under a key is available exactly when the key is absent or holds an object |
| Tree.Apply | main.go:204-232 | a write succeeds only for a well-formed first segment, and then changes only that segment's key, which it binds |
| Tree.ApplyPlain | main.go:222-230 | along plain keys a write succeeds exactly when no inner key holds a non-object, and the string then reads back at the path |
| Tree.ApplyInnerObject | main.go:222-230 | an inner segment without an index (a plain key, or `a[-1]`), followed by any segments, writes the rest of the path into the object already there (or a new one), succeeding exactly when that write does and keeping every other key; a non-object fails with NotAnObject |
| Tree.ApplyLastArray | main.go:207-216 | a last array segment appends the string, creating the array when absent and ignoring the index; a non-array fails |
| Tree.ApplyInnerArray | main.go:207-221 | an inner array segment adds at most one object and keeps the other elements; a negative index or one beyond the length fails; otherwise the rest of the path is written into the element at the index, and the write succeeds exactly when that write does, while a non-object element fails with NotAnObject |
| Tree.ApplyInnerNotArray | main.go:207-211 | an inner array segment whose key holds a non-array fails with NotAnArray, before its index is looked at |
| Tree.WriteCell | main.go:202-232 | a successful write binds the key of the column's first segment and leaves every other key of the entry as it was |
| Tree.WriteCellFlat | main.go:202-225 | a dot-free, bracket-free column assigns its string at its key, overwriting what was there |
| Tree.WriteCellPath | main.go:202-232 | a dotted column of plain keys succeeds exactly when its path is writable, and its string reads back at the path |
| Tree.BuildFrom | main.go:184-233 | the cell loop never removes a key, and the first key of every cell it wrote is bound afterwards |
| Tree.BuildEntry | main.go:180-233 | a built row binds the first key of every one of its cells' columns |
| Tree.BuildFromFlat | main.go:184-233 | under flat names the cell loop always succeeds and agrees with setting each key in turn |
| Tree.FlatBuildKeys | main.go:184-233 | after a flat build the keys are the earlier keys and the names of the cells written |
| Tree.FlatBuildKeep | main.go:184-233 | a key no later cell writes keeps its value |
| Tree.FlatBuildLast | main.go:223-225 | a key holds the string of the last cell written to it: later identical names win |
| Tree.BuildEntryFlat | main.go:180-233 | a row under flat names becomes the object whose keys are its cells' names, each holding the last cell under that name |
| Converter.Args.constructor | main.go:389-399 | the options start with the given prefix, suffix and line-number key |
| Converter.Entry | main.go:180-236 | a row's entry exists exactly when its cells can all be written |
| Converter.EntriesFrom | main.go:175-238 | converted rows give exactly one entry per data row |
| Converter.Convert | main.go:128-238 | a table without a header row fails with NoHeaderRow; a successful conversion has one entry per data row |
| Converter.NormalizeHeader | main.go:132-170 | the header pass computes NormalizedHeader and rewrites args.lineNumber to its renamed key |
| Converter.BuildRow | main.go:180-233 | the cell loop of one row computes BuildEntry: the built entry, or the failure of the first cell that cannot be written |
| Converter.BuildEntries | main.go:175-238 | the row loop yields the entries of EntriesFrom, or the failure of the first failing row |
| Converter.CsvToJson | main.go:128-238 | the conversion equals Convert from the old key and leaves args.lineNumber renamed; an empty table fails |
| Converter.EntriesFromSucceeds | main.go:175-238 | the rows convert exactly when every one of them builds |
| Converter.EntriesFromItems | main.go:175-238 | converted rows give one entry per row, in order, each equal to that row's Entry |
| Converter.EntriesFromRows | main.go:180-237 | entry j is row j's cells, plus `key: j + 1` under a non-empty line-number key |
| Converter.ConvertSucceeds | main.go:128-238 | a table with a header converts exactly when every data row builds under the final header |
| Converter.ConvertRows | main.go:128-238 | the conversion is the header pass followed by the row pass, and every data row fits the header |
| Converter.ConvertItems | main.go:175-237 | the result has one entry per data row, in order, each started fresh, with the row number under the renamed key |
| Converter.LineNumberField | main.go:234-236 | under a non-empty key, entry j holds `Int(j + 1)` there, overriding any cell written under that key |
| Scenarios.TwoColumnHeader | main.go:132-164 | two distinct non-empty names over a row of the same width stay as they are |
| Scenarios.OneRowTable | main.go:175-237 | a table with one data row gives exactly that row's entry |
| Scenarios.TwoCells | main.go:184-233 | a two-cell row is the first cell's write followed by the second's |
| Scenarios.ArrayPair | main.go:207-216 | two last array segments of one key build `{key: [x, y]}`, whatever their indices |
| Scenarios.ArrayColumns | main.go:128-238 | columns `key[0]`, `key[1]` over `x, y` convert to `[{key: [x, y]}]` |
| Scenarios.RepeatedName | main.go:152-164 | a repeated name becomes `name + suffix + "2"` in the second column |
| Scenarios.ThirdColumnName | main.go:123-125 | an empty third header cell is named `prefix + "2"`, the 0-based index, where the `--prefix` help says 3 |
| Scenarios.EmptyIndexColumn | main.go:110-120 | `key[]` followed by dot-free text is array segment 0 of key |
| Scenarios.RepeatedArrayColumn | main.go:128-238 | two `key[]` columns still give `{key: [x, y]}`: the renamed `key[]_2` keeps its key, because text after `]` is dropped |
| Scenarios.RenamedEmptyIndex | main.go:110-120 | the renamed repeat `key[]` + suffix + `2` still parses to array segment 0 of key |
| Scenarios.PaddedIndex | main.go:110-120 | `key[007]` is element 7: leading zeros do not change an index |
| Scenarios.SignedIndex | main.go:110-120 | `key[+5]` is element 5: a plus sign does not change an index |
| Scenarios.WriteNested | main.go:223-230 | `obj.f` creates the object at obj or extends it, and fails when obj holds a non-object |
| Scenarios.NestedArrayCell | main.go:204-232 | `obj.tags[]` in a fresh entry makes `{obj: {tags: [value]}}`: an array below an object |
| Scenarios.MinusOneDescends | main.go:222-230 | `key[-1].f` makes an object at key holding f: the -1 index makes the segment a plain key |
| Scenarios.NestedPair | main.go:223-230 | `obj.f1`, `obj.f2` share one object |
| Scenarios.NestedColumns | main.go:128-238 | columns `obj.f1`, `obj.f2` over `x, y` convert to `[{obj: {f1: x, f2: y}}]` |
| Scenarios.ElementFieldPath | main.go:110-120 | `key[0].f` splits into `key[0]`, array segment 0 of key, and the plain key f |
| Scenarios.WriteElementField | main.go:207-230 | `key[0].f` writes field f of element 0 of the array at key, adding that element to an absent or empty array |
| Scenarios.InnerArrayPair | main.go:207-230 | `key[0].f1`, `key[0].f2` write into the same array element |
| Scenarios.InnerArrayColumns | main.go:128-238 | columns `key[0].f1`, `key[0].f2` over `x, y` convert to `[{key: [{f1: x, f2: y}]}]` |
| Scenarios.ScalarThenNested | main.go:223-230 | columns `obj`, `obj.f` fail: obj already holds a string when the nested cell is written |
| Scenarios.ScalarThenArray | main.go:207-211 | columns `key`, `key[0].f` fail with NotAnArray: key already holds a string when the array segment is written |
| Scenarios.LineNumbers | main.go:165-236 | each entry of a one-column table gets its row number 1, 2; a key equal to the column is renamed to `key + suffix + "1"` first |
| Scenarios.OneColumnRow | main.go:165-236 | a one-column, one-row table, with and without a line-number key |
| Batch.ConvertFiles | main.go:66-91 | the file loop over a shared Args computes Run with csvToJson: the converted files' entries, the failure that stopped it, and the final key |
| Batch.Run | main.go:66-91 | the run yields at most one output per file, and one per file when no file stopped it |
| Batch.RunConverts | main.go:66-91 | the run converts a prefix of the files, each under the key left by the files before it |
| Batch.RunStops | main.go:66-91 | a run that stops does so at the first failing file, with that file's failure |
| Batch.TwoFiles | main.go:66-91 | two convertible files: the second is converted under the key the first left |
| Scenarios.RenameCarriesOver | main.go:66-75 | a key renamed for the first file stays renamed in the second, although the second file alone would use the original key |
| Batch.FailureSkipsLaterFiles | main.go:66-72 | a failing first file keeps a convertible second file from being converted |
| Scenarios.SkippedFileExample | main.go:66-72 | files `obj, obj.f` and `obj`: the run ends with NotAnObject and no output, although the second file converts |
| Batch.ConvertFilesIsolated | main.go:66-89 | the loop with a recover per file computes RunIsolated |
| Batch.RunIsolated | main.go:66-89 | a run with a recover per file yields one result per file |
| Batch.RunIsolatedShape | main.go:66-89 | with a recover per file every file is converted, each under the key left by the files before it |

## Left out

- Reading CSV files and standard input, removing and writing the `_output.json` files, and printing belong to the operating system. Each file is given as its table of rows.
- The CSV tokenising of encoding/csv is a library. The model takes the rows it returns.
- JSON encoding (`json.MarshalIndent`, `json.Compact`, the indent and minify options) is a library, so the model stops at the entries.
  - The encoder writes Go map keys in sorted order.
  - A table with a header and no data rows yields no entries, which Go encodes as `null`, not `[]`.
- Command-line parsing, help, version output, the build revision and the embedded-source dump are outside the converter.
- The path helpers (`GetFileNameWithoutExt`, `GetFilePathWithoutExt`, `replaceExt`) only build file names.
- Debug logging has no effect on the result.
- The width recomputation at main.go:188-196 changes nothing, and `Header.EveryCellNamed` shows its guard never holds.
- Converter.Entry: the row number `rowIndex + 1` is an unbounded integer. Go's int cannot overflow at any table size that fits in memory.
- Header.MaxWidth: column counts and duplicate counters are unbounded naturals. Go's int would only wrap beyond any table that fits in memory.
- The model uses Unicode characters where Go uses bytes. Only the ASCII characters `.`, `[`, `]`, `-`, `+` and the digits are examined, so the result is the same.
- Tree.Apply: the Go code walks a cursor through maps and slices that it mutates in place. The model rebuilds the path instead. Each container is stored in exactly one place, so no aliasing is lost.
- Converter.NormalizeHeader: requires a header row. The empty table is handled by `Converter.CsvToJson`, which fails with `NoHeaderRow` before the header pass.

## Findings

| source | as written | input that shows it | evidently intended | confidence | as-written member | corrected member |
|---|---|---|---|---|---|---|
| main.go:66-72 | the `recover` is deferred inside the file loop but runs in main's frame, so a panic in one file's conversion ends the whole loop and later files are never converted | two files: the first with columns `obj`, `obj.f` and row `x, y` (it panics on the type assertion at line 230); the second with column `obj` and row `x` | each file recovers on its own and the remaining files are still converted | not executed | Scenarios.SkippedFileExample | Batch.RunIsolatedShape |
