/** Whole conversions of small tables, worked through the model. */
module Scenarios {
  import opened Results
  import opened Numerals
  import opened Text
  import opened Segments
  import opened Header
  import opened Tree
  import opened Converter
  import opened Batch

  /** The header of a two-row table with distinct non-empty names is kept as it is. */
  lemma TwoColumnHeader(a: string, b: string, r0: string, r1: string, prefix: string, suffix: string)
    requires a != "" && b != "" && a != b
    ensures NormalizedHeader([[a, b], [r0, r1]], prefix, suffix) == [a, b]
    ensures Named([[a, b], [r0, r1]], prefix) == [a, b]
  {
    var rows := [[a, b], [r0, r1]];
    CleanHeaderUnchanged(rows, prefix, suffix);
    EmptyCellNamed(rows, prefix, 0);
    EmptyCellNamed(rows, prefix, 1);
  }

  lemma NoSeparator(s: string, sep: char)
    requires sep !in s
    ensures Split(s, sep) == [s]
  {
  }

  /** The single data row of a table becomes the single entry; no line number is added. */
  lemma OneRowTable(header: seq<string>, row: seq<string>, prefix: string, suffix: string, attrs: seq<string>, e: Object)
    requires NormalizedHeader([header, row], prefix, suffix) == attrs
    requires |row| <= |attrs| && BuildEntry(attrs, row) == Success(e)
    requires NewLineNumber([header, row], prefix, suffix, "") == ""
    ensures Convert([header, row], prefix, suffix, "") == Success([e])
  {
    assert [header, row][1..] == [row];
    assert Fits([row], attrs);
    assert Entry(attrs, row, "", 0) == Success(e);
    assert EntriesFrom(attrs, [row], "", 1) == Success([]);
    assert [e] + [] == [e];
  }

  /** A row of two cells is built by writing the first cell, then the second. */
  lemma TwoCells(a: string, b: string, x: string, y: string, one: Object, two: Object)
    requires WriteCell(map[], a, x) == Success(one) && WriteCell(one, b, y) == Success(two)
    ensures BuildEntry([a, b], [x, y]) == Success(two)
  {
    assert BuildFrom(two, [a, b], [x, y], 2) == Success(two);
    assert BuildFrom(one, [a, b], [x, y], 1) == Success(two);
  }

  /** Two array-segment columns of the same key, over [x, y], build {key: [x, y]}: the indices are not consulted. */
  lemma ArrayPair(h0: string, h1: string, key: string, i0: int, i1: int, x: string, y: string)
    requires '.' !in h0 && ParseSegment(h0) == Success(Segment(key, i0)) && i0 != NotArray
    requires '.' !in h1 && ParseSegment(h1) == Success(Segment(key, i1)) && i1 != NotArray
    ensures BuildEntry([h0, h1], [x, y]) == Success(map[key := Arr([Str(x), Str(y)])])
  {
    var empty: Object := map[];
    var one := empty[key := Arr([Str(x)])];
    var v := Arr([Str(x), Str(y)]);
    var two := one[key := v];
    NoSeparator(h0, '.');
    NoSeparator(h1, '.');
    ApplyLastArray(empty, h0, key, i0, x);
    ApplyLastArray(one, h1, key, i1, y);
    assert [Str(x)] + [Str(y)] == [Str(x), Str(y)];
    TwoCells(h0, h1, x, y, one, two);
    assert two == map[key := v] by {
      assert two.Keys == {key};
    }
  }

  /** The segment `key[n]` has no dot when key has none. */
  lemma FormattedNoDot(key: string, n: nat)
    requires '.' !in key
    ensures '.' !in FormatArraySegment(key, n)
  {
    assert forall k :: 0 <= k < |Decimal(n)| ==> IsDigit(Decimal(n)[k]);
  }

  /** `key[0]`, `key[1]` over [x, y] gives {key: [x, y]}: last array segments append. */
  lemma ArrayColumns(key: string, x: string, y: string, prefix: string, suffix: string)
    requires IsKey(key)
    ensures var rows := [[FormatArraySegment(key, 0), FormatArraySegment(key, 1)], [x, y]];
      Convert(rows, prefix, suffix, "") == Success([map[key := Arr([Str(x), Str(y)])]])
  {
    var h0, h1 := FormatArraySegment(key, 0), FormatArraySegment(key, 1);
    assert Decimal(0) == "0" && Decimal(1) == "1";
    assert h0 != h1 by {
      assert h0[|key| + 1] != h1[|key| + 1];
    }
    TwoColumnHeader(h0, h1, x, y, prefix, suffix);
    assert NewLineNumber([[h0, h1], [x, y]], prefix, suffix, "") == "";
    ParseFormatted(key, 0);
    ParseFormatted(key, 1);
    FormattedNoDot(key, 0);
    FormattedNoDot(key, 1);
    ArrayPair(h0, h1, key, 0, 1, x, y);
    OneRowTable([h0, h1], [x, y], prefix, suffix, [h0, h1], map[key := Arr([Str(x), Str(y)])]);
  }

  /** An empty third header cell is named with index 2: generated names count columns from 0. */
  lemma ThirdColumnName(a: string, b: string, prefix: string)
    ensures Named([[a, b, ""]], prefix)[2] == prefix + "2"
  {
    EmptyCellNamed([[a, b, ""]], prefix, 2);
    assert Decimal(2) == "2";
  }

  /** Two columns of the same non-empty name: the second gets the suffix and 2. */
  lemma RepeatedName(h: string, r0: string, r1: string, prefix: string, suffix: string)
    requires h != ""
    ensures Named([[h, h], [r0, r1]], prefix) == [h, h]
    ensures NormalizedHeader([[h, h], [r0, r1]], prefix, suffix) == [h, h + suffix + "2"]
  {
    var rows := [[h, h], [r0, r1]];
    assert MaxWidth(rows) == 2;
    var named := Named(rows, prefix);
    EmptyCellNamed(rows, prefix, 0);
    EmptyCellNamed(rows, prefix, 1);
    assert named == [h, h];
    assert Occurrence(named, 1) == 2 by {
      assert named[..2] == [h, h];
      assert [h, h][..1] == [h];
      assert [h][..0] == [];
      assert Count([h], h) == 1;
    }
    assert Decimal(2) == "2";
    DedupKeepsFirst(named, suffix, 0);
  }

  /** `key[]` followed by any dot-free text is a dot-free array segment of key with index 0. */
  lemma EmptyIndexColumn(key: string, tail: string)
    requires IsKey(key) && '.' !in tail
    ensures '.' !in key + "[]" + tail
    ensures ParseSegment(key + "[]" + tail) == Success(Segment(key, 0))
  {
    assert key + "[]" + tail == key + "[" + "" + "]" + tail;
    EmptyIndexIsZero(key, "", tail);
  }

  /**
   * Two columns both named `key[]` over [x, y] also give {key: [x, y]}: the
   * second is renamed `key[]` + suffix + "2", and the text after its closing
   * bracket is ignored when it is written.
   */
  lemma RepeatedArrayColumn(key: string, x: string, y: string, prefix: string, suffix: string)
    requires IsKey(key) && '.' !in suffix
    ensures var h := key + "[]";
      Convert([[h, h], [x, y]], prefix, suffix, "") == Success([map[key := Arr([Str(x), Str(y)])]])
  {
    var h := key + "[]";
    var h2 := h + suffix + "2";
    RepeatedName(h, x, y, prefix, suffix);
    assert NewLineNumber([[h, h], [x, y]], prefix, suffix, "") == "";
    assert '.' !in h && ParseSegment(h) == Success(Segment(key, 0)) by {
      EmptyIndexColumn(key, "");
      assert h + "" == h;
    }
    RenamedEmptyIndex(key, suffix);
    ArrayPair(h, h2, key, 0, 0, x, y);
    OneRowTable([h, h], [x, y], prefix, suffix, [h, h2], map[key := Arr([Str(x), Str(y)])]);
  }

  /** The renamed repeat `key[]` + suffix + "2" of `key[]` is still a dot-free array segment 0 of key. */
  lemma RenamedEmptyIndex(key: string, suffix: string)
    requires IsKey(key) && '.' !in suffix
    ensures '.' !in key + "[]" + suffix + "2"
    ensures ParseSegment(key + "[]" + suffix + "2") == Success(Segment(key, 0))
  {
    var tail := suffix + "2";
    assert '.' !in tail;
    assert key + "[]" + suffix + "2" == key + "[]" + tail;
    EmptyIndexColumn(key, tail);
  }

  /** A cell under `obj.f` writes field f of the object at obj, making the object when obj is unbound. */
  lemma WriteNested(node: Object, obj: string, f: string, value: string)
    requires IsKey(obj) && IsKey(f)
    ensures obj !in node ==>
      WriteCell(node, obj + "." + f, value) == Success(node[obj := Obj(map[f := Str(value)])])
    ensures obj in node && node[obj].Obj? ==>
      WriteCell(node, obj + "." + f, value) == Success(node[obj := Obj(node[obj].fields[f := Str(value)])])
    ensures obj in node && !node[obj].Obj? ==>
      WriteCell(node, obj + "." + f, value) == Failure(NotAnObject(obj))
  {
    assert Join([obj, f], '.') == obj + "." + f;
    SplitJoin([obj, f], '.');
    ParsePlain(obj);
    ParsePlain(f);
    assert [obj, f][1..] == [f];
    var child := if obj in node && node[obj].Obj? then node[obj].fields else map[];
    assert Apply(child, [f], value) == Success(child[f := Str(value)]);
    if obj !in node || node[obj].Obj? {
      assert ObjectAt(node, obj) == Success(child);
      assert Apply(node, [obj, f], value) == Success(node[obj := Obj(child[f := Str(value)])]);
    }
  }

  /** Leading zeros do not change an index: `key[007]` is element 7. */
  lemma PaddedIndex(key: string)
    requires IsKey(key)
    ensures ParseSegment(key + "[007]") == Success(Segment(key, 7))
  {
    assert key + "[" + "007" + "]" + "" == key + "[007]";
    assert DigitsValue("007") == 7 by {
      assert "007"[..2] == "00" && "00"[..1] == "0";
      assert DigitsValue("00") == 0;
    }
    DigitIndex(key, "007", "007", "");
  }

  /** A plus sign does not change an index: `key[+5]` is element 5. */
  lemma SignedIndex(key: string)
    requires IsKey(key)
    ensures ParseSegment(key + "[+5]") == Success(Segment(key, 5))
  {
    assert key + "[" + "+5" + "]" + "" == key + "[+5]";
    assert DigitsValue("5") == 5;
    DigitIndex(key, "+5", "5", "");
  }

  /**
   * A cell under `obj.s`, s an array segment such as `tags[]`, makes an
   * object at obj holding a one-element array: an array below an object.
   */
  lemma NestedArrayCell(obj: string, s: string, key: string, i: int, value: string)
    requires IsKey(obj) && '.' !in s
    requires ParseSegment(s) == Success(Segment(key, i)) && i != NotArray
    ensures WriteCell(map[], obj + "." + s, value) == Success(map[obj := Obj(map[key := Arr([Str(value)])])])
  {
    assert Join([obj, s], '.') == obj + "." + s;
    SplitJoin([obj, s], '.');
    assert [obj, s][1..] == [s];
    var empty: Object := map[];
    ParsePlain(obj);
    ApplyInnerObject(empty, [obj, s], obj, value);
    ApplyLastArray(empty, s, key, i, value);
  }

  /** `key[-1].f` names no array: the cell makes an object at key holding field f. */
  lemma MinusOneDescends(key: string, f: string, value: string)
    requires IsKey(key) && IsKey(f)
    ensures WriteCell(map[], key + "[-1]" + "." + f, value) == Success(map[key := Obj(map[f := Str(value)])])
  {
    var s0 := key + "[-1]";
    assert '.' !in s0;
    assert Join([s0, f], '.') == s0 + "." + f;
    SplitJoin([s0, f], '.');
    assert [s0, f][1..] == [f];
    MinusOneIsPlainKey(key);
    var empty: Object := map[];
    ApplyInnerObject(empty, [s0, f], key, value);
    ParsePlain(f);
    assert Apply(empty, [f], value) == Success(map[f := Str(value)]);
  }

  /** Writing `obj.f1` then `obj.f2` into a fresh object makes {obj: {f1: x, f2: y}}. */
  lemma NestedPair(obj: string, f1: string, f2: string, x: string, y: string)
    requires IsKey(obj) && IsKey(f1) && IsKey(f2) && f1 != f2
    ensures BuildEntry([obj + "." + f1, obj + "." + f2], [x, y]) ==
      Success(map[obj := Obj(map[f1 := Str(x), f2 := Str(y)])])
  {
    var empty: Object := map[];
    var inner := map[f1 := Str(x)];
    var one := empty[obj := Obj(inner)];
    var two := one[obj := Obj(inner[f2 := Str(y)])];
    assert WriteCell(empty, obj + "." + f1, x) == Success(one) by {
      WriteNested(empty, obj, f1, x);
    }
    assert WriteCell(one, obj + "." + f2, y) == Success(two) by {
      WriteNested(one, obj, f2, y);
    }
    TwoCells(obj + "." + f1, obj + "." + f2, x, y, one, two);
    assert two == map[obj := Obj(map[f1 := Str(x), f2 := Str(y)])] by {
      assert inner[f2 := Str(y)] == map[f1 := Str(x), f2 := Str(y)];
      assert two.Keys == {obj};
    }
  }

  /** `obj.f1`, `obj.f2` over [x, y] gives {obj: {f1: x, f2: y}}. */
  lemma NestedColumns(obj: string, f1: string, f2: string, x: string, y: string, prefix: string, suffix: string)
    requires IsKey(obj) && IsKey(f1) && IsKey(f2) && f1 != f2
    ensures var rows := [[obj + "." + f1, obj + "." + f2], [x, y]];
      Convert(rows, prefix, suffix, "") == Success([map[obj := Obj(map[f1 := Str(x), f2 := Str(y)])]])
  {
    var h1, h2 := obj + "." + f1, obj + "." + f2;
    assert h1 != h2 by {
      assert h1[|obj| + 1..] == f1 && h2[|obj| + 1..] == f2;
    }
    TwoColumnHeader(h1, h2, x, y, prefix, suffix);
    assert NewLineNumber([[h1, h2], [x, y]], prefix, suffix, "") == "";
    NestedPair(obj, f1, f2, x, y);
    OneRowTable([h1, h2], [x, y], prefix, suffix, [h1, h2], map[obj := Obj(map[f1 := Str(x), f2 := Str(y)])]);
  }

  /** The attribute `key[0].f` splits into the array segment `key[0]` and the plain key f. */
  lemma ElementFieldPath(key: string, f: string)
    requires IsKey(key) && IsKey(f)
    ensures var s0 := FormatArraySegment(key, 0);
      && Split(s0 + "." + f, '.') == [s0, f]
      && ParseSegment(s0) == Success(Segment(key, 0))
      && ParseSegment(f) == Success(Segment(f, NotArray))
  {
    var s0 := FormatArraySegment(key, 0);
    FormattedNoDot(key, 0);
    assert Join([s0, f], '.') == s0 + "." + f;
    SplitJoin([s0, f], '.');
    ParseFormatted(key, 0);
    ParsePlain(f);
  }

  /**
   * A cell under `key[0].f` writes field f of element 0 of the array at key;
   * an unbound key or an empty array first gets one new object.
   */
  lemma WriteElementField(node: Object, key: string, f: string, value: string, items: seq<Value>)
    requires IsKey(key) && IsKey(f) && ArrayAt(node, key) == Success(items)
    ensures var grown := if |items| == 0 then [Obj(map[])] else items;
      grown[0].Obj? ==>
        WriteCell(node, FormatArraySegment(key, 0) + "." + f, value) ==
        Success(node[key := Arr(grown[0 := Obj(grown[0].fields[f := Str(value)])])])
  {
    var s0 := FormatArraySegment(key, 0);
    ElementFieldPath(key, f);
    assert [s0, f][1..] == [f];
    ApplyInnerArray(node, [s0, f], key, 0, items, value);
    var grown := if |items| == 0 then [Obj(map[])] else items;
    assert grown == if 0 >= |items| then items + [Obj(map[])] else items;
    if grown[0].Obj? {
      assert Apply(grown[0].fields, [f], value) == Success(grown[0].fields[f := Str(value)]);
    }
  }

  /** Writing `key[0].f1` then `key[0].f2` into a fresh object makes {key: [{f1: x, f2: y}]}. */
  lemma InnerArrayPair(key: string, f1: string, f2: string, x: string, y: string)
    requires IsKey(key) && IsKey(f1) && IsKey(f2) && f1 != f2
    ensures var s0 := FormatArraySegment(key, 0);
      BuildEntry([s0 + "." + f1, s0 + "." + f2], [x, y]) == Success(map[key := Arr([Obj(map[f1 := Str(x), f2 := Str(y)])])])
  {
    var s0 := FormatArraySegment(key, 0);
    var empty: Object := map[];
    var inner := map[f1 := Str(x)];
    var one := empty[key := Arr([Obj(inner)])];
    var both := inner[f2 := Str(y)];
    var two := one[key := Arr([Obj(both)])];
    assert two == map[key := Arr([Obj(map[f1 := Str(x), f2 := Str(y)])])] by {
      assert both == map[f1 := Str(x), f2 := Str(y)];
      assert two.Keys == {key};
    }
    assert WriteCell(empty, s0 + "." + f1, x) == Success(one) by {
      WriteElementField(empty, key, f1, x, []);
      assert [Obj(map[])][0 := Obj(inner)] == [Obj(inner)];
    }
    assert WriteCell(one, s0 + "." + f2, y) == Success(two) by {
      WriteElementField(one, key, f2, y, [Obj(inner)]);
      assert [Obj(inner)][0 := Obj(both)] == [Obj(both)];
    }
    TwoCells(s0 + "." + f1, s0 + "." + f2, x, y, one, two);
  }

  /** `key[0].f1`, `key[0].f2` over [x, y] gives {key: [{f1: x, f2: y}]}: both cells land in the same element. */
  lemma InnerArrayColumns(key: string, f1: string, f2: string, x: string, y: string, prefix: string, suffix: string)
    requires IsKey(key) && IsKey(f1) && IsKey(f2) && f1 != f2
    ensures var s0 := FormatArraySegment(key, 0);
      var rows := [[s0 + "." + f1, s0 + "." + f2], [x, y]];
      Convert(rows, prefix, suffix, "") == Success([map[key := Arr([Obj(map[f1 := Str(x), f2 := Str(y)])])]])
  {
    var s0 := FormatArraySegment(key, 0);
    var h1, h2 := s0 + "." + f1, s0 + "." + f2;
    assert h1 != h2 by {
      assert h1[|s0| + 1..] == f1 && h2[|s0| + 1..] == f2;
    }
    TwoColumnHeader(h1, h2, x, y, prefix, suffix);
    assert NewLineNumber([[h1, h2], [x, y]], prefix, suffix, "") == "";
    InnerArrayPair(key, f1, f2, x, y);
    OneRowTable([h1, h2], [x, y], prefix, suffix, [h1, h2], map[key := Arr([Obj(map[f1 := Str(x), f2 := Str(y)])])]);
  }

  /**
   * A column `obj` followed by a column `obj.f` stops the conversion: obj
   * already holds a string when the nested cell is written.
   */
  lemma ScalarThenNested(obj: string, f: string, x: string, y: string, prefix: string, suffix: string)
    requires IsKey(obj) && IsKey(f)
    ensures Convert([[obj, obj + "." + f], [x, y]], prefix, suffix, "") == Failure(NotAnObject(obj))
  {
    var h := obj + "." + f;
    assert obj != h by {
      assert |obj| < |h|;
    }
    TwoColumnHeader(obj, h, x, y, prefix, suffix);
    assert NewLineNumber([[obj, h], [x, y]], prefix, suffix, "") == "";
    var empty: Object := map[];
    var one := empty[obj := Str(x)];
    assert IsFlat(obj);
    WriteCellFlat(empty, obj, x);
    WriteNested(one, obj, f, y);
    var attrs, row := [obj, h], [x, y];
    assert BuildFrom(one, attrs, row, 1) == Failure(NotAnObject(obj));
    assert BuildEntry(attrs, row) == Failure(NotAnObject(obj));
    var rows := [attrs, row];
    assert rows[1..] == [row];
    assert Entry(attrs, row, "", 0) == Failure(NotAnObject(obj));
  }

  /**
   * A column `key` followed by a column `key[0].f` stops the conversion: key
   * already holds a string when the array segment is written.
   */
  lemma ScalarThenArray(key: string, f: string, x: string, y: string, prefix: string, suffix: string)
    requires IsKey(key) && IsKey(f)
    ensures var h := FormatArraySegment(key, 0) + "." + f;
      Convert([[key, h], [x, y]], prefix, suffix, "") == Failure(NotAnArray(key))
  {
    var s0 := FormatArraySegment(key, 0);
    var h := s0 + "." + f;
    assert key != h by {
      assert |key| < |h|;
    }
    TwoColumnHeader(key, h, x, y, prefix, suffix);
    assert NewLineNumber([[key, h], [x, y]], prefix, suffix, "") == "";
    var empty: Object := map[];
    var one := empty[key := Str(x)];
    assert IsFlat(key);
    WriteCellFlat(empty, key, x);
    assert WriteCell(one, h, y) == Failure(NotAnArray(key)) by {
      ElementFieldPath(key, f);
      ApplyInnerNotArray(one, [s0, f], key, 0, y);
    }
    var attrs, row := [key, h], [x, y];
    assert BuildFrom(one, attrs, row, 1) == Failure(NotAnArray(key));
    assert BuildEntry(attrs, row) == Failure(NotAnArray(key));
    var rows := [attrs, row];
    assert rows[1..] == [row];
    assert Entry(attrs, row, "", 0) == Failure(NotAnArray(key));
  }

  /**
   * With a line-number key, each entry of a one-column table also gets its
   * 1-based row number; a key equal to the column name is first renamed to
   * name + suffix + "1".
   */
  lemma LineNumbers(a: string, x: string, y: string, prefix: string, suffix: string, lineNumber: string)
    requires a != "" && IsFlat(a) && lineNumber != ""
    ensures var rows := [[a], [x], [y]];
      var key := if lineNumber == a then a + suffix + "1" else lineNumber;
      && NewLineNumber(rows, prefix, suffix, lineNumber) == key
      && Convert(rows, prefix, suffix, lineNumber) ==
         Success([map[a := Str(x), key := Int(1)], map[a := Str(y), key := Int(2)]])
  {
    var rows := [[a], [x], [y]];
    var key := if lineNumber == a then a + suffix + "1" else lineNumber;
    var attrs, data := [a], [[x], [y]];
    assert NormalizedHeader(rows, prefix, suffix) == attrs by {
      CleanHeaderUnchanged(rows, prefix, suffix);
    }
    assert NewLineNumber(rows, prefix, suffix, lineNumber) == key by {
      EmptyCellNamed(rows, prefix, 0);
      assert Named(rows, prefix) == [a];
      assert Count([a], a) == 1 by {
        assert [a][..0] == [];
      }
      assert Decimal(1) == "1";
    }
    var empty: Object := map[];
    var e1, e2 := map[a := Str(x), key := Int(1)], map[a := Str(y), key := Int(2)];
    assert Entry(attrs, [x], key, 0) == Success(e1) by {
      WriteCellFlat(empty, a, x);
      assert BuildFrom(empty[a := Str(x)], attrs, [x], 1) == Success(empty[a := Str(x)]);
    }
    assert Entry(attrs, [y], key, 1) == Success(e2) by {
      WriteCellFlat(empty, a, y);
      assert BuildFrom(empty[a := Str(y)], attrs, [y], 1) == Success(empty[a := Str(y)]);
    }
    assert EntriesFrom(attrs, data, key, 0) == Success([e1, e2]) by {
      assert Fits(data, attrs);
      assert EntriesFrom(attrs, data, key, 2) == Success([]);
      assert data[0] == [x] && data[1] == [y];
      assert [e2] + [] == [e2] && [e1] + [e2] == [e1, e2];
      assert EntriesFrom(attrs, data, key, 1) == Success([e2]);
    }
    assert rows[1..] == data;
  }

  /**
   * A one-column, one-row table; under a line-number key its entry also
   * holds 1, a key equal to the column being renamed first.
   */
  lemma OneColumnRow(a: string, x: string, prefix: string, suffix: string, lineNumber: string)
    requires a != "" && IsFlat(a)
    ensures var key := if lineNumber == a then a + suffix + "1" else lineNumber;
      && NewLineNumber([[a], [x]], prefix, suffix, lineNumber) == key
      && Convert([[a], [x]], prefix, suffix, lineNumber) ==
         Success([if key == "" then map[a := Str(x)] else map[a := Str(x), key := Int(1)]])
  {
    var rows := [[a], [x]];
    var key := if lineNumber == a then a + suffix + "1" else lineNumber;
    CleanHeaderUnchanged(rows, prefix, suffix);
    EmptyCellNamed(rows, prefix, 0);
    assert Named(rows, prefix) == [a];
    assert Count([a], a) == 1 by {
      assert [a][..0] == [];
    }
    assert Decimal(1) == "1";
    assert NewLineNumber(rows, prefix, suffix, lineNumber) == key;
    var attrs := [a];
    assert rows[1..] == [[x]];
    var empty: Object := map[];
    WriteCellFlat(empty, a, x);
    assert BuildFrom(empty[a := Str(x)], attrs, [x], 1) == Success(empty[a := Str(x)]);
    var e := if key == "" then map[a := Str(x)] else map[a := Str(x), key := Int(1)];
    assert Entry(attrs, [x], key, 0) == Success(e);
    assert Fits([[x]], attrs);
    assert EntriesFrom(attrs, [[x]], key, 1) == Success([]);
    assert [e] + [] == [e];
  }

  /**
   * A key renamed for the first file stays renamed for the second, even when
   * the second has no column of that name: converted on its own, the second
   * file would carry the row number under the original key.
   */
  lemma RenameCarriesOver(a: string, b: string, x: string, y: string, prefix: string, suffix: string)
    requires a != "" && IsFlat(a) && b != "" && IsFlat(b) && b != a && b != a + suffix + "1"
    ensures var renamed := a + suffix + "1";
      && Run([[[a], [x]], [[b], [y]]], Conversion(prefix, suffix), Renaming(prefix, suffix), a) ==
         Outcome([[map[a := Str(x), renamed := Int(1)]], [map[b := Str(y), renamed := Int(1)]]], None, renamed)
      && Convert([[b], [y]], prefix, suffix, a) == Success([map[b := Str(y), a := Int(1)]])
  {
    var renamed := a + suffix + "1";
    var first, second := [[a], [x]], [[b], [y]];
    var out1, out2 := [map[a := Str(x), renamed := Int(1)]], [map[b := Str(y), renamed := Int(1)]];
    assert NewLineNumber(first, prefix, suffix, a) == renamed && Convert(first, prefix, suffix, a) == Success(out1) by {
      OneColumnRow(a, x, prefix, suffix, a);
    }
    assert NewLineNumber(second, prefix, suffix, renamed) == renamed && Convert(second, prefix, suffix, renamed) == Success(out2) by {
      OneColumnRow(b, y, prefix, suffix, renamed);
    }
    OneColumnRow(b, y, prefix, suffix, a);
    TwoFiles(first, second, Conversion(prefix, suffix), Renaming(prefix, suffix), a);
  }

  /** Such a pair of files: `obj`, `obj.f` fails, while a plain one-column table converts. */
  lemma SkippedFileExample(obj: string, f: string, x: string, y: string, prefix: string, suffix: string)
    requires IsKey(obj) && IsKey(f)
    ensures var bad, good := [[obj, obj + "." + f], [x, y]], [[obj], [x]];
      var convert, rename := Conversion(prefix, suffix), Renaming(prefix, suffix);
      && Run([bad, good], convert, rename, "") == Outcome([], Some(NotAnObject(obj)), "")
      && RunIsolated([bad, good], convert, rename, "") == [Failure(NotAnObject(obj)), Success([map[obj := Str(x)]])]
  {
    var bad, good := [[obj, obj + "." + f], [x, y]], [[obj], [x]];
    ScalarThenNested(obj, f, x, y, prefix, suffix);
    assert NewLineNumber(bad, prefix, suffix, "") == "" by {
      assert obj != obj + "." + f by {
        assert |obj| < |obj + "." + f|;
      }
      TwoColumnHeader(obj, obj + "." + f, x, y, prefix, suffix);
    }
    OneColumnRow(obj, x, prefix, suffix, "");
    FailureSkipsLaterFiles(bad, good, Conversion(prefix, suffix), Renaming(prefix, suffix), "");
  }
}
