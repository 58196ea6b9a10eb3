/**
 * The row-to-tree builder: writing one cell's string at the dotted,
 * possibly indexed path its attribute names, creating objects and arrays
 * on the way.
 */
module Tree {
  import opened Results
  import opened Text
  import opened Segments

  /** A value in an entry: a cell's raw string, the row number, an object or an array. */
  datatype Value = Str(s: string) | Int(n: int) | Obj(fields: map<string, Value>) | Arr(items: seq<Value>)

  type Object = map<string, Value>

  /** The array under key, or a new empty one when the key is absent; anything else panics. */
  function ArrayAt(node: Object, key: string): (r: Result<seq<Value>>)
    ensures r.Success? <==> key !in node || node[key].Arr?
  {
    if key !in node then Success([])
    else match node[key]
      case Arr(items) => Success(items)
      case _ => Failure(NotAnArray(key))
  }

  /** The object under key, or a new empty one when the key is absent; anything else panics. */
  function ObjectAt(node: Object, key: string): (r: Result<Object>)
    ensures r.Success? <==> key !in node || node[key].Obj?
  {
    if key !in node then Success(map[])
    else match node[key]
      case Obj(fields) => Success(fields)
      case _ => Failure(NotAnObject(key))
  }

  /**
   * Writes value at the path segs below node, one segment at a time:
   * - a last plain key is assigned the string, overwriting what was there;
   * - a last array segment appends the string to the array at its key,
   *   whatever its index says;
   * - an inner plain key descends into the object at that key, created if absent;
   * - an inner array segment appends one empty object when its index is at or
   *   beyond the array's length, then descends into the element at the index.
   * Wrong-kind values and indices outside the array fail as the Go code panics.
   * Only the binding of the first segment's key changes.
   */
  function Apply(node: Object, segs: seq<string>, value: string): (r: Result<Object>)
    requires |segs| >= 1
    ensures r.Success? ==>
      && ParseSegment(segs[0]).Success?
      && var key := ParseSegment(segs[0]).value.key;
         key in r.value && r.value == node[key := r.value[key]]
    decreases |segs|
  {
    var seg :- ParseSegment(segs[0]);
    var key := seg.key;
    if seg.index != NotArray then
      var items :- ArrayAt(node, key);
      if |segs| == 1 then Success(node[key := Arr(items + [Str(value)])])
      else
        var grown := if seg.index >= |items| then items + [Obj(map[])] else items;
        if !(0 <= seg.index < |grown|) then Failure(IndexOutOfRange(key, seg.index, |grown|))
        else match grown[seg.index]
          case Obj(child) =>
            var written :- Apply(child, segs[1..], value);
            Success(node[key := Arr(grown[seg.index := Obj(written)])])
          case _ => Failure(NotAnObject(key))
    else if |segs| == 1 then Success(node[key := Str(value)])
    else
      var child :- ObjectAt(node, key);
      var written :- Apply(child, segs[1..], value);
      Success(node[key := Obj(written)])
  }

  /** The value at a path of plain keys, following objects only. */
  function Get(node: Object, keys: seq<string>): Option<Value>
    requires |keys| >= 1
    decreases |keys|
  {
    if keys[0] !in node then None
    else if |keys| == 1 then Some(node[keys[0]])
    else match node[keys[0]]
      case Obj(child) => Get(child, keys[1..])
      case _ => None
  }

  /** Every key before the last names an object or nothing. */
  predicate Writable(node: Object, keys: seq<string>)
    requires |keys| >= 1
    decreases |keys|
  {
    |keys| == 1 || keys[0] !in node || (node[keys[0]].Obj? && Writable(node[keys[0]].fields, keys[1..]))
  }

  predicate AllPlain(segs: seq<string>) {
    forall k :: 0 <= k < |segs| ==> IsPlain(segs[k])
  }

  /**
   * Along plain keys a write succeeds exactly when no inner key holds a
   * non-object, and the value can then be read back at the same path.
   */
  lemma {:induction false} ApplyPlain(node: Object, keys: seq<string>, value: string)
    requires |keys| >= 1 && AllPlain(keys)
    ensures Apply(node, keys, value).Success? <==> Writable(node, keys)
    ensures Apply(node, keys, value).Success? ==> Get(Apply(node, keys, value).value, keys) == Some(Str(value))
    decreases |keys|
  {
    ParsePlain(keys[0]);
    if |keys| > 1 {
      var key := keys[0];
      assert AllPlain(keys[1..]) by {
        assert forall k :: 0 <= k < |keys| - 1 ==> keys[1..][k] == keys[k + 1];
      }
      if key !in node {
        var empty: Object := map[];
        ApplyPlain(empty, keys[1..], value);
        assert Writable(empty, keys[1..]);
      } else if node[key].Obj? {
        ApplyPlain(node[key].fields, keys[1..], value);
      }
    }
  }

  /**
   * An inner plain segment (a bracket-free key, or one whose index is -1 such
   * as `a[-1]`), whatever kind of segments follow it: the rest of the path is
   * written into the object at the key (a new one when absent), so every
   * other field of that object and every other key of node keep their
   * values; a non-object at the key fails.
   */
  lemma ApplyInnerObject(node: Object, segs: seq<string>, key: string, value: string)
    requires |segs| >= 2 && ParseSegment(segs[0]) == Success(Segment(key, NotArray))
    ensures ObjectAt(node, key).Success? ==>
      var child := ObjectAt(node, key).value;
      && (Apply(node, segs, value).Success? <==> Apply(child, segs[1..], value).Success?)
      && (Apply(node, segs, value).Success? ==>
            Apply(node, segs, value).value == node[key := Obj(Apply(child, segs[1..], value).value)])
    ensures ObjectAt(node, key).Failure? ==> Apply(node, segs, value) == Failure(NotAnObject(key))
  {
  }

  /**
   * An inner array segment whose key holds something other than an array
   * fails before its index is looked at, as a last one does.
   */
  lemma ApplyInnerNotArray(node: Object, segs: seq<string>, key: string, index: int, value: string)
    requires |segs| >= 2
    requires ParseSegment(segs[0]) == Success(Segment(key, index)) && index != NotArray
    requires key in node && !node[key].Arr?
    ensures Apply(node, segs, value) == Failure(NotAnArray(key))
  {
  }

  /** A last array segment appends the string at its key and ignores its index. */
  lemma ApplyLastArray(node: Object, s: string, key: string, index: int, value: string)
    requires ParseSegment(s) == Success(Segment(key, index)) && index != NotArray
    ensures key !in node ==> Apply(node, [s], value) == Success(node[key := Arr([Str(value)])])
    ensures key in node && node[key].Arr? ==>
      Apply(node, [s], value) == Success(node[key := Arr(node[key].items + [Str(value)])])
    ensures key in node && !node[key].Arr? ==> Apply(node, [s], value) == Failure(NotAnArray(key))
  {
    assert [] + [Str(value)] == [Str(value)];
  }

  /**
   * An inner array segment extends the array by at most one object: an index
   * equal to the length adds one, an index within it reuses an element, and
   * any other index (negative, or beyond the length) fails; no padding. The
   * rest of the path is then written into the element at the index, which
   * must be an object.
   */
  lemma ApplyInnerArray(node: Object, segs: seq<string>, key: string, index: int, items: seq<Value>, value: string)
    requires |segs| >= 2
    requires ParseSegment(segs[0]) == Success(Segment(key, index)) && index != NotArray
    requires ArrayAt(node, key) == Success(items)
    ensures (index < 0 || index > |items|) ==>
      Apply(node, segs, value) == Failure(IndexOutOfRange(key, index, if index >= |items| then |items| + 1 else |items|))
    ensures Apply(node, segs, value).Success? ==>
      && 0 <= index <= |items|
      && Apply(node, segs, value).value[key].Arr?
      && |Apply(node, segs, value).value[key].items| == (if index == |items| then |items| + 1 else |items|)
      && forall k :: 0 <= k < |items| && k != index ==> Apply(node, segs, value).value[key].items[k] == items[k]
    ensures var grown := if index >= |items| then items + [Obj(map[])] else items;
      0 <= index < |grown| && grown[index].Obj? ==>
        && (Apply(node, segs, value).Success? <==> Apply(grown[index].fields, segs[1..], value).Success?)
        && (Apply(node, segs, value).Success? ==>
              Apply(node, segs, value).value ==
                node[key := Arr(grown[index := Obj(Apply(grown[index].fields, segs[1..], value).value)])])
    ensures var grown := if index >= |items| then items + [Obj(map[])] else items;
      0 <= index < |grown| && !grown[index].Obj? ==> Apply(node, segs, value) == Failure(NotAnObject(key))
  {
  }

  // ---- Writing one row ----

  /**
   * strings.Split(attribute, ".") followed by the segment walk: a write that
   * succeeds binds the key of the attribute's first segment and leaves every
   * other key of the entry as it was.
   */
  function WriteCell(entry: Object, attribute: string, value: string): (r: Result<Object>)
    ensures r.Success? ==> Holds(r.value, attribute)
    ensures r.Success? ==>
      var key := ParseSegment(Split(attribute, '.')[0]).value.key;
      r.value == entry[key := r.value[key]]
  {
    Apply(entry, Split(attribute, '.'), value)
  }

  /** A key usable as a plain segment or as the key of an array segment. */
  predicate IsKey(key: string) {
    key != "" && '.' !in key && '[' !in key && ']' !in key
  }

  /** An attribute without dots and brackets names a top-level key. */
  predicate IsFlat(attribute: string) {
    '.' !in attribute && IsPlain(attribute)
  }

  lemma WriteCellFlat(entry: Object, attribute: string, value: string)
    requires IsFlat(attribute)
    ensures WriteCell(entry, attribute, value) == Success(entry[attribute := Str(value)])
  {
    assert Split(attribute, '.') == [attribute];
    ParsePlain(attribute);
  }

  /** A dotted attribute of plain keys is written at its path and reads back there. */
  lemma WriteCellPath(entry: Object, attribute: string, value: string)
    requires AllPlain(Split(attribute, '.'))
    ensures WriteCell(entry, attribute, value).Success? <==> Writable(entry, Split(attribute, '.'))
    ensures WriteCell(entry, attribute, value).Success? ==>
      Get(WriteCell(entry, attribute, value).value, Split(attribute, '.')) == Some(Str(value))
  {
    ApplyPlain(entry, Split(attribute, '.'), value);
  }

  /** The first segment of attribute parses and its key is bound in entry. */
  predicate Holds(entry: Object, attribute: string) {
    var first := ParseSegment(Split(attribute, '.')[0]);
    first.Success? && first.value.key in entry
  }

  /**
   * The entry after writing cells i.. of the row, starting from entry: no
   * key is ever removed, and each written cell's first key is bound.
   */
  function BuildFrom(entry: Object, attrs: seq<string>, row: seq<string>, i: nat): (r: Result<Object>)
    requires |row| <= |attrs| && i <= |row|
    ensures r.Success? ==> entry.Keys <= r.value.Keys
    ensures r.Success? ==> forall j {:trigger Holds(r.value, attrs[j])} :: i <= j < |row| ==> Holds(r.value, attrs[j])
    decreases |row| - i
  {
    if i == |row| then Success(entry)
    else
      var next :- WriteCell(entry, attrs[i], row[i]);
      BuildFrom(next, attrs, row, i + 1)
  }

  /** The entry of one row: a fresh object with every cell written under its attribute, left to right. */
  function BuildEntry(attrs: seq<string>, row: seq<string>): (r: Result<Object>)
    requires |row| <= |attrs|
    ensures r.Success? ==> forall j {:trigger Holds(r.value, attrs[j])} :: 0 <= j < |row| ==> Holds(r.value, attrs[j])
  {
    BuildFrom(map[], attrs, row, 0)
  }

  /** No later cell of the row writes the same attribute as cell j. */
  predicate LastWrite(attrs: seq<string>, row: seq<string>, j: nat)
    requires j < |row| <= |attrs|
  {
    forall j' :: j < j' < |row| ==> attrs[j'] != attrs[j]
  }

  predicate FlatAttrs(attrs: seq<string>) {
    forall k :: 0 <= k < |attrs| ==> IsFlat(attrs[k])
  }

  /** The reference for rows under flat attributes: each cell sets its attribute's key, left to right. */
  function FlatBuild(entry: Object, attrs: seq<string>, row: seq<string>, i: nat): Object
    requires |row| <= |attrs| && i <= |row|
    decreases |row| - i
  {
    if i == |row| then entry else FlatBuild(entry[attrs[i] := Str(row[i])], attrs, row, i + 1)
  }

  /** Under flat attributes every cell write succeeds, and building agrees with the reference. */
  lemma {:induction false} BuildFromFlat(entry: Object, attrs: seq<string>, row: seq<string>, i: nat)
    requires |row| <= |attrs| && i <= |row| && FlatAttrs(attrs)
    ensures BuildFrom(entry, attrs, row, i) == Success(FlatBuild(entry, attrs, row, i))
    decreases |row| - i
  {
    if i < |row| {
      WriteCellFlat(entry, attrs[i], row[i]);
      BuildFromFlat(entry[attrs[i] := Str(row[i])], attrs, row, i + 1);
    }
  }

  /** The keys after a flat build: the keys before it and the attributes of the cells written. */
  lemma {:induction false} FlatBuildKeys(entry: Object, attrs: seq<string>, row: seq<string>, i: nat)
    requires |row| <= |attrs| && i <= |row|
    ensures forall key :: key in FlatBuild(entry, attrs, row, i) <==>
      key in entry || exists j :: i <= j < |row| && attrs[j] == key
    decreases |row| - i
  {
    if i < |row| {
      var next := entry[attrs[i] := Str(row[i])];
      FlatBuildKeys(next, attrs, row, i + 1);
      forall key
        ensures key in next <==> key in entry || key == attrs[i]
      {
      }
    }
  }

  /** A key no cell writes keeps its value. */
  lemma {:induction false} FlatBuildKeep(entry: Object, attrs: seq<string>, row: seq<string>, i: nat, key: string)
    requires |row| <= |attrs| && i <= |row|
    requires key in entry && forall j :: i <= j < |row| ==> attrs[j] != key
    ensures key in FlatBuild(entry, attrs, row, i)
    ensures FlatBuild(entry, attrs, row, i)[key] == entry[key]
    decreases |row| - i
  {
    if i < |row| {
      FlatBuildKeep(entry[attrs[i] := Str(row[i])], attrs, row, i + 1, key);
    }
  }

  /** The key of a cell no later cell writes holds that cell's string. */
  lemma {:induction false} FlatBuildLast(entry: Object, attrs: seq<string>, row: seq<string>, i: nat)
    requires |row| <= |attrs| && i <= |row|
    ensures forall j :: i <= j < |row| && LastWrite(attrs, row, j) ==>
      attrs[j] in FlatBuild(entry, attrs, row, i) && FlatBuild(entry, attrs, row, i)[attrs[j]] == Str(row[j])
    decreases |row| - i
  {
    if i < |row| {
      var next := entry[attrs[i] := Str(row[i])];
      FlatBuildLast(next, attrs, row, i + 1);
      var e := FlatBuild(next, attrs, row, i + 1);
      assert FlatBuild(entry, attrs, row, i) == e;
      forall j | i <= j < |row| && LastWrite(attrs, row, j)
        ensures attrs[j] in e && e[attrs[j]] == Str(row[j])
      {
        if j == i {
          FlatBuildKeep(next, attrs, row, i + 1, attrs[i]);
        } else {
          assert i + 1 <= j;
        }
      }
    }
  }

  /**
   * A row under flat attributes reads back as a flat object: its keys are the
   * attributes of the row's cells, and each holds the last cell written to it.
   */
  lemma BuildEntryFlat(attrs: seq<string>, row: seq<string>)
    requires |row| <= |attrs| && FlatAttrs(attrs)
    ensures BuildEntry(attrs, row).Success?
    ensures forall key :: key in BuildEntry(attrs, row).value <==> exists j :: 0 <= j < |row| && attrs[j] == key
    ensures forall j :: 0 <= j < |row| && LastWrite(attrs, row, j) ==>
      BuildEntry(attrs, row).value[attrs[j]] == Str(row[j])
  {
    BuildFromFlat(map[], attrs, row, 0);
    FlatBuildKeys(map[], attrs, row, 0);
    FlatBuildLast(map[], attrs, row, 0);
  }
}
