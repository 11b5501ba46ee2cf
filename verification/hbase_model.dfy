/** The pure part of `HBaseModel`: a record schema (the class's field
    descriptors in declaration order plus its `Meta`), the row-key and column
    codecs, reconstruction of a record from a fetched row, the empty-column
    check of `save`, and the table name. */
module HBaseModel {
  import opened Wrappers
  import opened Sequences
  import opened Strings
  import opened Fields

  /** The exceptions the mapper raises. */
  datatype Error =
    | MissingRowKeyField(key: string)            // BadRowKeyError: '<key> is missing in the row key.'
    | ColonInRowKey(key: string, value: string)   // BadRowKeyError: "<key> should not contain ':' ..."
    | EmptyColumn                                 // EmptyColumnError
    | MissingTableName                            // NotImplementedError
    | UnknownField(key: string)                   // KeyError from the field lookup
    | BadIntValue(key: string, value: string)     // ValueError from int()

  /** A record type: its field descriptors in declaration order (what
      `get_field_hash` collects), `Meta.row_key` and `Meta.table_name`. */
  datatype Schema = Schema(fields: seq<Field>, rowKey: seq<string>, tableName: Option<string>)

  /** Attribute values of a record (a keyword dict or an instance's
      `__dict__`); an absent key is Python's `None`. */
  type Data = map<string, Value>

  /** The column dict of a row, in iteration order: (`"cf:name"`, serialised value). */
  type RowData = seq<(string, string)>

  /** What `save` hands to `table.put`. */
  datatype PutRequest = PutRequest(table: string, rowKey: string, columns: RowData)

  const Delimiter: char := ':'

  /* ------------------------------------------------------------ the schema */

  function Names(fields: seq<Field>): (r: seq<string>)
    ensures |r| == |fields|
    ensures forall i :: 0 <= i < |fields| ==> r[i] == fields[i].name
  {
    if fields == [] then [] else [fields[0].name] + Names(fields[1..])
  }

  /** The row-key fields, in declaration order. */
  function RowKeyFields(fields: seq<Field>): (r: seq<Field>)
    ensures forall f :: f in r <==> f in fields && IsRowKeyField(f)
  {
    if fields == [] then []
    else (if IsRowKeyField(fields[0]) then [fields[0]] else []) + RowKeyFields(fields[1..])
  }

  predicate DistinctNames(fields: seq<Field>) {
    forall i, j :: 0 <= i < j < |fields| ==> fields[i].name != fields[j].name
  }

  /** The shape the `HBaseFollowing`/`HBaseFollower` schemas have: field names
      are distinct (they are class attributes), `Meta.row_key` lists the
      row-key fields in declaration order, and no column family holds ':'. */
  predicate ConsistentSchema(s: Schema) {
    && DistinctNames(s.fields)
    && s.rowKey == Names(RowKeyFields(s.fields))
    && (forall f :: f in s.fields && !IsRowKeyField(f) ==> Delimiter !in f.columnFamily.value)
  }

  /** `get_field_hash()[key]`; `None` is the `KeyError`. */
  function LookupField(fields: seq<Field>, key: string): (r: Option<Field>)
    ensures r.Some? ==> r.value in fields && r.value.name == key
    ensures r.None? <==> forall f :: f in fields ==> f.name != key
  {
    if fields == [] then None
    else if fields[0].name == key then Some(fields[0])
    else LookupField(fields[1..], key)
  }

  /** `HBaseModel.__init__`: every declared field takes its keyword value
      (absent means None); keywords naming no field are dropped. */
  function Construct(schema: Schema, kwargs: Data): (r: Data)
    ensures forall k :: k in r <==> k in kwargs && k in Names(schema.fields)
    ensures forall k :: k in r ==> r[k] == kwargs[k]
  {
    map k | k in kwargs && k in Names(schema.fields) :: kwargs[k]
  }

  /* --------------------------------------------------------------- row key */

  /** A row-key field whose value may go into a key: present, and without ':'
      once serialised. */
  predicate SegmentOk(f: Field, data: Data) {
    f.name in data && Delimiter !in SerializeField(f, data[f.name])
  }

  function SegmentError(f: Field, data: Data): Error {
    if f.name !in data then MissingRowKeyField(f.name)
    else ColonInRowKey(f.name, SerializeField(f, data[f.name]))
  }

  /** `rk[i]` is the first row-key field that cannot go into a key. */
  predicate FirstBadSegment(rk: seq<Field>, data: Data, i: int) {
    0 <= i < |rk| && !SegmentOk(rk[i], data)
    && forall j :: 0 <= j < i ==> SegmentOk(rk[j], data)
  }

  /** The loop of `serialize_row_key`: skip column fields, fail on the first
      missing or ':'-holding row-key value, else collect the serialised values. */
  function RowKeySegments(fields: seq<Field>, data: Data): (r: Result<seq<string>, Error>)
    ensures r.Err? ==> r.error.MissingRowKeyField? || r.error.ColonInRowKey?
  {
    if fields == [] then Ok([])
    else
      var f := fields[0];
      if !IsRowKeyField(f) then RowKeySegments(fields[1..], data)
      else if !SegmentOk(f, data) then Err(SegmentError(f, data))
      else
        var rest :- RowKeySegments(fields[1..], data);
        Ok([SerializeField(f, data[f.name])] + rest)
  }

  /** The segments are the serialised row-key values in declaration order,
      and they exist exactly when every row-key value may go into a key. */
  lemma RowKeySegmentsOk(fields: seq<Field>, data: Data)
    ensures var r := RowKeySegments(fields, data);
      r.Ok? <==> forall i :: 0 <= i < |RowKeyFields(fields)| ==> SegmentOk(RowKeyFields(fields)[i], data)
    ensures var r := RowKeySegments(fields, data);
      r.Ok? ==> (
        && |r.value| == |RowKeyFields(fields)|
        && forall i :: 0 <= i < |r.value| ==>
             r.value[i] == SerializeField(RowKeyFields(fields)[i], data[RowKeyFields(fields)[i].name]))
  {
    RowKeySegmentsOkIff(fields, data);
    RowKeySegmentsValues(fields, data);
  }

  /** The success half of `RowKeySegmentsOk`. */
  lemma {:induction false} RowKeySegmentsOkIff(fields: seq<Field>, data: Data)
    ensures RowKeySegments(fields, data).Ok? <==>
      forall i :: 0 <= i < |RowKeyFields(fields)| ==> SegmentOk(RowKeyFields(fields)[i], data)
  {
    if fields != [] {
      var f := fields[0];
      var rk := RowKeyFields(fields);
      var rkRest := RowKeyFields(fields[1..]);
      RowKeySegmentsOkIff(fields[1..], data);
      if IsRowKeyField(f) {
        assert rk == [f] + rkRest;
        assert rk[0] == f;
        assert forall i :: 0 < i < |rk| ==> rk[i] == rkRest[i - 1];
        if !SegmentOk(f, data) {
          assert RowKeySegments(fields, data).Err?;
        } else if RowKeySegments(fields[1..], data).Err? {
          var i :| 0 <= i < |rkRest| && !SegmentOk(rkRest[i], data);
          assert !SegmentOk(rk[i + 1], data);
        } else {
          assert RowKeySegments(fields, data).Ok?;
          assert forall j :: 0 <= j < |RowKeyFields(fields[1..])| ==> SegmentOk(RowKeyFields(fields[1..])[j], data);
        }
      } else {
        assert rk == rkRest;
        assert RowKeySegments(fields, data) == RowKeySegments(fields[1..], data);
      }
    }
  }

  /** The content half of `RowKeySegmentsOk`. */
  lemma {:induction false} RowKeySegmentsValues(fields: seq<Field>, data: Data)
    ensures var r := RowKeySegments(fields, data);
      r.Ok? ==> (
        && |r.value| == |RowKeyFields(fields)|
        && forall i :: 0 <= i < |r.value| ==>
             && RowKeyFields(fields)[i].name in data
             && r.value[i] == SerializeField(RowKeyFields(fields)[i], data[RowKeyFields(fields)[i].name]))
  {
    if fields != [] {
      var f := fields[0];
      var rk := RowKeyFields(fields);
      var rkRest := RowKeyFields(fields[1..]);
      RowKeySegmentsValues(fields[1..], data);
      if IsRowKeyField(f) {
        assert rk == [f] + rkRest;
        assert forall i :: 0 < i < |rk| ==> rk[i] == rkRest[i - 1];
      } else {
        assert rk == rkRest;
      }
    }
  }

  /** A failed row key names the first row-key field, in declaration order,
      whose value is missing or holds ':'. */
  lemma {:induction false} RowKeySegmentsErr(fields: seq<Field>, data: Data)
    requires RowKeySegments(fields, data).Err?
    ensures exists i :: (
      && FirstBadSegment(RowKeyFields(fields), data, i)
      && RowKeySegments(fields, data).error == SegmentError(RowKeyFields(fields)[i], data))
  {
    var f := fields[0];
    if !IsRowKeyField(f) {
      RowKeySegmentsErr(fields[1..], data);
      var i :| FirstBadSegment(RowKeyFields(fields[1..]), data, i)
        && RowKeySegments(fields[1..], data).error == SegmentError(RowKeyFields(fields[1..])[i], data);
      assert RowKeyFields(fields) == RowKeyFields(fields[1..]);
      assert FirstBadSegment(RowKeyFields(fields), data, i);
    } else if SegmentOk(f, data) {
      RowKeySegmentsErr(fields[1..], data);
      var i :| FirstBadSegment(RowKeyFields(fields[1..]), data, i)
        && RowKeySegments(fields[1..], data).error == SegmentError(RowKeyFields(fields[1..])[i], data);
      ErrAfterGoodHead(fields, data, i);
    } else {
      assert RowKeyFields(fields) == [f] + RowKeyFields(fields[1..]);
      assert FirstBadSegment(RowKeyFields(fields), data, 0);
    }
  }

  /** A good row-key field in front moves the first bad one up by one place. */
  lemma ErrAfterGoodHead(fields: seq<Field>, data: Data, i: int)
    requires fields != [] && IsRowKeyField(fields[0]) && SegmentOk(fields[0], data)
    requires FirstBadSegment(RowKeyFields(fields[1..]), data, i)
    requires RowKeySegments(fields[1..], data).Err?
    requires RowKeySegments(fields[1..], data).error == SegmentError(RowKeyFields(fields[1..])[i], data)
    ensures FirstBadSegment(RowKeyFields(fields), data, i + 1)
    ensures RowKeySegments(fields, data).error == SegmentError(RowKeyFields(fields)[i + 1], data)
  {
    var rkRest := RowKeyFields(fields[1..]);
    assert RowKeyFields(fields) == [fields[0]] + rkRest;
    FirstBadSegmentCons(fields[0], rkRest, data, i);
  }

  /** `serialize_row_key`: the ':'-join of the row-key segments. */
  function SerializeRowKey(schema: Schema, data: Data): (r: Result<string, Error>)
    ensures r.Ok? <==> forall f :: f in schema.fields && IsRowKeyField(f) ==> SegmentOk(f, data)
    ensures r.Ok? ==> RowKeySegments(schema.fields, data).Ok? && (RowKeyFields(schema.fields) != [] ==>
      Split(r.value, Delimiter) == RowKeySegments(schema.fields, data).value)
    ensures r.Err? ==> r.error.MissingRowKeyField? || r.error.ColonInRowKey?
  {
    RowKeySegmentsAllOk(schema.fields, data);
    var segments :- RowKeySegments(schema.fields, data);
    RowKeyJoinSplits(schema.fields, data);
    Ok(Join(Delimiter, segments))
  }

  /** `RowKeySegmentsOk` stated over the declared fields rather than by index. */
  lemma RowKeySegmentsAllOk(fields: seq<Field>, data: Data)
    ensures RowKeySegments(fields, data).Ok? <==>
      forall f :: f in fields && IsRowKeyField(f) ==> SegmentOk(f, data)
  {
    RowKeySegmentsOk(fields, data);
    var rk := RowKeyFields(fields);
    if forall f :: f in fields && IsRowKeyField(f) ==> SegmentOk(f, data) {
      forall i | 0 <= i < |rk|
        ensures SegmentOk(rk[i], data)
      {
        assert rk[i] in rk;
      }
    } else {
      var f :| f in fields && IsRowKeyField(f) && !SegmentOk(f, data);
      assert f in rk;
    }
  }

  /** The segments hold no ':', so the joined key splits back into them. */
  lemma RowKeyJoinSplits(fields: seq<Field>, data: Data)
    requires RowKeySegments(fields, data).Ok?
    ensures RowKeyFields(fields) != [] ==>
      Split(Join(Delimiter, RowKeySegments(fields, data).value), Delimiter) == RowKeySegments(fields, data).value
  {
    RowKeySegmentsOk(fields, data);
    var rk := RowKeyFields(fields);
    var segments := RowKeySegments(fields, data).value;
    if rk != [] {
      forall k | 0 <= k < |segments|
        ensures Delimiter !in segments[k]
      {
        assert SegmentOk(rk[k], data);
      }
      SplitJoin(segments, Delimiter);
    }
  }

  /* --------------------------------------------------------------- columns */

  function ColumnKey(f: Field): string
    requires f.columnFamily.Some?
  {
    f.columnFamily.value + [Delimiter] + f.name
  }

  /** `cell` is the `"cf:name"` column of a declared column field that has a value. */
  ghost predicate IsCellOf(fields: seq<Field>, data: Data, cell: (string, string)) {
    exists f :: f in fields && !IsRowKeyField(f) && f.name in data
      && cell == (ColumnKey(f), SerializeField(f, data[f.name]))
  }

  /** A cell of the later fields is a cell of all of them. */
  lemma CellsOfTail(fields: seq<Field>, data: Data, cells: RowData)
    requires fields != []
    requires forall k :: 0 <= k < |cells| ==> IsCellOf(fields[1..], data, cells[k])
    ensures forall k :: 0 <= k < |cells| ==> IsCellOf(fields, data, cells[k])
  {
    forall k | 0 <= k < |cells|
      ensures IsCellOf(fields, data, cells[k])
    {
      assert IsCellOf(fields[1..], data, cells[k]);
      var g :| g in fields[1..] && !IsRowKeyField(g) && g.name in data
        && cells[k] == (ColumnKey(g), SerializeField(g, data[g.name]));
      assert g in fields;
    }
  }

  /** `serialize_row_data`: one `"cf:name"` column per column field whose value is not None. */
  function SerializeRowData(fields: seq<Field>, data: Data): (r: RowData)
    ensures |r| <= |fields|
    ensures forall k :: 0 <= k < |r| ==> Delimiter in r[k].0
    ensures forall k :: 0 <= k < |r| ==> IsCellOf(fields, data, r[k])
  {
    if fields == [] then []
    else
      var f := fields[0];
      var rest := SerializeRowData(fields[1..], data);
      CellsOfTail(fields, data, rest);
      if IsRowKeyField(f) || f.name !in data then rest
      else
        var r := [(ColumnKey(f), SerializeField(f, data[f.name]))] + rest;
        assert IsCellOf(fields, data, r[0]) by { assert f in fields; }
        assert forall k :: 0 < k < |r| ==> r[k] == rest[k - 1];
        r
  }

  /** The written columns are exactly the column fields with a value, each
      under `"cf:name"`; there are none exactly when no column field has a value. */
  lemma {:induction false} SerializeRowDataColumns(fields: seq<Field>, data: Data)
    ensures forall p :: p in SerializeRowData(fields, data) <==>
      (exists f :: f in fields && !IsRowKeyField(f) && f.name in data
        && p == (ColumnKey(f), SerializeField(f, data[f.name])))
    ensures |SerializeRowData(fields, data)| == 0 <==>
      forall f :: f in fields && !IsRowKeyField(f) ==> f.name !in data
  {
    if fields != [] {
      SerializeRowDataColumns(fields[1..], data);
      assert forall g :: g in fields <==> g == fields[0] || g in fields[1..];
    }
  }

  /* ------------------------------------------------------- deserialisation */

  /** `deserialize_field`: look the field up by name, then decode the value. */
  function DeserializeField(schema: Schema, key: string, s: string): (r: Result<Value, Error>)
    ensures (forall f :: f in schema.fields ==> f.name != key) ==> r == Err(UnknownField(key))
    ensures r.Ok? <==>
      (LookupField(schema.fields, key).Some? && DeserializeValue(LookupField(schema.fields, key).value, s).Some?)
    ensures r.Ok? ==> DeserializeValue(LookupField(schema.fields, key).value, s) == Some(r.value)
    ensures r.Err? ==> r.error == UnknownField(key) || r.error == BadIntValue(key, s)
  {
    match LookupField(schema.fields, key)
    case None => Err(UnknownField(key))
    case Some(f) =>
      match DeserializeValue(f, s)
      case None => Err(BadIntValue(key, s))
      case Some(v) => Ok(v)
  }

  /** One step of a row-key loop: the field's error first, then the rest's
      error, else the field joins the rest's data. */
  function AddField(key: string, v: Result<Value, Error>, rest: Result<Data, Error>): Result<Data, Error> {
    if v.Err? then Err(v.error)
    else if rest.Err? then Err(rest.error)
    else Ok(map[key := v.value] + rest.value)
  }

  /** The loop of `deserialize_row_key` over `Meta.row_key`, on the key with a
      ':' appended: take up to the next ':', stop when there is none. */
  function DeserializeSegments(schema: Schema, keys: seq<string>, rest: string): (r: Result<Data, Error>)
    ensures r.Ok? ==> forall k :: k in r.value ==> k in keys
    ensures r.Err? ==> r.error.UnknownField? || r.error.BadIntValue?
    decreases |keys|
  {
    if keys == [] then Ok(map[])
    else
      var i := Find(rest, Delimiter);
      if i == -1 then Ok(map[])
      else
        AddField(keys[0], DeserializeField(schema, keys[0], rest[..i]),
                 DeserializeSegments(schema, keys[1..], rest[i + 1..]))
  }

  function DeserializeRowKey(schema: Schema, rowKey: string): (r: Result<Data, Error>)
    ensures r.Ok? ==> forall k :: k in r.value ==> k in schema.rowKey
    ensures r.Err? ==> r.error.UnknownField? || r.error.BadIntValue?
  {
    DeserializeSegments(schema, schema.rowKey, rowKey + [Delimiter])
  }

  predicate Distinct(keys: seq<string>) {
    forall i, j :: 0 <= i < j < |keys| ==> keys[i] != keys[j]
  }

  /** Pairs `keys[j]` with `values[j]` for as many pairs as both have (a
      later pair wins over an earlier one with the same key). */
  function ZipMap(keys: seq<string>, values: seq<Value>): Data
    decreases |keys|
  {
    if keys == [] || values == [] then map[]
    else map[keys[0] := values[0]] + ZipMap(keys[1..], values[1..])
  }

  lemma {:induction false} ZipMapDomain(keys: seq<string>, values: seq<Value>)
    ensures forall k :: k in ZipMap(keys, values) <==> k in keys[..Min(|keys|, |values|)]
    decreases |keys|
  {
    if keys != [] && values != [] {
      ZipMapDomain(keys[1..], values[1..]);
      var n := Min(|keys|, |values|);
      assert keys[..n] == [keys[0]] + keys[1..][..n - 1];
    }
  }

  lemma {:induction false} ZipMapValues(keys: seq<string>, values: seq<Value>)
    requires Distinct(keys)
    ensures forall j :: 0 <= j < Min(|keys|, |values|) ==>
      keys[j] in ZipMap(keys, values) && ZipMap(keys, values)[keys[j]] == values[j]
    decreases |keys|
  {
    if keys != [] && values != [] {
      ZipMapValues(keys[1..], values[1..]);
      ZipMapDomain(keys[1..], values[1..]);
      var m := ZipMap(keys, values);
      var rest := ZipMap(keys[1..], values[1..]);
      var n := Min(|keys| - 1, |values| - 1);
      assert keys[0] !in keys[1..][..n] by {
        forall j | 0 <= j < n
          ensures keys[1..][..n][j] != keys[0]
        {
          assert keys[1..][..n][j] == keys[j + 1];
        }
      }
      assert keys[0] !in rest;
      forall j | 0 <= j < Min(|keys|, |values|)
        ensures keys[j] in m && m[keys[j]] == values[j]
      {
        if j > 0 {
          assert keys[j] == keys[1..][j - 1];
          assert values[j] == values[1..][j - 1];
        }
      }
    }
  }

  /** `ZipMap` of distinct keys with the values `d` holds for them is the
      restriction of `d` to those keys. */
  lemma ZipMapRestrict(keys: seq<string>, d: Data, values: seq<Value>, k: nat)
    requires Distinct(keys) && k <= |keys| && |values| == k
    requires forall j :: 0 <= j < k ==> keys[j] in d && values[j] == d[keys[j]]
    ensures ZipMap(keys, values) == Restrict(d, keys[..k])
  {
    ZipMapDomain(keys, values);
    ZipMapValues(keys, values);
    var m := ZipMap(keys, values);
    var r := Restrict(d, keys[..k]);
    assert Min(|keys|, |values|) == k;
    forall x | x in r
      ensures x in m && m[x] == r[x]
    {
      var j :| 0 <= j < k && keys[..k][j] == x;
      assert keys[j] == x;
    }
    forall x | x in m
      ensures x in r
    {
      var j :| 0 <= j < k && keys[..k][j] == x;
      assert keys[j] == x;
    }
    SameMap(r, m);
  }

  /** Reference reading of a row key: its i-th ':'-separated segment decodes
      into the i-th name of `Meta.row_key`, for as many pairs as both have. */
  function DecodeSegments(schema: Schema, keys: seq<string>, segments: seq<string>): Result<Data, Error>
    decreases |keys|
  {
    if keys == [] || segments == [] then Ok(map[])
    else
      AddField(keys[0], DeserializeField(schema, keys[0], segments[0]),
               DecodeSegments(schema, keys[1..], segments[1..]))
  }

  /** When every paired segment decodes, the keys get the decoded values. */
  lemma {:induction false} DecodeSegmentsValues(schema: Schema, keys: seq<string>, segments: seq<string>, values: seq<Value>)
    requires |values| == |segments|
    requires forall j :: 0 <= j < Min(|keys|, |segments|) ==>
      DeserializeField(schema, keys[j], segments[j]) == Ok(values[j])
    ensures DecodeSegments(schema, keys, segments) == Ok(ZipMap(keys, values))
    decreases |keys|
  {
    if keys != [] && segments != [] {
      assert DeserializeField(schema, keys[0], segments[0]) == Ok(values[0]);
      forall j | 0 <= j < Min(|keys| - 1, |segments| - 1)
        ensures DeserializeField(schema, keys[1..][j], segments[1..][j]) == Ok(values[1..][j])
      {
        assert DeserializeField(schema, keys[j + 1], segments[j + 1]) == Ok(values[j + 1]);
      }
      DecodeSegmentsValues(schema, keys[1..], segments[1..], values[1..]);
    }
  }

  /** `deserialize_row_key` reads a key segment by segment: it decodes the
      i-th segment of `rowKey.split(':')` into the i-th `Meta.row_key` name and
      leaves the names beyond the segment count unset. */
  lemma {:induction false} DeserializeRowKeyReadsSegments(schema: Schema, rowKey: string)
    ensures DeserializeRowKey(schema, rowKey) == DecodeSegments(schema, schema.rowKey, Split(rowKey, Delimiter))
  {
    DeserializeSegmentsSplit(schema, schema.rowKey, rowKey);
  }

  lemma DeserializeSegmentsStep(schema: Schema, keys: seq<string>, rest: string, i: int)
    requires keys != [] && 0 <= i < |rest| && Find(rest, Delimiter) == i
    ensures DeserializeSegments(schema, keys, rest)
      == AddField(keys[0], DeserializeField(schema, keys[0], rest[..i]),
                  DeserializeSegments(schema, keys[1..], rest[i + 1..]))
  {
  }

  /** A good field in front moves the first bad one back by one place. */
  lemma FirstBadSegmentCons(f: Field, rk: seq<Field>, data: Data, i: int)
    requires SegmentOk(f, data) && FirstBadSegment(rk, data, i)
    ensures FirstBadSegment([f] + rk, data, i + 1)
  {
    var s := [f] + rk;
    assert s[0] == f && s[1..] == rk;
  }

  lemma DecodeSegmentsStep(schema: Schema, keys: seq<string>, head: string, tail: seq<string>)
    requires keys != []
    ensures DecodeSegments(schema, keys, [head] + tail)
      == AddField(keys[0], DeserializeField(schema, keys[0], head),
                  DecodeSegments(schema, keys[1..], tail))
  {
    assert ([head] + tail)[1..] == tail;
  }

  lemma SplitStep(s: string, i: int)
    requires 0 <= i < |s| && Find(s, Delimiter) == i
    ensures Split(s, Delimiter) == [s[..i]] + Split(s[i + 1..], Delimiter)
  {
  }

  /** The last segment: with no ':' left, the loop reads the rest as one field. */
  lemma DeserializeLastSegment(schema: Schema, keys: seq<string>, s: string)
    requires keys != [] && Find(s, Delimiter) == -1
    ensures DeserializeSegments(schema, keys, s + [Delimiter]) == DecodeSegments(schema, keys, Split(s, Delimiter))
  {
    var t := s + [Delimiter];
    assert Find(t, Delimiter) == |s| && t[..|s|] == s && t[|s| + 1..] == [] by {
      FindAfterFreePrefix(s, Delimiter, []);
      assert t[..|s|] == s;
    }
    DeserializeSegmentsStep(schema, keys, t, |s|);
    DecodeSegmentsStep(schema, keys, s, []);
  }

  /** A middle segment: the loop reads up to the first ':' and goes on after it. */
  lemma DeserializeMiddleSegment(schema: Schema, keys: seq<string>, s: string, i: int)
    requires keys != [] && 0 <= i < |s| && Find(s, Delimiter) == i
    requires DeserializeSegments(schema, keys[1..], s[i + 1..] + [Delimiter])
      == DecodeSegments(schema, keys[1..], Split(s[i + 1..], Delimiter))
    ensures DeserializeSegments(schema, keys, s + [Delimiter]) == DecodeSegments(schema, keys, Split(s, Delimiter))
  {
    var head := s[..i];
    var tail := s[i + 1..];
    var v := DeserializeField(schema, keys[0], head);
    var m := DecodeSegments(schema, keys[1..], Split(tail, Delimiter));
    MiddleRead(schema, keys, s, i);
    assert DeserializeSegments(schema, keys, s + [Delimiter]) == AddField(keys[0], v, m);
    SplitStep(s, i);
    DecodeSegmentsStep(schema, keys, head, Split(tail, Delimiter));
  }

  /** The loop on a key with a ':' at `i` reads `s[..i]` and goes on after it. */
  lemma MiddleRead(schema: Schema, keys: seq<string>, s: string, i: int)
    requires keys != [] && 0 <= i < |s| && Find(s, Delimiter) == i
    ensures DeserializeSegments(schema, keys, s + [Delimiter])
      == AddField(keys[0], DeserializeField(schema, keys[0], s[..i]),
                  DeserializeSegments(schema, keys[1..], s[i + 1..] + [Delimiter]))
  {
    var t := s + [Delimiter];
    var head := s[..i];
    var tail := s[i + 1..];
    Around(s, i, Delimiter);
    FindAfterFreePrefix(head, Delimiter, tail + [Delimiter]);
    assert t[..i] == head && t[i + 1..] == tail + [Delimiter];
    DeserializeSegmentsStep(schema, keys, t, i);
  }

  lemma {:induction false} DeserializeSegmentsSplit(schema: Schema, keys: seq<string>, s: string)
    ensures DeserializeSegments(schema, keys, s + [Delimiter]) == DecodeSegments(schema, keys, Split(s, Delimiter))
    decreases |keys|
  {
    if keys != [] {
      var i := Find(s, Delimiter);
      if i == -1 {
        DeserializeLastSegment(schema, keys, s);
      } else {
        DeserializeSegmentsSplit(schema, keys[1..], s[i + 1..]);
        DeserializeMiddleSegment(schema, keys, s, i);
      }
    }
  }

  /** Drops the column family: everything up to and including the first ':'
      (the whole string when there is none). */
  function StripColumnFamily(columnKey: string): string {
    columnKey[Find(columnKey, Delimiter) + 1..]
  }

  /** The field names a row's column keys carry once the family is stripped. */
  function ColumnNames(row: RowData): seq<string> {
    if row == [] then [] else [StripColumnFamily(row[0].0)] + ColumnNames(row[1..])
  }

  /** The column loop of `init_from_row`, in the row's iteration order. */

  function DeserializeColumns(schema: Schema, row: RowData, acc: Data): (r: Result<Data, Error>)
    ensures r.Ok? ==> forall k :: k in acc ==> k in r.value
    ensures r.Ok? ==> forall k :: k in r.value ==> k in acc || k in ColumnNames(row)
    ensures r.Err? ==> r.error.UnknownField? || r.error.BadIntValue?
    decreases |row|
  {
    if row == [] then Ok(acc)
    else
      var key := StripColumnFamily(row[0].0);
      var v :- DeserializeField(schema, key, row[0].1);
      DeserializeColumns(schema, row[1..], acc[key := v])
  }

  /** `init_from_row`: no record for an empty row, else the row key's fields
      plus the columns' fields. */
  function InitFromRow(schema: Schema, rowKey: string, row: RowData): (r: Result<Option<Data>, Error>)
    ensures row == [] <==> r == Ok(None)
  {
    if row == [] then Ok(None)
    else
      var data :- DeserializeRowKey(schema, rowKey);
      var full :- DeserializeColumns(schema, row, data);
      Ok(Some(Construct(schema, full)))
  }

  /* ------------------------------------------------------- save and table */

  /** `get_table_name`: a falsy `Meta.table_name` is an error; tests use a
      'test_' prefix. */
  function GetTableName(schema: Schema, testing: bool): (r: Result<string, Error>)
    ensures r.Err? <==> schema.tableName == None || schema.tableName == Some("")
    ensures r.Err? ==> r.error == MissingTableName
    ensures r.Ok? ==> |r.value| == |schema.tableName.value| + (if testing then 5 else 0)
    ensures r.Ok? ==> r.value[|r.value| - |schema.tableName.value|..] == schema.tableName.value
    ensures r.Ok? && testing ==> r.value[..5] == "test_"
  {
    match schema.tableName
    case None => Err(MissingTableName)
    case Some(name) =>
      if name == "" then Err(MissingTableName)
      else if testing then Ok("test_" + name)
      else Ok(name)
  }

  /** `save`: refuse a record with no column values, then resolve the table
      and the row key, in that order, and issue the put. */
  function Save(schema: Schema, testing: bool, instance: Data): (r: Result<PutRequest, Error>)
    ensures r == Err(EmptyColumn) <==>
      forall f :: f in schema.fields && !IsRowKeyField(f) ==> f.name !in instance
    ensures r.Ok? ==> (
      && r.value.columns == SerializeRowData(schema.fields, instance)
      && Ok(r.value.rowKey) == SerializeRowKey(schema, instance)
      && Ok(r.value.table) == GetTableName(schema, testing))
    ensures r.Ok? <==>
      && SerializeRowData(schema.fields, instance) != []
      && GetTableName(schema, testing).Ok?
      && SerializeRowKey(schema, instance).Ok?
    ensures SerializeRowData(schema.fields, instance) != [] && GetTableName(schema, testing).Err? ==>
      r == Err(MissingTableName)
    ensures (SerializeRowData(schema.fields, instance) != [] && GetTableName(schema, testing).Ok?
             && SerializeRowKey(schema, instance).Err?) ==> r == Err(SerializeRowKey(schema, instance).error)
  {
    var columns := SerializeRowData(schema.fields, instance);
    SerializeRowDataColumns(schema.fields, instance);
    if |columns| == 0 then Err(EmptyColumn)
    else
      var table :- GetTableName(schema, testing);
      var rowKey :- SerializeRowKey(schema, instance);
      Ok(PutRequest(table, rowKey, columns))
  }

  /** `create`: build the instance, then save it. */
  function Create(schema: Schema, testing: bool, kwargs: Data): (r: Result<(Data, PutRequest), Error>)
    ensures r.Ok? ==> r.value.0.Keys <= kwargs.Keys
    ensures r.Ok? ==> Save(schema, testing, r.value.0) == Ok(r.value.1)
    ensures r.Ok? <==> Save(schema, testing, Construct(schema, kwargs)).Ok?
    ensures r.Ok? ==> r.value.0 == Construct(schema, kwargs)
    ensures r.Err? ==> r.error == Save(schema, testing, Construct(schema, kwargs)).error
  {
    var instance := Construct(schema, kwargs);
    var put :- Save(schema, testing, instance);
    Ok((instance, put))
  }

  /* ---------------------------------------------------------- round trips */

  /** Values every declared field can carry unchanged, and nothing undeclared. */
  predicate InstanceFits(schema: Schema, d: Data) {
    && (forall k :: k in d ==> k in Names(schema.fields))
    && (forall f :: f in schema.fields && f.name in d ==> Fits(f, d[f.name]))
  }

  function Restrict(d: Data, keys: seq<string>): (r: Data)
    ensures forall k :: k in r <==> k in d && k in keys
  {
    map k | k in d && k in keys :: d[k]
  }

  lemma {:induction false} LookupDistinct(fields: seq<Field>, f: Field)
    requires DistinctNames(fields) && f in fields
    ensures LookupField(fields, f.name) == Some(f)
  {
    if fields[0] != f {
      assert fields[0].name != f.name by {
        var i :| 0 <= i < |fields| && fields[i] == f;
      }
      LookupDistinct(fields[1..], f);
    }
  }

  lemma {:induction false} RowKeyFieldsDistinct(fields: seq<Field>)
    requires DistinctNames(fields)
    ensures Distinct(Names(RowKeyFields(fields)))
  {
    if fields != [] {
      RowKeyFieldsDistinct(fields[1..]);
      var rest := Names(RowKeyFields(fields[1..]));
      if IsRowKeyField(fields[0]) {
        var all := Names(RowKeyFields(fields));
        assert all == [fields[0].name] + rest;
        forall j | 0 <= j < |rest|
          ensures rest[j] != fields[0].name
        {
          assert RowKeyFields(fields[1..])[j] in fields[1..];
        }
      }
    }
  }

  /** The `j`-th segment of a serialised row key holds no ':' and decodes
      back to the `j`-th row-key value. */
  lemma SegmentRoundTrip(schema: Schema, d: Data, j: nat)
    requires ConsistentSchema(schema) && InstanceFits(schema, d)
    requires SerializeRowKey(schema, d).Ok?
    requires j < |schema.rowKey|
    ensures var segments := RowKeySegments(schema.fields, d).value;
      && j < |segments| && schema.rowKey[j] in d
      && Delimiter !in segments[j]
      && DeserializeField(schema, schema.rowKey[j], segments[j]) == Ok(d[schema.rowKey[j]])
  {
    var rk := RowKeyFields(schema.fields);
    RowKeySegmentsOk(schema.fields, d);
    assert schema.rowKey[j] == rk[j].name;
    assert SegmentOk(rk[j], d);
    assert rk[j] in rk;
    LookupDistinct(schema.fields, rk[j]);
    FieldRoundTrip(rk[j], d[rk[j].name]);
  }

  /** The first `k` row-key segments hold no delimiter. */
  lemma PrefixDelimiterFree(schema: Schema, d: Data, k: nat)
    requires ConsistentSchema(schema) && InstanceFits(schema, d)
    requires SerializeRowKey(schema, d).Ok?
    requires 1 <= k <= |schema.rowKey|
    ensures var segments := RowKeySegments(schema.fields, d).value;
      && k <= |segments|
      && forall j :: 0 <= j < k ==> Delimiter !in segments[..k][j]
  {
    var segments := RowKeySegments(schema.fields, d).value;
    SegmentRoundTrip(schema, d, k - 1);
    forall j | 0 <= j < k
      ensures Delimiter !in segments[..k][j]
    {
      SegmentRoundTrip(schema, d, j);
    }
  }

  /** The first `k` row-key segments decode to the first `k` row-key
      fields of the record. */
  lemma PrefixDecodes(schema: Schema, d: Data, k: nat)
    requires ConsistentSchema(schema) && InstanceFits(schema, d)
    requires SerializeRowKey(schema, d).Ok?
    requires 1 <= k <= |schema.rowKey|
    ensures var segments := RowKeySegments(schema.fields, d).value;
      && k <= |segments|
      && DecodeSegments(schema, schema.rowKey, segments[..k]) == Ok(Restrict(d, schema.rowKey[..k]))
  {
    var keys := schema.rowKey;
    PrefixFieldsDecode(schema, d, k);
    var prefix := RowKeySegments(schema.fields, d).value[..k];
    var values := seq(k, j requires 0 <= j < k => d[keys[j]]);
    DecodeSegmentsValues(schema, keys, prefix, values);
    RowKeyFieldsDistinct(schema.fields);
    ZipMapRestrict(keys, d, values, k);
  }

  /** Each of the first `k` row-key segments decodes to its field's value. */
  lemma PrefixFieldsDecode(schema: Schema, d: Data, k: nat)
    requires ConsistentSchema(schema) && InstanceFits(schema, d)
    requires SerializeRowKey(schema, d).Ok?
    requires 1 <= k <= |schema.rowKey|
    ensures var segments := RowKeySegments(schema.fields, d).value;
      && k <= |segments|
      && forall j :: 0 <= j < k ==>
        && schema.rowKey[j] in d
        && DeserializeField(schema, schema.rowKey[j], segments[..k][j]) == Ok(d[schema.rowKey[j]])
  {
    SegmentRoundTrip(schema, d, k - 1);
    forall j | 0 <= j < k
      ensures schema.rowKey[j] in d
      ensures DeserializeField(schema, schema.rowKey[j], RowKeySegments(schema.fields, d).value[..k][j])
        == Ok(d[schema.rowKey[j]])
    {
      SegmentRoundTrip(schema, d, j);
    }
  }

  /** The first `k` segments of a serialised row key decode to the first `k`
      row-key fields and leave the others unset. With `k` the full count this
      is the row-key round trip; a smaller `k` is a partial-prefix key. */
  lemma RowKeyPrefixRoundTrip(schema: Schema, d: Data, k: nat)
    requires ConsistentSchema(schema) && InstanceFits(schema, d)
    requires SerializeRowKey(schema, d).Ok?
    requires 1 <= k <= |schema.rowKey|
    ensures var segments := RowKeySegments(schema.fields, d).value;
      k <= |segments|
      && DeserializeRowKey(schema, Join(Delimiter, segments[..k])) == Ok(Restrict(d, schema.rowKey[..k]))
  {
    var segments := RowKeySegments(schema.fields, d).value;
    PrefixDelimiterFree(schema, d, k);
    PrefixDecodes(schema, d, k);
    SplitJoin(segments[..k], Delimiter);
    DeserializeRowKeyReadsSegments(schema, Join(Delimiter, segments[..k]));
  }

  /** A serialised row key deserialises to the record's row-key fields. */
  lemma RowKeyRoundTrip(schema: Schema, d: Data)
    requires ConsistentSchema(schema) && InstanceFits(schema, d)
    requires SerializeRowKey(schema, d).Ok?
    ensures DeserializeRowKey(schema, SerializeRowKey(schema, d).value) == Ok(Restrict(d, schema.rowKey))
  {
    JoinedSegmentsRoundTrip(schema, d);
  }

  /** `RowKeyRoundTrip` stated on the joined segments. */
  lemma JoinedSegmentsRoundTrip(schema: Schema, d: Data)
    requires ConsistentSchema(schema) && InstanceFits(schema, d)
    requires SerializeRowKey(schema, d).Ok?
    ensures RowKeySegments(schema.fields, d).Ok?
    ensures DeserializeRowKey(schema, Join(Delimiter, RowKeySegments(schema.fields, d).value)) == Ok(Restrict(d, schema.rowKey))
  {
    var segments := RowKeySegments(schema.fields, d).value;
    assert |segments| == |schema.rowKey| by {
      RowKeySegmentsOk(schema.fields, d);
    }
    if |schema.rowKey| == 0 {
      EmptyRowKeyRoundTrip(schema, d, segments);
    } else {
      var n := |schema.rowKey|;
      RowKeyPrefixRoundTrip(schema, d, n);
      assert segments[..n] == segments;
      assert schema.rowKey[..n] == schema.rowKey;
    }
  }

  /** With no row-key fields the key is empty and reads back as no fields. */
  lemma EmptyRowKeyRoundTrip(schema: Schema, d: Data, segments: seq<string>)
    requires schema.rowKey == [] && segments == []
    ensures DeserializeRowKey(schema, Join(Delimiter, segments)) == Ok(Restrict(d, schema.rowKey))
  {
    assert DeserializeSegments(schema, schema.rowKey, [Delimiter]) == Ok(map[]);
    assert Restrict(d, schema.rowKey) == map[];
  }

  /** The column fields' values, field by field in declaration order. */
  function ColumnValues(fields: seq<Field>, d: Data): Data {
    if fields == [] then map[]
    else
      var f := fields[0];
      (if !IsRowKeyField(f) && f.name in d then map[f.name := d[f.name]] else map[])
        + ColumnValues(fields[1..], d)
  }

  lemma {:induction false} ColumnValuesSpec(fields: seq<Field>, d: Data)
    ensures forall k :: k in ColumnValues(fields, d) ==> k in d && ColumnValues(fields, d)[k] == d[k]
    ensures forall f :: f in fields && !IsRowKeyField(f) && f.name in d ==> f.name in ColumnValues(fields, d)
  {
    if fields != [] {
      ColumnValuesSpec(fields[1..], d);
      assert forall f :: f in fields ==> f == fields[0] || f in fields[1..];
    }
  }

  lemma {:induction false} StripColumnKey(f: Field)
    requires f.columnFamily.Some? && Delimiter !in f.columnFamily.value
    ensures StripColumnFamily(ColumnKey(f)) == f.name
  {
    FindAfterFreePrefix(f.columnFamily.value, Delimiter, f.name);
  }

  /** One stored column reads back as its field's value. */
  lemma ColumnCellRoundTrip(schema: Schema, f: Field, v: Value)
    requires ConsistentSchema(schema) && f in schema.fields && !IsRowKeyField(f) && Fits(f, v)
    ensures DeserializeField(schema, StripColumnFamily(ColumnKey(f)), SerializeField(f, v)) == Ok(v)
  {
    StripColumnKey(f);
    LookupDistinct(schema.fields, f);
    FieldRoundTrip(f, v);
  }

  /** Every stored column of `fields` reads back as the value it was written from. */
  predicate CellsReadBack(schema: Schema, fields: seq<Field>, d: Data) {
    forall f :: f in fields && !IsRowKeyField(f) && f.name in d ==>
      && StripColumnFamily(ColumnKey(f)) == f.name
      && DeserializeField(schema, f.name, SerializeField(f, d[f.name])) == Ok(d[f.name])
  }

  lemma ConsistentCellsReadBack(schema: Schema, d: Data)
    requires ConsistentSchema(schema) && InstanceFits(schema, d)
    ensures CellsReadBack(schema, schema.fields, d)
  {
    forall f | f in schema.fields && !IsRowKeyField(f) && f.name in d
      ensures StripColumnFamily(ColumnKey(f)) == f.name
      ensures DeserializeField(schema, f.name, SerializeField(f, d[f.name])) == Ok(d[f.name])
    {
      StripColumnKey(f);
      ColumnCellRoundTrip(schema, f, d[f.name]);
    }
  }

  /** Reading the columns `serialize_row_data` wrote gives back the column values. */
  lemma {:induction false} ColumnsReadBack(schema: Schema, fields: seq<Field>, d: Data, acc: Data)
    requires CellsReadBack(schema, fields, d)
    ensures DeserializeColumns(schema, SerializeRowData(fields, d), acc) == Ok(acc + ColumnValues(fields, d))
  {
    if fields == [] {
      assert acc + map[] == acc;
    } else {
      var f := fields[0];
      CellsReadBackTail(schema, fields, d);
      if IsRowKeyField(f) || f.name !in d {
        ColumnsReadBack(schema, fields[1..], d, acc);
        ColumnSkipCons(schema, fields, d, acc);
      } else {
        ColumnsReadBack(schema, fields[1..], d, acc[f.name := d[f.name]]);
        ColumnReadBackCons(schema, fields, d, acc);
      }
    }
  }

  lemma CellsReadBackTail(schema: Schema, fields: seq<Field>, d: Data)
    requires fields != [] && CellsReadBack(schema, fields, d)
    ensures CellsReadBack(schema, fields[1..], d)
  {
    assert forall g :: g in fields[1..] ==> g in fields;
  }

  /** The step of `ColumnsReadBack` for a field that writes no cell. */
  lemma ColumnSkipCons(schema: Schema, fields: seq<Field>, d: Data, acc: Data)
    requires fields != [] && (IsRowKeyField(fields[0]) || fields[0].name !in d)
    requires DeserializeColumns(schema, SerializeRowData(fields[1..], d), acc)
      == Ok(acc + ColumnValues(fields[1..], d))
    ensures DeserializeColumns(schema, SerializeRowData(fields, d), acc) == Ok(acc + ColumnValues(fields, d))
  {
    SkippedField(fields, d);
  }

  /** A row-key field, or a column field without a value, adds no cell and
      no column value. */
  lemma SkippedField(fields: seq<Field>, d: Data)
    requires fields != [] && (IsRowKeyField(fields[0]) || fields[0].name !in d)
    ensures SerializeRowData(fields, d) == SerializeRowData(fields[1..], d)
    ensures ColumnValues(fields, d) == ColumnValues(fields[1..], d)
  {
    assert map[] + ColumnValues(fields[1..], d) == ColumnValues(fields[1..], d);
  }

  /** The step of `ColumnsReadBack` for a column field with a value: its cell
      is read first, then the rest as the rest was written. */
  lemma ColumnReadBackCons(schema: Schema, fields: seq<Field>, d: Data, acc: Data)
    requires fields != [] && !IsRowKeyField(fields[0]) && fields[0].name in d
    requires CellsReadBack(schema, fields, d)
    requires var v := d[fields[0].name];
      DeserializeColumns(schema, SerializeRowData(fields[1..], d), acc[fields[0].name := v])
        == Ok(acc[fields[0].name := v] + ColumnValues(fields[1..], d))
    ensures DeserializeColumns(schema, SerializeRowData(fields, d), acc) == Ok(acc + ColumnValues(fields, d))
  {
    var f := fields[0];
    var v := d[f.name];
    var row := SerializeRowData(fields, d);
    assert row[0] == (ColumnKey(f), SerializeField(f, v)) && row[1..] == SerializeRowData(fields[1..], d);
    assert StripColumnFamily(row[0].0) == f.name && DeserializeField(schema, f.name, row[0].1) == Ok(v) by {
      assert f in fields;
    }
    assert DeserializeColumns(schema, row, acc) == DeserializeColumns(schema, row[1..], acc[f.name := v]);
    assert ColumnValues(fields, d) == map[f.name := v] + ColumnValues(fields[1..], d);
    UpdateThenUnion(acc, f.name, v, ColumnValues(fields[1..], d));
  }

  /** The column rows of a record of a consistent schema read back as its column values. */
  lemma ColumnsRoundTrip(schema: Schema, d: Data, acc: Data)
    requires ConsistentSchema(schema) && InstanceFits(schema, d)
    ensures DeserializeColumns(schema, SerializeRowData(schema.fields, d), acc) == Ok(acc + ColumnValues(schema.fields, d))
  {
    ConsistentCellsReadBack(schema, d);
    ColumnsReadBack(schema, schema.fields, d, acc);
  }

  lemma UpdateThenUnion(acc: Data, k: string, v: Value, m: Data)
    ensures acc[k := v] + m == acc + (map[k := v] + m)
  {
  }

  /** A record whose every key is a declared field is the union of its
      row-key part and its column part. */
  lemma {:induction false} KeyAndColumnsCoverRecord(schema: Schema, d: Data)
    requires ConsistentSchema(schema) && InstanceFits(schema, d)
    ensures Restrict(d, schema.rowKey) + ColumnValues(schema.fields, d) == d
  {
    ColumnValuesSpec(schema.fields, d);
    var full := Restrict(d, schema.rowKey) + ColumnValues(schema.fields, d);
    forall k | k in d
      ensures k in full
    {
      KeyCovered(schema, d, k);
    }
    assert forall k :: k in full ==> k in d && full[k] == d[k];
    SameMap(full, d);
  }

  lemma SameMap(a: Data, b: Data)
    requires forall k :: k in a ==> k in b && a[k] == b[k]
    requires forall k :: k in b ==> k in a
    ensures a == b
  {
  }

  /** Each key of a record is a row-key name or lands in the column part. */
  lemma KeyCovered(schema: Schema, d: Data, k: string)
    requires ConsistentSchema(schema) && InstanceFits(schema, d) && k in d
    ensures k in schema.rowKey || k in ColumnValues(schema.fields, d)
  {
    ColumnValuesSpec(schema.fields, d);
    var i :| 0 <= i < |schema.fields| && Names(schema.fields)[i] == k;
    var f := schema.fields[i];
    if IsRowKeyField(f) {
      RowKeyNameListed(schema.fields, f);
    } else {
      assert f in schema.fields;
    }
  }

  lemma RowKeyNameListed(fields: seq<Field>, f: Field)
    requires f in fields && IsRowKeyField(f)
    ensures f.name in Names(RowKeyFields(fields))
  {
    var rk := RowKeyFields(fields);
    assert f in rk;
    var j :| 0 <= j < |rk| && rk[j] == f;
    assert Names(rk)[j] == f.name;
  }

  /** A record whose keys are all declared fields passes `Construct` whole. */
  lemma ConstructDeclared(schema: Schema, d: Data)
    requires InstanceFits(schema, d)
    ensures Construct(schema, d) == d
  {
    SameMap(Construct(schema, d), d);
  }

  /** A non-empty row whose key and columns both decode is read as the
      record those decodings build. */
  lemma InitFromRowReads(schema: Schema, rowKey: string, row: RowData, keyData: Data, full: Data)
    requires row != []
    requires DeserializeRowKey(schema, rowKey) == Ok(keyData)
    requires DeserializeColumns(schema, row, keyData) == Ok(full)
    ensures InitFromRow(schema, rowKey, row) == Ok(Some(Construct(schema, full)))
  {
  }

  /** A saved record is read back unchanged from the row it was written as. */
  lemma SaveThenInitFromRow(schema: Schema, testing: bool, d: Data)
    requires ConsistentSchema(schema) && InstanceFits(schema, d)
    requires Save(schema, testing, d).Ok?
    ensures var put := Save(schema, testing, d).value;
      InitFromRow(schema, put.rowKey, put.columns) == Ok(Some(d))
  {
    var put := Save(schema, testing, d).value;
    var keyData := Restrict(d, schema.rowKey);
    assert put.columns != [];
    RowKeyRoundTrip(schema, d);
    ColumnsRoundTrip(schema, d, keyData);
    KeyAndColumnsCoverRecord(schema, d);
    InitFromRowReads(schema, put.rowKey, put.columns, keyData, d);
    ConstructDeclared(schema, d);
  }

  /** `create` followed by `get`: the created instance is the declared part
      of the keyword arguments, and its stored row reads back as it. */
  lemma CreateThenInitFromRow(schema: Schema, testing: bool, kwargs: Data)
    requires ConsistentSchema(schema)
    requires forall f :: f in schema.fields && f.name in kwargs ==> Fits(f, kwargs[f.name])
    requires Create(schema, testing, kwargs).Ok?
    ensures var (instance, put) := Create(schema, testing, kwargs).value;
      && (forall f :: f in schema.fields && f.name in kwargs ==> f.name in instance && instance[f.name] == kwargs[f.name])
      && InitFromRow(schema, put.rowKey, put.columns) == Ok(Some(instance))
  {
    var instance := Construct(schema, kwargs);
    forall f | f in schema.fields && f.name in kwargs
      ensures f.name in instance
    {
      assert f.name in Names(schema.fields);
    }
    SaveThenInitFromRow(schema, testing, instance);
  }
}
