/** What the row adapter of raw.go guarantees, stated over the model in module `Raw`. */
module RawProperties {
  import opened Common
  import opened ByteOrder
  import opened RawKV
  import opened RowCodec
  import opened Raw

  /** The fields of `values` among `names`: `{f: values[f] for f in names if f in values}`. */
  function Select(values: Row, names: seq<string>): Row {
    map f | f in names && f in values :: values[f]
  }

  function NamesIn(names: seq<string>): set<string> {
    set f | f in names
  }

  // ---------------------------------------------------------------- row keys

  /** `("a:b", "c")` and `("a", "b:c")` name the same stored row. */
  lemma RowKeyNotInjective()
    ensures ([97, 58, 98], [99]) != ([97], [98, 58, 99])
    ensures GetRowKey([97, 58, 98], [99]) == GetRowKey([97], [98, 58, 99])
  {
  }

  /** Two (table, key) pairs collide only when the longer table is the shorter one, a separator and a prefix of the other key. */
  lemma RowKeyCollision(t1: Bytes, k1: Bytes, t2: Bytes, k2: Bytes)
    requires GetRowKey(t1, k1) == GetRowKey(t2, k2) && |t1| < |t2|
    ensures t2[..|t1|] == t1 && t2[|t1|] == Separator
    ensures k1 == t2[|t1| + 1..] + [Separator] + k2
  {
    var s := GetRowKey(t1, k1);
    assert s == t2 + [Separator] + k2;
    assert s[..|t1|] == t1 && s[|t1|] == Separator && s[|t1| + 1..] == k1;
    assert s[..|t2|] == t2 && s[|t2|] == Separator && s[|t2| + 1..] == k2;
    assert t2[..|t1|] == s[..|t1|];
    assert k1 == s[|t1| + 1..|t2|] + s[|t2|..];
    assert s[|t1| + 1..|t2|] == t2[|t1| + 1..];
    assert s[|t2|..] == [Separator] + k2;
  }

  /** With no separator in table names, the row key determines the table and the key. */
  lemma RowKeyInjectiveForPlainTables(t1: Bytes, k1: Bytes, t2: Bytes, k2: Bytes)
    requires Separator !in t1 && Separator !in t2
    ensures GetRowKey(t1, k1) == GetRowKey(t2, k2) <==> t1 == t2 && k1 == k2
  {
    if GetRowKey(t1, k1) == GetRowKey(t2, k2) {
      if |t1| < |t2| {
        RowKeyCollision(t1, k1, t2, k2);
      } else if |t2| < |t1| {
        RowKeyCollision(t2, k2, t1, k1);
      } else {
        var s := GetRowKey(t1, k1);
        assert t1 == s[..|t1|] == t2;
        assert k1 == s[|t1| + 1..] == k2;
      }
    }
  }

  /** With no separator in the row keys, the row key determines the table and the key, whatever the table names. */
  lemma RowKeyInjectiveForPlainKeys(t1: Bytes, k1: Bytes, t2: Bytes, k2: Bytes)
    requires Separator !in k1 && Separator !in k2
    ensures GetRowKey(t1, k1) == GetRowKey(t2, k2) <==> t1 == t2 && k1 == k2
  {
    if GetRowKey(t1, k1) == GetRowKey(t2, k2) {
      if |t1| < |t2| {
        RowKeyCollision(t1, k1, t2, k2);
      } else if |t2| < |t1| {
        RowKeyCollision(t2, k2, t1, k1);
      } else {
        var s := GetRowKey(t1, k1);
        assert t1 == s[..|t1|] == t2;
        assert k1 == s[|t1| + 1..] == k2;
      }
    }
  }

  // ---------------------------------------------------------------- decodeRow

  /** An empty request reads every configured field. */
  lemma EmptyRequestReadsAllFields(fieldIndices: map<string, int>, fields: seq<string>, dec: Decoder, row: Bytes)
    ensures DecodedRow(fieldIndices, fields, dec, row, []) == DecodedRow(fieldIndices, fields, dec, row, fields)
  {
  }

  /**
   * `decodeRow` passes a codec error through; otherwise it names exactly the requested fields
   * whose column the codec returned, each with that column's value, and reports nothing for
   * the others.
   */
  lemma DecodedRowFields(fieldIndices: map<string, int>, fields: seq<string>, dec: Decoder, row: Bytes, requested: seq<string>)
    ensures var names := Requested(fields, requested);
            var data := dec(row, ColumnSet(fieldIndices, names));
            var r := DecodedRow(fieldIndices, fields, dec, row, requested);
            && (data.Err? ==> r == Err(data.error))
            && (data.Ok? ==>
                  && r.Ok?
                  && (forall f :: f in r.value <==> f in names && ColumnOf(fieldIndices, f) in data.value)
                  && (forall f :: f in r.value ==> r.value[f] == data.value[ColumnOf(fieldIndices, f)]))
  {
  }

  /** A field that is not registered is read from column 0; there is no unknown-field error. */
  lemma UnregisteredFieldReadsColumnZero(fieldIndices: map<string, int>, fields: seq<string>, dec: Decoder, row: Bytes, requested: seq<string>, f: string)
    requires f !in fieldIndices && f in Requested(fields, requested)
    requires var data := dec(row, ColumnSet(fieldIndices, Requested(fields, requested)));
             data.Ok? && 0 in data.value
    ensures var r := DecodedRow(fieldIndices, fields, dec, row, requested);
            r.Ok? && f in r.value
            && r.value[f] == dec(row, ColumnSet(fieldIndices, Requested(fields, requested))).value[0]
  {
  }

  lemma InjectiveOnSubset(fieldIndices: map<string, int>, names: set<string>, wider: set<string>)
    requires names <= wider && InjectiveOn(fieldIndices, wider)
    ensures InjectiveOn(fieldIndices, names)
  {
  }

  /** Two unregistered names, or one and the field at column 0, share a column. */
  lemma UnregisteredFieldsShareColumnZero(fieldIndices: map<string, int>, f: string, g: string)
    requires f != g && f !in fieldIndices && (g !in fieldIndices || fieldIndices[g] == 0)
    ensures !InjectiveOn(fieldIndices, {f, g})
  {
    assert ColumnOf(fieldIndices, f) == ColumnOf(fieldIndices, g);
  }

  // ---------------------------------------------------------------- encoding

  /** Distinct fields with distinct columns give `EncodeRow` distinct column ids. */
  lemma DistinctIds(fieldIndices: map<string, int>, values: Row, order: seq<string>)
    requires Distinct(order) && (forall f :: f in order ==> f in values)
    requires InjectiveOn(fieldIndices, values.Keys)
    ensures Distinct(IdsOf(fieldIndices, order))
  {
    var ids := IdsOf(fieldIndices, order);
    forall i, j | 0 <= i < j < |ids|
      ensures ids[i] != ids[j]
    {
      assert order[i] != order[j] && order[i] in values && order[j] in values;
    }
  }

  /** The columns `Insert` hands to the encoder, taken as a map: one per field, holding its value. */
  lemma EncodedColumns(fieldIndices: map<string, int>, values: Row, order: seq<string>)
    requires Distinct(order) && (forall f :: f in order ==> f in values)
    requires InjectiveOn(fieldIndices, values.Keys)
    ensures var p := PairsToMap(IdsOf(fieldIndices, order), ValuesOf(values, order));
            && p.Keys == ColumnSet(fieldIndices, order)
            && forall f :: f in order ==> p[ColumnOf(fieldIndices, f)] == values[f]
  {
    var ids, vals := IdsOf(fieldIndices, order), ValuesOf(values, order);
    DistinctIds(fieldIndices, values, order);
    var p := PairsToMap(ids, vals);
    forall f | f in order
      ensures ColumnOf(fieldIndices, f) in p && p[ColumnOf(fieldIndices, f)] == values[f]
    {
      var i :| 0 <= i < |order| && order[i] == f;
      PairsToMapAt(ids, vals, i);
    }
    forall c | c in p
      ensures c in ColumnSet(fieldIndices, order)
    {
      var i :| 0 <= i < |ids| && ids[i] == c;
      assert order[i] in order;
    }
    forall c | c in ColumnSet(fieldIndices, order)
      ensures c in p
    {
      var f :| f in order && ColumnOf(fieldIndices, f) == c;
    }
    assert p.Keys == ColumnSet(fieldIndices, order);
  }

  /** Projecting the encoded columns onto `names` gives the fields of `values` among `names`. */
  lemma ProjectEncoded(fieldIndices: map<string, int>, values: Row, order: seq<string>, names: seq<string>, p: map<int, Bytes>)
    requires forall f :: f in order <==> f in values
    requires InjectiveOn(fieldIndices, values.Keys + NamesIn(names))
    requires p.Keys == ColumnSet(fieldIndices, order)
    requires forall f :: f in order ==> p[ColumnOf(fieldIndices, f)] == values[f]
    ensures Project(fieldIndices, names, Restrict(p, ColumnSet(fieldIndices, names))) == Select(values, names)
  {
    var cols := ColumnSet(fieldIndices, names);
    var got := Project(fieldIndices, names, Restrict(p, cols));
    var want := Select(values, names);
    forall f | f in names
      ensures f in got <==> f in values
    {
      var c := ColumnOf(fieldIndices, f);
      assert c in cols;
      if c in p {
        var g :| g in order && ColumnOf(fieldIndices, g) == c;
        assert g in values.Keys + NamesIn(names) && f in values.Keys + NamesIn(names);
      }
    }
    assert got.Keys == want.Keys;
  }

  /**
   * Round trip: decoding what `Insert` encoded gives back exactly the requested fields of the
   * inserted row, provided the fields involved have distinct columns.
   */
  lemma DecodeAfterEncode(fieldIndices: map<string, int>, fields: seq<string>, enc: Encoder, dec: Decoder,
                          values: Row, order: seq<string>, requested: seq<string>)
    requires RoundTrips(enc, dec)
    requires Enumerates(values, order)
    requires InjectiveOn(fieldIndices, values.Keys + NamesIn(Requested(fields, requested)))
    requires enc(ValuesOf(values, order), IdsOf(fieldIndices, order)).Ok?
    ensures DecodedRow(fieldIndices, fields, dec, enc(ValuesOf(values, order), IdsOf(fieldIndices, order)).value, requested)
         == Ok(Select(values, Requested(fields, requested)))
  {
    var ids, vals := IdsOf(fieldIndices, order), ValuesOf(values, order);
    var names := Requested(fields, requested);
    var cols := ColumnSet(fieldIndices, names);
    assert InjectiveOn(fieldIndices, values.Keys);
    DistinctIds(fieldIndices, values, order);
    EncodedColumns(fieldIndices, values, order);
    RoundTripAt(enc, dec, vals, ids, cols);
    ProjectEncoded(fieldIndices, values, order, names, PairsToMap(ids, vals));
  }

  /** Two orders over the same fields hand the encoder the same columns. */
  lemma SameEncodedColumns(fieldIndices: map<string, int>, values: Row, order1: seq<string>, order2: seq<string>)
    requires Enumerates(values, order1) && Enumerates(values, order2)
    requires InjectiveOn(fieldIndices, values.Keys)
    ensures PairsToMap(IdsOf(fieldIndices, order1), ValuesOf(values, order1))
         == PairsToMap(IdsOf(fieldIndices, order2), ValuesOf(values, order2))
  {
    EncodedColumns(fieldIndices, values, order1);
    EncodedColumns(fieldIndices, values, order2);
    ColumnsAgree(fieldIndices, values, order1, order2,
                 PairsToMap(IdsOf(fieldIndices, order1), ValuesOf(values, order1)),
                 PairsToMap(IdsOf(fieldIndices, order2), ValuesOf(values, order2)));
  }

  lemma ColumnsAgree(fieldIndices: map<string, int>, values: Row, order1: seq<string>, order2: seq<string>,
                     p1: map<int, Bytes>, p2: map<int, Bytes>)
    requires forall f :: f in order1 <==> f in values
    requires forall f :: f in order2 <==> f in values
    requires p1.Keys == ColumnSet(fieldIndices, order1) && p2.Keys == ColumnSet(fieldIndices, order2)
    requires forall f :: f in order1 ==> p1[ColumnOf(fieldIndices, f)] == values[f]
    requires forall f :: f in order2 ==> p2[ColumnOf(fieldIndices, f)] == values[f]
    ensures p1 == p2
  {
    forall c | c in p1
      ensures c in p2 && p1[c] == p2[c]
    {
      var f :| f in order1 && ColumnOf(fieldIndices, f) == c;
      assert f in order2;
    }
    forall c | c in p2
      ensures c in p1
    {
      var f :| f in order2 && ColumnOf(fieldIndices, f) == c;
      assert f in order1;
    }
  }

  /**
   * Whatever order `Insert` visits the fields in, the row it encodes decodes to the same
   * columns, provided the fields have distinct columns.
   */
  lemma InsertOrderIrrelevant(fieldIndices: map<string, int>, enc: Encoder, dec: Decoder, values: Row,
                              order1: seq<string>, order2: seq<string>, cols: set<int>)
    requires RoundTrips(enc, dec)
    requires Enumerates(values, order1) && Enumerates(values, order2)
    requires InjectiveOn(fieldIndices, values.Keys)
    requires enc(ValuesOf(values, order1), IdsOf(fieldIndices, order1)).Ok?
    requires enc(ValuesOf(values, order2), IdsOf(fieldIndices, order2)).Ok?
    ensures dec(enc(ValuesOf(values, order1), IdsOf(fieldIndices, order1)).value, cols)
         == dec(enc(ValuesOf(values, order2), IdsOf(fieldIndices, order2)).value, cols)
  {
    DistinctIds(fieldIndices, values, order1);
    DistinctIds(fieldIndices, values, order2);
    RoundTripAt(enc, dec, ValuesOf(values, order1), IdsOf(fieldIndices, order1), cols);
    RoundTripAt(enc, dec, ValuesOf(values, order2), IdsOf(fieldIndices, order2), cols);
    SameEncodedColumns(fieldIndices, values, order1, order2);
  }

  // ---------------------------------------------------------------- Read, Insert, Delete, Update

  /** Insert followed by Read gives back the requested fields of the inserted row. */
  lemma ReadAfterInsert(fieldIndices: map<string, int>, fields: seq<string>, enc: Encoder, dec: Decoder,
                        before: map<Bytes, Bytes>, after: map<Bytes, Bytes>, logBefore: seq<Write>, logAfter: seq<Write>,
                        rowKey: Bytes, values: Row, order: seq<string>, requested: seq<string>)
    requires RoundTrips(enc, dec)
    requires Enumerates(values, order)
    requires InjectiveOn(fieldIndices, values.Keys + NamesIn(Requested(fields, requested)))
    requires Inserted(before, after, logBefore, logAfter, rowKey, enc(ValuesOf(values, order), IdsOf(fieldIndices, order)), Done)
    ensures ReadResult(fieldIndices, fields, dec, after, rowKey, requested) == Ok(Some(Select(values, Requested(fields, requested))))
  {
    var ids, vals := IdsOf(fieldIndices, order), ValuesOf(values, order);
    assert InjectiveOn(fieldIndices, values.Keys);
    DistinctIds(fieldIndices, values, order);
    RoundTripAt(enc, dec, vals, ids, {});
    assert Lookup(after, rowKey) == Some(enc(vals, ids).value);
    DecodeAfterEncode(fieldIndices, fields, enc, dec, values, order, requested);
  }

  /** After a Delete that succeeded, Read finds no row, and reports no error. */
  lemma ReadAfterDelete(fieldIndices: map<string, int>, fields: seq<string>, dec: Decoder,
                        before: map<Bytes, Bytes>, after: map<Bytes, Bytes>, rowKey: Bytes, requested: seq<string>)
    requires DeleteEffect(before, after, rowKey, Done)
    ensures ReadResult(fieldIndices, fields, dec, after, rowKey, requested) == Ok(None)
  {
  }

  /** Insert and Delete leave every other key of the store as it was, whether they succeed or fail. */
  lemma WritesTouchOnlyTheirKey(before: map<Bytes, Bytes>, after: map<Bytes, Bytes>, logBefore: seq<Write>, logAfter: seq<Write>,
                                rowKey: Bytes, encoded: Result<Bytes>, r: Outcome, other: Bytes)
    requires other != rowKey
    requires Inserted(before, after, logBefore, logAfter, rowKey, encoded, r) || DeleteEffect(before, after, rowKey, r)
    ensures other in after <==> other in before
    ensures other in after ==> after[other] == before[other]
  {
  }

  /** Deleting a row that is not there changes nothing. */
  lemma DeleteIdempotent(before: map<Bytes, Bytes>, after: map<Bytes, Bytes>, rowKey: Bytes, r: Outcome)
    requires rowKey !in before && DeleteEffect(before, after, rowKey, r)
    ensures after == before
  {
  }

  /**
   * Update over a row that Insert stored: the base it reads is the configured fields of that
   * row, and a later Read sees that base with the caller's values laid over it.
   */
  lemma ReadAfterUpdate(fieldIndices: map<string, int>, fields: seq<string>, enc: Encoder, dec: Decoder,
                        before: map<Bytes, Bytes>, after: map<Bytes, Bytes>, logBefore: seq<Write>, logAfter: seq<Write>,
                        rowKey: Bytes, row: Row, rowOrder: seq<string>, values: Row, order: seq<string>, requested: seq<string>)
    requires RoundTrips(enc, dec)
    requires Enumerates(row, rowOrder) && enc(ValuesOf(row, rowOrder), IdsOf(fieldIndices, rowOrder)).Ok?
    requires Lookup(before, rowKey) == Some(enc(ValuesOf(row, rowOrder), IdsOf(fieldIndices, rowOrder)).value)
    requires InjectiveOn(fieldIndices, row.Keys + values.Keys + NamesIn(fields) + NamesIn(requested))
    requires var base := DecodedRow(fieldIndices, fields, dec, Stored(before, rowKey), []);
             base.Ok? ==>
               && Enumerates(base.value + values, order)
               && Inserted(before, after, logBefore, logAfter, rowKey,
                           enc(ValuesOf(base.value + values, order), IdsOf(fieldIndices, order)), Done)
    ensures DecodedRow(fieldIndices, fields, dec, Stored(before, rowKey), []) == Ok(Select(row, fields))
    ensures ReadResult(fieldIndices, fields, dec, after, rowKey, requested)
         == Ok(Some(Select(Select(row, fields) + values, Requested(fields, requested))))
  {
    var all := row.Keys + values.Keys + NamesIn(fields) + NamesIn(requested);
    InjectiveOnSubset(fieldIndices, row.Keys + NamesIn(Requested(fields, [])), all);
    DecodeAfterEncode(fieldIndices, fields, enc, dec, row, rowOrder, []);
    var merged := Select(row, fields) + values;
    InjectiveOnSubset(fieldIndices, merged.Keys + NamesIn(Requested(fields, requested)), all);
    ReadAfterInsert(fieldIndices, fields, enc, dec, before, after, logBefore, logAfter, rowKey, merged, order, requested);
  }

  // ---------------------------------------------------------------- Scan

  /** A Scan that succeeds keeps every row in its place, nil rows as nil, the others decoded. */
  lemma {:induction false} ScanKeepsPositions(fieldIndices: map<string, int>, fields: seq<string>, dec: Decoder,
                                              rows: seq<Option<Bytes>>, requested: seq<string>)
    requires DecodedRows(fieldIndices, fields, dec, rows, requested).Ok?
    ensures var res := DecodedRows(fieldIndices, fields, dec, rows, requested).value;
            && |res| == |rows|
            && forall i :: 0 <= i < |rows| ==>
                 && (res[i].None? <==> rows[i].None?)
                 && (rows[i].Some? ==> DecodedRow(fieldIndices, fields, dec, rows[i].value, requested) == Ok(res[i].value))
  {
    if rows != [] {
      ScanKeepsPositions(fieldIndices, fields, dec, rows[1..], requested);
      var res := DecodedRows(fieldIndices, fields, dec, rows, requested).value;
      var tail := DecodedRows(fieldIndices, fields, dec, rows[1..], requested).value;
      assert res[1..] == tail;
      forall i | 1 <= i < |rows|
        ensures res[i] == tail[i - 1] && rows[i] == rows[1..][i - 1]
      {
      }
    }
  }

  /**
   * A Scan fails exactly when some non-nil row fails to decode, and then with the error of the
   * first such row: no partial result is returned.
   */
  lemma {:induction false} ScanFailsOnFirstBadRow(fieldIndices: map<string, int>, fields: seq<string>, dec: Decoder,
                                                  rows: seq<Option<Bytes>>, requested: seq<string>)
    ensures var r := DecodedRows(fieldIndices, fields, dec, rows, requested);
            r.Err? <==> exists i :: 0 <= i < |rows| && rows[i].Some? && DecodedRow(fieldIndices, fields, dec, rows[i].value, requested).Err?
    ensures var r := DecodedRows(fieldIndices, fields, dec, rows, requested);
            r.Err? ==> exists i :: && 0 <= i < |rows| && rows[i].Some?
                                   && DecodedRow(fieldIndices, fields, dec, rows[i].value, requested) == Err(r.error)
                                   && forall j :: 0 <= j < i && rows[j].Some? ==> DecodedRow(fieldIndices, fields, dec, rows[j].value, requested).Ok?
  {
    if rows != [] {
      ScanFailsOnFirstBadRow(fieldIndices, fields, dec, rows[1..], requested);
      var r := DecodedRows(fieldIndices, fields, dec, rows, requested);
      var first := if rows[0].Some? then DecodedRow(fieldIndices, fields, dec, rows[0].value, requested) else Ok(map[]);
      if first.Err? {
        assert r == Err(first.error);
      } else {
        forall i | 1 <= i < |rows|
          ensures rows[i] == rows[1..][i - 1]
        {
        }
        if r.Err? {
          var i :| && 0 <= i < |rows[1..]| && rows[1..][i].Some?
                   && DecodedRow(fieldIndices, fields, dec, rows[1..][i].value, requested) == Err(r.error)
                   && forall j :: 0 <= j < i && rows[1..][j].Some? ==> DecodedRow(fieldIndices, fields, dec, rows[1..][j].value, requested).Ok?;
          assert rows[i + 1] == rows[1..][i];
          forall j | 0 <= j < i + 1 && rows[j].Some?
            ensures DecodedRow(fieldIndices, fields, dec, rows[j].value, requested).Ok?
          {
            if j > 0 {
              assert rows[j] == rows[1..][j - 1];
            }
          }
        } else {
          forall i | 0 <= i < |rows| && rows[i].Some?
            ensures DecodedRow(fieldIndices, fields, dec, rows[i].value, requested).Ok?
          {
            if i > 0 {
              assert rows[i] == rows[1..][i - 1];
            }
          }
        }
      }
    }
  }

  /** Every key at or after the start key is returned unless the count is reached, whatever table it belongs to. */
  lemma ScanReturnsEveryKeyBeforeCount(data: map<Bytes, Bytes>, table: Bytes, startKey: Bytes, count: int,
                                       keys: seq<Bytes>, rows: seq<Option<Bytes>>, k: Bytes)
    requires IsScanOf(data, GetRowKey(table, startKey), count, keys, rows)
    requires k in data && LessEq(GetRowKey(table, startKey), k) && |keys| < count
    ensures k in keys
  {
  }

  /**
   * Scan is not confined to its table: scanning table `"t"` from the empty key over a store
   * holding only row `"a"` of table `"u"` returns that row.
   */
  lemma ScanCrossesTables(keys: seq<Bytes>, rows: seq<Option<Bytes>>)
    requires IsScanOf(map[[117, 58, 97] := [1]], GetRowKey([116], []), 1, keys, rows)
    ensures keys == [[117, 58, 97]] && rows == [Some([1])]
    ensures forall key :: GetRowKey([116], key) != keys[0]
  {
    var k: Bytes := [117, 58, 97];
    assert GetRowKey([116], []) == [116, 58];
    assert Less([116, 58], k);
    var data := map[[117, 58, 97] := [1]];
    assert k in data && LessEq(GetRowKey([116], []), k);
    if k !in keys {
      assert |keys| == 1 && keys[0] in data;
      LessIrreflexive(k);
      assert false;
    }
    assert keys == [k];
    forall key
      ensures GetRowKey([116], key) != keys[0]
    {
      assert GetRowKey([116], key)[0] == 116;
    }
  }
}
