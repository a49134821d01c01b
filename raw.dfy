/**
 * The row adapter of go-ycsb's raw TiKV driver (`rawDB` in db/tikv/raw.go): a table of rows
 * addressed by (table, key), each row a map from field name to bytes, stored as one encoded
 * value per row in the raw key-value store.
 */
module Raw {
  import opened Common
  import opened RawKV
  import opened RowCodec
  import opened BufPool

  /** A logical row: field name to value. */
  type Row = map<string, Bytes>

  /** The byte `':'`. */
  const Separator: byte := 58

  /**
   * `getRowKey`: the store key of row `key` of `table` is `table:key`.  Given the length of
   * the table name, the key splits back into the table, the separator and the row key.
   */
  function GetRowKey(table: Bytes, key: Bytes): (k: Bytes)
    ensures |k| == |table| + 1 + |key|
    ensures k[..|table|] == table && k[|table|] == Separator && k[|table| + 1..] == key
  {
    table + [Separator] + key
  }

  /** `fieldIndices[field]` in Go: a field that is not registered reads as column 0. */
  function ColumnOf(fieldIndices: map<string, int>, field: string): (c: int)
    ensures field in fieldIndices ==> c == fieldIndices[field]
    ensures field !in fieldIndices ==> c == 0
    ensures c == 0 || c in fieldIndices.Values
  {
    if field in fieldIndices then fieldIndices[field] else 0
  }

  /** No two of `names` share a column id. */
  ghost predicate InjectiveOn(fieldIndices: map<string, int>, names: set<string>) {
    forall f, g :: f in names && g in names && ColumnOf(fieldIndices, f) == ColumnOf(fieldIndices, g) ==> f == g
  }

  /** The field names `decodeRow` works with: all configured fields when none are requested. */
  function Requested(fields: seq<string>, requested: seq<string>): (names: seq<string>)
    ensures |requested| > 0 ==> names == requested
    ensures |requested| == 0 ==> names == fields
    ensures |names| == 0 <==> |requested| == 0 && |fields| == 0
  {
    if |requested| == 0 then fields else requested
  }

  function ColumnSet(fieldIndices: map<string, int>, names: seq<string>): set<int> {
    set f | f in names :: ColumnOf(fieldIndices, f)
  }

  /** The named fields whose column is present in `data`, with that column's value. */
  function Project(fieldIndices: map<string, int>, names: seq<string>, data: map<int, Bytes>): Row {
    map f | f in names && ColumnOf(fieldIndices, f) in data :: data[ColumnOf(fieldIndices, f)]
  }

  lemma ColumnSetExtend(fieldIndices: map<string, int>, names: seq<string>, i: int)
    requires 0 <= i < |names|
    ensures ColumnSet(fieldIndices, names[..i + 1]) == ColumnSet(fieldIndices, names[..i]) + {ColumnOf(fieldIndices, names[i])}
  {
    assert names[..i + 1] == names[..i] + [names[i]];
  }

  lemma ProjectExtend(fieldIndices: map<string, int>, names: seq<string>, i: int, data: map<int, Bytes>)
    requires 0 <= i < |names|
    ensures var c := ColumnOf(fieldIndices, names[i]);
            Project(fieldIndices, names[..i + 1], data)
            == if c in data then Project(fieldIndices, names[..i], data)[names[i] := data[c]]
               else Project(fieldIndices, names[..i], data)
  {
    assert names[..i + 1] == names[..i] + [names[i]];
  }

  /** What `decodeRow(row, requested)` returns. */
  function DecodedRow(fieldIndices: map<string, int>, fields: seq<string>, dec: Decoder, row: Bytes, requested: seq<string>): Result<Row> {
    var names := Requested(fields, requested);
    match dec(row, ColumnSet(fieldIndices, names))
    case Err(e) => Err(e)
    case Ok(data) => Ok(Project(fieldIndices, names, data))
  }

  /** `r` with `x` in front of its rows, when it holds rows. */
  function Prepend(x: Option<Row>, r: Result<seq<Option<Row>>>): Result<seq<Option<Row>>> {
    if r.Ok? then Ok([x] + r.value) else r
  }

  /** The rows decoded so far, followed by what the remaining rows decode to. */
  function Glue(done: seq<Option<Row>>, r: Result<seq<Option<Row>>>): Result<seq<Option<Row>>> {
    if r.Ok? then Ok(done + r.value) else r
  }

  lemma GlueNothing(r: Result<seq<Option<Row>>>)
    ensures Glue([], r) == r
  {
    if r.Ok? {
      assert [] + r.value == r.value;
    }
  }

  lemma GluePrepend(done: seq<Option<Row>>, x: Option<Row>, r: Result<seq<Option<Row>>>)
    ensures Glue(done, Prepend(x, r)) == Glue(done + [x], r)
  {
    if r.Ok? {
      assert done + ([x] + r.value) == (done + [x]) + r.value;
    }
  }

  /** What `Scan` makes of the store's rows: nil rows stay nil, the first decode error wins. */
  function DecodedRows(fieldIndices: map<string, int>, fields: seq<string>, dec: Decoder, rows: seq<Option<Bytes>>, requested: seq<string>): Result<seq<Option<Row>>>
  {
    if rows == [] then Ok([])
    else
      var rest := DecodedRows(fieldIndices, fields, dec, rows[1..], requested);
      match rows[0]
      case None => Prepend(None, rest)
      case Some(row) =>
        match DecodedRow(fieldIndices, fields, dec, row, requested)
        case Err(e) => Err(e)
        case Ok(m) => Prepend(Some(m), rest)
  }

  /** `DecodedRows` of the rows from position `i` on, one row unfolded. */
  lemma DecodedRowsAt(fieldIndices: map<string, int>, fields: seq<string>, dec: Decoder, rows: seq<Option<Bytes>>, i: int, requested: seq<string>)
    requires 0 <= i < |rows|
    ensures DecodedRows(fieldIndices, fields, dec, rows[i..], requested)
         == match rows[i]
            case None => Prepend(None, DecodedRows(fieldIndices, fields, dec, rows[i + 1..], requested))
            case Some(row) =>
              match DecodedRow(fieldIndices, fields, dec, row, requested)
              case Err(e) => Err(e)
              case Ok(m) => Prepend(Some(m), DecodedRows(fieldIndices, fields, dec, rows[i + 1..], requested))
  {
    assert rows[i..][1..] == rows[i + 1..];
  }

  /**
   * One step of `Scan`'s loop: given the rows decoded before position `i`, either row `i`
   * fails to decode and so does the whole scan, or its entry `x` joins the decoded rows.
   */
  lemma DecodedRowsStep(fieldIndices: map<string, int>, fields: seq<string>, dec: Decoder, rows: seq<Option<Bytes>>,
                        requested: seq<string>, done: seq<Option<Row>>, i: int, x: Option<Row>)
    requires 0 <= i < |rows|
    requires DecodedRows(fieldIndices, fields, dec, rows, requested) == Glue(done, DecodedRows(fieldIndices, fields, dec, rows[i..], requested))
    ensures rows[i].Some? && DecodedRow(fieldIndices, fields, dec, rows[i].value, requested).Err? ==>
              DecodedRows(fieldIndices, fields, dec, rows, requested) == Err(DecodedRow(fieldIndices, fields, dec, rows[i].value, requested).error)
    ensures (rows[i].None? && x == None)
            || (rows[i].Some? && x.Some? && DecodedRow(fieldIndices, fields, dec, rows[i].value, requested) == Ok(x.value)) ==>
              DecodedRows(fieldIndices, fields, dec, rows, requested) == Glue(done + [x], DecodedRows(fieldIndices, fields, dec, rows[i + 1..], requested))
  {
    DecodedRowsAt(fieldIndices, fields, dec, rows, i, requested);
    GluePrepend(done, x, DecodedRows(fieldIndices, fields, dec, rows[i + 1..], requested));
  }

  /** What `Read` returns when the store answers: nil for a missing row, else the decoded row. */
  function ReadResult(fieldIndices: map<string, int>, fields: seq<string>, dec: Decoder, data: map<Bytes, Bytes>, rowKey: Bytes, requested: seq<string>): Result<Option<Row>> {
    match Lookup(data, rowKey)
    case None => Ok(None)
    case Some(row) =>
      match DecodedRow(fieldIndices, fields, dec, row, requested)
      case Err(e) => Err(e)
      case Ok(m) => Ok(Some(m))
  }

  /** The stored row as `Update` hands it to `decodeRow`: a nil row is the empty byte string. */
  function Stored(data: map<Bytes, Bytes>, rowKey: Bytes): Bytes {
    match Lookup(data, rowKey)
    case None => []
    case Some(row) => row
  }

  /** The column ids `Insert` collects, field by field in the order it visits them. */
  function IdsOf(fieldIndices: map<string, int>, order: seq<string>): (ids: seq<int>)
    ensures |ids| == |order|
    ensures forall i :: 0 <= i < |order| ==> ids[i] == ColumnOf(fieldIndices, order[i])
  {
    if order == [] then []
    else IdsOf(fieldIndices, order[..|order| - 1]) + [ColumnOf(fieldIndices, order[|order| - 1])]
  }

  /** The values `Insert` collects, field by field in the order it visits them. */
  function ValuesOf(values: Row, order: seq<string>): (vals: seq<Bytes>)
    requires forall f :: f in order ==> f in values
    ensures |vals| == |order|
    ensures forall i :: 0 <= i < |order| ==> vals[i] == values[order[i]]
  {
    if order == [] then []
    else ValuesOf(values, order[..|order| - 1]) + [values[order[|order| - 1]]]
  }

  /** `order` visits every field of `values` exactly once. */
  ghost predicate Enumerates(values: Row, order: seq<string>) {
    Distinct(order) && forall f :: f in order <==> f in values
  }

  /**
   * The store's data and write log after `Insert` at `rowKey` whose encoding step gave
   * `encoded` and which returned `r`: an encoding error writes nothing, otherwise exactly one
   * Put of the encoded row is issued.
   */
  ghost predicate Inserted(before: map<Bytes, Bytes>, after: map<Bytes, Bytes>, logBefore: seq<Write>, logAfter: seq<Write>,
                           rowKey: Bytes, encoded: Result<Bytes>, r: Outcome) {
    match encoded
    case Err(e) => r == Fail(e) && after == before && logAfter == logBefore
    case Ok(bytes) => logAfter == logBefore + [PutCall(rowKey, bytes)] && PutEffect(before, after, rowKey, bytes, r)
  }

  /**
   * The merge step of `Update`: every field of `values` is assigned into `data`, so the result
   * has the fields of both and the value from `values` wherever both have the field.
   */
  method Overlay(data: Row, values: Row) returns (merged: Row)
    ensures merged.Keys == data.Keys + values.Keys
    ensures forall f :: f in values ==> merged[f] == values[f]
    ensures forall f :: f in data && f !in values ==> merged[f] == data[f]
  {
    merged := data;
    var rest := values.Keys;
    while rest != {}
      invariant rest <= values.Keys
      invariant merged.Keys == data.Keys + (values.Keys - rest)
      invariant forall f :: f in values && f !in rest ==> merged[f] == values[f]
      invariant forall f :: f in data && (f !in values || f in rest) ==> merged[f] == data[f]
      decreases rest
    {
      var f :| f in rest;
      merged := merged[f := values[f]];
      rest := rest - {f};
    }
  }

  class RawDB {
    const client: RawKVClient
    /** Field name to column id, built once from the configuration. */
    const fieldIndices: map<string, int>
    /** All configured field names. */
    const fields: seq<string>
    const bufPool: BufPool
    /** `tablecodec.EncodeRow` and `tablecodec.DecodeRow`. */
    const codecEncode: Encoder
    const codecDecode: Decoder

    constructor (client: RawKVClient, fieldIndices: map<string, int>, fields: seq<string>, bufPool: BufPool,
                 codecEncode: Encoder, codecDecode: Decoder)
      ensures this.client == client && this.fieldIndices == fieldIndices && this.fields == fields
      ensures this.bufPool == bufPool && this.codecEncode == codecEncode && this.codecDecode == codecDecode
    {
      this.client := client;
      this.fieldIndices := fieldIndices;
      this.fields := fields;
      this.bufPool := bufPool;
      this.codecEncode := codecEncode;
      this.codecDecode := codecDecode;
    }

    /** `decodeRow`: resolves the requested names to columns, decodes those, and names them back. */
    method DecodeRow(row: Bytes, requested: seq<string>) returns (r: Result<Row>)
      ensures r == DecodedRow(fieldIndices, fields, codecDecode, row, requested)
    {
      var names := requested;
      if |names| == 0 {
        names := fields;
      }
      var cols: set<int> := {};
      for i := 0 to |names|
        invariant cols == ColumnSet(fieldIndices, names[..i])
      {
        ColumnSetExtend(fieldIndices, names, i);
        cols := cols + {ColumnOf(fieldIndices, names[i])};
      }
      assert names[..|names|] == names;
      var data := codecDecode(row, cols);
      if data.Err? {
        return Err(data.error);
      }
      var res: Row := map[];
      for i := 0 to |names|
        invariant res == Project(fieldIndices, names[..i], data.value)
      {
        ProjectExtend(fieldIndices, names, i, data.value);
        var c := ColumnOf(fieldIndices, names[i]);
        if c in data.value {
          res := res[names[i] := data.value[c]];
        }
      }
      return Ok(res);
    }

    method Read(table: Bytes, key: Bytes, requested: seq<string>) returns (r: Result<Option<Row>>)
      ensures r == ReadResult(fieldIndices, fields, codecDecode, client.data, GetRowKey(table, key), requested)
           || (r.Err? && IsStoreError(r.error))
    {
      var row := client.Get(GetRowKey(table, key));
      if row.Err? {
        return Err(row.error);
      } else if row.value.None? {
        return Ok(None);
      }
      var m := DecodeRow(row.value.value, requested);
      if m.Err? {
        return Err(m.error);
      }
      return Ok(Some(m.value));
    }

    /** `reply` is what the store answered, when it answered. */
    method Scan(table: Bytes, startKey: Bytes, count: int, requested: seq<string>) returns (r: Result<seq<Option<Row>>>, ghost reply: ScanReply)
      ensures (r.Err? && IsStoreError(r.error))
           || (IsScanOf(client.data, GetRowKey(table, startKey), count, reply.keys, reply.rows)
               && r == DecodedRows(fieldIndices, fields, codecDecode, reply.rows, requested))
    {
      var scanned := client.Scan(GetRowKey(table, startKey), count);
      if scanned.Err? {
        return Err(scanned.error), ScanReply([], []);
      }
      reply := scanned.value;
      r := DecodeRows(scanned.value.rows, requested);
    }

    /** The loop of `Scan` over the store's rows: nil rows stay nil, a decode error ends the scan. */
    method DecodeRows(rows: seq<Option<Bytes>>, requested: seq<string>) returns (r: Result<seq<Option<Row>>>)
      ensures r == DecodedRows(fieldIndices, fields, codecDecode, rows, requested)
    {
      var res := new Option<Row>[|rows|](_ => None);
      GlueNothing(DecodedRows(fieldIndices, fields, codecDecode, rows, requested));
      assert rows[0..] == rows;
      assert res[..0] == [];
      for i := 0 to |rows|
        invariant DecodedRows(fieldIndices, fields, codecDecode, rows, requested)
               == Glue(res[..i], DecodedRows(fieldIndices, fields, codecDecode, rows[i..], requested))
      {
        ghost var done := res[..i];
        if rows[i].None? {
          res[i] := None;
          DecodedRowsStep(fieldIndices, fields, codecDecode, rows, requested, done, i, None);
          assert res[..i + 1] == done + [None];
          continue;
        }
        var v := DecodeRow(rows[i].value, requested);
        if v.Err? {
          DecodedRowsStep(fieldIndices, fields, codecDecode, rows, requested, done, i, None);
          return Err(v.error);
        }
        res[i] := Some(v.value);
        DecodedRowsStep(fieldIndices, fields, codecDecode, rows, requested, done, i, Some(v.value));
        assert res[..i + 1] == done + [Some(v.value)];
      }
      assert rows[|rows|..] == [];
      assert res[..|rows|] + [] == res[..];
      return Ok(res[..]);
    }

    /**
     * `Update`: reads the whole stored row, lays `values` over it and writes the result back
     * with `Insert`.  A failed read is reported as success and writes nothing.
     */
    method Update(table: Bytes, key: Bytes, values: Row) returns (r: Outcome, ghost readFailed: bool, ghost order: seq<string>)
      modifies client, bufPool
      ensures bufPool.outstanding == old(bufPool.outstanding)
      ensures readFailed ==> r == Done && client.data == old(client.data) && client.writes == old(client.writes)
      ensures !readFailed ==>
        var base := DecodedRow(fieldIndices, fields, codecDecode, Stored(old(client.data), GetRowKey(table, key)), []);
        && (base.Err? ==> r == Fail(base.error) && client.data == old(client.data) && client.writes == old(client.writes))
        && (base.Ok? ==>
              && Enumerates(base.value + values, order)
              && Inserted(old(client.data), client.data, old(client.writes), client.writes, GetRowKey(table, key),
                          codecEncode(ValuesOf(base.value + values, order), IdsOf(fieldIndices, order)), r))
    {
      var row := client.Get(GetRowKey(table, key));
      if row.Err? {
        return Done, true, [];
      }
      readFailed := false;
      var stored: Bytes := if row.value.None? then [] else row.value.value;
      assert stored == Stored(old(client.data), GetRowKey(table, key));
      var decoded := DecodeRow(stored, []);
      if decoded.Err? {
        return Fail(decoded.error), false, [];
      }
      var data := decoded.value;
      data := Overlay(data, values);
      assert data == decoded.value + values;
      r, order := Insert(table, key, data);
    }

    /**
     * `Insert`: encodes `values`, visiting the fields in the order `order`, and writes the
     * encoding at the row's key with one Put; the scratch buffer is given back on every path.
     */
    method Insert(table: Bytes, key: Bytes, values: Row) returns (r: Outcome, ghost order: seq<string>)
      modifies client, bufPool
      ensures bufPool.outstanding == old(bufPool.outstanding)
      ensures Enumerates(values, order)
      ensures Inserted(old(client.data), client.data, old(client.writes), client.writes, GetRowKey(table, key),
                       codecEncode(ValuesOf(values, order), IdsOf(fieldIndices, order)), r)
    {
      var buf := bufPool.Get();
      var cols: seq<Bytes> := [];
      var colIDs: seq<int> := [];
      order := [];
      var rest := values.Keys;
      while rest != {}
        invariant rest <= values.Keys
        invariant Distinct(order)
        invariant forall f :: f in order <==> f in values && f !in rest
        invariant cols == ValuesOf(values, order) && colIDs == IdsOf(fieldIndices, order)
        invariant bufPool.outstanding == old(bufPool.outstanding) + 1
        invariant client.data == old(client.data) && client.writes == old(client.writes)
        decreases |rest|
      {
        var k :| k in rest;
        assert (order + [k])[..|order|] == order;
        cols := cols + [values[k]];
        colIDs := colIDs + [ColumnOf(fieldIndices, k)];
        order := order + [k];
        rest := rest - {k};
      }
      var rowData := codecEncode(cols, colIDs);
      if rowData.Err? {
        bufPool.Put(buf);
        return Fail(rowData.error), order;
      }
      r := client.Put(GetRowKey(table, key), rowData.value);
      bufPool.Put(buf);
    }

    method Delete(table: Bytes, key: Bytes) returns (r: Outcome)
      modifies client
      ensures client.writes == old(client.writes) + [DeleteCall(GetRowKey(table, key))]
      ensures DeleteEffect(old(client.data), client.data, GetRowKey(table, key), r)
    {
      r := client.Delete(GetRowKey(table, key));
    }
  }
}
