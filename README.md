# go-ycsb raw TiKV row adapter

This project models `rawDB`, the row adapter of go-ycsb's raw TiKV driver
(`db/tikv/raw.go`). Each logical row of a benchmark table is a map from field names to
byte strings. The adapter stores the whole row under one key of TiKV's raw key-value
store. That key is `table:key`, and the value is the row encoded with TiDB's row codec:
each field becomes a column whose id comes from the field registry `fieldIndices`.

The model has these modules:

- `Common`: bytes, `Option`, `Result`/`Outcome` and the error kinds.
- `ByteOrder`: the store's key order, Go's `bytes.Compare`. It proves that the order is
  strict and total, and `Least` picks the least key of a set.
- `RawKV`: the raw store client (`RawKVClient`). It is a class over a map from keys to
  values.
  - Any call may fail with a transport error.
  - A failed write may or may not have been applied.
  - Every Put and Delete is recorded in a ghost write log.
  - `Scan` collects the first keys at or after the start key, in ascending order.
- `BufPool`: the scratch-buffer pool, reduced to a count of buffers handed out.
- `RowCodec`: the codec as two functions, `Encoder` and `Decoder`. `RoundTrips` is the
  law that decoding an encoded row returns the requested columns that were encoded.
- `Raw`: the `RawDB` class with its `fieldIndices` and `fields` state and the operations
  `DecodeRow`, `Read`, `Scan`, `Update`, `Insert` and `Delete`. It also holds the
  reference functions those operations are proved against.
- `RawProperties`: lemmas relating the operations to one another.
  - Key composition, and the fact that it is not injective.
  - The round trip from `Insert` to `Read`.
  - `Update` as a merge.
  - `Insert` not depending on the order in which Go visits a map.
  - `Scan` keeping positions and failing as a whole.

In these places the adapter behaves in ways a caller might not expect, and the model follows it:

- No unknown-field error exists. A field name missing from `fieldIndices` reads as column 0
  (Go's zero value for a missing map key), both when decoding and when encoding.
- `Update` turns a failed read of the old row into success without writing anything. Every
  other store or codec error is passed to the caller unchanged.
- The row key `table + ":" + key` is not injective: `("a:b", "c")` and `("a", "b:c")` share
  a key. It is injective when table names contain no `:`, or when row keys contain none.
- An empty list of requested fields means all configured fields (`fields`), not all
  columns present in the stored value.

## Model

| member | source | states |
|---|---|---|
| Raw.GetRowKey | TiKV-ycsb/src/github.com/pingcap/go-ycsb/db/tikv/raw.go:69-71 | the row key is the table, one `:` and the key, and splits back into them given the table's length |
| Raw.ColumnOf | TiKV-ycsb/src/github.com/pingcap/go-ycsb/db/tikv/raw.go:82 | a registered field reads its registry column; an unregistered one reads column 0, Go's zero value for a missing key |
| Raw.Requested | TiKV-ycsb/src/github.com/pingcap/go-ycsb/db/tikv/raw.go:74-76 | a non-empty request is used as given; an empty one stands for all configured fields |
| Raw.RawDB.constructor | TiKV-ycsb/src/github.com/pingcap/go-ycsb/db/tikv/raw.go:32-37 | the adapter holds the store client, the field registry, the configured fields, the buffer pool and the codec, as given |
| Raw.RawDB.DecodeRow | TiKV-ycsb/src/github.com/pingcap/go-ycsb/db/tikv/raw.go:73-100 | the result is `DecodedRow`: the codec error if decoding fails; otherwise exactly the requested (or all configured) fields whose column the codec returned, each with that column's value |
| Raw.RawDB.Read | TiKV-ycsb/src/github.com/pingcap/go-ycsb/db/tikv/raw.go:102-111 | either a store error, or `ReadResult` over the current store: nil for a missing row, the codec error, or the decoded row |
| Raw.RawDB.Scan | TiKV-ycsb/src/github.com/pingcap/go-ycsb/db/tikv/raw.go:113-134 | either a store error, or the store's scan reply from `table:startKey` limited to `count` rows, decoded position by position with nil rows kept nil and the first decode error failing the whole scan |
| Raw.RawDB.DecodeRows | TiKV-ycsb/src/github.com/pingcap/go-ycsb/db/tikv/raw.go:119-133 | the result is `DecodedRows` of the store's rows: one entry per row in place, nil rows kept nil, the first decode error failing the whole scan |
| Raw.RawDB.Update | TiKV-ycsb/src/github.com/pingcap/go-ycsb/db/tikv/raw.go:136-153 | a failed read returns success and changes nothing; a decode error is returned and nothing is written; otherwise the stored row's configured fields, overlaid with `values`, are written with `Insert`; the buffer pool is balanced |
| Raw.Overlay | TiKV-ycsb/src/github.com/pingcap/go-ycsb/db/tikv/raw.go:147-149 | the merged row has the fields of both rows; the new value wins where both have a field, and the old value is kept elsewhere |
| Raw.RawDB.Insert | TiKV-ycsb/src/github.com/pingcap/go-ycsb/db/tikv/raw.go:155-178 | every field is visited once; an encoding error writes nothing and is returned; otherwise exactly one Put of the encoded row is issued at `table:key` and its outcome is returned; the buffer taken from the pool is given back on every path |
| Raw.RawDB.Delete | TiKV-ycsb/src/github.com/pingcap/go-ycsb/db/tikv/raw.go:180-182 | exactly one Delete of `table:key` is issued; on success that key is gone and nothing else changed |
| Raw.IdsOf | TiKV-ycsb/src/github.com/pingcap/go-ycsb/db/tikv/raw.go:163-170 | the i-th column id handed to the encoder is the registry's column of the i-th field visited (0 if unregistered) |
| Raw.ValuesOf | TiKV-ycsb/src/github.com/pingcap/go-ycsb/db/tikv/raw.go:163-170 | the i-th value handed to the encoder is the value of the i-th field visited |
| RawKV.Wire | TiKV-ycsb/src/github.com/pingcap/go-ycsb/db/tikv/raw.go:106 | a value reaches the adapter as nil exactly when it is empty |
| RawKV.Lookup | TiKV-ycsb/src/github.com/pingcap/go-ycsb/db/tikv/raw.go:103-108 | `Get` answers a row exactly when the key holds a non-empty value, and answers that value |
| RawKV.RawKVClient.Get | TiKV-ycsb/src/github.com/pingcap/go-ycsb/db/tikv/raw.go:103 | either a store error, or the stored value of the key (nil when missing) |
| RawKV.RawKVClient.Put | TiKV-ycsb/src/github.com/pingcap/go-ycsb/db/tikv/raw.go:177 | the Put is logged; on success the key holds the value; on failure a store error is returned and the write may or may not have been applied |
| RawKV.RawKVClient.Delete | TiKV-ycsb/src/github.com/pingcap/go-ycsb/db/tikv/raw.go:181 | the Delete is logged; on success the key is gone; on failure a store error is returned and the delete may or may not have been applied |
| RawKV.RawKVClient.Scan | TiKV-ycsb/src/github.com/pingcap/go-ycsb/db/tikv/raw.go:114 | either a store error, or the first at most `limit` keys at or after `start`, strictly ascending and none skipped, each with its value as the client returns it |
| RawKV.ScanUnique | TiKV-ycsb/src/github.com/pingcap/go-ycsb/db/tikv/raw.go:114 | two replies that both satisfy the scan contract over the same store, start key and limit are equal, so the reply `Scan` decodes is determined |
| RawKV.ScanStep | TiKV-ycsb/src/github.com/pingcap/go-ycsb/db/tikv/raw.go:114 | appending the least remaining key keeps the collected keys ascending and complete up to that key |
| ByteOrder.Least | TiKV-ycsb/src/github.com/pingcap/go-ycsb/db/tikv/raw.go:114 | the chosen key is in the set and precedes every other key in byte order |
| ByteOrder.LessIrreflexive | TiKV-ycsb/src/github.com/pingcap/go-ycsb/db/tikv/raw.go:114 | no key precedes itself in the store's order |
| ByteOrder.LessTransitive | TiKV-ycsb/src/github.com/pingcap/go-ycsb/db/tikv/raw.go:114 | the store's key order is transitive |
| ByteOrder.LessTotal | TiKV-ycsb/src/github.com/pingcap/go-ycsb/db/tikv/raw.go:114 | any two distinct keys are ordered one way or the other |
| BufPool.BufPool.Get | TiKV-ycsb/src/github.com/pingcap/go-ycsb/db/tikv/raw.go:157 | one more buffer is outstanding |
| BufPool.BufPool.Put | TiKV-ycsb/src/github.com/pingcap/go-ycsb/db/tikv/raw.go:158 | one buffer fewer is outstanding |
| RowCodec.PairsToMap | TiKV-ycsb/src/github.com/pingcap/go-ycsb/db/tikv/raw.go:172 | the encoded columns are exactly the column ids handed to the encoder |
| RowCodec.PairsToMapAt | TiKV-ycsb/src/github.com/pingcap/go-ycsb/db/tikv/raw.go:172 | with distinct column ids, the i-th value is the one stored under the i-th id |
| RowCodec.Restrict | TiKV-ycsb/src/github.com/pingcap/go-ycsb/db/tikv/raw.go:86 | decoding keeps exactly the requested columns present in the row, with their values |
| RawProperties.RowKeyNotInjective | TiKV-ycsb/src/github.com/pingcap/go-ycsb/db/tikv/raw.go:69-71 | the distinct pairs `("a:b", "c")` and `("a", "b:c")` get the same row key |
| RawProperties.RowKeyCollision | TiKV-ycsb/src/github.com/pingcap/go-ycsb/db/tikv/raw.go:69-71 | two pairs collide only when the longer table is the shorter table, a `:` and the start of the other key |
| RawProperties.RowKeyInjectiveForPlainTables | TiKV-ycsb/src/github.com/pingcap/go-ycsb/db/tikv/raw.go:69-71 | if table names contain no `:`, equal row keys hold exactly when table and key are equal |
| RawProperties.RowKeyInjectiveForPlainKeys | TiKV-ycsb/src/github.com/pingcap/go-ycsb/db/tikv/raw.go:69-71 | if row keys contain no `:`, equal row keys hold exactly when table and key are equal, whatever the table names |
| RawProperties.EmptyRequestReadsAllFields | TiKV-ycsb/src/github.com/pingcap/go-ycsb/db/tikv/raw.go:74-76 | requesting no fields decodes the same as requesting every configured field |
| RawProperties.DecodedRowFields | TiKV-ycsb/src/github.com/pingcap/go-ycsb/db/tikv/raw.go:78-99 | a codec error is passed through; otherwise the row names exactly the requested fields whose column was decoded, with that column's value, and never a field that was not requested |
| RawProperties.UnregisteredFieldReadsColumnZero | TiKV-ycsb/src/github.com/pingcap/go-ycsb/db/tikv/raw.go:81-96 | an unregistered requested field is not an error: it reads the value of column 0 |
| RawProperties.UnregisteredFieldsShareColumnZero | TiKV-ycsb/src/github.com/pingcap/go-ycsb/db/tikv/raw.go:163-170 | an unregistered field shares column 0 with any other unregistered field and with the field registered at column 0 |
| RawProperties.DistinctIds | TiKV-ycsb/src/github.com/pingcap/go-ycsb/db/tikv/raw.go:163-170 | fields with distinct columns give the encoder distinct column ids |
| RawProperties.EncodedColumns | TiKV-ycsb/src/github.com/pingcap/go-ycsb/db/tikv/raw.go:163-172 | the encoded columns are the columns of the row's fields, each holding that field's value |
| RawProperties.ProjectEncoded | TiKV-ycsb/src/github.com/pingcap/go-ycsb/db/tikv/raw.go:91-97 | naming the decoded columns back gives the row's fields among the requested ones |
| RawProperties.DecodeAfterEncode | TiKV-ycsb/src/github.com/pingcap/go-ycsb/db/tikv/raw.go:73-100 | round trip: decoding what `Insert` encoded gives `{f: R[f] for f requested if f in R}` |
| RawProperties.SameEncodedColumns | TiKV-ycsb/src/github.com/pingcap/go-ycsb/db/tikv/raw.go:163-170 | any two visiting orders hand the encoder the same columns |
| RawProperties.InsertOrderIrrelevant | TiKV-ycsb/src/github.com/pingcap/go-ycsb/db/tikv/raw.go:163-172 | the stored row decodes the same whatever order the fields are visited in |
| RawProperties.ReadAfterInsert | TiKV-ycsb/src/github.com/pingcap/go-ycsb/db/tikv/raw.go:155-178 | after a successful `Insert`, `Read` returns the requested fields of the inserted row |
| RawProperties.ReadAfterDelete | TiKV-ycsb/src/github.com/pingcap/go-ycsb/db/tikv/raw.go:180-182 | after a successful `Delete`, `Read` returns nil with no error |
| RawProperties.WritesTouchOnlyTheirKey | TiKV-ycsb/src/github.com/pingcap/go-ycsb/db/tikv/raw.go:177-181 | `Insert` and `Delete` leave every other key as it was, whether they succeed or fail |
| RawProperties.DeleteIdempotent | TiKV-ycsb/src/github.com/pingcap/go-ycsb/db/tikv/raw.go:180-182 | deleting a missing row changes nothing |
| RawProperties.ReadAfterUpdate | TiKV-ycsb/src/github.com/pingcap/go-ycsb/db/tikv/raw.go:136-153 | over a row written by `Insert`, `Update` reads the row's configured fields, and a later `Read` sees them overlaid with the new values |
| RawProperties.ScanKeepsPositions | TiKV-ycsb/src/github.com/pingcap/go-ycsb/db/tikv/raw.go:119-133 | a successful scan returns one entry per row, in place: nil exactly where the row is nil, the decoded row elsewhere |
| RawProperties.ScanFailsOnFirstBadRow | TiKV-ycsb/src/github.com/pingcap/go-ycsb/db/tikv/raw.go:120-131 | a scan fails exactly when some non-nil row fails to decode, with the first such row's error and no partial result |
| RawProperties.ScanReturnsEveryKeyBeforeCount | TiKV-ycsb/src/github.com/pingcap/go-ycsb/db/tikv/raw.go:114 | every stored key at or after the start key is returned unless `count` rows came back first, whatever table it belongs to |
| RawProperties.ScanCrossesTables | TiKV-ycsb/src/github.com/pingcap/go-ycsb/db/tikv/raw.go:113-114 | scanning table `t` can return a row of table `u`: nothing confines the scan to its table |

## Left out

- `createRawDB`: reading the configuration and connecting are left out. The constructor takes the client, the registry, the field list, the pool and the codec as parameters. `createFieldIndices` and `allFields` are not part of this model.
- `Close`, `InitThread`, `CleanupThread`: connection teardown and per-thread context have no effect on the modelled state.
- The `context.Context` arguments are unused by the source and are dropped.
- Store client internals (regions, retries, size and scan-count limits) are unseen. The client is reduced to a map whose calls may fail with a transport error.
- RawKV.Wire: the client is assumed to return an empty stored value as nil, as Go's nil/empty-slice convention suggests. This behaviour is not visible in the code.
- Row codec byte format: the codec is a pair of functions. The law `RoundTrips` covers distinct column ids only. What TiDB does with duplicate ids is not visible. The lemmas that use the law therefore require the fields involved to have distinct columns.
- The scratch buffer passed to `EncodeRow` is not modelled as input to the encoder. Only taking it from the pool and giving it back are modelled.
- Codec errors are not constrained. The encoder and decoder may fail with any error value, including one that looks like a store error. So a store error from `Read` or `Scan` cannot be told apart from a codec failure reported with the same value.
- The `types.Datum` and varchar `FieldType` wrapping is treated as the identity on bytes.
- Raw.RawDB.Update: the base row for a missing key is whatever the codec decodes from an empty value. It is left uninterpreted because the library's behaviour there is not visible.
- Update's read-modify-write is not atomic against other clients. Concurrency and lost updates are not modelled.
- Go's map iteration order is nondeterministic. It is modelled as an arbitrary choice and exposed as a ghost visiting order. `Insert` is proved correct for every order.
- Column ids are `int64` in Go and unbounded here. The adapter only compares them, so no arithmetic is lost.
