/**
 * The contract the adapter relies on from TiDB's row codec (`tablecodec.EncodeRow` and
 * `tablecodec.DecodeRow`).  A physical value stands for a map from column id to bytes; the
 * byte layout itself is not modelled.  Encoders and decoders are passed around as functions,
 * and `RoundTrips` is what a codec must satisfy for the round-trip properties to hold.
 */
module RowCodec {
  import opened Common

  /** `EncodeRow(values, colIDs)`: the i-th value belongs to column `colIDs[i]`. */
  type Encoder = (seq<Bytes>, seq<int>) -> Result<Bytes>

  /** `DecodeRow(row, cols)`: the requested columns present in the row, by column id. */
  type Decoder = (Bytes, set<int>) -> Result<map<int, Bytes>>

  ghost predicate Distinct<T>(s: seq<T>) {
    forall i, j :: 0 <= i < j < |s| ==> s[i] != s[j]
  }

  /** The columns an encoder is given, as a map; a later pair overrides an earlier one. */
  function PairsToMap(ids: seq<int>, vals: seq<Bytes>): (m: map<int, Bytes>)
    requires |ids| == |vals|
    ensures m.Keys == set c | c in ids
  {
    if ids == [] then map[]
    else
      var n := |ids| - 1;
      var m := PairsToMap(ids[..n], vals[..n]);
      assert forall c :: c in ids <==> c in ids[..n] || c == ids[n];
      m[ids[n] := vals[n]]
  }

  function Restrict(m: map<int, Bytes>, cols: set<int>): (r: map<int, Bytes>)
    ensures r.Keys == m.Keys * cols
    ensures forall c :: c in r ==> r[c] == m[c]
  {
    map c | c in m && c in cols :: m[c]
  }

  /**
   * A successful encoding of distinct columns is never empty, and decoding it with any set of
   * requested columns gives back exactly those of the encoded columns that were requested.
   */
  ghost predicate RoundTrips(enc: Encoder, dec: Decoder) {
    forall vals, ids, cols ::
      |vals| == |ids| && Distinct(ids) && enc(vals, ids).Ok? ==>
        enc(vals, ids).value != [] &&
        dec(enc(vals, ids).value, cols) == Ok(Restrict(PairsToMap(ids, vals), cols))
  }

  /** One instance of `RoundTrips`. */
  lemma RoundTripAt(enc: Encoder, dec: Decoder, vals: seq<Bytes>, ids: seq<int>, cols: set<int>)
    requires RoundTrips(enc, dec)
    requires |vals| == |ids| && Distinct(ids) && enc(vals, ids).Ok?
    ensures enc(vals, ids).value != []
    ensures dec(enc(vals, ids).value, cols) == Ok(Restrict(PairsToMap(ids, vals), cols))
  {
  }

  /** With distinct column ids, the i-th value is the one stored at column `ids[i]`. */
  lemma {:induction false} PairsToMapAt(ids: seq<int>, vals: seq<Bytes>, i: int)
    requires |ids| == |vals| && Distinct(ids) && 0 <= i < |ids|
    ensures ids[i] in PairsToMap(ids, vals) && PairsToMap(ids, vals)[ids[i]] == vals[i]
  {
    var n := |ids| - 1;
    if i < n {
      PairsToMapAt(ids[..n], vals[..n], i);
    }
  }
}
