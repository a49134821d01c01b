/**
 * The raw key-value store the adapter runs on (TiKV's `RawKVClient`), seen as a sorted map
 * from byte keys to byte values.  Its network behaviour is reduced to this: any call may fail
 * with a transport error, and a write that fails may or may not have been applied.
 */
module RawKV {
  import opened Common
  import opened ByteOrder

  /** The client hands a value back as a Go slice; an empty value arrives as nil (`None`). */
  function Wire(v: Bytes): (r: Option<Bytes>)
    ensures r.None? <==> v == []
    ensures r.Some? ==> r.value == v
  {
    if v == [] then None else Some(v)
  }

  /** What `Get` answers for `key`: nil when the key is absent. */
  function Lookup(data: map<Bytes, Bytes>, key: Bytes): (r: Option<Bytes>)
    ensures r.Some? <==> key in data && data[key] != []
    ensures r.Some? ==> r.value == data[key]
  {
    if key in data then Wire(data[key]) else None
  }

  /** One write the adapter issued to the store, whatever its outcome. */
  datatype Write = PutCall(key: Bytes, value: Bytes) | DeleteCall(key: Bytes)

  /** The store after a `Put(key, value)` that returned `r`. */
  ghost predicate PutEffect(before: map<Bytes, Bytes>, after: map<Bytes, Bytes>, key: Bytes, value: Bytes, r: Outcome) {
    && (r.Done? ==> after == before[key := value])
    && (r.Fail? ==> IsStoreError(r.error) && (after == before || after == before[key := value]))
  }

  /** The store after a `Delete(key)` that returned `r`. */
  ghost predicate DeleteEffect(before: map<Bytes, Bytes>, after: map<Bytes, Bytes>, key: Bytes, r: Outcome) {
    && (r.Done? ==> after == before - {key})
    && (r.Fail? ==> IsStoreError(r.error) && (after == before || after == before - {key}))
  }

  /**
   * `keys`/`rows` is what `Scan(start, limit)` answers over `data`: the first entries whose
   * keys are at or after `start`, in ascending key order, at most `limit` of them and none
   * skipped.
   */
  ghost predicate IsScanOf(data: map<Bytes, Bytes>, start: Bytes, limit: int, keys: seq<Bytes>, rows: seq<Option<Bytes>>) {
    && |keys| == |rows|
    && |keys| <= (if limit < 0 then 0 else limit)
    && (forall i, j :: 0 <= i < j < |keys| ==> Less(keys[i], keys[j]))
    && (forall i :: 0 <= i < |keys| ==> keys[i] in data && LessEq(start, keys[i]) && rows[i] == Wire(data[keys[i]]))
    && (forall k :: k in data && LessEq(start, k) && k !in keys ==>
          |keys| >= limit && forall i :: 0 <= i < |keys| ==> Less(keys[i], k))
  }

  /** The facts `Scan` keeps while collecting: `keys` so far, and the keys still to come in `rest`. */
  ghost predicate Scanning(data: map<Bytes, Bytes>, start: Bytes, rest: set<Bytes>, keys: seq<Bytes>, rows: seq<Option<Bytes>>) {
    && (forall k :: k in rest <==> k in data && LessEq(start, k) && k !in keys)
    && |keys| == |rows|
    && (forall i :: 0 <= i < |keys| ==> keys[i] in data && LessEq(start, keys[i]) && rows[i] == Wire(data[keys[i]]))
    && (forall i, j :: 0 <= i < j < |keys| ==> Less(keys[i], keys[j]))
    && (forall k, i :: k in rest && 0 <= i < |keys| ==> Less(keys[i], k))
  }

  /** Taking the least remaining key keeps `Scanning`. */
  lemma ScanStep(data: map<Bytes, Bytes>, start: Bytes, rest: set<Bytes>, keys: seq<Bytes>, rows: seq<Option<Bytes>>, m: Bytes)
    requires Scanning(data, start, rest, keys, rows)
    requires m in rest && forall k :: k in rest ==> LessEq(m, k)
    ensures Scanning(data, start, rest - {m}, keys + [m], rows + [Wire(data[m])])
  {
    var keys', rows' := keys + [m], rows + [Wire(data[m])];
    forall k | k in rest - {m}
      ensures Less(m, k)
    {
    }
    forall k
      ensures k in rest - {m} <==> k in data && LessEq(start, k) && k !in keys'
    {
      assert k in keys' <==> k in keys || k == m;
    }
    forall i | 0 <= i < |keys'|
      ensures keys'[i] in data && LessEq(start, keys'[i]) && rows'[i] == Wire(data[keys'[i]])
    {
      if i < |keys| {
        assert keys'[i] == keys[i] && rows'[i] == rows[i];
      }
    }
  }

  /** Where two scan replies agree on the keys before position `i`, they agree at `i`. */
  lemma ScanKeyAt(data: map<Bytes, Bytes>, start: Bytes, limit: int, keys1: seq<Bytes>, rows1: seq<Option<Bytes>>,
                  keys2: seq<Bytes>, rows2: seq<Option<Bytes>>, i: int)
    requires IsScanOf(data, start, limit, keys1, rows1) && IsScanOf(data, start, limit, keys2, rows2)
    requires 0 <= i < |keys1| && i < |keys2|
    requires forall j :: 0 <= j < i ==> keys1[j] == keys2[j]
    ensures keys1[i] == keys2[i]
  {
    LessTotal(keys1[i], keys2[i]);
    ScanNotBelow(data, start, limit, keys1, rows1, keys2, rows2, i);
    ScanNotBelow(data, start, limit, keys2, rows2, keys1, rows1, i);
  }

  /** A scan reply cannot have a smaller key than another at the first position where they differ. */
  lemma ScanNotBelow(data: map<Bytes, Bytes>, start: Bytes, limit: int, keys1: seq<Bytes>, rows1: seq<Option<Bytes>>,
                     keys2: seq<Bytes>, rows2: seq<Option<Bytes>>, i: int)
    requires IsScanOf(data, start, limit, keys1, rows1) && IsScanOf(data, start, limit, keys2, rows2)
    requires 0 <= i < |keys1| && i < |keys2|
    requires forall j :: 0 <= j < i ==> keys1[j] == keys2[j]
    ensures !Less(keys1[i], keys2[i])
  {
    var x := keys1[i];
    if Less(x, keys2[i]) {
      if x in keys2 {
        var j :| 0 <= j < |keys2| && keys2[j] == x;
        if j < i {
          assert keys1[j] == x && Less(keys1[j], keys1[i]);
        } else if j > i {
          assert Less(keys2[i], keys2[j]);
          LessTransitive(x, keys2[i], x);
        }
      } else {
        assert Less(keys2[i], x);
        LessTransitive(x, keys2[i], x);
      }
      LessIrreflexive(x);
    }
  }

  /** The reply agrees with another on every position below `n`. */
  lemma {:induction false} ScanPrefix(data: map<Bytes, Bytes>, start: Bytes, limit: int, keys1: seq<Bytes>, rows1: seq<Option<Bytes>>,
                                      keys2: seq<Bytes>, rows2: seq<Option<Bytes>>, n: int)
    requires IsScanOf(data, start, limit, keys1, rows1) && IsScanOf(data, start, limit, keys2, rows2)
    requires 0 <= n <= |keys1| && n <= |keys2|
    ensures forall j :: 0 <= j < n ==> keys1[j] == keys2[j]
  {
    if n > 0 {
      ScanPrefix(data, start, limit, keys1, rows1, keys2, rows2, n - 1);
      ScanKeyAt(data, start, limit, keys1, rows1, keys2, rows2, n - 1);
    }
  }

  /** A scan reply is determined by the store, the start key and the limit. */
  lemma ScanUnique(data: map<Bytes, Bytes>, start: Bytes, limit: int, keys1: seq<Bytes>, rows1: seq<Option<Bytes>>,
                   keys2: seq<Bytes>, rows2: seq<Option<Bytes>>)
    requires IsScanOf(data, start, limit, keys1, rows1) && IsScanOf(data, start, limit, keys2, rows2)
    ensures keys1 == keys2 && rows1 == rows2
  {
    if |keys1| <= |keys2| {
      ScanPrefix(data, start, limit, keys1, rows1, keys2, rows2, |keys1|);
      ScanLength(data, start, limit, keys1, rows1, keys2, rows2);
    } else {
      ScanPrefix(data, start, limit, keys2, rows2, keys1, rows1, |keys2|);
      ScanLength(data, start, limit, keys2, rows2, keys1, rows1);
    }
    assert keys1 == keys2;
  }

  /** A reply that is a prefix of another is the whole of it. */
  lemma ScanLength(data: map<Bytes, Bytes>, start: Bytes, limit: int, keys1: seq<Bytes>, rows1: seq<Option<Bytes>>,
                   keys2: seq<Bytes>, rows2: seq<Option<Bytes>>)
    requires IsScanOf(data, start, limit, keys1, rows1) && IsScanOf(data, start, limit, keys2, rows2)
    requires |keys1| <= |keys2| && forall j :: 0 <= j < |keys1| ==> keys1[j] == keys2[j]
    ensures |keys1| == |keys2|
  {
    if |keys1| < |keys2| {
      var x := keys2[|keys1|];
      if x in keys1 {
        var j :| 0 <= j < |keys1| && keys1[j] == x;
        assert Less(keys2[j], keys2[|keys1|]);
        LessIrreflexive(x);
      }
    }
  }

  datatype ScanReply = ScanReply(keys: seq<Bytes>, rows: seq<Option<Bytes>>)

  /** A call that reaches the network either gets through or fails with a transport error. */
  method Transport() returns (failure: Option<Error>)
    ensures failure.Some? ==> IsStoreError(failure.value)
  {
    var failed: bool := *;
    var timedOut: bool := *;
    failure := if !failed then None else if timedOut then Some(StoreTimeout) else Some(StoreUnavailable);
  }

  class RawKVClient {
    /** The store's contents. */
    var data: map<Bytes, Bytes>
    /** Every Put and Delete issued through this client, in order. */
    ghost var writes: seq<Write>

    constructor (initial: map<Bytes, Bytes>)
      ensures data == initial && writes == []
    {
      data := initial;
      writes := [];
    }

    method Get(key: Bytes) returns (r: Result<Option<Bytes>>)
      ensures r.Ok? ==> r.value == Lookup(data, key)
      ensures r.Err? ==> IsStoreError(r.error)
    {
      var failure := Transport();
      if failure.Some? {
        return Err(failure.value);
      }
      return Ok(Lookup(data, key));
    }

    method Put(key: Bytes, value: Bytes) returns (r: Outcome)
      modifies this
      ensures writes == old(writes) + [PutCall(key, value)]
      ensures PutEffect(old(data), data, key, value, r)
    {
      writes := writes + [PutCall(key, value)];
      var failure := Transport();
      var applied: bool := *;
      if failure.None? || applied {
        data := data[key := value];
      }
      r := if failure.Some? then Fail(failure.value) else Done;
    }

    method Delete(key: Bytes) returns (r: Outcome)
      modifies this
      ensures writes == old(writes) + [DeleteCall(key)]
      ensures DeleteEffect(old(data), data, key, r)
    {
      writes := writes + [DeleteCall(key)];
      var failure := Transport();
      var applied: bool := *;
      if failure.None? || applied {
        data := data - {key};
      }
      r := if failure.Some? then Fail(failure.value) else Done;
    }

    method Scan(start: Bytes, limit: int) returns (r: Result<ScanReply>)
      ensures r.Ok? ==> IsScanOf(data, start, limit, r.value.keys, r.value.rows)
      ensures r.Err? ==> IsStoreError(r.error)
    {
      var failure := Transport();
      if failure.Some? {
        return Err(failure.value);
      }
      var keys: seq<Bytes> := [];
      var rows: seq<Option<Bytes>> := [];
      var rest := set k | k in data.Keys && LessEq(start, k);
      while |keys| < limit && rest != {}
        invariant Scanning(data, start, rest, keys, rows)
        invariant |keys| <= (if limit < 0 then 0 else limit)
        decreases |rest|
      {
        var m := Least(rest);
        ScanStep(data, start, rest, keys, rows, m);
        keys := keys + [m];
        rows := rows + [Wire(data[m])];
        rest := rest - {m};
      }
      return Ok(ScanReply(keys, rows));
    }
  }
}
