/** The order the store keeps its keys in: Go's `bytes.Compare`. */
module ByteOrder {
  import opened Common

  /** `bytes.Compare(a, b) < 0`: unsigned bytes compared left to right, a proper prefix first. */
  predicate Less(a: Bytes, b: Bytes)
    decreases |a|
  {
    |b| > 0 && (|a| == 0 || a[0] < b[0] || (a[0] == b[0] && Less(a[1..], b[1..])))
  }

  predicate LessEq(a: Bytes, b: Bytes) {
    a == b || Less(a, b)
  }

  lemma {:induction false} LessIrreflexive(a: Bytes)
    ensures !Less(a, a)
  {
    if |a| > 0 {
      LessIrreflexive(a[1..]);
    }
  }

  lemma {:induction false} LessTransitive(a: Bytes, b: Bytes, c: Bytes)
    requires Less(a, b) && Less(b, c)
    ensures Less(a, c)
  {
    if |a| > 0 && a[0] == b[0] && b[0] == c[0] {
      LessTransitive(a[1..], b[1..], c[1..]);
    }
  }

  lemma {:induction false} LessTotal(a: Bytes, b: Bytes)
    ensures a == b || Less(a, b) || Less(b, a)
  {
    if |a| > 0 && |b| > 0 && a[0] == b[0] {
      LessTotal(a[1..], b[1..]);
      if a[1..] == b[1..] {
        assert a == [a[0]] + a[1..] && b == [b[0]] + b[1..];
      }
    }
  }

  /** The least key of a non-empty finite set of keys. */
  method Least(s: set<Bytes>) returns (m: Bytes)
    requires s != {}
    ensures m in s
    ensures forall k :: k in s ==> LessEq(m, k)
  {
    m :| m in s;
    var rest := s - {m};
    while rest != {}
      invariant rest <= s && m in s && m !in rest
      invariant forall k :: k in s && k !in rest ==> LessEq(m, k)
      decreases |rest|
    {
      var k :| k in rest;
      LessTotal(k, m);
      if Less(k, m) {
        forall j | j in s && j !in rest
          ensures LessEq(k, j)
        {
          if Less(m, j) {
            LessTransitive(k, m, j);
          }
        }
        m := k;
      }
      rest := rest - {k};
    }
  }
}
