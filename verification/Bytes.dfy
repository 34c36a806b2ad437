/** Byte strings under the lexicographic order of Python's `bytes`. */
module Bytes {
  import opened Results

  type byte = b: int | 0 <= b < 256

  /** The length of the longest common prefix. */
  function Lcp(a: seq<byte>, b: seq<byte>): (n: nat)
    ensures n <= |a| && n <= |b|
    ensures a[..n] == b[..n]
    ensures n < |a| && n < |b| ==> a[n] != b[n]
  {
    if a == [] || b == [] || a[0] != b[0] then 0
    else
      var n := Lcp(a[1..], b[1..]);
      assert a[..n + 1] == [a[0]] + a[1..][..n] == [b[0]] + b[1..][..n] == b[..n + 1];
      n + 1
  }

  /** The strict order: the first difference decides, and a proper prefix comes first. */
  predicate Less(a: seq<byte>, b: seq<byte>) {
    var n := Lcp(a, b);
    n < |b| && (n == |a| || a[n] < b[n])
  }

  predicate LessEq(a: seq<byte>, b: seq<byte>) {
    a == b || Less(a, b)
  }

  /** Agreement on `k` bytes is exactly a common prefix of at least `k`. */
  lemma LcpAtLeast(a: seq<byte>, b: seq<byte>, k: nat)
    ensures k <= Lcp(a, b) <==> k <= |a| && k <= |b| && a[..k] == b[..k]
  {
    var n := Lcp(a, b);
    if k <= n {
      assert a[..k] == a[..n][..k];
    } else if k <= |a| && k <= |b| {
      assert a[..k][n] != b[..k][n];
    }
  }

  /** Characterises the common prefix by where the agreement stops. */
  lemma LcpIs(a: seq<byte>, b: seq<byte>, n: nat)
    requires n <= |a| && n <= |b| && a[..n] == b[..n]
    requires n == |a| || n == |b| || a[n] != b[n]
    ensures Lcp(a, b) == n
  {
    LcpAtLeast(a, b, n);
    LcpAtLeast(a, b, n + 1);
    if n < |a| && n < |b| {
      assert a[..n + 1][n] == a[n] && b[..n + 1][n] == b[n];
    }
  }

  lemma LcpCommutes(a: seq<byte>, b: seq<byte>)
    ensures Lcp(a, b) == Lcp(b, a)
  {
    LcpIs(b, a, Lcp(a, b));
  }

  /** Cutting both strings at `k` cuts the common prefix at `k`. */
  lemma LcpTruncated(a: seq<byte>, b: seq<byte>, k: nat)
    ensures Lcp(a[..Min(k, |a|)], b[..Min(k, |b|)]) == Min(k, Lcp(a, b))
  {
    var n := Min(k, Lcp(a, b));
    assert a[..Min(k, |a|)][..n] == a[..Lcp(a, b)][..n] == b[..Min(k, |b|)][..n];
    LcpIs(a[..Min(k, |a|)], b[..Min(k, |b|)], n);
  }

  /** The order is total, and strict. */
  lemma LessTotal(a: seq<byte>, b: seq<byte>)
    ensures a == b || Less(a, b) || Less(b, a)
    ensures !(Less(a, b) && Less(b, a))
    ensures Less(a, b) ==> a != b
  {
    LcpCommutes(a, b);
    var n := Lcp(a, b);
    if n == |a| == |b| {
      assert a == a[..n] == b[..n] == b;
    }
  }

  /**
   * The common prefix of the two ends of an ordered triple is the shorter of the
   * common prefixes on the way: nothing between two strings is further from either.
   */
  lemma LcpBetween(a: seq<byte>, b: seq<byte>, c: seq<byte>)
    requires LessEq(a, b) && LessEq(b, c)
    ensures LessEq(a, c)
    ensures Lcp(a, c) == Min(Lcp(a, b), Lcp(b, c))
  {
    if a == b || b == c {
      LcpIs(a, a, |a|);
      LcpIs(c, c, |c|);
    } else {
      var m, n := Lcp(a, b), Lcp(b, c);
      var k := Min(m, n);
      assert a[..k] == a[..m][..k] == b[..m][..k] == b[..n][..k] == c[..n][..k];
      assert b[..k] == b[..m][..k];
      if k < |a| && k < |b| {
        assert k < m ==> a[..m][k] == b[..m][k];
      }
      if k < |b| && k < |c| {
        assert k < n ==> b[..n][k] == c[..n][k];
      }
      LcpIs(a, c, k);
    }
  }

  lemma LessTransitive(a: seq<byte>, b: seq<byte>, c: seq<byte>)
    requires (Less(a, b) && LessEq(b, c)) || (LessEq(a, b) && Less(b, c))
    ensures Less(a, c)
  {
    LcpBetween(a, b, c);
    LessTotal(a, b);
    LessTotal(b, c);
    LessTotal(a, c);
  }
}
