/** Fixed-width integers as bytes, in both byte orders, and the order in which a byte
    sorted database keeps its keys. */
module Encoding {
  import opened Types

  function Pow256(n: nat): (p: nat)
    ensures p > 0
  {
    if n == 0 then 1 else 256 * Pow256(n - 1)
  }

  lemma Pow256Of8()
    ensures Pow256(8) == TWO_TO_THE_64
  {
    assert Pow256(4) == 0x1_0000_0000;
  }

  // -------------------------------------------------------------- little endian

  function EncodeLE(n: nat, len: nat): (b: Bytes)
    ensures |b| == len
  {
    if len == 0 then [] else [(n % 256) as byte] + EncodeLE(n / 256, len - 1)
  }

  function DecodeLE(b: Bytes): (n: nat)
  {
    if b == [] then 0 else b[0] as int + 256 * DecodeLE(b[1..])
  }

  lemma {:induction false} LERoundTrip(n: nat, len: nat)
    requires n < Pow256(len)
    ensures DecodeLE(EncodeLE(n, len)) == n
    decreases len
  {
    if len > 0 {
      LERoundTrip(n / 256, len - 1);
      assert EncodeLE(n, len)[1..] == EncodeLE(n / 256, len - 1);
    }
  }

  lemma {:induction false} DecodeBound(b: Bytes)
    ensures DecodeLE(b) < Pow256(|b|)
    decreases |b|
  {
    if b != [] {
      DecodeBound(b[1..]);
    }
  }

  function Encode64(n: uint64): (b: Bytes)
    ensures |b| == 8 && Decode64(b) == n
  {
    Pow256Of8();
    LERoundTrip(n, 8);
    assert EncodeLE(n, 8)[..8] == EncodeLE(n, 8);
    EncodeLE(n, 8)
  }

  function Decode64(b: Bytes): (n: uint64)
    requires |b| >= 8
  {
    Pow256Of8();
    DecodeBound(b[..8]);
    DecodeLE(b[..8])
  }

  // ----------------------------------------------------------------- big endian

  function EncodeBE(n: nat, len: nat): (b: Bytes)
    requires n < Pow256(len)
    ensures |b| == len
  {
    if len == 0 then []
    else
      var p := Pow256(len - 1);
      DivMod(n, p);
      [(n / p) as byte] + EncodeBE(n % p, len - 1)
  }

  lemma DivMod(n: nat, p: nat)
    requires 0 < p && n < 256 * p
    ensures 0 <= n / p < 256 && n % p < p && n == p * (n / p) + n % p
  {
    var q, r := n / p, n % p;
    assert n == p * q + r;
    assert q >= 256 ==> p * q >= p * 256;
  }

  lemma DivUnique(n: nat, p: nat, q: nat, r: nat)
    requires 0 < p && r < p && n == p * q + r
    ensures n / p == q && n % p == r
  {
    var q' := n / p;
    var r' := n - p * q';
    assert 0 <= r' < p by {
      assert r' == n % p;
    }
    SmallMultiple(p, q - q');
  }

  lemma SmallMultiple(p: int, d: int)
    requires 0 < p && -p < p * d < p
    ensures d == 0
  {
    assert d >= 1 ==> p * d >= p * 1;
    assert d <= -1 ==> p * d <= p * -1;
  }

  /** bytes.Compare(a, b) < 0. */
  predicate Less(a: Bytes, b: Bytes) {
    b != [] && (a == [] || a[0] < b[0] || (a[0] == b[0] && Less(a[1..], b[1..])))
  }

  lemma {:induction false} LessTotal(a: Bytes, b: Bytes)
    ensures a == b || Less(a, b) || Less(b, a)
    ensures Less(a, b) ==> !Less(b, a) && a != b
    decreases |a|
  {
    if a != [] && b != [] && a[0] == b[0] {
      LessTotal(a[1..], b[1..]);
      assert a == [a[0]] + a[1..] && b == [b[0]] + b[1..];
    }
  }

  lemma {:induction false} LessTransitive(a: Bytes, b: Bytes, c: Bytes)
    requires Less(a, b) && Less(b, c)
    ensures Less(a, c)
    decreases |a|
  {
    if a != [] && a[0] == b[0] && b[0] == c[0] {
      LessTransitive(a[1..], b[1..], c[1..]);
    }
  }

  /** Two-part keys with first parts of one length sort by the first part, then by the
      second. */
  lemma {:induction false} LessConcat(a: Bytes, a': Bytes, b: Bytes, b': Bytes)
    requires |a| == |b|
    ensures Less(a + a', b + b') <==> Less(a, b) || (a == b && Less(a', b'))
    decreases |a|
  {
    if a == [] {
      assert a + a' == a' && b + b' == b';
    } else {
      assert (a + a')[1..] == a[1..] + a' && (b + b')[1..] == b[1..] + b';
      LessConcat(a[1..], a', b[1..], b');
      assert a == [a[0]] + a[1..] && b == [b[0]] + b[1..];
    }
  }

  /** Big-endian numbers of one width sort as numbers. */
  lemma {:induction false} BEOrder(m: nat, n: nat, len: nat)
    requires m < Pow256(len) && n < Pow256(len)
    ensures Less(EncodeBE(m, len), EncodeBE(n, len)) <==> m < n
    ensures EncodeBE(m, len) == EncodeBE(n, len) <==> m == n
    decreases len
  {
    if len > 0 {
      var p := Pow256(len - 1);
      DivMod(m, p);
      DivMod(n, p);
      QuotientOrder(m, n, p);
      QuotientOrder(n, m, p);
      BEOrder(m % p, n % p, len - 1);
    }
  }

  lemma QuotientOrder(m: nat, n: nat, p: nat)
    requires 0 < p
    ensures m / p < n / p ==> m < n
    ensures m / p == n / p ==> (m < n <==> m % p < n % p)
  {
    assert m == p * (m / p) + m % p && n == p * (n / p) + n % p;
    if m / p < n / p {
      assert p * (n / p) >= p * (m / p + 1);
    }
  }
}
