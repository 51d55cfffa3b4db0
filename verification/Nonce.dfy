/** The 128-bit little-endian nonce counter and the carry and borrow over its bytes. */
module Nonce {
  import opened Bytes
  import opened Casts

  const MODULUS: int := 0x1_0000_0000_0000_0000_0000_0000_0000_0000

  // The n low-order bytes of the two's complement representation of c, least significant first.
  function LeBytes(c: int, n: nat): (s: seq<uint8>)
    ensures |s| == n
    decreases n, c
  {
    if n == 0 then [] else [c % 256] + LeBytes(c / 256, n - 1)
  }

  function Pow256(n: nat): (p: int)
    ensures p > 0
  {
    if n == 0 then 1 else 256 * Pow256(n - 1)
  }

  // The counter that some bytes represent.
  function Value(s: seq<uint8>): int {
    if s == [] then 0 else s[0] + 256 * Value(s[1..])
  }

  lemma {:induction false} BytesOfValue(s: seq<uint8>)
    ensures LeBytes(Value(s), |s|) == s
  {
    if s != [] {
      var v := Value(s[1..]);
      LowByte(s[0], v);
      BytesOfValue(s[1..]);
      assert s == [s[0]] + s[1..];
    }
  }

  lemma {:induction false} LowByte(b: uint8, v: int)
    ensures (b + 256 * v) % 256 == b && (b + 256 * v) / 256 == v
  {
  }

  lemma {:induction false} FirstBytes(c: int)
    ensures LeBytes(c, 16)[0] == c % 256 && LeBytes(c, 16)[1] == (c / 256) % 256
  {
  }

  lemma {:induction false} FirstAndRest(c: int, d: int, n: nat)
    requires n > 0 && d == c / 256
    ensures LeBytes(c, n) == [c % 256] + LeBytes(d, n - 1) && LeBytes(c, n)[1..] == LeBytes(d, n - 1)
  {
  }

  // A nonce as the cipher sees it.
  function AsBlock(s: seq<uint8>): Block
    requires |s| == 16
  {
    seq(16, i requires 0 <= i < 16 => s[i] as byte)
  }

  function NonceBlock(c: int): Block {
    AsBlock(LeBytes(c, 16))
  }

  // Its i-th byte is worth 256^i.
  lemma {:induction false} NonceByteIs(c: int, i: nat)
    requires i < 16
    ensures NonceBlock(c)[i] as int == (c / Pow256(i)) % 256
  {
    LeByteIs(c, 16, i);
    CastRoundTrip(LeBytes(c, 16)[i]);
  }

  lemma {:induction false} LeByteIs(c: int, n: nat, i: nat)
    requires i < n
    ensures LeBytes(c, n)[i] == (c / Pow256(i)) % 256
    decreases n
  {
    if i > 0 {
      assert LeBytes(c, n)[1..] == LeBytes(c / 256, n - 1);
      LeByteIs(c / 256, n - 1, i - 1);
      DivideTwice(c, Pow256(i - 1));
    }
  }

  // Add one, propagating the carry while bytes wrap to 0.
  function Inc(s: seq<uint8>): (r: seq<uint8>)
    ensures |r| == |s|
  {
    if s == [] then [] else if s[0] == 255 then [0] + Inc(s[1..]) else [s[0] + 1] + s[1..]
  }

  // Subtract one, propagating the borrow while bytes were 0.
  function Dec(s: seq<uint8>): (r: seq<uint8>)
    ensures |r| == |s|
  {
    if s == [] then [] else if s[0] == 0 then [255] + Dec(s[1..]) else [s[0] - 1] + s[1..]
  }

  // One step of the carry, and of the borrow, at position i, which leaves t.
  lemma {:induction false} IncAt(s: seq<uint8>, i: nat, t: seq<uint8>)
    requires i < |s| && t == if s[i] == 255 then s[i := 0] else s[i := s[i] + 1]
    ensures s[..i] + Inc(s[i..]) == if s[i] == 255 then t[..i + 1] + Inc(t[i + 1..]) else t
  {
  }

  lemma {:induction false} DecAt(s: seq<uint8>, i: nat, t: seq<uint8>)
    requires i < |s| && t == if s[i] == 0 then s[i := 255] else s[i := s[i] - 1]
    ensures s[..i] + Dec(s[i..]) == if s[i] == 0 then t[..i + 1] + Dec(t[i + 1..]) else t
  {
  }

  lemma {:induction false} IncIsSuccessor(c: int, n: nat)
    ensures Inc(LeBytes(c, n)) == LeBytes(c + 1, n)
    decreases n
  {
    if n > 0 {
      assert LeBytes(c, n)[1..] == LeBytes(c / 256, n - 1);
      if c % 256 == 255 {
        IncIsSuccessor(c / 256, n - 1);
      }
    }
  }

  lemma {:induction false} DecIsPredecessor(c: int, n: nat)
    ensures Dec(LeBytes(c, n)) == LeBytes(c - 1, n)
    decreases n
  {
    if n > 0 {
      assert LeBytes(c, n)[1..] == LeBytes(c / 256, n - 1);
      if c % 256 == 0 {
        DecIsPredecessor(c / 256, n - 1);
      }
    }
  }

  // (c / 256) % p and (c % 256) together determine c % (256 * p), and conversely.
  lemma {:induction false} SplitModulus(c: int, p: int)
    requires p > 0
    ensures c % (256 * p) == 256 * ((c / 256) % p) + c % 256
  {
    var h, l := c / 256, c % 256;
    var q, r := h / p, h % p;
    assert c == (256 * p) * q + (256 * r + l) by {
      assert h == p * q + r;
      assert 256 * (p * q) == (256 * p) * q;
    }
    assert 0 <= 256 * r + l < 256 * p;
    RemainderIsUnique(c, 256 * p, q, 256 * r + l);
  }

  lemma {:induction false} RemainderIsUnique(c: int, m: int, q: int, r: int)
    requires 0 <= r < m && c == m * q + r
    ensures c % m == r
  {
    var d := c / m - q;
    assert m * d == r - c % m;
    MultipleIsFar(m, d);
  }

  lemma {:induction false} DivideTwice(x: int, p: int)
    requires p > 0
    ensures x / 256 / p == x / (256 * p)
  {
    SplitModulus(x, p);
    var m := 256 * p;
    assert x == m * (x / m) + x % m;
    assert x == 256 * (x / 256) + x % 256;
    assert x / 256 == p * (x / 256 / p) + x / 256 % p;
    assert m * (x / m) == m * (x / 256 / p) by {
      assert 256 * (p * (x / 256 / p)) == m * (x / 256 / p);
    }
    SameQuotient(m, x / m, x / 256 / p);
  }

  lemma {:induction false} SameQuotient(m: int, a: int, b: int)
    requires m > 0 && m * a == m * b
    ensures a == b
  {
    MultipleIsFar(m, a - b);
    assert m * (a - b) == 0;
  }

  lemma {:induction false} MultipleIsFar(m: int, d: int)
    requires m > 0
    ensures d >= 1 ==> m * d >= m
    ensures d <= -1 ==> m * d <= -m
  {
  }

  // Two counters have the same n-byte representation exactly when they agree modulo 256^n.
  lemma {:induction false} SameBytesIff(c: int, d: int, n: nat)
    ensures LeBytes(c, n) == LeBytes(d, n) <==> c % Pow256(n) == d % Pow256(n)
    decreases n
  {
    if n > 0 {
      var s, t := LeBytes(c, n), LeBytes(d, n);
      assert s[1..] == LeBytes(c / 256, n - 1) && t[1..] == LeBytes(d / 256, n - 1);
      assert s == t <==> s[0] == t[0] && s[1..] == t[1..] by {
        assert s == [s[0]] + s[1..] && t == [t[0]] + t[1..];
      }
      SameBytesIff(c / 256, d / 256, n - 1);
      SplitModulus(c, Pow256(n - 1));
      SplitModulus(d, Pow256(n - 1));
    }
  }

  lemma {:induction false} NearIsNotCongruent(c: int, d: int, m: int)
    requires c != d && -m < c - d < m
    ensures c % m != d % m
  {
    if c % m == d % m {
      var q := c / m - d / m;
      assert m * q == c - d;
      MultipleIsFar(m, q);
    }
  }

  lemma {:induction false} SixteenBytes()
    ensures Pow256(16) == MODULUS
  {
    assert Pow256(4) == 0x1_0000_0000;
    assert Pow256(8) == 0x1_0000_0000_0000_0000;
    assert Pow256(12) == 0x1_0000_0000_0000_0000_0000_0000;
  }

  // The blocks handed to the cipher repeat exactly when the counters agree modulo 2^128.
  lemma {:induction false} SameNonceIff(c: int, d: int)
    ensures NonceBlock(c) == NonceBlock(d) <==> c % MODULUS == d % MODULUS
  {
    SixteenBytes();
    SameBytesIff(c, d, 16);
    if NonceBlock(c) == NonceBlock(d) {
      var s, t := LeBytes(c, 16), LeBytes(d, 16);
      forall i | 0 <= i < 16 ensures s[i] == t[i] {
        assert NonceBlock(c)[i] == NonceBlock(d)[i];
        CastRoundTrip(s[i]);
        CastRoundTrip(t[i]);
      }
    }
  }
}
