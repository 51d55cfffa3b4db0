/** Unsigned integers as bytes, most significant first. */
module BigEndian {
  import opened Bytes
  import opened Casts
  import opened Nonce

  // The n low-order bytes of x.
  function BytesOf(x: int, n: nat): (t: seq<byte>)
    ensures |t| == n
    decreases n, x
  {
    if n == 0 then [] else BytesOf(x / 256, n - 1) + [(x % 256) as byte]
  }

  function Number(t: seq<byte>): nat {
    if t == [] then 0 else 256 * Number(t[..|t| - 1]) + t[|t| - 1] as int
  }

  lemma {:induction false} NumberLast(t: seq<byte>, x: int)
    ensures Number(t + [(x % 256) as byte]) == 256 * Number(t) + x % 256
  {
    assert (t + [(x % 256) as byte])[..|t|] == t;
    CastRoundTrip(x % 256);
  }

  // Reading back what was written gives the integer modulo 256^n.
  lemma {:induction false} NumberOfBytes(x: int, n: nat)
    ensures Number(BytesOf(x, n)) == x % Pow256(n)
    decreases n
  {
    if n > 0 {
      NumberOfBytes(x / 256, n - 1);
      NumberLast(BytesOf(x / 256, n - 1), x);
      SplitModulus(x, Pow256(n - 1));
    }
  }

  // Each byte is worth 256 times the one after it.
  lemma {:induction false} BytesOfAt(x: int, n: nat, i: nat)
    requires i < n
    ensures BytesOf(x, n)[i] as int == (x / Pow256(n - 1 - i)) % 256
    decreases n
  {
    if i < n - 1 {
      BytesOfAt(x / 256, n - 1, i);
      DivideTwice(x, Pow256(n - 2 - i));
    } else {
      CastRoundTrip(x % 256);
    }
  }

  lemma {:induction false} ZeroBytes(n: nat)
    ensures BytesOf(0, n) == Zeros(n)
  {
    if n > 0 {
      ZeroBytes(n - 1);
      ZerosEnd(n);
    }
  }

  lemma {:induction false} ZerosEnd(n: nat)
    requires n > 0
    ensures Zeros(n) == Zeros(n - 1) + [0]
  {
    if n > 1 {
      ZerosEnd(n - 1);
    }
  }

  lemma {:induction false} OneByte(b: byte, n: nat)
    requires n > 0
    ensures BytesOf(b as int, n) == Zeros(n - 1) + [b]
  {
    ZeroBytes(n - 1);
    DivMod(0, b);
  }

  lemma {:induction false} DivMod(h: nat, b: byte)
    ensures (256 * h + b as int) / 256 == h && ((256 * h + b as int) % 256) as byte == b
  {
    LowByte(b as int, h);
  }

  lemma {:induction false} BytesOfNumber(t: seq<byte>)
    ensures BytesOf(Number(t), |t|) == t
  {
    if t != [] {
      var n := |t| - 1;
      BytesOfNumber(t[..n]);
      DivMod(Number(t[..n]), t[n]);
      assert t == t[..n] + [t[n]];
    }
  }
}
