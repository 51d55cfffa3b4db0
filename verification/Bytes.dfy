module Casts {
  // Bytes survive the casts between std::byte and uint8_t.
  lemma {:induction false} CastRoundTrip(x: int)
    requires 0 <= x < 256
    ensures (x as bv8) as int == x
  {
  }

  lemma {:induction false} AddEight(b: bv8)
    requires b as int <= 247
    ensures (b + 8) as int == b as int + 8
  {
  }
}

/** Bytes, 16-byte blocks, the exclusive-or of byte strings and writes into a buffer. */
module Bytes {
  // std::byte
  type byte = bv8

  // uint8_t, whose wrap-around the code that uses it writes out
  type uint8 = x: int | 0 <= x < 256

  // One cipher block: blockSize, keySize and nonceSize are all 128 / 8.
  type Block = b: seq<byte> | |b| == 16 witness seq(16, _ => 0)

  datatype Option<+T> = None | Some(value: T)

  function Zeros(n: nat): (z: seq<byte>)
    ensures |z| == n
  {
    if n == 0 then [] else [0] + Zeros(n - 1)
  }

  lemma {:induction false} ZerosAre(n: nat)
    ensures forall i :: 0 <= i < n ==> Zeros(n)[i] == 0
  {
    if n > 0 {
      ZerosAre(n - 1);
    }
  }

  lemma {:induction false} Regroup(a: seq<byte>, b: seq<byte>, c: seq<byte>)
    ensures (a + b) + c == a + (b + c)
  {
  }

  //////////////////////////////////////////////////////////////////////////////
  // Exclusive or
  //////////////////////////////////////////////////////////////////////////////

  function Xor(a: seq<byte>, b: seq<byte>): (r: seq<byte>)
    requires |a| == |b|
    ensures |r| == |a|
  {
    if a == [] then [] else [a[0] ^ b[0]] + Xor(a[1..], b[1..])
  }

  lemma {:induction false} XorAt(a: seq<byte>, b: seq<byte>, i: nat)
    requires i < |a| == |b|
    ensures Xor(a, b)[i] == a[i] ^ b[i]
  {
    if i > 0 {
      XorAt(a[1..], b[1..], i - 1);
    }
  }

  lemma {:induction false} XorCancels(a: seq<byte>, b: seq<byte>)
    requires |a| == |b|
    ensures Xor(a, Xor(a, b)) == b
  {
    forall i | 0 <= i < |a| ensures Xor(a, Xor(a, b))[i] == b[i] {
      XorAt(a, b, i);
      XorAt(a, Xor(a, b), i);
    }
  }

  lemma {:induction false} XorCommutes(a: seq<byte>, b: seq<byte>)
    requires |a| == |b|
    ensures Xor(a, b) == Xor(b, a)
  {
    forall i | 0 <= i < |a| ensures Xor(a, b)[i] == Xor(b, a)[i] {
      XorAt(a, b, i);
      XorAt(b, a, i);
    }
  }

  lemma {:induction false} XorExchange(a: seq<byte>, b: seq<byte>, c: seq<byte>, d: seq<byte>)
    requires |a| == |b| == |c| == |d|
    ensures Xor(Xor(a, b), Xor(c, d)) == Xor(Xor(a, c), Xor(b, d))
  {
    forall i | 0 <= i < |a| ensures Xor(Xor(a, b), Xor(c, d))[i] == Xor(Xor(a, c), Xor(b, d))[i] {
      XorAt(Xor(a, b), Xor(c, d), i);
      XorAt(a, b, i);
      XorAt(c, d, i);
      XorAt(Xor(a, c), Xor(b, d), i);
      XorAt(a, c, i);
      XorAt(b, d, i);
    }
  }

  lemma {:induction false} XorConcat(a: seq<byte>, b: seq<byte>, c: seq<byte>, d: seq<byte>)
    requires |a| == |c| && |b| == |d|
    ensures Xor(a + b, c + d) == Xor(a, c) + Xor(b, d)
  {
    if a == [] {
      assert a + b == b && c + d == d;
    } else {
      var p, q, x := a + b, c + d, [a[0] ^ c[0]];
      XorConcat(a[1..], b, c[1..], d);
      assert p[1..] == a[1..] + b && q[1..] == c[1..] + d;
      Regroup(x, Xor(a[1..], c[1..]), Xor(b, d));
    }
  }

  lemma {:induction false} XorZeros(n: nat, b: seq<byte>)
    requires |b| == n
    ensures Xor(Zeros(n), b) == b
  {
    if n > 0 {
      XorZeros(n - 1, b[1..]);
    }
  }

  lemma {:induction false} XorSlice(a: seq<byte>, b: seq<byte>, i: nat, j: nat)
    requires i <= j <= |a| == |b|
    ensures Xor(a, b)[i..j] == Xor(a[i..j], b[i..j])
  {
    forall k | 0 <= k < j - i ensures Xor(a, b)[i..j][k] == Xor(a[i..j], b[i..j])[k] {
      XorAt(a, b, i + k);
      XorAt(a[i..j], b[i..j], k);
    }
  }

  //////////////////////////////////////////////////////////////////////////////
  // Writing into a buffer
  //////////////////////////////////////////////////////////////////////////////

  lemma {:induction false} SliceOfSlice(s: seq<byte>, p: nat, n: nat, i: nat, m: nat)
    requires p + n <= |s| && i + m <= n
    ensures s[p..p + n][i..i + m] == s[p + i..p + i + m]
  {
    var t, u := s[p..p + n], s[p + i..p + i + m];
    var v := t[i..i + m];
    forall k | 0 <= k < m ensures v[k] == u[k] {
      assert v[k] == t[i + k];
    }
  }

  lemma {:induction false} HeadOfSlice(s: seq<byte>, p: nat, n: nat, m: nat)
    requires p + n <= |s| && m <= n
    ensures s[p..p + n][..m] == s[p..p + m]
  {
    SliceOfSlice(s, p, n, 0, m);
    assert s[p..p + n][0..m] == s[p..p + n][..m];
  }

  // The buffer s after the bytes t are written from position d on.
  function Splice(s: seq<byte>, d: nat, t: seq<byte>): (r: seq<byte>)
    requires d + |t| <= |s|
    ensures |r| == |s|
    decreases |t|
  {
    if t == [] then s else Splice(s[d := t[0]], d + 1, t[1..])
  }

  lemma {:induction false} SpliceIs(s: seq<byte>, d: nat, t: seq<byte>)
    requires d + |t| <= |s|
    ensures Splice(s, d, t) == s[..d] + t + s[d + |t|..]
    decreases |t|
  {
    if t != [] {
      SpliceIs(s[d := t[0]], d + 1, t[1..]);
    }
  }

  // Extending a partial write of r by its next part.
  lemma {:induction false} SpliceNext(s: seq<byte>, d: nat, r: seq<byte>, i: nat, j: nat)
    requires i <= j <= |r| && d + |r| <= |s|
    ensures Splice(Splice(s, d, r[..i]), d + i, r[i..j]) == Splice(s, d, r[..j])
  {
    SpliceIs(s, d, r[..i]);
    SpliceIs(Splice(s, d, r[..i]), d + i, r[i..j]);
    SpliceIs(s, d, r[..j]);
  }

  lemma {:induction false} SpliceNothing(s: seq<byte>, d: nat, r: seq<byte>)
    requires d <= |s|
    ensures Splice(s, d, r[..0]) == s
  {
  }

  lemma {:induction false} SpliceRest(s: seq<byte>, d: nat, r: seq<byte>, i: nat)
    requires i <= |r| && d + |r| <= |s|
    ensures Splice(Splice(s, d, r[..i]), d + i, r[i..]) == Splice(s, d, r)
  {
    SpliceIs(s, d, r[..i]);
    SpliceIs(Splice(s, d, r[..i]), d + i, r[i..]);
    SpliceIs(s, d, r);
  }

  lemma {:induction false} SpliceAt(s: seq<byte>, d: nat, b: byte)
    requires d < |s|
    ensures Splice(s, d, [b]) == s[d := b]
  {
  }

  lemma {:induction false} SpliceOne(s: seq<byte>, d: nat, r: seq<byte>, i: nat)
    requires i < |r| && d + |r| <= |s|
    ensures Splice(s, d, r[..i + 1]) == Splice(s, d, r[..i])[d + i := r[i]]
  {
    SpliceIs(s, d, r[..i]);
    SpliceIs(s, d, r[..i + 1]);
  }

  // A write up to the end of the buffer.
  lemma {:induction false} SpliceToEnd(s: seq<byte>, d: nat, t: seq<byte>)
    requires d + |t| == |s|
    ensures Splice(s, d, t) == s[..d] + t
  {
    SpliceIs(s, d, t);
  }

  lemma {:induction false} SpliceKeeps(s: seq<byte>, d: nat, t: seq<byte>, i: nat, j: nat)
    requires d + |t| <= i <= j <= |s|
    ensures Splice(s, d, t)[i..j] == s[i..j]
  {
    SpliceIs(s, d, t);
  }

  // A 16-byte operand x at p of which the part from k on is still as it was, though r was written over it up to k.
  lemma {:induction false} OperandKept(was: seq<byte>, now: seq<byte>, p: nat, x: Block, r: Block, k: nat, n: nat,
                                       same: bool)
    requires p + 16 <= |was| && x == was[p..p + 16] && k + n <= 16
    requires now == if same then Splice(was, p, r[..k]) else was
    ensures |now| == |was| && now[p + k..p + k + n] == x[k..k + n]
  {
    if same {
      SpliceKeeps(was, p, r[..k], p + k, p + k + n);
    }
    SliceOfSlice(was, p, 16, k, n);
  }

  // std::span<std::byte>
  datatype Span = Span(buf: array<byte>, at: nat, len: nat) {
    ghost predicate Valid() {
      at + len <= buf.Length
    }

    function Bytes(): seq<byte>
      requires Valid()
      reads buf
    {
      buf[at..at + len]
    }

    function Drop(n: nat): Span
      requires n <= len
    {
      Span(buf, at + n, len - n)
    }
  }

  // std::copy into a buffer
  method Copy(dst: array<byte>, at: nat, s: seq<byte>)
    requires at + |s| <= dst.Length
    modifies dst
    ensures dst[..] == Splice(old(dst[..]), at, s)
    ensures at == 0 && |s| == dst.Length ==> dst[..] == s
  {
    ghost var b := dst[..];
    for i := 0 to |s|
      invariant dst[..] == Splice(b, at, s[..i])
    {
      SpliceOne(b, at, s, i);
      dst[at + i] := s[i];
    }
    assert s[..|s|] == s;
    if at == 0 && |s| == dst.Length {
      SpliceIs(b, at, s);
    }
  }
}
