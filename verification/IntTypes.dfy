/** The integer types of C++ with at most 64 bits, as sets of integers, and the casts between them and uint64_t. */
module IntTypes {
  import opened Bytes
  import opened BigEndian
  import opened Nonce
  import opened IntCode

  //////////////////////////////////////////////////////////////////////////////
  // The bits of an unsigned integer are those of its bytes
  //////////////////////////////////////////////////////////////////////////////

  lemma {:induction false} SevenBytes(t: seq<byte>)
    requires |t| <= 7
    ensures Collect(0, t) < 0x100_0000_0000_0000
  {
    var n := |t|;
    assert t[..n] == t;
    if n >= 1 { OneByteMore(0, t, 1, 0x1); }
    if n >= 2 { OneByteMore(0, t, 2, 0x100); }
    if n >= 3 { OneByteMore(0, t, 3, 0x1_0000); }
    if n >= 4 { OneByteMore(0, t, 4, 0x100_0000); }
    if n >= 5 { OneByteMore(0, t, 5, 0x1_0000_0000); }
    if n >= 6 { OneByteMore(0, t, 6, 0x100_0000_0000); }
    if n >= 7 { OneByteMore(0, t, 7, 0x1_0000_0000_0000); }
  }

  lemma {:induction false} ShiftOut(v: bv64, b: byte)
    requires v < 0x100_0000_0000_0000
    ensures ((v << 8) | (b as bv64)) >> 8 == v && Low((v << 8) | (b as bv64)) == b
  {
  }

  lemma {:induction false} TailOfCollect(t: seq<byte>)
    requires |t| <= 8
    ensures Tail(Collect(0, t), |t|) == t
  {
    if t != [] {
      var n := |t| - 1;
      SevenBytes(t[..n]);
      TailOfCollect(t[..n]);
      TailOfNext(Collect(0, t[..n]), n, t[n]);
      CollectLast(0, t[..n], t[n], Collect(0, t[..n]));
      assert t == t[..n] + [t[n]];
    }
  }

  lemma {:induction false} TailOfNext(v: bv64, n: nat, b: byte)
    requires v < 0x100_0000_0000_0000
    ensures Tail((v << 8) | (b as bv64), n + 1) == Tail(v, n) + [b]
  {
    ShiftOut(v, b);
  }

  // static_cast<uint64_t>(x): x modulo 2^64.
  function Widen(x: int): bv64 {
    Collect(0, BytesOf(x, 8))
  }

  function Unsigned(v: bv64): nat {
    Number(Tail(v, 8))
  }

  lemma {:induction false} UnsignedOfWiden(x: int)
    ensures Unsigned(Widen(x)) == x % 0x1_0000_0000_0000_0000
  {
    TailOfCollect(BytesOf(x, 8));
    NumberOfBytes(x, 8);
    assert Pow256(4) == 0x1_0000_0000;
    assert Pow256(8) == 0x1_0000_0000_0000_0000;
  }

  lemma {:induction false} WidenOfUnsigned(v: bv64)
    ensures Widen(Unsigned(v)) == v
  {
    BytesOfNumber(Tail(v, 8));
    CollectOfTail(0, v, 8);
    JoinNine(v);
  }

  //////////////////////////////////////////////////////////////////////////////
  // The narrower types
  //////////////////////////////////////////////////////////////////////////////

  datatype IntType = Int8 | Int16 | Int32 | UInt8 | UInt16 | UInt32

  // How many values a type has and the least of them.
  function Values(t: IntType): int {
    match t
    case Int8 => 0x100
    case UInt8 => 0x100
    case Int16 => 0x1_0000
    case UInt16 => 0x1_0000
    case Int32 => 0x1_0000_0000
    case UInt32 => 0x1_0000_0000
  }

  function Least(t: IntType): int {
    match t
    case Int8 => -0x80
    case Int16 => -0x8000
    case Int32 => -0x8000_0000
    case _ => 0
  }

  predicate Has(t: IntType, x: int) {
    Least(t) <= x < Least(t) + Values(t)
  }

  // The value of a type congruent to x modulo its number of values.
  function StaticCast(t: IntType, x: int): (y: int)
    ensures Has(t, y)
  {
    (x - Least(t)) % Values(t) + Least(t)
  }

  // A static_cast to a narrower type.
  function Narrow(t: IntType, v: bv64): int {
    StaticCast(t, Unsigned(v))
  }

  lemma {:induction false} Congruent(x: int, l: int, c: int, k: int)
    requires c > 0 && k > 0
    ensures c * k > 0 && (x % (c * k) - l) % c == (x - l) % c
  {
    var m, y := c * k, x - l;
    var p, q := x / m, y / c;
    assert m * p == c * (k * p);
    assert c * (q - k * p) == c * q - c * (k * p);
    RemainderIsUnique(x % m - l, c, q - k * p, y % c);
  }

  lemma {:induction false} StaticCastTwice(t: IntType, x: int)
    ensures StaticCast(t, x % 0x1_0000_0000_0000_0000) == StaticCast(t, x)
  {
    var c := Values(t);
    Congruent(x, Least(t), c, 0x1_0000_0000_0000_0000 / c);
    assert c * (0x1_0000_0000_0000_0000 / c) == 0x1_0000_0000_0000_0000;
  }

  lemma {:induction false} NarrowOfWiden(t: IntType, x: int)
    ensures Narrow(t, Widen(x)) == StaticCast(t, x)
  {
    UnsignedOfWiden(x);
    StaticCastTwice(t, x);
  }

  lemma {:induction false} StaticCastIs(t: IntType, x: int)
    ensures Has(t, x) <==> StaticCast(t, x) == x
  {
  }

  // A value written as uint64_t and read as some type comes back exactly when the type has it.
  lemma {:induction false} TypeRoundTrip(t: IntType, x: int)
    ensures Has(t, x) <==> Narrow(t, Widen(x)) == x
  {
    NarrowOfWiden(t, x);
    StaticCastIs(t, x);
  }

  lemma {:induction false} LengthCast(n: nat)
    ensures StaticCast(UInt32, n) == n % 0x1_0000_0000
    ensures StaticCast(UInt32, n % 0x1_0000_0000) == n % 0x1_0000_0000
  {
  }

  // A length cast to uint32_t, directly or by way of uint64_t.
  lemma {:induction false} NarrowLength(n: nat, m: nat)
    requires m == n % 0x1_0000_0000
    ensures Narrow(UInt32, Widen(n)) == Narrow(UInt32, Widen(m)) == m
  {
    LengthCast(n);
    NarrowOfWiden(UInt32, n);
    NarrowOfWiden(UInt32, m);
  }

  // How many bits the values of a type have.
  function Bits(t: IntType): nat {
    match t
    case Int8 => 8
    case UInt8 => 8
    case Int16 => 16
    case UInt16 => 16
    case Int32 => 32
    case UInt32 => 32
  }

  function Power2(n: nat): (p: nat)
    ensures p > 0
  {
    if n == 0 then 1 else 2 * Power2(n - 1)
  }

  predicate Signed(t: IntType) {
    t.Int8? || t.Int16? || t.Int32?
  }

  lemma {:induction false} Powers()
    ensures Power2(7) == 0x80 && Power2(8) == 0x100 && Power2(15) == 0x8000 && Power2(16) == 0x1_0000
    ensures Power2(31) == 0x8000_0000 && Power2(32) == 0x1_0000_0000
  {
    assert Power2(7) == 0x80;
    assert Power2(15) == 0x8000;
    assert Power2(23) == 0x80_0000;
    assert Power2(31) == 0x8000_0000;
  }

  // A type of n bits has the integers from 0 to 2^n, exclusively, or from -2^(n-1) to 2^(n-1) if it is signed.
  lemma {:induction false} HasIff(t: IntType, x: int)
    ensures var n := Bits(t);
            Has(t, x) <==> if Signed(t) then 0 - Power2(n - 1) <= x < Power2(n - 1) else 0 <= x < Power2(n)
  {
    Powers();
  }

  // A cast to it gives the value it has that is congruent modulo 2^n.
  lemma {:induction false} NarrowIff(t: IntType, v: bv64, x: int)
    ensures Narrow(t, v) == x <==> Has(t, x) && (Unsigned(v) - x) % Power2(Bits(t)) == 0
  {
    Powers();
    var y, u := Narrow(t, v), Unsigned(v);
    SameClassIff(u, Least(t), Values(t), x);
  }

  lemma {:induction false} SameClassIff(u: int, l: int, m: int, x: int)
    requires m > 0
    ensures (u - l) % m + l == x <==> l <= x < l + m && (u - x) % m == 0
  {
    var q, r := (u - l) / m, (u - l) % m;
    assert u - l == m * q + r;
    if l <= x < l + m && (u - x) % m == 0 {
      var k := (u - x) / m;
      assert u - x == m * k;
      RemainderIsUnique(u - l, m, k, x - l);
    }
    if r + l == x {
      RemainderIsUnique(u - x, m, q, 0);
    }
  }
}
