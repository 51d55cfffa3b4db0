/** The integer code in numbers: what bytes a value is written as and what value bytes are read as. */
module CodeNumbers {
  import opened Bytes
  import opened BigEndian
  import opened Casts
  import opened Nonce
  import opened IntCode
  import opened IntTypes

  //////////////////////////////////////////////////////////////////////////////
  // Bits and numbers
  //////////////////////////////////////////////////////////////////////////////

  lemma {:induction false} LeadingZero(t: seq<byte>)
    ensures Number([0] + t) == Number(t)
  {
    var s := [0] + t;
    if t == [] {
      assert s[..0] == [];
    } else {
      assert s[..|t|] == [0] + t[..|t| - 1];
      LeadingZero(t[..|t| - 1]);
    }
  }

  lemma {:induction false} TailShifted(v: bv64)
    ensures Tail(v >> 8, 8) == [0] + Tail(v >> 8, 7)
  {
  }

  // The number is what is left of it without its low byte, times 256, and that byte.
  lemma {:induction false} UnsignedStep(v: bv64)
    ensures Unsigned(v) == 256 * Unsigned(v >> 8) + Low(v) as int
  {
    var t := Tail(v, 8);
    assert t[..7] == Tail(v >> 8, 7) && t[7] == Low(v);
    TailShifted(v);
    LeadingZero(Tail(v >> 8, 7));
  }

  lemma {:induction false} TailOfZero(n: nat)
    ensures Tail(0, n) == Zeros(n) && Number(Zeros(n)) == 0
  {
    if n > 0 {
      TailOfZero(n - 1);
      ZerosEnd(n);
    }
  }

  lemma {:induction false} UnsignedOfZero()
    ensures Unsigned(0) == 0
  {
    TailOfZero(8);
  }

  lemma {:induction false} UnsignedOfByte(b: byte)
    ensures Unsigned(b as bv64) == b as int
  {
    UnsignedStep(b as bv64);
    UnsignedOfZero();
    assert (b as bv64) >> 8 == 0 && Low(b as bv64) == b;
  }

  // The n low-order bytes are those of the number.
  lemma {:induction false} TailIsBytes(v: bv64, n: nat)
    ensures Tail(v, n) == BytesOf(Unsigned(v), n)
    decreases n
  {
    if n > 0 {
      UnsignedStep(v);
      TailIsBytes(v >> 8, n - 1);
      DivMod(Unsigned(v >> 8), Low(v));
    }
  }

  lemma {:induction false} ByteLess(b: byte, c: byte)
    ensures b < c <==> b as int < c as int
  {
  }

  lemma {:induction false} UnsignedIsZeroIff(v: bv64)
    ensures Unsigned(v) == 0 <==> v == 0
  {
    UnsignedOfZero();
    WidenOfUnsigned(v);
    WidenOfUnsigned(0);
  }

  lemma {:induction false} BelowIff(v: bv64, m: byte)
    ensures v < m as bv64 <==> Unsigned(v) < m as int
  {
    UnsignedStep(v);
    UnsignedIsZeroIff(v >> 8);
    ByteLess(Low(v), m);
    BelowByte(v, m);
  }

  lemma {:induction false} BelowByte(v: bv64, m: byte)
    ensures v < m as bv64 <==> v >> 8 == 0 && Low(v) < m
  {
  }

  lemma {:induction false} ShiftLess(v: bv64)
    ensures v < 0x4000 <==> v >> 8 < 0x40
    ensures v < 0x20_0000 <==> v >> 8 < 0x2000
    ensures v < 0x1000_0000 <==> v >> 8 < 0x10_0000
    ensures v < 0x1_0000_0000 <==> v >> 8 < 0x100_0000
    ensures v < 0x100_0000_0000_0000 <==> v >> 8 < 0x1_0000_0000_0000
  {
  }

  lemma {:induction false} ShiftLessMore(v: bv64)
    ensures v < 0x2000 <==> v >> 8 < 0x20
    ensures v < 0x1000 <==> v >> 8 < 0x10
    ensures v < 0x10_0000 <==> v >> 8 < 0x1000
    ensures v < 0x1_0000 <==> v >> 8 < 0x100
    ensures v < 0x100_0000 <==> v >> 8 < 0x1_0000
    ensures v < 0x1_0000_0000_0000 <==> v >> 8 < 0x100_0000_0000
    ensures v < 0x100_0000_0000 <==> v >> 8 < 0x1_0000_0000
    ensures v < 0x100 <==> v >> 8 == 0
  {
  }

  // A bound of v, given that of what is left of it without its low byte.
  lemma {:induction false} BelowTimes256(v: bv64, below: bool, m: nat)
    requires below <==> Unsigned(v >> 8) < m
    ensures below <==> Unsigned(v) < 256 * m
  {
    UnsignedStep(v);
  }

  lemma {:induction false} SmallBounds(v: bv64)
    ensures v < 0x80 <==> Unsigned(v) < 0x80
    ensures v < 0x40 <==> Unsigned(v) < 0x40
    ensures v < 0x20 <==> Unsigned(v) < 0x20
    ensures v < 0x10 <==> Unsigned(v) < 0x10
    ensures v == 0 <==> Unsigned(v) < 1
  {
    BelowIff(v, 0x80);
    BelowIff(v, 0x40);
    BelowIff(v, 0x20);
    BelowIff(v, 0x10);
    UnsignedIsZeroIff(v);
  }

  lemma {:induction false} TwoByteBounds(v: bv64)
    ensures v < 0x100 <==> Unsigned(v) < 0x100
    ensures v < 0x1000 <==> Unsigned(v) < 0x1000
    ensures v < 0x2000 <==> Unsigned(v) < 0x2000
    ensures v < 0x4000 <==> Unsigned(v) < 0x4000
  {
    ShiftLess(v);
    ShiftLessMore(v);
    SmallBounds(v >> 8);
    BelowTimes256(v, v < 0x100, 1);
    BelowTimes256(v, v < 0x1000, 0x10);
    BelowTimes256(v, v < 0x2000, 0x20);
    BelowTimes256(v, v < 0x4000, 0x40);
  }

  lemma {:induction false} ThreeByteBounds(v: bv64)
    ensures v < 0x1_0000 <==> Unsigned(v) < 0x1_0000
    ensures v < 0x10_0000 <==> Unsigned(v) < 0x10_0000
    ensures v < 0x20_0000 <==> Unsigned(v) < 0x20_0000
  {
    ShiftLess(v);
    ShiftLessMore(v);
    TwoByteBounds(v >> 8);
    BelowTimes256(v, v < 0x1_0000, 0x100);
    BelowTimes256(v, v < 0x10_0000, 0x1000);
    BelowTimes256(v, v < 0x20_0000, 0x2000);
  }

  lemma {:induction false} FourByteBounds(v: bv64)
    ensures v < 0x100_0000 <==> Unsigned(v) < 0x100_0000
    ensures v < 0x1000_0000 <==> Unsigned(v) < 0x1000_0000
  {
    ShiftLess(v);
    ShiftLessMore(v);
    ThreeByteBounds(v >> 8);
    BelowTimes256(v, v < 0x100_0000, 0x1_0000);
    BelowTimes256(v, v < 0x1000_0000, 0x10_0000);
  }

  lemma {:induction false} FiveByteBound(v: bv64)
    ensures v < 0x1_0000_0000 <==> Unsigned(v) < 0x1_0000_0000
  {
    ShiftLess(v);
    FourByteBounds(v >> 8);
    BelowTimes256(v, v < 0x1_0000_0000, 0x100_0000);
  }

  lemma {:induction false} SixByteBound(v: bv64)
    ensures v < 0x100_0000_0000 <==> Unsigned(v) < 0x100_0000_0000
  {
    ShiftLessMore(v);
    FiveByteBound(v >> 8);
    BelowTimes256(v, v < 0x100_0000_0000, 0x1_0000_0000);
  }

  lemma {:induction false} SevenByteBound(v: bv64)
    ensures v < 0x1_0000_0000_0000 <==> Unsigned(v) < 0x1_0000_0000_0000
  {
    ShiftLessMore(v);
    SixByteBound(v >> 8);
    BelowTimes256(v, v < 0x1_0000_0000_0000, 0x100_0000_0000);
  }

  lemma {:induction false} EightByteBound(v: bv64)
    ensures v < 0x100_0000_0000_0000 <==> Unsigned(v) < 0x100_0000_0000_0000
  {
    ShiftLess(v);
    SevenByteBound(v >> 8);
    BelowTimes256(v, v < 0x100_0000_0000_0000, 0x1_0000_0000_0000);
  }

  // The n low-order bytes of w are the complements of those of v.
  predicate Opposite(v: bv64, w: bv64, n: nat)
    decreases n
  {
    n > 0 ==> Low(w) == !Low(v) && Opposite(v >> 8, w >> 8, n - 1)
  }

  lemma {:induction false} ComplementIsOpposite(v: bv64)
    ensures Opposite(v, !v, 8)
  {
  }

  lemma {:induction false} NumberComplement(v: bv64, w: bv64, n: nat)
    requires Opposite(v, w, n)
    ensures Number(Tail(w, n)) == Pow256(n) - 1 - Number(Tail(v, n))
    decreases n
  {
    if n > 0 {
      NumberComplement(v >> 8, w >> 8, n - 1);
      ByteComplement(Low(v));
      NumberOfTail(v, n);
      NumberOfTail(w, n);
    }
  }

  lemma {:induction false} NumberOfTail(v: bv64, n: nat)
    requires n > 0
    ensures Number(Tail(v, n)) == 256 * Number(Tail(v >> 8, n - 1)) + Low(v) as int
  {
    var t := Tail(v, n);
    assert t[..n - 1] == Tail(v >> 8, n - 1) && t[n - 1] == Low(v);
  }

  lemma {:induction false} ByteComplement(b: byte)
    ensures (!b) as int == 255 - b as int
  {
  }

  lemma {:induction false} UnsignedComplement(v: bv64)
    ensures Unsigned(!v) == 0xFFFF_FFFF_FFFF_FFFF - Unsigned(v)
  {
    ComplementIsOpposite(v);
    NumberComplement(v, !v, 8);
    assert Pow256(4) == 0x1_0000_0000;
    assert Pow256(8) == 0x1_0000_0000_0000_0000;
  }

  //////////////////////////////////////////////////////////////////////////////
  // What is written
  //////////////////////////////////////////////////////////////////////////////

  // The bytes of a number: the first says how many follow, in its one to four highest bits or, for 32 and 64 bits, as a
  // whole; the rest is the number, most significant byte first.
  function PlainFormat(n: nat): seq<byte> {
    if n < 0x80 then BytesOf(n, 1)
    else if n < 0x4000 then BytesOf(0x8000 + n, 2)
    else if n < 0x20_0000 then BytesOf(0xC0_0000 + n, 3)
    else if n < 0x1000_0000 then BytesOf(0xE000_0000 + n, 4)
    else if n < 0x1_0000_0000 then [0xF0] + BytesOf(n, 4)
    else [0xF4] + BytesOf(n, 8)
  }

  // Of the numbers below 2^64 the last 2^32 stand for -2^32 to -1: the last four have a byte each, and others are
  // written as their complement behind 0xF8.
  function Format(n: nat): seq<byte>
    requires n < 0x1_0000_0000_0000_0000
  {
    var c := 0xFFFF_FFFF_FFFF_FFFF - n;
    if c < 4 then BytesOf(0xFC + c, 1)
    else if c < 0x1_0000_0000 then [0xF8] + PlainFormat(c)
    else PlainFormat(n)
  }

  lemma {:induction false} MarkedStep(m: int, x: int)
    ensures (256 * m + x) / 256 == m + x / 256 && (256 * m + x) % 256 == x % 256
  {
  }

  // A marker in front of the n low-order bytes of x: m is the marker times 256^n.
  lemma {:induction false} MarkedBytes(k: nat, m: nat, x: nat, n: nat)
    requires m == k * Pow256(n)
    ensures BytesOf(m + x, n + 1) == BytesOf(k + x / Pow256(n), 1) + BytesOf(x, n)
  {
    if n == 0 {
      assert BytesOf(x, 0) == [] && BytesOf(k + x, 1) + [] == BytesOf(k + x, 1);
    } else {
      var p := Pow256(n - 1);
      var l := k * p;
      assert m == 256 * l;
      MarkedStep(l, x);
      MarkedBytes(k, l, x / 256, n - 1);
      DivideTwice(x, p);
      Regroup(BytesOf(k + x / 256 / p, 1), BytesOf(x / 256, n - 1), [(x % 256) as byte]);
    }
  }

  lemma {:induction false} AddMark(b: byte, m: byte)
    requires (b < 0x40 && m == 0x80) || (b < 0x20 && m == 0xC0) || (b < 0x10 && m == 0xE0) || (b < 4 && m == 0xFC)
    ensures (b | m) as int == m as int + b as int
  {
  }

  // A marker in the high bits of a byte.
  lemma {:induction false} MarkByte(w: bv64, m: byte)
    requires (w < 0x40 && m == 0x80) || (w < 0x20 && m == 0xC0) || (w < 0x10 && m == 0xE0) || (w < 4 && m == 0xFC)
    ensures [Low(w | (m as bv64))] == BytesOf(m as int + Unsigned(w), 1)
  {
    var b := Low(w);
    LowOfMarked(w, m);
    UnsignedOfByte(b);
    AddMark(b, m);
    OneByte(b | m, 1);
  }

  lemma {:induction false} LowOfMarked(w: bv64, m: byte)
    requires w < 0x40
    ensures Low(w | (m as bv64)) == Low(w) | m && Low(w) as bv64 == w
  {
  }

  lemma {:induction false} Quotient1(v: bv64)
    ensures Unsigned(v >> 8) == Unsigned(v) / 0x100
  {
    UnsignedStep(v);
    LowByte(Low(v) as int, Unsigned(v >> 8));
  }

  lemma {:induction false} Quotient2(v: bv64)
    ensures Unsigned(v >> 16) == Unsigned(v) / 0x1_0000
  {
    Quotient1(v);
    Quotient1(v >> 8);
    assert v >> 8 >> 8 == v >> 16;
  }

  lemma {:induction false} Quotient3(v: bv64)
    ensures Unsigned(v >> 24) == Unsigned(v) / 0x100_0000
  {
    Quotient2(v);
    Quotient1(v >> 16);
    assert v >> 16 >> 8 == v >> 24;
  }

  lemma {:induction false} JoinForm(first: seq<byte>, tail: seq<byte>, k: nat, m: nat, x: nat, n: nat)
    requires 1 <= n <= 3 && m == k * (if n == 1 then 0x100 else if n == 2 then 0x1_0000 else 0x100_0000)
    requires first == BytesOf(k + x / (if n == 1 then 0x100 else if n == 2 then 0x1_0000 else 0x100_0000), 1)
    requires tail == BytesOf(x, n)
    ensures first + tail == BytesOf(m + x, n + 1)
  {
    assert Pow256(1) == 0x100 && Pow256(2) == 0x1_0000 && Pow256(3) == 0x100_0000;
    MarkedBytes(k, m, x, n);
  }

  lemma {:induction false} FirstOfTwo(v: bv64)
    requires v < 0x4000
    ensures [Low((v >> 8) | 0x80)] == BytesOf(0x80 + Unsigned(v) / 0x100, 1)
  {
    Quotient1(v);
    MarkByte(v >> 8, 0x80);
  }

  lemma {:induction false} FirstOfThree(v: bv64)
    requires v < 0x20_0000
    ensures [Low((v >> 16) | 0xC0)] == BytesOf(0xC0 + Unsigned(v) / 0x1_0000, 1)
  {
    Quotient2(v);
    MarkByte(v >> 16, 0xC0);
  }

  lemma {:induction false} FirstOfFour(v: bv64)
    requires v < 0x1000_0000
    ensures [Low((v >> 24) | 0xE0)] == BytesOf(0xE0 + Unsigned(v) / 0x100_0000, 1)
  {
    Quotient3(v);
    MarkByte(v >> 24, 0xE0);
  }

  lemma {:induction false} MarkedForm(first: seq<byte>, v: bv64, k: nat, m: nat, n: nat)
    requires 1 <= n <= 3 && m == k * (if n == 1 then 0x100 else if n == 2 then 0x1_0000 else 0x100_0000)
    requires first == BytesOf(k + Unsigned(v) / (if n == 1 then 0x100 else if n == 2 then 0x1_0000 else 0x100_0000), 1)
    ensures first + Tail(v, n) == BytesOf(m + Unsigned(v), n + 1)
  {
    TailIsBytes(v, n);
    JoinForm(first, Tail(v, n), k, m, Unsigned(v), n);
  }

  lemma {:induction false} PlainIs(v: bv64)
    ensures Plain(v) == PlainFormat(Unsigned(v))
  {
    Bounds(v);
    if v < 0x80 {
      TailIsBytes(v, 1);
      assert Tail(v, 1) == [] + [Low(v)];
    } else if v < 0x4000 {
      FirstOfTwo(v);
      MarkedForm([Low((v >> 8) | 0x80)], v, 0x80, 0x8000, 1);
    } else if v < 0x20_0000 {
      FirstOfThree(v);
      MarkedForm([Low((v >> 16) | 0xC0)], v, 0xC0, 0xC0_0000, 2);
    } else if v < 0x1000_0000 {
      FirstOfFour(v);
      MarkedForm([Low((v >> 24) | 0xE0)], v, 0xE0, 0xE000_0000, 3);
    } else if v < 0x1_0000_0000 {
      TailIsBytes(v, 4);
    } else {
      TailIsBytes(v, 8);
    }
  }

  // The bounds of the forms, in bits and in numbers.
  lemma {:induction false} Bounds(v: bv64)
    ensures v < 0x80 <==> Unsigned(v) < 0x80
    ensures v < 0x4000 <==> Unsigned(v) < 0x4000
    ensures v < 0x20_0000 <==> Unsigned(v) < 0x20_0000
    ensures v < 0x1000_0000 <==> Unsigned(v) < 0x1000_0000
    ensures v < 0x1_0000_0000 <==> Unsigned(v) < 0x1_0000_0000
  {
    SmallBounds(v);
    TwoByteBounds(v);
    ThreeByteBounds(v);
    FourByteBounds(v);
    FiveByteBound(v);
  }

  lemma {:induction false} BelowFour(v: bv64)
    ensures v <= 3 <==> Unsigned(v) < 4
  {
    BelowIff(v, 4);
  }

  lemma {:induction false} ShortNegativeIff(v: bv64)
    ensures ShortNegative(v) <==> !v < 0x1_0000_0000
  {
  }

  // Every value is written as the bytes of its number.
  lemma {:induction false} EncodeIs(v: bv64)
    ensures Unsigned(v) < 0x1_0000_0000_0000_0000 && Encode(v) == Format(Unsigned(v))
  {
    var w := !v;
    UnsignedComplement(v);
    Bounds(w);
    BelowFour(w);
    ShortNegativeIff(v);
    if w <= 3 {
      MarkByte(w, 0xFC);
    } else if ShortNegative(v) {
      PlainIs(w);
    } else {
      PlainIs(v);
    }
  }

  //////////////////////////////////////////////////////////////////////////////
  // What is read
  //////////////////////////////////////////////////////////////////////////////

  lemma {:induction false} NumberBelow(t: seq<byte>)
    ensures Number(t) < Pow256(|t|)
  {
    if t != [] {
      NumberBelow(t[..|t| - 1]);
    }
  }

  lemma {:induction false} UnsignedOfShifted(v: bv64, b: byte)
    requires Unsigned(v) < 0x100_0000_0000_0000
    ensures Unsigned((v << 8) | (b as bv64)) == 256 * Unsigned(v) + b as int
  {
    EightByteBound(v);
    ShiftOut(v, b);
    UnsignedStep((v << 8) | (b as bv64));
  }

  // The number whose low bytes are t and whose higher part is x.
  function Behind(x: nat, t: seq<byte>): nat {
    if t == [] then x else 256 * Behind(x, t[..|t| - 1]) + t[|t| - 1] as int
  }

  lemma {:induction false} Times256(x: nat, p: nat)
    ensures x * (256 * p) == 256 * (x * p)
  {
  }

  lemma {:induction false} BehindIs(x: nat, t: seq<byte>)
    ensures Behind(x, t) == x * Pow256(|t|) + Number(t)
  {
    if t != [] {
      BehindIs(x, t[..|t| - 1]);
      Times256(x, Pow256(|t| - 1));
    }
  }

  lemma {:induction false} CollectIs(u: bv64, t: seq<byte>)
    requires Behind(Unsigned(u), t) < 0x1_0000_0000_0000_0000
    ensures Unsigned(Collect(u, t)) == Behind(Unsigned(u), t)
  {
    if t != [] {
      var n := |t| - 1;
      var front := t[..n];
      CollectIs(u, front);
      CollectNext(u, front, t[n], Collect(u, front));
      assert t == front + [t[n]];
    }
  }

  lemma {:induction false} CollectNext(u: bv64, t: seq<byte>, b: byte, w: bv64)
    requires w == Collect(u, t) && Unsigned(w) < 0x100_0000_0000_0000
    ensures Unsigned(Collect(u, t + [b])) == 256 * Unsigned(w) + b as int
  {
    CollectLast(u, t, b, w);
    UnsignedOfShifted(w, b);
  }

  lemma {:induction false} HeadIs(b: byte)
    ensures Head(b as bv64) ==
            if b < 0x80 then Whole(b as bv64)
            else if b < 0xC0 then Partial((b - 0x80) as bv64, 1)
            else if b < 0xE0 then Partial((b - 0xC0) as bv64, 2)
            else if b < 0xF0 then Partial((b - 0xE0) as bv64, 3)
            else if b < 0xF4 then Partial(0, 4)
            else if b < 0xF8 then Partial(0, 8)
            else if b < 0xFC then Complement
            else Whole(!((b - 0xFC) as bv64))
  {
  }

  lemma {:induction false} PaddedIs(r: seq<byte>, n: nat)
    ensures Padded(r, n) == (r + Zeros(n))[..n]
  {
    if n > |r| {
      ZerosParts(n - |r|, |r|);
    }
  }

  // A value of which these are the high bits and the n bytes of r, zeros for those that are missing, the low ones.
  ghost predicate ReadsAs(d: Decoded, high: nat, r: seq<byte>, n: nat) {
    && Unsigned(d.value) == high * Pow256(n) + Number((r + Zeros(n))[..n])
    && d.rest == (if n <= |r| then r[n..] else []) && d.ok == (n <= |r|)
  }

  lemma {:induction false} ReadIs(u: bv64, r: seq<byte>, n: nat, bound: nat)
    requires Unsigned(u) < bound && bound * Pow256(n) <= 0x1_0000_0000_0000_0000
    ensures ReadsAs(Read(u, r, n), Unsigned(u), r, n)
  {
    var x, p, t := Unsigned(u), Pow256(n), Padded(r, n);
    PaddedIs(r, n);
    NumberBelow(t);
    BehindIs(x, t);
    ProductBelow(x, bound, p);
    CollectIs(u, t);
  }

  lemma {:induction false} ProductBelow(x: nat, bound: nat, p: nat)
    requires x < bound
    ensures x * p + p <= bound * p
  {
    assert bound * p == (x + 1) * p + (bound - x - 1) * p;
    assert (bound - x - 1) * p >= 0;
  }

  // The byte b - m, in numbers.
  lemma {:induction false} Unmarked(b: byte, m: byte)
    requires (0x80 <= b < 0xC0 && m == 0x80) || (0xC0 <= b < 0xE0 && m == 0xC0) || (0xE0 <= b < 0xF0 && m == 0xE0)
             || (0xFC <= b && m == 0xFC)
    ensures Unsigned((b - m) as bv64) == b as int - m as int
  {
    var c := b - m;
    assert c | m == b;
    assert (c < 0x40 && m == 0x80) || (c < 0x20 && m == 0xC0) || (c < 0x10 && m == 0xE0) || (c < 4 && m == 0xFC);
    AddMark(c, m);
    UnsignedOfByte(c);
  }

  lemma {:induction false} ByteBounds(b: byte)
    ensures b < 0x80 <==> b as int < 0x80
    ensures b < 0xC0 <==> b as int < 0xC0
    ensures b < 0xE0 <==> b as int < 0xE0
    ensures b < 0xF0 <==> b as int < 0xF0
    ensures b < 0xF4 <==> b as int < 0xF4
    ensures b < 0xF8 <==> b as int < 0xF8
    ensures b < 0xFC <==> b as int < 0xFC
  {
  }

  // In numbers, what any bytes read as: x is the first of them.
  ghost predicate IsRead(x: nat, r: seq<byte>, d: Decoded, e: Decoded) {
    if x < 0x80 then ReadsAs(d, x, r, 0)
    else if x < 0xC0 then ReadsAs(d, x - 0x80, r, 1)
    else if x < 0xE0 then ReadsAs(d, x - 0xC0, r, 2)
    else if x < 0xF0 then ReadsAs(d, x - 0xE0, r, 3)
    else if x < 0xF4 then ReadsAs(d, 0, r, 4)
    else if x < 0xF8 then ReadsAs(d, 0, r, 8)
    else if x < 0xFC then NegatedBy(d, e)
    else x < 0x100 && Unsigned(d.value) == 0xFFFF_FFFF_FFFF_FFFF - (x - 0xFC) && d.rest == r && d.ok
  }

  lemma {:induction false} DecodeIs(b: byte, r: seq<byte>)
    ensures IsRead(b as int, r, Decode([b] + r), Decode(r))
  {
    DecodeHead(b, r);
    IsReadBy(b, r, Head(b as bv64));
  }

  lemma {:induction false} IsReadBy(b: byte, r: seq<byte>, f: Form)
    requires f == Head(b as bv64)
    ensures IsRead(b as int, r, DecodeAfter(f, r), Decode(r))
  {
    ByteBounds(b);
    if b < 0x80 {
      WholeReads(b, r, f);
    } else if b < 0xC0 {
      MarkedReads(b, 0x80, 0x80, r, 1, 0x40, f);
    } else if b < 0xE0 {
      MarkedReads(b, 0xC0, 0xC0, r, 2, 0x20, f);
    } else if b < 0xF0 {
      MarkedReads(b, 0xE0, 0xE0, r, 3, 0x10, f);
    } else if b < 0xF8 {
      LongReads(b, r, f);
    } else if b < 0xFC {
      NegatedReads(b, r, f);
    } else {
      TinyReads(b, r, f);
    }
  }

  lemma {:induction false} WholeReads(b: byte, r: seq<byte>, f: Form)
    requires b < 0x80 && f == Head(b as bv64)
    ensures ReadsAs(DecodeAfter(f, r), b as int, r, 0)
  {
    HeadIs(b);
    UnsignedOfByte(b);
    assert (r + Zeros(0))[..0] == [] && r[0..] == r;
  }

  lemma {:induction false} MarkedReads(b: byte, m: byte, x: nat, r: seq<byte>, n: nat, bound: nat, f: Form)
    requires (0x80 <= b < 0xC0 && m == 0x80 && n == 1 && bound == 0x40)
             || (0xC0 <= b < 0xE0 && m == 0xC0 && n == 2 && bound == 0x20)
             || (0xE0 <= b < 0xF0 && m == 0xE0 && n == 3 && bound == 0x10)
    requires x == m as int && f == Head(b as bv64)
    ensures x <= b as int && ReadsAs(DecodeAfter(f, r), b as int - x, r, n)
  {
    HeadIs(b);
    Unmarked(b, m);
    SmallBounds((b - m) as bv64);
    PartialReads((b - m) as bv64, r, n, bound, f);
  }

  lemma {:induction false} LongReads(b: byte, r: seq<byte>, f: Form)
    requires 0xF0 <= b < 0xF8 && f == Head(b as bv64)
    ensures ReadsAs(DecodeAfter(f, r), 0, r, if b < 0xF4 then 4 else 8)
  {
    HeadIs(b);
    UnsignedOfZero();
    PartialReads(0, r, if b < 0xF4 then 4 else 8, 1, f);
  }

  lemma {:induction false} NegatedReads(b: byte, r: seq<byte>, f: Form)
    requires 0xF8 <= b < 0xFC && f == Head(b as bv64)
    ensures NegatedBy(DecodeAfter(f, r), Decode(r))
  {
    HeadIs(b);
    NegatedIs(Decode(r));
  }

  ghost predicate NegatedBy(d: Decoded, e: Decoded) {
    Unsigned(d.value) == 0xFFFF_FFFF_FFFF_FFFF - Unsigned(e.value) && d.rest == e.rest && d.ok == e.ok
  }

  lemma {:induction false} NegatedIs(e: Decoded)
    ensures NegatedBy(Negated(e), e)
  {
    UnsignedComplement(e.value);
  }

  lemma {:induction false} TinyReads(b: byte, r: seq<byte>, f: Form)
    requires 0xFC <= b && f == Head(b as bv64)
    ensures var d := DecodeAfter(f, r);
            Unsigned(d.value) == 0xFFFF_FFFF_FFFF_FFFF - (b as int - 0xFC) && d.rest == r && d.ok
  {
    HeadIs(b);
    Unmarked(b, 0xFC);
    UnsignedComplement((b - 0xFC) as bv64);
  }

  lemma {:induction false} PartialReads(u: bv64, r: seq<byte>, n: nat, bound: nat, f: Form)
    requires Unsigned(u) < bound && f == Partial(u, n)
    requires (n == 1 && bound == 0x40) || (n == 2 && bound == 0x20) || (n == 3 && bound == 0x10)
             || ((n == 4 || n == 8) && bound == 1)
    ensures ReadsAs(DecodeAfter(f, r), Unsigned(u), r, n)
  {
    assert Pow256(1) == 0x100 && Pow256(2) == 0x1_0000 && Pow256(3) == 0x100_0000 && Pow256(4) == 0x1_0000_0000;
    assert Pow256(8) == 0x1_0000_0000_0000_0000;
    ReadIs(u, r, n, bound);
  }
}
