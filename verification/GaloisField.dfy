/**
 Multiplication by x and by x + 1 in GF(2^128) = GF(2)[x] / (x^128 + x^7 + x^2 + x + 1). A block is a polynomial
 of degree below 128 whose coefficients run from the most significant bit of byte 0 down to the least significant
 bit of byte 15.
 */
module GaloisField {
  import opened Bytes

  // One byte of the block shifted left by one bit: its lowest bit comes from the next byte.
  function ShiftLeft(a: byte, next: byte): byte {
    (a << 1) | (next >> 7)
  }

  // The last byte, with the bit shifted out of the first folded back in.
  function Fold(a: byte, top: byte): byte {
    (a << 1) ^ (if top >> 7 == 1 then 0x87 else 0)
  }

  // A run of bytes shifted left by one bit, given the byte after it.
  function Shift(s: seq<byte>, next: byte): (r: seq<byte>)
    ensures |r| == |s|
  {
    if s == [] then [] else [ShiftLeft(s[0], if |s| > 1 then s[1] else next)] + Shift(s[1..], next)
  }

  // The same for the end of a block whose first byte is top.
  function ShiftAndFold(s: seq<byte>, top: byte): (r: seq<byte>)
    ensures |r| == |s|
  {
    if s == [] then []
    else if |s| == 1 then [Fold(s[0], top)]
    else [ShiftLeft(s[0], s[1])] + ShiftAndFold(s[1..], top)
  }

  // What s2 computes.
  function Double(a: Block): Block {
    ShiftAndFold(a, a[0])
  }

  // What s3 computes.
  function Triple(a: Block): Block {
    Xor(a, Double(a))
  }

  lemma {:induction false} ShiftAt(s: seq<byte>, next: byte, i: nat)
    requires i < |s|
    ensures Shift(s, next)[i] == ShiftLeft(s[i], if i + 1 < |s| then s[i + 1] else next)
  {
    if i > 0 {
      ShiftAt(s[1..], next, i - 1);
    }
  }

  lemma {:induction false} ShiftAndFoldAt(s: seq<byte>, top: byte, i: nat)
    requires i < |s|
    ensures ShiftAndFold(s, top)[i] == if i + 1 < |s| then ShiftLeft(s[i], s[i + 1]) else Fold(s[i], top)
  {
    if i > 0 {
      ShiftAndFoldAt(s[1..], top, i - 1);
    }
  }

  lemma {:induction false} DoubleAt(a: Block, i: nat)
    requires i < 16
    ensures Double(a)[i] == if i < 15 then ShiftLeft(a[i], a[i + 1]) else Fold(a[15], a[0])
  {
    ShiftAndFoldAt(a, a[0], i);
  }

  // The doubled block in two parts, as the word loops of s2 and s3 produce it.
  lemma {:induction false} DoubleSlice(a: Block, i: nat, j: nat)
    requires i <= j < 16
    ensures Double(a)[i..j] == Shift(a[i..j], a[j])
  {
    forall k | 0 <= k < j - i ensures Double(a)[i..j][k] == Shift(a[i..j], a[j])[k] {
      DoubleAt(a, i + k);
      ShiftAt(a[i..j], a[j], k);
    }
  }

  lemma {:induction false} TripleSlice(a: Block, i: nat, j: nat)
    requires i <= j < 16
    ensures Triple(a)[i..j] == Xor(a[i..j], Shift(a[i..j], a[j]))
  {
    DoubleSlice(a, i, j);
    XorSlice(a, Double(a), i, j);
  }

  lemma {:induction false} DoubleEnd(a: Block, i: nat)
    requires i < 16
    ensures Double(a)[i..16] == ShiftAndFold(a[i..16], a[0])
  {
    forall k | 0 <= k < 16 - i ensures Double(a)[i..16][k] == ShiftAndFold(a[i..16], a[0])[k] {
      DoubleAt(a, i + k);
      ShiftAndFoldAt(a[i..16], a[0], k);
    }
  }

  function ShiftRight(previous: byte, a: byte): byte {
    ((previous & 1) << 7) | (a >> 1)
  }

  // The folded-in 0x87 is odd, so the lowest bit of a doubled block tells what was shifted out.
  function Unfold(a: byte): byte {
    if a & 1 == 1 then a ^ 0x87 else a
  }

  function Half(b: Block): Block {
    seq(16, i requires 0 <= i < 16 =>
      if i == 0 then ShiftRight(b[15], b[0])
      else if i < 15 then ShiftRight(b[i - 1], b[i])
      else ShiftRight(b[14], Unfold(b[15])))
  }

  //////////////////////////////////////////////////////////////////////////////
  // Polynomials over GF(2), as the sets of their exponents
  //////////////////////////////////////////////////////////////////////////////

  predicate Bit(b: byte, j: nat)
    requires j < 8
  {
    match j
    case 0 => b & 0x01 != 0
    case 1 => b & 0x02 != 0
    case 2 => b & 0x04 != 0
    case 3 => b & 0x08 != 0
    case 4 => b & 0x10 != 0
    case 5 => b & 0x20 != 0
    case 6 => b & 0x40 != 0
    case 7 => b & 0x80 != 0
  }

  predicate Coefficient(a: Block, k: nat)
    requires k < 128
  {
    Bit(a[15 - k / 8], k % 8)
  }

  ghost function Poly(a: Block): set<nat> {
    set k: nat | 0 <= k < 128 && Coefficient(a, k)
  }

  ghost function Plus(p: set<nat>, q: set<nat>): set<nat> {
    (p - q) + (q - p)
  }

  ghost function TimesX(p: set<nat>): set<nat> {
    set k | k in p :: k + 1
  }

  // x^128 + x^7 + x^2 + x + 1
  ghost const MODULUS: set<nat> := {128, 7, 2, 1, 0}

  // The remainder of a polynomial of degree at most 128.
  ghost function Reduce(p: set<nat>): set<nat> {
    if 128 in p then Plus(p, MODULUS) else p
  }

  lemma {:induction false} ShiftedByte(a: byte, next: byte, j: nat)
    requires j < 8
    ensures Bit(ShiftLeft(a, next), j) == if j == 0 then Bit(next, 7) else Bit(a, j - 1)
  {
  }

  lemma {:induction false} FoldedByte(a: byte, top: byte, j: nat)
    requires j < 8
    ensures Bit(Fold(a, top), j) ==
            ((j > 0 && Bit(a, j - 1)) != (Bit(top, 7) && j in {0, 1, 2, 7}))
  {
  }

  // Coefficient k of the doubled block.
  lemma {:induction false} DoubleCoefficient(a: Block, k: nat)
    requires k < 128
    ensures Coefficient(Double(a), k) ==
            ((k > 0 && Coefficient(a, k - 1)) != (Coefficient(a, 127) && k in {0, 1, 2, 7}))
  {
    var i, j := 15 - k / 8, k % 8;
    DoubleAt(a, i);
    if i < 15 {
      ShiftedByte(a[i], a[i + 1], j);
      if j == 0 {
        assert (k - 1) / 8 == k / 8 - 1 && (k - 1) % 8 == 7;
      } else {
        assert (k - 1) / 8 == k / 8 && (k - 1) % 8 == j - 1;
      }
    } else {
      FoldedByte(a[15], a[0], j);
    }
  }

  // Doubling is multiplication by x.
  lemma {:induction false} DoubleIsTimesX(a: Block)
    ensures Poly(Double(a)) == Reduce(TimesX(Poly(a)))
  {
    forall k: nat
      ensures k in Poly(Double(a)) <==> k in Reduce(TimesX(Poly(a)))
    {
      assert k in TimesX(Poly(a)) <==> k > 0 && k - 1 in Poly(a);
      assert 128 in TimesX(Poly(a)) <==> 127 in Poly(a);
      if k < 128 {
        DoubleCoefficient(a, k);
      }
    }
  }

  lemma {:induction false} XorIsPlus(a: Block, b: Block)
    ensures Poly(Xor(a, b)) == Plus(Poly(a), Poly(b))
  {
    forall k: nat | k < 128
      ensures Coefficient(Xor(a, b), k) == (Coefficient(a, k) != Coefficient(b, k))
    {
      XorCoefficient(a, b, k);
    }
  }

  lemma {:induction false} XorCoefficient(a: Block, b: Block, k: nat)
    requires k < 128
    ensures Coefficient(Xor(a, b), k) == (Coefficient(a, k) != Coefficient(b, k))
  {
    XorAt(a, b, 15 - k / 8);
    XorBit(a[15 - k / 8], b[15 - k / 8], Xor(a, b)[15 - k / 8], k % 8);
  }

  lemma {:induction false} XorBit(a: byte, b: byte, c: byte, j: nat)
    requires j < 8 && c == a ^ b
    ensures Bit(c, j) == (Bit(a, j) != Bit(b, j))
  {
    match j
    case 0 =>
    case 1 =>
    case 2 =>
    case 3 =>
    case 4 =>
    case 5 =>
    case 6 =>
    case 7 =>
  }

  // Tripling is multiplication by x + 1.
  lemma {:induction false} TripleIsTimesXPlus1(a: Block)
    ensures Poly(Triple(a)) == Reduce(Plus(TimesX(Poly(a)), Poly(a)))
  {
    XorIsPlus(a, Double(a));
    DoubleIsTimesX(a);
    assert 128 !in Poly(a);
  }

  //////////////////////////////////////////////////////////////////////////////
  // Linearity and inverse
  //////////////////////////////////////////////////////////////////////////////

  lemma {:induction false} DoubleIsLinear(a: Block, b: Block)
    ensures Double(Xor(a, b)) == Xor(Double(a), Double(b))
  {
    forall i | 0 <= i < 16 ensures Double(Xor(a, b))[i] == Xor(Double(a), Double(b))[i] {
      DoubleOfXorAt(a, b, i);
      XorAt(Double(a), Double(b), i);
    }
  }

  lemma {:induction false} DoubleOfXorAt(a: Block, b: Block, i: nat)
    requires i < 16
    ensures Double(Xor(a, b))[i] == Double(a)[i] ^ Double(b)[i]
  {
    DoubleAt(a, i);
    DoubleAt(b, i);
    DoubleAt(Xor(a, b), i);
    XorAt(a, b, i);
    if i < 15 {
      XorAt(a, b, i + 1);
      ShiftIsLinear(a[i], a[i + 1], b[i], b[i + 1]);
    } else {
      XorAt(a, b, 0);
      FoldIsLinear(a[15], a[0], b[15], b[0]);
    }
  }

  lemma {:induction false} ShiftIsLinear(a: byte, a': byte, b: byte, b': byte)
    ensures ShiftLeft(a ^ b, a' ^ b') == ShiftLeft(a, a') ^ ShiftLeft(b, b')
  {
  }

  lemma {:induction false} FoldIsLinear(a: byte, a': byte, b: byte, b': byte)
    ensures Fold(a ^ b, a' ^ b') == Fold(a, a') ^ Fold(b, b')
  {
  }

  lemma {:induction false} TripleIsLinear(a: Block, b: Block)
    ensures Triple(Xor(a, b)) == Xor(Triple(a), Triple(b))
  {
    DoubleIsLinear(a, b);
    XorExchange(a, b, Double(a), Double(b));
  }

  lemma {:induction false} HalfDouble(a: Block)
    ensures Half(Double(a)) == a
  {
    forall i | 0 <= i < 16 ensures Half(Double(a))[i] == a[i] {
      HalfDoubleAt(a, i);
    }
  }

  lemma {:induction false} HalfDoubleAt(a: Block, i: nat)
    requires i < 16
    ensures Half(Double(a))[i] == a[i]
  {
    DoubleAt(a, i);
    if i == 0 {
      DoubleAt(a, 15);
      FirstByte(a[15], a[0], a[1]);
    } else {
      DoubleAt(a, i - 1);
      if i < 15 {
        MiddleByte(a[i - 1], a[i], a[i + 1]);
      } else {
        LastByte(a[14], a[15], a[0]);
      }
    }
  }

  lemma {:induction false} FirstByte(last: byte, top: byte, next: byte)
    ensures ShiftRight(Fold(last, top), ShiftLeft(top, next)) == top
  {
  }

  lemma {:induction false} MiddleByte(a: byte, b: byte, c: byte)
    ensures ShiftRight(ShiftLeft(a, b), ShiftLeft(b, c)) == b
  {
  }

  lemma {:induction false} LastByte(previous: byte, last: byte, top: byte)
    ensures ShiftRight(ShiftLeft(previous, last), Unfold(Fold(last, top))) == last
  {
  }

  lemma {:induction false} DoubleHalf(b: Block)
    ensures Double(Half(b)) == b
  {
    forall i | 0 <= i < 16 ensures Double(Half(b))[i] == b[i] {
      DoubleAt(Half(b), i);
      if i < 14 {
        BackByte(if i == 0 then b[15] else b[i - 1], b[i], b[i + 1]);
      } else if i == 14 {
        BackByte14(b[13], b[14], b[15]);
      } else {
        BackByte15(b[14], b[15], b[0]);
      }
    }
  }

  lemma {:induction false} BackByte(previous: byte, b: byte, next: byte)
    ensures ShiftLeft(ShiftRight(previous, b), ShiftRight(b, next)) == b
  {
  }

  lemma {:induction false} BackByte14(previous: byte, b: byte, next: byte)
    ensures ShiftLeft(ShiftRight(previous, b), ShiftRight(b, Unfold(next))) == b
  {
  }

  lemma {:induction false} BackByte15(previous: byte, last: byte, top: byte)
    ensures Fold(ShiftRight(previous, Unfold(last)), ShiftRight(last, top)) == last
  {
  }

  // Distinct offsets stay distinct when doubled.
  lemma {:induction false} DoubleIsInjective(a: Block, b: Block)
    requires a != b
    ensures Double(a) != Double(b)
  {
    HalfDouble(a);
    HalfDouble(b);
  }

  lemma {:induction false} XorItself(a: Block)
    ensures Xor(a, a) == Zeros(16)
  {
    XorZeros(16, a);
    XorCommutes(a, Zeros(16));
    XorCancels(a, Zeros(16));
  }

  lemma {:induction false} DoubleOfZeros()
    ensures Double(Zeros(16)) == Zeros(16)
  {
    var z: Block := Zeros(16);
    DoubleIsLinear(z, z);
    XorItself(z);
    XorItself(Double(z));
  }
}
