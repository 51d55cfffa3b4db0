/**
 The word arithmetic of CryptOCB2 where a SubBlock is a uint32_t (subBlocks = 4, shiftBits = 31), on a
 little-endian host. A KeyBlock is its 16 bytes of memory; a word of it is loaded and stored least significant
 byte first, and Endian::swap reverses it.
 */
module KeyBlock32 {
  import opened Bytes
  import opened GaloisField

  // Byte j of a word in memory order.
  function ByteAt(w: bv32, j: nat): byte
    requires j < 4
  {
    match j
    case 0 => (w & 0xFF) as byte
    case 1 => ((w >> 8) & 0xFF) as byte
    case 2 => ((w >> 16) & 0xFF) as byte
    case 3 => ((w >> 24) & 0xFF) as byte
  }

  function BytesIn(w: bv32): (b: seq<byte>)
    ensures |b| == 4
  {
    seq(4, j requires 0 <= j < 4 => ByteAt(w, j))
  }

  // The word stored in 4 bytes.
  function Word(b: seq<byte>): bv32
    requires |b| == 4
  {
    (b[0] as bv32) | (b[1] as bv32 << 8) | (b[2] as bv32 << 16) | (b[3] as bv32 << 24)
  }

  // Endian::swap
  function Swap(w: bv32): bv32 {
    ((w & 0xFF) << 24) | (((w >> 8) & 0xFF) << 16) | (((w >> 16) & 0xFF) << 8) | ((w >> 24) & 0xFF)
  }

  // A word of s2, and its last word.
  function Shifted(w: bv32, next: bv32): bv32 {
    Swap((Swap(w) << 1) | (Swap(next) >> 31))
  }

  function Folded(w: bv32, carry: bv32): bv32 {
    Swap((Swap(w) << 1) ^ (carry * 0x87))
  }

  lemma {:induction false} WordBytes(b: seq<byte>)
    requires |b| == 4
    ensures BytesIn(Word(b)) == b
  {
  }

  lemma {:induction false} XorBytes(v: bv32, w: bv32, r: bv32)
    requires r == v ^ w
    ensures BytesIn(r) == Xor(BytesIn(v), BytesIn(w))
  {
    forall j | 0 <= j < 4 ensures BytesIn(r)[j] == Xor(BytesIn(v), BytesIn(w))[j] {
      XorAt(BytesIn(v), BytesIn(w), j);
      XorByte(v, w, r, j);
    }
  }

  lemma {:induction false} XorByte(v: bv32, w: bv32, r: bv32, j: nat)
    requires j < 4 && r == v ^ w
    ensures ByteAt(r, j) == ByteAt(v, j) ^ ByteAt(w, j)
  {
    match j
    case 0 =>
    case 1 =>
    case 2 =>
    case 3 =>
  }

  lemma {:induction false} ShiftedBytes(w: bv32, next: bv32)
    ensures BytesIn(Shifted(w, next)) == Shift(BytesIn(w), BytesIn(next)[0])
  {
    forall j | 0 <= j < 4 ensures ByteAt(Shifted(w, next), j) == Shift(BytesIn(w), BytesIn(next)[0])[j] {
      ShiftAt(BytesIn(w), BytesIn(next)[0], j);
      ShiftedByte(w, next, j);
    }
  }

  lemma {:induction false} ShiftedByte(w: bv32, next: bv32, j: nat)
    requires j < 4
    ensures ByteAt(Shifted(w, next), j) ==
            ShiftLeft(ByteAt(w, j), if j < 3 then ByteAt(w, j + 1) else ByteAt(next, 0))
  {
    match j
    case 0 =>
    case 1 =>
    case 2 =>
    case 3 =>
  }

  lemma {:induction false} FoldedBytes(w: bv32, top: byte)
    ensures BytesIn(Folded(w, (top >> 7) as bv32)) == ShiftAndFold(BytesIn(w), top)
  {
    forall j | 0 <= j < 4 ensures ByteAt(Folded(w, (top >> 7) as bv32), j) == ShiftAndFold(BytesIn(w), top)[j] {
      ShiftAndFoldAt(BytesIn(w), top, j);
      FoldedByte(w, top, j);
    }
  }

  lemma {:induction false} FoldedByte(w: bv32, top: byte, j: nat)
    requires j < 4
    ensures ByteAt(Folded(w, (top >> 7) as bv32), j) ==
            if j < 3 then ShiftLeft(ByteAt(w, j), ByteAt(w, j + 1)) else Fold(ByteAt(w, 3), top)
  {
    match j
    case 0 =>
    case 1 =>
    case 2 =>
    case 3 =>
  }

  lemma {:induction false} TopBit(b: seq<byte>)
    requires |b| == 4
    ensures Swap(Word(b)) >> 31 == (b[0] >> 7) as bv32
  {
  }

  // One word of s2 and of s3, and the last word of each.
  method DoubledWord(w: bv32, next: bv32) returns (r: bv32)
    ensures BytesIn(r) == Shift(BytesIn(w), BytesIn(next)[0])
  {
    r := Shifted(w, next);
    ShiftedBytes(w, next);
  }

  method TripledWord(w: bv32, next: bv32) returns (r: bv32)
    ensures BytesIn(r) == Xor(BytesIn(w), Shift(BytesIn(w), BytesIn(next)[0]))
  {
    var d := DoubledWord(w, next);
    r := XoredWord(w, d);
  }

  method DoubledLastWord(w: bv32, carry: bv32, ghost top: byte) returns (r: bv32)
    requires carry == (top >> 7) as bv32
    ensures BytesIn(r) == ShiftAndFold(BytesIn(w), top)
  {
    r := Folded(w, carry);
    FoldedBytes(w, top);
  }

  method TripledLastWord(w: bv32, carry: bv32, ghost top: byte) returns (r: bv32)
    requires carry == (top >> 7) as bv32
    ensures BytesIn(r) == Xor(BytesIn(w), ShiftAndFold(BytesIn(w), top))
  {
    var d := DoubledLastWord(w, carry, top);
    r := XoredWord(w, d);
  }

  method XoredWord(v: bv32, w: bv32) returns (r: bv32)
    ensures BytesIn(r) == Xor(BytesIn(v), BytesIn(w))
  {
    r := v ^ w;
    XorBytes(v, w, r);
  }

  method Load(block: array<byte>, at: nat) returns (w: bv32)
    requires at + 4 <= block.Length
    ensures BytesIn(w) == block[at..at + 4]
  {
    w := Word(block[at..at + 4]);
    WordBytes(block[at..at + 4]);
  }

  method Store(block: array<byte>, at: nat, w: bv32)
    requires at + 4 <= block.Length
    modifies block
    ensures block[..] == Splice(old(block[..]), at, BytesIn(w))
  {
    Copy(block, at, BytesIn(w));
  }

  // The bit that doubling shifts out.
  method Carry(block: array<byte>) returns (carry: bv32)
    requires block.Length == 16
    ensures carry == (block[0] >> 7) as bv32
  {
    carry := Swap(Word(block[0..4])) >> 31;
    TopBit(block[0..4]);
  }

  // One iteration of xorBlock, which extends the part of x ^ y written at d over the old contents z.
  method XorWord(dst: array<byte>, d: nat, a: array<byte>, p: nat, b: array<byte>, q: nat, k: nat,
                 ghost x: Block, ghost y: Block, ghost z: seq<byte>)
    requires k + 4 <= 16 && d + 16 <= dst.Length == |z| && p + 16 <= a.Length && q + 16 <= b.Length
    requires dst[..] == Splice(z, d, Xor(x, y)[..k])
    requires a[p + k..p + k + 4] == x[k..k + 4] && b[q + k..q + k + 4] == y[k..k + 4]
    modifies dst
    ensures dst[..] == Splice(z, d, Xor(x, y)[..k + 4])
  {
    var v := Load(a, p + k);
    var w := Load(b, q + k);
    var r := XoredWord(v, w);
    XorSlice(x, y, k, k + 4);
    SpliceNext(z, d, Xor(x, y), k, k + 4);
    Store(dst, d + k, r);
  }

  // CryptOCB2::P::xorBlock, between 16-byte views of buffers. A view may be both operand and destination.
  method XorBlock(dst: array<byte>, d: nat, a: array<byte>, p: nat, b: array<byte>, q: nat)
    requires d + 16 <= dst.Length && p + 16 <= a.Length && q + 16 <= b.Length
    requires (dst == a ==> d == p) && (dst == b ==> d == q)
    modifies dst
    ensures dst[..] == Splice(old(dst[..]), d, Xor(old(a[p..p + 16]), old(b[q..q + 16])))
  {
    ghost var x, y, z := a[p..p + 16], b[q..q + 16], dst[..];
    ghost var r, s, t := Xor(x, y), a[..], b[..];
    for i := 0 to 4
      invariant dst[..] == Splice(z, d, r[..4 * i])
      invariant (a == dst || a[..] == s) && (b == dst || b[..] == t)
    {
      OperandKept(s, a[..], p, x, r, 4 * i, 4, a == dst);
      OperandKept(t, b[..], q, y, r, 4 * i, 4, b == dst);
      XorWord(dst, d, a, p, b, q, 4 * i, x, y, z);
    }
    assert r[..16] == r;
  }

  // One iteration of s2, and its last step.
  method ShiftWord(block: array<byte>, k: nat, ghost b: Block)
    requires block.Length == 16 && k + 8 <= 16
    requires block[..] == Splice(b, 0, Double(b)[..k])
    modifies block
    ensures block[..] == Splice(b, 0, Double(b)[..k + 4])
  {
    var w := Load(block, k);
    var next := Load(block, k + 4);
    var r := DoubledWord(w, next);
    SpliceKeeps(b, 0, Double(b)[..k], k, k + 4);
    SpliceKeeps(b, 0, Double(b)[..k], k + 4, k + 8);
    assert BytesIn(next)[0] == b[k + 4..k + 8][0];
    DoubleSlice(b, k, k + 4);
    SpliceNext(b, 0, Double(b), k, k + 4);
    Store(block, k, r);
  }

  method FoldWord(block: array<byte>, carry: bv32, ghost b: Block)
    requires block.Length == 16 && carry == (b[0] >> 7) as bv32
    requires block[..] == Splice(b, 0, Double(b)[..12])
    modifies block
    ensures block[..] == Double(b)
  {
    var w := Load(block, 12);
    var r := DoubledLastWord(w, carry, b[0]);
    SpliceKeeps(b, 0, Double(b)[..12], 12, 16);
    DoubleEnd(b, 12);
    SpliceNext(b, 0, Double(b), 12, 16);
    SpliceIs(b, 0, Double(b)[..16]);
    Store(block, 12, r);
  }

  // CryptOCB2::P::s2
  method S2(block: array<byte>)
    requires block.Length == 16
    modifies block
    ensures block[..] == Double(old(block[..]))
  {
    ghost var b := block[..];
    var carry := Carry(block);
    for i := 0 to 3
      invariant block[..] == Splice(b, 0, Double(b)[..4 * i])
    {
      ShiftWord(block, 4 * i, b);
    }
    FoldWord(block, carry, b);
  }

  // One iteration of s3, and its last step.
  method TripleWord(block: array<byte>, k: nat, ghost b: Block)
    requires block.Length == 16 && k + 8 <= 16
    requires block[..] == Splice(b, 0, Triple(b)[..k])
    modifies block
    ensures block[..] == Splice(b, 0, Triple(b)[..k + 4])
  {
    var w := Load(block, k);
    var next := Load(block, k + 4);
    var r := TripledWord(w, next);
    ghost var t := Triple(b);
    SpliceKeeps(b, 0, t[..k], k, k + 4);
    SpliceKeeps(b, 0, t[..k], k + 4, k + 8);
    assert BytesIn(next)[0] == b[k + 4..k + 8][0];
    TripleSlice(b, k, k + 4);
    SpliceNext(b, 0, t, k, k + 4);
    Store(block, k, r);
  }

  method TripleLastWord(block: array<byte>, carry: bv32, ghost b: Block)
    requires block.Length == 16 && carry == (b[0] >> 7) as bv32
    requires block[..] == Splice(b, 0, Triple(b)[..12])
    modifies block
    ensures block[..] == Triple(b)
  {
    var w := Load(block, 12);
    var r := TripledLastWord(w, carry, b[0]);
    SpliceKeeps(b, 0, Triple(b)[..12], 12, 16);
    DoubleEnd(b, 12);
    XorSlice(b, Double(b), 12, 16);
    SpliceNext(b, 0, Triple(b), 12, 16);
    SpliceIs(b, 0, Triple(b)[..16]);
    Store(block, 12, r);
  }

  // CryptOCB2::P::s3
  method S3(block: array<byte>)
    requires block.Length == 16
    modifies block
    ensures block[..] == Triple(old(block[..]))
  {
    ghost var b := block[..];
    var carry := Carry(block);
    for i := 0 to 3
      invariant block[..] == Splice(b, 0, Triple(b)[..4 * i])
    {
      TripleWord(block, 4 * i, b);
    }
    TripleLastWord(block, carry, b);
  }
}
