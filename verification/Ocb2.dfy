/**
 OCB 2.0 authenticated encryption (clause 6 of ISO/IEC 19772:2009) over an abstract block cipher, with the two
 countermeasures that CryptOCB2 adds: encryption changes one bit of certain messages, and decryption refuses
 certain last blocks.
 */
module Ocb2 {
  import opened Bytes
  import opened BigEndian
  import opened Casts
  import opened GaloisField

  // The block cipher under a fixed key, and its inverse.
  type Cipher = Block -> Block

  ghost predicate Inverse(enc: Cipher, dec: Cipher) {
    (forall x: Block :: dec(enc(x)) == x) && (forall x: Block :: enc(dec(x)) == x)
  }

  // The bit length of n bytes, n * 8. At most 128, it fits the last byte of the big-endian length block.
  function BitLength(n: nat): byte
    requires n <= 16
  {
    if n == 0 then 0 else BitLength(n - 1) + 8
  }

  lemma {:induction false} BitLengthIs(n: nat)
    requires n <= 16
    ensures BitLength(n) as int == 8 * n
  {
    if n > 0 {
      BitLengthIs(n - 1);
      AddEight(BitLength(n - 1));
    }
  }

  function LengthBlock(n: nat): Block
    requires n <= 16
  {
    Zeros(15) + [BitLength(n)]
  }

  // It is the bit length as a 128-bit big-endian number.
  lemma {:induction false} LengthBlockIs(n: nat)
    requires n <= 16
    ensures LengthBlock(n) == BytesOf(8 * n, 16)
  {
    BitLengthIs(n);
    OneByte(BitLength(n), 16);
  }

  //////////////////////////////////////////////////////////////////////////////
  // The mode
  //////////////////////////////////////////////////////////////////////////////

  datatype Sealed = Sealed(text: seq<byte>, tag: Block)

  // Encrypt what remains of a message, given the current offset and the checksum so far.
  function SealFrom(enc: Cipher, offset: Block, sum: Block, m: seq<byte>): (r: Sealed)
    ensures |r.text| == |m|
    decreases |m|
  {
    var d := Double(offset);
    if |m| > 16 then
      var rest := SealFrom(enc, d, Xor(sum, m[..16]), m[16..]);
      Sealed(Xor(d, enc(Xor(d, m[..16]))) + rest.text, rest.tag)
    else
      var pad := enc(Xor(LengthBlock(|m|), d));
      var last := m + pad[|m|..];
      Sealed(Xor(pad, last)[..|m|], enc(Xor(Triple(d), Xor(sum, last))))
  }

  function Seal(enc: Cipher, nonce: Block, m: seq<byte>): Sealed {
    SealFrom(enc, enc(nonce), Zeros(16), m)
  }

  // What decryption computes: the message, its last block padded, the offset of that block, and the tag.
  datatype Opened = Opened(text: seq<byte>, last: Block, offset: Block, tag: Block)

  function OpenFrom(enc: Cipher, dec: Cipher, offset: Block, sum: Block, c: seq<byte>): (r: Opened)
    ensures |r.text| == |c|
    decreases |c|
  {
    var d := Double(offset);
    if |c| > 16 then
      var p := Xor(d, dec(Xor(d, c[..16])));
      var rest := OpenFrom(enc, dec, d, Xor(sum, p), c[16..]);
      rest.(text := p + rest.text)
    else
      var pad := enc(Xor(LengthBlock(|c|), d));
      var last := Xor(c + Zeros(16 - |c|), pad);
      Opened(last[..|c|], last, d, enc(Xor(Triple(d), Xor(sum, last))))
  }

  function Open(enc: Cipher, dec: Cipher, nonce: Block, c: seq<byte>): Opened {
    OpenFrom(enc, dec, enc(nonce), Zeros(16), c)
  }

  // The message, unless the last block equals its offset or the tag, any prefix of the full one, does not match.
  function Decrypt(enc: Cipher, dec: Cipher, nonce: Block, c: seq<byte>, tag: seq<byte>): Option<seq<byte>>
    requires |tag| <= 16
  {
    var o := Open(enc, dec, nonce, c);
    if o.last == o.offset || tag != o.tag[..|tag|] then None else Some(o.text)
  }

  //////////////////////////////////////////////////////////////////////////////
  // Round trips
  //////////////////////////////////////////////////////////////////////////////

  // The last block of a message as it enters the checksum, and its offset.
  ghost function LastBlock(enc: Cipher, offset: Block, m: seq<byte>): Block
    decreases |m|
  {
    var d := Double(offset);
    if |m| > 16 then LastBlock(enc, d, m[16..])
    else m + enc(Xor(LengthBlock(|m|), d))[|m|..]
  }

  ghost function LastOffset(offset: Block, m: seq<byte>): Block
    decreases |m|
  {
    if |m| > 16 then LastOffset(Double(offset), m[16..]) else Double(offset)
  }

  // Whether the message would be refused on decryption.
  ghost predicate Guarded(enc: Cipher, nonce: Block, m: seq<byte>) {
    LastBlock(enc, enc(nonce), m) == LastOffset(enc(nonce), m)
  }

  // The last block, with the pad in two parts a and b: encrypting m against a, padding with zeros and
  // decrypting gives m followed by b, and the other way round.
  lemma {:induction false} LastText(m: seq<byte>, pad: Block)
    requires |m| <= 16
    ensures Xor(pad, m + pad[|m|..])[..|m|] == Xor(pad[..|m|], m)
  {
    var a, b := pad[..|m|], pad[|m|..];
    assert pad == a + b;
    XorConcat(a, b, m, b);
  }

  lemma {:induction false} XorParts(a: seq<byte>, b: seq<byte>, c: seq<byte>, pad: seq<byte>, k: nat)
    requires |a| == |c| && |b| == k && pad == a + b
    ensures Xor(c + Zeros(k), pad) == Xor(c, a) + b
  {
    XorConcat(c, Zeros(k), a, b);
    XorZeros(k, b);
  }

  lemma {:induction false} XorTwice(a: seq<byte>, m: seq<byte>)
    requires |a| == |m|
    ensures Xor(Xor(a, m), a) == m && Xor(a, Xor(m, a)) == m
  {
    XorCommutes(Xor(a, m), a);
    XorCommutes(m, a);
    XorCancels(a, m);
  }

  lemma {:induction false} XorPadding(m: seq<byte>, pad: Block)
    requires |m| <= 16
    ensures Xor(Xor(pad[..|m|], m) + Zeros(16 - |m|), pad) == m + pad[|m|..]
  {
    var a, b := pad[..|m|], pad[|m|..];
    XorParts(a, b, Xor(a, m), pad, 16 - |m|);
    XorTwice(a, m);
  }

  lemma {:induction false} XorUnpadding(c: seq<byte>, pad: Block)
    requires |c| <= 16
    ensures Xor(c + Zeros(16 - |c|), pad) == Xor(c, pad[..|c|]) + pad[|c|..]
    ensures Xor(pad, Xor(c, pad[..|c|]) + pad[|c|..])[..|c|] == c
  {
    var a, b := pad[..|c|], pad[|c|..];
    XorParts(a, b, c, pad, 16 - |c|);
    LastText(Xor(c, a), pad);
    XorTwice(a, c);
  }

  // One full block.
  lemma {:induction false} BlockCancels(d: Block, x: Block, y: Block)
    requires y == Xor(d, x)
    ensures Xor(d, y) == x
  {
    XorCancels(d, x);
  }

  lemma {:induction false} OpenOfSeal(enc: Cipher, dec: Cipher, offset: Block, sum: Block, m: seq<byte>)
    requires Inverse(enc, dec)
    ensures var s := SealFrom(enc, offset, sum, m);
            OpenFrom(enc, dec, offset, sum, s.text) ==
            Opened(m, LastBlock(enc, offset, m), LastOffset(offset, m), s.tag)
    decreases |m|
  {
    var d := Double(offset);
    if |m| > 16 {
      var b, rest := m[..16], m[16..];
      var x := Xor(d, b);
      var y := Xor(d, enc(x));
      BlockCancels(d, b, x);
      BlockCancels(d, enc(x), y);
      OpenOfSeal(enc, dec, d, Xor(sum, b), rest);
      var c := SealFrom(enc, offset, sum, m).text;
      assert c[..16] == y && c[16..] == SealFrom(enc, d, Xor(sum, b), rest).text;
      assert m == b + rest;
    } else {
      OpenOfLast(enc, dec, offset, sum, m);
    }
  }

  lemma {:induction false} OpenOfLast(enc: Cipher, dec: Cipher, offset: Block, sum: Block, m: seq<byte>)
    requires |m| <= 16
    ensures var s := SealFrom(enc, offset, sum, m);
            OpenFrom(enc, dec, offset, sum, s.text) ==
            Opened(m, LastBlock(enc, offset, m), LastOffset(offset, m), s.tag)
  {
    var pad := enc(Xor(LengthBlock(|m|), Double(offset)));
    LastText(m, pad);
    XorPadding(m, pad);
    assert (m + pad[|m|..])[..|m|] == m;
  }

  lemma {:induction false} SealOfOpen(enc: Cipher, dec: Cipher, offset: Block, sum: Block, c: seq<byte>)
    requires Inverse(enc, dec)
    ensures var o := OpenFrom(enc, dec, offset, sum, c);
            && SealFrom(enc, offset, sum, o.text) == Sealed(c, o.tag)
            && o.last == LastBlock(enc, offset, o.text) && o.offset == LastOffset(offset, o.text)
    decreases |c|
  {
    var d := Double(offset);
    if |c| > 16 {
      var y, rest := c[..16], c[16..];
      var x := Xor(d, y);
      var b := Xor(d, dec(x));
      BlockCancels(d, y, x);
      BlockCancels(d, dec(x), b);
      SealOfOpen(enc, dec, d, Xor(sum, b), rest);
      var m := OpenFrom(enc, dec, offset, sum, c).text;
      assert m[..16] == b && m[16..] == OpenFrom(enc, dec, d, Xor(sum, b), rest).text;
      assert c == y + rest;
    } else {
      var pad := enc(Xor(LengthBlock(|c|), d));
      XorUnpadding(c, pad);
      assert (Xor(c, pad[..|c|]) + pad[|c|..])[..|c|] == Xor(c, pad[..|c|]);
    }
  }

  // Decrypting an encryption, with any prefix of its tag, gives the message back unless the guard refuses it.
  lemma {:induction false} RoundTrip(enc: Cipher, dec: Cipher, nonce: Block, m: seq<byte>, k: nat)
    requires Inverse(enc, dec) && k <= 16
    ensures var s := Seal(enc, nonce, m);
            Decrypt(enc, dec, nonce, s.text, s.tag[..k]) == if Guarded(enc, nonce, m) then None else Some(m)
  {
    OpenOfSeal(enc, dec, enc(nonce), Zeros(16), m);
  }

  // With a whole tag, what is accepted is exactly what the mode produces, guarded messages excepted.
  lemma {:induction false} AcceptedIffSealed(enc: Cipher, dec: Cipher, nonce: Block, c: seq<byte>, tag: Block,
                                            m: seq<byte>)
    requires Inverse(enc, dec)
    ensures Decrypt(enc, dec, nonce, c, tag) == Some(m) <==>
            Seal(enc, nonce, m) == Sealed(c, tag) && !Guarded(enc, nonce, m)
  {
    SealOfOpen(enc, dec, enc(nonce), Zeros(16), c);
    OpenOfSeal(enc, dec, enc(nonce), Zeros(16), m);
    var o := Open(enc, dec, nonce, c);
    assert o.tag[..16] == o.tag;
  }

  //////////////////////////////////////////////////////////////////////////////
  // The mode as the standard writes it, block by block
  //////////////////////////////////////////////////////////////////////////////

  // The offset of block i, 2^i times the encrypted nonce.
  ghost function Offset(first: Block, i: nat): Block {
    if i == 0 then first else Double(Offset(first, i - 1))
  }

  // So many whole blocks, after which something is left unless there was nothing.
  lemma {:induction false} FullBlocksIs(n: nat, k: nat)
    requires 16 * k <= n <= 16 * k + 16 && (k > 0 ==> 16 * k < n)
    ensures FullBlocks(n) == k
  {
  }

  // How many blocks come before the last one.
  ghost function FullBlocks(n: nat): (r: nat)
    ensures n > 0 ==> 16 * r < n
    ensures 16 * r <= n <= 16 * r + 16
  {
    if n <= 16 then 0 else 1 + FullBlocks(n - 16)
  }

  ghost function BlockAt(m: seq<byte>, i: nat): Block
    requires i < FullBlocks(|m|)
  {
    m[16 * i..16 * i + 16]
  }

  // The exclusive-or of the first n blocks.
  ghost function Checksum(m: seq<byte>, n: nat): Block
    requires n <= FullBlocks(|m|)
  {
    if n == 0 then Zeros(16) else Xor(Checksum(m, n - 1), BlockAt(m, n - 1))
  }

  ghost predicate SealsBlock(enc: Cipher, first: Block, m: seq<byte>, c: seq<byte>, i: nat)
    requires |c| == |m| && i < FullBlocks(|m|)
  {
    var d := Offset(first, i + 1);
    BlockAt(c, i) == Xor(d, enc(Xor(d, BlockAt(m, i))))
  }

  ghost predicate SealsBlocks(enc: Cipher, first: Block, m: seq<byte>, c: seq<byte>, n: nat)
    requires |c| == |m| && n <= FullBlocks(|m|)
  {
    n > 0 ==> SealsBlocks(enc, first, m, c, n - 1) && SealsBlock(enc, first, m, c, n - 1)
  }

  ghost predicate IsOcb2(enc: Cipher, nonce: Block, m: seq<byte>, c: seq<byte>, tag: Block) {
    var n := FullBlocks(|m|);
    var last, final := m[16 * n..], Offset(enc(nonce), n + 1);
    var pad := enc(Xor(BytesOf(8 * |last|, 16), final));
    && |c| == |m|
    && SealsBlocks(enc, enc(nonce), m, c, n)
    && c[16 * n..] == Xor(pad[..|last|], last)
    && tag == enc(Xor(Triple(final), Xor(Checksum(m, n), last + pad[|last|..])))
  }

  // The encryption of what remains after the first i blocks of m.
  ghost predicate SealsRest(enc: Cipher, first: Block, m: seq<byte>, c: seq<byte>, tag: Block, i: nat)
    requires |c| == |m| && i <= FullBlocks(|m|)
  {
    SealFrom(enc, Offset(first, i), Checksum(m, i), m[16 * i..]) == Sealed(c[16 * i..], tag)
  }

  lemma {:induction false} SealsNext(enc: Cipher, first: Block, m: seq<byte>, c: seq<byte>, tag: Block, i: nat)
    requires |c| == |m| && i < FullBlocks(|m|)
    requires SealsRest(enc, first, m, c, tag, i)
    ensures SealsRest(enc, first, m, c, tag, i + 1) && SealsBlock(enc, first, m, c, i)
  {
    var rest := m[16 * i..];
    assert rest[..16] == BlockAt(m, i) && rest[16..] == m[16 * (i + 1)..];
    assert c[16 * i..][..16] == BlockAt(c, i) && c[16 * i..][16..] == c[16 * (i + 1)..];
  }

  lemma {:induction false} SealsAll(enc: Cipher, first: Block, m: seq<byte>, c: seq<byte>, tag: Block, i: nat)
    requires |c| == |m| && i <= FullBlocks(|m|)
    requires SealsRest(enc, first, m, c, tag, 0)
    ensures SealsRest(enc, first, m, c, tag, i)
    ensures SealsBlocks(enc, first, m, c, i)
  {
    if i > 0 {
      SealsAll(enc, first, m, c, tag, i - 1);
      SealsNext(enc, first, m, c, tag, i - 1);
    }
  }

  // Encryption produces what the standard defines.
  lemma {:induction false} SealIsOcb2(enc: Cipher, nonce: Block, m: seq<byte>)
    ensures IsOcb2(enc, nonce, m, Seal(enc, nonce, m).text, Seal(enc, nonce, m).tag)
  {
    var n, s := FullBlocks(|m|), Seal(enc, nonce, m);
    assert m[16 * 0..] == m && s.text[16 * 0..] == s.text;
    SealsAll(enc, enc(nonce), m, s.text, s.tag, n);
    var last := m[16 * n..];
    LengthBlockIs(|last|);
    LastText(last, enc(Xor(LengthBlock(|last|), Offset(enc(nonce), n + 1))));
  }

  // The blocks before the last are determined.
  lemma {:induction false} SameBlocks(enc: Cipher, first: Block, m: seq<byte>, c: seq<byte>, e: seq<byte>, n: nat)
    requires |c| == |e| == |m| && n <= FullBlocks(|m|)
    requires SealsBlocks(enc, first, m, c, n) && SealsBlocks(enc, first, m, e, n)
    ensures c[..16 * n] == e[..16 * n]
  {
    if n > 0 {
      SameBlocks(enc, first, m, c, e, n - 1);
      assert c[..16 * n] == c[..16 * (n - 1)] + BlockAt(c, n - 1);
      assert e[..16 * n] == e[..16 * (n - 1)] + BlockAt(e, n - 1);
    }
  }

  // The standard's definition leaves no choice.
  lemma {:induction false} Ocb2IsUnique(enc: Cipher, nonce: Block, m: seq<byte>, c: seq<byte>, tag: Block,
                                        e: seq<byte>, other: Block)
    requires IsOcb2(enc, nonce, m, c, tag) && IsOcb2(enc, nonce, m, e, other)
    ensures c == e && tag == other
  {
    var n := FullBlocks(|m|);
    SameBlocks(enc, enc(nonce), m, c, e, n);
    SameHalves(c, e, 16 * n);
  }

  lemma {:induction false} SameHalves(c: seq<byte>, e: seq<byte>, n: nat)
    requires n <= |c| == |e| && c[..n] == e[..n] && c[n..] == e[n..]
    ensures c == e
  {
    assert c == c[..n] + c[n..] && e == e[..n] + e[n..];
  }

  // Encryption produces what the standard defines and nothing else meets that definition.
  lemma {:induction false} SealIffOcb2(enc: Cipher, nonce: Block, m: seq<byte>, c: seq<byte>, tag: Block)
    ensures IsOcb2(enc, nonce, m, c, tag) <==> Seal(enc, nonce, m) == Sealed(c, tag)
  {
    var s := Seal(enc, nonce, m);
    SealIsOcb2(enc, nonce, m);
    if IsOcb2(enc, nonce, m, c, tag) {
      Ocb2IsUnique(enc, nonce, m, c, tag, s.text, s.tag);
    }
  }

  // With a whole tag, a message is accepted exactly when ciphertext and tag are those the standard defines for it,
  // unless its last block, padded, equals the last offset.
  lemma {:induction false} AcceptedIffOcb2(enc: Cipher, dec: Cipher, nonce: Block, c: seq<byte>, tag: Block,
                                            m: seq<byte>)
    requires Inverse(enc, dec)
    ensures Decrypt(enc, dec, nonce, c, tag) == Some(m) <==>
            IsOcb2(enc, nonce, m, c, tag) && !Guarded(enc, nonce, m)
  {
    AcceptedIffSealed(enc, dec, nonce, c, tag, m);
    SealIffOcb2(enc, nonce, m, c, tag);
  }

  // The last block, padded, equals the last offset.
  ghost predicate EndsInOffset(enc: Cipher, nonce: Block, m: seq<byte>) {
    var n := FullBlocks(|m|);
    var last, final := m[16 * n..], Offset(enc(nonce), n + 1);
    last + enc(Xor(BytesOf(8 * |last|, 16), final))[|last|..] == final
  }

  lemma {:induction false} LastFrom(enc: Cipher, first: Block, m: seq<byte>, i: nat)
    requires i <= FullBlocks(|m|)
    ensures LastBlock(enc, first, m) == LastBlock(enc, Offset(first, i), m[16 * i..])
    ensures LastOffset(first, m) == LastOffset(Offset(first, i), m[16 * i..])
  {
    if i == 0 {
      assert m[16 * 0..] == m;
    } else {
      LastFrom(enc, first, m, i - 1);
      var rest := m[16 * (i - 1)..];
      assert rest[16..] == m[16 * i..];
    }
  }

  lemma {:induction false} GuardedIff(enc: Cipher, nonce: Block, m: seq<byte>)
    ensures Guarded(enc, nonce, m) <==> EndsInOffset(enc, nonce, m)
  {
    var n := FullBlocks(|m|);
    LastFrom(enc, enc(nonce), m, n);
    LengthBlockIs(|m[16 * n..]|);
  }

  // What decryption makes of any ciphertext, whether it then accepts it or not, is the message whose encryption it is.
  lemma {:induction false} OpenIffOcb2(enc: Cipher, dec: Cipher, nonce: Block, c: seq<byte>, m: seq<byte>, tag: Block)
    requires Inverse(enc, dec)
    ensures var o := Open(enc, dec, nonce, c);
            && (IsOcb2(enc, nonce, m, c, tag) <==> o.text == m && o.tag == tag)
            && (o.last == o.offset <==> EndsInOffset(enc, nonce, o.text))
  {
    var o := Open(enc, dec, nonce, c);
    SealIffOcb2(enc, nonce, m, c, tag);
    SealOfOpen(enc, dec, enc(nonce), Zeros(16), c);
    OpenOfSeal(enc, dec, enc(nonce), Zeros(16), m);
    GuardedIff(enc, nonce, o.text);
  }

  // So many bytes of the tag that the standard defines for a message and its ciphertext.
  ghost predicate IsTagged(enc: Cipher, nonce: Block, m: seq<byte>, c: seq<byte>, tag: seq<byte>) {
    |tag| <= 16 && exists whole: Block :: IsOcb2(enc, nonce, m, c, whole) && tag == whole[..|tag|]
  }

  // With a tag of any length, a message is accepted exactly when the ciphertext is the one the standard defines for it
  // and the tag the beginning of the one it defines, unless the message's last block, padded, equals the last offset.
  lemma {:induction false} AcceptedIffTagged(enc: Cipher, dec: Cipher, nonce: Block, c: seq<byte>, tag: seq<byte>,
                                             m: seq<byte>)
    requires Inverse(enc, dec) && |tag| <= 16
    ensures Decrypt(enc, dec, nonce, c, tag) == Some(m) <==>
            IsTagged(enc, nonce, m, c, tag) && !EndsInOffset(enc, nonce, m)
  {
    var o, s := Open(enc, dec, nonce, c), Seal(enc, nonce, m);
    GuardedIff(enc, nonce, m);
    SealIsOcb2(enc, nonce, m);
    SealOfOpen(enc, dec, enc(nonce), Zeros(16), c);
    OpenOfSeal(enc, dec, enc(nonce), Zeros(16), m);
    if IsTagged(enc, nonce, m, c, tag) {
      var whole: Block :| IsOcb2(enc, nonce, m, c, whole) && tag == whole[..|tag|];
      SealIffOcb2(enc, nonce, m, c, whole);
    }
  }

  // An offset that starts out other than zero never becomes zero.
  lemma {:induction false} OffsetStaysNonZero(first: Block, i: nat)
    requires first != Zeros(16)
    ensures Offset(first, i) != Zeros(16)
  {
    if i > 0 {
      OffsetStaysNonZero(first, i - 1);
      DoubleIsInjective(Offset(first, i - 1), Zeros(16));
      DoubleOfZeros();
    }
  }

  //////////////////////////////////////////////////////////////////////////////
  // The flipped bit
  //////////////////////////////////////////////////////////////////////////////

  // The pattern that section 9 of ePrint 2019/311 needs in the block before the last.
  predicate Silent(b: Block) {
    forall i :: 0 <= i < 15 ==> b[i] == 0
  }

  function FlipFirst(b: Block): Block {
    b[0 := b[0] ^ 1]
  }

  lemma {:induction false} XorFlip(a: Block, b: Block)
    ensures Xor(a, FlipFirst(b)) == FlipFirst(Xor(a, b))
  {
  }

  // The message that encryption actually protects.
  function Flip(m: seq<byte>): (r: seq<byte>)
    ensures |r| == |m|
  {
    if |m| <= 16 then m
    else if |m| <= 32 && Silent(m[..16]) then FlipFirst(m[..16]) + m[16..]
    else m[..16] + Flip(m[16..])
  }

  ghost predicate EndsSilent(m: seq<byte>) {
    |m| > 16 &&
    var n := FullBlocks(|m|);
    assert n > 0;
    Silent(BlockAt(m, n - 1))
  }

  lemma {:induction false} LaterBlock(m: seq<byte>)
    requires |m| > 32
    ensures var n, rest := FullBlocks(|m|), m[16..];
            n == FullBlocks(|rest|) + 1 > 1 && BlockAt(m, n - 1) == BlockAt(rest, n - 2)
  {
  }

  ghost function FlipIndexed(m: seq<byte>): seq<byte> {
    if EndsSilent(m) then var p := 16 * (FullBlocks(|m|) - 1); m[p := m[p] ^ 1] else m
  }

  lemma {:induction false} FlipLater(m: seq<byte>)
    requires |m| > 32
    ensures m[..16] + FlipIndexed(m[16..]) == FlipIndexed(m)
  {
    LaterBlock(m);
    assert m == m[..16] + m[16..];
  }

  lemma {:induction false} FlipNow(m: seq<byte>)
    requires 16 < |m| <= 32
    ensures FlipIndexed(m) == if Silent(m[..16]) then FlipFirst(m[..16]) + m[16..] else m
  {
  }

  // Flipping changes one bit, the lowest of the first byte of the block before the last, exactly when all bytes
  // of that block but its last are zero.
  lemma {:induction false} FlipIs(m: seq<byte>)
    ensures Flip(m) == if EndsSilent(m) then var p := 16 * (FullBlocks(|m|) - 1); m[p := m[p] ^ 1] else m
  {
    if |m| > 32 {
      FlipIs(m[16..]);
      FlipLater(m);
    } else if |m| > 16 {
      FlipNow(m);
    }
  }

  // What is encrypted never has the pattern, so flipping again changes nothing.
  lemma {:induction false} FlipBreaksPattern(m: seq<byte>)
    ensures !EndsSilent(Flip(m)) && Flip(Flip(m)) == Flip(m)
  {
    FlipIs(m);
    FlipIs(Flip(m));
    if EndsSilent(m) {
      var p := 16 * (FullBlocks(|m|) - 1);
      assert m[p] == BlockAt(m, FullBlocks(|m|) - 1)[0] == 0;
      assert BlockAt(Flip(m), FullBlocks(|m|) - 1)[0] == Flip(m)[p] == 1;
    }
  }

  // Where the block before the last begins.
  function BeforeLast(n: nat): nat
    requires n > 16
  {
    16 * ((n - 1) / 16) - 16
  }

  ghost predicate ZerosAt(m: seq<byte>, p: nat, n: nat)
    requires p + n <= |m|
  {
    forall i :: p <= i < p + n ==> m[i] == 0
  }

  lemma {:induction false} SilentIff(m: seq<byte>, p: nat, b: Block)
    requires p + 16 <= |m| && b == m[p..p + 16]
    ensures Silent(b) <==> ZerosAt(m, p, 15)
  {
    assert forall i :: 0 <= i < 16 ==> b[i] == m[p + i];
    if Silent(b) {
      forall i | p <= i < p + 15 ensures m[i] == 0 {
        assert b[i - p] == 0;
      }
    }
  }

  lemma {:induction false} EndsSilentIff(m: seq<byte>)
    ensures EndsSilent(m) <==> |m| > 16 && ZerosAt(m, BeforeLast(|m|), 15)
    ensures |m| > 16 ==> BeforeLast(|m|) == 16 * (FullBlocks(|m|) - 1)
  {
    if |m| > 16 {
      FullBlocksIs(|m|, (|m| - 1) / 16);
      SilentIff(m, BeforeLast(|m|), BlockAt(m, FullBlocks(|m|) - 1));
    }
  }

  // In bytes: the first of that block has its lowest bit changed exactly when it and the 14 after it are zero.
  lemma {:induction false} FlipIff(m: seq<byte>)
    ensures Flip(m) ==
            if |m| > 16 && ZerosAt(m, BeforeLast(|m|), 15) then var p := BeforeLast(|m|); m[p := m[p] ^ 1] else m
  {
    FlipIs(m);
    EndsSilentIff(m);
  }

  // So the block before the last that is encrypted is never a length block, which an attack would need it to be.
  lemma {:induction false} NoLengthBlock(m: seq<byte>, k: nat)
    requires |m| > 16 && k <= 16
    ensures var p := BeforeLast(|m|); Flip(m)[p..p + 16] != BytesOf(8 * k, 16)
  {
    var f, p := Flip(m), BeforeLast(|m|);
    FlipBreaksPattern(m);
    EndsSilentIff(f);
    SilentIff(f, p, f[p..p + 16]);
    LengthBlockIs(k);
    LengthBlockIsSilent(k);
  }

  lemma {:induction false} LengthBlockIsSilent(k: nat)
    requires k <= 16
    ensures Silent(LengthBlock(k))
  {
    ZerosAre(15);
    assert LengthBlock(k)[..15] == Zeros(15);
  }

  // The block the encryption loop works on next, and what it leaves.
  lemma {:induction false} FlipHead(m: seq<byte>)
    requires |m| > 16
    ensures Flip(m)[..16] == if |m| - 16 <= 16 && Silent(m[..16]) then FlipFirst(m[..16]) else m[..16]
    ensures Flip(m)[16..] == Flip(m[16..])
  {
  }

  // What is left to encrypt, m, yields the end of the whole result.
  ghost predicate SealsTail(enc: Cipher, whole: Sealed, w: nat, offset: Block, sum: Block, m: seq<byte>) {
    w <= |whole.text| && SealFrom(enc, offset, sum, Flip(m)) == Sealed(whole.text[w..], whole.tag)
  }

  // One step of the encryption loop.
  lemma {:induction false} SealStep(enc: Cipher, whole: Sealed, w: nat, offset: Block, sum: Block, m: seq<byte>)
    requires |m| > 16 && SealsTail(enc, whole, w, offset, sum, m)
    ensures var d, head := Double(offset), Flip(m)[..16];
            && SealsTail(enc, whole, w + 16, d, Xor(sum, head), m[16..])
            && whole.text[w..w + 16] == Xor(d, enc(Xor(d, head)))
  {
    FlipHead(m);
    var t := whole.text[w..];
    assert t[16..] == whole.text[w + 16..] && t[..16] == whole.text[w..w + 16];
  }

  // The same for decryption.
  ghost predicate OpensTail(enc: Cipher, dec: Cipher, whole: Opened, w: nat, offset: Block, sum: Block, c: seq<byte>) {
    w <= |whole.text| && OpenFrom(enc, dec, offset, sum, c) == whole.(text := whole.text[w..])
  }

  lemma {:induction false} OpenStep(enc: Cipher, dec: Cipher, whole: Opened, w: nat, offset: Block, sum: Block,
                                   c: seq<byte>)
    requires |c| > 16 && OpensTail(enc, dec, whole, w, offset, sum, c)
    ensures var d := Double(offset);
            var p := Xor(d, dec(Xor(d, c[..16])));
            && OpensTail(enc, dec, whole, w + 16, d, Xor(sum, p), c[16..])
            && whole.text[w..w + 16] == p
  {
    var t := whole.text[w..];
    assert t[16..] == whole.text[w + 16..] && t[..16] == whole.text[w..w + 16];
  }

  //////////////////////////////////////////////////////////////////////////////
  // The last block
  //////////////////////////////////////////////////////////////////////////////

  // What the last block, of n bytes, is encrypted with.
  function LastPad(enc: Cipher, offset: Block, n: nat): Block
    requires n <= 16
  {
    enc(Xor(LengthBlock(n), Double(offset)))
  }

  // The last block m of a message yields the end of the whole result.
  ghost predicate SealsEnd(enc: Cipher, whole: Sealed, w: nat, offset: Block, sum: Block, m: seq<byte>)
    requires |m| <= 16
  {
    var pad := LastPad(enc, offset, |m|);
    var last := m + pad[|m|..];
    && w <= |whole.text| && whole.text[w..] == Xor(pad, last)[..|m|]
    && whole.tag == enc(Xor(Triple(Double(offset)), Xor(sum, last)))
  }

  lemma {:induction false} SealsLast(enc: Cipher, whole: Sealed, w: nat, offset: Block, sum: Block, m: seq<byte>)
    requires |m| <= 16 && SealsTail(enc, whole, w, offset, sum, m)
    ensures SealsEnd(enc, whole, w, offset, sum, m)
  {
  }

  ghost predicate OpensEnd(enc: Cipher, whole: Opened, w: nat, offset: Block, sum: Block, c: seq<byte>)
    requires |c| <= 16
  {
    && whole.offset == Double(offset) && whole.last == Xor(c + Zeros(16 - |c|), LastPad(enc, offset, |c|))
    && w <= |whole.text| && whole.text[w..] == whole.last[..|c|]
    && whole.tag == enc(Xor(Triple(whole.offset), Xor(sum, whole.last)))
  }

  lemma {:induction false} OpensLast(enc: Cipher, dec: Cipher, whole: Opened, w: nat, offset: Block, sum: Block,
                                     c: seq<byte>)
    requires |c| <= 16 && OpensTail(enc, dec, whole, w, offset, sum, c)
    ensures OpensEnd(enc, whole, w, offset, sum, c)
  {
  }
}
