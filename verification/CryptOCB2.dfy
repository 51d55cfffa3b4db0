/**
 CryptOCB2: encryption and decryption of buffers in place of the mode of `Ocb2`, block by block. Working blocks
 (delta, checksum, tmp, pad) are 16-byte buffers; input and output are spans that advance a block at a time.
 */
module CryptOCB2 {
  import opened Bytes
  import opened GaloisField
  import opened KeyBlock64
  import opened Ocb2

  ghost predicate Apart(buf: array<byte>, delta: array<byte>, checksum: array<byte>, tmp: array<byte>) {
    buf != delta && buf != checksum && buf != tmp
  }

  // The working blocks before the first iteration.
  method Start(enc: Cipher, nonce: Block) returns (delta: array<byte>, checksum: array<byte>, tmp: array<byte>)
    ensures fresh(delta) && fresh(checksum) && fresh(tmp)
    ensures delta.Length == checksum.Length == tmp.Length == 16
    ensures Apart(delta, checksum, tmp, tmp) && checksum != tmp
    ensures delta[..] == enc(nonce) && checksum[..] == Zeros(16)
  {
    delta, checksum, tmp := new byte[16], new byte[16], new byte[16];
    Copy(delta, 0, enc(nonce));
    Copy(checksum, 0, Zeros(16));
  }

  // CryptOCB2::P::process on one block; source and destination may be the same.
  method Process(f: Cipher, dst: array<byte>, src: array<byte>)
    requires dst.Length == src.Length == 16
    modifies dst
    ensures dst[..] == f(old(src[..]))
  {
    var r := f(src[..]);
    Copy(dst, 0, r);
  }

  // xorBlock between two working blocks.
  method XorBlocks(dst: array<byte>, a: array<byte>, b: array<byte>)
    requires dst.Length == a.Length == b.Length == 16
    modifies dst
    ensures dst[..] == Xor(old(a[..]), old(b[..]))
  {
    assert a[0..16] == a[..] && b[0..16] == b[..];
    SpliceIs(dst[..], 0, Xor(a[..], b[..]));
    XorBlock(dst, 0, a, 0, b, 0);
  }

  // xorBlock reading its second operand from the head of a span.
  method XorInput(dst: array<byte>, a: array<byte>, inp: Span)
    requires dst.Length == a.Length == 16 && inp.Valid() && inp.len >= 16 && dst != inp.buf
    modifies dst
    ensures dst[..] == Xor(old(a[..]), inp.Bytes()[..16])
  {
    assert a[0..16] == a[..] && inp.Bytes()[..16] == inp.buf[inp.at..inp.at + 16];
    SpliceIs(dst[..], 0, Xor(a[..], inp.Bytes()[..16]));
    XorBlock(dst, 0, a, 0, inp.buf, inp.at);
  }

  // xorBlock writing to the head of a span.
  method XorOutput(out: Span, a: array<byte>, b: array<byte>)
    requires a.Length == b.Length == 16 && out.Valid() && out.len >= 16 && out.buf != a && out.buf != b
    modifies out.buf
    ensures out.buf[..] == Splice(old(out.buf[..]), out.at, Xor(a[..], b[..]))
  {
    assert a[0..16] == a[..] && b[0..16] == b[..];
    XorBlock(out.buf, out.at, a, 0, b, 0);
  }

  // Change the lowest bit of the first byte, which is what encryption does to a block and its checksum.
  method FlipInPlace(block: array<byte>)
    requires block.Length == 16
    modifies block
    ensures block[..] == FlipFirst(old(block[..]))
  {
    block[0] := block[0] ^ 1;
  }

  //////////////////////////////////////////////////////////////////////////////
  // Encryption
  //////////////////////////////////////////////////////////////////////////////

  // One iteration of the encryption loop: the head of the input, with its lowest bit flipped if so wanted, is
  // encrypted to the head of the output and folded into the checksum.
  method EncryptBlock(enc: Cipher, delta: array<byte>, checksum: array<byte>, tmp: array<byte>,
                      out: Span, inp: Span, flip: bool, ghost head: Block)
    requires delta.Length == checksum.Length == tmp.Length == 16
    requires Apart(delta, checksum, tmp, tmp) && checksum != tmp
    requires out.Valid() && inp.Valid() && out.len >= 16 && inp.len >= 16
    requires out.buf != inp.buf && Apart(out.buf, delta, checksum, tmp) && Apart(inp.buf, delta, checksum, tmp)
    requires head == if flip then FlipFirst(inp.Bytes()[..16]) else inp.Bytes()[..16]
    modifies delta, checksum, tmp, out.buf
    ensures delta[..] == Double(old(delta[..]))
    ensures checksum[..] == Xor(old(checksum[..]), head)
    ensures out.buf[..] == Splice(old(out.buf[..]), out.at, Xor(delta[..], enc(Xor(delta[..], head))))
  {
    ghost var b, sum := inp.Bytes()[..16], checksum[..];
    S2(delta);
    XorInput(tmp, delta, inp);
    XorFlip(delta[..], b);
    if flip {
      FlipInPlace(tmp);
    }
    Process(enc, tmp, tmp);
    XorOutput(out, delta, tmp);
    XorInput(checksum, checksum, inp);
    XorFlip(sum, b);
    if flip {
      FlipInPlace(checksum);
    }
  }

  // What follows the encryption loop: the last, possibly partial or empty, block and the tag.
  method EncryptLast(enc: Cipher, delta: array<byte>, checksum: array<byte>, tmp: array<byte>,
                     out: Span, inp: Span, tag: array<byte>)
    requires delta.Length == checksum.Length == tmp.Length == 16 && tag.Length in {0, 16}
    requires Apart(delta, checksum, tmp, tmp) && checksum != tmp
    requires out.Valid() && inp.Valid() && inp.len <= 16 && inp.len <= out.len
    requires out.buf != inp.buf && tag != out.buf
    requires Apart(out.buf, delta, checksum, tmp) && Apart(inp.buf, delta, checksum, tmp)
    requires Apart(tag, delta, checksum, tmp)
    modifies delta, checksum, tmp, out.buf, tag
    ensures var pad := LastPad(enc, old(delta[..]), inp.len);
            var last := old(inp.Bytes()) + pad[inp.len..];
            && out.buf[..] == Splice(old(out.buf[..]), out.at, Xor(pad, last)[..inp.len])
            && (tag.Length == 16 ==>
                  tag[..] == enc(Xor(Triple(Double(old(delta[..]))), Xor(old(checksum[..]), last))))
  {
    ghost var m, sum := inp.Bytes(), checksum[..];
    S2(delta);
    ghost var d := delta[..];
    Copy(tmp, 0, LengthBlock(inp.len));
    XorBlocks(tmp, tmp, delta);
    XorCommutes(LengthBlock(inp.len), d);
    var pad := new byte[16];
    Process(enc, pad, tmp);
    ghost var p: Block := pad[..];
    FillLast(tmp, inp.Bytes(), pad[inp.len..]);
    XorBlocks(checksum, checksum, tmp);
    XorBlocks(tmp, pad, tmp);
    Copy(out.buf, out.at, tmp[..inp.len]);
    if tag.Length == 0 {
      return;
    }
    S3(delta);
    XorBlocks(tmp, delta, checksum);
    Process(enc, tag, tmp);
  }

  // The head of a block from one place and the rest from another.
  method FillLast(tmp: array<byte>, head: seq<byte>, rest: seq<byte>)
    requires tmp.Length == 16 == |head| + |rest|
    modifies tmp
    ensures tmp[..] == head + rest
  {
    ghost var t := tmp[..];
    Copy(tmp, 0, head);
    ghost var u := tmp[..];
    Copy(tmp, |head|, rest);
    SpliceIs(t, 0, head);
    SpliceIs(u, |head|, rest);
  }

  // Whether the head of the input is the block before the last, and all zero but for its last byte.
  method NeedsFlip(inp: Span) returns (flip: bool)
    requires inp.Valid() && inp.len > 16
    ensures Flip(inp.Bytes())[..16] == if flip then FlipFirst(inp.Bytes()[..16]) else inp.Bytes()[..16]
  {
    flip := false;
    FlipHead(inp.Bytes());
    if inp.len - 16 <= 16 {
      ghost var b := inp.Bytes()[..16];
      var sum: byte := 0;
      for i := 0 to 15
        invariant sum == 0 <==> forall k :: 0 <= k < i ==> b[k] == 0
      {
        assert inp.buf[inp.at + i] == b[i];
        sum := sum | inp.buf[inp.at + i];
      }
      flip := sum == 0;
    }
  }

  // One iteration of the encryption loop, with `written` bytes of the result done.
  method EncryptStep(enc: Cipher, delta: array<byte>, checksum: array<byte>, tmp: array<byte>, out: Span, inp: Span,
                     written: nat, ghost z: seq<byte>, ghost whole: Sealed)
    requires delta.Length == checksum.Length == tmp.Length == 16
    requires Apart(delta, checksum, tmp, tmp) && checksum != tmp
    requires out.Valid() && inp.Valid() && written + 16 < inp.len <= out.len
    requires out.buf != inp.buf && Apart(out.buf, delta, checksum, tmp) && Apart(inp.buf, delta, checksum, tmp)
    requires |z| == out.buf.Length && |whole.text| == inp.len
    requires out.buf[..] == Splice(z, out.at, whole.text[..written])
    requires SealsTail(enc, whole, written, delta[..], checksum[..], inp.Drop(written).Bytes())
    modifies delta, checksum, tmp, out.buf
    ensures out.buf[..] == Splice(z, out.at, whole.text[..written + 16])
    ensures SealsTail(enc, whole, written + 16, delta[..], checksum[..], inp.Drop(written + 16).Bytes())
  {
    var i := inp.Drop(written);
    var flip := NeedsFlip(i);
    ghost var head := Flip(i.Bytes())[..16];
    assert i.Bytes()[16..] == inp.Drop(written + 16).Bytes();
    SealStep(enc, whole, written, delta[..], checksum[..], i.Bytes());
    SpliceNext(z, out.at, whole.text, written, written + 16);
    EncryptBlock(enc, delta, checksum, tmp, out.Drop(written), i, flip, head);
  }

  // The encryption loop and what follows it.
  method EncryptAll(enc: Cipher, nonce: Block, out: Span, inp: Span, tag: array<byte>, ghost whole: Sealed)
    requires out.Valid() && inp.Valid() && inp.len <= out.len && tag.Length in {0, 16}
    requires out.buf != inp.buf && tag != out.buf
    requires |whole.text| == inp.len && SealsTail(enc, whole, 0, enc(nonce), Zeros(16), inp.Bytes())
    modifies out.buf, tag
    ensures out.buf[..] == Splice(old(out.buf[..]), out.at, whole.text)
    ensures tag.Length == 16 ==> tag[..] == whole.tag
  {
    ghost var z, m := out.buf[..], inp.Bytes();
    var delta, checksum, tmp := Start(enc, nonce);
    SpliceNothing(z, out.at, whole.text);
    var written := 0;
    while inp.len - written > 16
      invariant written <= inp.len && inp.Bytes() == m
      invariant out.buf[..] == Splice(z, out.at, whole.text[..written])
      invariant SealsTail(enc, whole, written, delta[..], checksum[..], inp.Drop(written).Bytes())
    {
      EncryptStep(enc, delta, checksum, tmp, out, inp, written, z, whole);
      written := written + 16;
    }
    SealsLast(enc, whole, written, delta[..], checksum[..], inp.Drop(written).Bytes());
    EncryptEnd(enc, delta, checksum, tmp, out, inp, tag, written, z, whole);
  }

  method EncryptEnd(enc: Cipher, delta: array<byte>, checksum: array<byte>, tmp: array<byte>, out: Span, inp: Span,
                    tag: array<byte>, written: nat, ghost z: seq<byte>, ghost whole: Sealed)
    requires delta.Length == checksum.Length == tmp.Length == 16 && tag.Length in {0, 16}
    requires Apart(delta, checksum, tmp, tmp) && checksum != tmp
    requires out.Valid() && inp.Valid() && written <= inp.len <= out.len && inp.len - written <= 16
    requires out.buf != inp.buf && tag != out.buf
    requires Apart(out.buf, delta, checksum, tmp) && Apart(inp.buf, delta, checksum, tmp)
    requires Apart(tag, delta, checksum, tmp)
    requires |z| == out.buf.Length && |whole.text| == inp.len
    requires out.buf[..] == Splice(z, out.at, whole.text[..written])
    requires SealsEnd(enc, whole, written, delta[..], checksum[..], inp.Drop(written).Bytes())
    modifies delta, checksum, tmp, out.buf, tag
    ensures out.buf[..] == Splice(z, out.at, whole.text)
    ensures tag.Length == 16 ==> tag[..] == whole.tag
  {
    EncryptLast(enc, delta, checksum, tmp, out.Drop(written), inp.Drop(written), tag);
    RestWritten(z, out.at, whole.text, written, whole.text[written..], out.buf[..]);
  }

  // CryptOCB2::encrypt
  method Encrypt(enc: Cipher, nonce: Block, out: Span, inp: Span, tag: array<byte>) returns (written: nat)
    requires out.Valid() && inp.Valid() && (out.len == 0 || inp.len <= out.len)
    requires out.buf != inp.buf && tag != out.buf
    modifies out.buf, tag
    ensures out.len == 0 ==> written == inp.len
    ensures out.len > 0 && tag.Length !in {0, 16} ==> written == 0
    ensures out.len == 0 || tag.Length !in {0, 16} ==>
              out.buf[..] == old(out.buf[..]) && tag[..] == old(tag[..])
    ensures out.len > 0 && tag.Length in {0, 16} ==>
              var r := Seal(enc, nonce, Flip(old(inp.Bytes())));
              && written == inp.len
              && out.buf[..] == Splice(old(out.buf[..]), out.at, r.text)
              && (tag.Length == 16 ==> tag[..] == r.tag)
  {
    if out.len == 0 {
      return inp.len;
    }
    if tag.Length != 0 && tag.Length != 16 {
      return 0;
    }
    EncryptAll(enc, nonce, out, inp, tag, Seal(enc, nonce, Flip(inp.Bytes())));
    written := inp.len;
  }

  //////////////////////////////////////////////////////////////////////////////
  // Decryption
  //////////////////////////////////////////////////////////////////////////////

  // Decryption may work in place, or write behind the point it reads from.
  ghost predicate Behind(out: Span, inp: Span) {
    out.buf == inp.buf ==> out.at <= inp.at
  }

  // Writing a block leaves what lies ahead of it as it was.
  lemma {:induction false} InputKept(b: seq<byte>, after: seq<byte>, at: nat, p: Block, i: nat, j: nat, same: bool)
    requires i <= j <= |b|
    requires if same then at + 16 <= i && after == Splice(b, at, p) else after == b
    ensures after[i..j] == b[i..j]
  {
    if same {
      SpliceKeeps(b, at, p, i, j);
    }
  }

  lemma {:induction false} HeadWritten(z: seq<byte>, now: seq<byte>, at: nat, len: nat, p: Block)
    requires 16 <= len && at + len <= |z| && now == Splice(z, at, p)
    ensures now[at..at + len][..16] == p
  {
    SpliceIs(z, at, p);
    HeadOfSlice(now, at, len, 16);
    assert now[at..at + 16] == p;
  }

  // A block decrypted between two exclusive-ors with its offset.
  method Unmask(dec: Cipher, delta: array<byte>, tmp: array<byte>, out: Span, inp: Span, ghost c: Block)
    requires delta.Length == tmp.Length == 16 && out.Valid() && inp.Valid() && out.len >= 16 && inp.len >= 16
    requires delta != tmp && out.buf != delta && out.buf != tmp && inp.buf != delta && inp.buf != tmp
    requires c == inp.Bytes()[..16]
    modifies tmp, out.buf
    ensures out.buf[..] == Splice(old(out.buf[..]), out.at, Xor(delta[..], dec(Xor(delta[..], c))))
  {
    XorInput(tmp, delta, inp);
    Process(dec, tmp, tmp);
    XorOutput(out, delta, tmp);
  }

  // One iteration of the decryption loop.
  method DecryptBlock(dec: Cipher, delta: array<byte>, checksum: array<byte>, tmp: array<byte>, out: Span, inp: Span,
                      ghost c: Block)
    requires delta.Length == checksum.Length == tmp.Length == 16
    requires Apart(delta, checksum, tmp, tmp) && checksum != tmp
    requires out.Valid() && inp.Valid() && out.len >= 16 && inp.len >= 16 && Behind(out, inp)
    requires c == inp.Bytes()[..16]
    requires Apart(out.buf, delta, checksum, tmp) && Apart(inp.buf, delta, checksum, tmp)
    modifies delta, checksum, tmp, out.buf
    ensures delta[..] == Double(old(delta[..]))
    ensures var p := Xor(delta[..], dec(Xor(delta[..], c)));
            checksum[..] == Xor(old(checksum[..]), p) && out.buf[..] == Splice(old(out.buf[..]), out.at, p)
    ensures inp.Drop(16).Bytes() == old(inp.Bytes()[16..])
  {
    ghost var b, z := inp.buf[..], out.buf[..];
    S2(delta);
    ghost var p := Xor(delta[..], dec(Xor(delta[..], c)));
    Unmask(dec, delta, tmp, out, inp, c);
    InputKept(b, inp.buf[..], out.at, p, inp.at + 16, inp.at + inp.len, out.buf == inp.buf);
    HeadWritten(z, out.buf[..], out.at, out.len, p);
    XorInput(checksum, checksum, out);
  }

  method DecryptStep(enc: Cipher, dec: Cipher, delta: array<byte>, checksum: array<byte>, tmp: array<byte>,
                     out: Span, inp: Span, written: nat, ghost z: seq<byte>, ghost whole: Opened)
    requires delta.Length == checksum.Length == tmp.Length == 16
    requires Apart(delta, checksum, tmp, tmp) && checksum != tmp
    requires out.Valid() && inp.Valid() && written + 16 < inp.len <= out.len && Behind(out, inp)
    requires Apart(out.buf, delta, checksum, tmp) && Apart(inp.buf, delta, checksum, tmp)
    requires |z| == out.buf.Length && |whole.text| == inp.len
    requires out.buf[..] == Splice(z, out.at, whole.text[..written])
    requires OpensTail(enc, dec, whole, written, delta[..], checksum[..], inp.Drop(written).Bytes())
    modifies delta, checksum, tmp, out.buf
    ensures out.buf[..] == Splice(z, out.at, whole.text[..written + 16])
    ensures OpensTail(enc, dec, whole, written + 16, delta[..], checksum[..], inp.Drop(written + 16).Bytes())
  {
    var i := inp.Drop(written);
    ghost var c := i.Bytes();
    OpenStep(enc, dec, whole, written, delta[..], checksum[..], c);
    SpliceNext(z, out.at, whole.text, written, written + 16);
    DecryptBlock(dec, delta, checksum, tmp, out.Drop(written), i, c[..16]);
    assert i.Drop(16) == inp.Drop(written + 16);
  }

  // The last block decrypted into tmp, its offset into delta and the checksum completed.
  method DecryptLast(enc: Cipher, delta: array<byte>, checksum: array<byte>, tmp: array<byte>, inp: Span)
    requires delta.Length == checksum.Length == tmp.Length == 16
    requires Apart(delta, checksum, tmp, tmp) && checksum != tmp
    requires inp.Valid() && inp.len <= 16 && Apart(inp.buf, delta, checksum, tmp)
    modifies delta, checksum, tmp
    ensures delta[..] == Double(old(delta[..])) && checksum[..] == Xor(old(checksum[..]), tmp[..])
    ensures tmp[..] == Xor(old(inp.Bytes()) + Zeros(16 - inp.len), LastPad(enc, old(delta[..]), inp.len))
  {
    S2(delta);
    Copy(tmp, 0, LengthBlock(inp.len));
    XorBlocks(tmp, tmp, delta);
    var pad := new byte[16];
    Process(enc, pad, tmp);
    FillLast(tmp, inp.Bytes(), Zeros(16 - inp.len));
    XorBlocks(tmp, tmp, pad);
    XorBlocks(checksum, checksum, tmp);
  }

  // Whether the tag, or as much of it as was transmitted, is the one retrieved.
  method TagMatches(enc: Cipher, delta: array<byte>, checksum: array<byte>, tmp: array<byte>, tag: seq<byte>)
    returns (ok: bool)
    requires delta.Length == checksum.Length == tmp.Length == 16 && |tag| <= 16
    requires Apart(delta, checksum, tmp, tmp) && checksum != tmp
    modifies delta, tmp
    ensures ok <==> tag == enc(Xor(Triple(old(delta[..])), old(checksum[..])))[..|tag|]
  {
    if tag == [] {
      return true;
    }
    S3(delta);
    XorBlocks(tmp, delta, checksum);
    var retrieved := new byte[16];
    Process(enc, retrieved, tmp);
    ok := tag == retrieved[..|tag|];
  }

  // CryptOCB2::decrypt
  method Decrypt(enc: Cipher, dec: Cipher, nonce: Block, out: Span, inp: Span, tag: seq<byte>) returns (written: nat)
    requires out.Valid() && inp.Valid() && (out.len == 0 || inp.len <= out.len) && Behind(out, inp)
    requires |tag| <= 16
    modifies out.buf
    ensures out.len == 0 ==> written == inp.len && out.buf[..] == old(out.buf[..])
    ensures out.len > 0 ==>
              var o := Open(enc, dec, nonce, old(inp.Bytes()));
              var t := if o.last == o.offset then o.text[..16 * FullBlocks(inp.len)] else o.text;
              && out.buf[..] == Splice(old(out.buf[..]), out.at, t)
              && written == if Ocb2.Decrypt(enc, dec, nonce, old(inp.Bytes()), tag).Some? then inp.len else 0
  {
    if out.len == 0 {
      return inp.len;
    }
    written := DecryptAll(enc, dec, nonce, out, inp, tag, Open(enc, dec, nonce, inp.Bytes()));
  }

  method DecryptAll(enc: Cipher, dec: Cipher, nonce: Block, out: Span, inp: Span, tag: seq<byte>, ghost whole: Opened)
    returns (written: nat)
    requires out.Valid() && inp.Valid() && inp.len <= out.len && Behind(out, inp)
    requires |tag| <= 16
    requires |whole.text| == inp.len && OpensTail(enc, dec, whole, 0, enc(nonce), Zeros(16), inp.Bytes())
    modifies out.buf
    ensures whole.last == whole.offset ==>
              out.buf[..] == Splice(old(out.buf[..]), out.at, whole.text[..16 * FullBlocks(inp.len)])
    ensures whole.last != whole.offset ==> out.buf[..] == Splice(old(out.buf[..]), out.at, whole.text)
    ensures written == if whole.last == whole.offset || tag != whole.tag[..|tag|] then 0 else inp.len
  {
    ghost var z := out.buf[..];
    var delta, checksum, tmp := Start(enc, nonce);
    var done := DecryptBlocks(enc, dec, delta, checksum, tmp, out, inp, whole);
    OpensLast(enc, dec, whole, done, delta[..], checksum[..], inp.Drop(done).Bytes());
    written := DecryptEnd(enc, delta, checksum, tmp, out, inp, tag, done, z, whole);
  }

  // The decryption loop.
  method DecryptBlocks(enc: Cipher, dec: Cipher, delta: array<byte>, checksum: array<byte>, tmp: array<byte>, out: Span,
                       inp: Span, ghost whole: Opened) returns (done: nat)
    requires delta.Length == checksum.Length == tmp.Length == 16
    requires Apart(delta, checksum, tmp, tmp) && checksum != tmp
    requires out.Valid() && inp.Valid() && inp.len <= out.len && Behind(out, inp)
    requires Apart(out.buf, delta, checksum, tmp) && Apart(inp.buf, delta, checksum, tmp)
    requires |whole.text| == inp.len && OpensTail(enc, dec, whole, 0, delta[..], checksum[..], inp.Bytes())
    modifies delta, checksum, tmp, out.buf
    ensures done == 16 * FullBlocks(inp.len) && done <= inp.len <= done + 16
    ensures out.buf[..] == Splice(old(out.buf[..]), out.at, whole.text[..done])
    ensures OpensTail(enc, dec, whole, done, delta[..], checksum[..], inp.Drop(done).Bytes())
  {
    ghost var z := out.buf[..];
    SpliceNothing(z, out.at, whole.text);
    done := 0;
    ghost var k := 0;
    while inp.len - done > 16
      invariant done == 16 * k <= inp.len && (k > 0 ==> done < inp.len)
      invariant out.buf[..] == Splice(z, out.at, whole.text[..done])
      invariant OpensTail(enc, dec, whole, done, delta[..], checksum[..], inp.Drop(done).Bytes())
    {
      DecryptStep(enc, dec, delta, checksum, tmp, out, inp, done, z, whole);
      done, k := done + 16, k + 1;
    }
    FullBlocksIs(inp.len, k);
  }

  lemma {:induction false} RestWritten(z: seq<byte>, at: nat, text: seq<byte>, done: nat, last: seq<byte>,
                                       now: seq<byte>)
    requires done <= |text| && at + |text| <= |z| && last == text[done..]
    requires now == Splice(Splice(z, at, text[..done]), at + done, last)
    ensures now == Splice(z, at, text)
  {
    SpliceRest(z, at, text, done);
  }

  // What follows the decryption loop.
  method DecryptEnd(enc: Cipher, delta: array<byte>, checksum: array<byte>, tmp: array<byte>, out: Span,
                    inp: Span, tag: seq<byte>, done: nat, ghost z: seq<byte>, ghost whole: Opened)
    returns (written: nat)
    requires delta.Length == checksum.Length == tmp.Length == 16 && |tag| <= 16
    requires Apart(delta, checksum, tmp, tmp) && checksum != tmp
    requires out.Valid() && inp.Valid() && done <= inp.len <= out.len && inp.len - done <= 16
    requires Apart(out.buf, delta, checksum, tmp) && Apart(inp.buf, delta, checksum, tmp)
    requires |z| == out.buf.Length && |whole.text| == inp.len
    requires out.buf[..] == Splice(z, out.at, whole.text[..done])
    requires OpensEnd(enc, whole, done, delta[..], checksum[..], inp.Drop(done).Bytes())
    modifies delta, checksum, tmp, out.buf
    ensures whole.last == whole.offset ==> out.buf[..] == Splice(z, out.at, whole.text[..done])
    ensures whole.last != whole.offset ==> out.buf[..] == Splice(z, out.at, whole.text)
    ensures written == if whole.last == whole.offset || tag != whole.tag[..|tag|] then 0 else inp.len
  {
    DecryptLast(enc, delta, checksum, tmp, inp.Drop(done));
    if tmp[..] == delta[..] {
      return 0;
    }
    written := Conclude(enc, delta, checksum, tmp, out, inp.len, tag, done, z, whole);
  }

  // The last block is written out and the tag compared.
  method Conclude(enc: Cipher, delta: array<byte>, checksum: array<byte>, tmp: array<byte>, out: Span, len: nat,
                  tag: seq<byte>, done: nat, ghost z: seq<byte>, ghost whole: Opened) returns (written: nat)
    requires delta.Length == checksum.Length == tmp.Length == 16 && |tag| <= 16
    requires Apart(delta, checksum, tmp, tmp) && checksum != tmp
    requires out.Valid() && done <= len <= out.len && len - done <= 16 && Apart(out.buf, delta, checksum, tmp)
    requires |z| == out.buf.Length && |whole.text| == len && out.buf[..] == Splice(z, out.at, whole.text[..done])
    requires whole.text[done..] == tmp[..len - done]
    requires whole.tag == enc(Xor(Triple(delta[..]), checksum[..]))
    modifies delta, tmp, out.buf
    ensures out.buf[..] == Splice(z, out.at, whole.text)
    ensures written == if tag != whole.tag[..|tag|] then 0 else len
  {
    var last := tmp[..len - done];
    Copy(out.buf, out.at + done, last);
    RestWritten(z, out.at, whole.text, done, last, out.buf[..]);
    var ok := TagMatches(enc, delta, checksum, tmp, tag);
    written := if ok then len else 0;
  }
}
