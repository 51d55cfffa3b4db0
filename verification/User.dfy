/**
 The UDP crypt session of ExampleServer's `User`. Ghost fields hold the unbounded counters; `Valid` says that
 every stored field is what they determine.
 */
module ExampleServer {
  import opened Bytes
  import opened Nonce
  import opened Ocb2
  import opened Receiver
  import opened Packets
  import Crypt = CryptOCB2

  type uint32 = x: int | 0 <= x < 0x1_0000_0000

  // Adding to a uint32_t counter.
  function Wrap(x: int): uint32 {
    x % 0x1_0000_0000
  }

  // ++ and -- on a uint8_t.
  function Next(x: uint8): uint8 {
    if x == 255 then 0 else x + 1
  }

  function Previous(x: uint8): uint8 {
    if x == 0 then 255 else x - 1
  }

  // Increment the bytes from position `from` on, up to the first that does not wrap.
  method Carry(nonce: array<uint8>, from: nat)
    requires from <= nonce.Length
    modifies nonce
    ensures nonce[..] == old(nonce[..from]) + Inc(old(nonce[from..]))
  {
    ghost var b := nonce[..];
    var i := from;
    while i < nonce.Length
      invariant from <= i <= nonce.Length
      invariant nonce[..i] + Inc(nonce[i..]) == b[..from] + Inc(b[from..])
    {
      ghost var s := nonce[..];
      nonce[i] := Next(nonce[i]);
      IncAt(s, i, nonce[..]);
      if nonce[i] != 0 {
        return;
      }
      i := i + 1;
    }
    assert nonce[..] == nonce[..i] + Inc(nonce[i..]);
  }

  // The nonce of counter c becomes that of the next.
  method Increment(nonce: array<uint8>, ghost c: int)
    requires nonce.Length == 16 && nonce[..] == LeBytes(c, 16)
    modifies nonce
    ensures nonce[..] == LeBytes(c + 1, 16)
  {
    IncIsSuccessor(c, 16);
    assert nonce[0..] == nonce[..];
    Carry(nonce, 0);
  }

  // Decrement the bytes from position `from` on, up to the first that was not 0.
  method Borrow(nonce: array<uint8>, from: nat)
    requires from <= nonce.Length
    modifies nonce
    ensures nonce[..] == old(nonce[..from]) + Dec(old(nonce[from..]))
  {
    ghost var b := nonce[..];
    var i := from;
    while i < nonce.Length
      invariant from <= i <= nonce.Length
      invariant nonce[..i] + Dec(nonce[i..]) == b[..from] + Dec(b[from..])
    {
      ghost var s := nonce[..];
      var was := nonce[i];
      nonce[i] := Previous(was);
      DecAt(s, i, nonce[..]);
      if was != 0 {
        return;
      }
      i := i + 1;
    }
    assert nonce[..] == nonce[..i] + Dec(nonce[i..]);
  }

  datatype Rebuilt = Rejected | InOrder | OutOfOrder(restore: bool, late: int, lost: int)

  // What rebuilding the nonce of a receiver standing at n tells about the packet of counter s.
  function Verdict(n: int, s: int): Rebuilt {
    if s == n + 1 then InOrder
    else if s < n then OutOfOrder(true, 1, -1)
    else OutOfOrder(false, 0, s - n - 1)
  }

  // Replace the low byte of the nonce of counter n, which becomes that of s.
  method SetLow(nonce: array<uint8>, low: uint8, ghost n: int, ghost s: int)
    requires nonce.Length == 16 && nonce[..] == LeBytes(n, 16)
    requires s % 256 == low && s / 256 == n / 256
    modifies nonce
    ensures nonce[..] == LeBytes(s, 16)
  {
    nonce[0] := low;
    assert nonce[..] == [low] + LeBytes(n, 16)[1..];
  }

  method SetLowAndCarry(nonce: array<uint8>, low: uint8, ghost n: int, ghost s: int)
    requires nonce.Length == 16 && nonce[..] == LeBytes(n, 16)
    requires s % 256 == low && s / 256 == n / 256 + 1
    modifies nonce
    ensures nonce[..] == LeBytes(s, 16)
  {
    ghost var h := n / 256;
    FirstAndRest(n, h, 16);
    FirstAndRest(s, h + 1, 16);
    IncIsSuccessor(h, 15);
    nonce[0] := low;
    assert nonce[1..] == LeBytes(n, 16)[1..];
    Carry(nonce, 1);
  }

  method SetLowAndBorrow(nonce: array<uint8>, low: uint8, ghost n: int, ghost s: int)
    requires nonce.Length == 16 && nonce[..] == LeBytes(n, 16)
    requires s % 256 == low && s / 256 == n / 256 - 1
    modifies nonce
    ensures nonce[..] == LeBytes(s, 16)
  {
    ghost var h := n / 256;
    FirstAndRest(n, h, 16);
    FirstAndRest(s, h - 1, 16);
    DecIsPredecessor(h, 15);
    nonce[0] := low;
    assert nonce[1..] == LeBytes(n, 16)[1..];
    Borrow(nonce, 1);
  }

  // The counter d away from n, where the low bytes are d apart, or are once around.
  lemma {:induction false} SameBlock(n: int, b: uint8, d: int)
    requires d == b - n % 256 && (-29 <= d <= -1 || 1 <= d <= 128)
    ensures Candidate(n, b) == Some(n + d) && (n + d) % 256 == b && (n + d) / 256 == n / 256
  {
  }

  lemma {:induction false} NextBlock(n: int, b: uint8, d: int)
    requires d == b - n % 256 + 256 && 1 <= d <= 127
    ensures Candidate(n, b) == Some(n + d) && (n + d) % 256 == b && (n + d) / 256 == n / 256 + 1
  {
    var h := n / 256;
    assert n + d == 256 * (h + 1) + b;
    RemainderIsUnique(b - n, 256, 0 - h - 1, d);
  }

  lemma {:induction false} PreviousBlock(n: int, b: uint8, d: int)
    requires d == b - n % 256 - 256 && -29 <= d <= -1
    ensures Candidate(n, b) == Some(n + d) && (n + d) % 256 == b && (n + d) / 256 == n / 256 - 1
  {
  }

  lemma {:induction false} NoBlock(n: int, b: uint8, d: int)
    requires d == b - n % 256 && !(-29 <= d <= -1) && !(1 <= d <= 128) && !(1 <= d + 256 <= 127) && d - 256 < -29
    ensures Candidate(n, b) == None
  {
  }

  // The nonce of the packet, rebuilt in place from the nonce of counter n and its transmitted byte.
  method Rebuild(nonce: array<uint8>, nonceByte: uint8, ghost n: int) returns (r: Rebuilt)
    requires nonce.Length == 16 && nonce[..] == LeBytes(n, 16)
    modifies nonce
    ensures match Candidate(n, nonceByte)
            case None => r == Rejected && nonce[..] == old(nonce[..])
            case Some(s) => r == Verdict(n, s) && nonce[..] == LeBytes(s, 16)
  {
    ghost var d := nonceByte - n % 256;
    FirstBytes(n);
    assert nonce[0] == n % 256;
    if Next(nonce[0]) == nonceByte {
      // In order.
      if nonceByte > nonce[0] {
        SameBlock(n, nonceByte, d);
        SetLow(nonce, nonceByte, n, n + d);
      } else {
        NextBlock(n, nonceByte, d + 256);
        SetLowAndCarry(nonce, nonceByte, n, n + d + 256);
      }
      return InOrder;
    }
    r := RebuildOutOfOrder(nonce, nonceByte, n);
  }

  method RebuildOutOfOrder(nonce: array<uint8>, nonceByte: uint8, ghost n: int) returns (r: Rebuilt)
    requires nonce.Length == 16 && nonce[..] == LeBytes(n, 16) && Next(nonce[0]) != nonceByte
    modifies nonce
    ensures match Candidate(n, nonceByte)
            case None => r == Rejected && nonce[..] == old(nonce[..])
            case Some(s) => r == Verdict(n, s) && nonce[..] == LeBytes(s, 16)
  {
    ghost var d := nonceByte - n % 256;
    FirstBytes(n);
    assert nonce[0] == n % 256;
    var diff := nonceByte - nonce[0];
    if diff > 128 {
      diff := diff - 256;
    } else if diff < -128 {
      diff := diff + 256;
    }
    if nonceByte < nonce[0] && -30 < diff < 0 {
      // Late, no wrap-around.
      SameBlock(n, nonceByte, d);
      SetLow(nonce, nonceByte, n, n + d);
      return OutOfOrder(true, 1, -1);
    } else if nonceByte > nonce[0] && -30 < diff < 0 {
      // Late, from before the low byte wrapped.
      PreviousBlock(n, nonceByte, d - 256);
      SetLowAndBorrow(nonce, nonceByte, n, n + d - 256);
      return OutOfOrder(true, 1, -1);
    } else if nonceByte > nonce[0] && diff > 0 {
      // A few packets were lost.
      var lost := nonceByte - nonce[0] - 1;
      SameBlock(n, nonceByte, d);
      SetLow(nonce, nonceByte, n, n + d);
      return OutOfOrder(false, 0, lost);
    } else if nonceByte < nonce[0] && diff > 0 {
      // A few packets were lost, and the low byte wrapped.
      var lost := 256 - nonce[0] + nonceByte - 1;
      NextBlock(n, nonceByte, d + 256);
      SetLowAndCarry(nonce, nonceByte, n, n + d + 256);
      return OutOfOrder(false, 0, lost);
    }
    NoBlock(n, nonceByte, d);
    return Rejected;
  }

  lemma {:induction false} WrapAdds(x: int, y: int)
    ensures Wrap(x % 0x1_0000_0000 + y) == (x + y) % 0x1_0000_0000
  {
  }

  method Restore(nonce: array<uint8>, s: seq<uint8>)
    requires |s| == nonce.Length
    modifies nonce
    ensures nonce[..] == s
  {
    forall i | 0 <= i < nonce.Length {
      nonce[i] := s[i];
    }
  }

  class User {
    const enc: Cipher
    const dec: Cipher
    const decryptNonce: array<uint8>
    const encryptNonce: array<uint8>
    const decryptHistory: array<uint8>
    var good: uint32
    var late: uint32
    var lost: uint32
    // The counters the two nonces started from, those accepted since, and the last one used to encrypt.
    ghost const start: int
    ghost var log: seq<int>
    ghost var sent: int

    ghost predicate Valid()
      reads this, decryptNonce, encryptNonce, decryptHistory
    {
      && Shapes()
      && Reachable(start, log)
      && decryptNonce[..] == LeBytes(Peak(start, log), 16)
      && encryptNonce[..] == LeBytes(sent, 16)
      && HistoryIs(decryptHistory[..], log)
      && CountersAre(log)
    }

    static ghost predicate HistoryIs(history: seq<uint8>, log: seq<int>) {
      |history| == 256 && forall b: uint8 :: history[b] == Slot(log, b)
    }

    // Key and nonces are generated by the cipher object.
    constructor (enc: Cipher, dec: Cipher, decryptStart: seq<uint8>, encryptStart: seq<uint8>)
      requires |decryptStart| == |encryptStart| == 16
      ensures Valid() && fresh(decryptNonce) && fresh(encryptNonce) && fresh(decryptHistory)
      ensures this.enc == enc && this.dec == dec && log == []
      ensures start == Value(decryptStart) && sent == Value(encryptStart)
    {
      this.enc, this.dec := enc, dec;
      good, late, lost := 0, 0, 0;
      start, log, sent := Value(decryptStart), [], Value(encryptStart);
      decryptHistory := new uint8[256](_ => 0);
      decryptNonce := new uint8[16](i requires 0 <= i < 16 => decryptStart[i]);
      encryptNonce := new uint8[16](i requires 0 <= i < 16 => encryptStart[i]);
      new;
      BytesOfValue(decryptStart);
      BytesOfValue(encryptStart);
    }

    ghost predicate Shapes() {
      && decryptNonce.Length == encryptNonce.Length == 16 && decryptHistory.Length == 256
      && decryptNonce != encryptNonce && decryptNonce != decryptHistory && encryptNonce != decryptHistory
    }

    // A caller's buffer is not one of the user's own.
    ghost predicate Foreign(buf: array<byte>) {
      buf as object != decryptNonce && buf as object != encryptNonce && buf as object != decryptHistory
    }

    ghost predicate CountersAre(log: seq<int>)
      reads this
    {
      && good == |log| % 0x1_0000_0000
      && late == LateCount(start, log) % 0x1_0000_0000
      && lost == LostCount(start, log) % 0x1_0000_0000
    }

    // Enter the packet whose nonce the receiver stands at into the history.
    method Record(ghost s: int)
      requires Shapes() && decryptNonce[..] == LeBytes(s, 16) && HistoryIs(decryptHistory[..], log)
      modifies decryptHistory
      ensures HistoryIs(decryptHistory[..], log + [s])
    {
      Appended(start, log, s);
      FirstBytes(s);
      decryptHistory[decryptNonce[0]] := decryptNonce[1];
    }

    method Count(r: Rebuilt, ghost s: int)
      requires Admits(start, log, s) && r == Verdict(Peak(start, log), s) && CountersAre(log)
      modifies this`good, this`late, this`lost
      ensures CountersAre(log + [s])
    {
      Appended(start, log, s);
      ReconstructionIff(Peak(start, log), s % 256, s);
      WrapAdds(|log|, 1);
      good := Wrap(good + 1);
      if r.OutOfOrder? {
        WrapAdds(LateCount(start, log), r.late);
        WrapAdds(LostCount(start, log), r.lost);
        late := Wrap(late + r.late);
        lost := Wrap(lost + r.lost);
      }
    }

    // The nonce has been rebuilt to that of counter s and the packet not yet accepted.
    ghost predicate Pending(r: Rebuilt, previous: seq<uint8>, s: int)
      reads this, decryptNonce, encryptNonce, decryptHistory
    {
      && Shapes() && HistoryIs(decryptHistory[..], log) && CountersAre(log) && Reachable(start, log)
      && encryptNonce[..] == LeBytes(sent, 16)
      && Candidate(Peak(start, log), s % 256) == Some(s) && r == Verdict(Peak(start, log), s)
      && decryptNonce[..] == LeBytes(s, 16) && previous == LeBytes(Peak(start, log), 16)
    }

    // What the receiver does once a packet is decrypted.
    method Accept(r: Rebuilt, previous: seq<uint8>, ghost s: int)
      requires Pending(r, previous, s) && Admits(start, log, s)
      modifies this`good, this`late, this`lost, this`log, decryptNonce, decryptHistory
      ensures Valid() && log == old(log) + [s]
    {
      Appended(start, log, s);
      ReconstructionIff(Peak(start, log), s % 256, s);
      Record(s);
      if r.OutOfOrder? && r.restore {
        Restore(decryptNonce, previous);
      }
      Count(r, s);
      log := log + [s];
    }

    // Whether the history holds the rebuilt nonce, looked up only off the in-order path.
    method IsRepeat(r: Rebuilt, previous: seq<uint8>, ghost s: int) returns (repeat: bool)
      requires Pending(r, previous, s)
      ensures repeat <==> Refused(Peak(start, log), log, s)
    {
      FirstBytes(s);
      repeat := r.OutOfOrder? && decryptHistory[decryptNonce[0]] == decryptNonce[1];
    }

    // User::decrypt once the nonce is rebuilt.
    method DecryptAt(out: array<byte>, inp: array<byte>, r: Rebuilt, previous: seq<uint8>, ghost s: int)
      returns (written: nat)
      requires Pending(r, previous, s)
      requires Foreign(out) && Foreign(inp) && out != inp && out.Length > 0 && 4 <= inp.Length <= out.Length + 4
      modifies this`good, this`late, this`lost, this`log, decryptNonce, decryptHistory, out
      ensures Valid()
      ensures var m := if Refused(Peak(start, old(log)), old(log), s) then None else Unseal(enc, dec, s, old(inp[..]));
              match m
              case None => written == 0 && log == old(log)
              case Some(m) => log == old(log) + [s] && written == |m| && out[..] == Splice(old(out[..]), 0, m)
      ensures Refused(Peak(start, old(log)), old(log), s) ==> out[..] == old(out[..])
    {
      var repeat := IsRepeat(r, previous, s);
      if repeat {
        Restore(decryptNonce, previous);
        return 0;
      }
      ghost var m := Unseal(enc, dec, s, inp[..]);
      written := UnsealInto(enc, dec, AsBlock(decryptNonce[..]), out, inp, s);
      if written == 0 {
        Restore(decryptNonce, previous);
        return 0;
      }
      Accept(r, previous, s);
    }

    // User::decrypt
    method Decrypt(out: array<byte>, inp: array<byte>) returns (written: nat)
      requires Valid()
      requires Foreign(out) && Foreign(inp) && out != inp && out.Length > 0 && inp.Length <= out.Length + 4
      modifies this`good, this`late, this`lost, this`log, decryptNonce, decryptHistory, out
      ensures Valid()
      ensures match Receive(enc, dec, start, old(log), old(inp[..]))
              case None => written == 0 && log == old(log)
              case Some(d) =>
                && log == old(log) + [d.counter]
                && written == |d.message|
                && out[..] == Splice(old(out[..]), 0, d.message)
      ensures Admitted(start, old(log), old(inp[..])).None? ==> out[..] == old(out[..])
    {
      if inp.Length < 4 {
        return 0;
      }
      var nonceByte: uint8 := inp[0] as int;
      var previous := decryptNonce[..];
      var r := Rebuild(decryptNonce, nonceByte, Peak(start, log));
      if r == Rejected {
        return 0;
      }
      ghost var s := Candidate(Peak(start, log), nonceByte).value;
      ReconstructionIff(Peak(start, log), nonceByte, s);
      written := DecryptAt(out, inp, r, previous, s);
    }

    // User::encrypt
    method Encrypt(out: array<byte>, inp: array<byte>) returns (written: nat)
      requires Valid()
      requires Foreign(out) && Foreign(inp) && out != inp
      requires out.Length <= 4 || inp.Length > 1020 || inp.Length + 4 <= out.Length
      modifies this`sent, encryptNonce, out
      ensures Valid()
      ensures sent == if out.Length < 4 || inp.Length > 1020 then old(sent) else old(sent) + 1
      ensures if out.Length <= 4 || inp.Length > 1020 || inp.Length == 0
              then written == 0 && out[..] == old(out[..])
              else written == inp.Length + 4
                   && out[..] == Splice(old(out[..]), 0, Packet(enc, sent, old(inp[..])))
    {
      if out.Length < 4 || inp.Length > 1020 {
        return 0;
      }
      Increment(encryptNonce, sent);
      sent := sent + 1;
      if out.Length == 4 {
        return 0;
      }
      written := SealInto(enc, AsBlock(encryptNonce[..]), encryptNonce[0], out, inp, sent);
    }
  }

  // The statistics in every state a user can come to: good and lost add up to the distance travelled, late counts the
  // packets that came after one with a higher counter or from before the start, and lost the counters missing less the
  // packets from before the start, all modulo 2^32.
  lemma {:induction false} Statistics(u: User)
    requires u.Valid()
    ensures u.good == |u.log| % 0x1_0000_0000
    ensures (u.good + u.lost) % 0x1_0000_0000 == (Peak(u.start, u.log) - u.start) % 0x1_0000_0000
    ensures u.late == |LateOnes(u.start, u.log)| % 0x1_0000_0000
    ensures u.lost == (|Missing(u.start, u.log)| - |EarlyOnes(u.start, u.log)|) % 0x1_0000_0000
  {
    LateCountIs(u.start, u.log);
    EarlyCountIs(u.start, u.log);
    LostIsMissing(u.start, u.log);
    SumsWrap(|u.log|, LostCount(u.start, u.log));
  }

  lemma {:induction false} SumsWrap(x: int, y: int)
    ensures (x % 0x1_0000_0000 + y % 0x1_0000_0000) % 0x1_0000_0000 == (x + y) % 0x1_0000_0000
  {
  }

  // The encryption of the packet of counter s.
  method SealInto(enc: Cipher, nonce: Block, low: uint8, out: array<byte>, inp: array<byte>, ghost s: int)
    returns (written: nat)
    requires out != inp && out.Length > 4 && inp.Length + 4 <= out.Length
    requires nonce == NonceBlock(s) && low == LeBytes(s, 16)[0]
    modifies out
    ensures if inp.Length == 0 then written == 0 && out[..] == old(out[..])
            else written == inp.Length + 4 && out[..] == Splice(old(out[..]), 0, Packet(enc, s, old(inp[..])))
  {
    ghost var z, m := out[..], inp[..];
    ghost var sealed := Seal(enc, nonce, Flip(m));
    var tag := new byte[16];
    assert inp[0..inp.Length] == m;
    written := Crypt.Encrypt(enc, nonce, Span(out, 4, out.Length - 4), Span(inp, 0, inp.Length), tag);
    if written == 0 {
      return 0;
    }
    FirstBytes(s);
    out[0] := low as byte;
    Copy(out, 1, tag[..3]);
    HeaderAndText(z, out[..], sealed.text, (s % 256) as byte, sealed.tag[..3]);
    written := written + 4;
  }

  // Writing the text past the header and then the header writes the packet.
  lemma {:induction false} HeaderAndText(z: seq<byte>, r: seq<byte>, text: seq<byte>, low: byte, tag: seq<byte>)
    requires |tag| == 3 && |text| + 4 <= |z|
    requires r == Splice(Splice(z, 4, text)[0 := low], 1, tag)
    ensures r == Splice(z, 0, [low] + tag + text)
  {
    var a, rest := Splice(z, 4, text), z[4 + |text|..];
    var b := a[0 := low];
    SpliceIs(z, 4, text);
    assert a[4..] == text + rest;
    SpliceIs(b, 1, tag);
    assert b[..1] == [low] && b[4..] == a[4..];
    SpliceIs(z, 0, [low] + tag + text);
    Reassociate([low], tag, text, rest);
  }

  lemma {:induction false} Reassociate(a: seq<byte>, b: seq<byte>, c: seq<byte>, d: seq<byte>)
    ensures a + b + (c + d) == (a + b + c) + d == [] + (a + b + c) + d
  {
  }

  // The decryption of the packet of counter s: past the nonce byte and the tag, checked against three bytes of it.
  method UnsealInto(enc: Cipher, dec: Cipher, nonce: Block, out: array<byte>, inp: array<byte>, ghost s: int)
    returns (written: nat)
    requires out != inp && out.Length > 0 && 4 <= inp.Length <= out.Length + 4 && nonce == NonceBlock(s)
    modifies out
    ensures match Unseal(enc, dec, s, inp[..])
            case None => written == 0
            case Some(m) => written == |m| > 0 && out[..] == Splice(old(out[..]), 0, m)
  {
    var encrypted := Span(inp, 4, inp.Length - 4);
    assert encrypted.Bytes() == inp[..][4..] && inp[1..4] == inp[..][1..4];
    ghost var c := inp[..][4..];
    written := Crypt.Decrypt(enc, dec, nonce, Span(out, 0, out.Length), encrypted, inp[1..4]);
    assert |Open(enc, dec, nonce, c).text| == |c|;
  }
}
