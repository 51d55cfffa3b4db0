/** How packs follow each other in the byte stream of a TCP connection: a six-byte header and a body each. */
module Framing {
  import opened Bytes
  import opened BigEndian
  import Nonce

  // sizeof(NetHeader): a 16-bit type and the 32-bit size of the body, in network byte order.
  const HEADER := 6

  // The size field of a header.
  function BodySize(t: seq<byte>): nat
    requires |t| >= HEADER
  {
    Number(t[2..6])
  }

  // A header and a body of the size it says, which a receiver does not turn down.
  ghost predicate IsFrame(t: seq<byte>) {
    |t| >= HEADER && BodySize(t) <= 65535 && |t| == HEADER + BodySize(t)
  }

  ghost predicate AreFrames(packs: seq<seq<byte>>) {
    forall i :: 0 <= i < |packs| ==> IsFrame(packs[i])
  }

  function Concat(packs: seq<seq<byte>>): seq<byte> {
    if packs == [] then [] else Concat(packs[..|packs| - 1]) + packs[|packs| - 1]
  }

  lemma {:induction false} ConcatLast(packs: seq<seq<byte>>, t: seq<byte>)
    ensures Concat(packs + [t]) == Concat(packs) + t
  {
    assert (packs + [t])[..|packs|] == packs;
  }

  lemma {:induction false} ConcatBoth(p: seq<seq<byte>>, q: seq<seq<byte>>)
    ensures Concat(p + q) == Concat(p) + Concat(q)
  {
    if q == [] {
      assert p + q == p;
    } else {
      var r, t := q[..|q| - 1], q[|q| - 1];
      assert p + q == p + r + [t];
      ConcatLast(p + r, t);
      ConcatBoth(p, r);
      Regroup(Concat(p), Concat(r), t);
    }
  }

  lemma {:induction false} ConcatFirst(packs: seq<seq<byte>>)
    requires packs != []
    ensures Concat(packs) == packs[0] + Concat(packs[1..])
  {
    var p, q := [packs[0]], packs[1..];
    assert packs == p + q;
    ConcatBoth(p, q);
    assert p[..0] == [];
    assert Concat(p) == packs[0];
  }

  // The pack of a message: its type, the size of its body and the body.
  function Pack(kind: int, body: seq<byte>): seq<byte> {
    BytesOf(kind, 2) + BytesOf(|body|, 4) + body
  }

  // A pack is a frame exactly when its body has at most 65535 bytes, given that its size fits the header.
  lemma {:induction false} PackIsFrameIff(kind: int, body: seq<byte>)
    requires |body| < 0x1_0000_0000
    ensures IsFrame(Pack(kind, body)) <==> |body| <= 65535
  {
    SizeReadsBack(|body|);
    PackLayout(BytesOf(kind, 2), BytesOf(|body|, 4), body);
  }

  // The first two bytes are the type and the next four the size, most significant byte first, and then comes the body.
  lemma {:induction false} PackIs(kind: int, body: seq<byte>)
    requires |body| < 0x1_0000_0000
    ensures var t := Pack(kind, body);
            && |t| == HEADER + |body| && t[HEADER..] == body
            && 256 * t[0] as int + t[1] as int == kind % 0x1_0000
            && 0x100_0000 * t[2] as int + 0x1_0000 * t[3] as int + 0x100 * t[4] as int + t[5] as int == |body|
  {
    var a, b := BytesOf(kind, 2), BytesOf(|body|, 4);
    SizeReadsBack(|body|);
    NumberOfBytes(kind, 2);
    assert Nonce.Pow256(2) == 0x1_0000;
    NumberOfTwo(a);
    NumberOfFour(b);
    PackLayout(a, b, body);
  }

  lemma {:induction false} NumberOfTwo(t: seq<byte>)
    requires |t| == 2
    ensures Number(t) == 256 * t[0] as int + t[1] as int
  {
    var u := t[..1];
    assert u[..0] == [] && Number(u[..0]) == 0;
    assert Number(u) == t[0] as int;
  }

  lemma {:induction false} NumberOfFour(t: seq<byte>)
    requires |t| == 4
    ensures Number(t) ==
            0x100_0000 * t[0] as int + 0x1_0000 * t[1] as int + 0x100 * t[2] as int + t[3] as int
  {
    NumberOfTwo(t[..2]);
    assert t[..3][..2] == t[..2];
  }

  lemma {:induction false} BodySizeIs(t: seq<byte>)
    requires |t| >= HEADER
    ensures BodySize(t) ==
            0x100_0000 * t[2] as int + 0x1_0000 * t[3] as int + 0x100 * t[4] as int + t[5] as int
  {
    NumberOfFour(t[2..6]);
  }

  lemma {:induction false} SizeReadsBack(n: nat)
    requires n < 0x1_0000_0000
    ensures Number(BytesOf(n, 4)) == n
  {
    NumberOfBytes(n, 4);
    assert Nonce.Pow256(4) == 0x1_0000_0000;
  }

  lemma {:induction false} PackLayout(kind: seq<byte>, size: seq<byte>, body: seq<byte>)
    requires |kind| == 2 && |size| == 4
    ensures var t := kind + size + body; t[..2] == kind && t[2..6] == size && t[6..] == body
  {
    var t := kind + size + body;
    assert t[..2] == kind;
    assert t[2..6] == size;
    assert t[6..] == body;
  }

  // Where a stream begins with a frame, it does so in one way only.
  lemma {:induction false} FirstFrameIsUnique(s: seq<byte>, t: seq<byte>, u: seq<byte>)
    requires IsFrame(t) && IsFrame(u) && t <= s && u <= s
    ensures t == u
  {
    assert t[2..6] == s[2..6] == u[2..6];
  }

  // Of two ways to cut the beginning of a stream into frames one continues the other: what is delivered does not
  // depend on how the stream was cut up on its way.
  lemma {:induction false} FramingIsUnique(s: seq<byte>, p: seq<seq<byte>>, q: seq<seq<byte>>)
    requires AreFrames(p) && AreFrames(q) && Concat(p) <= s && Concat(q) <= s
    ensures p <= q || q <= p
    ensures |Concat(p)| <= |Concat(q)| ==> p <= q
    decreases |p|
  {
    if p != [] && q != [] {
      ConcatFirst(p);
      ConcatFirst(q);
      FirstFrameIsUnique(s, p[0], q[0]);
      var n := |p[0]|;
      RestOfPrefix(p[0], Concat(p[1..]), s);
      RestOfPrefix(q[0], Concat(q[1..]), s);
      FramingIsUnique(s[n..], p[1..], q[1..]);
      assert p == [p[0]] + p[1..] && q == [q[0]] + q[1..];
    } else if q == [] && p != [] {
      ConcatFirst(p);
      assert |Concat(p)| >= |p[0]| > 0;
    }
  }

  lemma {:induction false} RestOfPrefix(a: seq<byte>, b: seq<byte>, s: seq<byte>)
    requires a + b <= s
    ensures b <= s[|a|..]
  {
  }

  // When the packs of one side are cut out of what has arrived at the other, they are the first of those sent, and
  // all of them once all bytes have arrived.
  lemma {:induction false} SentIsDelivered(sent: seq<seq<byte>>, arrived: nat, delivered: seq<seq<byte>>)
    requires AreFrames(sent) && AreFrames(delivered)
    requires arrived <= |Concat(sent)| && Concat(delivered) == Concat(sent)[..arrived]
    ensures delivered <= sent
    ensures arrived == |Concat(sent)| ==> delivered == sent
  {
    FramingIsUnique(Concat(sent), delivered, sent);
    if arrived == |Concat(sent)| {
      FramingIsUnique(Concat(sent), sent, delivered);
    }
  }
}
