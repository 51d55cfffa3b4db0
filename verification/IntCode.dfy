/**
 The variable-length code of 64-bit integers: one to five or nine bytes, short negative numbers complemented. The
 decoder accepts more than the encoder produces.
 */
module IntCode {
  import opened Bytes

  // std::byte(v), which keeps the low byte.
  function Low(v: bv64): byte {
    (v & 0xFF) as byte
  }

  // The n low-order bytes of v, most significant first.
  function Tail(v: bv64, n: nat): (t: seq<byte>)
    ensures |t| == n
    decreases n
  {
    if n == 0 then [] else Tail(v >> 8, n - 1) + [Low(v)]
  }

  // The forms without a sign.
  function Plain(v: bv64): (t: seq<byte>)
    ensures 1 <= |t| <= 9
  {
    if v < 0x80 then [Low(v)]
    else if v < 0x4000 then [Low((v >> 8) | 0x80)] + Tail(v, 1)
    else if v < 0x20_0000 then [Low((v >> 16) | 0xC0)] + Tail(v, 2)
    else if v < 0x1000_0000 then [Low((v >> 24) | 0xE0)] + Tail(v, 3)
    else if v < 0x1_0000_0000 then [0xF0] + Tail(v, 4)
    else [0xF4] + Tail(v, 8)
  }

  // -1 to -2^32 in two's complement.
  predicate ShortNegative(v: bv64) {
    v & 0x8000_0000_0000_0000 != 0 && !v < 0x1_0000_0000
  }

  function Encode(v: bv64): (t: seq<byte>)
    ensures 1 <= |t| <= 9
  {
    if ShortNegative(v) then
      if !v <= 3 then [Low(0xFC | !v)] else [0xF8] + Plain(!v)
    else Plain(v)
  }

  // A value read, what is left to read and whether there were bytes enough.
  datatype Got<T> = Got(value: T, rest: seq<byte>, ok: bool)

  type Decoded = Got<bv64>

  function Front(s: seq<byte>): Got<byte> {
    if s == [] then Got(0, [], false) else Got(s[0], s[1..], true)
  }

  // u with the bits of some bytes appended.
  function Collect(u: bv64, t: seq<byte>): bv64 {
    if t == [] then u else (Collect(u, t[..|t| - 1]) << 8) | (t[|t| - 1] as bv64)
  }

  // The next n bytes, zeros for those that are missing.
  function Padded(s: seq<byte>, n: nat): (t: seq<byte>)
    ensures |t| == n
  {
    if n <= |s| then s[..n] else s + Zeros(n - |s|)
  }

  // Appends the next n bytes to the bits of u.
  function Read(u: bv64, s: seq<byte>, n: nat): Decoded {
    Got(Collect(u, Padded(s, n)), if n <= |s| then s[n..] else [], n <= |s|)
  }

  // What the first byte of an encoding says: all of the value, the high bits of a value of which n bytes follow, or
  // that the complement of the value follows.
  datatype Form = Whole(value: bv64) | Partial(high: bv64, n: nat) | Complement

  function Marked(first: bv64): Form {
    match first & 0xFC
    case 0xF0 => Partial(0, 4)
    case 0xF4 => Partial(0, 8)
    case 0xF8 => Complement
    case _ => Whole(!(first & 3))
  }

  function Head(first: bv64): Form {
    if first & 0x80 == 0 then Whole(first & 0x7F)
    else if first & 0xC0 == 0x80 then Partial(first & 0x3F, 1)
    else if first & 0xF0 == 0xF0 then Marked(first)
    else if first & 0xF0 == 0xE0 then Partial(first & 0x0F, 3)
    else Partial(first & 0x1F, 2)
  }

  function Negated(d: Decoded): Decoded {
    d.(value := !d.value)
  }

  // The recursion terminates on every input.
  function Decode(s: seq<byte>): (d: Decoded)
    ensures |d.rest| <= |s|
    decreases |s|, 0
  {
    if s == [] then Got(0, [], false) else DecodeAfter(Head(s[0] as bv64), s[1..])
  }

  function DecodeAfter(f: Form, s: seq<byte>): (d: Decoded)
    ensures |d.rest| <= |s|
    decreases |s|, 1
  {
    match f
    case Whole(value) => Got(value, s, true)
    case Partial(high, n) => Read(high, s, n)
    case Complement => Negated(Decode(s))
  }

  // Decoding stays inside the input and gets ahead unless it is at the end; it fails only at the end.
  lemma {:induction false} DecodeAdvances(s: seq<byte>)
    ensures var d := Decode(s);
            && d.rest == s[|s| - |d.rest|..]
            && (s != [] ==> |d.rest| < |s|)
            && (!d.ok ==> d.rest == [])
    decreases |s|, 0
  {
    if s != [] {
      DecodeAfterAdvances(Head(s[0] as bv64), s[1..]);
    }
  }

  lemma {:induction false} DecodeAfterAdvances(f: Form, s: seq<byte>)
    ensures var d := DecodeAfter(f, s); d.rest == s[|s| - |d.rest|..] && (!d.ok ==> d.rest == [])
    decreases |s|, 1
  {
    if f.Complement? {
      DecodeAdvances(s);
    }
  }

  lemma {:induction false} CollectOne(u: bv64, b: byte)
    ensures Collect(u, [b]) == (u << 8) | (b as bv64)
  {
  }

  // Reading in two parts.
  lemma {:induction false} CollectOfBoth(u: bv64, s: seq<byte>, t: seq<byte>)
    ensures Collect(u, s + t) == Collect(Collect(u, s), t)
  {
    if t == [] {
      assert s + t == s;
    } else {
      var n := |t| - 1;
      CollectOfBoth(u, s, t[..n]);
      assert (s + t)[..|s + t| - 1] == s + t[..n];
    }
  }

  lemma {:induction false} PaddedParts(s: seq<byte>, n: nat, m: nat)
    ensures Padded(s, n + m) == Padded(s, n) + Padded(if n <= |s| then s[n..] else [], m)
  {
    if n + m <= |s| {
      PaddedInside(s, n, m);
    } else if n <= |s| {
      PaddedAcross(s, n, m);
    } else {
      PaddedBeyond(s, n, m);
    }
  }

  lemma {:induction false} PaddedInside(s: seq<byte>, n: nat, m: nat)
    requires n + m <= |s|
    ensures Padded(s, n + m) == Padded(s, n) + Padded(s[n..], m)
  {
    assert s[..n + m] == s[..n] + s[n..][..m];
  }

  lemma {:induction false} PaddedAcross(s: seq<byte>, n: nat, m: nat)
    requires n <= |s| < n + m
    ensures Padded(s, n + m) == Padded(s, n) + Padded(s[n..], m)
  {
    Regroup(s[..n], s[n..], Zeros(n + m - |s|));
    assert s == s[..n] + s[n..];
  }

  lemma {:induction false} PaddedBeyond(s: seq<byte>, n: nat, m: nat)
    requires |s| < n
    ensures Padded(s, n + m) == Padded(s, n) + Padded([], m)
  {
    var k := n - |s|;
    ZerosParts(k, m);
    Regroup(s, Zeros(k), Zeros(m));
    NothingPadded(m);
    assert Padded(s, n + m) == s + Zeros(k + m);
  }

  lemma {:induction false} NothingPadded(m: nat)
    ensures Padded([], m) == Zeros(m)
  {
  }

  lemma {:induction false} ZerosParts(n: nat, m: nat)
    ensures Zeros(n + m) == Zeros(n) + Zeros(m)
  {
    if n > 0 {
      ZerosParts(n - 1, m);
    }
  }

  lemma {:induction false} ReadStep(u: bv64, s: seq<byte>, n: nat, d: Decoded, e: Got<byte>)
    requires d == Read(u, s, n) && e == Front(d.rest)
    ensures Read(u, s, n + 1) == Got(Collect(d.value, [e.value]), e.rest, d.ok && e.ok)
  {
    PaddedParts(s, n, 1);
    CollectOfBoth(u, Padded(s, n), [e.value]);
    PaddedOne(d.rest);
  }

  lemma {:induction false} PaddedOne(s: seq<byte>)
    ensures Padded(s, 1) == [Front(s).value]
  {
  }

  //////////////////////////////////////////////////////////////////////////////
  // Round trip
  //////////////////////////////////////////////////////////////////////////////

  lemma {:induction false} ReadOfTail(u: bv64, v: bv64, n: nat, s: seq<byte>)
    ensures Read(u, Tail(v, n) + s, n) == Got(Collect(u, Tail(v, n)), s, true)
  {
  }

  // What the bytes of the tail of v appended to u give.
  function Join(u: bv64, v: bv64, n: nat): bv64
    decreases n
  {
    if n == 0 then u else (Join(u, v >> 8, n - 1) << 8) | (Low(v) as bv64)
  }

  lemma {:induction false} CollectLast(u: bv64, t: seq<byte>, b: byte, w: bv64)
    requires Collect(u, t) == w
    ensures Collect(u, t + [b]) == (w << 8) | (b as bv64)
  {
  }

  lemma {:induction false} CollectOfTail(u: bv64, v: bv64, n: nat)
    ensures Collect(u, Tail(v, n)) == Join(u, v, n)
    decreases n
  {
    if n > 0 {
      CollectOfTail(u, v >> 8, n - 1);
      CollectLast(u, Tail(v >> 8, n - 1), Low(v), Join(u, v >> 8, n - 1));
    }
  }

  lemma {:induction false} JoinTwo(v: bv64)
    ensures Join(v >> 8, v, 1) == v
  {
  }

  lemma {:induction false} JoinThree(v: bv64)
    ensures Join(v >> 16, v, 2) == v
  {
  }

  lemma {:induction false} JoinFour(v: bv64)
    ensures Join(v >> 24, v, 3) == v
  {
  }

  lemma {:induction false} JoinFive(v: bv64)
    requires v < 0x1_0000_0000
    ensures Join(0, v, 4) == v
  {
  }

  lemma {:induction false} JoinNine(v: bv64)
    ensures Join(0, v, 8) == v
  {
  }

  lemma {:induction false} FirstByte(v: bv64)
    ensures v < 0x80 ==> Head(Low(v) as bv64) == Whole(v)
    ensures 0x80 <= v < 0x4000 ==> Head(Low((v >> 8) | 0x80) as bv64) == Partial(v >> 8, 1)
    ensures 0x4000 <= v < 0x20_0000 ==> Head(Low((v >> 16) | 0xC0) as bv64) == Partial(v >> 16, 2)
    ensures 0x20_0000 <= v < 0x1000_0000 ==> Head(Low((v >> 24) | 0xE0) as bv64) == Partial(v >> 24, 3)
    ensures v <= 3 ==> Head(Low(0xFC | v) as bv64) == Whole(!v)
  {
  }

  lemma {:induction false} DecodeHead(b: byte, s: seq<byte>)
    ensures Decode([b] + s) == DecodeAfter(Head(b as bv64), s)
  {
  }

  lemma {:induction false} DecodeTwo(v: bv64, s: seq<byte>)
    requires 0x80 <= v < 0x4000
    ensures Decode([Low((v >> 8) | 0x80)] + (Tail(v, 1) + s)) == Got(v, s, true)
  {
    FirstByte(v);
    ReadOfTail(v >> 8, v, 1, s);
    CollectOfTail(v >> 8, v, 1);
    JoinTwo(v);
    DecodeHead(Low((v >> 8) | 0x80), Tail(v, 1) + s);
  }

  lemma {:induction false} DecodeThree(v: bv64, s: seq<byte>)
    requires 0x4000 <= v < 0x20_0000
    ensures Decode([Low((v >> 16) | 0xC0)] + (Tail(v, 2) + s)) == Got(v, s, true)
  {
    FirstByte(v);
    ReadOfTail(v >> 16, v, 2, s);
    CollectOfTail(v >> 16, v, 2);
    JoinThree(v);
    DecodeHead(Low((v >> 16) | 0xC0), Tail(v, 2) + s);
  }

  lemma {:induction false} DecodeFour(v: bv64, s: seq<byte>)
    requires 0x20_0000 <= v < 0x1000_0000
    ensures Decode([Low((v >> 24) | 0xE0)] + (Tail(v, 3) + s)) == Got(v, s, true)
  {
    FirstByte(v);
    ReadOfTail(v >> 24, v, 3, s);
    CollectOfTail(v >> 24, v, 3);
    JoinFour(v);
    DecodeHead(Low((v >> 24) | 0xE0), Tail(v, 3) + s);
  }

  lemma {:induction false} DecodeFive(v: bv64, s: seq<byte>)
    requires v < 0x1_0000_0000
    ensures Decode([0xF0] + (Tail(v, 4) + s)) == Got(v, s, true)
  {
    ReadOfTail(0, v, 4, s);
    CollectOfTail(0, v, 4);
    JoinFive(v);
    DecodeHead(0xF0, Tail(v, 4) + s);
  }

  lemma {:induction false} DecodeNine(v: bv64, s: seq<byte>)
    ensures Decode([0xF4] + (Tail(v, 8) + s)) == Got(v, s, true)
  {
    ReadOfTail(0, v, 8, s);
    CollectOfTail(0, v, 8);
    JoinNine(v);
    DecodeHead(0xF4, Tail(v, 8) + s);
  }

  lemma {:induction false} RoundTripPlain(v: bv64, s: seq<byte>)
    ensures Decode(Plain(v) + s) == Got(v, s, true)
  {
    if v < 0x80 {
      FirstByte(v);
      DecodeHead(Low(v), s);
    } else if v < 0x4000 {
      DecodeTwo(v, s);
      Regroup([Low((v >> 8) | 0x80)], Tail(v, 1), s);
    } else if v < 0x20_0000 {
      DecodeThree(v, s);
      Regroup([Low((v >> 16) | 0xC0)], Tail(v, 2), s);
    } else if v < 0x1000_0000 {
      DecodeFour(v, s);
      Regroup([Low((v >> 24) | 0xE0)], Tail(v, 3), s);
    } else if v < 0x1_0000_0000 {
      DecodeFive(v, s);
      Regroup([0xF0], Tail(v, 4), s);
    } else {
      DecodeNine(v, s);
      Regroup([0xF4], Tail(v, 8), s);
    }
  }

  lemma {:induction false} DecodePrefix(s: seq<byte>)
    ensures Decode([0xF8] + s) == Negated(Decode(s))
  {
  }

  lemma {:induction false} RoundTripNegative(w: bv64, s: seq<byte>)
    ensures Decode([0xF8] + Plain(w) + s) == Got(!w, s, true)
  {
    var t := Plain(w);
    RoundTripPlain(w, s);
    DecodeNegative(w, t + s, s);
    Regroup([0xF8], t, s);
  }

  lemma {:induction false} DecodeNegative(w: bv64, t: seq<byte>, s: seq<byte>)
    requires Decode(t) == Got(w, s, true)
    ensures Decode([0xF8] + t) == Got(!w, s, true)
  {
    DecodePrefix(t);
  }

  // Whatever follows, decoding an encoding gives the value back, leaves what follows and succeeds.
  lemma {:induction false} RoundTrip(v: bv64, s: seq<byte>)
    ensures Decode(Encode(v) + s) == Got(v, s, true)
  {
    var w := !v;
    assert !w == v;
    if !ShortNegative(v) {
      RoundTripPlain(v, s);
    } else if w <= 3 {
      FirstByte(w);
      DecodeHead(Low(0xFC | w), s);
    } else {
      RoundTripNegative(w, s);
    }
  }

  //////////////////////////////////////////////////////////////////////////////
  // The decoder on other input
  //////////////////////////////////////////////////////////////////////////////

  function Prefixes(k: nat): (t: seq<byte>)
    ensures |t| == k
  {
    if k == 0 then [] else Prefixes(k - 1) + [0xF8]
  }

  function Complements(k: nat, d: Decoded): Decoded {
    if k == 0 then d else Complements(k - 1, Negated(d))
  }

  // A chain of k complement prefixes gives the k-fold complement of what follows.
  lemma {:induction false} ComplementChain(k: nat, s: seq<byte>)
    ensures Decode(Prefixes(k) + s) == Complements(k, Decode(s))
  {
    if k == 0 {
      assert Prefixes(0) + s == s;
    } else {
      DecodePrefix(s);
      ComplementChain(k - 1, [0xF8] + s);
      assert Prefixes(k) + s == Prefixes(k - 1) + ([0xF8] + s);
    }
  }

  lemma {:induction false} ComplementTwice(d: Decoded)
    ensures Negated(Negated(d)) == d
  {
  }

  // Which is the value itself or its complement as k is even or odd.
  lemma {:induction false} ComplementsIs(k: nat, d: Decoded)
    ensures Complements(k, d) == if k % 2 == 0 then d else Negated(d)
  {
    if k > 0 {
      ComplementsIs(k - 1, Negated(d));
      ComplementTwice(d);
    }
  }

  lemma {:induction false} ReadMore(u: bv64, s: seq<byte>, t: seq<byte>, n: nat)
    requires n <= |s|
    ensures Read(u, s + t, n) == Got(Read(u, s, n).value, Read(u, s, n).rest + t, true)
  {
    assert (s + t)[..n] == s[..n] && (s + t)[n..] == s[n..] + t;
  }

  // A value read in full does not depend on what follows it.
  lemma {:induction false} DecodeMore(s: seq<byte>, t: seq<byte>)
    requires Decode(s).ok
    ensures Decode(s + t) == Decode(s).(rest := Decode(s).rest + t)
    decreases |s|, 0
  {
    assert s + t == [s[0]] + (s[1..] + t);
    DecodeHead(s[0], s[1..] + t);
    DecodeAfterMore(Head(s[0] as bv64), s[1..], t);
  }

  lemma {:induction false} DecodeAfterMore(f: Form, s: seq<byte>, t: seq<byte>)
    requires DecodeAfter(f, s).ok
    ensures DecodeAfter(f, s + t) == DecodeAfter(f, s).(rest := DecodeAfter(f, s).rest + t)
    decreases |s|, 1
  {
    match f
    case Whole(_) =>
    case Partial(high, n) => ReadMore(high, s, t, n);
    case Complement => DecodeMore(s, t);
  }

  // No encoding is a proper prefix of another, and a truncated encoding is not taken for a value.
  lemma {:induction false} PrefixFree(v: bv64, w: bv64, t: seq<byte>)
    requires Encode(v) + t == Encode(w)
    ensures v == w && t == []
  {
    RoundTrip(v, t);
    RoundTrip(w, []);
    assert Encode(w) + [] == Encode(w);
  }

  lemma {:induction false} TruncatedFails(v: bv64, k: nat)
    requires k < |Encode(v)|
    ensures !Decode(Encode(v)[..k]).ok
  {
    var s, t := Encode(v)[..k], Encode(v)[k..];
    assert s + t == Encode(v) && Encode(v) + [] == Encode(v);
    if Decode(s).ok {
      DecodeMore(s, t);
      RoundTrip(v, []);
    }
  }

  //////////////////////////////////////////////////////////////////////////////
  // The encoder is shortest
  //////////////////////////////////////////////////////////////////////////////

  lemma {:induction false} ComplementSize(v: bv64)
    ensures |Encode(!v)| <= |Encode(v)| + 1
  {
    assert !!v == v;
  }

  // A form that the first byte of an encoding may have.
  ghost predicate Tight(f: Form) {
    match f
    case Whole(value) => |Encode(value)| == 1
    case Partial(high, n) =>
      (n == 1 && high < 0x40) || (n == 2 && high < 0x20) || (n == 3 && high < 0x10) || (n == 4 && high == 0) || n == 8
    case Complement => true
  }

  lemma {:induction false} HeadIsTight(first: bv64)
    ensures Tight(Head(first))
  {
  }

  lemma {:induction false} OneByteMore(u: bv64, t: seq<byte>, n: nat, m: bv64)
    requires 1 <= n <= |t| && Collect(u, t[..n - 1]) < m <= 0x1_0000_0000_0000
    ensures Collect(u, t[..n]) < m << 8
  {
    assert t[..n][..n - 1] == t[..n - 1];
  }

  lemma {:induction false} CollectBelow(u: bv64, t: seq<byte>, n: nat)
    requires n <= |t|
    ensures n == 1 && u < 0x40 ==> Collect(u, t[..n]) < 0x4000
    ensures n == 2 && u < 0x20 ==> Collect(u, t[..n]) < 0x20_0000
    ensures n == 3 && u < 0x10 ==> Collect(u, t[..n]) < 0x1000_0000
    ensures n == 4 && u == 0 ==> Collect(u, t[..n]) < 0x1_0000_0000
  {
    var m := if n == 1 then 0x40 else if n == 2 then 0x20 else if n == 3 then 0x10 else 1;
    if u < m && 1 <= n <= 4 {
      OneByteMore(u, t, 1, m);
      if n > 1 {
        OneByteMore(u, t, 2, m << 8);
      }
      if n > 2 {
        OneByteMore(u, t, 3, m << 16);
      }
      if n > 3 {
        OneByteMore(u, t, 4, m << 24);
      }
    }
  }

  lemma {:induction false} EncodeSize(v: bv64)
    ensures |Encode(v)| <= if v < 0x4000 then 2 else if v < 0x20_0000 then 3 else if v < 0x1000_0000 then 4
                           else if v < 0x1_0000_0000 then 5 else 9
  {
  }

  lemma {:induction false} CollectSize(u: bv64, t: seq<byte>)
    requires Tight(Partial(u, |t|))
    ensures |Encode(Collect(u, t))| <= |t| + 1
  {
    CollectBelow(u, t, |t|);
    EncodeSize(Collect(u, t));
    assert t[..|t|] == t;
  }

  // Of all the byte strings that decode to a value the encoding is a shortest.
  lemma {:induction false} EncoderIsShortest(s: seq<byte>)
    requires Decode(s).ok
    ensures |Encode(Decode(s).value)| <= |s| - |Decode(s).rest|
    decreases |s|
  {
    var f, r := Head(s[0] as bv64), s[1..];
    HeadIsTight(s[0] as bv64);
    match f
    case Whole(value) =>
    case Partial(high, n) => CollectSize(high, r[..n]);
    case Complement =>
      EncoderIsShortest(r);
      ComplementSize(Decode(r).value);
  }
}
