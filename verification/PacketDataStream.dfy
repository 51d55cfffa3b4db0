/**
 PacketDataStream: a cursor over a buffer that integers, flags, byte buffers and strings are written to and read
 from.
 */
module PacketDataStream {
  import opened Bytes
  import opened IntCode
  import opened IntTypes
  import opened Records
  import Nonce

  //////////////////////////////////////////////////////////////////////////////
  // A buffer inside some storage
  //////////////////////////////////////////////////////////////////////////////

  // The bytes i to j of some storage.
  ghost function Cut(s: seq<byte>, i: nat, j: nat): (c: seq<byte>)
    requires i <= j <= |s|
    ensures |c| == j - i
    decreases j - i
  {
    if i == j then [] else [s[i]] + Cut(s, i + 1, j)
  }

  lemma {:induction false} CutIs(s: seq<byte>, i: nat, j: nat)
    requires i <= j <= |s|
    ensures Cut(s, i, j) == s[i..j]
    decreases j - i
  {
    if i < j {
      CutIs(s, i + 1, j);
    }
  }

  lemma {:induction false} CutHead(s: seq<byte>, i: nat, j: nat, n: nat, t: seq<byte>)
    requires i + n <= j <= |s| && t == s[i..i + n]
    ensures t == Cut(s, i, j)[..n]
  {
    CutIs(s, i, j);
    HeadOfSlice(s, i, j - i, n);
  }

  // A stream over a part of some storage that has come to pos.
  ghost function At(s: seq<byte>, from: nat, pos: nat, to: nat, ok: bool, lost: nat): Cursor
    requires from <= pos <= to <= |s|
  {
    Cursor(Cut(s, from, pos), Cut(s, pos, to), ok, lost)
  }

  lemma {:induction false} Pass(s: seq<byte>, from: nat, pos: nat, to: nat, ok: bool, lost: nat, n: nat)
    requires from <= pos && pos + n <= to <= |s|
    ensures At(s, from, pos + n, to, ok, lost) == Skipped(At(s, from, pos, to, ok, lost), n)
  {
    CutIs(s, from, pos);
    CutIs(s, pos, to);
    CutIs(s, from, pos + n);
    CutIs(s, pos + n, to);
    assert s[from..pos + n] == s[from..pos] + s[pos..to][..n];
    assert s[pos + n..to] == s[pos..to][n..];
  }

  lemma {:induction false} SpliceInside(s: seq<byte>, from: nat, pos: nat, to: nat, t: seq<byte>)
    requires from <= pos && pos + |t| <= to <= |s|
    ensures Splice(s, pos, t)[from..pos + |t|] == s[from..pos] + t
    ensures Splice(s, pos, t)[pos + |t|..to] == s[pos..to][|t|..]
  {
    SpliceIs(s, pos, t);
    assert Splice(s, pos, t)[pos + |t|..to] == s[pos + |t|..to];
  }

  lemma {:induction false} SpliceOutside(s: seq<byte>, from: nat, pos: nat, to: nat, t: seq<byte>)
    requires from <= pos && pos + |t| <= to <= |s|
    ensures Splice(s, pos, t)[..from] == s[..from] && Splice(s, pos, t)[to..] == s[to..]
  {
    SpliceIs(s, pos, t);
  }

  lemma {:induction false} Written(s: seq<byte>, r: seq<byte>, from: nat, pos: nat, to: nat, ok: bool, lost: nat,
                                   t: seq<byte>, c: Cursor, d: Cursor)
    requires from <= pos && pos + |t| <= to <= |s| && r == Splice(s, pos, t)
    requires c == At(s, from, pos, to, ok, lost) && d == At(r, from, pos + |t|, to, ok, lost)
    ensures d == Put(c, t) && r[..from] == s[..from] && r[to..] == s[to..]
  {
    CutIs(s, from, pos);
    CutIs(s, pos, to);
    CutIs(r, from, pos + |t|);
    CutIs(r, pos + |t|, to);
    SpliceInside(s, from, pos, to, t);
    SpliceOutside(s, from, pos, to, t);
    PutFits(c, t);
  }

  lemma {:induction false} TailOne(v: bv64)
    ensures Tail(v, 1) == [Low(v & 0xFF)]
  {
  }

  lemma {:induction false} TailTwo(v: bv64)
    ensures Tail(v, 2) == [Low((v >> 8) & 0xFF)] + [Low(v & 0xFF)]
  {
  }

  lemma {:induction false} TailThree(v: bv64)
    ensures Tail(v, 3) == [Low((v >> 16) & 0xFF)] + Tail(v, 2)
  {
  }

  lemma {:induction false} TailFour(v: bv64)
    ensures Tail(v, 4) == [Low((v >> 24) & 0xFF)] + Tail(v, 3)
  {
  }

  lemma {:induction false} TailEight(v: bv64)
    ensures Tail(v, 8) == Tail(v >> 32, 4) + Tail(v, 4)
  {
  }

  function Missed(c: Cursor, n: nat): Cursor {
    c.(ok := false, lost := c.lost + n)
  }

  lemma {:induction false} PutWithoutRoom(c: Cursor, b: byte)
    requires c.seek == []
    ensures Put(c, [b]) == Missed(c, 1)
  {
  }

  // From c a stream has come to e by reading d, and v is the value read.
  ghost predicate ReadsTo<T>(c: Cursor, d: Got<T>, v: T, e: Cursor) {
    v == d.value && Suffix(d.rest, c.seek) && e == Took(c, d.rest, d.ok)
  }

  // Then what was ahead is what was passed and what is still ahead, and the flag stays cleared once it is.
  lemma {:induction false} ReadsToMeans<T>(c: Cursor, d: Got<T>, v: T, e: Cursor)
    requires ReadsTo(c, d, v, e)
    ensures e.seek == d.rest && e.data + e.seek == c.data + c.seek
    ensures e.ok == (c.ok && d.ok) && e.lost == c.lost
  {
    var n := |c.seek| - |d.rest|;
    assert c.seek == c.seek[..n] + d.rest;
    Regroup(c.data, c.seek[..n], d.rest);
  }

  lemma {:induction false} ReadsNothing(c: Cursor, v: bv64)
    ensures ReadsTo(c, Got(v, c.seek, true), v, c)
  {
  }

  datatype Step = Step(value: bv64, cursor: Cursor)

  function Step1(u: bv64, c: Cursor): Step {
    var e := Front(c.seek);
    Step(Collect(u, [e.value]), Took(c, e.rest, e.ok))
  }

  // The next n bytes of a stream appended to the bits of u, one after the other.
  function Steps(u: bv64, c: Cursor, n: nat): Step
    decreases n, u
  {
    if n == 0 then Step(u, c) else var s := Steps(u, c, n - 1); Step1(s.value, s.cursor)
  }

  lemma {:induction false} StepsParts(u: bv64, c: Cursor, n: nat, m: nat)
    ensures var s := Steps(u, c, n); Steps(u, c, n + m) == Steps(s.value, s.cursor, m)
  {
    if m > 0 {
      StepsParts(u, c, n, m - 1);
    }
  }

  ghost predicate StepsTo(c: Cursor, u: bv64, n: nat, s: Step) {
    ReadsTo(c, Read(u, c.seek, n), s.value, s.cursor)
  }

  lemma {:induction false} StepTook(c: Cursor, p: Decoded, e: Got<byte>)
    requires Suffix(p.rest, c.seek) && e == Front(p.rest)
    ensures Suffix(e.rest, c.seek)
    ensures Took(Took(c, p.rest, p.ok), e.rest, e.ok) == Took(c, e.rest, p.ok && e.ok)
  {
  }

  lemma {:induction false} StepReads(c: Cursor, u: bv64, n: nat, s: Step)
    requires StepsTo(c, u, n, s)
    ensures StepsTo(c, u, n + 1, Step1(s.value, s.cursor))
  {
    var p := Read(u, c.seek, n);
    var e := Front(p.rest);
    ReadStep(u, c.seek, n, p, e);
    StepTook(c, p, e);
  }

  lemma {:induction false} StepsRead(c: Cursor, u: bv64, n: nat)
    ensures StepsTo(c, u, n, Steps(u, c, n))
    decreases n
  {
    if n == 0 {
      ReadsNothing(c, u);
      assert Read(u, c.seek, 0) == Got(u, c.seek, true);
    } else {
      StepsRead(c, u, n - 1);
      StepReads(c, u, n - 1, Steps(u, c, n - 1));
    }
  }

  lemma {:induction false} ReadsOn(c: Cursor, d: Decoded, v: bv64, f: Cursor)
    requires c.seek != [] && ReadsTo(Took(c, c.seek[1..], true), d, v, f)
    ensures ReadsTo(c, d, v, f)
  {
  }

  // Reading a first byte, 0 if there is none, and then what follows from it.
  lemma {:induction false} FirstRead(c: Cursor, e: Got<byte>, v: bv64, f: Cursor)
    requires e == Front(c.seek)
    requires var d := Took(c, e.rest, e.ok); ReadsTo(d, DecodeAfter(Head(e.value as bv64), d.seek), v, f)
    ensures ReadsTo(c, Decode(c.seek), v, f)
  {
    if c.seek != [] {
      ReadsOn(c, DecodeAfter(Head(c.seek[0] as bv64), c.seek[1..]), v, f);
    } else {
      assert Head(0) == Whole(0);
    }
  }

  lemma {:induction false} ReadsComplement(c: Cursor, v: bv64, e: Cursor)
    requires ReadsTo(c, Decode(c.seek), v, e)
    ensures ReadsTo(c, DecodeAfter(Complement, c.seek), !v, e)
  {
  }

  ghost predicate TakesUpTo(c: Cursor, n: nat, b: seq<byte>, e: Cursor) {
    if n <= |c.seek| then b == c.seek[..n] && e == Skipped(c, n)
    else b == c.seek && e == Skipped(c, |c.seek|).(ok := false)
  }

  lemma {:induction false} TakesBytes(c: Cursor, e: Cursor, size: nat, b: seq<byte>, f: Cursor)
    requires ReadsTo(c, ReadItem(ANumber(UInt32), c.seek), Number(UInt32, size), e) && TakesUpTo(e, size, b, f)
    ensures ReadsTo(c, TakeBytes(Decode(c.seek)), b, f)
  {
    var d := Decode(c.seek);
    if size <= |e.seek| {
      TookMore(c, d.rest, d.ok, d.rest[size..], true);
      SkipsTo(e, size);
    } else {
      TookMore(c, d.rest, d.ok, [], false);
      SkipsTo(e, |e.seek|);
    }
  }

  lemma {:induction false} SkipsTo(c: Cursor, n: nat)
    requires n <= |c.seek|
    ensures Suffix(c.seek[n..], c.seek) && Skipped(c, n) == Took(c, c.seek[n..], true)
    ensures Skipped(c, n).(ok := false) == Took(c, c.seek[n..], false)
  {
  }

  class PacketDataStream {
    var ok: bool
    var buf: Span
    var seek: Span
    // A uint32_t.
    var overshoot: int
    // How often it wrapped around.
    ghost var wraps: nat

    ghost predicate Valid()
      reads this
    {
      && buf.Valid() && seek.buf == buf.buf && seek.len <= buf.len
      && seek.at + seek.len == buf.at + buf.len
      && 0 <= overshoot < 0x1_0000_0000
    }

    // How many bytes did not fit.
    ghost function Lost(): nat
      requires Valid()
      reads this
    {
      overshoot + 0x1_0000_0000 * wraps
    }

    ghost function View(): Cursor
      requires Valid()
      reads this, buf.buf
    {
      At(buf.buf[..], buf.at, seek.at, buf.at + buf.len, ok, Lost())
    }

    constructor (b: Span)
      requires b.Valid()
      ensures Valid() && buf == b && View() == Fresh(b.Bytes())
    {
      ok, buf, seek, overshoot, wraps := true, b, b, 0, 0;
      CutIs(b.buf[..], b.at, b.at + b.len);
    }

    // What has been written or read so far.
    function Data(): (d: Span)
      requires Valid()
      reads this, buf.buf
      ensures d.Valid() && d.Bytes() == View().data
    {
      CutIs(buf.buf[..], buf.at, seek.at);
      Span(buf.buf, buf.at, buf.len - seek.len)
    }

    // What is still to be written or read.
    function Rest(): (d: Span)
      requires Valid()
      reads this, buf.buf
      ensures d.Valid() && d.Bytes() == View().seek
    {
      CutIs(buf.buf[..], seek.at, seek.at + seek.len);
      seek
    }

    // operator bool
    function Good(): (b: bool)
      requires Valid()
      reads this, buf.buf
      ensures b == View().ok
    {
      ok
    }

    function Undersize(): (n: int)
      requires Valid()
      reads this, buf.buf
      ensures n == Records.Undersize(View())
    {
      Nonce.RemainderIsUnique(Lost(), 0x1_0000_0000, wraps, overshoot);
      overshoot
    }

    ghost function Around(storage: seq<byte>): (seq<byte>, seq<byte>)
      requires Valid() && |storage| == buf.buf.Length
      reads this
    {
      (storage[..buf.at], storage[buf.at + buf.len..])
    }

    // The stream stays on its buffer, and what lies around it in the same storage stays as it is.
    twostate predicate Framed()
      reads this, buf.buf
    {
      && buf == old(buf) && Valid() && old(Valid())
      && Around(buf.buf[..]) == old(Around(buf.buf[..]))
    }

    // A step over n bytes of the buffer, which stays as it is.
    method Advance(n: nat)
      requires Valid() && n <= seek.len
      modifies this`seek
      ensures Valid() && View() == Skipped(old(View()), n) && seek == old(seek).Drop(n)
    {
      Pass(buf.buf[..], buf.at, seek.at, buf.at + buf.len, ok, Lost(), n);
      seek := seek.Drop(n);
    }

    method Skip(size: nat)
      requires Valid()
      modifies this`ok, this`seek
      ensures Valid() && View() == Skipped(old(View()), size)
      ensures ok == (old(ok) && size <= old(seek.len))
      ensures seek == if size <= old(seek.len) then old(seek).Drop(size) else old(seek)
    {
      if seek.len >= size {
        Advance(size);
      } else {
        ok := false;
      }
    }

    //////////////////////////////////////////////////////////////////////////////
    // Writing
    //////////////////////////////////////////////////////////////////////////////

    method Store(b: byte)
      requires Valid() && seek.len != 0
      modifies this`seek, buf.buf
      ensures Framed() && View() == Put(old(View()), [b])
    {
      ghost var c, s, from, pos, to := View(), buf.buf[..], buf.at, seek.at, buf.at + buf.len;
      SpliceAt(s, pos, b);
      buf.buf[seek.at] := b;
      seek := seek.Drop(1);
      Written(s, buf.buf[..], from, pos, to, ok, Lost(), [b], c, View());
    }

    // Adds to a uint32_t.
    method Overshoot(n: nat)
      requires 0 <= overshoot < 0x1_0000_0000
      modifies this`overshoot, this`wraps
      ensures 0 <= overshoot < 0x1_0000_0000
      ensures overshoot + 0x1_0000_0000 * wraps == old(overshoot + 0x1_0000_0000 * wraps) + n
    {
      wraps := wraps + (overshoot + n) / 0x1_0000_0000;
      overshoot := (overshoot + n) % 0x1_0000_0000;
    }

    // So many bytes that did not fit.
    method Miss(n: nat)
      requires Valid()
      modifies this`ok, this`overshoot, this`wraps
      ensures Valid() && View() == Missed(old(View()), n)
    {
      ok := false;
      Overshoot(n);
    }

    method AppendByte(value: bv64)
      requires Valid()
      modifies this, buf.buf
      ensures Framed() && View() == Put(old(View()), [Low(value)])
    {
      if seek.len != 0 {
        Store(Low(value));
      } else {
        PutWithoutRoom(View(), Low(value));
        Miss(1);
      }
    }

    // The last n bytes of a value, most significant first, for n from 2.
    method AppendTwo(tmp: bv64)
      requires Valid()
      modifies this, buf.buf
      ensures Framed() && View() == Put(old(View()), Tail(tmp, 2))
    {
      PutMore(View(), [Low((tmp >> 8) & 0xFF)], [Low(tmp & 0xFF)]);
      TailTwo(tmp);
      AppendByte((tmp >> 8) & 0xFF);
      AppendByte(tmp & 0xFF);
    }

    method AppendThree(tmp: bv64)
      requires Valid()
      modifies this, buf.buf
      ensures Framed() && View() == Put(old(View()), Tail(tmp, 3))
    {
      PutMore(View(), [Low((tmp >> 16) & 0xFF)], Tail(tmp, 2));
      TailThree(tmp);
      AppendByte((tmp >> 16) & 0xFF);
      AppendTwo(tmp);
    }

    method AppendFour(tmp: bv64)
      requires Valid()
      modifies this, buf.buf
      ensures Framed() && View() == Put(old(View()), Tail(tmp, 4))
    {
      PutMore(View(), [Low((tmp >> 24) & 0xFF)], Tail(tmp, 3));
      TailFour(tmp);
      AppendByte((tmp >> 24) & 0xFF);
      AppendThree(tmp);
    }

    method AppendEight(tmp: bv64)
      requires Valid()
      modifies this, buf.buf
      ensures Framed() && View() == Put(old(View()), Tail(tmp, 8))
    {
      PutMore(View(), Tail(tmp >> 32, 4), Tail(tmp, 4));
      TailEight(tmp);
      AppendFour(tmp >> 32);
      AppendFour(tmp);
    }

    // std::copy or std::fill at the cursor, which moves past what is written.
    method Fill(t: seq<byte>)
      requires Valid() && |t| <= seek.len
      modifies this`seek, buf.buf
      ensures Framed() && View() == Put(old(View()), t)
    {
      ghost var c, s, from, pos, to := View(), buf.buf[..], buf.at, seek.at, buf.at + buf.len;
      Copy(buf.buf, seek.at, t);
      seek := seek.Drop(|t|);
      Written(s, buf.buf[..], from, pos, to, ok, Lost(), t, c, View());
    }

    // Bytes of another buffer.
    method AppendBlock(t: seq<byte>)
      requires Valid()
      modifies this, buf.buf
      ensures Framed() && View() == PutBlock(old(View()), t)
    {
      if seek.len >= |t| {
        Fill(t);
      } else {
        FillWithZeros(|t|);
      }
    }

    method FillWithZeros(size: nat)
      requires Valid() && size > seek.len
      modifies this, buf.buf
      ensures Framed() && var c := old(View());
              View() == Cursor(c.data + Zeros(|c.seek|), [], false, c.lost + size - |c.seek|)
    {
      var n := seek.len;
      PutFits(View(), Zeros(n));
      Fill(Zeros(n));
      Miss(size - n);
    }

    method PutTwo(tmp: bv64)
      requires Valid()
      modifies this, buf.buf
      ensures Framed() && View() == Put(old(View()), [Low((tmp >> 8) | 0x80)] + Tail(tmp, 1))
    {
      PutMore(View(), [Low((tmp >> 8) | 0x80)], Tail(tmp, 1));
      AppendByte((tmp >> 8) | 0x80);
      AppendByte(tmp & 0xFF);
      TailOne(tmp);
    }

    method PutThree(tmp: bv64)
      requires Valid()
      modifies this, buf.buf
      ensures Framed() && View() == Put(old(View()), [Low((tmp >> 16) | 0xC0)] + Tail(tmp, 2))
    {
      PutMore(View(), [Low((tmp >> 16) | 0xC0)], Tail(tmp, 2));
      AppendByte((tmp >> 16) | 0xC0);
      AppendTwo(tmp);
    }

    method PutFour(tmp: bv64)
      requires Valid()
      modifies this, buf.buf
      ensures Framed() && View() == Put(old(View()), [Low((tmp >> 24) | 0xE0)] + Tail(tmp, 3))
    {
      PutMore(View(), [Low((tmp >> 24) | 0xE0)], Tail(tmp, 3));
      AppendByte((tmp >> 24) | 0xE0);
      AppendThree(tmp);
    }

    method PutPrefixed(prefix: bv64, tmp: bv64)
      requires Valid() && (prefix == 0xF0 || prefix == 0xF4)
      modifies this, buf.buf
      ensures Framed() && View() == Put(old(View()), [Low(prefix)] + Tail(tmp, if prefix == 0xF0 then 4 else 8))
    {
      PutMore(View(), [Low(prefix)], Tail(tmp, if prefix == 0xF0 then 4 else 8));
      AppendByte(prefix);
      if prefix == 0xF0 {
        AppendFour(tmp);
      } else {
        AppendEight(tmp);
      }
    }

    method PutPlain(tmp: bv64)
      requires Valid()
      modifies this, buf.buf
      ensures Framed() && View() == Put(old(View()), Plain(tmp))
    {
      if tmp < 0x80 {
        AppendByte(tmp);
      } else if tmp < 0x4000 {
        PutTwo(tmp);
      } else if tmp < 0x20_0000 {
        PutThree(tmp);
      } else if tmp < 0x1000_0000 {
        PutFour(tmp);
      } else if tmp < 0x1_0000_0000 {
        PutPrefixed(0xF0, tmp);
      } else {
        PutPrefixed(0xF4, tmp);
      }
    }

    // operator<<(uint64_t)
    method PutWide(value: bv64)
      requires Valid()
      modifies this, buf.buf
      ensures Framed() && View() == Put(old(View()), Encode(value))
    {
      var tmp := value;
      if tmp & 0x8000_0000_0000_0000 != 0 && !tmp < 0x1_0000_0000 {
        tmp := !tmp;
        if tmp <= 0x3 {
          AppendByte(0xFC | tmp);
          return;
        } else {
          AppendByte(0xF8);
          PutMore(old(View()), [0xF8], Plain(tmp));
        }
      }
      PutPlain(tmp);
    }

    // An item without payload.
    method PutScalar(ghost item: Item, header: bv64)
      requires Valid() && header == Header(item) && Payload(item) == []
      modifies this, buf.buf
      ensures Framed() && View() == Write(old(View()), item)
    {
      PutWide(header);
      PutNothing(View());
    }

    method PutSized(ghost item: Item, header: bv64, payload: seq<byte>)
      requires Valid() && header == Header(item) && payload == Payload(item)
      modifies this, buf.buf
      ensures Framed() && View() == Write(old(View()), item)
    {
      PutWide(header);
      AppendBlock(payload);
    }

    method PutNumber(t: IntType, x: int)
      requires Valid()
      modifies this, buf.buf
      ensures Framed() && View() == Write(old(View()), Number(t, x))
    {
      PutScalar(Number(t, x), Widen(x));
    }

    method PutFlag(value: bool)
      requires Valid()
      modifies this, buf.buf
      ensures Framed() && View() == Write(old(View()), Flag(value))
    {
      PutScalar(Flag(value), Widen(if value then 1 else 0));
    }

    method PutBuffer(b: seq<byte>)
      requires Valid()
      modifies this, buf.buf
      ensures Framed() && View() == Write(old(View()), Block(b))
    {
      PutSized(Block(b), Widen(|b|), b);
    }

    method PutText(str: seq<byte>)
      requires Valid()
      modifies this, buf.buf
      ensures Framed() && View() == Write(old(View()), Text(str))
    {
      PutSized(Text(str), Widen(StaticCast(UInt32, |str|)), str);
    }

    //////////////////////////////////////////////////////////////////////////////
    // Reading
    //////////////////////////////////////////////////////////////////////////////

    method NextByte() returns (value: bv64)
      requires Valid()
      modifies this`ok, this`seek
      ensures var c := old(View());
              var e := Front(c.seek);
              Valid() && value == e.value as bv64 && View() == Took(c, e.rest, e.ok)
    {
      if seek.len != 0 {
        value := seek.buf[seek.at] as bv64;
        Advance(1);
      } else {
        value := 0;
        ok := false;
      }
    }

    // Appends the next bytes to the bits of u, where the source shifts each byte to its place.
    method ReadOne(u: bv64) returns (v: bv64)
      requires Valid()
      modifies this`ok, this`seek
      ensures Valid() && Step(v, View()) == Steps(u, old(View()), 1)
    {
      assert Steps(u, View(), 0) == Step(u, View());
      var b := NextByte();
      v := (u << 8) | b;
      CollectOne(u, Front(old(View()).seek).value);
    }

    method ReadTwo(u: bv64) returns (v: bv64)
      requires Valid()
      modifies this`ok, this`seek
      ensures Valid() && Step(v, View()) == Steps(u, old(View()), 2)
    {
      StepsParts(u, View(), 1, 1);
      v := ReadOne(u);
      v := ReadOne(v);
    }

    method ReadThree(u: bv64) returns (v: bv64)
      requires Valid()
      modifies this`ok, this`seek
      ensures Valid() && Step(v, View()) == Steps(u, old(View()), 3)
    {
      StepsParts(u, View(), 2, 1);
      v := ReadTwo(u);
      v := ReadOne(v);
    }

    method ReadFour(u: bv64) returns (v: bv64)
      requires Valid()
      modifies this`ok, this`seek
      ensures Valid() && Step(v, View()) == Steps(u, old(View()), 4)
    {
      StepsParts(u, View(), 2, 2);
      v := ReadTwo(u);
      v := ReadTwo(v);
    }

    method ReadEight(u: bv64) returns (v: bv64)
      requires Valid()
      modifies this`ok, this`seek
      ensures Valid() && Step(v, View()) == Steps(u, old(View()), 8)
    {
      StepsParts(u, View(), 4, 4);
      v := ReadFour(u);
      v := ReadFour(v);
    }

    // operator>>(uint64_t)
    method GetWide() returns (value: bv64)
      requires Valid()
      modifies this`ok, this`seek
      ensures Valid() && ReadsTo(old(View()), Decode(old(View()).seek), value, View())
      decreases seek.len, 2
    {
      ghost var c, bound := View(), seek.len;
      var tmp := NextByte();
      value := GetAfter(tmp, bound);
      FirstRead(c, Front(c.seek), value, View());
    }

    // The next n bytes appended to the bits of u.
    method ReadBits(u: bv64, n: nat) returns (v: bv64)
      requires Valid() && n in {1, 2, 3, 4, 8}
      modifies this`ok, this`seek
      ensures Valid() && ReadsTo(old(View()), Read(u, old(View()).seek, n), v, View())
    {
      StepsRead(View(), u, n);
      v := ReadSteps(u, n);
    }

    method ReadSteps(u: bv64, n: nat) returns (v: bv64)
      requires Valid() && n in {1, 2, 3, 4, 8}
      modifies this`ok, this`seek
      ensures Valid() && Step(v, View()) == Steps(u, old(View()), n)
    {
      if n == 1 {
        v := ReadOne(u);
      } else if n == 2 {
        v := ReadTwo(u);
      } else if n == 3 {
        v := ReadThree(u);
      } else if n == 4 {
        v := ReadFour(u);
      } else {
        v := ReadEight(u);
      }
    }

    // What follows the first byte tmp.
    method GetAfter(tmp: bv64, ghost bound: nat) returns (value: bv64)
      requires Valid() && (Head(tmp) == Complement ==> seek.len < bound)
      modifies this`ok, this`seek
      ensures Valid() && ReadsTo(old(View()), DecodeAfter(Head(tmp), old(View()).seek), value, View())
      decreases bound, 1
    {
      if tmp & 0x80 == 0 {
        value := tmp & 0x7F;
        ReadsNothing(View(), value);
      } else if tmp & 0xC0 == 0x80 {
        value := ReadBits(tmp & 0x3F, 1);
      } else if tmp & 0xF0 == 0xF0 {
        value := GetMarked(tmp, bound);
      } else if tmp & 0xF0 == 0xE0 {
        value := ReadBits(tmp & 0x0F, 3);
      } else {
        value := ReadBits(tmp & 0x1F, 2);
      }
    }

    // What follows a first byte with its upper half set.
    method GetMarked(tmp: bv64, ghost bound: nat) returns (value: bv64)
      requires Valid() && (Marked(tmp) == Complement ==> seek.len < bound)
      modifies this`ok, this`seek
      ensures Valid() && ReadsTo(old(View()), DecodeAfter(Marked(tmp), old(View()).seek), value, View())
      decreases bound, 0
    {
      match tmp & 0xFC
      case 0xF0 => value := ReadBits(0, 4);
      case 0xF4 => value := ReadBits(0, 8);
      case 0xF8 =>
        value := GetWide();
        ReadsComplement(old(View()), value, View());
        value := !value;
      case _ =>
        value := tmp & 0x03;
        value := !value;
        ReadsNothing(View(), value);
    }

    method GetNumber(t: IntType) returns (x: int)
      requires Valid()
      modifies this`ok, this`seek
      ensures Has(t, x)
      ensures Valid() && ReadsTo(old(View()), ReadItem(ANumber(t), old(View()).seek), Number(t, x), View())
    {
      var tmp := GetWide();
      x := Narrow(t, tmp);
    }

    method GetFlag() returns (value: bool)
      requires Valid()
      modifies this`ok, this`seek
      ensures Valid() && ReadsTo(old(View()), ReadItem(AFlag, old(View()).seek), Flag(value), View())
    {
      var tmp := GetNumber(UInt32);
      value := tmp != 0;
    }

    // The next size bytes, or all there are.
    method TakeUpTo(n: nat) returns (b: seq<byte>)
      requires Valid()
      modifies this`ok, this`seek
      ensures Valid() && TakesUpTo(old(View()), n, b, View())
    {
      var size := n;
      if size > seek.len {
        size := seek.len;
        ok := false;
      }
      b := seek.buf[seek.at..seek.at + size];
      CutHead(buf.buf[..], seek.at, seek.at + seek.len, size, b);
      Advance(size);
    }

    method GetBytes() returns (b: seq<byte>)
      requires Valid()
      modifies this`ok, this`seek
      ensures Valid() && ReadsTo(old(View()), TakeBytes(Decode(old(View()).seek)), b, View())
    {
      ghost var c := View();
      var size := GetNumber(UInt32);
      ghost var e := View();
      b := TakeUpTo(size);
      TakesBytes(c, e, size, b, View());
    }

    method GetBuffer() returns (b: seq<byte>)
      requires Valid()
      modifies this`ok, this`seek
      ensures Valid() && ReadsTo(old(View()), ReadItem(ABlock, old(View()).seek), Block(b), View())
    {
      b := GetBytes();
    }

    method GetText() returns (str: seq<byte>)
      requires Valid()
      modifies this`ok, this`seek
      ensures Valid() && ReadsTo(old(View()), ReadItem(AText, old(View()).seek), Text(str), View())
    {
      str := GetBytes();
    }
  }
}
