/** Records of integers, flags, byte buffers and strings, written to a bounded buffer and read back. */
module Records {
  import opened Bytes
  import opened BigEndian
  import opened CodeNumbers
  import opened IntCode
  import opened IntTypes

  //////////////////////////////////////////////////////////////////////////////
  // Writing
  //////////////////////////////////////////////////////////////////////////////

  // What a stream has behind it and ahead of it in its buffer, its flag, and how many bytes did not fit.
  datatype Cursor = Cursor(data: seq<byte>, seek: seq<byte>, ok: bool, lost: nat)

  // Appending byte by byte.
  function Put(c: Cursor, t: seq<byte>): Cursor {
    var k := if |t| <= |c.seek| then |t| else |c.seek|;
    Cursor(c.data + t[..k], c.seek[k..], c.ok && k == |t|, c.lost + |t| - k)
  }

  // Appending as a whole, or filling up with zeros what room there is.
  function PutBlock(c: Cursor, t: seq<byte>): Cursor {
    if |t| <= |c.seek| then Put(c, t)
    else Cursor(c.data + Zeros(|c.seek|), [], false, c.lost + |t| - |c.seek|)
  }

  lemma {:induction false} PutMore(c: Cursor, s: seq<byte>, t: seq<byte>)
    ensures Put(Put(c, s), t) == Put(c, s + t)
  {
    var d := Put(c, s);
    var k := if |s + t| <= |c.seek| then |s + t| else |c.seek|;
    assert Put(d, t).data == c.data + (s + t)[..k];
    assert Put(d, t).seek == c.seek[k..];
  }

  lemma {:induction false} PutNothing(c: Cursor)
    ensures Put(c, []) == c
  {
  }

  // Passing over n bytes, or none when there are fewer.
  function Skipped(c: Cursor, n: nat): Cursor {
    if n <= |c.seek| then Cursor(c.data + c.seek[..n], c.seek[n..], c.ok, c.lost) else c.(ok := false)
  }

  datatype Item =
    | Wide(bits: bv64)
    | Number(t: IntType, x: int)
    | Flag(b: bool)
    | Block(buf: seq<byte>)
    | Text(str: seq<byte>)

  // The integer that stands for an item or goes before it.
  function Header(item: Item): bv64 {
    match item
    case Wide(bits) => bits
    case Number(_, x) => Widen(x)
    case Flag(b) => Widen(if b then 1 else 0)
    case Block(buf) => Widen(|buf|)
    case Text(str) => Widen(StaticCast(UInt32, |str|))
  }

  function Payload(item: Item): seq<byte> {
    match item
    case Block(buf) => buf
    case Text(str) => str
    case _ => []
  }

  function Encoding(item: Item): seq<byte> {
    Encode(Header(item)) + Payload(item)
  }

  // The bytes of an integer taken modulo 2^64.
  function FormatOf(x: int): seq<byte> {
    Format(x % 0x1_0000_0000_0000_0000)
  }

  lemma {:induction false} EncodeOfWidened(x: int)
    ensures Encode(Widen(x)) == FormatOf(x)
  {
    EncodeIs(Widen(x));
    UnsignedOfWiden(x);
  }

  lemma {:induction false} EncodingOfWide(bits: bv64)
    ensures Encoding(Wide(bits)) == FormatOf(Unsigned(bits))
  {
    EncodeOfWidened(Unsigned(bits));
    WidenOfUnsigned(bits);
    NothingAfter(Encode(bits));
  }

  // An integer of a narrower type is written modulo 2^64, which extends its sign.
  lemma {:induction false} EncodingOfNumber(t: IntType, x: int)
    ensures Encoding(Number(t, x)) == FormatOf(x)
  {
    EncodeOfWidened(x);
    NothingAfter(FormatOf(x));
  }

  lemma {:induction false} EncodingOfFlag(b: bool)
    ensures Encoding(Flag(b)) == if b then [1] else [0]
  {
    if b {
      ByteFormat(1, 1);
    } else {
      ByteFormat(0, 0);
    }
  }

  lemma {:induction false} ByteFormat(b: byte, x: nat)
    requires x == b as int && x < 0x80
    ensures Encode(Widen(x)) + [] == [b]
  {
    EncodeOfWidened(x);
    NothingAfter(Encode(Widen(x)));
    SmallFormat(x);
    OneByte(b, 1);
  }

  lemma {:induction false} SmallFormat(x: nat)
    requires x < 0x80
    ensures FormatOf(x) == BytesOf(x, 1)
  {
    Remains(x);
    assert PlainFormat(x) == BytesOf(x, 1);
  }

  lemma {:induction false} Remains(x: nat)
    requires x < 0x1_0000_0000_0000_0000
    ensures x % 0x1_0000_0000_0000_0000 == x
  {
  }

  lemma {:induction false} EncodingOfBlock(buf: seq<byte>)
    ensures Encoding(Block(buf)) == FormatOf(|buf|) + buf
  {
    EncodeOfWidened(|buf|);
  }

  lemma {:induction false} EncodingOfText(str: seq<byte>)
    ensures Encoding(Text(str)) == FormatOf(|str| % 0x1_0000_0000) + str
  {
    LengthCast(|str|);
    EncodeOfWidened(|str| % 0x1_0000_0000);
  }

  lemma {:induction false} NothingAfter(t: seq<byte>)
    ensures t + [] == t
  {
  }

  function Encodings(items: seq<Item>): seq<byte> {
    if items == [] then [] else Encoding(items[0]) + Encodings(items[1..])
  }

  function Write(c: Cursor, item: Item): Cursor {
    PutBlock(Put(c, Encode(Header(item))), Payload(item))
  }

  function WriteAll(c: Cursor, items: seq<Item>): Cursor
    decreases |items|
  {
    if items == [] then c else WriteAll(Write(c, items[0]), items[1..])
  }

  // The flag tells whether all bytes did fit; none does after one that did not.
  ghost predicate Sane(c: Cursor) {
    (c.ok <==> c.lost == 0) && (c.ok || c.seek == [])
  }

  // d is c after the bytes t.
  ghost predicate After(c: Cursor, t: seq<byte>, d: Cursor) {
    && Sane(d)
    && |d.data| + |d.seek| == |c.data| + |c.seek|
    && |d.data| + d.lost == |c.data| + c.lost + |t|
    && (d.ok <==> c.ok && |t| <= |c.seek|)
    && (d.ok ==> d == Put(c, t))
  }

  lemma {:induction false} WriteOne(c: Cursor, item: Item)
    requires Sane(c)
    ensures After(c, Encoding(item), Write(c, item))
  {
    PutMore(c, Encode(Header(item)), Payload(item));
  }

  lemma {:induction false} AfterMore(c: Cursor, s: seq<byte>, d: Cursor, t: seq<byte>, e: Cursor)
    requires After(c, s, d) && After(d, t, e)
    ensures After(c, s + t, e)
  {
  }

  lemma {:induction false} WritesFrom(c: Cursor, items: seq<Item>)
    requires Sane(c)
    ensures After(c, Encodings(items), WriteAll(c, items))
    decreases |items|
  {
    if items == [] {
      PutNothing(c);
    } else {
      var d := Write(c, items[0]);
      WriteOne(c, items[0]);
      WritesFrom(d, items[1..]);
      AfterMore(c, Encoding(items[0]), d, Encodings(items[1..]), WriteAll(d, items[1..]));
    }
  }

  function Fresh(buffer: seq<byte>): Cursor {
    Cursor([], buffer, true, 0)
  }

  // What is in the buffer and what did not fit add up to t; the stream is good exactly if all of it fits, and then
  // it is what is in the buffer, the rest of which is as it was.
  ghost predicate Holds(buffer: seq<byte>, t: seq<byte>, c: Cursor) {
    && |c.data| + c.lost == |t| && |c.data| + |c.seek| == |buffer|
    && (c.ok <==> c.lost == 0) && (c.ok <==> |t| <= |buffer|)
    && (c.ok ==> c.data == t && c.seek == buffer[|t|..])
    && (!c.ok ==> c.seek == [])
  }

  lemma {:induction false} AfterFresh(buffer: seq<byte>, t: seq<byte>, c: Cursor)
    requires After(Fresh(buffer), t, c)
    ensures Holds(buffer, t, c)
  {
    if c.ok {
      assert t[..|t|] == t;
    }
  }

  // Writing to a bounded buffer refines writing to an unbounded one.
  lemma {:induction false} WriterRefines(buffer: seq<byte>, items: seq<Item>)
    ensures Holds(buffer, Encodings(items), WriteAll(Fresh(buffer), items))
  {
    WritesFrom(Fresh(buffer), items);
    AfterFresh(buffer, Encodings(items), WriteAll(Fresh(buffer), items));
  }

  lemma {:induction false} DataGrows(c: Cursor, items: seq<Item>)
    ensures c.data <= WriteAll(c, items).data
    decreases |items|
  {
    if items != [] {
      DataGrows(Write(c, items[0]), items[1..]);
    }
  }

  lemma {:induction false} DataStays(c: Cursor, items: seq<Item>, later: seq<Item>, all: seq<Item>)
    requires all == items + later
    ensures WriteAll(c, items).data <= WriteAll(c, all).data
    decreases |items|
  {
    if items == [] {
      DataGrows(c, all);
    } else {
      DataStays(Write(c, items[0]), items[1..], later, all[1..]);
    }
  }

  // Whatever is written later, and whether it fits or not, the items that did fit stay as they were written.
  lemma {:induction false} WhatFitsStays(buffer: seq<byte>, items: seq<Item>, later: seq<Item>)
    requires |Encodings(items)| <= |buffer|
    ensures Encodings(items) <= WriteAll(Fresh(buffer), items + later).data
  {
    WriterRefines(buffer, items);
    DataStays(Fresh(buffer), items, later, items + later);
  }

  // With room enough, whatever happened to the stream before, the encoding is appended and nothing else changes.
  lemma {:induction false} WriteFits(c: Cursor, item: Item)
    requires |Encoding(item)| <= |c.seek|
    ensures Write(c, item) == Cursor(c.data + Encoding(item), c.seek[|Encoding(item)|..], c.ok, c.lost)
  {
    var h, p := Encode(Header(item)), Payload(item);
    PutMore(c, h, p);
    PutFits(c, h + p);
  }

  lemma {:induction false} PutFits(c: Cursor, t: seq<byte>)
    requires |t| <= |c.seek|
    ensures Put(c, t) == Cursor(c.data + t, c.seek[|t|..], c.ok, c.lost)
  {
    assert t[..|t|] == t;
  }

  // What an item that does not fit leaves in a room of n bytes, h being its integer: as much of that as fits, and zeros
  // where its payload would have begun.
  ghost function Partly(h: seq<byte>, n: nat): seq<byte> {
    if n <= |h| then h[..n] else h + Zeros(n - |h|)
  }

  lemma {:induction false} PutBlockOverflows(c: Cursor, h: seq<byte>, p: seq<byte>)
    requires |h| <= |c.seek| < |h| + |p|
    ensures PutBlock(Put(c, h), p) == Cursor(c.data + (h + Zeros(|c.seek| - |h|)), [], false,
                                             c.lost + |h| + |p| - |c.seek|)
  {
    PutFits(c, h);
    Regroup(c.data, h, Zeros(|c.seek| - |h|));
  }

  lemma {:induction false} WriteOverflows(c: Cursor, item: Item)
    requires |c.seek| < |Encoding(item)|
    ensures var d := Write(c, item);
            && d.data == c.data + Partly(Encode(Header(item)), |c.seek|) && d.seek == [] && !d.ok
            && d.lost == c.lost + |Encoding(item)| - |c.seek|
  {
    var h, p := Encode(Header(item)), Payload(item);
    if |c.seek| >= |h| {
      PutBlockOverflows(c, h, p);
    } else {
      PutBlockNowhere(Put(c, h), p);
    }
  }

  lemma {:induction false} PutBlockNowhere(c: Cursor, p: seq<byte>)
    requires c.seek == [] && !c.ok
    ensures PutBlock(c, p) == c.(lost := c.lost + |p|)
  {
    assert c.data + [] == c.data;
  }

  lemma {:induction false} WriteNowhere(c: Cursor, item: Item)
    requires c.seek == []
    ensures Write(c, item).data == c.data && Write(c, item).seek == []
  {
  }

  lemma {:induction false} FullStays(c: Cursor, later: seq<Item>)
    requires c.seek == []
    ensures WriteAll(c, later).data == c.data
    decreases |later|
  {
    if later != [] {
      WriteNowhere(c, later[0]);
      FullStays(Write(c, later[0]), later[1..]);
    }
  }

  lemma {:induction false} WriteAllMore(c: Cursor, items: seq<Item>, later: seq<Item>, all: seq<Item>)
    requires all == items + later
    ensures WriteAll(c, all) == WriteAll(WriteAll(c, items), later)
    decreases |items|
  {
    if items == [] {
      assert all == later;
    } else {
      assert all[1..] == items[1..] + later;
      WriteAllMore(Write(c, items[0]), items[1..], later, all[1..]);
    }
  }

  lemma {:induction false} OverflowsAt(c: Cursor, item: Item, later: seq<Item>)
    requires |c.seek| < |Encoding(item)|
    ensures WriteAll(c, [item] + later).data == c.data + Partly(Encode(Header(item)), |c.seek|)
  {
    WriteOverflows(c, item);
    FullStays(Write(c, item), later);
    assert ([item] + later)[1..] == later;
  }

  lemma {:induction false} FittedData(buffer: seq<byte>, items: seq<Item>)
    requires |Encodings(items)| <= |buffer|
    ensures var c := WriteAll(Fresh(buffer), items);
            c.data == Encodings(items) && |c.seek| == |buffer| - |Encodings(items)|
  {
    WriterRefines(buffer, items);
  }

  // What is in the buffer after the first item that does not fit, whatever is written later.
  lemma {:induction false} OverflowIs(buffer: seq<byte>, items: seq<Item>, item: Item, later: seq<Item>)
    requires |Encodings(items)| <= |buffer| < |Encodings(items)| + |Encoding(item)|
    ensures WriteAll(Fresh(buffer), items + ([item] + later)).data ==
            Encodings(items) + Partly(Encode(Header(item)), |buffer| - |Encodings(items)|)
  {
    FittedData(buffer, items);
    WriteAllMore(Fresh(buffer), items, [item] + later, items + ([item] + later));
    OverflowsAt(WriteAll(Fresh(buffer), items), item, later);
  }

  // undersize() is how many bytes did not fit, modulo 2^32.
  lemma {:induction false} UndersizeIs(buffer: seq<byte>, items: seq<Item>)
    ensures var n := |Encodings(items)|;
            Undersize(WriteAll(Fresh(buffer), items)) ==
            if n <= |buffer| then 0 else (n - |buffer|) % 0x1_0000_0000
  {
    WriterRefines(buffer, items);
    MissingIs(WriteAll(Fresh(buffer), items).lost, |Encodings(items)| - |buffer|);
  }

  lemma {:induction false} MissingIs(lost: nat, missing: int)
    requires lost == if missing > 0 then missing else 0
    ensures lost % 0x1_0000_0000 == if missing <= 0 then 0 else missing % 0x1_0000_0000
  {
  }

  // undersize(), a uint32_t.
  function Undersize(c: Cursor): int {
    c.lost % 0x1_0000_0000
  }

  // undersize() is 0 exactly when everything did fit or a positive multiple of 2^32 bytes did not.
  lemma {:induction false} UndersizeIsZeroIff(buffer: seq<byte>, items: seq<Item>)
    ensures var c, n := WriteAll(Fresh(buffer), items), |Encodings(items)|;
            Undersize(c) == 0 <==> c.ok || (n - |buffer|) % 0x1_0000_0000 == 0
  {
    WriterRefines(buffer, items);
    MissingIsZeroIff(WriteAll(Fresh(buffer), items).lost, |Encodings(items)| - |buffer|);
  }

  lemma {:induction false} MissingIsZeroIff(lost: nat, missing: int)
    requires lost == if missing > 0 then missing else 0
    ensures lost % 0x1_0000_0000 == 0 <==> lost == 0 || missing % 0x1_0000_0000 == 0
  {
  }

  // Which can happen: room for the header only of 2^32 bytes.
  lemma {:induction false} UndersizeCanMislead(buffer: seq<byte>, b: seq<byte>)
    requires |b| == 0x1_0000_0000 && |buffer| == |Encode(Header(Block(b)))|
    ensures var c := WriteAll(Fresh(buffer), [Block(b)]); !c.ok && Undersize(c) == 0
  {
    WriterRefines(buffer, [Block(b)]);
    assert Encodings([Block(b)]) == Encoding(Block(b));
  }

  //////////////////////////////////////////////////////////////////////////////
  // Reading
  //////////////////////////////////////////////////////////////////////////////

  datatype Kind = AWide | ANumber(t: IntType) | AFlag | ABlock | AText

  function KindOf(item: Item): Kind {
    match item
    case Wide(_) => AWide
    case Number(t, _) => ANumber(t)
    case Flag(_) => AFlag
    case Block(_) => ABlock
    case Text(_) => AText
  }

  ghost predicate Suffix(t: seq<byte>, s: seq<byte>) {
    |t| <= |s| && t == s[|s| - |t|..]
  }

  // The stream when it has read up to the rest of what was ahead of it.
  function Took(c: Cursor, rest: seq<byte>, ok: bool): Cursor
    requires |rest| <= |c.seek|
  {
    Cursor(c.data + c.seek[..|c.seek| - |rest|], rest, c.ok && ok, c.lost)
  }

  lemma {:induction false} TookMore(c: Cursor, s: seq<byte>, ok: bool, t: seq<byte>, more: bool)
    requires Suffix(s, c.seek) && Suffix(t, s)
    ensures Suffix(t, c.seek) && Took(Took(c, s, ok), t, more) == Took(c, t, ok && more)
  {
  }

  // As many bytes as a length says, or all there are.
  function TakeBytes(d: Decoded): Got<seq<byte>> {
    var size := Narrow(UInt32, d.value);
    if size > |d.rest| then Got(d.rest, [], false) else Got(d.rest[..size], d.rest[size..], d.ok)
  }

  // The item of some kind that an integer stands for or goes before.
  function AsItem(k: Kind, d: Decoded): Got<Item> {
    match k
    case AWide => Got(Wide(d.value), d.rest, d.ok)
    case ANumber(t) => Got(Number(t, Narrow(t, d.value)), d.rest, d.ok)
    case AFlag => Got(Flag(Narrow(UInt32, d.value) != 0), d.rest, d.ok)
    case ABlock => var g := TakeBytes(d); Got(Block(g.value), g.rest, g.ok)
    case AText => var g := TakeBytes(d); Got(Text(g.value), g.rest, g.ok)
  }

  function ReadItem(k: Kind, s: seq<byte>): Got<Item> {
    AsItem(k, Decode(s))
  }

  // What any bytes read as, given what their integer reads as: an integer of the type congruent to it, whether its low
  // 32 bits are other than zero, or as many bytes as those say or all there are.
  lemma {:induction false} ReadNumberIff(t: IntType, s: seq<byte>, x: int)
    ensures var d := Decode(s);
            ReadItem(ANumber(t), s) == Got(Number(t, x), d.rest, d.ok) <==>
            Has(t, x) && (Unsigned(d.value) - x) % Power2(Bits(t)) == 0
  {
    NarrowIff(t, Decode(s).value, x);
  }

  lemma {:induction false} LengthIs(v: bv64)
    ensures Narrow(UInt32, v) == Unsigned(v) % 0x1_0000_0000
  {
  }

  lemma {:induction false} ReadFlagIs(s: seq<byte>)
    ensures var d := Decode(s);
            ReadItem(AFlag, s) == Got(Flag(Unsigned(d.value) % 0x1_0000_0000 != 0), d.rest, d.ok)
  {
    LengthIs(Decode(s).value);
  }

  lemma {:induction false} ReadBytesIs(s: seq<byte>)
    ensures var d := Decode(s);
            var size := Unsigned(d.value) % 0x1_0000_0000;
            var n := if size <= |d.rest| then size else |d.rest|;
            && ReadItem(ABlock, s) == Got(Block(d.rest[..n]), d.rest[n..], d.ok && size <= |d.rest|)
            && ReadItem(AText, s) == Got(Text(d.rest[..n]), d.rest[n..], d.ok && size <= |d.rest|)
  {
    var d := Decode(s);
    LengthIs(d.value);
    assert d.rest[..|d.rest|] == d.rest;
  }

  function ReadAll(kinds: seq<Kind>, s: seq<byte>): Got<seq<Item>> {
    if kinds == [] then Got([], s, true)
    else
      var g := ReadItem(kinds[0], s);
      var h := ReadAll(kinds[1..], g.rest);
      Got([g.value] + h.value, h.rest, g.ok && h.ok)
  }

  function Kinds(items: seq<Item>): seq<Kind> {
    if items == [] then [] else [KindOf(items[0])] + Kinds(items[1..])
  }

  // An integer its type has; a buffer or string with a length below 2^32.
  ghost predicate Fits(item: Item) {
    match item
    case Number(t, x) => Has(t, x)
    case Block(buf) => |buf| < 0x1_0000_0000
    case Text(str) => |str| < 0x1_0000_0000
    case _ => true
  }

  lemma {:induction false} BytesRoundTrip(v: bv64, b: seq<byte>, s: seq<byte>)
    requires Narrow(UInt32, v) == |b| % 0x1_0000_0000
    ensures var g := TakeBytes(Got(v, b + s, true));
            (g.value == b <==> |b| < 0x1_0000_0000) && (g.value == b ==> g.rest == s && g.ok)
  {
    assert (b + s)[..|b|] == b && (b + s)[|b|..] == s;
  }

  lemma {:induction false} LengthHeader(n: nat)
    ensures Narrow(UInt32, Widen(n)) == Narrow(UInt32, Widen(StaticCast(UInt32, n))) == n % 0x1_0000_0000
  {
    LengthCast(n);
    NarrowLength(n, n % 0x1_0000_0000);
  }

  lemma {:induction false} FlagRoundTrip(b: bool)
    ensures Narrow(UInt32, Widen(if b then 1 else 0)) == if b then 1 else 0
  {
    NarrowLength(if b then 1 else 0, if b then 1 else 0);
  }

  lemma {:induction false} HeaderReads(item: Item, s: seq<byte>)
    ensures Decode(Encoding(item) + s) == Got(Header(item), Payload(item) + s, true)
  {
    RoundTrip(Header(item), Payload(item) + s);
    Regroup(Encode(Header(item)), Payload(item), s);
  }

  // What is read from behind the header of an item.
  ghost predicate ReadsBack(item: Item, s: seq<byte>, g: Got<Item>) {
    (g.value == item <==> Fits(item)) && (g.value == item ==> g.rest == s && g.ok)
  }

  lemma {:induction false} HeaderIsLength(item: Item)
    requires item.Block? || item.Text?
    ensures Narrow(UInt32, Header(item)) == |Payload(item)| % 0x1_0000_0000
  {
    LengthHeader(|Payload(item)|);
  }

  lemma {:induction false} AsNumber(t: IntType, x: int, v: bv64, s: seq<byte>)
    requires Narrow(t, v) == x <==> Has(t, x)
    ensures ReadsBack(Number(t, x), s, AsItem(ANumber(t), Got(v, s, true)))
  {
  }

  lemma {:induction false} AsFlag(b: bool, v: bv64, s: seq<byte>)
    requires Narrow(UInt32, v) == if b then 1 else 0
    ensures ReadsBack(Flag(b), s, AsItem(AFlag, Got(v, s, true)))
  {
  }

  lemma {:induction false} AsPayloadIff(item: Item, s: seq<byte>)
    requires item.Block? || item.Text?
    ensures ReadsBack(item, s, AsItem(KindOf(item), Got(Header(item), Payload(item) + s, true)))
  {
    HeaderIsLength(item);
    BytesRoundTrip(Header(item), Payload(item), s);
  }

  lemma {:induction false} AsItemIff(item: Item, v: bv64, s: seq<byte>)
    requires v == Header(item)
    ensures ReadsBack(item, s, AsItem(KindOf(item), Got(v, Payload(item) + s, true)))
  {
    assert [] + s == s;
    match item
    case Wide(_) =>
    case Number(t, x) =>
      TypeRoundTrip(t, x);
      AsNumber(t, x, v, s);
    case Flag(b) =>
      FlagRoundTrip(b);
      AsFlag(b, v, s);
    case _ => AsPayloadIff(item, s);
  }

  // An item reads back as itself exactly when it fits, and then what follows it is left to read.
  lemma {:induction false} ItemRoundTripIff(item: Item, s: seq<byte>)
    ensures ReadsBack(item, s, ReadItem(KindOf(item), Encoding(item) + s))
  {
    HeaderReads(item, s);
    AsItemIff(item, Header(item), s);
  }

  ghost predicate AllFit(items: seq<Item>) {
    forall i :: 0 <= i < |items| ==> Fits(items[i])
  }

  lemma {:induction false} ReadFirst(item: Item, items: seq<Item>, s: seq<byte>)
    requires items != [] && item == items[0]
    ensures var g := ReadItem(KindOf(item), Encoding(item) + (Encodings(items[1..]) + s));
            var h := ReadAll(Kinds(items[1..]), g.rest);
            ReadAll(Kinds(items), Encodings(items) + s) == Got([g.value] + h.value, h.rest, g.ok && h.ok)
  {
    assert Encodings(items) + s == Encoding(item) + (Encodings(items[1..]) + s);
    assert Kinds(items)[1..] == Kinds(items[1..]);
  }

  ghost predicate AllReadBack(items: seq<Item>, s: seq<byte>, g: Got<seq<Item>>) {
    (g.value == items <==> AllFit(items)) && (g.value == items ==> g.rest == s && g.ok)
  }

  lemma {:induction false} ReadsBackFirst(items: seq<Item>, r: seq<byte>, s: seq<byte>, g: Got<Item>,
                                          h: Got<seq<Item>>)
    requires items != [] && ReadsBack(items[0], r, g)
    requires g.rest == r ==> AllReadBack(items[1..], s, h)
    ensures AllReadBack(items, s, Got([g.value] + h.value, h.rest, g.ok && h.ok))
  {
  }

  // A list of items reads back as itself exactly when every item fits, and then what follows it is left to read.
  lemma {:induction false} RecordRoundTripIff(items: seq<Item>, s: seq<byte>)
    ensures AllReadBack(items, s, ReadAll(Kinds(items), Encodings(items) + s))
    decreases |items|
  {
    if items == [] {
      assert [] + s == s;
    } else {
      var item, rest := items[0], items[1..];
      var r := Encodings(rest) + s;
      var g := ReadItem(KindOf(item), Encoding(item) + r);
      ItemRoundTripIff(item, r);
      RecordRoundTripIff(rest, s);
      ReadFirst(item, items, s);
      ReadsBackFirst(items, r, s, g, ReadAll(Kinds(rest), g.rest));
    }
  }

  // Written to a buffer with room enough and read back from what was written, with nothing left.
  lemma {:induction false} StreamRoundTripIff(buffer: seq<byte>, items: seq<Item>)
    requires |Encodings(items)| <= |buffer|
    ensures AllReadBack(items, [], ReadAll(Kinds(items), WriteAll(Fresh(buffer), items).data))
  {
    WriterRefines(buffer, items);
    RecordRoundTripIff(items, []);
    assert Encodings(items) + [] == Encodings(items);
  }
}
