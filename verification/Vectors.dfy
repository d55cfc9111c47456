// The wire formats in literal bytes: every tag, every header layout, both sides of each threshold
// and the byte order, as the tests expect them (mcpack/encode_test.go, mcpack/const.go,
// npc/header.go).
module Vectors {
  import opened Bytes
  import opened Wire
  import opened Decode
  import opened Values
  import opened Frames

  // ---- Numbers --------------------------------------------------------------------------------

  function Sum4(a: byte, b: byte, c: byte, d: byte): nat {
    a + 0x100 * b + 0x1_0000 * c + 0x100_0000 * d
  }

  lemma FourBytes(a: byte, b: byte, c: byte, d: byte)
    ensures LE(Sum4(a, b, c, d), 4) == [a, b, c, d]
    ensures FromLE([a, b, c, d]) == Sum4(a, b, c, d) < 0x1_0000_0000
  {
    hide LE, FromLE, Pow256, Sum4;
    var n2 := c + 0x100 * d;
    var n1 := b + 0x100 * n2;
    Horner(a, b, c, d);
    NoBytes(0);
    LowByte(d, 0, 0);
    LowByte(c, d, 1);
    LowByte(b, n2, 2);
    LowByte(a, n1, 3);
    Widths();
    FromLEofLE(Sum4(a, b, c, d), 4);
  }

  lemma Horner(a: byte, b: byte, c: byte, d: byte)
    ensures Sum4(a, b, c, d) == a + 0x100 * (b + 0x100 * (c + 0x100 * d)) < 0x1_0000_0000
  {
  }

  lemma EightBytes(a: byte, b: byte, c: byte, d: byte, e: byte, f: byte, g: byte, h: byte)
    ensures LE(Sum4(a, b, c, d) + 0x1_0000_0000 * Sum4(e, f, g, h), 8) == [a, b, c, d, e, f, g, h]
  {
    hide LE, Sum4;
    FourBytes(e, f, g, h);
    var n4 := Sum4(e, f, g, h);
    var n5 := d + 0x100 * n4;
    var n6 := c + 0x100 * n5;
    var n7 := b + 0x100 * n6;
    HighHalf(a, b, c, d, n4);
    LowByte(d, n4, 4);
    LowByte(c, n5, 5);
    LowByte(b, n6, 6);
    LowByte(a, n7, 7);
  }

  lemma HighHalf(a: byte, b: byte, c: byte, d: byte, n: nat)
    ensures Sum4(a, b, c, d) + 0x1_0000_0000 * n == a + 0x100 * (b + 0x100 * (c + 0x100 * (d + 0x100 * n)))
  {
  }

  lemma LowByte(a: byte, rest: nat, k: nat)
    ensures LE(a + 0x100 * rest, k + 1) == [a] + LE(rest, k)
  {
    var n := a + 0x100 * rest;
    TakeLow(a, rest);
    assert LE(n, k + 1) == [n % 256] + LE(n / 256, k);
    hide LE;
  }

  lemma TakeLow(a: byte, rest: nat)
    ensures (a + 0x100 * rest) % 256 == a && (a + 0x100 * rest) / 256 == rest
  {
  }

  lemma OneByte(n: byte)
    ensures LE(n, 1) == [n]
  {
    NoBytes(0);
    LowByte(n, 0, 0);
    hide LE;
  }

  lemma NoBytes(n: nat)
    ensures LE(n, 0) == []
  {
  }

  // ---- mcpack: items of fixed width --------------------------------------------------------------

  lemma NullBytes(k: byte)
    ensures Enc([], Leaf(Null)) == [0x61, 0, 0] && Enc([k], Leaf(Null)) == [0x61, 2, k, 0, 0]
  {
    NoBytes(1);
  }

  lemma BoolBytes(k: byte, v: bool)
    ensures Enc([k], Leaf(Bool(v))) == [0x31, 2, k, 0, if v then 1 else 0]
  {
    NoBytes(1);
  }

  // Two's complement in 32 bits.
  lemma Int32Bytes(k: byte, a: byte, b: byte, c: byte, d: byte)
    ensures var i := Sum4(a, b, c, d) - if d < 0x80 then 0 else 0x1_0000_0000;
            ScalarFits(Int32(i)) && Enc([k], Leaf(Int32(i))) == [0x14, 2, k, 0, a, b, c, d]
  {
    hide LE;
    FourBytes(a, b, c, d);
    NoBytes(4);
    ModInRange(Sum4(a, b, c, d) - if d < 0x80 then 0 else 0x1_0000_0000, 0x1_0000_0000);
  }

  lemma Uint32Bytes(k: byte, a: byte, b: byte, c: byte, d: byte)
    ensures Enc([k], Leaf(Uint32(Sum4(a, b, c, d)))) == [0x24, 2, k, 0, a, b, c, d]
    ensures Enc([k], Leaf(Float32(Sum4(a, b, c, d)))) == [0x44, 2, k, 0, a, b, c, d]
  {
    hide LE;
    FourBytes(a, b, c, d);
    NoBytes(4);
  }

  lemma Int64Bytes(k: byte, a: byte, b: byte, c: byte, d: byte, e: byte, f: byte, g: byte, h: byte)
    ensures var n := Sum4(a, b, c, d) + 0x1_0000_0000 * Sum4(e, f, g, h);
            var i := n - if h < 0x80 then 0 else 0x1_0000_0000_0000_0000;
            ScalarFits(Int64(i)) && Enc([k], Leaf(Int64(i))) == [0x18, 2, k, 0, a, b, c, d, e, f, g, h]
  {
    hide LE;
    EightBytes(a, b, c, d, e, f, g, h);
    NoBytes(8);
    var n := Sum4(a, b, c, d) + 0x1_0000_0000 * Sum4(e, f, g, h);
    ModInRange(n - if h < 0x80 then 0 else 0x1_0000_0000_0000_0000, 0x1_0000_0000_0000_0000);
  }

  lemma SmallInt64(k: byte, n: byte)
    ensures Enc([k], Leaf(Int64(n))) == [0x18, 2, k, 0, n, 0, 0, 0, 0, 0, 0, 0]
  {
    hide LE, Pow256;
    SmallBytes(n);
    NoBytes(8);
    ModInRange(n, 0x1_0000_0000_0000_0000);
  }

  lemma SmallBytes(n: byte)
    ensures LE(n, 8) == [n, 0, 0, 0, 0, 0, 0, 0]
  {
    hide LE;
    LE8(n);
    LE4(n);
    LE4(0);
  }

  lemma Uint64Bytes(k: byte, a: byte, b: byte, c: byte, d: byte, e: byte, f: byte, g: byte, h: byte)
    ensures var n := Sum4(a, b, c, d) + 0x1_0000_0000 * Sum4(e, f, g, h);
            && Enc([k], Leaf(Uint64(n))) == [0x28, 2, k, 0, a, b, c, d, e, f, g, h]
            && Enc([k], Leaf(Float64(n))) == [0x48, 2, k, 0, a, b, c, d, e, f, g, h]
  {
    hide LE, Sum4;
    EightBytes(a, b, c, d, e, f, g, h);
    NoBytes(8);
  }

  // ---- mcpack: strings and binaries ---------------------------------------------------------------

  // Up to 253 bytes a string is short: with its terminator it has at most 254.
  lemma ShortString(k: byte, v: bytes)
    requires |v| <= 253
    ensures Enc([k], Leaf(Str(v))) == [0xD0, 2, |v| + 1, k, 0] + v + [0]
  {
    hide LE;
    OneByte(|v| + 1);
    assert [0xD0, 2] + [|v| + 1] + [k, 0] + (v + [0]) == [0xD0, 2, |v| + 1, k, 0] + v + [0];
  }

  lemma LongString(k: byte, v: bytes, a: byte, b: byte, c: byte, d: byte)
    requires |v| >= 254 && |v| + 1 == Sum4(a, b, c, d)
    ensures Enc([k], Leaf(Str(v))) == [0x50, 2, a, b, c, d, k, 0] + v + [0]
  {
    hide LE;
    FourBytes(a, b, c, d);
    assert [0x50, 2] + [a, b, c, d] + [k, 0] + (v + [0]) == [0x50, 2, a, b, c, d, k, 0] + v + [0];
  }

  // Up to 255 bytes a binary is short.
  lemma ShortBinary(k: byte, v: bytes)
    requires |v| <= 255
    ensures Enc([k], Leaf(Bin(v))) == [0xE0, 2, |v|, k, 0] + v
  {
    hide LE;
    OneByte(|v|);
    assert [0xE0, 2] + [|v|] + [k, 0] + v == [0xE0, 2, |v|, k, 0] + v;
  }

  lemma LongBinary(k: byte, v: bytes, a: byte, b: byte, c: byte, d: byte)
    requires |v| >= 256 && |v| == Sum4(a, b, c, d)
    ensures Enc([k], Leaf(Bin(v))) == [0x60, 2, a, b, c, d, k, 0] + v
  {
    hide LE;
    FourBytes(a, b, c, d);
    assert [0x60, 2] + [a, b, c, d] + [k, 0] + v == [0x60, 2, a, b, c, d, k, 0] + v;
  }

  // Both sides of both thresholds, without a key.
  lemma Thresholds(s: bytes, l: bytes, x: bytes, y: bytes)
    requires |s| == 253 && |l| == 254 && |x| == 255 && |y| == 256
    ensures Enc([], Leaf(Str(s))) == [0xD0, 0, 254] + s + [0]
    ensures Enc([], Leaf(Str(l))) == [0x50, 0, 255, 0, 0, 0] + l + [0]
    ensures Enc([], Leaf(Bin(x))) == [0xE0, 0, 255] + x
    ensures Enc([], Leaf(Bin(y))) == [0x60, 0, 0, 1, 0, 0] + y
  {
    hide LE;
    OneByte(254);
    OneByte(255);
    FourBytes(255, 0, 0, 0);
    FourBytes(0, 1, 0, 0);
    assert [0xD0, 0] + [254] + [] + (s + [0]) == [0xD0, 0, 254] + s + [0];
    assert [0x50, 0] + [255, 0, 0, 0] + [] + (l + [0]) == [0x50, 0, 255, 0, 0, 0] + l + [0];
    assert [0xE0, 0] + [255] + [] + x == [0xE0, 0, 255] + x;
    assert [0x60, 0] + [0, 1, 0, 0] + [] + y == [0x60, 0, 0, 1, 0, 0] + y;
  }

  // ---- mcpack: containers ---------------------------------------------------------------------------

  // The length counts what follows the key: the member count and the members.
  lemma ObjectBytes(ms: seq<Member>, a: byte, b: byte, c: byte, d: byte, e: byte, f: byte, g: byte, h: byte)
    requires 4 + |EncAll(ms)| == Sum4(a, b, c, d)
    ensures var n := Sum4(e, f, g, h);
            && Enc([], Object(n, ms)) == [0x10, 0, a, b, c, d, e, f, g, h] + EncAll(ms)
            && Enc([], Array(n, ms)) == [0x20, 0, a, b, c, d, e, f, g, h] + EncAll(ms)
  {
    hide LE, EncAll;
    FourBytes(a, b, c, d);
    FourBytes(e, f, g, h);
    assert [0x10, 0] + [a, b, c, d] + [] + ([e, f, g, h] + EncAll(ms)) ==
           [0x10, 0, a, b, c, d, e, f, g, h] + EncAll(ms);
    assert [0x20, 0] + [a, b, c, d] + [] + ([e, f, g, h] + EncAll(ms)) ==
           [0x20, 0, a, b, c, d, e, f, g, h] + EncAll(ms);
  }

  lemma SmallObject(n: byte, ms: seq<Member>)
    requires |EncAll(ms)| < 252
    ensures Enc([], Object(n, ms)) == [0x10, 0, 4 + |EncAll(ms)|, 0, 0, 0, n, 0, 0, 0] + EncAll(ms)
  {
    hide EncAll, Enc;
    ObjectBytes(ms, 4 + |EncAll(ms)|, 0, 0, 0, n, 0, 0, 0);
  }

  lemma MembersBytes(a: Member, b: Member, c: Member)
    ensures EncAll([]) == [] && EncAll([a, b]) == Enc(a.key, a.item) + Enc(b.key, b.item)
    ensures EncAll([a, b, c]) == Enc(a.key, a.item) + Enc(b.key, b.item) + Enc(c.key, c.item)
  {
    hide Enc;
    assert [a, b, c][1..] == [b, c] && [b, c][1..] == [c] && [c][1..] == [] && [a, b][1..] == [b] && [b][1..] == [];
    assert EncAll([c]) == Enc(c.key, c.item) + [] && EncAll([b, c]) == Enc(b.key, b.item) + EncAll([c]);
    assert EncAll([b]) == Enc(b.key, b.item) + [];
  }

  // A struct with a bool, a string and an int.
  lemma StructVector()
    ensures Enc([], Object(3, [Member(['A' as int], Leaf(Bool(true))), Member(['X' as int], Leaf(Str(['x' as int]))),
                               Member(['Y' as int], Leaf(Int64(1)))])) ==
            [0x10, 0, 28, 0, 0, 0, 3, 0, 0, 0]
            + ([0x31, 2, 'A' as int, 0, 1]
               + [0xD0, 2, 2, 'X' as int, 0, 'x' as int, 0]
               + [0x18, 2, 'Y' as int, 0, 1, 0, 0, 0, 0, 0, 0, 0])
  {
    hide Enc;
    var a := Member(['A' as int], Leaf(Bool(true)));
    var x := Member(['X' as int], Leaf(Str(['x' as int])));
    var y := Member(['Y' as int], Leaf(Int64(1)));
    BoolBytes('A' as int, true);
    ShortString('X' as int, ['x' as int]);
    SmallInt64('Y' as int, 1);
    MembersBytes(a, x, y);
    assert EncAll([a, x, y]) == [0x31, 2, 'A' as int, 0, 1] + [0xD0, 2, 2, 'X' as int, 0, 'x' as int, 0]
                                + [0x18, 2, 'Y' as int, 0, 1, 0, 0, 0, 0, 0, 0, 0];
    SmallObject(3, [a, x, y]);
  }

  // An array of two negative numbers under a key: elements have no key.
  lemma ArrayVector()
    ensures var deta := ['D' as int, 'e' as int, 't' as int, 'a' as int];
            Enc(deta, Array(2, [Member([], Leaf(Int32(-18))), Member([], Leaf(Int32(-22)))])) ==
            [0x20, 5] + [0x10, 0, 0, 0] + (deta + [0])
            + ([2, 0, 0, 0] + ([0x14, 0, 0xee, 0xff, 0xff, 0xff] + [0x14, 0, 0xea, 0xff, 0xff, 0xff]))
  {
    hide LE, EncAll;
    var a, b := Member([], Leaf(Int32(-18))), Member([], Leaf(Int32(-22)));
    FourBytes(0x10, 0, 0, 0);
    FourBytes(2, 0, 0, 0);
    NegativeElement(-18);
    NegativeElement(-22);
    MembersBytes(a, b, b);
  }

  lemma NegativeElement(i: int)
    requires -0x100 <= i < 0
    ensures Enc([], Leaf(Int32(i))) == [0x14, 0, 0x100 + i, 0xff, 0xff, 0xff]
  {
    hide LE;
    FourBytes(0x100 + i, 0xff, 0xff, 0xff);
    ModInRange(i, 0x1_0000_0000);
    NoBytes(4);
  }

  // Keys of up to 254 bytes can be written; the length of the longest is stored as 255.
  lemma KeyVector(k: bytes, v: bool)
    ensures KeyFits(k) <==> |k| <= 254
    ensures |k| == 254 ==> Enc(k, Leaf(Bool(v))) == [0x31, 255] + k + [0, if v then 1 else 0]
  {
    NoBytes(1);
    if |k| == 254 {
      assert [0x31, 255] + [] + (k + [0]) + [if v then 1 else 0] == [0x31, 255] + k + [0, if v then 1 else 0];
    }
  }

  // ---- mcpack: what the encoder never writes --------------------------------------------------------

  // Eight- and sixteen-bit numbers have keys but no value that is read: decoding without a target
  // gives nil there, as for every other unknown tag, without moving the cursor. Skipping takes their
  // content to be empty.
  lemma UnknownTags(data: bytes, off: nat)
    requires off + 1 < |data|
    requires data[off] !in {0x10, 0x20, 0x50, 0x60, 0x14, 0x18, 0x24, 0x28, 0x31, 0x44, 0x48, 0x61, 0xD0, 0xE0}
    ensures AnyAt(data, off) == Got(Any.Scalar(Null), off)
    ensures var end := off + 2 + data[off + 1];
            Skip(data, off) == if end <= |data| then Got(data[off..end], end) else Failed(OutOfRange)
    ensures data[off + 1] > 0 && off + 1 + data[off + 1] <= |data| && data[off] in {0x11, 0x12, 0x21, 0x22} ==>
              KeyAt(data, off) == Got(data[off + 2..off + 1 + data[off + 1]], off)
  {
  }

  // Data that ends too early, and a string that announces no terminator.
  lemma TruncatedVectors()
    ensures AnyAt([], 0) == Failed(OutOfRange) && AnyAt([0x10], 0) == Failed(OutOfRange)
    ensures AnyAt([0x14, 0, 1, 2, 3], 0) == Failed(OutOfRange) && Skip([0x14, 0, 1, 2, 3], 0) == Failed(OutOfRange)
    ensures AnyAt([0xD0, 0, 0], 0) == Failed(OutOfRange) && Skip([0xD0, 0, 0], 0) == Got([0xD0, 0, 0], 3)
  {
    hide MapAt, ListAt, FromLE;
    ByteRead(0);
    assert [0xD0, 0, 0][2..3] == [0] && [0xD0, 0, 0][0..3] == [0xD0, 0, 0];
  }

  // Content that is not looked at: the last byte of a string, and the one of null; any byte but zero is
  // true.
  lemma UnreadBytes()
    ensures AnyAt([0xD0, 0, 2, 7], 0) == Got(Any.Scalar(Str([7])), 5)
    ensures AnyAt([0x61, 0], 0) == Got(Any.Scalar(Null), 3)
    ensures AnyAt([0x31, 0, 9], 0) == Got(Any.Scalar(Bool(true)), 3)
  {
    hide MapAt, ListAt, FromLE;
    ByteRead(2);
    ByteRead(9);
    assert [0xD0, 0, 2, 7][2..3] == [2] && [0xD0, 0, 2, 7][3..4] == [7] && [0x31, 0, 9][2..3] == [9];
  }

  lemma ByteRead(b: byte)
    ensures FromLE([b]) == b
  {
    assert [b][1..] == [];
  }

  // ---- npc --------------------------------------------------------------------------------------------

  lemma TwoBytes(a: byte, b: byte)
    ensures LE(a + 0x100 * b, 2) == [a, b]
  {
    var n := a + 0x100 * b;
    assert n % 256 == a && n / 256 == b;
    assert LE(n, 2) == [n % 256] + LE(n / 256, 1);
    OneByte(b);
  }

  lemma NumberBytes(n: nat, a: byte, b: byte, c: byte, d: byte)
    requires n == a + 0x100 * (b + 0x100 * (c + 0x100 * d))
    ensures LE(n, 4) == [a, b, c, d]
  {
    hide LE, Sum4;
    Horner(a, b, c, d);
    FourBytes(a, b, c, d);
  }

  // The order of the fields, their widths and the magic number.
  lemma HeaderVector(p: bytes)
    requires |p| == 16
    ensures HeaderBytes(Header(0x0102, 0x0304, 0x0506_0708, p, 0xfb70_9394, 0x090a_0b0c, 0x0d0e_0f10)) ==
            [0x02, 0x01, 0x04, 0x03, 0x08, 0x07, 0x06, 0x05] + p
            + [0x94, 0x93, 0x70, 0xfb, 0x0c, 0x0b, 0x0a, 0x09, 0x10, 0x0f, 0x0e, 0x0d]
  {
    hide LE;
    TwoBytes(0x02, 0x01);
    TwoBytes(0x04, 0x03);
    NumberBytes(0x0506_0708, 0x08, 0x07, 0x06, 0x05);
    NumberBytes(0xfb70_9394, 0x94, 0x93, 0x70, 0xfb);
    NumberBytes(0x090a_0b0c, 0x0c, 0x0b, 0x0a, 0x09);
    NumberBytes(0x0d0e_0f10, 0x10, 0x0f, 0x0e, 0x0d);
  }

  // What a request must be: fields that keep to their Go types, the magic number, and the length of
  // its body.
  lemma WellFormedIs(q: Message)
    ensures WellFormed(q) <==>
            && q.header.id < 0x1_0000 && q.header.version < 0x1_0000 && q.header.logId < 0x1_0000_0000
            && |q.header.provider| == 16 && q.header.magicNum == 0xfb70_9394 && q.header.reserved < 0x1_0000_0000
            && q.header.bodyLen == |q.body| < 0x1_0000_0000
  {
  }

  // The frame of a request with log id 7 and a body of two bytes, and that it can be read.
  lemma RequestVector(p: bytes, x: byte, y: byte)
    requires |p| == 16
    ensures var q := Message(Header(0, 0, 7, p, 0xfb70_9394, 0, 2), [x, y]);
            && WellFormed(q)
            && FrameBytes(q) == [0, 0, 0, 0, 7, 0, 0, 0] + p + [0x94, 0x93, 0x70, 0xfb, 0, 0, 0, 0, 2, 0, 0, 0] + [x, y]
            && ResponseAt(FrameBytes(q), 0) == Some((q, 38))
  {
    hide HeaderBytes, At, ResponseAt;
    var q := Message(Header(0, 0, 7, p, 0xfb70_9394, 0, 2), [x, y]);
    SmallHeader(p);
    AtStart(FrameBytes(q));
    ResponseRoundTrip(FrameBytes(q), 0, q);
  }

  lemma SmallHeader(p: bytes)
    requires |p| == 16
    ensures HeaderBytes(Header(0, 0, 7, p, 0xfb70_9394, 0, 2)) ==
            [0, 0, 0, 0, 7, 0, 0, 0] + p + [0x94, 0x93, 0x70, 0xfb, 0, 0, 0, 0, 2, 0, 0, 0]
  {
    hide LE;
    TwoBytes(0, 0);
    NumberBytes(0, 0, 0, 0, 0);
    NumberBytes(7, 7, 0, 0, 0);
    NumberBytes(2, 2, 0, 0, 0);
    NumberBytes(0xfb70_9394, 0x94, 0x93, 0x70, 0xfb);
  }
}
