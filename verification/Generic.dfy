// Decoding without a target type is the inverse of encoding, exactly when the encoder left
// nothing out and no object member lacks a key.
module Generic {
  import opened Bytes
  import opened Wire
  import opened Decode

  // The value an item stands for when it is read back without a target type.
  function Norm(it: Item): Any
    decreases it, 1
  {
    match it
    case Leaf(s) => Scalar(s)
    case Object(_, ms) => Map(NormMap(ms, map[]))
    case Array(_, ms) => List(NormList(ms, []))
  }

  function NormMap(ms: seq<Member>, m: map<bytes, Any>): map<bytes, Any>
    decreases ms, 2
  {
    if ms == [] then m else NormMap(ms[1..], m[ms[0].key := Norm(ms[0].item)])
  }

  function NormList(ms: seq<Member>, es: seq<Any>): seq<Any>
    decreases ms, 2
  {
    if ms == [] then es else NormList(ms[1..], es + [Norm(ms[0].item)])
  }

  // ---- Headers and scalars ----------------------------------------------------

  lemma NumberAt(data: bytes, off: nat, n: nat, w: nat)
    requires At(data, off, LE(n, w)) && n < Pow256(w)
    ensures Number(data, off, w) == Got(n, off + w)
  {
    FromLEofLE(n, w);
  }

  // The length field of an item holds the length of its content.
  lemma LengthFits(it: Item)
    requires SizesFit(it)
    ensures var w := LenWidth(TagOf(it)); w > 0 ==> |ContentOf(it)| < Pow256(w)
    ensures LenWidth(TagOf(it)) == 0 ==> |ContentOf(it)| == FixedWidth(TagOf(it))
  {
    Widths();
    match it
    case Leaf(s) =>
      match s {
        case Null =>
        case Bool(_) =>
        case Int32(_) =>
        case Int64(_) =>
        case Uint32(_) =>
        case Uint64(_) =>
        case Float32(_) =>
        case Float64(_) =>
        case Str(v) =>
        case Bin(v) =>
      }
    case Object(_, _) =>
    case Array(_, _) =>
  }

  // The number a fixed-width scalar is stored as.
  function Stored(s: Scalar): nat
    requires FixedWidth(Tag(s)) > 0
  {
    match s
    case Bool(b) => if b then 1 else 0
    case Int32(i) => W32.Wrap(i)
    case Int64(i) => W64.Wrap(i)
    case Uint32(u) => u
    case Uint64(u) => u
    case Float32(bits) => bits
    case Float64(bits) => bits
    case _ => 0
  }

  lemma StoredInverts(s: Scalar)
    requires FixedWidth(Tag(s)) > 0 && ScalarFits(s)
    ensures Stored(s) < Pow256(FixedWidth(Tag(s)))
    ensures Content(s) == LE(Stored(s), FixedWidth(Tag(s)))
    ensures FixedScalar(Tag(s), Stored(s)) == s
  {
    Widths();
    if s.Int32? { W32.WrapSignedIdentity(s.i); }
    if s.Int64? { W64.WrapSignedIdentity(s.i); }
    if s.Bool? || s.Null? { assert LE(Stored(s), 1) == [Stored(s)] + LE(0, 0); }
  }

  lemma ScalarTags(s: Scalar)
    ensures IsScalarTag(Tag(s))
    ensures FixedWidth(Tag(s)) > 0 <==> !s.Str? && !s.Bin?
    ensures LenWidth(Tag(s)) == 0 <==> FixedWidth(Tag(s)) > 0
  {
  }

  lemma ScalarFrameAt(data: bytes, off: nat, k: bytes, s: Scalar)
    requires At(data, off, EncScalar(k, s)) && KeyFits(k) && SizesFit(Leaf(s))
    ensures off + 1 < |data| && data[off] == Tag(s) && data[off + 1] == KeyLen(k)
    ensures At(data, off + 2, LE(|Content(s)|, LenWidth(Tag(s))))
    ensures At(data, off + 2 + LenWidth(Tag(s)) + KeyLen(k), Content(s))
    ensures off + |EncScalar(k, s)| == off + 2 + LenWidth(Tag(s)) + KeyLen(k) + |Content(s)|
    ensures LenWidth(Tag(s)) > 0 ==> |Content(s)| < Pow256(LenWidth(Tag(s)))
  {
    hide At, Tag, LE, Content, SizesFit, Frame, KeyFits, Pow256;
    LengthFits(Leaf(s));
    FrameAt(data, off, Tag(s), LE(|Content(s)|, LenWidth(Tag(s))), k, Content(s));
  }

  lemma ScalarRoundTrip(data: bytes, off: nat, k: bytes, s: Scalar)
    requires At(data, off, EncScalar(k, s)) && KeyFits(k) && SizesFit(Leaf(s))
    ensures off < |data| && data[off] == Tag(s) && IsScalarTag(Tag(s))
    ensures ScalarAt(data, off) == Got(s, off + |EncScalar(k, s)|)
  {
    hide At, Tag, Content, EncScalar, LE, FixedWidth, LenWidth, ScalarFits, Pow256;
    ScalarFrameAt(data, off, k, s);
    ScalarTags(s);
    if FixedWidth(Tag(s)) > 0 {
      FixedRoundTrip(data, off, off + 2 + KeyLen(k), s);
    } else {
      VariableRoundTrip(data, off, KeyLen(k), s);
    }
  }

  lemma FixedRoundTrip(data: bytes, off: nat, start: nat, s: Scalar)
    requires FixedWidth(Tag(s)) > 0 && ScalarFits(s)
    requires off + 1 < |data| && data[off] == Tag(s) && start == off + 2 + data[off + 1]
    requires At(data, start, Content(s))
    ensures Fixed(data, off) == Got(s, start + |Content(s)|)
  {
    StoredInverts(s);
    hide At, LE, FixedScalar, Content;
    NumberAt(data, start, Stored(s), FixedWidth(Tag(s)));
  }

  lemma VariableRoundTrip(data: bytes, off: nat, klen: nat, s: Scalar)
    requires (s.Str? || s.Bin?) && ScalarFits(s)
    requires off + 1 < |data| && data[off] == Tag(s) && data[off + 1] == klen
    requires At(data, off + 2, LE(|Content(s)|, LenWidth(Tag(s))))
    requires |Content(s)| < Pow256(LenWidth(Tag(s)))
    requires At(data, off + 2 + LenWidth(Tag(s)) + klen, Content(s))
    ensures Variable(data, off) == Got(s, off + 2 + LenWidth(Tag(s)) + klen + |Content(s)|)
  {
    hide LE, Number, Pow256, At;
    NumberAt(data, off + 2, |Content(s)|, LenWidth(Tag(s)));
    if s.Str? {
      StringRoundTrip(data, off, s.s);
    } else {
      BinaryRoundTrip(data, off, s.d);
    }
  }

  lemma StringRoundTrip(data: bytes, off: nat, v: bytes)
    requires off + 1 < |data| && data[off] in {STRING, SHORT_STRING}
    requires var p := off + 2 + LenWidth(data[off]);
             Number(data, off + 2, LenWidth(data[off])) == Got(|v| + 1, p) && At(data, p + data[off + 1], v + [0])
    ensures Variable(data, off) == Got(Str(v), off + 2 + LenWidth(data[off]) + data[off + 1] + |v| + 1)
  {
    hide Number, LenWidth;
    AtConcat(data, off + 2 + LenWidth(data[off]) + data[off + 1], v, [0]);
  }

  lemma BinaryRoundTrip(data: bytes, off: nat, v: bytes)
    requires off + 1 < |data| && data[off] in {BINARY, SHORT_BINARY}
    requires var p := off + 2 + LenWidth(data[off]);
             Number(data, off + 2, LenWidth(data[off])) == Got(|v|, p) && At(data, p + data[off + 1], v)
    ensures Variable(data, off) == Got(Bin(v), off + 2 + LenWidth(data[off]) + data[off + 1] + |v|)
  {
    hide Number, LenWidth;
  }

  lemma CountRoundTrip(data: bytes, off: nat, k: bytes, it: Item)
    requires !it.Leaf? && At(data, off, Enc(k, it)) && KeyFits(k) && SizesFit(it)
    ensures off < |data| && data[off] == ContainerTag(it)
    ensures var p := off + 10 + KeyLen(k);
            && Count(data, off) == Got(it.count, p)
            && At(data, p, EncAll(it.members))
            && p + |EncAll(it.members)| == off + |Enc(k, it)|
  {
    hide At, Frame, LE, FromLE;
    FrameAt(data, off, ContainerTag(it), LE(|Body(it)|, 4), k, Body(it));
    var p := off + 6 + KeyLen(k);
    assert At(data, p, LE(it.count, 4)) && At(data, p + 4, EncAll(it.members)) by {
      AtConcat(data, p, LE(it.count, 4), EncAll(it.members));
    }
    assert Number(data, p, 4) == Got(it.count, p + 4) by {
      Widths();
      NumberAt(data, p, it.count, 4);
    }
    assert PastKey(data, off, 4) == Got((), p);
  }

  // The parts of any item, and the first item of several.
  lemma ItemAt(data: bytes, off: nat, k: bytes, it: Item)
    requires At(data, off, Enc(k, it)) && KeyFits(k)
    ensures off + 1 < |data| && data[off] == TagOf(it) && data[off + 1] == KeyLen(k)
    ensures var w := LenWidth(TagOf(it));
            && At(data, off + 2, LE(|ContentOf(it)|, w))
            && At(data, off + 2 + w, KeyBytes(k))
            && off + |Enc(k, it)| == off + 2 + w + KeyLen(k) + |ContentOf(it)| <= |data|
  {
    hide At, TagOf, LenWidth, ContentOf, LE, Enc;
    EncIsFrame(k, it);
    FrameAt(data, off, TagOf(it), LE(|ContentOf(it)|, LenWidth(TagOf(it))), k, ContentOf(it));
  }

  lemma EncAllNil()
    ensures EncAll([]) == []
  {
  }

  lemma FirstAt(data: bytes, off: nat, ms: seq<Member>)
    requires At(data, off, EncAll(ms)) && ms != []
    ensures var e := Enc(ms[0].key, ms[0].item);
            && At(data, off, e)
            && At(data, off + |e|, EncAll(ms[1..]))
            && |EncAll(ms)| == |e| + |EncAll(ms[1..])|
  {
    hide At, Enc;
    AtConcat(data, off, Enc(ms[0].key, ms[0].item), EncAll(ms[1..]));
  }

  lemma KeyStartOf(it: Item)
    ensures KeyStart(TagOf(it)) == 2 + LenWidth(TagOf(it))
  {
  }

  // The key is found at the front of any item, in all three header layouts.
  lemma KeyRoundTrip(data: bytes, off: nat, k: bytes, it: Item)
    requires At(data, off, Enc(k, it)) && KeyFits(k)
    ensures KeyAt(data, off) == if k == [] then Failed(EmptyKey) else Got(k, off)
  {
    hide At, LE, Enc, ContentOf, Tag;
    ItemAt(data, off, k, it);
    KeyStartOf(it);
    var w := LenWidth(TagOf(it));
    hide TagOf, LenWidth, KeyStart;
    if k != [] {
      AtConcat(data, off + 2 + w, k, [0]);
      AtSlice(data, off + 2 + w, k);
    }
  }

  // Skipping returns exactly the item, whether or not its members are complete.
  lemma SkipRoundTrip(data: bytes, off: nat, k: bytes, it: Item)
    requires At(data, off, Enc(k, it)) && KeyFits(k) && SizesFit(it)
    ensures Skip(data, off) == Got(Enc(k, it), off + |Enc(k, it)|)
  {
    hide At, LE, FromLE, Enc, TagOf, LenWidth, ContentOf, SizesFit, FixedWidth, Pow256;
    ItemAt(data, off, k, it);
    LengthFits(it);
    AtSlice(data, off, Enc(k, it));
    if LenWidth(TagOf(it)) > 0 {
      NumberAt(data, off + 2, |ContentOf(it)|, LenWidth(TagOf(it)));
    }
  }

  // ---- Round trip -------------------------------------------------------------

  // Wherever a complete item lies in the data, and whatever surrounds it, decoding gives its
  // value and stops at its end.
  lemma {:induction false} AnyRoundTrip(data: bytes, off: nat, k: bytes, it: Item)
    requires At(data, off, Enc(k, it)) && Fits(k, it) && Complete(it) && Named(it)
    ensures AnyAt(data, off) == Got(Norm(it), off + |Enc(k, it)|)
    decreases it, 1
  {
    hide At, LE, EncScalar, Frame, Count, MapAt, ListAt, NormMap, NormList, ScalarAt, IsScalarTag, EncAll, KeyLen,
         AllSizesFit,
         AllKeysFit, AllComplete, AllNamed;
    match it
    case Leaf(s) => ScalarRoundTrip(data, off, k, s);
    case Object(n, ms) =>
      CountRoundTrip(data, off, k, it);
      MapRoundTrip(data, off + 10 + KeyLen(k), ms, map[]);
    case Array(n, ms) =>
      CountRoundTrip(data, off, k, it);
      ListRoundTrip(data, off + 10 + KeyLen(k), ms, []);
  }

  lemma {:induction false} MapRoundTrip(data: bytes, off: nat, ms: seq<Member>, m: map<bytes, Any>)
    requires At(data, off, EncAll(ms)) && AllFit(ms) && AllComplete(ms) && AllNamed(ms, true)
    ensures MapAt(data, off, |ms|, m) == Got(NormMap(ms, m), off + |EncAll(ms)|)
    decreases ms, 2
  {
    hide At, Enc, EncAll, AnyAt, KeyAt, Norm, SizesFit, Complete, Named;
    if ms == [] {
      EncAllNil();
    } else {
      var e := Enc(ms[0].key, ms[0].item);
      assert KeysFit(ms[0].key, ms[0].item);
      FirstAt(data, off, ms);
      KeyRoundTrip(data, off, ms[0].key, ms[0].item);
      AnyRoundTrip(data, off, ms[0].key, ms[0].item);
      MapRoundTrip(data, off + |e|, ms[1..], m[ms[0].key := Norm(ms[0].item)]);
    }
  }

  lemma {:induction false} ListRoundTrip(data: bytes, off: nat, ms: seq<Member>, es: seq<Any>)
    requires At(data, off, EncAll(ms)) && AllFit(ms) && AllComplete(ms) && AllNamed(ms, false)
    ensures ListAt(data, off, |ms|, es) == Got(NormList(ms, es), off + |EncAll(ms)|)
    decreases ms, 2
  {
    hide At, Enc, EncAll, AnyAt, Norm, SizesFit, Complete, Named;
    if ms == [] {
      EncAllNil();
    } else {
      var e := Enc(ms[0].key, ms[0].item);
      FirstAt(data, off, ms);
      AnyRoundTrip(data, off, ms[0].key, ms[0].item);
      ListRoundTrip(data, off + |e|, ms[1..], es + [Norm(ms[0].item)]);
    }
  }

  // ---- Exactly when it succeeds -----------------------------------------------

  // How many announced members the encoder left out, at all levels together.
  function Missing(it: Item): int
    decreases it, 1
  {
    if it.Leaf? then 0 else it.count - |it.members| + MissingAll(it.members)
  }

  function MissingAll(ms: seq<Member>): int
    decreases ms, 2
  {
    if ms == [] then 0 else Missing(ms[0].item) + MissingAll(ms[1..])
  }

  lemma {:induction false} NothingMissing(it: Item)
    requires SizesFit(it)
    ensures Missing(it) >= 0
    ensures Missing(it) == 0 <==> Complete(it)
    decreases it, 1
  {
    if !it.Leaf? {
      NothingMissingAll(it.members);
    }
  }

  lemma {:induction false} NothingMissingAll(ms: seq<Member>)
    requires AllSizesFit(ms)
    ensures MissingAll(ms) >= 0
    ensures MissingAll(ms) == 0 <==> AllComplete(ms)
    decreases ms, 2
  {
    if ms != [] {
      NothingMissing(ms[0].item);
      NothingMissingAll(ms[1..]);
    }
  }

  // The decoder's reading order seen as a count of items still owed: reading an item pays for
  // one, opening a container adds the members it announces. Gives the final position.
  function Owed(data: bytes, off: nat, owed: nat): (r: Read<()>)
    ensures r.Got? ==> r.off >= off
    decreases Left(data, off), owed
  {
    if owed == 0 then Got((), off)
    else if off >= |data| then Failed(OutOfRange)
    else if data[off] == OBJECT || data[off] == ARRAY then
      match Count(data, off)
      case Failed(f) => Failed(f)
      case Got(n, p) => Owed(data, p, n + owed - 1)
    else if IsScalarTag(data[off]) then
      match ScalarAt(data, off)
      case Failed(f) => Failed(f)
      case Got(_, p) => Owed(data, p, owed - 1)
    else Owed(data, off, owed - 1)
  }

  // Whatever decoding reads, it reads in that order.
  lemma {:induction false} AnyPays(data: bytes, off: nat, owed: nat)
    requires AnyAt(data, off).Got?
    ensures Owed(data, off, owed + 1) == Owed(data, AnyAt(data, off).off, owed)
    decreases Left(data, off), 0
  {
    if data[off] == OBJECT {
      var c := Count(data, off);
      MapPays(data, c.off, c.value, map[], owed);
    } else if data[off] == ARRAY {
      var c := Count(data, off);
      ListPays(data, c.off, c.value, [], owed);
    }
  }

  lemma {:induction false} MapPays(data: bytes, off: nat, n: nat, m: map<bytes, Any>, owed: nat)
    requires MapAt(data, off, n, m).Got?
    ensures Owed(data, off, n + owed) == Owed(data, MapAt(data, off, n, m).off, owed)
    decreases Left(data, off), 1 + n
  {
    hide KeyAt, AnyAt, Owed;
    if n > 0 {
      var a := AnyAt(data, off);
      AnyPays(data, off, n - 1 + owed);
      MapPays(data, a.off, n - 1, m[KeyAt(data, off).value := a.value], owed);
    }
  }

  lemma {:induction false} ListPays(data: bytes, off: nat, n: nat, es: seq<Any>, owed: nat)
    requires ListAt(data, off, n, es).Got?
    ensures Owed(data, off, n + owed) == Owed(data, ListAt(data, off, n, es).off, owed)
    decreases Left(data, off), 1 + n
  {
    hide AnyAt, Owed;
    if n > 0 {
      var a := AnyAt(data, off);
      AnyPays(data, off, n - 1 + owed);
      ListPays(data, a.off, n - 1, es + [a.value], owed);
    }
  }

  // After all encoded items are read, the items left out are still owed.
  lemma {:induction false} MissingStaysOwed(data: bytes, off: nat, ms: seq<Member>, owed: nat)
    requires At(data, off, EncAll(ms)) && AllFit(ms)
    ensures MissingAll(ms) >= 0
    ensures Owed(data, off, |ms| + owed) == Owed(data, off + |EncAll(ms)|, owed + MissingAll(ms))
    decreases |EncAll(ms)|, 1
  {
    hide At, Enc, EncAll, Owed, SizesFit, KeysFit, Complete, AllComplete, Missing;
    NothingMissingAll(ms);
    if ms == [] {
      EncAllNil();
    } else {
      var k, it, rest := ms[0].key, ms[0].item, ms[1..];
      var end := off + |Enc(k, it)|;
      FirstAt(data, off, ms);
      EncIsFrame(k, it);
      NothingMissing(it);
      LeafComplete(it);
      if it.Leaf? {
        OwedScalar(data, off, k, it, |rest| + owed);
        MissingStaysOwed(data, end, rest, owed);
      } else {
        MissingInContainer(data, off, k, it, |rest| + owed);
        MissingStaysOwed(data, end, rest, owed + Missing(it));
      }
    }
  }

  lemma OwedScalar(data: bytes, off: nat, k: bytes, it: Item, owed: nat)
    requires it.Leaf? && At(data, off, Enc(k, it)) && Fits(k, it)
    ensures Owed(data, off, owed + 1) == Owed(data, off + |Enc(k, it)|, owed)
  {
    hide At, EncScalar, ScalarAt;
    ScalarRoundTrip(data, off, k, it.scalar);
  }

  lemma {:induction false} MissingInContainer(data: bytes, off: nat, k: bytes, it: Item, owed: nat)
    requires !it.Leaf? && At(data, off, Enc(k, it)) && Fits(k, it)
    ensures Missing(it) >= 0
    ensures Owed(data, off, owed + 1) == Owed(data, off + |Enc(k, it)|, owed + Missing(it))
    decreases |Enc(k, it)|, 0
  {
    hide At, Enc, EncAll, Count;
    CountRoundTrip(data, off, k, it);
    var p := off + 10 + KeyLen(k);
    NothingMissingAll(it.members);
    assert Owed(data, off, owed + 1) == Owed(data, p, it.count + owed);
    MissingStaysOwed(data, p, it.members, it.count - |it.members| + owed);
  }

  // An object member without a key makes decoding of the otherwise complete item fail.
  lemma {:induction false} UnnamedFails(data: bytes, off: nat, k: bytes, it: Item)
    requires At(data, off, Enc(k, it)) && Fits(k, it) && Complete(it) && !Named(it)
    ensures AnyAt(data, off) == Failed(EmptyKey)
    decreases it, 1
  {
    hide At, Enc, EncAll, LE;
    CountRoundTrip(data, off, k, it);
    if it.Object? {
      UnnamedMapFails(data, off + 10 + KeyLen(k), it.members, map[]);
    } else {
      UnnamedListFails(data, off + 10 + KeyLen(k), it.members, []);
    }
  }

  lemma {:induction false} UnnamedMapFails(data: bytes, off: nat, ms: seq<Member>, m: map<bytes, Any>)
    requires At(data, off, EncAll(ms)) && AllFit(ms) && AllComplete(ms) && !AllNamed(ms, true)
    ensures MapAt(data, off, |ms|, m) == Failed(EmptyKey)
    decreases ms, 2
  {
    hide At, Enc, EncAll, AnyAt, Norm, SizesFit;
    var k, it := ms[0].key, ms[0].item;
    assert KeysFit(k, it);
    FirstAt(data, off, ms);
    KeyRoundTrip(data, off, k, it);
    if k != [] {
      if Named(it) {
        AnyRoundTrip(data, off, k, it);
        UnnamedMapFails(data, off + |Enc(k, it)|, ms[1..], m[k := Norm(it)]);
      } else {
        UnnamedFails(data, off, k, it);
      }
    }
  }

  lemma {:induction false} UnnamedListFails(data: bytes, off: nat, ms: seq<Member>, es: seq<Any>)
    requires At(data, off, EncAll(ms)) && AllFit(ms) && AllComplete(ms) && !AllNamed(ms, false)
    ensures ListAt(data, off, |ms|, es) == Failed(EmptyKey)
    decreases ms, 2
  {
    hide At, Enc, EncAll, AnyAt, Norm, SizesFit;
    var k, it := ms[0].key, ms[0].item;
    FirstAt(data, off, ms);
    if Named(it) {
      AnyRoundTrip(data, off, k, it);
      UnnamedListFails(data, off + |Enc(k, it)|, ms[1..], es + [Norm(it)]);
    } else {
      UnnamedFails(data, off, k, it);
    }
  }

  // Decoding exactly what was encoded succeeds, with the item's value and at the end of the
  // data, if and only if the encoder left out no announced member and every object member has
  // a key.
  lemma DecodesIff(k: bytes, it: Item)
    requires Fits(k, it)
    ensures AnyAt(Enc(k, it), 0).Got? <==> Complete(it) && Named(it)
    ensures Complete(it) && Named(it) ==> AnyAt(Enc(k, it), 0) == Got(Norm(it), |Enc(k, it)|)
  {
    hide At, Enc, AnyAt, Norm, Complete, Named, Missing, SizesFit, KeysFit;
    var data := Enc(k, it);
    AtStart(data);
    if Complete(it) {
      if Named(it) {
        AnyRoundTrip(data, 0, k, it);
      } else {
        UnnamedFails(data, 0, k, it);
      }
    } else if AnyAt(data, 0).Got? {
      NothingMissing(it);
      LeafComplete(it);
      MissingInContainer(data, 0, k, it, 0);
      AnyPays(data, 0, 0);
      OwesNothing(data, AnyAt(data, 0).off);
      PastEnd(data, |data|, Missing(it));
      assert false;
    }
  }

  lemma LeafComplete(it: Item)
    ensures it.Leaf? ==> Complete(it)
  {
  }

  lemma OwesNothing(data: bytes, off: nat)
    ensures Owed(data, off, 0) == Got((), off)
  {
  }

  lemma PastEnd(data: bytes, off: nat, owed: nat)
    requires off >= |data| && owed > 0
    ensures Owed(data, off, owed).Failed?
  {
  }
}
