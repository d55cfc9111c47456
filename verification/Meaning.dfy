// What Go values become, kind by kind: the bytes that Marshal gives, and what decoding them without a
// target type gives (newTypeEncoder in mcpack/encode.go, valueInterface in mcpack/decode.go).
module Meaning {
  import opened Bytes
  import opened Wire
  import opened Decode
  import opened Generic
  import opened Values
  import opened TypedTrip
  import opened Domain
  import opened Encoder
  import opened Codec

  // ---- The bytes ----------------------------------------------------------------------------------

  predicate IsNumber(data: bytes, tag: byte, w: nat, n: nat) {
    |data| == 2 + w && data[..2] == [tag, 0] && FromLE(data[2..]) == n
  }

  // A content of at most 255 bytes under one tag, or of at most 2^32 - 1 under another.
  predicate IsVariable(data: bytes, short: byte, long: byte, most: nat, content: bytes) {
    if |content| <= most then data == [short, 0, |content| % 256] + content
    else
      |content| < 0x1_0000_0000 ==>
        |data| == 6 + |content| && data[..2] == [long, 0] && FromLE(data[2..6]) == |content| && data[6..] == content
  }

  predicate IsContainer(data: bytes, tag: byte, n: nat) {
    && |data| >= 10 && data[..2] == [tag, 0]
    && (|data| < 0x1_0000_0000 ==> FromLE(data[2..6]) == |data| - 6)
    && (n < 0x1_0000_0000 ==> FromLE(data[6..10]) == n)
  }

  predicate AreBytes(es: seq<Value>, b: bytes) {
    |es| == |b| && forall i | 0 <= i < |es| :: es[i] == VUint(b[i])
  }

  // Eight-, sixteen- and thirty-two-bit integers are written with four bytes, other integers with
  // eight; nil pointers and interfaces as null; slices of bytes as binaries, a nil one as an empty
  // one; and nothing is written for maps with other keys than strings, channels and functions.
  ghost predicate HasForm(env: Env, t: TypeId, v: Value, data: bytes)
    decreases v
  {
    match KindOf(env, t)
    case KBool => v.VBool? && data == [0x31, 0, if v.b then 1 else 0]
    case KInt(w) =>
      v.VInt? && if w.W64? then IsNumber(data, 0x18, 8, v.n % 0x1_0000_0000_0000_0000)
                 else IsNumber(data, 0x14, 4, v.n % 0x1_0000_0000)
    case KUint(w) => v.VUint? && if w.W64? then IsNumber(data, 0x28, 8, v.u) else IsNumber(data, 0x24, 4, v.u)
    case KFloat32 => v.VFloat32? && IsNumber(data, 0x44, 4, v.bits)
    case KFloat64 => v.VFloat64? && IsNumber(data, 0x48, 8, v.bits)
    case KString => v.VString? && IsVariable(data, 0xD0, 0x50, 254, v.s + [0])
    case KInterface => if v.VIface? then HasForm(env, v.dyn, v.val, data) else data == [0x61, 0, 0]
    case KPtr(e) => if v.VPtr? then HasForm(env, e, v.p, data) else data == [0x61, 0, 0]
    case KStruct(_) => IsContainer(data, 0x10, |FieldsOf(env, t)|)
    case KMap(stringKey, _) => if stringKey then IsContainer(data, 0x10, |Entries(v)|) else data == []
    case KSlice(e) =>
      if KindOf(env, e) == KUint(W8)
      then exists b: bytes :: AreBytes(Elems(v), b) && IsVariable(data, 0xE0, 0x60, 255, b)
      else IsContainer(data, 0x20, |Elems(v)|)
    case KArray(n, _) => IsContainer(data, 0x20, n)
    case KChan => data == []
    case KOther => data == []
  }

  lemma NumberForm(tag: byte, w: nat, n: nat)
    requires n < Pow256(w)
    ensures IsNumber([tag, 0] + LE(n, w), tag, w, n)
  {
    FromLEofLE(n, w);
    assert ([tag, 0] + LE(n, w))[2..] == LE(n, w);
  }

  lemma ScalarForm(s: Scalar)
    requires ScalarFits(s) && FixedWidth(Tag(s)) > 0
    ensures Enc([], Leaf(s)) == [Tag(s), 0] + LE(Stored(s), FixedWidth(Tag(s)))
    ensures Stored(s) < Pow256(FixedWidth(Tag(s)))
  {
    StoredInverts(s);
    ScalarTags(s);
    hide Content, Tag, Stored, FixedWidth, Pow256;
    assert LE(|Content(s)|, 0) == [];
  }

  lemma OneByte(n: nat)
    ensures LE(n, 1) == [n % 256]
  {
    assert LE(n, 1) == [n % 256] + LE(n / 256, 0);
  }

  lemma ShortForm(short: byte, long: byte, most: nat, content: bytes)
    requires |content| <= most < 256
    ensures IsVariable([short, 0] + LE(|content|, 1) + content, short, long, most, content)
  {
    hide LE;
    OneByte(|content|);
  }

  lemma LongForm(short: byte, long: byte, most: nat, content: bytes)
    requires |content| > most
    ensures IsVariable([long, 0] + LE(|content|, 4) + content, short, long, most, content)
  {
    hide LE, FromLE, Pow256;
    Parts(long, LE(|content|, 4), content);
    if |content| < 0x1_0000_0000 {
      Widths();
      FromLEofLE(|content|, 4);
    }
  }

  lemma Parts(tag: byte, len: bytes, content: bytes)
    requires |len| == 4
    ensures var data := [tag, 0] + len + content; data[..2] == [tag, 0] && data[2..6] == len && data[6..] == content
  {
  }

  lemma ContainerForm(tag: byte, n: nat, rest: bytes)
    ensures var body := LE(n, 4) + rest; IsContainer([tag, 0] + LE(|body|, 4) + body, tag, n)
  {
    hide LE, FromLE, Pow256;
    var body := LE(n, 4) + rest;
    var data := [tag, 0] + LE(|body|, 4) + body;
    Widths();
    assert data[2..6] == LE(|body|, 4) && data[6..10] == LE(n, 4);
    if |body| < 0x1_0000_0000 { FromLEofLE(|body|, 4); }
    if n < 0x1_0000_0000 { FromLEofLE(n, 4); }
  }

  lemma ItemForm(it: Item)
    requires !it.Leaf?
    ensures IsContainer(Enc([], it), if it.Object? then 0x10 else 0x20, it.count)
  {
    hide LE, EncAll, IsContainer;
    ContainerForm(ContainerTag(it), it.count, EncAll(it.members));
    var h := [ContainerTag(it), 0] + LE(|Body(it)|, 4);
    assert h + [] == h;
  }

  lemma StringForm(v: bytes)
    ensures IsVariable(Enc([], Leaf(Str(v))), 0xD0, 0x50, 254, v + [0])
  {
    hide LE, IsVariable;
    if |v| < 254 { ShortForm(0xD0, 0x50, 254, v + [0]); } else { LongForm(0xD0, 0x50, 254, v + [0]); }
    var h := if |v| < 254 then [0xD0, 0] + LE(|v| + 1, 1) else [0x50, 0] + LE(|v| + 1, 4);
    assert h + [] == h;
  }

  lemma BinaryForm(b: bytes)
    ensures IsVariable(Enc([], Leaf(Bin(b))), 0xE0, 0x60, 255, b)
  {
    hide LE, IsVariable;
    if |b| <= 255 { ShortForm(0xE0, 0x60, 255, b); } else { LongForm(0xE0, 0x60, 255, b); }
    var h := if |b| <= 255 then [0xE0, 0] + LE(|b|, 1) else [0x60, 0] + LE(|b|, 4);
    assert h + [] == h;
  }

  lemma NumberItem(s: Scalar)
    requires ScalarFits(s) && FixedWidth(Tag(s)) > 0
    ensures IsNumber(Enc([], Leaf(s)), Tag(s), FixedWidth(Tag(s)), Stored(s))
  {
    hide LE, Content, Enc, Tag, FixedWidth, Stored, Pow256;
    ScalarForm(s);
    NumberForm(Tag(s), FixedWidth(Tag(s)), Stored(s));
  }

  lemma SmallItems()
    ensures Enc([], Leaf(Null)) == [0x61, 0, 0]
    ensures Enc([], Leaf(Bool(true))) == [0x31, 0, 1] && Enc([], Leaf(Bool(false))) == [0x31, 0, 0]
  {
    assert LE(1, 0) == [];
  }

  // The dispatch: whatever is marshalled has the form that its kind calls for.
  lemma {:induction false} MarshalForms(env: Env, t: TypeId, v: Value, data: bytes)
    requires InDomain(env, t, v) && MarshalOf(env, VIface(t, v)) == Output(data)
    ensures HasForm(env, t, v, data)
    decreases v
  {
    hide Enc, IsNumber, IsVariable, IsContainer, LowerFields, LowerEntries, LowerElems, KeysFit, FieldsInDomain,
         EntriesInDomain, ElemsInDomain, LE, FromLE;
    var it := Lower(env, t, v);
    match KindOf(env, t)
    case KInterface =>
      if v.VIface? { MarshalForms(env, v.dyn, v.val, data); } else { SmallItems(); }
    case KPtr(e) =>
      if v.VPtr? { MarshalForms(env, e, v.p, data); } else { SmallItems(); }
    case KBool => SmallItems();
    case KInt(_) => NumberItem(it.value.scalar);
    case KUint(_) => NumberItem(it.value.scalar);
    case KFloat32 => NumberItem(it.value.scalar);
    case KFloat64 => NumberItem(it.value.scalar);
    case KString => StringForm(v.s);
    case KStruct(_) => ItemForm(it.value);
    case KMap(stringKey, _) => if stringKey { ItemForm(it.value); }
    case KSlice(e) =>
      if IsByte(env, e) {
        BytesOf(env, e, Elems(v));
        BinaryForm(ToBytes(Elems(v)));
      } else {
        ItemForm(it.value);
      }
    case KArray(_, _) => ItemForm(it.value);
    case KChan =>
    case KOther =>
  }

  lemma {:induction false} ByteElems(env: Env, e: TypeId, es: seq<Value>, i: nat)
    requires IsByte(env, e) && ElemsInDomain(env, e, es) && i < |es|
    ensures es[i].VUint? && es[i].u < 256
  {
    if i > 0 {
      ByteElems(env, e, es[1..], i - 1);
    }
  }

  lemma BytesOf(env: Env, e: TypeId, es: seq<Value>)
    requires IsByte(env, e) && ElemsInDomain(env, e, es)
    ensures AreBytes(es, ToBytes(es))
  {
    forall i | 0 <= i < |es| ensures es[i] == VUint(ToBytes(es)[i]) {
      ByteElems(env, e, es, i);
    }
  }

  // ---- Read back without a target type ---------------------------------------------------------------

  // a is what the value stands for: integers keep their value and get one of two widths; a struct is a
  // map from the names of its fields to what they stand for; of several entries with one key, the
  // last counts.
  ghost predicate Means(env: Env, t: TypeId, v: Value, a: Any)
    decreases v, 1
  {
    match KindOf(env, t)
    case KBool => v.VBool? && a == Any.Scalar(Bool(v.b))
    case KInt(w) => v.VInt? && a == Any.Scalar(if w.W64? then Int64(v.n) else Int32(v.n))
    case KUint(w) => v.VUint? && a == Any.Scalar(if w.W64? then Uint64(v.u) else Uint32(v.u))
    case KFloat32 => v.VFloat32? && a == Any.Scalar(Float32(v.bits))
    case KFloat64 => v.VFloat64? && a == Any.Scalar(Float64(v.bits))
    case KString => v.VString? && a == Any.Scalar(Str(v.s))
    case KInterface => if v.VIface? then Means(env, v.dyn, v.val, a) else a == Any.Scalar(Null)
    case KPtr(e) => if v.VPtr? then Means(env, e, v.p, a) else a == Any.Scalar(Null)
    case KStruct(_) => a.Map? && FieldsMean(env, t, v, FieldsOf(env, t), a.m)
    case KMap(stringKey, e) =>
      stringKey && a.Map? && if v.VMap? then EntriesMean(env, e, v.entries, a.m) else a.m == map[]
    case KSlice(e) =>
      if KindOf(env, e) == KUint(W8) then a.Scalar? && a.s.Bin? && AreBytes(Elems(v), a.s.d)
      else a.List? && if v.VSlice? then ElemsMean(env, e, v.es, a.es) else a.es == []
    case KArray(_, e) => v.VArray? && a.List? && ElemsMean(env, e, v.es, a.es)
    case KChan => false
    case KOther => false
  }

  ghost predicate FieldsMean(env: Env, t: TypeId, v: Value, fs: seq<Field>, m: map<bytes, Any>)
    decreases v, 0
  {
    && (forall i | 0 <= i < |fs| ::
          && FieldAt(v, fs[i].index).Some? && fs[i].name in m
          && Means(env, TypeAt(env, t, fs[i].index), FieldAt(v, fs[i].index).value, m[fs[i].name]))
    && (forall k | k in m :: exists i | 0 <= i < |fs| :: fs[i].name == k)
  }

  // No later entry has the key of the i-th one.
  predicate LastOfKey(entries: seq<Entry>, i: nat) {
    i < |entries| && forall j | i < j < |entries| :: entries[j].key != entries[i].key
  }

  ghost predicate EntriesMean(env: Env, e: TypeId, entries: seq<Entry>, m: map<bytes, Any>)
    decreases entries, 2
  {
    && (forall i | 0 <= i < |entries| :: entries[i].key in m)
    && (forall i | 0 <= i < |entries| && LastOfKey(entries, i) :: Means(env, e, entries[i].val, m[entries[i].key]))
    && (forall k | k in m :: exists i | 0 <= i < |entries| :: entries[i].key == k)
  }

  ghost predicate ElemsMean(env: Env, e: TypeId, es: seq<Value>, l: seq<Any>)
    decreases es, 2
  {
    |l| == |es| && forall i | 0 <= i < |es| :: Means(env, e, es[i], l[i])
  }

  // ---- Members that are all there ---------------------------------------------------------------------

  // The i-th member is the only one with its key from there on.
  lemma {:induction false} NormMapLast(ms: seq<Member>, m: map<bytes, Any>, i: nat)
    requires i < |ms| && forall j | i < j < |ms| :: ms[j].key != ms[i].key
    ensures ms[i].key in NormMap(ms, m) && NormMap(ms, m)[ms[i].key] == Norm(ms[i].item)
    decreases ms
  {
    hide Norm;
    if i == 0 {
      NormMapOthers(ms[1..], m[ms[0].key := Norm(ms[0].item)], ms[0].key);
    } else {
      NormMapLast(ms[1..], m[ms[0].key := Norm(ms[0].item)], i - 1);
    }
  }

  // Keys that no member has keep what they had.
  lemma {:induction false} NormMapOthers(ms: seq<Member>, m: map<bytes, Any>, k: bytes)
    requires forall j | 0 <= j < |ms| :: ms[j].key != k
    ensures k in NormMap(ms, m) <==> k in m
    ensures k in m ==> NormMap(ms, m)[k] == m[k]
    decreases ms
  {
    hide Norm;
    if ms != [] {
      NormMapOthers(ms[1..], m[ms[0].key := Norm(ms[0].item)], k);
    }
  }

  lemma {:induction false} NormMapKeys(ms: seq<Member>, m: map<bytes, Any>, i: nat)
    requires i < |ms|
    ensures ms[i].key in NormMap(ms, m)
    decreases |ms| - i
  {
    if j :| i < j < |ms| && ms[j].key == ms[i].key {
      NormMapKeys(ms, m, j);
    } else {
      NormMapLast(ms, m, i);
    }
  }

  lemma {:induction false} NormListAt(ms: seq<Member>, es: seq<Any>)
    ensures |NormList(ms, es)| == |es| + |ms|
    ensures forall i | 0 <= i < |es| :: NormList(ms, es)[i] == es[i]
    ensures forall i | 0 <= i < |ms| :: NormList(ms, es)[|es| + i] == Norm(ms[i].item)
    decreases ms
  {
    hide Norm;
    if ms != [] {
      var es' := es + [Norm(ms[0].item)];
      NormListAt(ms[1..], es');
      assert NormList(ms, es)[|es|] == es'[|es|];
      forall i | 0 < i < |ms| ensures NormList(ms, es)[|es| + i] == Norm(ms[i].item) {
        assert NormList(ms[1..], es')[|es'| + (i - 1)] == Norm(ms[1..][i - 1].item);
      }
    }
  }

  // The member is the i-th, it has that key, and it is what the value is encoded as.
  ghost predicate IsMember(env: Env, t: TypeId, v: Value, ms: seq<Member>, i: nat, key: bytes) {
    i < |ms| && ms[i].key == key && Lower(env, t, v) == Some(ms[i].item) && Complete(ms[i].item)
  }

  lemma AllCompleteAt(ms: seq<Member>, i: nat)
    requires AllComplete(ms) && i < |ms|
    ensures Complete(ms[i].item)
    decreases ms
  {
    hide Complete;
    if i > 0 {
      AllCompleteAt(ms[1..], i - 1);
    }
  }

  lemma {:induction false} FewMembers(env: Env, t: TypeId, v: Value, fs: seq<Field>)
    ensures |LowerFields(env, t, v, fs)| <= |fs|
    decreases |fs|
  {
    hide Lower;
    if fs != [] {
      FewMembers(env, t, v, fs[1..]);
    }
  }

  // As many members as fields: every field has its own.
  lemma {:induction false} FieldMember(env: Env, t: TypeId, v: Value, fs: seq<Field>, i: nat)
    requires var ms := LowerFields(env, t, v, fs); |ms| == |fs| && AllComplete(ms)
    requires i < |fs|
    ensures FieldAt(v, fs[i].index).Some?
    ensures IsMember(env, TypeAt(env, t, fs[i].index), FieldAt(v, fs[i].index).value, LowerFields(env, t, v, fs), i,
                     fs[i].name)
    decreases |fs|
  {
    hide Lower, Complete;
    var ms := LowerFields(env, t, v, fs);
    FewMembers(env, t, v, fs[1..]);
    assert ms[1..] == LowerFields(env, t, v, fs[1..]);
    if i > 0 {
      FieldMember(env, t, v, fs[1..], i - 1);
    }
  }

  lemma {:induction false} FewEntries(env: Env, e: TypeId, entries: seq<Entry>)
    ensures |LowerEntries(env, e, entries)| <= |entries|
    decreases |entries|
  {
    hide Lower;
    if entries != [] {
      FewEntries(env, e, entries[1..]);
    }
  }

  lemma {:induction false} EntryMember(env: Env, e: TypeId, entries: seq<Entry>, i: nat)
    requires var ms := LowerEntries(env, e, entries); |ms| == |entries| && AllComplete(ms)
    requires i < |entries|
    ensures IsMember(env, e, entries[i].val, LowerEntries(env, e, entries), i, entries[i].key)
    decreases |entries|
  {
    hide Lower, Complete;
    FewEntries(env, e, entries[1..]);
    assert LowerEntries(env, e, entries)[1..] == LowerEntries(env, e, entries[1..]);
    if i > 0 {
      EntryMember(env, e, entries[1..], i - 1);
    }
  }

  lemma {:induction false} FewElems(env: Env, e: TypeId, es: seq<Value>)
    ensures |LowerElems(env, e, es)| <= |es|
    decreases |es|
  {
    hide Lower;
    if es != [] {
      FewElems(env, e, es[1..]);
    }
  }

  lemma {:induction false} ElemMember(env: Env, e: TypeId, es: seq<Value>, i: nat)
    requires var ms := LowerElems(env, e, es); |ms| == |es| && AllComplete(ms)
    requires i < |es|
    ensures IsMember(env, e, es[i], LowerElems(env, e, es), i, [])
    decreases |es|
  {
    hide Lower, Complete;
    FewElems(env, e, es[1..]);
    assert LowerElems(env, e, es)[1..] == LowerElems(env, e, es[1..]);
    if i > 0 {
      ElemMember(env, e, es[1..], i - 1);
    }
  }

  // ---- What is read back is what the value stands for ---------------------------------------------------

  lemma {:induction false} NormMeans(env: Env, t: TypeId, v: Value)
    requires AllResolved(env) && InDomain(env, t, v) && Lower(env, t, v).Some? && Complete(Lower(env, t, v).value)
    ensures Means(env, t, v, Norm(Lower(env, t, v).value))
    decreases v, 1
  {
    hide LowerFields, LowerEntries, LowerElems, FieldsInDomain, EntriesInDomain, ElemsInDomain, FieldsMean, EntriesMean,
         ElemsMean, AllComplete, NormMap, NormList, AllResolved;
    match KindOf(env, t)
    case KInterface => if v.VIface? { NormMeans(env, v.dyn, v.val); }
    case KPtr(e) => if v.VPtr? { NormMeans(env, e, v.p); }
    case KStruct(_) => StructMeans(env, t, v);
    case KMap(_, e) => MapMeans(env, t, v);
    case KSlice(e) =>
      if IsByte(env, e) {
        BytesOf(env, e, Elems(v));
      } else {
        if v.VSlice? { ListMeans(env, e, v.es); } else { NothingMeant(); }
      }
    case KArray(_, e) => ListMeans(env, e, v.es);
    case _ =>
  }

  lemma {:induction false} EntryInDomain(env: Env, e: TypeId, entries: seq<Entry>, i: nat)
    requires EntriesInDomain(env, e, entries) && i < |entries|
    ensures InDomain(env, e, entries[i].val)
  {
    hide InDomain;
    if i > 0 {
      EntryInDomain(env, e, entries[1..], i - 1);
    }
  }

  lemma {:induction false} ElemInDomain(env: Env, e: TypeId, es: seq<Value>, i: nat)
    requires ElemsInDomain(env, e, es) && i < |es|
    ensures InDomain(env, e, es[i])
  {
    hide InDomain;
    if i > 0 {
      ElemInDomain(env, e, es[1..], i - 1);
    }
  }

  // What NormMap makes of complete members with distinct keys.
  lemma FieldMeans(env: Env, t: TypeId, v: Value, fs: seq<Field>, i: nat)
    requires AllResolved(env) && Resolved(fs) && KindOf(env, t).KStruct? && InDomain(env, t, v)
    requires var ms := LowerFields(env, t, v, fs); |ms| == |fs| && AllComplete(ms)
    requires i < |fs|
    ensures var m := NormMap(LowerFields(env, t, v, fs), map[]);
            && FieldAt(v, fs[i].index).Some? && fs[i].name in m
            && Means(env, TypeAt(env, t, fs[i].index), FieldAt(v, fs[i].index).value, m[fs[i].name])
    decreases v, 0, 0
  {
    hide Lower, Complete, Means, InDomain, AllResolved, LowerFields, NormMap, Norm, FieldAt;
    var ms, p := LowerFields(env, t, v, fs), fs[i].index;
    FieldMember(env, t, v, fs, i);
    PathInDomain(env, t, v, p);
    NormMeans(env, TypeAt(env, t, p), FieldAt(v, p).value);
    forall j | i < j < |ms| ensures ms[j].key != ms[i].key {
      FieldMember(env, t, v, fs, j);
    }
    NormMapLast(ms, map[], i);
  }

  lemma StructMeans(env: Env, t: TypeId, v: Value)
    requires AllResolved(env) && KindOf(env, t).KStruct? && InDomain(env, t, v)
    requires Lower(env, t, v).Some? && Complete(Lower(env, t, v).value)
    ensures Means(env, t, v, Norm(Lower(env, t, v).value))
    decreases v, 0, 1
  {
    hide Means, FieldsInDomain, LowerFields, AllComplete, NormMap, Resolved;
    var fs := FieldsOf(env, t);
    var ms := LowerFields(env, t, v, fs);
    var m := NormMap(ms, map[]);
    ResolvedFor(env, t);
    forall i | 0 <= i < |fs|
      ensures FieldAt(v, fs[i].index).Some? && fs[i].name in m
      ensures Means(env, TypeAt(env, t, fs[i].index), FieldAt(v, fs[i].index).value, m[fs[i].name])
    {
      FieldMeans(env, t, v, fs, i);
    }
    forall k | k in m ensures exists i | 0 <= i < |fs| :: fs[i].name == k {
      if i :| 0 <= i < |ms| && ms[i].key == k {
        FieldMember(env, t, v, fs, i);
      } else {
        NormMapOthers(ms, map[], k);
      }
    }
    assert FieldsMean(env, t, v, fs, m);
    StructIs(env, t, v, Map(m));
  }

  lemma StructIs(env: Env, t: TypeId, v: Value, a: Any)
    requires KindOf(env, t).KStruct? && a.Map?
    ensures Means(env, t, v, a) == FieldsMean(env, t, v, FieldsOf(env, t), a.m)
  {
  }

  lemma MapMeans(env: Env, t: TypeId, v: Value)
    requires AllResolved(env) && KindOf(env, t).KMap? && InDomain(env, t, v)
    requires Lower(env, t, v).Some? && Complete(Lower(env, t, v).value)
    ensures Means(env, t, v, Norm(Lower(env, t, v).value))
    decreases v, 0, 1
  {
    hide EntriesInDomain, LowerEntries, AllComplete, NormMap, EntriesMean, AllResolved;
    var e := KindOf(env, t).elem;
    if v.VMap? {
      EntriesDenote(env, e, v.entries);
    } else {
      NothingMeant();
    }
  }

  lemma NothingMeant()
    ensures NormMap([], map[]) == map[] && NormList([], []) == []
  {
  }

  lemma EntriesDenote(env: Env, e: TypeId, entries: seq<Entry>)
    requires AllResolved(env) && EntriesInDomain(env, e, entries)
    requires var ms := LowerEntries(env, e, entries); |ms| == |entries| && AllComplete(ms)
    ensures EntriesMean(env, e, entries, NormMap(LowerEntries(env, e, entries), map[]))
    decreases entries, 0, 0
  {
    hide Lower, Complete, Means, InDomain, AllResolved, LowerEntries, NormMap, Norm, EntriesInDomain;
    var ms := LowerEntries(env, e, entries);
    var m := NormMap(ms, map[]);
    forall i | 0 <= i < |entries| ensures ms[i].key == entries[i].key && entries[i].key in m {
      EntryMember(env, e, entries, i);
      NormMapKeys(ms, map[], i);
    }
    forall i | 0 <= i < |entries| && LastOfKey(entries, i) ensures Means(env, e, entries[i].val, m[entries[i].key]) {
      EntryMember(env, e, entries, i);
      EntryInDomain(env, e, entries, i);
      NormMeans(env, e, entries[i].val);
      NormMapLast(ms, map[], i);
    }
    forall k | k in m ensures exists i | 0 <= i < |entries| :: entries[i].key == k {
      if forall i | 0 <= i < |ms| :: ms[i].key != k {
        NormMapOthers(ms, map[], k);
      }
    }
  }

  lemma ListMeans(env: Env, e: TypeId, es: seq<Value>)
    requires AllResolved(env) && ElemsInDomain(env, e, es)
    requires var ms := LowerElems(env, e, es); |ms| == |es| && AllComplete(ms)
    ensures ElemsMean(env, e, es, NormList(LowerElems(env, e, es), []))
    decreases es, 0, 0
  {
    hide Lower, Complete, Means, InDomain, AllResolved, LowerElems, Norm, ElemsInDomain;
    var ms := LowerElems(env, e, es);
    NormListAt(ms, []);
    forall i | 0 <= i < |es| ensures Means(env, e, es[i], NormList(ms, [])[i]) {
      ElemMember(env, e, es, i);
      ElemInDomain(env, e, es, i);
      NormMeans(env, e, es[i]);
      assert NormList(ms, [])[0 + i] == Norm(ms[i].item);
    }
  }

  // Whatever Marshal writes is read back without a target type as what the value stands for, if and
  // only if it can be read back at all.
  lemma UntypedMeans(env: Env, t: TypeId, v: Value, data: bytes)
    requires Program(env) && InDomain(env, t, v)
    requires MarshalOf(env, VIface(t, v)) == Output(data) && 0 < |data| < 0x1_0000_0000
    ensures if Readable(env, t, v)
            then AnyAt(data, 0).Got? && AnyAt(data, 0).off == |data| && Means(env, t, v, AnyAt(data, 0).value)
            else AnyAt(data, 0).Failed?
  {
    hide Program, InDomain, Lower, Enc, KeysFit, Readable, AnyAt, Norm, Means, Complete, Named, AllResolved;
    ThereAndBack(env, t, v);
    ReadableIff(env, t, v);
    ProgramFields(env);
    if Readable(env, t, v) {
      NormMeans(env, t, v);
    }
  }

  // ---- A value stands for one thing -----------------------------------------------------------------------

  lemma {:induction false} MeansOne(env: Env, t: TypeId, v: Value, a: Any, b: Any)
    requires Means(env, t, v, a) && Means(env, t, v, b)
    ensures a == b
    decreases v, 1
  {
    hide FieldsMean, EntriesMean, ElemsMean;
    match KindOf(env, t)
    case KInterface => if v.VIface? { MeansOne(env, v.dyn, v.val, a, b); }
    case KPtr(e) => if v.VPtr? { MeansOne(env, e, v.p, a, b); }
    case KStruct(_) => FieldsMeanOne(env, t, v, FieldsOf(env, t), a.m, b.m);
    case KMap(_, e) => if v.VMap? { EntriesMeanOne(env, e, v.entries, a.m, b.m); }
    case KSlice(e) => if v.VSlice? && !IsByte(env, e) { ElemsMeanOne(env, e, v.es, a.es, b.es); }
    case KArray(_, e) => ElemsMeanOne(env, e, v.es, a.es, b.es);
    case _ =>
  }

  lemma {:induction false} FieldsMeanOne(env: Env, t: TypeId, v: Value, fs: seq<Field>, m: map<bytes, Any>,
                                         n: map<bytes, Any>)
    requires FieldsMean(env, t, v, fs, m) && FieldsMean(env, t, v, fs, n)
    ensures m == n
    decreases v, 0
  {
    hide Means, FieldAt;
    assert forall k :: k in m <==> k in n;
    forall k | k in m ensures m[k] == n[k] {
      var i :| 0 <= i < |fs| && fs[i].name == k;
      MeansOne(env, TypeAt(env, t, fs[i].index), FieldAt(v, fs[i].index).value, m[k], n[k]);
    }
  }

  lemma {:induction false} LastWith(entries: seq<Entry>, i: nat) returns (j: nat)
    requires i < |entries|
    ensures i <= j && LastOfKey(entries, j) && entries[j].key == entries[i].key
    decreases |entries| - i
  {
    if k :| i < k < |entries| && entries[k].key == entries[i].key {
      j := LastWith(entries, k);
    } else {
      j := i;
    }
  }

  lemma {:induction false} EntriesMeanOne(env: Env, e: TypeId, entries: seq<Entry>, m: map<bytes, Any>,
                                          n: map<bytes, Any>)
    requires EntriesMean(env, e, entries, m) && EntriesMean(env, e, entries, n)
    ensures m == n
    decreases entries, 2
  {
    hide Means;
    assert forall k :: k in m <==> k in n;
    forall k | k in m ensures m[k] == n[k] {
      var i :| 0 <= i < |entries| && entries[i].key == k;
      var j := LastWith(entries, i);
      MeansOne(env, e, entries[j].val, m[k], n[k]);
    }
  }

  lemma {:induction false} ElemsMeanOne(env: Env, e: TypeId, es: seq<Value>, l: seq<Any>, k: seq<Any>)
    requires ElemsMean(env, e, es, l) && ElemsMean(env, e, es, k)
    ensures l == k
    decreases es, 2
  {
    hide Means;
    forall i | 0 <= i < |es| ensures l[i] == k[i] {
      MeansOne(env, e, es[i], l[i], k[i]);
    }
  }
}
