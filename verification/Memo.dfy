// Encoders are built once per type and cached before they are finished, so that types may refer
// to themselves (typeEncoder and newTypeEncoder in mcpack/encode.go); and what they write when
// they run.
module Memo {
  import opened Bytes
  import opened Wire
  import opened Encoder
  import opened Values
  import opened Fields

  // A built encoder. A placeholder stands for a type whose encoder was still being built when
  // it was asked for; when it runs, it calls what that type's encoder has become.
  datatype EncoderFn =
    | Placeholder(t: TypeId)
    | Direct(kind: Kind)  // scalars, interfaces and unsupported types
    | BytesFn
    | StructFn(fields: seq<Field>, encs: seq<EncoderFn>)
    | MapFn(elem: EncoderFn)
    | SliceFn(elem: EncoderFn)
    | ArrayFn(elem: EncoderFn)
    | PtrFn(elem: EncoderFn)

  type Cache = map<TypeId, EncoderFn>

  // Kinds whose encoder does not refer to other types.
  predicate IsDirect(k: Kind) {
    match k
    case KStruct(_) => false
    case KMap(stringKey, _) => !stringKey
    case KSlice(_) => false
    case KArray(_, _) => false
    case KPtr(_) => false
    case _ => true
  }

  // fn is an encoder for type t, up to placeholders for types in the cache.
  ghost predicate EncodesType(env: Env, m: Cache, fn: EncoderFn, t: TypeId)
    decreases fn, 1
  {
    match fn
    case Placeholder(u) => u == t && t in m
    case Direct(k) => k == KindOf(env, t) && IsDirect(k)
    case BytesFn => KindOf(env, t).KSlice? && IsByte(env, KindOf(env, t).elem)
    case StructFn(fs, encs) => KindOf(env, t).KStruct? && fs == FieldsOf(env, t) && EncodeFields(env, m, encs, t, fs)
    case MapFn(e) => KindOf(env, t).KMap? && KindOf(env, t).stringKey && EncodesType(env, m, e, KindOf(env, t).elem)
    case SliceFn(e) =>
      KindOf(env, t).KSlice? && !IsByte(env, KindOf(env, t).elem) && EncodesType(env, m, e, KindOf(env, t).elem)
    case ArrayFn(e) => KindOf(env, t).KArray? && EncodesType(env, m, e, KindOf(env, t).elem)
    case PtrFn(e) => KindOf(env, t).KPtr? && EncodesType(env, m, e, KindOf(env, t).elem)
  }

  ghost predicate EncodeFields(env: Env, m: Cache, encs: seq<EncoderFn>, t: TypeId, fs: seq<Field>)
    decreases encs, 2
  {
    if encs == [] || fs == [] then encs == [] && fs == []
    else EncodesType(env, m, encs[0], TypeAt(env, t, fs[0].index)) && EncodeFields(env, m, encs[1..], t, fs[1..])
  }

  ghost predicate Coherent(env: Env, m: Cache) {
    forall t | t in m :: EncodesType(env, m, m[t], t)
  }

  ghost predicate Finished(m: Cache) {
    forall t | t in m :: !m[t].Placeholder?
  }

  // m' has everything m has, and what is new in it is finished.
  ghost predicate Extends(m: Cache, m': Cache) {
    && m.Keys <= m'.Keys
    && (forall t | t in m :: m'[t] == m[t])
    && (forall t | t in m' && t !in m :: !m'[t].Placeholder?)
  }

  lemma {:induction false} StillEncodes(env: Env, m: Cache, m': Cache, fn: EncoderFn, t: TypeId)
    requires EncodesType(env, m, fn, t) && m.Keys <= m'.Keys
    ensures EncodesType(env, m', fn, t)
    decreases fn, 1
  {
    match fn
    case Placeholder(_) =>
    case Direct(_) =>
    case BytesFn =>
    case StructFn(fs, encs) => StillEncodeFields(env, m, m', encs, t, fs);
    case MapFn(e) => StillEncodes(env, m, m', e, KindOf(env, t).elem);
    case SliceFn(e) => StillEncodes(env, m, m', e, KindOf(env, t).elem);
    case ArrayFn(e) => StillEncodes(env, m, m', e, KindOf(env, t).elem);
    case PtrFn(e) => StillEncodes(env, m, m', e, KindOf(env, t).elem);
  }

  lemma {:induction false} StillEncodeFields(env: Env, m: Cache, m': Cache, encs: seq<EncoderFn>, t: TypeId,
                                             fs: seq<Field>)
    requires EncodeFields(env, m, encs, t, fs) && m.Keys <= m'.Keys
    ensures EncodeFields(env, m', encs, t, fs)
    decreases encs, 2
  {
    if encs != [] {
      StillEncodes(env, m, m', encs[0], TypeAt(env, t, fs[0].index));
      StillEncodeFields(env, m, m', encs[1..], t, fs[1..]);
    }
  }

  lemma {:induction false} OneMoreField(env: Env, m: Cache, encs: seq<EncoderFn>, t: TypeId, fs: seq<Field>,
                                        e: EncoderFn, f: Field)
    requires EncodeFields(env, m, encs, t, fs) && EncodesType(env, m, e, TypeAt(env, t, f.index))
    ensures EncodeFields(env, m, encs + [e], t, fs + [f])
    decreases encs
  {
    hide EncodesType;
    if encs == [] {
      assert [e][1..] == [] && [f][1..] == [];
      assert encs + [e] == [e] && fs + [f] == [f];
    } else {
      OneMoreField(env, m, encs[1..], t, fs[1..], e, f);
      assert (encs + [e])[1..] == encs[1..] + [e] && (fs + [f])[1..] == fs[1..] + [f];
    }
  }

  lemma CoherentWith(env: Env, m: Cache, t: TypeId, fn: EncoderFn)
    requires Coherent(env, m) && EncodesType(env, m[t := fn], fn, t)
    ensures Coherent(env, m[t := fn])
  {
    var m' := m[t := fn];
    forall u | u in m' ensures EncodesType(env, m', m'[u], u) {
      if u != t {
        StillEncodes(env, m, m', m[u], u);
      }
    }
  }

  class EncoderCache {
    var m: Cache

    constructor ()
      ensures m == map[]
    {
      m := map[];
    }

    // typeEncoder. Ends on every type graph: a type is cached before the types it refers to
    // are looked at.
    method TypeEncoder(env: Env, t: TypeId) returns (f: EncoderFn)
      requires Coherent(env, m)
      modifies this
      ensures Coherent(env, m) && Extends(old(m), m) && t in m
      ensures EncodesType(env, m, f, t)
      decreases Below(|env.kinds|) - m.Keys, 1
    {
      hide EncodesType, Coherent;
      if t in m {
        IsCoherent(env, m, t);
        return m[t];
      }
      ghost var m0 := m;
      PlaceholderEncodes(env, m, t);
      CoherentWith(env, m, t, Placeholder(t));
      m := m[t := Placeholder(t)];
      f := NewTypeEncoder(env, t);
      StillEncodes(env, m, m[t := f], f, t);
      CoherentWith(env, m, t, f);
      m := m[t := f];
    }

    method NewTypeEncoder(env: Env, t: TypeId) returns (f: EncoderFn)
      requires Coherent(env, m) && t in m
      modifies this
      ensures Coherent(env, m) && Extends(old(m), m)
      ensures EncodesType(env, m, f, t) && !f.Placeholder?
      decreases Below(|env.kinds|) - m.Keys, if t < |env.kinds| then 2 else 0
    {
      hide Coherent;
      match KindOf(env, t) {
        case KStruct(_) =>
          f := NewStructEncoder(env, t);
        case KMap(stringKey, e) =>
          if stringKey {
            var elem := TypeEncoder(env, e);
            f := MapFn(elem);
          } else {
            f := Direct(KindOf(env, t));
          }
        case KSlice(e) =>
          if IsByte(env, e) {
            f := BytesFn;
          } else {
            var elem := TypeEncoder(env, e);
            f := SliceFn(elem);
          }
        case KArray(_, e) =>
          var elem := TypeEncoder(env, e);
          f := ArrayFn(elem);
        case KPtr(e) =>
          var elem := TypeEncoder(env, e);
          f := PtrFn(elem);
        case _ =>
          f := Direct(KindOf(env, t));
      }
    }

    method NewStructEncoder(env: Env, t: TypeId) returns (f: EncoderFn)
      requires Coherent(env, m) && t < |env.kinds| && KindOf(env, t).KStruct?
      modifies this
      ensures Coherent(env, m) && Extends(old(m), m)
      ensures EncodesType(env, m, f, t) && f.StructFn?
      decreases Below(|env.kinds|) - m.Keys, 2, 0
    {
      hide Coherent;
      var fs := FieldsOf(env, t);
      var encs: seq<EncoderFn> := [];
      for i := 0 to |fs|
        invariant Coherent(env, m) && Extends(old(m), m)
        invariant EncodeFields(env, m, encs, t, fs[..i])
      {
        hide EncodesType, EncodeFields;
        ghost var m0 := m;
        var e := TypeEncoder(env, TypeAt(env, t, fs[i].index));
        StillEncodeFields(env, m0, m, encs, t, fs[..i]);
        OneMoreField(env, m, encs, t, fs[..i], e, fs[i]);
        assert fs[..i] + [fs[i]] == fs[..i + 1];
        encs := encs + [e];
      }
      assert fs[..|fs|] == fs;
      f := StructFn(fs, encs);
    }

    // ---- Running a built encoder ----------------------------------------------------

    // Appends what choosing by kind at every level gives for the value; a value of an unsupported
    // kind writes nothing. Encoders for the dynamic types of interfaces are built on the way.
    method Run(env: Env, fn: EncoderFn, t: TypeId, e: EncodeState, k: bytes, v: Value) returns (ok: bool)
      requires Coherent(env, m) && Finished(m) && EncodesType(env, m, fn, t)
      requires e.Valid() && e.Tight()
      modifies this, e, e.data
      ensures Coherent(env, m) && Finished(m) && Extends(old(m), m)
      ensures e.Valid() && (e.data == old(e.data) || fresh(e.data)) && e.copied >= old(e.copied)
      ensures ok == OptionFits(k, Lower(env, t, v))
      ensures ok ==> e.Tight() && e.Written() == old(e.Written()) + EncOption(k, Lower(env, t, v))
      decreases v, 5, if fn.Placeholder? then 1 else 0
    {
      hide Coherent, EncodeFields, Enc, EncAll, EncScalar, KeysFit, LowerFields;
      LeafOption(k, Lower(env, t, v));
      ok := true;
      match fn {
        case Placeholder(u) =>
          IsCoherent(env, m, u);
          ok := Run(env, m[u], u, e, k, v);
        case Direct(kind) =>
          if kind.KInterface? && v.VIface? {
            var dyn := TypeEncoder(env, v.dyn);
            ok := Run(env, dyn, v.dyn, e, k, v.val);
          } else {
            ok := DirectEncoder(env, kind, t, e, k, v);
          }
        case BytesFn =>
          if v.VNil? || v.VSlice? {
            ok := e.LeafEncoder(k, Bin(ToBytes(Elems(v))));
          }
        case StructFn(fs, encs) =>
          if v.VStruct? {
            ok := StructEncoder(env, encs, t, fs, e, k, v);
          }
        case MapFn(elem) =>
          if v.VNil? || v.VMap? {
            ok := MapEncoder(env, elem, KindOf(env, t).elem, e, k, v);
          }
        case SliceFn(elem) =>
          if v.VNil? || v.VSlice? {
            ok := ArrayEncoder(env, elem, KindOf(env, t).elem, e, k, v);
          }
        case ArrayFn(elem) =>
          if v.VArray? {
            ok := ArrayEncoder(env, elem, KindOf(env, t).elem, e, k, v);
          }
        case PtrFn(elem) =>
          if v.VNil? {
            ok := e.LeafEncoder(k, Null);
          } else if v.VPtr? {
            ok := Run(env, elem, KindOf(env, t).elem, e, k, v.p);
          }
      }
    }

    // The encoders that do not refer to other types.
    method DirectEncoder(env: Env, kind: Kind, t: TypeId, e: EncodeState, k: bytes, v: Value) returns (ok: bool)
      requires kind == KindOf(env, t) && IsDirect(kind) && !(kind.KInterface? && v.VIface?)
      requires e.Valid() && e.Tight()
      modifies e, e.data
      ensures e.Valid() && (e.data == old(e.data) || fresh(e.data)) && e.copied >= old(e.copied)
      ensures ok == OptionFits(k, Lower(env, t, v))
      ensures ok ==> e.Tight() && e.Written() == old(e.Written()) + EncOption(k, Lower(env, t, v))
    {
      hide Enc, EncAll, EncScalar, KeysFit, LowerFields, LowerEntries, LowerElems;
      LeafOption(k, Lower(env, t, v));
      ok := true;
      match kind {
        case KBool =>
          if v.VBool? { ok := e.LeafEncoder(k, Bool(v.b)); }
        case KInt(w) =>
          if v.VInt? { ok := e.LeafEncoder(k, if w == W64 then Int64(v.n) else Int32(v.n)); }
        case KUint(w) =>
          if v.VUint? { ok := e.LeafEncoder(k, if w == W64 then Uint64(v.u) else Uint32(v.u)); }
        case KFloat32 =>
          if v.VFloat32? { ok := e.LeafEncoder(k, Float32(v.bits)); }
        case KFloat64 =>
          if v.VFloat64? { ok := e.LeafEncoder(k, Float64(v.bits)); }
        case KString =>
          if v.VString? { ok := e.LeafEncoder(k, Str(v.s)); }
        case KInterface =>
          if v.VNil? { ok := e.LeafEncoder(k, Null); }
        case _ =>
      }
    }

    // Encodes one member of an open container; body is what the container holds so far.
    method RunMember(env: Env, fn: EncoderFn, t: TypeId, e: EncodeState, key: bytes, v: Value,
                     ghost w0: bytes, ghost tag: byte, ghost k: bytes, ghost body: bytes)
      returns (ok: bool)
      requires Coherent(env, m) && Finished(m) && EncodesType(env, m, fn, t)
      requires e.Valid() && e.Tight() && Open(e.Written(), w0, tag, k, body)
      modifies this, e, e.data
      ensures Coherent(env, m) && Finished(m) && Extends(old(m), m)
      ensures e.Valid() && (e.data == old(e.data) || fresh(e.data)) && e.copied >= old(e.copied)
      ensures ok == OptionFits(key, Lower(env, t, v))
      ensures ok ==> e.Tight() && e.off == old(e.off) + |EncOption(key, Lower(env, t, v))|
      ensures ok ==> Open(e.Written(), w0, tag, k, body + EncOption(key, Lower(env, t, v)))
      decreases v, 6, 0
    {
      hide Coherent, EncodesType, Open, EncOption, OptionFits, Lower;
      ghost var w := e.Written();
      ok := Run(env, fn, t, e, key, v);
      if ok {
        OpenGrows(w, w0, tag, k, body, EncOption(key, Lower(env, t, v)));
      }
    }

    // What one field writes: nothing if it is unreachable or omitted.
    method RunField(env: Env, fn: EncoderFn, t: TypeId, f: Field, e: EncodeState, v: Value,
                    ghost w0: bytes, ghost tag: byte, ghost k: bytes, ghost body: bytes)
      returns (ok: bool)
      requires Coherent(env, m) && Finished(m) && EncodesType(env, m, fn, TypeAt(env, t, f.index))
      requires e.Valid() && e.Tight() && Open(e.Written(), w0, tag, k, body)
      modifies this, e, e.data
      ensures Coherent(env, m) && Finished(m) && Extends(old(m), m)
      ensures e.Valid() && (e.data == old(e.data) || fresh(e.data)) && e.copied >= old(e.copied)
      ensures ok == AllKeysFit(LowerField(env, t, v, f))
      ensures ok ==> e.Tight() && e.off == old(e.off) + |EncAll(LowerField(env, t, v, f))|
      ensures ok ==> Open(e.Written(), w0, tag, k, body + EncAll(LowerField(env, t, v, f)))
      decreases v, 4, 0
    {
      hide Coherent, EncodesType, Open, EncOption, OptionFits, Lower, EncAll, AllKeysFit, AsMember;
      ok := true;
      var fv := FieldAt(v, f.index);
      if fv.Some? && !(f.omitEmpty && IsEmpty(fv.value)) {
        var ft := TypeAt(env, t, f.index);
        OneMember(f.name, Lower(env, ft, fv.value));
        ok := RunMember(env, fn, ft, e, f.name, fv.value, w0, tag, k, body);
      } else {
        NoMembers();
        assert body + [] == body;
      }
    }

    method StructEncoder(env: Env, encs: seq<EncoderFn>, t: TypeId, fs: seq<Field>, e: EncodeState, k: bytes, v: Value)
      returns (ok: bool)
      requires Coherent(env, m) && Finished(m) && EncodeFields(env, m, encs, t, fs)
      requires e.Valid() && e.Tight()
      modifies this, e, e.data
      ensures Coherent(env, m) && Finished(m) && Extends(old(m), m)
      ensures e.Valid() && (e.data == old(e.data) || fresh(e.data)) && e.copied >= old(e.copied)
      ensures var it := Object(|fs|, LowerFields(env, t, v, fs));
              ok == KeysFit(k, it) && (ok ==> e.Tight() && e.Written() == old(e.Written()) + Enc(k, it))
      decreases v, 4, 1
    {
      hide HasRest, Coherent, EncodesType, EncodeFields, Finished, LE, Lower, LowerField, LowerFields, KeyBytes,
           KeyLen, Frame,
           KeysFit, Enc, Open, EncAll, AllKeysFit;
      SameLength(env, m, encs, t, fs);
      ghost var w0, it := e.Written(), Object(|fs|, LowerFields(env, t, v, fs));
      var slot := e.off + 2;
      KeysFitContainer(k, it);
      ok := e.OpenContainer(OBJECT, k, |fs|);
      if !ok {
        return;
      }
      ghost var body := LE(|fs|, 4);
      RestIsAll(it);
      var start := e.off - 4;
      for i := 0 to |fs|
        invariant Coherent(env, m) && Finished(m) && Extends(old(m), m)
        invariant |encs| == |fs| && EncodeFields(env, m, encs[i..], t, fs[i..])
        invariant e.Valid() && e.Tight() && (e.data == old(e.data) || fresh(e.data)) && e.copied >= old(e.copied)
        invariant Open(e.Written(), w0, OBJECT, k, body) && start == e.off - |body|
        invariant HasRest(body, LowerFields(env, t, v, fs[i..]), it)
      {
        assert fs[i..][1..] == fs[i + 1..] && encs[i..][1..] == encs[i + 1..];
        ghost var m0 := m;
        FirstEncoder(env, m, encs[i..], t, fs[i..]);
        NextField(env, t, v, fs[i..], body, it);
        ok := RunField(env, encs[i], t, fs[i], e, v, w0, OBJECT, k, body);
        if !ok {
          return;
        }
        body := body + EncAll(LowerField(env, t, v, fs[i]));
        StillEncodeFields(env, m0, m, encs[i + 1..], t, fs[i + 1..]);
      }
      NoneLowered(env, t, v);
      RestIsNone(k, body, it);
      e.CloseContainer(w0, OBJECT, k, body, slot, start);
    }

    method MapEncoder(env: Env, fn: EncoderFn, et: TypeId, e: EncodeState, k: bytes, v: Value) returns (ok: bool)
      requires Coherent(env, m) && Finished(m) && EncodesType(env, m, fn, et)
      requires e.Valid() && e.Tight() && (v.VNil? || v.VMap?)
      modifies this, e, e.data
      ensures Coherent(env, m) && Finished(m) && Extends(old(m), m)
      ensures e.Valid() && (e.data == old(e.data) || fresh(e.data)) && e.copied >= old(e.copied)
      ensures var it := Object(|Entries(v)|, LowerEntries(env, et, Entries(v)));
              ok == KeysFit(k, it) && (ok ==> e.Tight() && e.Written() == old(e.Written()) + Enc(k, it))
      decreases v, 4, 1
    {
      hide HasRest, Coherent, EncodesType, Finished, LE, Lower, LowerEntries, KeyBytes, KeyLen, Frame, KeysFit, Enc,
           Open,
           EncOption, OptionFits, EncAll, AllKeysFit;
      var es := Entries(v);
      ghost var w0, it := e.Written(), Object(|es|, LowerEntries(env, et, es));
      var slot := e.off + 2;
      KeysFitContainer(k, it);
      ok := e.OpenContainer(OBJECT, k, |es|);
      if !ok {
        return;
      }
      ghost var body := LE(|es|, 4);
      RestIsAll(it);
      var start := e.off - 4;
      for i := 0 to |es|
        invariant Coherent(env, m) && Finished(m) && Extends(old(m), m) && EncodesType(env, m, fn, et)
        invariant e.Valid() && e.Tight() && (e.data == old(e.data) || fresh(e.data)) && e.copied >= old(e.copied)
        invariant Open(e.Written(), w0, OBJECT, k, body) && start == e.off - |body|
        invariant HasRest(body, LowerEntries(env, et, es[i..]), it)
      {
        assert es[i..][1..] == es[i + 1..];
        ghost var m0 := m;
        NextEntry(env, et, es[i..], body, it);
        ok := RunMember(env, fn, et, e, es[i].key, es[i].val, w0, OBJECT, k, body);
        if !ok {
          return;
        }
        body := body + EncOption(es[i].key, Lower(env, et, es[i].val));
        StillEncodes(env, m0, m, fn, et);
      }
      NoEntries(env, et);
      RestIsNone(k, body, it);
      e.CloseContainer(w0, OBJECT, k, body, slot, start);
    }

    method ArrayEncoder(env: Env, fn: EncoderFn, et: TypeId, e: EncodeState, k: bytes, v: Value) returns (ok: bool)
      requires Coherent(env, m) && Finished(m) && EncodesType(env, m, fn, et)
      requires e.Valid() && e.Tight() && (v.VNil? || v.VSlice? || v.VArray?)
      modifies this, e, e.data
      ensures Coherent(env, m) && Finished(m) && Extends(old(m), m)
      ensures e.Valid() && (e.data == old(e.data) || fresh(e.data)) && e.copied >= old(e.copied)
      ensures var it := Array(|Elems(v)|, LowerElems(env, et, Elems(v)));
              ok == KeysFit(k, it) && (ok ==> e.Tight() && e.Written() == old(e.Written()) + Enc(k, it))
      decreases v, 4, 1
    {
      hide HasRest, Coherent, EncodesType, Finished, LE, Lower, LowerElems, KeyBytes, KeyLen, Frame, KeysFit, Enc, Open,
           EncOption, OptionFits, EncAll, AllKeysFit;
      var es := Elems(v);
      ghost var w0, it := e.Written(), Array(|es|, LowerElems(env, et, es));
      var slot := e.off + 2;
      KeysFitContainer(k, it);
      ok := e.OpenContainer(ARRAY, k, |es|);
      if !ok {
        return;
      }
      ghost var body := LE(|es|, 4);
      RestIsAll(it);
      var start := e.off - 4;
      for i := 0 to |es|
        invariant Coherent(env, m) && Finished(m) && Extends(old(m), m) && EncodesType(env, m, fn, et)
        invariant e.Valid() && e.Tight() && (e.data == old(e.data) || fresh(e.data)) && e.copied >= old(e.copied)
        invariant Open(e.Written(), w0, ARRAY, k, body) && start == e.off - |body|
        invariant HasRest(body, LowerElems(env, et, es[i..]), it)
      {
        assert es[i..][1..] == es[i + 1..];
        ghost var m0 := m;
        NextElem(env, et, es[i..], body, it);
        ok := RunMember(env, fn, et, e, [], es[i], w0, ARRAY, k, body);
        if !ok {
          return;
        }
        body := body + EncOption([], Lower(env, et, es[i]));
        StillEncodes(env, m0, m, fn, et);
      }
      NoElems(env, et);
      RestIsNone(k, body, it);
      e.CloseContainer(w0, ARRAY, k, body, slot, start);
    }

    // reflectValue: the encoder for the value's type, from the cache or newly built, is run.
    method EncodeValue(env: Env, e: EncodeState, k: bytes, t: TypeId, v: Value) returns (ok: bool)
      requires Coherent(env, m) && Finished(m) && e.Valid() && e.Tight()
      modifies this, e, e.data
      ensures Coherent(env, m) && Finished(m) && Extends(old(m), m)
      ensures e.Valid() && (e.data == old(e.data) || fresh(e.data)) && e.copied >= old(e.copied)
      ensures ok == OptionFits(k, Lower(env, t, v))
      ensures ok ==> e.Tight() && e.Written() == old(e.Written()) + EncOption(k, Lower(env, t, v))
    {
      hide Coherent, EncodesType, Lower, EncOption, OptionFits;
      var f := TypeEncoder(env, t);
      ok := Run(env, f, t, e, k, v);
    }

    // Marshal: the output is the encoding of the argument under the empty key, unless a key is too
    // long.
    method Marshal(env: Env, arg: Value) returns (r: Marshaled)
      requires Coherent(env, m) && Finished(m)
      modifies this
      ensures Coherent(env, m) && Finished(m) && Extends(old(m), m)
      ensures r == MarshalOf(env, arg) && (!arg.VIface? ==> r == Output([]))
    {
      hide Coherent, Lower, Enc, KeysFit;
      var e := new EncodeState();
      var ok := true;
      match arg {
        case VIface(t, v) => ok := EncodeValue(env, e, [], t, v);
        case _ =>
      }
      r := if ok then Output(e.data[..e.off]) else KeyTooLong;
    }
  }

  lemma IsCoherent(env: Env, m: Cache, t: TypeId)
    requires Coherent(env, m) && t in m
    ensures EncodesType(env, m, m[t], t)
  {
  }

  lemma PlaceholderEncodes(env: Env, m: Cache, t: TypeId)
    ensures EncodesType(env, m[t := Placeholder(t)], Placeholder(t), t)
  {
  }

  lemma FirstEncoder(env: Env, m: Cache, encs: seq<EncoderFn>, t: TypeId, fs: seq<Field>)
    requires EncodeFields(env, m, encs, t, fs) && encs != [] && fs != []
    ensures EncodesType(env, m, encs[0], TypeAt(env, t, fs[0].index)) && EncodeFields(env, m, encs[1..], t, fs[1..])
  {
  }

  // The first field's member, if it writes one, comes in front of the others.
  lemma NextField(env: Env, t: TypeId, v: Value, fs: seq<Field>, body: bytes, it: Item)
    requires fs != [] && !it.Leaf? && HasRest(body, LowerFields(env, t, v, fs), it)
    ensures var ms := LowerField(env, t, v, fs[0]);
            if AllKeysFit(ms) then HasRest(body + EncAll(ms), LowerFields(env, t, v, fs[1..]), it)
            else !AllKeysFit(it.members)
  {
    hide HasRest, EncAll, AllKeysFit, Lower;
    RestGoesOn(body, LowerField(env, t, v, fs[0]), LowerFields(env, t, v, fs[1..]), it);
  }

  lemma NextEntry(env: Env, et: TypeId, es: seq<Entry>, body: bytes, it: Item)
    requires es != [] && !it.Leaf? && HasRest(body, LowerEntries(env, et, es), it)
    ensures var one := Lower(env, et, es[0].val);
            if OptionFits(es[0].key, one)
            then HasRest(body + EncOption(es[0].key, one), LowerEntries(env, et, es[1..]), it)
            else !AllKeysFit(it.members)
  {
    hide HasRest, EncAll, AllKeysFit, Lower, EncOption, OptionFits;
    OneMember(es[0].key, Lower(env, et, es[0].val));
    RestGoesOn(body, AsMember(es[0].key, Lower(env, et, es[0].val)), LowerEntries(env, et, es[1..]), it);
  }

  lemma NextElem(env: Env, et: TypeId, es: seq<Value>, body: bytes, it: Item)
    requires es != [] && !it.Leaf? && HasRest(body, LowerElems(env, et, es), it)
    ensures var one := Lower(env, et, es[0]);
            if OptionFits([], one) then HasRest(body + EncOption([], one), LowerElems(env, et, es[1..]), it)
            else !AllKeysFit(it.members)
  {
    hide HasRest, EncAll, AllKeysFit, Lower, EncOption, OptionFits;
    OneMember([], Lower(env, et, es[0]));
    RestGoesOn(body, AsMember([], Lower(env, et, es[0])), LowerElems(env, et, es[1..]), it);
  }

  lemma NoneLowered(env: Env, t: TypeId, v: Value)
    ensures LowerFields(env, t, v, []) == []
  {
  }

  lemma NoEntries(env: Env, et: TypeId)
    ensures LowerEntries(env, et, []) == []
  {
  }

  lemma NoElems(env: Env, et: TypeId)
    ensures LowerElems(env, et, []) == []
  {
  }

  lemma {:induction false} SameLength(env: Env, m: Cache, encs: seq<EncoderFn>, t: TypeId, fs: seq<Field>)
    requires EncodeFields(env, m, encs, t, fs)
    ensures |encs| == |fs|
    decreases encs
  {
    hide EncodesType;
    if encs != [] {
      SameLength(env, m, encs[1..], t, fs[1..]);
    }
  }
}
