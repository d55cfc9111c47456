// The encoder's domain in terms of Go values: whatever a well-typed value is encoded as meets
// the size conditions of the round-trip theorems, as long as the output is shorter than 2^32.
module Domain {
  import opened Bytes
  import opened Wire
  import opened Values

  // v is a value of type t, and every length in it fits the 32-bit counts.
  predicate InDomain(env: Env, t: TypeId, v: Value)
    decreases v, 2
  {
    match KindOf(env, t)
    case KBool => v.VBool?
    case KInt(w) => v.VInt? && w.Signed(v.n)
    case KUint(w) => v.VUint? && w.Unsigned(v.u)
    case KFloat32 => v.VFloat32? && W32.Unsigned(v.bits)
    case KFloat64 => v.VFloat64? && W64.Unsigned(v.bits)
    case KString => v.VString?
    case KInterface => v.VNil? || (v.VIface? && InDomain(env, v.dyn, v.val))
    case KStruct(decls) => v.VStruct? && |v.fs| == |decls| && FieldsInDomain(env, decls, v.fs)
    case KMap(_, e) => v.VNil? || (v.VMap? && W32.Unsigned(|v.entries|) && EntriesInDomain(env, e, v.entries))
    case KSlice(e) => v.VNil? || (v.VSlice? && W32.Unsigned(|v.es|) && ElemsInDomain(env, e, v.es))
    case KArray(n, e) => v.VArray? && |v.es| == n && W32.Unsigned(n) && ElemsInDomain(env, e, v.es)
    case KPtr(e) => v.VNil? || (v.VPtr? && InDomain(env, e, v.p))
    case KChan => v.VChan?
    case KOther => v.VOther?
  }

  predicate FieldsInDomain(env: Env, decls: seq<FieldDecl>, fs: seq<Value>)
    decreases fs, 0
  {
    fs == [] || decls == [] || (InDomain(env, decls[0].typ, fs[0]) && FieldsInDomain(env, decls[1..], fs[1..]))
  }

  predicate EntriesInDomain(env: Env, e: TypeId, entries: seq<Entry>)
    decreases entries, 0
  {
    entries == [] || (InDomain(env, e, entries[0].val) && EntriesInDomain(env, e, entries[1..]))
  }

  predicate ElemsInDomain(env: Env, e: TypeId, es: seq<Value>)
    decreases es, 0
  {
    es == [] || (InDomain(env, e, es[0]) && ElemsInDomain(env, e, es[1..]))
  }

  // What the well-typed values of every kind are.
  lemma {:induction false} WellTyped(env: Env, t: TypeId, v: Value)
    ensures InDomain(env, t, v) <==>
            match KindOf(env, t)
            case KBool => v.VBool?
            case KInt(w) => v.VInt? && -(w.Modulus() as int) <= 2 * v.n < w.Modulus()
            case KUint(w) => v.VUint? && v.u < w.Modulus()
            case KFloat32 => v.VFloat32? && v.bits < 0x1_0000_0000
            case KFloat64 => v.VFloat64? && v.bits < 0x1_0000_0000_0000_0000
            case KString => v.VString?
            case KInterface => v.VNil? || (v.VIface? && InDomain(env, v.dyn, v.val))
            case KStruct(ds) =>
              v.VStruct? && |v.fs| == |ds| && forall i | 0 <= i < |ds| :: InDomain(env, ds[i].typ, v.fs[i])
            case KMap(_, e) =>
              || v.VNil?
              || (v.VMap? && |v.entries| < 0x1_0000_0000 && forall x | x in v.entries :: InDomain(env, e, x.val))
            case KSlice(e) =>
              v.VNil? || (v.VSlice? && |v.es| < 0x1_0000_0000 && forall x | x in v.es :: InDomain(env, e, x))
            case KArray(n, e) =>
              v.VArray? && |v.es| == n && n < 0x1_0000_0000 && forall x | x in v.es :: InDomain(env, e, x)
            case KPtr(e) => v.VNil? || (v.VPtr? && InDomain(env, e, v.p))
            case KChan => v.VChan?
            case KOther => v.VOther?
  {
    hide FieldsInDomain, EntriesInDomain, ElemsInDomain;
    match KindOf(env, t)
    case KStruct(ds) => if v.VStruct? && |v.fs| == |ds| { FieldsTyped(env, ds, v.fs); }
    case KMap(_, e) => if v.VMap? { EntriesTyped(env, e, v.entries); }
    case KSlice(e) => if v.VSlice? { ElemsTyped(env, e, v.es); }
    case KArray(_, e) => if v.VArray? { ElemsTyped(env, e, v.es); }
    case _ =>
  }

  lemma {:induction false} FieldsTyped(env: Env, ds: seq<FieldDecl>, fs: seq<Value>)
    requires |fs| == |ds|
    ensures FieldsInDomain(env, ds, fs) <==> forall i | 0 <= i < |ds| :: InDomain(env, ds[i].typ, fs[i])
    decreases |fs|
  {
    hide InDomain;
    if fs != [] {
      FieldsTyped(env, ds[1..], fs[1..]);
      assert forall i | 0 < i < |ds| :: ds[i] == ds[1..][i - 1] && fs[i] == fs[1..][i - 1];
      if forall i | 0 <= i < |ds| :: InDomain(env, ds[i].typ, fs[i]) {
        forall i | 0 <= i < |ds[1..]| ensures InDomain(env, ds[1..][i].typ, fs[1..][i]) {
          assert InDomain(env, ds[i + 1].typ, fs[i + 1]);
        }
      }
    }
  }

  lemma {:induction false} EntriesTyped(env: Env, e: TypeId, entries: seq<Entry>)
    ensures EntriesInDomain(env, e, entries) <==> forall x | x in entries :: InDomain(env, e, x.val)
  {
    hide InDomain;
    if entries != [] {
      EntriesTyped(env, e, entries[1..]);
      assert entries[0] in entries && forall x :: x in entries <==> x == entries[0] || x in entries[1..];
    }
  }

  lemma {:induction false} ElemsTyped(env: Env, e: TypeId, es: seq<Value>)
    ensures ElemsInDomain(env, e, es) <==> forall x | x in es :: InDomain(env, e, x)
  {
    hide InDomain;
    if es != [] {
      ElemsTyped(env, e, es[1..]);
      assert es[0] in es && forall x :: x in es <==> x == es[0] || x in es[1..];
    }
  }

  // Field lists fit the 32-bit counts too.
  ghost predicate FewFields(env: Env) {
    forall t: TypeId :: W32.Unsigned(|FieldsOf(env, t)|)
  }

  // Numbers and counts are in range; nothing is said about lengths in bytes.
  predicate Ranged(it: Item)
    decreases it, 1
  {
    match it
    case Leaf(s) => s.Str? || s.Bin? || ScalarFits(s)
    case _ => W32.Unsigned(it.count) && |it.members| <= it.count && AllRanged(it.members)
  }

  predicate AllRanged(ms: seq<Member>)
    decreases ms, 2
  {
    ms == [] || (Ranged(ms[0].item) && AllRanged(ms[1..]))
  }

  lemma {:induction false} FieldInDomain(env: Env, decls: seq<FieldDecl>, fs: seq<Value>, i: nat)
    requires i < |fs| == |decls| && FieldsInDomain(env, decls, fs)
    ensures InDomain(env, decls[i].typ, fs[i])
  {
    if i > 0 {
      FieldInDomain(env, decls[1..], fs[1..], i - 1);
    }
  }

  lemma {:induction false} PathInDomain(env: Env, t: TypeId, v: Value, path: seq<nat>)
    requires InDomain(env, t, v) && FieldAt(v, path).Some? && (KindOf(env, t).KPtr? || KindOf(env, t).KStruct?)
    ensures InDomain(env, TypeAt(env, t, path), FieldAt(v, path).value)
    decreases |path|
  {
    if path != [] {
      var s := match v case VPtr(p) => p case _ => v;
      var st := match KindOf(env, t) case KPtr(e) => e case _ => t;
      if KindOf(env, st).KStruct? {
        var d := KindOf(env, st).decls[path[0]].typ;
        FieldInDomain(env, KindOf(env, st).decls, s.fs, path[0]);
        if path[1..] != [] {
          StructsOnly(env, d, s.fs[path[0]], path[1..]);
          PathInDomain(env, d, s.fs[path[0]], path[1..]);
        } else {
          assert TypeAt(env, d, path[1..]) == d && FieldAt(s.fs[path[0]], path[1..]) == Some(s.fs[path[0]]);
        }
      }
    }
  }

  // Only structs and pointers have fields.
  lemma StructsOnly(env: Env, t: TypeId, v: Value, path: seq<nat>)
    requires InDomain(env, t, v) && FieldAt(v, path).Some? && path != []
    ensures KindOf(env, t).KPtr? || KindOf(env, t).KStruct?
  {
  }

  lemma {:induction false} LowerRanged(env: Env, t: TypeId, v: Value)
    requires FewFields(env) && InDomain(env, t, v) && Lower(env, t, v).Some?
    ensures Ranged(Lower(env, t, v).value)
    decreases v, 2
  {
    match KindOf(env, t)
    case KStruct(_) => FieldsRanged(env, t, v, FieldsOf(env, t));
    case KMap(_, e) => if v.VMap? { EntriesRanged(env, e, v.entries); }
    case KSlice(e) => if v.VSlice? { ElemsRanged(env, e, v.es); }
    case KArray(_, e) => ElemsRanged(env, e, v.es);
    case KPtr(e) => if v.VPtr? { LowerRanged(env, e, v.p); }
    case KInterface => if v.VIface? { LowerRanged(env, v.dyn, v.val); }
    case _ =>
  }

  lemma {:induction false} FieldsRanged(env: Env, t: TypeId, v: Value, fs: seq<Field>)
    requires FewFields(env) && InDomain(env, t, v) && KindOf(env, t).KStruct?
    ensures |LowerFields(env, t, v, fs)| <= |fs| && AllRanged(LowerFields(env, t, v, fs))
    decreases v, 1, |fs|
  {
    hide Lower, InDomain, Ranged;
    if fs != [] {
      FieldsRanged(env, t, v, fs[1..]);
      var fv := FieldAt(v, fs[0].index);
      if fv.Some? {
        PathInDomain(env, t, v, fs[0].index);
        var ft := TypeAt(env, t, fs[0].index);
        if Lower(env, ft, fv.value).Some? {
          LowerRanged(env, ft, fv.value);
        }
      }
      OneMore(LowerField(env, t, v, fs[0]), LowerFields(env, t, v, fs[1..]));
    }
  }

  lemma OneMore(a: seq<Member>, b: seq<Member>)
    requires |a| <= 1 && AllRanged(b) && (a != [] ==> Ranged(a[0].item))
    ensures AllRanged(a + b)
  {
    hide Ranged;
    if a == [] {
      assert a + b == b;
    } else {
      assert (a + b)[1..] == b;
    }
  }

  lemma {:induction false} EntriesRanged(env: Env, e: TypeId, entries: seq<Entry>)
    requires FewFields(env) && EntriesInDomain(env, e, entries)
    ensures |LowerEntries(env, e, entries)| <= |entries| && AllRanged(LowerEntries(env, e, entries))
    decreases entries, 0
  {
    hide Lower, InDomain, Ranged;
    if entries != [] {
      EntriesRanged(env, e, entries[1..]);
      var it := Lower(env, e, entries[0].val);
      if it.Some? {
        LowerRanged(env, e, entries[0].val);
      }
      OneMore(AsMember(entries[0].key, it), LowerEntries(env, e, entries[1..]));
    }
  }

  lemma {:induction false} ElemsRanged(env: Env, e: TypeId, es: seq<Value>)
    requires FewFields(env) && ElemsInDomain(env, e, es)
    ensures |LowerElems(env, e, es)| <= |es| && AllRanged(LowerElems(env, e, es))
    decreases es, 0
  {
    hide Lower, InDomain, Ranged;
    if es != [] {
      ElemsRanged(env, e, es[1..]);
      var it := Lower(env, e, es[0]);
      if it.Some? {
        LowerRanged(env, e, es[0]);
      }
      OneMore(AsMember([], it), LowerElems(env, e, es[1..]));
    }
  }

  lemma {:induction false} ShortFits(k: bytes, it: Item)
    requires Ranged(it) && W32.Unsigned(|Enc(k, it)|)
    ensures SizesFit(it)
    decreases it, 1
  {
    EncIsFrame(k, it);
    if !it.Leaf? {
      AllShortFit(it.members);
    }
  }

  lemma {:induction false} AllShortFit(ms: seq<Member>)
    requires AllRanged(ms) && W32.Unsigned(|EncAll(ms)|)
    ensures AllSizesFit(ms)
    decreases ms, 2
  {
    hide Enc, Ranged, SizesFit;
    if ms != [] {
      ShortFits(ms[0].key, ms[0].item);
      AllShortFit(ms[1..]);
    }
  }

  // A value of any type whose keys are short enough is within the bounds of the round-trip
  // theorems if its encoding is shorter than 2^32 bytes.
  lemma InDomainFits(env: Env, t: TypeId, v: Value, k: bytes)
    requires FewFields(env) && InDomain(env, t, v) && Lower(env, t, v).Some?
    requires var it := Lower(env, t, v).value; KeysFit(k, it) && W32.Unsigned(|Enc(k, it)|)
    ensures Fits(k, Lower(env, t, v).value)
  {
    hide Lower, Enc, InDomain, KeysFit, SizesFit, Ranged;
    LowerRanged(env, t, v);
    ShortFits(k, Lower(env, t, v).value);
  }
}
