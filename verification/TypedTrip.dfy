// Decoding into a fresh target of the same type restores what was encoded.
module TypedTrip {
  import opened Bytes
  import opened Wire
  import opened Decode
  import opened Generic
  import opened Values
  import opened Fold
  import opened Typed
  import opened Domain

  // ---- Paths into structs ---------------------------------------------------------

  // The path leads through structs only, not through embedded pointers.
  predicate PathPlain(env: Env, t: TypeId, path: seq<nat>)
    decreases |path|
  {
    path == [] ||
    match KindOf(env, t)
    case KStruct(decls) => path[0] < |decls| && PathPlain(env, decls[path[0]].typ, path[1..])
    case _ => false
  }

  // Neither path leads through the place the other ends at.
  predicate Apart(p: seq<nat>, q: seq<nat>) {
    !(p <= q) && !(q <= p)
  }

  lemma {:induction false} ZeroAt(env: Env, t: TypeId, path: seq<nat>)
    requires Ranked(env) && PathPlain(env, t, path)
    ensures FieldAt(Zero(env, t), path) == Some(Zero(env, TypeAt(env, t, path)))
    decreases |path|
  {
    if path != [] {
      var d := KindOf(env, t).decls[path[0]].typ;
      if IsNilable(env, d) {
        NilZero(env, d);
      }
      ZeroAt(env, d, path[1..]);
    }
  }

  function Deref(v: Value): Value {
    match v
    case VPtr(p) => p
    case _ => v
  }

  lemma {:induction false} SetThenGet(v: Value, p: seq<nat>, x: Value)
    requires FieldAt(v, p).Some?
    ensures FieldAt(SetAt(v, p, x), p) == Some(x)
    decreases |p|
  {
    if p != [] {
      SetThenGet(Deref(v).fs[p[0]], p[1..], x);
    }
  }

  // One step along both paths.
  lemma SetStep(v: Value, p: seq<nat>, q: seq<nat>, x: Value)
    requires p != [] && q != [] && FieldAt(v, p).Some?
    ensures var s := Deref(v);
            && s.VStruct? && p[0] < |s.fs| && FieldAt(s.fs[p[0]], p[1..]).Some?
            && FieldAt(SetAt(v, p, x), q) ==
               (if q[0] == p[0] then FieldAt(SetAt(s.fs[p[0]], p[1..], x), q[1..]) else FieldAt(v, q))
            && (q[0] == p[0] ==> FieldAt(v, q) == FieldAt(s.fs[p[0]], q[1..]))
  {
  }

  lemma {:induction false} SetElsewhere(v: Value, p: seq<nat>, q: seq<nat>, x: Value)
    requires FieldAt(v, p).Some? && Apart(p, q)
    ensures FieldAt(SetAt(v, p, x), q) == FieldAt(v, q)
    decreases |p|
  {
    hide FieldAt, SetAt;
    SetStep(v, p, q, x);
    if p[0] == q[0] {
      assert p == [p[0]] + p[1..] && q == [q[0]] + q[1..];
      SetElsewhere(Deref(v).fs[p[0]], p[1..], q[1..], x);
    }
  }

  // ---- Field lists -------------------------------------------------------------------

  // What typeFields delivers for every struct type.
  ghost predicate Resolved(fs: seq<Field>) {
    forall i, j | 0 <= i < j < |fs| :: fs[i].name != fs[j].name && Apart(fs[i].index, fs[j].index)
  }

  ghost predicate AllResolved(env: Env) {
    forall t: TypeId :: Resolved(FieldsOf(env, t))
  }

  lemma ResolvedFor(env: Env, t: TypeId)
    requires AllResolved(env)
    ensures Resolved(FieldsOf(env, t))
  {
  }

  lemma {:induction false} ExactOwnName(fs: seq<Field>, i: nat)
    requires i < |fs| && Resolved(fs)
    ensures FindExact(fs, fs[i].name) == Some(fs[i])
  {
    if i > 0 {
      assert fs[0].name != fs[i].name;
      ExactOwnName(fs[1..], i - 1);
    }
  }

  // The decoder's lookup takes a field's own name to that field.
  lemma FindsOwnName(env: Env, fs: seq<Field>, i: nat)
    requires i < |fs| && Resolved(fs)
    ensures Find(env, fs, fs[i].name) == Some(fs[i])
  {
    ExactOwnName(fs, i);
  }

  // ---- Values that a fresh target takes back ------------------------------------------------

  // The item for the value is an object or null.
  predicate GivesObject(env: Env, t: TypeId, v: Value)
    decreases v
  {
    match KindOf(env, t)
    case KInterface => v.VIface? ==> GivesObject(env, v.dyn, v.val)
    case KPtr(e) => v.VPtr? ==> GivesObject(env, e, v.p)
    case KStruct(_) => true
    case KMap(_, _) => true
    case _ => false
  }

  // What the decoder can store into a target of type t: interfaces hold objects or nothing, and no
  // field lies behind an embedded pointer, anywhere in the value.
  predicate Accepts(env: Env, t: TypeId, v: Value)
    decreases v, 1, 0
  {
    match KindOf(env, t)
    case KInterface => v.VIface? ==> GivesObject(env, v.dyn, v.val)
    case KStruct(_) => AcceptsFields(env, t, v, FieldsOf(env, t))
    case KMap(_, e) => v.VMap? ==> AcceptsEntries(env, e, v.entries)
    case KSlice(e) => v.VSlice? && !IsByte(env, e) ==> AcceptsElems(env, e, v.es)
    case KArray(_, e) => v.VArray? ==> AcceptsElems(env, e, v.es)
    case KPtr(e) => v.VPtr? ==> Accepts(env, e, v.p)
    case _ => true
  }

  predicate AcceptsFields(env: Env, t: TypeId, v: Value, fs: seq<Field>)
    decreases v, 0, |fs|
  {
    fs == [] ||
    (&& PathPlain(env, t, fs[0].index)
     && (FieldAt(v, fs[0].index).Some? ==>
           Accepts(env, TypeAt(env, t, fs[0].index), FieldAt(v, fs[0].index).value))
     && AcceptsFields(env, t, v, fs[1..]))
  }

  predicate AcceptsEntries(env: Env, e: TypeId, entries: seq<Entry>)
    decreases entries, 0, 0
  {
    entries == [] || (Accepts(env, e, entries[0].val) && AcceptsEntries(env, e, entries[1..]))
  }

  predicate AcceptsElems(env: Env, e: TypeId, es: seq<Value>)
    decreases es, 0, 0
  {
    es == [] || (Accepts(env, e, es[0]) && AcceptsElems(env, e, es[1..]))
  }

  lemma {:induction false} GivesObjectIff(env: Env, t: TypeId, v: Value)
    requires InDomain(env, t, v) && Lower(env, t, v).Some?
    ensures GivesObject(env, t, v) <==> Lower(env, t, v).value.Object? || Lower(env, t, v) == Some(Leaf(Null))
    decreases v
  {
    hide LowerFields, LowerEntries, LowerElems, FieldsInDomain, EntriesInDomain, ElemsInDomain;
    match KindOf(env, t)
    case KInterface => if v.VIface? { GivesObjectIff(env, v.dyn, v.val); }
    case KPtr(e) => if v.VPtr? { GivesObjectIff(env, e, v.p); }
    case _ =>
  }

  predicate DistinctKeys(entries: seq<Entry>) {
    entries == [] || (!HasKey(entries[1..], entries[0].key) && DistinctKeys(entries[1..]))
  }

  predicate HasKey(entries: seq<Entry>, key: bytes) {
    entries != [] && (entries[0].key == key || HasKey(entries[1..], key))
  }

  // ---- The normal form in which they come back ------------------------------------------------

  // Nil maps and slices are empty, a chain of pointers ending in nil is nil, and what no field
  // reaches is zero.
  function NormV(env: Env, t: TypeId, v: Value): Value
    requires Ranked(env)
    decreases v, 1, 0
  {
    match KindOf(env, t)
    case KInterface =>
      (match Lower(env, t, v)
       case Some(Object(n, ms)) => VAny(Norm(Object(n, ms)))
       case _ => VNil)
    case KStruct(_) => NormFields(env, t, v, FieldsOf(env, t), Zero(env, t))
    case KMap(_, e) => if v.VMap? then VMap(NormEntries(env, e, v.entries, [])) else VMap([])
    case KSlice(e) => if v.VSlice? then VSlice(NormElems(env, e, v.es)) else VSlice([])
    case KArray(_, e) => if v.VArray? then VArray(NormElems(env, e, v.es)) else v
    case KPtr(e) => if v.VPtr? && Lower(env, t, v) != Some(Leaf(Null)) then VPtr(NormV(env, e, v.p)) else VNil
    case _ => v
  }

  function NormFields(env: Env, t: TypeId, v: Value, fs: seq<Field>, acc: Value): Value
    requires Ranked(env)
    decreases v, 0, |fs|
  {
    if fs == [] then acc
    else
      match FieldAt(v, fs[0].index)
      case None => NormFields(env, t, v, fs[1..], acc)
      case Some(fv) =>
        NormFields(env, t, v, fs[1..], SetAt(acc, fs[0].index, NormV(env, TypeAt(env, t, fs[0].index), fv)))
  }

  // Entries are stored one by one; done is what is stored already.
  function NormEntries(env: Env, e: TypeId, entries: seq<Entry>, done: seq<Entry>): seq<Entry>
    requires Ranked(env)
    decreases entries, 0, 0
  {
    if entries == [] then done
    else NormEntries(env, e, entries[1..], PutEntry(done, entries[0].key, NormV(env, e, entries[0].val)))
  }

  function NormElems(env: Env, e: TypeId, es: seq<Value>): (r: seq<Value>)
    requires Ranked(env)
    ensures |r| == |es|
    decreases es, 0, 0
  {
    if es == [] then [] else [NormV(env, e, es[0])] + NormElems(env, e, es[1..])
  }

  // ---- Round trip on wire trees ---------------------------------------------------------

  // Storing what a value is encoded as into a fresh target gives its normal form, or fails, exactly
  // as the value can be taken back or not.
  lemma {:induction false} IntoLower(env: Env, t: TypeId, v: Value)
    requires Ranked(env) && AllResolved(env) && InDomain(env, t, v)
    requires Lower(env, t, v).Some? && Complete(Lower(env, t, v).value)
    ensures Into(env, t, Zero(env, t), Lower(env, t, v).value) ==
            if Accepts(env, t, v) then Some(NormV(env, t, v)) else None
    decreases v, 1, 0
  {
    match KindOf(env, t)
    case KBool =>
    case KInt(w) => w.WrapSignedIdentity(v.n);
    case KUint(w) => ModInRange(v.u, w.Modulus());
    case KFloat32 =>
    case KFloat64 =>
    case KString =>
    case KChan =>
    case KOther =>
    case KInterface => InterfaceInto(env, t, v);
    case KStruct(_) => StructInto(env, t, v, 0, Zero(env, t));
    case KMap(_, e) => MapInto(env, t, v);
    case KSlice(e) => SliceInto(env, t, v);
    case KArray(_, e) => ArrayInto(env, t, v);
    case KPtr(e) => PointerInto(env, t, v);
  }

  lemma InterfaceInto(env: Env, t: TypeId, v: Value)
    requires Ranked(env) && KindOf(env, t).KInterface? && InDomain(env, t, v) && Lower(env, t, v).Some?
    ensures Into(env, t, Zero(env, t), Lower(env, t, v).value) ==
            if Accepts(env, t, v) then Some(NormV(env, t, v)) else None
  {
    GivesObjectIff(env, t, v);
  }

  lemma {:induction false} PointerInto(env: Env, t: TypeId, v: Value)
    requires Ranked(env) && AllResolved(env) && KindOf(env, t).KPtr? && InDomain(env, t, v)
    requires Lower(env, t, v).Some? && Complete(Lower(env, t, v).value)
    ensures Into(env, t, Zero(env, t), Lower(env, t, v).value) ==
            if Accepts(env, t, v) then Some(NormV(env, t, v)) else None
    decreases v, 0, 0
  {
    hide Complete;
    if v.VPtr? {
      var e := KindOf(env, t).elem;
      IntoLower(env, e, v.p);
      if Lower(env, e, v.p) == Some(Leaf(Null)) {
        NullStored(env, e);
      }
    }
  }

  // Null can be stored into every fresh target.
  lemma {:induction false} NullStored(env: Env, t: TypeId)
    requires Ranked(env)
    ensures Into(env, t, Zero(env, t), Leaf(Null)).Some?
  {
  }

  // Every listed field of cur is as in a fresh struct.
  ghost predicate Fresh(env: Env, t: TypeId, cur: Value, fs: seq<Field>)
    requires Ranked(env)
  {
    forall i {:trigger fs[i]} | 0 <= i < |fs| :: FieldAt(cur, fs[i].index) == FieldAt(Zero(env, t), fs[i].index)
  }

  // A fresh struct can be reached into exactly along plain paths, and is zero there.
  lemma FreshField(env: Env, t: TypeId, path: seq<nat>)
    requires Ranked(env)
    ensures FieldAt(Zero(env, t), path) ==
            if PathPlain(env, t, path) then Some(Zero(env, TypeAt(env, t, path))) else None
  {
    hide Zero, FieldAt, PathPlain;
    FreshReaches(env, t, path);
    if PathPlain(env, t, path) {
      ZeroAt(env, t, path);
    }
  }

  lemma {:induction false} LowerFieldsLength(env: Env, t: TypeId, v: Value, fs: seq<Field>)
    ensures |LowerFields(env, t, v, fs)| <= |fs|
    decreases |fs|
  {
    if fs != [] {
      LowerFieldsLength(env, t, v, fs[1..]);
    }
  }

  lemma {:induction false} LowerEntriesLength(env: Env, e: TypeId, entries: seq<Entry>)
    ensures |LowerEntries(env, e, entries)| <= |entries|
    decreases |entries|
  {
    hide Lower;
    if entries != [] {
      LowerEntriesLength(env, e, entries[1..]);
    }
  }

  lemma {:induction false} LowerElemsLength(env: Env, e: TypeId, es: seq<Value>)
    ensures |LowerElems(env, e, es)| <= |es|
    decreases |es|
  {
    hide Lower;
    if es != [] {
      LowerElemsLength(env, e, es[1..]);
    }
  }

  // When no field was left out, the first member is the first field's.
  lemma FirstField(env: Env, t: TypeId, v: Value, fs: seq<Field>)
    requires fs != [] && |LowerFields(env, t, v, fs)| == |fs|
    ensures var ms, p := LowerFields(env, t, v, fs), fs[0].index;
            && FieldAt(v, p).Some?
            && var it := Lower(env, TypeAt(env, t, p), FieldAt(v, p).value);
            && it.Some?
            && ms[0] == Member(fs[0].name, it.value)
            && ms[1..] == LowerFields(env, t, v, fs[1..])
            && |LowerFields(env, t, v, fs[1..])| == |fs[1..]|
  {
    hide Lower;
    LowerFieldsLength(env, t, v, fs[1..]);
  }

  lemma FirstEntry(env: Env, e: TypeId, entries: seq<Entry>)
    requires entries != [] && |LowerEntries(env, e, entries)| == |entries|
    ensures var ms, it := LowerEntries(env, e, entries), Lower(env, e, entries[0].val);
            && it.Some?
            && ms[0] == Member(entries[0].key, it.value)
            && ms[1..] == LowerEntries(env, e, entries[1..])
            && |LowerEntries(env, e, entries[1..])| == |entries[1..]|
  {
    hide Lower;
    LowerEntriesLength(env, e, entries[1..]);
  }

  lemma FirstElem(env: Env, e: TypeId, es: seq<Value>)
    requires es != [] && |LowerElems(env, e, es)| == |es|
    ensures var ms, it := LowerElems(env, e, es), Lower(env, e, es[0]);
            && it.Some?
            && ms[0] == Member([], it.value)
            && ms[1..] == LowerElems(env, e, es[1..])
            && |LowerElems(env, e, es[1..])| == |es[1..]|
  {
    hide Lower;
    LowerElemsLength(env, e, es[1..]);
  }

  // The first remaining field is stored; the others stay fresh.
  lemma StaysFresh(env: Env, t: TypeId, cur: Value, fs: seq<Field>, x: Value)
    requires Ranked(env) && fs != [] && Resolved(fs) && Fresh(env, t, cur, fs) && FieldAt(cur, fs[0].index).Some?
    ensures Fresh(env, t, SetAt(cur, fs[0].index, x), fs[1..])
  {
    hide Zero, FieldAt, SetAt;
    forall i | 0 <= i < |fs[1..]|
      ensures FieldAt(SetAt(cur, fs[0].index, x), fs[1..][i].index) == FieldAt(cur, fs[i + 1].index)
    {
      assert fs[0].index == fs[0].index && Apart(fs[0].index, fs[i + 1].index);
      SetElsewhere(cur, fs[0].index, fs[i + 1].index, x);
    }
  }

  lemma FreshFirst(env: Env, t: TypeId, cur: Value, fs: seq<Field>)
    requires Ranked(env) && fs != [] && Fresh(env, t, cur, fs)
    ensures var p := fs[0].index;
            FieldAt(cur, p) == if PathPlain(env, t, p) then Some(Zero(env, TypeAt(env, t, p))) else None
  {
    hide Zero, FieldAt, PathPlain;
    FreshField(env, t, fs[0].index);
    assert fs[0] == fs[0];
  }

  lemma ResolvedTail(fs: seq<Field>, i: nat)
    requires Resolved(fs) && i <= |fs|
    ensures Resolved(fs[i..])
  {
    hide Apart;
    forall j, k | 0 <= j < k < |fs[i..]|
      ensures fs[i..][j].name != fs[i..][k].name && Apart(fs[i..][j].index, fs[i..][k].index)
    {
      assert fs[i..][j] == fs[i + j] && fs[i..][k] == fs[i + k];
    }
  }

  lemma {:induction false} StructInto(env: Env, t: TypeId, v: Value, n: nat, cur: Value)
    requires Ranked(env) && AllResolved(env) && n <= |FieldsOf(env, t)|
    requires KindOf(env, t).KStruct? && InDomain(env, t, v)
    requires var fs := FieldsOf(env, t)[n..];
             && |LowerFields(env, t, v, fs)| == |fs| && AllComplete(LowerFields(env, t, v, fs))
             && Fresh(env, t, cur, fs)
    ensures var fs := FieldsOf(env, t)[n..];
            IntoStruct(env, t, cur, LowerFields(env, t, v, fs)) ==
            if AcceptsFields(env, t, v, fs) then Some(NormFields(env, t, v, fs, cur)) else None
    decreases v, 0, |FieldsOf(env, t)| - n
  {
    hide Lower, Complete, Into, NormV, Find, LowerFields, Zero, SetAt, FieldAt, PathPlain, Fresh, Accepts, InDomain,
         AllResolved, Resolved, IntoStruct, Ranked;
    var all := FieldsOf(env, t);
    var fs := all[n..];
    if fs == [] {
      NoFields(env, t, v);
      NothingStored(env, t, cur);
    } else {
      var f, p := fs[0], fs[0].index;
      assert f == all[n] && fs[1..] == all[n + 1..];
      FirstField(env, t, v, fs);
      FirstMember(env, t, cur, LowerFields(env, t, v, fs));
      ResolvedFor(env, t);
      ResolvedTail(all, n);
      FindsOwnName(env, all, n);
      FreshFirst(env, t, cur, fs);
      if PathPlain(env, t, p) {
        var ft, fv := TypeAt(env, t, p), FieldAt(v, p).value;
        PathInDomain(env, t, v, p);
        IntoLower(env, ft, fv);
        if Accepts(env, ft, fv) {
          StaysFresh(env, t, cur, fs, NormV(env, ft, fv));
          StructInto(env, t, v, n + 1, SetAt(cur, p, NormV(env, ft, fv)));
        }
      }
    }
  }

  lemma NothingStored(env: Env, t: TypeId, cur: Value)
    requires Ranked(env)
    ensures IntoStruct(env, t, cur, []) == Some(cur)
  {
  }

  lemma FirstMember(env: Env, t: TypeId, cur: Value, ms: seq<Member>)
    requires Ranked(env) && ms != []
    ensures var f := Find(env, FieldsOf(env, t), ms[0].key);
            f.Some? ==>
              var p := f.value.index;
              var v := if FieldAt(cur, p).None? then None
                       else Into(env, TypeAt(env, t, p), FieldAt(cur, p).value, ms[0].item);
              IntoStruct(env, t, cur, ms) ==
              if v.None? then None else IntoStruct(env, t, SetAt(cur, p, v.value), ms[1..])
  {
    hide Find, FieldAt, SetAt, Into, Ranked;
  }

  lemma NoFields(env: Env, t: TypeId, v: Value)
    ensures LowerFields(env, t, v, []) == []
  {
  }

  lemma MapInto(env: Env, t: TypeId, v: Value)
    requires Ranked(env) && AllResolved(env) && KindOf(env, t).KMap? && InDomain(env, t, v)
    requires Lower(env, t, v).Some? && Complete(Lower(env, t, v).value)
    ensures Into(env, t, Zero(env, t), Lower(env, t, v).value) ==
            if Accepts(env, t, v) then Some(NormV(env, t, v)) else None
    decreases v, 0, 0
  {
    hide LowerEntries, AcceptsEntries, NormEntries, EntriesInDomain, AllComplete;
    if v.VMap? {
      EntriesInto(env, KindOf(env, t).elem, v.entries, []);
    } else {
      NoEntries(env, KindOf(env, t).elem);
    }
  }

  lemma NoEntries(env: Env, e: TypeId)
    ensures LowerEntries(env, e, []) == []
  {
  }

  lemma {:induction false} EntriesInto(env: Env, e: TypeId, entries: seq<Entry>, done: seq<Entry>)
    requires Ranked(env) && AllResolved(env) && EntriesInDomain(env, e, entries)
    requires |LowerEntries(env, e, entries)| == |entries| && AllComplete(LowerEntries(env, e, entries))
    ensures IntoEntries(env, e, done, LowerEntries(env, e, entries)) ==
            if AcceptsEntries(env, e, entries) then Some(NormEntries(env, e, entries, done)) else None
    decreases entries, 0, 0
  {
    hide Lower, LowerEntries, Complete, Into, NormV, Zero, Accepts, PutEntry, InDomain;
    if entries == [] {
      NoEntries(env, e);
    } else {
      FirstEntry(env, e, entries);
      IntoLower(env, e, entries[0].val);
      if Accepts(env, e, entries[0].val) {
        EntriesInto(env, e, entries[1..], PutEntry(done, entries[0].key, NormV(env, e, entries[0].val)));
      }
    }
  }

  lemma NextElem(done: seq<Value>, zero: Value, n: nat, es: seq<Value>, y: Value)
    requires n > 0 && es == done + seq(n, i => zero)
    ensures |done| < |es| && es[|done|] == zero
    ensures es[|done| := y] == (done + [y]) + seq(n - 1, i => zero)
  {
  }

  lemma {:induction false} ElemsInto(env: Env, e: TypeId, done: seq<Value>, vs: seq<Value>, es: seq<Value>)
    requires Ranked(env) && AllResolved(env) && ElemsInDomain(env, e, vs)
    requires |LowerElems(env, e, vs)| == |vs| && AllComplete(LowerElems(env, e, vs))
    requires es == done + seq(|vs|, i => Zero(env, e))
    ensures IntoElems(env, e, es, |done|, LowerElems(env, e, vs)) ==
            if AcceptsElems(env, e, vs) then Some(done + NormElems(env, e, vs)) else None
    decreases vs, 0, 0
  {
    hide Lower, LowerElems, Complete, Into, NormV, Zero, Accepts, InDomain;
    if vs == [] {
      NoElemsLowered(env, e);
      assert es == done;
    } else {
      FirstElem(env, e, vs);
      IntoLower(env, e, vs[0]);
      var y := NormV(env, e, vs[0]);
      NextElem(done, Zero(env, e), |vs|, es, y);
      if Accepts(env, e, vs[0]) {
        ElemsInto(env, e, done + [y], vs[1..], es[|done| := y]);
        assert done + ([y] + NormElems(env, e, vs[1..])) == done + [y] + NormElems(env, e, vs[1..]);
      }
    }
  }

  lemma NoElemsLowered(env: Env, e: TypeId)
    ensures LowerElems(env, e, []) == []
  {
  }

  lemma {:induction false} NormBytes(env: Env, e: TypeId, es: seq<Value>)
    requires Ranked(env) && IsByte(env, e) && ElemsInDomain(env, e, es)
    ensures NormElems(env, e, es) == es == FromBytes(ToBytes(es))
    decreases |es|
  {
    if es != [] {
      NormBytes(env, e, es[1..]);
      ModInRange(es[0].u, 0x100);
      var tail := FromBytes(ToBytes(es[1..]));
      assert forall i | 1 <= i < |es| :: FromBytes(ToBytes(es))[i] == tail[i - 1];
      assert FromBytes(ToBytes(es)) == [es[0]] + tail;
    }
  }

  lemma SliceInto(env: Env, t: TypeId, v: Value)
    requires Ranked(env) && AllResolved(env) && KindOf(env, t).KSlice? && InDomain(env, t, v)
    requires Lower(env, t, v).Some? && Complete(Lower(env, t, v).value)
    ensures Into(env, t, Zero(env, t), Lower(env, t, v).value) ==
            if Accepts(env, t, v) then Some(NormV(env, t, v)) else None
    decreases v, 0, 1
  {
    hide LowerElems, NormElems, ElemsInDomain, AllComplete, AcceptsElems;
    var e := KindOf(env, t).elem;
    if v.VSlice? {
      if IsByte(env, e) {
        NormBytes(env, e, v.es);
      } else {
        var target := SliceTarget(env, e, Zero(env, t), |v.es|);
        assert target == [] + seq(|v.es|, i => Zero(env, e));
        ElemsInto(env, e, [], v.es, target);
        assert [] + NormElems(env, e, v.es) == NormElems(env, e, v.es);
      }
    } else {
      assert FromBytes([]) == [] && SliceTarget(env, e, Zero(env, t), 0) == [];
    }
  }

  lemma ArrayInto(env: Env, t: TypeId, v: Value)
    requires Ranked(env) && AllResolved(env) && KindOf(env, t).KArray? && InDomain(env, t, v)
    requires Lower(env, t, v).Some? && Complete(Lower(env, t, v).value)
    ensures Into(env, t, Zero(env, t), Lower(env, t, v).value) ==
            if Accepts(env, t, v) then Some(NormV(env, t, v)) else None
    decreases v, 0, 1
  {
    hide LowerElems, NormElems, ElemsInDomain, AllComplete, AcceptsElems, IntoElems;
    var e, target := KindOf(env, t).elem, Elems(Zero(env, t));
    if IsNilable(env, e) {
      NilZero(env, e);
    }
    assert target == [] + seq(|v.es|, i => Zero(env, e));
    ElemsInto(env, e, [], v.es, target);
    assert [] + NormElems(env, e, v.es) == NormElems(env, e, v.es);
  }

  // Marshalling a value and unmarshalling the output into a fresh variable of the same type
  // gives the value's normal form and uses up all of the data, or fails, exactly as the value can be
  // taken back or not; likewise inside other data.
  lemma TypedRoundTrip(env: Env, t: TypeId, v: Value, k: bytes, data: bytes, off: nat)
    requires Ranked(env) && AllResolved(env) && InDomain(env, t, v)
    requires Lower(env, t, v).Some?
    requires var it := Lower(env, t, v).value;
             Fits(k, it) && Complete(it) && Named(it) && At(data, off, Enc(k, it))
    ensures var r := TypedAt(env, t, Zero(env, t), data, off);
            if Accepts(env, t, v) then r == Got(NormV(env, t, v), off + |Enc(k, Lower(env, t, v).value)|)
            else r.Failed?
  {
    hide Into, NormV, Lower, TypedAt, Enc, Fits, InDomain, Accepts;
    IntoLower(env, t, v);
    TypedAgrees(env, t, Zero(env, t), data, off, k, Lower(env, t, v).value);
  }

  // ---- What the normal forms are --------------------------------------------------------------

  lemma {:induction false} PlainReaches(env: Env, t: TypeId, v: Value, path: seq<nat>)
    requires InDomain(env, t, v) && PathPlain(env, t, path)
    ensures FieldAt(v, path).Some?
    decreases |path|
  {
    if path != [] {
      var decls := KindOf(env, t).decls;
      FieldInDomain(env, decls, v.fs, path[0]);
      PlainReaches(env, decls[path[0]].typ, v.fs[path[0]], path[1..]);
    }
  }

  // Every field comes back in normal form, and everything that lies apart from the fields is
  // zero.
  lemma StructNorm(env: Env, t: TypeId, v: Value)
    requires Ranked(env) && AllResolved(env) && KindOf(env, t).KStruct? && InDomain(env, t, v) && Accepts(env, t, v)
    ensures forall i | 0 <= i < |FieldsOf(env, t)| ::
              var p := FieldsOf(env, t)[i].index;
              && FieldAt(v, p).Some?
              && FieldAt(NormV(env, t, v), p) == Some(NormV(env, TypeAt(env, t, p), FieldAt(v, p).value))
    ensures forall q: seq<nat> | forall f | f in FieldsOf(env, t) :: Apart(f.index, q) ::
              FieldAt(NormV(env, t, v), q) == FieldAt(Zero(env, t), q)
  {
    hide InDomain, AcceptsFields;
    var fs := FieldsOf(env, t);
    assert Fresh(env, t, Zero(env, t), fs);
    forall i | 0 <= i < |fs|
      ensures var p := fs[i].index;
              && FieldAt(v, p).Some?
              && FieldAt(NormV(env, t, v), p) == Some(NormV(env, TypeAt(env, t, p), FieldAt(v, p).value))
    {
      NormFieldsHit(env, t, v, fs, Zero(env, t), i);
    }
    forall q: seq<nat> | forall f | f in fs :: Apart(f.index, q)
      ensures FieldAt(NormV(env, t, v), q) == FieldAt(Zero(env, t), q)
    {
      NormFieldsMiss(env, t, v, fs, Zero(env, t), q);
    }
  }

  // The first field's path is plain, so it is there in the value and in what is stored into.
  lemma FirstStored(env: Env, t: TypeId, v: Value, fs: seq<Field>, acc: Value)
    requires Ranked(env) && fs != [] && InDomain(env, t, v) && AcceptsFields(env, t, v, fs) && Fresh(env, t, acc, fs)
    ensures FieldAt(v, fs[0].index).Some? && FieldAt(acc, fs[0].index).Some?
    ensures AcceptsFields(env, t, v, fs[1..])
  {
    hide InDomain, Zero, FieldAt, PathPlain, Accepts, Fresh;
    PlainReaches(env, t, v, fs[0].index);
    FreshFirst(env, t, acc, fs);
  }

  lemma {:induction false} NormFieldsMiss(env: Env, t: TypeId, v: Value, fs: seq<Field>, acc: Value, q: seq<nat>)
    requires Ranked(env) && Resolved(fs) && InDomain(env, t, v) && AcceptsFields(env, t, v, fs)
    requires Fresh(env, t, acc, fs) && forall f | f in fs :: Apart(f.index, q)
    ensures FieldAt(NormFields(env, t, v, fs, acc), q) == FieldAt(acc, q)
    decreases |fs|
  {
    hide NormV, Zero, InDomain, AcceptsFields, FieldAt, SetAt, Fresh, Apart;
    if fs != [] {
      var p := fs[0].index;
      FirstStored(env, t, v, fs, acc);
      var x := NormV(env, TypeAt(env, t, p), FieldAt(v, p).value);
      StaysFresh(env, t, acc, fs, x);
      ResolvedTail(fs, 1);
      assert fs[0] in fs;
      SetElsewhere(acc, p, q, x);
      NormFieldsMiss(env, t, v, fs[1..], SetAt(acc, p, x), q);
    }
  }

  lemma {:induction false} NormFieldsHit(env: Env, t: TypeId, v: Value, fs: seq<Field>, acc: Value, i: nat)
    requires Ranked(env) && Resolved(fs) && InDomain(env, t, v) && AcceptsFields(env, t, v, fs)
    requires Fresh(env, t, acc, fs) && i < |fs|
    ensures var p := fs[i].index;
            && FieldAt(v, p).Some?
            && FieldAt(NormFields(env, t, v, fs, acc), p) == Some(NormV(env, TypeAt(env, t, p), FieldAt(v, p).value))
    decreases |fs|
  {
    hide NormV, Zero, InDomain, AcceptsFields, FieldAt, SetAt, Fresh, Apart, Resolved, Ranked;
    var p := fs[0].index;
    FirstStored(env, t, v, fs, acc);
    var x := NormV(env, TypeAt(env, t, p), FieldAt(v, p).value);
    StaysFresh(env, t, acc, fs, x);
    ResolvedTail(fs, 1);
    if i == 0 {
      SetThenGet(acc, p, x);
      ApartFromFirst(fs);
      NormFieldsMiss(env, t, v, fs[1..], SetAt(acc, p, x), p);
    } else {
      assert fs[1..][i - 1] == fs[i];
      NormFieldsHit(env, t, v, fs[1..], SetAt(acc, p, x), i - 1);
    }
  }

  lemma ApartFromFirst(fs: seq<Field>)
    requires Resolved(fs) && fs != []
    ensures forall f | f in fs[1..] :: Apart(f.index, fs[0].index)
  {
    hide Apart;
    forall f | f in fs[1..] ensures Apart(f.index, fs[0].index) {
      var j :| 1 <= j < |fs| && f == fs[j];
      ApartFlips(fs[0].index, fs[j].index);
    }
  }

  // Every entry with its value in normal form.
  function EachNormal(env: Env, e: TypeId, entries: seq<Entry>): seq<Entry>
    requires Ranked(env)
  {
    if entries == [] then []
    else [Entry(entries[0].key, NormV(env, e, entries[0].val))] + EachNormal(env, e, entries[1..])
  }

  lemma {:induction false} PutNew(done: seq<Entry>, x: Entry, rest: seq<Entry>)
    requires DistinctKeys(done + [x] + rest)
    ensures forall v :: PutEntry(done, x.key, v) == done + [Entry(x.key, v)]
  {
    if done != [] {
      assert (done + [x] + rest)[1..] == done[1..] + [x] + rest;
      Holds(done[1..], x, rest);
      PutNew(done[1..], x, rest);
    }
  }

  lemma {:induction false} Holds(a: seq<Entry>, x: Entry, rest: seq<Entry>)
    ensures HasKey(a + [x] + rest, x.key)
  {
    if a != [] {
      assert (a + [x] + rest)[1..] == a[1..] + [x] + rest;
      Holds(a[1..], x, rest);
    }
  }

  lemma {:induction false} SameKeys(a: seq<Entry>, x: Entry, y: Entry, b: seq<Entry>)
    requires x.key == y.key
    ensures DistinctKeys(a + [x] + b) == DistinctKeys(a + [y] + b)
    ensures forall k :: HasKey(a + [x] + b, k) == HasKey(a + [y] + b, k)
  {
    if a == [] {
      assert (a + [x] + b)[1..] == b == (a + [y] + b)[1..];
    } else {
      assert (a + [x] + b)[1..] == a[1..] + [x] + b;
      assert (a + [y] + b)[1..] == a[1..] + [y] + b;
      SameKeys(a[1..], x, y, b);
    }
  }

  // A map has each key once, so each entry comes back in normal form, in place.
  lemma {:induction false} MapNorm(env: Env, e: TypeId, done: seq<Entry>, entries: seq<Entry>)
    requires Ranked(env) && DistinctKeys(done + entries)
    ensures NormEntries(env, e, entries, done) == done + EachNormal(env, e, entries)
    decreases |entries|
  {
    hide NormV, DistinctKeys, PutEntry;
    if entries == [] {
      assert done + [] == done;
    } else {
      var x, rest := entries[0], entries[1..];
      var y := Entry(x.key, NormV(env, e, x.val));
      assert done + entries == done + [x] + rest;
      PutNew(done, x, rest);
      SameKeys(done, x, y, rest);
      MapNorm(env, e, done + [y], rest);
      assert done + ([y] + EachNormal(env, e, rest)) == done + [y] + EachNormal(env, e, rest);
    }
  }

  // ---- Decoding less than was encoded -------------------------------------------------------

  // The members that match some field.
  function Matching(env: Env, fs: seq<Field>, ms: seq<Member>): seq<Member> {
    if ms == [] then []
    else (if Find(env, fs, ms[0].key).Some? then [ms[0]] else []) + Matching(env, fs, ms[1..])
  }

  lemma {:induction false} IntoStructIgnores(env: Env, t: TypeId, cur: Value, ms: seq<Member>)
    requires Ranked(env)
    ensures IntoStruct(env, t, cur, ms) == IntoStruct(env, t, cur, Matching(env, FieldsOf(env, t), ms))
    decreases ms
  {
    hide Into, Find, FieldAt, SetAt;
    if ms != [] {
      var fs := FieldsOf(env, t);
      IntoStructIgnores(env, t, cur, ms[1..]);
      match Find(env, fs, ms[0].key)
      case None => assert Matching(env, fs, ms) == Matching(env, fs, ms[1..]);
      case Some(f) =>
        assert Matching(env, fs, ms)[1..] == Matching(env, fs, ms[1..]);
        if FieldAt(cur, f.index).Some? {
          var v := Into(env, TypeAt(env, t, f.index), FieldAt(cur, f.index).value, ms[0].item);
          if v.Some? {
            IntoStructIgnores(env, t, SetAt(cur, f.index, v.value), ms[1..]);
          }
        }
    }
  }

  lemma {:induction false} MatchingGood(env: Env, fs: seq<Field>, ms: seq<Member>)
    requires AllFit(ms) && AllComplete(ms) && AllNamed(ms, true)
    ensures var r := Matching(env, fs, ms);
            && AllFit(r) && AllComplete(r) && AllNamed(r, true)
            && |r| <= |ms| && |EncAll(r)| <= |EncAll(ms)|
    decreases ms
  {
    hide Find, Enc, SizesFit, KeysFit, Complete, Named;
    if ms != [] {
      MatchingGood(env, fs, ms[1..]);
      if Find(env, fs, ms[0].key).Some? {
        assert Matching(env, fs, ms)[1..] == Matching(env, fs, ms[1..]);
      } else {
        assert Matching(env, fs, ms) == Matching(env, fs, ms[1..]);
      }
    }
  }

  // Decoding an object into a struct is decoding the object without the members that match no
  // field: the same value or both fail, each ending at its own end.
  lemma Projection(env: Env, t: TypeId, cur: Value, k: bytes, ms: seq<Member>, data: bytes, off: nat, data': bytes,
                   off': nat)
    requires Ranked(env) && KindOf(env, t).KStruct?
    requires var it := Object(|ms|, ms); Fits(k, it) && Complete(it) && Named(it) && At(data, off, Enc(k, it))
    requires var ms' := Matching(env, FieldsOf(env, t), ms); At(data', off', Enc(k, Object(|ms'|, ms')))
    ensures var ms' := Matching(env, FieldsOf(env, t), ms);
            match TypedAt(env, t, cur, data, off)
            case Got(v, end) =>
              && end == off + |Enc(k, Object(|ms|, ms))|
              && TypedAt(env, t, cur, data', off') == Got(v, off' + |Enc(k, Object(|ms'|, ms'))|)
            case Failed(_) => TypedAt(env, t, cur, data', off').Failed?
  {
    hide IntoStruct, TypedAt, Enc, EncAll, Find, At, FieldAt, SetAt, LE;
    var ms' := Matching(env, FieldsOf(env, t), ms);
    MatchingGood(env, FieldsOf(env, t), ms);
    IntoStructIgnores(env, t, cur, ms);
    TypedAgrees(env, t, cur, data, off, k, Object(|ms|, ms));
    TypedAgrees(env, t, cur, data', off', k, Object(|ms'|, ms'));
  }

  // ---- Fields behind embedded pointers ------------------------------------------------------

  // In a fresh struct, exactly the fields on plain paths can be reached.
  lemma {:induction false} FreshReaches(env: Env, t: TypeId, path: seq<nat>)
    requires Ranked(env)
    ensures FieldAt(Zero(env, t), path).Some? <==> PathPlain(env, t, path)
    decreases |path|
  {
    if path != [] && KindOf(env, t).KStruct? && path[0] < |KindOf(env, t).decls| {
      var d := KindOf(env, t).decls[path[0]].typ;
      if IsNilable(env, d) {
        NilZero(env, d);
      }
      FreshReaches(env, d, path[1..]);
    }
  }

  lemma {:induction false} FoundIsListed(env: Env, fs: seq<Field>, key: bytes)
    ensures Find(env, fs, key).Some? ==> Find(env, fs, key).value in fs
  {
    hide EqualFold;
    if fs != [] {
      FoundIsListed(env, fs[1..], key);
    }
  }

  lemma ListedApart(fs: seq<Field>, f: Field, g: Field)
    requires Resolved(fs) && f in fs && g in fs && f != g
    ensures Apart(f.index, g.index)
  {
    hide Apart;
    var i :| 0 <= i < |fs| && fs[i] == f;
    var j :| 0 <= j < |fs| && fs[j] == g;
    assert if i < j then Apart(fs[i].index, fs[j].index) else Apart(fs[j].index, fs[i].index);
    ApartFlips(g.index, f.index);
  }

  lemma ApartFlips(p: seq<nat>, q: seq<nat>)
    ensures Apart(p, q) == Apart(q, p)
  {
  }

  // A member for a field that cannot be reached makes decoding fail, wherever it stands.
  lemma {:induction false} UnreachableFails(env: Env, t: TypeId, cur: Value, ms: seq<Member>, i: nat, f: Field)
    requires Ranked(env) && AllResolved(env) && FieldAt(cur, f.index).None?
    requires i < |ms| && Find(env, FieldsOf(env, t), ms[i].key) == Some(f)
    ensures IntoStruct(env, t, cur, ms).None?
    decreases i
  {
    hide Find, Into, FieldAt, SetAt, AllResolved, Apart, Resolved;
    var fs := FieldsOf(env, t);
    var found := Find(env, fs, ms[0].key);
    if i > 0 {
      var cur' := cur;
      if found.Some? && FieldAt(cur, found.value.index).Some? && found.value != f {
        var g := found.value;
        var v := Into(env, TypeAt(env, t, g.index), FieldAt(cur, g.index).value, ms[0].item);
        if v.Some? {
          ResolvedFor(env, t);
          FoundIsListed(env, fs, ms[0].key);
          FoundIsListed(env, fs, ms[i].key);
          ListedApart(fs, g, f);
          SetElsewhere(cur, g.index, f.index, v.value);
          cur' := SetAt(cur, g.index, v.value);
        }
      }
      UnreachableFails(env, t, cur', ms[1..], i - 1, f);
    }
  }

  // The decoder does not allocate embedded struct pointers: decoding an object that has a member
  // for a field behind one into a fresh struct fails.
  lemma EmbeddedPointerFails(env: Env, t: TypeId, data: bytes, off: nat, k: bytes, ms: seq<Member>, i: nat, f: Field)
    requires Ranked(env) && AllResolved(env) && KindOf(env, t).KStruct?
    requires var it := Object(|ms|, ms); Fits(k, it) && Complete(it) && Named(it) && At(data, off, Enc(k, it))
    requires i < |ms| && Find(env, FieldsOf(env, t), ms[i].key) == Some(f) && !PathPlain(env, t, f.index)
    ensures TypedAt(env, t, Zero(env, t), data, off).Failed?
  {
    hide IntoStruct, TypedAt, Enc, EncAll, Find, At, FieldAt, PathPlain, Zero, AllResolved;
    FreshReaches(env, t, f.index);
    UnreachableFails(env, t, Zero(env, t), ms, i, f);
    TypedAgrees(env, t, Zero(env, t), data, off, k, Object(|ms|, ms));
  }

  // An interface target takes objects and null, and nothing else.
  lemma InterfaceTakes(env: Env, t: TypeId, data: bytes, off: nat, k: bytes, it: Item)
    requires Ranked(env) && KindOf(env, t).KInterface?
    requires Fits(k, it) && Complete(it) && Named(it) && At(data, off, Enc(k, it))
    ensures TypedAt(env, t, VNil, data, off).Got? <==> it.Object? || it == Leaf(Null)
  {
    hide TypedAt, Enc, EncAll, At, Norm, Zero;
    TypedAgrees(env, t, VNil, data, off, k, it);
  }

  // Decoding an array item into a fixed array: it succeeds if and only if the first elements can be
  // stored; those are kept, extra ones are skipped, and what is missing becomes zero.
  lemma ArrayTruncates(env: Env, t: TypeId, es: seq<Value>, ms: seq<Member>)
    requires Ranked(env) && KindOf(env, t).KArray?
    ensures var r := Into(env, t, VArray(es), Array(|ms|, ms));
            var e := KindOf(env, t).elem;
            && (r.Some? <==> forall i: nat :: CanStore(env, e, es, 0, ms, i))
            && (r.Some? ==>
                  && r.value.VArray? && |r.value.es| == |es|
                  && forall i | 0 <= i < |es| ::
                       if i < |ms| then Into(env, e, es[i], ms[i].item) == Some(r.value.es[i])
                       else r.value.es[i] == Zero(env, e))
  {
    hide Into, IntoElems;
    IntoArray(env, t, es, ms);
    ElemsTruncate(env, KindOf(env, t).elem, es, 0, ms);
  }

  lemma IntoArray(env: Env, t: TypeId, es: seq<Value>, ms: seq<Member>)
    requires Ranked(env) && KindOf(env, t).KArray?
    ensures var r := IntoElems(env, KindOf(env, t).elem, es, 0, ms);
            Into(env, t, VArray(es), Array(|ms|, ms)) ==
            if r.None? then None else Some(VArray(ZeroTail(env, KindOf(env, t).elem, r.value, |ms|)))
  {
  }

  // Element i, if there is one and it has a place, can be stored; ms starts with element j.
  predicate CanStore(env: Env, e: TypeId, es: seq<Value>, j: nat, ms: seq<Member>, i: nat)
    requires Ranked(env)
  {
    j <= i < |es| && i < j + |ms| ==> Into(env, e, es[i], ms[i - j].item).Some?
  }

  lemma {:induction false} ElemsTruncate(env: Env, e: TypeId, es: seq<Value>, j: nat, ms: seq<Member>)
    requires Ranked(env)
    ensures var r := IntoElems(env, e, es, j, ms);
            && (r.Some? <==> forall i: nat :: CanStore(env, e, es, j, ms, i))
            && (r.Some? ==>
                  && |r.value| == |es|
                  && forall i | 0 <= i < |es| ::
                       if j <= i < j + |ms| then Into(env, e, es[i], ms[i - j].item) == Some(r.value[i])
                       else r.value[i] == es[i])
    decreases ms
  {
    hide Into;
    if ms != [] {
      if j < |es| {
        var v := Into(env, e, es[j], ms[0].item);
        if v.Some? {
          var es', j', ms' := es[j := v.value], j + 1, ms[1..];
          ElemsTruncate(env, e, es', j', ms');
          if i: nat :| !CanStore(env, e, es', j', ms', i) {
            assert !CanStore(env, e, es, j, ms, i);
          }
          if i: nat :| !CanStore(env, e, es, j, ms, i) {
            assert !CanStore(env, e, es', j', ms', i);
          }
        } else {
          assert !CanStore(env, e, es, j, ms, j);
        }
      } else {
        ElemsTruncate(env, e, es, j + 1, ms[1..]);
        assert forall i: nat :: CanStore(env, e, es, j, ms, i);
      }
    }
  }
}
