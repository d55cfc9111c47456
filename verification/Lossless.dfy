// When the encoder leaves nothing out of a Go value, and when every key is there, in terms of the
// value itself (mcpack/encode.go).
module Lossless {
  import opened Wire
  import opened Values
  import opened Domain

  // ---- Values that write an item ------------------------------------------------------------

  // Some item is written: the kind at the end of pointers and interfaces has an encoder.
  predicate Supported(env: Env, t: TypeId, v: Value)
    decreases v
  {
    match KindOf(env, t)
    case KInterface => v.VIface? ==> Supported(env, v.dyn, v.val)
    case KPtr(e) => v.VPtr? ==> Supported(env, e, v.p)
    case KMap(stringKey, _) => stringKey
    case KChan => false
    case KOther => false
    case _ => true
  }

  lemma {:induction false} SupportedIff(env: Env, t: TypeId, v: Value)
    requires InDomain(env, t, v)
    ensures Lower(env, t, v).Some? <==> Supported(env, t, v)
    decreases v
  {
    hide LowerFields, LowerEntries, LowerElems, FieldsInDomain, EntriesInDomain, ElemsInDomain;
    match KindOf(env, t)
    case KInterface => if v.VIface? { SupportedIff(env, v.dyn, v.val); }
    case KPtr(e) => if v.VPtr? { SupportedIff(env, e, v.p); }
    case _ =>
  }

  // ---- Empty values -------------------------------------------------------------------------------

  // What an omitempty field leaves out: zero numbers, negative zero included, false, empty strings,
  // nil pointers and interfaces, maps, slices and arrays of no length, and nothing else.
  lemma EmptyIs(env: Env, t: TypeId, v: Value)
    requires Ranked(env) && InDomain(env, t, v)
    ensures IsEmpty(v) <==>
            match KindOf(env, t)
            case KStruct(_) => false
            case KChan => false
            case KOther => false
            case KFloat32 => v.bits % 0x8000_0000 == 0
            case KFloat64 => v.bits % 0x8000_0000_0000_0000 == 0
            case KMap(_, _) => |Entries(v)| == 0
            case KSlice(_) => |Elems(v)| == 0
            case KArray(n, _) => n == 0
            case _ => v == Zero(env, t)
  {
    hide EntriesInDomain, ElemsInDomain, FieldsInDomain;
  }

  // A listed field writes no member if and only if it cannot be reached, is empty and marked, or its
  // value has no encoder.
  lemma OmittedIff(env: Env, t: TypeId, v: Value, f: Field)
    requires KindOf(env, t).KStruct? && InDomain(env, t, v)
    ensures LowerField(env, t, v, f) == [] <==>
            || FieldAt(v, f.index).None?
            || (f.omitEmpty && IsEmpty(FieldAt(v, f.index).value))
            || !Supported(env, TypeAt(env, t, f.index), FieldAt(v, f.index).value)
  {
    hide Lower, Supported, InDomain, IsEmpty, FieldAt;
    if FieldAt(v, f.index).Some? {
      PathInDomain(env, t, v, f.index);
      SupportedIff(env, TypeAt(env, t, f.index), FieldAt(v, f.index).value);
    }
  }

  // ---- Values that write all they announce ----------------------------------------------------

  // Every listed field of every struct in the value can be reached, is not empty if it is marked
  // omitempty, and has an encoder, and so has every element of every container.
  predicate Whole(env: Env, t: TypeId, v: Value)
    decreases v, 2, 0
  {
    match KindOf(env, t)
    case KInterface => v.VIface? ==> Whole(env, v.dyn, v.val)
    case KStruct(_) => WholeFields(env, t, v, FieldsOf(env, t))
    case KMap(_, e) => v.VMap? ==> WholeEntries(env, e, v.entries)
    case KSlice(e) => v.VSlice? && !IsByte(env, e) ==> WholeElems(env, e, v.es)
    case KArray(_, e) => v.VArray? ==> WholeElems(env, e, v.es)
    case KPtr(e) => v.VPtr? ==> Whole(env, e, v.p)
    case _ => true
  }

  predicate WholeField(env: Env, t: TypeId, v: Value, f: Field)
    decreases v, 0, 0
  {
    match FieldAt(v, f.index)
    case None => false
    case Some(fv) =>
      var ft := TypeAt(env, t, f.index);
      !(f.omitEmpty && IsEmpty(fv)) && Supported(env, ft, fv) && Whole(env, ft, fv)
  }

  predicate WholeFields(env: Env, t: TypeId, v: Value, fs: seq<Field>)
    decreases v, 1, |fs|
  {
    fs == [] || (WholeField(env, t, v, fs[0]) && WholeFields(env, t, v, fs[1..]))
  }

  predicate WholeEntries(env: Env, e: TypeId, entries: seq<Entry>)
    decreases entries, 2, 0
  {
    entries == [] ||
    (Supported(env, e, entries[0].val) && Whole(env, e, entries[0].val) && WholeEntries(env, e, entries[1..]))
  }

  predicate WholeElems(env: Env, e: TypeId, es: seq<Value>)
    decreases es, 2, 0
  {
    es == [] || (Supported(env, e, es[0]) && Whole(env, e, es[0]) && WholeElems(env, e, es[1..]))
  }

  // What at most one member in front contributes.
  lemma OneInFront(head: seq<Member>, rest: seq<Member>, n: nat)
    requires |head| <= 1 && |rest| <= n
    ensures |head + rest| == n + 1 && AllComplete(head + rest) <==>
            |head| == 1 && Complete(head[0].item) && |rest| == n && AllComplete(rest)
  {
    hide Complete;
    if head == [] {
      assert head + rest == rest;
    } else {
      assert (head + rest)[1..] == rest;
    }
  }

  // A value's item announces what it holds, at all levels, if and only if the value is whole.
  lemma {:induction false} WholeIff(env: Env, t: TypeId, v: Value)
    requires InDomain(env, t, v) && Lower(env, t, v).Some?
    ensures Complete(Lower(env, t, v).value) <==> Whole(env, t, v)
    decreases v, 2, 0
  {
    hide LowerFields, LowerEntries, LowerElems, WholeFields, WholeEntries, WholeElems, FieldsInDomain, EntriesInDomain,
         ElemsInDomain;
    match KindOf(env, t)
    case KInterface => if v.VIface? { WholeIff(env, v.dyn, v.val); }
    case KStruct(_) => WholeFieldsIff(env, t, v, FieldsOf(env, t));
    case KMap(_, e) => if v.VMap? { WholeEntriesIff(env, e, v.entries); }
    case KSlice(e) => if v.VSlice? && !IsByte(env, e) { WholeElemsIff(env, e, v.es); }
    case KArray(_, e) => WholeElemsIff(env, e, v.es);
    case KPtr(e) => if v.VPtr? { WholeIff(env, e, v.p); }
    case _ =>
  }

  // A field writes its one, complete, member if and only if it is whole.
  lemma {:induction false} WholeFieldIff(env: Env, t: TypeId, v: Value, f: Field)
    requires KindOf(env, t).KStruct? && InDomain(env, t, v)
    ensures var ms := LowerField(env, t, v, f);
            |ms| <= 1 && (|ms| == 1 && Complete(ms[0].item) <==> WholeField(env, t, v, f))
    decreases v, 0, 0
  {
    hide Lower, Complete, Whole, Supported, InDomain, IsEmpty, FieldAt;
    var fv, ft := FieldAt(v, f.index), TypeAt(env, t, f.index);
    if fv.Some? {
      PathInDomain(env, t, v, f.index);
      SupportedIff(env, ft, fv.value);
      if Lower(env, ft, fv.value).Some? {
        WholeIff(env, ft, fv.value);
      }
    }
  }

  lemma {:induction false} WholeFieldsIff(env: Env, t: TypeId, v: Value, fs: seq<Field>)
    requires KindOf(env, t).KStruct? && InDomain(env, t, v)
    ensures var ms := LowerFields(env, t, v, fs);
            |ms| <= |fs| && (|ms| == |fs| && AllComplete(ms) <==> WholeFields(env, t, v, fs))
    decreases v, 1, |fs|
  {
    hide LowerField, WholeField, InDomain, Complete;
    if fs != [] {
      WholeFieldIff(env, t, v, fs[0]);
      WholeFieldsIff(env, t, v, fs[1..]);
      OneInFront(LowerField(env, t, v, fs[0]), LowerFields(env, t, v, fs[1..]), |fs| - 1);
    }
  }

  lemma {:induction false} WholeEntriesIff(env: Env, e: TypeId, entries: seq<Entry>)
    requires EntriesInDomain(env, e, entries)
    ensures var ms := LowerEntries(env, e, entries);
            |ms| <= |entries| && (|ms| == |entries| && AllComplete(ms) <==> WholeEntries(env, e, entries))
    decreases entries, 2, 0
  {
    hide Lower, Complete, Whole, Supported, InDomain;
    if entries != [] {
      var v := entries[0].val;
      SupportedIff(env, e, v);
      if Lower(env, e, v).Some? {
        WholeIff(env, e, v);
      }
      WholeEntriesIff(env, e, entries[1..]);
      OneInFront(AsMember(entries[0].key, Lower(env, e, v)), LowerEntries(env, e, entries[1..]), |entries| - 1);
    }
  }

  lemma {:induction false} WholeElemsIff(env: Env, e: TypeId, es: seq<Value>)
    requires ElemsInDomain(env, e, es)
    ensures var ms := LowerElems(env, e, es);
            |ms| <= |es| && (|ms| == |es| && AllComplete(ms) <==> WholeElems(env, e, es))
    decreases es, 2, 0
  {
    hide Lower, Complete, Whole, Supported, InDomain;
    if es != [] {
      SupportedIff(env, e, es[0]);
      if Lower(env, e, es[0]).Some? {
        WholeIff(env, e, es[0]);
      }
      WholeElemsIff(env, e, es[1..]);
      OneInFront(AsMember([], Lower(env, e, es[0])), LowerElems(env, e, es[1..]), |es| - 1);
    }
  }

  // ---- Values whose members all have keys -----------------------------------------------------

  ghost predicate FieldsNamed(env: Env) {
    forall t, f | f in FieldsOf(env, t) :: f.name != []
  }

  // No map among what is written has an empty key.
  predicate Keyed(env: Env, t: TypeId, v: Value)
    decreases v, 2, 0
  {
    match KindOf(env, t)
    case KInterface => v.VIface? ==> Keyed(env, v.dyn, v.val)
    case KStruct(_) => KeyedFields(env, t, v, FieldsOf(env, t))
    case KMap(_, e) => v.VMap? ==> KeyedEntries(env, e, v.entries)
    case KSlice(e) => v.VSlice? && !IsByte(env, e) ==> KeyedElems(env, e, v.es)
    case KArray(_, e) => v.VArray? ==> KeyedElems(env, e, v.es)
    case KPtr(e) => v.VPtr? ==> Keyed(env, e, v.p)
    case _ => true
  }

  predicate KeyedField(env: Env, t: TypeId, v: Value, f: Field)
    decreases v, 0, 0
  {
    match FieldAt(v, f.index)
    case None => true
    case Some(fv) =>
      var ft := TypeAt(env, t, f.index);
      !(f.omitEmpty && IsEmpty(fv)) && Supported(env, ft, fv) ==> Keyed(env, ft, fv)
  }

  predicate KeyedFields(env: Env, t: TypeId, v: Value, fs: seq<Field>)
    decreases v, 1, |fs|
  {
    fs == [] || (KeyedField(env, t, v, fs[0]) && KeyedFields(env, t, v, fs[1..]))
  }

  predicate KeyedEntries(env: Env, e: TypeId, entries: seq<Entry>)
    decreases entries, 2, 0
  {
    entries == [] ||
    (&& (Supported(env, e, entries[0].val) ==> entries[0].key != [] && Keyed(env, e, entries[0].val))
     && KeyedEntries(env, e, entries[1..]))
  }

  predicate KeyedElems(env: Env, e: TypeId, es: seq<Value>)
    decreases es, 2, 0
  {
    es == [] || ((Supported(env, e, es[0]) ==> Keyed(env, e, es[0])) && KeyedElems(env, e, es[1..]))
  }

  lemma NamedInFront(head: seq<Member>, rest: seq<Member>, keyed: bool)
    requires |head| <= 1
    ensures AllNamed(head + rest, keyed) <==>
            (head != [] ==> (keyed ==> head[0].key != []) && Named(head[0].item)) && AllNamed(rest, keyed)
  {
    hide Named;
    if head == [] {
      assert head + rest == rest;
    } else {
      assert (head + rest)[1..] == rest;
    }
  }

  // Every object member in a value's item has a key if and only if the value is keyed.
  lemma {:induction false} KeyedIff(env: Env, t: TypeId, v: Value)
    requires FieldsNamed(env) && InDomain(env, t, v) && Lower(env, t, v).Some?
    ensures Named(Lower(env, t, v).value) <==> Keyed(env, t, v)
    decreases v, 2, 0
  {
    hide LowerFields, LowerEntries, LowerElems, KeyedFields, KeyedEntries, KeyedElems, FieldsInDomain, EntriesInDomain,
         ElemsInDomain;
    match KindOf(env, t)
    case KInterface => if v.VIface? { KeyedIff(env, v.dyn, v.val); }
    case KStruct(_) => KeyedFieldsIff(env, t, v, FieldsOf(env, t));
    case KMap(_, e) => if v.VMap? { KeyedEntriesIff(env, e, v.entries); }
    case KSlice(e) => if v.VSlice? && !IsByte(env, e) { KeyedElemsIff(env, e, v.es); }
    case KArray(_, e) => KeyedElemsIff(env, e, v.es);
    case KPtr(e) => if v.VPtr? { KeyedIff(env, e, v.p); }
    case _ =>
  }

  lemma {:induction false} KeyedFieldIff(env: Env, t: TypeId, v: Value, f: Field)
    requires FieldsNamed(env) && KindOf(env, t).KStruct? && InDomain(env, t, v)
    ensures var ms := LowerField(env, t, v, f);
            && |ms| <= 1
            && (ms != [] ==> ms[0].key == f.name)
            && ((ms != [] ==> Named(ms[0].item)) <==> KeyedField(env, t, v, f))
    decreases v, 0, 0
  {
    hide Lower, Named, Keyed, Supported, InDomain, IsEmpty, FieldAt, FieldsNamed;
    var fv, ft := FieldAt(v, f.index), TypeAt(env, t, f.index);
    if fv.Some? {
      PathInDomain(env, t, v, f.index);
      SupportedIff(env, ft, fv.value);
      if Lower(env, ft, fv.value).Some? {
        KeyedIff(env, ft, fv.value);
      }
    }
  }

  lemma {:induction false} KeyedFieldsIff(env: Env, t: TypeId, v: Value, fs: seq<Field>)
    requires FieldsNamed(env) && KindOf(env, t).KStruct? && InDomain(env, t, v)
    requires forall f | f in fs :: f.name != []
    ensures AllNamed(LowerFields(env, t, v, fs), true) <==> KeyedFields(env, t, v, fs)
    decreases v, 1, |fs|
  {
    hide LowerField, KeyedField, InDomain, Named, FieldsNamed;
    if fs != [] {
      KeyedFieldIff(env, t, v, fs[0]);
      KeyedFieldsIff(env, t, v, fs[1..]);
      NamedInFront(LowerField(env, t, v, fs[0]), LowerFields(env, t, v, fs[1..]), true);
      assert fs[0] in fs;
    }
  }

  lemma {:induction false} KeyedEntriesIff(env: Env, e: TypeId, entries: seq<Entry>)
    requires FieldsNamed(env) && EntriesInDomain(env, e, entries)
    ensures AllNamed(LowerEntries(env, e, entries), true) <==> KeyedEntries(env, e, entries)
    decreases entries, 2, 0
  {
    hide Lower, Named, Keyed, Supported, InDomain, FieldsNamed;
    if entries != [] {
      var v := entries[0].val;
      SupportedIff(env, e, v);
      if Lower(env, e, v).Some? {
        KeyedIff(env, e, v);
      }
      KeyedEntriesIff(env, e, entries[1..]);
      NamedInFront(AsMember(entries[0].key, Lower(env, e, v)), LowerEntries(env, e, entries[1..]), true);
    }
  }

  lemma {:induction false} KeyedElemsIff(env: Env, e: TypeId, es: seq<Value>)
    requires FieldsNamed(env) && ElemsInDomain(env, e, es)
    ensures AllNamed(LowerElems(env, e, es), false) <==> KeyedElems(env, e, es)
    decreases es, 2, 0
  {
    hide Lower, Named, Keyed, Supported, InDomain, FieldsNamed;
    if es != [] {
      SupportedIff(env, e, es[0]);
      if Lower(env, e, es[0]).Some? {
        KeyedIff(env, e, es[0]);
      }
      KeyedElemsIff(env, e, es[1..]);
      NamedInFront(AsMember([], Lower(env, e, es[0])), LowerElems(env, e, es[1..]), false);
    }
  }
}
