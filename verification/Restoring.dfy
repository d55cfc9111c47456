// What a Go value becomes when it is marshalled and unmarshalled into a fresh variable of its type,
// kind by kind (mcpack/encode.go, mcpack/decode.go).
module Restoring {
  import opened Bytes
  import opened Wire
  import opened Generic
  import opened Values
  import opened Typed
  import opened TypedTrip
  import opened Domain
  import opened Encoder
  import opened Codec
  import opened Meaning

  // The pointers and interfaces of the value end in nil.
  predicate EndsInNil(env: Env, t: TypeId, v: Value)
    decreases v
  {
    match KindOf(env, t)
    case KPtr(e) => v.VPtr? ==> EndsInNil(env, e, v.p)
    case KInterface => v.VIface? ==> EndsInNil(env, v.dyn, v.val)
    case _ => false
  }

  // w is what v comes back as: numbers, strings and bytes as they were; pointers and interfaces that
  // end in nil as nil; an interface as what the value in it stands for; nil maps and slices empty;
  // every listed field of a struct as it comes back itself, and zero where there is none.
  ghost predicate Restored(env: Env, t: TypeId, v: Value, w: Value)
    requires Ranked(env)
    decreases v, 1
  {
    match KindOf(env, t)
    case KInterface =>
      if EndsInNil(env, t, v) then w == VNil else v.VIface? && w.VAny? && Means(env, v.dyn, v.val, w.a)
    case KPtr(e) => if EndsInNil(env, t, v) then w == VNil else v.VPtr? && w.VPtr? && Restored(env, e, v.p, w.p)
    case KStruct(_) => FieldsRestored(env, t, v, w)
    case KMap(_, e) => w.VMap? && if v.VMap? then EntriesRestored(env, e, v.entries, w.entries) else w.entries == []
    case KSlice(e) => w.VSlice? && if v.VSlice? then ElemsRestored(env, e, v.es, w.es) else w.es == []
    case KArray(_, e) => v.VArray? && w.VArray? && ElemsRestored(env, e, v.es, w.es)
    case _ => w == v
  }

  ghost predicate FieldsRestored(env: Env, t: TypeId, v: Value, w: Value)
    requires Ranked(env)
    decreases v, 0
  {
    && (forall i | 0 <= i < |FieldsOf(env, t)| :: FieldRestored(env, t, v, w, FieldsOf(env, t)[i].index))
    && (forall q: seq<nat> | forall f | f in FieldsOf(env, t) :: Apart(f.index, q) ::
          FieldAt(w, q) == FieldAt(Zero(env, t), q))
  }

  ghost predicate FieldRestored(env: Env, t: TypeId, v: Value, w: Value, p: Path)
    requires Ranked(env)
    decreases v, 0, 0
  {
    && FieldAt(v, p).Some? && FieldAt(w, p).Some?
    && Restored(env, TypeAt(env, t, p), FieldAt(v, p).value, FieldAt(w, p).value)
  }

  // Every key once, with what the last entry that has it comes back as.
  ghost predicate EntriesRestored(env: Env, e: TypeId, a: seq<Entry>, b: seq<Entry>)
    requires Ranked(env)
    decreases a, 2
  {
    && DistinctKeys(b)
    && (forall k :: HasKey(a, k) <==> HasKey(b, k))
    && (forall i, j | 0 <= i < |a| && 0 <= j < |b| && LastOfKey(a, i) && a[i].key == b[j].key ::
          Restored(env, e, a[i].val, b[j].val))
  }

  ghost predicate ElemsRestored(env: Env, e: TypeId, a: seq<Value>, b: seq<Value>)
    requires Ranked(env)
    decreases a, 2
  {
    |b| == |a| && forall i | 0 <= i < |a| :: Restored(env, e, a[i], b[i])
  }

  // ---- Normal forms are that -----------------------------------------------------------------------------

  lemma {:induction false} NilIsNull(env: Env, t: TypeId, v: Value)
    requires InDomain(env, t, v)
    ensures EndsInNil(env, t, v) <==> Lower(env, t, v) == Some(Leaf(Null))
    decreases v
  {
    hide LowerFields, LowerEntries, LowerElems, FieldsInDomain, EntriesInDomain, ElemsInDomain;
    match KindOf(env, t)
    case KPtr(e) => if v.VPtr? { NilIsNull(env, e, v.p); }
    case KInterface => if v.VIface? { NilIsNull(env, v.dyn, v.val); }
    case _ =>
  }

  // Entry by entry, the one put last under a key is what is found there.
  lemma {:induction false} PutKeeps(es: seq<Entry>, key: bytes, v: Value)
    requires DistinctKeys(es)
    ensures var r := PutEntry(es, key, v);
            && DistinctKeys(r) && (forall k :: HasKey(r, k) <==> HasKey(es, k) || k == key)
            && (forall j | 0 <= j < |r| && r[j].key == key :: r[j].val == v)
            && (forall j | 0 <= j < |r| && r[j].key != key :: r[j] in es)
  {
    if es != [] && es[0].key != key {
      PutKeeps(es[1..], key, v);
      var r, rest := PutEntry(es, key, v), PutEntry(es[1..], key, v);
      assert r[1..] == rest;
      forall j | 0 <= j < |r| ensures r[j].key == key ==> r[j].val == v
                              ensures r[j].key != key ==> r[j] in es {
        if j > 0 { assert r[j] == rest[j - 1]; }
      }
    } else if es != [] {
      var r := PutEntry(es, key, v);
      assert r[1..] == es[1..];
      forall j | 0 < j < |r| ensures r[j].key != key && r[j] in es {
        assert r[j] == es[1..][j - 1];
        KeyThere(es[1..], j - 1);
      }
    } else {
      assert PutEntry(es, key, v)[1..] == [];
    }
  }

  lemma {:induction false} KeyThere(es: seq<Entry>, j: nat)
    requires j < |es|
    ensures HasKey(es, es[j].key)
  {
    if j > 0 {
      KeyThere(es[1..], j - 1);
    }
  }

  lemma {:induction false} NoKey(es: seq<Entry>, key: bytes)
    ensures HasKey(es, key) <==> exists j | 0 <= j < |es| :: es[j].key == key
  {
    if es != [] && es[0].key != key {
      NoKey(es[1..], key);
      if j :| 0 <= j < |es[1..]| && es[1..][j].key == key { assert es[j + 1].key == key; }
      if j :| 0 <= j < |es| && es[j].key == key { assert es[1..][j - 1].key == key; }
    }
  }

  // What storing entries one by one gives.
  lemma {:induction false} NormEntriesIs(env: Env, e: TypeId, entries: seq<Entry>, done: seq<Entry>)
    requires Ranked(env) && DistinctKeys(done)
    ensures var r := NormEntries(env, e, entries, done);
            && DistinctKeys(r) && (forall k :: HasKey(r, k) <==> HasKey(done, k) || HasKey(entries, k))
            && (forall i, j | 0 <= i < |entries| && 0 <= j < |r| ::
                  LastOfKey(entries, i) && entries[i].key == r[j].key ==>
                  r[j].val == NormV(env, e, entries[i].val))
            && (forall j | 0 <= j < |r| && !HasKey(entries, r[j].key) :: r[j] in done)
    decreases |entries|
  {
    hide NormV, DistinctKeys, PutEntry;
    if entries != [] {
      var x, rest := entries[0], entries[1..];
      var y := NormV(env, e, x.val);
      var done' := PutEntry(done, x.key, y);
      PutKeeps(done, x.key, y);
      NormEntriesIs(env, e, rest, done');
      var r := NormEntries(env, e, entries, done);
      forall i, j | 0 <= i < |entries| && 0 <= j < |r| && LastOfKey(entries, i) && entries[i].key == r[j].key
        ensures r[j].val == NormV(env, e, entries[i].val)
      {
        if i > 0 {
          TailLast(entries, i);
          assert rest[i - 1] == entries[i];
        } else {
          NoKey(rest, x.key);
          assert r[j] in done';
        }
      }
    }
  }

  lemma TailLast(entries: seq<Entry>, i: nat)
    requires 0 < i && LastOfKey(entries, i)
    ensures LastOfKey(entries[1..], i - 1)
  {
  }

  lemma {:induction false} NormElemsAt(env: Env, e: TypeId, es: seq<Value>, i: nat)
    requires Ranked(env) && i < |es|
    ensures NormElems(env, e, es)[i] == NormV(env, e, es[i])
  {
    hide NormV;
    if i > 0 {
      NormElemsAt(env, e, es[1..], i - 1);
    }
  }

  // ---- What is read back -----------------------------------------------------------------------------------

  lemma {:induction false} NormRestored(env: Env, t: TypeId, v: Value)
    requires Ranked(env) && AllResolved(env) && InDomain(env, t, v) && Accepts(env, t, v)
    requires Lower(env, t, v).Some? && Complete(Lower(env, t, v).value)
    ensures Restored(env, t, v, NormV(env, t, v))
    decreases v, 1
  {
    hide LowerFields, LowerEntries, LowerElems, FieldsInDomain, EntriesInDomain, ElemsInDomain, FieldsRestored,
         EntriesRestored, ElemsRestored, AllComplete, NormFields, NormEntries, NormElems, AllResolved, AcceptsFields,
         AcceptsEntries, AcceptsElems, Means, Norm, Ranked;
    NilIsNull(env, t, v);
    match KindOf(env, t)
    case KInterface => if !EndsInNil(env, t, v) { InterfaceRestored(env, t, v); }
    case KPtr(e) => if v.VPtr? && !EndsInNil(env, t, v) { NormRestored(env, e, v.p); }
    case KStruct(_) => StructRestored(env, t, v);
    case KMap(_, e) => if v.VMap? { MapRestored(env, e, v.entries); } else { EmptyRestored(env, e); }
    case KSlice(e) =>
      if v.VSlice? {
        if IsByte(env, e) { ByteRestored(env, e, v.es); } else { ListRestored(env, e, v.es); }
      }
    case KArray(_, e) => ListRestored(env, e, v.es);
    case _ =>
  }

  lemma EmptyRestored(env: Env, e: TypeId)
    requires Ranked(env)
    ensures NormEntries(env, e, [], []) == []
  {
  }

  lemma InterfaceRestored(env: Env, t: TypeId, v: Value)
    requires Ranked(env) && AllResolved(env) && InDomain(env, t, v) && Accepts(env, t, v) && KindOf(env, t).KInterface?
    requires Lower(env, t, v).Some? && Complete(Lower(env, t, v).value) && !EndsInNil(env, t, v)
    ensures Restored(env, t, v, NormV(env, t, v))
  {
    hide Means, Norm, Complete, AllResolved, Ranked;
    NilIsNull(env, t, v);
    GivesObjectIff(env, t, v);
    NormMeans(env, v.dyn, v.val);
  }

  lemma StructRestored(env: Env, t: TypeId, v: Value)
    requires Ranked(env) && AllResolved(env) && InDomain(env, t, v) && Accepts(env, t, v) && KindOf(env, t).KStruct?
    requires Lower(env, t, v).Some? && Complete(Lower(env, t, v).value)
    ensures Restored(env, t, v, NormV(env, t, v))
    decreases v, 0, 1
  {
    hide LowerFields, FieldsInDomain, AllComplete, NormV, AllResolved, AcceptsFields, Zero, Ranked, FieldAt, Apart;
    var fs := FieldsOf(env, t);
    StructNorm(env, t, v);
    forall i | 0 <= i < |fs| ensures FieldRestored(env, t, v, NormV(env, t, v), fs[i].index) {
      OneRestored(env, t, v, fs, i);
    }
  }

  lemma OneRestored(env: Env, t: TypeId, v: Value, fs: seq<Field>, i: nat)
    requires Ranked(env) && AllResolved(env) && InDomain(env, t, v) && KindOf(env, t).KStruct?
    requires var ms := LowerFields(env, t, v, fs); |ms| == |fs| && AllComplete(ms)
    requires i < |fs| && AcceptsFields(env, t, v, fs)
    requires FieldAt(v, fs[i].index).Some?
    ensures Restored(env, TypeAt(env, t, fs[i].index), FieldAt(v, fs[i].index).value,
                     NormV(env, TypeAt(env, t, fs[i].index), FieldAt(v, fs[i].index).value))
    decreases v, 0, 0
  {
    hide Lower, Complete, InDomain, AllResolved, LowerFields, NormV, FieldAt, Ranked, Restored, AcceptsFields;
    var p := fs[i].index;
    FieldMember(env, t, v, fs, i);
    PathInDomain(env, t, v, p);
    FieldAccepts(env, t, v, fs, i);
    NormRestored(env, TypeAt(env, t, p), FieldAt(v, p).value);
  }

  lemma {:induction false} FieldAccepts(env: Env, t: TypeId, v: Value, fs: seq<Field>, i: nat)
    requires AcceptsFields(env, t, v, fs) && i < |fs| && FieldAt(v, fs[i].index).Some?
    ensures Accepts(env, TypeAt(env, t, fs[i].index), FieldAt(v, fs[i].index).value)
    decreases |fs|
  {
    hide Accepts, PathPlain;
    if i > 0 {
      FieldAccepts(env, t, v, fs[1..], i - 1);
    }
  }

  lemma MapRestored(env: Env, e: TypeId, entries: seq<Entry>)
    requires Ranked(env) && AllResolved(env) && EntriesInDomain(env, e, entries) && AcceptsEntries(env, e, entries)
    requires var ms := LowerEntries(env, e, entries); |ms| == |entries| && AllComplete(ms)
    ensures EntriesRestored(env, e, entries, NormEntries(env, e, entries, []))
    decreases entries, 0, 0
  {
    hide Lower, Complete, InDomain, AllResolved, LowerEntries, NormV, NormEntries, Ranked, Restored, AcceptsEntries,
         EntriesInDomain;
    var r := NormEntries(env, e, entries, []);
    NormEntriesIs(env, e, entries, []);
    forall i, j | 0 <= i < |entries| && 0 <= j < |r| && LastOfKey(entries, i) && entries[i].key == r[j].key
      ensures Restored(env, e, entries[i].val, r[j].val)
    {
      EntryMember(env, e, entries, i);
      EntryInDomain(env, e, entries, i);
      EntryAccepts(env, e, entries, i);
      NormRestored(env, e, entries[i].val);
    }
  }

  lemma {:induction false} EntryAccepts(env: Env, e: TypeId, entries: seq<Entry>, i: nat)
    requires AcceptsEntries(env, e, entries) && i < |entries|
    ensures Accepts(env, e, entries[i].val)
  {
    hide Accepts;
    if i > 0 {
      EntryAccepts(env, e, entries[1..], i - 1);
    }
  }

  lemma {:induction false} ElemAccepts(env: Env, e: TypeId, es: seq<Value>, i: nat)
    requires AcceptsElems(env, e, es) && i < |es|
    ensures Accepts(env, e, es[i])
  {
    hide Accepts;
    if i > 0 {
      ElemAccepts(env, e, es[1..], i - 1);
    }
  }

  lemma ListRestored(env: Env, e: TypeId, es: seq<Value>)
    requires Ranked(env) && AllResolved(env) && ElemsInDomain(env, e, es) && AcceptsElems(env, e, es)
    requires var ms := LowerElems(env, e, es); |ms| == |es| && AllComplete(ms)
    ensures ElemsRestored(env, e, es, NormElems(env, e, es))
    decreases es, 0, 0
  {
    hide Lower, Complete, InDomain, AllResolved, LowerElems, NormV, NormElems, Ranked, Restored, AcceptsElems,
         ElemsInDomain;
    forall i | 0 <= i < |es| ensures Restored(env, e, es[i], NormElems(env, e, es)[i]) {
      ElemMember(env, e, es, i);
      ElemInDomain(env, e, es, i);
      ElemAccepts(env, e, es, i);
      NormElemsAt(env, e, es, i);
      NormRestored(env, e, es[i]);
    }
  }

  lemma ByteRestored(env: Env, e: TypeId, es: seq<Value>)
    requires Ranked(env) && IsByte(env, e) && ElemsInDomain(env, e, es)
    ensures ElemsRestored(env, e, es, NormElems(env, e, es))
  {
    hide NormElems, ElemsInDomain, Ranked;
    forall i | 0 <= i < |es| ensures Restored(env, e, es[i], NormElems(env, e, es)[i]) {
      NormElemsAt(env, e, es, i);
    }
  }

  // Whatever Marshal writes comes back in a fresh variable of the value's type as it should, if and only
  // if it can be read back and the variable can take it.
  lemma TypedRestores(env: Env, t: TypeId, v: Value, data: bytes)
    requires Program(env) && InDomain(env, t, v)
    requires MarshalOf(env, VIface(t, v)) == Output(data) && 0 < |data| < 0x1_0000_0000
    ensures if Readable(env, t, v) && Accepts(env, t, v)
            then TypedAt(env, t, Zero(env, t), data, 0).Got? && TypedAt(env, t, Zero(env, t), data, 0).off == |data|
                 && Restored(env, t, v, TypedAt(env, t, Zero(env, t), data, 0).value)
            else TypedAt(env, t, Zero(env, t), data, 0).Failed?
  {
    hide InDomain, Lower, Enc, KeysFit, Readable, Accepts, TypedAt, NormV, Zero, Restored, Complete, Named, AllResolved,
         Ranked;
    ThereAndBack(env, t, v);
    ReadableIff(env, t, v);
    ProgramFields(env);
    if Readable(env, t, v) && Accepts(env, t, v) {
      NormRestored(env, t, v);
    }
  }
}
