// Which field of a struct a key is stored into, and what becomes of every field when an object is
// decoded into the struct (object in mcpack/decode.go).
module Lookup {
  import opened Bytes
  import opened Wire
  import opened Decode
  import opened Values
  import opened Fold
  import opened Typed
  import opened TypedTrip

  // ---- The field a key goes to -----------------------------------------------------------------

  // i is the first position of a field with exactly that name, or when there is none, of a field
  // whose name is the key up to case.
  ghost predicate GoesTo(env: Env, fs: seq<Field>, key: bytes, i: nat) {
    i < |fs| &&
    if exists j | 0 <= j < |fs| :: fs[j].name == key
    then fs[i].name == key && forall j | 0 <= j < i :: fs[j].name != key
    else EqualFold(env.fold, fs[i].name, key) && forall j | 0 <= j < i :: !EqualFold(env.fold, fs[j].name, key)
  }

  // No field has that name, in any case.
  ghost predicate GoesNowhere(env: Env, fs: seq<Field>, key: bytes) {
    forall j | 0 <= j < |fs| :: !EqualFold(env.fold, fs[j].name, key)
  }

  lemma {:induction false} ExactIs(fs: seq<Field>, key: bytes)
    ensures match FindExact(fs, key)
            case None => forall j | 0 <= j < |fs| :: fs[j].name != key
            case Some(f) => exists i | 0 <= i < |fs| ::
              fs[i] == f && f.name == key && forall j | 0 <= j < i :: fs[j].name != key
  {
    if fs != [] && fs[0].name != key {
      ExactIs(fs[1..], key);
      if FindExact(fs, key).Some? {
        var i :| 0 <= i < |fs[1..]| && fs[1..][i] == FindExact(fs, key).value
                 && forall j | 0 <= j < i :: fs[1..][j].name != key;
        assert fs[i + 1] == fs[1..][i];
        assert forall j | 0 < j < i + 1 :: fs[j] == fs[1..][j - 1];
      } else {
        assert forall j | 0 < j < |fs| :: fs[j] == fs[1..][j - 1];
      }
    }
  }

  lemma {:induction false} FoldedIs(env: Env, fs: seq<Field>, key: bytes)
    ensures match FindFold(env, fs, key)
            case None => GoesNowhere(env, fs, key)
            case Some(f) => exists i | 0 <= i < |fs| ::
              && fs[i] == f && EqualFold(env.fold, f.name, key)
              && forall j | 0 <= j < i :: !EqualFold(env.fold, fs[j].name, key)
  {
    hide EqualFold;
    if fs != [] && !EqualFold(env.fold, fs[0].name, key) {
      FoldedIs(env, fs[1..], key);
      if FindFold(env, fs, key).Some? {
        var i :| 0 <= i < |fs[1..]| && fs[1..][i] == FindFold(env, fs, key).value
                 && forall j | 0 <= j < i :: !EqualFold(env.fold, fs[1..][j].name, key);
        assert fs[i + 1] == fs[1..][i];
        assert forall j | 0 < j < i + 1 :: fs[j] == fs[1..][j - 1];
      } else {
        assert forall j | 0 < j < |fs| :: fs[j] == fs[1..][j - 1];
      }
    }
  }

  // A key goes to at most one field, and to none exactly when none matches.
  lemma FindIs(env: Env, fs: seq<Field>, key: bytes)
    ensures match Find(env, fs, key)
            case None => GoesNowhere(env, fs, key)
            case Some(f) => exists i: nat | i < |fs| :: GoesTo(env, fs, key, i) && fs[i] == f
  {
    hide EqualFold;
    ExactIs(fs, key);
    FoldedIs(env, fs, key);
    SameName(env);
    if FindExact(fs, key).Some? {
      var i :| 0 <= i < |fs| && fs[i] == FindExact(fs, key).value && fs[i].name == key
               && forall j | 0 <= j < i :: fs[j].name != key;
      assert GoesTo(env, fs, key, i);
    } else if FindFold(env, fs, key).Some? {
      var i :| 0 <= i < |fs| && fs[i] == FindFold(env, fs, key).value && EqualFold(env.fold, fs[i].name, key)
               && forall j | 0 <= j < i :: !EqualFold(env.fold, fs[j].name, key);
      assert GoesTo(env, fs, key, i);
    }
  }

  lemma SameName(env: Env)
    ensures forall s: bytes :: EqualFold(env.fold, s, s)
  {
  }

  lemma GoesToOne(env: Env, fs: seq<Field>, key: bytes, i: nat, j: nat)
    requires GoesTo(env, fs, key, i)
    ensures !GoesNowhere(env, fs, key)
    ensures GoesTo(env, fs, key, j) ==> j == i
  {
    hide EqualFold;
    SameName(env);
  }

  lemma Found(env: Env, fs: seq<Field>, key: bytes, i: nat)
    requires GoesTo(env, fs, key, i)
    ensures Find(env, fs, key) == Some(fs[i])
  {
    hide GoesTo, GoesNowhere, Find;
    FindIs(env, fs, key);
    GoesToOne(env, fs, key, i, i);
    var j: nat :| j < |fs| && GoesTo(env, fs, key, j) && Find(env, fs, key) == Some(fs[j]);
    GoesToOne(env, fs, key, i, j);
  }

  // ---- What becomes of each field ------------------------------------------------------------------

  // The items whose keys go to field i, in order.
  ghost function Hits(env: Env, fs: seq<Field>, ms: seq<Member>, i: nat): seq<Item> {
    if ms == [] then []
    else (if GoesTo(env, fs, ms[0].key, i) then [ms[0].item] else []) + Hits(env, fs, ms[1..], i)
  }

  // Storing items one after another at a place that x says is there or not.
  function Poured(env: Env, t: TypeId, x: Option<Value>, items: seq<Item>): Option<Option<Value>>
    requires Ranked(env)
    decreases |items|
  {
    if items == [] then Some(x)
    else if x.None? then None
    else
      match Into(env, t, x.value, items[0])
      case None => None
      case Some(v) => Poured(env, t, Some(v), items[1..])
  }

  ghost function PouredField(env: Env, t: TypeId, cur: Value, ms: seq<Member>, i: nat): Option<Option<Value>>
    requires Ranked(env) && i < |FieldsOf(env, t)|
  {
    var fs := FieldsOf(env, t);
    Poured(env, TypeAt(env, t, fs[i].index), FieldAt(cur, fs[i].index), Hits(env, fs, ms, i))
  }

  // What each field holds afterwards; what lies apart from all fields is left alone.
  ghost predicate Poureds(env: Env, t: TypeId, cur: Value, ms: seq<Member>, w: Value)
    requires Ranked(env)
  {
    && (forall i | 0 <= i < |FieldsOf(env, t)| ::
          PouredField(env, t, cur, ms, i) == Some(FieldAt(w, FieldsOf(env, t)[i].index)))
    && (forall q: seq<nat> | forall f | f in FieldsOf(env, t) :: Apart(f.index, q) :: FieldAt(w, q) == FieldAt(cur, q))
  }

  // Fields are decoded independently of each other: decoding an object into a struct succeeds if and
  // only if for every field, decoding the members that go to it one after another does; each field
  // then holds what that gives. Members that go nowhere are skipped.
  lemma {:induction false} FieldsIndependent(env: Env, t: TypeId, cur: Value, ms: seq<Member>)
    requires Ranked(env) && Resolved(FieldsOf(env, t))
    ensures var r := IntoStruct(env, t, cur, ms);
            if exists i | 0 <= i < |FieldsOf(env, t)| :: PouredField(env, t, cur, ms, i).None? then r.None?
            else r.Some? && Poureds(env, t, cur, ms, r.value)
    decreases ms, 1
  {
    hide Into, FieldAt, SetAt, GoesTo, GoesNowhere, Find, Poured, Apart, Resolved;
    var fs := FieldsOf(env, t);
    if ms == [] {
      forall i | 0 <= i < |fs| ensures PouredField(env, t, cur, ms, i) == Some(FieldAt(cur, fs[i].index)) {
        PourNothing(env, TypeAt(env, t, fs[i].index), FieldAt(cur, fs[i].index));
      }
    } else {
      FindIs(env, fs, ms[0].key);
      match Find(env, fs, ms[0].key)
      case None =>
        forall i | 0 <= i < |fs| ensures PouredField(env, t, cur, ms, i) == PouredField(env, t, cur, ms[1..], i) {
          Nowhere(env, fs, ms, i);
        }
        FieldsIndependent(env, t, cur, ms[1..]);
      case Some(f) =>
        var j: nat :| j < |fs| && GoesTo(env, fs, ms[0].key, j) && fs[j] == f;
        MemberPoured(env, t, cur, ms, j);
    }
  }

  lemma PourNothing(env: Env, t: TypeId, x: Option<Value>)
    requires Ranked(env)
    ensures Poured(env, t, x, []) == Some(x)
  {
  }

  lemma Nowhere(env: Env, fs: seq<Field>, ms: seq<Member>, i: nat)
    requires ms != [] && GoesNowhere(env, fs, ms[0].key)
    ensures Hits(env, fs, ms, i) == Hits(env, fs, ms[1..], i)
  {
    hide EqualFold;
    SameName(env);
  }

  lemma OneHit(env: Env, fs: seq<Field>, ms: seq<Member>, j: nat, i: nat)
    requires ms != [] && GoesTo(env, fs, ms[0].key, j)
    ensures Hits(env, fs, ms, i) == (if i == j then [ms[0].item] else []) + Hits(env, fs, ms[1..], i)
  {
    hide GoesTo;
    GoesToOne(env, fs, ms[0].key, j, i);
  }

  lemma PourOne(env: Env, t: TypeId, x: Option<Value>, it: Item, rest: seq<Item>)
    requires Ranked(env)
    ensures Poured(env, t, x, [it] + rest) ==
            if x.None? || Into(env, t, x.value, it).None? then None
            else Poured(env, t, Into(env, t, x.value, it), rest)
  {
    hide Into;
    assert ([it] + rest)[1..] == rest;
  }

  // One member is stored into its field, and then the others are.
  lemma {:induction false} MemberPoured(env: Env, t: TypeId, cur: Value, ms: seq<Member>, j: nat)
    requires Ranked(env) && Resolved(FieldsOf(env, t)) && ms != [] && GoesTo(env, FieldsOf(env, t), ms[0].key, j)
    ensures var r := IntoStruct(env, t, cur, ms);
            if exists i | 0 <= i < |FieldsOf(env, t)| :: PouredField(env, t, cur, ms, i).None? then r.None?
            else r.Some? && Poureds(env, t, cur, ms, r.value)
    decreases ms, 0
  {
    hide Into, FieldAt, SetAt, GoesNowhere, Find, Poured, Apart, Resolved, Hits, EqualFold;
    var fs := FieldsOf(env, t);
    var f, it := fs[j], ms[0].item;
    var ft, x := TypeAt(env, t, f.index), FieldAt(cur, f.index);
    Found(env, fs, ms[0].key, j);
    OneHit(env, fs, ms, j, j);
    PourOne(env, ft, x, it, Hits(env, fs, ms[1..], j));
    if x.None? || Into(env, ft, x.value, it).None? {
      assert PouredField(env, t, cur, ms, j).None?;
    } else {
      var v := Into(env, ft, x.value, it).value;
      var cur' := SetAt(cur, f.index, v);
      FieldsIndependent(env, t, cur', ms[1..]);
      forall i | 0 <= i < |fs| ensures PouredField(env, t, cur, ms, i) == PouredField(env, t, cur', ms[1..], i) {
        StillPoured(env, t, cur, ms, j, v, i);
      }
      forall q: seq<nat> | forall g | g in fs :: Apart(g.index, q) ensures FieldAt(cur', q) == FieldAt(cur, q) {
        assert f in fs;
        SetElsewhere(cur, f.index, q, v);
      }
    }
  }

  lemma StillPoured(env: Env, t: TypeId, cur: Value, ms: seq<Member>, j: nat, v: Value, i: nat)
    requires Ranked(env) && Resolved(FieldsOf(env, t)) && ms != [] && GoesTo(env, FieldsOf(env, t), ms[0].key, j)
    requires i < |FieldsOf(env, t)|
    requires var p := FieldsOf(env, t)[j].index;
             && FieldAt(cur, p).Some?
             && Into(env, TypeAt(env, t, p), FieldAt(cur, p).value, ms[0].item) == Some(v)
    ensures PouredField(env, t, cur, ms, i) ==
            PouredField(env, t, SetAt(cur, FieldsOf(env, t)[j].index, v), ms[1..], i)
  {
    hide Into, FieldAt, SetAt, Poured, Apart, Hits, EqualFold;
    var fs := FieldsOf(env, t);
    var p, q := fs[j].index, fs[i].index;
    OneHit(env, fs, ms, j, i);
    if i == j {
      SetThenGet(cur, p, v);
      PourOne(env, TypeAt(env, t, p), FieldAt(cur, p), ms[0].item, Hits(env, fs, ms[1..], j));
    } else {
      assert if i < j then Apart(q, p) else Apart(p, q);
      ApartFlips(p, q);
      SetElsewhere(cur, p, q, v);
      assert [] + Hits(env, fs, ms[1..], i) == Hits(env, fs, ms[1..], i);
    }
  }

  // ---- Decoding --------------------------------------------------------------------------------------

  // The same of decoding bytes: the object ends where its encoding does.
  lemma StructDecodes(env: Env, t: TypeId, cur: Value, data: bytes, off: nat, k: bytes, ms: seq<Member>)
    requires Ranked(env) && Resolved(FieldsOf(env, t)) && KindOf(env, t).KStruct?
    requires var it := Object(|ms|, ms); Fits(k, it) && Complete(it) && Named(it) && At(data, off, Enc(k, it))
    ensures var r := TypedAt(env, t, cur, data, off);
            if exists i | 0 <= i < |FieldsOf(env, t)| :: PouredField(env, t, cur, ms, i).None? then r.Failed?
            else r.Got? && r.off == off + |Enc(k, Object(|ms|, ms))| && Poureds(env, t, cur, ms, r.value)
  {
    hide IntoStruct, TypedAt, Enc, At, SizesFit, Named, Complete, Poureds, PouredField, Resolved, LE;
    TypedAgrees(env, t, cur, data, off, k, Object(|ms|, ms));
    FieldsIndependent(env, t, cur, ms);
  }

  // An object with one member: it is stored into the field that has exactly its key for a name, or
  // when there is none, into the first that matches up to case.
  lemma OneMemberDecodes(env: Env, t: TypeId, cur: Value, data: bytes, off: nat, k: bytes, m: Member, i: nat)
    requires Ranked(env) && KindOf(env, t).KStruct? && GoesTo(env, FieldsOf(env, t), m.key, i)
    requires var it := Object(1, [m]); Fits(k, it) && Complete(it) && Named(it) && At(data, off, Enc(k, it))
    ensures var p := FieldsOf(env, t)[i].index;
            var v := if FieldAt(cur, p).None? then None
                     else Into(env, TypeAt(env, t, p), FieldAt(cur, p).value, m.item);
            var r := TypedAt(env, t, cur, data, off);
            if v.None? then r.Failed?
            else r == Got(SetAt(cur, p, v.value), off + |Enc(k, Object(1, [m]))|) && FieldAt(r.value, p) == v
  {
    hide TypedAt, Enc, At, SizesFit, Named, Complete, EqualFold, Find, Into, FieldAt, SetAt, LE;
    var fs, p := FieldsOf(env, t), FieldsOf(env, t)[i].index;
    TypedAgrees(env, t, cur, data, off, k, Object(1, [m]));
    Found(env, fs, m.key, i);
    OneStored(env, t, cur, m, fs[i]);
    if FieldAt(cur, p).Some? && Into(env, TypeAt(env, t, p), FieldAt(cur, p).value, m.item).Some? {
      SetThenGet(cur, p, Into(env, TypeAt(env, t, p), FieldAt(cur, p).value, m.item).value);
    }
  }

  lemma OneStored(env: Env, t: TypeId, cur: Value, m: Member, f: Field)
    requires Ranked(env) && KindOf(env, t).KStruct? && Find(env, FieldsOf(env, t), m.key) == Some(f)
    ensures var x := FieldAt(cur, f.index);
            var v := if x.None? then None else Into(env, TypeAt(env, t, f.index), x.value, m.item);
            Into(env, t, cur, Object(1, [m])) == if v.None? then None else Some(SetAt(cur, f.index, v.value))
  {
    hide Find, FieldAt, SetAt;
    assert [m][1..] == [];
    assert forall c :: IntoStruct(env, t, c, []) == Some(c);
  }
}
