// Unmarshalling what was marshalled succeeds exactly when the encoder left nothing out, no object
// member lacks a key, and the target can take the value back.
module TypedIff {
  import opened Bytes
  import opened Wire
  import opened Decode
  import opened Generic
  import opened Values
  import opened Typed
  import opened TypedTrip
  import opened Domain

  // The data from off to its end is these items.
  ghost predicate Rest(data: bytes, off: nat, ms: seq<Member>) {
    At(data, off, EncAll(ms)) && off + |EncAll(ms)| == |data| && AllFit(ms)
  }

  predicate Good(it: Item) {
    Complete(it) && Named(it)
  }

  // ---- Stepping through the rest ------------------------------------------------------

  lemma {:induction false} AllFitConcat(a: seq<Member>, b: seq<Member>)
    requires AllFit(a) && AllFit(b)
    ensures AllFit(a + b)
  {
    hide KeysFit, SizesFit;
    if a == [] {
      assert a + b == b;
    } else {
      AllFitConcat(a[1..], b);
      assert (a + b)[1..] == a[1..] + b;
    }
  }

  lemma NotAtEnd(data: bytes, off: nat, ms: seq<Member>)
    requires Rest(data, off, ms) && off < |data|
    ensures ms != []
  {
  }

  // Past one whole item.
  lemma PastItem(data: bytes, off: nat, ms: seq<Member>)
    requires Rest(data, off, ms) && ms != []
    ensures var k, it := ms[0].key, ms[0].item;
            && Fits(k, it) && KeyFits(k) && At(data, off, Enc(k, it))
            && Rest(data, off + |Enc(k, it)|, ms[1..])
            && Skip(data, off) == Got(Enc(k, it), off + |Enc(k, it)|)
  {
    hide At, Enc, Skip, EncAll, SizesFit;
    assert KeysFit(ms[0].key, ms[0].item);
    FirstAt(data, off, ms);
    SkipRoundTrip(data, off, ms[0].key, ms[0].item);
  }

  // Into a container: its members and then what followed it.
  lemma IntoContainer(data: bytes, off: nat, ms: seq<Member>)
    requires Rest(data, off, ms) && ms != [] && !ms[0].item.Leaf?
    ensures var it, p := ms[0].item, off + 10 + KeyLen(ms[0].key);
            && Count(data, off) == Got(it.count, p)
            && Rest(data, p, it.members + ms[1..])
            && |it.members| <= it.count
            && off < |data| && data[off] == ContainerTag(it)
  {
    hide At, Enc, EncAll, Count;
    PastItem(data, off, ms);
    var k, it := ms[0].key, ms[0].item;
    CountRoundTrip(data, off, k, it);
    EncAllConcat(it.members, ms[1..]);
    AtConcat(data, off + 10 + KeyLen(k), EncAll(it.members), EncAll(ms[1..]));
    AllFitConcat(it.members, ms[1..]);
  }

  lemma PastScalar(data: bytes, off: nat, ms: seq<Member>)
    requires Rest(data, off, ms) && ms != [] && ms[0].item.Leaf?
    ensures off < |data| && IsScalarTag(data[off]) && data[off] != OBJECT && data[off] != ARRAY
    ensures data[off] == NULL <==> ms[0].item == Leaf(Null)
    ensures ScalarAt(data, off).Got? && Rest(data, ScalarAt(data, off).off, ms[1..])
  {
    hide At, Enc, Skip, EncAll, ScalarAt, IsScalarTag;
    PastItem(data, off, ms);
    ItemTag(data, off, ms[0].key, ms[0].item);
    ScalarItem(data, off, ms[0].key, ms[0].item.scalar);
  }

  // ---- Reading an item uses up at least one -------------------------------------------

  lemma {:induction false} AnyUses(data: bytes, off: nat, ms: seq<Member>) returns (left: seq<Member>)
    requires Rest(data, off, ms) && AnyAt(data, off).Got?
    ensures Rest(data, AnyAt(data, off).off, left) && |left| + 1 <= |ms|
    decreases Left(data, off), 0
  {
    hide Rest, Count, ScalarAt;
    NotAtEnd(data, off, ms);
    var it := ms[0].item;
    if it.Leaf? {
      PastScalar(data, off, ms);
      left := ms[1..];
    } else {
      IntoContainer(data, off, ms);
      var c := Count(data, off);
      if it.Object? {
        left := MapUses(data, c.off, c.value, map[], it.members + ms[1..]);
      } else {
        left := ListUses(data, c.off, c.value, [], it.members + ms[1..]);
      }
    }
  }

  lemma {:induction false} MapUses(data: bytes, off: nat, n: nat, m: map<bytes, Any>, ms: seq<Member>)
    returns (left: seq<Member>)
    requires Rest(data, off, ms) && MapAt(data, off, n, m).Got?
    ensures Rest(data, MapAt(data, off, n, m).off, left) && |left| + n <= |ms|
    decreases Left(data, off), 1 + n
  {
    hide Rest, KeyAt, AnyAt;
    left := ms;
    if n > 0 {
      left := AnyUses(data, off, ms);
      var a := AnyAt(data, off);
      left := MapUses(data, a.off, n - 1, m[KeyAt(data, off).value := a.value], left);
    }
  }

  lemma {:induction false} ListUses(data: bytes, off: nat, n: nat, es: seq<Any>, ms: seq<Member>)
    returns (left: seq<Member>)
    requires Rest(data, off, ms) && ListAt(data, off, n, es).Got?
    ensures Rest(data, ListAt(data, off, n, es).off, left) && |left| + n <= |ms|
    decreases Left(data, off), 1 + n
  {
    hide Rest, AnyAt;
    left := ms;
    if n > 0 {
      left := AnyUses(data, off, ms);
      var a := AnyAt(data, off);
      left := ListUses(data, a.off, n - 1, es + [a.value], left);
    }
  }

  lemma {:induction false} TypedUses(env: Env, t: TypeId, cur: Value, data: bytes, off: nat, ms: seq<Member>)
    returns (left: seq<Member>)
    requires Ranked(env) && Rest(data, off, ms) && TypedAt(env, t, cur, data, off).Got?
    ensures Rest(data, TypedAt(env, t, cur, data, off).off, left) && |left| + 1 <= |ms|
    decreases Left(data, off), 0, Rank(env, t)
  {
    hide Rest, Count, ScalarAt, AnyAt, Assign, Zero, SliceTarget, ZeroTail, StructAt, EntriesAt, ElemsAt, Ranked,
         IsScalarTag;
    NotAtEnd(data, off, ms);
    var kind, it := KindOf(env, t), ms[0].item;
    if it.Leaf? { PastScalar(data, off, ms); }
    if kind.KPtr? {
      if !cur.VPtr? && data[off] == NULL {
        if !it.Leaf? { IntoContainer(data, off, ms); }
        left := ms[1..];
      } else {
        PtrRank(env, t);
        left := TypedUses(env, kind.elem, if cur.VPtr? then cur.p else Zero(env, kind.elem), data, off, ms);
      }
    } else if it.Leaf? {
      left := ms[1..];
    } else {
      IntoContainer(data, off, ms);
      var c := Count(data, off);
      var inner := it.members + ms[1..];
      if it.Object? {
        match kind
        case KInterface => left := AnyUses(data, off, ms);
        case KStruct(_) => left := StructUses(env, t, cur, data, c.off, c.value, inner);
        case KMap(_, e) => left := EntriesUses(env, e, Entries(cur), data, c.off, c.value, inner);
        case _ => left := inner;
      } else if kind.KString? {
        left := StringUses(StringLen(cur), 0, c.value, data, c.off, inner);
      } else {
        var e := if kind.KSlice? || kind.KArray? then kind.elem else t;
        var es := if kind.KSlice? then SliceTarget(env, e, cur, c.value) else if kind.KArray? then Elems(cur) else [];
        left := ElemsUses(env, e, es, 0, c.value, data, c.off, inner);
      }
    }
  }

  lemma UnsettableUses(data: bytes, off: nat, ms: seq<Member>) returns (left: seq<Member>)
    requires Rest(data, off, ms) && UnsettableAt(data, off).Got?
    ensures Rest(data, UnsettableAt(data, off).off, left) && |left| + 1 <= |ms|
  {
    hide Rest, Count, IsScalarTag;
    NotAtEnd(data, off, ms);
    if ms[0].item.Leaf? {
      PastScalar(data, off, ms);
    } else {
      IntoContainer(data, off, ms);
      left := ms[0].item.members + ms[1..];
    }
  }

  lemma {:induction false} StringUses(len: nat, i: nat, n: nat, data: bytes, off: nat, ms: seq<Member>)
    returns (left: seq<Member>)
    requires i <= n && Rest(data, off, ms) && StringElemsAt(len, i, n, data, off).Got?
    ensures Rest(data, StringElemsAt(len, i, n, data, off).off, left) && |left| + (n - i) <= |ms|
    decreases n - i
  {
    hide Rest, UnsettableAt, Skip;
    left := ms;
    if i < n {
      if i < len {
        left := UnsettableUses(data, off, ms);
        left := StringUses(len, i + 1, n, data, UnsettableAt(data, off).off, left);
      } else {
        left := SkipUses(data, off, ms);
        left := StringUses(len, i + 1, n, data, Skip(data, off).off, left);
      }
    }
  }

  lemma {:induction false} StructUses(env: Env, t: TypeId, cur: Value, data: bytes, off: nat, n: nat, ms: seq<Member>)
    returns (left: seq<Member>)
    requires Ranked(env) && Rest(data, off, ms) && StructAt(env, t, cur, data, off, n).Got?
    ensures Rest(data, StructAt(env, t, cur, data, off, n).off, left) && |left| + n <= |ms|
    decreases Left(data, off), 1 + n, 0
  {
    hide Rest, KeyAt, TypedAt, Find, FieldAt, SetAt, Skip;
    left := ms;
    if n > 0 {
      var f := Find(env, FieldsOf(env, t), KeyAt(data, off).value);
      if f.None? {
        left := SkipUses(data, off, ms);
        left := StructUses(env, t, cur, data, Skip(data, off).off, n - 1, left);
      } else {
        var p := f.value.index;
        var x, ft := FieldAt(cur, p).value, TypeAt(env, t, p);
        left := TypedUses(env, ft, x, data, off, ms);
        var v := TypedAt(env, ft, x, data, off);
        left := StructUses(env, t, SetAt(cur, p, v.value), data, v.off, n - 1, left);
      }
    }
  }

  lemma SkipUses(data: bytes, off: nat, ms: seq<Member>) returns (left: seq<Member>)
    requires Rest(data, off, ms) && Skip(data, off).Got?
    ensures Rest(data, Skip(data, off).off, left) && |left| + 1 <= |ms|
  {
    assert off < |data|;
    hide Rest, Skip;
    NotAtEnd(data, off, ms);
    PastItem(data, off, ms);
    left := ms[1..];
  }

  lemma {:induction false} EntriesUses(env: Env, e: TypeId, entries: seq<Entry>, data: bytes, off: nat, n: nat,
                                       ms: seq<Member>)
    returns (left: seq<Member>)
    requires Ranked(env) && Rest(data, off, ms) && EntriesAt(env, e, entries, data, off, n).Got?
    ensures Rest(data, EntriesAt(env, e, entries, data, off, n).off, left) && |left| + n <= |ms|
    decreases Left(data, off), 1 + n, 0
  {
    hide Rest, KeyAt, TypedAt, Zero, PutEntry;
    left := ms;
    if n > 0 {
      left := TypedUses(env, e, Zero(env, e), data, off, ms);
      var v := TypedAt(env, e, Zero(env, e), data, off);
      left := EntriesUses(env, e, PutEntry(entries, KeyAt(data, off).value, v.value), data, v.off, n - 1, left);
    }
  }

  lemma {:induction false} ElemsUses(env: Env, e: TypeId, es: seq<Value>, i: nat, n: nat, data: bytes, off: nat,
                                     ms: seq<Member>)
    returns (left: seq<Member>)
    requires Ranked(env) && i <= n && Rest(data, off, ms) && ElemsAt(env, e, es, i, n, data, off).Got?
    ensures Rest(data, ElemsAt(env, e, es, i, n, data, off).off, left) && |left| + (n - i) <= |ms|
    decreases Left(data, off), 1 + n - i, 0
  {
    hide Rest, TypedAt, Skip;
    left := ms;
    if i < n {
      if i < |es| {
        left := TypedUses(env, e, es[i], data, off, ms);
        var v := TypedAt(env, e, es[i], data, off);
        left := ElemsUses(env, e, es[i := v.value], i + 1, n, data, v.off, left);
      } else {
        left := SkipUses(data, off, ms);
        left := ElemsUses(env, e, es, i + 1, n, data, Skip(data, off).off, left);
      }
    }
  }

  // ---- Reading a bad item uses up more ----------------------------------------------------

  // If an item that is incomplete or unnamed somewhere is read successfully all the same, then
  // something that followed it was read as part of it.
  lemma {:induction false} AnyBad(data: bytes, off: nat, k: bytes, it: Item,
                                  rest: seq<Member>) returns (left: seq<Member>)
    requires Rest(data, off, [Member(k, it)] + rest) && !Good(it) && AnyAt(data, off).Got?
    ensures Rest(data, AnyAt(data, off).off, left) && |left| + 1 <= |rest|
    decreases it, 1
  {
    hide Rest, Count;
    var all := [Member(k, it)] + rest;
    assert all[1..] == rest;
    IntoContainer(data, off, all);
    var c := Count(data, off);
    if it.Object? {
      left := MapBad(data, c.off, c.value, map[], it.members, rest);
    } else {
      left := ListBad(data, c.off, c.value, [], it.members, rest);
    }
  }

  ghost predicate BadMembers(n: nat, ms: seq<Member>, keyed: bool) {
    |ms| <= n && (|ms| < n || !AllComplete(ms) || !AllNamed(ms, keyed))
  }

  lemma {:induction false} MapBad(data: bytes, off: nat, n: nat, m: map<bytes, Any>, ms: seq<Member>, rest: seq<Member>)
    returns (left: seq<Member>)
    requires Rest(data, off, ms + rest) && BadMembers(n, ms, true) && MapAt(data, off, n, m).Got?
    ensures Rest(data, MapAt(data, off, n, m).off, left) && |left| + 1 <= |rest|
    decreases ms, 2
  {
    hide Rest, AnyAt, KeyAt, Complete, Named, At, Enc;
    if |ms| < n {
      left := MapUses(data, off, n, m, ms + rest);
    } else {
      var k, it, more := ms[0].key, ms[0].item, ms[1..] + rest;
      assert ms + rest == [Member(k, it)] + more && (ms + rest)[1..] == more;
      PastItem(data, off, ms + rest);
      KeyRoundTrip(data, off, k, it);
      var a := AnyAt(data, off);
      if Good(it) {
        AnyRoundTrip(data, off, k, it);
        left := MapBad(data, a.off, n - 1, m[k := a.value], ms[1..], rest);
      } else {
        left := AnyBad(data, off, k, it, more);
        left := MapUses(data, a.off, n - 1, m[k := a.value], left);
      }
    }
  }

  lemma {:induction false} ListBad(data: bytes, off: nat, n: nat, es: seq<Any>, ms: seq<Member>, rest: seq<Member>)
    returns (left: seq<Member>)
    requires Rest(data, off, ms + rest) && BadMembers(n, ms, false) && ListAt(data, off, n, es).Got?
    ensures Rest(data, ListAt(data, off, n, es).off, left) && |left| + 1 <= |rest|
    decreases ms, 2
  {
    hide Rest, AnyAt, Complete, Named, At, Enc;
    if |ms| < n {
      left := ListUses(data, off, n, es, ms + rest);
    } else {
      var k, it, more := ms[0].key, ms[0].item, ms[1..] + rest;
      assert ms + rest == [Member(k, it)] + more && (ms + rest)[1..] == more;
      PastItem(data, off, ms + rest);
      var a := AnyAt(data, off);
      if Good(it) {
        AnyRoundTrip(data, off, k, it);
        left := ListBad(data, a.off, n - 1, es + [a.value], ms[1..], rest);
      } else {
        left := AnyBad(data, off, k, it, more);
        left := ListUses(data, a.off, n - 1, es + [a.value], left);
      }
    }
  }

  // The same when reading into a fresh target of the type the item was encoded from.
  lemma {:induction false} TypedBad(env: Env, t: TypeId, v: Value, data: bytes, off: nat, k: bytes, it: Item,
                                    rest: seq<Member>)
    returns (left: seq<Member>)
    requires Ranked(env) && AllResolved(env) && InDomain(env, t, v) && Lower(env, t, v) == Some(it) && !Good(it)
    requires Rest(data, off, [Member(k, it)] + rest) && TypedAt(env, t, Zero(env, t), data, off).Got?
    ensures Rest(data, TypedAt(env, t, Zero(env, t), data, off).off, left) && |left| + 1 <= |rest|
    decreases v, 1, 0
  {
    hide Rest, Count, StructAt, EntriesAt, ElemsAt, AnyAt, LowerFields, LowerEntries, LowerElems, Complete, Named,
         AllResolved, Ranked, TypedAt, BadMembers, SliceTarget, FieldsInDomain, EntriesInDomain, ElemsInDomain;
    left := rest;
    var all, kind := [Member(k, it)] + rest, KindOf(env, t);
    assert all[1..] == rest;
    LeafGood(it);
    NilGood(env, t);
    IntoContainer(data, off, all);
    BadContainer(it);
    var c := Count(data, off);
    if kind.KPtr? {
      PointerRead(env, t, data, off);
    } else if it.Object? {
      ObjectRead(env, t, Zero(env, t), data, off);
    } else {
      ArrayRead(env, t, Zero(env, t), data, off);
    }
    match kind
    case KPtr(e) => left := TypedBad(env, e, v.p, data, off, k, it, rest);
    case KInterface => if it.Object? { left := AnyBad(data, off, k, it, rest); }
    case KStruct(_) => left := StructBad(env, t, v, 0, Zero(env, t), data, c.off, rest);
    case KMap(_, e) => left := EntriesBad(env, e, Entries(v), Entries(Zero(env, t)), data, c.off, rest);
    case KSlice(e) =>
      FreshSlice(env, t, c.value);
      left := ElemsBad(env, e, Elems(v), SliceTarget(env, e, Zero(env, t), c.value), 0, data, c.off, rest);
    case KArray(_, e) =>
      if IsNilable(env, e) { NilZero(env, e); }
      left := ElemsBad(env, e, Elems(v), Elems(Zero(env, t)), 0, data, c.off, rest);
  }

  lemma FreshSlice(env: Env, t: TypeId, n: nat)
    requires Ranked(env) && KindOf(env, t).KSlice?
    ensures var e := KindOf(env, t).elem;
            var es := SliceTarget(env, e, Zero(env, t), n);
            |es| == n && forall i | 0 <= i < n :: es[i] == Zero(env, e)
  {
    hide Ranked;
  }

  lemma NilGood(env: Env, t: TypeId)
    ensures Lower(env, t, VNil).Some? ==> Good(Lower(env, t, VNil).value)
  {
  }

  lemma LeafGood(it: Item)
    ensures it.Leaf? ==> Good(it)
  {
  }

  lemma BadContainer(it: Item)
    requires !it.Leaf? && !Good(it) && |it.members| <= it.count
    ensures BadMembers(it.count, it.members, it.Object?)
  {
  }

  lemma {:induction false} StructBad(env: Env, t: TypeId, v: Value, i: nat, cur: Value, data: bytes, off: nat,
                                     rest: seq<Member>)
    returns (left: seq<Member>)
    requires Ranked(env) && AllResolved(env) && i <= |FieldsOf(env, t)|
    requires KindOf(env, t).KStruct? && InDomain(env, t, v)
    requires var fs := FieldsOf(env, t)[i..];
             var ms := LowerFields(env, t, v, fs);
             && Fresh(env, t, cur, fs) && BadMembers(|fs|, ms, true)
             && Rest(data, off, ms + rest) && StructAt(env, t, cur, data, off, |fs|).Got?
    ensures Rest(data, StructAt(env, t, cur, data, off, |FieldsOf(env, t)[i..]|).off, left) && |left| + 1 <= |rest|
    decreases v, 0, |FieldsOf(env, t)| - i
  {
    hide Rest, KeyAt, TypedAt, Complete, Named, At, Enc, LowerFields, Lower, Find, FieldAt, SetAt, Zero, Into,
         PathPlain, StructAt, Fresh, BadMembers, Ranked, AllResolved, Resolved, InDomain, Apart;
    var all := FieldsOf(env, t);
    var fs := all[i..];
    var ms, n := LowerFields(env, t, v, fs), |fs|;
    MembersMissing(n, ms, true);
    if |ms| < n {
      left := StructUses(env, t, cur, data, off, n, ms + rest);
    } else {
      var f, p := fs[0], fs[0].index;
      assert f == all[i] && fs[1..] == all[i + 1..];
      FirstField(env, t, v, fs);
      FreshFirst(env, t, cur, fs);
      var ft, fv := TypeAt(env, t, p), FieldAt(v, p).value;
      PathInDomain(env, t, v, p);
      var it, more := ms[0].item, ms[1..] + rest;
      assert ms + rest == [Member(f.name, it)] + more && (ms + rest)[1..] == more;
      PastItem(data, off, ms + rest);
      KeyRoundTrip(data, off, f.name, it);
      ResolvedFor(env, t);
      ResolvedTail(all, i);
      FindsOwnName(env, all, i);
      StructAtStep(env, t, cur, data, off, n, f);
      var x := TypedAt(env, ft, Zero(env, ft), data, off);
      StaysFresh(env, t, cur, fs, x.value);
      if Good(it) {
        BadTail(ms, true);
        TypedAgrees(env, ft, Zero(env, ft), data, off, f.name, it);
        left := StructBad(env, t, v, i + 1, SetAt(cur, p, x.value), data, x.off, rest);
      } else {
        left := TypedBad(env, ft, fv, data, off, f.name, it, more);
        left := StructUses(env, t, SetAt(cur, p, x.value), data, x.off, n - 1, left);
      }
    }
  }

  // Members are missing, or the first one is bad, or the rest are.
  lemma MembersMissing(n: nat, ms: seq<Member>, keyed: bool)
    requires BadMembers(n, ms, keyed)
    ensures |ms| < n || (|ms| == n && ms != [])
  {
  }

  lemma BadTail(ms: seq<Member>, keyed: bool)
    requires ms != [] && BadMembers(|ms|, ms, keyed) && Good(ms[0].item) && (keyed ==> ms[0].key != [])
    ensures BadMembers(|ms| - 1, ms[1..], keyed)
  {
    hide Complete, Named;
  }

  // Reading the first member of a struct, under the name of the field f.
  lemma StructAtStep(env: Env, t: TypeId, cur: Value, data: bytes, off: nat, n: nat, f: Field)
    requires Ranked(env) && n > 0 && StructAt(env, t, cur, data, off, n).Got?
    requires KeyAt(data, off).Got? ==> KeyAt(data, off).value == f.name
    requires Find(env, FieldsOf(env, t), f.name) == Some(f)
    ensures KeyAt(data, off).Got? && FieldAt(cur, f.index).Some?
    ensures var x := TypedAt(env, TypeAt(env, t, f.index), FieldAt(cur, f.index).value, data, off);
            && x.Got?
            && StructAt(env, t, cur, data, off, n) == StructAt(env, t, SetAt(cur, f.index, x.value), data, x.off, n - 1)
  {
    hide KeyAt, TypedAt, Find, FieldAt, SetAt, Ranked;
  }

  lemma {:induction false} EntriesBad(env: Env, e: TypeId, entries: seq<Entry>, done: seq<Entry>, data: bytes, off: nat,
                                      rest: seq<Member>)
    returns (left: seq<Member>)
    requires Ranked(env) && AllResolved(env) && EntriesInDomain(env, e, entries)
    requires var ms := LowerEntries(env, e, entries);
             && BadMembers(|entries|, ms, true)
             && Rest(data, off, ms + rest) && EntriesAt(env, e, done, data, off, |entries|).Got?
    ensures Rest(data, EntriesAt(env, e, done, data, off, |entries|).off, left) && |left| + 1 <= |rest|
    decreases entries, 0, 0
  {
    hide Rest, KeyAt, TypedAt, Complete, Named, At, Enc, Lower, LowerEntries, PutEntry, Zero, Into, InDomain,
         BadMembers,
         AllResolved;
    var ms, n := LowerEntries(env, e, entries), |entries|;
    MembersMissing(n, ms, true);
    if |ms| < n {
      left := EntriesUses(env, e, done, data, off, n, ms + rest);
    } else {
      var key, v := entries[0].key, entries[0].val;
      FirstEntry(env, e, entries);
      var it, more := ms[0].item, ms[1..] + rest;
      assert ms + rest == [Member(key, it)] + more && (ms + rest)[1..] == more;
      PastItem(data, off, ms + rest);
      KeyRoundTrip(data, off, key, it);
      var x := TypedAt(env, e, Zero(env, e), data, off);
      if Good(it) {
        BadTail(ms, true);
        TypedAgrees(env, e, Zero(env, e), data, off, key, it);
        left := EntriesBad(env, e, entries[1..], PutEntry(done, key, x.value), data, x.off, rest);
      } else {
        left := TypedBad(env, e, v, data, off, key, it, more);
        left := EntriesUses(env, e, PutEntry(done, key, x.value), data, x.off, n - 1, left);
      }
    }
  }

  lemma {:induction false} ElemsBad(env: Env, e: TypeId, vs: seq<Value>, es: seq<Value>, i: nat, data: bytes, off: nat,
                                    rest: seq<Member>)
    returns (left: seq<Member>)
    requires Ranked(env) && AllResolved(env) && ElemsInDomain(env, e, vs)
    requires |es| == i + |vs| && forall j | i <= j < |es| :: es[j] == Zero(env, e)
    requires var ms := LowerElems(env, e, vs);
             && BadMembers(|vs|, ms, false)
             && Rest(data, off, ms + rest) && ElemsAt(env, e, es, i, |es|, data, off).Got?
    ensures Rest(data, ElemsAt(env, e, es, i, |es|, data, off).off, left) && |left| + 1 <= |rest|
    decreases vs, 0, 0
  {
    hide Rest, TypedAt, Complete, Named, At, Enc, Lower, LowerElems, Zero, Into, InDomain, BadMembers, AllResolved;
    var ms, n := LowerElems(env, e, vs), |vs|;
    MembersMissing(n, ms, false);
    if |ms| < n {
      left := ElemsUses(env, e, es, i, |es|, data, off, ms + rest);
    } else {
      var v := vs[0];
      FirstElem(env, e, vs);
      var it, more := ms[0].item, ms[1..] + rest;
      assert ms + rest == [Member([], it)] + more && (ms + rest)[1..] == more;
      PastItem(data, off, ms + rest);
      var x := TypedAt(env, e, es[i], data, off);
      if Good(it) {
        BadTail(ms, false);
        TypedAgrees(env, e, Zero(env, e), data, off, [], it);
        left := ElemsBad(env, e, vs[1..], es[i := x.value], i + 1, data, x.off, rest);
      } else {
        left := TypedBad(env, e, v, data, off, [], it, more);
        left := ElemsUses(env, e, es[i := x.value], i + 1, |es|, data, x.off, left);
      }
    }
  }

  // Decoding exactly what a value was encoded as, into a fresh target of its type, succeeds if
  // and only if no member was left out, every object member has a key, and the target can take the
  // value back; it then gives the normal form and ends at the end of the data.
  lemma TypedDecodesIff(env: Env, t: TypeId, v: Value, k: bytes)
    requires Ranked(env) && AllResolved(env) && InDomain(env, t, v) && Lower(env, t, v).Some?
    requires Fits(k, Lower(env, t, v).value)
    ensures var it := Lower(env, t, v).value;
            var r := TypedAt(env, t, Zero(env, t), Enc(k, it), 0);
            && (r.Got? <==> Complete(it) && Named(it) && Accepts(env, t, v))
            && (r.Got? ==> r == Got(NormV(env, t, v), |Enc(k, it)|))
  {
    hide Lower, TypedAt, Zero, NormV, Enc, InDomain, Accepts, AllResolved, Complete, Named, Fits, At;
    var it := Lower(env, t, v).value;
    var data := Enc(k, it);
    AtStart(data);
    if Good(it) {
      TypedRoundTrip(env, t, v, k, data, 0);
    } else if TypedAt(env, t, Zero(env, t), data, 0).Got? {
      assert [Member(k, it)] + [] == [Member(k, it)];
      Alone(k, it);
      var left := TypedBad(env, t, v, data, 0, k, it, []);
      assert false;
    }
  }

  lemma Alone(k: bytes, it: Item)
    requires Fits(k, it)
    ensures Rest(Enc(k, it), 0, [Member(k, it)])
  {
    hide Enc, KeysFit, SizesFit;
    var data, one := Enc(k, it), [Member(k, it)];
    assert one[1..] == [];
    assert EncAll(one) == Enc(k, it) + [];
    assert AllKeysFit(one[1..]) && AllSizesFit(one[1..]);
    assert data[..|data|] == data;
  }
}
