// Go yields a map's keys in any order; the order chosen, at any level of a value, changes
// neither the length of its encoding nor what decoding returns.
module MapOrder {
  import opened Bytes
  import opened Wire
  import opened Generic
  import opened Laws
  import opened Values
  import opened Typed
  import opened TypedTrip
  import opened TypedIff
  import opened Domain

  // w is v with the entries of maps listed in a possibly different order.
  ghost predicate Reordered(env: Env, t: TypeId, v: Value, w: Value)
    decreases v, 1, 0
  {
    match KindOf(env, t)
    case KInterface =>
      if v.VIface? && w.VIface? then v.dyn == w.dyn && Reordered(env, v.dyn, v.val, w.val) else v == w
    case KStruct(_) => v.VStruct? && w.VStruct? && ReorderedFields(env, t, v, w, FieldsOf(env, t))
    case KMap(_, e) =>
      v == w == VNil || (v.VMap? && w.VMap? && DistinctKeys(v.entries) && DistinctKeys(w.entries)
                         && |v.entries| == |w.entries| && ReorderedEntries(env, e, v.entries, w.entries))
    case KSlice(e) =>
      if v.VSlice? && w.VSlice? && !IsByte(env, e) then ReorderedElems(env, e, v.es, w.es) else v == w
    case KArray(_, e) => v.VArray? && w.VArray? && ReorderedElems(env, e, v.es, w.es)
    case KPtr(e) => v == w == VNil || (v.VPtr? && w.VPtr? && Reordered(env, e, v.p, w.p))
    case _ => v == w
  }

  ghost predicate ReorderedFields(env: Env, t: TypeId, v: Value, w: Value, fs: seq<Field>)
    decreases v, 0, |fs|
  {
    fs == [] ||
    (&& (match (FieldAt(v, fs[0].index), FieldAt(w, fs[0].index))
         case (None, None) => true
         case (Some(x), Some(y)) => Reordered(env, TypeAt(env, t, fs[0].index), x, y)
         case _ => false)
     && ReorderedFields(env, t, v, w, fs[1..]))
  }

  ghost predicate ReorderedEntries(env: Env, e: TypeId, a: seq<Entry>, b: seq<Entry>)
    decreases a, 1, 0
  {
    if a == [] then b == []
    else exists i | 0 <= i < |b| :: SameEntry(env, e, a, b, i) && ReorderedEntries(env, e, a[1..], Without(b, i))
  }

  ghost predicate SameEntry(env: Env, e: TypeId, a: seq<Entry>, b: seq<Entry>, i: int)
    requires a != [] && 0 <= i < |b|
    decreases a, 0, 0
  {
    a[0].key == b[i].key && Reordered(env, e, a[0].val, b[i].val)
  }

  ghost predicate ReorderedElems(env: Env, e: TypeId, a: seq<Value>, b: seq<Value>)
    decreases a, 0, 0
  {
    if a == [] || b == [] then a == b
    else Reordered(env, e, a[0], b[0]) && ReorderedElems(env, e, a[1..], b[1..])
  }

  // Any order of a map's entries is such a reordering, whose values may stay put.
  lemma {:induction false} AnyEntryOrder(env: Env, e: TypeId, a: seq<Entry>, b: seq<Entry>)
    requires multiset(a) == multiset(b) && forall x | x in a :: Reordered(env, e, x.val, x.val)
    ensures ReorderedEntries(env, e, a, b)
    decreases a
  {
    hide Reordered;
    if a == [] {
      NoneLeft(b);
    } else {
      var i := TakeOut(a, b);
      hide Without;
      AnyEntryOrder(env, e, a[1..], Without(b, i));
      assert SameEntry(env, e, a, b, i);
    }
  }

  // So Go may yield the entries of a map in any order.
  lemma AnyMapOrder(env: Env, t: TypeId, a: seq<Entry>, b: seq<Entry>)
    requires KindOf(env, t).KMap? && multiset(a) == multiset(b)
    requires DistinctKeys(a) && DistinctKeys(b)
    requires forall x | x in a :: Reordered(env, KindOf(env, t).elem, x.val, x.val)
    ensures Reordered(env, t, VMap(a), VMap(b))
  {
    hide ReorderedEntries, DistinctKeys;
    assert |multiset(a)| == |a| && |multiset(b)| == |b|;
    AnyEntryOrder(env, KindOf(env, t).elem, a, b);
  }

  lemma SameEmptiness(env: Env, t: TypeId, v: Value, w: Value)
    requires Reordered(env, t, v, w)
    ensures IsEmpty(v) == IsEmpty(w)
  {
    hide ReorderedEntries, ReorderedFields, DistinctKeys;
  }

  // The items of two such values, when there are any, are shuffles of each other.
  ghost predicate ShuffledOptions(a: Option<Item>, b: Option<Item>) {
    match (a, b)
    case (None, None) => true
    case (Some(x), Some(y)) => Shuffled(x, y)
    case _ => false
  }

  lemma {:induction false} ReorderedShuffles(env: Env, t: TypeId, v: Value, w: Value)
    requires AllResolved(env) && Reordered(env, t, v, w)
    ensures ShuffledOptions(Lower(env, t, v), Lower(env, t, w))
    decreases v, 1, 0
  {
    hide LowerFields, LowerEntries, LowerElems, ReorderedEntries, ReorderedElems, ReorderedFields, ShuffledMembers,
         ShuffledElems, Distinct,
         DistinctKeys, HasKey, Resolved, ToBytes;
    match KindOf(env, t)
    case KInterface => if v.VIface? { ReorderedShuffles(env, v.dyn, v.val, w.val); }
    case KStruct(_) =>
      ResolvedFor(env, t);
      FieldsShuffle(env, t, v, w, FieldsOf(env, t));
      FieldNames(env, t, v, FieldsOf(env, t));
      FieldNames(env, t, w, FieldsOf(env, t));
    case KMap(stringKey, e) =>
      if v.VMap? && stringKey {
        EntriesShuffle(env, e, v.entries, w.entries);
        EntryKeys(env, e, v.entries);
        EntryKeys(env, e, w.entries);
      } else {
        NothingShuffled();
      }
    case KSlice(e) =>
      if v.VSlice? && !IsByte(env, e) { ElemsShuffle(env, e, v.es, w.es); } else { NothingShuffled(); }
    case KArray(_, e) => ElemsShuffle(env, e, v.es, w.es);
    case KPtr(e) => if v.VPtr? { ReorderedShuffles(env, e, v.p, w.p); }
    case _ =>
  }

  lemma NothingShuffled()
    ensures Distinct([]) && ShuffledMembers([], []) && ShuffledElems([], [])
  {
  }

  lemma {:induction false} ElemsShuffle(env: Env, e: TypeId, a: seq<Value>, b: seq<Value>)
    requires AllResolved(env) && ReorderedElems(env, e, a, b)
    ensures |a| == |b| && ShuffledElems(LowerElems(env, e, a), LowerElems(env, e, b))
    decreases a, 0, 0
  {
    hide Lower, Reordered, Shuffled;
    if a != [] {
      ReorderedShuffles(env, e, a[0], b[0]);
      ElemsShuffle(env, e, a[1..], b[1..]);
      PrependElem([], Lower(env, e, a[0]), Lower(env, e, b[0]), LowerElems(env, e, a[1..]), LowerElems(env, e, b[1..]));
    }
  }

  lemma PrependElem(k: bytes, a: Option<Item>, b: Option<Item>, ms: seq<Member>, ms': seq<Member>)
    requires ShuffledOptions(a, b) && ShuffledElems(ms, ms')
    ensures ShuffledElems(AsMember(k, a) + ms, AsMember(k, b) + ms')
  {
    hide Shuffled;
    if a.None? {
      assert [] + ms == ms && [] + ms' == ms';
    } else {
      assert ([Member(k, a.value)] + ms)[1..] == ms && ([Member(k, b.value)] + ms')[1..] == ms';
    }
  }

  // A member can be matched with one further on.
  lemma PrependMember(k: bytes, a: Option<Item>, b: Option<Item>, ms: seq<Member>, front: seq<Member>,
                      back: seq<Member>)
    requires ShuffledOptions(a, b) && ShuffledMembers(ms, front + back)
    ensures ShuffledMembers(AsMember(k, a) + ms, front + AsMember(k, b) + back)
  {
    hide Shuffled;
    if a.None? {
      assert [] + ms == ms && front + [] == front;
    } else {
      var all, all' := [Member(k, a.value)] + ms, front + [Member(k, b.value)] + back;
      var i := |front|;
      assert all[1..] == ms && all'[i] == Member(k, b.value);
      assert Without(all', i) == front + back;
    }
  }

  lemma {:induction false} FieldsShuffle(env: Env, t: TypeId, v: Value, w: Value, fs: seq<Field>)
    requires AllResolved(env) && ReorderedFields(env, t, v, w, fs)
    ensures ShuffledMembers(LowerFields(env, t, v, fs), LowerFields(env, t, w, fs))
    decreases v, 0, |fs|
  {
    hide Lower, Reordered, Shuffled, IsEmpty, ShuffledMembers;
    if fs == [] {
      NothingShuffled();
    } else {
      var f := fs[0];
      FieldsShuffle(env, t, v, w, fs[1..]);
      var x, y := FieldAt(v, f.index), FieldAt(w, f.index);
      var ft := TypeAt(env, t, f.index);
      var ms, ms' := LowerFields(env, t, v, fs[1..]), LowerFields(env, t, w, fs[1..]);
      assert [] + ms == ms && [] + ms' == ms';
      if x.Some? {
        ReorderedShuffles(env, ft, x.value, y.value);
        SameEmptiness(env, ft, x.value, y.value);
        if !(f.omitEmpty && IsEmpty(x.value)) {
          PrependMember(f.name, Lower(env, ft, x.value), Lower(env, ft, y.value), ms, [], ms');
          assert [] + AsMember(f.name, Lower(env, ft, y.value)) == AsMember(f.name, Lower(env, ft, y.value));
        }
      }
    }
  }

  lemma {:induction false} EntriesConcat(env: Env, e: TypeId, a: seq<Entry>, b: seq<Entry>)
    ensures LowerEntries(env, e, a + b) == LowerEntries(env, e, a) + LowerEntries(env, e, b)
    decreases |a|
  {
    hide Lower;
    if a == [] {
      assert a + b == b;
    } else {
      EntriesConcat(env, e, a[1..], b);
      assert (a + b)[1..] == a[1..] + b;
    }
  }

  lemma {:induction false} EntriesShuffle(env: Env, e: TypeId, a: seq<Entry>, b: seq<Entry>)
    requires AllResolved(env) && ReorderedEntries(env, e, a, b)
    ensures ShuffledMembers(LowerEntries(env, e, a), LowerEntries(env, e, b))
    decreases a, 0, 0
  {
    hide Lower, Reordered, Shuffled, ShuffledMembers, AllResolved, AsMember, LowerEntries;
    if a == [] {
      NothingShuffled();
      NoEntries(env, e);
    } else {
      var i :| 0 <= i < |b| && SameEntry(env, e, a, b, i) && ReorderedEntries(env, e, a[1..], Without(b, i));
      ReorderedShuffles(env, e, a[0].val, b[i].val);
      EntriesShuffle(env, e, a[1..], Without(b, i));
      var x, y := Lower(env, e, a[0].val), Lower(env, e, b[i].val);
      var front, back := LowerEntries(env, e, b[..i]), LowerEntries(env, e, b[i + 1..]);
      EntriesConcat(env, e, b[..i], b[i + 1..]);
      EntriesAround(env, e, b, i);
      LowerFirst(env, e, a);
      PrependMember(a[0].key, x, y, LowerEntries(env, e, a[1..]), front, back);
    }
  }

  lemma LowerFirst(env: Env, e: TypeId, a: seq<Entry>)
    requires a != []
    ensures LowerEntries(env, e, a) == AsMember(a[0].key, Lower(env, e, a[0].val)) + LowerEntries(env, e, a[1..])
  {
  }

  lemma EntriesAround(env: Env, e: TypeId, b: seq<Entry>, i: nat)
    requires i < |b|
    ensures LowerEntries(env, e, b) ==
            LowerEntries(env, e, b[..i])
            + AsMember(b[i].key, Lower(env, e, b[i].val))
            + LowerEntries(env, e, b[i + 1..])
  {
    hide Lower, AsMember, LowerEntries;
    assert b == b[..i] + b[i..] && b[i..][1..] == b[i + 1..];
    EntriesConcat(env, e, b[..i], b[i..]);
    LowerFirst(env, e, b[i..]);
  }

  // ---- Keys stay distinct -----------------------------------------------------------------

  lemma {:induction false} FieldNames(env: Env, t: TypeId, v: Value, fs: seq<Field>)
    requires Resolved(fs)
    ensures Distinct(LowerFields(env, t, v, fs))
    ensures forall m | m in LowerFields(env, t, v, fs) :: exists f | f in fs :: f.name == m.key
    decreases |fs|
  {
    hide Lower, Apart;
    if fs != [] {
      assert forall i | 0 <= i < |fs[1..]| :: fs[1..][i] == fs[i + 1];
      FieldNames(env, t, v, fs[1..]);
      var head, rest := LowerField(env, t, v, fs[0]), LowerFields(env, t, v, fs[1..]);
      forall m | m in rest ensures m.key != fs[0].name && exists f | f in fs :: f.name == m.key {
        var f :| f in fs[1..] && f.name == m.key;
        var i :| 0 <= i < |fs[1..]| && fs[1..][i] == f;
        assert fs[i + 1] == f && fs[0].name != fs[i + 1].name;
      }
      assert forall m | m in head :: m.key == fs[0].name && fs[0] in fs;
      DistinctCons(head, rest);
    }
  }

  lemma DistinctCons(head: seq<Member>, rest: seq<Member>)
    requires |head| <= 1 && Distinct(rest) && forall m | m in rest :: head != [] ==> m.key != head[0].key
    ensures Distinct(head + rest)
  {
    var all := head + rest;
    forall i, j | 0 <= i < j < |all| ensures all[i].key != all[j].key {
      assert all[j] == rest[j - |head|];
      if i >= |head| {
        assert all[i] == rest[i - |head|];
      }
    }
  }

  lemma {:induction false} EntryKeys(env: Env, e: TypeId, entries: seq<Entry>)
    requires DistinctKeys(entries)
    ensures Distinct(LowerEntries(env, e, entries))
    ensures forall m | m in LowerEntries(env, e, entries) :: HasKey(entries, m.key)
    decreases |entries|
  {
    hide Lower;
    if entries != [] {
      EntryKeys(env, e, entries[1..]);
      DistinctCons(AsMember(entries[0].key, Lower(env, e, entries[0].val)), LowerEntries(env, e, entries[1..]));
    }
  }

  // However map keys are yielded: same length, same decoded value.
  lemma MapOrderIrrelevant(env: Env, t: TypeId, v: Value, w: Value, k: bytes)
    requires AllResolved(env) && Reordered(env, t, v, w) && Lower(env, t, v).Some?
    ensures Lower(env, t, w).Some?
    ensures |Enc(k, Lower(env, t, v).value)| == |Enc(k, Lower(env, t, w).value)|
    ensures Norm(Lower(env, t, v).value) == Norm(Lower(env, t, w).value)
  {
    hide Lower, Enc, Norm, Shuffled, Reordered, AllResolved;
    ReorderedShuffles(env, t, v, w);
    OrderIndependent(k, Lower(env, t, v).value, Lower(env, t, w).value);
  }

  // ---- Decoding into targets ------------------------------------------------------------------

  lemma {:induction false} ShuffledAlike(a: Item, b: Item)
    requires Shuffled(a, b)
    ensures Complete(a) == Complete(b) && Named(a) == Named(b)
    decreases a, 1
  {
    hide ShuffledMembers, ShuffledElems, AllComplete, AllNamed;
    match (a, b)
    case (Leaf(_), Leaf(_)) =>
    case (Object(_, ms), Object(_, ms')) => MembersAlike(ms, ms');
    case (Array(_, ms), Array(_, ms')) => ElemsAlike(ms, ms');
  }

  lemma {:induction false} GoodWithout(ms: seq<Member>, i: nat, keyed: bool)
    requires i < |ms|
    ensures AllComplete(ms) == (Complete(ms[i].item) && AllComplete(Without(ms, i)))
    ensures AllNamed(ms, keyed) ==
            ((keyed ==> ms[i].key != []) && Named(ms[i].item) && AllNamed(Without(ms, i), keyed))
    decreases i
  {
    hide Complete, Named;
    if i == 0 {
      assert Without(ms, 0) == ms[1..];
    } else {
      GoodWithout(ms[1..], i - 1, keyed);
      var w := Without(ms, i);
      assert w[0] == ms[0] && w[1..] == Without(ms[1..], i - 1);
    }
  }

  lemma {:induction false} MembersAlike(ms: seq<Member>, ms': seq<Member>)
    requires ShuffledMembers(ms, ms')
    ensures |ms| == |ms'| && AllComplete(ms) == AllComplete(ms') && AllNamed(ms, true) == AllNamed(ms', true)
    decreases ms, 2
  {
    hide Shuffled, Complete, Named;
    if ms != [] {
      var i :| 0 <= i < |ms'| && ms[0].key == ms'[i].key && Shuffled(ms[0].item, ms'[i].item)
               && ShuffledMembers(ms[1..], Without(ms', i));
      ShuffledAlike(ms[0].item, ms'[i].item);
      MembersAlike(ms[1..], Without(ms', i));
      GoodWithout(ms', i, true);
    }
  }

  lemma {:induction false} ElemsAlike(ms: seq<Member>, ms': seq<Member>)
    requires ShuffledElems(ms, ms')
    ensures |ms| == |ms'| && AllComplete(ms) == AllComplete(ms') && AllNamed(ms, false) == AllNamed(ms', false)
    decreases ms, 2
  {
    hide Shuffled, Complete, Named;
    if ms != [] {
      ShuffledAlike(ms[0].item, ms'[0].item);
      ElemsAlike(ms[1..], ms'[1..]);
    }
  }

  // Targets take back both values or neither.
  lemma {:induction false} ReorderedAccepts(env: Env, t: TypeId, v: Value, w: Value)
    requires Reordered(env, t, v, w)
    ensures Accepts(env, t, v) == Accepts(env, t, w)
    decreases v, 1, 0
  {
    hide AcceptsFields, AcceptsEntries, AcceptsElems, ReorderedFields, ReorderedEntries, ReorderedElems, DistinctKeys;
    match KindOf(env, t)
    case KInterface => if v.VIface? && w.VIface? { ReorderedGives(env, v.dyn, v.val, w.val); }
    case KStruct(_) => FieldsAccepted(env, t, v, w, FieldsOf(env, t));
    case KMap(_, e) => if v.VMap? { EntriesAccepted(env, e, v.entries, w.entries); }
    case KSlice(e) => if v.VSlice? && w.VSlice? && !IsByte(env, e) { ElemsAccepted(env, e, v.es, w.es); }
    case KArray(_, e) => ElemsAccepted(env, e, v.es, w.es);
    case KPtr(e) => if v.VPtr? { ReorderedAccepts(env, e, v.p, w.p); }
    case _ =>
  }

  lemma {:induction false} ReorderedGives(env: Env, t: TypeId, v: Value, w: Value)
    requires Reordered(env, t, v, w)
    ensures GivesObject(env, t, v) == GivesObject(env, t, w)
    decreases v
  {
    hide ReorderedFields, ReorderedEntries, ReorderedElems, DistinctKeys;
    match KindOf(env, t)
    case KInterface => if v.VIface? && w.VIface? { ReorderedGives(env, v.dyn, v.val, w.val); }
    case KPtr(e) => if v.VPtr? { ReorderedGives(env, e, v.p, w.p); }
    case _ =>
  }

  lemma {:induction false} FieldsAccepted(env: Env, t: TypeId, v: Value, w: Value, fs: seq<Field>)
    requires ReorderedFields(env, t, v, w, fs)
    ensures AcceptsFields(env, t, v, fs) == AcceptsFields(env, t, w, fs)
    decreases v, 0, |fs|
  {
    hide Accepts, Reordered, PathPlain;
    if fs != [] {
      var x, y := FieldAt(v, fs[0].index), FieldAt(w, fs[0].index);
      if x.Some? {
        ReorderedAccepts(env, TypeAt(env, t, fs[0].index), x.value, y.value);
      }
      FieldsAccepted(env, t, v, w, fs[1..]);
    }
  }

  lemma {:induction false} AcceptsWithout(env: Env, e: TypeId, entries: seq<Entry>, i: nat)
    requires i < |entries|
    ensures AcceptsEntries(env, e, entries) ==
            (Accepts(env, e, entries[i].val) && AcceptsEntries(env, e, Without(entries, i)))
    ensures EntriesInDomain(env, e, entries) ==
            (InDomain(env, e, entries[i].val) && EntriesInDomain(env, e, Without(entries, i)))
    decreases i
  {
    hide Accepts, InDomain;
    if i == 0 {
      assert Without(entries, 0) == entries[1..];
    } else {
      AcceptsWithout(env, e, entries[1..], i - 1);
      var w := Without(entries, i);
      assert w[0] == entries[0] && w[1..] == Without(entries[1..], i - 1);
    }
  }

  lemma {:induction false} EntriesAccepted(env: Env, e: TypeId, a: seq<Entry>, b: seq<Entry>)
    requires ReorderedEntries(env, e, a, b)
    ensures AcceptsEntries(env, e, a) == AcceptsEntries(env, e, b)
    decreases a, 0, 0
  {
    hide Accepts, Reordered;
    if a != [] {
      var i :| 0 <= i < |b| && SameEntry(env, e, a, b, i) && ReorderedEntries(env, e, a[1..], Without(b, i));
      ReorderedAccepts(env, e, a[0].val, b[i].val);
      EntriesAccepted(env, e, a[1..], Without(b, i));
      AcceptsWithout(env, e, b, i);
    }
  }

  lemma {:induction false} ElemsAccepted(env: Env, e: TypeId, a: seq<Value>, b: seq<Value>)
    requires ReorderedElems(env, e, a, b)
    ensures AcceptsElems(env, e, a) == AcceptsElems(env, e, b)
    decreases a, 0, 0
  {
    hide Accepts, Reordered;
    if a != [] {
      ReorderedAccepts(env, e, a[0], b[0]);
      ElemsAccepted(env, e, a[1..], b[1..]);
    }
  }

  // ---- Normal forms ---------------------------------------------------------------------------

  lemma {:induction false} NormReordered(env: Env, t: TypeId, v: Value, w: Value)
    requires Ranked(env) && AllResolved(env) && Reordered(env, t, v, w)
    requires InDomain(env, t, v) && InDomain(env, t, w) && Accepts(env, t, v)
    ensures Reordered(env, t, NormV(env, t, v), NormV(env, t, w))
    decreases v, 1, 0
  {
    hide NormFields, NormEntries, NormElems, LowerFields, LowerEntries, LowerElems, ReorderedFields, ReorderedEntries,
         ReorderedElems, AcceptsFields, AcceptsEntries, AcceptsElems, FieldsInDomain, EntriesInDomain, ElemsInDomain,
         AllResolved, DistinctKeys, Shuffled, Norm;
    ReorderedShuffles(env, t, v, w);
    match KindOf(env, t)
    case KInterface => InterfaceReordered(env, t, v, w);
    case KStruct(_) =>
      ReorderedAccepts(env, t, v, w);
      StructsStay(env, t, v);
      StructsStay(env, t, w);
      NormFieldsReordered(env, t, v, w, 0);
    case KMap(_, e) =>
      if v.VMap? {
        NormMapReordered(env, e, v.entries, w.entries);
      } else {
        NothingReordered(env, e);
      }
    case KSlice(e) =>
      if v.VSlice? && w.VSlice? && !IsByte(env, e) {
        NormElemsReordered(env, e, v.es, w.es);
      } else {
        NothingReordered(env, e);
      }
    case KArray(_, e) => NormElemsReordered(env, e, v.es, w.es);
    case KPtr(e) =>
      if v.VPtr? {
        ReorderedShuffles(env, e, v.p, w.p);
        NullAlike(Lower(env, e, v.p), Lower(env, e, w.p));
        NormReordered(env, e, v.p, w.p);
      }
    case _ =>
  }

  lemma NullAlike(a: Option<Item>, b: Option<Item>)
    requires ShuffledOptions(a, b)
    ensures a == Some(Leaf(Null)) <==> b == Some(Leaf(Null))
  {
  }

  lemma NothingReordered(env: Env, e: TypeId)
    ensures ReorderedEntries(env, e, [], []) && ReorderedElems(env, e, [], []) && DistinctKeys([])
  {
  }

  lemma InterfaceReordered(env: Env, t: TypeId, v: Value, w: Value)
    requires Ranked(env) && KindOf(env, t).KInterface? && ShuffledOptions(Lower(env, t, v), Lower(env, t, w))
    ensures NormV(env, t, v) == NormV(env, t, w) && !NormV(env, t, v).VIface?
  {
    hide Lower, Norm;
    var a, b := Lower(env, t, v), Lower(env, t, w);
    if a.Some? {
      OrderIndependent([], a.value, b.value);
    }
  }

  lemma {:induction false} StructsStay(env: Env, t: TypeId, v: Value)
    requires Ranked(env) && KindOf(env, t).KStruct?
    ensures NormV(env, t, v).VStruct?
  {
    SetsInside(env, t, v, FieldsOf(env, t), Zero(env, t));
  }

  lemma {:induction false} SetsInside(env: Env, t: TypeId, v: Value, fs: seq<Field>, acc: Value)
    requires Ranked(env) && acc.VStruct?
    ensures NormFields(env, t, v, fs, acc).VStruct?
    decreases |fs|
  {
    hide NormV, Zero;
    if fs != [] {
      match FieldAt(v, fs[0].index)
      case None => SetsInside(env, t, v, fs[1..], acc);
      case Some(fv) =>
        SetsInside(env, t, v, fs[1..], SetAt(acc, fs[0].index, NormV(env, TypeAt(env, t, fs[0].index), fv)));
    }
  }

  lemma {:induction false} NormFieldsReordered(env: Env, t: TypeId, v: Value, w: Value, i: nat)
    requires Ranked(env) && AllResolved(env) && KindOf(env, t).KStruct? && i <= |FieldsOf(env, t)|
    requires InDomain(env, t, v) && InDomain(env, t, w) && Accepts(env, t, v) && Accepts(env, t, w)
    requires ReorderedFields(env, t, v, w, FieldsOf(env, t)[i..])
    ensures ReorderedFields(env, t, NormV(env, t, v), NormV(env, t, w), FieldsOf(env, t)[i..])
    decreases v, 0, |FieldsOf(env, t)| - i
  {
    hide NormV, InDomain, Accepts, Reordered, AllResolved, FieldAt, Zero;
    var all := FieldsOf(env, t);
    if i < |all| {
      var p := all[i].index;
      assert all[i..][0] == all[i] && all[i..][1..] == all[i + 1..];
      StructNorm(env, t, v);
      StructNorm(env, t, w);
      FieldAccepted(env, t, v, all, i);
      PathInDomain(env, t, v, p);
      PathInDomain(env, t, w, p);
      NormReordered(env, TypeAt(env, t, p), FieldAt(v, p).value, FieldAt(w, p).value);
      NormFieldsReordered(env, t, v, w, i + 1);
    }
  }

  lemma FieldAccepted(env: Env, t: TypeId, v: Value, fs: seq<Field>, i: nat)
    requires KindOf(env, t).KStruct? && Accepts(env, t, v) && fs == FieldsOf(env, t) && i < |fs|
    ensures FieldAt(v, fs[i].index).Some? ==>
              Accepts(env, TypeAt(env, t, fs[i].index), FieldAt(v, fs[i].index).value)
  {
    EachFieldAccepted(env, t, v, fs, i);
  }

  lemma {:induction false} EachFieldAccepted(env: Env, t: TypeId, v: Value, fs: seq<Field>, i: nat)
    requires AcceptsFields(env, t, v, fs) && i < |fs|
    ensures FieldAt(v, fs[i].index).Some? ==>
              Accepts(env, TypeAt(env, t, fs[i].index), FieldAt(v, fs[i].index).value)
    decreases i
  {
    hide Accepts, PathPlain, FieldAt;
    if i > 0 {
      EachFieldAccepted(env, t, v, fs[1..], i - 1);
    }
  }

  lemma {:induction false} NormElemsReordered(env: Env, e: TypeId, a: seq<Value>, b: seq<Value>)
    requires Ranked(env) && AllResolved(env) && ReorderedElems(env, e, a, b)
    requires ElemsInDomain(env, e, a) && ElemsInDomain(env, e, b) && AcceptsElems(env, e, a)
    ensures ReorderedElems(env, e, NormElems(env, e, a), NormElems(env, e, b))
    decreases a, 0, 0
  {
    hide NormV, InDomain, Accepts, Reordered, AllResolved;
    if a != [] {
      NormReordered(env, e, a[0], b[0]);
      NormElemsReordered(env, e, a[1..], b[1..]);
      assert NormElems(env, e, a)[1..] == NormElems(env, e, a[1..]);
      assert NormElems(env, e, b)[1..] == NormElems(env, e, b[1..]);
    }
  }

  lemma NormMapReordered(env: Env, e: TypeId, a: seq<Entry>, b: seq<Entry>)
    requires Ranked(env) && AllResolved(env) && DistinctKeys(a) && DistinctKeys(b)
    requires |a| == |b| && ReorderedEntries(env, e, a, b)
    requires EntriesInDomain(env, e, a) && EntriesInDomain(env, e, b) && AcceptsEntries(env, e, a)
    ensures var a', b' := NormEntries(env, e, a, []), NormEntries(env, e, b, []);
            && DistinctKeys(a') && DistinctKeys(b') && |a'| == |b'|
            && ReorderedEntries(env, e, a', b')
    decreases a, 0, 1
  {
    hide NormV, NormEntries, EachNormal, EntriesInDomain, AcceptsEntries, ReorderedEntries, AllResolved;
    assert [] + a == a && [] + b == b;
    MapNorm(env, e, [], a);
    MapNorm(env, e, [], b);
    assert [] + EachNormal(env, e, a) == EachNormal(env, e, a) && [] + EachNormal(env, e, b) == EachNormal(env, e, b);
    KeysStay(env, e, a);
    KeysStay(env, e, b);
    NormEntriesReordered(env, e, a, b);
  }

  lemma {:induction false} KeysStay(env: Env, e: TypeId, entries: seq<Entry>)
    requires Ranked(env)
    ensures |EachNormal(env, e, entries)| == |entries|
    ensures DistinctKeys(EachNormal(env, e, entries)) == DistinctKeys(entries)
    ensures forall k :: HasKey(EachNormal(env, e, entries), k) == HasKey(entries, k)
    ensures forall i | 0 <= i < |entries| ::
              EachNormal(env, e, entries)[i] == Entry(entries[i].key, NormV(env, e, entries[i].val))
    decreases |entries|
  {
    hide NormV;
    if entries != [] {
      KeysStay(env, e, entries[1..]);
      assert EachNormal(env, e, entries)[1..] == EachNormal(env, e, entries[1..]);
    }
  }

  lemma NormWithout(env: Env, e: TypeId, entries: seq<Entry>, i: nat)
    requires Ranked(env) && i < |entries|
    ensures |EachNormal(env, e, entries)| == |entries|
    ensures Without(EachNormal(env, e, entries), i) == EachNormal(env, e, Without(entries, i))
  {
    hide NormV, DistinctKeys, HasKey, EachNormal;
    KeysStay(env, e, entries);
    KeysStay(env, e, Without(entries, i));
  }

  lemma {:induction false} NormEntriesReordered(env: Env, e: TypeId, a: seq<Entry>, b: seq<Entry>)
    requires Ranked(env) && AllResolved(env) && ReorderedEntries(env, e, a, b)
    requires EntriesInDomain(env, e, a) && EntriesInDomain(env, e, b) && AcceptsEntries(env, e, a)
    ensures ReorderedEntries(env, e, EachNormal(env, e, a), EachNormal(env, e, b))
    decreases a, 0, 0
  {
    hide NormV, InDomain, Accepts, Reordered, AllResolved, DistinctKeys, HasKey;
    if a != [] {
      var i :| 0 <= i < |b| && SameEntry(env, e, a, b, i) && ReorderedEntries(env, e, a[1..], Without(b, i));
      AcceptsWithout(env, e, b, i);
      NormReordered(env, e, a[0].val, b[i].val);
      NormEntriesReordered(env, e, a[1..], Without(b, i));
      NormWithout(env, e, b, i);
      KeysStay(env, e, b);
      var a', b' := EachNormal(env, e, a), EachNormal(env, e, b);
      assert a'[1..] == EachNormal(env, e, a[1..]);
      assert SameEntry(env, e, a', b', i) && ReorderedEntries(env, e, a'[1..], Without(b', i));
    }
  }

  // However map keys are yielded: typed decoding succeeds for both orders or for neither, and the
  // values it gives differ in the order of map entries only.
  lemma MapOrderTyped(env: Env, t: TypeId, v: Value, w: Value, k: bytes)
    requires Ranked(env) && AllResolved(env) && Reordered(env, t, v, w)
    requires InDomain(env, t, v) && InDomain(env, t, w) && Lower(env, t, v).Some?
    requires Fits(k, Lower(env, t, v).value) && (Lower(env, t, w).Some? ==> Fits(k, Lower(env, t, w).value))
    ensures Lower(env, t, w).Some?
    ensures var x := TypedAt(env, t, Zero(env, t), Enc(k, Lower(env, t, v).value), 0);
            var y := TypedAt(env, t, Zero(env, t), Enc(k, Lower(env, t, w).value), 0);
            && x.Got? == y.Got?
            && (x.Got? ==> x.off == y.off && Reordered(env, t, x.value, y.value))
  {
    hide Lower, Enc, Norm, Shuffled, Reordered, AllResolved, TypedAt, Zero, NormV, InDomain, Accepts, Complete, Named,
         Fits;
    MapOrderIrrelevant(env, t, v, w, k);
    ReorderedShuffles(env, t, v, w);
    ShuffledAlike(Lower(env, t, v).value, Lower(env, t, w).value);
    ReorderedAccepts(env, t, v, w);
    TypedDecodesIff(env, t, v, k);
    TypedDecodesIff(env, t, w, k);
    if Accepts(env, t, v) {
      NormReordered(env, t, v, w);
    }
  }
}
