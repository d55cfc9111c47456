// What a target of each kind makes of each item, whatever type the item was encoded from
// (mcpack/decode.go).
module Storing {
  import opened Bytes
  import opened Wire
  import opened Decode
  import opened Values
  import opened Typed
  import opened TypedTrip
  import opened Domain
  import opened Restoring
  import opened Meaning

  // ---- Numbers, strings and bytes -----------------------------------------------------------------

  // The range and the size of Go's integer types.
  predicate InRange(w: Width, n: int) {
    match w
    case W8 => -0x80 <= n < 0x80
    case W16 => -0x8000 <= n < 0x8000
    case W32 => -0x8000_0000 <= n < 0x8000_0000
    case W64 => -0x8000_0000_0000_0000 <= n < 0x8000_0000_0000_0000
  }

  function Size(w: Width): nat {
    match w
    case W8 => 0x100
    case W16 => 0x1_0000
    case W32 => 0x1_0000_0000
    case W64 => 0x1_0000_0000_0000_0000
  }

  lemma WrapsAround(w: Width, n: int)
    ensures InRange(w, w.WrapSigned(n)) && w.WrapSigned(n) % Size(w) == n % Size(w)
    ensures w.Wrap(n) == n % Size(w)
    ensures w.Signed(n) == InRange(w, n) && w.Unsigned(n) == (0 <= n < Size(w))
  {
    var m, u := Size(w), n % Size(w);
    Congruent(n, m);
  }

  lemma Congruent(n: int, m: nat)
    requires m > 0
    ensures (n % m) % m == n % m && (n % m - m) % m == n % m
  {
    ModInRange(n % m, m);
    ModInRange(n % m - m, m);
  }

  // The well-typed integers are those in range.
  lemma RangesAre(env: Env, t: TypeId, v: Value)
    ensures KindOf(env, t).KInt? ==> (InDomain(env, t, v) <==> v.VInt? && InRange(KindOf(env, t).w, v.n))
    ensures KindOf(env, t).KUint? ==> (InDomain(env, t, v) <==> v.VUint? && v.u < Size(KindOf(env, t).w))
  {
  }

  // What storing the scalar gives, if it can be stored: numbers wrap around to the width of the target,
  // and null sets the target to zero. No other conversion is made, except between the two widths of
  // floats.
  ghost predicate Stores(env: Env, t: TypeId, s: Scalar, v: Value)
    requires Ranked(env)
  {
    match s
    case Null => v == Zero(env, t)
    case Bool(b) => KindOf(env, t).KBool? && v == VBool(b)
    case Int32(i) => StoresInt(KindOf(env, t), i, v)
    case Int64(i) => StoresInt(KindOf(env, t), i, v)
    case Uint32(u) => KindOf(env, t).KUint? && v == VUint(u % Size(KindOf(env, t).w))
    case Uint64(u) => KindOf(env, t).KUint? && v == VUint(u % Size(KindOf(env, t).w))
    case Float32(bits) =>
      (KindOf(env, t).KFloat32? && v == VFloat32(bits)) || (KindOf(env, t).KFloat64? && v == VConverted(s))
    case Float64(bits) =>
      (KindOf(env, t).KFloat64? && v == VFloat64(bits)) || (KindOf(env, t).KFloat32? && v == VConverted(s))
    case Str(x) => KindOf(env, t).KString? && v == VString(x)
    case Bin(d) => KindOf(env, t).KSlice? && IsByte(env, KindOf(env, t).elem) && v.VSlice? && AreBytes(v.es, d)
  }

  predicate StoresInt(k: Kind, i: int, v: Value) {
    k.KInt? && v.VInt? && InRange(k.w, v.n) && v.n % Size(k.w) == i % Size(k.w)
  }

  lemma ScalarStores(env: Env, t: TypeId, cur: Value, data: bytes, off: nat, k: bytes, s: Scalar)
    requires Ranked(env) && !KindOf(env, t).KPtr? && Fits(k, Leaf(s)) && At(data, off, Enc(k, Leaf(s)))
    ensures var r := TypedAt(env, t, cur, data, off);
            if exists v :: Stores(env, t, s, v)
            then r.Got? && Stores(env, t, s, r.value) && r.off == off + |Enc(k, Leaf(s))|
            else r.Failed?
  {
    hide TypedAt, Enc, At, SizesFit, Stores, Assign;
    TypedAgrees(env, t, cur, data, off, k, Leaf(s));
    LeafInto(env, t, cur, s);
    AssignStores(env, t, s);
  }

  lemma LeafInto(env: Env, t: TypeId, cur: Value, s: Scalar)
    requires Ranked(env) && !KindOf(env, t).KPtr?
    ensures Into(env, t, cur, Leaf(s)) == Assign(env, t, s)
  {
    hide Assign;
  }

  lemma AssignStores(env: Env, t: TypeId, s: Scalar)
    requires Ranked(env)
    ensures match Assign(env, t, s)
            case Some(v) => Stores(env, t, s, v)
            case None => forall v :: !Stores(env, t, s, v)
  {
    var kind := KindOf(env, t);
    if kind.KInt? && (s.Int32? || s.Int64?) { WrapsAround(kind.w, s.i); }
    if kind.KUint? && (s.Uint32? || s.Uint64?) { WrapsAround(kind.w, s.u); }
  }

  // ---- Pointers -------------------------------------------------------------------------------------

  // What a pointer points to is decoded in place; a nil pointer stays nil on null, and points to a new
  // variable otherwise.
  lemma PointerStores(env: Env, t: TypeId, x: Value, data: bytes, off: nat)
    requires Ranked(env) && KindOf(env, t).KPtr? && off + 1 < |data|
    ensures var e := KindOf(env, t).elem;
            var r, p := TypedAt(env, e, x, data, off), TypedAt(env, t, VPtr(x), data, off);
            if r.Got? then p == Got(VPtr(r.value), r.off) else p.Failed?
    ensures var e := KindOf(env, t).elem;
            var r, p := TypedAt(env, e, Zero(env, e), data, off), TypedAt(env, t, VNil, data, off);
            if data[off] == 0x61 then p == Got(VNil, off + 3 + data[off + 1])
            else if r.Got? then p == Got(VPtr(r.value), r.off) else p.Failed?
  {
    hide Zero, Count, StructAt, ElemsAt, EntriesAt, AnyAt, Ranked;
    PtrRank(env, t);
  }

  // ---- Zero values ------------------------------------------------------------------------------------

  lemma ZeroIs(env: Env, t: TypeId)
    requires Ranked(env)
    ensures match KindOf(env, t)
            case KBool => Zero(env, t) == VBool(false)
            case KInt(_) => Zero(env, t) == VInt(0)
            case KUint(_) => Zero(env, t) == VUint(0)
            case KFloat32 => Zero(env, t) == VFloat32(0)
            case KFloat64 => Zero(env, t) == VFloat64(0)
            case KString => Zero(env, t) == VString([])
            case KChan => Zero(env, t) == VChan(0)
            case KOther => Zero(env, t) == VOther
            case KStruct(decls) =>
              && Zero(env, t).VStruct? && |Zero(env, t).fs| == |decls|
              && forall i | 0 <= i < |decls| :: Zero(env, t).fs[i] == Zero(env, decls[i].typ)
            case KArray(n, e) =>
              && Zero(env, t).VArray? && |Zero(env, t).es| == n
              && forall i | 0 <= i < n :: Zero(env, t).es[i] == Zero(env, e)
            case _ => Zero(env, t) == VNil
  {
    match KindOf(env, t)
    case KStruct(decls) =>
      forall i | 0 <= i < |decls| ensures Zero(env, t).fs[i] == Zero(env, decls[i].typ) {
        if IsNilable(env, decls[i].typ) { NilZero(env, decls[i].typ); }
      }
    case KArray(n, e) => if IsNilable(env, e) { NilZero(env, e); }
    case _ =>
  }

  // ---- Slices, maps and what takes neither arrays nor objects ----------------------------------------------

  // The i-th of n elements before it is decoded.
  function Before(env: Env, e: TypeId, cur: Value, n: nat, i: nat): Value
    requires Ranked(env) && i < n
  {
    if n <= |Elems(cur)| then Elems(cur)[i] else Zero(env, e)
  }

  // The elements decoded are all there is afterwards. As long as the slice is long enough, they are
  // decoded into its own elements, else into new ones.
  lemma SliceStores(env: Env, t: TypeId, cur: Value, ms: seq<Member>)
    requires Ranked(env) && KindOf(env, t).KSlice?
    ensures var e, r := KindOf(env, t).elem, Into(env, t, cur, Array(|ms|, ms));
            if exists i | 0 <= i < |ms| :: Into(env, e, Before(env, e, cur, |ms|, i), ms[i].item).None? then r.None?
            else
              && r.Some? && r.value.VSlice? && |r.value.es| == |ms|
              && forall i | 0 <= i < |ms| ::
                   Into(env, e, Before(env, e, cur, |ms|, i), ms[i].item) == Some(r.value.es[i])
  {
    hide Into, IntoElems, Zero, SliceTarget, Before, Ranked;
    var e := KindOf(env, t).elem;
    TargetIs(env, e, cur, |ms|);
    IntoSlice(env, t, cur, ms);
    ElemsAllStored(env, e, SliceTarget(env, e, cur, |ms|), ms);
  }

  lemma IntoSlice(env: Env, t: TypeId, cur: Value, ms: seq<Member>)
    requires Ranked(env) && KindOf(env, t).KSlice?
    ensures var e := KindOf(env, t).elem;
            var r := IntoElems(env, e, SliceTarget(env, e, cur, |ms|), 0, ms);
            Into(env, t, cur, Array(|ms|, ms)) == if r.None? then None else Some(VSlice(r.value))
  {
    hide IntoElems, SliceTarget, Ranked;
  }

  // A place for every element.
  lemma ElemsAllStored(env: Env, e: TypeId, es: seq<Value>, ms: seq<Member>)
    requires Ranked(env) && |es| == |ms|
    ensures var r := IntoElems(env, e, es, 0, ms);
            if exists i | 0 <= i < |ms| :: Into(env, e, es[i], ms[i].item).None? then r.None?
            else r.Some? && |r.value| == |ms|
                 && forall i | 0 <= i < |ms| :: Into(env, e, es[i], ms[i].item) == Some(r.value[i])
  {
    hide Into, IntoElems, Ranked;
    ElemsTruncate(env, e, es, 0, ms);
    if i :| 0 <= i < |ms| && Into(env, e, es[i], ms[i].item).None? {
      assert !CanStore(env, e, es, 0, ms, i);
    } else {
      assert forall i: nat :: CanStore(env, e, es, 0, ms, i);
    }
  }

  lemma TargetIs(env: Env, e: TypeId, cur: Value, n: nat)
    requires Ranked(env)
    ensures |SliceTarget(env, e, cur, n)| == n
    ensures forall i | 0 <= i < n :: SliceTarget(env, e, cur, n)[i] == Before(env, e, cur, n, i)
  {
  }

  // What each key of a map holds after an object is decoded into it: what the last member with that key
  // gives in a new variable, else what it held.
  ghost predicate MapStored(env: Env, e: TypeId, ms: seq<Member>, a: seq<Entry>, b: seq<Entry>)
    requires Ranked(env)
  {
    && DistinctKeys(b)
    && (forall k :: HasKey(b, k) <==> HasKey(a, k) || HasMember(ms, k))
    && (forall i, j | 0 <= i < |ms| && 0 <= j < |b| && LastMember(ms, i) && ms[i].key == b[j].key ::
          Into(env, e, Zero(env, e), ms[i].item) == Some(b[j].val))
    && (forall j | 0 <= j < |b| && !HasMember(ms, b[j].key) :: b[j] in a)
  }

  predicate HasMember(ms: seq<Member>, k: bytes) {
    exists i | 0 <= i < |ms| :: ms[i].key == k
  }

  predicate LastMember(ms: seq<Member>, i: nat) {
    i < |ms| && forall j | i < j < |ms| :: ms[j].key != ms[i].key
  }

  lemma {:induction false} EntriesStore(env: Env, e: TypeId, a: seq<Entry>, ms: seq<Member>)
    requires Ranked(env) && DistinctKeys(a)
    ensures var r := IntoEntries(env, e, a, ms);
            if exists i | 0 <= i < |ms| :: Into(env, e, Zero(env, e), ms[i].item).None? then r.None?
            else r.Some? && MapStored(env, e, ms, a, r.value)
    decreases ms
  {
    hide Into, Zero, PutEntry, DistinctKeys, HasKey, Ranked;
    if ms != [] {
      var x, rest := ms[0], ms[1..];
      var v := Into(env, e, Zero(env, e), x.item);
      if v.Some? {
        var a' := PutEntry(a, x.key, v.value);
        PutKeeps(a, x.key, v.value);
        EntriesStore(env, e, a', rest);
        assert forall i | 0 < i < |ms| :: ms[i] == rest[i - 1];
        assert forall i | 0 <= i < |rest| :: rest[i] == ms[i + 1];
        var r := IntoEntries(env, e, a, ms);
        if r.Some? {
          MemberStored(env, e, a, a', ms, v.value, r.value);
        }
      }
    }
  }

  lemma MemberStored(env: Env, e: TypeId, a: seq<Entry>, a': seq<Entry>, ms: seq<Member>, v: Value, b: seq<Entry>)
    requires Ranked(env) && ms != [] && Into(env, e, Zero(env, e), ms[0].item) == Some(v)
    requires forall k :: HasKey(a', k) <==> HasKey(a, k) || k == ms[0].key
    requires forall j | 0 <= j < |a'| && a'[j].key == ms[0].key :: a'[j].val == v
    requires forall j | 0 <= j < |a'| && a'[j].key != ms[0].key :: a'[j] in a
    requires MapStored(env, e, ms[1..], a', b)
    ensures MapStored(env, e, ms, a, b)
  {
    hide Into, Zero, DistinctKeys, HasKey, Ranked;
    var x, rest := ms[0], ms[1..];
    forall k ensures HasMember(ms, k) <==> k == x.key || HasMember(rest, k) {
      if i :| 0 <= i < |rest| && rest[i].key == k { assert ms[i + 1].key == k; }
      if i :| 0 <= i < |ms| && ms[i].key == k { assert i == 0 || rest[i - 1].key == k; }
    }
    forall i, j | 0 <= i < |ms| && 0 <= j < |b| && LastMember(ms, i) && ms[i].key == b[j].key
      ensures Into(env, e, Zero(env, e), ms[i].item) == Some(b[j].val)
    {
      if i > 0 {
        assert rest[i - 1] == ms[i] && LastMember(rest, i - 1);
      } else {
        assert forall n | 0 <= n < |rest| :: rest[n] == ms[n + 1];
        assert !HasMember(rest, x.key);
        assert b[j] in a';
      }
    }
  }

  // Into a map with string keys.
  lemma MapStores(env: Env, t: TypeId, cur: Value, ms: seq<Member>)
    requires Ranked(env) && KindOf(env, t).KMap? && KindOf(env, t).stringKey && DistinctKeys(Entries(cur))
    ensures var e, r := KindOf(env, t).elem, Into(env, t, cur, Object(|ms|, ms));
            if exists i | 0 <= i < |ms| :: Into(env, e, Zero(env, e), ms[i].item).None? then r.None?
            else r.Some? && r.value.VMap? && MapStored(env, e, ms, Entries(cur), r.value.entries)
  {
    hide Zero, DistinctKeys, HasKey, IntoEntries, MapStored;
    EntriesStore(env, KindOf(env, t).elem, Entries(cur), ms);
    IntoMap(env, t, cur, ms);
  }

  lemma IntoMap(env: Env, t: TypeId, cur: Value, ms: seq<Member>)
    requires Ranked(env) && KindOf(env, t).KMap? && KindOf(env, t).stringKey
    ensures var r := IntoEntries(env, KindOf(env, t).elem, Entries(cur), ms);
            Into(env, t, cur, Object(|ms|, ms)) == if r.None? then None else Some(VMap(r.value))
  {
    hide IntoEntries;
  }

  // Kinds without members take objects without members only, and are left as they are; so do maps with
  // other keys than strings, which are then empty or keep their entries.
  lemma ObjectElsewhere(env: Env, t: TypeId, cur: Value, ms: seq<Member>)
    requires Ranked(env)
    requires var k := KindOf(env, t); !k.KPtr? && !k.KInterface? && !k.KStruct? && (k.KMap? ==> !k.stringKey)
    ensures Into(env, t, cur, Object(|ms|, ms)) ==
            if ms != [] then None else Some(if KindOf(env, t).KMap? then VMap(Entries(cur)) else cur)
  {
    assert IntoEntries(env, t, Entries(cur), []) == Some(Entries(cur));
    if KindOf(env, t).KMap? && ms == [] {
      assert IntoEntries(env, KindOf(env, t).elem, Entries(cur), []) == Some(Entries(cur));
    }
  }

  lemma {:induction false} SetsNothingIs(ms: seq<Member>, n: nat)
    ensures SetsNothing(ms, n) <==>
            forall i | 0 <= i < |ms| && i < n :: ms[i].item.Object? && ms[i].item.members == []
    decreases ms
  {
    if ms != [] && n > 0 {
      SetsNothingIs(ms[1..], n - 1);
      assert forall i | 0 < i < |ms| :: ms[i] == ms[1..][i - 1];
      if forall i | 0 <= i < |ms| && i < n :: ms[i].item.Object? && ms[i].item.members == [] {
        assert forall i | 0 <= i < |ms[1..]| :: ms[1..][i] == ms[i + 1];
      }
    }
  }

  // An array is taken, without effect, by a string if its first elements, one for each byte, are empty
  // objects; by a map or a channel if it or they are empty; and by nothing else but slices and arrays.
  lemma ArrayElsewhere(env: Env, t: TypeId, cur: Value, ms: seq<Member>)
    requires Ranked(env) && !KindOf(env, t).KPtr? && !KindOf(env, t).KSlice? && !KindOf(env, t).KArray?
    ensures var takes := match KindOf(env, t)
              case KString =>
                var n := if cur.VString? then |cur.s| else 0;
                forall i | 0 <= i < |ms| && i < n :: ms[i].item.Object? && ms[i].item.members == []
              case KMap(_, _) => ms == [] || !cur.VMap? || cur.entries == []
              case KChan => ms == [] || !cur.VChan? || cur.queued == 0
              case _ => false;
            Into(env, t, cur, Array(|ms|, ms)) == if takes then Some(cur) else None
  {
    if KindOf(env, t).KString? {
      SetsNothingIs(ms, StringLen(cur));
    }
  }
}
