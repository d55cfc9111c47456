// What decoding into a target of a known type computes (mcpack/decode.go), on bytes and on
// wire trees, and that the two agree on everything the encoder writes.
module Typed {
  import opened Bytes
  import opened Wire
  import opened Decode
  import opened Generic
  import opened Values
  import opened Fold

  // ---- Parts --------------------------------------------------------------------

  function FindExact(fs: seq<Field>, key: bytes): Option<Field> {
    if fs == [] then None else if fs[0].name == key then Some(fs[0]) else FindExact(fs[1..], key)
  }

  function FindFold(env: Env, fs: seq<Field>, key: bytes): Option<Field> {
    if fs == [] then None
    else if EqualFold(env.fold, fs[0].name, key) then Some(fs[0])
    else FindFold(env, fs[1..], key)
  }

  // The field a key goes to: the one with exactly that name, else the first that matches it
  // up to case.
  function Find(env: Env, fs: seq<Field>, key: bytes): Option<Field> {
    if FindExact(fs, key).Some? then FindExact(fs, key) else FindFold(env, fs, key)
  }

  // Storing a scalar into a target of type t; None is reflection's panic on a kind mismatch.
  function Assign(env: Env, t: TypeId, s: Scalar): Option<Value>
    requires Ranked(env)
  {
    match s
    case Null => Some(Zero(env, t))
    case Bool(b) => if KindOf(env, t).KBool? then Some(VBool(b)) else None
    case Int32(i) => AssignInt(KindOf(env, t), i)
    case Int64(i) => AssignInt(KindOf(env, t), i)
    case Uint32(u) => AssignUint(KindOf(env, t), u)
    case Uint64(u) => AssignUint(KindOf(env, t), u)
    case Float32(bits) =>
      if KindOf(env, t).KFloat32? then Some(VFloat32(bits))
      else if KindOf(env, t).KFloat64? then Some(VConverted(s)) else None
    case Float64(bits) =>
      if KindOf(env, t).KFloat64? then Some(VFloat64(bits))
      else if KindOf(env, t).KFloat32? then Some(VConverted(s)) else None
    case Str(v) => if KindOf(env, t).KString? then Some(VString(v)) else None
    case Bin(d) =>
      match KindOf(env, t)
      case KSlice(e) => if IsByte(env, e) then Some(VSlice(FromBytes(d))) else None
      case _ => None
  }

  function AssignInt(k: Kind, i: int): Option<Value> {
    if k.KInt? then Some(VInt(k.w.WrapSigned(i))) else None
  }

  function AssignUint(k: Kind, u: nat): Option<Value> {
    if k.KUint? then Some(VUint(k.w.Wrap(u))) else None
  }

  function PutEntry(entries: seq<Entry>, key: bytes, v: Value): seq<Entry> {
    if entries == [] then [Entry(key, v)]
    else if entries[0].key == key then [Entry(key, v)] + entries[1..]
    else [entries[0]] + PutEntry(entries[1..], key, v)
  }

  // A slice target gets n elements: a new slice when it is too short, else its own first n.
  function SliceTarget(env: Env, e: TypeId, cur: Value, n: nat): seq<Value>
    requires Ranked(env)
  {
    if n > |Elems(cur)| then seq(n, i => Zero(env, e)) else Elems(cur)[..n]
  }

  // Elements of an array target beyond the n decoded ones are set to zero.
  function ZeroTail(env: Env, e: TypeId, es: seq<Value>, n: nat): seq<Value>
    requires Ranked(env)
  {
    if n < |es| then es[..n] + seq(|es| - n, i => Zero(env, e)) else es
  }

  // Maps and channels of length zero take array items by skipping their elements.
  predicate SkipsElements(env: Env, t: TypeId, cur: Value, n: nat) {
    match KindOf(env, t)
    case KMap(_, _) => n == 0 || Entries(cur) == []
    case KChan => n == 0 || !cur.VChan? || cur.queued == 0
    case _ => false
  }

  function StringLen(cur: Value): nat {
    if cur.VString? then |cur.s| else 0
  }

  // A byte of a string is a target that cannot be set: only items for which nothing is set pass.
  function UnsettableAt(data: bytes, off: nat): (r: Read<()>)
    ensures r.Got? ==> r.off >= off && off < |data|
  {
    if off >= |data| then Failed(OutOfRange)
    else if data[off] == OBJECT then
      match Count(data, off)
      case Failed(f) => Failed(f)
      case Got(n, p) => if n == 0 then Got((), p) else Failed(WrongKind)
    else if data[off] == ARRAY || IsScalarTag(data[off]) then Failed(WrongKind)
    else Got((), off)
  }

  // Elements i to n of an array item for a string of length len; those beyond it are skipped.
  function StringElemsAt(len: nat, i: nat, n: nat, data: bytes, off: nat): (r: Read<()>)
    requires i <= n
    ensures r.Got? ==> r.off >= off
    decreases n - i
  {
    if i == n then Got((), off)
    else if i < len then
      match UnsettableAt(data, off)
      case Failed(f) => Failed(f)
      case Got(_, q) => StringElemsAt(len, i + 1, n, data, q)
    else
      match Skip(data, off)
      case Failed(f) => Failed(f)
      case Got(_, q) => StringElemsAt(len, i + 1, n, data, q)
  }

  // ---- Decoding bytes into a target (value, object, array) -------------------------

  function TypedAt(env: Env, t: TypeId, cur: Value, data: bytes, off: nat): (r: Read<Value>)
    requires Ranked(env)
    ensures r.Got? ==> r.off >= off && off < |data|
    decreases Left(data, off), 0, Rank(env, t)
  {
    if off >= |data| then Failed(OutOfRange)
    else if KindOf(env, t).KPtr? then
      if !cur.VPtr? && data[off] == NULL then
        match ScalarAt(data, off)
        case Failed(f) => Failed(f)
        case Got(_, q) => Got(VNil, q)
      else
        var e := KindOf(env, t).elem;
        match TypedAt(env, e, if cur.VPtr? then cur.p else Zero(env, e), data, off)
        case Failed(f) => Failed(f)
        case Got(v, q) => Got(VPtr(v), q)
    else if data[off] == OBJECT then
      if KindOf(env, t).KInterface? then
        match AnyAt(data, off)
        case Failed(f) => Failed(f)
        case Got(a, q) => Got(VAny(a), q)
      else
        match Count(data, off)
        case Failed(f) => Failed(f)
        case Got(n, p) =>
          match KindOf(env, t)
          case KStruct(_) => StructAt(env, t, cur, data, p, n)
          case KMap(stringKey, e) =>
            if n > 0 && !stringKey then Failed(WrongKind)
            else
              (match EntriesAt(env, e, Entries(cur), data, p, n)
               case Failed(f) => Failed(f)
               case Got(entries, q) => Got(VMap(entries), q))
          case _ => if n == 0 then Got(cur, p) else Failed(WrongKind)
    else if data[off] == ARRAY then
      match Count(data, off)
      case Failed(f) => Failed(f)
      case Got(n, p) =>
        var kind := KindOf(env, t);
        if kind.KSlice? then
          match ElemsAt(env, kind.elem, SliceTarget(env, kind.elem, cur, n), 0, n, data, p)
          case Failed(f) => Failed(f)
          case Got(es, q) => Got(VSlice(es), q)
        else if kind.KArray? then
          match ElemsAt(env, kind.elem, Elems(cur), 0, n, data, p)
          case Failed(f) => Failed(f)
          case Got(es, q) => Got(VArray(ZeroTail(env, kind.elem, es, n)), q)
        else if kind.KString? then
          var r := StringElemsAt(StringLen(cur), 0, n, data, p);
          if r.Failed? then Failed(r.fault) else Got(cur, r.off)
        else if SkipsElements(env, t, cur, n) then
          match ElemsAt(env, t, [], 0, n, data, p)
          case Failed(f) => Failed(f)
          case Got(_, q) => Got(cur, q)
        else Failed(WrongKind)
    else if IsScalarTag(data[off]) then
      match ScalarAt(data, off)
      case Failed(f) => Failed(f)
      case Got(s, q) =>
        match Assign(env, t, s)
        case None => Failed(WrongKind)
        case Some(v) => Got(v, q)
    else Got(cur, off)
  }

  // n more members stored into a struct; members that match no field are skipped.
  function StructAt(env: Env, t: TypeId, cur: Value, data: bytes, off: nat, n: nat): (r: Read<Value>)
    requires Ranked(env)
    ensures r.Got? ==> r.off >= off
    decreases Left(data, off), 1 + n, 0
  {
    if n == 0 then Got(cur, off)
    else
      match KeyAt(data, off)
      case Failed(f) => Failed(f)
      case Got(key, _) =>
        match Find(env, FieldsOf(env, t), key)
        case None =>
          (match Skip(data, off)
           case Failed(f) => Failed(f)
           case Got(_, q) => StructAt(env, t, cur, data, q, n - 1))
        case Some(f) =>
          match FieldAt(cur, f.index)
          case None => Failed(WrongKind)  // a nil embedded pointer is not allocated
          case Some(x) =>
            match TypedAt(env, TypeAt(env, t, f.index), x, data, off)
            case Failed(g) => Failed(g)
            case Got(v, q) => StructAt(env, t, SetAt(cur, f.index, v), data, q, n - 1)
  }

  function EntriesAt(env: Env, e: TypeId, entries: seq<Entry>, data: bytes, off: nat, n: nat)
    : (r: Read<seq<Entry>>)
    requires Ranked(env)
    ensures r.Got? ==> r.off >= off
    decreases Left(data, off), 1 + n, 0
  {
    if n == 0 then Got(entries, off)
    else
      match KeyAt(data, off)
      case Failed(f) => Failed(f)
      case Got(key, _) =>
        match TypedAt(env, e, Zero(env, e), data, off)
        case Failed(f) => Failed(f)
        case Got(v, q) => EntriesAt(env, e, PutEntry(entries, key, v), data, q, n - 1)
  }

  // Elements i to n stored into es; those beyond its end are skipped.
  function ElemsAt(env: Env, e: TypeId, es: seq<Value>, i: nat, n: nat, data: bytes, off: nat)
    : (r: Read<seq<Value>>)
    requires Ranked(env) && i <= n
    ensures r.Got? ==> r.off >= off
    decreases Left(data, off), 1 + n - i, 0
  {
    if i == n then Got(es, off)
    else if i < |es| then
      match TypedAt(env, e, es[i], data, off)
      case Failed(f) => Failed(f)
      case Got(v, q) => ElemsAt(env, e, es[i := v], i + 1, n, data, q)
    else
      match Skip(data, off)
      case Failed(f) => Failed(f)
      case Got(_, q) => ElemsAt(env, e, es, i + 1, n, data, q)
  }

  // ---- The same on wire trees -------------------------------------------------------

  function Into(env: Env, t: TypeId, cur: Value, it: Item): Option<Value>
    requires Ranked(env)
    decreases it, 1, Rank(env, t)
  {
    if KindOf(env, t).KPtr? then
      if !cur.VPtr? && it == Leaf(Null) then Some(VNil)
      else
        var e := KindOf(env, t).elem;
        match Into(env, e, if cur.VPtr? then cur.p else Zero(env, e), it)
        case None => None
        case Some(v) => Some(VPtr(v))
    else
      match it
      case Leaf(s) => Assign(env, t, s)
      case Object(_, ms) =>
        (match KindOf(env, t)
         case KInterface => Some(VAny(Norm(it)))
         case KStruct(_) => IntoStruct(env, t, cur, ms)
         case KMap(stringKey, e) =>
           if ms != [] && !stringKey then None
           else
             (match IntoEntries(env, e, Entries(cur), ms)
              case None => None
              case Some(entries) => Some(VMap(entries)))
         case _ => if ms == [] then Some(cur) else None)
      case Array(_, ms) =>
        var kind := KindOf(env, t);
        if kind.KSlice? then
          match IntoElems(env, kind.elem, SliceTarget(env, kind.elem, cur, |ms|), 0, ms)
          case None => None
          case Some(es) => Some(VSlice(es))
        else if kind.KArray? then
          match IntoElems(env, kind.elem, Elems(cur), 0, ms)
          case None => None
          case Some(es) => Some(VArray(ZeroTail(env, kind.elem, es, |ms|)))
        else if kind.KString? then if SetsNothing(ms, StringLen(cur)) then Some(cur) else None
        else if SkipsElements(env, t, cur, |ms|) then Some(cur)
        else None
  }

  // The first n members are empty objects.
  predicate SetsNothing(ms: seq<Member>, n: nat) {
    ms == [] || n == 0 || (ms[0].item.Object? && ms[0].item.members == [] && SetsNothing(ms[1..], n - 1))
  }

  function IntoStruct(env: Env, t: TypeId, cur: Value, ms: seq<Member>): Option<Value>
    requires Ranked(env)
    decreases ms, 2, 0
  {
    if ms == [] then Some(cur)
    else
      match Find(env, FieldsOf(env, t), ms[0].key)
      case None => IntoStruct(env, t, cur, ms[1..])
      case Some(f) =>
        match FieldAt(cur, f.index)
        case None => None
        case Some(x) =>
          match Into(env, TypeAt(env, t, f.index), x, ms[0].item)
          case None => None
          case Some(v) => IntoStruct(env, t, SetAt(cur, f.index, v), ms[1..])
  }

  function IntoEntries(env: Env, e: TypeId, entries: seq<Entry>, ms: seq<Member>): Option<seq<Entry>>
    requires Ranked(env)
    decreases ms, 2, 0
  {
    if ms == [] then Some(entries)
    else
      match Into(env, e, Zero(env, e), ms[0].item)
      case None => None
      case Some(v) => IntoEntries(env, e, PutEntry(entries, ms[0].key, v), ms[1..])
  }

  function IntoElems(env: Env, e: TypeId, es: seq<Value>, i: nat, ms: seq<Member>): Option<seq<Value>>
    requires Ranked(env)
    decreases ms, 2, 0
  {
    if ms == [] then Some(es)
    else if i < |es| then
      match Into(env, e, es[i], ms[0].item)
      case None => None
      case Some(v) => IntoElems(env, e, es[i := v], i + 1, ms[1..])
    else IntoElems(env, e, es, i + 1, ms[1..])
  }

  // ---- They agree -------------------------------------------------------------------

  // Reading at a position and computing on the tree give the same value, ending at end, or both
  // fail.
  ghost predicate Agree<T>(r: Read<T>, v: Option<T>, end: nat) {
    match v
    case Some(x) => r == Got(x, end)
    case None => r.Failed?
  }

  lemma {:induction false} TypedAgrees(env: Env, t: TypeId, cur: Value, data: bytes, off: nat, k: bytes, it: Item)
    requires Ranked(env)
    requires At(data, off, Enc(k, it)) && Fits(k, it) && Complete(it) && Named(it)
    ensures Agree(TypedAt(env, t, cur, data, off), Into(env, t, cur, it), off + |Enc(k, it)|)
    decreases it, 1, Rank(env, t)
  {
    hide At, Enc, EncAll, AnyAt, Norm, ScalarAt, Count, Assign, Zero, StructAt, EntriesAt, ElemsAt, IntoStruct,
         IntoEntries, IntoElems,
         SizesFit, Complete, Named, Ranked, SliceTarget, ZeroTail, SkipsElements, TagOf;
    ItemTag(data, off, k, it);
    if KindOf(env, t).KPtr? {
      if !cur.VPtr? && it == Leaf(Null) {
        ScalarItem(data, off, k, Null);
      } else {
        var e := KindOf(env, t).elem;
        PtrRank(env, t);
        TypedAgrees(env, e, if cur.VPtr? then cur.p else Zero(env, e), data, off, k, it);
      }
    } else {
      match it
      case Leaf(s) => ScalarItem(data, off, k, s);
      case Object(_, ms) => ObjectAgrees(env, t, cur, data, off, k, it);
      case Array(_, ms) => ArrayAgrees(env, t, cur, data, off, k, it);
    }
  }

  lemma ItemTag(data: bytes, off: nat, k: bytes, it: Item)
    requires At(data, off, Enc(k, it)) && KeyFits(k)
    ensures off < |data| && data[off] == TagOf(it)
    ensures TagOf(it) == OBJECT <==> it.Object?
    ensures TagOf(it) == ARRAY <==> it.Array?
    ensures TagOf(it) == NULL <==> it == Leaf(Null)
    ensures it.Leaf? ==> IsScalarTag(TagOf(it))
  {
    hide At, Enc, ContentOf, LE, KeyBytes;
    ItemAt(data, off, k, it);
  }

  lemma ScalarItem(data: bytes, off: nat, k: bytes, s: Scalar)
    requires At(data, off, Enc(k, Leaf(s))) && Fits(k, Leaf(s))
    ensures off < |data| && IsScalarTag(data[off])
    ensures ScalarAt(data, off) == Got(s, off + |Enc(k, Leaf(s))|)
  {
    hide At, EncScalar, ScalarAt;
    ScalarRoundTrip(data, off, k, s);
  }

  lemma MembersGood(k: bytes, it: Item)
    requires !it.Leaf? && Fits(k, it) && Complete(it) && Named(it)
    ensures AllFit(it.members) && AllComplete(it.members) && AllNamed(it.members, it.Object?)
    ensures it.count == |it.members|
  {
  }

  lemma {:induction false} ObjectAgrees(env: Env, t: TypeId, cur: Value, data: bytes, off: nat, k: bytes, it: Item)
    requires Ranked(env) && it.Object? && !KindOf(env, t).KPtr?
    requires At(data, off, Enc(k, it)) && Fits(k, it) && Complete(it) && Named(it)
    ensures Agree(TypedAt(env, t, cur, data, off), Into(env, t, cur, it), off + |Enc(k, it)|)
    decreases it, 0, 0
  {
    hide At, Enc, EncAll, AnyAt, Norm, Count, StructAt, IntoStruct, EntriesAt, IntoEntries, SizesFit, Named,
         Complete, Ranked, TagOf,
         AllSizesFit, AllKeysFit, AllComplete, AllNamed;
    ItemTag(data, off, k, it);
    var ms, p := it.members, off + 10 + KeyLen(k);
    CountRoundTrip(data, off, k, it);
    MembersGood(k, it);
    match KindOf(env, t)
    case KInterface => AnyRoundTrip(data, off, k, it);
    case KStruct(_) => StructAgrees(env, t, cur, data, p, ms);
    case KMap(_, e) => EntriesAgree(env, e, Entries(cur), data, p, ms);
    case _ => if ms == [] { EncAllNil(); }
  }

  lemma {:induction false} ArrayAgrees(env: Env, t: TypeId, cur: Value, data: bytes, off: nat, k: bytes, it: Item)
    requires Ranked(env) && it.Array? && !KindOf(env, t).KPtr?
    requires At(data, off, Enc(k, it)) && Fits(k, it) && Complete(it) && Named(it)
    ensures Agree(TypedAt(env, t, cur, data, off), Into(env, t, cur, it), off + |Enc(k, it)|)
    decreases it, 0, 0
  {
    hide At, Enc, EncAll, Count, ElemsAt, IntoElems, ZeroTail, SliceTarget, SizesFit, Named, Complete, SkipsElements,
         Ranked, TagOf, TypedAt, Into, AllSizesFit, AllKeysFit, AllComplete, AllNamed;
    ItemTag(data, off, k, it);
    var ms, p := it.members, off + 10 + KeyLen(k);
    CountRoundTrip(data, off, k, it);
    MembersGood(k, it);
    ArrayRead(env, t, cur, data, off);
    ArrayStored(env, t, cur, it);
    var kind := KindOf(env, t);
    if kind.KSlice? {
      ElemsAgree(env, kind.elem, SliceTarget(env, kind.elem, cur, |ms|), 0, data, p, ms);
    } else if kind.KArray? {
      ElemsAgree(env, kind.elem, Elems(cur), 0, data, p, ms);
    } else if kind.KString? {
      StringElemsAgree(StringLen(cur), 0, data, p, ms);
    } else {
      ElemsAgree(env, t, [], 0, data, p, ms);
      NoElems(env, t, 0, ms);
    }
  }

  // What becomes of the elements, by the kind of the target.
  function FinishArray(env: Env, t: TypeId, cur: Value, n: nat, es: seq<Value>): Value
    requires Ranked(env)
  {
    match KindOf(env, t)
    case KSlice(_) => VSlice(es)
    case KArray(_, e) => VArray(ZeroTail(env, e, es, n))
    case _ => cur
  }

  function ArrayElem(env: Env, t: TypeId): TypeId {
    match KindOf(env, t)
    case KSlice(e) => e
    case KArray(_, e) => e
    case _ => t
  }

  function ArrayTarget(env: Env, t: TypeId, cur: Value, n: nat): seq<Value>
    requires Ranked(env)
  {
    match KindOf(env, t)
    case KSlice(e) => SliceTarget(env, e, cur, n)
    case KArray(_, _) => Elems(cur)
    case _ => []
  }

  predicate TakesArrays(env: Env, t: TypeId, cur: Value, n: nat) {
    KindOf(env, t).KSlice? || KindOf(env, t).KArray? || SkipsElements(env, t, cur, n)
  }

  lemma ArrayRead(env: Env, t: TypeId, cur: Value, data: bytes, off: nat)
    requires Ranked(env) && off < |data| && data[off] == ARRAY && !KindOf(env, t).KPtr? && Count(data, off).Got?
    ensures var (n, p) := (Count(data, off).value, Count(data, off).off);
            var r := ElemsAt(env, ArrayElem(env, t), ArrayTarget(env, t, cur, n), 0, n, data, p);
            TypedAt(env, t, cur, data, off) ==
            if KindOf(env, t).KString?
            then (var b := StringElemsAt(StringLen(cur), 0, n, data, p);
                  if b.Failed? then Failed(b.fault) else Got(cur, b.off))
            else if !TakesArrays(env, t, cur, n) then Failed(WrongKind)
            else match r case Failed(f) => Failed(f) case Got(es, q) => Got(FinishArray(env, t, cur, n, es), q)
  {
    hide StringElemsAt, Count, ElemsAt, StructAt, EntriesAt, AnyAt, ScalarAt, Assign, ZeroTail, SliceTarget,
         SkipsElements, Ranked,
         Zero;
  }

  lemma ObjectRead(env: Env, t: TypeId, cur: Value, data: bytes, off: nat)
    requires Ranked(env) && off < |data| && data[off] == OBJECT && !KindOf(env, t).KPtr? && Count(data, off).Got?
    requires TypedAt(env, t, cur, data, off).Got?
    ensures var (n, p, end) := (Count(data, off).value, Count(data, off).off, TypedAt(env, t, cur, data, off).off);
            match KindOf(env, t)
            case KInterface => AnyAt(data, off).Got? && AnyAt(data, off).off == end
            case KStruct(_) => StructAt(env, t, cur, data, p, n) == TypedAt(env, t, cur, data, off)
            case KMap(_, e) =>
              var r := EntriesAt(env, e, Entries(cur), data, p, n);
              r.Got? && r.off == end
            case _ => n == 0 && end == p
  {
    hide Count, ElemsAt, StructAt, EntriesAt, AnyAt, ScalarAt, Assign, ZeroTail, SliceTarget, SkipsElements, Ranked,
         Zero;
  }

  lemma PointerRead(env: Env, t: TypeId, data: bytes, off: nat)
    requires Ranked(env) && off < |data| && data[off] != NULL && KindOf(env, t).KPtr?
    requires TypedAt(env, t, Zero(env, t), data, off).Got?
    ensures var e := KindOf(env, t).elem;
            var r := TypedAt(env, e, Zero(env, e), data, off);
            r.Got? && r.off == TypedAt(env, t, Zero(env, t), data, off).off
  {
    hide Count, ElemsAt, StructAt, EntriesAt, AnyAt, ScalarAt, Assign, ZeroTail, SliceTarget, SkipsElements, Ranked;
  }

  lemma ArrayStored(env: Env, t: TypeId, cur: Value, it: Item)
    requires Ranked(env) && it.Array? && !KindOf(env, t).KPtr?
    ensures var n := |it.members|;
            var r := IntoElems(env, ArrayElem(env, t), ArrayTarget(env, t, cur, n), 0, it.members);
            Into(env, t, cur, it) ==
            if KindOf(env, t).KString? then (if SetsNothing(it.members, StringLen(cur)) then Some(cur) else None)
            else if KindOf(env, t).KSlice? || KindOf(env, t).KArray?
            then (match r case None => None case Some(es) => Some(FinishArray(env, t, cur, n, es)))
            else if SkipsElements(env, t, cur, n) then Some(cur) else None
  {
    hide IntoElems, IntoStruct, IntoEntries, Assign, ZeroTail, SliceTarget, SkipsElements, Ranked, Zero, Norm;
  }

  lemma {:induction false} NoElems(env: Env, e: TypeId, i: nat, ms: seq<Member>)
    requires Ranked(env)
    ensures IntoElems(env, e, [], i, ms) == Some([])
    decreases |ms|
  {
    if ms != [] {
      NoElems(env, e, i + 1, ms[1..]);
    }
  }

  lemma UnsettableAgrees(data: bytes, off: nat, k: bytes, it: Item)
    requires At(data, off, Enc(k, it)) && Fits(k, it) && Complete(it)
    ensures var r := UnsettableAt(data, off);
            if it.Object? && it.members == [] then r == Got((), off + |Enc(k, it)|) else r.Failed?
  {
    hide At, Enc, Count;
    ItemTag(data, off, k, it);
    if it.Object? {
      CountRoundTrip(data, off, k, it);
      EncAllNil();
    }
  }

  lemma {:induction false} StringElemsAgree(len: nat, i: nat, data: bytes, off: nat, ms: seq<Member>)
    requires At(data, off, EncAll(ms)) && AllFit(ms) && AllComplete(ms)
    ensures var r := StringElemsAt(len, i, i + |ms|, data, off);
            if SetsNothing(ms, if i < len then len - i else 0) then r == Got((), off + |EncAll(ms)|) else r.Failed?
    decreases ms, 2, 0
  {
    hide At, Enc, EncAll, Skip, UnsettableAt, SizesFit, Complete;
    if ms == [] {
      EncAllNil();
    } else {
      var k, it := ms[0].key, ms[0].item;
      assert KeysFit(k, it);
      FirstAt(data, off, ms);
      if i < len {
        UnsettableAgrees(data, off, k, it);
      } else {
        SkipRoundTrip(data, off, k, it);
      }
      StringElemsAgree(len, i + 1, data, off + |Enc(k, it)|, ms[1..]);
    }
  }

  lemma {:induction false} StructAgrees(env: Env, t: TypeId, cur: Value, data: bytes, off: nat, ms: seq<Member>)
    requires Ranked(env)
    requires At(data, off, EncAll(ms)) && AllFit(ms) && AllComplete(ms) && AllNamed(ms, true)
    ensures Agree(StructAt(env, t, cur, data, off, |ms|), IntoStruct(env, t, cur, ms), off + |EncAll(ms)|)
    decreases ms, 2, 0
  {
    hide At, Enc, EncAll, KeyAt, Skip, TypedAt, Into, Find, SizesFit, Complete, Named, FieldAt, SetAt, Ranked;
    if ms == [] {
      EncAllNil();
    } else {
      var k, it := ms[0].key, ms[0].item;
      assert KeysFit(k, it);
      FirstAt(data, off, ms);
      KeyRoundTrip(data, off, k, it);
      match Find(env, FieldsOf(env, t), k)
      case None =>
        SkipRoundTrip(data, off, k, it);
        StructAgrees(env, t, cur, data, off + |Enc(k, it)|, ms[1..]);
      case Some(f) =>
        if FieldAt(cur, f.index).Some? {
          var ft, x := TypeAt(env, t, f.index), FieldAt(cur, f.index).value;
          TypedAgrees(env, ft, x, data, off, k, it);
          if Into(env, ft, x, it).Some? {
            StructAgrees(env, t, SetAt(cur, f.index, Into(env, ft, x, it).value), data, off + |Enc(k, it)|, ms[1..]);
          }
        }
    }
  }

  lemma {:induction false} EntriesAgree(env: Env, e: TypeId, entries: seq<Entry>, data: bytes, off: nat,
                                        ms: seq<Member>)
    requires Ranked(env)
    requires At(data, off, EncAll(ms)) && AllFit(ms) && AllComplete(ms) && AllNamed(ms, true)
    ensures Agree(EntriesAt(env, e, entries, data, off, |ms|), IntoEntries(env, e, entries, ms), off + |EncAll(ms)|)
    decreases ms, 2, 0
  {
    hide At, Enc, EncAll, KeyAt, TypedAt, Into, SizesFit, Complete, Named, PutEntry, Zero;
    if ms == [] {
      EncAllNil();
    } else {
      var k, it := ms[0].key, ms[0].item;
      assert KeysFit(k, it);
      FirstAt(data, off, ms);
      KeyRoundTrip(data, off, k, it);
      TypedAgrees(env, e, Zero(env, e), data, off, k, it);
      var v := Into(env, e, Zero(env, e), it);
      if v.Some? {
        EntriesAgree(env, e, PutEntry(entries, k, v.value), data, off + |Enc(k, it)|, ms[1..]);
      }
    }
  }

  lemma {:induction false} ElemsAgree(env: Env, e: TypeId, es: seq<Value>, i: nat, data: bytes, off: nat,
                                      ms: seq<Member>)
    requires Ranked(env)
    requires At(data, off, EncAll(ms)) && AllFit(ms) && AllComplete(ms) && AllNamed(ms, false)
    ensures Agree(ElemsAt(env, e, es, i, i + |ms|, data, off), IntoElems(env, e, es, i, ms), off + |EncAll(ms)|)
    decreases ms, 2, 0
  {
    hide At, Enc, EncAll, KeyAt, Skip, TypedAt, Into, SizesFit, Complete, Named;
    if ms == [] {
      EncAllNil();
    } else {
      var k, it := ms[0].key, ms[0].item;
      assert KeysFit(k, it);
      FirstAt(data, off, ms);
      if i < |es| {
        TypedAgrees(env, e, es[i], data, off, k, it);
        var v := Into(env, e, es[i], it);
        if v.Some? {
          ElemsAgree(env, e, es[i := v.value], i + 1, data, off + |Enc(k, it)|, ms[1..]);
        }
      } else {
        SkipRoundTrip(data, off, k, it);
        ElemsAgree(env, e, es, i + 1, data, off + |Enc(k, it)|, ms[1..]);
      }
    }
  }
}
