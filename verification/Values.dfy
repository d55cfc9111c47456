// Go values and their types, as the encoder and the typed decoder see them through reflection.
module Values {
  import opened Bytes
  import opened Wire
  import opened Decode

  datatype Option<+T> = None | Some(value: T)

  // ---- Types ------------------------------------------------------------------

  // Types are numbered, so that a type can refer to itself.
  type TypeId = nat

  datatype Kind =
    | KBool
    | KInt(w: Width)
    | KUint(w: Width)
    | KFloat32
    | KFloat64
    | KString
    | KInterface
    | KStruct(decls: seq<FieldDecl>)
    | KMap(stringKey: bool, elem: TypeId)
    | KSlice(elem: TypeId)
    | KArray(len: nat, elem: TypeId)
    | KPtr(elem: TypeId)
    | KChan
    | KOther  // functions, complex numbers

  // A declared struct field, with its tag already parsed: tagName is empty when the tag gives
  // no valid name, and ignored means the tag is "-".
  datatype FieldDecl = FieldDecl(
    name: bytes, tagName: bytes, exported: bool, ignored: bool, omitEmpty: bool, anonymous: bool,
    typ: TypeId)

  type Path = p: seq<nat> | p != [] witness [0]

  // A field the encoder and decoder use: where it lies and under which name.
  datatype Field = Field(name: bytes, tag: bool, index: Path, omitEmpty: bool)

  // The types of a program: kinds, the cached field list of each struct type, a rank showing
  // that no type contains itself by value and that following pointers ends, and the case
  // folding used for field names.
  datatype Env = Env(kinds: seq<Kind>, fields: seq<seq<Field>>, rank: seq<nat>, fold: nat -> nat)

  function KindOf(env: Env, t: TypeId): Kind {
    if t < |env.kinds| then env.kinds[t] else KOther
  }

  function FieldsOf(env: Env, t: TypeId): seq<Field> {
    if t < |env.fields| then env.fields[t] else []
  }

  function Rank(env: Env, t: TypeId): nat {
    if t < |env.rank| then env.rank[t] else 0
  }

  // Types whose zero value is nil.
  predicate IsNilable(env: Env, t: TypeId) {
    var k := KindOf(env, t);
    k.KPtr? || k.KMap? || k.KSlice? || k.KInterface?
  }

  predicate IsByte(env: Env, t: TypeId) {
    KindOf(env, t) == KUint(W8)
  }

  // What the Go compiler guarantees of type declarations, plus the absence of pointer types
  // that only point to themselves.
  ghost predicate Ranked(env: Env) {
    forall t: TypeId {:trigger KindOf(env, t)} ::
      match KindOf(env, t)
      case KStruct(decls) =>
        forall i | 0 <= i < |decls| ::
          IsNilable(env, decls[i].typ) || Rank(env, decls[i].typ) < Rank(env, t)
      case KArray(_, e) => IsNilable(env, e) || Rank(env, e) < Rank(env, t)
      case KPtr(e) => Rank(env, e) < Rank(env, t)
      case _ => true
  }

  lemma PtrRank(env: Env, t: TypeId)
    requires Ranked(env) && KindOf(env, t).KPtr?
    ensures Rank(env, KindOf(env, t).elem) < Rank(env, t)
  {
  }

  // typeByIndex: the declared type of the field at the end of a path.
  function TypeAt(env: Env, t: TypeId, path: seq<nat>): TypeId
    decreases |path|
  {
    if path == [] then t
    else
      var s := match KindOf(env, t) case KPtr(e) => e case _ => t;
      match KindOf(env, s)
      case KStruct(decls) =>
        if path[0] < |decls| then TypeAt(env, decls[path[0]].typ, path[1..]) else |env.kinds|
      case _ => |env.kinds|
  }

  // ---- Values -----------------------------------------------------------------

  // Map entries are listed in the order in which Go happens to yield them.
  datatype Value =
    | VBool(b: bool)
    | VInt(n: int)
    | VUint(u: nat)
    | VFloat32(bits: nat)
    | VFloat64(bits: nat)
    | VConverted(from: Scalar)  // a float stored into a target of the other width
    | VString(s: bytes)
    | VNil
    | VPtr(p: Value)
    | VIface(dyn: TypeId, val: Value)
    | VAny(a: Any)  // what decoding into an interface stores
    | VStruct(fs: seq<Value>)
    | VMap(entries: seq<Entry>)
    | VSlice(es: seq<Value>)
    | VArray(es: seq<Value>)
    | VChan(queued: nat)  // with so many elements in its buffer; nil has none
    | VOther  // a value of kind KOther

  datatype Entry = Entry(key: bytes, val: Value)

  // What ranging over a map, a slice or an array visits; nothing when it is nil.
  function Entries(v: Value): seq<Entry> {
    match v
    case VMap(entries) => entries
    case _ => []
  }

  function Elems(v: Value): seq<Value> {
    match v
    case VSlice(es) => es
    case VArray(es) => es
    case _ => []
  }

  // fieldByIndex: stops at a nil embedded pointer.
  function FieldAt(v: Value, path: seq<nat>): (r: Option<Value>)
    ensures r.Some? && path != [] ==> r.value < v
    decreases |path|
  {
    if path == [] then Some(v)
    else
      var s := match v case VPtr(p) => p case _ => v;
      if s.VStruct? && path[0] < |s.fs| then FieldAt(s.fs[path[0]], path[1..]) else None
  }

  function SetAt(v: Value, path: seq<nat>, x: Value): Value
    decreases |path|
  {
    if path == [] then x
    else
      match v
      case VPtr(VStruct(fs)) =>
        if path[0] < |fs| then VPtr(VStruct(fs[path[0] := SetAt(fs[path[0]], path[1..], x)])) else v
      case VStruct(fs) =>
        if path[0] < |fs| then VStruct(fs[path[0] := SetAt(fs[path[0]], path[1..], x)]) else v
      case _ => v
  }

  function Zero(env: Env, t: TypeId): Value
    requires Ranked(env)
    decreases Rank(env, t)
  {
    match KindOf(env, t)
    case KBool => VBool(false)
    case KInt(_) => VInt(0)
    case KUint(_) => VUint(0)
    case KFloat32 => VFloat32(0)
    case KFloat64 => VFloat64(0)
    case KString => VString([])
    case KChan => VChan(0)
    case KOther => VOther
    case KStruct(decls) =>
      VStruct(seq(|decls|, i requires 0 <= i < |decls| =>
        if IsNilable(env, decls[i].typ) then VNil else Zero(env, decls[i].typ)))
    case KArray(n, e) =>
      VArray(seq(n, i requires 0 <= i < n => if IsNilable(env, e) then VNil else Zero(env, e)))
    case _ => VNil
  }

  lemma NilZero(env: Env, t: TypeId)
    requires Ranked(env) && IsNilable(env, t)
    ensures Zero(env, t) == VNil
  {
  }

  // isEmptyValue. Negative zero counts as empty.
  predicate IsEmpty(v: Value) {
    match v
    case VBool(b) => !b
    case VInt(n) => n == 0
    case VUint(u) => u == 0
    case VFloat32(bits) => bits == 0 || bits == 0x8000_0000
    case VFloat64(bits) => bits == 0 || bits == 0x8000_0000_0000_0000
    case VString(s) => s == []
    case VNil => true
    case VMap(entries) => entries == []
    case VSlice(es) => es == []
    case VArray(es) => es == []
    case _ => false
  }

  // The bytes of a byte slice's elements.
  function ToBytes(es: seq<Value>): (s: bytes)
    ensures |s| == |es|
  {
    seq(|es|, i requires 0 <= i < |es| => if es[i].VUint? then es[i].u % 256 else 0)
  }

  function FromBytes(s: bytes): seq<Value> {
    seq(|s|, i requires 0 <= i < |s| => VUint(s[i]))
  }

  // ---- What a value is encoded as -----------------------------------------------

  // The item written for a value of type t: the encoder chosen by the type's kind. None when
  // the kind is unsupported, in which case nothing is written.
  function Lower(env: Env, t: TypeId, v: Value): Option<Item>
    decreases v, 3, 0
  {
    match KindOf(env, t)
    case KBool => if v.VBool? then Some(Leaf(Bool(v.b))) else None
    case KInt(w) => if v.VInt? then Some(Leaf(if w == W64 then Int64(v.n) else Int32(v.n))) else None
    case KUint(w) => if v.VUint? then Some(Leaf(if w == W64 then Uint64(v.u) else Uint32(v.u))) else None
    case KFloat32 => if v.VFloat32? then Some(Leaf(Float32(v.bits))) else None
    case KFloat64 => if v.VFloat64? then Some(Leaf(Float64(v.bits))) else None
    case KString => if v.VString? then Some(Leaf(Str(v.s))) else None
    case KInterface =>
      if v.VNil? then Some(Leaf(Null)) else if v.VIface? then Lower(env, v.dyn, v.val) else None
    case KStruct(_) =>
      if v.VStruct? then Some(Object(|FieldsOf(env, t)|, LowerFields(env, t, v, FieldsOf(env, t)))) else None
    case KMap(stringKey, e) =>
      if !stringKey then None
      else if v.VNil? then Some(Object(0, []))
      else if v.VMap? then Some(Object(|v.entries|, LowerEntries(env, e, v.entries)))
      else None
    case KSlice(e) =>
      if !v.VNil? && !v.VSlice? then None
      else if IsByte(env, e) then Some(Leaf(Bin(ToBytes(Elems(v)))))
      else if v.VNil? then Some(Array(0, []))
      else Some(Array(|v.es|, LowerElems(env, e, v.es)))
    case KArray(_, e) => if v.VArray? then Some(Array(|v.es|, LowerElems(env, e, v.es))) else None
    case KPtr(e) =>
      if v.VNil? then Some(Leaf(Null)) else if v.VPtr? then Lower(env, e, v.p) else None
    case KChan => None
    case KOther => None
  }

  // At most one member: nothing when there is no item to write.
  function AsMember(key: bytes, it: Option<Item>): seq<Member> {
    match it
    case None => []
    case Some(i) => [Member(key, i)]
  }

  // The members a struct's fields give; unreachable and omitted fields give none.
  function LowerField(env: Env, t: TypeId, v: Value, f: Field): seq<Member>
    decreases v, 1, 0
  {
    match FieldAt(v, f.index)
    case None => []
    case Some(fv) =>
      if f.omitEmpty && IsEmpty(fv) then []
      else AsMember(f.name, Lower(env, TypeAt(env, t, f.index), fv))
  }

  function LowerFields(env: Env, t: TypeId, v: Value, fs: seq<Field>): seq<Member>
    decreases v, 2, |fs|
  {
    if fs == [] then [] else LowerField(env, t, v, fs[0]) + LowerFields(env, t, v, fs[1..])
  }

  function LowerEntries(env: Env, e: TypeId, entries: seq<Entry>): seq<Member>
    decreases entries, 3, 0
  {
    if entries == [] then []
    else AsMember(entries[0].key, Lower(env, e, entries[0].val)) + LowerEntries(env, e, entries[1..])
  }

  function LowerElems(env: Env, e: TypeId, es: seq<Value>): seq<Member>
    decreases es, 3, 0
  {
    if es == [] then [] else AsMember([], Lower(env, e, es[0])) + LowerElems(env, e, es[1..])
  }
}
