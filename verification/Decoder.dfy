// The decoder as the source has it: a cursor moved over the data by every call
// (mcpack/decode.go).
module Decoder {
  import opened Bytes
  import opened Wire
  import opened Decode
  import opened Values
  import opened Fold
  import opened Typed
  import opened Lookup

  datatype Result<+T> = Ok(value: T) | Err(fault: Fault)

  // The call did what the specification says of the place it started at.
  predicate Follows<T(==)>(r: Result<T>, off: nat, spec: Read<T>) {
    match spec
    case Got(v, end) => r == Ok(v) && off == end
    case Failed(f) => r == Err(f)
  }

  class DecodeState {
    const data: bytes
    var off: nat

    constructor (data: bytes)
      ensures this.data == data && off == 0
    {
      this.data := data;
      off := 0;
    }

    // ---- Skipping and keys --------------------------------------------------------

    method Next() returns (r: Result<bytes>)
      modifies this`off
      ensures Follows(r, off, Skip(data, old(off)))
    {
      var start := off;
      if off + 1 >= |data| {
        return Err(OutOfRange);
      }
      var typ := data[off];
      off := off + 1;
      var klen := data[off];
      off := off + 1;
      var vlen := FixedWidth(typ);
      var w := LenWidth(typ);
      if w > 0 {
        if off + w > |data| {
          return Err(OutOfRange);
        }
        vlen := FromLE(data[off..off + w]);
        off := off + w;
      }
      off := off + klen + vlen;
      if off > |data| {
        return Err(OutOfRange);
      }
      r := Ok(data[start..off]);
    }

    // The key of the item at the cursor, which stays where it is.
    method Key() returns (r: Result<bytes>)
      ensures Follows(r, off, KeyAt(data, off))
    {
      if off + 1 >= |data| {
        return Err(OutOfRange);
      }
      var kstart := KeyStart(data[off]);
      var klen := data[off + 1];
      if klen == 0 {
        return Err(EmptyKey);
      }
      if off + kstart + klen - 1 > |data| {
        return Err(OutOfRange);
      }
      r := Ok(data[off + kstart..off + kstart + klen - 1]);
    }

    // ---- Items without members ------------------------------------------------------

    // string, shortString, binary, shortBinary and their interface variants.
    method ReadVariable() returns (r: Result<Scalar>)
      requires off < |data| && data[off] in {STRING, SHORT_STRING, BINARY, SHORT_BINARY}
      modifies this`off
      ensures Follows(r, off, Variable(data, old(off)))
    {
      var typ := data[off];
      off := off + 1;
      if off >= |data| {
        return Err(OutOfRange);
      }
      var klen := data[off];
      off := off + 1;
      var w := LenWidth(typ);
      if off + w > |data| {
        return Err(OutOfRange);
      }
      var vlen := FromLE(data[off..off + w]);
      off := off + w;
      off := off + klen;
      if typ == STRING || typ == SHORT_STRING {
        if vlen == 0 || off + vlen - 1 > |data| {
          return Err(OutOfRange);
        }
        r := Ok(Str(data[off..off + vlen - 1]));
      } else {
        if off + vlen > |data| {
          return Err(OutOfRange);
        }
        r := Ok(Bin(data[off..off + vlen]));
      }
      off := off + vlen;
    }

    // The integers, floats, bool and null, and their interface variants.
    method ReadFixed() returns (r: Result<Scalar>)
      requires off < |data| && FixedWidth(data[off]) > 0
      modifies this`off
      ensures Follows(r, off, Fixed(data, old(off)))
    {
      var typ := data[off];
      off := off + 1;
      if off >= |data| {
        return Err(OutOfRange);
      }
      var klen := data[off];
      off := off + 1;
      off := off + klen;
      if typ == NULL {
        off := off + 1;
        return Ok(Null);
      }
      var w := FixedWidth(typ);
      if off + w > |data| {
        return Err(OutOfRange);
      }
      r := Ok(FixedScalar(typ, FromLE(data[off..off + w])));
      off := off + w;
    }

    method ReadScalar() returns (r: Result<Scalar>)
      requires off < |data| && IsScalarTag(data[off])
      modifies this`off
      ensures Follows(r, off, ScalarAt(data, old(off)))
    {
      if FixedWidth(data[off]) > 0 {
        r := ReadFixed();
      } else {
        r := ReadVariable();
      }
    }

    // Past a container's header; gives its member count.
    method ContainerHeader() returns (r: Result<nat>)
      requires off < |data|
      modifies this`off
      ensures Follows(r, off, Count(data, old(off)))
    {
      off := off + 1;
      if off >= |data| {
        return Err(OutOfRange);
      }
      var klen := data[off];
      off := off + 1;
      off := off + 4;
      off := off + klen;
      if off + 4 > |data| {
        return Err(OutOfRange);
      }
      r := Ok(FromLE(data[off..off + 4]));
      off := off + 4;
    }

    // ---- Decoding without a target type ------------------------------------------------

    method ValueInterface() returns (r: Result<Any>)
      modifies this`off
      ensures Follows(r, off, AnyAt(data, old(off)))
      decreases Left(data, off), 0
    {
      if off >= |data| {
        return Err(OutOfRange);
      }
      var typ := data[off];
      if typ == OBJECT {
        r := ObjectInterface();
      } else if typ == ARRAY {
        r := ArrayInterface();
      } else if IsScalarTag(typ) {
        var s := ReadScalar();
        r := match s case Ok(v) => Ok(Any.Scalar(v)) case Err(f) => Err(f);
      } else {
        r := Ok(Any.Scalar(Null));
      }
    }

    method ObjectInterface() returns (r: Result<Any>)
      requires off < |data| && data[off] == OBJECT
      modifies this`off
      ensures Follows(r, off, AnyAt(data, old(off)))
      decreases Left(data, off), 0, 0
    {
      hide Count;
      var c := ContainerHeader();
      if c.Err? {
        return Err(c.fault);
      }
      var n, m, i := c.value, map[], 0;
      ghost var p := off;
      while i < n
        invariant 0 <= i <= n && p <= off && Left(data, off) <= Left(data, p) < Left(data, old(off))
        invariant MapAt(data, p, n, map[]) == MapAt(data, off, n - i, m)
      {
        var subk := Key();
        if subk.Err? {
          return Err(subk.fault);
        }
        var v := ValueInterface();
        if v.Err? {
          return Err(v.fault);
        }
        m := m[subk.value := v.value];
        i := i + 1;
      }
      r := Ok(Map(m));
    }

    method ArrayInterface() returns (r: Result<Any>)
      requires off < |data| && data[off] == ARRAY
      modifies this`off
      ensures Follows(r, off, AnyAt(data, old(off)))
      decreases Left(data, off), 0, 0
    {
      hide Count;
      var c := ContainerHeader();
      if c.Err? {
        return Err(c.fault);
      }
      var n, es, i := c.value, [], 0;
      ghost var p := off;
      while i < n
        invariant 0 <= i <= n && p <= off && Left(data, off) <= Left(data, p) < Left(data, old(off))
        invariant ListAt(data, p, n, []) == ListAt(data, off, n - i, es)
      {
        var v := ValueInterface();
        if v.Err? {
          return Err(v.fault);
        }
        es := es + [v.value];
        i := i + 1;
      }
      r := Ok(List(es));
    }

    // ---- Decoding into a target -------------------------------------------------------

    // The decoder's loop over the fields: an exact match ends it, else the first match up to
    // case counts.
    method FindField(env: Env, fs: seq<Field>, key: bytes) returns (f: Option<Field>)
      requires UnicodeFold(env.fold)
      ensures f == Find(env, fs, key)
      ensures match f
              case None => GoesNowhere(env, fs, key)
              case Some(g) => exists i: nat | i < |fs| :: GoesTo(env, fs, key, i) && fs[i] == g
    {
      FindIs(env, fs, key);
      hide GoesTo, GoesNowhere;
      f := None;
      var i := 0;
      while i < |fs|
        invariant 0 <= i <= |fs|
        invariant FindExact(fs, key) == FindExact(fs[i..], key)
        invariant FindFold(env, fs, key) == if f.Some? then f else FindFold(env, fs[i..], key)
      {
        assert fs[i..][1..] == fs[i + 1..];
        if fs[i].name == key {
          return Some(fs[i]);
        }
        if f.None? {
          var same := NameMatches(env.fold, fs[i].name, key);
          if same {
            f := Some(fs[i]);
          }
        }
        i := i + 1;
      }
    }

    method Value(env: Env, t: TypeId, cur: Value) returns (r: Result<Value>)
      requires Ranked(env) && UnicodeFold(env.fold)
      modifies this`off
      ensures Follows(r, off, TypedAt(env, t, cur, data, old(off)))
      decreases Left(data, off), 0, Rank(env, t), 2
    {
      if off >= |data| {
        return Err(OutOfRange);
      }
      var kind, typ := KindOf(env, t), data[off];
      if kind.KPtr? {
        r := Pointer(env, t, cur);
      } else if typ == OBJECT {
        r := ObjectValue(env, t, cur);
      } else if typ == ARRAY {
        r := ArrayValue(env, t, cur);
      } else if IsScalarTag(typ) {
        var s := ReadScalar();
        if s.Err? {
          return Err(s.fault);
        }
        var v := Assign(env, t, s.value);
        r := if v.Some? then Ok(v.value) else Err(WrongKind);
      } else {
        r := Ok(cur);
      }
    }

    // indirect: a nil pointer stays nil on null and is allocated otherwise.
    method Pointer(env: Env, t: TypeId, cur: Value) returns (r: Result<Value>)
      requires Ranked(env) && UnicodeFold(env.fold) && off < |data| && KindOf(env, t).KPtr?
      modifies this`off
      ensures Follows(r, off, TypedAt(env, t, cur, data, old(off)))
      decreases Left(data, off), 0, Rank(env, t), 1
    {
      hide ScalarAt, Assign;
      var e := KindOf(env, t).elem;
      if !cur.VPtr? && data[off] == NULL {
        var s := ReadScalar();
        r := match s case Ok(_) => Ok(VNil) case Err(f) => Err(f);
      } else {
        PtrRank(env, t);
        var v := Value(env, e, if cur.VPtr? then cur.p else Zero(env, e));
        r := match v case Ok(x) => Ok(VPtr(x)) case Err(f) => Err(f);
      }
    }

    method ObjectValue(env: Env, t: TypeId, cur: Value) returns (r: Result<Value>)
      requires Ranked(env) && UnicodeFold(env.fold) && off < |data| && data[off] == OBJECT && !KindOf(env, t).KPtr?
      modifies this`off
      ensures Follows(r, off, TypedAt(env, t, cur, data, old(off)))
      decreases Left(data, off), 0, Rank(env, t), 1
    {
      hide Count, AnyAt, StructAt, EntriesAt, Ranked;
      var kind := KindOf(env, t);
      if kind.KInterface? {
        var a := ObjectInterface();
        return match a case Ok(x) => Ok(VAny(x)) case Err(f) => Err(f);
      }
      var c := ContainerHeader();
      if c.Err? {
        return Err(c.fault);
      }
      if kind.KStruct? {
        r := Members(env, t, cur, c.value);
      } else if kind.KMap? {
        if c.value > 0 && !kind.stringKey {
          return Err(WrongKind);
        }
        var es := MapEntries(env, kind.elem, Entries(cur), c.value);
        r := match es case Ok(x) => Ok(VMap(x)) case Err(f) => Err(f);
      } else {
        r := if c.value == 0 then Ok(cur) else Err(WrongKind);
      }
    }

    method Members(env: Env, t: TypeId, cur: Value, n: nat) returns (r: Result<Value>)
      requires Ranked(env) && UnicodeFold(env.fold)
      modifies this`off
      ensures Follows(r, off, StructAt(env, t, cur, data, old(off), n))
      decreases Left(data, off), n + 1, 0, 0
    {
      hide TypedAt, KeyAt, Skip, Find, FieldAt, SetAt, UnicodeFold, Ranked;
      var v, i := cur, 0;
      while i < n
        invariant 0 <= i <= n && old(off) <= off
        invariant StructAt(env, t, cur, data, old(off), n) == StructAt(env, t, v, data, off, n - i)
      {
        var subk := Key();
        if subk.Err? {
          return Err(subk.fault);
        }
        var f := FindField(env, FieldsOf(env, t), subk.value);
        if f.None? {
          var skipped := Next();
          if skipped.Err? {
            return Err(skipped.fault);
          }
        } else {
          var p := f.value.index;
          var sub := FieldAt(v, p);
          if sub.None? {
            return Err(WrongKind);
          }
          var x := Value(env, TypeAt(env, t, p), sub.value);
          if x.Err? {
            return Err(x.fault);
          }
          v := SetAt(v, p, x.value);
        }
        i := i + 1;
      }
      r := Ok(v);
    }

    method MapEntries(env: Env, e: TypeId, entries: seq<Entry>, n: nat) returns (r: Result<seq<Entry>>)
      requires Ranked(env) && UnicodeFold(env.fold)
      modifies this`off
      ensures Follows(r, off, EntriesAt(env, e, entries, data, old(off), n))
      decreases Left(data, off), n + 1, 0, 0
    {
      hide TypedAt, KeyAt, UnicodeFold, Ranked, PutEntry;
      var es, i := entries, 0;
      while i < n
        invariant 0 <= i <= n && old(off) <= off
        invariant EntriesAt(env, e, entries, data, old(off), n) == EntriesAt(env, e, es, data, off, n - i)
      {
        var subk := Key();
        if subk.Err? {
          return Err(subk.fault);
        }
        var x := Value(env, e, Zero(env, e));
        if x.Err? {
          return Err(x.fault);
        }
        es := PutEntry(es, subk.value, x.value);
        i := i + 1;
      }
      r := Ok(es);
    }

    method ArrayValue(env: Env, t: TypeId, cur: Value) returns (r: Result<Value>)
      requires Ranked(env) && UnicodeFold(env.fold) && off < |data| && data[off] == ARRAY && !KindOf(env, t).KPtr?
      modifies this`off
      ensures Follows(r, off, TypedAt(env, t, cur, data, old(off)))
      decreases Left(data, off), 0, Rank(env, t), 1
    {
      hide Count, ElemsAt, Ranked, SliceTarget, ZeroTail;
      var kind := KindOf(env, t);
      var c := ContainerHeader();
      if c.Err? {
        return Err(c.fault);
      }
      if kind.KSlice? {
        var es := Elements(env, kind.elem, SliceTarget(env, kind.elem, cur, c.value), c.value);
        r := match es case Ok(x) => Ok(VSlice(x)) case Err(f) => Err(f);
      } else if kind.KArray? {
        var es := Elements(env, kind.elem, Elems(cur), c.value);
        r := match es case Ok(x) => Ok(VArray(ZeroTail(env, kind.elem, x, c.value))) case Err(f) => Err(f);
      } else if kind.KString? {
        var done := StringElements(StringLen(cur), c.value);
        r := match done case Ok(_) => Ok(cur) case Err(f) => Err(f);
      } else if SkipsElements(env, t, cur, c.value) {
        var es := Elements(env, t, [], c.value);
        r := match es case Ok(_) => Ok(cur) case Err(f) => Err(f);
      } else {
        r := Err(WrongKind);
      }
    }

    // Elements for the bytes of a string, none of which can be set.
    method StringElements(len: nat, n: nat) returns (r: Result<()>)
      modifies this`off
      ensures Follows(r, off, StringElemsAt(len, 0, n, data, old(off)))
      decreases Left(data, off), n + 1, 0, 0
    {
      hide Skip, UnsettableAt;
      var i := 0;
      while i < n
        invariant 0 <= i <= n && old(off) <= off
        invariant StringElemsAt(len, 0, n, data, old(off)) == StringElemsAt(len, i, n, data, off)
      {
        if i < len {
          var x := Unsettable();
          if x.Err? {
            return Err(x.fault);
          }
        } else {
          var skipped := Next();
          if skipped.Err? {
            return Err(skipped.fault);
          }
        }
        i := i + 1;
      }
      r := Ok(());
    }

    // value, for a target that cannot be set: setting it panics, and so does asking it for fields
    // or for a length.
    method Unsettable() returns (r: Result<()>)
      modifies this`off
      ensures Follows(r, off, UnsettableAt(data, old(off)))
    {
      if off >= |data| {
        return Err(OutOfRange);
      }
      var typ := data[off];
      if typ == OBJECT {
        var c := ContainerHeader();
        if c.Err? {
          return Err(c.fault);
        }
        r := if c.value == 0 then Ok(()) else Err(WrongKind);
      } else if typ == ARRAY || IsScalarTag(typ) {
        r := Err(WrongKind);
      } else {
        r := Ok(());
      }
    }

    method Elements(env: Env, e: TypeId, target: seq<Value>, n: nat) returns (r: Result<seq<Value>>)
      requires Ranked(env) && UnicodeFold(env.fold)
      modifies this`off
      ensures Follows(r, off, ElemsAt(env, e, target, 0, n, data, old(off)))
      decreases Left(data, off), n + 1, 0, 0
    {
      hide TypedAt, Skip, UnicodeFold, Ranked;
      var es, i := target, 0;
      while i < n
        invariant 0 <= i <= n && old(off) <= off
        invariant ElemsAt(env, e, target, 0, n, data, old(off)) == ElemsAt(env, e, es, i, n, data, off)
      {
        if i < |es| {
          var x := Value(env, e, es[i]);
          if x.Err? {
            return Err(x.fault);
          }
          es := es[i := x.value];
        } else {
          var skipped := Next();
          if skipped.Err? {
            return Err(skipped.fault);
          }
        }
        i := i + 1;
      }
      r := Ok(es);
    }

    // unmarshal: the target must be a pointer to a variable, and the value must use up all of
    // the data.
    method Unmarshal(env: Env, t: TypeId, target: Value) returns (r: Result<Value>)
      requires Ranked(env) && UnicodeFold(env.fold) && off == 0
      modifies this`off
      ensures r == if !KindOf(env, t).KPtr? || !target.VPtr? then Err(InvalidTarget)
                   else
                     match TypedAt(env, KindOf(env, t).elem, target.p, data, 0)
                     case Got(v, end) => if end == |data| then Ok(VPtr(v)) else Err(UnexpectedEnd)
                     case Failed(f) => Err(f)
    {
      hide Ranked;
      if !KindOf(env, t).KPtr? || !target.VPtr? {
        return Err(InvalidTarget);
      }
      PtrRank(env, t);
      r := Value(env, t, target);
      if r.Ok? && off != |data| {
        r := Err(UnexpectedEnd);
      }
    }
  }
}
