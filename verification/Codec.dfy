// The codec as a whole, for Go values: exactly when what Marshal writes can be read back, and with
// what result.
module Codec {
  import opened Bytes
  import opened Wire
  import opened Decode
  import opened Generic
  import opened Values
  import opened Typed
  import opened TypedTrip
  import opened TypedIff
  import opened Domain
  import opened Lossless
  import opened Encoder
  import opened Embedding
  import opened Dominance

  // The types of a program, with the field lists that typeFields computes for them.
  ghost predicate Program(env: Env) {
    && Ranked(env)
    && FewFields(env)
    && (forall t: TypeId, i | 0 <= i < |Decls(env, t)| :: Decls(env, t)[i].name != [])
    && (forall t: TypeId ::
          if KindOf(env, t).KStruct? then IsFieldList(env, t, FieldsOf(env, t)) else FieldsOf(env, t) == [])
  }

  lemma ProgramFields(env: Env)
    requires Program(env)
    ensures AllResolved(env) && FieldsNamed(env)
  {
    hide Ranked, IsFieldList, Resolved, FewFields;
    forall t: TypeId ensures Resolved(FieldsOf(env, t)) {
      if KindOf(env, t).KStruct? { FieldListResolved(env, t, FieldsOf(env, t)); } else { NoneResolved(); }
    }
    forall t, f | f in FieldsOf(env, t) ensures f.name != [] {
      FieldListNamed(env, t, FieldsOf(env, t));
    }
  }

  lemma NoneResolved()
    ensures Resolved([])
  {
  }

  // The argument can be written: no key is too long, and lengths fit in 32 bits.
  predicate Writable(env: Env, t: TypeId, v: Value) {
    var it := Lower(env, t, v);
    it.Some? && KeysFit([], it.value) && W32.Unsigned(|Enc([], it.value)|)
  }

  // What can be read back without a target type: all that is announced is written, under a key.
  predicate Readable(env: Env, t: TypeId, v: Value) {
    Whole(env, t, v) && Keyed(env, t, v)
  }

  lemma ReadableIff(env: Env, t: TypeId, v: Value)
    requires Program(env) && InDomain(env, t, v) && Lower(env, t, v).Some?
    ensures var it := Lower(env, t, v).value; Complete(it) && Named(it) <==> Readable(env, t, v)
  {
    hide Program, InDomain, Complete, Named, Lower, Whole, Keyed, FieldsNamed, AllResolved;
    ProgramFields(env);
    WholeIff(env, t, v);
    KeyedIff(env, t, v);
  }

  // Unmarshalling what was marshalled succeeds without a target type if and only if every announced
  // member was written and has a key, and into a fresh variable of the value's type if and only if
  // the variable can also take the value back. It then gives the value's normal form. Skipping the
  // output works in any case. All end at the end of the data.
  lemma ThereAndBack(env: Env, t: TypeId, v: Value)
    requires Program(env) && InDomain(env, t, v) && Writable(env, t, v)
    ensures Argument(env, VIface(t, v)) == Lower(env, t, v)
    ensures var it := Lower(env, t, v).value;
            var data := Enc([], it);
            && (if Readable(env, t, v) then AnyAt(data, 0) == Got(Norm(it), |data|) else AnyAt(data, 0).Failed?)
            && (if Readable(env, t, v) && Accepts(env, t, v)
                then TypedAt(env, t, Zero(env, t), data, 0) == Got(NormV(env, t, v), |data|)
                else TypedAt(env, t, Zero(env, t), data, 0).Failed?)
            && Skip(data, 0) == Got(data, |data|)
  {
    hide Program, Complete, Named, Lower, Readable, AllResolved, FieldsNamed, InDomain, Enc, At, TypedAt, AnyAt, Skip,
         NormV, Norm, Zero, SizesFit, KeysFit, FewFields, Ranked, Accepts;
    ProgramParts(env);
    ProgramFields(env);
    InDomainFits(env, t, v, []);
    ReadableIff(env, t, v);
    var it := Lower(env, t, v).value;
    TypedDecodesIff(env, t, v, []);
    DecodesIff([], it);
    AtStart(Enc([], it));
    SkipRoundTrip(Enc([], it), 0, [], it);
  }

  lemma ProgramParts(env: Env)
    requires Program(env)
    ensures Ranked(env) && FewFields(env)
  {
  }
}
