// Concrete values that cannot be read back, and a run in which a response crosses: one input for
// every way in which the codec and the client fall short.
module Samples {
  import opened Bytes
  import opened Wire
  import opened Decode
  import opened Generic
  import opened Values
  import opened Fold
  import opened Typed
  import opened TypedTrip
  import opened Domain
  import opened Lossless
  import opened Embedding
  import opened WalkOrder
  import opened Dominance
  import opened Codec
  import opened Frames
  import opened Server
  import opened Pool

  // ---- Field lists of one field ---------------------------------------------------------------

  lemma {:induction false} OnlyRoot(env: Env, t: TypeId, d: FieldDecl, p: seq<nat>)
    requires KindOf(env, t) == KStruct([d]) && IsLeaf(env, d)
    ensures Walk(env, t, p).Some? <==> p == []
    decreases |p|
  {
    if p != [] {
      OnlyRoot(env, t, d, p[..|p| - 1]);
    }
  }

  // A struct with a single field has that field listed.
  lemma SingleField(env: Env, t: TypeId, d: FieldDecl)
    requires KindOf(env, t) == KStruct([d]) && IsLeaf(env, d)
    ensures IsFieldList(env, t, [LeafField(env, t, 0, [0])])
  {
    hide Walk, FirstPaths, Selection, Twice, IsLeaf, LeafField;
    var first: Paths := map[t := []];
    var f := LeafField(env, t, 0, [0]);
    RootPaths(env, t, d);
    LeafFromFirst(env, t, first, t, 0, []);
    assert [] + [0] == [0];
    forall s, i: nat | s in first && LeafAt(env, s, i)
      ensures multiset([f])[LeafField(env, s, i, first[s] + [i])] == if Twice(env, first, s) then 2 else 1
    {
      assert s == t && i == 0;
    }
    assert Collected(env, t, first, [f]);
    AloneSelected(f);
  }

  lemma RootPaths(env: Env, t: TypeId, d: FieldDecl)
    requires KindOf(env, t) == KStruct([d]) && IsLeaf(env, d)
    ensures FirstPaths(env, t, map[t := []]) && !Twice(env, map[t := []], t) && Walk(env, t, []) == Some(t)
  {
    hide LexLess, IsLeaf;
    forall p: seq<nat> ensures Walk(env, t, p).Some? <==> p == [] {
      OnlyRoot(env, t, d, p);
    }
  }

  // A field of a type under the type's path is collected from there.
  lemma LeafFromFirst(env: Env, t: TypeId, first: Paths, s: TypeId, i: nat, path: seq<nat>)
    requires s in first && first[s] == path && Walk(env, t, path) == Some(s) && LeafAt(env, s, i)
    ensures FromFirst(env, t, first, LeafField(env, s, i, path + [i]))
  {
    hide Walk, IsLeaf;
    assert Init(path + [i]) == path;
  }

  lemma AloneSelected(f: Field)
    ensures Selection([f], [f])
  {
    assert multiset([f])[f] == 1;
  }

  lemma {:induction false} RootAndInner(env: Env, t: TypeId, u: TypeId, d: FieldDecl, e: FieldDecl, p: seq<nat>)
    requires KindOf(env, t) == KStruct([d]) && IsEmbedded(env, d) && Strip(env, d.typ) == u
    requires KindOf(env, u) == KStruct([e]) && IsLeaf(env, e)
    ensures Walk(env, t, p) == if p == [] then Some(t) else if p == [0] then Some(u) else None
    decreases |p|
  {
    hide IsLeaf, IsEmbedded;
    if p != [] {
      var q, i := p[..|p| - 1], p[|p| - 1];
      assert p == q + [i];
      RootAndInner(env, t, u, d, e, q);
      WalkStep(env, t, q, i);
      LeafNotEmbedded(env, e);
      hide Walk;
      assert p == [0] <==> q == [] && i == 0;
    }
  }

  lemma LeafNotEmbedded(env: Env, d: FieldDecl)
    requires IsLeaf(env, d)
    ensures !IsEmbedded(env, d)
  {
  }

  // A struct that embeds one with a single field has the inner field listed.
  lemma InnerField(env: Env, t: TypeId, u: TypeId, d: FieldDecl, e: FieldDecl)
    requires KindOf(env, t) == KStruct([d]) && IsEmbedded(env, d) && Strip(env, d.typ) == u && u != t
    requires KindOf(env, u) == KStruct([e]) && IsLeaf(env, e)
    ensures IsFieldList(env, t, [LeafField(env, u, 0, [0, 0])])
  {
    hide Walk, FirstPaths, Selection, Twice, IsLeaf, LeafField;
    var first: Paths := map[t := [], u := [0]];
    var f := LeafField(env, u, 0, [0, 0]);
    InnerPaths(env, t, u, d, e);
    assert [0] + [0] == [0, 0];
    LeafFromFirst(env, t, first, u, 0, [0]);
    forall s, i: nat | s in first && LeafAt(env, s, i)
      ensures multiset([f])[LeafField(env, s, i, first[s] + [i])] == if Twice(env, first, s) then 2 else 1
    {
      assert s == u && i == 0;
    }
    assert Collected(env, t, first, [f]);
    AloneSelected(f);
  }

  lemma InnerPaths(env: Env, t: TypeId, u: TypeId, d: FieldDecl, e: FieldDecl)
    requires KindOf(env, t) == KStruct([d]) && IsEmbedded(env, d) && Strip(env, d.typ) == u && u != t
    requires KindOf(env, u) == KStruct([e]) && IsLeaf(env, e)
    ensures var first := map[t := [], u := [0]];
            && FirstPaths(env, t, first) && !Twice(env, first, u) && Walk(env, t, [0]) == Some(u)
  {
    hide IsLeaf, Walk;
    var first: Paths := map[t := [], u := [0]];
    forall p: seq<nat> ensures Walk(env, t, p) == if p == [] then Some(t) else if p == [0] then Some(u) else None {
      RootAndInner(env, t, u, d, e, p);
    }
    forall v, i, s | NextTo(env, first, v, i, s) ensures v == t && i == 0 && s == u {
    }
    assert NextTo(env, first, t, 0, u) && [] + [0] == [0];
    LexTotal([0], [0]);
    assert Continued(env, first, u) && Continued(env, first, t);
  }

  // ---- A program ------------------------------------------------------------------------------

  const A: bytes := ['A' as int]
  const INNER: bytes := ['I' as int]

  const INT: TypeId := 0
  const OPTIONAL: TypeId := 1      // struct { A int `omitempty` }
  const MAP_OF_INT: TypeId := 2    // map[string]int
  const STRUCT: TypeId := 3        // struct { A int }
  const PTR: TypeId := 4       // a pointer to it
  const EMBEDDING: TypeId := 5     // a struct that embeds the pointer
  const ANY: TypeId := 6           // interface{}
  const MAP_OF_ANY: TypeId := 7    // map[string]interface{}

  const PLAIN_A := FieldDecl(A, [], true, false, false, false, INT)
  const OPTIONAL_A := FieldDecl(A, [], true, false, true, false, INT)
  const EMBEDDED := FieldDecl(INNER, [], true, false, false, true, PTR)

  const KINDS := [KInt(W64), KStruct([OPTIONAL_A]), KMap(true, INT), KStruct([PLAIN_A]), KPtr(STRUCT),
                  KStruct([EMBEDDED]), KInterface, KMap(true, ANY)]
  const LISTS: seq<seq<Field>> :=
    [[], [Field(A, false, [0], true)], [], [Field(A, false, [0], false)], [], [Field(A, false, [0, 0], false)], [], []]
  const RANKS: seq<nat> := [0, 1, 0, 1, 2, 0, 0, 0]
  const PROGRAM := Env(KINDS, LISTS, RANKS, ToLower)

  lemma Types(t: TypeId)
    ensures KindOf(PROGRAM, INT) == KInt(W64) && KindOf(PROGRAM, OPTIONAL) == KStruct([OPTIONAL_A])
    ensures KindOf(PROGRAM, MAP_OF_INT) == KMap(true, INT) && KindOf(PROGRAM, STRUCT) == KStruct([PLAIN_A])
    ensures KindOf(PROGRAM, PTR) == KPtr(STRUCT) && KindOf(PROGRAM, EMBEDDING) == KStruct([EMBEDDED])
    ensures KindOf(PROGRAM, ANY) == KInterface && KindOf(PROGRAM, MAP_OF_ANY) == KMap(true, ANY)
    ensures t >= 8 ==> KindOf(PROGRAM, t) == KOther && FieldsOf(PROGRAM, t) == []
    ensures t in {INT, OPTIONAL, MAP_OF_INT, STRUCT, PTR, EMBEDDING, ANY, MAP_OF_ANY} || t >= 8
    ensures FieldsOf(PROGRAM, OPTIONAL) == [Field(A, false, [0], true)]
    ensures FieldsOf(PROGRAM, STRUCT) == [Field(A, false, [0], false)]
    ensures FieldsOf(PROGRAM, EMBEDDING) == [Field(A, false, [0, 0], false)]
    ensures t !in {OPTIONAL, STRUCT, EMBEDDING} ==> FieldsOf(PROGRAM, t) == []
  {
  }

  lemma IsProgram()
    ensures Program(PROGRAM)
  {
    hide KindOf, FieldsOf, IsFieldList, Collected, Selection;
    SampleRanked();
    forall t: TypeId ensures W32.Unsigned(|FieldsOf(PROGRAM, t)|) {
      Types(t);
    }
    forall t: TypeId, i | 0 <= i < |Decls(PROGRAM, t)| ensures Decls(PROGRAM, t)[i].name != [] {
      Types(t);
    }
    forall t: TypeId
      ensures if KindOf(PROGRAM, t).KStruct? then IsFieldList(PROGRAM, t, FieldsOf(PROGRAM, t))
              else FieldsOf(PROGRAM, t) == []
    {
      Types(t);
      if t == OPTIONAL {
        SingleField(PROGRAM, t, OPTIONAL_A);
      } else if t == STRUCT {
        SingleField(PROGRAM, t, PLAIN_A);
      } else if t == EMBEDDING {
        InnerField(PROGRAM, t, STRUCT, EMBEDDED, PLAIN_A);
      }
    }
  }

  lemma SampleRanked()
    ensures Ranked(PROGRAM)
  {
    hide KindOf;
    forall t: TypeId
      ensures match KindOf(PROGRAM, t)
              case KStruct(decls) =>
                forall i | 0 <= i < |decls| ::
                  IsNilable(PROGRAM, decls[i].typ) || Rank(PROGRAM, decls[i].typ) < Rank(PROGRAM, t)
              case KArray(_, e) => IsNilable(PROGRAM, e) || Rank(PROGRAM, e) < Rank(PROGRAM, t)
              case KPtr(e) => Rank(PROGRAM, e) < Rank(PROGRAM, t)
              case _ => true
    {
      Types(t);
    }
  }

  // ---- Values that cannot be read back ----------------------------------------------------------

  const ZERO_FIELD := VStruct([VInt(0)])
  const EMPTY_KEY := VMap([Entry([], VInt(1))])
  const BEHIND_PTR := VStruct([VPtr(VStruct([VInt(1)]))])
  const HOLDS_INT := VMap([Entry(A, VIface(INT, VInt(1)))])

  // Reading back what the value is encoded as fails, without a target type and with the value's own.
  ghost predicate Lost(t: TypeId, v: Value, it: Item)
    requires Ranked(PROGRAM)
  {
    && Lower(PROGRAM, t, v) == Some(it)
    && AnyAt(Enc([], it), 0).Failed?
    && TypedAt(PROGRAM, t, Zero(PROGRAM, t), Enc([], it), 0).Failed?
  }

  // Reading it back fails with the value's own type only.
  ghost predicate LostTyped(t: TypeId, v: Value, it: Item)
    requires Ranked(PROGRAM)
  {
    && Lower(PROGRAM, t, v) == Some(it)
    && AnyAt(Enc([], it), 0) == Got(Norm(it), |Enc([], it)|)
    && TypedAt(PROGRAM, t, Zero(PROGRAM, t), Enc([], it), 0).Failed?
  }

  lemma NotReadable(t: TypeId, v: Value, it: Item)
    requires Ranked(PROGRAM) && InDomain(PROGRAM, t, v) && Lower(PROGRAM, t, v) == Some(it)
    requires KeysFit([], it) && |Enc([], it)| < 0x100 && !Readable(PROGRAM, t, v)
    ensures Lost(t, v, it)
  {
    hide Program, InDomain, Lower, Enc, KeysFit, Readable, TypedAt, AnyAt, Zero, Ranked;
    IsProgram();
    ThereAndBack(PROGRAM, t, v);
  }

  lemma NotAccepted(t: TypeId, v: Value, it: Item)
    requires Ranked(PROGRAM) && InDomain(PROGRAM, t, v) && Lower(PROGRAM, t, v) == Some(it)
    requires KeysFit([], it) && |Enc([], it)| < 0x100
    requires Readable(PROGRAM, t, v) && !Accepts(PROGRAM, t, v)
    ensures LostTyped(t, v, it)
  {
    hide Program, InDomain, Lower, Enc, KeysFit, Readable, TypedAt, AnyAt, Zero, Ranked, Accepts;
    IsProgram();
    ThereAndBack(PROGRAM, t, v);
  }

  // Containers of one entry, and structs with one listed field.
  lemma OneEntry(env: Env, e: TypeId, x: Entry)
    ensures LowerEntries(env, e, [x]) == AsMember(x.key, Lower(env, e, x.val))
    ensures EntriesInDomain(env, e, [x]) == InDomain(env, e, x.val)
    ensures WholeEntries(env, e, [x]) == (Supported(env, e, x.val) && Whole(env, e, x.val))
    ensures KeyedEntries(env, e, [x]) == (Supported(env, e, x.val) ==> x.key != [] && Keyed(env, e, x.val))
    ensures AcceptsEntries(env, e, [x]) == Accepts(env, e, x.val)
  {
    hide Lower, InDomain, Supported, Whole, Keyed, Accepts;
    assert [x][1..] == [];
    assert LowerEntries(env, e, []) == [];
  }

  lemma OneField(env: Env, t: TypeId, v: Value, f: Field)
    ensures LowerFields(env, t, v, [f]) == LowerField(env, t, v, f)
    ensures WholeFields(env, t, v, [f]) == WholeField(env, t, v, f)
    ensures KeyedFields(env, t, v, [f]) == KeyedField(env, t, v, f)
    ensures AcceptsFields(env, t, v, [f]) ==> PathPlain(env, t, f.index)
  {
    hide LowerField, WholeField, KeyedField, PathPlain, Accepts;
    assert [f][1..] == [];
    assert LowerFields(env, t, v, []) == [];
  }

  lemma OneValue(env: Env, d: FieldDecl, v: Value)
    ensures FieldsInDomain(env, [d], [v]) == InDomain(env, d.typ, v)
  {
    hide InDomain;
    assert [d][1..] == [] && [v][1..] == [];
  }

  lemma EmptyObject()
    ensures KeysFit([], Object(1, [])) && |Enc([], Object(1, []))| == 10
  {
    hide LE;
  }

  lemma ObjectOfOne(key: bytes)
    requires |key| <= 1
    ensures var it := Object(1, [Member(key, Leaf(Int64(1)))]);
            KeysFit([], it) && |Enc([], it)| < 0x100
  {
    hide LE;
    var m := Member(key, Leaf(Int64(1)));
    assert [m][1..] == [];
    assert AllKeysFit([]) && KeysFit(key, m.item) && AllKeysFit([m]);
    assert EncAll([m]) == EncScalar(key, Int64(1)) + [];
  }

  // A field marked omitempty that holds zero: one member is announced and none is written.
  lemma ZeroFieldLost()
    ensures Ranked(PROGRAM) && Lost(OPTIONAL, ZERO_FIELD, Object(1, []))
  {
    hide KindOf, FieldsOf, Enc, KeysFit, Lost, Ranked;
    SampleRanked();
    Types(OPTIONAL);
    Types(INT);
    EmptyObject();
    OneZeroField();
    NotReadable(OPTIONAL, ZERO_FIELD, Object(1, []));
  }

  lemma OneZeroField()
    ensures Lower(PROGRAM, OPTIONAL, ZERO_FIELD) == Some(Object(1, []))
    ensures InDomain(PROGRAM, OPTIONAL, ZERO_FIELD) && !Readable(PROGRAM, OPTIONAL, ZERO_FIELD)
  {
    hide KindOf, FieldsOf;
    Types(OPTIONAL);
    Types(INT);
    hide LowerFields, FieldsInDomain, WholeFields, KeyedFields;
    var f := Field(A, false, [0], true);
    OneField(PROGRAM, OPTIONAL, ZERO_FIELD, f);
    OneValue(PROGRAM, OPTIONAL_A, VInt(0));
    assert [0][1..] == [] && FieldAt(ZERO_FIELD, [0]) == Some(VInt(0));
    assert InDomain(PROGRAM, INT, VInt(0));
  }

  // A map entry with an empty key.
  lemma EmptyKeyLost()
    ensures Ranked(PROGRAM) && Lost(MAP_OF_INT, EMPTY_KEY, Object(1, [Member([], Leaf(Int64(1)))]))
  {
    hide KindOf, FieldsOf, Enc, KeysFit, Lost, Ranked;
    SampleRanked();
    ObjectOfOne([]);
    OneEmptyKey();
    NotReadable(MAP_OF_INT, EMPTY_KEY, Object(1, [Member([], Leaf(Int64(1)))]));
  }

  lemma OneEmptyKey()
    ensures Lower(PROGRAM, MAP_OF_INT, EMPTY_KEY) == Some(Object(1, [Member([], Leaf(Int64(1)))]))
    ensures InDomain(PROGRAM, MAP_OF_INT, EMPTY_KEY) && !Readable(PROGRAM, MAP_OF_INT, EMPTY_KEY)
  {
    hide KindOf, FieldsOf;
    Types(MAP_OF_INT);
    Types(INT);
    hide LowerEntries, EntriesInDomain, WholeEntries, KeyedEntries;
    OneEntry(PROGRAM, INT, Entry([], VInt(1)));
    assert InDomain(PROGRAM, INT, VInt(1)) && Supported(PROGRAM, INT, VInt(1));
  }

  // A field behind an embedded pointer.
  lemma BehindPointerLost()
    ensures Ranked(PROGRAM) && LostTyped(EMBEDDING, BEHIND_PTR, Object(1, [Member(A, Leaf(Int64(1)))]))
  {
    hide KindOf, FieldsOf, Enc, KeysFit, LostTyped, Ranked;
    SampleRanked();
    ObjectOfOne(A);
    OneBehindPointer();
    NotAccepted(EMBEDDING, BEHIND_PTR, Object(1, [Member(A, Leaf(Int64(1)))]));
  }

  lemma OneBehindPointer()
    ensures Lower(PROGRAM, EMBEDDING, BEHIND_PTR) == Some(Object(1, [Member(A, Leaf(Int64(1)))]))
    ensures InDomain(PROGRAM, EMBEDDING, BEHIND_PTR) && Readable(PROGRAM, EMBEDDING, BEHIND_PTR)
    ensures !Accepts(PROGRAM, EMBEDDING, BEHIND_PTR)
  {
    hide KindOf, FieldsOf;
    Types(EMBEDDING);
    Types(PTR);
    Types(STRUCT);
    Types(INT);
    hide LowerFields, FieldsInDomain, WholeFields, KeyedFields, AcceptsFields;
    var v, f := BEHIND_PTR, Field(A, false, [0, 0], false);
    var inner := VStruct([VInt(1)]);
    OneField(PROGRAM, EMBEDDING, v, f);
    OneValue(PROGRAM, PLAIN_A, VInt(1));
    OneValue(PROGRAM, EMBEDDED, VPtr(inner));
    assert [0, 0][1..] == [0] && [0][1..] == [];
    assert FieldAt(VPtr(inner), [0]) == Some(VInt(1)) && FieldAt(v, [0, 0]) == Some(VInt(1));
    assert TypeAt(PROGRAM, PTR, [0]) == INT && TypeAt(PROGRAM, EMBEDDING, [0, 0]) == INT;
    assert InDomain(PROGRAM, INT, VInt(1)) && InDomain(PROGRAM, STRUCT, inner);
    assert InDomain(PROGRAM, PTR, VPtr(inner));
    assert WholeField(PROGRAM, EMBEDDING, v, f) && KeyedField(PROGRAM, EMBEDDING, v, f);
    assert !PathPlain(PROGRAM, PTR, [0]) && !PathPlain(PROGRAM, EMBEDDING, [0, 0]);
  }

  // An interface that holds an int.
  lemma HoldsIntLost()
    ensures Ranked(PROGRAM) && LostTyped(MAP_OF_ANY, HOLDS_INT, Object(1, [Member(A, Leaf(Int64(1)))]))
  {
    hide KindOf, FieldsOf, Enc, KeysFit, LostTyped, Ranked;
    SampleRanked();
    ObjectOfOne(A);
    OneHoldsInt();
    NotAccepted(MAP_OF_ANY, HOLDS_INT, Object(1, [Member(A, Leaf(Int64(1)))]));
  }

  lemma OneHoldsInt()
    ensures Lower(PROGRAM, MAP_OF_ANY, HOLDS_INT) == Some(Object(1, [Member(A, Leaf(Int64(1)))]))
    ensures InDomain(PROGRAM, MAP_OF_ANY, HOLDS_INT) && Readable(PROGRAM, MAP_OF_ANY, HOLDS_INT)
    ensures !Accepts(PROGRAM, MAP_OF_ANY, HOLDS_INT)
  {
    hide KindOf, FieldsOf;
    Types(MAP_OF_ANY);
    Types(ANY);
    Types(INT);
    hide LowerEntries, EntriesInDomain, WholeEntries, KeyedEntries, AcceptsEntries;
    var x := VIface(INT, VInt(1));
    OneEntry(PROGRAM, ANY, Entry(A, x));
    assert Lower(PROGRAM, INT, VInt(1)) == Some(Leaf(Int64(1))) && Lower(PROGRAM, ANY, x) == Some(Leaf(Int64(1)));
    assert InDomain(PROGRAM, INT, VInt(1)) && InDomain(PROGRAM, ANY, x);
    assert Supported(PROGRAM, ANY, x) && Whole(PROGRAM, ANY, x) && Keyed(PROGRAM, ANY, x);
    assert !GivesObject(PROGRAM, INT, VInt(1)) && !Accepts(PROGRAM, ANY, x);
  }

  // ---- A response that crosses --------------------------------------------------------------------

  const PROVIDER: bytes := [0, 0, 0, 0, 0, 0, 0, 0, 0, 0, 0, 0, 0, 0, 0, 0]
  const HEADER := Header(0, 1, 0, PROVIDER, HEADER_MAGICNUM, 0, 0)
  const REQUEST := Message(HEADER, [])

  // A server that answers every request with the number of the call, up to one.
  function Numbering(): Servers {
    cn => (k, h, body) => [WriteBody([if k == 0 then 0 else 1])]
  }

  // A server that sends every body back, and one that reads it and always sends the same.
  function Echoing(): Servers {
    cn => (k, h, body) => [WriteBody(body)]
  }

  function Ponging(): Servers {
    cn => (k, h, body) => [ReadBody(|body|), WriteBody([112, 111, 110, 103])]
  }

  // All three leave the header of the request alone.
  lemma HandlersOk()
    ensures HandlersFit(Numbering()) && HandlersFit(Echoing()) && HandlersFit(Ponging())
  {
    hide HandlersFit;
    HandlersFitIf(Numbering());
    HandlersFitIf(Ponging());
    assert forall q | WellFormed(q) :: W32.Unsigned(|q.body|);
    HandlersFitIf(Echoing());
  }

  lemma Numbered(k: nat)
    ensures ReplyTo(Numbering()(0), k, REQUEST) ==
            Some(Message(HEADER.(bodyLen := 1), [if k == 0 then 0 else 1]))
    ensures WellFormed(ReplyTo(Numbering()(0), k, REQUEST).value) && WellFormed(REQUEST)
  {
    var d: bytes := [if k == 0 then 0 else 1];
    assert Numbering()(0)(k, REQUEST.header, REQUEST.body) == [WriteBody(d)];
    assert ReplyMessage([WriteBody(d)], HEADER) == Some(Message(HEADER.(bodyLen := 1), d));
  }

  // The first caller has a new connection.
  ghost function Dialled(): State {
    Apply(Numbering(), START, Dial(0, 0, 0))
  }

  // The second caller's own request is call 1 on the connection; what it gets is the reply to call 0.
  lemma SecondGetsFirst() returns (s: State, n: nat)
    ensures var s1 := Dialled();
            && Enabled(Numbering(), s1, NilBody(0, HEADER))
            && ExecFrom(Numbering(), Apply(Numbering(), s1, NilBody(0, HEADER)), [Take(1, 0)]) == Some(s)
    ensures var last := ExecFrom(Numbering(), s, NextDo(1, REQUEST, 0, n));
            && last.Some? && 1 in last.value.callers
            && last.value.callers[1] == Answered(0, REQUEST, Message(HEADER.(bodyLen := 1), [0]))
            && Crossed(Numbering(), last.value, 1)
    ensures ReplyTo(Numbering()(0), 1, REQUEST) == Some(Message(HEADER.(bodyLen := 1), [1]))
  {
    hide ReplyTo, WellFormed, Numbering, Owned, ExecFrom, LeavesAlone, Stained, LinkInSync, Crossed;
    var servers := Numbering();
    Numbered(0);
    Numbered(1);
    StartInSync(servers, false);
    OwnedDial(servers, START, 0, 0, 0);
    var s1 := Dialled();
    NewInSync(servers(0), 0);
    var s2 := Apply(servers, s1, NilBody(0, HEADER));
    NilBodyStains(servers, s1, 0, HEADER);
    TakeAlone(servers, s2, 1, 0, 0);
    s := Apply(servers, s2, Take(1, 0));
    n := NilBodyCrosses(servers, s1, 0, HEADER, [Take(1, 0)], s, 1, REQUEST);
  }

  lemma NewInSync(handler: Handler, a: Addr)
    ensures LinkInSync(handler, Link(a, [], [], [], 0, 0), false)
  {
  }

  // ---- An exchange ----------------------------------------------------------------------------------

  const ASKED := Message(Header(0, 0, 7, PROVIDER, HEADER_MAGICNUM, 0, 2), [1, 2])
  const PONG: bytes := [112, 111, 110, 103]
  const PONGED := Message(Header(0, 0, 7, PROVIDER, HEADER_MAGICNUM, 0, 4), PONG)

  lemma PongReplies(k: nat)
    ensures ReplyTo(Ponging()(0), k, ASKED) == Some(PONGED) && WellFormed(ASKED) && WellFormed(PONGED)
  {
    var acts := Ponging()(0)(k, ASKED.header, ASKED.body);
    assert acts == [ReadBody(2), WriteBody(PONG)] && acts[1..] == [WriteBody(PONG)];
    assert ReplyMessage([WriteBody(PONG)], ASKED.header.(bodyLen := 0)) == Some(PONGED);
  }

  // What a caller does that dials, sends a request, and reads the response of n bytes; then the next
  // caller takes the connection.
  function Exchange(n: nat): seq<Step> {
    [Dial(0, 0, 0), Send(0, ASKED), Arrive(0, n), Receive(0), Release(0), Take(1, 0)]
  }

  // The response carries the log id of the request, and the connection is used again.
  lemma ExchangeRuns() returns (n: nat)
    ensures var s := ExecFrom(Ponging(), START, Exchange(n)[..4]);
            s.Some? && 0 in s.value.callers && s.value.callers[0] == Answered(0, ASKED, PONGED)
    ensures var s := ExecFrom(Ponging(), START, Exchange(n));
            s.Some? && 0 !in s.value.callers && 1 in s.value.callers && s.value.callers[1] == Holding(0)
  {
    hide WellFormed, ReplyTo, Served, ResponseAt, ExecFrom, FrameBytes, Ponging, Reply, HeaderOk;
    var servers := Ponging();
    n := |FrameBytes(PONGED)|;
    PongReplies(0);
    OnlyReply(servers(0));
    var run := Exchange(n);
    RunStarts(servers, START, run);
    var s1 := RunOn(servers, START, run, 0, START);
    var s2 := RunOn(servers, START, run, 1, s1);
    var s3 := RunOn(servers, START, run, 2, s2);
    assert s3.links[0] == SendOn(Link(0, [], [], [], 0, 0), ASKED).(arrived := n);
    assert FrameBytes(PONGED)[..n] == FrameBytes(PONGED);
    var s4 := RunOn(servers, START, run, 3, s3);
    HandedOver(servers, n, s4);
  }

  lemma HandedOver(servers: Servers, n: nat, s4: State)
    requires ExecFrom(servers, START, Exchange(n)[..4]) == Some(s4)
    requires s4.callers == map[0 := Answered(0, ASKED, PONGED)] && s4.free == map[]
    requires 0 in s4.links && s4.links[0].addr == 0
    ensures var s := ExecFrom(servers, START, Exchange(n));
            s.Some? && 0 !in s.value.callers && 1 in s.value.callers && s.value.callers[1] == Holding(0)
  {
    hide WellFormed, ResponseAt, ExecFrom, FrameBytes, HeaderOk, ServerOutput;
    var run := Exchange(n);
    var s5 := RunOn(servers, START, run, 4, s4);
    var s6 := RunOn(servers, START, run, 5, s5);
    assert run[..6] == run;
  }

  // The output for one request is its reply, which can be read.
  lemma OnlyReply(handler: Handler)
    requires ReplyTo(handler, 0, ASKED) == Some(PONGED) && WellFormed(ASKED) && WellFormed(PONGED)
    ensures var l := SendOn(Link(0, [], [], [], 0, 0), ASKED);
            && Output(handler, l.written) == FrameBytes(PONGED)
            && ResponseAt(FrameBytes(PONGED), 0) == Some((PONGED, |FrameBytes(PONGED)|))
  {
    hide WellFormed, ReplyTo, Served, ResponseAt, FrameBytes, Reply, At;
    OutputOfFrames(handler, [ASKED]);
    OneSent(ASKED);
    ReplyIsMessage(handler, 0, ASKED);
    assert [ASKED][1..] == [] && Replies(handler, 0, [ASKED]) == Reply(handler, 0, ASKED) + [];
    AtStart(FrameBytes(PONGED));
    ResponseRoundTrip(FrameBytes(PONGED), 0, PONGED);
    assert [] + Sent([]) + FrameBytes(ASKED) == FrameBytes(ASKED);
  }
}
