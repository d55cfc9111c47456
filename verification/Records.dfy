// Concrete struct types, in literal bytes: a tagged 32-bit field, a key in another case, and fields
// that are embedded ambiguously.
module Records {
  import opened Bytes
  import opened Wire
  import opened Decode
  import opened Values
  import opened Fold
  import opened Typed
  import opened Lookup
  import opened Encoder
  import opened Embedding
  import opened Dominance
  import opened Listing
  import opened Vectors

  // ---- A struct with a tagged field -----------------------------------------------------------------

  const INT: TypeId := 0
  const INT32_TYPE: TypeId := 1
  const RECORD: TypeId := 2  // struct { A int32 `b`; C int; D int `-`; e int }

  const NAME_B: bytes := ['b' as int]
  const NAME_C: bytes := ['C' as int]
  const RECORD_DECLS := [
    FieldDecl(['A' as int], NAME_B, true, false, false, false, INT32_TYPE),
    FieldDecl(NAME_C, [], true, false, false, false, INT),
    FieldDecl(['D' as int], [], true, true, false, false, INT),
    FieldDecl(['e' as int], [], false, false, false, false, INT)]
  const RECORD_LIST: seq<Field> := [Field(NAME_B, true, [0], false), Field(NAME_C, false, [1], false)]
  const RECORDS := Env([KInt(W64), KInt(W32), KStruct(RECORD_DECLS)], [[], [], RECORD_LIST], [0, 0, 1], ToLower)

  lemma RecordPaths(p: Path)
    ensures Promoted(RECORDS, RECORD, p) <==> p == [0] || p == [1]
    ensures Promoted(RECORDS, RECORD, p) ==> FieldFor(RECORDS, RECORD, p) == RECORD_LIST[p[0]]
  {
    assert KindOf(RECORDS, RECORD) == KStruct(RECORD_DECLS);
    if p[0] < 4 {
      assert !Opens(RECORDS, RECORD_DECLS[p[0]]);
      assert |p| == 1 ==> p == [p[0]];
    }
  }

  // The tagged field is listed under its tag, ignored and unexported ones are not listed.
  lemma RecordListed(r: seq<Field>)
    requires IsFieldList(RECORDS, RECORD, r)
    ensures r == RECORD_LIST
  {
    hide IsFieldList, Promoted, FieldFor;
    ListedIff(RECORDS, RECORD, r);
    RecordPaths([0]);
    RecordPaths([1]);
    forall f ensures f in r <==> f in RECORD_LIST {
      RecordPaths(f.index);
      if f in RECORD_LIST {
        forall q: Path | Promoted(RECORDS, RECORD, q) ensures q == f.index || FieldFor(RECORDS, RECORD, q) != f {
          RecordPaths(q);
        }
        RecordStands(f.index);
      }
    }
    SameOrder(r, RECORD_LIST);
  }

  lemma RecordStands(p: Path)
    requires p == [0] || p == [1]
    ensures Stands(RECORDS, RECORD, p)
  {
    hide Promoted;
    RecordPaths(p);
    forall q: Path | Promoted(RECORDS, RECORD, q) && q != p
      ensures NameAt(RECORDS, RECORD, q) != NameAt(RECORDS, RECORD, p)
    {
      RecordPaths(q);
      assert FieldFor(RECORDS, RECORD, q).name != FieldFor(RECORDS, RECORD, p).name;
    }
  }

  // The 32-bit field takes four bytes under its tag's name, the 64-bit one eight.
  lemma RecordBytes()
    ensures MarshalOf(RECORDS, VIface(RECORD, VStruct([VInt(5), VInt(-2), VInt(9), VInt(9)]))) ==
            Output([0x10, 0, 24, 0, 0, 0, 2, 0, 0, 0]
                   + ([0x14, 2, 'b' as int, 0, 5, 0, 0, 0]
                      + [0x18, 2, 'C' as int, 0, 0xfe, 0xff, 0xff, 0xff, 0xff, 0xff, 0xff, 0xff]))
  {
    hide Enc, Lower;
    var b, c := Member(NAME_B, Leaf(Int32(5))), Member(NAME_C, Leaf(Int64(-2)));
    RecordLowered();
    Int32Bytes('b' as int, 5, 0, 0, 0);
    Int64Bytes('C' as int, 0xfe, 0xff, 0xff, 0xff, 0xff, 0xff, 0xff, 0xff);
    MembersBytes(b, c, c);
    SmallObject(2, [b, c]);
    assert [b, c][1..] == [c] && [c][1..] == [];
    assert KeysFit([], Object(2, [b, c])) by {
      assert AllKeysFit([]) && AllKeysFit([c]) && AllKeysFit([b, c]);
    }
  }

  lemma RecordLowered()
    ensures Lower(RECORDS, RECORD, VStruct([VInt(5), VInt(-2), VInt(9), VInt(9)])) ==
            Some(Object(2, [Member(NAME_B, Leaf(Int32(5))), Member(NAME_C, Leaf(Int64(-2)))]))
  {
    var v := VStruct([VInt(5), VInt(-2), VInt(9), VInt(9)]);
    assert KindOf(RECORDS, RECORD) == KStruct(RECORD_DECLS) && FieldsOf(RECORDS, RECORD) == RECORD_LIST;
    assert [0][1..] == [] && [1][1..] == [];
    assert FieldAt(v, [0]) == Some(VInt(5)) && FieldAt(v, [1]) == Some(VInt(-2));
    assert TypeAt(RECORDS, RECORD, [0]) == INT32_TYPE && TypeAt(RECORDS, RECORD, [1]) == INT;
    assert RECORD_LIST[1..] == [RECORD_LIST[1]] && RECORD_LIST[1..][1..] == [];
    assert LowerFields(RECORDS, RECORD, v, []) == [];
    assert LowerField(RECORDS, RECORD, v, RECORD_LIST[0]) == [Member(NAME_B, Leaf(Int32(5)))];
    assert LowerField(RECORDS, RECORD, v, RECORD_LIST[1]) == [Member(NAME_C, Leaf(Int64(-2)))];
    assert LowerFields(RECORDS, RECORD, v, RECORD_LIST[1..]) == [Member(NAME_C, Leaf(Int64(-2)))] + [];
    hide LowerField;
    assert LowerFields(RECORDS, RECORD, v, RECORD_LIST) ==
           [Member(NAME_B, Leaf(Int32(5)))] + [Member(NAME_C, Leaf(Int64(-2)))]
           == [Member(NAME_B, Leaf(Int32(5))), Member(NAME_C, Leaf(Int64(-2)))];
  }

  // ---- A key in another case ---------------------------------------------------------------------------

  lemma RecordRanked()
    ensures Ranked(RECORDS)
  {
  }

  // The key "c" finds the field "C"; the key "A", which is no field's name but the declared one of a
  // tagged field, finds none and is skipped.
  lemma OtherCase()
    ensures var data := [0x10, 0, 16, 0, 0, 0, 1, 0, 0, 0] + [0x18, 2, 'c' as int, 0, 7, 0, 0, 0, 0, 0, 0, 0];
            Ranked(RECORDS) &&
            TypedAt(RECORDS, RECORD, VStruct([VInt(1), VInt(2), VInt(3), VInt(4)]), data, 0) ==
            Got(VStruct([VInt(1), VInt(7), VInt(3), VInt(4)]), 22)
    ensures GoesNowhere(RECORDS, RECORD_LIST, ['A' as int])
  {
    hide *;
    RecordRanked();
    OtherKeys();
    var m, cur := Member(['c' as int], Leaf(Int64(7))), VStruct([VInt(1), VInt(2), VInt(3), VInt(4)]);
    var data := OtherCaseBytes(m);
    StoredInto();
    OneMemberDecodes(RECORDS, RECORD, cur, data, 0, [], m, 1);
  }

  lemma OtherCaseBytes(m: Member) returns (data: bytes)
    requires m == Member(['c' as int], Leaf(Int64(7)))
    ensures data == [0x10, 0, 16, 0, 0, 0, 1, 0, 0, 0] + [0x18, 2, 'c' as int, 0, 7, 0, 0, 0, 0, 0, 0, 0]
    ensures var it := Object(1, [m]);
            data == Enc([], it) && At(data, 0, data) && Fits([], it) && Complete(it) && Named(it)
  {
    hide *;
    data := [0x10, 0, 16, 0, 0, 0, 1, 0, 0, 0] + [0x18, 2, 'c' as int, 0, 7, 0, 0, 0, 0, 0, 0, 0];
    SmallInt64('c' as int, 7);
    OneMemberBytes(m);
    SmallObject(1, [m]);
    OneGood(m);
    AtStart(data);
  }

  lemma OtherKeys()
    ensures GoesTo(RECORDS, FieldsOf(RECORDS, RECORD), ['c' as int], 1)
    ensures GoesNowhere(RECORDS, RECORD_LIST, ['A' as int])
  {
    hide EqualFold, UnicodeFold;
    ToLowerFolds();
    AsciiFolding(ToLower, NAME_B, ['c' as int]);
    AsciiFolding(ToLower, NAME_C, ['c' as int]);
    AsciiFolding(ToLower, NAME_B, ['A' as int]);
    AsciiFolding(ToLower, NAME_C, ['A' as int]);
    assert NAME_B[0] == 'b' as int && NAME_C[0] == 'C' as int && ['c' as int][0] == 'c' as int;
    assert FieldsOf(RECORDS, RECORD) == RECORD_LIST;
  }

  lemma OneMemberBytes(m: Member)
    ensures EncAll([m]) == Enc(m.key, m.item)
  {
    hide Enc;
    assert [m][1..] == [] && EncAll([m]) == Enc(m.key, m.item) + [];
  }

  lemma OneGood(m: Member)
    requires m.key == ['c' as int] && m.item == Leaf(Int64(7)) && |Enc(m.key, m.item)| == 12
    ensures var it := Object(1, [m]); Fits([], it) && Complete(it) && Named(it)
  {
    hide Enc;
    OneMemberBytes(m);
    assert [m][1..] == [];
    assert AllKeysFit([]) && AllKeysFit([m]) && AllSizesFit([]) && AllSizesFit([m]);
    assert Complete(m.item) && Named(m.item) && AllComplete([]) && AllNamed([], true);
    assert AllComplete([m]) && AllNamed([m], true);
  }

  lemma StoredInto()
    requires Ranked(RECORDS)
    ensures var cur := VStruct([VInt(1), VInt(2), VInt(3), VInt(4)]);
            && FieldsOf(RECORDS, RECORD)[1].index == [1] && KindOf(RECORDS, RECORD).KStruct?
            && FieldAt(cur, [1]) == Some(VInt(2)) && TypeAt(RECORDS, RECORD, [1]) == INT
            && Into(RECORDS, INT, VInt(2), Leaf(Int64(7))) == Some(VInt(7))
            && SetAt(cur, [1], VInt(7)) == VStruct([VInt(1), VInt(7), VInt(3), VInt(4)])
  {
    assert [1][1..] == [];
    assert KindOf(RECORDS, INT) == KInt(W64);
  }

  // ---- Fields that are embedded twice -------------------------------------------------------------------

  const X: bytes := ['X' as int]
  const LEAF_TYPE: TypeId := 1   // struct { X int }
  const MIDDLE: TypeId := 2      // struct { LEAF_TYPE }
  const LEFT: TypeId := 3        // struct { MIDDLE }
  const RIGHT: TypeId := 4       // struct { MIDDLE }
  const DIAMOND: TypeId := 5     // struct { LEFT; RIGHT }
  const PAIR: TypeId := 6        // struct { MIDDLE; OTHER_MIDDLE }
  const OTHER_MIDDLE: TypeId := 7  // struct { LEAF_TYPE }

  function Embed(u: TypeId): FieldDecl {
    FieldDecl(['E' as int], [], true, false, false, true, u)
  }

  const EMBEDDINGS := Env(
    [KInt(W64), KStruct([FieldDecl(X, [], true, false, false, false, INT)]), KStruct([Embed(LEAF_TYPE)]),
     KStruct([Embed(MIDDLE)]), KStruct([Embed(MIDDLE)]), KStruct([Embed(LEFT), Embed(RIGHT)]),
     KStruct([Embed(MIDDLE), Embed(OTHER_MIDDLE)]), KStruct([Embed(LEAF_TYPE)])],
    [], [], ToLower)

  // Through a struct that embeds one other.
  lemma ThroughOne(t: TypeId, u: TypeId, p: Path)
    requires KindOf(EMBEDDINGS, t) == KStruct([Embed(u)]) && KindOf(EMBEDDINGS, u).KStruct?
    ensures Promoted(EMBEDDINGS, t, p) <==> |p| > 1 && p[0] == 0 && Promoted(EMBEDDINGS, u, p[1..])
    ensures Promoted(EMBEDDINGS, t, p) ==> DeclAt(EMBEDDINGS, t, p) == DeclAt(EMBEDDINGS, u, p[1..])
  {
  }

  lemma ThroughTwo(t: TypeId, u: TypeId, w: TypeId, p: Path)
    requires KindOf(EMBEDDINGS, t) == KStruct([Embed(u), Embed(w)])
    requires KindOf(EMBEDDINGS, u).KStruct? && KindOf(EMBEDDINGS, w).KStruct?
    ensures Promoted(EMBEDDINGS, t, p) <==>
            |p| > 1 && p[0] < 2 && Promoted(EMBEDDINGS, if p[0] == 0 then u else w, p[1..])
    ensures Promoted(EMBEDDINGS, t, p) ==>
              DeclAt(EMBEDDINGS, t, p) == DeclAt(EMBEDDINGS, if p[0] == 0 then u else w, p[1..])
  {
  }

  lemma LeafPaths(p: Path)
    ensures Promoted(EMBEDDINGS, LEAF_TYPE, p) <==> p == [0]
    ensures Promoted(EMBEDDINGS, LEAF_TYPE, p) ==>
              DeclAt(EMBEDDINGS, LEAF_TYPE, p) == FieldDecl(X, [], true, false, false, false, INT)
  {
    var d := FieldDecl(X, [], true, false, false, false, INT);
    assert KindOf(EMBEDDINGS, LEAF_TYPE) == KStruct([d]);
    assert !Opens(EMBEDDINGS, d);
    assert |p| == 1 ==> p == [p[0]];
  }

  lemma MiddlePaths(t: TypeId, p: Path)
    requires t == MIDDLE || t == OTHER_MIDDLE
    ensures Promoted(EMBEDDINGS, t, p) <==> p == [0, 0]
    ensures Promoted(EMBEDDINGS, t, p) ==>
              DeclAt(EMBEDDINGS, t, p) == FieldDecl(X, [], true, false, false, false, INT)
  {
    hide Promoted, DeclAt;
    ThroughOne(t, LEAF_TYPE, p);
    if |p| > 1 {
      LeafPaths(p[1..]);
      assert p == [p[0]] + p[1..];
    }
  }

  lemma SidePaths(t: TypeId, p: Path)
    requires t == LEFT || t == RIGHT
    ensures Promoted(EMBEDDINGS, t, p) <==> p == [0, 0, 0]
    ensures Promoted(EMBEDDINGS, t, p) ==>
              DeclAt(EMBEDDINGS, t, p) == FieldDecl(X, [], true, false, false, false, INT)
  {
    hide Promoted, DeclAt;
    ThroughOne(t, MIDDLE, p);
    if |p| > 1 {
      MiddlePaths(MIDDLE, p[1..]);
      assert p == [p[0]] + p[1..];
    }
  }

  lemma DiamondPaths(p: Path)
    ensures Promoted(EMBEDDINGS, DIAMOND, p) <==> p == [0, 0, 0, 0] || p == [1, 0, 0, 0]
    ensures Promoted(EMBEDDINGS, DIAMOND, p) ==>
              DeclAt(EMBEDDINGS, DIAMOND, p) == FieldDecl(X, [], true, false, false, false, INT)
    ensures Promoted(EMBEDDINGS, PAIR, p) <==> p == [0, 0, 0] || p == [1, 0, 0]
    ensures Promoted(EMBEDDINGS, PAIR, p) ==>
              DeclAt(EMBEDDINGS, PAIR, p) == FieldDecl(X, [], true, false, false, false, INT)
  {
    hide Promoted, DeclAt;
    ThroughTwo(DIAMOND, LEFT, RIGHT, p);
    ThroughTwo(PAIR, MIDDLE, OTHER_MIDDLE, p);
    if |p| > 1 {
      SidePaths(LEFT, p[1..]);
      SidePaths(RIGHT, p[1..]);
      MiddlePaths(MIDDLE, p[1..]);
      MiddlePaths(OTHER_MIDDLE, p[1..]);
      assert p == [p[0]] + p[1..];
    }
  }

  // Two ways lead to X at the same depth, so the Go language calls x.X ambiguous. Where the two ways part
  // right above the struct that declares X, no field is listed; where they part further above, the walk
  // enters that struct once, and lists the earlier of the two.
  lemma AmbiguousListed(r: seq<Field>, r': seq<Field>)
    requires IsFieldList(EMBEDDINGS, DIAMOND, r) && IsFieldList(EMBEDDINGS, PAIR, r')
    ensures r == [Field(X, false, [0, 0, 0, 0], false)] && r' == []
  {
    hide IsFieldList, Promoted, DeclAt, GivesWay;
    ListedIff(EMBEDDINGS, DIAMOND, r);
    ListedIff(EMBEDDINGS, PAIR, r');
    DiamondStands();
    var only := Field(X, false, [0, 0, 0, 0], false);
    forall f ensures f in r <==> f in [only] {
      DiamondPaths(f.index);
    }
    forall f ensures f !in r' {
      DiamondPaths(f.index);
    }
    SameOrder(r, [only]);
    SameOrder(r', []);
  }

  lemma DiamondStands()
    ensures Stands(EMBEDDINGS, DIAMOND, [0, 0, 0, 0]) && !Stands(EMBEDDINGS, DIAMOND, [1, 0, 0, 0])
    ensures !Stands(EMBEDDINGS, PAIR, [0, 0, 0]) && !Stands(EMBEDDINGS, PAIR, [1, 0, 0])
  {
    hide Promoted, DeclAt, TypeBehind;
    var p, q: Path := [0, 0, 0, 0], [1, 0, 0, 0];
    var x, y: Path := [0, 0, 0], [1, 0, 0];
    DiamondPaths(p);
    DiamondPaths(q);
    DiamondPaths(x);
    DiamondPaths(y);
    Behinds();
    assert p[2..] == [0, 0] == q[2..] && p[..2] == [0, 0] && q[..2] == [1, 0];
    assert x[..1] == [0] && y[..1] == [1];
    assert LexLess(p, q) && !LexLess(q, p);
    assert GivesWay(EMBEDDINGS, DIAMOND, q, p) && !GivesWay(EMBEDDINGS, DIAMOND, p, q);
    assert !GivesWay(EMBEDDINGS, PAIR, x, y) && !GivesWay(EMBEDDINGS, PAIR, y, x);
    forall o: Path | Promoted(EMBEDDINGS, DIAMOND, o) && o != p ensures o == q {
      DiamondPaths(o);
    }
  }

  lemma Behinds()
    ensures TypeBehind(EMBEDDINGS, DIAMOND, [0, 0]) == TypeBehind(EMBEDDINGS, DIAMOND, [1, 0]) == MIDDLE
    ensures TypeBehind(EMBEDDINGS, PAIR, [0]) == MIDDLE && TypeBehind(EMBEDDINGS, PAIR, [1]) == OTHER_MIDDLE
  {
    assert [0, 0][1..] == [0] && [1, 0][1..] == [0] && [0][1..] == [] && [1][1..] == [];
    assert TypeBehind(EMBEDDINGS, LEFT, [0]) == MIDDLE && TypeBehind(EMBEDDINGS, RIGHT, [0]) == MIDDLE;
  }
}
