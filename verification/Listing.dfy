// Which fields a struct type's list holds, in terms of its declarations alone: the walk, its queues
// and the compaction amount to one rule about paths (typeFields in mcpack/encode.go).
module Listing {
  import opened Bytes
  import opened Values
  import opened Embedding
  import opened WalkOrder
  import opened Dominance

  // ---- Declarations at the end of a path --------------------------------------------------------

  // The type behind an embedded field: a struct, or what a pointer points to.
  function Target(env: Env, u: TypeId): TypeId {
    if KindOf(env, u).KPtr? then KindOf(env, u).elem else u
  }

  // The declaration's own fields are promoted: it is embedded, and no name is given to it.
  predicate Opens(env: Env, d: FieldDecl) {
    d.exported && !d.ignored && d.anonymous && d.tagName == [] && KindOf(env, Target(env, d.typ)).KStruct?
  }

  // The path leads through such declarations to one that is exported, not ignored and not such.
  predicate Promoted(env: Env, t: TypeId, path: Path)
    decreases |path|
  {
    && KindOf(env, t).KStruct? && path[0] < |KindOf(env, t).decls|
    && var d := KindOf(env, t).decls[path[0]];
       if |path| == 1 then d.exported && !d.ignored && !Opens(env, d)
       else Opens(env, d) && Promoted(env, Target(env, d.typ), path[1..])
  }

  function DeclAt(env: Env, t: TypeId, path: Path): FieldDecl
    requires Promoted(env, t, path)
    decreases |path|
  {
    var d := KindOf(env, t).decls[path[0]];
    if |path| == 1 then d else DeclAt(env, Target(env, d.typ), path[1..])
  }

  // The tag's name, else the declared one.
  function NameAt(env: Env, t: TypeId, path: Path): bytes
    requires Promoted(env, t, path)
  {
    var d := DeclAt(env, t, path);
    if d.tagName != [] then d.tagName else d.name
  }

  predicate TaggedAt(env: Env, t: TypeId, path: Path)
    requires Promoted(env, t, path)
  {
    DeclAt(env, t, path).tagName != []
  }

  // The struct type in which the embedding path ends.
  function TypeBehind(env: Env, t: TypeId, path: seq<nat>): TypeId
    decreases |path|
  {
    if path == [] || !KindOf(env, t).KStruct? || path[0] >= |KindOf(env, t).decls| then t
    else TypeBehind(env, Target(env, KindOf(env, t).decls[path[0]].typ), path[1..])
  }

  // ---- The rule -----------------------------------------------------------------------------------

  // The path q gives way to p, which has the same name: it is longer; or p has a tag and q has none;
  // or p is earlier, and both enter the struct they end in by the same declaration of the same type.
  predicate GivesWay(env: Env, t: TypeId, q: Path, p: Path)
    requires Promoted(env, t, q) && Promoted(env, t, p)
  {
    || |q| > |p|
    || (|q| == |p| && TaggedAt(env, t, p) && !TaggedAt(env, t, q))
    || (|q| == |p| && LexLess(p, q) && SameEntry(env, t, q, p))
  }

  predicate SameEntry(env: Env, t: TypeId, q: Path, p: Path)
    requires |q| == |p|
  {
    |p| >= 2 && q[|p| - 2..] == p[|p| - 2..] &&
    TypeBehind(env, t, q[..|p| - 2]) == TypeBehind(env, t, p[..|p| - 2])
  }

  ghost predicate Stands(env: Env, t: TypeId, p: Path) {
    Promoted(env, t, p) &&
    forall q: Path | Promoted(env, t, q) && q != p && NameAt(env, t, q) == NameAt(env, t, p) :: GivesWay(env, t, q, p)
  }

  function FieldFor(env: Env, t: TypeId, p: Path): Field
    requires Promoted(env, t, p)
  {
    Field(NameAt(env, t, p), TaggedAt(env, t, p), p, DeclAt(env, t, p).omitEmpty)
  }

  // ---- Paths from both ends ------------------------------------------------------------------------

  lemma OpensIsEmbedded(env: Env, d: FieldDecl)
    ensures Opens(env, d) <==> IsEmbedded(env, d)
    ensures IsLeaf(env, d) <==> d.exported && !d.ignored && !Opens(env, d)
    ensures Target(env, d.typ) == Strip(env, d.typ)
  {
  }

  // The first step of a walk, instead of the last.
  lemma {:induction false} WalkFirst(env: Env, t: TypeId, i: nat, rest: seq<nat>)
    ensures Walk(env, t, [i] + rest) ==
            if i < |Decls(env, t)| && IsEmbedded(env, Decls(env, t)[i])
            then Walk(env, Strip(env, Decls(env, t)[i].typ), rest) else None
    decreases |rest|
  {
    hide IsEmbedded;
    var p := [i] + rest;
    if rest == [] {
      assert p[..0] == [];
    } else {
      var front := rest[..|rest| - 1];
      assert p[..|p| - 1] == [i] + front;
      WalkFirst(env, t, i, front);
    }
  }

  lemma {:induction false} PromotedIs(env: Env, t: TypeId, p: Path)
    ensures Promoted(env, t, p) <==>
            Walk(env, t, Init(p)).Some? && LeafAt(env, Walk(env, t, Init(p)).value, p[|p| - 1])
    ensures Promoted(env, t, p) ==>
              DeclAt(env, t, p) == Decls(env, Walk(env, t, Init(p)).value)[p[|p| - 1]]
    decreases |p|
  {
    hide IsLeaf, IsEmbedded, Opens;
    if KindOf(env, t).KStruct? && p[0] < |KindOf(env, t).decls| {
      OpensIsEmbedded(env, KindOf(env, t).decls[p[0]]);
    }
    if |p| > 1 {
      WalkFirst(env, t, p[0], Init(p)[1..]);
      assert [p[0]] + Init(p)[1..] == Init(p) && Init(p)[1..] == Init(p[1..]);
      if KindOf(env, t).KStruct? && p[0] < |KindOf(env, t).decls| {
        PromotedIs(env, Target(env, KindOf(env, t).decls[p[0]].typ), p[1..]);
      }
    }
  }

  lemma {:induction false} BehindIs(env: Env, t: TypeId, path: seq<nat>)
    requires Walk(env, t, path).Some?
    ensures Walk(env, t, path) == Some(TypeBehind(env, t, path))
    decreases |path|
  {
    hide IsEmbedded;
    if path != [] {
      assert path == [path[0]] + path[1..];
      WalkFirst(env, t, path[0], path[1..]);
      BehindIs(env, Strip(env, Decls(env, t)[path[0]].typ), path[1..]);
    }
  }

  lemma CandidateIs(env: Env, t: TypeId, f: Field)
    ensures IsCandidate(env, t, f) <==> Promoted(env, t, f.index) && f == FieldFor(env, t, f.index)
  {
    hide Walk, Promoted, LeafAt, DeclAt;
    PromotedIs(env, t, f.index);
    if Promoted(env, t, f.index) {
      LeafDeclared(env, Walk(env, t, Init(f.index)).value, f.index[|f.index| - 1]);
    }
  }

  lemma LeafDeclared(env: Env, s: TypeId, i: nat)
    requires LeafAt(env, s, i)
    ensures i < |Decls(env, s)|
  {
  }

  // ---- The walk follows the rule ------------------------------------------------------------------

  // The path a type is given is the earliest of its shortest ones.
  lemma {:induction false} EarliestGiven(env: Env, t: TypeId, first: Paths, p: seq<nat>)
    requires FirstPaths(env, t, first) && Walk(env, t, p).Some?
    ensures var s := Walk(env, t, p).value;
            s in first && |first[s]| <= |p| && (|first[s]| == |p| ==> !LexLess(p, first[s]))
    decreases |p|
  {
    hide LexLess, Walk, FirstPaths, EmbedsTo;
    var s := Walk(env, t, p).value;
    Given1(env, t, first, p);
    if |first[s]| == |p| && p != [] {
      var x, i := p[..|p| - 1], p[|p| - 1];
      assert p == x + [i];
      LastStep(env, t, p);
      var u := Walk(env, t, x).value;
      EarliestGiven(env, t, first, x);
      LevelAbove(env, t, first, u, i, s);
      NotEarlier(env, t, first, u, i, s);
      LexTotal(first[u], x);
      LexExtend(first[u], x, i, i);
      if LexLess(p, first[s]) && first[u] != x {
        LexTransitive(first[u] + [i], p, first[s]);
      }
    }
    if p == [] {
      LexTotal(p, first[s]);
    }
  }

  lemma LastStep(env: Env, t: TypeId, p: seq<nat>)
    requires p != [] && Walk(env, t, p).Some?
    ensures var u := Walk(env, t, p[..|p| - 1]);
            u.Some? && EmbedsTo(env, u.value, p[|p| - 1], Walk(env, t, p).value)
  {
    hide IsEmbedded;
  }

  lemma Given1(env: Env, t: TypeId, first: Paths, p: seq<nat>)
    requires FirstPaths(env, t, first) && Walk(env, t, p).Some?
    ensures var s := Walk(env, t, p).value;
            s in first && |first[s]| <= |p| && Walk(env, t, first[s]) == Some(s)
  {
    hide Walk, Continued, LexLess;
  }

  // A type embedded by another lies at most one level below it.
  lemma LevelAbove(env: Env, t: TypeId, first: Paths, u: TypeId, i: nat, s: TypeId)
    requires FirstPaths(env, t, first) && u in first && s in first && EmbedsTo(env, u, i, s) && |first[u]| < |first[s]|
    ensures NextTo(env, first, u, i, s)
  {
    hide Walk, LexLess, Continued, IsLeaf, IsEmbedded;
    assert Walk(env, t, first[u]) == Some(u);
    WalkStep(env, t, first[u], i);
    assert Walk(env, t, first[u] + [i]) == Some(s);
  }

  // ---- The rule and the list ------------------------------------------------------------------------

  lemma GivenCollected(env: Env, t: TypeId, first: Paths, collected: seq<Field>, f: Field)
    requires Collected(env, t, first, collected)
    ensures f in collected <==> FromFirst(env, t, first, f)
    ensures FromFirst(env, t, first, f) ==>
              multiset(collected)[f] == if Twice(env, first, Walk(env, t, Init(f.index)).value) then 2 else 1
  {
    hide Walk, Twice, FirstPaths, IsLeaf;
    if FromFirst(env, t, first, f) {
      var s, i := Walk(env, t, Init(f.index)).value, f.index[|f.index| - 1];
      assert first[s] + [i] == f.index;
      assert LeafAt(env, s, i) && f == LeafField(env, s, i, first[s] + [i]);
      assert f in multiset(collected);
    }
  }

  // The path under which the declaration that p ends in is collected.
  ghost function Collecting(env: Env, t: TypeId, first: Paths, p: Path): Path
    requires Promoted(env, t, p) && Walk(env, t, Init(p)).Some? && Walk(env, t, Init(p)).value in first
  {
    first[Walk(env, t, Init(p)).value] + [p[|p| - 1]]
  }

  // It is promoted, declares the same, and is p itself or comes before it.
  lemma CollectingIs(env: Env, t: TypeId, first: Paths, p: Path)
    requires FirstPaths(env, t, first) && Promoted(env, t, p)
    ensures Walk(env, t, Init(p)).Some? && Walk(env, t, Init(p)).value in first
    ensures var c := Collecting(env, t, first, p);
            && Promoted(env, t, c) && DeclAt(env, t, c) == DeclAt(env, t, p)
            && |c| <= |p| && (|c| == |p| ==> c == p || LexLess(c, p))
            && Walk(env, t, Init(c)) == Walk(env, t, Init(p)) && FromFirst(env, t, first, FieldFor(env, t, c))
  {
    hide Walk, FirstPaths, Promoted, LeafAt, DeclAt, LexLess, IsCandidate;
    PromotedIs(env, t, p);
    var s, i := Walk(env, t, Init(p)).value, p[|p| - 1];
    Given1(env, t, first, Init(p));
    EarliestGiven(env, t, first, Init(p));
    var c: Path := first[s] + [i];
    assert Init(c) == first[s] && Init(p) + [i] == p;
    PromotedIs(env, t, c);
    CandidateIs(env, t, FieldFor(env, t, c));
    if |c| == |p| {
      LexTotal(Init(c), Init(p));
      LexExtend(Init(c), Init(p), i, i);
    }
  }

  lemma SameDeclaration(env: Env, t: TypeId, q: Path, p: Path)
    requires Promoted(env, t, q) && Promoted(env, t, p) && DeclAt(env, t, q) == DeclAt(env, t, p)
    ensures NameAt(env, t, q) == NameAt(env, t, p) && TaggedAt(env, t, q) == TaggedAt(env, t, p)
  {
  }

  // The last embedding on the way to a type.
  lemma EntryIs(env: Env, t: TypeId, first: Paths, path: seq<nat>)
    requires FirstPaths(env, t, first) && path != [] && Walk(env, t, path).Some?
    requires |first[Walk(env, t, path).value]| == |path|
    ensures var u := TypeBehind(env, t, path[..|path| - 1]);
            && Walk(env, t, path[..|path| - 1]) == Some(u)
            && NextTo(env, first, u, path[|path| - 1], Walk(env, t, path).value)
  {
    hide Walk, FirstPaths, EmbedsTo, TypeBehind;
    LastStep(env, t, path);
    BehindIs(env, t, path[..|path| - 1]);
    Given1(env, t, first, path[..|path| - 1]);
    Given1(env, t, first, path);
    LevelAbove(env, t, first, Walk(env, t, path[..|path| - 1]).value, path[|path| - 1], Walk(env, t, path).value);
  }

  lemma OneEntry(env: Env, t: TypeId, first: Paths, q: Path, p: Path)
    requires FirstPaths(env, t, first) && Walk(env, t, Init(p)).Some? && Walk(env, t, Init(q)) == Walk(env, t, Init(p))
    requires |q| == |p| && q != p && q[|p| - 1] == p[|p| - 1]
    requires var s := Walk(env, t, Init(p)).value; |first[s]| == |p| - 1 && !Twice(env, first, s)
    ensures SameEntry(env, t, q, p)
  {
    hide Walk, FirstPaths, NextTo, TypeBehind;
    var n := |p|;
    assert p == Init(p) + [p[n - 1]] && q == Init(q) + [q[n - 1]];
    EntryIs(env, t, first, Init(p));
    EntryIs(env, t, first, Init(q));
    assert Init(p)[..n - 2] == p[..n - 2] && Init(q)[..n - 2] == q[..n - 2];
    assert q[n - 2..] == [q[n - 2], q[n - 1]] && p[n - 2..] == [p[n - 2], p[n - 1]];
  }

  lemma ListedStands(env: Env, t: TypeId, first: Paths, collected: seq<Field>, f: Field)
    requires Collected(env, t, first, collected) && Chosen(multiset(collected), f)
    ensures Stands(env, t, f.index) && f == FieldFor(env, t, f.index)
  {
    hide Walk, FirstPaths, Twice, Promoted, DeclAt, LexLess, SameEntry, IsCandidate, Collected, LeafAt, IsLeaf;
    var p := f.index;
    CollectedFirst(env, t, first, collected);
    assert f in multiset(collected);
    GivenCollected(env, t, first, collected, f);
    CandidateIs(env, t, f);
    forall q: Path | Promoted(env, t, q) && q != p && NameAt(env, t, q) == NameAt(env, t, p)
      ensures GivesWay(env, t, q, p)
    {
      CollectingIs(env, t, first, q);
      var c := Collecting(env, t, first, q);
      SameDeclaration(env, t, c, q);
      if c == p {
        if |q| == |p| {
          OneEntry(env, t, first, q, p);
        }
      } else {
        var g := FieldFor(env, t, c);
        GivenCollected(env, t, first, collected, g);
        assert g in multiset(collected) && g != f && Yields(g, f);
      }
    }
  }

  lemma CollectedFirst(env: Env, t: TypeId, first: Paths, collected: seq<Field>)
    requires Collected(env, t, first, collected)
    ensures FirstPaths(env, t, first)
  {
  }

  // A path that stands is the one under which its declaration is collected.
  lemma StandsCollected(env: Env, t: TypeId, first: Paths, p: Path)
    requires FirstPaths(env, t, first) && Stands(env, t, p)
    ensures FromFirst(env, t, first, FieldFor(env, t, p)) && Walk(env, t, Init(p)).Some?
    ensures first[Walk(env, t, Init(p)).value] == Init(p)
  {
    hide Walk, FirstPaths, Promoted, DeclAt, LexLess, SameEntry, IsCandidate;
    CollectingIs(env, t, first, p);
    var c := Collecting(env, t, first, p);
    SameDeclaration(env, t, c, p);
    if c != p {
      assert GivesWay(env, t, c, p);
      LexTotal(c, p);
    }
  }

  // If it stands, every embedding of its struct type on the level above is the one it passes.
  lemma OnlyEntry(env: Env, t: TypeId, first: Paths, p: Path, w: TypeId, k: nat)
    requires FirstPaths(env, t, first) && Stands(env, t, p)
    requires Walk(env, t, Init(p)).Some? && NextTo(env, first, w, k, Walk(env, t, Init(p)).value)
    ensures |p| >= 2 && k == p[|p| - 2] && w == TypeBehind(env, t, p[..|p| - 2])
  {
    hide Walk, FirstPaths, Promoted, DeclAt, LexLess, IsCandidate, EmbedsTo, TypeBehind;
    var s, n := Walk(env, t, Init(p)).value, |p|;
    StandsCollected(env, t, first, p);
    var q: Path := first[w] + [k] + [p[n - 1]];
    GivenWalk(env, t, first, w);
    WalkStep(env, t, first[w], k);
    EmbedsNext(env, w, k, s);
    assert Init(q) == first[w] + [k] && q[..n - 2] == first[w] && q[n - 2] == k;
    PromotedIs(env, t, p);
    PromotedIs(env, t, q);
    SameDeclaration(env, t, q, p);
    BehindIs(env, t, first[w]);
    assert n == |Init(p)| + 1 == |first[w]| + 2 == |q|;
    if q != p {
      assert GivesWay(env, t, q, p);
      assert q[n - 2..][0] == p[n - 2..][0];
    }
  }

  lemma GivenWalk(env: Env, t: TypeId, first: Paths, w: TypeId)
    requires FirstPaths(env, t, first) && w in first
    ensures Walk(env, t, first[w]) == Some(w)
  {
    hide Walk, Continued, LexLess;
  }

  lemma EmbedsNext(env: Env, w: TypeId, k: nat, s: TypeId)
    requires EmbedsTo(env, w, k, s)
    ensures k < |Decls(env, w)| && IsEmbedded(env, Decls(env, w)[k]) && Strip(env, Decls(env, w)[k].typ) == s
  {
  }

  lemma StandsOnce(env: Env, t: TypeId, first: Paths, p: Path)
    requires FirstPaths(env, t, first) && Stands(env, t, p) && Walk(env, t, Init(p)).Some?
    ensures !Twice(env, first, Walk(env, t, Init(p)).value)
  {
    hide Walk, FirstPaths, Stands, NextTo, TypeBehind;
    var s := Walk(env, t, Init(p)).value;
    forall u, i, u', i' | NextTo(env, first, u, i, s) && NextTo(env, first, u', i', s) ensures u == u' && i == i' {
      OnlyEntry(env, t, first, p, u, i);
      OnlyEntry(env, t, first, p, u', i');
    }
  }

  // Of the paths that are collected, one that gives way is longer or has no tag.
  lemma CollectedYields(env: Env, t: TypeId, first: Paths, q: Path, p: Path)
    requires FirstPaths(env, t, first) && Stands(env, t, p) && Promoted(env, t, q) && q != p
    requires NameAt(env, t, q) == NameAt(env, t, p) && FromFirst(env, t, first, FieldFor(env, t, q))
    ensures Yields(FieldFor(env, t, q), FieldFor(env, t, p))
  {
    hide Walk, FirstPaths, Promoted, DeclAt, LexLess, IsCandidate, SameEntry;
    assert GivesWay(env, t, q, p);
    StandsCollected(env, t, first, p);
    if |q| == |p| && SameEntry(env, t, q, p) {
      EntersOnce(env, t, q, p);
    }
  }

  // The same entry leads to the same struct.
  lemma EntersOnce(env: Env, t: TypeId, q: Path, p: Path)
    requires |q| == |p| && SameEntry(env, t, q, p) && Walk(env, t, Init(q)).Some? && Walk(env, t, Init(p)).Some?
    ensures Walk(env, t, Init(q)) == Walk(env, t, Init(p)) && (Init(q) == Init(p) ==> q == p)
  {
    hide Walk, TypeBehind, IsEmbedded;
    var n := |p|;
    var x, y := q[..n - 2], p[..n - 2];
    assert Init(q) == x + [q[n - 2]] && Init(p) == y + [p[n - 2]];
    assert q[n - 2..][0] == p[n - 2..][0] && q[n - 2..][1] == p[n - 2..][1];
    WalkFront(env, t, Init(q));
    WalkFront(env, t, Init(p));
    assert Init(q)[..n - 2] == x && Init(p)[..n - 2] == y;
    BehindIs(env, t, x);
    BehindIs(env, t, y);
    WalkStep(env, t, x, q[n - 2]);
    WalkStep(env, t, y, p[n - 2]);
    assert q == Init(q) + [q[n - 1]] && p == Init(p) + [p[n - 1]];
  }

  lemma WalkFront(env: Env, t: TypeId, path: seq<nat>)
    requires path != [] && Walk(env, t, path).Some?
    ensures Walk(env, t, path[..|path| - 1]).Some?
  {
  }

  lemma StandsChosen(env: Env, t: TypeId, first: Paths, collected: seq<Field>, p: Path)
    requires Collected(env, t, first, collected) && Stands(env, t, p)
    ensures Chosen(multiset(collected), FieldFor(env, t, p))
  {
    hide Walk, FirstPaths, Twice, Promoted, DeclAt, LexLess, GivesWay, IsCandidate, Collected, LeafAt, IsLeaf, Yields;
    var f := FieldFor(env, t, p);
    CollectedFirst(env, t, first, collected);
    StandsCollected(env, t, first, p);
    StandsOnce(env, t, first, p);
    GivenCollected(env, t, first, collected, f);
    forall g | g in multiset(collected) && g != f && g.name == f.name ensures Yields(g, f) {
      GivenCollected(env, t, first, collected, g);
      CandidateIs(env, t, g);
      CollectedYields(env, t, first, g.index, p);
    }
  }

  // ---- The field list of a struct type ---------------------------------------------------------------

  // What comes first lies earlier in the declarations.
  ghost predicate InDeclarationOrder(r: seq<Field>) {
    forall i, j | 0 <= i < j < |r| :: LexLess(r[i].index, r[j].index)
  }

  // The list holds, for exactly the paths that stand, what is declared at their ends.
  lemma ListedIff(env: Env, t: TypeId, r: seq<Field>)
    requires IsFieldList(env, t, r)
    ensures forall f :: f in r <==> Stands(env, t, f.index) && f == FieldFor(env, t, f.index)
    ensures InDeclarationOrder(r)
  {
    hide Collected, Chosen, GivesWay, NameAt, TaggedAt, DeclAt, Promoted, LexLess;
    var collected :| IsCollection(env, t, collected) && Selection(collected, r);
    var first :| Collected(env, t, first, collected);
    forall f ensures f in r <==> Stands(env, t, f.index) && f == FieldFor(env, t, f.index) {
      if Chosen(multiset(collected), f) {
        ListedStands(env, t, first, collected, f);
      }
      if Stands(env, t, f.index) && f == FieldFor(env, t, f.index) {
        StandsChosen(env, t, first, collected, f.index);
      }
    }
  }

  // The field at the end of the path has the declared type.
  lemma {:induction false} PromotedType(env: Env, t: TypeId, p: Path)
    requires Promoted(env, t, p)
    ensures TypeAt(env, t, p) == DeclAt(env, t, p).typ
    decreases |p|
  {
    var d := KindOf(env, t).decls[p[0]];
    if |p| > 1 {
      PromotedType(env, Target(env, d.typ), p[1..]);
      assert TypeAt(env, d.typ, p[1..]) == TypeAt(env, Target(env, d.typ), p[1..]);
    }
  }
}
