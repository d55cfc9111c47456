// Struct types that embed others, the fields that can be collected from them, and the order in
// which a breadth-first walk reaches them (typeFields in mcpack/encode.go).
module Embedding {
  import opened Values

  // ---- Declarations ----------------------------------------------------------------

  function Decls(env: Env, t: TypeId): seq<FieldDecl> {
    match KindOf(env, t)
    case KStruct(decls) => decls
    case _ => []
  }

  function Strip(env: Env, t: TypeId): TypeId {
    match KindOf(env, t)
    case KPtr(e) => e
    case _ => t
  }

  // A declaration that becomes a field itself.
  predicate IsLeaf(env: Env, d: FieldDecl) {
    d.exported && !d.ignored
    && (d.tagName != [] || !d.anonymous || !KindOf(env, Strip(env, d.typ)).KStruct?)
  }

  // A declaration whose struct type is searched for more fields.
  predicate IsEmbedded(env: Env, d: FieldDecl) {
    d.exported && !d.ignored && !IsLeaf(env, d)
  }

  predicate LeafAt(env: Env, s: TypeId, i: nat) {
    i < |Decls(env, s)| && IsLeaf(env, Decls(env, s)[i])
  }

  predicate EmbedsTo(env: Env, s: TypeId, i: nat, u: TypeId) {
    i < |Decls(env, s)| && IsEmbedded(env, Decls(env, s)[i]) && Strip(env, Decls(env, s)[i].typ) == u
  }

  function LeafField(env: Env, s: TypeId, i: nat, index: Path): Field
    requires i < |Decls(env, s)|
  {
    var d := Decls(env, s)[i];
    Field(if d.tagName != [] then d.tagName else d.name, d.tagName != [], index, d.omitEmpty)
  }

  // The struct type reached from t along a path of embedded fields.
  function Walk(env: Env, t: TypeId, path: seq<nat>): Option<TypeId>
    decreases |path|
  {
    if path == [] then Some(t)
    else
      match Walk(env, t, path[..|path| - 1])
      case None => None
      case Some(s) =>
        var i := path[|path| - 1];
        if i < |Decls(env, s)| && IsEmbedded(env, Decls(env, s)[i]) then Some(Strip(env, Decls(env, s)[i].typ))
        else None
  }

  lemma WalkStep(env: Env, t: TypeId, path: seq<nat>, i: nat)
    ensures Walk(env, t, path + [i]) ==
            match Walk(env, t, path)
            case None => None
            case Some(s) =>
              if i < |Decls(env, s)| && IsEmbedded(env, Decls(env, s)[i]) then Some(Strip(env, Decls(env, s)[i].typ))
              else None
  {
    assert (path + [i])[..|path + [i]| - 1] == path;
  }

  function Init(path: Path): seq<nat> {
    path[..|path| - 1]
  }

  // f is a field declared by the struct that lies at the end of an embedding path.
  ghost predicate IsCandidate(env: Env, t: TypeId, f: Field) {
    var s := Walk(env, t, Init(f.index));
    var i := f.index[|f.index| - 1];
    s.Some? && LeafAt(env, s.value, i) && f == LeafField(env, s.value, i, f.index)
  }

  // ---- What the walk collects ---------------------------------------------------------

  // How many declarations of s, from the i-th on, embed u.
  function EmbedCount(env: Env, s: TypeId, u: TypeId, i: nat): nat
    decreases |Decls(env, s)| - i
  {
    if i >= |Decls(env, s)| then 0
    else (if EmbedsTo(env, s, i, u) then 1 else 0) + EmbedCount(env, s, u, i + 1)
  }

  function LevelCount(env: Env, level: seq<TypeId>, u: TypeId): nat {
    if level == [] then 0
    else LevelCount(env, level[..|level| - 1], u) + EmbedCount(env, level[|level| - 1], u, 0)
  }

  // The fields s itself declares, from the i-th on, each listed once or twice.
  function Leaves(env: Env, s: TypeId, index: seq<nat>, twice: bool, i: nat): seq<Field>
    decreases |Decls(env, s)| - i
  {
    if i >= |Decls(env, s)| then []
    else
      var f := LeafField(env, s, i, index + [i]);
      (if !LeafAt(env, s, i) then [] else if twice then [f, f] else [f]) + Leaves(env, s, index, twice, i + 1)
  }

  // ---- Lexicographic order, of names as of index sequences ------------------------------

  predicate LexLess(a: seq<nat>, b: seq<nat>) {
    if a == [] || b == [] then a == [] && b != []
    else if a[0] != b[0] then a[0] < b[0]
    else LexLess(a[1..], b[1..])
  }

  lemma {:induction false} LexTotal(a: seq<nat>, b: seq<nat>)
    ensures LexLess(a, b) ==> !LexLess(b, a) && a != b
    ensures LexLess(a, b) || LexLess(b, a) || a == b
  {
    if a != [] && b != [] {
      LexTotal(a[1..], b[1..]);
      assert a == [a[0]] + a[1..] && b == [b[0]] + b[1..];
    }
  }

  lemma {:induction false} LexTransitive(a: seq<nat>, b: seq<nat>, c: seq<nat>)
    requires LexLess(a, b) && LexLess(b, c)
    ensures LexLess(a, c)
  {
    if a != [] && b != [] && c != [] {
      if a[0] == b[0] == c[0] {
        LexTransitive(a[1..], b[1..], c[1..]);
      }
    }
  }

  // The first difference decides, or the end of a.
  lemma {:induction false} LexIs(a: seq<nat>, b: seq<nat>)
    ensures LexLess(a, b) <==>
            exists n | 0 <= n <= |a| && n < |b| :: a[..n] == b[..n] && (n == |a| || a[n] < b[n])
  {
    if a == [] || b == [] || a[0] != b[0] {
      assert b != [] ==> a[..0] == b[..0];
      forall n | 0 < n <= |a| && n < |b| ensures a[..n] != b[..n] {
        assert a[..n][0] == a[0] && b[..n][0] == b[0];
      }
    } else {
      LexIs(a[1..], b[1..]);
      var x, y := a[1..], b[1..];
      if n :| 0 <= n <= |x| && n < |y| && x[..n] == y[..n] && (n == |x| || x[n] < y[n]) {
        assert a[..n + 1] == [a[0]] + a[1..][..n] && b[..n + 1] == [b[0]] + b[1..][..n];
      }
      if n :| 0 <= n <= |a| && n < |b| && a[..n] == b[..n] && (n == |a| || a[n] < b[n]) {
        assert n > 0 && a[1..][..n - 1] == a[..n][1..] && b[1..][..n - 1] == b[..n][1..];
      }
    }
  }

  // ---- The walk's queue -----------------------------------------------------------------

  datatype Node = Node(index: seq<nat>, typ: TypeId)

  function Get(m: map<TypeId, nat>, u: TypeId): nat {
    if u in m then m[u] else 0
  }

  ghost predicate HasType(nodes: seq<Node>, u: TypeId) {
    exists k | 0 <= k < |nodes| :: nodes[k].typ == u
  }

  // ---- What is collected ----------------------------------------------------------------

  // The i-th declaration of u embeds s, and the path of u is one shorter than that of s.
  ghost predicate NextTo(env: Env, first: map<TypeId, seq<nat>>, u: TypeId, i: nat, s: TypeId) {
    u in first && s in first && |first[u]| + 1 == |first[s]| && EmbedsTo(env, u, i, s)
  }

  ghost predicate Continued(env: Env, first: map<TypeId, seq<nat>>, s: TypeId)
    requires s in first
  {
    first[s] == [] || exists u, i :: NextTo(env, first, u, i, s) && first[s] == first[u] + [i]
  }

  // first gives every struct type that can be reached from t the path under which its fields are
  // collected: a shortest one, which continues the path given to the type above it, and the
  // earliest of those.
  ghost predicate FirstPaths(env: Env, t: TypeId, first: map<TypeId, seq<nat>>) {
    && (forall p: seq<nat> | Walk(env, t, p).Some? :: Walk(env, t, p).value in first)
    && (forall s | s in first :: Walk(env, t, first[s]) == Some(s))
    && (forall s, p: seq<nat> | s in first && Walk(env, t, p) == Some(s) :: |first[s]| <= |p|)
    && (forall s | s in first :: Continued(env, first, s))
    && (forall u, i, s | NextTo(env, first, u, i, s) :: !LexLess(first[u] + [i], first[s]))
  }

  // Two declarations on the level above embed s.
  ghost predicate Twice(env: Env, first: map<TypeId, seq<nat>>, s: TypeId) {
    exists u, i, u', i' :: NextTo(env, first, u, i, s) && NextTo(env, first, u', i', s) && (u != u' || i != i')
  }

  ghost predicate FromFirst(env: Env, t: TypeId, first: map<TypeId, seq<nat>>, f: Field) {
    var s := Walk(env, t, Init(f.index));
    IsCandidate(env, t, f) && s.Some? && s.value in first && first[s.value] == Init(f.index)
  }

  // The fields of each struct type, under its path; listed twice when the type is embedded twice.
  ghost predicate Collected(env: Env, t: TypeId, first: map<TypeId, seq<nat>>, fields: seq<Field>) {
    && FirstPaths(env, t, first)
    && (forall f | f in fields :: FromFirst(env, t, first, f))
    && (forall s, i: nat | s in first && LeafAt(env, s, i) ::
          multiset(fields)[LeafField(env, s, i, first[s] + [i])] == if Twice(env, first, s) then 2 else 1)
  }

  ghost predicate IsCollection(env: Env, t: TypeId, fields: seq<Field>) {
    exists first :: Collected(env, t, first, fields)
  }

  // ---- There is only one collection ---------------------------------------------------------

  lemma SameDepth(env: Env, t: TypeId, first: map<TypeId, seq<nat>>, first': map<TypeId, seq<nat>>, s: TypeId)
    requires FirstPaths(env, t, first) && FirstPaths(env, t, first') && s in first
    ensures s in first' && |first[s]| == |first'[s]|
  {
    hide Walk, Continued;
    assert Walk(env, t, first[s]) == Some(s);
    assert Walk(env, t, first'[s]) == Some(s);
  }

  lemma ParentOf(env: Env, t: TypeId, first: map<TypeId, seq<nat>>, s: TypeId) returns (u: TypeId, i: nat)
    requires FirstPaths(env, t, first) && s in first && first[s] != []
    ensures NextTo(env, first, u, i, s) && first[s] == first[u] + [i]
  {
    hide Walk;
    assert Continued(env, first, s);
    u, i :| NextTo(env, first, u, i, s) && first[s] == first[u] + [i];
  }

  lemma {:induction false} FirstUnique(env: Env, t: TypeId, first: map<TypeId, seq<nat>>, first': map<TypeId,
                                       seq<nat>>, s: TypeId)
    requires FirstPaths(env, t, first) && FirstPaths(env, t, first') && s in first
    ensures s in first' && first[s] == first'[s]
    decreases |first[s]|
  {
    SameDepth(env, t, first, first', s);
    if first[s] != [] {
      var u, i := ParentOf(env, t, first, s);
      var v, j := ParentOf(env, t, first', s);
      SameDepth(env, t, first', first, v);
      FirstUnique(env, t, first, first', u);
      FirstUnique(env, t, first, first', v);
      assert NextTo(env, first', u, i, s) && NextTo(env, first, v, j, s);
      NotEarlier(env, t, first, v, j, s);
      NotEarlier(env, t, first', u, i, s);
      LexTotal(first[s], first'[s]);
    }
  }

  lemma NotEarlier(env: Env, t: TypeId, first: map<TypeId, seq<nat>>, u: TypeId, i: nat, s: TypeId)
    requires FirstPaths(env, t, first) && NextTo(env, first, u, i, s)
    ensures !LexLess(first[u] + [i], first[s])
  {
    hide Walk, Continued, LexLess;
  }

  // Whatever two walks from t collect is the same, up to order.
  lemma CollectionUnique(env: Env, t: TypeId, fields: seq<Field>, fields': seq<Field>)
    requires IsCollection(env, t, fields) && IsCollection(env, t, fields')
    ensures multiset(fields) == multiset(fields')
  {
    hide FirstPaths, Twice, Walk, IsLeaf, LeafField;
    var first :| Collected(env, t, first, fields);
    var first' :| Collected(env, t, first', fields');
    forall s | s in first ensures s in first' && first[s] == first'[s] { FirstUnique(env, t, first, first', s); }
    forall s | s in first' ensures s in first { FirstUnique(env, t, first', first, s); }
    assert first == first';
    forall f ensures multiset(fields)[f] == multiset(fields')[f] {
      if FromFirst(env, t, first, f) {
        var s, i := Walk(env, t, Init(f.index)).value, f.index[|f.index| - 1];
        assert first[s] + [i] == f.index;
        assert LeafAt(env, s, i) && f == LeafField(env, s, i, first[s] + [i]);
      } else {
        assert f !in fields && f !in fields';
      }
    }
  }
}
