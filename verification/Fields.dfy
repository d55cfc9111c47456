// The breadth-first walk that collects the fields of a struct type, with the two queues and counts
// it keeps (typeFields in mcpack/encode.go).
module Fields {
  import opened Values
  import opened Embedding
  import opened WalkOrder

  // ---- What has been collected so far -----------------------------------------------------

  // Each struct type is expanded once, at a shortest path to it; its fields are listed twice
  // when more than one embedded field of the level above has that type.
  ghost predicate Expanded(env: Env, t: TypeId, levels: seq<seq<TypeId>>, first: Paths, fields: seq<Field>) {
    Placed(env, t, levels, first) && Listed(env, t, levels, first, fields)
  }

  ghost predicate Placed(env: Env, t: TypeId, levels: seq<seq<TypeId>>, first: Paths) {
    && (forall s | s in first ::
          && Walk(env, t, first[s]) == Some(s)
          && |first[s]| < |levels| && s in levels[|first[s]|])
    && (forall s, p: seq<nat> | s in first && Walk(env, t, p) == Some(s) :: |first[s]| <= |p|)
  }

  ghost predicate Listed(env: Env, t: TypeId, levels: seq<seq<TypeId>>, first: Paths, fields: seq<Field>) {
    && (forall f | f in fields :: FromFirst(env, t, first, f))
    && (forall s, i: nat | s in first && LeafAt(env, s, i) ::
          multiset(fields)[LeafField(env, s, i, first[s] + [i])] == Copies(env, levels, first, s))
  }

  ghost function Copies(env: Env, levels: seq<seq<TypeId>>, first: Paths, s: TypeId): nat {
    if s in first && 0 < |first[s]| <= |levels| && LevelCount(env, levels[|first[s]| - 1], s) > 1 then 2 else 1
  }

  // ---- One struct type ------------------------------------------------------------------

  // One of the declarations before the i-th.
  ghost predicate DeclaredBefore(env: Env, n: Node, x: Node, i: nat) {
    exists j: nat :: j < i && EmbedsTo(env, n.typ, j, x.typ) && x.index == n.index + [j]
  }

  // The part of Grown that the declarations before the i-th account for.
  ghost predicate GrownTo(env: Env, n: Node, next: seq<Node>, next': seq<Node>, i: nat) {
    && next <= next' && InOrder(next')
    && (forall k | |next| <= k < |next'| :: DeclaredBefore(env, n, next'[k], i))
    && (forall j: nat, u | j < i && EmbedsTo(env, n.typ, j, u) :: Early(next', u, n.index + [j]))
  }

  // Nodes queued for declarations of types before n's on its level.
  ghost predicate Behind(next: seq<Node>, n: Node) {
    forall k | 0 <= k < |next| ::
      next[k].index != [] && |Init(next[k].index)| == |n.index| && LexLess(Init(next[k].index), n.index)
  }

  // What is in the queue stands before the node's i-th declaration.
  lemma BeforeNext(env: Env, n: Node, next: seq<Node>, next': seq<Node>, i: nat)
    requires GrownTo(env, n, next, next', i) && Behind(next, n)
    ensures InOrder(next') && forall k | 0 <= k < |next'| :: LexLess(next'[k].index, n.index + [i])
  {
    hide LexLess, Early, InOrder, EmbedsTo;
    forall k | 0 <= k < |next'| ensures LexLess(next'[k].index, n.index + [i]) {
      if k < |next| {
        var p := next[k].index;
        assert next'[k] == next[k] && p == Init(p) + [p[|p| - 1]];
        LexExtend(Init(p), n.index, p[|p| - 1], i);
      } else {
        assert DeclaredBefore(env, n, next'[k], i);
        var j: nat :| j < i && EmbedsTo(env, n.typ, j, next'[k].typ) && next'[k].index == n.index + [j];
        LexExtend(n.index, n.index, j, i);
      }
    }
  }

  lemma GrowStep(env: Env, n: Node, next: seq<Node>, a: seq<Node>, b: seq<Node>, i: nat, u: TypeId)
    requires GrownTo(env, n, next, a, i) && EmbedsTo(env, n.typ, i, u)
    requires (b == a || b == a + [Node(n.index + [i], u)]) && InOrder(b) && Early(b, u, n.index + [i])
    ensures GrownTo(env, n, next, b, i + 1)
  {
    hide LexLess, Early, InOrder;
    forall k | |next| <= k < |b| ensures DeclaredBefore(env, n, b[k], i + 1) {
      if k < |a| {
        assert b[k] == a[k] && DeclaredBefore(env, n, a[k], i);
      }
    }
    forall j: nat, v | j < i + 1 && EmbedsTo(env, n.typ, j, v) ensures Early(b, v, n.index + [j]) {
      if j < i {
        StillEarly(a, b, v, n.index + [j]);
      }
    }
  }

  // A declaration that embeds nothing leaves the queue as it is.
  lemma GrowSkip(env: Env, n: Node, next: seq<Node>, a: seq<Node>, i: nat)
    requires GrownTo(env, n, next, a, i) && forall u :: !EmbedsTo(env, n.typ, i, u)
    ensures GrownTo(env, n, next, a, i + 1)
  {
    hide LexLess, Early, InOrder;
    forall k | |next| <= k < |a| ensures DeclaredBefore(env, n, a[k], i + 1) {
      assert DeclaredBefore(env, n, a[k], i);
    }
  }

  // A struct type is queued once per level, and counted every time.
  method Enqueue(next: seq<Node>, nextCount: map<TypeId, nat>, n: Node)
    returns (next': seq<Node>, nextCount': map<TypeId, nat>)
    requires forall u | Get(nextCount, u) > 0 :: HasType(next, u)
    requires InOrder(next) && forall k | 0 <= k < |next| :: LexLess(next[k].index, n.index)
    ensures forall u :: Get(nextCount', u) == Get(nextCount, u) + if u == n.typ then 1 else 0
    ensures next' == next || next' == next + [n]
    ensures forall u | Get(nextCount', u) > 0 :: HasType(next', u)
    ensures InOrder(next') && Early(next', n.typ, n.index)
  {
    next' := next;
    nextCount' := nextCount[n.typ := Get(nextCount, n.typ) + 1];
    if nextCount'[n.typ] == 1 {
      next' := next + [n];
      assert next'[|next|].typ == n.typ;
    }
    forall u | Get(nextCount', u) > 0 ensures HasType(next', u) {
      if Get(nextCount, u) > 0 {
        assert HasType(next, u);
        var k :| 0 <= k < |next| && next[k].typ == u;
        assert next'[k] == next[k];
      }
    }
    assert HasType(next', n.typ);
    var k :| 0 <= k < |next'| && next'[k].typ == n.typ;
    LexTotal(next'[k].index, n.index);
  }

  // The body of the walk for one node that was not visited before.
  method ExpandNode(env: Env, node: Node, twice: bool, fields: seq<Field>, next: seq<Node>, nextCount: map<TypeId, nat>)
    returns (fields': seq<Field>, next': seq<Node>, nextCount': map<TypeId, nat>)
    requires forall u | Get(nextCount, u) > 0 :: HasType(next, u)
    requires InOrder(next) && Behind(next, node)
    ensures fields' == fields + Leaves(env, node.typ, node.index, twice, 0)
    ensures forall u :: Get(nextCount', u) == Get(nextCount, u) + EmbedCount(env, node.typ, u, 0)
    ensures Grown(env, node, next, next') && forall u | Get(nextCount', u) > 0 :: HasType(next', u)
  {
    hide HasType, GrownTo, Grown, Behind, LexLess, InOrder, Early, EmbedCount, Leaves;
    GrowStart(env, node, next);
    fields', next', nextCount' := fields, next, nextCount;
    var decls := Decls(env, node.typ);
    var i := 0;
    while i < |decls|
      invariant 0 <= i <= |decls|
      invariant fields' + Leaves(env, node.typ, node.index, twice, i) ==
                fields + Leaves(env, node.typ, node.index, twice, 0)
      invariant forall u :: Get(nextCount', u) + EmbedCount(env, node.typ, u, i) ==
                            Get(nextCount, u) + EmbedCount(env, node.typ, u, 0)
      invariant GrownTo(env, node, next, next', i) && forall u | Get(nextCount', u) > 0 :: HasType(next', u)
    {
      var d := decls[i];
      ghost var before := next';
      OneDeclaration(env, node.typ, node.index, twice, i);
      if d.exported && !d.ignored {
        var index := node.index + [i];
        var ft := Strip(env, d.typ);
        if d.tagName != [] || !d.anonymous || !KindOf(env, ft).KStruct? {
          var f := Field(if d.tagName != [] then d.tagName else d.name, d.tagName != [], index, d.omitEmpty);
          fields' := fields' + [f];
          if twice {
            fields' := fields' + [f];
          }
          GrowSkip(env, node, next, next', i);
        } else {
          BeforeNext(env, node, next, next', i);
          next', nextCount' := Enqueue(next', nextCount', Node(index, ft));
          GrowStep(env, node, next, before, next', i, ft);
        }
      } else {
        GrowSkip(env, node, next, next', i);
      }
      i := i + 1;
    }
    GrowEnd(env, node, next, next');
    NoDeclarations(env, node.typ, node.index, twice);
  }

  // What the i-th declaration adds to the fields and to the counts.
  lemma OneDeclaration(env: Env, s: TypeId, index: seq<nat>, twice: bool, i: nat)
    requires i < |Decls(env, s)|
    ensures var f := LeafField(env, s, i, index + [i]);
            Leaves(env, s, index, twice, i) ==
            (if !LeafAt(env, s, i) then [] else if twice then [f, f] else [f]) + Leaves(env, s, index, twice, i + 1)
    ensures forall u ::
              EmbedCount(env, s, u, i) == (if EmbedsTo(env, s, i, u) then 1 else 0) + EmbedCount(env, s, u, i + 1)
  {
  }

  lemma NoDeclarations(env: Env, s: TypeId, index: seq<nat>, twice: bool)
    ensures Leaves(env, s, index, twice, |Decls(env, s)|) == []
    ensures forall u :: EmbedCount(env, s, u, |Decls(env, s)|) == 0
  {
  }

  lemma GrowStart(env: Env, n: Node, next: seq<Node>)
    requires InOrder(next)
    ensures GrownTo(env, n, next, next, 0)
  {
    hide InOrder, Early;
  }

  lemma GrowEnd(env: Env, n: Node, next: seq<Node>, next': seq<Node>)
    requires GrownTo(env, n, next, next', |Decls(env, n.typ)|)
    ensures Grown(env, n, next, next')
  {
    hide InOrder, Early;
    forall k | |next| <= k < |next'| ensures Declared(env, n, next'[k]) {
      assert DeclaredBefore(env, n, next'[k], |Decls(env, n.typ)|);
    }
    forall i: nat, u | EmbedsTo(env, n.typ, i, u) ensures Early(next', u, n.index + [i]) {
      assert i < |Decls(env, n.typ)|;
    }
  }

  // ---- The walk ---------------------------------------------------------------------------

  lemma {:induction false} LeavesFrom(env: Env, s: TypeId, index: seq<nat>, twice: bool, i: nat, f: Field)
    requires f in Leaves(env, s, index, twice, i)
    ensures Init(f.index) == index
    ensures var j := f.index[|f.index| - 1]; i <= j && LeafAt(env, s, j) && f == LeafField(env, s, j, f.index)
    decreases |Decls(env, s)| - i
  {
    hide IsLeaf;
    var rest := Leaves(env, s, index, twice, i + 1);
    if f in rest {
      LeavesFrom(env, s, index, twice, i + 1, f);
    } else {
      assert f == LeafField(env, s, i, index + [i]);
      LeafIndex(env, s, i, index);
    }
  }

  lemma {:induction false} LeavesTimes(env: Env, s: TypeId, index: seq<nat>, twice: bool, i: nat, j: nat)
    requires i <= |Decls(env, s)| && LeafAt(env, s, j)
    ensures multiset(Leaves(env, s, index, twice, i))[LeafField(env, s, j, index + [j])] ==
            if j < i then 0 else if twice then 2 else 1
    decreases |Decls(env, s)| - i
  {
    hide IsLeaf, LeafField, LeafAt, Leaves, EmbedCount;
    InDecls(env, s, j);
    if i == |Decls(env, s)| {
      NoDeclarations(env, s, index, twice);
    } else {
      LeavesTimes(env, s, index, twice, i + 1, j);
      OneDeclaration(env, s, index, twice, i);
      DifferentLeaves(env, s, index, i, j);
      var f, g := LeafField(env, s, i, index + [i]), LeafField(env, s, j, index + [j]);
      Counted(g, f, LeafAt(env, s, i), twice, Leaves(env, s, index, twice, i + 1));
    }
  }

  lemma DifferentLeaves(env: Env, s: TypeId, index: seq<nat>, i: nat, j: nat)
    requires i < |Decls(env, s)| && j < |Decls(env, s)|
    ensures LeafField(env, s, i, index + [i]) == LeafField(env, s, j, index + [j]) <==> i == j
  {
    assert (index + [i])[|index|] == i && (index + [j])[|index|] == j;
  }

  lemma InDecls(env: Env, s: TypeId, j: nat)
    requires LeafAt(env, s, j)
    ensures j < |Decls(env, s)|
  {
  }

  lemma Counted(g: Field, f: Field, leaf: bool, twice: bool, rest: seq<Field>)
    ensures var head: seq<Field> := if !leaf then [] else if twice then [f, f] else [f];
            multiset(head + rest)[g] == multiset(rest)[g] + if leaf && f == g then (if twice then 2 else 1) else 0
  {
  }

  lemma LeafIndex(env: Env, s: TypeId, i: nat, path: seq<nat>)
    requires i < |Decls(env, s)|
    ensures LeafField(env, s, i, path + [i]).index == path + [i]
    ensures Init(path + [i]) == path
  {
  }

  lemma EmbedCountPositive(env: Env, s: TypeId, u: TypeId, i: nat, j: nat)
    requires i <= j && EmbedsTo(env, s, j, u)
    ensures EmbedCount(env, s, u, i) > 0
    decreases j - i
  {
    if i < j {
      EmbedCountPositive(env, s, u, i + 1, j);
    }
  }

  lemma {:induction false} LevelCountPositive(env: Env, level: seq<TypeId>, s: TypeId, u: TypeId, j: nat)
    requires s in level && EmbedsTo(env, s, j, u)
    ensures LevelCount(env, level, u) > 0
    decreases |level|
  {
    if level[|level| - 1] == s {
      EmbedCountPositive(env, s, u, 0, j);
    } else {
      var k :| 0 <= k < |level| && level[k] == s;
      assert s == level[..|level| - 1][k];
      LevelCountPositive(env, level[..|level| - 1], s, u, j);
    }
  }

  // All queued nodes lie at the given depth, at the end of their paths.
  ghost predicate Queued(env: Env, t: TypeId, nodes: seq<Node>, depth: nat) {
    forall k | 0 <= k < |nodes| ::
      |nodes[k].index| == depth && Walk(env, t, nodes[k].index) == Some(nodes[k].typ)
  }

  // Every type with a path shorter than depth has been expanded.
  ghost predicate Reached(env: Env, t: TypeId, depth: nat, first: Paths) {
    forall p: seq<nat> | |p| < depth && Walk(env, t, p).Some? :: Walk(env, t, p).value in first
  }

  // Every type with a path of the given depth has been expanded or is queued.
  ghost predicate Pending(env: Env, t: TypeId, depth: nat, first: Paths, nodes: seq<Node>) {
    forall p: seq<nat> | |p| == depth && Walk(env, t, p).Some? ::
      Walk(env, t, p).value in first || HasType(nodes, Walk(env, t, p).value)
  }

  function Below(n: nat): (r: set<nat>)
    ensures forall u: nat :: u in r <==> u < n
  {
    if n == 0 then {} else Below(n - 1) + {n - 1}
  }

  lemma WalkedIsStruct(env: Env, t: TypeId, path: seq<nat>)
    requires KindOf(env, t).KStruct?
    ensures Walk(env, t, path).Some? ==> Walk(env, t, path).value in Below(|env.kinds|)
  {
  }

  // Expanding a node whose type was not expanded before.
  lemma ExpandStep(env: Env, t: TypeId, levels: seq<seq<TypeId>>, level: seq<TypeId>,
                   first: Paths, fields: seq<Field>, n: Node, twice: bool)
    requires Expanded(env, t, levels + [level], first, fields)
    requires |n.index| == |levels| && Walk(env, t, n.index) == Some(n.typ) && n.typ !in first
    requires Reached(env, t, |levels|, first)
    requires twice <==> |levels| > 0 && LevelCount(env, levels[|levels| - 1], n.typ) > 1
    ensures Expanded(env, t, levels + [level + [n.typ]], first[n.typ := n.index],
                     fields + Leaves(env, n.typ, n.index, twice, 0))
  {
    hide Placed, Listed, Leaves, LevelCount, Reached;
    PlacedStep(env, t, levels, level, first, n);
    ListedStep(env, t, levels, level, first, fields, n, twice);
  }

  lemma PlacedStep(env: Env, t: TypeId, levels: seq<seq<TypeId>>, level: seq<TypeId>, first: Paths, n: Node)
    requires Placed(env, t, levels + [level], first) && Reached(env, t, |levels|, first)
    requires |n.index| == |levels| && Walk(env, t, n.index) == Some(n.typ) && n.typ !in first
    ensures Placed(env, t, levels + [level + [n.typ]], first[n.typ := n.index])
  {
    hide Walk, Reached;
    var before, levels', first' := levels + [level], levels + [level + [n.typ]], first[n.typ := n.index];
    forall s | s in first'
      ensures Walk(env, t, first'[s]) == Some(s) && |first'[s]| < |levels'| && s in levels'[|first'[s]|]
    {
      if s != n.typ {
        assert s in before[|first[s]|];
      }
    }
    forall s, p: seq<nat> | s in first' && Walk(env, t, p) == Some(s) ensures |first'[s]| <= |p| {
      NotShorter(env, t, before, first, n, s, p);
    }
  }

  // No path to the new type is shorter than the node's, and none to another than the one given.
  lemma NotShorter(env: Env, t: TypeId, levels: seq<seq<TypeId>>, first: Paths, n: Node, s: TypeId, p: seq<nat>)
    requires Placed(env, t, levels, first) && Reached(env, t, |n.index|, first) && n.typ !in first
    requires (s in first || s == n.typ) && Walk(env, t, p) == Some(s)
    ensures |first[n.typ := n.index][s]| <= |p|
  {
    hide Walk;
    assert |p| < |n.index| ==> s in first;
  }

  lemma ListedStep(env: Env, t: TypeId, levels: seq<seq<TypeId>>, level: seq<TypeId>,
                   first: Paths, fields: seq<Field>, n: Node, twice: bool)
    requires Placed(env, t, levels + [level], first) && Listed(env, t, levels + [level], first, fields)
    requires |n.index| == |levels| && Walk(env, t, n.index) == Some(n.typ) && n.typ !in first
    requires twice <==> |levels| > 0 && LevelCount(env, levels[|levels| - 1], n.typ) > 1
    ensures Listed(env, t, levels + [level + [n.typ]], first[n.typ := n.index],
                   fields + Leaves(env, n.typ, n.index, twice, 0))
  {
    hide Walk, IsLeaf, LeafField, Leaves, LevelCount, FromFirst, Copies, LeafAt;
    var levels', first' := levels + [level + [n.typ]], first[n.typ := n.index];
    var more := Leaves(env, n.typ, n.index, twice, 0);
    forall f | f in fields + more ensures FromFirst(env, t, first', f) {
      if f in fields {
        StillFromFirst(env, t, first, f, n);
      } else {
        NewFromFirst(env, t, first', n, twice, f);
      }
    }
    forall s, i: nat | s in first' && LeafAt(env, s, i)
      ensures multiset(fields + more)[LeafField(env, s, i, first'[s] + [i])] == Copies(env, levels', first', s)
    {
      InDecls(env, s, i);
      Both(fields, more, LeafField(env, s, i, first'[s] + [i]));
      if s == n.typ {
        NotYet(env, t, first, fields, n, i);
        LeavesTimes(env, s, n.index, twice, 0, i);
        CopiesNew(env, levels, level, first, n);
      } else {
        NotOfNode(env, t, first, n, twice, s, i);
        CopiesOld(env, levels, level, first, n, s);
      }
    }
  }

  lemma Both(a: seq<Field>, b: seq<Field>, g: Field)
    ensures multiset(a + b)[g] == multiset(a)[g] + multiset(b)[g]
  {
  }

  lemma StillFromFirst(env: Env, t: TypeId, first: Paths, f: Field, n: Node)
    requires FromFirst(env, t, first, f) && n.typ !in first
    ensures FromFirst(env, t, first[n.typ := n.index], f)
  {
  }

  lemma NewFromFirst(env: Env, t: TypeId, first: Paths, n: Node, twice: bool, f: Field)
    requires Walk(env, t, n.index) == Some(n.typ) && n.typ in first && first[n.typ] == n.index
    requires f in Leaves(env, n.typ, n.index, twice, 0)
    ensures FromFirst(env, t, first, f)
  {
    hide Walk, LeafField;
    LeavesFrom(env, n.typ, n.index, twice, 0, f);
  }

  // Fields of a type that was not expanded are not listed yet.
  lemma NotYet(env: Env, t: TypeId, first: Paths, fields: seq<Field>, n: Node, i: nat)
    requires forall f | f in fields :: FromFirst(env, t, first, f)
    requires Walk(env, t, n.index) == Some(n.typ) && n.typ !in first && LeafAt(env, n.typ, i)
    ensures multiset(fields)[LeafField(env, n.typ, i, n.index + [i])] == 0
  {
    hide Walk, LeafField, IsCandidate;
    LeafIndex(env, n.typ, i, n.index);
    assert forall f | f in fields :: f.index != n.index + [i] by {
      forall f | f in fields ensures f.index != n.index + [i] {
        assert FromFirst(env, t, first, f);
      }
    }
  }

  lemma NotOfNode(env: Env, t: TypeId, first: Paths, n: Node, twice: bool, s: TypeId, i: nat)
    requires s in first && Walk(env, t, first[s]) == Some(s) && LeafAt(env, s, i)
    requires Walk(env, t, n.index) == Some(n.typ) && s != n.typ
    ensures multiset(Leaves(env, n.typ, n.index, twice, 0))[LeafField(env, s, i, first[s] + [i])] == 0
  {
    hide Walk, LeafField, Leaves;
    var g := LeafField(env, s, i, first[s] + [i]);
    LeafIndex(env, s, i, first[s]);
    if g in Leaves(env, n.typ, n.index, twice, 0) {
      LeavesFrom(env, n.typ, n.index, twice, 0, g);
    }
  }

  lemma CopiesNew(env: Env, levels: seq<seq<TypeId>>, level: seq<TypeId>, first: Paths, n: Node)
    requires |n.index| == |levels|
    ensures Copies(env, levels + [level + [n.typ]], first[n.typ := n.index], n.typ) ==
            if |levels| > 0 && LevelCount(env, levels[|levels| - 1], n.typ) > 1 then 2 else 1
  {
  }

  lemma CopiesOld(env: Env, levels: seq<seq<TypeId>>, level: seq<TypeId>, first: Paths, n: Node, s: TypeId)
    requires s in first && |first[s]| < |levels + [level]| && s != n.typ
    ensures Copies(env, levels + [level + [n.typ]], first[n.typ := n.index], s) ==
            Copies(env, levels + [level], first, s)
  {
  }

  // Once a level's nodes are all expanded, the next level's paths are accounted for.
  lemma LevelDone(env: Env, t: TypeId, levels: seq<seq<TypeId>>, level: seq<TypeId>,
                  first: Paths, fields: seq<Field>, next: seq<Node>)
    requires Expanded(env, t, levels + [level], first, fields)
    requires Reached(env, t, |levels| + 1, first)
    requires forall u | LevelCount(env, level, u) > 0 :: HasType(next, u)
    ensures Pending(env, t, |levels| + 1, first, next)
  {
    hide LevelCount, HasType, Walk, Expanded, Reached;
    forall p: seq<nat> | |p| == |levels| + 1 && Walk(env, t, p).Some?
      ensures Walk(env, t, p).value in first || HasType(next, Walk(env, t, p).value)
    {
      var s := LastStep(env, t, p);
      var i, u := p[|p| - 1], Walk(env, t, p).value;
      StepCovered(env, t, levels, level, first, fields, p[..|p| - 1], s, i, u);
    }
  }

  // The last step of a path.
  lemma LastStep(env: Env, t: TypeId, p: seq<nat>) returns (s: TypeId)
    requires p != [] && Walk(env, t, p).Some?
    ensures Walk(env, t, p[..|p| - 1]) == Some(s) && EmbedsTo(env, s, p[|p| - 1], Walk(env, t, p).value)
  {
    s := Walk(env, t, p[..|p| - 1]).value;
  }

  // A step from a type with a shorter path was taken before; one from this level was counted.
  lemma StepCovered(env: Env, t: TypeId, levels: seq<seq<TypeId>>, level: seq<TypeId>, first: Paths,
                    fields: seq<Field>, q: seq<nat>, s: TypeId, i: nat, u: TypeId)
    requires Expanded(env, t, levels + [level], first, fields) && Reached(env, t, |levels| + 1, first)
    requires |q| == |levels| && Walk(env, t, q) == Some(s) && EmbedsTo(env, s, i, u)
    ensures u in first || LevelCount(env, level, u) > 0
  {
    hide LevelCount, Walk, IsEmbedded, Expanded, Reached;
    ReachedAt(env, t, |levels| + 1, first, q);
    FirstPath(env, t, levels + [level], first, fields, q, s);
    if |first[s]| < |levels| {
      WalkStep(env, t, first[s], i);
      ReachedAt(env, t, |levels| + 1, first, first[s] + [i]);
    } else {
      LevelCountPositive(env, level, s, u, i);
    }
  }

  lemma ReachedAt(env: Env, t: TypeId, depth: nat, first: Paths, p: seq<nat>)
    requires Reached(env, t, depth, first) && |p| < depth && Walk(env, t, p).Some?
    ensures Walk(env, t, p).value in first
  {
    hide Walk;
  }

  lemma FirstPath(env: Env, t: TypeId, levels: seq<seq<TypeId>>, first: Paths, fields: seq<Field>,
                  q: seq<nat>, s: TypeId)
    requires Expanded(env, t, levels, first, fields) && s in first && Walk(env, t, q) == Some(s)
    ensures Walk(env, t, first[s]) == Some(s) && |first[s]| <= |q|
    ensures |first[s]| < |levels| && s in levels[|first[s]|]
  {
    hide Walk, LeafAt, LeafField, FromFirst, Copies;
  }

  lemma {:induction false} AllReached(env: Env, t: TypeId, levels: seq<seq<TypeId>>, first: Paths,
                                      fields: seq<Field>, p: seq<nat>)
    requires Expanded(env, t, levels, first, fields) && Reached(env, t, |levels|, first)
    requires Pending(env, t, |levels|, first, [])
    requires Walk(env, t, p).Some?
    ensures Walk(env, t, p).value in first
    decreases |p|
  {
    hide IsEmbedded, LeafField, LevelCount;
    if |p| > |levels| {
      var q, i := p[..|p| - 1], p[|p| - 1];
      AllReached(env, t, levels, first, fields, q);
      var s := Walk(env, t, q).value;
      WalkStep(env, t, first[s], i);
      AllReached(env, t, levels, first, fields, first[s] + [i]);
    }
  }

  ghost predicate Counts(env: Env, count: map<TypeId, nat>, level: seq<TypeId>) {
    forall u :: Get(count, u) == LevelCount(env, level, u)
  }

  // Between levels: the nodes of the next level are queued and counted.
  ghost predicate AtLevel(env: Env, t: TypeId, levels: seq<seq<TypeId>>, first: Paths,
                          fields: seq<Field>, next: seq<Node>, nextCount: map<TypeId, nat>) {
    && first.Keys <= Below(|env.kinds|)
    && Queued(env, t, next, |levels|)
    && Reached(env, t, |levels|, first) && Pending(env, t, |levels|, first, next)
    && Expanded(env, t, levels, first, fields)
    && Counts(env, nextCount, if |levels| == 0 then [] else levels[|levels| - 1])
  }

  // Within a level: rest is still to be visited, level lists the types expanded so far.
  ghost predicate InLevel(env: Env, t: TypeId, levels: seq<seq<TypeId>>, level: seq<TypeId>, first: Paths,
                          fields: seq<Field>, next: seq<Node>, nextCount: map<TypeId, nat>, rest: seq<Node>) {
    && first.Keys <= Below(|env.kinds|)
    && Queued(env, t, next, |levels| + 1) && Queued(env, t, rest, |levels|)
    && Reached(env, t, |levels|, first) && Pending(env, t, |levels|, first, rest)
    && Expanded(env, t, levels + [level], first, fields)
    && Counts(env, nextCount, level)
    && forall u | Get(nextCount, u) > 0 :: HasType(next, u)
  }

  method Collect(env: Env, t: TypeId) returns (fields: seq<Field>)
    requires KindOf(env, t).KStruct?
    ensures IsCollection(env, t, fields)
  {
    hide AtLevel, InLevel, HasType, EmbedCount, Leaves, Expanded, Collected, LevelCount, Grown, OrderAt, OrderIn,
         Exact, InOrder, Behind,
         LevelIs;
    var next: seq<Node> := [Node([], t)];
    var nextCount: map<TypeId, nat> := map[];
    var visited: set<TypeId> := {};
    ghost var levels: seq<seq<TypeId>> := [];
    ghost var first: Paths := map[];
    fields := [];
    StartWalk(env, t);
    while |next| > 0
      invariant visited == first.Keys
      invariant AtLevel(env, t, levels, first, fields, next, nextCount)
      invariant OrderAt(env, first, next, |levels|) && Exact(levels, first)
      decreases Below(|env.kinds|) - first.Keys, |next|
    {
      StartLevel(env, t, levels, first, fields, next, nextCount);
      OrderStartLevel(env, first, next, |levels|);
      ExactStart(env, levels, first, next);
      var current := next;
      var count := nextCount;
      next, nextCount := [], map[];
      ghost var level, first0 := [], first;
      var ci := 0;
      while ci < |current|
        invariant 0 <= ci <= |current|
        invariant first0.Keys <= first.Keys == visited
        invariant first0.Keys == first.Keys ==> next == []
        invariant first0.Keys != first.Keys ==> exists u :: u in Below(|env.kinds|) && u in first && u !in first0
        invariant Counts(env, count, if |levels| == 0 then [] else levels[|levels| - 1])
        invariant InLevel(env, t, levels, level, first, fields, next, nextCount, current[ci..])
        invariant OrderIn(env, first, next, current[ci..], |levels|) && Exact(levels + [level], first)
      {
        var n := current[ci];
        assert current[ci..][0] == n && current[ci..][1..] == current[ci + 1..];
        if n.typ in visited {
          SkipNode(env, t, levels, level, first, fields, next, nextCount, current[ci..]);
          OrderSkip(env, first, next, current[ci..], |levels|);
        } else {
          CountsQueued(env, t, levels, level, first, fields, next, nextCount, current[ci..]);
          QueueBehind(env, first, next, current[ci..], |levels|);
          ghost var fields0, next0, nextCount0 := fields, next, nextCount;
          fields, next, nextCount := ExpandNode(env, n, Get(count, n.typ) > 1, fields, next, nextCount);
          VisitNode(env, t, levels, level, first, fields0, next0, nextCount0, current[ci..], count, next, nextCount);
          InRange(env, t, levels, level, first, fields0, next0, nextCount0, current[ci..]);
          OrderVisit(env, first, next0, next, current[ci..], |levels|);
          ExactMore(levels, level, first, n);
          visited := visited + {n.typ};
          level, first := level + [n.typ], first[n.typ := n.index];
        }
        ci := ci + 1;
      }
      assert current[ci..] == [];
      EndLevel(env, t, levels, level, first, fields, next, nextCount);
      OrderEndLevel(env, first, next, |levels|);
      levels := levels + [level];
    }
    EndWalk(env, t, levels, first, fields, nextCount);
  }

  // Each level lists exactly the types whose path has its length.
  ghost predicate Exact(levels: seq<seq<TypeId>>, first: Paths) {
    forall d | 0 <= d < |levels| :: LevelIs(levels[d], first, d)
  }

  lemma ExactStart(env: Env, levels: seq<seq<TypeId>>, first: Paths, next: seq<Node>)
    requires Exact(levels, first) && OrderAt(env, first, next, |levels|)
    ensures Exact(levels + [[]], first)
  {
    hide InOrder, AllAttached, Awaited, Continued, LexLess, NoRepeats;
    assert LevelIs([], first, |levels|) by {
      assert NoRepeats([]) by { NothingRepeats(); }
    }
  }

  lemma NothingRepeats()
    ensures NoRepeats([])
  {
  }

  lemma ExactMore(levels: seq<seq<TypeId>>, level: seq<TypeId>, first: Paths, n: Node)
    requires Exact(levels + [level], first) && n.typ !in first && |n.index| == |levels|
    ensures Exact(levels + [level + [n.typ]], first[n.typ := n.index])
  {
    var first', more := first[n.typ := n.index], levels + [level + [n.typ]];
    assert LevelIs((levels + [level])[|levels|], first, |levels|);
    assert LevelIs(level + [n.typ], first', |levels|);
    forall d | 0 <= d < |levels| ensures LevelIs(more[d], first', d) {
      assert LevelIs((levels + [level])[d], first, d);
    }
  }

  lemma QueueBehind(env: Env, first: Paths, next: seq<Node>, rest: seq<Node>, depth: nat)
    requires OrderIn(env, first, next, rest, depth) && rest != []
    ensures InOrder(next) && Behind(next, rest[0]) && |rest[0].index| == depth
  {
    hide InOrder, Awaited, Queuing, Given, Attached, LexLess;
  }

  lemma InRange(env: Env, t: TypeId, levels: seq<seq<TypeId>>, level: seq<TypeId>, first: Paths,
                fields: seq<Field>, next: seq<Node>, nextCount: map<TypeId, nat>, rest: seq<Node>)
    requires InLevel(env, t, levels, level, first, fields, next, nextCount, rest)
    requires rest != [] && KindOf(env, t).KStruct?
    ensures rest[0].typ in Below(|env.kinds|)
  {
    hide Walk, Expanded, HasType;
    WalkedIsStruct(env, t, rest[0].index);
  }

  lemma StartWalk(env: Env, t: TypeId)
    ensures AtLevel(env, t, [], map[], [], [Node([], t)], map[])
    ensures OrderAt(env, map[], [Node([], t)], 0) && Exact([], map[])
  {
    OrderStart(env, t);
    assert [Node([], t)][0].typ == t;
  }

  lemma StartLevel(env: Env, t: TypeId, levels: seq<seq<TypeId>>, first: Paths,
                   fields: seq<Field>, next: seq<Node>, nextCount: map<TypeId, nat>)
    requires AtLevel(env, t, levels, first, fields, next, nextCount)
    ensures InLevel(env, t, levels, [], first, fields, [], map[], next)
    ensures Counts(env, nextCount, if |levels| == 0 then [] else levels[|levels| - 1])
    ensures first.Keys <= Below(|env.kinds|)
  {
    hide Walk, HasType, Expanded, Pending, Reached, LevelCount;
    EmptyLevel(env, t, levels, first, fields);
    forall u ensures LevelCount(env, [], u) == 0 {
      NoneEmbeds(env, u);
    }
  }

  // A new level starts empty.
  lemma EmptyLevel(env: Env, t: TypeId, levels: seq<seq<TypeId>>, first: Paths, fields: seq<Field>)
    requires Expanded(env, t, levels, first, fields)
    ensures Expanded(env, t, levels + [[]], first, fields)
  {
    hide Walk, LeafAt, LeafField, FromFirst, LevelCount;
    forall s | s in first
      ensures |first[s]| < |levels + [[]]| && s in (levels + [[]])[|first[s]|]
      ensures Copies(env, levels + [[]], first, s) == Copies(env, levels, first, s)
    {
      assert |first[s]| < |levels| && (levels + [[]])[|first[s]|] == levels[|first[s]|];
    }
  }

  lemma SkipNode(env: Env, t: TypeId, levels: seq<seq<TypeId>>, level: seq<TypeId>, first: Paths,
                 fields: seq<Field>, next: seq<Node>, nextCount: map<TypeId, nat>, rest: seq<Node>)
    requires InLevel(env, t, levels, level, first, fields, next, nextCount, rest) && rest != [] && rest[0].typ in first
    ensures InLevel(env, t, levels, level, first, fields, next, nextCount, rest[1..])
  {
    hide Walk, Expanded, HasType, Pending;
    PendingPops(env, t, |levels|, first, rest);
  }

  lemma CountsQueued(env: Env, t: TypeId, levels: seq<seq<TypeId>>, level: seq<TypeId>, first: Paths,
                     fields: seq<Field>, next: seq<Node>, nextCount: map<TypeId, nat>, rest: seq<Node>)
    requires InLevel(env, t, levels, level, first, fields, next, nextCount, rest)
    ensures forall u | Get(nextCount, u) > 0 :: HasType(next, u)
  {
    hide HasType, Expanded;
  }

  lemma VisitNode(env: Env, t: TypeId, levels: seq<seq<TypeId>>, level: seq<TypeId>, first: Paths,
                  fields: seq<Field>, next: seq<Node>, nextCount: map<TypeId, nat>, rest: seq<Node>,
                  count: map<TypeId, nat>, next': seq<Node>, nextCount': map<TypeId, nat>)
    requires InLevel(env, t, levels, level, first, fields, next, nextCount, rest) && KindOf(env, t).KStruct?
    requires rest != [] && rest[0].typ !in first
    requires Counts(env, count, if |levels| == 0 then [] else levels[|levels| - 1])
    requires forall u :: Get(nextCount', u) == Get(nextCount, u) + EmbedCount(env, rest[0].typ, u, 0)
    requires Grown(env, rest[0], next, next') && forall u | Get(nextCount', u) > 0 :: HasType(next', u)
    ensures var n := rest[0];
            InLevel(env, t, levels, level + [n.typ], first[n.typ := n.index],
                    fields + Leaves(env, n.typ, n.index, Get(count, n.typ) > 1, 0), next', nextCount', rest[1..])
  {
    hide Walk, Expanded, HasType, IsEmbedded, Leaves, LevelCount, EmbedCount, Pending, Reached, Grown;
    var n := rest[0];
    var first' := first[n.typ := n.index];
    WalkedIsStruct(env, t, n.index);
    NoneEmbeds(env, n.typ);
    ExpandStep(env, t, levels, level, first, fields, n, Get(count, n.typ) > 1);
    QueuedMore(env, t, n, next, next', |levels| + 1);
    LevelGrows(env, level, n.typ);
    MoreFirst(env, t, |levels|, first, first', rest);
    PendingPops(env, t, |levels|, first', rest);
  }

  lemma NoneEmbeds(env: Env, u: TypeId)
    ensures LevelCount(env, [], u) == 0
  {
  }

  lemma MoreFirst(env: Env, t: TypeId, depth: nat, first: Paths, first': Paths, rest: seq<Node>)
    requires Reached(env, t, depth, first) && Pending(env, t, depth, first, rest) && first.Keys <= first'.Keys
    ensures Reached(env, t, depth, first') && Pending(env, t, depth, first', rest)
  {
    hide Walk, HasType;
  }

  lemma EndLevel(env: Env, t: TypeId, levels: seq<seq<TypeId>>, level: seq<TypeId>, first: Paths,
                 fields: seq<Field>, next: seq<Node>, nextCount: map<TypeId, nat>)
    requires InLevel(env, t, levels, level, first, fields, next, nextCount, [])
    ensures AtLevel(env, t, levels + [level], first, fields, next, nextCount)
  {
    hide Walk, Expanded, HasType, Pending, Reached, LevelCount;
    NothingPending(env, t, |levels|, first);
    forall u | LevelCount(env, level, u) > 0 ensures HasType(next, u) {
      assert Get(nextCount, u) > 0;
    }
    LevelDone(env, t, levels, level, first, fields, next);
  }

  lemma EndWalk(env: Env, t: TypeId, levels: seq<seq<TypeId>>, first: Paths, fields: seq<Field>,
                nextCount: map<TypeId, nat>)
    requires AtLevel(env, t, levels, first, fields, [], nextCount)
    requires OrderAt(env, first, [], |levels|) && Exact(levels, first)
    ensures Collected(env, t, first, fields)
  {
    hide Walk, Pending, Reached, Exact, Twice, Given, Placed, FirstPaths, InOrder, AllAttached, Awaited, Queued, Counts;
    forall p: seq<nat> | Walk(env, t, p).Some? ensures Walk(env, t, p).value in first {
      AllReached(env, t, levels, first, fields, p);
    }
    PathsFirst(env, t, levels, first);
    ListedTwice(env, t, levels, first, fields);
  }

  lemma PathsFirst(env: Env, t: TypeId, levels: seq<seq<TypeId>>, first: Paths)
    requires Placed(env, t, levels, first) && Given(env, first, |levels|)
    requires forall p: seq<nat> | Walk(env, t, p).Some? :: Walk(env, t, p).value in first
    ensures FirstPaths(env, t, first)
  {
    hide Walk, Continued, LexLess;
  }

  lemma ListedTwice(env: Env, t: TypeId, levels: seq<seq<TypeId>>, first: Paths, fields: seq<Field>)
    requires Placed(env, t, levels, first) && Listed(env, t, levels, first, fields) && Exact(levels, first)
    ensures forall s, i: nat | s in first && LeafAt(env, s, i) ::
              multiset(fields)[LeafField(env, s, i, first[s] + [i])] == if Twice(env, first, s) then 2 else 1
  {
    hide Walk, Exact, Twice, LeafField, FromFirst, Copies, IsLeaf;
    forall s | s in first ensures Copies(env, levels, first, s) == if Twice(env, first, s) then 2 else 1 {
      CopiesTwice(env, levels, first, s);
    }
  }

  lemma CopiesTwice(env: Env, levels: seq<seq<TypeId>>, first: Paths, s: TypeId)
    requires Exact(levels, first) && s in first && |first[s]| < |levels|
    ensures Copies(env, levels, first, s) == if Twice(env, first, s) then 2 else 1
  {
    hide Twice, LevelCount, LevelIs;
    if first[s] == [] {
      RootOnce(env, first, s);
    } else {
      CountedTwice(env, levels[|first[s]| - 1], first, s);
    }
  }

  lemma QueuedMore(env: Env, t: TypeId, n: Node, next0: seq<Node>, next: seq<Node>, depth: nat)
    requires Queued(env, t, next0, depth) && Grown(env, n, next0, next)
    requires |n.index| + 1 == depth && Walk(env, t, n.index) == Some(n.typ)
    ensures Queued(env, t, next, depth)
  {
    hide Walk, IsEmbedded, InOrder, Early;
    forall k | 0 <= k < |next|
      ensures |next[k].index| == depth && Walk(env, t, next[k].index) == Some(next[k].typ)
    {
      if k < |next0| {
        assert next[k] == next0[k];
      } else {
        var i :| EmbedsTo(env, n.typ, i, next[k].typ) && next[k].index == n.index + [i];
        WalkStep(env, t, n.index, i);
      }
    }
  }

  lemma LevelGrows(env: Env, level: seq<TypeId>, s: TypeId)
    ensures forall u :: LevelCount(env, level + [s], u) == LevelCount(env, level, u) + EmbedCount(env, s, u, 0)
  {
    assert (level + [s])[..|level|] == level;
  }

  lemma PendingPops(env: Env, t: TypeId, depth: nat, first: Paths, nodes: seq<Node>)
    requires nodes != [] && Pending(env, t, depth, first, nodes) && nodes[0].typ in first
    ensures Pending(env, t, depth, first, nodes[1..])
  {
    hide Walk;
    forall u | HasType(nodes, u) && u != nodes[0].typ ensures HasType(nodes[1..], u) {
      var k :| 0 <= k < |nodes| && nodes[k].typ == u;
      assert nodes[1..][k - 1] == nodes[k];
    }
  }

  lemma NothingPending(env: Env, t: TypeId, depth: nat, first: Paths)
    requires Reached(env, t, depth, first) && Pending(env, t, depth, first, [])
    ensures Reached(env, t, depth + 1, first)
  {
    hide Walk;
  }
}
