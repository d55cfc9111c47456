// The order in which the breadth-first walk over embedded structs reaches them: every struct type
// is expanded under the earliest of its shortest paths (typeFields in mcpack/encode.go).
module WalkOrder {
  import opened Values
  import opened Embedding

  type Paths = map<TypeId, seq<nat>>

  // ---- Paths of one length ----------------------------------------------------------------

  lemma {:induction false} LexExtend(p: seq<nat>, q: seq<nat>, i: nat, j: nat)
    requires |p| == |q|
    ensures LexLess(p, q) ==> LexLess(p + [i], q + [j])
    ensures i < j && p == q ==> LexLess(p + [i], q + [j])
  {
    if p == [] {
      assert p + [i] == [i] && q + [j] == [j];
    } else {
      LexExtend(p[1..], q[1..], i, j);
      assert (p + [i])[1..] == p[1..] + [i] && (q + [j])[1..] == q[1..] + [j];
      assert p == [p[0]] + p[1..] && q == [q[0]] + q[1..];
    }
  }

  // ---- The queue ----------------------------------------------------------------------------

  ghost predicate InOrder(nodes: seq<Node>) {
    forall j, k | 0 <= j < k < |nodes| :: LexLess(nodes[j].index, nodes[k].index)
  }

  // Some node for the type stands at the path or before it.
  ghost predicate Early(nodes: seq<Node>, u: TypeId, p: seq<nat>) {
    exists k | 0 <= k < |nodes| :: nodes[k].typ == u && !LexLess(p, nodes[k].index)
  }

  lemma StillEarly(nodes: seq<Node>, nodes': seq<Node>, u: TypeId, p: seq<nat>)
    requires nodes <= nodes' && Early(nodes, u, p)
    ensures Early(nodes', u, p)
  {
    var k :| 0 <= k < |nodes| && nodes[k].typ == u && !LexLess(p, nodes[k].index);
    assert nodes'[k] == nodes[k];
  }

  // The first node for a type is the earliest.
  lemma FirstIsEarliest(nodes: seq<Node>, p: seq<nat>)
    requires InOrder(nodes) && nodes != [] && Early(nodes, nodes[0].typ, p)
    ensures !LexLess(p, nodes[0].index)
  {
    var k :| 0 <= k < |nodes| && nodes[k].typ == nodes[0].typ && !LexLess(p, nodes[k].index);
    if k > 0 && LexLess(p, nodes[0].index) {
      LexTransitive(p, nodes[0].index, nodes[k].index);
    }
  }

  // Every node in the queue continues the path of an expanded type; the root has no such type.
  ghost predicate Attached(env: Env, first: Paths, n: Node) {
    n.index == [] || exists u, i :: u in first && EmbedsTo(env, u, i, n.typ) && n.index == first[u] + [i]
  }

  ghost predicate AllAttached(env: Env, first: Paths, nodes: seq<Node>, depth: nat) {
    forall k | 0 <= k < |nodes| :: Attached(env, first, nodes[k]) && |nodes[k].index| == depth
  }

  // Types embedded by types of the level above are expanded, or are queued early enough.
  ghost predicate Awaited(env: Env, first: Paths, nodes: seq<Node>, depth: nat) {
    forall u, i, s | u in first && |first[u]| + 1 == depth && EmbedsTo(env, u, i, s) ::
      s in first || Early(nodes, s, first[u] + [i])
  }

  // Types embedded by types of the level being expanded are queued early enough.
  ghost predicate Queuing(env: Env, first: Paths, nodes: seq<Node>, depth: nat) {
    forall u, i, s | u in first && |first[u]| + 1 == depth && EmbedsTo(env, u, i, s) ::
      Early(nodes, s, first[u] + [i])
  }

  // What is queued for the next level comes from before what is left of this one.
  ghost predicate Precedes(next: seq<Node>, rest: seq<Node>) {
    forall j, k | 0 <= j < |next| && 0 <= k < |rest| :: Ahead(next[j], rest[k])
  }

  predicate Ahead(x: Node, y: Node) {
    x.index != [] && LexLess(Init(x.index), y.index)
  }

  // The paths given so far are the earliest of their length that continue given ones.
  ghost predicate Given(env: Env, first: Paths, depth: nat) {
    && (forall s | s in first :: |first[s]| < depth)
    && (forall s | s in first :: Continued(env, first, s))
    && (forall u, i, s | NextTo(env, first, u, i, s) :: !LexLess(first[u] + [i], first[s]))
  }

  // Between levels.
  ghost predicate OrderAt(env: Env, first: Paths, next: seq<Node>, depth: nat) {
    && Given(env, first, depth)
    && InOrder(next) && AllAttached(env, first, next, depth) && Awaited(env, first, next, depth)
  }

  // Within a level.
  ghost predicate OrderIn(env: Env, first: Paths, next: seq<Node>, rest: seq<Node>, depth: nat) {
    && Given(env, first, depth + 1)
    && InOrder(rest) && AllAttached(env, first, rest, depth) && Awaited(env, first, rest, depth)
    && InOrder(next) && AllAttached(env, first, next, depth + 1) && Queuing(env, first, next, depth + 1)
    && Precedes(next, rest)
  }

  // x stands for a declaration of n's type.
  ghost predicate Declared(env: Env, n: Node, x: Node) {
    exists i :: EmbedsTo(env, n.typ, i, x.typ) && x.index == n.index + [i]
  }

  // What expanding a node does to the queue of the next level.
  ghost predicate Grown(env: Env, n: Node, next: seq<Node>, next': seq<Node>) {
    && next <= next' && InOrder(next')
    && (forall k | |next| <= k < |next'| :: Declared(env, n, next'[k]))
    && (forall i, u | EmbedsTo(env, n.typ, i, u) :: Early(next', u, n.index + [i]))
  }

  lemma OrderStart(env: Env, t: TypeId)
    ensures OrderAt(env, map[], [Node([], t)], 0)
  {
  }

  lemma OrderStartLevel(env: Env, first: Paths, next: seq<Node>, depth: nat)
    requires OrderAt(env, first, next, depth)
    ensures OrderIn(env, first, [], next, depth)
  {
    hide Continued, LexLess, Attached, Awaited, Early;
  }

  lemma OrderEndLevel(env: Env, first: Paths, next: seq<Node>, depth: nat)
    requires OrderIn(env, first, next, [], depth)
    ensures OrderAt(env, first, next, depth + 1)
  {
    hide Given, InOrder, AllAttached, Early;
  }

  lemma OrderSkip(env: Env, first: Paths, next: seq<Node>, rest: seq<Node>, depth: nat)
    requires OrderIn(env, first, next, rest, depth) && rest != [] && rest[0].typ in first
    ensures OrderIn(env, first, next, rest[1..], depth)
  {
    hide Given, Queuing, LexLess;
    Tails(env, first, next, rest, depth);
    AwaitedPops(env, first, rest, depth);
  }

  lemma Tails(env: Env, first: Paths, next: seq<Node>, rest: seq<Node>, depth: nat)
    requires rest != [] && InOrder(rest) && AllAttached(env, first, rest, depth) && Precedes(next, rest)
    ensures InOrder(rest[1..]) && AllAttached(env, first, rest[1..], depth) && Precedes(next, rest[1..])
  {
    hide Attached, Precedes;
    PrecedesTail(next, rest);
  }

  lemma PrecedesTail(next: seq<Node>, rest: seq<Node>)
    requires rest != [] && Precedes(next, rest)
    ensures Precedes(next, rest[1..])
  {
    hide Ahead;
    forall j, k | 0 <= j < |next| && 0 <= k < |rest[1..]| ensures Ahead(next[j], rest[1..][k]) {
      assert rest[1..][k] == rest[k + 1];
    }
  }

  lemma AwaitedPops(env: Env, first: Paths, rest: seq<Node>, depth: nat)
    requires rest != [] && Awaited(env, first, rest, depth) && rest[0].typ in first
    ensures Awaited(env, first, rest[1..], depth)
  {
    hide LexLess;
    forall u, i, s | u in first && |first[u]| + 1 == depth && EmbedsTo(env, u, i, s) && s !in first
      ensures Early(rest[1..], s, first[u] + [i])
    {
      var k :| 0 <= k < |rest| && rest[k].typ == s && !LexLess(first[u] + [i], rest[k].index);
      assert rest[1..][k - 1] == rest[k];
    }
  }

  // ---- Expanding a node -----------------------------------------------------------------------

  lemma OrderVisit(env: Env, first: Paths, next: seq<Node>, next': seq<Node>, rest: seq<Node>, depth: nat)
    requires OrderIn(env, first, next, rest, depth) && rest != [] && rest[0].typ !in first
    requires Grown(env, rest[0], next, next')
    ensures OrderIn(env, first[rest[0].typ := rest[0].index], next', rest[1..], depth)
  {
    hide InOrder, AllAttached, Awaited, Queuing, Precedes, Given, LexLess, Early;
    var n := rest[0];
    var first' := first[n.typ := n.index];
    GivenOneMore(env, first, rest, depth);
    MoreAttached(env, first, rest, depth, n);
    MoreAttached(env, first, next, depth + 1, n);
    GrownAttached(env, first, next, next', rest, depth);
    AwaitedMore(env, first, rest, depth, n);
    Tails(env, first', next, rest, depth);
    AwaitedPops(env, first', rest, depth);
    GrownQueuing(env, first, next, next', n, depth);
    GrownBelow(env, first, next, next', rest, depth);
  }

  lemma GivenOneMore(env: Env, first: Paths, rest: seq<Node>, depth: nat)
    requires Given(env, first, depth + 1) && rest != [] && rest[0].typ !in first
    requires InOrder(rest) && AllAttached(env, first, rest, depth) && Awaited(env, first, rest, depth)
    ensures Given(env, first[rest[0].typ := rest[0].index], depth + 1)
  {
    hide LexLess, InOrder;
    var n := rest[0];
    var first' := first[n.typ := n.index];
    forall s | s in first' ensures Continued(env, first', s) {
      StillContinued(env, first, n, s);
    }
    forall u, i, s | NextTo(env, first', u, i, s) ensures !LexLess(first'[u] + [i], first'[s]) {
      if s == n.typ {
        assert u in first && Early(rest, s, first[u] + [i]);
        FirstIsEarliest(rest, first[u] + [i]);
      } else {
        assert NextTo(env, first, u, i, s);
      }
    }
  }

  lemma StillContinued(env: Env, first: Paths, n: Node, s: TypeId)
    requires n.typ !in first && Attached(env, first, n)
    requires s == n.typ || (s in first && Continued(env, first, s))
    ensures Continued(env, first[n.typ := n.index], s)
  {
    var first' := first[n.typ := n.index];
    if s == n.typ {
      if n.index != [] {
        var u, i :| u in first && EmbedsTo(env, u, i, n.typ) && n.index == first[u] + [i];
        assert NextTo(env, first', u, i, s);
      }
    } else if first[s] != [] {
      var u, i :| NextTo(env, first, u, i, s) && first[s] == first[u] + [i];
      assert NextTo(env, first', u, i, s);
    }
  }

  lemma MoreAttached(env: Env, first: Paths, nodes: seq<Node>, depth: nat, n: Node)
    requires AllAttached(env, first, nodes, depth) && n.typ !in first
    ensures AllAttached(env, first[n.typ := n.index], nodes, depth)
  {
    forall k | 0 <= k < |nodes| ensures Attached(env, first[n.typ := n.index], nodes[k]) {
      assert Attached(env, first, nodes[k]);
    }
  }

  lemma GrownAttached(env: Env, first: Paths, next: seq<Node>, next': seq<Node>, rest: seq<Node>, depth: nat)
    requires rest != [] && AllAttached(env, first, rest, depth) && rest[0].typ !in first
    requires AllAttached(env, first[rest[0].typ := rest[0].index], next, depth + 1)
    requires Grown(env, rest[0], next, next')
    ensures AllAttached(env, first[rest[0].typ := rest[0].index], next', depth + 1)
  {
    hide InOrder, Early;
    var n := rest[0];
    forall k | 0 <= k < |next'|
      ensures Attached(env, first[n.typ := n.index], next'[k]) && |next'[k].index| == depth + 1
    {
      if k < |next| {
        assert next'[k] == next[k];
      } else {
        var i :| EmbedsTo(env, n.typ, i, next'[k].typ) && next'[k].index == n.index + [i];
      }
    }
  }

  // The node's own type lies on this level, so nothing new is awaited.
  lemma AwaitedMore(env: Env, first: Paths, rest: seq<Node>, depth: nat, n: Node)
    requires Awaited(env, first, rest, depth) && |n.index| == depth && n.typ !in first
    ensures Awaited(env, first[n.typ := n.index], rest, depth)
  {
    hide Early;
  }

  lemma GrownQueuing(env: Env, first: Paths, next: seq<Node>, next': seq<Node>, n: Node, depth: nat)
    requires Queuing(env, first, next, depth + 1) && Grown(env, n, next, next') && |n.index| == depth && n.typ !in first
    ensures Queuing(env, first[n.typ := n.index], next', depth + 1)
  {
    hide Early, InOrder;
    var first' := first[n.typ := n.index];
    forall u, i, s | u in first' && |first'[u]| + 1 == depth + 1 && EmbedsTo(env, u, i, s)
      ensures Early(next', s, first'[u] + [i])
    {
      if u != n.typ {
        StillEarly(next, next', s, first[u] + [i]);
      }
    }
  }

  lemma GrownBelow(env: Env, first: Paths, next: seq<Node>, next': seq<Node>, rest: seq<Node>, depth: nat)
    requires rest != [] && InOrder(rest) && Precedes(next, rest[1..]) && Grown(env, rest[0], next, next')
    ensures Precedes(next', rest[1..])
  {
    hide LexLess, Early;
    var n, more := rest[0], rest[1..];
    forall j, k | 0 <= j < |next'| && 0 <= k < |more| ensures Ahead(next'[j], more[k]) {
      assert more[k] == rest[k + 1];
      if j < |next| {
        assert next'[j] == next[j];
      } else {
        var i :| EmbedsTo(env, n.typ, i, next'[j].typ) && next'[j].index == n.index + [i];
        assert Init(next'[j].index) == n.index;
      }
    }
  }

  // ---- Counting ---------------------------------------------------------------------------------

  ghost predicate Edge(env: Env, level: seq<TypeId>, u: TypeId, i: nat, s: TypeId) {
    u in level && EmbedsTo(env, u, i, s)
  }

  ghost predicate NoRepeats(level: seq<TypeId>) {
    forall i, j | 0 <= i < j < |level| :: level[i] != level[j]
  }

  // How many declarations from the i-th on embed s: none, one or more.
  lemma {:induction false} EmbedCounts(env: Env, u: TypeId, s: TypeId, i: nat)
    ensures EmbedCount(env, u, s, i) > 0 <==> exists j :: i <= j && EmbedsTo(env, u, j, s)
    ensures EmbedCount(env, u, s, i) > 1 <==>
            exists j, k :: i <= j < k && EmbedsTo(env, u, j, s) && EmbedsTo(env, u, k, s)
    decreases |Decls(env, u)| - i
  {
    if i < |Decls(env, u)| {
      EmbedCounts(env, u, s, i + 1);
      if j :| i <= j && EmbedsTo(env, u, j, s) {
        assert j == i || i + 1 <= j;
      }
      if j, k :| i <= j < k && EmbedsTo(env, u, j, s) && EmbedsTo(env, u, k, s) {
        assert i + 1 <= k;
      }
      if EmbedCount(env, u, s, i) > 1 && EmbedsTo(env, u, i, s) {
        var k :| i + 1 <= k && EmbedsTo(env, u, k, s);
        assert i < k;
      }
    }
  }

  lemma {:induction false} LevelCounts(env: Env, level: seq<TypeId>, s: TypeId)
    ensures LevelCount(env, level, s) > 0 <==> exists u, i :: Edge(env, level, u, i, s)
    decreases |level|
  {
    hide EmbedCount, EmbedsTo;
    if level != [] {
      var front, last := level[..|level| - 1], level[|level| - 1];
      LevelCounts(env, front, s);
      EmbedCounts(env, last, s, 0);
      assert level == front + [last];
      if u, i :| Edge(env, level, u, i, s) {
        assert Edge(env, front, u, i, s) || (0 <= i && EmbedsTo(env, last, i, s));
      }
      if LevelCount(env, front, s) > 0 {
        var u, i :| Edge(env, front, u, i, s);
        assert Edge(env, level, u, i, s);
      } else if EmbedCount(env, last, s, 0) > 0 {
        var j :| 0 <= j && EmbedsTo(env, last, j, s);
        assert Edge(env, level, last, j, s);
      }
    }
  }

  ghost predicate TwoEdgesTo(env: Env, level: seq<TypeId>, s: TypeId) {
    exists u, i, v, j :: Edge(env, level, u, i, s) && Edge(env, level, v, j, s) && (u != v || i != j)
  }

  lemma {:induction false} LevelCountsTwice(env: Env, level: seq<TypeId>, s: TypeId)
    requires NoRepeats(level)
    ensures LevelCount(env, level, s) > 1 <==> TwoEdgesTo(env, level, s)
    decreases |level|
  {
    hide EmbedCount, TwoEdgesTo;
    if level == [] {
      NoEdges(env, s);
    } else {
      var front, last := level[..|level| - 1], level[|level| - 1];
      LevelCountsTwice(env, front, s);
      assert level == front + [last] && last !in front;
      if TwoEdgesTo(env, level, s) {
        AtLeastTwo(env, front, last, s);
      }
      if LevelCount(env, level, s) > 1 {
        TwoEdges(env, front, last, s);
      }
    }
  }

  lemma NoEdges(env: Env, s: TypeId)
    ensures !TwoEdgesTo(env, [], s)
  {
  }

  lemma AtLeastTwo(env: Env, front: seq<TypeId>, last: TypeId, s: TypeId)
    requires last !in front && TwoEdgesTo(env, front + [last], s)
    requires TwoEdgesTo(env, front, s) ==> LevelCount(env, front, s) > 1
    ensures LevelCount(env, front, s) + EmbedCount(env, last, s, 0) > 1
  {
    hide LevelCount, EmbedCount, EmbedsTo;
    var u, i, v, j :| Edge(env, front + [last], u, i, s) && Edge(env, front + [last], v, j, s) && (u != v || i != j);
    LevelCounts(env, front, s);
    EmbedCounts(env, last, s, 0);
    assert u == last || Edge(env, front, u, i, s);
    assert v == last || Edge(env, front, v, j, s);
    if u == last && v == last {
      assert if i < j then EmbedsTo(env, last, i, s) && EmbedsTo(env, last, j, s)
             else EmbedsTo(env, last, j, s) && EmbedsTo(env, last, i, s);
    } else if u == last {
      assert EmbedsTo(env, last, i, s);
    } else if v == last {
      assert EmbedsTo(env, last, j, s);
    }
  }

  lemma TwoEdges(env: Env, front: seq<TypeId>, last: TypeId, s: TypeId)
    requires last !in front && LevelCount(env, front, s) + EmbedCount(env, last, s, 0) > 1
    requires LevelCount(env, front, s) > 1 ==> TwoEdgesTo(env, front, s)
    ensures TwoEdgesTo(env, front + [last], s)
  {
    hide LevelCount, EmbedCount, EmbedsTo;
    var level := front + [last];
    LevelCounts(env, front, s);
    EmbedCounts(env, last, s, 0);
    if LevelCount(env, front, s) > 1 {
      var u, i, v, j :| Edge(env, front, u, i, s) && Edge(env, front, v, j, s) && (u != v || i != j);
      assert Edge(env, level, u, i, s) && Edge(env, level, v, j, s);
    } else if EmbedCount(env, last, s, 0) > 1 {
      var j, k :| 0 <= j < k && EmbedsTo(env, last, j, s) && EmbedsTo(env, last, k, s);
      assert Edge(env, level, last, j, s) && Edge(env, level, last, k, s);
    } else {
      var u, i :| Edge(env, front, u, i, s);
      var j :| 0 <= j && EmbedsTo(env, last, j, s);
      assert Edge(env, level, u, i, s) && Edge(env, level, last, j, s);
    }
  }

  // The level lists exactly the types whose path has the given length.
  ghost predicate LevelIs(level: seq<TypeId>, first: Paths, depth: nat) {
    NoRepeats(level) && forall u :: u in level <==> u in first && |first[u]| == depth
  }

  lemma CountedTwice(env: Env, level: seq<TypeId>, first: Paths, s: TypeId)
    requires s in first && |first[s]| > 0 && LevelIs(level, first, |first[s]| - 1)
    ensures LevelCount(env, level, s) > 1 <==> Twice(env, first, s)
  {
    hide LevelCount, EmbedsTo;
    LevelCountsTwice(env, level, s);
    forall u, i: nat ensures Edge(env, level, u, i, s) <==> NextTo(env, first, u, i, s) {
    }
  }

  lemma RootOnce(env: Env, first: Paths, s: TypeId)
    requires s in first && first[s] == []
    ensures !Twice(env, first, s)
  {
  }
}
