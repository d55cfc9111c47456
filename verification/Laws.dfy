// Laws of the generic decoder and of the code itself: nesting is bounded on any input, encodings
// are self-delimiting, and the order of an object's members does not matter.
module Laws {
  import opened Bytes
  import opened Wire
  import opened Decode
  import opened Generic

  // ---- Arbitrary bytes: nesting is bounded by the data --------------------------

  // No value in a is nested deeper than d levels.
  ghost predicate DepthAtMost(a: Any, d: nat)
    decreases d
  {
    d > 0 &&
    match a
    case Scalar(_) => true
    case Map(m) => forall k | k in m :: DepthAtMost(m[k], d - 1)
    case List(es) => forall e | e in es :: DepthAtMost(e, d - 1)
  }

  // Ten bytes are spent on every level but the last.
  function Levels(data: bytes, off: nat): nat {
    if off < |data| then (|data| - off - 1) / 10 + 1 else 0
  }

  // n lists around null.
  function Nested(n: nat): Any {
    if n == 0 then Any.Scalar(Null) else List([Nested(n - 1)])
  }

  function NestedItem(n: nat): Item {
    if n == 0 then Leaf(Null) else Array(1, [Member([], NestedItem(n - 1))])
  }

  lemma {:induction false} NestedDepth(n: nat, d: nat)
    ensures DepthAtMost(Nested(n), d) <==> n < d
  {
    if n > 0 && d > 0 {
      NestedDepth(n - 1, d - 1);
      assert Nested(n).es == [Nested(n - 1)] && Nested(n - 1) in Nested(n).es;
    }
  }

  // The bound of DepthBound is met: n lists of one element are encoded in 10 * n + 3 bytes.
  lemma {:induction false} DepthReached(n: nat)
    ensures Norm(NestedItem(n)) == Nested(n) && |Enc([], NestedItem(n))| == 10 * n + 3
    ensures var data := Enc([], NestedItem(n)); Levels(data, 0) == n + 1
  {
    hide LE;
    if n > 0 {
      DepthReached(n - 1);
      var ms := [Member([], NestedItem(n - 1))];
      assert ms[1..] == [] && EncAll(ms) == Enc([], NestedItem(n - 1)) + [];
      assert NormList(ms, []) == [] + [Nested(n - 1)];
    }
  }

  lemma {:induction false} DepthGrows(a: Any, d: nat, d': nat)
    requires DepthAtMost(a, d) && d <= d'
    ensures DepthAtMost(a, d')
    decreases d
  {
    match a
    case Scalar(_) =>
    case Map(m) =>
      forall k | k in m ensures DepthAtMost(m[k], d' - 1) { DepthGrows(m[k], d - 1, d' - 1); }
    case List(es) =>
      forall e | e in es ensures DepthAtMost(e, d' - 1) { DepthGrows(e, d - 1, d' - 1); }
  }

  // Whatever the bytes are, decoding ends, and a value that comes out at nesting depth d needs
  // more than 10 * (d - 1) bytes.
  lemma {:induction false} DepthBound(data: bytes, off: nat)
    requires AnyAt(data, off).Got?
    ensures DepthAtMost(AnyAt(data, off).value, Levels(data, off))
    ensures 10 * (Levels(data, off) - 1) < |data| - off
    decreases Left(data, off), 0
  {
    hide ScalarAt, Number, PastKey;
    if data[off] == OBJECT {
      var c := Count(data, off);
      MapDepth(data, c.off, c.value, map[], Levels(data, off) - 1);
    } else if data[off] == ARRAY {
      var c := Count(data, off);
      ListDepth(data, c.off, c.value, [], Levels(data, off) - 1);
    }
  }

  lemma {:induction false} MapDepth(data: bytes, off: nat, n: nat, m: map<bytes, Any>, d: nat)
    requires MapAt(data, off, n, m).Got? && Levels(data, off) <= d
    requires forall k | k in m :: DepthAtMost(m[k], d)
    ensures var m' := MapAt(data, off, n, m).value; forall k | k in m' :: DepthAtMost(m'[k], d)
    decreases Left(data, off), 1 + n
  {
    hide AnyAt, KeyAt, DepthAtMost;
    if n > 0 {
      var a := AnyAt(data, off);
      DepthBound(data, off);
      DepthGrows(a.value, Levels(data, off), d);
      MapDepth(data, a.off, n - 1, m[KeyAt(data, off).value := a.value], d);
    }
  }

  lemma {:induction false} ListDepth(data: bytes, off: nat, n: nat, es: seq<Any>, d: nat)
    requires ListAt(data, off, n, es).Got? && Levels(data, off) <= d
    requires forall e | e in es :: DepthAtMost(e, d)
    ensures var es' := ListAt(data, off, n, es).value; forall e | e in es' :: DepthAtMost(e, d)
    decreases Left(data, off), 1 + n
  {
    hide AnyAt, DepthAtMost;
    if n > 0 {
      var a := AnyAt(data, off);
      DepthBound(data, off);
      DepthGrows(a.value, Levels(data, off), d);
      ListDepth(data, a.off, n - 1, es + [a.value], d);
    }
  }

  // ---- The code is self-delimiting ----------------------------------------------

  // Two items at the same place take up the same bytes and have the same key.
  lemma SameBytes(data: bytes, off: nat, k: bytes, it: Item, k': bytes, it': Item)
    requires At(data, off, Enc(k, it)) && Fits(k, it)
    requires At(data, off, Enc(k', it')) && Fits(k', it')
    ensures Enc(k, it) == Enc(k', it') && k == k'
  {
    hide At, Enc, Skip, KeyAt, SizesFit;
    assert KeyFits(k) && KeyFits(k');
    SkipRoundTrip(data, off, k, it);
    SkipRoundTrip(data, off, k', it');
    KeyRoundTrip(data, off, k, it);
    KeyRoundTrip(data, off, k', it');
  }

  lemma SameFront(k: bytes, it: Item, x: bytes, k': bytes, it': Item, x': bytes)
    requires Fits(k, it) && Fits(k', it') && Enc(k, it) + x == Enc(k', it') + x'
    ensures k == k' && Enc(k, it) == Enc(k', it') && x == x'
  {
    hide Enc, Fits;
    var data, e, e' := Enc(k, it) + x, Enc(k, it), Enc(k', it');
    assert At(data, 0, e) by { assert data[..|e|] == e; }
    assert At(data, 0, e') by { assert data[..|e'|] == e'; }
    SameBytes(data, 0, k, it, k', it');
    assert data[|e|..] == x && data[|e|..] == x';
  }

  lemma TagsApart(it: Item)
    ensures TagOf(it) == OBJECT <==> it.Object?
    ensures TagOf(it) == ARRAY <==> it.Array?
  {
  }

  // No two trees have the same encoding, whatever members their objects were left without.
  lemma {:induction false} EncInjective(k: bytes, it: Item, k': bytes, it': Item)
    requires Fits(k, it) && Fits(k', it') && Enc(k, it) == Enc(k', it')
    ensures k == k' && it == it'
    decreases it, 1
  {
    hide At, Enc, EncAll, TagOf, Count, ScalarAt, LenWidth, LE, ContentOf, AllSizesFit, AllKeysFit, IsScalarTag;
    var data := Enc(k, it);
    AtStart(data);
    SameBytes(data, 0, k, it, k', it');
    assert KeyFits(k) && KeyFits(k');
    ItemAt(data, 0, k, it);
    ItemAt(data, 0, k', it');
    TagsApart(it);
    TagsApart(it');
    if it.Leaf? {
      LeafAt(k, it.scalar);
      LeafAt(k', it'.scalar);
      ScalarRoundTrip(data, 0, k, it.scalar);
      ScalarRoundTrip(data, 0, k', it'.scalar);
    } else {
      CountRoundTrip(data, 0, k, it);
      CountRoundTrip(data, 0, k', it');
      var p := 10 + KeyLen(k);
      AtSlice(data, p, EncAll(it.members));
      AtSlice(data, p, EncAll(it'.members));
      EncAllInjective(it.members, it'.members);
    }
  }

  lemma LeafAt(k: bytes, s: Scalar)
    ensures Enc(k, Leaf(s)) == EncScalar(k, s)
  {
  }

  lemma {:induction false} EncAllInjective(ms: seq<Member>, ms': seq<Member>)
    requires AllFit(ms) && AllFit(ms') && EncAll(ms) == EncAll(ms')
    ensures ms == ms'
    decreases ms, 2
  {
    hide Enc, SizesFit, KeysFit;
    if ms == [] || ms' == [] {
      if ms != [] { EncIsFrame(ms[0].key, ms[0].item); }
      if ms' != [] { EncIsFrame(ms'[0].key, ms'[0].item); }
    } else {
      var a, b := ms[0], ms'[0];
      SameFront(a.key, a.item, EncAll(ms[1..]), b.key, b.item, EncAll(ms'[1..]));
      EncInjective(a.key, a.item, b.key, b.item);
      EncAllInjective(ms[1..], ms'[1..]);
      assert ms == [a] + ms[1..] && ms' == [b] + ms'[1..];
    }
  }

  // If two items are read from the front of the same data, they are the same tree under the same
  // key, announced counts included, and stand for the same value.
  lemma SelfDelimiting(data: bytes, off: nat, k: bytes, it: Item, k': bytes, it': Item)
    requires At(data, off, Enc(k, it)) && Fits(k, it)
    requires At(data, off, Enc(k', it')) && Fits(k', it')
    ensures k == k' && it == it' && Norm(it) == Norm(it')
  {
    hide At, Enc, Fits;
    SameBytes(data, off, k, it, k', it');
    EncInjective(k, it, k', it');
  }

  // No encoding is a proper prefix of another.
  lemma PrefixFree(k: bytes, it: Item, x: bytes, k': bytes, it': Item, x': bytes)
    requires Fits(k, it) && Fits(k', it') && Enc(k, it) + x == Enc(k', it') + x'
    ensures k == k' && it == it' && x == x'
  {
    hide Enc, Fits;
    SameFront(k, it, x, k', it', x');
    EncInjective(k, it, k', it');
  }

  // ---- Member order ---------------------------------------------------------------

  // The same tree, with the members of objects in a possibly different order at every level.
  ghost predicate Shuffled(a: Item, b: Item)
    decreases a, 1
  {
    match (a, b)
    case (Leaf(s), Leaf(s')) => s == s'
    case (Object(n, ms), Object(n', ms')) => n == n' && Distinct(ms) && Distinct(ms') && ShuffledMembers(ms, ms')
    case (Array(n, ms), Array(n', ms')) => n == n' && ShuffledElems(ms, ms')
    case _ => false
  }

  ghost predicate Distinct(ms: seq<Member>) {
    forall i, j | 0 <= i < j < |ms| :: ms[i].key != ms[j].key
  }

  ghost predicate ShuffledElems(ms: seq<Member>, ms': seq<Member>)
    decreases ms, 2
  {
    if ms == [] || ms' == [] then ms == ms'
    else ms[0].key == ms'[0].key && Shuffled(ms[0].item, ms'[0].item) && ShuffledElems(ms[1..], ms'[1..])
  }

  function Without<T>(s: seq<T>, i: nat): seq<T>
    requires i < |s|
  {
    s[..i] + s[i + 1..]
  }

  // The first member of ms is somewhere in ms', and so on for the rest.
  ghost predicate ShuffledMembers(ms: seq<Member>, ms': seq<Member>)
    decreases ms, 2
  {
    if ms == [] then ms' == []
    else exists i | 0 <= i < |ms'| ::
      ms[0].key == ms'[i].key && Shuffled(ms[0].item, ms'[i].item) && ShuffledMembers(ms[1..], Without(ms', i))
  }

  lemma Removed<T>(s: seq<T>, i: nat)
    requires i < |s|
    ensures s[i] in multiset(s) && multiset(Without(s, i)) == multiset(s) - multiset{s[i]}
  {
    var front, back := s[..i], s[i + 1..];
    assert s == front + [s[i]] + back;
    assert multiset(front + [s[i]] + back) == multiset(front) + multiset{s[i]} + multiset(back);
    assert multiset(front + back) == multiset(front) + multiset(back);
  }

  lemma TakeOut<T>(a: seq<T>, b: seq<T>) returns (i: nat)
    requires a != [] && multiset(a) == multiset(b)
    ensures i < |b| && b[i] == a[0] && multiset(a[1..]) == multiset(Without(b, i))
  {
    Removed(a, 0);
    assert Without(a, 0) == a[1..];
    hide Without;
    i :| 0 <= i < |b| && b[i] == a[0];
    Removed(b, i);
  }

  lemma NoneLeft<T>(b: seq<T>)
    requires multiset(b) == multiset{}
    ensures b == []
  {
    assert |multiset(b)| == |b|;
  }

  // Any order of the members of an object is such a shuffle of them, whose own members may stay put.
  lemma {:induction false} AnyOrder(ms: seq<Member>, ms': seq<Member>)
    requires multiset(ms) == multiset(ms') && forall m | m in ms :: Shuffled(m.item, m.item)
    ensures ShuffledMembers(ms, ms')
    decreases ms
  {
    hide Shuffled;
    if ms == [] {
      NoneLeft(ms');
    } else {
      var i := TakeOut(ms, ms');
      hide Without;
      AnyOrder(ms[1..], Without(ms', i));
    }
  }

  // Trees in which no object has a key twice are shuffles of themselves.
  predicate KeysOnce(it: Item)
    decreases it, 1
  {
    match it
    case Leaf(_) => true
    case Object(_, ms) => (forall i, j | 0 <= i < j < |ms| :: ms[i].key != ms[j].key) && AllKeysOnce(ms)
    case Array(_, ms) => AllKeysOnce(ms)
  }

  predicate AllKeysOnce(ms: seq<Member>)
    decreases ms, 2
  {
    forall m | m in ms :: KeysOnce(m.item)
  }

  lemma {:induction false} OwnShuffle(it: Item)
    requires KeysOnce(it)
    ensures Shuffled(it, it)
    decreases it, 1
  {
    match it
    case Leaf(_) =>
    case Object(_, ms) =>
      forall m | m in ms ensures Shuffled(m.item, m.item) { OwnShuffle(m.item); }
      AnyOrder(ms, ms);
    case Array(_, ms) => OwnElems(ms);
  }

  lemma {:induction false} OwnElems(ms: seq<Member>)
    requires AllKeysOnce(ms)
    ensures ShuffledElems(ms, ms)
    decreases ms, 2
  {
    hide Shuffled, KeysOnce;
    if ms != [] {
      OwnShuffle(ms[0].item);
      OwnElems(ms[1..]);
    }
  }

  lemma EncAllWithout(ms: seq<Member>, i: nat)
    requires i < |ms|
    ensures |EncAll(ms)| == |Enc(ms[i].key, ms[i].item)| + |EncAll(Without(ms, i))|
  {
    hide Enc;
    assert ms == ms[..i] + ms[i..];
    EncAllConcat(ms[..i], ms[i..]);
    EncAllConcat(ms[..i], ms[i + 1..]);
  }

  // Reading members into a map: one member can be read first if its key is unique.
  lemma {:induction false} NormMapMoves(ms: seq<Member>, i: nat, m: map<bytes, Any>)
    requires i < |ms| && Distinct(ms)
    ensures NormMap(ms, m) == NormMap(Without(ms, i), m[ms[i].key := Norm(ms[i].item)])
    decreases i
  {
    hide Norm;
    if i == 0 {
      assert Without(ms, 0) == ms[1..];
    } else {
      var m0 := m[ms[0].key := Norm(ms[0].item)];
      NormMapMoves(ms[1..], i - 1, m0);
      var w := Without(ms, i);
      assert w[0] == ms[0] && w[1..] == Without(ms[1..], i - 1);
      assert m0[ms[i].key := Norm(ms[i].item)] == m[ms[i].key := Norm(ms[i].item)][ms[0].key := Norm(ms[0].item)];
    }
  }

  lemma StillDistinct(ms: seq<Member>, i: nat)
    requires Distinct(ms) && i < |ms|
    ensures Distinct(Without(ms, i))
  {
  }

  // Go's choice of map order changes neither the length of the encoding nor the decoded value.
  lemma {:induction false} OrderIndependent(k: bytes, a: Item, b: Item)
    requires Shuffled(a, b)
    ensures |Enc(k, a)| == |Enc(k, b)|
    ensures Norm(a) == Norm(b)
    decreases a, 1
  {
    match (a, b)
    case (Leaf(_), Leaf(_)) =>
    case (Object(_, ms), Object(_, ms')) => OrderIndependentMembers(ms, ms', map[]);
    case (Array(_, ms), Array(_, ms')) => OrderIndependentElems(ms, ms', []);
  }

  lemma {:induction false} OrderIndependentMembers(ms: seq<Member>, ms': seq<Member>, m: map<bytes, Any>)
    requires Distinct(ms') && ShuffledMembers(ms, ms')
    ensures |EncAll(ms)| == |EncAll(ms')|
    ensures NormMap(ms, m) == NormMap(ms', m)
    decreases ms, 2
  {
    hide Enc, Norm, Shuffled, Distinct;
    if ms != [] {
      var i :| 0 <= i < |ms'| && ms[0].key == ms'[i].key && Shuffled(ms[0].item, ms'[i].item)
               && ShuffledMembers(ms[1..], Without(ms', i));
      OrderIndependent(ms[0].key, ms[0].item, ms'[i].item);
      StillDistinct(ms', i);
      OrderIndependentMembers(ms[1..], Without(ms', i), m[ms[0].key := Norm(ms[0].item)]);
      EncAllWithout(ms', i);
      NormMapMoves(ms', i, m);
    }
  }

  lemma {:induction false} OrderIndependentElems(ms: seq<Member>, ms': seq<Member>, es: seq<Any>)
    requires ShuffledElems(ms, ms')
    ensures |EncAll(ms)| == |EncAll(ms')|
    ensures NormList(ms, es) == NormList(ms', es)
    decreases ms, 2
  {
    if ms != [] {
      hide Enc, Norm, Shuffled;
      OrderIndependent(ms[0].key, ms[0].item, ms'[0].item);
      OrderIndependentElems(ms[1..], ms'[1..], es + [Norm(ms[0].item)]);
    }
  }
}
