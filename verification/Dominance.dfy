// Among collected fields of one name, the dominant one is kept: sorting by name, compaction in
// place, sorting by index (typeFields, dominantField, byName, byIndex in mcpack/encode.go).
module Dominance {
  import opened Values
  import opened Embedding
  import opened Fields
  import opened TypedTrip

  // ---- Orders ----------------------------------------------------------------------

  // byIndex.Less, element by element.
  method IndexLess(a: seq<nat>, b: seq<nat>) returns (less: bool)
    ensures less == LexLess(a, b)
  {
    for k := 0 to |a|
      invariant k <= |b| && LexLess(a, b) == LexLess(a[k..], b[k..])
    {
      if k >= |b| {
        return false;
      }
      if a[k] != b[k] {
        return a[k] < b[k];
      }
      assert a[k..][1..] == a[k + 1..] && b[k..][1..] == b[k + 1..];
    }
    less := |a| < |b|;
  }

  // byName.Less.
  predicate NameLess(f: Field, g: Field) {
    if f.name != g.name then LexLess(f.name, g.name)
    else if |f.index| != |g.index| then |f.index| < |g.index|
    else if f.tag != g.tag then f.tag
    else LexLess(f.index, g.index)
  }

  predicate FieldLess(f: Field, g: Field) {
    LexLess(f.index, g.index)
  }

  // Both orders are strict, transitive and total, where ties agree on everything compared.
  lemma NameOrder(f: Field, g: Field, h: Field)
    ensures NameLess(f, g) ==> !NameLess(g, f)
    ensures NameLess(f, g) && NameLess(g, h) ==> NameLess(f, h)
    ensures !NameLess(f, g) && !NameLess(g, f) ==> f.name == g.name && f.index == g.index && f.tag == g.tag
    ensures !NameLess(g, f) && !NameLess(h, g) ==> !NameLess(h, f)
  {
    LexTotal(f.name, g.name);
    LexTotal(f.index, g.index);
    LexTotal(g.name, h.name);
    LexTotal(g.index, h.index);
    LexTotal(f.name, h.name);
    LexTotal(f.index, h.index);
    if LexLess(f.name, g.name) && LexLess(g.name, h.name) { LexTransitive(f.name, g.name, h.name); }
    if LexLess(f.index, g.index) && LexLess(g.index, h.index) { LexTransitive(f.index, g.index, h.index); }
  }

  lemma IndexOrder(f: Field, g: Field, h: Field)
    ensures FieldLess(f, g) ==> !FieldLess(g, f)
    ensures FieldLess(f, g) && FieldLess(g, h) ==> FieldLess(f, h)
    ensures !FieldLess(f, g) && !FieldLess(g, f) ==> f.index == g.index
    ensures !FieldLess(g, f) && !FieldLess(h, g) ==> !FieldLess(h, f)
  {
    LexTotal(f.index, g.index);
    LexTotal(g.index, h.index);
    LexTotal(f.index, h.index);
    if LexLess(f.index, g.index) && LexLess(g.index, h.index) { LexTransitive(f.index, g.index, h.index); }
  }

  ghost predicate Sorted(less: (Field, Field) -> bool, s: seq<Field>) {
    forall i, j | 0 <= i < j < |s| :: !less(s[j], s[i])
  }

  // ---- Sorting: a stand-in for the library's, which may order ties differently ----------

  ghost predicate WeakOrder(less: (Field, Field) -> bool) {
    && (forall f, g :: less(f, g) ==> !less(g, f))
    && (forall f, g, h {:trigger less(g, f), less(h, g)} :: !less(g, f) && !less(h, g) ==> !less(h, f))
  }

  function Insert(less: (Field, Field) -> bool, f: Field, s: seq<Field>): seq<Field> {
    if s == [] || less(f, s[0]) then [f] + s else [s[0]] + Insert(less, f, s[1..])
  }

  function Sort(less: (Field, Field) -> bool, s: seq<Field>): seq<Field> {
    if s == [] then [] else Insert(less, s[0], Sort(less, s[1..]))
  }

  lemma {:induction false} InsertKeeps(less: (Field, Field) -> bool, f: Field, s: seq<Field>)
    ensures multiset(Insert(less, f, s)) == multiset(s) + multiset{f}
  {
    if s != [] && !less(f, s[0]) {
      InsertKeeps(less, f, s[1..]);
      assert s == [s[0]] + s[1..];
    }
  }

  lemma FirstSorted(less: (Field, Field) -> bool, x: Field, s: seq<Field>)
    requires Sorted(less, s) && forall g | g in s :: !less(g, x)
    ensures Sorted(less, [x] + s)
  {
    assert forall j | 0 < j < |[x] + s| :: ([x] + s)[j] == s[j - 1];
  }

  lemma {:induction false} InsertSorts(less: (Field, Field) -> bool, f: Field, s: seq<Field>)
    requires WeakOrder(less) && Sorted(less, s)
    ensures Sorted(less, Insert(less, f, s))
  {
    if s != [] {
      assert forall g | g in s[1..] :: !less(g, s[0]);
      if less(f, s[0]) {
        assert !less(s[0], f);
        forall g | g in s ensures !less(g, f) {
          assert g == s[0] || g in s[1..];
        }
        FirstSorted(less, f, s);
      } else {
        InsertSorts(less, f, s[1..]);
        InsertKeeps(less, f, s[1..]);
        forall g | g in Insert(less, f, s[1..]) ensures !less(g, s[0]) {
          assert g in multiset(Insert(less, f, s[1..]));
        }
        FirstSorted(less, s[0], Insert(less, f, s[1..]));
      }
    }
  }

  lemma {:induction false} SortSorts(less: (Field, Field) -> bool, s: seq<Field>)
    requires WeakOrder(less)
    ensures Sorted(less, Sort(less, s)) && multiset(Sort(less, s)) == multiset(s)
  {
    if s != [] {
      SortSorts(less, s[1..]);
      InsertSorts(less, s[0], Sort(less, s[1..]));
      InsertKeeps(less, s[0], Sort(less, s[1..]));
      assert s == [s[0]] + s[1..];
    }
  }

  // ---- Dominance ------------------------------------------------------------------------

  // f is the field its name stands for: no other field of that name is less deep, and the
  // others at its depth are untagged while f is tagged.
  ghost predicate Chosen(m: multiset<Field>, f: Field) {
    && m[f] == 1
    && forall g | g in m && g != f && g.name == f.name :: Yields(g, f)
  }

  predicate Yields(g: Field, f: Field) {
    |g.index| > |f.index| || (|g.index| == |f.index| && f.tag && !g.tag)
  }

  lemma {:induction false} CountOne(s: seq<Field>, k: nat)
    requires k < |s|
    ensures multiset(s)[s[k]] == 1 <==> forall j | 0 <= j < |s| && j != k :: s[j] != s[k]
  {
    var a, b := s[..k], s[k + 1..];
    assert s == a + [s[k]] + b;
    assert multiset(s)[s[k]] == multiset(a)[s[k]] + 1 + multiset(b)[s[k]];
    if j :| 0 <= j < |s| && j != k && s[j] == s[k] {
      if j < k { assert a[j] == s[k]; } else { assert b[j - k - 1] == s[k]; }
    } else {
      assert s[k] !in a && s[k] !in b;
    }
  }

  // In terms of positions: f stands at exactly one, and the others of its name yield to it.
  lemma ChosenByPosition(s: seq<Field>, k: nat)
    requires k < |s|
    ensures Chosen(multiset(s), s[k]) <==>
            forall j | 0 <= j < |s| && j != k && s[j].name == s[k].name :: Yields(s[j], s[k])
  {
    CountOne(s, k);
    assert !Yields(s[k], s[k]);
    if Chosen(multiset(s), s[k]) {
      forall j | 0 <= j < |s| && j != k && s[j].name == s[k].name ensures Yields(s[j], s[k]) {
        assert s[j] in multiset(s);
      }
    }
  }

  // At most one field is chosen for each name.
  lemma ChosenUnique(m: multiset<Field>, f: Field, g: Field)
    requires Chosen(m, f) && Chosen(m, g) && f.name == g.name
    ensures f == g
  {
  }

  ghost predicate OneName(s: seq<Field>) {
    forall i | 0 <= i < |s| :: s[i].name == s[0].name
  }

  ghost predicate ByDepth(s: seq<Field>) {
    forall i, j | 0 <= i < j < |s| :: |s[i].index| <= |s[j].index|
  }

  method DominantField(fields: seq<Field>) returns (r: Option<Field>)
    requires fields != [] && OneName(fields) && ByDepth(fields)
    ensures r.Some? ==> r.value in fields && Chosen(multiset(fields), r.value)
    ensures r.None? ==> forall f | f in fields :: !Chosen(multiset(fields), f)
  {
    var length := |fields[0].index|;
    var tagged := -1;
    var n := |fields|;
    var i := 0;
    while i < n
      invariant 0 <= i <= n <= |fields| && n > 0
      invariant forall j | 0 <= j < i :: |fields[j].index| == length
      invariant forall j | n <= j < |fields| :: |fields[j].index| > length
      invariant -1 <= tagged < i
      invariant tagged >= 0 ==> fields[tagged].tag
      invariant forall j | 0 <= j < i && j != tagged :: !fields[j].tag
    {
      if |fields[i].index| > length {
        n := i;
      } else {
        if fields[i].tag {
          if tagged >= 0 {
            TwoTagged(fields, tagged, i);
            return None;
          }
          tagged := i;
        }
        i := i + 1;
      }
    }
    if tagged >= 0 {
      ChosenByPosition(fields, tagged);
      return Some(fields[tagged]);
    }
    if n > 1 {
      NoneTagged(fields, n);
      return None;
    }
    ChosenByPosition(fields, 0);
    r := Some(fields[0]);
  }

  lemma TwoTagged(s: seq<Field>, p: nat, q: nat)
    requires OneName(s) && ByDepth(s) && p < q < |s|
    requires s[p].tag && s[q].tag && |s[p].index| == |s[q].index| == |s[0].index|
    ensures forall f | f in s :: !Chosen(multiset(s), f)
  {
    forall f | f in s ensures !Chosen(multiset(s), f) {
      var k :| 0 <= k < |s| && s[k] == f;
      ChosenByPosition(s, k);
      var j := if k == p then q else p;
      assert s[j].name == s[0].name == s[k].name;
      assert !Yields(s[j], s[k]);
    }
  }

  lemma NoneTagged(s: seq<Field>, n: nat)
    requires OneName(s) && 1 < n <= |s|
    requires forall j | 0 <= j < n :: |s[j].index| == |s[0].index| && !s[j].tag
    requires forall j | n <= j < |s| :: |s[j].index| > |s[0].index|
    ensures forall f | f in s :: !Chosen(multiset(s), f)
  {
    forall f | f in s ensures !Chosen(multiset(s), f) {
      var k :| 0 <= k < |s| && s[k] == f;
      ChosenByPosition(s, k);
      var j := if k == 0 then 1 else 0;
      assert s[j].name == s[0].name == s[k].name;
      assert !Yields(s[j], s[k]);
    }
  }

  // ---- Compaction in place -------------------------------------------------------------------

  // Equal names stand next to each other.
  ghost predicate ByName(s: seq<Field>) {
    forall i, j | 0 <= i < j < |s| ::
      s[i].name == s[j].name || LexLess(s[i].name, s[j].name)
  }

  ghost predicate NamesIncrease(s: seq<Field>) {
    forall i, j | 0 <= i < j < |s| :: LexLess(s[i].name, s[j].name)
  }

  lemma SortedByName(s: seq<Field>)
    requires Sorted(NameLess, s)
    ensures ByName(s)
    ensures forall i, j | 0 <= i < j < |s| && s[i].name == s[j].name :: |s[i].index| <= |s[j].index|
  {
    forall i, j | 0 <= i < j < |s|
      ensures s[i].name == s[j].name || LexLess(s[i].name, s[j].name)
      ensures s[i].name == s[j].name ==> |s[i].index| <= |s[j].index|
    {
      assert !NameLess(s[j], s[i]);
      LexTotal(s[i].name, s[j].name);
    }
  }

  // Whether a field of a whole group of one name is chosen depends on the group only.
  lemma GroupDecides(s: seq<Field>, i: nat, j: nat, f: Field)
    requires i < j <= |s| && f in s[i..j]
    requires forall k, l | 0 <= k < |s| && !(i <= k < j) && i <= l < j :: s[k].name != s[l].name
    ensures Chosen(multiset(s), f) <==> Chosen(multiset(s[i..j]), f)
  {
    hide Chosen, Yields;
    var k :| 0 <= k < j - i && s[i..j][k] == f;
    assert s[i + k] == f;
    ChosenByPosition(s, i + k);
    ChosenByPosition(s[i..j], k);
    if forall l | 0 <= l < j - i && l != k && s[i..j][l].name == f.name :: Yields(s[i..j][l], f) {
      forall l | 0 <= l < |s| && l != i + k && s[l].name == f.name ensures Yields(s[l], f) {
        assert s[l] == s[i..j][l - i];
      }
    }
    if forall l | 0 <= l < |s| && l != i + k && s[l].name == f.name :: Yields(s[l], f) {
      forall l | 0 <= l < j - i && l != k && s[i..j][l].name == f.name ensures Yields(s[i..j][l], f) {
        assert s[i + l] == s[i..j][l];
      }
    }
  }

  // The end of the group of equal names that starts at i; s is what the array held at first.
  method GroupEnd(a: array<Field>, i: nat, ghost s: seq<Field>) returns (j: nat)
    requires i < a.Length == |s| && a[i..] == s[i..] && ByName(s[i..])
    ensures i < j <= |s|
    ensures forall k | i <= k < j :: s[k].name == s[i].name
    ensures forall l | j <= l < |s| :: s[l].name != s[i].name
  {
    assert forall k | i <= k < |s| :: a[k] == a[i..][k - i] == s[k];
    var name := a[i].name;
    var advance := 1;
    while i + advance < a.Length && a[i + advance].name == name
      invariant 1 <= advance && i + advance <= a.Length
      invariant forall k | i <= k < i + advance :: s[k].name == name
    {
      advance := advance + 1;
    }
    j := i + advance;
    GroupEnds(s[i..], advance);
    forall l | j <= l < |s| ensures s[l].name != s[i].name {
      assert s[l] == s[i..][l - i];
    }
  }

  // The field a group of equal names keeps.
  method Keep(group: seq<Field>) returns (keep: Option<Field>)
    requires group != [] && OneName(group) && ByDepth(group)
    ensures keep.Some? ==> keep.value in group && Chosen(multiset(group), keep.value)
    ensures keep.None? ==> forall f | f in group :: !Chosen(multiset(group), f)
  {
    if |group| == 1 {
      keep := Some(group[0]);
      ChosenByPosition(group, 0);
    } else {
      keep := DominantField(group);
    }
  }

  // front holds what the first i fields of s keep, and no name continues past them.
  ghost predicate Kept(s: seq<Field>, i: nat, front: seq<Field>) {
    && i <= |s|
    && (forall k, l | 0 <= k < i <= l < |s| :: s[k].name != s[l].name)
    && NamesIncrease(front)
    && forall f :: f in front <==> f in s[..i] && Chosen(multiset(s), f)
  }

  // The kept fields are written over the front of the array that is being read.
  method Compact(a: array<Field>) returns (w: nat)
    requires Sorted(NameLess, a[..])
    modifies a
    ensures w <= a.Length && NamesIncrease(a[..w])
    ensures forall f :: f in a[..w] <==> Chosen(multiset(old(a[..])), f)
  {
    hide NameLess, Chosen, LexLess, Sorted, NamesIncrease, Kept, ByName, ByDepth, OneName;
    ghost var s := a[..];
    KeptNothing(s);
    w := 0;
    var i := 0;
    while i < a.Length
      invariant 0 <= w <= i <= a.Length == |s|
      invariant a[i..] == s[i..] && Kept(s, i, a[..w])
    {
      SortedSuffix(s, i);
      var j := GroupEnd(a, i, s);
      ghost var front := a[..w];
      GroupSorted(s, i, j);
      var group := a[i..j];
      assert group == a[i..][..j - i] == s[i..j];
      assert a[j..] == a[i..][j - i..] == s[j..];
      var keep := Keep(group);
      Settled(s, i, j, front, keep);
      if keep.Some? {
        a[w] := keep.value;
        w := w + 1;
        assert a[..w] == front + [keep.value];
        assert a[j..] == s[j..];
      }
      i := j;
    }
    KeptAll(s, a[..w]);
  }

  lemma KeptNothing(s: seq<Field>)
    ensures Kept(s, 0, [])
  {
  }

  lemma KeptAll(s: seq<Field>, front: seq<Field>)
    requires Kept(s, |s|, front)
    ensures NamesIncrease(front) && forall f :: f in front <==> Chosen(multiset(s), f)
  {
    assert s[..|s|] == s;
    forall f | Chosen(multiset(s), f) ensures f in s {
      assert f in multiset(s);
    }
  }

  lemma SortedSuffix(s: seq<Field>, i: nat)
    requires Sorted(NameLess, s) && i <= |s|
    ensures ByName(s) && ByName(s[i..])
  {
    hide NameLess;
    SortedByName(s);
  }

  lemma GroupSorted(s: seq<Field>, i: nat, j: nat)
    requires Sorted(NameLess, s) && i < j <= |s| && forall k | i <= k < j :: s[k].name == s[i].name
    ensures OneName(s[i..j]) && ByDepth(s[i..j])
  {
    hide NameLess;
    SortedByName(s);
  }

  lemma GroupEnds(s: seq<Field>, j: nat)
    requires ByName(s) && 0 < j <= |s| && (j < |s| ==> s[j].name != s[0].name)
    ensures forall l | j <= l < |s| :: s[l].name != s[0].name
  {
    hide LexLess;
    forall l | j <= l < |s| ensures s[l].name != s[0].name {
      LexTotal(s[0].name, s[j].name);
      LexTotal(s[j].name, s[l].name);
    }
  }

  // Adding what the group from i to j keeps to what the fields before it kept.
  lemma Settled(s: seq<Field>, i: nat, j: nat, front: seq<Field>, keep: Option<Field>)
    requires ByName(s) && i < j <= |s| && Kept(s, i, front)
    requires forall k | i <= k < j :: s[k].name == s[i].name
    requires forall l | j <= l < |s| :: s[l].name != s[i].name
    requires keep.Some? ==> keep.value in s[i..j] && Chosen(multiset(s[i..j]), keep.value)
    requires keep.None? ==> forall f | f in s[i..j] :: !Chosen(multiset(s[i..j]), f)
    ensures Kept(s, j, if keep.Some? then front + [keep.value] else front)
  {
    hide Chosen, NamesIncrease, ByName;
    assert s[..j] == s[..i] + s[i..j];
    forall f | f in s[i..j] ensures Chosen(multiset(s), f) <==> keep == Some(f) {
      GroupKeeps(s, i, j, keep, f);
    }
    if keep.Some? {
      NamesExtend(s, i, j, front, keep.value);
    }
  }

  // Of a whole group, exactly the kept field is chosen.
  lemma GroupKeeps(s: seq<Field>, i: nat, j: nat, keep: Option<Field>, f: Field)
    requires i < j <= |s| && f in s[i..j]
    requires forall k | i <= k < j :: s[k].name == s[i].name
    requires forall k, l | 0 <= k < |s| && !(i <= k < j) && i <= l < j :: s[k].name != s[l].name
    requires keep.Some? ==> keep.value in s[i..j] && Chosen(multiset(s[i..j]), keep.value)
    requires keep.None? ==> !Chosen(multiset(s[i..j]), f)
    ensures Chosen(multiset(s), f) <==> keep == Some(f)
  {
    hide Chosen;
    GroupDecides(s, i, j, f);
    if keep.Some? && Chosen(multiset(s), f) {
      InGroup(s, i, j, f);
      InGroup(s, i, j, keep.value);
      ChosenUnique(multiset(s[i..j]), f, keep.value);
    }
  }

  lemma InGroup(s: seq<Field>, i: nat, j: nat, f: Field)
    requires i < j <= |s| && f in s[i..j] && forall k | i <= k < j :: s[k].name == s[i].name
    ensures f.name == s[i].name
  {
    var k :| 0 <= k < j - i && s[i..j][k] == f;
    assert s[i + k] == f;
  }

  lemma NamesExtend(s: seq<Field>, i: nat, j: nat, front: seq<Field>, g: Field)
    requires ByName(s) && i < j <= |s| && NamesIncrease(front) && g in s[i..j]
    requires forall f | f in front :: f in s[..i]
    requires forall k, l | 0 <= k < i <= l < |s| :: s[k].name != s[l].name
    ensures NamesIncrease(front + [g])
  {
    hide LexLess;
    var l :| 0 <= l < j - i && s[i..j][l] == g;
    assert s[i + l] == g;
    forall p | 0 <= p < |front| ensures LexLess(front[p].name, g.name) {
      assert front[p] in s[..i];
      var k :| 0 <= k < i && s[k] == front[p];
      assert s[k].name != s[i + l].name;
    }
  }

  // ---- typeFields ---------------------------------------------------------------------------

  // r lists exactly the dominant fields of what was collected, in index order, each name once.
  ghost predicate Selection(collected: seq<Field>, r: seq<Field>) {
    && (forall f :: f in r <==> Chosen(multiset(collected), f))
    && (forall i, j | 0 <= i < j < |r| :: LexLess(r[i].index, r[j].index) && r[i].name != r[j].name)
  }

  // The field list of a struct type: a selection from what the walk collects.
  ghost predicate IsFieldList(env: Env, t: TypeId, r: seq<Field>) {
    exists collected :: IsCollection(env, t, collected) && Selection(collected, r)
  }

  method TypeFields(env: Env, t: TypeId) returns (r: seq<Field>)
    requires KindOf(env, t).KStruct?
    ensures IsFieldList(env, t, r)
  {
    hide IsCollection, LexLess;
    var fields := Collect(env, t);
    ghost var collected := fields;
    OrdersAreWeak();
    SortSorts(NameLess, fields);
    var sorted := Sort(NameLess, fields);
    var a := new Field[|sorted|](i requires 0 <= i < |sorted| => sorted[i]);
    assert a[..] == sorted;
    var w := Compact(a);
    var out := a[..w];
    SortSorts(FieldLess, out);
    r := Sort(FieldLess, out);
    SelectionSorted(env, t, collected, out, r);
  }

  lemma OrdersAreWeak()
    ensures WeakOrder(NameLess) && WeakOrder(FieldLess)
  {
    hide NameLess, FieldLess;
    forall f, g, h ensures NameLess(f, g) ==> !NameLess(g, f)
                   ensures !NameLess(g, f) && !NameLess(h, g) ==> !NameLess(h, f) {
      NameOrder(f, g, h);
    }
    forall f, g, h ensures FieldLess(f, g) ==> !FieldLess(g, f)
                   ensures !FieldLess(g, f) && !FieldLess(h, g) ==> !FieldLess(h, f) {
      IndexOrder(f, g, h);
    }
  }

  // Two candidates at the same index are the same declaration.
  lemma SameIndex(env: Env, t: TypeId, f: Field, g: Field)
    requires IsCandidate(env, t, f) && IsCandidate(env, t, g) && f.index == g.index
    ensures f == g
  {
  }

  // Fields that neither order tells apart are copies of one declaration.
  lemma TiesAreCopies(env: Env, t: TypeId, f: Field, g: Field)
    requires IsCandidate(env, t, f) && IsCandidate(env, t, g)
    requires (!NameLess(f, g) && !NameLess(g, f)) || (!FieldLess(f, g) && !FieldLess(g, f))
    ensures f == g
  {
    hide IsCandidate, NameLess, FieldLess;
    NameOrder(f, g, g);
    IndexOrder(f, g, g);
    SameIndex(env, t, f, g);
  }

  lemma SelectionSorted(env: Env, t: TypeId, collected: seq<Field>, out: seq<Field>, r: seq<Field>)
    requires IsCollection(env, t, collected)
    requires NamesIncrease(out) && forall f :: f in out <==> Chosen(multiset(collected), f)
    requires Sorted(FieldLess, r) && multiset(r) == multiset(out)
    ensures Selection(collected, r)
  {
    var first :| Collected(env, t, first, collected);
    forall f ensures f in r <==> f in out {
      assert f in multiset(r) <==> f in multiset(out);
    }
    forall i, j | 0 <= i < j < |r| ensures LexLess(r[i].index, r[j].index) && r[i].name != r[j].name {
      assert r[i] in out && r[j] in out && r[i] in multiset(collected) && r[j] in multiset(collected);
      assert FromFirst(env, t, first, r[i]) && FromFirst(env, t, first, r[j]);
      OutOnce(out, r, i, j);
      assert !FieldLess(r[j], r[i]);
      LexTotal(r[i].index, r[j].index);
      if r[i].index == r[j].index {
        SameIndex(env, t, r[i], r[j]);
      }
      if r[i].name == r[j].name {
        ChosenUnique(multiset(collected), r[i], r[j]);
      }
    }
  }

  lemma OutOnce(out: seq<Field>, r: seq<Field>, i: nat, j: nat)
    requires NamesIncrease(out) && multiset(r) == multiset(out) && i < j < |r|
    ensures r[i] != r[j]
  {
    assert r[i] in multiset(out);
    var k :| 0 <= k < |out| && out[k] == r[i];
    CountOne(out, k);
    forall l | 0 <= l < |out| && l != k ensures out[l] != out[k] {
      if l < k { LexTotal(out[l].name, out[k].name); } else { LexTotal(out[k].name, out[l].name); }
    }
    CountOne(r, i);
  }

  // The result does not depend on how the library orders ties: there is only one selection.
  lemma Deterministic(collected: seq<Field>, r: seq<Field>, collected': seq<Field>, r': seq<Field>)
    requires Selection(collected, r) && Selection(collected', r') && multiset(collected) == multiset(collected')
    ensures r == r'
  {
    hide Chosen;
    assert forall f :: f in r <==> f in r';
    SameOrder(r, r');
  }

  // So a struct type has one field list.
  lemma FieldListUnique(env: Env, t: TypeId, r: seq<Field>, r': seq<Field>)
    requires IsFieldList(env, t, r) && IsFieldList(env, t, r')
    ensures r == r'
  {
    hide IsCollection, Selection;
    var collected :| IsCollection(env, t, collected) && Selection(collected, r);
    var collected' :| IsCollection(env, t, collected') && Selection(collected', r');
    CollectionUnique(env, t, collected, collected');
    Deterministic(collected, r, collected', r');
  }

  lemma InTail(r: seq<Field>, f: Field)
    requires r != [] && forall i, j | 0 <= i < j < |r| :: LexLess(r[i].index, r[j].index)
    ensures f in r[1..] <==> f in r && f != r[0]
  {
    LexTotal(r[0].index, r[0].index);
    if f in r && f != r[0] {
      var k :| 0 <= k < |r| && r[k] == f;
      assert r[1..][k - 1] == f;
    }
    if f in r[1..] {
      var k :| 0 <= k < |r[1..]| && r[1..][k] == f;
      assert LexLess(r[0].index, r[k + 1].index);
    }
  }

  lemma {:induction false} SameOrder(r: seq<Field>, r': seq<Field>)
    requires forall f :: f in r <==> f in r'
    requires forall i, j | 0 <= i < j < |r| :: LexLess(r[i].index, r[j].index)
    requires forall i, j | 0 <= i < j < |r'| :: LexLess(r'[i].index, r'[j].index)
    ensures r == r'
  {
    assert r' == [] || r'[0] in r;
    if r != [] {
      assert r[0] in r';
      var k :| 0 <= k < |r'| && r'[k] == r[0];
      assert r'[0] in r;
      var l :| 0 <= l < |r| && r[l] == r'[0];
      LexTotal(r[0].index, r'[0].index);
      assert r[0] == r'[0];
      forall f ensures f in r[1..] <==> f in r'[1..] {
        InTail(r, f);
        InTail(r', f);
      }
      SameOrder(r[1..], r'[1..]);
    }
  }

  // ---- What the codec needs of a field list ----------------------------------------------------

  lemma {:induction false} WalkPrefix(env: Env, t: TypeId, p: seq<nat>, n: nat)
    requires n <= |p| && Walk(env, t, p).Some?
    ensures Walk(env, t, p[..n]).Some?
    decreases |p|
  {
    if n < |p| {
      WalkPrefix(env, t, p[..|p| - 1], n);
      assert p[..|p| - 1][..n] == p[..n];
    } else {
      assert p[..n] == p;
    }
  }

  lemma CandidatesApart(env: Env, t: TypeId, f: Field, g: Field)
    requires IsCandidate(env, t, f) && IsCandidate(env, t, g) && f != g
    ensures Apart(f.index, g.index)
  {
    if f.index == g.index { SameIndex(env, t, f, g); }
    if f.index < g.index { NotBelowLeaf(env, t, f, g); }
    if g.index < f.index { NotBelowLeaf(env, t, g, f); }
  }

  lemma NotBelowLeaf(env: Env, t: TypeId, f: Field, g: Field)
    requires IsCandidate(env, t, f) && IsCandidate(env, t, g)
    ensures !(f.index < g.index)
  {
    if f.index < g.index {
      var p := Init(g.index);
      assert p[..|f.index|] == f.index;
      WalkPrefix(env, t, p, |f.index|);
    }
  }

  // The listed fields have unique names and lie apart, as the encoder and decoder rely on.
  lemma FieldListResolved(env: Env, t: TypeId, r: seq<Field>)
    requires IsFieldList(env, t, r)
    ensures Resolved(r)
  {
    hide IsCandidate, LexLess, Yields, FirstPaths;
    var collected :| IsCollection(env, t, collected) && Selection(collected, r);
    var first :| Collected(env, t, first, collected);
    forall i, j | 0 <= i < j < |r| ensures r[i].name != r[j].name && Apart(r[i].index, r[j].index) {
      assert r[i] in r && r[j] in r && r[i] in multiset(collected) && r[j] in multiset(collected);
      assert FromFirst(env, t, first, r[i]) && FromFirst(env, t, first, r[j]);
      CandidatesApart(env, t, r[i], r[j]);
    }
  }

  // Every name given to a field is non-empty if the declared names are.
  lemma FieldListNamed(env: Env, t: TypeId, r: seq<Field>)
    requires IsFieldList(env, t, r)
    requires forall s: TypeId, i | 0 <= i < |Decls(env, s)| :: Decls(env, s)[i].name != []
    ensures forall f | f in r :: f.name != []
  {
    hide LexLess, Yields, FirstPaths;
    var collected :| IsCollection(env, t, collected) && Selection(collected, r);
    var first :| Collected(env, t, first, collected);
    forall f | f in r ensures f.name != [] {
      assert f in multiset(collected) && FromFirst(env, t, first, f);
    }
  }

  // ---- The cache of field lists (cachedTypeFields) ----------------------------------------------

  class FieldCache {
    var m: map<TypeId, seq<Field>>

    constructor ()
      ensures m == map[]
    {
      m := map[];
    }

    ghost predicate Valid(env: Env)
      reads this
    {
      forall t | t in m :: IsFieldList(env, t, m[t])
    }

    // Whoever fills the cache first, every caller sees the type's one field list.
    method CachedTypeFields(env: Env, t: TypeId) returns (fs: seq<Field>)
      requires Valid(env) && KindOf(env, t).KStruct?
      modifies this
      ensures Valid(env) && IsFieldList(env, t, fs)
      ensures m == old(m)[t := fs]
    {
      hide IsFieldList;
      if t in m {
        return m[t];
      }
      fs := TypeFields(env, t);
      m := m[t := fs];
    }
  }
}
