/** Assembling a trace's spans into a pre-order list (desktop/src/traces.ts:142-184).

    Span ids are strings compared by the language's order; here they are numbers.
    The list sort is the library's, modelled as an insertion sort. */
module SpanTree {
  import opened Wrappers

  type Id = nat

  datatype Span = Span(id: Id, parent: Option<Id>, start: nat)

  datatype Placed = Placed(span: Span, depth: nat)

  // ---------------------------------------------------------------- the forest

  predicate HasId(spans: seq<Span>, id: Id) {
    exists i :: 0 <= i < |spans| && spans[i].id == id
  }

  /** No parent, or a parent that is not in the set. */
  predicate IsRoot(spans: seq<Span>, s: Span) {
    s.parent.None? || !HasId(spans, s.parent.value)
  }

  predicate UniqueIds(spans: seq<Span>) {
    forall i, j | 0 <= i < j < |spans| :: spans[i].id != spans[j].id
  }

  lemma SameIdSameSpan(spans: seq<Span>, a: Span, b: Span)
    requires UniqueIds(spans) && a in spans && b in spans && a.id == b.id
    ensures a == b
  {
    var i :| 0 <= i < |spans| && spans[i] == a;
    var j :| 0 <= j < |spans| && spans[j] == b;
  }

  /** The span with this id. */
  function ById(spans: seq<Span>, id: Id): (s: Span)
    requires HasId(spans, id)
    ensures s in spans && s.id == id
  {
    if spans[|spans| - 1].id == id then spans[|spans| - 1]
    else
      assert HasId(spans[..|spans| - 1], id) by {
        var i :| 0 <= i < |spans| && spans[i].id == id;
        assert spans[..|spans| - 1][i].id == id;
      }
      ById(spans[..|spans| - 1], id)
  }

  function Parent(spans: seq<Span>, s: Span): (p: Span)
    requires !IsRoot(spans, s)
    ensures p in spans && Some(p.id) == s.parent
  {
    ById(spans, s.parent.value)
  }

  /** The parent chain of `s` reaches a root after `d` steps. */
  predicate AtDepth(spans: seq<Span>, s: Span, d: nat)
    decreases d
  {
    s in spans && if d == 0 then IsRoot(spans, s) else !IsRoot(spans, s) && AtDepth(spans, Parent(spans, s), d - 1)
  }

  lemma {:induction false} DepthIsUnique(spans: seq<Span>, s: Span, d: nat, e: nat)
    requires AtDepth(spans, s, d) && AtDepth(spans, s, e)
    ensures d == e
    decreases d
  {
    if d > 0 && e > 0 {
      DepthIsUnique(spans, Parent(spans, s), d - 1, e - 1);
    }
  }

  /** The ancestor of `s` at level `l` of its chain. */
  function Ancestor(spans: seq<Span>, s: Span, d: nat, l: nat): (a: Span)
    requires AtDepth(spans, s, d) && l <= d
    ensures AtDepth(spans, a, l)
    decreases d
  {
    if l == d then s else Ancestor(spans, Parent(spans, s), d - 1, l)
  }

  /** The ids on the chain of `s`. */
  function ChainIds(spans: seq<Span>, s: Span, d: nat): set<Id>
    requires AtDepth(spans, s, d)
    decreases d
  {
    if d == 0 then {s.id} else ChainIds(spans, Parent(spans, s), d - 1) + {s.id}
  }

  lemma {:induction false} ChainLevel(spans: seq<Span>, s: Span, d: nat, id: Id) returns (t: Span, l: nat)
    requires AtDepth(spans, s, d) && id in ChainIds(spans, s, d)
    ensures t.id == id && l <= d && AtDepth(spans, t, l)
    decreases d
  {
    if id == s.id {
      t, l := s, d;
    } else {
      t, l := ChainLevel(spans, Parent(spans, s), d - 1, id);
    }
  }

  lemma {:induction false} ChainCount(spans: seq<Span>, s: Span, d: nat)
    requires UniqueIds(spans) && AtDepth(spans, s, d)
    ensures |ChainIds(spans, s, d)| == d + 1 && ChainIds(spans, s, d) <= Ids(spans)
    decreases d
  {
    if d > 0 {
      ChainCount(spans, Parent(spans, s), d - 1);
      NotAboveItself(spans, s, d);
    }
  }

  lemma NotAboveItself(spans: seq<Span>, s: Span, d: nat)
    requires UniqueIds(spans) && AtDepth(spans, s, d) && d > 0
    ensures s.id !in ChainIds(spans, Parent(spans, s), d - 1)
  {
    if s.id in ChainIds(spans, Parent(spans, s), d - 1) {
      var t, l := ChainLevel(spans, Parent(spans, s), d - 1, s.id);
      SameIdSameSpan(spans, t, s);
      DepthIsUnique(spans, s, d, l);
      assert false;
    }
  }

  function Ids(spans: seq<Span>): set<Id> {
    set i | 0 <= i < |spans| :: spans[i].id
  }

  lemma {:induction false} IdsAtMost(spans: seq<Span>)
    ensures |Ids(spans)| <= |spans|
    decreases |spans|
  {
    if spans != [] {
      var n := |spans| - 1;
      IdsAtMost(spans[..n]);
      forall id | id in Ids(spans) ensures id in Ids(spans[..n]) + {spans[n].id} {
        var i :| 0 <= i < |spans| && spans[i].id == id;
        assert i < n ==> spans[..n][i].id == id;
      }
      assert Ids(spans) <= Ids(spans[..n]) + {spans[n].id};
      SubsetAtMost(Ids(spans), Ids(spans[..n]) + {spans[n].id});
    }
  }

  lemma SubsetAtMost(a: set<Id>, b: set<Id>)
    requires a <= b
    ensures |a| <= |b|
  {
    assert b == a + (b - a);
  }

  lemma DepthBound(spans: seq<Span>, s: Span, d: nat)
    requires UniqueIds(spans) && AtDepth(spans, s, d)
    ensures d < |spans|
  {
    ChainCount(spans, s, d);
    SubsetAtMost(ChainIds(spans, s, d), Ids(spans));
    IdsAtMost(spans);
  }

  // ---------------------------------------------------------------- order

  /** Earlier start first, ties by id. */
  predicate Less(a: Span, b: Span) {
    a.start < b.start || (a.start == b.start && a.id < b.id)
  }

  predicate Ordered(list: seq<Span>) {
    forall i, j | 0 <= i < j < |list| :: Less(list[i], list[j])
  }

  type Children = map<Id, seq<Span>>

  function KidsOf(children: Children, id: Id): seq<Span> {
    if id in children then children[id] else []
  }

  /** The sorted roots and the sorted children of every span. */
  ghost predicate Forest(spans: seq<Span>, roots: seq<Span>, children: Children) {
    && UniqueIds(spans)
    && Ordered(roots) && (forall s :: s in roots <==> s in spans && IsRoot(spans, s))
    && forall id :: Ordered(KidsOf(children, id)) && KidsExactly(spans, children, id)
  }

  ghost predicate KidsExactly(spans: seq<Span>, children: Children, id: Id) {
    forall k :: k in KidsOf(children, id) <==> k in spans && !IsRoot(spans, k) && k.parent == Some(id)
  }

  lemma KidsAreDeeper(spans: seq<Span>, roots: seq<Span>, children: Children, s: Span, d: nat)
    requires Forest(spans, roots, children) && AtDepth(spans, s, d)
    ensures forall k | k in KidsOf(children, s.id) :: AtDepth(spans, k, d + 1) && Parent(spans, k) == s
  {
    assert KidsExactly(spans, children, s.id);
    forall k | k in KidsOf(children, s.id) ensures AtDepth(spans, k, d + 1) && Parent(spans, k) == s {
      SameIdSameSpan(spans, Parent(spans, k), s);
    }
  }

  /** The subtree of `s` in pre-order: the span, then its children's subtrees. */
  ghost function PreOrder(spans: seq<Span>, roots: seq<Span>, children: Children, s: Span, d: nat): (out: seq<Placed>)
    requires Forest(spans, roots, children) && AtDepth(spans, s, d)
    ensures |out| > 0 && out[0] == Placed(s, d)
    decreases |spans| - d, 0
  {
    DepthBound(spans, s, d);
    KidsAreDeeper(spans, roots, children, s, d);
    [Placed(s, d)] + PreOrders(spans, roots, children, KidsOf(children, s.id), d + 1)
  }

  ghost function PreOrders(spans: seq<Span>, roots: seq<Span>, children: Children, list: seq<Span>, d: nat): seq<Placed>
    requires Forest(spans, roots, children) && forall k | k in list :: AtDepth(spans, k, d)
    decreases |spans| - d, 1, |list|
  {
    if list == [] then []
    else
      var n := |list| - 1;
      assert forall k | k in list[..n] :: k in list;
      assert list[n] in list;
      PreOrders(spans, roots, children, list[..n], d) + PreOrder(spans, roots, children, list[n], d)
  }

  /** The whole list: every root's subtree. */
  ghost function Listing(spans: seq<Span>, roots: seq<Span>, children: Children): seq<Placed>
    requires Forest(spans, roots, children)
  {
    PreOrders(spans, roots, children, roots, 0)
  }

  // ---------------------------------------------------------------- what is listed

  /** `x` at depth `e` lies below `s` at depth `d`, or is `s`. */
  predicate Below(spans: seq<Span>, s: Span, d: nat, x: Span, e: nat) {
    d <= e && AtDepth(spans, x, e) && Ancestor(spans, x, e, d) == s
  }

  lemma {:induction false} AncestorOfAncestor(spans: seq<Span>, x: Span, e: nat, d: nat)
    requires AtDepth(spans, x, e) && d < e
    ensures !IsRoot(spans, Ancestor(spans, x, e, d + 1))
    ensures Parent(spans, Ancestor(spans, x, e, d + 1)) == Ancestor(spans, x, e, d)
    decreases e
  {
    if d + 1 < e {
      AncestorOfAncestor(spans, Parent(spans, x), e - 1, d);
    }
  }

  /** Exactly the spans below `s` are in its subtree. */
  lemma {:induction false} PreOrderHolds(spans: seq<Span>, roots: seq<Span>, children: Children, s: Span, d: nat, x: Placed)
    requires Forest(spans, roots, children) && AtDepth(spans, s, d)
    ensures x in PreOrder(spans, roots, children, s, d) <==> Below(spans, s, d, x.span, x.depth)
    decreases |spans| - d, 0
  {
    DepthBound(spans, s, d);
    KidsAreDeeper(spans, roots, children, s, d);
    var kids := KidsOf(children, s.id);
    PreOrdersHold(spans, roots, children, kids, d + 1, x);
    if x.depth > d && AtDepth(spans, x.span, x.depth) {
      AncestorOfAncestor(spans, x.span, x.depth, d);
      var k := Ancestor(spans, x.span, x.depth, d + 1);
      assert KidsExactly(spans, children, s.id);
      assert k in kids <==> Parent(spans, k) == s by {
        if k.parent == Some(s.id) {
          SameIdSameSpan(spans, Parent(spans, k), s);
        }
      }
    }
  }

  lemma {:induction false} PreOrdersHold(spans: seq<Span>, roots: seq<Span>, children: Children, list: seq<Span>, d: nat, x: Placed)
    requires Forest(spans, roots, children) && forall k | k in list :: AtDepth(spans, k, d)
    ensures x in PreOrders(spans, roots, children, list, d) <==>
      x.depth >= d && AtDepth(spans, x.span, x.depth) && Ancestor(spans, x.span, x.depth, d) in list
    decreases |spans| - d, 1, |list|
  {
    if list != [] {
      var n := |list| - 1;
      assert forall k | k in list[..n] :: k in list;
      assert list[n] in list;
      PreOrdersHold(spans, roots, children, list[..n], d, x);
      PreOrderHolds(spans, roots, children, list[n], d, x);
      assert forall k :: k in list <==> k in list[..n] || k == list[n];
    }
  }

  /** Exactly the spans whose parent chain reaches a root are listed, at the length of that chain. */
  lemma ListedExactly(spans: seq<Span>, roots: seq<Span>, children: Children, x: Placed)
    requires Forest(spans, roots, children)
    ensures x in Listing(spans, roots, children) <==> AtDepth(spans, x.span, x.depth)
  {
    PreOrdersHold(spans, roots, children, roots, 0, x);
  }

  /** By parent links alone: a span is listed at the top exactly when it has no parent or
      its parent is not in the set, and below exactly when its parent is listed one higher. */
  lemma ListedUnderParent(spans: seq<Span>, roots: seq<Span>, children: Children, s: Span, d: nat)
    requires Forest(spans, roots, children)
    ensures Placed(s, 0) in Listing(spans, roots, children) <==>
      s in spans && (s.parent.None? || forall p | p in spans :: p.id != s.parent.value)
    ensures Placed(s, d + 1) in Listing(spans, roots, children) <==>
      s in spans && exists p :: p in spans && s.parent == Some(p.id) && Placed(p, d) in Listing(spans, roots, children)
  {
    ListedExactly(spans, roots, children, Placed(s, 0));
    ListedExactly(spans, roots, children, Placed(s, d + 1));
    if s.parent.Some? {
      assert HasId(spans, s.parent.value) <==> exists p :: p in spans && p.id == s.parent.value;
    }
    if p :| p in spans && s.parent == Some(p.id) {
      assert !IsRoot(spans, s);
      SameIdSameSpan(spans, Parent(spans, s), p);
      ListedExactly(spans, roots, children, Placed(p, d));
    }
  }

  // ---------------------------------------------------------------- each once

  /** No span is listed twice. */
  predicate Once(out: seq<Placed>) {
    forall i, j | 0 <= i < j < |out| :: out[i].span.id != out[j].span.id
  }

  /** The subtrees of two spans of one level have no span in common. */
  predicate Apart(a: seq<Placed>, b: seq<Placed>) {
    forall x, y | x in a && y in b :: x.span.id != y.span.id
  }

  lemma OnceConcat(a: seq<Placed>, b: seq<Placed>)
    requires Once(a) && Once(b) && Apart(a, b)
    ensures Once(a + b)
  {
    forall i, j | 0 <= i < j < |a + b| ensures (a + b)[i].span.id != (a + b)[j].span.id {
      if i < |a| <= j {
        assert a[i] in a && b[j - |a|] in b;
      }
    }
  }

  lemma SubtreesApart(spans: seq<Span>, roots: seq<Span>, children: Children, list: seq<Span>, s: Span, d: nat)
    requires Forest(spans, roots, children) && AtDepth(spans, s, d) && s !in list
    requires forall k | k in list :: AtDepth(spans, k, d)
    ensures Apart(PreOrders(spans, roots, children, list, d), PreOrder(spans, roots, children, s, d))
  {
    forall x, y | x in PreOrders(spans, roots, children, list, d) && y in PreOrder(spans, roots, children, s, d)
      ensures x.span.id != y.span.id
    {
      PreOrdersHold(spans, roots, children, list, d, x);
      PreOrderHolds(spans, roots, children, s, d, y);
      if x.span.id == y.span.id {
        SameIdSameSpan(spans, x.span, y.span);
        DepthIsUnique(spans, x.span, x.depth, y.depth);
        assert false;
      }
    }
  }

  lemma {:induction false} PreOrderOnce(spans: seq<Span>, roots: seq<Span>, children: Children, s: Span, d: nat)
    requires Forest(spans, roots, children) && AtDepth(spans, s, d)
    ensures Once(PreOrder(spans, roots, children, s, d))
    decreases |spans| - d, 0
  {
    DepthBound(spans, s, d);
    KidsAreDeeper(spans, roots, children, s, d);
    var kids := KidsOf(children, s.id);
    var below := PreOrders(spans, roots, children, kids, d + 1);
    PreOrdersOnce(spans, roots, children, kids, d + 1);
    forall x, y | x in [Placed(s, d)] && y in below ensures x.span.id != y.span.id {
      PreOrdersHold(spans, roots, children, kids, d + 1, y);
      if y.span.id == s.id {
        SameIdSameSpan(spans, y.span, s);
        DepthIsUnique(spans, s, d, y.depth);
        assert false;
      }
    }
    OnceConcat([Placed(s, d)], below);
  }

  lemma {:induction false} PreOrdersOnce(spans: seq<Span>, roots: seq<Span>, children: Children, list: seq<Span>, d: nat)
    requires Forest(spans, roots, children) && Ordered(list) && forall k | k in list :: AtDepth(spans, k, d)
    ensures Once(PreOrders(spans, roots, children, list, d))
    decreases |spans| - d, 1, |list|
  {
    if list != [] {
      var n := |list| - 1;
      assert forall k | k in list[..n] :: k in list;
      assert list[n] in list;
      PreOrdersOnce(spans, roots, children, list[..n], d);
      PreOrderOnce(spans, roots, children, list[n], d);
      SubtreesApart(spans, roots, children, list[..n], list[n], d);
      OnceConcat(PreOrders(spans, roots, children, list[..n], d), PreOrder(spans, roots, children, list[n], d));
    }
  }

  /** Each listed span appears once. */
  lemma ListedOnce(spans: seq<Span>, roots: seq<Span>, children: Children)
    requires Forest(spans, roots, children)
    ensures Once(Listing(spans, roots, children))
  {
    PreOrdersOnce(spans, roots, children, roots, 0);
  }

  // ---------------------------------------------------------------- in which order

  /** Below the first level `d`, every span comes after its parent. */
  ghost predicate ParentFirst(out: seq<Placed>, d: nat) {
    forall j | 0 <= j < |out| && out[j].depth > d :: ComesAfterParent(out, j)
  }

  ghost predicate ComesAfterParent(out: seq<Placed>, j: nat)
    requires j < |out|
  {
    exists i :: IsParentAt(out, i, j)
  }

  predicate IsParentAt(out: seq<Placed>, i: int, j: int) {
    0 <= i < j < |out| && Some(out[i].span.id) == out[j].span.parent && out[i].depth + 1 == out[j].depth
  }

  lemma AfterParentInConcat(a: seq<Placed>, b: seq<Placed>, j: nat)
    requires j < |b| && ComesAfterParent(b, j)
    ensures ComesAfterParent(a + b, |a| + j)
  {
    var i :| IsParentAt(b, i, j);
    assert (a + b)[|a| + i] == b[i] && (a + b)[|a| + j] == b[j];
    assert IsParentAt(a + b, |a| + i, |a| + j);
  }

  lemma AfterParentInPrefix(a: seq<Placed>, b: seq<Placed>, j: nat)
    requires j < |a| && ComesAfterParent(a, j)
    ensures ComesAfterParent(a + b, j)
  {
    var i :| IsParentAt(a, i, j);
    assert (a + b)[i] == a[i] && (a + b)[j] == a[j];
    assert IsParentAt(a + b, i, j);
  }

  lemma ParentFirstConcat(a: seq<Placed>, b: seq<Placed>, d: nat)
    requires ParentFirst(a, d) && ParentFirst(b, d)
    ensures ParentFirst(a + b, d)
  {
    forall j | 0 <= j < |a + b| && (a + b)[j].depth > d ensures ComesAfterParent(a + b, j) {
      if j < |a| {
        AfterParentInPrefix(a, b, j);
      } else {
        AfterParentInConcat(a, b, j - |a|);
      }
    }
  }

  lemma {:induction false} PreOrderParentFirst(spans: seq<Span>, roots: seq<Span>, children: Children, s: Span, d: nat)
    requires Forest(spans, roots, children) && AtDepth(spans, s, d)
    ensures ParentFirst(PreOrder(spans, roots, children, s, d), d)
    decreases |spans| - d, 0
  {
    DepthBound(spans, s, d);
    KidsAreDeeper(spans, roots, children, s, d);
    var kids := KidsOf(children, s.id);
    var below := PreOrders(spans, roots, children, kids, d + 1);
    PreOrdersParentFirst(spans, roots, children, kids, d + 1);
    forall y | y in below ensures y.depth > d && (y.depth == d + 1 ==> y.span.parent == Some(s.id)) {
      PreOrdersHold(spans, roots, children, kids, d + 1, y);
      assert KidsExactly(spans, children, s.id);
    }
    HeadThenKids(s, d, below);
  }

  lemma HeadThenKids(s: Span, d: nat, below: seq<Placed>)
    requires ParentFirst(below, d + 1)
    requires forall y | y in below :: y.depth > d && (y.depth == d + 1 ==> y.span.parent == Some(s.id))
    ensures ParentFirst([Placed(s, d)] + below, d)
  {
    var out := [Placed(s, d)] + below;
    forall j | 0 < j < |out| ensures ComesAfterParent(out, j) {
      assert below[j - 1] in below;
      HeadThenKid(s, d, below, j - 1);
    }
    assert out[0].depth == d;
  }

  lemma HeadThenKid(s: Span, d: nat, below: seq<Placed>, j: nat)
    requires ParentFirst(below, d + 1) && j < |below| && below[j].depth > d
    requires below[j].depth == d + 1 ==> below[j].span.parent == Some(s.id)
    ensures ComesAfterParent([Placed(s, d)] + below, j + 1)
  {
    var out := [Placed(s, d)] + below;
    assert out[0] == Placed(s, d) && out[j + 1] == below[j];
    if below[j].depth > d + 1 {
      AfterParentInConcat([Placed(s, d)], below, j);
    } else {
      assert IsParentAt(out, 0, j + 1);
    }
  }

  lemma {:induction false} PreOrdersParentFirst(spans: seq<Span>, roots: seq<Span>, children: Children, list: seq<Span>, d: nat)
    requires Forest(spans, roots, children) && forall k | k in list :: AtDepth(spans, k, d)
    ensures ParentFirst(PreOrders(spans, roots, children, list, d), d)
    decreases |spans| - d, 1, |list|
  {
    if list != [] {
      var n := |list| - 1;
      assert forall k | k in list[..n] :: k in list;
      assert list[n] in list;
      PreOrdersParentFirst(spans, roots, children, list[..n], d);
      PreOrderParentFirst(spans, roots, children, list[n], d);
      ParentFirstConcat(PreOrders(spans, roots, children, list[..n], d), PreOrder(spans, roots, children, list[n], d), d);
    }
  }

  lemma ParentsComeFirst(spans: seq<Span>, roots: seq<Span>, children: Children)
    requires Forest(spans, roots, children)
    ensures ParentFirst(Listing(spans, roots, children), 0)
  {
    PreOrdersParentFirst(spans, roots, children, roots, 0);
  }

  predicate StandsAt(out: seq<Placed>, part: seq<Placed>, i: nat) {
    i + |part| <= |out| && out[i..i + |part|] == part
  }

  /** `part` stands in `out` without a gap. */
  ghost predicate Contiguous(out: seq<Placed>, part: seq<Placed>) {
    exists i: nat :: StandsAt(out, part, i)
  }

  lemma ContiguousAfter(a: seq<Placed>, b: seq<Placed>, part: seq<Placed>)
    requires Contiguous(b, part)
    ensures Contiguous(a + b, part)
  {
    var i: nat :| StandsAt(b, part, i);
    assert (a + b)[|a| + i..|a| + i + |part|] == b[i..i + |part|];
    assert StandsAt(a + b, part, |a| + i);
  }

  lemma ContiguousBefore(a: seq<Placed>, b: seq<Placed>, part: seq<Placed>)
    requires Contiguous(a, part)
    ensures Contiguous(a + b, part)
  {
    var i: nat :| StandsAt(a, part, i);
    assert (a + b)[i..i + |part|] == a[i..i + |part|];
    assert StandsAt(a + b, part, i);
  }

  lemma ContiguousWhole(out: seq<Placed>)
    ensures Contiguous(out, out)
  {
    assert out[0..0 + |out|] == out;
    assert StandsAt(out, out, 0);
  }

  lemma {:induction false} SubtreeInPreOrder(
    spans: seq<Span>, roots: seq<Span>, children: Children, s: Span, d: nat, x: Span, e: nat)
    requires Forest(spans, roots, children) && AtDepth(spans, s, d) && Below(spans, s, d, x, e)
    ensures Contiguous(PreOrder(spans, roots, children, s, d), PreOrder(spans, roots, children, x, e))
    decreases |spans| - d, 0
  {
    if d == e {
      ContiguousWhole(PreOrder(spans, roots, children, s, d));
    } else {
      DepthBound(spans, s, d);
      KidsAreDeeper(spans, roots, children, s, d);
      ChildAbove(spans, roots, children, s, d, x, e);
      var kids := KidsOf(children, s.id);
      SubtreeInPreOrders(spans, roots, children, kids, d + 1, x, e);
      ContiguousAfter([Placed(s, d)], PreOrders(spans, roots, children, kids, d + 1), PreOrder(spans, roots, children, x, e));
    }
  }

  /** A span strictly below `s` is below one of its children. */
  lemma ChildAbove(spans: seq<Span>, roots: seq<Span>, children: Children, s: Span, d: nat, x: Span, e: nat)
    requires Forest(spans, roots, children) && Below(spans, s, d, x, e) && d < e
    ensures Ancestor(spans, x, e, d + 1) in KidsOf(children, s.id)
  {
    AncestorOfAncestor(spans, x, e, d);
    assert KidsExactly(spans, children, s.id);
  }

  lemma {:induction false} SubtreeInPreOrders(
    spans: seq<Span>, roots: seq<Span>, children: Children, list: seq<Span>, d: nat, x: Span, e: nat)
    requires Forest(spans, roots, children) && (forall k | k in list :: AtDepth(spans, k, d))
    requires d <= e && AtDepth(spans, x, e) && Ancestor(spans, x, e, d) in list
    ensures Contiguous(PreOrders(spans, roots, children, list, d), PreOrder(spans, roots, children, x, e))
    decreases |spans| - d, 1, |list|
  {
    var n := |list| - 1;
    assert forall k | k in list[..n] :: k in list;
    assert list[n] in list;
    var a, b := PreOrders(spans, roots, children, list[..n], d), PreOrder(spans, roots, children, list[n], d);
    var part := PreOrder(spans, roots, children, x, e);
    if Ancestor(spans, x, e, d) in list[..n] {
      SubtreeInPreOrders(spans, roots, children, list[..n], d, x, e);
      ContiguousBefore(a, b, part);
    } else {
      assert Ancestor(spans, x, e, d) == list[n];
      SubtreeInPreOrder(spans, roots, children, list[n], d, x, e);
      ContiguousAfter(a, b, part);
    }
  }

  /** Each subtree is one stretch of the list. */
  lemma SubtreesAreContiguous(spans: seq<Span>, roots: seq<Span>, children: Children, x: Span, e: nat)
    requires Forest(spans, roots, children) && AtDepth(spans, x, e)
    ensures Contiguous(Listing(spans, roots, children), PreOrder(spans, roots, children, x, e))
  {
    SubtreeInPreOrders(spans, roots, children, roots, 0, x, e);
  }

  /** Both roots, or children of one parent. */
  predicate Siblings(a: Placed, b: Placed) {
    a.depth == b.depth && (a.depth == 0 || a.span.parent == b.span.parent)
  }

  predicate SiblingsOrdered(out: seq<Placed>) {
    forall i, j | 0 <= i < j < |out| && Siblings(out[i], out[j]) :: Less(out[i].span, out[j].span)
  }

  predicate CrossOrdered(a: seq<Placed>, b: seq<Placed>) {
    forall x, y | x in a && y in b && Siblings(x, y) :: Less(x.span, y.span)
  }

  lemma {:induction false} PreOrderSiblings(spans: seq<Span>, roots: seq<Span>, children: Children, s: Span, d: nat)
    requires Forest(spans, roots, children) && AtDepth(spans, s, d)
    ensures SiblingsOrdered(PreOrder(spans, roots, children, s, d))
    decreases |spans| - d, 0
  {
    DepthBound(spans, s, d);
    KidsAreDeeper(spans, roots, children, s, d);
    var kids := KidsOf(children, s.id);
    var below := PreOrders(spans, roots, children, kids, d + 1);
    PreOrdersSiblings(spans, roots, children, kids, d + 1);
    forall y | y in below ensures y.depth > d {
      PreOrdersHold(spans, roots, children, kids, d + 1, y);
    }
  }

  lemma {:induction false} PreOrdersSiblings(spans: seq<Span>, roots: seq<Span>, children: Children, list: seq<Span>, d: nat)
    requires Forest(spans, roots, children) && Ordered(list) && forall k | k in list :: AtDepth(spans, k, d)
    ensures SiblingsOrdered(PreOrders(spans, roots, children, list, d))
    decreases |spans| - d, 1, |list|
  {
    if list != [] {
      var n := |list| - 1;
      assert forall k | k in list[..n] :: k in list;
      assert list[n] in list;
      PreOrdersSiblings(spans, roots, children, list[..n], d);
      PreOrderSiblings(spans, roots, children, list[n], d);
      SubtreesInOrder(spans, roots, children, list, d);
    }
  }

  lemma SubtreesInOrder(spans: seq<Span>, roots: seq<Span>, children: Children, list: seq<Span>, d: nat)
    requires Forest(spans, roots, children) && list != [] && Ordered(list) && forall k | k in list :: AtDepth(spans, k, d)
    requires list[|list| - 1] in list && forall k | k in list[..|list| - 1] :: k in list
    ensures CrossOrdered(PreOrders(spans, roots, children, list[..|list| - 1], d), PreOrder(spans, roots, children, list[|list| - 1], d))
  {
    var before, s := list[..|list| - 1], list[|list| - 1];
    forall x, y | x in PreOrders(spans, roots, children, before, d) && y in PreOrder(spans, roots, children, s, d) && Siblings(x, y)
      ensures Less(x.span, y.span)
    {
      PreOrdersHold(spans, roots, children, before, d, x);
      PreOrderHolds(spans, roots, children, s, d, y);
      var a := Ancestor(spans, x.span, x.depth, d);
      assert Less(a, s) by {
        var i :| 0 <= i < |before| && before[i] == a;
        assert list[i] == a;
      }
      if x.depth > d {
        assert false;
      }
    }
  }

  /** Roots and the children of each span appear in order of start, then id. */
  lemma SiblingsComeInOrder(spans: seq<Span>, roots: seq<Span>, children: Children)
    requires Forest(spans, roots, children)
    ensures var out := Listing(spans, roots, children);
      forall i, j | 0 <= i < j < |out| && Siblings(out[i], out[j]) ::
        var a, b := out[i].span, out[j].span;
        a.start < b.start || (a.start == b.start && a.id < b.id)
  {
    PreOrdersSiblings(spans, roots, children, roots, 0);
    assert SiblingsOrdered(Listing(spans, roots, children));
  }

  // ---------------------------------------------------------------- all of them

  function SpansOf(out: seq<Placed>): seq<Span> {
    seq(|out|, i requires 0 <= i < |out| => out[i].span)
  }

  lemma {:induction false} CountOfUnique(list: seq<Span>, s: Span)
    requires UniqueIds(list)
    ensures multiset(list)[s] == if s in list then 1 else 0
    decreases |list|
  {
    if list != [] {
      var n := |list| - 1;
      CountOfUnique(list[..n], s);
      assert list == list[..n] + [list[n]];
    }
  }

  ghost predicate ReachesRoot(spans: seq<Span>, s: Span) {
    exists d: nat :: AtDepth(spans, s, d)
  }

  /** There is no cycle of parents. */
  ghost predicate AllReachRoots(spans: seq<Span>) {
    forall s | s in spans :: ReachesRoot(spans, s)
  }

  /** When every parent chain reaches a root, the list is a permutation of the spans. */
  lemma AcyclicIsPermuted(spans: seq<Span>, roots: seq<Span>, children: Children)
    requires Forest(spans, roots, children) && AllReachRoots(spans)
    ensures multiset(SpansOf(Listing(spans, roots, children))) == multiset(spans)
  {
    var out := Listing(spans, roots, children);
    var listed := SpansOf(out);
    ListedOnce(spans, roots, children);
    forall s ensures multiset(listed)[s] == multiset(spans)[s] {
      CountOfUnique(listed, s);
      CountOfUnique(spans, s);
      ListedIffPresent(spans, roots, children, s);
    }
  }

  lemma ListedIffPresent(spans: seq<Span>, roots: seq<Span>, children: Children, s: Span)
    requires Forest(spans, roots, children) && AllReachRoots(spans)
    ensures s in SpansOf(Listing(spans, roots, children)) <==> s in spans
  {
    var out := Listing(spans, roots, children);
    if s in spans {
      assert ReachesRoot(spans, s);
      var d: nat :| AtDepth(spans, s, d);
      ListedExactly(spans, roots, children, Placed(s, d));
      var i :| 0 <= i < |out| && out[i] == Placed(s, d);
      assert SpansOf(out)[i] == s;
    }
    if s in SpansOf(out) {
      var i :| 0 <= i < |out| && out[i].span == s;
      ListedExactly(spans, roots, children, out[i]);
    }
  }

  // ---------------------------------------------------------------- the program

  /** `cmp(a, b) <= 0`. */
  predicate NotAfter(a: Span, b: Span) {
    !Less(b, a)
  }

  predicate Sorted(list: seq<Span>) {
    forall i, j | 0 <= i < j < |list| :: NotAfter(list[i], list[j])
  }

  method InsertInto(sorted: seq<Span>, s: Span) returns (r: seq<Span>)
    requires Sorted(sorted)
    ensures Sorted(r) && multiset(r) == multiset(sorted) + multiset{s}
  {
    var i := |sorted|;
    while i > 0 && Less(s, sorted[i - 1])
      invariant 0 <= i <= |sorted|
      invariant forall j | i <= j < |sorted| :: Less(s, sorted[j])
    {
      i := i - 1;
    }
    InsertedSorted(sorted, s, i);
    r := sorted[..i] + [s] + sorted[i..];
    assert sorted == sorted[..i] + sorted[i..];
  }

  lemma InsertedSorted(sorted: seq<Span>, s: Span, i: nat)
    requires Sorted(sorted) && i <= |sorted| && (forall j | i <= j < |sorted| :: Less(s, sorted[j]))
    requires i == 0 || NotAfter(sorted[i - 1], s)
    ensures Sorted(sorted[..i] + [s] + sorted[i..])
  {
    var r := sorted[..i] + [s] + sorted[i..];
    forall a, b | 0 <= a < b < |r| ensures NotAfter(r[a], r[b]) {
      assert b < i ==> NotAfter(sorted[a], sorted[b]);
      assert a < i && b == i && a < i - 1 ==> NotAfter(sorted[a], sorted[i - 1]);
    }
  }

  method SortSpans(list: seq<Span>) returns (r: seq<Span>)
    ensures Sorted(r) && multiset(r) == multiset(list)
    ensures forall i, j | 0 <= i < j < |r| :: r[i].start < r[j].start || (r[i].start == r[j].start && r[i].id <= r[j].id)
  {
    r := [];
    for i := 0 to |list|
      invariant Sorted(r) && multiset(r) == multiset(list[..i])
    {
      assert list[..i + 1] == list[..i] + [list[i]];
      r := InsertInto(r, list[i]);
    }
    assert list[..|list|] == list;
  }

  /** Where a span goes: among the roots, or under its parent. */
  function Place(spans: seq<Span>, s: Span): Option<Id> {
    if IsRoot(spans, s) then None else s.parent
  }

  /** Of the first `n` spans, those that go to `under`, in input order. */
  function Selected(spans: seq<Span>, n: nat, under: Option<Id>): seq<Span>
    requires n <= |spans|
  {
    if n == 0 then []
    else Selected(spans, n - 1, under) + if Place(spans, spans[n - 1]) == under then [spans[n - 1]] else []
  }

  /** The roots and each span's children, in input order. */
  method GroupSpans(spans: seq<Span>) returns (roots: seq<Span>, children: Children)
    ensures roots == Selected(spans, |spans|, None)
    ensures forall id :: KidsOf(children, id) == Selected(spans, |spans|, Some(id))
  {
    var byId := Ids(spans);
    roots, children := [], map[];
    for i := 0 to |spans|
      invariant roots == Selected(spans, i, None)
      invariant forall id :: KidsOf(children, id) == Selected(spans, i, Some(id))
    {
      var s := spans[i];
      assert HasId(spans, if s.parent.Some? then s.parent.value else 0) ==> (if s.parent.Some? then s.parent.value else 0) in byId;
      if s.parent.None? || s.parent.value !in byId {
        assert IsRoot(spans, s);
        roots := roots + [s];
      } else {
        assert !IsRoot(spans, s);
        children := children[s.parent.value := KidsOf(children, s.parent.value) + [s]];
      }
    }
  }

  /** Every list of children sorted in place. */
  method SortChildren(children: Children) returns (r: Children)
    ensures forall id :: Sorted(KidsOf(r, id)) && multiset(KidsOf(r, id)) == multiset(KidsOf(children, id))
  {
    r := children;
    var left := children.Keys;
    while left != {}
      invariant left <= children.Keys == r.Keys
      invariant forall id :: multiset(KidsOf(r, id)) == multiset(KidsOf(children, id))
      invariant forall id | id !in left :: Sorted(KidsOf(r, id))
      decreases |left|
    {
      var id :| id in left;
      var list := SortSpans(r[id]);
      r := r[id := list];
      left := left - {id};
    }
  }

  lemma {:induction false} SelectedHolds(spans: seq<Span>, n: nat, under: Option<Id>, s: Span)
    requires n <= |spans|
    ensures s in Selected(spans, n, under) <==> s in spans[..n] && Place(spans, s) == under
  {
    if n > 0 {
      SelectedHolds(spans, n - 1, under, s);
      assert spans[..n] == spans[..n - 1] + [spans[n - 1]];
    }
  }

  lemma {:induction false} SelectedUnique(spans: seq<Span>, n: nat, under: Option<Id>)
    requires n <= |spans| && UniqueIds(spans)
    ensures UniqueIds(Selected(spans, n, under))
  {
    if n > 0 {
      SelectedUnique(spans, n - 1, under);
      var before := Selected(spans, n - 1, under);
      forall i | 0 <= i < |before| ensures before[i].id != spans[n - 1].id {
        assert before[i] in before;
        SelectedHolds(spans, n - 1, under, before[i]);
        var j :| 0 <= j < n - 1 && spans[..n - 1][j] == before[i];
        assert spans[j] == before[i];
      }
    }
  }

  lemma TwiceCounted(list: seq<Span>, i: nat, j: nat)
    requires i < j < |list| && list[i] == list[j]
    ensures multiset(list)[list[i]] >= 2
  {
    var a, b := list[..j], list[j..];
    assert list == a + b;
    assert list[i] == a[i] && a[i] in a && list[j] == b[0] && b[0] in b;
    assert multiset(list) == multiset(a) + multiset(b);
  }

  /** Sorting a list of different spans orders it strictly. */
  lemma SortedIsOrdered(list: seq<Span>, from: seq<Span>)
    requires Sorted(list) && multiset(list) == multiset(from) && UniqueIds(from)
    ensures Ordered(list)
  {
    forall i, j | 0 <= i < j < |list| ensures Less(list[i], list[j]) {
      assert list[i] in multiset(list) && list[j] in multiset(list);
      if list[i].id == list[j].id {
        SameIdSameSpan(from, list[i], list[j]);
        TwiceCounted(list, i, j);
        CountOfUnique(from, list[i]);
        assert false;
      }
      assert NotAfter(list[i], list[j]);
    }
  }

  lemma GroupedIsForest(spans: seq<Span>, roots: seq<Span>, children: Children)
    requires UniqueIds(spans) && Sorted(roots) && multiset(roots) == multiset(Selected(spans, |spans|, None))
    requires forall id ::
      Sorted(KidsOf(children, id)) && multiset(KidsOf(children, id)) == multiset(Selected(spans, |spans|, Some(id)))
    ensures Forest(spans, roots, children)
  {
    ListIsExact(spans, roots, None);
    forall id ensures Ordered(KidsOf(children, id)) && KidsExactly(spans, children, id) {
      ListIsExact(spans, KidsOf(children, id), Some(id));
    }
  }

  lemma ListIsExact(spans: seq<Span>, list: seq<Span>, under: Option<Id>)
    requires UniqueIds(spans) && Sorted(list) && multiset(list) == multiset(Selected(spans, |spans|, under))
    ensures Ordered(list) && forall s :: s in list <==> s in spans && Place(spans, s) == under
  {
    var n := |spans|;
    assert spans[..n] == spans;
    SelectedUnique(spans, n, under);
    SortedIsOrdered(list, Selected(spans, n, under));
    forall s ensures s in list <==> s in spans && Place(spans, s) == under {
      SelectedHolds(spans, n, under, s);
      assert s in list <==> s in multiset(list);
    }
  }

  // ---------------------------------------------------------------- the walk

  /** None of these spans has been seen. */
  predicate Fresh(part: seq<Placed>, seen: set<Id>) {
    forall x | x in part :: x.span.id !in seen
  }

  function IdsOf(part: seq<Placed>): set<Id> {
    set i | 0 <= i < |part| :: part[i].span.id
  }

  lemma IdsOfConcat(a: seq<Placed>, b: seq<Placed>)
    ensures IdsOf(a + b) == IdsOf(a) + IdsOf(b)
  {
    var all := a + b;
    forall id | id in IdsOf(a) + IdsOf(b) ensures id in IdsOf(all) {
      if id in IdsOf(a) {
        var i :| 0 <= i < |a| && a[i].span.id == id;
        assert all[i].span.id == id;
      } else {
        var i :| 0 <= i < |b| && b[i].span.id == id;
        assert all[|a| + i].span.id == id;
      }
    }
  }

  lemma OneFewerLeft(ids: set<Id>, seen: set<Id>, x: Id)
    requires x in ids && x !in seen
    ensures |ids - (seen + {x})| < |ids - seen|
  {
    SubsetAtMost(ids - (seen + {x}), (ids - seen) - {x});
  }

  lemma NoMoreLeft(ids: set<Id>, seen: set<Id>, more: set<Id>)
    requires seen <= more
    ensures |ids - more| <= |ids - seen|
  {
    SubsetAtMost(ids - more, ids - seen);
  }

  ghost predicate AllSeen(list: seq<Span>, seen: set<Id>) {
    forall k | k in list :: k.id in seen
  }

  ghost predicate KidsSeen(children: Children, id: Id, seen: set<Id>) {
    AllSeen(KidsOf(children, id), seen)
  }

  /** The children of every span in `done` have been seen. */
  ghost predicate Expanded(children: Children, done: set<Id>, seen: set<Id>) {
    forall id | id in done :: KidsSeen(children, id, seen)
  }

  /** A walk that had seen `before` has now seen `after`, all of it in `ids`, and left
      none of the new spans unexpanded. */
  ghost predicate Walked(children: Children, ids: set<Id>, before: set<Id>, after: set<Id>) {
    before <= after <= ids && Expanded(children, after - before, after)
  }

  lemma WalkedFurther(children: Children, ids: set<Id>, before: set<Id>, between: set<Id>, after: set<Id>)
    requires Walked(children, ids, before, between) && Walked(children, ids, between, after)
    ensures Walked(children, ids, before, after)
  {
    forall id | id in after - before ensures KidsSeen(children, id, after) {
      if id in between {
        assert KidsSeen(children, id, between);
      }
    }
  }

  lemma WalkedBelow(children: Children, ids: set<Id>, before: set<Id>, id: Id, after: set<Id>)
    requires Walked(children, ids, before + {id}, after) && KidsSeen(children, id, after)
    ensures Walked(children, ids, before, after)
  {
    forall other | other in after - before ensures KidsSeen(children, other, after) {
    }
  }

  /** None seen before, and none twice. */
  predicate New(part: seq<Placed>, seen: set<Id>) {
    Fresh(part, seen) && Once(part)
  }

  lemma NewSplit(a: seq<Placed>, b: seq<Placed>, seen: set<Id>)
    requires New(a + b, seen)
    ensures New(a, seen) && New(b, seen + IdsOf(a)) && IdsOf(a + b) == IdsOf(a) + IdsOf(b)
  {
    var all := a + b;
    IdsOfConcat(a, b);
    forall i | 0 <= i < |a| ensures a[i].span.id !in seen {
      assert all[i] == a[i] && all[i] in all;
    }
    forall i, j | 0 <= i < j < |a| ensures a[i].span.id != a[j].span.id {
      assert all[i] == a[i] && all[j] == a[j];
    }
    forall j | 0 <= j < |b| ensures b[j].span.id !in seen + IdsOf(a) {
      assert all[|a| + j] == b[j] && all[|a| + j] in all;
      forall i | 0 <= i < |a| ensures a[i].span.id != b[j].span.id {
        assert all[i] == a[i];
      }
    }
    forall i, j | 0 <= i < j < |b| ensures b[i].span.id != b[j].span.id {
      assert all[|a| + i] == b[i] && all[|a| + j] == b[j];
    }
  }

  /** The shape a walk should trace out. */
  datatype Tree = Node(span: Span, depth: nat, kids: seq<Tree>)

  predicate Traces(t: Tree, children: Children, s: Span, d: nat)
    decreases t
  {
    t.span == s && t.depth == d && TracesAll(t.kids, children, KidsOf(children, s.id), d + 1)
  }

  predicate TracesAll(ts: seq<Tree>, children: Children, list: seq<Span>, d: nat)
    decreases ts
  {
    && |ts| == |list|
    && (ts == [] || (TracesAll(ts[..|ts| - 1], children, list[..|list| - 1], d) && Traces(ts[|ts| - 1], children, list[|list| - 1], d)))
  }

  function Flat(t: Tree): seq<Placed>
    decreases t
  {
    [Placed(t.span, t.depth)] + FlatAll(t.kids)
  }

  function FlatAll(ts: seq<Tree>): seq<Placed>
    decreases ts
  {
    if ts == [] then [] else FlatAll(ts[..|ts| - 1]) + Flat(ts[|ts| - 1])
  }

  /** The first trees are listed first, and each is traced. */
  lemma {:induction false} FirstTrees(ts: seq<Tree>, children: Children, list: seq<Span>, d: nat, i: nat, seen: set<Id>)
    requires TracesAll(ts, children, list, d) && i < |ts| && New(FlatAll(ts), seen)
    ensures Traces(ts[i], children, list[i], d)
    ensures FlatAll(ts[..i + 1]) == FlatAll(ts[..i]) + Flat(ts[i]) && New(FlatAll(ts[..i]) + Flat(ts[i]), seen)
    decreases |ts|
  {
    var n := |ts| - 1;
    assert ts[..i + 1][..i] == ts[..i] && ts[..i + 1][i] == ts[i];
    if i == n {
      assert ts[..i + 1] == ts;
    } else {
      NewSplit(FlatAll(ts[..n]), Flat(ts[n]), seen);
      FirstTrees(ts[..n], children, list[..n], d, i, seen);
      assert ts[..n][..i] == ts[..i];
    }
  }

  lemma Regrouped(a: seq<Placed>, b: seq<Placed>, c: seq<Placed>)
    ensures a + b + c == a + (b + c)
  {
  }

  /** The span itself, then its children's trees. */
  lemma TreeSplit(t: Tree, children: Children, s: Span, d: nat, seen: set<Id>)
    requires Traces(t, children, s, d) && New(Flat(t), seen)
    ensures s.id !in seen && Flat(t) == [Placed(s, d)] + FlatAll(t.kids)
    ensures TracesAll(t.kids, children, KidsOf(children, s.id), d + 1) && New(FlatAll(t.kids), seen + {s.id})
    ensures IdsOf(Flat(t)) == {s.id} + IdsOf(FlatAll(t.kids))
  {
    NewSplit([Placed(s, d)], FlatAll(t.kids), seen);
    assert Flat(t)[0] in Flat(t) && IdsOf([Placed(s, d)]) == {s.id};
  }

  /** The next tree, apart from those already listed. */
  lemma NextTree(ts: seq<Tree>, children: Children, list: seq<Span>, d: nat, i: nat, seen: set<Id>)
    requires TracesAll(ts, children, list, d) && i < |ts| && New(FlatAll(ts), seen)
    ensures Traces(ts[i], children, list[i], d) && New(Flat(ts[i]), seen + IdsOf(FlatAll(ts[..i])))
    ensures FlatAll(ts[..i + 1]) == FlatAll(ts[..i]) + Flat(ts[i])
    ensures IdsOf(FlatAll(ts[..i + 1])) == IdsOf(FlatAll(ts[..i])) + IdsOf(Flat(ts[i]))
  {
    FirstTrees(ts, children, list, d, i, seen);
    NewSplit(FlatAll(ts[..i]), Flat(ts[i]), seen);
  }

  /** `out` lists each id of `seen` once, and no other. */
  ghost predicate Lists(out: seq<Placed>, seen: set<Id>) {
    if out == [] then seen == {}
    else
      var n := |out| - 1;
      out[n].span.id in seen && Lists(out[..n], seen - {out[n].span.id})
  }

  lemma {:induction false} ListsEachOnce(out: seq<Placed>, seen: set<Id>)
    requires Lists(out, seen)
    ensures Once(out) && IdsOf(out) == seen
  {
    if out != [] {
      var n := |out| - 1;
      var front, last := out[..n], [out[n]];
      ListsEachOnce(front, seen - {out[n].span.id});
      assert out == front + last && IdsOf(last) == {last[0].span.id};
      IdsOfConcat(front, last);
      forall y | y in front ensures y.span.id in IdsOf(front) {
        var i :| 0 <= i < |front| && front[i] == y;
      }
      OnceConcat(front, last);
    }
  }

  class Walker {
    var out: seq<Placed>
    var seen: set<Id>

    constructor ()
      ensures out == [] && seen == {}
    {
      out, seen := [], {};
    }

    /** What was seen is what is listed, each once. */
    ghost predicate Valid()
      reads this
    {
      Lists(out, seen)
    }

    /** Mark the span as seen and list it. */
    method Enlist(s: Span, depth: nat)
      requires Valid() && s.id !in seen
      modifies this
      ensures Valid() && seen == old(seen) + {s.id} && out == old(out) + [Placed(s, depth)]
    {
      seen := seen + {s.id};
      out := out + [Placed(s, depth)];
    }

    /** List `s` and everything below it, unless it was listed before. */
    method Walk(children: Children, s: Span, depth: nat, ghost ids: set<Id>, ghost tree: Option<Tree>)
      requires Valid() && seen <= ids && s.id in ids && Expanded(children, ids, ids)
      requires tree.Some? ==> Traces(tree.value, children, s, depth) && New(Flat(tree.value), seen)
      modifies this
      ensures Valid() && Walked(children, ids, old(seen), seen) && s.id in seen
      ensures tree.Some? ==> out == old(out) + Flat(tree.value) && seen == old(seen) + IdsOf(Flat(tree.value))
      decreases |ids - seen|, 0
    {
      if tree.Some? {
        TreeSplit(tree.value, children, s, depth, seen);
      }
      if s.id in seen {
        return;
      }
      OneFewerLeft(ids, seen, s.id);
      Enlist(s, depth);
      assert KidsSeen(children, s.id, ids);
      WalkList(children, KidsOf(children, s.id), depth + 1, ids, if tree.Some? then Some(tree.value.kids) else None);
      WalkedBelow(children, ids, old(seen), s.id, seen);
      if tree.Some? {
        Regrouped(old(out), [Placed(s, depth)], FlatAll(tree.value.kids));
      }
    }

    /** Walk the next of a list of siblings.  The walk of the list began when `before`
        was listed and `start` seen. */
    method WalkNext(children: Children, list: seq<Span>, i: nat, depth: nat, ghost ids: set<Id>,
                    ghost trees: Option<seq<Tree>>, ghost before: seq<Placed>, ghost start: set<Id>)
      requires Valid() && i < |list| && AllSeen(list, ids) && Expanded(children, ids, ids)
      requires Walked(children, ids, start, seen) && AllSeen(list[..i], seen)
      requires trees.Some? ==> TracesAll(trees.value, children, list, depth) && New(FlatAll(trees.value), start)
      requires trees.Some? ==> Progress(before, out, start, seen, trees.value, i)
      modifies this
      ensures Valid() && Walked(children, ids, start, seen) && AllSeen(list[..i + 1], seen)
      ensures trees.Some? ==> Progress(before, out, start, seen, trees.value, i + 1)
      decreases |ids - seen|, 1
    {
      if trees.Some? {
        NextTree(trees.value, children, list, depth, i, start);
      }
      assert list[i] in list;
      Walk(children, list[i], depth, ids, if trees.Some? then Some(trees.value[i]) else None);
      WalkedFurther(children, ids, start, old(seen), seen);
      if trees.Some? {
        Regrouped(before, FlatAll(trees.value[..i]), Flat(trees.value[i]));
      }
    }

    /** Walk a list of siblings in order. */
    method WalkList(children: Children, list: seq<Span>, depth: nat, ghost ids: set<Id>, ghost trees: Option<seq<Tree>>)
      requires Valid() && seen <= ids && AllSeen(list, ids) && Expanded(children, ids, ids)
      requires trees.Some? ==> TracesAll(trees.value, children, list, depth) && New(FlatAll(trees.value), seen)
      modifies this
      ensures Valid() && Walked(children, ids, old(seen), seen) && AllSeen(list, seen)
      ensures trees.Some? ==> out == old(out) + FlatAll(trees.value) && seen == old(seen) + IdsOf(FlatAll(trees.value))
      decreases |ids - seen|, 2
    {
      for i := 0 to |list|
        invariant Valid() && Walked(children, ids, old(seen), seen) && AllSeen(list[..i], seen)
        invariant trees.Some? ==> Progress(old(out), out, old(seen), seen, trees.value, i)
      {
        NoMoreLeft(ids, old(seen), seen);
        WalkNext(children, list, i, depth, ids, trees, old(out), old(seen));
      }
      assert list[..|list|] == list;
      if trees.Some? {
        assert trees.value[..|list|] == trees.value;
      }
    }
  }

  /** The first `i` trees are listed. */
  predicate Progress(before: seq<Placed>, out: seq<Placed>, start: set<Id>, seen: set<Id>, trees: seq<Tree>, i: nat) {
    i <= |trees| && out == before + FlatAll(trees[..i]) && seen == start + IdsOf(FlatAll(trees[..i]))
  }

  /** The tree below a span of the forest. */
  ghost function TreeOf(spans: seq<Span>, roots: seq<Span>, children: Children, s: Span, d: nat): Tree
    requires Forest(spans, roots, children) && AtDepth(spans, s, d)
    decreases |spans| - d, 0
  {
    DepthBound(spans, s, d);
    KidsAreDeeper(spans, roots, children, s, d);
    Node(s, d, TreesOf(spans, roots, children, KidsOf(children, s.id), d + 1))
  }

  ghost function TreesOf(spans: seq<Span>, roots: seq<Span>, children: Children, list: seq<Span>, d: nat): (ts: seq<Tree>)
    requires Forest(spans, roots, children) && forall k | k in list :: AtDepth(spans, k, d)
    ensures |ts| == |list|
    decreases |spans| - d, 1, |list|
  {
    if list == [] then []
    else
      var n := |list| - 1;
      assert forall k | k in list[..n] :: k in list;
      assert list[n] in list;
      TreesOf(spans, roots, children, list[..n], d) + [TreeOf(spans, roots, children, list[n], d)]
  }

  lemma {:induction false} TreeIsTraced(spans: seq<Span>, roots: seq<Span>, children: Children, s: Span, d: nat)
    requires Forest(spans, roots, children) && AtDepth(spans, s, d)
    ensures var t := TreeOf(spans, roots, children, s, d);
      Traces(t, children, s, d) && Flat(t) == PreOrder(spans, roots, children, s, d)
    decreases |spans| - d, 0
  {
    DepthBound(spans, s, d);
    KidsAreDeeper(spans, roots, children, s, d);
    TreesAreTraced(spans, roots, children, KidsOf(children, s.id), d + 1);
  }

  lemma {:induction false} TreesAreTraced(spans: seq<Span>, roots: seq<Span>, children: Children, list: seq<Span>, d: nat)
    requires Forest(spans, roots, children) && forall k | k in list :: AtDepth(spans, k, d)
    ensures var ts := TreesOf(spans, roots, children, list, d);
      TracesAll(ts, children, list, d) && FlatAll(ts) == PreOrders(spans, roots, children, list, d)
    decreases |spans| - d, 1, |list|
  {
    if list != [] {
      var n := |list| - 1;
      assert forall k | k in list[..n] :: k in list;
      assert list[n] in list;
      TreesAreTraced(spans, roots, children, list[..n], d);
      TreeIsTraced(spans, roots, children, list[n], d);
      var ts := TreesOf(spans, roots, children, list, d);
      assert ts[..n] == TreesOf(spans, roots, children, list[..n], d);
    }
  }

  /** Span `s` has the id and starts a chain to a root of `d` steps. */
  ghost predicate Chained(spans: seq<Span>, s: Span, d: nat)
    decreases d, 0
  {
    && s in spans
    && if d == 0 then IsRoot(spans, s) else !IsRoot(spans, s) && Leads(spans, s.parent.value, d - 1)
  }

  /** Some chain of spans leads from `id` to a root in `d` steps.  Where spans share
      an id, any of them may be taken. */
  ghost predicate Leads(spans: seq<Span>, id: Id, d: nat)
    decreases d, 1
  {
    exists s :: Chained(spans, s, d) && s.id == id
  }

  ghost predicate LeadsToRoot(spans: seq<Span>, id: Id) {
    exists d: nat :: Leads(spans, id, d)
  }

  /** The ids from which a root can be reached. */
  ghost function Rooted(spans: seq<Span>): set<Id> {
    set id | id in Ids(spans) && LeadsToRoot(spans, id)
  }

  lemma ChildLeads(spans: seq<Span>, s: Span)
    requires s in spans && (IsRoot(spans, s) || LeadsToRoot(spans, s.parent.value))
    ensures s.id in Rooted(spans)
  {
    if IsRoot(spans, s) {
      assert Chained(spans, s, 0) && Leads(spans, s.id, 0);
    } else {
      var d: nat :| Leads(spans, s.parent.value, d);
      assert Chained(spans, s, d + 1) && Leads(spans, s.id, d + 1);
    }
  }

  lemma AllWithin(spans: seq<Span>, roots: seq<Span>, children: Children)
    requires Grouped(spans, roots, children)
    ensures Expanded(children, Rooted(spans), Rooted(spans)) && AllSeen(roots, Rooted(spans))
  {
    forall k | k in roots ensures k.id in Rooted(spans) {
      assert k in multiset(roots);
      SelectedHolds(spans, |spans|, None, k);
      ChildLeads(spans, k);
    }
    forall id | id in Rooted(spans) ensures KidsSeen(children, id, Rooted(spans)) {
      forall k | k in KidsOf(children, id) ensures k.id in Rooted(spans) {
        assert k in multiset(KidsOf(children, id));
        SelectedHolds(spans, |spans|, Some(id), k);
        ChildLeads(spans, k);
      }
    }
  }

  lemma NextIsSeen(spans: seq<Span>, roots: seq<Span>, children: Children, seen: set<Id>, s: Span)
    requires Grouped(spans, roots, children) && AllSeen(roots, seen) && Expanded(children, seen, seen)
    requires s in spans && (IsRoot(spans, s) || s.parent.value in seen)
    ensures s.id in seen
  {
    SelectedHolds(spans, |spans|, Place(spans, s), s);
    if IsRoot(spans, s) {
      assert s in multiset(roots);
    } else {
      var parent := s.parent.value;
      assert s in multiset(KidsOf(children, parent)) && KidsSeen(children, parent, seen);
    }
  }

  lemma {:induction false} RootedIsSeen(spans: seq<Span>, roots: seq<Span>, children: Children, seen: set<Id>, id: Id, d: nat)
    requires Grouped(spans, roots, children) && AllSeen(roots, seen) && Expanded(children, seen, seen)
    requires Leads(spans, id, d)
    ensures id in seen
    decreases d
  {
    var s :| Chained(spans, s, d) && s.id == id;
    if d > 0 {
      RootedIsSeen(spans, roots, children, seen, s.parent.value, d - 1);
    }
    NextIsSeen(spans, roots, children, seen, s);
  }

  /** Roots and children as the sort leaves them. */
  ghost predicate Grouped(spans: seq<Span>, roots: seq<Span>, children: Children) {
    && multiset(roots) == multiset(Selected(spans, |spans|, None))
    && forall id :: multiset(KidsOf(children, id)) == multiset(Selected(spans, |spans|, Some(id)))
  }

  /** The whole assembly.  It ends on every input, repeated ids and cycles of parents
      included, and lists each id that leads to a root once, and no other.  With unique
      ids the result is the pre-order listing of the forest. */
  method BuildSpanTree(spans: seq<Span>) returns (out: seq<Placed>, ghost roots: seq<Span>, ghost children: Children)
    ensures Once(out) && forall id :: id in IdsOf(out) <==> LeadsToRoot(spans, id)
    ensures UniqueIds(spans) ==> Forest(spans, roots, children) && out == Listing(spans, roots, children)
  {
    var top, grouped := GroupSpans(spans);
    top := SortSpans(top);
    var kids := SortChildren(grouped);
    roots, children := top, kids;
    ghost var trees: Option<seq<Tree>> := None;
    if UniqueIds(spans) {
      GroupedIsForest(spans, top, kids);
      TreesAreTraced(spans, top, kids, top, 0);
      ListedOnce(spans, top, kids);
      trees := Some(TreesOf(spans, top, kids, top, 0));
    }
    AllWithin(spans, top, kids);
    var walker := new Walker();
    walker.WalkList(kids, top, 0, Rooted(spans), trees);
    out := walker.out;
    ListsEachOnce(out, walker.seen);
    SeenExactly(spans, top, kids, walker.seen);
  }

  lemma SeenExactly(spans: seq<Span>, roots: seq<Span>, children: Children, seen: set<Id>)
    requires Grouped(spans, roots, children) && seen <= Rooted(spans)
    requires AllSeen(roots, seen) && Expanded(children, seen, seen)
    ensures forall id :: id in seen <==> LeadsToRoot(spans, id)
  {
    forall id | LeadsToRoot(spans, id) ensures id in seen {
      var d: nat :| Leads(spans, id, d);
      RootedIsSeen(spans, roots, children, seen, id, d);
    }
  }
}
