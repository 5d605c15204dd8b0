/** Sorted trees: what `add234` and `del234` keep over any run, and how deep a tree can get. */
module CountedOrder {
  import opened CountedShape
  import opened CountedTree
  import opened CountedEnd
  import opened CountedSearch
  import opened CountedBalance
  import opened CountedDelete
  import Sequences

  /** `cmp` is a strict weak order, as a comparison function with three outcomes. */
  ghost predicate Orders(cmp: Cmp) {
    && (forall a, b {:trigger cmp(a, b)} :: cmp(a, b) < 0 <==> cmp(b, a) > 0)
    && (forall a, b, c {:trigger cmp(a, b), cmp(b, c)} :: cmp(a, b) < 0 && cmp(b, c) < 0 ==> cmp(a, c) < 0)
    && (forall a, b, c {:trigger cmp(a, b), cmp(b, c)} :: cmp(a, b) == 0 && cmp(b, c) < 0 ==> cmp(a, c) < 0)
    && (forall a, b, c {:trigger cmp(a, b), cmp(b, c)} :: cmp(a, b) < 0 && cmp(b, c) == 0 ==> cmp(a, c) < 0)
  }

  ghost predicate Sorted(cmp: Cmp, s: seq<Ptr>) {
    forall i, j | 0 <= i < j < |s| :: cmp(s[i], s[j]) < 0
  }

  lemma SortedIsMonotone(cmp: Cmp, e: Ptr, s: seq<Ptr>)
    requires Orders(cmp) && Sorted(cmp, s)
    ensures Monotone(cmp, e, s)
    ensures forall i, j | 0 <= i < |s| && 0 <= j < |s| && cmp(e, s[i]) == 0 && cmp(e, s[j]) == 0 :: i == j
  {
  }

  /** `Rank` splits a monotone sequence into smaller elements and the others. */
  lemma {:induction false} RankMeans(cmp: Cmp, e: Ptr, s: seq<Ptr>)
    requires Monotone(cmp, e, s)
    ensures Rank(cmp, e, s) <= |s|
    ensures forall j | 0 <= j < |s| :: cmp(e, s[j]) > 0 <==> j < Rank(cmp, e, s)
  {
    if s != [] && cmp(e, s[0]) > 0 {
      var u := s[1..];
      assert forall j | 0 <= j < |u| :: u[j] == s[j + 1];
      RankMeans(cmp, e, u);
      forall j | 0 <= j < |s|
        ensures cmp(e, s[j]) > 0 <==> j < Rank(cmp, e, s)
      {
        assert j > 0 ==> s[j] == u[j - 1];
      }
    }
  }

  /** The place of the element equal to `e`, if there is one, is its rank. */
  lemma EqualAtRank(cmp: Cmp, e: Ptr, s: seq<Ptr>, i: nat)
    requires Orders(cmp) && Sorted(cmp, s) && i < |s| && cmp(e, s[i]) == 0
    ensures i == Rank(cmp, e, s)
  {
    SortedIsMonotone(cmp, e, s);
    hide Orders, Sorted;
    RankMeans(cmp, e, s);
    if i > 0 {
      assert cmp(e, s[i - 1]) != 0;
      assert cmp(e, s[i - 1]) > 0;
    }
  }

  lemma Flip(cmp: Cmp, a: Ptr, b: Ptr)
    requires Orders(cmp)
    ensures cmp(a, b) < 0 <==> cmp(b, a) > 0
  {
  }

  // ---------- the sorted set that a run builds ----------

  ghost predicate Has(cmp: Cmp, e: Ptr, s: seq<Ptr>) {
    exists x :: x in s && cmp(e, x) == 0
  }

  ghost function Inserted(cmp: Cmp, s: seq<Ptr>, e: Ptr): seq<Ptr> {
    var i := Rank(cmp, e, s);
    if Has(cmp, e, s) || i > |s| then s else s[..i] + [e] + s[i..]
  }

  ghost function Deleted(cmp: Cmp, s: seq<Ptr>, e: Ptr): seq<Ptr> {
    var i := Rank(cmp, e, s);
    if Has(cmp, e, s) && i < |s| then Removed(s, i) else s
  }

  lemma InsertedSorted(cmp: Cmp, s: seq<Ptr>, e: Ptr)
    requires Orders(cmp) && Sorted(cmp, s)
    ensures Sorted(cmp, Inserted(cmp, s, e))
    ensures forall x :: x in Inserted(cmp, s, e) <==> x in s || (x == e && !Has(cmp, e, s))
  {
    SortedIsMonotone(cmp, e, s);
    RankMeans(cmp, e, s);
    var i := Rank(cmp, e, s);
    if !Has(cmp, e, s) {
      RankSplits(cmp, s, e);
      hide Orders, Monotone, Has, Rank;
      SortedAround(cmp, s, e, i);
      assert s == s[..i] + s[i..];
    }
  }

  lemma RankSplits(cmp: Cmp, s: seq<Ptr>, e: Ptr)
    requires Orders(cmp) && Sorted(cmp, s) && !Has(cmp, e, s)
    ensures var i := Rank(cmp, e, s);
            && 0 <= i <= |s|
            && forall j | 0 <= j < |s| :: if j < i then cmp(s[j], e) < 0 else cmp(e, s[j]) < 0
  {
    SortedIsMonotone(cmp, e, s);
    RankMeans(cmp, e, s);
    forall j | 0 <= j < |s|
      ensures if j < Rank(cmp, e, s) then cmp(s[j], e) < 0 else cmp(e, s[j]) < 0
    {
      Flip(cmp, s[j], e);
      assert s[j] in s;
    }
  }

  lemma SortedAround(cmp: Cmp, s: seq<Ptr>, e: Ptr, i: nat)
    requires Sorted(cmp, s) && i <= |s|
    requires forall j | 0 <= j < |s| :: if j < i then cmp(s[j], e) < 0 else cmp(e, s[j]) < 0
    ensures Sorted(cmp, s[..i] + [e] + s[i..])
  {
    var u := s[..i] + [e] + s[i..];
    forall j, k | 0 <= j < k < |u|
      ensures cmp(u[j], u[k]) < 0
    {
      assert u[j] == if j < i then s[j] else if j == i then e else s[j - 1];
      assert u[k] == if k < i then s[k] else if k == i then e else s[k - 1];
    }
  }

  lemma SortedWithout(cmp: Cmp, s: seq<Ptr>, i: nat)
    requires Sorted(cmp, s) && i < |s|
    ensures Sorted(cmp, Removed(s, i))
  {
    var u := Removed(s, i);
    forall j, k | 0 <= j < k < |u|
      ensures cmp(u[j], u[k]) < 0
    {
      assert u[j] == if j < i then s[j] else s[j + 1];
      assert u[k] == if k < i then s[k] else s[k + 1];
    }
  }

  lemma DeletedSorted(cmp: Cmp, s: seq<Ptr>, e: Ptr)
    requires Orders(cmp) && Sorted(cmp, s)
    ensures Sorted(cmp, Deleted(cmp, s, e))
    ensures forall x :: x in Deleted(cmp, s, e) <==> x in s && cmp(e, x) != 0
  {
    SortedIsMonotone(cmp, e, s);
    var i := Rank(cmp, e, s);
    if Has(cmp, e, s) {
      var x :| x in s && cmp(e, x) == 0;
      var j :| 0 <= j < |s| && s[j] == x;
      EqualAtRank(cmp, e, s, j);
      SortedWithout(cmp, s, i);
      assert forall k | 0 <= k < |s| && k != i :: cmp(e, s[k]) != 0;
      RemovedMembers(cmp, e, s, i);
    }
  }

  lemma RemovedMembers(cmp: Cmp, e: Ptr, s: seq<Ptr>, i: nat)
    requires i < |s| && cmp(e, s[i]) == 0
    requires forall k | 0 <= k < |s| && k != i :: cmp(e, s[k]) != 0
    ensures forall x :: x in Removed(s, i) <==> x in s && cmp(e, x) != 0
  {
    assert s == s[..i] + [s[i]] + s[i + 1..];
    forall x
      ensures x in Removed(s, i) <==> x in s && cmp(e, x) != 0
    {
      if x in s[..i] {
        var k :| 0 <= k < i && s[..i][k] == x;
        assert s[k] == x;
      }
      if x in s[i + 1..] {
        var k :| 0 <= k < |s| - i - 1 && s[i + 1..][k] == x;
        assert s[i + 1 + k] == x;
      }
    }
  }

  datatype Op = AddOp(e: Ptr) | DelOp(e: Ptr)

  ghost function ApplyOne(cmp: Cmp, s: seq<Ptr>, op: Op): seq<Ptr> {
    match op
    case AddOp(e) => Inserted(cmp, s, e)
    case DelOp(e) => Deleted(cmp, s, e)
  }

  ghost function Apply(cmp: Cmp, s: seq<Ptr>, ops: seq<Op>): seq<Ptr> {
    if ops == [] then s
    else
      ApplyOne(cmp, Apply(cmp, s, ops[..|ops| - 1]), ops[|ops| - 1])
  }

  lemma {:induction false} ApplySorted(cmp: Cmp, s: seq<Ptr>, ops: seq<Op>)
    requires Orders(cmp) && Sorted(cmp, s)
    ensures Sorted(cmp, Apply(cmp, s, ops))
  {
    if ops != [] {
      var before := ops[..|ops| - 1];
      ApplySorted(cmp, s, before);
      match ops[|ops| - 1]
      case AddOp(e) => InsertedSorted(cmp, Apply(cmp, s, before), e);
      case DelOp(e) => DeletedSorted(cmp, Apply(cmp, s, before), e);
    }
  }

  /** Any run of `add234` and `del234` on a sorted tree leaves it sorted, with exactly the
      elements that the run prescribes. */
  method Run(tr: Tree234, ops: seq<Op>)
    requires tr.Valid() && tr.cmp.Some? && Orders(tr.cmp.value) && Sorted(tr.cmp.value, tr.Contents())
    requires forall op | op in ops :: op.e != NULL
    modifies tr, tr.linked
    ensures tr.Valid() && Sorted(tr.cmp.value, tr.Contents())
    ensures tr.Contents() == Apply(tr.cmp.value, old(tr.Contents()), ops)
  {
    ghost var cmp, s := tr.cmp.value, tr.Contents();
    for i := 0 to |ops|
      invariant tr.Valid() && fresh(tr.linked - old(tr.linked))
      invariant tr.Contents() == Apply(cmp, s, ops[..i])
    {
      ApplySorted(cmp, s, ops[..i]);
      assert ops[..i + 1][..i] == ops[..i];
      assert ops[i] in ops;
      hide Orders, Sorted, Apply;
      Step(tr, ops[i]);
      ApplySnoc(cmp, s, ops, i);
    }
    assert ops[..|ops|] == ops;
    ApplySorted(cmp, s, ops);
  }

  lemma ApplySnoc(cmp: Cmp, s: seq<Ptr>, ops: seq<Op>, i: nat)
    requires i < |ops|
    ensures Apply(cmp, s, ops[..i + 1]) == ApplyOne(cmp, Apply(cmp, s, ops[..i]), ops[i])
  {
    assert ops[..i + 1][..i] == ops[..i];
  }

  method Step(tr: Tree234, op: Op)
    requires tr.Valid() && tr.cmp.Some? && Orders(tr.cmp.value) && Sorted(tr.cmp.value, tr.Contents()) && op.e != NULL
    modifies tr, tr.linked
    ensures tr.Valid() && fresh(tr.linked - old(tr.linked))
    ensures tr.Contents() == ApplyOne(tr.cmp.value, old(tr.Contents()), op)
  {
    ghost var s := tr.Contents();
    SortedIsMonotone(tr.cmp.value, op.e, s);
    hide *;
    match op {
      case AddOp(e) =>
        var r := tr.Add(e);
        AddedIs(tr.cmp.value, e, s, tr.Contents(), r);
      case DelOp(e) =>
        var r := DelSorted(tr, e);
        DeletedIs(tr.cmp.value, e, s);
    }
  }

  lemma AddedIs(cmp: Cmp, e: Ptr, s: seq<Ptr>, s': seq<Ptr>, r: Ptr)
    requires Orders(cmp) && Sorted(cmp, s) && SortedInsert(cmp, e, s, s', r)
    ensures s' == ApplyOne(cmp, s, AddOp(e))
  {
    SortedIsMonotone(cmp, e, s);
    hide Orders, Sorted, Monotone;
  }

  lemma DeletedIs(cmp: Cmp, e: Ptr, s: seq<Ptr>)
    ensures Deleted(cmp, s, e) == ApplyOne(cmp, s, DelOp(e))
  {
  }

  /** `del234` on a sorted tree. */
  method DelSorted(tr: Tree234, e: Ptr) returns (r: Ptr)
    requires tr.Valid() && tr.cmp.Some? && Orders(tr.cmp.value) && Sorted(tr.cmp.value, tr.Contents()) && e != NULL
    modifies tr, tr.linked
    ensures tr.Valid() && tr.linked <= old(tr.linked)
    ensures tr.Contents() == Deleted(tr.cmp.value, old(tr.Contents()), e)
    ensures r == if Has(tr.cmp.value, e, old(tr.Contents()))
              && Rank(tr.cmp.value, e, old(tr.Contents())) < |old(tr.Contents())|
                 then old(tr.Contents())[Rank(tr.cmp.value, e, old(tr.Contents()))] else NULL
  {
    ghost var cmp, u := tr.cmp.value, tr.Contents();
    SortedIsMonotone(cmp, e, u);
    HasRank(cmp, e, u);
    hide Orders, Sorted, Monotone;
    r := Del(tr, e);
    if Has(cmp, e, u) {
      ghost var j :| 0 <= j < |u| && r == u[j] && cmp(e, r) == 0 && tr.Contents() == Removed(u, j);
      EqualAtRank(cmp, e, u, j);
    }
  }

  lemma HasRank(cmp: Cmp, e: Ptr, s: seq<Ptr>)
    requires Orders(cmp) && Sorted(cmp, s)
    ensures Has(cmp, e, s) ==> Rank(cmp, e, s) < |s| && cmp(e, s[Rank(cmp, e, s)]) == 0
  {
    if Has(cmp, e, s) {
      var x :| x in s && cmp(e, x) == 0;
      var j :| 0 <= j < |s| && s[j] == x;
      EqualAtRank(cmp, e, s, j);
    }
  }

  // ---------- the relations ----------

  /** In a sorted sequence an answer is the nearest element in the relation. */
  lemma AnswersMean(cmp: Cmp, e: Ptr, rel: Relation, s: seq<Ptr>, i: int)
    requires Orders(cmp) && Sorted(cmp, s) && e != NULL && Answers(cmp, e, rel, s, i)
    ensures match rel
            case EQ => cmp(s[i], e) == 0
            case LT => cmp(s[i], e) < 0 && (i + 1 < |s| ==> cmp(s[i + 1], e) >= 0)
            case LE => cmp(s[i], e) <= 0 && (i + 1 < |s| ==> cmp(s[i + 1], e) > 0)
            case GT => cmp(s[i], e) > 0 && (i > 0 ==> cmp(s[i - 1], e) <= 0)
            case GE => cmp(s[i], e) >= 0 && (i > 0 ==> cmp(s[i - 1], e) < 0)
  {
    Sides(cmp, e, s[i]);
    if i + 1 < |s| {
      Sides(cmp, e, s[i + 1]);
      assert cmp(s[i], s[i + 1]) < 0;
    }
    if i > 0 {
      Sides(cmp, e, s[i - 1]);
      assert cmp(s[i - 1], s[i]) < 0;
    }
  }

  /** The comparison functions are asked with the query first. */
  lemma Sides(cmp: Cmp, e: Ptr, x: Ptr)
    requires Orders(cmp)
    ensures cmp(x, e) < 0 <==> cmp(e, x) > 0
    ensures cmp(x, e) == 0 <==> cmp(e, x) == 0
  {
  }

  /** Without a query LT asks for the last element and GT for the first. */
  lemma AnswersAtEnds(cmp: Cmp, rel: Relation, s: seq<Ptr>, i: int)
    requires !rel.EqualPermitted() && Answers(cmp, NULL, rel, s, i)
    ensures i == if rel.LT? then |s| - 1 else 0
  {
    if rel.LT? {
      assert i + 1 < |s| ==> rel.Accepts(Compare(cmp, NULL, rel, s[i + 1]));
    } else {
      assert i > 0 ==> rel.Accepts(Compare(cmp, NULL, rel, s[i - 1]));
    }
  }

  // ---------- height ----------

  /** A tree of height `h` has between 2^h - 1 and 4^h - 1 elements. */
  lemma {:induction false} SizeBounds(t: Tree, h: nat)
    requires Sound(t, h)
    ensures Sequences.Pow(2, h) <= |Flat(t)| + 1 <= Sequences.Pow(4, h)
    decreases h, 0
  {
    if t.Fork? {
      ListBounds(t.kids, t.elems, h - 1);
      assert Sequences.Pow(2, h) == 2 * Sequences.Pow(2, h - 1) && Sequences.Pow(4, h) == 4 * Sequences.Pow(4, h - 1);
      ScaleBounds(|t.kids|, Sequences.Pow(2, h - 1), Sequences.Pow(4, h - 1));
    }
  }

  lemma ScaleBounds(n: nat, lo: nat, hi: nat)
    requires 2 <= n <= 4
    ensures 2 * lo <= n * lo && n * hi <= 4 * hi
  {
  }

  lemma OneMore(n: int, k: int)
    ensures n * k == k + (n - 1) * k
  {
  }

  lemma {:induction false} ListBounds(ts: seq<Tree>, es: seq<Ptr>, h: nat)
    requires AllSound(ts, h) && |ts| == |es| + 1
    ensures |ts| * Sequences.Pow(2, h) <= |Weave(ts, es)| + 1 <= |ts| * Sequences.Pow(4, h)
    decreases h, 1 + |ts|
  {
    SizeBounds(ts[0], h);
    if es != [] {
      ListBounds(ts[1..], es[1..], h);
      assert |Weave(ts, es)| == |Flat(ts[0])| + 1 + |Weave(ts[1..], es[1..])|;
      OneMore(|ts|, Sequences.Pow(2, h));
      OneMore(|ts|, Sequences.Pow(4, h));
    }
  }

  /** `addpos234` at the end. */
  method Append(t: Tree234, e: Ptr, count: nat)
    requires t.Valid() && t.cmp == None && e != NULL && count == |t.Contents()|
    modifies t, t.linked
    ensures t.Valid() && fresh(t.linked - old(t.linked)) && t.Contents() == old(t.Contents()) + [e]
  {
    ghost var s := t.Contents();
    EndInRange(t);
    var _ := t.AddPos(e, count);
    assert s[..count] == s && s[count..] == [];
  }

  /** The place behind the last element is in range. */
  lemma EndInRange(t: Tree234)
    requires t.Valid()
    ensures AimOf(t.shape, |t.Contents()|) == InRange && (t.shape.Leaf? ==> t.Contents() == [])
  {
  }

  lemma NullIs()
    ensures NULL == 0
  {
  }

  method FourIn() returns (t: Tree234)
    ensures fresh(t) && fresh(t.linked) && t.cmp == None && t.Valid() && t.Contents() == [1, 2, 3, 4]
  {
    hide *;
    NullIs();
    t := new Tree234(None);
    Append(t, 1, 0);
    Append(t, 2, 1);
    Append(t, 3, 2);
    Append(t, 4, 3);
  }

  /** Four elements, and one more put at index 5 instead of 4: it goes into the root, which loses its
      last subtree and with it the fourth element. */
  method LoseElement() returns (t: Tree234, r: Ptr)
    ensures fresh(t) && r == 5 && t.Focus(Top, t.shape) && !t.Valid()
    ensures 5 in t.Contents() && 4 !in t.Contents() && |t.Contents()| <= 4
  {
    hide *;
    NullIs();
    t := FourIn();
    ghost var u := t.shape;
    FourMiss(t);
    r := t.AddPos(5, 5);
    FourthLost(u, t.shape, t.Valid(), r);
    SameContents(t);
  }

  lemma FourMiss(t: Tree234)
    requires t.Valid() && |t.Contents()| == 4
    ensures AimOf(t.shape, 5) == Misses && Flat(t.shape) == t.Contents()
  {
    FourElements(t.shape, t.height, 5);
  }

  lemma FourthLost(t: Tree, t': Tree, valid: bool, r: Ptr)
    requires Added(t, 5, 5, valid, t', r) && AimOf(t, 5) == Misses && Flat(t) == [1, 2, 3, 4]
    ensures r == 5 && !valid && 5 in Flat(t') && 4 !in Flat(t') && |Flat(t')| <= 4
  {
  }

  lemma SameContents(t: Tree234)
    ensures t.Contents() == Flat(t.shape)
  {
  }
}
