/** What deletion does to two neighbouring subtrees with an element between them: moving one
    subtree over, or merging the two, keeps the elements, the nodes and the shape. */
module CountedBalance {
  import opened CountedShape
  import Sequences

  ghost function DropLast(x: Tree): Tree
    requires x.Fork? && |x.kids| == |x.elems| + 1 && |x.elems| > 0
  {
    Fork(x.node, x.kids[..|x.elems|], x.elems[..|x.elems| - 1])
  }

  ghost function LastKid(x: Tree): Tree
    requires x.Fork? && |x.kids| == |x.elems| + 1
  {
    x.kids[|x.elems|]
  }

  ghost function DropFirst(y: Tree): Tree
    requires y.Fork? && |y.kids| == |y.elems| + 1 && |y.elems| > 0
  {
    Fork(y.node, y.kids[1..], y.elems[1..])
  }

  ghost function WithFront(y: Tree, g: Tree, e: Ptr): Tree
    requires y.Fork?
  {
    Fork(y.node, [g] + y.kids, [e] + y.elems)
  }

  ghost function WithBack(x: Tree, e: Ptr, g: Tree): Tree
    requires x.Fork?
  {
    Fork(x.node, x.kids + [g], x.elems + [e])
  }

  ghost function Merged(n: Node, x: Tree, e: Ptr, y: Tree): Tree
    requires x.Fork? && y.Fork?
  {
    Fork(n, x.kids + y.kids, x.elems + [e] + y.elems)
  }

  // ---------- elements ----------

  lemma FlatDropLast(x: Tree)
    requires x.Fork? && |x.kids| == |x.elems| + 1 && |x.elems| > 0
    ensures Flat(x) == Flat(DropLast(x)) + [x.elems[|x.elems| - 1]] + Flat(LastKid(x))
  {
    var k := |x.elems| - 1;
    WeaveSplit(x.kids, x.elems, k);
    assert x.kids[k + 1..] == [LastKid(x)] && x.elems[k + 1..] == [];
  }

  lemma FlatWithFront(y: Tree, g: Tree, e: Ptr)
    requires y.Fork? && y.kids != []
    ensures Flat(WithFront(y, g, e)) == Flat(g) + [e] + Flat(y)
  {
    assert ([g] + y.kids)[1..] == y.kids && ([e] + y.elems)[1..] == y.elems;
  }

  lemma FlatMerged(n: Node, x: Tree, e: Ptr, y: Tree)
    requires x.Fork? && y.Fork? && |x.kids| == |x.elems| + 1 && |y.kids| == |y.elems| + 1
    ensures Flat(Merged(n, x, e, y)) == Flat(x) + [e] + Flat(y)
  {
    var t, k := Merged(n, x, e, y), |x.elems|;
    WeaveSplit(t.kids, t.elems, k);
    assert t.kids[..k + 1] == x.kids && t.kids[k + 1..] == y.kids;
    assert t.elems[..k] == x.elems && t.elems[k + 1..] == y.elems;
  }

  lemma FlatWithBack(x: Tree, e: Ptr, g: Tree)
    requires x.Fork? && |x.kids| == |x.elems| + 1
    ensures Flat(WithBack(x, e, g)) == Flat(x) + [e] + Flat(g)
  {
    var t := WithBack(x, e, g);
    FlatDropLast(t);
    assert DropLast(t) == x.(kids := t.kids[..|t.elems|], elems := t.elems[..|t.elems| - 1]);
    assert t.kids[..|t.elems|] == x.kids && t.elems[..|t.elems| - 1] == x.elems;
  }

  lemma ShiftRightOrder(x: Tree, e: Ptr, y: Tree)
    requires x.Fork? && y.Fork? && |x.kids| == |x.elems| + 1 && |x.elems| > 0 && y.kids != []
    ensures Flat(DropLast(x)) + [x.elems[|x.elems| - 1]] + Flat(WithFront(y, LastKid(x), e)) == Flat(x) + [e] + Flat(y)
  {
    FlatDropLast(x);
    FlatWithFront(y, LastKid(x), e);
    Sequences.Five(Flat(DropLast(x)), [x.elems[|x.elems| - 1]], Flat(LastKid(x)), [e], Flat(y));
  }

  lemma ShiftLeftOrder(x: Tree, e: Ptr, y: Tree)
    requires x.Fork? && y.Fork? && |y.kids| == |y.elems| + 1 && |y.elems| > 0 && |x.kids| == |x.elems| + 1
    ensures Flat(WithBack(x, e, y.kids[0])) + [y.elems[0]] + Flat(DropFirst(y)) == Flat(x) + [e] + Flat(y)
  {
    FlatWithBack(x, e, y.kids[0]);
    Sequences.Five(Flat(x), [e], Flat(y.kids[0]), [y.elems[0]], Flat(DropFirst(y)));
    assert Flat(y) == Flat(y.kids[0]) + [y.elems[0]] + Flat(DropFirst(y));
  }

  // ---------- nodes ----------

  lemma ShiftRightNodes(x: Tree, e: Ptr, y: Tree)
    requires x.Fork? && y.Fork? && |x.kids| == |x.elems| + 1 && |x.elems| > 0
    requires Distinct(x) && Distinct(y) && Nodes(x) !! Nodes(y)
    ensures var x', g, y' := DropLast(x), LastKid(x), WithFront(y, LastKid(x), e);
            && Distinct(x') && Distinct(y') && Nodes(x') !! Nodes(y')
            && Nodes(x') + Nodes(y') == Nodes(x) + Nodes(y)
            && Distinct(g) && Nodes(g) !! Nodes(x') && Nodes(g) !! Nodes(y) && Nodes(g) <= Nodes(x)
  {
    assert x.kids == x.kids[..|x.elems|] + [LastKid(x)];
    NodesCat(x.kids[..|x.elems|], [LastKid(x)]);
    NodesCat([LastKid(x)], y.kids);
  }

  lemma ShiftLeftNodes(x: Tree, e: Ptr, y: Tree)
    requires x.Fork? && y.Fork? && |y.kids| == |y.elems| + 1 && |y.elems| > 0
    requires Distinct(x) && Distinct(y) && Nodes(x) !! Nodes(y)
    ensures var x', g, y' := WithBack(x, e, y.kids[0]), y.kids[0], DropFirst(y);
            && Distinct(x') && Distinct(y') && Nodes(x') !! Nodes(y')
            && Nodes(x') + Nodes(y') == Nodes(x) + Nodes(y)
            && Distinct(g) && Nodes(g) !! Nodes(y') && Nodes(g) !! Nodes(x) && Nodes(g) <= Nodes(y)
  {
    assert y.kids == [y.kids[0]] + y.kids[1..];
    NodesCat([y.kids[0]], y.kids[1..]);
    NodesCat(x.kids, [y.kids[0]]);
  }

  lemma MergedNodes(n: Node, x: Tree, e: Ptr, y: Tree)
    requires x.Fork? && y.Fork? && (n == x.node || n == y.node)
    requires Distinct(x) && Distinct(y) && Nodes(x) !! Nodes(y)
    ensures var z, gone := Merged(n, x, e, y), if n == x.node then y.node else x.node;
            Distinct(z) && Nodes(z) == Nodes(x) + Nodes(y) - {gone}
  {
    NodesCat(x.kids, y.kids);
  }

  // ---------- shape ----------

  lemma ShiftRightSound(x: Tree, e: Ptr, y: Tree, h: nat)
    requires x.Fork? && y.Fork? && Sound(x, h) && Sound(y, h) && |x.elems| > 1 && |y.elems| < 3 && e != NULL
    ensures Sound(DropLast(x), h) && Sound(WithFront(y, LastKid(x), e), h)
    ensures x.elems[|x.elems| - 1] != NULL
  {
    assert x.kids == x.kids[..|x.elems|] + [LastKid(x)];
    SoundCat(x.kids[..|x.elems|], [LastKid(x)], h - 1);
    SoundCat([LastKid(x)], y.kids, h - 1);
    assert forall i | 0 <= i < |x.elems| :: x.elems[i] in x.elems;
    assert NULL !in x.elems[..|x.elems| - 1];
  }

  lemma ShiftLeftSound(x: Tree, e: Ptr, y: Tree, h: nat)
    requires x.Fork? && y.Fork? && Sound(x, h) && Sound(y, h) && |y.elems| > 1 && |x.elems| < 3 && e != NULL
    ensures Sound(WithBack(x, e, y.kids[0]), h) && Sound(DropFirst(y), h)
    ensures y.elems[0] != NULL
  {
    assert y.kids == [y.kids[0]] + y.kids[1..];
    SoundCat([y.kids[0]], y.kids[1..], h - 1);
    SoundCat(x.kids, [y.kids[0]], h - 1);
    assert y.elems[0] in y.elems;
    assert NULL !in y.elems[1..];
  }

  lemma MergedSound(n: Node, x: Tree, e: Ptr, y: Tree, h: nat)
    requires x.Fork? && y.Fork? && Sound(x, h) && Sound(y, h) && |x.elems| == |y.elems| == 1 && e != NULL
    ensures Sound(Merged(n, x, e, y), h)
  {
    SoundCat(x.kids, y.kids, h - 1);
  }

  // ---------- the node above the two neighbours ----------

  ghost predicate HasPair(t: Tree, k: nat) {
    t.Fork? && |t.kids| == |t.elems| + 1 && k < |t.elems|
  }

  /** `t` with `x`, `e`, `y` in place of its children `k`, `k + 1` and its element `k`. */
  ghost function PairReplaced(t: Tree, k: nat, x: Tree, e: Ptr, y: Tree): Tree
    requires HasPair(t, k)
  {
    Fork(t.node, t.kids[..k] + [x, y] + t.kids[k + 2..], t.elems[..k] + [e] + t.elems[k + 1..])
  }

  /** `t` with `z` in place of its children `k`, `k + 1` and its element `k`. */
  ghost function PairMerged(t: Tree, k: nat, z: Tree): Tree
    requires HasPair(t, k)
  {
    Fork(t.node, t.kids[..k] + [z] + t.kids[k + 2..], t.elems[..k] + t.elems[k + 1..])
  }

  lemma PairSelf(t: Tree, k: nat)
    requires HasPair(t, k)
    ensures PairReplaced(t, k, t.kids[k], t.elems[k], t.kids[k + 1]) == t
  {
    assert t.kids == t.kids[..k] + [t.kids[k], t.kids[k + 1]] + t.kids[k + 2..];
    assert t.elems == t.elems[..k] + [t.elems[k]] + t.elems[k + 1..];
  }

  lemma PairFlat(t: Tree, k: nat, x: Tree, e: Ptr, y: Tree)
    requires HasPair(t, k)
    ensures Flat(PairReplaced(t, k, x, e, y))
         == WeaveLeft(t.kids[..k], t.elems[..k]) + (Flat(x) + [e] + Flat(y))
            + WeaveRight(t.elems[k + 1..], t.kids[k + 2..])
  {
    WeavePair(t.kids[..k], t.elems[..k], x, e, y, t.elems[k + 1..], t.kids[k + 2..]);
  }

  lemma MergedFlat(t: Tree, k: nat, z: Tree)
    requires HasPair(t, k)
    ensures Flat(PairMerged(t, k, z))
         == WeaveLeft(t.kids[..k], t.elems[..k]) + Flat(z) + WeaveRight(t.elems[k + 1..], t.kids[k + 2..])
  {
    WeaveAround(t.kids[..k], t.elems[..k], z, t.elems[k + 1..], t.kids[k + 2..]);
  }

  lemma PairReplacedSame(t: Tree, k: nat, x: Tree, e: Ptr, y: Tree, h: nat)
    requires HasPair(t, k) && Sound(t, h) && h > 0 && Distinct(t)
    requires Sound(x, h - 1) && Sound(y, h - 1) && e != NULL
    requires Flat(x) + [e] + Flat(y) == Flat(t.kids[k]) + [t.elems[k]] + Flat(t.kids[k + 1])
    requires Distinct(x) && Distinct(y) && Nodes(x) !! Nodes(y)
    requires Nodes(x) + Nodes(y) == Nodes(t.kids[k]) + Nodes(t.kids[k + 1])
    ensures var t' := PairReplaced(t, k, x, e, y);
            Sound(t', h) && Distinct(t') && Nodes(t') == Nodes(t) && Flat(t') == Flat(t)
  {
    var a, b := t.kids[..k], t.kids[k + 2..];
    PairSelf(t, k);
    PairFlat(t, k, x, e, y);
    PairFlat(t, k, t.kids[k], t.elems[k], t.kids[k + 1]);
    NodesPair(a, x, y, b);
    NodesPair(a, t.kids[k], t.kids[k + 1], b);
    SoundPair(a, x, y, b, h - 1);
    SoundPair(a, t.kids[k], t.kids[k + 1], b, h - 1);
    assert forall i | 0 <= i < |t.elems| :: t.elems[i] in t.elems;
  }

  lemma PairMergedSame(t: Tree, k: nat, z: Tree, gone: Node, h: nat)
    requires HasPair(t, k) && Sound(t, h) && h > 0 && Distinct(t)
    requires Sound(z, h - 1) && Flat(z) == Flat(t.kids[k]) + [t.elems[k]] + Flat(t.kids[k + 1])
    requires Distinct(z) && Nodes(z) == Nodes(t.kids[k]) + Nodes(t.kids[k + 1]) - {gone}
    requires gone in Nodes(t.kids[k]) + Nodes(t.kids[k + 1])
    ensures var t' := PairMerged(t, k, z);
            && (|t.elems| > 1 ==> Sound(t', h))
            && Distinct(t') && Nodes(t') == Nodes(t) - {gone} && Flat(t') == Flat(t)
  {
    var a, b := t.kids[..k], t.kids[k + 2..];
    PairSelf(t, k);
    MergedFlat(t, k, z);
    PairFlat(t, k, t.kids[k], t.elems[k], t.kids[k + 1]);
    NodesPair(a, t.kids[k], t.kids[k + 1], b);
    Around(a, z, b);
    SoundPair(a, t.kids[k], t.kids[k + 1], b, h - 1);
    SoundAround(a, z, b, h - 1);
    assert forall i | 0 <= i < |t.elems| :: t.elems[i] in t.elems;
  }

  lemma {:induction false} PrefixLocal(ts: seq<Tree>, es: seq<Ptr>, us: seq<Tree>, fs: seq<Ptr>, k: nat)
    requires k <= |ts| && k <= |es| && k <= |us| && k <= |fs| && ts[..k] == us[..k]
    ensures Prefix(ts, es, k) == Prefix(us, fs, k)
  {
    if k > 0 {
      assert ts[..k][k - 1] == us[..k][k - 1];
      assert ts[..k - 1] == ts[..k][..k - 1] && us[..k - 1] == us[..k][..k - 1];
      PrefixLocal(ts, es, us, fs, k - 1);
    }
  }

  lemma PairPrefix(t: Tree, k: nat, x: Tree, e: Ptr, y: Tree)
    requires HasPair(t, k)
    ensures var t' := PairReplaced(t, k, x, e, y);
            && Prefix(t'.kids, t'.elems, k) == Prefix(t.kids, t.elems, k)
            && Prefix(t'.kids, t'.elems, k + 1) == Prefix(t.kids, t.elems, k) + |Flat(x)| + 1
            && Prefix(t.kids, t.elems, k + 1) == Prefix(t.kids, t.elems, k) + |Flat(t.kids[k])| + 1
            && t'.kids[k] == x && t'.kids[k + 1] == y
  {
    var t' := PairReplaced(t, k, x, e, y);
    assert t'.kids[..k] == t.kids[..k];
    PrefixLocal(t.kids, t.elems, t'.kids, t'.elems, k);
  }

  lemma MergedPrefix(t: Tree, k: nat, z: Tree)
    requires HasPair(t, k)
    ensures var t' := PairMerged(t, k, z);
            Prefix(t'.kids, t'.elems, k) == Prefix(t.kids, t.elems, k) && t'.kids[k] == z
  {
    var t' := PairMerged(t, k, z);
    assert t'.kids[..k] == t.kids[..k];
    PrefixLocal(t.kids, t.elems, t'.kids, t'.elems, k);
  }

  // ---------- the three ways to prepare a child for losing an element ----------

  ghost function BorrowedLeft(t: Tree, k: nat): Tree
    requires HasPair(t, k) && HasPair(t.kids[k], 1) && HasPair(t.kids[k + 1], 0)
  {
    var x, y := t.kids[k], t.kids[k + 1];
    PairReplaced(t, k, DropLast(x), x.elems[|x.elems| - 1], WithFront(y, LastKid(x), t.elems[k]))
  }

  ghost function BorrowedRight(t: Tree, k: nat): Tree
    requires HasPair(t, k) && HasPair(t.kids[k], 0) && HasPair(t.kids[k + 1], 1)
  {
    var x, y := t.kids[k], t.kids[k + 1];
    PairReplaced(t, k, WithBack(x, t.elems[k], y.kids[0]), y.elems[0], DropFirst(y))
  }

  ghost function MergedAt(t: Tree, k: nat, keepRight: bool): Tree
    requires HasPair(t, k) && t.kids[k].Fork? && t.kids[k + 1].Fork?
  {
    var x, y := t.kids[k], t.kids[k + 1];
    PairMerged(t, k, Merged(if keepRight then y.node else x.node, x, t.elems[k], y))
  }

  lemma PairParts(t: Tree, k: nat, h: nat)
    requires HasPair(t, k) && Sound(t, h + 1) && Distinct(t)
    ensures var x, y := t.kids[k], t.kids[k + 1];
            && Sound(x, h) && Sound(y, h) && Distinct(x) && Distinct(y) && Nodes(x) !! Nodes(y)
            && Nodes(x) + Nodes(y) <= Nodes(t) && t.elems[k] != NULL
  {
    var a, x, y, b := t.kids[..k], t.kids[k], t.kids[k + 1], t.kids[k + 2..];
    PairSelf(t, k);
    NodesPair(a, x, y, b);
    SoundPair(a, x, y, b, h);
    assert t.elems[k] in t.elems;
  }

  lemma BorrowedLeftFacts(t: Tree, k: nat, h: nat)
    requires HasPair(t, k) && Sound(t, h + 1) && Distinct(t)
    requires HasPair(t.kids[k], 1) && HasPair(t.kids[k + 1], 0) && |t.kids[k + 1].elems| == 1
    ensures var t', x, y := BorrowedLeft(t, k), t.kids[k], t.kids[k + 1]; var u := t'.kids[k + 1];
            && Sound(t', h + 1) && Distinct(t') && Nodes(t') == Nodes(t) && Flat(t') == Flat(t)
            && u.Fork? && u.node == y.node && |u.elems| == 2
            && |Flat(u)| == |Flat(y)| + |Flat(x)| - |Flat(DropLast(x))|
            && |Flat(DropLast(x))| <= |Flat(x)|
            && Prefix(t'.kids, t'.elems, k + 1)
               == Prefix(t.kids, t.elems, k + 1) - |Flat(x)| + |Flat(DropLast(x))|
  {
    var x, y, e := t.kids[k], t.kids[k + 1], t.elems[k];
    var x', f, y' := DropLast(x), x.elems[|x.elems| - 1], WithFront(y, LastKid(x), e);
    PairParts(t, k, h);
    ShiftRightOrder(x, e, y);
    FlatDropLast(x);
    ShiftRightNodes(x, e, y);
    ShiftRightSound(x, e, y, h);
    PairReplacedSame(t, k, x', f, y', h + 1);
    PairPrefix(t, k, x', f, y');
  }

  lemma BorrowedRightFacts(t: Tree, k: nat, h: nat)
    requires HasPair(t, k) && Sound(t, h + 1) && Distinct(t)
    requires HasPair(t.kids[k], 0) && |t.kids[k].elems| == 1 && HasPair(t.kids[k + 1], 1)
    ensures var t', x := BorrowedRight(t, k), t.kids[k]; var u := t'.kids[k];
            && Sound(t', h + 1) && Distinct(t') && Nodes(t') == Nodes(t) && Flat(t') == Flat(t)
            && u.Fork? && u.node == x.node && |u.elems| == 2 && |Flat(u)| >= |Flat(x)|
            && Prefix(t'.kids, t'.elems, k) == Prefix(t.kids, t.elems, k)
  {
    var x, y, e := t.kids[k], t.kids[k + 1], t.elems[k];
    var x', f, y' := WithBack(x, e, y.kids[0]), y.elems[0], DropFirst(y);
    PairParts(t, k, h);
    ShiftLeftOrder(x, e, y);
    FlatWithBack(x, e, y.kids[0]);
    ShiftLeftNodes(x, e, y);
    ShiftLeftSound(x, e, y, h);
    PairReplacedSame(t, k, x', f, y', h + 1);
    PairPrefix(t, k, x', f, y');
  }

  lemma MergedAtFacts(t: Tree, k: nat, keepRight: bool, h: nat)
    requires HasPair(t, k) && Sound(t, h + 1) && Distinct(t)
    requires HasPair(t.kids[k], 0) && HasPair(t.kids[k + 1], 0) && |t.kids[k].elems| == |t.kids[k + 1].elems| == 1
    ensures var t', x, y := MergedAt(t, k, keepRight), t.kids[k], t.kids[k + 1]; var z := t'.kids[k];
            var keep, gone := if keepRight then y.node else x.node, if keepRight then x.node else y.node;
            && (|t.elems| > 1 ==> Sound(t', h + 1))
            && Distinct(t') && Nodes(t') == Nodes(t) - {gone} && Flat(t') == Flat(t)
            && z == Merged(keep, x, t.elems[k], y) && Sound(z, h) && |z.elems| == 3
            && Flat(z) == Flat(x) + [t.elems[k]] + Flat(y)
            && Distinct(z) && Nodes(z) == Nodes(x) + Nodes(y) - {gone}
            && Prefix(t'.kids, t'.elems, k) == Prefix(t.kids, t.elems, k)
            && Prefix(t.kids, t.elems, k + 1) == Prefix(t.kids, t.elems, k) + |Flat(x)| + 1
  {
    var x, y, e := t.kids[k], t.kids[k + 1], t.elems[k];
    var keep, gone := if keepRight then y.node else x.node, if keepRight then x.node else y.node;
    var z := Merged(keep, x, e, y);
    PairParts(t, k, h);
    FlatMerged(keep, x, e, y);
    MergedSound(keep, x, e, y, h);
    MergedNodes(keep, x, e, y);
    PairMergedSame(t, k, z, gone, h + 1);
    MergedPrefix(t, k, z);
  }

  lemma OnlyKid(t: Tree, h: nat)
    requires t.Fork? && |t.kids| == 1 && t.elems == [] && Distinct(t)
    ensures Flat(t) == Flat(t.kids[0]) && Nodes(t) == {t.node} + Nodes(t.kids[0])
    ensures Distinct(t.kids[0]) && t.node !in Nodes(t.kids[0])
  {
    assert t.kids == [t.kids[0]];
  }

  // ---------- removing an element ----------

  ghost function Removed<T>(s: seq<T>, i: nat): seq<T>
    requires i < |s|
  {
    s[..i] + s[i + 1..]
  }

  /** Copying the neighbour over an element and then removing the neighbour. */
  lemma RemovedByCopy<T>(s: seq<T>, i: nat, j: nat)
    requires i < |s| && j < |s| && (j == i + 1 || i == j + 1)
    ensures Removed(s[i := s[j]], j) == Removed(s, i)
  {
  }

  lemma RemovedInside<T>(a: seq<T>, b: seq<T>, c: seq<T>, i: nat)
    requires i < |b|
    ensures Removed(a + b + c, |a| + i) == a + Removed(b, i) + c
  {
  }

  lemma LeafFlat(t: Tree)
    requires t.Fork? && Sound(t, 1)
    ensures Flat(t) == t.elems
  {
    LeafWeave(t.kids, t.elems);
  }

  lemma {:induction false} LeafWeave(ts: seq<Tree>, es: seq<Ptr>)
    requires AllSound(ts, 0) && |ts| == |es| + 1
    ensures Weave(ts, es) == es
  {
    if es != [] {
      LeafWeave(ts[1..], es[1..]);
      assert es == [es[0]] + es[1..];
    }
  }

  /** A leaf node without its element `i`. */
  ghost function LeafWithout(t: Tree, i: nat): Tree
    requires t.Fork? && i < |t.elems| && |t.kids| > 0
  {
    Fork(t.node, t.kids[1..], Removed(t.elems, i))
  }

  lemma LeafWithoutFacts(t: Tree, i: nat)
    requires t.Fork? && Sound(t, 1) && Distinct(t) && i < |t.elems| && |t.elems| >= 2
    ensures var t' := LeafWithout(t, i);
            && Sound(t', 1) && Distinct(t') && Nodes(t') == Nodes(t)
            && Flat(t) == t.elems && Flat(t') == Removed(t.elems, i)
            && AllSound(t.kids, 0)
  {
    assert t.kids == [t.kids[0]] + t.kids[1..];
    SoundCat([t.kids[0]], t.kids[1..], 0);
    NodesCat([t.kids[0]], t.kids[1..]);
    LeafFlat(t);
    LeafFlat(LeafWithout(t, i));
  }

  /** A node with `e` as its element `k`. */
  ghost function Replaced(t: Tree, k: nat, e: Ptr): Tree
    requires t.Fork? && k < |t.elems|
  {
    t.(elems := t.elems[k := e])
  }

  lemma ReplacedFacts(t: Tree, k: nat, e: Ptr, h: nat)
    requires HasPair(t, k) && Sound(t, h) && Distinct(t) && e != NULL
    ensures var t' := Replaced(t, k, e); var pos := Prefix(t.kids, t.elems, k) + |Flat(t.kids[k])|;
            && Sound(t', h) && Distinct(t') && Nodes(t') == Nodes(t)
            && 0 <= pos < |Flat(t)| && Flat(t)[pos] == t.elems[k] && Flat(t') == Flat(t)[pos := e]
            && (forall j | 0 <= j <= |t.elems| :: Prefix(t'.kids, t'.elems, j) == Prefix(t.kids, t.elems, j))
  {
    var t', x, y := Replaced(t, k, e), t.kids[k], t.kids[k + 1];
    assert t'.elems == t.elems[..k] + [e] + t.elems[k + 1..];
    assert t.kids == t.kids[..k] + [x, y] + t.kids[k + 2..];
    assert t' == PairReplaced(t, k, x, e, y);
    PairSelf(t, k);
    PairFlat(t, k, x, e, y);
    PairFlat(t, k, x, t.elems[k], y);
    SlotAt(t.kids, t.elems, k);
    PrefixIsLength(t.kids, t.elems, k);
    forall j | 0 <= j <= |t.elems|
      ensures Prefix(t'.kids, t'.elems, j) == Prefix(t.kids, t.elems, j)
    {
      PrefixLocal(t.kids, t.elems, t'.kids, t'.elems, j);
    }
    var a, b, c := WeaveLeft(t.kids[..k], t.elems[..k]), Flat(x), Flat(y);
    var d := WeaveRight(t.elems[k + 1..], t.kids[k + 2..]);
    SwapMiddle(a, b, t.elems[k], e, c, d);
  }

  lemma SwapMiddle(a: seq<Ptr>, b: seq<Ptr>, e: Ptr, f: Ptr, c: seq<Ptr>, d: seq<Ptr>)
    ensures (a + (b + [e] + c) + d)[|a| + |b| := f] == a + (b + [f] + c) + d
  {
  }
}
