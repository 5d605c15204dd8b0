/** Deletion from the counted 2-3-4 tree: `delpos234_internal` and its callers. */
module CountedDelete {
  import opened CountedShape
  import opened CountedTree
  import opened CountedBalance
  import opened CountedSearch

  // ---------- moving subtrees between two neighbours ----------

  /** tree234.c:743, 756-758: the last element of `n` and the subtree after it. */
  method PopBack(n: Node, ghost rs: seq<Node?>, ghost r: Node?, ghost ss: seq<int>, ghost s: int, ghost es: seq<Ptr>,
                 ghost e: Ptr)
    returns (kid: Node?, count: int, elem: Ptr)
    requires MatchFields(n, rs + [r], ss + [s], es + [e])
    requires |rs| == |ss| == |es| + 1 && 1 <= |es| <= 2 && NULL !in es + [e]
    modifies n
    ensures MatchFields(n, rs, ss, es) && n.parent == old(n.parent)
    ensures kid == r && count == s && elem == e
  {
    assert forall i | 0 <= i < |es| + 1 :: (es + [e])[i] in es + [e];
    var last := if n.elems[2] != NULL then 2 else if n.elems[1] != NULL then 1 else 0;
    assert last == |es|;
    kid, count, elem := n.kids[last + 1], n.counts[last + 1], n.elems[last];
    n.kids := n.kids[last + 1 := null];
    n.counts := n.counts[last + 1 := 0];
    n.elems := n.elems[last := NULL];
  }

  /** tree234.c:745-752: `e` and a subtree before it in front of the only element of `n`. */
  method PushFront(n: Node, kid: Node?, count: int, e: Ptr, ghost rs: seq<Node?>, ghost ss: seq<int>,
                   ghost es: seq<Ptr>)
    requires MatchFields(n, rs, ss, es) && |rs| == |ss| == 2 && |es| == 1
    modifies n
    ensures MatchFields(n, [kid] + rs, [count] + ss, [e] + es) && n.parent == old(n.parent)
  {
    n.kids := [kid, n.kids[0], n.kids[1], n.kids[3]];
    n.counts := [count, n.counts[0], n.counts[1], n.counts[3]];
    n.elems := [e, n.elems[0], n.elems[2]];
  }

  /** tree234.c:784-798: the first element of `n` and the subtree before it. */
  method PopFront(n: Node, ghost rs: seq<Node?>, ghost r: Node?, ghost ss: seq<int>, ghost s: int,
                  ghost es: seq<Ptr>, ghost e: Ptr)
    returns (kid: Node?, count: int, elem: Ptr)
    requires MatchFields(n, [r] + rs, [s] + ss, [e] + es)
    requires |rs| == |ss| == |es| + 1 && 1 <= |es| <= 2 && NULL !in es
    modifies n
    ensures MatchFields(n, rs, ss, es) && n.parent == old(n.parent)
    ensures kid == r && count == s && elem == e
  {
    assert forall i | 0 <= i < |es| :: es[i] in es;
    kid, count, elem := n.kids[0], n.counts[0], n.elems[0];
    n.kids := n.kids[0 := n.kids[1]];
    n.counts := n.counts[0 := n.counts[1]];
    var j := 0;
    while j < 2 && n.elems[j + 1] != NULL
      invariant 0 <= j <= |es|
      invariant |n.kids| == 4 && |n.counts| == 4 && |n.elems| == 3 && n.parent == old(n.parent)
      invariant forall i | 0 <= i <= j :: n.kids[i] == rs[i] && n.counts[i] == ss[i]
      invariant forall i | 0 <= i < j :: n.elems[i] == es[i]
      invariant forall i | j < i < 4 :: n.kids[i] == old(n.kids[i]) && n.counts[i] == old(n.counts[i])
      invariant forall i | j <= i < 3 :: n.elems[i] == old(n.elems[i])
    {
      n.kids := n.kids[j + 1 := n.kids[j + 2]];
      n.counts := n.counts[j + 1 := n.counts[j + 2]];
      n.elems := n.elems[j := n.elems[j + 1]];
      j := j + 1;
    }
    assert j == |es|;
    n.kids := n.kids[j + 1 := null];
    n.counts := n.counts[j + 1 := 0];
    n.elems := n.elems[j := NULL];
  }

  /** tree234.c:783-785: `e` and a subtree after it behind the only element of `n`. */
  method PushBack(n: Node, e: Ptr, kid: Node?, count: int, ghost rs: seq<Node?>, ghost ss: seq<int>, ghost es: seq<Ptr>)
    requires MatchFields(n, rs, ss, es) && |rs| == |ss| == 2 && |es| == 1
    modifies n
    ensures MatchFields(n, rs + [kid], ss + [count], es + [e]) && n.parent == old(n.parent)
  {
    n.elems := n.elems[1 := e];
    n.kids := n.kids[2 := kid];
    n.counts := n.counts[2 := count];
  }

  /** tree234.c:742-758, 3a left, in the two children: `e` comes down into `sub`, the
      result goes up. */
  method ShiftRightFields(sib: Node, sub: Node, e: Ptr, ghost x: Tree, ghost y: Tree) returns (kid: Node?, up: Ptr)
    requires x.Fork? && y.Fork? && sib != sub && |x.kids| == |x.elems| + 1 && 2 <= |x.elems| <= 3 && NULL !in x.elems
    requires |y.elems| == 1 && |y.kids| == 2
    requires MatchFields(sib, Roots(x.kids), Sizes(x.kids), x.elems)
    requires MatchFields(sub, Roots(y.kids), Sizes(y.kids), y.elems)
    modifies sib, sub
    ensures var x', y' := DropLast(x), WithFront(y, LastKid(x), e);
            && MatchFields(sib, Roots(x'.kids), Sizes(x'.kids), x'.elems)
            && MatchFields(sub, Roots(y'.kids), Sizes(y'.kids), y'.elems)
    ensures sib.parent == old(sib.parent) && sub.parent == old(sub.parent)
    ensures kid == Root(LastKid(x)) && up == x.elems[|x.elems| - 1]
  {
    ghost var g, xs, k := LastKid(x), x.kids[..|x.elems|], |x.elems| - 1;
    assert x.kids == xs + [g] && x.elems == x.elems[..k] + [x.elems[k]];
    RootsCat(xs, [g]);
    RootsCat([g], y.kids);
    assert Roots([g]) == [Root(g)] && Sizes([g]) == [|Flat(g)|];
    var count;
    kid, count, up := PopBack(sib, Roots(xs), Root(g), Sizes(xs), |Flat(g)|, x.elems[..k], x.elems[k]);
    PushFront(sub, kid, count, e, Roots(y.kids), Sizes(y.kids), y.elems);
  }

  method ShiftRight(sib: Node, sub: Node, e: Ptr, ghost x: Tree, ghost y: Tree, ghost par: Node, ghost h: nat,
                    ghost all: set<Node>)
    returns (up: Ptr)
    requires x.Fork? && y.Fork? && x.node == sib && y.node == sub
    requires MatchTree(x, par) && MatchTree(y, par) && Sound(x, h) && Sound(y, h) && |x.elems| > 1 && |y.elems| == 1
    requires Distinct(x) && Distinct(y) && Nodes(x) !! Nodes(y) && Nodes(x) + Nodes(y) <= all
    modifies Nodes(x), Nodes(y)
    ensures MatchTree(DropLast(x), par) && MatchTree(WithFront(y, LastKid(x), e), par)
    ensures up == x.elems[|x.elems| - 1]
  {
    ghost var g, xs := LastKid(x), x.kids[..|x.elems|];
    assert x.kids == xs + [g];
    NodesCat(xs, [g]);
    MatchCat(xs, [g], sib);
    assert MatchTree(g, sib);
    var kid;
    kid, up := ShiftRightFields(sib, sub, e, x, y);
    AdoptOne(kid, sub, g);
    MatchCat([g], y.kids, sub);
  }

  /** tree234.c:783-798, 3a right, in the two children. */
  method ShiftLeftFields(sub: Node, sib: Node, e: Ptr, ghost x: Tree, ghost y: Tree) returns (kid: Node?, up: Ptr)
    requires x.Fork? && y.Fork? && sib != sub && |y.kids| == |y.elems| + 1 && 2 <= |y.elems| <= 3 && NULL !in y.elems
    requires |x.elems| == 1 && |x.kids| == 2
    requires MatchFields(sub, Roots(x.kids), Sizes(x.kids), x.elems)
    requires MatchFields(sib, Roots(y.kids), Sizes(y.kids), y.elems)
    modifies sib, sub
    ensures var x', y' := WithBack(x, e, y.kids[0]), DropFirst(y);
            && MatchFields(sub, Roots(x'.kids), Sizes(x'.kids), x'.elems)
            && MatchFields(sib, Roots(y'.kids), Sizes(y'.kids), y'.elems)
    ensures sib.parent == old(sib.parent) && sub.parent == old(sub.parent)
    ensures kid == Root(y.kids[0]) && up == y.elems[0]
  {
    ghost var g, ys := y.kids[0], y.kids[1..];
    assert y.kids == [g] + ys && y.elems == [y.elems[0]] + y.elems[1..];
    RootsCat([g], ys);
    RootsCat(x.kids, [g]);
    assert Roots([g]) == [Root(g)] && Sizes([g]) == [|Flat(g)|];
    var count;
    kid, count, up := PopFront(sib, Roots(ys), Root(g), Sizes(ys), |Flat(g)|, y.elems[1..], y.elems[0]);
    PushBack(sub, e, kid, count, Roots(x.kids), Sizes(x.kids), x.elems);
  }

  method ShiftLeft(sub: Node, sib: Node, e: Ptr, ghost x: Tree, ghost y: Tree, ghost par: Node, ghost h: nat,
                   ghost all: set<Node>)
    returns (up: Ptr)
    requires x.Fork? && y.Fork? && x.node == sub && y.node == sib
    requires MatchTree(x, par) && MatchTree(y, par) && Sound(x, h) && Sound(y, h) && |y.elems| > 1 && |x.elems| == 1
    requires Distinct(x) && Distinct(y) && Nodes(x) !! Nodes(y) && Nodes(x) + Nodes(y) <= all
    modifies Nodes(x), Nodes(y)
    ensures MatchTree(WithBack(x, e, y.kids[0]), par) && MatchTree(DropFirst(y), par)
    ensures up == y.elems[0]
  {
    ghost var g, ys := y.kids[0], y.kids[1..];
    assert y.kids == [g] + ys;
    NodesCat([g], ys);
    MatchCat([g], ys, sib);
    var kid;
    kid, up := ShiftLeftFields(sub, sib, e, x, y);
    AdoptOne(kid, sub, g);
    MatchCat(x.kids, [g], sub);
  }

  /** tree234.c:832-846 and 979-988, in the two children: `keep`, one of the two nodes, takes
      everything, with `e` in the middle. */
  method MergeFields(left: Node, right: Node, keepRight: bool, e: Ptr, ghost x: Tree, ghost y: Tree)
    requires x.Fork? && y.Fork? && left != right && |x.elems| == |y.elems| == 1 && |x.kids| == |y.kids| == 2
    requires MatchFields(left, Roots(x.kids), Sizes(x.kids), x.elems)
    requires MatchFields(right, Roots(y.kids), Sizes(y.kids), y.elems)
    modifies left, right
    ensures var keep := if keepRight then right else left; var z := Merged(keep, x, e, y);
            && MatchFields(keep, Roots(z.kids), Sizes(z.kids), z.elems)
            && keep.parent == old(keep.parent)
  {
    RootsCat(x.kids, y.kids);
    if keepRight {
      right.kids := [left.kids[0], left.kids[1], right.kids[0], right.kids[1]];
      right.counts := [left.counts[0], left.counts[1], right.counts[0], right.counts[1]];
      right.elems := [left.elems[0], e, right.elems[0]];
    } else {
      left.kids := [left.kids[0], left.kids[1], right.kids[0], right.kids[1]];
      left.counts := [left.counts[0], left.counts[1], right.counts[0], right.counts[1]];
      left.elems := [left.elems[0], e, right.elems[0]];
    }
  }

  method Merge(left: Node, right: Node, keepRight: bool, e: Ptr, ghost x: Tree, ghost y: Tree, ghost par: Node,
               ghost all: set<Node>)
    requires x.Fork? && y.Fork? && x.node == left && y.node == right
    requires |x.elems| == |y.elems| == 1 && |x.kids| == |y.kids| == 2
    requires MatchTree(x, par) && MatchTree(y, par)
    requires Distinct(x) && Distinct(y) && Nodes(x) !! Nodes(y) && Nodes(x) + Nodes(y) <= all
    modifies Nodes(x), Nodes(y)
    ensures var keep := if keepRight then right else left; MatchTree(Merged(keep, x, e, y), par)
  {
    var keep := if keepRight then right else left;
    ghost var z := Merged(keep, x, e, y);
    NodesCat(x.kids, y.kids);
    MatchIsBelow(x.kids, left);
    MatchIsBelow(y.kids, right);
    BelowCat(x.kids, y.kids);
    MergeFields(left, right, keepRight, e, x, y);
    AdoptKids(keep, z.kids, all);
  }

  // ---------- the node above the two neighbours ----------

  /** tree234.c:755, 759-766 and 788, 799-800. */
  method SetPair(n: Node, k: nat, e: Ptr, lcount: int, rcount: int, ghost rs: seq<Node?>,
                 ghost sl: seq<int>, ghost s0: int, ghost s1: int, ghost sr: seq<int>,
                 ghost el: seq<Ptr>, ghost e0: Ptr, ghost er: seq<Ptr>)
    requires MatchFields(n, rs, sl + [s0, s1] + sr, el + [e0] + er) && |sl| == |el| == k && |sr| == |er|
               && |el| + |er| <= 2
    modifies n
    ensures MatchFields(n, rs, sl + [lcount, rcount] + sr, el + [e] + er) && n.parent == old(n.parent)
  {
    n.elems := n.elems[k := e];
    n.counts := n.counts[k := lcount][k + 1 := rcount];
  }

  /** tree234.c:852-864: closes the gap of child `k`; its right neighbour, whose new size is
      `count`, moves into its place, and element `k` goes. */
  method RemoveLeft(n: Node, k: nat, count: int, ghost rl: seq<Node?>, ghost r0: Node?, ghost r1: Node,
                    ghost rr: seq<Node?>,
                    ghost sl: seq<int>, ghost s0: int, ghost s1: int, ghost sr: seq<int>,
                    ghost el: seq<Ptr>, ghost e0: Ptr, ghost er: seq<Ptr>)
    requires MatchFields(n, rl + [r0, r1] + rr, sl + [s0, s1] + sr, el + [e0] + er)
    requires |rl| == |sl| == |el| == k && |rr| == |sr| == |er| && |el| + |er| <= 2 && null !in rr
    modifies n
    ensures MatchFields(n, rl + [r1] + rr, sl + [count] + sr, el + er) && n.parent == old(n.parent)
  {
    n.counts := n.counts[k + 1 := count];
    ghost var rs, ss, es := rl + [r1] + rr, sl + [count] + sr, el + er;
    assert forall i | 0 <= i < |rr| :: rr[i] in rr;
    var j := k;
    while j < 3 && n.kids[j + 1] != null
      invariant k <= j <= k + 1 + |rr|
      invariant |n.kids| == 4 && |n.counts| == 4 && |n.elems| == 3 && n.parent == old(n.parent)
      invariant forall i | 0 <= i < j :: n.kids[i] == rs[i] && n.counts[i] == ss[i]
      invariant forall i | 0 <= i < j && i < |es| :: n.elems[i] == es[i]
      invariant forall i | |es| <= i < j && i < 3 :: n.elems[i] == NULL
      invariant forall i | j <= i < 4 :: n.kids[i] == old(n.kids[i])
      invariant forall i | j < i < 4 :: n.counts[i] == if i == k + 1 then count else old(n.counts[i])
      invariant forall i | j <= i < 3 :: n.elems[i] == old(n.elems[i])
    {
      n.kids := n.kids[j := n.kids[j + 1]];
      n.counts := n.counts[j := n.counts[j + 1]];
      n.elems := n.elems[j := if j < 2 then n.elems[j + 1] else NULL];
      j := j + 1;
    }
    n.kids := n.kids[j := null];
    n.counts := n.counts[j := 0];
    if j < 3 {
      n.elems := n.elems[j := NULL];
    }
  }

  /** tree234.c:990-1002: the same from the other side; child `k`, whose new size is `count`,
      stays, its right neighbour and element `k` go. */
  method RemoveRight(n: Node, k: nat, count: int, ghost rl: seq<Node?>, ghost r0: Node?, ghost r1: Node?,
                     ghost rr: seq<Node?>,
                     ghost sl: seq<int>, ghost s0: int, ghost s1: int, ghost sr: seq<int>,
                     ghost el: seq<Ptr>, ghost e0: Ptr, ghost er: seq<Ptr>)
    requires MatchFields(n, rl + [r0, r1] + rr, sl + [s0, s1] + sr, el + [e0] + er)
    requires |rl| == |sl| == |el| == k && |rr| == |sr| == |er| && |el| + |er| <= 2 && NULL !in er
    modifies n
    ensures MatchFields(n, rl + [r0] + rr, sl + [count] + sr, el + er) && n.parent == old(n.parent)
  {
    n.counts := n.counts[k := count];
    ghost var rs, ss, es := rl + [r0] + rr, sl + [count] + sr, el + er;
    assert forall i | 0 <= i < |er| :: er[i] in er;
    var j := k;
    while j < 2 && n.elems[j + 1] != NULL
      invariant k <= j <= k + |er|
      invariant |n.kids| == 4 && |n.counts| == 4 && |n.elems| == 3 && n.parent == old(n.parent)
      invariant forall i | 0 <= i <= j :: n.kids[i] == rs[i] && n.counts[i] == ss[i]
      invariant forall i | 0 <= i < j :: n.elems[i] == es[i]
      invariant forall i | j < i < 4 :: n.kids[i] == old(n.kids[i]) && n.counts[i] == old(n.counts[i])
      invariant forall i | j <= i < 3 :: n.elems[i] == old(n.elems[i])
    {
      n.elems := n.elems[j := n.elems[j + 1]];
      n.kids := n.kids[j + 1 := n.kids[j + 2]];
      n.counts := n.counts[j + 1 := n.counts[j + 2]];
      j := j + 1;
    }
    n.elems := n.elems[j := NULL];
    n.kids := n.kids[j + 1 := null];
    n.counts := n.counts[j + 1 := 0];
  }

  lemma MatchPair(a: seq<Tree>, x: Tree, y: Tree, b: seq<Tree>, par: Node?)
    ensures MatchAll(a + [x, y] + b, par) <==>
              && MatchAll(a, par) && MatchTree(x, par) && MatchTree(y, par)
              && MatchAll(b, par)
  {
    MatchCat(a, [x, y], par);
    MatchCat(a + [x, y], b, par);
    MatchCat([x], [y], par);
    assert [x] + [y] == [x, y];
  }

  /** `n` and its children except for two neighbours `rx`, `ry`, which it takes to have `sx`
      and `sy` elements. */
  ghost predicate MatchRest(n: Node, a: seq<Tree>, rx: Node?, ry: Node?, b: seq<Tree>, sx: int, sy: int,
                            el: seq<Ptr>, e: Ptr, er: seq<Ptr>)
    reads {n} + AllNodes(a) + AllNodes(b)
  {
    && MatchAll(a, n) && MatchAll(b, n)
    && MatchFields(n, Roots(a) + [rx, ry] + Roots(b), Sizes(a) + [sx, sy] + Sizes(b), el + [e] + er)
  }

  lemma TakeApart(t: Tree, k: nat, par: Node?, h: nat)
    requires HasPair(t, k) && MatchTree(t, par) && Distinct(t) && Sound(t, h)
    ensures var a, x, y, b := t.kids[..k], t.kids[k], t.kids[k + 1], t.kids[k + 2..];
            && MatchRest(t.node, a, Root(x), Root(y), b, |Flat(x)|, |Flat(y)|, t.elems[..k], t.elems[k],
               t.elems[k + 1..])
            && MatchTree(x, t.node) && MatchTree(y, t.node)
            && Nodes(t) == {t.node} + AllNodes(a) + Nodes(x) + Nodes(y) + AllNodes(b)
            && Distinct(x) && Distinct(y) && Nodes(x) !! Nodes(y)
            && t.node !in Nodes(x) + Nodes(y) + AllNodes(a) + AllNodes(b)
            && AllNodes(a) + AllNodes(b) !! Nodes(x) + Nodes(y)
            && h > 0 && Sound(x, h - 1) && Sound(y, h - 1) && t.elems[k] != NULL
  {
    var a, x, y, b := t.kids[..k], t.kids[k], t.kids[k + 1], t.kids[k + 2..];
    PairSelf(t, k);
    AroundPair(a, x, y, b);
    MatchPair(a, x, y, b, t.node);
    SoundPair(a, x, y, b, h - 1);
    assert t.elems[k] in t.elems;
  }

  lemma PutTogether(n: Node, a: seq<Tree>, x: Tree, y: Tree, b: seq<Tree>, el: seq<Ptr>, e: Ptr, er: seq<Ptr>,
                    par: Node?)
    requires MatchRest(n, a, Root(x), Root(y), b, |Flat(x)|, |Flat(y)|, el, e, er)
    requires MatchTree(x, n) && MatchTree(y, n) && n.parent == par
    ensures MatchTree(Fork(n, a + [x, y] + b, el + [e] + er), par)
  {
    AroundPair(a, x, y, b);
    MatchPair(a, x, y, b, n);
  }

  /** tree234.c:755, 759-766 and 788, 799-800: `e` becomes element `k` of `n`, whose children
      `k` and `k + 1` have changed and are counted again. */
  method Recount(n: Node, k: nat, e: Ptr, left: Node, right: Node, ghost a: seq<Tree>, ghost x: Tree, ghost y: Tree,
                 ghost b: seq<Tree>,
                 ghost sx: int, ghost sy: int, ghost el: seq<Ptr>, ghost e0: Ptr, ghost er: seq<Ptr>, ghost h: nat,
                 ghost all: set<Node>)
    returns (lcount: int)
    requires MatchRest(n, a, left, right, b, sx, sy, el, e0, er) && |a| == |el| == k && |b| == |er| && |el| + |er| <= 2
    requires MatchTree(x, n) && MatchTree(y, n) && Root(x) == left && Root(y) == right && Sound(x, h) && Sound(y, h)
    requires n !in Nodes(x) + Nodes(y) + AllNodes(a) + AllNodes(b)
    requires {n} + Nodes(x) + Nodes(y) + AllNodes(a) + AllNodes(b) <= all
    modifies n
    ensures MatchTree(Fork(n, a + [x, y] + b, el + [e] + er), old(n.parent)) && lcount == |Flat(x)|
  {
    lcount := CountTree(left, x, h);
    var rcount := CountTree(right, y, h);
    SetPair(n, k, e, lcount, rcount, Roots(a) + [left, right] + Roots(b), Sizes(a), sx, sy, Sizes(b), el, e0, er);
    PutTogether(n, a, x, y, b, el, e, er, n.parent);
  }

  /** tree234.c:742-766: child `k` gives its last element and subtree to child `k + 1`; the
      target at place `index` of child `k + 1` moves along. */
  method BorrowLeft(n: Node, k: nat, index: int, ghost t: Tree, ghost par: Node?, ghost h: nat, ghost all: set<Node>)
    returns (index': int)
    requires HasPair(t, k) && t.node == n && MatchTree(t, par) && Distinct(t) && Sound(t, h) && Nodes(t) <= all
    requires HasPair(t.kids[k], 1) && HasPair(t.kids[k + 1], 0) && |t.kids[k + 1].elems| == 1
    modifies Nodes(t)
    ensures var x, y := t.kids[k], t.kids[k + 1];
            && MatchTree(BorrowedLeft(t, k), par)
            && index' == index + |Flat(x)| - |Flat(DropLast(x))|
  {
    ghost var a, x, y, b := t.kids[..k], t.kids[k], t.kids[k + 1], t.kids[k + 2..];
    TakeApart(t, k, par, h);
    ShiftRightSound(x, t.elems[k], y, h - 1);
    ShiftRightNodes(x, t.elems[k], y);
    ghost var x', y' := DropLast(x), WithFront(y, LastKid(x), t.elems[k]);
    var sib, sub := n.kids[k], n.kids[k + 1];
    var size := n.counts[k];
    assert sib == Root(x) && sub == Root(y) && size == |Flat(x)| && n.elems[k] == t.elems[k];
    hide MatchTree, MatchAll, MatchFields, Sound, Distinct, Nodes, AllNodes, Flat;
    var up := ShiftRight(sib, sub, n.elems[k], x, y, n, h - 1, all);
    var lcount := Recount(n, k, up, sib, sub, a, x', y', b, |Flat(x)|, |Flat(y)|, t.elems[..k], t.elems[k],
      t.elems[k + 1..], h - 1, all);
    index' := index + size - lcount;
  }

  /** tree234.c:781-800: child `k + 1` gives its first element and subtree to child `k`. */
  method BorrowRight(n: Node, k: nat, ghost t: Tree, ghost par: Node?, ghost h: nat, ghost all: set<Node>)
    requires HasPair(t, k) && t.node == n && MatchTree(t, par) && Distinct(t) && Sound(t, h) && Nodes(t) <= all
    requires HasPair(t.kids[k], 0) && |t.kids[k].elems| == 1 && HasPair(t.kids[k + 1], 1)
    modifies Nodes(t)
    ensures MatchTree(BorrowedRight(t, k), par)
  {
    ghost var a, x, y, b := t.kids[..k], t.kids[k], t.kids[k + 1], t.kids[k + 2..];
    TakeApart(t, k, par, h);
    ShiftLeftSound(x, t.elems[k], y, h - 1);
    ShiftLeftNodes(x, t.elems[k], y);
    ghost var x', y' := WithBack(x, t.elems[k], y.kids[0]), DropFirst(y);
    var sub, sib := n.kids[k], n.kids[k + 1];
    assert sub == Root(x) && sib == Root(y) && n.elems[k] == t.elems[k];
    hide MatchTree, MatchAll, MatchFields, Sound, Distinct, Nodes, AllNodes, Flat;
    var up := ShiftLeft(sub, sib, n.elems[k], x, y, n, h - 1, all);
    var lcount := Recount(n, k, up, sub, sib, a, x', y', b, |Flat(x)|, |Flat(y)|, t.elems[..k], t.elems[k],
      t.elems[k + 1..], h - 1, all);
  }

  /** tree234.c:848-864 and 990-1002: `z`, in one of two neighbouring children of `n`, holds
      what both held; the other child and element `k` go. */
  method CloseGap(n: Node, k: nat, left: Node, right: Node, keepRight: bool, ghost a: seq<Tree>, ghost z: Tree,
                  ghost b: seq<Tree>,
                  ghost sx: int, ghost sy: int, ghost el: seq<Ptr>, ghost e: Ptr, ghost er: seq<Ptr>, ghost h: nat,
                  ghost all: set<Node>)
    requires MatchRest(n, a, left, right, b, sx, sy, el, e, er) && |a| == |el| == k && |b| == |er| && |el| + |er| <= 2
    requires MatchTree(z, n) && Root(z) == (if keepRight then right else left) && Sound(z, h)
    requires n !in Nodes(z) + AllNodes(a) + AllNodes(b) && {n} + Nodes(z) + AllNodes(a) + AllNodes(b) <= all
    requires NULL !in er && null !in Roots(b)
    modifies n
    ensures MatchTree(Fork(n, a + [z] + b, el + er), old(n.parent))
  {
    var count := CountTree(if keepRight then right else left, z, h);
    if keepRight {
      RemoveLeft(n, k, count, Roots(a), left, right, Roots(b), Sizes(a), sx, sy, Sizes(b), el, e, er);
    } else {
      RemoveRight(n, k, count, Roots(a), left, right, Roots(b), Sizes(a), sx, sy, Sizes(b), el, e, er);
    }
    Around(a, z, b);
    MatchAround(a, z, b, n);
  }

  lemma {:induction false} NoNullRoots(ts: seq<Tree>, h: nat)
    requires AllSound(ts, h) && h > 0
    ensures null !in Roots(ts)
  {
    if ts != [] {
      NoNullRoots(ts[1..], h);
      assert Roots(ts) == [Root(ts[0])] + Roots(ts[1..]);
    }
  }

  /** tree234.c:832-864 (`keepRight`) and 975-1002: children `k` and `k + 1`, of one element
      each, are merged around element `k`. */
  method MergeKids(n: Node, k: nat, keepRight: bool, ghost t: Tree, ghost par: Node?, ghost h: nat,
                   ghost all: set<Node>)
    returns (keep: Node)
    requires HasPair(t, k) && t.node == n && MatchTree(t, par) && Distinct(t) && Sound(t, h) && Nodes(t) <= all
    requires HasPair(t.kids[k], 0) && HasPair(t.kids[k + 1], 0) && |t.kids[k].elems| == |t.kids[k + 1].elems| == 1
    modifies Nodes(t)
    ensures var x, y := t.kids[k], t.kids[k + 1];
            && keep == (if keepRight then y.node else x.node)
            && MatchTree(MergedAt(t, k, keepRight), par)
  {
    ghost var a, x, y, b := t.kids[..k], t.kids[k], t.kids[k + 1], t.kids[k + 2..];
    TakeApart(t, k, par, h);
    var left, right := n.kids[k], n.kids[k + 1];
    keep := if keepRight then right else left;
    ghost var z := Merged(keep, x, t.elems[k], y);
    MergedSound(keep, x, t.elems[k], y, h - 1);
    MergedNodes(keep, x, t.elems[k], y);
    PairSelf(t, k);
    SoundPair(a, x, y, b, h - 1);
    NoNullRoots(b, h - 1);
    assert NULL !in t.elems[k + 1..];
    assert left == Root(x) && right == Root(y) && n.elems[k] == t.elems[k];
    hide MatchTree, MatchAll, MatchFields, Sound, Distinct, Nodes, AllNodes, Flat;
    Merge(left, right, keepRight, n.elems[k], x, y, n, all);
    CloseGap(n, k, left, right, keepRight, a, z, b, |Flat(x)|, |Flat(y)|, t.elems[..k], t.elems[k], t.elems[k + 1..],
      h - 1, all);
  }

  // ---------- going down ----------

  /** The focus `q`, `u` stands on a node that can lose an element, and its place `index'`
      is the same element as place `index` of child `k` of `t` was. */
  ghost predicate Entered(tr: Tree234, p: Path, t: Tree, k: nat, index: int, h: nat,
                          q: Path, u: Tree, index': int, all: set<Node>)
    requires t.Fork? && k <= |t.kids| && k <= |t.elems|
    reads tr, all
  {
    && tr.Stale(q, u, |Flat(u)|, all) && Sound(u, h) && PathSound(q, h)
    && u.Fork? && |u.elems| >= 2 && 0 <= index' < |Flat(u)|
    && |Before(q)| + index' == |Before(p)| + Prefix(t.kids, t.elems, k) + index
  }

  /** 3a left, on the way from `n` to its child `k`. */
  method EnterByBorrowLeft(tr: Tree234, n: Node, k: nat, index: int, ghost p: Path, ghost t: Tree, ghost h: nat,
                           ghost all: set<Node>)
    returns (index': int, ghost q: Path, ghost u: Tree)
    requires tr.Stale(p, t, |Flat(t)|, all) && Sound(t, h + 1) && PathSound(p, h + 1) && Root(t) == n
    requires 0 < k <= |t.elems| && h > 0 && |t.kids| == |t.elems| + 1
    requires HasPair(t.kids[k - 1], 1) && HasPair(t.kids[k], 0) && |t.kids[k].elems| == 1
    requires 0 <= index < |Flat(t.kids[k])|
    modifies all
    ensures Entered(tr, p, t, k, index, h, q, u, index', all)
    ensures Whole(q, u) == Whole(p, t) && Root(u) == Root(t.kids[k])
  {
    ghost var t' := BorrowedLeft(t, k - 1);
    BorrowedLeftFacts(t, k - 1, h);
    index' := BorrowLeft(n, k - 1, index, t, Owner(p), h + 1, all);
    tr.DownIn(p, t', k, h, all);
    BeforeEnter(p, t', k);
    q, u := Enter(p, t', k), t'.kids[k];
  }

  /** 3a right, on the way from `n` to its child `k`. */
  method EnterByBorrowRight(tr: Tree234, n: Node, k: nat, index: int, ghost p: Path, ghost t: Tree, ghost h: nat,
                            ghost all: set<Node>)
    returns (ghost q: Path, ghost u: Tree)
    requires tr.Stale(p, t, |Flat(t)|, all) && Sound(t, h + 1) && PathSound(p, h + 1) && Root(t) == n
    requires HasPair(t, k) && h > 0
    requires HasPair(t.kids[k], 0) && |t.kids[k].elems| == 1 && HasPair(t.kids[k + 1], 1)
    requires 0 <= index < |Flat(t.kids[k])|
    modifies all
    ensures Entered(tr, p, t, k, index, h, q, u, index, all)
    ensures Whole(q, u) == Whole(p, t) && Root(u) == Root(t.kids[k])
  {
    ghost var t' := BorrowedRight(t, k);
    BorrowedRightFacts(t, k, h);
    BorrowRight(n, k, t, Owner(p), h + 1, all);
    tr.DownIn(p, t', k, h, all);
    BeforeEnter(p, t', k);
    q, u := Enter(p, t', k), t'.kids[k];
  }

  /** tree234.c:872-875 and 1009-1012. */
  method ShiftRoot(tr: Tree234, n: Node, keep: Node, ghost u: Tree)
    requires MatchTree(u, n) && Root(u) == keep && Distinct(u)
    modifies tr`root, keep
    ensures tr.Stale(Top, u, |Flat(u)|, Nodes(u))
  {
    assert MatchAll(u.kids, keep);
    tr.root := keep;
    keep.parent := null;
  }

  /** Children `k` and `k + 1` of `n` are merged; an emptied root is replaced by the result
      (tree234.c:822-876 and 975-1013). */
  method MergeStep(tr: Tree234, n: Node, k: nat, keepRight: bool, ghost p: Path, ghost t: Tree, ghost h: nat,
                   ghost all: set<Node>)
    returns (keep: Node, ghost q: Path, ghost u: Tree, ghost all': set<Node>)
    requires tr.Stale(p, t, |Flat(t)|, all) && Sound(t, h + 1) && PathSound(p, h + 1) && Root(t) == n
    requires HasPair(t, k) && h > 0 && (p.Step? ==> |t.elems| >= 2)
    requires HasPair(t.kids[k], 0) && HasPair(t.kids[k + 1], 0) && |t.kids[k].elems| == |t.kids[k + 1].elems| == 1
    modifies tr`root, all
    ensures all' <= all && tr.Stale(q, u, |Flat(u)|, all') && Sound(u, h) && PathSound(q, h)
    ensures Root(u) == keep && |u.elems| == 3 && Whole(q, u) == Whole(p, t)
    ensures u == Merged(keep, t.kids[k], t.elems[k], t.kids[k + 1])
    ensures |Before(q)| == |Before(p)| + Prefix(t.kids, t.elems, k)
  {
    ghost var t' := MergedAt(t, k, keepRight);
    MergedAtFacts(t, k, keepRight, h);
    keep := MergeKids(n, k, keepRight, t, Owner(p), h + 1, all);
    all' := Nodes(t') + PathNodes(p);
    u := t'.kids[k];
    assert |t'.elems| == |t.elems| - 1 && (t'.elems != [] ==> t'.elems[0] in t.elems);
    if n.elems[0] == NULL {
      OnlyKid(t', h);
      ShiftRoot(tr, n, keep, u);
      q, all' := Top, Nodes(u);
    } else {
      tr.DownIn(p, t', k, h, all');
      BeforeEnter(p, t', k);
      q := Enter(p, t', k);
    }
  }

  /** 3b, on the way from `n` to its child `k`: it is merged with its left neighbour if it
      has one, otherwise with its right one. */
  method EnterByMerge(tr: Tree234, n: Node, k0: nat, index0: int, ghost p: Path, ghost t: Tree, ghost h: nat,
                      ghost all: set<Node>)
    returns (sub: Node, index: int, ghost q: Path, ghost u: Tree, ghost all': set<Node>)
    requires tr.Stale(p, t, |Flat(t)|, all) && Sound(t, h + 1) && PathSound(p, h + 1) && Root(t) == n
    requires k0 <= |t.elems| && |t.kids| == |t.elems| + 1 && h > 0 && (p.Step? ==> |t.elems| >= 2) && |t.elems| > 0
    requires HasPair(t.kids[k0], 0) && |t.kids[k0].elems| == 1
    requires k0 > 0 ==> HasPair(t.kids[k0 - 1], 0) && |t.kids[k0 - 1].elems| == 1
    requires k0 == 0 ==> HasPair(t.kids[1], 0) && |t.kids[1].elems| == 1
    requires 0 <= index0 < |Flat(t.kids[k0])|
    modifies tr`root, all
    ensures all' <= all && Entered(tr, p, t, k0, index0, h, q, u, index, all')
    ensures Whole(q, u) == Whole(p, t) && Root(u) == sub
  {
    var k;
    k, index := k0, index0;
    if k > 0 {
      k := k - 1;
      assert n.counts[k] == Sizes(t.kids)[k];
      index := index + n.counts[k] + 1;
    }
    MergedAtFacts(t, k, true, h);
    sub, q, u, all' := MergeStep(tr, n, k, true, p, t, h, all);
  }

  /** tree234.c:728-879: from `n` to its child `k`, which is given a second element first if
      it has only one. */
  method EnterKid(tr: Tree234, n: Node, k: nat, index: int, ghost p: Path, ghost t: Tree, ghost h: nat,
                  ghost all: set<Node>)
    returns (sub: Node, index': int, ghost q: Path, ghost u: Tree, ghost all': set<Node>)
    requires tr.Stale(p, t, |Flat(t)|, all) && Sound(t, h + 1) && PathSound(p, h + 1) && Root(t) == n
    requires k <= |t.elems| && |t.kids| == |t.elems| + 1 && h > 0 && (p.Step? ==> |t.elems| >= 2)
    requires 0 <= index < |Flat(t.kids[k])|
    modifies tr`root, all
    ensures all' <= all && Entered(tr, p, t, k, index, h, q, u, index', all')
    ensures Whole(q, u) == Whole(p, t) && Root(u) == sub
  {
    KidFields(t, Owner(p), k, h + 1);
    if k > 0 {
      KidFields(t, Owner(p), k - 1, h + 1);
    }
    if k + 1 < |t.kids| {
      KidFields(t, Owner(p), k + 1, h + 1);
    }
    sub := n.kids[k];
    if sub.elems[1] == NULL {
      if k > 0 && n.kids[k - 1].elems[1] != NULL {
        index', q, u := EnterByBorrowLeft(tr, n, k, index, p, t, h, all);
        all' := all;
      } else if k < 3 && n.kids[k + 1] != null && n.kids[k + 1].elems[1] != NULL {
        q, u := EnterByBorrowRight(tr, n, k, index, p, t, h, all);
        index', all' := index, all;
      } else {
        sub, index', q, u, all' := EnterByMerge(tr, n, k, index, p, t, h, all);
      }
    } else {
      tr.DownIn(p, t, k, h, all);
      BeforeEnter(p, t, k);
      index', q, u, all' := index, Enter(p, t, k), t.kids[k], all;
    }
  }

  /** A child of an inner node, and how its second element place tells whether it has more
      than one element. */
  lemma KidFields(t: Tree, par: Node?, k: nat, h: nat)
    requires t.Fork? && MatchTree(t, par) && Sound(t, h) && k < |t.kids| && h > 1
    ensures var x := t.kids[k];
            && HasPair(x, 0) && |x.elems| <= 3 && t.node.kids[k] == x.node && |x.node.elems| == 3
            && (x.node.elems[1] != NULL <==> |x.elems| >= 2)
  {
    MatchKid(t, par, k, h);
    var x := t.kids[k];
    assert forall i | 0 <= i < |x.elems| :: x.elems[i] in x.elems;
  }

  // ---------- the element itself ----------

  /** The search stands at the subtree `t`, and the wanted element is number `index` of it:
      removing that one from the tree as it is now gives `goal`. */
  ghost predicate Seeking(tr: Tree234, p: Path, t: Tree, index: int, h: nat, all: set<Node>, goal: seq<Ptr>)
    reads tr, all
  {
    && tr.Stale(p, t, |Flat(t)|, all) && Sound(t, h) && PathSound(p, h)
    && 0 <= index < |Flat(t)| && (p.Step? ==> |t.elems| >= 2)
    && var i := |Before(p)| + index; i < |Whole(p, t)| && Removed(Whole(p, t), i) == goal
  }

  /** The search has moved without changing what is sought. */
  lemma SeekFrom(tr: Tree234, p: Path, t: Tree, index: int, goal: seq<Ptr>,
                 q: Path, u: Tree, index': int, h: nat, all: set<Node>)
    requires var i := |Before(p)| + index; 0 <= i < |Whole(p, t)| && Removed(Whole(p, t), i) == goal
    requires Whole(q, u) == Whole(p, t) && |Before(q)| + index' == |Before(p)| + index
    requires tr.Stale(q, u, |Flat(u)|, all) && Sound(u, h) && PathSound(q, h) && u.Fork? && |u.elems| >= 2
    requires 0 <= index' < |Flat(u)|
    ensures Seeking(tr, q, u, index', h, all, goal)
  {
    hide Tree234.Stale, Sound, PathSound, Flat, Whole, Before, Removed;
  }

  lemma SeekFields(tr: Tree234, p: Path, t: Tree, index: int, h: nat, all: set<Node>, goal: seq<Ptr>)
    requires Seeking(tr, p, t, index, h, all, goal)
    ensures tr.Stale(p, t, |Flat(t)|, all) && Sound(t, h) && PathSound(p, h) && h > 0
    ensures t.Fork? && 1 <= |t.elems| <= 3 && |t.kids| == |t.elems| + 1 && (p.Step? ==> |t.elems| >= 2)
    ensures MatchFields(t.node, Roots(t.kids), Sizes(t.kids), t.elems)
    ensures 0 <= index < |Weave(t.kids, t.elems)| && Flat(t) == Weave(t.kids, t.elems) && Root(t) == t.node
    ensures var i := |Before(p)| + index; 0 <= i < |Whole(p, t)| && Removed(Whole(p, t), i) == goal
  {
  }

  /** tree234.c:696-880: down to the node that holds the wanted element as its element `ei`. */
  method Walk(tr: Tree234, n0: Node, index0: int, ghost p0: Path, ghost t0: Tree, ghost h0: nat,
              ghost all0: set<Node>, ghost goal: seq<Ptr>)
    returns (n: Node, ei: nat, ghost p: Path, ghost t: Tree, ghost h: nat, ghost all: set<Node>)
    requires Seeking(tr, p0, t0, index0, h0, all0, goal) && Root(t0) == n0
    modifies tr`root, all0
    ensures all <= all0 && h <= h0 && Root(t) == n && HasPair(t, ei)
    ensures Seeking(tr, p, t, Prefix(t.kids, t.elems, ei) + |Flat(t.kids[ei])|, h, all, goal)
    ensures Whole(p, t) == Whole(p0, t0)
    ensures |Before(p)| + Prefix(t.kids, t.elems, ei) + |Flat(t.kids[ei])| == |Before(p0)| + index0
  {
    hide *;
    n := n0;
    var index := index0;
    p, t, h, all := p0, t0, h0, all0;
    while true
      invariant all <= all0 && h <= h0 && Root(t) == n
      invariant Seeking(tr, p, t, index, h, all, goal) && Whole(p, t) == Whole(p0, t0)
      invariant |Before(p)| + index == |Before(p0)| + index0
      decreases h
    {
      SeekFields(tr, p, t, index, h, all, goal);
      var k, own, rest := Descend(n, index, t.kids, t.elems);
      if own {
        ei := k;
        PairOf(t, ei);
        return;
      }
      n, index, p, t, all := WalkStep(tr, n, index, k, rest, p, t, h, all, goal);
      h := h - 1;
    }
  }

  lemma PairOf(t: Tree, ei: nat)
    requires t.Fork? && |t.kids| == |t.elems| + 1 && ei < |t.elems|
    ensures HasPair(t, ei)
  {
  }

  method WalkStep(tr: Tree234, n: Node, ghost index: int, k: nat, rest: int, ghost p: Path, ghost t: Tree,
                  ghost h: nat, ghost all: set<Node>, ghost goal: seq<Ptr>)
    returns (n': Node, index': int, ghost q: Path, ghost u: Tree, ghost all': set<Node>)
    requires Seeking(tr, p, t, index, h, all, goal) && Root(t) == n
    requires k <= |t.elems| && k < |t.kids| && 0 <= rest < |Flat(t.kids[k])|
               && index == Prefix(t.kids, t.elems, k) + rest
    modifies tr`root, all
    ensures all' <= all && h > 0 && Root(u) == n' && Seeking(tr, q, u, index', h - 1, all', goal)
    ensures Whole(q, u) == Whole(p, t) && |Before(q)| + index' == |Before(p)| + index
  {
    SeekFields(tr, p, t, index, h, all, goal);
    EnterFlat(t, k, h);
    hide Seeking, Whole, Before, Flat, Weave, Prefix, Sound, PathSound;
    n', index', q, u, all' := EnterKid(tr, n, k, rest, p, t, h - 1, all);
    SeekFrom(tr, p, t, index, goal, q, u, index', h - 1, all');
  }

  lemma EnterFlat(t: Tree, k: nat, h: nat)
    requires t.Fork? && Sound(t, h) && k < |t.kids| && Flat(t.kids[k]) != []
    ensures h > 1
  {
    SoundKid(t, h, k);
  }

  /** tree234.c:939-947: the last element of a subtree. */
  method LastElement(m0: Node, ghost t0: Tree, ghost par0: Node?, ghost h0: nat,
                     ghost all: set<Node>) returns (target: Ptr)
    requires MatchTree(t0, par0) && Sound(t0, h0) && Root(t0) == m0 && Nodes(t0) <= all
    ensures Flat(t0) != [] && target == Flat(t0)[|Flat(t0)| - 1] && target != NULL
  {
    var m := m0;
    ghost var t, par, h := t0, par0, h0;
    while m.kids[0] != null
      invariant t.Fork? && MatchTree(t, par) && Sound(t, h) && Root(t) == m && Nodes(t) <= all
      invariant Flat(t0) != [] <==> Flat(t) != []
      invariant Flat(t) != [] ==> Flat(t0)[|Flat(t0)| - 1] == Flat(t)[|Flat(t)| - 1]
      decreases h
    {
      ghost var k := |t.elems|;
      LastKidFacts(t, par, h);
      m := if m.kids[3] != null then m.kids[3]
           else if m.kids[2] != null then m.kids[2]
           else if m.kids[1] != null then m.kids[1]
           else m.kids[0];
      MatchKid(t, par, k, h);
      par := t.node;
      t, h := t.kids[k], h - 1;
    }
    MatchKid(t, par, 0, h);
    LeafFlat(t);
    assert forall i | 0 <= i < |t.elems| :: t.elems[i] in t.elems;
    target := if m.elems[2] != NULL then m.elems[2]
              else if m.elems[1] != NULL then m.elems[1]
              else m.elems[0];
  }

  lemma LastKidFacts(t: Tree, par: Node?, h: nat)
    requires t.Fork? && MatchTree(t, par) && Sound(t, h) && t.node.kids[0] != null
    ensures var k := |t.elems|; var m := t.node;
            && h > 1 && 1 <= k <= 3 && t.kids[k].Fork? && m.kids[k] == t.kids[k].node
            && (forall i | k < i < 4 :: m.kids[i] == null)
            && Flat(t.kids[k]) != [] && Flat(t) != []
            && Flat(t)[|Flat(t)| - 1] == Flat(t.kids[k])[|Flat(t.kids[k])| - 1]
  {
    var k := |t.elems|;
    MatchKid(t, par, 0, h);
    MatchKid(t, par, k, h);
    WeaveAt(t.kids, t.elems, k);
    NotEmpty(t.kids[k], h - 1);
  }

  lemma NotEmpty(t: Tree, h: nat)
    requires t.Fork? && Sound(t, h)
    ensures Flat(t) != []
  {
    WeaveLength(t.kids, t.elems);
    SumNotNegative(t.kids);
  }

  lemma {:induction false} SumNotNegative(ts: seq<Tree>)
    ensures Sum(Sizes(ts)) >= 0
  {
    if ts != [] {
      assert Sizes(ts)[1..] == Sizes(ts[1..]);
      SumNotNegative(ts[1..]);
    }
  }

  /** tree234.c:959-962: the first element of a subtree. */
  method FirstElement(m0: Node, ghost t0: Tree, ghost par0: Node?, ghost h0: nat,
                      ghost all: set<Node>) returns (target: Ptr)
    requires MatchTree(t0, par0) && Sound(t0, h0) && Root(t0) == m0 && Nodes(t0) <= all
    ensures Flat(t0) != [] && target == Flat(t0)[0] && target != NULL
  {
    var m := m0;
    ghost var t, par, h := t0, par0, h0;
    while m.kids[0] != null
      invariant t.Fork? && MatchTree(t, par) && Sound(t, h) && Root(t) == m && Nodes(t) <= all
      invariant Flat(t0) != [] <==> Flat(t) != []
      invariant Flat(t) != [] ==> Flat(t0)[0] == Flat(t)[0]
      decreases h
    {
      MatchKid(t, par, 0, h);
      NotEmpty(t.kids[0], h - 1);
      m := m.kids[0];
      par := t.node;
      t, h := t.kids[0], h - 1;
    }
    MatchKid(t, par, 0, h);
    LeafFlat(t);
    assert t.elems[0] in t.elems;
    target := m.elems[0];
  }

  /** tree234.c:911-915. */
  method RemoveFromLeaf(n: Node, ei: nat, ghost t: Tree, ghost par: Node?)
    requires MatchTree(t, par) && Root(t) == n && Sound(t, 1) && ei < |t.elems| && |t.elems| >= 2 && Distinct(t)
    modifies n
    ensures MatchTree(LeafWithout(t, ei), par)
  {
    ghost var es, s := t.elems, Removed(t.elems, ei);
    assert forall i | 0 <= i < |es| :: es[i] in es;
    LeafWithoutFacts(t, ei);
    LeafStores(t.kids);
    LeafStores(t.kids[1..]);
    var i := ei;
    while i < 2 && n.elems[i + 1] != NULL
      invariant ei <= i < |es|
      invariant n.kids == old(n.kids) && n.counts == old(n.counts) && n.parent == old(n.parent) && |n.elems| == 3
      invariant forall j | 0 <= j < i :: n.elems[j] == s[j]
      invariant forall j | i <= j < 3 :: n.elems[j] == old(n.elems[j])
    {
      n.elems := n.elems[i := n.elems[i + 1]];
      i := i + 1;
    }
    n.elems := n.elems[i := NULL];
    LeafMatch(t.kids[1..], n);
  }

  lemma {:induction false} LeafMatch(ts: seq<Tree>, par: Node?)
    requires AllSound(ts, 0)
    ensures MatchAll(ts, par)
  {
    if ts != [] {
      LeafMatch(ts[1..], par);
    }
  }

  lemma {:induction false} LeafStores(ts: seq<Tree>)
    requires AllSound(ts, 0)
    ensures forall i | 0 <= i < |ts| :: Roots(ts)[i] == null && Sizes(ts)[i] == 0
  {
    if ts != [] {
      LeafStores(ts[1..]);
      assert ts == [ts[0]] + ts[1..];
      RootsCat([ts[0]], ts[1..]);
    }
  }

  method RemoveHere(tr: Tree234, n: Node, ei: nat, ghost p: Path, ghost t: Tree, ghost all: set<Node>)
    requires tr.Stale(p, t, |Flat(t)|, all) && Root(t) == n && Sound(t, 1) && ei < |t.elems| && |t.elems| >= 2
    modifies n
    ensures var u := LeafWithout(t, ei); tr.Stale(p, u, |Flat(u)| + 1, all) && Sound(u, 1)
  {
    LeafWithoutFacts(t, ei);
    RemoveFromLeaf(n, ei, t, Owner(p));
  }

  /** The leaf below `t` has lost an element that the counts above `t` still include. */
  ghost predicate Lowering(tr: Tree234, p: Path, t: Tree, h: nat, all: set<Node>)
    reads tr, all
  {
    tr.Stale(p, t, |Flat(t)| + 1, all) && Sound(t, h) && PathSound(p, h) && t.Fork? && t.node.parent == Owner(p)
  }

  /** tree234.c:920-927. */
  method Lower(tr: Tree234, n0: Node, ghost p0: Path, ghost t0: Tree, ghost h0: nat, ghost all: set<Node>)
    returns (ghost t: Tree, ghost h: nat)
    requires tr.Stale(p0, t0, |Flat(t0)| + 1, all) && Root(t0) == n0 && Sound(t0, h0) && PathSound(p0, h0)
    modifies all
    ensures tr.Stale(Top, t, |Flat(t)|, all) && Sound(t, h) && Flat(t) == Whole(p0, t0)
  {
    var n := n0;
    ghost var p := p0;
    t, h := t0, h0;
    StaleParent(tr, p, t, |Flat(t)| + 1, all);
    while n.parent != null
      invariant Root(t) == n && Lowering(tr, p, t, h, all) && n.parent == Owner(p)
      invariant Whole(p, t) == Whole(p0, t0)
      decreases p
    {
      hide Whole, Lowering, Sound, Flat;
      LowerStep(tr, n, p, t, h, all);
      n := n.parent;
      p, t, h := p.up, Grow(p, t), h + 1;
    }
    LoweredAll(tr, p, t, h, all);
  }

  lemma LoweredAll(tr: Tree234, p: Path, t: Tree, h: nat, all: set<Node>)
    requires Lowering(tr, p, t, h, all) && Owner(p) == null
    ensures tr.Stale(Top, t, |Flat(t)|, all) && Sound(t, h) && Flat(t) == Whole(p, t)
  {
    assert Whole(Top, t) == Flat(t);
  }

  lemma StaleParent(tr: Tree234, p: Path, t: Tree, count: int, all: set<Node>)
    requires tr.Stale(p, t, count, all)
    ensures t.Fork? ==> t.node.parent == Owner(p)
  {
  }

  method LowerStep(tr: Tree234, n: Node, ghost p: Path, ghost t: Tree, ghost h: nat, ghost all: set<Node>)
    requires Lowering(tr, p, t, h, all) && p.Step? && Root(t) == n
    modifies all
    ensures Lowering(tr, p.up, Grow(p, t), h + 1, all)
    ensures Whole(p.up, Grow(p, t)) == Whole(p, t) && n.parent == p.node
  {
    LowerFacts(p, t, h);
    OneLess(tr, n, p, t, |Flat(t)| + 1, h, all);
    GrownParent(tr, p, t, StepCount(p, |Flat(t)| + 1), all);
    StaleParent(tr, p.up, Grow(p, t), StepCount(p, |Flat(t)| + 1), all);
  }

  /** tree234.c:922-926. */
  method OneLess(tr: Tree234, n: Node, ghost p: Path, ghost t: Tree, ghost stale: int, ghost h: nat,
                 ghost all: set<Node>)
    requires tr.Stale(p, t, stale, all) && stale == |Flat(t)| + 1 && p.Step? && Root(t) == n
    requires Sound(t, h) && PathSound(p, h) && n.parent == p.node && |p.left| <= 3
    modifies all
    ensures tr.Stale(p.up, Grow(p, t), StepCount(p, stale), all)
  {
    var k := tr.ChildIndex(n, n.parent, p, stale);
    HoleCount(tr, p, n, stale);
    tr.StoreCount(n, k, n.parent.counts[k] - 1, p, t, stale, h, all);
  }

  lemma LowerFacts(p: Path, t: Tree, h: nat)
    requires p.Step? && Sound(t, h) && PathSound(p, h)
    ensures Sound(Grow(p, t), h + 1) && Whole(p.up, Grow(p, t)) == Whole(p, t)
    ensures StepCount(p, |Flat(t)| + 1) == |Flat(Grow(p, t))| + 1
    ensures |p.left| <= 3 && PathSound(p.up, h + 1)
  {
    SoundAround(p.left, t, p.right, h);
    GrowWhole(p, t);
    hide Whole, Flat;
  }

  lemma HoleCount(tr: Tree234, p: Path, child: Node?, count: int)
    requires p.Step? && tr.MatchPath(p, child, count) && |p.left| <= 3
    ensures |p.node.counts| == 4 && p.node.counts[|p.left|] == count
  {
  }

  lemma GrownParent(tr: Tree234, p: Path, t: Tree, count: int, all: set<Node>)
    requires p.Step? && t.Fork? && tr.Stale(p.up, Grow(p, t), count, all)
    ensures t.node.parent == p.node
  {
    MatchAround(p.left, t, p.right, p.node);
  }

  lemma LeafGoal(p: Path, t: Tree, ei: nat, pos: int)
    requires HasPair(t, ei) && Sound(t, 1) && Distinct(t) && |t.elems| >= 2
    requires pos == Prefix(t.kids, t.elems, ei) + |Flat(t.kids[ei])|
    ensures var i := |Before(p)| + pos;
            && 0 <= i < |Whole(p, t)| && Whole(p, LeafWithout(t, ei)) == Removed(Whole(p, t), i)
            && |Flat(t)| == |Flat(LeafWithout(t, ei))| + 1
  {
    LeafWithoutFacts(t, ei);
    LeafPrefix(t, 1, ei);
    SoundKid(t, 1, ei);
    RemovedInside(Before(p), Flat(t), After(p), ei);
  }

  /** Case 1: tree234.c:905-928. */
  method RemoveLeafCase(tr: Tree234, n: Node, ei: nat, ghost p: Path, ghost t: Tree, ghost h: nat,
                        ghost all: set<Node>, ghost goal: seq<Ptr>)
    returns (ghost t': Tree, ghost h': nat)
    requires Root(t) == n && HasPair(t, ei) && h == 1 && |t.elems| >= 2
    requires Seeking(tr, p, t, Prefix(t.kids, t.elems, ei) + |Flat(t.kids[ei])|, h, all, goal)
    modifies all
    ensures tr.Stale(Top, t', |Flat(t')|, all) && Sound(t', h') && Flat(t') == goal
  {
    ghost var u := LeafWithout(t, ei);
    ghost var pos := Prefix(t.kids, t.elems, ei) + |Flat(t.kids[ei])|;
    SeekFields(tr, p, t, pos, h, all, goal);
    LeafWithoutFacts(t, ei);
    StaleDistinct(tr, p, t, |Flat(t)|, all);
    LeafGoal(p, t, ei, pos);
    hide Removed, Seeking;
    RemoveHere(tr, n, ei, p, t, all);
    t', h' := Lower(tr, n, p, u, 1, all);
  }

  method PutElement(n: Node, ei: nat, e: Ptr, ghost t: Tree, ghost par: Node?)
    requires MatchTree(t, par) && Root(t) == n && HasPair(t, ei) && |t.elems| <= 3 && Distinct(t)
    modifies n
    ensures MatchTree(Replaced(t, ei, e), par)
  {
    n.elems := n.elems[ei := e];
  }

  /** Cases 2a and 2b: element `ei` of `n` is overwritten by its neighbour `target`, which
      stands at place `place` of child `k` and is sought next. */
  method Overwrite(tr: Tree234, n: Node, ei: nat, target: Ptr, k: nat, place: int,
                   ghost p: Path, ghost t: Tree, ghost h: nat, ghost all: set<Node>, ghost goal: seq<Ptr>)
    returns (ghost q: Path, ghost u: Tree)
    requires Root(t) == n && HasPair(t, ei) && h > 1
    requires Seeking(tr, p, t, Prefix(t.kids, t.elems, ei) + |Flat(t.kids[ei])|, h, all, goal)
    requires k == ei || k == ei + 1
    requires place == if k == ei then |Flat(t.kids[k])| - 1 else 0
    requires 0 <= place < |Flat(t.kids[k])| && target == Flat(t.kids[k])[place] && target != NULL
    requires t.kids[k].Fork? && |t.kids[k].elems| >= 2
    modifies n
    ensures Root(u) == Root(t.kids[k]) && Seeking(tr, q, u, place, h - 1, all, goal)
  {
    q, u := Enter(p, Replaced(t, ei, target), k), t.kids[k];
    ghost var pos := Prefix(t.kids, t.elems, ei) + |Flat(t.kids[ei])|;
    SeekFields(tr, p, t, pos, h, all, goal);
    StaleDistinct(tr, p, t, |Flat(t)|, all);
    OverwriteFacts(p, t, ei, target, k, h);
    OverwriteElement(tr, n, ei, target, k, p, t, h, all);
    OverwriteGoal(p, t, ei, target, k, place, q, u, h, pos);
    hide Removed;
    SeekIntro(tr, q, u, place, h - 1, all, goal);
  }

  lemma SeekIntro(tr: Tree234, p: Path, t: Tree, index: int, h: nat, all: set<Node>, goal: seq<Ptr>)
    requires tr.Stale(p, t, |Flat(t)|, all) && Sound(t, h) && PathSound(p, h) && t.Fork? && |t.elems| >= 2
    requires 0 <= index < |Flat(t)|
    requires var i := |Before(p)| + index; i < |Whole(p, t)| && Removed(Whole(p, t), i) == goal
    ensures Seeking(tr, p, t, index, h, all, goal)
  {
  }

  lemma StaleDistinct(tr: Tree234, p: Path, t: Tree, count: int, all: set<Node>)
    requires tr.Stale(p, t, count, all)
    ensures Distinct(t) && Nodes(t) <= all && MatchTree(t, Owner(p))
  {
  }

  method OverwriteElement(tr: Tree234, n: Node, ei: nat, target: Ptr, k: nat,
                          ghost p: Path, ghost t: Tree, ghost h: nat, ghost all: set<Node>)
    requires Root(t) == n && HasPair(t, ei) && h > 0 && k <= |t.elems| && target != NULL
    requires tr.Stale(p, t, |Flat(t)|, all) && Sound(t, h) && PathSound(p, h)
    modifies n
    ensures var q, u := Enter(p, Replaced(t, ei, target), k), t.kids[k];
            && tr.Stale(q, u, |Flat(u)|, all) && Sound(u, h - 1) && PathSound(q, h - 1)
            && Whole(q, u) == Whole(p, Replaced(t, ei, target))
  {
    OverwriteFacts(p, t, ei, target, k, h);
    hide Flat, Whole, Before, Prefix;
    PutElement(n, ei, target, t, Owner(p));
    tr.DownIn(p, Replaced(t, ei, target), k, h - 1, all);
  }

  lemma OverwriteFacts(p: Path, t: Tree, ei: nat, target: Ptr, k: nat, h: nat)
    requires HasPair(t, ei) && Sound(t, h) && Distinct(t) && target != NULL && k <= |t.elems|
    ensures var t' := Replaced(t, ei, target);
            && Sound(t', h) && Distinct(t') && Nodes(t') == Nodes(t) && |Flat(t')| == |Flat(t)|
            && |Before(Enter(p, t', k))| == |Before(p)| + Prefix(t.kids, t.elems, k)
  {
    ReplacedFacts(t, ei, target, h);
    BeforeEnter(p, Replaced(t, ei, target), k);
  }

  lemma OverwriteGoal(p: Path, t: Tree, ei: nat, target: Ptr, k: nat, place: int, q: Path, u: Tree, h: nat, pos: int)
    requires HasPair(t, ei) && Sound(t, h) && Distinct(t) && (k == ei || k == ei + 1)
    requires place == if k == ei then |Flat(t.kids[k])| - 1 else 0
    requires 0 <= place < |Flat(t.kids[k])| && target == Flat(t.kids[k])[place] && target != NULL
    requires q == Enter(p, Replaced(t, ei, target), k) && u == t.kids[k]
    requires Whole(q, u) == Whole(p, Replaced(t, ei, target))
    requires |Before(q)| == |Before(p)| + Prefix(t.kids, t.elems, k)
    requires pos == Prefix(t.kids, t.elems, ei) + |Flat(t.kids[ei])|
    ensures var i, j := |Before(p)| + pos, |Before(q)| + place;
            && 0 <= i < |Whole(p, t)| && j < |Whole(q, u)|
            && Removed(Whole(q, u), j) == Removed(Whole(p, t), i)
  {
    hide Flat, Whole, Before, Prefix, Replaced, Enter, Sound, Distinct, Removed, Nodes;
    var at := Prefix(t.kids, t.elems, k) + place;
    ReplacedFacts(t, ei, target, h);
    KidAt(t, k, place);
    OverwriteIndex(t, ei, k, place);
    CopyBelow(p, t, Replaced(t, ei, target), pos, at);
  }

  lemma CopyBelow(p: Path, t: Tree, t': Tree, pos: int, at: int)
    requires 0 <= pos < |Flat(t)| && 0 <= at < |Flat(t)| && (at == pos + 1 || pos == at + 1)
    requires Flat(t') == Flat(t)[pos := Flat(t)[at]]
    ensures |Before(p)| + pos < |Whole(p, t)| && |Before(p)| + at < |Whole(p, t')|
    ensures Removed(Whole(p, t'), |Before(p)| + at) == Removed(Whole(p, t), |Before(p)| + pos)
  {
    hide Flat, Before, After;
    CopyInside(Before(p), Flat(t), After(p), pos, at);
  }

  lemma OverwriteIndex(t: Tree, ei: nat, k: nat, place: int)
    requires HasPair(t, ei) && (k == ei || k == ei + 1)
    requires place == if k == ei then |Flat(t.kids[k])| - 1 else 0
    ensures var pos, at := Prefix(t.kids, t.elems, ei) + |Flat(t.kids[ei])|, Prefix(t.kids, t.elems, k) + place;
            at == pos + 1 || pos == at + 1
  {
    assert Prefix(t.kids, t.elems, ei + 1) == Prefix(t.kids, t.elems, ei) + |Flat(t.kids[ei])| + 1;
    hide Prefix, Flat;
  }

  lemma KidAt(t: Tree, k: nat, place: nat)
    requires t.Fork? && |t.kids| == |t.elems| + 1 && k < |t.kids| && place < |Flat(t.kids[k])|
    ensures var at := Prefix(t.kids, t.elems, k) + place;
            0 <= at < |Flat(t)| && Flat(t)[at] == Flat(t.kids[k])[place]
  {
    SlotAt(t.kids, t.elems, k);
    WeaveAt(t.kids, t.elems, k);
    Middle(WeaveLeft(t.kids[..k], t.elems[..k]), Flat(t.kids[k]), WeaveRight(t.elems[k..], t.kids[k + 1..]), place);
  }

  lemma Middle<T>(a: seq<T>, b: seq<T>, c: seq<T>, i: nat)
    requires i < |b|
    ensures (a + b + c)[|a| + i] == b[i]
  {
  }

  lemma CopyInside<T>(a: seq<T>, b: seq<T>, c: seq<T>, i: nat, j: nat)
    requires i < |b| && j < |b| && (j == i + 1 || i == j + 1)
    ensures Removed(a + b[i := b[j]] + c, |a| + j) == Removed(a + b + c, |a| + i)
  {
    RemovedInside(a, b, c, i);
    RemovedInside(a, b[i := b[j]], c, j);
    RemovedByCopy(b, i, j);
  }

  /** tree234.c:929-1020, cases 2a, 2b and 2c: the element of an inner node is replaced by a
      neighbour, or its two subtrees are merged around it; the search goes on one level down. */
  method InnerCase(tr: Tree234, n: Node, ei: nat, ghost p: Path, ghost t: Tree, ghost h: nat, ghost all: set<Node>,
                   ghost goal: seq<Ptr>)
    returns (n': Node, index: int, ghost q: Path, ghost u: Tree, ghost all': set<Node>)
    requires Root(t) == n && HasPair(t, ei) && h > 1
    requires Seeking(tr, p, t, Prefix(t.kids, t.elems, ei) + |Flat(t.kids[ei])|, h, all, goal)
    modifies tr`root, all
    ensures all' <= all && Root(u) == n' && Seeking(tr, q, u, index, h - 1, all', goal)
  {
    KidFields(t, Owner(p), ei, h);
    KidFields(t, Owner(p), ei + 1, h);
    MatchKid(t, Owner(p), ei, h);
    MatchKid(t, Owner(p), ei + 1, h);
    var a, b := n.kids[ei], n.kids[ei + 1];
    if a.elems[1] != NULL {
      var target := LastElement(a, t.kids[ei], n, h - 1, all);
      assert n.counts[ei] == Sizes(t.kids)[ei];
      index := n.counts[ei] - 1;
      q, u := Overwrite(tr, n, ei, target, ei, index, p, t, h, all, goal);
      n', all' := a, all;
    } else if b.elems[1] != NULL {
      var target := FirstElement(b, t.kids[ei + 1], n, h - 1, all);
      index := 0;
      q, u := Overwrite(tr, n, ei, target, ei + 1, 0, p, t, h, all, goal);
      n', all' := b, all;
    } else {
      n', index, q, u, all' := MergeCase(tr, n, ei, p, t, h, all, goal);
    }
  }

  /** Case 2c. */
  method MergeCase(tr: Tree234, n: Node, ei: nat, ghost p: Path, ghost t: Tree, ghost h: nat, ghost all: set<Node>,
                   ghost goal: seq<Ptr>)
    returns (a: Node, index: int, ghost q: Path, ghost u: Tree, ghost all': set<Node>)
    requires Root(t) == n && HasPair(t, ei) && h > 1
    requires HasPair(t.kids[ei], 0) && HasPair(t.kids[ei + 1], 0) && |t.kids[ei].elems| == |t.kids[ei + 1].elems| == 1
    requires Seeking(tr, p, t, Prefix(t.kids, t.elems, ei) + |Flat(t.kids[ei])|, h, all, goal)
    modifies tr`root, all
    ensures all' <= all && Root(u) == a && Seeking(tr, q, u, index, h - 1, all', goal)
  {
    ghost var place := Prefix(t.kids, t.elems, ei) + |Flat(t.kids[ei])|;
    SeekFields(tr, p, t, place, h, all, goal);
    MergedAtFacts(t, ei, false, h - 1);
    hide Seeking, Whole, Before, After, Prefix;
    a, q, u, all' := MergeStep(tr, n, ei, false, p, t, h - 1, all);
    MergedIndex(a, t.kids[ei], t.elems[ei], t.kids[ei + 1]);
    FlatMerged(a, t.kids[ei], t.elems[ei], t.kids[ei + 1]);
    hide Flat, Sound;
    assert a.counts[0] == Sizes(u.kids)[0] && a.counts[1] == Sizes(u.kids)[1];
    index := a.counts[0] + a.counts[1] + 1;
    SeekFrom(tr, p, t, place, goal, q, u, index, h - 1, all');
  }

  lemma MergedIndex(n: Node, x: Tree, e: Ptr, y: Tree)
    requires HasPair(x, 0) && |x.elems| == 1 && HasPair(y, 0) && |y.elems| == 1
    ensures var z := Merged(n, x, e, y);
            |z.kids| == 4 && |Flat(z.kids[0])| + |Flat(z.kids[1])| + 1 == |Flat(x)|
  {
    assert x.kids[1..] == [x.kids[1]] && x.elems[1..] == [];
    assert Weave([x.kids[1]], []) == Flat(x.kids[1]);
    assert Merged(n, x, e, y).kids[..2] == x.kids;
  }

  // ---------- the whole deletion ----------

  /** What the fields of the node that holds the wanted element tell. */
  lemma FoundFacts(tr: Tree234, p: Path, t: Tree, ei: nat, h: nat, all: set<Node>)
    requires tr.Stale(p, t, |Flat(t)|, all) && HasPair(t, ei) && Sound(t, h)
    ensures var n, i := t.node, |Before(p)| + Prefix(t.kids, t.elems, ei) + |Flat(t.kids[ei])|;
            && |n.elems| == 3 && |n.kids| == 4 && ei < 3
            && 0 <= i < |Whole(p, t)| && n.elems[ei] == Whole(p, t)[i] && n.elems[ei] != NULL
            && n.parent == Owner(p)
            && (n.kids[0] == null <==> h == 1) && h > 0
            && (n.elems[1] != NULL <==> |t.elems| >= 2)
            && (h == 1 ==> Flat(t) == t.elems)
  {
    MatchKid(t, Owner(p), 0, h);
    assert forall i | 0 <= i < |t.elems| :: t.elems[i] in t.elems;
    FoundElement(p, t, ei);
    if h == 1 {
      LeafFlat(t);
    }
    hide Flat, Before, After, Whole, Prefix;
  }

  lemma FlatFork(t: Tree)
    requires t.Fork?
    ensures Flat(t) == Weave(t.kids, t.elems)
  {
  }

  lemma HasPairFork(t: Tree, ei: nat)
    requires HasPair(t, ei)
    ensures t.Fork? && |t.kids| == |t.elems| + 1 && ei < |t.elems| && Root(t) == t.node
  {
  }

  lemma WholeElement(p: Path, t: Tree, i: int)
    requires 0 <= i < |Flat(t)|
    ensures |Before(p)| + i < |Whole(p, t)| && Whole(p, t)[|Before(p)| + i] == Flat(t)[i]
  {
    hide Flat, Before, After;
    Middle(Before(p), Flat(t), After(p), i);
  }

  lemma FoundElement(p: Path, t: Tree, ei: nat)
    requires HasPair(t, ei)
    ensures var i := |Before(p)| + Prefix(t.kids, t.elems, ei) + |Flat(t.kids[ei])|;
            0 <= i < |Whole(p, t)| && Whole(p, t)[i] == t.elems[ei]
  {
    hide *;
    HasPairFork(t, ei);
    SlotAt(t.kids, t.elems, ei);
    FlatFork(t);
    WholeElement(p, t, Prefix(t.kids, t.elems, ei) + |Flat(t.kids[ei])|);
  }

  /** One round of the outer loop, from the node found by the inner one. */
  method Round(tr: Tree234, n: Node, ei: nat, ghost p: Path, ghost t: Tree, ghost h: nat, ghost all: set<Node>,
               ghost goal: seq<Ptr>)
    returns (done: bool, n': Node?, index: int, ghost q: Path, ghost u: Tree, ghost all': set<Node>)
    requires Root(t) == n && HasPair(t, ei)
    requires Seeking(tr, p, t, Prefix(t.kids, t.elems, ei) + |Flat(t.kids[ei])|, h, all, goal)
    modifies tr, all
    ensures all' <= all
    ensures done ==> tr.Valid() && tr.Contents() == goal && tr.linked == all'
    ensures !done ==> h > 0 && n' != null && Root(u) == n' && Seeking(tr, q, u, index, h - 1, all', goal)
  {
    FoundFacts(tr, p, t, ei, h, all);
    done, n', index, q, u, all' := true, n, 0, p, t, all;
    if n.parent == null && n.elems[1] == NULL && n.kids[0] == null {
      LastOne(t, ei);
      tr.root := null;
      tr.Conclude(Leaf, 0, {});
      all' := {};
    } else if n.kids[0] == null && n.elems[1] != NULL {
      ghost var h';
      u, h' := RemoveLeafCase(tr, n, ei, p, t, h, all, goal);
      tr.Conclude(u, h', all);
    } else {
      done := false;
      n', index, q, u, all' := InnerCase(tr, n, ei, p, t, h, all, goal);
    }
  }

  /** The tree of a single element. */
  lemma LastOne(t: Tree, ei: nat)
    requires HasPair(t, ei) && Flat(t) == t.elems && |t.elems| == 1
    ensures var i := Prefix(t.kids, t.elems, ei) + |Flat(t.kids[ei])|;
            i == 0 && Removed(Whole(Top, t), 0) == []
  {
    SlotAt(t.kids, t.elems, ei);
  }

  /** `delpos234_internal`. */
  method DeleteAt(tr: Tree234, index0: int) returns (retval: Ptr)
    requires tr.Valid() && 0 <= index0 < |tr.Contents()|
    modifies tr, tr.linked
    ensures tr.Valid() && tr.linked <= old(tr.linked)
    ensures retval == old(tr.Contents())[index0] && retval != NULL
    ensures tr.Contents() == Removed(old(tr.Contents()), index0)
  {
    hide *;
    ghost var s := tr.Contents();
    ghost var goal := Removed(s, index0);
    var n, index := tr.root, index0;
    ghost var p, t, h, all := Top, tr.shape, tr.height, tr.linked;
    SeekStart(tr, index0);
    retval := NULL;
    while true
      invariant all <= old(tr.linked) && n != null && Root(t) == n
      invariant Seeking(tr, p, t, index, h, all, goal)
      invariant if retval == NULL then Whole(p, t) == s && |Before(p)| + index == index0 else retval == s[index0]
      decreases h
    {
      var ei, done;
      n, ei, p, t, h, all := Walk(tr, n, index, p, t, h, all, goal);
      HasPairFork(t, ei);
      SeekFields(tr, p, t, Prefix(t.kids, t.elems, ei) + |Flat(t.kids[ei])|, h, all, goal);
      FoundFacts(tr, p, t, ei, h, all);
      if retval == NULL {
        retval := n.elems[ei];
      }
      done, n, index, p, t, all := Round(tr, n, ei, p, t, h, all, goal);
      if done {
        return;
      }
      h := h - 1;
    }
  }

  lemma SeekStart(tr: Tree234, index: int)
    requires tr.Valid() && 0 <= index < |tr.Contents()|
    ensures tr.root != null && Root(tr.shape) == tr.root && Whole(Top, tr.shape) == tr.Contents() && |Before(Top)| == 0
    ensures Seeking(tr, Top, tr.shape, index, tr.height, tr.linked, Removed(tr.Contents(), index))
  {
    assert Whole(Top, tr.shape) == tr.Contents();
  }

  /** `delpos234`. */
  method DelPos(tr: Tree234, index: int) returns (r: Ptr)
    requires tr.Valid()
    modifies tr, tr.linked
    ensures tr.Valid() && tr.linked <= old(tr.linked)
    ensures 0 <= index < |old(tr.Contents())| ==>
              r == old(tr.Contents())[index] && r != NULL && tr.Contents() == Removed(old(tr.Contents()), index)
    ensures !(0 <= index < |old(tr.Contents())|) ==> r == NULL && tr.Contents() == old(tr.Contents())
  {
    var count := CountTree(tr.root, tr.shape, tr.height);
    if index < 0 || index >= count {
      return NULL;
    }
    r := DeleteAt(tr, index);
  }

  /** `del234`: removes an element that compares equal to `e`, if there is one. */
  method Del(tr: Tree234, e: Ptr) returns (r: Ptr)
    requires tr.Valid() && e != NULL && tr.cmp.Some? && Monotone(tr.cmp.value, e, tr.Contents())
    modifies tr, tr.linked
    ensures tr.Valid() && tr.linked <= old(tr.linked)
    ensures if exists x :: x in old(tr.Contents()) && tr.cmp.value(e, x) == 0
            then exists i | 0 <= i < |old(tr.Contents())| ::
                   && r == old(tr.Contents())[i] && tr.cmp.value(e, r) == 0
                   && tr.Contents() == Removed(old(tr.Contents()), i)
            else r == NULL && tr.Contents() == old(tr.Contents())
  {
    ghost var s, f := tr.Contents(), tr.cmp.value;
    var index;
    r, index := FindRelPos(tr, e, None, EQ);
    assert r == NULL ==> forall i | 0 <= i < |s| :: EQ.Accepts(Compare(f, e, EQ, s[i])) <==> f(e, s[i]) == 0;
    if r == NULL {
      return;
    }
    r := DeleteAt(tr, index);
  }
}
