/** tree234.c on the heap. */
module CountedTree {
  import opened CountedShape
  import opened CountedEnd

  /** `n` stores these subtree roots, subtree sizes and elements; the unused places of its
      three arrays hold NULL, 0 and NULL. */
  ghost predicate MatchFields(n: Node, roots: seq<Node?>, sizes: seq<int>, es: seq<Ptr>)
    reads n
  {
    && |n.kids| == 4 && |n.counts| == 4 && |n.elems| == 3
    && (forall i | 0 <= i < 4 :: n.kids[i] == if i < |roots| then roots[i] else null)
    && (forall i | 0 <= i < 4 :: n.counts[i] == if i < |sizes| then sizes[i] else 0)
    && (forall i | 0 <= i < 3 :: n.elems[i] == if i < |es| then es[i] else NULL)
  }

  /** The links below `t` are those of `t`, and its root hangs from `parent`. */
  ghost predicate MatchTree(t: Tree, parent: Node?)
    reads Nodes(t)
    decreases t, 0
  {
    t.Fork? ==>
      && t.node.parent == parent
      && MatchFields(t.node, Roots(t.kids), Sizes(t.kids), t.elems)
      && MatchAll(t.kids, t.node)
  }

  ghost predicate MatchAll(ts: seq<Tree>, parent: Node?)
    reads AllNodes(ts)
    decreases ts, 2
  {
    ts != [] ==> MatchTree(ts[0], parent) && MatchAll(ts[1..], parent)
  }

  lemma {:induction false} MatchCat(a: seq<Tree>, b: seq<Tree>, parent: Node?)
    ensures MatchAll(a + b, parent) <==> MatchAll(a, parent) && MatchAll(b, parent)
  {
    if a == [] {
      assert a + b == b;
    } else {
      assert (a + b)[1..] == a[1..] + b;
      MatchCat(a[1..], b, parent);
    }
  }

  lemma MatchAround(a: seq<Tree>, t: Tree, b: seq<Tree>, parent: Node?)
    ensures MatchAll(a + [t] + b, parent) <==> MatchAll(a, parent) && MatchTree(t, parent) && MatchAll(b, parent)
  {
    MatchCat(a, [t], parent);
    MatchCat(a + [t], b, parent);
  }

  /** The node that owns the hole of `p` stores what `p` says, and `child` with `count`
      elements in the hole. */
  ghost predicate MatchOwner(p: Path, child: Node?, count: int)
    requires p.Step?
    reads {p.node} + AllNodes(p.left) + AllNodes(p.right)
  {
    && MatchFields(p.node, Roots(p.left) + [child] + Roots(p.right), Sizes(p.left) + [count] + Sizes(p.right),
       p.el + p.er)
    && MatchAll(p.left, p.node) && MatchAll(p.right, p.node)
  }

  /** The links below `t` are those of `t`, wherever its root hangs. */
  ghost predicate MatchBelow(t: Tree)
    reads Nodes(t)
  {
    t.Fork? ==> MatchTree(t, t.node.parent)
  }

  ghost predicate AllBelow(ts: seq<Tree>)
    reads AllNodes(ts)
  {
    ts != [] ==> MatchBelow(ts[0]) && AllBelow(ts[1..])
  }

  lemma {:induction false} BelowCat(a: seq<Tree>, b: seq<Tree>)
    ensures AllBelow(a + b) <==> AllBelow(a) && AllBelow(b)
  {
    if a == [] {
      assert a + b == b;
    } else {
      assert (a + b)[1..] == a[1..] + b;
      BelowCat(a[1..], b);
    }
  }

  lemma BelowPair(a: seq<Tree>, x: Tree, y: Tree, b: seq<Tree>)
    ensures AllBelow(a + [x, y] + b) <==> AllBelow(a) && MatchBelow(x) && MatchBelow(y) && AllBelow(b)
  {
    BelowCat(a, [x, y]);
    BelowCat(a + [x, y], b);
    BelowCat([x], [y]);
    assert [x] + [y] == [x, y];
  }

  lemma {:induction false} MatchIsBelow(ts: seq<Tree>, parent: Node?)
    requires MatchAll(ts, parent)
    ensures AllBelow(ts)
  {
    if ts != [] {
      MatchIsBelow(ts[1..], parent);
    }
  }

  method AdoptOne(child: Node?, n: Node, ghost t: Tree)
    requires Root(t) == child && MatchBelow(t) && Distinct(t)
    modifies child
    ensures MatchTree(t, n)
  {
    if child != null {
      assert MatchAll(t.kids, child);
      child.parent := n;
    }
  }

  /** Makes `n` the parent of all its children. */
  method AdoptKids(n: Node, ghost ts: seq<Tree>, ghost all: set<Node>)
    requires |n.kids| == 4 && |ts| <= 4 && AllNodes(ts) <= all
    requires forall i | 0 <= i < 4 :: n.kids[i] == if i < |ts| then Root(ts[i]) else null
    requires AllBelow(ts) && AllDistinct(ts) && n !in AllNodes(ts)
    modifies AllNodes(ts)
    ensures MatchAll(ts, n)
  {
    assert ts[..0] == [] && ts[0..] == ts;
    hide MatchFields, Distinct;
    for i := 0 to 4
      invariant i <= |ts| ==> MatchAll(ts[..i], n) && AllBelow(ts[i..])
      invariant i >= |ts| ==> MatchAll(ts, n)
    {
      ghost var t := if i < |ts| then ts[i] else Leaf;
      ghost var done, rest := if i < |ts| then ts[..i] else [], if i < |ts| then ts[i + 1..] else [];
      if i < |ts| {
        assert ts == done + [t] + rest;
        Around(done, t, rest);
        assert ts[i..] == [t] + rest && ts[..i + 1] == done + [t];
      }
      AdoptOne(n.kids[i], n, t);
      if i < |ts| {
        MatchCat(done, [t], n);
        assert i + 1 == |ts| ==> ts[..i + 1] == ts;
      }
    }
  }

  lemma MatchKid(t: Tree, parent: Node?, k: nat, h: nat)
    requires t.Fork? && MatchTree(t, parent) && Sound(t, h) && k < |t.kids|
    ensures h > 0 && MatchTree(t.kids[k], t.node) && Sound(t.kids[k], h - 1)
    ensures t.node.kids[k] == Root(t.kids[k])
    ensures h > 1 <==> t.kids[k].Fork?
    ensures Nodes(t.kids[k]) <= Nodes(t)
  {
    var a, b := t.kids[..k], t.kids[k + 1..];
    Around(a, t.kids[k], b);
    assert a + [t.kids[k]] + b == t.kids;
    MatchAround(a, t.kids[k], b, t.node);
    SoundAround(a, t.kids[k], b, h - 1);
    assert t.node.kids[k] == Roots(t.kids)[k];
  }

  ghost function NodeCount(n: Node): int
    requires |n.counts| == 4 && |n.elems| == 3
    reads n
  {
    n.counts[0] + n.counts[1] + n.counts[2] + n.counts[3]
    + (if n.elems[0] != NULL then 1 else 0) + (if n.elems[1] != NULL then 1 else 0)
    + (if n.elems[2] != NULL then 1 else 0)
  }

  /** `countnode234`. */
  method CountNode(n: Node?) returns (count: int)
    requires n != null ==> |n.counts| == 4 && |n.elems| == 3
    ensures count == if n == null then 0 else NodeCount(n)
  {
    count := 0;
    if n == null {
      return;
    }
    for i := 0 to 4
      invariant i == 0 ==> count == 0
      invariant i == 1 ==> count == n.counts[0]
      invariant i == 2 ==> count == n.counts[0] + n.counts[1]
      invariant i == 3 ==> count == n.counts[0] + n.counts[1] + n.counts[2]
      invariant i == 4 ==> count == n.counts[0] + n.counts[1] + n.counts[2] + n.counts[3]
    {
      count := count + n.counts[i];
    }
    ghost var kids := count;
    for i := 0 to 3
      invariant i == 0 ==> count == kids
      invariant i == 1 ==> count == kids + if n.elems[0] != NULL then 1 else 0
      invariant i == 2 ==> count == kids + (if n.elems[0] != NULL then 1 else 0) + if n.elems[1] != NULL then 1 else 0
      invariant i == 3 ==> count == NodeCount(n)
    {
      if n.elems[i] != NULL {
        count := count + 1;
      }
    }
  }

  lemma NodeCountIsSize(t: Tree, h: nat)
    requires t.Fork? && Sound(t, h)
    requires MatchFields(t.node, Roots(t.kids), Sizes(t.kids), t.elems)
    ensures NodeCount(t.node) == |Flat(t)|
  {
    var n, s := t.node, Sizes(t.kids);
    WeaveLength(t.kids, t.elems);
    assert forall i | 0 <= i < |t.elems| :: t.elems[i] in t.elems;
    SumOfFour(s, n.counts);
  }

  method CountTree(n: Node?, ghost t: Tree, ghost h: nat) returns (count: int)
    requires MatchBelow(t) && Sound(t, h) && Root(t) == n
    ensures count == |Flat(t)|
  {
    count := CountNode(n);
    if t.Fork? {
      NodeCountIsSize(t, h);
    }
  }

  lemma SumOfFour(s: seq<int>, c: seq<int>)
    requires 1 <= |s| <= 4 && |c| == 4
    requires forall i | 0 <= i < 4 :: c[i] == if i < |s| then s[i] else 0
    ensures Sum(s) == c[0] + c[1] + c[2] + c[3]
  {
    assert |s| > 1 ==> s[1..][0] == s[1];
    assert |s| > 2 ==> s[1..][1..] == s[2..] && s[2..][0] == s[2];
    assert |s| > 3 ==> s[2..][1..] == s[3..] && s[3..][0] == s[3];
    assert |s| > 1 ==> Sum(s[1..]) == s[1] + Sum(s[2..]);
    assert |s| > 2 ==> Sum(s[2..]) == s[2] + Sum(s[3..]);
  }

  lemma DescendFinds(n: Node, index: int, k: nat, rest: int, ts: seq<Tree>, es: seq<Ptr>)
    requires MatchFields(n, Roots(ts), Sizes(ts), es) && 1 <= |es| <= 3 && |ts| == |es| + 1
    requires k < |ts| && 0 <= index < |Weave(ts, es)|
    ensures n.kids[k] == Root(ts[k])
    ensures k < |es| && index == Prefix(ts, es, k) + |Flat(ts[k])| ==> n.elems[k] == es[k] == Weave(ts, es)[index]
    ensures 0 <= rest < |Flat(ts[k])| && index == Prefix(ts, es, k) + rest ==> Weave(ts, es)[index] == Flat(ts[k])[rest]
  {
    WeaveAt(ts, es, k);
    assert n.kids[k] == Roots(ts)[k];
  }

  /** The chain of tests on the child counts shared by `index234` and
      `delpos234_internal`: is element `index` of this node its `k`-th own element, or
      element `rest` of its `k`-th subtree? */
  method Descend(n: Node, index: int, ghost ts: seq<Tree>, ghost es: seq<Ptr>)
    returns (k: nat, own: bool, rest: int)
    requires MatchFields(n, Roots(ts), Sizes(ts), es) && 1 <= |es| <= 3 && |ts| == |es| + 1
    requires 0 <= index < |Weave(ts, es)|
    ensures k <= |es|
    ensures own ==> k < |es| && index == Prefix(ts, es, k) + |Flat(ts[k])|
    ensures !own ==> 0 <= rest < |Flat(ts[k])| && index == Prefix(ts, es, k) + rest
  {
    WeaveAt(ts, es, |es|);
    assert Prefix(ts, es, 1) == |Flat(ts[0])| + 1;
    rest := index;
    if rest < n.counts[0] {
      return 0, false, rest;
    }
    rest := rest - (n.counts[0] + 1);
    if rest < 0 {
      return 0, true, rest;
    } else if rest < n.counts[1] {
      return 1, false, rest;
    }
    rest := rest - (n.counts[1] + 1);
    assert |es| >= 2 ==> Prefix(ts, es, 2) == Prefix(ts, es, 1) + |Flat(ts[1])| + 1;
    if rest < 0 {
      return 1, true, rest;
    } else if rest < n.counts[2] {
      return 2, false, rest;
    }
    rest := rest - (n.counts[2] + 1);
    if rest < 0 {
      return 2, true, rest;
    }
    return 3, false, rest;
  }

  /** tree234.c:492-509. */
  method LookUp(n0: Node, index0: int, ghost parent0: Node?, ghost t0: Tree, ghost h0: nat, ghost all: set<Node>)
    returns (e: Ptr)
    requires Nodes(t0) <= all && MatchTree(t0, parent0) && Sound(t0, h0) && Root(t0) == n0
    requires 0 <= index0 < |Flat(t0)|
    ensures e == Flat(t0)[index0]
  {
    var n, index := n0, index0;
    ghost var parent, t, h := parent0, t0, h0;
    while n != null
      invariant Nodes(t) <= all && MatchTree(t, parent) && Sound(t, h) && Root(t) == n
      invariant 0 <= index < |Flat(t)| && Flat(t)[index] == Flat(t0)[index0]
      decreases h
    {
      var k, own, rest := Descend(n, index, t.kids, t.elems);
      DescendFinds(n, index, k, rest, t.kids, t.elems);
      if own {
        return n.elems[k];
      }
      MatchKid(t, parent, k, h);
      parent, t, h := n, t.kids[k], h - 1;
      n, index := n.kids[k], rest;
    }
    assert false;
  }

  /** Child number `at` is the hole, or an absent child; the code treats that like the last one. */
  ghost predicate HoleAt(at: nat, el: seq<Ptr>, er: seq<Ptr>) {
    at == |el| || (er == [] && at > |el|)
  }

  /** tree234.c:238-302: `n` has room for `e` between `left` and `right` at place `at`. */
  method InsertHere(n: Node, at: nat, left: Node?, lcount: int, e: Ptr, right: Node?, rcount: int,
                    ghost rl: seq<Node?>, ghost old_: Node?, ghost rr: seq<Node?>,
                    ghost sl: seq<int>, ghost count: int, ghost sr: seq<int>,
                    ghost el: seq<Ptr>, ghost er: seq<Ptr>)
    requires MatchFields(n, rl + [old_] + rr, sl + [count] + sr, el + er)
    requires |rl| == |sl| == |el| && |rr| == |sr| == |er| && 1 <= |el| + |er| <= 2 && HoleAt(at, el, er)
    requires NULL !in el && NULL !in er
    modifies n
    ensures n.parent == old(n.parent)
    ensures MatchFields(n, rl + [left, right] + rr, sl + [lcount, rcount] + sr, el + [e] + er)
  {
    assert n.elems[0] in el + er && (n.elems[1] != NULL ==> |el| + |er| == 2);
    assert |el| + |er| == 2 ==> n.elems[1] == (el + er)[1] && (el + er)[1] in el + er;
    if n.elems[1] == NULL {
      if at == 0 {
        n.kids := [left, right, n.kids[1], n.kids[3]];
        n.counts := [lcount, rcount, n.counts[1], n.counts[3]];
        n.elems := [e, n.elems[0], n.elems[2]];
      } else {
        n.kids := [n.kids[0], left, right, n.kids[3]];
        n.counts := [n.counts[0], lcount, rcount, n.counts[3]];
        n.elems := [n.elems[0], e, n.elems[2]];
      }
    } else {
      if at == 0 {
        n.kids := [left, right, n.kids[1], n.kids[2]];
        n.counts := [lcount, rcount, n.counts[1], n.counts[2]];
        n.elems := [e, n.elems[0], n.elems[1]];
      } else if at == 1 {
        n.kids := [n.kids[0], left, right, n.kids[2]];
        n.counts := [n.counts[0], lcount, rcount, n.counts[2]];
        n.elems := [n.elems[0], e, n.elems[1]];
      } else {
        n.kids := [n.kids[0], n.kids[1], left, right];
        n.counts := [n.counts[0], n.counts[1], lcount, rcount];
        n.elems := [n.elems[0], n.elems[1], e];
      }
    }
  }

  /** `s` with `x`, `y` instead of its member number `at`. */
  ghost function Widen<T>(s: seq<T>, at: nat, x: T, y: T): seq<T>
    requires at < |s|
  {
    s[..at] + [x, y] + s[at + 1..]
  }

  /** tree234.c:325-388: `n` is full; `m` takes the first three of the five subtrees and the
      first two of the four elements, `n` the last two subtrees and the last element. */
  method SplitNode(n: Node, m: Node, at: nat, left: Node?, lcount: int, e: Ptr, right: Node?, rcount: int)
    returns (e': Ptr)
    requires |n.kids| == 4 && |n.counts| == 4 && |n.elems| == 3 && m != n && at < 4
    modifies n, m
    ensures n.parent == old(n.parent) && m.parent == old(m.parent)
    ensures m.kids == Widen(old(n.kids), at, left, right)[..3] + [null]
    ensures n.kids == Widen(old(n.kids), at, left, right)[3..] + [null, null]
    ensures m.counts == Widen(old(n.counts), at, lcount, rcount)[..3] + [0]
    ensures n.counts == Widen(old(n.counts), at, lcount, rcount)[3..] + [0, 0]
    ensures var es := old(n.elems)[..at] + [e] + old(n.elems)[at..];
            m.elems == es[..2] + [NULL] && n.elems == es[3..] + [NULL, NULL] && e' == es[2]
  {
    if at < 2 {
      e' := SplitLow(n, m, at, left, lcount, e, right, rcount);
    } else {
      e' := SplitHigh(n, m, at, left, lcount, e, right, rcount);
    }
  }

  method SplitLow(n: Node, m: Node, at: nat, left: Node?, lcount: int, e: Ptr, right: Node?, rcount: int)
    returns (e': Ptr)
    requires |n.kids| == 4 && |n.counts| == 4 && |n.elems| == 3 && m != n && at < 2
    modifies n, m
    ensures n.parent == old(n.parent) && m.parent == old(m.parent)
    ensures m.kids == Widen(old(n.kids), at, left, right)[..3] + [null]
    ensures n.kids == Widen(old(n.kids), at, left, right)[3..] + [null, null]
    ensures m.counts == Widen(old(n.counts), at, lcount, rcount)[..3] + [0]
    ensures n.counts == Widen(old(n.counts), at, lcount, rcount)[3..] + [0, 0]
    ensures var es := old(n.elems)[..at] + [e] + old(n.elems)[at..];
            m.elems == es[..2] + [NULL] && n.elems == es[3..] + [NULL, NULL] && e' == es[2]
  {
    WidenParts(n.kids, at, left, right, null);
    WidenParts(n.counts, at, lcount, rcount, 0);
    PutParts(n.elems, at, e, NULL);
    hide Widen;
    if at == 0 {
      m.kids := [left, right, n.kids[1], null];
      m.counts := [lcount, rcount, n.counts[1], 0];
      m.elems := [e, n.elems[0], NULL];
    } else {
      m.kids := [n.kids[0], left, right, null];
      m.counts := [n.counts[0], lcount, rcount, 0];
      m.elems := [n.elems[0], e, NULL];
    }
    e' := n.elems[1];
    n.kids := [n.kids[2], n.kids[3], null, null];
    n.counts := [n.counts[2], n.counts[3], 0, 0];
    n.elems := [n.elems[2], NULL, NULL];
  }

  method SplitHigh(n: Node, m: Node, at: nat, left: Node?, lcount: int, e: Ptr, right: Node?, rcount: int)
    returns (e': Ptr)
    requires |n.kids| == 4 && |n.counts| == 4 && |n.elems| == 3 && m != n && 2 <= at < 4
    modifies n, m
    ensures n.parent == old(n.parent) && m.parent == old(m.parent)
    ensures m.kids == Widen(old(n.kids), at, left, right)[..3] + [null]
    ensures n.kids == Widen(old(n.kids), at, left, right)[3..] + [null, null]
    ensures m.counts == Widen(old(n.counts), at, lcount, rcount)[..3] + [0]
    ensures n.counts == Widen(old(n.counts), at, lcount, rcount)[3..] + [0, 0]
    ensures var es := old(n.elems)[..at] + [e] + old(n.elems)[at..];
            m.elems == es[..2] + [NULL] && n.elems == es[3..] + [NULL, NULL] && e' == es[2]
  {
    WidenParts(n.kids, at, left, right, null);
    WidenParts(n.counts, at, lcount, rcount, 0);
    PutParts(n.elems, at, e, NULL);
    hide Widen;
    if at == 2 {
      m.kids := [n.kids[0], n.kids[1], left, null];
      m.counts := [n.counts[0], n.counts[1], lcount, 0];
      m.elems := [n.elems[0], n.elems[1], NULL];
      e' := e;
      n.kids := [right, n.kids[3], null, null];
      n.counts := [rcount, n.counts[3], 0, 0];
      n.elems := [n.elems[2], NULL, NULL];
    } else {
      m.kids := [n.kids[0], n.kids[1], n.kids[2], null];
      m.counts := [n.counts[0], n.counts[1], n.counts[2], 0];
      m.elems := [n.elems[0], n.elems[1], NULL];
      e' := n.elems[2];
      n.kids := [left, right, null, null];
      n.counts := [lcount, rcount, 0, 0];
      n.elems := [e, NULL, NULL];
    }
  }

  /** The first three and the last two of five, and what fills up the rest. */
  lemma WidenParts<T>(s: seq<T>, at: nat, x: T, y: T, none: T)
    requires |s| == 4 && at < 4
    ensures Widen(s, at, x, y)[..3] + [none]
         == if at == 0 then [x, y, s[1], none] else if at == 1 then [s[0], x, y, none]
            else if at == 2 then [s[0], s[1], x, none] else [s[0], s[1], s[2], none]
    ensures Widen(s, at, x, y)[3..] + [none, none]
         == if at < 2 then [s[2], s[3], none, none] else if at == 2 then [y, s[3], none, none] else [x, y, none, none]
  {
  }

  /** The first two, the third and the last of four. */
  lemma PutParts<T>(s: seq<T>, at: nat, e: T, none: T)
    requires |s| == 3 && at < 4
    ensures var es := s[..at] + [e] + s[at..];
            && es[..2] + [none]
               == (if at == 0 then [e, s[0], none] else if at == 1 then [s[0], e, none] else [s[0], s[1], none])
            && es[2] == (if at < 2 then s[1] else if at == 2 then e else s[2])
            && es[3..] + [none, none] == [if at < 3 then s[2] else e, none, none]
  {
  }

  /** tree234.c:238-312, without what lies above `n`. */
  method PlaceLocal(n: Node, at: nat, left: Node?, lcount: int, e: Ptr, right: Node?, rcount: int,
                    ghost p: Path, ghost hole: Node?, ghost count: int, ghost l: Tree, ghost r: Tree,
                    ghost all: set<Node>)
    requires p.Step? && p.node == n && |p.left| == |p.el| && HoleAt(at, p.el, p.er) && |p.right| == |p.er|
    requires 1 <= |p.el| + |p.er| <= 2 && NULL !in p.el && NULL !in p.er
    requires MatchOwner(p, hole, count) && MatchBelow(l) && MatchBelow(r)
    requires Root(l) == left && Root(r) == right && |Flat(l)| == lcount && |Flat(r)| == rcount
    requires Distinct(Widened(p, l, e, r)) && Nodes(Widened(p, l, e, r)) <= all
    modifies Nodes(Widened(p, l, e, r))
    ensures MatchTree(Widened(p, l, e, r), old(n.parent))
  {
    ghost var ts := p.left + [l, r] + p.right;
    AroundPair(p.left, l, r, p.right);
    MatchIsBelow(p.left, n);
    MatchIsBelow(p.right, n);
    BelowPair(p.left, l, r, p.right);
    InsertHere(n, at, left, lcount, e, right, rcount, Roots(p.left), hole, Roots(p.right),
               Sizes(p.left), count, Sizes(p.right), p.el, p.er);
    AdoptKids(n, ts, all);
  }

  /** `SplitNode`, said of subtrees. */
  method SplitFields(n: Node, m: Node, at: nat, left: Node?, lcount: int, e: Ptr, right: Node?, rcount: int,
                     ghost p: Path, ghost hole: Node?, ghost count: int, ghost l: Tree, ghost r: Tree)
    returns (e': Ptr)
    requires p.Step? && |p.left| == |p.el| == at && |p.right| == |p.er| && |p.el| + |p.er| == 3 && m != n
    requires MatchFields(n, Roots(p.left) + [hole] + Roots(p.right), Sizes(p.left) + [count] + Sizes(p.right),
               p.el + p.er)
    requires Root(l) == left && Root(r) == right && |Flat(l)| == lcount && |Flat(r)| == rcount
    modifies n, m
    ensures n.parent == old(n.parent) && m.parent == old(m.parent)
    ensures var t := Widened(p, l, e, r);
            && MatchFields(m, Roots(t.kids[..3]), Sizes(t.kids[..3]), t.elems[..2])
            && MatchFields(n, Roots(t.kids[3..]), Sizes(t.kids[3..]), t.elems[3..])
            && e' == t.elems[2]
  {
    FullFields(n, Roots(p.left) + [hole] + Roots(p.right), Sizes(p.left) + [count] + Sizes(p.right), p.el + p.er);
    WidenStored(p, hole, count, l, e, r);
    ghost var t := Widened(p, l, e, r);
    hide *;
    SplitStored(t.kids, t.elems);
    e' := SplitNode(n, m, at, left, lcount, e, right, rcount);
    StoredFields(n, Roots(t.kids[3..]), Sizes(t.kids[3..]), t.elems[3..]);
    StoredFields(m, Roots(t.kids[..3]), Sizes(t.kids[..3]), t.elems[..2]);
  }

  lemma FullFields(n: Node, roots: seq<Node?>, sizes: seq<int>, es: seq<Ptr>)
    requires MatchFields(n, roots, sizes, es) && |roots| == |sizes| == 4 && |es| == 3
    ensures n.kids == roots && n.counts == sizes && n.elems == es
  {
  }

  lemma StoredFields(n: Node, roots: seq<Node?>, sizes: seq<int>, es: seq<Ptr>)
    requires |roots| == |sizes| <= 4 && |es| <= 3
    requires |roots| == 3 && |es| == 2 ==> n.kids == roots + [null] && n.counts == sizes + [0] && n.elems == es + [NULL]
    requires |roots| == 2 && |es| == 1 ==>
               n.kids == roots + [null, null] && n.counts == sizes + [0, 0] && n.elems == es + [NULL, NULL]
    requires |roots| == |es| + 1 && 2 <= |roots| <= 3
    ensures MatchFields(n, roots, sizes, es)
  {
  }

  lemma WidenStored(p: Path, hole: Node?, count: int, l: Tree, e: Ptr, r: Tree)
    requires p.Step? && |p.left| == |p.el| && |p.right| == |p.er|
    ensures var t, at := Widened(p, l, e, r), |p.left|;
            && |t.kids| == |p.left| + |p.right| + 2 && |t.elems| == |p.el| + |p.er| + 1
            && Widen(Roots(p.left) + [hole] + Roots(p.right), at, Root(l), Root(r)) == Roots(t.kids)
            && Widen(Sizes(p.left) + [count] + Sizes(p.right), at, |Flat(l)|, |Flat(r)|) == Sizes(t.kids)
            && (p.el + p.er)[..at] + [e] + (p.el + p.er)[at..] == t.elems
  {
    StoredPair(p.left, l, r, p.right);
    WidenMiddle(Roots(p.left), hole, Roots(p.right), Root(l), Root(r));
    WidenMiddle(Sizes(p.left), count, Sizes(p.right), |Flat(l)|, |Flat(r)|);
    hide Widen, Flat;
  }

  lemma WidenMiddle<T>(a: seq<T>, x: T, b: seq<T>, l: T, r: T)
    ensures Widen(a + [x] + b, |a|, l, r) == a + [l, r] + b
  {
  }

  lemma SplitStored(ts: seq<Tree>, es: seq<Ptr>)
    requires |ts| == 5 && |es| == 4
    ensures Roots(ts)[..3] == Roots(ts[..3]) && Roots(ts)[3..] == Roots(ts[3..])
    ensures Sizes(ts)[..3] == Sizes(ts[..3]) && Sizes(ts)[3..] == Sizes(ts[3..])
  {
  }

  /** tree234.c:325-398. */
  method SplitLocal(n: Node, m: Node, at: nat, left: Node?, lcount: int, e: Ptr, right: Node?, rcount: int,
                    ghost p: Path, ghost hole: Node?, ghost count: int, ghost l: Tree, ghost r: Tree,
                    ghost all: set<Node>)
    returns (e': Ptr)
    requires p.Step? && p.node == n && |p.left| == |p.el| == at && |p.right| == |p.er|
    requires |p.el| + |p.er| == 3
    requires MatchOwner(p, hole, count) && MatchBelow(l) && MatchBelow(r)
    requires Root(l) == left && Root(r) == right && |Flat(l)| == lcount && |Flat(r)| == rcount
    requires Distinct(Widened(p, l, e, r)) && Nodes(Widened(p, l, e, r)) <= all && m !in Nodes(Widened(p, l, e, r))
    modifies m, Nodes(Widened(p, l, e, r))
    ensures var t := Widened(p, l, e, r);
            && MatchBelow(LowHalf(t, m)) && MatchBelow(HighHalf(t))
            && e' == t.elems[2]
    ensures n.parent == old(n.parent)
  {
    ghost var t := Widened(p, l, e, r);
    AroundPair(p.left, l, r, p.right);
    MatchIsBelow(p.left, n);
    MatchIsBelow(p.right, n);
    BelowPair(p.left, l, r, p.right);
    e' := SplitFields(n, m, at, left, lcount, e, right, rcount, p, hole, count, l, r);
    AdoptHalves(n, m, t, all);
  }

  /** tree234.c:389-398. */
  method AdoptHalves(n: Node, m: Node, ghost t: Tree, ghost all: set<Node>)
    requires t.Fork? && t.node == n && |t.kids| == 5 && |t.elems| == 4
    requires Distinct(t) && AllBelow(t.kids) && Nodes(t) <= all && m !in Nodes(t)
    requires MatchFields(m, Roots(t.kids[..3]), Sizes(t.kids[..3]), t.elems[..2])
    requires MatchFields(n, Roots(t.kids[3..]), Sizes(t.kids[3..]), t.elems[3..])
    modifies AllNodes(t.kids)
    ensures MatchBelow(LowHalf(t, m)) && MatchBelow(HighHalf(t))
    ensures n.parent == old(n.parent)
  {
    ghost var lo, hi := t.kids[..3], t.kids[3..];
    assert t.kids == lo + hi;
    NodesCat(lo, hi);
    BelowCat(lo, hi);
    AdoptKids(m, lo, all);
    AdoptKids(n, hi, all);
  }

  /** tree234.c:179-200 at an inner node: which subtree takes an insertion at `index`? 4 stands
      for the NULL returned there. Past the end an absent child may be chosen instead. */
  method DescendInsert(n: Node, index: int, ghost ts: seq<Tree>, ghost es: seq<Ptr>) returns (k: nat, rest: int)
    requires MatchFields(n, Roots(ts), Sizes(ts), es) && 1 <= |es| <= 3 && |ts| == |es| + 1
    requires 0 <= index
    ensures index <= |Weave(ts, es)| ==> k <= |es| && 0 <= rest <= |Flat(ts[k])| && index == Prefix(ts, es, k) + rest
    ensures index > |Weave(ts, es)| ==>
              if index <= |Weave(ts, es)| + 3 - |es|
              then k == |es| + (index - |Weave(ts, es)|) && k < 4 && n.kids[k] == null && rest == 0
              else k == 4
  {
    Steps(ts, es);
    rest := index;
    if rest <= n.counts[0] {
      return 0, rest;
    }
    rest := rest - (n.counts[0] + 1);
    if rest <= n.counts[1] {
      return 1, rest;
    }
    rest := rest - (n.counts[1] + 1);
    if rest <= n.counts[2] {
      return 2, rest;
    }
    rest := rest - (n.counts[2] + 1);
    if rest <= n.counts[3] {
      return 3, rest;
    }
    k := 4;
  }

  lemma Steps(ts: seq<Tree>, es: seq<Ptr>)
    requires 1 <= |es| && |ts| == |es| + 1
    ensures Prefix(ts, es, 0) == 0
    ensures forall k {:trigger Prefix(ts, es, k)} | 0 < k <= |es| :: Prefix(ts, es, k)
              == Prefix(ts, es, k - 1) + |Flat(ts[k - 1])| + 1
    ensures |Weave(ts, es)| == Prefix(ts, es, |es|) + |Flat(ts[|es|])|
  {
    WeaveAt(ts, es, |es|);
  }

  /** tree234.c:203-216: compares `e` with the elements of `n`; `same` tells that element
      `k` compares equal, otherwise `k` is the subtree to look in. */
  method CompareAt(cmp: Cmp, n: Node, e: Ptr, ghost es: seq<Ptr>) returns (k: nat, same: bool)
    requires |n.elems| == 3 && 1 <= |es| <= 3 && NULL !in es
    requires forall i | 0 <= i < 3 :: n.elems[i] == if i < |es| then es[i] else NULL
    ensures k <= |es| && (same ==> k < |es| && cmp(e, es[k]) == 0)
    ensures !same ==> (k > 0 ==> cmp(e, es[k - 1]) > 0) && (k < |es| ==> cmp(e, es[k]) < 0)
  {
    assert forall i | 0 <= i < |es| :: es[i] in es;
    var c := cmp(e, n.elems[0]);
    if c < 0 {
      return 0, false;
    } else if c == 0 {
      return 0, true;
    }
    if n.elems[1] != NULL {
      c := cmp(e, n.elems[1]);
    }
    if n.elems[1] == NULL || c < 0 {
      return 1, false;
    } else if c == 0 {
      return 1, true;
    }
    if n.elems[2] != NULL {
      c := cmp(e, n.elems[2]);
    }
    if n.elems[2] == NULL || c < 0 {
      return 2, false;
    } else if c == 0 {
      return 2, true;
    }
    return 3, false;
  }

  method SetCount(n: Node, k: nat, count: int, ghost roots: seq<Node?>, ghost sl: seq<int>, ghost stale: int,
                  ghost sr: seq<int>, ghost es: seq<Ptr>)
    requires MatchFields(n, roots, sl + [stale] + sr, es) && k == |sl| < 4
    modifies n
    ensures MatchFields(n, roots, sl + [count] + sr, es) && n.parent == old(n.parent)
  {
    assert sl + [count] + sr == (sl + [stale] + sr)[k := count];
    n.counts := n.counts[k := count];
  }

  class Tree234 {
    var root: Node?
    /** None for an unsorted tree. */
    const cmp: Option<Cmp>
    /** The nodes linked into the tree. */
    ghost var linked: set<Node>
    ghost var shape: Tree
    ghost var height: nat

    /** `newtree234`. */
    constructor (cmp: Option<Cmp>)
      ensures Valid() && Contents() == [] && this.cmp == cmp && linked == {}
    {
      this.cmp := cmp;
      root, linked, shape, height := null, {}, Leaf, 0;
    }

    ghost predicate MatchPath(p: Path, child: Node?, count: int)
      reads `root, PathNodes(p)
    {
      match p
      case Top => root == child
      case Step(up, n, _, _, _, _) =>
        n.parent == Owner(up) && MatchOwner(p, child, count) && MatchPath(up, n, StepCount(p, count))
    }

    /** The heap holds the tree around `t`, looked at from its subtree `t`, except that the
        counts above `t` still take it to have `count` elements. */
    ghost predicate Stale(p: Path, t: Tree, count: int, all: set<Node>)
      reads `root, all
    {
      && Nodes(t) + PathNodes(p) == all
      && Distinct(t) && PathDistinct(p) && Nodes(t) !! PathNodes(p)
      && MatchTree(t, Owner(p)) && MatchPath(p, Root(t), count)
    }

    /** The heap holds the tree around `t`, looked at from its subtree `t`. */
    ghost predicate Focus(p: Path, t: Tree)
      reads `root, `linked, linked
    {
      Stale(p, t, |Flat(t)|, linked)
    }

    /** The state of the first loop of `add234_internal`: `l`, an element and `r` are to take
        the place of the hole, where the heap still has `hole` with `count` elements. */
    ghost predicate Climbing(p: Path, hole: Node?, count: int, l: Tree, r: Tree, h: nat, all: set<Node>)
      reads `root, all
    {
      && Nodes(l) + Nodes(r) + PathNodes(p) == all
      && Distinct(l) && Distinct(r) && PathDistinct(p)
      && Nodes(l) !! Nodes(r) && Nodes(l) !! PathNodes(p) && Nodes(r) !! PathNodes(p)
      && MatchBelow(l) && MatchBelow(r) && MatchPath(p, hole, count)
      && Sound(l, h) && Sound(r, h) && PathSound(p, h)
    }

    /** The counts along a path are those of the tree that grows there. */
    lemma Up(p: Path, t: Tree, h: nat)
      requires Focus(p, t) && p.Step? && Sound(t, h) && PathSound(p, h)
      ensures Focus(p.up, Grow(p, t)) && Sound(Grow(p, t), h + 1)
      ensures Whole(p.up, Grow(p, t)) == Whole(p, t)
    {
      Around(p.left, t, p.right);
      SoundAround(p.left, t, p.right, h);
      MatchAround(p.left, t, p.right, p.node);
      GrowWhole(p, t);
    }

    lemma Down(p: Path, t: Tree, k: nat, h: nat)
      requires Focus(p, t) && t.Fork? && k < |t.kids| && Sound(t, h + 1) && PathSound(p, h + 1)
      ensures Focus(Enter(p, t, k), t.kids[k])
      ensures Sound(t.kids[k], h) && PathSound(Enter(p, t, k), h)
      ensures Whole(Enter(p, t, k), t.kids[k]) == Whole(p, t)
    {
      DownIn(p, t, k, h, linked);
    }

    lemma DownIn(p: Path, t: Tree, k: nat, h: nat, all: set<Node>)
      requires Stale(p, t, |Flat(t)|, all) && t.Fork? && k < |t.kids| && Sound(t, h + 1) && PathSound(p, h + 1)
      ensures Stale(Enter(p, t, k), t.kids[k], |Flat(t.kids[k])|, all)
      ensures Sound(t.kids[k], h) && PathSound(Enter(p, t, k), h)
      ensures Whole(Enter(p, t, k), t.kids[k]) == Whole(p, t)
    {
      var q := Enter(p, t, k);
      EnterFacts(p, t, k, h);
      MatchAround(q.left, t.kids[k], q.right, q.node);
    }

    ghost predicate Valid()
      reads this, linked
    {
      Focus(Top, shape) && Sound(shape, height)
    }

    ghost function Contents(): seq<Ptr>
      reads `shape
    {
      Flat(shape)
    }

    /** `index234`. */
    method Index(index: int) returns (e: Ptr)
      requires Valid()
      ensures e == if 0 <= index < |Contents()| then Contents()[index] else NULL
      ensures 0 <= index < |Contents()| ==> e != NULL
    {
      NoNulls(shape, height);
      if root == null {
        return NULL;
      }
      var count := CountNode(root);
      NodeCountIsSize(shape, height);
      if index < 0 || index >= count {
        return NULL;
      }
      e := LookUp(root, index, null, shape, height, linked);
    }

    // ---------- insertion ----------

    /** tree234.c:238-312: the node that owns the hole has room. */
    method Place(n: Node, at: nat, left: Node?, lcount: int, e: Ptr, right: Node?, rcount: int,
                 ghost p: Path, ghost hole: Node?, ghost count: int, ghost l: Tree, ghost r: Tree, ghost h: nat,
                 ghost all: set<Node>)
      requires Climbing(p, hole, count, l, r, h, all) && p.Step? && p.node == n && |p.left| == at
      requires Root(l) == left && Root(r) == right && |Flat(l)| == lcount && |Flat(r)| == rcount
      requires |p.el| + |p.er| <= 2 && e != NULL
      modifies all
      ensures Stale(p.up, Widened(p, l, e, r), StepCount(p, count), all)
    {
      AroundPair(p.left, l, r, p.right);
      PlaceLocal(n, at, left, lcount, e, right, rcount, p, hole, count, l, r, all);
    }

    /** tree234.c:313-416: the node that owns the hole is full and is split; the focus moves
        up to its parent `n'`. */
    method SplitUp(n: Node, at: nat, left: Node?, lcount: int, e: Ptr, right: Node?, rcount: int,
                   ghost p: Path, ghost hole: Node?, ghost count: int, ghost l: Tree, ghost r: Tree, ghost h: nat,
                   ghost all: set<Node>)
      returns (n': Node?, at': nat, m: Node, lcount': int, e': Ptr, rcount': int, ghost lo: Tree, ghost hi: Tree)
      requires Climbing(p, hole, count, l, r, h, all) && p.Step? && p.node == n && |p.left| == at
      requires Root(l) == left && Root(r) == right && |Flat(l)| == lcount && |Flat(r)| == rcount
      requires |p.el| + |p.er| == 3 && e != NULL
      modifies all
      ensures fresh(m) && Climbing(p.up, n, StepCount(p, count), lo, hi, h + 1, all + {m})
      ensures Root(lo) == m && Root(hi) == n && lcount' == |Flat(lo)| && rcount' == |Flat(hi)| && e' != NULL
      ensures Flat(lo) + [e'] + Flat(hi) == Flat(Widened(p, l, e, r))
      ensures n' == Owner(p.up) && (p.up.Step? ==> at' == |p.up.left|)
    {
      m, lcount', e', rcount', lo, hi :=
        SplitAndCount(n, at, left, lcount, e, right, rcount, p, hole, count, l, r, h, all);
      at' := at;
      n' := n.parent;
      if n' != null {
        at' := ChildIndex(n, n', p.up, StepCount(p, count));
      }
    }

    method SplitAndCount(n: Node, at: nat, left: Node?, lcount: int, e: Ptr, right: Node?, rcount: int,
                         ghost p: Path, ghost hole: Node?, ghost count: int, ghost l: Tree, ghost r: Tree,
                         ghost h: nat, ghost all: set<Node>)
      returns (m: Node, lcount': int, e': Ptr, rcount': int, ghost lo: Tree, ghost hi: Tree)
      requires Climbing(p, hole, count, l, r, h, all) && p.Step? && p.node == n && |p.left| == at
      requires Root(l) == left && Root(r) == right && |Flat(l)| == lcount && |Flat(r)| == rcount
      requires |p.el| + |p.er| == 3 && e != NULL
      modifies all
      ensures fresh(m) && Climbing(p.up, n, StepCount(p, count), lo, hi, h + 1, all + {m})
      ensures Root(lo) == m && Root(hi) == n && lcount' == |Flat(lo)| && rcount' == |Flat(hi)| && e' != NULL
      ensures Flat(lo) + [e'] + Flat(hi) == Flat(Widened(p, l, e, r))
      ensures n.parent == Owner(p.up)
    {
      hide *;
      m, e', lo, hi := Split(n, at, left, lcount, e, right, rcount, p, hole, count, l, r, h, all);
      ClimbingParts(p.up, n, StepCount(p, count), lo, hi, h + 1, all + {m});
      lcount' := CountTree(m, lo, h + 1);
      rcount' := CountTree(n, hi, h + 1);
    }

    lemma ClimbingParts(p: Path, hole: Node?, count: int, l: Tree, r: Tree, h: nat, all: set<Node>)
      requires Climbing(p, hole, count, l, r, h, all)
      ensures MatchBelow(l) && MatchBelow(r) && Sound(l, h) && Sound(r, h)
    {
    }

    method Split(n: Node, at: nat, left: Node?, lcount: int, e: Ptr, right: Node?, rcount: int,
                 ghost p: Path, ghost hole: Node?, ghost count: int, ghost l: Tree, ghost r: Tree, ghost h: nat,
                 ghost all: set<Node>)
      returns (m: Node, e': Ptr, ghost lo: Tree, ghost hi: Tree)
      requires Climbing(p, hole, count, l, r, h, all) && p.Step? && p.node == n && |p.left| == at
      requires Root(l) == left && Root(r) == right && |Flat(l)| == lcount && |Flat(r)| == rcount
      requires |p.el| + |p.er| == 3 && e != NULL
      modifies all
      ensures fresh(m) && Climbing(p.up, n, StepCount(p, count), lo, hi, h + 1, all + {m})
      ensures Root(lo) == m && Root(hi) == n && e' != NULL && n.parent == Owner(p.up)
      ensures Flat(lo) + [e'] + Flat(hi) == Flat(Widened(p, l, e, r))
    {
      m := new Node();
      m.parent := n.parent;
      ghost var t := Widened(p, l, e, r);
      e' := SplitWith(n, m, at, left, lcount, e, right, rcount, p, hole, count, l, r, h, all);
      lo, hi := LowHalf(t, m), HighHalf(t);
    }

    method SplitWith(n: Node, m: Node, at: nat, left: Node?, lcount: int, e: Ptr, right: Node?, rcount: int,
                     ghost p: Path, ghost hole: Node?, ghost count: int, ghost l: Tree, ghost r: Tree, ghost h: nat,
                     ghost all: set<Node>)
      returns (e': Ptr)
      requires Climbing(p, hole, count, l, r, h, all) && p.Step? && p.node == n && |p.left| == at
      requires Root(l) == left && Root(r) == right && |Flat(l)| == lcount && |Flat(r)| == rcount
      requires |p.el| + |p.er| == 3 && e != NULL && m !in all
      modifies all, m
      ensures var t := Widened(p, l, e, r);
              && Climbing(p.up, n, StepCount(p, count), LowHalf(t, m), HighHalf(t), h + 1, all + {m})
              && e' == t.elems[2] && e' != NULL
              && Flat(LowHalf(t, m)) + [e'] + Flat(HighHalf(t)) == Flat(t)
      ensures n.parent == Owner(p.up)
    {
      SplitFacts(p, l, e, r, m, h);
      e' := SplitInto(n, m, at, left, lcount, e, right, rcount, p, hole, count, l, r, h, all);
    }

    method SplitInto(n: Node, m: Node, at: nat, left: Node?, lcount: int, e: Ptr, right: Node?, rcount: int,
                     ghost p: Path, ghost hole: Node?, ghost count: int, ghost l: Tree, ghost r: Tree, ghost h: nat,
                     ghost all: set<Node>)
      returns (e': Ptr)
      requires Climbing(p, hole, count, l, r, h, all) && p.Step? && p.node == n && |p.left| == at
      requires Root(l) == left && Root(r) == right && |Flat(l)| == lcount && |Flat(r)| == rcount
      requires |p.el| + |p.er| == 3 && m !in all
      modifies all, m
      ensures var t := Widened(p, l, e, r);
              && MatchBelow(LowHalf(t, m)) && MatchBelow(HighHalf(t)) && e' == t.elems[2]
      ensures MatchPath(p.up, n, StepCount(p, count)) && n.parent == Owner(p.up)
    {
      AroundPair(p.left, l, r, p.right);
      e' := SplitLocal(n, m, at, left, lcount, e, right, rcount, p, hole, count, l, r, all);
    }

    /** Where `child` hangs below `parent`. */
    method ChildIndex(child: Node, parent: Node, ghost p: Path, ghost count: int) returns (k: nat)
      requires p.Step? && p.node == parent && MatchPath(p, child, count)
      requires |p.left| <= 3 && child !in AllNodes(p.left)
      ensures k == |p.left|
    {
      assert forall i | 0 <= i < |p.left| :: parent.kids[i] != child by {
        forall i | 0 <= i < |p.left|
          ensures parent.kids[i] != child
        {
          RootsAmongNodes(p.left, i);
        }
      }
      assert parent.kids[|p.left|] == child;
      k := if parent.kids[0] == child then 0
           else if parent.kids[1] == child then 1
           else if parent.kids[2] == child then 2
           else 3;
    }

    /** One step of the count repair: tree234.c:427-433. */
    method StoreCount(n: Node, k: nat, count: int, ghost p: Path, ghost t: Tree, ghost stale: int, ghost h: nat,
                      ghost all: set<Node>)
      requires Stale(p, t, stale, all) && p.Step? && Root(t) == n && k == |p.left| && count == |Flat(t)|
      requires Sound(t, h) && PathSound(p, h)
      requires n.parent == p.node
      modifies all
      ensures Stale(p.up, Grow(p, t), StepCount(p, stale), all)
    {
      Around(p.left, t, p.right);
      MatchAround(p.left, t, p.right, p.node);
      var parent := n.parent;
      SetCount(parent, k, count, Roots(p.left) + [n] + Roots(p.right), Sizes(p.left), stale, Sizes(p.right),
        p.el + p.er);
    }

    /** tree234.c:229-417: widens the node that owns the hole, splitting full nodes on the way
        up. `n` is null when the old root has been split. */
    method Climb(n0: Node, at0: nat, e0: Ptr, ghost p0: Path, ghost all0: set<Node>)
      returns (n: Node?, left: Node?, lcount: int, e: Ptr, right: Node?, rcount: int,
               ghost p: Path, ghost l: Tree, ghost r: Tree, ghost count: int, ghost h: nat, ghost all: set<Node>)
      requires Climbing(p0, null, 0, Leaf, Leaf, 0, all0) && Owner(p0) == n0 && |p0.left| == at0 && e0 != NULL
      modifies all0
      ensures all0 <= all && fresh(all - all0)
      ensures n == null ==>
                && p == Top && Climbing(p, root, count, l, r, h, all) && h > 0 && e != NULL
                && Root(l) == left && Root(r) == right && |Flat(l)| == lcount && |Flat(r)| == rcount
                && Flat(l) + [e] + Flat(r) == Before(p0) + [e0] + After(p0)
      ensures n != null ==>
                && Stale(p, l, count, all) && Root(l) == n && Sound(l, h) && PathSound(p, h)
                && Whole(p, l) == Before(p0) + [e0] + After(p0)
    {
      hide *;
      ClimbStart(p0, e0);
      n, left, lcount, e, right, rcount := n0, null, 0, e0, null, 0;
      p, l, r, count, h, all := p0, Leaf, Leaf, 0, 0, all0;
      var at := at0;
      ghost var hole: Node? := null;
      while n != null
        invariant all0 <= all && fresh(all - all0)
        invariant Climbing(p, hole, count, l, r, h, all) && Owner(p) == n && e != NULL
        invariant n != null ==> |p.left| == at
        invariant n == null ==> h > 0
        invariant Root(l) == left && Root(r) == right && |Flat(l)| == lcount && |Flat(r)| == rcount
        invariant Before(p) + (Flat(l) + [e] + Flat(r)) + After(p) == Before(p0) + [e0] + After(p0)
        decreases p
      {
        var placed;
        placed, n, at, left, lcount, e, right, rcount, hole, count, l, r, h, all :=
          ClimbStep(n, at, left, lcount, e, right, rcount, p, hole, count, l, r, h, all);
        p := p.up;
        if placed {
          return;
        }
      }
      ClimbEnd(p, hole, count, l, r, h, all, e);
    }

    lemma ClimbStart(p: Path, e: Ptr)
      ensures Root(Leaf) == null && |Flat(Leaf)| == 0
      ensures Before(p) + (Flat(Leaf) + [e] + Flat(Leaf)) + After(p) == Before(p) + [e] + After(p)
    {
    }

    lemma ClimbEnd(p: Path, hole: Node?, count: int, l: Tree, r: Tree, h: nat, all: set<Node>, e: Ptr)
      requires Climbing(p, hole, count, l, r, h, all) && Owner(p) == null
      ensures p == Top && hole == root
      ensures Before(p) + (Flat(l) + [e] + Flat(r)) + After(p) == Flat(l) + [e] + Flat(r)
    {
    }

    /** One round of that loop; `placed` tells that it ended in `break`. */
    method ClimbStep(n: Node, at: nat, left: Node?, lcount: int, e: Ptr, right: Node?, rcount: int,
                     ghost p: Path, ghost hole: Node?, ghost count: int, ghost l: Tree, ghost r: Tree, ghost h: nat,
                     ghost all: set<Node>)
      returns (placed: bool, n': Node?, at': nat, left': Node?, lcount': int, e': Ptr, right': Node?, rcount': int,
               ghost hole': Node?, ghost count': int, ghost l': Tree, ghost r': Tree, ghost h': nat,
                 ghost all': set<Node>)
      requires Climbing(p, hole, count, l, r, h, all) && p.Step? && p.node == n && |p.left| == at && e != NULL
      requires Root(l) == left && Root(r) == right && |Flat(l)| == lcount && |Flat(r)| == rcount
      modifies all
      ensures all <= all' && fresh(all' - all) && h' == h + 1
      ensures placed ==>
                && Stale(p.up, l', count', all') && Root(l') == n' && n' == n && Sound(l', h') && PathSound(p.up, h')
                && Whole(p.up, l') == Before(p) + (Flat(l) + [e] + Flat(r)) + After(p)
      ensures !placed ==>
                && Climbing(p.up, hole', count', l', r', h', all') && Owner(p.up) == n' && e' != NULL
                && (n' != null ==> |p.up.left| == at')
                && Root(l') == left' && Root(r') == right' && |Flat(l')| == lcount' && |Flat(r')| == rcount'
                && Before(p.up) + (Flat(l') + [e'] + Flat(r')) + After(p.up)
                   == Before(p) + (Flat(l) + [e] + Flat(r)) + After(p)
                && hole' == n
    {
      WidenedSound(p, l, e, r, h);
      h', count', all' := h + 1, StepCount(p, count), all;
      hide Before, After, Flat, Nodes, PathNodes, MatchBelow;
      placed := n.elems[2] == NULL;
      if placed {
        Place(n, at, left, lcount, e, right, rcount, p, hole, count, l, r, h, all);
        l', n' := Widened(p, l, e, r), n;
        at', left', lcount', e', right', rcount', hole', r' := at, left, lcount, e, right, rcount, hole, r;
      } else {
        n', at', left', lcount', e', rcount', l', r' :=
          SplitUp(n, at, left, lcount, e, right, rcount, p, hole, count, l, r, h, all);
        right', hole', all' := n, n, all + {left'};
      }
    }

    method RepairStep(n: Node, ghost p: Path, ghost t: Tree, ghost stale: int, ghost h: nat, ghost all: set<Node>)
      requires Stale(p, t, stale, all) && p.Step? && Root(t) == n && Sound(t, h) && PathSound(p, h)
      modifies all
      ensures Stale(p.up, Grow(p, t), StepCount(p, stale), all) && Sound(Grow(p, t), h + 1)
      ensures Whole(p.up, Grow(p, t)) == Whole(p, t) && n.parent == p.node
    {
      var count := CountTree(n, t, h);
      var k := ChildIndex(n, n.parent, p, stale);
      StoreCount(n, k, count, p, t, stale, h, all);
      SoundAround(p.left, t, p.right, h);
      GrowWhole(p, t);
      MatchAround(p.left, t, p.right, p.node);
    }

    /** tree234.c:425-434. */
    method Repair(n0: Node, ghost p0: Path, ghost t0: Tree, ghost stale0: int, ghost h0: nat, ghost all: set<Node>)
      returns (ghost t: Tree, ghost h: nat)
      requires Stale(p0, t0, stale0, all) && Root(t0) == n0 && Sound(t0, h0) && PathSound(p0, h0)
      modifies all
      ensures Stale(Top, t, |Flat(t)|, all) && Sound(t, h) && Flat(t) == Whole(p0, t0)
    {
      var n := n0;
      ghost var p, stale := p0, stale0;
      t, h := t0, h0;
      while n.parent != null
        invariant n != null && Stale(p, t, stale, all) && Root(t) == n && Sound(t, h) && PathSound(p, h)
        invariant Whole(p, t) == Whole(p0, t0)
        decreases p
      {
        RepairStep(n, p, t, stale, h, all);
        n := n.parent;
        p, t, stale, h := p.up, Grow(p, t), StepCount(p, stale), h + 1;
      }
      assert Whole(Top, t) == Flat(t);
    }

    /** tree234.c:435-453: the root has been split, so the tree grows a new one. */
    method GrowRoot(left: Node, lcount: int, e: Ptr, right: Node, rcount: int,
                    ghost count: int, ghost l: Tree, ghost r: Tree, ghost h: nat, ghost all: set<Node>)
      returns (ghost t: Tree)
      requires Climbing(Top, root, count, l, r, h, all) && e != NULL
      requires Root(l) == left && Root(r) == right && |Flat(l)| == lcount && |Flat(r)| == rcount
      modifies `root, all
      ensures root != null && fresh(root)
      ensures Stale(Top, t, |Flat(t)|, all + {root}) && Sound(t, h + 1)
      ensures Flat(t) == Flat(l) + [e] + Flat(r)
    {
      var n := new Node();
      n.kids := [left, right, null, null];
      n.counts := [lcount, rcount, 0, 0];
      n.elems := [e, NULL, NULL];
      t := Fork(n, [l, r], [e]);
      NewRootFacts(n, l, e, r, h);
      PutRoot(n, e, l, r, all);
    }

    method PutRoot(n: Node, e: Ptr, ghost l: Tree, ghost r: Tree, ghost all: set<Node>)
      requires n.kids == [Root(l), Root(r), null, null] && n.counts == [|Flat(l)|, |Flat(r)|, 0, 0]
      requires n.elems == [e, NULL, NULL] && n.parent == null
      requires MatchBelow(l) && MatchBelow(r) && AllDistinct([l, r]) && AllNodes([l, r]) <= all && n !in all
      modifies `root, all
      ensures root == n && MatchTree(Fork(n, [l, r], [e]), null)
    {
      BelowPair([], l, r, []);
      assert [] + [l, r] + [] == [l, r];
      AdoptKids(n, [l, r], all);
      root := n;
    }

    /** tree234.c:153-220 with `index >= 0`: the empty child at which element `index` goes, or an
        absent child (`absent`), or nothing. */
    method FindPlace(index0: int) returns (found: bool, absent: bool, n: Node, at: nat, ghost p: Path)
      requires Valid() && shape.Fork? && 0 <= index0 && AimOf(shape, index0) != Outside
      ensures found <==> AimOf(shape, index0) != Refuses
      ensures found ==> (absent <==> AimOf(shape, index0) != InRange)
      ensures found && absent ==> n == root && |shape.elems| < at < 4
      ensures found && !absent ==>
                && Focus(p, Leaf) && PathSound(p, 0) && p.Step? && p.node == n && |p.left| == at
                && Before(p) + After(p) == Contents() && |Before(p)| == index0
    {
      hide *;
      SearchStart();
      n, at, absent, p := root, 0, false, Top;
      var index := index0;
      ghost var t, h := shape, height;
      while true
        invariant t.Fork? && Focus(p, t) && Sound(t, h) && PathSound(p, h) && t.node == n == Root(t)
        invariant Whole(p, t) == Flat(shape)
        invariant 0 <= index && |Before(p)| + index == index0
        invariant if AimOf(t, index) == InRange then AimOf(shape, index0) == InRange else p == Top && t == shape
        decreases h
      {
        var k, rest := PlaceStep(n, index, p, t, h);
        if k == 4 {
          return false, false, n, at, p;
        }
        absent := IsAbsent(n, k, p, t, h);
        if absent {
          return true, true, n, k, p;
        }
        EnteredFields(n, p, t, k, rest, h);
        p, t, h := Enter(p, t, k), t.kids[k], h - 1;
        if n.kids[k] == null {
          WholeOfLeaf(p);
          return true, false, n, k, p;
        }
        n, index := n.kids[k], rest;
      }
    }

    lemma EnteredFields(n: Node, p: Path, t: Tree, k: nat, rest: int, h: nat)
      requires t.Fork? && EnteredAt(n, p, t, k, rest, h)
      ensures k < |t.kids| && k <= |t.elems| && h > 0 && var q, u := Enter(p, t, k), t.kids[k];
              && q.Step? && q.node == n && |q.left| == k
              && Focus(q, u) && Sound(u, h - 1) && PathSound(q, h - 1) && Whole(q, u) == Whole(p, t)
              && 0 <= rest && AimOf(u, rest) == InRange && (u.Leaf? ==> rest == 0) && (u.Fork? ==> u.node == Root(u))
    {
    }

    lemma SearchStart()
      requires Valid()
      ensures Focus(Top, shape) && Sound(shape, height) && PathSound(Top, height) && Root(shape) == root
      ensures shape.Fork? ==> shape.node == root
      ensures Contents() == Flat(shape) && Whole(Top, shape) == Flat(shape) && Before(Top) == []
    {
    }

    /** Does the pointer `np` of the source stand behind the last child? Then `*np` is NULL, and
        the first round at tree234.c:229 treats it like the last child. */
    method IsAbsent(n: Node, k: nat, ghost p: Path, ghost t: Tree, ghost h: nat) returns (absent: bool)
      requires Focus(p, t) && Sound(t, h) && Root(t) == n && t.Fork? && k < 4
      ensures absent <==> k > |t.elems|
    {
      assert forall i | 0 <= i < |t.elems| :: t.elems[i] in t.elems;
      absent := k > 0 && n.elems[k - 1] == NULL;
    }

    /** One round; 4 stands for the NULL returned at tree234.c:199. */
    method PlaceStep(n: Node, index: int, ghost p: Path, ghost t: Tree, ghost h: nat) returns (k: nat, rest: int)
      requires Focus(p, t) && Sound(t, h) && PathSound(p, h) && Root(t) == n && t.Fork?
      requires 0 <= index && AimOf(t, index) != Outside
      ensures k == 4 <==> AimOf(t, index) == Refuses
      ensures k <= |t.elems| <==> AimOf(t, index) == InRange
      ensures k > |t.elems| ==> k <= 4
      ensures k <= |t.elems| ==>
                && EnteredAt(n, p, t, k, rest, h)
                && |Before(Enter(p, t, k))| + rest == |Before(p)| + index
      ensures k <= |t.elems| ==> k < 4 == |n.kids| && n.kids[k] == Root(t.kids[k])
    {
      NodeFields(p, t, h);
      AimFacts(t, h, index);
      hide *;
      if n.kids[0] == null {
        k, rest := index, 0;
      } else {
        k, rest := DescendInsert(n, index, t.kids, t.elems);
      }
      if k <= |t.elems| {
        EnterAt(p, t, k, index, rest, h);
      }
    }

    /** The search has entered child `k` and looks for place `rest` there. */
    ghost predicate EnteredAt(n: Node, p: Path, t: Tree, k: nat, rest: int, h: nat)
      requires t.Fork?
      reads `root, `linked, linked
    {
      && k < |t.kids| && k <= |t.elems| && h > 0 && var q, u := Enter(p, t, k), t.kids[k];
      && q.Step? && q.node == n && |q.left| == k
      && Focus(q, u) && Sound(u, h - 1) && PathSound(q, h - 1) && Whole(q, u) == Whole(p, t)
      && 0 <= rest && AimOf(u, rest) == InRange && (u.Leaf? ==> rest == 0)
    }

    lemma NodeFields(p: Path, t: Tree, h: nat)
      requires Focus(p, t) && Sound(t, h) && t.Fork?
      ensures MatchFields(t.node, Roots(t.kids), Sizes(t.kids), t.elems) && |t.node.kids| == 4 && Root(t) == t.node
      ensures 1 <= |t.elems| <= 3 && |t.kids| == |t.elems| + 1 && t.node.kids[0] == Root(t.kids[0])
      ensures forall k | 0 <= k < |t.kids| :: t.node.kids[k] == Root(t.kids[k])
    {
    }

    lemma EnterAt(p: Path, t: Tree, k: nat, index: int, rest: int, h: nat)
      requires Focus(p, t) && Sound(t, h) && PathSound(p, h) && t.Fork? && k <= |t.elems|
      requires |t.kids| == |t.elems| + 1 && 0 <= rest <= |Flat(t.kids[k])| && index == Prefix(t.kids, t.elems, k) + rest
      ensures EnteredAt(t.node, p, t, k, rest, h) && |Before(Enter(p, t, k))| + rest == |Before(p)| + index
    {
      SoundHeight(t, h);
      Down(p, t, k, h - 1);
      BeforeEnter(p, t, k);
      hide Focus, Sound, PathSound, Whole, Before;
    }

    /** tree234.c:153-220 with a negative `index`: an element equal to `e`, or the empty
        child at which `e` goes. */
    method FindSorted(e: Ptr, compare: Cmp) returns (same: bool, existing: Ptr, n: Node, at: nat, ghost p: Path)
      requires Valid() && shape.Fork? && Monotone(compare, e, Contents())
      ensures same ==> existing in Contents() && compare(e, existing) == 0
      ensures !same ==>
                && Focus(p, Leaf) && PathSound(p, 0) && p.Step? && p.node == n && |p.left| == at
                && Before(p) + After(p) == Contents() && Narrowed(compare, e, p)
    {
      n, existing, p := root, NULL, Top;
      ghost var t, h := shape, height;
      assert Whole(Top, shape) == Contents() && Narrowed(compare, e, Top);
      hide Narrowed, Whole, Before, After, MatchTree, Nodes, PathNodes;
      while true
        invariant t.Fork? && Focus(p, t) && Sound(t, h) && PathSound(p, h) && t.node == n
        invariant Whole(p, t) == Contents() && Narrowed(compare, e, p)
        decreases h
      {
        at, same := SortedStep(n, e, compare, p, t, h);
        if same {
          existing := n.elems[at];
          return;
        }
        p, t, h := Enter(p, t, at), t.kids[at], h - 1;
        if n.kids[at] == null {
          WholeOfLeaf(p);
          return;
        }
        n := n.kids[at];
      }
    }

    method SortedStep(n: Node, e: Ptr, compare: Cmp, ghost p: Path, ghost t: Tree, ghost h: nat)
      returns (k: nat, same: bool)
      requires Focus(p, t) && Sound(t, h) && PathSound(p, h) && Root(t) == n && t.Fork?
      requires Narrowed(compare, e, p)
      ensures same ==> k < 3 && |n.elems| == 3 && n.elems[k] in Whole(p, t) && compare(e, n.elems[k]) == 0
      ensures !same ==>
                && k < |t.kids| && h > 0 && |n.kids| == 4 && k < 4 && n.kids[k] == Root(t.kids[k])
                && Focus(Enter(p, t, k), t.kids[k]) && Sound(t.kids[k], h - 1) && PathSound(Enter(p, t, k), h - 1)
                && Whole(Enter(p, t, k), t.kids[k]) == Whole(p, t) && Narrowed(compare, e, Enter(p, t, k))
    {
      hide Narrowed, Whole, Before, After, Enter;
      k, same := CompareAt(compare, n, e, t.elems);
      if same {
        OwnElement(p, t, k);
      } else {
        MatchKid(t, Owner(p), k, h);
        NarrowedStep(compare, e, p, t, k);
        Down(p, t, k, h - 1);
      }
    }

    /** tree234.c:140-151. */
    method FirstRoot(e: Ptr)
      requires root == null && e != NULL
      modifies this
      ensures Valid() && Contents() == [e] && linked == {root} && fresh(root)
    {
      root := new Node();
      root.elems := [e, NULL, NULL];
      shape := Fork(root, [Leaf, Leaf], [e]);
      height := 1;
      linked := {root};
      NewRootFacts(root, Leaf, e, Leaf, 0);
      MatchLeaves(root);
    }

    lemma MatchLeaves(n: Node)
      ensures MatchAll([Leaf, Leaf], n)
    {
      assert [Leaf, Leaf][1..] == [Leaf] && [Leaf][1..] == [];
      assert MatchAll([], n) && MatchAll([Leaf], n);
    }

    /** tree234.c:425-457. */
    method Settle(n: Node?, left: Node?, lcount: int, e: Ptr, right: Node?, rcount: int, ghost p: Path,
                  ghost l: Tree, ghost r: Tree, ghost count: int, ghost h: nat, ghost all: set<Node>, ghost s: seq<Ptr>)
      returns (ghost t: Tree, ghost th: nat, ghost all': set<Node>)
      requires n == null ==>
                 && Climbing(Top, root, count, l, r, h, all) && h > 0 && e != NULL
                 && Root(l) == left && Root(r) == right && |Flat(l)| == lcount && |Flat(r)| == rcount
                 && Flat(l) + [e] + Flat(r) == s
      requires n != null ==>
                 Stale(p, l, count, all) && Root(l) == n && Sound(l, h) && PathSound(p, h) && Whole(p, l) == s
      modifies `root, all
      ensures all <= all' && fresh(all' - all)
      ensures Stale(Top, t, |Flat(t)|, all') && Sound(t, th) && Flat(t) == s
    {
      if n != null {
        t, th := Repair(n, p, l, count, h, all);
        all' := all;
      } else {
        t := GrowRoot(left, lcount, e, right, rcount, count, l, r, h, all);
        th, all' := h + 1, all + {root};
      }
    }

    lemma BeginClimb(p: Path)
      requires Focus(p, Leaf) && PathSound(p, 0)
      ensures Climbing(p, null, 0, Leaf, Leaf, 0, linked)
    {
    }

    ghost method Conclude(t: Tree, h: nat, all: set<Node>)
      requires Stale(Top, t, |Flat(t)|, all) && Sound(t, h)
      modifies `shape, `height, `linked
      ensures Valid() && Contents() == Flat(t) && linked == all
    {
      shape, height, linked := t, h, all;
    }

    /** tree234.c:222-457: `e` goes into the hole of `p`. */
    method PutAt(e0: Ptr, n0: Node, at: nat, ghost p0: Path)
      requires Valid() && Focus(p0, Leaf) && PathSound(p0, 0) && p0.Step? && p0.node == n0 && |p0.left| == at
      requires e0 != NULL
      modifies this, linked
      ensures Valid() && fresh(linked - old(linked))
      ensures Contents() == Before(p0) + [e0] + After(p0)
    {
      var n, left, lcount, e, right, rcount;
      ghost var p, l, r, count, h, all;
      BeginClimb(p0);
      ghost var s := Before(p0) + [e0] + After(p0);
      hide *;
      n, left, lcount, e, right, rcount, p, l, r, count, h, all := Climb(n0, at, e0, p0, linked);
      ghost var t, th;
      t, th, all := Settle(n, left, lcount, e, right, rcount, p, l, r, count, h, all, s);
      Conclude(t, th, all);
    }

    /** tree234.c:229-329 for an absent child of the root: the first round is the last one. */
    method PutAbsent(e: Ptr, n: Node, at: nat)
      requires Valid() && e != NULL && shape.Fork? && n == root && |shape.elems| < at < 4
      modifies this, linked
      ensures linked <= old(linked) && Focus(Top, shape) && shape == Cropped(old(shape), e)
      ensures old(shape).kids[0].Leaf? ==> height == 1
    {
      ghost var t, all, h := shape, linked, height;
      AbsentReady(t, e, h, n);
      ghost var p := Enter(Top, t, |t.elems|);
      assert HoleAt(at, p.el, p.er);
      hide *;
      PlaceLocal(n, at, null, 0, e, null, 0, p, Root(Last(t)), |Flat(Last(t))|, Leaf, Leaf, all);
      CroppedFocus(t, e);
      shape := Cropped(t, e);
      linked := Nodes(shape);
      if t.kids[0].Leaf? {
        height := 1;
      }
    }

    lemma AbsentReady(t: Tree, e: Ptr, h: nat, n: Node)
      requires Focus(Top, t) && Sound(t, h) && t.Fork? && |t.elems| < 3 && n == root
      ensures 1 <= |t.elems| && |t.kids| == |t.elems| + 1 && n.parent == null
      ensures Root(Leaf) == null && |Flat(Leaf)| == 0 && MatchBelow(Leaf)
      ensures var p := Enter(Top, t, |t.elems|);
              && p.Step? && p.node == n && |p.left| == |p.el| == |t.elems| && p.right == [] && p.er == []
              && NULL !in p.el && MatchOwner(p, Root(Last(t)), |Flat(Last(t))|)
              && Widened(p, Leaf, e, Leaf) == Cropped(t, e)
      ensures Distinct(Cropped(t, e)) && Nodes(Cropped(t, e)) <= linked
    {
      var p := Enter(Top, t, |t.elems|);
      SoundHeight(t, h);
      Down(Top, t, |t.elems|, h - 1);
      CroppedNodes(t, e);
      assert t.kids[..|t.elems|] + [Leaf, Leaf] + t.kids[|t.elems| + 1..] == t.kids[..|t.elems|] + [Leaf, Leaf];
      assert t.elems[..|t.elems|] + [e] + t.elems[|t.elems|..] == t.elems + [e];
      hide Sound, Nodes, Distinct, Flat;
    }

    lemma CroppedFocus(t: Tree, e: Ptr)
      requires t.Fork? && |t.kids| == |t.elems| + 1 && root == t.node
      requires Distinct(Cropped(t, e)) && MatchTree(Cropped(t, e), null)
      ensures Stale(Top, Cropped(t, e), |Flat(Cropped(t, e))|, Nodes(Cropped(t, e)))
    {
    }

    /** `add234_internal` for a non-negative index, past the end too. When the root misses, the
        heap holds just the links of `Cropped`, which is no valid tree any more. */
    method AddAt(e: Ptr, index: int) returns (r: Ptr)
      requires Valid() && e != NULL && 0 <= index && AimOf(shape, index) != Outside
      modifies this, linked
      ensures fresh(linked - old(linked)) && Focus(Top, shape)
      ensures Added(old(shape), e, index, Valid(), shape, r)
    {
      if root == null {
        FirstRoot(e);
        return e;
      }
      ghost var s := Contents();
      SoundHeight(shape, height);
      var found, absent, n, at;
      ghost var p;
      found, absent, n, at, p := FindPlace(index);
      if !found {
        return NULL;
      }
      if absent {
        PutEnd(e, index, n, at);
      } else {
        PutAt(e, n, at, p);
        assert s[..index] == Before(p) && s[index..] == After(p);
      }
      r := e;
    }

    method PutEnd(e: Ptr, index: int, n: Node, at: nat)
      requires Valid() && e != NULL && shape.Fork? && n == root && |shape.elems| < at < 4
      requires index >= 0 && (AimOf(shape, index) == Appends || AimOf(shape, index) == Misses)
      modifies this, linked
      ensures linked <= old(linked) && Focus(Top, shape)
      ensures Added(old(shape), e, index, Valid(), shape, e)
    {
      ghost var t := shape;
      EndFacts(t, height, e, index);
      PutAbsent(e, n, at);
      Concluded(t, e, index);
    }

    lemma Concluded(t: Tree, e: Ptr, index: int)
      requires index >= 0 && EndOf(t, e, index) && shape == Cropped(t, e) && Focus(Top, shape)
      requires t.kids[0].Leaf? ==> height == 1
      ensures Added(t, e, index, Valid(), shape, e)
    {
      hide Focus, Sound, Flat, Cropped;
      assert AimOf(t, index) == Appends ==> Sound(shape, height);
    }

    /** `addpos234`. */
    method AddPos(e: Ptr, index: int) returns (r: Ptr)
      requires Valid() && e != NULL && (cmp.None? ==> AimOf(shape, index) != Outside)
      modifies this, linked
      ensures fresh(linked - old(linked)) && Focus(Top, shape)
      ensures index < 0 || cmp.Some? ==> r == NULL && Valid() && Contents() == old(Contents())
      ensures index >= 0 && cmp.None? ==> Added(old(shape), e, index, Valid(), shape, r)
    {
      if index < 0 || cmp.Some? {
        return NULL;
      }
      r := AddAt(e, index);
    }

    /** `add234_internal` for a negative index. */
    method AddSorted(e: Ptr, compare: Cmp) returns (r: Ptr)
      requires Valid() && e != NULL && Monotone(compare, e, Contents())
      modifies this, linked
      ensures Valid() && fresh(linked - old(linked))
      ensures SortedInsert(compare, e, old(Contents()), Contents(), r)
    {
      if root == null {
        FirstRoot(e);
        return e;
      }
      ghost var s := Contents();
      var same, existing, n, at;
      ghost var p;
      same, existing, n, at, p := FindSorted(e, compare);
      if same {
        return existing;
      }
      NarrowedRank(compare, e, p, s);
      PutAt(e, n, at, p);
      assert s[..|Before(p)|] == Before(p) && s[|Before(p)|..] == After(p);
      r := e;
    }

    /** `add234`. */
    method Add(e: Ptr) returns (r: Ptr)
      requires Valid() && e != NULL && (cmp.Some? ==> Monotone(cmp.value, e, Contents()))
      modifies this, linked
      ensures Valid() && fresh(linked - old(linked))
      ensures cmp.None? ==> r == NULL && Contents() == old(Contents())
      ensures cmp.Some? ==> SortedInsert(cmp.value, e, old(Contents()), Contents(), r)
    {
      if cmp.None? {
        return NULL;
      }
      r := AddSorted(e, cmp.value);
    }
  }
}
