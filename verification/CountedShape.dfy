/** The abstract side of the counted 2-3-4 tree of tree234.c.

    A `Tree` names the nodes of a subtree with their elements; a `Path` is a tree with one
    hole, read from the hole upwards. Lists of subtrees are treated as units, so every
    notion comes in a version for a tree and one for a list, with a law for `+`.
 */
module CountedShape {
  import Sequences

  /** A `void *`; 0 is NULL. */
  type Ptr = nat
  const NULL: Ptr := 0

  /** `struct node234_Tag`; the in-line C arrays are sequences of fixed length. */
  class Node {
    var parent: Node?
    var kids: seq<Node?>
    var counts: seq<int>
    var elems: seq<Ptr>

    constructor ()
      ensures parent == null
      ensures kids == [null, null, null, null] && counts == [0, 0, 0, 0] && elems == [NULL, NULL, NULL]
    {
      parent := null;
      kids := [null, null, null, null];
      counts := [0, 0, 0, 0];
      elems := [NULL, NULL, NULL];
    }
  }

  datatype Tree =
    | Leaf
    | Fork(node: Node, kids: seq<Tree>, elems: seq<Ptr>)

  /** The hole stands between the subtrees `left` and `right`; `el` and `er` are the
      elements of `node` before and after it. */
  datatype Path =
    | Top
    | Step(up: Path, node: Node, left: seq<Tree>, el: seq<Ptr>, er: seq<Ptr>, right: seq<Tree>)

  ghost function Root(t: Tree): (n: Node?)
    ensures n != null <==> t.Fork?
    ensures n != null ==> n in Nodes(t)
  {
    if t.Leaf? then null else t.node
  }

  ghost function Owner(p: Path): (n: Node?)
    ensures p.Top? ==> n == null
    ensures p.Step? ==> n == p.node && n in PathNodes(p)
  {
    if p.Top? then null else p.node
  }

  ghost function Grow(p: Path, t: Tree): Tree
    requires p.Step?
  {
    Fork(p.node, p.left + [t] + p.right, p.el + p.er)
  }

  /** The path from `t` to its `k`-th child, continuing `p`. */
  ghost function Enter(p: Path, t: Tree, k: nat): Path
    requires t.Fork? && k < |t.kids| && k <= |t.elems|
  {
    Step(p, t.node, t.kids[..k], t.elems[..k], t.elems[k..], t.kids[k + 1..])
  }

  lemma EnterGrow(p: Path, t: Tree, k: nat)
    requires t.Fork? && k < |t.kids| && k <= |t.elems|
    ensures Grow(Enter(p, t, k), t.kids[k]) == t
  {
    assert t.kids[..k] + [t.kids[k]] + t.kids[k + 1..] == t.kids;
    assert t.elems[..k] + t.elems[k..] == t.elems;
  }

  // ---------- nodes ----------

  ghost function Nodes(t: Tree): set<Node>
    decreases t, 0
  {
    if t.Leaf? then {} else {t.node} + AllNodes(t.kids)
  }

  ghost function AllNodes(ts: seq<Tree>): set<Node>
    decreases ts, 1
  {
    if ts == [] then {} else Nodes(ts[0]) + AllNodes(ts[1..])
  }

  ghost function PathNodes(p: Path): set<Node> {
    if p.Top? then {} else {p.node} + AllNodes(p.left) + AllNodes(p.right) + PathNodes(p.up)
  }

  /** No node occurs twice. */
  ghost predicate Distinct(t: Tree)
    decreases t, 0
  {
    t.Fork? ==> t.node !in AllNodes(t.kids) && AllDistinct(t.kids)
  }

  ghost predicate AllDistinct(ts: seq<Tree>)
    decreases ts, 1
  {
    ts != [] ==> Distinct(ts[0]) && AllDistinct(ts[1..]) && Nodes(ts[0]) !! AllNodes(ts[1..])
  }

  ghost predicate PathDistinct(p: Path) {
    p.Step? ==>
      && p.node !in AllNodes(p.left) && p.node !in AllNodes(p.right) && p.node !in PathNodes(p.up)
      && AllDistinct(p.left) && AllDistinct(p.right) && PathDistinct(p.up)
      && AllNodes(p.left) !! AllNodes(p.right)
      && AllNodes(p.left) + AllNodes(p.right) !! PathNodes(p.up)
  }

  lemma {:induction false} NodesCat(a: seq<Tree>, b: seq<Tree>)
    ensures AllNodes(a + b) == AllNodes(a) + AllNodes(b)
    ensures AllDistinct(a + b) <==> AllDistinct(a) && AllDistinct(b) && AllNodes(a) !! AllNodes(b)
  {
    if a == [] {
      assert a + b == b;
    } else {
      assert (a + b)[1..] == a[1..] + b;
      NodesCat(a[1..], b);
    }
  }

  // ---------- elements ----------

  /** The elements of a subtree in order. */
  ghost function Flat(t: Tree): seq<Ptr>
    decreases t, 0
  {
    if t.Leaf? then [] else Weave(t.kids, t.elems)
  }

  /** Subtrees with elements between them. */
  ghost function Weave(ts: seq<Tree>, es: seq<Ptr>): seq<Ptr>
    decreases ts, 1
  {
    if ts == [] then []
    else if es == [] then Flat(ts[0])
    else Flat(ts[0]) + [es[0]] + Weave(ts[1..], es[1..])
  }

  /** Subtrees, each followed by its element. */
  ghost function WeaveLeft(ts: seq<Tree>, es: seq<Ptr>): seq<Ptr> {
    if ts == [] || es == [] then [] else Flat(ts[0]) + [es[0]] + WeaveLeft(ts[1..], es[1..])
  }

  /** Subtrees, each preceded by its element. */
  ghost function WeaveRight(es: seq<Ptr>, ts: seq<Tree>): seq<Ptr> {
    if ts == [] || es == [] then [] else [es[0]] + Flat(ts[0]) + WeaveRight(es[1..], ts[1..])
  }

  lemma {:induction false} WeaveFrom(t: Tree, er: seq<Ptr>, right: seq<Tree>)
    requires |er| == |right|
    ensures Weave([t] + right, er) == Flat(t) + WeaveRight(er, right)
    decreases right
  {
    assert ([t] + right)[1..] == right;
    if er != [] {
      assert right == [right[0]] + right[1..];
      WeaveFrom(right[0], er[1..], right[1..]);
      assert Flat(t) + [er[0]] + (Flat(right[0]) + WeaveRight(er[1..], right[1..]))
          == Flat(t) + ([er[0]] + Flat(right[0]) + WeaveRight(er[1..], right[1..]));
    }
  }

  lemma {:induction false} WeaveAround(left: seq<Tree>, el: seq<Ptr>, t: Tree, er: seq<Ptr>, right: seq<Tree>)
    requires |left| == |el| && |er| == |right|
    ensures Weave(left + [t] + right, el + er) == WeaveLeft(left, el) + Flat(t) + WeaveRight(er, right)
  {
    if left == [] {
      assert left + [t] + right == [t] + right && el + er == er;
      WeaveFrom(t, er, right);
    } else {
      WeaveStep(left + [t] + right, el + er);
      WeaveStep(left, el);
      WeaveAround(left[1..], el[1..], t, er, right);
      hide *;
      assert (left + [t] + right)[1..] == left[1..] + [t] + right;
      assert (el + er)[1..] == el[1..] + er;
      Sequences.Five(Flat(left[0]), [el[0]], WeaveLeft(left[1..], el[1..]), Flat(t), WeaveRight(er, right));
    }
  }

  lemma WeaveStep(ts: seq<Tree>, es: seq<Ptr>)
    requires ts != [] && es != []
    ensures Weave(ts, es) == Flat(ts[0]) + [es[0]] + Weave(ts[1..], es[1..])
    ensures WeaveLeft(ts, es) == Flat(ts[0]) + [es[0]] + WeaveLeft(ts[1..], es[1..])
  {
  }

  ghost function Before(p: Path): seq<Ptr> {
    if p.Top? then [] else Before(p.up) + WeaveLeft(p.left, p.el)
  }

  ghost function After(p: Path): seq<Ptr> {
    if p.Top? then [] else WeaveRight(p.er, p.right) + After(p.up)
  }

  ghost function Whole(p: Path, t: Tree): seq<Ptr> {
    Before(p) + Flat(t) + After(p)
  }

  lemma WholeOfLeaf(p: Path)
    ensures Whole(p, Leaf) == Before(p) + After(p)
  {
  }

  lemma GrowWhole(p: Path, t: Tree)
    requires p.Step? && |p.left| == |p.el| && |p.right| == |p.er|
    ensures Whole(p.up, Grow(p, t)) == Whole(p, t)
    ensures Flat(Grow(p, t)) == WeaveLeft(p.left, p.el) + Flat(t) + WeaveRight(p.er, p.right)
  {
    WeaveAround(p.left, p.el, t, p.er, p.right);
    Sequences.Five(Before(p.up), WeaveLeft(p.left, p.el), Flat(t), WeaveRight(p.er, p.right), After(p.up));
  }

  // ---------- shape ----------

  /** A 2-3-4 tree of height `h`: equal leaf depth, one to three elements per node. */
  ghost predicate Sound(t: Tree, h: nat)
    decreases t, 0
  {
    if t.Leaf? then h == 0
    else h > 0 && 1 <= |t.elems| <= 3 && |t.kids| == |t.elems| + 1 && AllSound(t.kids, h - 1)
         && NULL !in t.elems
  }

  ghost predicate AllSound(ts: seq<Tree>, h: nat)
    decreases ts, 1
  {
    ts != [] ==> Sound(ts[0], h) && AllSound(ts[1..], h)
  }

  /** `p` is sound once a subtree of height `h` fills its hole. */
  ghost predicate PathSound(p: Path, h: nat) {
    p.Step? ==>
      && 1 <= |p.el| + |p.er| <= 3 && |p.left| == |p.el| && |p.right| == |p.er|
      && NULL !in p.el && NULL !in p.er
      && AllSound(p.left, h) && AllSound(p.right, h) && PathSound(p.up, h + 1)
  }

  lemma {:induction false} SoundCat(a: seq<Tree>, b: seq<Tree>, h: nat)
    ensures AllSound(a + b, h) <==> AllSound(a, h) && AllSound(b, h)
  {
    if a == [] {
      assert a + b == b;
    } else {
      assert (a + b)[1..] == a[1..] + b;
      SoundCat(a[1..], b, h);
    }
  }

  // ---------- what a node stores about its subtrees ----------

  ghost function Roots(ts: seq<Tree>): (r: seq<Node?>)
    ensures |r| == |ts|
  {
    seq(|ts|, i requires 0 <= i < |ts| => Root(ts[i]))
  }

  ghost function Sizes(ts: seq<Tree>): (r: seq<int>)
    ensures |r| == |ts|
  {
    seq(|ts|, i requires 0 <= i < |ts| => |Flat(ts[i])|)
  }

  lemma RootsCat(a: seq<Tree>, b: seq<Tree>)
    ensures Roots(a + b) == Roots(a) + Roots(b)
    ensures Sizes(a + b) == Sizes(a) + Sizes(b)
  {
  }

  ghost function Sum(s: seq<int>): int {
    if s == [] then 0 else s[0] + Sum(s[1..])
  }

  lemma {:induction false} WeaveLength(ts: seq<Tree>, es: seq<Ptr>)
    requires |ts| == |es| + 1
    ensures |Weave(ts, es)| == Sum(Sizes(ts)) + |es|
  {
    assert Sizes(ts)[1..] == Sizes(ts[1..]);
    if es != [] {
      WeaveLength(ts[1..], es[1..]);
    }
  }

  /** The size of the tree that owns the hole, when the hole counts for `count`. */
  ghost function StepCount(p: Path, count: int): int
    requires p.Step?
  {
    |WeaveLeft(p.left, p.el)| + count + |WeaveRight(p.er, p.right)|
  }

  // ---------- a list around one of its members ----------

  lemma Around(a: seq<Tree>, t: Tree, b: seq<Tree>)
    ensures AllNodes(a + [t] + b) == AllNodes(a) + Nodes(t) + AllNodes(b)
    ensures AllDistinct(a + [t] + b) <==>
            && AllDistinct(a) && Distinct(t) && AllDistinct(b)
            && AllNodes(a) !! Nodes(t) && AllNodes(a) !! AllNodes(b) && Nodes(t) !! AllNodes(b)
    ensures Roots(a + [t] + b) == Roots(a) + [Root(t)] + Roots(b)
    ensures Sizes(a + [t] + b) == Sizes(a) + [|Flat(t)|] + Sizes(b)
  {
    NodesCat(a, [t]);
    NodesCat(a + [t], b);
    assert AllNodes([t]) == Nodes(t);
    assert AllDistinct([t]) == Distinct(t);
  }

  lemma SoundAround(a: seq<Tree>, t: Tree, b: seq<Tree>, h: nat)
    ensures AllSound(a + [t] + b, h) <==> AllSound(a, h) && Sound(t, h) && AllSound(b, h)
  {
    SoundCat(a, [t], h);
    SoundCat(a + [t], b, h);
  }

  // ---------- indices ----------

  /** Number of elements before the `k`-th subtree. */
  ghost function Prefix(ts: seq<Tree>, es: seq<Ptr>, k: nat): int
    requires k <= |ts| && k <= |es|
  {
    if k == 0 then 0 else Prefix(ts, es, k - 1) + |Flat(ts[k - 1])| + 1
  }

  lemma {:induction false} WeaveLeftSnoc(ts: seq<Tree>, es: seq<Ptr>, t: Tree, e: Ptr)
    requires |ts| == |es|
    ensures WeaveLeft(ts + [t], es + [e]) == WeaveLeft(ts, es) + Flat(t) + [e]
  {
    if ts == [] {
      assert ts + [t] == [t] && es + [e] == [e];
    } else {
      WeaveStep(ts + [t], es + [e]);
      WeaveStep(ts, es);
      WeaveLeftSnoc(ts[1..], es[1..], t, e);
      hide *;
      assert (ts + [t])[1..] == ts[1..] + [t] && (es + [e])[1..] == es[1..] + [e];
      Sequences.Five(Flat(ts[0]), [es[0]], WeaveLeft(ts[1..], es[1..]), Flat(t), [e]);
    }
  }

  lemma {:induction false} PrefixIsLength(ts: seq<Tree>, es: seq<Ptr>, k: nat)
    requires k <= |ts| && k <= |es|
    ensures Prefix(ts, es, k) == |WeaveLeft(ts[..k], es[..k])|
  {
    if k > 0 {
      PrefixIsLength(ts, es, k - 1);
      assert ts[..k] == ts[..k - 1] + [ts[k - 1]] && es[..k] == es[..k - 1] + [es[k - 1]];
      WeaveLeftSnoc(ts[..k - 1], es[..k - 1], ts[k - 1], es[k - 1]);
    }
  }

  /** The elements of a node, seen from its `k`-th subtree. */
  lemma WeaveAt(ts: seq<Tree>, es: seq<Ptr>, k: nat)
    requires |ts| == |es| + 1 && k < |ts|
    ensures Weave(ts, es) == WeaveLeft(ts[..k], es[..k]) + Flat(ts[k]) + WeaveRight(es[k..], ts[k + 1..])
    ensures Prefix(ts, es, k) == |WeaveLeft(ts[..k], es[..k])|
    ensures k < |es| ==> WeaveRight(es[k..], ts[k + 1..]) != [] && WeaveRight(es[k..], ts[k + 1..])[0] == es[k]
    ensures k == |es| ==> WeaveRight(es[k..], ts[k + 1..]) == []
  {
    assert ts[..k] + [ts[k]] + ts[k + 1..] == ts;
    assert es[..k] + es[k..] == es;
    WeaveAround(ts[..k], es[..k], ts[k], es[k..], ts[k + 1..]);
    PrefixIsLength(ts, es, k);
  }

  // ---------- two neighbours in a list ----------

  lemma NodesPair(a: seq<Tree>, x: Tree, y: Tree, b: seq<Tree>)
    ensures AllNodes(a + [x, y] + b) == AllNodes(a) + Nodes(x) + Nodes(y) + AllNodes(b)
    ensures AllDistinct(a + [x, y] + b) <==>
            && AllDistinct(a) && Distinct(x) && Distinct(y) && AllDistinct(b)
            && AllNodes(a) !! Nodes(x) && AllNodes(a) !! Nodes(y) && AllNodes(a) !! AllNodes(b)
            && Nodes(x) !! Nodes(y) && Nodes(x) !! AllNodes(b) && Nodes(y) !! AllNodes(b)
  {
    assert a + [x, y] + b == a + ([x, y] + b);
    NodesCat(a, [x, y] + b);
    assert ([x, y] + b)[1..] == [y] + b && ([y] + b)[1..] == b;
  }

  lemma StoredPair(a: seq<Tree>, x: Tree, y: Tree, b: seq<Tree>)
    ensures Roots(a + [x, y] + b) == Roots(a) + [Root(x), Root(y)] + Roots(b)
    ensures Sizes(a + [x, y] + b) == Sizes(a) + [|Flat(x)|, |Flat(y)|] + Sizes(b)
  {
  }

  lemma AroundPair(a: seq<Tree>, x: Tree, y: Tree, b: seq<Tree>)
    ensures AllNodes(a + [x, y] + b) == AllNodes(a) + Nodes(x) + Nodes(y) + AllNodes(b)
    ensures AllDistinct(a + [x, y] + b) <==>
            && AllDistinct(a) && Distinct(x) && Distinct(y) && AllDistinct(b)
            && AllNodes(a) !! Nodes(x) && AllNodes(a) !! Nodes(y) && AllNodes(a) !! AllNodes(b)
            && Nodes(x) !! Nodes(y) && Nodes(x) !! AllNodes(b) && Nodes(y) !! AllNodes(b)
    ensures Roots(a + [x, y] + b) == Roots(a) + [Root(x), Root(y)] + Roots(b)
    ensures Sizes(a + [x, y] + b) == Sizes(a) + [|Flat(x)|, |Flat(y)|] + Sizes(b)
  {
    hide *;
    NodesPair(a, x, y, b);
    StoredPair(a, x, y, b);
  }

  lemma SoundPair(a: seq<Tree>, x: Tree, y: Tree, b: seq<Tree>, h: nat)
    ensures AllSound(a + [x, y] + b, h) <==> AllSound(a, h) && Sound(x, h) && Sound(y, h) && AllSound(b, h)
  {
    assert a + [x, y] + b == a + [x] + ([y] + b);
    SoundAround(a, x, [y] + b, h);
    assert [] + [y] + b == [y] + b;
    SoundAround([], y, b, h);
  }

  lemma WeavePair(a: seq<Tree>, el: seq<Ptr>, x: Tree, e: Ptr, y: Tree, er: seq<Ptr>, b: seq<Tree>)
    requires |a| == |el| && |b| == |er|
    ensures Weave(a + [x, y] + b, el + [e] + er)
         == WeaveLeft(a, el) + (Flat(x) + [e] + Flat(y)) + WeaveRight(er, b)
  {
    assert a + [x, y] + b == a + [x] + ([y] + b) && el + [e] + er == el + ([e] + er);
    WeaveAround(a, el, x, [e] + er, [y] + b);
    assert ([e] + er)[1..] == er && ([y] + b)[1..] == b;
    var u, v, w, z := WeaveLeft(a, el), Flat(x), Flat(y), WeaveRight(er, b);
    assert WeaveRight([e] + er, [y] + b) == [e] + w + z;
    Sequences.Five(u, v, [e], w, z);
  }

  lemma {:induction false} WeaveSplit(ts: seq<Tree>, es: seq<Ptr>, k: nat)
    requires |ts| == |es| + 1 && k < |es|
    ensures Weave(ts, es) == Weave(ts[..k + 1], es[..k]) + [es[k]] + Weave(ts[k + 1..], es[k + 1..])
  {
    if k > 0 {
      WeaveSplit(ts[1..], es[1..], k - 1);
      assert ts[1..][..k] == ts[..k + 1][1..] && es[1..][..k - 1] == es[..k][1..];
      assert ts[1..][k..] == ts[k + 1..] && es[1..][k..] == es[k + 1..];
      var a, b, c := Flat(ts[0]) + [es[0]], Weave(ts[..k + 1][1..], es[..k][1..]), Weave(ts[k + 1..], es[k + 1..]);
      assert a + (b + [es[k]] + c) == (a + b) + [es[k]] + c;
    }
  }

  /** The node that owns the hole, with `l`, `e`, `r` in place of the hole. */
  ghost function Widened(p: Path, l: Tree, e: Ptr, r: Tree): Tree
    requires p.Step?
  {
    Fork(p.node, p.left + [l, r] + p.right, p.el + [e] + p.er)
  }

  lemma WidenedSound(p: Path, l: Tree, e: Ptr, r: Tree, h: nat)
    requires p.Step? && PathSound(p, h) && Sound(l, h) && Sound(r, h) && e != NULL
    ensures var t := Widened(p, l, e, r);
            && |t.kids| == |t.elems| + 1 && NULL !in t.elems && AllSound(t.kids, h)
            && (|p.el| + |p.er| <= 2 ==> Sound(t, h + 1))
            && Flat(t) == WeaveLeft(p.left, p.el) + (Flat(l) + [e] + Flat(r)) + WeaveRight(p.er, p.right)
            && Before(p.up) + Flat(t) + After(p.up) == Before(p) + (Flat(l) + [e] + Flat(r)) + After(p)
  {
    SoundPair(p.left, l, r, p.right, h);
    WeavePair(p.left, p.el, l, e, r, p.er, p.right);
    Sequences.Five(Before(p.up), WeaveLeft(p.left, p.el), Flat(l) + [e] + Flat(r), WeaveRight(p.er, p.right),
      After(p.up));
  }

  /** An overfull node (five subtrees, four elements) split around its third element. */
  ghost function LowHalf(t: Tree, m: Node): Tree
    requires t.Fork? && |t.kids| == 5 && |t.elems| == 4
  {
    Fork(m, t.kids[..3], t.elems[..2])
  }

  ghost function HighHalf(t: Tree): Tree
    requires t.Fork? && |t.kids| == 5 && |t.elems| == 4
  {
    Fork(t.node, t.kids[3..], t.elems[3..])
  }

  lemma HalvesSound(t: Tree, m: Node, h: nat)
    requires t.Fork? && |t.kids| == 5 && |t.elems| == 4
    requires AllSound(t.kids, h) && NULL !in t.elems
    ensures Sound(LowHalf(t, m), h + 1) && Sound(HighHalf(t), h + 1)
    ensures Flat(t) == Flat(LowHalf(t, m)) + [t.elems[2]] + Flat(HighHalf(t))
  {
    assert t.kids == t.kids[..3] + t.kids[3..];
    SoundCat(t.kids[..3], t.kids[3..], h);
    WeaveSplit(t.kids, t.elems, 2);
  }

  lemma HalvesDistinct(t: Tree, m: Node)
    requires t.Fork? && |t.kids| == 5 && |t.elems| == 4 && Distinct(t) && m !in Nodes(t)
    ensures Distinct(LowHalf(t, m)) && Distinct(HighHalf(t)) && Nodes(LowHalf(t, m)) !! Nodes(HighHalf(t))
    ensures Nodes(LowHalf(t, m)) + Nodes(HighHalf(t)) == Nodes(t) + {m}
  {
    assert t.kids == t.kids[..3] + t.kids[3..];
    NodesCat(t.kids[..3], t.kids[3..]);
  }

  /** Entering a child, without the heap. */
  lemma EnterFacts(p: Path, t: Tree, k: nat, h: nat)
    requires t.Fork? && k < |t.kids| && Sound(t, h + 1) && PathSound(p, h + 1)
    requires Distinct(t) && PathDistinct(p) && Nodes(t) !! PathNodes(p)
    ensures var q, u := Enter(p, t, k), t.kids[k];
            && Sound(u, h) && PathSound(q, h) && Whole(q, u) == Whole(p, t)
            && Distinct(u) && PathDistinct(q) && Nodes(u) !! PathNodes(q)
            && Nodes(u) + PathNodes(q) == Nodes(t) + PathNodes(p)
            && StepCount(q, |Flat(u)|) == |Flat(t)|
            && Roots(t.kids) == Roots(q.left) + [Root(u)] + Roots(q.right)
            && Sizes(t.kids) == Sizes(q.left) + [|Flat(u)|] + Sizes(q.right)
            && t.kids == q.left + [u] + q.right && t.elems == q.el + q.er
  {
    var q, u := Enter(p, t, k), t.kids[k];
    EnterGrow(p, t, k);
    GrowWhole(q, u);
    EnterSound(p, t, k, h);
    EnterNodes(p, t, k);
    hide Sound, PathSound, Distinct, PathDistinct, Nodes, PathNodes, Flat, Whole;
  }

  lemma EnterSound(p: Path, t: Tree, k: nat, h: nat)
    requires t.Fork? && k < |t.kids| && Sound(t, h + 1) && PathSound(p, h + 1)
    ensures k <= |t.elems| && Sound(t.kids[k], h) && PathSound(Enter(p, t, k), h)
  {
    hide Nodes, Flat, Distinct;
    var q, u := Enter(p, t, k), t.kids[k];
    assert q.left + [u] + q.right == t.kids;
    SoundAround(q.left, u, q.right, h);
    assert forall e | e in t.elems[..k] || e in t.elems[k..] :: e in t.elems;
  }

  lemma EnterNodes(p: Path, t: Tree, k: nat)
    requires t.Fork? && k < |t.kids| == |t.elems| + 1
    requires Distinct(t) && PathDistinct(p) && Nodes(t) !! PathNodes(p)
    ensures var q, u := Enter(p, t, k), t.kids[k];
            && Distinct(u) && PathDistinct(q) && Nodes(u) !! PathNodes(q)
            && Nodes(u) + PathNodes(q) == Nodes(t) + PathNodes(p)
            && Roots(t.kids) == Roots(q.left) + [Root(u)] + Roots(q.right)
            && Sizes(t.kids) == Sizes(q.left) + [|Flat(u)|] + Sizes(q.right)
            && t.kids == q.left + [u] + q.right && t.elems == q.el + q.er
  {
    hide Flat;
    var q, u := Enter(p, t, k), t.kids[k];
    assert q.left + [u] + q.right == t.kids;
    Around(q.left, u, q.right);
  }

  lemma {:induction false} RootsAmongNodes(ts: seq<Tree>, i: nat)
    requires i < |ts|
    ensures Roots(ts)[i] != null ==> Roots(ts)[i] in AllNodes(ts)
    ensures Nodes(ts[i]) <= AllNodes(ts)
  {
    assert ts == ts[..i] + [ts[i]] + ts[i + 1..];
    Around(ts[..i], ts[i], ts[i + 1..]);
  }

  /** Splitting the node that owns the hole, without the heap. */
  lemma SplitFacts(p: Path, l: Tree, e: Ptr, r: Tree, m: Node, h: nat)
    requires p.Step? && |p.el| + |p.er| == 3 && e != NULL
    requires Sound(l, h) && Sound(r, h) && PathSound(p, h)
    requires Distinct(l) && Distinct(r) && PathDistinct(p)
    requires Nodes(l) !! Nodes(r) && Nodes(l) !! PathNodes(p) && Nodes(r) !! PathNodes(p)
    requires m !in Nodes(l) + Nodes(r) + PathNodes(p)
    ensures var t := Widened(p, l, e, r); var lo, hi := LowHalf(t, m), HighHalf(t);
            && Distinct(t) && Nodes(t) + PathNodes(p.up) == Nodes(l) + Nodes(r) + PathNodes(p)
            && Sound(lo, h + 1) && Sound(hi, h + 1) && PathSound(p.up, h + 1)
            && Distinct(lo) && Distinct(hi) && Nodes(lo) !! Nodes(hi)
            && Nodes(lo) + Nodes(hi) == Nodes(t) + {m}
            && Nodes(t) !! PathNodes(p.up)
            && Flat(lo) + [t.elems[2]] + Flat(hi) == Flat(t) && t.elems[2] != NULL
  {
    var t := Widened(p, l, e, r);
    AroundPair(p.left, l, r, p.right);
    HalvesDistinct(t, m);
    WidenedSound(p, l, e, r, h);
    HalvesSound(t, m, h);
  }

  // ---------- order ----------

  /** `cmpfn234`; it is always called with the query as its first argument. */
  type Cmp = (Ptr, Ptr) -> int

  datatype Option<T> = None | Some(value: T)

  /** Seen from `e`, the elements of `s` come in this order: smaller ones, equal ones,
      larger ones. This is all a search needs of its comparison function. */
  ghost predicate Monotone(cmp: Cmp, e: Ptr, s: seq<Ptr>) {
    && (forall i, j | 0 <= i < j < |s| :: cmp(e, s[i]) < 0 ==> cmp(e, s[j]) < 0)
    && (forall i, j | 0 <= i < j < |s| :: cmp(e, s[j]) > 0 ==> cmp(e, s[i]) > 0)
  }

  /** How many elements are smaller than `e`. */
  ghost function Rank(cmp: Cmp, e: Ptr, s: seq<Ptr>): nat {
    if s == [] || cmp(e, s[0]) <= 0 then 0 else 1 + Rank(cmp, e, s[1..])
  }

  lemma {:induction false} RankIs(cmp: Cmp, e: Ptr, s: seq<Ptr>, i: nat)
    requires i <= |s|
    requires forall j | 0 <= j < i :: cmp(e, s[j]) > 0
    requires i < |s| ==> cmp(e, s[i]) <= 0
    ensures Rank(cmp, e, s) == i
  {
    if i > 0 {
      assert forall j | 0 <= j < i - 1 :: s[1..][j] == s[j + 1];
      RankIs(cmp, e, s[1..], i - 1);
    }
  }

  /** The elements next to the hole that a child leaves. */
  lemma EnterNeighbours(p: Path, t: Tree, k: nat)
    requires t.Fork? && |t.kids| == |t.elems| + 1 && k <= |t.elems|
    ensures var q := Enter(p, t, k);
            && (if k == 0 then Before(q) == Before(p)
                else |Before(q)| > 0 && Before(q)[|Before(q)| - 1] == t.elems[k - 1])
            && (if k == |t.elems| then After(q) == After(p)
                else |After(q)| > 0 && After(q)[0] == t.elems[k])
  {
    var q := Enter(p, t, k);
    if k > 0 {
      assert q.left == t.kids[..k - 1] + [t.kids[k - 1]] && q.el == t.elems[..k - 1] + [t.elems[k - 1]];
      WeaveLeftSnoc(t.kids[..k - 1], t.elems[..k - 1], t.kids[k - 1], t.elems[k - 1]);
    }
    if k == |t.elems| {
      assert WeaveRight(q.er, q.right) == [];
    }
  }

  /** The search has narrowed to the hole of `p`. */
  ghost predicate Narrowed(cmp: Cmp, e: Ptr, p: Path) {
    && (Before(p) != [] ==> cmp(e, Before(p)[|Before(p)| - 1]) > 0)
    && (After(p) != [] ==> cmp(e, After(p)[0]) < 0)
  }

  lemma NarrowedRank(cmp: Cmp, e: Ptr, p: Path, s: seq<Ptr>)
    requires Narrowed(cmp, e, p) && s == Before(p) + After(p) && Monotone(cmp, e, s)
    ensures Rank(cmp, e, s) == |Before(p)|
    ensures forall x | x in s :: cmp(e, x) != 0
  {
    var i := |Before(p)|;
    hide Before, After;
    assert i > 0 ==> s[i - 1] == Before(p)[i - 1];
    assert i < |s| ==> s[i] == After(p)[0];
    assert forall j | 0 <= j < i :: cmp(e, s[j]) > 0;
    assert forall j | i <= j < |s| :: cmp(e, s[j]) < 0;
    RankIs(cmp, e, s, i);
  }

  /** A new root above the two halves of the old one. */
  lemma NewRootFacts(n: Node, l: Tree, e: Ptr, r: Tree, h: nat)
    requires Sound(l, h) && Sound(r, h) && e != NULL
    requires Distinct(l) && Distinct(r) && Nodes(l) !! Nodes(r) && n !in Nodes(l) + Nodes(r)
    ensures var t := Fork(n, [l, r], [e]);
            && Sound(t, h + 1) && Distinct(t) && Nodes(t) == Nodes(l) + Nodes(r) + {n}
            && Flat(t) == Flat(l) + [e] + Flat(r)
            && Roots([l, r]) == [Root(l), Root(r)] && Sizes([l, r]) == [|Flat(l)|, |Flat(r)|]
            && AllNodes([l, r]) == Nodes(l) + Nodes(r) && AllDistinct([l, r])
  {
    assert [] + [l, r] + [] == [l, r] && [] + [e] + [] == [e];
    AroundPair([], l, r, []);
    SoundPair([], l, r, [], h);
    WeavePair([], [], l, e, r, [], []);
    assert [] + (Flat(l) + [e] + Flat(r)) + [] == Flat(l) + [e] + Flat(r);
  }

  /** In a leaf node the number of a child is the number of elements before it. */
  lemma LeafIndex(t: Tree, h: nat, k: nat)
    requires t.Fork? && Sound(t, h) && t.kids[0].Leaf? && k <= |Flat(t)|
    ensures k <= |t.elems| && Prefix(t.kids, t.elems, k) == k && t.kids[k].Leaf?
  {
    SoundKid(t, h, 0);
    assert h == 1;
    WeaveAt(t.kids, t.elems, |t.elems|);
    SoundKid(t, h, |t.elems|);
    LeafPrefix(t, h, |t.elems|);
    LeafPrefix(t, h, k);
    SoundKid(t, h, k);
  }

  lemma SoundKid(t: Tree, h: nat, k: nat)
    requires t.Fork? && Sound(t, h) && k < |t.kids|
    ensures Sound(t.kids[k], h - 1)
  {
    assert t.kids == t.kids[..k] + [t.kids[k]] + t.kids[k + 1..];
    SoundAround(t.kids[..k], t.kids[k], t.kids[k + 1..], h - 1);
  }

  lemma {:induction false} LeafPrefix(t: Tree, h: nat, k: nat)
    requires t.Fork? && Sound(t, h) && h == 1 && k <= |t.elems|
    ensures Prefix(t.kids, t.elems, k) == k
  {
    if k > 0 {
      SoundKid(t, h, k - 1);
      LeafPrefix(t, h, k - 1);
    }
  }

  /** What a sorted insertion of `e` makes of `s`: nothing if `s` holds an element equal to
      `e`, otherwise `e` goes right after the smaller elements. */
  ghost predicate SortedInsert(cmp: Cmp, e: Ptr, s: seq<Ptr>, s': seq<Ptr>, r: Ptr) {
    if exists x :: x in s && cmp(e, x) == 0
    then s' == s && r in s && cmp(e, r) == 0
    else r == e && var i := Rank(cmp, e, s); i <= |s| && s' == s[..i] + [e] + s[i..]
  }

  lemma OwnElement(p: Path, t: Tree, k: nat)
    requires t.Fork? && |t.kids| == |t.elems| + 1 && k < |t.elems|
    ensures t.elems[k] in Whole(p, t)
  {
    WeaveAt(t.kids, t.elems, k);
    var a, b, c := WeaveLeft(t.kids[..k], t.elems[..k]), Flat(t.kids[k]), WeaveRight(t.elems[k..], t.kids[k + 1..]);
    assert (a + b + c)[|a + b|] == c[0];
    assert t.elems[k] in Flat(t);
  }

  lemma NarrowedStep(cmp: Cmp, e: Ptr, p: Path, t: Tree, k: nat)
    requires Narrowed(cmp, e, p) && t.Fork? && |t.kids| == |t.elems| + 1 && k <= |t.elems|
    requires (k > 0 ==> cmp(e, t.elems[k - 1]) > 0) && (k < |t.elems| ==> cmp(e, t.elems[k]) < 0)
    ensures Narrowed(cmp, e, Enter(p, t, k))
  {
    EnterNeighbours(p, t, k);
  }

  lemma {:induction false} PrefixMonotone(ts: seq<Tree>, es: seq<Ptr>, i: nat, j: nat)
    requires i <= j <= |ts| && j <= |es|
    ensures Prefix(ts, es, i) + (j - i) <= Prefix(ts, es, j)
    ensures 0 <= Prefix(ts, es, i)
  {
    if i < j {
      PrefixMonotone(ts, es, i, j - 1);
    } else if i > 0 {
      PrefixMonotone(ts, es, i - 1, i - 1);
    }
  }

  /** Where the `k`-th subtree and the `k`-th element of a node end up. */
  lemma SlotAt(ts: seq<Tree>, es: seq<Ptr>, k: nat)
    requires |ts| == |es| + 1 && k < |ts|
    ensures var end := Prefix(ts, es, k) + |Flat(ts[k])|;
            && 0 <= Prefix(ts, es, k) <= end <= |Weave(ts, es)|
            && (k < |es| ==> end < |Weave(ts, es)| && Weave(ts, es)[end] == es[k])
            && (k == |es| ==> end == |Weave(ts, es)|)
  {
    WeaveAt(ts, es, k);
    var a, b, c := WeaveLeft(ts[..k], es[..k]), Flat(ts[k]), WeaveRight(es[k..], ts[k + 1..]);
    assert c != [] ==> (a + b + c)[|a| + |b|] == c[0];
  }

  lemma WholeAt(p: Path, t: Tree, i: nat)
    requires i < |Flat(t)|
    ensures |Before(p)| + i < |Whole(p, t)| && Whole(p, t)[|Before(p)| + i] == Flat(t)[i]
  {
  }

  lemma BeforeEnter(p: Path, t: Tree, k: nat)
    requires t.Fork? && |t.kids| == |t.elems| + 1 && k < |t.kids|
    ensures |Before(Enter(p, t, k))| == |Before(p)| + Prefix(t.kids, t.elems, k)
  {
    PrefixIsLength(t.kids, t.elems, k);
  }

  lemma {:induction false} NoNulls(t: Tree, h: nat)
    requires Sound(t, h)
    ensures NULL !in Flat(t)
    decreases h, 1
  {
    if t.Fork? {
      NoNullsIn(t.kids, t.elems, h - 1);
    }
  }

  lemma {:induction false} NoNullsIn(ts: seq<Tree>, es: seq<Ptr>, h: nat)
    requires AllSound(ts, h) && NULL !in es
    ensures NULL !in Weave(ts, es)
    decreases h, 2 + |ts|
  {
    if ts != [] {
      NoNulls(ts[0], h);
      if es != [] {
        NoNullsIn(ts[1..], es[1..], h);
      }
    }
  }
}
