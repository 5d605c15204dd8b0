/** The abstract side of the red-black tree: which node hangs where, and in which colour.

    A `Tree` names the nodes of a subtree; a `Path` is a tree with one hole, read from
    the hole upwards. Everything the fix-up loops have to keep (black heights, no red
    node under a red node, the in-order sequence of nodes) is a property of these two
    values, so it is stated and proved here without any heap.
 */
module RbShape {
  import Sequences

  /** `struct rb_node`; the packed word `rb_parent_color` is kept as two fields. */
  class Node {
    var left: Node?
    var right: Node?
    var parent: Node?
    var red: bool

    constructor ()
      ensures left == right == parent == null
    {
      left, right, parent, red := null, null, null, true;
    }
  }

  datatype Tree =
    | Leaf
    | Fork(left: Tree, node: Node, red: bool, right: Tree)

  datatype Path =
    | Top
    | InLeft(up: Path, node: Node, red: bool, right: Tree)
    | InRight(up: Path, left: Tree, node: Node, red: bool)

  // ---------- which nodes, in which order ----------

  ghost function Root(t: Tree): (n: Node?)
    ensures n != null <==> t.Fork?
    ensures n != null ==> n in Nodes(t)
  {
    if t.Leaf? then null else t.node
  }

  ghost function Owner(p: Path): (n: Node?)
    ensures n != null <==> !p.Top?
    ensures n != null ==> n in PathNodes(p)
  {
    if p.Top? then null else p.node
  }

  ghost function Nodes(t: Tree): set<Node> {
    if t.Leaf? then {} else Nodes(t.left) + {t.node} + Nodes(t.right)
  }

  ghost function PathNodes(p: Path): set<Node> {
    match p
    case Top => {}
    case InLeft(up, n, _, r) => PathNodes(up) + {n} + Nodes(r)
    case InRight(up, l, n, _) => PathNodes(up) + {n} + Nodes(l)
  }

  /** No node occurs twice. */
  ghost predicate Distinct(t: Tree) {
    t.Fork? ==>
      && Distinct(t.left) && Distinct(t.right)
      && t.node !in Nodes(t.left) && t.node !in Nodes(t.right)
      && Nodes(t.left) !! Nodes(t.right)
  }

  ghost predicate PathDistinct(p: Path) {
    match p
    case Top => true
    case InLeft(up, n, _, r) =>
      && PathDistinct(up) && Distinct(r)
      && n !in PathNodes(up) && n !in Nodes(r) && PathNodes(up) !! Nodes(r)
    case InRight(up, l, n, _) =>
      && PathDistinct(up) && Distinct(l)
      && n !in PathNodes(up) && n !in Nodes(l) && PathNodes(up) !! Nodes(l)
  }

  ghost function InOrder(t: Tree): seq<Node> {
    if t.Leaf? then [] else InOrder(t.left) + [t.node] + InOrder(t.right)
  }

  ghost function Before(p: Path): seq<Node> {
    match p
    case Top => []
    case InLeft(up, _, _, _) => Before(up)
    case InRight(up, l, n, _) => Before(up) + InOrder(l) + [n]
  }

  ghost function After(p: Path): seq<Node> {
    match p
    case Top => []
    case InLeft(up, n, _, r) => [n] + InOrder(r) + After(up)
    case InRight(up, _, _, _) => After(up)
  }

  /** The nodes of the whole tree in order, with `t` in the hole of `p`. */
  ghost function Whole(p: Path, t: Tree): seq<Node> {
    Before(p) + InOrder(t) + After(p)
  }

  ghost function Plug(p: Path, t: Tree): Tree {
    match p
    case Top => t
    case InLeft(up, n, c, r) => Plug(up, Fork(t, n, c, r))
    case InRight(up, l, n, c) => Plug(up, Fork(l, n, c, t))
  }

  /** One step up: the tree of the node that owns the hole. */
  ghost function Grow(p: Path, t: Tree): Tree
    requires !p.Top?
  {
    match p
    case InLeft(_, n, c, r) => Fork(t, n, c, r)
    case InRight(_, l, n, c) => Fork(l, n, c, t)
  }

  lemma GrowWhole(p: Path, t: Tree)
    requires !p.Top?
    ensures Whole(p.up, Grow(p, t)) == Whole(p, t)
  {
    match p
    case InLeft(up, n, c, r) =>
      assert InOrder(Grow(p, t)) == InOrder(t) + [n] + InOrder(r);
      assert Whole(up, Grow(p, t)) == Before(up) + InOrder(t) + ([n] + InOrder(r) + After(up));
    case InRight(up, l, n, c) =>
      assert InOrder(Grow(p, t)) == InOrder(l) + [n] + InOrder(t);
      assert Whole(up, Grow(p, t)) == (Before(up) + InOrder(l) + [n]) + InOrder(t) + After(up);
  }

  lemma {:induction false} PlugInOrder(p: Path, t: Tree)
    ensures InOrder(Plug(p, t)) == Whole(p, t)
  {
    match p
    case Top =>
      assert Whole(p, t) == InOrder(t);
    case InLeft(up, n, c, r) =>
      GrowWhole(p, t);
      PlugInOrder(up, Fork(t, n, c, r));
    case InRight(up, l, n, c) =>
      GrowWhole(p, t);
      PlugInOrder(up, Fork(l, n, c, t));
  }

  lemma {:induction false} InOrderNodes(t: Tree)
    ensures forall x :: x in InOrder(t) <==> x in Nodes(t)
  {
    if t.Fork? {
      InOrderNodes(t.left);
      InOrderNodes(t.right);
    }
  }

  /** `s` without the first `x` in it. */
  ghost function Without(s: seq<Node>, x: Node): seq<Node> {
    if s == [] then [] else if s[0] == x then s[1..] else [s[0]] + Without(s[1..], x)
  }

  lemma {:induction false} WithoutAt(a: seq<Node>, x: Node, b: seq<Node>)
    requires x !in a
    ensures Without(a + [x] + b, x) == a + b
  {
    var s := a + [x] + b;
    if a == [] {
      assert s[0] == x && s[1..] == b;
    } else {
      assert s[0] == a[0] && s[1..] == a[1..] + [x] + b;
      WithoutAt(a[1..], x, b);
      assert [a[0]] + (a[1..] + b) == a + b;
    }
  }

  /** The node right after the first `x` in `s`, if there is one. */
  ghost function NextIn(s: seq<Node>, x: Node): Node? {
    if s == [] then null
    else if s[0] == x then (if |s| > 1 then s[1] else null)
    else NextIn(s[1..], x)
  }

  /** The node before `x` in `s`, or null. */
  ghost function PrevIn(s: seq<Node>, x: Node): Node? {
    if |s| < 2 || s[0] == x then null
    else if s[1] == x then s[0]
    else PrevIn(s[1..], x)
  }

  lemma {:induction false} PrevInAt(a: seq<Node>, x: Node, b: seq<Node>)
    requires x !in a
    ensures PrevIn(a + [x] + b, x) == if a == [] then null else a[|a| - 1]
  {
    var s := a + [x] + b;
    if a != [] {
      assert s[1..] == a[1..] + [x] + b;
      PrevInAt(a[1..], x, b);
      assert a[0] in a && s[0] == a[0];
      assert s[1] == if |a| == 1 then x else a[1];
      assert |a| > 1 ==> a[1] in a;
    }
  }

  lemma {:induction false} NextInAt(a: seq<Node>, x: Node, b: seq<Node>)
    requires x !in a
    ensures NextIn(a + [x] + b, x) == if b == [] then null else b[0]
  {
    var s := a + [x] + b;
    if a == [] {
      assert s == [x] + b;
    } else {
      assert s[0] == a[0] && s[1..] == a[1..] + [x] + b;
      NextInAt(a[1..], x, b);
    }
  }

  lemma {:induction false} BeforeNodes(p: Path)
    ensures forall x :: x in Before(p) || x in After(p) ==> x in PathNodes(p)
  {
    match p
    case Top =>
    case InLeft(up, n, _, r) =>
      BeforeNodes(up);
      InOrderNodes(r);
      assert forall x :: x in After(p) ==> x == n || x in InOrder(r) || x in After(up);
    case InRight(up, l, n, _) =>
      BeforeNodes(up);
      InOrderNodes(l);
      assert forall x :: x in Before(p) ==> x == n || x in InOrder(l) || x in Before(up);
  }

  // ---------- colours ----------

  ghost predicate IsRed(t: Tree) {
    t.Fork? && t.red
  }

  /** Black nodes on the way down the left spine. */
  ghost function BlackHeight(t: Tree): nat {
    if t.Leaf? then 0 else BlackHeight(t.left) + if t.red then 0 else 1
  }

  /** Every way down to a leaf meets the same number of black nodes. */
  ghost predicate Balanced(t: Tree) {
    t.Fork? ==> Balanced(t.left) && Balanced(t.right) && BlackHeight(t.left) == BlackHeight(t.right)
  }

  /** No red node has a red child. */
  ghost predicate NoRedRed(t: Tree) {
    t.Fork? ==> NoRedRed(t.left) && NoRedRed(t.right) && (t.red ==> !IsRed(t.left) && !IsRed(t.right))
  }

  /** The red-black invariants, black root included. */
  ghost predicate RedBlack(t: Tree) {
    Balanced(t) && NoRedRed(t) && !IsRed(t)
  }

  /** `NoRedRed`, except that the root itself may clash with its children. */
  ghost predicate NoRedRedBelow(t: Tree) {
    t.Fork? ==> NoRedRed(t.left) && NoRedRed(t.right)
  }

  /** `p` is balanced once a subtree of black height `h` fills its hole. */
  ghost predicate Fits(p: Path, h: nat) {
    match p
    case Top => true
    case InLeft(up, _, c, r) =>
      Balanced(r) && BlackHeight(r) == h && Fits(up, h + if c then 0 else 1)
    case InRight(up, l, _, c) =>
      Balanced(l) && BlackHeight(l) == h && Fits(up, h + if c then 0 else 1)
  }

  /** No red node under a red one along `p` and beside it, when the hole holds a root
      that is red iff `hole`; the topmost node of `p` is black. */
  ghost predicate PathColours(p: Path, hole: bool) {
    match p
    case Top => true
    case InLeft(up, _, c, r) =>
      && NoRedRed(r) && (c ==> !hole && !IsRed(r))
      && (up.Top? ==> !c) && PathColours(up, c)
    case InRight(up, l, _, c) =>
      && NoRedRed(l) && (c ==> !hole && !IsRed(l))
      && (up.Top? ==> !c) && PathColours(up, c)
  }

  ghost function Depth(p: Path): nat {
    if p.Top? then 0 else 1 + Depth(p.up)
  }

  /** The red-black invariants of a whole tree, seen from one of its subtrees. */
  lemma {:induction false} PlugRedBlack(p: Path, t: Tree)
    ensures RedBlack(Plug(p, t)) <==>
            Balanced(t) && NoRedRed(t) && Fits(p, BlackHeight(t)) && PathColours(p, IsRed(t))
            && (p.Top? ==> !IsRed(t))
  {
    match p
    case Top =>
    case InLeft(up, n, c, r) =>
      PlugRedBlack(up, Fork(t, n, c, r));
    case InRight(up, l, n, c) =>
      PlugRedBlack(up, Fork(l, n, c, t));
  }

  /** Every node of a tree has a path to it. */
  lemma {:induction false} Locate(p: Path, t: Tree, x: Node) returns (q: Path, u: Tree)
    requires x in Nodes(t)
    ensures u.Fork? && u.node == x && Plug(q, u) == Plug(p, t)
    decreases t
  {
    if x == t.node {
      q, u := p, t;
    } else if x in Nodes(t.left) {
      q, u := Locate(InLeft(p, t.node, t.red, t.right), t.left, x);
    } else {
      q, u := Locate(InRight(p, t.left, t.node, t.red), t.right, x);
    }
  }

  /** The state of `rb_insert_color` at its loop test: `t` is red and sound, and the rest
      of the tree is a red-black tree for a black root in its place. */
  ghost predicate Inserting(p: Path, t: Tree) {
    && t.Fork? && t.red && Balanced(t) && NoRedRed(t)
    && Fits(p, BlackHeight(t)) && PathColours(p, false)
  }

  /** The state of `__rb_erase_color` at its loop test: `t` is one black node short. */
  ghost predicate Short(p: Path, t: Tree) {
    && Balanced(t) && NoRedRedBelow(t)
    && Fits(p, BlackHeight(t) + 1) && PathColours(p, false)
  }

  /** Bounds the rounds that `__rb_erase_color` may still take: a red sibling costs one
      extra level, but then the next node up is red and ends the loop. */
  ghost function Slack(p: Path, t: Tree): nat {
    Depth(p) + if IsRed(t) then 0 else 1
  }

  // ---------- what the rotations and the fix-up branches make of a tree ----------

  ghost function TurnedLeft(t: Tree): Tree
    requires t.Fork? && t.right.Fork?
  {
    Fork(Fork(t.left, t.node, t.red, t.right.left), t.right.node, t.right.red, t.right.right)
  }

  ghost function TurnedRight(t: Tree): Tree
    requires t.Fork? && t.left.Fork?
  {
    Fork(t.left.left, t.left.node, t.left.red, Fork(t.left.right, t.node, t.red, t.right))
  }

  lemma TurnKeepsOrder(t: Tree)
    requires t.Fork?
    ensures t.right.Fork? ==> InOrder(TurnedLeft(t)) == InOrder(t)
    ensures t.left.Fork? ==> InOrder(TurnedRight(t)) == InOrder(t)
  {
    if t.right.Fork? {
      Sequences.Five(InOrder(t.left), [t.node], InOrder(t.right.left), [t.right.node], InOrder(t.right.right));
    }
    if t.left.Fork? {
      Sequences.Five(InOrder(t.left.left), [t.left.node], InOrder(t.left.right), [t.node], InOrder(t.right));
    }
  }

  ghost function RedPushedUp(t: Tree): Tree
    requires t.Fork? && t.left.Fork? && t.right.Fork?
  {
    Fork(t.left.(red := false), t.node, true, t.right.(red := false))
  }

  /** rbtree.c:72-83, with `t` below a red left child and a black uncle. */
  ghost function SettledLeft(p: Path, t: Tree): (Path, Tree)
    requires t.Fork? && !p.Top? && p.up.InLeft?
  {
    var par := if p.InRight? then TurnedLeft(Grow(p, t)) else Grow(p, t);
    (InLeft(p.up.up, par.node, false, Fork(par.right, p.up.node, true, p.up.right)), par.left)
  }

  lemma SettledLeftSound(p: Path, t: Tree)
    requires Inserting(p, t) && !p.Top? && p.red && p.up.InLeft? && !IsRed(p.up.right)
    ensures var (q, s) := SettledLeft(p, t);
            Inserting(q, s) && Depth(q) < Depth(p)
  {
    assert PathColours(p.up, true) && Fits(p.up, BlackHeight(t));
  }

  /** rbtree.c:97-108, the mirror image. */
  ghost function SettledRight(p: Path, t: Tree): (Path, Tree)
    requires t.Fork? && !p.Top? && p.up.InRight?
  {
    var par := if p.InLeft? then TurnedRight(Grow(p, t)) else Grow(p, t);
    (InRight(p.up.up, Fork(p.up.left, p.up.node, true, par.left), par.node, false), par.right)
  }

  lemma SettledRightSound(p: Path, t: Tree)
    requires Inserting(p, t) && !p.Top? && p.red && p.up.InRight? && !IsRed(p.up.left)
    ensures var (q, s) := SettledRight(p, t);
            Inserting(q, s) && Depth(q) < Depth(p)
  {
    assert PathColours(p.up, true) && Fits(p.up, BlackHeight(t));
  }

  /** rbtree.c:62-69 and 87-94: the red node is now the grandparent. */
  lemma RedPushedUpSound(p: Path, t: Tree)
    requires Inserting(p, t) && !p.Top? && p.red && !p.up.Top?
    requires var g := Grow(p.up, Grow(p, t)); IsRed(g.left) && IsRed(g.right)
    ensures Inserting(p.up.up, RedPushedUp(Grow(p.up, Grow(p, t))))
  {
    assert PathColours(p.up, true) && Fits(p.up, BlackHeight(t));
  }

  lemma InsertedSound(p: Path, t: Tree)
    requires Inserting(p, t) && (p.Top? || !p.red)
    ensures var whole := Plug(p, t);
            whole.Fork? && RedBlack(whole.(red := false))
  {
    if p.Top? {
    } else {
      assert PathColours(p, true);
      PlugRedBlack(p, t);
      PlugForks(p, t);
    }
  }

  lemma {:induction false} PlugForks(p: Path, t: Tree)
    requires t.Fork? || !p.Top?
    ensures Plug(p, t).Fork?
    decreases p
  {
    if !p.Top? {
      PlugForks(p.up, Grow(p, t));
    }
  }

  /** rbtree.c:125-131: the sibling was red; it becomes the grandparent. */
  ghost function SiblingRaisedLeft(p: Path): Path
    requires p.InLeft? && p.right.Fork?
  {
    InLeft(InLeft(p.up, p.right.node, false, p.right.right), p.node, true, p.right.left)
  }

  ghost function SiblingRaisedRight(p: Path): Path
    requires p.InRight? && p.left.Fork?
  {
    InRight(InRight(p.up, p.left.left, p.left.node, false), p.left.right, p.node, true)
  }

  lemma SiblingRaisedSound(p: Path, t: Tree)
    requires Short(p, t)
    ensures p.InLeft? && IsRed(p.right) ==>
              var q := SiblingRaisedLeft(p); Short(q, t) && q.right.Fork? && !q.right.red
    ensures p.InRight? && IsRed(p.left) ==>
              var q := SiblingRaisedRight(p); Short(q, t) && q.left.Fork? && !q.left.red
  {
    if p.InLeft? && IsRed(p.right) {
      assert PathColours(p.up, false) && Fits(p.up, BlackHeight(t) + 2);
    }
    if p.InRight? && IsRed(p.left) {
      assert PathColours(p.up, false) && Fits(p.up, BlackHeight(t) + 2);
    }
  }

  /** rbtree.c:132-138: the sibling turns red and the deficit moves up. */
  ghost function SiblingReddened(p: Path, t: Tree): Tree
    requires p.InLeft? ==> p.right.Fork?
    requires p.InRight? ==> p.left.Fork?
    requires !p.Top?
  {
    if p.InLeft? then Fork(t, p.node, p.red, p.right.(red := true))
    else Fork(p.left.(red := true), p.node, p.red, t)
  }

  lemma SiblingReddenedSound(p: Path, t: Tree)
    requires Short(p, t) && !p.Top? && !IsRed(t)
    requires p.InLeft? ==> p.right.Fork? && !p.right.red && !IsRed(p.right.left) && !IsRed(p.right.right)
    requires p.InRight? ==> p.left.Fork? && !p.left.red && !IsRed(p.left.left) && !IsRed(p.left.right)
    ensures Short(p.up, SiblingReddened(p, t))
  {
    assert PathColours(p.up, p.red);
    assert PathColours(p.up, false);
  }

  /** rbtree.c:141-147: the red nephew, if it is the near one, is moved to the far side. */
  ghost function NephewMovedLeft(o: Tree): Tree
    requires o.Fork? && (!IsRed(o.right) ==> IsRed(o.left))
  {
    if IsRed(o.right) then o
    else Fork(o.left.left, o.left.node, false, Fork(o.left.right, o.node, true, o.right))
  }

  ghost function NephewMovedRight(o: Tree): Tree
    requires o.Fork? && (!IsRed(o.left) ==> IsRed(o.right))
  {
    if IsRed(o.left) then o
    else Fork(Fork(o.left, o.node, true, o.right.left), o.right.node, false, o.right.right)
  }

  lemma PaintedBlack(t: Tree)
    requires IsRed(t) && Balanced(t) && NoRedRed(t)
    ensures var b := t.(red := false);
            Balanced(b) && NoRedRed(b) && !IsRed(b) && BlackHeight(b) == BlackHeight(t) + 1
  {
  }

  lemma NephewMovedSound(o: Tree)
    requires o.Fork? && !o.red && Balanced(o) && NoRedRed(o)
    ensures IsRed(o.right) || IsRed(o.left) ==>
              var l := NephewMovedLeft(o);
              l.Fork? && Balanced(l) && NoRedRed(l) && !l.red && BlackHeight(l) == BlackHeight(o) && IsRed(l.right)
    ensures IsRed(o.left) || IsRed(o.right) ==>
              var r := NephewMovedRight(o);
              r.Fork? && Balanced(r) && NoRedRed(r) && !r.red && BlackHeight(r) == BlackHeight(o) && IsRed(r.left)
  {
    if IsRed(o.left) {
      assert Balanced(o.left) && NoRedRed(o.left);
    }
    if IsRed(o.right) {
      assert Balanced(o.right) && NoRedRed(o.right);
    }
  }

  /** rbtree.c:148-151: the rotation that pays the deficit. */
  ghost function PaidLeft(p: Path, t: Tree): Tree
    requires p.InLeft? && p.right.Fork? && p.right.right.Fork?
  {
    var o := p.right;
    Fork(Fork(t, p.node, false, o.left), o.node, p.red, o.right.(red := false))
  }

  ghost function PaidRight(p: Path, t: Tree): Tree
    requires p.InRight? && p.left.Fork? && p.left.left.Fork?
  {
    var o := p.left;
    Fork(o.left.(red := false), o.node, p.red, Fork(o.right, p.node, false, t))
  }

  lemma PaidLeftSound(p: Path, t: Tree)
    requires Short(p, t) && p.InLeft? && !IsRed(t)
    requires p.right.Fork? && !p.right.red && (!IsRed(p.right.right) ==> IsRed(p.right.left))
    ensures RedBlack(Plug(p.up, PaidLeft(p.(right := NephewMovedLeft(p.right)), t)))
  {
    NephewMovedSound(p.right);
    var o := NephewMovedLeft(p.right);
    PaintedBlack(o.right);
    var s := PaidLeft(p.(right := o), t);
    assert NoRedRed(t) && Balanced(t);
    assert PathColours(p.up, p.red);
    assert Fits(p.up, BlackHeight(t) + 1 + if p.red then 0 else 1);
    assert Balanced(s.left) && NoRedRed(s.left) && BlackHeight(s.left) == BlackHeight(t) + 1;
    PlugRedBlack(p.up, s);
  }

  lemma PaidRightSound(p: Path, t: Tree)
    requires Short(p, t) && p.InRight? && !IsRed(t)
    requires p.left.Fork? && !p.left.red && (!IsRed(p.left.left) ==> IsRed(p.left.right))
    ensures RedBlack(Plug(p.up, PaidRight(p.(left := NephewMovedRight(p.left)), t)))
  {
    NephewMovedSound(p.left);
    var o := NephewMovedRight(p.left);
    PaintedBlack(o.left);
    var s := PaidRight(p.(left := o), t);
    assert NoRedRed(t) && Balanced(t);
    assert PathColours(p.up, p.red);
    assert Fits(p.up, BlackHeight(t) + 1 + if p.red then 0 else 1);
    assert Balanced(s.right) && NoRedRed(s.right) && BlackHeight(s.right) == BlackHeight(t) + 1;
    PlugRedBlack(p.up, s);
  }

  /** rbtree.c:191-192. */
  lemma BlackenedSound(p: Path, t: Tree)
    requires Short(p, t) && (p.Top? || IsRed(t))
    ensures RedBlack(Plug(p, if t.Leaf? then t else t.(red := false)))
  {
    PlugRedBlack(p, if t.Leaf? then t else t.(red := false));
  }

  // ---------- erasing a node with two children ----------

  /** `q` continued by `base`. */
  ghost function Append(q: Path, base: Path): Path {
    match q
    case Top => base
    case InLeft(up, n, c, r) => InLeft(Append(up, base), n, c, r)
    case InRight(up, l, n, c) => InRight(Append(up, base), l, n, c)
  }

  /** `q` turns left all the way. */
  ghost predicate AllLeft(q: Path) {
    q.Top? || (q.InLeft? && AllLeft(q.up))
  }

  lemma {:induction false} AllLeftBefore(q: Path)
    requires AllLeft(q)
    ensures Before(q) == []
  {
    if !q.Top? {
      AllLeftBefore(q.up);
    }
  }

  lemma {:induction false} PlugAppend(q: Path, base: Path, t: Tree)
    ensures Plug(Append(q, base), t) == Plug(base, Plug(q, t))
    decreases q
  {
    if !q.Top? {
      PlugAppend(q.up, base, Grow(q, t));
    }
  }

  lemma {:induction false} AppendOrder(q: Path, base: Path)
    ensures Before(Append(q, base)) == Before(base) + Before(q)
    ensures After(Append(q, base)) == After(q) + After(base)
    ensures PathNodes(base) <= PathNodes(Append(q, base))
  {
    match q
    case Top =>
    case InLeft(up, n, _, r) =>
      AppendOrder(up, base);
      Sequences.Four([n], InOrder(r), After(up), After(base));
    case InRight(up, l, n, _) =>
      AppendOrder(up, base);
      Sequences.Four(Before(base), Before(up), InOrder(l), [n]);
  }

  /** The hole that a red-black tree leaves when the root of `t`, which has at most
      one child, is taken out. */
  lemma TakenOutSound(p: Path, t: Tree)
    requires RedBlack(Plug(p, t)) && t.Fork? && (t.left.Leaf? || t.right.Leaf?)
    ensures var child := if t.left.Leaf? then t.right else t.left;
            if t.red then RedBlack(Plug(p, child)) else Short(p, child)
  {
    PlugRedBlack(p, t);
    var child := if t.left.Leaf? then t.right else t.left;
    if t.red {
      PlugRedBlack(p, child);
    }
  }

  /** Renaming a node changes no colour. */
  lemma RenamedSound(p: Path, t: Tree, x: Node)
    requires t.Fork?
    ensures RedBlack(Plug(p, t)) <==> RedBlack(Plug(p, t.(node := x)))
  {
    PlugRedBlack(p, t);
    PlugRedBlack(p, t.(node := x));
  }

  lemma RegroupTail(a: seq<Node>, x: seq<Node>, r: seq<Node>, s: seq<Node>, b: seq<Node>)
    ensures (a + x + []) + r + (s + b) == a + ([] + ([] + x + r) + s) + b
  {
  }

  lemma SuccessorMovedOrder(p: Path, l: Tree, c: bool, q: Path, m: Tree)
    requires m.Fork? && m.left.Leaf? && AllLeft(q)
    ensures Whole(Append(q, InRight(p, l, m.node, c)), m.right)
            == Before(p) + InOrder(l) + InOrder(Plug(q, m)) + After(p)
  {
    var base := InRight(p, l, m.node, c);
    var hole := Append(q, base);
    var a, x, r, s, b := Before(p) + InOrder(l), [m.node], InOrder(m.right), After(q), After(p);
    AllLeftBefore(q);
    AppendOrder(q, base);
    PlugInOrder(q, m);
    assert Before(hole) == a + x + [] by { assert Before(base) == a + x; }
    assert After(hole) == s + b by { assert After(base) == b; }
    assert InOrder(m) == [] + x + r;
    assert Whole(q, m) == [] + ([] + x + r) + s;
    RegroupTail(a, x, r, s, b);
  }

  /** What is left when the smallest node `m.node` of the right subtree of `t` takes the
      place of the root of `t`; `q` leads to `m` inside that right subtree. */
  lemma SuccessorMovedSound(p: Path, t: Tree, q: Path, m: Tree)
    requires t.Fork? && m.Fork? && m.left.Leaf? && Plug(q, m) == t.right
    requires RedBlack(Plug(p, t))
    ensures var hole := Append(q, InRight(p, t.left, m.node, t.red));
            if m.red then RedBlack(Plug(hole, m.right)) else Short(hole, m.right)
  {
    var base := InRight(p, t.left, m.node, t.red);
    RenamedSound(p, t, m.node);
    assert Plug(base, t.right) == Plug(p, t.(node := m.node));
    PlugAppend(q, base, m);
    TakenOutSound(Append(q, base), m);
  }

  // ---------- height ----------

  ghost function Height(t: Tree): nat {
    if t.Leaf? then 0
    else 1 + if Height(t.left) >= Height(t.right) then Height(t.left) else Height(t.right)
  }

  lemma {:induction false} HeightByBlackHeight(t: Tree)
    requires Balanced(t) && NoRedRed(t)
    ensures Height(t) <= 2 * BlackHeight(t) + (if IsRed(t) then 1 else 0)
    ensures |InOrder(t)| + 1 >= Sequences.Pow(2, BlackHeight(t))
  {
    if t.Fork? {
      HeightByBlackHeight(t.left);
      HeightByBlackHeight(t.right);
    }
  }

  lemma SquareMonotone(k: nat, n: nat)
    requires k <= n
    ensures k * k <= n * n
  {
    assert k * k <= n * k;
    assert n * k <= n * n;
  }

  /** height <= 2 * log2(n + 1), stated without logarithms. */
  lemma HeightBound(t: Tree)
    requires RedBlack(t)
    ensures Sequences.Pow(2, Height(t)) <= (|InOrder(t)| + 1) * (|InOrder(t)| + 1)
  {
    HeightByBlackHeight(t);
    var h := BlackHeight(t);
    Sequences.PowMonotone(2, Height(t), h + h);
    Sequences.PowSum(2, h, h);
    SquareMonotone(Sequences.Pow(2, h), |InOrder(t)| + 1);
  }
}
