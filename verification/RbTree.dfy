/** rbtree.c on the heap. */
module RbTree {
  import opened RbShape
  import Sequences

  /** The links below `t` are those of `t`, and its root hangs from `parent`. */
  ghost predicate MatchTree(t: Tree, parent: Node?)
    reads Nodes(t)
  {
    t.Fork? ==>
      && t.node.parent == parent && t.node.red == t.red
      && t.node.left == Root(t.left) && t.node.right == Root(t.right)
      && MatchTree(t.left, t.node) && MatchTree(t.right, t.node)
  }

  /** The part of `__rb_rotate_left` below the parent of `n`. */
  method TurnLeft(n: Node, right: Node, ghost t: Tree)
    requires t.Fork? && t.node == n && t.right.Fork? && t.right.node == right
    requires Distinct(t) && MatchTree(t, n.parent)
    modifies Nodes(t)
    ensures MatchTree(TurnedLeft(t), old(n.parent))
    ensures Distinct(TurnedLeft(t)) && Nodes(TurnedLeft(t)) == Nodes(t)
  {
    ghost var b := t.right.left;
    assert Distinct(t.right) && MatchTree(t.right, n);
    assert MatchTree(b, right) && Distinct(b);
    var parent := n.parent;
    n.right := right.left;
    if n.right != null {
      right.left.parent := n;
    }
    right.left := n;
    right.parent := parent;
    n.parent := right;
    assert MatchTree(b, n);
    assert MatchTree(Fork(t.left, n, t.red, b), right);
  }

  /** The part of `__rb_rotate_right` below the parent of `n`. */
  method TurnRight(n: Node, left: Node, ghost t: Tree)
    requires t.Fork? && t.node == n && t.left.Fork? && t.left.node == left
    requires Distinct(t) && MatchTree(t, n.parent)
    modifies Nodes(t)
    ensures MatchTree(TurnedRight(t), old(n.parent))
    ensures Distinct(TurnedRight(t)) && Nodes(TurnedRight(t)) == Nodes(t)
  {
    ghost var b := t.left.right;
    assert Distinct(t.left) && MatchTree(t.left, n);
    assert MatchTree(b, left) && Distinct(b);
    var parent := n.parent;
    n.left := left.right;
    if n.left != null {
      left.right.parent := n;
    }
    left.right := n;
    left.parent := parent;
    n.parent := left;
    assert MatchTree(b, n);
    assert MatchTree(Fork(b, n, t.red, t.right), left);
  }

  /** Both branches of `rb_insert_color` with a red uncle. */
  method MoveRed(g: Node, parent: Node, uncle: Node, ghost t: Tree)
    requires t.Fork? && t.node == g && t.left.Fork? && t.right.Fork?
    requires {parent, uncle} == {t.left.node, t.right.node}
    requires Distinct(t) && MatchTree(t, g.parent)
    modifies Nodes(t)
    ensures MatchTree(RedPushedUp(t), old(g.parent))
    ensures Distinct(RedPushedUp(t)) && Nodes(RedPushedUp(t)) == Nodes(t)
  {
    ghost var l, r := t.left.(red := false), t.right.(red := false);
    assert Distinct(t.left) && Distinct(t.right) && MatchTree(t.left, g) && MatchTree(t.right, g);
    assert Nodes(l) == Nodes(t.left) && Nodes(r) == Nodes(t.right);
    uncle.red := false;
    parent.red := false;
    g.red := true;
    assert MatchTree(l, g) && MatchTree(r, g);
  }

  /** `struct rb_root`. */
  class RbRoot {
    var node: Node?
    /** The nodes linked into the tree. */
    ghost var linked: set<Node>
    ghost var shape: Tree

    constructor ()
      ensures Valid() && linked == {} && Contents() == []
    {
      node := null;
      linked := {};
      shape := Leaf;
    }

    ghost predicate Valid()
      reads this, linked
    {
      Focus(Top, shape) && RedBlack(shape)
    }

    ghost function Contents(): seq<Node>
      reads `shape
    {
      InOrder(shape)
    }

    /** The links along `p` are those of `p`, and `child` stands in its hole. */
    ghost predicate MatchPath(p: Path, child: Node?)
      reads `node, PathNodes(p)
    {
      match p
      case Top => node == child
      case InLeft(up, n, c, r) =>
        && n.left == child && n.right == Root(r) && n.red == c && n.parent == Owner(up)
        && MatchTree(r, n) && MatchPath(up, n)
      case InRight(up, l, n, c) =>
        && n.right == child && n.left == Root(l) && n.red == c && n.parent == Owner(up)
        && MatchTree(l, n) && MatchPath(up, n)
    }

    /** The heap holds the tree `Plug(p, t)`, looked at from its subtree `t`. */
    ghost predicate Focus(p: Path, t: Tree)
      reads `node, `linked, linked
    {
      && Nodes(t) + PathNodes(p) == linked
      && Distinct(t) && PathDistinct(p) && Nodes(t) !! PathNodes(p)
      && MatchTree(t, Owner(p)) && MatchPath(p, Root(t))
    }

    lemma Up(p: Path, t: Tree)
      requires Focus(p, t) && !p.Top?
      ensures Focus(p.up, Grow(p, t)) && Whole(p.up, Grow(p, t)) == Whole(p, t)
    {
      GrowWhole(p, t);
    }

    lemma DownLeft(p: Path, t: Tree)
      requires Focus(p, t) && t.Fork?
      ensures Focus(InLeft(p, t.node, t.red, t.right), t.left)
      ensures Whole(InLeft(p, t.node, t.red, t.right), t.left) == Whole(p, t)
    {
      GrowWhole(InLeft(p, t.node, t.red, t.right), t.left);
    }

    lemma DownRight(p: Path, t: Tree)
      requires Focus(p, t) && t.Fork?
      ensures Focus(InRight(p, t.left, t.node, t.red), t.right)
      ensures Whole(InRight(p, t.left, t.node, t.red), t.right) == Whole(p, t)
    {
      GrowWhole(InRight(p, t.left, t.node, t.red), t.right);
    }

    lemma {:induction false} ToTop(p: Path, t: Tree)
      requires Focus(p, t)
      ensures Focus(Top, Plug(p, t)) && InOrder(Plug(p, t)) == Whole(Top, Plug(p, t)) == Whole(p, t)
      decreases p
    {
      PlugInOrder(p, t);
      if !p.Top? {
        Up(p, t);
        ToTop(p.up, Grow(p, t));
      }
    }

    lemma {:induction false} FromTop(p: Path, t: Tree)
      requires Focus(Top, Plug(p, t))
      ensures Focus(p, t)
      decreases p
    {
      if p.InLeft? {
        FromTop(p.up, Grow(p, t));
        DownLeft(p.up, Grow(p, t));
      } else if p.InRight? {
        FromTop(p.up, Grow(p, t));
        DownRight(p.up, Grow(p, t));
      }
    }

    lemma {:induction false} RootOnPath(p: Path, child: Node?)
      requires MatchPath(p, child) && !p.Top?
      ensures node != null && node in PathNodes(p)
      decreases p
    {
      if !p.up.Top? {
        RootOnPath(p.up, p.node);
      }
    }

    method Paint(n: Node, red: bool, ghost p: Path, ghost t: Tree) returns (ghost t': Tree)
      requires Focus(p, t) && t.Fork? && t.node == n
      modifies linked
      ensures t' == t.(red := red) && Focus(p, t') && InOrder(t') == InOrder(t)
    {
      t' := t.(red := red);
      n.red := red;
    }

    /** Puts `child` where `n` hangs below `parent`: the relinking step shared by the
        rotations and by `Erase`. */
    method Relink(parent: Node?, n: Node, child: Node?, ghost p: Path)
      requires PathDistinct(p) && MatchPath(p, n) && parent == Owner(p) && n !in PathNodes(p)
      modifies `node, parent
      ensures MatchPath(p, child)
    {
      if parent != null {
        if n == parent.left {
          parent.left := child;
        } else {
          parent.right := child;
        }
      } else {
        node := child;
      }
    }

    method RotateLeft(n: Node, ghost p: Path, ghost t: Tree) returns (ghost t': Tree)
      requires Focus(p, t) && t.Fork? && t.node == n && t.right.Fork?
      modifies `node, linked
      ensures t' == TurnedLeft(t) && Focus(p, t') && InOrder(t') == InOrder(t)
    {
      var right := n.right;
      var parent := n.parent;
      t' := TurnedLeft(t);
      TurnLeft(n, right, t);
      Relink(parent, n, right, p);
      TurnKeepsOrder(t);
    }

    method RotateRight(n: Node, ghost p: Path, ghost t: Tree) returns (ghost t': Tree)
      requires Focus(p, t) && t.Fork? && t.node == n && t.left.Fork?
      modifies `node, linked
      ensures t' == TurnedRight(t) && Focus(p, t') && InOrder(t') == InOrder(t)
    {
      var left := n.left;
      var parent := n.parent;
      t' := TurnedRight(t);
      TurnRight(n, left, t);
      Relink(parent, n, left, p);
      TurnKeepsOrder(t);
    }

    // ---------- insertion ----------

    /** Both branches with a red uncle: `t` is the subtree of the grandparent. */
    method PushRedUp(g: Node, parent: Node, uncle: Node, ghost p: Path, ghost t: Tree)
      returns (ghost t': Tree)
      requires Focus(p, t) && t.Fork? && t.node == g
      requires t.left.Fork? && t.right.Fork?
      requires {parent, uncle} == {t.left.node, t.right.node}
      modifies linked
      ensures t' == RedPushedUp(t) && Focus(p, t') && InOrder(t') == InOrder(t)
    {
      t' := RedPushedUp(t);
      MoveRed(g, parent, uncle, t);
    }

    /** rbtree.c:72-83: the uncle is black, `parent` is the left child of `g`. */
    method SettleLeft(n: Node, parent: Node, g: Node, ghost p: Path, ghost t: Tree)
      returns (n': Node, ghost p': Path, ghost t': Tree)
      requires Focus(p, t) && Inserting(p, t) && t.node == n
      requires !p.Top? && p.node == parent && p.red
      requires p.up.InLeft? && p.up.node == g && !IsRed(p.up.right)
      modifies `node, linked
      ensures Focus(p', t') && Inserting(p', t') && t'.node == n'
      ensures Whole(p', t') == Whole(p, t)
      ensures !p'.Top? && !p'.red && Depth(p') < Depth(p)
    {
      n' := n;
      var parent' := parent;
      ghost var q, s := p.up, Grow(p, t);
      Up(p, t);
      if parent.right == n {
        s := RotateLeft(parent, q, s);
        n', parent' := parent, n;
      }
      s := Paint(parent', false, q, s);
      Up(q, s);
      q, s := q.up, Grow(q, s);
      s := Paint(g, true, q, s);
      s := RotateRight(g, q, s);
      DownLeft(q, s);
      p', t' := SettledLeft(p, t).0, SettledLeft(p, t).1;
      SettledLeftSound(p, t);
    }

    /** rbtree.c:97-108, the mirror image. */
    method SettleRight(n: Node, parent: Node, g: Node, ghost p: Path, ghost t: Tree)
      returns (n': Node, ghost p': Path, ghost t': Tree)
      requires Focus(p, t) && Inserting(p, t) && t.node == n
      requires !p.Top? && p.node == parent && p.red
      requires p.up.InRight? && p.up.node == g && !IsRed(p.up.left)
      modifies `node, linked
      ensures Focus(p', t') && Inserting(p', t') && t'.node == n'
      ensures Whole(p', t') == Whole(p, t)
      ensures !p'.Top? && !p'.red && Depth(p') < Depth(p)
    {
      n' := n;
      var parent' := parent;
      ghost var q, s := p.up, Grow(p, t);
      Up(p, t);
      if parent.left == n {
        s := RotateRight(parent, q, s);
        n', parent' := parent, n;
      }
      s := Paint(parent', false, q, s);
      Up(q, s);
      q, s := q.up, Grow(q, s);
      s := Paint(g, true, q, s);
      s := RotateLeft(g, q, s);
      DownRight(q, s);
      p', t' := SettledRight(p, t).0, SettledRight(p, t).1;
      SettledRightSound(p, t);
    }

    /** One round of the loop of `rb_insert_color`. */
    method InsertStep(n: Node, parent: Node, ghost p: Path, ghost t: Tree)
      returns (n': Node, ghost p': Path, ghost t': Tree)
      requires Focus(p, t) && Inserting(p, t) && t.node == n
      requires Owner(p) == parent && parent.red
      modifies `node, linked
      ensures Focus(p', t') && Inserting(p', t') && t'.node == n'
      ensures Whole(p', t') == Whole(p, t) && Depth(p') < Depth(p)
    {
      Up(p, t);
      Up(p.up, Grow(p, t));
      ghost var q, s := p.up.up, Grow(p.up, Grow(p, t));
      assert MatchTree(s.left, s.node) && MatchTree(s.right, s.node);
      var g := parent.parent;
      if parent == g.left {
        var uncle := g.right;
        if uncle != null && uncle.red {
          RedPushedUpSound(p, t);
          t' := PushRedUp(g, parent, uncle, q, s);
          n', p' := g, q;
        } else {
          n', p', t' := SettleLeft(n, parent, g, p, t);
        }
      } else {
        var uncle := g.left;
        if uncle != null && uncle.red {
          RedPushedUpSound(p, t);
          t' := PushRedUp(g, parent, uncle, q, s);
          n', p' := g, q;
        } else {
          n', p', t' := SettleRight(n, parent, g, p, t);
        }
      }
    }

    /** `rb_insert_color`. */
    method InsertColor(inserted: Node, ghost p0: Path, ghost t0: Tree) returns (ghost whole: Tree)
      requires Focus(p0, t0) && Inserting(p0, t0) && t0.node == inserted
      modifies `node, linked
      ensures Focus(Top, whole) && RedBlack(whole)
      ensures InOrder(whole) == Whole(p0, t0)
    {
      var n := inserted;
      ghost var p, t := p0, t0;
      var parent := n.parent;
      while parent != null && parent.red
        invariant Focus(p, t) && Inserting(p, t) && t.node == n && parent == Owner(p)
        invariant Whole(p, t) == Whole(p0, t0)
        decreases Depth(p)
      {
        n, p, t := InsertStep(n, parent, p, t);
        parent := n.parent;
      }
      ToTop(p, t);
      InsertedSound(p, t);
      whole := Plug(p, t);
      whole := Paint(node, false, Top, whole);
    }

    /** `rb_link_node`; the C argument `rb_link` is the left or right field of `parent`,
        or the root pointer. */
    method LinkNode(n: Node, parent: Node?, left: bool, ghost p: Path) returns (ghost t: Tree)
      requires Focus(p, Leaf) && Owner(p) == parent && n !in linked
      requires p.InLeft? ==> left
      requires p.InRight? ==> !left
      modifies `node, `linked, n, parent
      ensures t == Fork(Leaf, n, true, Leaf) && Focus(p, t) && linked == old(linked) + {n}
    {
      n.parent := parent;
      n.red := true;
      n.left, n.right := null, null;
      t := Fork(Leaf, n, true, Leaf);
      if parent == null {
        node := n;
      } else if left {
        parent.left := n;
      } else {
        parent.right := n;
      }
      linked := linked + {n};
    }

    /** `rb_link_node` followed by `rb_insert_color`. */
    method Insert(n: Node, parent: Node?, left: bool, ghost p: Path)
      requires Valid() && Plug(p, Leaf) == shape && Owner(p) == parent && n !in linked
      requires p.InLeft? ==> left
      requires p.InRight? ==> !left
      modifies this, linked, n
      ensures Valid() && linked == old(linked) + {n}
      ensures Contents() == Before(p) + [n] + After(p)
      ensures old(Contents()) == Before(p) + After(p)
    {
      FromTop(p, Leaf);
      PlugInOrder(p, Leaf);
      PlugRedBlack(p, Leaf);
      assert Whole(p, Leaf) == Before(p) + After(p);
      ghost var t := LinkNode(n, parent, left, p);
      assert InOrder(t) == [n];
      shape := InsertColor(n, p, t);
    }

    // ---------- erasure ----------

    /** rbtree.c:125-131 with the deficit on the left. */
    method RaiseSiblingLeft(parent: Node, other: Node, ghost p: Path, ghost t: Tree)
      requires Focus(p, t) && p.InLeft? && p.node == parent && !p.red
      requires p.right.Fork? && p.right.node == other
      modifies `node, linked
      ensures Focus(SiblingRaisedLeft(p), t) && Whole(SiblingRaisedLeft(p), t) == Whole(p, t)
    {
      ghost var q, s := p.up, Grow(p, t);
      Up(p, t);
      DownRight(q, s);
      ghost var o := Paint(other, false, InRight(q, t, parent, p.red), p.right);
      Up(InRight(q, t, parent, p.red), o);
      s := Fork(t, parent, p.red, o);
      s := Paint(parent, true, q, s);
      s := RotateLeft(parent, q, s);
      DownLeft(q, s);
      DownLeft(InLeft(q, s.node, s.red, s.right), s.left);
    }

    /** rbtree.c:161-165 with the deficit on the right. */
    method RaiseSiblingRight(parent: Node, other: Node, ghost p: Path, ghost t: Tree)
      requires Focus(p, t) && p.InRight? && p.node == parent && !p.red
      requires p.left.Fork? && p.left.node == other
      modifies `node, linked
      ensures Focus(SiblingRaisedRight(p), t) && Whole(SiblingRaisedRight(p), t) == Whole(p, t)
    {
      ghost var q, s := p.up, Grow(p, t);
      Up(p, t);
      DownLeft(q, s);
      ghost var o := Paint(other, false, InLeft(q, parent, p.red, t), p.left);
      Up(InLeft(q, parent, p.red, t), o);
      s := Fork(o, parent, p.red, t);
      s := Paint(parent, true, q, s);
      s := RotateRight(parent, q, s);
      DownRight(q, s);
      DownRight(InRight(q, s.left, s.node, s.red), s.right);
    }

    /** rbtree.c:141-147, seen from the sibling `o`. */
    method MoveNephewLeft(other: Node, ghost p: Path, ghost o: Tree) returns (ghost o': Tree)
      requires Focus(p, o) && o.Fork? && o.node == other && !o.red && IsRed(o.left) && !IsRed(o.right)
      modifies `node, linked
      ensures o' == NephewMovedLeft(o) && Focus(p, o') && InOrder(o') == InOrder(o)
    {
      DownLeft(p, o);
      ghost var q := InLeft(p, o.node, o.red, o.right);
      ghost var near := Paint(other.left, false, q, o.left);
      Up(q, near);
      o' := Fork(near, o.node, o.red, o.right);
      o' := Paint(other, true, p, o');
      o' := RotateRight(other, p, o');
    }

    /** The same, seen from the deficit. */
    method FindFarNephewLeft(parent: Node, sibling: Node, ghost p: Path, ghost t: Tree) returns (other: Node)
      requires Focus(p, t) && p.InLeft? && p.node == parent
      requires p.right.Fork? && p.right.node == sibling && !p.right.red
      requires IsRed(p.right.right) || IsRed(p.right.left)
      modifies `node, linked
      ensures var q := p.(right := NephewMovedLeft(p.right));
              Focus(q, t) && Whole(q, t) == Whole(p, t) && q.right.Fork? && q.right.node == other
    {
      ghost var q, s := p.up, Grow(p, t);
      ghost var qo, o := InRight(q, t, parent, p.red), p.right;
      Up(p, t);
      DownRight(q, s);
      assert MatchTree(o.right, sibling);
      other := sibling;
      if other.right == null || !other.right.red {
        o := MoveNephewLeft(other, qo, o);
        Up(qo, o);
        DownLeft(q, Grow(qo, o));
        other := parent.right;
      }
    }

    /** rbtree.c:148-151. */
    method PayLeft(parent: Node, other: Node, ghost p: Path, ghost t: Tree) returns (ghost s: Tree)
      requires Focus(p, t) && p.InLeft? && p.node == parent
      requires p.right.Fork? && p.right.node == other && p.right.right.Fork?
      modifies `node, linked
      ensures s == PaidLeft(p, t) && Focus(p.up, s) && Whole(p.up, s) == Whole(p, t)
    {
      s := Grow(p, t);
      ghost var q := p.up;
      ghost var qo, o := InRight(q, t, parent, p.red), p.right;
      Up(p, t);
      DownRight(q, s);
      o := Paint(other, parent.red, qo, o);
      Up(qo, o);
      s := Paint(parent, false, q, Fork(t, parent, p.red, o));
      qo := InRight(q, t, parent, false);
      DownRight(q, s);
      DownRight(qo, o);
      ghost var far := Paint(other.right, false, InRight(qo, o.left, o.node, o.red), o.right);
      Up(InRight(qo, o.left, o.node, o.red), far);
      o := Fork(o.left, o.node, o.red, far);
      Up(qo, o);
      s := RotateLeft(parent, q, Fork(t, parent, false, o));
    }

    /** rbtree.c:175-181, seen from the sibling `o`. */
    method MoveNephewRight(other: Node, ghost p: Path, ghost o: Tree) returns (ghost o': Tree)
      requires Focus(p, o) && o.Fork? && o.node == other && !o.red && IsRed(o.right) && !IsRed(o.left)
      modifies `node, linked
      ensures o' == NephewMovedRight(o) && Focus(p, o') && InOrder(o') == InOrder(o)
    {
      DownRight(p, o);
      ghost var q := InRight(p, o.left, o.node, o.red);
      ghost var near := Paint(other.right, false, q, o.right);
      Up(q, near);
      o' := Fork(o.left, o.node, o.red, near);
      o' := Paint(other, true, p, o');
      o' := RotateLeft(other, p, o');
    }

    /** The same, seen from the deficit. */
    method FindFarNephewRight(parent: Node, sibling: Node, ghost p: Path, ghost t: Tree) returns (other: Node)
      requires Focus(p, t) && p.InRight? && p.node == parent
      requires p.left.Fork? && p.left.node == sibling && !p.left.red
      requires IsRed(p.left.left) || IsRed(p.left.right)
      modifies `node, linked
      ensures var q := p.(left := NephewMovedRight(p.left));
              Focus(q, t) && Whole(q, t) == Whole(p, t) && q.left.Fork? && q.left.node == other
    {
      ghost var q, s := p.up, Grow(p, t);
      ghost var qo, o := InLeft(q, parent, p.red, t), p.left;
      Up(p, t);
      DownLeft(q, s);
      assert MatchTree(o.left, sibling);
      other := sibling;
      if other.left == null || !other.left.red {
        o := MoveNephewRight(other, qo, o);
        Up(qo, o);
        DownRight(q, Grow(qo, o));
        other := parent.left;
      }
    }

    /** rbtree.c:182-185. */
    method PayRight(parent: Node, other: Node, ghost p: Path, ghost t: Tree) returns (ghost s: Tree)
      requires Focus(p, t) && p.InRight? && p.node == parent
      requires p.left.Fork? && p.left.node == other && p.left.left.Fork?
      modifies `node, linked
      ensures s == PaidRight(p, t) && Focus(p.up, s) && Whole(p.up, s) == Whole(p, t)
    {
      s := Grow(p, t);
      ghost var q := p.up;
      ghost var qo, o := InLeft(q, parent, p.red, t), p.left;
      Up(p, t);
      DownLeft(q, s);
      o := Paint(other, parent.red, qo, o);
      Up(qo, o);
      s := Paint(parent, false, q, Fork(o, parent, p.red, t));
      qo := InLeft(q, parent, false, t);
      DownLeft(q, s);
      DownLeft(qo, o);
      ghost var far := Paint(other.left, false, InLeft(qo, o.node, o.red, o.right), o.left);
      Up(InLeft(qo, o.node, o.red, o.right), far);
      o := Fork(far, o.node, o.red, o.right);
      Up(qo, o);
      s := RotateRight(parent, q, Fork(o, parent, false, t));
    }

    /** rbtree.c:141-151: the whole tree is sound again. */
    method RepayLeft(parent: Node, sibling: Node, ghost p: Path, ghost t: Tree) returns (ghost whole: Tree)
      requires Focus(p, t) && Short(p, t) && !IsRed(t)
      requires p.InLeft? && p.node == parent && p.right.Fork? && p.right.node == sibling && !p.right.red
      requires IsRed(p.right.left) || IsRed(p.right.right)
      modifies `node, linked
      ensures Focus(Top, whole) && Short(Top, whole) && Whole(Top, whole) == Whole(p, t)
    {
      PaidLeftSound(p, t);
      NephewMovedSound(p.right);
      var other := FindFarNephewLeft(parent, sibling, p, t);
      ghost var s := PayLeft(parent, other, p.(right := NephewMovedLeft(p.right)), t);
      ToTop(p.up, s);
      whole := Plug(p.up, s);
    }

    /** rbtree.c:132-154: the sibling is black. `paid` tells that the branch ended in `break`. */
    method BlackSiblingLeft(n: Node?, parent: Node, sibling: Node, ghost p: Path, ghost t: Tree)
      returns (n': Node?, parent': Node?, paid: bool, ghost p': Path, ghost t': Tree)
      requires Focus(p, t) && Short(p, t) && Root(t) == n && !IsRed(t)
      requires p.InLeft? && p.node == parent && p.right.Fork? && p.right.node == sibling && !p.right.red
      modifies `node, linked
      ensures Focus(p', t') && Short(p', t') && Root(t') == n' && Whole(p', t') == Whole(p, t)
      ensures if paid then p' == Top
              else Owner(p') == parent' && p' == p.up && t' == SiblingReddened(p, t)
    {
      var other := sibling;
      ghost var o := p.right;
      assert MatchTree(o.left, other) && MatchTree(o.right, other);
      if (other.left == null || !other.left.red) && (other.right == null || !other.right.red) {
        SiblingReddenedSound(p, t);
        t' := ReddenLeft(parent, other, p, t);
        p' := p.up;
        n' := parent;
        parent' := n'.parent;
        paid := false;
      } else {
        t' := RepayLeft(parent, other, p, t);
        p' := Top;
        n' := node;
        parent' := null;
        paid := true;
      }
    }

    /** rbtree.c:124-154: one round of the loop with the deficit on the left. */
    method EraseStepLeft(n: Node?, parent: Node, ghost p0: Path, ghost t: Tree)
      returns (n': Node?, parent': Node?, paid: bool, ghost p': Path, ghost t': Tree)
      requires Focus(p0, t) && Short(p0, t) && Root(t) == n && !IsRed(t)
      requires p0.InLeft? && p0.node == parent
      modifies `node, linked
      ensures Focus(p', t') && Short(p', t') && Root(t') == n' && Whole(p', t') == Whole(p0, t)
      ensures if paid then p' == Top else Owner(p') == parent' && Slack(p', t') < Slack(p0, t)
    {
      ghost var p := p0;
      assert MatchTree(p.right, parent);
      var other := parent.right;
      if other.red {
        SiblingRaisedSound(p, t);
        RaiseSiblingLeft(parent, other, p, t);
        p := SiblingRaisedLeft(p);
        other := parent.right;
        assert MatchTree(p.right, parent);
      }
      n', parent', paid, p', t' := BlackSiblingLeft(n, parent, other, p, t);
    }

    /** rbtree.c:132-138. */
    method ReddenLeft(parent: Node, other: Node, ghost p: Path, ghost t: Tree) returns (ghost s: Tree)
      requires Focus(p, t) && p.InLeft? && p.node == parent && p.right.Fork? && p.right.node == other
      modifies linked
      ensures s == SiblingReddened(p, t) && Focus(p.up, s) && Whole(p.up, s) == Whole(p, t)
    {
      ghost var q := InRight(p.up, t, parent, p.red);
      Up(p, t);
      DownRight(p.up, Grow(p, t));
      ghost var o := Paint(other, true, q, p.right);
      Up(q, o);
      s := Grow(q, o);
    }

    /** rbtree.c:175-185: the whole tree is sound again. */
    method RepayRight(parent: Node, sibling: Node, ghost p: Path, ghost t: Tree) returns (ghost whole: Tree)
      requires Focus(p, t) && Short(p, t) && !IsRed(t)
      requires p.InRight? && p.node == parent && p.left.Fork? && p.left.node == sibling && !p.left.red
      requires IsRed(p.left.left) || IsRed(p.left.right)
      modifies `node, linked
      ensures Focus(Top, whole) && Short(Top, whole) && Whole(Top, whole) == Whole(p, t)
    {
      PaidRightSound(p, t);
      NephewMovedSound(p.left);
      var other := FindFarNephewRight(parent, sibling, p, t);
      ghost var s := PayRight(parent, other, p.(left := NephewMovedRight(p.left)), t);
      ToTop(p.up, s);
      whole := Plug(p.up, s);
    }

    /** rbtree.c:166-188: the sibling is black. `paid` tells that the branch ended in `break`. */
    method BlackSiblingRight(n: Node?, parent: Node, sibling: Node, ghost p: Path, ghost t: Tree)
      returns (n': Node?, parent': Node?, paid: bool, ghost p': Path, ghost t': Tree)
      requires Focus(p, t) && Short(p, t) && Root(t) == n && !IsRed(t)
      requires p.InRight? && p.node == parent && p.left.Fork? && p.left.node == sibling && !p.left.red
      modifies `node, linked
      ensures Focus(p', t') && Short(p', t') && Root(t') == n' && Whole(p', t') == Whole(p, t)
      ensures if paid then p' == Top
              else Owner(p') == parent' && p' == p.up && t' == SiblingReddened(p, t)
    {
      var other := sibling;
      ghost var o := p.left;
      assert MatchTree(o.left, other) && MatchTree(o.right, other);
      if (other.left == null || !other.left.red) && (other.right == null || !other.right.red) {
        SiblingReddenedSound(p, t);
        t' := ReddenRight(parent, other, p, t);
        p' := p.up;
        n' := parent;
        parent' := n'.parent;
        paid := false;
      } else {
        t' := RepayRight(parent, other, p, t);
        p' := Top;
        n' := node;
        parent' := null;
        paid := true;
      }
    }

    /** rbtree.c:158-188: one round of the loop with the deficit on the right. */
    method EraseStepRight(n: Node?, parent: Node, ghost p0: Path, ghost t: Tree)
      returns (n': Node?, parent': Node?, paid: bool, ghost p': Path, ghost t': Tree)
      requires Focus(p0, t) && Short(p0, t) && Root(t) == n && !IsRed(t)
      requires p0.InRight? && p0.node == parent
      modifies `node, linked
      ensures Focus(p', t') && Short(p', t') && Root(t') == n' && Whole(p', t') == Whole(p0, t)
      ensures if paid then p' == Top else Owner(p') == parent' && Slack(p', t') < Slack(p0, t)
    {
      ghost var p := p0;
      assert MatchTree(p.left, parent);
      var other := parent.left;
      if other.red {
        SiblingRaisedSound(p, t);
        RaiseSiblingRight(parent, other, p, t);
        p := SiblingRaisedRight(p);
        other := parent.left;
        assert MatchTree(p.left, parent);
      }
      n', parent', paid, p', t' := BlackSiblingRight(n, parent, other, p, t);
    }

    /** rbtree.c:166-172. */
    method ReddenRight(parent: Node, other: Node, ghost p: Path, ghost t: Tree) returns (ghost s: Tree)
      requires Focus(p, t) && p.InRight? && p.node == parent && p.left.Fork? && p.left.node == other
      modifies linked
      ensures s == SiblingReddened(p, t) && Focus(p.up, s) && Whole(p.up, s) == Whole(p, t)
    {
      ghost var q := InLeft(p.up, parent, p.red, t);
      Up(p, t);
      DownLeft(p.up, Grow(p, t));
      ghost var o := Paint(other, true, q, p.left);
      Up(q, o);
      s := Grow(q, o);
    }

    /** `__rb_erase_color`. */
    method EraseColor(child: Node?, owner: Node?, ghost p0: Path, ghost t0: Tree) returns (ghost whole: Tree)
      requires Focus(p0, t0) && Short(p0, t0) && Root(t0) == child && Owner(p0) == owner
      modifies `node, linked
      ensures Focus(Top, whole) && RedBlack(whole) && InOrder(whole) == Whole(p0, t0)
    {
      var n, parent := child, owner;
      ghost var p, t := p0, t0;
      while (n == null || !n.red) && n != node
        invariant Focus(p, t) && Short(p, t) && Root(t) == n && Owner(p) == parent
        invariant Whole(p, t) == Whole(p0, t0)
        decreases Slack(p, t)
      {
        var paid: bool;
        if parent.left == n {
          n, parent, paid, p, t := EraseStepLeft(n, parent, p, t);
        } else {
          n, parent, paid, p, t := EraseStepRight(n, parent, p, t);
        }
        if paid {
          break;
        }
      }
      if !p.Top? {
        RootOnPath(p, n);
      }
      BlackenedSound(p, t);
      if n != null {
        t := Paint(n, false, p, t);
      }
      ToTop(p, t);
      whole := Plug(p, t);
    }

    /** rbtree.c:242-255: `n` has at most one child, which takes its place. */
    method TakeOut(n: Node, child: Node?, ghost p: Path, ghost t: Tree)
      requires Focus(p, t) && t.Fork? && t.node == n && (t.left.Leaf? || t.right.Leaf?)
      requires child == if t.left.Leaf? then n.right else n.left
      modifies `node, `linked, linked
      ensures linked == old(linked) - {n}
      ensures Focus(p, if t.left.Leaf? then t.right else t.left)
    {
      ghost var c := if t.left.Leaf? then t.right else t.left;
      assert MatchTree(c, n) && Distinct(c);
      var parent := n.parent;
      if child != null {
        child.parent := parent;
      }
      assert MatchTree(c, parent);
      Relink(parent, n, child, p);
      linked := linked - {n};
      assert Nodes(c) + PathNodes(p) == linked;
    }

    /** rbtree.c:227-237 without the relinking above: `y`, already out of the tree, takes
        the place of `old`. */
    method TakePlace(old_: Node, y: Node, ghost t: Tree)
      requires t.Fork? && t.node == old_ && t.left.Fork? && y !in Nodes(t)
      requires Distinct(t) && MatchTree(t, old_.parent)
      modifies y, Nodes(t)
      ensures MatchTree(t.(node := y), old(old_.parent))
      ensures Distinct(t.(node := y)) && Nodes(t.(node := y)) == Nodes(t) - {old_} + {y}
    {
      ghost var l, r := t.left, t.right;
      assert MatchTree(l, old_) && MatchTree(r, old_) && Distinct(l) && Distinct(r);
      y.right := old_.right;
      if y.right != null {
        y.right.parent := y;
      }
      y.parent := old_.parent;
      y.red := old_.red;
      y.left := old_.left;
      y.left.parent := y;
      assert MatchTree(l, y) && MatchTree(r, y);
    }

    /** The same when `y` is the right child of `old_`: it keeps its own right subtree. */
    method TakePlaceOfParent(old_: Node, y: Node, ghost t: Tree)
      requires t.Fork? && t.node == old_ && t.left.Fork? && t.right.Fork?
      requires t.right.node == y && t.right.left.Leaf?
      requires Distinct(t) && MatchTree(t, old_.parent)
      modifies y, Nodes(t)
      ensures var t' := t.(node := y, right := t.right.right);
              MatchTree(t', old(old_.parent)) && Distinct(t') && Nodes(t') == Nodes(t) - {old_}
    {
      ghost var l, r := t.left, t.right;
      assert MatchTree(l, old_) && MatchTree(r, old_) && Distinct(l) && Distinct(r);
      y.parent := old_.parent;
      y.red := old_.red;
      y.left := old_.left;
      y.left.parent := y;
      assert MatchTree(l, y) && MatchTree(r.right, y);
    }

    lemma {:induction false} Climb(q: Path, base: Path, t: Tree)
      ensures Focus(Append(q, base), t) <==> Focus(base, Plug(q, t))
      decreases q
    {
      if !q.Top? {
        ghost var p := Append(q, base);
        Climb(q.up, base, Grow(q, t));
        if Focus(p, t) {
          Up(p, t);
        } else if Focus(p.up, Grow(p, t)) {
          if q.InLeft? {
            DownLeft(p.up, Grow(p, t));
          } else {
            DownRight(p.up, Grow(p, t));
          }
        }
      }
    }

    /** rbtree.c:208-210: the successor of `n` inside its right subtree. */
    method Successor(n: Node, ghost p: Path, ghost t: Tree) returns (y: Node, ghost q: Path, ghost m: Tree)
      requires Focus(p, t) && t.Fork? && t.node == n && t.right.Fork?
      ensures m.Fork? && m.node == y && m.left.Leaf?
      ensures AllLeft(q) && Plug(q, m) == t.right
      ensures Focus(Append(q, InRight(p, t.left, n, t.red)), m)
      ensures q == Top <==> y.parent == n
    {
      ghost var base := InRight(p, t.left, n, t.red);
      DownRight(p, t);
      y := n.right;
      q, m := Top, t.right;
      while y.left != null
        invariant m.Fork? && m.node == y && AllLeft(q) && Plug(q, m) == t.right
        invariant Focus(Append(q, base), m)
        decreases m
      {
        DownLeft(Append(q, base), m);
        y := y.left;
        q, m := InLeft(q, m.node, m.red, m.right), m.left;
      }
      if !q.Top? {
        AppendOrder(q.up, base);
      }
    }

    /** rbtree.c:206-239: `n` has two children; its successor takes its place. */
    method MoveSuccessor(n: Node, ghost p: Path, ghost t: Tree)
      returns (child: Node?, parent: Node?, red: bool, ghost hole: Path, ghost c: Tree)
      requires Focus(p, t) && t.Fork? && t.node == n && t.left.Fork? && t.right.Fork?
      requires RedBlack(Plug(p, t))
      modifies `node, `linked, linked
      ensures linked == old(linked) - {n}
      ensures Focus(hole, c) && Root(c) == child && Owner(hole) == parent
      ensures if red then RedBlack(Plug(hole, c)) else Short(hole, c)
      ensures Whole(hole, c) == Before(p) + InOrder(t.left) + InOrder(t.right) + After(p)
    {
      var y;
      ghost var q, m;
      y, q, m := Successor(n, p, t);
      SuccessorMovedSound(p, t, q, m);
      SuccessorMovedOrder(p, t.left, t.red, q, m);
      c := m.right;
      hole := Append(q, InRight(p, t.left, y, t.red));
      child := y.right;
      parent := y.parent;
      red := y.red;
      if parent == n {
        parent := y;
        MoveNear(n, y, p, t);
      } else {
        MoveFar(n, y, child, p, t, q, m);
      }
    }

    method MoveNear(n: Node, y: Node, ghost p: Path, ghost t: Tree)
      requires Focus(p, t) && t.Fork? && t.node == n && t.left.Fork? && t.right.Fork?
      requires t.right.node == y && t.right.left.Leaf?
      modifies `node, `linked, linked
      ensures linked == old(linked) - {n}
      ensures Focus(InRight(p, t.left, y, t.red), t.right.right)
    {
      ghost var t' := t.(node := y, right := t.right.right);
      var above := n.parent;
      TakePlaceOfParent(n, y, t);
      Relink(above, n, y, p);
      linked := linked - {n};
      assert Nodes(t') + PathNodes(p) == linked;
      DownRight(p, t');
    }

    method MoveFar(n: Node, y: Node, child: Node?, ghost p: Path, ghost t: Tree, ghost q: Path, ghost m: Tree)
      requires t.Fork? && t.node == n && t.left.Fork? && Plug(q, m) == t.right
      requires m.Fork? && m.node == y && m.left.Leaf? && y.right == child
      requires Focus(Append(q, InRight(p, t.left, n, t.red)), m)
      modifies `node, `linked, linked
      ensures linked == old(linked) - {n}
      ensures Focus(Append(q, InRight(p, t.left, y, t.red)), m.right)
    {
      ghost var s := t.(right := Plug(q, m.right));
      SpliceSuccessor(y, child, p, t, q, m);
      ReplaceRoot(n, y, p, s);
      DownRight(p, s.(node := y));
      Climb(q, InRight(p, t.left, y, t.red), m.right);
    }

    method SpliceSuccessor(y: Node, child: Node?, ghost p: Path, ghost t: Tree, ghost q: Path, ghost m: Tree)
      requires t.Fork? && m.Fork? && m.node == y && m.left.Leaf? && y.right == child
      requires Focus(Append(q, InRight(p, t.left, t.node, t.red)), m)
      modifies `node, `linked, linked
      ensures linked == old(linked) - {y} && y in old(linked) && y != t.node
      ensures Focus(p, t.(right := Plug(q, m.right)))
    {
      ghost var base := InRight(p, t.left, t.node, t.red);
      AppendOrder(q, base);
      TakeOut(y, child, Append(q, base), m);
      Climb(q, base, m.right);
      Up(base, Plug(q, m.right));
    }

    method ReplaceRoot(n: Node, y: Node, ghost p: Path, ghost t: Tree)
      requires Focus(p, t) && t.Fork? && t.node == n && t.left.Fork? && y !in linked
      modifies `node, `linked, linked, y
      ensures linked == old(linked) - {n} + {y}
      ensures Focus(p, t.(node := y))
    {
      ghost var t' := t.(node := y);
      var above := n.parent;
      TakePlace(n, y, t);
      Relink(above, n, y, p);
      linked := linked - {n} + {y};
      assert Nodes(t') + PathNodes(p) == linked;
    }

    /** rbtree.c:200-255: `n` is out of the tree; `child` hangs where one node is missing. */
    method Unlink(n: Node, ghost p: Path, ghost t: Tree)
      returns (child: Node?, parent: Node?, red: bool, ghost hole: Path, ghost c: Tree)
      requires Focus(p, t) && t.Fork? && t.node == n && RedBlack(Plug(p, t))
      modifies `node, `linked, linked
      ensures linked == old(linked) - {n}
      ensures Focus(hole, c) && Root(c) == child && Owner(hole) == parent
      ensures if red then RedBlack(Plug(hole, c)) else Short(hole, c)
      ensures Whole(hole, c) == Before(p) + InOrder(t.left) + InOrder(t.right) + After(p)
    {
      if n.left == null || n.right == null {
        child := if n.left == null then n.right else n.left;
        parent := n.parent;
        red := n.red;
        TakenOutSound(p, t);
        hole, c := p, if t.left.Leaf? then t.right else t.left;
        assert MatchTree(t.left, n) && MatchTree(t.right, n);
        TakeOut(n, child, p, t);
      } else {
        child, parent, red, hole, c := MoveSuccessor(n, p, t);
      }
    }

    /** rbtree.c:257-259. */
    method Rebalance(child: Node?, parent: Node?, red: bool, ghost p: Path, ghost t: Tree) returns (ghost whole: Tree)
      requires Focus(p, t) && Root(t) == child && Owner(p) == parent
      requires if red then RedBlack(Plug(p, t)) else Short(p, t)
      modifies `node, linked
      ensures Focus(Top, whole) && RedBlack(whole) && InOrder(whole) == Whole(p, t)
    {
      if !red {
        whole := EraseColor(child, parent, p, t);
      } else {
        ToTop(p, t);
        whole := Plug(p, t);
      }
    }

    /** `rb_erase`. */
    method Erase(n: Node)
      requires Valid() && n in linked
      modifies this, linked
      ensures Valid() && linked == old(linked) - {n}
      ensures Contents() == Without(old(Contents()), n)
    {
      ghost var p, t := Locate(Top, shape, n);
      FromTop(p, t);
      OrderAround(p, t);
      var child, parent, red;
      ghost var hole, c;
      child, parent, red, hole, c := Unlink(n, p, t);
      shape := Rebalance(child, parent, red, hole, c);
    }

    lemma OrderAround(p: Path, t: Tree)
      requires Focus(p, t) && t.Fork?
      ensures InOrder(Plug(p, t)) == (Before(p) + InOrder(t.left)) + [t.node] + (InOrder(t.right) + After(p))
      ensures t.node !in Before(p) + InOrder(t.left)
      ensures Without(InOrder(Plug(p, t)), t.node) == Before(p) + InOrder(t.left) + InOrder(t.right) + After(p)
    {
      var a, l, x, r, b := Before(p), InOrder(t.left), [t.node], InOrder(t.right), After(p);
      PlugInOrder(p, t);
      assert InOrder(Plug(p, t)) == a + (l + x + r) + b;
      BeforeNodes(p);
      InOrderNodes(t.left);
      assert t.node !in a && t.node !in l;
      Sequences.Five(a, l, x, r, b);
      WithoutAt(a + l, t.node, r + b);
      Sequences.Four(a, l, r, b);
    }

    // ---------- walking ----------

    /** `rb_first`. */
    method First() returns (n: Node?)
      requires Valid()
      ensures n == if Contents() == [] then null else Contents()[0]
    {
      n := node;
      if n == null {
        return;
      }
      ghost var p, t := Top, shape;
      while n.left != null
        invariant t.Fork? && Focus(p, t) && t.node == n && Before(p) == []
        invariant Whole(p, t) == Contents()
        decreases t
      {
        DownLeft(p, t);
        n := n.left;
        p, t := InLeft(p, t.node, t.red, t.right), t.left;
      }
      assert InOrder(t) == [n] + InOrder(t.right);
    }

    /** `rb_next`. */
    method Next(n0: Node) returns (next: Node?)
      requires Valid() && n0 in linked
      ensures next == NextIn(Contents(), n0)
    {
      var n := n0;
      ghost var p, t := Locate(Top, shape, n);
      FromTop(p, t);
      OrderAround(p, t);
      ghost var before := Before(p) + InOrder(t.left);
      if n.parent == n {
        return null;
      }
      if n.right != null {
        next := LeftmostRight(n, p, t);
      } else {
        next := FirstLeftTurn(n, p, t);
      }
      NextInAt(before, n0, InOrder(t.right) + After(p));
    }

    method LeftmostRight(n0: Node, ghost p0: Path, ghost t0: Tree) returns (n: Node)
      requires Focus(p0, t0) && t0.Fork? && t0.node == n0 && t0.right.Fork?
      ensures InOrder(t0.right) != [] && n == InOrder(t0.right)[0]
    {
      n := n0.right;
      DownRight(p0, t0);
      ghost var p, t := InRight(p0, t0.left, t0.node, t0.red), t0.right;
      while n.left != null
        invariant t.Fork? && Focus(p, t) && t.node == n
        invariant InOrder(t)[0] == InOrder(t0.right)[0]
        decreases t
      {
        DownLeft(p, t);
        n := n.left;
        p, t := InLeft(p, t.node, t.red, t.right), t.left;
      }
    }

    method FirstLeftTurn(n0: Node, ghost p0: Path, ghost t0: Tree) returns (parent: Node?)
      requires Focus(p0, t0) && t0.Fork? && t0.node == n0
      ensures parent == if After(p0) == [] then null else After(p0)[0]
    {
      var n := n0;
      ghost var p, t := p0, t0;
      parent := n.parent;
      while parent != null && n == parent.right
        invariant Focus(p, t) && t.Fork? && t.node == n && Owner(p) == parent && After(p) == After(p0)
        decreases p
      {
        Up(p, t);
        n := parent;
        p, t := p.up, Grow(p, t);
        parent := n.parent;
      }
    }

    /** `rb_prev`. */
    method Prev(n0: Node) returns (prev: Node?)
      requires Valid() && n0 in linked
      ensures prev == PrevIn(Contents(), n0)
    {
      var n := n0;
      ghost var p, t := Locate(Top, shape, n);
      FromTop(p, t);
      OrderAround(p, t);
      ghost var before := Before(p) + InOrder(t.left);
      if n.parent == n {
        return null;
      }
      if n.left != null {
        prev := RightmostLeft(n, p, t);
      } else {
        prev := FirstRightTurn(n, p, t);
      }
      PrevInAt(before, n0, InOrder(t.right) + After(p));
    }

    method RightmostLeft(n0: Node, ghost p0: Path, ghost t0: Tree) returns (n: Node)
      requires Focus(p0, t0) && t0.Fork? && t0.node == n0 && t0.left.Fork?
      ensures InOrder(t0.left) != [] && n == InOrder(t0.left)[|InOrder(t0.left)| - 1]
    {
      n := n0.left;
      DownLeft(p0, t0);
      ghost var p, t := InLeft(p0, t0.node, t0.red, t0.right), t0.left;
      while n.right != null
        invariant t.Fork? && Focus(p, t) && t.node == n
        invariant InOrder(t)[|InOrder(t)| - 1] == InOrder(t0.left)[|InOrder(t0.left)| - 1]
        decreases t
      {
        DownRight(p, t);
        n := n.right;
        p, t := InRight(p, t.left, t.node, t.red), t.right;
      }
    }

    method FirstRightTurn(n0: Node, ghost p0: Path, ghost t0: Tree) returns (parent: Node?)
      requires Focus(p0, t0) && t0.Fork? && t0.node == n0
      ensures parent == if Before(p0) == [] then null else Before(p0)[|Before(p0)| - 1]
    {
      var n := n0;
      ghost var p, t := p0, t0;
      parent := n.parent;
      while parent != null && n == parent.left
        invariant Focus(p, t) && t.Fork? && t.node == n && Owner(p) == parent && Before(p) == Before(p0)
        decreases p
      {
        Up(p, t);
        n := parent;
        p, t := p.up, Grow(p, t);
        parent := n.parent;
      }
    }
  }

  /** One round of `release_map`: take the next node first, then erase the current one. */
  method EraseHead(tree: RbRoot, n: Node) returns (next: Node?)
    requires tree.Valid() && tree.Contents() != [] && tree.Contents()[0] == n
    modifies tree, tree.linked
    ensures tree.Valid() && tree.linked == old(tree.linked) - {n}
    ensures tree.Contents() == old(tree.Contents())[1..]
    ensures next == if tree.Contents() == [] then null else tree.Contents()[0]
  {
    ghost var s := tree.Contents();
    InOrderNodes(tree.shape);
    assert n in s;
    next := tree.Next(n);
    tree.Erase(n);
  }

  lemma MoveHead<T>(done: seq<T>, rest: seq<T>)
    requires rest != []
    ensures done + rest == (done + [rest[0]]) + rest[1..]
  {
  }

  /** The loop of `release_map`; `visited` are the nodes in the order of their visit. */
  method EraseAll(tree: RbRoot) returns (visited: seq<Node>)
    requires tree.Valid()
    modifies tree, tree.linked
    ensures tree.Valid() && tree.node == null && tree.Contents() == []
    ensures visited == old(tree.Contents())
  {
    visited := [];
    var n := tree.First();
    while n != null
      invariant tree.Valid() && tree.linked <= old(tree.linked)
      invariant visited + tree.Contents() == old(tree.Contents())
      invariant n == if tree.Contents() == [] then null else tree.Contents()[0]
      decreases |tree.Contents()|
    {
      MoveHead(visited, tree.Contents());
      visited := visited + [n];
      n := EraseHead(tree, n);
    }
  }
}
