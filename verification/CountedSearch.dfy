/** The stepwise search of tree234.c and `findrelpos234`, seen as a binary search in the
    sequence of elements. */
module CountedSearch {
  import opened CountedShape
  import opened CountedTree

  /** `search234_state`. */
  class SearchState {
    var element: Ptr
    var index: int
    var lo: int
    var hi: int
    var last: int
    var base: int
    var node: Node?
    ghost var path: Path
    ghost var tree: Tree
    ghost var height: nat

    /** `node` is a node of `t`, and `base` elements come before its subtree. */
    ghost predicate Placed(t: Tree234)
      reads `node, `base, `path, `tree, `height, t, t.linked
    {
      && t.Focus(path, tree) && Sound(tree, height) && PathSound(path, height)
      && Whole(path, tree) == t.Contents() && node == Root(tree) && base == |Before(path)|
    }

    /** The search stands at an element between `lo` and `hi` of `node`, or has narrowed to
        nothing. */
    ghost predicate Valid(t: Tree234)
      reads this, t, t.linked
    {
      && Placed(t)
      && (tree.Leaf? ==> element == NULL && index == base)
      && (tree.Fork? ==>
            && 0 <= lo <= last <= hi < |tree.elems| && last == (lo + hi) / 2
            && element == tree.elems[last]
            && index == base + Prefix(tree.kids, tree.elems, last) + |Flat(tree.kids[last])|)
    }

    /** What the search has not ruled out are the elements number `Lo()` up to `Hi()`. */
    ghost function Lo(): int
      requires tree.Fork? ==> 0 <= lo <= |tree.elems| && lo <= |tree.kids|
      reads this
    {
      if tree.Leaf? then base else base + Prefix(tree.kids, tree.elems, lo)
    }

    ghost function Hi(): int
      requires tree.Fork? ==> 0 <= hi < |tree.elems| && hi + 1 < |tree.kids|
      reads this
    {
      if tree.Leaf? then base
      else base + Prefix(tree.kids, tree.elems, hi + 1) + |Flat(tree.kids[hi + 1])|
    }

    lemma Bracket(t: Tree234)
      requires Valid(t)
      ensures 0 <= Lo() <= index <= Hi() <= |t.Contents()|
      ensures element == NULL <==> Lo() == Hi()
      ensures element != NULL ==> index < Hi() && element == t.Contents()[index]
    {
      hide Weave, Before, After, Prefix, Tree234.Focus;
      if tree.Fork? {
        var ts, es := tree.kids, tree.elems;
        assert es[last] in es;
        Between(ts, es, lo, last, hi);
        WholeAt(path, tree, index - base);
        assert Flat(tree) == Weave(ts, es);
        WholeLength(path, tree);
        hide Flat, Sound, PathSound, Whole;
      }
    }

    lemma Between(ts: seq<Tree>, es: seq<Ptr>, lo: int, last: int, hi: int)
      requires |ts| == |es| + 1 && 0 <= lo <= last <= hi < |es|
      ensures var at, end := Prefix(ts, es, last) + |Flat(ts[last])|, Prefix(ts, es, hi + 1) + |Flat(ts[hi + 1])|;
              && 0 <= Prefix(ts, es, lo) <= at < end <= |Weave(ts, es)|
              && Weave(ts, es)[at] == es[last]
    {
      PrefixMonotone(ts, es, lo, last);
      PrefixMonotone(ts, es, last + 1, hi + 1);
      SlotAt(ts, es, lo);
      SlotAt(ts, es, last);
      SlotAt(ts, es, hi + 1);
      assert Prefix(ts, es, last + 1) == Prefix(ts, es, last) + |Flat(ts[last])| + 1;
      hide Weave;
    }

    lemma WholeLength(p: Path, t: Tree)
      ensures |Whole(p, t)| >= |Before(p)| + |Flat(t)|
    {
    }

    constructor ()
    {
    }

    /** Sum of `counts[i]` over the first `k` children, with their elements. */
    method CountUpTo(n: Node, k: nat, start: int, ghost t: Tree) returns (sum: int)
      requires t.Fork? && MatchFields(n, Roots(t.kids), Sizes(t.kids), t.elems)
      requires k <= |t.elems| <= 3 && |t.kids| == |t.elems| + 1
      ensures sum == start + Prefix(t.kids, t.elems, k)
    {
      sum := start;
      for i := 0 to k
        invariant sum == start + Prefix(t.kids, t.elems, i)
      {
        sum := sum + 1 + n.counts[i];
      }
    }

    /** `elements234`. */
    method CountElements(n: Node, ghost es: seq<Ptr>) returns (k: nat)
      requires |n.elems| == 3 && |es| <= 3 && NULL !in es
      requires forall i | 0 <= i < 3 :: n.elems[i] == if i < |es| then es[i] else NULL
      ensures k == |es|
    {
      assert forall i | 0 <= i < |es| :: es[i] in es;
      k := 0;
      while k < 3 && n.elems[k] != NULL
        invariant k <= |es|
      {
        k := k + 1;
      }
    }

    /** tree234.c:656-678 with `_last == -1`: everything below `node` is still possible. */
    method Look(t: Tree234)
      requires Placed(t)
      modifies `lo, `hi, `element, `index, `last
      ensures Valid(t) && Lo() == base && Hi() == base + |Flat(tree)|
    {
      lo := 0;
      if node == null {
        hi := 0;
        element, index := NULL, base;
      } else {
        LookInside(t);
      }
    }

    method LookInside(t: Tree234)
      requires Placed(t) && tree.Fork? && lo == 0
      modifies `hi, `element, `index, `last
      ensures Valid(t) && Lo() == base && Hi() == base + |Flat(tree)|
    {
      var count := CountElements(node, tree.elems);
      hi := count - 1;
      SlotAt(tree.kids, tree.elems, |tree.elems|);
      Settle(t);
    }

    /** tree234.c:672-678. */
    method Settle(t: Tree234)
      requires Placed(t) && tree.Fork? && 0 <= lo <= hi < |tree.elems|
      modifies `element, `index, `last
      ensures Valid(t)
    {
      hide Placed, Prefix, Flat, MatchFields, Roots, Sizes;
      FieldsOf(t);
      last := (lo + hi) / 2;
      element := node.elems[last];
      var sum := CountUpTo(node, last, base, tree);
      index := sum + node.counts[last];
    }

    lemma FieldsOf(t: Tree234)
      requires Placed(t) && tree.Fork?
      ensures node != null && MatchFields(node, Roots(tree.kids), Sizes(tree.kids), tree.elems)
      ensures |node.elems| == 3 && |node.counts| == 4 && 1 <= |tree.elems| <= 3 && |tree.kids| == |tree.elems| + 1
      ensures forall i | 0 <= i < |tree.elems| :: node.elems[i] == tree.elems[i]
      ensures forall i | 0 <= i <= |tree.elems| :: node.counts[i] == |Flat(tree.kids[i])|
    {
    }

    /** `search234_start`. */
    method Start(t: Tree234)
      requires t.Valid()
      modifies this
      ensures Valid(t) && Lo() == 0 && Hi() == |t.Contents()|
    {
      node, base, last := t.root, 0, -1;
      path, tree, height := Top, t.shape, t.height;
      assert Whole(path, tree) == t.Contents();
      Look(t);
    }

    /** tree234.c:649-652: nothing of `node` is left but its child number `lo`. */
    method Descend(t: Tree234)
      requires Placed(t) && tree.Fork? && 0 <= lo <= |tree.elems|
      modifies this
      ensures Placed(t)
      ensures base == old(base) + old(Prefix(tree.kids, tree.elems, lo))
      ensures |Flat(tree)| == old(|Flat(tree.kids[lo])|)
    {
      var sum := CountUpTo(node, lo, base, tree);
      DownFacts(t);
      base, node := sum, node.kids[lo];
      path, tree, height := Enter(path, tree, lo), tree.kids[lo], height - 1;
    }

    lemma DownFacts(t: Tree234)
      requires Placed(t) && tree.Fork? && 0 <= lo <= |tree.elems|
      ensures var q, u := Enter(path, tree, lo), tree.kids[lo];
              && t.Focus(q, u) && height > 0 && Sound(u, height - 1) && PathSound(q, height - 1)
              && Whole(q, u) == t.Contents() && node.kids[lo] == Root(u)
              && |Before(q)| == base + Prefix(tree.kids, tree.elems, lo)
    {
      MatchKid(tree, Owner(path), lo, height);
      t.Down(path, tree, lo, height - 1);
      BeforeEnter(path, tree, lo);
    }

    /** tree234.c:642-679, with the new `lo` and `hi` in place. */
    method Narrow(t: Tree234)
      requires Placed(t) && tree.Fork? && 0 <= lo <= hi + 1 <= |tree.elems|
      modifies this
      ensures Valid(t) && Lo() == old(Lo())
      ensures Hi() == old(base + Prefix(tree.kids, tree.elems, hi + 1) + |Flat(tree.kids[hi + 1])|)
    {
      if lo > hi {
        Descend(t);
        Look(t);
      } else {
        Settle(t);
      }
    }

    /** `search234_step`, at an element: a positive direction rules out everything up to that
        element, a negative one everything from it on. */
    method Step(t: Tree234, direction: int)
      requires Valid(t) && element != NULL && direction != 0
      modifies this
      ensures Valid(t)
      ensures Lo() == if direction > 0 then old(index) + 1 else old(Lo())
      ensures Hi() == if direction > 0 then old(Hi()) else old(index)
    {
      if direction > 0 {
        lo := last + 1;
      } else {
        hi := last - 1;
      }
      Narrow(t);
    }
  }

  /** REL234_EQ, REL234_LT, REL234_LE, REL234_GT, REL234_GE. */
  datatype Relation = EQ | LT | LE | GT | GE {
    function Direction(): int {
      match this
      case EQ => 0
      case LT => -1
      case LE => -1
      case GT => 1
      case GE => 1
    }

    predicate EqualPermitted() {
      !LT? && !GT?
    }

    /** Does an element answer a query that compares to it like `c` to 0? */
    predicate Accepts(c: int) {
      match this
      case EQ => c == 0
      case LT => c > 0
      case LE => c >= 0
      case GT => c < 0
      case GE => c <= 0
    }
  }

  /** How the query compares to `x`; the NULL query lies beyond all elements, on the side
      that makes all of them acceptable. */
  ghost function Compare(cmp: Cmp, e: Ptr, rel: Relation, x: Ptr): int {
    if e != NULL then cmp(e, x) else -rel.Direction()
  }

  /** Element `i` of `s` answers the query, and no element farther on in the wanted
      direction does, unless it or element `i` compares equal. */
  ghost predicate Answers(cmp: Cmp, e: Ptr, rel: Relation, s: seq<Ptr>, i: int) {
    && 0 <= i < |s| && rel.Accepts(Compare(cmp, e, rel, s[i]))
    && (Compare(cmp, e, rel, s[i]) != 0 && rel.Direction() < 0 ==>
          forall j | i < j < |s| :: !rel.Accepts(Compare(cmp, e, rel, s[j])))
    && (Compare(cmp, e, rel, s[i]) != 0 && rel.Direction() > 0 ==>
          forall j | 0 <= j < i :: !rel.Accepts(Compare(cmp, e, rel, s[j])))
  }

  /** All of `s` up to `lo` lies below the query and all from `hi` on above it, where equal
      elements count as lying on the side that LT and GT ask for. */
  ghost predicate Ruled(cmp: Cmp, e: Ptr, rel: Relation, s: seq<Ptr>, lo: int, hi: int) {
    && 0 <= lo <= hi <= |s|
    && (forall j | 0 <= j < lo :: Pretended(Compare(cmp, e, rel, s[j]), rel) > 0)
    && (forall j | hi <= j < |s| :: Pretended(Compare(cmp, e, rel, s[j]), rel) < 0)
  }

  /** tree234.c:547-563: the sign that steers the search. */
  function Pretended(c: int, rel: Relation): int {
    if c == 0 && !rel.EqualPermitted() then rel.Direction() else c
  }

  lemma RuledStep(cmp: Cmp, e: Ptr, rel: Relation, s: seq<Ptr>, lo: int, hi: int, i: int)
    requires Ruled(cmp, e, rel, s, lo, hi) && lo <= i < hi
    requires e != NULL ==> Monotone(cmp, e, s)
    ensures Pretended(Compare(cmp, e, rel, s[i]), rel) > 0 ==> Ruled(cmp, e, rel, s, i + 1, hi)
    ensures Pretended(Compare(cmp, e, rel, s[i]), rel) < 0 ==> Ruled(cmp, e, rel, s, lo, i)
  {
  }

  /** `findrelpos234`. `index` is what the C function stores through its pointer argument
      when the result is not NULL. */
  method FindRelPos(t: Tree234, e: Ptr, cmp: Option<Cmp>, rel: Relation) returns (r: Ptr, index: int)
    requires t.Valid()
    requires e == NULL ==> !rel.EqualPermitted()
    requires cmp.Some? || t.cmp.Some? || e == NULL
    requires var c := if cmp.Some? then cmp else t.cmp; e != NULL ==> Monotone(c.value, e, t.Contents())
    ensures var c := if cmp.Some? then cmp else t.cmp; var s := t.Contents();
            var f := if c.Some? then c.value else (x: Ptr, y: Ptr) => 0;
            if exists i :: 0 <= i < |s| && rel.Accepts(Compare(f, e, rel, s[i]))
            then Answers(f, e, rel, s, index) && r == s[index] && r != NULL
            else r == NULL
  {
    var compare := if cmp.Some? then cmp else t.cmp;
    ghost var f := if compare.Some? then compare.value else (x: Ptr, y: Ptr) => 0;
    var same;
    same, r, index := Search(t, e, compare, f, rel);
    if same {
      return;
    }
    RuledOut(f, e, rel, t.Contents(), index);
    if rel.EQ? {
      return NULL, 0;
    }
    if rel.LT? || rel.LE? {
      index := index - 1;
    }
    r := t.Index(index);
  }

  /** The loop of `findrelpos234`: an equal element, or the place where one would stand. */
  method Search(t: Tree234, e: Ptr, compare: Option<Cmp>, ghost f: Cmp, rel: Relation)
    returns (same: bool, r: Ptr, index: int)
    requires t.Valid() && (e == NULL ==> !rel.EqualPermitted()) && (e != NULL ==> Monotone(f, e, t.Contents()))
    requires e != NULL ==> compare == Some(f)
    ensures same ==>
              && 0 <= index < |t.Contents()| && r == t.Contents()[index] && r != NULL
              && Compare(f, e, rel, r) == 0 && rel.EqualPermitted()
    ensures !same ==> Ruled(f, e, rel, t.Contents(), index, index)
  {
    ghost var s := t.Contents();
    var ss := new SearchState();
    ss.Start(t);
    ss.Bracket(t);
    while ss.element != NULL
      invariant ss.Valid(t) && Ruled(f, e, rel, s, ss.Lo(), ss.Hi())
      decreases ss.Hi() - ss.Lo()
    {
      ss.Bracket(t);
      r, index := ss.element, ss.index;
      same := SearchStep(t, ss, e, compare, f, rel);
      if same {
        return;
      }
    }
    ss.Bracket(t);
    same, r, index := false, NULL, ss.index;
  }

  /** One round of that loop. */
  method SearchStep(t: Tree234, ss: SearchState, e: Ptr, compare: Option<Cmp>, ghost f: Cmp, rel: Relation)
    returns (same: bool)
    requires ss.Valid(t) && ss.element != NULL && (e != NULL ==> compare == Some(f) && Monotone(f, e, t.Contents()))
    requires e == NULL ==> !rel.EqualPermitted()
    requires Ruled(f, e, rel, t.Contents(), ss.Lo(), ss.Hi())
    modifies ss
    ensures same ==> Compare(f, e, rel, old(ss.element)) == 0 && rel.EqualPermitted()
    ensures !same ==>
              && ss.Valid(t) && Ruled(f, e, rel, t.Contents(), ss.Lo(), ss.Hi())
              && ss.Hi() - ss.Lo() < old(ss.Hi()) - old(ss.Lo())
  {
    var c := if e != NULL then compare.value(e, ss.element) else -rel.Direction();
    same := c == 0 && rel.EqualPermitted();
    if !same {
      ss.Bracket(t);
      RuledStep(f, e, rel, t.Contents(), ss.Lo(), ss.Hi(), ss.index);
      ss.Step(t, Pretended(c, rel));
    }
  }

  lemma RuledOut(cmp: Cmp, e: Ptr, rel: Relation, s: seq<Ptr>, i: int)
    requires Ruled(cmp, e, rel, s, i, i)
    ensures forall j | 0 <= j < |s| ::
              rel.Accepts(Compare(cmp, e, rel, s[j])) <==>
              if rel.Direction() < 0 then j < i else rel.Direction() > 0 && i <= j
  {
  }
}
