/** What `add234_internal` does with an index past the end (tree234.c:165-200). */
module CountedEnd {
  import opened CountedShape

  /** By the root `t` of the tree. `Appends`: a leaf picks one of its unused places. `Refuses`:
    * an inner node returns NULL. `Misses`: an inner node picks a child that it does not have.
    * `Outside`: a leaf reads past its array of children. */
  datatype Aim = InRange | Appends | Refuses | Misses | Outside

  ghost function AimOf(t: Tree, index: int): Aim {
    if t.Leaf? || t.kids == [] || index <= |Flat(t)| then InRange
    else if t.kids[0].Leaf? then (if index < 4 then Appends else Outside)
    else if index > |Flat(t)| + 3 - |t.elems| then Refuses
    else Misses
  }

  /** `t` with `e` as its last element, two empty subtrees around `e`, and without its last subtree. */
  ghost function Cropped(t: Tree, e: Ptr): Tree
    requires t.Fork? && |t.kids| == |t.elems| + 1
  {
    Fork(t.node, t.kids[..|t.elems|] + [Leaf, Leaf], t.elems + [e])
  }

  ghost function Last(t: Tree): Tree
    requires t.Fork? && |t.kids| == |t.elems| + 1
  {
    t.kids[|t.elems|]
  }

  /** What `add234_internal` makes of the tree `t`: the result is NULL, and nothing happens, if and
    * only if the root refuses the index. */
  ghost predicate Added(t: Tree, e: Ptr, index: int, valid: bool, t': Tree, r: Ptr)
    requires index >= 0
  {
    var s, aim := Flat(t), AimOf(t, index);
    && (r == if aim == Refuses then NULL else e)
    && (valid <==> aim != Misses)
    && match aim
       case InRange => if t.Leaf? then Flat(t') == [e] else index <= |s| && Flat(t') == s[..index] + [e] + s[index..]
       case Appends => Flat(t') == s + [e]
       case Refuses => t' == t
       case Misses =>
         && t.Fork? && |t.kids| == |t.elems| + 1 && 0 < |Flat(Last(t))| <= |s|
         && Flat(t') == s[..|s| - |Flat(Last(t))|] + [e]
       case Outside => false
  }

  lemma NotEmpty(t: Tree, h: nat)
    requires Sound(t, h) && h > 0
    ensures |Flat(t)| >= 1
  {
  }

  lemma SoundHeight(t: Tree, h: nat)
    requires Sound(t, h)
    ensures t.Leaf? <==> h == 0
    ensures t.Fork? ==> |t.kids| == |t.elems| + 1 && 1 <= |t.elems| <= 3
  {
  }

  /** What is left of the sequence: the last subtree is lost, and `e` stands at the end. */
  lemma CroppedFlat(t: Tree, e: Ptr)
    requires t.Fork? && |t.kids| == |t.elems| + 1
    ensures |Flat(Last(t))| <= |Flat(t)|
    ensures Flat(Cropped(t, e)) == Flat(t)[..|Flat(t)| - |Flat(Last(t))|] + [e]
  {
    var m := |t.elems|;
    var a, last := t.kids[..m], t.kids[m];
    assert t.kids == a + [last] + [] && t.elems == t.elems + [];
    WeaveAround(a, t.elems, last, [], []);
    assert t.kids[..m] + [Leaf, Leaf] == a + [Leaf, Leaf] + [] && t.elems + [e] == t.elems + [e] + [];
    WeavePair(a, t.elems, Leaf, e, Leaf, [], []);
    assert Flat(t)[..|Flat(t)| - |Flat(last)|] == WeaveLeft(a, t.elems);
  }

  lemma LeafCount(t: Tree, h: nat)
    requires Sound(t, h) && t.Fork? && t.kids[0].Leaf?
    ensures h == 1 && |Flat(t)| == |t.elems|
  {
    SoundKid(t, h, 0);
    SoundKid(t, h, |t.elems|);
    LeafPrefix(t, h, |t.elems|);
    WeaveAt(t.kids, t.elems, |t.elems|);
    PrefixIsLength(t.kids, t.elems, |t.elems|);
  }

  /** What the tests of one round mean for `AimOf`. */
  lemma AimFacts(t: Tree, h: nat, index: int)
    requires Sound(t, h) && t.Fork? && 0 <= index && AimOf(t, index) != Outside
    ensures |t.kids| == |t.elems| + 1 && Flat(t) == Weave(t.kids, t.elems)
    ensures AimOf(t, index) == InRange <==> index <= |Weave(t.kids, t.elems)|
    ensures AimOf(t, index) == Refuses <==> t.kids[0].Fork? && index > |Weave(t.kids, t.elems)| + 3 - |t.elems|
    ensures t.kids[0].Leaf? && AimOf(t, index) == InRange ==>
              index <= |t.elems| && Prefix(t.kids, t.elems, index) == index && |Flat(t.kids[index])| == 0
    ensures t.kids[0].Leaf? && AimOf(t, index) != InRange ==> |t.elems| < index < 4
  {
    if t.kids[0].Leaf? {
      LeafCount(t, h);
      if index <= |Flat(t)| {
        LeafIndex(t, h, index);
      }
    }
  }

  /** In a leaf nothing is lost. */
  lemma CroppedLeaf(t: Tree, e: Ptr, h: nat)
    requires Sound(t, h) && t.Fork? && t.kids[0].Leaf? && |t.elems| <= 2 && e != NULL
    ensures h == 1 && Last(t) == Leaf && Sound(Cropped(t, e), 1) && |Flat(t)| == |t.elems|
  {
    LeafCount(t, h);
    SoundKid(t, h, |t.elems|);
    SoundFront(t, h);
    CroppedSound(t, e, 0);
  }

  lemma SoundFront(t: Tree, h: nat)
    requires Sound(t, h) && t.Fork?
    ensures AllSound(t.kids[..|t.elems|], h - 1)
  {
    var a := t.kids[..|t.elems|];
    assert t.kids == a + [Last(t)] + [];
    SoundAround(a, Last(t), [], h - 1);
  }

  lemma CroppedSound(t: Tree, e: Ptr, g: nat)
    requires t.Fork? && |t.kids| == |t.elems| + 1 && 1 <= |t.elems| <= 2 && e != NULL && NULL !in t.elems
    ensures Sound(Cropped(t, e), g + 1) <==> AllSound(t.kids[..|t.elems|], g) && g == 0
  {
    var a := t.kids[..|t.elems|];
    assert a + [Leaf, Leaf] == a + [Leaf, Leaf] + [];
    SoundPair(a, Leaf, Leaf, [], g);
  }

  /** In an inner node at least one element is lost, and what is left is no 2-3-4 tree. */
  lemma CroppedInner(t: Tree, e: Ptr, h: nat)
    requires Sound(t, h) && t.Fork? && t.kids[0].Fork? && |t.elems| <= 2 && e != NULL
    ensures |Flat(Last(t))| >= 1
    ensures forall g: nat :: !Sound(Cropped(t, e), g)
  {
    SoundKid(t, h, 0);
    SoundKid(t, h, |t.elems|);
    NotEmpty(Last(t), h - 1);
    forall g: nat
      ensures !Sound(Cropped(t, e), g)
    {
      if g > 0 && Sound(Cropped(t, e), g) {
        CroppedSound(t, e, g - 1);
        assert false;
      }
    }
  }

  ghost predicate EndOf(t: Tree, e: Ptr, index: int) {
    && e != NULL && (AimOf(t, index) == Appends || AimOf(t, index) == Misses)
    && t.Fork? && |t.kids| == |t.elems| + 1 && |Flat(Last(t))| <= |Flat(t)|
    && Flat(Cropped(t, e)) == Flat(t)[..|Flat(t)| - |Flat(Last(t))|] + [e]
    && (AimOf(t, index) == Appends ==> |Flat(Last(t))| == 0 && Sound(Cropped(t, e), 1))
    && (AimOf(t, index) == Misses ==> |Flat(Last(t))| > 0 && forall h: nat :: !Sound(Cropped(t, e), h))
  }

  lemma EndFacts(t: Tree, h: nat, e: Ptr, index: int)
    requires Sound(t, h) && e != NULL && t.Fork? && |t.elems| <= 2
               && (AimOf(t, index) == Appends || AimOf(t, index) == Misses)
    ensures EndOf(t, e, index)
  {
    SoundHeight(t, h);
    assert (AimOf(t, index) == Appends ==> t.kids[0].Leaf?) && (AimOf(t, index) == Misses ==> t.kids[0].Fork?);
    hide Flat, Cropped, Sound, AimOf;
    CroppedFlat(t, e);
    if AimOf(t, index) == Appends {
      CroppedLeaf(t, e, h);
    } else {
      CroppedInner(t, e, h);
    }
  }

  lemma CroppedNodes(t: Tree, e: Ptr)
    requires t.Fork? && |t.kids| == |t.elems| + 1 && Distinct(t)
    ensures Distinct(Cropped(t, e)) && Nodes(Cropped(t, e)) <= Nodes(t)
  {
    var a, last := t.kids[..|t.elems|], Last(t);
    assert t.kids == a + [last] + [];
    Around(a, last, []);
    assert a + [Leaf, Leaf] == a + [Leaf, Leaf] + [];
    AroundPair(a, Leaf, Leaf, []);
  }

  /** An index one past the end of four elements misses, and the fourth element is lost. */
  lemma FourElements(t: Tree, h: nat, e: Ptr)
    requires Sound(t, h) && |Flat(t)| == 4 && e != NULL
    ensures t.Fork? && |t.kids| == |t.elems| + 1 && AimOf(t, 5) == Misses && |t.elems| == 1
    ensures 1 <= |Flat(Last(t))| <= 4 && Flat(Cropped(t, e)) == Flat(t)[..4 - |Flat(Last(t))|] + [e]
  {
    SoundHeight(t, h);
    if t.kids[0].Leaf? {
      LeafCount(t, h);
      assert false;
    }
    KidsCount(t, h);
    CroppedInner(t, e, h);
    CroppedFlat(t, e);
  }

  lemma KidsCount(t: Tree, h: nat)
    requires Sound(t, h) && t.Fork? && t.kids[0].Fork?
    ensures |Flat(t)| >= 2 * |t.elems| + 1
  {
    SoundKid(t, h, 0);
    KidsCountFrom(t.kids, t.elems, h - 1);
  }

  lemma {:induction false} KidsCountFrom(ts: seq<Tree>, es: seq<Ptr>, h: nat)
    requires AllSound(ts, h) && h > 0 && |ts| == |es| + 1
    ensures |Weave(ts, es)| >= 2 * |es| + 1
  {
    NotEmpty(ts[0], h);
    if es != [] {
      KidsCountFrom(ts[1..], es[1..], h);
    }
  }
}
