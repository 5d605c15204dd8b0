/** The intrusive circular lists of list.h. */
module CircularList {
  class ListHead {
    var next: ListHead?
    var prev: ListHead?

    /** Memory before `INIT_LIST_HEAD`. */
    constructor ()
    {
      next, prev := null, null;
    }
  }

  /** Each of `a` is followed by the one after it, in both directions. */
  ghost predicate Chain(a: seq<ListHead>)
    reads a
  {
    forall i | 0 < i < |a| :: a[i - 1].next == a[i] && a[i].prev == a[i - 1]
  }

  ghost predicate Distinct<T>(a: seq<T>) {
    forall i, j | 0 <= i < j < |a| :: a[i] != a[j]
  }

  /** The list with head `head` has the entries `s`. */
  ghost predicate Ring(head: ListHead, s: seq<ListHead>)
    reads head, s
  {
    Distinct([head] + s) && Chain([head] + s + [head])
  }

  /** A ring determines its entries. */
  lemma OneRing(head: ListHead, s: seq<ListHead>, t: seq<ListHead>)
    requires Ring(head, s) && Ring(head, t)
    ensures s == t
  {
    SamePrefix(head, s, t, if |s| < |t| then |s| else |t|);
    NotHead(head, s);
    NotHead(head, t);
  }

  lemma NotHead(head: ListHead, s: seq<ListHead>)
    requires Distinct([head] + s)
    ensures forall i | 0 <= i < |s| :: s[i] != head
  {
    forall i | 0 <= i < |s|
      ensures s[i] != head
    {
      assert ([head] + s)[0] == head && ([head] + s)[i + 1] == s[i];
    }
  }

  /** Following the links from the head gives the same entries. */
  lemma {:induction false} SamePrefix(head: ListHead, s: seq<ListHead>, t: seq<ListHead>, n: nat)
    requires Chain([head] + s + [head]) && Chain([head] + t + [head]) && n <= |s| && n <= |t|
    ensures s[..n] == t[..n]
    ensures n == |s| < |t| ==> t[n] == head
    ensures n == |t| < |s| ==> s[n] == head
  {
    var c, d := [head] + s + [head], [head] + t + [head];
    if n > 0 {
      SamePrefix(head, s, t, n - 1);
      assert n > 1 ==> s[..n - 1][n - 2] == t[..n - 1][n - 2];
      assert c[n - 1] == d[n - 1];
      assert c[n - 1].next == c[n] == s[n - 1] && d[n - 1].next == d[n] == t[n - 1];
    }
    assert c[n] == d[n] && c[n].next == c[n + 1] && d[n].next == d[n + 1];
  }

  // ---------- adding and removing ----------

  /** `INIT_LIST_HEAD`. */
  method InitListHead(list: ListHead)
    modifies list
    ensures Ring(list, [])
  {
    list.next := list;
    list.prev := list;
  }

  /** In a ring, two entries or the head and an entry are different; the head stands at both ends. */
  lemma Places(head: ListHead, s: seq<ListHead>, i: nat, j: nat)
    requires Ring(head, s) && i < j <= |s| + 1
    ensures ([head] + s + [head])[i] == ([head] + s + [head])[j] <==> i == 0 && j == |s| + 1
  {
    var c := [head] + s;
    assert c[i] == ([head] + s + [head])[i];
    if j <= |s| {
      assert c[j] == ([head] + s + [head])[j] && c[i] != c[j];
    } else if i > 0 {
      assert c[0] != c[i];
    }
  }

  /** `__list_add`: `new_` goes between `prev` and `next`, which follow each other at place `i`. */
  method Link(new_: ListHead, prev: ListHead, next: ListHead, ghost head: ListHead, ghost s: seq<ListHead>,
              ghost i: nat)
    requires Ring(head, s) && i <= |s| && new_ !in [head] + s
    requires prev == ([head] + s + [head])[i] && next == ([head] + s + [head])[i + 1]
    modifies new_, prev, next
    ensures Ring(head, s[..i] + [new_] + s[i..])
    ensures new_.next == next && new_.prev == prev
  {
    ghost var c, d := [head] + s + [head], [head] + (s[..i] + [new_] + s[i..]) + [head];
    LinkClear(new_, head, s, i);
    Spread(new_, head, s, i);
    next.prev := new_;
    new_.next := next;
    new_.prev := prev;
    prev.next := new_;
    forall j | 0 < j < |d|
      ensures d[j - 1].next == d[j] && d[j].prev == d[j - 1]
    {
      if j <= i {
        assert d[j] == c[j] && d[j - 1] == c[j - 1];
      } else if j > i + 2 {
        assert d[j] == c[j - 1] && d[j - 1] == c[j - 2];
      }
    }
  }

  /** What `__list_add` writes is not part of the other links. */
  lemma LinkClear(new_: ListHead, head: ListHead, s: seq<ListHead>, i: nat)
    requires Ring(head, s) && i <= |s| && new_ !in [head] + s
    ensures var c := [head] + s + [head];
            && (forall j | 0 <= j <= |s| && j != i :: c[j] != c[i])
            && (forall j | 0 < j < |c| && j != i + 1 :: c[j] != c[i + 1])
            && (forall j | 0 <= j < |c| :: c[j] != new_)
  {
    var c := [head] + s + [head];
    forall j | 0 <= j <= |s| && j != i
      ensures c[j] != c[i]
    {
      Places(head, s, if j < i then j else i, if j < i then i else j);
    }
    forall j | 0 < j < |c| && j != i + 1
      ensures c[j] != c[i + 1]
    {
      Places(head, s, if j < i + 1 then j else i + 1, if j < i + 1 then i + 1 else j);
    }
    forall j | 0 <= j < |c|
      ensures c[j] != new_
    {
      assert c[j] in [head] + s;
    }
  }

  lemma Spread(new_: ListHead, head: ListHead, s: seq<ListHead>, i: nat)
    requires Distinct([head] + s) && i <= |s| && new_ !in [head] + s
    ensures var c, d := [head] + s + [head], [head] + (s[..i] + [new_] + s[i..]) + [head];
            forall j | 0 <= j < |d| :: d[j] == if j <= i then c[j] else if j == i + 1 then new_ else c[j - 1]
    ensures Distinct([head] + (s[..i] + [new_] + s[i..]))
  {
    var c, d := [head] + s, [head] + (s[..i] + [new_] + s[i..]);
    assert forall j | 0 <= j < |c| :: c[j] in c;
    forall j, k | 0 <= j < k < |d|
      ensures d[j] != d[k]
    {
      assert d[j] == if j <= i then c[j] else if j == i + 1 then new_ else c[j - 1];
      assert d[k] == if k <= i then c[k] else if k == i + 1 then new_ else c[k - 1];
    }
  }

  /** `list_add`: behind `at`, the head or an entry. */
  method ListAdd(new_: ListHead, at: ListHead, ghost head: ListHead, ghost s: seq<ListHead>, ghost i: nat)
    requires Ring(head, s) && i <= |s| && at == ([head] + s)[i] && new_ !in [head] + s
    modifies new_, head, s
    ensures Ring(head, s[..i] + [new_] + s[i..])
  {
    ghost var c := [head] + s + [head];
    assert c[i] == at && c[i].next == c[i + 1];
    assert c[i] in [head] + s && c[i + 1] in [head] + s;
    Link(new_, at, at.next, head, s, i);
  }

  /** `list_add_tail`: before `at`, an entry or, to make it the last entry, the head. */
  method ListAddTail(new_: ListHead, at: ListHead, ghost head: ListHead, ghost s: seq<ListHead>, ghost i: nat)
    requires Ring(head, s) && i <= |s| && at == (s + [head])[i] && new_ !in [head] + s
    modifies new_, head, s
    ensures Ring(head, s[..i] + [new_] + s[i..])
  {
    ghost var c := [head] + s + [head];
    assert c[i + 1] == at && c[i + 1].prev == c[i];
    assert c[i] in [head] + s && c[i + 1] in [head] + s;
    Link(new_, at.prev, at, head, s, i);
  }

  /** `__list_del` at place `i`. */
  method Unlink(prev: ListHead, next: ListHead, ghost head: ListHead, ghost s: seq<ListHead>, ghost i: nat)
    requires Ring(head, s) && i < |s|
    requires prev == ([head] + s + [head])[i] && next == ([head] + s + [head])[i + 2]
    modifies prev, next
    ensures Ring(head, s[..i] + s[i + 1..])
    ensures s[i] != prev && s[i] != next ==> s[i].next == old(s[i].next) && s[i].prev == old(s[i].prev)
  {
    ghost var c, d := [head] + s + [head], [head] + (s[..i] + s[i + 1..]) + [head];
    UnlinkClear(head, s, i);
    next.prev := prev;
    prev.next := next;
    assert forall j | 0 <= j < |d| :: d[j] == if j <= i then c[j] else c[j + 1];
    forall j | 0 < j < |d|
      ensures d[j - 1].next == d[j] && d[j].prev == d[j - 1]
    {
      if j <= i {
        assert d[j] == c[j] && d[j - 1] == c[j - 1];
      } else if j > i + 1 {
        assert d[j] == c[j + 1] && d[j - 1] == c[j];
      }
    }
  }

  lemma UnlinkClear(head: ListHead, s: seq<ListHead>, i: nat)
    requires Ring(head, s) && i < |s|
    ensures var c := [head] + s + [head];
            && (forall j | 0 <= j <= |s| && j != i :: c[j] != c[i])
            && (forall j | 0 < j < |c| && j != i + 2 :: c[j] != c[i + 2])
    ensures Distinct([head] + (s[..i] + s[i + 1..]))
  {
    var c := [head] + s + [head];
    forall j | 0 <= j <= |s| && j != i
      ensures c[j] != c[i]
    {
      Places(head, s, if j < i then j else i, if j < i then i else j);
    }
    forall j | 0 < j < |c| && j != i + 2
      ensures c[j] != c[i + 2]
    {
      Places(head, s, if j < i + 2 then j else i + 2, if j < i + 2 then i + 2 else j);
    }
    var e, f := [head] + s, [head] + (s[..i] + s[i + 1..]);
    forall j, k | 0 <= j < k < |f|
      ensures f[j] != f[k]
    {
      assert f[j] == e[if j <= i then j else j + 1] && f[k] == e[if k <= i then k else k + 1];
    }
  }

  /** `list_del_init`; `list_del` differs in leaving poisoned links in `entry`. */
  method ListDelInit(entry: ListHead, ghost head: ListHead, ghost s: seq<ListHead>, ghost i: nat)
    requires Ring(head, s) && i < |s| && s[i] == entry
    modifies head, s
    ensures Ring(head, s[..i] + s[i + 1..]) && Ring(entry, [])
  {
    ghost var c, t := [head] + s + [head], s[..i] + s[i + 1..];
    assert c[i + 1] == entry && c[i].next == entry && c[i + 2].prev == entry && c[i + 1].prev == c[i]
      && c[i + 1].next == c[i + 2];
    assert c[i] in [head] + s && c[i + 2] in [head] + s;
    Unlink(entry.prev, entry.next, head, s, i);
    UnlinkedEntry(head, s, i);
    InitListHead(entry);
  }

  lemma UnlinkedEntry(head: ListHead, s: seq<ListHead>, i: nat)
    requires Distinct([head] + s) && i < |s|
    ensures s[i] !in [head] + (s[..i] + s[i + 1..])
  {
    var c, d := [head] + s, [head] + (s[..i] + s[i + 1..]);
    forall j | 0 <= j < |d|
      ensures d[j] != s[i]
    {
      assert d[j] == c[if j <= i then j else j + 1] && c[i + 1] == s[i];
    }
  }

  // ---------- cutting and joining ----------

  predicate ListEmpty(head: ListHead)
    reads head
  {
    head.next == head
  }

  predicate ListIsSingular(head: ListHead)
    reads head
  {
    !ListEmpty(head) && head.next == head.prev
  }

  lemma EmptyMeans(head: ListHead, s: seq<ListHead>)
    requires Ring(head, s)
    ensures ListEmpty(head) <==> s == []
    ensures ListIsSingular(head) <==> |s| == 1
  {
    var c := [head] + s + [head];
    assert c[0].next == c[1] && c[|s| + 1].prev == c[|s|];
    Places(head, s, 0, 1);
    if |s| > 1 {
      Places(head, s, 1, |s|);
    }
  }

  /** `__list_cut_position` after the first `k` entries. */
  method Cut(list: ListHead, head: ListHead, entry: ListHead, ghost s: seq<ListHead>, ghost k: nat)
    requires Ring(head, s) && 0 < k <= |s| && entry == s[k - 1] && list !in [head] + s
    modifies list, head, s
    ensures Ring(list, s[..k]) && Ring(head, s[k..])
  {
    ghost var c := [head] + s + [head];
    assert c[k] == entry && c[k].next == c[k + 1] && c[0].next == c[1];
    assert c[k + 1] in [head] + s && c[1] in [head] + s;
    CutClear(list, head, s, k);
    var newFirst := entry.next;
    list.next := head.next;
    list.next.prev := list;
    list.prev := entry;
    entry.next := list;
    head.next := newFirst;
    newFirst.prev := head;
    ghost var d, e := [list] + s[..k] + [list], [head] + s[k..] + [head];
    forall j | 0 < j < |d|
      ensures d[j - 1].next == d[j] && d[j].prev == d[j - 1]
    {
      if 1 < j <= k {
        assert d[j] == c[j] && d[j - 1] == c[j - 1];
      }
    }
    forall j | 0 < j < |e|
      ensures e[j - 1].next == e[j] && e[j].prev == e[j - 1]
    {
      if j > 1 {
        assert e[j] == c[k + j] && e[j - 1] == c[k + j - 1];
      }
    }
  }

  lemma CutClear(list: ListHead, head: ListHead, s: seq<ListHead>, k: nat)
    requires Ring(head, s) && 0 < k <= |s| && list !in [head] + s
    ensures var c := [head] + s + [head];
            && (forall j | 0 <= j <= |s| && j != k :: c[j] != c[k])
            && (forall j | 0 < j < |c| && j != k + 1 :: c[j] != c[k + 1])
            && (forall j | 1 < j < |c| :: c[j] != c[1])
            && (forall j | 0 < j <= |s| :: c[j] != head)
            && (forall j | 0 <= j < |c| :: c[j] != list)
    ensures Distinct([list] + s[..k]) && Distinct([head] + s[k..])
  {
    var c := [head] + s + [head];
    forall j | 0 <= j <= |s| && j != k
      ensures c[j] != c[k]
    {
      Places(head, s, if j < k then j else k, if j < k then k else j);
    }
    forall j | 0 < j < |c| && j != k + 1
      ensures c[j] != c[k + 1]
    {
      Places(head, s, if j < k + 1 then j else k + 1, if j < k + 1 then k + 1 else j);
    }
    forall j | 1 < j < |c|
      ensures c[j] != c[1]
    {
      Places(head, s, 1, j);
    }
    forall j | 0 < j <= |s|
      ensures c[j] != head
    {
      Places(head, s, 0, j);
    }
    forall j | 0 <= j < |c|
      ensures c[j] != list
    {
      assert c[j] in [head] + s;
    }
    CutDistinct(list, head, s, k);
  }

  lemma CutDistinct(list: ListHead, head: ListHead, s: seq<ListHead>, k: nat)
    requires Distinct([head] + s) && k <= |s| && list !in [head] + s
    ensures Distinct([list] + s[..k]) && Distinct([head] + s[k..])
  {
    var c, d, e := [head] + s, [list] + s[..k], [head] + s[k..];
    assert forall j | 0 <= j < |c| :: c[j] in c;
    forall i, j | 0 <= i < j < |d|
      ensures d[i] != d[j]
    {
      assert d[j] == c[j] && (i > 0 ==> d[i] == c[i]);
    }
    forall i, j | 0 <= i < j < |e|
      ensures e[i] != e[j]
    {
      assert e[j] == c[k + j] && e[i] == c[if i == 0 then 0 else k + i];
    }
  }

  /** `list_cut_position`: `entry` is the `k`-th entry, or the head for `k == 0`. An empty list
      is not cut, and `list` then not initialized. */
  method ListCutPosition(list: ListHead, head: ListHead, entry: ListHead, ghost s: seq<ListHead>, ghost k: nat)
    requires Ring(head, s) && k <= |s| && entry == ([head] + s)[k] && list !in [head] + s
    modifies list, head, s
    ensures s != [] ==> Ring(list, s[..k]) && Ring(head, s[k..])
    ensures s == [] ==> Ring(head, s) && list.next == old(list.next) && list.prev == old(list.prev)
  {
    EmptyMeans(head, s);
    ghost var c := [head] + s + [head];
    assert c[k] == entry && c[0].next == c[1];
    if ListEmpty(head) {
      return;
    }
    if ListIsSingular(head) && head.next != entry && head != entry {
      return;
    }
    if k > 0 {
      Places(head, s, 0, k);
    }
    if entry == head {
      InitListHead(list);
      assert s[..0] == [] && s[0..] == s;
    } else {
      Cut(list, head, entry, s, k);
    }
  }

  /** `__list_splice`: the entries `t` of `list` go between the neighbours at place `i`. */
  method Splice(list: ListHead, prev: ListHead, next: ListHead, ghost head: ListHead, ghost s: seq<ListHead>,
                ghost t: seq<ListHead>, ghost i: nat)
    requires Ring(list, t) && Ring(head, s) && t != [] && i <= |s|
    requires forall x | x in [list] + t :: x !in [head] + s
    requires prev == ([head] + s + [head])[i] && next == ([head] + s + [head])[i + 1]
    modifies t, prev, next
    ensures Ring(head, s[..i] + t + s[i..])
    ensures list.next == old(list.next) && list.prev == old(list.prev)
  {
    ghost var c, d, e := [head] + s + [head], [list] + t + [list], [head] + (s[..i] + t + s[i..]) + [head];
    assert d[0].next == d[1] == t[0] && d[|t| + 1].prev == d[|t|] == t[|t| - 1];
    SpliceClear(list, head, s, t, i);
    var first, last := list.next, list.prev;
    first.prev := prev;
    prev.next := first;
    last.next := next;
    next.prev := last;
    forall j | 0 < j < |e|
      ensures e[j - 1].next == e[j] && e[j].prev == e[j - 1]
    {
      if j <= i {
        assert e[j] == c[j] && e[j - 1] == c[j - 1];
      } else if i + 1 < j <= i + |t| {
        assert e[j] == d[j - i] && e[j - 1] == d[j - 1 - i];
      } else if j > i + |t| + 1 {
        assert e[j] == c[j - |t|] && e[j - 1] == c[j - 1 - |t|];
      } else {
        assert j == i + 1 ==> e[j] == first && e[j - 1] == prev;
        assert j == i + |t| + 1 ==> e[j] == next && e[j - 1] == last;
      }
    }
  }

  lemma SpliceClear(list: ListHead, head: ListHead, s: seq<ListHead>, t: seq<ListHead>, i: nat)
    requires Ring(list, t) && Ring(head, s) && t != [] && i <= |s|
    requires forall x | x in [list] + t :: x !in [head] + s
    ensures var c, d := [head] + s + [head], [list] + t + [list];
            && (forall j | 0 <= j <= |s| && j != i :: c[j] != c[i])
            && (forall j | 0 < j < |c| && j != i + 1 :: c[j] != c[i + 1])
            && (forall j | 1 < j < |d| :: d[j] != d[1])
            && (forall j | 0 <= j < |t| :: d[j] != d[|t|])
            && (forall j, k | 0 <= j < |c| && 0 <= k < |d| :: c[j] != d[k])
    ensures Distinct([head] + (s[..i] + t + s[i..]))
  {
    var c, d := [head] + s + [head], [list] + t + [list];
    forall j | 0 <= j <= |s| && j != i
      ensures c[j] != c[i]
    {
      Places(head, s, if j < i then j else i, if j < i then i else j);
    }
    forall j | 0 < j < |c| && j != i + 1
      ensures c[j] != c[i + 1]
    {
      Places(head, s, if j < i + 1 then j else i + 1, if j < i + 1 then i + 1 else j);
    }
    forall j | 1 < j < |d|
      ensures d[j] != d[1]
    {
      Places(list, t, 1, j);
    }
    forall j | 0 <= j < |t|
      ensures d[j] != d[|t|]
    {
      Places(list, t, j, |t|);
    }
    forall j, k | 0 <= j < |c| && 0 <= k < |d|
      ensures c[j] != d[k]
    {
      assert c[j] in [head] + s && d[k] in [list] + t;
    }
    SpliceDistinct(list, head, s, t, i);
  }

  lemma SpliceDistinct(list: ListHead, head: ListHead, s: seq<ListHead>, t: seq<ListHead>, i: nat)
    requires Distinct([list] + t) && Distinct([head] + s) && i <= |s|
    requires forall x | x in [list] + t :: x !in [head] + s
    ensures Distinct([head] + (s[..i] + t + s[i..]))
  {
    var c, d, e := [head] + s, [list] + t, [head] + (s[..i] + t + s[i..]);
    assert forall j | 0 <= j < |c| :: c[j] in c;
    assert forall j | 0 <= j < |d| :: d[j] in d;
    forall j, k | 0 <= j < k < |e|
      ensures e[j] != e[k]
    {
      assert e[j] == if j <= i then c[j] else if j <= i + |t| then d[j - i] else c[j - |t|];
      assert e[k] == if k <= i then c[k] else if k <= i + |t| then d[k - i] else c[k - |t|];
    }
  }

  /** `list_splice_init`: the entries of `list` in front of those of `head`. */
  method ListSpliceInit(list: ListHead, head: ListHead, ghost s: seq<ListHead>, ghost t: seq<ListHead>)
    requires Ring(list, t) && Ring(head, s) && forall x | x in [list] + t :: x !in [head] + s
    modifies list, head, s, t
    ensures Ring(head, t + s) && Ring(list, [])
  {
    EmptyMeans(list, t);
    if !ListEmpty(list) {
      ghost var c := [head] + s + [head];
      assert c[0].next == c[1] && c[1] in [head] + s;
      Splice(list, head, head.next, head, s, t, 0);
      assert s[..0] + t + s[0..] == t + s;
      SplicedApart(list, head, s, t, 0);
      InitListHead(list);
    } else {
      assert t + s == s;
    }
  }

  /** `list_splice_tail_init`: the entries of `list` behind those of `head`. */
  method ListSpliceTailInit(list: ListHead, head: ListHead, ghost s: seq<ListHead>, ghost t: seq<ListHead>)
    requires Ring(list, t) && Ring(head, s) && forall x | x in [list] + t :: x !in [head] + s
    modifies list, head, s, t
    ensures Ring(head, s + t) && Ring(list, [])
  {
    EmptyMeans(list, t);
    if !ListEmpty(list) {
      ghost var c := [head] + s + [head];
      assert c[|s| + 1].prev == c[|s|] && c[|s|] in [head] + s;
      Splice(list, head.prev, head, head, s, t, |s|);
      assert s[..|s|] + t + s[|s|..] == s + t;
      SplicedApart(list, head, s, t, |s|);
      InitListHead(list);
    } else {
      assert s + t == s;
    }
  }

  lemma SplicedApart(list: ListHead, head: ListHead, s: seq<ListHead>, t: seq<ListHead>, i: nat)
    requires Distinct([list] + t) && list !in [head] + s && i <= |s|
    ensures list !in [head] + (s[..i] + t + s[i..])
  {
    NotHead(list, t);
    forall x | x in [head] + (s[..i] + t + s[i..])
      ensures x in [head] + s || x in t
    {
    }
  }

  /** Splicing back what has been cut off restores the list. */
  method CutThenSplice(list: ListHead, head: ListHead, entry: ListHead, ghost s: seq<ListHead>, ghost k: nat)
    requires Ring(head, s) && s != [] && k <= |s| && entry == ([head] + s)[k] && list !in [head] + s
    modifies list, head, s
    ensures Ring(head, s) && Ring(list, [])
    ensures forall x | x in [head] + s :: x.next == old(x.next) && x.prev == old(x.prev)
  {
    CutApart(list, head, s, k);
    ListCutPosition(list, head, entry, s, k);
    ListSpliceInit(list, head, s[k..], s[..k]);
    assert s[..k] + s[k..] == s;
    ghost var c := [head] + s + [head];
    forall x | x in [head] + s
      ensures x.next == old(x.next) && x.prev == old(x.prev)
    {
      var j :| 0 <= j <= |s| && ([head] + s)[j] == x;
      assert c[j] == x && c[j].next == c[j + 1] && c[j + 1].prev == c[j];
      assert old(c[j].next) == c[j + 1];
      if j > 0 {
        assert c[j].prev == c[j - 1] && old(c[j].prev) == c[j - 1];
      } else {
        assert c[|s| + 1].prev == c[|s|] && old(c[|s| + 1].prev) == c[|s|];
      }
    }
  }

  lemma CutApart(list: ListHead, head: ListHead, s: seq<ListHead>, k: nat)
    requires Distinct([head] + s) && k <= |s| && list !in [head] + s
    ensures forall x | x in [list] + s[..k] :: x !in [head] + s[k..]
  {
    var c := [head] + s;
    forall x | x in [list] + s[..k]
      ensures x !in [head] + s[k..]
    {
      if x != list {
        var j :| 0 <= j < k && s[j] == x;
        forall y | y in [head] + s[k..]
          ensures y != x
        {
          var i :| 0 <= i <= |s| - k && ([head] + s[k..])[i] == y;
          assert c[j + 1] == x && y == c[if i == 0 then 0 else k + i];
        }
      }
    }
  }
}
