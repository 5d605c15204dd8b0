/** The memory map of phy_meminfo_parser.c on the heap: a red-black tree of kinds of memory,
    each with a circular list of its ranges. */
module MemoryMap {
  import opened RbShape
  import opened RbTree
  import CircularList
  import Sequences
  import opened MemoryTable

  type ListHead = CircularList.ListHead

  /** `phy_mem_map_node_range_t`. */
  class Range {
    const n: ListHead
    const start: int
    const end: int

    constructor (start: int, end: int)
      ensures this.start == start && this.end == end && fresh(n)
    {
      this.start, this.end := start, end;
      n := new CircularList.ListHead();
    }
  }

  /** `phy_mem_map_node_t`. */
  class MapNode {
    const rb: Node
    const lst: ListHead
    const name: string
    var size: int
    /** The ranges in the order of the list. */
    ghost var entries: seq<Range>

    constructor (name: string)
      ensures this.name == name && size == 0 && entries == [] && fresh(rb) && fresh(lst)
      ensures CircularList.Ring(lst, [])
    {
      this.name, size, entries := name, 0, [];
      rb := new Node();
      lst := new CircularList.ListHead();
      new;
      CircularList.InitListHead(lst);
    }
  }

  ghost function Heads(rs: seq<Range>): seq<ListHead> {
    seq(|rs|, i requires 0 <= i < |rs| => rs[i].n)
  }

  ghost function Spans(rs: seq<Range>): seq<Span> {
    seq(|rs|, i requires 0 <= i < |rs| => Span(rs[i].start, rs[i].end))
  }

  lemma {:induction false} MembersOf(t: Tree)
    ensures forall n | n in InOrder(t) :: n in Nodes(t)
  {
    if t.Fork? {
      MembersOf(t.left);
      MembersOf(t.right);
    }
  }

  lemma RoomMade(rs: seq<Range>, range: Range, i: nat)
    requires i == Slot(Spans(rs), range.start)
    ensures i <= |rs|
    ensures Heads(rs[..i] + [range] + rs[i..]) == Heads(rs)[..i] + [range.n] + Heads(rs)[i..]
    ensures Spans(rs[..i] + [range] + rs[i..]) == Inserted(Spans(rs), Span(range.start, range.end))
  {
  }

  class MemMap {
    const root: RbRoot
    /** `rb_entry` and `list_entry`: from the embedded member to its structure. */
    var nodes: map<Node, MapNode>
    var ranges: map<ListHead, Range>
    ghost var heads: set<ListHead>

    constructor ()
      ensures Valid() && Table() == [] && fresh(root)
      ensures root.linked == {} && heads == {} && nodes == map[]
    {
      root := new RbRoot();
      nodes, ranges, heads := map[], map[], {};
    }

    ghost function OwnHeads(m: MapNode): set<ListHead>
      reads m`entries
    {
      {m.lst} + set r | r in m.entries :: r.n
    }

    /** `list_entry` works on the list of `m`. */
    ghost predicate Known(m: MapNode)
      reads m`entries, `ranges, `heads
    {
      OwnHeads(m) <= heads && forall r | r in m.entries :: r.n in ranges && ranges[r.n] == r
    }

    /** The nodes `linked` have lists of their own. */
    ghost predicate Catalogued(linked: set<Node>)
      reads `nodes, `ranges, `heads, nodes.Values
    {
      && (forall n | n in linked :: n in nodes && nodes[n].rb == n && Known(nodes[n]))
      && (forall n, m | n in linked && m in linked && n != m :: OwnHeads(nodes[n]) !! OwnHeads(nodes[m]))
    }

    ghost predicate Indexed(linked: set<Node>)
      reads `nodes, `ranges, `heads, nodes.Values, heads
    {
      Catalogued(linked) && forall n | n in linked :: CircularList.Ring(nodes[n].lst, Heads(nodes[n].entries))
    }

    ghost predicate Valid()
      reads this, root, root.linked, nodes.Values, heads
    {
      root.Valid() && Indexed(root.linked) && ByName(Table())
    }

    ghost function EntryOf(n: Node): Entry
      reads `nodes, nodes.Values
    {
      if n in nodes then Entry(nodes[n].name, Spans(nodes[n].entries), nodes[n].size) else Entry("", [], 0)
    }

    /** What the map holds, in the order of the tree. */
    ghost function Table(): seq<Entry>
      reads this, root, nodes.Values
    {
      seq(|root.Contents()|, i requires 0 <= i < |root.Contents()| reads this, root, nodes.Values =>
        EntryOf(root.Contents()[i]))
    }

    /** The search stands at `n`, the root of `t`; `name` belongs there if anywhere. */
    ghost predicate Seeking(name: string, p: Path, t: Tree, n: Node?, parent: Node?, left: bool)
      reads this, root, root.linked, nodes.Values
    {
      && root.Focus(p, t) && Plug(p, t) == root.shape && Whole(p, t) == root.Contents() && n == Root(t)
      && Owner(p) == parent && (p.InLeft? ==> left) && (p.InRight? ==> !left)
      && Between(Table(), name, |Before(p)|, |Before(p)| + |InOrder(t)|)
    }

    /** phy_meminfo_parser.c:78-91: the node of that name, or the place where it belongs. */
    method FindNode(name: string) returns (found: MapNode?, parent: Node?, left: bool, ghost p: Path, ghost t: Tree)
      requires Valid()
      ensures found != null ==>
                && Seeking(name, p, t, found.rb, parent, left) && found.rb in root.linked && found.rb in nodes
                   && nodes[found.rb] == found
                && Has(Table(), name) && Place(Table(), name) == |Before(p)| + |InOrder(t.left)|
      ensures found == null ==>
                && Seeking(name, p, Leaf, null, parent, left) && !Has(Table(), name)
                && Place(Table(), name) == |Before(p)|
    {
      hide *;
      SeekRoot(name);
      p, t := Top, root.shape;
      parent, left := null, false;
      var n := root.node;
      while n != null
        invariant Seeking(name, p, t, n, parent, left)
        decreases t
      {
        SeekNode(name, p, t, n, parent, left);
        var node := nodes[n];
        var ret := StrCmp(name, node.name);
        if ret == 0 {
          return node, parent, left, p, t;
        }
        left := ret < 0;
        parent := n;
        if left {
          p, t, n := InLeft(p, t.node, t.red, t.right), t.left, n.left;
        } else {
          p, t, n := InRight(p, t.left, t.node, t.red), t.right, n.right;
        }
      }
      SeekLeaf(name, p, t, parent, left);
      return null, parent, left, p, t;
    }

    lemma SeekRoot(name: string)
      requires Valid()
      ensures Seeking(name, Top, root.shape, root.node, null, false)
    {
    }

    lemma SeekLeaf(name: string, p: Path, t: Tree, parent: Node?, left: bool)
      requires Valid() && Seeking(name, p, t, null, parent, left)
      ensures t == Leaf && !Has(Table(), name) && Place(Table(), name) == |Before(p)|
    {
      PlaceIs(Table(), name, |Before(p)|);
      StrCmpZero(name, name);
    }

    lemma SeekNode(name: string, p: Path, t: Tree, n: Node, parent: Node?, left: bool)
      requires Valid() && Seeking(name, p, t, n, parent, left)
      ensures t.Fork? && t.node == n && n in root.linked && n in nodes && nodes[n].rb == n
      ensures var ret := StrCmp(name, nodes[n].name);
              && (ret == 0 ==> Has(Table(), name) && Place(Table(), name) == |Before(p)| + |InOrder(t.left)|)
              && (ret < 0 ==> Seeking(name, InLeft(p, n, t.red, t.right), t.left, n.left, n, true))
              && (ret > 0 ==> Seeking(name, InRight(p, t.left, n, t.red), t.right, n.right, n, false))
    {
      hide *;
      SeekParts(name, p, t, n, parent, left);
      var table, k := Table(), |Before(p)| + |InOrder(t.left)|;
      Narrow(table, name, |Before(p)|, k, |Before(p)| + |InOrder(t)|);
      StrCmpZero(name, nodes[n].name);
      if StrCmp(name, nodes[n].name) == 0 {
        NotAfter(table, name, k);
        PlaceIs(table, name, k);
        HasAt(table, name, k);
      } else if StrCmp(name, nodes[n].name) < 0 {
        SeekLeft(name, p, t, parent, left);
      } else {
        SeekRight(name, p, t, parent, left);
      }
    }

    lemma SeekParts(name: string, p: Path, t: Tree, n: Node, parent: Node?, left: bool)
      requires Valid() && Seeking(name, p, t, n, parent, left)
      ensures t.Fork? && t.node == n && n in root.linked && n in nodes && nodes[n].rb == n
      ensures |InOrder(t)| == |InOrder(t.left)| + 1 + |InOrder(t.right)|
      ensures var table, k := Table(), |Before(p)| + |InOrder(t.left)|;
              && k < |table| && table[k].name == nodes[n].name && ByName(table)
              && Between(table, name, |Before(p)|, |Before(p)| + |InOrder(t)|)
    {
      assert Whole(p, t)[|Before(p)| + |InOrder(t.left)|] == n;
    }

    lemma SeekLeft(name: string, p: Path, t: Tree, parent: Node?, left: bool)
      requires t.Fork? && Seeking(name, p, t, t.node, parent, left)
      requires Between(Table(), name, |Before(p)|, |Before(p)| + |InOrder(t.left)|)
      ensures Seeking(name, InLeft(p, t.node, t.red, t.right), t.left, t.node.left, t.node, true)
    {
      hide *;
      var q := InLeft(p, t.node, t.red, t.right);
      SeekFields(name, p, t, parent, left);
      root.DownLeft(p, t);
      LeftFields(p, t, q);
      SeekingIs(name, q, t.left, t.node.left, t.node, true);
    }

    lemma SeekRight(name: string, p: Path, t: Tree, parent: Node?, left: bool)
      requires t.Fork? && Seeking(name, p, t, t.node, parent, left)
      requires Between(Table(), name, |Before(p)| + |InOrder(t.left)| + 1, |Before(p)| + |InOrder(t)|)
      ensures Seeking(name, InRight(p, t.left, t.node, t.red), t.right, t.node.right, t.node, false)
    {
      hide *;
      var q := InRight(p, t.left, t.node, t.red);
      SeekFields(name, p, t, parent, left);
      root.DownRight(p, t);
      RightFields(p, t, q);
      assert |Before(p)| + |InOrder(t)| == |Before(q)| + |InOrder(t.right)|;
      SeekingIs(name, q, t.right, t.node.right, t.node, false);
    }

    lemma SeekFields(name: string, p: Path, t: Tree, parent: Node?, left: bool)
      requires t.Fork? && Seeking(name, p, t, t.node, parent, left)
      ensures root.Focus(p, t) && Plug(p, t) == root.shape && Whole(p, t) == root.Contents()
      ensures t.node.left == Root(t.left) && t.node.right == Root(t.right)
    {
    }

    lemma LeftFields(p: Path, t: Tree, q: Path)
      requires t.Fork? && q == InLeft(p, t.node, t.red, t.right)
      ensures Before(q) == Before(p) && Plug(q, t.left) == Plug(p, t) && Owner(q) == t.node
    {
    }

    lemma RightFields(p: Path, t: Tree, q: Path)
      requires t.Fork? && q == InRight(p, t.left, t.node, t.red)
      ensures |Before(q)| == |Before(p)| + |InOrder(t.left)| + 1 && Plug(q, t.right) == Plug(p, t) && Owner(q) == t.node
      ensures |InOrder(t)| == |InOrder(t.left)| + 1 + |InOrder(t.right)|
    {
    }

    lemma SeekingIs(name: string, p: Path, t: Tree, n: Node?, parent: Node, left: bool)
      requires root.Focus(p, t) && Plug(p, t) == root.shape && Whole(p, t) == root.Contents() && n == Root(t)
      requires Owner(p) == parent && (p.InLeft? ==> left) && (p.InRight? ==> !left)
      requires Between(Table(), name, |Before(p)|, |Before(p)| + |InOrder(t)|)
      ensures Seeking(name, p, t, n, parent, left)
    {
    }

    /** phy_meminfo_parser.c:93-102: a new node without ranges, where the search has ended. */
    method AddNode(name: string, parent: Node?, left: bool, ghost p: Path) returns (node: MapNode)
      requires Valid() && Seeking(name, p, Leaf, null, parent, left) && !Has(Table(), name)
                 && Place(Table(), name) == |Before(p)|
      modifies this`nodes, this`heads, root, root.linked
      ensures Valid() && fresh(root.linked - old(root.linked)) && fresh(heads - old(heads))
                && fresh(nodes.Values - old(nodes.Values))
      ensures Table() == WithName(old(Table()), name)
      ensures node.rb in nodes && nodes[node.rb] == node && |Before(p)| < |root.Contents()|
                && root.Contents()[|Before(p)|] == node.rb
    {
      hide *;
      SeekEnd(name, p, parent, left);
      ghost var before := Table();
      TableEntries();
      WithNameOrdered(before, name);
      node := LinkNewNode(name, parent, left, p);
      Lengthened(before, name, Before(p), node.rb, After(p));
      AllValid();
    }

    /** The table, entry by entry. */
    lemma TableEntries()
      requires root.Valid()
      ensures |Table()| == |root.Contents()|
                && forall i | 0 <= i < |Table()| :: Table()[i] == EntryOf(root.Contents()[i])
      ensures forall n | n in root.Contents() :: n in root.linked
    {
      MembersOf(root.shape);
    }

    lemma AllValid()
      requires root.Valid() && Indexed(root.linked) && ByName(Table())
      ensures Valid()
    {
    }

    /** The table with one more node. */
    lemma Lengthened(before: seq<Entry>, name: string, a: seq<Node>, n: Node, b: seq<Node>)
      requires root.Valid() && root.Contents() == a + [n] + b && EntryOf(n) == Entry(name, [], 0)
      requires |before| == |a| + |b| && forall i | 0 <= i < |before| :: before[i] == EntryOf((a + b)[i])
      requires ByName(before) && !Has(before, name) && Place(before, name) == |a|
      ensures Table() == WithName(before, name)
    {
      hide *;
      TableEntries();
      NewEntry(before, name);
      var i, e, t := |a|, Entry(name, [], 0), Table();
      forall j | 0 <= j < |t|
        ensures t[j] == (before[..i] + [e] + before[i..])[j]
      {
        Sequences.Between(a, n, b, j);
        Sequences.Between(before[..i], e, before[i..], j);
      }
      assert t == before[..i] + [e] + before[i..];
    }

    lemma NewEntry(table: seq<Entry>, name: string)
      requires !Has(table, name)
      ensures var i := Place(table, name);
              i <= |table| && WithName(table, name) == table[..i] + [Entry(name, [], 0)] + table[i..]
    {
    }

    method LinkNewNode(name: string, parent: Node?, left: bool, ghost p: Path) returns (node: MapNode)
      requires Valid() && Seeking(name, p, Leaf, null, parent, left)
      modifies this`nodes, this`heads, root, root.linked
      ensures root.Valid() && Indexed(root.linked) && root.linked == old(root.linked) + {node.rb}
      ensures fresh(node.rb) && fresh(node) && heads == old(heads) + {node.lst} && fresh(node.lst)
      ensures root.Contents() == Before(p) + [node.rb] + After(p) && old(root.Contents()) == Before(p) + After(p)
      ensures node.name == name && nodes == old(nodes)[node.rb := node] && EntryOf(node.rb) == Entry(name, [], 0)
      ensures forall n | n in old(root.linked) :: EntryOf(n) == old(EntryOf(n))
    {
      hide *;
      SeekEnd(name, p, parent, left);
      node := new MapNode(name);
      ghost var linked := root.linked;
      root.Insert(node.rb, parent, left, p);
      Register(node, linked);
    }

    lemma SeekEnd(name: string, p: Path, parent: Node?, left: bool)
      requires Valid() && Seeking(name, p, Leaf, null, parent, left)
      ensures root.Valid() && Indexed(root.linked) && ByName(Table())
      ensures Plug(p, Leaf) == root.shape && Owner(p) == parent && (p.InLeft? ==> left) && (p.InRight? ==> !left)
      ensures root.Contents() == Before(p) + After(p)
    {
    }

    /** What `rb_entry` knows of a new node. */
    method Register(node: MapNode, ghost linked: set<Node>)
      requires Indexed(linked) && node.rb !in nodes && node.rb !in linked && node.lst !in heads
      requires node.entries == [] && CircularList.Ring(node.lst, [])
      modifies this`nodes, this`heads
      ensures Indexed(linked + {node.rb}) && EntryOf(node.rb) == Entry(node.name, [], node.size)
      ensures nodes == old(nodes)[node.rb := node] && heads == old(heads) + {node.lst}
      ensures forall n | n in linked :: EntryOf(n) == old(EntryOf(n))
    {
      nodes := nodes[node.rb := node];
      heads := heads + {node.lst};
      assert Heads(node.entries) == [];
    }

    /** phy_meminfo_parser.c:108-114: the first range that starts after `start`, or the head. */
    method FindSlot(m: MapNode, start: int) returns (prev: ListHead, ghost i: nat)
      requires Known(m) && CircularList.Ring(m.lst, Heads(m.entries))
      ensures i == Slot(Spans(m.entries), start) && i <= |Heads(m.entries)| && prev == (Heads(m.entries) + [m.lst])[i]
    {
      ghost var hs, spans := Heads(m.entries), Spans(m.entries);
      ghost var c := [m.lst] + hs + [m.lst];
      prev := m.lst;
      i := 0;
      assert c[0].next == c[1];
      var pos := m.lst.next;
      while pos != m.lst
        invariant i <= |hs| && pos == c[i + 1] && (i < |hs| ==> pos != m.lst)
        invariant forall j | 0 <= j < i :: spans[j].start <= start
        decreases |hs| - i
      {
        var tmp := ranges[pos];
        if tmp.start > start {
          SlotIs(spans, start, i);
          return tmp.n, i;
        }
        assert c[i + 1].next == c[i + 2];
        pos := pos.next;
        i := i + 1;
        if i < |hs| {
          CircularList.Places(m.lst, hs, 0, i + 1);
        }
      }
      SlotIs(spans, start, i);
    }

    /** phy_meminfo_parser.c:103-119, for the `k`-th node. */
    method AddRange(m: MapNode, start: int, end: int, ghost k: nat)
      requires Valid() && k < |root.Contents()| && root.Contents()[k] == m.rb && m.rb in nodes && nodes[m.rb] == m
      modifies this`ranges, this`heads, heads, m
      ensures Valid() && fresh(heads - old(heads))
      ensures Table() == old(Table()[k := Extended(Table()[k], Span(start, end))])
    {
      hide *;
      AllParts();
      TableEntries();
      ghost var before, contents := Table(), root.Contents();
      OnlyAt(k);
      PutRange(m, start, end, root.linked);
      TableEntries();
      Replaced(before, k, Span(start, end));
      assert Table() == before[k := Extended(before[k], Span(start, end))];
      AllValid();
    }

    lemma AllParts()
      requires Valid()
      ensures root.Valid() && Indexed(root.linked) && ByName(Table())
    {
    }

    /** A node stands in one place of the tree only. */
    lemma OnlyAt(k: nat)
      requires Valid() && k < |root.Contents()|
      ensures forall j | 0 <= j < |root.Contents()| && j != k :: root.Contents()[j] != root.Contents()[k]
    {
      forall j | 0 <= j < |root.Contents()| && j != k
        ensures root.Contents()[j] != root.Contents()[k]
      {
        StrCmpZero(Table()[j].name, Table()[k].name);
        assert StrCmp(Table()[if j < k then j else k].name, Table()[if j < k then k else j].name) < 0;
      }
    }

    method PutRange(m: MapNode, start: int, end: int, ghost linked: set<Node>)
      requires Indexed(linked) && m.rb in linked && m.rb in nodes && nodes[m.rb] == m
      modifies this`ranges, this`heads, heads, m
      ensures Indexed(linked) && fresh(heads - old(heads))
      ensures EntryOf(m.rb) == Extended(old(EntryOf(m.rb)), Span(start, end))
      ensures forall n | n in linked && n != m.rb :: EntryOf(n) == old(EntryOf(n))
    {
      hide Catalogued, Known, OwnHeads, Slot, Inserted, Extended, EntryOf, Indexed, CircularList.Ring;
      var range;
      ghost var i;
      range, i := LinkRange(m, start, end, linked);
      Enter(m, range, i, linked);
      AllIndexed(linked, m);
    }

    /** phy_meminfo_parser.c:104-116. */
    method LinkRange(m: MapNode, start: int, end: int, ghost linked: set<Node>) returns (range: Range, ghost i: nat)
      requires Indexed(linked) && m.rb in linked && m.rb in nodes && nodes[m.rb] == m
      modifies heads
      ensures fresh(range.n) && range.start == start && range.end == end && Catalogued(linked)
      ensures i == Slot(Spans(m.entries), start) && i <= |Heads(m.entries)|
      ensures var hs := Heads(m.entries); CircularList.Ring(m.lst, hs[..i] + [range.n] + hs[i..])
      ensures forall n | n in linked && n != m.rb :: CircularList.Ring(nodes[n].lst, Heads(nodes[n].entries))
    {
      hide *;
      range := new Range(start, end);
      IndexedAt(linked, m.rb);
      var prev;
      prev, i := FindSlot(m, start);
      AddToRing(m, range, prev, i, linked);
    }

    lemma AllIndexed(linked: set<Node>, m: MapNode)
      requires Catalogued(linked) && m.rb in nodes && nodes[m.rb] == m && CircularList.Ring(m.lst, Heads(m.entries))
      requires forall n | n in linked && n in nodes && n != m.rb ::
                 CircularList.Ring(nodes[n].lst, Heads(nodes[n].entries))
      ensures Indexed(linked)
    {
    }

    lemma IndexedAt(linked: set<Node>, n: Node)
      requires Indexed(linked) && n in linked
      ensures n in nodes && Known(nodes[n]) && CircularList.Ring(nodes[n].lst, Heads(nodes[n].entries))
      ensures |Heads(nodes[n].entries)| == |nodes[n].entries| && Catalogued(linked)
      ensures EntryOf(n) == Entry(nodes[n].name, Spans(nodes[n].entries), nodes[n].size)
    {
    }

    /** `list_add_tail` leaves the other lists alone. */
    method AddToRing(m: MapNode, range: Range, prev: ListHead, ghost i: nat, ghost linked: set<Node>)
      requires Indexed(linked) && m.rb in linked && m.rb in nodes && nodes[m.rb] == m && range.n !in heads
      requires i <= |Heads(m.entries)| && prev == (Heads(m.entries) + [m.lst])[i]
      modifies heads, range.n
      ensures var hs := Heads(m.entries); CircularList.Ring(m.lst, hs[..i] + [range.n] + hs[i..])
      ensures forall n | n in linked && n != m.rb :: CircularList.Ring(nodes[n].lst, Heads(nodes[n].entries))
    {
      ghost var hs := Heads(m.entries);
      HeadsOwn(m);
      forall n | n in linked && n != m.rb
        ensures forall h | h in [nodes[n].lst] + Heads(nodes[n].entries) :: h !in [range.n, m.lst] + hs
      {
        HeadsOwn(nodes[n]);
      }
      CircularList.ListAddTail(range.n, prev, m.lst, hs, i);
      forall n | n in linked && n != m.rb
        ensures CircularList.Ring(nodes[n].lst, Heads(nodes[n].entries))
      {
        var members := [nodes[n].lst] + Heads(nodes[n].entries);
        var c := members + [nodes[n].lst];
        assert old(CircularList.Ring(nodes[n].lst, Heads(nodes[n].entries)));
        assert forall j | 0 <= j < |c| :: c[j] in members;
        assert forall j | 0 <= j < |c| :: c[j].next == old(c[j].next) && c[j].prev == old(c[j].prev);
      }
    }

    lemma HeadsOwn(m: MapNode)
      ensures forall h | h in [m.lst] + Heads(m.entries) :: h in OwnHeads(m)
    {
      assert forall i | 0 <= i < |m.entries| :: Heads(m.entries)[i] == m.entries[i].n;
    }

    /** phy_meminfo_parser.c:117-119, and what `list_entry` knows of the new range. */
    method Enter(m: MapNode, range: Range, ghost i: nat, ghost linked: set<Node>)
      requires Catalogued(linked) && m.rb in linked && nodes[m.rb] == m && range.n !in heads
      requires i == Slot(Spans(m.entries), range.start)
      modifies this`ranges, this`heads, m
      ensures Catalogued(linked) && heads == old(heads) + {range.n}
      ensures Heads(m.entries) == old(Heads(m.entries)[..i] + [range.n] + Heads(m.entries)[i..])
      ensures EntryOf(m.rb) == Extended(old(EntryOf(m.rb)), Span(range.start, range.end))
      ensures forall n | n in linked && n != m.rb :: EntryOf(n) == old(EntryOf(n))
      ensures nodes == old(nodes)
      ensures forall n | n in linked && n != m.rb :: n in nodes && nodes[n].entries == old(nodes[n].entries)
    {
      hide *;
      RoomMade(m.entries, range, i);
      ghost var rs := m.entries;
      CatalogAt(linked, m);
      Enlist(m, range, i, linked);
      GrowSize(m, range, linked);
      CatalogAt(linked, m);
      ExtendedIs(m.name, rs, m.entries, range, old(m.size));
    }

    lemma CatalogAt(linked: set<Node>, m: MapNode)
      requires Catalogued(linked) && m.rb in linked
      ensures m.rb in nodes && (nodes[m.rb] == m ==> EntryOf(m.rb) == Entry(m.name, Spans(m.entries), m.size))
      ensures |Heads(m.entries)| == |m.entries| == |Spans(m.entries)|
      ensures forall n | n in linked && n != m.rb :: n in nodes && nodes[n] != m
    {
    }

    lemma ExtendedIs(name: string, rs: seq<Range>, rs': seq<Range>, range: Range, size: int)
      requires Spans(rs') == Inserted(Spans(rs), Span(range.start, range.end))
      ensures Entry(name, Spans(rs'), (size + (range.end - range.start) + 1) % WORD)
           == Extended(Entry(name, Spans(rs), size), Span(range.start, range.end))
    {
      hide Spans, Inserted;
    }

    method GrowSize(m: MapNode, range: Range, ghost linked: set<Node>)
      requires Catalogued(linked) && m.rb in linked && nodes[m.rb] == m
      modifies m`size
      ensures Catalogued(linked) && m.size == (old(m.size) + (range.end - range.start) + 1) % WORD
      ensures forall n | n in linked && n != m.rb :: EntryOf(n) == old(EntryOf(n))
    {
      m.size := (m.size + (range.end - range.start) + 1) % WORD;
    }

    method Enlist(m: MapNode, range: Range, ghost i: nat, ghost linked: set<Node>)
      requires Catalogued(linked) && m.rb in linked && nodes[m.rb] == m && range.n !in heads && i <= |m.entries|
      modifies this`ranges, this`heads, m`entries
      ensures Catalogued(linked) && heads == old(heads) + {range.n}
      ensures m.entries == old(m.entries[..i] + [range] + m.entries[i..])
      ensures forall n | n in linked && n != m.rb :: EntryOf(n) == old(EntryOf(n))
    {
      hide *;
      Announce(range, linked);
      SetEntries(m, range, i, linked);
    }

    method Announce(range: Range, ghost linked: set<Node>)
      requires Catalogued(linked) && range.n !in heads
      modifies this`ranges, this`heads
      ensures Catalogued(linked) && heads == old(heads) + {range.n}
      ensures range.n in ranges && ranges[range.n] == range
      ensures forall n | n in linked :: n in nodes && range.n !in OwnHeads(nodes[n])
      ensures forall n | n in linked :: EntryOf(n) == old(EntryOf(n))
    {
      hide Spans;
      ranges := ranges[range.n := range];
      heads := heads + {range.n};
    }

    ghost method SetEntries(m: MapNode, range: Range, i: nat, linked: set<Node>)
      requires Catalogued(linked) && m.rb in linked && nodes[m.rb] == m && i <= |m.entries|
      requires range.n in heads && range.n in ranges && ranges[range.n] == range
      requires forall n | n in linked :: n in nodes && range.n !in OwnHeads(nodes[n])
      modifies m`entries
      ensures Catalogued(linked) && m.entries == old(m.entries[..i] + [range] + m.entries[i..])
      ensures forall n | n in linked && n != m.rb :: EntryOf(n) == old(EntryOf(n))
    {
      hide Spans;
      ghost var rs, own := m.entries, OwnHeads(m);
      m.entries := rs[..i] + [range] + rs[i..];
      assert forall r | r in m.entries :: r in rs || r == range;
      assert OwnHeads(m) == own + {range.n};
    }

    /** `add_mem_map`; whether the two allocations succeed is an input. */
    method AddMemMap(name: string, start: int, end: int, nodeFits: bool, rangeFits: bool) returns (ok: bool)
      requires Valid()
      modifies this, root, root.linked, heads, nodes.Values
      ensures Valid()
      ensures fresh(root.linked - old(root.linked)) && fresh(heads - old(heads))
                && fresh(nodes.Values - old(nodes.Values))
      ensures ok <==> rangeFits && (nodeFits || Has(old(Table()), name))
      ensures ok ==> Table() == Added(old(Table()), name, Span(start, end))
      ensures !ok ==> Table() == if nodeFits then WithName(old(Table()), name) else old(Table())
    {
      hide *;
      AllParts();
      WithNameAgain(Table(), name);
      ghost var k := Place(Table(), name);
      var node := NodeFor(name, nodeFits, k);
      if node == null || !rangeFits {
        return false;
      }
      AddRange(node, start, end, k);
      ok := true;
    }

    /** phy_meminfo_parser.c:78-102: the node of that name, a new one if need be. */
    method NodeFor(name: string, nodeFits: bool, ghost k: nat) returns (node: MapNode?)
      requires Valid() && k == Place(Table(), name)
      modifies this`nodes, this`heads, root, root.linked
      ensures Valid() && fresh(root.linked - old(root.linked)) && fresh(heads - old(heads))
                && fresh(nodes.Values - old(nodes.Values))
      ensures node != null <==> nodeFits || Has(old(Table()), name)
      ensures Table() == if node != null then WithName(old(Table()), name) else old(Table())
      ensures node != null ==>
                && node.rb in nodes && nodes[node.rb] == node
                && k < |root.Contents()| && root.Contents()[k] == node.rb
    {
      hide *;
      AllParts();
      WithNameAgain(Table(), name);
      var parent, left;
      ghost var p, t;
      node, parent, left, p, t := FindNode(name);
      if node != null {
        FoundAt(name, p, t, node.rb, parent, left);
      } else if nodeFits {
        node := AddNode(name, parent, left, p);
      }
    }

    lemma FoundAt(name: string, p: Path, t: Tree, n: Node, parent: Node?, left: bool)
      requires Seeking(name, p, t, n, parent, left)
      ensures t.Fork? && var k := |Before(p)| + |InOrder(t.left)|; k < |root.Contents()| && root.Contents()[k] == n
    {
      assert Whole(p, t)[|Before(p)| + |InOrder(t.left)|] == n;
    }

    /** phy_meminfo_parser.c:258-264: the ranges of a node, in list order. */
    method ListRanges(m: MapNode) returns (spans: seq<Span>)
      requires Known(m) && CircularList.Ring(m.lst, Heads(m.entries))
      ensures spans == Spans(m.entries)
    {
      ghost var hs := Heads(m.entries);
      ghost var c, i := [m.lst] + hs + [m.lst], 0;
      spans := [];
      assert c[0].next == c[1];
      var pos := m.lst.next;
      while pos != m.lst
        invariant i <= |hs| && pos == c[i + 1] && (i < |hs| ==> pos != m.lst)
        invariant spans == Spans(m.entries)[..i]
        decreases |hs| - i
      {
        var r := ranges[pos];
        assert c[i + 1].next == c[i + 2];
        pos := pos.next;
        spans := spans + [Span(r.start, r.end)];
        i := i + 1;
        if i < |hs| {
          CircularList.Places(m.lst, hs, 0, i + 1);
        }
      }
    }

    /** `release_map`: reports every entry in order and leaves the tree empty. */
    method ReleaseMap() returns (report: seq<Entry>)
      requires Valid()
      modifies root, root.linked
      ensures root.Valid() && root.node == null && root.Contents() == []
      ensures report == old(Table())
      ensures forall i, j | 0 <= i < j < |report| :: Precedes(report[i].name, report[j].name)
    {
      hide *;
      AllParts();
      NamesInOrder(Table());
      TableEntries();
      ghost var table, contents, linked, i := Table(), root.Contents(), root.linked, 0;
      report := [];
      var rb := root.First();
      while rb != null
        invariant root.Valid() && root.linked <= linked && Indexed(linked)
        invariant i <= |contents| && root.Contents() == contents[i..] && report == table[..i]
        invariant rb == if root.Contents() == [] then null else root.Contents()[0]
        decreases |contents| - i
      {
        var entry;
        Sequences.Step(contents, i);
        Sequences.Step(table, i);
        rb, entry := ReleaseNode(rb, linked);
        report := report + [entry];
        i := i + 1;
      }
      Emptied();
    }

    lemma Emptied()
      requires root.Valid() && root.Contents() == []
      ensures root.node == null
    {
    }

    /** One round: phy_meminfo_parser.c:246-269. */
    method ReleaseNode(tmp: Node, ghost linked: set<Node>) returns (rb: Node?, entry: Entry)
      requires root.Valid() && root.linked <= linked && Indexed(linked) && tmp in linked
      requires root.Contents() != [] && root.Contents()[0] == tmp
      modifies root, root.linked
      ensures root.Valid() && root.linked <= old(root.linked) && Indexed(linked)
      ensures root.Contents() == old(root.Contents())[1..]
      ensures rb == if root.Contents() == [] then null else root.Contents()[0]
      ensures entry == EntryOf(tmp)
    {
      hide *;
      rb := EraseHead(root, tmp);
      IndexedAt(linked, tmp);
      var node := nodes[tmp];
      var spans := ListRanges(node);
      entry := Entry(node.name, spans, node.size);
    }
  }

  /** A run of calls of `add_mem_map` that find memory, on an empty map. */
  method AddAll(rs: seq<Request>) returns (map_: MemMap)
    ensures fresh(map_) && map_.Valid() && map_.Table() == Run(rs)
  {
    hide *;
    map_ := new MemMap();
    RunNothing();
    for i := 0 to |rs|
      invariant fresh(map_) && fresh(map_.root) && fresh(map_.root.linked) && fresh(map_.heads)
      invariant fresh(map_.nodes.Values) && map_.Valid() && map_.Table() == Run(rs[..i])
    {
      var r := rs[i];
      RunOne(rs, i);
      var ok := map_.AddMemMap(r.name, r.span.start, r.span.end, true, true);
      SpanOf(r);
    }
    assert rs[..|rs|] == rs;
  }

  lemma SpanOf(r: Request)
    ensures Span(r.span.start, r.span.end) == r.span
  {
  }
}
