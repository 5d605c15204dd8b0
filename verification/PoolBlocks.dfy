/** The blocks of the pool of port_memory.c, as the sequence that tiles it, and what
    allocating and freeing do to that sequence. */
module PoolBlocks {
  /** HEAP_STRUCTURE_SIZE, HEAP_BYTE_ALIGNMENT and HEAP_MINIMUM_BLOCK_SIZE with four-byte
      pointers and sizes. */
  const HEADER: int := 8
  const ALIGNMENT: int := 8
  const MINIMUM: int := 2
  const ALLOCATED: int := 0x8000_0000
  const NULL: int := 0

  /** One block, header included. */
  datatype Block = Block(addr: int, size: int, live: bool) {
    ghost predicate Wanted()
    {
      size >= HEADER && size % ALIGNMENT == 0
    }
  }

  /** The blocks follow each other without gap or overlap from `lo` to `hi`. */
  ghost predicate Tiled(bs: seq<Block>, lo: int, hi: int) {
    if bs == [] then lo == hi else
    bs[0].addr == lo && bs[0].Wanted() && Tiled(bs[1..], lo + bs[0].size, hi)
  }

  /** No two free blocks are neighbours. */
  ghost predicate Spaced(bs: seq<Block>) {
    forall i | 0 < i < |bs| :: bs[i - 1].live || bs[i].live
  }

  ghost function Total(bs: seq<Block>, live: bool): int {
    if bs == [] then 0 else (if bs[0].live == live then bs[0].size else 0) + Total(bs[1..], live)
  }

  /** The live blocks. */
  ghost function Lives(bs: seq<Block>): set<Block> {
    set b | b in bs && b.live
  }

  /** The address of the first free block, or `stop`. */
  ghost function FirstFree(bs: seq<Block>, stop: int): int {
    if bs == [] then stop else if bs[0].live then FirstFree(bs[1..], stop) else bs[0].addr
  }

  /** The lowest free block of at least `need` bytes, or the number of blocks. */
  ghost function FirstFit(bs: seq<Block>, need: int): nat {
    if bs == [] then 0 else if !bs[0].live && bs[0].size >= need then 0 else 1 + FirstFit(bs[1..], need)
  }

  /** port_memory.c:117-120. */
  function Rounded(size: int): int {
    var s := size + HEADER;
    if s % ALIGNMENT != 0 then s + (ALIGNMENT - s % ALIGNMENT) else s
  }

  /** The free block `i` with `need` bytes of it taken. */
  ghost function Carved(bs: seq<Block>, i: nat, need: int): seq<Block>
    requires i < |bs|
  {
    bs[..i] + Parts(bs[i], need) + bs[i + 1..]
  }

  /** port_memory.c:135-140: what is left over becomes a free block of its own. */
  ghost function Parts(b: Block, need: int): (parts: seq<Block>)
    ensures |parts| > 0 && parts[0].addr == b.addr && parts[0].live
    ensures |parts| == 1 || (|parts| == 2 && parts[1].addr == b.addr + need && !parts[1].live)
  {
    if b.size - need > MINIMUM
    then [Block(b.addr, need, true), Block(b.addr + need, b.size - need, false)]
    else [Block(b.addr, b.size, true)]
  }

  /** Block `k` freed and joined with its free neighbours. */
  ghost function Released(bs: seq<Block>, k: nat): seq<Block>
    requires k < |bs|
  {
    bs[..From(bs, k)] + [Joined(bs, k)] + bs[To(bs, k)..]
  }

  /** Blocks `From` up to `To` are joined. */
  ghost function From(bs: seq<Block>, k: nat): nat
    requires k < |bs|
  {
    if k > 0 && !bs[k - 1].live then k - 1 else k
  }

  ghost function To(bs: seq<Block>, k: nat): nat
    requires k < |bs|
  {
    if k + 1 < |bs| && !bs[k + 1].live then k + 2 else k + 1
  }

  ghost function Joined(bs: seq<Block>, k: nat): Block
    requires k < |bs|
  {
    var first, last := bs[From(bs, k)], bs[To(bs, k) - 1];
    Block(first.addr, last.addr + last.size - first.addr, false)
  }

  // ---------- tilings ----------

  lemma {:induction false} TiledCat(a: seq<Block>, b: seq<Block>, lo: int, mid: int, hi: int)
    requires b != [] ==> b[0].addr == mid
    ensures Tiled(a, lo, mid) && Tiled(b, mid, hi) ==> Tiled(a + b, lo, hi)
    ensures b != [] && Tiled(a + b, lo, hi) ==> Tiled(a, lo, mid) && Tiled(b, mid, hi)
  {
    if a == [] {
      assert a + b == b;
    } else {
      assert (a + b)[1..] == a[1..] + b;
      TiledCat(a[1..], b, lo + a[0].size, mid, hi);
    }
  }

  lemma {:induction false} TiledAt(bs: seq<Block>, lo: int, hi: int, i: nat)
    requires Tiled(bs, lo, hi) && i < |bs|
    ensures lo <= bs[i].addr && bs[i].addr + bs[i].size <= hi && bs[i].Wanted()
    ensures Tiled(bs[..i], lo, bs[i].addr) && Tiled(bs[i + 1..], bs[i].addr + bs[i].size, hi)
    ensures lo % ALIGNMENT == 0 ==> bs[i].addr % ALIGNMENT == 0
    ensures bs[i].addr == if i == 0 then lo else bs[i - 1].addr + bs[i - 1].size
    ensures bs[i].addr + bs[i].size == if i + 1 == |bs| then hi else bs[i + 1].addr
  {
    TiledOrder(bs, lo, hi);
    TiledOrder(bs[1..], lo + bs[0].size, hi);
    if i > 0 {
      TiledAt(bs[1..], lo + bs[0].size, hi, i - 1);
      assert bs[1..][..i - 1] == bs[..i][1..];
    }
  }

  lemma {:induction false} TiledOrder(bs: seq<Block>, lo: int, hi: int)
    requires Tiled(bs, lo, hi)
    ensures lo <= hi && (bs == [] || lo < hi)
  {
    if bs != [] {
      TiledOrder(bs[1..], lo + bs[0].size, hi);
    }
  }

  /** Blocks of a tiling are in address order and disjoint. */
  lemma {:induction false} TiledApart(bs: seq<Block>, lo: int, hi: int, i: nat, j: nat)
    requires Tiled(bs, lo, hi) && i < j < |bs|
    ensures bs[i].addr + bs[i].size <= bs[j].addr
  {
    TiledAt(bs, lo, hi, i);
    TiledAt(bs[i + 1..], bs[i].addr + bs[i].size, hi, j - i - 1);
  }

  /** Nothing is lost: live and free bytes make up the pool. */
  lemma {:induction false} Conservation(bs: seq<Block>, lo: int, hi: int)
    requires Tiled(bs, lo, hi)
    ensures Total(bs, false) + Total(bs, true) == hi - lo
    ensures Total(bs, false) >= 0 && Total(bs, true) >= 0
  {
    if bs != [] {
      Conservation(bs[1..], lo + bs[0].size, hi);
    }
  }

  lemma {:induction false} TotalCat(a: seq<Block>, b: seq<Block>, live: bool)
    ensures Total(a + b, live) == Total(a, live) + Total(b, live)
  {
    if a == [] {
      assert a + b == b;
    } else {
      assert (a + b)[1..] == a[1..] + b;
      TotalCat(a[1..], b, live);
    }
  }

  /** A pool without live blocks is one free block. */
  lemma FullyCoalesced(bs: seq<Block>, lo: int, hi: int)
    requires Tiled(bs, lo, hi) && Spaced(bs) && lo < hi && Lives(bs) == {}
    ensures bs == [Block(lo, hi - lo, false)]
  {
    SomeLive(bs, 0);
    SomeLive(bs, 1);
  }

  lemma SomeLive(bs: seq<Block>, i: nat)
    requires Spaced(bs)
    ensures i < |bs| && (i > 0 || bs[i].live) ==> Lives(bs) != {}
  {
    if i < |bs| && bs[i].live {
      assert bs[i] in Lives(bs);
    } else if 0 < i < |bs| {
      assert bs[i - 1] in Lives(bs);
    }
  }

  // ---------- allocation ----------

  lemma RoundedFacts(size: int)
    requires size > 0
    ensures size + HEADER <= Rounded(size) < size + HEADER + ALIGNMENT && Rounded(size) % ALIGNMENT == 0
    ensures Rounded(size) >= 2 * HEADER
  {
  }

  /** A rest of a multiple of 8 bytes is cut off whenever there is one. */
  lemma PartsExact(b: Block, need: int)
    requires b.size % 8 == need % 8 == 0 && need <= b.size
    ensures Parts(b, need) == if need == b.size then [Block(b.addr, need, true)]
                              else [Block(b.addr, need, true), Block(b.addr + need, b.size - need, false)]
  {
  }

  /** The least multiple of 8 that holds `size` bytes and a header of 8 bytes. */
  lemma RoundedExact(size: int, n: int)
    requires n % 8 == 0
    ensures n >= Rounded(size) <==> n >= size + 8
    ensures Rounded(size) % 8 == 0 && size + 8 <= Rounded(size) < size + 16
  {
  }

  lemma {:induction false} FirstFitFacts(bs: seq<Block>, need: int)
    ensures FirstFit(bs, need) <= |bs|
    ensures forall j | 0 <= j < FirstFit(bs, need) :: bs[j].live || bs[j].size < need
    ensures var i := FirstFit(bs, need); i < |bs| ==> !bs[i].live && bs[i].size >= need
  {
    if bs != [] && (bs[0].live || bs[0].size < need) {
      FirstFitFacts(bs[1..], need);
      forall j | 0 <= j < FirstFit(bs, need)
        ensures bs[j].live || bs[j].size < need
      {
        assert j > 0 ==> bs[j] == bs[1..][j - 1];
      }
    }
  }

  lemma {:induction false} FirstFitIs(bs: seq<Block>, need: int, i: nat)
    requires i <= |bs| && (forall j | 0 <= j < i :: bs[j].live || bs[j].size < need)
    requires i < |bs| ==> !bs[i].live && bs[i].size >= need
    ensures FirstFit(bs, need) == i
  {
    if i > 0 {
      FirstFitIs(bs[1..], need, i - 1);
    }
  }

  lemma CarvedTiled(bs: seq<Block>, lo: int, hi: int, i: nat, need: int)
    requires Tiled(bs, lo, hi) && i < |bs| && need <= bs[i].size && need >= HEADER && need % ALIGNMENT == 0
    ensures Tiled(Carved(bs, i, need), lo, hi)
  {
    var b := bs[i];
    TiledAt(bs, lo, hi, i);
    var parts := Parts(b, need);
    assert parts[1..] == [] || (parts[1..] == [parts[1]] && parts[1..][1..] == []);
    assert Tiled(parts, b.addr, b.addr + b.size);
    TiledCat(bs[..i], parts, lo, b.addr, hi);
    assert Tiled(bs[..i] + parts, lo, b.addr + b.size) by {
      TiledCat(bs[..i], parts, lo, b.addr, b.addr + b.size);
    }
    TiledTail(bs, lo, hi, i);
    TiledCat(bs[..i] + parts, bs[i + 1..], lo, b.addr + b.size, hi);
  }

  lemma TiledTail(bs: seq<Block>, lo: int, hi: int, i: nat)
    requires Tiled(bs, lo, hi) && i < |bs|
    ensures i + 1 < |bs| ==> bs[i + 1].addr == bs[i].addr + bs[i].size
  {
    TiledAt(bs, lo, hi, i);
  }

  lemma CarvedSpaced(bs: seq<Block>, i: nat, need: int)
    requires Spaced(bs) && i < |bs| && !bs[i].live
    ensures Spaced(Carved(bs, i, need))
  {
    var cs := Carved(bs, i, need);
    var d := |cs| - |bs|;
    assert i + 1 < |bs| ==> bs[i + 1 - 1].live || bs[i + 1].live;
    forall j | 0 < j < |cs|
      ensures cs[j - 1].live || cs[j].live
    {
      if j < i {
        assert cs[j] == bs[j] && cs[j - 1] == bs[j - 1];
      } else if j > i + 1 + d {
        assert cs[j] == bs[j - d] && cs[j - 1] == bs[j - 1 - d];
      }
    }
  }

  lemma CarvedTotals(bs: seq<Block>, i: nat, need: int)
    requires i < |bs| && !bs[i].live
    ensures Total(Carved(bs, i, need), false)
         == Total(bs, false) - (if bs[i].size - need > MINIMUM then need else bs[i].size)
  {
    var parts := Parts(bs[i], need);
    assert Carved(bs, i, need) == bs[..i] + parts + bs[i + 1..];
    assert bs == bs[..i] + [bs[i]] + bs[i + 1..];
    PartsTotal(bs[i], need);
    hide *;
    AroundTotal(bs[..i], [bs[i]], bs[i + 1..]);
    AroundTotal(bs[..i], parts, bs[i + 1..]);
  }

  lemma PartsTotal(b: Block, need: int)
    requires !b.live
    ensures Total([b], false) == b.size
    ensures Total(Parts(b, need), false) == b.size - (if b.size - need > MINIMUM then need else b.size)
  {
    var parts := Parts(b, need);
    assert parts[1..] == [] || (parts[1..] == [parts[1]] && parts[1..][1..] == []);
  }

  lemma AroundTotal(a: seq<Block>, b: seq<Block>, c: seq<Block>)
    ensures Total(a + b + c, false) == Total(a, false) + Total(b, false) + Total(c, false)
  {
    TotalCat(a + b, c, false);
    TotalCat(a, b, false);
  }

  /** Allocation adds one live block, of the wanted size, and leaves the others alone. */
  lemma CarvedLives(bs: seq<Block>, i: nat, need: int)
    requires i < |bs| && !bs[i].live
    ensures Lives(Carved(bs, i, need))
         == Lives(bs) + {Block(bs[i].addr, if bs[i].size - need > MINIMUM then need else bs[i].size, true)}
  {
    var cs, got := Carved(bs, i, need),
      Block(bs[i].addr, if bs[i].size - need > MINIMUM then need else bs[i].size, true);
    assert cs[i] == got;
    forall b | b in Lives(bs)
      ensures b in cs
    {
      var j :| 0 <= j < |bs| && bs[j] == b;
      assert cs[if j < i then j else j + |cs| - |bs|] == b;
    }
    assert forall b | b in bs[..i] || b in bs[i + 1..] :: b in bs;
  }

  // ---------- freeing ----------

  lemma ReleasedTiled(bs: seq<Block>, lo: int, hi: int, k: nat)
    requires Tiled(bs, lo, hi) && k < |bs|
    ensures Tiled(Released(bs, k), lo, hi)
  {
    var i, j := From(bs, k), To(bs, k);
    JoinedWanted(bs, lo, hi, k);
    TiledAt(bs, lo, hi, i);
    TiledAt(bs, lo, hi, j - 1);
    hide From, To;
    Retiled(bs[..i], Joined(bs, k), bs[j..], lo, hi);
  }

  lemma JoinedWanted(bs: seq<Block>, lo: int, hi: int, k: nat)
    requires Tiled(bs, lo, hi) && k < |bs|
    ensures Joined(bs, k).Wanted()
    ensures Joined(bs, k).size == bs[k].size + (if From(bs, k) < k then bs[k - 1].size else 0)
                                             + (if To(bs, k) > k + 1 then bs[k + 1].size else 0)
  {
    var i, j := From(bs, k), To(bs, k);
    NextTo(bs, lo, hi, i);
    NextTo(bs, lo, hi, k);
    NextTo(bs, lo, hi, j - 1);
    var a, c := if i < k then bs[k - 1].size else 0, if j > k + 1 then bs[k + 1].size else 0;
    SumAligned(a, bs[k].size, c);
  }

  lemma NextTo(bs: seq<Block>, lo: int, hi: int, i: nat)
    requires Tiled(bs, lo, hi) && i < |bs|
    ensures bs[i].Wanted() && (i > 0 ==> bs[i].addr == bs[i - 1].addr + bs[i - 1].size)
    ensures i + 1 < |bs| ==> bs[i + 1].addr == bs[i].addr + bs[i].size
  {
    TiledAt(bs, lo, hi, i);
  }

  lemma SumAligned(a: int, b: int, c: int)
    requires a % ALIGNMENT == b % ALIGNMENT == c % ALIGNMENT == 0
    ensures (a + b + c) % ALIGNMENT == 0
  {
  }

  lemma Retiled(a: seq<Block>, b: Block, c: seq<Block>, lo: int, hi: int)
    requires Tiled(a, lo, b.addr) && b.Wanted() && Tiled(c, b.addr + b.size, hi)
    ensures Tiled(a + [b] + c, lo, hi)
  {
    assert [b][1..] == [];
    assert Tiled([b], b.addr, b.addr + b.size);
    TiledCat(a, [b], lo, b.addr, b.addr + b.size);
    TiledCat(a + [b], c, lo, b.addr + b.size, hi);
  }

  lemma JoinedTotal(bs: seq<Block>, k: nat)
    requires k < |bs| && bs[k].live
    ensures Total(bs[From(bs, k)..To(bs, k)], false)
         == (if From(bs, k) < k then bs[k - 1].size else 0) + (if To(bs, k) > k + 1 then bs[k + 1].size else 0)
  {
    var i, j := From(bs, k), To(bs, k);
    TotalCat(bs[i..k], bs[k..j], false);
    assert bs[i..j] == bs[i..k] + bs[k..j];
    assert bs[k..j][1..] == bs[k + 1..j];
    if i < k {
      assert bs[i..k] == [bs[i]];
      TotalOne(bs[i]);
    }
    if j > k + 1 {
      assert bs[k + 1..j] == [bs[k + 1]];
      TotalOne(bs[k + 1]);
    }
  }

  lemma TotalOne(b: Block)
    ensures Total([b], false) == if b.live then 0 else b.size
  {
    assert [b][1..] == [];
  }

  lemma ReleasedSpaced(bs: seq<Block>, k: nat)
    requires Spaced(bs) && k < |bs| && bs[k].live
    ensures Spaced(Released(bs, k))
  {
    var i, j := From(bs, k), To(bs, k);
    var cs := Released(bs, k);
    var d := j - i - 1;
    assert i > 0 ==> bs[i - 1].live || bs[i].live;
    assert 0 < j < |bs| ==> bs[j - 1].live || bs[j].live;
    forall l | 0 < l < |cs|
      ensures cs[l - 1].live || cs[l].live
    {
      if l < i {
        assert cs[l] == bs[l] && cs[l - 1] == bs[l - 1];
      } else if l == i {
        assert cs[l - 1] == bs[i - 1];
      } else if l == i + 1 {
        assert cs[l] == bs[j];
      } else {
        assert cs[l] == bs[l + d] && cs[l - 1] == bs[l - 1 + d];
      }
    }
  }

  /** Freeing takes one live block away and leaves the others alone. */
  lemma ReleasedLives(bs: seq<Block>, lo: int, hi: int, k: nat)
    requires Tiled(bs, lo, hi) && k < |bs| && bs[k].live
    ensures Lives(Released(bs, k)) == Lives(bs) - {bs[k]}
  {
    hide Tiled;
    var i, j := From(bs, k), To(bs, k);
    OnlyLive(bs, k);
    forall l | 0 <= l < |bs| && l != k
      ensures bs[l] != bs[k]
    {
      NotTwice(bs, lo, hi, l, k);
    }
    assert bs[k] !in bs[..i] && bs[k] !in bs[j..];
    assert bs == bs[..i] + bs[i..j] + bs[j..];
    assert Lives([Joined(bs, k)]) == {};
    assert bs[k] !in Lives(bs[..i]) && bs[k] !in Lives(bs[j..]);
    hide *;
    LivesCat(bs[..i], bs[i..j], bs[j..]);
    LivesCat(bs[..i], [Joined(bs, k)], bs[j..]);
    ReleasedIs(bs, k);
  }

  lemma ReleasedIs(bs: seq<Block>, k: nat)
    requires k < |bs|
    ensures Released(bs, k) == bs[..From(bs, k)] + [Joined(bs, k)] + bs[To(bs, k)..]
  {
  }

  lemma LivesCat(a: seq<Block>, b: seq<Block>, c: seq<Block>)
    ensures Lives(a + b + c) == Lives(a) + Lives(b) + Lives(c)
  {
  }

  /** Of the blocks that are joined only block `k` is live. */
  lemma OnlyLive(bs: seq<Block>, k: nat)
    requires k < |bs| && bs[k].live
    ensures Lives(bs[From(bs, k)..To(bs, k)]) == {bs[k]}
  {
    var i, j := From(bs, k), To(bs, k);
    assert bs[i..j][k - i] == bs[k];
    assert forall l | i <= l < j :: l != k ==> !bs[l].live;
  }

  lemma NotTwice(bs: seq<Block>, lo: int, hi: int, l: nat, k: nat)
    requires Tiled(bs, lo, hi) && k < |bs| && l < |bs| && l != k
    ensures bs[l] != bs[k]
  {
    TiledAt(bs, lo, hi, l);
    TiledAt(bs, lo, hi, k);
    TiledApart(bs, lo, hi, if l < k then l else k, if l < k then k else l);
  }

  lemma ReleasedTotals(bs: seq<Block>, lo: int, hi: int, k: nat)
    requires Tiled(bs, lo, hi) && k < |bs| && bs[k].live
    ensures Total(Released(bs, k), false) == Total(bs, false) + bs[k].size
  {
    var i, j := From(bs, k), To(bs, k);
    JoinedWanted(bs, lo, hi, k);
    JoinedTotal(bs, k);
    AroundTotal(bs[..i], bs[i..j], bs[j..]);
    AroundTotal(bs[..i], [Joined(bs, k)], bs[j..]);
    assert bs == bs[..i] + bs[i..j] + bs[j..];
    assert Total([Joined(bs, k)], false) == Joined(bs, k).size;
  }

  /** Freeing what was just allocated gives the old tiling back. */
  lemma CarveThenRelease(bs: seq<Block>, lo: int, hi: int, i: nat, need: int)
    requires Tiled(bs, lo, hi) && Spaced(bs) && i < |bs| && !bs[i].live && need <= bs[i].size
    ensures Released(Carved(bs, i, need), i) == bs
  {
    var cs, b := Carved(bs, i, need), bs[i];
    FreeBetween(bs, i);
    assert cs[..i] == bs[..i] && cs[i] == Parts(b, need)[0];
    assert i > 0 ==> cs[i - 1] == bs[i - 1];
    assert cs[i + |Parts(b, need)|..] == bs[i + 1..];
    assert bs == bs[..i] + [b] + bs[i + 1..];
  }

  lemma FreeBetween(bs: seq<Block>, i: nat)
    requires Spaced(bs) && i < |bs| && !bs[i].live
    ensures i > 0 ==> bs[i - 1].live
    ensures i + 1 < |bs| ==> bs[i + 1].live
  {
    var j := i + 1;
    assert j < |bs| ==> bs[j - 1].live || bs[j].live;
  }

  // ---------- the heap as a value ----------

  /** The blocks and `heap_minimum_ever_free_bytes_remaining`; no blocks before the first allocation. */
  datatype Pool = Pool(blocks: seq<Block>, least: int)

  ghost predicate WellFormed(p: Pool, lo: int, hi: int) {
    Tiled(p.blocks, lo, hi) && Spaced(p.blocks) && p.least <= Total(p.blocks, false)
  }

  /** `static_heap_init` on the first allocation. */
  ghost function Opened(p: Pool, lo: int, hi: int): Pool {
    if p.blocks == [] then Pool([Block(lo, hi - lo, false)], hi - lo) else p
  }

  /** The block an allocation of `size` bytes is taken from, or the number of blocks. */
  ghost function Slot(bs: seq<Block>, size: int): nat {
    if 0 < size < ALLOCATED then FirstFit(bs, Rounded(size)) else |bs|
  }

  /** `mem_alloc`. */
  ghost function Allocated(p: Pool, size: int): Pool {
    var i := Slot(p.blocks, size);
    if i < |p.blocks| then
      var bs := Carved(p.blocks, i, Rounded(size));
      Pool(bs, if Total(bs, false) < p.least then Total(bs, false) else p.least)
    else p
  }

  ghost function Payload(p: Pool, size: int): int {
    var i := Slot(p.blocks, size);
    if i < |p.blocks| then p.blocks[i].addr + HEADER else NULL
  }

  ghost function BlockAt(bs: seq<Block>, addr: int): (k: nat)
    ensures k <= |bs| && (k < |bs| ==> bs[k].addr == addr)
  {
    if bs == [] || bs[0].addr == addr then 0 else 1 + BlockAt(bs[1..], addr)
  }

  lemma {:induction false} NoBlock(bs: seq<Block>, addr: int)
    requires forall b | b in bs :: b.addr != addr
    ensures BlockAt(bs, addr) == |bs|
  {
    if bs != [] {
      NoBlock(bs[1..], addr);
    }
  }

  /** `mem_free`. */
  ghost function Freed(p: Pool, pv: int): Pool {
    var k := BlockAt(p.blocks, pv - HEADER);
    if pv != NULL && k < |p.blocks| && p.blocks[k].live then Pool(Released(p.blocks, k), p.least) else p
  }

  lemma {:induction false} BlockAtIs(bs: seq<Block>, lo: int, hi: int, k: nat)
    requires Tiled(bs, lo, hi) && k < |bs|
    ensures BlockAt(bs, bs[k].addr) == k
  {
    if k > 0 {
      TiledApart(bs, lo, hi, 0, k);
      BlockAtIs(bs[1..], lo + bs[0].size, hi, k - 1);
    }
  }

  lemma {:induction false} FitsInTotal(bs: seq<Block>, i: nat)
    requires i < |bs| && !bs[i].live && forall b | b in bs :: b.size >= 0
    ensures bs[i].size <= Total(bs, false)
  {
    TotalNonneg(bs[1..]);
    if i > 0 {
      FitsInTotal(bs[1..], i - 1);
    }
  }

  lemma {:induction false} TotalNonneg(bs: seq<Block>)
    requires forall b | b in bs :: b.size >= 0
    ensures Total(bs, false) >= 0
  {
    if bs != [] {
      TotalNonneg(bs[1..]);
    }
  }
}
