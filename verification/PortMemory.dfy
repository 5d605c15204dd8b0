/** The first-fit heap of port_memory.c over a word-addressed memory: the free list runs
    through the headers of the blocks. */
module PortMemory {
  import opened PoolBlocks
  import PoolRuns
  import Sequences

  /** `size_t` and addresses, four bytes wide; a `Word` never wraps around below. */
  type Word = x: int | 0 <= x < 0x1_0000_0000

  /** The words of the memory by byte address. A header has `next_free_block` at its own
      address and `block_size` four bytes later. */
  type Memory = map<Word, Word>

  const SIZE: int := 4

  ghost predicate Header(m: Memory, a: int, next: int, size: int) {
    a in m && a + SIZE in m && m[a] == next && m[a + SIZE] == size
  }

  /** The headers of `bs` are in memory, the free ones linked in order, the last one to `stop`.
      Nothing is known of the headers of live blocks at the addresses `raw`. */
  ghost predicate Linked(m: Memory, bs: seq<Block>, stop: int, raw: set<int>) {
    bs != [] ==>
      && (if bs[0].live then bs[0].addr in raw || Header(m, bs[0].addr, NULL, bs[0].size + ALLOCATED)
          else Header(m, bs[0].addr, FirstFree(bs[1..], stop), bs[0].size))
      && Linked(m, bs[1..], stop, raw)
  }

  /** The blocks behind the list head, which looks like a free block without bytes. */
  ghost function Chain(start: int, bs: seq<Block>): seq<Block> {
    [Block(start, 0, false)] + bs
  }

  /** Headers do not overlap. */
  ghost predicate Apart(bs: seq<Block>) {
    forall i, j | 0 <= i < j < |bs| ::
      bs[i].addr + HEADER <= bs[j].addr || bs[j].addr + HEADER <= bs[i].addr
  }

  /** `mem_free` would take the words at `a` for a header that is not of a live block. */
  ghost predicate Idle(m: Memory, a: int) {
    a in m && a + SIZE in m && (m[a + SIZE] < ALLOCATED || m[a] != NULL)
  }

  ghost predicate Same(m: Memory, m': Memory, a: int) {
    (a in m ==> a in m' && m'[a] == m[a]) && (a + SIZE in m ==> a + SIZE in m' && m'[a + SIZE] == m[a + SIZE])
  }

  // ---------- the free list ----------

  lemma {:induction false} LinkedCat(m: Memory, a: seq<Block>, b: seq<Block>, stop: int, raw: set<int>)
    ensures FirstFree(a + b, stop) == FirstFree(a, FirstFree(b, stop))
    ensures Linked(m, a + b, stop, raw) <==> Linked(m, a, FirstFree(b, stop), raw) && Linked(m, b, stop, raw)
  {
    if a == [] {
      assert a + b == b;
    } else {
      assert (a + b)[1..] == a[1..] + b;
      LinkedCat(m, a[1..], b, stop, raw);
    }
  }

  lemma LinkedOne(m: Memory, b: Block, stop: int, raw: set<int>)
    ensures FirstFree([b], stop) == if b.live then stop else b.addr
    ensures Linked(m, [b], stop, raw) <==>
            if b.live then b.addr in raw || Header(m, b.addr, NULL, b.size + ALLOCATED)
            else Header(m, b.addr, stop, b.size)
  {
    assert [b][1..] == [];
  }

  lemma LinkedAround(m: Memory, a: seq<Block>, b: Block, c: seq<Block>, stop: int, raw: set<int>)
    ensures var next := FirstFree(c, stop); var here := if b.live then next else b.addr;
            && FirstFree(a + [b] + c, stop) == FirstFree(a, here)
            && (Linked(m, a + [b] + c, stop, raw) <==>
                && Linked(m, a, here, raw) && Linked(m, c, stop, raw)
                && if b.live then b.addr in raw || Header(m, b.addr, NULL, b.size + ALLOCATED)
                   else Header(m, b.addr, next, b.size))
  {
    LinkedCat(m, a + [b], c, stop, raw);
    LinkedCat(m, a, [b], FirstFree(c, stop), raw);
    LinkedOne(m, b, FirstFree(c, stop), raw);
  }

  lemma {:induction false} LinkedFrame(m: Memory, m': Memory, bs: seq<Block>, stop: int, raw: set<int>, raw': set<int>)
    requires Linked(m, bs, stop, raw)
    requires forall b | b in bs :: Same(m, m', b.addr) || (b.live && b.addr in raw')
    requires forall b | b in bs :: b.addr in raw ==> b.addr in raw'
    ensures Linked(m', bs, stop, raw')
  {
    if bs != [] {
      LinkedFrame(m, m', bs[1..], stop, raw, raw');
    }
  }

  /** Live blocks are not linked. */
  lemma {:induction false} LiveLinked(m: Memory, bs: seq<Block>, stop: int, stop': int, raw: set<int>)
    requires forall b | b in bs :: b.live
    ensures FirstFree(bs, stop') == stop'
    ensures Linked(m, bs, stop, raw) ==> Linked(m, bs, stop', raw)
  {
    if bs != [] {
      LiveLinked(m, bs[1..], stop, stop', raw);
    }
  }

  /** Place of the first free block. */
  ghost function FreeIndex(bs: seq<Block>): (i: nat)
    ensures i <= |bs| && forall j | 0 <= j < i :: bs[j].live
    ensures i < |bs| ==> !bs[i].live
  {
    if bs == [] || !bs[0].live then 0 else
    var i := FreeIndex(bs[1..]);
    assert forall j | 1 <= j < i + 1 :: bs[j] == bs[1..][j - 1];
    i + 1
  }

  lemma {:induction false} FreeIndexFacts(bs: seq<Block>, stop: int)
    ensures FirstFree(bs, stop) == if FreeIndex(bs) < |bs| then bs[FreeIndex(bs)].addr else stop
  {
    if bs != [] && bs[0].live {
      FreeIndexFacts(bs[1..], stop);
    }
  }

  lemma {:induction false} FirstFreeIs(bs: seq<Block>, i: nat, stop: int)
    requires i <= |bs| && (forall l | 0 <= l < i :: bs[l].live) && (i < |bs| ==> !bs[i].live)
    ensures FirstFree(bs, stop) == if i < |bs| then bs[i].addr else stop
  {
    if i > 0 {
      FirstFreeIs(bs[1..], i - 1, stop);
    }
  }

  /** Block `i` of the chain is free: its header, and the place of the next free block. */
  lemma FreeHeader(m: Memory, bs: seq<Block>, stop: int, raw: set<int>, i: nat) returns (j: nat)
    requires Linked(m, bs, stop, raw) && i < |bs| && !bs[i].live
    ensures i < j <= |bs| && (forall l | i < l < j :: bs[l].live) && (j < |bs| ==> !bs[j].live)
    ensures Header(m, bs[i].addr, if j < |bs| then bs[j].addr else stop, bs[i].size)
    ensures FirstFree(bs[i + 1..], stop) == if j < |bs| then bs[j].addr else stop
  {
    assert bs == bs[..i] + [bs[i]] + bs[i + 1..];
    LinkedAround(m, bs[..i], bs[i], bs[i + 1..], stop, raw);
    FreeIndexFacts(bs[i + 1..], stop);
    j := i + 1 + FreeIndex(bs[i + 1..]);
  }

  /** The header of a block in use. */
  lemma LiveHeader(m: Memory, bs: seq<Block>, stop: int, raw: set<int>, i: nat)
    requires Linked(m, bs, stop, raw) && i < |bs| && bs[i].live && bs[i].addr !in raw
    ensures Header(m, bs[i].addr, NULL, bs[i].size + ALLOCATED)
  {
    assert bs == bs[..i] + [bs[i]] + bs[i + 1..];
    LinkedAround(m, bs[..i], bs[i], bs[i + 1..], stop, raw);
  }

  lemma HeadersApart(bs: seq<Block>, i: nat, j: nat)
    requires Apart(bs) && i < |bs| && j < |bs| && i != j
    ensures bs[i].addr + HEADER <= bs[j].addr || bs[j].addr + HEADER <= bs[i].addr
  {
  }

  lemma ChainApart(start: int, bs: seq<Block>, lo: int, hi: int)
    requires Tiled(bs, lo, hi) && (start + HEADER <= lo || hi + HEADER <= start)
    ensures Apart(Chain(start, bs))
  {
    var c := Chain(start, bs);
    forall i, j | 0 <= i < j < |c|
      ensures c[i].addr + HEADER <= c[j].addr || c[j].addr + HEADER <= c[i].addr
    {
      TiledAt(bs, lo, hi, j - 1);
      if i > 0 {
        TiledAt(bs, lo, hi, i - 1);
        TiledApart(bs, lo, hi, i - 1, j - 1);
      }
    }
  }

  /** The memory with a free block of `size` bytes before `next` in the list: block `x` joined
      to the free block `p`, or put behind it. */
  ghost function Spliced(m: Memory, p: Word, x: Word, left: bool, size: Word, next: Word): Memory
    requires p + SIZE < 0x1_0000_0000 && x + SIZE < 0x1_0000_0000
  {
    if left then m[p + SIZE := size][p := next] else m[x + SIZE := size][x := next][p := x]
  }

  /** The headers of `bs` do not overlap the one at `x`. */
  ghost predicate Clear(bs: seq<Block>, x: int) {
    forall b | b in bs :: b.addr + HEADER <= x || x + HEADER <= b.addr
  }

  lemma SplicedFrame(m: Memory, p: Word, x: Word, left: bool, size: Word, next: Word, bs: seq<Block>, stop: int,
                     raw: set<int>)
    requires p + SIZE < 0x1_0000_0000 && x + SIZE < 0x1_0000_0000
    requires Linked(m, bs, stop, raw) && Clear(bs, p) && Clear(bs, x)
    ensures Linked(Spliced(m, p, x, left, size, next), bs, stop, raw - {x})
  {
    LinkedFrame(m, Spliced(m, p, x, left, size, next), bs, stop, raw, raw - {x});
  }

  lemma SplicedSame(m: Memory, p: Word, x: Word, left: bool, size: Word, next: Word, a: int)
    requires p + SIZE < 0x1_0000_0000 && x + SIZE < 0x1_0000_0000
    requires a + HEADER <= p || p + HEADER <= a
    requires a + HEADER <= x || x + HEADER <= a
    ensures Same(m, Spliced(m, p, x, left, size, next), a)
  {
  }

  /** Joining to the left: the list goes `a`, the free block, `c`. */
  lemma SplicedLeft(m: Memory, a: seq<Block>, p: Word, x: Word, c: seq<Block>, size: Word, next: Word, stop: int,
                    raw: set<int>)
    requires p + SIZE < 0x1_0000_0000 && x + SIZE < 0x1_0000_0000
    requires Linked(m, a, p, raw) && Linked(m, c, stop, raw) && next == FirstFree(c, stop)
    requires Clear(a, p) && Clear(a, x) && Clear(c, p) && Clear(c, x)
    ensures Linked(Spliced(m, p, x, true, size, next), a + [Block(p, size, false)] + c, stop, raw - {x})
  {
    SplicedFrame(m, p, x, true, size, next, a, p, raw);
    SplicedFrame(m, p, x, true, size, next, c, stop, raw);
    LinkedAround(Spliced(m, p, x, true, size, next), a, Block(p, size, false), c, stop, raw - {x});
  }

  /** Not joining to the left: `a`, the free block `p`, live blocks `b`, the new free block, `c`. */
  lemma SplicedAfter(m: Memory, a: seq<Block>, p: Block, b: seq<Block>, x: Word, c: seq<Block>, size: Word, next: Word,
                     stop: int, stop': int, raw: set<int>)
    requires 0 <= p.addr && p.addr + SIZE < 0x1_0000_0000 && x + SIZE < 0x1_0000_0000
    requires Linked(m, a, p.addr, raw) && Linked(m, b, stop', raw) && Linked(m, c, stop, raw)
               && next == FirstFree(c, stop)
    requires Header(m, p.addr, stop', p.size) && !p.live && forall l | l in b :: l.live
    requires Clear(a, p.addr) && Clear(a, x) && Clear(b, p.addr) && Clear(b, x) && Clear(c, p.addr) && Clear(c, x)
               && Clear([p], x)
    ensures Linked(Spliced(m, p.addr, x, false, size, next), a + [p] + (b + [Block(x, size, false)] + c), stop,
              raw - {x})
  {
    var m', j := Spliced(m, p.addr, x, false, size, next), Block(x, size, false);
    SplicedHeaders(m, p, x, size, next, stop');
    SplicedFrame(m, p.addr, x, false, size, next, a, p.addr, raw);
    SplicedFrame(m, p.addr, x, false, size, next, b, stop', raw);
    SplicedFrame(m, p.addr, x, false, size, next, c, stop, raw);
    hide Spliced, Clear;
    NewLinked(m', a, p, b, j, c, next, stop, stop', raw - {x});
  }

  lemma NewLinked(m: Memory, a: seq<Block>, p: Block, b: seq<Block>, x: Block, c: seq<Block>, next: Word, stop: int,
                  stop': int, raw: set<int>)
    requires Linked(m, a, p.addr, raw) && Linked(m, b, stop', raw) && Linked(m, c, stop, raw)
               && next == FirstFree(c, stop)
    requires !p.live && !x.live && (forall l | l in b :: l.live)
    requires Header(m, p.addr, x.addr, p.size) && Header(m, x.addr, next, x.size)
    ensures Linked(m, a + [p] + (b + [x] + c), stop, raw)
  {
    LiveLinked(m, b, stop', x.addr, raw);
    hide Linked;
    LinkedAround(m, b, x, c, stop, raw);
    var d := b + [x] + c;
    assert FirstFree(d, stop) == x.addr && Linked(m, d, stop, raw);
    LinkedAround(m, a, p, d, stop, raw);
  }

  lemma SplicedHeaders(m: Memory, p: Block, x: Word, size: Word, next: Word, stop: int)
    requires 0 <= p.addr && p.addr + SIZE < 0x1_0000_0000 && x + SIZE < 0x1_0000_0000
    requires Header(m, p.addr, stop, p.size) && Clear([p], x)
    ensures var m' := Spliced(m, p.addr, x, false, size, next);
            Header(m', p.addr, x, p.size) && Header(m', x, next, size)
  {
    assert p in [p];
  }

  lemma ApartFrom(bs: seq<Block>, i: nat)
    requires Apart(bs) && i < |bs|
    ensures Clear(bs[..i], bs[i].addr) && Clear(bs[i + 1..], bs[i].addr)
  {
  }

  lemma TiledLess(bs: seq<Block>, lo: int, hi: int, i: nat, j: nat)
    requires Tiled(bs, lo, hi) && i < |bs| && j < |bs|
    ensures bs[i].addr < bs[j].addr <==> i < j
    ensures bs[i].addr + bs[i].size == bs[j].addr <==> i + 1 == j
    ensures bs[i].addr + bs[i].size == hi <==> i + 1 == |bs|
  {
    hide Tiled;
    TiledAt(bs, lo, hi, i);
    TiledAt(bs, lo, hi, j);
    if i < j {
      TiledApart(bs, lo, hi, i, j);
      TiledAt(bs, lo, hi, i + 1);
      if i + 1 < j {
        TiledApart(bs, lo, hi, i + 1, j);
      }
    } else if j < i {
      TiledApart(bs, lo, hi, j, i);
    }
    TiledOrder(bs[i + 1..], bs[i].addr + bs[i].size, hi);
  }

  /** The free block `i`, the live blocks up to `k`, and what comes from `t` on. */
  lemma Parting(m: Memory, c: seq<Block>, i: nat, k: nat, t: nat, stop: int, raw: set<int>)
    requires Linked(m, c, stop, raw) && i < k < t <= |c| && !c[i].live && forall l | i < l <= k :: c[l].live
    ensures Linked(m, c[..i], c[i].addr, raw) && Linked(m, c[t..], stop, raw)
    ensures var next := FirstFree(c[k + 1..], stop);
            Header(m, c[i].addr, next, c[i].size) && Linked(m, c[i + 1..k], next, raw)
  {
    assert c == c[..t] + c[t..] && c == c[..i] + [c[i]] + c[i + 1..] && c[i + 1..] == c[i + 1..k] + [c[k]] + c[k + 1..];
    LinkedCat(m, c[..t], c[t..], stop, raw);
    LinkedAround(m, c[..i], c[i], c[i + 1..], stop, raw);
    LinkedAround(m, c[i + 1..k], c[k], c[k + 1..], stop, raw);
    LiveLinked(m, c[i + 1..k], stop, FirstFree(c[k + 1..], stop), raw);
  }

  lemma PartsClear(c: seq<Block>, i: nat, k: nat, t: nat)
    requires Apart(c) && i < k < t <= |c|
    ensures Clear(c[..i], c[i].addr) && Clear(c[i + 1..k], c[i].addr) && Clear(c[t..], c[i].addr)
    ensures Clear(c[..i], c[k].addr) && Clear(c[i + 1..k], c[k].addr) && Clear(c[t..], c[k].addr)
    ensures Clear([c[i]], c[k].addr)
  {
  }

  lemma ChainReleased(start: int, bs: seq<Block>, c: seq<Block>, k: nat, i: nat)
    requires c == Chain(start, bs) && k < |bs| && bs[k].live && i <= k
    requires !c[i].live && forall l | i < l <= k :: c[l].live
    ensures var j, rest := Joined(bs, k), bs[To(bs, k)..];
            && |c| == |bs| + 1 && c[k + 1] == bs[k] && k + 1 < To(bs, k) + 1 <= |c| && rest == c[To(bs, k) + 1..]
               && !j.live
            && (i > 0 && i == k ==>
                  j.addr == c[i].addr && Chain(start, Released(bs, k)) == c[..i] + [j] + rest)
            && (!(i > 0 && i == k) ==>
                  j.addr == bs[k].addr && Chain(start, Released(bs, k))
                    == c[..i] + [c[i]] + (c[i + 1..k + 1] + [j] + rest))
  {
    var f, j, rest := From(bs, k), Joined(bs, k), bs[To(bs, k)..];
    assert k > 0 ==> c[k] == bs[k - 1];
    assert f == if i > 0 && i == k then k - 1 else k;
    assert c[..f + 1] == [c[0]] + bs[..f];
    Sequences.Four([c[0]], bs[..f], [j], rest);
    if f == k {
      assert c[..k + 1] == c[..i] + [c[i]] + c[i + 1..k + 1];
      Sequences.Four(c[..i] + [c[i]], c[i + 1..k + 1], [j], rest);
    }
  }

  /** The list after `static_insert_block_into_free_list`; block `i` of the chain is the last free one before `k`. */
  lemma InsertLinked(m: Memory, start: int, bs: seq<Block>, c: seq<Block>, k: nat, i: nat, lo: int, hi: int,
                     raw: set<int>,
                     p: Word, x: Word, size: Word, next: Word)
    requires c == Chain(start, bs) && Tiled(bs, lo, hi) && Linked(m, c, hi, raw) && k < |bs| && bs[k].live
    requires start + HEADER <= lo || hi + HEADER <= start
    requires i <= k && p == c[i].addr && p + SIZE < 0x1_0000_0000 && x == bs[k].addr && x + SIZE < 0x1_0000_0000
    requires !c[i].live && forall l | i < l <= k :: c[l].live
    requires size == Joined(bs, k).size && next == FirstFree(bs[To(bs, k)..], hi)
    ensures Linked(Spliced(m, p, x, i > 0 && i == k, size, next), Chain(start, Released(bs, k)), hi, raw - {x})
  {
    hide *;
    ChainApart(start, bs, lo, hi);
    ChainReleased(start, bs, c, k, i);
    InsertCore(m, c, i, k + 1, To(bs, k) + 1, hi, raw, Joined(bs, k),
      i > 0 && i == k, p, x, next, Chain(start, Released(bs, k)));
  }

  lemma InsertCore(m: Memory, c: seq<Block>, i: nat, k: nat, t: nat, stop: int, raw: set<int>, j: Block, left: bool,
                   p: Word, x: Word, next: Word, c': seq<Block>)
    requires Apart(c) && Linked(m, c, stop, raw) && i < k < t <= |c| && !c[i].live && forall l | i < l <= k :: c[l].live
    requires p == c[i].addr && p + SIZE < 0x1_0000_0000 && x == c[k].addr && x + SIZE < 0x1_0000_0000
    requires !j.live && 0 <= j.size < 0x1_0000_0000 && j.addr == if left then p else x
    requires next == FirstFree(c[t..], stop)
    requires left ==> c' == c[..i] + [j] + c[t..]
    requires !left ==> c' == c[..i] + [c[i]] + (c[i + 1..k] + [j] + c[t..])
    ensures Linked(Spliced(m, p, x, left, j.size, next), c', stop, raw - {x})
  {
    PartsClear(c, i, k, t);
    Parting(m, c, i, k, t, stop, raw);
    assert j == Block(j.addr, j.size, false);
    hide *;
    if left {
      SplicedLeft(m, c[..i], p, x, c[t..], j.size, next, stop, raw);
    } else {
      assert forall b | b in c[i + 1..k] :: b.live;
      SplicedAfter(m, c[..i], c[i], c[i + 1..k], x, c[t..], j.size, next, stop, FirstFree(c[k + 1..], stop), raw);
    }
  }

  // ---------- the heap ----------

  class Heap {
    /** `&heap_block_start`, HEAP_ADDRESS and HEAP_AVAILABLE_SIZE. */
    const start: Word
    const pool: Word
    const poolSize: Word
    var memory: Memory
    var blockEnd: Word
    var remaining: Word
    var minimum: Word
    ghost var blocks: seq<Block>
    /** Every call so far. */
    ghost var calls: seq<PoolRuns.Op>

    constructor (start: Word, pool: Word, poolSize: Word, memory: Memory)
      ensures this.start == start && this.pool == pool && this.poolSize == poolSize
      ensures blockEnd == NULL && State() == Pool([], 0) && calls == []
    {
      this.start, this.pool, this.poolSize, this.memory := start, pool, poolSize, memory;
      blockEnd, remaining, minimum, blocks, calls := NULL, 0, 0, [], [];
    }

    /** The pool holds at least one block and lies clear of the list head. */
    ghost predicate Placed() {
      && 0 < start && start + HEADER < 0x1_0000_0000
      && 0 < pool && 32 <= poolSize < ALLOCATED && pool + poolSize < 0x1_0000_0000
      && (start + HEADER <= pool || pool + poolSize <= start)
    }

    /** The pool without what alignment and the end marker take. */
    ghost function Lo(): int {
      (pool + ALIGNMENT - 1) / ALIGNMENT * ALIGNMENT
    }

    ghost function Hi(): int {
      (pool + poolSize - HEADER) / ALIGNMENT * ALIGNMENT
    }

    lemma Bounds()
      requires Placed()
      ensures pool <= Lo() < pool + ALIGNMENT && Lo() + HEADER <= Hi() && Hi() + HEADER <= pool + poolSize
      ensures Lo() % ALIGNMENT == Hi() % ALIGNMENT == 0 && Hi() - Lo() < ALLOCATED
      ensures start + HEADER <= Lo() || Hi() + HEADER <= start
    {
    }

    /** The pool starts at its first multiple of 8 and ends at the last that leaves room for a header. */
    lemma PoolEnds()
      requires Placed()
      ensures pool <= Lo() < pool + 8 && pool + poolSize - 16 < Hi() <= pool + poolSize - 8
      ensures Lo() % 8 == Hi() % 8 == 0
    {
    }

    /** Everything but the byte counts. */
    ghost predicate Threaded(raw: set<int>)
      reads `memory, `blockEnd, `blocks
    {
      && Placed() && blockEnd == Hi() && Header(memory, blockEnd, NULL, 0)
      && Tiled(blocks, Lo(), Hi()) && Linked(memory, Chain(start, blocks), Hi(), raw)
    }

    ghost predicate Valid()
      reads `memory, `blockEnd, `remaining, `minimum, `blocks
    {
      && Placed()
      && if blockEnd == NULL then blocks == [] else
         Threaded({}) && Spaced(blocks) && remaining == Total(blocks, false) && minimum <= remaining
    }

    /** port_memory.c:77-79: the last free block before `block`, or the list head. */
    method FindPlace(block: Word, ghost k: nat, ghost raw: set<int>) returns (pit: Word, ghost i: nat, ghost j: nat)
      requires Threaded(raw) && k < |blocks| && blocks[k].live && blocks[k].addr == block
      ensures i <= k && k + 1 < j && Gap(i, j) && pit == Chain(start, blocks)[i].addr
      ensures Header(memory, pit, NextAddr(j), Chain(start, blocks)[i].size)
    {
      ghost var c := Chain(start, blocks);
      pit, i := start, 0;
      j := FreeHeader(memory, c, blockEnd, raw, 0);
      while memory[pit] < block
        invariant i <= k && pit == c[i].addr && Gap(i, j)
        invariant Header(memory, pit, NextAddr(j), c[i].size)
        decreases k - i
      {
        BlockOrder(c, j, k + 1);
        i, pit := j, memory[pit];
        j := FreeHeader(memory, c, blockEnd, raw, i);
      }
      BlockOrder(c, j, k + 1);
    }

    /** Block `i` of the chain is free and so is the `j`-th, if there is one, but none between. */
    ghost predicate Gap(i: nat, j: nat)
      reads `blocks
    {
      var c := Chain(start, blocks);
      && i < j <= |c| && !c[i].live && (j < |c| ==> !c[j].live)
      && forall l | i < l < j :: c[l].live
    }

    ghost function NextAddr(j: nat): int
      reads `blocks
    {
      var c := Chain(start, blocks);
      if j < |c| then c[j].addr else Hi()
    }

    lemma BlockOrder(c: seq<Block>, i: nat, j: nat)
      requires Placed() && Tiled(blocks, Lo(), Hi()) && c == Chain(start, blocks) && 0 < i <= |c| && 0 < j < |c|
      ensures NextAddr(i) < c[j].addr <==> i < j
    {
      if i < |c| {
        TiledLess(blocks, Lo(), Hi(), i - 1, j - 1);
      } else {
        TiledAt(blocks, Lo(), Hi(), j - 1);
      }
    }

    /** What comparing the end of the block before with the new block finds out. */
    lemma LeftNeighbour(k: nat, i: nat, j: nat)
      requires Placed() && Tiled(blocks, Lo(), Hi()) && k < |blocks| && blocks[k].live && i <= k && k + 1 < j
                 && Gap(i, j)
      ensures var bs, p := blocks, Chain(start, blocks)[i];
              && 0 <= p.addr && p.addr + SIZE < 0x1_0000_0000 && p.size >= 0
              && (p.addr + HEADER <= bs[k].addr || bs[k].addr + HEADER <= p.addr)
              && (p.addr + p.size == bs[k].addr <==> i > 0 && i == k)
              && From(bs, k) == (if i > 0 && i == k then k - 1 else k)
              && (i > 0 && i == k ==> p == bs[k - 1])
    {
      hide Tiled, Lo, Hi, Gap, From, Chain;
      LeftFree(k, i, j);
      Bounds();
      TiledAt(blocks, Lo(), Hi(), k);
      if i > 0 {
        TiledLess(blocks, Lo(), Hi(), i - 1, k);
        TiledAt(blocks, Lo(), Hi(), i - 1);
      }
    }

    lemma LeftFree(k: nat, i: nat, j: nat)
      requires k < |blocks| && i <= k && k + 1 < j && Gap(i, j)
      ensures From(blocks, k) == if i > 0 && i == k then k - 1 else k
      ensures |Chain(start, blocks)| == |blocks| + 1
      ensures Chain(start, blocks)[i] == if i > 0 then blocks[i - 1] else Block(start, 0, false)
    {
      assert k > 0 ==> Chain(start, blocks)[k] == blocks[k - 1];
    }

    /** What comparing the end of the new block with the next free one finds out. */
    lemma RightNeighbour(k: nat, i: nat, j: nat, raw: set<int>)
      requires Threaded(raw) && k < |blocks| && blocks[k].live && i <= k && k + 1 < j && Gap(i, j)
      ensures var bs, next, p := blocks, NextAddr(j), Chain(start, blocks)[i].addr;
              && blockEnd == Hi() && (To(bs, k) == k + 1 || To(bs, k) == k + 2)
              && 0 <= bs[k].addr && bs[k].addr + bs[k].size <= Hi() && bs[k].size >= HEADER
              && (bs[k].addr + bs[k].size == next <==> To(bs, k) == k + 2 || k + 1 == |bs|)
              && (To(bs, k) == k + 2 ==>
                    next == bs[k + 1].addr && next + bs[k + 1].size <= Hi() && next < Hi()
                    && (next + HEADER <= p || p + HEADER <= next)
                    && Header(memory, next, FirstFree(bs[k + 2..], Hi()), bs[k + 1].size))
              && (To(bs, k) != k + 2 ==> next == FirstFree(bs[k + 1..], Hi()))
              && (k + 1 == |bs| ==> next == Hi())
    {
      TiledAt(blocks, Lo(), Hi(), k);
      Bounds();
      NextFree(k, i, j, raw);
      if k + 1 < |blocks| {
        NextBlock(k, i, j, raw);
      }
    }

    /** The `j`-th block of the chain is the first free one after block `k`. */
    lemma NextFree(k: nat, i: nat, j: nat, raw: set<int>)
      requires Threaded(raw) && k < |blocks| && blocks[k].live && i <= k && k + 1 < j && Gap(i, j)
      ensures NextAddr(j) == FirstFree(blocks[k + 1..], Hi())
    {
      var c := Chain(start, blocks);
      FirstFreeIs(blocks[k + 1..], j - k - 2, Hi());
    }

    lemma NextBlock(k: nat, i: nat, j: nat, raw: set<int>)
      requires Threaded(raw) && k + 1 < |blocks| && blocks[k].live && i <= k && k + 1 < j && Gap(i, j)
      ensures var bs, next, p := blocks, NextAddr(j), Chain(start, blocks)[i].addr;
              && (bs[k].addr + bs[k].size == next <==> !bs[k + 1].live)
              && (!bs[k + 1].live ==>
                    next == bs[k + 1].addr && next + bs[k + 1].size <= Hi() && next < Hi()
                    && (next + HEADER <= p || p + HEADER <= next)
                    && Header(memory, next, FirstFree(bs[k + 2..], Hi()), bs[k + 1].size))
    {
      var c, bs := Chain(start, blocks), blocks;
      assert c[k + 2] == bs[k + 1] && c[k + 3..] == bs[k + 2..];
      TiledAt(bs, Lo(), Hi(), k);
      TiledAt(bs, Lo(), Hi(), k + 1);
      TiledApart(bs, Lo(), Hi(), k, k + 1);
      Bounds();
      if j < |c| {
        TiledLess(bs, Lo(), Hi(), k, j - 1);
      }
      if !bs[k + 1].live {
        ChainApart(start, bs, Lo(), Hi());
        var l := FreeHeader(memory, c, Hi(), raw, k + 2);
      }
    }

    /** `static_insert_block_into_free_list`. */
    method Insert(block: Word, ghost k: nat, ghost raw: set<int>)
      requires Threaded(raw) && k < |blocks| && blocks[k].live && blocks[k].addr == block && block in raw
      requires block + SIZE in memory && memory[block + SIZE] == blocks[k].size
      modifies this`memory, this`blocks
      ensures Threaded(raw - {block}) && blocks == Released(old(blocks), k)
      ensures forall b | b in old(blocks) && b.live && b.addr != block :: Same(old(memory), memory, b.addr)
      ensures block in old(memory) ==> Idle(memory, block)
    {
      var pit;
      ghost var i, j, size, next;
      pit, i, j := FindPlace(block, k, raw);
      ghost var m := memory;
      size, next := Link(pit, block, k, i, j, raw);
      InsertDone(m, k, i, j, raw, pit, block, size, next);
      LeftNeighbour(k, i, j);
      JoinedSize(k);
      BlockSize(k);
      blocks := Released(blocks, k);
    }

    lemma JoinedSize(k: nat)
      requires Placed() && Tiled(blocks, Lo(), Hi()) && k < |blocks|
      ensures 0 <= Joined(blocks, k).size < ALLOCATED
    {
      Bounds();
      ReleasedTiled(blocks, Lo(), Hi(), k);
      TiledAt(Released(blocks, k), Lo(), Hi(), From(blocks, k));
    }

    lemma BlockSize(k: nat)
      requires Placed() && Tiled(blocks, Lo(), Hi()) && k < |blocks|
      ensures 0 <= blocks[k].size < ALLOCATED
    {
      Bounds();
      TiledAt(blocks, Lo(), Hi(), k);
    }

    lemma InsertDone(m: Memory, k: nat, i: nat, j: nat, raw: set<int>, pit: Word, block: Word, size: Word, next: Word)
      requires Placed() && Header(m, Hi(), NULL, 0) && Tiled(blocks, Lo(), Hi())
                 && Linked(m, Chain(start, blocks), Hi(), raw)
      requires k < |blocks| && blocks[k].live && blocks[k].addr == block && block + SIZE < 0x1_0000_0000
      requires i <= k && k + 1 < j && Gap(i, j) && pit == Chain(start, blocks)[i].addr && pit + SIZE < 0x1_0000_0000
      requires size == Joined(blocks, k).size && next == FirstFree(blocks[To(blocks, k)..], Hi())
      requires memory == Spliced(m, pit, block, i > 0 && i == k, size, next)
      ensures var bs := Released(blocks, k);
              Tiled(bs, Lo(), Hi()) && Linked(memory, Chain(start, bs), Hi(), raw - {block})
                && Header(memory, Hi(), NULL, 0)
      ensures forall b | b in blocks && b.live && b.addr != block :: Same(m, memory, b.addr)
    {
      var c := Chain(start, blocks);
      hide *;
      GapLive(k, i, j);
      Bounds();
      ReleasedTiled(blocks, Lo(), Hi(), k);
      InsertLinked(m, start, blocks, c, k, i, Lo(), Hi(), raw, pit, block, size, next);
      InsertKeeps(m, k, i, pit, block, size, next);
    }

    lemma GapFree(i: nat, j: nat)
      requires Gap(i, j)
      ensures j < |Chain(start, blocks)| ==> 0 < j <= |blocks| && !blocks[j - 1].live
    {
    }

    lemma GapLive(k: nat, i: nat, j: nat)
      requires i <= k && k + 1 < j && Gap(i, j)
      ensures !Chain(start, blocks)[i].live && forall l | i < l <= k :: Chain(start, blocks)[l].live
    {
    }

    lemma InsertKeeps(m: Memory, k: nat, i: nat, pit: Word, block: Word, size: Word, next: Word)
      requires Placed() && Header(m, Hi(), NULL, 0) && Tiled(blocks, Lo(), Hi())
      requires k < |blocks| && blocks[k].live && blocks[k].addr == block && block + SIZE < 0x1_0000_0000
      requires i <= k && !Chain(start, blocks)[i].live && pit == Chain(start, blocks)[i].addr
                 && pit + SIZE < 0x1_0000_0000
      requires memory == Spliced(m, pit, block, i > 0 && i == k, size, next)
      ensures Header(memory, Hi(), NULL, 0)
      ensures forall b | b in blocks && b.live && b.addr != block :: Same(m, memory, b.addr)
    {
      var c := Chain(start, blocks);
      Bounds();
      ChainApart(start, blocks, Lo(), Hi());
      TakenApart(|c|, i, k + 1);
      SplicedSame(m, pit, block, i > 0 && i == k, size, next, Hi());
      forall b | b in blocks && b.live && b.addr != block
        ensures Same(m, memory, b.addr)
      {
        var l :| 0 <= l < |blocks| && blocks[l] == b;
        assert c[l + 1] == b && c[k + 1] == blocks[k] && l + 1 != i && l != k;
        HeadersApart(c, l + 1, i);
        HeadersApart(c, l + 1, k + 1);
        SplicedSame(m, pit, block, i > 0 && i == k, size, next, b.addr);
      }
    }

    /** port_memory.c:81-101. */
    method Link(pit: Word, block0: Word, ghost k: nat, ghost i: nat, ghost j: nat, ghost raw: set<int>)
      returns (ghost size: Word, ghost next: Word)
      requires Threaded(raw) && k < |blocks| && blocks[k].live && blocks[k].addr == block0 && block0 in raw
      requires block0 + SIZE in memory && memory[block0 + SIZE] == blocks[k].size
      requires i <= k && k + 1 < j && Gap(i, j) && pit == Chain(start, blocks)[i].addr
      requires Header(memory, pit, NextAddr(j), Chain(start, blocks)[i].size)
      modifies this`memory
      ensures pit + SIZE < 0x1_0000_0000 && block0 + SIZE < 0x1_0000_0000
      ensures size == Joined(blocks, k).size && next == FirstFree(blocks[To(blocks, k)..], Hi())
      ensures memory == Spliced(old(memory), pit, block0, i > 0 && i == k, size, next)
    {
      hide Linked, Tiled, FirstFree, Gap, Chain, Joined, To, From;
      LeftNeighbour(k, i, j);
      RightNeighbour(k, i, j, raw);
      JoinedWanted(blocks, Lo(), Hi(), k);
      ghost var m := memory;
      var block := block0;
      if pit + memory[pit + SIZE] == block {
        memory := memory[pit + SIZE := memory[pit + SIZE] + memory[block + SIZE]];
        block := pit;
      }
      if block + memory[block + SIZE] == memory[pit] {
        if memory[pit] != blockEnd {
          memory := memory[block + SIZE := memory[block + SIZE] + memory[memory[pit] + SIZE]];
          memory := memory[block := memory[memory[pit]]];
        } else {
          memory := memory[block := blockEnd];
        }
      } else {
        memory := memory[block := memory[pit]];
      }
      if pit != block {
        memory := memory[pit := block];
      }
      size, next := Joined(blocks, k).size, FirstFree(blocks[To(blocks, k)..], Hi());
    }

    ghost function State(): Pool
      reads `minimum, `blocks
    {
      Pool(blocks, minimum)
    }

    /** port_memory.c:43-57: the first block and the end marker. */
    method Limits() returns (first: Word, end: Word)
      requires Placed()
      ensures first == Lo() && end == Hi()
    {
      Bounds();
      RoundDown(pool + ALIGNMENT - 1);
      RoundDown(pool + poolSize - HEADER);
      var total, address := poolSize, pool;
      if address % ALIGNMENT != 0 {
        address := address + ALIGNMENT - 1;
        address := address - address % ALIGNMENT;
        total := total - (address - pool);
      }
      first := address;
      address := first + total;
      address := address - HEADER;
      end := address - address % ALIGNMENT;
    }

    /** `static_heap_init`. */
    method Init()
      requires Placed() && blockEnd == NULL
      modifies this`memory, this`blockEnd, this`remaining, this`minimum, this`blocks
      ensures Valid() && blockEnd != NULL && State() == Opened(Pool([], 0), Lo(), Hi())
    {
      hide Lo, Hi, Valid, Threaded, Linked, Tiled, Chain, Spaced, Total, FirstFree, Header, Placed;
      Bounds();
      var first, address := Limits();
      InitWritten(memory, start, first, address, address - first);
      memory := memory[start := first][start + SIZE := 0];
      blockEnd := address;
      memory := memory[blockEnd + SIZE := 0][blockEnd := NULL];
      memory := memory[first + SIZE := address - first];
      memory := memory[first := blockEnd];
      minimum := memory[first + SIZE];
      remaining := memory[first + SIZE];
      blocks := [Block(first, address - first, false)];
      Ready();
    }

    lemma InitWritten(m: Memory, a: Word, b: Word, c: Word, size: Word)
      requires Placed() && a == start && b == Lo() && c == Hi()
      ensures a + SIZE < 0x1_0000_0000 && b + SIZE < 0x1_0000_0000 && c + SIZE < 0x1_0000_0000
      ensures var m' := m[a := b][a + SIZE := 0][c + SIZE := 0][c := NULL][b + SIZE := size][b := c];
              Header(m', a, b, 0) && Header(m', b, c, size) && Header(m', c, NULL, 0)
    {
      Bounds();
      hide Lo, Hi;
    }

    lemma Ready()
      requires Placed() && blockEnd == Hi() && blocks == [Block(Lo(), Hi() - Lo(), false)]
      requires Header(memory, start, Lo(), 0) && Header(memory, Lo(), Hi(), Hi() - Lo())
                 && Header(memory, Hi(), NULL, 0)
      requires remaining == minimum == Hi() - Lo()
      ensures Valid() && State() == Opened(Pool([], 0), Lo(), Hi())
    {
      Bounds();
      Opening(memory, start, Lo(), Hi());
    }

    /** port_memory.c:124-129: the first free block of at least `size` bytes, or the end. */
    method Search(size: Word) returns (pprev: Word, pblock: Word, ghost i: nat, ghost j: nat)
      requires Valid() && blockEnd != NULL && size > 0
      ensures Gap(i, j) && pprev == Chain(start, blocks)[i].addr && pblock == NextAddr(j)
      ensures Header(memory, pprev, pblock, Chain(start, blocks)[i].size)
      ensures j == FirstFit(blocks, size) + 1 && (pblock == blockEnd <==> j == |Chain(start, blocks)|)
    {
      hide Linked, Tiled, FirstFree, Total, Spaced;
      ghost var c := Chain(start, blocks);
      Bounds();
      pprev, i := start, 0;
      j := FreeHeader(memory, c, blockEnd, {}, 0);
      assert memory[start] == NextAddr(j);
      pblock := memory[start];
      ghost var l := NextHeader(j);
      while memory[pblock + SIZE] < size && memory[pblock] != NULL
        invariant Gap(i, j) && pprev == c[i].addr && pblock == NextAddr(j) && Header(memory, pprev, pblock, c[i].size)
        invariant forall n | 0 <= n < j :: c[n].live || c[n].size < size
        invariant j < |c| ==> Gap(j, l) && Header(memory, pblock, NextAddr(l), c[j].size) && NextAddr(l) > 0
        invariant j == |c| ==> pblock == blockEnd
        decreases |c| - j
      {
        pprev, i := pblock, j;
        pblock, j := memory[pblock], l;
        l := NextHeader(j);
      }
      if j < |c| {
        BlockOrder(c, j, j);
        BlockOrder(c, |c|, j);
      }
      forall n | 0 <= n < j - 1
        ensures blocks[n].live || blocks[n].size < size
      {
        assert c[n + 1] == blocks[n];
      }
      FirstFitIs(blocks, size, j - 1);
    }

    /** The header of the `j`-th block of the chain, which is free. */
    lemma NextHeader(j: nat) returns (l: nat)
      requires Threaded({}) && 0 < j <= |Chain(start, blocks)|
                 && (j < |Chain(start, blocks)| ==> !Chain(start, blocks)[j].live)
      ensures j < |Chain(start, blocks)| ==>
                Gap(j, l) && Header(memory, NextAddr(j), NextAddr(l), Chain(start, blocks)[j].size) && NextAddr(l) > 0
    {
      var c := Chain(start, blocks);
      l := j;
      if j < |c| {
        l := FreeHeader(memory, c, Hi(), {}, j);
        Bounds();
        if l < |c| {
          TiledAt(blocks, Lo(), Hi(), l - 1);
        }
      }
    }

    /** port_memory.c:133-138: takes block `j` of the chain out of the list and cuts off what is
        left over, if anything, as a block of its own at `rest`. */
    method Take(pprev: Word, pblock: Word, size: Word, ghost i: nat, ghost j: nat) returns (rest: Word)
      requires Valid() && blockEnd != NULL && Gap(i, j) && j < |Chain(start, blocks)|
      requires pprev == Chain(start, blocks)[i].addr && pblock == NextAddr(j)
      requires Header(memory, pprev, pblock, Chain(start, blocks)[i].size)
      requires HEADER <= size <= blocks[j - 1].size && size % ALIGNMENT == 0
      modifies this`memory, this`blocks
      ensures var b := old(blocks)[j - 1]; var ds := Cut(b, size);
              && blocks == old(blocks)[..j - 1] + ds + old(blocks)[j..]
              && Threaded(if rest == NULL then {pblock} else {pblock, rest})
              && rest == (if |ds| == 2 then ds[1].addr else NULL)
              && pblock == b.addr && Sized(memory, ds[0]) && (|ds| == 2 ==> Sized(memory, ds[1]))
              && (rest == NULL <==> b.size == size) && ds[0].size == size
    {
      hide Tiled, Linked, Spaced, Total, FirstFree, Lo, Hi;
      TakeReady(pblock, j);
      TakenApart(i, i, j);
      CutExact(blocks[j - 1], size);
      ghost var m, b, next := memory, blocks[j - 1], memory[pblock];
      memory := memory[pprev := memory[pblock]];
      rest := NULL;
      if memory[pblock + SIZE] - size > MINIMUM {
        rest := pblock + size;
        memory := memory[rest + SIZE := memory[pblock + SIZE] - size];
        memory := memory[pblock + SIZE := size];
      }
      TakeDone(m, pprev, pblock, size, next, i, j);
      assert (set d | d in Cut(b, size) :: d.addr) == if rest == NULL then {pblock} else {pblock, rest};
      blocks := blocks[..j - 1] + Cut(b, size) + blocks[j..];
    }

    lemma TakeReady(pblock: Word, j: nat)
      requires Valid() && blockEnd != NULL && 0 < j < |Chain(start, blocks)| && !Chain(start, blocks)[j].live
                 && pblock == NextAddr(j)
      ensures pblock == blocks[j - 1].addr && pblock + blocks[j - 1].size <= Hi() && Hi() + HEADER < 0x1_0000_0000
      ensures Header(memory, pblock, FirstFree(Chain(start, blocks)[j + 1..], Hi()), blocks[j - 1].size)
    {
      Bounds();
      TiledAt(blocks, Lo(), Hi(), j - 1);
      var l := FreeHeader(memory, Chain(start, blocks), Hi(), {}, j);
    }

    lemma TakeDone(m: Memory, pprev: Word, pblock: Word, size: Word, next: Word, i: nat, j: nat)
      requires Placed() && blockEnd == Hi() && Header(m, blockEnd, NULL, 0) && Tiled(blocks, Lo(), Hi())
      requires Linked(m, Chain(start, blocks), Hi(), {})
      requires Gap(i, j) && j < |Chain(start, blocks)| && pprev == Chain(start, blocks)[i].addr
                 && pblock == blocks[j - 1].addr
      requires Header(m, pprev, pblock, Chain(start, blocks)[i].size)
      requires HEADER <= size <= blocks[j - 1].size && size % ALIGNMENT == 0
      requires next == FirstFree(Chain(start, blocks)[j + 1..], Hi()) && pblock + blocks[j - 1].size <= Hi()
      requires Sized(m, blocks[j - 1]) && Hi() + HEADER < 0x1_0000_0000
      requires memory == Taken(m, pprev, pblock, next, blocks[j - 1], size)
      ensures var ds := Cut(blocks[j - 1], size); var bs := blocks[..j - 1] + ds + blocks[j..];
              && Tiled(bs, Lo(), Hi()) && Linked(memory, Chain(start, bs), Hi(), set d | d in ds :: d.addr)
              && Header(memory, blockEnd, NULL, 0)
              && Sized(memory, ds[0]) && (|ds| == 2 ==> Sized(memory, ds[1]))
    {
      var c, ds := Chain(start, blocks), Cut(blocks[j - 1], size);
      CutTiled(blocks, Lo(), Hi(), j - 1, size);
      TakenFacts(m, pprev, next, size, i, j);
      CutChain(start, blocks, j, ds);
      assert forall d | d in ds :: d.live;
      hide *;
      Unlinked(m, memory, c, i, j, ds, Hi(), set d | d in ds :: d.addr);
    }

    lemma TakenFacts(m: Memory, pprev: Word, next: Word, size: Word, i: nat, j: nat)
      requires Placed() && Header(m, Hi(), NULL, 0) && Tiled(blocks, Lo(), Hi())
      requires i < j <= |blocks| && pprev == Chain(start, blocks)[i].addr && 0 <= blocks[j - 1].addr
      requires Header(m, pprev, blocks[j - 1].addr, Chain(start, blocks)[i].size)
      requires HEADER <= size <= blocks[j - 1].size && size % ALIGNMENT == 0
      requires blocks[j - 1].addr + blocks[j - 1].size <= Hi() && Hi() + HEADER < 0x1_0000_0000
                 && Sized(m, blocks[j - 1])
      requires memory == Taken(m, pprev, blocks[j - 1].addr, next, blocks[j - 1], size)
      ensures Header(memory, Hi(), NULL, 0) && Header(memory, pprev, next, Chain(start, blocks)[i].size)
      ensures forall l | 0 <= l <= |blocks| && l != i && l != j :: Same(m, memory, Chain(start, blocks)[l].addr)
      ensures var ds := Cut(blocks[j - 1], size); Sized(memory, ds[0]) && (|ds| == 2 ==> Sized(memory, ds[1]))
    {
      hide Tiled, Linked, FirstFree, Lo, Hi, Placed;
      TakenApart(i, i, j);
      TakenApart(|blocks| + 1, i, j);
      TakenSame(m, pprev, next, blocks[j - 1], size, Hi());
      forall l | 0 <= l <= |blocks| && l != i && l != j
        ensures Same(m, memory, Chain(start, blocks)[l].addr)
      {
        TakenApart(l, i, j);
        TakenSame(m, pprev, next, blocks[j - 1], size, Chain(start, blocks)[l].addr);
      }
    }

    lemma TakenApart(l: nat, i: nat, j: nat)
      requires Placed() && Tiled(blocks, Lo(), Hi()) && l <= |blocks| + 1 && i < j <= |blocks|
      ensures var c, b := Chain(start, blocks), blocks[j - 1];
              var a := if l < |c| then c[l].addr else Hi();
              && (l != i ==> a + HEADER <= c[i].addr || c[i].addr + HEADER <= a)
              && (l != j ==> a + HEADER <= b.addr || b.addr + b.size <= a)
              && b.size >= HEADER && b.size % ALIGNMENT == 0
    {
      hide Tiled, Lo, Hi;
      Bounds();
      var c := Chain(start, blocks);
      ChainApart(start, blocks, Lo(), Hi());
      TiledAt(blocks, Lo(), Hi(), j - 1);
      if i > 0 {
        TiledAt(blocks, Lo(), Hi(), i - 1);
      }
      if 0 < l < j {
        TiledApart(blocks, Lo(), Hi(), l - 1, j - 1);
        TiledAt(blocks, Lo(), Hi(), l - 1);
      } else if j < l < |c| {
        TiledApart(blocks, Lo(), Hi(), j - 1, l - 1);
      }
    }

    /** port_memory.c:133-148: hands out `size` bytes of block `j` of the chain. */
    method Grant(pprev: Word, pblock: Word, size: Word, ghost i: nat, ghost j: nat)
      requires Valid() && blockEnd != NULL && Gap(i, j) && j < |Chain(start, blocks)|
      requires pprev == Chain(start, blocks)[i].addr && pblock == NextAddr(j)
      requires Header(memory, pprev, pblock, Chain(start, blocks)[i].size)
      requires HEADER <= size <= blocks[j - 1].size && size % ALIGNMENT == 0
      modifies this`memory, this`blocks, this`remaining, this`minimum
      ensures Valid() && blockEnd != NULL
      ensures blocks == Carved(old(blocks), j - 1, size)
      ensures minimum == if Total(blocks, false) < old(minimum) then Total(blocks, false) else old(minimum)
    {
      ghost var total := remaining;
      ghost var b := Detach(pprev, pblock, size, i, j);
      assert total == remaining;
      Settled(memory, j - 1);
      remaining := remaining - memory[pblock + SIZE];
      if remaining < minimum {
        minimum := remaining;
      }
      memory := memory[pblock + SIZE := memory[pblock + SIZE] + ALLOCATED];
      memory := memory[pblock := NULL];
    }

    /** port_memory.c:133-140; only the header of the block handed out, `b`, is not finished. */
    method Detach(pprev: Word, pblock: Word, size: Word, ghost i: nat, ghost j: nat) returns (ghost b: Block)
      requires Valid() && blockEnd != NULL && Gap(i, j) && j < |Chain(start, blocks)|
      requires pprev == Chain(start, blocks)[i].addr && pblock == NextAddr(j)
      requires Header(memory, pprev, pblock, Chain(start, blocks)[i].size)
      requires HEADER <= size <= blocks[j - 1].size && size % ALIGNMENT == 0
      modifies this`memory, this`blocks
      ensures blocks == Carved(old(blocks), j - 1, size) && Threaded({pblock}) && Spaced(blocks)
      ensures b == blocks[j - 1] && b.live && b.addr == pblock && Sized(memory, b)
      ensures Total(blocks, false) == old(Total(blocks, false)) - b.size
      ensures 0 <= b.size <= old(Total(blocks, false))
    {
      ghost var bs := blocks;
      hide Linked, Tiled, FirstFree, Chain, Spaced, Total, Carved, Released;
      GapFree(i, j);
      GrantFacts(bs, Lo(), Hi(), j - 1, size);
      var rest := Take(pprev, pblock, size, i, j);
      b := Cut(bs[j - 1], size)[0];
      if rest != NULL {
        assert blocks[j - 1] == b;
        assert {pblock, rest} - {rest} == {pblock};
        Insert(rest, j, {pblock, rest});
      }
    }

    /** The header of block `k` is finished: port_memory.c:147-148. */
    lemma Settled(m: Memory, k: nat)
      requires k < |blocks| && blocks[k].live && Sized(m, blocks[k])
      requires Placed() && Header(m, Hi(), NULL, 0) && Tiled(blocks, Lo(), Hi())
      requires Linked(m, Chain(start, blocks), Hi(), {blocks[k].addr})
      ensures var a, size := blocks[k].addr, blocks[k].size;
              && 0 <= a && a + HEADER < 0x1_0000_0000 && 0 <= size && size + ALLOCATED < 0x1_0000_0000
              && Linked(Finished(m, a, size), Chain(start, blocks), Hi(), {})
                 && Header(Finished(m, a, size), Hi(), NULL, 0)
    {
      var c := Chain(start, blocks);
      ChainAround(k);
      SettledChain(m, c[..k + 1], blocks[k], c[k + 2..], Hi());
    }

    /** The heap is what the calls so far make of it. */
    ghost predicate Consistent()
      reads this
    {
      Valid() && State() == PoolRuns.Run(calls, Lo(), Hi())
    }

    /** `mem_alloc`. */
    method Alloc(size: Word) returns (ret: Word)
      requires Consistent()
      modifies this
      ensures Consistent() && calls == old(calls) + [PoolRuns.Alloc(size)]
      ensures var p := Opened(old(State()), Lo(), Hi());
              && State() == Allocated(p, size) && ret == Payload(p, size)
              && (ret != NULL ==> PoolRuns.Serves(p, State(), ret - 8, size))
    {
      hide *;
      ConsistentParts();
      AllocTakes(size);
      NextAlloc(size);
      ret := Serve(size);
      calls := calls + [PoolRuns.Alloc(size)];
      NowConsistent();
    }

    lemma ConsistentParts()
      requires Consistent()
      ensures Valid() && Placed() && State() == PoolRuns.Run(calls, Lo(), Hi())
    {
    }

    lemma NowConsistent()
      requires Valid() && State() == PoolRuns.Run(calls, Lo(), Hi())
      ensures Consistent()
    {
    }

    lemma NextAlloc(size: int)
      ensures PoolRuns.Run(calls + [PoolRuns.Alloc(size)], Lo(), Hi())
           == Allocated(Opened(PoolRuns.Run(calls, Lo(), Hi()), Lo(), Hi()), size)
    {
      hide Lo, Hi, Opened, Allocated;
      PoolRuns.RunSnoc(calls, PoolRuns.Alloc(size), Lo(), Hi());
    }

    lemma AllocTakes(size: Word)
      requires Placed() && State() == PoolRuns.Run(calls, Lo(), Hi())
      ensures var p := Opened(State(), Lo(), Hi());
              Payload(p, size) != NULL ==> PoolRuns.Serves(p, Allocated(p, size), Payload(p, size) - 8, size)
    {
      hide *;
      var p := Opened(State(), Lo(), Hi());
      PoolOpen(p);
      if Payload(p, size) != NULL {
        PoolRuns.AllocationTakes(p, size, Lo(), Hi());
      }
    }

    lemma PoolOpen(p: Pool)
      requires Placed() && p == Opened(State(), Lo(), Hi()) && State() == PoolRuns.Run(calls, Lo(), Hi())
      ensures WellFormed(p, Lo(), Hi()) && PoolRuns.Bounds(Lo(), Hi())
    {
      Bounds();
      hide Lo, Hi, Placed, Opened;
      PoolRuns.RunSound(calls, Lo(), Hi());
      PoolRuns.OpenedSound(State(), Lo(), Hi());
    }

    /** port_memory.c:106-155. */
    method Serve(size0: Word) returns (ret: Word)
      requires Valid()
      modifies this`memory, this`blockEnd, this`remaining, this`minimum, this`blocks
      ensures Valid()
      ensures var p := Opened(old(State()), Lo(), Hi());
              State() == Allocated(p, size0) && ret == Payload(p, size0)
    {
      hide Valid, State, Allocated, Payload, Rounded;
      OpenedIs();
      if blockEnd == NULL {
        Init();
      }
      ret := NULL;
      if IsAllocated(size0) {
        NoneServed(State(), size0);
      } else {
        var size := Padded(size0);
        ret := Provide(size, size0);
      }
    }

    lemma OpenedIs()
      requires Valid()
      ensures Placed()
      ensures Opened(State(), Lo(), Hi()) == if blockEnd == NULL then Opened(Pool([], 0), Lo(), Hi()) else State()
    {
      Bounds();
    }

    lemma NoneServed(p: Pool, size0: int)
      requires size0 >= ALLOCATED || size0 == 0
      ensures Allocated(p, size0) == p && Payload(p, size0) == NULL
    {
    }

    /** port_memory.c:116-121. */
    method Padded(size0: Word) returns (size: Word)
      requires size0 < ALLOCATED
      ensures size == if size0 > 0 then Rounded(size0) else 0
    {
      size := size0;
      if size > 0 {
        size := size + HEADER;
        if size % ALIGNMENT != 0 {
          size := size + (ALIGNMENT - size % ALIGNMENT);
        }
        RoundedFacts(size0);
      }
    }

    /** port_memory.c:123-150. */
    method Provide(size: Word, ghost size0: Word) returns (ret: Word)
      requires Valid() && blockEnd != NULL && size0 < ALLOCATED && size == if size0 > 0 then Rounded(size0) else 0
      modifies this`memory, this`remaining, this`minimum, this`blocks
      ensures Valid() && State() == Allocated(old(State()), size0) && ret == Payload(old(State()), size0)
    {
      ret := NULL;
      RoundedParts(size, size0);
      ValidParts();
      hide Valid, Threaded, Tiled, Linked, Spaced, Total, Chain, Carved, Rounded, Lo, Hi;
      if size > 0 && size <= remaining {
        AllocFacts(size);
        var pprev, pblock;
        ghost var i, j;
        pprev, pblock, i, j := Search(size);
        if pblock != blockEnd {
          ret := memory[pprev] + HEADER;
          Grant(pprev, pblock, size, i, j);
        }
      } else if size > 0 {
        AllocFacts(size);
      }
    }

    lemma RoundedParts(size: int, size0: int)
      requires 0 <= size0 && size == if size0 > 0 then Rounded(size0) else 0
      ensures size > 0 <==> size0 > 0
      ensures size > 0 ==> size >= HEADER && size % ALIGNMENT == 0
    {
    }

    lemma ValidParts()
      requires Valid() && blockEnd != NULL
      ensures Threaded({}) && remaining == Total(blocks, false)
    {
    }

    lemma AllocFacts(size: Word)
      requires Threaded({})
      ensures var k := FirstFit(blocks, size);
              && k <= |blocks|
              && (k < |blocks| ==> blocks[k].size >= size && size <= Total(blocks, false))
              && (k < |blocks| ==>
                    Chain(start, blocks)[k + 1] == blocks[k] && blocks[k].addr + 2 * HEADER < 0x1_0000_0000)
    {
      FirstFitFacts(blocks, size);
      Bounds();
      var k := FirstFit(blocks, size);
      if k < |blocks| {
        TiledAt(blocks, Lo(), Hi(), k);
        forall b | b in blocks
          ensures b.size >= 0
        {
          var l :| 0 <= l < |blocks| && blocks[l] == b;
          TiledAt(blocks, Lo(), Hi(), l);
        }
        FitsInTotal(blocks, k);
      }
    }

    /** What `mem_free` may be called with: NULL, the payload of a block, or an address with
        words before it that do not look like the header of a live block, as those of a block
        freed before, even when that has become part of the free block before it. */
    ghost predicate Freeable(pv: Word)
      reads this
    {
      || pv == NULL
      || (exists b :: b in blocks && b.addr + HEADER == pv)
      || Idle(memory, pv - HEADER)
    }

    /** `mem_free`; afterwards another call for `pv` is possible, and would change nothing. */
    method Free(pv: Word)
      requires Consistent() && Freeable(pv)
      modifies this
      ensures Consistent() && calls == old(calls) + [PoolRuns.Free(pv)] && State() == Freed(old(State()), pv)
      ensures pv != NULL ==> Idle(memory, pv - HEADER)
      ensures pv == NULL || old(Idle(memory, pv - HEADER)) ==> memory == old(memory) && State() == old(State())
    {
      Reclaim(pv);
      PoolRuns.RunSnoc(calls, PoolRuns.Free(pv), Lo(), Hi());
      calls := calls + [PoolRuns.Free(pv)];
    }

    /** A second call right after the first; `once` is the memory between them. */
    method FreeAgain(pv: Word) returns (ghost once: Memory)
      requires Consistent() && Freeable(pv)
      modifies this
      ensures Consistent() && State() == Freed(old(State()), pv) && memory == once
    {
      Free(pv);
      once := memory;
      Free(pv);
    }

    /** port_memory.c:160-176. */
    method Reclaim(pv: Word)
      requires Valid() && Freeable(pv)
      modifies this`memory, this`remaining, this`blocks
      ensures Valid() && State() == Freed(old(State()), pv)
      ensures pv != NULL ==> Idle(memory, pv - HEADER)
      ensures pv == NULL || old(Idle(memory, pv - HEADER)) ==> memory == old(memory) && State() == old(State())
    {
      hide *;
      ghost var k := FreeableFacts(pv);
      if pv != NULL {
        var block := pv - HEADER;
        if IsAllocated(memory[block + SIZE]) {
          if memory[block] == NULL {
            Release(block, k);
          }
        }
      }
    }

    /** port_memory.c:169-172. */
    method Release(block: Word, ghost k: nat)
      requires Valid() && blockEnd != NULL && Releasable(block, k)
      modifies this`memory, this`remaining, this`blocks
      ensures Valid() && State() == Pool(Released(old(blocks), k), minimum) && Idle(memory, block)
    {
      Unmark(block, k);
      remaining := remaining + memory[block + SIZE];
      assert {block} - {block} == {};
      hide Threaded, Spaced, Released, Idle, Total;
      Insert(block, k, {block});
    }

    /** `block` is the address of live block `k`, with the header that a live block has. */
    ghost predicate Releasable(block: int, k: nat)
      reads this
    {
      && k < |blocks| && blocks[k].live && blocks[k].addr == block
      && 0 < block && block + SIZE < 0x1_0000_0000 && block in memory && block + SIZE in memory
      && memory[block + SIZE] == blocks[k].size + ALLOCATED && memory[block] == NULL
      && 0 <= blocks[k].size < ALLOCATED && Spaced(Released(blocks, k))
      && Total(Released(blocks, k), false) == Total(blocks, false) + blocks[k].size <= Hi() - Lo() < ALLOCATED
    }

    /** The words before `pv` are the header of live block `k`, or there is nothing to free. */
    lemma FreeableFacts(pv: Word) returns (k: nat)
      requires Valid() && Freeable(pv)
      ensures pv != NULL ==> 0 <= pv - HEADER && pv - HEADER in memory && pv - HEADER + SIZE in memory
      ensures pv != NULL ==> (IsAllocated(memory[pv - HEADER + SIZE]) && memory[pv - HEADER] == NULL <==>
                !Idle(memory, pv - HEADER))
      ensures pv == NULL || Idle(memory, pv - HEADER) ==> Freed(State(), pv) == State()
      ensures pv != NULL && !Idle(memory, pv - HEADER) ==>
                && blockEnd != NULL && Releasable(pv - HEADER, k)
                && Freed(State(), pv) == Pool(Released(blocks, k), minimum)
    {
      hide Valid, Threaded, Spaced, Total, Lo, Hi, Placed;
      k := BlockAt(blocks, pv - HEADER);
      if pv != NULL {
        if exists b :: b in blocks && b.addr == pv - HEADER {
          BlockThere(pv, k);
        } else {
          NoBlock(blocks, pv - HEADER);
        }
      }
    }

    lemma BlockThere(pv: Word, k: nat)
      requires Valid() && k == BlockAt(blocks, pv - HEADER) && exists b :: b in blocks && b.addr == pv - HEADER
      ensures k < |blocks| && blockEnd != NULL
      ensures 0 < pv - HEADER && pv - HEADER in memory && pv - HEADER + SIZE in memory
      ensures if blocks[k].live then Releasable(pv - HEADER, k) else memory[pv - HEADER + SIZE] < ALLOCATED
    {
      var j := FreeFacts(pv - HEADER);
      hide Threaded, Spaced, Released, Total;
    }

    /** A client writes a word of the payload of live block `k`. */
    method Write(address: Word, value: Word, ghost k: nat)
      requires Consistent() && k < |blocks| && blocks[k].live
      requires blocks[k].addr + HEADER <= address && address + SIZE <= blocks[k].addr + blocks[k].size
      modifies this`memory
      ensures Consistent()
    {
      WriteKeeps(address, value, k);
      memory := memory[address := value];
    }

    lemma WriteKeeps(address: Word, value: Word, k: nat)
      requires Threaded({}) && k < |blocks|
      requires blocks[k].addr + HEADER <= address && address + SIZE <= blocks[k].addr + blocks[k].size
      ensures var m := memory[address := value];
              Linked(m, Chain(start, blocks), Hi(), {}) && Header(m, Hi(), NULL, 0)
    {
      hide Tiled, Linked, FirstFree;
      var c, m := Chain(start, blocks), memory[address := value];
      Bounds();
      TiledAt(blocks, Lo(), Hi(), k);
      forall b | b in c
        ensures Same(memory, m, b.addr)
      {
        var l :| 0 <= l < |c| && c[l] == b;
        if 0 < l <= k {
          TiledApart(blocks, Lo(), Hi(), l - 1, k);
          TiledAt(blocks, Lo(), Hi(), l - 1);
        } else if k + 1 < l {
          TiledApart(blocks, Lo(), Hi(), k, l - 1);
        }
      }
      LinkedFrame(memory, m, c, Hi(), {}, {});
    }

    /** port_memory.c:169. */
    method Unmark(block: Word, ghost k: nat)
      requires Threaded({}) && k < |blocks| && blocks[k].live && blocks[k].addr == block
      requires block + SIZE in memory && memory[block + SIZE] == blocks[k].size + ALLOCATED && 0 <= blocks[k].size
      modifies this`memory
      ensures Threaded({block}) && block + SIZE in memory && memory[block + SIZE] == blocks[k].size
      ensures block in old(memory) ==> block in memory
    {
      Resized(memory, k, memory[block + SIZE] - ALLOCATED);
      memory := memory[block + SIZE := memory[block + SIZE] - ALLOCATED];
    }

    lemma FreeFacts(block: int) returns (k: nat)
      requires Threaded({}) && Spaced(blocks) && exists b :: b in blocks && b.addr == block
      ensures k < |blocks| && blocks[k].addr == block && BlockAt(blocks, block) == k
      ensures 0 < block && block + SIZE in memory && block in memory
      ensures blocks[k].live ==> memory[block + SIZE] == blocks[k].size + ALLOCATED && memory[block] == NULL
      ensures !blocks[k].live ==> memory[block + SIZE] == blocks[k].size
      ensures 0 <= blocks[k].size < ALLOCATED
      ensures blocks[k].live ==>
                && Spaced(Released(blocks, k))
                && Total(Released(blocks, k), false) == Total(blocks, false) + blocks[k].size <= Hi() - Lo() < ALLOCATED
    {
      var b :| b in blocks && b.addr == block;
      k :| 0 <= k < |blocks| && blocks[k] == b;
      var c := Chain(start, blocks);
      Bounds();
      BlockAtIs(blocks, Lo(), Hi(), k);
      TiledAt(blocks, Lo(), Hi(), k);
      assert c[k + 1] == b;
      if b.live {
        LiveHeader(memory, c, Hi(), {}, k + 1);
        ReleasedSpaced(blocks, k);
        ReleasedTotals(blocks, Lo(), Hi(), k);
        ReleasedTiled(blocks, Lo(), Hi(), k);
        Conservation(Released(blocks, k), Lo(), Hi());
      } else {
        var l := FreeHeader(memory, c, Hi(), {}, k + 1);
      }
    }

    /** Writing the size of live block `k` leaves the list alone. */
    lemma Resized(m: Memory, k: nat, size: Word)
      requires k < |blocks| && blocks[k].live && 0 <= blocks[k].addr && blocks[k].addr + SIZE < 0x1_0000_0000
      requires Placed() && Header(m, Hi(), NULL, 0) && Tiled(blocks, Lo(), Hi())
                 && Linked(m, Chain(start, blocks), Hi(), {})
      ensures var a := blocks[k].addr; var m' := m[a + SIZE := size];
              Linked(m', Chain(start, blocks), Hi(), {a}) && Header(m', Hi(), NULL, 0)
    {
      var c, b := Chain(start, blocks), blocks[k];
      ChainAround(k);
      ResizedChain(m, c[..k + 1], b, c[k + 2..], Hi(), size);
    }

    /** The chain around block `k`. */
    lemma ChainAround(k: nat)
      requires k < |blocks| && Placed() && Tiled(blocks, Lo(), Hi())
      ensures var c, b := Chain(start, blocks), blocks[k];
              && c == c[..k + 1] + [b] + c[k + 2..] && Clear(c[..k + 1], b.addr) && Clear(c[k + 2..], b.addr)
              && 0 < b.addr && b.addr + HEADER <= Hi() && 0 <= b.size <= Hi() - Lo() < ALLOCATED
                 && Hi() + HEADER < 0x1_0000_0000
    {
      var c := Chain(start, blocks);
      Bounds();
      TiledAt(blocks, Lo(), Hi(), k);
      ChainApart(start, blocks, Lo(), Hi());
      ApartFrom(c, k + 1);
      assert c == c[..k + 1] + [c[k + 1]] + c[k + 2..];
    }
  }

  /** port_memory.c:147-148. */
  ghost function Finished(m: Memory, a: Word, size: Word): Memory
    requires a + SIZE < 0x1_0000_0000 && size + ALLOCATED < 0x1_0000_0000
  {
    m[a + SIZE := size + ALLOCATED][a := NULL]
  }

  lemma SettledChain(m: Memory, a: seq<Block>, b: Block, c: seq<Block>, stop: int)
    requires Linked(m, a + [b] + c, stop, {b.addr}) && b.live && Clear(a, b.addr) && Clear(c, b.addr)
    requires 0 <= b.addr && b.addr + SIZE < 0x1_0000_0000 && 0 <= b.size && b.size + ALLOCATED < 0x1_0000_0000
    ensures Linked(Finished(m, b.addr, b.size), a + [b] + c, stop, {})
  {
    var m', next := Finished(m, b.addr, b.size), FirstFree(c, stop);
    LinkedAround(m, a, b, c, stop, {b.addr});
    HeaderFrame(m, m', b.addr, a, next, {b.addr}, {});
    HeaderFrame(m, m', b.addr, c, stop, {b.addr}, {});
    LinkedAround(m', a, b, c, stop, {});
  }

  lemma ResizedChain(m: Memory, a: seq<Block>, b: Block, c: seq<Block>, stop: int, size: Word)
    requires Linked(m, a + [b] + c, stop, {}) && b.live && Clear(a, b.addr) && Clear(c, b.addr)
    requires 0 <= b.addr && b.addr + SIZE < 0x1_0000_0000
    ensures Linked(m[b.addr + SIZE := size], a + [b] + c, stop, {b.addr})
  {
    var m' := m[b.addr + SIZE := size];
    LinkedAround(m, a, b, c, stop, {});
    HeaderFrame(m, m', b.addr, a, FirstFree(c, stop), {}, {b.addr});
    HeaderFrame(m, m', b.addr, c, stop, {}, {b.addr});
    LinkedAround(m', a, b, c, stop, {b.addr});
  }

  /** Only the header at `x` changes. */
  lemma HeaderFrame(m: Memory, m': Memory, x: int, bs: seq<Block>, stop: int, raw: set<int>, raw': set<int>)
    requires Linked(m, bs, stop, raw) && Clear(bs, x) && raw <= raw' + {x}
    requires forall a | a in m && a != x && a != x + SIZE :: a in m' && m'[a] == m[a]
    ensures Linked(m', bs, stop, raw')
  {
    LinkedFrame(m, m', bs, stop, raw, raw');
  }

  lemma GrantFacts(bs: seq<Block>, lo: int, hi: int, i: nat, size: int)
    requires Tiled(bs, lo, hi) && Spaced(bs) && i < |bs| && !bs[i].live
    requires HEADER <= size <= bs[i].size && size % ALIGNMENT == 0
    ensures var ds, carved := Cut(bs[i], size), Carved(bs, i, size);
            var split := bs[..i] + ds + bs[i + 1..];
            && Spaced(carved) && carved[i] == ds[0] == split[i]
            && Total(carved, false) == Total(bs, false) - ds[0].size && 0 <= ds[0].size <= Total(bs, false)
            && (|ds| == 1 ==> split == carved)
            && (|ds| == 2 ==> split[i + 1] == ds[1] && Released(split, i + 1) == carved)
  {
    hide Tiled, Spaced, Total;
    CarvedSpaced(bs, i, size);
    CarvedTotals(bs, i, size);
    CarvedTiled(bs, lo, hi, i, size);
    Conservation(Carved(bs, i, size), lo, hi);
    FreeBetween(bs, i);
    TiledAt(bs, lo, hi, i);
    var ds := Cut(bs[i], size);
    if |ds| == 2 {
      var split := bs[..i] + ds + bs[i + 1..];
      assert split[i] == ds[0] && split[i + 1] == ds[1];
      assert i + 2 < |split| ==> split[i + 2] == bs[i + 1];
      assert split[..i + 1] == bs[..i] + [ds[0]] && split[i + 2..] == bs[i + 1..];
    }
  }

  /** `size & heap_block_allocated_bit`: the top bit of a word. */
  predicate IsAllocated(size: Word) {
    size >= ALLOCATED
  }

  /** The memory after port_memory.c:133-138. */
  ghost function Taken(m: Memory, pprev: Word, pblock: Word, next: Word, b: Block, size: Word): Memory
    requires b.addr == pblock && size <= b.size && pblock + b.size + SIZE < 0x1_0000_0000
  {
    var m' := m[pprev := next];
    if b.size - size > MINIMUM then m'[pblock + size + SIZE := b.size - size][pblock + SIZE := size] else m'
  }

  lemma TakenSame(m: Memory, pprev: Word, next: Word, b: Block, size: Word, a: int)
    requires 0 <= b.addr && HEADER <= size <= b.size && b.size % ALIGNMENT == size % ALIGNMENT == 0
    requires b.addr + b.size + SIZE < 0x1_0000_0000
    requires a + HEADER <= pprev || pprev + HEADER <= a
    requires a + HEADER <= b.addr || b.addr + b.size <= a
    ensures Same(m, Taken(m, pprev, b.addr, next, b, size), a)
  {
    assert b.size - size > MINIMUM ==> b.size - size >= HEADER;
  }

  lemma CutChain(start: int, bs: seq<Block>, j: nat, ds: seq<Block>)
    requires 0 < j <= |bs|
    ensures Chain(start, bs[..j - 1] + ds + bs[j..]) == Chain(start, bs)[..j] + ds + Chain(start, bs)[j + 1..]
  {
  }

  lemma CutTiled(bs: seq<Block>, lo: int, hi: int, i: nat, size: int)
    requires Tiled(bs, lo, hi) && i < |bs| && HEADER <= size <= bs[i].size && size % ALIGNMENT == 0
    ensures Tiled(bs[..i] + Cut(bs[i], size) + bs[i + 1..], lo, hi)
  {
    var b, ds := bs[i], Cut(bs[i], size);
    TiledAt(bs, lo, hi, i);
    CutPieces(b, size);
    TiledCat(bs[..i], ds, lo, b.addr, b.addr + b.size);
    TiledCat(bs[..i] + ds, bs[i + 1..], lo, b.addr + b.size, hi);
  }

  lemma CutPieces(b: Block, size: int)
    requires b.Wanted() && HEADER <= size <= b.size && size % ALIGNMENT == 0
    ensures Tiled(Cut(b, size), b.addr, b.addr + b.size) && Cut(b, size)[0].addr == b.addr
  {
    var ds := Cut(b, size);
    assert (b.size - size) % ALIGNMENT == 0;
    if |ds| == 2 {
      assert ds[1..] == [ds[1]] && ds[1..][1..] == [] && ds[1].Wanted();
      assert Tiled(ds[1..], b.addr + size, b.addr + b.size);
    } else {
      assert ds[1..] == [];
    }
  }

  ghost predicate Sized(m: Memory, b: Block) {
    b.addr + SIZE in m && m[b.addr + SIZE] == b.size
  }

  /** Block `b`, and what is left over of it, before the latter is free. */
  ghost function Cut(b: Block, size: int): seq<Block> {
    if b.size - size > MINIMUM
    then [Block(b.addr, size, true), Block(b.addr + size, b.size - size, true)]
    else [Block(b.addr, b.size, true)]
  }

  /** A rest of a multiple of 8 bytes is cut off whenever there is one. */
  lemma CutExact(b: Block, size: int)
    requires b.size % 8 == size % 8 == 0 && size <= b.size
    ensures Cut(b, size) == if size == b.size then [Block(b.addr, size, true)]
                            else [Block(b.addr, size, true), Block(b.addr + size, b.size - size, true)]
  {
  }

  /** The list without the free block `j`, in whose place there are blocks about which it
      says nothing. */
  lemma Unlinked(m: Memory, m': Memory, c: seq<Block>, i: nat, j: nat, ds: seq<Block>, stop: int, raw: set<int>)
    requires Linked(m, c, stop, {}) && i < j < |c| && !c[i].live && !c[j].live && forall l | i < l < j :: c[l].live
    requires forall d | d in ds :: d.live && d.addr in raw
    requires forall l | 0 <= l < |c| && l != i && l != j :: Same(m, m', c[l].addr)
    requires Header(m', c[i].addr, FirstFree(c[j + 1..], stop), c[i].size)
    ensures Linked(m', c[..j] + ds + c[j + 1..], stop, raw)
  {
    var a, b, e, next := c[..i], c[i + 1..j], c[j + 1..], FirstFree(c[j + 1..], stop);
    UnlinkedParts(m, c, i, j, stop);
    LinkedFrame(m, m', a, c[i].addr, {}, raw);
    LinkedFrame(m, m', b, c[j].addr, {}, raw);
    LinkedFrame(m, m', e, stop, {}, raw);
    RawLinked(m', ds, next, raw);
    LiveLinked(m', b, c[j].addr, next, raw);
    LiveLinked(m', ds, next, next, raw);
    hide *;
    LinkedCat(m', b + ds, e, stop, raw);
    LinkedCat(m', b, ds, next, raw);
    LinkedAround(m', a, c[i], b + ds + e, stop, raw);
    RegroupCut(c, i, j, ds);
  }

  lemma UnlinkedParts(m: Memory, c: seq<Block>, i: nat, j: nat, stop: int)
    requires Linked(m, c, stop, {}) && i < j < |c| && !c[i].live && !c[j].live
    ensures Linked(m, c[..i], c[i].addr, {}) && Linked(m, c[i + 1..j], c[j].addr, {}) && Linked(m, c[j + 1..], stop, {})
  {
    assert c == c[..i] + [c[i]] + c[i + 1..] && c[i + 1..] == c[i + 1..j] + [c[j]] + c[j + 1..];
    LinkedAround(m, c[..i], c[i], c[i + 1..], stop, {});
    LinkedAround(m, c[i + 1..j], c[j], c[j + 1..], stop, {});
  }

  lemma {:induction false} RawLinked(m: Memory, ds: seq<Block>, stop: int, raw: set<int>)
    requires forall d | d in ds :: d.live && d.addr in raw
    ensures Linked(m, ds, stop, raw)
  {
    if ds != [] {
      RawLinked(m, ds[1..], stop, raw);
    }
  }

  lemma RegroupCut<T>(c: seq<T>, i: nat, j: nat, ds: seq<T>)
    requires i < j < |c|
    ensures c[..j] + ds + c[j + 1..] == c[..i] + [c[i]] + (c[i + 1..j] + ds + c[j + 1..])
  {
  }

  lemma RoundDown(x: int)
    ensures x - x % ALIGNMENT == x / ALIGNMENT * ALIGNMENT
    ensures (x - ALIGNMENT + 1) % ALIGNMENT == 0 ==> x / ALIGNMENT * ALIGNMENT == x - ALIGNMENT + 1
  {
  }

  lemma Opening(m: Memory, start: int, lo: int, hi: int)
    requires lo + HEADER <= hi && lo % ALIGNMENT == hi % ALIGNMENT == 0
    requires Header(m, start, lo, 0) && Header(m, lo, hi, hi - lo)
    ensures var bs := [Block(lo, hi - lo, false)];
            Tiled(bs, lo, hi) && Spaced(bs) && Total(bs, false) == hi - lo && Linked(m, Chain(start, bs), hi, {})
  {
    var b := Block(lo, hi - lo, false);
    assert [b][1..] == [] && Chain(start, [b])[1..] == [b];
  }
}
