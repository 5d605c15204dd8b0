/** What port_memory.c guarantees over every run of `mem_alloc` and `mem_free`. */
module PoolRuns {
  import opened PoolBlocks

  datatype Op = Alloc(size: int) | Free(pv: int)

  ghost function Next(p: Pool, op: Op, lo: int, hi: int): Pool {
    match op
    case Alloc(size) => Allocated(Opened(p, lo, hi), size)
    case Free(pv) => Freed(p, pv)
  }

  ghost function Run(ops: seq<Op>, lo: int, hi: int): Pool {
    if ops == [] then Pool([], 0) else Next(Run(ops[..|ops| - 1], lo, hi), ops[|ops| - 1], lo, hi)
  }

  lemma RunSnoc(ops: seq<Op>, op: Op, lo: int, hi: int)
    ensures Run(ops + [op], lo, hi) == Next(Run(ops, lo, hi), op, lo, hi)
  {
    assert (ops + [op])[..|ops|] == ops;
  }

  ghost predicate Bounds(lo: int, hi: int) {
    0 < lo && lo + HEADER <= hi && lo % ALIGNMENT == hi % ALIGNMENT == 0
  }

  ghost predicate Sound(p: Pool, lo: int, hi: int) {
    p.blocks == [] || WellFormed(p, lo, hi)
  }

  ghost function FreeBytes(p: Pool): int {
    Total(p.blocks, false)
  }

  // ---------- one operation ----------

  lemma OpenedSound(p: Pool, lo: int, hi: int)
    requires Bounds(lo, hi) && Sound(p, lo, hi)
    ensures WellFormed(Opened(p, lo, hi), lo, hi) && Opened(p, lo, hi).blocks != []
    ensures p.blocks == [] ==> FreeBytes(Opened(p, lo, hi)) == hi - lo && Lives(Opened(p, lo, hi).blocks) == {}
  {
    var b := Block(lo, hi - lo, false);
    assert [b][1..] == [] && b.Wanted();
    TotalOne(b);
  }

  /** Allocation keeps the pool well formed and can only lower the free bytes. */
  lemma AllocatedSound(p: Pool, size: int, lo: int, hi: int)
    requires WellFormed(p, lo, hi) && p.blocks != []
    ensures WellFormed(Allocated(p, size), lo, hi) && Allocated(p, size).blocks != []
    ensures var q := Allocated(p, size);
            FreeBytes(q) <= FreeBytes(p) && q.least == if FreeBytes(q) < p.least then FreeBytes(q) else p.least
  {
    var i := Slot(p.blocks, size);
    if i < |p.blocks| {
      SlotFacts(p.blocks, size);
      CarvedTiled(p.blocks, lo, hi, i, Rounded(size));
      CarvedSpaced(p.blocks, i, Rounded(size));
      CarvedTotals(p.blocks, i, Rounded(size));
    }
  }

  lemma SlotFacts(bs: seq<Block>, size: int)
    ensures var i := Slot(bs, size);
            && i <= |bs|
            && (forall j | 0 <= j < i && 0 < size < ALLOCATED :: bs[j].live || bs[j].size < Rounded(size))
            && (i < |bs| ==>
                  && 0 < size < ALLOCATED && !bs[i].live
                  && HEADER <= Rounded(size) <= bs[i].size && Rounded(size) % ALIGNMENT == 0)
  {
    if 0 < size < ALLOCATED {
      RoundedFacts(size);
      FirstFitFacts(bs, Rounded(size));
    }
  }

  /** Freeing keeps the pool well formed and can only raise the free bytes. */
  lemma FreedSound(p: Pool, pv: int, lo: int, hi: int)
    requires WellFormed(p, lo, hi)
    ensures WellFormed(Freed(p, pv), lo, hi) && (p.blocks != [] ==> Freed(p, pv).blocks != [])
    ensures FreeBytes(Freed(p, pv)) >= FreeBytes(p) && Freed(p, pv).least == p.least
  {
    var k := BlockAt(p.blocks, pv - HEADER);
    if pv != NULL && k < |p.blocks| && p.blocks[k].live {
      TiledAt(p.blocks, lo, hi, k);
      ReleasedTiled(p.blocks, lo, hi, k);
      ReleasedSpaced(p.blocks, k);
      ReleasedTotals(p.blocks, lo, hi, k);
    }
  }

  /** First fit: an allocation fails exactly when no free block can hold the request and its
      header; otherwise it is served from the lowest such block. */
  lemma FirstFitServes(p: Pool, size: int, lo: int, hi: int)
    requires WellFormed(p, lo, hi) && Bounds(lo, hi)
    ensures Payload(p, size) == NULL <==>
            !(0 < size < 0x8000_0000) || forall b | b in p.blocks && !b.live :: b.size < size + 8
    ensures Payload(p, size) == NULL ==> Allocated(p, size) == p
    ensures Payload(p, size) != NULL ==>
              exists b :: b in p.blocks && !b.live && b.addr + 8 == Payload(p, size) && b.size >= size + 8
                       && forall c | c in p.blocks && !c.live && c.size >= size + 8 :: b.addr <= c.addr
  {
    RoundedServes(p, size, lo, hi);
    forall b | b in p.blocks
      ensures b.size >= Rounded(size) <==> b.size >= size + 8
    {
      var j :| 0 <= j < |p.blocks| && p.blocks[j] == b;
      TiledAt(p.blocks, lo, hi, j);
      RoundedExact(size, b.size);
    }
  }

  lemma RoundedServes(p: Pool, size: int, lo: int, hi: int)
    requires WellFormed(p, lo, hi) && Bounds(lo, hi)
    ensures Payload(p, size) == NULL <==>
            !(0 < size < ALLOCATED) || forall b | b in p.blocks && !b.live :: b.size < Rounded(size)
    ensures Payload(p, size) == NULL ==> Allocated(p, size) == p
    ensures Payload(p, size) != NULL ==>
              exists b :: b in p.blocks && !b.live && b.addr + HEADER == Payload(p, size) && b.size >= Rounded(size)
                       && forall c | c in p.blocks && !c.live && c.size >= Rounded(size) :: b.addr <= c.addr
  {
    var bs, i := p.blocks, Slot(p.blocks, size);
    SlotFacts(bs, size);
    if i < |bs| {
      TiledAt(bs, lo, hi, i);
      forall c | c in bs && !c.live && c.size >= Rounded(size)
        ensures bs[i].addr <= c.addr
      {
        var j :| 0 <= j < |bs| && bs[j] == c;
        if i < j {
          TiledApart(bs, lo, hi, i, j);
        }
      }
      assert bs[i] in bs;
    } else if 0 < size < ALLOCATED {
      forall b | b in bs && !b.live
        ensures b.size < Rounded(size)
      {
      }
    }
  }

  /** What an allocation takes: the request, a header of 8 bytes and less than 8 bytes to fill up.
      The rest of the free block stays free, and so do all other free bytes. */
  lemma AllocationTakes(p: Pool, size: int, lo: int, hi: int)
    requires WellFormed(p, lo, hi) && Bounds(lo, hi) && Payload(p, size) != NULL
    ensures Serves(p, Allocated(p, size), Payload(p, size) - 8, size)
  {
    var bs, i, n := p.blocks, Slot(p.blocks, size), Rounded(size);
    SlotFacts(bs, size);
    TiledAt(bs, lo, hi, i);
    RoundedExact(size, bs[i].size);
    PartsExact(bs[i], n);
    CarvedTotals(bs, i, n);
    var cs := Carved(bs, i, n);
    assert cs[i] == Block(bs[i].addr, n, true);
    assert bs[i].size > n ==> cs[i + 1] == Block(bs[i].addr + n, bs[i].size - n, false);
    assert Taken(p, Allocated(p, size), bs[i], Payload(p, size) - 8, n);
  }

  /** `n` bytes at `a`, where the free block `f` was, have become a live block, and no others. */
  ghost predicate Taken(p: Pool, q: Pool, f: Block, a: int, n: int) {
    && f in p.blocks && !f.live && f.addr == a && n <= f.size
    && Block(a, n, true) in q.blocks && FreeBytes(q) == FreeBytes(p) - n
    && (n < f.size ==> Block(a + n, f.size - n, false) in q.blocks)
  }

  ghost predicate Serves(p: Pool, q: Pool, a: int, size: int) {
    exists f, n :: Taken(p, q, f, a, n) && size + 8 <= n < size + 16
  }

  /** Two requests of 16 bytes to a new pool are served 24 bytes apart from its start on. */
  lemma NewPoolServes(lo: int, hi: int)
    requires Bounds(lo, hi) && 48 <= hi - lo
    ensures var p := Opened(Pool([], 0), lo, hi); var q := Allocated(p, 16);
            && Payload(p, 16) == lo + 8 && Payload(q, 16) == lo + 32
            && q.blocks == [Block(lo, 24, true), Block(lo + 24, hi - lo - 24, false)]
  {
    var b := Block(lo, hi - lo, false);
    PartsExact(b, 24);
    assert Rounded(16) == 24 && Slot([b], 16) == 0;
    assert [b][..0] + Parts(b, 24) + [b][1..] == Parts(b, 24);
    var q := Allocated(Opened(Pool([], 0), lo, hi), 16);
    assert q.blocks[1..] == [Block(lo + 24, hi - lo - 24, false)];
    assert FirstFit(q.blocks[1..], 24) == 0;
    assert Slot(q.blocks, 16) == 1;
  }

  /** What an allocation returns: an aligned payload of at least the requested size, inside the
      pool and disjoint from every other live block; the other live blocks are untouched. */
  lemma AllocationReturns(p: Pool, size: int, lo: int, hi: int)
    requires WellFormed(p, lo, hi) && Bounds(lo, hi) && Payload(p, size) != NULL
    ensures Payload(p, size) % 8 == 0
    ensures exists got :: Granted(p, Allocated(p, size), Payload(p, size), size, lo, hi, got)
  {
    var bs, i, n := p.blocks, Slot(p.blocks, size), Rounded(size);
    SlotFacts(bs, size);
    TiledAt(bs, lo, hi, i);
    RoundedExact(size, bs[i].size);
    PartsExact(bs[i], n);
    var got := Parts(bs[i], n)[0];
    CarvedLives(bs, i, n);
    LivesApart(bs, lo, hi, i);
    assert got.addr == bs[i].addr && got.size <= bs[i].size && Allocated(p, size).blocks == Carved(bs, i, n);
    hide Tiled, Lives, Carved, Parts, Rounded, Slot, Allocated;
    assert got in Lives(bs) ==> got.size <= 0;
    assert Granted(p, Allocated(p, size), Payload(p, size), size, lo, hi, got);
  }

  ghost predicate Granted(p: Pool, q: Pool, payload: int, size: int, lo: int, hi: int, got: Block) {
    && got.addr + 8 == payload && size + 8 <= got.size < size + 16 && got.live
    && lo <= got.addr && got.addr + got.size <= hi
    && Lives(q.blocks) == Lives(p.blocks) + {got} && got !in Lives(p.blocks)
    && forall b | b in Lives(p.blocks) :: b.addr + b.size <= got.addr || got.addr + got.size <= b.addr
  }

  /** A free block is disjoint from every live one. */
  lemma LivesApart(bs: seq<Block>, lo: int, hi: int, i: nat)
    requires Tiled(bs, lo, hi) && i < |bs| && !bs[i].live
    ensures forall b | b in Lives(bs) :: b.addr + b.size <= bs[i].addr || bs[i].addr + bs[i].size <= b.addr
    ensures forall b | b in Lives(bs) :: b.size > 0
  {
    forall b | b in Lives(bs)
      ensures b.size > 0 && (b.addr + b.size <= bs[i].addr || bs[i].addr + bs[i].size <= b.addr)
    {
      var j :| 0 <= j < |bs| && bs[j] == b;
      TiledAt(bs, lo, hi, j);
      TiledApart(bs, lo, hi, if i < j then i else j, if i < j then j else i);
    }
  }

  /** Freeing removes exactly the live block with that payload, if there is one. */
  lemma FreeRemoves(p: Pool, pv: int, lo: int, hi: int)
    requires WellFormed(p, lo, hi) && Bounds(lo, hi)
    ensures Lives(Freed(p, pv).blocks) == set b | b in Lives(p.blocks) && b.addr + HEADER != pv
  {
    var bs, k := p.blocks, BlockAt(p.blocks, pv - HEADER);
    forall b | b in Lives(bs)
      ensures b.addr + HEADER == pv ==> k < |bs| && bs[k] == b && pv != NULL
    {
      var j :| 0 <= j < |bs| && bs[j] == b;
      TiledAt(bs, lo, hi, j);
      BlockAtIs(bs, lo, hi, j);
    }
    if pv != NULL && k < |bs| && bs[k].live {
      ReleasedLives(bs, lo, hi, k);
    }
  }

  /** Freeing a second time changes nothing. */
  lemma FreeTwice(p: Pool, pv: int, lo: int, hi: int)
    requires WellFormed(p, lo, hi) && Bounds(lo, hi)
    ensures Freed(Freed(p, pv), pv) == Freed(p, pv)
  {
    var q := Freed(p, pv);
    FreeRemoves(p, pv, lo, hi);
    var k := BlockAt(q.blocks, pv - HEADER);
    assert k < |q.blocks| ==> (q.blocks[k].live <==> q.blocks[k] in Lives(q.blocks));
  }

  /** Freeing what was just allocated restores the blocks. */
  lemma AllocThenFree(p: Pool, size: int, lo: int, hi: int)
    requires WellFormed(p, lo, hi) && Bounds(lo, hi) && Payload(p, size) != NULL
    ensures Freed(Allocated(p, size), Payload(p, size)).blocks == p.blocks
  {
    var bs, i := p.blocks, Slot(p.blocks, size);
    SlotFacts(bs, size);
    TiledAt(bs, lo, hi, i);
    CarvedTiled(bs, lo, hi, i, Rounded(size));
    var cs := Carved(bs, i, Rounded(size));
    assert cs[i] == Parts(bs[i], Rounded(size))[0];
    BlockAtIs(cs, lo, hi, i);
    CarveThenRelease(bs, lo, hi, i, Rounded(size));
  }

  // ---------- runs ----------

  lemma NextSound(p: Pool, op: Op, lo: int, hi: int)
    requires Bounds(lo, hi) && Sound(p, lo, hi)
    ensures Sound(Next(p, op, lo, hi), lo, hi)
    ensures Next(p, op, lo, hi).blocks == [] <==> p.blocks == [] && op.Free?
  {
    if op.Alloc? {
      OpenedSound(p, lo, hi);
      AllocatedSound(Opened(p, lo, hi), op.size, lo, hi);
    } else if p.blocks != [] {
      FreedSound(p, op.pv, lo, hi);
    }
  }

  /** Every run: the blocks tile the pool, no two free ones are neighbours, and live and free
      bytes add up to the pool. */
  lemma {:induction false} RunSound(ops: seq<Op>, lo: int, hi: int)
    requires Bounds(lo, hi)
    ensures Sound(Run(ops, lo, hi), lo, hi)
    ensures Run(ops, lo, hi).blocks == [] <==> forall op | op in ops :: op.Free?
    ensures var p := Run(ops, lo, hi); p.blocks != [] ==> FreeBytes(p) + Total(p.blocks, true) == hi - lo
  {
    if ops != [] {
      var before := ops[..|ops| - 1];
      assert ops == before + [ops[|ops| - 1]];
      RunSound(before, lo, hi);
      NextSound(Run(before, lo, hi), ops[|ops| - 1], lo, hi);
    }
    var p := Run(ops, lo, hi);
    if p.blocks != [] {
      Conservation(p.blocks, lo, hi);
    }
  }

  /** The pool after the first `k` operations. */
  ghost function After(ops: seq<Op>, k: nat, lo: int, hi: int): Pool
    requires k <= |ops|
  {
    Run(ops[..k], lo, hi)
  }

  /** The recorded minimum is the least number of free bytes there ever was. */
  lemma {:induction false} LeastEver(ops: seq<Op>, lo: int, hi: int)
    requires Bounds(lo, hi) && Run(ops, lo, hi).blocks != []
    ensures forall k | 0 <= k <= |ops| && After(ops, k, lo, hi).blocks != [] ::
              Run(ops, lo, hi).least <= FreeBytes(After(ops, k, lo, hi))
    ensures exists k :: 0 <= k <= |ops| && After(ops, k, lo, hi).blocks != []
                     && Run(ops, lo, hi).least == FreeBytes(After(ops, k, lo, hi))
  {
    var n := |ops| - 1;
    var before := ops[..n];
    var p, q := Run(before, lo, hi), Run(ops, lo, hi);
    RunSound(before, lo, hi);
    LeastStep(p, ops[n], lo, hi);
    forall k | 0 <= k <= |ops|
      ensures After(ops, k, lo, hi) == if k <= n then After(before, k, lo, hi) else q
    {
      assert if k <= n then before[..k] == ops[..k] else ops[..k] == ops;
    }
    if p.blocks == [] {
      NothingBefore(before, lo, hi);
      assert q.least == FreeBytes(After(ops, n + 1, lo, hi));
    } else {
      LeastEver(before, lo, hi);
      var k :| 0 <= k <= n && After(before, k, lo, hi).blocks != [] && p.least == FreeBytes(After(before, k, lo, hi));
      assert After(ops, k, lo, hi) == After(before, k, lo, hi) && After(ops, n + 1, lo, hi) == q;
    }
  }

  lemma NothingBefore(ops: seq<Op>, lo: int, hi: int)
    requires Bounds(lo, hi) && Run(ops, lo, hi).blocks == []
    ensures forall k | 0 <= k <= |ops| :: After(ops, k, lo, hi).blocks == []
  {
    RunSound(ops, lo, hi);
    forall k | 0 <= k <= |ops|
      ensures After(ops, k, lo, hi).blocks == []
    {
      RunSound(ops[..k], lo, hi);
    }
  }

  lemma LeastStep(p: Pool, op: Op, lo: int, hi: int)
    requires Bounds(lo, hi) && Sound(p, lo, hi) && Next(p, op, lo, hi).blocks != []
    ensures var q := Next(p, op, lo, hi);
            && q.least <= FreeBytes(q)
            && (p.blocks == [] ==> q.least == FreeBytes(q))
            && (p.blocks != [] ==> q.least <= p.least && (q.least == p.least || q.least == FreeBytes(q)))
  {
    NextSound(p, op, lo, hi);
    if op.Alloc? {
      OpenedSound(p, lo, hi);
      AllocatedSound(Opened(p, lo, hi), op.size, lo, hi);
    }
  }

  // ---------- freeing everything ----------

  ghost function FreeEach(p: Pool, order: seq<int>): Pool
    decreases |order|
  {
    if order == [] then p else FreeEach(Freed(p, order[0]), order[1..])
  }

  /** Freeing every live block, in whatever order, leaves the single block of a fresh pool. */
  lemma {:induction false} FreeingAllCoalesces(p: Pool, order: seq<int>, lo: int, hi: int)
    requires WellFormed(p, lo, hi) && Bounds(lo, hi) && forall b | b in Lives(p.blocks) :: b.addr + HEADER in order
    ensures FreeEach(p, order).blocks == [Block(lo, hi - lo, false)]
    ensures FreeBytes(FreeEach(p, order)) == hi - lo
    decreases |order|
  {
    if order == [] {
      if b :| b in Lives(p.blocks) {
        assert false;
      }
      FullyCoalesced(p.blocks, lo, hi);
      Conservation(p.blocks, lo, hi);
    } else {
      FreedSound(p, order[0], lo, hi);
      FreeRemoves(p, order[0], lo, hi);
      forall b | b in Lives(Freed(p, order[0]).blocks)
        ensures b.addr + HEADER in order[1..]
      {
        assert b.addr + HEADER in [order[0]] + order[1..] && [order[0]] + order[1..] == order;
      }
      FreeingAllCoalesces(Freed(p, order[0]), order[1..], lo, hi);
    }
  }

  /** The same after any run that has allocated at all. */
  lemma RunThenFreeAll(ops: seq<Op>, order: seq<int>, lo: int, hi: int)
    requires Bounds(lo, hi) && exists op :: op in ops && op.Alloc?
    requires forall b | b in Lives(Run(ops, lo, hi).blocks) :: b.addr + HEADER in order
    ensures FreeEach(Run(ops, lo, hi), order).blocks == Opened(Pool([], 0), lo, hi).blocks
    ensures FreeBytes(FreeEach(Run(ops, lo, hi), order)) == FreeBytes(Opened(Pool([], 0), lo, hi))
  {
    RunSound(ops, lo, hi);
    FreeingAllCoalesces(Run(ops, lo, hi), order, lo, hi);
    OpenedSound(Pool([], 0), lo, hi);
  }
}
