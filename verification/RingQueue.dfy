/** The circular queue of queue.c. */
module RingQueue {
  type Byte = x: int | 0 <= x < 256

  /** The block that starts at `at`. */
  ghost function Block(s: seq<Byte>, at: int, width: nat): seq<Byte>
    requires 0 <= at && at + width <= |s|
  {
    s[at..at + width]
  }

  /** The first `n` blocks of a buffer. */
  ghost function Blocks(s: seq<Byte>, width: nat, n: nat): (bs: seq<seq<Byte>>)
    requires n * width <= |s|
    ensures |bs| == n
  {
    seq(n, i requires 0 <= i < n => (Inside(i, n, width); Block(s, i * width, width)))
  }

  lemma Inside(i: nat, n: nat, width: nat)
    requires i < n
    ensures 0 <= i * width && i * width + width <= n * width
  {
    assert (i + 1) * width <= n * width;
  }

  lemma Disjoint(i: nat, j: nat, width: nat)
    requires i < j
    ensures i * width + width <= j * width
  {
    assert (i + 1) * width <= j * width;
  }

  /** `memcpy`. */
  method Copy(dst: array<Byte>, to: nat, src: array<Byte>, from: nat, n: nat)
    requires to + n <= dst.Length && from + n <= src.Length && dst != src
    modifies dst
    ensures dst[..] == old(dst[..to]) + src[from..from + n] + old(dst[to + n..])
  {
    var i := 0;
    while i < n
      invariant i <= n && dst[..] == old(dst[..to]) + src[from..from + i] + old(dst[to + i..])
    {
      dst[to + i] := src[from + i];
      i := i + 1;
    }
  }

  /** `struct circular_queue`. */
  class CircularQueue {
    const size: nat
    const blockSize: nat
    const data: array<Byte>
    var used: nat
    var front: nat
    var rear: nat
    ghost var accepted: seq<seq<Byte>>
    ghost var removed: seq<seq<Byte>>

    /** `circular_queue_create` when there is memory. */
    constructor (size: nat, blockSize: nat)
      requires size > 0 && blockSize > 0
      ensures Fifo() && Contents() == [] && accepted == [] && fresh(data)
      ensures this.size == size && this.blockSize == blockSize
    {
      this.size, this.blockSize := size, blockSize;
      data := new Byte[size * blockSize];
      used, front, rear := 0, 0, 0;
      accepted, removed := [], [];
    }

    /** What has been queued since the start or the last clearing has left in the same order
      * or is still there. */
    ghost predicate Fifo()
      reads this, data
    {
      Valid() && accepted == removed + Contents()
    }

    ghost predicate Valid()
      reads this
    {
      && size > 0 && blockSize > 0 && data.Length == size * blockSize
      && used <= size && front < size && rear == (front + used) % size
    }

    /** The place of the `i`-th block of the queue. */
    ghost function Place(i: nat): nat
      requires size > 0
      reads this
    {
      (front + i) % size
    }

    ghost function Slot(j: nat): seq<Byte>
      requires j < size && data.Length == size * blockSize
      reads data
    {
      Inside(j, size, blockSize);
      Block(data[..], j * blockSize, blockSize)
    }

    /** The queue, the front first. */
    ghost function Contents(): (q: seq<seq<Byte>>)
      requires Valid()
      reads this, data
      ensures |q| == used
    {
      seq(used, i requires 0 <= i < used reads this, data => Slot(Place(i)))
    }

    /** Places of queued blocks are different, and none is the rear. */
    lemma PlacesDiffer(i: nat, j: nat)
      requires Valid() && i < j < size
      ensures Place(i) != Place(j)
    {
      Wrapped(front + i, size);
      Wrapped(front + j, size);
    }

    lemma Wrapped(x: nat, n: nat)
      requires 0 < n && x < 2 * n
      ensures x % n == if x < n then x else x - n
    {
    }

    /** One block is written to slot `j`. */
    method Store(j: nat, from: array<Byte>, at: nat)
      requires j < size && data.Length == size * blockSize && at + blockSize <= from.Length && from != data
      modifies data
      ensures Slot(j) == from[at..at + blockSize]
      ensures forall k | 0 <= k < size && k != j :: Slot(k) == old(Slot(k))
    {
      Inside(j, size, blockSize);
      var to := j * blockSize;
      ghost var old_ := data[..];
      Copy(data, to, from, at, blockSize);
      forall k | 0 <= k < size && k != j
        ensures Slot(k) == old(Slot(k))
      {
        Inside(k, size, blockSize);
        Disjoint(if k < j then k else j, if k < j then j else k, blockSize);
        SameOutside(old_, data[..], to, blockSize, k * blockSize);
      }
    }

    lemma SameOutside(s: seq<Byte>, s': seq<Byte>, to: nat, n: nat, at: nat)
      requires to + n <= |s| == |s'| && at + n <= |s| && (at + n <= to || to + n <= at)
      requires s'[..to] == s[..to] && s'[to + n..] == s[to + n..]
      ensures s'[at..at + n] == s[at..at + n]
    {
      forall k | at <= k < at + n
        ensures s'[k] == s[k]
      {
        if k < to {
          assert s'[k] == s'[..to][k] && s[k] == s[..to][k];
        } else {
          assert s'[k] == s'[to + n..][k - to - n] && s[k] == s[to + n..][k - to - n];
        }
      }
    }

    lemma Advanced(x: nat)
      requires x + 1 < 2 * size
      ensures (x % size + 1) % size == (x + 1) % size
    {
      Wrapped(x, size);
      Wrapped(x + 1, size);
      Wrapped(x % size + 1, size);
    }

    /** `circular_queue_enque`, one round. */
    method EnqueOne(from: array<Byte>, at: nat)
      requires Valid() && used < size && at + blockSize <= from.Length && from != data
      modifies `used, `rear, data
      ensures Valid() && Contents() == old(Contents()) + [from[at..at + blockSize]]
    {
      ghost var q, n := Contents(), used;
      forall i | 0 <= i < n
        ensures Place(i) != rear
      {
        PlacesDiffer(i, n);
      }
      Store(rear, from, at);
      assert forall i | 0 <= i < n :: Slot(Place(i)) == q[i];
      Advanced(front + used);
      rear := (rear + 1) % size;
      used := used + 1;
    }

    /** `circular_queue_deque`, one round; `to` is null when the block is only dropped. */
    method DequeOne(to: array?<Byte>, at: nat)
      requires Valid() && used > 0 && (to != null ==> at + blockSize <= to.Length && to != data)
      modifies `used, `front, to
      ensures Valid() && Contents() == old(Contents()[1..])
      ensures to != null ==> to[..] == old(to[..at] + Contents()[0] + to[at + blockSize..])
    {
      ghost var q, f := Contents(), front;
      Inside(front, size, blockSize);
      Wrapped(front, size);
      assert q[0] == Slot(front);
      if to != null {
        Copy(to, at, data, front * blockSize, blockSize);
      }
      Advance(f);
    }

    /** queue.c:96-97. */
    method Advance(ghost f: nat)
      requires Valid() && used > 0 && f == front
      modifies `used, `front
      ensures Valid() && Contents() == old(Contents()[1..])
    {
      ghost var q := Contents();
      Moved(f, used);
      front := (front + 1) % size;
      used := used - 1;
      Shifted(f);
      forall i | 0 <= i < used
        ensures Contents()[i] == q[i + 1]
      {
        assert Place(i) == (f + (i + 1)) % size;
      }
    }

    method DequeTo(to: array<Byte>, at: nat, ghost i: nat) returns (next: nat)
      requires Valid() && used > 0 && at == i * blockSize && at + blockSize <= to.Length && to != data
      modifies `used, `front, to
      ensures Valid() && Contents() == old(Contents()[1..])
                && next == at + blockSize == (i + 1) * blockSize <= to.Length
      ensures Blocks(to[..], blockSize, i + 1) == old(Blocks(to[..], blockSize, i) + [Contents()[0]])
      ensures to[next..] == old(to[..])[next..]
    {
      ghost var s, b := to[..], Contents()[0];
      DequeOne(to, at);
      Appended(s, to[..], blockSize, i, b);
      next := at + blockSize;
    }

    lemma Moved(f: nat, n: nat)
      requires f < size && 0 < n <= size
      ensures ((f + 1) % size + (n - 1)) % size == (f + n) % size
    {
      Wrapped(f + 1, size);
      Wrapped(f + n, size);
      Wrapped((f + 1) % size + (n - 1), size);
    }

    /** The places after the front has moved on from `f`. */
    lemma Shifted(f: nat)
      requires f < size && front == (f + 1) % size
      ensures forall i: nat | i < size - 1 :: Place(i) == (f + (i + 1)) % size
    {
      forall i: nat | i < size - 1
        ensures Place(i) == (f + (i + 1)) % size
      {
        Moved(f, i + 1);
      }
    }

    /** `circular_queue_enque`: as many of the `count` blocks as there is room for. */
    method Enque(from: array?<Byte>, count: nat) returns (i: nat)
      requires Fifo() && (from != null ==> Least(count, size - used) * blockSize <= from.Length && from != data)
      modifies `used, `rear, `accepted, data
      ensures Fifo() && i == if from == null then 0 else Least(count, size - old(used))
      ensures from == null ==> Contents() == old(Contents()) && accepted == old(accepted)
      ensures from != null ==>
                && i * blockSize <= from.Length
                && Contents() == old(Contents()) + Blocks(from[..], blockSize, i)
      ensures from != null ==> accepted == old(accepted) + Blocks(from[..], blockSize, i)
    {
      if from == null {
        return 0;
      }
      i := EnqueBlocks(from, count);
      Accept(Blocks(from[..], blockSize, i), old(Contents()));
    }

    ghost method Accept(bs: seq<seq<Byte>>, before: seq<seq<Byte>>)
      requires Valid() && accepted == removed + before && Contents() == before + bs
      modifies `accepted
      ensures Fifo() && Contents() == old(Contents()) && accepted == old(accepted) + bs
    {
      assert removed + (before + bs) == accepted + bs;
      accepted := accepted + bs;
    }

    method EnqueBlocks(from: array<Byte>, count: nat) returns (i: nat)
      requires Valid() && Least(count, size - used) * blockSize <= from.Length && from != data
      modifies `used, `rear, data
      ensures Valid() && i == Least(count, size - old(used)) && i * blockSize <= from.Length
      ensures Contents() == old(Contents()) + Blocks(from[..], blockSize, i)
    {
      i := 0;
      ghost var most := Least(count, size - used);
      var at := 0;
      while i < count
        invariant Valid() && i <= most && used == old(used) + i && at == i * blockSize && at <= from.Length
        invariant Contents() == old(Contents()) + Blocks(from[..], blockSize, i)
      {
        if used == size {
          break;
        }
        Inside(i, most, blockSize);
        OneMore(from[..], blockSize, i);
        EnqueOne(from, at);
        at := at + blockSize;
        i := i + 1;
      }
    }

    /** `circular_queue_deque`: as many of the `count` blocks as there are. */
    method Deque(to: array?<Byte>, count: nat) returns (i: nat)
      requires Fifo() && (to != null ==> Least(count, used) * blockSize <= to.Length && to != data)
      modifies `used, `front, `removed, to
      ensures Fifo() && i == Least(count, old(used)) && Contents() == old(Contents())[i..]
      ensures removed == old(removed) + old(Contents())[..i]
      ensures to != null ==> i * blockSize <= to.Length && Blocks(to[..], blockSize, i) == old(Contents())[..i]
      ensures to != null ==> to[i * blockSize..] == old(to[..])[i * blockSize..]
    {
      i := DequeBlocks(to, count);
      Remove(i, old(Contents()));
    }

    ghost method Remove(n: nat, before: seq<seq<Byte>>)
      requires Valid() && accepted == removed + before && n <= |before| && Contents() == before[n..]
      modifies `removed
      ensures Fifo() && Contents() == old(Contents()) && removed == old(removed) + before[..n]
    {
      assert removed + before == (removed + before[..n]) + before[n..];
      removed := removed + before[..n];
    }

    method DequeBlocks(to: array?<Byte>, count: nat) returns (i: nat)
      requires Valid() && (to != null ==> Least(count, used) * blockSize <= to.Length && to != data)
      modifies `used, `front, to
      ensures Valid() && i == Least(count, old(used)) && Contents() == old(Contents())[i..]
      ensures to != null ==> i * blockSize <= to.Length && Blocks(to[..], blockSize, i) == old(Contents())[..i]
      ensures to != null ==> to[i * blockSize..] == old(to[..])[i * blockSize..]
    {
      i := 0;
      ghost var q, most := Contents(), Least(count, used);
      var at: nat := 0;
      while i < count
        invariant Valid() && i <= most && used == old(used) - i && Contents() == q[i..]
        invariant to != null ==> at == i * blockSize <= to.Length
        invariant to != null ==> Blocks(to[..], blockSize, i) == q[..i] && to[at..] == old(to[..])[at..]
      {
        if used == 0 {
          break;
        }
        if to != null {
          Inside(i, most, blockSize);
          at := DequeTo(to, at, i);
        } else {
          DequeOne(to, at);
        }
        i := i + 1;
      }
    }

    /** `circular_queue_rear`: the block that was queued last. */
    method Rear(to: array<Byte>) returns (found: int)
      requires Valid() && (used > 0 ==> blockSize <= to.Length) && to != data
      modifies to
      ensures Valid() && Contents() == old(Contents())
      ensures used == 0 ==> found == 0 && to[..] == old(to[..])
      ensures used > 0 ==> found == 1 && to[..] == old(Contents())[used - 1] + old(to[..])[blockSize..]
    {
      if used == 0 {
        return 0;
      }
      var pos := (if rear == 0 then size else rear) - 1;
      Wrapped(front + used, size);
      Wrapped(front + (used - 1), size);
      assert pos == Place(used - 1);
      Inside(pos, size, blockSize);
      Copy(to, 0, data, pos * blockSize, blockSize);
      found := 1;
    }

    /** `circular_queue_clear`. */
    method Clear()
      requires Valid()
      modifies `used, `front, `rear, `accepted, `removed
      ensures Fifo() && Contents() == [] && accepted == []
    {
      used, front, rear := 0, 0, 0;
      accepted, removed := [], [];
    }
  }

  function Least(a: int, b: int): int {
    if a < b then a else b
  }

  lemma OneMore(s: seq<Byte>, width: nat, n: nat)
    requires (n + 1) * width <= |s|
    ensures n * width + width <= |s|
    ensures Blocks(s, width, n + 1) == Blocks(s, width, n) + [s[n * width..n * width + width]]
  {
    Inside(n, n + 1, width);
  }

  /** Block `n` of a buffer is overwritten. */
  lemma Appended(s: seq<Byte>, s': seq<Byte>, width: nat, n: nat, b: seq<Byte>)
    requires n * width + width <= |s| && |b| == width
    requires s' == s[..n * width] + b + s[n * width + width..]
    ensures (n + 1) * width <= |s'| && Blocks(s', width, n + 1) == Blocks(s, width, n) + [b]
    ensures s'[(n + 1) * width..] == s[(n + 1) * width..]
  {
    assert (n + 1) * width == n * width + width;
    OneMore(s', width, n);
    var k := n * width;
    assert s'[k..k + width] == b;
    forall i | 0 <= i < n
      ensures Blocks(s', width, n)[i] == Blocks(s, width, n)[i]
    {
      Inside(i, n, width);
      SameBefore(s, s', k, i * width, width);
    }
    assert s'[k + width..] == s[k + width..];
  }

  lemma SameBefore(s: seq<Byte>, s': seq<Byte>, k: nat, at: nat, width: nat)
    requires at + width <= k <= |s| && k <= |s'| && s'[..k] == s[..k]
    ensures s'[at..at + width] == s[at..at + width]
  {
    assert s'[at..at + width] == s'[..k][at..at + width];
    assert s[at..at + width] == s[..k][at..at + width];
  }
}
