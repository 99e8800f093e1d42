/** The bump allocator behind the skip list: a list of blocks, each filled from the front. */
module Arenas {
  import opened Wrappers

  const BLOCK_SIZE: nat := 65536
  const LARGE: nat := 16384

  /** The powers of two up to a cache line. */
  predicate IsAlignment(a: nat) { a == 1 || a == 2 || a == 4 || a == 8 || a == 16 || a == 32 || a == 64 }

  predicate Times(p: nat, q: nat, a: nat) { p == q * a }

  ghost predicate Aligned(p: nat, a: nat) { exists q: nat :: Times(p, q, a) }

  /** The first multiple of 2 to the e at or after p. */
  function RoundUp2(p: nat, e: nat): (r: nat) {
    if e == 0 then p else 2 * RoundUp2((p + 1) / 2, e - 1)
  }

  function Pow2(e: nat): nat { if e == 0 then 1 else 2 * Pow2(e - 1) }

  function Log2(a: nat): nat
    requires IsAlignment(a)
  {
    if a == 1 then 0 else if a == 2 then 1 else if a == 4 then 2 else if a == 8 then 3 else if a == 16 then 4
    else if a == 32 then 5 else 6
  }

  lemma {:induction false} RoundUp2Aligned(p: nat, e: nat) returns (q: nat)
    ensures p <= RoundUp2(p, e) < p + Pow2(e) && RoundUp2(p, e) == q * Pow2(e)
  {
    if e == 0 {
      q := p;
    } else {
      q := RoundUp2Aligned((p + 1) / 2, e - 1);
      assert q * Pow2(e) == 2 * (q * Pow2(e - 1));
    }
  }

  lemma PowerOfLog(a: nat)
    requires IsAlignment(a)
    ensures Pow2(Log2(a)) == a
  {
    assert Pow2(1) == 2 && Pow2(2) == 4 && Pow2(3) == 8 && Pow2(4) == 16 && Pow2(5) == 32 && Pow2(6) == 64;
  }

  function RoundUp(p: nat, a: nat): nat
    requires IsAlignment(a)
  {
    RoundUp2(p, Log2(a))
  }

  /** Rounding up reaches the first aligned address. */
  lemma RoundUpIsFirst(p: nat, a: nat)
    requires IsAlignment(a)
    ensures var r := RoundUp(p, a); p <= r < p + a && Aligned(r, a) && forall s: nat | p <= s < r :: !Aligned(s, a)
  {
    PowerOfLog(a);
    var q := RoundUp2Aligned(p, Log2(a));
    var r := RoundUp(p, a);
    assert Times(r, q, a);
    forall s: nat | p <= s < r ensures !Aligned(s, a) {
      forall t: nat ensures !Times(s, t, a) {
        if t < q { Spread(t, q, a); } else { Spread(q, t, a); }
      }
    }
  }

  /** Different multiples are at least a step apart. */
  lemma Spread(t: nat, q: nat, a: nat)
    requires t <= q
    ensures t * a <= q * a && (t < q ==> t * a + a <= q * a)
  {
    if t < q {
      var d := q - t - 1;
      assert q * a == t * a + a + d * a;
    }
  }

  /** A block's memory: its address, its size, and how much of its front is taken. */
  datatype Extent = Extent(data: nat, cap: nat, used: nat)

  /** A range handed out, from the block with that number. */
  datatype Range = Range(addr: nat, size: nat, align: nat, block: nat)

  predicate Apart(a: nat, m: nat, b: nat, n: nat) { a + m <= b || b + n <= a }

  ghost predicate BlocksApart(es: seq<Extent>) {
    && (forall i | 0 <= i < |es| :: es[i].used <= es[i].cap)
    && forall i, j | 0 <= i < j < |es| :: Apart(es[i].data, es[i].cap, es[j].data, es[j].cap)
  }

  /** Aligned and inside the taken part of its block. */
  ghost predicate Placed(es: seq<Extent>, r: Range) {
    && IsAlignment(r.align) && Aligned(r.addr, r.align) && r.block < |es|
    && es[r.block].data <= r.addr && r.addr + r.size <= es[r.block].data + es[r.block].used
  }

  /** Every range handed out is placed and overlaps none of the earlier ones. */
  ghost predicate LaidOut(es: seq<Extent>, live: seq<Range>) {
    if live == [] then BlocksApart(es)
    else
      var r := live[|live| - 1];
      var earlier := live[..|live| - 1];
      && LaidOut(es, earlier)
      && Placed(es, r)
      && forall i | 0 <= i < |earlier| :: Apart(earlier[i].addr, earlier[i].size, r.addr, r.size)
  }

  function TotalSize(live: seq<Range>): nat {
    if live == [] then 0 else TotalSize(live[..|live| - 1]) + live[|live| - 1].size
  }

  lemma {:induction false} LaidOutAll(es: seq<Extent>, live: seq<Range>, i: nat)
    requires LaidOut(es, live) && i < |live|
    ensures BlocksApart(es) && Placed(es, live[i])
    decreases |live|
  {
    if |live| > 1 && i < |live| - 1 {
      LaidOutAll(es, live[..|live| - 1], i);
    } else {
      LaidOutBlocks(es, live);
    }
  }

  lemma {:induction false} LaidOutBlocks(es: seq<Extent>, live: seq<Range>)
    requires LaidOut(es, live)
    ensures BlocksApart(es)
    decreases |live|
  {
    if live != [] { LaidOutBlocks(es, live[..|live| - 1]); }
  }

  /** Blocks may be added and filled further without disturbing what was handed out. */
  ghost predicate Grown(es: seq<Extent>, es': seq<Extent>) {
    && |es| <= |es'|
    && forall i | 0 <= i < |es| :: es'[i].data == es[i].data && es'[i].used >= es[i].used
  }

  lemma {:induction false} LaidOutGrown(es: seq<Extent>, es': seq<Extent>, live: seq<Range>)
    requires LaidOut(es, live) && Grown(es, es') && BlocksApart(es')
    ensures LaidOut(es', live)
    decreases |live|
  {
    if live != [] { LaidOutGrown(es, es', live[..|live| - 1]); }
  }

  /** Taking aligned bytes of a block past those taken keeps the layout. */
  lemma BumpLaidOut(es: seq<Extent>, live: seq<Range>, k: nat, p: nat, bytes: nat, align: nat, used: nat)
    requires LaidOut(es, live) && k < |es| && IsAlignment(align)
    requires es[k].data + es[k].used <= p && Aligned(p, align) && es[k].data + used == p + bytes && used <= es[k].cap
    ensures LaidOut(es[k := es[k].(used := used)], live + [Range(p, bytes, align, k)])
  {
    var r, es' := Range(p, bytes, align, k), es[k := es[k].(used := used)];
    LaidOutBlocks(es, live);
    LaidOutGrown(es, es', live);
    assert (live + [r])[..|live|] == live;
    forall i | 0 <= i < |live|
      ensures Apart(live[i].addr, live[i].size, r.addr, r.size)
    {
      LaidOutAll(es, live, i);
      PlacedBefore(es, live[i], k, p, bytes, used);
    }
  }

  lemma PlacedBefore(es: seq<Extent>, earlier: Range, k: nat, p: nat, bytes: nat, used: nat)
    requires BlocksApart(es) && Placed(es, earlier) && k < |es|
    requires es[k].data + es[k].used <= p && es[k].data + used == p + bytes && used <= es[k].cap
    ensures Apart(earlier.addr, earlier.size, p, bytes)
  {
    if earlier.block < k {
      assert Apart(es[earlier.block].data, es[earlier.block].cap, es[k].data, es[k].cap);
    } else if k < earlier.block {
      assert Apart(es[k].data, es[k].cap, es[earlier.block].data, es[earlier.block].cap);
    }
  }

  lemma NewBlockLaidOut(es: seq<Extent>, live: seq<Range>, base: nat, cap: nat)
    requires LaidOut(es, live) && forall i | 0 <= i < |es| :: Apart(es[i].data, es[i].cap, base, cap)
    ensures LaidOut(es + [Extent(base, cap, 0)], live)
  {
    LaidOutBlocks(es, live);
    LaidOutGrown(es, es + [Extent(base, cap, 0)], live);
  }

  lemma TotalAppend(live: seq<Range>, r: Range)
    ensures TotalSize(live + [r]) == TotalSize(live) + r.size
  {
    assert (live + [r])[..|live|] == live;
  }

  class Block {
    var next: Block?
    const data: nat
    const cap: nat
    var used: nat

    constructor (data: nat, cap: nat, next: Block?)
      ensures this.data == data && this.cap == cap && used == 0 && this.next == next
    {
      this.data, this.cap := data, cap;
      this.next, used := next, 0;
    }
  }

  ghost predicate Mirrors(b: Block, e: Extent)
    reads b`used
  {
    e == Extent(b.data, b.cap, b.used)
  }

  /** The capacity asked of the system for a block that must hold bytes at some alignment. */
  function BlockCap(bytes: nat, align: nat): nat {
    if bytes > LARGE then (bytes + align + 7) / 8 * 8 else BLOCK_SIZE
  }

  class Arena {
    var head: Block?
    var current: Block?
    var bytesUsed: nat
    var blockCount: nat
    ghost var blocks: seq<Block> // oldest first; head is the last one
    ghost var extents: seq<Extent>
    ghost var live: seq<Range>

    ghost predicate Linked()
      reads this`head, this`current, this`blocks, blocks`next
    {
      && (forall i, j | 0 <= i < j < |blocks| :: blocks[i] != blocks[j])
      && head == (if blocks == [] then null else blocks[|blocks| - 1])
      && (blocks != [] ==> blocks[0].next == null)
      && (forall i, j | 0 <= i && j == i + 1 && j < |blocks| :: blocks[j].next == blocks[i])
      && (current != null ==> current in blocks)
    }

    /** The blocks are what the layout says they are. */
    ghost predicate Mirrored()
      reads this`blocks, this`extents, blocks`used
    {
      && |extents| == |blocks|
      && forall i | 0 <= i < |blocks| :: Mirrors(blocks[i], extents[i])
    }

    ghost predicate Valid()
      reads this, blocks
    {
      && Linked() && Mirrored() && LaidOut(extents, live)
      && bytesUsed == TotalSize(live) && blockCount == |blocks|
    }

    constructor ()
      ensures Valid() && live == [] && blocks == []
    {
      head, current, bytesUsed, blockCount := null, null, 0, 0;
      blocks, extents, live := [], [], [];
    }

    /** Null when the aligned bytes do not fit any more. */
    method AllocInBlock(b: Block, ghost k: nat, bytes: nat, align: nat) returns (p: Option<nat>)
      requires Valid() && IsAlignment(align) && k < |blocks| && blocks[k] == b
      modifies this`live, this`bytesUsed, this`extents, b`used
      ensures Valid() && blocks == old(blocks)
      ensures p == (var q := RoundUp(b.data + old(b.used), align);
                    if q + bytes <= b.data + b.cap then Some(q) else None)
      ensures if p.Some? then live == old(live) + [Range(p.value, bytes, align, k)]
              else live == old(live) && b.used == old(b.used)
    {
      var start := b.data + b.used;
      var aligned := RoundUp(start, align);
      RoundUpIsFirst(start, align);
      var pad := aligned - start;
      if b.used + pad + bytes > b.cap { return None; }
      Bump(b, k, aligned, pad, bytes, align);
      return Some(aligned);
    }

    method Bump(b: Block, ghost k: nat, aligned: nat, pad: nat, bytes: nat, ghost align: nat)
      requires Valid() && IsAlignment(align) && k < |blocks| && blocks[k] == b
      requires Aligned(aligned, align) && aligned == b.data + b.used + pad && aligned + bytes <= b.data + b.cap
      modifies this`live, this`bytesUsed, this`extents, b`used
      ensures Valid() && live == old(live) + [Range(aligned, bytes, align, k)]
    {
      ghost var newUsed := b.used + pad + bytes;
      assert Mirrors(b, extents[k]);
      BumpLaidOut(extents, live, k, aligned, bytes, align, newUsed);
      TotalAppend(live, Range(aligned, bytes, align, k));
      SetUsed(b, k, b.used + pad + bytes);
      live := live + [Range(aligned, bytes, align, k)];
      bytesUsed := bytesUsed + bytes;
    }

    method SetUsed(b: Block, ghost k: nat, used: nat)
      requires Linked() && Mirrored() && k < |blocks| && blocks[k] == b
      modifies this`extents, b`used
      ensures Mirrored() && b.used == used && extents == old(extents)[k := old(extents)[k].(used := used)]
    {
      assert Mirrors(b, extents[k]);
      b.used := used;
      extents := extents[k := extents[k].(used := used)];
    }

    /** A new block at the address the system gave, in front of the list. */
    method OpenBlock(base: nat, cap: nat) returns (b: Block)
      requires Valid() && forall i | 0 <= i < |blocks| :: Apart(blocks[i].data, blocks[i].cap, base, cap)
      modifies this`head, this`blockCount, this`blocks, this`extents
      ensures Valid() && fresh(b) && blocks == old(blocks) + [b] && b.data == base && b.cap == cap && b.used == 0
    {
      forall i | 0 <= i < |blocks| ensures Apart(extents[i].data, extents[i].cap, base, cap) { assert Mirrors(blocks[i], extents[i]); }
      NewBlockLaidOut(extents, live, base, cap);
      b := new Block(base, cap, head);
      head := b;
      blockCount := blockCount + 1;
      blocks := blocks + [b];
      extents := extents + [Extent(base, cap, 0)];
    }

    /** base: where the system would put a new block, apart from all present ones; nothing is returned for no bytes. */
    method AllocateAligned(bytes: nat, align: nat, base: nat) returns (p: Option<nat>)
      requires Valid() && IsAlignment(align) && align <= 64
      requires forall i | 0 <= i < |blocks| :: Apart(blocks[i].data, blocks[i].cap, base, BlockCap(bytes, align))
      modifies this, blocks
      ensures Valid() && old(blocks) <= blocks && fresh(blocks[|old(blocks)|..])
      ensures bytes == 0 ==> p == None && live == old(live)
      ensures bytes > 0 ==> p.Some? && |live| == |old(live)| + 1 && live[..|old(live)|] == old(live)
      ensures bytes > 0 ==> var r := live[|old(live)|]; r.addr == p.value && r.size == bytes && r.align == align
    {
      if bytes == 0 { return None; }
      if bytes > LARGE {
        p := AllocInNewBlock(bytes, align, base, false);
        return;
      }
      if current != null {
        p := AllocInCurrent(bytes, align);
        if p.Some? { return; }
      }
      p := SearchBlocks(bytes, align);
      if p.Some? { return; }
      p := AllocInNewBlock(bytes, align, base, true);
    }

    /** The rounding never needs more than the room asked for. */
    method AllocInNewBlock(bytes: nat, align: nat, base: nat, makeCurrent: bool) returns (p: Option<nat>)
      requires Valid() && IsAlignment(align) && BlockCap(bytes, align) >= bytes + align
      requires forall i | 0 <= i < |blocks| :: Apart(blocks[i].data, blocks[i].cap, base, BlockCap(bytes, align))
      modifies this
      ensures Valid() && |blocks| == |old(blocks)| + 1 && old(blocks) <= blocks && fresh(blocks[|old(blocks)|])
      ensures p.Some? && live == old(live) + [Range(p.value, bytes, align, |old(blocks)|)]
    {
      RoundUpIsFirst(base, align);
      var b := OpenBlock(base, BlockCap(bytes, align));
      if makeCurrent { current := b; }
      p := AllocInBlock(b, |blocks| - 1, bytes, align);
    }

    method AllocInCurrent(bytes: nat, align: nat) returns (p: Option<nat>)
      requires Valid() && IsAlignment(align) && current != null
      modifies this`live, this`bytesUsed, this`extents, blocks`used
      ensures Valid() && blocks == old(blocks)
      ensures if p.Some? then exists k :: live == old(live) + [Range(p.value, bytes, align, k)] else live == old(live)
    {
      ghost var k :| 0 <= k < |blocks| && blocks[k] == current;
      p := AllocInBlock(current, k, bytes, align);
    }

    /** The blocks in front of the current one, newest first. */
    method SearchBlocks(bytes: nat, align: nat) returns (p: Option<nat>)
      requires Valid() && IsAlignment(align)
      modifies this`live, this`bytesUsed, this`extents, blocks`used
      ensures Valid() && blocks == old(blocks)
      ensures if p.Some? then exists k :: live == old(live) + [Range(p.value, bytes, align, k)] else live == old(live)
    {
      var b := head;
      ghost var i := |blocks| - 1;
      while b != current
        invariant -1 <= i < |blocks| && b == if i < 0 then null else blocks[i]
        invariant Valid() && blocks == old(blocks) && live == old(live)
        invariant current == null || exists j :: 0 <= j <= i && blocks[j] == current
        decreases i
      {
        if b.cap - b.used >= bytes + align {
          p := AllocInBlock(b, i, bytes, align);
          if p.Some? { return; }
        }
        ghost var below := i - 1;
        assert b.next == if i == 0 then null else blocks[below];
        b := b.next;
        i := below;
      }
      return None;
    }
  }

  /** Two ranges handed out never share a byte. */
  lemma {:induction false} RangesAreApart(es: seq<Extent>, live: seq<Range>, i: nat, j: nat)
    requires LaidOut(es, live) && i < j < |live|
    ensures Apart(live[i].addr, live[i].size, live[j].addr, live[j].size)
    decreases |live|
  {
    if j < |live| - 1 { RangesAreApart(es, live[..|live| - 1], i, j); }
  }
}
