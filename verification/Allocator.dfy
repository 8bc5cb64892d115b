// memory_allocator.c: allocate and free, walking and rewriting the headers in the pool through pointers.
module Allocator {
  import opened Bytes
  import opened FirstFit
  import opened HeapRuns
  import opened Headers

  lemma SameOutsideWider(p: seq<byte>, q: seq<byte>, r: seq<byte>, lo: int, hi: int, lo1: int, hi1: int, lo2: int, hi2: int)
    requires SameOutside(p, q, lo1, hi1) && SameOutside(q, r, lo2, hi2)
    requires lo <= lo1 && hi1 <= hi && lo <= lo2 && hi2 <= hi
    ensures SameOutside(p, r, lo, hi) && |p| == |q| == |r|
  {
  }

  lemma SameOutsideSelf(p: seq<byte>, at: int)
    ensures SameOutside(p, p, at, at)
  {
  }

  lemma CutFacts(b: Block, size: nat)
    requires b.End() <= POOL && b.size > size + HEADER
    ensures (b.size - size - HEADER) % U64 == b.size - size - HEADER
    ensures b.off + HEADER <= b.off + HEADER + size + HEADER <= b.End() == b.off + HEADER + b.size <= POOL
  {
  }

  /** Cut a new free block out of the end of `b`, keeping `b`'s recorded size for now. */
  method Cut(pool: array<byte>, base: nat, o: nat, size: nat, ghost b: Block, ghost nxt: nat)
    requires b.off == o && b.End() <= pool.Length == POOL && base + POOL <= U64 && nxt < U64
    requires b.size > size + HEADER
    requires Header(pool[..], b, nxt)
    modifies pool
    ensures var n := o + HEADER + size;
            Header(pool[..], b, base + n) && Header(pool[..], Block(n, b.size - size - HEADER, true), nxt)
    ensures SameOutside(old(pool[..]), pool[..], o, b.End())
  {
    hide *;
    var n := o + HEADER + size;
    ghost var p := pool[..];
    Sizes();
    CutFacts(b, size);
    HeaderLoads(pool, b, nxt);
    var rest := (Load(pool, o + SIZE, 8) - size - HEADER) % U64;
    Fill(pool, n, rest, Load(pool, o + NEXT, 8));
    ghost var q := pool[..];
    HeaderFrame(p, q, n, n + HEADER, b, nxt);
    SetNext(pool, base + n, b, nxt, o);
    HeaderFrame(q, pool[..], o, o + HEADER, Block(n, rest, true), nxt);
    SameOutsideWider(p, q, pool[..], o, b.End(), n, n + HEADER, o, o + HEADER);
  }

  /** Mark the block at `o` used and record the requested size. */
  method Take(pool: array<byte>, o: nat, size: nat, ghost b: Block, ghost nxt: nat)
    requires b.off == o && b.End() <= pool.Length == POOL && size < U64
    requires Header(pool[..], b, nxt)
    modifies pool
    ensures Header(pool[..], Block(o, size, false), nxt)
    ensures SameOutside(old(pool[..]), pool[..], o, o + HEADER)
  {
    SetFree(pool, 0, b, nxt, o);
    SetSize(pool, size, b.(free := false), nxt, o);
  }

  /** The C test `size + sizeof(MemoryBlock)` cannot wrap, because it runs only when the block fits. */
  lemma ServeFacts(b: Block, size: nat)
    requires Fits(b, size) && b.End() <= POOL
    ensures b.free && b.size >= size && (size + HEADER) % U64 == size + HEADER
    ensures b.off + HEADER + size <= b.End() == b.off + HEADER + b.size && size < U64
  {
  }

  lemma CarvedChain(p: seq<byte>, base: nat, b: Block, size: nat, nxt: nat)
    requires |p| == POOL && b.End() <= POOL && Fits(b, size)
    requires b.size > size + HEADER ==>
      var n := b.off + HEADER + size;
      Header(p, Block(b.off, size, false), base + n) && Header(p, Block(n, b.size - size - HEADER, true), nxt)
    requires b.size <= size + HEADER ==> Header(p, Block(b.off, size, false), nxt)
    ensures InPool(Carve(b, size)) && Chain(p, base, Carve(b, size), nxt)
  {
  }

  /** The in-place part of allocate, at a block that fits. */
  method Serve(pool: array<byte>, base: nat, o: nat, size: nat, ghost b: Block, ghost nxt: nat)
    requires b.off == o && b.End() <= pool.Length == POOL && base + POOL <= U64 && nxt < U64
    requires Fits(b, size)
    requires Header(pool[..], b, nxt)
    modifies pool
    ensures InPool(Carve(b, size)) && Chain(pool[..], base, Carve(b, size), nxt)
    ensures SameOutside(old(pool[..]), pool[..], o, b.End())
  {
    hide *;
    ghost var p := pool[..];
    Sizes();
    ServeFacts(b, size);
    HeaderLoads(pool, b, nxt);
    if Load(pool, o + SIZE, 8) > (size + HEADER) % U64 {
      Cut(pool, base, o, size, b, nxt);
      ghost var q := pool[..];
      ghost var n := Block(o + HEADER + size, b.size - size - HEADER, true);
      Take(pool, o, size, b, base + n.off);
      HeaderFrame(q, pool[..], o, o + HEADER, n, nxt);
      SameOutsideWider(p, q, pool[..], o, b.End(), o, b.End(), o, o + HEADER);
    } else {
      Take(pool, o, size, b, nxt);
      SameOutsideSelf(p, o);
      SameOutsideWider(p, p, pool[..], o, b.End(), o, o, o, o + HEADER);
    }
    CarvedChain(pool[..], base, b, size, nxt);
  }

  lemma PayloadsFrame(p: seq<byte>, q: seq<byte>, bs: seq<Block>, k: nat, m: nat)
    requires Ordered(bs) && k + m <= |bs| && m > 0 && |p| == POOL
    requires forall i :: k <= i < k + m ==> bs[i].free
    requires SameOutside(p, q, bs[k].off, bs[k + m - 1].End())
    ensures PayloadsKept(p, q, bs)
  {
    forall b | b in Live(bs) ensures PayloadKept(p, q, b) {
      PayloadFrame(p, q, bs, k, m, b);
    }
  }

  lemma SameLength(p: seq<byte>, q: seq<byte>, lo: int, hi: int)
    requires SameOutside(p, q, lo, hi)
    ensures |p| == |q|
  {
  }

  lemma ServedFacts(bs: seq<Block>, calls: nat, k: nat, size: nat)
    requires Inv(bs, calls) && k < |bs| && k == Find(bs, size)
    ensures Ordered(bs) && Carve(bs[k], size) != [] && Carve(bs[k], size)[0].off == bs[k].off
    ensures Allocated(bs, size) == Splice(bs, k, 1, Carve(bs[k], size)) && bs[k].free
  {
  }

  lemma Served(p: seq<byte>, q: seq<byte>, base: nat, bs: seq<Block>, calls: nat, k: nat, size: nat)
    requires Inv(bs, calls) && |p| == POOL && Stored(p, base, bs)
    requires k < |bs| && k == Find(bs, size)
    requires SameOutside(p, q, bs[k].off, bs[k].End())
    requires InPool(Carve(bs[k], size)) && Chain(q, base, Carve(bs[k], size), NextOf(base, bs, k, 0))
    ensures Allocated(bs, size) == Splice(bs, k, 1, Carve(bs[k], size))
    ensures Inv(Allocated(bs, size), calls + 1) && Stored(q, base, Allocated(bs, size))
    ensures PayloadsKept(p, q, bs)
  {
    hide *;
    ServedFacts(bs, calls, k, size);
    SameLength(p, q, bs[k].off, bs[k].End());
    AllocatedInv(bs, calls, size);
    StoredSplice(p, q, base, bs, k, 1, Carve(bs[k], size));
    PayloadsFrame(p, q, bs, k, 1);
  }

  // ----- free -----

  lemma KeptThrough(p: seq<byte>, q: seq<byte>, r: seq<byte>, bs: seq<Block>, cs: seq<Block>)
    requires PayloadsKept(p, q, bs) && PayloadsKept(q, r, bs)
    requires Live(cs) <= Live(bs)
    ensures PayloadsKept(p, r, cs)
  {
  }

  /** What the sweep keeps: the pool stores `bs`, the blocks before `k` are done, and finishing gives `goal`. */
  ghost predicate Sweeping(p0: seq<byte>, p: seq<byte>, base: nat, goal: seq<Block>, bs: seq<Block>, k: nat) {
    && |p| == POOL && k <= |bs| && Ordered(bs)
    && Stored(p, base, bs)
    && SweepFrom(bs, k) == goal
    && PayloadsKept(p0, p, bs)
  }

  lemma SingleChain(p: seq<byte>, base: nat, b: Block, nxt: nat)
    requires |p| == POOL && b.off + HEADER <= b.End() <= POOL && Header(p, b, nxt)
    ensures InPool([b]) && Chain(p, base, [b], nxt)
  {
  }

  lemma MergeFacts(bs: seq<Block>, k: nat)
    requires Ordered(bs) && k + 2 <= |bs|
    ensures var g := Merged(bs[k], bs[k + 1]); g.off + HEADER <= g.End() <= POOL && g.off == bs[k].off
    ensures bs[k].off + HEADER <= bs[k + 1].End()
  {
    assert bs[k].End() <= bs[k + 1].off;
  }

  lemma MergeStored(p: seq<byte>, q: seq<byte>, base: nat, bs: seq<Block>, k: nat)
    requires Ordered(bs) && k + 2 <= |bs| && bs[k].free && bs[k + 1].free
    requires |p| == POOL && Stored(p, base, bs)
    requires SameOutside(p, q, bs[k].off, bs[k].off + HEADER)
    requires Header(q, Merged(bs[k], bs[k + 1]), NextOf(base, bs, k + 1, 0))
    ensures var cs := Splice(bs, k, 2, [Merged(bs[k], bs[k + 1])]);
            InPool(cs) && Stored(q, base, cs) && PayloadsKept(p, q, bs)
  {
    hide *;
    var g := Merged(bs[k], bs[k + 1]);
    MergeFacts(bs, k);
    SameOutsideSelf(p, bs[k].off);
    SameOutsideWider(p, p, q, bs[k].off, bs[k + 1].End(), bs[k].off, bs[k].off, bs[k].off, bs[k].off + HEADER);
    SingleChain(q, base, g, NextOf(base, bs, k + 1, 0));
    StoredSplice(p, q, base, bs, k, 2, [g]);
    PayloadsFrame(p, q, bs, k, 2);
  }

  lemma SweepingOut(p0: seq<byte>, p: seq<byte>, base: nat, goal: seq<Block>, bs: seq<Block>, k: nat)
    requires Sweeping(p0, p, base, goal, bs, k)
    ensures |p| == POOL && k <= |bs| && Ordered(bs) && InPool(bs)
    ensures Stored(p, base, bs) && SweepFrom(bs, k) == goal && PayloadsKept(p0, p, bs)
  {
  }

  lemma SweepingIn(p0: seq<byte>, p: seq<byte>, base: nat, goal: seq<Block>, bs: seq<Block>, k: nat)
    requires |p| == POOL && Ordered(bs) && k <= |bs|
    requires Stored(p, base, bs) && SweepFrom(bs, k) == goal && PayloadsKept(p0, p, bs)
    ensures Sweeping(p0, p, base, goal, bs, k)
  {
  }

  lemma SweepMerged(p0: seq<byte>, p: seq<byte>, q: seq<byte>, base: nat, goal: seq<Block>, bs: seq<Block>, k: nat)
    requires k + 2 <= |bs| && bs[k].free && bs[k + 1].free && bs[k].off + HEADER <= |q|
    requires Sweeping(p0, p, base, goal, bs, k)
    requires SameOutside(p, q, bs[k].off, bs[k].off + HEADER)
    requires Header(q, Merged(bs[k], bs[k + 1]), NextOf(base, bs, k + 1, 0))
    ensures Sweeping(p0, q, base, goal, Splice(bs, k, 2, [Merged(bs[k], bs[k + 1])]), k + 1)
  {
    hide *;
    SweepingOut(p0, p, base, goal, bs, k);
    SweepFromMerge(bs, k);
    MergeOrdered(bs, k);
    MergedLive(bs, k);
    MergeStored(p, q, base, bs, k);
    KeptThrough(p0, p, q, bs, Splice(bs, k, 2, [Merged(bs[k], bs[k + 1])]));
    SweepingIn(p0, q, base, goal, Splice(bs, k, 2, [Merged(bs[k], bs[k + 1])]), k + 1);
  }

  lemma AbsorbFacts(a: Block, b: Block)
    requires a.End() <= b.off && b.End() <= POOL
    ensures a.off + HEADER <= a.End() && b.off + HEADER <= b.End()
    ensures (a.size + HEADER + b.size) % U64 == a.size + HEADER + b.size < U64
    ensures SIZE + 8 <= HEADER && IS_FREE + 4 <= HEADER && NEXT + 8 <= HEADER && POOL < U64
  {
  }

  lemma AbsorbDone(p: seq<byte>, q: seq<byte>, pool: array<byte>, a: Block, b: Block, nxt: nat, size: nat)
    requires a.off + HEADER <= pool.Length && size == a.size + HEADER + b.size
    requires Header(pool[..], a.(size := size), nxt)
    requires SameOutside(p, q, a.off, a.off + HEADER) && SameOutside(q, pool[..], a.off, a.off + HEADER)
    ensures Header(pool[..], Merged(a, b), nxt) && Load(pool, a.off + NEXT, 8) == nxt
    ensures SameOutside(p, pool[..], a.off, a.off + HEADER)
  {
    HeaderLoads(pool, a.(size := size), nxt);
  }

  /** The block takes over the bytes, the header's included, and the link of the block after it. */
  method Absorb(pool: array<byte>, base: nat, o: nat, ghost a: Block, ghost b: Block, ghost nxt: nat)
    requires a.off == o && a.End() <= b.off && b.End() <= pool.Length == POOL && base + POOL <= U64 && nxt < U64
    requires Header(pool[..], a, base + b.off) && Header(pool[..], b, nxt)
    modifies pool
    ensures Header(pool[..], Merged(a, b), nxt) && Load(pool, o + NEXT, 8) == nxt
    ensures SameOutside(old(pool[..]), pool[..], o, o + HEADER)
  {
    hide *;
    ghost var p := pool[..];
    AbsorbFacts(a, b);
    HeaderLoads(pool, a, base + b.off);
    HeaderLoads(pool, b, nxt);
    var n := Load(pool, o + NEXT, 8) - base;
    var size := (Load(pool, o + SIZE, 8) + HEADER + Load(pool, n + SIZE, 8)) % U64;
    SetSize(pool, size, a, base + b.off, o);
    HeaderFrame(p, pool[..], o, o + HEADER, b, nxt);
    HeaderLoads(pool, b, nxt);
    ghost var q := pool[..];
    SetNext(pool, Load(pool, n + NEXT, 8), a.(size := size), base + b.off, o);
    AbsorbDone(p, q, pool, a, b, nxt, size);
  }

  /** The address of block `k`'s header; NULL past the last one. */
  ghost function Addr(base: nat, bs: seq<Block>, k: nat): nat {
    if k < |bs| then base + bs[k].off else 0
  }

  /** What a walk reads at block `k`. */
  lemma ReadAt(pool: array<byte>, base: nat, bs: seq<Block>, k: nat)
    requires pool.Length == POOL && Ordered(bs) && Stored(pool[..], base, bs) && k < |bs|
    requires 0 < base && base + POOL <= U64
    ensures var b, nxt := bs[k], NextOf(base, bs, k, 0);
            && b.off + HEADER <= b.End() <= POOL && Addr(base, bs, k) == base + b.off && nxt == Addr(base, bs, k + 1) < U64
            && Header(pool[..], b, nxt)
            && Load(pool, b.off + SIZE, 8) == b.size
            && (Load(pool, b.off + IS_FREE, 4) != 0) == b.free
            && Load(pool, b.off + NEXT, 8) == nxt
    ensures k + 1 < |bs| ==> bs[k].End() <= bs[k + 1].off && bs[k + 1].End() <= POOL
    ensures Addr(base, bs, k + 1) != 0 <==> k + 1 < |bs|
    ensures k + 1 < |bs| ==> NextOf(base, bs, k, 0) == base + bs[k + 1].off
  {
    assert Header(pool[..], bs[k], NextOf(base, bs, k, 0));
  }

  lemma SweepSkipped(pool: array<byte>, base: nat, p0: seq<byte>, goal: seq<Block>, bs: seq<Block>, k: nat)
    requires pool.Length == POOL && k + 1 < |bs| && !(bs[k].free && bs[k + 1].free)
    requires Sweeping(p0, pool[..], base, goal, bs, k)
    ensures Sweeping(p0, pool[..], base, goal, bs, k + 1)
  {
    SweepFromSkip(bs, k);
  }

  lemma MergedFacts(base: nat, bs: seq<Block>, k: nat)
    requires k + 1 < |bs|
    ensures var cs := Splice(bs, k, 2, [Merged(bs[k], bs[k + 1])]);
            && Addr(base, cs, k + 1) == NextOf(base, bs, k + 1, 0)
            && |cs| == |bs| - 1 && cs[0].off == bs[0].off
  {
  }

  lemma FitsIs(b: Block, n: nat)
    ensures Fits(b, n) <==> b.free && b.size >= n
  {
  }

  /** One iteration of the coalescing loop of free. */
  method SweepStep(pool: array<byte>, base: nat, current: nat,
                   ghost p0: seq<byte>, ghost goal: seq<Block>, ghost bs: seq<Block>, ghost k: nat)
    returns (next: nat, ghost cs: seq<Block>)
    requires pool.Length == POOL && 0 < base && base + POOL <= U64
    requires Sweeping(p0, pool[..], base, goal, bs, k)
    requires k + 1 < |bs| && current == Addr(base, bs, k)
    modifies pool
    ensures Sweeping(p0, pool[..], base, goal, cs, k + 1)
    ensures next == Addr(base, cs, k + 1) && |cs| <= |bs|
    ensures |cs| > 0 && cs[0].off == bs[0].off
  {
    hide *;
    Sizes();
    SweepingOut(p0, pool[..], base, goal, bs, k);
    ReadAt(pool, base, bs, k);
    ReadAt(pool, base, bs, k + 1);
    var o := current - base;
    var n := Load(pool, o + NEXT, 8) - base;
    cs := bs;
    if Load(pool, o + IS_FREE, 4) != 0 && Load(pool, n + IS_FREE, 4) != 0 {
      ghost var p, nxt := pool[..], NextOf(base, bs, k + 1, 0);
      Absorb(pool, base, o, bs[k], bs[k + 1], nxt);
      SweepMerged(p0, p, pool[..], base, goal, bs, k);
      MergedFacts(base, bs, k);
      cs := Splice(bs, k, 2, [Merged(bs[k], bs[k + 1])]);
    } else {
      SweepSkipped(pool, base, p0, goal, bs, k);
    }
    next := Load(pool, o + NEXT, 8);
  }

  lemma Arrive(pool: array<byte>, base: nat, p0: seq<byte>, goal: seq<Block>, bs: seq<Block>, k: nat)
    requires Sweeping(p0, pool[..], base, goal, bs, k) && pool.Length == POOL && 0 < base && base + POOL <= U64
    ensures k <= |bs| && (Addr(base, bs, k) == 0 <==> k == |bs|)
    ensures k < |bs| ==>
      && base <= Addr(base, bs, k) && Addr(base, bs, k) - base + NEXT + 8 <= pool.Length
      && Load(pool, Addr(base, bs, k) - base + NEXT, 8) == Addr(base, bs, k + 1)
    ensures Addr(base, bs, k + 1) != 0 <==> k + 1 < |bs|
  {
    if k < |bs| {
      ReadAt(pool, base, bs, k);
    }
  }

  lemma Arrived(pool: array<byte>, base: nat, p0: seq<byte>, goal: seq<Block>, bs: seq<Block>, k: nat)
    requires Sweeping(p0, pool[..], base, goal, bs, k) && |bs| <= k + 1
    ensures bs == goal
  {
    SweepFromEnd(bs, k);
  }

  /** The coalescing loop of free. */
  method Coalesce(pool: array<byte>, base: nat, ghost p0: seq<byte>, ghost goal: seq<Block>, ghost marked: seq<Block>)
    returns (ghost k: nat)
    requires pool.Length == POOL && 0 < base && base + POOL <= U64
    requires Sweeping(p0, pool[..], base, goal, marked, 0)
    requires base == Addr(base, marked, 0)
    modifies pool
    ensures Sweeping(p0, pool[..], base, goal, goal, k)
  {
    hide *;
    var current := base;
    ghost var bs := marked;
    k := 0;
    Arrive(pool, base, p0, goal, bs, k);
    while current != 0 && Load(pool, current - base + NEXT, 8) != 0
      invariant Sweeping(p0, pool[..], base, goal, bs, k)
      invariant k <= |bs| && current == Addr(base, bs, k)
      invariant current == 0 <==> k == |bs|
      invariant current != 0 ==> base <= current && current - base + NEXT + 8 <= pool.Length
      invariant current != 0 ==> (Load(pool, current - base + NEXT, 8) != 0 <==> k + 1 < |bs|)
      decreases |bs| - k
    {
      current, bs := SweepStep(pool, base, current, p0, goal, bs, k);
      k := k + 1;
      Arrive(pool, base, p0, goal, bs, k);
    }
    Arrived(pool, base, p0, goal, bs, k);
  }

  lemma MarkedSplice(bs: seq<Block>, k: nat)
    requires Ordered(bs) && k < |bs|
    ensures var m, b := Marked(bs, bs[k].off), bs[k].(free := true);
            && m == Splice(bs, k, 1, [b]) && |m| == |bs| && m[k] == b && b.End() == bs[k].End()
            && b.off + HEADER <= b.End() <= POOL && m[k].End() == b.End()
            && Ordered(m) && Freed(bs, bs[k].off) == SweepFrom(m, 0)
  {
    MarkedAt(bs, k);
    var m := Marked(bs, bs[k].off);
    assert m[..0] + Sweep(m[0..]) == Sweep(m);
  }

  lemma SweepingNow(p0: seq<byte>, q: seq<byte>, base: nat, bs: seq<Block>, k: nat)
    requires k < |bs| && |q| == POOL && Ordered(bs)
    requires var m := Marked(bs, bs[k].off); Ordered(m) && Stored(q, base, m) && PayloadsKept(p0, q, m)
    ensures Sweeping(p0, q, base, Freed(bs, bs[k].off), Marked(bs, bs[k].off), 0)
  {
    MarkedSplice(bs, k);
  }

  /** Once the freed block reads as free, the sweep can start: its goal is the whole free operation. */
  lemma SweepStarts(p: seq<byte>, q: seq<byte>, base: nat, bs: seq<Block>, k: nat)
    requires |p| == POOL && Ordered(bs) && k < |bs| && Stored(p, base, bs)
    requires SameOutside(p, q, bs[k].off, bs[k].off + HEADER) && bs[k].off + HEADER <= |q|
    requires Header(q, bs[k].(free := true), NextOf(base, bs, k, 0))
    ensures Sweeping(p, q, base, Freed(bs, bs[k].off), Marked(bs, bs[k].off), 0)
  {
    hide *;
    var m, b := Marked(bs, bs[k].off), bs[k].(free := true);
    MarkedSplice(bs, k);
    SameOutsideSelf(p, b.off);
    SameOutsideWider(p, p, q, b.off, b.End(), b.off, b.off, b.off, b.off + HEADER);
    SingleChain(q, base, b, NextOf(base, bs, k, 0));
    StoredSplice(p, q, base, bs, k, 1, [b]);
    PayloadsFrame(p, q, m, k, 1);
    SweepingNow(p, q, base, bs, k);
  }

  class Allocator {
    const pool: array<byte>
    const base: nat          // the address of memory_pool, which is also free_list
    ghost var blocks: seq<Block>
    ghost var calls: nat     // how often allocate has been called

    ghost predicate Valid()
      reads this, pool
    {
      && pool.Length == POOL && 0 < base && base + POOL <= U64
      && Inv(blocks, calls)
      && Stored(pool[..], base, blocks)
    }

    /** memory_allocator_init, on a pool with any contents. */
    constructor (pool: array<byte>, base: nat)
      requires pool.Length == POOL && 0 < base && base + POOL <= U64
      modifies pool
      ensures Valid() && this.pool == pool && this.base == base
      ensures blocks == Init() && calls == 0
    {
      this.pool, this.base := pool, base;
      blocks, calls := Init(), 0;
      new;
      Fill(pool, 0, POOL - HEADER, 0);
      InitInv();
    }

    lemma Start()
      requires Valid()
      ensures Addr(base, blocks, 0) == base && base > 0 && pool.Length == POOL && base + POOL <= U64 && blocks != []
      ensures forall k: nat :: Addr(base, blocks, k) != 0 <==> k < |blocks|
      ensures Inv(blocks, calls) && Ordered(blocks) && Stored(pool[..], base, blocks)
    {
    }

    lemma Restore()
      requires pool.Length == POOL && 0 < base && base + POOL <= U64
      requires Inv(blocks, calls) && Stored(pool[..], base, blocks)
      ensures Valid()
    {
    }

    /** The body of allocate's search loop, at the block it stops at. */
    method ServeAt(o: nat, size: nat, ghost k: nat)
      requires Valid() && size < U64
      requires k < |blocks| && k == Find(blocks, size) && o == blocks[k].off
      modifies this, pool
      ensures Valid()
      ensures blocks == Allocated(old(blocks), size) && calls == old(calls) + 1
      ensures Live(blocks) == old(Live(blocks)) + {Block(o, size, false)}
      ensures PayloadsKept(old(pool[..]), pool[..], old(blocks))
    {
      hide *;
      Start();
      ReadAt(pool, base, blocks, k);
      AllocatedLive(blocks, size);
      ghost var b, nxt := blocks[k], NextOf(base, blocks, k, 0);
      Serve(pool, base, o, size, b, nxt);
      Served(old(pool[..]), pool[..], base, blocks, calls, k, size);
      blocks, calls := Allocated(blocks, size), calls + 1;
      Restore();
    }

    lemma PayloadsSame()
      requires Valid()
      ensures PayloadsKept(pool[..], pool[..], blocks)
    {
    }

    lemma NoneServed(size: nat, k: nat)
      requires Valid() && k <= |blocks| && Addr(base, blocks, k) == 0
      requires forall j :: 0 <= j < k ==> !Fits(blocks[j], size)
      ensures Allocated(blocks, size) == blocks && Find(blocks, size) == |blocks|
      ensures Inv(blocks, calls + 1)
    {
    }

    /** allocate: walk the list to the first block that fits. */
    method Allocate(size: nat) returns (ptr: nat)
      requires Valid() && size < U64
      modifies this, pool
      ensures Valid()
      ensures blocks == Allocated(old(blocks), size) && calls == old(calls) + 1
      ensures var bs, k := old(blocks), Find(old(blocks), size);
              ptr == if k < |bs| then base + bs[k].off + HEADER else 0
      ensures ptr != 0 ==> ptr >= base + HEADER
                           && Live(blocks) == old(Live(blocks)) + {Block(ptr - HEADER - base, size, false)}
      ensures ptr == 0 ==> pool[..] == old(pool[..])
      ensures PayloadsKept(old(pool[..]), pool[..], old(blocks))
    {
      hide *;
      var current := base;
      ghost var k := 0;
      Sizes();
      Start();
      while current != 0
        invariant Valid() && k <= |blocks| && current == Addr(base, blocks, k)
        invariant blocks == old(blocks) && calls == old(calls) && pool[..] == old(pool[..])
        invariant forall j :: 0 <= j < k ==> !Fits(blocks[j], size)
        decreases |blocks| - k
      {
        Start();
        ReadAt(pool, base, blocks, k);
        FitsIs(blocks[k], size);
        var o := current - base;
        if Load(pool, o + IS_FREE, 4) != 0 && Load(pool, o + SIZE, 8) >= size {
          break;
        }
        current := Load(pool, o + NEXT, 8);
        k := k + 1;
      }
      Start();
      if current != 0 {
        ReadAt(pool, base, blocks, k);
        ServeAt(current - base, size, k);
        return current + HEADER;
      }
      PayloadsSame();
      NoneServed(size, k);
      calls := calls + 1;
      Restore();
      return 0;
    }

    /** The block a client's pointer belongs to. */
    lemma FindBlock(ptr: nat) returns (k: nat)
      requires Valid() && exists b :: b in Live(blocks) && ptr == base + b.off + HEADER
      ensures k < |blocks| && ptr == base + blocks[k].off + HEADER && blocks[k] in Live(blocks)
    {
      var b :| b in Live(blocks) && ptr == base + b.off + HEADER;
      k :| 0 <= k < |blocks| && blocks[k] == b;
    }

    /** What the stores of free rely on. */
    lemma FreeStart(k: nat)
      requires Valid() && k < |blocks|
      ensures blocks[k].off + HEADER <= pool.Length == POOL && 0 < base && base + POOL <= U64
      ensures Ordered(blocks) && Stored(pool[..], base, blocks)
      ensures Header(pool[..], blocks[k], NextOf(base, blocks, k, 0))
      ensures base == Addr(base, Marked(blocks, blocks[k].off), 0)
      ensures Inv(Freed(blocks, blocks[k].off), calls)
      ensures Live(Freed(blocks, blocks[k].off)) == Live(blocks) - {blocks[k]}
    {
      FreedInv(blocks, calls, k);
      MarkedAt(blocks, k);
      assert blocks[k].End() <= POOL;
    }

    lemma Swept(p0: seq<byte>, goal: seq<Block>, k: nat)
      requires pool.Length == POOL && 0 < base && base + POOL <= U64
      requires Sweeping(p0, pool[..], base, goal, goal, k)
      requires blocks == goal && Inv(blocks, calls)
      ensures Valid() && PayloadsKept(p0, pool[..], blocks)
    {
    }

    /** free, for a pointer into block `k`: mark the block, then sweep the whole list once. */
    method FreeBlock(o: nat, ghost k: nat)
      requires Valid() && k < |blocks| && o == blocks[k].off
      modifies this, pool
      ensures Valid() && calls == old(calls)
      ensures blocks == Freed(old(blocks), o)
      ensures Live(blocks) == old(Live(blocks)) - {old(blocks[k])}
      ensures PayloadsKept(old(pool[..]), pool[..], blocks)
    {
      hide *;
      Sizes();
      FreeStart(k);
      ghost var p0, goal, b, nxt := pool[..], Freed(blocks, o), blocks[k], NextOf(base, blocks, k, 0);
      SetFree(pool, 1, b, nxt, o);
      SweepStarts(p0, pool[..], base, blocks, k);
      ghost var i := Coalesce(pool, base, p0, goal, Marked(blocks, o));
      blocks := goal;
      Swept(p0, goal, i);
    }

    /** free, of NULL or of a pointer that allocate returned and that is still held. */
    method Free(ptr: nat)
      requires Valid()
      requires ptr == 0 || exists b :: b in Live(blocks) && ptr == base + b.off + HEADER
      modifies this, pool
      ensures Valid() && calls == old(calls)
      ensures ptr == 0 ==> blocks == old(blocks) && pool[..] == old(pool[..])
      ensures ptr != 0 ==> blocks == Freed(old(blocks), ptr - HEADER - base)
      ensures ptr != 0 ==> exists b :: b in old(Live(blocks)) && ptr == base + b.off + HEADER
                                       && Live(blocks) == old(Live(blocks)) - {b}
      ensures PayloadsKept(old(pool[..]), pool[..], blocks)
    {
      hide *;
      if ptr == 0 {
        PayloadsSame();
        return;
      }
      ghost var k := FindBlock(ptr);
      FreeBlock(ptr - HEADER - base, k);
    }

    lemma ClientIndex(b: Block, x: nat) returns (k: nat)
      requires Valid() && b in Live(blocks) && b.off + HEADER <= x < b.End()
      ensures x < POOL && InPool(blocks) && Stored(pool[..], base, blocks) && Inv(blocks, calls)
      ensures forall i :: 0 <= i < |blocks| ==> blocks[i].off + HEADER <= x || x + 1 <= blocks[i].off
    {
      k :| 0 <= k < |blocks| && blocks[k] == b;
      forall i | 0 <= i < |blocks| ensures blocks[i].off + HEADER <= x || x + 1 <= blocks[i].off {
        assert i < k ==> blocks[i].End() <= blocks[k].off;
        assert k < i ==> blocks[k].End() <= blocks[i].off;
      }
    }

    /** A client storing a byte inside a payload it holds cannot disturb the list. */
    method ClientStore(ghost b: Block, x: nat, v: byte)
      requires Valid() && b in Live(blocks) && b.off + HEADER <= x < b.End()
      modifies pool
      ensures Valid()
      ensures x < pool.Length && pool[..] == old(pool[..])[x := v]
    {
      ghost var p := pool[..];
      ghost var k := ClientIndex(b, x);
      pool[x] := v;
      ChainFrame(p, pool[..], x, x + 1, base, blocks, 0);
    }
  }
}
