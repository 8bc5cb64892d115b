// Whole runs of allocate and free from memory_allocator_init, by clients that free only what they hold.
module HeapRuns {
  import opened FirstFit

  datatype Op = Alloc(size: nat) | Free(off: nat) | FreeNull

  /** What holds in every reachable state, after `calls` calls of allocate. */
  ghost predicate Inv(bs: seq<Block>, calls: nat) {
    && Layout(bs)
    && Pairs(bs) <= 1
    && 0 <= Leak(bs) <= HEADER * calls
  }

  ghost predicate Holds(bs: seq<Block>, off: nat) {
    exists k :: 0 <= k < |bs| && bs[k].off == off && !bs[k].free
  }

  ghost predicate Enabled(bs: seq<Block>, op: Op) {
    op.Free? ==> Holds(bs, op.off)
  }

  function Step(bs: seq<Block>, op: Op): seq<Block> {
    match op
    case Alloc(n) => Allocated(bs, n)
    case Free(off) => Freed(bs, off)
    case FreeNull => bs
  }

  function Run(ops: seq<Op>): seq<Block> {
    if ops == [] then Init() else Step(Run(ops[..|ops| - 1]), ops[|ops| - 1])
  }

  ghost predicate Legal(ops: seq<Op>) {
    ops == [] || (Legal(ops[..|ops| - 1]) && Enabled(Run(ops[..|ops| - 1]), ops[|ops| - 1]))
  }

  function Allocs(ops: seq<Op>): nat {
    if ops == [] then 0 else Allocs(ops[..|ops| - 1]) + if ops[|ops| - 1].Alloc? then 1 else 0
  }

  /** The bytes written off so far: at each allocation that does not cut its block, what the block had too much. */
  function Ledger(ops: seq<Op>): nat {
    if ops == [] then 0
    else
      var bs, op := Run(ops[..|ops| - 1]), ops[|ops| - 1];
      Ledger(ops[..|ops| - 1]) + match op
        case Alloc(n) =>
          var k := Find(bs, n);
          if k < |bs| && bs[k].size <= n + HEADER then bs[k].size - n else 0
        case Free(_) => 0
        case FreeNull => 0
  }

  /** What the clients believe they hold, kept from requests and returned addresses alone. */
  ghost function Held(ops: seq<Op>): set<Block> {
    if ops == [] then {}
    else
      var before, op := Held(ops[..|ops| - 1]), ops[|ops| - 1];
      var bs := Run(ops[..|ops| - 1]);
      match op
      case Alloc(n) =>
        var k := Find(bs, n);
        if k < |bs| then before + {Block(bs[k].off, n, false)} else before
      case Free(off) => set b | b in before && b.off != off
      case FreeNull => before
  }

  // ----- one step -----

  lemma InitInv()
    ensures Inv(Init(), 0)
  {
    PairsShort(Init());
    assert Init()[1..] == [];
  }

  /** In every state, at most two blocks per live block and two more. */
  lemma InvFragmentation(bs: seq<Block>, calls: nat)
    requires Inv(bs, calls)
    ensures |bs| <= 2 * |Live(bs)| + 2
  {
    LiveCount(bs);
    CountBound(bs);
  }

  lemma AllocatedInv(bs: seq<Block>, calls: nat, n: nat)
    requires Inv(bs, calls)
    ensures Inv(Allocated(bs, n), calls + 1)
  {
    AllocatedLayout(bs, n);
    AllocatedPairs(bs, n);
    AllocatedLeak(bs, n);
  }

  lemma FreedInv(bs: seq<Block>, calls: nat, k: nat)
    requires Inv(bs, calls) && k < |bs|
    ensures Inv(Freed(bs, bs[k].off), calls)
    ensures Live(Freed(bs, bs[k].off)) == Live(bs) - {bs[k]}
  {
    var m := Marked(bs, bs[k].off);
    MarkedAt(bs, k);
    MarkedPairs(bs, k);
    MarkedLive(bs, k);
    SweepOrdered(m);
    SweepPairs(m);
    SweepLive(m);
    FreedLeak(bs, k);
  }

  // ----- whole runs -----

  /** At most one neighbouring free pair, ordered disjoint blocks, and at most 24 bytes lost per allocate call. */
  lemma {:induction false} RunInv(ops: seq<Op>)
    requires Legal(ops)
    ensures Inv(Run(ops), Allocs(ops))
  {
    if ops == [] {
      InitInv();
    } else {
      var before, op := ops[..|ops| - 1], ops[|ops| - 1];
      RunInv(before);
      var bs := Run(before);
      match op
      case Alloc(n) => AllocatedInv(bs, Allocs(before), n);
      case Free(off) =>
        var k :| 0 <= k < |bs| && bs[k].off == off && !bs[k].free;
        FreedInv(bs, Allocs(before), k);
      case FreeNull =>
    }
  }

  lemma LiveByOffset(bs: seq<Block>, k: nat)
    requires Ordered(bs) && k < |bs|
    ensures (set b | b in Live(bs) && b.off != bs[k].off) == Live(bs) - {bs[k]}
  {
    forall b | b in Live(bs) && b != bs[k] ensures b.off != bs[k].off {
      var i :| 0 <= i < |bs| && bs[i] == b;
      assert i < k ==> bs[i].End() <= bs[k].off;
      assert k < i ==> bs[k].End() <= bs[i].off;
    }
  }

  /** Every byte range handed out stays exactly as requested until its own free:
      the used blocks are what clients hold. */
  lemma {:induction false} RunLive(ops: seq<Op>)
    requires Legal(ops)
    ensures Live(Run(ops)) == Held(ops)
  {
    if ops == [] {
    } else {
      var before, op := ops[..|ops| - 1], ops[|ops| - 1];
      RunInv(before);
      RunLive(before);
      var bs := Run(before);
      match op
      case Alloc(n) => AllocatedLive(bs, n);
      case Free(off) =>
        var k :| 0 <= k < |bs| && bs[k].off == off && !bs[k].free;
        FreedInv(bs, Allocs(before), k);
        LiveByOffset(bs, k);
      case FreeNull =>
    }
  }

  /** Every step accounts for its bytes: the blocks and the ledger always add up to the pool. */
  lemma {:induction false} RunConserves(ops: seq<Op>)
    requires Legal(ops)
    ensures Total(Run(ops)) + Ledger(ops) == POOL && Ledger(ops) <= HEADER * Allocs(ops)
  {
    if ops == [] {
      assert Init()[1..] == [];
    } else {
      var before, op := ops[..|ops| - 1], ops[|ops| - 1];
      RunConserves(before);
      RunInv(before);
      var bs := Run(before);
      match op
      case Alloc(n) => AllocatedLeak(bs, n);
      case Free(off) =>
        var k :| 0 <= k < |bs| && bs[k].off == off && !bs[k].free;
        FreedLeak(bs, k);
      case FreeNull =>
    }
  }

  /** Held ranges, headers included, are pairwise disjoint and inside the pool. */
  lemma RunDisjoint(ops: seq<Op>, a: Block, b: Block)
    requires Legal(ops) && a in Held(ops) && b in Held(ops) && a != b
    ensures a.End() <= POOL && (a.End() <= b.off || b.End() <= a.off)
  {
    RunInv(ops);
    RunLive(ops);
    var bs := Run(ops);
    var i :| 0 <= i < |bs| && bs[i] == a;
    var j :| 0 <= j < |bs| && bs[j] == b;
    assert i < j ==> bs[i].End() <= bs[j].off;
    assert j < i ==> bs[j].End() <= bs[i].off;
  }

  /** The list never grows past twice the number of held blocks plus two. */
  lemma RunFragmentation(ops: seq<Op>)
    requires Legal(ops)
    ensures |Run(ops)| <= 2 * |Held(ops)| + 2
  {
    RunInv(ops);
    RunLive(ops);
    InvFragmentation(Run(ops), Allocs(ops));
  }

  lemma TwoFreeBlocks(bs: seq<Block>, n: nat)
    requires 0 < |bs| <= 2 && Live(bs) == {}
    requires 2 * n + 2 * HEADER + Leak(bs) <= POOL
    ensures Find(bs, n) < |bs|
  {
    forall i | 0 <= i < |bs| ensures bs[i].free {
      assert bs[i] !in Live(bs);
    }
    if |bs| == 1 {
      assert bs == [bs[0]];
      assert Total(bs) == HEADER + bs[0].size;
    } else {
      assert bs == [bs[0]] + [bs[1]];
      TotalConcat([bs[0]], [bs[1]]);
      assert Total([bs[0]]) == HEADER + bs[0].size && Total([bs[1]]) == HEADER + bs[1].size;
    }
    assert Fits(bs[0], n) || Fits(bs[|bs| - 1], n);
  }

  /** With nothing held, a request for up to half of what is left of the pool is served. */
  lemma RunHalfCapacity(ops: seq<Op>, n: nat)
    requires Legal(ops) && Held(ops) == {}
    requires 2 * n + 2 * HEADER + Leak(Run(ops)) <= POOL
    ensures Find(Run(ops), n) < |Run(ops)|
  {
    RunInv(ops);
    RunLive(ops);
    RunFragmentation(ops);
    TwoFreeBlocks(Run(ops), n);
  }

  lemma RunSnoc(ops: seq<Op>, op: Op)
    ensures Run(ops + [op]) == Step(Run(ops), op)
    ensures Legal(ops + [op]) == (Legal(ops) && Enabled(Run(ops), op))
    ensures Allocs(ops + [op]) == Allocs(ops) + if op.Alloc? then 1 else 0
  {
    assert (ops + [op])[..|ops + [op]| - 1] == ops;
  }

  lemma FirstAllocated()
    ensures Allocated(Init(), 8) == [Block(0, 8, false), Block(32, POOL - 56, true)]
  {
  }

  lemma SecondAllocated(a: Block, b: Block)
    requires !a.free && b == Block(32, POOL - 56, true)
    ensures Allocated([a, b], 8) == [a, Block(32, 8, false), Block(64, POOL - 88, true)]
  {
    assert [a, b][1..] == [b];
    assert Find([b], 8) == 0;
    assert Find([a, b], 8) == 1;
  }

  lemma TwoAllocated()
    ensures Legal([Alloc(8), Alloc(8)])
    ensures Run([Alloc(8), Alloc(8)]) == [Block(0, 8, false), Block(32, 8, false), Block(64, POOL - 88, true)]
  {
    hide Allocated;
    RunSnoc([], Alloc(8));
    RunSnoc([Alloc(8)], Alloc(8));
    assert [] + [Alloc(8)] == [Alloc(8)] && [Alloc(8)] + [Alloc(8)] == [Alloc(8), Alloc(8)];
    FirstAllocated();
    SecondAllocated(Block(0, 8, false), Block(32, POOL - 56, true));
  }

  lemma TwoFreed(rest: Block)
    requires rest.off == 64 && rest.free
    ensures var b2 := [Block(0, 8, false), Block(32, 8, false), rest];
            var b3 := [Block(0, 8, true), Block(32, 8, false), rest];
            && Holds(b2, 0) && Freed(b2, 0) == b3
            && Holds(b3, 32) && Freed(b3, 32) == [Block(0, 40, true), rest]
  {
    var b2 := [Block(0, 8, false), Block(32, 8, false), rest];
    var b3 := [Block(0, 8, true), Block(32, 8, false), rest];
    assert b2[0].off == 0 && b3[1].off == 32;
    assert Marked(b2, 0) == b3;
    assert b3[1..] == [b3[1], rest] && b3[1..][1..] == [rest];
    assert Sweep([b3[1], rest]) == [b3[1], rest];
    var m := [Block(0, 8, true), Block(32, 8, true), rest];
    assert Marked(b3, 32) == m && m[2..] == [rest];
  }

  /** Both bounds are met: after two requests and two frees everything is free, yet in two neighbouring blocks. */
  lemma NeighboursCanStayFree()
    ensures var ops := [Alloc(8), Alloc(8), Free(0), Free(32)];
            Legal(ops) && Held(ops) == {} && Pairs(Run(ops)) == 1 && |Run(ops)| == 2
  {
    var o2, o3, o4 := [Alloc(8), Alloc(8)], [Alloc(8), Alloc(8), Free(0)], [Alloc(8), Alloc(8), Free(0), Free(32)];
    var rest := Block(64, POOL - 88, true);
    TwoAllocated();
    TwoFreed(rest);
    RunSnoc(o2, Free(0));
    RunSnoc(o3, Free(32));
    assert o2 + [Free(0)] == o3 && o3 + [Free(32)] == o4;
    PairsShort([Block(0, 40, true), rest]);
    RunLive(o4);
    assert Live(Run(o4)) == {};
  }
}
