// memory_allocator.c, seen from above: the block list as a sequence, in address order.
module FirstFit {

  const HEADER: nat := 24
  const POOL: nat := 1024 * 1024 * 100

  /** A listed block: its header is at pool offset `off`, its payload is the `size` bytes after it. */
  datatype Block = Block(off: nat, size: nat, free: bool) {
    function End(): nat { off + HEADER + size }
  }

  // ----- the two operations -----

  function Init(): seq<Block> { [Block(0, POOL - HEADER, true)] }

  predicate Fits(b: Block, n: nat) { b.free && b.size >= n }

  /** Index of the first block that fits, or |bs| when none does. */
  function Find(bs: seq<Block>, n: nat): (k: nat)
    ensures k <= |bs|
    ensures k < |bs| ==> Fits(bs[k], n) && bs[k].free && bs[k].size >= n
    ensures forall j :: 0 <= j < k ==> !Fits(bs[j], n) && !(bs[j].free && bs[j].size >= n)
  {
    if bs == [] then 0 else if Fits(bs[0], n) then 0 else 1 + Find(bs[1..], n)
  }

  /** What a fitting block becomes: cut in two only when more than a header would be left over. */
  function Carve(b: Block, n: nat): seq<Block>
    requires Fits(b, n)
  {
    if b.size > n + HEADER then
      [Block(b.off, n, false), Block(b.off + HEADER + n, b.size - n - HEADER, true)]
    else
      [Block(b.off, n, false)]
  }

  /** `bs` with the `m` blocks from `k` on replaced by `new`. */
  function Splice(bs: seq<Block>, k: nat, m: nat, new': seq<Block>): seq<Block>
    requires k + m <= |bs|
  {
    bs[..k] + new' + bs[k + m..]
  }

  function Allocated(bs: seq<Block>, n: nat): seq<Block> {
    var k := Find(bs, n);
    if k == |bs| then bs else Splice(bs, k, 1, Carve(bs[k], n))
  }

  function Marked(bs: seq<Block>, off: nat): seq<Block> {
    seq(|bs|, i requires 0 <= i < |bs| => if bs[i].off == off then bs[i].(free := true) else bs[i])
  }

  function Merged(a: Block, b: Block): Block {
    a.(size := a.size + HEADER + b.size)
  }

  /** The coalescing pass: after a merge it steps past the merged block. */
  function Sweep(bs: seq<Block>): seq<Block> {
    if |bs| < 2 then bs
    else if bs[0].free && bs[1].free then [Merged(bs[0], bs[1])] + Sweep(bs[2..])
    else [bs[0]] + Sweep(bs[1..])
  }

  function Freed(bs: seq<Block>, off: nat): seq<Block> { Sweep(Marked(bs, off)) }

  // ----- what is measured -----

  ghost predicate Ordered(bs: seq<Block>) {
    && (forall i, j :: 0 <= i < j < |bs| ==> bs[i].End() <= bs[j].off)
    && (forall i :: 0 <= i < |bs| ==> bs[i].End() <= POOL)
  }

  ghost predicate Layout(bs: seq<Block>) {
    |bs| > 0 && bs[0].off == 0 && Ordered(bs)
  }

  /** The blocks clients hold: where they are and how many bytes were asked for. */
  ghost function Live(bs: seq<Block>): set<Block> {
    set b | b in bs && !b.free
  }

  function Total(bs: seq<Block>): nat {
    if bs == [] then 0 else HEADER + bs[0].size + Total(bs[1..])
  }

  /** Bytes of the pool that no listed block accounts for any more. */
  function Leak(bs: seq<Block>): int { POOL - Total(bs) }

  function Both(a: seq<Block>, b: seq<Block>): nat {
    if a != [] && b != [] && a[|a| - 1].free && b[0].free then 1 else 0
  }

  /** The number of neighbouring free pairs. */
  function Pairs(bs: seq<Block>): nat {
    if bs == [] then 0 else Both(bs[..1], bs[1..]) + Pairs(bs[1..])
  }

  /** The lengths of the free runs between used blocks, zeros included: one more than there are used blocks. */
  function Runs(bs: seq<Block>): (r: seq<nat>)
    ensures |r| > 0
  {
    if bs == [] then [0]
    else
      var r := Runs(bs[1..]);
      if bs[0].free then r[0 := r[0] + 1] else [0] + r
  }

  function HalfUp(r: seq<nat>): (h: seq<nat>) {
    seq(|r|, i requires 0 <= i < |r| => (r[i] + 1) / 2)
  }

  // ----- layout -----

  lemma SpliceOrdered(bs: seq<Block>, k: nat, m: nat, new': seq<Block>)
    requires Ordered(bs) && k + m <= |bs| && m > 0
    requires Ordered(new') && new' != []
    requires new'[0].off >= bs[k].off && new'[|new'| - 1].End() <= bs[k + m - 1].End()
    ensures Ordered(Splice(bs, k, m, new'))
  {
    var r := Splice(bs, k, m, new');
    forall i | 0 <= i < |r| ensures r[i].End() <= POOL {
    }
    forall i, j | 0 <= i < j < |r| ensures r[i].End() <= r[j].off {
      if k <= i < k + |new'| {
        assert r[i].End() <= new'[|new'| - 1].End();
      }
      if k <= j < k + |new'| {
        assert r[j].off >= new'[0].off;
      }
    }
  }

  lemma AllocatedLayout(bs: seq<Block>, n: nat)
    requires Layout(bs)
    ensures Layout(Allocated(bs, n))
  {
    var k := Find(bs, n);
    if k < |bs| {
      SpliceOrdered(bs, k, 1, Carve(bs[k], n));
    }
  }

  lemma MarkedAt(bs: seq<Block>, k: nat)
    requires Ordered(bs) && k < |bs|
    ensures Marked(bs, bs[k].off) == bs[k := bs[k].(free := true)]
    ensures Ordered(Marked(bs, bs[k].off))
  {
  }

  lemma MergeOrdered(bs: seq<Block>, k: nat)
    requires Ordered(bs) && k + 2 <= |bs|
    ensures Ordered(Splice(bs, k, 2, [Merged(bs[k], bs[k + 1])]))
  {
    assert bs[k].End() <= bs[k + 1].off;
    SpliceOrdered(bs, k, 2, [Merged(bs[k], bs[k + 1])]);
  }

  lemma OrderedSplit(bs: seq<Block>, k: nat)
    requires Ordered(bs) && k <= |bs|
    ensures Ordered(bs[k..])
    ensures k > 0 ==> bs[0] !in bs[k..]
  {
    if k > 0 {
      forall j | k <= j < |bs| ensures bs[j] != bs[0] {
        assert bs[0].End() <= bs[j].off;
      }
    }
  }

  lemma OrderedCons(b: Block, rest: seq<Block>)
    requires Ordered(rest) && b.End() <= POOL
    requires rest != [] ==> b.End() <= rest[0].off
    ensures Ordered([b] + rest)
  {
    var r := [b] + rest;
    forall i, j | 0 <= i < j < |r| ensures r[i].End() <= r[j].off {
      if i == 0 && j > 1 {
        assert rest[0].End() <= rest[j - 1].off;
      }
    }
  }

  lemma {:induction false} SweepOrdered(bs: seq<Block>)
    requires Ordered(bs)
    ensures Ordered(Sweep(bs)) && |Sweep(bs)| <= |bs|
    ensures bs != [] ==> Sweep(bs) != [] && Sweep(bs)[0].off == bs[0].off && Sweep(bs)[0].free == bs[0].free
    decreases |bs|
  {
    if |bs| < 2 {
    } else if bs[0].free && bs[1].free {
      OrderedSplit(bs, 2);
      SweepOrdered(bs[2..]);
      assert bs[0].End() <= bs[1].off;
      OrderedCons(Merged(bs[0], bs[1]), Sweep(bs[2..]));
    } else {
      OrderedSplit(bs, 1);
      SweepOrdered(bs[1..]);
      OrderedCons(bs[0], Sweep(bs[1..]));
    }
  }

  lemma SpliceIs(bs: seq<Block>, k: nat, m: nat, new': seq<Block>)
    requires k + m <= |bs|
    ensures Splice(bs, k, m, new') == bs[..k] + (new' + bs[k + m..])
  {
  }

  // ----- live blocks -----

  lemma LiveConcat(a: seq<Block>, b: seq<Block>)
    ensures Live(a + b) == Live(a) + Live(b)
  {
  }

  lemma OffsetsDiffer(bs: seq<Block>, k: nat)
    requires Ordered(bs) && k < |bs| && bs[k].free
    ensures forall b :: b in Live(bs) ==> b.off != bs[k].off
  {
    forall b | b in Live(bs) ensures b.off != bs[k].off {
      var i :| 0 <= i < |bs| && bs[i] == b;
      assert i < k ==> bs[i].End() <= bs[k].off;
      assert k < i ==> bs[k].End() <= bs[i].off;
    }
  }

  lemma CarvedLive(b: Block, n: nat)
    requires Fits(b, n)
    ensures Live(Carve(b, n)) == {Block(b.off, n, false)} && Live([b]) == {}
  {
    assert Carve(b, n)[0] == Block(b.off, n, false);
  }

  lemma SpliceLive(bs: seq<Block>, k: nat, new': seq<Block>)
    requires k < |bs|
    ensures Live(bs) == Live(bs[..k]) + Live([bs[k]]) + Live(bs[k + 1..])
    ensures Live(Splice(bs, k, 1, new')) == Live(bs[..k]) + Live(new') + Live(bs[k + 1..])
  {
    LiveConcat(bs[..k] + new', bs[k + 1..]);
    LiveConcat(bs[..k], new');
    LiveConcat(bs[..k] + [bs[k]], bs[k + 1..]);
    LiveConcat(bs[..k], [bs[k]]);
    assert bs == bs[..k] + [bs[k]] + bs[k + 1..];
  }

  lemma AllocatedIs(bs: seq<Block>, n: nat)
    ensures Find(bs, n) == |bs| ==> Allocated(bs, n) == bs
    ensures Find(bs, n) < |bs| ==> Allocated(bs, n) == Splice(bs, Find(bs, n), 1, Carve(bs[Find(bs, n)], n))
    ensures Find(bs, n) < |bs| ==> bs[Find(bs, n)].free
  {
  }

  lemma AllocatedLive(bs: seq<Block>, n: nat)
    requires Ordered(bs)
    ensures var k := Find(bs, n);
            if k == |bs| then Allocated(bs, n) == bs
            else Live(Allocated(bs, n)) == Live(bs) + {Block(bs[k].off, n, false)}
                 && forall b :: b in Live(bs) ==> b.off != bs[k].off
  {
    hide *;
    var k := Find(bs, n);
    AllocatedIs(bs, n);
    if k < |bs| {
      SpliceLive(bs, k, Carve(bs[k], n));
      CarvedLive(bs[k], n);
      OffsetsDiffer(bs, k);
    }
  }

  lemma MarkedLive(bs: seq<Block>, k: nat)
    requires Ordered(bs) && k < |bs|
    ensures Live(Marked(bs, bs[k].off)) == Live(bs) - {bs[k]}
  {
    MarkedAt(bs, k);
    var r := Marked(bs, bs[k].off);
    forall b | b in Live(bs) && b != bs[k] ensures b in r {
      var i :| 0 <= i < |bs| && bs[i] == b;
      assert r[i] == b;
    }
    forall b | b in Live(r) ensures b in bs && b != bs[k] {
      var i :| 0 <= i < |r| && r[i] == b;
      assert bs[i] == b;
    }
  }

  lemma LiveCons(b: Block, rest: seq<Block>)
    ensures Live([b] + rest) == if b.free then Live(rest) else {b} + Live(rest)
  {
    forall x ensures x in Live([b] + rest) <==> x in (if b.free then Live(rest) else {b} + Live(rest)) {
      assert x in [b] + rest <==> x == b || x in rest;
    }
  }

  lemma {:induction false} SweepLive(bs: seq<Block>)
    ensures Live(Sweep(bs)) == Live(bs)
    decreases |bs|
  {
    if |bs| < 2 {
    } else if bs[0].free && bs[1].free {
      SweepLive(bs[2..]);
      assert bs == [bs[0]] + ([bs[1]] + bs[2..]);
      LiveCons(bs[0], [bs[1]] + bs[2..]);
      LiveCons(bs[1], bs[2..]);
      LiveCons(Merged(bs[0], bs[1]), Sweep(bs[2..]));
    } else {
      SweepLive(bs[1..]);
      assert bs == [bs[0]] + bs[1..];
      LiveCons(bs[0], bs[1..]);
      LiveCons(bs[0], Sweep(bs[1..]));
    }
  }

  lemma RunsCons(b: Block, rest: seq<Block>)
    ensures Runs([b] + rest) == if b.free then Runs(rest)[0 := Runs(rest)[0] + 1] else [0] + Runs(rest)
  {
    assert ([b] + rest)[1..] == rest;
  }

  lemma {:induction false} LiveCount(bs: seq<Block>)
    requires Ordered(bs)
    ensures |Runs(bs)| == |Live(bs)| + 1
  {
    if bs == [] {
      assert Live(bs) == {};
    } else {
      OrderedSplit(bs, 1);
      LiveCount(bs[1..]);
      assert bs == [bs[0]] + bs[1..];
      LiveCons(bs[0], bs[1..]);
      RunsCons(bs[0], bs[1..]);
      assert bs[0] !in Live(bs[1..]);
    }
  }

  // ----- conservation -----

  lemma {:induction false} TotalConcat(a: seq<Block>, b: seq<Block>)
    ensures Total(a + b) == Total(a) + Total(b)
  {
    if a == [] {
      assert a + b == b;
    } else {
      assert (a + b)[1..] == a[1..] + b;
      TotalConcat(a[1..], b);
    }
  }

  lemma SpliceTotal(bs: seq<Block>, k: nat, m: nat, new': seq<Block>)
    requires k + m <= |bs|
    ensures Total(Splice(bs, k, m, new')) == Total(bs) - Total(bs[k..k + m]) + Total(new')
  {
    TotalConcat(bs[..k] + new', bs[k + m..]);
    TotalConcat(bs[..k], new');
    assert bs == bs[..k] + bs[k..k + m] + bs[k + m..];
    TotalConcat(bs[..k] + bs[k..k + m], bs[k + m..]);
    TotalConcat(bs[..k], bs[k..k + m]);
  }

  /** An unsplit allocation leaks what the block had beyond the request; nothing else leaks. */
  lemma AllocatedLeak(bs: seq<Block>, n: nat)
    ensures var k := Find(bs, n);
            Leak(Allocated(bs, n)) - Leak(bs)
            == if k < |bs| && bs[k].size <= n + HEADER then bs[k].size - n else 0
  {
    var k := Find(bs, n);
    if k < |bs| {
      var c := Carve(bs[k], n);
      SpliceTotal(bs, k, 1, c);
      assert bs[k..k + 1] == [bs[k]];
      assert Total([bs[k]]) == HEADER + bs[k].size;
      assert Total(c) == HEADER + n + Total(c[1..]);
      if |c| == 2 {
        assert c[1..] == [c[1]];
      }
    }
  }

  lemma {:induction false} SweepTotal(bs: seq<Block>)
    ensures Total(Sweep(bs)) == Total(bs)
    decreases |bs|
  {
    if |bs| < 2 {
    } else if bs[0].free && bs[1].free {
      SweepTotal(bs[2..]);
      assert bs[1..][1..] == bs[2..];
    } else {
      SweepTotal(bs[1..]);
    }
  }

  lemma FreedLeak(bs: seq<Block>, k: nat)
    requires Ordered(bs) && k < |bs|
    ensures Leak(Freed(bs, bs[k].off)) == Leak(bs)
  {
    MarkedAt(bs, k);
    var b := bs[k].(free := true);
    SpliceTotal(bs, k, 1, [b]);
    assert Splice(bs, k, 1, [b]) == Marked(bs, bs[k].off);
    assert bs[k..k + 1] == [bs[k]];
    SweepTotal(Marked(bs, bs[k].off));
  }

  // ----- fragmentation -----

  lemma {:induction false} PairsConcat(a: seq<Block>, b: seq<Block>)
    ensures Pairs(a + b) == Pairs(a) + Both(a, b) + Pairs(b)
  {
    if a == [] {
      assert a + b == b;
    } else {
      assert (a + b)[1..] == a[1..] + b;
      PairsConcat(a[1..], b);
      assert (a + b)[..1] == a[..1] == [a[0]];
    }
  }

  lemma SplicePairs(bs: seq<Block>, k: nat, new': seq<Block>)
    requires k < |bs| && new' != []
    ensures Pairs(bs) == Pairs(bs[..k]) + Both(bs[..k], [bs[k]]) + Both([bs[k]], bs[k + 1..]) + Pairs(bs[k + 1..])
    ensures Pairs(Splice(bs, k, 1, new'))
         == Pairs(bs[..k]) + Both(bs[..k], new') + Pairs(new') + Both(new', bs[k + 1..]) + Pairs(bs[k + 1..])
  {
    PairsConcat(bs[..k] + new', bs[k + 1..]);
    PairsConcat(bs[..k], new');
    assert bs == bs[..k] + [bs[k]] + bs[k + 1..];
    PairsConcat(bs[..k] + [bs[k]], bs[k + 1..]);
    PairsConcat(bs[..k], [bs[k]]);
  }

  lemma PairsShort(bs: seq<Block>)
    requires |bs| <= 2
    ensures Pairs(bs) == if |bs| == 2 && bs[0].free && bs[1].free then 1 else 0
  {
    if |bs| == 2 {
      assert bs[1..] == [bs[1]];
      assert bs[1..][1..] == [];
    }
  }

  lemma AllocatedPairs(bs: seq<Block>, n: nat)
    ensures Pairs(Allocated(bs, n)) <= Pairs(bs)
  {
    var k := Find(bs, n);
    if k < |bs| {
      var c := Carve(bs[k], n);
      SplicePairs(bs, k, c);
      PairsShort(c);
    }
  }

  lemma ReplacedPairs(bs: seq<Block>, k: nat, b: Block)
    requires k < |bs|
    ensures Pairs(bs[k := b]) <= Pairs(bs) + 2
  {
    SplicePairs(bs, k, [b]);
    PairsShort([b]);
    assert Splice(bs, k, 1, [b]) == bs[k := b];
  }

  /** Marking a block free can join it to the run on either side, so at most two pairs appear. */
  lemma MarkedPairs(bs: seq<Block>, k: nat)
    requires Ordered(bs) && k < |bs|
    ensures Pairs(Marked(bs, bs[k].off)) <= Pairs(bs) + 2
  {
    MarkedAt(bs, k);
    ReplacedPairs(bs, k, bs[k].(free := true));
  }

  lemma PairsCons(b: Block, rest: seq<Block>)
    ensures Pairs([b] + rest) == Pairs(rest) + if b.free && rest != [] && rest[0].free then 1 else 0
  {
    PairsConcat([b], rest);
    PairsShort([b]);
  }

  lemma {:induction false} SweepHead(bs: seq<Block>)
    ensures (bs == []) == (Sweep(bs) == [])
    ensures bs != [] ==> Sweep(bs)[0].off == bs[0].off && Sweep(bs)[0].free == bs[0].free
  {
  }

  lemma {:induction false} SweepPairs(bs: seq<Block>)
    ensures Pairs(Sweep(bs)) <= Pairs(bs) / 2
    decreases |bs|
  {
    if |bs| < 2 {
      PairsShort(bs);
    } else if bs[0].free && bs[1].free {
      SweepPairs(bs[2..]);
      SweepHead(bs[2..]);
      assert bs == [bs[0]] + ([bs[1]] + bs[2..]);
      PairsCons(bs[0], [bs[1]] + bs[2..]);
      PairsCons(bs[1], bs[2..]);
      PairsCons(Merged(bs[0], bs[1]), Sweep(bs[2..]));
    } else {
      SweepPairs(bs[1..]);
      SweepHead(bs[1..]);
      assert bs == [bs[0]] + bs[1..];
      PairsCons(bs[0], bs[1..]);
      PairsCons(bs[0], Sweep(bs[1..]));
    }
  }

  lemma RunsUsedHead(bs: seq<Block>)
    requires bs == [] || !bs[0].free
    ensures Runs(bs)[0] == 0
  {
  }

  lemma NoRuns()
    ensures Sweep([]) == [] && Runs([]) == [0]
  {
  }

  lemma SweepPair(a: Block, b: Block, tail: seq<Block>)
    requires a.free && b.free
    ensures Sweep([a, b] + tail) == [Merged(a, b)] + Sweep(tail)
  {
    assert ([a, b] + tail)[2..] == tail;
  }

  lemma SweepCons(a: Block, tail: seq<Block>)
    requires tail == [] || !(a.free && tail[0].free)
    ensures Sweep([a] + tail) == [a] + Sweep(tail)
  {
    assert ([a] + tail)[1..] == tail;
  }

  /** One sweep turns every free run of length r into one of length ceil(r / 2). */
  lemma {:induction false} SweepRuns(bs: seq<Block>)
    ensures Runs(Sweep(bs)) == HalfUp(Runs(bs))
    decreases |bs|
  {
    hide Sweep, Runs;
    if bs == [] {
      NoRuns();
    } else if |bs| >= 2 && bs[0].free && bs[1].free {
      var tail := bs[2..];
      SweepRuns(tail);
      assert bs == [bs[0], bs[1]] + tail && bs == [bs[0]] + ([bs[1]] + tail);
      SweepPair(bs[0], bs[1], tail);
      RunsCons(Merged(bs[0], bs[1]), Sweep(tail));
      RunsCons(bs[0], [bs[1]] + tail);
      RunsCons(bs[1], tail);
    } else {
      var tail := bs[1..];
      SweepRuns(tail);
      assert bs == [bs[0]] + tail;
      SweepCons(bs[0], tail);
      RunsCons(bs[0], Sweep(tail));
      RunsCons(bs[0], tail);
      if bs[0].free {
        RunsUsedHead(tail);
      }
    }
  }

  lemma {:induction false} CountBound(bs: seq<Block>)
    ensures |bs| <= 2 * |Runs(bs)| - 1 + Pairs(bs)
    ensures bs != [] && !bs[0].free ==> |bs| <= 2 * |Runs(bs)| - 2 + Pairs(bs)
  {
    if bs == [] {
    } else {
      CountBound(bs[1..]);
    }
  }

  // ----- capacity -----

  /** No request that would have been served before a free is refused after it. */
  lemma {:induction false} SweepCapacity(bs: seq<Block>, n: nat)
    requires exists b :: b in bs && Fits(b, n)
    ensures exists b :: b in Sweep(bs) && Fits(b, n)
    decreases |bs|
  {
    var b :| b in bs && Fits(b, n);
    if |bs| < 2 {
    } else if bs[0].free && bs[1].free {
      assert bs == [bs[0], bs[1]] + bs[2..];
      if b == bs[0] || b == bs[1] {
        assert Fits(Sweep(bs)[0], n);
      } else {
        assert b in bs[2..];
        SweepCapacity(bs[2..], n);
      }
    } else {
      assert bs == [bs[0]] + bs[1..];
      if b == bs[0] {
        assert Sweep(bs)[0] == b;
      } else {
        assert b in bs[1..];
        SweepCapacity(bs[1..], n);
      }
    }
  }

  lemma FreedCapacity(bs: seq<Block>, k: nat, n: nat)
    requires Ordered(bs) && k < |bs|
    requires Find(bs, n) < |bs|
    ensures Find(Freed(bs, bs[k].off), n) < |Freed(bs, bs[k].off)|
  {
    MarkedAt(bs, k);
    var m, f := Marked(bs, bs[k].off), Find(bs, n);
    assert m[f] in m && Fits(m[f], n);
    SweepCapacity(m, n);
  }

  // ----- the sweep as a loop: blocks before `k` are done -----

  function SweepFrom(bs: seq<Block>, k: nat): seq<Block>
    requires k <= |bs|
  {
    bs[..k] + Sweep(bs[k..])
  }

  lemma SweepFromSkip(bs: seq<Block>, k: nat)
    requires k + 2 <= |bs| && !(bs[k].free && bs[k + 1].free)
    ensures SweepFrom(bs, k) == SweepFrom(bs, k + 1)
  {
    hide Sweep;
    SweepCons(bs[k], bs[k + 1..]);
    assert bs[k..] == [bs[k]] + bs[k + 1..];
    assert bs[..k + 1] == bs[..k] + [bs[k]];
  }

  lemma SweepFromMerge(bs: seq<Block>, k: nat)
    requires k + 2 <= |bs| && bs[k].free && bs[k + 1].free
    ensures var cs := Splice(bs, k, 2, [Merged(bs[k], bs[k + 1])]);
            k + 1 <= |cs| && SweepFrom(bs, k) == SweepFrom(cs, k + 1)
  {
    hide Sweep, Merged;
    var g, tail := Merged(bs[k], bs[k + 1]), bs[k + 2..];
    var cs := Splice(bs, k, 2, [g]);
    SweepPair(bs[k], bs[k + 1], tail);
    assert bs[k..] == [bs[k], bs[k + 1]] + tail;
    assert cs[..k + 1] == bs[..k] + [g] && cs[k + 1..] == tail;
    assert bs[..k] + ([g] + Sweep(tail)) == (bs[..k] + [g]) + Sweep(tail);
  }

  lemma SweepFromEnd(bs: seq<Block>, k: nat)
    requires k <= |bs| <= k + 1
    ensures SweepFrom(bs, k) == bs
  {
    assert bs[..k] + bs[k..] == bs;
  }

  lemma MergedLive(bs: seq<Block>, k: nat)
    requires k + 2 <= |bs| && bs[k].free && bs[k + 1].free
    ensures Live(Splice(bs, k, 2, [Merged(bs[k], bs[k + 1])])) <= Live(bs)
  {
    var cs := Splice(bs, k, 2, [Merged(bs[k], bs[k + 1])]);
    forall x | x in Live(cs) ensures x in bs {
      var i :| 0 <= i < |cs| && cs[i] == x;
      if i < k {
        assert bs[i] == x;
      } else {
        assert bs[i + 1] == x;
      }
    }
  }
}
