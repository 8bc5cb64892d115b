// memory_allocator.c: when a free leaves neighbouring free blocks, and when it undoes an allocation.
module Neighbours {
  import opened FirstFit

  lemma LayoutOrdered(bs: seq<Block>)
    requires Layout(bs)
    ensures Ordered(bs)
  {
  }

  lemma FreedIs(bs: seq<Block>, off: nat)
    ensures Freed(bs, off) == Sweep(Marked(bs, off))
  {
  }

  // ----- free runs and free pairs -----

  /** The neighbouring free pairs inside runs of the given lengths. */
  function Excess(r: seq<nat>): nat {
    if r == [] then 0 else (if r[0] > 0 then r[0] - 1 else 0) + Excess(r[1..])
  }

  lemma RunsHead(bs: seq<Block>)
    ensures Runs(bs)[0] > 0 <==> bs != [] && bs[0].free
    ensures Runs(bs)[0] > 1 <==> |bs| > 1 && bs[0].free && bs[1].free
  {
    if |bs| > 1 {
      assert bs[1..][0] == bs[1];
    }
  }

  lemma {:induction false} PairsAreExcess(bs: seq<Block>)
    ensures Pairs(bs) == Excess(Runs(bs))
  {
    hide Pairs, Runs;
    if bs == [] {
      NoRuns();
      PairsShort([]);
    } else {
      var rest := bs[1..];
      assert bs == [bs[0]] + rest;
      PairsAreExcess(rest);
      PairsCons(bs[0], rest);
      RunsCons(bs[0], rest);
      RunsHead(rest);
      var r := Runs(rest);
      assert r[0 := r[0] + 1][1..] == r[1..] && ([0] + r)[1..] == r;
    }
  }

  ghost predicate AtMostTwo(r: seq<nat>) {
    forall i :: 0 <= i < |r| ==> r[i] <= 2
  }

  lemma {:induction false} HalvedExcess(r: seq<nat>)
    ensures Excess(HalfUp(r)) == 0 <==> AtMostTwo(r)
  {
    if r != [] {
      HalvedExcess(r[1..]);
      assert HalfUp(r)[1..] == HalfUp(r[1..]);
      assert r == [r[0]] + r[1..];
    }
  }

  /** The free pairs a sweep leaves, exactly; and it leaves none if and only if no run is longer than two. */
  lemma SweepLeaves(bs: seq<Block>)
    ensures Pairs(Sweep(bs)) == Excess(HalfUp(Runs(bs)))
    ensures Pairs(Sweep(bs)) == 0 <==> AtMostTwo(Runs(bs))
  {
    hide *;
    PairsAreExcess(Sweep(bs));
    SweepRuns(bs);
    HalvedExcess(Runs(bs));
  }

  // ----- three in a row -----

  ghost predicate Triple(bs: seq<Block>, j: int) {
    0 <= j && j + 2 < |bs| && bs[j].free && bs[j + 1].free && bs[j + 2].free
  }

  ghost predicate NoTriple(bs: seq<Block>) {
    forall j :: !Triple(bs, j)
  }

  lemma NoTripleCons(b: Block, rest: seq<Block>)
    ensures NoTriple([b] + rest) <==> NoTriple(rest) && !(b.free && |rest| > 1 && rest[0].free && rest[1].free)
  {
    var bs := [b] + rest;
    if NoTriple(bs) {
      forall j ensures !Triple(rest, j) {
        assert !Triple(bs, j + 1);
      }
      assert !Triple(bs, 0);
    }
    if NoTriple(rest) {
      forall j | j > 0 ensures !Triple(bs, j) {
        assert !Triple(rest, j - 1);
      }
    }
  }

  lemma AtMostTwoCons(r: seq<nat>)
    requires r != []
    ensures AtMostTwo([0] + r) <==> AtMostTwo(r)
    ensures AtMostTwo(r[0 := r[0] + 1]) <==> AtMostTwo(r) && r[0] <= 1
  {
    assert forall i :: 0 <= i < |r| ==> ([0] + r)[i + 1] == r[i];
    var u := r[0 := r[0] + 1];
    assert AtMostTwo(u) ==> u[0] <= 2 && forall i :: 0 < i < |r| ==> u[i] == r[i];
  }

  lemma NoneShort()
    ensures NoTriple([]) && AtMostTwo([0])
  {
  }

  lemma {:induction false} NoTripleRuns(bs: seq<Block>)
    ensures NoTriple(bs) <==> AtMostTwo(Runs(bs))
  {
    hide Runs, NoTriple, AtMostTwo;
    if bs == [] {
      NoRuns();
      NoneShort();
    } else {
      var rest := bs[1..];
      assert bs == [bs[0]] + rest;
      NoTripleRuns(rest);
      NoTripleCons(bs[0], rest);
      RunsCons(bs[0], rest);
      RunsHead(rest);
      AtMostTwoCons(Runs(rest));
    }
  }

  /** A sweep leaves no free neighbours if and only if no three free blocks stood in a row. */
  lemma SweepSettlesIff(bs: seq<Block>)
    ensures Pairs(Sweep(bs)) == 0 <==> NoTriple(bs)
  {
    SweepLeaves(bs);
    NoTripleRuns(bs);
  }

  lemma {:induction false} TriplePairs(bs: seq<Block>, j: nat)
    requires Triple(bs, j)
    ensures Pairs(bs) >= 2
  {
    var rest := bs[1..];
    assert bs == [bs[0]] + rest && rest == [rest[0]] + rest[1..];
    PairsCons(bs[0], rest);
    if j > 0 {
      TriplePairs(rest, j - 1);
    } else {
      PairsCons(rest[0], rest[1..]);
    }
  }

  lemma FewPairsNoTriple(bs: seq<Block>)
    requires Pairs(bs) <= 1
    ensures NoTriple(bs)
  {
    forall j ensures !Triple(bs, j) {
      if Triple(bs, j) {
        TriplePairs(bs, j);
      }
    }
  }

  lemma MarkedTriple(bs: seq<Block>, k: nat, b: Block)
    requires k < |bs| && b.free && NoTriple(bs)
    ensures NoTriple(bs[k := b]) <==> !Triple(bs[k := b], k - 2) && !Triple(bs[k := b], k - 1) && !Triple(bs[k := b], k)
  {
    var m := bs[k := b];
    forall j | j < k - 2 || j > k ensures !Triple(m, j) {
      assert !Triple(bs, j);
    }
  }

  /** In every reachable state: free leaves no neighbouring free blocks unless the freed block completes
      three in a row. */
  lemma FreeSettlesIff(bs: seq<Block>, k: nat)
    requires Layout(bs) && Pairs(bs) <= 1 && k < |bs| && !bs[k].free
    ensures Pairs(Freed(bs, bs[k].off)) == 0 <==>
            !((k > 0 && bs[k - 1].free && k + 1 < |bs| && bs[k + 1].free)
              || (k >= 2 && bs[k - 1].free && bs[k - 2].free)
              || (k + 2 < |bs| && bs[k + 1].free && bs[k + 2].free))
  {
    hide Pairs, Sweep, Freed, Marked, Layout, Ordered, NoTriple;
    LayoutOrdered(bs);
    var b := bs[k].(free := true);
    MarkedAt(bs, k);
    FreedIs(bs, bs[k].off);
    SweepSettlesIff(bs[k := b]);
    FewPairsNoTriple(bs);
    MarkedTriple(bs, k, b);
  }

  // ----- sweeping around one block -----

  lemma BothHead(a: seq<Block>, b: seq<Block>)
    requires a != []
    ensures var r := a[1..] + b;
            r == [] || !(a[0].free && r[0].free) <== Both(a[..1], a[1..]) == 0 && Both(a, b) == 0
    ensures Both(a[1..], b) <= Both(a, b)
    ensures Pairs(a) == Both(a[..1], a[1..]) + Pairs(a[1..])
  {
  }

  lemma {:induction false} SweepPrefix(a: seq<Block>, b: seq<Block>)
    requires Pairs(a) == 0 && Both(a, b) == 0
    ensures Sweep(a + b) == a + Sweep(b)
  {
    hide *;
    if a == [] {
      assert a + b == b;
    } else {
      BothHead(a, b);
      SweepPrefix(a[1..], b);
      SweepCons(a[0], a[1..] + b);
      assert a + b == [a[0]] + (a[1..] + b);
      assert a + Sweep(b) == [a[0]] + (a[1..] + Sweep(b));
    }
  }

  lemma SweepSettled(bs: seq<Block>)
    requires Pairs(bs) == 0
    ensures Sweep(bs) == bs
  {
    SweepPrefix(bs, []);
    assert bs + [] == bs;
  }

  lemma SplitPairs(a: seq<Block>, b: Block, c: seq<Block>)
    ensures Pairs(a + ([b] + c)) == Pairs(a) + Both(a, [b]) + Both([b], c) + Pairs(c)
  {
    PairsConcat(a, [b] + c);
    PairsCons(b, c);
  }

  /** What is left of `b`'s place after allocating `n` bytes there and marking them free again. */
  function Reopened(b: Block, n: nat): seq<Block>
    requires Fits(b, n)
  {
    Carve(b, n)[0 := Block(b.off, n, true)]
  }

  lemma ReopenedIs(b: Block, n: nat)
    requires Fits(b, n)
    ensures b.size > n + HEADER ==>
              var x, y := Block(b.off, n, true), Block(b.off + HEADER + n, b.size - n - HEADER, true);
              Reopened(b, n) == [x, y] && Merged(x, y) == b
    ensures b.size <= n + HEADER ==> Reopened(b, n) == [Block(b.off, n, true)]
    ensures b.free
  {
  }

  lemma CutSweep(a: seq<Block>, b: Block, n: nat, c: seq<Block>)
    requires Fits(b, n) && b.size > n + HEADER
    requires Pairs(a) == 0 && Both(a, [b]) == 0 && Pairs(c) == 0
    ensures Sweep(a + (Reopened(b, n) + c)) == a + ([b] + c)
  {
    ReopenedIs(b, n);
    var r := Reopened(b, n);
    hide Sweep, Pairs, Merged, Reopened;
    SweepPrefix(a, r + c);
    SweepPair(r[0], r[1], c);
    SweepSettled(c);
  }

  lemma UncutSweep(a: seq<Block>, b: Block, n: nat, c: seq<Block>)
    requires Fits(b, n) && b.size <= n + HEADER && Pairs(a + ([b] + c)) == 0
    ensures Sweep(a + (Reopened(b, n) + c)) == a + ([b] + c) <==> b.size == n
  {
    var x := Block(b.off, n, true);
    ReopenedIs(b, n);
    SplitPairs(a, b, c);
    SplitPairs(a, x, c);
    SweepSettled(a + ([x] + c));
    assert (a + ([x] + c))[|a|] == x && (a + ([b] + c))[|a|] == b;
  }

  /** The block before takes the bytes: the list comes out different. */
  lemma CutSweepBehind(a: seq<Block>, p: Block, b: Block, n: nat, c: seq<Block>)
    requires Fits(b, n) && b.size > n + HEADER && p.free
    requires Pairs(a) == 0 && Both(a, [p]) == 0
    ensures Sweep(a + ([p] + (Reopened(b, n) + c))) != a + ([p] + ([b] + c))
  {
    ReopenedIs(b, n);
    var r := Reopened(b, n);
    var rest := [r[1]] + c;
    assert [p] + (r + c) == [p, r[0]] + rest;
    SweepPrefix(a, [p, r[0]] + rest);
    SweepPair(p, r[0], rest);
    assert (a + ([Merged(p, r[0])] + Sweep(rest)))[|a|] == Merged(p, r[0]);
    assert (a + ([p] + ([b] + c)))[|a|] == p;
  }

  /** No third free block beside the two halves: the sweep settles everything, also the pair there was. */
  lemma CutSweepApart(a: seq<Block>, b: Block, n: nat, c: seq<Block>)
    requires Fits(b, n) && b.size > n + HEADER
    requires NoTriple(a + ([b] + c)) && Both(a, [b]) == 0 && Both([b], c) == 0
    ensures Pairs(Sweep(a + (Reopened(b, n) + c))) == 0
  {
    ReopenedIs(b, n);
    var bs, m, k := a + ([b] + c), a + (Reopened(b, n) + c), |a|;
    assert forall i :: 0 <= i < k ==> m[i] == bs[i] == a[i];
    assert forall i :: k + 2 <= i < |m| ==> m[i] == bs[i - 1] == c[i - k - 2];
    forall j ensures !Triple(m, j) {
      assert !Triple(bs, j) && !Triple(bs, j - 1);
    }
    SweepSettlesIff(m);
  }

  lemma UncutSweepApart(a: seq<Block>, b: Block, n: nat, c: seq<Block>)
    requires Fits(b, n) && b.size <= n + HEADER && NoTriple(a + ([b] + c))
    ensures Pairs(Sweep(a + (Reopened(b, n) + c))) == 0
  {
    ReopenedIs(b, n);
    var bs, m := a + ([b] + c), a + (Reopened(b, n) + c);
    assert forall i :: 0 <= i < |m| ==> m[i].free == bs[i].free;
    forall j ensures !Triple(m, j) {
      assert !Triple(bs, j);
    }
    SweepSettlesIff(m);
  }

  lemma ReopenedSweep(a: seq<Block>, b: Block, n: nat, c: seq<Block>)
    requires Fits(b, n) && Pairs(a + ([b] + c)) <= 1
    ensures Sweep(a + (Reopened(b, n) + c)) == a + ([b] + c) <==>
            if Pairs(a + ([b] + c)) == 0 then b.size == n || b.size > n + HEADER
            else c != [] && c[0].free && b.size > n + HEADER
  {
    hide Sweep, Pairs, Reopened, NoTriple;
    var bs := a + ([b] + c);
    SplitPairs(a, b, c);
    FewPairsNoTriple(bs);
    if b.size <= n + HEADER {
      if Pairs(bs) == 0 {
        UncutSweep(a, b, n, c);
      } else {
        UncutSweepApart(a, b, n, c);
      }
    } else if Both(a, [b]) == 1 {
      var p, a' := a[|a| - 1], a[..|a| - 1];
      assert a == a' + [p];
      PairsConcat(a', [p]);
      CutSweepBehind(a', p, b, n, c);
      assert a + (Reopened(b, n) + c) == a' + ([p] + (Reopened(b, n) + c)) && bs == a' + ([p] + ([b] + c));
    } else if Pairs(bs) == 0 || Both([b], c) == 1 {
      CutSweep(a, b, n, c);
    } else {
      CutSweepApart(a, b, n, c);
    }
  }

  lemma MarkedCarve(s: seq<Block>, a: seq<Block>, c: seq<Block>, d: seq<Block>)
    requires Ordered(s) && s == a + c + d && c != []
    ensures Marked(s, c[0].off) == a + (c[0 := c[0].(free := true)] + d)
  {
    hide Marked, Ordered;
    var k := |a|;
    assert s[k] == c[0];
    MarkedAt(s, k);
    assert s[k := c[0].(free := true)] == a + (c[0 := c[0].(free := true)] + d);
  }

  lemma CarveHead(b: Block, n: nat)
    requires Fits(b, n)
    ensures Carve(b, n) != [] && Carve(b, n)[0] == Block(b.off, n, false)
    ensures Reopened(b, n) == Carve(b, n)[0 := Block(b.off, n, true)]
  {
  }

  lemma AllocatedMarked(bs: seq<Block>, n: nat)
    requires Layout(bs) && Find(bs, n) < |bs|
    ensures var k := Find(bs, n);
            Marked(Allocated(bs, n), bs[k].off) == bs[..k] + (Reopened(bs[k], n) + bs[k + 1..])
  {
    hide *;
    var k := Find(bs, n);
    AllocatedLayout(bs, n);
    LayoutOrdered(Allocated(bs, n));
    AllocatedIs(bs, n);
    CarveHead(bs[k], n);
    SpliceIs(bs, k, 1, Carve(bs[k], n));
    assert bs[..k] + (Carve(bs[k], n) + bs[k + 1..]) == bs[..k] + Carve(bs[k], n) + bs[k + 1..];
    MarkedCarve(Allocated(bs, n), bs[..k], Carve(bs[k], n), bs[k + 1..]);
  }

  // ----- allocate, then free -----

  /** In every reachable state, freeing what was just allocated restores the list exactly when: without a free pair,
      the block was cut or fitted exactly; with one, the block was its first half and was cut. */
  lemma AllocateThenFree(bs: seq<Block>, n: nat)
    requires Layout(bs) && Pairs(bs) <= 1 && Find(bs, n) < |bs|
    ensures var k := Find(bs, n);
            var b := bs[k];
            Freed(Allocated(bs, n), b.off) == bs <==>
              if Pairs(bs) == 0 then b.size == n || b.size > n + HEADER
              else k + 1 < |bs| && bs[k + 1].free && b.size > n + HEADER
  {
    hide *;
    var k := Find(bs, n);
    AllocatedMarked(bs, n);
    FreedIs(Allocated(bs, n), bs[k].off);
    assert bs == bs[..k] + ([bs[k]] + bs[k + 1..]);
    ReopenedSweep(bs[..k], bs[k], n, bs[k + 1..]);
  }
}
