// memory_allocator.c: block headers stored as bytes inside the pool, and the list they are linked into.
module Headers {
  import opened Bytes
  import opened FirstFit

  // MemoryBlock on x86_64: size_t size at 0, int is_free at 8, four bytes of padding, next at 16.
  const SIZE: nat := 0
  const IS_FREE: nat := 8
  const NEXT: nat := 16

  lemma Sizes()
    ensures SIZE == 0 && IS_FREE == 8 && NEXT == 16 && HEADER == 24 && POOL == 104857600
    ensures U32 == 0x1_0000_0000 && U64 == 0x1_0000_0000_0000_0000
  {
  }

  /** The bytes of `p` at `b.off` are the header of `b`, with `next` pointing to `nxt`. */
  ghost predicate Header(p: seq<byte>, b: Block, nxt: nat)
    requires b.off + HEADER <= |p|
  {
    && Le(p, b.off + SIZE, 8) == b.size
    && (Le(p, b.off + IS_FREE, 4) != 0) == b.free
    && Le(p, b.off + NEXT, 8) == nxt
  }

  /** The value of the `next` field of block `k`, a machine address; `last` ends the list. */
  function NextOf(base: nat, bs: seq<Block>, k: nat, last: nat): nat {
    if k + 1 < |bs| then base + bs[k + 1].off else last
  }

  ghost predicate InPool(bs: seq<Block>) {
    forall k :: 0 <= k < |bs| ==> bs[k].End() <= POOL
  }

  /** The bytes of `p` hold the linked blocks `bs`, the last one pointing to `last`. */
  ghost predicate Chain(p: seq<byte>, base: nat, bs: seq<Block>, last: nat)
    requires InPool(bs) && |p| == POOL
  {
    forall k :: 0 <= k < |bs| ==> Header(p, bs[k], NextOf(base, bs, k, last))
  }

  /** The pool bytes hold the list `bs`, ended by NULL. */
  ghost predicate Stored(p: seq<byte>, base: nat, bs: seq<Block>)
    requires InPool(bs) && |p| == POOL
  {
    Chain(p, base, bs, 0)
  }

  /** The payload bytes of `b` are the same in `p` and `q`. */
  ghost predicate PayloadKept(p: seq<byte>, q: seq<byte>, b: Block) {
    b.End() <= |p| && SameInside(p, q, b.off + HEADER, b.End())
  }

  lemma HeaderFrame(p: seq<byte>, q: seq<byte>, lo: int, hi: int, b: Block, nxt: nat)
    requires SameOutside(p, q, lo, hi) && b.off + HEADER <= |p|
    requires b.off + HEADER <= lo || hi <= b.off
    requires Header(p, b, nxt)
    ensures Header(q, b, nxt)
  {
    LeFrame(p, q, lo, hi, b.off + SIZE, 8);
    LeFrame(p, q, lo, hi, b.off + IS_FREE, 4);
    LeFrame(p, q, lo, hi, b.off + NEXT, 8);
  }

  lemma ChainFrame(p: seq<byte>, q: seq<byte>, lo: int, hi: int, base: nat, bs: seq<Block>, last: nat)
    requires InPool(bs) && |p| == POOL && SameOutside(p, q, lo, hi)
    requires forall k :: 0 <= k < |bs| ==> bs[k].off + HEADER <= lo || hi <= bs[k].off
    requires Chain(p, base, bs, last)
    ensures Chain(q, base, bs, last)
  {
    forall k | 0 <= k < |bs| ensures Header(q, bs[k], NextOf(base, bs, k, last)) {
      HeaderFrame(p, q, lo, hi, bs[k], NextOf(base, bs, k, last));
    }
  }

  function HeadOr(base: nat, bs: seq<Block>, last: nat): nat {
    if bs == [] then last else base + bs[0].off
  }

  lemma ChainSplit(p: seq<byte>, base: nat, a: seq<Block>, b: seq<Block>, last: nat)
    requires InPool(a + b) && |p| == POOL
    ensures InPool(a) && InPool(b)
    ensures Chain(p, base, a + b, last) <==> Chain(p, base, a, HeadOr(base, b, last)) && Chain(p, base, b, last)
  {
    assert forall k :: 0 <= k < |a| ==> (a + b)[k] == a[k];
    assert forall k :: 0 <= k < |b| ==> (a + b)[|a| + k] == b[k];
    assert forall k :: 0 <= k < |a| ==> NextOf(base, a + b, k, last) == NextOf(base, a, k, HeadOr(base, b, last));
    assert forall k :: 0 <= k < |b| ==> NextOf(base, a + b, |a| + k, last) == NextOf(base, b, k, last);
    if Chain(p, base, a + b, last) {
      forall k | 0 <= k < |b| ensures Header(p, b[k], NextOf(base, b, k, last)) {
        assert Header(p, (a + b)[|a| + k], NextOf(base, a + b, |a| + k, last));
      }
    }
  }

  ghost predicate Below(bs: seq<Block>, lo: nat) {
    forall k :: 0 <= k < |bs| ==> bs[k].End() <= lo
  }

  ghost predicate Above(bs: seq<Block>, hi: nat) {
    forall k :: 0 <= k < |bs| ==> hi <= bs[k].off
  }

  lemma ChainReplace(p: seq<byte>, q: seq<byte>, lo: nat, hi: nat, base: nat,
                     a: seq<Block>, o: seq<Block>, new': seq<Block>, c: seq<Block>)
    requires InPool(a + (o + c)) && InPool(new') && |p| == |q| == POOL && SameOutside(p, q, lo, hi)
    requires o != [] && new' != [] && o[0].off == new'[0].off == lo
    requires Below(a, lo) && Above(c, hi)
    requires Stored(p, base, a + (o + c))
    requires Chain(q, base, new', HeadOr(base, c, 0))
    ensures InPool(a + (new' + c)) && Stored(q, base, a + (new' + c))
  {
    ChainSplit(p, base, a, o + c, 0);
    ChainSplit(p, base, o, c, 0);
    ChainFrame(p, q, lo, hi, base, a, base + lo);
    ChainFrame(p, q, lo, hi, base, c, 0);
    ChainSplit(q, base, new', c, 0);
    ChainSplit(q, base, a, new' + c, 0);
  }

  lemma OrderedCut(bs: seq<Block>, k: nat, m: nat)
    requires Ordered(bs) && k + m <= |bs| && m > 0
    ensures bs == bs[..k] + (bs[k..k + m] + bs[k + m..])
    ensures Below(bs[..k], bs[k].off) && Above(bs[k + m..], bs[k + m - 1].End())
  {
  }

  lemma CutAt(base: nat, bs: seq<Block>, k: nat, m: nat)
    requires Ordered(bs) && k + m <= |bs| && m > 0
    ensures bs[k..k + m] != [] && bs[k..k + m][0].off == bs[k].off && InPool(bs)
    ensures HeadOr(base, bs[k + m..], 0) == NextOf(base, bs, k + m - 1, 0)
  {
  }

  /** Rewriting `m` blocks in place, by stores inside them only, stores the spliced list. */
  lemma StoredSplice(p: seq<byte>, q: seq<byte>, base: nat, bs: seq<Block>, k: nat, m: nat, new': seq<Block>)
    requires Ordered(bs) && k + m <= |bs| && m > 0 && new' != []
    requires new'[0].off == bs[k].off
    requires InPool(new') && |p| == |q| == POOL
    requires Stored(p, base, bs)
    requires SameOutside(p, q, bs[k].off, bs[k + m - 1].End())
    requires Chain(q, base, new', NextOf(base, bs, k + m - 1, 0))
    ensures InPool(Splice(bs, k, m, new')) && Stored(q, base, Splice(bs, k, m, new'))
  {
    hide *;
    OrderedCut(bs, k, m);
    CutAt(base, bs, k, m);
    ChainReplace(p, q, bs[k].off, bs[k + m - 1].End(), base, bs[..k], bs[k..k + m], new', bs[k + m..]);
    SpliceIs(bs, k, m, new');
  }

  /** Stores inside free blocks leave every live payload alone. */
  lemma PayloadFrame(p: seq<byte>, q: seq<byte>, bs: seq<Block>, k: nat, m: nat, b: Block)
    requires Ordered(bs) && k + m <= |bs| && m > 0 && |p| == POOL
    requires forall i :: k <= i < k + m ==> bs[i].free
    requires SameOutside(p, q, bs[k].off, bs[k + m - 1].End())
    requires b in Live(bs)
    ensures PayloadKept(p, q, b)
  {
    var i :| 0 <= i < |bs| && bs[i] == b;
    assert i < k ==> bs[i].End() <= bs[k].off;
    assert i >= k + m ==> bs[k + m - 1].End() <= bs[i].off;
  }

  /** Every live payload byte is the same in `p` and `q`. */
  ghost predicate PayloadsKept(p: seq<byte>, q: seq<byte>, bs: seq<Block>) {
    |p| == |q| == POOL && forall b :: b in Live(bs) ==> PayloadKept(p, q, b)
  }

  // ----- stores into one header -----

  lemma HeaderLoads(pool: array<byte>, b: Block, nxt: nat)
    requires b.off + HEADER <= pool.Length && Header(pool[..], b, nxt)
    ensures Load(pool, b.off + SIZE, 8) == b.size
    ensures (Load(pool, b.off + IS_FREE, 4) != 0) == b.free
    ensures Load(pool, b.off + NEXT, 8) == nxt
  {
  }

  lemma HeaderStored(p: seq<byte>, q: seq<byte>, b: Block, nxt: nat, at: nat, n: nat)
    requires at + n <= HEADER && b.off + HEADER <= |p|
    requires SameOutside(p, q, b.off + at, b.off + at + n)
    requires Header(p, b, nxt)
    ensures SIZE + 8 <= at || at + n <= SIZE ==> Le(q, b.off + SIZE, 8) == b.size
    ensures IS_FREE + 4 <= at || at + n <= IS_FREE ==> (Le(q, b.off + IS_FREE, 4) != 0) == b.free
    ensures NEXT + 8 <= at || at + n <= NEXT ==> Le(q, b.off + NEXT, 8) == nxt
  {
    var lo, hi := b.off + at, b.off + at + n;
    if SIZE + 8 <= at || at + n <= SIZE {
      LeFrame(p, q, lo, hi, b.off + SIZE, 8);
    }
    if IS_FREE + 4 <= at || at + n <= IS_FREE {
      LeFrame(p, q, lo, hi, b.off + IS_FREE, 4);
    }
    if NEXT + 8 <= at || at + n <= NEXT {
      LeFrame(p, q, lo, hi, b.off + NEXT, 8);
    }
  }

  /** Store a new payload size; the other fields keep what they say. */
  method SetSize(pool: array<byte>, size: nat, ghost b: Block, ghost nxt: nat, o: nat)
    requires b.off == o && o + HEADER <= pool.Length && size < U64
    requires Header(pool[..], b, nxt)
    modifies pool
    ensures Header(pool[..], b.(size := size), nxt)
    ensures SameOutside(old(pool[..]), pool[..], o, o + HEADER)
  {
    WordSizes();
    Store(pool, o + SIZE, size, 8);
    HeaderStored(old(pool[..]), pool[..], b, nxt, SIZE, 8);
  }

  /** Store the flag: any value but 0 reads as free. */
  method SetFree(pool: array<byte>, flag: nat, ghost b: Block, ghost nxt: nat, o: nat)
    requires b.off == o && o + HEADER <= pool.Length && flag < U32
    requires Header(pool[..], b, nxt)
    modifies pool
    ensures Header(pool[..], b.(free := flag != 0), nxt)
    ensures SameOutside(old(pool[..]), pool[..], o, o + HEADER)
  {
    WordSizes();
    Store(pool, o + IS_FREE, flag, 4);
    HeaderStored(old(pool[..]), pool[..], b, nxt, IS_FREE, 4);
  }

  /** Link the block to another address. */
  method SetNext(pool: array<byte>, next: nat, ghost b: Block, ghost nxt: nat, o: nat)
    requires b.off == o && o + HEADER <= pool.Length && next < U64
    requires Header(pool[..], b, nxt)
    modifies pool
    ensures Header(pool[..], b, next)
    ensures SameOutside(old(pool[..]), pool[..], o, o + HEADER)
  {
    WordSizes();
    Store(pool, o + NEXT, next, 8);
    HeaderStored(old(pool[..]), pool[..], b, nxt, NEXT, 8);
  }

  /** Whatever bytes lie at `o` read as some header. */
  lemma SomeHeader(p: seq<byte>, o: nat)
    requires o + HEADER <= |p|
    ensures Header(p, Block(o, Le(p, o + SIZE, 8), Le(p, o + IS_FREE, 4) != 0), Le(p, o + NEXT, 8))
  {
  }

  /** The three stores that make a new free block. */
  method Fill(pool: array<byte>, o: nat, size: nat, next: nat)
    requires o + HEADER <= pool.Length && size < U64 && next < U64
    modifies pool
    ensures Header(pool[..], Block(o, size, true), next)
    ensures SameOutside(old(pool[..]), pool[..], o, o + HEADER)
  {
    ghost var b := Block(o, Load(pool, o + SIZE, 8), Load(pool, o + IS_FREE, 4) != 0);
    ghost var nxt := Load(pool, o + NEXT, 8);
    SomeHeader(pool[..], o);
    SetSize(pool, size, b, nxt, o);
    SetFree(pool, 1, b.(size := size), nxt, o);
    SetNext(pool, next, Block(o, size, true), nxt, o);
  }
}
