// memory_allocator.c in use: whole runs of allocate and free, with clients storing into what they hold in between.
module Clients {
  import opened Bytes
  import opened FirstFit
  import opened HeapRuns
  import opened Headers
  import opened Allocator

  /** A call of the allocator, or a store of `v` at byte `i` of the payload of the held block at `off`. */
  datatype Act = Call(op: Op) | Put(off: nat, i: nat, v: byte)

  /** The calls among the acts. */
  function Calls(acts: seq<Act>): seq<Op> {
    if acts == [] then []
    else Calls(acts[..|acts| - 1]) + match acts[|acts| - 1]
      case Call(op) => [op]
      case Put(_, _, _) => []
  }

  ghost predicate HoldsByte(bs: seq<Block>, off: nat, i: nat) {
    exists b :: b in Live(bs) && b.off == off && i < b.size
  }

  ghost predicate Allowed(bs: seq<Block>, act: Act) {
    match act
    case Call(op) => Enabled(bs, op) && (op.Alloc? ==> op.size < U64)
    case Put(off, i, _) => HoldsByte(bs, off, i)
  }

  /** Clients free and store into only what they hold at that moment. */
  ghost predicate Lawful(acts: seq<Act>) {
    acts == [] || (Lawful(acts[..|acts| - 1]) && Allowed(Run(Calls(acts[..|acts| - 1])), acts[|acts| - 1]))
  }

  /** By block and byte, what was last stored there since the block was handed out. */
  type Stores = map<(nat, nat), byte>

  function Without(w: Stores, off: nat): Stores {
    map key | key in w && key.0 != off :: w[key]
  }

  function After(w: Stores, act: Act): Stores {
    match act
    case Call(Free(off)) => Without(w, off)
    case Call(_) => w
    case Put(off, i, v) => w[(off, i) := v]
  }

  function LastStored(acts: seq<Act>): Stores {
    if acts == [] then map[] else After(LastStored(acts[..|acts| - 1]), acts[|acts| - 1])
  }

  /** What is recorded for a byte is what the last store to it put there, unless its block was freed since. */
  lemma {:induction false} LastStoredIs(acts: seq<Act>, off: nat, i: nat, v: byte)
    ensures (off, i) in LastStored(acts) && LastStored(acts)[(off, i)] == v <==>
            exists k :: 0 <= k < |acts| && acts[k] == Put(off, i, v)
                        && forall j :: k < j < |acts| ==>
                             acts[j] != Call(Free(off)) && !(acts[j].Put? && acts[j].off == off && acts[j].i == i)
  {
    if acts != [] {
      var n := |acts| - 1;
      LastStoredIs(acts[..n], off, i, v);
    }
  }

  /** Every byte stored belongs to a held block and is still in the pool. */
  ghost predicate Intact(p: seq<byte>, bs: seq<Block>, w: Stores) {
    |p| == POOL && forall key :: key in w ==>
      HoldsByte(bs, key.0, key.1) && key.0 + HEADER + key.1 < POOL && p[key.0 + HEADER + key.1] == w[key]
  }

  lemma IntactAllocate(p: seq<byte>, q: seq<byte>, bs: seq<Block>, cs: seq<Block>, w: Stores)
    requires Intact(p, bs, w) && PayloadsKept(p, q, bs) && Live(bs) <= Live(cs)
    ensures Intact(q, cs, w)
  {
    forall key | key in w ensures HoldsByte(cs, key.0, key.1) && q[key.0 + HEADER + key.1] == w[key] {
      var b :| b in Live(bs) && b.off == key.0 && key.1 < b.size;
      assert PayloadKept(p, q, b);
    }
  }

  lemma IntactFree(p: seq<byte>, q: seq<byte>, bs: seq<Block>, cs: seq<Block>, w: Stores, off: nat)
    requires Intact(p, bs, w) && PayloadsKept(p, q, cs)
    requires forall b :: b in Live(bs) && b.off != off ==> b in Live(cs)
    ensures Intact(q, cs, Without(w, off))
  {
    forall key | key in Without(w, off) ensures HoldsByte(cs, key.0, key.1) && q[key.0 + HEADER + key.1] == w[key] {
      var b :| b in Live(bs) && b.off == key.0 && key.1 < b.size;
      assert PayloadKept(p, q, b);
    }
  }

  lemma ByteApart(bs: seq<Block>, a: Block, b: Block, i: nat, j: nat)
    requires Ordered(bs) && a in Live(bs) && b in Live(bs) && i < a.size && j < b.size
    requires a.off != b.off || i != j
    ensures a.off + HEADER + i != b.off + HEADER + j
  {
    var k :| 0 <= k < |bs| && bs[k] == a;
    var l :| 0 <= l < |bs| && bs[l] == b;
    assert k < l ==> bs[k].End() <= bs[l].off;
    assert l < k ==> bs[l].End() <= bs[k].off;
  }

  lemma IntactPut(p: seq<byte>, bs: seq<Block>, w: Stores, b: Block, i: nat, v: byte)
    requires Ordered(bs) && Intact(p, bs, w) && b in Live(bs) && i < b.size
    ensures b.off + HEADER + i < POOL && Intact(p[b.off + HEADER + i := v], bs, w[(b.off, i) := v])
  {
    assert b.End() <= POOL;
    var q, u := p[b.off + HEADER + i := v], w[(b.off, i) := v];
    forall key | key in u
      ensures HoldsByte(bs, key.0, key.1) && key.0 + HEADER + key.1 < POOL && q[key.0 + HEADER + key.1] == u[key]
    {
      if key != (b.off, i) {
        assert key in w;
        var c :| c in Live(bs) && c.off == key.0 && key.1 < c.size;
        ByteApart(bs, b, c, i, key.1);
      }
    }
  }

  lemma HeldPointer(bs: seq<Block>, base: nat, off: nat)
    requires Holds(bs, off)
    ensures exists b :: b in Live(bs) && base + off + HEADER == base + b.off + HEADER
  {
    var k :| 0 <= k < |bs| && bs[k].off == off && !bs[k].free;
    assert bs[k] in Live(bs);
  }

  function BlocksAfter(bs: seq<Block>, act: Act): seq<Block> {
    match act
    case Call(op) => Step(bs, op)
    case Put(_, _, _) => bs
  }

  lemma AllocateLive(bs: seq<Block>, cs: seq<Block>, size: nat)
    requires Ordered(bs) && cs == Allocated(bs, size)
    ensures Live(bs) <= Live(cs)
  {
    AllocatedLive(bs, size);
  }

  lemma HeldByte(a: Allocator, off: nat, i: nat) returns (b: Block)
    requires a.Valid() && HoldsByte(a.blocks, off, i)
    ensures b in Live(a.blocks) && b.off == off && i < b.size && b.End() == off + HEADER + b.size
    ensures Ordered(a.blocks)
  {
    b :| b in Live(a.blocks) && b.off == off && i < b.size;
  }

  lemma ValidFacts(a: Allocator)
    requires a.Valid()
    ensures a.pool.Length == POOL && Ordered(a.blocks)
  {
  }

  /** One act of a run. */
  method ActOne(a: Allocator, act: Act, ghost w: Stores)
    requires a.Valid() && Allowed(a.blocks, act) && Intact(a.pool[..], a.blocks, w)
    modifies a, a.pool
    ensures a.Valid() && a.blocks == BlocksAfter(old(a.blocks), act)
    ensures a.calls == old(a.calls) + if act.Call? && act.op.Alloc? then 1 else 0
    ensures Intact(a.pool[..], a.blocks, After(w, act))
  {
    hide Allocator.Valid, Ordered, Allocated, Freed, PayloadsKept, Holds, Live, Intact, HoldsByte, Without, Find;
    ghost var p, bs := a.pool[..], a.blocks;
    ValidFacts(a);
    match act {
      case Call(Alloc(size)) =>
        var ptr := a.Allocate(size);
        AllocateLive(bs, a.blocks, size);
        IntactAllocate(p, a.pool[..], bs, a.blocks, w);
      case Call(Free(off)) =>
        HeldPointer(bs, a.base, off);
        a.Free(a.base + off + HEADER);
        IntactFree(p, a.pool[..], bs, a.blocks, w, off);
      case Call(FreeNull) => a.Free(0);
      case Put(off, i, v) =>
        ghost var b := HeldByte(a, off, i);
        a.ClientStore(b, off + HEADER + i, v);
        IntactPut(p, bs, w, b, i, v);
    }
  }

  // ----- whole runs -----

  lemma {:induction false} LawfulPrefix(acts: seq<Act>, k: nat)
    requires Lawful(acts) && k <= |acts|
    ensures Lawful(acts[..k])
    decreases |acts|
  {
    if k == |acts| {
      assert acts[..k] == acts;
    } else {
      assert acts[..|acts| - 1][..k] == acts[..k];
      LawfulPrefix(acts[..|acts| - 1], k);
    }
  }

  /** The calls of a lawful run are a legal run, so all that holds of those holds of it. */
  lemma {:induction false} LawfulCalls(acts: seq<Act>)
    requires Lawful(acts)
    ensures Legal(Calls(acts))
  {
    if acts != [] {
      var before, act := acts[..|acts| - 1], acts[|acts| - 1];
      LawfulCalls(before);
      if act.Call? {
        RunSnoc(Calls(before), act.op);
      } else {
        assert Calls(acts) == Calls(before);
      }
    }
  }

  lemma NextAct(acts: seq<Act>, k: nat)
    requires Lawful(acts) && k < |acts|
    ensures var ops, act := Calls(acts[..k]), acts[k];
            && Allowed(Run(ops), act) && Run(Calls(acts[..k + 1])) == BlocksAfter(Run(ops), act)
            && Allocs(Calls(acts[..k + 1])) == Allocs(ops) + (if act.Call? && act.op.Alloc? then 1 else 0)
            && LastStored(acts[..k + 1]) == After(LastStored(acts[..k]), act)
  {
    hide Run, Allocs, Allowed;
    LawfulPrefix(acts, k + 1);
    assert acts[..k + 1][..k] == acts[..k];
    if acts[k].Call? {
      RunSnoc(Calls(acts[..k]), acts[k].op);
    } else {
      assert Calls(acts[..k + 1]) == Calls(acts[..k]);
    }
  }

  lemma NoActs(p: seq<byte>, acts: seq<Act>)
    requires |p| == POOL
    ensures Run(Calls(acts[..0])) == Init() && Allocs(Calls(acts[..0])) == 0
    ensures Intact(p, Init(), LastStored(acts[..0]))
  {
  }

  /** Any interleaving of calls and client stores, on a fresh allocator: the list is that of the calls alone,
      and every held payload byte is the last one its holder stored since the allocation. */
  method Play(a: Allocator, acts: seq<Act>)
    requires a.Valid() && a.blocks == Init() && a.calls == 0
    requires Lawful(acts)
    modifies a, a.pool
    ensures a.Valid() && a.blocks == Run(Calls(acts)) && a.calls == Allocs(Calls(acts))
    ensures Intact(a.pool[..], a.blocks, LastStored(acts))
  {
    hide *;
    ValidFacts(a);
    NoActs(a.pool[..], acts);
    var i := 0;
    while i < |acts|
      invariant i <= |acts| && a.Valid()
      invariant a.blocks == Run(Calls(acts[..i])) && a.calls == Allocs(Calls(acts[..i]))
      invariant Intact(a.pool[..], a.blocks, LastStored(acts[..i]))
    {
      NextAct(acts, i);
      ActOne(a, acts[i], LastStored(acts[..i]));
      i := i + 1;
    }
    assert acts[..|acts|] == acts;
  }
}
