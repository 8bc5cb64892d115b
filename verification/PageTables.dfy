// boot/main.asm, setup_page_tables: three tables filled in memory, and the processor's walk through them.
module PageTables {
  import opened Bytes

  const PAGE: nat := 4096
  const HUGE: nat := 0x20_0000        // 2 MiB
  const ENTRIES: nat := 512
  const GIB: nat := 0x4000_0000
  const HALF: nat := 0x8000_0000_0000  // 2^47, where the lower half of the address space ends

  // ----- the `or` of entry flags -----

  function Or(a: nat, b: nat): nat
    decreases a + b
  {
    if a == 0 && b == 0 then 0 else 2 * Or(a / 2, b / 2) + if a % 2 == 1 || b % 2 == 1 then 1 else 0
  }

  lemma {:induction false} OrZero(a: nat)
    ensures Or(a, 0) == a
  {
    if a > 0 { OrZero(a / 2); }
  }

  /** Flags below the alignment of an address are simply added to it. */
  lemma {:induction false} OrFlags(q: nat, k: nat, b: nat)
    requires b < Pow(2, k)
    ensures Or(q * Pow(2, k), b) == q * Pow(2, k) + b
  {
    if b == 0 {
      OrZero(q * Pow(2, k));
    } else {
      var h := q * Pow(2, k - 1);
      assert q * Pow(2, k) == 2 * h by {
        assert q * (2 * Pow(2, k - 1)) == 2 * (q * Pow(2, k - 1));
      }
      OrFlags(q, k - 1, b / 2);
      assert (2 * h) / 2 == h;
    }
  }

  // ----- the walk -----

  datatype Walk = NotPresent | Mapped(physical: nat, writable: bool)

  predicate Bit(e: nat, k: nat) { e / Pow(2, k) % 2 == 1 }

  /** The physical address field of an entry: bits 51 to 12. */
  function Frame(e: nat): nat { e / PAGE % 0x100_0000_0000 * PAGE }

  function Entry(mem: seq<byte>, table: nat, index: nat): nat
    requires table + 8 * index + 8 <= |mem|
  {
    Le(mem, table + 8 * index, 8)
  }

  function Index(va: nat, level: nat): (i: nat)
    requires 1 <= level <= 4
    ensures i < ENTRIES
  {
    (if level == 4 then va / 0x80_0000_0000
     else if level == 3 then va / GIB
     else if level == 2 then va / HUGE
     else va / PAGE) % ENTRIES
  }

  predicate TableIn(mem: seq<byte>, table: nat) { table + PAGE <= |mem| }

  /** The page-directory level: a 2 MiB page, or a page table of 4 KiB pages. */
  function FromDirectory(mem: seq<byte>, l2: nat, va: nat, writable: bool): Walk
    requires TableIn(mem, l2)
  {
    var e2 := Entry(mem, l2, Index(va, 2));
    if !Bit(e2, 0) then NotPresent
    else if Bit(e2, 7) then Mapped(Frame(e2) / HUGE * HUGE + va % HUGE, writable && Bit(e2, 1))
    else if !TableIn(mem, Frame(e2)) then NotPresent
    else
      var e1 := Entry(mem, Frame(e2), Index(va, 1));
      if !Bit(e1, 0) then NotPresent else Mapped(Frame(e1) + va % PAGE, writable && Bit(e2, 1) && Bit(e1, 1))
  }

  /** 4-level paging, section 4.5 of the Intel SDM Volume 3A: pages of 1 GiB, 2 MiB and 4 KiB.
      A table that lies outside the modelled memory is answered by NotPresent. */
  function Translate(mem: seq<byte>, l4: nat, va: nat): Walk
    requires TableIn(mem, l4)
  {
    var e4 := Entry(mem, l4, Index(va, 4));
    if !Bit(e4, 0) || !TableIn(mem, Frame(e4)) then NotPresent
    else
      var e3 := Entry(mem, Frame(e4), Index(va, 3));
      if !Bit(e3, 0) then NotPresent
      else if Bit(e3, 7) then Mapped(Frame(e3) / GIB * GIB + va % GIB, Bit(e4, 1) && Bit(e3, 1))
      else if !TableIn(mem, Frame(e3)) then NotPresent
      else FromDirectory(mem, Frame(e3), va, Bit(e4, 1) && Bit(e3, 1))
  }

  // ----- what the loop builds -----

  /** The contents of the three tables after setup. */
  ghost predicate Built(mem: seq<byte>, l4: nat, l3: nat, l2: nat, count: nat) {
    && TableIn(mem, l4) && TableIn(mem, l3) && TableIn(mem, l2) && count <= ENTRIES
    && (forall i :: 0 <= i < ENTRIES ==> Entry(mem, l4, i) == if i == 0 then l3 + 3 else 0)
    && (forall i :: 0 <= i < ENTRIES ==> Entry(mem, l3, i) == if i == 0 then l2 + 3 else 0)
    && (forall i :: 0 <= i < count ==> Entry(mem, l2, i) == i * HUGE + 0x83)
  }

  ghost predicate Placed(length: nat, l4: nat, l3: nat, l2: nat) {
    && l4 % PAGE == l3 % PAGE == l2 % PAGE == 0
    && l3 == l4 + PAGE && l2 == l3 + PAGE && l2 + PAGE <= length && l2 + PAGE <= U32
  }

  lemma SmallPowers()
    ensures Pow(2, 0) == 1 && Pow(2, 1) == 2 && Pow(2, 7) == 128
  {
  }

  lemma TableEntry(table: nat)
    requires table % PAGE == 0 && table < U32
    ensures Bit(table + 3, 0) && Bit(table + 3, 1) && !Bit(table + 3, 7) && Frame(table + 3) == table
  {
    hide Pow;
    SmallPowers();
    var q := table / PAGE;
    assert table + 3 == q * PAGE + 3;
    assert (table + 3) / 128 == q * 32;
  }

  lemma HugeEntry(i: nat)
    requires i < ENTRIES
    ensures var e := i * HUGE + 0x83; Bit(e, 0) && Bit(e, 1) && Bit(e, 7) && Frame(e) == i * HUGE
  {
    hide Pow;
    SmallPowers();
    var e := i * HUGE + 0x83;
    assert e / 2 == i * 0x10_0000 + 65;
    assert e / 128 == i * 16384 + 1;
    assert e / PAGE == i * 512;
  }

  lemma ZeroEntry()
    ensures !Bit(0, 0)
  {
  }

  lemma Indices(va: nat)
    requires va < HALF
    ensures Index(va, 4) < ENTRIES && Index(va, 3) < ENTRIES && Index(va, 2) < ENTRIES
    ensures va < GIB <==> Index(va, 4) == 0 && Index(va, 3) == 0
    ensures va < GIB ==> Index(va, 2) * HUGE + va % HUGE == va && Index(va, 2) * HUGE / HUGE * HUGE == Index(va, 2) * HUGE
  {
  }

  /** The tables map the first GiB onto itself, present and writable, and nothing else below 2^47. */
  lemma IdentityMapping(mem: seq<byte>, l4: nat, l3: nat, l2: nat, va: nat)
    requires Placed(|mem|, l4, l3, l2) && Built(mem, l4, l3, l2, ENTRIES)
    requires va < HALF
    ensures Translate(mem, l4, va) == if va < GIB then Mapped(va, true) else NotPresent
  {
    TableEntry(l3);
    TableEntry(l2);
    ZeroEntry();
    var i4, i3, i2 := Index(va, 4), Index(va, 3), Index(va, 2);
    Indices(va);
    assert Entry(mem, l4, i4) == if i4 == 0 then l3 + 3 else 0;
    if i4 == 0 {
      assert Entry(mem, l3, i3) == if i3 == 0 then l2 + 3 else 0;
      if i3 == 0 {
        assert Entry(mem, l2, i2) == i2 * HUGE + 0x83;
        HugeEntry(i2);
      }
    }
  }

  // ----- the code -----

  /** A 64-bit entry written by a 32-bit store over zeros. */
  lemma LeHalves(p: seq<byte>, at: nat)
    requires at + 8 <= |p| && forall x :: at + 4 <= x < at + 8 ==> p[x] == 0
    ensures Le(p, at, 8) == Le(p, at, 4)
  {
    LeZero(p, at + 4, 4);
    assert Le(p, at, 8) == p[at] + 256 * Le(p, at + 1, 7) && Le(p, at, 4) == p[at] + 256 * Le(p, at + 1, 3);
    assert Le(p, at + 1, 7) == p[at + 1] + 256 * Le(p, at + 2, 6) && Le(p, at + 1, 3) == p[at + 1] + 256 * Le(p, at + 2, 2);
    assert Le(p, at + 2, 6) == p[at + 2] + 256 * Le(p, at + 3, 5) && Le(p, at + 2, 2) == p[at + 2] + 256 * Le(p, at + 3, 1);
    assert Le(p, at + 3, 5) == p[at + 3] + 256 * Le(p, at + 4, 4) && Le(p, at + 3, 1) == p[at + 3] + 256 * Le(p, at + 4, 0);
  }

  /** A 32-bit store makes a whole 64-bit entry, because the table was zeroed. */
  method StoreEntry(mem: array<byte>, at: nat, eax: uint32)
    requires at + 8 <= mem.Length && forall x :: at <= x < at + 8 ==> mem[x] == 0
    modifies mem
    ensures SameOutside(old(mem[..]), mem[..], at, at + 8)
    ensures Le(mem[..], at, 8) == eax
  {
    WordSizes();
    Store(mem, at, eax, 4);
    LeHalves(mem[..], at);
  }

  lemma ZeroTable(p: seq<byte>, table: nat, i: nat)
    requires TableIn(p, table) && i < ENTRIES
    requires forall x :: table + 8 * i <= x < table + 8 * i + 8 ==> p[x] == 0
    ensures Entry(p, table, i) == 0
  {
    LeZero(p, table + 8 * i, 8);
  }

  lemma OneEntry(p: seq<byte>, table: nat, v: nat)
    requires TableIn(p, table) && Le(p, table, 8) == v
    requires forall x :: table + 8 <= x < table + PAGE ==> p[x] == 0
    ensures forall i :: 0 <= i < ENTRIES ==> Entry(p, table, i) == if i == 0 then v else 0
  {
    forall i | 0 < i < ENTRIES ensures Entry(p, table, i) == 0 {
      ZeroTable(p, table, i);
    }
  }

  lemma BuiltStep(p: seq<byte>, q: seq<byte>, l4: nat, l3: nat, l2: nat, n: nat)
    requires Placed(|p|, l4, l3, l2) && Built(p, l4, l3, l2, n) && n < ENTRIES
    requires SameOutside(p, q, l2 + 8 * n, l2 + 8 * n + 8)
    requires Entry(q, l2, n) == n * HUGE + 0x83
    ensures Built(q, l4, l3, l2, n + 1)
  {
    forall i | 0 <= i < ENTRIES
      ensures Entry(q, l4, i) == Entry(p, l4, i) && Entry(q, l3, i) == Entry(p, l3, i)
    {
      LeFrame(p, q, l2 + 8 * n, l2 + 8 * n + 8, l4 + 8 * i, 8);
      LeFrame(p, q, l2 + 8 * n, l2 + 8 * n + 8, l3 + 8 * i, 8);
    }
    forall i | 0 <= i < n ensures Entry(q, l2, i) == Entry(p, l2, i) {
      LeFrame(p, q, l2 + 8 * n, l2 + 8 * n + 8, l2 + 8 * i, 8);
    }
  }

  lemma Alignments()
    ensures Pow(2, 12) == PAGE && Pow(2, 21) == HUGE
  {
    assert Pow(2, 6) == 64 && Pow(2, 12) == 4096;
    assert Pow(2, 18) == 262144 && Pow(2, 21) == HUGE;
  }

  lemma FlagsAdded(table: nat, i: nat)
    requires table % PAGE == 0
    ensures Or(table, 3) == table + 3
    ensures Or(i * HUGE, 0x83) == i * HUGE + 0x83
  {
    hide Or, Pow;
    Alignments();
    OrFlags(table / PAGE, 12, 3);
    OrFlags(i, 21, 0x83);
  }

  lemma BuiltStart(p: seq<byte>, l4: nat, l3: nat, l2: nat)
    requires Placed(|p|, l4, l3, l2)
    requires Le(p, l4, 8) == l3 + 3 && Le(p, l3, 8) == l2 + 3
    requires forall x :: l4 + 8 <= x < l3 ==> p[x] == 0
    requires forall x :: l3 + 8 <= x < l2 ==> p[x] == 0
    ensures Built(p, l4, l3, l2, 0)
  {
    OneEntry(p, l4, l3 + 3);
    OneEntry(p, l3, l2 + 3);
  }

  /** The two single entries before the loop. */
  method LinkTables(mem: array<byte>, l4: nat, l3: nat, l2: nat)
    requires Placed(mem.Length, l4, l3, l2)
    requires forall x :: l4 <= x < l2 ==> mem[x] == 0
    modifies mem
    ensures Built(mem[..], l4, l3, l2, 0)
    ensures SameOutside(old(mem[..]), mem[..], l4, l2)
  {
    hide Built, Or;
    FlagsAdded(l3, 0);
    FlagsAdded(l2, 0);
    var eax: uint32 := Or(l3, 3);
    StoreEntry(mem, l4, eax);
    ghost var p1 := mem[..];
    eax := Or(l2, 3);
    StoreEntry(mem, l3, eax);
    LeFrame(p1, mem[..], l3, l3 + 8, l4, 8);
    BuiltStart(mem[..], l4, l3, l2);
  }

  /** One pass of the loop. */
  method FillEntry(mem: array<byte>, l4: nat, l3: nat, l2: nat, ecx: nat)
    requires Placed(mem.Length, l4, l3, l2) && ecx < ENTRIES
    requires Built(mem[..], l4, l3, l2, ecx)
    requires forall x :: l2 + 8 * ecx <= x < l2 + 8 * ecx + 8 ==> mem[x] == 0
    modifies mem
    ensures Built(mem[..], l4, l3, l2, ecx + 1)
    ensures SameOutside(old(mem[..]), mem[..], l2 + 8 * ecx, l2 + 8 * ecx + 8)
  {
    hide Built, Or;
    ghost var p := mem[..];
    FlagsAdded(0, ecx);
    var eax: uint32 := HUGE * ecx % U32;
    eax := Or(eax, 0x83);
    StoreEntry(mem, l2 + ecx * 8, eax);
    BuiltStep(p, mem[..], l4, l3, l2, ecx);
  }

  /** The three tables as bytes: two links, and 512 entries of 2 MiB each. */
  lemma BuiltBytes(mem: seq<byte>, l4: nat, l3: nat, l2: nat)
    requires Built(mem, l4, l3, l2, ENTRIES)
    ensures l4 + 4096 <= |mem| && l3 + 4096 <= |mem| && l2 + 4096 <= |mem|
    ensures Le(mem, l4, 8) == l3 + 3 && Le(mem, l3, 8) == l2 + 3
    ensures forall x :: l2 <= x < l2 + 4096 && (x - l2) % 8 == 0 ==> Le(mem, x, 8) == (x - l2) / 8 * 0x20_0000 + 0x83
  {
    assert Entry(mem, l4, 0) == l3 + 3 && Entry(mem, l3, 0) == l2 + 3;
    forall x | l2 <= x < l2 + 4096 && (x - l2) % 8 == 0 ensures Le(mem, x, 8) == (x - l2) / 8 * 0x20_0000 + 0x83 {
      assert Entry(mem, l2, (x - l2) / 8) == (x - l2) / 8 * HUGE + 0x83;
    }
  }

  /** setup_page_tables. */
  method SetupPageTables(mem: array<byte>, l4: nat, l3: nat, l2: nat)
    requires Placed(mem.Length, l4, l3, l2)
    requires forall x :: l4 <= x < l4 + 3 * PAGE ==> mem[x] == 0
    modifies mem
    ensures Built(mem[..], l4, l3, l2, ENTRIES)
    ensures SameOutside(old(mem[..]), mem[..], l4, l4 + 3 * PAGE)
    ensures l4 + 12288 <= mem.Length && Le(mem[..], l4, 8) == l3 + 3 && Le(mem[..], l3, 8) == l2 + 3
    ensures forall x :: l2 <= x < l2 + 4096 && (x - l2) % 8 == 0 ==> Le(mem[..], x, 8) == (x - l2) / 8 * 0x20_0000 + 0x83
  {
    hide Built;
    ghost var p0 := mem[..];
    LinkTables(mem, l4, l3, l2);
    var ecx := 0;
    while ecx != ENTRIES
      invariant 0 <= ecx <= ENTRIES
      invariant Built(mem[..], l4, l3, l2, ecx)
      invariant forall x :: l2 + 8 * ecx <= x < l2 + PAGE ==> mem[x] == 0
      invariant SameOutside(p0, mem[..], l4, l4 + 3 * PAGE)
      decreases ENTRIES - ecx
    {
      FillEntry(mem, l4, l3, l2, ecx);
      ecx := ecx + 1;
    }
    BuiltBytes(mem[..], l4, l3, l2);
  }
}
