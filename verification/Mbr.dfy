// The partition table inside sector 0, as bytes rewritten in place by partition.c and disktool.c.
module Mbr {
  import opened Bytes

  const MBR_SIZE: nat := 512
  const TABLE: nat := 446
  const ENTRY: nat := 16

  datatype Entry = Entry(status: byte, startHead: byte, startSector: nat, kind: byte, endHead: byte, endSector: nat,
                         lbaFirst: nat, sectorCount: nat)

  const EMPTY := Entry(0, 0, 0, 0, 0, 0, 0, 0)

  /** The packed PartitionEntry at `o`. */
  function EntryAt(m: seq<byte>, o: nat): Entry
    requires o + ENTRY <= |m|
  {
    Entry(m[o], m[o + 1], Le(m, o + 2, 2), m[o + 4], m[o + 5], Le(m, o + 6, 2), Le(m, o + 8, 4), Le(m, o + 12, 4))
  }

  /** The four slots sector 0 decodes to. */
  function Table(m: seq<byte>): (t: seq<Entry>)
    requires |m| == MBR_SIZE
    ensures |t| == 4
  {
    seq(4, i requires 0 <= i < 4 => EntryAt(m, TABLE + ENTRY * i))
  }

  // ----- the abstract table -----

  datatype Op = Create(kind: byte, lbaFirst: uint32, sectorCount: uint32) | Delete(index: int)

  function FirstFree(t: seq<Entry>): (k: nat)
    ensures k <= |t|
    ensures k < |t| ==> t[k].kind == 0
    ensures forall j :: 0 <= j < k ==> t[j].kind != 0
  {
    if t == [] || t[0].kind == 0 then 0 else 1 + FirstFree(t[1..])
  }

  /** What an operation does to the four slots. */
  function Apply(t: seq<Entry>, op: Op): (u: seq<Entry>)
    requires |t| == 4
    ensures |u| == 4
  {
    match op
    case Create(kind, lba, count) =>
      var k := FirstFree(t);
      if k == 4 then t else t[k := t[k].(status := 0, kind := kind, lbaFirst := lba, sectorCount := count)]
    case Delete(i) =>
      if 0 <= i < 4 && t[i].kind != 0 then t[i := EMPTY] else t
  }

  /** Sector 0 went from `m` to `m'` by `op`: the table changed as it should, and no byte outside it did. */
  ghost predicate Stepped(m: seq<byte>, m': seq<byte>, op: Op) {
    |m| == |m'| == MBR_SIZE && Table(m') == Apply(Table(m), op) && SameOutside(m, m', TABLE, TABLE + 4 * ENTRY)
  }

  // ----- frames -----

  lemma EntryFrame(m: seq<byte>, m': seq<byte>, o: nat)
    requires o + ENTRY <= |m| && SameInside(m, m', o, o + ENTRY)
    ensures EntryAt(m, o) == EntryAt(m', o)
  {
    LeSame(m, m', o + 2, 2);
    LeSame(m, m', o + 6, 2);
    LeSame(m, m', o + 8, 4);
    LeSame(m, m', o + 12, 4);
  }

  lemma EntryInjective(m: seq<byte>, m': seq<byte>, o: nat)
    requires |m| == |m'| && o + ENTRY <= |m| && EntryAt(m, o) == EntryAt(m', o)
    ensures SameInside(m, m', o, o + ENTRY)
  {
    LeInjective(m, m', o + 2, 2);
    LeInjective(m, m', o + 6, 2);
    LeInjective(m, m', o + 8, 4);
    LeInjective(m, m', o + 12, 4);
  }

  lemma TableStep(m: seq<byte>, m': seq<byte>, i: nat)
    requires |m| == MBR_SIZE && i < 4
    requires SameOutside(m, m', TABLE + ENTRY * i, TABLE + ENTRY * i + ENTRY)
    ensures Table(m') == Table(m)[i := EntryAt(m', TABLE + ENTRY * i)]
    ensures SameOutside(m, m', TABLE, TABLE + 4 * ENTRY)
  {
    forall j | 0 <= j < 4 && j != i ensures Table(m')[j] == Table(m)[j] {
      EntryFrame(m, m', TABLE + ENTRY * j);
    }
  }

  /** The table and the bytes around it are all there is: they determine the sector. */
  lemma TableInjective(m: seq<byte>, m': seq<byte>)
    requires |m| == |m'| == MBR_SIZE && Table(m) == Table(m') && SameOutside(m, m', TABLE, TABLE + 4 * ENTRY)
    ensures m == m'
  {
    forall i | 0 <= i < 4 ensures SameInside(m, m', TABLE + ENTRY * i, TABLE + ENTRY * i + ENTRY) {
      assert Table(m)[i] == EntryAt(m, TABLE + ENTRY * i) && Table(m')[i] == EntryAt(m', TABLE + ENTRY * i);
      EntryInjective(m, m', TABLE + ENTRY * i);
    }
    forall x | 0 <= x < MBR_SIZE ensures m[x] == m'[x] {
      if TABLE <= x < TABLE + 4 * ENTRY {
        var i := (x - TABLE) / ENTRY;
        assert SameInside(m, m', TABLE + ENTRY * i, TABLE + ENTRY * i + ENTRY);
      }
    }
  }

  // ----- the bytes behind it -----

  /** Slot `k` is the first whose type byte is 0; 4 stands for none. */
  ghost predicate FirstSlot(m: seq<byte>, k: nat)
    requires |m| == 512
  {
    && k <= 4
    && (k < 4 ==> m[446 + 16 * k + 4] == 0)
    && forall x :: 450 <= x < 450 + 16 * k && (x - 450) % 16 == 0 ==> m[x] != 0
  }

  lemma FirstFreeIs(t: seq<Entry>, k: nat)
    requires k <= |t| && (k < |t| ==> t[k].kind == 0)
    requires forall j :: 0 <= j < k ==> t[j].kind != 0
    ensures FirstFree(t) == k
  {
  }

  lemma FirstSlotIs(m: seq<byte>, k: nat)
    requires |m| == MBR_SIZE
    ensures FirstSlot(m, k) <==> FirstFree(Table(m)) == k
  {
    var t := Table(m);
    assert forall j :: 0 <= j < 4 ==> t[j].kind == m[446 + 16 * j + 4];
    if FirstSlot(m, k) {
      FirstFreeIs(t, k);
    }
    if FirstFree(t) == k {
      forall x | 450 <= x < 450 + 16 * k && (x - 450) % 16 == 0 ensures m[x] != 0 {
        var j := (x - 450) / 16;
        assert t[j].kind == m[x];
      }
    }
  }

  lemma ZeroEntry(m: seq<byte>, o: nat)
    requires o + ENTRY <= |m| && forall x :: o <= x < o + ENTRY ==> m[x] == 0
    ensures EntryAt(m, o) == EMPTY
  {
    LeZero(m, o + 2, 2);
    LeZero(m, o + 6, 2);
    LeZero(m, o + 8, 4);
    LeZero(m, o + 12, 4);
  }

  lemma SlotFrame(m: seq<byte>, m': seq<byte>, i: nat)
    requires |m| == |m'| == MBR_SIZE && i < 4 && Table(m)[i] == Table(m')[i]
    ensures SameInside(m, m', 446 + 16 * i, 446 + 16 * i + 16)
  {
    assert Table(m)[i] == EntryAt(m, 446 + 16 * i) && Table(m')[i] == EntryAt(m', 446 + 16 * i);
    EntryInjective(m, m', 446 + 16 * i);
  }

  lemma OtherSlots(m: seq<byte>, m': seq<byte>, k: nat)
    requires |m| == |m'| == MBR_SIZE && k < 4 && SameOutside(m, m', TABLE, TABLE + 4 * ENTRY)
    requires forall j :: 0 <= j < 4 && j != k ==> Table(m)[j] == Table(m')[j]
    ensures SameOutside(m, m', 446 + 16 * k, 446 + 16 * k + 16)
  {
    forall x | 0 <= x < 512 && !(446 + 16 * k <= x < 446 + 16 * k + 16) ensures m[x] == m'[x] {
      if TABLE <= x < TABLE + 4 * ENTRY {
        SlotFrame(m, m', (x - 446) / 16);
      }
    }
  }

  /** What a create stores, byte by byte: status 0, the type, the first sector at +8 and the number of sectors at +12,
      in the first slot whose type byte was 0. */
  lemma CreatedBytes(m: seq<byte>, m': seq<byte>, kind: byte, lba: uint32, count: uint32, k: nat)
    requires Stepped(m, m', Create(kind, lba, count)) && FirstSlot(m, k)
    ensures |m| == |m'| == 512 && (k == 4 ==> m' == m)
    ensures k < 4 ==>
              var o := 446 + 16 * k;
              && m'[o] == 0 && m'[o + 4] == kind && Le(m', o + 8, 4) == lba && Le(m', o + 12, 4) == count
              && forall x :: 0 <= x < 512 && x != o && x != o + 4 && !(o + 8 <= x < o + 16) ==> m'[x] == m[x]
  {
    FirstSlotIs(m, k);
    if k == 4 {
      TableInjective(m, m');
    } else {
      var o := 446 + 16 * k;
      OtherSlots(m, m', k);
      assert Table(m)[k] == EntryAt(m, o) && Table(m')[k] == EntryAt(m', o);
      LeInjective(m, m', o + 2, 2);
      LeInjective(m, m', o + 6, 2);
    }
  }

  /** What a delete stores: sixteen zero bytes over a slot whose type byte was not 0, and nothing else. */
  lemma DeletedBytes(m: seq<byte>, m': seq<byte>, i: nat)
    requires Stepped(m, m', Delete(i)) && i < 4
    ensures |m| == |m'| == 512
    ensures m[446 + 16 * i + 4] == 0 ==> m' == m
    ensures m[446 + 16 * i + 4] != 0 ==>
              forall x :: 0 <= x < 512 ==> m'[x] == if 446 + 16 * i <= x < 446 + 16 * i + 16 then 0 else m[x]
  {
    var o := 446 + 16 * i;
    assert Table(m)[i] == EntryAt(m, o) && Table(m')[i] == EntryAt(m', o);
    if m[o + 4] == 0 {
      TableInjective(m, m');
    } else {
      OtherSlots(m, m', i);
      var z := seq(512, _ => 0);
      ZeroEntry(z, o);
      EntryInjective(m', z, o);
    }
  }

  // ----- whole runs -----

  function ApplyAll(t: seq<Entry>, ops: seq<Op>): (u: seq<Entry>)
    requires |t| == 4
    ensures |u| == 4
  {
    if ops == [] then t else Apply(ApplyAll(t, ops[..|ops| - 1]), ops[|ops| - 1])
  }

  /** Over any sequence of creates and deletes the sector decodes to the abstract table,
      and bytes 0 to 445 and 510 to 511 are those of the first sector. */
  lemma {:induction false} TableRun(ms: seq<seq<byte>>, ops: seq<Op>)
    requires |ms| == |ops| + 1 && |ms[0]| == MBR_SIZE
    requires forall i :: 0 <= i < |ops| ==> Stepped(ms[i], ms[i + 1], ops[i])
    ensures var last := ms[|ops|];
            |last| == MBR_SIZE && Table(last) == ApplyAll(Table(ms[0]), ops)
            && SameOutside(ms[0], last, TABLE, TABLE + 4 * ENTRY)
  {
    if ops != [] {
      var n := |ops| - 1;
      TableRun(ms[..n + 1], ops[..n]);
      assert Stepped(ms[n], ms[n + 1], ops[n]);
    }
  }

  /** A create and then a delete of its slot give back the very sector exactly when the slot was all zero. */
  lemma CreateThenDelete(m: seq<byte>, m1: seq<byte>, m2: seq<byte>, kind: byte, lba: uint32, count: uint32)
    requires |m| == MBR_SIZE && kind != 0 && FirstFree(Table(m)) < 4
    requires Stepped(m, m1, Create(kind, lba, count))
    requires Stepped(m1, m2, Delete(FirstFree(Table(m))))
    ensures m2 == m <==> Table(m)[FirstFree(Table(m))] == EMPTY
  {
    var t, k := Table(m), FirstFree(Table(m));
    assert Table(m2) == t[k := EMPTY];
    if t[k] == EMPTY {
      assert Table(m2) == Table(m);
      TableInjective(m, m2);
    }
  }

  // ----- the code -----

  /** The four field assignments of create_ext4_partition and create_fat32_partition. */
  method FillEntry(mbr: array<byte>, i: nat, kind: byte, startLba: uint32, sectorCount: uint32)
    requires mbr.Length == MBR_SIZE && i < 4
    modifies mbr
    ensures Table(mbr[..])
         == old(Table(mbr[..]))[i := old(Table(mbr[..]))[i]
              .(status := 0, kind := kind, lbaFirst := startLba, sectorCount := sectorCount)]
    ensures SameOutside(old(mbr[..]), mbr[..], TABLE, TABLE + 4 * ENTRY)
  {
    var o := TABLE + ENTRY * i;
    ghost var m := mbr[..];
    WordSizes();
    mbr[o] := 0x00;
    mbr[o + 4] := kind;
    Store(mbr, o + 8, startLba, 4);
    ghost var m1 := mbr[..];
    Store(mbr, o + 12, sectorCount, 4);
    LeSame(m1, mbr[..], o + 8, 4);
    LeSame(m, mbr[..], o + 2, 2);
    LeSame(m, mbr[..], o + 6, 2);
    TableStep(m, mbr[..], i);
    assert Table(m)[i] == EntryAt(m, o);
  }

  /** The search for the first empty slot, and its filling; slot 4 means that the table is full. */
  method CreateEntry(mbr: array<byte>, kind: byte, startLba: uint32, sectorCount: uint32) returns (slot: nat)
    requires mbr.Length == MBR_SIZE
    modifies mbr
    ensures slot == FirstFree(old(Table(mbr[..])))
    ensures Stepped(old(mbr[..]), mbr[..], Create(kind, startLba, sectorCount))
    ensures slot == 4 ==> mbr[..] == old(mbr[..])
    ensures FirstSlot(old(mbr[..]), slot)
    ensures slot < 4 ==>
              var o := 446 + 16 * slot;
              && mbr[o] == 0 && mbr[o + 4] == kind
              && Le(mbr[..], o + 8, 4) == startLba && Le(mbr[..], o + 12, 4) == sectorCount
              && forall x :: 0 <= x < 512 && x != o && x != o + 4 && !(o + 8 <= x < o + 16) ==> mbr[x] == old(mbr[..])[x]
  {
    ghost var was := mbr[..];
    var i := 0;
    while i < 4
      invariant i <= 4 && mbr[..] == old(mbr[..])
      invariant forall j :: 0 <= j < i ==> Table(mbr[..])[j].kind != 0
    {
      assert Table(mbr[..])[i].kind == mbr[..][TABLE + ENTRY * i + 4];
      if mbr[TABLE + ENTRY * i + 4] == 0x00 {
        FillEntry(mbr, i, kind, startLba, sectorCount);
        FirstSlotIs(was, i);
        CreatedBytes(was, mbr[..], kind, startLba, sectorCount, i);
        return i;
      }
      i := i + 1;
    }
    FirstSlotIs(was, 4);
    return 4;
  }

  /** The deletion of delete_partition: nothing when the slot is empty, sixteen zero bytes otherwise. */
  method DeleteEntry(mbr: array<byte>, index: nat) returns (found: bool)
    requires mbr.Length == MBR_SIZE && index < 4
    modifies mbr
    ensures found <==> old(Table(mbr[..]))[index].kind != 0
    ensures Stepped(old(mbr[..]), mbr[..], Delete(index))
    ensures !found ==> mbr[..] == old(mbr[..])
    ensures found <==> old(mbr[..])[446 + 16 * index + 4] != 0
    ensures found ==> forall x :: 0 <= x < 512 ==>
              mbr[x] == if 446 + 16 * index <= x < 446 + 16 * index + 16 then 0 else old(mbr[..])[x]
  {
    var o := TABLE + ENTRY * index;
    assert Table(mbr[..])[index].kind == mbr[..][o + 4];
    if mbr[o + 4] == 0x00 {
      return false;
    }
    ghost var m := mbr[..];
    var i := 0;
    while i < ENTRY
      invariant i <= ENTRY
      invariant forall x :: o <= x < o + i ==> mbr[x] == 0
      invariant SameOutside(m, mbr[..], o, o + i)
    {
      mbr[o + i] := 0;
      i := i + 1;
    }
    ZeroEntry(mbr[..], o);
    TableStep(m, mbr[..], index);
    return true;
  }
}
