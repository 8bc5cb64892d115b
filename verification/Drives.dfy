// partition.c: the formatters and partition creators, as sequences of sector writes to a drive.
module Drives {
  import opened Bytes
  import opened Layouts
  import opened Mbr

  type Sector = s: seq<byte> | |s| == MBR_SIZE witness seq(MBR_SIZE, _ => 0)

  /** The part of a sector number that the four address registers of a 28-bit command carry. */
  function Lba28(lba: uint32): uint32 { lba % 0x1000_0000 }

  /** Every sector that no write of the plan is addressed to is the same in `f` and `g`. */
  ghost predicate Spared(f: uint32 -> Sector, g: uint32 -> Sector, plan: seq<uint32>) {
    forall x: uint32 :: (forall i :: 0 <= i < |plan| ==> Lba28(plan[i]) != x) ==> f(x) == g(x)
  }

  /** `log` is `before` followed by the first few writes of `plan`. */
  ghost predicate Follows(before: seq<uint32>, log: seq<uint32>, plan: seq<uint32>) {
    before <= log && log[|before|..] <= plan
  }

  /** An ATA drive: its sectors, the write commands sent to it so far, and how many operations it failed. */
  class Drive {
    const reported: uint32               // identify words 60 and 61
    var sectors: uint32 -> Sector
    var log: seq<uint32>
    var failures: nat
    var lastOk: bool                     // how the last operation ended

    /** At most one operation has failed since there were `n` failures, and none was sent after it. */
    ghost predicate StoppedSince(n: nat)
      reads this
    {
      failures == n || (failures == n + 1 && !lastOk)
    }

    constructor (reported: uint32, sectors: uint32 -> Sector)
      ensures this.reported == reported && this.sectors == sectors && log == [] && failures == 0
    {
      this.reported, this.sectors, log, failures, lastOk := reported, sectors, [], 0, true;
    }

    /** ata_read_sector_disk: it may fail at any time. */
    method Read(lba: uint32, buf: array<byte>) returns (ok: bool)
      requires buf.Length == MBR_SIZE
      modifies buf, this`failures, this`lastOk
      ensures ok ==> buf[..] == sectors(Lba28(lba))
      ensures failures == old(failures) + (if ok then 0 else 1) && lastOk == ok
    {
      ok := *;
      lastOk := ok;
      if ok {
        var s := sectors(Lba28(lba));
        forall i | 0 <= i < MBR_SIZE { buf[i] := s[i]; }
        assert buf[..] == s;
      } else {
        failures := failures + 1;
      }
    }

    /** ata_write_sector_disk: it may fail before or after the data went over. */
    method Write(lba: uint32, data: Sector) returns (ok: bool)
      modifies this
      ensures log == old(log) + [lba]
      ensures forall x: uint32 :: x != Lba28(lba) ==> sectors(x) == old(sectors)(x)
      ensures sectors(Lba28(lba)) == data || (!ok && sectors(Lba28(lba)) == old(sectors)(Lba28(lba)))
      ensures failures == old(failures) + (if ok then 0 else 1) && lastOk == ok
    {
      log := log + [lba];
      ok := *;
      var went: bool := *;
      lastOk := ok;
      if ok || went {
        var was, at := sectors, Lba28(lba);
        sectors := x => if x == at then data else was(x);
      }
      if !ok {
        failures := failures + 1;
      }
    }
  }

  lemma WriteFollows(before: seq<uint32>, log: seq<uint32>, plan: seq<uint32>,
                     f: uint32 -> Sector, g: uint32 -> Sector, h: uint32 -> Sector, lba: uint32)
    requires Follows(before, log, plan) && |log| - |before| < |plan| && plan[|log| - |before|] == lba
    requires Spared(f, g, plan)
    requires forall x: uint32 :: x != Lba28(lba) ==> h(x) == g(x)
    ensures Follows(before, log + [lba], plan) && Spared(f, h, plan)
  {
    assert (log + [lba])[|before|..] == log[|before|..] + [lba];
    assert Lba28(plan[|log| - |before|]) == Lba28(lba);
  }

  /** One planned write. */
  method WriteNext(drive: Drive, lba: uint32, data: Sector,
                   ghost before: seq<uint32>, ghost f: uint32 -> Sector, ghost plan: seq<uint32>)
    returns (ok: bool)
    requires Follows(before, drive.log, plan) && |drive.log| - |before| < |plan|
    requires plan[|drive.log| - |before|] == lba
    requires Spared(f, drive.sectors, plan)
    modifies drive
    ensures drive.log == old(drive.log) + [lba]
    ensures Follows(before, drive.log, plan) && Spared(f, drive.sectors, plan)
    ensures forall x: uint32 :: x != Lba28(lba) ==> drive.sectors(x) == old(drive.sectors)(x)
    ensures ok ==> drive.sectors(Lba28(lba)) == data
    ensures drive.failures == old(drive.failures) + (if ok then 0 else 1) && drive.lastOk == ok
  {
    ghost var log, g := drive.log, drive.sectors;
    ok := drive.Write(lba, data);
    WriteFollows(before, log, plan, f, g, drive.sectors, lba);
  }

  const FORMATTED := 0
  const FAILED := -1

  function Zeros(n: nat): seq<byte> { seq(n, _ => 0) }

  /** The first four blocks of a group are in use. */
  const BLOCK_BITMAP: Sector := [0x0F] + Zeros(MBR_SIZE - 1)
  const INODE_BITMAP: Sector := Zeros(MBR_SIZE)

  /** The head of a file allocation table: the media type, and the end of two chains. */
  const FAT_HEAD: Sector :=
    [0xF8, 0xFF, 0xFF, 0x0F, 0xFF, 0xFF, 0xFF, 0x0F, 0xFF, 0xFF, 0xFF, 0x0F] + Zeros(MBR_SIZE - 12)

  /** The bitmaps of the first `count` groups are on the drive. */
  ghost predicate HasBitmaps(f: uint32 -> Sector, start: uint32, count: nat) {
    forall g :: 0 <= g < count ==>
      f(Lba28(Bitmap(start, g))) == BLOCK_BITMAP && f(Lba28(U(Bitmap(start, g) + 1))) == INODE_BITMAP
  }

  /** Both file allocation tables begin with their head. */
  ghost predicate HasHeads(f: uint32 -> Sector, start: uint32, total: uint32) {
    f(Lba28(FatPlan(start, total)[1])) == f(Lba28(FatPlan(start, total)[2])) == FAT_HEAD
  }

  /** The images, number by number. */
  lemma Images()
    ensures BLOCK_BITMAP[0] == 0x0F && forall i :: 1 <= i < 512 ==> BLOCK_BITMAP[i] == 0
    ensures forall i :: 0 <= i < 512 ==> INODE_BITMAP[i] == 0
    ensures Le(FAT_HEAD, 0, 4) == 0x0FFF_FFF8 && Le(FAT_HEAD, 4, 4) == 0x0FFF_FFFF && Le(FAT_HEAD, 8, 4) == 0x0FFF_FFFF
    ensures forall i :: 12 <= i < 512 ==> FAT_HEAD[i] == 0
  {
    LeWord(FAT_HEAD, 0);
    LeWord(FAT_HEAD, 2);
    LeWord(FAT_HEAD, 4);
    LeWord(FAT_HEAD, 6);
    LeWord(FAT_HEAD, 8);
    LeWord(FAT_HEAD, 10);
  }

  lemma WrapTwice(x: nat, y: nat)
    ensures U(U(x) + y) == U(x + y)
  {
  }

  lemma WrapLands(x: nat)
    ensures Lba28(U(x)) == x % 0x1000_0000
  {
  }

  /** Where the writes of a group land on the drive, whatever wraps. */
  lemma Landings(start: uint32, group: nat)
    requires group < 16384
    ensures Lba28(Descriptor(start, group)) == (start + 3 + group) % 0x1000_0000
    ensures Lba28(Bitmap(start, group)) == (start + group % 32 * 262144) % 0x1000_0000
    ensures Lba28(U(Bitmap(start, group) + 1)) == (start + group % 32 * 262144 + 1) % 0x1000_0000
  {
    hide GroupFirst, U, Lba28;
    BitmapOffset(group);
    WrapTwice(start + 2, 1);
    WrapTwice(start + 3, group);
    WrapTwice(start + group % 32 * 262144, 1);
    WrapLands(start + 3 + group);
    WrapLands(start + group % 32 * 262144);
    WrapLands(start + group % 32 * 262144 + 1);
  }

  /** Landings less than 2^28 apart are the same only for the same offset. */
  lemma SameLanding(start: nat, a: nat, b: nat)
    requires a < 0x1000_0000 && b < 0x1000_0000
    ensures (start + a) % 0x1000_0000 == (start + b) % 0x1000_0000 <==> a == b
  {
  }

  lemma Apart(start: uint32, g: nat, h: nat)
    requires g < 16384 && h < 16384
    ensures Lba28(Descriptor(start, g)) != Lba28(Bitmap(start, h))
    ensures Lba28(Descriptor(start, g)) != Lba28(U(Bitmap(start, h) + 1))
    ensures Lba28(Bitmap(start, g)) != Lba28(U(Bitmap(start, h) + 1))
  {
    hide Descriptor, Bitmap, Lba28;
    Landings(start, g);
    Landings(start, h);
    SameLanding(start, 3 + g, h % 32 * 262144);
    SameLanding(start, 3 + g, h % 32 * 262144 + 1);
    SameLanding(start, g % 32 * 262144, h % 32 * 262144 + 1);
  }

  /** A group's writes leave the bitmaps of the groups before it as they are, even where they share sectors. */
  lemma BitmapsGrow(f: uint32 -> Sector, g: uint32 -> Sector, start: uint32, group: nat)
    requires group < 16384 && HasBitmaps(f, start, group)
    requires forall x: uint32 ::
      (x != Lba28(Descriptor(start, group)) && x != Lba28(Bitmap(start, group)) && x != Lba28(U(Bitmap(start, group) + 1)))
      ==> g(x) == f(x)
    requires g(Lba28(Bitmap(start, group))) == BLOCK_BITMAP && g(Lba28(U(Bitmap(start, group) + 1))) == INODE_BITMAP
    ensures HasBitmaps(g, start, group + 1)
  {
    hide Descriptor, Bitmap, Lba28, U;
    forall h | 0 <= h < group
      ensures g(Lba28(Bitmap(start, h))) == BLOCK_BITMAP && g(Lba28(U(Bitmap(start, h) + 1))) == INODE_BITMAP
    {
      Apart(start, group, h);
      Apart(start, h, group);
    }
  }

  lemma Ext4PlanAt(start: uint32, total: uint32, group: nat)
    requires 8192 <= total && group < Groups(total)
    ensures var p := Ext4Plan(start, total);
            && |p| == 1 + 3 * Groups(total) && p[0] == Superblock(start)
            && p[1 + 3 * group] == Descriptor(start, group)
            && p[2 + 3 * group] == Bitmap(start, group)
            && p[3 + 3 * group] == U(Bitmap(start, group) + 1)
  {
    hide Superblock, Descriptor, Bitmap, U;
    GroupsInRange(total);
  }

  lemma SparedSelf(f: uint32 -> Sector, plan: seq<uint32>)
    ensures Spared(f, f, plan)
  {
  }

  lemma NoBitmaps(f: uint32 -> Sector, start: uint32)
    ensures HasBitmaps(f, start, 0)
  {
  }

  /** The body of format_ext4's loop over the block groups. */
  method FormatGroup(drive: Drive, start: uint32, total: uint32, group: nat,
                     ghost before: seq<uint32>, ghost f: uint32 -> Sector)
    returns (ok: bool)
    requires 8192 <= total && group < Groups(total)
    requires Follows(before, drive.log, Ext4Plan(start, total)) && |drive.log| == |before| + 1 + 3 * group
    requires Spared(f, drive.sectors, Ext4Plan(start, total))
    requires HasBitmaps(drive.sectors, start, group)
    modifies drive
    ensures ok ==> HasBitmaps(drive.sectors, start, group + 1)
    ensures Follows(before, drive.log, Ext4Plan(start, total))
    ensures Spared(f, drive.sectors, Ext4Plan(start, total))
    ensures ok ==> |drive.log| == |before| + 1 + 3 * (group + 1)
    ensures drive.failures == old(drive.failures) + (if ok then 0 else 1) && drive.lastOk == ok
  {
    hide Ext4Plan, Groups, Descriptor, Bitmap, Spared, HasBitmaps, Lba28, U;
    ghost var plan, was := Ext4Plan(start, total), drive.sectors;
    GroupsInRange(total);
    Apart(start, group, group);
    Ext4PlanAt(start, total, group);
    var descriptor: Sector := *;   // the group descriptor's fields are not part of this model
    ok := WriteNext(drive, Descriptor(start, group), descriptor, before, f, plan);
    if !ok { return; }
    ok := WriteNext(drive, Bitmap(start, group), BLOCK_BITMAP, before, f, plan);
    if !ok { return; }
    ok := WriteNext(drive, U(Bitmap(start, group) + 1), INODE_BITMAP, before, f, plan);
    if ok {
      BitmapsGrow(was, drive.sectors, start, group);
    }
  }

  /** format_ext4: refuse small partitions, then the superblock and three sectors a group; any failure stops it.
      `granted` says whether allocate has the buffer it asks for. */
  method FormatExt4(drive: Drive, start: uint32, total: uint32, granted: bool) returns (ret: int)
    modifies drive
    ensures ret == FORMATTED <==> 8192 <= total && granted && drive.failures == old(drive.failures)
    ensures drive.StoppedSince(old(drive.failures))
    ensures !granted ==> drive.log == old(drive.log) && drive.sectors == old(drive.sectors)
    ensures total < 8192 ==> ret == FAILED && drive.log == old(drive.log) && drive.sectors == old(drive.sectors)
    ensures Follows(old(drive.log), drive.log, Ext4Plan(start, total))
    ensures Spared(old(drive.sectors), drive.sectors, Ext4Plan(start, total))
    ensures ret == FORMATTED ==> 8192 <= total && drive.log == old(drive.log) + Ext4Plan(start, total)
                                 && HasBitmaps(drive.sectors, start, Groups(total))
  {
    hide Ext4Plan, Groups, GroupFirst, Superblock, Descriptor, Bitmap, Spared, HasBitmaps;
    ghost var before, f, plan := drive.log, drive.sectors, Ext4Plan(start, total);
    SparedSelf(f, plan);
    if total < 8192 {
      return FAILED;
    }
    GroupsInRange(total);
    Ext4PlanAt(start, total, 0);
    if !granted {
      return FAILED;
    }
    var buffer := new byte[MBR_SIZE];
    var sbSector := Superblock(start);
    var ok := drive.Read(sbSector, buffer);
    if !ok {
      return FAILED;
    }
    var groups := Groups(total);
    if groups == 0 || groups > 65536 {
      return FAILED;
    }
    var image: Sector := *;   // whatever init_superblock left in the buffer
    ok := WriteNext(drive, sbSector, image, before, f, plan);
    if !ok {
      return FAILED;
    }
    var group := 0;
    NoBitmaps(drive.sectors, start);
    while group < groups
      invariant group <= groups == Groups(total)
      invariant Follows(before, drive.log, plan) && |drive.log| == |before| + 1 + 3 * group
      invariant Spared(f, drive.sectors, plan) && HasBitmaps(drive.sectors, start, group)
      invariant drive.failures == old(drive.failures)
    {
      ok := FormatGroup(drive, start, total, group, before, f);
      if !ok {
        return FAILED;
      }
      group := group + 1;
    }
    assert drive.log == before + drive.log[|before|..] == before + plan;
    return FORMATTED;
  }

  /** format_fat32: the boot sector and the first sector of each table. */
  method FormatFat32(drive: Drive, start: uint32, total: uint32) returns (ret: int)
    modifies drive
    ensures ret == FORMATTED <==> drive.failures == old(drive.failures)
    ensures drive.StoppedSince(old(drive.failures))
    ensures Follows(old(drive.log), drive.log, FatPlan(start, total))
    ensures Spared(old(drive.sectors), drive.sectors, FatPlan(start, total))
    ensures ret == FORMATTED ==> drive.log == old(drive.log) + FatPlan(start, total)
    ensures ret == FORMATTED ==> HasHeads(drive.sectors, start, total)
  {
    hide Spared;
    ghost var before, f, plan := drive.log, drive.sectors, FatPlan(start, total);
    SparedSelf(f, plan);
    var boot: Sector := *;   // the boot sector's fields are not part of this model
    var ok := WriteNext(drive, start, boot, before, f, plan);
    if !ok {
      return FAILED;
    }
    var fat := FAT_HEAD;
    var fat1 := U(start + RESERVED_SECTORS);
    var fat2 := U(fat1 + SectorsPerFat(total));
    ok := WriteNext(drive, fat1, fat, before, f, plan);
    if ok {
      ok := WriteNext(drive, fat2, fat, before, f, plan);
    }
    if !ok {
      return FAILED;
    }
    return FORMATTED;
  }

  const EXT4_PARTITION_TYPE: byte := 0x83
  const FAT32_PARTITION_TYPE: byte := 0x0C

  /** No write of the plan is addressed to sector 0. */
  ghost predicate SparesMbr(plan: seq<uint32>) {
    forall i :: 0 <= i < |plan| ==> Lba28(plan[i]) != 0
  }

  /** What a creator may have done to the drive: nothing, or sector 0 and then part of the format. */
  ghost predicate Created(before: seq<uint32>, f: uint32 -> Sector, drive: Drive, op: Op, plan: seq<uint32>)
    reads drive
  {
    && Follows(before, drive.log, [0] + plan)
    && Spared(f, drive.sectors, [0] + plan)
    && (FirstFree(Table(f(0))) == 4 ==> drive.log == before && drive.sectors(0) == f(0))
    && (SparesMbr(plan) ==> drive.sectors(0) == f(0) || Stepped(f(0), drive.sectors(0), op))
  }

  /** What a creator has done when there was a free slot and no operation failed: the entry and all of the plan. */
  ghost predicate Completed(before: seq<uint32>, f: uint32 -> Sector, drive: Drive, op: Op, plan: seq<uint32>)
    reads drive
  {
    drive.log == before + [0] + plan && (SparesMbr(plan) ==> Stepped(f(0), drive.sectors(0), op))
  }

  /** Reading the table, filling the first free slot and writing it back. */
  method AddEntry(drive: Drive, kind: byte, start: uint32, count: uint32) returns (added: bool)
    modifies drive
    ensures added <==> FirstFree(Table(old(drive.sectors)(0))) < 4 && drive.failures == old(drive.failures)
    ensures drive.StoppedSince(old(drive.failures))
    ensures forall x: uint32 :: x != 0 ==> drive.sectors(x) == old(drive.sectors)(x)
    ensures added ==> drive.log == old(drive.log) + [0]
                      && Stepped(old(drive.sectors)(0), drive.sectors(0), Create(kind, start, count))
    ensures !added ==> drive.log == old(drive.log) || drive.log == old(drive.log) + [0]
    ensures drive.sectors(0) == old(drive.sectors)(0)
         || Stepped(old(drive.sectors)(0), drive.sectors(0), Create(kind, start, count))
    ensures FirstFree(Table(old(drive.sectors)(0))) == 4
        ==> !added && drive.log == old(drive.log) && drive.sectors(0) == old(drive.sectors)(0)
  {
    var mbr := new byte[MBR_SIZE];
    var ok := drive.Read(0, mbr);
    if !ok {
      return false;
    }
    ghost var was := mbr[..];
    var slot := CreateEntry(mbr, kind, start, count);
    if slot == 4 {
      return false;
    }
    var data: Sector := mbr[..];
    ok := drive.Write(0, data);
    return ok;
  }

  lemma FormattedAfter(before: seq<uint32>, f: uint32 -> Sector, g: uint32 -> Sector,
                       drive: Drive, op: Op, plan: seq<uint32>)
    requires forall x: uint32 :: x != 0 ==> g(x) == f(x)
    requires Stepped(f(0), g(0), op) && FirstFree(Table(f(0))) < 4
    requires Follows(before + [0], drive.log, plan) && Spared(g, drive.sectors, plan)
    ensures Created(before, f, drive, op, plan)
  {
    assert drive.log[|before|..] == [0] + drive.log[|before + [0]|..];
    assert SparesMbr(plan) ==> drive.sectors(0) == g(0);
    forall x: uint32 | forall i :: 0 <= i < |[0] + plan| ==> Lba28(([0] + plan)[i]) != x
      ensures f(x) == drive.sectors(x)
    {
      assert Lba28(([0] + plan)[0]) != x;
      assert forall i :: 0 <= i < |plan| ==> plan[i] == ([0] + plan)[i + 1];
      assert g(x) == drive.sectors(x);
    }
  }

  lemma PlanCompleted(before: seq<uint32>, f: uint32 -> Sector, g: uint32 -> Sector,
                     drive: Drive, op: Op, plan: seq<uint32>)
    requires Stepped(f(0), g(0), op)
    requires drive.log == before + [0] + plan && Spared(g, drive.sectors, plan)
    ensures Completed(before, f, drive, op, plan)
  {
    assert SparesMbr(plan) ==> drive.sectors(0) == g(0);
  }

  lemma NotFormatted(before: seq<uint32>, f: uint32 -> Sector, drive: Drive, op: Op, plan: seq<uint32>)
    requires forall x: uint32 :: x != 0 ==> drive.sectors(x) == f(x)
    requires drive.log == before || drive.log == before + [0]
    requires drive.sectors(0) == f(0) || Stepped(f(0), drive.sectors(0), op)
    requires FirstFree(Table(f(0))) == 4 ==> drive.log == before && drive.sectors(0) == f(0)
    ensures Created(before, f, drive, op, plan)
  {
    forall x: uint32 | forall i :: 0 <= i < |[0] + plan| ==> Lba28(([0] + plan)[i]) != x
      ensures f(x) == drive.sectors(x)
    {
      assert Lba28(([0] + plan)[0]) != x;
    }
  }

  lemma NoPlan(start: uint32, count: uint32)
    requires count < 8192
    ensures Ext4Plan(start, count) == []
  {
  }

  /** create_ext4_partition. */
  method CreateExt4Partition(drive: Drive, start: uint32, count: uint32, granted: bool)
    modifies drive
    ensures Created(old(drive.log), old(drive.sectors), drive, Create(0x83, start, count), Ext4Plan(start, count))
    ensures drive.StoppedSince(old(drive.failures))
    ensures FirstFree(Table(old(drive.sectors)(0))) < 4 && drive.failures == old(drive.failures) ==>
              && Completed(old(drive.log), old(drive.sectors), drive, Create(0x83, start, count),
                           if granted then Ext4Plan(start, count) else [])
              && (granted && 8192 <= count ==> HasBitmaps(drive.sectors, start, Groups(count)))
  {
    hide Spared, Ext4Plan, Created, Completed, HasBitmaps, Groups, Table, FirstFree, Stepped;
    ghost var before, f, op := drive.log, drive.sectors, Create(EXT4_PARTITION_TYPE, start, count);
    var added := AddEntry(drive, EXT4_PARTITION_TYPE, start, count);
    if !added {
      NotFormatted(before, f, drive, op, Ext4Plan(start, count));
      return;
    }
    ghost var g := drive.sectors;
    var ret := FormatExt4(drive, start, count, granted);
    FormattedAfter(before, f, g, drive, op, Ext4Plan(start, count));
    if ret == FORMATTED {
      PlanCompleted(before, f, g, drive, op, Ext4Plan(start, count));
    } else if !granted {
      SparedSelf(g, []);
      PlanCompleted(before, f, g, drive, op, []);
    } else if count < 8192 {
      NoPlan(start, count);
      PlanCompleted(before, f, g, drive, op, Ext4Plan(start, count));
    }
  }

  /** create_fat32_partition. */
  method CreateFat32Partition(drive: Drive, start: uint32, count: uint32)
    modifies drive
    ensures Created(old(drive.log), old(drive.sectors), drive, Create(0x0C, start, count), FatPlan(start, count))
    ensures drive.StoppedSince(old(drive.failures))
    ensures FirstFree(Table(old(drive.sectors)(0))) < 4 && drive.failures == old(drive.failures) ==>
              && Completed(old(drive.log), old(drive.sectors), drive, Create(0x0C, start, count), FatPlan(start, count))
              && HasHeads(drive.sectors, start, count)
  {
    hide Spared, FatPlan, Created, Completed, HasHeads, Table, FirstFree, Stepped;
    ghost var before, f, op := drive.log, drive.sectors, Create(FAT32_PARTITION_TYPE, start, count);
    var added := AddEntry(drive, FAT32_PARTITION_TYPE, start, count);
    if !added {
      NotFormatted(before, f, drive, op, FatPlan(start, count));
      return;
    }
    ghost var g := drive.sectors;
    var ret := FormatFat32(drive, start, count);
    FormattedAfter(before, f, g, drive, op, FatPlan(start, count));
    if ret == FORMATTED {
      PlanCompleted(before, f, g, drive, op, FatPlan(start, count));
    }
  }
}
