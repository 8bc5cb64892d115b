// disktool.c: the disks found at scan time and the operations on the selected one.
module DiskTool {
  import opened Bytes
  import opened Layouts
  import opened Mbr
  import opened Drives
  import opened Commands

  /** A DiskInfo; the controller and drive numbers are the drive they select. */
  datatype DiskInfo = DiskInfo(drive: Drive, sizeMb: nat)

  /** Every write sent since `before` went to sector 0 or into [2048, limit). */
  ghost predicate StaysIn(before: seq<uint32>, log: seq<uint32>, limit: nat) {
    before <= log && forall i :: |before| <= i < |log| ==> log[i] == 0 || 2048 <= log[i] < limit
  }

  function KindOf(fs: FileSystemType): byte { if fs == EXT4 then 0x83 else 0x0C }

  function PlanOf(fs: FileSystemType, start: uint32, count: uint32): seq<uint32> {
    if fs == EXT4 then Ext4Plan(start, count) else FatPlan(start, count)
  }

  /** What every creator keeps: only sector 0 and planned sectors change, and a full table means no write. */
  ghost predicate Framed(before: seq<uint32>, f: uint32 -> Sector, drive: Drive, plan: seq<uint32>)
    reads drive
  {
    && Spared(f, drive.sectors, [0] + plan)
    && (FirstFree(Table(f(0))) == 4 ==> drive.log == before && drive.sectors(0) == f(0))
  }

  lemma CreatedFramed(before: seq<uint32>, f: uint32 -> Sector, drive: Drive, op: Op, plan: seq<uint32>)
    requires Created(before, f, drive, op, plan)
    ensures Framed(before, f, drive, plan)
  {
  }

  /** What a command has done to the drive when a slot was free and no operation failed: the new entry
      from sector 2048 on, every planned sector in order, and the images behind it; ext4 stops after the entry when its buffer is refused. */
  ghost predicate Fulfilled(before: seq<uint32>, f: uint32 -> Sector, drive: Drive,
                            fs: FileSystemType, count: uint32, granted: bool)
    reads drive
  {
    && Stepped(f(0), drive.sectors(0), Create(if fs == EXT4 then 0x83 else 0x0C, 2048, count))
    && (fs == FAT32 ==> drive.log == before + [0] + FatPlan(2048, count) && HasHeads(drive.sectors, 2048, count))
    && (fs == EXT4 && granted ==> drive.log == before + [0] + Ext4Plan(2048, count))
    && (fs == EXT4 && granted && 8192 <= count ==> HasBitmaps(drive.sectors, 2048, Groups(count)))
    && (fs == EXT4 && !granted ==> drive.log == before + [0])
  }

  lemma PlanInside(fs: FileSystemType, total: uint32)
    requires (fs == EXT4 || total > RESERVED_SECTORS) && 2048 + total <= 0x1000_0000
    ensures Inside(PlanOf(fs, 2048, total), 2048, total)
  {
    if fs == EXT4 {
      Ext4Inside(2048, total);
    } else {
      FatInsideIff(2048, total);
    }
  }

  /** Falling short of that, on an accepted request, takes a full table or an operation that failed;
      after the first one that does, nothing more is sent. */
  ghost predicate Promised(before: seq<uint32>, f: uint32 -> Sector, failures: nat, drive: Drive,
                           fs: FileSystemType, count: uint32, granted: bool)
    reads drive
  {
    && drive.StoppedSince(failures)
    && (FirstFree(Table(f(0))) < 4 && drive.failures == failures ==> Fulfilled(before, f, drive, fs, count, granted))
  }

  lemma InsideSpares(plan: seq<uint32>, total: nat)
    requires Inside(plan, 2048, total) && 2048 + total <= 0x1000_0000
    ensures SparesMbr(plan)
  {
    assert forall i :: 0 <= i < |plan| ==> Lba28(plan[i]) == plan[i];
  }

  lemma PlansSpare(fs: FileSystemType, count: uint32)
    requires 2048 + count <= 0x1000_0000 && (fs == FAT32 ==> count == 0 || count > RESERVED_SECTORS)
    ensures SparesMbr(PlanOf(fs, 2048, count)) && SparesMbr([])
  {
    if fs == EXT4 || count > 0 {
      PlanInside(fs, count);
      InsideSpares(PlanOf(fs, 2048, count), count);
    } else {
      EmptyFatPlan();
    }
  }

  /** Writes that follow a plan of distinct sectors, none of them 0, are distinct. */
  lemma CreatedDistinct(before: seq<uint32>, f: uint32 -> Sector, drive: Drive, op: Op, plan: seq<uint32>, total: nat)
    requires Created(before, f, drive, op, plan) && Inside(plan, 2048, total) && Distinct(plan)
    ensures before <= drive.log && Distinct(drive.log[|before|..])
  {
    var all := [0] + plan;
    assert forall i :: 0 < i < |all| ==> all[i] == plan[i - 1];
    assert Distinct(all);
    assert forall i :: 0 <= i < |drive.log[|before|..]| ==> drive.log[|before|..][i] == all[i];
  }

  lemma PlanDistinct(fs: FileSystemType, total: uint32)
    requires 2084 <= total < 0x80_0000
    ensures Distinct(PlanOf(fs, 2048, total))
  {
    if fs == EXT4 {
      Ext4DistinctIff(2048, total);
    } else {
      FatAdequateIff(total);
      FatLayout(2048, total);
    }
  }

  lemma CreatedStays(before: seq<uint32>, f: uint32 -> Sector, drive: Drive, op: Op, plan: seq<uint32>, total: nat)
    requires Created(before, f, drive, op, plan) && Inside(plan, 2048, total) && 2048 + total <= 0x1000_0000
    ensures StaysIn(before, drive.log, 2048 + total)
    ensures drive.sectors(0) == f(0) || Stepped(f(0), drive.sectors(0), op)
  {
    assert forall i :: |before| <= i < |drive.log| ==> drive.log[i] == drive.log[|before|..][i - |before|];
    assert forall i :: 0 <= i < |plan| ==> Lba28(plan[i]) == plan[i];
  }

  /** The drives that answer, in scan order. */
  function Present(ports: seq<Drive?>): (ds: seq<Drive>)
    ensures |ds| <= |ports|
  {
    if ports == [] then []
    else
      var last := ports[|ports| - 1];
      if last == null then Present(ports[..|ports| - 1]) else Present(ports[..|ports| - 1]) + [last]
  }

  lemma {:induction false} PresentCount(ports: seq<Drive?>)
    ensures |Present(ports)| == |set j | 0 <= j < |ports| && ports[j] != null|
  {
    if ports != [] {
      var n := |ports| - 1;
      PresentCount(ports[..n]);
      var before := set j | 0 <= j < n && ports[..n][j] != null;
      assert (set j | 0 <= j < |ports| && ports[j] != null) == if ports[n] == null then before else before + {n};
    }
  }

  lemma {:induction false} PresentPrefix(ports: seq<Drive?>, i: nat)
    requires i < |ports| && ports[i] != null
    ensures |Present(ports[..i])| < |Present(ports)| && Present(ports)[|Present(ports[..i])|] == ports[i]
    decreases |ports|
  {
    var n := |ports| - 1;
    if i < n {
      PresentPrefix(ports[..n], i);
      assert ports[..n][..i] == ports[..i];
    }
  }

  /** Every position that answers is listed once, after exactly those before it that answer. */
  lemma PresentAt(ports: seq<Drive?>, i: nat)
    requires i < |ports| && ports[i] != null
    ensures var k := |set j | 0 <= j < i && ports[j] != null|;
            k < |Present(ports)| && Present(ports)[k] == ports[i]
    ensures |Present(ports)| == |set j | 0 <= j < |ports| && ports[j] != null|
  {
    PresentCount(ports);
    PresentPrefix(ports, i);
    PresentCount(ports[..i]);
    assert (set j | 0 <= j < i && ports[..i][j] != null) == set j | 0 <= j < i && ports[j] != null;
  }

  lemma PresentLength(ports: seq<Drive?>, k: nat)
    requires k <= |ports|
    ensures |Present(ports[..k])| <= k
  {
  }

  /** After format_disk: a small disk is untouched; otherwise every write is sector 0 or on the disk behind sector 2048,
      no sector is written twice, a full table means no write, every other sector is as it was,
      and sector 0 is as it was or has the one new entry. */
  ghost predicate FormattedWhole(before: seq<uint32>, f: uint32 -> Sector, drive: Drive, fs: FileSystemType)
    reads drive
  {
    if SizeMb(drive.reported) < 32 then drive.log == before && drive.sectors == f
    else
      && StaysIn(before, drive.log, drive.reported) && Distinct(drive.log[|before|..])
      && Framed(before, f, drive, PlanOf(fs, 2048, U(SizeMb(drive.reported) * 2048 - 2048)))
      && (drive.sectors(0) == f(0)
          || Stepped(f(0), drive.sectors(0), Create(KindOf(fs), 2048, U(SizeMb(drive.reported) * 2048 - 2048))))
  }

  lemma NothingFormatted(drive: Drive, fs: FileSystemType)
    requires SizeMb(drive.reported) < 32
    ensures FormattedWhole(drive.log, drive.sectors, drive, fs)
  {
  }

  lemma WholeDisk(reported: uint32)
    requires SizeMb(reported) >= 32
    ensures MbToSectors(SizeMb(reported)) == SizeMb(reported) * 2048 <= reported
    ensures var count := U(SizeMb(reported) * 2048 - 2048);
            RESERVED_SECTORS < 2084 <= count == SizeMb(reported) * 2048 - 2048 < 0x80_0000 && 2048 + count <= 0x1000_0000
  {
    SizeRoundTrip(reported);
  }

  lemma StaysWider(before: seq<uint32>, log: seq<uint32>, limit: nat, wider: nat)
    requires StaysIn(before, log, limit) && limit <= wider
    ensures StaysIn(before, log, wider)
  {
  }

  lemma AllFormatted(before: seq<uint32>, f: uint32 -> Sector, drive: Drive, fs: FileSystemType)
    requires SizeMb(drive.reported) >= 32
    requires var count := U(SizeMb(drive.reported) * 2048 - 2048);
             Created(before, f, drive, Create(KindOf(fs), 2048, count), PlanOf(fs, 2048, count))
    ensures FormattedWhole(before, f, drive, fs)
  {
    var count := U(SizeMb(drive.reported) * 2048 - 2048);
    WholeDisk(drive.reported);
    hide Created, StaysIn, Framed, Distinct, Ext4Plan, FatPlan, SizeMb;
    var op, plan := Create(KindOf(fs), 2048, count), PlanOf(fs, 2048, count);
    PlanInside(fs, count);
    PlanDistinct(fs, count);
    CreatedStays(before, f, drive, op, plan, count);
    StaysWider(before, drive.log, 2048 + count, drive.reported);
    CreatedDistinct(before, f, drive, op, plan, count);
    CreatedFramed(before, f, drive, op, plan);
  }

  /** After newpart: sector 0 is as it was or has the one new entry, and every other write is inside the new partition,
      except that a FAT32 partition of 0 MB has no inside;
      a full table means no write, and only sector 0 and planned sectors change. */
  ghost predicate PartitionMade(before: seq<uint32>, f: uint32 -> Sector, drive: Drive, fs: FileSystemType, mb: uint32)
    reads drive
  {
    && (fs == EXT4 || mb > 0 ==> StaysIn(before, drive.log, 2048 + U(mb * 2048)))
    && Framed(before, f, drive, PlanOf(fs, 2048, U(mb * 2048)))
    && (drive.sectors(0) == f(0) || Stepped(f(0), drive.sectors(0), Create(KindOf(fs), 2048, U(mb * 2048))))
  }

  lemma CreatedSpares(before: seq<uint32>, f: uint32 -> Sector, drive: Drive, op: Op, plan: seq<uint32>)
    requires Created(before, f, drive, op, plan) && SparesMbr(plan)
    ensures drive.sectors(0) == f(0) || Stepped(f(0), drive.sectors(0), op)
  {
  }

  lemma MadePartition(before: seq<uint32>, f: uint32 -> Sector, drive: Drive, fs: FileSystemType, mb: uint32)
    requires mb < 4096
    requires Created(before, f, drive, Create(KindOf(fs), 2048, mb * 2048), PlanOf(fs, 2048, mb * 2048))
    ensures PartitionMade(before, f, drive, fs, mb)
  {
    hide Created, Ext4Plan, FatPlan, StaysIn, Stepped, Framed;
    var count := mb * 2048;
    assert U(count) == count;
    var op, plan := Create(KindOf(fs), 2048, count), PlanOf(fs, 2048, count);
    CreatedFramed(before, f, drive, op, plan);
    if fs == EXT4 || mb > 0 {
      PlanInside(fs, count);
      CreatedStays(before, f, drive, op, plan, count);
    } else {
      PlansSpare(fs, count);
      CreatedSpares(before, f, drive, op, plan);
    }
  }

  /** What a creator completed is what the command promises. */
  lemma CompletedFulfils(before: seq<uint32>, f: uint32 -> Sector, drive: Drive,
                         fs: FileSystemType, count: uint32, granted: bool)
    requires 2048 + count <= 0x1000_0000 && (fs == FAT32 ==> count == 0 || count > RESERVED_SECTORS)
    requires Completed(before, f, drive, Create(KindOf(fs), 2048, count),
                       if fs == EXT4 && !granted then [] else PlanOf(fs, 2048, count))
    requires fs == FAT32 ==> HasHeads(drive.sectors, 2048, count)
    requires fs == EXT4 && granted && 8192 <= count ==> HasBitmaps(drive.sectors, 2048, Groups(count))
    ensures Fulfilled(before, f, drive, fs, count, granted)
  {
    hide Stepped, HasHeads, HasBitmaps, Ext4Plan, FatPlan, SparesMbr, Groups;
    PlansSpare(fs, count);
  }

  /** After delete_partition: only sector 0 can have changed, by the deletion; success means that it did. */
  ghost predicate EntryDeleted(before: seq<uint32>, f: uint32 -> Sector, drive: Drive, index: int, ret: int)
    reads drive
  {
    && (drive.log == before || drive.log == before + [0])
    && (forall x: uint32 :: x != 0 ==> drive.sectors(x) == f(x))
    && (drive.sectors(0) == f(0) || Stepped(f(0), drive.sectors(0), Delete(index)))
    && (ret == 0 ==> 0 <= index < 4 && drive.log == before + [0] && Table(f(0))[index].kind != 0 && Stepped(f(0), drive.sectors(0), Delete(index)))
    && (0 <= index < 4 && Table(f(0))[index].kind == 0 ==> ret == FAILED && drive.log == before)
  }

  class DiskTool {
    var available: seq<DiskInfo>    // available_disks: entries past num_disks keep their old contents
    var num: nat
    var current: int

    ghost predicate Valid()
      reads this
    {
      && num <= |available| <= 4
      && -1 <= current < |available|
      && forall i :: 0 <= i < |available| ==> available[i].sizeMb == SizeMb(available[i].drive.reported)
    }

    constructor ()
      ensures Valid() && num == 0 && current == -1
    {
      available, num, current := [], 0, -1;
    }

    /** init_disktool: ask the four positions in turn; null is a position whose status reads 0. */
    method Init(ports: seq<Drive?>)
      requires Valid() && |ports| == 4
      modifies this`available, this`num
      ensures Valid()
      ensures num == |Present(ports)| && |old(available)| <= |available|
      ensures forall i :: num <= i < |old(available)| ==> available[i] == old(available)[i]
      ensures forall i :: 0 <= i < num ==> available[i].drive == Present(ports)[i]
    {
      num := 0;
      var at := 0;
      PresentLength(ports, 0);
      while at < 4
        invariant at <= 4 && Valid() && num == |Present(ports[..at])| <= at
        invariant |old(available)| <= |available|
        invariant forall i :: num <= i < |old(available)| ==> available[i] == old(available)[i]
        invariant forall i :: 0 <= i < num ==> available[i].drive == Present(ports[..at])[i]
      {
        assert ports[..at + 1][..at] == ports[..at];
        var drive := ports[at];
        if drive != null {
          var totalSectors := drive.reported;
          var disk := DiskInfo(drive, U(totalSectors * SECTOR_SIZE) / (1024 * 1024));
          available := if num < |available| then available[num := disk] else available + [disk];
          num := num + 1;
        }
        at := at + 1;
      }
      assert ports[..4] == ports;
    }

    /** select_disk. */
    method Select(index: int) returns (ret: int)
      requires Valid()
      modifies this`current
      ensures Valid()
      ensures 0 <= index < num ==> ret == 0 && current == index
      ensures !(0 <= index < num) ==> ret == FAILED && current == old(current)
    {
      if index < 0 || index >= num {
        return FAILED;
      }
      current := index;
      return 0;
    }

    /** The selected drive's part of format_disk and create_partition_mb: the choice between the creators. */
    static method MakePartition(drive: Drive, fs: FileSystemType, count: uint32, granted: bool)
      requires 2048 + count <= 0x1000_0000 && (fs == FAT32 ==> count == 0 || count > RESERVED_SECTORS)
      modifies drive
      ensures Promised(old(drive.log), old(drive.sectors), old(drive.failures), drive, fs, count, granted)
      ensures Created(old(drive.log), old(drive.sectors), drive, Create(KindOf(fs), 2048, count), PlanOf(fs, 2048, count))
    {
      hide Created, Completed, Fulfilled, FirstFree, Table, HasHeads, HasBitmaps, Groups, Ext4Plan, FatPlan;
      ghost var before, f, failures := drive.log, drive.sectors, drive.failures;
      if fs == FAT32 {
        CreateFat32Partition(drive, 2048, count);
      } else {
        CreateExt4Partition(drive, 2048, count, granted);
      }
      if FirstFree(Table(f(0))) < 4 && drive.failures == failures {
        CompletedFulfils(before, f, drive, fs, count, granted);
      }
    }

    lemma SizeKnown(i: int)
      requires Valid() && 0 <= i < |available|
      ensures U(available[i].sizeMb) == SizeMb(available[i].drive.reported) == available[i].sizeMb
      ensures FAILED == -1
    {
      SizeRoundTrip(available[i].drive.reported);
    }

    /** The rest of format_disk, on a disk that is large enough. */
    static method MakeWhole(drive: Drive, fs: FileSystemType, totalSizeMb: uint32, granted: bool)
      requires totalSizeMb == SizeMb(drive.reported) >= 32
      modifies drive
      ensures FormattedWhole(old(drive.log), old(drive.sectors), drive, fs)
      ensures Promised(old(drive.log), old(drive.sectors), old(drive.failures), drive, fs,
                       U(totalSizeMb * 2048 - 2048), granted)
    {
      hide *;
      ghost var log, f := drive.log, drive.sectors;
      var startLba := 2048;
      var sectorCount := U(MbToSectors(totalSizeMb) - startLba);
      WholeDisk(drive.reported);
      MakePartition(drive, fs, sectorCount, granted);
      AllFormatted(log, f, drive, fs);
    }

    /** format_disk: the whole selected disk as one partition from sector 2048 on. */
    method Format(fs: FileSystemType, granted: bool) returns (ret: int)
      requires Valid()
      modifies if current == -1 then {} else {available[current].drive}
      ensures current == -1 ==> ret == FAILED
      ensures current != -1 ==>
        var drive := available[current].drive;
        ret == (if SizeMb(drive.reported) < 32 then FAILED else 0)
        && FormattedWhole(old(drive.log), old(drive.sectors), drive, fs)
        && (ret == 0 ==> Promised(old(drive.log), old(drive.sectors), old(drive.failures), drive, fs,
                                  U(SizeMb(drive.reported) * 2048 - 2048), granted))
    {
      if current == -1 {
        return FAILED;
      }
      var drive := available[current].drive;
      hide *;
      var totalSizeMb := U(available[current].sizeMb);
      SizeKnown(current);
      if totalSizeMb < 32 {
        NothingFormatted(drive, fs);
        return FAILED;
      }
      MakeWhole(drive, fs, totalSizeMb, granted);
      return 0;
    }

    /** create_partition_mb: refuse more than the shown capacity; then create, rescan and report success in any case. */
    method CreatePartitionMb(sizeMb: uint32, fs: FileSystemType, granted: bool, ports: seq<Drive?>) returns (ret: int)
      requires Valid() && |ports| == 4
      modifies this`available, this`num, if current == -1 then {} else {available[current].drive}
      ensures Valid()
      ensures current == -1 ==> ret == FAILED
      ensures ret == FAILED ==> available == old(available) && num == old(num)
      ensures ret == 0 ==>
        && num == |Present(ports)| && |old(available)| <= |available|
        && (forall i :: num <= i < |old(available)| ==> available[i] == old(available)[i])
        && (forall i :: 0 <= i < num ==> available[i].drive == Present(ports)[i])
      ensures current != -1 ==>
        var drive := old(available[current].drive);
        if sizeMb > SizeMb(drive.reported) then
          ret == FAILED && drive.log == old(drive.log) && drive.sectors == old(drive.sectors)
        else
          && ret == 0 && PartitionMade(old(drive.log), old(drive.sectors), drive, fs, sizeMb)
          && Promised(old(drive.log), old(drive.sectors), old(drive.failures), drive, fs, U(sizeMb * 2048), granted)
    {
      if current == -1 {
        return FAILED;
      }
      if sizeMb > available[current].sizeMb {
        return FAILED;
      }
      var drive := available[current].drive;
      SizeRoundTrip(drive.reported);
      MbToSectorsExactIff(sizeMb);
      var sectorCount := MbToSectors(sizeMb);
      ghost var log, f := drive.log, drive.sectors;
      MakePartition(drive, fs, sectorCount, granted);
      MadePartition(log, f, drive, fs, sizeMb);
      Init(ports);
      return 0;
    }

    /** delete_partition. */
    method DeletePartition(index: int) returns (ret: int)
      requires Valid()
      modifies if current == -1 then {} else {available[current].drive}
      ensures current == -1 || !(0 <= index < 4) ==> ret == FAILED
      ensures current != -1 ==>
        var drive := available[current].drive;
        EntryDeleted(old(drive.log), old(drive.sectors), drive, index, ret)
        && (ret == 0 || ret == FAILED) && drive.StoppedSince(old(drive.failures))
        && (ret == 0 <==> 0 <= index < 4 && Table(old(drive.sectors)(0))[index].kind != 0
                          && drive.failures == old(drive.failures))
    {
      if current == -1 {
        return FAILED;
      }
      if index < 0 || index >= 4 {
        return FAILED;
      }
      var drive := available[current].drive;
      var mbr := new byte[MBR_SIZE];
      var ok := drive.Read(0, mbr);
      if !ok {
        return FAILED;
      }
      var found := DeleteEntry(mbr, index);
      if !found {
        return FAILED;
      }
      var data: Sector := mbr[..];
      ok := drive.Write(0, data);
      return if ok then 0 else FAILED;
    }
  }
}
