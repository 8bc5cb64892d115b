// partition.c and disktool.c: the 32-bit sector arithmetic of the formatters.
module Layouts {
  import opened Bytes

  const SECTOR_SIZE: nat := 512

  /** A 32-bit unsigned result. */
  function U(x: int): uint32 { x % U32 }

  ghost predicate Distinct(s: seq<uint32>) {
    forall i, j :: 0 <= i < j < |s| ==> s[i] != s[j]
  }

  /** Every sector of the plan lies in [start, start + total). */
  ghost predicate Inside(s: seq<uint32>, start: nat, total: nat) {
    forall i :: 0 <= i < |s| ==> start <= s[i] < start + total
  }

  // ----- ext4 -----

  const BLOCKS_PER_GROUP: nat := 32768
  const BLOCK_SIZE: nat := 4096

  function Capped(count: nat): uint32 { if count > 0xFFFFFFFF then 0xFFFFFFFF else count }

  /** s_blocks_count_lo, from init_superblock's 64-bit arithmetic. */
  function TotalBlocks(total: uint32): uint32 {
    Capped(total * SECTOR_SIZE / BLOCK_SIZE)
  }

  function Groups(total: uint32): uint32 {
    U(TotalBlocks(total) + BLOCKS_PER_GROUP - 1) / BLOCKS_PER_GROUP
  }

  function GroupFirst(group: nat): uint32 { U(group * BLOCKS_PER_GROUP) }

  function GroupBlocks(total: uint32, group: nat): uint32 {
    if group == Groups(total) - 1 then U(TotalBlocks(total) - U(group * BLOCKS_PER_GROUP)) else BLOCKS_PER_GROUP
  }

  function Superblock(start: uint32): uint32 { U(start + 1024 / SECTOR_SIZE) }

  function Descriptor(start: uint32, group: nat): uint32 { U(U(Superblock(start) + 1) + group) }

  function Bitmap(start: uint32, group: nat): uint32 {
    U(start + U(GroupFirst(group) * BLOCK_SIZE) / SECTOR_SIZE)
  }

  /** The i-th sector format_ext4 writes: the superblock, then three sectors a group. */
  function Ext4Sector(start: uint32, i: nat): uint32 {
    if i == 0 then Superblock(start)
    else if i % 3 == 1 then Descriptor(start, i / 3)
    else if i % 3 == 2 then Bitmap(start, i / 3)
    else U(Bitmap(start, i / 3 - 1) + 1)
  }

  /** Nothing is written to a partition of fewer than 8192 sectors. */
  function Ext4Plan(start: uint32, total: uint32): seq<uint32> {
    if total < 8192 then [] else seq(1 + 3 * Groups(total), i requires 0 <= i => Ext4Sector(start, i))
  }

  /** The groups tile [0, total blocks) in order; the last one has 1 to 32768 blocks. */
  lemma GroupsTile(total: uint32, group: nat)
    requires 8 <= total && group < Groups(total)
    ensures TotalBlocks(total) == total / 8 && Groups(total) <= 16384
    ensures GroupFirst(group) == group * BLOCKS_PER_GROUP
    ensures GroupFirst(group) + GroupBlocks(total, group)
         == if group + 1 < Groups(total) then GroupFirst(group + 1) else TotalBlocks(total)
    ensures 1 <= GroupBlocks(total, group) <= BLOCKS_PER_GROUP
  {
  }

  /** The check on the number of groups never rejects a partition that passed the size check. */
  lemma GroupsInRange(total: uint32)
    requires 8192 <= total
    ensures 1 <= Groups(total) <= 16384
    ensures Groups(total) <= 32 <==> total < 0x80_0000 + 8
  {
  }

  /** Only the byte offset of a bitmap can wrap: it starts over every 32 groups. */
  lemma BitmapOffset(group: nat)
    requires group < 16384
    ensures U(GroupFirst(group) * BLOCK_SIZE) / SECTOR_SIZE == group % 32 * 262144
  {
    var q, r := group / 32, group % 32;
    assert GroupFirst(group) * BLOCK_SIZE == r * 0x800_0000 + q * U32;
  }

  lemma GroupInside(total: uint32, group: nat)
    requires 8192 <= total && group < Groups(total)
    ensures group < 16384 && 262144 * group + 1 < total && group + 3 < total
  {
  }

  lemma Ext4Sectors(start: uint32, total: uint32, group: nat)
    requires 8192 <= total && start + total <= U32 && group < Groups(total)
    ensures Superblock(start) == start + 2
    ensures Descriptor(start, group) == start + 3 + group < start + total
    ensures Bitmap(start, group) == start + group % 32 * 262144
    ensures Bitmap(start, group) + 1 < start + total
  {
    hide Groups, GroupFirst;
    GroupInside(total, group);
    BitmapOffset(group);
  }

  lemma SomeGroup(total: uint32)
    requires 8192 <= total
    ensures 0 < Groups(total)
  {
  }

  lemma Ext4SectorIs(start: uint32, total: uint32, i: nat)
    requires 8192 <= total && start + total <= U32 && i < 1 + 3 * Groups(total)
    ensures Ext4Sector(start, i)
         == if i == 0 then start + 2
            else if i % 3 == 1 then start + 3 + i / 3
            else if i % 3 == 2 then start + i / 3 % 32 * 262144
            else start + (i / 3 - 1) % 32 * 262144 + 1
    ensures start <= Ext4Sector(start, i) < start + total
  {
    hide Groups, GroupFirst, Superblock, Descriptor, Bitmap;
    if i == 0 {
      SomeGroup(total);
      Ext4Sectors(start, total, 0);
    } else {
      Ext4Sectors(start, total, (i - 1) / 3);
    }
  }

  /** Every sector of the ext4 plan is inside the partition, wrapped bitmaps included. */
  lemma Ext4Inside(start: uint32, total: uint32)
    requires start + total <= U32
    ensures Inside(Ext4Plan(start, total), start, total)
  {
    forall i | 0 <= i < |Ext4Plan(start, total)|
      ensures start <= Ext4Plan(start, total)[i] < start + total
    {
      Ext4SectorIs(start, total, i);
    }
  }

  lemma Ext4Differ(start: uint32, total: uint32, i: nat, j: nat)
    requires 8192 <= total && start + total <= U32 && Groups(total) <= 32
    requires i < j < 1 + 3 * Groups(total)
    ensures Ext4Sector(start, i) != Ext4Sector(start, j)
  {
    hide *;
    Ext4SectorIs(start, total, i);
    Ext4SectorIs(start, total, j);
  }

  /** No sector is written twice exactly when the partition has at most 32 groups: up to 4 GiB. */
  lemma Ext4DistinctIff(start: uint32, total: uint32)
    requires start + total <= U32
    ensures Distinct(Ext4Plan(start, total)) <==> total < 0x80_0000 + 8
  {
    var p := Ext4Plan(start, total);
    if total < 8192 {
      return;
    }
    GroupsInRange(total);
    if Groups(total) <= 32 {
      forall i, j | 0 <= i < j < |p| ensures p[i] != p[j] {
        Ext4Differ(start, total, i, j);
      }
    } else {
      Ext4SectorIs(start, total, 2);
      Ext4SectorIs(start, total, 98);
      assert p[2] == p[98];
    }
  }

  // ----- FAT32 -----

  const RESERVED_SECTORS: nat := 32

  /** SECTORS_PER_FAT(total). */
  function SectorsPerFat(total: uint32): uint32 { U(total - RESERVED_SECTORS) / (8 * 128 + 2) * 2 }

  function FatPlan(start: uint32, total: uint32): seq<uint32> {
    var fat1 := U(start + RESERVED_SECTORS);
    [start, fat1, U(fat1 + SectorsPerFat(total))]
  }

  /** SECTORS_PER_FAT is even: a sector for every 513 behind the 32 reserved ones, rounded down to a pair;
      a partition smaller than those wraps. The boot sector, and then the tables one behind the other, from sector 32 on. */
  lemma FatPlanIs(start: uint32, total: uint32)
    ensures var spf, rest := SectorsPerFat(total), if 32 <= total then total - 32 else total + 4294967264;
            && spf % 2 == 0 && 513 * spf <= rest < 513 * spf + 1026
            && (start + 32 + spf < 4294967296 ==> FatPlan(start, total) == [start, start + 32, start + 32 + spf])
  {
  }

  /** The reserved sectors and both tables fit, and a table has an entry for every data cluster and two more. */
  predicate FatAdequate(total: uint32) {
    var spf := SectorsPerFat(total);
    RESERVED_SECTORS + 2 * spf <= total && 128 * spf >= (total - RESERVED_SECTORS - 2 * spf) / 8 + 2
  }

  lemma FatAdequateIff(total: uint32)
    ensures FatAdequate(total) <==> 1058 <= total < 2076 || 2084 <= total
  {
  }

  /** The boot sector and both tables are disjoint and inside the partition whenever the sizing is adequate. */
  lemma FatLayout(start: uint32, total: uint32)
    requires FatAdequate(total) && start + total <= U32
    ensures var p, spf := FatPlan(start, total), SectorsPerFat(total);
            spf > 0 && p[0] == start && p[1] == start + 32 && p[2] == p[1] + spf && p[2] + spf <= start + total
  {
    FatAdequateIff(total);
  }

  /** All three writes are inside the partition exactly when it is larger than the reserved area. */
  lemma FatInsideIff(start: uint32, total: uint32)
    requires start + total <= U32
    ensures Inside(FatPlan(start, total), start, total) <==> total > RESERVED_SECTORS
  {
    var p := FatPlan(start, total);
    assert Inside(p, start, total) ==> p[0] < start + total && start <= p[1] < start + total;
  }

  /** A FAT32 partition of no sectors: the subtraction wraps, and the second table lands 4 GB further on. */
  lemma EmptyFatPlan()
    ensures FatPlan(2048, 0) == [2048, 2080, 8374334]
  {
  }

  // ----- megabytes and sectors -----

  /** init_disktool's size in megabytes, from the sector count the drive reports. */
  function SizeMb(reported: uint32): nat { U(reported * SECTOR_SIZE) / (1024 * 1024) }

  /** MB_TO_SECTORS. */
  function MbToSectors(mb: uint32): uint32 { U(U(mb * 1024) * 1024) / SECTOR_SIZE }

  /** Sizes stay below 4 GiB, so converting them back to sectors never wraps and never exceeds the drive. */
  lemma SizeRoundTrip(reported: uint32)
    ensures SizeMb(reported) < 4096
    ensures MbToSectors(SizeMb(reported)) == SizeMb(reported) * 2048 <= reported
  {
  }

  lemma MbToSectorsExactIff(mb: uint32)
    ensures MbToSectors(mb) == mb * 2048 <==> mb < 4096
  {
  }

  lemma SizeMbIs(reported: uint32)
    ensures SizeMb(reported) == reported % 0x80_0000 / 2048
  {
  }

  /** A partition of a size that passes newpart's capacity check ends on the drive
      exactly when it is smaller than the shown capacity, or the shown capacity wrapped. */
  lemma PartitionOnDriveIff(reported: uint32, mb: uint32)
    requires mb <= SizeMb(reported)
    ensures 2048 + MbToSectors(mb) <= reported <==> mb < SizeMb(reported) || reported >= 0x80_0000
  {
    hide MbToSectors, SizeMb;
    SizeRoundTrip(reported);
    SizeMbIs(reported);
    MbToSectorsExactIff(mb);
  }
}
