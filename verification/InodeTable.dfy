/** Inodes as the 32-byte records of the inode table. */
module InodeTable {
  import opened Words
  import opened Blocks
  import opened ZoneTree

  const INODE_SIZE: int := 32
  const INODES_PER_BLOCK: int := 32
  const SIZE_OFFSET: int := 4
  const ZONES_OFFSET: int := 14

  datatype Inode = Inode(mode: u16, uid: u16, size: u32, time: u32, gid: u8, nlinks: u8, zones: ZoneTable)

  function ZoneBytes(zones: seq<u16>): (r: seq<u8>)
    ensures |r| == 2 * |zones|
    ensures forall i | 0 <= i < |zones| :: FromBytes2(r, 2 * i) == zones[i]
  {
    if zones == [] then [] else ZoneBytes(zones[..|zones| - 1]) + Bytes2(zones[|zones| - 1])
  }

  function InodeBytes(x: Inode): (r: seq<u8>)
    ensures |r| == INODE_SIZE
  {
    Bytes2(x.mode) + Bytes2(x.uid) + Bytes4(x.size) + Bytes4(x.time) + [x.gid, x.nlinks] + ZoneBytes(x.zones)
  }

  /** The inode of a record. */
  function FromRecord(r: seq<u8>): Inode
    requires |r| == INODE_SIZE
  {
    Inode(FromBytes2(r, 0), FromBytes2(r, 2), FromBytes4(r, SIZE_OFFSET), FromBytes4(r, 8), r[12], r[13],
          seq(9, i requires 0 <= i < 9 => FromBytes2(r, ZONES_OFFSET + 2 * i)))
  }

  /** The inode whose record starts at byte `at`. */
  function InodeAt(s: seq<u8>, at: nat): Inode
    requires at + INODE_SIZE <= |s|
  {
    FromRecord(s[at..at + INODE_SIZE])
  }

  /** Where the fields stand in a record, the low byte of each first. */
  lemma RecordLayout(x: Inode, i: nat)
    requires i < 9
    ensures var r := InodeBytes(x);
            && r[0] == x.mode % 0x100 && r[1] == x.mode / 0x100
            && r[2] == x.uid % 0x100 && r[3] == x.uid / 0x100
            && r[4] == x.size % 0x100 && r[5] == x.size % 0x1_0000 / 0x100
            && r[6] == x.size / 0x1_0000 % 0x100 && r[7] == x.size / 0x100_0000
            && r[8] == x.time % 0x100 && r[9] == x.time % 0x1_0000 / 0x100
            && r[10] == x.time / 0x1_0000 % 0x100 && r[11] == x.time / 0x100_0000
            && r[12] == x.gid && r[13] == x.nlinks
            && r[14 + 2 * i] == x.zones[i] % 0x100 && r[15 + 2 * i] == x.zones[i] / 0x100
  {
    var r, z := InodeBytes(x), ZoneBytes(x.zones);
    assert r[14 + 2 * i] == z[2 * i] && r[15 + 2 * i] == z[2 * i + 1];
    assert FromBytes2(z, 2 * i) == x.zones[i];
    FourBytes(x.size);
    FourBytes(x.time);
  }

  lemma FourBytes(d: u32)
    ensures Bytes4(d) == [d % 0x100, d % 0x1_0000 / 0x100, d / 0x1_0000 % 0x100, d / 0x100_0000]
  {
  }

  /** The record of an inode reads back as the inode. */
  lemma RecordReadsBack(x: Inode)
    ensures FromRecord(InodeBytes(x)) == x
  {
    var r := InodeBytes(x);
    assert FromBytes2(r, 0) == x.mode && FromBytes2(r, 2) == x.uid;
    assert FromBytes4(r, SIZE_OFFSET) == x.size && FromBytes4(r, 8) == x.time;
    forall i | 0 <= i < 9 ensures FromBytes2(r, ZONES_OFFSET + 2 * i) == x.zones[i] {
      assert FromBytes2(r, ZONES_OFFSET + 2 * i) == FromBytes2(ZoneBytes(x.zones), 2 * i);
    }
  }

  /** The block of the table that holds inode i, and the byte it starts at; counting starts at 1. */
  function InodeBlock(table: nat, i: nat): nat
    requires i > 0
  {
    table + (i - 1) / INODES_PER_BLOCK
  }

  function InodeOffset(i: nat): (r: nat)
    requires i > 0
    ensures r + INODE_SIZE <= BLOCK_SIZE
  {
    (i - 1) % INODES_PER_BLOCK * INODE_SIZE
  }

  function LoadedInode(disk: Disk, table: nat, i: nat): Inode
    requires i > 0 && InodeBlock(table, i) < |disk|
  {
    InodeAt(disk[InodeBlock(table, i)], InodeOffset(i))
  }

  function SavedInode(disk: Disk, table: nat, i: nat, x: Inode): (d: Disk)
    requires i > 0 && InodeBlock(table, i) < |disk|
    ensures |d| == |disk|
  {
    disk[InodeBlock(table, i) := Overwrite(disk[InodeBlock(table, i)], InodeOffset(i), InodeBytes(x))]
  }

  /** Saving an inode makes it the one loaded, and changes no other inode. */
  lemma SaveThenLoad(disk: Disk, table: nat, i: nat, x: Inode, j: nat)
    requires i > 0 && j > 0 && InodeBlock(table, i) < |disk| && InodeBlock(table, j) < |disk|
    ensures LoadedInode(SavedInode(disk, table, i, x), table, j) == if j == i then x else LoadedInode(disk, table, j)
  {
    var d := SavedInode(disk, table, i, x);
    var block := d[InodeBlock(table, i)];
    if j == i {
      assert block[InodeOffset(i)..InodeOffset(i) + INODE_SIZE] == InodeBytes(x);
      RecordReadsBack(x);
    } else if InodeBlock(table, j) == InodeBlock(table, i) {
      var before, at := disk[InodeBlock(table, i)], InodeOffset(j);
      assert block[at..at + INODE_SIZE] == before[at..at + INODE_SIZE];
    }
  }
}
