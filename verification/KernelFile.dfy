/** The kernel file on disk: its blocks, the space it needs, and what reading it finds. */
module KernelFile {
  import opened Words
  import opened Blocks
  import opened ZoneTree
  import opened InodeTable
  import opened FileZones

  /** Block k of a file, padded with zeros behind the end. */
  function Chunk(bytes: seq<u8>, k: nat): Block {
    seq(1024, i requires 0 <= i < 1024 => if BLOCK_SIZE * k + i < |bytes| then bytes[BLOCK_SIZE * k + i] else 0)
  }

  /** The data zones hold the blocks of the file. */
  ghost predicate DataOk(disk: Disk, own: Owners, bytes: seq<u8>) {
    forall z | z in own && own[z].Data? :: z < |disk| && disk[z] == Chunk(bytes, own[z].b)
  }

  /**
   * The records of the inodes stand one after another, from the first block behind boot
   * block, superblock and the blocks of both maps on.
   */
  lemma InodePlace(sb: Superblock, i: nat)
    requires i > 0
    ensures BLOCK_SIZE * InodeBlock(sb.Table(), i) + InodeOffset(i)
         == BLOCK_SIZE * (2 + sb.imapBlocks as int + sb.zmapBlocks as int) + INODE_SIZE * (i - 1)
  {
  }

  /** The space the installer asks for before it copies a file of n blocks. */
  function Precheck(n: nat): nat
    requires n > 0
  {
    if n >= 7 && n < 7 + 512 then n + 1
    else if n >= 512 + 7 then
      // C division truncates: -1 / 512 is 0 when n is 519.
      n + 2 + ((if n == 519 then 0 else (n - 7 - 512 - 1) / 512) + 1)
    else n
  }

  /** The space asked for is the space used, except for files of exactly 7 or 519 blocks. */
  lemma PrecheckIsExact(n: nat)
    requires n > 0
    ensures Precheck(n) == ZonesFor(n) + (if n == 7 then 1 else if n == 519 then 2 else 0)
  {
    ZonesForIs(n);
  }

  /** Block b of the file can be reached, and reading it gives block b of the bytes. */
  ghost predicate Reads(disk: Disk, zones: ZoneTable, b: nat, content: Block)
    requires b < MAX_BLOCKS
  {
    && (Parent(Data(b)).Some? ==> ZoneOf(disk, zones, Parent(Data(b)).value) < |disk|)
    && (b >= DOUBLE_START ==> zones[8] < |disk|)
    && ZoneOf(disk, zones, Data(b)) < |disk|
    && disk[ZoneOf(disk, zones, Data(b))] == content
  }

  /** Inode i is a file with these bytes. */
  ghost predicate Installed(disk: Disk, table: nat, i: nat, bytes: seq<u8>)
    requires i > 0
  {
    && InodeBlock(table, i) < |disk|
    && BlockCount(|bytes|) <= MAX_BLOCKS
    && var x := LoadedInode(disk, table, i);
       && x.size == |bytes|
       && forall b: nat | b < BlockCount(|bytes|) :: Reads(disk, x.zones, b, Chunk(bytes, b))
  }

  /** A complete tree with the right data zones reads as the file. */
  lemma CompleteFileReads(disk: Disk, zones: ZoneTable, own: Owners, n: nat, bytes: seq<u8>, b: nat)
    requires Tree(disk, zones, own) && Complete(own, n) && DataOk(disk, own, bytes)
    requires b < n <= MAX_BLOCKS
    ensures Reads(disk, zones, b, Chunk(bytes, b))
  {
    RoleInPlace(disk, zones, own, Data(b));
    if Parent(Data(b)).Some? {
      RoleInPlace(disk, zones, own, Parent(Data(b)).value);
    }
    if b >= DOUBLE_START {
      RoleInPlace(disk, zones, own, Double);
    }
  }

  /** Storing the last block's data and the inode keeps the tree and the data stored before. */
  lemma StoringKeepsFile(disk: Disk, zones: ZoneTable, own: Owners, z: u16, k: nat, bytes: seq<u8>,
                         table: nat, i: nat, x: Inode)
    requires Tree(disk, zones, own) && z in own && own[z] == Data(k)
    requires forall y | y in own && own[y].Data? && y != z :: y < |disk| && disk[y] == Chunk(bytes, own[y].b)
    requires i > 0 && InodeBlock(table, i) < |disk| && forall y | y in own :: y as int != InodeBlock(table, i)
    ensures z < |disk|
    ensures var d := SavedInode(disk[z := Chunk(bytes, k)], table, i, x);
            Tree(d, zones, own) && DataOk(d, own, bytes) && LoadedInode(d, table, i) == x
  {
    assert InPlace(disk, zones, own, z);
    var d1 := disk[z := Chunk(bytes, k)];
    var d := SavedInode(d1, table, i, x);
    SaveThenLoad(d1, table, i, x, i);
    forall y | y in own && !own[y].Data? ensures BlockAt(d, y) == BlockAt(disk, y) {
    }
    DataWriteKeepsTree(disk, d, zones, own);
  }

  /** Compared with an earlier state, only zones the file got since and inode i changed. */
  ghost predicate OthersKept(sb: Superblock, disk0: Disk, bits0: seq<bool>, own0: Owners,
                             disk: Disk, bits: seq<bool>, own: Owners, i: nat)
    requires i > 0
  {
    && |disk| == |disk0| && |bits| == |bits0| == sb.nzones
    && (forall z | z in own0 :: z in own && own[z] == own0[z])
    && (forall z | z in own && z !in own0 :: Available(sb, bits0, z))
    && (forall z: u16 :: Taken(sb, bits, z) <==> Taken(sb, bits0, z) || (z in own && z !in own0))
    && (forall z: nat | z < |disk| && z !in own && z != InodeBlock(sb.Table(), i) :: disk[z] == disk0[z])
    && (forall j: nat | j > 0 && j != i
                        && InodeBlock(sb.Table(), j) < sb.firstDataZone && InodeBlock(sb.Table(), j) < |disk| ::
          LoadedInode(disk, sb.Table(), j) == LoadedInode(disk0, sb.Table(), j))
  }

  lemma OthersTransitive(sb: Superblock, disk0: Disk, bits0: seq<bool>, own0: Owners,
                         disk1: Disk, bits1: seq<bool>, own1: Owners,
                         disk2: Disk, bits2: seq<bool>, own2: Owners, i: nat)
    requires i > 0
    requires OthersKept(sb, disk0, bits0, own0, disk1, bits1, own1, i)
    requires OthersKept(sb, disk1, bits1, own1, disk2, bits2, own2, i)
    ensures OthersKept(sb, disk0, bits0, own0, disk2, bits2, own2, i)
  {
    forall z | z in own2 && z !in own0 ensures Available(sb, bits0, z) {
      if z !in own1 {
        assert Available(sb, bits1, z);
        assert Taken(sb, bits1, z) <==> Taken(sb, bits0, z) || (z in own1 && z !in own0);
      }
    }
  }

  /** The zones of a file are data zones, so no inode is stored in them. */
  lemma FileOffTable(sb: Superblock, bits: seq<bool>, own: Owners, i: nat)
    requires ZonesTaken(sb, bits, own) && i > 0 && InodeBlock(sb.Table(), i) < sb.firstDataZone
    ensures forall y | y in own :: y as int != InodeBlock(sb.Table(), i)
  {
    forall y | y in own ensures y as int != InodeBlock(sb.Table(), i) {
      assert Taken(sb, bits, y);
    }
  }

  /** So nothing in front of the inode table changes: boot block, superblock and maps. */
  lemma FrontKept(sb: Superblock, disk0: Disk, bits0: seq<bool>, disk: Disk, bits: seq<bool>, own: Owners,
                  i: nat, z: nat)
    requires i > 0 && OthersKept(sb, disk0, bits0, map[], disk, bits, own, i)
    requires InodeBlock(sb.Table(), i) < sb.firstDataZone
    requires z < |disk| && z < 2 + sb.imapBlocks as int + sb.zmapBlocks as int
    ensures disk[z] == disk0[z]
  {
    InodePlace(sb, i);
    forall y | y in own ensures sb.firstDataZone <= y {
      assert Available(sb, bits0, y);
    }
  }

  /** Every data zone but the newest was there before. */
  lemma OlderDataZone(own0: Owners, disk1: Disk, zones1: ZoneTable, own1: Owners, z: u16, k: nat, y: u16)
    requires Complete(own0, k) && Complete(own1, k + 1) && Tree(disk1, zones1, own1)
    requires forall x | x in own0 :: x in own1 && own1[x] == own0[x]
    requires z in own1 && own1[z] == Data(k) && y in own1 && own1[y].Data? && y != z
    ensures y in own0
  {
    assert InPlace(disk1, zones1, own1, y) && InPlace(disk1, zones1, own1, z);
    assert HasRole(own0, own1[y]);
    var x :| x in own0 && own0[x] == own1[y];
    assert InPlace(disk1, zones1, own1, x);
  }

  /** One turn of the copy loop, from the growth of the tree to the saved inode. */
  lemma CopyStep(sb: Superblock, disk0: Disk, bits0: seq<bool>, own0: Owners,
                 disk1: Disk, bits1: seq<bool>, zones1: ZoneTable, own1: Owners,
                 z: u16, k: nat, bytes: seq<u8>, i: nat, x: Inode)
    requires Extends(sb, disk0, bits0, own0, disk1, bits1, own1)
    requires DataOk(disk0, own0, bytes) && Complete(own0, k)
    requires Tree(disk1, zones1, own1) && ZonesTaken(sb, bits1, own1) && Complete(own1, k + 1)
    requires z in own1 && own1[z] == Data(k)
    requires i > 0 && InodeBlock(sb.Table(), i) < sb.firstDataZone && InodeBlock(sb.Table(), i) < |disk0|
    ensures z < |disk1|
    ensures var d := SavedInode(disk1[z := Chunk(bytes, k)], sb.Table(), i, x);
            && Tree(d, zones1, own1) && DataOk(d, own1, bytes) && LoadedInode(d, sb.Table(), i) == x
            && OthersKept(sb, disk0, bits0, own0, d, bits1, own1, i)
  {
    FileOffTable(sb, bits1, own1, i);
    forall y | y in own1 && own1[y].Data? && y != z ensures y < |disk1| && disk1[y] == Chunk(bytes, own1[y].b) {
      OlderDataZone(own0, disk1, zones1, own1, z, k, y);
    }
    StoringKeepsFile(disk1, zones1, own1, z, k, bytes, sb.Table(), i, x);
    CopyStepKeepsOthers(sb, disk0, bits0, own0, disk1, bits1, own1, z, k, bytes, i, x);
  }

  lemma CopyStepKeepsOthers(sb: Superblock, disk0: Disk, bits0: seq<bool>, own0: Owners,
                            disk1: Disk, bits1: seq<bool>, own1: Owners,
                            z: u16, k: nat, bytes: seq<u8>, i: nat, x: Inode)
    requires Extends(sb, disk0, bits0, own0, disk1, bits1, own1) && ZonesTaken(sb, bits1, own1)
    requires z in own1 && z < |disk1|
    requires i > 0 && InodeBlock(sb.Table(), i) < sb.firstDataZone && InodeBlock(sb.Table(), i) < |disk0|
    ensures OthersKept(sb, disk0, bits0, own0,
                       SavedInode(disk1[z := Chunk(bytes, k)], sb.Table(), i, x), bits1, own1, i)
  {
    var d1 := disk1[z := Chunk(bytes, k)];
    forall j: nat | j > 0 && j != i
                    && InodeBlock(sb.Table(), j) < sb.firstDataZone && InodeBlock(sb.Table(), j) < |disk1|
      ensures LoadedInode(SavedInode(d1, sb.Table(), i, x), sb.Table(), j) == LoadedInode(disk0, sb.Table(), j)
    {
      SaveThenLoad(d1, sb.Table(), i, x, j);
      FileOffTable(sb, bits1, own1, j);
    }
  }

  /** All zones a file got came from the free ones, and are the only ones that changed. */
  ghost predicate TookOnly(sb: Superblock, bits0: seq<bool>, own: Owners, bits: seq<bool>) {
    && |bits| == |bits0| == sb.nzones
    && (forall z | z in own :: Available(sb, bits0, z))
    && (forall z: u16 :: Taken(sb, bits, z) <==> Taken(sb, bits0, z) || z in own)
  }

  /**
   * Truncation undoes growth: giving back the blocks below fb restores the zone map
   * exactly if fb reaches the number of blocks.
   */
  lemma TruncationRestoresIff(sb: Superblock, bits0: seq<bool>, own: Owners, n: nat, bits1: seq<bool>,
                              fb: nat, bits2: seq<bool>)
    requires TookOnly(sb, bits0, own, bits1) && Complete(own, n) && fb <= n <= MAX_BLOCKS
    requires sb.firstDataZone as int + sb.nzones as int <= U16_LIMIT
    requires Released(sb, bits1, own, fb, {}, bits2)
    ensures bits2 == bits0 <==> fb == n
  {
    if fb == n {
      forall k | 0 <= k < |bits0| ensures bits2[k] == bits0[k] {
        var z: u16 := sb.firstDataZone as int + k;
        assert Taken(sb, bits2, z) == bits2[k] && Taken(sb, bits0, z) == bits0[k];
        assert Taken(sb, bits1, z) <==> Taken(sb, bits0, z) || z in own;
        if z in own {
          assert Available(sb, bits0, z);
        }
      }
    } else {
      assert HasRole(own, Data(fb));
      var z :| z in own && own[z] == Data(fb);
      assert Available(sb, bits0, z) && Taken(sb, bits1, z) && Taken(sb, bits2, z);
    }
  }
}
