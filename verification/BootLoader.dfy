/** The boot loader of vbr.asm, from the kernel's inode to the kernel in memory. */
module BootLoader {
  import opened Words
  import opened Blocks
  import opened ZoneTree
  import opened InodeTable
  import opened FileZones
  import opened KernelFile

  const RAM_SIZE: int := 0x10_0000
  const TABLE_WORD: int := 0x0512
  const INODE_BASE: int := 0x051c
  const SB_BASE: int := 0x053c
  const BUFFER_BASE: int := 0x0600
  const BUFFER_HALF: int := 0x0800
  const VBR_HALF: int := 0x0c00
  const KERNEL_BASE: int := 0x1000

  // The documented limit of 608.5 KB.
  const MAX_KERNEL: int := 623104

  /** The signed value of a 16-bit or 32-bit register. */
  function Signed16(x: u16): int {
    if x < 0x8000 then x else x as int - U16_LIMIT
  }

  function Signed32(x: u32): int {
    if x < 0x8000_0000 then x else x as int - U32_LIMIT
  }

  const NO_LEVEL: u16 := 0xFFFF

  /** The places load_zone descends through: in the inode, and in one or two index blocks. */
  datatype Levels = Levels(level0: u16, level1: u16, level2: u16)

  /** How load_zone picks its levels; the comparisons are signed. */
  function Descent(zone: u16): Levels {
    if Signed16(zone) >= 519 then Levels(8, (zone - 519) / 512, (zone - 519) % 512)
    else if Signed16(zone) >= 7 then Levels(7, zone - 7, NO_LEVEL)
    else Levels(zone, NO_LEVEL, NO_LEVEL)
  }

  /** What a 16-bit register keeps of a sum that overflows it at most twice. */
  function Wrap16(x: nat): u16
    requires x < 3 * U16_LIMIT
  {
    if x < U16_LIMIT then x else if x < 2 * U16_LIMIT then x - U16_LIMIT else x - 2 * U16_LIMIT
  }

  /** The address of word i of the zone table of the current inode, also for an i beyond the table. */
  function ZoneAddress(i: u16): u16 {
    Wrap16(INODE_BASE + ZONES_OFFSET + 2 * i as int)
  }

  /** Sector s of the partition. */
  function SectorAt(disk: Disk, s: nat): (r: seq<u8>)
    requires s / 2 < |disk|
    ensures |r| == 512
  {
    disk[s / 2][512 * (s % 2)..512 * (s % 2) + 512]
  }

  lemma SectorsOfBlock(disk: Disk, k: nat)
    requires k < |disk|
    ensures SectorAt(disk, 2 * k) + SectorAt(disk, 2 * k + 1) == disk[k]
  {
    assert (2 * k + 1) / 2 == k && (2 * k + 1) % 2 == 1;
    assert SectorAt(disk, 2 * k) == disk[k][..512] && SectorAt(disk, 2 * k + 1) == disk[k][512..];
  }

  /** The block that step 6 loads for an inode: its number is doubled in 16 bits, which drops the top bit. */
  function LoadedBlock(table: u16, number: u16): nat
    requires number > 0
  {
    var block := Wrap16(InodeBlock(table, number));
    if block < 0x8000 then block else block - 0x8000
  }

  /** Step 6 computes it in two registers. */
  lemma StepSix(table: u16, number: u16)
    requires number > 0
    ensures Wrap16(2 * Wrap16((number - 1) / 32 + table as int) as int) == 2 * LoadedBlock(table, number)
  {
  }

  /** Step 6 finds the inode on every disk if and only if its block has a number below 0x8000. */
  lemma InodeFoundIff(table: u16, number: u16)
    requires number > 0
    ensures (forall disk: Disk | InodeBlock(table, number) < |disk| ::
               InodeAt(disk[LoadedBlock(table, number)], InodeOffset(number)) == LoadedInode(disk, table, number))
       <==> InodeBlock(table, number) < 0x8000
  {
    if InodeBlock(table, number) >= 0x8000 {
      var disk := MarkedDisk(InodeBlock(table, number), InodeOffset(number), LoadedBlock(table, number));
      assert InodeAt(disk[LoadedBlock(table, number)], InodeOffset(number)) != LoadedInode(disk, table, number);
    }
  }

  /** A disk on which the inodes at one place of two blocks differ. */
  lemma MarkedDisk(block: nat, at: nat, other: nat) returns (disk: Disk)
    requires other < block && at + INODE_SIZE <= BLOCK_SIZE
    ensures |disk| == block + 1 && InodeAt(disk[other], at) != InodeAt(disk[block], at)
  {
    var blank := ZeroBlock();
    var marked: Block := blank[at := 1];
    disk := seq(block + 1, k => if k == block then marked else blank);
    ModeAt(blank, at);
    ModeAt(marked, at);
  }

  lemma ModeAt(b: Block, at: nat)
    requires at + INODE_SIZE <= BLOCK_SIZE
    ensures InodeAt(b, at).mode == LittleEndian(b[at], b[at + 1])
  {
  }

  /** The places of the zone tree that lead to block b of a file. */
  function TreePath(b: nat): Levels
    requires b <= NO_LEVEL
  {
    var p := Parent(Data(b));
    if p.None? then Levels(Slot(Data(b)), NO_LEVEL, NO_LEVEL)
    else if p.value == Single then Levels(Slot(Single), Slot(Data(b)), NO_LEVEL)
    else Levels(Slot(Double), Slot(p.value), Slot(Data(b)))
  }

  /** The boot loader descends as the installer does for exactly the zones below 0x8000. */
  lemma DescentFollowsTreeIff(zone: u16)
    ensures Descent(zone) == TreePath(zone) <==> zone < 0x8000
  {
    if DIRECT <= zone < DOUBLE_START {
      assert Parent(Data(zone)) == Some(Single);
    } else if zone >= DOUBLE_START {
      assert Parent(Data(zone)) == Some(Second((zone - DOUBLE_START) / WORDS_PER_BLOCK));
    }
  }

  /** The zone whose block load_zone leaves in the buffer, for any memory, disk and index. */
  function LoadedZone(disk: Disk, ram: seq<u8>, zone: u16): u16
    requires |ram| == RAM_SIZE
  {
    var levels := Descent(zone);
    var z0 := FromBytes2(ram, ZoneAddress(levels.level0));
    if levels.level1 == NO_LEVEL then z0
    else
      var z1 := Word(BlockAt(disk, z0), levels.level1);
      if levels.level2 == NO_LEVEL then z1 else Word(BlockAt(disk, z1), levels.level2)
  }

  /** The zone and all index blocks on the way to it are on the disk. */
  predicate OnDisk(disk: Disk, ram: seq<u8>, zone: u16)
    requires |ram| == RAM_SIZE
  {
    var levels := Descent(zone);
    var z0 := FromBytes2(ram, ZoneAddress(levels.level0));
    && z0 < |disk|
    && (levels.level1 != NO_LEVEL ==>
          var z1 := Word(BlockAt(disk, z0), levels.level1);
          z1 < |disk| && (levels.level2 != NO_LEVEL ==> Word(BlockAt(disk, z1), levels.level2) < |disk|))
  }

  /** Below 0x8000 it is the zone of the tree. */
  lemma LoadedZoneIs(disk: Disk, ram: seq<u8>, zone: u16)
    requires |ram| == RAM_SIZE && zone < 0x8000
    ensures LoadedZone(disk, ram, zone) == ZoneOf(disk, InodeAt(ram, INODE_BASE).zones, Data(zone))
    ensures Reachable(disk, InodeAt(ram, INODE_BASE).zones, zone) ==> OnDisk(disk, ram, zone)
  {
    InodeZoneWord(ram, Descent(zone).level0);
    if zone >= DOUBLE_START {
      DoubleZones(disk, InodeAt(ram, INODE_BASE).zones, zone);
    } else if zone >= DIRECT {
      assert Parent(Data(zone)) == Some(Single);
    } else {
      assert Parent(Data(zone)) == None;
    }
  }

  /** From 0x8000 on it is the word that stands at that index behind the inode, wherever that is. */
  lemma LoadedZonePast(disk: Disk, ram: seq<u8>, zone: u16)
    requires |ram| == RAM_SIZE && zone >= 0x8000
    ensures LoadedZone(disk, ram, zone) == FromBytes2(ram, (0x051c + 14 + 2 * zone as int) % 0x1_0000)
  {
  }

  /** The boot loader loads the zone of the tree, from every memory and disk, exactly for the indices below 0x8000. */
  lemma LoadsTreeZoneIff(zone: u16)
    ensures (forall disk: Disk, ram: seq<u8> | |ram| == RAM_SIZE ::
               LoadedZone(disk, ram, zone) == ZoneOf(disk, InodeAt(ram, INODE_BASE).zones, Data(zone)))
       <==> zone < 0x8000
  {
    if zone < 0x8000 {
      forall disk: Disk, ram: seq<u8> | |ram| == RAM_SIZE
        ensures LoadedZone(disk, ram, zone) == ZoneOf(disk, InodeAt(ram, INODE_BASE).zones, Data(zone))
      {
        LoadedZoneIs(disk, ram, zone);
      }
    } else {
      var disk: Disk := [];
      var ram: seq<u8> := seq(RAM_SIZE, a => if a == ZoneAddress(zone) then 1 else 0);
      DoubleZones(disk, InodeAt(ram, INODE_BASE).zones, zone);
      assert LoadedZone(disk, ram, zone) == 1;
    }
  }

  /** The first n blocks of the kernel stand in memory from KERNEL_BASE on. */
  ghost predicate BlocksLoaded(ram: seq<u8>, bytes: seq<u8>, n: nat) {
    && |ram| == RAM_SIZE && KERNEL_BASE + BLOCK_SIZE * n <= RAM_SIZE
    && forall a | KERNEL_BASE <= a < KERNEL_BASE + BLOCK_SIZE * n ::
         ram[a] == if a - KERNEL_BASE < |bytes| then bytes[a - KERNEL_BASE] else 0
  }

  /** One more block behind the ones before it; the buffer lies below the kernel. */
  lemma OneMoreBlock(ram: seq<u8>, bytes: seq<u8>, n: nat, buffer: Block)
    requires BlocksLoaded(ram, bytes, n) && KERNEL_BASE + BLOCK_SIZE * (n + 1) <= RAM_SIZE
    ensures BlocksLoaded(Overwrite(Overwrite(ram, BUFFER_BASE, buffer), KERNEL_BASE + BLOCK_SIZE * n, Chunk(bytes, n)),
                         bytes, n + 1)
  {
    var ram1 := Overwrite(Overwrite(ram, BUFFER_BASE, buffer), KERNEL_BASE + BLOCK_SIZE * n, Chunk(bytes, n));
    forall a | KERNEL_BASE <= a < KERNEL_BASE + BLOCK_SIZE * (n + 1)
      ensures ram1[a] == if a - KERNEL_BASE < |bytes| then bytes[a - KERNEL_BASE] else 0
    {
      var i := a - KERNEL_BASE - BLOCK_SIZE * n;
      assert i >= 0 ==> ram1[a] == Chunk(bytes, n)[i];
    }
  }

  /** With all its blocks in memory, the file is in memory. */
  lemma AllLoaded(ram: seq<u8>, bytes: seq<u8>)
    requires BlocksLoaded(ram, bytes, BlockCount(|bytes|))
    ensures KERNEL_BASE + |bytes| <= RAM_SIZE && ram[KERNEL_BASE..KERNEL_BASE + |bytes|] == bytes
  {
    assert |bytes| <= BLOCK_SIZE * BlockCount(|bytes|);
  }

  class BootLoader {
    const sector: u32
    const disk: Disk
    var ram: seq<u8>

    constructor (sector: u32, disk: Disk, ram: seq<u8>)
      ensures this.sector == sector && this.disk == disk && this.ram == ram
    {
      this.sector, this.disk, this.ram := sector, disk, ram;
    }

    /** A real-mode memory of 1 MB, and a partition whose sectors have 32-bit numbers. */
    ghost predicate Valid()
      reads this
    {
      |ram| == RAM_SIZE && sector as int + 2 * |disk| <= U32_LIMIT
    }

    /** The inode the loader works on. */
    function CurrentInode(): Inode
      reads this
      requires |ram| == RAM_SIZE
    {
      InodeAt(ram, INODE_BASE)
    }

    /** The block of the inode table that step 3 has found. */
    function Table(): u16
      reads this
      requires |ram| == RAM_SIZE
    {
      FromBytes2(ram, TABLE_WORD)
    }

    /** Two sectors into the buffer; from an even one on they are a block. */
    method LoadSectors(lba: u32)
      requires Valid() && sector <= lba && (lba - sector + 1) / 2 < |disk|
      modifies this`ram
      ensures Valid()
      ensures ram == Overwrite(old(ram), BUFFER_BASE, SectorAt(disk, lba - sector) + SectorAt(disk, lba - sector + 1))
      ensures (lba - sector) % 2 == 0 ==> ram == Overwrite(old(ram), BUFFER_BASE, disk[(lba - sector) / 2])
    {
      var d := lba - sector;
      ram := Overwrite(ram, BUFFER_BASE, SectorAt(disk, d) + SectorAt(disk, d + 1));
      if d % 2 == 0 {
        SectorsOfBlock(disk, d / 2);
      }
    }

    /** Step 2: the second half of the loader and the superblock, which is in block 1, to their places. */
    method LoadSuperblock()
      requires Valid() && |disk| > 1 && sector < U32_LIMIT - 1
      modifies this`ram
      ensures Valid() && ram[SB_BASE..SB_BASE + 20] == disk[1][..20]
      ensures ram == Overwrite(Overwrite(Overwrite(old(ram), BUFFER_BASE, disk[0][512..] + disk[1][..512]),
                                         VBR_HALF, disk[0][512..]), SB_BASE, disk[1][..20])
    {
      LoadSectors(sector + 1);
      ghost var half, front := SectorAt(disk, 1), SectorAt(disk, 2);
      assert half == disk[0][512..] && front == disk[1][..512] && front[..20] == disk[1][..20];
      assert ram[BUFFER_BASE..BUFFER_BASE + 512] == half && ram[BUFFER_HALF..BUFFER_HALF + 20] == front[..20];
      ram := Overwrite(ram, VBR_HALF, ram[BUFFER_BASE..BUFFER_BASE + 512]);
      assert ram[VBR_HALF..VBR_HALF + 512] == half && ram[BUFFER_HALF..BUFFER_HALF + 20] == front[..20];
      ram := Overwrite(ram, SB_BASE, ram[BUFFER_HALF..BUFFER_HALF + 20]);
      assert ram[SB_BASE..SB_BASE + 20] == front[..20];
    }

    /** Step 3: the first block of the inode table, in 16 bits. */
    method FindTable()
      requires Valid() && |disk| > 1 && ram[SB_BASE..SB_BASE + 20] == disk[1][..20]
      modifies this`ram
      ensures Valid()
      ensures var sb := SuperblockAt(disk[1]); Table() == (2 + sb.imapBlocks as int + sb.zmapBlocks as int) % 0x1_0000
      ensures forall a | 0 <= a < RAM_SIZE && !(TABLE_WORD <= a < TABLE_WORD + 2) :: ram[a] == old(ram)[a]
    {
      ghost var front := ram[SB_BASE..SB_BASE + 20];
      assert forall k | 0 <= k < 20 :: ram[SB_BASE + k] == front[k] == disk[1][k];
      var ax: u16 := 2;
      ax := Wrap16(ax as int + FromBytes2(ram, SB_BASE + 4) as int);
      ax := Wrap16(ax as int + FromBytes2(ram, SB_BASE + 6) as int);
      ram := Overwrite(ram, TABLE_WORD, Bytes2(ax));
      WordReadsBack(ax);
      TableSum(FromBytes2(disk[1], 4), FromBytes2(disk[1], 6));
    }

    /** Reads the zone number at an address, and the zone into the buffer. */
    method LoadZoneAt(address: u16)
      requires Valid() && address + 2 <= RAM_SIZE && FromBytes2(ram, address) < |disk|
      modifies this`ram
      ensures Valid() && ram == Overwrite(old(ram), BUFFER_BASE, disk[FromBytes2(old(ram), address)])
    {
      var zone := FromBytes2(ram, address);
      var lba: u32 := 2 * zone as int + sector as int;
      TwoSectors(zone, lba - sector);
      LoadSectors(lba);
    }

    /** With an index block in the buffer, on to the zone its word i names. */
    method Descend(i: u16, ghost ram0: seq<u8>, ghost block: Block)
      requires Valid() && |ram0| == RAM_SIZE && ram == Overwrite(ram0, BUFFER_BASE, block)
      requires i < WORDS_PER_BLOCK && Word(block, i) < |disk|
      modifies this`ram
      ensures Valid() && ram == Overwrite(ram0, BUFFER_BASE, disk[Word(block, i)])
    {
      BufferWord(ram0, block, i, disk[Word(block, i)]);
      LoadZoneAt(BUFFER_BASE + 2 * i as int);
    }

    /**
     * load_zone; ok is false where the loader halts, past the end. From index 0x8000 on it
     * takes the index for one into the inode, and loads the zone that stands there.
     */
    method LoadZone(zone: u16) returns (ok: bool)
      requires Valid()
      requires zone as int * BLOCK_SIZE < Signed32(CurrentInode().size) ==> OnDisk(disk, ram, zone)
      modifies this`ram
      ensures Valid() && ok == (zone as int * BLOCK_SIZE < Signed32(old(CurrentInode()).size))
      ensures !ok ==> ram == old(ram)
      ensures ok ==>
                && LoadedZone(disk, old(ram), zone) as int < |disk|
                && ram == Overwrite(old(ram), BUFFER_BASE, disk[LoadedZone(disk, old(ram), zone)])
    {
      InodeSizeWord(ram);
      if zone as int * BLOCK_SIZE >= Signed32(FromBytes4(ram, INODE_BASE + SIZE_OFFSET)) {
        return false;
      }
      ghost var ram0 := ram;
      var levels := Descent(zone);
      ghost var z0 := FromBytes2(ram, ZoneAddress(levels.level0));
      LoadZoneAt(ZoneAddress(levels.level0));
      if levels.level1 != NO_LEVEL {
        Descend(levels.level1, ram0, disk[z0]);
        ghost var z1 := Word(disk[z0], levels.level1);
        if levels.level2 != NO_LEVEL {
          Descend(levels.level2, ram0, disk[z1]);
        }
      }
      return true;
    }

    /** The record of an inode from the buffer to its place. */
    method CopyRecord(offset: u16, ghost buffer: Block)
      requires Valid() && offset < INODES_PER_BLOCK && ram[BUFFER_BASE..BUFFER_BASE + BLOCK_SIZE] == buffer
      modifies this`ram
      ensures Valid() && CurrentInode() == InodeAt(buffer, INODE_SIZE * offset as int)
      ensures forall a | 0 <= a < RAM_SIZE && !(INODE_BASE <= a < INODE_BASE + INODE_SIZE) :: ram[a] == old(ram)[a]
    {
      var at := INODE_SIZE * offset as int;
      var record := ram[BUFFER_BASE + at..BUFFER_BASE + at + INODE_SIZE];
      SliceOfSlice(ram, BUFFER_BASE, BUFFER_BASE + BLOCK_SIZE, at, at + INODE_SIZE);
      ram := Overwrite(ram, INODE_BASE, record);
      assert ram[INODE_BASE..INODE_BASE + INODE_SIZE] == record;
    }

    /** Step 6: the inode's block into the buffer, and its record to its place. */
    method LoadKernelInode(number: u16)
      requires Valid() && number > 0 && LoadedBlock(Table(), number) < |disk|
      modifies this`ram
      ensures Valid()
      ensures CurrentInode() == InodeAt(disk[LoadedBlock(old(Table()), number)], InodeOffset(number))
    {
      var table := Table();
      var block: u16 := (number - 1) / 32;
      var offset: u16 := (number - 1) % 32;
      var sum: u16 := Wrap16(block as int + table as int);
      var sectors: u16 := Wrap16(2 * sum as int);
      ghost var buffer := disk[LoadedBlock(table, number)];
      StepSix(table, number);
      TwoSectors(LoadedBlock(table, number), sectors);
      LoadSectors(sectors as int + sector as int);
      BufferHolds(old(ram), buffer);
      CopyRecord(offset, buffer);
    }

    /** rep movsb: the buffer to segment:offset, byte by byte. */
    method CopyBuffer(segment: u16, offset: u16, ghost block: Block)
      requires Valid() && ram[BUFFER_BASE..BUFFER_BASE + BLOCK_SIZE] == block
      requires KERNEL_BASE <= 16 * segment as int + offset as int <= RAM_SIZE - BLOCK_SIZE && offset < 16
      modifies this`ram
      ensures Valid() && ram == Overwrite(old(ram), 16 * segment as int + offset as int, block)
    {
      ghost var ram0, to := ram, 16 * segment as int + offset as int;
      var cx := 0;
      while cx < 1024
        invariant 0 <= cx <= 1024 && |ram| == RAM_SIZE
        invariant forall a | 0 <= a < RAM_SIZE ::
                    ram[a] == if to <= a < to + cx then block[a - to] else ram0[a]
      {
        assert ram0[BUFFER_BASE + cx] == block[cx];
        ram := ram[16 * segment as int + offset as int + cx := ram[BUFFER_BASE + cx]];
        cx := cx + 1;
      }
      assert ram == Overwrite(ram0, to, block);
    }

    /** Step 7: the zones of the kernel, one after another, to consecutive memory. */
    method LoadKernel(ghost bytes: seq<u8>)
      requires Valid() && |bytes| <= MAX_KERNEL && CurrentInode().size == |bytes|
      requires forall b: nat | b < BlockCount(|bytes|) :: Reads(disk, CurrentInode().zones, b, Chunk(bytes, b))
      modifies this`ram
      ensures Valid() && BlocksLoaded(ram, bytes, BlockCount(|bytes|))
    {
      ghost var n, inode := BlockCount(|bytes|), CurrentInode();
      var index: u16 := 0;
      InodeSizeWord(ram);
      while Signed32(FromBytes4(ram, INODE_BASE + SIZE_OFFSET)) > index as int * BLOCK_SIZE
        invariant 0 <= index <= n && Valid()
        invariant CurrentInode() == inode && FromBytes4(ram, INODE_BASE + SIZE_OFFSET) == |bytes|
        invariant BlocksLoaded(ram, bytes, index)
        decreases n - index
      {
        LoadBlock(index, bytes);
        index := index + 1;
      }
      assert index == n;
    }

    /** The block in the buffer goes to its place in the kernel, by segment and offset. */
    method PlaceBlock(index: u16, ghost block: Block)
      requires Valid() && ram[BUFFER_BASE..BUFFER_BASE + BLOCK_SIZE] == block
      requires KERNEL_BASE + BLOCK_SIZE * (index as int + 1) <= RAM_SIZE
      modifies this`ram
      ensures Valid() && ram == Overwrite(old(ram), KERNEL_BASE + BLOCK_SIZE * index as int, block)
    {
      var linear: u32 := index as int * BLOCK_SIZE + KERNEL_BASE;
      var di: u16 := linear % 16;
      var es: u16 := linear / 16;
      assert 16 * es as int + di as int == KERNEL_BASE + BLOCK_SIZE * index as int;
      CopyBuffer(es, di, block);
    }

    /** A block of the file into the buffer. */
    method FetchBlock(index: u16, ghost block: Block)
      requires Valid() && index as int * BLOCK_SIZE < CurrentInode().size as int <= MAX_KERNEL
      requires Reads(disk, CurrentInode().zones, index, block)
      modifies this`ram
      ensures Valid() && ram == Overwrite(old(ram), BUFFER_BASE, block)
    {
      LoadedZoneIs(disk, ram, index);
      var ok := LoadZone(index);
      assert ok;
    }

    /** One turn of step 7. */
    method LoadBlock(index: u16, ghost bytes: seq<u8>)
      requires Valid() && index < BlockCount(|bytes|) && |bytes| <= MAX_KERNEL
      requires CurrentInode().size == |bytes| && BlocksLoaded(ram, bytes, index)
      requires Reads(disk, CurrentInode().zones, index, Chunk(bytes, index))
      modifies this`ram
      ensures Valid() && CurrentInode() == old(CurrentInode()) && BlocksLoaded(ram, bytes, index + 1)
      ensures FromBytes4(ram, INODE_BASE + SIZE_OFFSET) == |bytes|
    {
      FetchBlock(index, Chunk(bytes, index));
      BufferHolds(old(ram), Chunk(bytes, index));
      PlaceBlock(index, Chunk(bytes, index));
      BlockPlaced(old(ram), bytes, index);
    }

    /** The kernel is in memory, byte for byte, if it is in the table that the superblock on disk describes. */
    method Boot(number: u16, ghost bytes: seq<u8>)
      requires Valid() && number > 0 && |disk| > 1
      requires var table := SuperblockAt(disk[1]).Table();
               && InodeBlock(table, number) < |disk| && InodeBlock(table, number) < 0x8000
               && Installed(disk, table, number, bytes)
      requires |bytes| <= MAX_KERNEL
      modifies this`ram
      ensures Valid() && ram[KERNEL_BASE..KERNEL_BASE + |bytes|] == bytes
    {
      ghost var sb := SuperblockAt(disk[1]);
      LoadSuperblock();
      FindTable();
      SmallWord(sb.Table());
      LoadKernelInode(number);
      LoadKernel(bytes);
      AllLoaded(ram, bytes);
    }
  }

  lemma SmallWord(x: nat)
    ensures x < 0x1_0000 ==> x % 0x1_0000 == x
  {
  }

  lemma TableSum(imapBlocks: u16, zmapBlocks: u16)
    ensures Wrap16(Wrap16(2 + imapBlocks as int) as int + zmapBlocks as int)
         == (2 + imapBlocks as int + zmapBlocks as int) % 0x1_0000
  {
  }

  lemma WordReadsBack(w: u16)
    ensures FromBytes2(Bytes2(w), 0) == w
  {
  }

  /** The zone of block b, and every index block on the way to it, is on the disk. */
  ghost predicate Reachable(disk: Disk, zones: ZoneTable, b: nat)
    requires b < MAX_BLOCKS
  {
    Reads(disk, zones, b, BlockAt(disk, ZoneOf(disk, zones, Data(b))))
  }

  /** The size in the record of the current inode. */
  lemma InodeSizeWord(ram: seq<u8>)
    requires |ram| == RAM_SIZE
    ensures FromBytes4(ram, INODE_BASE + SIZE_OFFSET) == InodeAt(ram, INODE_BASE).size
  {
    var record := ram[INODE_BASE..INODE_BASE + INODE_SIZE];
    assert FromBytes4(record, SIZE_OFFSET) == FromBytes4(ram, INODE_BASE + SIZE_OFFSET);
  }

  /** Bytes behind the current inode do not belong to it. */
  lemma InodeKept(ram: seq<u8>, at: nat, bytes: seq<u8>)
    requires |ram| == RAM_SIZE && BUFFER_BASE <= at && at + |bytes| <= RAM_SIZE
    ensures InodeAt(Overwrite(ram, at, bytes), INODE_BASE) == InodeAt(ram, INODE_BASE)
  {
    var ram1 := Overwrite(ram, at, bytes);
    assert ram1[INODE_BASE..INODE_BASE + INODE_SIZE] == ram[INODE_BASE..INODE_BASE + INODE_SIZE];
  }

  /** One turn of step 7 on the memory: one block more, and the current inode as before. */
  lemma BlockPlaced(ram: seq<u8>, bytes: seq<u8>, n: nat)
    requires BlocksLoaded(ram, bytes, n) && KERNEL_BASE + BLOCK_SIZE * (n + 1) <= RAM_SIZE
    ensures var ram1 := Overwrite(Overwrite(ram, BUFFER_BASE, Chunk(bytes, n)),
                                  KERNEL_BASE + BLOCK_SIZE * n, Chunk(bytes, n));
            && BlocksLoaded(ram1, bytes, n + 1)
            && InodeAt(ram1, INODE_BASE) == InodeAt(ram, INODE_BASE)
            && FromBytes4(ram1, INODE_BASE + SIZE_OFFSET) == InodeAt(ram, INODE_BASE).size
  {
    var block := Chunk(bytes, n);
    var ram0 := Overwrite(ram, BUFFER_BASE, block);
    OneMoreBlock(ram, bytes, n, block);
    InodeKept(ram, BUFFER_BASE, block);
    InodeKept(ram0, KERNEL_BASE + BLOCK_SIZE * n, block);
    InodeSizeWord(Overwrite(ram0, KERNEL_BASE + BLOCK_SIZE * n, block));
  }

  lemma TwoSectors(zone: nat, d: int)
    requires d == 2 * zone
    ensures d % 2 == 0 && d / 2 == zone
  {
  }

  /** Word i of the zone table of the current inode. */
  lemma InodeZoneWord(ram: seq<u8>, i: nat)
    requires |ram| == RAM_SIZE && i < 9
    ensures FromBytes2(ram, INODE_BASE + ZONES_OFFSET + 2 * i) == InodeAt(ram, INODE_BASE).zones[i]
  {
    var record := ram[INODE_BASE..INODE_BASE + INODE_SIZE];
    assert FromBytes2(record, ZONES_OFFSET + 2 * i) == FromBytes2(ram, INODE_BASE + ZONES_OFFSET + 2 * i);
  }

  lemma SliceOfSlice(s: seq<u8>, a: nat, b: nat, c: nat, d: nat)
    requires a <= b <= |s| && c <= d <= b - a
    ensures s[a..b][c..d] == s[a + c..a + d]
  {
    var t, u, v := s[a..b], s[a..b][c..d], s[a + c..a + d];
    assert |u| == |v|;
    forall i | 0 <= i < d - c
      ensures u[i] == v[i]
    {
      assert t[c + i] == s[a + (c + i)];
      assert v[i] == s[(a + c) + i];
    }
  }

  lemma BufferHolds(ram: seq<u8>, block: Block)
    requires |ram| == RAM_SIZE
    ensures Overwrite(ram, BUFFER_BASE, block)[BUFFER_BASE..BUFFER_BASE + BLOCK_SIZE] == block
  {
  }

  /** Word i of the block in the buffer, and what loading another block over it leaves. */
  lemma BufferWord(ram: seq<u8>, block: Block, i: nat, other: Block)
    requires |ram| == RAM_SIZE && i < WORDS_PER_BLOCK
    ensures FromBytes2(Overwrite(ram, BUFFER_BASE, block), BUFFER_BASE + 2 * i) == Word(block, i)
    ensures Overwrite(Overwrite(ram, BUFFER_BASE, block), BUFFER_BASE, other) == Overwrite(ram, BUFFER_BASE, other)
  {
  }
}
