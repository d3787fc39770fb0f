/** Install, then boot: the kernel that starts is the kernel that was installed. */
module InstallBoot {
  import opened Words
  import opened Blocks
  import opened ZoneTree
  import opened InodeTable
  import opened FileZones
  import opened KernelFile
  import opened Installer
  import opened BootLoader

  /**
   * The installer stores the kernel as inode `number` of a partition, and the machine
   * then boots from it: the bytes at KERNEL_BASE are the bytes installed, for every
   * kernel that fits the partition and the memory. The installer works with the superblock
   * in block 1, and the machine reads it from there again.
   */
  method InstallThenBoot(tool: Installer, number: u16, blank: Inode, bytes: seq<u8>, sector: u32, ram: seq<u8>)
    returns (ok: bool, boot: BootLoader)
    requires tool.Valid() && number > 0 && InodeBlock(tool.sb.Table(), number) < tool.sb.firstDataZone
    requires InodeBlock(tool.sb.Table(), number) < 0x8000 && tool.sb == SuperblockAt(tool.disk[1])
    requires blank.size == 0 && 0 < |bytes| <= MAX_KERNEL
    requires |ram| == RAM_SIZE && sector as int + 2 * |tool.disk| <= U32_LIMIT
    modifies tool
    ensures ok == (FreeZones(old(tool.Bits())) >= Precheck(BlockCount(|bytes|)))
    ensures ok ==> |boot.ram| == RAM_SIZE && boot.ram[KERNEL_BASE..KERNEL_BASE + |bytes|] == bytes
  {
    var inode;
    ok, inode := tool.WriteKernel(number, blank, bytes);
    boot := new BootLoader(sector, tool.disk, ram);
    if ok {
      boot.Boot(number, bytes);
    }
  }

  /**
   * The boot loader and the installer look up the same block of the same inode. Below index
   * 0x8000, where the boot loader does not halt, the installer finds the zone that it has
   * loaded. The two differ in what they refuse: the installer accepts the block index right
   * behind the end of a file that fills its last block, and the boot loader takes any file
   * of 2 GB as empty.
   */
  method LookupsAgree(tool: Installer, boot: BootLoader, zone: u16) returns (ok: bool, found: bool, z: u16)
    requires boot.Valid() && boot.disk == tool.disk
    requires zone as int * BLOCK_SIZE <= boot.CurrentInode().size ==>
               Reachable(tool.disk, boot.CurrentInode().zones, zone) && OnDisk(tool.disk, boot.ram, zone)
    modifies boot`ram
    ensures boot.Valid()
    ensures ok ==> found && LoadedZone(tool.disk, old(boot.ram), zone) as int < |tool.disk|
                   && boot.ram == Overwrite(old(boot.ram), BUFFER_BASE,
                                            tool.disk[LoadedZone(tool.disk, old(boot.ram), zone)])
    ensures ok && zone < 0x8000 ==> z == LoadedZone(tool.disk, old(boot.ram), zone)
    ensures !ok ==> boot.ram == old(boot.ram)
    ensures var size := old(boot.CurrentInode()).size;
            (ok == found) <==> size < 0x8000_0000 && zone as int * BLOCK_SIZE != size
  {
    var inode := boot.CurrentInode();
    if zone < 0x8000 {
      LoadedZoneIs(tool.disk, boot.ram, zone);
    }
    ok := boot.LoadZone(zone);
    found, z := tool.FileBlockToBlock(inode, zone);
  }

  /** The lookups differ on a file of one full block, at index 1. */
  method LookupsDiffer(tool: Installer, boot: BootLoader) returns (ok: bool, found: bool, z: u16)
    requires boot.Valid() && boot.disk == tool.disk && boot.CurrentInode().size == 1024
    requires Reachable(tool.disk, boot.CurrentInode().zones, 1)
    modifies boot`ram
    ensures !ok && found
  {
    LoadedZoneIs(tool.disk, boot.ram, 1);
    ok, found, z := LookupsAgree(tool, boot, 1);
  }

  /**
   * The installer stores a file, loads its inode again and truncates it: the zone map is what it was,
   * if and only if truncation is told the number of blocks the file has.
   */
  method InstallThenTruncate(tool: Installer, number: nat, blank: Inode, bytes: seq<u8>, fb: nat) returns (ok: bool)
    requires tool.Valid() && number > 0 && InodeBlock(tool.sb.Table(), number) < tool.sb.firstDataZone
    requires blank.size == 0 && |bytes| > 0 && fb <= BlockCount(|bytes|) <= MAX_BLOCKS
    modifies tool
    ensures ok == (FreeZones(old(tool.Bits())) >= Precheck(BlockCount(|bytes|)))
    ensures ok ==> tool.Valid() && (tool.Bits() == old(tool.Bits()) <==> fb == BlockCount(|bytes|))
  {
    ghost var bits0 := tool.Bits();
    var inode;
    ok, inode := tool.WriteKernel(number, blank, bytes);
    if ok {
      ghost var bits1, own := tool.Bits(), inode.own;
      var stored := tool.LoadInode(number);
      var loaded := new OpenInode(stored);
      loaded.own := own;
      tool.TruncInode(loaded, fb, BlockCount(|bytes|));
      TruncationRestoresIff(tool.sb, bits0, own, BlockCount(|bytes|), bits1, fb, tool.Bits());
    }
  }
}
