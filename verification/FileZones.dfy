/** What happens to the zone map and the disk while a file grows or shrinks. */
module FileZones {
  import opened Words
  import opened Blocks
  import opened ZoneTree

  /** The superblock fields the installer works with. */
  datatype Superblock = Superblock(inodes: u16, nzones: u16, imapBlocks: u16, zmapBlocks: u16, firstDataZone: u16) {
    /** The first block of the inode table. */
    function Table(): nat {
      2 + imapBlocks as int + zmapBlocks as int
    }

    /** Bit k of the zone map stands for zone firstDataZone + k, which is on the device. */
    ghost predicate Fits(blocks: nat) {
      firstDataZone as int + nzones as int <= blocks && firstDataZone as int + nzones as int <= U16_LIMIT
    }
  }

  /** The superblock in its block, the one with number 1. */
  function SuperblockAt(b: Block): Superblock {
    Superblock(FromBytes2(b, 0), FromBytes2(b, 2), FromBytes2(b, 4), FromBytes2(b, 6), FromBytes2(b, 8))
  }

  /** Its fields, two bytes each with the low one first. */
  lemma SuperblockLayout(b: Block)
    ensures var sb := SuperblockAt(b);
            && sb.inodes == b[0] + 0x100 * b[1] as int && sb.nzones == b[2] + 0x100 * b[3] as int
            && sb.imapBlocks == b[4] + 0x100 * b[5] as int && sb.zmapBlocks == b[6] + 0x100 * b[7] as int
            && sb.firstDataZone == b[8] + 0x100 * b[9] as int
  {
  }

  /** Zones not in use. */
  ghost function FreeZones(bits: seq<bool>): nat {
    if bits == [] then 0 else FreeZones(bits[..|bits| - 1]) + if bits[|bits| - 1] then 0 else 1
  }

  lemma {:induction false} TakingOneZone(bits: seq<bool>, k: nat)
    requires k < |bits| && !bits[k]
    ensures FreeZones(bits) == FreeZones(bits[k := true]) + 1
  {
    var n := |bits| - 1;
    if k < n {
      TakingOneZone(bits[..n], k);
      assert bits[k := true][..n] == bits[..n][k := true];
    } else {
      assert bits[k := true][..n] == bits[..n];
    }
  }

  lemma {:induction false} NoneFree(bits: seq<bool>)
    requires forall k | 0 <= k < |bits| :: bits[k]
    ensures FreeZones(bits) == 0
  {
    if bits != [] {
      NoneFree(bits[..|bits| - 1]);
    }
  }

  lemma {:induction false} FreeZonesOfPart(bits: seq<bool>, i: nat)
    requires i <= |bits|
    ensures FreeZones(bits[..i]) <= FreeZones(bits)
  {
    if i < |bits| {
      var front := bits[..|bits| - 1];
      FreeZonesOfPart(front, i);
      assert front[..i] == bits[..i];
    } else {
      assert bits[..i] == bits;
    }
  }

  /** Zone z is one of the zones of the map, and is in use. */
  ghost predicate Taken(sb: Superblock, bits: seq<bool>, z: u16) {
    sb.firstDataZone <= z && z - sb.firstDataZone < |bits| && bits[z - sb.firstDataZone]
  }

  /** Zone z is one of the zones of the map, and is free. */
  ghost predicate Available(sb: Superblock, bits: seq<bool>, z: u16) {
    sb.firstDataZone <= z && z - sb.firstDataZone < |bits| && !bits[z - sb.firstDataZone]
  }

  /** The zones of a file are data zones in use. */
  ghost predicate ZonesTaken(sb: Superblock, bits: seq<bool>, own: Owners) {
    |bits| == sb.nzones && forall z | z in own :: Taken(sb, bits, z)
  }

  /**
   * From one state of a file to a later one: it got zones that were free, these are now
   * in use, and only its index blocks were written.
   */
  ghost predicate Extends(sb: Superblock, disk0: Disk, bits0: seq<bool>, own0: Owners,
                          disk1: Disk, bits1: seq<bool>, own1: Owners)
  {
    && |disk1| == |disk0| && |bits0| == |bits1| == sb.nzones
    && (forall z | z in own0 :: z in own1 && own1[z] == own0[z])
    && (forall z | z in own1 && z !in own0 :: Available(sb, bits0, z))
    && (forall z: u16 :: Taken(sb, bits1, z) <==> Taken(sb, bits0, z) || (z in own1 && z !in own0))
    && (forall z: nat | z < |disk0| && (z in own1 ==> own1[z].Data?) :: disk1[z] == disk0[z])
  }

  lemma ExtendsTransitive(sb: Superblock, disk0: Disk, bits0: seq<bool>, own0: Owners,
                          disk1: Disk, bits1: seq<bool>, own1: Owners,
                          disk2: Disk, bits2: seq<bool>, own2: Owners)
    requires Extends(sb, disk0, bits0, own0, disk1, bits1, own1)
    requires Extends(sb, disk1, bits1, own1, disk2, bits2, own2)
    ensures Extends(sb, disk0, bits0, own0, disk2, bits2, own2)
  {
    forall z: nat | z < |disk0| && (z in own2 ==> own2[z].Data?) ensures disk2[z] == disk0[z] {
      assert disk2[z] == disk1[z];
    }
    forall z | z in own2 && z !in own0 ensures Available(sb, bits0, z) {
      if z !in own1 {
        assert Available(sb, bits1, z);
        assert Taken(sb, bits1, z) <==> Taken(sb, bits0, z) || (z in own1 && z !in own0);
      }
    }
  }

  /** Recording a free zone for a new role extends the file by exactly that. */
  lemma RecordingExtends(sb: Superblock, disk: Disk, bits: seq<bool>, zones: ZoneTable, own: Owners, r: Role, z: u16)
    requires sb.Fits(|disk|) && Tree(disk, zones, own) && ZonesTaken(sb, bits, own) && RoleOk(r)
    requires !HasRole(own, r) && (Parent(r).Some? ==> HasRole(own, Parent(r).value))
    requires Available(sb, bits, z)
    ensures var disk1, bits1, own1 := BindDisk(disk, zones, r, z), bits[z - sb.firstDataZone := true], own[z := r];
            && z !in own
            && Tree(disk1, BindTable(zones, r, z), own1)
            && ZonesTaken(sb, bits1, own1)
            && Extends(sb, disk, bits, own, disk1, bits1, own1)
  {
    var disk1, bits1, own1 := BindDisk(disk, zones, r, z), bits[z - sb.firstDataZone := true], own[z := r];
    BindKeepsTree(disk, zones, own, r, z);
    if Parent(r).Some? {
      RoleInPlace(disk, zones, own, Parent(r).value);
      assert !Parent(r).value.Data?;
      assert ZoneOf(disk, zones, Parent(r).value) in own1;
    }
    assert z !in own by {
      assert z in own ==> Taken(sb, bits, z);
    }
    forall y: u16 ensures Taken(sb, bits1, y) <==> Taken(sb, bits, y) || y == z {
    }
  }

  /**
   * From bits0, the zones of the roles born below i and of the extra roles were given
   * back, and nothing else changed.
   */
  ghost predicate Released(sb: Superblock, bits0: seq<bool>, own: Owners, i: nat, extra: set<Role>, bits: seq<bool>) {
    && |bits| == |bits0|
    && forall z: u16 :: Taken(sb, bits, z) <==>
         Taken(sb, bits0, z) && !(z in own && (Birth(own[z]) < i || own[z] in extra))
  }

  /** Giving back the zone of one more role. */
  lemma ReleaseOne(sb: Superblock, bits0: seq<bool>, own: Owners, i: nat, extra: set<Role>, bits: seq<bool>, z: u16,
                   disk: Disk, zones: ZoneTable)
    requires Tree(disk, zones, own) && ZonesTaken(sb, bits0, own) && Released(sb, bits0, own, i, extra, bits)
    requires z in own && Birth(own[z]) >= i && own[z] !in extra
    ensures Taken(sb, bits, z)
    ensures Released(sb, bits0, own, i, extra + {own[z]}, bits[z - sb.firstDataZone := false])
  {
    assert Taken(sb, bits0, z) && Taken(sb, bits, z);
    var bits1 := bits[z - sb.firstDataZone := false];
    forall y: u16
      ensures Taken(sb, bits1, y) <==>
              Taken(sb, bits0, y) && !(y in own && (Birth(own[y]) < i || own[y] in extra + {own[z]}))
    {
      assert Taken(sb, bits1, y) <==> Taken(sb, bits, y) && y != z;
      if y in own && own[y] == own[z] {
        assert InPlace(disk, zones, own, y) && InPlace(disk, zones, own, z);
      }
    }
  }

  /** Once all the roles born at i are given back, those born below i + 1 are. */
  lemma ReleasedNext(sb: Superblock, bits0: seq<bool>, own: Owners, i: nat, extra: set<Role>, bits: seq<bool>)
    requires Released(sb, bits0, own, i, extra, bits)
    requires forall z | z in own :: own[z] in extra <==> Birth(own[z]) == i
    ensures Released(sb, bits0, own, i + 1, {}, bits)
  {
  }

  /** How a block under the double-indirect zone is found. */
  lemma DoubleZones(disk: Disk, zones: ZoneTable, n: nat)
    requires DOUBLE_START <= n < MAX_BLOCKS
    ensures var q := (n - DOUBLE_START) / WORDS_PER_BLOCK;
            && Parent(Data(n)) == Some(Second(q)) && Slot(Data(n)) == (n - DOUBLE_START) % WORDS_PER_BLOCK
            && q < WORDS_PER_BLOCK
            && ZoneOf(disk, zones, Second(q)) == Word(BlockAt(disk, zones[8]), q)
            && ZoneOf(disk, zones, Data(n))
               == Word(BlockAt(disk, ZoneOf(disk, zones, Second(q))), (n - DOUBLE_START) % WORDS_PER_BLOCK)
  {
  }

  /** The blocks a file of `size` bytes has. */
  function BlockCount(size: nat): nat {
    size / BLOCK_SIZE + if size % BLOCK_SIZE > 0 then 1 else 0
  }

  /** They hold the bytes, and one block fewer would not. */
  lemma BlockCountIs(size: nat)
    ensures size <= BLOCK_SIZE * BlockCount(size) < size + BLOCK_SIZE
  {
  }
}
