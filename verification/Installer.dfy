/** The installer of minix.c: growing, reading and truncating files of a MINIX partition. */
module Installer {
  import opened Words
  import opened Blocks
  import opened ZoneBitmap
  import opened ZoneTree
  import opened InodeTable
  import opened FileZones
  import opened KernelFile

  /** An inode in memory, with the role of each of its zones. */
  class OpenInode {
    var v: Inode
    ghost var own: Owners

    constructor (v: Inode)
      ensures this.v == v && own == map[]
    {
      this.v, own := v, map[];
    }
  }

  class Installer {
    const sb: Superblock
    var disk: Disk
    var zonesMap: seq<bv8>

    constructor (sb: Superblock, disk: Disk, zonesMap: seq<bv8>)
      ensures this.sb == sb && this.disk == disk && this.zonesMap == zonesMap
    {
      this.sb, this.disk, this.zonesMap := sb, disk, zonesMap;
    }

    ghost predicate Valid()
      reads this
    {
      sb.Fits(|disk|) && sb.nzones <= 8 * |zonesMap|
    }

    ghost function Bits(): (bits: seq<bool>)
      reads this
      requires Valid()
      ensures |bits| == sb.nzones
    {
      ToBits(zonesMap, sb.nzones)
    }

    ghost predicate FileOk(inode: OpenInode)
      reads this, inode
      requires Valid()
    {
      Tree(disk, inode.v.zones, inode.own) && ZonesTaken(sb, Bits(), inode.own)
    }

    /** Takes the first free zone; ok is false where the program ends with no space left. */
    method TakeZone() returns (ok: bool, ghost k: nat, z: u16)
      requires Valid()
      modifies this`zonesMap
      ensures Valid()
      ensures !ok ==> zonesMap == old(zonesMap) && FreeZones(Bits()) == 0
      ensures ok ==>
                && k < sb.nzones && z == sb.firstDataZone + k
                && !old(Bits())[k] && (forall i | 0 <= i < k :: old(Bits())[i])
                && Bits() == old(Bits())[k := true]
                && FreeZones(Bits()) + 1 == FreeZones(old(Bits()))
    {
      ghost var bits0 := Bits();
      var j := 0;
      while j < sb.nzones && BitAt(zonesMap, j)
        invariant zonesMap == old(zonesMap) && 0 <= j <= sb.nzones
        invariant forall i | 0 <= i < j :: bits0[i]
      {
        ToBitsAt(zonesMap, sb.nzones, j);
        j := j + 1;
      }
      k := j;
      if j == sb.nzones {
        NoneFree(bits0);
        return false, k, 0;
      }
      ToBitsAt(zonesMap, sb.nzones, j);
      ToBitsWrite(zonesMap, sb.nzones, j);
      TakingOneZone(bits0, j);
      zonesMap := WithBitSet(zonesMap, j);
      return true, k, sb.firstDataZone + j;
    }

    /** Writes a zone number to its place in the inode or in an index block. */
    method Note(inode: OpenInode, container: Option<u16>, slot: nat, z: u16, ghost r: Role)
      requires RoleOk(r) && slot == Slot(r)
      requires container == match Parent(r) case None => None case Some(p) => Some(ZoneOf(disk, inode.v.zones, p))
      requires container.Some? ==> container.value < |disk|
      modifies this`disk, inode`v
      ensures disk == BindDisk(old(disk), old(inode.v).zones, r, z)
      ensures inode.v == old(inode.v).(zones := BindTable(old(inode.v).zones, r, z))
    {
      if container.Some? {
        disk := disk[container.value := SetWord(disk[container.value], slot, z)];
      } else {
        inode.v := inode.v.(zones := inode.v.zones[slot := z]);
      }
    }

    /**
     * Takes a zone for role r and records it: in the inode's table, or in the index
     * block `container`, at place `slot`.
     */
    method RecordZone(inode: OpenInode, container: Option<u16>, slot: nat, ghost r: Role) returns (ok: bool, z: u16)
      requires Valid() && FileOk(inode) && RoleOk(r)
      requires !HasRole(inode.own, r) && (Parent(r).Some? ==> HasRole(inode.own, Parent(r).value))
      requires slot == Slot(r)
      requires container == match Parent(r) case None => None case Some(p) => Some(ZoneOf(disk, inode.v.zones, p))
      modifies this, inode
      ensures Valid() && inode.v == old(inode.v).(zones := inode.v.zones)
      ensures !ok ==> FreeZones(old(Bits())) == 0
      ensures ok ==>
                && FileOk(inode) && inode.own == old(inode.own)[z := r] && z !in old(inode.own)
                && Extends(sb, old(disk), old(Bits()), old(inode.own), disk, Bits(), inode.own)
                && FreeZones(Bits()) + 1 == FreeZones(old(Bits()))
    {
      ghost var disk0, bits0, own0, zones0 := disk, Bits(), inode.own, inode.v.zones;
      ghost var k;
      ok, k, z := TakeZone();
      if !ok {
        return;
      }
      RecordingExtends(sb, disk0, bits0, zones0, own0, r, z);
      if Parent(r).Some? {
        RoleInPlace(disk0, zones0, own0, Parent(r).value);
      }
      Note(inode, container, slot, z, r);
      inode.own := own0[z := r];
    }

    /** The state AddFileBlock leaves once it recorded all the roles born at n. */
    ghost predicate Added(inode: OpenInode, n: nat, z: u16, disk0: Disk, bits0: seq<bool>, own0: Owners)
      reads this, inode
      requires Valid()
    {
      && FileOk(inode)
      && Complete(inode.own, n + 1)
      && z in inode.own && inode.own[z] == Data(n)
      && Extends(sb, disk0, bits0, own0, disk, Bits(), inode.own)
      && FreeZones(Bits()) + NewZones(n) == FreeZones(bits0)
    }

    /** Block n below the indirect zones: its zone goes into the inode. */
    method AddDirect(inode: OpenInode, n: nat) returns (ok: bool, z: u16)
      requires Valid() && FileOk(inode) && Complete(inode.own, n) && n < DIRECT
      modifies this, inode
      ensures Valid() && inode.v == old(inode.v).(zones := inode.v.zones)
      ensures ok == (FreeZones(old(Bits())) >= NewZones(n))
      ensures ok ==> Added(inode, n, z, old(disk), old(Bits()), old(inode.own))
    {
      ghost var own0 := inode.own;
      ok, z := RecordZone(inode, None, n, Data(n));
      if ok {
        RoleAdded(own0, z, Data(n), Data(n));
        CompleteNext(own0, inode.own, n);
      }
    }

    /** Block n of the single-indirect zone, which is taken first if n is its first block. */
    method AddSingle(inode: OpenInode, n: nat) returns (ok: bool, z: u16)
      requires Valid() && FileOk(inode) && Complete(inode.own, n) && DIRECT <= n < DOUBLE_START
      modifies this, inode
      ensures Valid() && inode.v == old(inode.v).(zones := inode.v.zones)
      ensures ok == (FreeZones(old(Bits())) >= NewZones(n))
      ensures ok ==> Added(inode, n, z, old(disk), old(Bits()), old(inode.own))
    {
      ghost var disk0, bits0, own0 := disk, Bits(), inode.own;
      if n == DIRECT {
        ok, z := RecordZone(inode, None, 7, Single);
        if !ok {
          return;
        }
        RoleAdded(own0, z, Single, Single);
        RoleAdded(own0, z, Single, Data(n));
      }
      ghost var disk1, bits1, own1 := disk, Bits(), inode.own;
      assert HasRole(own1, Single);
      ok, z := RecordZone(inode, Some(inode.v.zones[7]), n - 7, Data(n));
      if ok {
        RoleAdded(own1, z, Data(n), Data(n));
        RoleAdded(own1, z, Data(n), Single);
        CompleteNext(own0, inode.own, n);
        if n == DIRECT {
          ExtendsTransitive(sb, disk0, bits0, own0, disk1, bits1, own1, disk, Bits(), inode.own);
        }
      }
    }

    /** The index zones that block n makes necessary are recorded, and no other zone is new. */
    ghost predicate Indexed(inode: OpenInode, n: nat, disk0: Disk, bits0: seq<bool>, own0: Owners)
      reads this, inode
      requires Valid()
    {
      && FileOk(inode) && HasRole(inode.own, Double) && !HasRole(inode.own, Data(n))
      && (forall z | z in inode.own && z !in own0 :: Birth(inode.own[z]) == n)
      && Extends(sb, disk0, bits0, own0, disk, Bits(), inode.own)
    }

    /** Takes the double-indirect zone. */
    method AddDoubleZone(inode: OpenInode) returns (ok: bool)
      requires Valid() && FileOk(inode) && Complete(inode.own, DOUBLE_START)
      modifies this, inode
      ensures Valid() && inode.v == old(inode.v).(zones := inode.v.zones)
      ensures ok == (FreeZones(old(Bits())) >= 1)
      ensures ok ==>
                && Indexed(inode, DOUBLE_START, old(disk), old(Bits()), old(inode.own))
                && !HasRole(inode.own, Second(0))
                && FreeZones(Bits()) + 1 == FreeZones(old(Bits()))
    {
      ghost var own0 := inode.own;
      var z;
      ok, z := RecordZone(inode, None, 8, Double);
      if ok {
        RoleAdded(own0, z, Double, Double);
        RoleAdded(own0, z, Double, Second(0));
        RoleAdded(own0, z, Double, Data(DOUBLE_START));
      }
    }

    /** Takes the second-level zone that starts with block n. */
    method AddSecondZone(inode: OpenInode, n: nat) returns (ok: bool)
      requires Valid() && FileOk(inode) && DOUBLE_START <= n < MAX_BLOCKS
      requires (n - DOUBLE_START) % WORDS_PER_BLOCK == 0 && !HasRole(inode.own, Data(n))
      requires HasRole(inode.own, Double) && !HasRole(inode.own, Second((n - DOUBLE_START) / WORDS_PER_BLOCK))
      modifies this, inode
      ensures Valid() && inode.v == old(inode.v).(zones := inode.v.zones)
      ensures ok == (FreeZones(old(Bits())) >= 1)
      ensures ok ==>
                && Indexed(inode, n, old(disk), old(Bits()), old(inode.own))
                && HasRole(inode.own, Second((n - DOUBLE_START) / WORDS_PER_BLOCK))
                && FreeZones(Bits()) + 1 == FreeZones(old(Bits()))
    {
      ghost var own0 := inode.own;
      ghost var second := Second((n - DOUBLE_START) / WORDS_PER_BLOCK);
      var z;
      ok, z := RecordZone(inode, Some(inode.v.zones[8]), (n - 7 - 512) / 512, second);
      if ok {
        RoleAdded(own0, z, second, Double);
        RoleAdded(own0, z, second, second);
        RoleAdded(own0, z, second, Data(n));
      }
    }

    /** Takes the double-indirect zone if n is its first block, and a second-level zone when one starts. */
    method AddIndexes(inode: OpenInode, n: nat) returns (ok: bool)
      requires Valid() && FileOk(inode) && Complete(inode.own, n) && DOUBLE_START <= n < MAX_BLOCKS
      modifies this, inode
      ensures Valid() && inode.v == old(inode.v).(zones := inode.v.zones)
      ensures ok == (FreeZones(old(Bits())) >= NewZones(n) - 1)
      ensures ok ==>
                && Indexed(inode, n, old(disk), old(Bits()), old(inode.own))
                && HasRole(inode.own, Second((n - DOUBLE_START) / WORDS_PER_BLOCK))
                && FreeZones(Bits()) + NewZones(n) - 1 == FreeZones(old(Bits()))
    {
      ghost var disk0, bits0, own0 := disk, Bits(), inode.own;
      ok := true;
      if n == 7 + 512 {
        ok := AddDoubleZone(inode);
        if !ok {
          return;
        }
      }
      ghost var disk1, bits1, own1 := disk, Bits(), inode.own;
      if (n - 7 + 512) % 512 == 0 {
        ok := AddSecondZone(inode, n);
        if ok && n == DOUBLE_START {
          ExtendsTransitive(sb, disk0, bits0, own0, disk1, bits1, own1, disk, Bits(), inode.own);
        }
      }
    }

    /** Takes the zone for block n and records it in its second-level index zone. */
    method RecordUnderDouble(inode: OpenInode, n: nat) returns (ok: bool, z: u16)
      requires Valid() && FileOk(inode) && DOUBLE_START <= n < MAX_BLOCKS && !HasRole(inode.own, Data(n))
      requires HasRole(inode.own, Double) && HasRole(inode.own, Second((n - DOUBLE_START) / WORDS_PER_BLOCK))
      modifies this, inode
      ensures Valid() && inode.v == old(inode.v).(zones := inode.v.zones)
      ensures !ok ==> FreeZones(old(Bits())) == 0
      ensures ok ==>
                && FileOk(inode) && inode.own == old(inode.own)[z := Data(n)] && z !in old(inode.own)
                && Extends(sb, old(disk), old(Bits()), old(inode.own), disk, Bits(), inode.own)
                && FreeZones(Bits()) + 1 == FreeZones(old(Bits()))
    {
      RoleInPlace(disk, inode.v.zones, inode.own, Double);
      var c := Word(disk[inode.v.zones[8]], (n - 7 - 512) / 512);
      DoubleZones(disk, inode.v.zones, n);
      ok, z := RecordZone(inode, Some(c), (n - 7 - 512) % 512, Data(n));
    }

    /** Block n of the double-indirect zone. */
    method AddDouble(inode: OpenInode, n: nat) returns (ok: bool, z: u16)
      requires Valid() && FileOk(inode) && Complete(inode.own, n) && DOUBLE_START <= n < MAX_BLOCKS
      modifies this, inode
      ensures Valid() && inode.v == old(inode.v).(zones := inode.v.zones)
      ensures ok == (FreeZones(old(Bits())) >= NewZones(n))
      ensures ok ==> Added(inode, n, z, old(disk), old(Bits()), old(inode.own))
    {
      ghost var disk0, bits0, own0 := disk, Bits(), inode.own;
      ghost var second := Second((n - DOUBLE_START) / WORDS_PER_BLOCK);
      z := 0;
      ok := AddIndexes(inode, n);
      if !ok {
        return;
      }
      ghost var disk1, bits1, own1 := disk, Bits(), inode.own;
      ok, z := RecordUnderDouble(inode, n);
      if ok {
        RoleAdded(own1, z, Data(n), Data(n));
        RoleAdded(own1, z, Data(n), Double);
        RoleAdded(own1, z, Data(n), second);
        CompleteNext(own0, inode.own, n);
        ExtendsTransitive(sb, disk0, bits0, own0, disk1, bits1, own1, disk, Bits(), inode.own);
      }
    }

    /**
     * minix_add_file_block: a zone for the next block of the file, with the index
     * zones it needs; ok is false where the program ends with no space left.
     */
    method AddFileBlock(inode: OpenInode) returns (ok: bool, z: u16)
      requires Valid() && FileOk(inode)
      requires Complete(inode.own, BlockCount(inode.v.size)) && BlockCount(inode.v.size) < MAX_BLOCKS
      modifies this, inode
      ensures Valid() && inode.v == old(inode.v).(zones := inode.v.zones)
      ensures ok == (FreeZones(old(Bits())) >= NewZones(BlockCount(inode.v.size)))
      ensures ok ==> Added(inode, BlockCount(inode.v.size), z, old(disk), old(Bits()), old(inode.own))
    {
      var fb := inode.v.size / BLOCK_SIZE;
      if inode.v.size % BLOCK_SIZE > 0 {
        fb := fb + 1;
      }
      if fb < 7 {
        ok, z := AddDirect(inode, fb);
      } else if fb < 7 + 512 {
        ok, z := AddSingle(inode, fb);
      } else {
        ok, z := AddDouble(inode, fb);
      }
    }

    /** minix_file_block_2_block; None stands for the exit with a block beyond the end. */
    method FileBlockToBlock(x: Inode, b: nat) returns (ok: bool, z: u16)
      requires b < MAX_BLOCKS
      requires b * BLOCK_SIZE <= x.size && Parent(Data(b)).Some? ==>
                 ZoneOf(disk, x.zones, Parent(Data(b)).value) < |disk|
      requires b * BLOCK_SIZE <= x.size && b >= DOUBLE_START ==> x.zones[8] < |disk|
      ensures ok == (b * BLOCK_SIZE <= x.size)
      ensures ok ==> z == ZoneOf(disk, x.zones, Data(b))
    {
      if b * BLOCK_SIZE > x.size {
        return false, 0;
      }
      if b < 7 {
        return true, x.zones[b];
      } else if b < 7 + 512 {
        return true, Word(disk[x.zones[7]], b - 7);
      } else {
        var c := Word(disk[x.zones[8]], (b - 519) / 512);
        assert c == ZoneOf(disk, x.zones, Second((b - DOUBLE_START) / WORDS_PER_BLOCK));
        return true, Word(disk[c], (b - 519) % 512);
      }
    }

    /** MAP_UNSET_BIT of a zone that is in use. */
    method ReleaseZone(z: u16)
      requires Valid() && Taken(sb, Bits(), z)
      modifies this`zonesMap
      ensures Valid() && Bits() == old(Bits())[z - sb.firstDataZone := false]
    {
      ToBitsWrite(zonesMap, sb.nzones, z - sb.firstDataZone);
      zonesMap := WithBitCleared(zonesMap, z - sb.firstDataZone);
    }

    /** Gives back the zone z, which has role r, as one more than the roles in extra. */
    method ReleaseRole(inode: OpenInode, z: u16, ghost r: Role, ghost bits0: seq<bool>, ghost i: nat,
                       ghost extra: set<Role>)
      requires Valid() && Tree(disk, inode.v.zones, inode.own) && ZonesTaken(sb, bits0, inode.own)
      requires Released(sb, bits0, inode.own, i, extra, Bits())
      requires HasRole(inode.own, r) && RoleOk(r) && z == ZoneOf(disk, inode.v.zones, r)
      requires Birth(r) >= i && r !in extra
      modifies this`zonesMap
      ensures Valid() && Released(sb, bits0, inode.own, i, extra + {r}, Bits())
    {
      RoleInPlace(disk, inode.v.zones, inode.own, r);
      ReleaseOne(sb, bits0, inode.own, i, extra, Bits(), z, disk, inode.v.zones);
      ReleaseZone(z);
    }

    /** All the roles in extra are the ones born at i. */
    lemma AllBorn(inode: OpenInode, i: nat, extra: set<Role>)
      requires Tree(disk, inode.v.zones, inode.own) && i < MAX_BLOCKS
      requires extra == {Data(i)}
                        + (if i == DIRECT then {Single} else {})
                        + (if i == DOUBLE_START then {Double} else {})
                        + (if i >= DOUBLE_START && (i - DOUBLE_START) % WORDS_PER_BLOCK == 0
                           then {Second((i - DOUBLE_START) / WORDS_PER_BLOCK)} else {})
      ensures forall z | z in inode.own :: inode.own[z] in extra <==> Birth(inode.own[z]) == i
    {
      forall z | z in inode.own ensures inode.own[z] in extra <==> Birth(inode.own[z]) == i {
        assert InPlace(disk, inode.v.zones, inode.own, z);
        RolesBornAt(inode.own[z], i);
      }
    }

    method TruncDirect(inode: OpenInode, i: nat, ghost n: nat, ghost bits0: seq<bool>)
      requires Valid() && Tree(disk, inode.v.zones, inode.own) && ZonesTaken(sb, bits0, inode.own)
      requires Complete(inode.own, n) && i < n <= MAX_BLOCKS && i < DIRECT
      requires Released(sb, bits0, inode.own, i, {}, Bits())
      modifies this`zonesMap
      ensures Valid() && Released(sb, bits0, inode.own, i + 1, {}, Bits())
    {
      ReleaseRole(inode, inode.v.zones[i], Data(i), bits0, i, {});
      AllBorn(inode, i, {Data(i)});
      ReleasedNext(sb, bits0, inode.own, i, {Data(i)}, Bits());
    }

    method TruncSingle(inode: OpenInode, i: nat, blk0: Block, ghost n: nat, ghost bits0: seq<bool>) returns (blk: Block)
      requires Valid() && Tree(disk, inode.v.zones, inode.own) && ZonesTaken(sb, bits0, inode.own)
      requires Complete(inode.own, n) && i < n <= MAX_BLOCKS && DIRECT <= i < DOUBLE_START
      requires i > DIRECT ==> blk0 == BlockAt(disk, inode.v.zones[7])
      requires Released(sb, bits0, inode.own, i, {}, Bits())
      modifies this`zonesMap
      ensures Valid() && Released(sb, bits0, inode.own, i + 1, {}, Bits())
      ensures blk == BlockAt(disk, inode.v.zones[7])
    {
      ghost var extra: set<Role> := {};
      blk := blk0;
      if i == 7 {
        RoleInPlace(disk, inode.v.zones, inode.own, Single);
        blk := disk[inode.v.zones[7]];
        ReleaseRole(inode, inode.v.zones[7], Single, bits0, i, extra);
        extra := extra + {Single};
      }
      ReleaseRole(inode, Word(blk, i - 7), Data(i), bits0, i, extra);
      extra := extra + {Data(i)};
      AllBorn(inode, i, extra);
      ReleasedNext(sb, bits0, inode.own, i, extra, Bits());
    }

    /** The index zones that block i made necessary, and the index blocks that lead to it. */
    method TruncIndexes(inode: OpenInode, i: nat, blk0: Block, blk20: Block, ghost n: nat, ghost bits0: seq<bool>)
      returns (blk: Block, blk2: Block, ghost extra: set<Role>)
      requires Valid() && Tree(disk, inode.v.zones, inode.own) && ZonesTaken(sb, bits0, inode.own)
      requires Complete(inode.own, n) && DOUBLE_START <= i < n <= MAX_BLOCKS
      requires i > DOUBLE_START ==> blk0 == BlockAt(disk, inode.v.zones[8])
      requires (i - DOUBLE_START) % WORDS_PER_BLOCK != 0 ==>
                 blk20 == BlockAt(disk, ZoneOf(disk, inode.v.zones, Second((i - DOUBLE_START) / WORDS_PER_BLOCK)))
      requires Released(sb, bits0, inode.own, i, {}, Bits())
      modifies this`zonesMap
      ensures Valid() && Released(sb, bits0, inode.own, i, extra, Bits())
      ensures extra == (if i == DOUBLE_START then {Double} else {})
                       + (if (i - DOUBLE_START) % WORDS_PER_BLOCK == 0
                          then {Second((i - DOUBLE_START) / WORDS_PER_BLOCK)} else {})
      ensures blk == BlockAt(disk, inode.v.zones[8])
      ensures blk2 == BlockAt(disk, ZoneOf(disk, inode.v.zones, Second((i - DOUBLE_START) / WORDS_PER_BLOCK)))
    {
      ghost var second := Second((i - DOUBLE_START) / WORDS_PER_BLOCK);
      DoubleZones(disk, inode.v.zones, i);
      RoleInPlace(disk, inode.v.zones, inode.own, Double);
      RoleInPlace(disk, inode.v.zones, inode.own, second);
      blk, blk2, extra := blk0, blk20, {};
      if i == 7 + 512 {
        blk := disk[inode.v.zones[8]];
        ReleaseRole(inode, inode.v.zones[8], Double, bits0, i, extra);
        extra := extra + {Double};
      }
      if (i - 7 - 512) % 512 == 0 {
        var c := Word(blk, (i - 7 - 512) / 512);
        blk2 := disk[c];
        ReleaseRole(inode, c, second, bits0, i, extra);
        extra := extra + {second};
      }
    }

    method TruncDouble(inode: OpenInode, i: nat, blk0: Block, blk20: Block, ghost n: nat, ghost bits0: seq<bool>)
      returns (blk: Block, blk2: Block)
      requires Valid() && Tree(disk, inode.v.zones, inode.own) && ZonesTaken(sb, bits0, inode.own)
      requires Complete(inode.own, n) && DOUBLE_START <= i < n <= MAX_BLOCKS
      requires i > DOUBLE_START ==> blk0 == BlockAt(disk, inode.v.zones[8])
      requires (i - DOUBLE_START) % WORDS_PER_BLOCK != 0 ==>
                 blk20 == BlockAt(disk, ZoneOf(disk, inode.v.zones, Second((i - DOUBLE_START) / WORDS_PER_BLOCK)))
      requires Released(sb, bits0, inode.own, i, {}, Bits())
      modifies this`zonesMap
      ensures Valid() && Released(sb, bits0, inode.own, i + 1, {}, Bits())
      ensures blk == BlockAt(disk, inode.v.zones[8])
      ensures blk2 == BlockAt(disk, ZoneOf(disk, inode.v.zones, Second((i - DOUBLE_START) / WORDS_PER_BLOCK)))
    {
      ghost var extra;
      blk, blk2, extra := TruncIndexes(inode, i, blk0, blk20, n, bits0);
      DoubleZones(disk, inode.v.zones, i);
      ReleaseRole(inode, Word(blk2, (i - 7 - 512) % 512), Data(i), bits0, i, extra);
      extra := extra + {Data(i)};
      AllBorn(inode, i, extra);
      ReleasedNext(sb, bits0, inode.own, i, extra, Bits());
    }

    /** The index blocks that the truncation of the blocks below i has left in its buffers. */
    ghost predicate Buffered(zones: ZoneTable, i: nat, blk: Block, blk2: Block)
      reads this
      requires i <= MAX_BLOCKS
    {
      && (DIRECT < i <= DOUBLE_START ==> blk == BlockAt(disk, zones[7]))
      && (DOUBLE_START < i ==>
            && blk == BlockAt(disk, zones[8])
            && blk2 == BlockAt(disk, ZoneOf(disk, zones, Second((i - 1 - DOUBLE_START) / WORDS_PER_BLOCK))))
    }

    /** One turn of minix_trunc_inode. */
    method TruncBlock(inode: OpenInode, i: nat, blk0: Block, blk20: Block, ghost n: nat, ghost bits0: seq<bool>)
      returns (blk: Block, blk2: Block)
      requires Valid() && Tree(disk, inode.v.zones, inode.own) && ZonesTaken(sb, bits0, inode.own)
      requires Complete(inode.own, n) && i < n <= MAX_BLOCKS
      requires Buffered(inode.v.zones, i, blk0, blk20) && Released(sb, bits0, inode.own, i, {}, Bits())
      modifies this`zonesMap
      ensures Valid() && Released(sb, bits0, inode.own, i + 1, {}, Bits())
      ensures Buffered(inode.v.zones, i + 1, blk, blk2)
    {
      blk, blk2 := blk0, blk20;
      if i < 7 {
        TruncDirect(inode, i, n, bits0);
      } else if i < 7 + 512 {
        blk := TruncSingle(inode, i, blk, n, bits0);
      } else {
        SameSecond(i - DOUBLE_START);
        blk, blk2 := TruncDouble(inode, i, blk, blk2, n, bits0);
      }
    }

    lemma SameSecond(d: nat)
      ensures d % WORDS_PER_BLOCK != 0 ==> d > 0 && (d - 1) / WORDS_PER_BLOCK == d / WORDS_PER_BLOCK
    {
    }

    /**
     * minix_trunc_inode, for the value fb its loop limit happens to have: gives back the
     * zones of the blocks below fb, and of the index blocks those blocks made necessary.
     */
    method TruncInode(inode: OpenInode, fb: int, ghost n: nat)
      requires Valid() && FileOk(inode) && Complete(inode.own, n) && fb <= n <= MAX_BLOCKS
      modifies this`zonesMap
      ensures Valid()
      ensures Released(sb, old(Bits()), inode.own, if fb > 0 then fb else 0, {}, Bits())
    {
      ghost var bits0 := Bits();
      var blk, blk2 := ZeroBlock(), ZeroBlock();
      var i := 0;
      while i < fb
        invariant Valid() && 0 <= i <= n && (if fb > 0 then i <= fb else i == 0)
        invariant Released(sb, bits0, inode.own, i, {}, Bits()) && Buffered(inode.v.zones, i, blk, blk2)
      {
        blk, blk2 := TruncBlock(inode, i, blk, blk2, n, bits0);
        i := i + 1;
      }
    }

    /** minix_load_inode. */
    method LoadInode(i: nat) returns (x: Inode)
      requires i > 0 && InodeBlock(sb.Table(), i) < |disk|
      ensures x == LoadedInode(disk, sb.Table(), i)
    {
      var blk := disk[sb.Table() + (i - 1) / INODES_PER_BLOCK];
      x := InodeAt(blk, (i - 1) % INODES_PER_BLOCK * INODE_SIZE);
    }

    /** minix_save_inode. */
    method SaveInode(i: nat, x: Inode)
      requires i > 0 && InodeBlock(sb.Table(), i) < |disk|
      modifies this`disk
      ensures disk == SavedInode(old(disk), sb.Table(), i, x)
    {
      var b := sb.Table() + (i - 1) / INODES_PER_BLOCK;
      disk := disk[b := Overwrite(disk[b], (i - 1) % INODES_PER_BLOCK * INODE_SIZE, InodeBytes(x))];
    }

    /** The file so far: k blocks in place, with their data, and the inode saved. */
    ghost predicate CopiedTo(inode: OpenInode, i: nat, bytes: seq<u8>, k: nat)
      reads this, inode
      requires Valid() && i > 0
    {
      && FileOk(inode) && Complete(inode.own, k) && DataOk(disk, inode.own, bytes)
      && inode.v.size == (if BLOCK_SIZE * k < |bytes| then BLOCK_SIZE * k else |bytes|)
      && InodeBlock(sb.Table(), i) < sb.firstDataZone
      && LoadedInode(disk, sb.Table(), i) == inode.v
    }

    /** The data of block k, in its new zone z, then the size and the inode go to disk. */
    method StoreBlock(inode: OpenInode, i: nat, z: u16, bytes: seq<u8>, k: nat, size: u32,
                      ghost disk0: Disk, ghost bits0: seq<bool>, ghost own0: Owners)
      requires Valid() && Extends(sb, disk0, bits0, own0, disk, Bits(), inode.own)
      requires DataOk(disk0, own0, bytes) && Complete(own0, k)
      requires FileOk(inode) && Complete(inode.own, k + 1) && z in inode.own && inode.own[z] == Data(k)
      requires i > 0 && InodeBlock(sb.Table(), i) < sb.firstDataZone
      modifies this`disk, inode`v
      ensures Valid() && FileOk(inode) && DataOk(disk, inode.own, bytes)
      ensures inode.v == old(inode.v).(size := size) && LoadedInode(disk, sb.Table(), i) == inode.v
      ensures OthersKept(sb, disk0, bits0, own0, disk, Bits(), inode.own, i)
    {
      CopyStep(sb, disk0, bits0, own0, disk, Bits(), inode.v.zones, inode.own, z, k, bytes, i,
               inode.v.(size := size));
      disk := disk[z := Chunk(bytes, k)];
      inode.v := inode.v.(size := size);
      SaveInode(i, inode.v);
    }

    /** One turn of the copy loop: a zone for block k, its data, the size and the inode. */
    method CopyBlock(inode: OpenInode, i: nat, bytes: seq<u8>, k: nat) returns (ok: bool)
      requires Valid() && i > 0 && CopiedTo(inode, i, bytes, k)
      requires BLOCK_SIZE * k < |bytes| && BlockCount(|bytes|) <= MAX_BLOCKS
      modifies this, inode
      ensures Valid() && ok == (FreeZones(old(Bits())) >= NewZones(k))
      ensures ok ==>
                && CopiedTo(inode, i, bytes, k + 1)
                && FreeZones(Bits()) + NewZones(k) == FreeZones(old(Bits()))
                && OthersKept(sb, old(disk), old(Bits()), old(inode.own), disk, Bits(), inode.own, i)
    {
      ghost var disk0, bits0, own0 := disk, Bits(), inode.own;
      var br := if |bytes| - BLOCK_SIZE * k < BLOCK_SIZE then |bytes| - BLOCK_SIZE * k else BLOCK_SIZE;
      var z;
      assert BlockCount(inode.v.size) == k;
      ok, z := AddFileBlock(inode);
      if ok {
        StoreBlock(inode, i, z, bytes, k, inode.v.size as int + br, disk0, bits0, own0);
      }
    }

    /** The check for free space before anything is copied. */
    method CheckSpace(size: nat) returns (ok: bool)
      requires Valid() && size > 0
      ensures ok == (FreeZones(Bits()) >= Precheck(BlockCount(size)))
    {
      var kerb := Precheck((size - 1) / BLOCK_SIZE + 1);
      assert (size - 1) / BLOCK_SIZE + 1 == BlockCount(size);
      var count, i := 0, 0;
      while i < sb.nzones
        invariant 0 <= i <= sb.nzones
        invariant count == FreeZones(Bits()[..i]) < kerb
      {
        ToBitsAt(zonesMap, sb.nzones, i);
        assert Bits()[..i + 1][..i] == Bits()[..i];
        if !BitAt(zonesMap, i) {
          count := count + 1;
        }
        if count == kerb {
          FreeZonesOfPart(Bits(), i + 1);
          break;
        }
        i := i + 1;
      }
      ok := count >= kerb;
      if !ok {
        assert Bits()[..i] == Bits();
      }
    }

    /** The copy loop, which never runs out of space if the check before it passed. */
    method CopyKernel(inode: OpenInode, i: nat, bytes: seq<u8>)
      requires Valid() && i > 0 && CopiedTo(inode, i, bytes, 0)
      requires |bytes| > 0 && BlockCount(|bytes|) <= MAX_BLOCKS
      requires FreeZones(Bits()) >= ZonesFor(BlockCount(|bytes|))
      modifies this, inode
      ensures Valid() && CopiedTo(inode, i, bytes, BlockCount(|bytes|))
      ensures FreeZones(Bits()) + ZonesFor(BlockCount(|bytes|)) == FreeZones(old(Bits()))
      ensures OthersKept(sb, old(disk), old(Bits()), old(inode.own), disk, Bits(), inode.own, i)
    {
      ghost var disk0, bits0, own0 := disk, Bits(), inode.own;
      var n := (|bytes| - 1) / BLOCK_SIZE + 1;
      assert n == BlockCount(|bytes|);
      var k := 0;
      while k < n
        invariant 0 <= k <= n
        invariant Valid() && CopiedTo(inode, i, bytes, k)
        invariant FreeZones(Bits()) + ZonesFor(k) == FreeZones(bits0)
        invariant OthersKept(sb, disk0, bits0, own0, disk, Bits(), inode.own, i)
      {
        ghost var disk1, bits1, own1 := disk, Bits(), inode.own;
        ZonesForGrows(k + 1, n);
        var ok := CopyBlock(inode, i, bytes, k);
        assert ok;
        OthersTransitive(sb, disk0, bits0, own0, disk1, bits1, own1, disk, Bits(), inode.own, i);
        k := k + 1;
      }
    }

    /**
     * The part of minix_write that stores the kernel as inode i: the check for space, a
     * new inode, the copy loop. It fails only in the check.
     */
    method WriteKernel(i: nat, blank: Inode, bytes: seq<u8>) returns (ok: bool, inode: OpenInode)
      requires Valid() && i > 0 && InodeBlock(sb.Table(), i) < sb.firstDataZone
      requires blank.size == 0
      requires |bytes| > 0 && BlockCount(|bytes|) <= MAX_BLOCKS
      modifies this
      ensures Valid() && ok == (FreeZones(old(Bits())) >= Precheck(BlockCount(|bytes|)))
      ensures !ok ==> disk == old(disk) && Bits() == old(Bits())
      ensures ok ==>
                && fresh(inode) && FileOk(inode) && Complete(inode.own, BlockCount(|bytes|))
                && LoadedInode(disk, sb.Table(), i) == inode.v
                && Installed(disk, sb.Table(), i, bytes)
                && FreeZones(Bits()) + ZonesFor(BlockCount(|bytes|)) == FreeZones(old(Bits()))
                && OthersKept(sb, old(disk), old(Bits()), map[], disk, Bits(), inode.own, i)
      ensures |disk| == |old(disk)|
      ensures forall z: nat | z < |disk| && z < 2 + sb.imapBlocks as int + sb.zmapBlocks as int ::
                disk[z] == old(disk)[z]
    {
      inode := new OpenInode(blank);
      ok := CheckSpace(|bytes|);
      if !ok {
        return;
      }
      ghost var disk0, bits0, n := disk, Bits(), BlockCount(|bytes|);
      PrecheckIsExact(n);
      SaveInode(i, blank);
      FirstSave(sb, disk0, bits0, i, blank);
      ghost var disk1 := disk;
      CopyKernel(inode, i, bytes);
      OthersTransitive(sb, disk0, bits0, map[], disk1, bits0, map[], disk, Bits(), inode.own, i);
      forall b: nat | b < n ensures Reads(disk, inode.v.zones, b, Chunk(bytes, b)) {
        CompleteFileReads(disk, inode.v.zones, inode.own, n, bytes, b);
      }
      forall z: nat | z < |disk| && z < 2 + sb.imapBlocks as int + sb.zmapBlocks as int ensures disk[z] == disk0[z] {
        FrontKept(sb, disk0, bits0, disk, Bits(), inode.own, i, z);
      }
    }
  }

  /** Saving the new inode changes nothing else, and the empty file is in place. */
  lemma FirstSave(sb: Superblock, disk: Disk, bits: seq<bool>, i: nat, x: Inode)
    requires i > 0 && InodeBlock(sb.Table(), i) < |disk| && |bits| == sb.nzones
    ensures var d := SavedInode(disk, sb.Table(), i, x);
            LoadedInode(d, sb.Table(), i) == x && OthersKept(sb, disk, bits, map[], d, bits, map[], i)
  {
    SaveThenLoad(disk, sb.Table(), i, x, i);
    forall j: nat | j > 0 && j != i && InodeBlock(sb.Table(), j) < |disk|
      ensures LoadedInode(SavedInode(disk, sb.Table(), i, x), sb.Table(), j) == LoadedInode(disk, sb.Table(), j)
    {
      SaveThenLoad(disk, sb.Table(), i, x, j);
    }
  }
}
