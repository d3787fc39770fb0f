/** The direct / indirect / double-indirect tree that records a file's zones. */
module ZoneTree {
  import opened Words
  import opened Blocks

  const DIRECT: int := 7
  const DOUBLE_START: int := 519
  const MAX_BLOCKS: int := 262663

  type Disk = seq<Block>
  type ZoneTable = z: seq<u16> | |z| == 9 witness seq(9, _ => 0)

  /** What a zone of the file holds: block b of the data, or an index block. */
  datatype Role = Data(b: nat) | Single | Double | Second(q: nat)

  /** Which role each zone of the file has. */
  type Owners = map<u16, Role>

  predicate RoleOk(r: Role) {
    match r
    case Data(b) => b < MAX_BLOCKS
    case Second(q) => q < WORDS_PER_BLOCK
    case _ => true
  }

  /** The index block that names the zone of a role; None for the inode itself. */
  function Parent(r: Role): Option<Role> {
    match r
    case Data(b) =>
      if b < DIRECT then None
      else if b < DOUBLE_START then Some(Single)
      else Some(Second((b - DOUBLE_START) / WORDS_PER_BLOCK))
    case Second(_) => Some(Double)
    case _ => None
  }

  /** The place in the inode or the index block that names the zone of a role. */
  function Slot(r: Role): (s: nat)
    requires RoleOk(r)
    ensures Parent(r).None? ==> s < 9
    ensures Parent(r).Some? ==> s < WORDS_PER_BLOCK && RoleOk(Parent(r).value)
  {
    match r
    case Data(b) =>
      if b < DIRECT then b
      else if b < DOUBLE_START then b - DIRECT
      else (b - DOUBLE_START) % WORDS_PER_BLOCK
    case Single => 7
    case Double => 8
    case Second(q) => q
  }

  /** How many blocks the file has when the zone of a role is taken. */
  function Birth(r: Role): nat {
    match r
    case Data(b) => b
    case Single => DIRECT
    case Double => DOUBLE_START
    case Second(q) => DOUBLE_START + WORDS_PER_BLOCK * q
  }

  function Rank(r: Role): nat {
    match r case Data(_) => 2 case Second(_) => 1 case _ => 0
  }

  /** A block of the device; past its end there is nothing but zeros. */
  function BlockAt(disk: Disk, z: nat): Block {
    if z < |disk| then disk[z] else ZeroBlock()
  }

  /** The zone found for a role by descending the tree. */
  function ZoneOf(disk: Disk, zones: ZoneTable, r: Role): u16
    requires RoleOk(r)
    decreases Rank(r)
  {
    match Parent(r)
    case None => zones[Slot(r)]
    case Some(p) => Word(BlockAt(disk, ZoneOf(disk, zones, p)), Slot(r))
  }

  /** The descent by roles, level by level as the format has it: in the inode, and in one or two index blocks. */
  lemma ZoneOfIs(disk: Disk, zones: ZoneTable, b: nat)
    requires b < MAX_BLOCKS
    ensures ZoneOf(disk, zones, Data(b))
         == if b < 7 then zones[b]
            else if b < 7 + 512 then Word(BlockAt(disk, zones[7]), b - 7)
            else Word(BlockAt(disk, Word(BlockAt(disk, zones[8]), (b - 519) / 512)), (b - 519) % 512)
  {
    if b < 7 {
    } else if b < 519 {
      assert Parent(Data(b)) == Some(Single) && Parent(Single) == None;
    } else {
      var q := (b - 519) / 512;
      assert Parent(Data(b)) == Some(Second(q)) && Parent(Second(q)) == Some(Double) && Parent(Double) == None;
      assert ZoneOf(disk, zones, Second(q)) == Word(BlockAt(disk, zones[8]), q);
    }
  }

  ghost predicate HasRole(own: Owners, r: Role) {
    exists z :: z in own && own[z] == r
  }

  /** Zone z is where the tree says the zone of its role is, and its parent is there too. */
  ghost predicate InPlace(disk: Disk, zones: ZoneTable, own: Owners, z: u16)
    requires z in own
  {
    var r := own[z];
    && RoleOk(r) && z < |disk|
    && ZoneOf(disk, zones, r) == z
    && (Parent(r).Some? ==> HasRole(own, Parent(r).value))
  }

  /** Every zone of the file is in place; so no zone has two roles and no role two zones. */
  ghost predicate Tree(disk: Disk, zones: ZoneTable, own: Owners) {
    forall z {:trigger InPlace(disk, zones, own, z)} | z in own :: InPlace(disk, zones, own, z)
  }

  /** Exactly the zones of a file of n blocks are there. */
  ghost predicate Complete(own: Owners, n: nat) {
    && (forall r {:trigger HasRole(own, r)} | RoleOk(r) && Birth(r) < n :: HasRole(own, r))
    && (forall z | z in own :: Birth(own[z]) < n)
  }

  lemma RoleInPlace(disk: Disk, zones: ZoneTable, own: Owners, r: Role)
    requires Tree(disk, zones, own) && HasRole(own, r)
    ensures RoleOk(r)
    ensures ZoneOf(disk, zones, r) in own && own[ZoneOf(disk, zones, r)] == r
    ensures ZoneOf(disk, zones, r) < |disk|
  {
    var z :| z in own && own[z] == r;
    assert InPlace(disk, zones, own, z);
  }

  /** Two roles recorded at the same place are the same. */
  lemma PlaceDeterminesRole(r: Role, s: Role)
    requires RoleOk(r) && RoleOk(s)
    requires Parent(r) == Parent(s) && Slot(r) == Slot(s)
    ensures r == s
  {
  }

  // ------------------------------------------------------------------ growth

  /** The inode's table once the zone of r is recorded as z. */
  function BindTable(zones: ZoneTable, r: Role, z: u16): ZoneTable
    requires RoleOk(r)
  {
    if Parent(r).None? then zones[Slot(r) := z] else zones
  }

  /** The disk once the zone of r is recorded as z. */
  function BindDisk(disk: Disk, zones: ZoneTable, r: Role, z: u16): (d: Disk)
    requires RoleOk(r)
    ensures |d| == |disk|
  {
    match Parent(r)
    case None => disk
    case Some(p) =>
      var c := ZoneOf(disk, zones, p);
      if c < |disk| then disk[c := SetWord(disk[c], Slot(r), z)] else disk
  }

  /** Recording a new role moves no zone that is in place. */
  lemma {:induction false} BindKeepsZone(disk: Disk, zones: ZoneTable, own: Owners, r: Role, z: u16, s: Role)
    requires Tree(disk, zones, own) && RoleOk(r)
    requires Parent(r).Some? ==> HasRole(own, Parent(r).value)
    requires !HasRole(own, r) && HasRole(own, s)
    ensures RoleOk(s)
    ensures ZoneOf(BindDisk(disk, zones, r, z), BindTable(zones, r, z), s) == ZoneOf(disk, zones, s)
    decreases Rank(s)
  {
    RoleInPlace(disk, zones, own, s);
    var at := ZoneOf(disk, zones, s);
    assert InPlace(disk, zones, own, at);
    assert r != s;
    if Parent(r) == Parent(s) && Slot(r) == Slot(s) {
      PlaceDeterminesRole(r, s);
    }
    if Parent(s).Some? {
      var p := Parent(s).value;
      BindKeepsZone(disk, zones, own, r, z, p);
      RoleInPlace(disk, zones, own, p);
      if Parent(r).Some? {
        RoleInPlace(disk, zones, own, Parent(r).value);
        var c := ZoneOf(disk, zones, Parent(r).value);
        if c == ZoneOf(disk, zones, p) {
          SetWordWord(disk[c], Slot(r), z, Slot(s));
        }
      }
    }
  }

  /** Recording a new role at a new zone extends the tree by exactly that. */
  lemma BindKeepsTree(disk: Disk, zones: ZoneTable, own: Owners, r: Role, z: u16)
    requires Tree(disk, zones, own) && RoleOk(r)
    requires Parent(r).Some? ==> HasRole(own, Parent(r).value)
    requires !HasRole(own, r) && z !in own && z < |disk|
    ensures Tree(BindDisk(disk, zones, r, z), BindTable(zones, r, z), own[z := r])
  {
    var disk1, zones1, own1 := BindDisk(disk, zones, r, z), BindTable(zones, r, z), own[z := r];
    assert own1[z] == r;
    forall y | y in own1 ensures InPlace(disk1, zones1, own1, y) {
      if y == z {
        BindFindsZone(disk, zones, own, r, z);
      } else {
        assert InPlace(disk, zones, own, y);
        BindKeepsZone(disk, zones, own, r, z, own[y]);
      }
      if Parent(own1[y]).Some? {
        var x :| x in own && own[x] == Parent(own1[y]).value;
        assert x in own1 && own1[x] == own[x];
      }
    }
  }

  lemma BindFindsZone(disk: Disk, zones: ZoneTable, own: Owners, r: Role, z: u16)
    requires Tree(disk, zones, own) && RoleOk(r)
    requires Parent(r).Some? ==> HasRole(own, Parent(r).value)
    requires !HasRole(own, r)
    ensures ZoneOf(BindDisk(disk, zones, r, z), BindTable(zones, r, z), r) == z
  {
    if Parent(r).Some? {
      var p := Parent(r).value;
      BindKeepsZone(disk, zones, own, r, z, p);
      RoleInPlace(disk, zones, own, p);
      var c := ZoneOf(disk, zones, p);
      SetWordWord(disk[c], Slot(r), z, Slot(r));
    }
  }

  /** A write that leaves every index block alone moves no zone of the file. */
  lemma {:induction false} DataWriteKeepsZone(disk: Disk, disk1: Disk, zones: ZoneTable, own: Owners, s: Role)
    requires Tree(disk, zones, own) && HasRole(own, s)
    requires forall z | z in own && !own[z].Data? :: BlockAt(disk1, z) == BlockAt(disk, z)
    ensures RoleOk(s) && ZoneOf(disk1, zones, s) == ZoneOf(disk, zones, s)
    decreases Rank(s)
  {
    RoleInPlace(disk, zones, own, s);
    assert InPlace(disk, zones, own, ZoneOf(disk, zones, s));
    if Parent(s).Some? {
      DataWriteKeepsZone(disk, disk1, zones, own, Parent(s).value);
      RoleInPlace(disk, zones, own, Parent(s).value);
    }
  }

  lemma DataWriteKeepsTree(disk: Disk, disk1: Disk, zones: ZoneTable, own: Owners)
    requires Tree(disk, zones, own) && |disk1| == |disk|
    requires forall z | z in own && !own[z].Data? :: BlockAt(disk1, z) == BlockAt(disk, z)
    ensures Tree(disk1, zones, own)
  {
    forall z | z in own ensures InPlace(disk1, zones, own, z) {
      assert InPlace(disk, zones, own, z);
      DataWriteKeepsZone(disk, disk1, zones, own, own[z]);
    }
  }

  lemma RoleAdded(own: Owners, z: u16, r: Role, s: Role)
    requires z !in own
    ensures HasRole(own[z := r], s) <==> HasRole(own, s) || s == r
  {
    if y :| y in own && own[y] == s {
      assert y in own[z := r] && own[z := r][y] == s;
    }
    assert own[z := r][z] == r;
  }

  /** Once the roles born at n are there, the file has n + 1 blocks. */
  lemma CompleteNext(own: Owners, own1: Owners, n: nat)
    requires Complete(own, n) && n < MAX_BLOCKS
    requires forall z | z in own :: z in own1 && own1[z] == own[z]
    requires forall z | z in own1 && z !in own :: Birth(own1[z]) == n
    requires HasRole(own1, Data(n))
    requires n == DIRECT ==> HasRole(own1, Single)
    requires n == DOUBLE_START ==> HasRole(own1, Double)
    requires n >= DOUBLE_START && (n - DOUBLE_START) % WORDS_PER_BLOCK == 0 ==>
               HasRole(own1, Second((n - DOUBLE_START) / WORDS_PER_BLOCK))
    ensures Complete(own1, n + 1)
  {
    forall r | RoleOk(r) && Birth(r) < n + 1 ensures HasRole(own1, r) {
      if Birth(r) == n {
        RolesBornAt(r, n);
      } else {
        assert HasRole(own, r);
        var z :| z in own && own[z] == r;
        assert own1[z] == r;
      }
    }
  }

  // ---------------------------------------------------------------- counting

  /** The zones one more block takes when the file has n: the block, and index blocks. */
  function NewZones(n: nat): nat {
    1 + (if n == DIRECT then 1 else 0)
      + (if n == DOUBLE_START then 1 else 0)
      + (if n >= DOUBLE_START && (n - DOUBLE_START) % WORDS_PER_BLOCK == 0 then 1 else 0)
  }

  /** The zones a file of n blocks takes. */
  function ZonesFor(n: nat): nat {
    if n == 0 then 0 else ZonesFor(n - 1) + NewZones(n - 1)
  }

  lemma {:induction false} ZonesForGrows(k: nat, n: nat)
    requires k <= n
    ensures ZonesFor(k) <= ZonesFor(n)
  {
    if k < n {
      ZonesForGrows(k, n - 1);
    }
  }

  /** In closed form: the blocks, one single-indirect, one double-indirect with its seconds. */
  lemma {:induction false} ZonesForIs(n: nat)
    ensures ZonesFor(n) == n + (if n > DIRECT then 1 else 0)
                             + (if n > DOUBLE_START then 2 + (n - DOUBLE_START - 1) / WORDS_PER_BLOCK else 0)
  {
    if n > 0 {
      ZonesForIs(n - 1);
    }
  }

  /** The roles born when the file has n blocks. */
  lemma RolesBornAt(r: Role, n: nat)
    requires RoleOk(r) && n < MAX_BLOCKS
    ensures Birth(r) == n <==>
            || r == Data(n)
            || (r == Single && n == DIRECT)
            || (r == Double && n == DOUBLE_START)
            || (n >= DOUBLE_START && (n - DOUBLE_START) % WORDS_PER_BLOCK == 0
                && r == Second((n - DOUBLE_START) / WORDS_PER_BLOCK))
  {
  }
}
