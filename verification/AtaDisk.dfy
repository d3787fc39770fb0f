/** A channel with two drives that follow the PIO data-in and data-out protocols of ATA/ATAPI-6, clauses 9.5 and 9.6. */
module AtaDisk {
  import opened Words

  const SECTOR_WORDS: int := 256
  /** How many status reads take 400 ns; until then the status register says nothing. */
  const SETTLE_READS: int := 4

  type Sector = s: seq<u16> | |s| == SECTOR_WORDS witness seq(SECTOR_WORDS, _ => 0)

  /** The bits of the status register that the driver looks at. */
  datatype Status = Status(bsy: bool, drq: bool, err: bool, df: bool)

  /** A data block of the selected drive: the sector, how many are left, and the words moved so far. */
  datatype Phase =
    | Idle
    | Failed
    | DataIn(at: nat, left: nat, word: nat)
    | DataOut(at: nat, left: nat, got: seq<u16>)

  /** The sector count register: 0 stands for 256. */
  function SectorCount(count: u8): nat {
    if count == 0 then 256 else count
  }

  class Disk {
    var drives: seq<seq<Sector>>
    var count: u8
    var lba0: u8
    var lba1: u8
    var lba2: u8
    var devsel: u8
    var phase: Phase
    /** Status reads until the register is valid, then with BSY, then before the outcome shows. */
    var settle: nat
    var busy: nat
    var gap: nat

    predicate Valid()
      reads this
    {
      && |drives| == 2 && settle <= SETTLE_READS
      && (phase.DataIn? ==> phase.at < |Sectors()| && phase.left > 0 && phase.word < SECTOR_WORDS)
      && (phase.DataOut? ==> phase.at < |Sectors()| && phase.left > 0 && |phase.got| < SECTOR_WORDS)
    }

    /** The drive that bit 4 of the device register selects: 0 is the master, 1 the slave. */
    function Selected(): nat
      reads this
    {
      devsel / 0x10 % 2
    }

    /** The sectors of the selected drive. */
    function Sectors(): seq<Sector>
      reads this
      requires |drives| == 2
    {
      drives[Selected()]
    }

    /** Bit 6 of the device register: the registers hold the number of a sector, not its cylinder, head and place. */
    predicate NamesByNumber()
      reads this
    {
      devsel / 0x40 % 2 == 1
    }

    /** The outcome of the last step shows. */
    predicate Quiet()
      reads this
    {
      settle == 0 && busy == 0 && gap == 0
    }

    /** The disk can take a command. */
    predicate Ready()
      reads this
    {
      settle == 0 && busy == 0 && (phase.Idle? || phase.Failed?)
    }

    /** The sector whose number the registers hold; the low half of the device register has the top four bits. */
    function Lba(): nat
      reads this
    {
      lba0 + 0x100 * lba1 + 0x1_0000 * lba2 + 0x100_0000 * (devsel % 16)
    }

    /** The register says nothing, then BSY, then nothing yet, then the outcome. */
    method InStatus() returns (s: Status)
      requires Valid()
      modifies this`settle, this`busy, this`gap
      ensures Valid()
      ensures if old(settle) > 0 then settle == old(settle) - 1 && busy == old(busy) && gap == old(gap)
              else if old(busy) > 0 then settle == 0 && busy == old(busy) - 1 && gap == old(gap) && s.bsy
              else if old(gap) > 0 then
                settle == 0 && busy == 0 && gap == old(gap) - 1 && s == Status(false, false, false, false)
              else
                && Quiet() && !s.bsy && (s.err || s.df <==> phase.Failed?)
                && (!phase.Failed? ==> (s.drq <==> phase.DataIn? || phase.DataOut?))
    {
      s := *;
      if settle > 0 {
        settle := settle - 1;
      } else if busy > 0 {
        busy, s := busy - 1, s.(bsy := true);
      } else if gap > 0 {
        gap, s := gap - 1, Status(false, false, false, false);
      } else {
        s := if phase.Failed? then Status(false, s.drq, s.err, !s.err || s.df)
             else Status(false, phase.DataIn? || phase.DataOut?, false, false);
      }
    }

    /** 400 ns go by. */
    method Elapse()
      requires Valid()
      modifies this`settle
      ensures Valid() && settle == 0
    {
      settle := 0;
    }

    /** The disk is at work for some time. */
    method Work()
      modifies this`settle, this`busy, this`gap
      ensures settle == SETTLE_READS
    {
      settle, busy, gap := SETTLE_READS, *, *;
    }

    /** The sector that a command starts at; without its number the drive may take any. */
    method Target() returns (at: nat)
      ensures NamesByNumber() ==> at == Lba()
    {
      at := *;
      if NamesByNumber() {
        at := Lba();
      }
    }

    /** READ SECTOR(S): the first data block of the selected drive, or an error. */
    method CommandRead()
      requires Valid() && Ready()
      modifies this`phase, this`settle, this`busy, this`gap
      ensures Valid() && (phase == Failed || phase.DataIn?)
      ensures NamesByNumber() && phase != Failed ==> phase == DataIn(Lba(), SectorCount(count), 0)
    {
      var fails := *;
      var at := Target();
      phase := if fails || at >= |Sectors()| then Failed else DataIn(at, SectorCount(count), 0);
      Work();
    }

    /** A word of the data block; behind its last one come the next block, an error or the end. */
    method InWord() returns (w: u16)
      requires Valid() && phase.DataIn? && Quiet()
      modifies this`phase, this`settle, this`busy, this`gap
      ensures Valid() && w == Sectors()[old(phase).at][old(phase).word]
      ensures var p := old(phase);
              if p.word < SECTOR_WORDS - 1 then phase == p.(word := p.word + 1) && Quiet()
              else if p.left == 1 then phase == Idle
              else phase == Failed || (phase == DataIn(p.at + 1, p.left - 1, 0) && p.at + 1 < |Sectors()|)
    {
      w := Sectors()[phase.at][phase.word];
      if phase.word < SECTOR_WORDS - 1 {
        phase := phase.(word := phase.word + 1);
      } else {
        var fails := *;
        phase := if phase.left == 1 then Idle
                 else if fails || phase.at + 1 >= |Sectors()| then Failed
                 else DataIn(phase.at + 1, phase.left - 1, 0);
        Work();
      }
    }

    /** WRITE SECTOR(S): the disk asks for the first data block, or reports an error. */
    method CommandWrite()
      requires Valid() && Ready()
      modifies this`phase, this`settle, this`busy, this`gap
      ensures Valid() && (phase == Failed || phase.DataOut?)
      ensures NamesByNumber() && phase != Failed ==> phase == DataOut(Lba(), SectorCount(count), [])
    {
      var fails := *;
      var at := Target();
      phase := if fails || at >= |Sectors()| then Failed else DataOut(at, SectorCount(count), []);
      Work();
    }

    /**
     * A word for the data block; behind its last one the sector is written, or there is an
     * error, which leaves anything in that sector.
     */
    method OutWord(w: u16)
      requires Valid() && phase.DataOut? && Quiet()
      modifies this`drives, this`phase, this`settle, this`busy, this`gap
      ensures Valid() && drives[1 - Selected()] == old(drives)[1 - Selected()]
      ensures var p, got, before := old(phase), old(phase).got + [w], old(Sectors());
              if |got| < SECTOR_WORDS then phase == p.(got := got) && Quiet() && Sectors() == before
              else
                && |Sectors()| == |before| && Sectors() == before[p.at := Sectors()[p.at]]
                && (phase != Failed ==> Sectors()[p.at] == got)
                && (phase == Failed || phase == if p.left == 1 then Idle else DataOut(p.at + 1, p.left - 1, []))
    {
      var at, left, got := phase.at, phase.left, phase.got + [w];
      if |got| < SECTOR_WORDS {
        phase := phase.(got := got);
      } else {
        var fails: bool, garbage: Sector := *, *;
        if fails {
          phase, drives := Failed, drives[Selected() := Sectors()[at := garbage]];
        } else {
          drives := drives[Selected() := Sectors()[at := got]];
          phase := if left == 1 then Idle else if at + 1 >= |Sectors()| then Failed else DataOut(at + 1, left - 1, []);
        }
        Work();
      }
    }
  }
}
