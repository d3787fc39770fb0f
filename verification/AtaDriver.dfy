/** The driver's PIO transfers, on any disk that follows the protocol. */
module AtaDriver {
  import opened Words
  import opened AtaDisk

  // ------------------------------------------------------------- disk contents

  /** The words of n sectors. */
  function WordsOf(sectors: seq<Sector>, at: nat, n: nat): (r: seq<u16>)
    requires at + n <= |sectors|
    ensures |r| == SECTOR_WORDS * n
  {
    if n == 0 then [] else WordsOf(sectors, at, n - 1) + sectors[at + n - 1]
  }

  /** They stand sector by sector. */
  lemma {:induction false} WordsOfAt(sectors: seq<Sector>, at: nat, n: nat, k: nat, j: nat)
    requires at + n <= |sectors| && k < n && j < 256
    ensures WordsOf(sectors, at, n)[256 * k + j] == sectors[at + k][j]
  {
    if k < n - 1 {
      WordsOfAt(sectors, at, n - 1, k, j);
    }
  }

  /** The disk with n sectors replaced by the words of a buffer. */
  function Stored(sectors: seq<Sector>, at: nat, words: seq<u16>, n: nat): (r: seq<Sector>)
    requires at + n <= |sectors| && SECTOR_WORDS * n <= |words|
    ensures |r| == |sectors|
  {
    if n == 0 then sectors
    else Stored(sectors, at, words, n - 1)[at + n - 1 := words[SECTOR_WORDS * (n - 1)..SECTOR_WORDS * n]]
  }

  /** Nothing but the n sectors differs. */
  ghost predicate OthersKept(before: seq<Sector>, after: seq<Sector>, at: nat, n: nat) {
    && |after| == |before|
    && forall k | 0 <= k < |before| && !(at <= k < at + n) :: after[k] == before[k]
  }

  /** The sectors from at on are untouched by what is stored below. */
  lemma {:induction false} StoredElsewhere(sectors: seq<Sector>, at: nat, words: seq<u16>, n: nat, k: nat)
    requires at + n <= |sectors| && SECTOR_WORDS * n <= |words| && k < |sectors| && !(at <= k < at + n)
    ensures Stored(sectors, at, words, n)[k] == sectors[k]
  {
    if n > 0 {
      StoredElsewhere(sectors, at, words, n - 1, k);
    }
  }

  lemma {:induction false} WordsOfSame(sectors: seq<Sector>, others: seq<Sector>, at: nat, n: nat)
    requires at + n <= |sectors| == |others| && forall k | at <= k < at + n :: sectors[k] == others[k]
    ensures WordsOf(sectors, at, n) == WordsOf(others, at, n)
  {
    if n > 0 {
      WordsOfSame(sectors, others, at, n - 1);
    }
  }

  /** What is stored reads back. */
  lemma {:induction false} StoredReadsBack(sectors: seq<Sector>, at: nat, words: seq<u16>, n: nat)
    requires at + n <= |sectors| && SECTOR_WORDS * n <= |words|
    ensures WordsOf(Stored(sectors, at, words, n), at, n) == words[..SECTOR_WORDS * n]
  {
    if n > 0 {
      StoredReadsBack(sectors, at, words, n - 1);
      var before, after := Stored(sectors, at, words, n - 1), Stored(sectors, at, words, n);
      WordsOfSame(before, after, at, n - 1);
      var m := SECTOR_WORDS * (n - 1);
      assert words[..m] + words[m..SECTOR_WORDS * n] == words[..SECTOR_WORDS * n];
    }
  }

  // ------------------------------------------------------------------- sectors

  /** The sector that the disk is told to start at: the driver sends 24 bits of the number. */
  function Landing(start: int): (r: nat)
    ensures r < 0x100_0000
  {
    start % 0x100_0000
  }

  lemma {:induction false} FirstWord(sectors: seq<Sector>, at: nat, n: nat)
    requires n > 0 && at + n <= |sectors|
    ensures WordsOf(sectors, at, n)[0] == sectors[at][0]
  {
    if n > 1 {
      FirstWord(sectors, at, n - 1);
    }
  }

  /** The sectors that a transfer gets are those that the caller names, exactly if the number has 24 bits. */
  lemma LandsIff(start: nat, count: nat)
    requires count > 0
    ensures (forall disk: seq<Sector> | start + count <= |disk| ::
               WordsOf(disk, Landing(start), count) == WordsOf(disk, start, count))
            <==> start < 0x100_0000
  {
    if start >= 0x100_0000 {
      var marked: Sector := seq(SECTOR_WORDS, _ => 1);
      var blank: Sector := seq(SECTOR_WORDS, _ => 0);
      var disk: seq<Sector> := seq(start + count, k => if k == start then marked else blank);
      FirstWord(disk, start, count);
      FirstWord(disk, Landing(start), count);
      assert WordsOf(disk, Landing(start), count) != WordsOf(disk, start, count);
    }
  }

  // -------------------------------------------------------------------- driver

  /** delay: status reads, one per 100 ns. */
  method Delay(disk: Disk, ns: nat)
    requires disk.Valid() && ns / 100 >= disk.settle
    modifies disk`settle, disk`busy, disk`gap
    ensures disk.Valid() && disk.settle == 0
  {
    var n := ns / 100;
    while n > 0
      invariant disk.Valid() && n >= disk.settle
    {
      n := n - 1;
      var s := disk.InStatus();
    }
  }

  /** The loop until BSY goes, in front of every command. */
  method WaitReady(disk: Disk)
    requires disk.Valid() && disk.settle == 0 && (disk.phase.Idle? || disk.phase.Failed?)
    modifies disk`settle, disk`busy, disk`gap
    ensures disk.Valid() && disk.Ready()
  {
    var s := disk.InStatus();
    while s.bsy
      invariant disk.Valid() && disk.settle == 0 && (s.bsy || disk.busy == 0)
      decreases disk.busy, s.bsy
    {
      s := disk.InStatus();
    }
  }

  /** poll: waits for the data block of a command, or for its error. */
  method Poll(disk: Disk) returns (r: int)
    requires disk.Valid() && !disk.phase.Idle?
    modifies disk`settle, disk`busy, disk`gap
    ensures disk.Valid() && disk.Quiet()
    ensures r == if disk.phase.Failed? then -1 else 0
  {
    Delay(disk, 400);
    var s := disk.InStatus();
    while s.bsy
      invariant disk.Valid() && disk.settle == 0 && (s.bsy || disk.busy == 0)
      invariant s.bsy || Shows(disk, s)
      decreases disk.busy, s.bsy
    {
      s := disk.InStatus();
    }
    while true
      invariant disk.Valid() && disk.settle == 0 && disk.busy == 0 && Shows(disk, s)
      decreases disk.gap, if s.err || s.df || s.drq then 0 else 1
    {
      if s.err || s.df {
        return -1;
      }
      if s.drq {
        return 0;
      }
      s := disk.InStatus();
    }
  }

  /** A status without BSY: the outcome, or nothing yet. */
  ghost predicate Shows(disk: Disk, s: Status)
    reads disk
  {
    && (s.err || s.df ==> disk.phase.Failed? && disk.gap == 0)
    && (!s.err && !s.df && s.drq ==> !disk.phase.Failed? && disk.gap == 0)
  }

  lemma ByteOf(x: int, q: int, r: int)
    requires x == 0x100 * q + r && 0 <= r < 0x100
    ensures x % 0x100 == r
  {
  }

  lemma WordOf(x: int, q: int, r: int)
    requires x == 0x1_0000 * q + r && 0 <= r < 0x1_0000
    ensures x % 0x1_0000 == r
  {
  }

  /** Bits that a mask keeps are not changed by a wider mask. */
  lemma LowBits(start: int)
    ensures start % 0x1_0000 % 0x100 == start % 0x100
    ensures start % 0x100_0000 % 0x1_0000 == start % 0x1_0000
  {
    var x, w := start % 0x1_0000, start % 0x100_0000;
    ByteOf(start, 0x100 * (start / 0x1_0000) + x / 0x100, x % 0x100);
    WordOf(start, 0x100 * (start / 0x100_0000) + w / 0x1_0000, w % 0x1_0000);
  }

  lemma SplitWord(w: nat, x: nat)
    requires w < 0x100_0000 && x == w % 0x1_0000
    ensures w / 0x1_0000 < 0x100 && x / 0x100 < 0x100
    ensures x % 0x100 + 0x100 * (x / 0x100) + 0x1_0000 * (w / 0x1_0000) == w
  {
  }

  /** The register writes in front of a command. */
  method SetRegisters(disk: Disk, drive: u8, start: int, count: int)
    requires disk.Valid() && disk.Ready() && drive < 2
    modifies disk`devsel, disk`count, disk`lba0, disk`lba1, disk`lba2
    ensures disk.Valid() && disk.Ready()
    ensures disk.Selected() == drive && disk.NamesByNumber() && disk.devsel / 0x10 == 0xE + drive
    ensures disk.Lba() == Landing(start) && disk.count == count % 0x100
  {
    LowBits(start);
    SplitWord(start % 0x100_0000, start % 0x1_0000);
    disk.devsel := 0xE0 + 0x10 * drive;
    disk.count := count % 0x100;
    disk.lba0 := start % 0x100;
    disk.lba1 := start % 0x1_0000 / 0x100;
    disk.lba2 := start % 0x100_0000 / 0x1_0000;
  }

  /** The number of sectors that the disk is told; the driver sends eight bits of the count. */
  function Announced(count: int): (n: nat)
    ensures 1 <= n <= 256 && (n == count <==> 1 <= count <= 256)
  {
    SectorCount(count % 0x100)
  }

  /** A transfer in front of its first data block. */
  function Started(start: int, count: int, write: bool): Phase {
    if write then DataOut(Landing(start), Announced(count), []) else DataIn(Landing(start), Announced(count), 0)
  }

  /** The start of a transfer, up to its command to the drive that is named. */
  method Start(disk: Disk, drive: u8, start: int, count: int, write: bool)
    requires disk.Valid() && disk.settle == 0 && (disk.phase.Idle? || disk.phase.Failed?)
    requires drive < 2
    modifies disk`phase, disk`settle, disk`busy, disk`gap
    modifies disk`devsel, disk`count, disk`lba0, disk`lba1, disk`lba2
    ensures disk.Valid() && disk.Selected() == drive
    ensures disk.phase == Failed || disk.phase == Started(start, count, write)
  {
    WaitReady(disk);
    SetRegisters(disk, drive, start, count);
    if write {
      disk.CommandWrite();
    } else {
      disk.CommandRead();
    }
  }

  /** The inner loop of a read: one data block into the buffer. */
  method ReadSector(disk: Disk, buf: array<u16>, i: nat)
    requires disk.Valid() && disk.Quiet() && disk.phase.DataIn? && disk.phase.word == 0
    requires SECTOR_WORDS * (i + 1) <= buf.Length
    modifies buf, disk`phase, disk`settle, disk`busy, disk`gap
    ensures disk.Valid()
    ensures var p := old(disk.phase);
            && buf[..SECTOR_WORDS * (i + 1)] == old(buf[..SECTOR_WORDS * i]) + disk.Sectors()[p.at]
            && (disk.phase == Failed || disk.phase == if p.left == 1 then Idle else DataIn(p.at + 1, p.left - 1, 0))
            && (p.left == 1 ==> disk.phase != Failed)
    ensures forall k | SECTOR_WORDS * (i + 1) <= k < buf.Length :: buf[k] == old(buf[k])
  {
    ghost var before, p := buf[..SECTOR_WORDS * i], disk.phase;
    var sector := disk.Sectors()[p.at];
    var j := 0;
    while j < SECTOR_WORDS
      invariant 0 <= j <= SECTOR_WORDS && disk.Valid()
      invariant buf[..SECTOR_WORDS * i + j] == before + sector[..j]
      invariant if j < SECTOR_WORDS then disk.phase == p.(word := j) && disk.Quiet()
                else if p.left == 1 then disk.phase == Idle
                else disk.phase == Failed || disk.phase == DataIn(p.at + 1, p.left - 1, 0)
      invariant forall k | SECTOR_WORDS * i + j <= k < buf.Length :: buf[k] == old(buf[k])
    {
      var w := disk.InWord();
      var m := SECTOR_WORDS * i + j;
      buf[m] := w;
      assert buf[..m + 1] == buf[..m] + [w];
      assert sector[..j + 1] == sector[..j] + [w];
      j := j + 1;
    }
    assert sector[..SECTOR_WORDS] == sector;
  }

  /** A read of n sectors stands in front of block i, or has failed. */
  ghost predicate Reading(disk: Disk, buf: array<u16>, at: nat, i: nat, n: nat)
    reads disk, buf
    requires i <= n && SECTOR_WORDS * n <= buf.Length && |disk.drives| == 2
  {
    && (disk.phase == Failed || disk.phase == if i == n then Idle else DataIn(at + i, n - i, 0))
    && (i == n > 0 ==> disk.phase != Failed)
    && (disk.phase != Failed ==>
          at + i <= |disk.Sectors()| && buf[..SECTOR_WORDS * i] == WordsOf(disk.Sectors(), at, i))
  }

  /** One block of a read; ok is false if the drive has reported an error. */
  method ReadBlock(disk: Disk, buf: array<u16>, i: nat, ghost at: nat, ghost n: nat) returns (ok: bool)
    requires disk.Valid() && i < n && SECTOR_WORDS * n <= buf.Length && Reading(disk, buf, at, i, n)
    modifies buf, disk`phase, disk`settle, disk`busy, disk`gap
    ensures disk.Valid()
    ensures if ok then Reading(disk, buf, at, i + 1, n) else disk.phase == Failed
    ensures forall k | SECTOR_WORDS * n <= k < buf.Length :: buf[k] == old(buf[k])
  {
    var p := Poll(disk);
    if p != 0 {
      return false;
    }
    ReadSector(disk, buf, i);
    return true;
  }

  /**
   * ata_read: success means that the buffer holds the sectors of the drive named; otherwise
   * that drive has reported an error. A count that is not positive succeeds without a word being moved,
   * although the disk has been told to start.
   */
  method AtaRead(disk: Disk, drive: u8, start: int, count: int, buf: array<u16>) returns (r: int)
    requires disk.Valid() && disk.settle == 0 && (disk.phase.Idle? || disk.phase.Failed?)
    requires drive < 2 && count <= 256 && SECTOR_WORDS * count <= buf.Length
    modifies buf, disk`phase, disk`settle, disk`busy, disk`gap
    modifies disk`devsel, disk`count, disk`lba0, disk`lba1, disk`lba2
    ensures disk.Valid() && disk.Selected() == drive
    ensures count > 0 ==> (disk.phase.Idle? || disk.phase.Failed?) && r == if disk.phase.Failed? then -1 else 0
    ensures r == 0 && count > 0 ==>
              && Landing(start) + count <= |disk.drives[drive]|
              && buf[..SECTOR_WORDS * count] == WordsOf(disk.drives[drive], Landing(start), count)
    ensures count <= 0 ==> r == 0 && (disk.phase == Failed || disk.phase == Started(start, count, false))
    ensures forall k: nat | SECTOR_WORDS * count <= k < buf.Length :: buf[k] == old(buf[k])
  {
    Start(disk, drive, start, count, false);
    ghost var lba := Landing(start);
    var i := 0;
    while i < count
      invariant 0 <= i && (i <= count || i == 0) && disk.Valid() && disk.Selected() == drive
      invariant count <= 0 ==> disk.phase == Failed || disk.phase == Started(start, count, false)
      invariant count > 0 ==> Reading(disk, buf, lba, i, count)
      invariant forall k: nat | SECTOR_WORDS * count <= k < buf.Length :: buf[k] == old(buf[k])
    {
      var ok := ReadBlock(disk, buf, i, lba, count);
      if !ok {
        return -1;
      }
      i := i + 1;
    }
    return 0;
  }

  /** The drive that is not selected is as it was. */
  ghost predicate OtherDriveKept(disk: Disk, drives: seq<seq<Sector>>)
    reads disk
  {
    |disk.drives| == |drives| == 2 && disk.drives[1 - disk.Selected()] == drives[1 - disk.Selected()]
  }

  /** The inner loop of a write: one data block from the buffer. */
  method WriteSector(disk: Disk, buf: array<u16>, i: nat)
    requires disk.Valid() && disk.Quiet() && disk.phase.DataOut? && disk.phase.got == []
    requires SECTOR_WORDS * (i + 1) <= buf.Length
    modifies disk`drives, disk`phase, disk`settle, disk`busy, disk`gap
    ensures disk.Valid() && OtherDriveKept(disk, old(disk.drives))
    ensures var p, data := old(disk.phase), buf[SECTOR_WORDS * i..SECTOR_WORDS * (i + 1)];
            && |disk.Sectors()| == |old(disk.Sectors())|
            && disk.Sectors() == old(disk.Sectors())[p.at := disk.Sectors()[p.at]]
            && (disk.phase != Failed ==>
                  && disk.Sectors()[p.at] == data
                  && disk.phase == if p.left == 1 then Idle else DataOut(p.at + 1, p.left - 1, []))
  {
    ghost var p, data := disk.phase, buf[SECTOR_WORDS * i..SECTOR_WORDS * (i + 1)];
    var j := 0;
    while j < SECTOR_WORDS
      invariant 0 <= j <= SECTOR_WORDS && disk.Valid() && OtherDriveKept(disk, old(disk.drives))
      invariant j < SECTOR_WORDS ==>
                  disk.phase == p.(got := data[..j]) && disk.Quiet() && disk.Sectors() == old(disk.Sectors())
      invariant j == SECTOR_WORDS ==>
                  && |disk.Sectors()| == |old(disk.Sectors())|
                  && disk.Sectors() == old(disk.Sectors())[p.at := disk.Sectors()[p.at]]
                  && (disk.phase != Failed ==>
                        && disk.Sectors()[p.at] == data
                        && disk.phase == if p.left == 1 then Idle else DataOut(p.at + 1, p.left - 1, []))
    {
      assert data[..j + 1] == data[..j] + [buf[SECTOR_WORDS * i + j]];
      assert j + 1 == SECTOR_WORDS ==> data[..j + 1] == data;
      disk.OutWord(buf[SECTOR_WORDS * i + j]);
      j := j + 1;
    }
  }

  /** All sectors of a write but the last one are as they should be; that one may be anything. */
  ghost predicate AllButLast(before: seq<Sector>, after: seq<Sector>, at: nat, words: seq<u16>, n: nat) {
    && n > 0 && at + n <= |before| == |after| && SECTOR_WORDS * n <= |words|
    && after == Stored(before, at, words, n - 1)[at + n - 1 := after[at + n - 1]]
  }

  /** One more block: the disk has taken it, or has put anything in its place. */
  lemma BlockStored(before: seq<Sector>, now: seq<Sector>, after: seq<Sector>, at: nat, words: seq<u16>, i: nat, n: nat)
    requires i < n && at + i < |before| && SECTOR_WORDS * n <= |words| && now == Stored(before, at, words, i)
    requires |after| == |now| && after == now[at + i := after[at + i]] && OthersKept(before, now, at, n)
    ensures after[at + i] == words[SECTOR_WORDS * i..SECTOR_WORDS * (i + 1)] ==>
              after == Stored(before, at, words, i + 1)
    ensures AllButLast(before, after, at, words, i + 1) && OthersKept(before, after, at, n)
  {
  }

  /** A write of n blocks stands in front of block i, or has failed. */
  ghost predicate Writing(disk: Disk, before: seq<Sector>, at: nat, words: seq<u16>, i: nat, n: nat)
    reads disk
    requires i <= n && SECTOR_WORDS * n <= |words| && |disk.drives| == 2
  {
    && (disk.phase == Failed || disk.phase == if i == n then Idle else DataOut(at + i, n - i, []))
    && (disk.phase != Failed ==> at + i <= |before| && disk.Sectors() == Stored(before, at, words, i))
    && (i == n && n > 0 ==> AllButLast(before, disk.Sectors(), at, words, n))
    && OthersKept(before, disk.Sectors(), at, n)
  }

  /** One block of a write; ok is false if the disk has reported an error. */
  method WriteBlock(disk: Disk, buf: array<u16>, i: nat, ghost before: seq<Sector>, ghost at: nat, ghost n: nat)
    returns (ok: bool)
    requires disk.Valid() && i < n && SECTOR_WORDS * n <= buf.Length
    requires Writing(disk, before, at, buf[..], i, n)
    modifies disk`drives, disk`phase, disk`settle, disk`busy, disk`gap
    ensures disk.Valid() && OtherDriveKept(disk, old(disk.drives))
    ensures if ok then Writing(disk, before, at, buf[..], i + 1, n)
            else disk.phase == Failed && OthersKept(before, disk.Sectors(), at, n)
  {
    var p := Poll(disk);
    if p != 0 {
      return false;
    }
    ghost var now := disk.Sectors();
    WriteSector(disk, buf, i);
    assert buf[SECTOR_WORDS * i..SECTOR_WORDS * (i + 1)] == buf[..][SECTOR_WORDS * i..SECTOR_WORDS * (i + 1)];
    BlockStored(before, now, disk.Sectors(), at, buf[..], i, n);
    return true;
  }

  /**
   * ata_write: success means that the sectors of the drive named hold the buffer, unless it
   * reports an error behind the last one, which the driver does not look for; then that one
   * may be anything. No other sector of either drive changes, whatever happens. A count that is not positive
   * succeeds without a word being moved, although the disk has been told to start.
   */
  method AtaWrite(disk: Disk, drive: u8, start: int, count: int, buf: array<u16>) returns (r: int)
    requires disk.Valid() && disk.settle == 0 && (disk.phase.Idle? || disk.phase.Failed?)
    requires drive < 2 && count <= 256 && SECTOR_WORDS * count <= buf.Length
    modifies disk
    ensures disk.Valid() && disk.Selected() == drive && OtherDriveKept(disk, old(disk.drives))
    ensures count > 0 ==> disk.phase.Idle? || disk.phase.Failed?
    ensures (r == 0 || r == -1) && (r == -1 ==> disk.phase.Failed?)
    ensures r == 0 && count > 0 && disk.phase.Idle? ==>
              && Landing(start) + count <= |old(disk.drives[drive])|
              && disk.drives[drive] == Stored(old(disk.drives[drive]), Landing(start), buf[..], count)
    ensures r == 0 && count > 0 ==>
              AllButLast(old(disk.drives[drive]), disk.drives[drive], Landing(start), buf[..], count)
    ensures count <= 0 ==> r == 0 && (disk.phase == Failed || disk.phase == Started(start, count, true))
    ensures OthersKept(old(disk.drives[drive]), disk.drives[drive], Landing(start), if count > 0 then count else 0)
  {
    Start(disk, drive, start, count, true);
    ghost var lba, before := Landing(start), disk.Sectors();
    var i := 0;
    while i < count
      invariant 0 <= i && (i <= count || i == 0) && disk.Valid()
      invariant disk.Selected() == drive && OtherDriveKept(disk, old(disk.drives))
      invariant count <= 0 ==> (disk.phase == Failed || disk.phase == Started(start, count, true))
                               && disk.Sectors() == before
      invariant count > 0 ==> Writing(disk, before, lba, buf[..], i, count)
    {
      var ok := WriteBlock(disk, buf, i, before, lba, count);
      if !ok {
        return -1;
      }
      i := i + 1;
    }
    return 0;
  }

  /**
   * A write, and later a read of the same sectors: if both succeed and the drive reports no
   * late error, the read gives back what was written; no other sector of either drive changes.
   */
  method WriteThenRead(disk: Disk, drive: u8, start: int, count: int, src: array<u16>, dst: array<u16>)
    returns (w: int, r: int, lateError: bool)
    requires disk.Valid() && disk.settle == 0 && (disk.phase.Idle? || disk.phase.Failed?)
    requires drive < 2 && 1 <= count <= 256
    requires src != dst && SECTOR_WORDS * count <= src.Length && SECTOR_WORDS * count <= dst.Length
    modifies disk, dst
    ensures w == 0 && r == 0 && !lateError ==> dst[..SECTOR_WORDS * count] == src[..SECTOR_WORDS * count]
    ensures |disk.drives| == |old(disk.drives)| == 2
    ensures w == 0 && !lateError ==>
              && Landing(start) + count <= |old(disk.drives[drive])|
              && disk.drives[drive] == Stored(old(disk.drives[drive]), Landing(start), src[..], count)
    ensures OthersKept(old(disk.drives[drive]), disk.drives[drive], Landing(start), count)
    ensures disk.drives[1 - drive] == old(disk.drives[1 - drive])
  {
    ghost var before := disk.drives[drive];
    w := AtaWrite(disk, drive, start, count, src);
    lateError := disk.phase.Failed?;
    disk.Elapse();
    r := AtaRead(disk, drive, start, count, dst);
    if w == 0 && r == 0 && !lateError {
      StoredReadsBack(before, Landing(start), src[..], count);
      assert src[..][..SECTOR_WORDS * count] == src[..SECTOR_WORDS * count];
    }
  }
}
