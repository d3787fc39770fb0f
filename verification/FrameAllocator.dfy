/** The physical frame allocator of mem.c: memory-map setup, allocation, release. */
module FrameAllocation {
  import opened Words
  import opened FrameMap
  import opened PackedBitmap

  const FRAME_SIZE: int := 4096
  const BITMAP_ADDR: int := 0x0010_0000
  const KERNEL_FIRST_FRAME: int := 256
  const STACK_FRAME: int := 767
  const USER_FIRST_FRAME: int := 768
  const REGION_AVAILABLE: int := 1

  // Bytes between the bitmap's address and the end of the 32-bit address space.
  const ADDRESSABLE: int := 0xFFF0_0000

  /** One entry of the BIOS memory map. */
  datatype Region = Region(base: u64, size: u64, kind: u32) {
    predicate IsTerminator() {
      size == 0 && base == 0 && kind == 0
    }

    function End(): u64 {
      Add64(base, size)
    }

    /** Frame f lies in the inclusive frame span of the region. */
    predicate Spans(f: nat) {
      base / FRAME_SIZE <= f <= End() / FRAME_SIZE
    }

    /** The byte at an address lies in the region. */
    predicate Contains(a: nat) {
      base <= a < End()
    }

    /** The region is available and covers the bytes set aside for the bitmap. */
    predicate HoldsBitmap(total: nat) {
      && kind == REGION_AVAILABLE
      && base <= BITMAP_ADDR
      && End() >= BITMAP_ADDR + total * 2
    }
  }

  /** The sum of base and size, as 64 bits keep it. */
  lemma EndIs(e: Region)
    ensures e.End() == (e.base + e.size) % U64_LIMIT
  {
  }

  /** A region spans the frames of its bytes and of the address behind them. */
  lemma SpansIs(e: Region, f: nat)
    requires e.base <= e.End()
    ensures e.Spans(f) <==> exists a: nat :: e.base <= a <= e.End() && a / FRAME_SIZE == f
  {
    if e.Spans(f) {
      var a := if e.base / FRAME_SIZE == f then e.base else FRAME_SIZE * f;
      assert a / FRAME_SIZE == f;
    }
  }

  /** A region holds the bitmap exactly if it is available and has all the bytes set aside, two for each frame. */
  lemma HoldsBitmapIs(e: Region, total: nat)
    requires total > 0
    ensures e.HoldsBitmap(total)
       <==> e.kind == REGION_AVAILABLE && forall a: nat | BITMAP_ADDR <= a < BITMAP_ADDR + 2 * total :: e.Contains(a)
  {
    if forall a: nat | BITMAP_ADDR <= a < BITMAP_ADDR + 2 * total :: e.Contains(a) {
      assert e.Contains(BITMAP_ADDR) && e.Contains(BITMAP_ADDR + 2 * total - 1);
    }
  }

  /** The entries in front of the terminator. */
  function Regions(mmap: seq<Region>): seq<Region> {
    if mmap == [] || mmap[0].IsTerminator() then [] else [mmap[0]] + Regions(mmap[1..])
  }

  /** The scan of a memory map stops somewhere. */
  ghost predicate Terminated(mmap: seq<Region>) {
    exists i :: 0 <= i < |mmap| && mmap[i].IsTerminator()
  }

  function MaxEnd(regions: seq<Region>): u64
  {
    if regions == [] then 0
    else
      var before := MaxEnd(regions[..|regions| - 1]);
      var end := regions[|regions| - 1].End();
      if end > before then end else before
  }

  /** It is the end of a region, if there is one, and no region ends later. */
  lemma {:induction false} MaxEndIs(regions: seq<Region>)
    ensures forall e | e in regions :: e.End() <= MaxEnd(regions)
    ensures MaxEnd(regions) == 0 || exists e :: e in regions && e.End() == MaxEnd(regions)
  {
    if regions != [] {
      var front, last := regions[..|regions| - 1], regions[|regions| - 1];
      MaxEndIs(front);
      assert last in regions && forall e :: e in regions <==> e in front || e == last;
    }
  }

  function TotalFrames(regions: seq<Region>): nat {
    MaxEnd(regions) / FRAME_SIZE
  }

  /** The frames that end at or below the end of memory, all of them. */
  lemma TotalFramesIs(regions: seq<Region>, f: nat)
    ensures f < TotalFrames(regions) <==> FRAME_SIZE * (f + 1) <= MaxEnd(regions)
  {
  }

  ghost predicate BitmapFits(regions: seq<Region>) {
    exists e :: e in regions && e.HoldsBitmap(TotalFrames(regions))
  }

  /** The last frame that holds bitmap bytes, as mem_init computes it. */
  function BitmapLastFrame(total: nat): nat {
    (BITMAP_ADDR + total / 4) / FRAME_SIZE
  }

  /** No entry of a frame lies behind it, and it does not lie behind the last byte that can hold one. */
  lemma BitmapLastFrameIs(total: nat, f: nat)
    requires f < total
    ensures (BITMAP_ADDR + f / 4) / FRAME_SIZE <= BitmapLastFrame(total)
    ensures FRAME_SIZE * BitmapLastFrame(total) <= BITMAP_ADDR + total / 4
  {
  }

  ghost predicate SpannedByUnavailable(regions: seq<Region>, f: nat) {
    exists e :: e in regions && e.kind != REGION_AVAILABLE && e.Spans(f)
  }

  /** What mem_init promises: a frame is reserved for a reason, or it is free. */
  ghost function InitialMap(regions: seq<Region>): (m: Map)
    ensures |m| == TotalFrames(regions)
    ensures forall f | 0 <= f < |m| ::
              m[f] == if f <= BitmapLastFrame(|m|) || SpannedByUnavailable(regions, f) then Reserved else Free
  {
    var total := TotalFrames(regions);
    seq(total, f requires 0 <= f < total =>
      if f <= BitmapLastFrame(total) || SpannedByUnavailable(regions, f) then Reserved else Free)
  }

  /** Room for the bitmap bounds the frame count and every bitmap access. */
  lemma BitmapFitsBounds(regions: seq<Region>)
    requires BitmapFits(regions)
    requires 2 * TotalFrames(regions) <= ADDRESSABLE
    ensures 256 <= TotalFrames(regions)
    ensures BitmapLastFrame(TotalFrames(regions)) / 4 < 2 * TotalFrames(regions)
    ensures forall e | e in regions :: e.End() / FRAME_SIZE <= TotalFrames(regions)
  {
    var total := TotalFrames(regions);
    var e :| e in regions && e.HoldsBitmap(total);
    var top := MaxEnd(regions);
    MaxEndIs(regions);
    assert BITMAP_ADDR + 2 * total <= e.End() <= top < (total + 1) * FRAME_SIZE;
  }

  /** The entries a scan visits before it meets the terminator. */
  lemma {:induction false} RegionsStop(mmap: seq<Region>)
    requires Terminated(mmap)
    ensures |Regions(mmap)| < |mmap| && mmap[|Regions(mmap)|] == Region(0, 0, 0)
    ensures forall i | 0 <= i < |Regions(mmap)| :: Regions(mmap)[i] == mmap[i] && mmap[i] != Region(0, 0, 0)
  {
    if !mmap[0].IsTerminator() {
      var i :| 0 <= i < |mmap| && mmap[i].IsTerminator();
      assert mmap[1..][i - 1].IsTerminator();
      RegionsStop(mmap[1..]);
    }
  }

  ghost function Reserve(m: Map, first: nat, last: nat): (r: Map)
    ensures |r| == |m|
    ensures forall f | 0 <= f < |m| :: r[f] == if first <= f < last then Reserved else m[f]
  {
    seq(|m|, f requires 0 <= f < |m| => if first <= f < last then Reserved else m[f])
  }

  lemma ReserveStep(m: Map, first: nat, f: nat)
    requires first <= f
    ensures Reserve(m, first, f + 1)
         == if f < |m| then Reserve(m, first, f)[f := Reserved] else Reserve(m, first, f)
  {
  }

  lemma ReserveLimit(m: Map, first: nat, l1: nat, l2: nat)
    requires l1 == l2 || (l1 <= first && l2 <= first)
    ensures Reserve(m, first, l1) == Reserve(m, first, l2)
  {
  }

  /** The map once the spans of the given regions are reserved. */
  ghost function ReservedFor(regions: seq<Region>, total: nat): (m: Map)
    ensures |m| == total
    ensures forall f | 0 <= f < total ::
              m[f] == if SpannedByUnavailable(regions, f) then Reserved else Free
  {
    seq(total, f requires 0 <= f < total => if SpannedByUnavailable(regions, f) then Reserved else Free)
  }

  lemma ReservedForStep(regions: seq<Region>, j: nat, total: nat)
    requires j < |regions|
    ensures ReservedFor(regions[..j + 1], total)
         == var e := regions[j];
            if e.kind == REGION_AVAILABLE then ReservedFor(regions[..j], total)
            else Reserve(ReservedFor(regions[..j], total), e.base / FRAME_SIZE, e.End() / FRAME_SIZE + 1)
  {
    var e := regions[j];
    assert regions[..j + 1] == regions[..j] + [e];
    forall f: nat | f < total
      ensures SpannedByUnavailable(regions[..j + 1], f)
         <==> SpannedByUnavailable(regions[..j], f) || (e.kind != REGION_AVAILABLE && e.Spans(f))
    {
      if e.kind != REGION_AVAILABLE && e.Spans(f) {
        assert e in regions[..j + 1];
      }
      if w :| w in regions[..j] && w.kind != REGION_AVAILABLE && w.Spans(f) {
        assert w in regions[..j + 1];
      }
    }
  }

  /** A cleared bitmap maps every frame to Free. */
  lemma {:induction false} ZeroMapIsFree(bytes: seq<bv8>, n: nat)
    requires n <= 4 * |bytes|
    requires forall i | 0 <= i < |bytes| && 4 * i < n :: bytes[i] == 0
    ensures ToMap(bytes, n) == seq(n, _ => Free)
  {
    if n > 0 {
      ZeroMapIsFree(bytes, n - 1);
      ZeroIsFree(bytes, n - 1);
    }
  }

  /** The frame an allocation starts at; a request for none lands after the first frame in use. */
  ghost function AllocationStart(m: Map, count: nat, first: nat, last: nat): (r: Option<nat>)
    requires last <= |m|
    ensures r.Some? ==> r.value + count <= last
    decreases last - first
  {
    if count > 0 then FirstRun(m, count, first, last)
    else if first >= last then None
    else if m[first] != Free then Some(first + 1)
    else AllocationStart(m, count, first + 1, last)
  }

  /** A request for no frames gets the address behind the first frame in use, or NULL if all are free. */
  lemma {:induction false} StartOfNone(m: Map, first: nat, last: nat)
    requires last <= |m|
    ensures match AllocationStart(m, 0, first, last)
            case None => forall f | first <= f < last :: m[f] == Free
            case Some(k) => first < k <= last && m[k - 1] != Free && forall f | first <= f < k - 1 :: m[f] == Free
    decreases last - first
  {
    if first < last && m[first] == Free {
      StartOfNone(m, first + 1, last);
    }
  }

  // ------------------------------------------------- addresses of allocations

  // Frame numbers from here on do not fit a 32-bit address.
  const ADDRESS_FRAMES: int := 0x10_0000

  /** The address mem_allocate_frames returns. */
  ghost function AllocatedAddress(m: Map, count: nat, first: nat, limit: nat): u32
    requires limit <= |m|
  {
    match AllocationStart(m, count, first, limit)
    case None => 0
    case Some(k) => ToU32(k * FRAME_SIZE)
  }

  /** The map after a caller has allocated frames and, unless it got NULL, given them back by their address. */
  ghost function GivenBack(m: Map, count: u32, first: u32, limit: u32): (r: Map)
    requires limit <= |m|
    ensures |r| == |m|
  {
    match AllocationStart(m, count, first, limit)
    case None => m
    case Some(k) =>
      var taken, addr := Fill(m, k, count, Used), ToU32(k * FRAME_SIZE);
      if addr == 0 then taken else Release(taken, addr / FRAME_SIZE, ToU32(addr / FRAME_SIZE + count))
  }

  lemma LowBits(x: nat, q: nat, r: nat)
    requires x == U32_LIMIT * q + r && r < U32_LIMIT
    ensures ToU32(x) == r
  {
  }

  /** The frame that an address names. */
  lemma AddressFrame(k: nat)
    ensures ToU32(k * FRAME_SIZE) == (k % ADDRESS_FRAMES) * FRAME_SIZE
    ensures ToU32(k * FRAME_SIZE) / FRAME_SIZE == k % ADDRESS_FRAMES
  {
    LowBits(k * FRAME_SIZE, k / ADDRESS_FRAMES, (k % ADDRESS_FRAMES) * FRAME_SIZE);
  }

  /** What is given back restores the map if and only if the run has an address that is not NULL. */
  lemma GivenBackIff(m: Map, count: u32, first: u32, limit: u32)
    requires limit <= |m| && count > 0 && AllocationStart(m, count, first, limit).Some?
    ensures GivenBack(m, count, first, limit) == m
       <==> 0 < AllocationStart(m, count, first, limit).value < ADDRESS_FRAMES
  {
    var k := AllocationStart(m, count, first, limit).value;
    AddressFrame(k);
    var r := GivenBack(m, count, first, limit);
    if 0 < k < ADDRESS_FRAMES {
      ReleaseUndoesAllocation(m, count, first, limit);
    } else {
      assert m[k + count - 1] == Free && r[k + count - 1] == Used;
    }
  }

  /** What every map of the allocator has: the frames up to the last one of the bitmap are reserved. */
  ghost predicate BitmapReserved(m: Map) {
    forall f | 0 <= f < |m| && f <= BitmapLastFrame(|m|) :: m[f] == Reserved
  }

  /** So the frame with the byte of any entry is reserved. */
  lemma EntriesReserved(m: Map, f: nat, frame: nat)
    requires BitmapReserved(m) && f < |m| && frame < |m|
    requires FRAME_SIZE * frame <= BITMAP_ADDR + f / 4 < FRAME_SIZE * (frame + 1)
    ensures m[frame] == Reserved
  {
    BitmapLastFrameIs(|m|, f);
  }

  /** mem_init establishes that, and allocating and releasing keep it. */
  lemma BitmapStaysReserved(regions: seq<Region>, m: Map, count: u32, first: u32, limit: u32, last: nat)
    requires BitmapReserved(m) && limit <= |m| && count > 0
    ensures BitmapReserved(InitialMap(regions))
    ensures BitmapReserved(Release(m, first, last))
    ensures var start := AllocationStart(m, count, first, limit);
            start.Some? ==> BitmapReserved(Fill(m, start.value, count, Used)) && start.value > BitmapLastFrame(|m|)
  {
    var start := AllocationStart(m, count, first, limit);
    if start.Some? {
      assert FreeRun(m, start.value, count) && m[start.value] == Free;
    }
  }

  /** A map whose only free frames are the run from k on, behind the bitmap. */
  ghost function OnlyRun(total: nat, k: nat, count: nat): (m: Map)
    ensures |m| == total
    ensures forall f | 0 <= f < total ::
              m[f] == if f <= BitmapLastFrame(total) then Reserved else if k <= f < k + count then Free else Used
  {
    seq(total, f requires 0 <= f < total =>
      if f <= BitmapLastFrame(total) then Reserved else if k <= f < k + count then Free else Used)
  }

  lemma OnlyRunIsFound(total: nat, k: nat, count: nat, first: nat, limit: nat)
    requires count > 0 && first <= k && k + count <= limit <= total && BitmapLastFrame(total) < k
    ensures BitmapReserved(OnlyRun(total, k, count))
    ensures AllocationStart(OnlyRun(total, k, count), count, first, limit) == Some(k)
  {
    OneHoleFirstRun(OnlyRun(total, k, count), count, first, limit, k, k + count);
  }

  /** An addressable bitmap ends long before the frames that have no address. */
  lemma BitmapLastIsLow(total: nat)
    requires 2 * total <= ADDRESSABLE
    ensures 0 < BitmapLastFrame(total) < ADDRESS_FRAMES
  {
  }

  /**
   * The caller's form: giving back restores every map the allocator can have if and only
   * if no run of the range starts at a frame beyond the 32-bit addresses.
   */
  lemma GivenBackAlwaysIff(total: nat, count: u32, first: u32, limit: u32)
    requires count > 0 && first + count <= limit <= total && 2 * total <= ADDRESSABLE
    ensures (forall m: Map | |m| == total && BitmapReserved(m) :: GivenBack(m, count, first, limit) == m)
       <==> limit < ADDRESS_FRAMES + count
  {
    BitmapLastIsLow(total);
    if limit < ADDRESS_FRAMES + count {
      forall m: Map | |m| == total && BitmapReserved(m)
        ensures GivenBack(m, count, first, limit) == m
      {
        if AllocationStart(m, count, first, limit).Some? {
          BitmapStaysReserved([], m, count, first, limit, 0);
          GivenBackIff(m, count, first, limit);
        }
      }
    } else {
      var k := limit - count;
      var m := OnlyRun(total, k, count);
      OnlyRunIsFound(total, k, count, first, limit);
      GivenBackIff(m, count, first, limit);
      assert GivenBack(m, count, first, limit) != m;
    }
  }

  /**
   * NULL means that there is no run, in every map the allocator can have, if and only if no
   * run of the range starts at 4 GB or a multiple of it.
   */
  lemma NullMeansNoneIff(total: nat, count: u32, first: u32, limit: u32)
    requires count > 0 && first + count <= limit <= total && 2 * total <= ADDRESSABLE
    ensures (forall m: Map | |m| == total && BitmapReserved(m) ::
               AllocatedAddress(m, count, first, limit) == 0 <==> AllocationStart(m, count, first, limit) == None)
       <==> (if first == 0 then 0 else first - 1) / ADDRESS_FRAMES == (limit - count) / ADDRESS_FRAMES
  {
    BitmapLastIsLow(total);
    var low: nat := if first == 0 then 1 else first;
    if (low - 1) / ADDRESS_FRAMES == (limit - count) / ADDRESS_FRAMES {
      forall m: Map | |m| == total && BitmapReserved(m)
        ensures AllocatedAddress(m, count, first, limit) == 0 <==> AllocationStart(m, count, first, limit) == None
      {
        var start := AllocationStart(m, count, first, limit);
        if start.Some? {
          BitmapStaysReserved([], m, count, first, limit, 0);
          AddressFrame(start.value);
          NoMultipleBetween(low, start.value, limit - count);
        }
      }
    } else {
      var k := (limit - count) / ADDRESS_FRAMES * ADDRESS_FRAMES;
      MultipleBetween(low, limit - count);
      var m := OnlyRun(total, k, count);
      OnlyRunIsFound(total, k, count, first, limit);
      AddressFrame(k);
      assert AllocatedAddress(m, count, first, limit) == 0;
    }
  }

  lemma NoMultipleBetween(first: nat, k: nat, last: nat)
    requires 0 < first <= k <= last && (first - 1) / ADDRESS_FRAMES == last / ADDRESS_FRAMES
    ensures k % ADDRESS_FRAMES != 0
  {
  }

  lemma MultipleBetween(first: nat, last: nat)
    requires 0 < first <= last && (first - 1) / ADDRESS_FRAMES != last / ADDRESS_FRAMES
    ensures first <= last / ADDRESS_FRAMES * ADDRESS_FRAMES <= last
    ensures ADDRESS_FRAMES <= last / ADDRESS_FRAMES * ADDRESS_FRAMES
    ensures last / ADDRESS_FRAMES * ADDRESS_FRAMES % ADDRESS_FRAMES == 0
  {
  }

  /**
   * Above 4 GB: with frame 0x10_0201 the only free one, a caller that takes it and gives it
   * back frees the used frame 0x201 instead.
   */
  lemma HighFramesAreLost()
    ensures var m := OnlyRun(0x10_0202, 0x10_0201, 1);
            && BitmapReserved(m) && m[0x201] == Used
            && GivenBack(m, 1, 256, 0x10_0202) == Fill(m, 0x10_0201, 1, Used)[0x201 := Free]
  {
    OnlyRunIsFound(0x10_0202, 0x10_0201, 1, 256, 0x10_0202);
    AddressFrame(0x10_0201);
    ReleaseOneFrame(Fill(OnlyRun(0x10_0202, 0x10_0201, 1), 0x10_0201, 1, Used), 0x201);
  }

  /** With frame 0x10_0000 the only free one, the caller gets NULL although the frame is marked. */
  lemma HighFrameIsNull()
    ensures var m := OnlyRun(0x10_0202, 0x10_0000, 1);
            && BitmapReserved(m)
            && AllocationStart(m, 1, 256, 0x10_0202) == Some(0x10_0000)
            && AllocatedAddress(m, 1, 256, 0x10_0202) == 0
            && GivenBack(m, 1, 256, 0x10_0202)[0x10_0000] == Used
  {
    OnlyRunIsFound(0x10_0202, 0x10_0000, 1, 256, 0x10_0202);
    AddressFrame(0x10_0000);
  }

  class FrameAllocator {
    const bitmap: array<bv8>
    var totalFrames: u64

    constructor (bytes: array<bv8>)
      ensures bitmap == bytes && totalFrames == 0
    {
      bitmap := bytes;
      totalFrames := 0;
    }

    /** The bitmap region mem_init verified is addressable. */
    ghost predicate Valid()
      reads this
    {
      2 * totalFrames <= bitmap.Length <= ADDRESSABLE
    }

    ghost function Statuses(): (m: Map)
      reads this, bitmap
      requires Valid()
      ensures |m| == totalFrames
    {
      ToMap(bitmap[..], totalFrames)
    }

    /** The upper limit an allocation call works with. */
    function Clamp(last: u32): (r: u32)
      reads this
      requires Valid()
      ensures r <= totalFrames
    {
      if last == 0 || last > totalFrames then ToU32(totalFrames) else last
    }

    /** Below it are the frames of memory below the limit that the caller names; naming none means all of them. */
    lemma ClampIs(last: u32, f: nat)
      requires Valid()
      ensures f < Clamp(last) <==> f < totalFrames && (last == 0 || f < last)
    {
    }

    method SetEntry(frame: u32, status: Status)
      requires Valid() && frame / 4 < 2 * totalFrames
      modifies bitmap
      ensures Statuses() == if frame < totalFrames then old(Statuses())[frame := status] else old(Statuses())
      ensures StatusAt(bitmap[..], frame) == status
      ensures forall i | 0 <= i < bitmap.Length && i != frame / 4 :: bitmap[i] == old(bitmap[i])
    {
      WithEntryMap(bitmap[..], totalFrames, frame, status);
      WithEntryStatus(bitmap[..], frame, status, frame);
      bitmap[frame / 4] := SetSlot(bitmap[frame / 4], frame % 4, Encode(status));
      assert bitmap[..] == WithEntry(old(bitmap[..]), frame, status);
    }

    method GetEntry(frame: u32) returns (status: Status)
      requires Valid() && frame / 4 < 2 * totalFrames
      ensures status == StatusAt(bitmap[..], frame)
      ensures frame < totalFrames ==> status == Statuses()[frame]
    {
      var pack := bitmap[frame / 4];
      status := Decode((pack >> ((frame % 4) * 2)) & 0x03);
      if frame < totalFrames {
        ToMapAt(bitmap[..], totalFrames, frame);
      }
    }

    /** memset over the region set aside for the bitmap. */
    method ClearBitmap(count: u32)
      requires Valid() && count <= bitmap.Length
      modifies bitmap
      ensures forall i | 0 <= i < bitmap.Length :: bitmap[i] == if i < count then 0 else old(bitmap[i])
    {
      var i := 0;
      while i < count
        invariant 0 <= i <= count
        invariant forall j | 0 <= j < bitmap.Length :: bitmap[j] == if j < i then 0 else old(bitmap[j])
      {
        bitmap[i] := 0;
        i := i + 1;
      }
    }

    /** One frame, and the check that its entry reads back. */
    method ReserveFrame(frame: u32) returns (ok: bool)
      requires Valid() && frame / 4 < 2 * totalFrames
      modifies bitmap
      ensures ok
      ensures Statuses() == if frame < totalFrames then old(Statuses())[frame := Reserved] else old(Statuses())
      ensures forall i | 0 <= i < bitmap.Length && i != frame / 4 :: bitmap[i] == old(bitmap[i])
    {
      SetEntry(frame, Reserved);
      var status := GetEntry(frame);
      return status == Reserved;
    }

    /** Reserves the frames first to last; the read-back check never fails. */
    method ReserveFrames(first: u64, last: u64) returns (ok: bool)
      requires Valid() && last < 0x8000_0000 && last / 4 < 2 * totalFrames
      modifies bitmap
      ensures ok
      ensures Statuses() == Reserve(old(Statuses()), first, last + 1)
      ensures forall i | 2 * totalFrames <= i < bitmap.Length :: bitmap[i] == old(bitmap[i])
    {
      ghost var m := Statuses();
      assert Reserve(m, first, first) == m;
      var f: u64 := first;
      while f <= last
        invariant first <= f && (if first <= last then f <= last + 1 else f == first)
        invariant Statuses() == Reserve(m, first, f)
        invariant forall i | 2 * totalFrames <= i < bitmap.Length :: bitmap[i] == old(bitmap[i])
      {
        ReserveStep(m, first, f);
        assert ToU32(f) == f;
        ok := ReserveFrame(ToU32(f));
        if !ok {
          return;
        }
        f := f + 1;
      }
      ReserveLimit(m, first, f, last + 1);
      return true;
    }

    /** First pass over the memory map: the highest address. */
    method HighestAddress(mmap: seq<Region>) returns (maxAddr: u64)
      requires Terminated(mmap)
      ensures maxAddr == MaxEnd(Regions(mmap))
    {
      ghost var regions := Regions(mmap);
      RegionsStop(mmap);
      var j := 0;
      maxAddr := 0;
      while !mmap[j].IsTerminator()
        invariant 0 <= j <= |regions|
        invariant maxAddr == MaxEnd(regions[..j])
        decreases |regions| - j
      {
        assert regions[..j + 1][..j] == regions[..j];
        if mmap[j].End() > maxAddr {
          maxAddr := mmap[j].End();
        }
        j := j + 1;
      }
      assert regions[..j] == regions;
    }

    /** Second pass: an available region with room for the bitmap. */
    method FindRoom(mmap: seq<Region>) returns (found: bool)
      requires Terminated(mmap) && totalFrames == TotalFrames(Regions(mmap))
      ensures found == BitmapFits(Regions(mmap))
    {
      ghost var regions := Regions(mmap);
      RegionsStop(mmap);
      var j := 0;
      while !mmap[j].IsTerminator() && !mmap[j].HoldsBitmap(totalFrames)
        invariant 0 <= j <= |regions|
        invariant forall i | 0 <= i < j :: !regions[i].HoldsBitmap(totalFrames)
        decreases |regions| - j
      {
        j := j + 1;
      }
      found := !mmap[j].IsTerminator();
      if found {
        assert regions[j] in regions;
      }
    }

    /** One region of the third pass. */
    method ReserveRegion(e: Region, ghost regions: seq<Region>, ghost j: nat) returns (ok: bool)
      requires j < |regions| && e == regions[j] && Valid()
      requires totalFrames == TotalFrames(regions) && BitmapFits(regions)
      requires Statuses() == ReservedFor(regions[..j], totalFrames)
      modifies bitmap
      ensures ok && Statuses() == ReservedFor(regions[..j + 1], totalFrames)
      ensures forall i | 2 * totalFrames <= i < bitmap.Length :: bitmap[i] == old(bitmap[i])
    {
      ok := true;
      ReservedForStep(regions, j, totalFrames);
      if e.kind != REGION_AVAILABLE {
        BitmapFitsBounds(regions);
        assert e in regions;
        ok := ReserveFrames(e.base / FRAME_SIZE, e.End() / FRAME_SIZE);
      }
    }

    /** Third pass: the frames of every region that is not available. */
    method ReserveUnavailable(mmap: seq<Region>) returns (ok: bool)
      requires Terminated(mmap) && totalFrames == TotalFrames(Regions(mmap)) && Valid()
      requires BitmapFits(Regions(mmap))
      requires Statuses() == ReservedFor([], totalFrames)
      modifies bitmap
      ensures ok
      ensures Statuses() == ReservedFor(Regions(mmap), totalFrames)
      ensures forall i | 2 * totalFrames <= i < bitmap.Length :: bitmap[i] == old(bitmap[i])
    {
      ghost var regions := Regions(mmap);
      RegionsStop(mmap);
      var j := 0;
      while !mmap[j].IsTerminator()
        invariant 0 <= j <= |regions|
        invariant Statuses() == ReservedFor(regions[..j], totalFrames)
        invariant forall i | 2 * totalFrames <= i < bitmap.Length :: bitmap[i] == old(bitmap[i])
        decreases |regions| - j
      {
        var reserved := ReserveRegion(mmap[j], regions, j);
        if !reserved {
          return false;
        }
        j := j + 1;
      }
      assert regions[..j] == regions;
      return true;
    }

    /**
     * mem_init up to the start of the heap allocator: sizes the memory, looks
     * for room for the bitmap, and fills it from the memory map.
     */
    method Init(mmap: seq<Region>) returns (r: int)
      requires Terminated(mmap)
      requires BitmapFits(Regions(mmap)) ==> 2 * TotalFrames(Regions(mmap)) <= bitmap.Length <= ADDRESSABLE
      modifies this, bitmap
      ensures totalFrames == TotalFrames(Regions(mmap))
      ensures r == if BitmapFits(Regions(mmap)) then 0 else -1
      ensures r == 0 ==> Valid() && Statuses() == InitialMap(Regions(mmap))
      ensures r == -1 ==> bitmap[..] == old(bitmap[..])
      ensures forall i | 2 * totalFrames <= i < bitmap.Length :: bitmap[i] == old(bitmap[i])
    {
      ghost var regions := Regions(mmap);
      var maxAddr := HighestAddress(mmap);
      totalFrames := maxAddr / FRAME_SIZE;
      var found := FindRoom(mmap);
      if !found {
        return -1;
      }
      BitmapFitsBounds(regions);
      ClearBitmap(ToU32(totalFrames * 2));
      ZeroMapIsFree(bitmap[..], totalFrames);
      assert Statuses() == ReservedFor([], totalFrames);
      var ok := ReserveUnavailable(mmap);
      if !ok {
        return -1;
      }
      ok := ReserveFrames(0, BitmapLastFrame(totalFrames));
      if !ok {
        return -1;
      }
      assert Statuses() == InitialMap(regions);
      return 0;
    }

    /** Marks count frames that end at f, counting down as the source does. */
    method MarkUsed(f: u32, count: u32)
      requires Valid() && count <= f + 1 && f < totalFrames
      modifies bitmap
      ensures Statuses() == Fill(old(Statuses()), f + 1 - count, count, Used)
    {
      var left := count;
      while left > 0
        invariant 0 <= left <= count
        invariant Statuses() == Fill(old(Statuses()), f + 1 - count, count - left, Used)
      {
        FillStep(old(Statuses()), f + 1 - count, count - left, Used);
        SetEntry(f - left + 1, Used);
        left := left - 1;
      }
    }

    /** First fit over the frames of [first, last), last clamped to memory. */
    method AllocateFrames(count: u32, first: u32, last: u32) returns (addr: u32)
      requires Valid()
      modifies bitmap
      ensures match AllocationStart(old(Statuses()), count, first, Clamp(last))
              case None => addr == 0 && bitmap[..] == old(bitmap[..])
              case Some(k) => addr == ToU32(k * FRAME_SIZE) && Statuses() == Fill(old(Statuses()), k, count, Used)
    {
      ghost var m := Statuses();
      var limit := Clamp(last);
      var free, f := 0, first;
      while f < limit
        invariant first <= f && (first <= limit ==> f <= limit)
        invariant count > 0 && first <= limit ==> Scanned(m, count, first, f, free)
        invariant count == 0 ==> 0 <= free && AllocationStart(m, 0, f, limit) == AllocationStart(m, 0, first, limit)
        invariant bitmap[..] == old(bitmap[..])
      {
        if count > 0 {
          ScanStep(m, count, first, f, free, limit);
        }
        var status := GetEntry(f);
        if status == Free {
          free := free + 1;
        } else {
          free := 0;
        }
        if free == count {
          var start: u32 := f - count + 1;
          assert AllocationStart(m, count, first, limit) == Some(start);
          MarkUsed(f, free);
          return ToU32(start * FRAME_SIZE);
        }
        f := f + 1;
      }
      return 0;
    }

    /** The release loop, over frames that exist. */
    method ReleaseRange(first: u32, last: u32)
      requires Valid() && last <= totalFrames
      modifies bitmap
      ensures Statuses() == Release(old(Statuses()), first, last)
    {
      ghost var m := Statuses();
      var f := first;
      assert Release(m, first, first) == m;
      while f < last
        invariant first <= f && (if first <= last then f <= last else f == first)
        invariant Statuses() == Release(m, first, f)
      {
        ReleaseStep(m, first, f);
        var status := GetEntry(f);
        if status == Used {
          SetEntry(f, Free);
        }
        f := f + 1;
      }
      ReleaseLimit(m, first, f, last);
    }

    /** Frees the used frames of the range; reserved frames are left alone. */
    method ReleaseFrames(addr: u32, count: u32)
      requires Valid()
      modifies bitmap
      ensures Statuses() == Release(old(Statuses()), addr / FRAME_SIZE, ToU32(addr / FRAME_SIZE + count))
    {
      var f: u32 := addr / FRAME_SIZE;
      var last := ToU32(f + count);
      if f >= totalFrames {
        assert Release(Statuses(), f, last) == Statuses();
        return;
      }
      ReleaseLimit(Statuses(), f, last, if last > totalFrames then totalFrames else last);
      if last > totalFrames {
        last := ToU32(totalFrames);
      }
      ReleaseRange(f, last);
    }

    /** A caller allocates frames and, unless it gets NULL, gives them back. */
    method AllocateThenRelease(count: u32, first: u32, last: u32) returns (addr: u32)
      requires Valid()
      modifies bitmap
      ensures addr == AllocatedAddress(old(Statuses()), count, first, Clamp(last))
      ensures Statuses() == GivenBack(old(Statuses()), count, first, Clamp(last))
      ensures var start := AllocationStart(old(Statuses()), count, first, Clamp(last));
              count > 0 && start.Some? ==> (Statuses() == old(Statuses()) <==> 0 < start.value < ADDRESS_FRAMES)
    {
      ghost var m := Statuses();
      addr := AllocateFrames(count, first, last);
      if addr != 0 {
        ReleaseFrames(addr, count);
      }
      if count > 0 && AllocationStart(m, count, first, Clamp(last)).Some? {
        GivenBackIff(m, count, first, Clamp(last));
      }
    }
  }
}
