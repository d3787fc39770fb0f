/** kalloc and kfree over linked headers in memory, proved against HeapModel. */
module KernelHeap {
  import opened Words
  import opened FrameMap
  import opened FrameAllocation
  import opened HeapModel
  import opened HeaderList

  /** The documented assumption: no unavailable region reaches into [1M, 3M). */
  ghost predicate KernelRangeClear(regions: seq<Region>) {
    forall e | e in regions && e.kind != REGION_AVAILABLE ::
      e.base >= USER_FIRST_FRAME * FRAME_SIZE || e.End() <= BITMAP_ADDR
  }

  /** Then the kernel range starts out as one hole behind the bitmap. */
  lemma InitialKernelHole(regions: seq<Region>)
    requires KernelRangeClear(regions)
    requires USER_FIRST_FRAME <= TotalFrames(regions)
    ensures var b := BitmapLastFrame(TotalFrames(regions));
            && KERNEL_FIRST_FRAME <= b
            && (b < USER_FIRST_FRAME ==>
                OneHole(InitialMap(regions), KERNEL_FIRST_FRAME, USER_FIRST_FRAME, b + 1, USER_FIRST_FRAME))
            && (b >= STACK_FRAME ==> InitialMap(regions)[STACK_FRAME] == Reserved)
  {
    var b := BitmapLastFrame(TotalFrames(regions));
    forall f | b < f < USER_FIRST_FRAME ensures !SpannedByUnavailable(regions, f) {
      if e :| e in regions && e.kind != REGION_AVAILABLE && e.Spans(f) {
        assert false;
      }
    }
  }

  /** The kernel range once the frame of the stack is taken. */
  lemma BootRange(regions: seq<Region>)
    requires KernelRangeClear(regions) && USER_FIRST_FRAME <= TotalFrames(regions)
    requires BitmapLastFrame(TotalFrames(regions)) < STACK_FRAME
    ensures var base := BitmapLastFrame(TotalFrames(regions)) + 1;
            KernelRange(Fill(InitialMap(regions), STACK_FRAME, 1, Used), base, UNITS_PER_FRAME * base, 0,
                        STACK_FRAME - base)
  {
    InitialKernelHole(regions);
  }

  /** The frames of [1M, 3M): bitmap, heap from frame base on, one hole, stack. */
  ghost predicate KernelRange(m: Map, base: nat, lo: nat, grown: nat, room: nat) {
    && USER_FIRST_FRAME <= |m|
    && KERNEL_FIRST_FRAME < base && base + room == STACK_FRAME
    && lo == UNITS_PER_FRAME * base
    && grown <= room
    && OneHole(m, KERNEL_FIRST_FRAME, USER_FIRST_FRAME, base + grown, STACK_FRAME)
  }

  /** From heap h0 to h: frames were only added to it, and memory changed only at headers. */
  ghost predicate Grew(h0: Heap, m0: Map, ram0: seq<Unit>, base: nat, h: Heap, m: Map, ram: seq<Unit>) {
    && h0.grown <= h.grown
    && base + h.grown <= |m0|
    && m == Fill(m0, base + h0.grown, h.grown - h0.grown, Used)
    && OnlyHeadersChanged(ram0, h0.entries, ram, h.entries)
  }

  /** No free entry fits, and [1M, 3M) has no run of free frames that would do. */
  ghost predicate NoRoomFor(h: Heap, m: Map, bytes: u32)
    requires USER_FIRST_FRAME <= |m|
  {
    && (forall e | e in h.entries && !e.used :: UNIT * e.size < bytes)
    && forall n: nat | FRAME_SIZE * n >= bytes + UNIT :: FirstRun(m, n, KERNEL_FIRST_FRAME, USER_FIRST_FRAME).None?
  }

  /** The model fails exactly if neither the list nor the frame map has room. */
  lemma AllocFailsOnMapIff(h: Heap, m: Map, base: nat, bytes: u32)
    requires KernelRange(m, base, h.lo, h.grown, h.room) && bytes <= MAX_REQUEST
    ensures Alloc(h, bytes).1.None? <==> NoRoomFor(h, m, bytes)
  {
    var units := UnitsFor(bytes);
    var n0, i := FramesFor(units), FirstFit(h.entries, units);
    FramesForIsEnough(bytes);
    forall e | e in h.entries
      ensures Fits(e, units) <==> !e.used && UNIT * e.size >= bytes
    {
      FitsIs(e, bytes);
    }
    forall n: nat | FRAME_SIZE * n >= bytes + UNIT
      ensures n >= n0 > 0
      ensures FirstRun(m, n, KERNEL_FIRST_FRAME, USER_FIRST_FRAME).None? <==> h.grown + n > h.room
    {
      OneHoleFirstRun(m, n, KERNEL_FIRST_FRAME, USER_FIRST_FRAME, base + h.grown, STACK_FRAME);
    }
    assert FRAME_SIZE * n0 >= bytes + UNIT;
    if i < |h.entries| {
      assert h.entries[i] in h.entries;
    }
  }

  /** The entries before i do not start at the pointer, and i does or is the end. */
  lemma FoundBehind(es: seq<Entry>, ptr: u32, i: nat)
    requires i <= |es| && forall j | 0 <= j < i :: UNIT * (es[j].at + 1) != ptr
    requires i < |es| ==> UNIT * (es[i].at + 1) == ptr
    ensures i == if ptr % UNIT == 0 then Find(es, ptr / UNIT) else |es|
  {
    if ptr % UNIT == 0 {
      FindIs(es, ptr / UNIT, i);
    }
  }

  class KernelHeap {
    const frames: FrameAllocator
    var ram: seq<Unit>
    const headAddress: u32
    var head: Unit
    ghost var heap: Heap
    ghost var base: nat

    constructor (frames: FrameAllocator, ram: seq<Unit>, headAddress: u32)
      ensures this.frames == frames && this.ram == ram && this.headAddress == headAddress
    {
      this.frames, this.ram, this.headAddress := frames, ram, headAddress;
      head := Unit(0, 0, 0, FLAG_NULL);
      heap, base := Heap([], 0, 0, 0), 0;
    }

    /** The frames of [1M, 3M): the heap's own, the free ones after it, the stack. */
    ghost predicate FramesOk()
      reads this, frames, frames.bitmap
    {
      && frames.Valid() && frames.totalFrames >= USER_FIRST_FRAME
      && KernelRange(frames.Statuses(), base, heap.lo, heap.grown, heap.room)
    }

    /** The list in memory is the list of heap.entries, which tiles the heap. */
    ghost predicate Linked()
      reads this
    {
      && head == Unit(head.next, 0, 0, FLAG_NULL)
      && List(ram, head.next, heap.entries, headAddress, heap.lo, heap.Hi())
    }

    ghost predicate Valid()
      reads this, frames, frames.bitmap
    {
      FramesOk() && Linked() && NoTwoFree(heap.entries)
    }

    /** Takes a free entry as it is. */
    method TakeWhole(e: u32, ghost i: nat) returns (ptr: u32)
      requires Linked()
      requires i < |heap.entries| && e == UNIT * heap.entries[i].at
      modifies this`heap, this`ram
      ensures Linked()
      ensures heap == old(heap).(entries := old(heap.entries)[i := old(heap.entries)[i].(used := true)])
      ensures ptr == UNIT * (old(heap.entries)[i].at + 1)
      ensures OnlyHeadersChanged(old(ram), old(heap.entries), ram, heap.entries)
    {
      ghost var es := heap.entries;
      ListAt(ram, head.next, es, headAddress, heap.lo, heap.Hi(), i);
      FlagList(ram, head.next, es, headAddress, heap.lo, heap.Hi(), i, true);
      ram := ram[e / UNIT := ram[e / UNIT].(flags := FLAG_USED)];
      heap := heap.(entries := es[i := es[i].(used := true)]);
      return e + UNIT;
    }

    /** The writes that split the entry at e, in the order of the source. */
    method RelinkSplit(e: u32, units: u32)
      requires e % UNIT == 0 && |ram| <= RAM_UNITS && e / UNIT + units as int + 1 < |ram|
      requires ram[e / UNIT].size > units + 1 && ram[e / UNIT].next / UNIT < |ram|
      requires ram[e / UNIT].next / UNIT != e / UNIT + units as int + 1
      modifies this`ram
      ensures ram == SplitRam(old(ram), e / UNIT, e / UNIT + units as int + 1)
    {
      var u, v := e / UNIT, e / UNIT + units + 1;
      var n: u32 := e + UNIT * (units + 1);
      ram := ram[v := ram[v].(flags := FLAG_FREE)];
      ram := ram[v := ram[v].(size := ram[u].size - units - 1)];
      ram := ram[v := ram[v].(next := ram[u].next)];
      assert ram == old(ram)[v := Unit(old(ram)[u].next, old(ram)[v].prev, old(ram)[u].size - units - 1, FLAG_FREE)];
      if ram[v].next != 0 {
        ram := ram[ram[v].next / UNIT := ram[ram[v].next / UNIT].(prev := n)];
      }
      ram := ram[v := ram[v].(prev := e)];
      ram := ram[u := ram[u].(next := n)];
      ram := ram[u := ram[u].(size := units)];
      ram := ram[u := ram[u].(flags := FLAG_USED)];
      assert ram == SplitRam(old(ram), u, v);
    }

    /** Takes the front of a free entry and links the rest as a new free entry. */
    method Split(e: u32, units: u32, ghost i: nat) returns (ptr: u32)
      requires Linked()
      requires i < |heap.entries| && e == UNIT * heap.entries[i].at
      requires Fits(heap.entries[i], units) && heap.entries[i].size > units + 1
      modifies this`heap, this`ram
      ensures Linked() && heap == old(heap).(entries := Take(old(heap.entries), i, units))
      ensures ptr == UNIT * (old(heap.entries)[i].at + 1)
      ensures OnlyHeadersChanged(old(ram), old(heap.entries), ram, heap.entries)
    {
      ghost var es := heap.entries;
      ListAt(ram, head.next, es, headAddress, heap.lo, heap.Hi(), i);
      SplitList(ram, head.next, es, headAddress, heap.lo, heap.Hi(), i, units);
      RelinkSplit(e, units);
      heap := heap.(entries := Take(es, i, units));
      return e + UNIT;
    }

    /** The two ways kalloc takes a free entry that is large enough. */
    method TakeEntry(e: u32, units: u32, ghost i: nat) returns (ptr: u32)
      requires Linked()
      requires i < |heap.entries| && e == UNIT * heap.entries[i].at
      requires Fits(heap.entries[i], units)
      modifies this`heap, this`ram
      ensures Linked() && heap == old(heap).(entries := Take(old(heap.entries), i, units))
      ensures ptr == UNIT * (old(heap.entries)[i].at + 1)
      ensures OnlyHeadersChanged(old(ram), old(heap.entries), ram, heap.entries)
    {
      ListAt(ram, head.next, heap.entries, headAddress, heap.lo, heap.Hi(), i);
      if ram[e / UNIT].size == units || ram[e / UNIT].size == units + 1 {
        ptr := TakeWhole(e, i);
      } else {
        ptr := Split(e, units, i);
      }
    }

    /** Asks for the frames of a request: first fit puts them right behind the heap. */
    method ObtainFrames(units: u32) returns (n: u32, k: u32)
      requires FramesOk() && UNIT * (units + 1) < U32_LIMIT
      modifies frames.bitmap
      ensures k == FramesFor(units) > 0
      ensures frames.Valid()
      ensures if heap.grown + k <= heap.room
              then && n == UNIT * heap.Hi()
                   && frames.Statuses() == Fill(old(frames.Statuses()), base + heap.grown, k, Used)
              else n == 0 && frames.Statuses() == old(frames.Statuses())
    {
      var need: u32 := (units + 1) * UNIT;
      k := need / FRAME_SIZE;
      if need % FRAME_SIZE > 0 {
        k := k + 1;
      }
      OneHoleFirstRun(frames.Statuses(), k, KERNEL_FIRST_FRAME, USER_FIRST_FRAME, base + heap.grown, STACK_FRAME);
      n := frames.AllocateFrames(k, KERNEL_FIRST_FRAME, USER_FIRST_FRAME);
    }

    /** Links k new frames behind the last entry, as one free entry. */
    method LinkFrames(e: u32, n: u32, k: u32)
      requires Linked()
      requires e == AddressOf(heap.entries, headAddress, |heap.entries| - 1)
      requires k > 0 && n == UNIT * heap.Hi() && heap.Hi() + UNITS_PER_FRAME * k <= RAM_UNITS
      modifies this`heap, this`ram, this`head
      ensures Linked() && heap == Grown(old(heap), k)
      ensures OnlyHeadersChanged(old(ram), old(heap.entries), ram, heap.entries)
    {
      GrowList(ram, head.next, heap.entries, headAddress, heap.lo, heap.Hi(), UNITS_PER_FRAME * k - 1);
      assert e == headAddress <==> heap.entries == [] by {
        if heap.entries != [] {
          ListAt(ram, head.next, heap.entries, headAddress, heap.lo, heap.Hi(), |heap.entries| - 1);
        }
      }
      if e == headAddress {
        head := head.(next := n);
      } else {
        ram := ram[e / UNIT := ram[e / UNIT].(next := n)];
      }
      ghost var ram1 := ram;
      ram := ram[n / UNIT := ram[n / UNIT].(prev := e)];
      ram := ram[n / UNIT := ram[n / UNIT].(next := 0)];
      ram := ram[n / UNIT := ram[n / UNIT].(flags := FLAG_FREE)];
      ram := ram[n / UNIT := ram[n / UNIT].(size := k * FRAME_SIZE / UNIT - 1)];
      assert ram == ram1[n / UNIT := Unit(0, e, UNITS_PER_FRAME * k - 1, FLAG_FREE)];
      heap := Grown(heap, k);
    }

    /** Obtains frames for the request and links them behind the last entry. */
    method Grow(e: u32, units: u32) returns (n: u32)
      requires Linked() && FramesOk()
      requires e == AddressOf(heap.entries, headAddress, |heap.entries| - 1)
      requires UNIT * (units + 1) < U32_LIMIT
      modifies this`heap, this`ram, this`head, frames.bitmap
      ensures Linked() && FramesOk() && FramesFor(units) > 0
      ensures var k := FramesFor(units);
              if old(heap).grown + k <= old(heap).room
              then && heap == Grown(old(heap), k) && n == UNIT * old(heap).Hi() != 0
                   && frames.Statuses() == Fill(old(frames.Statuses()), base + old(heap).grown, k, Used)
                   && OnlyHeadersChanged(old(ram), old(heap.entries), ram, heap.entries)
              else n == 0 && heap == old(heap) && ram == old(ram) && head == old(head)
                   && frames.Statuses() == old(frames.Statuses())
    {
      var k;
      n, k := ObtainFrames(units);
      if n == 0 {
        return;
      }
      LinkFrames(e, n, k);
    }

    /** The header at an address, which may be the static list head. */
    function At(e: u32): Unit
      reads this
      requires e == headAddress || e / UNIT < |ram|
    {
      if e == headAddress then head else ram[e / UNIT]
    }

    /** Follows the list from entry k to a free entry that fits, or to its end. */
    method Walk(from: u32, units: u32, ghost start: int) returns (found: bool, e: u32, ghost k: int)
      requires Linked()
      requires -1 <= start < |heap.entries| && from == AddressOf(heap.entries, headAddress, start)
      ensures start <= k < |heap.entries| && e == AddressOf(heap.entries, headAddress, k)
      ensures forall j | start <= j < k && j >= 0 :: !Fits(heap.entries[j], units)
      ensures found ==> k >= 0 && Fits(heap.entries[k], units)
      ensures !found ==> k == |heap.entries| - 1 && (k >= 0 ==> !Fits(heap.entries[k], units))
    {
      ghost var es := heap.entries;
      e, k := from, start;
      while true
        invariant start <= k < |es| && e == AddressOf(es, headAddress, k)
        invariant forall j | start <= j < k && j >= 0 :: !Fits(es[j], units)
        decreases |es| - k
      {
        if k >= 0 {
          ListAt(ram, head.next, es, headAddress, heap.lo, heap.Hi(), k);
        }
        if At(e).flags == FLAG_FREE && At(e).size >= units {
          return true, e, k;
        }
        if At(e).next == 0 {
          return false, e, k;
        }
        e := At(e).next;
        k := k + 1;
      }
    }

    /** At the end of a list without an entry that fits: the growth serves the request, or nothing does. */
    method GrowFor(ghost bytes: u32, units: u32, e: u32) returns (n: u32)
      requires FramesOk() && Linked() && bytes <= MAX_REQUEST && units == UnitsFor(bytes)
      requires e == AddressOf(heap.entries, headAddress, |heap.entries| - 1)
      requires forall j | 0 <= j < |heap.entries| :: !Fits(heap.entries[j], units)
      modifies this`heap, this`ram, this`head, frames.bitmap
      ensures FramesOk() && Linked()
      ensures Grew(old(heap), old(frames.Statuses()), old(ram), base, heap, frames.Statuses(), ram)
      ensures if Serving(old(heap), bytes).None?
              then n == 0 && heap == old(heap) && ram == old(ram) && head == old(head)
              else && Serving(old(heap), bytes) == Some((heap, |old(heap).entries|))
                   && n == AddressOf(heap.entries, headAddress, |old(heap).entries|) != 0
    {
      FirstFitIs(heap.entries, units, |heap.entries|);
      FramesForIsEnough(bytes);
      ghost var m0 := frames.Statuses();
      assert Fill(m0, base + heap.grown, 0, Used) == m0;
      n := Grow(e, units);
    }

    /** Follows the list from its head; an entry that is found is the one the model takes. */
    method WalkFromHead(ghost bytes: u32, units: u32) returns (found: bool, e: u32, ghost i: nat)
      requires Linked() && bytes <= MAX_REQUEST && units == UnitsFor(bytes)
      ensures found ==>
                && i < |heap.entries| && Serving(heap, bytes) == Some((heap, i))
                && e == UNIT * heap.entries[i].at != 0
      ensures !found ==>
                && e == AddressOf(heap.entries, headAddress, |heap.entries| - 1)
                && forall j | 0 <= j < |heap.entries| :: !Fits(heap.entries[j], units)
    {
      ghost var k;
      found, e, k := Walk(headAddress, units, -1);
      i := if k < 0 then 0 else k;
      if found {
        ListAt(ram, head.next, heap.entries, headAddress, heap.lo, heap.Hi(), i);
        FirstFitIs(heap.entries, units, i);
      }
    }

    /**
     * kalloc's search: a free entry that fits, if need be in newly linked frames. The loop of
     * the source goes on from the new entry, and ends there.
     */
    method Locate(ghost bytes: u32, units: u32) returns (e: u32, ghost i: nat)
      requires Valid() && bytes <= MAX_REQUEST && units == UnitsFor(bytes)
      modifies this`heap, this`ram, this`head, frames.bitmap
      ensures FramesOk() && Linked()
      ensures Grew(old(heap), old(frames.Statuses()), old(ram), base, heap, frames.Statuses(), ram)
      ensures if Serving(old(heap), bytes).None?
              then e == 0 && heap == old(heap) && ram == old(ram) && head == old(head)
              else e != 0 && Serving(old(heap), bytes) == Some((heap, i)) && e == UNIT * heap.entries[i].at
    {
      ghost var m0 := frames.Statuses();
      var found;
      found, e, i := WalkFromHead(bytes, units);
      if found {
        assert Fill(m0, base + heap.grown, 0, Used) == m0;
        return;
      }
      i := |heap.entries|;
      var n := GrowFor(bytes, units, e);
      if n == 0 {
        return 0, 0;
      }
      ghost var k;
      found, e, k := Walk(n, units, i);
      assert found && k == i;
    }

    /** The malloc of the kernel; NULL if neither the heap nor the frames have room. */
    method Kalloc(bytes: u32) returns (ptr: u32)
      requires Valid() && bytes <= MAX_REQUEST
      modifies this`heap, this`ram, this`head, frames.bitmap
      ensures Valid()
      ensures heap == Alloc(old(heap), bytes).0 && heap.grown >= old(heap).grown
      ensures ptr == match Alloc(old(heap), bytes).1 case None => 0 case Some(p) => UNIT * p
      ensures frames.Statuses()
              == Fill(old(frames.Statuses()), base + old(heap).grown, heap.grown - old(heap).grown, Used)
      ensures ptr == 0 <==> NoRoomFor(old(heap), old(frames.Statuses()), bytes)
      ensures ptr == 0 ==> ram == old(ram) && head == old(head)
      ensures OnlyHeadersChanged(old(ram), old(heap).entries, ram, heap.entries)
    {
      var units: u32 := bytes / UNIT;
      if bytes % UNIT > 0 {
        units := units + 1;
      }
      AllocFailsOnMapIff(heap, frames.Statuses(), base, bytes);
      AllocKeepsInv(heap, bytes);
      ghost var ram0, es0 := ram, heap.entries;
      ghost var i;
      var e;
      e, i := Locate(bytes, units);
      if e == 0 {
        return 0;
      }
      ghost var ram1, es1 := ram, heap.entries;
      ptr := TakeEntry(e, units, i);
      forall u: nat | IsHeader(es1, u) ensures IsHeader(heap.entries, u) {
        TakeKeepsHeaders(es1, i, units, u);
      }
      HeaderChangesCompose(ram0, es0, ram1, es1, ram, heap.entries);
    }

    /** Joins the free entries i and i + 1, at units u and the one its next link names. */
    method JoinNext(e: u32, ghost i: nat)
      requires Linked()
      requires i + 1 < |heap.entries| && e == UNIT * heap.entries[i].at
      requires !heap.entries[i].used && !heap.entries[i + 1].used
      modifies this`heap, this`ram
      ensures Linked() && heap == old(heap).(entries := Join(old(heap.entries), i))
      ensures OnlyHeadersChanged(old(ram), old(heap.entries), ram, heap.entries)
      ensures forall u | IsHeader(heap.entries, u) :: IsHeader(old(heap.entries), u)
    {
      ghost var es, ram0 := heap.entries, ram;
      ListAt(ram, head.next, es, headAddress, heap.lo, heap.Hi(), i);
      JoinList(ram, head.next, es, headAddress, heap.lo, heap.Hi(), i);
      var u := e / UNIT;
      var w := ram[u].next / UNIT;
      ram := ram[u := ram[u].(size := ram[u].size + ram[w].size + 1)];
      ram := ram[u := ram[u].(next := ram[w].next)];
      if ram[u].next != 0 {
        ram := ram[ram[u].next / UNIT := ram[ram[u].next / UNIT].(prev := e)];
      }
      assert ram == JoinRam(ram0, u, w);
      heap := heap.(entries := Join(es, i));
    }

    /** Walks to the block at ptr, at f, and the entry e before it; f is NULL if there is none. */
    method FindBlock(ptr: u32) returns (e: u32, f: u32, ghost k: int)
      requires Linked()
      ensures -1 <= k < |heap.entries| && e == AddressOf(heap.entries, headAddress, k)
      ensures f == NextOf(heap.entries, k) && (f == 0 <==> k + 1 == |heap.entries|)
      ensures k + 1 == if ptr % UNIT == 0 then Find(heap.entries, ptr / UNIT) else |heap.entries|
    {
      ghost var es := heap.entries;
      e, k := headAddress, -1;
      while true
        invariant -1 <= k < |es| && e == AddressOf(es, headAddress, k)
        invariant forall j | 0 <= j <= k :: UNIT * (es[j].at + 1) != ptr
        decreases |es| - k
      {
        if k >= 0 {
          ListAt(ram, head.next, es, headAddress, heap.lo, heap.Hi(), k);
        }
        if k + 1 < |es| {
          ListAt(ram, head.next, es, headAddress, heap.lo, heap.Hi(), k + 1);
        }
        f := At(e).next;
        if f == 0 || f + UNIT == ptr {
          FoundBehind(es, ptr, k + 1);
          return;
        }
        e := f;
        k := k + 1;
      }
    }

    /** Marks the used entry i, at f, as free. */
    method MarkFree(f: u32, ghost i: nat)
      requires Linked() && i < |heap.entries| && f == AddressOf(heap.entries, headAddress, i)
      modifies this`heap, this`ram
      ensures Linked()
      ensures heap == old(heap).(entries := old(heap.entries)[i := old(heap.entries)[i].(used := false)])
      ensures OnlyHeadersChanged(old(ram), old(heap.entries), ram, heap.entries)
      ensures forall u | IsHeader(heap.entries, u) :: IsHeader(old(heap.entries), u)
    {
      ghost var es := heap.entries;
      ListAt(ram, head.next, es, headAddress, heap.lo, heap.Hi(), i);
      FlagList(ram, head.next, es, headAddress, heap.lo, heap.Hi(), i, false);
      ram := ram[f / UNIT := ram[f / UNIT].(flags := FLAG_FREE)];
      heap := heap.(entries := es[i := es[i].(used := false)]);
    }

    /** Joins the free entry i, at f, with the one behind it if that is free. */
    method JoinBehind(f: u32, ghost i: nat)
      requires Linked() && i < |heap.entries| && f == AddressOf(heap.entries, headAddress, i) && !heap.entries[i].used
      modifies this`heap, this`ram
      ensures Linked()
      ensures var es := old(heap.entries);
              heap == old(heap).(entries := if i + 1 < |es| && !es[i + 1].used then Join(es, i) else es)
      ensures OnlyHeadersChanged(old(ram), old(heap.entries), ram, heap.entries)
      ensures forall u | IsHeader(heap.entries, u) :: IsHeader(old(heap.entries), u)
    {
      ghost var es := heap.entries;
      ListAt(ram, head.next, es, headAddress, heap.lo, heap.Hi(), i);
      if i + 1 < |es| {
        ListAt(ram, head.next, es, headAddress, heap.lo, heap.Hi(), i + 1);
      }
      if ram[f / UNIT].next != 0 && ram[ram[f / UNIT].next / UNIT].flags == FLAG_FREE {
        JoinNext(f, i);
      }
    }

    /** Joins the free entry k + 1 with the entry k, at e, if that is free. */
    method JoinBefore(e: u32, ghost k: int)
      requires Linked() && -1 <= k && k + 1 < |heap.entries| && e == AddressOf(heap.entries, headAddress, k)
      requires !heap.entries[k + 1].used
      modifies this`heap, this`ram
      ensures Linked()
      ensures var es := old(heap.entries);
              heap == old(heap).(entries := if k >= 0 && !es[k].used then Join(es, k) else es)
      ensures OnlyHeadersChanged(old(ram), old(heap.entries), ram, heap.entries)
    {
      if k >= 0 {
        ListAt(ram, head.next, heap.entries, headAddress, heap.lo, heap.Hi(), k);
      }
      if At(e).flags == FLAG_FREE {
        JoinNext(e, k);
      }
    }

    /** Frees the used entry k + 1, at f, and joins it with its free neighbours; e is entry k. */
    method FreeEntry(e: u32, f: u32, ghost k: int)
      requires Linked() && -1 <= k && k + 1 < |heap.entries|
      requires e == AddressOf(heap.entries, headAddress, k) && f == AddressOf(heap.entries, headAddress, k + 1)
      modifies this`heap, this`ram
      ensures Linked() && heap == old(heap).(entries := Freed(old(heap.entries), k + 1))
      ensures OnlyHeadersChanged(old(ram), old(heap.entries), ram, heap.entries)
    {
      ghost var es0, ram0 := heap.entries, ram;
      MarkFree(f, k + 1);
      ghost var es1, ram1 := heap.entries, ram;
      JoinBehind(f, k + 1);
      ghost var es2, ram2 := heap.entries, ram;
      HeaderChangesCompose(ram0, es0, ram1, es1, ram2, es2);
      JoinBefore(e, k);
      HeaderChangesCompose(ram0, es0, ram2, es2, ram, heap.entries);
    }

    /** Frees the entry behind entry k, at f, unless it is free already. */
    method FreeBehind(e: u32, f: u32, ghost k: int)
      requires Linked() && -1 <= k && k + 1 < |heap.entries|
      requires e == AddressOf(heap.entries, headAddress, k) && f == AddressOf(heap.entries, headAddress, k + 1)
      modifies this`heap, this`ram
      ensures Linked()
      ensures var es := old(heap.entries);
              heap == old(heap).(entries := if es[k + 1].used then Freed(es, k + 1) else es)
      ensures OnlyHeadersChanged(old(ram), old(heap.entries), ram, heap.entries)
    {
      ListAt(ram, head.next, heap.entries, headAddress, heap.lo, heap.Hi(), k + 1);
      if ram[f / UNIT].flags != FLAG_FREE {
        FreeEntry(e, f, k);
      }
    }

    /** The free of the kernel; pointers that no live block has are ignored. */
    method Kfree(ptr: u32)
      requires Valid()
      modifies this`heap, this`ram
      ensures Valid()
      ensures heap == if ptr % UNIT == 0 then Dealloc(old(heap), ptr / UNIT) else old(heap)
      ensures OnlyHeadersChanged(old(ram), old(heap).entries, ram, heap.entries)
    {
      DeallocKeepsInv(heap, ptr / UNIT);
      if ptr == 0 {
        return;
      }
      ghost var k;
      var e, f;
      e, f, k := FindBlock(ptr);
      if f != 0 {
        FreeBehind(e, f, k);
      }
    }

    method KallocInit()
      modifies this`head
      ensures head == Unit(0, 0, 0, FLAG_NULL)
    {
      head := Unit(0, 0, 0, FLAG_NULL);
    }

    method MemInit(mmap: seq<Region>) returns (r: int)
      requires Terminated(mmap)
      requires BitmapFits(Regions(mmap)) ==> 2 * TotalFrames(Regions(mmap)) <= frames.bitmap.Length <= ADDRESSABLE
      modifies this`head, frames, frames.bitmap
      ensures frames.totalFrames == TotalFrames(Regions(mmap))
      ensures r == if BitmapFits(Regions(mmap)) then 0 else -1
      ensures r == 0 ==>
                frames.Valid() && frames.Statuses() == InitialMap(Regions(mmap)) && head == Unit(0, 0, 0, FLAG_NULL)
    {
      r := frames.Init(mmap);
      if r == 0 {
        KallocInit();
      }
    }

    /** The memory part of kmain: memory set up, then the frame of the stack taken. */
    method Boot(mmap: seq<Region>) returns (ok: bool)
      requires |ram| == RAM_UNITS && 0 < headAddress < BITMAP_ADDR
      requires Terminated(mmap) && KernelRangeClear(Regions(mmap))
      requires BitmapFits(Regions(mmap)) ==> 2 * TotalFrames(Regions(mmap)) <= frames.bitmap.Length <= ADDRESSABLE
      modifies this`head, this`heap, this`base, frames, frames.bitmap
      ensures var total := TotalFrames(Regions(mmap));
              && ok == (BitmapFits(Regions(mmap)) && USER_FIRST_FRAME <= total && BitmapLastFrame(total) < STACK_FRAME)
              && (ok ==> Valid() && base == BitmapLastFrame(total) + 1
                         && heap == Heap([], UNITS_PER_FRAME * base, 0, STACK_FRAME - base)
                         && frames.Statuses() == Fill(InitialMap(Regions(mmap)), STACK_FRAME, 1, Used))
    {
      ghost var regions := Regions(mmap);
      ghost var total := TotalFrames(regions);
      var r := MemInit(mmap);
      if r == -1 {
        return false;
      }
      ghost var m := frames.Statuses();
      if USER_FIRST_FRAME <= total {
        InitialKernelHole(regions);
        StackFrameRun(m);
      }
      var stack := frames.AllocateFrames(1, STACK_FRAME, USER_FIRST_FRAME);
      if stack == 0 {
        return false;
      }
      BootRange(regions);
      base := BitmapLastFrame(total) + 1;
      heap := Heap([], UNITS_PER_FRAME * base, 0, STACK_FRAME - base);
      return true;
    }
  }

  /** The only run the stack's allocation call can find is the stack frame itself. */
  lemma StackFrameRun(m: Map)
    requires USER_FIRST_FRAME <= |m|
    ensures FirstRun(m, 1, STACK_FRAME, USER_FIRST_FRAME)
         == if m[STACK_FRAME] == Free then Some(STACK_FRAME) else None
  {
    assert FreeRun(m, STACK_FRAME, 1) <==> m[STACK_FRAME] == Free;
  }
}
