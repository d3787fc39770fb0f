/** Whole sessions with the kernel heap, from boot on, are runs of the model. */
module HeapSession {
  import opened Words
  import opened FrameAllocation
  import opened HeapModel
  import opened HeaderList
  import opened HeapRuns
  import opened KernelHeap

  /** A store to a unit that holds no header leaves the list as it is. */
  lemma StoreKeepsList(ram: seq<Unit>, first: u32, es: seq<Entry>, head: u32, lo: nat, hi: nat, u: nat, value: Unit)
    requires List(ram, first, es, head, lo, hi) && u < |ram| && !IsHeader(es, u)
    ensures List(ram[u := value], first, es, head, lo, hi)
  {
    var ram1 := ram[u := value];
    forall i | 0 <= i < |es|
      ensures HeaderOk(ram1, es, head, i)
    {
      assert HeaderOk(ram, es, head, i) && IsHeader(es, es[i].at);
    }
  }

  /** The heap after one operation; it does not depend on what stores write. */
  function After(h: Heap, op: Op): Heap
    requires op.Malloc? ==> op.bytes <= MAX_REQUEST
  {
    match op
    case Malloc(bytes) => Alloc(h, bytes).0
    case Free(p) => Dealloc(h, p)
    case Store(_, _, _) => h
  }

  /** Requests are not too large, pointers are addresses, and owners store only inside their blocks. */
  ghost predicate OwnerBehaves(h: Heap, op: Op) {
    match op
    case Malloc(bytes) => bytes <= MAX_REQUEST
    case Free(p) => UNIT * p < U32_LIMIT
    case Store(p, offset, _) => InBlock(h.entries, p, offset)
  }

  ghost predicate OwnersBehave(h: Heap, ops: seq<Op>)
    decreases |ops|
  {
    ops == [] || (OwnerBehaves(h, ops[0]) && OwnersBehave(After(h, ops[0]), ops[1..]))
  }

  /** What a caller gets: for an allocation, NULL if it fails, else the address of the new live block. */
  ghost predicate Answers(s: State, op: Op, t: State, ptr: u32) {
    match op
    case Malloc(bytes) =>
      if bytes <= MAX_REQUEST && Alloc(s.heap, bytes).1.Some?
      then ptr > 0 && ptr % UNIT == 0 && ptr / UNIT !in s.live && t.live == s.live[ptr / UNIT := bytes]
      else ptr == 0 && t.live == s.live && t.heap == s.heap
    case _ => ptr == 0
  }

  /** The address of a block that is new. */
  lemma NewAddress(s: State, bytes: u32, ptr: u32, p: nat)
    requires Good(s) && bytes <= MAX_REQUEST && Alloc(s.heap, bytes).1 == Some(p) && ptr == UNIT * p
    ensures ptr > 0 && ptr % UNIT == 0 && ptr / UNIT == p && p !in s.live
  {
    if p in s.live {
      var size :| Block(s.heap.entries, p, size);
      AllocBlocks(s.heap, bytes, p, size);
    }
  }

  /** An allocation by the code is a step of the model. */
  method PerformMalloc(kernel: KernelHeap, bytes: u32, ghost s: State) returns (ptr: u32, ghost t: State)
    requires kernel.Valid() && Good(s) && s.heap == kernel.heap && s.ram == kernel.ram && bytes <= MAX_REQUEST
    modifies kernel, kernel.frames.bitmap
    ensures kernel.Valid() && t.heap == kernel.heap && t.ram == kernel.ram
    ensures Step(s, Malloc(bytes), t) && Answers(s, Malloc(bytes), t, ptr)
  {
    ptr := kernel.Kalloc(bytes);
    ghost var p := Alloc(s.heap, bytes).1;
    if p.Some? {
      NewAddress(s, bytes, ptr, p.value);
    }
    t := State(kernel.heap, if p.Some? then s.live[p.value := bytes] else s.live, kernel.ram);
  }

  /** A release by the code is a step of the model. */
  method PerformFree(kernel: KernelHeap, p: nat, ghost s: State) returns (ghost t: State)
    requires kernel.Valid() && s.heap == kernel.heap && s.ram == kernel.ram && UNIT * p < U32_LIMIT
    modifies kernel
    ensures kernel.Valid() && t.heap == kernel.heap && t.ram == kernel.ram && Step(s, Op.Free(p), t)
  {
    var ptr: u32 := UNIT * p;
    assert ptr % UNIT == 0 && ptr / UNIT == p;
    kernel.Kfree(ptr);
    t := State(kernel.heap, s.live - {p}, kernel.ram);
  }

  /** The code does one operation as a step of the model, and answers with the address of a new block. */
  method Perform(kernel: KernelHeap, op: Op, ghost s: State) returns (ptr: u32, ghost t: State)
    requires kernel.Valid() && Good(s) && s.heap == kernel.heap && s.ram == kernel.ram && OwnerBehaves(s.heap, op)
    modifies kernel, kernel.frames.bitmap
    ensures kernel.Valid() && Good(t) && t.heap == kernel.heap && t.ram == kernel.ram
    ensures Step(s, op, t) && t.heap == After(s.heap, op) && Answers(s, op, t, ptr)
  {
    ptr := 0;
    match op {
      case Malloc(bytes) =>
        ptr, t := PerformMalloc(kernel, bytes, s);
      case Free(p) =>
        t := PerformFree(kernel, p, s);
      case Store(p, offset, value) =>
        StoreInBlock(kernel, p, offset, value);
        t := s.(ram := kernel.ram);
    }
    StepKeepsGood(s, op, t);
  }

  /** A store by the owner of a block. */
  method StoreInBlock(kernel: KernelHeap, p: nat, offset: nat, value: Unit)
    requires kernel.Valid() && Inv(kernel.heap) && InBlock(kernel.heap.entries, p, offset)
    modifies kernel`ram
    ensures kernel.Valid() && p + offset < |old(kernel.ram)|
    ensures kernel.ram == old(kernel.ram)[p + offset := value]
  {
    ghost var h := kernel.heap;
    ghost var size :| Block(h.entries, p, size) && offset < size;
    BlocksApart(h, p, size, p, size);
    StoreKeepsList(kernel.ram, kernel.head.next, h.entries, kernel.headAddress, h.lo, h.Hi(), p + offset, value);
    kernel.ram := kernel.ram[p + offset := value];
  }

  /** The heap that boot leaves. */
  function BootHeap(total: nat): Heap
    requires BitmapLastFrame(total) < STACK_FRAME
  {
    Heap([], UNITS_PER_FRAME * (BitmapLastFrame(total) + 1), 0, STACK_FRAME - 1 - BitmapLastFrame(total))
  }

  /** Every operation of a run is answered. */
  ghost predicate AllAnswered(states: seq<State>, ops: seq<Op>, ptrs: seq<u32>) {
    && |states| == |ops| + 1 && |ptrs| == |ops|
    && forall i | 0 <= i < |ops| :: Answers(states[i], ops[i], states[i + 1], ptrs[i])
  }

  /** A run with its answers, by its first operation. */
  ghost predicate Served(states: seq<State>, ops: seq<Op>, ptrs: seq<u32>)
    decreases |ops|
  {
    && |states| == |ops| + 1 && |ptrs| == |ops|
    && (ops != [] ==>
          && Step(states[0], ops[0], states[1]) && Answers(states[0], ops[0], states[1], ptrs[0])
          && Served(states[1..], ops[1..], ptrs[1..]))
  }

  lemma {:induction false} ServedAt(states: seq<State>, ops: seq<Op>, ptrs: seq<u32>, i: nat)
    requires Served(states, ops, ptrs) && i < |ops|
    ensures |states| == |ops| + 1 && |ptrs| == |ops|
    ensures Step(states[i], ops[i], states[i + 1]) && Answers(states[i], ops[i], states[i + 1], ptrs[i])
    decreases i
  {
    if i > 0 {
      ServedAt(states[1..], ops[1..], ptrs[1..], i - 1);
    }
  }

  lemma ServedIsRun(states: seq<State>, ops: seq<Op>, ptrs: seq<u32>)
    requires Served(states, ops, ptrs)
    ensures IsRun(states, ops) && AllAnswered(states, ops, ptrs)
  {
    forall i | 0 <= i < |ops|
      ensures Step(states[i], ops[i], states[i + 1]) && Answers(states[i], ops[i], states[i + 1], ptrs[i])
    {
      ServedAt(states, ops, ptrs, i);
    }
  }

  lemma BootIsGood(total: nat, ram: seq<Unit>)
    requires BitmapLastFrame(total) < STACK_FRAME
    ensures Good(State(BootHeap(total), map[], ram))
  {
  }

  /**
   * In every state of every run from boot on, a live block and its header lie behind the
   * byte with the entry of any frame f, and below the stack's frame.
   */
  lemma RunFromBootInRange(total: nat, ss: seq<State>, ops: seq<Op>, i: nat, p: nat, f: nat)
    requires BitmapLastFrame(total) < STACK_FRAME && IsRun(ss, ops) && i < |ss|
    requires ss[0] == State(BootHeap(total), map[], ss[0].ram) && p in ss[i].live && f < total
    ensures exists size :: Block(ss[i].heap.entries, p, size) && UNIT * size >= ss[i].live[p]
                           && BITMAP_ADDR + f / 4 < UNIT * (p - 1)
                           && UNIT * (p + size) <= FRAME_SIZE * STACK_FRAME
  {
    BootIsGood(total, ss[0].ram);
    RunLiveBlocksApart(ss, ops, i, p, p);
    BitmapLastFrameIs(total, f);
  }

  /** Any sequence of allocations, releases and stores by owners is a run of the model. */
  method Serve(kernel: KernelHeap, ops: seq<Op>, ghost first: State) returns (ptrs: seq<u32>, ghost states: seq<State>)
    requires kernel.Valid() && Good(first) && first.heap == kernel.heap && first.ram == kernel.ram
    requires OwnersBehave(kernel.heap, ops)
    modifies kernel, kernel.frames.bitmap
    ensures kernel.Valid() && Served(states, ops, ptrs) && states[0] == first
    ensures states[|ops|].heap == kernel.heap && states[|ops|].ram == kernel.ram
    decreases |ops|
  {
    ptrs, states := [], [first];
    if ops != [] {
      ghost var t, rest;
      var ptr, others;
      ptr, t := Perform(kernel, ops[0], first);
      others, rest := Serve(kernel, ops[1..], t);
      ptrs, states := [ptr] + others, [first] + rest;
      assert states[1..] == rest && ptrs[1..] == others;
    }
  }

  /**
   * The kernel boots and then does any sequence of allocations, releases and stores by
   * owners: the states it goes through are a run of the model, from an empty heap on, and
   * each allocation returns NULL or the address of the block that is live from then on.
   */
  method Session(kernel: KernelHeap, mmap: seq<Region>, ops: seq<Op>)
    returns (ok: bool, ptrs: seq<u32>, ghost states: seq<State>)
    requires |kernel.ram| == RAM_UNITS && 0 < kernel.headAddress < BITMAP_ADDR
    requires Terminated(mmap) && KernelRangeClear(Regions(mmap))
    requires BitmapFits(Regions(mmap)) ==> 2 * TotalFrames(Regions(mmap)) <= kernel.frames.bitmap.Length <= ADDRESSABLE
    requires BitmapLastFrame(TotalFrames(Regions(mmap))) < STACK_FRAME ==>
               OwnersBehave(BootHeap(TotalFrames(Regions(mmap))), ops)
    modifies kernel, kernel.frames, kernel.frames.bitmap
    ensures var total := TotalFrames(Regions(mmap));
            ok == (BitmapFits(Regions(mmap)) && USER_FIRST_FRAME <= total && BitmapLastFrame(total) < STACK_FRAME)
    ensures ok ==>
              && BitmapLastFrame(TotalFrames(Regions(mmap))) < STACK_FRAME
              && IsRun(states, ops) && Good(states[0])
              && states[0] == State(BootHeap(TotalFrames(Regions(mmap))), map[], old(kernel.ram))
              && states[|ops|].heap == kernel.heap && states[|ops|].ram == kernel.ram
              && kernel.Valid()
    ensures ok ==> AllAnswered(states, ops, ptrs)
  {
    ptrs, states := [], [];
    ok := kernel.Boot(mmap);
    if ok {
      ptrs, states := Serve(kernel, ops, State(kernel.heap, map[], kernel.ram));
      ServedIsRun(states, ops, ptrs);
    }
  }
}
