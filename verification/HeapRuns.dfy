/** What holds over every run of kalloc, kfree and stores by the owners of blocks. */
module HeapRuns {
  import opened Words
  import opened HeapModel
  import opened HeaderList

  /** A block in use: its payload is the `size` units from unit p on. */
  ghost predicate Block(es: seq<Entry>, p: nat, size: nat) {
    exists i | 0 <= i < |es| :: es[i].used && es[i].at + 1 == p && es[i].size == size
  }

  // ------------------------------------------------ blocks one call touches

  /** The units a request keeps of the entry that serves it. */
  function Kept(e: Entry, units: nat): nat {
    if e.size <= units + 1 then e.size else units
  }

  /** Taking entry i adds one block and leaves all others as they are. */
  lemma TakeBlocks(es: seq<Entry>, i: nat, units: nat, p: nat, size: nat)
    requires i < |es| && Fits(es[i], units)
    ensures Block(Take(es, i, units), p, size)
       <==> Block(es, p, size) || (p == es[i].at + 1 && size == Kept(es[i], units))
  {
    var r := Take(es, i, units);
    if k :| 0 <= k < |es| && es[k].used && es[k].at + 1 == p && es[k].size == size {
      assert r[if |r| > |es| && k > i then k + 1 else k] == es[k];
    }
    if k :| 0 <= k < |r| && r[k].used && r[k].at + 1 == p && r[k].size == size {
      if k != i {
        assert r[k] == es[if |r| > |es| && k > i then k - 1 else k];
      }
    }
    assert r[i] == Entry(es[i].at, Kept(es[i], units), true);
  }

  lemma JoinBlocks(es: seq<Entry>, i: nat, p: nat, size: nat)
    requires i + 1 < |es| && !es[i].used && !es[i + 1].used
    ensures Block(Join(es, i), p, size) <==> Block(es, p, size)
  {
    var r := Join(es, i);
    if k :| 0 <= k < |es| && es[k].used && es[k].at + 1 == p && es[k].size == size {
      assert r[if k > i then k - 1 else k] == es[k];
    }
    if k :| 0 <= k < |r| && r[k].used && r[k].at + 1 == p && r[k].size == size {
      assert r[k] == es[if k > i then k + 1 else k];
    }
  }

  lemma UnusedBlocks(es: seq<Entry>, i: nat, p: nat, size: nat)
    requires Sorted(es) && i < |es|
    ensures Block(es[i := es[i].(used := false)], p, size) <==> Block(es, p, size) && p != es[i].at + 1
  {
    var r := es[i := es[i].(used := false)];
    if k :| 0 <= k < |es| && es[k].used && es[k].at + 1 == p && es[k].size == size {
      assert k != i ==> r[k] == es[k];
    }
    if k :| 0 <= k < |r| && r[k].used && r[k].at + 1 == p && r[k].size == size {
      assert k != i && r[k] == es[k];
    }
  }

  /** Freeing entry i removes one block and leaves all others as they are. */
  lemma FreedBlocks(es: seq<Entry>, i: nat, p: nat, size: nat)
    requires Sorted(es) && i < |es|
    ensures Block(Freed(es, i), p, size) <==> Block(es, p, size) && p != es[i].at + 1
  {
    var e1 := es[i := es[i].(used := false)];
    UnusedBlocks(es, i, p, size);
    var e2 := if i + 1 < |e1| && !e1[i + 1].used then Join(e1, i) else e1;
    if i + 1 < |e1| && !e1[i + 1].used {
      JoinBlocks(e1, i, p, size);
    }
    if i > 0 && !e2[i - 1].used {
      JoinBlocks(e2, i - 1, p, size);
    }
  }

  /** Growing the heap changes no block. */
  lemma GrownBlocks(h: Heap, n: nat, p: nat, size: nat)
    requires n > 0
    ensures Block(Grown(h, n).entries, p, size) <==> Block(h.entries, p, size)
  {
    var g := Grown(h, n);
    if k :| 0 <= k < |h.entries| && h.entries[k].used && h.entries[k].at + 1 == p && h.entries[k].size == size {
      assert g.entries[k] == h.entries[k];
    }
  }

  /** kalloc adds the block it returns, large enough and new, and changes no other block. */
  lemma AllocBlocks(h: Heap, bytes: u32, p: nat, size: nat)
    requires Inv(h) && bytes <= MAX_REQUEST && Alloc(h, bytes).1.Some?
    ensures var (g, i) := Serving(h, bytes).value;
            var q, kept := Alloc(h, bytes).1.value, Kept(g.entries[i], UnitsFor(bytes));
            && bytes <= UNIT * kept < bytes + 2 * UNIT
            && !Block(h.entries, q, size)
            && (Block(Alloc(h, bytes).0.entries, p, size) <==> Block(h.entries, p, size) || (p == q && size == kept))
  {
    var (g, i) := Serving(h, bytes).value;
    ServingKeeps(h, bytes);
    TilesSorted(g.entries, g.lo, g.Hi());
    TakeBlocks(g.entries, i, UnitsFor(bytes), p, size);
    var q := g.entries[i].at + 1;
    if g != h {
      GrownBlocks(h, FramesFor(UnitsFor(bytes)), p, size);
      GrownBlocks(h, FramesFor(UnitsFor(bytes)), q, size);
    }
    if k :| 0 <= k < |g.entries| && g.entries[k].used && g.entries[k].at + 1 == q && g.entries[k].size == size {
      assert false;
    }
  }

  /** kfree removes the block at p, if there is one, and changes no other block. */
  lemma DeallocBlocks(h: Heap, freed: nat, p: nat, size: nat)
    requires Inv(h)
    ensures Block(Dealloc(h, freed).entries, p, size) <==> Block(h.entries, p, size) && p != freed
  {
    var es, i := h.entries, Find(h.entries, freed);
    TilesSorted(es, h.lo, h.Hi());
    if i < |es| && es[i].used {
      FreedBlocks(es, i, p, size);
    } else if k :| 0 <= k < |es| && es[k].used && es[k].at + 1 == p && es[k].size == size {
      assert k < i || k > i;
    }
  }

  /** Two blocks, and a block and any header, share no unit; all lie in the heap's frames. */
  lemma BlocksApart(h: Heap, p: nat, size: nat, q: nat, otherSize: nat)
    requires Inv(h) && Block(h.entries, p, size) && Block(h.entries, q, otherSize)
    ensures p == q ==> size == otherSize
    ensures p != q ==> p + size < q || q + otherSize < p
    ensures forall u | p <= u < p + size :: !IsHeader(h.entries, u)
    ensures h.lo < p && p + size <= h.Hi()
  {
    var es := h.entries;
    TilesSorted(es, h.lo, h.Hi());
    var i :| 0 <= i < |es| && es[i].used && es[i].at + 1 == p && es[i].size == size;
    var j :| 0 <= j < |es| && es[j].used && es[j].at + 1 == q && es[j].size == otherSize;
    forall k | 0 <= k < |es| ensures !(p <= es[k].at < p + size) {
      assert k < i || k == i || i < k;
    }
  }

  // --------------------------------------------------------------------- runs

  /** Calls into the allocator, and a store by the owner of a block. */
  datatype Op =
    | Malloc(bytes: u32)
    | Free(p: nat)
    | Store(p: nat, offset: nat, value: Unit)

  /** The heap, the live blocks with the bytes asked for, and the memory. */
  datatype State = State(heap: Heap, live: map<nat, nat>, ram: seq<Unit>)

  /** The offset is inside the block at p. */
  ghost predicate InBlock(es: seq<Entry>, p: nat, offset: nat) {
    exists size :: Block(es, p, size) && offset < size
  }

  /** One operation is possible in s and leads to t. */
  ghost predicate Step(s: State, op: Op, t: State) {
    match op
    case Malloc(bytes) =>
      && bytes <= MAX_REQUEST
      && var (h, p) := Alloc(s.heap, bytes);
         && t.heap == h
         && t.live == (if p.Some? then s.live[p.value := bytes] else s.live)
         && OnlyHeadersChanged(s.ram, s.heap.entries, t.ram, h.entries)
    case Free(p) =>
      && t.heap == Dealloc(s.heap, p)
      && t.live == s.live - {p}
      && OnlyHeadersChanged(s.ram, s.heap.entries, t.ram, t.heap.entries)
    case Store(p, offset, value) =>
      && t.heap == s.heap && t.live == s.live
      && InBlock(s.heap.entries, p, offset)
      && p + offset < |s.ram|
      && t.ram == s.ram[p + offset := value]
  }

  ghost predicate IsRun(ss: seq<State>, ops: seq<Op>) {
    && |ss| == |ops| + 1
    && forall i | 0 <= i < |ops| :: Step(ss[i], ops[i], ss[i + 1])
  }

  /** The live blocks are the blocks in use, each with at least the bytes asked for. */
  ghost predicate LiveOk(es: seq<Entry>, live: map<nat, nat>) {
    && (forall p | p in live :: exists size :: Block(es, p, size))
    && (forall p, size | Block(es, p, size) :: p in live && UNIT * size >= live[p])
  }

  ghost predicate Good(s: State) {
    Inv(s.heap) && LiveOk(s.heap.entries, s.live)
  }

  lemma LiveOkAdds(es: seq<Entry>, live: map<nat, nat>, r: seq<Entry>, q: nat, kept: nat, bytes: nat)
    requires LiveOk(es, live) && UNIT * kept >= bytes && forall size :: !Block(es, q, size)
    requires forall p, size :: Block(r, p, size) <==> Block(es, p, size) || (p == q && size == kept)
    ensures LiveOk(r, live[q := bytes])
  {
    var after := live[q := bytes];
    forall p | p in after ensures exists size :: Block(r, p, size) {
      if p == q {
        assert Block(r, p, kept);
      } else {
        var size :| Block(es, p, size);
        assert Block(r, p, size);
      }
    }
  }

  lemma LiveOkRemoves(es: seq<Entry>, live: map<nat, nat>, r: seq<Entry>, q: nat)
    requires LiveOk(es, live)
    requires forall p, size :: Block(r, p, size) <==> Block(es, p, size) && p != q
    ensures LiveOk(r, live - {q})
  {
    forall p | p in live - {q} ensures exists size :: Block(r, p, size) {
      var size :| Block(es, p, size);
      assert Block(r, p, size);
    }
  }

  lemma StepKeepsGood(s: State, op: Op, t: State)
    requires Good(s) && Step(s, op, t)
    ensures Good(t)
  {
    match op
    case Malloc(bytes) =>
      AllocKeepsInv(s.heap, bytes);
      if Alloc(s.heap, bytes).1.Some? {
        var (g, i) := Serving(s.heap, bytes).value;
        var q, kept := Alloc(s.heap, bytes).1.value, Kept(g.entries[i], UnitsFor(bytes));
        forall p, size
          ensures Block(t.heap.entries, p, size) <==> Block(s.heap.entries, p, size) || (p == q && size == kept)
          ensures !Block(s.heap.entries, q, size) && UNIT * kept >= bytes
        {
          AllocBlocks(s.heap, bytes, p, size);
        }
        LiveOkAdds(s.heap.entries, s.live, t.heap.entries, q, kept, bytes);
      }
    case Free(q) =>
      DeallocKeepsInv(s.heap, q);
      forall p, size
        ensures Block(t.heap.entries, p, size) <==> Block(s.heap.entries, p, size) && p != q
      {
        DeallocBlocks(s.heap, q, p, size);
      }
      LiveOkRemoves(s.heap.entries, s.live, t.heap.entries, q);
    case Store(_, _, _) =>
  }

  /** Every state of every run keeps the invariant and knows its live blocks. */
  lemma {:induction false} RunKeepsGood(ss: seq<State>, ops: seq<Op>, i: nat)
    requires IsRun(ss, ops) && Good(ss[0]) && i < |ss|
    ensures Good(ss[i])
  {
    if i > 0 {
      RunKeepsGood(ss, ops, i - 1);
      StepKeepsGood(ss[i - 1], ops[i - 1], ss[i]);
    }
  }

  /** Conservation: in every state, headers and payloads fill the frames obtained. */
  lemma RunConserves(ss: seq<State>, ops: seq<Op>, i: nat)
    requires IsRun(ss, ops) && Good(ss[0]) && i < |ss|
    ensures Total(ss[i].heap.entries) == UNITS_PER_FRAME * ss[i].heap.grown
    ensures ss[i].heap.grown <= ss[i].heap.room
  {
    RunKeepsGood(ss, ops, i);
    var h := ss[i].heap;
    TilesTotal(h.entries, h.lo, h.Hi());
  }

  lemma StepKeepsRange(s: State, op: Op, t: State)
    requires Good(s) && Step(s, op, t)
    ensures t.heap.lo == s.heap.lo && t.heap.room == s.heap.room
  {
    if op.Malloc? && Serving(s.heap, op.bytes).Some? {
      ServingKeeps(s.heap, op.bytes);
    }
  }

  /** The frames that the heap may use are the same in every state. */
  lemma {:induction false} RunKeepsRange(ss: seq<State>, ops: seq<Op>, i: nat)
    requires IsRun(ss, ops) && Good(ss[0]) && i < |ss|
    ensures ss[i].heap.lo == ss[0].heap.lo && ss[i].heap.room == ss[0].heap.room
  {
    if i > 0 {
      RunKeepsRange(ss, ops, i - 1);
      RunKeepsGood(ss, ops, i - 1);
      StepKeepsRange(ss[i - 1], ops[i - 1], ss[i]);
    }
  }

  /** In every state, live blocks lie apart, off the headers, inside the frames the heap started with. */
  lemma RunLiveBlocksApart(ss: seq<State>, ops: seq<Op>, i: nat, p: nat, q: nat)
    requires IsRun(ss, ops) && Good(ss[0]) && i < |ss|
    requires p in ss[i].live && q in ss[i].live
    ensures exists size, otherSize ::
              && Block(ss[i].heap.entries, p, size) && Block(ss[i].heap.entries, q, otherSize)
              && UNIT * size >= ss[i].live[p] && UNIT * otherSize >= ss[i].live[q]
              && (p != q ==> p + size < q || q + otherSize < p)
              && (forall u | p <= u < p + size :: !IsHeader(ss[i].heap.entries, u))
              && ss[0].heap.lo < p && p + size <= ss[0].heap.lo + UNITS_PER_FRAME * ss[0].heap.room
  {
    RunKeepsGood(ss, ops, i);
    RunKeepsRange(ss, ops, i);
    var size :| Block(ss[i].heap.entries, p, size);
    var otherSize :| Block(ss[i].heap.entries, q, otherSize);
    BlocksApart(ss[i].heap, p, size, q, otherSize);
  }

  lemma SomeUsed(es: seq<Entry>)
    requires NoTwoFree(es) && |es| > 1
    ensures exists k :: 0 <= k < |es| && es[k].used
  {
    assert es[0].used || es[1].used;
  }

  /** With nothing live, the list is empty or one free entry over the whole heap. */
  lemma RunAllFreed(ss: seq<State>, ops: seq<Op>, i: nat)
    requires IsRun(ss, ops) && Good(ss[0]) && i < |ss|
    requires ss[i].live == map[]
    ensures var h := ss[i].heap;
            h.entries == if h.grown == 0 then [] else [Entry(h.lo, UNITS_PER_FRAME * h.grown - 1, false)]
  {
    RunKeepsGood(ss, ops, i);
    var h := ss[i].heap;
    var es := h.entries;
    forall k | 0 <= k < |es| ensures !es[k].used {
      if es[k].used {
        assert Block(es, es[k].at + 1, es[k].size);
      }
    }
    if |es| > 1 {
      SomeUsed(es);
    }
    if |es| == 1 {
      assert Abuts(es, h.Hi(), 0);
    }
  }

  /** The operation neither frees the block at p nor stores to the unit at this offset. */
  predicate Spares(op: Op, p: nat, offset: nat) {
    match op
    case Malloc(_) => true
    case Free(q) => q != p
    case Store(q, o, _) => q != p || o != offset
  }

  /** One operation on other blocks keeps a block and its contents. */
  lemma StepKeepsPayload(s: State, op: Op, t: State, p: nat, size: nat, offset: nat)
    requires Good(s) && Step(s, op, t) && Spares(op, p, offset)
    requires Block(s.heap.entries, p, size) && offset < size && p + offset < |s.ram|
    ensures Block(t.heap.entries, p, size)
    ensures |t.ram| == |s.ram| && t.ram[p + offset] == s.ram[p + offset]
  {
    StepKeepsGood(s, op, t);
    BlocksApart(s.heap, p, size, p, size);
    match op
    case Malloc(bytes) =>
      if Alloc(s.heap, bytes).1.Some? {
        AllocBlocks(s.heap, bytes, p, size);
      }
      BlocksApart(t.heap, p, size, p, size);
    case Free(q) =>
      DeallocBlocks(s.heap, q, p, size);
      BlocksApart(t.heap, p, size, p, size);
    case Store(q, o, _) =>
      var otherSize :| Block(s.heap.entries, q, otherSize) && o < otherSize;
      BlocksApart(s.heap, p, size, q, otherSize);
  }

  /** Calls about other blocks never change a live block's bytes, over whole runs. */
  lemma {:induction false} RunKeepsPayload(ss: seq<State>, ops: seq<Op>, i: nat, p: nat, size: nat, offset: nat)
    requires IsRun(ss, ops) && Good(ss[0]) && i < |ss|
    requires Block(ss[0].heap.entries, p, size) && offset < size && p + offset < |ss[0].ram|
    requires forall op | op in ops :: Spares(op, p, offset)
    ensures Block(ss[i].heap.entries, p, size)
    ensures |ss[i].ram| == |ss[0].ram| && ss[i].ram[p + offset] == ss[0].ram[p + offset]
  {
    if i > 0 {
      RunKeepsPayload(ss, ops, i - 1, p, size, offset);
      RunKeepsGood(ss, ops, i - 1);
      assert ops[i - 1] in ops;
      StepKeepsPayload(ss[i - 1], ops[i - 1], ss[i], p, size, offset);
    }
  }

  /** The first free entry with enough bytes serves a request; it may keep one unit too many, but no more. */
  lemma AllocTakesFirst(h: Heap, bytes: u32, i: nat)
    requires bytes <= MAX_REQUEST && i < |h.entries| && !h.entries[i].used && UNIT * h.entries[i].size >= bytes
    requires forall j | 0 <= j < i && !h.entries[j].used :: UNIT * h.entries[j].size < bytes
    ensures Alloc(h, bytes).1 == Some(h.entries[i].at + 1) && Alloc(h, bytes).0.grown == h.grown
    ensures var e := Alloc(h, bytes).0.entries[i]; e.used && e.at == h.entries[i].at && UNIT * e.size < bytes + 2 * UNIT
  {
    forall j | 0 <= j <= i
      ensures Fits(h.entries[j], UnitsFor(bytes)) <==> j == i
    {
      FitsIs(h.entries[j], bytes);
    }
    FirstFitIs(h.entries, UnitsFor(bytes), i);
    UnitsForIs(bytes);
  }

  /** Without such an entry, the fewest frames that hold the bytes and a header are added, or the request fails. */
  lemma AllocGrows(h: Heap, bytes: u32, n: nat)
    requires bytes <= MAX_REQUEST && forall e | e in h.entries && !e.used :: UNIT * e.size < bytes
    requires 4096 * n >= bytes + UNIT && 4096 * (n - 1) < bytes + UNIT
    ensures if h.grown + n <= h.room
            then Alloc(h, bytes).1 == Some(h.Hi() + 1) && Alloc(h, bytes).0.grown == h.grown + n
            else Alloc(h, bytes) == (h, None)
  {
    forall j | 0 <= j < |h.entries|
      ensures !Fits(h.entries[j], UnitsFor(bytes))
    {
      assert h.entries[j] in h.entries;
      FitsIs(h.entries[j], bytes);
    }
    FirstFitIs(h.entries, UnitsFor(bytes), |h.entries|);
    FramesForIsEnough(bytes);
    assert n >= 1 && n >= FramesFor(UnitsFor(bytes)) > n - 1;
  }

  /** kfree right after kalloc restores the heap, whole entry or split. */
  lemma FreeUndoesMalloc(h: Heap, bytes: u32)
    requires Inv(h) && bytes <= MAX_REQUEST
    requires FirstFit(h.entries, UnitsFor(bytes)) < |h.entries|
    ensures var (g, p) := Alloc(h, bytes);
            p.Some? && Dealloc(g, p.value) == h
  {
    var es, units := h.entries, UnitsFor(bytes);
    var i := FirstFit(es, units);
    var r := Take(es, i, units);
    FreedUndoesTake(es, i, units);
    TakeIsFound(es, h.lo, h.Hi(), i, units);
    assert Alloc(h, bytes) == (h.(entries := r), Some(es[i].at + 1));
  }

  /** The entry taken is the one that its pointer leads to. */
  lemma TakeIsFound(es: seq<Entry>, lo: nat, hi: nat, i: nat, units: nat)
    requires Tiles(es, lo, hi) && i < |es| && Fits(es[i], units)
    ensures i < |Take(es, i, units)| && Take(es, i, units)[i].used && Find(Take(es, i, units), es[i].at + 1) == i
  {
    var r := Take(es, i, units);
    assert r[i].at == es[i].at && r[i].used;
    forall j | 0 <= j < i
      ensures r[j].at + 1 != es[i].at + 1
    {
      TilesOrder(es, lo, hi, j, i);
      assert r[j] == es[j];
    }
    FindIs(r, es[i].at + 1, i);
  }

  lemma FreedUndoesTake(es: seq<Entry>, i: nat, units: nat)
    requires NoTwoFree(es) && i < |es| && Fits(es[i], units)
    ensures Freed(Take(es, i, units), i) == es
  {
    var r := Take(es, i, units);
    assert i > 0 ==> es[i - 1].used;
    assert i + 1 < |es| ==> es[i + 1].used;
    if es[i].size <= units + 1 {
      assert r[i := r[i].(used := false)] == es;
    } else {
      var e1 := r[i := r[i].(used := false)];
      assert Join(e1, i) == es;
    }
  }
}
