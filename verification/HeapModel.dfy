/**
 * The kernel heap as a sequence of blocks, without headers or pointers, and
 * what every run of kalloc and kfree keeps true. Addresses are in units of
 * 16 bytes, the size of a header.
 */
module HeapModel {
  import opened Words

  const UNIT: int := 16
  const UNITS_PER_FRAME: int := 256
  const MAX_REQUEST: int := 0xFFFF_FFE0

  /** A header at unit `at` that owns the `size` units after it. */
  datatype Entry = Entry(at: nat, size: nat, used: bool)

  /** Blocks from unit lo on, in the `grown` frames obtained so far out of `room`. */
  datatype Heap = Heap(entries: seq<Entry>, lo: nat, grown: nat, room: nat) {
    function Hi(): nat {
      lo + UNITS_PER_FRAME * grown
    }
  }

  // ---------------------------------------------------------------- invariant

  /** Entry i ends where the entry after it starts, or at the end of the heap. */
  ghost predicate Abuts(es: seq<Entry>, hi: nat, i: nat)
    requires i < |es|
  {
    es[i].at + es[i].size + 1 == if i + 1 < |es| then es[i + 1].at else hi
  }

  /** The entries cover [lo, hi) exactly, each next one right after its predecessor. */
  ghost predicate Tiles(es: seq<Entry>, lo: nat, hi: nat) {
    && lo == (if es == [] then hi else es[0].at)
    && forall i | 0 <= i < |es| :: Abuts(es, hi, i)
  }

  ghost predicate NoTwoFree(es: seq<Entry>) {
    forall i | 0 <= i && i + 1 < |es| :: es[i].used || es[i + 1].used
  }

  ghost predicate Inv(h: Heap) {
    && Tiles(h.entries, h.lo, h.Hi())
    && NoTwoFree(h.entries)
    && h.grown <= h.room
  }

  /** Entries are ordered and apart: each ends before any later one starts. */
  lemma {:induction false} TilesOrder(es: seq<Entry>, lo: nat, hi: nat, i: nat, j: nat)
    requires Tiles(es, lo, hi) && i <= j < |es|
    ensures lo <= es[i].at && es[j].at + es[j].size < hi
    ensures i < j ==> es[i].at + es[i].size < es[j].at
  {
    TilesFrom(es, lo, hi, i);
    TilesTo(es, lo, hi, j);
    if i + 1 < j {
      TilesOrder(es, lo, hi, i, j - 1);
    }
    assert i < j ==> Abuts(es, hi, j - 1);
  }

  /** Where one entry and the entry after it stand. */
  lemma EntryBounds(es: seq<Entry>, lo: nat, hi: nat, i: nat)
    requires Tiles(es, lo, hi) && i < |es|
    ensures lo <= es[i].at && es[i].at + es[i].size < hi
    ensures i + 1 < |es| ==> es[i + 1].at == es[i].at + es[i].size + 1 < hi
    ensures i > 0 ==> lo <= es[i - 1].at && es[i].at == es[i - 1].at + es[i - 1].size + 1
  {
    TilesFrom(es, lo, hi, i);
    TilesTo(es, lo, hi, i);
    assert Abuts(es, hi, i);
    if i + 1 < |es| {
      TilesTo(es, lo, hi, i + 1);
    }
    if i > 0 {
      TilesFrom(es, lo, hi, i - 1);
      assert Abuts(es, hi, i - 1);
    }
  }

  lemma {:induction false} TilesFrom(es: seq<Entry>, lo: nat, hi: nat, i: nat)
    requires Tiles(es, lo, hi) && i < |es|
    ensures lo <= es[i].at
  {
    if i > 0 {
      assert Abuts(es, hi, i - 1);
      TilesFrom(es, lo, hi, i - 1);
    }
  }

  lemma {:induction false} TilesTo(es: seq<Entry>, lo: nat, hi: nat, j: nat)
    requires Tiles(es, lo, hi) && j < |es|
    ensures es[j].at + es[j].size < hi
    decreases |es| - j
  {
    assert Abuts(es, hi, j);
    if j + 1 < |es| {
      TilesTo(es, lo, hi, j + 1);
    }
  }

  /** The units covered by the entries, headers included. */
  ghost function Total(es: seq<Entry>): nat {
    if es == [] then 0 else Total(es[..|es| - 1]) + es[|es| - 1].size + 1
  }

  /** Conservation: headers and payloads add up to the frames obtained. */
  lemma {:induction false} TilesTotal(es: seq<Entry>, lo: nat, hi: nat)
    requires Tiles(es, lo, hi)
    ensures lo + Total(es) == hi
  {
    if es != [] {
      var front := es[..|es| - 1];
      assert Abuts(es, hi, |es| - 1);
      var end := es[|es| - 1].at;
      forall i | 0 <= i < |front| ensures Abuts(front, end, i) {
        assert Abuts(es, hi, i);
      }
      TilesTotal(front, lo, end);
    }
  }

  // --------------------------------------------------------------- allocation

  function UnitsFor(bytes: nat): nat {
    bytes / UNIT + if bytes % UNIT > 0 then 1 else 0
  }

  /** It is the number of units that the bytes take. */
  lemma UnitsForIs(bytes: nat)
    ensures bytes <= UNIT * UnitsFor(bytes) < bytes + UNIT
  {
  }

  /** Frames kalloc asks for when it grows the heap; the product is 32 bits wide. */
  function FramesFor(units: nat): nat {
    var need := ToU32((units + 1) * UNIT);
    need / 4096 + if need % 4096 > 0 then 1 else 0
  }

  /**
   * The frames asked for hold the bytes and a header exactly below the limit, and then they
   * are as few as possible.
   */
  lemma FramesForIsEnough(bytes: u32)
    ensures 4096 * FramesFor(UnitsFor(bytes)) >= bytes + UNIT <==> bytes <= MAX_REQUEST
    ensures bytes <= MAX_REQUEST ==>
              && UNITS_PER_FRAME * FramesFor(UnitsFor(bytes)) >= UnitsFor(bytes) + 1
              && forall n: nat :: 4096 * n >= bytes + UNIT <==> n >= FramesFor(UnitsFor(bytes))
  {
    var units := UnitsFor(bytes);
    UnitsForIs(bytes);
    if bytes <= MAX_REQUEST {
      var n0 := FramesFor(units);
      assert 4096 * n0 >= (units + 1) * UNIT > 4096 * (n0 - 1);
      forall n: nat
        ensures 4096 * n >= bytes + UNIT <==> n >= n0
      {
        assert UNITS_PER_FRAME * n >= units + 1 <==> n >= n0;
      }
    }
  }

  predicate Fits(e: Entry, units: nat) {
    !e.used && e.size >= units
  }

  /** In bytes: an entry fits a request if it is free and its payload has that many bytes. */
  lemma FitsIs(e: Entry, bytes: nat)
    ensures Fits(e, UnitsFor(bytes)) <==> !e.used && UNIT * e.size >= bytes
  {
    UnitsForIs(bytes);
  }

  /** The index of the first free entry that is large enough, or |es|. */
  function FirstFit(es: seq<Entry>, units: nat): (r: nat)
    ensures r <= |es|
    ensures r < |es| ==> Fits(es[r], units)
    ensures forall j | 0 <= j < r :: !Fits(es[j], units)
  {
    if es == [] then 0
    else if Fits(es[0], units) then 0
    else 1 + FirstFit(es[1..], units)
  }

  /** FirstFit is the only index with its promises. */
  lemma {:induction false} FirstFitIs(es: seq<Entry>, units: nat, i: nat)
    requires i <= |es|
    requires i < |es| ==> Fits(es[i], units)
    requires forall j | 0 <= j < i :: !Fits(es[j], units)
    ensures FirstFit(es, units) == i
  {
  }

  /** Entry i after a request took it: whole if at most one unit is left over, else split. */
  function Take(es: seq<Entry>, i: nat, units: nat): seq<Entry>
    requires i < |es| && Fits(es[i], units)
  {
    var e := es[i];
    if e.size <= units + 1 then es[i := e.(used := true)]
    else es[..i] + [Entry(e.at, units, true), Entry(e.at + units + 1, e.size - units - 1, false)] + es[i + 1..]
  }

  /** The heap with n more frames at its end. */
  function Grown(h: Heap, n: nat): Heap
    requires n > 0
  {
    h.(entries := h.entries + [Entry(h.Hi(), UNITS_PER_FRAME * n - 1, false)], grown := h.grown + n)
  }

  /** The heap a request is served from, and the serving entry; None if it fails. */
  function Serving(h: Heap, bytes: u32): (r: Option<(Heap, nat)>)
    requires bytes <= MAX_REQUEST
    ensures r.Some? ==> var (g, i) := r.value; i < |g.entries| && Fits(g.entries[i], UnitsFor(bytes))
  {
    var units := UnitsFor(bytes);
    var n := FramesFor(units);
    var i := FirstFit(h.entries, units);
    FramesForIsEnough(bytes);
    if i < |h.entries| then Some((h, i))
    else if h.grown + n <= h.room then Some((Grown(h, n), |h.entries|))
    else None
  }

  /** kalloc: the heap afterwards and the first payload unit of the block. */
  function Alloc(h: Heap, bytes: u32): (Heap, Option<nat>)
    requires bytes <= MAX_REQUEST
  {
    match Serving(h, bytes)
    case None => (h, None)
    case Some((g, i)) => (g.(entries := Take(g.entries, i, UnitsFor(bytes))), Some(g.entries[i].at + 1))
  }

  // ------------------------------------------------------------------ release

  /** The index of the entry whose payload starts at unit p, or |es|. */
  function Find(es: seq<Entry>, p: int): (r: nat)
    ensures r <= |es|
    ensures r < |es| ==> es[r].at + 1 == p
    ensures forall j | 0 <= j < r :: es[j].at + 1 != p
  {
    if es == [] || es[0].at + 1 == p then 0 else 1 + Find(es[1..], p)
  }

  /** Find is the only index with its promises. */
  lemma FindIs(es: seq<Entry>, p: int, i: nat)
    requires i <= |es|
    requires i < |es| ==> es[i].at + 1 == p
    requires forall j | 0 <= j < i :: es[j].at + 1 != p
    ensures Find(es, p) == i
  {
  }

  /** Entries i and i + 1 joined into one free entry at the place of i. */
  function Join(es: seq<Entry>, i: nat): seq<Entry>
    requires i + 1 < |es|
  {
    es[..i] + [Entry(es[i].at, es[i].size + es[i + 1].size + 1, false)] + es[i + 2..]
  }

  /** Entry i freed and joined with its free neighbours. */
  function Freed(es: seq<Entry>, i: nat): seq<Entry>
    requires i < |es|
  {
    var e1 := es[i := es[i].(used := false)];
    var e2 := if i + 1 < |e1| && !e1[i + 1].used then Join(e1, i) else e1;
    if i > 0 && !e2[i - 1].used then Join(e2, i - 1) else e2
  }

  /** kfree of the block whose payload starts at unit p; anything else is ignored. */
  function Dealloc(h: Heap, p: int): Heap {
    var i := Find(h.entries, p);
    if i < |h.entries| && h.entries[i].used then h.(entries := Freed(h.entries, i)) else h
  }

  // ------------------------------------------- what one call does to the heap

  lemma TakeTiles(es: seq<Entry>, lo: nat, hi: nat, i: nat, units: nat)
    requires Tiles(es, lo, hi) && i < |es| && Fits(es[i], units)
    ensures Tiles(Take(es, i, units), lo, hi)
  {
    var r := Take(es, i, units);
    if es[i].size > units + 1 {
      forall k | 0 <= k < |r| ensures Abuts(r, hi, k) {
        if k < i {
          assert Abuts(es, hi, k);
        } else if k > i + 1 {
          assert Abuts(es, hi, k - 1);
        } else {
          assert Abuts(es, hi, i);
        }
      }
    } else {
      forall k | 0 <= k < |r| ensures Abuts(r, hi, k) {
        assert Abuts(es, hi, k);
      }
    }
  }

  /** Taking entry i separates it from its neighbours, whatever stood before it. */
  lemma TakeNoTwoFree(es: seq<Entry>, i: nat, units: nat)
    requires i < |es| && Fits(es[i], units)
    requires forall k | 0 <= k && k + 1 < |es| && k + 1 != i :: es[k].used || es[k + 1].used
    ensures NoTwoFree(Take(es, i, units))
  {
    var r := Take(es, i, units);
    forall k | 0 <= k && k + 1 < |r| ensures r[k].used || r[k + 1].used {
      if |r| > |es| && k > i {
        assert es[k - 1].used || es[k].used;
      } else if k + 1 != i && k != i {
        assert es[k].used || es[k + 1].used;
      }
    }
  }

  lemma JoinTiles(es: seq<Entry>, lo: nat, hi: nat, i: nat)
    requires Tiles(es, lo, hi) && i + 1 < |es|
    ensures Tiles(Join(es, i), lo, hi)
  {
    var r := Join(es, i);
    forall k | 0 <= k < |r| ensures Abuts(r, hi, k) {
      if k < i {
        assert Abuts(es, hi, k);
      } else {
        assert Abuts(es, hi, k + 1);
        assert Abuts(es, hi, i);
      }
    }
  }

  lemma GrownTiles(h: Heap, n: nat)
    requires n > 0 && Tiles(h.entries, h.lo, h.Hi())
    ensures Tiles(Grown(h, n).entries, h.lo, Grown(h, n).Hi())
  {
    var es, g := h.entries, Grown(h, n);
    forall k | 0 <= k < |g.entries| ensures Abuts(g.entries, g.Hi(), k) {
      if k < |es| {
        assert Abuts(es, h.Hi(), k);
      }
    }
  }

  /** The heap a request is served from is tiled, and at most grown once. */
  lemma ServingKeeps(h: Heap, bytes: u32)
    requires Inv(h) && bytes <= MAX_REQUEST && Serving(h, bytes).Some?
    ensures var (g, i) := Serving(h, bytes).value;
            && Tiles(g.entries, g.lo, g.Hi()) && g.grown <= g.room
            && g.lo == h.lo && g.room == h.room
            && forall k | 0 <= k && k + 1 < |g.entries| && k + 1 != i :: g.entries[k].used || g.entries[k + 1].used
  {
    var (g, i) := Serving(h, bytes).value;
    if i == |h.entries| {
      GrownTiles(h, FramesFor(UnitsFor(bytes)));
    }
    forall k | 0 <= k && k + 1 < |g.entries| && k + 1 != i ensures g.entries[k].used || g.entries[k + 1].used {
      assert h.entries[k].used || h.entries[k + 1].used;
    }
  }

  /** kalloc keeps the invariant, also when growing puts two free entries together. */
  lemma AllocKeepsInv(h: Heap, bytes: u32)
    requires Inv(h) && bytes <= MAX_REQUEST
    ensures Inv(Alloc(h, bytes).0)
  {
    if Serving(h, bytes).Some? {
      var (g, i) := Serving(h, bytes).value;
      ServingKeeps(h, bytes);
      TakeTiles(g.entries, g.lo, g.Hi(), i, UnitsFor(bytes));
      TakeNoTwoFree(g.entries, i, UnitsFor(bytes));
    }
  }

  /** kfree keeps the invariant: it leaves no two free neighbours. */
  lemma DeallocKeepsInv(h: Heap, p: int)
    requires Inv(h)
    ensures Inv(Dealloc(h, p))
  {
    var es, i := h.entries, Find(h.entries, p);
    if i < |es| && es[i].used {
      FreedTiles(es, h.lo, h.Hi(), i);
      FreedNoTwoFree(es, i);
    }
  }

  lemma FreedTiles(es: seq<Entry>, lo: nat, hi: nat, i: nat)
    requires Tiles(es, lo, hi) && i < |es|
    ensures Tiles(Freed(es, i), lo, hi)
  {
    var e1 := es[i := es[i].(used := false)];
    forall k | 0 <= k < |e1| ensures Abuts(e1, hi, k) {
      assert Abuts(es, hi, k);
    }
    var joinsNext := i + 1 < |e1| && !e1[i + 1].used;
    var e2 := if joinsNext then Join(e1, i) else e1;
    if joinsNext {
      JoinTiles(e1, lo, hi, i);
    }
    if i > 0 && !e2[i - 1].used {
      JoinTiles(e2, lo, hi, i - 1);
    }
  }

  lemma FreedNoTwoFree(es: seq<Entry>, i: nat)
    requires NoTwoFree(es) && i < |es| && es[i].used
    ensures NoTwoFree(Freed(es, i))
  {
    var e1 := es[i := es[i].(used := false)];
    var e2 := if i + 1 < |e1| && !e1[i + 1].used then Join(e1, i) else e1;
    assert forall k | 0 <= k && k + 1 < |e2| && k + 1 != i :: e2[k].used || e2[k + 1].used by {
      forall k | 0 <= k && k + 1 < |e2| && k + 1 != i ensures e2[k].used || e2[k + 1].used {
        if |e2| < |es| && k >= i {
          assert es[k + 1].used || es[k + 2].used;
        } else {
          assert es[k].used || es[k + 1].used;
        }
      }
    }
    if i > 0 && !e2[i - 1].used {
      var e3 := Join(e2, i - 1);
      forall k | 0 <= k && k + 1 < |e3| ensures e3[k].used || e3[k + 1].used {
        if k + 1 < i {
          assert e2[k].used || e2[k + 1].used;
        } else {
          assert e2[k + 1].used || e2[k + 2].used;
        }
      }
    }
  }
}
