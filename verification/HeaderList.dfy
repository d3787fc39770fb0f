/** The heap's doubly linked headers in memory, and what relinking does to them. */
module HeaderList {
  import opened Words
  import opened FrameAllocation
  import opened HeapModel

  const FLAG_NULL: u32 := 0
  const FLAG_FREE: u32 := 1
  const FLAG_USED: u32 := 2

  // 16-byte units of memory below the user space.
  const RAM_UNITS: int := 768 * 256

  /** Sixteen bytes of memory as four words; a struct mem_entry where a header stands. */
  datatype Unit = Unit(next: u32, prev: u32, size: u32, flags: u32)

  /** The address of entry i; entry -1 is the static list head. */
  ghost function AddressOf(es: seq<Entry>, head: u32, i: int): int
    requires -1 <= i < |es|
  {
    if i == -1 then head else UNIT * es[i].at
  }

  ghost function NextOf(es: seq<Entry>, i: int): int
    requires -1 <= i < |es|
  {
    if i + 1 < |es| then UNIT * es[i + 1].at else 0
  }

  /** Entry i's header stands in memory, with both links right. */
  ghost predicate HeaderOk(ram: seq<Unit>, es: seq<Entry>, head: u32, i: nat)
    requires i < |es|
  {
    && es[i].at < |ram|
    && var u := ram[es[i].at];
       && u.next == NextOf(es, i)
       && u.prev == AddressOf(es, head, i - 1)
       && u.size == es[i].size
       && u.flags == if es[i].used then FLAG_USED else FLAG_FREE
  }

  ghost predicate HeadersOk(ram: seq<Unit>, es: seq<Entry>, head: u32) {
    forall i | 0 <= i < |es| :: HeaderOk(ram, es, head, i)
  }

  /** The list in memory, from the head on, is es, which tiles [lo, hi). */
  ghost predicate List(ram: seq<Unit>, first: u32, es: seq<Entry>, head: u32, lo: nat, hi: nat) {
    && |ram| == RAM_UNITS
    && 0 < head < BITMAP_ADDR
    && BITMAP_ADDR <= UNIT * lo && hi <= RAM_UNITS
    && Tiles(es, lo, hi)
    && first == NextOf(es, -1)
    && HeadersOk(ram, es, head)
  }

  ghost predicate IsHeader(es: seq<Entry>, u: nat) {
    exists i | 0 <= i < |es| :: es[i].at == u
  }

  /** Memory is the same outside the headers before and after a call. */
  ghost predicate OnlyHeadersChanged(ram0: seq<Unit>, es0: seq<Entry>, ram1: seq<Unit>, es1: seq<Entry>) {
    && |ram0| == |ram1|
    && forall u | 0 <= u < |ram0| && !IsHeader(es0, u) && !IsHeader(es1, u) :: ram1[u] == ram0[u]
  }

  ghost predicate Sorted(es: seq<Entry>) {
    forall j, k | 0 <= j < k < |es| :: es[j].at + es[j].size < es[k].at
  }

  lemma TilesSorted(es: seq<Entry>, lo: nat, hi: nat)
    requires Tiles(es, lo, hi)
    ensures Sorted(es)
    ensures forall j | 0 <= j < |es| :: lo <= es[j].at && es[j].at + es[j].size < hi
  {
    forall j, k | 0 <= j < k < |es| ensures es[j].at + es[j].size < es[k].at {
      TilesOrder(es, lo, hi, j, k);
    }
    forall j | 0 <= j < |es| ensures lo <= es[j].at && es[j].at + es[j].size < hi {
      TilesOrder(es, lo, hi, j, j);
    }
  }

  /** Memory after kalloc relinks a split of the header at unit u, the rest at unit v. */
  ghost function SplitRam(ram: seq<Unit>, u: nat, v: nat): (r: seq<Unit>)
    requires u < v < |ram| && UNIT * v < U32_LIMIT
    requires ram[u].size + u >= v && ram[u].next / UNIT < |ram|
    ensures |r| == |ram|
  {
    var rest := Unit(ram[u].next, UNIT * u, ram[u].size + u - v, FLAG_FREE);
    var r1 := ram[v := rest];
    var w := ram[u].next / UNIT;
    var r2 := if ram[u].next != 0 then r1[w := r1[w].(prev := UNIT * v)] else r1;
    r2[u := Unit(UNIT * v, r2[u].prev, v - u - 1, FLAG_USED)]
  }

  /** r is es with entry i replaced by two entries that share its place. */
  ghost predicate Splits(es: seq<Entry>, i: nat, r: seq<Entry>)
    requires i < |es|
  {
    && |r| == |es| + 1
    && (forall k | 0 <= k < i :: r[k] == es[k])
    && (forall k {:trigger r[k]} | i + 1 < k < |r| :: r[k] == es[k - 1])
    && r[i].at == es[i].at
    && r[i + 1].at == r[i].at + r[i].size + 1
    && r[i + 1].size == es[i].size - r[i].size - 1
    && r[i].used && !r[i + 1].used
  }

  /** Relinking after a split leaves every header right. */
  lemma SplitHeaders(ram: seq<Unit>, es: seq<Entry>, head: u32, i: nat, r: seq<Entry>)
    requires Sorted(es) && HeadersOk(ram, es, head) && |ram| <= RAM_UNITS
    requires i < |es| && Splits(es, i, r) && 0 < es[i].at && es[i].at + es[i].size < |ram|
    requires i + 1 < |es| ==> es[i + 1].at < |ram|
    ensures var u, v := es[i].at, r[i + 1].at;
            && v < |ram|
            && HeaderOk(ram, es, head, i)
            && HeadersOk(SplitRam(ram, u, v), r, head)
            && OnlyHeadersChanged(ram, es, SplitRam(ram, u, v), r)
  {
    assert HeaderOk(ram, es, head, i);
    var u, v := es[i].at, r[i + 1].at;
    var ram1 := SplitRam(ram, u, v);
    forall k | 0 <= k < |r| ensures HeaderOk(ram1, r, head, k) {
      if k < i {
        assert HeaderOk(ram, es, head, k);
        assert r[k] == es[k];
      } else if k == i {
      } else if k == i + 1 {
      } else {
        assert HeaderOk(ram, es, head, k - 1);
        assert r[k] == es[k - 1];
      }
    }
  }

  /** Where entry i's header stands, and what it holds. */
  lemma ListAt(ram: seq<Unit>, first: u32, es: seq<Entry>, head: u32, lo: nat, hi: nat, i: nat)
    requires List(ram, first, es, head, lo, hi) && i < |es|
    ensures lo <= es[i].at && es[i].at + es[i].size < hi
    ensures HeaderOk(ram, es, head, i)
    ensures i + 1 < |es| ==> es[i + 1].at == es[i].at + es[i].size + 1 < hi
  {
    EntryBounds(es, lo, hi, i);
    assert HeaderOk(ram, es, head, i);
  }

  /**
   * The links go both ways: the next link of an entry leads to one whose prev link leads back,
   * and the first entry leads back to the static list head.
   */
  lemma DoublyLinked(ram: seq<Unit>, first: u32, es: seq<Entry>, head: u32, lo: nat, hi: nat, i: nat)
    requires List(ram, first, es, head, lo, hi) && i < |es|
    ensures first == UNIT * es[0].at && first / UNIT < |ram| && ram[first / UNIT].prev == head && es[i].at < |ram|
    ensures var next := ram[es[i].at].next;
            if i + 1 < |es|
            then next == UNIT * es[i + 1].at && next / UNIT < |ram| && ram[next / UNIT].prev == UNIT * es[i].at
            else next == 0
  {
    ListAt(ram, first, es, head, lo, hi, 0);
    ListAt(ram, first, es, head, lo, hi, i);
    if i + 1 < |es| {
      ListAt(ram, first, es, head, lo, hi, i + 1);
    }
  }

  /** kalloc's split, on the whole list. */
  lemma SplitList(ram: seq<Unit>, first: u32, es: seq<Entry>, head: u32, lo: nat, hi: nat, i: nat, units: nat)
    requires List(ram, first, es, head, lo, hi)
    requires i < |es| && Fits(es[i], units) && es[i].size > units + 1
    ensures var u, v := es[i].at, es[i].at + units + 1;
            && v < |ram| && ram[u].size == es[i].size && ram[u].next / UNIT < |ram|
            && List(SplitRam(ram, u, v), first, Take(es, i, units), head, lo, hi)
            && OnlyHeadersChanged(ram, es, SplitRam(ram, u, v), Take(es, i, units))
  {
    EntryBounds(es, lo, hi, i);
    TakeTiles(es, lo, hi, i, units);
    TakeSplits(es, i, units);
    SplitListTo(ram, first, es, head, lo, hi, i, Take(es, i, units));
  }

  lemma SplitListTo(ram: seq<Unit>, first: u32, es: seq<Entry>, head: u32, lo: nat, hi: nat, i: nat, r: seq<Entry>)
    requires List(ram, first, es, head, lo, hi) && Tiles(r, lo, hi)
    requires i < |es| && Splits(es, i, r)
    ensures var u, v := es[i].at, r[i + 1].at;
            && v < |ram| && ram[u].size == es[i].size && ram[u].next / UNIT < |ram|
            && List(SplitRam(ram, u, v), first, r, head, lo, hi)
            && OnlyHeadersChanged(ram, es, SplitRam(ram, u, v), r)
  {
    EntryBounds(es, lo, hi, i);
    TilesSorted(es, lo, hi);
    SplitHeaders(ram, es, head, i, r);
  }

  lemma TakeSplits(es: seq<Entry>, i: nat, units: nat)
    requires i < |es| && Fits(es[i], units) && es[i].size > units + 1
    ensures Splits(es, i, Take(es, i, units))
  {
    var r, e := Take(es, i, units), es[i];
    var front := es[..i] + [Entry(e.at, units, true), Entry(e.at + units + 1, e.size - units - 1, false)];
    assert r == front + es[i + 1..];
    forall k | i + 1 < k < |r|
      ensures r[k] == es[k - 1]
    {
      assert r[k] == es[i + 1..][k - |front|];
    }
  }

  function Flag(used: bool): u32 {
    if used then FLAG_USED else FLAG_FREE
  }

  lemma FlagHeaders(ram: seq<Unit>, es: seq<Entry>, head: u32, i: nat, used: bool)
    requires Sorted(es) && HeadersOk(ram, es, head) && i < |es| && es[i].at < |ram|
    ensures HeadersOk(ram[es[i].at := ram[es[i].at].(flags := Flag(used))], es[i := es[i].(used := used)], head)
  {
    var ram1 := ram[es[i].at := ram[es[i].at].(flags := Flag(used))];
    var r := es[i := es[i].(used := used)];
    forall k | 0 <= k < |r|
      ensures HeaderOk(ram1, r, head, k)
    {
      assert HeaderOk(ram, es, head, k);
    }
  }

  lemma FlagTiles(es: seq<Entry>, lo: nat, hi: nat, i: nat, used: bool)
    requires Tiles(es, lo, hi) && i < |es|
    ensures Tiles(es[i := es[i].(used := used)], lo, hi)
  {
    var r := es[i := es[i].(used := used)];
    forall k | 0 <= k < |r|
      ensures Abuts(r, hi, k)
    {
      assert Abuts(es, hi, k);
    }
  }

  lemma FlagSameHeaders(es: seq<Entry>, i: nat, used: bool)
    requires i < |es|
    ensures forall u :: IsHeader(es[i := es[i].(used := used)], u) <==> IsHeader(es, u)
  {
    var r := es[i := es[i].(used := used)];
    assert forall k | 0 <= k < |es| :: r[k].at == es[k].at;
  }

  /** Flipping the flags of one entry, on the whole list. */
  lemma FlagList(ram: seq<Unit>, first: u32, es: seq<Entry>, head: u32, lo: nat, hi: nat, i: nat, used: bool)
    requires List(ram, first, es, head, lo, hi) && i < |es|
    ensures es[i].at < |ram|
    ensures var ram1 := ram[es[i].at := ram[es[i].at].(flags := Flag(used))];
            var r := es[i := es[i].(used := used)];
            && List(ram1, first, r, head, lo, hi)
            && OnlyHeadersChanged(ram, es, ram1, r)
            && forall u :: IsHeader(r, u) <==> IsHeader(es, u)
  {
    EntryBounds(es, lo, hi, i);
    TilesSorted(es, lo, hi);
    FlagHeaders(ram, es, head, i, used);
    FlagTiles(es, lo, hi, i, used);
    FlagSameHeaders(es, i, used);
    assert IsHeader(es, es[i].at);
  }

  /** The links and sizes of two headers are such that they can be joined. */
  ghost predicate Joinable(ram: seq<Unit>, u: nat, w: nat) {
    && u < |ram| && w < |ram| && UNIT * u < U32_LIMIT && UNIT * w < U32_LIMIT
    && ram[u].size + ram[w].size + 1 < U32_LIMIT && ram[w].next / UNIT < |ram|
  }

  /** Memory after kfree joins the header at unit u with the one after it, at unit w. */
  ghost function JoinRam(ram: seq<Unit>, u: nat, w: nat): (r: seq<Unit>)
    requires Joinable(ram, u, w)
    ensures |r| == |ram|
  {
    var r1 := ram[u := ram[u].(size := ram[u].size + ram[w].size + 1, next := ram[w].next)];
    var x := ram[w].next / UNIT;
    if ram[w].next != 0 then r1[x := r1[x].(prev := UNIT * u)] else r1
  }

  /** Joining two free entries that are neighbours in the list, hence in memory. */
  lemma JoinList(ram: seq<Unit>, first: u32, es: seq<Entry>, head: u32, lo: nat, hi: nat, i: nat)
    requires List(ram, first, es, head, lo, hi)
    requires i + 1 < |es| && !es[i].used && !es[i + 1].used
    ensures var u, w := es[i].at, es[i + 1].at;
            && Joinable(ram, u, w)
            && List(JoinRam(ram, u, w), first, Join(es, i), head, lo, hi)
            && OnlyHeadersChanged(ram, es, JoinRam(ram, u, w), Join(es, i))
            && forall x | IsHeader(Join(es, i), x) :: IsHeader(es, x)
  {
    EntryBounds(es, lo, hi, i);
    EntryBounds(es, lo, hi, i + 1);
    TilesSorted(es, lo, hi);
    JoinTiles(es, lo, hi, i);
    JoinHeaders(ram, es, head, i, Join(es, i));
    JoinsHeaders(es, i, Join(es, i));
  }

  /** r is es with entries i and i + 1 replaced by one free entry. */
  ghost predicate Joins(es: seq<Entry>, i: nat, r: seq<Entry>)
    requires i + 1 < |es|
  {
    && |r| == |es| - 1
    && (forall k | 0 <= k < i :: r[k] == es[k])
    && (forall k {:trigger r[k]} | i < k < |r| :: r[k] == es[k + 1])
    && r[i] == Entry(es[i].at, es[i].size + es[i + 1].size + 1, false)
  }

  lemma JoinHeaders(ram: seq<Unit>, es: seq<Entry>, head: u32, i: nat, r: seq<Entry>)
    requires Sorted(es) && HeadersOk(ram, es, head) && |ram| <= RAM_UNITS
    requires i + 1 < |es| && Joins(es, i, r) && 0 < es[i].at && !es[i].used
    requires es[i].at + es[i].size + 1 == es[i + 1].at
    requires es[i + 1].at + es[i + 1].size < |ram| && (i + 2 < |es| ==> es[i + 2].at < |ram|)
    ensures var u, w := es[i].at, es[i + 1].at;
            && Joinable(ram, u, w)
            && HeadersOk(JoinRam(ram, u, w), r, head)
            && OnlyHeadersChanged(ram, es, JoinRam(ram, u, w), r)
  {
    assert HeaderOk(ram, es, head, i) && HeaderOk(ram, es, head, i + 1);
    var u, w := es[i].at, es[i + 1].at;
    var ram1 := JoinRam(ram, u, w);
    forall k | 0 <= k < |r| ensures HeaderOk(ram1, r, head, k) {
      if k < i {
        assert HeaderOk(ram, es, head, k);
        assert r[k] == es[k];
      } else if k > i {
        assert HeaderOk(ram, es, head, k + 1);
        assert r[k] == es[k + 1];
      }
    }
  }

  /** Joining leaves no header behind that was not one before. */
  lemma JoinsHeaders(es: seq<Entry>, i: nat, r: seq<Entry>)
    requires i + 1 < |es| && Joins(es, i, r)
    ensures forall x | IsHeader(r, x) :: IsHeader(es, x)
  {
    forall x | IsHeader(r, x) ensures IsHeader(es, x) {
      var k :| 0 <= k < |r| && r[k].at == x;
      assert es[if k <= i then k else k + 1].at == x;
    }
  }

  /** Linking new frames behind the last entry, on the whole list. */
  lemma GrowList(ram: seq<Unit>, first: u32, es: seq<Entry>, head: u32, lo: nat, hi: nat, size: nat)
    requires List(ram, first, es, head, lo, hi) && hi + size < RAM_UNITS
    ensures hi < |ram|
    ensures es != [] ==> es[|es| - 1].at < |ram| && es[|es| - 1].at != hi
    ensures var r := es + [Entry(hi, size, false)];
            var last := AddressOf(es, head, |es| - 1);
            var ram1 := if es == [] then ram else ram[last / UNIT := ram[last / UNIT].(next := UNIT * hi)];
            var ram2 := ram1[hi := Unit(0, last, size, FLAG_FREE)];
            && List(ram2, if es == [] then UNIT * hi else first, r, head, lo, hi + size + 1)
            && OnlyHeadersChanged(ram, es, ram2, r)
  {
    var n, end := |es|, hi + size + 1;
    var r := es + [Entry(hi, size, false)];
    var last := AddressOf(es, head, n - 1);
    TilesSorted(es, lo, hi);
    var ram1 := if es == [] then ram else ram[last / UNIT := ram[last / UNIT].(next := UNIT * hi)];
    var ram2 := ram1[hi := Unit(0, last, size, FLAG_FREE)];
    forall k | 0 <= k < |r| ensures HeaderOk(ram2, r, head, k) {
      if k < n {
        assert HeaderOk(ram, es, head, k);
      }
    }
    forall k | 0 <= k < |r| ensures Abuts(r, end, k) {
      if k < n {
        assert Abuts(es, hi, k);
      }
    }
    assert r[n].at == hi;
    assert n > 0 ==> IsHeader(es, es[n - 1].at);
  }

  /** Taking an entry removes no header. */
  lemma TakeKeepsHeaders(es: seq<Entry>, i: nat, units: nat, u: nat)
    requires i < |es| && Fits(es[i], units) && IsHeader(es, u)
    ensures IsHeader(Take(es, i, units), u)
  {
    var k :| 0 <= k < |es| && es[k].at == u;
    var r := Take(es, i, units);
    assert r[if |r| > |es| && k > i then k + 1 else k].at == u;
  }

  /** Header-only changes compose if the headers in between stood before or stand after. */
  lemma HeaderChangesCompose(ram0: seq<Unit>, es0: seq<Entry>, ram1: seq<Unit>, es1: seq<Entry>,
                             ram2: seq<Unit>, es2: seq<Entry>)
    requires OnlyHeadersChanged(ram0, es0, ram1, es1)
    requires OnlyHeadersChanged(ram1, es1, ram2, es2)
    requires forall u: nat | IsHeader(es1, u) :: IsHeader(es0, u) || IsHeader(es2, u)
    ensures OnlyHeadersChanged(ram0, es0, ram2, es2)
  {
    forall u | 0 <= u < |ram0| && !IsHeader(es0, u) && !IsHeader(es2, u) ensures ram2[u] == ram0[u] {
      assert !IsHeader(es1, u);
    }
  }
}
