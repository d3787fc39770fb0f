/** A keyboard interrupt inside the reader, between the moves of the head and the change of the count. */
module KeyboardInside {
  import opened Words
  import opened Keyboard

  /** A part of the ring, from an offset on. */
  lemma RingPart(cells: seq<u8>, head: nat, n: nat, k: nat, m: nat)
    requires |cells| == RING && k <= m <= n
    ensures RingView(cells, (head + k) % RING, m - k) == RingView(cells, head, n)[k..m]
  {
    RingPop(cells, head, m, k);
    assert RingView(cells, head, m) == RingView(cells, head, n)[..m];
    assert RingView(cells, head, n)[..m][k..] == RingView(cells, head, n)[k..m];
  }

  /**
   * What the end of the ring holds when a piece is stored s cells too far behind: first s
   * cells that nobody has stored, then as much of the piece as the count covers.
   */
  function Displaced(stale: seq<u8>, piece: seq<u8>): seq<u8> {
    (stale + piece)[..|piece|]
  }

  /** The piece comes out right, whatever the ring held before, if and only if the head had not moved. */
  lemma DisplacedIff(s: nat, piece: seq<u8>)
    requires piece != []
    ensures (forall stale: seq<u8> | |stale| == s :: Displaced(stale, piece) == piece) <==> s == 0
  {
    if s == 0 {
      forall stale: seq<u8> | |stale| == s
        ensures Displaced(stale, piece) == piece
      {
        assert stale + piece == piece;
      }
    } else {
      var other: u8 := if piece[0] == 0 then 1 else 0;
      var stale: seq<u8> := seq(s, _ => other);
      assert Displaced(stale, piece)[0] == other;
    }
  }

  /** The interrupt stores something. */
  predicate Stores(d: Driver, b: u8) {
    !Held(d.partial + [b]) && |d.queue| + |d.partial| + 1 <= RING
  }

  /** The driver after a read of n bytes with an interrupt inside; stale are the cells behind the queue. */
  function ReadAround(d: Driver, b: u8, n: nat, stale: seq<u8>): Driver
    requires n <= |d.queue|
  {
    if Stores(d, b) then Driver([], d.queue[n..] + Displaced(stale, d.partial + [b]))
    else Driver(Interrupt(d, b).partial, d.queue[n..])
  }

  /**
   * An interrupt behind s moves of the head has the effect of one before the read, on
   * every ring, if and only if the head has not moved or the interrupt stores nothing.
   */
  lemma InsideIsBeforeIff(d: Driver, b: u8, n: nat, s: nat)
    requires s <= n <= |d.queue|
    ensures (forall stale: seq<u8> | |stale| == s ::
               ReadAround(d, b, n, stale) == Driver(Interrupt(d, b).partial, Interrupt(d, b).queue[n..]))
       <==> s == 0 || !Stores(d, b)
  {
    var piece := d.partial + [b];
    if Stores(d, b) {
      DisplacedIff(s, piece);
      assert Interrupt(d, b).queue[n..] == d.queue[n..] + piece;
      if stale: seq<u8> :| |stale| == s && Displaced(stale, piece) != piece {
        assert ReadAround(d, b, n, stale).queue[|d.queue| - n..] == Displaced(stale, piece);
        assert Interrupt(d, b).queue[n..][|d.queue| - n..] == piece;
      }
    }
  }

  /** The view of the ring behind the read, in terms of the view at the interrupt. */
  lemma ViewAround(cells: seq<u8>, now: seq<u8>, head: nat, count: nat, s: nat, n: nat, piece: seq<u8>)
    requires |cells| == |now| == RING && s <= n <= count
    requires RingView(now, (head + s) % RING, count + |piece|) == RingView(cells, (head + s) % RING, count) + piece
    ensures RingView(now, (head + n) % RING, count + |piece| - n)
         == RingView(cells, head, count)[n..] + Displaced(RingView(cells, head + count, s), piece)
    ensures RingView(now, (head + s) % RING, n - s) == RingView(cells, head, count)[s..n]
  {
    var at := (head + s) % RING;
    var queue, stale := RingView(cells, head, count), RingView(cells, head + count, s);
    var wide := RingView(now, at, count + |piece|);
    assert wide == (queue + stale)[s..] + piece by {
      WideView(cells, head, count, s);
      RingPop(cells, head, count + s, s);
    }
    Around(queue, stale, piece, s, n);
    CellsAdd(head + s, n - s);
    RingPart(now, at, count + |piece|, n - s, count + |piece| - s);
    FrontPart(now, at, count + |piece|, n - s);
  }

  lemma FrontPart(cells: seq<u8>, head: nat, n: nat, m: nat)
    requires |cells| == RING && m <= n
    ensures RingView(cells, head, m) == RingView(cells, head, n)[..m]
  {
  }

  lemma WideView(cells: seq<u8>, head: nat, count: nat, s: nat)
    requires |cells| == RING
    ensures RingView(cells, head, count + s) == RingView(cells, head, count) + RingView(cells, head + count, s)
  {
  }

  lemma Around(queue: seq<u8>, stale: seq<u8>, piece: seq<u8>, s: nat, n: nat)
    requires |stale| == s <= n <= |queue|
    ensures ((queue + stale)[s..] + piece)[n - s..|queue| + |piece| - s] == queue[n..] + Displaced(stale, piece)
    ensures ((queue + stale)[s..] + piece)[..n - s] == queue[s..n]
  {
    assert (queue + stale)[s..] + piece == queue[s..] + (stale + piece);
  }

  /** The size that the reader computes is that of the code at the front. */
  lemma FrontSize(cells: seq<u8>, head: nat, count: nat)
    requires |cells| == RING && head < RING && count > 0 && NextCode(RingView(cells, head, count)).Some?
    ensures var queue, size := RingView(cells, head, count), CodeSize(cells[head], cells[(head + 1) % RING]);
            size <= count && NextCode(queue) == Some(queue[..size])
  {
    var queue := RingView(cells, head, count);
    assert queue[0] == cells[head] && (count > 1 ==> queue[1] == cells[(head + 1) % RING]);
    assert count == 1 ==> queue[..1] == queue;
  }

  /** The interrupt, once the head has moved s cells: what it does to the cells. */
  method InterruptInside(kb: Keyboard, b: u8, ghost d: Driver) returns (ghost piece: seq<u8>)
    requires kb.Valid() && d.partial == kb.Abstract().partial && |d.queue| == kb.count
    modifies kb`len, kb`count, kb.partial, kb.buffer
    ensures kb.Valid() && kb.Abstract().partial == Interrupt(d, b).partial
    ensures piece == (if Stores(d, b) then d.partial + [b] else []) && kb.count == old(kb.count) + |piece|
    ensures RingView(kb.buffer[..], kb.head, kb.count)
         == RingView(old(kb.buffer[..]), kb.head, old(kb.count)) + piece
  {
    piece := if Stores(d, b) then d.partial + [b] else [];
    ghost var view := RingView(kb.buffer[..], kb.head, kb.count);
    assert view + [] == view;
    kb.InterruptHandler(b);
    assert |kb.Abstract().queue| == kb.count;
  }

  lemma AroundIs(d: Driver, b: u8, n: nat, stale: seq<u8>, piece: seq<u8>)
    requires n <= |d.queue| && piece == if Stores(d, b) then d.partial + [b] else []
    ensures ReadAround(d, b, n, stale) == Driver(Interrupt(d, b).partial, d.queue[n..] + Displaced(stale, piece))
  {
    assert Displaced(stale, []) == [] && d.queue[n..] + [] == d.queue[n..];
  }

  /** The first moves of the head, and the interrupt. */
  method MoveAndInterrupt(kb: Keyboard, buf: array<u8>, s: nat, b: u8, ghost d: Driver, ghost cells: seq<u8>,
                          ghost head: nat)
    returns (ghost piece: seq<u8>)
    requires kb.Valid() && buf != kb.buffer && buf != kb.partial && s <= kb.count && s <= buf.Length
    requires d == kb.Abstract() && cells == kb.buffer[..] && head == kb.head
    modifies kb, kb.partial, kb.buffer, buf
    ensures kb.Valid() && kb.Abstract().partial == Interrupt(d, b).partial
    ensures piece == (if Stores(d, b) then d.partial + [b] else []) && kb.count == old(kb.count) + |piece|
    ensures kb.head == (head + s) % RING && buf[..s] == RingView(cells, head, s)
    ensures RingView(kb.buffer[..], kb.head, kb.count) == RingView(cells, kb.head, old(kb.count)) + piece
  {
    kb.Dequeue(buf, 0, s);
    piece := InterruptInside(kb, b, d);
    assert buf[..s] == buf[0..s];
  }

  /** The other moves of the head. */
  method MoveRest(kb: Keyboard, buf: array<u8>, s: nat, size: nat, ghost head: nat)
    requires kb.Valid() && buf != kb.buffer && buf != kb.partial && s <= size <= buf.Length
    requires kb.head == (head + s) % RING
    modifies kb`head, buf
    ensures kb.Valid() && kb.Abstract().partial == old(kb.Abstract()).partial && kb.head == (head + size) % RING
    ensures buf[..s] == old(buf[..s]) && buf[s..size] == RingView(kb.buffer[..], old(kb.head), size - s)
  {
    CellsAdd(head + s, size - s);
    kb.Dequeue(buf, s, size);
  }

  /** The moves of the head behind the interrupt: what the reader has then, and the ring. */
  method MoveOn(kb: Keyboard, buf: array<u8>, s: nat, size: nat, ghost cells: seq<u8>, ghost head: nat,
                ghost count: nat, ghost piece: seq<u8>)
    requires kb.Valid() && buf != kb.buffer && buf != kb.partial && s <= size <= count && size <= buf.Length
    requires |cells| == RING && kb.head == (head + s) % RING && kb.count == count + |piece|
    requires RingView(kb.buffer[..], kb.head, kb.count) == RingView(cells, kb.head, count) + piece
    requires buf[..s] == RingView(cells, head, s)
    modifies kb`head, buf
    ensures kb.Valid() && kb.Abstract().partial == old(kb.Abstract()).partial
    ensures buf[..size] == RingView(cells, head, count)[..size]
    ensures RingView(kb.buffer[..], kb.head, kb.count - size)
         == RingView(cells, head, count)[size..] + Displaced(RingView(cells, head + count, s), piece)
  {
    ghost var front := buf[..s];
    ViewAround(cells, kb.buffer[..], head, count, s, size, piece);
    MoveRest(kb, buf, s, size, head);
    FrontPart(cells, head, count, s);
    Parts(buf[..size], front, buf[s..size], RingView(cells, head, count), s, size);
  }

  /** Two parts of the front make the front. */
  lemma Parts(all: seq<u8>, front: seq<u8>, rest: seq<u8>, queue: seq<u8>, s: nat, size: nat)
    requires s <= size <= |queue| && |all| == size && all[..s] == front && all[s..] == rest
    requires front == queue[..s] && rest == queue[s..size]
    ensures all == queue[..size]
  {
    assert all == all[..s] + all[s..] && queue[..size] == queue[..s] + queue[s..size];
  }

  /** The size of the code at the front. */
  method FrontCode(kb: Keyboard) returns (size: nat)
    requires kb.Valid() && kb.count > 0 && NextCode(kb.Abstract().queue).Some?
    ensures size <= 6 && size <= kb.count && NextCode(kb.Abstract().queue) == Some(kb.Abstract().queue[..size])
  {
    FrontSize(kb.buffer[..], kb.head, kb.count);
    var next := (kb.head + 1) % RING;
    size := CodeSize(kb.buffer[kb.head], kb.buffer[next]);
  }

  /** The change of the count. */
  method LowerCount(kb: Keyboard, size: nat, ghost queue: seq<u8>)
    requires kb.Valid() && size <= kb.count && RingView(kb.buffer[..], kb.head, kb.count - size) == queue
    modifies kb`count
    ensures kb.Valid() && kb.Abstract() == Driver(old(kb.Abstract()).partial, queue)
  {
    kb.count := kb.count - size;
  }

  /** The moves and the change of the count, with the interrupt between them. */
  method ReadAcross(kb: Keyboard, buf: array<u8>, s: nat, size: nat, b: u8, ghost d: Driver, ghost stale: seq<u8>)
    requires kb.Valid() && buf != kb.buffer && buf != kb.partial && s <= size <= kb.count && size <= buf.Length
    requires d == kb.Abstract() && stale == RingView(kb.buffer[..], kb.head + kb.count, s)
    modifies kb, kb.partial, kb.buffer, buf
    ensures kb.Valid() && kb.Abstract() == ReadAround(d, b, size, stale) && buf[..size] == d.queue[..size]
  {
    ghost var cells, head, count := kb.buffer[..], kb.head, kb.count;
    ghost var piece := MoveAndInterrupt(kb, buf, s, b, d, cells, head);
    MoveOn(kb, buf, s, size, cells, head, count, piece);
    AroundIs(d, b, size, stale, piece);
    LowerCount(kb, size, d.queue[size..] + Displaced(stale, piece));
  }

  /**
   * kb_scan_code with an interrupt behind s of its head moves, on the code: the reader still
   * gets its code, and the ring is what ReadAround says.
   */
  method ReadWithInterrupt(kb: Keyboard, buf: array<u8>, s: nat, b: u8) returns (size: nat)
    requires kb.Valid() && kb.count > 0 && buf != kb.buffer && buf != kb.partial && buf.Length >= 6
    requires NextCode(kb.Abstract().queue).Some? && s <= |NextCode(kb.Abstract().queue).value|
    modifies kb, kb.partial, kb.buffer, buf
    ensures size <= 6 && size <= |old(kb.Abstract()).queue| && NextCode(old(kb.Abstract()).queue) == Some(buf[..size])
    ensures kb.Valid()
    ensures kb.Abstract() == ReadAround(old(kb.Abstract()), b, size,
                                        RingView(old(kb.buffer[..]), old(kb.head) + old(kb.count), s))
  {
    size := FrontCode(kb);
    ReadAcross(kb, buf, s, size, b, kb.Abstract(), RingView(kb.buffer[..], kb.head + kb.count, s));
  }
}
