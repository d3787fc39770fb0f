/** The keyboard driver's ring of scan codes: interrupt handler and reader. */
module Keyboard {
  import opened Words

  const RING: int := 32
  const PREFIX: u8 := 0xe0
  const PAUSE: u8 := 0xe1
  const SHIFT_MAKE: u8 := 0x2a
  const SHIFT_BREAK: u8 := 0xb7

  // ------------------------------------------------ the driver, on sequences

  /** The handler keeps these bytes back because more of the code is to come. */
  predicate Held(partial: seq<u8>) {
    || (|partial| == 1 && (partial[0] == PREFIX || partial[0] == PAUSE))
    || (|partial| == 2 && (partial[0] == PAUSE || partial[1] == SHIFT_MAKE || partial[1] == SHIFT_BREAK))
    || (|partial| == 4 && partial[0] == PAUSE)
  }

  datatype Driver = Driver(partial: seq<u8>, queue: seq<u8>)

  /** What one interrupt with byte b does. */
  function Interrupt(d: Driver, b: u8): Driver {
    var partial := d.partial + [b];
    if Held(partial) then d.(partial := partial)
    else if |d.queue| + |partial| <= RING then Driver([], d.queue + partial)
    else d.(partial := [])
  }

  function Interrupts(d: Driver, bytes: seq<u8>): Driver
    decreases |bytes|
  {
    if bytes == [] then d else Interrupts(Interrupt(d, bytes[0]), bytes[1..])
  }

  /** The size of the code that starts with these two bytes, as the reader sees it. */
  function CodeSize(first: u8, second: u8): (n: nat)
    ensures 1 <= n <= 6
  {
    if first == PAUSE then 6
    else if first == PREFIX && (second == SHIFT_MAKE || second == SHIFT_BREAK) then 4
    else if first == PREFIX then 2
    else 1
  }

  /** The reader's view of the first code of a queue; None if it runs past the end. */
  function NextCode(queue: seq<u8>): Option<seq<u8>> {
    if queue == [] then Some([])
    else if |queue| == 1 then (if queue[0] == PREFIX || queue[0] == PAUSE then None else Some(queue))
    else
      var n := CodeSize(queue[0], queue[1]);
      if n <= |queue| then Some(queue[..n]) else None
  }

  // -------------------------------------------------------------------- codes

  /** A complete scan code, as the keyboard sends it. */
  predicate IsCode(c: seq<u8>) {
    if |c| == 1 then c[0] != PREFIX && c[0] != PAUSE
    else if |c| == 2 then c[0] == PREFIX && c[1] != SHIFT_MAKE && c[1] != SHIFT_BREAK
    else if |c| == 4 then c[0] == PREFIX && (c[1] == SHIFT_MAKE || c[1] == SHIFT_BREAK)
                          && c[3] != PREFIX && c[3] != PAUSE
    else |c| == 6 && c[0] == PAUSE && c[3] == PAUSE
  }

  lemma InterruptsAppend(d: Driver, s: seq<u8>, t: seq<u8>)
    ensures Interrupts(d, s + t) == Interrupts(Interrupts(d, s), t)
    decreases |s|
  {
    if s == [] {
      assert s + t == t;
    } else {
      assert (s + t)[1..] == s[1..] + t;
      InterruptsAppend(Interrupt(d, s[0]), s[1..], t);
    }
  }

  /** The queue after a piece: with it if it fits, else without any of it. */
  function WithPiece(queue: seq<u8>, p: seq<u8>): seq<u8> {
    if |queue| + |p| <= RING then queue + p else queue
  }

  /** Up to three bytes that are kept back until the last one go to the ring together, or not at all. */
  lemma {:induction false} Piece(queue: seq<u8>, p: seq<u8>, k: nat)
    requires IsPiece(p) && k < |p|
    ensures Interrupts(Driver(p[..k], queue), p[k..]) == Driver([], WithPiece(queue, p))
    decreases |p| - k
  {
    var d := Driver(p[..k], queue);
    assert p[..k] + [p[k]] == p[..k + 1] && p[k..][1..] == p[k + 1..];
    assert Interrupts(d, p[k..]) == Interrupts(Interrupt(d, p[k]), p[k + 1..]);
    if k + 1 < |p| {
      assert Held(p[..k + 1]);
      Piece(queue, p, k + 1);
    } else {
      assert p[..k + 1] == p && p[k + 1..] == [];
    }
  }

  /** A complete code goes to the ring in one piece, or in two if it is long. */
  lemma CodeInPieces(queue: seq<u8>, c: seq<u8>)
    requires IsCode(c)
    ensures Interrupts(Driver([], queue), c)
         == Driver([], if |c| <= 2 then WithPiece(queue, c) else WithPiece(WithPiece(queue, c[..3]), c[3..]))
  {
    if |c| <= 2 {
      WholePiece(queue, c);
    } else {
      var p, q := c[..3], c[3..];
      LongCode(c);
      WholePiece(queue, p);
      WholePiece(WithPiece(queue, p), q);
      assert p + q == c;
      InterruptsAppend(Driver([], queue), p, q);
    }
  }

  lemma WholePiece(queue: seq<u8>, p: seq<u8>)
    requires IsPiece(p)
    ensures Interrupts(Driver([], queue), p) == Driver([], WithPiece(queue, p))
  {
    assert p[..0] == [] && p[0..] == p;
    Piece(queue, p, 0);
  }

  /** Bytes that are kept back until the last one. */
  predicate IsPiece(p: seq<u8>) {
    1 <= |p| <= 3 && !Held(p) && forall i | 1 <= i < |p| :: Held(p[..i])
  }

  lemma LongCode(c: seq<u8>)
    requires IsCode(c) && |c| > 2
    ensures IsPiece(c[..3]) && IsPiece(c[3..])
  {
    var p, q := c[..3], c[3..];
    assert p[..1][0] == c[0] && p[..2][0] == c[0] && p[..2][1] == c[1];
    assert |c| == 6 ==> q[..1][0] == c[3] && q[..2][0] == c[3];
  }

  lemma PiecesFit(queue: seq<u8>, p: seq<u8>, q: seq<u8>)
    requires |queue| + |p| + |q| <= RING
    ensures WithPiece(WithPiece(queue, p), q) == queue + (p + q)
  {
    assert queue + p + q == queue + (p + q);
  }

  /** A complete code that finds room goes to the ring whole. */
  lemma CodeEnqueued(queue: seq<u8>, c: seq<u8>)
    requires IsCode(c) && |queue| + |c| <= RING
    ensures Interrupts(Driver([], queue), c) == Driver([], queue + c)
  {
    CodeInPieces(queue, c);
    if |c| > 2 {
      PiecesFit(queue, c[..3], c[3..]);
      assert c[..3] + c[3..] == c;
    }
  }

  /**
   * On overflow the ring keeps whole codes only for short codes, or if not even a piece
   * of a long code finds room; in all other cases part of a code stays behind.
   */
  lemma CodeFramedIff(queue: seq<u8>, c: seq<u8>)
    requires IsCode(c) && |queue| <= RING
    ensures var d, room := Interrupts(Driver([], queue), c), RING - |queue|;
            && (d == Driver([], queue + c) <==> |c| <= room)
            && (d == Driver([], queue) <==>
                |c| > room && (|c| <= 2 || (|c| == 4 && room == 0) || (|c| == 6 && room < 3)))
  {
    CodeInPieces(queue, c);
    if |c| > 2 {
      TwoPieces(queue, c[..3], c[3..]);
      assert c[..3] + c[3..] == c;
    }
  }

  /** Two pieces of a code, of which the queue keeps both, one or none. */
  lemma TwoPieces(queue: seq<u8>, p: seq<u8>, q: seq<u8>)
    requires |p| == 3 && 1 <= |q| <= 3 && |queue| <= RING
    ensures var r, room := WithPiece(WithPiece(queue, p), q), RING - |queue|;
            && (r == queue + (p + q) <==> 3 + |q| <= room)
            && (r == queue <==> room < |q|)
  {
    var r := WithPiece(WithPiece(queue, p), q);
    assert queue + p + q == queue + (p + q);
    assert |r| == |queue| + (if |queue| + 3 <= RING then if |queue| + 3 + |q| <= RING then 3 + |q| else 3
                             else if |queue| + |q| <= RING then |q| else 0);
  }

  /** The reader finds exactly the code at the front of a queue of codes. */
  lemma CodeRead(c: seq<u8>, rest: seq<u8>)
    requires IsCode(c)
    ensures NextCode(c + rest) == Some(c) && (c + rest)[|c|..] == rest
  {
    var queue := c + rest;
    assert queue[0] == c[0] && (|c| > 1 ==> queue[1] == c[1]);
    assert queue[..|c|] == c && queue[|c|..] == rest;
    assert |queue| == 1 ==> queue == c;
  }

  // --------------------------------------------------------------------- runs

  /** A key is pressed, or the reader runs; both only between codes. */
  datatype Event = Press(code: seq<u8>) | Read

  /** The driver, and the codes handed to the reader so far. */
  datatype Session = Session(driver: Driver, delivered: seq<seq<u8>>)

  /** None stands for a reader that made the count negative. */
  function Step(s: Session, e: Event): Option<Session> {
    match e
    case Press(code) => Some(s.(driver := Interrupts(s.driver, code)))
    case Read =>
      var code := NextCode(s.driver.queue);
      if code.None? then None
      else if code.value == [] then Some(s)
      else Some(Session(s.driver.(queue := s.driver.queue[|code.value|..]), s.delivered + [code.value]))
  }

  function Run(s: Session, events: seq<Event>): Option<Session>
    decreases |events|
  {
    if events == [] then Some(s)
    else
      var t := Step(s, events[0]);
      if t.None? then None else Run(t.value, events[1..])
  }

  function Pressed(events: seq<Event>): seq<seq<u8>> {
    if events == [] then []
    else (match events[0] case Press(code) => [code] case Read => []) + Pressed(events[1..])
  }

  function Flatten(codes: seq<seq<u8>>): seq<u8> {
    if codes == [] then [] else codes[0] + Flatten(codes[1..])
  }

  lemma FlattenAppend(codes: seq<seq<u8>>, c: seq<u8>)
    ensures Flatten(codes + [c]) == Flatten(codes) + c
  {
    if codes == [] {
      assert [c][1..] == [] && Flatten([c]) == c + [];
    } else {
      assert (codes + [c])[1..] == codes[1..] + [c];
      FlattenAppend(codes[1..], c);
    }
  }

  /** Every key pressed is a complete code that finds room in the ring. */
  ghost predicate Admissible(pending: seq<seq<u8>>, events: seq<Event>)
    decreases |events|
  {
    events == [] ||
    match events[0]
    case Press(code) =>
      IsCode(code) && |Flatten(pending)| + |code| <= RING && Admissible(pending + [code], events[1..])
    case Read =>
      Admissible(if pending == [] then [] else pending[1..], events[1..])
  }

  lemma PressStep(pending: seq<seq<u8>>, delivered: seq<seq<u8>>, code: seq<u8>)
    requires IsCode(code) && |Flatten(pending)| + |code| <= RING
    ensures Step(Session(Driver([], Flatten(pending)), delivered), Press(code))
         == Some(Session(Driver([], Flatten(pending + [code])), delivered))
  {
    CodeEnqueued(Flatten(pending), code);
    FlattenAppend(pending, code);
  }

  lemma ReadStep(pending: seq<seq<u8>>, delivered: seq<seq<u8>>)
    requires forall c | c in pending :: IsCode(c)
    ensures Step(Session(Driver([], Flatten(pending)), delivered), Read)
         == Some(if pending == [] then Session(Driver([], []), delivered)
                 else Session(Driver([], Flatten(pending[1..])), delivered + [pending[0]]))
  {
    if pending != [] {
      CodeRead(pending[0], Flatten(pending[1..]));
    }
  }

  /** How many reads of a run find a code, with n codes pending at first. */
  function Served(n: nat, events: seq<Event>): nat
    decreases |events|
  {
    if events == [] then 0
    else if events[0].Press? then Served(n + 1, events[1..])
    else if n == 0 then Served(0, events[1..])
    else 1 + Served(n - 1, events[1..])
  }

  /**
   * A run hands over the codes pending and pressed, in order, one for each read that finds
   * one, and leaves the others in the ring.
   */
  ghost predicate Delivers(pending: seq<seq<u8>>, delivered: seq<seq<u8>>, events: seq<Event>, left: seq<seq<u8>>) {
    var end := Run(Session(Driver([], Flatten(pending)), delivered), events);
    && end.Some?
    && end.value.driver == Driver([], Flatten(left))
    && end.value.delivered + left == delivered + pending + Pressed(events)
    && |end.value.delivered| == |delivered| + Served(|pending|, events)
  }

  lemma PressDelivers(pending: seq<seq<u8>>, delivered: seq<seq<u8>>, events: seq<Event>, left: seq<seq<u8>>)
    requires events != [] && events[0].Press?
    requires IsCode(events[0].code) && |Flatten(pending)| + |events[0].code| <= RING
    requires Delivers(pending + [events[0].code], delivered, events[1..], left)
    ensures Delivers(pending, delivered, events, left)
  {
    var code := events[0].code;
    PressStep(pending, delivered, code);
    assert delivered + (pending + [code]) + Pressed(events[1..])
        == delivered + pending + ([code] + Pressed(events[1..]));
  }

  lemma ReadDelivers(pending: seq<seq<u8>>, delivered: seq<seq<u8>>, events: seq<Event>, left: seq<seq<u8>>)
    requires events != [] && events[0].Read? && forall c | c in pending :: IsCode(c)
    requires if pending == [] then Delivers([], delivered, events[1..], left)
             else Delivers(pending[1..], delivered + [pending[0]], events[1..], left)
    ensures Delivers(pending, delivered, events, left)
  {
    ReadStep(pending, delivered);
    assert [] + Pressed(events[1..]) == Pressed(events[1..]);
    assert pending != [] ==> delivered + [pending[0]] + pending[1..] == delivered + pending;
  }

  /**
   * Framing: over every admissible run, the reader gets exactly the codes pressed, in
   * order, and the ring holds the ones it did not get yet.
   */
  lemma {:induction false} RunDeliversCodes(pending: seq<seq<u8>>, delivered: seq<seq<u8>>, events: seq<Event>)
    returns (left: seq<seq<u8>>)
    requires Admissible(pending, events) && forall c | c in pending :: IsCode(c)
    ensures Delivers(pending, delivered, events, left)
    decreases |events|
  {
    if events == [] {
      left := pending;
    } else if events[0].Press? {
      left := RunDeliversCodes(pending + [events[0].code], delivered, events[1..]);
      PressDelivers(pending, delivered, events, left);
    } else {
      if pending == [] {
        left := RunDeliversCodes([], delivered, events[1..]);
      } else {
        left := RunDeliversCodes(pending[1..], delivered + [pending[0]], events[1..]);
      }
      ReadDelivers(pending, delivered, events, left);
    }
  }

  /** A reader that runs in the middle of a pause code makes the count negative. */
  lemma ReadInsideCodeFails()
    ensures var session := Session(Driver([], []), []);
            Run(session, [Press([0xe1, 0x1d, 0x45]), Read]) == None
  {
    var p: seq<u8> := [0xe1, 0x1d, 0x45];
    assert p[..1] == [0xe1] && p[..2] == [0xe1, 0x1d];
    WholePiece([], p);
    var s1 := Session(Driver([], p), []);
    assert [] + p == p;
    var events := [Press(p), Read];
    assert Step(Session(Driver([], []), []), events[0]) == Some(s1);
    assert events[1..] == [Read];
    assert Run(s1, [Read]) == None;
  }

  // ---------------------------------------------------------------- in memory

  /** The n bytes of the ring from cell `head` on. */
  ghost function RingView(cells: seq<u8>, head: nat, n: nat): (q: seq<u8>)
    requires |cells| == RING
    ensures |q| == n
  {
    seq(n, i requires 0 <= i < n => cells[(head + i) % RING])
  }

  /** Storing behind the last byte of the ring appends a byte. */
  lemma RingPush(cells: seq<u8>, head: nat, n: nat, b: u8)
    requires |cells| == RING && n < RING
    ensures RingView(cells[(head + n) % RING := b], head, n + 1) == RingView(cells, head, n) + [b]
  {
  }

  lemma RingNext(cells: seq<u8>, head: nat, n: nat)
    requires |cells| == RING
    ensures RingView(cells, head, n + 1) == RingView(cells, head, n) + [cells[(head + n) % RING]]
  {
  }

  /** Moving the head drops bytes at the front. */
  lemma RingPop(cells: seq<u8>, head: nat, n: nat, k: nat)
    requires |cells| == RING && k <= n
    ensures RingView(cells, (head + k) % RING, n - k) == RingView(cells, head, n)[k..]
  {
    forall i | 0 <= i < n - k
      ensures RingView(cells, (head + k) % RING, n - k)[i] == RingView(cells, head, n)[k..][i]
    {
      CellsAdd(head + k, i);
    }
  }

  lemma CellsAdd(x: nat, i: nat)
    ensures (x % RING + i) % RING == (x + i) % RING
  {
    SameCell(x % RING + i, x / RING);
  }

  lemma SameCell(y: nat, q: nat)
    ensures (y + RING * q) % RING == y % RING
  {
  }

  class Keyboard {
    const partial: array<u8>
    const buffer: array<u8>
    var len: nat
    var head: nat
    var count: int

    constructor ()
      ensures Valid() && fresh(partial) && fresh(buffer)
      ensures Abstract() == Driver([], [])
    {
      partial, buffer := new u8[6](_ => 0), new u8[32](_ => 0);
      len, head, count := 0, 0, 0;
    }

    /** Between interrupts at most two bytes of a code are kept back. */
    ghost predicate Valid()
      reads this, partial, buffer
    {
      && partial != buffer && partial.Length == 6 && buffer.Length == RING
      && len <= 2 && (len > 0 ==> Held(partial[..len]))
      && head < RING && 0 <= count <= RING
    }

    ghost function Abstract(): Driver
      reads this, partial, buffer
      requires Valid()
    {
      Driver(partial[..len], RingView(buffer[..], head, count))
    }

    /** The bytes kept back go to the ring, one by one. */
    method Enqueue()
      requires partial != buffer && partial.Length == 6 && buffer.Length == RING
      requires len <= 6 && head < RING && 0 <= count && count + len <= RING
      modifies this`count, buffer
      ensures count == old(count) + len && partial[..] == old(partial[..])
      ensures RingView(buffer[..], head, count) == RingView(old(buffer[..]), head, old(count)) + partial[..len]
    {
      ghost var queue := RingView(buffer[..], head, count);
      var i := 0;
      while i < len
        invariant 0 <= i <= len && count == old(count) + i
        invariant partial[..] == old(partial[..])
        invariant RingView(buffer[..], head, count) == queue + partial[..i]
      {
        RingPush(buffer[..], head, count, partial[i]);
        ghost var cells := buffer[..];
        buffer[(head + count) % RING] := partial[i];
        assert buffer[..] == cells[(head + count) % RING := partial[i]];
        i := i + 1;
        count := count + 1;
      }
    }

    /** kb_interrupt_handler, for the byte the encoder holds. */
    method InterruptHandler(b: u8)
      requires Valid()
      modifies this`len, this`count, partial, buffer
      ensures Valid() && Abstract() == Interrupt(old(Abstract()), b)
    {
      ghost var d := Abstract();
      partial[len] := b;
      len := len + 1;
      assert partial[..len] == d.partial + [b];
      if len == 1 {
        if partial[0] == PREFIX || partial[0] == PAUSE {
          return;
        }
      } else if len == 2 {
        if partial[0] == PAUSE || partial[1] == SHIFT_MAKE || partial[1] == SHIFT_BREAK {
          return;
        }
      } else if len == 4 {
        // Three bytes are never kept back, so the source's case for four is dead.
        assert false;
      }
      if count + len <= RING {
        Enqueue();
      }
      len := 0;
      assert partial[..0] == [];
    }

    /** The bytes from..to of a code, from the head of the ring to the reader. */
    method Dequeue(buf: array<u8>, from: nat, to: nat)
      requires buffer.Length == RING && head < RING && buf != buffer && from <= to <= buf.Length
      modifies this`head, buf
      ensures head == (old(head) + (to - from)) % RING
      ensures buf[from..to] == RingView(buffer[..], old(head), to - from)
      ensures buf[..from] == old(buf[..from]) && buf[to..] == old(buf[to..])
    {
      ghost var cells, head0 := buffer[..], head;
      var size := from;
      while size < to
        invariant from <= size <= to && buffer[..] == cells && head == (head0 + (size - from)) % RING
        invariant buf[from..size] == RingView(cells, head0, size - from)
        invariant buf[..from] == old(buf[..from]) && buf[to..] == old(buf[to..])
      {
        CellsAdd(head0 + (size - from), 1);
        RingNext(cells, head0, size - from);
        buf[size] := buffer[head];
        size := size + 1;
        head := (head + 1) % RING;
        assert buf[from..size] == buf[from..size - 1] + [buf[size - 1]];
      }
    }

    /**
     * kb_scan_code: the first code of the ring. The count stays in range, and the queue
     * loses exactly the code, if and only if the whole code is in the ring.
     */
    method ScanCode(buf: array<u8>) returns (size: nat)
      requires Valid() && buf != buffer && buf != partial && buf.Length >= 6
      modifies this`head, this`count, buf
      ensures size <= 6 && count == old(count) - size && buf[size..] == old(buf[size..])
      ensures size == 0 <==> old(count) == 0
      ensures partial[..] == old(partial[..]) && len == old(len)
      ensures Valid() <==> NextCode(old(Abstract()).queue).Some?
      ensures Valid() ==>
                && NextCode(old(Abstract()).queue) == Some(buf[..size])
                && Abstract() == Driver(old(Abstract()).partial, old(Abstract()).queue[size..])
    {
      ghost var queue := Abstract().queue;
      if count == 0 {
        return 0;
      }
      var next := (head + 1) % RING;
      size := CodeSize(buffer[head], buffer[next]);
      Dequeue(buf, 0, size);
      count := count - size;
      if size <= |queue| {
        RingPop(buffer[..], old(head), |queue|, size);
        assert buf[..size] == queue[..size];
      }
    }
  }

  /** A key is pressed: one interrupt for each byte of its code. */
  method PressKey(kb: Keyboard, code: seq<u8>, ghost queue: seq<u8>)
    requires kb.Valid() && kb.Abstract() == Driver([], queue)
    requires IsCode(code) && |queue| + |code| <= RING
    modifies kb, kb.partial, kb.buffer
    ensures kb.Valid() && kb.Abstract() == Driver([], queue + code)
  {
    CodeEnqueued(queue, code);
    var i := 0;
    while i < |code|
      invariant 0 <= i <= |code| && kb.Valid()
      invariant Interrupts(kb.Abstract(), code[i..]) == Driver([], queue + code)
    {
      assert code[i..][0] == code[i] && code[i..][1..] == code[i + 1..];
      kb.InterruptHandler(code[i]);
      i := i + 1;
    }
    assert code[i..] == [];
  }

  /**
   * Keys and reads in any admissible order, on the code, are a run of the model: each read
   * gets the first code of the ring if there is one, and the reads return the codes
   * pressed, in order.
   */
  method TypeAndRead(kb: Keyboard, events: seq<Event>, buf: array<u8>)
    returns (delivered: seq<seq<u8>>, ghost pending: seq<seq<u8>>)
    requires kb.Valid() && kb.Abstract() == Driver([], []) && Admissible([], events)
    requires buf != kb.buffer && buf != kb.partial && buf.Length >= 6
    modifies kb, kb.partial, kb.buffer, buf
    ensures kb.Valid() && kb.Abstract() == Driver([], Flatten(pending))
    ensures Run(Session(Driver([], []), []), events) == Some(Session(kb.Abstract(), delivered))
    ensures delivered + pending == Pressed(events)
  {
    delivered, pending := [], [];
    ghost var first := Session(Driver([], []), []);
    var n := 0;
    assert events[0..] == events;
    while n < |events|
      invariant 0 <= n <= |events| && kb.Valid() && kb.Abstract() == Driver([], Flatten(pending))
      invariant Admissible(pending, events[n..]) && forall c | c in pending :: IsCode(c)
      invariant Run(first, events) == Run(Session(kb.Abstract(), delivered), events[n..])
    {
      assert events[n..][0] == events[n] && events[n..][1..] == events[n + 1..];
      match events[n] {
        case Press(code) =>
          PressStep(pending, delivered, code);
          PressKey(kb, code, Flatten(pending));
          FlattenAppend(pending, code);
          pending := pending + [code];
        case Read =>
          ReadStep(pending, delivered);
          var code := ReadKey(kb, pending, buf);
          if code != [] {
            delivered, pending := delivered + [code], pending[1..];
          }
      }
      n := n + 1;
    }
    assert events[n..] == [];
    pending := RunDeliversCodes([], [], events);
    assert delivered + pending == [] + [] + Pressed(events) == Pressed(events);
  }

  /** The reader runs: it gets the first code of the ring, if there is one. */
  method ReadKey(kb: Keyboard, ghost pending: seq<seq<u8>>, buf: array<u8>) returns (code: seq<u8>)
    requires kb.Valid() && kb.Abstract() == Driver([], Flatten(pending)) && forall c | c in pending :: IsCode(c)
    requires buf != kb.buffer && buf != kb.partial && buf.Length >= 6
    modifies kb, buf
    ensures kb.Valid()
    ensures if pending == [] then code == [] && kb.Abstract() == Driver([], [])
            else code == pending[0] != [] && kb.Abstract() == Driver([], Flatten(pending[1..]))
  {
    if pending != [] {
      CodeRead(pending[0], Flatten(pending[1..]));
    }
    var size := kb.ScanCode(buf);
    code := buf[..size];
  }
}
