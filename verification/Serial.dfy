/** The serial driver's ring: interrupt handler and blocking reader of one port. */
module Serial {
  import opened Words

  const RING: int := 64

  // ------------------------------------------------------- ports and their IRQs

  const COM1: u16 := 0x03f8
  const COM2: u16 := 0x02f8
  const COM3: u16 := 0x03e8
  const COM4: u16 := 0x02e8
  const IRQ_SERIAL_1: u8 := 36
  const IRQ_SERIAL_2: u8 := 35
  const DEVICE_INVALID: u16 := 0
  const OFFSET_INVALID: int := -1

  function DeviceOffset(dev: u16): int {
    if dev == COM1 then 0 else if dev == COM2 then 1 else if dev == COM3 then 2
    else if dev == COM4 then 3 else OFFSET_INVALID
  }

  function IrqOffset(irq: u8): int {
    if irq == IRQ_SERIAL_1 then 0 else if irq == IRQ_SERIAL_2 then 1 else OFFSET_INVALID
  }

  function IrqDevice(irq: u8): u16 {
    if irq == IRQ_SERIAL_1 then COM1 else if irq == IRQ_SERIAL_2 then COM2 else DEVICE_INVALID
  }

  /**
   * serial_init for a device, as far as the interrupts with the handler go: it fails for an
   * unknown device or without memory, and else installs the handler for one interrupt.
   */
  function Setup(handled: set<u8>, dev: u16, memory: bool): set<u8> {
    if DeviceOffset(dev) == OFFSET_INVALID || !memory then handled else handled + {IRQ_SERIAL_1}
  }

  /** The interrupts with the handler, after a call for each device. */
  function Handled(calls: seq<(u16, bool)>): set<u8> {
    if calls == [] then {}
    else Setup(Handled(calls[..|calls| - 1]), calls[|calls| - 1].0, calls[|calls| - 1].1)
  }

  /** The handler stores bytes in the ring that the reader of the device looks at. */
  ghost predicate Fills(handled: set<u8>, dev: u16) {
    exists irq | irq in handled :: IrqDevice(irq) != DEVICE_INVALID && IrqOffset(irq) == DeviceOffset(dev)
  }

  /** Handler and reader use the same ring for the same device; the mapping knows two devices. */
  lemma HandlerAndReaderShareRing(irq: u8, dev: u16)
    ensures IrqDevice(irq) != DEVICE_INVALID ==> DeviceOffset(IrqDevice(irq)) == IrqOffset(irq)
    ensures dev != DEVICE_INVALID ==> ((exists i: u8 :: IrqDevice(i) == dev) <==> dev == COM1 || dev == COM2)
  {
    assert IrqDevice(IRQ_SERIAL_1) == COM1 && IrqDevice(IRQ_SERIAL_2) == COM2;
  }

  /** Four ports have rings, and different ones have different rings. */
  lemma RingsApart(dev: u16, other: u16)
    ensures DeviceOffset(dev) != OFFSET_INVALID <==> dev == COM1 || dev == COM2 || dev == COM3 || dev == COM4
    ensures DeviceOffset(dev) != OFFSET_INVALID ==> 0 <= DeviceOffset(dev) < 4
    ensures DeviceOffset(dev) == DeviceOffset(other) != OFFSET_INVALID ==> dev == other
  {
  }

  /** Whatever devices are set up, the only ring that is filled is that of COM1, once any setup succeeds. */
  lemma {:induction false} OnlyFirstRingFilled(calls: seq<(u16, bool)>, dev: u16)
    ensures Fills(Handled(calls), dev)
       <==> dev == COM1 && exists i | 0 <= i < |calls| :: DeviceOffset(calls[i].0) != OFFSET_INVALID && calls[i].1
  {
    HandledIs(calls);
    assert IrqOffset(IRQ_SERIAL_1) == DeviceOffset(COM1) && IrqDevice(IRQ_SERIAL_1) == COM1;
  }

  lemma {:induction false} HandledIs(calls: seq<(u16, bool)>)
    ensures Handled(calls) ==
            if exists i | 0 <= i < |calls| :: DeviceOffset(calls[i].0) != OFFSET_INVALID && calls[i].1
            then {IRQ_SERIAL_1} else {}
  {
    if calls != [] {
      var front, last := calls[..|calls| - 1], calls[|calls| - 1];
      HandledIs(front);
      assert forall i | 0 <= i < |front| :: calls[i] == front[i];
      assert last == calls[|front|];
    }
  }

  // ---------------------------------------------------------- what is delivered

  /** The largest index below n that is congruent to i modulo 64. */
  function Latest(n: nat, i: nat): (k: nat)
    requires i < n
    ensures k < n && n <= k + RING && k % RING == i % RING
  {
    n - 1 - (n - 1 - i) % RING
  }

  lemma LatestIsUnique(n: nat, i: nat, k: nat)
    requires i < n && k < n <= k + RING && k % RING == i % RING
    ensures k == Latest(n, i)
  {
  }

  /** The i-th byte read is the i-th received exactly while at most 64 are unread. */
  lemma LatestIsNextIff(n: nat, i: nat)
    requires i < n
    ensures Latest(n, i) == i <==> n - i <= RING
  {
  }

  lemma SmallIndex(i: nat)
    ensures i < RING ==> i % RING == i
  {
  }

  lemma NotAround(n: nat, k: nat)
    requires n % RING != k % RING
    ensures k + RING != n
  {
  }

  /** Which byte a cell holds after one more has arrived. */
  lemma LatestAfter(n: nat, i: nat)
    requires i <= n && i < RING
    ensures Latest(n + 1, i) == if i == n % RING then n else Latest(n, i)
  {
    SmallIndex(i);
    if i == n % RING {
      LatestIsUnique(n + 1, i, n);
    } else {
      SmallIndex(n);
      NotAround(n, Latest(n, i));
      LatestIsUnique(n + 1, i, Latest(n, i));
    }
  }

  /** The reader's cell is the one of its index. */
  lemma CellOf(n: nat, i: nat)
    requires i < n
    ensures i % RING < n && Latest(n, i % RING) == Latest(n, i)
  {
    LatestIsUnique(n, i % RING, Latest(n, i));
  }

  lemma HeadNext(n: nat)
    ensures (n % RING + 1) % RING == (n + 1) % RING
  {
  }

  /** A byte arrives, or the reader takes one. */
  datatype Event = Receive(b: u8) | Read

  /** Everything received and everything read so far. */
  datatype Log = Log(received: seq<u8>, read: seq<u8>)

  /** The reader runs only when the two heads differ. */
  predicate CanRead(log: Log) {
    |log.received| % RING != |log.read| % RING
  }

  ghost predicate LogOk(log: Log) {
    |log.read| <= |log.received|
  }

  /** What one event does; a reader that waits does nothing. */
  function Step(log: Log, e: Event): (r: Log)
    requires LogOk(log)
    ensures LogOk(r)
  {
    match e
    case Receive(b) => log.(received := log.received + [b])
    case Read =>
      if CanRead(log)
      then log.(read := log.read + [log.received[Latest(|log.received|, |log.read|)]])
      else log
  }

  function Run(log: Log, events: seq<Event>): (r: Log)
    requires LogOk(log)
    ensures LogOk(r)
  {
    if events == [] then log else Step(Run(log, events[..|events| - 1]), events[|events| - 1])
  }

  /** Over every run, a read delivers the latest byte of its index, modulo 64. */
  lemma {:induction false} RunReadsLatest(events: seq<Event>, i: nat)
    returns (n: nat)
    requires i < |Run(Log([], []), events).read|
    ensures var end := Run(Log([], []), events);
            && n <= |events| && i == |Run(Log([], []), events[..n]).read|
            && var before := Run(Log([], []), events[..n]);
               && i < |before.received| && before.received <= end.received
               && end.read[i] == end.received[Latest(|before.received|, i)]
  {
    var front := events[..|events| - 1];
    var before := Run(Log([], []), front);
    if i < |before.read| {
      n := RunReadsLatest(front, i);
      assert front[..n] == events[..n];
    } else {
      n := |events| - 1;
    }
  }

  /** If the event delivers a byte, at most 64 are unread. */
  predicate KeepsUp(before: Log, e: Event) {
    e.Read? && CanRead(before) ==> |before.received| - |before.read| <= RING
  }

  predicate KeepsUpAt(events: seq<Event>, n: nat)
    requires n < |events|
  {
    KeepsUp(Run(Log([], []), events[..n]), events[n])
  }

  /** Whenever a read delivers a byte, at most 64 are unread. */
  ghost predicate NoOverrun(events: seq<Event>) {
    forall n: nat | n < |events| :: KeepsUpAt(events, n)
  }

  // ------------------------------------------------------- runs, by their events

  /** The bytes that arrive. */
  function Arrivals(events: seq<Event>): seq<u8> {
    if events == [] then []
    else
      Arrivals(events[..|events| - 1]) +
      match events[|events| - 1] case Receive(b) => [b] case Read => []
  }

  /** For each byte read, the index of the byte received that it is. */
  function Indices(events: seq<Event>): seq<nat> {
    if events == [] then []
    else
      var front := events[..|events| - 1];
      var log := Run(Log([], []), front);
      Indices(front) +
      if events[|events| - 1].Read? && CanRead(log) then [Latest(|log.received|, |log.read|)] else []
  }

  /** Every byte that arrives is received, and every byte read is the one of its index. */
  lemma {:induction false} RunReadsIndices(events: seq<Event>)
    ensures var end := Run(Log([], []), events);
            && end.received == Arrivals(events) && |Indices(events)| == |end.read|
            && forall i | 0 <= i < |end.read| ::
                 Indices(events)[i] < |end.received| && end.read[i] == end.received[Indices(events)[i]]
  {
    if events != [] {
      RunReadsIndices(events[..|events| - 1]);
    }
  }

  /** 0, 1, 2 and so on. */
  ghost predicate InOrder(xs: seq<nat>) {
    forall i | 0 <= i < |xs| :: xs[i] == i
  }

  lemma InOrderStep(xs: seq<nat>, x: nat)
    ensures InOrder(xs + [x]) <==> InOrder(xs) && x == |xs|
  {
    assert (xs + [x])[|xs|] == x;
    assert forall i | 0 <= i < |xs| :: (xs + [x])[i] == xs[i];
  }

  lemma IndicesAppend(front: seq<Event>, e: Event)
    ensures var log := Run(Log([], []), front);
            Indices(front + [e]) == if e.Read? && CanRead(log)
                                    then Indices(front) + [Latest(|log.received|, |log.read|)] else Indices(front)
  {
    assert (front + [e])[..|front|] == front;
    assert Indices(front) + [] == Indices(front);
  }

  /** The index of one more byte read. */
  lemma ReadInOrder(xs: seq<nat>, log: Log)
    requires LogOk(log) && |xs| == |log.read| && CanRead(log)
    ensures InOrder(xs + [Latest(|log.received|, |log.read|)]) <==> InOrder(xs) && KeepsUp(log, Event.Read)
  {
    LatestIsNextIff(|log.received|, |log.read|);
    InOrderStep(xs, Latest(|log.received|, |log.read|));
  }

  lemma IndicesStep(front: seq<Event>, e: Event)
    ensures InOrder(Indices(front + [e])) <==> InOrder(Indices(front)) && KeepsUp(Run(Log([], []), front), e)
  {
    var log := Run(Log([], []), front);
    IndicesAppend(front, e);
    if e.Read? && CanRead(log) {
      RunReadsIndices(front);
      ReadInOrder(Indices(front), log);
    }
  }

  /** The bytes read are those received, one by one and in order, if and only if there is no overrun. */
  lemma {:induction false} InOrderIff(events: seq<Event>)
    ensures NoOverrun(events) <==> InOrder(Indices(events))
  {
    if events != [] {
      var front, e := events[..|events| - 1], events[|events| - 1];
      InOrderIff(front);
      NoOverrunStep(front, e);
      IndicesStep(front, e);
      assert front + [e] == events;
    }
  }

  /** Then delivery is lossless and in order: what was read is a prefix of what was received. */
  lemma NoOverrunIsFifo(events: seq<Event>)
    requires NoOverrun(events)
    ensures var end := Run(Log([], []), events); end.read <= end.received
  {
    InOrderIff(events);
    RunReadsIndices(events);
  }

  lemma NoOverrunStep(front: seq<Event>, e: Event)
    ensures NoOverrun(front + [e]) <==> NoOverrun(front) && KeepsUp(Run(Log([], []), front), e)
  {
    var events := front + [e];
    assert events[..|front|] == front;
    assert KeepsUpAt(events, |front|) <==> KeepsUp(Run(Log([], []), front), e);
    forall n: nat | n < |front|
      ensures KeepsUpAt(events, n) <==> KeepsUpAt(front, n)
    {
      assert events[..n] == front[..n];
    }
  }

  /** A call reads a byte exactly if the number of unread ones is not a multiple of 64; nothing else does. */
  lemma {:induction false} ReadsIff(events: seq<Event>, e: Event)
    ensures var before, after := Run(Log([], []), events), Run(Log([], []), events + [e]);
            |after.read| == |before.read| + if e.Read? && (|before.received| - |before.read|) % RING != 0 then 1 else 0
  {
    assert (events + [e])[..|events|] == events;
    FullLooksEmpty(Run(Log([], []), events));
  }

  lemma {:induction false} OneMoreRead(events: seq<Event>)
    requires NoOverrun(events)
    requires var log := Run(Log([], []), events); 0 < |log.received| - |log.read| < RING
    ensures var log, more := Run(Log([], []), events), events + [Event.Read];
            && NoOverrun(more) && Arrivals(more) == Arrivals(events)
            && |Run(Log([], []), more).read| == |log.read| + 1 && Run(Log([], []), more).received == log.received
  {
    var log := Run(Log([], []), events);
    assert (events + [Event.Read])[..|events|] == events;
    SmallIndex(|log.received| - |log.read|);
    ReadsIff(events, Event.Read);
    NoOverrunStep(events, Event.Read);
  }

  /** Once the arrivals end and fewer than 64 bytes are unread, that many calls read all of them. */
  lemma {:induction false} ReadsAll(events: seq<Event>, u: nat)
    requires NoOverrun(events)
    requires var end := Run(Log([], []), events); u == |end.received| - |end.read| < RING
    ensures Run(Log([], []), events + seq(u, _ => Event.Read)).read == Arrivals(events)
    decreases u
  {
    var log := Run(Log([], []), events);
    if u == 0 {
      assert events + seq(u, _ => Event.Read) == events;
      NoOverrunIsFifo(events);
      RunReadsIndices(events);
    } else {
      var more := events + [Event.Read];
      OneMoreRead(events);
      ReadsAll(more, u - 1);
      assert events + seq(u, _ => Event.Read) == more + seq(u - 1, _ => Event.Read);
    }
  }

  /** With 64 bytes unread the ring looks empty, so the reader waits for one more byte. */
  lemma FullLooksEmpty(log: Log)
    requires LogOk(log)
    ensures CanRead(log) <==> (|log.received| - |log.read|) % RING != 0
  {
  }

  // ---------------------------------------------------------------- in memory

  class Port {
    const buffer: array<u8>
    var writeHead: nat
    var readHead: nat
    ghost var log: Log

    constructor (buffer: array<u8>)
      requires buffer.Length == RING
      ensures Valid() && this.buffer == buffer && log == Log([], [])
    {
      this.buffer := buffer;
      writeHead, readHead := 0, 0;
      log := Log([], []);
    }

    /** Each cell holds the latest byte received for it. */
    ghost predicate Valid()
      reads this, buffer
    {
      && buffer.Length == RING && LogOk(log)
      && writeHead == |log.received| % RING && readHead == |log.read| % RING
      && forall i: nat | i < |log.received| && i < RING :: buffer[i] == log.received[Latest(|log.received|, i)]
    }

    /** serial_interrupt_handler, for a byte the line status announces. */
    method InterruptHandler(b: u8)
      requires Valid()
      modifies this`writeHead, this`log, buffer
      ensures Valid() && log == Step(old(log), Receive(b))
    {
      ghost var n := |log.received|;
      HeadNext(n);
      buffer[writeHead] := b;
      writeHead := (writeHead + 1) % RING;
      log := Step(log, Receive(b));
      forall i: nat | i < |log.received| && i < RING
        ensures buffer[i] == log.received[Latest(n + 1, i)]
      {
        LatestAfter(n, i);
      }
    }

    /** The load of serial_read, some time behind its wait. */
    method Load() returns (b: u8)
      requires Valid() && |log.read| < |log.received|
      ensures b == log.received[Latest(|log.received|, |log.read|)]
    {
      CellOf(|log.received|, |log.read|);
      b := buffer[readHead];
    }

    /** The head of serial_read moves on, some time behind its load. */
    method Advance(ghost b: u8)
      requires Valid() && |log.read| < |log.received|
      modifies this`readHead, this`log
      ensures Valid() && log == old(log).(read := old(log).read + [b])
    {
      HeadNext(|log.read|);
      readHead := (readHead + 1) % RING;
      log := log.(read := log.read + [b]);
    }

    /** serial_read, past its wait and without an interrupt: the two heads differ. */
    method Read() returns (b: u8)
      requires Valid() && writeHead != readHead
      modifies this`readHead, this`log
      ensures Valid() && log == Step(old(log), Event.Read) && CanRead(old(log))
      ensures log.read == old(log).read + [b]
    {
      b := Load();
      Advance(b);
    }
  }

  /**
   * Interrupts and reads in any order, on the code; a read that would wait does nothing.
   * The bytes delivered are, for each read, the latest byte that had arrived for its index
   * modulo 64; without overrun they are a prefix of the bytes that arrive.
   */
  method Deliver(port: Port, events: seq<Event>) returns (out: seq<u8>)
    requires port.Valid() && port.log == Log([], [])
    modifies port, port.buffer
    ensures port.Valid() && port.log == Run(Log([], []), events) && out == port.log.read
    ensures |out| == |Indices(events)|
    ensures forall i | 0 <= i < |out| ::
              Indices(events)[i] < |Arrivals(events)| && out[i] == Arrivals(events)[Indices(events)[i]]
    ensures NoOverrun(events) ==> out <= Arrivals(events)
  {
    out := [];
    var n := 0;
    while n < |events|
      invariant 0 <= n <= |events| && port.Valid()
      invariant port.log == Run(Log([], []), events[..n]) && out == port.log.read
    {
      assert events[..n + 1][..n] == events[..n];
      match events[n] {
        case Receive(b) =>
          port.InterruptHandler(b);
        case Read =>
          if port.writeHead != port.readHead {
            var b := port.Read();
            out := out + [b];
          }
      }
      n := n + 1;
    }
    assert events[..n] == events;
    RunReadsIndices(events);
    if NoOverrun(events) {
      NoOverrunIsFifo(events);
    }
  }
}
