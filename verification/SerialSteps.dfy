/** The serial reader, interrupted between its wait, its load and the move of its head. */
module SerialSteps {
  import opened Words
  import opened Serial

  /** Where the reader stands: at its wait, behind it, or with a byte in hand. */
  datatype Place = Waiting | Cleared | Loaded

  /** An interrupt with a byte, or the next step of the reader. */
  datatype Tick = Arrive(b: u8) | Resume

  /** What has been received, the indices of the bytes the reader has returned, and that of the byte in hand. */
  datatype Machine = Machine(received: seq<u8>, read: seq<nat>, place: Place, k: nat)

  ghost predicate MachineOk(m: Machine) {
    && |m.read| <= |m.received|
    && (m.place != Waiting ==> |m.read| < |m.received|)
    && (m.place == Loaded ==> m.k < |m.received|)
    && forall i | 0 <= i < |m.read| :: m.read[i] < |m.received|
  }

  function Next(m: Machine, e: Tick): (r: Machine)
    requires MachineOk(m)
    ensures MachineOk(r) && m.received <= r.received && m.read <= r.read
  {
    match e
    case Arrive(b) => m.(received := m.received + [b])
    case Resume =>
      match m.place
      case Waiting => if |m.received| % RING != |m.read| % RING then m.(place := Cleared) else m
      case Cleared => m.(place := Loaded, k := Latest(|m.received|, |m.read|))
      case Loaded => m.(read := m.read + [m.k], place := Waiting)
  }

  function Steps(ticks: seq<Tick>): (m: Machine)
    ensures MachineOk(m)
  {
    if ticks == [] then Machine([], [], Waiting, 0) else Next(Steps(ticks[..|ticks| - 1]), ticks[|ticks| - 1])
  }

  lemma {:induction false} StepsNext(ticks: seq<Tick>, n: nat)
    requires n < |ticks|
    ensures Steps(ticks[..n + 1]) == Next(Steps(ticks[..n]), ticks[n])
  {
    assert ticks[..n + 1][..n] == ticks[..n];
  }

  /** A reader at its wait returns one byte in its next three steps, unless the ring looks empty; then it stays. */
  lemma ReadsOneIff(m: Machine)
    requires MachineOk(m) && m.place == Waiting
    ensures if (|m.received| - |m.read|) % RING != 0
            then var r := Next(Next(Next(m, Resume), Resume), Resume);
                 r.received == m.received && r.place == Waiting
                 && r.read == m.read + [Latest(|m.received|, |m.read|)]
            else Next(m, Resume) == m
  {
    FullLooksEmpty(Log(m.received, seq(|m.read|, _ => 0)));
  }

  /** A schedule without interrupts inside the reader: each of its calls is three steps. */
  function Undivided(events: seq<Event>): seq<Tick> {
    if events == [] then []
    else Undivided(events[..|events| - 1])
         + match events[|events| - 1] case Receive(b) => [Arrive(b)] case Read => [Resume, Resume, Resume]
  }

  lemma {:induction false} OneStep(ticks: seq<Tick>, e: Tick)
    ensures Steps(ticks + [e]) == Next(Steps(ticks), e)
  {
    assert (ticks + [e])[..|ticks|] == ticks;
  }

  lemma {:induction false} ThreeSteps(ticks: seq<Tick>)
    ensures Steps(ticks + [Resume, Resume, Resume]) == Next(Next(Next(Steps(ticks), Resume), Resume), Resume)
  {
    var t1 := ticks + [Resume];
    var t2 := t1 + [Resume];
    OneStep(ticks, Resume);
    OneStep(t1, Resume);
    OneStep(t2, Resume);
    assert t2 + [Resume] == ticks + [Resume, Resume, Resume];
  }

  /** The reader is at its wait, and has read what whole calls have read. */
  ghost predicate Agrees(m: Machine, events: seq<Event>) {
    && m.place == Waiting && m.received == Run(Log([], []), events).received
    && m.read == Indices(events) && |m.read| == |Run(Log([], []), events).read|
  }

  lemma {:induction false} CallAgrees(ticks: seq<Tick>, events: seq<Event>)
    requires Agrees(Steps(ticks), events)
    ensures Agrees(Steps(ticks + [Resume, Resume, Resume]), events + [Event.Read])
  {
    var m := Steps(ticks);
    ThreeSteps(ticks);
    ReadsOneIff(m);
    ReadsIff(events, Event.Read);
    IndicesAppend(events, Event.Read);
    FullLooksEmpty(Run(Log([], []), events));
    RunReadsIndices(events + [Event.Read]);
    RunReadsIndices(events);
  }

  lemma {:induction false} ArrivalAgrees(ticks: seq<Tick>, events: seq<Event>, b: u8)
    requires Agrees(Steps(ticks), events)
    ensures Agrees(Steps(ticks + [Arrive(b)]), events + [Receive(b)])
  {
    assert (ticks + [Arrive(b)])[..|ticks|] == ticks && (events + [Receive(b)])[..|events|] == events;
    IndicesAppend(events, Receive(b));
  }

  /** Then the machine does what whole calls do. */
  lemma {:induction false} UndividedAgrees(events: seq<Event>)
    ensures Agrees(Steps(Undivided(events)), events)
  {
    if events != [] {
      var front, e := events[..|events| - 1], events[|events| - 1];
      UndividedAgrees(front);
      assert front + [e] == events;
      match e {
        case Receive(b) => ArrivalAgrees(Undivided(front), front, b);
        case Read => CallAgrees(Undivided(front), front);
      }
    }
  }

  /** The tick n is a load, of the byte with index i. */
  ghost predicate Loads(ticks: seq<Tick>, n: nat, i: nat) {
    && n < |ticks| && ticks[n].Resume?
    && Steps(ticks[..n]).place == Cleared && |Steps(ticks[..n]).read| == i
  }

  /** In every interleaving, the i-th byte returned is the latest of its index, modulo 64, at the time of its load. */
  lemma {:induction false} StepsReadLatest(ticks: seq<Tick>, i: nat) returns (n: nat)
    requires var m := Steps(ticks); i < |m.read| || (i == |m.read| && m.place == Loaded)
    ensures Loads(ticks, n, i) && i < |Steps(ticks[..n]).received|
    ensures Steps(ticks[..n]).received <= Steps(ticks).received
    ensures var m := Steps(ticks);
            (if i < |m.read| then m.read[i] else m.k) == Latest(|Steps(ticks[..n]).received|, i)
  {
    var front := ticks[..|ticks| - 1];
    var before := Steps(front);
    if before.place == Cleared && i == |before.read| {
      n := |front|;
    } else {
      n := StepsReadLatest(front, i);
      assert front[..n] == ticks[..n];
    }
  }

  /** 0, 1, 2 and so on, for the bytes returned and the one in hand. */
  ghost predicate AllInOrder(m: Machine) {
    InOrder(m.read) && (m.place == Loaded ==> m.k == |m.read|)
  }

  /** At this tick, a load finds at most 64 bytes unread. */
  predicate LoadsInTime(m: Machine, e: Tick) {
    e.Resume? && m.place == Cleared ==> |m.received| - |m.read| <= RING
  }

  predicate InTimeAt(ticks: seq<Tick>, n: nat)
    requires n < |ticks|
  {
    LoadsInTime(Steps(ticks[..n]), ticks[n])
  }

  ghost predicate AllInTime(ticks: seq<Tick>) {
    forall n: nat | n < |ticks| :: InTimeAt(ticks, n)
  }

  lemma NextInOrder(m: Machine, e: Tick)
    requires MachineOk(m)
    ensures AllInOrder(Next(m, e)) <==> AllInOrder(m) && LoadsInTime(m, e)
  {
    if e.Resume? && m.place == Cleared {
      LatestIsNextIff(|m.received|, |m.read|);
    } else if e.Resume? && m.place == Loaded {
      InOrderStep(m.read, m.k);
    }
  }

  lemma InTimeStep(front: seq<Tick>, e: Tick)
    ensures AllInTime(front + [e]) <==> AllInTime(front) && LoadsInTime(Steps(front), e)
  {
    var ticks := front + [e];
    assert ticks[..|front|] == front;
    assert InTimeAt(ticks, |front|) <==> LoadsInTime(Steps(front), e);
    forall n: nat | n < |front|
      ensures InTimeAt(ticks, n) <==> InTimeAt(front, n)
    {
      assert ticks[..n] == front[..n];
    }
  }

  /** Delivery is lossless and in order exactly if at most 64 bytes are unread at every load, whatever comes between. */
  lemma {:induction false} StepsInOrderIff(ticks: seq<Tick>)
    ensures AllInOrder(Steps(ticks)) <==> AllInTime(ticks)
  {
    if ticks != [] {
      var front, e := ticks[..|ticks| - 1], ticks[|ticks| - 1];
      StepsInOrderIff(front);
      NextInOrder(Steps(front), e);
      InTimeStep(front, e);
      assert front + [e] == ticks;
    }
  }

  /** The bytes that a machine has returned. */
  function Returned(m: Machine): (out: seq<u8>)
    requires MachineOk(m)
    ensures |out| == |m.read| && forall i | 0 <= i < |out| :: out[i] == m.received[m.read[i]]
  {
    seq(|m.read|, i requires 0 <= i < |m.read| => m.received[m.read[i]])
  }

  lemma UndividedReturns(events: seq<Event>)
    ensures Returned(Steps(Undivided(events))) == Run(Log([], []), events).read
  {
    UndividedAgrees(events);
    RunReadsIndices(events);
  }

  /** The port is in the state of the machine, and so is the reader's byte. */
  ghost predicate Matches(port: Port, m: Machine, b: u8)
    requires MachineOk(m)
    reads port, port.buffer
  {
    && port.Valid() && port.log == Log(m.received, Returned(m))
    && (m.place == Loaded ==> b == m.received[m.k])
  }

  /** An interrupt, on the code. */
  method Interrupt(port: Port, b: u8, ghost m: Machine, held: u8)
    requires MachineOk(m) && Matches(port, m, held)
    modifies port, port.buffer
    ensures Matches(port, Next(m, Arrive(b)), held) && Returned(Next(m, Arrive(b))) == Returned(m)
  {
    port.InterruptHandler(b);
    assert Returned(Next(m, Arrive(b))) == Returned(m);
  }

  /** One step of the reader, on the code: from its wait to its load, to the move of the head, and back. */
  method ReaderStep(port: Port, ghost m: Machine, place: Place, held: u8) returns (next: Place, b: u8)
    requires MachineOk(m) && Matches(port, m, held) && place == m.place
    modifies port
    ensures Matches(port, Next(m, Resume), b) && next == Next(m, Resume).place
    ensures Returned(Next(m, Resume)) == Returned(m) + if place == Loaded then [b] else []
  {
    next, b := place, held;
    match place {
      case Waiting =>
        if port.writeHead != port.readHead {
          next := Cleared;
        }
      case Cleared =>
        b := port.Load();
        next := Loaded;
      case Loaded =>
        port.Advance(held);
        next := Waiting;
    }
    assert Returned(Next(m, Resume)) == Returned(m) + if place == Loaded then [b] else [];
  }

  /** One tick, on the code; out are the bytes returned so far. */
  method Turn(port: Port, ghost m: Machine, e: Tick, place: Place, held: u8, out: seq<u8>)
    returns (next: Place, b: u8, now: seq<u8>)
    requires MachineOk(m) && Matches(port, m, held) && place == m.place && out == Returned(m)
    modifies port, port.buffer
    ensures Matches(port, Next(m, e), b) && next == Next(m, e).place && now == Returned(Next(m, e))
  {
    next, b, now := place, held, out;
    match e {
      case Arrive(byte) =>
        Interrupt(port, byte, m, held);
      case Resume =>
        next, b := ReaderStep(port, m, place, held);
        if place == Loaded {
          now := out + [b];
        }
    }
  }

  /** The bytes that arrive. */
  function Arrivals(ticks: seq<Tick>): seq<u8> {
    if ticks == [] then []
    else Arrivals(ticks[..|ticks| - 1]) + match ticks[|ticks| - 1] case Arrive(b) => [b] case Resume => []
  }

  lemma {:induction false} ReceivedAre(ticks: seq<Tick>)
    ensures Steps(ticks).received == Arrivals(ticks)
  {
    if ticks != [] {
      ReceivedAre(ticks[..|ticks| - 1]);
    }
  }

  /**
   * Interrupts between any two steps of the reader, on the code: the bytes returned are the
   * arrivals with the indices that the machine reads; they are the first arrivals, in
   * order, if every load is in time.
   */
  method DeliverSteps(port: Port, ticks: seq<Tick>) returns (out: seq<u8>)
    requires port.Valid() && port.log == Log([], [])
    modifies port, port.buffer
    ensures port.Valid() && |out| == |Steps(ticks).read|
    ensures forall i | 0 <= i < |out| ::
              Steps(ticks).read[i] < |Arrivals(ticks)| && out[i] == Arrivals(ticks)[Steps(ticks).read[i]]
    ensures AllInTime(ticks) ==> out <= Arrivals(ticks)
    ensures forall events: seq<Event> | ticks == Undivided(events) :: out == Run(Log([], []), events).read
  {
    out := [];
    ghost var m := Steps([]);
    var held: u8 := 0;
    var place, n := Waiting, 0;
    assert Returned(m) == [];
    while n < |ticks|
      invariant 0 <= n <= |ticks| && m == Steps(ticks[..n]) && place == m.place
      invariant Matches(port, m, held) && out == Returned(m)
    {
      StepsNext(ticks, n);
      place, held, out := Turn(port, m, ticks[n], place, held, out);
      m, n := Next(m, ticks[n]), n + 1;
    }
    assert ticks[..n] == ticks;
    ReceivedAre(ticks);
    StepsInOrderIff(ticks);
    forall events: seq<Event> | ticks == Undivided(events)
      ensures out == Run(Log([], []), events).read
    {
      UndividedReturns(events);
    }
  }
}
