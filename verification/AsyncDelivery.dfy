/**
 Delivery over whole runs of src/async_network.cpp: what the network's answers and the
 client's calls add to each stream, and that a healthy connection gets connected and
 gets its bytes sent.
 */
module AsyncDelivery {
  import opened Bytes
  import opened ByteQueues
  import opened AsyncSlots
  import opened AsyncWorld

  // ---------------------------------------------------------------- accounting

  /** The four streams of a connection, as lengths and bytes, that a run adds to. */
  datatype Gains = Gains(sent: nat, arrived: seq<byte>, accepted: seq<byte>, taken: nat)

  function Plus(a: Gains, b: Gains): Gains {
    Gains(a.sent + b.sent, a.arrived + b.arrived, a.accepted + b.accepted, a.taken + b.taken)
  }

  const NO_GAIN := Gains(0, [], [], 0)

  /** What one step adds to the streams of slot i: the network's answer or the client's call says it. */
  function StepGains(w: World, a: Action, i: nat): Gains
    requires Enabled(w, a) && i < SLOTS
  {
    match a
    case Worker(answer) =>
      if w.at != i then NO_GAIN
      else if w.pc.PumpSend? && answer.Count? then Gains(answer.n, [], [], 0)
      else if w.pc.PumpRecv? && answer.Data? then Gains(0, answer.bytes, [], 0)
      else NO_GAIN
    case SendPush(c) =>
      if w.calls[c].h.slot != i then NO_GAIN
      else Gains(0, [], w.calls[c].data[..Min(|w.calls[c].data|, QUEUE_SIZE - |w.slots[i].tx|)], 0)
    case ReceivePop(c) =>
      if w.calls[c].h.slot != i then NO_GAIN else Gains(0, [], [], Min(w.calls[c].len, |w.slots[i].rx|))
    case _ => NO_GAIN
  }

  function RunGains(w: World, run: seq<Action>, i: nat): Gains
    requires i < SLOTS
    decreases |run|
  {
    if run == [] || !Enabled(w, run[0]) then NO_GAIN
    else Plus(StepGains(w, run[0], i), RunGains(Do(w, run[0]), run[1..], i))
  }

  /** The slot holds this connection in every state of the run. */
  predicate Occupied(w: World, run: seq<Action>, i: nat, conn: nat)
    requires i < SLOTS
    decreases |run|
  {
    && |w.slots| == SLOTS && w.slots[i].inUse && w.slots[i].conn == conn
    && (run != [] ==> Enabled(w, run[0]) && Occupied(Do(w, run[0]), run[1..], i, conn))
  }

  predicate GainedBy(s: Slot, s': Slot, g: Gains) {
    && |s'.wire| == |s.wire| + g.sent && s.wire <= s'.wire
    && s'.arrived == s.arrived + g.arrived && s'.accepted == s.accepted + g.accepted
    && |s'.taken| == |s.taken| + g.taken && s.taken <= s'.taken
  }

  lemma GainedNothing(s: Slot, s': Slot)
    requires s'.wire == s.wire && s'.arrived == s.arrived && s'.accepted == s.accepted && s'.taken == s.taken
    ensures GainedBy(s, s', NO_GAIN)
  {
  }

  lemma GainedTwice(s: Slot, t: Slot, u: Slot, g: Gains, h: Gains)
    requires GainedBy(s, t, g) && GainedBy(t, u, h)
    ensures GainedBy(s, u, Plus(g, h))
  {
    assert s.arrived + g.arrived + h.arrived == s.arrived + (g.arrived + h.arrived);
    assert s.accepted + g.accepted + h.accepted == s.accepted + (g.accepted + h.accepted);
    assert u.wire[..|s.wire|] == u.wire[..|t.wire|][..|s.wire|];
    assert u.taken[..|s.taken|] == u.taken[..|t.taken|][..|s.taken|];
  }

  lemma WorkerGains(s: Slot, p: Pc, a: Answer, dialId: nat)
    requires Fits(p, a) && |s.rx| <= QUEUE_SIZE && WorkerStep(s, p, a, dialId).slot.inUse
    ensures GainedBy(s, WorkerStep(s, p, a, dialId).slot,
                     if p.PumpSend? && a.Count? then Gains(a.n, [], [], 0)
                     else if p.PumpRecv? && a.Data? then Gains(0, a.bytes, [], 0)
                     else NO_GAIN)
  {
  }

  lemma SendGains(s: Slot, data: seq<byte>)
    requires |s.tx| <= QUEUE_SIZE
    ensures GainedBy(s, Sent(s, data), Gains(0, [], data[..Min(|data|, QUEUE_SIZE - |s.tx|)], 0))
  {
    assert Sent(s, data).tx[|s.tx|..] == data[..Min(|data|, QUEUE_SIZE - |s.tx|)];
  }

  lemma ReceiveGains(s: Slot, n: nat)
    ensures GainedBy(s, Received(s, n), Gains(0, [], [], Min(n, |s.rx|)))
  {
  }

  lemma StepGainsExact(w: World, a: Action, i: nat)
    requires Inv(w) && Enabled(w, a) && i < SLOTS
    requires |Do(w, a).slots| == SLOTS && Do(w, a).slots[i].inUse && w.slots[i].inUse
    ensures GainedBy(w.slots[i], Do(w, a).slots[i], StepGains(w, a, i))
  {
    assert SlotInv(w.slots[i], PcAt(w, i), Done(w, i));
    hide Inv, SlotInv, WorkerStep, Sent, Received, GainedBy;
    match a
    case Worker(answer) =>
      WorkerVisits(w, answer, i);
      if w.at == i {
        WorkerGains(w.slots[i], w.pc, answer, w.nextSocket);
      } else {
        GainedNothing(w.slots[i], Do(w, a).slots[i]);
      }
    case SendPush(c) =>
      SendGains(w.slots[i], w.calls[c].data);
      GainedNothing(w.slots[i], w.slots[i]);
    case ReceivePop(c) =>
      ReceiveGains(w.slots[i], w.calls[c].len);
      GainedNothing(w.slots[i], w.slots[i]);
    case _ =>
      GainedNothing(w.slots[i], Do(w, a).slots[i]);
  }

  /**
   Accounting over any run in which the connection keeps its slot: the wire grows by
   exactly the counts the network took, what arrived by exactly the bytes it gave, what
   was accepted by exactly the prefixes that fitted, what was taken by exactly the
   smaller of each request and the queue.
   */
  lemma {:induction false} Accounting(w: World, run: seq<Action>, w': World, i: nat)
    requires Inv(w) && Leads(w, run, w') && i < SLOTS && Occupied(w, run, i, w.slots[i].conn)
    ensures |w'.slots| == SLOTS && GainedBy(w.slots[i], w'.slots[i], RunGains(w, run, i))
    decreases |run|
  {
    hide Inv, Enabled, Do, GainedBy, StepGains, Plus;
    if run == [] {
      GainedNothing(w.slots[i], w'.slots[i]);
    } else {
      var w1 := Do(w, run[0]);
      StepKeepsInv(w, run[0]);
      OccupiedNext(w, run, i);
      StepGainsExact(w, run[0], i);
      Accounting(w1, run[1..], w', i);
      GainedTwice(w.slots[i], w1.slots[i], w'.slots[i], StepGains(w, run[0], i), RunGains(w1, run[1..], i));
    }
  }

  lemma OccupiedNext(w: World, run: seq<Action>, i: nat)
    requires run != [] && i < SLOTS && |w.slots| == SLOTS && Occupied(w, run, i, w.slots[i].conn) && Enabled(w, run[0])
    ensures var w1 := Do(w, run[0]);
            |w1.slots| == SLOTS && w1.slots[i].inUse && w1.slots[i].conn == w.slots[i].conn
            && Occupied(w1, run[1..], i, w1.slots[i].conn)
  {
  }

  // ---------------------------------------------------------------- healthy runs

  /** Where the worker is in a healthy connection: before, in or past its connect. */
  predicate Well(s: Slot, p: Pc) {
    && s.inUse && !s.stopRequested
    && (match s.state
        case Connected =>
          s.socket.Some? && (p.Begin? || p.PumpEnter? || p.PumpPeek? || p.PumpSend? || Past(p))
        case Connecting =>
          if s.connectStarted then p.Resolving? || p.Dialing? || (p.Commit? && p.dialed.Some?) else p.Begin? || p.ConnectEnter?
        case _ => false)
  }

  /** The part of a visit after the send. */
  predicate Past(p: Pc) {
    p.PumpDrop? || p.PumpRoom? || p.RxFullSkip? || p.PumpPoll? || p.PumpRecv? || p.PumpPush?
  }

  /** Answers of a network that resolves, connects, takes at least a byte and does not break off. */
  predicate Kind(p: Pc, a: Answer) {
    match p
    case Resolving => a.Yes?
    case Dialing => a.Yes?
    case PumpSend(_, _) => a.Count? && a.n > 0
    case PumpPoll(_) => !a.Failure?
    case PumpRecv(_) => a.WouldBlock? || (a.Data? && a.bytes != [])
    case _ => true
  }

  /** Nobody stops the connection in slot i, and the network is kind to it. */
  predicate Healthy(w: World, run: seq<Action>, i: nat)
    requires i < SLOTS
    decreases |run|
  {
    && |w.slots| == SLOTS && w.slots[i].inUse && !w.slots[i].stopRequested
    && (run != [] ==>
          && Enabled(w, run[0]) && (run[0].Worker? && w.at == i ==> Kind(w.pc, run[0].answer))
          && Healthy(Do(w, run[0]), run[1..], i))
  }

  lemma WorkerKeepsWell(s: Slot, p: Pc, a: Answer, dialId: nat, done: nat)
    requires SlotInv(s, p, done) && Well(s, p) && Fits(p, a) && Kind(p, a)
    ensures var e := WorkerStep(s, p, a, dialId);
            && Well(e.slot, PcAfter(e)) && (e.next.None? || s.state.Connected? ==> e.slot.state.Connected?)
  {
  }

  lemma ClientKeepsWell(w: World, a: Action, i: nat)
    requires Inv(w) && Enabled(w, a) && !a.Worker? && i < SLOTS && Well(w.slots[i], PcAt(w, i))
    requires |Do(w, a).slots| == SLOTS && Do(w, a).slots[i].inUse && !Do(w, a).slots[i].stopRequested
    ensures var w' := Do(w, a);
            && Well(w'.slots[i], PcAt(w', i)) && Done(w', i) == Done(w, i)
            && w'.slots[i].state == w.slots[i].state && w'.slots[i].conn == w.slots[i].conn
  {
    hide Inv;
  }

  /** One step of a healthy run. */
  lemma StepKeepsWell(w: World, a: Action, i: nat)
    requires Inv(w) && Enabled(w, a) && i < SLOTS && Well(w.slots[i], PcAt(w, i))
    requires a.Worker? && w.at == i ==> Kind(w.pc, a.answer)
    requires |Do(w, a).slots| == SLOTS && Do(w, a).slots[i].inUse && !Do(w, a).slots[i].stopRequested
    ensures var w' := Do(w, a);
            && Well(w'.slots[i], PcAt(w', i)) && Done(w', i) >= Done(w, i) && w'.slots[i].conn == w.slots[i].conn
            && (w.slots[i].state.Connected? || Done(w', i) > Done(w, i) ==> w'.slots[i].state.Connected?)
  {
    assert SlotInv(w.slots[i], PcAt(w, i), Done(w, i));
    hide Inv, Well, WorkerStep, SlotInv;
    if a.Worker? {
      WorkerVisits(w, a.answer, i);
      if w.at == i {
        WorkerKeepsWell(w.slots[i], w.pc, a.answer, w.nextSocket, Done(w, i));
        SameConnection(w.slots[i], w.pc, a.answer, w.nextSocket, Done(w, i));
      }
    } else {
      ClientKeepsWell(w, a, i);
    }
  }

  lemma SameConnection(s: Slot, p: Pc, a: Answer, dialId: nat, done: nat)
    requires SlotInv(s, p, done) && Fits(p, a)
    ensures WorkerStep(s, p, a, dialId).slot.conn == s.conn
  {
    WorkerKeepsIdentity(s, p, a, dialId);
  }

  /**
   Connecting: in a healthy run a started connection is connected once the worker has
   completed a visit to it, and stays connected.
   */
  lemma {:induction false} HealthyConnects(w: World, run: seq<Action>, w': World, i: nat)
    requires Inv(w) && Leads(w, run, w') && i < SLOTS && Healthy(w, run, i) && Well(w.slots[i], PcAt(w, i))
    ensures Inv(w') && Well(w'.slots[i], PcAt(w', i)) && w'.slots[i].conn == w.slots[i].conn && Done(w', i) >= Done(w, i)
    ensures w.slots[i].state.Connected? || Done(w', i) > Done(w, i) ==> w'.slots[i].state.Connected?
    decreases |run|
  {
    hide Inv, Enabled, Do, Well, Kind;
    if run != [] {
      HealthyNext(w, run, i);
      StepKeepsInv(w, run[0]);
      StepKeepsWell(w, run[0], i);
      HealthyConnects(Do(w, run[0]), run[1..], w', i);
    }
  }

  lemma HealthyNext(w: World, run: seq<Action>, i: nat)
    requires run != [] && i < SLOTS && Healthy(w, run, i)
    ensures Enabled(w, run[0]) && (run[0].Worker? && w.at == i ==> Kind(w.pc, run[0].answer))
    ensures var w1 := Do(w, run[0]);
            |w1.slots| == SLOTS && w1.slots[i].inUse && !w1.slots[i].stopRequested && Healthy(w1, run[1..], i)
  {
  }

  // ---------------------------------------------------------------- delivery

  /** Visits to slot i whose send is behind. */
  function Counted(w: World, i: nat): nat { Done(w, i) + if Past(PcAt(w, i)) then 1 else 0 }

  /** A visit passes its send only by sending a byte or with nothing left to send. */
  lemma WorkerDelivers(s: Slot, p: Pc, a: Answer, dialId: nat, done: nat)
    requires SlotInv(s, p, done) && Well(s, p) && s.state.Connected? && Fits(p, a) && Kind(p, a)
    ensures var e := WorkerStep(s, p, a, dialId);
            var before, after := done + (if Past(p) then 1 else 0), DoneAfter(e, done) + (if Past(PcAfter(e)) then 1 else 0);
            && before <= after <= before + 1 && e.slot.accepted == s.accepted && |e.slot.wire| >= |s.wire|
            && (after > before ==> |e.slot.wire| > |s.wire| || e.slot.wire == e.slot.accepted)
  {
    if p.PumpPeek? && s.tx == [] {
      assert s.wire + [] == s.wire;
    }
  }

  /** A visit that finds bytes queued offers the network the next of them, up to 256. */
  lemma PeekOffers(s: Slot, p: Pc, a: Answer, dialId: nat, done: nat)
    requires SlotInv(s, p, done) && p.PumpPeek? && Fits(p, a) && s.tx != []
    ensures var n := Min(256, |s.tx|);
            && WorkerStep(s, p, a, dialId).next == Some(PumpSend(p.s, s.accepted[|s.wire|..|s.wire| + n]))
            && n > 0
  {
    var n := Min(256, |s.tx|);
    assert s.accepted == s.wire + s.tx;
    QueueFollowsWire(s.wire, s.tx, n);
  }

  lemma QueueFollowsWire(wire: seq<byte>, tx: seq<byte>, n: nat)
    requires n <= |tx|
    ensures (wire + tx)[|wire|..|wire| + n] == tx[..n]
  {
  }

  lemma StepDelivers(w: World, a: Action, i: nat)
    requires Inv(w) && Enabled(w, a) && i < SLOTS && Well(w.slots[i], PcAt(w, i)) && w.slots[i].state.Connected?
    requires a.Worker? && w.at == i ==> Kind(w.pc, a.answer)
    requires |Do(w, a).slots| == SLOTS && Do(w, a).slots[i].inUse && !Do(w, a).slots[i].stopRequested
    ensures var s, s', w' := w.slots[i], Do(w, a).slots[i], Do(w, a);
            && Counted(w, i) <= Counted(w', i) <= Counted(w, i) + 1
            && |s'.accepted| >= |s.accepted| && |s'.wire| >= |s.wire|
            && (Counted(w', i) > Counted(w, i) ==> |s'.wire| > |s.wire| || |s'.wire| >= |s.accepted|)
  {
    assert SlotInv(w.slots[i], PcAt(w, i), Done(w, i));
    StepGainsExact(w, a, i);
    hide Inv, Well, WorkerStep, SlotInv, StepGains;
    if a.Worker? {
      WorkerVisits(w, a.answer, i);
      if w.at == i {
        WorkerDelivers(w.slots[i], w.pc, a.answer, w.nextSocket, Done(w, i));
      }
    }
  }

  /** Every completed visit brings the wire a byte nearer to what was accepted at the start. */
  lemma {:induction false} HealthyDelivers(w: World, run: seq<Action>, w': World, i: nat, goal: nat)
    requires Inv(w) && Leads(w, run, w') && i < SLOTS && Healthy(w, run, i) && Well(w.slots[i], PcAt(w, i))
    requires w.slots[i].state.Connected? && goal <= |w.slots[i].accepted|
    ensures |w'.slots| == SLOTS && Counted(w', i) >= Counted(w, i)
    ensures |w'.slots[i].wire| >= goal || |w'.slots[i].wire| >= |w.slots[i].wire| + Counted(w', i) - Counted(w, i)
    ensures |w'.slots[i].wire| >= |w.slots[i].wire|
    decreases |run|
  {
    hide Inv, Enabled, Do, Well, Kind, Counted;
    if run != [] {
      HealthyNext(w, run, i);
      StepKeepsInv(w, run[0]);
      StepKeepsWell(w, run[0], i);
      StepDelivers(w, run[0], i);
      HealthyDelivers(Do(w, run[0]), run[1..], w', i, goal);
    }
  }

  lemma CountedBounds(w: World, i: nat)
    ensures Done(w, i) <= Counted(w, i) <= Begun(w, i)
  {
  }

  /** The connection keeps its slot through a healthy run. */
  lemma {:induction false} HealthyOccupies(w: World, run: seq<Action>, i: nat)
    requires Inv(w) && i < SLOTS && Healthy(w, run, i) && Well(w.slots[i], PcAt(w, i))
    ensures Occupied(w, run, i, w.slots[i].conn)
    decreases |run|
  {
    hide Inv, Enabled, Do, Well, Kind;
    if run != [] {
      HealthyNext(w, run, i);
      StepKeepsInv(w, run[0]);
      StepKeepsWell(w, run[0], i);
      HealthyOccupies(Do(w, run[0]), run[1..], i);
    }
  }

  /**
   Delivery: from any reachable state of a connected, unflagged connection, in every
   healthy run in which the worker completes as many further visits as bytes are queued,
   everything accepted at the start is on the wire, and without further sends everything
   accepted at all.
   */
  lemma Delivery(w: World, run: seq<Action>, w': World, i: nat)
    requires Inv(w) && Leads(w, run, w') && i < SLOTS && Healthy(w, run, i)
    requires Well(w.slots[i], PcAt(w, i)) && w.slots[i].state.Connected?
    requires Done(w', i) >= Begun(w, i) + |w.slots[i].tx|
    ensures |w'.slots| == SLOTS && w.slots[i].accepted <= w'.slots[i].wire
    ensures w'.slots[i].accepted == w.slots[i].accepted ==> w'.slots[i].wire == w'.slots[i].accepted
  {
    var s := w.slots[i];
    assert SlotInv(s, PcAt(w, i), Done(w, i));
    assert |s.accepted| <= |s.wire| + |s.tx|;
    hide Inv, Well, Healthy;
    HealthyDelivers(w, run, w', i, |s.accepted|);
    CountedBounds(w, i);
    CountedBounds(w', i);
    HealthyOccupies(w, run, i);
    Accounting(w, run, w', i);
    HealthyConnects(w, run, w', i);
    WireIsPrefix(w', i);
    var s' := w'.slots[i];
    assert s'.wire == s'.accepted[..|s'.wire|];
    assert s.accepted == s'.accepted[..|s.accepted|];
  }

  lemma WireIsPrefix(w: World, i: nat)
    requires Inv(w) && i < SLOTS
    ensures w.slots[i].wire <= w.slots[i].accepted
  {
    assert SlotInv(w.slots[i], PcAt(w, i), Done(w, i));
  }

  /** From the start of a connection: one visit connects it, and the queue's bytes follow. */
  lemma StartedDelivers(w: World, start: nat, run: seq<Action>, w': World)
    requires Inv(w) && Enabled(w, Start(start)) && Leads(Do(w, Start(start)), run, w')
    requires Healthy(Do(w, Start(start)), run, start) && Done(w', start) > Done(w, start)
    ensures |w'.slots| == SLOTS && w'.slots[start].state.Connected? && w'.slots[start].socket.Some? && w'.slots[start].conn == w.starts
  {
    var w1 := Do(w, Start(start));
    StepKeepsInv(w, Start(start));
    FreshIsWell(w, start);
    HealthyConnects(w1, run, w', start);
  }

  lemma FreshIsWell(w: World, i: nat)
    requires Inv(w) && Enabled(w, Start(i))
    ensures var w1 := Do(w, Start(i)); Well(w1.slots[i], PcAt(w1, i)) && Done(w1, i) == Done(w, i) && w1.slots[i].conn == w.starts
  {
    assert SlotInv(w.slots[i], PcAt(w, i), Done(w, i));
  }

  // ---------------------------------------------------------------- reception

  /** A visit polls the socket unless the receive queue lacks room for a chunk. */
  predicate Roomy(w: World, run: seq<Action>, i: nat)
    requires i < SLOTS
    decreases |run|
  {
    && |w.slots| == SLOTS && |w.slots[i].rx| <= QUEUE_SIZE - RX_CHUNK
    && (run != [] ==> Enabled(w, run[0]) && Roomy(Do(w, run[0]), run[1..], i))
  }

  /** How often the network was asked whether slot i has something to receive. */
  function Polls(w: World, run: seq<Action>, i: nat): nat
    requires i < SLOTS
    decreases |run|
  {
    if run == [] || !Enabled(w, run[0]) then 0
    else (if run[0].Worker? && w.at == i && w.pc.PumpPoll? then 1 else 0) + Polls(Do(w, run[0]), run[1..], i)
  }

  /** The part of a visit after the poll. */
  predicate Polled(p: Pc) { p.PumpRecv? || p.PumpPush? }

  function Asked(w: World, i: nat): nat { Done(w, i) + if Polled(PcAt(w, i)) then 1 else 0 }

  lemma WorkerPolls(s: Slot, p: Pc, a: Answer, dialId: nat, done: nat)
    requires SlotInv(s, p, done) && Well(s, p) && s.state.Connected? && Fits(p, a) && Kind(p, a)
    requires !p.RxFullSkip? && |s.rx| <= QUEUE_SIZE - RX_CHUNK
    ensures var e := WorkerStep(s, p, a, dialId);
            !PcAfter(e).RxFullSkip?
            && DoneAfter(e, done) + (if Polled(PcAfter(e)) then 1 else 0)
               == done + (if Polled(p) then 1 else 0) + (if p.PumpPoll? then 1 else 0)
  {
  }

  lemma StepPolls(w: World, a: Action, i: nat)
    requires Inv(w) && Enabled(w, a) && i < SLOTS && Well(w.slots[i], PcAt(w, i)) && w.slots[i].state.Connected?
    requires a.Worker? && w.at == i ==> Kind(w.pc, a.answer)
    requires !PcAt(w, i).RxFullSkip? && |w.slots[i].rx| <= QUEUE_SIZE - RX_CHUNK
    ensures var w' := Do(w, a);
            !PcAt(w', i).RxFullSkip?
            && Asked(w', i) == Asked(w, i) + if a.Worker? && w.at == i && w.pc.PumpPoll? then 1 else 0
  {
    assert SlotInv(w.slots[i], PcAt(w, i), Done(w, i));
    hide Inv, Well, WorkerStep, SlotInv;
    if a.Worker? {
      WorkerVisits(w, a.answer, i);
      if w.at == i {
        WorkerPolls(w.slots[i], w.pc, a.answer, w.nextSocket, Done(w, i));
      }
    }
  }

  /** While there is room, every visit to a healthy connection polls its socket exactly once. */
  lemma {:induction false} HealthyPolls(w: World, run: seq<Action>, w': World, i: nat)
    requires Inv(w) && Leads(w, run, w') && i < SLOTS && Healthy(w, run, i) && Roomy(w, run, i)
    requires Well(w.slots[i], PcAt(w, i)) && w.slots[i].state.Connected? && !PcAt(w, i).RxFullSkip?
    ensures Asked(w', i) == Asked(w, i) + Polls(w, run, i)
    decreases |run|
  {
    hide Inv, Enabled, Do, Well, Kind, Asked;
    if run != [] {
      HealthyNext(w, run, i);
      StepKeepsInv(w, run[0]);
      StepKeepsWell(w, run[0], i);
      StepPolls(w, run[0], i);
      HealthyPolls(Do(w, run[0]), run[1..], w', i);
    }
  }

  /** A poll that says yes leads to a receive, and received bytes are queued behind the others. */
  lemma ArrivalIsQueued(s: Slot, p: Pc, a: Answer, dialId: nat, done: nat)
    requires SlotInv(s, p, done) && Fits(p, a)
    ensures p.PumpPoll? && a.Yes? ==> WorkerStep(s, p, a, dialId).next == Some(PumpRecv(p.s))
    ensures p.PumpRecv? && a.Data? && a.bytes != [] ==> WorkerStep(s, p, a, dialId).next == Some(PumpPush(p.s, a.bytes))
    ensures p.PumpPush? ==> WorkerStep(s, p, a, dialId).slot.rx == s.rx + p.got
  {
    if p.PumpPush? {
      assert p.got[..|p.got|] == p.got;
    }
  }

  /** A receive that asks for all that is queued leaves the client with everything that has arrived. */
  lemma ReceiveTakesAll(w: World, c: nat)
    requires Inv(w) && Enabled(w, ReceivePop(c)) && w.calls[c].len >= |w.slots[w.calls[c].h.slot].rx|
    requires !PcAt(w, w.calls[c].h.slot).PumpPush?
    ensures var i, w' := w.calls[c].h.slot, Do(w, ReceivePop(c));
            |w'.slots| == SLOTS && w'.slots[i].taken == w'.slots[i].arrived && w'.slots[i].rx == []
  {
    var i := w.calls[c].h.slot;
    assert SlotInv(w.slots[i], PcAt(w, i), Done(w, i));
  }
}
