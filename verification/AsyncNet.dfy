/**
 The asynchronous network slots of src/async_network.cpp.

 One worker task walks eight connection slots; any number of client calls run
 beside it. Every critical section is one atomic step, every network call is one
 step whose answer the environment chooses, and steps of different tasks
 interleave freely. `wire`, `accepted`, `arrived` and `taken` record a
 connection's traffic, `conn` numbers the connections and `flaggedAt` records how
 many worker visits the slot had seen when stop flagged it.
 */
module AsyncSlots {
  import opened Bytes
  import opened ByteQueues

  const TX_CHUNK: nat := 256
  const RX_CHUNK: nat := 1600

  datatype Option<T> = None | Some(value: T)
  datatype NetState = Connecting | Connected | Closed | Error

  datatype Slot = Slot(
    inUse: bool, releaseRequested: bool, stopRequested: bool, connectStarted: bool,
    generation: nat, state: NetState, socket: Option<nat>,
    rx: seq<byte>, tx: seq<byte>, rxDropped: nat,
    conn: nat, accepted: seq<byte>, wire: seq<byte>, arrived: seq<byte>, taken: seq<byte>, flaggedAt: nat)

  /** Where the worker is inside ProcessSlot; `Begin` is before the snapshot. */
  datatype Pc =
    | Begin
    | FreeEnter | FreeCall(lingering: nat)
    | ConnectEnter | Resolving | ResolveFailed | Dialing | Commit(dialed: Option<nat>)
    | Abandon(abandoned: nat) | AbandonDone
    | PumpEnter | PumpPeek(s: nat) | PumpSend(s: nat, chunk: seq<byte>) | PumpDrop(s: nat, sent: nat)
    | PumpRoom(s: nat) | PumpPoll(s: nat) | PumpRecv(s: nat) | PumpPush(s: nat, got: seq<byte>)
    | RxLost(lost: nat) | RxFullSkip
    | CloseEnter(to: NetState) | CloseCall(closing: nat, to: NetState) | CloseSet(to: NetState)

  /** What the environment answers to the call the worker is making. */
  datatype Answer = Quiet | Yes | No | Count(n: nat) | Data(bytes: seq<byte>) | WouldBlock | Failure

  predicate Fits(p: Pc, a: Answer) {
    match p
    case Resolving => a.Yes? || a.No?
    case Dialing => a.Yes? || a.No?
    case PumpSend(_, chunk) => a.WouldBlock? || a.Failure? || (a.Count? && a.n <= |chunk|)
    case PumpPoll(_) => a.Yes? || a.No? || a.Failure?
    case PumpRecv(_) => a.WouldBlock? || a.Failure? || (a.Data? && |a.bytes| <= RX_CHUNK)
    case _ => a.Quiet?
  }

  /** A step's effect: the slot, where the worker goes (None ends the visit), sockets opened and closed. */
  datatype Effect = Effect(slot: Slot, next: Option<Pc>, dialed: bool, closed: Option<nat>)

  function Go(s: Slot, p: Pc): Effect { Effect(s, Some(p), false, None) }
  function Leave(s: Slot): Effect { Effect(s, None, false, None) }

  /** ProcessSlot's decision on the snapshot. */
  function Dispatch(s: Slot): Effect {
    if !s.inUse then Leave(s)
    else if s.releaseRequested && s.socket.None? && !s.state.Connecting? then Go(s, FreeEnter)
    else if s.state.Connecting? && !s.connectStarted then Go(s, ConnectEnter)
    else if s.state.Connected? then Go(s, PumpEnter)
    else if s.releaseRequested && (s.state.Closed? || s.state.Error?) then Go(s, FreeEnter)
    else Leave(s)
  }

  /** The last critical section of Connect that sees the dialed socket. */
  function Committed(s: Slot, dialed: Option<nat>): Effect {
    if s.stopRequested || dialed.None? then
      if dialed.Some? then Go(s.(socket := None), Abandon(dialed.value))
      else Leave(s.(socket := None, state := Error))
    else
      Leave(s.(socket := dialed, state := Connected))
  }

  function WorkerStep(s: Slot, p: Pc, a: Answer, dialId: nat): Effect
    requires Fits(p, a) && |s.rx| <= QUEUE_SIZE
  {
    match p
    case Begin => Dispatch(s)
    case FreeEnter =>
      var freed := s.(socket := None, rx := [], tx := [], releaseRequested := false, stopRequested := false,
                      connectStarted := false, state := Closed, inUse := false);
      if s.socket.Some? then Go(freed, FreeCall(s.socket.value)) else Leave(freed)
    case FreeCall(k) => Effect(s, None, false, Some(k))
    case ConnectEnter => Go(s.(connectStarted := true), Resolving)
    case Resolving => Go(s, if a.Yes? then Dialing else ResolveFailed)
    case ResolveFailed => Leave(s.(state := Error))
    case Dialing => if a.Yes? then Effect(s, Some(Commit(Some(dialId))), true, None) else Go(s, Commit(None))
    case Commit(dialed) => Committed(s, dialed)
    case Abandon(k) => Effect(s, Some(AbandonDone), false, Some(k))
    case AbandonDone => Leave(s.(state := Closed))
    case PumpEnter =>
      if s.stopRequested then Go(s, CloseEnter(Closed))
      else if !s.state.Connected? || s.socket.None? then Leave(s)
      else Go(s, PumpPeek(s.socket.value))
    case PumpPeek(k) =>
      var chunk := s.tx[..Min(TX_CHUNK, |s.tx|)];
      Go(s, if |chunk| > 0 then PumpSend(k, chunk) else PumpRoom(k))
    case PumpSend(k, chunk) =>
      if a.Count? then
        var s' := s.(wire := s.wire + chunk[..a.n]);
        Go(s', if a.n > 0 then PumpDrop(k, a.n) else PumpRoom(k))
      else Go(s, if a.WouldBlock? then PumpRoom(k) else CloseEnter(Error))
    case PumpDrop(k, n) => Go(s.(tx := s.tx[Min(n, |s.tx|)..]), PumpRoom(k))
    case PumpRoom(k) => Go(s, if |s.rx| <= QUEUE_SIZE - RX_CHUNK then PumpPoll(k) else RxFullSkip)
    case RxFullSkip => Leave(s)
    case PumpPoll(k) => if a.Failure? then Go(s, CloseEnter(Error)) else if a.Yes? then Go(s, PumpRecv(k)) else Leave(s)
    case PumpRecv(k) =>
      if a.WouldBlock? then Leave(s)
      else if a.Failure? then Go(s, CloseEnter(Error))
      else if |a.bytes| == 0 then Go(s, CloseEnter(Closed))
      else Go(s.(arrived := s.arrived + a.bytes), PumpPush(k, a.bytes))
    case PumpPush(k, got) =>
      var s' := s.(rx := Pushed(s.rx, got));
      var pushed := |s'.rx| - |s.rx|;
      if pushed < |got| then Go(s', RxLost(|got| - pushed)) else Leave(s')
    case RxLost(n) => Leave(s.(rxDropped := s.rxDropped + n))
    case CloseEnter(to) =>
      Go(s.(socket := None), if s.socket.Some? then CloseCall(s.socket.value, to) else CloseSet(to))
    case CloseCall(k, to) => Effect(s, Some(CloseSet(to)), false, Some(k))
    case CloseSet(to) => Leave(s.(state := to))
  }

  // ---------------------------------------------------------------- client steps on one slot

  /** bmc64_async_net_start claiming a free slot. */
  function Started(s: Slot, conn: nat, generation: nat): Slot {
    Slot(true, false, false, false, generation, Connecting, None, [], [], 0, conn, [], [], [], [], 0)
  }

  function Sent(s: Slot, data: seq<byte>): Slot
    requires |s.tx| <= QUEUE_SIZE
  {
    var tx := Pushed(s.tx, data);
    s.(tx := tx, accepted := s.accepted + tx[|s.tx|..])
  }

  function Received(s: Slot, n: nat): Slot {
    var k := Min(n, |s.rx|);
    s.(rx := s.rx[k..], taken := s.taken + s.rx[..k])
  }

  function Flagged(s: Slot, visits: nat): Slot {
    s.(stopRequested := true, releaseRequested := true, flaggedAt := visits)
  }

  // ---------------------------------------------------------------- the invariant of one slot

  /** No byte is lost, repeated or reordered between client, queue and socket. */
  predicate Streams(s: Slot, p: Pc) {
    && |s.tx| <= QUEUE_SIZE && |s.rx| <= QUEUE_SIZE && s.rxDropped == 0
    && s.wire <= s.accepted
    && s.taken <= s.arrived
    && (s.inUse ==>
          && (if p.PumpDrop?
              then p.sent <= |s.tx| && s.accepted == s.wire + s.tx[p.sent..]
              else s.accepted == s.wire + s.tx)
          && (if p.PumpPush?
              then s.arrived == s.taken + s.rx + p.got
              else s.arrived == s.taken + s.rx))
    && (p.PumpSend? ==> 0 < |p.chunk| && p.chunk <= s.tx)
    && (p.PumpPoll? || p.PumpRecv? ==> |s.rx| <= QUEUE_SIZE - RX_CHUNK)
    && (p.PumpPush? ==> |s.rx| + |p.got| <= QUEUE_SIZE)
  }

  /** Between worker visits: CONNECTED exactly with a socket, started exactly when past CONNECTING. */
  predicate AtRest(s: Slot) {
    if s.inUse then (s.state.Connected? <==> s.socket.Some?) && (s.connectStarted <==> !s.state.Connecting?)
    else s.socket.None? && !s.stopRequested
  }

  /** What the worker may rely on inside a visit. */
  predicate Control(s: Slot, p: Pc) {
    && s.stopRequested == s.releaseRequested
    && !p.FreeCall? && !p.RxLost?
    && (p.Begin? ==> AtRest(s))
    && (!p.Begin? ==> s.inUse)
    && (p.FreeEnter? ==> s.stopRequested && s.socket.None? && (s.state.Closed? || s.state.Error?) && s.connectStarted)
    && (p.ConnectEnter? ==> s.state.Connecting? && !s.connectStarted && s.socket.None?)
    && (p.Resolving? || p.ResolveFailed? || p.Dialing? || p.Commit? || p.Abandon? || p.AbandonDone? ==>
          s.state.Connecting? && s.connectStarted && s.socket.None?)
    && (p.PumpEnter? || p.CloseEnter? || p.RxFullSkip? ==> s.state.Connected? && s.socket.Some? && s.connectStarted)
    && (p.PumpPeek? || p.PumpSend? || p.PumpDrop? || p.PumpRoom? || p.PumpPoll? || p.PumpRecv? || p.PumpPush? ==>
          s.state.Connected? && s.socket == Some(p.s) && s.connectStarted)
    && (p.CloseCall? || p.CloseSet? ==> s.state.Connected? && s.socket.None? && s.connectStarted)
    && (p.CloseEnter? || p.CloseCall? || p.CloseSet? ==> p.to.Closed? || p.to.Error?)
  }

  /** A flagged slot outlives at most one complete visit that began after the flag. */
  predicate Progress(s: Slot, p: Pc, done: nat) {
    s.inUse && s.stopRequested ==>
      && s.flaggedAt <= done + (if p.Begin? then 0 else 1)
      && done <= s.flaggedAt + 1
      && (done == s.flaggedAt + 1 ==> (s.state.Closed? || s.state.Error?) && (p.Begin? || p.FreeEnter?))
      && (done == s.flaggedAt ==>
            p.Begin? || p.FreeEnter? || p.ConnectEnter? || p.Resolving? || p.ResolveFailed? || p.Dialing?
            || p.Commit? || p.Abandon? || p.AbandonDone? || p.PumpEnter?
            || p.CloseEnter? || p.CloseCall? || p.CloseSet?)
  }

  predicate SlotInv(s: Slot, p: Pc, done: nat) {
    Streams(s, p) && Control(s, p) && Progress(s, p, done)
  }

  /** The sockets a slot and the worker's visit to it own between them. */
  function Held(s: Slot, p: Pc): set<nat> {
    (if s.socket.Some? then {s.socket.value} else {})
    + (match p
       case Commit(dialed) => (if dialed.Some? then {dialed.value} else {})
       case Abandon(k) => {k}
       case CloseCall(k, _) => {k}
       case FreeCall(k) => {k}
       case _ => {})
  }

  function PcAfter(e: Effect): Pc { if e.next.Some? then e.next.value else Begin }
  function DoneAfter(e: Effect, done: nat): nat { if e.next.Some? then done else done + 1 }

  // ---------------------------------------------------------------- every step keeps the invariant

  lemma WorkerKeepsControl(s: Slot, p: Pc, a: Answer, dialId: nat)
    requires Fits(p, a) && Streams(s, p) && Control(s, p)
    ensures var e := WorkerStep(s, p, a, dialId); Control(e.slot, PcAfter(e))
  {
    if p.PumpPush? {
      assert Pushed(s.rx, p.got) == s.rx + p.got;
    }
  }

  /** Sending part of the peeked chunk: the rest of the queue still follows the wire. */
  lemma SendKeepsStreams(s: Slot, p: Pc, a: Answer, dialId: nat)
    requires p.PumpSend? && Fits(p, a) && Streams(s, p) && Control(s, p)
    ensures var e := WorkerStep(s, p, a, dialId); Streams(e.slot, PcAfter(e))
  {
    if a.Count? {
      assert s.tx == p.chunk[..a.n] + s.tx[a.n..];
      assert s.wire + (p.chunk[..a.n] + s.tx[a.n..]) == (s.wire + p.chunk[..a.n]) + s.tx[a.n..];
    }
  }

  /** Receiving and queueing: the free space seen before the poll is still there. */
  lemma ArrivalKeepsStreams(s: Slot, p: Pc, a: Answer, dialId: nat)
    requires (p.PumpRecv? || p.PumpPush?) && Fits(p, a) && Streams(s, p) && Control(s, p)
    ensures var e := WorkerStep(s, p, a, dialId); Streams(e.slot, PcAfter(e))
  {
    if p.PumpPush? {
      assert p.got[..|p.got|] == p.got;
      assert s.taken + (s.rx + p.got) == s.taken + s.rx + p.got;
    } else if a.Data? {
      assert s.taken + s.rx + a.bytes == s.arrived + a.bytes;
    }
  }

  lemma WorkerKeepsStreams(s: Slot, p: Pc, a: Answer, dialId: nat)
    requires Fits(p, a) && Streams(s, p) && Control(s, p)
    ensures var e := WorkerStep(s, p, a, dialId); Streams(e.slot, PcAfter(e))
  {
    match p
    case PumpSend(k, chunk) => SendKeepsStreams(s, p, a, dialId);
    case PumpRecv(k) => ArrivalKeepsStreams(s, p, a, dialId);
    case PumpPush(k, got) => ArrivalKeepsStreams(s, p, a, dialId);
    case _ =>
  }

  lemma WorkerKeepsProgress(s: Slot, p: Pc, a: Answer, dialId: nat, done: nat)
    requires Fits(p, a) && SlotInv(s, p, done)
    ensures var e := WorkerStep(s, p, a, dialId); Progress(e.slot, PcAfter(e), DoneAfter(e, done))
  {
  }

  /** A visit opens at most the fresh socket, closes only one it owns, and drops none. */
  lemma WorkerConservesSockets(s: Slot, p: Pc, a: Answer, dialId: nat)
    requires Fits(p, a) && Streams(s, p) && Control(s, p)
    ensures var e := WorkerStep(s, p, a, dialId);
            && (e.closed.Some? ==> e.closed.value in Held(s, p) && !e.dialed)
            && Held(e.slot, PcAfter(e))
               == Held(s, p) + (if e.dialed then {dialId} else {}) - (if e.closed.Some? then {e.closed.value} else {})
  {
  }

  /** Only FreeSlot ends a connection, and only one that stop has flagged. */
  lemma WorkerKeepsIdentity(s: Slot, p: Pc, a: Answer, dialId: nat)
    requires Fits(p, a) && Streams(s, p) && Control(s, p)
    ensures var e := WorkerStep(s, p, a, dialId);
            && e.slot.conn == s.conn && e.slot.generation == s.generation && e.slot.flaggedAt == s.flaggedAt
            && (e.slot.inUse ==> s.inUse && e.slot.stopRequested == s.stopRequested)
            && (s.inUse && !e.slot.inUse ==> s.stopRequested)
  {
  }

  /** Control and progress do not depend on the bytes in the queues. */
  lemma QueuesApart(s: Slot, p: Pc, done: nat, rx: seq<byte>, tx: seq<byte>, accepted: seq<byte>, taken: seq<byte>)
    ensures var s' := s.(rx := rx, tx := tx, accepted := accepted, taken := taken);
            Control(s', p) == Control(s, p) && Progress(s', p, done) == Progress(s, p, done) && Held(s', p) == Held(s, p)
  {
  }

  lemma SendKeepsSlot(s: Slot, p: Pc, done: nat, data: seq<byte>)
    requires SlotInv(s, p, done) && s.inUse
    ensures SlotInv(Sent(s, data), p, done) && Held(Sent(s, data), p) == Held(s, p)
  {
    hide Control, Progress, Held, Pushed;
    var s' := Sent(s, data);
    PushedGrows(s.tx, data);
    var added := s'.tx[|s.tx|..];
    QueuesApart(s, p, done, s.rx, s'.tx, s'.accepted, s.taken);
    PrefixGrows(s.wire, s.accepted, added);
    if p.PumpDrop? {
      assert s'.tx[p.sent..] == s.tx[p.sent..] + added;
      Associates(s.wire, s.tx[p.sent..], added);
    } else {
      Associates(s.wire, s.tx, added);
      if p.PumpSend? {
        PrefixGrows(p.chunk, s.tx, added);
      }
    }
  }

  lemma PushedGrows(q: seq<byte>, data: seq<byte>)
    requires |q| <= QUEUE_SIZE
    ensures |q| <= |Pushed(q, data)| <= QUEUE_SIZE && Pushed(q, data) == q + Pushed(q, data)[|q|..]
  {
  }

  lemma PrefixGrows(a: seq<byte>, b: seq<byte>, c: seq<byte>)
    requires a <= b
    ensures a <= b + c
  {
  }

  lemma Associates(a: seq<byte>, b: seq<byte>, c: seq<byte>)
    ensures a + b + c == a + (b + c)
  {
  }

  lemma ReceiveKeepsSlot(s: Slot, p: Pc, done: nat, n: nat)
    requires SlotInv(s, p, done) && s.inUse
    ensures SlotInv(Received(s, n), p, done) && Held(Received(s, n), p) == Held(s, p)
  {
    hide Control, Progress, Held;
    var s' := Received(s, n);
    var k := Min(n, |s.rx|);
    QueuesApart(s, p, done, s'.rx, s.tx, s.accepted, s'.taken);
    assert s.rx == s.rx[..k] + s'.rx;
    assert s.taken + (s.rx[..k] + s'.rx) == s'.taken + s'.rx;
  }

  lemma StopKeepsSlot(s: Slot, p: Pc, done: nat)
    requires SlotInv(s, p, done) && s.inUse && !s.stopRequested
    ensures var s' := Flagged(s, done + (if p.Begin? then 0 else 1));
            SlotInv(s', p, done) && Held(s', p) == Held(s, p)
  {
  }

  lemma StartKeepsSlot(s: Slot, p: Pc, done: nat, conn: nat, generation: nat)
    requires SlotInv(s, p, done) && !s.inUse
    ensures p.Begin? && SlotInv(Started(s, conn, generation), p, done)
    ensures Held(Started(s, conn, generation), p) == Held(s, p) == {}
  {
  }
}

/** Eight slots, the worker and the clients; runs are arbitrary interleavings of their steps. */
module AsyncWorld {
  import opened Bytes
  import opened ByteQueues
  import opened AsyncSlots

  const SLOTS: nat := 8
  const GENERATIONS: nat := 0xFFFF_FFFF

  datatype Handle = Handle(slot: nat, generation: nat, conn: nat)

  /** A client call between its critical sections. */
  datatype Call = Sending(h: Handle, data: seq<byte>) | Receiving(h: Handle, len: nat) | Stopping(h: Handle)

  datatype World = World(
    slots: seq<Slot>, at: nat, pc: Pc, passes: nat,
    nextGeneration: nat, starts: nat, nextSocket: nat, closes: seq<nat>,
    handles: set<Handle>, calls: map<nat, Call>)

  datatype Action =
    | Worker(answer: Answer)
    | Start(slot: nat)
    | SendCheck(client: nat, h: Handle, data: seq<byte>) | SendPush(client: nat)
    | ReceiveCheck(client: nat, h: Handle, len: nat) | ReceivePop(client: nat)
    | StopFlag(client: nat, h: Handle) | StopReturn(client: nat)

  function Initial(): World {
    var free := Slot(false, false, false, false, 0, Closed, None, [], [], 0, 0, [], [], [], [], 0);
    World(seq(SLOTS, _ => free), 0, Begin, 0, 1, 0, 0, [], {}, map[])
  }

  /** NextGeneration's 32-bit counter: it wraps past zero to one. */
  function Bump(g: nat): nat {
    if g + 1 == 0x1_0000_0000 then 1 else g + 1
  }

  /** The generation of the k-th start. */
  function GenerationOf(k: nat): nat {
    1 + k % GENERATIONS
  }

  /** SnapshotHandle's test. */
  predicate Observes(w: World, h: Handle)
    requires |w.slots| == SLOTS
  {
    h.slot < SLOTS && w.slots[h.slot].inUse && w.slots[h.slot].generation == h.generation
  }

  /** Whether the connection a handle was made for still occupies its slot. */
  predicate Lives(w: World, h: Handle)
    requires |w.slots| == SLOTS
  {
    h.slot < SLOTS && w.slots[h.slot].inUse && w.slots[h.slot].conn == h.conn
  }

  function PcAt(w: World, i: nat): Pc { if w.at == i then w.pc else Begin }

  /** Complete worker visits to slot i, and visits begun. */
  function Done(w: World, i: nat): nat { w.passes + if w.at > i then 1 else 0 }
  function Begun(w: World, i: nat): nat { Done(w, i) + if PcAt(w, i).Begin? then 0 else 1 }

  function Moved(w: World, next: Option<Pc>): World {
    if next.Some? then w.(pc := next.value)
    else if w.at + 1 < SLOTS then w.(at := w.at + 1, pc := Begin)
    else w.(at := 0, pc := Begin, passes := w.passes + 1)
  }

  predicate Shape(w: World) {
    |w.slots| == SLOTS && w.at < SLOTS && forall s :: s in w.slots ==> |s.rx| <= QUEUE_SIZE && |s.tx| <= QUEUE_SIZE
  }

  predicate Enabled(w: World, a: Action) {
    Shape(w) &&
    match a
    case Worker(answer) => Fits(w.pc, answer)
    case Start(i) => i < SLOTS && !w.slots[i].inUse
    case SendCheck(c, h, data) => c !in w.calls && h in w.handles && Observes(w, h) && data != []
    case SendPush(c) => c in w.calls && w.calls[c].Sending? && w.calls[c].h.slot < SLOTS
    case ReceiveCheck(c, h, len) => c !in w.calls && h in w.handles && Observes(w, h) && len > 0
    case ReceivePop(c) => c in w.calls && w.calls[c].Receiving? && w.calls[c].h.slot < SLOTS
    // A handle is not used by another call while or after it is stopped: stop deletes it.
    case StopFlag(c, h) =>
      c !in w.calls && h in w.handles && h.slot < SLOTS && forall d :: d in w.calls ==> w.calls[d].h != h
    case StopReturn(c) => c in w.calls && w.calls[c].Stopping?
  }

  function Do(w: World, a: Action): World
    requires Enabled(w, a)
  {
    match a
    case Worker(answer) =>
      var e := WorkerStep(w.slots[w.at], w.pc, answer, w.nextSocket);
      Moved(w.(slots := w.slots[w.at := e.slot],
               nextSocket := w.nextSocket + (if e.dialed then 1 else 0),
               closes := w.closes + (if e.closed.Some? then [e.closed.value] else [])), e.next)
    case Start(i) =>
      w.(slots := w.slots[i := Started(w.slots[i], w.starts, w.nextGeneration)],
         handles := w.handles + {Handle(i, w.nextGeneration, w.starts)},
         nextGeneration := Bump(w.nextGeneration), starts := w.starts + 1)
    case SendCheck(c, h, data) => w.(calls := w.calls[c := Sending(h, data)])
    case SendPush(c) =>
      var i := w.calls[c].h.slot;
      w.(slots := w.slots[i := Sent(w.slots[i], w.calls[c].data)], calls := w.calls - {c})
    case ReceiveCheck(c, h, len) => w.(calls := w.calls[c := Receiving(h, len)])
    case ReceivePop(c) =>
      var i := w.calls[c].h.slot;
      w.(slots := w.slots[i := Received(w.slots[i], w.calls[c].len)], calls := w.calls - {c})
    case StopFlag(c, h) =>
      var s := w.slots[h.slot];
      w.(slots := if Observes(w, h) then w.slots[h.slot := Flagged(s, Begun(w, h.slot))] else w.slots,
         handles := w.handles - {h}, calls := w.calls[c := Stopping(h)])
    case StopReturn(c) => w.(calls := w.calls - {c})
  }

  /** w' is where the run `run` leads from w. */
  predicate Leads(w: World, run: seq<Action>, w': World)
    decreases |run|
  {
    if run == [] then w == w' else Enabled(w, run[0]) && Leads(Do(w, run[0]), run[1..], w')
  }

  // ---------------------------------------------------------------- the global invariant

  predicate SlotsInv(w: World)
    requires |w.slots| == SLOTS
  {
    forall i :: 0 <= i < SLOTS ==> SlotInv(w.slots[i], PcAt(w, i), Done(w, i))
  }

  function HeldAt(w: World, i: nat): set<nat>
    requires i < |w.slots|
  {
    Held(w.slots[i], PcAt(w, i))
  }

  /** Sockets 0..next were opened: each is closed exactly once or owned by exactly one slot. */
  predicate Ledger(held: seq<set<nat>>, closes: seq<nat>, next: nat) {
    && (forall i, j :: 0 <= i < j < |closes| ==> closes[i] != closes[j])
    && (forall k :: k in closes ==> k < next)
    && (forall i, k :: 0 <= i < |held| && k in held[i] ==> k < next)
    && (forall i, k :: 0 <= i < |held| && k in held[i] ==> k !in closes)
    && (forall i, j :: 0 <= i < j < |held| ==> held[i] !! held[j])
    && (forall k: nat :: k < next && k !in closes ==> exists i :: 0 <= i < |held| && k in held[i])
  }

  function HeldAll(w: World): seq<set<nat>>
    requires |w.slots| == SLOTS
  {
    seq(SLOTS, i requires 0 <= i < SLOTS => HeldAt(w, i))
  }

  predicate SocketsInv(w: World)
    requires |w.slots| == SLOTS
  {
    Ledger(HeldAll(w), w.closes, w.nextSocket)
  }

  /** Generations count the starts, live handles name live unflagged connections. */
  predicate HandlesInv(w: World)
    requires |w.slots| == SLOTS
  {
    && w.nextGeneration == GenerationOf(w.starts)
    && (forall i :: 0 <= i < SLOTS && w.slots[i].inUse ==>
          w.slots[i].conn < w.starts && w.slots[i].generation == GenerationOf(w.slots[i].conn))
    && (forall h :: h in w.handles ==>
          Lives(w, h) && h.generation == GenerationOf(h.conn) && !w.slots[h.slot].stopRequested)
    && (forall c :: c in w.calls ==>
          w.calls[c].h.generation == GenerationOf(w.calls[c].h.conn) && w.calls[c].h.conn < w.starts
          && (!w.calls[c].Stopping? ==> w.calls[c].h in w.handles))
  }

  predicate Inv(w: World) {
    Shape(w) && SlotsInv(w) && SocketsInv(w) && HandlesInv(w)
  }

  lemma InitialInv()
    ensures Inv(Initial())
  {
  }

  lemma BumpCounts(k: nat)
    ensures Bump(GenerationOf(k)) == GenerationOf(k + 1)
  {
  }

  /** Where a worker step leaves the other slots' counters and its own. */
  lemma MovedCounters(w: World, e: Effect, w': World, i: nat)
    requires w.at < SLOTS && i < SLOTS && w' == Moved(w, e.next)
    ensures i == w.at ==> PcAt(w', i) == PcAfter(e) && Done(w', i) == DoneAfter(e, Done(w, i))
    ensures i != w.at ==> PcAt(w', i) == PcAt(w, i) && Done(w', i) == Done(w, i)
  {
  }

  lemma LedgerDials(held: seq<set<nat>>, closes: seq<nat>, next: nat, i: nat)
    requires Ledger(held, closes, next) && i < |held|
    ensures Ledger(held[i := held[i] + {next}], closes, next + 1)
  {
    var held' := held[i := held[i] + {next}];
    forall k: nat | k < next + 1 && k !in closes
      ensures exists j :: 0 <= j < |held'| && k in held'[j]
    {
      if k == next {
        assert k in held'[i];
      } else {
        var j :| 0 <= j < |held| && k in held[j];
        assert k in held'[j];
      }
    }
  }

  lemma LedgerCloses(held: seq<set<nat>>, closes: seq<nat>, next: nat, i: nat, closed: nat)
    requires Ledger(held, closes, next) && i < |held| && closed in held[i]
    ensures Ledger(held[i := held[i] - {closed}], closes + [closed], next)
  {
    var held', closes' := held[i := held[i] - {closed}], closes + [closed];
    assert closed < next && closed !in closes;
    assert forall m, n :: 0 <= m < n < |closes'| ==> closes'[m] != closes'[n] by {
      assert forall m :: 0 <= m < |closes| ==> closes'[m] == closes[m] && closes[m] in closes;
    }
    forall j, k | 0 <= j < |held'| && k in held'[j]
      ensures k < next && k !in closes'
    {
      assert k in held[j];
      assert j != i ==> held[i] !! held[j];
    }
    forall k: nat | k < next && k !in closes'
      ensures exists j :: 0 <= j < |held'| && k in held'[j]
    {
      var j :| 0 <= j < |held| && k in held[j];
      assert k in held'[j];
    }
  }

  /** One slot's step, seen from the socket ledger. */
  lemma LedgerStep(held: seq<set<nat>>, closes: seq<nat>, next: nat, i: nat, dialed: bool, closed: Option<nat>)
    requires Ledger(held, closes, next) && i < |held|
    requires closed.Some? ==> closed.value in held[i] && !dialed
    ensures Ledger(held[i := held[i] + (if dialed then {next} else {}) - (if closed.Some? then {closed.value} else {})],
                   closes + (if closed.Some? then [closed.value] else []), next + if dialed then 1 else 0)
  {
    if dialed {
      LedgerDials(held, closes, next, i);
      assert held[i] + {next} - {} == held[i] + {next};
      assert closes + [] == closes;
    } else if closed.Some? {
      LedgerCloses(held, closes, next, i, closed.value);
      assert held[i] + {} - {closed.value} == held[i] - {closed.value};
    } else {
      assert held[i := held[i] + {} - {}] == held;
      assert closes + [] == closes;
    }
  }

  lemma WorkerKeepsSlots(w: World, answer: Answer)
    requires Inv(w) && Enabled(w, Worker(answer))
    ensures var w' := Do(w, Worker(answer)); Shape(w') && SlotsInv(w')
  {
    var s, p, w' := w.slots[w.at], w.pc, Do(w, Worker(answer));
    assert SlotInv(s, PcAt(w, w.at), Done(w, w.at));
    WorkerKeepsControl(s, p, answer, w.nextSocket);
    WorkerKeepsStreams(s, p, answer, w.nextSocket);
    WorkerKeepsProgress(s, p, answer, w.nextSocket, Done(w, w.at));
    forall i | 0 <= i < SLOTS
      ensures SlotInv(w'.slots[i], PcAt(w', i), Done(w', i))
    {
      WorkerVisits(w, answer, i);
    }
  }

  lemma WorkerKeepsSockets(w: World, answer: Answer)
    requires Inv(w) && Enabled(w, Worker(answer))
    ensures SocketsInv(Do(w, Worker(answer)))
  {
    var s, p, w' := w.slots[w.at], w.pc, Do(w, Worker(answer));
    var e := WorkerStep(s, p, answer, w.nextSocket);
    assert SlotInv(s, PcAt(w, w.at), Done(w, w.at));
    WorkerConservesSockets(s, p, answer, w.nextSocket);
    LedgerStep(HeldAll(w), w.closes, w.nextSocket, w.at, e.dialed, e.closed);
    forall i | 0 <= i < SLOTS
      ensures HeldAt(w', i) == if i == w.at then Held(e.slot, PcAfter(e)) else HeldAt(w, i)
    {
      WorkerVisits(w, answer, i);
    }
    assert HeldAll(w') == HeldAll(w)[w.at := Held(e.slot, PcAfter(e))];
  }

  lemma WorkerKeepsHandles(w: World, answer: Answer)
    requires Inv(w) && Enabled(w, Worker(answer))
    ensures HandlesInv(Do(w, Worker(answer)))
  {
    var s, p, w' := w.slots[w.at], w.pc, Do(w, Worker(answer));
    assert SlotInv(s, PcAt(w, w.at), Done(w, w.at));
    WorkerKeepsIdentity(s, p, answer, w.nextSocket);
    assert w'.slots == w.slots[w.at := WorkerStep(s, p, answer, w.nextSocket).slot];
  }

  lemma WorkerVisits(w: World, answer: Answer, i: nat)
    requires Enabled(w, Worker(answer)) && i < SLOTS
    ensures var e := WorkerStep(w.slots[w.at], w.pc, answer, w.nextSocket);
            var w' := Do(w, Worker(answer));
            && |w'.slots| == SLOTS
            && (i == w.at ==> w'.slots[i] == e.slot && PcAt(w', i) == PcAfter(e) && Done(w', i) == DoneAfter(e, Done(w, i)))
            && (i != w.at ==> w'.slots[i] == w.slots[i] && PcAt(w', i) == PcAt(w, i) && Done(w', i) == Done(w, i))
  {
    var e := WorkerStep(w.slots[w.at], w.pc, answer, w.nextSocket);
    var w1 := w.(slots := w.slots[w.at := e.slot],
                 nextSocket := w.nextSocket + (if e.dialed then 1 else 0),
                 closes := w.closes + (if e.closed.Some? then [e.closed.value] else []));
    MovedCounters(w1, e, Moved(w1, e.next), i);
  }

  /** A client step that rewrites one slot without touching sockets or the worker. */
  lemma SlotRewriteKeeps(w: World, w': World, i: nat)
    requires Shape(w) && SlotsInv(w) && SocketsInv(w) && i < SLOTS && |w'.slots| == SLOTS
    requires w'.at == w.at && w'.pc == w.pc && w'.passes == w.passes
    requires w'.nextSocket == w.nextSocket && w'.closes == w.closes
    requires w'.slots == w.slots[i := w'.slots[i]]
    requires SlotInv(w'.slots[i], PcAt(w, i), Done(w, i)) && Held(w'.slots[i], PcAt(w, i)) == HeldAt(w, i)
    ensures Shape(w') && SlotsInv(w') && SocketsInv(w')
  {
    forall j | 0 <= j < SLOTS
      ensures SlotInv(w'.slots[j], PcAt(w', j), Done(w', j)) && HeldAt(w', j) == HeldAt(w, j)
    {
      assert j != i ==> w'.slots[j] == w.slots[j];
    }
    assert HeldAll(w') == HeldAll(w);
  }

  lemma StartKeepsInv(w: World, i: nat)
    requires Inv(w) && Enabled(w, Start(i))
    ensures Inv(Do(w, Start(i)))
  {
    StartKeepsSlot(w.slots[i], PcAt(w, i), Done(w, i), w.starts, w.nextGeneration);
    BumpCounts(w.starts);
    SlotRewriteKeeps(w, Do(w, Start(i)), i);
  }

  lemma SendKeepsInv(w: World, c: nat)
    requires Inv(w) && Enabled(w, SendPush(c))
    ensures Inv(Do(w, SendPush(c)))
  {
    var h := w.calls[c].h;
    SendKeepsSlot(w.slots[h.slot], PcAt(w, h.slot), Done(w, h.slot), w.calls[c].data);
    SlotRewriteKeeps(w, Do(w, SendPush(c)), h.slot);
  }

  lemma ReceiveKeepsInv(w: World, c: nat)
    requires Inv(w) && Enabled(w, ReceivePop(c))
    ensures Inv(Do(w, ReceivePop(c)))
  {
    var h := w.calls[c].h;
    ReceiveKeepsSlot(w.slots[h.slot], PcAt(w, h.slot), Done(w, h.slot), w.calls[c].len);
    SlotRewriteKeeps(w, Do(w, ReceivePop(c)), h.slot);
  }

  lemma StopKeepsInv(w: World, c: nat, h: Handle)
    requires Inv(w) && Enabled(w, StopFlag(c, h))
    ensures Inv(Do(w, StopFlag(c, h)))
  {
    var w' := Do(w, StopFlag(c, h));
    StopKeepsSlot(w.slots[h.slot], PcAt(w, h.slot), Done(w, h.slot));
    SlotRewriteKeeps(w, w', h.slot);
    forall g | g in w'.handles
      ensures Lives(w', g) && g.generation == GenerationOf(g.conn) && !w'.slots[g.slot].stopRequested
    {
      assert g.slot == h.slot ==> g == h;
    }
  }

  lemma StepKeepsInv(w: World, a: Action)
    requires Inv(w) && Enabled(w, a)
    ensures Inv(Do(w, a))
  {
    match a
    case Worker(answer) =>
      WorkerKeepsSlots(w, answer);
      WorkerKeepsSockets(w, answer);
      WorkerKeepsHandles(w, answer);
    case Start(i) => StartKeepsInv(w, i);
    case SendPush(c) => SendKeepsInv(w, c);
    case ReceivePop(c) => ReceiveKeepsInv(w, c);
    case StopFlag(c, h) => StopKeepsInv(w, c, h);
    case SendCheck(c, h, _) => SlotRewriteKeeps(w, Do(w, a), h.slot);
    case ReceiveCheck(c, h, _) => SlotRewriteKeeps(w, Do(w, a), h.slot);
    case StopReturn(c) => SlotRewriteKeeps(w, Do(w, a), 0);
  }

  /** Safety over whole runs: the invariant holds in every reachable world. */
  lemma {:induction false} RunKeepsInv(w: World, run: seq<Action>, w': World)
    requires Inv(w) && Leads(w, run, w')
    ensures Inv(w')
    decreases |run|
  {
    if run != [] {
      StepKeepsInv(w, run[0]);
      RunKeepsInv(Do(w, run[0]), run[1..], w');
    }
  }

  // ---------------------------------------------------------------- whole-run theorems

  /**
   Stream integrity under every interleaving: what a socket was given is a prefix of
   what send accepted, what receive returned is a prefix of what arrived, the queues
   hold exactly the difference, and the receive path never drops a byte.
   */
  lemma StreamIntegrity(run: seq<Action>, w: World, i: nat)
    requires Leads(Initial(), run, w) && i < SLOTS
    ensures Shape(w)
    ensures var s := w.slots[i];
            && s.wire <= s.accepted && s.taken <= s.arrived && s.rxDropped == 0 && !w.pc.RxLost?
            && (s.inUse && !PcAt(w, i).PumpDrop? ==> s.accepted == s.wire + s.tx)
            && (s.inUse && !PcAt(w, i).PumpPush? ==> s.arrived == s.taken + s.rx)
  {
    InitialInv();
    RunKeepsInv(Initial(), run, w);
    assert SlotInv(w.slots[i], PcAt(w, i), Done(w, i));
    assert SlotInv(w.slots[w.at], PcAt(w, w.at), Done(w, w.at));
  }

  /**
   Socket ownership under every interleaving: no socket is closed twice, none is
   lost, two slots never share one, and FreeSlot never finds a lingering one.
   */
  lemma SocketOwnership(run: seq<Action>, w: World, i: nat)
    requires Leads(Initial(), run, w) && i < SLOTS
    ensures Shape(w)
    ensures Ledger(HeldAll(w), w.closes, w.nextSocket) && !w.pc.FreeCall?
    ensures PcAt(w, i).Begin? && w.slots[i].inUse ==>
              (w.slots[i].state.Connected? <==> w.slots[i].socket.Some?)
              && (w.slots[i].connectStarted ==> !w.slots[i].state.Connecting?)
    ensures !w.slots[i].inUse ==> HeldAt(w, i) == {}
  {
    InitialInv();
    RunKeepsInv(Initial(), run, w);
    assert SlotInv(w.slots[i], PcAt(w, i), Done(w, i));
    assert SlotInv(w.slots[w.at], PcAt(w, w.at), Done(w, w.at));
  }

  /** A connection seen after a step was there before it, and a flag on it stays. */
  lemma StepKeepsFlag(w: World, a: Action, i: nat)
    requires Inv(w) && Enabled(w, a) && i < SLOTS
    ensures var s, w' := w.slots[i], Do(w, a);
            && |w'.slots| == SLOTS && w'.starts >= w.starts
            && (w'.slots[i].inUse && w'.slots[i].conn < w.starts ==>
                  && s.inUse && s.conn == w'.slots[i].conn
                  && (s.stopRequested ==> w'.slots[i].stopRequested && w'.slots[i].flaggedAt == s.flaggedAt))
  {
    assert SlotInv(w.slots[i], PcAt(w, i), Done(w, i));
    if a.Worker? {
      WorkerVisits(w, a.answer, i);
      if i == w.at {
        WorkerKeepsIdentity(w.slots[i], w.pc, a.answer, w.nextSocket);
      }
    }
  }

  lemma {:induction false} RunKeepsFlag(w: World, run: seq<Action>, w': World, i: nat)
    requires Inv(w) && Leads(w, run, w') && i < SLOTS
    ensures Inv(w')
    ensures var s, s' := w.slots[i], w'.slots[i];
            s'.inUse && s'.conn < w.starts ==>
              && s.inUse && s.conn == s'.conn
              && (s.stopRequested ==> s'.stopRequested && s'.flaggedAt == s.flaggedAt)
    decreases |run|
  {
    if run != [] {
      StepKeepsInv(w, run[0]);
      StepKeepsFlag(w, run[0], i);
      RunKeepsFlag(Do(w, run[0]), run[1..], w', i);
    }
  }

  /**
   Bounded progress: once stop has flagged a connection, its slot is released when
   the worker has completed two visits to it, whatever the network answered. From a
   pass boundary that is two complete passes.
   */
  lemma StopReleasesSlot(w: World, run: seq<Action>, w': World, i: nat)
    requires Inv(w) && Leads(w, run, w') && i < SLOTS
    requires w.slots[i].inUse && w.slots[i].stopRequested
    requires Done(w', i) >= Begun(w, i) + 2
    ensures |w'.slots| == SLOTS && !(w'.slots[i].inUse && w'.slots[i].conn == w.slots[i].conn)
  {
    RunKeepsFlag(w, run, w', i);
    assert SlotInv(w.slots[i], PcAt(w, i), Done(w, i));
    assert SlotInv(w'.slots[i], PcAt(w', i), Done(w', i));
  }

  /** How far the worker is from the end of its visit. */
  function Rank(p: Pc): nat {
    match p
    case Begin => 14
    case ConnectEnter => 13
    case PumpEnter => 13
    case Resolving => 12
    case PumpPeek(_) => 12
    case Dialing => 11
    case PumpSend(_, _) => 11
    case Commit(_) => 10
    case PumpDrop(_, _) => 10
    case Abandon(_) => 9
    case PumpRoom(_) => 9
    case AbandonDone => 8
    case PumpPoll(_) => 8
    case PumpRecv(_) => 7
    case PumpPush(_, _) => 6
    case RxLost(_) => 5
    case RxFullSkip => 5
    case CloseEnter(_) => 4
    case FreeEnter => 4
    case CloseCall(_, _) => 3
    case CloseSet(_) => 2
    case FreeCall(_) => 1
    case ResolveFailed => 1
  }

  function Odometer(w: World): int {
    (w.passes * SLOTS + w.at) * 15 + 14 - Rank(w.pc)
  }

  lemma VisitAdvances(s: Slot, p: Pc, a: Answer, dialId: nat)
    requires Fits(p, a) && |s.rx| <= QUEUE_SIZE
    ensures var e := WorkerStep(s, p, a, dialId); e.next.Some? ==> Rank(e.next.value) < Rank(p)
  {
  }

  lemma StepAdvances(w: World, a: Action)
    requires Enabled(w, a)
    ensures Odometer(Do(w, a)) >= Odometer(w) + if a.Worker? then 1 else 0
  {
    if a.Worker? {
      VisitAdvances(w.slots[w.at], w.pc, a.answer, w.nextSocket);
    }
  }

  function WorkerSteps(run: seq<Action>): nat {
    if run == [] then 0 else (if run[0].Worker? then 1 else 0) + WorkerSteps(run[1..])
  }

  lemma {:induction false} RunAdvances(w: World, run: seq<Action>, w': World)
    requires Leads(w, run, w')
    ensures Odometer(w') >= Odometer(w) + WorkerSteps(run)
    decreases |run|
  {
    if run != [] {
      StepAdvances(w, run[0]);
      RunAdvances(Do(w, run[0]), run[1..], w');
    }
  }

  /** The same bound counted in worker steps: no visit can stall it. */
  lemma StopReleasesWithinSteps(w: World, run: seq<Action>, w': World, i: nat)
    requires Inv(w) && Leads(w, run, w') && i < SLOTS
    requires w.slots[i].inUse && w.slots[i].stopRequested
    requires WorkerSteps(run) >= 3 * SLOTS * 15
    ensures |w'.slots| == SLOTS && !(w'.slots[i].inUse && w'.slots[i].conn == w.slots[i].conn)
  {
    RunAdvances(w, run, w');
    RunKeepsInv(w, run, w');
    assert w'.passes * SLOTS + w'.at >= w.passes * SLOTS + w.at + 3 * SLOTS;
    StopReleasesSlot(w, run, w', i);
  }

  /** Any run, a stop, and any continuation in which the worker takes 360 steps. */
  lemma StopAlwaysCompletes(run: seq<Action>, w: World, c: nat, h: Handle, run': seq<Action>, w': World)
    requires Leads(Initial(), run, w) && Enabled(w, StopFlag(c, h))
    requires Leads(Do(w, StopFlag(c, h)), run', w') && WorkerSteps(run') >= 3 * SLOTS * 15
    ensures |w'.slots| == SLOTS && !Lives(w', h)
  {
    InitialInv();
    RunKeepsInv(Initial(), run, w);
    StepKeepsInv(w, StopFlag(c, h));
    StopReleasesWithinSteps(Do(w, StopFlag(c, h)), run', w', h.slot);
  }

  /**
   Exactly when stop's wait loop is looking at the connection it flagged: the
   generation test identifies connections modulo 2^32 - 1 starts.
   */
  lemma ObservationModuloGenerations(run: seq<Action>, w: World, c: nat)
    requires Leads(Initial(), run, w) && c in w.calls
    ensures |w.slots| == SLOTS
    ensures var h := w.calls[c].h;
            Observes(w, h) <==>
              h.slot < SLOTS && w.slots[h.slot].inUse && w.slots[h.slot].conn % GENERATIONS == h.conn % GENERATIONS
    ensures var h := w.calls[c].h; w.starts <= GENERATIONS ==> (Observes(w, h) <==> Lives(w, h))
  {
    InitialInv();
    RunKeepsInv(Initial(), run, w);
    var h := w.calls[c].h;
    if h.slot < SLOTS && w.slots[h.slot].inUse {
      var conn := w.slots[h.slot].conn;
      assert conn < w.starts && h.conn < w.starts;
      if w.starts <= GENERATIONS {
        SmallConnections(conn, h.conn);
      }
    }
  }

  lemma SmallConnections(a: nat, b: nat)
    requires a < GENERATIONS && b < GENERATIONS
    ensures a % GENERATIONS == b % GENERATIONS <==> a == b
  {
  }

  // ---------------------------------------------------------------- whose sockets they were

  /** The connection each socket was dialed for, and the slot each connection was started in. */
  datatype Trace = Trace(dialers: seq<nat>, places: seq<nat>)

  function Note(w: World, a: Action, t: Trace): Trace
    requires Enabled(w, a)
  {
    match a
    case Worker(answer) =>
      if WorkerStep(w.slots[w.at], w.pc, answer, w.nextSocket).dialed then t.(dialers := t.dialers + [w.slots[w.at].conn]) else t
    case Start(i) => t.(places := t.places + [i])
    case _ => t
  }

  function TraceOf(w: World, run: seq<Action>, t: Trace): Trace
    decreases |run|
  {
    if run == [] || !Enabled(w, run[0]) then t else TraceOf(Do(w, run[0]), run[1..], Note(w, run[0], t))
  }

  predicate Placed(t: Trace, conn: nat, slot: nat) {
    conn < |t.places| && t.places[conn] == slot
  }

  /** A slot holds only sockets of the connection that is in it. */
  predicate HoldsOwn(w: World, t: Trace, i: nat)
    requires i < |w.slots|
  {
    forall k :: k in HeldAt(w, i) ==> k < |t.dialers| && t.dialers[k] == w.slots[i].conn
  }

  predicate TraceInv(w: World, t: Trace)
    requires |w.slots| == SLOTS
  {
    && |t.dialers| == w.nextSocket && |t.places| == w.starts
    && (forall i :: 0 <= i < SLOTS ==> HoldsOwn(w, t, i))
    && (forall i :: 0 <= i < SLOTS && w.slots[i].inUse ==> Placed(t, w.slots[i].conn, i))
    && (forall h :: h in w.handles ==> Placed(t, h.conn, h.slot))
    && (forall c :: c in w.calls ==> Placed(t, w.calls[c].h.conn, w.calls[c].h.slot))
  }

  /** A free slot holds no socket, and no worker visit to it does. */
  lemma FreeHoldsNothing(s: Slot, p: Pc, done: nat)
    requires SlotInv(s, p, done) && !s.inUse
    ensures Held(s, p) == {}
  {
  }

  lemma WorkerKeepsOwn(w: World, answer: Answer, t: Trace, i: nat)
    requires Inv(w) && TraceInv(w, t) && Enabled(w, Worker(answer)) && i < SLOTS
    ensures |Do(w, Worker(answer)).slots| == SLOTS && HoldsOwn(Do(w, Worker(answer)), Note(w, Worker(answer), t), i)
  {
    var s, p, w' := w.slots[w.at], w.pc, Do(w, Worker(answer));
    assert SlotInv(s, PcAt(w, w.at), Done(w, w.at));
    assert HoldsOwn(w, t, i);
    hide SlotInv, Inv, WorkerStep, Held;
    var t' := Note(w, Worker(answer), t);
    WorkerVisits(w, answer, i);
    WorkerHolds(s, p, answer, w.nextSocket, Done(w, w.at));
    var e := WorkerStep(s, p, answer, w.nextSocket);
    forall k | k in HeldAt(w', i)
      ensures k < |t'.dialers| && t'.dialers[k] == w'.slots[i].conn
    {
      if i == w.at {
        assert k in Held(e.slot, PcAfter(e));
        assert k in HeldAt(w, i) || (e.dialed && k == w.nextSocket);
      } else {
        assert HeldAt(w', i) == HeldAt(w, i);
      }
    }
  }

  lemma WorkerHolds(s: Slot, p: Pc, a: Answer, dialId: nat, done: nat)
    requires Fits(p, a) && SlotInv(s, p, done)
    ensures var e := WorkerStep(s, p, a, dialId);
            && e.slot.conn == s.conn && (e.slot.inUse ==> s.inUse)
            && forall k :: k in Held(e.slot, PcAfter(e)) ==> k in Held(s, p) || (e.dialed && k == dialId)
  {
    WorkerKeepsIdentity(s, p, a, dialId);
    WorkerConservesSockets(s, p, a, dialId);
  }

  lemma WorkerKeepsTrace(w: World, answer: Answer, t: Trace)
    requires Inv(w) && TraceInv(w, t) && Enabled(w, Worker(answer))
    ensures |Do(w, Worker(answer)).slots| == SLOTS && TraceInv(Do(w, Worker(answer)), Note(w, Worker(answer), t))
  {
    var w', t' := Do(w, Worker(answer)), Note(w, Worker(answer), t);
    forall i | 0 <= i < SLOTS
      ensures HoldsOwn(w', t', i)
      ensures w'.slots[i].inUse ==> Placed(t', w'.slots[i].conn, i)
    {
      WorkerKeepsOwn(w, answer, t, i);
      WorkerVisits(w, answer, i);
      if i == w.at {
        assert SlotInv(w.slots[i], PcAt(w, i), Done(w, i));
        WorkerHolds(w.slots[i], w.pc, answer, w.nextSocket, Done(w, i));
      }
    }
  }

  lemma HeldBySocket(s: Slot, s': Slot, p: Pc)
    requires s.socket == s'.socket
    ensures Held(s, p) == Held(s', p)
  {
  }

  lemma ClientKeepsTrace(w: World, a: Action, t: Trace)
    requires Inv(w) && TraceInv(w, t) && Enabled(w, a) && !a.Worker?
    ensures |Do(w, a).slots| == SLOTS && TraceInv(Do(w, a), Note(w, a, t))
  {
    var w', t' := Do(w, a), Note(w, a, t);
    forall i | 0 <= i < SLOTS
      ensures HoldsOwn(w', t', i)
      ensures w'.slots[i].inUse ==> Placed(t', w'.slots[i].conn, i)
    {
      assert HoldsOwn(w, t, i);
      ClientKeepsHeld(w, a, i);
    }
  }

  /** No client step moves a socket, and only a start puts another connection into a slot. */
  lemma ClientKeepsHeld(w: World, a: Action, i: nat)
    requires Inv(w) && Enabled(w, a) && !a.Worker? && i < SLOTS
    ensures var w' := Do(w, a);
            && |w'.slots| == SLOTS && HeldAt(w', i) == HeldAt(w, i)
            && (a == Start(i) ==> HeldAt(w, i) == {})
            && (a != Start(i) ==> w'.slots[i].conn == w.slots[i].conn && w'.slots[i].inUse == w.slots[i].inUse)
  {
    assert SlotInv(w.slots[i], PcAt(w, i), Done(w, i));
    hide Inv, SlotInv, Held;
    var w' := Do(w, a);
    if a == Start(i) {
      StartKeepsSlot(w.slots[i], PcAt(w, i), Done(w, i), w.starts, w.nextGeneration);
    } else {
      HeldBySocket(w.slots[i], w'.slots[i], PcAt(w, i));
    }
  }

  lemma {:induction false} RunKeepsTrace(w: World, run: seq<Action>, w': World, t: Trace)
    requires Inv(w) && TraceInv(w, t) && Leads(w, run, w')
    ensures Inv(w') && TraceInv(w', TraceOf(w, run, t))
    decreases |run|
  {
    hide TraceInv, Inv, Do, Note;
    if run != [] {
      StepKeepsInv(w, run[0]);
      if run[0].Worker? {
        WorkerKeepsTrace(w, run[0].answer, t);
      } else {
        ClientKeepsTrace(w, run[0], t);
      }
      RunKeepsTrace(Do(w, run[0]), run[1..], w', Note(w, run[0], t));
    }
  }

  /** What stop's wait loop takes as completion: the slot is not observed any more, or is observed idle. */
  predicate StopSatisfied(w: World, h: Handle)
    requires |w.slots| == SLOTS
  {
    !Observes(w, h)
    || (w.slots[h.slot].socket.None? && !w.slots[h.slot].state.Connecting? && !w.slots[h.slot].state.Connected?)
  }

  /** A connection that is gone from its slot has no socket left. */
  lemma GoneMeansClosed(w: World, t: Trace, h: Handle, k: nat)
    requires Inv(w) && TraceInv(w, t) && Placed(t, h.conn, h.slot)
    requires Lives(w, h) ==> HeldAt(w, h.slot) == {}
    requires k < |t.dialers| && t.dialers[k] == h.conn
    ensures k in w.closes
  {
    if k !in w.closes {
      var i :| 0 <= i < SLOTS && k in HeldAll(w)[i];
      assert k in HeldAt(w, i) && HoldsOwn(w, t, i);
      assert SlotInv(w.slots[i], PcAt(w, i), Done(w, i));
      if !w.slots[i].inUse {
        FreeHoldsNothing(w.slots[i], PcAt(w, i), Done(w, i));
      }
      assert false;
    }
  }

  /**
   Whichever way stop's wait loop ends, every socket that was ever dialed for the
   stopped connection is closed, even one the worker was about to close, and even if a
   later connection has the slot.
   */
  lemma StopObservedMeansClosed(run: seq<Action>, w: World, c: nat, k: nat)
    requires Leads(Initial(), run, w) && |w.slots| == SLOTS && c in w.calls && StopSatisfied(w, w.calls[c].h)
    requires var t := TraceOf(Initial(), run, Trace([], [])); k < |t.dialers| && t.dialers[k] == w.calls[c].h.conn
    ensures k in w.closes
  {
    var t, h := TraceOf(Initial(), run, Trace([], [])), w.calls[c].h;
    InitialInv();
    InitialTrace();
    RunKeepsTrace(Initial(), run, w, Trace([], []));
    if Lives(w, h) {
      assert SlotInv(w.slots[h.slot], PcAt(w, h.slot), Done(w, h.slot));
    }
    GoneMeansClosed(w, t, h, k);
  }

  lemma InitialTrace()
    ensures TraceInv(Initial(), Trace([], []))
  {
  }
}
