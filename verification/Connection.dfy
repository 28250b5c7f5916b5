/**
 A live connection from its acceptance to its end (src/platform/connections.rs,
 src/runtime/connections.rs): the loop that reads the transport, the worker that
 runs the handler, the bounded queue between them, and what the hub wants sent.
 Each moves on its own; a run is any interleaving of their steps, cut at every
 point where one of them waits.
 */
module Connection {
  import opened Wrappers

  /** Frames waiting for the handler; fewer for a transport that holds back. */
  const EVENT_QUEUE: nat := 64
  const HELD_QUEUE: nat := 2
  /** Messages waiting for the transport. */
  const QUEUE: nat := 64

  type Frame = string

  datatype Event = Connect | Message(frame: Frame) | Closed

  datatype Outgoing = Send(frame: Frame) | Close

  /** Where the loop is. `ready` is past waiting for room in the queue. */
  datatype Reader =
    | Selecting(ready: bool)
    | Sending(frame: Frame)
    | Closing
    | Draining(open: bool)
    | DrainSending(frame: Frame)
    | Flushing(open: bool)
    | FlushSending(frame: Frame)
    | Joining
    | Finished

  datatype Worker = Idle | Handling(event: Event) | Gone

  /** The hub's end: what waits for the transport, all that was ever pushed, and whether it still has the sender. */
  datatype Hub = Hub(outgoing: seq<Outgoing>, pushed: seq<Outgoing>, open: bool)

  datatype Clock = Clock(now: nat, lastPong: nat, pingedAt: Option<nat>)

  /** What the transport offers: whether it holds frames back, and whether it answers pings. */
  datatype Transport = Transport(holdsBack: bool, answersPings: bool)

  datatype State = State(
    transport: Transport,
    reader: Reader,
    worker: Worker,
    registered: bool,
    received: seq<Frame>,
    queue: seq<Event>,
    seen: seq<Event>,   // what the handler was given
    lagged: bool,       // closed because the queue had no place
    hub: Hub,
    sent: seq<Frame>,
    failed: bool,       // a send to the transport failed
    senderDone: bool,
    clock: Clock
  ) {
    function Capacity(): nat {
      if transport.holdsBack then HELD_QUEUE else EVENT_QUEUE
    }

    predicate Room() {
      |queue| < Capacity()
    }

    /** The loop again: a transport that holds back waits for room first. */
    function Selects(): Reader {
      Selecting(!transport.holdsBack)
    }

    predicate InLoop() {
      reader.Selecting? || reader.Sending?
    }

    /** The loop has put its close in the queue and let go of its end. */
    predicate QueueEnded() {
      !InLoop() && !reader.Closing?
    }

    predicate AfterWorker() {
      reader.Flushing? || reader.FlushSending? || reader.Finished?
    }
  }

  /** Just accepted: the handler has seen `connect`, and may have sent something already. */
  ghost predicate Opened(s: State) {
    && s.reader == s.Selects() && s.worker == Idle && s.registered
    && s.received == [] && s.queue == [] && s.seen == [Connect] && !s.lagged
    && s.hub.pushed == s.hub.outgoing && |s.hub.outgoing| <= QUEUE
    && s.sent == [] && !s.failed && !s.senderDone
    && s.clock.pingedAt == None && s.clock.lastPong <= s.clock.now
  }

  datatype Incoming = Arrived(frame: Frame) | Pong | Ended

  /** What one check finds: whether the visitor may stay, and whether the ping went out. */
  datatype Check = Check(stays: bool, pings: bool)

  datatype Move =
    | HubPush(out: Outgoing)
    | WorkerTakes
    | WorkerDone(trapped: bool)
    | WorkerOut                  // the queue ended without a close
    | Reserve
    | Receive(incoming: Incoming)
    | LoopTakes
    | DrainTakes
    | FlushTakes
    | Sent(ok: bool)
    | Tick(check: Check)
    | Wait(later: nat)           // time passes
    | QueueClose
    | WorkerJoined

  predicate Enabled(s: State, m: Move) {
    match m
    case HubPush(_) => s.registered
    case WorkerTakes => s.worker.Idle? && s.queue != []
    case WorkerDone(_) => s.worker.Handling?
    case WorkerOut => s.worker.Idle? && s.queue == [] && s.QueueEnded()
    case Reserve => s.reader == Selecting(false) && s.Room()
    case Receive(_) => s.reader == Selecting(true)
    case LoopTakes => s.reader.Selecting? && (s.hub.outgoing != [] || !s.hub.open)
    case DrainTakes => s.reader == Draining(true) && (s.hub.outgoing != [] || !s.hub.open)
    case FlushTakes => s.reader.Flushing?
    case Sent(_) => s.reader.Sending? || s.reader.DrainSending? || s.reader.FlushSending?
    case Tick(_) => s.reader.Selecting?
    case Wait(later) => s.clock.now < later
    case QueueClose => s.reader.Closing? && s.Room()
    case WorkerJoined => s.worker.Gone? && (s.reader.Joining? || s.reader.Draining?)
  }

  /** The hub does not wait for room: where there is none it lets the connection go. */
  function Push(hub: Hub, out: Outgoing): Hub {
    if !hub.open then hub
    else if |hub.outgoing| < QUEUE then Hub(hub.outgoing + [out], hub.pushed + [out], true)
    else hub.(open := false)
  }

  /** The next message waiting, taken from the queue. */
  function Rest(hub: Hub): Hub {
    if hub.outgoing == [] then hub else hub.(outgoing := hub.outgoing[1..])
  }

  /** In the loop: cut off, told to close, or one more message to send. */
  function AfterTake(hub: Hub): Reader {
    if hub.open && hub.outgoing != [] && hub.outgoing[0].Send? then Sending(hub.outgoing[0].frame) else Closing
  }

  /** After a half-close: replies are still sent, until the close. */
  function AfterDrain(hub: Hub): Reader {
    if hub.outgoing != [] && hub.outgoing[0].Send? then DrainSending(hub.outgoing[0].frame) else Draining(false)
  }

  /** With the worker gone: what is still queued, up to the first close. */
  function AfterFlush(hub: Hub, open: bool): Reader {
    if hub.outgoing != [] && hub.outgoing[0].Send? && open then FlushSending(hub.outgoing[0].frame) else Finished
  }

  /** After a send: on with it, or no more. */
  function AfterSent(s: State, ok: bool): Reader {
    match s.reader
    case Sending(_) => if ok then s.Selects() else Closing
    case DrainSending(_) => Draining(ok)
    case _ => if ok then Flushing(true) else Finished
  }

  /** A check: the last ping unanswered, or access gone, ends the loop; else it pings. */
  function Ticked(s: State, check: Check): State {
    if s.transport.answersPings && s.clock.pingedAt.Some? && s.clock.lastPong < s.clock.pingedAt.value then
      s.(reader := Closing)
    else if !check.stays then s.(reader := Closing)
    else if !s.transport.answersPings then s.(reader := s.Selects())
    else s.(clock := s.clock.(pingedAt := Some(s.clock.now)), reader := if check.pings then s.Selects() else Closing)
  }

  /** A frame goes to the queue, without waiting; no room ends the loop. */
  function Received(s: State, incoming: Incoming): State {
    match incoming
    case Arrived(frame) =>
      if s.Room() then
        s.(received := s.received + [frame], queue := s.queue + [Message(frame)], reader := s.Selects())
      else s.(received := s.received + [frame], lagged := true, reader := Closing)
    case Pong => s.(clock := s.clock.(lastPong := s.clock.now), reader := s.Selects())
    case Ended => s.(senderDone := true, reader := Closing)
  }

  /** The registration ends, and with it what the hub sends to. */
  function Unregistered(s: State): State {
    s.(worker := Gone, registered := false, hub := s.hub.(open := false))
  }

  /** The close handled, the connection goes; a trap asks the hub to close it. */
  function Handled(s: State, trapped: bool): State
    requires s.worker.Handling?
  {
    if s.worker.event == Closed then Unregistered(s)
    else s.(worker := Idle, hub := if trapped then Push(s.hub, Close) else s.hub)
  }

  function Next(s: State, m: Move): State
    requires Enabled(s, m)
  {
    match m
    case HubPush(out) => s.(hub := Push(s.hub, out))
    case WorkerTakes =>
      s.(worker := Handling(s.queue[0]), queue := s.queue[1..], seen := s.seen + [s.queue[0]])
    case WorkerDone(trapped) => Handled(s, trapped)
    case WorkerOut => Unregistered(s)
    case Reserve => s.(reader := Selecting(true))
    case Receive(incoming) => Received(s, incoming)
    case LoopTakes => s.(reader := AfterTake(s.hub), hub := Rest(s.hub))
    case DrainTakes => s.(reader := AfterDrain(s.hub), hub := Rest(s.hub))
    case FlushTakes => s.(reader := AfterFlush(s.hub, s.reader.open), hub := Rest(s.hub))
    case Sent(ok) =>
      s.(reader := AfterSent(s, ok), sent := if ok then s.sent + [s.reader.frame] else s.sent, failed := s.failed || !ok)
    case Tick(check) => Ticked(s, check)
    case Wait(later) => s.(clock := s.clock.(now := later))
    case QueueClose =>
      s.(queue := s.queue + [Closed], reader := if s.senderDone then Draining(true) else Joining)
    case WorkerJoined => s.(reader := if s.reader.Joining? then Finished else Flushing(s.reader.open))
  }

  ghost predicate Steps(s: State, s': State) {
    exists m :: Enabled(s, m) && s' == Next(s, m)
  }

  ghost predicate IsRun(trace: seq<State>) {
    && trace != [] && Opened(trace[0])
    && forall i | 0 <= i < |trace| - 1 :: Steps(trace[i], trace[i + 1])
  }

  ghost predicate Reachable(s: State) {
    exists trace :: IsRun(trace) && trace[|trace| - 1] == s
  }

  // --- what the handler sees ---

  function Messages(frames: seq<Frame>): (events: seq<Event>)
    ensures |events| == |frames|
    ensures forall i | 0 <= i < |frames| :: events[i] == Message(frames[i])
  {
    seq(|frames|, i requires 0 <= i < |frames| => Message(frames[i]))
  }

  /** The frames that got a place in the queue: all received, or all but the one there was no room for. */
  function Queued(received: seq<Frame>, lagged: bool): seq<Frame> {
    if lagged && received != [] then received[..|received| - 1] else received
  }

  /** All the handler is ever given: `connect`, the queued frames in order, and the close if it was queued. */
  function Stream(frames: seq<Frame>, ended: bool): (events: seq<Event>)
    ensures events != [] && (ended <==> events[|events| - 1] == Closed)
    ensures forall i | 0 <= i < |events| - 1 :: events[i] != Closed
    ensures |events| == 1 + |frames| + (if ended then 1 else 0)
  {
    [Connect] + Messages(frames) + if ended then [Closed] else []
  }

  /** Seen and still to be seen are that stream. */
  ghost predicate InOrder(s: State) {
    s.seen + s.queue == Stream(Queued(s.received, s.lagged), s.QueueEnded())
  }

  ghost predicate StreamInOrder(s: State) {
    && s.seen != []
    && InOrder(s)
    && Places(s, s.seen[|s.seen| - 1])
  }

  /** Where each of the parts can be, given what the handler was last given. */
  ghost predicate Places(s: State, last: Event) {
    && (s.lagged ==> s.received != [] && !s.InLoop() && !s.transport.holdsBack)
    && (s.registered <==> !s.worker.Gone?)
    && (s.hub.open ==> s.registered)
    && (s.worker.Handling? ==> last == s.worker.event)
    && (s.worker.Idle? ==> last != Closed)
    && (s.worker.Gone? ==> s.QueueEnded() && last == Closed)
    && (s.transport.holdsBack && s.reader == Selecting(true) ==> s.Room())
    && (s.AfterWorker() ==> s.worker.Gone?)
  }

  /** The close was taken exactly when the queue ended and nothing is left in it. */
  lemma CloseIsLast(s: State)
    requires s.seen != [] && InOrder(s)
    ensures s.seen[|s.seen| - 1] == Closed <==> s.QueueEnded() && s.queue == []
  {
    var all := Stream(Queued(s.received, s.lagged), s.QueueEnded());
    assert all[|s.seen| - 1] == (s.seen + s.queue)[|s.seen| - 1] == s.seen[|s.seen| - 1];
    assert |all| == |s.seen| + |s.queue|;
  }

  function LastSeen(last: Event, s: State, m: Move): Event
    requires Enabled(s, m)
  {
    if m.WorkerTakes? then s.queue[0] else last
  }

  lemma PlacesKeepWorker(s: State, m: Move, last: Event)
    requires Places(s, last) && Enabled(s, m) && (m.WorkerTakes? || m.WorkerDone? || m.WorkerOut?)
    requires last == Closed <==> s.QueueEnded() && s.queue == []
    ensures Places(Next(s, m), LastSeen(last, s, m))
  {
  }

  lemma PlacesKeep(s: State, m: Move, last: Event)
    requires Places(s, last) && Enabled(s, m)
    requires last == Closed <==> s.QueueEnded() && s.queue == []
    ensures Places(Next(s, m), LastSeen(last, s, m))
  {
    if m.WorkerTakes? || m.WorkerDone? || m.WorkerOut? {
      PlacesKeepWorker(s, m, last);
    }
  }

  lemma StreamGrows(received: seq<Frame>, frame: Frame)
    ensures Stream(Queued(received + [frame], false), false) == Stream(Queued(received, false), false) + [Message(frame)]
    ensures Queued(received + [frame], true) == Queued(received, false)
  {
    assert Messages(received + [frame]) == Messages(received) + [Message(frame)];
  }

  lemma OrderKeepsReceiving(s: State, incoming: Incoming)
    requires InOrder(s) && s.InLoop() && !s.lagged
    ensures InOrder(Received(s, incoming))
  {
    var s' := Received(s, incoming);
    if incoming.Arrived? {
      StreamGrows(s.received, incoming.frame);
      if s.Room() {
        assert s'.seen + s'.queue == s.seen + s.queue + [Message(incoming.frame)];
      }
    }
  }

  lemma OrderKeepsClosing(s: State)
    requires InOrder(s) && Enabled(s, QueueClose)
    ensures InOrder(Next(s, QueueClose))
  {
    var s' := Next(s, QueueClose);
    assert s'.seen + s'.queue == s.seen + s.queue + [Closed];
  }

  lemma LeftAloneByWorker(s: State, m: Move)
    requires Enabled(s, m) && (m.WorkerTakes? || m.WorkerDone? || m.WorkerOut? || m.HubPush? || m.Wait?)
    ensures Next(s, m).received == s.received && Next(s, m).lagged == s.lagged && Next(s, m).reader == s.reader
    ensures !m.WorkerTakes? ==> Next(s, m).seen == s.seen && Next(s, m).queue == s.queue
  {
  }

  lemma LeftAloneByLoop(s: State, m: Move)
    requires Enabled(s, m) && (m.Reserve? || m.LoopTakes? || m.Tick?)
    ensures Next(s, m).received == s.received && Next(s, m).lagged == s.lagged
    ensures Next(s, m).seen == s.seen && Next(s, m).queue == s.queue
    ensures Next(s, m).QueueEnded() == s.QueueEnded()
  {
  }

  lemma LeftAloneByEnding(s: State, m: Move)
    requires Enabled(s, m) && (m.DrainTakes? || m.FlushTakes? || m.Sent? || m.WorkerJoined?)
    ensures Next(s, m).received == s.received && Next(s, m).lagged == s.lagged
    ensures Next(s, m).seen == s.seen && Next(s, m).queue == s.queue
    ensures Next(s, m).QueueEnded() == s.QueueEnded()
  {
  }

  /** The other moves leave the stream as it was. */
  lemma StreamLeftAlone(s: State, m: Move)
    requires Enabled(s, m) && !m.Receive? && !m.QueueClose?
    ensures Next(s, m).received == s.received && Next(s, m).lagged == s.lagged
    ensures Next(s, m).QueueEnded() == s.QueueEnded()
    ensures !m.WorkerTakes? ==> Next(s, m).seen == s.seen && Next(s, m).queue == s.queue
  {
    if m.WorkerTakes? || m.WorkerDone? || m.WorkerOut? || m.HubPush? || m.Wait? {
      LeftAloneByWorker(s, m);
    } else if m.Reserve? || m.LoopTakes? || m.Tick? {
      LeftAloneByLoop(s, m);
    } else {
      LeftAloneByEnding(s, m);
    }
  }

  lemma OrderKeepsElsewhere(s: State, m: Move)
    requires InOrder(s) && Enabled(s, m) && !m.Receive? && !m.QueueClose?
    ensures InOrder(Next(s, m))
  {
    StreamLeftAlone(s, m);
    assert m.WorkerTakes? ==> (s.seen + [s.queue[0]]) + s.queue[1..] == s.seen + s.queue;
  }

  lemma OrderKeeps(s: State, m: Move)
    requires InOrder(s) && Enabled(s, m) && (s.lagged ==> !s.InLoop())
    ensures InOrder(Next(s, m))
  {
    if m.Receive? {
      OrderKeepsReceiving(s, m.incoming);
    } else if m.QueueClose? {
      OrderKeepsClosing(s);
    } else {
      OrderKeepsElsewhere(s, m);
    }
  }

  lemma SeenGrows(s: State, m: Move)
    requires Enabled(s, m)
    ensures Next(s, m).seen == s.seen + if m.WorkerTakes? then [LastSeen(Closed, s, m)] else []
  {
    if !m.WorkerTakes? && !m.Receive? && !m.QueueClose? {
      StreamLeftAlone(s, m);
    }
  }

  lemma LastIs(s: State, m: Move)
    requires s.seen != [] && Enabled(s, m)
    ensures var seen := Next(s, m).seen; seen != [] && seen[|seen| - 1] == LastSeen(s.seen[|s.seen| - 1], s, m)
  {
    SeenGrows(s, m);
  }

  lemma StreamKeeps(s: State, m: Move)
    requires StreamInOrder(s) && Enabled(s, m)
    ensures StreamInOrder(Next(s, m))
  {
    CloseIsLast(s);
    PlacesKeep(s, m, s.seen[|s.seen| - 1]);
    OrderKeeps(s, m);
    LastIs(s, m);
  }

  lemma OpenedInOrder(s: State)
    requires Opened(s) && (s.hub.open ==> s.registered)
    ensures StreamInOrder(s) && RepliesInOrder(s)
  {
    assert s.seen + s.queue == [Connect] == Stream([], false);
  }

  lemma {:induction false} RunsInOrder(trace: seq<State>)
    requires IsRun(trace)
    ensures StreamInOrder(trace[|trace| - 1]) && RepliesInOrder(trace[|trace| - 1])
  {
    var n := |trace| - 1;
    if n == 0 {
      OpenedInOrder(trace[0]);
    } else {
      RunsInOrder(trace[..n]);
      assert Steps(trace[n - 1], trace[n]);
      var m :| Enabled(trace[n - 1], m) && trace[n] == Next(trace[n - 1], m);
      StreamKeeps(trace[n - 1], m);
      RepliesKeep(trace[n - 1], m);
    }
  }

  lemma ReachedInOrder(s: State)
    requires Reachable(s)
    ensures StreamInOrder(s) && RepliesInOrder(s)
  {
    var trace :| IsRun(trace) && trace[|trace| - 1] == s;
    RunsInOrder(trace);
  }

  /** `connect`, the first `n` frames received, and perhaps one close. */
  ghost predicate SeenUpTo(seen: seq<Event>, received: seq<Frame>, n: nat) {
    && n <= |received|
    && (|| seen == [Connect] + Messages(received[..n])
        || seen == [Connect] + Messages(received[..n]) + [Closed])
  }

  lemma StartOfStream(seen: seq<Event>, received: seq<Frame>, frames: seq<Frame>, ended: bool)
    requires seen != [] && seen <= Stream(frames, ended) && frames <= received
    ensures exists n: nat :: SeenUpTo(seen, received, n)
  {
    if |seen| <= 1 + |frames| {
      var n := |seen| - 1;
      assert received[..n] == frames[..n];
      assert seen == [Connect] + Messages(frames[..n]);
      assert SeenUpTo(seen, received, n);
    } else {
      assert seen == Stream(frames, ended);
      assert received[..|frames|] == frames;
      assert SeenUpTo(seen, received, |frames|);
    }
  }

  /**
   In every interleaving the handler sees `connect`, then a prefix of the frames
   received, in the order they came, then at most one close with nothing after
   it; and the registration goes only once that close was handled.
   */
  lemma HandlerSeesEverythingInOrder(s: State)
    requires Reachable(s)
    ensures exists n: nat :: SeenUpTo(s.seen, s.received, n)
    ensures !s.registered ==> s.seen != [] && s.seen[|s.seen| - 1] == Closed && s.worker.Gone?
  {
    ReachedInOrder(s);
    assert s.seen <= s.seen + s.queue;
    StartOfStream(s.seen, s.received, Queued(s.received, s.lagged), s.QueueEnded());
  }

  /**
   However the loop ended, once it has finished the handler saw every frame that
   was queued and then exactly one close: all that was received, unless there
   was no room for the last one. A transport that holds back never comes to that.
   */
  lemma FinishedSawEverything(s: State)
    requires Reachable(s) && s.reader.Finished?
    ensures !s.registered
    ensures !s.lagged ==> s.seen == [Connect] + Messages(s.received) + [Closed]
    ensures s.lagged ==> !s.transport.holdsBack && s.received != []
                         && s.seen == [Connect] + Messages(s.received[..|s.received| - 1]) + [Closed]
  {
    ReachedInOrder(s);
    CloseIsLast(s);
    assert s.seen + s.queue == s.seen;
  }

  /** A transport that holds back is never closed for lag: the room it waited for is still there. */
  lemma HoldingBackNeverLags(s: State)
    requires Reachable(s) && s.transport.holdsBack
    ensures !s.lagged
    ensures s.reader == Selecting(true) ==> s.Room()
  {
    ReachedInOrder(s);
  }

  // --- what the other side is sent ---

  function Sends(frames: seq<Frame>): (out: seq<Outgoing>)
    ensures |out| == |frames|
    ensures forall i | 0 <= i < |frames| :: out[i] == Send(frames[i])
  {
    seq(|frames|, i requires 0 <= i < |frames| => Send(frames[i]))
  }

  /** The messages ahead of the first close. */
  function AheadOfClose(out: seq<Outgoing>): seq<Outgoing> {
    if out == [] || out[0].Close? then [] else [out[0]] + AheadOfClose(out[1..])
  }

  lemma {:induction false} AheadOfSends(frames: seq<Frame>, out: seq<Outgoing>)
    requires Sends(frames) <= out && (|frames| < |out| ==> out[|frames|] == Close)
    ensures AheadOfClose(out) == Sends(frames)
  {
    if frames == [] {
      assert Sends(frames) == [];
    } else {
      assert out[0] == Sends(frames)[0];
      AheadOfSends(frames[1..], out[1..]);
      assert Sends(frames) == [Send(frames[0])] + Sends(frames[1..]);
    }
  }

  /** What was sent is all there is ahead of the first close, and no more will be pushed ahead of it. */
  ghost predicate AllSent(sent: seq<Frame>, hub: Hub) {
    && Sends(sent) <= hub.pushed
    && (if |sent| < |hub.pushed| then hub.pushed[|sent|] == Close else !hub.open)
  }

  /** All that was pushed is what was sent, what is being sent, and what waits. */
  ghost predicate SentSoFar(sent: seq<Frame>, sending: seq<Outgoing>, hub: Hub) {
    hub.pushed == Sends(sent) + sending + hub.outgoing
  }

  /** In the loop, and after a half-close until a send fails, nothing taken is lost. */
  ghost predicate RepliesInOrder(s: State) {
    && (s.InLoop() ==> !s.failed && !s.senderDone)
    && (s.InLoop() || (s.senderDone && !s.failed) ==> Replied(s.reader, s.sent, s.hub))
  }

  ghost predicate Replied(reader: Reader, sent: seq<Frame>, hub: Hub) {
    match reader
    case Selecting(_) => SentSoFar(sent, [], hub)
    case Sending(frame) => SentSoFar(sent, [Send(frame)], hub)
    case Closing => SentSoFar(sent, [], hub)
    case Draining(open) => if open then SentSoFar(sent, [], hub) else AllSent(sent, hub)
    case DrainSending(frame) => SentSoFar(sent, [Send(frame)], hub)
    case Flushing(open) => !hub.open && (if open then SentSoFar(sent, [], hub) else AllSent(sent, hub))
    case FlushSending(frame) => !hub.open && SentSoFar(sent, [Send(frame)], hub)
    case Joining => false
    case Finished => AllSent(sent, hub)
  }

  lemma PushKeeps(reader: Reader, sent: seq<Frame>, hub: Hub, out: Outgoing)
    requires Replied(reader, sent, hub)
    ensures Replied(reader, sent, Push(hub, out))
  {
    var grown := Hub(hub.outgoing + [out], hub.pushed + [out], true);
    forall sending | SentSoFar(sent, sending, hub)
      ensures SentSoFar(sent, sending, grown)
    {
      assert Sends(sent) + sending + (hub.outgoing + [out]) == Sends(sent) + sending + hub.outgoing + [out];
    }
  }

  lemma RestKeeps(sent: seq<Frame>, hub: Hub)
    requires SentSoFar(sent, [], hub)
    ensures hub.outgoing != [] ==> SentSoFar(sent, [hub.outgoing[0]], Rest(hub))
    ensures hub.outgoing != [] && hub.outgoing[0].Close? ==> AllSent(sent, Rest(hub))
    ensures hub.outgoing == [] && !hub.open ==> AllSent(sent, Rest(hub))
  {
    if hub.outgoing != [] {
      assert hub.outgoing == [hub.outgoing[0]] + hub.outgoing[1..];
      assert Sends(sent) + [hub.outgoing[0]] + hub.outgoing[1..] == Sends(sent) + hub.outgoing;
    }
  }

  lemma SentOne(sent: seq<Frame>, frame: Frame, hub: Hub)
    requires SentSoFar(sent, [Send(frame)], hub)
    ensures SentSoFar(sent + [frame], [], hub)
  {
    assert Sends(sent + [frame]) == Sends(sent) + [Send(frame)];
  }

  lemma RepliesKeepTaking(s: State, m: Move)
    requires RepliesInOrder(s) && Enabled(s, m) && (m.LoopTakes? || m.DrainTakes? || m.FlushTakes?)
    ensures RepliesInOrder(Next(s, m))
  {
    if SentSoFar(s.sent, [], s.hub) {
      RestKeeps(s.sent, s.hub);
    }
  }

  lemma RepliesKeepSending(s: State, ok: bool)
    requires RepliesInOrder(s) && Enabled(s, Sent(ok))
    ensures RepliesInOrder(Next(s, Sent(ok)))
  {
    if SentSoFar(s.sent, [Send(s.reader.frame)], s.hub) {
      SentOne(s.sent, s.reader.frame, s.hub);
    }
  }

  lemma RepliesKeepPushing(s: State, m: Move)
    requires RepliesInOrder(s) && Enabled(s, m) && (m.HubPush? || m.WorkerDone? || m.WorkerOut?)
    ensures RepliesInOrder(Next(s, m))
  {
    if Replied(s.reader, s.sent, s.hub) {
      PushKeeps(s.reader, s.sent, s.hub, Close);
      if m.HubPush? {
        PushKeeps(s.reader, s.sent, s.hub, m.out);
      }
    }
  }

  lemma RepliesKeep(s: State, m: Move)
    requires StreamInOrder(s) && RepliesInOrder(s) && Enabled(s, m)
    ensures RepliesInOrder(Next(s, m))
  {
    if m.HubPush? || m.WorkerDone? || m.WorkerOut? {
      RepliesKeepPushing(s, m);
    } else if m.LoopTakes? || m.DrainTakes? || m.FlushTakes? {
      RepliesKeepTaking(s, m);
    } else if m.Sent? {
      RepliesKeepSending(s, m.ok);
    }
  }

  /**
   After a half-close everything queued ahead of the first close is sent, in
   order, unless the transport fails.
   */
  lemma RepliesAreSent(s: State)
    requires Reachable(s) && s.reader.Finished? && s.senderDone && !s.failed
    ensures Sends(s.sent) == AheadOfClose(s.hub.pushed)
  {
    ReachedInOrder(s);
    AheadOfSends(s.sent, s.hub.pushed);
  }

  /** After the loop only a half-closed connection sends, and only while no send has failed. */
  ghost predicate OpenToSend(s: State) {
    && (s.reader.Draining? || s.reader.DrainSending? || s.reader.Flushing? || s.reader.FlushSending? ==> s.senderDone)
    && (s.InLoop() || (s.reader.Closing? && s.senderDone) ==> !s.failed)
    && (s.reader.DrainSending? || s.reader.FlushSending? || s.reader == Draining(true) || s.reader == Flushing(true) ==> !s.failed)
  }

  ghost predicate SendsWhileOpen(s: State) {
    OpenToSend(s) && Sends(s.sent) <= s.hub.pushed
  }

  lemma OpenToSendKeeps(s: State, m: Move)
    requires RepliesInOrder(s) && OpenToSend(s) && Enabled(s, m)
    ensures OpenToSend(Next(s, m))
  {
  }

  lemma SentIsPushed(s: State, m: Move)
    requires RepliesInOrder(s) && SendsWhileOpen(s) && Enabled(s, m)
    ensures Sends(Next(s, m).sent) <= Next(s, m).hub.pushed
  {
    PushedGrows(s, m);
    if m.Sent? {
      if m.ok {
        assert SentSoFar(s.sent, [Send(s.reader.frame)], s.hub);
        SentOne(s.sent, s.reader.frame, s.hub);
      }
    } else {
      SentOnlyBySending(s, m);
    }
  }

  lemma SentOnlyBySending(s: State, m: Move)
    requires Enabled(s, m) && !m.Sent?
    ensures Next(s, m).sent == s.sent
  {
  }

  lemma SendsWhileOpenKeeps(s: State, m: Move)
    requires RepliesInOrder(s) && SendsWhileOpen(s) && Enabled(s, m)
    ensures SendsWhileOpen(Next(s, m))
  {
    OpenToSendKeeps(s, m);
    SentIsPushed(s, m);
  }

  lemma PushedByHandler(s: State, m: Move)
    requires Enabled(s, m) && (m.HubPush? || m.WorkerTakes? || m.WorkerDone? || m.WorkerOut? || m.Wait?)
    ensures s.hub.pushed <= Next(s, m).hub.pushed
  {
  }

  lemma PushedByLoop(s: State, m: Move)
    requires Enabled(s, m) && (m.Reserve? || m.Receive? || m.LoopTakes? || m.Tick?)
    ensures s.hub.pushed <= Next(s, m).hub.pushed
  {
  }

  lemma PushedByEnding(s: State, m: Move)
    requires Enabled(s, m) && (m.DrainTakes? || m.FlushTakes? || m.Sent? || m.QueueClose? || m.WorkerJoined?)
    ensures s.hub.pushed <= Next(s, m).hub.pushed
  {
  }

  lemma PushedGrows(s: State, m: Move)
    requires Enabled(s, m)
    ensures s.hub.pushed <= Next(s, m).hub.pushed
  {
    if m.HubPush? || m.WorkerTakes? || m.WorkerDone? || m.WorkerOut? || m.Wait? {
      PushedByHandler(s, m);
    } else if m.Reserve? || m.Receive? || m.LoopTakes? || m.Tick? {
      PushedByLoop(s, m);
    } else {
      PushedByEnding(s, m);
    }
  }

  lemma {:induction false} RunsSendInOrder(trace: seq<State>)
    requires IsRun(trace)
    ensures SendsWhileOpen(trace[|trace| - 1])
  {
    var n := |trace| - 1;
    if n > 0 {
      RunsSendInOrder(trace[..n]);
      RunsInOrder(trace[..n]);
      assert Steps(trace[n - 1], trace[n]);
      var m :| Enabled(trace[n - 1], m) && trace[n] == Next(trace[n - 1], m);
      SendsWhileOpenKeeps(trace[n - 1], m);
    }
  }

  /**
   However it goes, what was sent is what was pushed first, in order: nothing is
   sent twice or left out, and nothing pushed after a close is ever sent.
   */
  lemma SentIsWhatWasPushedFirst(s: State)
    requires Reachable(s)
    ensures Sends(s.sent) <= s.hub.pushed
    ensures forall i | 0 <= i < |s.hub.pushed| && s.hub.pushed[i] == Close :: |s.sent| <= i
  {
    var trace :| IsRun(trace) && trace[|trace| - 1] == s;
    RunsSendInOrder(trace);
    assert forall i | 0 <= i < |s.sent| :: s.hub.pushed[i] == Sends(s.sent)[i];
  }

  /** What is sent to a connection is queued exactly while fewer than sixty-four messages wait; with that many it is let go. */
  lemma FallingBehindLetsGo(s: State, out: Outgoing)
    requires s.registered
    ensures var hub := Next(s, HubPush(out)).hub;
            && (hub.pushed == s.hub.pushed + [out] <==> s.hub.open && |s.hub.outgoing| < 64)
            && (hub.open <==> s.hub.open && |s.hub.outgoing| < 64)
            && (hub.open ==> hub.outgoing == s.hub.outgoing + [out])
  {
  }

  /** A handler that trapped has the connection closed: a close is pushed, or the hub has let go of it. */
  lemma TrapsClose(s: State, trapped: bool)
    requires Enabled(s, WorkerDone(trapped)) && s.worker.event != Closed
    ensures var hub := Next(s, WorkerDone(trapped)).hub;
            if trapped then !hub.open || hub.pushed == s.hub.pushed + [Close] else hub == s.hub
    ensures Next(s, WorkerDone(trapped)).registered == s.registered
  {
  }

  // --- what ends the loop ---

  /** The last ping went out after the last pong came. */
  predicate Unanswered(clock: Clock) {
    clock.pingedAt.Some? && clock.lastPong < clock.pingedAt.value
  }

  /** All it is given up for: the other side ended, no place in the queue, closed or cut off, a failed send, a check. */
  predicate EndsLoop(s: State, m: Move) {
    || m == Receive(Ended)
    || (m.Receive? && m.incoming.Arrived? && |s.queue| >= (if s.transport.holdsBack then 2 else 64))
    || (m.LoopTakes? && (!s.hub.open || s.hub.outgoing == [] || s.hub.outgoing[0] == Close))
    || m == Sent(false)
    || (m.Tick? && !m.check.stays)
    || (m.Tick? && s.transport.answersPings && (Unanswered(s.clock) || !m.check.pings))
  }

  /** The loop is left for one of those, and for each of them. */
  lemma LoopEndsExactly(s: State, m: Move)
    requires Enabled(s, m) && s.InLoop()
    ensures !Next(s, m).InLoop() <==> EndsLoop(s, m)
    ensures !Next(s, m).InLoop() ==> Next(s, m).reader == Closing
  {
  }

  // --- checks over a run ---

  ghost predicate StepsBy(s: State, m: Move, s': State) {
    Enabled(s, m) && s' == Next(s, m)
  }

  /** A run with its moves. */
  ghost predicate IsMoves(trace: seq<State>, moves: seq<Move>) {
    && |trace| == |moves| + 1 && Opened(trace[0])
    && forall i | 0 <= i < |moves| :: StepsBy(trace[i], moves[i], trace[i + 1])
  }

  /** A check at step `i`, which pings. */
  ghost predicate ChecksAt(moves: seq<Move>, i: int) {
    0 <= i < |moves| && moves[i].Tick?
  }

  /** A pong at step `i`, or the opening, at `at`. */
  ghost predicate HeardAt(trace: seq<State>, moves: seq<Move>, i: int, at: int) {
    if i < 0 then i == -1 && trace != [] && at == trace[0].clock.lastPong
    else i < |moves| && i < |trace| && moves[i] == Receive(Pong) && at == trace[i].clock.now
  }

  /** A check was made since which nothing was heard. */
  ghost predicate PingUnanswered(trace: seq<State>, moves: seq<Move>)
    requires |trace| == |moves| + 1
  {
    exists i :: ChecksAt(moves, i) && forall j, at :: HeardAt(trace, moves, j, at) ==> at < trace[i].clock.now
  }

  /** The clock knows the last of all that was heard, and of the checks. */
  ghost predicate ClockKnows(trace: seq<State>, moves: seq<Move>, clock: Clock)
    requires |trace| == |moves| + 1
  {
    && (exists j :: HeardAt(trace, moves, j, clock.lastPong))
    && (forall j, at :: HeardAt(trace, moves, j, at) ==> at <= clock.lastPong)
    && (forall i :: ChecksAt(moves, i) ==> clock.pingedAt.Some? && trace[i].clock.now <= clock.pingedAt.value)
    && (clock.pingedAt.Some? ==> exists i :: ChecksAt(moves, i) && trace[i].clock.now == clock.pingedAt.value)
  }

  lemma {:induction false} ClocksKnow(trace: seq<State>, moves: seq<Move>)
    requires IsMoves(trace, moves) && trace[0].transport.answersPings
    ensures var s := trace[|moves|];
            && s.transport == trace[0].transport && s.clock.lastPong <= s.clock.now
            && (s.clock.pingedAt.Some? ==> s.clock.pingedAt.value <= s.clock.now)
            && (s.InLoop() ==> ClockKnows(trace, moves, s.clock))
  {
    var n := |moves|;
    if n == 0 {
      assert HeardAt(trace, moves, -1, trace[0].clock.lastPong);
    } else {
      var trace0, moves0 := trace[..n], moves[..n - 1];
      ClocksKnow(trace0, moves0);
      assert StepsBy(trace[n - 1], moves[n - 1], trace[n]);
      ClockSteps(trace[n - 1], moves[n - 1]);
      if trace[n].InLoop() {
        KnowsOneMore(trace, moves);
      }
    }
  }

  lemma HeardBefore(trace: seq<State>, moves: seq<Move>, j: int, at: int)
    requires |trace| == |moves| + 1 && |moves| > 0
    ensures var n := |moves|;
            HeardAt(trace, moves, j, at) <==>
            HeardAt(trace[..n], moves[..n - 1], j, at)
            || (j == n - 1 && moves[n - 1] == Receive(Pong) && at == trace[n - 1].clock.now)
  {
  }

  lemma KnowsOneMore(trace: seq<State>, moves: seq<Move>)
    requires |moves| > 0 && |trace| == |moves| + 1
    requires var n := |moves|; StepsBy(trace[n - 1], moves[n - 1], trace[n]) && trace[n].InLoop()
    requires var s := trace[|moves| - 1];
             && s.transport.answersPings && s.clock.lastPong <= s.clock.now
             && (s.clock.pingedAt.Some? ==> s.clock.pingedAt.value <= s.clock.now)
             && ClockKnows(trace[..|moves|], moves[..|moves| - 1], s.clock)
    ensures ClockKnows(trace, moves, trace[|moves|].clock)
  {
    HeardStays(trace, moves);
    ChecksStay(trace, moves);
  }

  lemma HeardStays(trace: seq<State>, moves: seq<Move>)
    requires |moves| > 0 && |trace| == |moves| + 1
    requires var n := |moves|; StepsBy(trace[n - 1], moves[n - 1], trace[n])
    requires var s := trace[|moves| - 1];
             s.clock.lastPong <= s.clock.now && ClockKnows(trace[..|moves|], moves[..|moves| - 1], s.clock)
    ensures var last := trace[|moves|].clock.lastPong;
            && (exists j :: HeardAt(trace, moves, j, last))
            && (forall j, at :: HeardAt(trace, moves, j, at) ==> at <= last)
  {
    var n := |moves|;
    ClockSteps(trace[n - 1], moves[n - 1]);
    forall j, at ensures HeardAt(trace, moves, j, at) <==>
            HeardAt(trace[..n], moves[..n - 1], j, at)
            || (j == n - 1 && moves[n - 1] == Receive(Pong) && at == trace[n - 1].clock.now)
    {
      HeardBefore(trace, moves, j, at);
    }
    if moves[n - 1] == Receive(Pong) {
      assert HeardAt(trace, moves, n - 1, trace[n - 1].clock.now);
    } else {
      var j :| HeardAt(trace[..n], moves[..n - 1], j, trace[n - 1].clock.lastPong);
      assert HeardAt(trace, moves, j, trace[n].clock.lastPong);
    }
  }

  lemma ChecksStay(trace: seq<State>, moves: seq<Move>)
    requires |moves| > 0 && |trace| == |moves| + 1
    requires var n := |moves|; StepsBy(trace[n - 1], moves[n - 1], trace[n]) && trace[n].InLoop()
    requires var s := trace[|moves| - 1];
             && s.transport.answersPings
             && (s.clock.pingedAt.Some? ==> s.clock.pingedAt.value <= s.clock.now)
             && ClockKnows(trace[..|moves|], moves[..|moves| - 1], s.clock)
    ensures var pinged := trace[|moves|].clock.pingedAt;
            && (forall i :: ChecksAt(moves, i) ==> pinged.Some? && trace[i].clock.now <= pinged.value)
            && (pinged.Some? ==> exists i :: ChecksAt(moves, i) && trace[i].clock.now == pinged.value)
  {
    var n := |moves|;
    ClockSteps(trace[n - 1], moves[n - 1]);
    forall i ensures ChecksAt(moves, i) <==> ChecksAt(moves[..n - 1], i) || (i == n - 1 && moves[n - 1].Tick?) {
    }
    if moves[n - 1].Tick? {
      assert ChecksAt(moves, n - 1);
    } else if trace[n].clock.pingedAt.Some? {
      var i :| ChecksAt(moves[..n - 1], i) && trace[..n][i].clock.now == trace[n - 1].clock.pingedAt.value;
      assert ChecksAt(moves, i);
    }
  }

  ghost predicate ClockStep(s: State, m: Move, s': State) {
    && s'.transport == s.transport && s'.clock.now == (if m.Wait? then m.later else s.clock.now)
    && s'.clock.lastPong == (if m == Receive(Pong) then s.clock.now else s.clock.lastPong)
    && (!m.Tick? ==> s'.clock.pingedAt == s.clock.pingedAt)
    && (s'.InLoop() ==> s.InLoop())
    && (m.Tick? && s'.InLoop() && s.transport.answersPings ==> s'.clock.pingedAt == Some(s.clock.now))
    && (s'.clock.pingedAt == s.clock.pingedAt || s'.clock.pingedAt == Some(s.clock.now))
  }

  lemma ClockStepsInLoop(s: State, m: Move)
    requires Enabled(s, m) && (m.Reserve? || m.Receive? || m.LoopTakes? || m.Tick?)
    ensures ClockStep(s, m, Next(s, m))
  {
  }

  lemma ClockStepsElsewhere(s: State, m: Move)
    requires Enabled(s, m) && (m.HubPush? || m.WorkerTakes? || m.WorkerDone? || m.WorkerOut? || m.Wait?)
    ensures ClockStep(s, m, Next(s, m))
  {
  }

  lemma ClockStepsEnding(s: State, m: Move)
    requires Enabled(s, m) && (m.DrainTakes? || m.FlushTakes? || m.Sent? || m.QueueClose? || m.WorkerJoined?)
    ensures ClockStep(s, m, Next(s, m))
  {
  }

  /** What a move does to the clock. */
  lemma ClockSteps(s: State, m: Move)
    requires Enabled(s, m)
    ensures ClockStep(s, m, Next(s, m))
  {
    if m.Reserve? || m.Receive? || m.LoopTakes? || m.Tick? {
      ClockStepsInLoop(s, m);
    } else if m.HubPush? || m.WorkerTakes? || m.WorkerDone? || m.WorkerOut? || m.Wait? {
      ClockStepsElsewhere(s, m);
    } else {
      ClockStepsEnding(s, m);
    }
  }

  /**
   In every run, a check leaves the connection up exactly when the visitor may
   stay and, on a transport that answers pings, the ping went out and there is no
   check behind it since which no pong came.
   */
  lemma ChecksKeepExactly(trace: seq<State>, moves: seq<Move>, check: Check)
    requires IsMoves(trace, moves) && trace[|moves|].reader.Selecting?
    ensures Next(trace[|moves|], Tick(check)).InLoop() <==>
            check.stays && (trace[0].transport.answersPings ==> check.pings && !PingUnanswered(trace, moves))
  {
    TransportStays(trace, moves);
    if trace[0].transport.answersPings {
      ClocksKnow(trace, moves);
      UnansweredIs(trace, moves, trace[|moves|].clock);
    }
  }

  lemma EndsStay(s: State, m: Move)
    requires Enabled(s, m)
    ensures Next(s, m).senderDone <==> s.senderDone || m == Receive(Ended)
  {
  }

  /** A connection counts as half-closed, its replies still to be sent, exactly once the other side has ended. */
  lemma {:induction false} HalfClosedExactly(trace: seq<State>, moves: seq<Move>)
    requires IsMoves(trace, moves)
    ensures trace[|moves|].senderDone <==> exists k :: 0 <= k < |moves| && moves[k] == Receive(Ended)
  {
    var n := |moves|;
    if n > 0 {
      HalfClosedExactly(trace[..n], moves[..n - 1]);
      assert StepsBy(trace[n - 1], moves[n - 1], trace[n]);
      EndsStay(trace[n - 1], moves[n - 1]);
      assert forall k | 0 <= k < n - 1 :: moves[..n - 1][k] == moves[k];
    }
  }

  /** So between two checks that left such a connection up something was heard, no earlier than the first. */
  lemma KeptChecksWereAnswered(trace: seq<State>, moves: seq<Move>, i: nat, j: nat)
    requires IsMoves(trace, moves) && i < j < |moves| && moves[i].Tick? && moves[j].Tick?
    requires trace[0].transport.answersPings && trace[j + 1].InLoop()
    ensures exists k, at :: HeardAt(trace, moves, k, at) && k < j && trace[i].clock.now <= at
  {
    var before, movesBefore := trace[..j + 1], moves[..j];
    assert StepsBy(trace[j], moves[j], trace[j + 1]);
    assert forall k | 0 <= k < j :: StepsBy(trace[k], moves[k], trace[k + 1]);
    ChecksKeepExactly(before, movesBefore, moves[j].check);
    assert ChecksAt(movesBefore, i);
    var k, at :| HeardAt(before, movesBefore, k, at) && trace[i].clock.now <= at;
    assert HeardAt(trace, moves, k, at);
  }

  lemma {:induction false} TransportStays(trace: seq<State>, moves: seq<Move>)
    requires IsMoves(trace, moves)
    ensures trace[|moves|].transport == trace[0].transport
  {
    var n := |moves|;
    if n > 0 {
      TransportStays(trace[..n], moves[..n - 1]);
      assert StepsBy(trace[n - 1], moves[n - 1], trace[n]);
      ClockSteps(trace[n - 1], moves[n - 1]);
    }
  }

  lemma UnansweredIs(trace: seq<State>, moves: seq<Move>, clock: Clock)
    requires |trace| == |moves| + 1 && ClockKnows(trace, moves, clock)
    ensures Unanswered(clock) <==> PingUnanswered(trace, moves)
  {
    var j :| HeardAt(trace, moves, j, clock.lastPong);
    if Unanswered(clock) {
      var i :| ChecksAt(moves, i) && trace[i].clock.now == clock.pingedAt.value;
      assert forall k, at :: HeardAt(trace, moves, k, at) ==> at < trace[i].clock.now;
    }
  }

  // --- the end always comes ---

  /** What the worker and the close still have to do once the loop is left. */
  function Work(s: State): nat {
    2 * |s.queue| + (if s.worker.Handling? then 1 else 0) + (if s.reader.Closing? then 3 else 0)
    + (if s.worker.Gone? then 0 else 1)
  }

  /** What is left to send and to leave once the worker is gone. */
  function Tail(s: State): nat {
    2 * |s.hub.outgoing| +
    match s.reader
    case DrainSending(_) => 5
    case Draining(open) => if open then 4 else 3
    case FlushSending(_) => 2
    case Flushing(_) => 1
    case Joining => 1
    case _ => 0
  }

  /** A move of the handler's side: nobody outside is needed for it. */
  predicate Works(m: Move) {
    m.WorkerTakes? || m.WorkerDone? || m.WorkerOut? || m.QueueClose?
  }

  lemma WorkFalls(s: State, m: Move)
    requires Enabled(s, m) && !s.InLoop()
    ensures !Next(s, m).InLoop() && Work(Next(s, m)) <= Work(s)
    ensures Works(m) ==> Work(Next(s, m)) < Work(s)
  {
  }

  lemma TailFalls(s: State, m: Move)
    requires Enabled(s, m) && s.worker.Gone? && !s.registered && s.QueueEnded() && s.queue == [] && !m.Wait?
    ensures Next(s, m).worker.Gone? && Tail(Next(s, m)) < Tail(s)
  {
  }

  /** The worker, or the loop with its close, has a move to make. */
  function HandlerMove(s: State): Move {
    if s.worker.Handling? then WorkerDone(false)
    else if s.queue != [] then WorkerTakes
    else QueueClose
  }

  lemma HandlerMayMove(s: State)
    requires !s.InLoop() && !s.worker.Gone? && (s.worker.Idle? && s.queue == [] ==> !s.QueueEnded())
    ensures Works(HandlerMove(s)) && Enabled(s, HandlerMove(s))
  {
  }

  /**
   Once the loop is left, however much the hub still pushes, the handler's side
   is never stuck, and it only has so many moves to make before it is gone.
   */
  lemma HandlerGetsDone(s: State, m: Move)
    requires Reachable(s) && !s.InLoop()
    ensures !s.worker.Gone? ==> Works(HandlerMove(s)) && Enabled(s, HandlerMove(s))
    ensures Enabled(s, m) ==> !Next(s, m).InLoop() && Work(Next(s, m)) <= Work(s)
    ensures Enabled(s, m) && Works(m) ==> Work(Next(s, m)) < Work(s)
  {
    ReachedInOrder(s);
    CloseIsLast(s);
    if !s.worker.Gone? {
      HandlerMayMove(s);
    }
    if Enabled(s, m) {
      WorkFalls(s, m);
    }
  }

  /** The next move of the loop on its way out. */
  function LastMove(s: State): Move {
    if s.reader.Draining? || s.reader.Joining? then WorkerJoined
    else if s.reader.Flushing? then FlushTakes
    else Sent(true)
  }

  /** With the handler's side gone nothing more is pushed, and every move but waiting brings the end nearer. */
  lemma ConnectionEnds(s: State, m: Move)
    requires Reachable(s) && s.worker.Gone? && !s.reader.Finished?
    ensures Enabled(s, LastMove(s))
    ensures Enabled(s, m) && !m.Wait? ==> Next(s, m).worker.Gone? && Tail(Next(s, m)) < Tail(s)
  {
    ReachedInOrder(s);
    CloseIsLast(s);
    if Enabled(s, m) && !m.Wait? {
      TailFalls(s, m);
    }
  }
}
