/** Kernel channels (cibos-kernel/src/channel.rs): bounded queues whose empty receives and
    full sends stall the calling lane, and whose sends, receives and closes wake it.

    A step is one whole poll of one lane. Each channel has one sending and one receiving
    lane, since it records one waiter on each side. */
module Channels {
  import opened LittleEndian
  import opened Selector
  import opened Scheduling
  import opened Options

  type Message = seq<Byte>

  /** The one-byte message that stands for a value or a ring. */
  const TOKEN: Message := [1]

  datatype Chan = Chan(messages: seq<Message>, receiverWaiter: Option<Lane>, senderWaiter: Option<Lane>, closed: bool,
                       capacity: nat, maxBytes: nat)

  datatype SendStep = Sent | Full | SendClosed | TooLarge

  datatype RecvStep = Got(message: Message) | Empty | RecvClosed

  function Wake(s: Sched, waiter: Option<Lane>): Sched {
    if waiter.Some? then SignalReady(s, waiter.value) else s
  }

  /** `try_send` on channel `id` for `lane`: also what one poll of a send does. */
  function TrySend(c: Chan, id: nat, s: Sched, lane: Lane, msg: Message): (Chan, Sched, SendStep) {
    if c.closed then (c, s, SendClosed)
    else if |msg| > c.maxBytes then (c, s, TooLarge)
    else if |c.messages| < c.capacity then
      (c.(messages := c.messages + [msg], receiverWaiter := None), Wake(s, c.receiverWaiter), Sent)
    else (c.(senderWaiter := Some(lane)), RegisterWait(s, lane, ChannelBuffer(id)), Full)
  }

  /** `try_recv`: also what one poll of a receive does. */
  function TryRecv(c: Chan, id: nat, s: Sched, lane: Lane): (Chan, Sched, RecvStep) {
    if c.messages != [] then
      (c.(messages := c.messages[1..], senderWaiter := None), Wake(s, c.senderWaiter), Got(c.messages[0]))
    else if c.closed then (c, s, RecvClosed)
    else (c.(receiverWaiter := Some(lane)), RegisterWait(s, lane, ChannelData(id)), Empty)
  }

  function Close(c: Chan, s: Sched): (Chan, Sched) {
    (c.(closed := true, receiverWaiter := None, senderWaiter := None), Wake(Wake(s, c.receiverWaiter), c.senderWaiter))
  }

  // ---- the system ----------------------------------------------------------

  /** A channel with its two lanes, the messages it has accepted and those it has handed out. */
  datatype Link = Link(chan: Chan, sender: Lane, receiver: Lane, sent: seq<Message>, received: seq<Message>)

  datatype Sys = Sys(sched: Sched, links: map<nat, Link>)

  datatype Op = Open(id: nat, sender: Lane, receiver: Lane, capacity: nat, maxBytes: nat)
              | Send(id: nat, msg: Message) | Recv(id: nat) | Shut(id: nat) | Other(op: Scheduling.Op)

  function NewLink(op: Op): Link
    requires op.Open?
  {
    Link(Chan([], None, None, false, op.capacity, op.maxBytes), op.sender, op.receiver, [], [])
  }

  /** Channel terms give a capacity of at least one; lanes wait on channels only by
      sending and receiving. */
  ghost predicate Allowed(y: Sys, op: Op) {
    match op
    case Open(id, _, _, capacity, _) => id !in y.links && capacity >= 1
    case Send(id, _) => id in y.links
    case Recv(id) => id in y.links
    case Shut(id) => id in y.links
    case Other(o) => Scheduling.Allowed(y.sched, o) && (o.Wait? ==> !o.r.ChannelData? && !o.r.ChannelBuffer?)
  }

  ghost function Apply(y: Sys, op: Op): Sys
    requires Allowed(y, op)
  {
    match op
    case Open(id, _, _, _, _) => y.(links := y.links[id := NewLink(op)])
    case Send(id, msg) => SendOn(y, id, msg).0
    case Recv(id) => RecvOn(y, id).0
    case Shut(id) =>
      var k := y.links[id];
      var r := Close(k.chan, y.sched);
      Sys(r.1, y.links[id := k.(chan := r.0)])
    case Other(o) => y.(sched := Scheduling.Apply(y.sched, o))
  }

  function SendOn(y: Sys, id: nat, msg: Message): (Sys, SendStep)
    requires id in y.links
  {
    var k := y.links[id];
    var r := TrySend(k.chan, id, y.sched, k.sender, msg);
    (Sys(r.1, y.links[id := k.(chan := r.0, sent := if r.2 == Sent then k.sent + [msg] else k.sent)]), r.2)
  }

  function RecvOn(y: Sys, id: nat): (Sys, RecvStep)
    requires id in y.links
  {
    var k := y.links[id];
    var r := TryRecv(k.chan, id, y.sched, k.receiver);
    var got := if r.2.Got? then k.received + [r.2.message] else k.received;
    (Sys(r.1, y.links[id := k.(chan := r.0, received := got)]), r.2)
  }

  ghost function Run(y: Sys, ops: seq<Op>): Sys {
    if ops == [] then y
    else
      var t := Run(y, ops[..|ops| - 1]);
      if Allowed(t, ops[|ops| - 1]) then Apply(t, ops[|ops| - 1]) else t
  }

  // ---- invariant -----------------------------------------------------------

  /** Nothing lost, duplicated or reordered, and never more than the capacity buffered. */
  predicate LinkOk(k: Link) {
    1 <= k.chan.capacity && |k.chan.messages| <= k.chan.capacity && k.sent == k.received + k.chan.messages
  }

  /** A lane stalled on a channel is the recorded waiter of an open channel that is empty,
      for the receiver, or full, for the sender. */
  predicate StallOk(links: map<nat, Link>, l: Lane, r: Resource) {
    match r
    case ChannelData(id) =>
      && id in links && links[id].receiver == l && links[id].chan.receiverWaiter == Some(l)
      && links[id].chan.messages == [] && !links[id].chan.closed
    case ChannelBuffer(id) =>
      && id in links && links[id].sender == l && links[id].chan.senderWaiter == Some(l)
      && |links[id].chan.messages| == links[id].chan.capacity && !links[id].chan.closed
    case _ => true
  }

  ghost predicate Inv(y: Sys) {
    && Ok(y.sched) && ClockOk(y.sched)
    && (forall id: nat :: id in y.links ==> LinkOk(y.links[id]))
    && (forall l: Lane :: l in y.sched.stalled ==> StallOk(y.links, l, y.sched.stalled[l]))
  }

  lemma WakeKeeps(s: Sched, w: Option<Lane>)
    requires Ok(s) && ClockOk(s)
    ensures var s' := Wake(s, w);
            && Ok(s') && ClockOk(s') && (w.Some? ==> w.value in s'.ready && w.value !in s'.stalled)
            && (forall l: Lane :: l in s'.stalled <==> l in s.stalled && w != Some(l))
            && (forall l: Lane :: l in s'.stalled ==> s'.stalled[l] == s.stalled[l])
  {
    hide Ok;
    if w.Some? {
      SignalKeeps(s, w.value);
    }
  }

  lemma SendKeeps(y: Sys, id: nat, msg: Message)
    requires Inv(y) && id in y.links
    ensures Inv(SendOn(y, id, msg).0)
  {
    hide Ok, Retain;
    var k := y.links[id];
    WakeKeeps(y.sched, k.chan.receiverWaiter);
    RegisterKeeps(y.sched, k.sender, ChannelBuffer(id));
    assert LinkOk(k);
  }

  lemma RecvKeeps(y: Sys, id: nat)
    requires Inv(y) && id in y.links
    ensures Inv(RecvOn(y, id).0)
  {
    hide Ok, Retain;
    var k := y.links[id];
    WakeKeeps(y.sched, k.chan.senderWaiter);
    RegisterKeeps(y.sched, k.receiver, ChannelData(id));
    assert LinkOk(k);
  }

  lemma CloseKeeps(y: Sys, id: nat)
    requires Inv(y) && id in y.links
    ensures Inv(Apply(y, Shut(id)))
  {
    hide Ok, Wake;
    var k := y.links[id];
    WakeKeeps(y.sched, k.chan.receiverWaiter);
    WakeKeeps(Wake(y.sched, k.chan.receiverWaiter), k.chan.senderWaiter);
    assert LinkOk(k);
  }

  lemma OtherKeeps(y: Sys, o: Scheduling.Op)
    requires Inv(y) && Allowed(y, Other(o))
    ensures Inv(Apply(y, Other(o)))
  {
    hide Ok, ClockOk, LinkOk;
    ApplyKeeps(y.sched, o);
    StalledFrom(y.sched, o);
  }

  /** Scheduler steps put a lane in the stalled list only by an explicit wait. */
  lemma StalledFrom(s: Sched, o: Scheduling.Op)
    requires Ok(s) && ClockOk(s)
    ensures forall l: Lane :: l in Scheduling.Apply(s, o).stalled ==>
              (l in s.stalled && Scheduling.Apply(s, o).stalled[l] == s.stalled[l])
              || (o.Wait? && o.lane == l && Scheduling.Apply(s, o).stalled[l] == o.r)
  {
    hide Ok, ClockOk, ClockTo, Retain;
    match o {
      case Advance(delta) => ClockToSpec(s, if s.now + delta > CLOCK_MAX then CLOCK_MAX else s.now + delta);
      case NextTimer =>
        if Earliest(s.stalled).Some? {
          var d := Earliest(s.stalled).value;
          ClockToSpec(s, if s.now >= d then s.now else d);
        }
      case _ =>
    }
  }

  lemma ApplyKeepsInv(y: Sys, op: Op)
    requires Inv(y) && Allowed(y, op)
    ensures Inv(Apply(y, op))
  {
    hide SendOn, RecvOn, Ok, ClockOk;
    match op {
      case Open(id, _, _, _, _) =>
      case Send(id, msg) => SendKeeps(y, id, msg);
      case Recv(id) => RecvKeeps(y, id);
      case Shut(id) => CloseKeeps(y, id);
      case Other(o) => OtherKeeps(y, o);
    }
  }

  /** Over every run, on every channel: what was received followed by what is buffered is
      what was accepted, and a stalled lane is still the recorded waiter of a channel that
      is open and empty or full. */
  lemma {:induction false} RunKeepsInv(y: Sys, ops: seq<Op>)
    requires Inv(y)
    ensures Inv(Run(y, ops))
    decreases |ops|
  {
    hide Inv, Allowed, Apply;
    if ops != [] {
      var t := Run(y, ops[..|ops| - 1]);
      RunKeepsInv(y, ops[..|ops| - 1]);
      if Allowed(t, ops[|ops| - 1]) {
        ApplyKeepsInv(t, ops[|ops| - 1]);
      }
    }
  }

  /** A system with no channels and no lanes. */
  lemma NoChannels()
    ensures Inv(Sys(Sched([], map[], 0), map[]))
  {
  }

  // ---- what follows --------------------------------------------------------

  /** No lane stays stalled for data that is there or for room that is there, and the two
      ends of a channel are never stalled on it together. */
  lemma NoLostWakeUp(y: Sys, id: nat)
    requires Inv(y) && id in y.links
    ensures var c := y.links[id].chan;
            && (forall l: Lane :: l in y.sched.stalled && y.sched.stalled[l] == ChannelData(id) ==>
                  c.messages == [] && !c.closed)
            && (forall l: Lane :: l in y.sched.stalled && y.sched.stalled[l] == ChannelBuffer(id) ==>
                  |c.messages| == c.capacity && !c.closed)
            && !exists a: Lane, b: Lane :: a in y.sched.stalled && b in y.sched.stalled
                 && y.sched.stalled[a] == ChannelData(id) && y.sched.stalled[b] == ChannelBuffer(id)
  {
    assert LinkOk(y.links[id]);
  }

  /** The other end can always free a receiver: a message of legal size is accepted, the
      receiver becomes ready, and its next poll returns that message. */
  lemma SendFreesReceiver(y: Sys, id: nat, msg: Message)
    requires Inv(y) && id in y.links && |msg| <= y.links[id].chan.maxBytes
    requires var l := y.links[id].receiver; l in y.sched.stalled && y.sched.stalled[l] == ChannelData(id)
    ensures var (y', step) := SendOn(y, id, msg);
            && step == Sent && y.links[id].receiver in y'.sched.ready && y.links[id].receiver !in y'.sched.stalled
            && RecvOn(y', id).1 == Got(msg)
  {
    var k := y.links[id];
    assert LinkOk(k) && StallOk(y.links, k.receiver, y.sched.stalled[k.receiver]);
    WakeKeeps(y.sched, k.chan.receiverWaiter);
  }

  /** A receive frees a stalled sender, and the sender's next poll is accepted. */
  lemma ReceiveFreesSender(y: Sys, id: nat, msg: Message)
    requires Inv(y) && id in y.links && |msg| <= y.links[id].chan.maxBytes
    requires var l := y.links[id].sender; l in y.sched.stalled && y.sched.stalled[l] == ChannelBuffer(id)
    ensures var (y', step) := RecvOn(y, id);
            && step == Got(y.links[id].chan.messages[0]) && y.links[id].sender in y'.sched.ready
            && y.links[id].sender !in y'.sched.stalled && SendOn(y', id, msg).1 == Sent
  {
    var k := y.links[id];
    assert LinkOk(k) && StallOk(y.links, k.sender, y.sched.stalled[k.sender]);
    WakeKeeps(y.sched, k.chan.senderWaiter);
  }

  /** Closing frees both ends; what is buffered is still delivered, then the end shows. */
  lemma CloseFreesBoth(y: Sys, id: nat)
    requires Inv(y) && id in y.links
    ensures var y' := Apply(y, Shut(id));
            && (forall l: Lane :: l in y'.sched.stalled ==>
                  y'.sched.stalled[l] != ChannelData(id) && y'.sched.stalled[l] != ChannelBuffer(id))
            && RecvOn(y', id).1 == (if y.links[id].chan.messages == [] then RecvClosed
                                    else Got(y.links[id].chan.messages[0]))
            && forall msg: Message :: SendOn(y', id, msg).1 == SendClosed
  {
    CloseKeeps(y, id);
    NoLostWakeUp(Apply(y, Shut(id)), id);
  }
}
