/** Cross-container channel requests (cibos-sdk/src/broker.rs and `await_channel_request`
    in cibos-sdk/src/channel.rs): per container a mailbox of pending requests and a
    doorbell channel that its one awaiting lane sleeps on.

    A step is one whole poll of one lane, so checking the mailbox and going to sleep are
    not separated by another lane's step. */
module Broker {
  import opened LittleEndian
  import opened Selector
  import opened Scheduling
  import opened Channels
  import opened Options

  const DOORBELL_CAPACITY: nat := 64
  /** A pending request: who asks, the channel its decision is sent on, and the message
      type of the channel asked for. */
  datatype Request = Request(source: nat, accept: nat, tag: nat)

  /** Mailboxes and doorbell channels by container, each container's awaiting lane, and
      the containers whose await is asleep on the doorbell. */
  datatype Host = Host(sys: Sys, inbox: map<nat, seq<Request>>, doorbells: map<nat, nat>, awaiter: map<nat, Lane>,
                       asleep: set<nat>)

  /** A request taken for another message type is dropped, with an error to the awaiter. */
  datatype Outcome = Delivered(request: Request) | Mismatched(request: Request) | Waiting | Failed

  function Taken(req: Request, want: nat): Outcome {
    if req.tag == want then Delivered(req) else Mismatched(req)
  }

  function Inbox(h: Host, t: nat): seq<Request> {
    if t in h.inbox then h.inbox[t] else []
  }

  // ---- submitting a request ------------------------------------------------

  /** Best-effort ring of a doorbell by any lane. */
  function Ring(y: Sys, d: nat, ringer: Lane): Sys
    requires d in y.links
  {
    var k := y.links[d];
    var r := TrySend(k.chan, d, y.sched, ringer, TOKEN);
    Sys(r.1, y.links[d := k.(chan := r.0, sent := if r.2 == Sent then k.sent + [TOKEN] else k.sent)])
  }

  /** A requester's poll: post the request, ring, and wait for the decision. */
  function Submit(h: Host, t: nat, req: Request): Host
    requires req.accept in h.sys.links && (t in h.doorbells ==> h.doorbells[t] in h.sys.links)
  {
    var ringer := h.sys.links[req.accept].receiver;
    var y := if t in h.doorbells then Ring(h.sys, h.doorbells[t], ringer) else h.sys;
    h.(inbox := h.inbox[t := Inbox(h, t) + [req]], sys := RecvOn(y, req.accept).0)
  }

  // ---- awaiting a request --------------------------------------------------

  /** Take the oldest request, for an await of message type `want`. */
  function TakeRequest(h: Host, t: nat, want: nat): (Host, Outcome)
    requires Inbox(h, t) != []
  {
    (h.(inbox := h.inbox[t := Inbox(h, t)[1..]], asleep := h.asleep - {t}), Taken(Inbox(h, t)[0], want))
  }

  /** The doorbell, made on first use under a channel id not in use. */
  function Doorbell(h: Host, t: nat, newId: nat): Host
    requires t in h.awaiter
  {
    if t in h.doorbells then h
    else
      var k := Link(Chan([], None, None, false, DOORBELL_CAPACITY, |TOKEN|), 0, h.awaiter[t], [], []);
      h.(doorbells := h.doorbells[t := newId], sys := h.sys.(links := h.sys.links[newId := k]))
  }

  predicate HasDoorbell(h: Host, t: nat) {
    t in h.doorbells && h.doorbells[t] in h.sys.links
  }

  /** Receive on the doorbell: a token sends the loop round again, to the mailbox. */
  function Listen(h: Host, t: nat, want: nat): (Host, Outcome)
    requires HasDoorbell(h, t)
    decreases |h.sys.links[h.doorbells[t]].chan.messages|
  {
    var r := RecvOn(h.sys, h.doorbells[t]);
    match r.1
    case Got(_) =>
      var g := h.(sys := r.0);
      if Inbox(g, t) != [] then TakeRequest(g, t, want) else Listen(g, t, want)
    case Empty => (h.(sys := r.0, asleep := h.asleep + {t}), Waiting)
    case RecvClosed => (h.(sys := r.0, asleep := h.asleep - {t}), Failed)
  }

  /** The same on one container's own mailbox and doorbell. */
  function ListenOn(mail: seq<Request>, c: Chan, d: nat, s: Sched, lane: Lane, want: nat)
    : (seq<Request>, Chan, Sched, Outcome)
    decreases |c.messages|
  {
    var r := TryRecv(c, d, s, lane);
    match r.2
    case Got(_) =>
      if mail != [] then (mail[1..], r.0, r.1, Taken(mail[0], want)) else ListenOn(mail, r.0, d, r.1, lane, want)
    case Empty => (mail, r.0, r.1, Waiting)
    case RecvClosed => (mail, r.0, r.1, Failed)
  }

  lemma {:induction false} ListenIsListenOn(h: Host, t: nat, want: nat)
    requires HasDoorbell(h, t)
    ensures var d := h.doorbells[t];
            var k := h.sys.links[d];
            var (g, r) := Listen(h, t, want);
            && d in g.sys.links
            && (Inbox(g, t), g.sys.links[d].chan, g.sys.sched, r)
               == ListenOn(Inbox(h, t), k.chan, d, h.sys.sched, k.receiver, want)
    decreases |h.sys.links[h.doorbells[t]].chan.messages|
  {
    hide RegisterWait, SignalReady;
    var r := RecvOn(h.sys, h.doorbells[t]);
    if r.1.Got? && Inbox(h, t) == [] {
      ListenIsListenOn(h.(sys := r.0), t, want);
    }
  }

  /** One poll of the await. A sleeping lane resumes in its receive; otherwise the mailbox
      comes first and the doorbell is made if there is none. */
  function AwaitPoll(h: Host, t: nat, want: nat, newId: nat): (Host, Outcome)
    requires t in h.awaiter && (t in h.asleep || t in h.doorbells ==> HasDoorbell(h, t))
  {
    if t in h.asleep then Listen(h, t, want)
    else if Inbox(h, t) != [] then TakeRequest(h, t, want)
    else Listen(Doorbell(h, t, newId), t, want)
  }

  // ---- invariant -----------------------------------------------------------

  predicate IsDoorbell(h: Host, d: nat) {
    exists t: nat :: t in h.doorbells && h.doorbells[t] == d
  }

  /** Container `t`'s doorbell is an open channel received on by `t`'s awaiting lane. */
  predicate DoorbellOk(h: Host, t: nat)
    requires t in h.doorbells
  {
    var d := h.doorbells[t];
    && d in h.sys.links && t in h.awaiter && h.sys.links[d].receiver == h.awaiter[t] && !h.sys.links[d].chan.closed
    && h.sys.links[d].chan.maxBytes == |TOKEN|
  }

  /** A sleeping container with mail has been rung. */
  predicate Rung(h: Host, t: nat) {
    t in h.asleep ==> t in h.doorbells && h.doorbells[t] in h.sys.links
                      && (Inbox(h, t) != [] ==> h.sys.links[h.doorbells[t]].chan.messages != [])
  }

  /** A lane stalled on a doorbell is its container's await, asleep; ringers never wait. */
  ghost predicate SleepersOnly(h: Host) {
    forall t: nat, l: Lane ::
      t in h.doorbells && l in h.sys.sched.stalled ==>
        && h.sys.sched.stalled[l] != ChannelBuffer(h.doorbells[t])
        && (h.sys.sched.stalled[l] == ChannelData(h.doorbells[t]) ==> t in h.asleep)
  }

  ghost predicate HostOk(h: Host) {
    && Inv(h.sys) && SleepersOnly(h)
    && (forall t: nat :: t in h.doorbells ==> DoorbellOk(h, t))
    && (forall t: nat, u: nat :: t in h.doorbells && u in h.doorbells && h.doorbells[t] == h.doorbells[u] ==> t == u)
    && (forall t: nat {:trigger Rung(h, t)} :: Rung(h, t))
  }

  datatype Op = SubmitOp(target: nat, req: Request) | AwaitOp(t: nat, want: nat, newId: nat)
              | ChannelOp(op: Channels.Op)

  /** A requester waits on a new channel of its own; an await is polled only when its lane
      runs; doorbells belong to the broker alone. */
  ghost predicate Allowed(h: Host, op: Op) {
    match op
    case SubmitOp(_, req) =>
      && req.accept in h.sys.links && !IsDoorbell(h, req.accept)
      && h.sys.links[req.accept].chan.messages == [] && !h.sys.links[req.accept].chan.closed
    case AwaitOp(t, _, newId) =>
      t in h.awaiter && h.awaiter[t] !in h.sys.sched.stalled && newId !in h.sys.links
    case ChannelOp(o) =>
      Channels.Allowed(h.sys, o) && (o.Send? || o.Recv? || o.Shut? ==> !IsDoorbell(h, o.id))
  }

  ghost function Apply(h: Host, op: Op): Host
    requires HostOk(h) && Allowed(h, op)
  {
    match op
    case SubmitOp(t, req) =>
      assert t in h.doorbells ==> DoorbellOk(h, t);
      Submit(h, t, req)
    case AwaitOp(t, want, newId) =>
      assert t in h.doorbells ==> DoorbellOk(h, t);
      assert Rung(h, t);
      AwaitPoll(h, t, want, newId).0
    case ChannelOp(o) => h.(sys := Channels.Apply(h.sys, o))
  }

  // ---- every step keeps it -------------------------------------------------

  /** The channel invariant, but for what lane `l` is stalled on. */
  ghost predicate InvBut(y: Sys, l: Lane) {
    && Ok(y.sched) && ClockOk(y.sched)
    && (forall id: nat :: id in y.links ==> LinkOk(y.links[id]))
    && (forall x: Lane :: x in y.sched.stalled && x != l ==> StallOk(y.links, x, y.sched.stalled[x]))
  }

  /** No other lane is stalled on anything new. */
  ghost predicate StallsFrom(s: Sched, s': Sched, l: Lane) {
    forall x: Lane :: x in s'.stalled && x != l ==> x in s.stalled && s'.stalled[x] == s.stalled[x]
  }

  lemma RingSpec(y: Sys, d: nat, l: Lane)
    requires Inv(y) && d in y.links && !y.links[d].chan.closed && y.links[d].chan.maxBytes == |TOKEN|
    requires forall x: Lane :: x in y.sched.stalled ==> y.sched.stalled[x] != ChannelBuffer(d)
    ensures var y' := Ring(y, d, l);
            && InvBut(y', l) && StallsFrom(y.sched, y'.sched, l) && y'.links.Keys == y.links.Keys
            && y'.links[d].chan.messages != [] && !y'.links[d].chan.closed && y'.links[d].chan.maxBytes == |TOKEN|
            && y'.links[d].receiver == y.links[d].receiver
            && (forall id: nat :: id in y.links && id != d ==> y'.links[id] == y.links[id])
  {
    hide Ok, Retain;
    assert LinkOk(y.links[d]);
    WakeKeeps(y.sched, y.links[d].chan.receiverWaiter);
    RegisterKeeps(y.sched, l, ChannelBuffer(d));
  }

  lemma WaitSpec(y: Sys, accept: nat)
    requires accept in y.links && InvBut(y, y.links[accept].receiver)
    requires y.links[accept].chan.messages == [] && !y.links[accept].chan.closed
    ensures var l := y.links[accept].receiver;
            var y' := RecvOn(y, accept).0;
            && Inv(y') && StallsFrom(y.sched, y'.sched, l) && y'.links.Keys == y.links.Keys
            && l in y'.sched.stalled && y'.sched.stalled[l] == ChannelData(accept)
            && (forall id: nat :: id in y.links && id != accept ==> y'.links[id] == y.links[id])
  {
    hide Ok, Retain;
    assert LinkOk(y.links[accept]);
    RegisterKeeps(y.sched, y.links[accept].receiver, ChannelData(accept));
  }

  /** Posting a request rings the target's doorbell if it has one, so a sleeper is woken;
      the requester ends up waiting for the decision. */
  lemma SubmitKeeps(h: Host, t: nat, req: Request)
    requires HostOk(h) && Allowed(h, SubmitOp(t, req))
    ensures HostOk(Submit(h, t, req))
    ensures Inbox(Submit(h, t, req), t) == Inbox(h, t) + [req]
  {
    hide Ok, ClockOk, LinkOk, StallOk, RecvOn, Ring;
    var h', l := Submit(h, t, req), h.sys.links[req.accept].receiver;
    if t in h.doorbells {
      var d := h.doorbells[t];
      assert DoorbellOk(h, t) && IsDoorbell(h, d);
      RingSpec(h.sys, d, l);
      WaitSpec(Ring(h.sys, d, l), req.accept);
    } else {
      WaitSpec(h.sys, req.accept);
    }
    forall u: nat | u in h'.doorbells
      ensures DoorbellOk(h', u)
    {
      assert DoorbellOk(h, u) && IsDoorbell(h, h.doorbells[u]);
    }
    forall u: nat
      ensures Rung(h', u)
    {
      assert Rung(h, u);
      if u in h.doorbells {
        assert DoorbellOk(h, u) && IsDoorbell(h, h.doorbells[u]);
      }
    }
    forall u: nat, x: Lane | u in h'.doorbells && x in h'.sys.sched.stalled
      ensures h'.sys.sched.stalled[x] != ChannelBuffer(h'.doorbells[u])
      ensures h'.sys.sched.stalled[x] == ChannelData(h'.doorbells[u]) ==> u in h'.asleep
    {
      assert IsDoorbell(h, h.doorbells[u]);
    }
  }

  // ---- the await -----------------------------------------------------------

  /** One receive on the doorbell of a lane that is not stalled. */
  lemma DoorbellRecv(h: Host, t: nat)
    requires HostOk(h) && t in h.doorbells && DoorbellOk(h, t) && h.awaiter[t] !in h.sys.sched.stalled
    ensures var d := h.doorbells[t];
            var (y, step) := RecvOn(h.sys, d);
            && Inv(y) && y.links.Keys == h.sys.links.Keys && DoorbellOk(h.(sys := y), t)
            && (forall id: nat :: id in y.links && id != d ==> y.links[id] == h.sys.links[id])
            && StallsFrom(h.sys.sched, y.sched, h.awaiter[t])
            && (step.Got? <==> h.sys.links[d].chan.messages != [])
            && (step.Got? ==> y.links[d].chan.messages == h.sys.links[d].chan.messages[1..]
                              && h.awaiter[t] !in y.sched.stalled
                              && forall x: Lane :: x in y.sched.stalled ==> y.sched.stalled[x] != ChannelData(d))
            && (!step.Got? ==>
                  step == Empty && h.awaiter[t] in y.sched.stalled && y.sched.stalled[h.awaiter[t]] == ChannelData(d))
  {
    hide Ok, ClockOk, Retain;
    var d := h.doorbells[t];
    RecvKeeps(h.sys, d);
    WakeKeeps(h.sys.sched, h.sys.links[d].chan.senderWaiter);
  }

  /** Changes confined to container `t` and its doorbell. */
  lemma HostWith(h: Host, t: nat, h': Host)
    requires HostOk(h) && t in h.doorbells && h'.doorbells == h.doorbells && h'.awaiter == h.awaiter
    requires Inv(h'.sys) && h'.sys.links.Keys == h.sys.links.Keys && DoorbellOk(h', t) && Rung(h', t)
    requires forall id: nat :: id in h'.sys.links && id != h.doorbells[t] ==> h'.sys.links[id] == h.sys.links[id]
    requires forall u: nat :: u != t ==> Inbox(h', u) == Inbox(h, u) && (u in h'.asleep <==> u in h.asleep)
    requires forall x: Lane :: x in h'.sys.sched.stalled ==>
               || (h'.sys.sched.stalled[x] == ChannelData(h.doorbells[t]) && t in h'.asleep)
               || (x in h.sys.sched.stalled && h'.sys.sched.stalled[x] == h.sys.sched.stalled[x]
                   && h'.sys.sched.stalled[x] != ChannelData(h.doorbells[t]))
    ensures HostOk(h')
  {
    hide Inv;
    forall u: nat | u in h'.doorbells
      ensures DoorbellOk(h', u)
    {
      assert DoorbellOk(h, u);
    }
    forall u: nat
      ensures Rung(h', u)
    {
      assert Rung(h, u);
      assert u in h.doorbells ==> DoorbellOk(h, u);
    }
  }

  /** Every channel but `t`'s doorbell is as before. */
  ghost predicate OnlyDoorbell(h: Host, t: nat, g: Host) {
    && t in h.doorbells && g.doorbells == h.doorbells && g.awaiter == h.awaiter && g.sys.links.Keys == h.sys.links.Keys
    && forall id: nat :: id in h.sys.links && id != h.doorbells[t] ==> g.sys.links[id] == h.sys.links[id]
  }

  /** Listening takes the oldest request when there is one, however many stale tokens the
      doorbell holds, and otherwise goes to sleep on an empty doorbell; it touches no
      other channel. */
  lemma {:induction false} ListenSpec(h: Host, t: nat, want: nat)
    requires HostOk(h) && t in h.doorbells && DoorbellOk(h, t) && h.awaiter[t] !in h.sys.sched.stalled
    requires t !in h.asleep ==> Inbox(h, t) == []
    ensures var (g, r) := Listen(h, t, want);
            && HostOk(g) && OnlyDoorbell(h, t, g)
            && (Inbox(h, t) != [] ==> r == Taken(Inbox(h, t)[0], want) && Inbox(g, t) == Inbox(h, t)[1..])
            && (Inbox(h, t) == [] ==> r == Waiting && t in g.asleep && Inbox(g, t) == [])
    decreases |h.sys.links[h.doorbells[t]].chan.messages|
  {
    hide HostOk, Inv, RecvOn;
    RungAt(h, t);
    DoorbellRecv(h, t);
    var (y, step) := RecvOn(h.sys, h.doorbells[t]);
    var g := h.(sys := y);
    if step.Got? {
      if Inbox(h, t) != [] {
        HostWith(h, t, TakeRequest(g, t, want).0);
      } else {
        HostWith(h, t, g);
        ListenSpec(g, t, want);
      }
    } else {
      HostWith(h, t, g.(asleep := h.asleep + {t}));
    }
  }

  lemma RungAt(h: Host, t: nat)
    requires HostOk(h)
    ensures Rung(h, t) && (t in h.doorbells ==> DoorbellOk(h, t))
  {
  }

  lemma DoorbellKeeps(h: Host, t: nat, newId: nat)
    requires HostOk(h) && t in h.awaiter && newId !in h.sys.links && t !in h.asleep
    ensures HostOk(Doorbell(h, t, newId)) && DoorbellOk(Doorbell(h, t, newId), t)
  {
    hide HostOk, Inv;
    RungAt(h, t);
    if t !in h.doorbells {
      var o := Channels.Open(newId, 0, h.awaiter[t], DOORBELL_CAPACITY, |TOKEN|);
      ChannelOpKeeps(h, o);
      NamesDoorbell(h.(sys := Channels.Apply(h.sys, o)), h, t, newId);
    }
  }

  /** A channel just opened becomes the doorbell of a container that has none. */
  lemma NamesDoorbell(h: Host, before: Host, t: nat, d: nat)
    requires HostOk(h) && HostOk(before) && h.doorbells == before.doorbells && t !in h.doorbells && t in h.awaiter
             && t !in h.asleep
    requires d !in before.sys.links && h.sys.sched == before.sys.sched && d in h.sys.links
    requires h.sys.links[d] == Link(Chan([], None, None, false, DOORBELL_CAPACITY, |TOKEN|), 0, h.awaiter[t], [], [])
    ensures HostOk(h.(doorbells := h.doorbells[t := d])) && DoorbellOk(h.(doorbells := h.doorbells[t := d]), t)
  {
    hide Ok, ClockOk, LinkOk;
    var h' := h.(doorbells := h.doorbells[t := d]);
    forall u: nat | u in h.doorbells
      ensures DoorbellOk(h', u) && h.doorbells[u] != d
    {
      RungAt(h, u);
      RungAt(before, u);
    }
    forall u: nat
      ensures Rung(h', u)
    {
      RungAt(h, u);
    }
    forall x: Lane | x in h.sys.sched.stalled
      ensures h.sys.sched.stalled[x] != ChannelData(d) && h.sys.sched.stalled[x] != ChannelBuffer(d)
    {
      assert StallOk(before.sys.links, x, h.sys.sched.stalled[x]);
    }
  }

  lemma TakeKeeps(h: Host, t: nat, want: nat)
    requires HostOk(h) && Inbox(h, t) != [] && t !in h.asleep
    ensures HostOk(TakeRequest(h, t, want).0)
  {
    hide Inv;
    var h' := TakeRequest(h, t, want).0;
    assert h'.asleep == h.asleep;
    forall u: nat
      ensures Rung(h', u) && (u in h'.doorbells ==> DoorbellOk(h', u))
    {
      RungAt(h, u);
    }
  }

  /** A poll of the await takes the oldest pending request if there is one, and delivers it
      if and only if it is for the awaited message type. */
  lemma AwaitDelivers(h: Host, t: nat, want: nat, newId: nat)
    requires HostOk(h) && Allowed(h, AwaitOp(t, want, newId))
    requires t in h.asleep || t in h.doorbells ==> HasDoorbell(h, t)
    ensures var (h', r) := AwaitPoll(h, t, want, newId);
            && HostOk(h')
            && (Inbox(h, t) != [] ==> r == Taken(Inbox(h, t)[0], want) && Inbox(h', t) == Inbox(h, t)[1..]
                                      && (r.Delivered? <==> Inbox(h, t)[0].tag == want))
            && (Inbox(h, t) == [] ==> r == Waiting && t in h'.asleep && Inbox(h', t) == [])
  {
    hide HostOk, Listen;
    RungAt(h, t);
    if t in h.asleep {
      ListenSpec(h, t, want);
    } else if Inbox(h, t) != [] {
      TakeKeeps(h, t, want);
    } else {
      DoorbellKeeps(h, t, newId);
      ListenSpec(Doorbell(h, t, newId), t, want);
    }
  }

  lemma ChannelOpKeeps(h: Host, o: Channels.Op)
    requires HostOk(h) && Allowed(h, ChannelOp(o))
    ensures HostOk(h.(sys := Channels.Apply(h.sys, o)))
  {
    hide Inv, Rung, SleepersOnly, StallOk, LinkOk, Channels.Apply;
    var h' := h.(sys := Channels.Apply(h.sys, o));
    ApplyKeepsInv(h.sys, o);
    LinksElsewhere(h.sys, o);
    SleepersKept(h, o);
    forall u: nat | u in h.doorbells
      ensures DoorbellOk(h', u) && h'.sys.links[h.doorbells[u]] == h.sys.links[h.doorbells[u]]
    {
      assert DoorbellOk(h, u) && IsDoorbell(h, h.doorbells[u]);
    }
    forall u: nat
      ensures Rung(h', u)
    {
      RungSame(h, h', u);
    }
  }

  lemma SleepersKept(h: Host, o: Channels.Op)
    requires Inv(h.sys) && SleepersOnly(h) && Allowed(h, ChannelOp(o))
    ensures SleepersOnly(h.(sys := Channels.Apply(h.sys, o)))
  {
    hide Inv, Channels.Apply;
    StallsOfOp(h.sys, o);
    forall u: nat | u in h.doorbells
      ensures IsDoorbell(h, h.doorbells[u])
    {
    }
  }

  lemma RungSame(h: Host, h': Host, u: nat)
    requires HostOk(h) && h'.inbox == h.inbox && h'.asleep == h.asleep && h'.doorbells == h.doorbells
    requires u in h.doorbells ==> h.doorbells[u] in h'.sys.links && h.doorbells[u] in h.sys.links
                                  && h'.sys.links[h.doorbells[u]] == h.sys.links[h.doorbells[u]]
    ensures Rung(h', u)
  {
    RungAt(h, u);
  }

  /** An operation changes no link but the one it names. */
  lemma LinksElsewhere(y: Sys, o: Channels.Op)
    requires Channels.Allowed(y, o)
    ensures var links := Channels.Apply(y, o).links;
            forall id: nat :: id in y.links && (o.Other? || id != o.id) ==> id in links && links[id] == y.links[id]
  {
  }

  /** A lane newly stalled on a channel is stalled on the one the operation names. */
  lemma StallsOfOp(y: Sys, o: Channels.Op)
    requires Inv(y) && Channels.Allowed(y, o)
    ensures var s := Channels.Apply(y, o).sched;
            forall x: Lane :: x in s.stalled && (s.stalled[x].ChannelData? || s.stalled[x].ChannelBuffer?) ==>
              (x in y.sched.stalled && s.stalled[x] == y.sched.stalled[x])
              || (!o.Other? && !o.Open? && s.stalled[x].id == o.id)
  {
    hide Ok, ClockOk, Retain, LinkOk, StallOk;
    match o {
      case Other(so) => StalledFrom(y.sched, so);
      case Open(_, _, _, _, _) =>
      case Send(id, _) => WakeKeeps(y.sched, y.links[id].chan.receiverWaiter);
      case Recv(id) => WakeKeeps(y.sched, y.links[id].chan.senderWaiter);
      case Shut(id) =>
        WakeKeeps(y.sched, y.links[id].chan.receiverWaiter);
        WakeKeeps(Wake(y.sched, y.links[id].chan.receiverWaiter), y.links[id].chan.senderWaiter);
    }
  }

  lemma ApplyKeepsHost(h: Host, op: Op)
    requires HostOk(h) && Allowed(h, op)
    ensures HostOk(Apply(h, op))
  {
    hide HostOk, AwaitPoll, Submit, Channels.Apply;
    match op {
      case SubmitOp(t, req) => SubmitKeeps(h, t, req);
      case AwaitOp(t, want, newId) =>
        RungAt(h, t);
        AwaitDelivers(h, t, want, newId);
      case ChannelOp(o) => ChannelOpKeeps(h, o);
    }
  }

  ghost function Run(h: Host, ops: seq<Op>): (r: Host)
    requires HostOk(h)
    ensures HostOk(r)
  {
    if ops == [] then h
    else
      var g := Run(h, ops[..|ops| - 1]);
      if Allowed(g, ops[|ops| - 1]) then
        ApplyKeepsHost(g, ops[|ops| - 1]);
        Apply(g, ops[|ops| - 1])
      else g
  }

  /** A host on which nothing has happened yet. */
  lemma QuietHost(awaiter: map<nat, Lane>)
    ensures HostOk(Host(Sys(Sched([], map[], 0), map[]), map[], map[], awaiter, {}))
  {
    NoChannels();
  }

  predicate StalledOn(s: Sched, l: Lane, r: Resource) {
    l in s.stalled && s.stalled[l] == r
  }

  /** Over every run no mail is left waiting: a lane stalled on its container's doorbell has
      an empty mailbox, and an await with mail, asleep or not, takes the oldest request at
      its next poll. */
  lemma NoMailWaits(h: Host, ops: seq<Op>, t: nat, want: nat, newId: nat)
    requires HostOk(h)
    ensures var g := Run(h, ops);
            && (t in g.doorbells && t in g.awaiter
                && StalledOn(g.sys.sched, g.awaiter[t], ChannelData(g.doorbells[t])) ==>
                  Inbox(g, t) == [])
            && (Allowed(g, AwaitOp(t, want, newId)) && Inbox(g, t) != [] ==>
                  (t in g.asleep || t in g.doorbells ==> HasDoorbell(g, t))
                  && AwaitPoll(g, t, want, newId).1 == Taken(Inbox(g, t)[0], want))
  {
    hide Run, AwaitPoll, Ok, ClockOk;
    var g := Run(h, ops);
    RungAt(g, t);
    if Allowed(g, AwaitOp(t, want, newId)) {
      AwaitDelivers(g, t, want, newId);
    }
    if t in g.awaiter && g.awaiter[t] in g.sys.sched.stalled {
      assert StallOk(g.sys.links, g.awaiter[t], g.sys.sched.stalled[g.awaiter[t]]);
    }
  }

  /** The requester is stalled on its decision channel after submitting, is readied by the
      decision, and reads it at its next poll. */
  lemma DecisionReachesRequester(h: Host, t: nat, req: Request, decision: Byte)
    requires HostOk(h) && Allowed(h, SubmitOp(t, req)) && h.sys.links[req.accept].chan.maxBytes >= 1
    requires t in h.doorbells ==> HasDoorbell(h, t)
    ensures var l := h.sys.links[req.accept].receiver;
            var y := Submit(h, t, req).sys;
            && l in y.sched.stalled && y.sched.stalled[l] == ChannelData(req.accept) && req.accept in y.links
            && var (y', step) := SendOn(y, req.accept, [decision]);
               step == Sent && l in y'.sched.ready && RecvOn(y', req.accept).1 == Got([decision])
  {
    hide Ok, ClockOk, SendOn, Ring;
    var l := h.sys.links[req.accept].receiver;
    SubmitKeeps(h, t, req);
    if t in h.doorbells {
      RungAt(h, t);
      assert IsDoorbell(h, h.doorbells[t]);
      RingSpec(h.sys, h.doorbells[t], l);
      WaitSpec(Ring(h.sys, h.doorbells[t], l), req.accept);
    } else {
      WaitSpec(h.sys, req.accept);
    }
    SendFreesReceiver(Submit(h, t, req).sys, req.accept, [decision]);
  }
}
