/** What becomes of a requester whose request was taken by an await of another message
    type (cibos-sdk/src/channel.rs): the request is gone, nobody holds the sending end of
    its decision channel, and the requester waits on it for good. */
module Stranding {
  import opened Selector
  import opened Scheduling
  import opened Channels
  import opened Broker
  import opened Options

  /** Channel `a`, on which lane `l` waits for a decision, is open and holds none. */
  ghost predicate Undecided(h: Host, a: nat, l: Lane) {
    && a in h.sys.links && !IsDoorbell(h, a) && h.sys.links[a].receiver == l
    && h.sys.links[a].chan.messages == [] && !h.sys.links[a].chan.closed
  }

  /** The operation sends on channel `a` or closes it. */
  predicate Decides(op: Broker.Op, a: nat) {
    op.ChannelOp? && (op.op.Send? || op.op.Shut?) && op.op.id == a
  }

  predicate NoDecision(ops: seq<Broker.Op>, a: nat) {
    forall i :: 0 <= i < |ops| ==> !Decides(ops[i], a)
  }

  // ---- no decision appears -------------------------------------------------

  /** Channel `a` is no doorbell and is in `g` what it is in `h`. */
  ghost predicate LinkKept(h: Host, g: Host, a: nat) {
    && a in h.sys.links && !IsDoorbell(h, a)
    && a in g.sys.links && !IsDoorbell(g, a) && g.sys.links[a] == h.sys.links[a]
  }

  lemma AwaitKeepsLink(h: Host, t: nat, want: nat, newId: nat, a: nat)
    requires HostOk(h) && a in h.sys.links && !IsDoorbell(h, a) && Broker.Allowed(h, AwaitOp(t, want, newId))
    requires t in h.asleep || t in h.doorbells ==> HasDoorbell(h, t)
    ensures LinkKept(h, AwaitPoll(h, t, want, newId).0, a)
  {
    hide HostOk, Listen;
    RungAt(h, t);
    if t in h.asleep {
      assert IsDoorbell(h, h.doorbells[t]);
      ListenSpec(h, t, want);
    } else if Inbox(h, t) == [] {
      var g := Doorbell(h, t, newId);
      DoorbellKeeps(h, t, newId);
      assert IsDoorbell(g, g.doorbells[t]);
      assert t in h.doorbells ==> IsDoorbell(h, h.doorbells[t]);
      assert LinkKept(h, g, a);
      ListenSpec(g, t, want);
    }
  }

  lemma SubmitKeepsLink(h: Host, t: nat, req: Request, a: nat)
    requires HostOk(h) && a in h.sys.links && !IsDoorbell(h, a) && Broker.Allowed(h, SubmitOp(t, req))
    requires (t in h.doorbells ==> HasDoorbell(h, t)) && req.accept != a
    ensures LinkKept(h, Submit(h, t, req), a)
  {
    hide HostOk, RegisterWait, SignalReady;
    assert t in h.doorbells ==> IsDoorbell(h, h.doorbells[t]);
  }

  /** The longest message channel `a` takes. */
  function MaxBytes(h: Host, a: nat): nat {
    if a in h.sys.links then h.sys.links[a].chan.maxBytes else 0
  }

  lemma SubmitUndecided(h: Host, t: nat, req: Request, l: Lane)
    requires HostOk(h) && Undecided(h, req.accept, l) && Broker.Allowed(h, SubmitOp(t, req))
    requires t in h.doorbells ==> HasDoorbell(h, t)
    ensures Undecided(Submit(h, t, req), req.accept, l)
    ensures MaxBytes(Submit(h, t, req), req.accept) == MaxBytes(h, req.accept)
  {
    hide HostOk, RegisterWait, SignalReady;
    assert t in h.doorbells ==> IsDoorbell(h, h.doorbells[t]);
  }

  lemma StepUndecided(h: Host, op: Broker.Op, a: nat, l: Lane)
    requires HostOk(h) && Undecided(h, a, l) && Broker.Allowed(h, op) && !Decides(op, a)
    ensures Undecided(Broker.Apply(h, op), a, l) && MaxBytes(Broker.Apply(h, op), a) == MaxBytes(h, a)
  {
    hide HostOk, AwaitPoll, Submit, RegisterWait, SignalReady;
    match op {
      case SubmitOp(t, req) =>
        RungAt(h, t);
        if req.accept == a {
          SubmitUndecided(h, t, req, l);
        } else {
          SubmitKeepsLink(h, t, req, a);
        }
      case AwaitOp(t, want, newId) =>
        RungAt(h, t);
        AwaitKeepsLink(h, t, want, newId, a);
      case ChannelOp(o) =>
    }
  }

  /** Over every run that neither sends on nor closes the channel, whatever wakes the
      requester in between, it holds no decision: every poll of the requester pends and
      leaves it stalled on the channel. */
  lemma {:induction false} NeverAnswered(h: Host, ops: seq<Broker.Op>, a: nat, l: Lane)
    requires HostOk(h) && Undecided(h, a, l) && NoDecision(ops, a)
    ensures var g := Broker.Run(h, ops);
            && Undecided(g, a, l) && RecvOn(g.sys, a).1 == Empty && MaxBytes(g, a) == MaxBytes(h, a)
            && StalledOn(RecvOn(g.sys, a).0.sched, l, ChannelData(a))
    decreases |ops|
  {
    hide HostOk, Undecided, Broker.Allowed, Broker.Apply, Decides;
    if ops != [] {
      var front := ops[..|ops| - 1];
      NeverAnswered(h, front, a, l);
      if Broker.Allowed(Broker.Run(h, front), ops[|ops| - 1]) {
        StepUndecided(Broker.Run(h, front), ops[|ops| - 1], a, l);
      }
    }
    PollPends(Broker.Run(h, ops), a, l);
  }

  lemma PollPends(h: Host, a: nat, l: Lane)
    requires Undecided(h, a, l)
    ensures RecvOn(h.sys, a).1 == Empty && StalledOn(RecvOn(h.sys, a).0.sched, l, ChannelData(a))
  {
  }

  // ---- the requester stays stalled -----------------------------------------

  /** Lane `l` is stalled on channel `a` and recorded as a waiter nowhere else. */
  ghost predicate Parked(y: Sys, l: Lane, a: nat) {
    && StalledOn(y.sched, l, ChannelData(a))
    && forall id: nat :: id in y.links && id != a ==>
         y.links[id].chan.receiverWaiter != Some(l) && y.links[id].chan.senderWaiter != Some(l)
  }

  /** A step of lane `l` itself, or one that signals, re-registers or ends it by name. */
  ghost predicate ActsFor(h: Host, op: Broker.Op, l: Lane)
    requires Broker.Allowed(h, op)
  {
    match op
    case SubmitOp(_, req) => h.sys.links[req.accept].receiver == l
    case AwaitOp(t, _, _) => h.awaiter[t] == l
    case ChannelOp(o) =>
      match o
      case Open(_, _, _, _, _) => false
      case Send(id, _) => h.sys.links[id].sender == l
      case Recv(id) => h.sys.links[id].receiver == l
      case Shut(_) => false
      case Other(so) => (so.Signal? || so.Wait? || so.Complete?) && so.lane == l
  }

  /** No operation of the run is for lane `l`. */
  ghost predicate LeavesAlone(h: Host, ops: seq<Broker.Op>, l: Lane)
    requires HostOk(h)
  {
    ops == [] || (LeavesAlone(h, ops[..|ops| - 1], l)
                  && (Broker.Allowed(Broker.Run(h, ops[..|ops| - 1]), ops[|ops| - 1]) ==>
                        !ActsFor(Broker.Run(h, ops[..|ops| - 1]), ops[|ops| - 1], l)))
  }

  lemma RecvParked(y: Sys, id: nat, l: Lane, a: nat)
    requires Inv(y) && Parked(y, l, a) && id in y.links && id != a && y.links[id].receiver != l
    ensures Parked(RecvOn(y, id).0, l, a)
  {
    hide Ok, ClockOk, Retain, LinkOk;
    WakeKeeps(y.sched, y.links[id].chan.senderWaiter);
  }

  lemma RingParked(y: Sys, d: nat, ringer: Lane, l: Lane, a: nat)
    requires Inv(y) && Parked(y, l, a) && d in y.links && d != a && ringer != l
    ensures Parked(Ring(y, d, ringer), l, a)
  {
    hide Ok, ClockOk, Retain, LinkOk;
    WakeKeeps(y.sched, y.links[d].chan.receiverWaiter);
  }

  lemma ChannelParked(y: Sys, o: Channels.Op, l: Lane, a: nat)
    requires Inv(y) && Parked(y, l, a) && Channels.Allowed(y, o) && a in y.links
    requires !((o.Send? || o.Shut? || o.Recv?) && o.id == a)
    requires o.Send? ==> y.links[o.id].sender != l
    requires o.Recv? ==> y.links[o.id].receiver != l
    requires o.Other? ==> !((o.op.Signal? || o.op.Wait? || o.op.Complete?) && o.op.lane == l)
    ensures Parked(Channels.Apply(y, o), l, a)
  {
    hide Ok, ClockOk, Retain, LinkOk, ClockTo;
    match o {
      case Open(_, _, _, _, _) =>
      case Send(id, _) => WakeKeeps(y.sched, y.links[id].chan.receiverWaiter);
      case Recv(id) => RecvParked(y, id, l, a);
      case Shut(id) =>
        WakeKeeps(y.sched, y.links[id].chan.receiverWaiter);
        WakeKeeps(Wake(y.sched, y.links[id].chan.receiverWaiter), y.links[id].chan.senderWaiter);
      case Other(so) => SchedulerParked(y.sched, so, l, a);
    }
  }

  lemma SchedulerParked(s: Sched, o: Scheduling.Op, l: Lane, a: nat)
    requires Ok(s) && ClockOk(s) && StalledOn(s, l, ChannelData(a))
    requires !((o.Signal? || o.Wait? || o.Complete?) && o.lane == l)
    ensures StalledOn(Scheduling.Apply(s, o), l, ChannelData(a))
  {
    hide Ok, ClockOk, ClockTo, Retain;
    match o {
      case Advance(delta) => ClockToSpec(s, if s.now + delta > CLOCK_MAX then CLOCK_MAX else s.now + delta);
      case NextTimer =>
        if Earliest(s.stalled).Some? {
          var d := Earliest(s.stalled).value;
          ClockToSpec(s, if s.now >= d then s.now else d);
        }
      case _ =>
    }
  }

  lemma {:induction false} ListenParked(h: Host, t: nat, want: nat, l: Lane, a: nat)
    requires HostOk(h) && t in h.doorbells && DoorbellOk(h, t) && h.awaiter[t] !in h.sys.sched.stalled
    requires t !in h.asleep ==> Inbox(h, t) == []
    requires Parked(h.sys, l, a) && h.doorbells[t] != a && h.awaiter[t] != l
    ensures Parked(Listen(h, t, want).0.sys, l, a)
    decreases |h.sys.links[h.doorbells[t]].chan.messages|
  {
    hide HostOk, Inv, RecvOn, Parked;
    RungAt(h, t);
    HostInv(h);
    DoorbellRecv(h, t);
    RecvParked(h.sys, h.doorbells[t], l, a);
    var (y, step) := RecvOn(h.sys, h.doorbells[t]);
    if step.Got? && Inbox(h, t) == [] {
      HostWith(h, t, h.(sys := y));
      ListenParked(h.(sys := y), t, want, l, a);
    }
  }

  lemma HostInv(h: Host)
    requires HostOk(h)
    ensures Inv(h.sys)
  {
  }

  lemma AwaitParked(h: Host, t: nat, want: nat, newId: nat, l: Lane, a: nat)
    requires HostOk(h) && Undecided(h, a, l) && Broker.Allowed(h, AwaitOp(t, want, newId)) && Parked(h.sys, l, a)
             && h.awaiter[t] != l
    requires t in h.asleep || t in h.doorbells ==> HasDoorbell(h, t)
    ensures Parked(AwaitPoll(h, t, want, newId).0.sys, l, a)
  {
    hide HostOk, Listen;
    RungAt(h, t);
    assert t in h.doorbells ==> IsDoorbell(h, h.doorbells[t]);
    if t in h.asleep {
      ListenParked(h, t, want, l, a);
    } else if Inbox(h, t) == [] {
      DoorbellKeeps(h, t, newId);
      ListenParked(Doorbell(h, t, newId), t, want, l, a);
    }
  }

  lemma SubmitParked(h: Host, t: nat, req: Request, l: Lane, a: nat)
    requires HostOk(h) && Undecided(h, a, l) && Broker.Allowed(h, SubmitOp(t, req)) && Parked(h.sys, l, a)
    requires h.sys.links[req.accept].receiver != l && (t in h.doorbells ==> HasDoorbell(h, t))
    ensures Parked(Submit(h, t, req).sys, l, a)
  {
    hide Ok, ClockOk, Retain, LinkOk, StallOk, Ring;
    var ringer := h.sys.links[req.accept].receiver;
    if t in h.doorbells {
      RungAt(h, t);
      assert IsDoorbell(h, h.doorbells[t]);
      RingParked(h.sys, h.doorbells[t], ringer, l, a);
      RingSpec(h.sys, h.doorbells[t], ringer);
    }
  }

  lemma StepParked(h: Host, op: Broker.Op, l: Lane, a: nat)
    requires HostOk(h) && Undecided(h, a, l) && Parked(h.sys, l, a) && Broker.Allowed(h, op)
    requires !Decides(op, a) && !ActsFor(h, op, l)
    ensures Parked(Broker.Apply(h, op).sys, l, a)
  {
    hide HostOk, AwaitPoll, Submit, Channels.Apply, Parked;
    match op {
      case SubmitOp(t, req) =>
        RungAt(h, t);
        SubmitParked(h, t, req, l, a);
      case AwaitOp(t, want, newId) =>
        RungAt(h, t);
        AwaitParked(h, t, want, newId, l, a);
      case ChannelOp(o) =>
        HostInv(h);
        ChannelParked(h.sys, o, l, a);
    }
  }

  /** A parked requester stays stalled over every run that neither decides its channel nor
      acts for it. */
  lemma {:induction false} StaysStalled(h: Host, ops: seq<Broker.Op>, a: nat, l: Lane)
    requires HostOk(h) && Undecided(h, a, l) && Parked(h.sys, l, a) && NoDecision(ops, a) && LeavesAlone(h, ops, l)
    ensures Parked(Broker.Run(h, ops).sys, l, a) && StalledOn(Broker.Run(h, ops).sys.sched, l, ChannelData(a))
    decreases |ops|
  {
    hide HostOk, Undecided, Broker.Allowed, Broker.Apply, Decides, ActsFor;
    if ops != [] {
      var front := ops[..|ops| - 1];
      StaysStalled(h, front, a, l);
      NeverAnswered(h, front, a, l);
      if Broker.Allowed(Broker.Run(h, front), ops[|ops| - 1]) {
        StepParked(Broker.Run(h, front), ops[|ops| - 1], l, a);
      }
    }
  }

  // ---- a mismatch strands --------------------------------------------------

  /** Taking a request for another message type removes it from the mailbox and leaves its
      requester unanswered over every later run in which nobody decides its channel. */
  lemma MismatchStrands(h: Host, t: nat, want: nat, newId: nat, l: Lane, ops: seq<Broker.Op>)
    requires HostOk(h) && Broker.Allowed(h, AwaitOp(t, want, newId)) && Inbox(h, t) != [] && Inbox(h, t)[0].tag != want
    requires Undecided(h, Inbox(h, t)[0].accept, l) && NoDecision(ops, Inbox(h, t)[0].accept)
    requires t in h.asleep || t in h.doorbells ==> HasDoorbell(h, t)
    ensures var req := Inbox(h, t)[0];
            var (h', r) := AwaitPoll(h, t, want, newId);
            && r == Mismatched(req) && Inbox(h', t) == Inbox(h, t)[1..] && HostOk(h')
            && var g := Broker.Run(h', ops);
               && Undecided(g, req.accept, l) && RecvOn(g.sys, req.accept).1 == Empty
               && StalledOn(RecvOn(g.sys, req.accept).0.sched, l, ChannelData(req.accept))
               && (Parked(h.sys, l, req.accept) && h.awaiter[t] != l && LeavesAlone(h', ops, l) ==>
                     StalledOn(g.sys.sched, l, ChannelData(req.accept)))
  {
    hide HostOk, AwaitPoll, Parked, LeavesAlone, NoDecision, Broker.Run;
    var a := Inbox(h, t)[0].accept;
    var h' := AwaitPoll(h, t, want, newId).0;
    AwaitDelivers(h, t, want, newId);
    AwaitKeepsLink(h, t, want, newId, a);
    NeverAnswered(h', ops, a, l);
    if Parked(h.sys, l, a) && h.awaiter[t] != l && LeavesAlone(h', ops, l) {
      AwaitParked(h, t, want, newId, l, a);
      StaysStalled(h', ops, a, l);
    }
  }

  /** Container 7, whose lane 1 awaits, and lane 2 with its decision channel 5. */
  function Two(): Host {
    var decision := Link(Chan([], None, None, false, 1, 1), 1, 2, [], []);
    Host(Sys(Sched([], map[], 0), map[5 := decision]), map[], map[], map[7 := 1], {})
  }

  /** Lane 2 asks container 7 for message type 0 while lane 1 awaits type 1: the request is
      taken and dropped, and lane 2 stays stalled whatever else happens. */
  lemma StrandedExample(ops: seq<Broker.Op>)
    requires NoDecision(ops, 5)
    ensures HostOk(Two()) && Broker.Allowed(Two(), SubmitOp(7, Request(3, 5, 0)))
    ensures var h := Submit(Two(), 7, Request(3, 5, 0));
            && HostOk(h) && Broker.Allowed(h, AwaitOp(7, 1, 9))
            && var (h', r) := AwaitPoll(h, 7, 1, 9);
               && r == Mismatched(Request(3, 5, 0)) && Inbox(h', 7) == [] && HostOk(h')
               && Undecided(Broker.Run(h', ops), 5, 2) && RecvOn(Broker.Run(h', ops).sys, 5).1 == Empty
               && (LeavesAlone(h', ops, 2) ==> StalledOn(Broker.Run(h', ops).sys.sched, 2, ChannelData(5)))
  {
    hide Broker.Run, LeavesAlone, NoDecision;
    var req := Request(3, 5, 0);
    var h := Submit(Two(), 7, req);
    SubmitKeeps(Two(), 7, req);
    assert Undecided(h, 5, 2) && Parked(h.sys, 2, 5);
    MismatchStrands(h, 7, 1, 9, 2, ops);
  }

  /** A stray signal readies a stalled requester, whose next poll stalls it again: being
      stalled at every moment is promised only while nothing acts for the lane. */
  lemma StraySignal(h: Host, a: nat, l: Lane)
    requires HostOk(h) && Undecided(h, a, l) && StalledOn(h.sys.sched, l, ChannelData(a))
    ensures var op := ChannelOp(Other(Signal(l)));
            && Broker.Allowed(h, op) && !Decides(op, a) && l !in Broker.Apply(h, op).sys.sched.stalled
            && Undecided(Broker.Apply(h, op), a, l)
            && StalledOn(RecvOn(Broker.Apply(h, op).sys, a).0.sched, l, ChannelData(a))
  {
    hide HostOk;
    var op := ChannelOp(Other(Signal(l)));
    StepUndecided(h, op, a, l);
    PollPends(Broker.Apply(h, op), a, l);
  }

  // ---- a decision arrives --------------------------------------------------

  /** Channel `a` holds `msg` as its oldest message for lane `l`. */
  ghost predicate Answered(h: Host, a: nat, l: Lane, msg: Message) {
    && a in h.sys.links && !IsDoorbell(h, a) && h.sys.links[a].receiver == l
    && h.sys.links[a].chan.messages != [] && h.sys.links[a].chan.messages[0] == msg
  }

  /** The operation receives from channel `a`. */
  predicate Reads(op: Broker.Op, a: nat) {
    op.ChannelOp? && op.op.Recv? && op.op.id == a
  }

  lemma StepAnswered(h: Host, op: Broker.Op, a: nat, l: Lane, msg: Message)
    requires HostOk(h) && Answered(h, a, l, msg) && Broker.Allowed(h, op) && !Reads(op, a)
    ensures Answered(Broker.Apply(h, op), a, l, msg)
  {
    hide HostOk, AwaitPoll, Submit, RegisterWait, SignalReady;
    match op {
      case SubmitOp(t, req) =>
        RungAt(h, t);
        SubmitKeepsLink(h, t, req, a);
      case AwaitOp(t, want, newId) =>
        RungAt(h, t);
        AwaitKeepsLink(h, t, want, newId, a);
      case ChannelOp(o) =>
    }
  }

  /** An answer waits for its reader: over every run that does not read it, closing included, the
      next poll of the requester returns it. */
  lemma {:induction false} AnswerWaits(h: Host, ops: seq<Broker.Op>, a: nat, l: Lane, msg: Message)
    requires HostOk(h) && Answered(h, a, l, msg) && forall i :: 0 <= i < |ops| ==> !Reads(ops[i], a)
    ensures var g := Broker.Run(h, ops);
            Answered(g, a, l, msg) && RecvOn(g.sys, a).1 == Got(msg)
    decreases |ops|
  {
    hide HostOk, Broker.Allowed, Broker.Apply, Reads;
    if ops != [] {
      var front := ops[..|ops| - 1];
      AnswerWaits(h, front, a, l, msg);
      if Broker.Allowed(Broker.Run(h, front), ops[|ops| - 1]) {
        StepAnswered(Broker.Run(h, front), ops[|ops| - 1], a, l, msg);
      }
    }
  }

  /** Sending on an undecided channel. */
  lemma SendDecides(h: Host, a: nat, l: Lane, msg: Message)
    requires HostOk(h) && Undecided(h, a, l) && |msg| <= MaxBytes(h, a)
    ensures var (y, step) := SendOn(h.sys, a, msg);
            && step == Sent && HostOk(h.(sys := y)) && Answered(h.(sys := y), a, l, msg)
            && (StalledOn(h.sys.sched, l, ChannelData(a)) ==> l in y.sched.ready && l !in y.sched.stalled)
  {
    hide SleepersOnly, DoorbellOk, Rung, Ok, ClockOk, Wake;
    assert LinkOk(h.sys.links[a]);
    assert Broker.Allowed(h, ChannelOp(Send(a, msg)));
    ApplyKeepsHost(h, ChannelOp(Send(a, msg)));
    if StalledOn(h.sys.sched, l, ChannelData(a)) {
      SendFreesReceiver(h.sys, a, msg);
    }
  }

  /** From the submission on, whenever the decision comes and whatever happens before and after:
      the channel takes it, the requester is readied if it is stalled there, and its next poll
      reads it. */
  lemma DecisionReaches(h: Host, t: nat, req: Request, before: seq<Broker.Op>, msg: Message, after: seq<Broker.Op>)
    requires HostOk(h) && Broker.Allowed(h, SubmitOp(t, req)) && |msg| <= MaxBytes(h, req.accept)
    requires t in h.doorbells ==> HasDoorbell(h, t)
    requires NoDecision(before, req.accept) && forall i :: 0 <= i < |after| ==> !Reads(after[i], req.accept)
    ensures var l := h.sys.links[req.accept].receiver;
            && HostOk(Submit(h, t, req))
            && var g := Broker.Run(Submit(h, t, req), before);
               && Undecided(g, req.accept, l)
               && var (y, step) := SendOn(g.sys, req.accept, msg);
                  && step == Sent && HostOk(g.(sys := y))
                  && (StalledOn(g.sys.sched, l, ChannelData(req.accept)) ==> l in y.sched.ready)
                  && var e := Broker.Run(g.(sys := y), after);
                     req.accept in e.sys.links && RecvOn(e.sys, req.accept).1 == Got(msg)
  {
    hide HostOk, SendOn, Submit, Broker.Run, NoDecision, Reads;
    var a, l := req.accept, h.sys.links[req.accept].receiver;
    SubmitKeeps(h, t, req);
    SubmitUndecided(h, t, req, l);
    var g := Broker.Run(Submit(h, t, req), before);
    NeverAnswered(Submit(h, t, req), before, a, l);
    SendDecides(g, a, l, msg);
    AnswerWaits(g.(sys := SendOn(g.sys, a, msg).0), after, a, l, msg);
  }
}
