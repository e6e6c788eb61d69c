/** The broker object (cibos-sdk/src/broker.rs) and the await loop over it
    (cibos-sdk/src/channel.rs). */
module ChannelBroker {
  import opened Selector
  import opened Scheduling
  import opened Scheduler
  import opened Channels
  import opened KernelChannel
  import opened Broker
  import opened Options

  class Rendezvous {
    var inbox: map<nat, seq<Request>>
    var doorbells: map<nat, Channel>

    constructor ()
      ensures inbox == map[] && doorbells == map[]
    {
      inbox, doorbells := map[], map[];
    }

    function Mail(t: nat): seq<Request>
      reads this
    {
      if t in inbox then inbox[t] else []
    }

    /** The doorbell's state, a new doorbell's where there is none yet. */
    ghost function Bell(t: nat): Chan
      reads this, if t in doorbells then {doorbells[t]} else {}
    {
      if t in doorbells then doorbells[t].State() else Chan([], None, None, false, DOORBELL_CAPACITY, |TOKEN|)
    }

    /** Queue a request for `target` and ring its doorbell if it has one. */
    method Submit(target: nat, req: Request, ringer: Lane)
      requires target in doorbells ==> doorbells[target].kernel.Valid()
      modifies this`inbox
      modifies if target in doorbells then {doorbells[target], doorbells[target].kernel} else {}
      ensures inbox == old(inbox)[target := old(Mail(target)) + [req]]
      ensures target in doorbells ==>
                var bell := doorbells[target];
                var r := TrySend(old(bell.State()), bell.id, old(bell.kernel.State()), ringer, TOKEN);
                bell.kernel.Valid() && bell.State() == r.0 && bell.kernel.State() == r.1
    {
      inbox := inbox[target := Mail(target) + [req]];
      if target in doorbells {
        var _ := doorbells[target].TrySend(ringer, TOKEN);
      }
    }

    /** The container's doorbell, made on first use. */
    method DoorbellOf(target: nat, newId: nat, kernel: Kernel) returns (bell: Channel)
      modifies this`doorbells
      ensures target in doorbells && doorbells[target] == bell && doorbells == old(doorbells)[target := bell]
      ensures target in old(doorbells) ==> doorbells == old(doorbells)
      ensures target !in old(doorbells) ==>
                fresh(bell) && bell.id == newId && bell.kernel == kernel
                && bell.State() == Chan([], None, None, false, DOORBELL_CAPACITY, |TOKEN|)
                && bell.capacity == 64 && bell.maxBytes == 1
    {
      if target !in doorbells {
        var made := new Channel(newId, DOORBELL_CAPACITY, |TOKEN|, kernel);
        doorbells := doorbells[target := made];
      }
      bell := doorbells[target];
    }

    /** The oldest pending request for `target`, if any. */
    method Take(target: nat) returns (r: Option<Request>)
      modifies this`inbox
      ensures r.Some? <==> old(Mail(target)) != []
      ensures r.Some? ==> old(Mail(target)) == [r.value] + Mail(target) && inbox == old(inbox)[target := Mail(target)]
      ensures r.None? ==> inbox == old(inbox)
    {
      if target !in inbox || |inbox[target]| == 0 {
        return None;
      }
      r := Some(inbox[target][0]);
      inbox := inbox[target := inbox[target][1..]];
    }

    /** From a receive on the doorbell to a request, delivered or dropped by its message
        type, to sleep, or to a closed doorbell. */
    method Listen(target: nat, bell: Channel, lane: Lane, want: nat) returns (r: Outcome)
      requires bell.kernel.Valid()
      modifies this`inbox, bell, bell.kernel`ready, bell.kernel`stalled
      ensures bell.kernel.Valid()
      ensures (Mail(target), bell.State(), bell.kernel.State(), r)
              == ListenOn(old(Mail(target)), old(bell.State()), bell.id, old(bell.kernel.State()), lane, want)
    {
      hide RegisterWait, SignalReady, Ok, ClockOk;
      while true
        invariant bell.kernel.Valid()
        invariant ListenOn(Mail(target), bell.State(), bell.id, bell.kernel.State(), lane, want)
                  == ListenOn(old(Mail(target)), old(bell.State()), bell.id, old(bell.kernel.State()), lane, want)
        decreases |bell.messages|
      {
        var step := bell.TryRecv(lane);
        match step {
          case Got(_) =>
            var pending := Take(target);
            if pending.Some? {
              return Taken(pending.value, want);
            }
          case Empty => return Waiting;
          case RecvClosed => return Failed;
        }
      }
    }

    /** One poll of the await: a sleeping lane resumes in its receive, otherwise the
        mailbox is looked at first. */
    method Await(target: nat, lane: Lane, want: nat, asleep: bool, newId: nat, kernel: Kernel) returns (r: Outcome)
      requires kernel.Valid() && (asleep ==> target in doorbells)
      requires target in doorbells ==> doorbells[target].kernel == kernel
      modifies this, if target in doorbells then {doorbells[target]} else {}, kernel
      ensures kernel.Valid()
      ensures !asleep && old(Mail(target)) != [] ==>
                && r == Taken(old(Mail(target))[0], want) && Mail(target) == old(Mail(target))[1..]
                && kernel.State() == old(kernel.State())
      ensures asleep || old(Mail(target)) == [] ==>
                && target in doorbells
                && var bell := doorbells[target];
                   (Mail(target), bell.State(), kernel.State(), r)
                   == ListenOn(old(Mail(target)), old(Bell(target)), bell.id, old(kernel.State()), lane, want)
    {
      hide RegisterWait, SignalReady, Ok, ClockOk, ListenOn;
      if !asleep {
        var pending := Take(target);
        if pending.Some? {
          return Taken(pending.value, want);
        }
      }
      var bell := DoorbellOf(target, newId, kernel);
      r := Listen(target, bell, lane, want);
    }
  }

  const YES: Message := [1]
  const NO: Message := [0]

  /** A delivered request, to be accepted or rejected; dropping it undecided rejects it. */
  class IncomingRequest {
    const source: nat
    const signal: Channel
    var decided: bool

    constructor (source: nat, signal: Channel)
      ensures this.source == source && this.signal == signal && !decided
    {
      this.source, this.signal, decided := source, signal, false;
    }

    /** The requester waits on an open channel with room for its one decision, and has no
        decision yet; afterwards it has this one. */
    method Decide(lane: Lane, yes: bool)
      requires signal.kernel.Valid() && !decided && signal.messages == [] && !signal.closed
      requires signal.capacity >= 1 && signal.maxBytes >= 1
      modifies this`decided, signal, signal.kernel`ready, signal.kernel`stalled
      ensures signal.kernel.Valid() && decided && signal.messages == [if yes then [1] else [0]] && !signal.closed
      ensures signal.kernel.State() == Wake(old(signal.kernel.State()), old(signal.receiverWaiter))
    {
      hide Ok, ClockOk, SignalReady;
      var _ := signal.TrySend(lane, if yes then YES else NO);
      decided := true;
    }

    /** Dropped: nothing more is sent once decided, otherwise the rejection is. */
    method Drop(lane: Lane)
      requires signal.kernel.Valid() && (!decided ==> signal.messages == [] && !signal.closed)
      requires signal.capacity >= 1 && signal.maxBytes >= 1
      modifies this`decided, signal, signal.kernel`ready, signal.kernel`stalled
      ensures signal.kernel.Valid() && decided
      ensures signal.messages == if old(decided) then old(signal.messages) else [[0]]
      ensures old(decided) ==>
                signal.State() == old(signal.State()) && signal.kernel.State() == old(signal.kernel.State())
    {
      if !decided {
        Decide(lane, false);
      }
    }
  }
}
