/** The SDK's typed channel (cibos-sdk/src/channel.rs): a queue of values beside a kernel
    channel of one-byte tokens, one token for each value. */
module TypedChannels {
  import opened Selector
  import opened Scheduling
  import opened Scheduler
  import opened Channels
  import opened KernelChannel

  datatype Typed<T> = Typed(signal: Chan, queue: seq<T>)

  datatype SendOutcome<T> = Accepted | WouldBlock(back: T) | Refused(back: T)

  datatype ReceiveOutcome<T> = Value(value: T) | Nothing | Ended

  /** One poll of `send`, or `try_send`: take a token slot, then queue the value. */
  function SendTyped<T>(t: Typed<T>, id: nat, s: Sched, lane: Lane, m: T): (Typed<T>, Sched, SendOutcome<T>) {
    var r := TrySend(t.signal, id, s, lane, TOKEN);
    match r.2
    case Sent => (Typed(r.0, t.queue + [m]), r.1, Accepted)
    case Full => (Typed(r.0, t.queue), r.1, WouldBlock(m))
    case _ => (Typed(r.0, t.queue), r.1, Refused(m))
  }

  /** One poll of `receive`, or `try_receive`: take a token, then the oldest value. */
  function ReceiveTyped<T>(t: Typed<T>, id: nat, s: Sched, lane: Lane): (Typed<T>, Sched, ReceiveOutcome<T>) {
    var r := TryRecv(t.signal, id, s, lane);
    match r.2
    case Got(_) => if t.queue == [] then (Typed(r.0, t.queue), r.1, Nothing)
                   else (Typed(r.0, t.queue[1..]), r.1, Value(t.queue[0]))
    case Empty => (Typed(r.0, t.queue), r.1, Nothing)
    case RecvClosed => (Typed(r.0, t.queue), r.1, Ended)
  }

  function CloseTyped<T>(t: Typed<T>, s: Sched): (Typed<T>, Sched) {
    var r := Close(t.signal, s);
    (Typed(r.0, t.queue), r.1)
  }

  /** One token for each queued value. */
  predicate InStep<T>(t: Typed<T>) {
    |t.queue| == |t.signal.messages| && t.signal.maxBytes == |TOKEN|
  }

  // ---- the bounded queue it stands for -------------------------------------

  datatype Fifo<T> = Fifo(items: seq<T>, capacity: nat, closed: bool)

  function Put<T>(f: Fifo<T>, m: T): (Fifo<T>, SendOutcome<T>) {
    if f.closed then (f, Refused(m))
    else if |f.items| < f.capacity then (f.(items := f.items + [m]), Accepted)
    else (f, WouldBlock(m))
  }

  function Take<T>(f: Fifo<T>): (Fifo<T>, ReceiveOutcome<T>) {
    if f.items != [] then (f.(items := f.items[1..]), Value(f.items[0]))
    else if f.closed then (f, Ended)
    else (f, Nothing)
  }

  function View<T>(t: Typed<T>): Fifo<T> {
    Fifo(t.queue, t.signal.capacity, t.signal.closed)
  }

  datatype Op<T> = SendOp(lane: Lane, m: T) | ReceiveOp(lane: Lane) | CloseOp | OtherOp(op: Scheduling.Op)

  datatype Outcome<T> = SendDone(send: SendOutcome<T>) | ReceiveDone(receive: ReceiveOutcome<T>) | NoOutcome

  function Step<T>(t: Typed<T>, id: nat, s: Sched, op: Op<T>): (Typed<T>, Sched, Outcome<T>) {
    match op
    case SendOp(lane, m) => var r := SendTyped(t, id, s, lane, m); (r.0, r.1, SendDone(r.2))
    case ReceiveOp(lane) => var r := ReceiveTyped(t, id, s, lane); (r.0, r.1, ReceiveDone(r.2))
    case CloseOp => var r := CloseTyped(t, s); (r.0, r.1, NoOutcome)
    case OtherOp(o) => (t, Scheduling.Apply(s, o), NoOutcome)
  }

  function FifoStep<T>(f: Fifo<T>, op: Op<T>): (Fifo<T>, Outcome<T>) {
    match op
    case SendOp(_, m) => var r := Put(f, m); (r.0, SendDone(r.1))
    case ReceiveOp(_) => var r := Take(f); (r.0, ReceiveDone(r.1))
    case CloseOp => (f.(closed := true), NoOutcome)
    case OtherOp(_) => (f, NoOutcome)
  }

  /** Each step keeps one token per value and does what the plain queue does. */
  lemma StepRefines<T>(t: Typed<T>, id: nat, s: Sched, op: Op<T>)
    requires InStep(t)
    ensures var r := Step(t, id, s, op);
            InStep(r.0) && (View(r.0), r.2) == FifoStep(View(t), op)
  {
  }

  function Run<T>(t: Typed<T>, id: nat, s: Sched, ops: seq<Op<T>>): (Typed<T>, Sched, seq<Outcome<T>>) {
    if ops == [] then (t, s, [])
    else
      var r := Run(t, id, s, ops[..|ops| - 1]);
      var n := Step(r.0, id, r.1, ops[|ops| - 1]);
      (n.0, n.1, r.2 + [n.2])
  }

  function FifoRun<T>(f: Fifo<T>, ops: seq<Op<T>>): (Fifo<T>, seq<Outcome<T>>) {
    if ops == [] then (f, [])
    else
      var r := FifoRun(f, ops[..|ops| - 1]);
      var n := FifoStep(r.0, ops[|ops| - 1]);
      (n.0, r.1 + [n.1])
  }

  /** Over every run, whichever lanes act and whatever the scheduler does in between, the
      typed channel answers every call as one bounded queue of values would. */
  lemma {:induction false} RunRefines<T>(t: Typed<T>, id: nat, s: Sched, ops: seq<Op<T>>)
    requires InStep(t)
    ensures var r := Run(t, id, s, ops);
            InStep(r.0) && (View(r.0), r.2) == FifoRun(View(t), ops)
    decreases |ops|
  {
    hide InStep, View, Step, FifoStep;
    if ops != [] {
      var r := Run(t, id, s, ops[..|ops| - 1]);
      RunRefines(t, id, s, ops[..|ops| - 1]);
      StepRefines(r.0, id, r.1, ops[|ops| - 1]);
    }
  }

  /** Both handles of a typed channel. */
  class TypedChannel<T> {
    const signal: Channel
    var queue: seq<T>
    var closed: bool

    ghost function State(): Typed<T>
      reads this, signal
    {
      Typed(signal.State(), queue)
    }

    ghost predicate Valid()
      reads this, signal, signal.kernel, signal.kernel.rng
    {
      InStep(State()) && signal.kernel.Valid() && closed == signal.closed
    }

    constructor (signal: Channel)
      requires signal.kernel.Valid() && signal.maxBytes == |TOKEN| && signal.messages == [] && !signal.closed
      ensures Valid() && this.signal == signal && queue == []
    {
      this.signal := signal;
      queue, closed := [], false;
    }

    method TrySend(lane: Lane, m: T) returns (r: SendOutcome<T>)
      requires Valid()
      modifies this`queue, signal, signal.kernel`ready, signal.kernel`stalled
      ensures Valid() && (State(), signal.kernel.State(), r) ==
                SendTyped(old(State()), signal.id, old(signal.kernel.State()), lane, m)
    {
      hide Ok, ClockOk, RegisterWait, SignalReady;
      var step := signal.TrySend(lane, TOKEN);
      match step {
        case Sent =>
          queue := queue + [m];
          return Accepted;
        case Full => return WouldBlock(m);
        case _ => return Refused(m);
      }
    }

    method TryReceive(lane: Lane) returns (r: ReceiveOutcome<T>)
      requires Valid()
      modifies this`queue, signal, signal.kernel`ready, signal.kernel`stalled
      ensures Valid() && (State(), signal.kernel.State(), r) ==
                ReceiveTyped(old(State()), signal.id, old(signal.kernel.State()), lane)
    {
      hide Ok, ClockOk, RegisterWait, SignalReady;
      var step := signal.TryRecv(lane);
      match step {
        case Got(_) =>
          if |queue| == 0 {
            return Nothing;
          }
          var m := queue[0];
          queue := queue[1..];
          return Value(m);
        case Empty => return Nothing;
        case RecvClosed => return Ended;
      }
    }

    method CloseChannel()
      requires Valid()
      modifies this`closed, signal, signal.kernel`ready, signal.kernel`stalled
      ensures Valid() && (State(), signal.kernel.State()) == CloseTyped(old(State()), old(signal.kernel.State()))
    {
      hide Ok, ClockOk, SignalReady;
      closed := true;
      signal.Close();
    }
  }
}
