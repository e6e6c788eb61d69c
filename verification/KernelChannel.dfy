/** The channel object (cibos-kernel/src/channel.rs): decide under the lock, release it,
    then call the scheduler. */
module KernelChannel {
  import opened Selector
  import opened Scheduling
  import opened Scheduler
  import opened Channels
  import opened Options

  datatype Poll<+T> = Pending | Ready(value: T)

  datatype SendError = ChannelClosed | MessageTooLarge(size: nat, maximum: nat)

  datatype SendResult = SendOk | SendErr(error: SendError)

  class Channel {
    const id: nat
    const capacity: nat
    const maxBytes: nat
    const kernel: Kernel
    var messages: seq<Message>
    var receiverWaiter: Option<Lane>
    var senderWaiter: Option<Lane>
    var closed: bool

    ghost function State(): Chan
      reads this
    {
      Chan(messages, receiverWaiter, senderWaiter, closed, capacity, maxBytes)
    }

    constructor (id: nat, capacity: nat, maxBytes: nat, kernel: Kernel)
      ensures State() == Chan([], None, None, false, capacity, maxBytes) && this.id == id && this.kernel == kernel
    {
      this.id, this.capacity, this.maxBytes, this.kernel := id, capacity, maxBytes, kernel;
      messages, receiverWaiter, senderWaiter, closed := [], None, None, false;
    }

    method TrySend(lane: Lane, msg: Message) returns (step: SendStep)
      requires kernel.Valid()
      modifies this, kernel`ready, kernel`stalled
      ensures kernel.Valid()
      ensures (State(), kernel.State(), step) == Channels.TrySend(old(State()), id, old(kernel.State()), lane, msg)
    {
      hide Ok, ClockOk, Retain;
      if closed {
        return SendClosed;
      }
      if |msg| > maxBytes {
        return TooLarge;
      }
      if |messages| < capacity {
        messages := messages + [msg];
        var waiter := receiverWaiter;
        receiverWaiter := None;
        if waiter.Some? {
          kernel.SignalReady(waiter.value);
        }
        return Sent;
      }
      senderWaiter := Some(lane);
      kernel.RegisterWait(lane, ChannelBuffer(id));
      return Full;
    }

    method TryRecv(lane: Lane) returns (step: RecvStep)
      requires kernel.Valid()
      modifies this, kernel`ready, kernel`stalled
      ensures kernel.Valid()
      ensures (State(), kernel.State(), step) == Channels.TryRecv(old(State()), id, old(kernel.State()), lane)
    {
      hide Ok, ClockOk, Retain;
      if |messages| > 0 {
        var msg, waiter := messages[0], senderWaiter;
        messages, senderWaiter := messages[1..], None;
        if waiter.Some? {
          kernel.SignalReady(waiter.value);
        }
        return Got(msg);
      }
      if closed {
        return RecvClosed;
      }
      receiverWaiter := Some(lane);
      kernel.RegisterWait(lane, ChannelData(id));
      return Empty;
    }

    method Close()
      requires kernel.Valid()
      modifies this, kernel`ready, kernel`stalled
      ensures kernel.Valid() && (State(), kernel.State()) == Channels.Close(old(State()), old(kernel.State()))
      ensures closed && messages == old(messages)
      ensures old(receiverWaiter).Some? ==> kernel.IsReady(old(receiverWaiter).value)
      ensures old(senderWaiter).Some? ==> kernel.IsReady(old(senderWaiter).value)
    {
      hide Ok, ClockOk;
      closed := true;
      var recvWaiter, sendWaiter := receiverWaiter, senderWaiter;
      receiverWaiter, senderWaiter := None, None;
      if recvWaiter.Some? {
        kernel.SignalReady(recvWaiter.value);
      }
      if sendWaiter.Some? {
        kernel.SignalReady(sendWaiter.value);
      }
    }

    /** One poll of a send: refused when closed or too large, pending when full, which leaves the
        lane stalled on the buffer, and otherwise queued, which readies a waiting receiver. */
    method PollSend(lane: Lane, payload: Message) returns (r: Poll<SendResult>)
      requires kernel.Valid()
      modifies this, kernel`ready, kernel`stalled
      ensures kernel.Valid()
      ensures lane in kernel.stalled ==> r.Pending? || lane in old(kernel.stalled)
      ensures r.Pending? ==> lane in kernel.stalled && kernel.stalled[lane] == ChannelBuffer(id)
      ensures r.Pending? ==> messages == old(messages) && !closed
      ensures r == Ready(SendOk) ==> messages == old(messages) + [payload]
      ensures r.Ready? && r.value.SendErr? ==> State() == old(State()) && kernel.State() == old(kernel.State())
      ensures r == Ready(SendErr(ChannelClosed)) <==> closed
      ensures closed == old(closed)
      ensures r == Ready(SendErr(MessageTooLarge(|payload|, maxBytes))) <==> !closed && |payload| > maxBytes
      ensures r.Pending? <==> !closed && |payload| <= maxBytes && |old(messages)| >= capacity
      ensures r == Ready(SendOk) <==> !closed && |payload| <= maxBytes && |old(messages)| < capacity
      ensures r == Ready(SendOk) && old(receiverWaiter).Some? ==> kernel.IsReady(old(receiverWaiter).value)
    {
      hide Ok, ClockOk, Retain;
      var step := TrySend(lane, payload);
      match step {
        case Sent => return Ready(SendOk);
        case Full => return Pending;
        case SendClosed => return Ready(SendErr(ChannelClosed));
        case TooLarge => return Ready(SendErr(MessageTooLarge(|payload|, maxBytes)));
      }
    }

    /** One poll of a receive: the oldest message, the end of a closed channel, or pending
        with the lane stalled on data. */
    method PollRecv(lane: Lane) returns (r: Poll<Option<Message>>)
      requires kernel.Valid()
      modifies this, kernel`ready, kernel`stalled
      ensures kernel.Valid()
      ensures lane in kernel.stalled ==> r.Pending? || lane in old(kernel.stalled)
      ensures r.Pending? ==>
                lane in kernel.stalled && kernel.stalled[lane] == ChannelData(id) && messages == [] && !closed
      ensures r.Ready? && r.value.Some? <==> old(messages) != []
      ensures r.Ready? && r.value.Some? ==> old(messages) == [r.value.value] + messages
      ensures r == Ready(None) <==> old(messages) == [] && closed
      ensures closed == old(closed)
      ensures r.Ready? && r.value.Some? && old(senderWaiter).Some? ==> kernel.IsReady(old(senderWaiter).value)
    {
      hide Ok, ClockOk, Retain;
      ghost var before := messages;
      var step := TryRecv(lane);
      assert before != [] ==> before == [before[0]] + before[1..];
      match step {
        case Got(m) => return Ready(Some(m));
        case Empty => return Pending;
        case RecvClosed => return Ready(None);
      }
    }
  }
}
