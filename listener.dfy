/**
 * The raw TCP listener: the dispatcher that owns the table of messages in
 * progress, keyed by acknowledgment number, and the queue of finished
 * messages that `Receive` pops.
 *
 * The dispatcher loop is the only writer of the table. Channel sends are
 * sequence appends, and the interleaving that the loop's `select` picks
 * between its two input channels is given as the input sequence.
 */
module Listener {
  import opened Wrappers
  import opened Packets
  import Dispatch
  import Devices

  /** A message in progress. Its reassembly logic (payload buffering,
      completion on PSH, inactivity expiry) is not part of this model; only
      its ack and the packets handed to it over its packet channel are. */
  class TCPMessage {
    const ack: uint32
    var packets: seq<TcpPacket>

    constructor (ack: uint32)
      ensures this.ack == ack && packets == []
    {
      this.ack := ack;
      packets := [];
    }

    /** Hands a packet to the message: a send on its packet channel. */
    method Add(p: TcpPacket)
      modifies this
      ensures packets == old(packets) + [p]
    {
      packets := packets + [p];
    }
  }

  /** When everything finished is everything received followed by the
      queue, both before and after, and nothing more was received, then what
      finished in between is exactly what joined the back of the queue. */
  lemma GrownQueue<T>(finished0: seq<T>, received: seq<T>, queue0: seq<T>, finished: seq<T>, queue: seq<T>)
    requires finished0 == received + queue0 && finished == received + queue
    requires queue0 <= queue
    ensures finished == finished0 + queue[|queue0|..]
  {
    assert queue == queue0 + queue[|queue0|..];
  }

  class RAWTCPListener {
    /** Messages in progress, by acknowledgment number. */
    var messages: map<uint32, TCPMessage>
    /** Finished messages waiting for `Receive` (the delivery channel). */
    var queue: seq<TCPMessage>
    const device: string
    const port: int

    /** The table as a value: each ack with the packets its message was handed. */
    ghost var table: Dispatch.Table
    /** The delivery queue as values: each queued message's ack and packets. */
    ghost var queued: seq<Dispatch.Delivery>
    /** Every message that went through a completion event, in order. */
    ghost var completed: seq<TCPMessage>
    /** Every message `Receive` has returned, in order. */
    ghost var received: seq<TCPMessage>

    /** Each ack maps to a message created for that ack (so no message sits
        under two acks) and holding what the table value says, no message in
        the table has been finished, the queued messages hold what `queued`
        says, and the delivery queue hands out finished messages first in,
        first out. */
    ghost predicate Valid()
      reads this, messages.Values, set m | m in queue
    {
      && messages.Keys == table.Keys
      && (forall k :: k in messages ==> messages[k].packets == table[k])
      && (forall k :: k in messages ==> messages[k].ack == k)
      && (forall k :: k in messages ==> messages[k] !in completed)
      && |queued| == |queue|
      && (forall i :: 0 <= i < |queue| ==> Dispatch.Delivery(queue[i].ack, queue[i].packets) == queued[i])
      && completed == received + queue
    }

    constructor (device: string, port: int)
      ensures Valid()
      ensures messages == map[] && table == map[] && queue == [] && queued == []
      ensures completed == [] && received == []
      ensures this.device == device && this.port == port
    {
      messages := map[];
      queue := [];
      this.device := device;
      this.port := port;
      table := map[];
      queued := [];
      completed := [];
      received := [];
    }

    /** The packet event (`processTCPPacket`): reuse the message under the
        packet's ack, or create and register one, then hand it the packet. */
    method ProcessTCPPacket(packet: TcpPacket)
      requires Valid()
      modifies this, messages.Values
      ensures Valid()
      ensures table == Dispatch.AfterPacket(old(table), packet)
      ensures AckOf(packet) in old(messages) ==> messages == old(messages)
      ensures AckOf(packet) !in old(messages) ==>
        && fresh(messages[AckOf(packet)])
        && messages == old(messages)[AckOf(packet) := messages[AckOf(packet)]]
      ensures queue == old(queue) && queued == old(queued)
      ensures completed == old(completed) && received == old(received)
    {
      var ack := AckOf(packet);
      if ack in messages {
        var message := messages[ack];
        assert message !in queue;
        message.Add(packet);
        table := Dispatch.AfterPacket(table, packet);
        forall k | k in messages && k != ack
          ensures messages[k].packets == table[k]
        {
          assert messages[k].ack != message.ack;
        }
      } else {
        var message := new TCPMessage(ack);
        messages := messages[ack := message];
        message.Add(packet);
        table := Dispatch.AfterPacket(table, packet);
      }
    }

    /** The completion event of the dispatcher loop: push the finished message
        onto the delivery queue and delete its ack from the table. */
    method Complete(message: TCPMessage)
      requires Valid()
      modifies this
      ensures Valid()
      ensures queue == old(queue) + [message]
      ensures queued == old(queued) + [Dispatch.Delivery(message.ack, message.packets)]
      ensures completed == old(completed) + [message] && received == old(received)
      ensures messages == old(messages) - {message.ack}
      ensures table == Dispatch.AfterCompletion(old(table), message.ack)
    {
      queue := queue + [message];
      queued := queued + [Dispatch.Delivery(message.ack, message.packets)];
      completed := completed + [message];
      messages := messages - {message.ack};
      table := Dispatch.AfterCompletion(table, message.ack);
    }

    /** The next finished message, first in first out; `None` where the
        source would block on an empty delivery queue. */
    method Receive() returns (r: Option<TCPMessage>)
      requires Valid()
      modifies this
      ensures Valid()
      ensures old(queue) == [] ==> r == None && queue == [] && received == old(received)
      ensures old(queue) != [] ==>
        && r == Some(old(queue)[0])
        && Dispatch.Delivery(r.value.ack, r.value.packets) == old(queued)[0]
        && queue == old(queue)[1..] && queued == old(queued)[1..]
        && received == old(received) + [old(queue)[0]]
      ensures messages == old(messages) && table == old(table) && completed == old(completed)
    {
      if queue == [] {
        return None;
      }
      r := Some(queue[0]);
      received := received + [queue[0]];
      queue := queue[1..];
      queued := queued[1..];
    }

    /** The completion branch of the dispatcher loop: a report of a
        registered ack completes the message registered under it. A message
        reports once, while it is registered, so the reporting message is
        the one the table holds under its ack; a report of an unregistered
        ack changes nothing. */
    method Report(ack: uint32)
      requires Valid()
      modifies this
      ensures Valid()
      ensures table == Dispatch.AfterCompletion(old(table), ack)
      ensures messages == old(messages) - {ack}
      ensures ack in old(messages) ==> queue == old(queue) + [old(messages)[ack]]
      ensures ack !in old(messages) ==> queue == old(queue)
      ensures queued == old(queued) + Dispatch.DeliveredBy(old(table), Dispatch.Finished(ack))
      ensures completed == old(completed) + queue[|old(queue)|..] && received == old(received)
      ensures messages.Values <= old(messages.Values)
    {
      if ack in messages {
        Complete(messages[ack]);
      }
    }

    /** One pass of the dispatcher loop: the branch of its `select` that
        the input takes. */
    method Handle(e: Dispatch.Event)
      requires Valid()
      modifies this, messages.Values
      ensures Valid()
      ensures table == Dispatch.Step(old(table), e)
      ensures e.Arrived? ==> queue == old(queue)
      ensures e.Finished? && e.ack in old(messages) ==> queue == old(queue) + [old(messages)[e.ack]]
      ensures e.Finished? && e.ack !in old(messages) ==> queue == old(queue)
      ensures queued == old(queued) + Dispatch.DeliveredBy(old(table), e)
      ensures old(queue) <= queue
      ensures completed == old(completed) + queue[|old(queue)|..] && received == old(received)
      ensures forall m :: m in messages.Values ==> m in old(messages.Values) || fresh(m)
    {
      match e {
        case Finished(ack) =>
          Report(ack);
        case Arrived(p) =>
          ProcessTCPPacket(p);
      }
    }

    /** The dispatcher loop (`listen`) over a finite run of its inputs. The
        table evolves as `Dispatch.Run` says, and the messages it queues hold
        exactly what `Dispatch.Delivered` says, in order. */
    method Listen(events: seq<Dispatch.Event>)
      requires Valid()
      modifies this, messages.Values
      ensures Valid()
      ensures table == Dispatch.Run(old(table), events)
      ensures queued == old(queued) + Dispatch.Delivered(old(table), events)
      ensures old(queue) <= queue
      ensures completed == old(completed) + queue[|old(queue)|..] && received == old(received)
    {
      ghost var t0, d0, q0, c0, r0 := table, queued, queue, completed, received;
      assert c0 == r0 + q0;
      var i := 0;
      while i < |events|
        invariant 0 <= i <= |events|
        invariant Valid()
        invariant table == Dispatch.Run(t0, events[..i])
        invariant queued == d0 + Dispatch.Delivered(t0, events[..i])
        invariant forall m :: m in messages.Values ==> m in old(messages.Values) || fresh(m)
        invariant q0 <= queue && received == r0
      {
        ghost var t, d := table, queued;
        Handle(events[i]);
        Dispatch.Advance(t0, events[..i], events[i], d0, t, d, table, queued);
        assert events[..i + 1] == events[..i] + [events[i]];
        i := i + 1;
      }
      assert events[..i] == events;
      GrownQueue(c0, r0, q0, completed, queue);
    }
  }

  /** Creates the listener and starts its sniffer. Resolving the device is
      fatal when enumeration fails or the device is not listed, and then no
      listener exists and nothing is ever captured. */
  method RAWTCPListen(listed: Result<seq<Devices.Interface>, string>, device: string, port: int)
    returns (r: Result<RAWTCPListener, Devices.Fatal>)
    ensures listed.Failure? ==> r == Failure(Devices.DeviceListError(listed.error))
    ensures listed.Success? ==>
      (r.Success? <==> device != "" && exists i :: 0 <= i < |listed.value| && listed.value[i].name == device)
    ensures listed.Success? && r.Failure? ==> r.error == Devices.InterfaceNotFound(device)
    ensures r.Success? ==>
      && fresh(r.value) && r.value.Valid()
      && r.value.messages == map[] && r.value.table == map[] && r.value.queue == [] && r.value.queued == []
      && r.value.completed == [] && r.value.received == []
      && r.value.device == device && r.value.port == port
  {
    var listener := new RAWTCPListener(device, port);
    var started := Devices.StartSniffer(listed, device);
    if started.Failure? {
      return Failure(started.error);
    }
    r := Success(listener);
  }
}
