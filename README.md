# Raw TCP listener of gor, modelled in Dafny

gor mirrors live traffic. Its raw TCP listener captures packets with a packet-capture
library and reassembles them into application messages. Only what is visible on the
wire is used. This project models the sequential logic of that listener
(`listener/raw_tcp_listener.go`):

- **Sniffer** (`sniffer.dfy`). A decoded packet may enter the capture queue only
  when all of these hold:
  - it has at least two decoded layers;
  - the second layer is a TCP header;
  - the destination port equals the configured port;
  - the PSH bit is set (TCP control bits, section 3.1 of RFC 793).

  Go's `&` on the flags word is modelled bit by bit (`Packets.BitAnd`). A lemma
  proves that the mask test reads exactly the RFC's PSH bit. The read loop is a
  method over a finite run of capture reads, proved equal to a specification
  function. Lemmas about that function give soundness, completeness and order.
- **Device resolution** (`devices.dfy`). `startSniffer` scans the enumerated
  devices for an exact name match and stops at the first one. A failed
  enumeration or a missing device is a `Fatal` result, not a process exit.
- **Dispatcher** (`dispatch.dfy`, `listener.dfy`). `RAWTCPListener` is a class.
  It holds the table of messages in progress, keyed by acknowledgment number, and
  the queue of finished messages. `TCPMessage` is a class that carries its ack and
  the packets handed to it. The three events are methods:
  - `ProcessTCPPacket`: a packet arrives;
  - `Complete`: a message reports that it finished;
  - `Receive`: a caller takes the next finished message.

  Ghost values of the table and of the delivery queue are kept in step with the
  objects. The packet and completion methods are proved against functions on
  the table value (`Dispatch.AfterPacket`, `Dispatch.AfterCompletion`).
  `Receive` is proved directly against the queue and its ghost value, under the
  object invariant. The `listen` loop is
  proved against `Dispatch.Run`, which gives the table, and `Dispatch.Delivered`,
  which gives the acks and packets of the messages it queues. `Dispatch.RunAt`
  says what any run of events leaves under any ack. `Dispatch.DeliveryContents`
  says which packets a completed message holds.

The object invariant `Valid()` states the following:
- every key maps to a message created for that key, so no message sits under two
  keys;
- no message in the table has finished;
- each queued message holds the ack and packets its ghost value says;
- the delivery queue is first in, first out: every message ever completed equals
  every message received followed by the queue.

## Model

| member | source | states |
|---|---|---|
| Packets.BitAnd | listener/raw_tcp_listener.go:113 | Go's bitwise `&` on unsigned values; the result is no larger than either operand |
| Sniffer.PshMaskIsPshBit | listener/raw_tcp_listener.go:113 | `Flags & TCP_PSH != 0` holds exactly when the PSH control bit of RFC 793 (place value 8) is set |
| Sniffer.Admit | listener/raw_tcp_listener.go:105-113 | only a packet whose second layer is a TCP header addressed to the configured port can pass the admission test |
| Sniffer.AdmitMeans | listener/raw_tcp_listener.go:105-115 | a packet is admitted iff its second layer is TCP, its destination port equals the configured port and its PSH bit is set |
| Sniffer.Captured | listener/raw_tcp_listener.go:94-118 | what the capture queue holds after a run of reads: every queued packet passes the admission test, and there are no more packets than reads |
| Sniffer.CapturedMembers | listener/raw_tcp_listener.go:97-115 | a packet is queued iff it was read (not nil) and passes the admission test; every other packet is dropped silently |
| Sniffer.CapturedAppend | listener/raw_tcp_listener.go:94-118 | the sniffer keeps read order: capturing two batches in turn queues the first batch's admitted packets before the second's |
| Sniffer.ReadRawSocket | listener/raw_tcp_listener.go:94-118 | the read loop, with its skip-on-nil and skip-on-short-header steps, queues exactly `Captured(frames, port)` |
| Devices.FirstMatch | listener/raw_tcp_listener.go:73-78 | finds the first device whose name equals the configured name exactly; none iff no device has that name |
| Devices.FindInterface | listener/raw_tcp_listener.go:71-78 | the loop with `break` yields the name of the first exact match, or the empty string when nothing matches |
| Devices.StartSniffer | listener/raw_tcp_listener.go:64-82 | enumeration failure is fatal; otherwise it succeeds iff the name is non-empty and listed, and then returns that interface name; it fails with `InterfaceNotFound` otherwise |
| Dispatch.AfterPacket | listener/raw_tcp_listener.go:123-137 | after a packet event the registered acks are the old ones plus the packet's own ack |
| Dispatch.PacketEvent | listener/raw_tcp_listener.go:123-137 | a packet event adds only its own ack, and only when absent (size grows by at most one); it appends the packet to the message under that ack; no other entry changes |
| Dispatch.AfterCompletion | listener/raw_tcp_listener.go:53-55 | after a completion event the registered acks are the old ones minus the finished ack |
| Dispatch.CompletionEvent | listener/raw_tcp_listener.go:53-55 | a completion event removes exactly the finished ack and changes no other entry; it is a no-op when the ack is absent |
| Dispatch.Step | listener/raw_tcp_listener.go:49-62 | one pass of the loop: a packet leaves its ack registered and adds no other ack; a completion leaves its ack unregistered and adds no ack |
| Dispatch.Run | listener/raw_tcp_listener.go:49-62 | after any run of events, every registered ack was registered at the start or is the ack of an arrived packet |
| Dispatch.RunAt | listener/raw_tcp_listener.go:49-62 | after any run of events, an ack is in the table iff it was there at the start and never completed, or packets with it arrived after its last completion; its message holds those packets in arrival order |
| Dispatch.DeliveryContents | listener/raw_tcp_listener.go:52-54 | completing a registered ack delivers exactly one message under that ack; it holds the packets kept from the start (only if the ack never completed before) followed by every packet with that ack that arrived since its last completion, in arrival order |
| Dispatch.NoDeliveryWhenAbsent | listener/raw_tcp_listener.go:52-54 | completing an ack that is not registered delivers nothing |
| Dispatch.PacketsGroupedByAck | listener/raw_tcp_listener.go:123-137 | with only packet events from an empty table, there is one message per ack seen, and it holds exactly that ack's packets in processing order |
| Dispatch.RunSize | listener/raw_tcp_listener.go:123-137 | the table never holds more entries than it started with plus the number of packet events |
| Listener.TCPMessage.constructor | listener/raw_tcp_listener.go:131 | a new message carries the ack it is created for and has been handed no packets |
| Listener.TCPMessage.Add | listener/raw_tcp_listener.go:136 | handing a packet to a message appends it to the packets the message was handed |
| Listener.RAWTCPListener.constructor | listener/raw_tcp_listener.go:30-39 | a new listener has an empty table and an empty delivery queue, and keeps its device and port |
| Listener.RAWTCPListener.ProcessTCPPacket | listener/raw_tcp_listener.go:123-137 | keeps the invariant; the table value becomes `AfterPacket` of the old one. A present ack keeps its message and the map is unchanged. An absent ack gets exactly one fresh message inserted under it. Queue and finished messages are untouched |
| Listener.RAWTCPListener.Complete | listener/raw_tcp_listener.go:53-55 | keeps the invariant; appends exactly the message to the delivery queue and deletes its ack, all other entries unchanged |
| Listener.RAWTCPListener.Receive | listener/raw_tcp_listener.go:140-142 | pops the head of the delivery queue (`None` where the source would block on an empty queue); with the invariant, messages come out in completion order and only completed ones |
| Listener.RAWTCPListener.Report | listener/raw_tcp_listener.go:52-54 | keeps the invariant; the table value becomes `AfterCompletion` of the old one and the reported ack is deleted from the map; the very message object registered under that ack, if any, joins the back of the queue, holding that ack and its packets; otherwise the queue is unchanged; nothing is received |
| Listener.RAWTCPListener.Handle | listener/raw_tcp_listener.go:50-60 | one pass of the loop: keeps the invariant; the table value becomes `Dispatch.Step` of the old one; a packet leaves the queue unchanged; a completion of a registered ack appends the message object registered under it; the queue's values grow by exactly `Dispatch.DeliveredBy` of that event |
| Listener.RAWTCPListener.Listen | listener/raw_tcp_listener.go:48-62 | the loop over a run of events keeps the invariant; the table value becomes `Dispatch.Run` of the old one; the messages it appends to the queue hold exactly the acks and packets of `Dispatch.Delivered`, in order; the old queue stays its prefix, and what finished during the run is exactly what was appended |
| Listener.RAWTCPListen | listener/raw_tcp_listener.go:30-47 | creating a listener fails with the sniffer's fatal error when the device cannot be resolved; otherwise it returns a fresh valid listener with an empty table and queue, nothing completed and nothing received |

## Left out

- The capture library (`Findalldevs`, `Openlive`, `Setfilter`, `Next`, `Decode`) is not part of this model. Packets are already-decoded records. A read that returns nil is `None`. The result of enumerating the devices is a parameter.
- Opening the capture handle and installing the filter (listener/raw_tcp_listener.go:84-91) are left out, since both are calls into the capture library. Two points about that code are not modelled. First, `string(t.port)` turns the port number into a single character, not into decimal digits. Second, `Setfilter` runs before the `err` check on `Openlive`.
- Devices.StartSniffer: the name searched for is a parameter. The source compares against the global `Settings.Device`, not the listener's `device` field (line 74). `RAWTCPListen` passes its `device` argument.
- Goroutines, `select` and the channel capacities (lines 33-35) are not modelled. Each event is handled in one step. A channel send is a sequence append. The interleaving that `select` picks is the input sequence of `Listen`. Blocking on a full channel is not modelled. Blocking on an empty one is modelled only by `Receive` returning `None`.
- `log.Fatal` is a `Fatal` result, not a process exit.
- The inner workings of `TCPMessage` are in `tcp_message.go`, which is not part of this model. That covers payload buffering, completion on PSH, the inactivity timer and the once-only report. A message is only its ack and the packets handed to it. When it finishes is an input of `Listen`.
- Listener.RAWTCPListener.Report: a report of an ack with no registered message changes nothing, while the source (lines 52-54) still pushes the reporting message onto the delivery queue. A message reports once, while it is registered, so the case does not arise; the report carries only the ack.
- Sniffer.ReadRawSocket and Listener.RAWTCPListener.Listen: the source loops run forever. The model covers a finite prefix of their inputs.
