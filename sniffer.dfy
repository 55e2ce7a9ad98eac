/**
 * The sniffer loop of the raw TCP listener: it reads decoded packets from the
 * capture handle and puts on the capture queue only those that may end an
 * application message, namely TCP segments sent to the listened port with
 * the PSH control bit set.
 */
module Sniffer {
  import opened Wrappers
  import opened Packets

  /** The six control bits of a TCP header as section 3.1 of RFC 793 lists
      them, read off the flags word by place value, independently of the
      bit masks the listener uses. */
  datatype ControlBits = ControlBits(urg: bool, ack: bool, psh: bool, rst: bool, syn: bool, fin: bool)

  function Control(n: uint16): ControlBits {
    ControlBits(n / 32 % 2 == 1, n / 16 % 2 == 1, n / 8 % 2 == 1,
                n / 4 % 2 == 1, n / 2 % 2 == 1, n % 2 == 1)
  }

  /** The admission test applied to every decoded packet: at least two
      layers, the second one TCP, sent to the configured port, PSH set.
      Only a TCP segment sent to the configured port passes. */
  predicate Admit(p: Packet, port: int): (ok: bool)
    ensures ok ==> HasTcp(p) && TcpOf(p).destPort == port
  {
    && |p.headers| >= 2
    && p.headers[1].Tcp?
    && p.headers[1].tcp.destPort == port
    && BitAnd(p.headers[1].tcp.flags, TCP_PSH) != 0
  }

  /** Masking with TCP_PSH tests exactly the PSH bit of RFC 793. */
  lemma {:induction false} PshMaskIsPshBit(flags: uint16)
    ensures (BitAnd(flags, TCP_PSH) != 0) == Control(flags).psh
  {
    // BitAnd(flags, 8) shifts the mask down one bit per step until it is 1.
    assert BitAnd(flags / 8, 1) == flags / 8 % 2;
    if flags > 0 {
      assert BitAnd(flags, 8) == 2 * BitAnd(flags / 2, 4);
      if flags / 2 > 0 {
        assert BitAnd(flags / 2, 4) == 2 * BitAnd(flags / 4, 2);
        if flags / 4 > 0 {
          assert BitAnd(flags / 4, 2) == 2 * BitAnd(flags / 8, 1);
        }
      }
    }
  }

  /** The admission test, restated with the RFC 793 reading of the flags. */
  lemma AdmitMeans(p: Packet, port: int)
    ensures Admit(p, port) <==>
      HasTcp(p) && TcpOf(p).destPort == port && Control(TcpOf(p).flags).psh
  {
    if HasTcp(p) {
      PshMaskIsPshBit(TcpOf(p).flags);
    }
  }

  /** What the sniffer loop has put on the capture queue after reading
      `frames`, the successive results of the capture handle's read
      (`None` where the read returned no packet). */
  function Captured(frames: seq<Option<Packet>>, port: int): (q: seq<TcpPacket>)
    ensures |q| <= |frames|
    ensures forall i :: 0 <= i < |q| ==> Admit(q[i], port)
  {
    if frames == [] then []
    else
      var last := frames[|frames| - 1];
      var earlier := Captured(frames[..|frames| - 1], port);
      if last.Some? && Admit(last.value, port) then earlier + [last.value] else earlier
  }

  /** The sniffer keeps arrival order: reading one batch of frames and then
      another queues the first batch's admitted packets before the second's. */
  lemma {:induction false} CapturedAppend(f1: seq<Option<Packet>>, f2: seq<Option<Packet>>, port: int)
    ensures Captured(f1 + f2, port) == Captured(f1, port) + Captured(f2, port)
    decreases |f2|
  {
    if f2 == [] {
      assert f1 + f2 == f1;
    } else {
      var n := |f2| - 1;
      assert (f1 + f2)[..|f1 + f2| - 1] == f1 + f2[..n];
      CapturedAppend(f1, f2[..n], port);
    }
  }

  /** A packet reaches the capture queue exactly when it was read and passes
      the admission test; everything else is dropped. */
  lemma {:induction false} CapturedMembers(frames: seq<Option<Packet>>, port: int, p: Packet)
    ensures p in Captured(frames, port) <==> Some(p) in frames && Admit(p, port)
  {
    if frames != [] {
      var n := |frames| - 1;
      CapturedMembers(frames[..n], port, p);
      assert frames == frames[..n] + [frames[n]];
    }
  }

  /** The loop of `readRAWSocket` over a finite prefix of the capture. */
  method ReadRawSocket(frames: seq<Option<Packet>>, port: int) returns (queue: seq<TcpPacket>)
    ensures queue == Captured(frames, port)
  {
    queue := [];
    var i := 0;
    while i < |frames|
      invariant 0 <= i <= |frames|
      invariant queue == Captured(frames[..i], port)
    {
      var pkt := frames[i];
      assert frames[..i + 1][..i] == frames[..i];
      i := i + 1;
      if pkt.None? {
        continue;
      }
      var packet := pkt.value;
      if |packet.headers| < 2 {
        continue;
      }
      match packet.headers[1] {
        case Tcp(header) =>
          var destPort: int := header.destPort;
          if destPort == port && BitAnd(header.flags, TCP_PSH) != 0 {
            queue := queue + [packet];
          }
        case Other(_) =>
      }
    }
    assert frames[..i] == frames;
  }
}
