/**
 * Decoded packets as the capture library hands them to the listener.
 *
 * After decoding, a packet's `Headers` list holds one entry per protocol
 * layer above the link layer: the network header first, then the transport
 * header. Only the TCP header fields the listener reads, and the payload,
 * are kept.
 */
module Packets {

  /** Go's fixed-width unsigned integers, as the integers they denote. */
  type uint16 = x: int | 0 <= x < 0x1_0000
  type uint32 = x: int | 0 <= x < 0x1_0000_0000

  /** Go's bitwise `&` on unsigned integers, bit by bit from the least
      significant one. */
  function BitAnd(a: nat, b: nat): (r: nat)
    ensures r <= a && r <= b
    decreases a
  {
    if a == 0 || b == 0 then 0
    else 2 * BitAnd(a / 2, b / 2) + (if a % 2 == 1 && b % 2 == 1 then 1 else 0)
  }

  /** The mask the listener tests the flags with: the PSH control bit, the
      fourth of the control field of section 3.1 of RFC 793 counting from FIN
      at the least significant end. */
  const TCP_PSH: uint16 := 0x08

  datatype TcpHeader = TcpHeader(
    srcPort: uint16,
    destPort: uint16,
    seqNum: uint32,
    ack: uint32,
    flags: uint16)

  /** One decoded protocol layer: a TCP header, or any other layer
      (IPv4, IPv6, UDP, ICMP, ARP, ...) named by its kind. */
  datatype Header = Tcp(tcp: TcpHeader) | Other(layer: string)

  datatype Packet = Packet(headers: seq<Header>, payload: seq<bv8>)

  /** The second decoded layer is a TCP header. */
  predicate HasTcp(p: Packet) {
    |p.headers| >= 2 && p.headers[1].Tcp?
  }

  /** A packet whose transport layer is TCP: the only packets the
      dispatcher ever receives. */
  type TcpPacket = p: Packet | HasTcp(p)
    witness Packet([Other("ip"), Tcp(TcpHeader(0, 0, 0, 0, 0))], [])

  function TcpOf(p: TcpPacket): TcpHeader {
    p.headers[1].tcp
  }

  /** The acknowledgment number, which identifies the message a packet belongs to. */
  function AckOf(p: TcpPacket): uint32 {
    TcpOf(p).ack
  }
}
