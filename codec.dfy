/**
 * The wire codec of the domain server: packet headers, node identifiers and
 * socket addresses as fixed-width byte strings.
 *
 * The definitions of `packNodeId`, `packSocket`, `unpackSocket`,
 * `populateTypeAndVersion`, `numBytesForPacketHeader` and `packetVersionMatch`
 * live in shared headers that are not part of this model; here each is a
 * fixed-width encoder whose width is a named constant.
 */
module Codec {

  type byte = x: int | 0 <= x < 0x100
  type uint16 = x: int | 0 <= x < 0x1_0000
  type uint32 = x: int | 0 <= x < 0x1_0000_0000

  datatype Option<+T> = None | Some(value: T)

  /** An IPv4 socket address: address family, address and port. */
  datatype SockAddr = SockAddr(family: byte, addr: uint32, port: uint16)

  const AF_INET: byte := 2

  /** Size of the receive and broadcast buffers. */
  const MAX_PACKET_SIZE: nat := 1500

  /** Bytes written by `packNodeId`. */
  const ID_WIDTH: nat := 2
  /** Bytes written by `packSocket`: family, four address bytes, two port bytes. */
  const SOCKET_WIDTH: nat := 7
  /** Bytes written by `populateTypeAndVersion`: packet type, then version. */
  const HEADER_WIDTH: nat := 2

  /** Packet type tags (PacketHeaders.h is not part of this model). */
  const PACKET_TYPE_DOMAIN: byte := 'D' as int
  const PACKET_TYPE_DOMAIN_REPORT_FOR_DUTY: byte := 'C' as int
  const PACKET_TYPE_DOMAIN_LIST_REQUEST: byte := 'L' as int

  /** The protocol version this server was built with, for every packet type. */
  function VersionForPacketType(packetType: byte): byte
  {
    0
  }

  function PackUint16(x: uint16): (r: seq<byte>)
    ensures |r| == 2
  {
    [x / 0x100, x % 0x100]
  }

  function UnpackUint16(b: seq<byte>): (x: uint16)
    requires |b| == 2
    ensures PackUint16(x) == b
  {
    (b[0] as int) * 0x100 + b[1]
  }

  function PackUint32(x: uint32): (r: seq<byte>)
    ensures |r| == 4
  {
    PackUint16(x / 0x1_0000) + PackUint16(x % 0x1_0000)
  }

  function UnpackUint32(b: seq<byte>): (x: uint32)
    requires |b| == 4
    ensures PackUint32(x) == b
  {
    var hi := UnpackUint16(b[..2]);
    var lo := UnpackUint16(b[2..]);
    assert PackUint16(hi) + PackUint16(lo) == b;
    (hi as int) * 0x1_0000 + lo
  }

  /**
   * `packNodeId`: the identifier as a 16-bit big-endian value; identifiers
   * at or above 2^16 are truncated, as a store into a 16-bit field is.
   */
  function PackNodeId(id: nat): (r: seq<byte>)
    ensures |r| == ID_WIDTH
    ensures UnpackUint16(r) == id % 0x1_0000
  {
    PackUint16(id % 0x1_0000)
  }

  /** `packSocket`: family byte, then address and port in network order. */
  function PackSocket(s: SockAddr): (r: seq<byte>)
    ensures |r| == SOCKET_WIDTH
  {
    [s.family] + PackUint32(s.addr) + PackUint16(s.port)
  }

  /** `unpackSocket`: reads the first `SOCKET_WIDTH` bytes of `b`. */
  function UnpackSocket(b: seq<byte>): (s: SockAddr)
    requires |b| >= SOCKET_WIDTH
    ensures PackSocket(s) == b[..SOCKET_WIDTH]
  {
    var addr := UnpackUint32(b[1..5]);
    var port := UnpackUint16(b[5..7]);
    assert [b[0]] + PackUint32(addr) + PackUint16(port) == b[..SOCKET_WIDTH];
    SockAddr(b[0], addr, port)
  }

  /** Unpacking a packed socket gives back the socket exactly. */
  lemma SocketRoundTrip(s: SockAddr)
    ensures UnpackSocket(PackSocket(s)) == s
  {
    var b := PackSocket(s);
    assert b[1..5] == PackUint32(s.addr);
    assert b[5..7] == PackUint16(s.port);
    Uint32Injective(UnpackUint32(b[1..5]), s.addr);
    Uint16Injective(UnpackUint16(b[5..7]), s.port);
  }

  lemma Uint16Injective(x: uint16, y: uint16)
    requires PackUint16(x) == PackUint16(y)
    ensures x == y
  {
    assert x == (x / 0x100) * 0x100 + x % 0x100;
    assert y == (y / 0x100) * 0x100 + y % 0x100;
  }

  lemma Uint32Injective(x: uint32, y: uint32)
    requires PackUint32(x) == PackUint32(y)
    ensures x == y
  {
    assert PackUint32(x)[..2] == PackUint16(x / 0x1_0000);
    assert PackUint32(y)[..2] == PackUint16(y / 0x1_0000);
    assert PackUint32(x)[2..] == PackUint16(x % 0x1_0000);
    assert PackUint32(y)[2..] == PackUint16(y % 0x1_0000);
    Uint16Injective(x / 0x1_0000, y / 0x1_0000);
    Uint16Injective(x % 0x1_0000, y % 0x1_0000);
  }

  /** `populateTypeAndVersion`: the two header bytes the server puts on its own packets. */
  function Header(packetType: byte): (r: seq<byte>)
    ensures |r| == HEADER_WIDTH && r[0] == packetType
  {
    [packetType, VersionForPacketType(packetType)]
  }

  /**
   * `packetVersionMatch`: the version byte that follows the type byte is the
   * one this server was built with for that type.
   */
  predicate VersionMatch(packet: seq<byte>)
  {
    |packet| >= HEADER_WIDTH && packet[1] == VersionForPacketType(packet[0])
  }
}
