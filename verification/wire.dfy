/** Bytes on the wire and the packed 6-byte packet header. */
module Wire {

  type byte = x: int | 0 <= x < 0x100
  type uint16 = x: int | 0 <= x < 0x1_0000
  type uint32 = x: int | 0 <= x < 0x1_0000_0000
  type uint64 = x: int | 0 <= x < 0x1_0000_0000_0000_0000

  const HEADER_SIZE: nat := 6

  /** The four bytes of a 32-bit value in network order. */
  function Bytes32(x: uint32): (b: seq<byte>)
    ensures |b| == 4
  {
    [x / 0x100_0000, x / 0x1_0000 % 0x100, x / 0x100 % 0x100, x % 0x100]
  }

  function Value32(b: seq<byte>): uint32
    requires |b| == 4
  {
    b[0] as int * 0x100_0000 + b[1] as int * 0x1_0000 + b[2] as int * 0x100 + b[3]
  }

  /** The two bytes of a 16-bit value in network order. */
  function Bytes16(x: uint16): (b: seq<byte>)
    ensures |b| == 2
  {
    [x / 0x100, x % 0x100]
  }

  function Value16(b: seq<byte>): uint16
    requires |b| == 2
  {
    b[0] as int * 0x100 + b[1]
  }

  /** A `PacketHeader(payloadSize, packetType)` as it lies in memory. */
  function EncodeHeader(payloadSize: uint32, packetType: uint16): (raw: seq<byte>)
    ensures |raw| == HEADER_SIZE
  {
    Bytes32(payloadSize) + Bytes16(packetType)
  }

  function PayloadSize(raw: seq<byte>): uint32
    requires |raw| >= HEADER_SIZE
  {
    Value32(raw[..4])
  }

  function PacketType(raw: seq<byte>): uint16
    requires |raw| >= HEADER_SIZE
  {
    Value16(raw[4..6])
  }

  lemma Bytes32RoundTrip(x: uint32)
    ensures Value32(Bytes32(x)) == x
  {
    var high, low := x / 0x1_0000, x % 0x1_0000;
    assert x / 0x100_0000 == high / 0x100;
    assert x / 0x100 % 0x100 == low / 0x100;
  }

  lemma Value32RoundTrip(b: seq<byte>)
    requires |b| == 4
    ensures Bytes32(Value32(b)) == b
  {
    var x := Value32(b);
    assert x / 0x100_0000 == b[0];
    assert x / 0x1_0000 == b[0] as int * 0x100 + b[1];
    assert x / 0x100 == b[0] as int * 0x1_0000 + b[1] as int * 0x100 + b[2];
  }

  /** Reading back a header that was written gives its two fields, whatever follows it. */
  lemma HeaderRoundTrip(payloadSize: uint32, packetType: uint16, rest: seq<byte>)
    ensures PayloadSize(EncodeHeader(payloadSize, packetType) + rest) == payloadSize
    ensures PacketType(EncodeHeader(payloadSize, packetType) + rest) == packetType
  {
    var raw := EncodeHeader(payloadSize, packetType) + rest;
    assert raw[..4] == Bytes32(payloadSize);
    assert raw[4..6] == Bytes16(packetType);
    Bytes32RoundTrip(payloadSize);
  }

  /** Every six bytes are the header of exactly the fields read from them. */
  lemma HeaderIsItsFields(raw: seq<byte>)
    requires |raw| >= HEADER_SIZE
    ensures EncodeHeader(PayloadSize(raw), PacketType(raw)) == raw[..HEADER_SIZE]
  {
    Value32RoundTrip(raw[..4]);
    assert Bytes16(Value16(raw[4..6])) == raw[4..6];
    assert raw[..6] == raw[..4] + raw[4..6];
  }
}
