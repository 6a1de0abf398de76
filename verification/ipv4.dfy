/** Reading the IPv4 header of a raw packet (section 3.1 of RFC 791). */
module IPv4 {
  import opened Wire

  const PROTO_TCP: byte := 6
  const PROTO_UDP: byte := 17

  datatype IPv4Header = IPv4Header(
    version: byte,
    ihl: byte,
    totalLength: uint16,
    protocol: byte,
    srcIp: uint32,
    dstIp: uint32,
    srcPort: uint16,
    dstPort: uint16)

  predicate HasPorts(protocol: byte) {
    protocol == PROTO_TCP || protocol == PROTO_UDP
  }

  /** Version 4, all header words there, not shorter than claimed, and room for the ports if there are ports. */
  predicate WellFormed(data: seq<byte>) {
    && |data| >= 20
    && data[0] / 16 == 4
    && data[0] % 16 >= 5
    && |data| >= data[0] % 16 * 4
    && Value16(data[2..4]) <= |data|
    && (HasPorts(data[9]) ==> |data| >= data[0] % 16 * 4 + 4)
  }

  function Fields(data: seq<byte>): IPv4Header
    requires WellFormed(data)
  {
    var words := data[0] % 16;
    var at: nat := words * 4;
    IPv4Header(
      4, words, Value16(data[2..4]), data[9], Value32(data[12..16]), Value32(data[16..20]),
      if HasPorts(data[9]) then Value16(data[at..at + 2]) else 0,
      if HasPorts(data[9]) then Value16(data[at + 2..at + 4]) else 0)
  }

  /** `ipv4_parse`. */
  method Parse(data: seq<byte>) returns (ok: bool, out: IPv4Header)
    ensures ok <==> WellFormed(data)
    ensures ok ==> out == Fields(data)
  {
    out := IPv4Header(0, 0, 0, 0, 0, 0, 0, 0);
    if |data| < 20 {
      return false, out;
    }
    out := out.(version := data[0] / 16, ihl := data[0] % 16);
    if out.version != 4 {
      return false, out;
    }
    if out.ihl < 5 {
      return false, out;
    }
    var ipHeaderBytes: nat := out.ihl as int * 4;
    if |data| < ipHeaderBytes {
      return false, out;
    }
    out := out.(totalLength := Value16(data[2..4]), protocol := data[9]);
    if out.totalLength > |data| {
      return false, out;
    }
    out := out.(srcIp := Value32(data[12..16]), dstIp := Value32(data[16..20]), srcPort := 0, dstPort := 0);
    if HasPorts(out.protocol) {
      if |data| < ipHeaderBytes + 4 {
        return false, out;
      }
      out := out.(srcPort := Value16(data[ipHeaderBytes..ipHeaderBytes + 2]),
                  dstPort := Value16(data[ipHeaderBytes + 2..ipHeaderBytes + 4]));
    }
    return true, out;
  }

  /** A header that a packet can carry, with `options` after the fixed part. */
  predicate Carriable(h: IPv4Header, options: seq<byte>, payload: seq<byte>) {
    && h.version == 4
    && h.ihl < 16 && |options| == (h.ihl as int - 5) * 4
    && h.totalLength <= 20 + |options| + (if h.protocol in {6, 17} then 4 else 0) + |payload|
    && (h.protocol !in {6, 17} ==> h.srcPort == h.dstPort == 0)
  }

  /** The packet with this header, these options and this payload; `other` are the bytes that are not looked at. */
  function Packet(h: IPv4Header, other: seq<byte>, options: seq<byte>, payload: seq<byte>): seq<byte>
    requires Carriable(h, options, payload) && |other| == 8
  {
    Fixed(h, other) + (options + (Ports(h) + payload))
  }

  function Ports(h: IPv4Header): (s: seq<byte>)
    ensures |s| == if h.protocol in {6, 17} then 4 else 0
  {
    if h.protocol in {6, 17} then Bytes16(h.srcPort) + Bytes16(h.dstPort) else []
  }

  function Fixed(h: IPv4Header, other: seq<byte>): (s: seq<byte>)
    requires h.ihl < 16 && |other| == 8
    ensures |s| == 20
  {
    [0x40 + h.ihl, other[0]] + Bytes16(h.totalLength) + other[1..6] + [h.protocol] + other[6..8]
    + Bytes32(h.srcIp) + Bytes32(h.dstIp)
  }

  lemma FixedFields(h: IPv4Header, other: seq<byte>, rest: seq<byte>)
    requires h.ihl < 16 && |other| == 8
    ensures var s := Fixed(h, other) + rest;
            && s[0] == 0x40 + h.ihl && s[9] == h.protocol
            && Value16(s[2..4]) == h.totalLength
            && Value32(s[12..16]) == h.srcIp && Value32(s[16..20]) == h.dstIp
  {
    var s := Fixed(h, other) + rest;
    assert s[2..4] == Bytes16(h.totalLength);
    assert s[12..16] == Bytes32(h.srcIp);
    assert s[16..20] == Bytes32(h.dstIp);
    Bytes32RoundTrip(h.srcIp);
    Bytes32RoundTrip(h.dstIp);
  }

  /** Whatever header is put into a packet is the header read from it. */
  lemma PacketRoundTrip(h: IPv4Header, other: seq<byte>, options: seq<byte>, payload: seq<byte>)
    requires Carriable(h, options, payload) && |other| == 8
    ensures WellFormed(Packet(h, other, options, payload)) && Fields(Packet(h, other, options, payload)) == h
  {
    var data := Packet(h, other, options, payload);
    FixedFields(h, other, options + (Ports(h) + payload));
    if HasPorts(h.protocol) {
      var at: nat := h.ihl as int * 4;
      assert data == (Fixed(h, other) + options) + (Ports(h) + payload);
      assert data[at..at + 2] == Bytes16(h.srcPort);
      assert data[at + 2..at + 4] == Bytes16(h.dstPort);
    }
  }

  lemma Value16RoundTrip(b: seq<byte>)
    requires |b| == 2
    ensures Bytes16(Value16(b)) == b
  {
  }

  /** The fixed part of an accepted packet is the one of the header read from it. */
  lemma FixedOfFields(data: seq<byte>)
    requires WellFormed(data)
    ensures data[..20] == Fixed(Fields(data), [data[1]] + data[4..9] + data[10..12])
  {
    Value16RoundTrip(data[2..4]);
    Value32RoundTrip(data[12..16]);
    Value32RoundTrip(data[16..20]);
    var other := [data[1]] + data[4..9] + data[10..12];
    assert other[1..6] == data[4..9] && other[6..8] == data[10..12];
    assert data[..20] == [data[0], data[1]] + data[2..4] + data[4..9] + [data[9]] + data[10..12] + data[12..16] + data[16..20];
  }

  lemma PortsOfFields(data: seq<byte>)
    requires WellFormed(data)
    ensures var at: nat := Fields(data).ihl as int * 4;
            at + |Ports(Fields(data))| <= |data| && data[at..at + |Ports(Fields(data))|] == Ports(Fields(data))
  {
    if HasPorts(data[9]) {
      var at: nat := data[0] % 16 * 4;
      Value16RoundTrip(data[at..at + 2]);
      Value16RoundTrip(data[at + 2..at + 4]);
      assert data[at..at + 4] == data[at..at + 2] + data[at + 2..at + 4];
    }
  }

  lemma FourParts(s: seq<byte>, i: nat, j: nat, k: nat)
    requires i <= j <= k <= |s|
    ensures s == s[..i] + (s[i..j] + (s[j..k] + s[k..]))
  {
  }

  lemma Dissect(data: seq<byte>) returns (h: IPv4Header, other: seq<byte>, options: seq<byte>, payload: seq<byte>)
    requires WellFormed(data)
    ensures |other| == 8 && Carriable(h, options, payload) && data == Packet(h, other, options, payload)
  {
    var at: nat := data[0] % 16 * 4;
    h := Fields(data);
    var ports := at + |Ports(h)|;
    FixedOfFields(data);
    PortsOfFields(data);
    other, options, payload := [data[1]] + data[4..9] + data[10..12], data[20..at], data[ports..];
    hide Ports, Fixed;
    FourParts(data, 20, at, ports);
  }

  /** Accepted are just the packets that consist of a header, options and payload that fit each other. */
  lemma AcceptedIff(data: seq<byte>)
    ensures WellFormed(data) <==>
            exists h, other, options, payload ::
              |other| == 8 && Carriable(h, options, payload) && data == Packet(h, other, options, payload)
  {
    hide *;
    if WellFormed(data) {
      var h, other, options, payload := Dissect(data);
    }
    forall h, other, options, payload |
      |other| == 8 && Carriable(h, options, payload) && data == Packet(h, other, options, payload)
      ensures WellFormed(data)
    {
      PacketRoundTrip(h, other, options, payload);
    }
  }
}
