/** The blocking reads and writes as loops over a socket, proved against `BlockingReader`. */
module SocketUtils {
  import opened Wire
  import opened Framing
  import opened Kernel
  import opened BlockingReader
  import opened NetQueues

  function Prepend(d: seq<byte>, o: Outcome<seq<byte>>): Outcome<seq<byte>> {
    match o
    case Success(more, left) => Success(d + more, left)
    case Failure(left) => Failure(left)
  }

  /** One `read` of the loop in `read_n_bytes`, with `d` read before it. */
  lemma ReadNOnce(d: seq<byte>, n: nat, incoming: seq<Arrival>, hungUp: bool)
    requires n > 0
    ensures var (got, left) := Read(n, incoming, hungUp);
            var o := Prepend(d, ReadN(n, incoming, hungUp));
            match got
            case ReadError(EINTR) => o == Prepend(d, ReadN(n, left, hungUp)) && Size(left) < Size(incoming)
            case ReadError(_) => o == Failure(left)
            case Got(more) =>
              if more == [] then o == Failure(left)
              else
                && |more| <= n
                && o == Prepend(d + more, ReadN(n - |more|, left, hungUp))
                && Size(left) < Size(incoming)
  {
    ReadEffect(n, incoming, hungUp);
    var (got, left) := Read(n, incoming, hungUp);
    if got.Got? && got.bytes != [] {
      var rest := ReadN(n - |got.bytes|, left, hungUp);
      if rest.Success? {
        Concat3(d, got.bytes, rest.value);
      }
    }
  }

  lemma PrependNothing(o: Outcome<seq<byte>>)
    ensures Prepend([], o) == o
  {
    if o.Success? {
      assert [] + o.value == o.value;
    }
  }

  /** `read_n_bytes`. */
  method ReadNBytes(sock: Socket, buffer: array<byte>, n: nat) returns (ok: bool)
    requires n <= buffer.Length
    modifies sock`incoming, buffer
    ensures ReadN(n, old(sock.incoming), sock.hungUp)
         == if ok then Success(buffer[..n], sock.incoming) else Failure(sock.incoming)
  {
    var total: nat := 0;
    PrependNothing(ReadN(n, sock.incoming, sock.hungUp));
    while total < n
      invariant total <= n
      invariant ReadN(n, old(sock.incoming), sock.hungUp)
             == Prepend(buffer[..total], ReadN(n - total, sock.incoming, sock.hungUp))
      decreases Size(sock.incoming)
    {
      ReadNOnce(buffer[..total], n - total, sock.incoming, sock.hungUp);
      var r := sock.ReadInto(buffer, total, n - total);
      if r.ReadError? {
        if r.errno.EINTR? {
          continue;
        }
        return false;
      }
      if r.bytes == [] {
        return false;
      }
      total := total + |r.bytes|;
    }
    assert buffer[..n] + [] == buffer[..n];
    return true;
  }

  /** `read_raw_packet`. */
  method ReadRawPacket(sock: Socket) returns (ok: bool, packetType: uint16, buffer: seq<byte>)
    modifies sock`incoming
    ensures match ReadRaw(old(sock.incoming), sock.hungUp)
            case Success(f, left) => ok && f == FrameData(packetType, buffer) && sock.incoming == left
            case Failure(left) => !ok && sock.incoming == left
  {
    packetType, buffer := 0, [];
    var hdr := new byte[HEADER_SIZE];
    ok := ReadNBytes(sock, hdr, HEADER_SIZE);
    if !ok {
      return;
    }
    packetType := PacketType(hdr[..HEADER_SIZE]);
    var len := PayloadSize(hdr[..HEADER_SIZE]);
    var body := new byte[len];
    if len > 0 {
      ok := ReadNBytes(sock, body, len);
    }
    buffer := body[..len];
  }

  /** What is left to do once a header has been read. */
  function AfterHeader(expected: uint16, head: seq<byte>, incoming: seq<Arrival>, hungUp: bool): Outcome<seq<byte>>
    requires |head| == HEADER_SIZE
  {
    if PacketType(head) == HEARTBEAT then
      match ReadN(PayloadSize(head), incoming, hungUp)
      case Failure(rest) => Failure(rest)
      case Success(_, rest) => ReadTyped(expected, rest, hungUp)
    else if PacketType(head) != expected then Failure(incoming)
    else ReadN(PayloadSize(head), incoming, hungUp)
  }

  lemma ReadTypedUnfolds(expected: uint16, incoming: seq<Arrival>, hungUp: bool)
    ensures var t := ReadTyped(expected, incoming, hungUp);
            match ReadN(HEADER_SIZE, incoming, hungUp)
            case Failure(left) => t == Failure(left)
            case Success(head, left) => t == AfterHeader(expected, head, left, hungUp)
  {
  }

  lemma ReadNothing(incoming: seq<Arrival>, hungUp: bool)
    ensures ReadN(0, incoming, hungUp) == Success([], incoming)
  {
  }

  /** `read_protobuf_packet`: the body of the packet expected, heartbeats before it skipped. */
  method ReadProtobufPacket(sock: Socket, expected: uint16) returns (ok: bool, body: seq<byte>)
    modifies sock`incoming
    ensures ReadTyped(expected, old(sock.incoming), sock.hungUp)
         == if ok then Success(body, sock.incoming) else Failure(sock.incoming)
  {
    body := [];
    var hdr := new byte[HEADER_SIZE];
    hide ReadN, ReadTyped;
    ReadTypedUnfolds(expected, sock.incoming, sock.hungUp);
    ok := ReadNBytes(sock, hdr, HEADER_SIZE);
    if !ok {
      return;
    }
    var packetType := PacketType(hdr[..HEADER_SIZE]);
    var len := PayloadSize(hdr[..HEADER_SIZE]);
    ghost var target := ReadTyped(expected, old(sock.incoming), sock.hungUp);
    while packetType == HEARTBEAT
      invariant fresh(hdr) && hdr.Length == HEADER_SIZE
      invariant packetType == PacketType(hdr[..HEADER_SIZE]) && len == PayloadSize(hdr[..HEADER_SIZE])
      invariant target == AfterHeader(expected, hdr[..HEADER_SIZE], sock.incoming, sock.hungUp)
      decreases Size(sock.incoming)
    {
      ReadNIff(len, sock.incoming, sock.hungUp);
      ReadNothing(sock.incoming, sock.hungUp);
      if len > 0 {
        var skip := new byte[len];
        ok := ReadNBytes(sock, skip, len);
        if !ok {
          return;
        }
      }
      ReadTypedUnfolds(expected, sock.incoming, sock.hungUp);
      ReadNIff(HEADER_SIZE, sock.incoming, sock.hungUp);
      ok := ReadNBytes(sock, hdr, HEADER_SIZE);
      if !ok {
        return;
      }
      packetType := PacketType(hdr[..HEADER_SIZE]);
      len := PayloadSize(hdr[..HEADER_SIZE]);
    }
    if packetType != expected {
      ok := false;
      return;
    }
    if len == 0 {
      ReadNothing(sock.incoming, sock.hungUp);
      ok := true;
      return;
    }
    var buf := new byte[len];
    ok := ReadNBytes(sock, buf, len);
    if ok {
      body := buf[..len];
    }
  }

  /** How a blocking write ends: all written, given up after `count` bytes, or never. */
  datatype Ending = Written(left: seq<Reply>) | GivenUp(count: nat, left: seq<Reply>) | Endless

  predicate TriedAgain(r: Reply) {
    r.WriteFails? && r.errno in {EAGAIN, EINTR}
  }

  /** `write_n_bytes` for `n` bytes; past the end of the list the kernel answers EAGAIN for ever. */
  function WriteAll(n: nat, replies: seq<Reply>): Ending
    decreases |replies|
  {
    if n == 0 then Written(replies)
    else if replies == [] then Endless
    else if TriedAgain(replies[0]) then WriteAll(n, replies[1..])
    else if replies[0].WriteFails? || replies[0].n == 0 then GivenUp(0, replies[1..])
    else if replies[0].n >= n then Written(replies[1..])
    else Later(replies[0].n, WriteAll(n - replies[0].n, replies[1..]))
  }

  function Later(done: nat, e: Ending): Ending {
    if e.GivenUp? then GivenUp(done + e.count, e.left) else e
  }

  /** How many bytes the kernel would take at most, and whether it ever refuses for good. */
  function Capacity(replies: seq<Reply>): nat {
    if replies == [] then 0 else (if replies[0].Takes? then replies[0].n else 0) + Capacity(replies[1..])
  }

  /** A blocking write never ends exactly when the kernel takes too little and never refuses for good. */
  lemma {:induction false} EndlessIff(n: nat, replies: seq<Reply>)
    ensures WriteAll(n, replies).Endless? <==>
            n > Capacity(replies) && forall r <- replies :: TriedAgain(r) || (r.Takes? && r.n > 0)
    decreases |replies|
  {
    if replies != [] {
      var r := replies[0];
      EndlessIff(if r.Takes? && r.n < n then n - r.n else n, replies[1..]);
      assert forall x :: x in replies <==> x == r || x in replies[1..];
    }
  }

  /** How many bytes it would take before it refuses for good. */
  function Offered(replies: seq<Reply>): nat {
    if replies == [] then 0
    else if TriedAgain(replies[0]) then Offered(replies[1..])
    else if replies[0].WriteFails? || replies[0].n == 0 then 0
    else replies[0].n + Offered(replies[1..])
  }

  /** A blocking write is complete exactly when the kernel takes enough before it refuses for good. */
  lemma {:induction false} WrittenIff(n: nat, replies: seq<Reply>)
    ensures WriteAll(n, replies).Written? <==> n <= Offered(replies)
    ensures WriteAll(n, replies).GivenUp? ==> WriteAll(n, replies).count == Offered(replies)
    decreases |replies|
  {
    if replies != [] {
      var r := replies[0];
      WrittenIff(if r.Takes? && r.n < n then n - r.n else n, replies[1..]);
    }
  }

  /** One `write` of the loop. */
  lemma WriteAllOnce(done: nat, n: nat, replies: seq<Reply>)
    requires n > 0 && !WriteAll(n, replies).Endless?
    ensures var (result, left) := Write(n, replies);
            var o := Later(done, WriteAll(n, replies));
            && |left| < |replies|
            && (match result
                case WriteError(EFAULT) => o == GivenUp(done, left)
                case WriteError(_) => o == Later(done, WriteAll(n, left))
                case Wrote(k) =>
                  && k <= n
                  && o == if k == 0 then GivenUp(done, left) else Later(done + k, WriteAll(n - k, left)))
  {
  }

  /** `write_n_bytes`, against a kernel that does not keep it waiting for ever. */
  method WriteNBytes(sock: Socket, data: seq<byte>) returns (ok: bool)
    requires !WriteAll(|data|, sock.replies).Endless?
    modifies sock`accepted, sock`replies
    ensures var o := WriteAll(|data|, old(sock.replies));
            && ok == o.Written? && sock.replies == o.left
            && (ok ==> sock.accepted == old(sock.accepted) + data)
            && (!ok ==> o.count < |data| && sock.accepted == old(sock.accepted) + data[..o.count])
  {
    ghost var all := WriteAll(|data|, sock.replies);
    var total: nat := 0;
    while total < |data|
      invariant total <= |data| && sock.accepted == old(sock.accepted) + data[..total]
      invariant all == Later(total, WriteAll(|data| - total, sock.replies))
      decreases |sock.replies|
    {
      WriteAllOnce(total, |data| - total, sock.replies);
      var r := sock.WriteOut(data[total..]);
      if r.WriteError? {
        if r.errno.EAGAIN? || r.errno.EINTR? {
          continue;
        }
        return false;
      }
      if r.n == 0 {
        return false;
      }
      assert data[..total] + data[total..][..r.n] == data[..total + r.n];
      total := total + r.n;
    }
    return true;
  }

  /** Neither of the two writes of a frame waits for ever. */
  predicate SendEnds(f: Frame, replies: seq<Reply>) {
    var head := WriteAll(HEADER_SIZE, replies);
    && !head.Endless?
    && (head.Written? ==> !WriteAll(|f.body|, head.left).Endless?)
  }

  /** `send_protobuf_packet`, after serialising: on success the peer gets one frame, else part of it. */
  method SendProtobufPacket(sock: Socket, f: Frame) returns (ok: bool)
    requires SendEnds(f, sock.replies)
    modifies sock`accepted, sock`replies
    ensures old(sock.accepted) <= sock.accepted <= old(sock.accepted) + EncodeFrame(f)
    ensures ok <==> sock.accepted == old(sock.accepted) + EncodeFrame(f)
  {
    ghost var before, head := sock.accepted, EncodeHeader(|f.body|, f.packetType);
    Concat3(before, head, f.body);
    ok := WriteNBytes(sock, EncodeHeader(|f.body|, f.packetType));
    if ok && f.body != [] {
      ok := WriteNBytes(sock, f.body);
    }
  }

  /** What one program sends so, the other reads back, whatever arrives behind it and however it is cut. */
  lemma SentIsRead(f: Frame, incoming: seq<Arrival>, hungUp: bool)
    requires EncodeFrame(f) <= Reachable(incoming)
    ensures ReadRaw(incoming, hungUp).Success? && ReadRaw(incoming, hungUp).value == f
    ensures f.packetType != HEARTBEAT ==>
              var o := ReadTyped(f.packetType, incoming, hungUp); o.Success? && o.value == f.body
  {
    var s := Reachable(incoming);
    var rest := s[|EncodeFrame(f)|..];
    assert s == EncodeFrame(f) + rest;
    EncodedFrameIsFirst(f, rest);
    ParseTakesFirst(f, rest);
    ReadRawIff(incoming, hungUp);
    ReadTypedIff(f.packetType, incoming, hungUp);
  }
}
