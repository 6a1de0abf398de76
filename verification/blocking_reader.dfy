/**
 The blocking readers of the handshake, as functions of what arrives, and their
 agreement with the event loop, to which the same sockets are handed over later.
 */
module BlockingReader {
  import opened Wire
  import opened Framing
  import opened Kernel
  import opened FrameReader
  import opened QueueRuns

  /** The outcome of a blocking read, and what is still to come after it. */
  datatype Outcome<+T> = Success(value: T, left: seq<Arrival>) | Failure(left: seq<Arrival>)

  /** EINTR is retried, so for these readers it might as well not happen. */
  function Retried(incoming: seq<Arrival>): seq<Arrival> {
    if incoming == [] then []
    else if incoming[0] == ReadFails(EINTR) then Retried(incoming[1..])
    else [incoming[0]] + Retried(incoming[1..])
  }

  /** The bytes a blocking reader can get before it fails. */
  function Reachable(incoming: seq<Arrival>): seq<byte> {
    Available(Retried(incoming))
  }

  /** `read_n_bytes`: anything but EINTR ends it, a zero too. */
  function ReadN(n: nat, incoming: seq<Arrival>, hungUp: bool): (o: Outcome<seq<byte>>)
    ensures o.Success? ==> |o.value| == n
    decreases Size(incoming)
  {
    if n == 0 then Success([], incoming)
    else
      ReadEffect(n, incoming, hungUp);
      var (got, left) := Read(n, incoming, hungUp);
      match got
      case ReadError(EINTR) => ReadN(n, left, hungUp)
      case ReadError(_) => Failure(left)
      case Got(d) =>
        if d == [] then Failure(left)
        else
          match ReadN(n - |d|, left, hungUp)
          case Success(more, rest) => Success(d + more, rest)
          case Failure(rest) => Failure(rest)
  }

  /** `left` is what remains of `incoming` once the first `n` reachable bytes are taken. */
  predicate Takes(n: nat, incoming: seq<Arrival>, left: seq<Arrival>) {
    && n <= |Reachable(incoming)|
    && n <= |Flatten(incoming)|
    && Reachable(incoming)[..n] == Flatten(incoming)[..n]
    && Reachable(left) == Reachable(incoming)[n..]
    && Flatten(left) == Flatten(incoming)[n..]
    && StopOf(Retried(left)) == StopOf(Retried(incoming))
    && Size(left) <= Size(incoming)
    && (n > 0 ==> Size(left) < Size(incoming))
  }

  lemma RetriedStep(n: nat, incoming: seq<Arrival>, hungUp: bool)
    requires n > 0
    ensures var (got, left) := Read(n, incoming, hungUp);
            match got
            case ReadError(EINTR) =>
              Retried(left) == Retried(incoming) && Flatten(left) == Flatten(incoming) && Size(left) < Size(incoming)
            case ReadError(_) => Reachable(incoming) == []
            case Got(d) =>
              if d == [] then Reachable(incoming) == []
              else
                && |d| <= n
                && Reachable(incoming) == d + Reachable(left)
                && Flatten(incoming) == d + Flatten(left)
                && StopOf(Retried(left)) == StopOf(Retried(incoming))
                && Size(left) < Size(incoming)
  {
    ReadEffect(n, incoming, hungUp);
    if incoming != [] && incoming[0].Segment? {
      var d, rest := incoming[0].data, incoming[1..];
      assert ([Segment(d)] + Retried(rest))[1..] == Retried(rest);
      if |d| > n {
        assert ([Segment(d[n..])] + rest)[1..] == rest;
        ShortReadSplits(n, d, Retried(rest));
      }
    }
  }

  /** A blocking read succeeds exactly when enough bytes come before anything stops it, and takes just those. */
  lemma {:induction false} ReadNIff(n: nat, incoming: seq<Arrival>, hungUp: bool)
    ensures var o := ReadN(n, incoming, hungUp);
            && (o.Success? <==> n <= |Reachable(incoming)|)
            && (o.Success? ==> o.value == Reachable(incoming)[..n] && Takes(n, incoming, o.left))
    decreases Size(incoming)
  {
    if n > 0 {
      RetriedStep(n, incoming, hungUp);
      var (got, left) := Read(n, incoming, hungUp);
      if got == ReadError(EINTR) {
        ReadNIff(n, left, hungUp);
      } else if got.Got? && got.bytes != [] {
        ReadNIff(n - |got.bytes|, left, hungUp);
        TakeBoth(n, got.bytes, incoming, left, hungUp);
      }
    } else {
      assert Reachable(incoming)[0..] == Reachable(incoming) && Flatten(incoming)[0..] == Flatten(incoming);
    }
  }

  lemma TakeBoth(n: nat, d: seq<byte>, incoming: seq<Arrival>, left: seq<Arrival>, hungUp: bool)
    requires 0 < |d| <= n
    requires Reachable(incoming) == d + Reachable(left) && Flatten(incoming) == d + Flatten(left)
    requires StopOf(Retried(left)) == StopOf(Retried(incoming)) && Size(left) < Size(incoming)
    ensures forall rest :: Takes(n - |d|, left, rest) ==> Takes(n, incoming, rest)
    ensures n - |d| <= |Reachable(left)| ==> Reachable(incoming)[..n] == d + Reachable(left)[..n - |d|]
  {
    forall rest | Takes(n - |d|, left, rest) ensures Takes(n, incoming, rest) {
      var m := n - |d|;
      assert (d + Reachable(left))[..n] == d + Reachable(left)[..m];
      assert (d + Flatten(left))[..n] == d + Flatten(left)[..m];
      assert (d + Reachable(left))[n..] == Reachable(left)[m..];
      assert (d + Flatten(left))[n..] == Flatten(left)[m..];
    }
  }

  lemma TakesThen(n: nat, m: nat, a: seq<Arrival>, b: seq<Arrival>, c: seq<Arrival>)
    requires Takes(n, a, b) && Takes(m, b, c)
    ensures Takes(n + m, a, c)
  {
    assert Reachable(a) == Reachable(a)[..n] + Reachable(b);
    assert Flatten(a) == Flatten(a)[..n] + Flatten(b);
    assert Reachable(a)[..n + m] == Reachable(a)[..n] + Reachable(b)[..m];
    assert Flatten(a)[..n + m] == Flatten(a)[..n] + Flatten(b)[..m];
    assert Reachable(a)[n + m..] == Reachable(b)[m..];
    assert Flatten(a)[n + m..] == Flatten(b)[m..];
  }

  /** `read_raw_packet`. */
  function ReadRaw(incoming: seq<Arrival>, hungUp: bool): Outcome<Frame> {
    match ReadN(HEADER_SIZE, incoming, hungUp)
    case Failure(left) => Failure(left)
    case Success(head, left) =>
      match ReadN(PayloadSize(head), left, hungUp)
      case Failure(rest) => Failure(rest)
      case Success(body, rest) => Success(FrameData(PacketType(head), body), rest)
  }

  /** The header at the head of `s`, alone or with the bytes after it. */
  lemma HeaderOfPrefix(s: seq<byte>)
    requires |s| >= HEADER_SIZE
    ensures PayloadSize(s[..HEADER_SIZE]) == PayloadSize(s) && PacketType(s[..HEADER_SIZE]) == PacketType(s)
  {
    assert s[..HEADER_SIZE][..4] == s[..4] && s[..HEADER_SIZE][4..6] == s[4..6];
  }

  /** It returns the first complete frame, if there is one, and takes that frame's bytes and no more. */
  lemma ReadRawIff(incoming: seq<Arrival>, hungUp: bool)
    ensures var o, s := ReadRaw(incoming, hungUp), Reachable(incoming);
            && (o.Success? <==> !Incomplete(s))
            && (o.Success? ==> o.value == FirstFrame(s) && Takes(FrameLength(s), incoming, o.left))
  {
    var s := Reachable(incoming);
    ReadNIff(HEADER_SIZE, incoming, hungUp);
    var o := ReadN(HEADER_SIZE, incoming, hungUp);
    if o.Success? {
      HeaderOfPrefix(s);
      var size := PayloadSize(s);
      ReadNIff(size, o.left, hungUp);
      var b := ReadN(size, o.left, hungUp);
      if b.Success? {
        assert s[HEADER_SIZE..][..size] == s[HEADER_SIZE..FrameLength(s)];
        TakesThen(HEADER_SIZE, size, incoming, o.left, b.left);
      }
    }
  }

  /** `read_raw_packet` again and again, until it fails. */
  function ReadRaws(incoming: seq<Arrival>, hungUp: bool): seq<Frame>
    decreases Size(incoming)
  {
    ReadRawIff(incoming, hungUp);
    match ReadRaw(incoming, hungUp)
    case Failure(_) => []
    case Success(f, left) => [f] + ReadRaws(left, hungUp)
  }

  lemma {:induction false} ReadRawsIsParse(incoming: seq<Arrival>, hungUp: bool)
    ensures ReadRaws(incoming, hungUp) == Parse(Reachable(incoming)).frames
    decreases Size(incoming)
  {
    ReadRawIff(incoming, hungUp);
    var o := ReadRaw(incoming, hungUp);
    if o.Success? {
      ReadRawsIsParse(o.left, hungUp);
    }
  }

  lemma {:induction false} WithoutInterrupts(incoming: seq<Arrival>)
    ensures StopOf(incoming) != Error(EINTR) ==> Reachable(incoming) == Available(incoming)
    ensures Available(incoming) <= Reachable(incoming)
  {
    if incoming != [] && incoming[0].Segment? {
      WithoutInterrupts(incoming[1..]);
      assert Retried(incoming)[1..] == Retried(incoming[1..]);
    }
  }

  /**
   The blocking reader and the event loop read the same frames from the same arrivals, unless a read
   that is interrupted keeps the event loop from finishing a frame: it takes EINTR for a failure.
   */
  lemma ReadersAgreeIff(incoming: seq<Arrival>, hungUp: bool, replies: seq<Reply>)
    requires var rx := NewConn(incoming, hungUp, replies).rx; !Stuck(rx)
    ensures var a := Available(incoming);
            && a <= Reachable(incoming)
            && (ReadRaws(incoming, hungUp) == Drain(NewConn(incoming, hungUp, replies).rx).delivered
                <==> || StopOf(incoming) != Error(EINTR)
                     || Incomplete(Parse(a).residue + Reachable(incoming)[|a|..]))
  {
    var rx := NewConn(incoming, hungUp, replies).rx;
    var a, r := Available(incoming), Reachable(incoming);
    ReadRawsIsParse(incoming, hungUp);
    WithoutInterrupts(incoming);
    DrainIsParse(rx);
    assert Pending(rx) == a;
    hide *;
    NothingMoreIff(a, r);
    if StopOf(incoming) != Error(EINTR) {
      NothingMoreIff(a, a);
    }
  }

  /** More bytes bring no more frames exactly when they do not finish the one that is unfinished. */
  lemma NothingMoreIff(a: seq<byte>, r: seq<byte>)
    requires a <= r
    ensures Parse(r).frames == Parse(a).frames <==> Incomplete(Parse(a).residue + r[|a|..])
  {
    assert r == a + r[|a|..];
    ParseResumes(a, r[|a|..]);
  }

  /** A heartbeat interrupted half way: one reader gets it, the other closes the connection. */
  lemma InterruptedBeat(replies: seq<Reply>)
    ensures var incoming := [Segment([0, 0, 0]), ReadFails(EINTR), Segment([0, 0, 0])];
            var rx := NewConn(incoming, false, replies).rx;
            && !Stuck(rx) && ReadRaws(incoming, false) == [FrameData(HEARTBEAT, [])]
            && Drain(rx).delivered == [] && Drain(rx).state == SckError
  {
    var incoming := [Segment([0, 0, 0]), ReadFails(EINTR), Segment([0, 0, 0])];
    var rx := NewConn(incoming, false, replies).rx;
    assert incoming[1..] == [ReadFails(EINTR), Segment([0, 0, 0])] && incoming[1..][1..] == [Segment([0, 0, 0])];
    assert incoming[1..][1..][1..] == [];
    assert Available(incoming) == [0, 0, 0] + [];
    assert StopOf(incoming) == Error(EINTR);
    IncompleteParse([0, 0, 0]);
    DrainIsParse(rx);
    assert Pending(rx) == [0, 0, 0];
    ReadRawsIsParse(incoming, false);
    BeatReachable();
    ParseTakesFirst(FrameData(HEARTBEAT, []), []);
    IncompleteParse([]);
  }

  lemma BeatReachable()
    ensures Reachable([Segment([0, 0, 0]), ReadFails(EINTR), Segment([0, 0, 0])]) == EncodeFrame(FrameData(HEARTBEAT, [])) + []
  {
    var first, last := Segment([0, 0, 0]), Segment([0, 0, 0]);
    assert [last][1..] == [] && Retried([last]) == [last];
    assert [ReadFails(EINTR), last][1..] == [last];
    assert [first, ReadFails(EINTR), last][1..] == [ReadFails(EINTR), last];
    assert Retried([first, ReadFails(EINTR), last]) == [first, last];
    assert [first, last][1..] == [last];
    assert Available([last]) == [0, 0, 0] + [];
    assert Available([first, last]) == [0, 0, 0] + [0, 0, 0];
    assert Bytes32(0) == [0, 0, 0, 0] && Bytes16(0) == [0, 0];
  }

  /** The number of heartbeats at the head of `fs`. */
  function LeadingBeats(fs: seq<Frame>): (k: nat)
    ensures k <= |fs|
  {
    if fs == [] || fs[0].packetType != HEARTBEAT then 0 else 1 + LeadingBeats(fs[1..])
  }

  /** `read_protobuf_packet`, up to the body that is then parsed. */
  function ReadTyped(expected: uint16, incoming: seq<Arrival>, hungUp: bool): Outcome<seq<byte>>
    decreases Size(incoming)
  {
    ReadNIff(HEADER_SIZE, incoming, hungUp);
    match ReadN(HEADER_SIZE, incoming, hungUp)
    case Failure(left) => Failure(left)
    case Success(head, left) =>
      ReadNIff(PayloadSize(head), left, hungUp);
      if PacketType(head) == HEARTBEAT then
        match ReadN(PayloadSize(head), left, hungUp)
        case Failure(rest) => Failure(rest)
        case Success(_, rest) => ReadTyped(expected, rest, hungUp)
      else if PacketType(head) != expected then Failure(left)
      else ReadN(PayloadSize(head), left, hungUp)
  }

  /** Bytes taken up by the heartbeats at the head of `fs` and the frame behind them. */
  function BytesThrough(fs: seq<Frame>): nat {
    if LeadingBeats(fs) < |fs| then |EncodeFrames(fs[..LeadingBeats(fs) + 1])| else |EncodeFrames(fs)|
  }

  lemma BytesThroughStep(fs: seq<Frame>)
    requires fs != []
    ensures fs[0].packetType != HEARTBEAT ==> BytesThrough(fs) == |EncodeFrame(fs[0])|
    ensures fs[0].packetType == HEARTBEAT ==> BytesThrough(fs) == |EncodeFrame(fs[0])| + BytesThrough(fs[1..])
  {
    var k := LeadingBeats(fs);
    if k < |fs| {
      assert fs[..k + 1][1..] == fs[1..][..k];
      if k == 0 {
        assert EncodeFrames(fs[..1]) == EncodeFrame(fs[0]) + [];
      }
    }
  }

  /** One frame of the loop, in terms of reading that frame whole. */
  lemma TypedByRaw(expected: uint16, incoming: seq<Arrival>, hungUp: bool)
    ensures var t, o := ReadTyped(expected, incoming, hungUp), ReadRaw(incoming, hungUp);
            match o
            case Failure(_) => t.Failure?
            case Success(f, left) =>
              if f.packetType == HEARTBEAT then t == ReadTyped(expected, left, hungUp)
              else if f.packetType == expected then t == Success(f.body, left)
              else t.Failure?
  {
    ReadNIff(HEADER_SIZE, incoming, hungUp);
    var h := ReadN(HEADER_SIZE, incoming, hungUp);
    if h.Success? {
      ReadNIff(PayloadSize(h.value), h.left, hungUp);
    }
  }

  /**
   It succeeds exactly when the first frame that is not a heartbeat is complete and of the type
   expected, and then takes the heartbeats before it and that frame, and no byte after it.
   */
  lemma {:induction false} ReadTypedIff(expected: uint16, incoming: seq<Arrival>, hungUp: bool)
    ensures var o, fs := ReadTyped(expected, incoming, hungUp), Parse(Reachable(incoming)).frames;
            var k := LeadingBeats(fs);
            && (o.Success? <==> k < |fs| && fs[k].packetType == expected)
            && (o.Success? ==> o.value == fs[k].body && Takes(BytesThrough(fs), incoming, o.left))
    decreases Size(incoming)
  {
    hide ReadTyped, ReadRaw;
    var s := Reachable(incoming);
    ReadRawIff(incoming, hungUp);
    TypedByRaw(expected, incoming, hungUp);
    var o := ReadRaw(incoming, hungUp);
    if o.Success? {
      var fs := Parse(s).frames;
      var later := Parse(Reachable(o.left)).frames;
      assert fs == [o.value] + later;
      BytesThroughStep(fs);
      assert fs[1..] == later;
      if o.value.packetType == HEARTBEAT {
        ReadTypedIff(expected, o.left, hungUp);
        var t := ReadTyped(expected, o.left, hungUp);
        if t.Success? {
          TakesThen(FrameLength(s), BytesThrough(later), incoming, o.left, t.left);
        }
      }
    }
  }

  // --- Handing a socket over to the event loop ---

  predicate NoNewFailures(incoming: seq<Arrival>, left: seq<Arrival>) {
    forall x <- left :: x.ReadFails? ==> x in incoming
  }

  lemma StillOnlyWaits(incoming: seq<Arrival>, left: seq<Arrival>)
    requires NoNewFailures(incoming, left)
    ensures OnlyWaits(incoming) ==> OnlyWaits(left)
  {
  }

  lemma {:induction false} ReadNLeaves(n: nat, incoming: seq<Arrival>, hungUp: bool)
    ensures NoNewFailures(incoming, ReadN(n, incoming, hungUp).left)
    decreases Size(incoming)
  {
    if n > 0 {
      ReadEffect(n, incoming, hungUp);
      var (got, left) := Read(n, incoming, hungUp);
      assert NoNewFailures(incoming, left);
      if got == ReadError(EINTR) {
        ReadNLeaves(n, left, hungUp);
      } else if got.Got? && got.bytes != [] {
        ReadNLeaves(n - |got.bytes|, left, hungUp);
      }
    }
  }

  lemma {:induction false} ReadTypedLeaves(expected: uint16, incoming: seq<Arrival>, hungUp: bool)
    ensures NoNewFailures(incoming, ReadTyped(expected, incoming, hungUp).left)
    decreases Size(incoming)
  {
    ReadNIff(HEADER_SIZE, incoming, hungUp);
    ReadNLeaves(HEADER_SIZE, incoming, hungUp);
    var h := ReadN(HEADER_SIZE, incoming, hungUp);
    if h.Success? {
      var size := PayloadSize(h.value);
      ReadNIff(size, h.left, hungUp);
      ReadNLeaves(size, h.left, hungUp);
      var b := ReadN(size, h.left, hungUp);
      if PacketType(h.value) == HEARTBEAT && b.Success? {
        ReadTypedLeaves(expected, b.left, hungUp);
      }
    }
  }

  /** Taking whole frames off the front of a stream takes them off its frames. */
  lemma TakenFrames(s: seq<byte>, all: seq<byte>, count: nat)
    requires count <= |Parse(s).frames|
    requires var n := |EncodeFrames(Parse(s).frames[..count])|;
             n <= |s| && n <= |all| && s[..n] == all[..n]
    ensures var n, fs := |EncodeFrames(Parse(s).frames[..count])|, Parse(s).frames[..count];
            && Parse(all).frames == fs + Parse(all[n..]).frames
            && Parse(all).residue == Parse(all[n..]).residue
  {
    hide *;
    var fs, gs := Parse(s).frames[..count], Parse(s).frames[count..];
    var n := |EncodeFrames(fs)|;
    ParseKeepsBytes(s);
    EncodeFramesConcat(fs, gs);
    assert fs + gs == Parse(s).frames;
    assert s[..n] == EncodeFrames(fs);
    assert all == (EncodeFrames(fs) + []) + all[n..];
    assert [] + all[n..] == all[n..];
    ResumeAt(fs, [], all[n..]);
  }

  lemma {:induction false} SamePrefixBeats(fs: seq<Frame>, gs: seq<Frame>)
    requires LeadingBeats(fs) < |fs| && LeadingBeats(fs) < |gs|
    requires fs[..LeadingBeats(fs) + 1] == gs[..LeadingBeats(fs) + 1]
    ensures LeadingBeats(gs) == LeadingBeats(fs)
  {
    var k := LeadingBeats(fs);
    assert fs[0] == fs[..k + 1][0] && gs[0] == gs[..k + 1][0];
    if fs[0].packetType == HEARTBEAT {
      assert fs[1..][..k] == fs[..k + 1][1..] && gs[1..][..k] == gs[..k + 1][1..];
      SamePrefixBeats(fs[1..], gs[1..]);
    }
  }

  /** After a successful handshake read the rest of the stream holds every later frame, whole and in order. */
  lemma HandoverStream(expected: uint16, incoming: seq<Arrival>, hungUp: bool)
    requires ReadTyped(expected, incoming, hungUp).Success?
    ensures var left, before := ReadTyped(expected, incoming, hungUp).left, Parse(Flatten(incoming)).frames;
            var k := LeadingBeats(before);
            && k < |before| && before[k].packetType == expected
            && Parse(Flatten(left)) == Parsed(before[k + 1..], Parse(Flatten(incoming)).residue)
  {
    hide ReadTyped;
    var left := ReadTyped(expected, incoming, hungUp).left;
    var s, all := Reachable(incoming), Flatten(incoming);
    var fs := Parse(s).frames;
    var k := LeadingBeats(fs);
    ReadTypedIff(expected, incoming, hungUp);
    TakenFrames(s, all, k + 1);
    var before := Parse(all).frames;
    assert before[..k + 1] == fs[..k + 1] && before[k + 1..] == Parse(Flatten(left)).frames;
    assert before[k] == before[..k + 1][k] && fs[k] == fs[..k + 1][k];
    SamePrefixBeats(fs, before);
  }

  /** A connection that has read nothing promises what its arrivals promise. */
  lemma FreshPromises(incoming: seq<Arrival>, hungUp: bool, replies: seq<Reply>)
    ensures var rx := NewConn(incoming, hungUp, replies).rx;
            && (Calm(rx) <==> (hungUp ==> |Parse(Flatten(incoming)).residue| < HEADER_SIZE))
            && (Fits(rx) <==> FramesFit(Flatten(incoming)))
  {
    hide Parse, Flatten, FramesFit;
    assert [] + Flatten(incoming) == Flatten(incoming);
  }

  lemma LaterFramesFit(s: seq<byte>, t: seq<byte>, m: nat)
    requires m <= |Parse(s).frames| && Parse(t) == Parsed(Parse(s).frames[m..], Parse(s).residue)
    ensures FramesFit(s) ==> FramesFit(t)
  {
    hide Parse;
    assert forall f <- Parse(s).frames[m..] :: f in Parse(s).frames;
  }

  /** And it delivers the frames of its arrivals. */
  lemma FreshDelivers(incoming: seq<Arrival>, replies: seq<Reply>)
    requires OnlyWaits(incoming)
    ensures var p, end := Parse(Flatten(incoming)), ProcessAll(NewConn(incoming, false, replies).rx);
            end.delivered == p.frames && end.held == p.residue
  {
    hide Parse, Flatten, ProcessAll, OnlyWaits;
    assert [] + Flatten(incoming) == Flatten(incoming);
    ProcessAllIsParse(NewConn(incoming, false, replies).rx);
  }

  /** Put into the event loop then, the socket delivers just the frames behind the one read. */
  lemma HandoverDelivers(expected: uint16, incoming: seq<Arrival>, replies: seq<Reply>)
    requires ReadTyped(expected, incoming, false).Success? && OnlyWaits(incoming)
    ensures var left, fs := ReadTyped(expected, incoming, false).left, Parse(Flatten(incoming)).frames;
            && LeadingBeats(fs) < |fs| && OnlyWaits(left)
            && ProcessAll(NewConn(incoming, false, replies).rx).delivered == fs
            && ProcessAll(NewConn(left, false, replies).rx).delivered == fs[LeadingBeats(fs) + 1..]
            && ProcessAll(NewConn(left, false, replies).rx).held == ProcessAll(NewConn(incoming, false, replies).rx).held
  {
    HandoverStream(expected, incoming, false);
    ReadTypedLeaves(expected, incoming, false);
    hide *;
    var left := ReadTyped(expected, incoming, false).left;
    StillOnlyWaits(incoming, left);
    FreshDelivers(incoming, replies);
    FreshDelivers(left, replies);
  }

  /** What the peer promised about its whole stream holds of what is left of it. */
  lemma HandoverKeepsPromises(expected: uint16, incoming: seq<Arrival>, hungUp: bool, replies: seq<Reply>)
    requires ReadTyped(expected, incoming, hungUp).Success?
    ensures var left := ReadTyped(expected, incoming, hungUp).left;
            var rx, later := NewConn(incoming, hungUp, replies).rx, NewConn(left, hungUp, replies).rx;
            (Calm(rx) ==> Calm(later)) && (Fits(rx) ==> Fits(later))
  {
    HandoverStream(expected, incoming, hungUp);
    hide *;
    var left, fs := ReadTyped(expected, incoming, hungUp).left, Parse(Flatten(incoming)).frames;
    FreshPromises(incoming, hungUp, replies);
    FreshPromises(left, hungUp, replies);
    LaterFramesFit(Flatten(incoming), Flatten(left), LeadingBeats(fs) + 1);
  }
}
