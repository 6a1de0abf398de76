/** What a refused send leaves in the stream, and what the peer makes of the frames sent after it. */
module Refusals {
  import opened Wire
  import opened Framing
  import opened Kernel
  import opened FrameReader
  import opened Connection

  /** All that the peer will get: what the kernel has taken and what waits. */
  function Outbound(w: Writer): seq<byte>
    requires w.offset <= |w.buffer|
  {
    w.accepted + Unsent(w)
  }

  /** How many bytes of `data` a send adds to that. */
  function Added(c: Conn, data: seq<byte>): (k: nat)
    ensures k <= |data|
  {
    if SendAll(c, data) then |data|
    else if c.tx.buffer != [] then 0
    else Push(data, c.tx.replies).count
  }

  predicate SendAll(c: Conn, data: seq<byte>) {
    if c.tx.buffer != [] then |c.tx.buffer| - c.tx.offset + |data| <= WRITE_BUFFER_MAX
    else
      var p := Push(data, c.tx.replies);
      !p.end.Dead? && |data| - p.count <= WRITE_BUFFER_MAX
  }

  lemma SendIsAll(c: Conn, data: seq<byte>)
    requires Buffered(c.tx)
    ensures SendBytes(c, data).ok <==> SendAll(c, data)
    ensures !SendAll(c, data) ==> Added(c, data) < |data|
    ensures SendBytes(c, data).conn.tx.posted == c.tx.posted
  {
    hide Push;
  }

  /** A send adds all of its bytes when it returns true, and otherwise some at the front but never all. */
  lemma SendAdds(c: Conn, data: seq<byte>)
    requires Buffered(c.tx)
    ensures var s := SendBytes(c, data);
            && Buffered(s.conn.tx)
            && Outbound(s.conn.tx) == Outbound(c.tx) + data[..Added(c, data)]
  {
    hide Push;
    var w, n := c.tx, SendBytes(c, data).conn.tx;
    if w.buffer != [] {
      assert (w.buffer + data)[w.offset..] == w.buffer[w.offset..] + data;
      assert data[..0] == [] && data[..|data|] == data;
      Concat3(w.accepted, Unsent(w), data);
    } else {
      var p := Push(data, w.replies);
      assert Outbound(w) == w.accepted;
      assert data[..p.count] + data[p.count..] == data == data[..|data|];
      Concat3(w.accepted, data[..p.count], data[p.count..]);
      assert n.accepted == w.accepted + data[..p.count];
      assert Unsent(n) == if SendAll(c, data) then data[p.count..] else [];
    }
  }

  /** A refused frame leaves some of its bytes behind all earlier ones, and never all of them. */
  lemma RefusedPostLeavesPart(c: Conn, f: Frame) returns (k: nat)
    requires Buffered(c.tx) && !Post(c, f).ok
    ensures var n := Post(c, f).conn;
            && Buffered(n.tx) && k < |EncodeFrame(f)| && n.tx.posted == c.tx.posted
            && Outbound(n.tx) == Outbound(c.tx) + EncodeFrame(f)[..k]
  {
    var head := EncodeHeader(|f.body|, f.packetType);
    var s := SendBytes(c, head);
    SendAdds(c, head);
    SendIsAll(c, head);
    if !s.ok {
      k := Added(c, head);
      assert EncodeFrame(f)[..k] == head[..k];
    } else {
      hide SendBytes, SendAll, Added, Buffered;
      SendAdds(s.conn, f.body);
      SendIsAll(s.conn, f.body);
      var j := Added(s.conn, f.body);
      k := |head| + j;
      assert head[..|head|] == head && EncodeFrame(f)[..k] == head + f.body[..j];
      Concat3(Outbound(c.tx), head, f.body[..j]);
    }
  }

  // --- What comes behind a part of a frame ---

  lemma PartIsIncomplete(f: Frame, k: nat)
    requires k < |EncodeFrame(f)|
    ensures Incomplete(EncodeFrame(f)[..k])
  {
    var s := EncodeFrame(f);
    if k >= HEADER_SIZE {
      FrameLengthOfPrefix(s[..k], s[k..]);
      assert s[..k] + s[k..] == s == s + [];
      EncodedFrameIsFirst(f, []);
    }
  }

  /** A short frame whose header is not `f`'s. */
  function Other(f: Frame): (g: Frame)
    ensures g.packetType != f.packetType && g.packetType in {1, 2}
  {
    FrameData(if f.packetType == 1 then 2 else 1, [0])
  }

  function Copies(g: Frame, n: nat): seq<Frame> {
    if n == 0 then [] else [g] + Copies(g, n - 1)
  }

  lemma {:induction false} CopiesAreLong(g: Frame, n: nat)
    ensures |EncodeFrames(Copies(g, n))| >= n && |Copies(g, n)| == n
    ensures n > 0 ==> EncodeFrame(g) <= EncodeFrames(Copies(g, n))
  {
    if n > 0 {
      CopiesAreLong(g, n - 1);
    }
  }

  lemma OtherBytes(f: Frame)
    ensures var e := EncodeFrame(Other(f));
            |e| == 7 && e[0] == e[1] == e[2] == 0 && e[3] == 1 && e[4] == 0 && e[5] == Other(f).packetType
  {
    assert Bytes32(1) == [0, 0, 0, 1];
    assert Bytes16(Other(f).packetType) == [0, Other(f).packetType];
  }

  /** Behind a part of `f` a header is read that is not the one sent. */
  lemma HeaderShifted(f: Frame, k: nat, rest: seq<byte>)
    requires 0 < k < |EncodeFrame(f)| && EncodeFrame(Other(f)) <= rest
    ensures (EncodeFrame(f)[..k] + rest)[..HEADER_SIZE] != EncodeFrame(Other(f))[..HEADER_SIZE]
  {
    var e, s := EncodeFrame(Other(f)), EncodeFrame(f)[..k] + rest;
    OtherBytes(f);
    if k >= HEADER_SIZE {
      HeaderRoundTrip(|f.body|, f.packetType, []);
      HeaderRoundTrip(1, Other(f).packetType, []);
      assert s[..HEADER_SIZE] == EncodeHeader(|f.body|, f.packetType) + [];
      assert e[..HEADER_SIZE] == EncodeHeader(1, Other(f).packetType) + [];
    } else {
      var i := if k <= 3 then 3 else 5;
      assert s[i] == rest[i - k] == e[i - k] == 0 && e[i] != 0;
      assert s[..HEADER_SIZE][i] == s[i] && e[..HEADER_SIZE][i] == e[i];
    }
  }

  /** Enough frames behind a part of a frame make up a first frame that was not sent. */
  lemma PartIsMisread(f: Frame, k: nat) returns (gs: seq<Frame>)
    requires 0 < k < |EncodeFrame(f)|
    ensures !(Parse(EncodeFrame(f)[..k] + EncodeFrames(gs)).frames <= gs)
    ensures forall g <- gs :: g == Other(f)
  {
    var part, g := EncodeFrame(f)[..k], Other(f);
    OtherBytes(f);
    var n := FrameLength(part + EncodeFrame(g));
    gs := Copies(g, n + 1);
    CopiesAreLong(g, n + 1);
    CopiesAreCopies(g, n + 1);
    var rest := EncodeFrames(gs);
    var s := part + rest;
    FirstHeader(part, EncodeFrame(g), rest);
    HeaderShifted(f, k, rest);
    FirstFrameEncodes(s);
    assert Parse(s).frames[0] == FirstFrame(s);
    assert s[..FrameLength(s)][..HEADER_SIZE] == s[..HEADER_SIZE];
    assert FirstFrame(s) != g;
  }

  lemma {:induction false} CopiesAreCopies(g: Frame, n: nat)
    ensures forall h <- Copies(g, n) :: h == g
  {
    if n > 0 {
      CopiesAreCopies(g, n - 1);
    }
  }

  /** The first header behind a part depends on the next frame only. */
  lemma FirstHeader(part: seq<byte>, e: seq<byte>, rest: seq<byte>)
    requires |part| + |e| >= HEADER_SIZE && e <= rest
    ensures FrameLength(part + rest) == FrameLength(part + e)
  {
    assert rest == e + rest[|e|..];
    Concat3(part, e, rest[|e|..]);
    FrameLengthOfPrefix(part + e, rest[|e|..]);
  }

  /** Frames sent behind a part of a frame are read as sent, whatever they are, exactly when the part is empty. */
  lemma PartIsHarmlessIff(f: Frame, k: nat)
    requires k < |EncodeFrame(f)|
    ensures (forall gs :: Parse(EncodeFrame(f)[..k] + EncodeFrames(gs)).frames <= gs) <==> k == 0
  {
    if k == 0 {
      forall gs ensures Parse(EncodeFrame(f)[..k] + EncodeFrames(gs)).frames <= gs {
        ParseInvertsEncode(gs, []);
        assert EncodeFrame(f)[..k] + EncodeFrames(gs) == EncodeFrames(gs) + [];
      }
    } else {
      hide Parse, EncodeFrame, EncodeFrames;
      var gs := PartIsMisread(f, k);
    }
  }

  // --- A connection that goes on ---

  /** The bytes a peer gets when the frames `gs` follow, and what it makes of them. */
  ghost predicate ReadsAsSent(w: Writer, gs: seq<Frame>)
    requires w.offset <= |w.buffer|
  {
    Parse(Outbound(w) + EncodeFrames(gs)).frames <= w.posted + gs
  }

  /**
   After a refused frame the peer still reads just the frames sent before it, as long as nothing
   follows; and whatever follows is read as sent exactly when the refused frame left no byte behind.
   */
  lemma RefusalHarmlessIff(c: Conn, f: Frame)
    requires Buffered(c.tx) && !Post(c, f).ok && Outbound(c.tx) == EncodeFrames(c.tx.posted)
    ensures var n := Post(c, f).conn.tx;
            && Buffered(n)
            && Parse(Outbound(n)).frames == c.tx.posted == n.posted
            && ((forall gs :: ReadsAsSent(n, gs)) <==> Outbound(n) == Outbound(c.tx))
  {
    var n := Post(c, f).conn.tx;
    var k := RefusedPostLeavesPart(c, f);
    hide *;
    var part, fs := EncodeFrame(f)[..k], c.tx.posted;
    PartIsIncomplete(f, k);
    ParseInvertsEncode(fs, part);
    BehindPartIff(fs, f, k);
    assert Outbound(n) == EncodeFrames(fs) + part;
    ReadsAsSentMeans(n);
  }

  lemma ReadsAsSentMeans(w: Writer)
    requires w.offset <= |w.buffer|
    ensures forall gs :: ReadsAsSent(w, gs) <==> Parse(Outbound(w) + EncodeFrames(gs)).frames <= w.posted + gs
  {
  }

  lemma SamePrefix<T>(a: seq<T>, b: seq<T>, c: seq<T>)
    ensures a + b <= a + c <==> b <= c
  {
    assert (a + b)[|a|..] == b && (a + c)[|a|..] == c;
    if a + b <= a + c {
      assert b == (a + c)[..|a + b|][|a|..] == c[..|b|];
    }
  }

  lemma BehindPartIff(fs: seq<Frame>, f: Frame, k: nat)
    requires k < |EncodeFrame(f)|
    ensures (forall gs :: Parse((EncodeFrames(fs) + EncodeFrame(f)[..k]) + EncodeFrames(gs)).frames <= fs + gs) <==> k == 0
  {
    hide *;
    var part := EncodeFrame(f)[..k];
    PartIsHarmlessIff(f, k);
    forall gs
      ensures Parse((EncodeFrames(fs) + part) + EncodeFrames(gs)).frames <= fs + gs
         <==> Parse(part + EncodeFrames(gs)).frames <= gs
    {
      ResumeAt(fs, part, EncodeFrames(gs));
      SamePrefix(fs, Parse(part + EncodeFrames(gs)).frames, gs);
    }
  }

  /** Every frame sent after that goes behind the part. */
  lemma PostAdds(c: Conn, g: Frame)
    requires Buffered(c.tx) && Post(c, g).ok
    ensures var n := Post(c, g).conn.tx;
            && Buffered(n) && n.posted == c.tx.posted + [g]
            && Outbound(n) == Outbound(c.tx) + EncodeFrame(g)
  {
    var head := EncodeHeader(|g.body|, g.packetType);
    var s := SendBytes(c, head);
    SendAdds(c, head);
    SendIsAll(c, head);
    assert head[..|head|] == head && g.body[..|g.body|] == g.body;
    if g.body != [] {
      hide SendBytes, SendAll, Added, Buffered;
      SendAdds(s.conn, g.body);
      SendIsAll(s.conn, g.body);
      Concat3(Outbound(c.tx), head, g.body);
    } else {
      assert EncodeFrame(g) == head;
    }
  }

  /** A kernel that takes three bytes and then fails once. */
  const HICCUP := Writer([], 0, [], [Takes(3), WriteFails(EFAULT)], Interest(true, false), [], [], false)
  const AFTERWARDS := HICCUP.(accepted := [0, 0, 0], replies := [], refused := true)

  lemma ThreeBytesTaken(rx: Reader)
    ensures Post(Conn(rx, HICCUP), FrameData(1, [0])) == Sent(false, Conn(rx, AFTERWARDS))
  {
    var head := EncodeHeader(1, 1);
    assert Bytes32(1) == [0, 0, 0, 1] && head[..3] == [0, 0, 0] && [] + head[..3] == head[..3];
    assert HICCUP.replies[1..] == [WriteFails(EFAULT)] && [WriteFails(EFAULT)][1..] == [];
    assert Push(head[3..], [WriteFails(EFAULT)]) == Pushed(0, [], Dead);
    assert Push(head, HICCUP.replies) == Pushed(3, [], Dead);
  }

  /** The next frame makes the peer see a heartbeat nobody sent. */
  lemma HeartbeatNobodySent(rx: Reader)
    ensures var refused := Post(Conn(rx, HICCUP), FrameData(1, [0]));
            Buffered(refused.conn.tx) &&
            var sent := Post(refused.conn, FrameData(2, [5]));
            && !refused.ok && sent.ok && Buffered(sent.conn.tx)
            && sent.conn.tx.posted == [FrameData(2, [5])]
            && Parse(Outbound(sent.conn.tx)).frames != []
            && Parse(Outbound(sent.conn.tx)).frames[0] == FrameData(HEARTBEAT, [])
  {
    ThreeBytesTaken(rx);
    var d, g := Conn(rx, AFTERWARDS), FrameData(2, [5]);
    PostIsBuffered(d, g);
    PostAdds(d, g);
    hide Post, Push;
    assert Outbound(d.tx) == [0, 0, 0];
    assert Bytes32(1) == [0, 0, 0, 1] && Bytes16(2) == [0, 2];
    assert Bytes32(0) == [0, 0, 0, 0] && Bytes16(0) == [0, 0];
    var rest: seq<byte> := [1, 0, 2, 5];
    assert [0, 0, 0] + EncodeFrame(g) == EncodeFrame(FrameData(HEARTBEAT, [])) + rest;
    ParseTakesFirst(FrameData(HEARTBEAT, []), rest);
  }

  lemma PostIsBuffered(c: Conn, g: Frame)
    requires c.tx.buffer == [] && c.tx.replies == [] && c.tx.offset == 0 && |g.body| < WRITE_BUFFER_MAX - HEADER_SIZE
    ensures Post(c, g).ok
  {
  }
}
