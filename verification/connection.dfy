/** The writing half of a connection: an ordered, bounded buffer in front of `write`. */
module Connection {
  import opened Wire
  import opened Framing
  import opened Kernel
  import opened FrameReader

  const WRITE_BUFFER_MAX: nat := 65536

  /**
   `accepted` is all the kernel has taken and `armed` what epoll waits for. `offered`,
   `posted` and `refused` record the bytes and frames that sends which returned true
   were given, and whether a send ever returned false.
   */
  datatype Writer = Writer(
    buffer: seq<byte>,
    offset: nat,
    accepted: seq<byte>,
    replies: seq<Reply>,
    armed: Interest,
    offered: seq<byte>,
    posted: seq<Frame>,
    refused: bool)

  /** A `NetworkElement` for a socket, with the kernel's side of it. */
  datatype Conn = Conn(rx: Reader, tx: Writer)

  datatype Sent = Sent(ok: bool, conn: Conn)

  /** Pending bytes are bounded, an empty buffer has offset 0, a non-empty one has bytes to send. */
  predicate Buffered(w: Writer) {
    && (w.buffer == [] ==> w.offset == 0)
    && (w.buffer != [] ==> w.offset < |w.buffer|)
    && |w.buffer| - w.offset <= WRITE_BUFFER_MAX
  }

  function Unsent(w: Writer): seq<byte>
    requires w.offset <= |w.buffer|
  {
    w.buffer[w.offset..]
  }

  /** Until a send is refused, no byte is lost, repeated or moved. */
  predicate Conserved(w: Writer) {
    && w.offset <= |w.buffer|
    && (!w.refused ==> w.accepted + Unsent(w) == w.offered)
  }

  /** Until a send is refused, the bytes offered are whole frames. */
  predicate Framed(w: Writer) {
    !w.refused ==> w.offered == EncodeFrames(w.posted)
  }

  /** The element is armed for input, and for output exactly when bytes wait. */
  predicate Awake(w: Writer) {
    w.armed == Interest(true, w.buffer != [])
  }

  function Overflow(c: Conn): Conn {
    c.(rx := c.rx.(state := SckError))
  }

  /** `send(fd, data, n)` on a known element. */
  function SendBytes(c: Conn, data: seq<byte>): Sent
    requires c.tx.offset <= |c.tx.buffer|
  {
    var w := c.tx;
    if w.buffer != [] then
      if |w.buffer| - w.offset + |data| > WRITE_BUFFER_MAX then
        Sent(false, Overflow(c.(tx := w.(refused := true))))
      else
        Sent(true, c.(tx := w.(buffer := w.buffer + data, offered := w.offered + data)))
    else
      var p := Push(data, w.replies);
      var w1 := w.(accepted := w.accepted + data[..p.count], replies := p.replies);
      match p.end
      case Dead => Sent(false, c.(tx := w1.(refused := true)))
      case Done => Sent(true, c.(tx := w1.(offered := w.offered + data)))
      case Blocked =>
        if |data| - p.count > WRITE_BUFFER_MAX then
          Sent(false, Overflow(c.(tx := w1.(refused := true))))
        else
          Sent(true, c.(tx := w1.(buffer := data[p.count..], offset := 0,
                                  armed := Interest(true, true), offered := w.offered + data)))
  }

  /** `send(fd, type, msg)`: the header, then the body unless it is empty. */
  function Post(c: Conn, f: Frame): (s: Sent)
    requires c.tx.offset <= |c.tx.buffer|
  {
    var s := SendBytes(c, EncodeHeader(|f.body|, f.packetType));
    SendKeepsBounds(c, EncodeHeader(|f.body|, f.packetType));
    if !s.ok then s
    else
      var s1 := if f.body == [] then s else SendBytes(s.conn, f.body);
      if !s1.ok then s1
      else Sent(true, s1.conn.(tx := s1.conn.tx.(posted := s1.conn.tx.posted + [f])))
  }

  /** `flush_write_buffer`. */
  function Flush(c: Conn): Sent
    requires c.tx.offset <= |c.tx.buffer|
  {
    var w := c.tx;
    var p := Push(Unsent(w), w.replies);
    var w1 := w.(accepted := w.accepted + w.buffer[w.offset..w.offset + p.count],
                 replies := p.replies, offset := w.offset + p.count);
    match p.end
    case Dead => Sent(false, c.(tx := w1))
    case Blocked => Sent(true, c.(tx := w1))
    case Done => Sent(true, c.(tx := w1.(buffer := [], offset := 0, armed := Interest(true, false))))
  }

  lemma SendKeepsBounds(c: Conn, data: seq<byte>)
    requires c.tx.offset <= |c.tx.buffer|
    ensures var n := SendBytes(c, data).conn; n.tx.offset <= |n.tx.buffer|
  {
  }

  /** A send touches only the write side, and the state only to mark an overflow. */
  lemma SendLeavesReader(c: Conn, data: seq<byte>)
    requires c.tx.offset <= |c.tx.buffer|
    ensures var n := SendBytes(c, data).conn;
            n.rx == c.rx || (n.rx == c.rx.(state := SckError) && n.tx.refused)
  {
  }

  /** Order and content survive any mix of direct writes, short writes, buffering and appending. */
  lemma SendConserves(c: Conn, data: seq<byte>)
    requires Buffered(c.tx) && Conserved(c.tx)
    ensures var s := SendBytes(c, data);
            && Buffered(s.conn.tx) && Conserved(s.conn.tx)
            && (s.ok ==> s.conn.tx.offered == c.tx.offered + data && s.conn.tx.refused == c.tx.refused)
            && (!s.ok ==> s.conn.tx.refused)
            && s.conn.tx.posted == c.tx.posted
  {
    var w := c.tx;
    if w.buffer != [] {
      assert w.accepted + (w.buffer + data)[w.offset..] == (w.accepted + Unsent(w)) + data;
    } else {
      var p := Push(data, w.replies);
      assert (w.accepted + data[..p.count]) + data[p.count..] == w.accepted + data;
      assert w.accepted + Unsent(w) == w.accepted;
      assert p.end.Done? ==> data[..p.count] == data;
    }
  }

  lemma SendOnlyAdds(c: Conn, data: seq<byte>)
    requires c.tx.offset <= |c.tx.buffer|
    ensures var n := SendBytes(c, data).conn;
            (Awake(c.tx) ==> Awake(n.tx)) && c.tx.accepted <= n.tx.accepted
  {
  }

  /** What a send reports is what it did: true when the frame's bytes were all taken, in order. */
  lemma PostConserves(c: Conn, f: Frame)
    requires Buffered(c.tx) && Conserved(c.tx)
    ensures var s := Post(c, f);
            && Buffered(s.conn.tx) && Conserved(s.conn.tx)
            && (s.ok ==>
                  && s.conn.tx.offered == c.tx.offered + EncodeFrame(f)
                  && s.conn.tx.posted == c.tx.posted + [f]
                  && s.conn.tx.refused == c.tx.refused)
            && (!s.ok ==> s.conn.tx.refused && s.conn.tx.posted == c.tx.posted)
            && (Framed(c.tx) ==> Framed(s.conn.tx))
  {
    EncodeFramesSnoc(c.tx.posted, f);
    var head := EncodeHeader(|f.body|, f.packetType);
    SendConserves(c, head);
    var s := SendBytes(c, head);
    if s.ok {
      if f.body != [] {
        SendConserves(s.conn, f.body);
        Concat3(c.tx.offered, head, f.body);
      } else {
        assert EncodeFrame(f) == head;
      }
    }
  }

  lemma PostKeeps(c: Conn, f: Frame)
    requires c.tx.offset <= |c.tx.buffer|
    ensures var n := Post(c, f).conn;
            && (Awake(c.tx) ==> Awake(n.tx))
            && c.tx.accepted <= n.tx.accepted
            && (n.rx == c.rx || (n.rx == c.rx.(state := SckError) && n.tx.refused))
            && n.tx.offset <= |n.tx.buffer|
  {
    var head := EncodeHeader(|f.body|, f.packetType);
    SendOnlyAdds(c, head);
    SendLeavesReader(c, head);
    SendKeepsBounds(c, head);
    var s := SendBytes(c, head);
    if s.ok && f.body != [] {
      SendOnlyAdds(s.conn, f.body);
      SendLeavesReader(s.conn, f.body);
      SendKeepsBounds(s.conn, f.body);
    }
  }

  /** Flushing moves bytes from the buffer to the kernel, in order, and changes nothing else. */
  lemma FlushConserves(c: Conn)
    requires Buffered(c.tx) && Conserved(c.tx)
    ensures var s := Flush(c);
            && Buffered(s.conn.tx) && Conserved(s.conn.tx)
            && s.conn.rx == c.rx
            && s.conn.tx.offered == c.tx.offered
            && s.conn.tx.posted == c.tx.posted
            && s.conn.tx.refused == c.tx.refused
            && s.conn.tx.accepted + Unsent(s.conn.tx) == c.tx.accepted + Unsent(c.tx)
            && c.tx.accepted <= s.conn.tx.accepted
  {
    var w := c.tx;
    var p := Push(Unsent(w), w.replies);
    MoveAcross(w.accepted, w.buffer, w.offset, p.count);
    if p.end.Done? {
      assert w.buffer[w.offset + p.count..] == [];
      assert (w.accepted + w.buffer[w.offset..]) + [] == w.accepted + w.buffer[w.offset..];
    }
  }

  lemma MoveAcross(taken: seq<byte>, s: seq<byte>, from: nat, n: nat)
    requires from + n <= |s|
    ensures (taken + s[from..from + n]) + s[from + n..] == taken + s[from..]
  {
    assert s[from..] == s[from..from + n] + s[from + n..];
  }
}
