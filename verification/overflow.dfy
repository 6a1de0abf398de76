/**
 What becomes of an element whose write buffer overflows. `send` promises that it is
 closed; the code marks it and closes it at its next input event, unless the send came
 from the handler of the element's own frame, which leaves no mark at all.
 */
module Overflow {
  import opened Wire
  import opened Framing
  import opened Kernel
  import opened FrameReader
  import opened Connection
  import opened EventQueue

  /** A refused send marks the element exactly when it overflows the buffer, and not when the kernel refuses. */
  lemma RefusedMarksIff(c: Conn, data: seq<byte>)
    requires c.tx.offset <= |c.tx.buffer| && !c.rx.state.SckError? && !SendBytes(c, data).ok
    ensures SendBytes(c, data).conn.tx.refused
    ensures var p := Push(data, c.tx.replies);
            SendBytes(c, data).conn.rx.state.SckError?
            <==> if c.tx.buffer != [] then |Unsent(c.tx)| + |data| > WRITE_BUFFER_MAX
                 else !p.end.Dead? && |data| - p.count > WRITE_BUFFER_MAX
  {
    hide Push;
    if c.tx.buffer == [] {
      var p := Push(data, c.tx.replies);
      match p.end
      case Dead =>
      case Done =>
      case Blocked =>
    }
  }

  /** A marked element is closed by any event that reports input; output alone does not close it. */
  lemma MarkedClosesIff(q: Queue, ev: Event)
    requires AllHealthy(q) && ev.fd in q.conns && q.conns[ev.fd].rx.state.SckError?
    ensures Shaped(q.conns[ev.fd].rx) && !Stuck(q.conns[ev.fd].rx)
    ensures ev.fd !in Handle(q, ev).conns
       <==> || ev.readable || ev.error || ev.hangup || !ev.rearms
            || (ev.writable && Push(Unsent(q.conns[ev.fd].tx), q.conns[ev.fd].tx.replies).end.Dead?)
  {
    HealthyDrain(q.conns[ev.fd].rx);
    DrainAtReads(q, ev.fd);
    var q1 := Input(q, ev);
    OutputKeepsFd(q1, ev);
  }

  lemma OutputKeepsFd(q: Queue, ev: Event)
    requires Sound(q) && ev.fd in q.conns
    ensures Output(q, ev).0 <==> (ev.writable ==> !Push(Unsent(q.conns[ev.fd].tx), q.conns[ev.fd].tx.replies).end.Dead?)
  {
  }

  /** After the handler of `fd` has made `g` overflow, `g` is still marked exactly when it is not `fd`. */
  lemma MarkSurvivesIff(q: Queue, fd: int, g: int)
    requires Sound(q) && fd in q.conns && Shaped(q.conns[fd].rx) && q.conns[fd].rx.state.SckReady?
    requires Sound(WithReader(q, fd, Deliver(q.conns[fd].rx)))
    requires var seen := React(WithReader(q, fd, Deliver(q.conns[fd].rx)));
             g in seen.conns && seen.conns[g].rx.state.SckError?
    ensures g in TurnAt(q, fd).conns
    ensures TurnAt(q, fd).conns[g].rx.state.SckError? <==> g != fd
  {
    ReactOnlySends(WithReader(q, fd, Deliver(q.conns[fd].rx)), fd);
  }

  const BEAT: seq<byte> := [0, 0, 0, 0, 0, 0]

  const FLOOD: Frame := FrameData(0, seq(WRITE_BUFFER_MAX + 1, _ => 0))

  const BEFORE := Reader(SckHeader, [], [Segment(BEAT)], false, [], [])
  const HALFWAY := Reader(SckPayload, BEAT, [], false, BEAT, [])

  /** A peer that takes nothing. */
  const IDLE := Writer([], 0, [], [], Interest(true, false), [], [], false)

  /** A handler that answers a heartbeat with more than the write buffer holds. */
  const FLOODED := Queue(map[1 := Conn(BEFORE, IDLE)], [[Outgoing(1, FLOOD)]], [])

  lemma BeatIsOneFrame()
    ensures Parse(BEAT) == Parsed([FrameData(0, [])], [])
  {
    assert BEAT == EncodeFrame(FrameData(0, [])) + [];
    ParseTakesFirst(FrameData(0, []), []);
  }

  lemma BeatTurns()
    ensures Turn(BEFORE) == Again(HALFWAY)
    ensures Turn(HALFWAY) == Again(HALFWAY.(state := SckReady))
  {
    assert [] + BEAT == BEAT && BEAT + [] == BEAT;
  }

  /** A frame that is too long for the buffer is refused by a peer that takes nothing. */
  lemma PostRefuses(c: Conn, f: Frame)
    requires c.tx.buffer == [] && c.tx.replies == [] && |f.body| > WRITE_BUFFER_MAX
    requires c.tx.offset <= |c.tx.buffer|
    ensures Post(c, f).conn.tx.refused
  {
    var s := SendBytes(c, EncodeHeader(|f.body|, f.packetType));
    assert s.ok && |s.conn.tx.buffer| == HEADER_SIZE;
  }

  /** The handler runs with the frame complete, and its answer is refused. */
  lemma ReactionRefused(q: Queue)
    requires q == WithReader(FLOODED, 1, HALFWAY.(state := SckReady))
    requires Sound(q)
    ensures TurnAt(q, 1).conns[1].tx.refused
  {
    var q1 := WithReader(q, 1, Deliver(q.conns[1].rx));
    ReactOnlySends(q1, 1);
    PostRefuses(q1.conns[1], FLOOD);
    var q2 := PostTo(q1.(reactions := []), 1, FLOOD).1;
    assert q2.conns[1].tx.refused;
    assert q1.reactions[1..] == [];
    PostAllOnlySends(q1.(reactions := []), [Outgoing(1, FLOOD)], 1);
    assert PostAll(q1.(reactions := []), [Outgoing(1, FLOOD)]) == q2;
  }

  lemma RefusedStays(q: Queue)
    requires Sound(q) && 1 in q.conns && Shaped(q.conns[1].rx) && !Stuck(q.conns[1].rx)
    requires q.conns[1].tx.refused
    ensures 1 in DrainAt(q, 1).conns && DrainAt(q, 1).conns[1].tx.refused
  {
    DrainAtReads(q, 1);
  }

  lemma RefusedWhenReady(q: Queue)
    requires q == WithReader(FLOODED, 1, HALFWAY.(state := SckReady))
    requires Sound(q) && !Stuck(q.conns[1].rx)
    ensures 1 in DrainAt(q, 1).conns && DrainAt(q, 1).conns[1].tx.refused
  {
    ReactionRefused(q);
    TurnAtReads(q, 1);
    TurnProgress(q.conns[1].rx);
    RefusedStays(TurnAt(q, 1));
  }

  lemma RefusedWhenHalfway(q: Queue)
    requires q == WithReader(FLOODED, 1, HALFWAY)
    requires Sound(q) && !Stuck(HALFWAY)
    ensures 1 in DrainAt(q, 1).conns && DrainAt(q, 1).conns[1].tx.refused
  {
    BeatTurns();
    TurnAtReads(q, 1);
    TurnProgress(HALFWAY);
    assert TurnAt(q, 1) == WithReader(FLOODED, 1, HALFWAY.(state := SckReady));
    RefusedWhenReady(TurnAt(q, 1));
  }

  lemma FloodRefused()
    requires Sound(FLOODED) && Shaped(BEFORE) && !Stuck(BEFORE)
    ensures 1 in DrainAt(FLOODED, 1).conns && DrainAt(FLOODED, 1).conns[1].tx.refused
  {
    BeatTurns();
    TurnAtReads(FLOODED, 1);
    TurnProgress(BEFORE);
    assert TurnAt(FLOODED, 1) == WithReader(FLOODED, 1, HALFWAY);
    RefusedWhenHalfway(TurnAt(FLOODED, 1));
  }

  lemma FloodedIsHealthy()
    ensures AllHealthy(FLOODED)
  {
    BeatIsOneFrame();
    assert [] + BEAT == BEAT;
    assert Flatten([Segment(BEAT)]) == BEAT;
  }

  lemma FloodedReads()
    requires Shaped(BEFORE) && !Stuck(BEFORE)
    ensures Drain(BEFORE).state.SckHeader?
  {
    DrainIsParse(BEFORE);
    BeatIsOneFrame();
    assert BEAT + Available([]) == BEAT && [] + BEAT == BEAT;
    assert Pending(BEFORE) == BEAT;
  }

  /** The promise fails: a frame was refused, yet the element stays, unmarked, and nothing is closed. */
  lemma OwnOverflowIsForgotten()
    ensures AllHealthy(FLOODED) && Shaped(BEFORE) && !Stuck(BEFORE)
    ensures var p := Handle(FLOODED, Event(1, true, false, false, false, true));
            && 1 in p.conns && p.closed == []
            && p.conns[1].tx.refused && p.conns[1].rx.state.SckHeader?
  {
    FloodedIsHealthy();
    HealthyDrain(BEFORE);
    hide Drain, DrainAt, Stuck;
    FloodedReads();
    DrainAtReads(FLOODED, 1);
    FloodRefused();
    assert FLOODED.closed == [];
  }
}
