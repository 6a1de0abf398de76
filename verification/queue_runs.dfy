/** Every run of the event queue, and what holds at every point of it. */
module QueueRuns {
  import opened Wire
  import opened Framing
  import opened Kernel
  import opened FrameReader
  import opened Connection
  import opened EventQueue

  /** What the program calls, and what the network does in between. */
  datatype Op =
    | Put(fd: int, incoming: seq<Arrival>, hungUp: bool, replies: seq<Reply>)
    | Send(fd: int, frame: Frame)
    | Wait(events: seq<Event>)
    | CloseFd(fd: int)
    | Arrive(fd: int, more: seq<Arrival>, hangUp: bool)

  /** A new element for a socket on which some input may be waiting already. */
  function NewConn(incoming: seq<Arrival>, hungUp: bool, replies: seq<Reply>): Conn {
    Conn(Reader(SckHeader, [], incoming, hungUp, [], []),
         Writer([], 0, [], replies, Interest(true, false), [], [], false))
  }

  function ArriveAt(rx: Reader, more: seq<Arrival>, hangUp: bool): Reader {
    rx.(incoming := rx.incoming + more, hungUp := hangUp)
  }

  /** epoll reports live descriptors; a peer sends frames that fit and hangs up outside payloads. */
  predicate Allowed(q: Queue, op: Op) {
    match op
    case Put(fd, incoming, hungUp, replies) =>
      var rx := NewConn(incoming, hungUp, replies).rx;
      Calm(rx) && Fits(rx)
    case Arrive(fd, more, hangUp) =>
      fd in q.conns ==>
        var rx := q.conns[fd].rx;
        !rx.hungUp && Calm(ArriveAt(rx, more, hangUp)) && Fits(ArriveAt(rx, more, hangUp))
    case _ => true
  }

  function Apply(q: Queue, op: Op): Queue
    requires AllHealthy(q)
  {
    match op
    case Put(fd, incoming, hungUp, replies) =>
      // adding a descriptor that is in the epoll set already fails
      if fd in q.conns then q else q.(conns := q.conns[fd := NewConn(incoming, hungUp, replies)])
    case Send(fd, frame) => PostTo(q, fd, frame).1
    case Wait(events) => WaitAndProcess(q, events)
    case CloseFd(fd) => q.(conns := q.conns - {fd})
    case Arrive(fd, more, hangUp) =>
      if fd !in q.conns then q
      else WithReader(q, fd, ArriveAt(q.conns[fd].rx, more, hangUp))
  }

  predicate Good(q: Queue) {
    AllHealthy(q) && AllAwake(q)
  }

  lemma NewConnIsGood(incoming: seq<Arrival>, hungUp: bool, replies: seq<Reply>)
    requires var rx := NewConn(incoming, hungUp, replies).rx; Calm(rx) && Fits(rx)
    ensures Healthy(NewConn(incoming, hungUp, replies)) && Awake(NewConn(incoming, hungUp, replies).tx)
  {
  }

  lemma ApplyKeeps(q: Queue, op: Op)
    requires Good(q) && Allowed(q, op)
    ensures Good(Apply(q, op))
  {
    match op
    case Put(fd, incoming, hungUp, replies) => NewConnIsGood(incoming, hungUp, replies);
    case Send(fd, frame) =>
      PostOnlySends(q, fd, frame, fd);
      if fd in q.conns {
        OnlySentKeepsHealthy(q, Apply(q, op), fd);
      }
    case Wait(events) => NoLostWakeup(q, events);
    case CloseFd(fd) =>
    case Arrive(fd, more, hangUp) =>
  }

  predicate Run(q: Queue, ops: seq<Op>)
    requires Good(q)
    decreases |ops|
  {
    ops == [] ||
    (Allowed(q, ops[0]) && (ApplyKeeps(q, ops[0]); Run(Apply(q, ops[0]), ops[1..])))
  }

  function After(q: Queue, ops: seq<Op>): Queue
    requires Good(q) && Run(q, ops)
    decreases |ops|
  {
    if ops == [] then q
    else
      ApplyKeeps(q, ops[0]);
      After(Apply(q, ops[0]), ops[1..])
  }

  function Empty(reactions: seq<seq<Outgoing>>): Queue {
    Queue(map[], reactions, [])
  }

  lemma {:induction false} RunKeeps(q: Queue, ops: seq<Op>)
    requires Good(q) && Run(q, ops)
    ensures Good(After(q, ops))
    decreases |ops|
  {
    if ops != [] {
      ApplyKeeps(q, ops[0]);
      RunKeeps(Apply(q, ops[0]), ops[1..]);
    }
  }

  /**
   In every run, at every live connection: the buffer is bounded and well formed, what the
   kernel took and what waits are exactly what was sent, the frames delivered and the bytes
   held are what the parser makes of the bytes read, and epoll waits for the right things.
   */
  lemma EveryRun(reactions: seq<seq<Outgoing>>, ops: seq<Op>, fd: int)
    requires Run(Empty(reactions), ops) && fd in After(Empty(reactions), ops).conns
    ensures var c := After(Empty(reactions), ops).conns[fd];
            && |c.tx.buffer| - c.tx.offset <= WRITE_BUFFER_MAX
            && (if c.tx.buffer == [] then c.tx.offset == 0 else c.tx.offset < |c.tx.buffer|)
            && (!c.tx.refused ==> c.tx.accepted + c.tx.buffer[c.tx.offset..] == EncodeFrames(c.tx.posted))
            && Parse(c.rx.consumed) == Parsed(c.rx.delivered, c.rx.held)
            && (Reading(c.rx) ==> c.rx.state == Waiting(c.rx.held))
            && c.tx.armed == Interest(true, c.tx.buffer != [])
  {
    RunKeeps(Empty(reactions), ops);
    FaithfulIsParse(After(Empty(reactions), ops).conns[fd].rx);
  }

  /**
   What a program's calls do: a new element waits for input and will read just what arrives on it; a
   closed one is gone; a send that returns true adds its frame; none of them touches another element.
   */
  lemma CallsDo(q: Queue, op: Op, fd: int)
    requires Good(q) && (op.Put? || op.Send? || op.CloseFd?)
    ensures var p := Apply(q, op);
            && (fd != op.fd ==> (fd in p.conns <==> fd in q.conns) && (fd in q.conns ==> p.conns[fd] == q.conns[fd]))
            && (op == CloseFd(fd) ==> fd !in p.conns)
            && (op.Put? && op.fd == fd && fd !in q.conns ==>
                  && fd in p.conns
                  && Stream(p.conns[fd].rx) == Flatten(op.incoming) && p.conns[fd].rx.hungUp == op.hungUp
                  && p.conns[fd].rx.delivered == [] && p.conns[fd].rx.state.SckHeader?
                  && p.conns[fd].tx.buffer == p.conns[fd].tx.accepted == [] && p.conns[fd].tx.armed == Interest(true, false))
            && (op.Put? && fd in q.conns ==> p == q || fd != op.fd)
            && (op.Send? && op.fd == fd && fd in q.conns && !p.conns[fd].tx.refused ==>
                  p.conns[fd].tx.posted == q.conns[fd].tx.posted + [op.frame])
  {
    match op
    case Put(_, incoming, _, _) =>
      assert [] + Flatten(incoming) == Flatten(incoming);
    case Send(g, frame) =>
      PostOnlySends(q, g, frame, fd);
      if g in q.conns {
        PostConserves(q.conns[g], frame);
      }
    case CloseFd(_) =>
  }

  /** Reporting an event disarms its descriptor and no other. */
  lemma ReportDisarms(q: Queue, events: seq<Event>, fd: int)
    requires fd in q.conns
    ensures fd in Report(q, events).conns
    ensures Report(q, events).conns[fd].tx.armed ==
            if exists ev <- events :: ev.fd == fd then DISARMED else q.conns[fd].tx.armed
  {
  }
}
