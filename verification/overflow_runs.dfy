/** The mark of an overflow over whole batches and runs. */
module OverflowRuns {
  import opened Wire
  import opened Kernel
  import opened FrameReader
  import opened Connection
  import opened EventQueue
  import opened QueueRuns
  import opened Overflow

  predicate Marked(q: Queue, fd: int) {
    fd in q.conns && q.conns[fd].rx.state.SckError?
  }

  lemma InputKeepsMark(q: Queue, ev: Event, fd: int)
    requires AllHealthy(q) && ev.fd in q.conns && Marked(q, fd)
    ensures Shaped(q.conns[ev.fd].rx) && !Stuck(q.conns[ev.fd].rx)
    ensures Marked(Input(q, ev), fd)
  {
    HealthyDrain(q.conns[ev.fd].rx);
    DrainAtReads(q, ev.fd);
    hide Stuck, Fits, Calm, Faithful, DrainAt, Sending;
  }

  lemma OutputKeepsMark(q: Queue, ev: Event, fd: int)
    requires Sound(q) && ev.fd in q.conns && Marked(q, fd)
    ensures Marked(Output(q, ev).1, fd)
  {
    hide Push;
  }

  /** No event takes the mark off an element. */
  lemma HandleKeepsMark(q: Queue, ev: Event, fd: int)
    requires AllHealthy(q) && ev.fd in q.conns && Marked(q, fd)
    ensures Shaped(q.conns[ev.fd].rx) && !Stuck(q.conns[ev.fd].rx)
    ensures fd in Handle(q, ev).conns ==> Marked(Handle(q, ev), fd)
  {
    InputKeepsMark(q, ev, fd);
    hide Input, Output, VerdictOf, Stuck, Fits, Calm, Faithful, Sending;
    OutputKeepsMark(Input(q, ev), ev, fd);
  }

  lemma {:induction false} BatchKeepsMark(q: Queue, events: seq<Event>, fd: int)
    requires AllHealthy(q) && Marked(q, fd)
    ensures fd in HandleAll(q, events).conns ==> Marked(HandleAll(q, events), fd)
    decreases |events|
  {
    hide Handle, Stuck, Fits, Calm, Faithful;
    if events != [] {
      HandleAllKeeps(q, events);
      var q1 := q;
      if events[0].fd in q.conns {
        HandleKeeps(q, events[0]);
        HandleKeepsMark(q, events[0], fd);
        q1 := Handle(q, events[0]);
      }
      HandleAllKeeps(q1, events[1..]);
      if fd in q1.conns {
        BatchKeepsMark(q1, events[1..], fd);
      }
    }
  }

  /** A batch that reports input on a marked element closes it. */
  lemma {:induction false} InputClosesMarked(q: Queue, events: seq<Event>, fd: int)
    requires AllHealthy(q) && Marked(q, fd)
    requires exists ev <- events :: ev.fd == fd && ev.readable
    ensures fd !in HandleAll(q, events).conns
    decreases |events|
  {
    hide Handle, Stuck, Fits, Calm, Faithful;
    var q1 := q;
    if events[0].fd in q.conns {
      HandleKeeps(q, events[0]);
      HandleKeepsMark(q, events[0], fd);
      q1 := Handle(q, events[0]);
      if events[0].fd == fd {
        MarkedClosesIff(q, events[0]);
      }
    }
    HandleAllKeeps(q1, events[1..]);
    if fd in q1.conns {
      InputClosesMarked(q1, events[1..], fd);
    }
  }

  lemma ReportKeepsMark(q: Queue, events: seq<Event>, fd: int)
    requires AllHealthy(q) && Marked(q, fd)
    ensures AllHealthy(Report(q, events)) && Marked(Report(q, events), fd)
  {
  }

  lemma ApplyKeepsMark(q: Queue, op: Op, fd: int)
    requires Good(q) && Allowed(q, op) && Marked(q, fd)
    requires fd in Apply(q, op).conns
    ensures Marked(Apply(q, op), fd)
  {
    match op
    case Put(_, _, _, _) =>
    case Send(g, frame) => PostOnlySends(q, g, frame, fd);
    case Wait(events) =>
      ReportKeepsMark(q, events, fd);
      BatchKeepsMark(Report(q, events), events, fd);
    case CloseFd(_) =>
    case Arrive(_, _, _) =>
  }

  /** The queue after `n` turns of `process(fd)`, fewer when one of them returns. */
  function TurnsAt(q: Queue, fd: int, n: nat): (p: Queue)
    requires Sound(q) && fd in q.conns && Shaped(q.conns[fd].rx)
    ensures Sound(p) && fd in p.conns && Shaped(p.conns[fd].rx)
    decreases n
  {
    if n == 0 || Turn(q.conns[fd].rx).Return? then q
    else
      TurnAtReads(q, fd);
      TurnShaped(q.conns[fd].rx);
      TurnsAt(TurnAt(q, fd), fd, n - 1)
  }

  /** What another element's handler marks, at any turn, is marked when its `process` returns. */
  lemma {:induction false} OthersStayMarked(q: Queue, fd: int, n: nat, g: int)
    requires Sound(q) && fd in q.conns && Shaped(q.conns[fd].rx) && !Stuck(q.conns[fd].rx)
    requires g != fd && Marked(TurnsAt(q, fd, n), g)
    ensures Marked(DrainAt(q, fd), g)
    decreases n
  {
    hide TurnAt, Stuck, Sending;
    if n == 0 || Turn(q.conns[fd].rx).Return? {
      DrainAtReads(q, fd);
    } else {
      TurnAtReads(q, fd);
      TurnProgress(q.conns[fd].rx);
      OthersStayMarked(TurnAt(q, fd), fd, n - 1, g);
    }
  }

  /** So an element that a handler makes overflow is marked after the event unless it is the one handled or closed. */
  lemma OverflowedIsMarked(q: Queue, ev: Event, n: nat, g: int)
    requires AllHealthy(q) && ev.fd in q.conns && ev.readable && g != ev.fd
    requires Shaped(q.conns[ev.fd].rx) && Marked(TurnsAt(q, ev.fd, n), g)
    ensures Shaped(q.conns[ev.fd].rx) && !Stuck(q.conns[ev.fd].rx) && Marked(Handle(q, ev), g)
  {
    InputKeeps(q, ev);
    OthersStayMarked(q, ev.fd, n, g);
    hide DrainAt, VerdictOf, Stuck, Fits, Calm, Faithful, Sending;
    assert Marked(Input(q, ev), g);
    OutputKeepsMark(Input(q, ev), ev, g);
  }

  predicate ReportsInput(op: Op, fd: int) {
    op.Wait? && exists ev <- op.events :: ev.fd == fd && ev.readable
  }

  lemma ApplyAddsOnlyPut(q: Queue, op: Op)
    requires Good(q) && Allowed(q, op)
    ensures forall fd <- Apply(q, op).conns :: fd in q.conns || (op.Put? && op.fd == fd)
  {
    match op
    case Send(g, frame) => PostOnlySends(q, g, frame, g);
    case Wait(events) =>
      ReportKeeps(q, events);
      HandleAllKeeps(Report(q, events), events);
    case _ =>
  }

  lemma ReportedInputCloses(q: Queue, op: Op, fd: int)
    requires Good(q) && Allowed(q, op) && Marked(q, fd) && ReportsInput(op, fd)
    ensures fd !in Apply(q, op).conns
  {
    ReportKeepsMark(q, op.events, fd);
    InputClosesMarked(Report(q, op.events), op.events, fd);
  }

  lemma {:induction false} ClosedStaysClosed(q: Queue, ops: seq<Op>, fd: int)
    requires Good(q) && Run(q, ops) && fd !in q.conns
    requires forall op <- ops :: !(op.Put? && op.fd == fd)
    ensures fd !in After(q, ops).conns
    decreases |ops|
  {
    hide Apply, Allowed, AllHealthy;
    if ops != [] {
      ApplyKeeps(q, ops[0]);
      ApplyAddsOnlyPut(q, ops[0]);
      ClosedStaysClosed(Apply(q, ops[0]), ops[1..], fd);
    }
  }

  /**
   In every run, an element that is marked between two calls stays marked as long as it is there,
   and it is there only until input is reported on it.
   */
  lemma {:induction false} MarkedUntilInput(q: Queue, ops: seq<Op>, fd: int)
    requires Good(q) && Run(q, ops) && Marked(q, fd)
    requires forall op <- ops :: !(op.Put? && op.fd == fd)
    requires fd in After(q, ops).conns
    ensures Marked(After(q, ops), fd)
    ensures forall op <- ops :: !ReportsInput(op, fd)
    decreases |ops|
  {
    hide Apply, Allowed, AllHealthy, Marked, ReportsInput;
    if ops != [] {
      var op := ops[0];
      ApplyKeeps(q, op);
      if fd !in Apply(q, op).conns {
        ClosedStaysClosed(Apply(q, op), ops[1..], fd);
      }
      ApplyKeepsMark(q, op, fd);
      if ReportsInput(op, fd) {
        ReportedInputCloses(q, op, fd);
      }
      MarkedUntilInput(Apply(q, op), ops[1..], fd);
      assert forall o <- ops :: o == op || o in ops[1..];
    }
  }
}
