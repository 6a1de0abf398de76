/**
 The event loop over all connections, as a function of what the kernel and the
 handlers will do. Handlers answer a frame by sending frames to any descriptors.
 */
module EventQueue {
  import opened Wire
  import opened Framing
  import opened Kernel
  import opened FrameReader
  import opened Connection

  datatype Outgoing = Outgoing(fd: int, frame: Frame)

  datatype CloseReason = CloseError | CloseEpoll | CloseHangup

  datatype Closing = Closing(fd: int, reason: CloseReason)

  /** An epoll event; `rearms` says whether the EPOLL_CTL_MOD that follows will succeed. */
  datatype Event = Event(fd: int, readable: bool, writable: bool, error: bool, hangup: bool, rearms: bool)

  /** `reactions` are what `onSocketReady` will send, call by call; `closed` records `onClose`. */
  datatype Queue = Queue(conns: map<int, Conn>, reactions: seq<seq<Outgoing>>, closed: seq<Closing>)

  predicate Sending(w: Writer) {
    Buffered(w) && Conserved(w) && Framed(w)
  }

  predicate Sound(q: Queue) {
    forall fd <- q.conns :: Sending(q.conns[fd].tx)
  }

  function PostTo(q: Queue, fd: int, f: Frame): (bool, Queue)
    requires Sound(q)
  {
    if fd !in q.conns then (false, q)
    else
      var s := Post(q.conns[fd], f);
      (s.ok, q.(conns := q.conns[fd := s.conn]))
  }

  lemma PostStaysSound(q: Queue, fd: int, f: Frame)
    requires Sound(q)
    ensures Sound(PostTo(q, fd, f).1)
  {
    if fd in q.conns {
      PostConserves(q.conns[fd], f);
    }
  }

  /** The handler sends frame after frame, whether or not a send fails. */
  function PostAll(q: Queue, out: seq<Outgoing>): Queue
    requires Sound(q)
    decreases |out|
  {
    if out == [] then q
    else
      PostStaysSound(q, out[0].fd, out[0].frame);
      PostAll(PostTo(q, out[0].fd, out[0].frame).1, out[1..])
  }

  /** One call of `onSocketReady`. */
  function React(q: Queue): Queue
    requires Sound(q)
  {
    if q.reactions == [] then q
    else PostAll(q.(reactions := q.reactions[1..]), q.reactions[0])
  }

  /** From `q` to `p` frames were sent, and apart from `fd` nothing was read. */
  predicate OnlySent(q: Queue, p: Queue, fd: int) {
    && p.conns.Keys == q.conns.Keys
    && p.closed == q.closed
    && Sound(p)
    && (forall g <- q.conns :: Awake(q.conns[g].tx) ==> Awake(p.conns[g].tx))
    && (forall g <- q.conns :: q.conns[g].tx.accepted <= p.conns[g].tx.accepted)
    && (forall g <- q.conns :: q.conns[g].tx.refused ==> p.conns[g].tx.refused)
    && (forall g <- q.conns :: g != fd ==>
          p.conns[g].rx == q.conns[g].rx
          || (p.conns[g].rx == q.conns[g].rx.(state := SckError) && p.conns[g].tx.refused))
  }

  lemma PostOnlySends(q: Queue, g: int, f: Frame, fd: int)
    requires Sound(q)
    ensures OnlySent(q, PostTo(q, g, f).1, fd)
    ensures fd in q.conns ==>
              var n := PostTo(q, g, f).1.conns[fd].rx;
              n == q.conns[fd].rx || n == q.conns[fd].rx.(state := SckError)
  {
    PostStaysSound(q, g, f);
    if g in q.conns {
      PostKeeps(q.conns[g], f);
      PostConserves(q.conns[g], f);
    }
  }

  lemma {:induction false} PostAllOnlySends(q: Queue, out: seq<Outgoing>, fd: int)
    requires Sound(q)
    ensures OnlySent(q, PostAll(q, out), fd)
    ensures fd in q.conns ==>
              var n := PostAll(q, out).conns[fd].rx;
              n == q.conns[fd].rx || n == q.conns[fd].rx.(state := SckError)
    decreases |out|
  {
    if out != [] {
      PostOnlySends(q, out[0].fd, out[0].frame, fd);
      PostAllOnlySends(PostTo(q, out[0].fd, out[0].frame).1, out[1..], fd);
    }
  }

  lemma ReactOnlySends(q: Queue, fd: int)
    requires Sound(q)
    ensures OnlySent(q, React(q), fd)
    ensures fd in q.conns ==>
              var n := React(q).conns[fd].rx;
              n == q.conns[fd].rx || n == q.conns[fd].rx.(state := SckError)
  {
    if q.reactions != [] {
      PostAllOnlySends(q.(reactions := q.reactions[1..]), q.reactions[0], fd);
    }
  }

  function WithReader(q: Queue, fd: int, rx: Reader): Queue
    requires fd in q.conns
  {
    q.(conns := q.conns[fd := q.conns[fd].(rx := rx)])
  }

  /** One loop iteration of `process(fd)`; a complete frame goes to the handler first. */
  function TurnAt(q: Queue, fd: int): Queue
    requires Sound(q) && fd in q.conns && Shaped(q.conns[fd].rx)
  {
    var rx := q.conns[fd].rx;
    if rx.state.SckReady? then
      var q1 := WithReader(q, fd, Deliver(rx));
      ReactOnlySends(q1, fd);
      var q2 := React(q1);
      WithReader(q2, fd, Restart(q2.conns[fd].rx))
    else
      WithReader(q, fd, Turn(rx).r)
  }

  /** Whatever the handler sends, and even if that overflows `fd` itself, `fd` is read like any other. */
  lemma TurnAtReads(q: Queue, fd: int)
    requires Sound(q) && fd in q.conns && Shaped(q.conns[fd].rx)
    ensures TurnAt(q, fd).conns.Keys == q.conns.Keys
    ensures TurnAt(q, fd).conns[fd].rx == Turn(q.conns[fd].rx).r
    ensures OnlySent(q, TurnAt(q, fd), fd)
  {
    var rx := q.conns[fd].rx;
    if rx.state.SckReady? {
      ReactOnlySends(WithReader(q, fd, Deliver(rx)), fd);
    }
  }

  /** `process(fd)`. */
  function DrainAt(q: Queue, fd: int): Queue
    requires Sound(q) && fd in q.conns && Shaped(q.conns[fd].rx) && !Stuck(q.conns[fd].rx)
    decreases Size(q.conns[fd].rx.incoming), Rank(q.conns[fd].rx.state)
  {
    TurnAtReads(q, fd);
    var q1 := TurnAt(q, fd);
    if Turn(q.conns[fd].rx).Return? then q1
    else
      TurnProgress(q.conns[fd].rx);
      DrainAt(q1, fd)
  }

  lemma {:induction false} DrainAtReads(q: Queue, fd: int)
    requires Sound(q) && fd in q.conns && Shaped(q.conns[fd].rx) && !Stuck(q.conns[fd].rx)
    ensures OnlySent(q, DrainAt(q, fd), fd)
    ensures DrainAt(q, fd).conns[fd].rx == Drain(q.conns[fd].rx)
    decreases Size(q.conns[fd].rx.incoming), Rank(q.conns[fd].rx.state)
  {
    TurnAtReads(q, fd);
    if Turn(q.conns[fd].rx).Again? {
      TurnProgress(q.conns[fd].rx);
      DrainAtReads(TurnAt(q, fd), fd);
    }
  }

  function FlushAt(q: Queue, fd: int): (bool, Queue)
    requires Sound(q) && fd in q.conns
  {
    var s := Flush(q.conns[fd]);
    (s.ok, q.(conns := q.conns[fd := s.conn]))
  }

  function Arm(c: Conn, i: Interest): Conn {
    c.(tx := c.tx.(armed := i))
  }

  /** Why the element is closed after an event, if it is: the last reason found counts. */
  datatype Verdict = Keep | Close(reason: CloseReason)

  function VerdictOf(ev: Event, state: State, flushed: bool): Verdict {
    if ev.hangup then Close(CloseHangup)
    else if ev.error then Close(CloseError)
    else if ev.writable && !flushed then Close(CloseError)
    else if ev.readable && state.SckEof? then Close(CloseHangup)
    else if ev.readable && state.SckError? then Close(CloseError)
    else if !ev.rearms then Close(CloseEpoll)
    else Keep
  }

  /** The EPOLLIN part of an event. */
  function Input(q: Queue, ev: Event): (p: Queue)
    requires Sound(q) && ev.fd in q.conns
    requires Shaped(q.conns[ev.fd].rx) && !Stuck(q.conns[ev.fd].rx)
    ensures OnlySent(q, p, ev.fd)
  {
    DrainAtReads(q, ev.fd);
    if ev.readable then DrainAt(q, ev.fd) else q
  }

  /** The EPOLLOUT part of an event. */
  function Output(q: Queue, ev: Event): (r: (bool, Queue))
    requires Sound(q) && ev.fd in q.conns
    ensures r.1.conns.Keys == q.conns.Keys
  {
    if ev.writable then FlushAt(q, ev.fd) else (true, q)
  }

  /** Close the element, or arm it again for what it needs. */
  function Settle(q: Queue, fd: int, v: Verdict): Queue
    requires fd in q.conns
  {
    match v
    case Close(reason) => Queue(q.conns - {fd}, q.reactions, q.closed + [Closing(fd, reason)])
    case Keep =>
      var c := q.conns[fd];
      q.(conns := q.conns[fd := Arm(c, Interest(true, c.tx.buffer != []))])
  }

  /** One iteration of the loop in `wait_and_process`, for an element not closed before. */
  function Handle(q: Queue, ev: Event): Queue
    requires Sound(q) && ev.fd in q.conns
    requires Shaped(q.conns[ev.fd].rx) && !Stuck(q.conns[ev.fd].rx)
  {
    var q1 := Input(q, ev);
    var (flushed, q2) := Output(q1, ev);
    Settle(q2, ev.fd, VerdictOf(ev, q1.conns[ev.fd].rx.state, flushed))
  }

  // --- Invariants ---

  /** A connection between two calls into the queue. */
  predicate Healthy(c: Conn) {
    && Faithful(c.rx) && Incomplete(c.rx.held)
    && Calm(c.rx) && Fits(c.rx)
    && Sending(c.tx)
  }

  predicate AllHealthy(q: Queue) {
    forall fd <- q.conns :: Healthy(q.conns[fd])
  }

  predicate AllAwake(q: Queue) {
    forall fd <- q.conns :: Awake(q.conns[fd].tx)
  }

  lemma HealthyDrain(rx: Reader)
    requires Faithful(rx) && Incomplete(rx.held) && Calm(rx) && Fits(rx)
    ensures !Stuck(rx)
    ensures var n := Drain(rx); Faithful(n) && Incomplete(n.held) && Calm(n) && Fits(n)
  {
    CalmIsNotStuck(rx);
    DrainKeepsPromises(rx);
    if Reading(rx) {
      DrainStaysFaithful(rx);
    }
  }

  /** Sending from handlers keeps every other connection healthy. */
  lemma OnlySentKeepsHealthy(q: Queue, p: Queue, fd: int)
    requires AllHealthy(q) && OnlySent(q, p, fd)
    requires fd in p.conns ==> Healthy(p.conns[fd])
    ensures AllHealthy(p)
  {
    forall g <- p.conns ensures Healthy(p.conns[g]) {
      assert g != fd ==> p.conns[g].rx == q.conns[g].rx || p.conns[g].rx == q.conns[g].rx.(state := SckError);
    }
  }

  lemma InputKeeps(q: Queue, ev: Event)
    requires AllHealthy(q) && ev.fd in q.conns
    ensures Shaped(q.conns[ev.fd].rx) && !Stuck(q.conns[ev.fd].rx)
    ensures AllHealthy(Input(q, ev))
  {
    HealthyDrain(q.conns[ev.fd].rx);
    DrainAtReads(q, ev.fd);
    OnlySentKeepsHealthy(q, Input(q, ev), ev.fd);
  }

  lemma OutputKeeps(q: Queue, ev: Event)
    requires AllHealthy(q) && ev.fd in q.conns
    ensures AllHealthy(Output(q, ev).1)
    ensures forall g <- q.conns :: g != ev.fd ==> Output(q, ev).1.conns[g] == q.conns[g]
  {
    FlushConserves(q.conns[ev.fd]);
  }

  lemma SettleKeeps(q: Queue, fd: int, v: Verdict)
    requires AllHealthy(q) && fd in q.conns
    ensures AllHealthy(Settle(q, fd, v))
    ensures fd in Settle(q, fd, v).conns ==> Awake(Settle(q, fd, v).conns[fd].tx)
    ensures forall g <- q.conns :: g != fd ==>
              g in Settle(q, fd, v).conns && Settle(q, fd, v).conns[g] == q.conns[g]
  {
  }

  /** One event: its element is closed or armed for what it needs, and no other is disarmed. */
  lemma HandleKeeps(q: Queue, ev: Event)
    requires AllHealthy(q) && ev.fd in q.conns
    ensures Shaped(q.conns[ev.fd].rx) && !Stuck(q.conns[ev.fd].rx)
    ensures var p := Handle(q, ev);
            && AllHealthy(p)
            && q.conns.Keys - {ev.fd} <= p.conns.Keys <= q.conns.Keys
            && (forall g <- p.conns :: g == ev.fd || Awake(q.conns[g].tx) ==> Awake(p.conns[g].tx))
  {
    hide Input, Output, VerdictOf;
    InputKeeps(q, ev);
    var q1 := Input(q, ev);
    OutputKeeps(q1, ev);
    var (flushed, q2) := Output(q1, ev);
    SettleKeeps(q2, ev.fd, VerdictOf(ev, q1.conns[ev.fd].rx.state, flushed));
  }

  // --- wait_and_process ---

  /** EPOLLONESHOT: reporting an event disarms its descriptor. */
  function Report(q: Queue, events: seq<Event>): Queue {
    var fds := set ev <- events :: ev.fd;
    q.(conns := map fd <- q.conns :: if fd in fds then Arm(q.conns[fd], DISARMED) else q.conns[fd])
  }

  function HandleAll(q: Queue, events: seq<Event>): Queue
    requires AllHealthy(q)
    decreases |events|
  {
    if events == [] then q
    else if events[0].fd !in q.conns then HandleAll(q, events[1..])
    else
      HandleKeeps(q, events[0]);
      HandleAll(Handle(q, events[0]), events[1..])
  }

  function WaitAndProcess(q: Queue, events: seq<Event>): Queue
    requires AllHealthy(q)
  {
    HandleAll(Report(q, events), events)
  }

  lemma ReportKeeps(q: Queue, events: seq<Event>)
    requires AllHealthy(q)
    ensures AllHealthy(Report(q, events))
  {
  }

  /** The batch from its event `i` on. */
  lemma HandleAllStep(q: Queue, events: seq<Event>, i: nat)
    requires AllHealthy(q) && i < |events|
    ensures Sound(q)
    ensures events[i].fd !in q.conns ==> HandleAll(q, events[i..]) == HandleAll(q, events[i + 1..])
    ensures events[i].fd in q.conns ==>
              && Shaped(q.conns[events[i].fd].rx) && !Stuck(q.conns[events[i].fd].rx)
              && Fits(q.conns[events[i].fd].rx)
              && AllHealthy(Handle(q, events[i]))
              && HandleAll(q, events[i..]) == HandleAll(Handle(q, events[i]), events[i + 1..])
  {
    assert events[i..][0] == events[i] && events[i..][1..] == events[i + 1..];
    if events[i].fd in q.conns {
      HandleKeeps(q, events[i]);
    }
  }

  lemma HandleAllEnds(q: Queue, events: seq<Event>)
    requires AllHealthy(q)
    ensures HandleAll(q, events[|events|..]) == q
    ensures HandleAll(q, events[0..]) == HandleAll(q, events)
  {
    assert events[0..] == events;
  }

  lemma {:induction false} HandleAllKeeps(q: Queue, events: seq<Event>)
    requires AllHealthy(q)
    ensures var p := HandleAll(q, events);
            && AllHealthy(p)
            && p.conns.Keys <= q.conns.Keys
            && (forall g <- p.conns :: Awake(q.conns[g].tx) || (exists ev <- events :: ev.fd == g) ==> Awake(p.conns[g].tx))
    decreases |events|
  {
    if events != [] {
      var q1 := q;
      if events[0].fd in q.conns {
        HandleKeeps(q, events[0]);
        q1 := Handle(q, events[0]);
      }
      HandleAllKeeps(q1, events[1..]);
      var p := HandleAll(q, events);
      forall g <- p.conns | exists ev <- events :: ev.fd == g ensures Awake(p.conns[g].tx) {
        var ev :| ev in events && ev.fd == g;
        if ev != events[0] {
          assert ev in events[1..];
        }
      }
    }
  }

  /** Every batch of events leaves every live element armed for input, and for output iff bytes wait. */
  lemma NoLostWakeup(q: Queue, events: seq<Event>)
    requires AllHealthy(q) && AllAwake(q)
    ensures AllHealthy(WaitAndProcess(q, events)) && AllAwake(WaitAndProcess(q, events))
  {
    HandleAllKeeps(Report(q, events), events);
    var fds := set ev <- events :: ev.fd;
    assert forall g <- q.conns :: g in fds ==> exists ev <- events :: ev.fd == g;
  }

  // --- What no event changes ---

  /** Live connections of `p` are those of `q`: what was accepted stays, what was received stays. */
  predicate Continues(q: Queue, p: Queue) {
    forall g <- p.conns ::
      && g in q.conns
      && q.conns[g].tx.accepted <= p.conns[g].tx.accepted
      && Stream(p.conns[g].rx) == Stream(q.conns[g].rx)
  }

  lemma InputContinues(q: Queue, ev: Event)
    requires AllHealthy(q) && ev.fd in q.conns
    ensures Shaped(q.conns[ev.fd].rx) && !Stuck(q.conns[ev.fd].rx)
    ensures Continues(q, Input(q, ev))
  {
    HealthyDrain(q.conns[ev.fd].rx);
    DrainAtReads(q, ev.fd);
    DrainKeepsPromises(q.conns[ev.fd].rx);
  }

  lemma OutputContinues(q: Queue, ev: Event)
    requires AllHealthy(q) && ev.fd in q.conns
    ensures Continues(q, Output(q, ev).1)
  {
    FlushConserves(q.conns[ev.fd]);
  }

  lemma HandleContinues(q: Queue, ev: Event)
    requires AllHealthy(q) && ev.fd in q.conns
    ensures Shaped(q.conns[ev.fd].rx) && !Stuck(q.conns[ev.fd].rx)
    ensures Continues(q, Handle(q, ev))
  {
    hide Input, Output, VerdictOf;
    InputKeeps(q, ev);
    InputContinues(q, ev);
    OutputContinues(Input(q, ev), ev);
  }

  lemma {:induction false} HandleAllContinues(q: Queue, events: seq<Event>)
    requires AllHealthy(q)
    ensures Continues(q, HandleAll(q, events))
    decreases |events|
  {
    if events != [] {
      if events[0].fd in q.conns {
        HandleKeeps(q, events[0]);
        HandleContinues(q, events[0]);
        HandleAllContinues(Handle(q, events[0]), events[1..]);
      } else {
        HandleAllContinues(q, events[1..]);
      }
    }
  }
}
