/**
 Two event queues joined by a stream socket: what one program posts, the other's
 handler receives, through every schedule of both queues and of the network.
 */
module Delivery {
  import opened Wire
  import opened Framing
  import opened Kernel
  import opened FrameReader
  import opened Connection
  import opened EventQueue
  import opened QueueRuns

  /** Element `out` of `a` is joined to element `into` of `b`; `carried` bytes have crossed. */
  datatype World = World(a: Queue, out: int, b: Queue, into: int, carried: nat)

  datatype Move =
    | AtSender(op: Op)
    | AtReceiver(op: Op)
    | Carry(n: nat)

  predicate Joined(w: World) {
    w.out in w.a.conns && w.into in w.b.conns
  }

  /** The next `n` bytes the sender's kernel took, arriving in one piece. */
  function Cargo(w: World, n: nat): Op
    requires Joined(w) && 0 < n && w.carried + n <= |w.a.conns[w.out].tx.accepted|
  {
    Arrive(w.into, [Segment(w.a.conns[w.out].tx.accepted[w.carried..w.carried + n])], false)
  }

  /**
   Each queue may do anything, but neither end is replaced by a new element, and bytes reach
   the receiver only from the sender. Reads may be cut, delayed or made to fail anywhere.
   */
  predicate Legal(w: World, m: Move)
    requires Good(w.a) && Good(w.b)
  {
    match m
    case AtSender(op) => Allowed(w.a, op) && !(op.Put? && op.fd == w.out)
    case AtReceiver(op) =>
      && Allowed(w.b, op)
      && !(op.Put? && op.fd == w.into)
      && (op.Arrive? && op.fd == w.into ==> Flatten(op.more) == [])
    case Carry(n) =>
      && Joined(w)
      && 0 < n && w.carried + n <= |w.a.conns[w.out].tx.accepted|
      && Allowed(w.b, Cargo(w, n))
  }

  function Next(w: World, m: Move): World
    requires Good(w.a) && Good(w.b) && Legal(w, m)
  {
    match m
    case AtSender(op) => w.(a := Apply(w.a, op))
    case AtReceiver(op) => w.(b := Apply(w.b, op))
    case Carry(n) => w.(b := Apply(w.b, Cargo(w, n)), carried := w.carried + n)
  }

  /** The receiver's stream is what has crossed of the sender's. */
  predicate Agrees(w: World) {
    Joined(w) ==>
      && w.carried <= |w.a.conns[w.out].tx.accepted|
      && Stream(w.b.conns[w.into].rx) == w.a.conns[w.out].tx.accepted[..w.carried]
  }

  predicate Linked(w: World) {
    Good(w.a) && Good(w.b) && Agrees(w)
  }

  /** No operation but the ones named changes what an element has sent or received. */
  lemma ApplyContinues(q: Queue, op: Op, fd: int)
    requires Good(q) && Allowed(q, op) && fd in Apply(q, op).conns && !(op.Put? && op.fd == fd)
    ensures fd in q.conns
    ensures q.conns[fd].tx.accepted <= Apply(q, op).conns[fd].tx.accepted
    ensures Stream(Apply(q, op).conns[fd].rx)
         == Stream(q.conns[fd].rx) + (if op.Arrive? && op.fd == fd then Flatten(op.more) else [])
  {
    match op
    case Wait(events) => HandleAllContinues(Report(q, events), events);
    case Send(g, frame) => PostOnlySends(q, g, frame, fd);
    case Arrive(g, more, hangUp) =>
      if g == fd {
        FlattenConcat(q.conns[fd].rx.incoming, more);
        Concat3(q.conns[fd].rx.consumed, Flatten(q.conns[fd].rx.incoming), Flatten(more));
      }
    case _ =>
  }

  lemma CarryAgrees(w: World, n: nat)
    requires Linked(w) && Legal(w, Carry(n))
    ensures Agrees(Next(w, Carry(n)))
  {
    hide Allowed, Apply, Healthy, Awake;
    var sent := w.a.conns[w.out].tx.accepted;
    var piece := sent[w.carried..w.carried + n];
    if w.into in Apply(w.b, Cargo(w, n)).conns {
      ApplyContinues(w.b, Cargo(w, n), w.into);
      assert Flatten([Segment(piece)]) == piece;
      assert sent[..w.carried] + piece == sent[..w.carried + n];
    }
  }

  lemma NextLinks(w: World, m: Move)
    requires Linked(w) && Legal(w, m)
    ensures Linked(Next(w, m))
  {
    match m
    case AtSender(op) =>
      ApplyKeeps(w.a, op);
      if w.out in Apply(w.a, op).conns {
        ApplyContinues(w.a, op, w.out);
      }
    case AtReceiver(op) =>
      ApplyKeeps(w.b, op);
      if w.into in Apply(w.b, op).conns {
        ApplyContinues(w.b, op, w.into);
      }
    case Carry(n) =>
      ApplyKeeps(w.b, Cargo(w, n));
      CarryAgrees(w, n);
  }

  predicate Schedule(w: World, moves: seq<Move>)
    requires Linked(w)
    decreases |moves|
  {
    moves == [] ||
    (Legal(w, moves[0]) && (NextLinks(w, moves[0]); Schedule(Next(w, moves[0]), moves[1..])))
  }

  function Play(w: World, moves: seq<Move>): World
    requires Linked(w) && Schedule(w, moves)
    decreases |moves|
  {
    if moves == [] then w
    else
      NextLinks(w, moves[0]);
      Play(Next(w, moves[0]), moves[1..])
  }

  lemma {:induction false} PlayLinks(w: World, moves: seq<Move>)
    requires Linked(w) && Schedule(w, moves)
    ensures Linked(Play(w, moves))
    decreases |moves|
  {
    if moves != [] {
      NextLinks(w, moves[0]);
      PlayLinks(Next(w, moves[0]), moves[1..]);
    }
  }

  /** Both ends just connected. */
  predicate Fresh(w: World)
    ensures Fresh(w) ==> Linked(w)
  {
    && Good(w.a) && Good(w.b) && Joined(w) && w.carried == 0
    && w.a.conns[w.out] == NewConn([], false, w.a.conns[w.out].tx.replies)
    && w.b.conns[w.into] == NewConn([], false, w.b.conns[w.into].tx.replies)
  }

  /**
   The frames handed to the receiver's handler are always a prefix of the frames the sender
   posted, and all of them once the sender's buffer is empty and every byte has been read.
   */
  lemma EndToEnd(start: World, moves: seq<Move>)
    requires Fresh(start) && Schedule(start, moves)
    requires Joined(Play(start, moves))
    requires var w := Play(start, moves); !w.a.conns[w.out].tx.refused
    ensures var w := Play(start, moves);
            var tx, rx := w.a.conns[w.out].tx, w.b.conns[w.into].rx;
            && rx.delivered <= tx.posted
            && (tx.buffer == [] && |rx.consumed| == |tx.accepted| ==> rx.delivered == tx.posted)
  {
    PlayLinks(start, moves);
    var w := Play(start, moves);
    var tx, rx := w.a.conns[w.out].tx, w.b.conns[w.into].rx;
    assert Sending(tx);
    FaithfulIsParse(rx);
    var all := EncodeFrames(tx.posted);
    assert tx.accepted <= all;
    assert rx.consumed <= Stream(rx) <= tx.accepted;
    PrefixParsesToPrefix(tx.posted, rx.consumed);
    if tx.buffer == [] && |rx.consumed| == |tx.accepted| {
      assert tx.accepted == all;
      assert rx.consumed == all;
    }
  }
}
