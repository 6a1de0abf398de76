/** That bytes do move: what the kernel takes is written, and what handlers answer is sent. */
module Progress {
  import opened Wire
  import opened Framing
  import opened Kernel
  import opened FrameReader
  import opened Connection
  import opened EventQueue

  /** How many bytes the kernel takes before it first refuses. */
  function Willing(replies: seq<Reply>): nat {
    if replies == [] then 0
    else
      match replies[0]
      case Takes(k) => if k == 0 then 0 else k + Willing(replies[1..])
      case WriteFails(e) => if e.EINTR? then Willing(replies[1..]) else 0
  }

  function Least(a: nat, b: nat): nat {
    if a <= b then a else b
  }

  /** The write loop writes all that the kernel is willing to take. */
  lemma {:induction false} PushTakes(data: seq<byte>, replies: seq<Reply>)
    ensures Push(data, replies).count == Least(|data|, Willing(replies))
    decreases |replies|
  {
    if data != [] && replies != [] {
      var (result, left) := Write(|data|, replies);
      if result == WriteError(EINTR) {
        PushTakes(data, left);
      } else if result.Wrote? && result.n > 0 {
        PushTakes(data[result.n..], left);
      }
    }
  }

  /** Flushing writes all of the buffer that the kernel is willing to take, and empties it exactly when that is all. */
  lemma FlushWrites(c: Conn)
    requires Buffered(c.tx)
    ensures var w, n, k := c.tx, Flush(c).conn.tx, Least(|Unsent(c.tx)|, Willing(c.tx.replies));
            && n.accepted == w.accepted + Unsent(w)[..k]
            && (n.buffer == [] <==> k == |Unsent(w)|)
            && (n.buffer == [] ==> n.armed == Interest(true, false))
  {
    PushTakes(Unsent(c.tx), c.tx.replies);
    hide Push, Willing;
  }

  /** A send writes at once all that the kernel is willing to take, unless older bytes wait. */
  lemma SendWrites(c: Conn, data: seq<byte>)
    requires Buffered(c.tx)
    ensures var n := SendBytes(c, data).conn.tx;
            n.accepted == c.tx.accepted + if c.tx.buffer != [] then [] else data[..Least(|data|, Willing(c.tx.replies))]
  {
    PushTakes(data, c.tx.replies);
    hide Push, Willing;
  }

  /**
   An event that reports that output is possible has the buffer flushed, as the handlers leave it, and
   no other event writes any of it.
   */
  lemma HandleWrites(q: Queue, ev: Event)
    requires AllHealthy(q) && ev.fd in q.conns
    ensures Shaped(q.conns[ev.fd].rx) && !Stuck(q.conns[ev.fd].rx)
    ensures ev.fd in Input(q, ev).conns && Buffered(Input(q, ev).conns[ev.fd].tx)
    ensures var w, p := Input(q, ev).conns[ev.fd].tx, Handle(q, ev);
            var k := if ev.writable then Least(|Unsent(w)|, Willing(w.replies)) else 0;
            ev.fd in p.conns ==>
              && p.conns[ev.fd].tx.accepted == w.accepted + Unsent(w)[..k]
              && (p.conns[ev.fd].tx.buffer == [] <==> k == |Unsent(w)|)
  {
    InputKeeps(q, ev);
    var q1 := Input(q, ev);
    FlushWrites(q1.conns[ev.fd]);
    hide Input, Flush, Willing, VerdictOf, Stuck, Fits, Calm, Faithful;
  }

  // --- What handlers answer ---

  /** The frames of `out` that are for `g`. */
  function FramesFor(out: seq<Outgoing>, g: int): seq<Frame> {
    if out == [] then [] else (if out[0].fd == g then [out[0].frame] else []) + FramesFor(out[1..], g)
  }

  /** What the handler answers in its next `k` calls. */
  function Answers(reactions: seq<seq<Outgoing>>, k: nat): seq<Outgoing> {
    if k == 0 || reactions == [] then [] else reactions[0] + Answers(reactions[1..], k - 1)
  }

  lemma {:induction false} FramesForConcat(xs: seq<Outgoing>, ys: seq<Outgoing>, g: int)
    ensures FramesFor(xs + ys, g) == FramesFor(xs, g) + FramesFor(ys, g)
  {
    if xs == [] {
      assert xs + ys == ys;
    } else {
      assert (xs + ys)[1..] == xs[1..] + ys;
      FramesForConcat(xs[1..], ys, g);
    }
  }

  function Later<T>(s: seq<T>, k: nat): seq<T> {
    if k <= |s| then s[k..] else []
  }

  lemma AnswersSplit(reactions: seq<seq<Outgoing>>, k: nat)
    ensures Answers(reactions, k + 1) == Answers(reactions, 1) + Answers(Later(reactions, 1), k)
    ensures Later(Later(reactions, 1), k) == Later(reactions, k + 1)
  {
    if reactions != [] {
      assert Answers(reactions, 1) == reactions[0] + Answers(reactions[1..], 0) == reactions[0];
    }
  }

  lemma {:induction false} PostAllPopsNothing(q: Queue, out: seq<Outgoing>)
    requires Sound(q)
    ensures PostAll(q, out).reactions == q.reactions
    decreases |out|
  {
    if out != [] {
      PostStaysSound(q, out[0].fd, out[0].frame);
      PostAllPopsNothing(PostTo(q, out[0].fd, out[0].frame).1, out[1..]);
    }
  }

  /** From `q` to `p` the connection `g` was sent just `fs`, unless a send to it was refused by then. */
  predicate WasSent(q: Queue, p: Queue, g: int, fs: seq<Frame>) {
    g in p.conns && !p.conns[g].tx.refused ==>
      && g in q.conns && !q.conns[g].tx.refused
      && p.conns[g].tx.posted == q.conns[g].tx.posted + fs
  }

  lemma SentThenSent(q: Queue, r: Queue, p: Queue, g: int, fs: seq<Frame>, gs: seq<Frame>)
    requires WasSent(q, r, g, fs) && WasSent(r, p, g, gs)
    ensures WasSent(q, p, g, fs + gs)
  {
    if g in p.conns && g in r.conns && g in q.conns {
      Concat3(q.conns[g].tx.posted, fs, gs);
    }
  }

  lemma OnePosted(q: Queue, o: Outgoing, g: int)
    requires Sound(q)
    ensures WasSent(q, PostTo(q, o.fd, o.frame).1, g, FramesFor([o], g))
  {
    PostOnlySends(q, o.fd, o.frame, g);
    if o.fd in q.conns {
      PostConserves(q.conns[o.fd], o.frame);
    }
    assert FramesFor([o], g) == if o.fd == g then [o.frame] else [];
  }

  /** Unless a send to `g` is refused, `g` is sent the frames that are for it, in order. */
  lemma {:induction false} AllPosted(q: Queue, out: seq<Outgoing>, g: int)
    requires Sound(q)
    ensures WasSent(q, PostAll(q, out), g, FramesFor(out, g))
    decreases |out|
  {
    if out != [] {
      OnePosted(q, out[0], g);
      var q1 := PostTo(q, out[0].fd, out[0].frame).1;
      PostStaysSound(q, out[0].fd, out[0].frame);
      AllPosted(q1, out[1..], g);
      assert PostAll(q, out) == PostAll(q1, out[1..]);
      hide *;
      SentThenSent(q, q1, PostAll(q1, out[1..]), g, FramesFor([out[0]], g), FramesFor(out[1..], g));
      FramesForConcat([out[0]], out[1..], g);
      assert out == [out[0]] + out[1..];
    }
  }

  /** One call of the handler. */
  lemma ReactPosts(q: Queue, g: int)
    requires Sound(q)
    ensures React(q).reactions == Later(q.reactions, 1)
    ensures WasSent(q, React(q), g, FramesFor(Answers(q.reactions, 1), g))
  {
    if q.reactions != [] {
      var called, out := q.(reactions := q.reactions[1..]), q.reactions[0];
      PostAllPopsNothing(called, out);
      assert Answers(q.reactions, 1) == out + Answers(q.reactions[1..], 0) == out;
      AllPosted(called, out, g);
    }
  }

  function Calls(r: Reader): nat {
    if r.state.SckReady? then 1 else 0
  }

  lemma TurnPosts(q: Queue, fd: int, g: int)
    requires Sound(q) && fd in q.conns && Shaped(q.conns[fd].rx)
    ensures var p, k := TurnAt(q, fd), Calls(q.conns[fd].rx);
            p.reactions == Later(q.reactions, k) && WasSent(q, p, g, FramesFor(Answers(q.reactions, k), g))
  {
    if q.conns[fd].rx.state.SckReady? {
      var q1 := WithReader(q, fd, Deliver(q.conns[fd].rx));
      ReactPosts(q1, g);
      ReactOnlySends(q1, fd);
    }
  }

  lemma TurnDelivers(r: Reader)
    requires Shaped(r)
    ensures |Turn(r).r.delivered| == |r.delivered| + Calls(r)
    ensures Turn(r).Return? ==> Calls(r) == 0
  {
  }

  /** How many frames a call of `process` delivers. */
  function Deliveries(r: Reader): (k: nat)
    requires Shaped(r) && !Stuck(r)
    decreases Size(r.incoming), Rank(r.state)
  {
    if Turn(r).Return? then 0
    else
      TurnProgress(r);
      Calls(r) + Deliveries(Turn(r).r)
  }

  lemma {:induction false} DeliveriesAreFrames(r: Reader)
    requires Shaped(r) && !Stuck(r)
    ensures |Drain(r).delivered| == |r.delivered| + Deliveries(r)
    decreases Size(r.incoming), Rank(r.state)
  {
    TurnDelivers(r);
    hide Turn, Stuck;
    if Turn(r).Again? {
      TurnProgress(r);
      DeliveriesAreFrames(Turn(r).r);
    }
  }

  /** In `process` the handler is called once for each frame delivered, and all its answers are sent, in order. */
  lemma {:induction false} DrainPosts(q: Queue, fd: int, g: int)
    requires Sound(q) && fd in q.conns && Shaped(q.conns[fd].rx) && !Stuck(q.conns[fd].rx)
    ensures var p, k := DrainAt(q, fd), Deliveries(q.conns[fd].rx);
            p.reactions == Later(q.reactions, k) && WasSent(q, p, g, FramesFor(Answers(q.reactions, k), g))
    decreases Size(q.conns[fd].rx.incoming), Rank(q.conns[fd].rx.state)
  {
    var rx := q.conns[fd].rx;
    TurnAtReads(q, fd);
    TurnPosts(q, fd, g);
    TurnDelivers(rx);
    if Turn(rx).Again? {
      TurnProgress(rx);
      var q1, k := TurnAt(q, fd), Deliveries(Turn(rx).r);
      DrainPosts(q1, fd, g);
      assert DrainAt(q, fd) == DrainAt(q1, fd) && Deliveries(rx) == Calls(rx) + k;
      assert Calls(rx) <= 1;
      hide *;
      JoinAnswers(q.reactions, Calls(rx), k, g);
      SentThenSent(q, q1, DrainAt(q1, fd), g, FramesFor(Answers(q.reactions, Calls(rx)), g),
                   FramesFor(Answers(q1.reactions, k), g));
    }
  }

  lemma JoinAnswers(reactions: seq<seq<Outgoing>>, first: nat, k: nat, g: int)
    requires first <= 1
    ensures FramesFor(Answers(reactions, first + k), g) ==
            FramesFor(Answers(reactions, first), g) + FramesFor(Answers(Later(reactions, first), k), g)
    ensures Later(Later(reactions, first), k) == Later(reactions, first + k)
  {
    if first == 1 {
      AnswersSplit(reactions, k);
      FramesForConcat(Answers(reactions, 1), Answers(Later(reactions, 1), k), g);
    }
  }
}
