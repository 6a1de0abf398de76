/** When an event closes its element and what is reported, in terms of what arrived and what the kernel takes. */
module Closings {
  import opened Wire
  import opened Framing
  import opened Kernel
  import opened FrameReader
  import opened Connection
  import opened EventQueue

  /** Reading comes to the end of the stream, now or before. */
  predicate ReadsToEnd(rx: Reader) {
    rx.state.SckEof? || (Reading(rx) && StopOf(rx.incoming).EndOfList? && rx.hungUp)
  }

  /** Reading fails, now or before, other than for want of input. */
  predicate ReadingFails(rx: Reader) {
    rx.state.SckError? || (Reading(rx) && StopOf(rx.incoming).Error? && StopOf(rx.incoming).errno != EAGAIN)
  }

  /** The kernel refuses for good before all that waits is written. */
  predicate RefusesRest(w: Writer)
    requires w.offset <= |w.buffer|
  {
    Push(Unsent(w), w.replies).end.Dead?
  }

  lemma DrainEnds(rx: Reader)
    requires Shaped(rx) && !Stuck(rx)
    ensures Drain(rx).state.SckEof? <==> ReadsToEnd(rx)
    ensures Drain(rx).state.SckError? <==> ReadingFails(rx)
    ensures Reading(rx) ==> Drain(rx) == Drained(rx)
    ensures !Reading(rx) ==> Drain(rx) == rx
  {
    if Reading(rx) {
      DrainIsParse(rx);
    }
  }

  /** An input event reads all there is, and nothing else does. */
  lemma InputReads(q: Queue, ev: Event)
    requires AllHealthy(q) && ev.fd in q.conns
    ensures Shaped(q.conns[ev.fd].rx) && !Stuck(q.conns[ev.fd].rx)
    ensures var rx, n := q.conns[ev.fd].rx, Input(q, ev).conns[ev.fd].rx;
            n == if ev.readable && Reading(rx) then Drained(rx) else rx
  {
    HealthyDrain(q.conns[ev.fd].rx);
    DrainAtReads(q, ev.fd);
    DrainEnds(q.conns[ev.fd].rx);
  }

  /** Why an event closes its element, if it does; the wish to re-arm comes last. */
  predicate Hangs(ev: Event, rx: Reader, w: Writer)
    requires w.offset <= |w.buffer|
  {
    ev.hangup || (!ev.error && !(ev.writable && RefusesRest(w)) && ev.readable && ReadsToEnd(rx))
  }

  predicate Fails(ev: Event, rx: Reader, w: Writer)
    requires w.offset <= |w.buffer|
  {
    ev.error || (ev.writable && RefusesRest(w)) || (ev.readable && ReadingFails(rx))
  }

  /**
   An event closes its element exactly when it reports a hang-up or an error, or the flush meets a
   refusal, or reading ends or fails, or it cannot be armed again; and `onClose` is told which.
   `w` is the write side as the handlers leave it.
   */
  lemma HandleClosesIff(q: Queue, ev: Event)
    requires AllHealthy(q) && ev.fd in q.conns
    ensures Shaped(q.conns[ev.fd].rx) && !Stuck(q.conns[ev.fd].rx)
    ensures Sound(Input(q, ev)) && ev.fd in Input(q, ev).conns
    ensures var rx, w, p := q.conns[ev.fd].rx, Input(q, ev).conns[ev.fd].tx, Handle(q, ev);
            && (ev.fd !in p.conns <==> Hangs(ev, rx, w) || Fails(ev, rx, w) || !ev.rearms)
            && p.closed == q.closed + (if ev.fd in p.conns then [] else
                 [Closing(ev.fd, if Hangs(ev, rx, w) then CloseHangup else if Fails(ev, rx, w) then CloseError else CloseEpoll)])
  {
    var rx := q.conns[ev.fd].rx;
    HealthyDrain(rx);
    DrainEnds(rx);
    DrainAtReads(q, ev.fd);
    hide DrainAt, Drain, Stuck, Fits, Calm, Faithful, Push, ReadsToEnd, ReadingFails;
  }

  /** How often `fd` is reported closed. */
  function TimesClosed(cs: seq<Closing>, fd: int): nat {
    if cs == [] then 0 else (if cs[0].fd == fd then 1 else 0) + TimesClosed(cs[1..], fd)
  }

  lemma {:induction false} TimesClosedConcat(cs: seq<Closing>, ds: seq<Closing>, fd: int)
    ensures TimesClosed(cs + ds, fd) == TimesClosed(cs, fd) + TimesClosed(ds, fd)
  {
    if cs == [] {
      assert cs + ds == ds;
    } else {
      assert (cs + ds)[1..] == cs[1..] + ds;
      TimesClosedConcat(cs[1..], ds, fd);
    }
  }

  lemma HandleReportsOnce(q: Queue, ev: Event, fd: int)
    requires AllHealthy(q) && ev.fd in q.conns
    ensures Shaped(q.conns[ev.fd].rx) && !Stuck(q.conns[ev.fd].rx)
    ensures var p := Handle(q, ev);
            TimesClosed(p.closed, fd) == TimesClosed(q.closed, fd) + if fd in q.conns && fd !in p.conns then 1 else 0
  {
    HandleClosesIff(q, ev);
    HandleKeeps(q, ev);
    hide Handle, Hangs, Fails, Stuck;
    var p := Handle(q, ev);
    var ds := p.closed[|q.closed|..];
    assert p.closed == q.closed + ds;
    TimesClosedConcat(q.closed, ds, fd);
    assert ev.fd in p.conns ==> ds == [];
    assert ev.fd !in p.conns ==> |ds| == 1 && ds[0].fd == ev.fd && ds[1..] == [];
  }

  /** Over a batch `onClose` is called once for each element that goes, and for no other. */
  lemma {:induction false} BatchReportsOnce(q: Queue, events: seq<Event>, fd: int)
    requires AllHealthy(q)
    ensures var p := HandleAll(q, events);
            TimesClosed(p.closed, fd) == TimesClosed(q.closed, fd) + if fd in q.conns && fd !in p.conns then 1 else 0
    decreases |events|
  {
    hide Handle, Stuck, Fits, Calm, Faithful;
    if events != [] {
      var q1 := q;
      if events[0].fd in q.conns {
        HandleKeeps(q, events[0]);
        HandleReportsOnce(q, events[0], fd);
        q1 := Handle(q, events[0]);
      }
      HandleAllKeeps(q1, events[1..]);
      BatchReportsOnce(q1, events[1..], fd);
    }
  }
}
