/**
 The event loop as the program runs it: elements on the heap, buffers updated in
 place, loops around `read` and `write`. Each method is proved to compute what the
 functions of `EventQueue` say, so all that is proved of runs holds of it.
 */
module NetQueues {
  import opened Wire
  import opened Framing
  import opened Kernel
  import opened FrameReader
  import opened Connection
  import opened EventQueue
  import opened QueueRuns
  import opened Maps

  /** The kernel's side of a descriptor. */
  class Socket {
    var incoming: seq<Arrival>
    var hungUp: bool
    var accepted: seq<byte>
    var replies: seq<Reply>
    var armed: Interest

    constructor (incoming: seq<Arrival>, hungUp: bool, replies: seq<Reply>)
      ensures this.incoming == incoming && this.hungUp == hungUp && this.replies == replies
      ensures accepted == [] && armed == DISARMED
    {
      this.incoming, this.hungUp, this.replies := incoming, hungUp, replies;
      accepted, armed := [], DISARMED;
    }

    /** `read(fd, buffer + at, n)`. */
    method ReadInto(buffer: array<byte>, at: nat, n: nat) returns (r: ReadResult)
      requires at + n <= buffer.Length
      modifies this`incoming, buffer
      ensures (r, incoming) == Read(n, old(incoming), hungUp)
      ensures r.Got? ==> |r.bytes| <= n && buffer[..at + |r.bytes|] == old(buffer[..at]) + r.bytes
      ensures r.ReadError? ==> buffer[..] == old(buffer[..])
    {
      var (result, left) := Read(n, incoming, hungUp);
      if n > 0 {
        ReadEffect(n, incoming, hungUp);
      }
      r, incoming := result, left;
      if r.Got? {
        forall i | 0 <= i < |r.bytes| {
          buffer[at + i] := r.bytes[i];
        }
      }
    }

    /** `write(fd, data, |data|)`. */
    method WriteOut(data: seq<byte>) returns (r: WriteResult)
      modifies this`accepted, this`replies
      ensures (r, replies) == Write(|data|, old(replies))
      ensures r.Wrote? ==> r.n <= |data|
      ensures accepted == old(accepted) + (if r.Wrote? then data[..r.n] else [])
    {
      var (result, left) := Write(|data|, replies);
      r, replies := result, left;
      if r.Wrote? {
        accepted := accepted + data[..r.n];
      }
    }

    /** The loop around `write` that `send` and `flush_write_buffer` share. */
    method WriteLoop(data: seq<byte>) returns (total: nat, end: PushEnd)
      modifies this`accepted, this`replies
      ensures Pushed(total, replies, end) == Push(data, old(replies))
      ensures total <= |data| && accepted == old(accepted) + data[..total]
    {
      ghost var all := Push(data, replies);
      total := 0;
      while total < |data|
        invariant total <= |data| && accepted == old(accepted) + data[..total]
        invariant Pushing(all, total, data[total..], replies)
        decreases |replies|
      {
        PushOnce(all, total, data[total..], replies);
        var r := WriteOut(data[total..]);
        match r
        case WriteError(EINTR) =>
        case WriteError(EAGAIN) => return total, Blocked;
        case WriteError(EFAULT) => return total, Dead;
        case Wrote(n) =>
          if n == 0 {
            return total, Dead;
          }
          assert data[total..][..n] == data[total..total + n];
          total := total + n;
      }
      end := Done;
    }
  }

  /** `consumed` to `refused` are what the records of the same name in `Reader` and `Writer` say. */
  class NetworkElement {
    const fd: int
    const sock: Socket
    const netBuffer: array<byte>
    var state: State
    var netBufferUsed: nat
    var writeBuffer: seq<byte>
    var writeBufferOffset: nat

    ghost const base: nat
    ghost var consumed: seq<byte>
    ghost var delivered: seq<Frame>
    ghost var offered: seq<byte>
    ghost var posted: seq<Frame>
    ghost var refused: bool

    ghost predicate Valid()
      reads this, sock
    {
      && netBuffer.Length == NET_BUFFER_SIZE
      && netBufferUsed <= NET_BUFFER_SIZE
      && writeBufferOffset <= |writeBuffer|
      && base <= |sock.accepted|
    }

    ghost function Rx(): Reader
      requires Valid()
      reads this, sock, netBuffer
    {
      Reader(state, netBuffer[..netBufferUsed], sock.incoming, sock.hungUp, consumed, delivered)
    }

    ghost function Tx(): Writer
      requires Valid()
      reads this, sock
    {
      Writer(writeBuffer, writeBufferOffset, sock.accepted[base..], sock.replies, sock.armed,
             offered, posted, refused)
    }

    ghost function View(): Conn
      requires Valid()
      reads this, sock, netBuffer
    {
      Conn(Rx(), Tx())
    }

    twostate lemma Same()
      requires old(Valid()) && unchanged(this) && unchanged(sock) && unchanged(netBuffer)
      ensures Valid() && View() == old(View())
    {
    }

    constructor (fd: int, sock: Socket)
      ensures Valid() && this.fd == fd && this.sock == sock && fresh(netBuffer)
      ensures View() == Conn(Reader(SckHeader, [], sock.incoming, sock.hungUp, [], []),
                             Writer([], 0, [], sock.replies, sock.armed, [], [], false))
    {
      this.fd, this.sock := fd, sock;
      netBuffer := new byte[NET_BUFFER_SIZE];
      state, netBufferUsed := SckHeader, 0;
      writeBuffer, writeBufferOffset := [], 0;
      base := |sock.accepted|;
      consumed, delivered, offered, posted, refused := [], [], [], [], false;
    }

    /** `flush_write_buffer`. */
    method FlushWriteBuffer() returns (ok: bool)
      requires Valid()
      modifies this`writeBuffer, this`writeBufferOffset, sock`accepted, sock`replies, sock`armed
      ensures Valid()
      ensures Flush(old(View())) == Sent(ok, View())
    {
      ghost var rest := writeBuffer[writeBufferOffset..];
      var count, end := sock.WriteLoop(writeBuffer[writeBufferOffset..]);
      assert rest[..count] == writeBuffer[writeBufferOffset..writeBufferOffset + count];
      AcceptedSince(old(sock.accepted), rest[..count]);
      writeBufferOffset := writeBufferOffset + count;
      match end
      case Dead => return false;
      case Blocked => return true;
      case Done =>
        writeBuffer, writeBufferOffset := [], 0;
        sock.armed := Interest(true, false);
        return true;
    }

    lemma AcceptedSince(taken: seq<byte>, more: seq<byte>)
      requires base <= |taken|
      ensures (taken + more)[base..] == taken[base..] + more
    {
    }

    /** `send(fd, data, n)`, for the element of `fd`. */
    method SendBytes(data: seq<byte>) returns (ok: bool)
      requires Valid()
      modifies this`state, this`writeBuffer, this`writeBufferOffset, this`offered, this`refused
      modifies sock`accepted, sock`replies, sock`armed
      ensures Valid()
      ensures Connection.SendBytes(old(View()), data) == Sent(ok, View())
    {
      if writeBuffer != [] {
        var alreadyBuffered := |writeBuffer| - writeBufferOffset;
        if alreadyBuffered + |data| > WRITE_BUFFER_MAX {
          state, refused := SckError, true;
          return false;
        }
        writeBuffer, offered := writeBuffer + data, offered + data;
        return true;
      }
      var total, end := sock.WriteLoop(data);
      AcceptedSince(old(sock.accepted), data[..total]);
      match end
      case Dead =>
        refused := true;
        return false;
      case Done =>
        offered := offered + data;
        return true;
      case Blocked =>
        var remaining := |data| - total;
        if remaining > WRITE_BUFFER_MAX {
          state, refused := SckError, true;
          return false;
        }
        writeBuffer, writeBufferOffset := data[total..], 0;
        sock.armed := Interest(true, true);
        offered := offered + data;
        return true;
    }

    /** `send(fd, type, msg)`, for the element of `fd`. */
    method Post(f: Frame) returns (ok: bool)
      requires Valid()
      modifies this`state, this`writeBuffer, this`writeBufferOffset, this`offered, this`refused, this`posted
      modifies sock`accepted, sock`replies, sock`armed
      ensures Valid()
      ensures Connection.Post(old(View()), f) == Sent(ok, View())
    {
      ok := SendBytes(EncodeHeader(|f.body|, f.packetType));
      if ok && f.body != [] {
        ok := SendBytes(f.body);
      }
      if ok {
        posted := posted + [f];
      }
    }

    /** The case SCK_HEADER of `process`; `again` is false where it returns. */
    method ReadHeader() returns (again: bool)
      requires Valid() && Shaped(Rx()) && state.SckHeader?
      modifies this`state, this`netBufferUsed, this`consumed, netBuffer, sock`incoming
      ensures Valid() && Tx() == old(Tx())
      ensures Turn(old(Rx())) == if again then Again(Rx()) else Return(Rx())
    {
      var remaining := HEADER_SIZE - netBufferUsed;
      var got := sock.ReadInto(netBuffer, netBufferUsed, remaining);
      if got.ReadError? {
        if got.errno.EAGAIN? {
          return false;
        }
        state := SckError;
        return true;
      }
      if got.bytes == [] {
        state := SckEof;
        return true;
      }
      netBufferUsed, consumed := netBufferUsed + |got.bytes|, consumed + got.bytes;
      if netBufferUsed == HEADER_SIZE {
        state := SckPayload;
      }
      return true;
    }

    /** The case SCK_PAYLOAD of `process`; a read of zero bytes counts as progress. */
    method ReadPayload() returns (again: bool)
      requires Valid() && Shaped(Rx()) && Within(Rx()) && state.SckPayload?
      modifies this`state, this`netBufferUsed, this`consumed, netBuffer, sock`incoming
      ensures Valid() && Tx() == old(Tx())
      ensures Turn(old(Rx())) == if again then Again(Rx()) else Return(Rx())
    {
      var bufferSize := FrameLength(netBuffer[..netBufferUsed]);
      var got := sock.ReadInto(netBuffer, netBufferUsed, bufferSize - netBufferUsed);
      if got.ReadError? {
        if got.errno.EAGAIN? {
          return false;
        }
        state := SckError;
        return true;
      }
      netBufferUsed, consumed := netBufferUsed + |got.bytes|, consumed + got.bytes;
      if netBufferUsed == bufferSize {
        state := SckReady;
      }
      return true;
    }
  }

  lemma ReportOneMore(q: Queue, events: seq<Event>, i: nat)
    requires i < |events| && events[i].fd in q.conns
    ensures var r := Report(q, events[..i]);
            Report(q, events[..i + 1]) == r.(conns := r.conns[events[i].fd := Arm(r.conns[events[i].fd], DISARMED)])
  {
    var fds := set e <- events[..i] :: e.fd;
    assert (set e <- events[..i + 1] :: e.fd) == fds + {events[i].fd} by {
      assert events[..i + 1] == events[..i] + [events[i]];
      assert forall e :: e in events[..i + 1] <==> e in events[..i] || e == events[i];
    }
    var r := Report(q, events[..i]);
    SameMap(Report(q, events[..i + 1]).conns, r.conns[events[i].fd := Arm(r.conns[events[i].fd], DISARMED)]);
  }

  lemma TakeAll<T>(s: seq<T>)
    ensures s[..0] == [] && s[..|s|] == s
  {
  }

  /** `reactions` stand for the handler's code, `closed` for its calls of `onClose`. */
  class NetQueue {
    var elements: map<int, NetworkElement>
    var reactions: seq<seq<Outgoing>>
    var closed: seq<Closing>

    /** What the fields and all elements amount to. */
    ghost var view: Queue

    /** The objects the queue is made of, and the descriptor each belongs to. */
    ghost var owner: map<object, int>

    /** Elements share nothing, and `view` is theirs. */
    ghost predicate Valid()
      reads this, owner.Keys
    {
      && this !in owner
      && view.reactions == reactions && view.closed == closed
      && view.conns.Keys == elements.Keys
      && (forall fd <- elements :: Owned(fd) && view.conns[fd] == elements[fd].View())
    }

    ghost predicate Owned(fd: int)
      requires fd in elements
      reads this, owner.Keys
    {
      var e := elements[fd];
      && e in owner && e.sock in owner && e.netBuffer in owner
      && owner[e] == owner[e.sock] == owner[e.netBuffer] == e.fd == fd
      && e.Valid()
    }

    constructor (reactions: seq<seq<Outgoing>>)
      ensures Valid() && view == Empty(reactions)
    {
      elements, this.reactions, closed := map[], reactions, [];
      view, owner := Empty(reactions), map[];
    }

    /** After work on one element it is enough to bring its own part of `view` up to date. */
    twostate lemma OneChanged(fd: int)
      requires old(Valid()) && elements == old(elements) && owner == old(owner)
      requires fd in elements && elements[fd].Valid()
      requires forall g <- elements :: g != fd ==>
                 unchanged(elements[g]) && unchanged(elements[g].sock) && unchanged(elements[g].netBuffer)
      requires view == Queue(old(view).conns[fd := elements[fd].View()], reactions, closed)
      ensures Valid()
    {
      forall g <- elements | g != fd ensures elements[g].Valid() && elements[g].View() == old(elements[g].View()) {
        elements[g].Same();
      }
    }

    twostate lemma OneAdded(fd: int, new e: NetworkElement)
      requires old(Valid()) && fd !in old(elements) && elements == old(elements)[fd := e]
      requires e !in old(owner) && e.sock !in old(owner) && e.netBuffer !in old(owner)
      requires owner == old(owner)[e := fd][e.sock := fd][e.netBuffer := fd] && this !in owner
      requires forall o <- old(owner) :: unchanged(o)
      requires e.Valid() && e.fd == fd
      requires view == Queue(old(view).conns[fd := e.View()], reactions, closed)
      requires reactions == old(reactions) && closed == old(closed)
      ensures Valid()
    {
      forall g <- old(elements) ensures Owned(g) && elements[g].View() == old(elements[g].View()) {
        elements[g].Same();
      }
    }

    ghost method Refresh(fd: int)
      requires fd in elements && elements[fd].Valid()
      modifies this`view
      ensures view == Queue(old(view).conns[fd := elements[fd].View()], reactions, closed)
    {
      view := Queue(view.conns[fd := elements[fd].View()], reactions, closed);
    }

    /** `send(fd, type, msg)`. */
    method Send(fd: int, f: Frame) returns (ok: bool)
      requires Valid() && Sound(view)
      modifies this`view, owner.Keys
      ensures Valid() && (ok, view) == PostTo(old(view), fd, f)
    {
      if fd !in elements {
        return false;
      }
      ok := elements[fd].Post(f);
      Refresh(fd);
      OneChanged(fd);
    }

    /** The handler's answer to one frame. */
    method OnSocketReady()
      requires Valid() && Sound(view)
      modifies this`view, this`reactions, owner.Keys
      ensures Valid() && view == React(old(view))
    {
      if reactions == [] {
        return;
      }
      var out := reactions[0];
      reactions := reactions[1..];
      view := view.(reactions := reactions);
      ghost var start := view;
      var i := 0;
      while i < |out|
        invariant i <= |out| && Valid() && Sound(view)
        invariant PostAll(view, out[i..]) == PostAll(start, out)
      {
        PostStaysSound(view, out[i].fd, out[i].frame);
        assert out[i..][0] == out[i] && out[i..][1..] == out[i + 1..];
        var _ := Send(out[i].fd, out[i].frame);
        i := i + 1;
      }
    }

    /** `process`, for the element of `fd`. */
    method Process(fd: int)
      requires Valid() && Sound(view) && fd in elements
      requires var rx := view.conns[fd].rx; Shaped(rx) && !Stuck(rx) && AlwaysWithin(rx)
      modifies this`view, this`reactions, owner.Keys
      ensures Valid() && view == DrainAt(old(view), fd)
    {
      hide React, Stuck, AlwaysWithin, Sending;
      var element := elements[fd];
      while true
        invariant Valid() && elements == old(elements) && Sound(view)
        invariant var rx := view.conns[fd].rx; Shaped(rx) && !Stuck(rx) && AlwaysWithin(rx)
        invariant DrainAt(view, fd) == DrainAt(old(view), fd)
        decreases Size(view.conns[fd].rx.incoming), Rank(view.conns[fd].rx.state)
      {
        ghost var rx := view.conns[fd].rx;
        TurnAtReads(view, fd);
        AlwaysWithinStep(rx);
        if Turn(rx).Again? {
          TurnProgress(rx);
        }
        match element.state
        case SckError => return;
        case SckEof => return;
        case SckReady => HandleFrame(fd);
        case _ =>
          var again := ReadAt(fd);
          if !again {
            return;
          }
      }
    }

    method ReadAt(fd: int) returns (again: bool)
      requires Valid() && Sound(view) && fd in elements
      requires var rx := view.conns[fd].rx; Shaped(rx) && Within(rx) && (rx.state.SckHeader? || rx.state.SckPayload?)
      modifies this`view, elements[fd], elements[fd].sock, elements[fd].netBuffer
      ensures Valid() && elements == old(elements)
      ensures view == TurnAt(old(view), fd)
      ensures again == Turn(old(view).conns[fd].rx).Again?
    {
      if elements[fd].state.SckHeader? {
        again := elements[fd].ReadHeader();
      } else {
        again := elements[fd].ReadPayload();
      }
      Refresh(fd);
      OneChanged(fd);
    }

    /** The case SCK_READY of `process`: the handler first, then a fresh start whatever it did. */
    method HandleFrame(fd: int)
      requires Valid() && Sound(view) && fd in elements
      requires var rx := view.conns[fd].rx; Shaped(rx) && rx.state.SckReady?
      modifies this`view, this`reactions, owner.Keys
      ensures Valid() && elements == old(elements)
      ensures view == TurnAt(old(view), fd)
    {
      hide React, FirstFrame, FrameLength;
      ReactOnlySends(WithReader(view, fd, Deliver(view.conns[fd].rx)), fd);
      Record(fd);
      OnSocketReady();
      Restart(fd);
    }

    /** What the handler is given: the frame in the buffer. */
    ghost method Record(fd: int)
      requires Valid() && fd in elements
      requires var rx := view.conns[fd].rx; Shaped(rx) && rx.state.SckReady?
      modifies this`view, elements[fd]
      ensures Valid()
      ensures view == WithReader(old(view), fd, Deliver(old(view).conns[fd].rx))
    {
      var e := elements[fd];
      e.delivered := e.delivered + [FirstFrame(e.netBuffer[..e.netBufferUsed])];
      Refresh(fd);
      OneChanged(fd);
    }

    method Restart(fd: int)
      requires Valid() && fd in elements
      modifies this`view, elements[fd]
      ensures Valid()
      ensures view == WithReader(old(view), fd, FrameReader.Restart(old(view).conns[fd].rx))
    {
      elements[fd].netBufferUsed, elements[fd].state := 0, SckHeader;
      Refresh(fd);
      OneChanged(fd);
    }

    method FlushAt(fd: int) returns (ok: bool)
      requires Valid() && Sound(view) && fd in elements
      modifies this`view, elements[fd], elements[fd].sock
      ensures Valid() && (ok, view) == EventQueue.FlushAt(old(view), fd)
    {
      ok := elements[fd].FlushWriteBuffer();
      Refresh(fd);
      OneChanged(fd);
    }

    /** `EPOLL_CTL_MOD`. */
    method SetInterest(fd: int, i: Interest)
      requires Valid() && fd in elements
      modifies this`view, elements[fd].sock
      ensures Valid()
      ensures view == old(view).(conns := old(view).conns[fd := Arm(old(view).conns[fd], i)])
    {
      elements[fd].sock.armed := i;
      Refresh(fd);
      OneChanged(fd);
    }

    /**
     `put_sck`; the socket is not in the queue under another number. EPOLL_CTL_ADD fails for a
     descriptor that is there already, and when `admits` says so.
     */
    method Put(fd: int, sock: Socket, admits: bool) returns (added: bool)
      requires Valid() && sock !in owner
      modifies this`view, this`elements, this`owner, sock`armed
      ensures Valid() && added == (admits && fd !in old(elements))
      ensures !added ==> view == old(view)
      ensures added ==>
                view == Queue(old(view).conns[fd := NewConn(sock.incoming, sock.hungUp, sock.replies)], reactions, closed)
    {
      if fd in elements || !admits {
        return false;
      }
      sock.armed := Interest(true, false);
      var element := new NetworkElement(fd, sock);
      elements, owner := elements[fd := element], owner[element := fd][sock := fd][element.netBuffer := fd];
      Refresh(fd);
      OneAdded(fd, element);
      return true;
    }

    /** `close(fd)`. */
    method Close(fd: int)
      requires Valid()
      modifies this`view, this`elements
      ensures Valid() && elements == old(elements) - {fd}
      ensures view == old(view).(conns := old(view).conns - {fd})
    {
      elements := elements - {fd};
      view := view.(conns := view.conns - {fd});
    }

    /** Whether and why to close: the last cause found is the one reported. */
    method Judge(ev: Event, state: State, flushed: bool) returns (v: Verdict)
      ensures v == VerdictOf(ev, state, flushed)
    {
      v := Keep;
      if ev.readable {
        if state.SckError? {
          v := Verdict.Close(CloseError);
        } else if state.SckEof? {
          v := Verdict.Close(CloseHangup);
        }
      }
      if ev.writable && !flushed {
        v := Verdict.Close(CloseError);
      }
      if ev.error {
        v := Verdict.Close(CloseError);
      }
      if ev.hangup {
        v := Verdict.Close(CloseHangup);
      }
      if v.Keep? && !ev.rearms {
        v := Verdict.Close(CloseEpoll);
      }
    }

    method Settle(fd: int, v: Verdict)
      requires Valid() && fd in elements
      modifies this`view, this`elements, this`closed, elements[fd].sock
      ensures Valid()
      ensures elements == if v.Keep? then old(elements) else old(elements) - {fd}
      ensures view == EventQueue.Settle(old(view), fd, v)
    {
      match v
      case Close(reason) =>
        closed := closed + [Closing(fd, reason)];
        view := view.(closed := closed);
        Close(fd);
      case Keep =>
        SetInterest(fd, Interest(true, elements[fd].writeBuffer != []));
    }

    method TakeInput(ev: Event)
      requires Valid() && Sound(view) && ev.fd in elements
      requires var rx := view.conns[ev.fd].rx; Shaped(rx) && !Stuck(rx) && AlwaysWithin(rx)
      modifies this`view, this`reactions, owner.Keys
      ensures Valid() && view == Input(old(view), ev)
    {
      if ev.readable {
        Process(ev.fd);
      }
    }

    method TakeOutput(ev: Event) returns (flushed: bool)
      requires Valid() && Sound(view) && ev.fd in elements
      modifies this`view, elements[ev.fd], elements[ev.fd].sock
      ensures Valid() && (flushed, view) == Output(old(view), ev)
    {
      flushed := true;
      if ev.writable {
        flushed := FlushAt(ev.fd);
      }
    }

    /** The body of the loop in `wait_and_process`, for an element not closed before. */
    method HandleEvent(ev: Event) returns (shouldClose: bool)
      requires Valid() && Sound(view) && ev.fd in elements
      requires var rx := view.conns[ev.fd].rx; Shaped(rx) && !Stuck(rx) && AlwaysWithin(rx)
      modifies this`view, this`elements, this`reactions, this`closed, owner.Keys
      ensures Valid()
      ensures elements == if shouldClose then old(elements) - {ev.fd} else old(elements)
      ensures view == Handle(old(view), ev)
    {
      hide Input, Output, Stuck, AlwaysWithin, Sending;
      TakeInput(ev);
      var state := elements[ev.fd].state;
      var flushed := TakeOutput(ev);
      var v := Judge(ev, state, flushed);
      Settle(ev.fd, v);
      shouldClose := v.Close?;
    }

    /** The kernel reports events and, EPOLLONESHOT, disarms their descriptors. */
    method EpollWait(events: seq<Event>) returns (current: seq<NetworkElement>)
      requires Valid() && forall ev <- events :: ev.fd in elements
      modifies this`view, owner.Keys
      ensures Valid() && view == Report(old(view), events)
      ensures |current| == |events| && forall i :: 0 <= i < |events| ==> current[i] == elements[events[i].fd]
    {
      current := [];
      ghost var q := view;
      var i := 0;
      SameMap(q.conns, Report(q, []).conns);
      hide Report;
      TakeAll(events);
      while i < |events|
        invariant i <= |events| && |current| == i && Valid()
        invariant forall j :: 0 <= j < i ==> current[j] == elements[events[j].fd]
        invariant view == Report(q, events[..i])
      {
        current := current + [elements[events[i].fd]];
        SetInterest(events[i].fd, DISARMED);
        ReportOneMore(q, events, i);
        i := i + 1;
      }
    }

    lemma Apart()
      requires Valid()
      ensures this !in owner && view.conns.Keys == elements.Keys
      ensures forall f, g :: f in elements && g in elements && f != g ==> elements[f] != elements[g]
    {
      forall f, g | f in elements && g in elements && f != g ensures elements[f] != elements[g] {
        assert Owned(f) && Owned(g);
      }
    }

    /** `wait_and_process`, for the events the kernel reports. */
    method WaitAndProcess(events: seq<Event>)
      requires Valid() && AllHealthy(view) && forall ev <- events :: ev.fd in elements
      modifies this`view, this`elements, this`reactions, this`closed, owner.Keys
      ensures Valid() && view == EventQueue.WaitAndProcess(old(view), events)
    {
      hide Report, HandleAll, Handle, Healthy, Valid;
      Apart();
      ReportKeeps(view, events);
      var current := EpollWait(events);
      var elementsClosed: set<NetworkElement> := {};
      ghost var start := view;
      HandleAllEnds(start, events);
      var i := 0;
      while i < |events|
        invariant i <= |events| && Valid() && AllHealthy(view)
        invariant elements.Keys <= old(elements).Keys && forall fd <- elements :: elements[fd] == old(elements)[fd]
        invariant forall fd <- old(elements) :: old(elements)[fd] in elementsClosed <==> fd !in elements
        invariant HandleAll(view, events[i..]) == HandleAll(start, events)
      {
        Apart();
        HandleAllStep(view, events, i);
        if events[i].fd in view.conns {
          FitsStaysWithin(view.conns[events[i].fd].rx);
        }
        if current[i] !in elementsClosed {
          var shouldClose := HandleEvent(events[i]);
          if shouldClose {
            elementsClosed := elementsClosed + {current[i]};
          }
        }
        i := i + 1;
      }
      HandleAllEnds(view, events);
    }
  }
}
