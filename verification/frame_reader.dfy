/**
 The reading half of a connection: the state machine that reassembles frames
 from reads of any size, one loop iteration at a time, and its meaning.
 */
module FrameReader {
  import opened Wire
  import opened Framing
  import opened Kernel

  const NET_BUFFER_SIZE: nat := 66000

  datatype State = SckHeader | SckPayload | SckReady | SckError | SckEof

  /**
   `held` is `net_buffer[..net_buffer_used]`. `consumed` and `delivered` record all
   bytes read so far and all frames handed to the handler so far.
   */
  datatype Reader = Reader(
    state: State,
    held: seq<byte>,
    incoming: seq<Arrival>,
    hungUp: bool,
    consumed: seq<byte>,
    delivered: seq<Frame>)

  predicate Reading(r: Reader) {
    r.state.SckHeader? || r.state.SckPayload? || r.state.SckReady?
  }

  predicate Shaped(r: Reader) {
    match r.state
    case SckHeader => |r.held| < HEADER_SIZE
    case SckPayload =>
      |r.held| >= HEADER_SIZE && (Incomplete(r.held) || |r.held| == HEADER_SIZE == FrameLength(r.held))
    case SckReady => |r.held| >= HEADER_SIZE && |r.held| == FrameLength(r.held)
    case _ => Incomplete(r.held)
  }

  /** The bytes read are exactly the frames delivered followed by what is held. */
  predicate Faithful(r: Reader) {
    Shaped(r) && EncodeFrames(r.delivered) + r.held == r.consumed
  }

  function Deliver(r: Reader): Reader
    requires Shaped(r) && r.state.SckReady?
  {
    r.(delivered := r.delivered + [FirstFrame(r.held)])
  }

  function Restart(r: Reader): Reader {
    r.(held := [], state := SckHeader)
  }

  function Receive(r: Reader, d: seq<byte>, left: seq<Arrival>, state: State): Reader {
    r.(state := state, held := r.held + d, consumed := r.consumed + d, incoming := left)
  }

  datatype Step = Return(r: Reader) | Again(r: Reader)

  /** How many bytes the header or the payload still lacks. */
  function Lacking(r: Reader): nat
    requires Shaped(r) && (r.state.SckHeader? || r.state.SckPayload?)
  {
    if r.state.SckHeader? then HEADER_SIZE - |r.held| else FrameLength(r.held) - |r.held|
  }

  /** One iteration of the loop in `process`. */
  function Turn(r: Reader): Step
    requires Shaped(r)
  {
    match r.state
    case SckHeader =>
      var (got, left) := Read(Lacking(r), r.incoming, r.hungUp);
      if got.ReadError? then
        if got.errno.EAGAIN? then Return(r.(incoming := left))
        else Again(r.(state := SckError, incoming := left))
      else if got.bytes == [] then Again(r.(state := SckEof, incoming := left))
      else
        Again(Receive(r, got.bytes, left,
                      if |r.held + got.bytes| == HEADER_SIZE then SckPayload else SckHeader))
    case SckPayload =>
      var (got, left) := Read(Lacking(r), r.incoming, r.hungUp);
      if got.ReadError? then
        if got.errno.EAGAIN? then Return(r.(incoming := left))
        else Again(r.(state := SckError, incoming := left))
      else
        Again(Receive(r, got.bytes, left,
                      if |r.held + got.bytes| == FrameLength(r.held) then SckReady else SckPayload))
    case SckReady => Again(Restart(Deliver(r)))
    case _ => Return(r)
  }

  /** What this reader has and can get before a read fails. */
  function Pending(r: Reader): seq<byte> {
    r.held + Available(r.incoming)
  }

  /** All bytes the peer ever sent to this reader: those read and those to come. */
  function Stream(r: Reader): seq<byte> {
    r.consumed + Flatten(r.incoming)
  }

  /** The peer hung up, nothing else will stop the loop, and a payload is still owed. */
  predicate Stuck(r: Reader) {
    && Reading(r)
    && r.hungUp
    && StopOf(r.incoming).EndOfList?
    && |Parse(Pending(r)).residue| >= HEADER_SIZE
  }

  function Rank(s: State): nat {
    match s
    case SckPayload => 3
    case SckReady => 2
    case SckHeader => 1
    case _ => 0
  }

  lemma IncompleteParse(s: seq<byte>)
    requires Incomplete(s)
    ensures Parse(s) == Parsed([], s)
  {
  }

  lemma FrameLengthOfPrefix(s: seq<byte>, t: seq<byte>)
    requires |s| >= HEADER_SIZE
    ensures FrameLength(s + t) == FrameLength(s)
  {
    assert (s + t)[..4] == s[..4];
  }

  /** A complete frame in the buffer is the first frame of what is pending. */
  lemma ReadyParses(held: seq<byte>, more: seq<byte>)
    requires |held| >= HEADER_SIZE && |held| == FrameLength(held)
    ensures EncodeFrame(FirstFrame(held)) == held
    ensures Parse(held + more) == Parsed([FirstFrame(held)] + Parse(more).frames, Parse(more).residue)
  {
    FirstFrameEncodes(held);
    assert held[..|held|] == held;
    ParseTakesFirst(FirstFrame(held), more);
  }

  /** From `r` to `n` bytes moved from the socket to the buffer, and nothing else happened. */
  predicate Moved(r: Reader, n: Reader) {
    && n.hungUp == r.hungUp
    && n.delivered == r.delivered
    && Pending(n) == Pending(r)
    && n.held + Flatten(n.incoming) == r.held + Flatten(r.incoming)
    && n.consumed + Available(n.incoming) == r.consumed + Available(r.incoming)
    && Stream(n) == Stream(r)
    && StopOf(n.incoming) == StopOf(r.incoming)
    && AfterStop(n.incoming) == AfterStop(r.incoming)
    && (EncodeFrames(r.delivered) + r.held == r.consumed ==> EncodeFrames(n.delivered) + n.held == n.consumed)
  }

  lemma ReceiveMoves(r: Reader, d: seq<byte>, left: seq<Arrival>, state: State)
    requires Available(r.incoming) == d + Available(left)
    requires Flatten(r.incoming) == d + Flatten(left)
    requires AfterStop(r.incoming) == AfterStop(left)
    requires StopOf(r.incoming) == StopOf(left)
    ensures Moved(r, Receive(r, d, left, state))
  {
    assert r.held + Available(r.incoming) == (r.held + d) + Available(left);
    assert r.held + Flatten(r.incoming) == (r.held + d) + Flatten(left);
    assert r.consumed + Available(r.incoming) == (r.consumed + d) + Available(left);
    assert r.consumed + Flatten(r.incoming) == (r.consumed + d) + Flatten(left);
    assert EncodeFrames(r.delivered) + (r.held + d) == (EncodeFrames(r.delivered) + r.held) + d;
  }

  /** The turn got bytes, or needed none. */
  predicate Gets(r: Reader)
    requires Shaped(r) && (r.state.SckHeader? || r.state.SckPayload?)
  {
    Lacking(r) > 0 ==>
      var got := Read(Lacking(r), r.incoming, r.hungUp).0;
      got.Got? && got.bytes != []
  }

  lemma TurnGets(r: Reader)
    requires Shaped(r) && (r.state.SckHeader? || r.state.SckPayload?) && Gets(r)
    ensures var n := Turn(r).r;
            && Turn(r).Again? && Reading(n) && Shaped(n) && Moved(r, n)
            && (Size(n.incoming) < Size(r.incoming)
                || (Size(n.incoming) == Size(r.incoming) && Rank(n.state) < Rank(r.state)))
  {
    var (got, left) := Read(Lacking(r), r.incoming, r.hungUp);
    if Lacking(r) > 0 {
      ReadEffect(Lacking(r), r.incoming, r.hungUp);
    } else {
      assert [] + Available(r.incoming) == Available(r.incoming);
      assert [] + Flatten(r.incoming) == Flatten(r.incoming);
    }
    ReceiveMoves(r, got.bytes, left, Turn(r).r.state);
    if r.state.SckPayload? {
      FrameLengthOfPrefix(r.held, got.bytes);
    }
  }

  /** A turn that asked and got nothing: why, and what is left. */
  lemma TurnGetsNothing(r: Reader)
    requires Shaped(r) && (r.state.SckHeader? || r.state.SckPayload?) && !Gets(r)
    ensures var n := Turn(r).r;
            && Shaped(n)
            && n == r.(incoming := n.incoming, state := n.state)
            && n.incoming == AfterStop(r.incoming)
            && Flatten(n.incoming) == Flatten(r.incoming)
            && Incomplete(r.held) && Available(r.incoming) == []
            && (match StopOf(r.incoming)
                case Error(EAGAIN) => Turn(r) == Return(n) && n.state == r.state
                case Error(_) => Turn(r) == Again(n) && n.state == SckError
                case EndOfList =>
                  if !r.hungUp then Turn(r) == Return(n) && n.state == r.state
                  else Turn(r) == Again(n) && n.state == (if r.state.SckHeader? then SckEof else SckPayload))
            && (StopOf(r.incoming).Error? ==> Size(n.incoming) < Size(r.incoming))
  {
    ReadEffect(Lacking(r), r.incoming, r.hungUp);
    assert r.held + [] == r.held && r.consumed + [] == r.consumed;
    var (got, left) := Read(Lacking(r), r.incoming, r.hungUp);
    if got.Got? {
      NoStopMeansAll(r.incoming);
    }
  }

  /** Every turn that does not return gets closer to returning, unless the reader is stuck. */
  lemma TurnProgress(r: Reader)
    requires Shaped(r) && !Stuck(r) && Turn(r).Again?
    ensures var n := Turn(r).r;
            && Shaped(n)
            && !Stuck(n)
            && (Size(n.incoming) < Size(r.incoming)
                || (Size(n.incoming) == Size(r.incoming) && Rank(n.state) < Rank(r.state)))
  {
    if r.state.SckReady? {
      ReadyParses(r.held, Available(r.incoming));
      assert [] + Available(r.incoming) == Available(r.incoming);
    } else {
      assert r.held + [] == r.held;
      if Gets(r) {
        TurnGets(r);
      } else {
        TurnGetsNothing(r);
      }
    }
  }

  /** `process`: turns until one returns. */
  function Drain(r: Reader): (n: Reader)
    requires Shaped(r) && !Stuck(r)
    decreases Size(r.incoming), Rank(r.state)
  {
    match Turn(r)
    case Return(n) => n
    case Again(n) =>
      TurnProgress(r);
      Drain(n)
  }

  /** The state in which a reader waits for more, holding `s`. */
  function Waiting(s: seq<byte>): State {
    if |s| < HEADER_SIZE then SckHeader else SckPayload
  }

  /** What `process` must leave behind, by the reference parser. */
  function Drained(r: Reader): Reader {
    var s := Parse(Pending(r));
    Reader(
      match StopOf(r.incoming) {
        case Error(EAGAIN) => Waiting(s.residue)
        case Error(_) => SckError
        case EndOfList => if r.hungUp then SckEof else Waiting(s.residue)
      },
      s.residue,
      AfterStop(r.incoming),
      r.hungUp,
      r.consumed + Available(r.incoming),
      r.delivered + s.frames)
  }

  /** The state machine computes what the reference parser says, however the bytes were cut. */
  lemma {:induction false} DrainIsParse(r: Reader)
    requires Shaped(r) && !Stuck(r) && Reading(r)
    ensures Drain(r) == Drained(r)
    decreases Size(r.incoming), Rank(r.state)
  {
    if r.state.SckReady? {
      ReadyParses(r.held, Available(r.incoming));
      var n := Turn(r).r;
      assert [] + Available(r.incoming) == Available(r.incoming);
      TurnProgress(r);
      DrainIsParse(n);
      Concat3(r.delivered, [FirstFrame(r.held)], Parse(Available(r.incoming)).frames);
    } else if Gets(r) {
      TurnGets(r);
      TurnProgress(r);
      DrainIsParse(Turn(r).r);
    } else {
      TurnGetsNothing(r);
      DrainStops(r);
    }
  }

  lemma DrainStops(r: Reader)
    requires Shaped(r) && !Stuck(r) && (r.state.SckHeader? || r.state.SckPayload?) && !Gets(r)
    ensures Drain(r) == Drained(r)
  {
    TurnGetsNothing(r);
    assert r.held + [] == r.held && r.consumed + [] == r.consumed && r.delivered + [] == r.delivered;
    if Turn(r).Again? {
      TurnProgress(r);
    }
  }

  lemma TurnShaped(r: Reader)
    requires Shaped(r)
    ensures Shaped(Turn(r).r)
  {
    if r.state.SckHeader? || r.state.SckPayload? {
      if Gets(r) {
        TurnGets(r);
      } else {
        TurnGetsNothing(r);
      }
    }
  }

  /** The reader after `n` turns, fewer when one of them returns. */
  function Turns(r: Reader, n: nat): (m: Reader)
    requires Shaped(r)
    ensures Shaped(m)
    decreases n
  {
    if n == 0 || Turn(r).Return? then r
    else
      TurnShaped(r);
      Turns(Turn(r).r, n - 1)
  }

  lemma StuckForOneTurn(r: Reader)
    requires Shaped(r) && Stuck(r)
    ensures Turn(r).Again? && Stuck(Turn(r).r)
  {
    if r.state.SckReady? {
      ReadyParses(r.held, Available(r.incoming));
      assert [] + Available(r.incoming) == Available(r.incoming);
    } else if Gets(r) {
      TurnGets(r);
    } else {
      TurnGetsNothing(r);
      assert r.held + [] == r.held;
    }
  }

  lemma {:induction false} StuckForever(r: Reader, n: nat)
    requires Shaped(r) && Stuck(r)
    ensures Stuck(Turns(r, n)) && Turn(Turns(r, n)).Again?
    decreases n
  {
    hide Turn, Stuck;
    StuckForOneTurn(r);
    TurnShaped(r);
    if n > 0 {
      StuckForever(Turn(r).r, n - 1);
    }
  }

  lemma {:induction false} Returns(r: Reader) returns (n: nat)
    requires Shaped(r) && !Stuck(r)
    ensures Turn(Turns(r, n)).Return?
    decreases Size(r.incoming), Rank(r.state)
  {
    if Turn(r).Return? {
      n := 0;
    } else {
      TurnProgress(r);
      var m := Returns(Turn(r).r);
      n := m + 1;
    }
  }

  /** `process` terminates exactly when the peer does not hang up inside a payload that is next. */
  lemma TerminatesIff(r: Reader)
    requires Shaped(r)
    ensures (exists n: nat :: Turn(Turns(r, n)).Return?) <==> !Stuck(r)
  {
    if Stuck(r) {
      forall n: nat ensures !Turn(Turns(r, n)).Return? {
        StuckForever(r, n);
      }
    } else {
      var n := Returns(r);
    }
  }

  /** It does not terminate when the peer announces one byte and hangs up. */
  lemma HangUpInPayloadIsStuck()
    ensures var r := Reader(SckHeader, [], [Segment([0, 0, 0, 1, 0, 0])], true, [], []);
            Shaped(r) && Stuck(r)
  {
    var s := [0, 0, 0, 1, 0, 0];
    assert s[..4] == [0, 0, 0, 1];
    assert Value32(s[..4]) == 1;
    assert s + [] == s && [] + s == s;
    IncompleteParse(s);
  }

  // --- What the environment promises about the whole stream to come ---

  /** A hang-up comes at most inside a header, never while payload bytes are owed. */
  predicate Calm(r: Reader) {
    r.hungUp ==> |Parse(r.held + Flatten(r.incoming)).residue| < HEADER_SIZE
  }

  /** Every frame of `s`, the last and unfinished one too, fits in `net_buffer`. */
  predicate FramesFit(s: seq<byte>) {
    var p := Parse(s);
    && (forall f <- p.frames :: HEADER_SIZE + |f.body| <= NET_BUFFER_SIZE)
    && (|p.residue| >= HEADER_SIZE ==> FrameLength(p.residue) <= NET_BUFFER_SIZE)
  }

  predicate Fits(r: Reader) {
    FramesFit(r.held + Flatten(r.incoming))
  }

  lemma CalmIsNotStuck(r: Reader)
    requires Calm(r)
    ensures !Stuck(r)
  {
    NoStopMeansAll(r.incoming);
  }

  /** What the environment promises about a stream stays true while it is read. */
  lemma TurnKeepsPromises(r: Reader)
    requires Shaped(r)
    ensures Calm(r) ==> Calm(Turn(r).r)
    ensures Fits(r) ==> Fits(Turn(r).r)
    ensures Turn(r).r.hungUp == r.hungUp && Stream(Turn(r).r) == Stream(r)
  {
    if r.state.SckReady? {
      ReadyParses(r.held, Flatten(r.incoming));
      assert [] + Flatten(r.incoming) == Flatten(r.incoming);
      assert Parse(Flatten(r.incoming)).frames == Parse(r.held + Flatten(r.incoming)).frames[1..];
    } else if r.state.SckHeader? || r.state.SckPayload? {
      if Gets(r) {
        TurnGets(r);
      } else {
        TurnGetsNothing(r);
        assert r.held + [] == r.held;
      }
    }
  }

  lemma {:induction false} DrainKeepsPromises(r: Reader)
    requires Shaped(r) && !Stuck(r)
    ensures Calm(r) ==> Calm(Drain(r))
    ensures Fits(r) ==> Fits(Drain(r))
    ensures Stream(Drain(r)) == Stream(r)
    decreases Size(r.incoming), Rank(r.state)
  {
    TurnKeepsPromises(r);
    if Turn(r).Again? {
      TurnProgress(r);
      DrainKeepsPromises(Turn(r).r);
    }
  }

  lemma FirstFrameFits(held: seq<byte>, more: seq<byte>)
    requires |held| >= HEADER_SIZE && FramesFit(held + more)
    ensures FrameLength(held) <= NET_BUFFER_SIZE
  {
    FrameLengthOfPrefix(held, more);
    if !Incomplete(held + more) {
      assert Parse(held + more).frames[0] == FirstFrame(held + more);
    }
  }

  /** A stream whose frames fit never makes the reader hold, or ask for, more than the buffer. */
  lemma FitsInBuffer(r: Reader)
    requires Shaped(r) && Fits(r)
    ensures |r.held| <= NET_BUFFER_SIZE
    ensures |r.held| >= HEADER_SIZE ==> FrameLength(r.held) <= NET_BUFFER_SIZE
  {
    if |r.held| >= HEADER_SIZE {
      FirstFrameFits(r.held, Flatten(r.incoming));
    }
  }

  // --- When the buffer is large enough ---

  /** The frame being read, all of which `process` asks for, has room in `net_buffer`. */
  predicate Within(r: Reader)
    requires Shaped(r)
  {
    r.state.SckPayload? || r.state.SckReady? ==> FrameLength(r.held) <= NET_BUFFER_SIZE
  }

  ghost predicate AlwaysWithin(r: Reader)
    requires Shaped(r)
  {
    forall n: nat :: Within(Turns(r, n))
  }

  lemma AlwaysWithinStep(r: Reader)
    requires Shaped(r)
    ensures Shaped(Turn(r).r)
    ensures AlwaysWithin(r) <==> Within(r) && (Turn(r).Again? ==> AlwaysWithin(Turn(r).r))
  {
    TurnShaped(r);
    hide Turn, Within;
    var m := Turn(r).r;
    assert Turns(r, 0) == r;
    if Turn(r).Again? {
      assert forall n: nat :: Turns(r, n + 1) == Turns(m, n);
      if Within(r) && AlwaysWithin(m) {
        forall n: nat ensures Within(Turns(r, n)) {
          assert n > 0 ==> Turns(r, n) == Turns(m, n - 1);
        }
      }
    } else {
      assert forall n: nat :: Turns(r, n) == r;
    }
  }

  lemma ReadyFits(held: seq<byte>, more: seq<byte>)
    requires |held| >= HEADER_SIZE && |held| == FrameLength(held)
    ensures FramesFit(held + more) <==> |held| <= NET_BUFFER_SIZE && FramesFit(more)
  {
    ReadyParses(held, more);
    var f, fs := FirstFrame(held), Parse(more).frames;
    assert HEADER_SIZE + |f.body| == |held|;
    assert ([f] + fs)[0] == f && ([f] + fs)[1..] == fs;
  }

  /** With nothing to be had, a turn ends the reading or changes nothing. */
  lemma QuietTurns(r: Reader)
    requires Shaped(r) && (r.state.SckHeader? || r.state.SckPayload?) && !Gets(r)
    ensures AlwaysWithin(r) <==> Within(r)
  {
    TurnGetsNothing(r);
    AlwaysWithinStep(r);
    var m := Turn(r).r;
    if Turn(r).Again? && m.state.SckPayload? {
      assert r.incoming == [] == m.incoming;
      assert m == r;
      forall n: nat ensures Turns(r, n) == r {
        SameForever(r, n);
      }
    } else if Turn(r).Again? {
      AlwaysWithinStep(m);
    }
  }

  lemma {:induction false} SameForever(r: Reader, n: nat)
    requires Shaped(r) && Turn(r) == Again(r)
    ensures Turns(r, n) == r
  {
    if n > 0 {
      SameForever(r, n - 1);
    }
  }

  /** `process` stays inside its buffer, whatever turns it takes, exactly when every frame it can get to fits. */
  lemma {:induction false} StaysInBufferIff(r: Reader)
    requires Shaped(r) && Reading(r)
    ensures AlwaysWithin(r) <==> FramesFit(Pending(r))
    decreases Size(r.incoming), Rank(r.state)
  {
    hide AlwaysWithin, FramesFit, Available;
    var m := Turn(r).r;
    if r.state.SckReady? {
      AlwaysWithinStep(r);
      ReadyFits(r.held, Available(r.incoming));
      assert [] + Available(r.incoming) == Available(r.incoming);
      StaysInBufferIff(m);
    } else if Gets(r) {
      TurnGets(r);
      AlwaysWithinStep(r);
      StaysInBufferIff(m);
      assert Pending(m) == Pending(r);
      if FramesFit(Pending(r)) && r.state.SckPayload? {
        FirstFrameFits(r.held, Available(r.incoming));
      }
    } else {
      QuietTurns(r);
      TurnGetsNothing(r);
      QuietFits(r);
    }
  }

  /** A stream all of whose frames fit never leads out of it. */
  lemma FitsStaysWithin(r: Reader)
    requires Shaped(r) && Fits(r)
    ensures AlwaysWithin(r)
  {
    forall n: nat ensures Within(Turns(r, n)) {
      FitsAfterTurns(r, n);
      FitsInBuffer(Turns(r, n));
    }
  }

  lemma {:induction false} FitsAfterTurns(r: Reader, n: nat)
    requires Shaped(r) && Fits(r)
    ensures Fits(Turns(r, n))
    decreases n
  {
    hide Turn, Fits;
    if n > 0 && Turn(r).Again? {
      TurnKeepsPromises(r);
      TurnShaped(r);
      FitsAfterTurns(Turn(r).r, n - 1);
    }
  }

  /** It does not stay inside when a header announces one byte more than there is room for. */
  lemma OversizedFrameOverruns()
    ensures var r := Reader(SckHeader, [], [Segment([0, 1, 1, 0xCB, 0, 0])], false, [], []);
            Shaped(r) && !AlwaysWithin(r)
  {
    var s := [0, 1, 1, 0xCB, 0, 0];
    var r := Reader(SckHeader, [], [Segment(s)], false, [], []);
    assert s[..4] == [0, 1, 1, 0xCB];
    assert Value32(s[..4]) == NET_BUFFER_SIZE - HEADER_SIZE + 1;
    assert s + [] == s && [] + s == s;
    IncompleteParse(s);
    StaysInBufferIff(r);
  }

  lemma QuietFits(r: Reader)
    requires Shaped(r) && (r.state.SckHeader? || r.state.SckPayload?)
    requires Incomplete(r.held) && Available(r.incoming) == []
    ensures Within(r) <==> FramesFit(Pending(r))
  {
    IncompleteParse(r.held);
    assert r.held + [] == r.held;
  }

  /** A faithful reader between calls holds exactly what the parser leaves of the bytes it has read. */
  lemma FaithfulIsParse(r: Reader)
    requires Faithful(r) && Incomplete(r.held)
    ensures Parse(r.consumed) == Parsed(r.delivered, r.held)
  {
    ParseInvertsEncode(r.delivered, r.held);
  }

  lemma DrainStaysFaithful(r: Reader)
    requires Faithful(r) && !Stuck(r) && Reading(r)
    ensures Faithful(Drain(r)) && Incomplete(Drain(r).held)
  {
    DrainIsParse(r);
    var a, s := Available(r.incoming), Parse(Pending(r));
    ParseKeepsBytes(Pending(r));
    EncodeFramesConcat(r.delivered, s.frames);
    calc {
      r.consumed + a;
      { Concat3(EncodeFrames(r.delivered), r.held, a); }
      EncodeFrames(r.delivered) + (EncodeFrames(s.frames) + s.residue);
      { Concat3(EncodeFrames(r.delivered), EncodeFrames(s.frames), s.residue); }
      EncodeFrames(r.delivered + s.frames) + s.residue;
    }
    DrainEofState(r);
  }

  lemma DrainEofState(r: Reader)
    requires Shaped(r) && !Stuck(r) && Reading(r)
    ensures Incomplete(Drained(r).held) && Shaped(Drained(r))
  {
    ParseKeepsBytes(Pending(r));
  }

  // --- Whole streams, over many calls of `process` ---

  /** Reads fail only because nothing has arrived yet. */
  predicate OnlyWaits(incoming: seq<Arrival>) {
    forall x <- incoming :: x.ReadFails? ==> x.errno == EAGAIN
  }

  lemma {:induction false} StopShrinks(incoming: seq<Arrival>)
    ensures Size(AfterStop(incoming)) <= Size(incoming)
    ensures AfterStop(incoming) != [] ==> Size(AfterStop(incoming)) < Size(incoming)
    ensures OnlyWaits(incoming) ==> OnlyWaits(AfterStop(incoming)) && StopOf(incoming) in {EndOfList, Error(EAGAIN)}
  {
    if incoming != [] && incoming[0].Segment? {
      StopShrinks(incoming[1..]);
    }
  }

  /** `process`, called again each time more has arrived, until all has been read. */
  function ProcessAll(r: Reader): Reader
    requires Shaped(r) && Reading(r) && !r.hungUp && OnlyWaits(r.incoming)
    decreases Size(r.incoming)
  {
    DrainIsParse(r);
    DrainEofState(r);
    StopShrinks(r.incoming);
    var n := Drain(r);
    if n.incoming == [] then n else ProcessAll(n)
  }

  /** Cut in any way, over any number of calls, a stream yields the frames the parser finds in it. */
  lemma {:induction false} ProcessAllIsParse(r: Reader)
    requires Shaped(r) && Reading(r) && !r.hungUp && OnlyWaits(r.incoming)
    ensures var p := Parse(r.held + Flatten(r.incoming));
            ProcessAll(r) == Reader(Waiting(p.residue), p.residue, [], false,
                                    r.consumed + Flatten(r.incoming), r.delivered + p.frames)
    decreases Size(r.incoming)
  {
    DrainIsParse(r);
    DrainEofState(r);
    StopShrinks(r.incoming);
    NoStopMeansAll(r.incoming);
    var a, more := Available(r.incoming), Flatten(AfterStop(r.incoming));
    Concat3(r.held, a, more);
    Concat3(r.consumed, a, more);
    ParseResumes(r.held + a, more);
    var n := Drain(r);
    if n.incoming == [] {
      IncompleteParse(n.held);
      assert n.held + more == n.held;
      assert n.consumed + more == n.consumed;
    } else {
      ProcessAllIsParse(n);
      Concat3(r.delivered, Parse(r.held + a).frames, Parse(n.held + more).frames);
    }
  }

  /** Two ways of cutting the same bytes leave a reader in the same state with the same frames delivered. */
  lemma FragmentationIndependence(r: Reader, cut: seq<Arrival>)
    requires Shaped(r) && Reading(r) && !r.hungUp
    requires OnlyWaits(r.incoming) && OnlyWaits(cut)
    requires Flatten(cut) == Flatten(r.incoming)
    ensures ProcessAll(r.(incoming := cut)) == ProcessAll(r)
  {
    ProcessAllIsParse(r);
    ProcessAllIsParse(r.(incoming := cut));
  }
}
