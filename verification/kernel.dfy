/**
 The kernel's side of a stream socket, as data.

 What `read` and `write` will return is fixed in advance by two finite lists,
 so a statement for all lists is a statement for every schedule of short reads,
 short writes, interruptions and refusals.
 */
module Kernel {
  import opened Wire

  datatype Errno = EAGAIN | EINTR | EFAULT

  type Chunk = s: seq<byte> | |s| > 0 witness [0]

  /** What comes in: a run of bytes, or a point where `read` returns -1. */
  datatype Arrival = Segment(data: Chunk) | ReadFails(errno: Errno)

  /** What `write` answers: it takes up to `n` bytes (0 when it returns zero), or returns -1. */
  datatype Reply = Takes(n: nat) | WriteFails(errno: Errno)

  /** What the epoll set waits for on a descriptor; EPOLLONESHOT clears both. */
  datatype Interest = Interest(readable: bool, writable: bool)

  const DISARMED := Interest(false, false)

  datatype ReadResult = Got(bytes: seq<byte>) | ReadError(errno: Errno)

  /** All bytes still to come. */
  function Flatten(incoming: seq<Arrival>): seq<byte> {
    if incoming == [] then []
    else (if incoming[0].Segment? then incoming[0].data else []) + Flatten(incoming[1..])
  }

  /** The bytes that can be read before `read` fails for the first time. */
  function Available(incoming: seq<Arrival>): seq<byte> {
    if incoming == [] || incoming[0].ReadFails? then []
    else incoming[0].data + Available(incoming[1..])
  }

  /** What is left behind the first failing `read`. */
  function AfterStop(incoming: seq<Arrival>): seq<Arrival> {
    if incoming == [] then []
    else if incoming[0].ReadFails? then incoming[1..]
    else AfterStop(incoming[1..])
  }

  /** Why reading stops: the end of the list, or an error. */
  datatype Stop = EndOfList | Error(errno: Errno)

  function StopOf(incoming: seq<Arrival>): Stop {
    if incoming == [] then EndOfList
    else if incoming[0].ReadFails? then Error(incoming[0].errno)
    else StopOf(incoming[1..])
  }

  /** Bytes and failures still to come; every `read` that asks for something uses some up. */
  function Size(incoming: seq<Arrival>): nat {
    if incoming == [] then 0
    else (if incoming[0].Segment? then |incoming[0].data| else 1) + Size(incoming[1..])
  }

  /** `read` asked for `n` bytes. Past the end of the list it answers EAGAIN, or 0 after a hang-up. */
  function Read(n: nat, incoming: seq<Arrival>, hungUp: bool): (ReadResult, seq<Arrival>) {
    if n == 0 then (Got([]), incoming)
    else if incoming == [] then (if hungUp then Got([]) else ReadError(EAGAIN), [])
    else
      match incoming[0]
      case ReadFails(e) => (ReadError(e), incoming[1..])
      case Segment(d) =>
        if |d| <= n then (Got(d), incoming[1..])
        else (Got(d[..n]), [Segment(d[n..])] + incoming[1..])
  }

  lemma ReadEffect(n: nat, incoming: seq<Arrival>, hungUp: bool)
    requires n > 0
    ensures var (r, left) := Read(n, incoming, hungUp);
            match r
            case Got(d) =>
              && |d| <= n
              && (d == [] ==> incoming == left == [] && hungUp)
              && (d != [] ==>
                    && Available(incoming) == d + Available(left)
                    && Flatten(incoming) == d + Flatten(left)
                    && AfterStop(incoming) == AfterStop(left)
                    && StopOf(incoming) == StopOf(left)
                    && Size(left) < Size(incoming))
            case ReadError(e) =>
              && Available(incoming) == []
              && Flatten(incoming) == Flatten(left)
              && AfterStop(incoming) == left
              && StopOf(incoming) == (if incoming == [] then EndOfList else Error(e))
              && (incoming == [] ==> e == EAGAIN && !hungUp)
              && (incoming != [] ==> Size(left) < Size(incoming))
  {
    if incoming != [] && incoming[0].Segment? && |incoming[0].data| > n {
      ShortReadSplits(n, incoming[0].data, incoming[1..]);
      assert incoming == [Segment(incoming[0].data)] + incoming[1..];
    }
  }

  lemma ShortReadSplits(n: nat, d: Chunk, rest: seq<Arrival>)
    requires 0 < n < |d|
    ensures var (whole, left) := ([Segment(d)] + rest, [Segment(d[n..])] + rest);
            && Available(whole) == d[..n] + Available(left)
            && Flatten(whole) == d[..n] + Flatten(left)
            && AfterStop(whole) == AfterStop(left)
            && StopOf(whole) == StopOf(left)
            && Size(left) < Size(whole)
  {
    var whole, left := [Segment(d)] + rest, [Segment(d[n..])] + rest;
    assert whole[1..] == rest && left[1..] == rest;
    assert d == d[..n] + d[n..];
    assert d + Available(rest) == d[..n] + (d[n..] + Available(rest));
    assert d + Flatten(rest) == d[..n] + (d[n..] + Flatten(rest));
  }

  /** With nothing failing on the way, everything still to come is available. */
  lemma {:induction false} NoStopMeansAll(incoming: seq<Arrival>)
    ensures StopOf(incoming).EndOfList? ==> Available(incoming) == Flatten(incoming) && AfterStop(incoming) == []
    ensures Flatten(incoming) == Available(incoming) + Flatten(AfterStop(incoming))
  {
    if incoming != [] {
      NoStopMeansAll(incoming[1..]);
    }
  }

  lemma {:induction false} FlattenConcat(xs: seq<Arrival>, ys: seq<Arrival>)
    ensures Flatten(xs + ys) == Flatten(xs) + Flatten(ys)
  {
    if xs == [] {
      assert xs + ys == ys;
    } else {
      FlattenConcat(xs[1..], ys);
      assert (xs + ys)[1..] == xs[1..] + ys;
    }
  }

  datatype WriteResult = Wrote(n: nat) | WriteError(errno: Errno)

  /** `write` asked to send `size` bytes. */
  function Write(size: nat, replies: seq<Reply>): (WriteResult, seq<Reply>) {
    if replies == [] then (WriteError(EAGAIN), [])
    else
      match replies[0]
      case WriteFails(e) => (WriteError(e), replies[1..])
      case Takes(k) => (Wrote(if k <= size then k else size), replies[1..])
  }

  datatype PushEnd = Done | Blocked | Dead

  /** How a write loop over `data` ends: bytes taken, replies left, and why it stopped. */
  datatype Pushed = Pushed(count: nat, replies: seq<Reply>, end: PushEnd)

  /**
   The loop `while (total < n) write(...)`: it goes on after a short write and after
   EINTR, blocks on EAGAIN, and gives up on any other error and on a zero.
   A kernel with no more replies answers EAGAIN.
   */
  function Push(data: seq<byte>, replies: seq<Reply>): (p: Pushed)
    ensures p.count <= |data|
    ensures p.end.Done? <==> p.count == |data|
    decreases |replies|
  {
    if data == [] then Pushed(0, replies, Done)
    else
      var (result, left) := Write(|data|, replies);
      match result
      case WriteError(EINTR) => Push(data, left)
      case WriteError(EAGAIN) => Pushed(0, left, Blocked)
      case WriteError(EFAULT) => Pushed(0, left, Dead)
      case Wrote(n) =>
        if n == 0 then Pushed(0, left, Dead)
        else
          var p := Push(data[n..], left);
          Pushed(n + p.count, p.replies, p.end)
  }

  /** The loop described by `all` has moved `done` bytes and has `rest` and `replies` before it. */
  predicate Pushing(all: Pushed, done: nat, rest: seq<byte>, replies: seq<Reply>) {
    var p := Push(rest, replies);
    all == Pushed(done + p.count, p.replies, p.end)
  }

  /** What one `write` does to such a loop. */
  lemma PushOnce(all: Pushed, done: nat, rest: seq<byte>, replies: seq<Reply>)
    requires rest != [] && Pushing(all, done, rest, replies)
    ensures var (result, left) := Write(|rest|, replies);
            match result
            case WriteError(EINTR) => Pushing(all, done, rest, left) && |left| < |replies|
            case WriteError(EAGAIN) => all == Pushed(done, left, Blocked)
            case WriteError(EFAULT) => all == Pushed(done, left, Dead)
            case Wrote(n) =>
              && n <= |rest|
              && (if n == 0 then all == Pushed(done, left, Dead)
                  else Pushing(all, done + n, rest[n..], left) && |left| < |replies|)
  {
  }
}
