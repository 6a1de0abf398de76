/** Frames, the byte stream they make, and a stream parser that reads it back. */
module Framing {
  import opened Wire

  datatype FrameData = FrameData(packetType: uint16, body: seq<byte>)

  /** The size field has 32 bits. */
  type Frame = f: FrameData | |f.body| < 0x1_0000_0000 witness FrameData(0, [])

  const HEARTBEAT: uint16 := 0

  function EncodeFrame(f: Frame): (s: seq<byte>)
    ensures |s| == HEADER_SIZE + |f.body|
  {
    EncodeHeader(|f.body|, f.packetType) + f.body
  }

  function EncodeFrames(fs: seq<Frame>): seq<byte> {
    if fs == [] then [] else EncodeFrame(fs[0]) + EncodeFrames(fs[1..])
  }

  /** How long the frame at the head of `s` is, as its header declares. */
  function FrameLength(s: seq<byte>): nat
    requires |s| >= HEADER_SIZE
  {
    HEADER_SIZE + PayloadSize(s)
  }

  /** `s` ends before its first frame does. */
  predicate Incomplete(s: seq<byte>) {
    |s| < HEADER_SIZE || |s| < FrameLength(s)
  }

  function FirstFrame(s: seq<byte>): Frame
    requires !Incomplete(s)
  {
    FrameData(PacketType(s), s[HEADER_SIZE..FrameLength(s)])
  }

  datatype Parsed = Parsed(frames: seq<Frame>, residue: seq<byte>)

  /** The reference reader: cut complete frames off the front, keep the rest. */
  function Parse(s: seq<byte>): Parsed {
    if Incomplete(s) then Parsed([], s)
    else
      var rest := Parse(s[FrameLength(s)..]);
      Parsed([FirstFrame(s)] + rest.frames, rest.residue)
  }

  lemma FirstFrameEncodes(s: seq<byte>)
    requires !Incomplete(s)
    ensures EncodeFrame(FirstFrame(s)) == s[..FrameLength(s)]
  {
    HeaderIsItsFields(s);
    assert s[..FrameLength(s)] == s[..HEADER_SIZE] + s[HEADER_SIZE..FrameLength(s)];
  }

  lemma EncodedFrameIsFirst(f: Frame, rest: seq<byte>)
    ensures !Incomplete(EncodeFrame(f) + rest)
    ensures FrameLength(EncodeFrame(f) + rest) == |EncodeFrame(f)|
    ensures FirstFrame(EncodeFrame(f) + rest) == f
  {
    var s := EncodeFrame(f) + rest;
    assert s == EncodeHeader(|f.body|, f.packetType) + (f.body + rest);
    HeaderRoundTrip(|f.body|, f.packetType, f.body + rest);
    assert s[HEADER_SIZE..FrameLength(s)] == f.body;
  }

  lemma EncodeFramesCons(f: Frame, fs: seq<Frame>)
    ensures EncodeFrames([f] + fs) == EncodeFrame(f) + EncodeFrames(fs)
  {
    assert ([f] + fs)[1..] == fs;
  }

  lemma Concat3<T>(a: seq<T>, b: seq<T>, c: seq<T>)
    ensures (a + b) + c == a + (b + c)
  {
  }

  /** Parsing loses no byte and stops only where a frame is incomplete. */
  lemma {:induction false} ParseKeepsBytes(s: seq<byte>)
    ensures EncodeFrames(Parse(s).frames) + Parse(s).residue == s
    ensures Incomplete(Parse(s).residue)
    decreases |s|
  {
    if !Incomplete(s) {
      var n := FrameLength(s);
      var rest := Parse(s[n..]);
      ParseKeepsBytes(s[n..]);
      FirstFrameEncodes(s);
      assert Parse(s) == Parsed([FirstFrame(s)] + rest.frames, rest.residue);
      assert n <= |s|;
      EncodeFramesCons(FirstFrame(s), rest.frames);
      hide *;
      Concat3(s[..n], EncodeFrames(rest.frames), rest.residue);
      assert s == s[..n] + s[n..];
    }
  }

  lemma ParseTakesFirst(f: Frame, rest: seq<byte>)
    ensures Parse(EncodeFrame(f) + rest) == Parsed([f] + Parse(rest).frames, Parse(rest).residue)
  {
    EncodedFrameIsFirst(f, rest);
    assert (EncodeFrame(f) + rest)[|EncodeFrame(f)|..] == rest;
  }

  /** Parsing undoes encoding, whatever unfinished frame follows. */
  lemma {:induction false} ParseInvertsEncode(fs: seq<Frame>, tail: seq<byte>)
    requires Incomplete(tail)
    ensures Parse(EncodeFrames(fs) + tail) == Parsed(fs, tail)
  {
    if fs == [] {
      assert EncodeFrames(fs) + tail == tail;
    } else {
      ParseInvertsEncode(fs[1..], tail);
      ParseTakesFirst(fs[0], EncodeFrames(fs[1..]) + tail);
      EncodeFramesCons(fs[0], fs[1..]);
      hide *;
      Concat3(EncodeFrame(fs[0]), EncodeFrames(fs[1..]), tail);
      assert fs == [fs[0]] + fs[1..];
    }
  }

  lemma {:induction false} EncodeFramesConcat(fs: seq<Frame>, gs: seq<Frame>)
    ensures EncodeFrames(fs + gs) == EncodeFrames(fs) + EncodeFrames(gs)
  {
    if fs == [] {
      assert fs + gs == gs;
    } else {
      EncodeFramesConcat(fs[1..], gs);
      EncodeFramesCons(fs[0], fs[1..]);
      EncodeFramesCons(fs[0], fs[1..] + gs);
      hide *;
      Concat3(EncodeFrame(fs[0]), EncodeFrames(fs[1..]), EncodeFrames(gs));
      assert fs == [fs[0]] + fs[1..] && fs + gs == [fs[0]] + (fs[1..] + gs);
    }
  }

  lemma EncodeFramesSnoc(fs: seq<Frame>, f: Frame)
    ensures EncodeFrames(fs + [f]) == EncodeFrames(fs) + EncodeFrame(f)
  {
    EncodeFramesConcat(fs, [f]);
    assert EncodeFrames([f]) == EncodeFrame(f) + EncodeFrames([]);
  }

  /** A reader may stop anywhere and go on later with what it had left over. */
  lemma ParseResumes(s: seq<byte>, t: seq<byte>)
    ensures Parse(s + t).frames == Parse(s).frames + Parse(Parse(s).residue + t).frames
    ensures Parse(s + t).residue == Parse(Parse(s).residue + t).residue
  {
    ParseKeepsBytes(s);
    ResumeAt(Parse(s).frames, Parse(s).residue, t);
  }

  lemma ResumeAt(fs: seq<Frame>, held: seq<byte>, t: seq<byte>)
    ensures Parse((EncodeFrames(fs) + held) + t).frames == fs + Parse(held + t).frames
    ensures Parse((EncodeFrames(fs) + held) + t).residue == Parse(held + t).residue
  {
    var gs, tail := Parse(held + t).frames, Parse(held + t).residue;
    ParseKeepsBytes(held + t);
    calc {
      (EncodeFrames(fs) + held) + t;
      { Concat3(EncodeFrames(fs), held, t); }
      EncodeFrames(fs) + (EncodeFrames(gs) + tail);
      { Concat3(EncodeFrames(fs), EncodeFrames(gs), tail); }
      (EncodeFrames(fs) + EncodeFrames(gs)) + tail;
      { EncodeFramesConcat(fs, gs); }
      EncodeFrames(fs + gs) + tail;
    }
    ParseInvertsEncode(fs + gs, tail);
  }

  /** The frames in a prefix of an encoded stream are a prefix of the frames encoded. */
  lemma PrefixParsesToPrefix(fs: seq<Frame>, s: seq<byte>)
    requires s <= EncodeFrames(fs)
    ensures Parse(s).frames <= fs
    ensures s == EncodeFrames(fs) ==> Parse(s) == Parsed(fs, [])
  {
    var t := EncodeFrames(fs)[|s|..];
    assert s + t == EncodeFrames(fs) + [];
    ParseInvertsEncode(fs, []);
    ParseResumes(s, t);
    if s == EncodeFrames(fs) {
      assert s + [] == s;
    }
  }
}
