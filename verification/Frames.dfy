/** Length-prefixed frames: two bytes of body length, low byte first, then the body. */
module Frames {
  import opened Bytes
  import opened Sequences

  function BodyLength(header: seq<Byte>): nat
    requires |header| >= 2
  {
    header[0] as int + 256 * header[1] as int
  }

  /** A complete frame with a body of at least one byte. */
  predicate IsFrame(f: seq<Byte>) {
    |f| > 2 && |f| == BodyLength(f) + 2
  }

  /** The header is the length of the body, low byte first. */
  lemma HeaderLowByteFirst(body: seq<Byte>)
    requires |body| < 0x1_0000
    ensures BodyLength([|body| % 0x100, |body| / 0x100]) == |body|
    ensures body != [] ==> IsFrame([|body| % 0x100, |body| / 0x100] + body)
  {}

  predicate AllFrames(frames: seq<seq<Byte>>) { forall i :: 0 <= i < |frames| ==> IsFrame(frames[i]) }

  /** The frames at the start of a stream, and what follows them: an incomplete frame, or a
      header that announces an empty body. */
  function Parse(stream: seq<Byte>): (r: (seq<seq<Byte>>, seq<Byte>))
    decreases |stream|
  {
    if |stream| < 2 || BodyLength(stream) == 0 || |stream| < BodyLength(stream) + 2 then ([], stream)
    else
      var n := BodyLength(stream) + 2;
      var (frames, rest) := Parse(stream[n..]);
      ([stream[..n]] + frames, rest)
  }

  /** The start of a frame that is not complete. */
  predicate Partial(rest: seq<Byte>) {
    |rest| < 2 || BodyLength(rest) == 0 || |rest| < BodyLength(rest) + 2
  }

  /** The frames of a stream are determined by its bytes. */
  lemma {:induction false} ParseConcat(frames: seq<seq<Byte>>, rest: seq<Byte>)
    requires AllFrames(frames) && Partial(rest)
    ensures Parse(Concat(frames) + rest) == (frames, rest)
    decreases |frames|
  {
    if frames == [] {
      assert Concat(frames) + rest == rest;
    } else {
      var first, others := frames[0], frames[1..];
      ConcatFirst(frames);
      var stream := Concat(frames) + rest;
      assert stream == first + (Concat(others) + rest);
      assert BodyLength(stream) == BodyLength(first);
      assert stream[..|first|] == first && stream[|first|..] == Concat(others) + rest;
      ParseConcat(others, rest);
      assert frames == [first] + others;
    }
  }
}
