/** What the bridge of src/bridge.c guarantees in every state that a run reaches, and what it
    does with whole streams. */
module BridgeRuns {
  import opened Bridge
  import opened BridgeMachine
  import BtStream
  import opened Bytes
  import opened Frames
  import opened Sequences
  import opened Unlock

  // ----- from the TCP socket to the device -----

  /** On the current or last connection: the frames given to the device are exactly the frames
      of the received stream, in order and once each; while it lasts, the rest of the stream is
      the frame being read. */
  lemma ForwardedIsParse(link: Link)
    requires link.Inv()
    ensures Parse(link.received).0 == link.forwarded
    ensures link.net.Connected? ==> Parse(link.received).1 == link.PartialFrame()
  {
    hide StartHistory;
    if link.net.Connected? {
      ParseConcat(link.forwarded, link.PartialFrame());
    }
  }

  /** No connection up to now ended with a header of which one byte was read. */
  ghost predicate NoHeaderCut(link: Link)
    reads link
  {
    link.device.stray == [] && forall v :: v in link.device.visits ==> v.stray == []
  }

  /** Over all connections: the device gets the frames of each received stream, in order and
      once each, and the byte of each cut-off header; so it gets nothing but frames if and only
      if no header read returned exactly one byte. */
  lemma DeviceWrites(link: Link)
    requires link.Inv()
    ensures link.device.writes ==
      AllHanded(link.device.visits) + Handed(Visit(link.received, link.device.stray))
    ensures AllFrames(link.device.writes) <==> NoHeaderCut(link)
  {
    hide StartHistory, Parse;
    var visits := link.device.visits + [Visit(link.received, link.device.stray)];
    assert visits[..|visits| - 1] == link.device.visits;
    FramesUnlessCut(visits);
    assert forall v :: v in visits <==> v in link.device.visits || v == visits[|visits| - 1];
  }

  lemma {:induction false} FramesUnlessCut(visits: seq<Visit>)
    ensures AllFrames(AllHanded(visits)) <==> forall v :: v in visits ==> |v.stray| == 0 || IsFrame(v.stray)
  {
    hide IsFrame;
    if visits != [] {
      var n := |visits| - 1;
      FramesUnlessCut(visits[..n]);
      ParsedFrames(visits[n].received);
      BothAllFrames(AllHanded(visits[..n]), Handed(visits[n]));
      BothAllFrames(Parse(visits[n].received).0, if visits[n].stray == [] then [] else [visits[n].stray]);
      assert visits == visits[..n] + [visits[n]];
      assert visits[n].stray != [] ==> [visits[n].stray][0] == visits[n].stray;
    }
  }

  lemma BothAllFrames(a: seq<seq<Byte>>, b: seq<seq<Byte>>)
    ensures AllFrames(a + b) <==> AllFrames(a) && AllFrames(b)
  {
    hide IsFrame;
    assert forall i :: 0 <= i < |a| ==> a[i] == (a + b)[i];
    assert forall i :: 0 <= i < |b| ==> b[i] == (a + b)[|a| + i];
  }

  lemma {:induction false} ParsedFrames(stream: seq<Byte>)
    ensures AllFrames(Parse(stream).0)
    decreases |stream|
  {
    if !Partial(stream) {
      var n := BodyLength(stream) + 2;
      ParsedFrames(stream[n..]);
      assert BodyLength(stream[..n]) == BodyLength(stream);
      BothAllFrames([stream[..n]], Parse(stream[n..]).0);
    }
  }

  /** A frame reaches the device only after a read of the same connection satisfied the check;
      that read brought the text itself unless bytes left in the buffer could complete it. */
  lemma NothingBeforeUnlock(link: Link) returns (s: StartRead)
    requires link.Inv() && link.net.Connected? && (link.forwarded != [] || !link.tcpRead.WaitOnStart?)
    ensures link.starts != [] && s == link.starts[|link.starts| - 1] && s.Unlocking()
    ensures s.before == AfterReads(link.starts[..|link.starts| - 1], link.atAccept)
    ensures Completes(s.Leftover(), |s.got|) || Contains(s.got, UNLOCK)
  {
    hide Completes, Contains, Unlocks;
    s := link.starts[|link.starts| - 1];
    UnlockMeansReceived(s.before, |s.got|);
  }

  /** On a connection that found the buffer clear, an unlock by a read that is no shorter than
      those before it means that this read brought the text. */
  lemma ClearBufferMeansText(link: Link)
    requires link.Inv() && link.net.Connected? && !link.tcpRead.WaitOnStart?
    requires link.atAccept == Zeros(READ_SIZE)
    requires forall r :: r in link.starts ==> |r.got| <= |link.starts[|link.starts| - 1].got|
    ensures link.starts != [] && Contains(link.starts[|link.starts| - 1].got, UNLOCK)
  {
    hide Contains, Unlocks, AfterReads, Chained, Zeros, Link.ReadInv, Link.WriteInv, Link.HereInv;
    UnlockOnClearBuffer(link.starts, link.atAccept);
  }

  // ----- whole streams -----

  /** On an unlocked connection, a run that is not broken off and whose reads bring some frames
      and the start of another, however they cut the bodies, forwards exactly these frames. */
  method RunDelivers(link: Link, events: seq<Event>, ghost frames: seq<seq<Byte>>, ghost rest: seq<Byte>)
    requires link.Inv() && link.net.Connected? && link.tcpRead.WaitOnLength?
    requires link.Now().Valid() && Unbroken(link.Now(), events)
    requires AllFrames(frames) && Partial(rest) && Brought(events) == Concat(frames) + rest
    modifies link, link.buffer
    ensures link.Inv() && link.net.Connected? && !link.tcpRead.WaitOnStart? && link.starts == old(link.starts)
    ensures link.forwarded == old(link.forwarded) + frames && link.PartialFrame() == rest
    ensures old(link.sent) <= link.sent
  {
    hide Link.Inv, Concat, Unbroken;
    ghost var before := link.forwarded;
    AtFrameBorder(link);
    FramesForwarded(link);
    UnbrokenReceives(link.Now(), events);
    RunSentGrows(link.Now(), events);
    link.Run(events);
    ForwardedFrames(link, before, frames, rest);
  }

  lemma FramesForwarded(link: Link)
    requires link.Inv()
    ensures AllFrames(link.forwarded)
  {}

  /** What was received says what was forwarded and what is being read. */
  lemma ForwardedFrames(link: Link, before: seq<seq<Byte>>, frames: seq<seq<Byte>>, rest: seq<Byte>)
    requires link.Inv() && link.net.Connected? && AllFrames(before) && AllFrames(frames) && Partial(rest)
    requires link.received == Concat(before) + (Concat(frames) + rest)
    ensures link.forwarded == before + frames && link.PartialFrame() == rest
  {
    hide Link.Inv, Concat, IsFrame, Partial;
    ConcatBoth(before, frames);
    assert link.received == Concat(before + frames) + rest;
    ParseConcat(before + frames, rest);
    ForwardedIsParse(link);
  }

  lemma {:induction false} ConcatBoth(a: seq<seq<Byte>>, b: seq<seq<Byte>>)
    ensures Concat(a + b) == Concat(a) + Concat(b)
    decreases |b|
  {
    if b == [] {
      assert a + b == a;
    } else {
      assert (a + b)[..|a + b| - 1] == a + b[..|b| - 1];
      ConcatBoth(a, b[..|b| - 1]);
    }
  }

  /** A run from before the connection: if its first events unlock the bridge, it forwards exactly
      the frames that the others bring. */
  method UnlockAndDeliver(link: Link, opening: seq<Event>, events: seq<Event>, ghost frames: seq<seq<Byte>>,
      ghost rest: seq<Byte>)
    requires link.Inv() && link.net.NotConnected? && link.Now().Valid()
    requires var s := link.Now().After(opening);
      Opened(s.reader) && Unbroken(s, events)
    requires AllFrames(frames) && Partial(rest) && Brought(events) == Concat(frames) + rest
    modifies link, link.buffer
    ensures link.Inv() && link.net.Connected? && link.forwarded == frames && link.PartialFrame() == rest
    ensures link.starts == old(link.Now().After(opening)).reader.starts
  {
    hide Link.Inv, Concat, Unbroken;
    ghost var s := link.Now().After(opening);
    AfterBoth(link.Now(), opening, events);
    UnbrokenReceives(s, events);
    link.Run(opening + events);
    NoFrames();
    ForwardedFrames(link, [], frames, rest);
  }

  /** A connection that has just been unlocked. */
  predicate Opened(r: Reader) { r.net.Connected? && r.tcp.WaitOnLength? && r.received == [] && r.forwarded == [] }

  /** A client connects and its first read is enough for the check. */
  lemma Greeted(s: State, text: seq<Byte>)
    requires s.Valid() && s.reader.net.NotConnected? && 0 < |text| <= START_SIZE && Unlocks(s.reader.buffer, text)
    ensures var t := s.After([Calling(), Reading(text)]).reader;
      && Opened(t) && t.buffer == Received(s.reader.buffer, text)
      && t.starts == [StartRead(s.reader.buffer, text)] && t.device == NextLog(s.reader.device, s.reader.received)
  {
    hide Unlocks, State.Next, State.Talk;
    AfterTwo(s, Calling(), Reading(text));
    NextIs(s, Calling());
    NextIs(s.Next(Calling()), Reading(text));
    FirstRead(s.reader.Accepted(), text);
    hide Reader.Read;
    ReadOnly(s.Next(Calling()), text);
  }

  lemma FirstRead(r: Reader, text: seq<Byte>)
    requires r.Valid() && r.tcp.WaitOnStart? && 0 < |text| <= START_SIZE && Unlocks(r.buffer, text)
    ensures var t := r.Read(text, n => n);
      t == r.(tcp := WaitOnLength, buffer := Received(r.buffer, text),
        starts := r.starts + [StartRead(r.buffer, text)])
  {
    hide Unlocks;
  }

  /** A pass in which only the socket speaks is a read. */
  lemma ReadOnly(s: State, got: seq<Byte>)
    requires s.Valid() && s.reader.net.Connected? && |got| <= s.reader.Requested()
    ensures s.Admits(Reading(got)) && s.Talk(Reading(got)).reader == s.reader.Read(got, n => n)
  {
    hide Reader.Read;
  }

  /** The other direction of such a run: if every pass brings a packet that the socket takes,
      all packets go out, in order and in full, whatever frames come in. */
  method RunSends(link: Link, events: seq<Event>)
    requires link.Inv() && link.net.Connected? && link.tcpRead.WaitOnLength? && link.writeLen == 0
    requires link.Now().Valid() && Unbroken(link.Now(), events) && forall e :: e in events ==> Takes(e)
    modifies link, link.buffer
    ensures link.Inv() && link.net.Connected?
    ensures link.packets == old(link.packets) + Packets(events) && link.sent == old(link.sent) + Concat(Packets(events))
  {
    hide Link.Inv, Concat, Unbroken, Takes;
    SentIsPrefix(link);
    UnbrokenReceives(link.Now(), events);
    UnbrokenSends(link.Now(), events);
    link.Run(events);
  }

  // ----- one stream, cut in any way -----

  /** What happens in a pass while frames come in: whether the socket is readable, how many
      bytes it has, and everything that concerns the other direction. */
  datatype Pass = Pass(
    readable: bool, n: nat, packet: seq<Byte>, deviceWrite: nat -> int, writable: bool, written: nat)
  {
    function Bringing(got: seq<Byte>): Event {
      Event(false, false, packet, readable && got != [], got, deviceWrite, writable, written)
    }

    /** The device takes whole reports, and its transport counts the report byte, as hid_write
        does; a device packet carries its length. */
    ghost predicate Possible() {
      IsDevicePacket(packet) && forall n: nat :: deviceWrite(n) >= n
    }
  }

  ghost predicate AllPossible(passes: seq<Pass>) { forall i :: 0 <= i < |passes| ==> passes[i].Possible() }

  function Readables(passes: seq<Pass>): nat
    decreases |passes|
  {
    if passes == [] then 0 else (if passes[0].readable then 1 else 0) + Readables(passes[1..])
  }

  /** How far a stream of frames has come: whole frames, and bytes of the next one. */
  datatype Mark = Mark(done: nat, part: nat) {
    predicate In(frames: seq<seq<Byte>>) {
      done <= |frames| && (part > 0 ==> done < |frames| && 2 <= part < |frames[done]|)
    }

    /** The header in one read, then as many bytes as there are, at least one. */
    function Bytes(frames: seq<seq<Byte>>, pass: Pass): (n: nat)
      requires AllFrames(frames) && In(frames)
      ensures done < |frames| ==> part + n <= |frames[done]|
      ensures n == 0 <==> !pass.readable || done == |frames|
    {
      if !pass.readable || done == |frames| then 0
      else if part == 0 then 2
      else
        var left := |frames[done]| - part;
        if pass.n < 1 then 1 else if pass.n > left then left else pass.n
    }

    function Got(frames: seq<seq<Byte>>, pass: Pass): seq<Byte>
      requires AllFrames(frames) && In(frames)
    {
      if done == |frames| then [] else frames[done][part..part + Bytes(frames, pass)]
    }

    function Next(frames: seq<seq<Byte>>, pass: Pass): (m: Mark)
      requires AllFrames(frames) && In(frames)
      ensures m.In(frames)
    {
      if done < |frames| && part + Bytes(frames, pass) == |frames[done]| then Mark(done + 1, 0)
      else Mark(done, part + Bytes(frames, pass))
    }

    /** The bytes up to here. */
    function Before(frames: seq<seq<Byte>>): seq<Byte>
      requires In(frames)
    {
      Concat(frames[..done]) + if part == 0 then [] else frames[done][..part]
    }
  }

  function Script(frames: seq<seq<Byte>>, m: Mark, passes: seq<Pass>): (r: (seq<Event>, Mark))
    requires AllFrames(frames) && m.In(frames)
    ensures r.1.In(frames)
    decreases |passes|
  {
    if passes == [] then ([], m)
    else
      var (events, end) := Script(frames, m.Next(frames, passes[0]), passes[1..]);
      ([passes[0].Bringing(m.Got(frames, passes[0]))] + events, end)
  }

  /** The reader waits for the rest of the frame that the mark is in. */
  predicate At(r: Reader, frames: seq<seq<Byte>>, m: Mark)
    requires m.In(frames)
  {
    && r.net.Connected?
    && if m.part == 0 then r.tcp.WaitOnLength?
       else r.tcp.WaitOnChunk? && |r.partial| == m.part && r.rest == |frames[m.done]| - m.part
  }

  lemma MarkMoves(frames: seq<seq<Byte>>, m: Mark, pass: Pass)
    requires AllFrames(frames) && m.In(frames)
    ensures m.Next(frames, pass).Before(frames) == m.Before(frames) + m.Got(frames, pass)
    ensures m.Next(frames, pass).done < |frames| && pass.readable ==> m.Got(frames, pass) != []
    ensures m.done == |frames| ==> m.Next(frames, pass) == m
  {
    hide Concat;
    if m.done < |frames| {
      var (f, n) := (frames[m.done], m.part + m.Bytes(frames, pass));
      assert f[..m.part] + f[m.part..n] == f[..n];
      Regroup(Concat(frames[..m.done]), f[..m.part], f[m.part..n]);
      if n == |f| {
        assert f[..n] == f && frames[..m.done + 1] == frames[..m.done] + [f];
        ConcatOneMore(frames[..m.done], f);
      }
    }
  }

  lemma PassAt(s: State, frames: seq<seq<Byte>>, m: Mark, pass: Pass)
    requires s.Valid() && AllFrames(frames) && m.In(frames) && At(s.reader, frames, m) && pass.Possible()
    ensures var e := pass.Bringing(m.Got(frames, pass));
      && s.Admits(e) && Keeps(s.reader, e) && At(s.Next(e).reader, frames, m.Next(frames, pass))
      && (if e.readable then e.got else []) == m.Got(frames, pass)
  {
    if m.done < |frames| && m.part == 0 {
      assert BodyLength(frames[m.done][..2]) == BodyLength(frames[m.done]);
    }
  }

  /** The script of a stream is a run that is not broken off, brings the stream up to its mark,
      and at least one byte in every readable pass. */
  lemma {:induction false} ScriptRuns(s: State, frames: seq<seq<Byte>>, m: Mark, passes: seq<Pass>)
    requires s.Valid() && AllFrames(frames) && m.In(frames) && At(s.reader, frames, m) && AllPossible(passes)
    ensures var (events, end) := Script(frames, m, passes);
      && Unbroken(s, events) && end.Before(frames) == m.Before(frames) + Brought(events)
      && (end.done == |frames| || |Brought(events)| >= Readables(passes))
      && (m.done == |frames| ==> end.done == |frames|)
    decreases |passes|
  {
    hide At, State.Next, State.Admits, Keeps, Mark.Next, Mark.Got, Mark.Before, State.Valid, IsFrame;
    if passes == [] {
      assert m.Before(frames) + [] == m.Before(frames);
    } else {
      var (pass, e) := (passes[0], passes[0].Bringing(m.Got(frames, passes[0])));
      PassAt(s, frames, m, pass);
      MarkMoves(frames, m, pass);
      ScriptRuns(s.Next(e), frames, m.Next(frames, pass), passes[1..]);
      var (events, end) := Script(frames, m.Next(frames, pass), passes[1..]);
      Regroup(m.Before(frames), m.Got(frames, pass), Brought(events));
      assert ([e] + events)[1..] == events;
    }
  }

  /** The first `done` frames are forwarded, and `part` bytes of the next one are there. */
  ghost predicate Delivered(link: Link, before: seq<seq<Byte>>, frames: seq<seq<Byte>>, done: nat, part: nat)
    reads link, link.buffer
  {
    && link.Inv() && link.net.Connected? && done <= |frames| && link.forwarded == before + frames[..done]
    && (if part == 0 then link.tcpRead.WaitOnLength?
        else
          && done < |frames| && part < |frames[done]| && link.tcpRead.WaitOnChunk?
          && link.restLen == |frames[done]| - part
          && link.received == Concat(link.forwarded) + frames[done][..part])
  }

  lemma AtFrameBorder(link: Link)
    requires link.Inv() && link.net.Connected? && link.tcpRead.WaitOnLength?
    ensures link.received == Concat(link.forwarded)
  {
    hide Concat, StartHistory;
    assert link.received == Concat(link.forwarded) + [];
  }

  /** Every fragmentation of a stream of frames, with any traffic in the other direction: in the
      end exactly the frames that are complete have been forwarded, in order and once each, the
      connection is kept, and every readable pass has brought at least one byte. */
  method Deliver(link: Link, frames: seq<seq<Byte>>, passes: seq<Pass>) returns (done: nat, part: nat)
    requires link.Inv() && link.net.Connected? && link.tcpRead.WaitOnLength?
    requires AllFrames(frames) && AllPossible(passes)
    modifies link, link.buffer
    ensures Delivered(link, old(link.forwarded), frames, done, part) && old(link.sent) <= link.sent
    ensures done == |frames| || |Concat(frames[..done])| + part >= Readables(passes)
  {
    hide Link.Inv, Concat, Unbroken;
    var (events, end) := Script(frames, Mark(0, 0), passes);
    done, part := end.done, end.part;
    link.NowValid();
    ScriptRuns(link.Now(), frames, Mark(0, 0), passes);
    ghost var rest := if part == 0 then [] else frames[done][..part];
    StreamStart(frames);
    MarkIsPartial(frames, end);
    ghost var before := link.forwarded;
    RunDelivers(link, events, frames[..done], rest);
    InFrame(link, before, frames, end);
  }

  lemma StreamStart(frames: seq<seq<Byte>>)
    ensures frames[..0] == [] && Concat<Byte>([]) == []
  {}

  lemma MarkIsPartial(frames: seq<seq<Byte>>, m: Mark)
    requires AllFrames(frames) && m.In(frames)
    ensures var rest := if m.part == 0 then [] else frames[m.done][..m.part];
      Partial(rest) && AllFrames(frames[..m.done])
  {
    if m.part > 0 {
      assert BodyLength(frames[m.done][..m.part]) == BodyLength(frames[m.done]);
    }
  }

  lemma InFrame(link: Link, before: seq<seq<Byte>>, frames: seq<seq<Byte>>, m: Mark)
    requires link.Inv() && link.net.Connected? && !link.tcpRead.WaitOnStart? && AllFrames(frames) && m.In(frames)
    requires link.forwarded == before + frames[..m.done]
    requires link.PartialFrame() == if m.part == 0 then [] else frames[m.done][..m.part]
    ensures Delivered(link, before, frames, m.done, m.part)
  {
    hide StartHistory, DeviceHistory, Concat;
    if m.part > 0 {
      assert link.buffer[..2] == link.PartialFrame()[..2];
      assert BodyLength(link.PartialFrame()[..2]) == BodyLength(frames[m.done]);
    }
  }

  /** A frame without a body is never forwarded: whatever the next read returns, the
      connection ends. */
  lemma EmptyBodyEndsConnection(link: Link, e: Event)
    requires link.Inv() && link.net.Connected? && link.tcpRead.WaitOnChunk? && link.totalLength == 2
    requires |e.got| <= link.Requested()
    ensures !link.Keeps(e.got) && !link.Finishes(e.got)
  {
    hide StartHistory, Concat;
  }

  // ----- a check that looks at leftovers -----

  /** Only the socket speaks. */
  function Reading(got: seq<Byte>): Event { Event(false, false, [], true, got, n => n, false, 0) }

  function Calling(): Event { Event(false, true, [], false, [], n => n, false, 0) }

  /** A run in which the device gets one byte that is no frame: a client unlocks the bridge and
      its next header arrives byte by byte. */
  method CutHeaderReachesDevice(x: Byte) returns (link: Link)
    ensures link.Inv() && link.device.writes == [[x]] && !AllFrames(link.device.writes) && link.net.NotConnected?
  {
    hide Link.Inv, Contains, Unlocks, Unlock.Received, Zeros;
    link := new Link();
    ghost var s := link.Now();
    link.NowValid();
    TextInBuffer(Zeros(READ_SIZE));
    Greeted(s, [71] + UNLOCK);
    AfterBoth(s, [Calling(), Reading([71] + UNLOCK)], [Reading([x])]);
    CutOff(s.After([Calling(), Reading([71] + UNLOCK)]), x);
    link.Run([Calling(), Reading([71] + UNLOCK)] + [Reading([x])]);
    assert !IsFrame([x]) && link.device.writes[0] == [x];
  }

  lemma CutOff(s: State, x: Byte)
    requires s.Valid() && Opened(s.reader)
    ensures var t := s.After([Reading([x])]).reader;
      t.net.NotConnected? && t.device.writes == s.reader.device.writes + [[x]]
  {
    hide State.Next, State.Talk;
    AfterTwo(s, Reading([x]), Reading([x]));
    NextIs(s, Reading([x]));
    ReadOnly(s, [x]);
  }

  // ----- transports that do not count the report byte -----

  /** One pass with bt_write as the device write: it reports at most the bytes behind the report
      byte, which is one too few, so a connection never survives a completed frame, although
      the frame goes out in full unless the line fails. */
  method PassOverBluetooth(link: Link, line: BtStream.Line, e: Event)
    requires link.Inv() && link.net.Connected? && link.Possible(e) && e.readable
    modifies link, link.buffer, line
    ensures link.Inv()
    ensures old(link.Finishes(e.got)) ==> link.net.NotConnected?
    ensures old(link.Finishes(e.got)) ==>
      var f := old(link.PartialFrame()) + e.got;
      line.content == old(line.content) + f || line.Fails(old(line.calls), line.calls)
    ensures !old(link.Finishes(e.got)) && !old(link.CutsHeader(e.got)) ==> line.content == old(line.content)
  {
    hide Link.Inv, Unlocks, Concat;
    HasRoom(link);
    var result := 0;
    var bytes := if link.Finishes(e.got) then link.PartialFrame() + e.got
      else if link.CutsHeader(e.got) then e.got else [];
    if bytes != [] {
      var report := [0] + bytes;
      result := BtStream.bt_write(line, report, |report|);
      assert report[1..1 + |bytes|] == bytes;
    }
    link.Exchange(e.(deviceWrite := n => result));
  }

  /** The client leaves, in whatever state: the connection is closed, and what it has not taken
      or left in the buffer stays for the next one. */
  method Leave(link: Link)
    requires link.Inv() && link.net.Connected?
    modifies link, link.buffer
    ensures link.Inv() && link.net.NotConnected? && link.buffer[..] == old(link.buffer[..])
    ensures link.packets == old(link.packets) && link.sent == old(link.sent) && link.forwarded == old(link.forwarded)
    ensures link.Pending() == old(link.Pending())
  {
    hide Link.Inv, Unlocks, Concat;
    HasRoom(link);
    SentIsPrefix(link);
    link.Exchange(Reading([]));
    SentIsPrefix(link);
  }

  lemma HasRoom(link: Link)
    requires link.Inv()
    ensures link.buffer.Length == READ_SIZE && link.Place() <= READ_SIZE
    ensures link.net.Connected? ==> !link.tcpRead.Idle?
  {
    hide StartHistory, Concat;
  }

  /** A run whose second client never sends the text: the first client's text is still in the
      buffer, one byte of the second client unlocks, and its frame reaches the device. */
  method LeftoversUnlock(f: seq<Byte>) returns (link: Link)
    requires IsFrame(f)
    ensures link.Inv() && link.net.Connected? && link.forwarded == [f]
    ensures link.starts != [] && forall r :: r in link.starts ==> !Contains(r.got, UNLOCK)
  {
    hide Link.Inv, Contains, Unlocks, Unlock.Received, Zeros, Unbroken, IsFrame, Concat;
    link := new Link();
    var first, leave, second := [Calling(), Reading([71] + UNLOCK)], [Reading([])], [Calling(), Reading([71])];
    ghost var s := link.Now();
    link.NowValid();
    TextInBuffer(Zeros(READ_SIZE));
    Greeted(s, [71] + UNLOCK);
    AfterBoth(s, first, leave);
    Left(s.After(first));
    AfterBoth(s, first + leave, second);
    Greeted(s.After(first + leave), [71]);
    OneFrame(s.After(first + leave + second), f);
    UnlockAndDeliver(link, first + leave + second, [Reading(f[..2]), Reading(f[2..])], [f], []);
  }

  lemma Left(s: State)
    requires s.Valid() && Opened(s.reader)
    ensures var t := s.After([Reading([])]); t.reader.net.NotConnected? && t.reader.buffer == s.reader.buffer
  {
    hide State.Next, State.Talk;
    AfterTwo(s, Reading([]), Reading([]));
    NextIs(s, Reading([]));
    ReadOnly(s, []);
  }

  lemma OneFrame(s: State, f: seq<Byte>)
    requires s.Valid() && Opened(s.reader) && IsFrame(f)
    ensures var events := [Reading(f[..2]), Reading(f[2..])];
      Unbroken(s, events) && Brought(events) == Concat([f]) + []
    ensures AllFrames([f]) && Partial([]) && |f| > 2
  {
    hide State.Next, Concat;
    var (a, b) := (Reading(f[..2]), Reading(f[2..]));
    BroughtTwo(a, b);
    ConcatOneMore([], f);
    NoFrames();
    assert [] + [f] == [f] && f[..2] + f[2..] == f;
    assert BodyLength(f[..2]) == BodyLength(f);
    Passed(s, f[..2]);
    UnbrokenTwo(s, a, b);
  }

  lemma BroughtTwo(a: Event, b: Event)
    requires a.readable && b.readable
    ensures Brought([a, b]) == a.got + b.got
  {
    assert [a, b][1..] == [b] && [b][1..] == [];
    assert Brought([b]) == b.got + Brought([]);
  }

  lemma UnbrokenTwo(s: State, a: Event, b: Event)
    requires s.Valid() && s.Admits(a) && Keeps(s.reader, a) && s.Next(a).Admits(b) && Keeps(s.Next(a).reader, b)
    ensures Unbroken(s, [a, b])
  {
    hide State.Next, State.Admits, Keeps;
    assert [a, b][1..] == [b] && [b][1..] == [];
    assert Unbroken(s.Next(a).Next(b), []);
  }

  lemma Passed(s: State, header: seq<Byte>)
    requires s.Valid() && Opened(s.reader) && |header| == 2
    ensures s.Admits(Reading(header)) && Keeps(s.reader, Reading(header))
    ensures var t := s.Next(Reading(header)).reader;
      t.net.Connected? && t.tcp.WaitOnChunk? && t.rest == BodyLength(header) && t.partial == header
  {
    hide State.Next, State.Talk;
    NextIs(s, Reading(header));
    ReadOnly(s, header);
  }

  lemma TextInBuffer(zeros: seq<Byte>)
    requires zeros == Zeros(READ_SIZE)
    ensures |[71] + UNLOCK| == 15 && Unlocks(zeros, [71] + UNLOCK)
    ensures var buffer := Received(zeros, [71] + UNLOCK);
      Received(buffer, []) == buffer && Unlocks(buffer, [71]) && !Contains([71], UNLOCK)
  {
    var tail := zeros[15..];
    assert Received(zeros, [71] + UNLOCK) == [71] + UNLOCK + tail;
    LeftoverCounts(tail);
    assert Received([71] + UNLOCK + tail, [71]) == [71] + UNLOCK + tail;
  }

  // ----- from the device to the TCP socket -----

  /** The device's packets reach the sockets in order, without loss or repetition: what was
      sent is a prefix of their concatenation, and the rest is the end of the last packet. */
  lemma SentIsPrefix(link: Link)
    requires link.Inv()
    ensures forall p :: p in link.packets ==> |p| >= 2 && |p| == p[0] + 256 * p[1] + 2
    ensures 0 <= link.writeLen && link.writePos + link.writeLen <= |link.writeBuf|
    ensures link.sent <= Concat(link.packets) && Concat(link.packets)[|link.sent|..] == link.Pending()
  {
    hide StartHistory, Concat;
  }

  /** What one connection gets: the rest of the packet before it, then the packets since. */
  lemma ConnectionGetsPackets(link: Link)
    requires link.Inv() && link.net.Connected?
    ensures link.here.sent <= link.here.carried + Concat(link.here.packets)
    ensures (link.here.carried + Concat(link.here.packets))[|link.here.sent|..] == link.Pending()
  {
    hide StartHistory, Concat;
  }

  /** Between connections: the next one starts with a whole packet, or with nothing pending,
      exactly if the bytes taken so far are whole packets. */
  lemma StartsAtPacketBorder(link: Link)
    requires link.Inv()
    ensures (link.Pending() == [] || (link.packets != [] && link.Pending() == link.packets[|link.packets| - 1]))
      <==> exists i :: 0 <= i <= |link.packets| && link.sent == Concat(link.packets[..i])
  {
    hide StartHistory, Concat, Link.ReadInv, Link.StartInv, Link.DeviceInv, Link.HereInv;
    if link.packets == [] {
      assert link.packets[..0] == link.packets;
      NoPackets();
    } else {
      assert link.Pending() == [] || PendingEndsLast(link.Pending(), link.packets[|link.packets| - 1]) by {
        if link.writeLen > 0 {
          SuffixOfLast(link.writeBuf, link.writePos, link.writeLen);
        }
      }
      BorderOfPackets(link.packets, link.sent, link.Pending());
    }
  }

  predicate PendingEndsLast(pending: seq<Byte>, last: seq<Byte>) { |pending| <= |last| }

  lemma NoPackets()
    ensures Concat<Byte>([]) == []
  {}

  lemma SuffixOfLast(buf: seq<Byte>, pos: nat, len: nat)
    requires pos + len <= |buf|
    ensures PendingEndsLast(buf[pos..pos + len], buf[..pos + len])
  {}

  lemma SumParts(a: seq<Byte>, b: seq<Byte>, c: seq<Byte>, d: seq<Byte>)
    requires a + b == c + d
    ensures a == c <==> b == d
  {
    assert a == (a + b)[..|a|] && b == (a + b)[|a|..];
    assert c == (c + d)[..|c|] && d == (c + d)[|c|..];
  }

  /** What is pending when the sent bytes end at a border. */
  lemma PendingAtBorder(packets: seq<seq<Byte>>, sent: seq<Byte>, pending: seq<Byte>, i: nat)
    requires packets != [] && i <= |packets| && forall j :: 0 <= j < |packets| ==> packets[j] != []
    requires Concat(packets[..|packets| - 1]) + packets[|packets| - 1] == sent + pending
    requires |pending| <= |packets[|packets| - 1]| && sent == Concat(packets[..i])
    ensures pending == [] || pending == packets[|packets| - 1]
  {
    hide Concat;
    var n := |packets| - 1;
    SumParts(sent, pending, Concat(packets[..n]), packets[n]);
    if i > n {
      assert packets[..i] == packets[..n] + [packets[n]];
      ConcatOneMore(packets[..n], packets[n]);
    } else if i < n {
      assert packets[..n][..i] == packets[..i];
      ConcatLonger(packets[..n], i);
    }
  }

  lemma BorderOfPackets(packets: seq<seq<Byte>>, sent: seq<Byte>, pending: seq<Byte>)
    requires packets != [] && (forall i :: 0 <= i < |packets| ==> packets[i] != [])
    requires Concat(packets) == sent + pending && |pending| <= |packets[|packets| - 1]|
    ensures (pending == [] || pending == packets[|packets| - 1]) <==>
      exists i :: 0 <= i <= |packets| && sent == Concat(packets[..i])
  {
    hide Concat;
    var n := |packets| - 1;
    assert packets[..n] + [packets[n]] == packets == packets[..n + 1];
    ConcatOneMore(packets[..n], packets[n]);
    if pending == [] {
      assert sent == Concat(packets[..n + 1]);
    } else if pending == packets[n] {
      SumParts(sent, pending, Concat(packets[..n]), packets[n]);
    } else {
      forall i | 0 <= i <= |packets|
        ensures sent != Concat(packets[..i])
      {
        if sent == Concat(packets[..i]) {
          PendingAtBorder(packets, sent, pending, i);
          assert false;
        }
      }
    }
  }

  lemma {:induction false} ConcatLonger(packets: seq<seq<Byte>>, i: nat)
    requires i <= |packets| && forall j :: 0 <= j < |packets| ==> packets[j] != []
    ensures |Concat(packets[..i])| + |packets| - i <= |Concat(packets)|
  {
    var n := |packets| - 1;
    if i == |packets| {
      assert packets[..i] == packets;
    } else {
      assert packets[..n][..i] == packets[..i];
      ConcatLonger(packets[..n], i);
    }
  }
}
