/** The bridge of src/bridge.c as a state machine: what one pass of bridge_mode's loop makes of
    its state, and what a run makes of it. */
module BridgeMachine {
  import opened Bytes
  import opened Frames
  import opened Sequences
  import opened Unlock

  // size of ReadBuf behind the leading report byte, and of WriteBuf
  const READ_SIZE := 65539
  const WRITE_SIZE := 65540

  // bytes asked of the socket before the unlock
  const START_SIZE := 100

  datatype NetState = NotConnected | Connected | Closed

  datatype TcpState = Idle | WaitOnStart | WaitOnLength | WaitOnChunk

  /** What one pass of the main loop meets outside: reads and writes may be partial. */
  datatype Event = Event(
    beaconFails: bool, accepted: bool,  // while waiting for a connection
    packet: seq<Byte>,                  // from the device, [] for none
    readable: bool, got: seq<Byte>,     // the TCP read
    deviceWrite: nat -> int,            // what ev3_write returns for a report of n bytes
    writable: bool, written: nat)       // the TCP write

  /** A device packet carries its own length. */
  predicate IsDevicePacket(packet: seq<Byte>) {
    packet != [] ==> 2 <= |packet| <= WRITE_SIZE && BodyLength(packet) + 2 <= |packet|
  }

  /** The bytes a read leaves in the buffer. */
  function Stored(old_: seq<Byte>, at: nat, got: seq<Byte>): (r: seq<Byte>)
    requires at + |got| <= |old_|
    ensures |r| == |old_|
  {
    old_[..at] + got + old_[at + |got|..]
  }

  /** How many bytes of the pending ones the socket takes in a pass. */
  function Taken(e: Event, pending: int): nat {
    if e.writable && e.written <= pending then e.written else 0
  }

  // ----- what is remembered -----

  /** What goes out on one connection: the rest of a packet that the connection before did not
      take, the packets fetched since, and the bytes sent. */
  datatype Outgoing = Outgoing(carried: seq<Byte>, packets: seq<seq<Byte>>, sent: seq<Byte>)

  /** What one connection brought: its frame bytes, and the byte of a header that a read cut
      off after the first byte. */
  datatype Visit = Visit(received: seq<Byte>, stray: seq<Byte>)

  /** The earlier connections, the stray byte of the current one, and all device writes. */
  datatype DeviceLog = DeviceLog(visits: seq<Visit>, stray: seq<Byte>, writes: seq<seq<Byte>>)

  function NextLog(log: DeviceLog, received: seq<Byte>): DeviceLog {
    DeviceLog(log.visits + [Visit(received, log.stray)], [], log.writes)
  }

  // ----- the reading side -----

  /** The connection, what its reads wait for, and, while a frame is read, the bytes that are
      there and how many are missing. The buffer outlives connections; the record of a
      connection is kept until the next one. */
  datatype Reader = Reader(
    net: NetState, tcp: TcpState, partial: seq<Byte>, rest: nat, buffer: seq<Byte>,
    starts: seq<StartRead>, atAccept: seq<Byte>, received: seq<Byte>, forwarded: seq<seq<Byte>>, device: DeviceLog)
  {
    predicate Valid() {
      && |buffer| == READ_SIZE
      && if tcp.WaitOnChunk? then |partial| + rest <= READ_SIZE else partial == []
    }

    function Requested(): nat {
      match tcp
      case Idle => 0
      case WaitOnStart => START_SIZE
      case WaitOnLength => 2
      case WaitOnChunk => rest
    }

    function Accepted(): Reader {
      this.(net := Connected, tcp := WaitOnStart, partial := [], starts := [], atAccept := buffer,
        received := [], forwarded := [], device := NextLog(device, received))
    }

    function Disconnected(): Reader { this.(net := NotConnected, tcp := Idle, partial := [], rest := 0) }

    function Writing(bytes: seq<Byte>): DeviceLog { device.(writes := device.writes + [bytes]) }

    /** One read, and the device write that may follow. */
    ghost function Read(got: seq<Byte>, deviceWrite: nat -> int): (r: Reader)
      requires Valid() && |got| <= Requested()
      ensures r.Valid()
    {
      var r := this.(buffer := Stored(buffer, |partial|, got));
      match tcp
      case Idle => r
      case WaitOnStart =>
        var s := r.(starts := starts + [StartRead(buffer, got)]);
        if got == [] then s.Disconnected() else if Unlocks(buffer, got) then s.(tcp := WaitOnLength) else s
      case WaitOnLength =>
        if |got| == 2 then r.(tcp := WaitOnChunk, partial := got, rest := BodyLength(got), received := received + got)
        else if |got| == 1 then r.(device := Writing(got).(stray := got)).Disconnected()
        else r.Disconnected()
      case WaitOnChunk =>
        var s := r.(received := received + got);
        if got == [] then s.Disconnected()
        else if |got| < rest then s.(partial := partial + got, rest := rest - |got|)
        else
          var f := partial + got;
          var t := s.(tcp := WaitOnLength, partial := [], rest := 0, forwarded := forwarded + [f],
            device := Writing(f));
          if deviceWrite(|f| + 1) >= |f| + 1 then t else t.Disconnected()
    }
  }

  /** What was received is the forwarded frames and the start of the next one. */
  ghost predicate InFrames(r: Reader) {
    if r.net.Connected? then
      !r.tcp.Idle? && (if r.tcp.WaitOnStart? then r.received == [] && r.forwarded == [] && r.partial == []
        else r.received == Concat(r.forwarded) + r.partial)
    else r.partial == []
  }

  lemma ReadKeepsFrames(r: Reader, got: seq<Byte>, deviceWrite: nat -> int)
    requires r.Valid() && |got| <= r.Requested() && r.net.Connected? && InFrames(r)
    ensures InFrames(r.Read(got, deviceWrite))
  {
    hide Concat, Unlocks, Stored;
    var s := r.Read(got, deviceWrite);
    if r.tcp.WaitOnLength? {
      assert Concat(r.forwarded) + [] == Concat(r.forwarded);
    } else if r.tcp.WaitOnChunk? {
      var f := r.partial + got;
      Regroup(Concat(r.forwarded), r.partial, got);
      assert s.received == Concat(r.forwarded) + f;
      if got != [] && |got| == r.rest {
        ConcatOneMore(r.forwarded, f);
        assert s.forwarded == r.forwarded + [f] && Concat(s.forwarded) + [] == Concat(s.forwarded);
      }
    } else {
      NoFrames();
    }
  }

  lemma NoFrames()
    ensures Concat<Byte>([]) + [] == []
  {}

  // ----- the writing side -----

  /** The bytes of the last packet that are still to be sent, all packets and all sent bytes. */
  datatype Writer = Writer(pending: seq<Byte>, packets: seq<seq<Byte>>, sent: seq<Byte>, here: Outgoing) {
    function Carry(): Writer { this.(here := Outgoing(pending, [], [])) }

    function Fetch(packet: seq<Byte>): Writer
      requires IsDevicePacket(packet)
    {
      if pending != [] || packet == [] then this
      else
        var p := packet[..BodyLength(packet) + 2];
        Writer(p, packets + [p], sent, here.(packets := here.packets + [p]))
    }

    function Send(n: nat): Writer
      requires n <= |pending|
    {
      Writer(pending[n..], packets, sent + pending[..n], here.(sent := here.sent + pending[..n]))
    }
  }

  lemma SendNothing(w: Writer)
    ensures w.Send(0) == w
  {
    assert w.sent + w.pending[..0] == w.sent && w.here.sent + w.pending[..0] == w.here.sent;
  }

  // ----- passes and runs -----

  datatype State = State(reader: Reader, writer: Writer) {
    predicate Valid() { reader.Valid() }

    /** What the environment may do. */
    predicate Admits(e: Event) {
      IsDevicePacket(e.packet) && (reader.net.Connected? && e.readable ==> |e.got| <= reader.Requested())
    }

    /** One pass while there is a connection. */
    ghost function Talk(e: Event): (s: State)
      requires Valid() && reader.net.Connected? && Admits(e)
      ensures s.Valid()
    {
      var w := writer.Fetch(e.packet);
      var r := if e.readable then reader.Read(e.got, e.deviceWrite) else reader;
      State(r, if r.net.Connected? then w.Send(Taken(e, |w.pending|)) else w)
    }

    ghost function Next(e: Event): (s: State)
      requires Valid()
      ensures s.Valid()
    {
      if !Admits(e) then this
      else
        match reader.net
        case NotConnected =>
          if e.accepted then State(reader.Accepted(), writer.Carry())
          else if e.beaconFails then this.(reader := reader.(net := Closed))
          else this
        case Connected => Talk(e)
        case Closed => this
    }

    ghost function After(events: seq<Event>): (s: State)
      requires Valid()
      ensures s.Valid()
      decreases |events|
    {
      if events == [] then this else Next(events[0]).After(events[1..])
    }
  }

  /** What a pass does, without the cases in which it does something else. */
  lemma NextIs(s: State, e: Event)
    requires s.Valid()
    ensures !s.Admits(e) ==> s.Next(e) == s
    ensures s.Admits(e) && s.reader.net.Connected? ==> s.Next(e) == s.Talk(e)
    ensures s.Admits(e) && s.reader.net.NotConnected? ==>
      s.Next(e) == if e.accepted then State(s.reader.Accepted(), s.writer.Carry())
        else if e.beaconFails then s.(reader := s.reader.(net := Closed)) else s
  {
    hide State.Talk;
  }

  lemma {:induction false} AfterBoth(s: State, first: seq<Event>, second: seq<Event>)
    requires s.Valid()
    ensures s.After(first + second) == s.After(first).After(second)
    decreases |first|
  {
    hide State.Next;
    if first == [] {
      assert first + second == second;
    } else {
      assert (first + second)[1..] == first[1..] + second;
      AfterBoth(s.Next(first[0]), first[1..], second);
    }
  }

  lemma AfterTwo(s: State, first: Event, second: Event)
    requires s.Valid()
    ensures s.After([first]) == s.Next(first) && s.After([first, second]) == s.Next(first).Next(second)
  {
    hide State.Next;
    assert [first, second][1..] == [second] && [first][1..] == [] && [second][1..] == [];
    assert s.Next(first).After([second]) == s.Next(first).Next(second).After([]);
  }

  lemma {:induction false} AfterClosed(s: State, events: seq<Event>)
    requires s.Valid() && s.reader.net.Closed?
    ensures s.After(events) == s
    decreases |events|
  {
    if events != [] {
      assert s.Next(events[0]) == s;
      AfterClosed(s, events[1..]);
    }
  }

  // ----- runs that keep the connection -----

  /** What the reads of a run bring. */
  function Brought(events: seq<Event>): seq<Byte>
    decreases |events|
  {
    if events == [] then [] else (if events[0].readable then events[0].got else []) + Brought(events[1..])
  }

  /** After the unlock: the read brings something, the two header bytes together, and the device
      write, if a frame is complete, counts the report byte and all others. */
  predicate Keeps(r: Reader, e: Event)
    requires r.Valid()
  {
    e.readable ==>
      && 0 < |e.got| <= r.Requested() && (r.tcp.WaitOnLength? ==> |e.got| == 2)
      && (r.tcp.WaitOnChunk? && |e.got| == r.rest ==>
            var n := |r.partial| + r.rest + 1; e.deviceWrite(n) >= n)
  }

  /** This holds of every pass of a run. */
  ghost predicate Unbroken(s: State, events: seq<Event>)
    requires s.Valid()
    decreases |events|
  {
    events == [] ||
    (s.Admits(events[0]) && Keeps(s.reader, events[0]) && Unbroken(s.Next(events[0]), events[1..]))
  }

  predicate Unlocked(r: Reader) { r.net.Connected? && (r.tcp.WaitOnLength? || r.tcp.WaitOnChunk?) }

  /** Later on the same connection, unlocked, with these bytes received in between. */
  predicate Later(r: Reader, t: Reader, more: seq<Byte>) {
    && Unlocked(t) && t.received == r.received + more && t.starts == r.starts && t.atAccept == r.atAccept
    && t.device.visits == r.device.visits && t.device.stray == r.device.stray
  }

  lemma LaterStill(r: Reader, s: Reader, t: Reader, first: seq<Byte>, more: seq<Byte>)
    requires Later(r, s, first) && Later(s, t, more)
    ensures Later(r, t, first + more)
  {}

  lemma KeptPass(s: State, e: Event)
    requires s.Valid() && Unlocked(s.reader) && s.Admits(e) && Keeps(s.reader, e)
    ensures Later(s.reader, s.Next(e).reader, if e.readable then e.got else [])
  {}

  /** Such a run keeps the connection and receives everything its reads bring. */
  lemma {:induction false} UnbrokenReceives(s: State, events: seq<Event>)
    requires s.Valid() && Unlocked(s.reader) && Unbroken(s, events)
    ensures Later(s.reader, s.After(events).reader, Brought(events))
    decreases |events|
  {
    if events != [] {
      hide State.Next, State.Admits, Later, Keeps, State.Valid;
      var e := events[0];
      KeptPass(s, e);
      StillUnlocked(s.reader, s.Next(e).reader, if e.readable then e.got else []);
      UnbrokenReceives(s.Next(e), events[1..]);
      LaterStill(s.reader, s.Next(e).reader, s.After(events).reader, if e.readable then e.got else [],
        Brought(events[1..]));
    }
  }

  lemma StillUnlocked(r: Reader, t: Reader, more: seq<Byte>)
    requires Later(r, t, more)
    ensures Unlocked(t)
  {}

  lemma SentGrows(s: State, e: Event)
    requires s.Valid()
    ensures s.writer.sent <= s.Next(e).writer.sent
  {
    hide Reader.Read;
  }

  /** Nothing that was sent is taken back. */
  lemma {:induction false} RunSentGrows(s: State, events: seq<Event>)
    requires s.Valid()
    ensures s.writer.sent <= s.After(events).writer.sent
    decreases |events|
  {
    if events != [] {
      hide State.Next, State.Valid;
      SentGrows(s, events[0]);
      RunSentGrows(s.Next(events[0]), events[1..]);
    }
  }

  // ----- packets of a run -----

  /** A whole packet is fetched, and the socket takes all of it. */
  predicate Takes(e: Event) {
    && 2 <= |e.packet| <= WRITE_SIZE && |e.packet| == BodyLength(e.packet) + 2
    && e.writable && e.written == |e.packet|
  }

  function Packets(events: seq<Event>): (packets: seq<seq<Byte>>)
    ensures |packets| == |events|
  {
    seq(|events|, i requires 0 <= i < |events| => events[i].packet)
  }

  lemma TakenPass(s: State, e: Event)
    requires s.Valid() && Unlocked(s.reader) && s.Admits(e) && Keeps(s.reader, e) && Takes(e) && s.writer.pending == []
    ensures var w := s.Next(e).writer;
      w.pending == [] && w.packets == s.writer.packets + [e.packet] && w.sent == s.writer.sent + e.packet
  {
    hide Reader.Read, Later;
    KeptPass(s, e);
    StillUnlocked(s.reader, s.Next(e).reader, if e.readable then e.got else []);
    assert e.packet[..|e.packet|] == e.packet && e.packet[|e.packet|..] == [];
  }

  /** While frames come in, every packet goes out, in order and in full. */
  lemma {:induction false} UnbrokenSends(s: State, events: seq<Event>)
    requires s.Valid() && Unlocked(s.reader) && Unbroken(s, events) && s.writer.pending == []
    requires forall e :: e in events ==> Takes(e)
    ensures var w := s.After(events).writer;
      && w.pending == [] && w.packets == s.writer.packets + Packets(events)
      && w.sent == s.writer.sent + Concat(Packets(events))
    decreases |events|
  {
    hide State.Next, State.Admits, Later, Keeps, State.Valid, Concat, Takes;
    if events == [] {
      NoFrames();
      assert Packets(events) == [];
    } else {
      var e := events[0];
      TakenPass(s, e);
      KeptPass(s, e);
      StillUnlocked(s.reader, s.Next(e).reader, if e.readable then e.got else []);
      UnbrokenSends(s.Next(e), events[1..]);
      assert Packets(events)[0] == e.packet && Packets(events)[1..] == Packets(events[1..]);
      assert Packets(events) == [e.packet] + Packets(events[1..]);
      ConcatFirst(Packets(events));
    }
  }
}
