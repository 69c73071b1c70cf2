/** The bridge of src/bridge.c: cNetReadTcp reassembles length-prefixed frames from the TCP
    stream for the device, bridge_mode drains device packets into the TCP connection. Every run
    of its loop follows the state machine of BridgeMachine. */
module Bridge {
  import opened BridgeMachine
  import opened Bytes
  import opened Frames
  import opened Sequences
  import opened Unlock

  /** Reads before the unlock: each in the buffer the one before left; the link is unlocked
      exactly if the last of them satisfied the check, and no earlier one did. */
  ghost predicate StartHistory(starts: seq<StartRead>, first: seq<Byte>, unlocked: bool) {
    && Chained(starts, first)
    && (forall i :: 0 <= i < |starts| ==> |starts[i].got| <= START_SIZE && |starts[i].before| == READ_SIZE)
    && (forall i :: 0 <= i < |starts| - 1 ==> !starts[i].Unlocking())
    && (if starts == [] then !unlocked else unlocked == starts[|starts| - 1].Unlocking())
  }

  lemma NoStarts(first: seq<Byte>)
    ensures StartHistory([], first, false)
  {}

  lemma OneMoreStart(starts: seq<StartRead>, first: seq<Byte>, now: seq<Byte>, got: seq<Byte>)
    requires StartHistory(starts, first, false) && now == AfterReads(starts, first)
    requires |now| == READ_SIZE && |got| <= START_SIZE
    ensures StartHistory(starts + [StartRead(now, got)], first, Unlocks(now, got))
    ensures AfterReads(starts + [StartRead(now, got)], first) == Received(now, got)
  {
    hide Unlocks, Received;
    var more := starts + [StartRead(now, got)];
    assert more[..|starts|] == starts && more[|more| - 1] == StartRead(now, got);
  }

  /** What a connection makes the bridge write to the device. */
  function Handed(v: Visit): seq<seq<Byte>> {
    Parse(v.received).0 + if v.stray == [] then [] else [v.stray]
  }

  function AllHanded(visits: seq<Visit>): seq<seq<Byte>> {
    if visits == [] then [] else AllHanded(visits[..|visits| - 1]) + Handed(visits[|visits| - 1])
  }

  /** Everything written to the device, over all connections. */
  ghost predicate DeviceHistory(log: DeviceLog, received: seq<Byte>, forwarded: seq<seq<Byte>>) {
    && |log.stray| <= 1 && (forall v :: v in log.visits ==> |v.stray| <= 1)
    && Parse(received).0 == forwarded
    && log.writes == AllHanded(log.visits) + Handed(Visit(received, log.stray))
  }

  lemma MoreReceived(log: DeviceLog, received: seq<Byte>, forwarded: seq<seq<Byte>>, more: seq<Byte>, rest: seq<Byte>)
    requires DeviceHistory(log, received, forwarded) && AllFrames(forwarded)
    requires more == Concat(forwarded) + rest && Partial(rest)
    ensures DeviceHistory(log, more, forwarded)
  {
    ParseConcat(forwarded, rest);
  }

  lemma FrameWritten(log: DeviceLog, received: seq<Byte>, forwarded: seq<seq<Byte>>, more: seq<Byte>, f: seq<Byte>)
    requires DeviceHistory(log, received, forwarded) && log.stray == []
    requires AllFrames(forwarded) && IsFrame(f) && more == Concat(forwarded) + f
    ensures DeviceHistory(log.(writes := log.writes + [f]), more, forwarded + [f])
  {
    hide Concat, Parse;
    ConcatOneMore(forwarded, f);
    assert more == Concat(forwarded + [f]) + [];
    ParseConcat(forwarded + [f], []);
  }

  lemma StrayWritten(log: DeviceLog, received: seq<Byte>, forwarded: seq<seq<Byte>>, stray: seq<Byte>)
    requires DeviceHistory(log, received, forwarded) && log.stray == [] && |stray| == 1
    ensures DeviceHistory(log.(stray := stray, writes := log.writes + [stray]), received, forwarded)
  {
    hide Parse;
  }

  lemma NextVisit(log: DeviceLog, received: seq<Byte>, forwarded: seq<seq<Byte>>)
    requires DeviceHistory(log, received, forwarded)
    ensures DeviceHistory(NextLog(log, received), [], [])
  {
    var next := NextLog(log, received);
    assert next.visits[..|next.visits| - 1] == log.visits;
  }

  class Link {
    var net: NetState
    var tcpRead: TcpState
    var readBufPointer: nat
    var totalLength: nat
    var restLen: nat
    const buffer: array<Byte>
    var writeBuf: seq<Byte>
    var writeLen: int
    var writePos: nat

    // history of the current connection before the unlock: the reads so far, and the buffer
    // when the connection came and after the last of these reads
    ghost var starts: seq<StartRead>
    ghost var atAccept: seq<Byte>
    // after the unlock: frame bytes received, frames given to the device
    ghost var received: seq<Byte>
    ghost var forwarded: seq<seq<Byte>>
    // all connections: what was written to the device
    ghost var device: DeviceLog
    // history of all connections: device packets, bytes the TCP socket took
    ghost var packets: seq<seq<Byte>>
    ghost var sent: seq<Byte>
    // the same for the current connection
    ghost var here: Outgoing

    constructor ()
      ensures Inv() && fresh(buffer) && net == NotConnected
      ensures packets == [] && sent == [] && device == DeviceLog([], [], [])
      ensures buffer[..] == Zeros(READ_SIZE)
    {
      buffer := new Byte[READ_SIZE](_ => 0);
      net, tcpRead := NotConnected, Idle;
      readBufPointer, totalLength, restLen := 0, 0, 0;
      writeBuf, writeLen, writePos := [], 0, 0;
      starts, atAccept := [], [];
      received, forwarded, packets, sent := [], [], [], [];
      device := DeviceLog([], [], []);
      here := Outgoing([], [], []);
    }

    // ----- invariants -----

    /** The part of the buffer that belongs to the frame being read. */
    function PartialFrame(): seq<Byte>
      reads this`tcpRead, this`readBufPointer, buffer
      requires readBufPointer <= buffer.Length
    {
      if tcpRead.WaitOnChunk? then buffer[..readBufPointer] else []
    }

    /** Reading: what was received is the forwarded frames and the start of the next one. */
    ghost predicate ReadInv()
      reads this`net, this`tcpRead, this`readBufPointer, this`totalLength, this`restLen
      reads this`received, this`forwarded, buffer
    {
      && buffer.Length == READ_SIZE && readBufPointer <= READ_SIZE
      && AllFrames(forwarded)
      && (net.Connected? && (tcpRead.WaitOnLength? || tcpRead.WaitOnChunk?) ==>
            received == Concat(forwarded) + PartialFrame())
      && (net.Connected? && tcpRead.WaitOnStart? ==> received == [] && forwarded == [])
      && (net.Connected? && tcpRead.WaitOnChunk? ==>
            && readBufPointer >= 2 && readBufPointer + restLen == totalLength == BodyLength(buffer[..2]) + 2
            && (restLen == 0 ==> totalLength == 2))
      && (net.Connected? ==> !tcpRead.Idle?)
    }

    /** Unlocking: the state leaves WaitOnStart by a read that satisfied the check. */
    ghost predicate StartInv()
      reads this`net, this`tcpRead, this`starts, this`atAccept, buffer
    {
      net.Connected? ==>
        && buffer.Length == READ_SIZE && |atAccept| == READ_SIZE
        && StartHistory(starts, atAccept, !tcpRead.WaitOnStart?)
        && (tcpRead.WaitOnStart? ==> buffer[..] == AfterReads(starts, atAccept))
    }

    /** The device bytes not sent yet. */
    ghost function Pending(): seq<Byte>
      reads this`writeBuf, this`writeLen, this`writePos
      requires 0 <= writeLen && writePos + writeLen <= |writeBuf|
    {
      writeBuf[writePos..writePos + writeLen]
    }

    /** Writing: device bytes are the bytes sent and those pending, the end of the last packet. */
    ghost predicate WriteInv()
      reads this`writeBuf, this`writeLen, this`writePos, this`packets, this`sent
    {
      && 0 <= writeLen && writePos + writeLen <= |writeBuf| <= WRITE_SIZE
      && Concat(packets) == sent + Pending()
      && (writeLen > 0 ==> packets != [] && writeBuf[..writePos + writeLen] == packets[|packets| - 1])
      && AllPackets(packets)
    }

    static ghost predicate AllPackets(packets: seq<seq<Byte>>) {
      forall i :: 0 <= i < |packets| ==> IsPacket(packets[i])
    }

    /** A packet of the device, cut to the length it carries. */
    static predicate IsPacket(packet: seq<Byte>) { |packet| >= 2 && |packet| == BodyLength(packet) + 2 }

    /** The same for the current connection. */
    ghost predicate HereInv()
      reads this`net, this`writeBuf, this`writeLen, this`writePos
      reads this`here
      requires 0 <= writeLen && writePos + writeLen <= |writeBuf|
    {
      net.Connected? ==> here.carried + Concat(here.packets) == here.sent + Pending()
    }

    /** The device got what all connections up to now account for. */
    ghost predicate DeviceInv()
      reads this`net, this`received, this`forwarded, this`device
    {
      DeviceHistory(device, received, forwarded) && (net.Connected? ==> device.stray == [])
    }

    ghost predicate Inv()
      reads this, buffer
    {
      ReadInv() && StartInv() && DeviceInv() && WriteInv() && HereInv()
    }

    // ----- the read side -----

    /** Bytes asked of the socket in each state. */
    function Requested(): nat
      reads this`tcpRead, this`restLen
    {
      match tcpRead
      case Idle => 0
      case WaitOnStart => START_SIZE
      case WaitOnLength => 2
      case WaitOnChunk => restLen
    }

    /** The received bytes belong to frames: they are neither the unlock text nor a cut-off header. */
    ghost predicate Counts(got: seq<Byte>)
      reads this`tcpRead
    {
      tcpRead.WaitOnChunk? || (tcpRead.WaitOnLength? && |got| == 2)
    }

    /** The connection survives the read. */
    ghost predicate Keeps(got: seq<Byte>)
      reads this`tcpRead
    {
      tcpRead.Idle? || (if tcpRead.WaitOnLength? then |got| == 2 else got != [])
    }

    /** The read completes a frame. */
    predicate Finishes(got: seq<Byte>)
      reads this`tcpRead, this`restLen
    {
      tcpRead.WaitOnChunk? && got != [] && |got| == restLen
    }

    /** The read cuts a header off after its first byte. */
    predicate CutsHeader(got: seq<Byte>)
      reads this`tcpRead
    {
      tcpRead.WaitOnLength? && |got| == 1
    }

    /** Where a read puts its bytes. */
    ghost function Place(): nat
      reads this`tcpRead, this`readBufPointer
    {
      if tcpRead.WaitOnChunk? then readBufPointer else 0
    }

    /** How a read moves the state machine, as long as the connection survives. */
    twostate predicate ReadMoves(got: seq<Byte>)
      requires old(Place()) + |got| <= buffer.Length
      reads this`tcpRead, this`restLen, this`received, buffer
    {
      && buffer[..] == Stored(old(buffer[..]), old(Place()), got)
      && received == (if old(Counts(got)) then old(received) + got else old(received))
      && (old(Keeps(got)) ==>
            match old(tcpRead)
            case Idle => tcpRead.Idle?
            case WaitOnStart => tcpRead == if Unlocks(old(buffer[..]), got) then WaitOnLength else WaitOnStart
            case WaitOnLength => tcpRead.WaitOnChunk? && restLen == BodyLength(got)
            case WaitOnChunk =>
              if old(Finishes(got)) then tcpRead.WaitOnLength?
              else tcpRead.WaitOnChunk? && restLen == old(restLen) - |got|)
    }

    /** A read in WaitOnStart is recorded; the record does not change otherwise. */
    twostate predicate StartRecorded(got: seq<Byte>)
      reads this`starts, this`atAccept
    {
      && atAccept == old(atAccept)
      && starts == old(starts) + (if old(tcpRead.WaitOnStart?) then [StartRead(old(buffer[..]), got)] else [])
    }

    method cNetTcpClose()
      modifies this`net
      ensures net == NotConnected
    {
      net := NotConnected;
    }

    /** read(2) into the buffer. */
    method Fill(at: nat, got: seq<Byte>)
      requires at + |got| <= buffer.Length
      modifies buffer
      ensures buffer[..] == Stored(old(buffer[..]), at, got)
    {
      forall i | 0 <= i < |got| {
        buffer[at + i] := got[i];
      }
    }

    /** One call of cNetReadTcp: the result is the length of a completed frame, 1 for a cut-off
        header, or 0. */
    method cNetReadTcp(got: seq<Byte>) returns (dataRead: nat)
      requires ReadInv() && StartInv() && net.Connected? && |got| <= Requested()
      modifies this`net, this`tcpRead, this`readBufPointer, this`totalLength, this`restLen, this`received, buffer
      modifies this`starts
      ensures if old(Finishes(got)) then Completed(dataRead) else ReadInv() && !net.Closed?
      ensures StartInv() && StartRecorded(got)
      ensures ReadMoves(got) && (net.Connected? <==> old(Keeps(got)))
      ensures dataRead <= buffer.Length
      ensures if old(Finishes(got)) then dataRead > 0 && buffer[..dataRead] == old(PartialFrame()) + got
        else if old(CutsHeader(got)) then dataRead == 1 && buffer[..1] == got
        else dataRead == 0
    {
      hide Unlocks, StartHistory, Stored, AfterReads;
      dataRead := 0;
      match tcpRead {
        case Idle =>
        case WaitOnStart => ReadStart(got);
        case WaitOnLength => dataRead := ReadHeader(got);
        case WaitOnChunk => dataRead := ReadBody(got);
      }
    }

    /** Waiting for the unlock text: the check looks at the whole C string in the buffer. */
    method ReadStart(got: seq<Byte>)
      requires ReadInv() && StartInv() && net.Connected? && tcpRead.WaitOnStart? && |got| <= START_SIZE
      modifies this`net, this`tcpRead, this`starts, buffer
      ensures ReadInv() && StartInv() && StartRecorded(got) && !net.Closed?
      ensures buffer[..] == Stored(old(buffer[..]), 0, got)
      ensures net.Connected? <==> got != []
      ensures net.Connected? ==> tcpRead == if Unlocks(old(buffer[..]), got) then WaitOnLength else WaitOnStart
    {
      hide ReadInv, StartInv, StartHistory, Unlocks, AfterReads, Received, Stored, CString, Contains;
      BeforeUnlock();
      ghost var before := buffer[..];
      Fill(0, got);
      StoredInFront(before, got);
      OneMoreStart(starts, atAccept, before, got);
      starts := starts + [StartRead(before, got)];
      if |got| == 0 {
        cNetTcpClose();
        WithoutConnection();
        return;
      }
      var found := StrStr(CString(buffer[..]), UNLOCK);
      Checked(before, got, found);
      if found {
        tcpRead := WaitOnLength;
      }
      NoFrameYet();
    }

    static lemma StoredInFront(before: seq<Byte>, got: seq<Byte>)
      requires |got| <= |before|
      ensures Stored(before, 0, got) == Received(before, got)
    {}

    lemma BeforeUnlock()
      requires ReadInv() && StartInv() && net.Connected? && tcpRead.WaitOnStart?
      ensures buffer.Length == READ_SIZE == |atAccept| && readBufPointer <= READ_SIZE
      ensures received == [] && forwarded == []
      ensures StartHistory(starts, atAccept, false) && buffer[..] == AfterReads(starts, atAccept)
    {}

    lemma WithoutConnection()
      requires !net.Connected? && buffer.Length == READ_SIZE && readBufPointer <= READ_SIZE && AllFrames(forwarded)
      ensures ReadInv() && StartInv()
    {}

    /** No frame byte has come yet, and the record says whether the link is unlocked. */
    lemma NoFrameYet()
      requires net.Connected? && (tcpRead.WaitOnStart? || tcpRead.WaitOnLength?) && received == [] && forwarded == []
      requires buffer.Length == READ_SIZE == |atAccept| && readBufPointer <= READ_SIZE
      requires StartHistory(starts, atAccept, !tcpRead.WaitOnStart?) && buffer[..] == AfterReads(starts, atAccept)
      ensures ReadInv() && StartInv()
    {
      hide StartHistory;
    }

    static lemma Checked(before: seq<Byte>, got: seq<Byte>, found: bool)
      requires |got| <= |before| && (found <==> Contains(CString(Received(before, got)), UNLOCK))
      ensures found <==> Unlocks(before, got)
    {}

    /** The two header bytes, read together: one byte alone closes the connection, but is still
        returned as the number of bytes for the device. */
    method ReadHeader(got: seq<Byte>) returns (dataRead: nat)
      requires ReadInv() && net.Connected? && tcpRead.WaitOnLength? && |got| <= 2
      modifies this`net, this`tcpRead, this`readBufPointer, this`totalLength, this`restLen, this`received, buffer
      ensures ReadInv() && !net.Closed?
      ensures buffer[..] == Stored(old(buffer[..]), 0, got)
      ensures net.Connected? <==> |got| == 2
      ensures received == if |got| == 2 then old(received) + got else old(received)
      ensures if |got| == 2 then tcpRead.WaitOnChunk? && restLen == BodyLength(got) else tcpRead == old(tcpRead)
      ensures dataRead == (if |got| == 1 then 1 else 0) && buffer[..dataRead] == got[..dataRead]
    {
      hide Stored, Concat;
      dataRead := |got|;
      assert READ_SIZE >= 2;  // "Buffer too small"
      readBufPointer := 0;
      ghost var before := buffer[..];
      Fill(0, got);
      HeaderStored(before, buffer[..], got);
      if |got| < 2 {
        cNetTcpClose();
        return;
      }
      dataRead := 0;
      restLen := buffer[0] as int + buffer[1] as int * 256;
      totalLength := restLen + 2;
      tcpRead := WaitOnChunk;
      readBufPointer := readBufPointer + |got|;
      received := received + got;
      assert buffer[..2] == got;
    }

    static lemma HeaderStored(before: seq<Byte>, after: seq<Byte>, got: seq<Byte>)
      requires |got| <= 2 <= |before| && after == Stored(before, 0, got)
      ensures |after| == |before| && after[..|got|] == got
      ensures |got| == 2 ==> BodyLength(got) == after[0] as int + after[1] as int * 256
    {}

    /** A whole frame is at the start of the buffer, not yet counted as forwarded. */
    ghost predicate Completed(n: nat)
      reads this`net, this`tcpRead, this`readBufPointer, this`received, this`forwarded, buffer
    {
      && buffer.Length == READ_SIZE && n <= READ_SIZE && readBufPointer <= READ_SIZE
      && IsFrame(buffer[..n]) && AllFrames(forwarded)
      && net.Connected? && tcpRead.WaitOnLength?
      && received == Concat(forwarded) + buffer[..n]
    }

    /** Any part of the rest of a frame. */
    method ReadBody(got: seq<Byte>) returns (dataRead: nat)
      requires ReadInv() && net.Connected? && tcpRead.WaitOnChunk? && |got| <= restLen
      modifies this`net, this`tcpRead, this`readBufPointer, this`restLen, this`received, buffer
      ensures if dataRead == 0 then ReadInv() && !net.Closed? else Completed(dataRead)
      ensures buffer[..] == Stored(old(buffer[..]), old(readBufPointer), got)
      ensures received == old(received) + got
      ensures net.Connected? <==> got != []
      ensures dataRead > 0 <==> old(Finishes(got))
      ensures dataRead > 0 ==> tcpRead.WaitOnLength? && buffer[..dataRead] == old(PartialFrame()) + got
      ensures dataRead == 0 ==> tcpRead.WaitOnChunk? && restLen == old(restLen) - |got|
    {
      assert READ_SIZE >= totalLength;  // "Buffer too small!"
      ghost var before := buffer[..];
      var at := readBufPointer;
      assert before[..2] == buffer[..2] && before[..at] == buffer[..at];
      Fill(at, got);
      BufferGrows(before, buffer[..], at, got);
      received := received + got;
      if |got| == 0 {
        cNetTcpClose();
        return 0;
      }
      FrameGrows(forwarded, old(received), before, buffer[..], at, got);
      readBufPointer := at + |got|;
      assert buffer[..2] == buffer[..][..2] && buffer[..readBufPointer] == buffer[..][..readBufPointer];
      if restLen == |got| {
        dataRead := totalLength;
        tcpRead := WaitOnLength;
      } else {
        restLen := restLen - |got|;
        dataRead := 0;
      }
    }

    static lemma BufferGrows(before: seq<Byte>, after: seq<Byte>, at: nat, got: seq<Byte>)
      requires 2 <= at && at + |got| <= |before| && after == before[..at] + got + before[at + |got|..]
      ensures |after| == |before| && after[..at + |got|] == before[..at] + got && after[..2] == before[..2]
    {}

    static lemma FrameGrows(frames: seq<seq<Byte>>, received: seq<Byte>, before: seq<Byte>, after: seq<Byte>,
                            at: nat, got: seq<Byte>)
      requires at + |got| <= |before| == |after| && after[..at + |got|] == before[..at] + got
      requires received == Concat(frames) + before[..at]
      ensures received + got == Concat(frames) + after[..at + |got|]
    {
      hide Concat;
      assert (Concat(frames) + before[..at]) + got == Concat(frames) + (before[..at] + got);
    }

    // ----- the main loop -----

    /** What the environment may do. */
    predicate Possible(e: Event)
      reads this`net, this`tcpRead, this`restLen
    {
      IsDevicePacket(e.packet) && (net.Connected? && e.readable ==> |e.got| <= Requested())
    }

    /** Waiting for a connection. A new one starts before the unlock, in a buffer that keeps
        its contents, and gets the rest of a packet that the one before did not take. */
    method Accept(e: Event)
      requires Inv() && net.NotConnected?
      modifies this`net, this`tcpRead, this`received, this`forwarded, this`starts, this`atAccept
      modifies this`here, this`device
      ensures Inv()
      ensures device == if net.Connected? then NextLog(old(device), old(received)) else old(device)
      ensures net == if e.accepted then Connected else if e.beaconFails then Closed else NotConnected
      ensures net.Connected? ==> tcpRead == WaitOnStart && received == [] && forwarded == []
      ensures net.Connected? ==> starts == [] && atAccept == buffer[..]
      ensures net.Connected? ==> here == Outgoing(Pending(), [], [])
      ensures !net.Connected? ==> received == old(received) && forwarded == old(forwarded) && here == old(here)
      ensures !net.Connected? ==> starts == old(starts) && atAccept == old(atAccept)
    {
      hide ReadInv, StartInv, WriteInv, Concat, DeviceHistory;
      WriteBounds();
      ReadBounds();
      NextVisit(device, received, forwarded);
      if e.beaconFails {
        net := Closed;
      }
      if e.accepted {
        tcpRead := WaitOnStart;
        net := Connected;
        ghost var rest := Pending();
        StartRecords(rest);
      } else {
        WithoutConnection();
      }
    }

    ghost method StartRecords(rest: seq<Byte>)
      requires net.Connected? && tcpRead.WaitOnStart? && buffer.Length == READ_SIZE && readBufPointer <= READ_SIZE
      requires WriteInv() && rest == Pending()
      requires DeviceHistory(NextLog(device, received), [], [])
      modifies this`received, this`forwarded, this`starts, this`atAccept
      modifies this`here, this`device
      ensures Inv() && device == NextLog(old(device), old(received))
      ensures received == [] && forwarded == [] && starts == [] && atAccept == buffer[..]
      ensures here == Outgoing(rest, [], [])
    {
      hide ReadInv, StartInv, StartHistory, Concat, DeviceHistory;
      device := NextLog(device, received);
      received, forwarded := [], [];
      starts, atAccept := [], buffer[..];
      here := Outgoing(rest, [], []);
      NothingHere(rest);
      NoStarts(buffer[..]);
      NoFrameYet();
    }

    lemma ReadBounds()
      requires ReadInv()
      ensures buffer.Length == READ_SIZE && readBufPointer <= READ_SIZE && AllFrames(forwarded)
    {}

    static lemma NothingHere(pending: seq<Byte>)
      ensures pending + Concat<Byte>([]) == [] + pending
    {}

    lemma WriteBounds()
      requires WriteInv()
      ensures 0 <= writeLen && writePos + writeLen <= |writeBuf|
    {}

    /** The packet fetched from the device, if the previous one is drained. */
    ghost function Fetched(packet: seq<Byte>): seq<seq<Byte>>
      requires IsDevicePacket(packet)
      reads this`writeLen
    {
      if writeLen <= 0 && packet != [] then [packet[..BodyLength(packet) + 2]] else []
    }

    /** Fetches a device packet when the previous one is drained. */
    method FetchPacket(e: Event)
      requires WriteInv() && HereInv() && IsDevicePacket(e.packet)
      modifies this`writeBuf, this`writeLen, this`writePos, this`packets, this`here
      ensures WriteInv() && HereInv()
      ensures packets == old(packets) + old(Fetched(e.packet))
      ensures here == old(here).(packets := old(here.packets) + old(Fetched(e.packet)))
      ensures Writing() == old(Writing()).Fetch(e.packet)
    {
      hide Concat;
      if writeLen <= 0 {
        writeBuf := e.packet;
        writeLen := |e.packet|;
        writePos := 0;
        if writeLen != 0 {
          var realLen := writeBuf[0] as int + 256 * writeBuf[1] as int + 2;
          assert realLen <= writeLen;
          writeLen := realLen;
          Fetching(packets, sent, e.packet, realLen);
          assert old(Pending()) == [] && Pending() == e.packet[..realLen];
          if net.Connected? {
            FetchingHere(here, e.packet, realLen);
          }
          packets := packets + [writeBuf[..realLen]];
          here := here.(packets := here.packets + [writeBuf[..realLen]]);
        }
      }
    }

    static lemma Fetching(packets: seq<seq<Byte>>, sent: seq<Byte>, packet: seq<Byte>, n: nat)
      requires n <= |packet|
      ensures Concat(packets) == sent + [] ==> Concat(packets + [packet[..n]]) == sent + packet[..n]
    {
      hide Concat;
      ConcatOneMore(packets, packet[..n]);
      assert sent + [] == sent;
    }

    static lemma FetchingHere(o: Outgoing, packet: seq<Byte>, n: nat)
      requires n <= |packet| && o.carried + Concat(o.packets) == o.sent + []
      ensures o.carried + Concat(o.packets + [packet[..n]]) == o.sent + packet[..n]
    {
      hide Concat;
      ConcatOneMore(o.packets, packet[..n]);
      assert o.carried + (Concat(o.packets) + packet[..n]) == (o.carried + Concat(o.packets)) + packet[..n];
      assert o.sent + [] == o.sent;
    }

    /** Hands the bytes to the device: a completed frame, or the byte of a cut-off header. The
        connection is closed unless the device write counts the report byte and all of them. */
    method Forward(len: nat, err: int, ghost whole: bool, ghost before: seq<Byte>)
      requires if whole then Completed(len) else ReadInv() && net.NotConnected? && len == 1 && received == before
      requires len <= buffer.Length && |buffer[..len]| == len
      requires DeviceHistory(device, before, forwarded) && device.stray == []
      modifies this`net, this`forwarded, this`device
      ensures ReadInv() && DeviceInv() && !net.Closed?
      ensures forwarded == (if whole then old(forwarded) + [buffer[..len]] else old(forwarded))
      ensures device == old(device).(writes := old(device.writes) + [buffer[..len]],
        stray := if whole then old(device.stray) else buffer[..len])
      ensures net == if err < len + 1 then NotConnected else old(net)
    {
      hide Concat, DeviceHistory;
      ConcatOneMore(forwarded, buffer[..len]);
      device := device.(writes := device.writes + [buffer[..len]]);
      if whole {
        FrameWritten(old(device), before, forwarded, received, buffer[..len]);
        forwarded := forwarded + [buffer[..len]];
      } else {
        StrayWritten(old(device), before, forwarded, buffer[..len]);
        device := device.(stray := buffer[..len]);
      }
      if err < len + 1 {
        cNetTcpClose();
      }
    }

    /** The device writes of a read: the frame it completes, or the byte of a cut-off header. */
    ghost function Written(got: seq<Byte>): seq<seq<Byte>>
      reads this`tcpRead, this`restLen, this`readBufPointer, buffer
      requires readBufPointer <= buffer.Length
    {
      if Finishes(got) then [PartialFrame() + got] else if CutsHeader(got) then [got] else []
    }

    /** The connection survives the read, and the device write if there is one. */
    ghost predicate Survives(got: seq<Byte>, deviceWrite: nat -> int)
      reads this`tcpRead, this`restLen, this`readBufPointer, buffer
      requires readBufPointer <= buffer.Length
    {
      Keeps(got) && (Finishes(got) ==> deviceWrite(|PartialFrame() + got| + 1) >= |PartialFrame() + got| + 1)
    }

    /** What a read does to the record of device writes. */
    twostate predicate DeviceMoves(got: seq<Byte>)
      requires old(readBufPointer) <= buffer.Length
      reads this`forwarded, this`device
    {
      && forwarded == (if old(Finishes(got)) then old(forwarded) + [old(PartialFrame()) + got] else old(forwarded))
      && device == DeviceLog(old(device.visits), if old(CutsHeader(got)) then got else old(device.stray),
           old(device.writes) + old(Written(got)))
    }

    /** The readable socket's turn: read, and write to the device what cNetReadTcp reports. */
    method ReadAndForward(got: seq<Byte>, deviceWrite: nat -> int) returns (ok: bool)
      requires ReadInv() && StartInv() && DeviceInv() && net.Connected? && |got| <= Requested()
      modifies this`net, this`tcpRead, this`readBufPointer, this`totalLength, this`restLen, this`received, buffer
      modifies this`starts, this`forwarded, this`device
      ensures ReadInv() && StartInv() && DeviceInv() && !net.Closed?
      ensures net.Connected? <==> old(Survives(got, deviceWrite))
      ensures !ok ==> !net.Connected?
      ensures ReadMoves(got) && StartRecorded(got) && DeviceMoves(got)
    {
      hide ReadInv, Completed, Keeps, Counts, Finishes, Unlocks, StartHistory, DeviceHistory, Stored;
      ok := true;
      ghost var before := received;
      ghost var whole := Finishes(got);
      ReadBounds();
      Kept(got);
      var len := cNetReadTcp(got);
      if len > 0 {
        var err := deviceWrite(len + 1);
        OpenIf(whole, len);
        Forward(len, err, whole, before);
        ok := err >= len + 1;
      } else if net.Connected? {
        ghost var rest := ReceivedSoFar();
        MoreReceived(device, before, forwarded, received, rest);
      }
    }

    /** A read that ends the connection brings no frame bytes. */
    lemma Kept(got: seq<Byte>)
      ensures CutsHeader(got) ==> !Keeps(got) && !Finishes(got)
      ensures !Keeps(got) && Counts(got) ==> received + got == received
    {}

    lemma OpenIf(whole: bool, len: nat)
      requires whole ==> Completed(len)
      ensures whole ==> net.Connected?
    {}

    lemma ReceivedSoFar() returns (rest: seq<Byte>)
      requires ReadInv() && net.Connected?
      ensures received == Concat(forwarded) + rest && Partial(rest)
    {
      rest := PartialFrame();
    }

    lemma HereUnlessClosed()
      requires WriteInv() && (net.Connected? ==> HereInv())
      ensures 0 <= writeLen && writePos + writeLen <= |writeBuf| && HereInv()
    {}

    method cNetWriteTcp(length: int, taken: nat) returns (written: int)
      requires taken <= length || length < 0
      ensures written == taken || written == 0
      ensures written > 0 ==> net.Connected? && written <= length
      ensures net.Connected? && length >= 1 ==> written == taken
    {
      if length < 1 { return 0; }
      if !net.Connected? { return 0; }
      written := taken;
    }

    /** Sends what the socket takes of the pending device packet. */
    method Drain(waiting: bool, writable: bool, taken: nat)
      requires WriteInv() && HereInv()
      modifies this`writeLen, this`writePos, this`sent, this`here
      ensures WriteInv() && HereInv()
      ensures var n := if net.Connected? && waiting && writable && taken <= old(writeLen) then taken else 0;
        && sent == old(sent) + old(Pending())[..n] && here == old(here).(sent := old(here.sent) + old(Pending())[..n])
        && Writing() == old(Writing()).Send(n)
    {
      hide Concat, AllPackets;
      if waiting && writable && taken <= writeLen {
        var written := cNetWriteTcp(writeLen, taken);
        if written > 0 {
          ghost var part := Pending()[..written];
          Advance(sent, writeBuf, writePos, writeLen, written);
          Advance(here.sent, writeBuf, writePos, writeLen, written);
          sent, here := sent + part, here.(sent := here.sent + part);
          writeLen := writeLen - written;
          writePos := writePos + written;
        }
      }
    }

    static lemma Advance(sent: seq<Byte>, buf: seq<Byte>, pos: nat, len: nat, n: nat)
      requires n <= len && pos + len <= |buf|
      ensures sent + buf[pos..pos + len] == (sent + buf[pos..pos + len][..n]) + buf[pos + n..pos + n + (len - n)]
    {
      assert buf[pos..pos + len] == buf[pos..pos + len][..n] + buf[pos + n..pos + len];
    }

    // ----- the state of the machine -----

    ghost function Reading(): Reader
      requires readBufPointer <= buffer.Length
      reads this`net, this`tcpRead, this`readBufPointer, this`restLen, this`starts, this`atAccept
      reads this`received, this`forwarded, this`device, buffer
    {
      if net.Connected? then
        Reader(net, tcpRead, PartialFrame(), if tcpRead.WaitOnChunk? then restLen else 0, buffer[..],
          starts, atAccept, received, forwarded, device)
      else Reader(net, Idle, [], 0, buffer[..], starts, atAccept, received, forwarded, device)
    }

    ghost function Writing(): Writer
      requires 0 <= writeLen && writePos + writeLen <= |writeBuf|
      reads this`writeBuf, this`writeLen, this`writePos, this`packets, this`sent, this`here
    {
      Writer(Pending(), packets, sent, here)
    }

    /** The frame being read is what was received behind the forwarded frames. */
    lemma PartialFollows(r: Reader)
      requires ReadInv() && InFrames(r) && Reading().(partial := []) == r.(partial := [])
      ensures Reading() == r
    {
      hide Concat;
      if r.net.Connected? && !r.tcp.WaitOnStart? {
        SameRest(Concat(forwarded), PartialFrame(), r.partial);
      }
    }

    static lemma SameRest(a: seq<Byte>, b: seq<Byte>, c: seq<Byte>)
      requires a + b == a + c
      ensures b == c
    {
      assert b == (a + b)[|a|..] && c == (a + c)[|a|..];
    }

    lemma ReadingValid()
      requires ReadInv()
      ensures readBufPointer <= buffer.Length && Reading().Valid() && InFrames(Reading())
      ensures net.Connected? ==> Reading().Requested() == Requested()
    {
      hide Concat;
      if net.Connected? && tcpRead.WaitOnChunk? {
        ShortBody(buffer[..2]);
      }
    }

    static lemma ShortBody(header: seq<Byte>)
      requires |header| == 2
      ensures BodyLength(header) + 2 <= READ_SIZE
    {}

    /** A read and its device write are a step of the machine. */
    method ReadPass(got: seq<Byte>, deviceWrite: nat -> int) returns (ok: bool)
      requires ReadInv() && StartInv() && DeviceInv() && net.Connected? && |got| <= Requested()
      modifies this`net, this`tcpRead, this`readBufPointer, this`totalLength, this`restLen, this`received, buffer
      modifies this`starts, this`forwarded, this`device
      ensures ReadInv() && StartInv() && DeviceInv() && !net.Closed?
      ensures net.Connected? <==> old(Survives(got, deviceWrite))
      ensures !ok ==> !net.Connected?
      ensures old(Reading()).Valid() && |got| <= old(Reading()).Requested()
      ensures Reading() == old(Reading()).Read(got, deviceWrite)
    {
      hide StartHistory, DeviceHistory, Concat, Unlocks, ReadInv, StartInv, DeviceInv, Stored, InFrames;
      ReadingValid();
      ghost var was := Reading();
      ok := ReadAndForward(got, deviceWrite);
      ReadingValid();
      ReadKeepsFrames(was, got, deviceWrite);
      PartialFollows(was.Read(got, deviceWrite));
    }

    /** One pass of the loop in state TCP_CONNECTED: what it adds to the histories. */
    method Exchange(e: Event)
      requires Inv() && net.Connected? && Possible(e)
      modifies this, buffer
      ensures Inv()
      ensures net == if e.readable && !old(Survives(e.got, e.deviceWrite)) then NotConnected else Connected
      ensures e.readable ==> old(Reading()).Valid() && |e.got| <= old(Reading()).Requested()
      ensures Reading() == if e.readable then old(Reading()).Read(e.got, e.deviceWrite) else old(Reading())
      ensures var w := old(Writing()).Fetch(e.packet);
        Writing() == if net.Connected? then w.Send(Taken(e, |w.pending|)) else w
    {
      hide ReadInv, StartInv, WriteInv, HereInv, Completed, Keeps, Counts, Concat, Finishes, Unlocks, IsDevicePacket,
        StartHistory, Stored, Place, Fetched, DeviceInv, Written, Survives, Reader.Read, Writer.Fetch, Writer.Send,
        Reading;
      WriteBounds();
      ReadingValid();
      FetchPacket(e);
      WriteBounds();
      var waiting := writeLen > 0;
      if e.readable {
        var ok := ReadPass(e.got, e.deviceWrite);
        HereUnlessClosed();
        if !ok { return; }
      }
      SendNothing(Writing());
      Drain(waiting, e.writable, e.written);
    }

    ghost function Now(): State
      requires Inv()
      reads this, buffer
    {
      State(Reading(), Writing())
    }

    lemma NowValid()
      requires Inv()
      ensures Now().Valid() && (forall e :: Now().Admits(e) <==> Possible(e))
    {
      hide ReadInv;
      ReadingValid();
    }

    method Step(e: Event)
      requires Inv() && !net.Closed? && Possible(e)
      modifies this, buffer
      ensures Inv() && old(Now()).Valid() && Now() == old(Now()).Next(e)
    {
      hide ReadInv, StartInv, WriteInv, HereInv, DeviceInv, State.Next, Reader.Read, Writer.Fetch, Writer.Send;
      NowValid();
      NextIs(Now(), e);
      match net {
        case NotConnected => Accept(e);
        case Connected => Exchange(e);
        case Closed =>
      }
    }

    /** bridge_mode over any run: the environment is asked before every pass; events that it
        cannot produce in the current state are skipped. */
    method Run(events: seq<Event>)
      requires Inv()
      modifies this, buffer
      ensures Inv() && old(Now()).Valid() && Now() == old(Now()).After(events)
    {
      hide Inv, Now, State.Next, Possible;
      ghost var start := Now();
      NowValid();
      var i := 0;
      assert events[0..] == events;
      while i < |events| && !net.Closed?
        invariant 0 <= i <= |events| && Inv() && start.Valid() && Now().Valid()
        invariant Now().After(events[i..]) == start.After(events)
      {
        NowValid();
        NextIs(Now(), events[i]);
        assert events[i..][0] == events[i] && events[i..][1..] == events[i + 1..];
        if Possible(events[i]) {
          Step(events[i]);
        }
        i := i + 1;
      }
      NoEventsLeft(events[i..]);
    }

    /** The loop ends after the last event, or earlier because nothing more happens. */
    lemma NoEventsLeft(rest: seq<Event>)
      requires Inv() && Now().Valid() && (rest == [] || net.Closed?)
      ensures Now().After(rest) == Now()
    {
      if rest != [] {
        AfterClosed(Now(), rest);
      }
    }
  }
}
