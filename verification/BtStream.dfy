/** bt_write and bt_read (src/bt-unix.c:84-159): packets over a byte stream whose reads and
    writes may stop short. */
module BtStream {
  import opened Bytes
  import Frames
  import opened Sequences

  /** A serial line with bytes in flight. Call number i moves at most pace(i) bytes, at least
      one; it fails if pace(i) is negative. */
  class Line {
    var content: seq<Byte>
    var calls: nat
    const pace: nat -> int

    constructor (pace: nat -> int)
      ensures content == [] && calls == 0 && this.pace == pace
    {
      this.content, this.calls, this.pace := [], 0, pace;
    }

    method Write(data: seq<Byte>) returns (ret: int)
      requires data != []
      modifies this
      ensures calls == old(calls) + 1
      ensures if pace(old(calls)) < 0 then ret == -1 && content == old(content)
              else 1 <= ret <= |data| && content == old(content) + data[..ret]
    {
      var n := pace(calls);
      calls := calls + 1;
      if n < 0 { return -1; }
      ret := if n == 0 then 1 else if n > |data| then |data| else n;
      content := content + data[..ret];
    }

    method Read(n: nat) returns (ret: int, got: seq<Byte>)
      requires n > 0
      modifies this
      ensures calls == old(calls) + 1
      ensures if pace(old(calls)) < 0 then ret == -1 && got == [] && content == old(content)
              else ret == |got| <= n && got <= old(content) && content == old(content)[ret..]
      ensures pace(old(calls)) >= 0 ==> (ret == 0 <==> old(content) == [])
    {
      var k := pace(calls);
      calls := calls + 1;
      if k < 0 { return -1, []; }
      k := if k == 0 then 1 else k;
      k := if k > n then n else k;
      k := if k > |content| then |content| else k;
      ret, got := k, content[..k];
      content := content[k..];
    }

    /** Some call from number `from` up to `to` fails. */
    ghost predicate Fails(from: nat, to: nat) {
      exists i :: from <= i < to && pace(i) < 0
    }

    lemma FailsWithin(from: nat, at: nat, to: nat)
      requires from <= at <= to && Fails(at, to)
      ensures Fails(from, to)
    {}

    lemma NoCall(from: nat)
      ensures !Fails(from, from)
    {}

    lemma OneMoreCall(from: nat, at: nat)
      requires from <= at
      ensures Fails(from, at + 1) <==> Fails(from, at) || pace(at) < 0
    {}
  }

  /** The length field and the packet it announces. */
  function PacketLength(header: seq<Byte>): nat
    requires |header| >= 2
  {
    2 + header[0] as int + 256 * header[1] as int
  }

  /** The bridge's frames and this line's packets have the same header. */
  lemma SameHeader(header: seq<Byte>)
    requires |header| >= 2
    ensures PacketLength(header) == Frames.BodyLength(header) + 2
  {}

  /** The length counts what follows it, low byte first. */
  lemma PacketOf(body: seq<Byte>)
    requires |body| < 0x1_0000
    ensures IsPacket([|body| % 0x100, |body| / 0x100] + body)
  {}

  predicate IsPacket(p: seq<Byte>) { |p| >= 2 && |p| == PacketLength(p) }

  /** The line starts with a whole packet. */
  predicate Ready(content: seq<Byte>) { |content| >= 2 && PacketLength(content) <= |content| }

  /** Writes buf[1] to buf[count - 1]; after an error the result is what was sent before it. */
  method bt_write(line: Line, buf: seq<Byte>, count: nat) returns (sent: nat)
    requires 1 <= count <= |buf|
    modifies line
    ensures sent <= count - 1 && line.content == old(line.content) + buf[1..1 + sent]
    ensures old(line.calls) <= line.calls
    ensures sent < count - 1 <==> line.Fails(old(line.calls), line.calls)
  {
    var data := buf[1..count];
    sent := 0;
    while sent < |data|
      invariant 0 <= sent <= |data| && old(line.calls) <= line.calls
      invariant line.content == old(line.content) + data[..sent]
      invariant !line.Fails(old(line.calls), line.calls)
      decreases |data| - sent
    {
      ghost var at := line.calls;
      var ret := line.Write(data[sent..]);
      if ret == -1 {
        assert line.pace(at) < 0;
        break;
      }
      assert data[sent..][..ret] == data[sent..sent + ret];
      assert data[..sent + ret] == data[..sent] + data[sent..sent + ret];
      sent := sent + ret;
    }
    assert data[..sent] == buf[1..1 + sent];
  }

  /** Puts received bytes into the caller's buffer. */
  method CopyInto(buf: array<Byte>, at: nat, got: seq<Byte>)
    requires at + |got| <= buf.Length
    modifies buf
    ensures buf[..at + |got|] == old(buf[..at]) + got
  {
    forall i | 0 <= i < |got| {
      buf[at + i] := got[i];
    }
  }

  /** Reads until `until` bytes are in the buffer, the line ends (0) or fails (-1). */
  method Gather(line: Line, buf: array<Byte>, from: nat, until: nat) returns (recvd: nat, ret: int)
    requires from <= until <= buf.Length
    modifies line, buf
    ensures from <= recvd <= until && recvd - from <= |old(line.content)| && old(line.calls) <= line.calls
    ensures buf[..recvd] == old(buf[..from]) + old(line.content)[..recvd - from]
    ensures line.content == old(line.content)[recvd - from..]
    ensures recvd == until <==> ret > 0
    ensures ret == 0 ==> line.content == []
    ensures ret < 0 <==> line.Fails(old(line.calls), line.calls)
  {
    hide Line.Fails;
    line.NoCall(line.calls);
    recvd, ret := from, 1;
    while recvd < until
      invariant from <= recvd <= until && recvd - from <= |old(line.content)| && old(line.calls) <= line.calls
      invariant buf[..recvd] == old(buf[..from]) + old(line.content)[..recvd - from]
      invariant line.content == old(line.content)[recvd - from..]
      invariant ret > 0 && !line.Fails(old(line.calls), line.calls)
      decreases until - recvd
    {
      ghost var at := line.calls;
      var got;
      ret, got := line.Read(until - recvd);
      line.OneMoreCall(old(line.calls), at);
      if ret <= 0 { return; }
      CopyInto(buf, recvd, got);
      Gathered(old(buf[..from]), old(line.content), recvd - from, got);
      recvd := recvd + ret;
    }
  }

  lemma Gathered(start: seq<Byte>, content: seq<Byte>, n: nat, got: seq<Byte>)
    requires n <= |content| && got <= content[n..]
    ensures (start + content[..n]) + got == start + content[..n + |got|] && n + |got| <= |content|
    ensures content[n..][|got|..] == content[n + |got|..]
  {
    assert content[..n + |got|] == content[..n] + got;
  }

  /** Reads one packet: first its length, then the rest. The code accepts up to twice the
      buffer size, so a packet longer than the buffer must be longer than twice that. */
  method bt_read(line: Line, buf: array<Byte>, count: nat) returns (ret: int)
    requires count == buf.Length >= 2
    requires |line.content| >= 2 ==> !(count < PacketLength(line.content) <= 2 * count)
    modifies line, buf
    ensures old(line.calls) <= line.calls
    ensures var (s, failed) := (old(line.content), line.Fails(old(line.calls), line.calls));
      if failed || |s| < 2 || PacketLength(s) > count then ret == -1
      else if Ready(s) then
        ret == PacketLength(s) && buf[..ret] == s[..ret] && line.content == s[ret..]
      else ret == |s| && line.content == []
  {
    var recvd, r := Gather(line, buf, 0, 2);
    if r <= 0 { return -1; }
    assert buf[0] == buf[..2][0] && buf[1] == buf[..2][1];
    var packetLen := 2 + (buf[0] as int + 256 * buf[1] as int);
    assert packetLen == PacketLength(old(line.content));
    if packetLen > 2 * count { return -1; }
    ghost var middle, header := line.calls, buf[..2];
    recvd, r := Gather(line, buf, recvd, packetLen);
    assert line.Fails(old(line.calls), line.calls) <==> line.Fails(middle, line.calls);
    if r < 0 { return -1; }
    assert buf[..recvd] == old(line.content)[..recvd];
    ret := recvd;
  }

  // ----- the channel -----

  ghost predicate AllPackets(packets: seq<seq<Byte>>, size: nat) {
    forall p :: p in packets ==> IsPacket(p) && |p| <= size
  }

  /** One packet behind the report byte that bt_write leaves out. */
  method SendOne(line: Line, packet: seq<Byte>) returns (ok: bool)
    modifies line
    ensures old(line.calls) <= line.calls
    ensures ok ==> line.content == old(line.content) + packet
    ensures !ok ==> line.Fails(old(line.calls), line.calls)
  {
    var report := [0] + packet;
    assert report[1..|report|] == packet;
    var sent := bt_write(line, report, |report|);
    ok := sent == |packet|;
  }

  lemma FirstOfPackets(packets: seq<seq<Byte>>, size: nat)
    requires packets != [] && AllPackets(packets, size)
    ensures var s := Concat(packets);
      && Ready(s) && PacketLength(s) == |packets[0]|
      && s[..|packets[0]|] == packets[0] && s[|packets[0]|..] == Concat(packets[1..])
  {
    ConcatFirst(packets);
    assert packets[0] in packets;
  }

  /** A packet channel: whatever the short writes and short reads, and however sending and
      receiving alternate, packets come out one by one, in order, each read ending at a packet
      boundary, unless a call on the line fails. A read is made when a packet is under way. */
  method Channel(line: Line, packets: seq<seq<Byte>>, size: nat, sendNext: nat -> bool)
      returns (ok: bool, got: seq<seq<Byte>>)
    requires line.content == [] && size >= 2 && AllPackets(packets, size)
    modifies line
    ensures old(line.calls) <= line.calls && got <= packets
    ensures ok ==> got == packets && line.content == []
    ensures !ok ==> line.Fails(old(line.calls), line.calls)
  {
    hide Concat, IsPacket, Line.Fails;
    got := [];
    var next, step := 0, 0;
    var buf := new Byte[size](_ => 0);
    NothingUnderWay(packets);
    while |got| < |packets|
      invariant |got| <= next <= |packets| && got == packets[..|got|] && old(line.calls) <= line.calls
      invariant line.content == Concat(packets[|got|..next])
      decreases 2 * |packets| - next - |got|
    {
      ghost var before, rest := line.calls, packets[|got|..next];
      if next < |packets| && (next == |got| || sendNext(step)) {
        ok := SendOne(line, packets[next]);
        if !ok {
          line.FailsWithin(old(line.calls), before, line.calls);
          return;
        }
        ConcatOneMore(rest, packets[next]);
        assert packets[|got|..next + 1] == rest + [packets[next]];
        next := next + 1;
      } else {
        FirstOfPackets(rest, size);
        var ret := bt_read(line, buf, size);
        if ret <= 0 {
          line.FailsWithin(old(line.calls), before, line.calls);
          return false, got;
        }
        got := got + [buf[..ret]];
        assert rest[1..] == packets[|got|..next];
      }
      step := step + 1;
    }
    NothingUnderWay(packets);
    ok := true;
  }

  lemma NothingUnderWay(packets: seq<seq<Byte>>)
    ensures Concat(packets[0..0]) == [] && Concat(packets[|packets|..|packets|]) == []
  {}
}
