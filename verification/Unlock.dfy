/** The unlock check of src/bridge.c:262-285: strstr over a buffer that keeps old contents. */
module Unlock {
  import opened Bytes

  // "ET /target?sn="
  const UNLOCK: seq<Byte> := [69, 84, 32, 47, 116, 97, 114, 103, 101, 116, 63, 115, 110, 61]

  lemma UnlockText(i: nat)
    requires i < 14
    ensures |UNLOCK| == 14 && UNLOCK[i] == "ET /target?sn="[i] as int
  {}

  /** The pattern starts at position i. */
  predicate OccursAt(text: seq<Byte>, pattern: seq<Byte>, i: nat) {
    i + |pattern| <= |text| && text[i..i + |pattern|] == pattern
  }

  ghost predicate Contains(text: seq<Byte>, pattern: seq<Byte>) { exists i :: OccursAt(text, pattern, i) }

  /** strstr, as a search for the first match. */
  method StrStr(text: seq<Byte>, pattern: seq<Byte>) returns (found: bool)
    ensures found <==> Contains(text, pattern)
  {
    var i := 0;
    while i + |pattern| <= |text|
      invariant forall j: nat :: j < i ==> !OccursAt(text, pattern, j)
      decreases |text| - i
    {
      if text[i..i + |pattern|] == pattern {
        assert OccursAt(text, pattern, i);
        return true;
      }
      i := i + 1;
    }
    found := false;
  }

  /** The buffer after a read put `got` at its start. */
  function Received(buffer: seq<Byte>, got: seq<Byte>): (r: seq<Byte>)
    requires |got| <= |buffer|
    ensures |r| == |buffer|
  {
    got + buffer[|got|..]
  }

  /** What the code decides: the pattern is in the C string at the start of the buffer. */
  ghost predicate Unlocks(buffer: seq<Byte>, got: seq<Byte>)
    requires |got| <= |buffer|
  {
    Contains(CString(Received(buffer, got)), UNLOCK)
  }

  lemma {:induction false} CStringSplit(a: seq<Byte>, b: seq<Byte>)
    ensures CString(a + b) == if NoNul(a) then a + CString(b) else CString(a)
  {
    if a == [] {
      assert a + b == b;
    } else {
      assert (a + b)[1..] == a[1..] + b;
      CStringSplit(a[1..], b);
      assert NoNul(a) <==> a[0] != 0 && NoNul(a[1..]);
    }
  }

  /** The leftover bytes in the buffer could complete a pattern that begins in n new bytes, or
      contain a whole one. */
  ghost predicate Completes(stale: seq<Byte>, n: nat) {
    Contains(stale, UNLOCK) || exists k :: 0 < k < |UNLOCK| && k <= n && UNLOCK[k..] <= stale
  }

  lemma ContainsShifted(a: seq<Byte>, b: seq<Byte>, pattern: seq<Byte>, i: nat)
    requires OccursAt(b, pattern, i)
    ensures OccursAt(a + b, pattern, |a| + i)
  {
    assert (a + b)[|a| + i..|a| + i + |pattern|] == b[i..i + |pattern|];
  }

  /** A match in a + b is in a, in b, or across the border. */
  lemma MatchPlaces(a: seq<Byte>, b: seq<Byte>, i: nat)
    requires OccursAt(a + b, UNLOCK, i)
    ensures OccursAt(a, UNLOCK, i) || (i >= |a| && OccursAt(b, UNLOCK, i - |a|)) ||
      (i < |a| < i + |UNLOCK| && UNLOCK[|a| - i..] <= b)
  {
    var t, m := a + b, |UNLOCK|;
    if i + m <= |a| {
      assert t[i..i + m] == a[i..i + m];
    } else if i >= |a| {
      assert t[i..i + m] == b[i - |a|..i - |a| + m];
    } else {
      var k := |a| - i;
      assert t[i..i + m][k..] == b[..m - k];
    }
  }

  /** Filler bytes, then the first k bytes of the pattern: contains no whole pattern. */
  function Lure(n: nat, k: nat): (got: seq<Byte>)
    requires k <= n && k < |UNLOCK|
    ensures |got| == n && NoNul(got)
  {
    seq(n - k, _ => 1) + UNLOCK[..k]
  }

  lemma FirstOfMatch(text: seq<Byte>, pattern: seq<Byte>, i: nat)
    requires pattern != []
    ensures OccursAt(text, pattern, i) ==> i < |text| && text[i] == pattern[0]
  {
    if OccursAt(text, pattern, i) {
      assert text[i..i + |pattern|][0] == text[i];
    }
  }

  lemma LureIsNoPattern(n: nat, k: nat)
    requires k <= n && k < |UNLOCK|
    ensures !Contains(Lure(n, k), UNLOCK)
  {
    var got := Lure(n, k);
    forall i: nat
      ensures !OccursAt(got, UNLOCK, i)
    {
      FirstOfMatch(got, UNLOCK, i);
    }
  }

  /** Exactly when the check is about the received bytes alone: for n new bytes, an unlock
      always means that they contain the pattern, if and only if the bytes left in the
      buffer behind them cannot complete or supply one. */
  lemma UnlockMeansReceived(buffer: seq<Byte>, n: nat)
    requires n <= |buffer|
    ensures (forall got: seq<Byte> :: |got| == n && Unlocks(buffer, got) ==> Contains(got, UNLOCK))
      <==> !Completes(CString(buffer[n..]), n)
  {
    hide Unlocks, Completes, Contains;
    if Completes(CString(buffer[n..]), n) {
      var got := StaleUnlock(buffer, n);
    } else {
      forall got: seq<Byte> | |got| == n && Unlocks(buffer, got)
        ensures Contains(got, UNLOCK)
      {
        TextReceived(buffer, got);
      }
    }
  }

  lemma TextReceived(buffer: seq<Byte>, got: seq<Byte>)
    requires |got| <= |buffer| && Unlocks(buffer, got) && !Completes(CString(buffer[|got|..]), |got|)
    ensures Contains(got, UNLOCK)
  {
    hide CString;
    CStringSplit(got, buffer[|got|..]);
    var i :| OccursAt(CString(Received(buffer, got)), UNLOCK, i);
    if NoNul(got) {
      MatchPlaces(got, CString(buffer[|got|..]), i);
    } else {
      assert CString(got) <= got;
      assert OccursAt(got, UNLOCK, i);
    }
  }

  /** With such leftovers some read unlocks without the pattern. */
  lemma StaleUnlock(buffer: seq<Byte>, n: nat) returns (got: seq<Byte>)
    requires n <= |buffer| && Completes(CString(buffer[n..]), n)
    ensures |got| == n && Unlocks(buffer, got) && !Contains(got, UNLOCK)
  {
    var stale := CString(buffer[n..]);
    if Contains(stale, UNLOCK) {
      got := Lure(n, 0);
      LureIsNoPattern(n, 0);
      CStringSplit(got, buffer[n..]);
      var i :| OccursAt(stale, UNLOCK, i);
      ContainsShifted(got, stale, UNLOCK, i);
    } else {
      var k :| 0 < k < |UNLOCK| && k <= n && UNLOCK[k..] <= stale;
      got := Lure(n, k);
      LureIsNoPattern(n, k);
      LureCompleted(n, k, buffer);
    }
  }

  lemma LureCompleted(n: nat, k: nat, buffer: seq<Byte>)
    requires n <= |buffer| && 0 < k < |UNLOCK| && k <= n && UNLOCK[k..] <= CString(buffer[n..])
    ensures Unlocks(buffer, Lure(n, k))
  {
    var got, stale := Lure(n, k), CString(buffer[n..]);
    CStringSplit(got, buffer[n..]);
    JoinedMatch(seq(n - k, _ => 1), UNLOCK, k, stale);
    assert OccursAt(got + stale, UNLOCK, n - k);
  }

  lemma JoinedMatch(fill: seq<Byte>, pattern: seq<Byte>, k: nat, stale: seq<Byte>)
    requires k <= |pattern| && pattern[k..] <= stale
    ensures OccursAt(fill + pattern[..k] + stale, pattern, |fill|)
  {
    var t := fill + pattern[..k] + stale;
    assert t[|fill|..|fill| + |pattern|] == pattern[..k] + stale[..|pattern| - k];
    assert pattern[..k] + pattern[k..] == pattern;
  }

  /** A buffer that holds a zero right behind the received bytes, as one that is clear there: the
      check is about the received bytes. */
  lemma CleanBuffer(buffer: seq<Byte>, n: nat)
    requires n < |buffer| && buffer[n] == 0
    ensures !Completes(CString(buffer[n..]), n)
  {
    assert CString(buffer[n..]) == [];
  }

  // ----- the reads of one connection -----

  /** One read before the unlock: the buffer it met and the bytes it brought. */
  datatype StartRead = StartRead(before: seq<Byte>, got: seq<Byte>) {
    ghost predicate Unlocking() { |got| <= |before| && Unlocks(before, got) }

    /** The bytes left behind the new ones, as far as the search sees them. */
    function Leftover(): seq<Byte>
      requires |got| <= |before|
    {
      CString(before[|got|..])
    }
  }

  /** The buffer after some reads, if it was `first` before them. */
  function AfterReads(starts: seq<StartRead>, first: seq<Byte>): seq<Byte> {
    if starts == [] then first
    else
      var last := starts[|starts| - 1];
      if |last.got| <= |last.before| then Received(last.before, last.got) else last.before
  }

  /** Each read meets the buffer that the one before it left. */
  ghost predicate Chained(starts: seq<StartRead>, first: seq<Byte>) {
    starts == [] ||
    (var n := |starts| - 1;
     && |starts[n].got| <= |starts[n].before|
     && Chained(starts[..n], first)
     && starts[n].before == AfterReads(starts[..n], first))
  }

  lemma {:induction false} ReadsKeepRest(starts: seq<StartRead>, first: seq<Byte>, n: nat)
    requires Chained(starts, first) && n <= |first| && forall r :: r in starts ==> |r.got| <= n
    ensures |AfterReads(starts, first)| == |first| && AfterReads(starts, first)[n..] == first[n..]
  {
    if starts != [] {
      var last := starts[|starts| - 1];
      ReadsKeepRest(starts[..|starts| - 1], first, n);
      assert Received(last.before, last.got)[n..] == last.before[n..];
    }
  }

  /** If the buffer was clear when the connection came, and no read was longer than the last
      one, then an unlock by the last one means that it brought the text itself. */
  lemma UnlockOnClearBuffer(starts: seq<StartRead>, first: seq<Byte>)
    requires starts != [] && Chained(starts, first) && starts[|starts| - 1].Unlocking()
    requires |starts[|starts| - 1].got| < |first| && forall i :: 0 <= i < |first| ==> first[i] == 0
    requires forall r :: r in starts ==> |r.got| <= |starts[|starts| - 1].got|
    ensures Contains(starts[|starts| - 1].got, UNLOCK)
  {
    var last := starts[|starts| - 1];
    var n := |last.got|;
    ReadsKeepRest(starts[..|starts| - 1], first, n);
    assert last.before[n] == last.before[n..][0] == first[n..][0] == first[n];
    CleanBuffer(last.before, n);
    UnlockMeansReceived(last.before, n);
  }

  // ----- what the leftovers do -----

  /** A concrete input for which the check is not about the received bytes: the text of an
      earlier read is still in the buffer, and one new byte is read in front of it. */
  lemma LeftoverCounts(tail: seq<Byte>)
    requires tail != [] && tail[0] == 0
    ensures var buffer := [71] + UNLOCK + tail;
      Unlocks(buffer, [71]) && !Contains([71], UNLOCK)
  {
    var buffer := [71] + UNLOCK + tail;
    assert Received(buffer, [71]) == [71] + UNLOCK + tail;
    CStringOf([71] + UNLOCK, tail);
    assert OccursAt([71] + UNLOCK, UNLOCK, 1);
  }
}
