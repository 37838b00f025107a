/**
 * Neighbor liveness tracking (neighbor.c): the table of peers heard from,
 * the HELLO heartbeat frame, and the expiry sweep.
 *
 * The C linked list `g_neighborsHead` is the sequence `entries`, head first;
 * inserting at the head is prepending. Time is a parameter (`now`, whole seconds).
 */
module Neighbors {
  import opened Wrappers
  import opened CStrings

  const NEIGHBOR_TIMEOUT_SEC: int := 10

  /** C `unsigned short`. */
  type UShort = x: int | 0 <= x < 65536

  datatype Neighbor = Neighbor(ip: string, lastSeq: UShort, lastHeard: int)

  /** `findNeighbor`: the first entry whose address equals `ip`. */
  function IndexOfIp(entries: seq<Neighbor>, ip: string): (k: Option<nat>)
    ensures k.Some? ==> k.value < |entries| && entries[k.value].ip == ip
    ensures k.Some? ==> forall i :: 0 <= i < k.value ==> entries[i].ip != ip
    ensures k.None? ==> forall i :: 0 <= i < |entries| ==> entries[i].ip != ip
  {
    if entries == [] then None
    else if entries[0].ip == ip then Some(0)
    else match IndexOfIp(entries[1..], ip)
      case None => None
      case Some(j) => Some(j + 1)
  }

  /** At most one entry per address. */
  ghost predicate UniqueIps(entries: seq<Neighbor>)
  {
    forall i, j :: 0 <= i < j < |entries| ==> entries[i].ip != entries[j].ip
  }

  /** An entry survives the sweep iff it was heard at most NEIGHBOR_TIMEOUT_SEC ago. */
  predicate Live(e: Neighbor, now: int)
  {
    now - e.lastHeard <= NEIGHBOR_TIMEOUT_SEC
  }

  /** The table `removeStaleNeighbors` leaves behind. */
  function Sweep(entries: seq<Neighbor>, now: int): seq<Neighbor>
  {
    if entries == [] then []
    else
      var last := entries[|entries| - 1];
      Sweep(entries[..|entries| - 1], now) + (if Live(last, now) then [last] else [])
  }

  /** One sweep per clock reading, in order. */
  function SweepAll(entries: seq<Neighbor>, nows: seq<int>): seq<Neighbor>
  {
    if nows == [] then entries
    else Sweep(SweepAll(entries, nows[..|nows| - 1]), nows[|nows| - 1])
  }

  /** The table after `processHELLO(ip, seqNum)` at time `now` on a node whose own address is `myIP`. */
  function Heard(entries: seq<Neighbor>, myIP: string, ip: string, seqNum: UShort, now: int): seq<Neighbor>
  {
    if ip == myIP then entries
    else match IndexOfIp(entries, ip)
      case None => [Neighbor(Truncate(ip, IP_MAX_LEN), seqNum, now)] + entries
      case Some(k) =>
        var e := entries[k];
        entries[k := e.(lastSeq := if seqNum > e.lastSeq then seqNum else e.lastSeq, lastHeard := now)]
  }

  /** The heartbeat `snprintf(message, ..., "%s:HELLO:%hu", g_myIP, seqNum)`. */
  function HelloFrame(ip: string, seqNum: UShort): string
  {
    ip + ":HELLO:" + Itoa(seqNum)
  }

  /** The receiver's tokenising of the received C string: `<ip>:HELLO:<seqNum>` with the sequence
      cast to `unsigned short`; the sender is one whole field. */
  function ParseHello(frame: string): (r: Option<(string, UShort)>)
    ensures r.Some? ==> r.value.0 != [] && ':' !in r.value.0 && '\0' !in r.value.0
  {
    var toks := Tokens(CString(frame));
    if |toks| < 3 || toks[1] != "HELLO" then None
    else
      assert toks[0] in toks;
      Some((toks[0], Atoi(toks[2]) % 65536))
  }

  /** `seqNum++` on an `unsigned short`. */
  function NextSeq(seqNum: UShort): (r: UShort)
    ensures seqNum < 65535 ==> r == seqNum + 1
    ensures seqNum == 65535 ==> r == 0
  {
    (seqNum + 1) % 65536
  }

  /** Incrementing the wrapped counter is incrementing and then wrapping. */
  lemma WrapStep(x: nat)
    ensures NextSeq(x % 65536) == (x + 1) % 65536
  {
  }

  // ----- processHELLO -----

  /** A HELLO carrying the node's own address leaves the table as it was. */
  lemma HeardSelf(entries: seq<Neighbor>, myIP: string, seqNum: UShort, now: int)
    ensures Heard(entries, myIP, myIP, seqNum, now) == entries
  {
  }

  /** A HELLO from an address not in the table prepends exactly one fresh entry. */
  lemma HeardUnseen(entries: seq<Neighbor>, myIP: string, ip: string, seqNum: UShort, now: int)
    requires ip != myIP
    requires forall i :: 0 <= i < |entries| ==> entries[i].ip != ip
    ensures Heard(entries, myIP, ip, seqNum, now) == [Neighbor(Truncate(ip, IP_MAX_LEN), seqNum, now)] + entries
  {
  }

  /** A HELLO from a known address refreshes that entry only: `lastHeard = now` and
      `lastSeq = max(lastSeq, seqNum)`; length and every other entry stay. */
  lemma HeardKnown(entries: seq<Neighbor>, myIP: string, ip: string, seqNum: UShort, now: int, i: nat)
    requires ip != myIP && UniqueIps(entries)
    requires i < |entries| && entries[i].ip == ip
    ensures var r := Heard(entries, myIP, ip, seqNum, now);
      && |r| == |entries|
      && r[i].ip == ip
      && r[i].lastHeard == now
      && r[i].lastSeq == (if seqNum > entries[i].lastSeq then seqNum else entries[i].lastSeq)
      && forall j :: 0 <= j < |entries| && j != i ==> r[j] == entries[j]
  {
    var k := IndexOfIp(entries, ip);
    assert k.value <= i;
    assert entries[k.value].ip == entries[i].ip;
  }

  /** No entry's sequence number moves backward and no entry is lost; each old entry keeps its place
      behind whatever was prepended. */
  lemma HeardMonotone(entries: seq<Neighbor>, myIP: string, ip: string, seqNum: UShort, now: int)
    ensures |entries| <= |Heard(entries, myIP, ip, seqNum, now)| <= |entries| + 1
    ensures forall i :: 0 <= i < |entries| ==>
      && Heard(entries, myIP, ip, seqNum, now)[i + |Heard(entries, myIP, ip, seqNum, now)| - |entries|].ip == entries[i].ip
      && Heard(entries, myIP, ip, seqNum, now)[i + |Heard(entries, myIP, ip, seqNum, now)| - |entries|].lastSeq >= entries[i].lastSeq
  {
    var r := Heard(entries, myIP, ip, seqNum, now);
    if ip != myIP {
      match IndexOfIp(entries, ip)
      case None =>
        assert forall i :: 0 <= i < |entries| ==> r[i + 1] == entries[i];
      case Some(k) =>
        assert |r| == |entries|;
        assert forall i :: 0 <= i < |entries| && i != k ==> r[i] == entries[i];
    }
  }

  /** `processHELLO` keeps at most one entry per address, for addresses that fit the
      32-byte buffer (a longer one is stored truncated and never found again). */
  lemma HeardKeepsUnique(entries: seq<Neighbor>, myIP: string, ip: string, seqNum: UShort, now: int)
    requires UniqueIps(entries)
    requires |ip| <= IP_MAX_LEN
    ensures UniqueIps(Heard(entries, myIP, ip, seqNum, now))
  {
    var r := Heard(entries, myIP, ip, seqNum, now);
    if ip != myIP && IndexOfIp(entries, ip).None? {
      forall i, j | 0 <= i < j < |r| ensures r[i].ip != r[j].ip {
        if i == 0 {
          assert r[j] == entries[j - 1];
        } else {
          assert r[i] == entries[i - 1] && r[j] == entries[j - 1];
        }
      }
    }
  }

  // ----- removeStaleNeighbors -----

  /** The sweep keeps exactly the live entries ... */
  lemma {:induction false} SweepMembers(entries: seq<Neighbor>, now: int)
    ensures forall e :: e in Sweep(entries, now) <==> e in entries && Live(e, now)
    ensures |Sweep(entries, now)| <= |entries|
  {
    if entries != [] {
      var init := entries[..|entries| - 1];
      SweepMembers(init, now);
      assert entries == init + [entries[|entries| - 1]];
    }
  }

  /** ... in their original relative order: it is a filter, distributing over concatenation. */
  lemma {:induction false} SweepAppend(a: seq<Neighbor>, b: seq<Neighbor>, now: int)
    ensures Sweep(a + b, now) == Sweep(a, now) + Sweep(b, now)
    decreases |b|
  {
    if b == [] {
      assert a + b == a;
    } else {
      var init := b[..|b| - 1];
      assert (a + b)[..|a + b| - 1] == a + init;
      SweepAppend(a, init, now);
    }
  }

  /** Sweeping twice at the same time is sweeping once. */
  lemma {:induction false} SweepIdempotent(entries: seq<Neighbor>, now: int)
    ensures Sweep(Sweep(entries, now), now) == Sweep(entries, now)
  {
    if entries != [] {
      var init := entries[..|entries| - 1];
      var last := entries[|entries| - 1];
      SweepIdempotent(init, now);
      var tail := if Live(last, now) then [last] else [];
      SweepAppend(Sweep(init, now), tail, now);
      assert Sweep(tail, now) == tail by {
        if Live(last, now) {
          assert tail[..0] == [];
        }
      }
    }
  }

  /** A later sweep subsumes an earlier one. */
  lemma {:induction false} SweepLater(entries: seq<Neighbor>, t1: int, t2: int)
    requires t1 <= t2
    ensures Sweep(Sweep(entries, t1), t2) == Sweep(entries, t2)
  {
    if entries != [] {
      var init := entries[..|entries| - 1];
      var last := entries[|entries| - 1];
      SweepLater(init, t1, t2);
      var tail := if Live(last, t1) then [last] else [];
      SweepAppend(Sweep(init, t1), tail, t2);
      if Live(last, t1) {
        assert tail[..0] == [];
      }
    }
  }

  /** With a clock that does not run backwards, a run of sweeps is the last one alone. */
  lemma {:induction false} SweepAllMonotone(entries: seq<Neighbor>, nows: seq<int>)
    requires nows != []
    requires forall i, j :: 0 <= i < j < |nows| ==> nows[i] <= nows[j]
    ensures SweepAll(entries, nows) == Sweep(entries, nows[|nows| - 1])
  {
    var init := nows[..|nows| - 1];
    if init != [] {
      SweepAllMonotone(entries, init);
      SweepLater(entries, init[|init| - 1], nows[|nows| - 1]);
    }
  }

  /** An entry exactly NEIGHBOR_TIMEOUT_SEC old survives; one second older does not. */
  lemma SweepBoundary(ip: string, seqNum: UShort, now: int)
    ensures Sweep([Neighbor(ip, seqNum, now - NEIGHBOR_TIMEOUT_SEC)], now) == [Neighbor(ip, seqNum, now - NEIGHBOR_TIMEOUT_SEC)]
    ensures Sweep([Neighbor(ip, seqNum, now - NEIGHBOR_TIMEOUT_SEC - 1)], now) == []
  {
  }

  // ----- the HELLO frame -----

  lemma ThreeTokens(a: string, b: string, c: string)
    requires a != [] && ':' !in a && b != [] && ':' !in b && c != [] && ':' !in c
    ensures Tokens(a + ":" + b + ":" + c) == [a, b, c]
  {
    assert a + ":" + b + ":" + c == (a + ":") + ((b + ":") + c);
    TokensAppend(a + ":", (b + ":") + c);
    TokenColon(a);
    TokensAppend(b + ":", c);
    TokenColon(b);
    TokenLast(c);
  }

  /** The receiver reads back the address and sequence number of a HELLO the sender built. */
  lemma HelloRoundTrip(ip: string, seqNum: UShort)
    requires ip != [] && ':' !in ip && '\0' !in ip
    ensures ParseHello(HelloFrame(ip, seqNum)) == Some((ip, seqNum))
  {
    var f := HelloFrame(ip, seqNum);
    assert Tokens(CString(f)) == [ip, "HELLO", Itoa(seqNum)] by {
      assert '\0' !in Itoa(seqNum);
      assert CString(f) == f;
      ItoaHasNoDelimiters(seqNum);
      assert f == ip + ":" + "HELLO" + ":" + Itoa(seqNum);
      ThreeTokens(ip, "HELLO", Itoa(seqNum));
    }
    AtoiItoa(seqNum);
  }

  /** A sequence field that is not a number is not rejected: it reads as 0. */
  lemma HelloNonNumericSeq(ip: string, junk: string)
    requires ip != [] && ':' !in ip && '\0' !in ip && junk != [] && ':' !in junk && '\0' !in junk
    requires !IsSpace(junk[0]) && !IsDigit(junk[0]) && junk[0] != '-' && junk[0] != '+'
    ensures ParseHello(ip + ":HELLO:" + junk) == Some((ip, 0))
  {
    assert CString(ip + ":HELLO:" + junk) == ip + ":HELLO:" + junk;
    assert ip + ":HELLO:" + junk == ip + ":" + "HELLO" + ":" + junk;
    ThreeTokens(ip, "HELLO", junk);
    AtoiNonNumeric(junk);
  }

  /** A HELLO without a sequence field is ignored. */
  lemma HelloWithoutSeq(ip: string)
    requires ip != [] && ':' !in ip && '\0' !in ip
    ensures ParseHello(ip + ":HELLO:") == None
  {
    assert CString(ip + ":HELLO:") == ip + ":HELLO:";
    HelloColonTokens(ip);
  }

  lemma HelloColonTokens(ip: string)
    requires ip != [] && ':' !in ip
    ensures Tokens(ip + ":HELLO:") == [ip, "HELLO"]
  {
    KeywordColonTokens();
    assert ip + ":HELLO:" == ip + ":" + "HELLO:";
    TokenThen(ip, "HELLO:");
  }

  lemma KeywordColonTokens()
    ensures Tokens("HELLO:") == ["HELLO"]
  {
    TokenColon("HELLO");
    assert "HELLO" + ":" == "HELLO:";
  }

  /** Nor is one that stops after the keyword. */
  lemma HelloEndsAtKeyword(ip: string)
    requires ip != [] && ':' !in ip && '\0' !in ip
    ensures ParseHello(ip + ":HELLO") == None
  {
    assert CString(ip + ":HELLO") == ip + ":HELLO";
    assert Tokens(ip + ":HELLO") == [ip, "HELLO"] by {
      assert ip + ":HELLO" == ip + ":" + "HELLO";
      TokenThen(ip, "HELLO");
      TokenLast("HELLO");
    }
  }

  /** The receiver sees the frame as a C string: whatever follows a NUL is never tokenised, so a
      HELLO whose sequence field sits behind one is ignored. */
  lemma HelloCutAtNul(ip: string, t: string)
    requires ip != [] && ':' !in ip && '\0' !in ip
    ensures ParseHello(ip + ":HELLO:" + "\0" + t) == None
  {
    assert ip + ":HELLO:" + "\0" + t == (ip + ":HELLO:") + ("\0" + t);
    CStringAfter(ip + ":HELLO:", "\0" + t);
    assert CString("\0" + t) == [];
    assert ip + ":HELLO:" + [] == ip + ":HELLO:";
    HelloColonTokens(ip);
  }

  lemma ColonFirst(b: string)
    ensures Tokens(":" + b) == Tokens(b)
  {
    assert (":" + b)[1..] == b;
  }

  lemma TokenThen(t: string, rest: string)
    requires t != [] && ':' !in t
    ensures Tokens(t + ":" + rest) == [t] + Tokens(rest)
  {
    TokensAppend(t + ":", rest);
    TokenColon(t);
  }

  /** Empty fields collapse, as `strtok_r` skips runs of delimiters. */
  lemma HelloEmptyFieldsCollapse(ip: string, s: string)
    requires ip != [] && ':' !in ip && '\0' !in ip && s != [] && ':' !in s && '\0' !in s
    ensures ParseHello(":" + ip + "::HELLO:::" + s + ":") == ParseHello(ip + ":HELLO:" + s)
  {
    CollapsedTokens(ip, s);
    assert Tokens(ip + ":HELLO:" + s) == [ip, "HELLO", s] by {
      assert ip + ":HELLO:" + s == ip + ":" + "HELLO" + ":" + s;
      ThreeTokens(ip, "HELLO", s);
    }
    assert CString(ip + ":HELLO:" + s) == ip + ":HELLO:" + s;
  }

  lemma CollapsedTokens(ip: string, s: string)
    requires ip != [] && ':' !in ip && '\0' !in ip && s != [] && ':' !in s && '\0' !in s
    ensures Tokens(CString(":" + ip + "::HELLO:::" + s + ":")) == [ip, "HELLO", s]
  {
    CollapsedShape(ip, s);
    CollapsedNulFree(ip, s);
    CollapsedFields(ip, s);
  }

  lemma CollapsedShape(ip: string, s: string)
    ensures ":" + ip + "::HELLO:::" + s + ":" == ":" + (ip + ":" + (":" + ("HELLO" + ":" + (":" + (":" + (s + ":"))))))
  {
  }

  lemma CollapsedNulFree(ip: string, s: string)
    requires '\0' !in ip && '\0' !in s
    ensures '\0' !in ":" + (ip + ":" + (":" + ("HELLO" + ":" + (":" + (":" + (s + ":"))))))
  {
    var e := s + ":";
    var d := ":" + (":" + e);
    var c := "HELLO" + ":" + d;
    assert '\0' !in e && '\0' !in d && '\0' !in c;
  }

  lemma CollapsedFields(ip: string, s: string)
    requires ip != [] && ':' !in ip && s != [] && ':' !in s
    ensures Tokens(":" + (ip + ":" + (":" + ("HELLO" + ":" + (":" + (":" + (s + ":"))))))) == [ip, "HELLO", s]
  {
    var e := s + ":";
    var d := ":" + (":" + e);
    var c := "HELLO" + ":" + d;
    var a := ip + ":" + (":" + c);
    ColonFirst(a);
    TokenThen(ip, ":" + c);
    ColonFirst(c);
    TokenThen("HELLO", d);
    ColonFirst(":" + e);
    ColonFirst(e);
    TokenColon(s);
  }

  /** The counter after `n` increments from `start`. */
  function SeqAfter(start: UShort, n: nat): UShort
  {
    if n == 0 then start else NextSeq(SeqAfter(start, n - 1))
  }

  /** Incrementing `n` times is adding `n` and wrapping. */
  lemma {:induction false} SeqAfterWraps(start: UShort, n: nat)
    ensures SeqAfter(start, n) == (start + n) % 65536
  {
    if n > 0 {
      var x: nat := start + (n - 1);
      SeqAfterWraps(start, n - 1);
      assert SeqAfter(start, n) == NextSeq(x % 65536);
      WrapStep(x);
      assert x + 1 == start + n;
    }
  }

  /** The HELLOs of `n` successive iterations starting from counter `start`. */
  function HelloFrames(ip: string, start: UShort, n: nat): seq<string>
  {
    if n == 0 then [] else HelloFrames(ip, start, n - 1) + [HelloFrame(ip, SeqAfter(start, n - 1))]
  }

  /** The k-th of those HELLOs carries counter `start + k`, wrapped. */
  lemma {:induction false} HelloFramesAt(ip: string, start: UShort, n: nat)
    ensures |HelloFrames(ip, start, n)| == n
    ensures forall k :: 0 <= k < n ==> HelloFrames(ip, start, n)[k] == HelloFrame(ip, (start + k) % 65536)
  {
    if n > 0 {
      HelloFramesAt(ip, start, n - 1);
      SeqAfterWraps(start, n - 1);
    }
  }

  /** The neighbor table of one node: its own address, the peers it has heard, and its
      outgoing heartbeat counter. */
  class NeighborTable {
    const myIP: string
    var entries: seq<Neighbor>
    var helloSeq: UShort

    /** `neighborInit`'s table part: the address is copied into a 32-byte buffer. */
    constructor (myIp: string)
      ensures myIP == Truncate(myIp, IP_MAX_LEN)
      ensures entries == [] && helloSeq == 0
    {
      myIP := Truncate(myIp, IP_MAX_LEN);
      entries := [];
      helloSeq := 0;
    }

    /** `findNeighbor`: a linear scan from the head. */
    method FindNeighbor(ip: string) returns (k: Option<nat>)
      ensures k == IndexOfIp(entries, ip)
    {
      var i := 0;
      while i < |entries|
        invariant 0 <= i <= |entries|
        invariant forall j :: 0 <= j < i ==> entries[j].ip != ip
      {
        if entries[i].ip == ip {
          return Some(i);
        }
        i := i + 1;
      }
      return None;
    }

    /** `createNeighbor`: insert at the head, heard now. */
    method CreateNeighbor(ip: string, seqNum: UShort, now: int)
      modifies this`entries
      ensures entries == [Neighbor(Truncate(ip, IP_MAX_LEN), seqNum, now)] + old(entries)
    {
      entries := [Neighbor(Truncate(ip, IP_MAX_LEN), seqNum, now)] + entries;
    }

    /** `removeStaleNeighbors`: unlink every entry not heard for more than NEIGHBOR_TIMEOUT_SEC. */
    method RemoveStaleNeighbors(now: int)
      modifies this`entries
      ensures entries == Sweep(old(entries), now)
    {
      var kept := [];
      var i := 0;
      while i < |entries|
        invariant 0 <= i <= |entries|
        invariant kept == Sweep(entries[..i], now)
      {
        var node := entries[i];
        if now - node.lastHeard > NEIGHBOR_TIMEOUT_SEC {
          // stale: unlinked
        } else {
          kept := kept + [node];
        }
        assert entries[..i + 1][..i] == entries[..i];
        i := i + 1;
      }
      assert entries[..i] == entries;
      entries := kept;
    }

    /** `processHELLO`. */
    method ProcessHello(senderIP: string, seqNum: UShort, now: int)
      modifies this`entries
      ensures entries == Heard(old(entries), myIP, senderIP, seqNum, now)
    {
      if senderIP == myIP {
        return;
      }
      var k := FindNeighbor(senderIP);
      match k {
        case None =>
          CreateNeighbor(senderIP, seqNum, now);
        case Some(i) =>
          var e := entries[i];
          if seqNum > e.lastSeq {
            e := e.(lastSeq := seqNum);
          }
          entries := entries[i := e.(lastHeard := now)];
      }
    }

    /** The body of the HELLO receiver loop: tokenise, and hand a HELLO to `processHELLO`. */
    method ReceiveFrame(frame: string, now: int)
      modifies this`entries
      ensures entries == match ParseHello(frame)
        case None => old(entries)
        case Some(h) => Heard(old(entries), myIP, h.0, h.1, now)
    {
      var toks := Tokens(CString(frame));
      if |toks| < 3 {
        return;
      }
      if toks[1] == "HELLO" {
        var seqNum: UShort := Atoi(toks[2]) % 65536;
        ProcessHello(toks[0], seqNum, now);
      }
    }

    /** Build this node's next heartbeat and advance the wrapping counter. */
    method SendHello() returns (frame: string)
      modifies this`helloSeq
      ensures frame == HelloFrame(myIP, old(helloSeq))
      ensures helloSeq == NextSeq(old(helloSeq))
    {
      frame := myIP + ":HELLO:" + Itoa(helloSeq);
      helloSeq := NextSeq(helloSeq);
    }

    /** One iteration of `HelloSenderThread`: send the HELLO, increment the counter, sweep. */
    method HelloRound(now: int) returns (frame: string)
      modifies this`entries, this`helloSeq
      ensures frame == HelloFrame(myIP, old(helloSeq))
      ensures helloSeq == NextSeq(old(helloSeq))
      ensures entries == Sweep(old(entries), now)
    {
      frame := SendHello();
      RemoveStaleNeighbors(now);
    }

    /** `HelloSenderThread` run for one iteration per clock reading in `nows`: the k-th HELLO
        carries the counter after k increments (`HelloFramesAt`: `start + k` wrapped to 16 bits). */
    method HelloSenderThread(nows: seq<int>) returns (sent: seq<string>)
      modifies this`entries, this`helloSeq
      ensures sent == HelloFrames(myIP, old(helloSeq), |nows|)
      ensures helloSeq == SeqAfter(old(helloSeq), |nows|)
      ensures entries == SweepAll(old(entries), nows)
    {
      sent := [];
      ghost var start := helloSeq;
      ghost var entries0 := entries;
      var i := 0;
      while i < |nows|
        invariant 0 <= i <= |nows|
        invariant sent == HelloFrames(myIP, start, i)
        invariant helloSeq == SeqAfter(start, i)
        invariant entries == SweepAll(entries0, nows[..i])
      {
        var frame := HelloRound(nows[i]);
        sent := sent + [frame];
        assert nows[..i + 1][..i] == nows[..i];
        i := i + 1;
      }
      assert nows[..i] == nows;
    }
  }
}
