/**
 * The integration layer (main.c): `parseMessage` dispatches a received frame to the
 * neighbor table or the distance table, and one `SenderThread` iteration sends the
 * HELLO, sweeps stale neighbors and broadcasts the DV while the `updatedDV` flag is set.
 * The socket's state and the outcome of `sendto` are inputs; the clock reading is `now`.
 */
module Router {
  import opened Wrappers
  import opened CStrings
  import opened Neighbors
  import opened Distance

  /** Characters `parseMessage`'s 512-byte copy holds. */
  const MSG_LEN: nat := 511

  /** What `parseMessage` makes of a frame. */
  datatype Frame = HelloFrom(ip: string, seqNum: UShort) | Vector | Ignored

  /** `parseMessage`'s decision on the 512-byte copy of the received C string: the second
      `:`-token selects the handler; a HELLO needs a third token, its sequence number cast to
      `unsigned short`; a DV goes on as the original message. */
  function Classify(msg: string): (r: Frame)
    ensures r.HelloFrom? ==> r.ip != [] && ':' !in r.ip && '\0' !in r.ip
  {
    var toks := Tokens(Truncate(CString(msg), MSG_LEN));
    if |toks| < 2 then Ignored
    else if toks[1] == "HELLO" then
      if |toks| < 3 then Ignored
      else
        assert toks[0] in toks;
        HelloFrom(toks[0], Atoi(toks[2]) % 65536)
    else if toks[1] == "DV" then Vector
    else Ignored
  }

  /** The whole state of one node: its address as the neighbor module holds it, the neighbor
      table, the HELLO counter, the distance table and `updatedDV`. */
  datatype Engine = Engine(myIP: string, neighbors: seq<Neighbor>, helloSeq: UShort, routes: seq<Route>, dirty: bool)

  /** A received frame (`ReceiverThread` then `parseMessage`). */
  function OnReceive(e: Engine, msg: string, now: int): (r: Engine)
    ensures r.myIP == e.myIP && r.helloSeq == e.helloSeq
    ensures e.dirty ==> r.dirty
    ensures !Classify(msg).Vector? ==> r.routes == e.routes && r.dirty == e.dirty
    ensures !Classify(msg).HelloFrom? ==> r.neighbors == e.neighbors
  {
    match Classify(msg)
    case HelloFrom(ip, seqNum) => e.(neighbors := Heard(e.neighbors, e.myIP, ip, seqNum, now))
    case Vector =>
      var m := Merge(e.routes, msg);
      e.(routes := m.routes, dirty := e.dirty || m.changed)
    case Ignored => e
  }

  /** One `SenderThread` iteration, with the frames handed to `sendto` in order: the HELLO, then the
      DV when the flag is set and the socket is open. Only a successful DV send clears the flag. */
  function OnTick(e: Engine, now: int, sockOpen: bool, sendOk: bool): (r: (Engine, seq<string>))
    ensures r.0.myIP == e.myIP && r.0.routes == e.routes
    ensures 1 <= |r.1| <= 2 && r.1[0] == HelloFrame(e.myIP, e.helloSeq)
    ensures !e.dirty ==> !r.0.dirty
  {
    var hello := HelloFrame(e.myIP, e.helloSeq);
    var swept := e.(helloSeq := NextSeq(e.helloSeq), neighbors := Sweep(e.neighbors, now));
    if !e.dirty then (swept, [hello])
    else
      var dvs := if sockOpen then [EncodeDV(MY_IP, e.routes)] else [];
      (swept.(dirty := !(sockOpen && sendOk)), [hello] + dvs)
  }

  datatype Event = Received(msg: string, now: int) | Ticked(now: int, sockOpen: bool, sendOk: bool)

  function Step(e: Engine, ev: Event): Engine
  {
    match ev
    case Received(msg, now) => OnReceive(e, msg, now)
    case Ticked(now, sockOpen, sendOk) => OnTick(e, now, sockOpen, sendOk).0
  }

  /** The state after a run of events, oldest first. */
  function Run(e: Engine, evs: seq<Event>): Engine
  {
    if evs == [] then e else Step(Run(e, evs[..|evs| - 1]), evs[|evs| - 1])
  }

  predicate Delivers(ev: Event)
  {
    ev.Ticked? && ev.sockOpen && ev.sendOk
  }

  // ----- parseMessage -----

  /** On a frame that fits the receive buffer, `parseMessage` sees a HELLO exactly when neighbor.c's
      own receiver does, with the same sender and sequence number. */
  lemma ClassifyAgreesWithHelloReceiver(msg: string)
    requires |msg| <= MSG_LEN
    ensures ParseHello(msg).Some? <==> Classify(msg).HelloFrom?
    ensures ParseHello(msg).Some? ==> ParseHello(msg).value == (Classify(msg).ip, Classify(msg).seqNum)
  {
    assert Truncate(CString(msg), MSG_LEN) == CString(msg);
  }

  /** The node's own HELLO is read back as a HELLO from its address with its counter. */
  lemma OwnHelloClassified(ip: string, seqNum: UShort)
    requires ip != [] && ':' !in ip && '\0' !in ip && |ip| <= IP_MAX_LEN
    ensures Classify(HelloFrame(ip, seqNum)) == HelloFrom(ip, seqNum)
  {
    NatToDecLength(seqNum, 5);
    ClassifyAgreesWithHelloReceiver(HelloFrame(ip, seqNum));
    HelloRoundTrip(ip, seqNum);
  }

  /** Every DV the node broadcasts is dispatched to `processDistanceVector` by a receiver, however
      the 512-byte copy cuts it. */
  lemma OwnVectorClassified(routes: seq<Route>)
    ensures Classify(EncodeDV(MY_IP, routes)) == Vector
  {
    var t := TuplesText(Advertised(routes, FirstDests(routes)));
    var h := MY_IP + ":DV:";
    var msg := EncodeDV(MY_IP, routes);
    assert msg == Truncate(h + t, DV_OUT_LEN) by {
      assert Header(MY_IP) == h;
    }
    var c := CString(t);
    assert CString(msg) == Truncate(h + c, DV_OUT_LEN) by {
      CStringTruncate(h + t, DV_OUT_LEN);
      CStringAfter(h, t);
    }
    var rest := Truncate(c, MSG_LEN - |h|);
    assert Truncate(CString(msg), MSG_LEN) == h + rest by {
      TruncateTwice(h + c, DV_OUT_LEN, MSG_LEN);
      TruncateAfterPrefix(h, c, MSG_LEN);
    }
    FrameTokens(MY_IP, rest);
  }

  /** A frame with fewer than two tokens, or whose second token is neither keyword, is dropped. */
  lemma IgnoredFrames(msg: string)
    requires var toks := Tokens(Truncate(CString(msg), MSG_LEN));
      |toks| < 2 || (toks[1] != "HELLO" && toks[1] != "DV")
    ensures Classify(msg) == Ignored
  {
  }

  /** `parseMessage` reads the frame as a C string: a frame that starts with a NUL is empty and dropped. */
  lemma NulFrameIgnored(t: string)
    ensures Classify("\0" + t) == Ignored
  {
    assert CString("\0" + t) == [];
  }

  // ----- the dirty flag -----

  /** HELLO traffic never touches the distance table or the flag. */
  lemma HelloKeepsRoutes(e: Engine, msg: string, now: int)
    requires Classify(msg).HelloFrom?
    ensures OnReceive(e, msg, now).routes == e.routes
    ensures OnReceive(e, msg, now).dirty == e.dirty
    ensures OnReceive(e, msg, now).neighbors == Heard(e.neighbors, e.myIP, Classify(msg).ip, Classify(msg).seqNum, now)
  {
  }

  /** A dropped frame has no effect at all. */
  lemma IgnoredKeepsState(e: Engine, msg: string, now: int)
    requires Classify(msg) == Ignored
    ensures OnReceive(e, msg, now) == e
  {
  }

  /** Receiving never clears the flag; it is raised exactly by a DV whose merge changed a row. */
  lemma ReceiveRaisesFlag(e: Engine, msg: string, now: int)
    ensures OnReceive(e, msg, now).dirty <==> e.dirty || (Classify(msg).Vector? && Merge(e.routes, msg).changed)
  {
  }

  /** A tick clears the flag exactly when a DV was pending, the socket is open and `sendto` succeeded. */
  lemma TickClearsOnDelivery(e: Engine, now: int, sockOpen: bool, sendOk: bool)
    ensures OnTick(e, now, sockOpen, sendOk).0.dirty == (e.dirty && !(sockOpen && sendOk))
    ensures OnTick(e, now, sockOpen, sendOk).0.routes == e.routes
  {
  }

  /** With the flag down, a tick sends the HELLO alone and leaves the flag down. */
  lemma IdleTick(e: Engine, now: int, sockOpen: bool, sendOk: bool)
    requires !e.dirty
    ensures OnTick(e, now, sockOpen, sendOk).1 == [HelloFrame(e.myIP, e.helloSeq)]
    ensures !OnTick(e, now, sockOpen, sendOk).0.dirty
  {
  }

  /** Every tick sends the HELLO first and advances the counter; with the flag up and the socket
      open the current vector follows it. */
  lemma TickSends(e: Engine, now: int, sockOpen: bool, sendOk: bool)
    ensures var (next, sent) := OnTick(e, now, sockOpen, sendOk);
      && sent != [] && sent[0] == HelloFrame(e.myIP, e.helloSeq)
      && next.helloSeq == NextSeq(e.helloSeq)
      && next.neighbors == Sweep(e.neighbors, now)
      && (|sent| == 2 <==> e.dirty && sockOpen)
      && (|sent| == 2 ==> sent[1] == EncodeDV(MY_IP, e.routes))
  {
  }

  /** A pending DV stays pending until some tick delivers it. */
  lemma {:induction false} DirtyUntilDelivered(e: Engine, evs: seq<Event>)
    requires e.dirty
    requires forall k :: 0 <= k < |evs| ==> !Delivers(evs[k])
    ensures Run(e, evs).dirty
  {
    if evs != [] {
      var init := evs[..|evs| - 1];
      assert forall k :: 0 <= k < |init| ==> init[k] == evs[k];
      DirtyUntilDelivered(e, init);
      match evs[|evs| - 1]
      case Received(msg, now) => ReceiveRaisesFlag(Run(e, init), msg, now);
      case Ticked(now, sockOpen, sendOk) => TickClearsOnDelivery(Run(e, init), now, sockOpen, sendOk);
    }
  }

  /** An idle node stays idle while it receives no DV frame at all: HELLOs, dropped frames and ticks
      alone never change its table or make it broadcast a DV. */
  lemma {:induction false} IdleWhileQuiet(e: Engine, evs: seq<Event>)
    requires !e.dirty
    requires forall k :: 0 <= k < |evs| ==> evs[k].Ticked? || !Classify(evs[k].msg).Vector?
    ensures !Run(e, evs).dirty
    ensures Run(e, evs).routes == e.routes
  {
    if evs != [] {
      var init := evs[..|evs| - 1];
      assert forall k :: 0 <= k < |init| ==> init[k] == evs[k];
      IdleWhileQuiet(e, init);
    }
  }

  /** The node: main.c's view of the two modules, sharing one clock and one socket. */
  class Router {
    const neighbors: NeighborTable
    const table: RouteTable

    ghost predicate Valid()
      reads this, table
    {
      table.Valid()
    }

    ghost function State(): Engine
      reads this, neighbors, table
    {
      Engine(neighbors.myIP, neighbors.entries, neighbors.helloSeq, table.routes, table.updatedDV)
    }

    /** `neighborInit(myIp)` with an empty distance table. */
    constructor (myIp: string)
      ensures Valid() && fresh(neighbors) && fresh(table)
      ensures State() == Engine(Truncate(myIp, IP_MAX_LEN), [], 0, [], false)
    {
      neighbors := new NeighborTable(myIp);
      table := new RouteTable();
    }

    /** `parseMessage`. */
    method ParseMessage(msg: string, now: int)
      requires Valid()
      modifies neighbors`entries, table`routes, table`updatedDV
      ensures Valid()
      ensures State() == OnReceive(old(State()), msg, now)
    {
      var buf := Truncate(CString(msg), MSG_LEN);
      var toks := Tokens(buf);
      if |toks| < 2 {
        return;
      }
      if toks[1] == "HELLO" {
        if |toks| < 3 {
          return;
        }
        var seqVal := Atoi(toks[2]) % 65536;
        neighbors.ProcessHello(toks[0], seqVal, now);
      } else if toks[1] == "DV" {
        table.ProcessDistanceVector(msg);
      }
    }

    /** `broadcastDV`: the frame goes out only on an open socket, and `dvSent` runs only after a
        successful `sendto`. */
    method BroadcastDV(sockOpen: bool, sendOk: bool) returns (sent: seq<string>)
      requires Valid() && |FirstDests(table.routes)| <= MAX_DESTS
      modifies table`updatedDV
      ensures sent == if sockOpen then [EncodeDV(MY_IP, table.routes)] else []
      ensures table.updatedDV == (old(table.updatedDV) && !(sockOpen && sendOk))
    {
      var dvStr := table.GetDistanceVector();
      if !sockOpen {
        return [];
      }
      sent := [dvStr];
      if sendOk {
        table.DvSent();
      }
    }

    /** One `SenderThread` iteration. */
    method SenderTick(now: int, sockOpen: bool, sendOk: bool) returns (sent: seq<string>)
      requires Valid()
      requires table.updatedDV ==> |FirstDests(table.routes)| <= MAX_DESTS
      modifies neighbors`entries, neighbors`helloSeq, table`updatedDV
      ensures Valid()
      ensures (State(), sent) == OnTick(old(State()), now, sockOpen, sendOk)
    {
      var hello := neighbors.SendHello();
      neighbors.RemoveStaleNeighbors(now);
      sent := [hello];
      if table.updatedDV {
        var dvs := BroadcastDV(sockOpen, sendOk);
        sent := sent + dvs;
      }
    }
  }
}
