/**
 * The distance table and distance-vector codec (distance.c).
 *
 * The C list `g_routes` of candidate routes is the sequence `routes`, head first;
 * `createRoute` prepends. A route is keyed by (destination, next hop); the cost
 * advertised by a sender is relaxed to cost + 1 via that sender. `updatedDV` is the
 * dirty flag, a boolean here (the C code only ever stores 0 or 1 in it).
 */
module Distance {
  import opened Wrappers
  import opened CStrings

  /** The "no route" sentinel of `findBestDistance`. */
  const UNREACHABLE: int := 999999
  /** `char usedDest[100][32]`. */
  const MAX_DESTS: nat := 100
  /** Characters a 2048-byte `dvBuf` holds. */
  const DV_OUT_LEN: nat := 2047
  /** Characters `processDistanceVector`'s 1024-byte copy holds. */
  const DV_IN_LEN: nat := 1023
  /** Characters the 128-byte `inside` copy of one tuple holds. */
  const TUPLE_IN_LEN: nat := 127
  /** `g_myIP` of distance.c: initialised to this and never assigned. */
  const MY_IP: string := "0.0.0.0"

  datatype Route = Route(destIP: string, viaNeighbor: string, distance: int)

  /** The router's view of one decoded DV, or of one merge: the table and whether it changed. */
  datatype Merged = Merged(routes: seq<Route>, changed: bool)

  predicate Keyed(r: Route, dest: string, via: string)
  {
    r.destIP == dest && r.viaNeighbor == via
  }

  /** Every stored name went through `strncpy` into a 32-byte buffer. */
  ghost predicate NamesStored(routes: seq<Route>)
  {
    forall i :: 0 <= i < |routes| ==> |routes[i].destIP| <= IP_MAX_LEN && |routes[i].viaNeighbor| <= IP_MAX_LEN
  }

  /** At most one row per (destination, next hop). */
  ghost predicate UniqueKeys(routes: seq<Route>)
  {
    forall i, j :: 0 <= i < j < |routes| ==> !Keyed(routes[j], routes[i].destIP, routes[i].viaNeighbor)
  }

  /** `findRoute`: the first row with key (dest, via). */
  function RouteIndex(routes: seq<Route>, dest: string, via: string): (k: Option<nat>)
    ensures k.Some? ==> k.value < |routes| && Keyed(routes[k.value], dest, via)
    ensures k.Some? ==> forall i :: 0 <= i < k.value ==> !Keyed(routes[i], dest, via)
    ensures k.None? ==> forall i :: 0 <= i < |routes| ==> !Keyed(routes[i], dest, via)
  {
    if routes == [] then None
    else if Keyed(routes[0], dest, via) then Some(0)
    else match RouteIndex(routes[1..], dest, via)
      case None => None
      case Some(j) => Some(j + 1)
  }

  /** The distance of the row `findRoute` finds. */
  function Lookup(routes: seq<Route>, dest: string, via: string): Option<int>
  {
    match RouteIndex(routes, dest, via)
    case None => None
    case Some(k) => Some(routes[k].distance)
  }

  /** `findBestDistance`: the least distance over rows for `dest`, capped by the sentinel. */
  function BestDistance(routes: seq<Route>, dest: string): (best: int)
    ensures best <= UNREACHABLE
    ensures forall i :: 0 <= i < |routes| && routes[i].destIP == dest ==> best <= routes[i].distance
    ensures best == UNREACHABLE || exists i :: 0 <= i < |routes| && routes[i].destIP == dest && routes[i].distance == best
  {
    if routes == [] then UNREACHABLE
    else
      var r := routes[|routes| - 1];
      var b := BestDistance(routes[..|routes| - 1], dest);
      if r.destIP == dest && r.distance < b then r.distance else b
  }

  /** The distinct destinations of the table, in order of first occurrence from the head. */
  function FirstDests(routes: seq<Route>): seq<string>
  {
    if routes == [] then []
    else
      var ds := FirstDests(routes[..|routes| - 1]);
      var d := routes[|routes| - 1].destIP;
      if d in ds then ds else ds + [d]
  }

  /** The (destination, best) pairs advertised for the destinations `ds`: unreachable ones are skipped. */
  function Advertised(routes: seq<Route>, ds: seq<string>): seq<(string, int)>
  {
    if ds == [] then []
    else
      var ps := Advertised(routes, ds[..|ds| - 1]);
      var d := ds[|ds| - 1];
      var b := BestDistance(routes, d);
      if b < UNREACHABLE then ps + [(d, b)] else ps
  }

  /** The tuple token `(dest,dist)` as it stands between delimiters. */
  function TupleToken(p: (string, int)): string
  {
    "(" + p.0 + "," + Itoa(p.1) + ")"
  }

  /** `snprintf(tuple, ..., "(%s,%d):", dest, best)`. */
  function TupleText(p: (string, int)): string
  {
    TupleToken(p) + ":"
  }

  function TuplesText(ps: seq<(string, int)>): (s: string)
    ensures s == [] || s[|s| - 1] == ':'
  {
    if ps == [] then [] else TuplesText(ps[..|ps| - 1]) + TupleText(ps[|ps| - 1])
  }

  /** The text of the header `snprintf(dvBuf, 2047, "%s:DV:", ip)`. */
  function Header(ip: string): string
  {
    Truncate(ip + ":DV:", DV_OUT_LEN - 1)
  }

  /** The bounded buffer after the tuples for destinations `ds` were appended to the header. */
  function Encoded(ip: string, routes: seq<Route>, ds: seq<string>): string
  {
    Truncate(Header(ip) + TuplesText(Advertised(routes, ds)), DV_OUT_LEN)
  }

  /** `getDistanceVector` for a node whose `g_myIP` is `ip`. */
  function EncodeDV(ip: string, routes: seq<Route>): string
  {
    Encoded(ip, routes, FirstDests(routes))
  }

  /** One tuple of `processDistanceVector`: it must start with '(', is copied into a
      128-byte buffer, cut at the first ')', and split at the first ','. */
  function ParseTuple(tok: string): (r: Option<(string, int)>)
    ensures r.Some? ==> tok != [] && tok[0] == '('
    ensures r.Some? ==> ',' !in r.value.0 && ')' !in r.value.0 && |r.value.0| < TUPLE_IN_LEN
  {
    if tok == [] || tok[0] != '(' then None
    else
      var copied := Truncate(tok[1..], TUPLE_IN_LEN);
      var inside := copied[..IndexOf(copied, ')')];
      var comma := IndexOf(inside, ',');
      if comma == |inside| then None
      else Some((inside[..comma], Atoi(inside[comma + 1..])))
  }

  /** The well-formed tuples among `toks`, in order; malformed ones are skipped. */
  function ParseTuples(toks: seq<string>): seq<(string, int)>
  {
    if toks == [] then []
    else
      var ps := ParseTuples(toks[..|toks| - 1]);
      match ParseTuple(toks[|toks| - 1])
      case None => ps
      case Some(p) => ps + [p]
  }

  /** The sender and the tuples of a DV frame, read from the 1024-byte copy of the received
      C string, or None when the frame is not one. */
  function ParseDV(dv: string): (r: Option<(string, seq<(string, int)>)>)
    ensures r.Some? ==> r.value.0 != [] && ':' !in r.value.0 && '\0' !in r.value.0
  {
    var toks := Tokens(Truncate(CString(dv), DV_IN_LEN));
    if |toks| < 2 || toks[1] != "DV" then None
    else
      assert toks[0] in toks;
      Some((toks[0], ParseTuples(toks[2..])))
  }

  /** One relaxation step: the (dest, sender) row gets cost + 1, created if absent. */
  function Relax(routes: seq<Route>, sender: string, p: (string, int)): Merged
  {
    var newDist := p.1 + 1;
    match RouteIndex(routes, p.0, sender)
    case None => Merged([Route(Truncate(p.0, IP_MAX_LEN), Truncate(sender, IP_MAX_LEN), newDist)] + routes, true)
    case Some(k) =>
      if routes[k].distance != newDist then Merged(routes[k := routes[k].(distance := newDist)], true)
      else Merged(routes, false)
  }

  /** The relaxation of every pair, in order; `changed` records whether any step changed a row. */
  function RelaxAll(routes: seq<Route>, sender: string, ps: seq<(string, int)>): Merged
  {
    if ps == [] then Merged(routes, false)
    else
      var m := RelaxAll(routes, sender, ps[..|ps| - 1]);
      var last := Relax(m.routes, sender, ps[|ps| - 1]);
      Merged(last.routes, m.changed || last.changed)
  }

  /** `processDistanceVector` on the table: anything that is not a DV frame changes nothing. */
  function Merge(routes: seq<Route>, dv: string): Merged
  {
    match ParseDV(dv)
    case None => Merged(routes, false)
    case Some(v) => RelaxAll(routes, v.0, v.1)
  }

  lemma RelaxAllSnoc(routes: seq<Route>, sender: string, ps: seq<(string, int)>, p: (string, int))
    ensures RelaxAll(routes, sender, ps + [p]) ==
      var m := RelaxAll(routes, sender, ps);
      var last := Relax(m.routes, sender, p);
      Merged(last.routes, m.changed || last.changed)
  {
    assert (ps + [p])[..|ps|] == ps;
  }

  lemma ParseTuplesStep(toks: seq<string>, k: nat, parsed: Option<(string, int)>)
    requires k < |toks| && parsed == ParseTuple(toks[k])
    ensures parsed.None? ==> ParseTuples(toks[..k + 1]) == ParseTuples(toks[..k])
    ensures parsed.Some? ==> ParseTuples(toks[..k + 1]) == ParseTuples(toks[..k]) + [parsed.value]
  {
    assert toks[..k + 1] == toks[..k] + [toks[k]];
    ParseTuplesSnoc(toks[..k], toks[k]);
  }

  lemma RelaxAllStep(routes: seq<Route>, sender: string, ps: seq<(string, int)>, p: (string, int), m: Merged)
    requires m == RelaxAll(routes, sender, ps)
    ensures RelaxAll(routes, sender, ps + [p]).routes == Relax(m.routes, sender, p).routes
    ensures RelaxAll(routes, sender, ps + [p]).changed == (m.changed || Relax(m.routes, sender, p).changed)
  {
    RelaxAllSnoc(routes, sender, ps, p);
  }

  /** `Merge` in terms of the tokens of the 1024-byte copy. */
  lemma MergeByTokens(routes: seq<Route>, dv: string, toks: seq<string>)
    requires toks == Tokens(Truncate(CString(dv), DV_IN_LEN))
    ensures |toks| < 2 || toks[1] != "DV" ==> Merge(routes, dv) == Merged(routes, false)
    ensures |toks| >= 2 && toks[1] == "DV" ==> Merge(routes, dv) == RelaxAll(routes, toks[0], ParseTuples(toks[2..]))
  {
  }

  /** Addresses short enough that `strncpy` keeps them whole. */
  predicate Fits(sender: string, ps: seq<(string, int)>)
  {
    |sender| <= IP_MAX_LEN && forall j :: 0 <= j < |ps| ==> |ps[j].0| <= IP_MAX_LEN
  }

  /** No destination occurs twice among the pairs. */
  predicate DistinctDests(ps: seq<(string, int)>)
  {
    forall i, j :: 0 <= i < j < |ps| ==> ps[i].0 != ps[j].0
  }

  // ----- findRoute -----

  lemma RouteIndexSameKeys(a: seq<Route>, b: seq<Route>, dest: string, via: string)
    requires |a| == |b|
    requires forall i :: 0 <= i < |a| ==> a[i].destIP == b[i].destIP && a[i].viaNeighbor == b[i].viaNeighbor
    ensures RouteIndex(a, dest, via) == RouteIndex(b, dest, via)
  {
    var ka, kb := RouteIndex(a, dest, via), RouteIndex(b, dest, via);
    if ka.Some? && kb.Some? {
      assert Keyed(a[kb.value], dest, via);
      assert Keyed(b[ka.value], dest, via);
    } else if ka.Some? {
      assert Keyed(b[ka.value], dest, via);
    } else if kb.Some? {
      assert Keyed(a[kb.value], dest, via);
    }
  }

  lemma RouteIndexCons(r: Route, routes: seq<Route>, dest: string, via: string)
    requires !Keyed(r, dest, via)
    ensures RouteIndex([r] + routes, dest, via) ==
      match RouteIndex(routes, dest, via) case None => None case Some(j) => Some(j + 1)
  {
    assert ([r] + routes)[1..] == routes;
  }

  // ----- one relaxation -----

  /** After relaxing (d, c), the (d, sender) row holds c + 1. */
  lemma RelaxSets(routes: seq<Route>, sender: string, p: (string, int))
    requires |sender| <= IP_MAX_LEN && |p.0| <= IP_MAX_LEN
    ensures Lookup(Relax(routes, sender, p).routes, p.0, sender) == Some(p.1 + 1)
  {
    var m := Relax(routes, sender, p);
    match RouteIndex(routes, p.0, sender)
    case None =>
      assert Keyed(m.routes[0], p.0, sender);
    case Some(k) =>
      RouteIndexSameKeys(m.routes, routes, p.0, sender);
  }

  /** Relaxing (d, c) leaves every other key's route as it was. */
  lemma RelaxOther(routes: seq<Route>, sender: string, p: (string, int), dest: string, via: string)
    requires |sender| <= IP_MAX_LEN && |p.0| <= IP_MAX_LEN
    requires dest != p.0 || via != sender
    ensures Lookup(Relax(routes, sender, p).routes, dest, via) == Lookup(routes, dest, via)
  {
    var m := Relax(routes, sender, p);
    match RouteIndex(routes, p.0, sender)
    case None =>
      RouteIndexCons(m.routes[0], routes, dest, via);
      assert m.routes == [m.routes[0]] + routes;
    case Some(k) =>
      RouteIndexSameKeys(m.routes, routes, dest, via);
  }

  // ----- a whole vector -----

  /** For each tuple whose destination does not occur later in the frame, the
      (dest, sender) row ends up at cost + 1: with repeated destinations the last one wins. */
  lemma {:induction false} RelaxAllLastWins(routes: seq<Route>, sender: string, ps: seq<(string, int)>, j: nat)
    requires Fits(sender, ps)
    requires j < |ps|
    requires forall k :: j < k < |ps| ==> ps[k].0 != ps[j].0
    ensures Lookup(RelaxAll(routes, sender, ps).routes, ps[j].0, sender) == Some(ps[j].1 + 1)
  {
    var init := ps[..|ps| - 1];
    var m := RelaxAll(routes, sender, init);
    if j == |ps| - 1 {
      RelaxSets(m.routes, sender, ps[j]);
    } else {
      assert init[j] == ps[j];
      RelaxAllLastWins(routes, sender, init, j);
      RelaxOther(m.routes, sender, ps[|ps| - 1], ps[j].0, sender);
    }
  }

  /** Keys that no tuple names are left alone. */
  lemma {:induction false} RelaxAllFrame(routes: seq<Route>, sender: string, ps: seq<(string, int)>, dest: string, via: string)
    requires Fits(sender, ps)
    requires via != sender || forall k :: 0 <= k < |ps| ==> ps[k].0 != dest
    ensures Lookup(RelaxAll(routes, sender, ps).routes, dest, via) == Lookup(routes, dest, via)
  {
    if ps != [] {
      var init := ps[..|ps| - 1];
      RelaxAllFrame(routes, sender, init, dest, via);
      RelaxOther(RelaxAll(routes, sender, init).routes, sender, ps[|ps| - 1], dest, via);
    }
  }

  /** A vector every tuple of which the table already agrees with is a no-op and does not dirty the table. */
  lemma {:induction false} RelaxAllNoop(routes: seq<Route>, sender: string, ps: seq<(string, int)>)
    requires forall k :: 0 <= k < |ps| ==> Lookup(routes, ps[k].0, sender) == Some(ps[k].1 + 1)
    ensures RelaxAll(routes, sender, ps) == Merged(routes, false)
  {
    if ps != [] {
      var init := ps[..|ps| - 1];
      RelaxAllNoop(routes, sender, init);
    }
  }

  /** No change is ever made without raising `changed`. */
  lemma {:induction false} RelaxAllUnflaggedIsUnchanged(routes: seq<Route>, sender: string, ps: seq<(string, int)>)
    ensures !RelaxAll(routes, sender, ps).changed ==> RelaxAll(routes, sender, ps).routes == routes
  {
    if ps != [] {
      RelaxAllUnflaggedIsUnchanged(routes, sender, ps[..|ps| - 1]);
    }
  }

  /** Processing the same vector twice: the second pass changes nothing and does not dirty the table
      (destinations distinct within the frame, names that fit their buffers). */
  lemma RelaxAllIdempotent(routes: seq<Route>, sender: string, ps: seq<(string, int)>)
    requires Fits(sender, ps) && DistinctDests(ps)
    ensures var m := RelaxAll(routes, sender, ps);
      RelaxAll(m.routes, sender, ps) == Merged(m.routes, false)
  {
    var m := RelaxAll(routes, sender, ps);
    forall k | 0 <= k < |ps| ensures Lookup(m.routes, ps[k].0, sender) == Some(ps[k].1 + 1) {
      RelaxAllLastWins(routes, sender, ps, k);
    }
    RelaxAllNoop(m.routes, sender, ps);
  }

  /** The dirty signal is raised exactly when some tuple disagreed with the table, which for a frame
      with distinct destinations is exactly when the table changed. */
  lemma RelaxAllChangedIff(routes: seq<Route>, sender: string, ps: seq<(string, int)>)
    requires Fits(sender, ps) && DistinctDests(ps)
    ensures var m := RelaxAll(routes, sender, ps);
      && (m.changed <==> exists k :: 0 <= k < |ps| && Lookup(routes, ps[k].0, sender) != Some(ps[k].1 + 1))
      && (m.changed <==> m.routes != routes)
  {
    var m := RelaxAll(routes, sender, ps);
    forall k | 0 <= k < |ps| ensures Lookup(m.routes, ps[k].0, sender) == Some(ps[k].1 + 1) {
      RelaxAllLastWins(routes, sender, ps, k);
    }
    RelaxAllUnflaggedIsUnchanged(routes, sender, ps);
    if forall k :: 0 <= k < |ps| ==> Lookup(routes, ps[k].0, sender) == Some(ps[k].1 + 1) {
      RelaxAllNoop(routes, sender, ps);
    }
  }

  /** With a destination repeated in one frame the flag can go up although the table ends as it was:
      the flag records that some step changed a row, not that the final table differs. */
  lemma RepeatedDestFlagsWithoutNetChange()
    ensures var routes := [Route("10.0.0.2", "10.0.0.9", 2)];
      var m := RelaxAll(routes, "10.0.0.9", [("10.0.0.2", 4), ("10.0.0.2", 1)]);
      m.changed && m.routes == routes
  {
    var routes := [Route("10.0.0.2", "10.0.0.9", 2)];
    var ps := [("10.0.0.2", 4), ("10.0.0.2", 1)];
    assert ps[..1] == [("10.0.0.2", 4)];
    assert [("10.0.0.2", 4)][..0] == [];
    assert Keyed(routes[0], "10.0.0.2", "10.0.0.9");
    var first := RelaxAll(routes, "10.0.0.9", ps[..1]);
    assert first.routes == [Route("10.0.0.2", "10.0.0.9", 5)] && first.changed;
    assert Keyed(first.routes[0], "10.0.0.2", "10.0.0.9");
  }

  /** A sender address longer than a stored name is never found again: each of its tuples adds a
      row and raises the flag, however often the same vector repeats. */
  lemma LongSenderNeverSettles(routes: seq<Route>, sender: string, p: (string, int))
    requires NamesStored(routes) && |sender| > IP_MAX_LEN
    ensures Relax(routes, sender, p).changed
    ensures |Relax(routes, sender, p).routes| == |routes| + 1
    ensures NamesStored(Relax(routes, sender, p).routes)
  {
    forall i | 0 <= i < |routes| ensures !Keyed(routes[i], p.0, sender) {
      assert |routes[i].viaNeighbor| <= IP_MAX_LEN;
    }
  }

  /** Relaxing keeps at most one row per key, for names that fit their buffers. */
  lemma RelaxKeepsUnique(routes: seq<Route>, sender: string, p: (string, int))
    requires UniqueKeys(routes)
    requires |sender| <= IP_MAX_LEN && |p.0| <= IP_MAX_LEN
    ensures UniqueKeys(Relax(routes, sender, p).routes)
  {
    var m := Relax(routes, sender, p);
    if RouteIndex(routes, p.0, sender).None? {
      forall i, j | 0 <= i < j < |m.routes|
        ensures !Keyed(m.routes[j], m.routes[i].destIP, m.routes[i].viaNeighbor)
      {
        assert m.routes[j] == routes[j - 1];
        if i > 0 {
          assert m.routes[i] == routes[i - 1];
        }
      }
    }
  }

  lemma {:induction false} RelaxAllKeepsUnique(routes: seq<Route>, sender: string, ps: seq<(string, int)>)
    requires UniqueKeys(routes) && Fits(sender, ps)
    ensures UniqueKeys(RelaxAll(routes, sender, ps).routes)
  {
    if ps != [] {
      var init := ps[..|ps| - 1];
      RelaxAllKeepsUnique(routes, sender, init);
      RelaxKeepsUnique(RelaxAll(routes, sender, init).routes, sender, ps[|ps| - 1]);
    }
  }

  /** How a merge changes the rows: nothing is deleted, old rows keep their keys and order behind
      the new rows, a row changes distance only when it is keyed (d, sender) for a d of the frame
      and then holds that tuple's cost + 1, and every new row is keyed by the (stored) sender and a
      (stored) destination of the frame and holds that tuple's cost + 1. */
  ghost predicate GrowsBy(before: seq<Route>, after: seq<Route>, sender: string, ps: seq<(string, int)>)
  {
    && |before| <= |after|
    && (forall i :: 0 <= i < |after| - |before| ==>
          after[i].viaNeighbor == Truncate(sender, IP_MAX_LEN)
          && exists k :: 0 <= k < |ps| && after[i].destIP == Truncate(ps[k].0, IP_MAX_LEN)
                         && after[i].distance == ps[k].1 + 1)
    && (forall i :: 0 <= i < |before| ==>
          var r := after[|after| - |before| + i];
          && r.destIP == before[i].destIP && r.viaNeighbor == before[i].viaNeighbor
          && (r.distance != before[i].distance ==>
                before[i].viaNeighbor == sender
                && exists k :: 0 <= k < |ps| && ps[k].0 == before[i].destIP && r.distance == ps[k].1 + 1))
  }

  lemma RelaxGrows(routes: seq<Route>, sender: string, p: (string, int))
    ensures GrowsBy(routes, Relax(routes, sender, p).routes, sender, [p])
  {
    var a := Relax(routes, sender, p).routes;
    var one := [p];
    if RouteIndex(routes, p.0, sender).None? {
      assert a == [Route(Truncate(p.0, IP_MAX_LEN), Truncate(sender, IP_MAX_LEN), p.1 + 1)] + routes;
      forall i | 0 <= i < |a| - |routes|
        ensures a[i].viaNeighbor == Truncate(sender, IP_MAX_LEN)
        ensures exists k :: 0 <= k < |one| && a[i].destIP == Truncate(one[k].0, IP_MAX_LEN)
                            && a[i].distance == one[k].1 + 1
      {
        assert a[0].destIP == Truncate(one[0].0, IP_MAX_LEN) && a[0].distance == one[0].1 + 1;
      }
      forall i | 0 <= i < |routes| ensures a[|a| - |routes| + i] == routes[i] {
        assert a[1 + i] == routes[i];
      }
    } else {
      var k := RouteIndex(routes, p.0, sender).value;
      assert |a| == |routes|;
      forall i | 0 <= i < |routes|
        ensures a[i].destIP == routes[i].destIP && a[i].viaNeighbor == routes[i].viaNeighbor
        ensures a[i].distance != routes[i].distance ==>
          routes[i].viaNeighbor == sender
          && exists j :: 0 <= j < |one| && one[j].0 == routes[i].destIP && a[i].distance == one[j].1 + 1
      {
        if i == k {
          assert one[0].0 == routes[i].destIP;
        } else {
          assert a[i] == routes[i];
        }
      }
    }
  }

  /** The rows the first steps created, as the last step leaves them. */
  lemma GrowsTransNew(a: seq<Route>, b: seq<Route>, c: seq<Route>, sender: string, ps: seq<(string, int)>, i: nat)
    requires ps != []
    requires GrowsBy(a, b, sender, ps[..|ps| - 1])
    requires GrowsBy(b, c, sender, [ps[|ps| - 1]])
    requires i < |c| - |a|
    ensures c[i].viaNeighbor == Truncate(sender, IP_MAX_LEN)
    ensures exists k :: 0 <= k < |ps| && c[i].destIP == Truncate(ps[k].0, IP_MAX_LEN) && c[i].distance == ps[k].1 + 1
  {
    var init, last := ps[..|ps| - 1], [ps[|ps| - 1]];
    var nc := |c| - |b|;
    if i < nc {
      assert c[i].destIP == Truncate(last[0].0, IP_MAX_LEN) && c[i].distance == last[0].1 + 1;
    } else {
      var j := i - nc;
      assert j < |b| - |a|;
      assert c[nc + j].destIP == b[j].destIP && c[nc + j].viaNeighbor == b[j].viaNeighbor;
      assert b[j].viaNeighbor == Truncate(sender, IP_MAX_LEN);
      var k :| 0 <= k < |init| && b[j].destIP == Truncate(init[k].0, IP_MAX_LEN) && b[j].distance == init[k].1 + 1;
      assert init[k] == ps[k];
      if c[i].distance != b[j].distance {
        assert last[0].0 == b[j].destIP && c[i].distance == last[0].1 + 1;
        assert |b[j].destIP| <= IP_MAX_LEN;
        assert Truncate(last[0].0, IP_MAX_LEN) == last[0].0;
        assert c[i].destIP == Truncate(ps[|ps| - 1].0, IP_MAX_LEN);
      }
    }
  }

  /** The rows that were there before, as the last step leaves them. */
  lemma GrowsTransOld(a: seq<Route>, b: seq<Route>, c: seq<Route>, sender: string, ps: seq<(string, int)>, i: nat)
    requires ps != []
    requires GrowsBy(a, b, sender, ps[..|ps| - 1])
    requires GrowsBy(b, c, sender, [ps[|ps| - 1]])
    requires i < |a|
    ensures c[|c| - |a| + i].destIP == a[i].destIP && c[|c| - |a| + i].viaNeighbor == a[i].viaNeighbor
    ensures c[|c| - |a| + i].distance != a[i].distance ==>
      a[i].viaNeighbor == sender
      && exists k :: 0 <= k < |ps| && ps[k].0 == a[i].destIP && c[|c| - |a| + i].distance == ps[k].1 + 1
  {
    var init, last := ps[..|ps| - 1], [ps[|ps| - 1]];
    var nb, nc := |b| - |a|, |c| - |b|;
    var mid := b[nb + i];
    assert c[|c| - |a| + i] == c[nc + (nb + i)];
    var r := c[nc + (nb + i)];
    if r.distance != a[i].distance {
      if r.distance != mid.distance {
        assert last[0] == ps[|ps| - 1];
      } else {
        var k :| 0 <= k < |init| && init[k].0 == a[i].destIP && mid.distance == init[k].1 + 1;
        assert init[k] == ps[k];
      }
    }
  }

  lemma GrowsTrans(a: seq<Route>, b: seq<Route>, c: seq<Route>, sender: string, ps: seq<(string, int)>)
    requires ps != []
    requires GrowsBy(a, b, sender, ps[..|ps| - 1])
    requires GrowsBy(b, c, sender, [ps[|ps| - 1]])
    ensures GrowsBy(a, c, sender, ps)
  {
    forall i | 0 <= i < |c| - |a|
      ensures c[i].viaNeighbor == Truncate(sender, IP_MAX_LEN)
      ensures exists k :: 0 <= k < |ps| && c[i].destIP == Truncate(ps[k].0, IP_MAX_LEN) && c[i].distance == ps[k].1 + 1
    {
      GrowsTransNew(a, b, c, sender, ps, i);
    }
    forall i | 0 <= i < |a|
      ensures var r := c[|c| - |a| + i];
        && r.destIP == a[i].destIP && r.viaNeighbor == a[i].viaNeighbor
        && (r.distance != a[i].distance ==>
              a[i].viaNeighbor == sender && exists k :: 0 <= k < |ps| && ps[k].0 == a[i].destIP && r.distance == ps[k].1 + 1)
    {
      GrowsTransOld(a, b, c, sender, ps, i);
    }
  }

  lemma {:induction false} RelaxAllGrows(routes: seq<Route>, sender: string, ps: seq<(string, int)>)
    ensures GrowsBy(routes, RelaxAll(routes, sender, ps).routes, sender, ps)
  {
    if ps != [] {
      var init := ps[..|ps| - 1];
      var m := RelaxAll(routes, sender, init);
      RelaxAllGrows(routes, sender, init);
      RelaxGrows(m.routes, sender, ps[|ps| - 1]);
      GrowsTrans(routes, m.routes, RelaxAll(routes, sender, ps).routes, sender, ps);
    }
  }

  /** `processDistanceVector` as a whole: a frame that is not a DV changes nothing; otherwise the table
      grows by the sender's tuples only, and it is left as it was whenever the flag stays down. */
  lemma MergeSpec(routes: seq<Route>, dv: string)
    ensures ParseDV(dv).None? ==> Merge(routes, dv) == Merged(routes, false)
    ensures ParseDV(dv).Some? ==> GrowsBy(routes, Merge(routes, dv).routes, ParseDV(dv).value.0, ParseDV(dv).value.1)
    ensures !Merge(routes, dv).changed ==> Merge(routes, dv).routes == routes
  {
    match ParseDV(dv)
    case None =>
    case Some(v) =>
      RelaxAllGrows(routes, v.0, v.1);
      RelaxAllUnflaggedIsUnchanged(routes, v.0, v.1);
  }

  /** Every new row's names went through `strncpy`. */
  lemma {:induction false} RelaxAllStored(routes: seq<Route>, sender: string, ps: seq<(string, int)>)
    requires NamesStored(routes)
    ensures NamesStored(RelaxAll(routes, sender, ps).routes)
  {
    if ps != [] {
      RelaxAllStored(routes, sender, ps[..|ps| - 1]);
    }
  }

  /** After a merge the best cost to a destination of the frame is at most its advertised cost + 1. */
  lemma RelaxAllBoundsBest(routes: seq<Route>, sender: string, ps: seq<(string, int)>, j: nat)
    requires Fits(sender, ps)
    requires j < |ps|
    requires forall k :: j < k < |ps| ==> ps[k].0 != ps[j].0
    ensures BestDistance(RelaxAll(routes, sender, ps).routes, ps[j].0) <= ps[j].1 + 1
  {
    var m := RelaxAll(routes, sender, ps);
    RelaxAllLastWins(routes, sender, ps, j);
    var k := RouteIndex(m.routes, ps[j].0, sender).value;
    assert m.routes[k].destIP == ps[j].0;
  }

  // ----- getDistanceVector -----

  lemma {:induction false} FirstDestsPrefix(routes: seq<Route>, i: nat)
    requires i <= |routes|
    ensures |FirstDests(routes[..i])| <= |FirstDests(routes)|
    decreases |routes| - i
  {
    if i < |routes| {
      FirstDestsPrefix(routes, i + 1);
      assert routes[..i + 1][..i] == routes[..i];
    } else {
      assert routes[..i] == routes;
    }
  }

  /** Each destination of the table is listed, exactly once. */
  lemma {:induction false} FirstDestsSpec(routes: seq<Route>)
    ensures forall i, j :: 0 <= i < j < |FirstDests(routes)| ==> FirstDests(routes)[i] != FirstDests(routes)[j]
    ensures forall d :: d in FirstDests(routes) <==> exists i :: 0 <= i < |routes| && routes[i].destIP == d
  {
    if routes != [] {
      var init := routes[..|routes| - 1];
      var last := routes[|routes| - 1].destIP;
      FirstDestsSpec(init);
      var ds0 := FirstDests(init);
      var ds := FirstDests(routes);
      assert ds == if last in ds0 then ds0 else ds0 + [last];
      forall d ensures d in ds <==> exists i :: 0 <= i < |routes| && routes[i].destIP == d {
        if d in ds0 {
          var i :| 0 <= i < |init| && init[i].destIP == d;
          assert routes[i].destIP == d;
        }
        if exists i :: 0 <= i < |routes| && routes[i].destIP == d {
          var i :| 0 <= i < |routes| && routes[i].destIP == d;
          if i < |init| {
            assert init[i].destIP == d;
          }
        }
      }
    }
  }

  /** The position of the first row for `dest`, or |routes| when there is none. */
  function DestIndex(routes: seq<Route>, dest: string): (k: nat)
    ensures k <= |routes|
    ensures k < |routes| ==> routes[k].destIP == dest
    ensures forall i :: 0 <= i < k ==> routes[i].destIP != dest
  {
    if routes == [] then 0 else if routes[0].destIP == dest then 0 else 1 + DestIndex(routes[1..], dest)
  }

  lemma DestIndexOfPrefix(routes: seq<Route>, n: nat, dest: string)
    requires n <= |routes|
    requires DestIndex(routes[..n], dest) < n
    ensures DestIndex(routes, dest) == DestIndex(routes[..n], dest)
  {
    var k := DestIndex(routes[..n], dest);
    assert routes[k] == routes[..n][k];
    forall i | 0 <= i < k ensures routes[i].destIP != dest {
      assert routes[i] == routes[..n][i];
    }
  }

  /** The destinations are listed in the order of their first rows; a listed destination has a row. */
  lemma {:induction false} FirstDestsOrdered(routes: seq<Route>)
    ensures forall a :: 0 <= a < |FirstDests(routes)| ==> DestIndex(routes, FirstDests(routes)[a]) < |routes|
    ensures forall a, b :: 0 <= a < b < |FirstDests(routes)| ==>
      DestIndex(routes, FirstDests(routes)[a]) < DestIndex(routes, FirstDests(routes)[b])
  {
    if routes != [] {
      var n := |routes| - 1;
      var init := routes[..n];
      FirstDestsOrdered(init);
      var ds0 := FirstDests(init);
      var ds := FirstDests(routes);
      var last := routes[n].destIP;
      forall a | 0 <= a < |ds0| ensures DestIndex(routes, ds0[a]) == DestIndex(init, ds0[a]) {
        DestIndexOfPrefix(routes, n, ds0[a]);
      }
      if last !in ds0 {
        FirstDestsSpec(init);
        forall i | 0 <= i < n ensures routes[i].destIP != last {
          assert routes[i] == init[i];
        }
        assert DestIndex(routes, last) == n;
        assert ds == ds0 + [last];
      }
    }
  }

  lemma FirstDestsStep(routes: seq<Route>, i: nat)
    requires i < |routes|
    ensures routes[i].destIP in FirstDests(routes[..i]) ==> FirstDests(routes[..i + 1]) == FirstDests(routes[..i])
    ensures routes[i].destIP !in FirstDests(routes[..i]) ==>
      FirstDests(routes[..i + 1]) == FirstDests(routes[..i]) + [routes[i].destIP]
  {
    assert routes[..i + 1][..i] == routes[..i];
  }

  /** Appending one destination's tuple to the bounded buffer. */
  lemma AdvertisedSnoc(routes: seq<Route>, ds: seq<string>, d: string)
    ensures Advertised(routes, ds + [d]) ==
      if BestDistance(routes, d) < UNREACHABLE then Advertised(routes, ds) + [(d, BestDistance(routes, d))]
      else Advertised(routes, ds)
  {
    assert (ds + [d])[..|ds|] == ds;
  }

  lemma TuplesTextSnoc(ps: seq<(string, int)>, q: (string, int))
    ensures TuplesText(ps + [q]) == TuplesText(ps) + TupleText(q)
  {
    assert (ps + [q])[..|ps|] == ps;
  }

  lemma EncodeStep(ip: string, routes: seq<Route>, ds: seq<string>, d: string)
    ensures BestDistance(routes, d) >= UNREACHABLE ==> Encoded(ip, routes, ds + [d]) == Encoded(ip, routes, ds)
    ensures BestDistance(routes, d) < UNREACHABLE ==>
      Encoded(ip, routes, ds + [d]) == Truncate(Encoded(ip, routes, ds) + TupleText((d, BestDistance(routes, d))), DV_OUT_LEN)
  {
    AdvertisedSnoc(routes, ds, d);
    var b := BestDistance(routes, d);
    if b < UNREACHABLE {
      var ps := Advertised(routes, ds);
      var q := (d, b);
      TuplesTextSnoc(ps, q);
      BoundedAppend(Header(ip), TuplesText(ps), TupleText(q));
    }
  }

  lemma BoundedAppend(h: string, a: string, c: string)
    ensures Truncate(h + (a + c), DV_OUT_LEN) == Truncate(Truncate(h + a, DV_OUT_LEN) + c, DV_OUT_LEN)
  {
    assert h + (a + c) == (h + a) + c;
    TruncateAppend(h + a, c, DV_OUT_LEN);
  }

  /** The advertised pairs are exactly (d, best(d)) for the listed destinations reachable below the sentinel. */
  lemma {:induction false} AdvertisedPairs(routes: seq<Route>, ds: seq<string>)
    ensures forall p :: p in Advertised(routes, ds) <==>
      p.0 in ds && BestDistance(routes, p.0) < UNREACHABLE && p.1 == BestDistance(routes, p.0)
  {
    if ds != [] {
      AdvertisedPairs(routes, ds[..|ds| - 1]);
      assert ds == ds[..|ds| - 1] + [ds[|ds| - 1]];
    }
  }

  /** Listing distinct destinations yields one pair per destination. */
  lemma {:induction false} AdvertisedDistinct(routes: seq<Route>, ds: seq<string>)
    requires forall i, j :: 0 <= i < j < |ds| ==> ds[i] != ds[j]
    ensures DistinctDests(Advertised(routes, ds))
  {
    if ds != [] {
      var init := ds[..|ds| - 1];
      AdvertisedDistinct(routes, init);
      AdvertisedPairs(routes, init);
      var ps := Advertised(routes, init);
      forall i | 0 <= i < |ps| ensures ps[i].0 != ds[|ds| - 1] {
        assert ps[i] in ps;
        var j :| 0 <= j < |init| && init[j] == ps[i].0;
        assert init[j] == ds[j];
      }
    }
  }

  /** `getDistanceVector` advertises, once each, exactly the destinations of the table whose best
      distance is below the sentinel, each with that best distance. */
  lemma VectorContents(routes: seq<Route>)
    ensures var ps := Advertised(routes, FirstDests(routes));
      && DistinctDests(ps)
      && forall d, c :: (d, c) in ps <==>
           (exists i :: 0 <= i < |routes| && routes[i].destIP == d)
           && BestDistance(routes, d) < UNREACHABLE && c == BestDistance(routes, d)
  {
    FirstDestsSpec(routes);
    AdvertisedPairs(routes, FirstDests(routes));
    AdvertisedDistinct(routes, FirstDests(routes));
  }

  /** An empty table gives the header alone. */
  lemma EncodeEmpty()
    ensures EncodeDV(MY_IP, []) == "0.0.0.0:DV:"
  {
  }

  // ----- the codec round trip -----

  /** A destination that survives the tuple syntax and the 128-byte tuple buffer. */
  predicate Encodable(p: (string, int))
  {
    ':' !in p.0 && ',' !in p.0 && ')' !in p.0 && '\0' !in p.0 && |p.0| + |Itoa(p.1)| + 2 <= TUPLE_IN_LEN
  }

  lemma TupleRoundTrip(p: (string, int))
    requires Encodable(p)
    ensures ParseTuple(TupleToken(p)) == Some(p)
  {
    var d, n := p.0, Itoa(p.1);
    ItoaHasNoDelimiters(p.1);
    var tok := TupleToken(p);
    assert tok[1..] == d + "," + n + ")";
    var copied := Truncate(tok[1..], TUPLE_IN_LEN);
    assert copied == d + "," + n + ")";
    assert IndexOf(copied, ')') == |d| + 1 + |n| by {
      assert copied[|d| + 1 + |n|] == ')';
      forall i | 0 <= i < |d| + 1 + |n| ensures copied[i] != ')' {
        if i < |d| {
          assert copied[i] == d[i];
        } else if i > |d| {
          assert copied[i] == n[i - |d| - 1];
        }
      }
    }
    var inside := copied[..|d| + 1 + |n|];
    assert inside == d + "," + n;
    assert IndexOf(inside, ',') == |d| by {
      assert inside[|d|] == ',';
      forall i | 0 <= i < |d| ensures inside[i] != ',' {
        assert inside[i] == d[i];
      }
    }
    assert inside[..|d|] == d;
    assert inside[|d| + 1..] == n;
    AtoiItoa(p.1);
  }

  function TupleTokens(ps: seq<(string, int)>): seq<string>
  {
    if ps == [] then [] else TupleTokens(ps[..|ps| - 1]) + [TupleToken(ps[|ps| - 1])]
  }

  lemma TupleTokenise(p: (string, int))
    requires Encodable(p)
    ensures Tokens(TupleText(p)) == [TupleToken(p)]
  {
    ItoaHasNoDelimiters(p.1);
    assert ':' !in TupleToken(p);
    TokenColon(TupleToken(p));
  }

  lemma {:induction false} TuplesTokenise(ps: seq<(string, int)>)
    requires forall k :: 0 <= k < |ps| ==> Encodable(ps[k])
    ensures Tokens(TuplesText(ps)) == TupleTokens(ps)
  {
    if ps != [] {
      var init := ps[..|ps| - 1];
      var p := ps[|ps| - 1];
      assert forall k :: 0 <= k < |init| ==> init[k] == ps[k];
      TuplesTokenise(init);
      var a, b := TuplesText(init), TupleText(p);
      assert TuplesText(ps) == a + b;
      TokensAppend(a, b);
      TupleTokenise(p);
    }
  }

  lemma ParseTuplesSnoc(toks: seq<string>, t: string)
    ensures ParseTuples(toks + [t]) ==
      match ParseTuple(t) case None => ParseTuples(toks) case Some(p) => ParseTuples(toks) + [p]
  {
    assert (toks + [t])[..|toks|] == toks;
  }

  lemma LastSplit<T>(s: seq<T>)
    requires s != []
    ensures s == s[..|s| - 1] + [s[|s| - 1]]
  {
  }

  lemma ParseTuplesSnocSome(toks: seq<string>, t: string, p: (string, int))
    requires ParseTuple(t) == Some(p)
    ensures ParseTuples(toks + [t]) == ParseTuples(toks) + [p]
  {
    ParseTuplesSnoc(toks, t);
  }

  lemma {:induction false} TuplesParse(ps: seq<(string, int)>)
    requires forall k :: 0 <= k < |ps| ==> Encodable(ps[k])
    ensures ParseTuples(TupleTokens(ps)) == ps
  {
    if ps != [] {
      var init := ps[..|ps| - 1];
      var p := ps[|ps| - 1];
      assert forall k :: 0 <= k < |init| ==> init[k] == ps[k];
      var ts := TupleTokens(init);
      assert TupleTokens(ps) == ts + [TupleToken(p)];
      TuplesParse(init);
      TupleRoundTrip(p);
      ParseTuplesSnocSome(ts, TupleToken(p), p);
      LastSplit(ps);
    }
  }

  lemma {:induction false} TuplesTextNulFree(ps: seq<(string, int)>)
    requires forall k :: 0 <= k < |ps| ==> Encodable(ps[k])
    ensures '\0' !in TuplesText(ps)
  {
    if ps != [] {
      var init := ps[..|ps| - 1];
      assert forall k :: 0 <= k < |init| ==> init[k] == ps[k];
      TuplesTextNulFree(init);
      var p := ps[|ps| - 1];
      assert '\0' !in Itoa(p.1);
      assert '\0' !in TupleText(p);
    }
  }

  /** Decoding a DV frame built from any list of encodable pairs gives back its sender and the list,
      when the frame fits the decoder's 1024-byte copy. */
  lemma FrameTokens(ip: string, t: string)
    requires ip != [] && ':' !in ip
    ensures Tokens(ip + ":DV:" + t) == [ip, "DV"] + Tokens(t)
  {
    var a, b := ip + ":", "DV" + ":";
    assert Tokens(b + t) == ["DV"] + Tokens(t) by {
      TokensAppend(b, t);
      TokenColon("DV");
    }
    assert Tokens(a + (b + t)) == [ip] + Tokens(b + t) by {
      TokensAppend(a, b + t);
      TokenColon(ip);
    }
    FrameShape(ip, t);
  }

  lemma FrameShape(ip: string, t: string)
    ensures ip + ":DV:" + t == (ip + ":") + (("DV" + ":") + t)
  {
    assert "DV" + ":" == ":DV:"[1..];
  }

  lemma PairsRoundTrip(ip: string, ps: seq<(string, int)>)
    requires ip != [] && ':' !in ip && '\0' !in ip
    requires forall k :: 0 <= k < |ps| ==> Encodable(ps[k])
    requires |ip + ":DV:" + TuplesText(ps)| <= DV_IN_LEN
    ensures ParseDV(ip + ":DV:" + TuplesText(ps)) == Some((ip, ps))
  {
    var t := TuplesText(ps);
    TuplesTextNulFree(ps);
    assert CString(ip + ":DV:" + t) == ip + ":DV:" + t;
    FrameTokens(ip, t);
    TuplesTokenise(ps);
    TuplesParse(ps);
    var toks := [ip, "DV"] + TupleTokens(ps);
    assert toks[2..] == TupleTokens(ps);
  }

  /** Round trip: decoding what `getDistanceVector` produced yields the sender "0.0.0.0" and exactly the
      pairs (d, findBestDistance(d)), when destinations avoid ':', ',' and ')' and the frame fits. */
  lemma VectorRoundTrip(routes: seq<Route>)
    requires var ps := Advertised(routes, FirstDests(routes));
      && (forall k :: 0 <= k < |ps| ==> Encodable(ps[k]))
      && |MY_IP + ":DV:" + TuplesText(ps)| <= DV_IN_LEN
    ensures ParseDV(EncodeDV(MY_IP, routes)) == Some((MY_IP, Advertised(routes, FirstDests(routes))))
  {
    var ps := Advertised(routes, FirstDests(routes));
    assert Header(MY_IP) == MY_IP + ":DV:";
    assert EncodeDV(MY_IP, routes) == MY_IP + ":DV:" + TuplesText(ps);
    PairsRoundTrip(MY_IP, ps);
  }

  /** The header-only frame of an empty table registers nothing and does not dirty the receiver. */
  lemma EmptyVectorNoop(routes: seq<Route>)
    ensures Merge(routes, EncodeDV(MY_IP, [])) == Merged(routes, false)
  {
    assert TuplesText([]) == [];
    PairsRoundTrip(MY_IP, []);
    assert MY_IP + ":DV:" + TuplesText([]) == "0.0.0.0:DV:";
  }

  /** The receiver reads the frame as a C string: the tuples behind a NUL are never seen. */
  lemma DVCutAtNul(routes: seq<Route>, ip: string, t: string)
    requires ip != [] && ':' !in ip && '\0' !in ip && |ip| + 4 <= DV_IN_LEN
    ensures ParseDV(ip + ":DV:" + "\0" + t) == Some((ip, []))
    ensures Merge(routes, ip + ":DV:" + "\0" + t) == Merged(routes, false)
  {
    assert ip + ":DV:" + "\0" + t == (ip + ":DV:") + ("\0" + t);
    CStringAfter(ip + ":DV:", "\0" + t);
    assert CString("\0" + t) == [];
    assert (ip + ":DV:") + [] == ip + ":DV:" + [];
    FrameTokens(ip, []);
    var toks := [ip, "DV"] + Tokens([]);
    assert toks[2..] == [];
  }

  /** Tuples that do not start with '(' or hold no ',' are skipped. */
  lemma ParseTupleRejects(tok: string)
    requires tok == [] || tok[0] != '(' || ',' !in tok
    ensures ParseTuple(tok) == None
  {
    if tok != [] && tok[0] == '(' {
      var copied := Truncate(tok[1..], TUPLE_IN_LEN);
      var inside := copied[..IndexOf(copied, ')')];
      forall i | 0 <= i < |inside| ensures inside[i] != ',' {
        assert inside[i] == tok[i + 1];
      }
    }
  }

  /** The scan of `usedDest[0..usedCount)` for a destination already advertised. */
  method Listed(used: array<string>, count: nat, d: string) returns (found: bool)
    requires count <= used.Length
    ensures found <==> d in used[..count]
  {
    found := false;
    var j := 0;
    while j < count && !found
      invariant 0 <= j <= count
      invariant !found ==> d !in used[..j]
      invariant found ==> d in used[..count]
    {
      if used[j] == d {
        found := true;
      }
      j := j + 1;
    }
    assert !found ==> used[..j] == used[..count];
  }

  /** The distance table of one node. */
  class RouteTable {
    const myIP: string
    var routes: seq<Route>
    var updatedDV: bool

    ghost predicate Valid()
      reads this
    {
      myIP == MY_IP && NamesStored(routes)
    }

    constructor ()
      ensures Valid() && routes == [] && !updatedDV
    {
      myIP := MY_IP;
      routes := [];
      updatedDV := false;
    }

    /** `findRoute`. */
    method FindRoute(dest: string, via: string) returns (k: Option<nat>)
      ensures k == RouteIndex(routes, dest, via)
    {
      var i := 0;
      while i < |routes|
        invariant 0 <= i <= |routes|
        invariant forall j :: 0 <= j < i ==> !Keyed(routes[j], dest, via)
      {
        if routes[i].destIP == dest && routes[i].viaNeighbor == via {
          return Some(i);
        }
        i := i + 1;
      }
      return None;
    }

    /** `createRoute`: prepend a row, names copied into 32-byte buffers. */
    method CreateRoute(dest: string, via: string, dist: int)
      modifies this`routes
      ensures routes == [Route(Truncate(dest, IP_MAX_LEN), Truncate(via, IP_MAX_LEN), dist)] + old(routes)
    {
      routes := [Route(Truncate(dest, IP_MAX_LEN), Truncate(via, IP_MAX_LEN), dist)] + routes;
    }

    /** `findBestDistance`. */
    method FindBestDistance(dest: string) returns (best: int)
      ensures best == BestDistance(routes, dest)
    {
      best := UNREACHABLE;
      var i := 0;
      while i < |routes|
        invariant 0 <= i <= |routes|
        invariant best == BestDistance(routes[..i], dest)
      {
        assert routes[..i + 1][..i] == routes[..i];
        if routes[i].destIP == dest && routes[i].distance < best {
          best := routes[i].distance;
        }
        i := i + 1;
      }
      assert routes[..i] == routes;
    }

    /** One destination of `getDistanceVector`: its tuple is appended when it is reachable. */
    method AppendTuple(buf: string, dest: string) returns (out: string)
      ensures BestDistance(routes, dest) >= UNREACHABLE ==> out == buf
      ensures BestDistance(routes, dest) < UNREACHABLE ==>
        out == Truncate(buf + TupleText((dest, BestDistance(routes, dest))), DV_OUT_LEN)
    {
      out := buf;
      var bestDist := FindBestDistance(dest);
      if bestDist < UNREACHABLE {
        out := Truncate(buf + TupleText((dest, bestDist)), DV_OUT_LEN);
      }
    }

    /** `getDistanceVector`; more than MAX_DESTS distinct destinations overflow `usedDest`. */
    method GetDistanceVector() returns (dv: string)
      requires Valid()
      requires |FirstDests(routes)| <= MAX_DESTS
      ensures dv == EncodeDV(myIP, routes)
    {
      dv := Truncate(myIP + ":DV:", DV_OUT_LEN - 1);
      var usedDest := new string[MAX_DESTS];
      var usedCount := 0;
      var i := 0;
      while i < |routes|
        invariant 0 <= i <= |routes|
        invariant usedCount == |FirstDests(routes[..i])| <= MAX_DESTS
        invariant usedDest[..usedCount] == FirstDests(routes[..i])
        invariant dv == Encoded(myIP, routes, FirstDests(routes[..i]))
      {
        var r := routes[i];
        FirstDestsStep(routes, i);
        var found := Listed(usedDest, usedCount, r.destIP);
        if !found {
          FirstDestsPrefix(routes, i + 1);
          EncodeStep(myIP, routes, FirstDests(routes[..i]), r.destIP);
          dv := AppendTuple(dv, r.destIP);
          assert Truncate(r.destIP, IP_MAX_LEN) == r.destIP;
          ghost var listed := usedDest[..usedCount];
          usedDest[usedCount] := Truncate(r.destIP, IP_MAX_LEN);
          assert forall j :: 0 <= j < usedCount ==> usedDest[j] == listed[j];
          assert usedDest[..usedCount + 1] == listed + [r.destIP];
          usedCount := usedCount + 1;
        }
        i := i + 1;
      }
      assert routes[..i] == routes;
    }

    /** `processDistanceVector`: relax every tuple of a DV frame from `sender`, then `dvUpdate` if anything changed. */
    method ProcessDistanceVector(dv: string)
      requires Valid()
      modifies this`routes, this`updatedDV
      ensures Valid()
      ensures routes == Merge(old(routes), dv).routes
      ensures updatedDV == (old(updatedDV) || Merge(old(routes), dv).changed)
    {
      var buf := Truncate(CString(dv), DV_IN_LEN);
      var toks := Tokens(buf);
      MergeByTokens(routes, dv, toks);
      if |toks| < 1 {
        return;
      }
      var senderIP := toks[0];
      if |toks| < 2 {
        return;
      }
      if toks[1] != "DV" {
        return;
      }
      ghost var routes0 := routes;
      var changed := RelaxTuples(senderIP, toks[2..]);
      RelaxAllStored(routes0, senderIP, ParseTuples(toks[2..]));
      if changed {
        DvUpdate();
      }
    }

    /** `processDistanceVector`'s loop over the tokens after the keyword: each well-formed tuple is
        relaxed in turn, malformed ones are skipped. */
    method RelaxTuples(sender: string, tuples: seq<string>) returns (changed: bool)
      modifies this`routes
      ensures Merged(routes, changed) == RelaxAll(old(routes), sender, ParseTuples(tuples))
    {
      ghost var routes0 := routes;
      ghost var ps: seq<(string, int)> := [];
      changed := false;
      var k := 0;
      while k < |tuples|
        invariant 0 <= k <= |tuples|
        invariant ps == ParseTuples(tuples[..k])
        invariant Merged(routes, changed) == RelaxAll(routes0, sender, ps)
      {
        var parsed := ParseTuple(tuples[k]);
        ParseTuplesStep(tuples, k, parsed);
        if parsed.Some? {
          ghost var before := routes;
          var stepChanged := RelaxTuple(sender, parsed.value);
          RelaxAllStep(routes0, sender, ps, parsed.value, Merged(before, changed));
          changed := changed || stepChanged;
          ps := ps + [parsed.value];
        }
        k := k + 1;
      }
      assert tuples[..k] == tuples;
    }

    /** The body of `processDistanceVector`'s tuple loop: the (dest, sender) row gets cost + 1. */
    method RelaxTuple(sender: string, p: (string, int)) returns (changed: bool)
      modifies this`routes
      ensures routes == Relax(old(routes), sender, p).routes
      ensures changed == Relax(old(routes), sender, p).changed
    {
      var newDist := p.1 + 1;
      var r := FindRoute(p.0, sender);
      changed := false;
      match r {
        case None =>
          CreateRoute(p.0, sender, newDist);
          changed := true;
        case Some(i) =>
          if routes[i].distance != newDist {
            routes := routes[i := routes[i].(distance := newDist)];
            changed := true;
          }
      }
    }

    /** `dvUpdate`. */
    method DvUpdate()
      modifies this`updatedDV
      ensures updatedDV
    {
      updatedDV := true;
    }

    /** `dvSent`. */
    method DvSent()
      modifies this`updatedDV
      ensures !updatedDV
    {
      updatedDV := false;
    }

    /** `distanceCleanup`: free every row; the flag is left as it was. */
    method DistanceCleanup()
      modifies this`routes
      ensures routes == []
    {
      routes := [];
    }
  }
}
