# dv-routing in Dafny

This is a verified model of a small distance-vector routing daemon written in C. The daemon
broadcasts text frames over UDP and has three parts:

- **Neighbor detection** (`neighbor.c`). Every node broadcasts a heartbeat
  `<ip>:HELLO:<seq>` every 5 seconds. The 16-bit counter `seq` starts at 0 and wraps. The node
  keeps a linked list of the peers it has heard, each with the last sequence number and the time
  it was last heard. An entry not heard for more than 10 seconds is unlinked. A HELLO carrying
  the node's own address is ignored.
- **The distance table** (`distance.c`). This is a linked list of candidate routes, keyed by
  destination and next hop.
  - A received vector `<sender>:DV:(d1,c1):(d2,c2):...:` is relaxed tuple by tuple. The row for
    `(d, sender)` gets cost `c + 1`, and is created when it is missing.
  - The `updatedDV` flag is raised when any row was created or changed.
  - The outgoing vector lists each destination once, in the order of its first row, with its best
    cost. Destinations whose best cost is the sentinel 999999 are skipped.
- **Integration** (`main.c`).
  - `parseMessage` dispatches a frame by its second `:`-token.
  - `SenderThread` sends the HELLO, sweeps stale neighbors and, while `updatedDV` is set, builds
    and broadcasts the vector. `dvSent` clears the flag only after a successful `sendto`.

## Layout

| file | contents |
|---|---|
| `wrappers.dfy` | `Option` |
| `cstrings.dfy` | module `CStrings`: C library behaviour the protocol rests on |
| `neighbors.dfy` | module `Neighbors`: `neighbor.c` |
| `distance.dfy` | module `Distance`: `distance.c` |
| `router.dfy` | module `Router`: `main.c` |

`CStrings` models:

- the C string a buffer holds, which ends at its first NUL, as `CString`;
- `strncpy` into a fixed buffer, as `Truncate`;
- `strtok_r` with delimiter `:`, which skips empty tokens, as `Tokens`;
- `strchr`, `atoi` and printing with `%d`.

## How the C code is modelled

- Each C linked list is a `seq` field of a class, head first. `NeighborTable.entries` holds the
  neighbors and `RouteTable.routes` holds the routes. Insertion at the head is prepending.
- Each mutating C function is a method whose `ensures` ties the new state to a specification
  function of the old state. For example, `removeStaleNeighbors` is `Sweep`,
  `processDistanceVector` is `Merge`, and `getDistanceVector` is `EncodeDV`. The lemmas prove
  what the daemon needs of those functions.
- A received frame is seen as a C string: every parser reads only the characters before the
  first NUL (`CString`), so nothing behind a NUL is ever tokenised.
- The `strncpy` and `strncat` copies into fixed buffers are modelled as truncation, because they
  truncate rather than fail:
  - names: 31 characters;
  - `parseMessage`'s copy: 511 characters;
  - `processDistanceVector`'s copy: 1023 characters;
  - one tuple's `inside`: 127 characters;
  - the outgoing vector: 2047 characters, including the header written by `snprintf`.

  The `snprintf` calls into the 128-byte `message` and `tuple` buffers are not truncated in the
  model (see "Left out").
- An address longer than 31 characters is stored truncated, so `findNeighbor` and `findRoute`
  never find it again:
  - a HELLO from such a sender adds a fresh entry each time;
  - each tuple from such a sender adds a row and raises the flag, even when the same vector
    repeats (`Distance.LongSenderNeverSettles`).

  Properties that need a stored row to be found again therefore require names of at most 31
  characters.
- `g_myIP` in `distance.c` starts as `"0.0.0.0"` and is never assigned (distance.c:36). So every
  vector the daemon sends has the header `0.0.0.0:DV:`, whatever the node's address. The model
  keeps that (`MY_IP`, and the `Router.Router` class holds a `RouteTable` whose `myIP` is
  `MY_IP`).
- `main.c` calls `neighborSendHELLO`, `neighborRemoveStale` and `neighborProcessHELLO`.
  `neighbor.c` and `neighbor.h` do not define these, so they are modelled by the operations they
  name:
  - `NeighborTable.SendHello`: build the HELLO from a persistent counter, then advance the counter;
  - `NeighborTable.RemoveStaleNeighbors`;
  - `NeighborTable.ProcessHello`.
- `Router` is the whole node as a value, `Engine`, with functions `OnReceive` and `OnTick`. The
  class `Router.Router` updates the two tables in place and is proved to follow those functions.
  Inputs that come from outside are parameters:
  - the clock reading `now`;
  - whether the socket is open;
  - whether `sendto` succeeded.

## Model

| member | source | states |
|---|---|---|
| CStrings.Truncate | distance.c:57-60 | `strncpy` to `n` then NUL: the result is a prefix of the string, the whole string when it fits, and exactly `n` characters when it does not |
| CStrings.CString | main.c:100-102 | the C string in a buffer: the prefix before the first NUL, which is the whole text when there is no NUL |
| CStrings.CStringTruncate | main.c:100-102 | `strncpy` stops at the first NUL or at the bound, whichever comes first: cutting at the NUL and bounding commute |
| CStrings.CStringAfter | main.c:100-105 | a NUL-free prefix survives whole, and only what follows it is cut at its NUL |
| CStrings.TruncateAppend | distance.c:119 | `strncat` into a bounded buffer piece by piece equals bounding the whole concatenation |
| CStrings.IndexOf | distance.c:172-177 | `strchr` as a position: the first occurrence, or the length when absent |
| CStrings.Tokens | neighbor.c:233-236 | `strtok_r` with `:` yields non-empty tokens that contain no delimiter |
| CStrings.TokensAppend | neighbor.c:233-236 | a prefix ending in the delimiter tokenises independently of what follows it |
| CStrings.Atoi | neighbor.c:243 | `atoi`: a negative value only from a leading `-` after white space, and 0 when the text does not start with a sign or a digit |
| CStrings.Itoa | distance.c:117 | `%d` prints a non-empty run of digits, with a leading `-` exactly for a negative number |
| CStrings.AtoiItoa | neighbor.c:152 | `atoi` reads back any number printed with `%d` |
| CStrings.AtoiNonNumeric | neighbor.c:243 | a field that does not start with a number reads as 0 rather than being rejected |
| CStrings.NatToDecLength | neighbor.c:151-152 | a number below 10^k prints in at most k digits, so a 16-bit counter takes at most 5 |
| Neighbors.NextSeq | neighbor.c:165 | `seq++` on an `unsigned short`: +1 below 65535, and 65535 wraps to 0 |
| Neighbors.WrapStep | neighbor.c:147-165 | advancing the wrapped counter equals counting unbounded and wrapping |
| Neighbors.IndexOfIp | neighbor.c:77-87 | the first entry with the address, or none with that address at all |
| Neighbors.NeighborTable.constructor | neighbor.c:253-257 | the table starts empty, the counter at 0, and the own address truncated to 31 characters |
| Neighbors.NeighborTable.FindNeighbor | neighbor.c:77-87 | the linear scan returns exactly `IndexOfIp` |
| Neighbors.NeighborTable.CreateNeighbor | neighbor.c:93-110 | one entry, with the truncated address, the sequence number and the time, is prepended |
| Neighbors.NeighborTable.RemoveStaleNeighbors | neighbor.c:116-135 | the unlinking loop leaves exactly `Sweep(old entries, now)` |
| Neighbors.SweepMembers | neighbor.c:123-134 | after the sweep an entry remains iff it was present and heard at most 10 s ago; the table never grows |
| Neighbors.SweepAppend | neighbor.c:122-135 | the sweep is an order-preserving filter and distributes over concatenation |
| Neighbors.SweepIdempotent | neighbor.c:116-135 | sweeping twice at the same time is sweeping once |
| Neighbors.SweepLater | neighbor.c:116-135 | a later sweep subsumes an earlier one |
| Neighbors.SweepAllMonotone | neighbor.c:148-168 | with a clock that never runs backwards, a run of sweeps equals the last sweep alone |
| Neighbors.SweepBoundary | neighbor.c:126 | the comparison is strict: an entry exactly 10 s old survives, and one 11 s old is removed |
| Neighbors.NeighborTable.ProcessHello | neighbor.c:179-204 | the table becomes `Heard(old entries, myIP, sender, seq, now)` |
| Neighbors.HeardSelf | neighbor.c:181-184 | a HELLO with the node's own address changes nothing |
| Neighbors.HeardUnseen | neighbor.c:188-194 | a HELLO from an unknown address prepends exactly one fresh entry |
| Neighbors.HeardKnown | neighbor.c:195-201 | a HELLO from a known address sets `lastHeard = now` and `lastSeq = max(lastSeq, seq)` on that entry, and leaves the others and the length unchanged |
| Neighbors.HeardMonotone | neighbor.c:179-204 | no entry is lost, old entries keep their order, and no sequence number decreases |
| Neighbors.HeardKeepsUnique | neighbor.c:188-191 | for addresses that fit the buffer, at most one entry per address is kept |
| Neighbors.ParseHello | neighbor.c:229-245 | the receiver's reading of a frame: when it is accepted, the sender is a non-empty field with no `:` and no NUL |
| Neighbors.HelloCutAtNul | neighbor.c:229-240 | a HELLO whose sequence field sits behind a NUL has no third token and is dropped |
| Neighbors.NeighborTable.ReceiveFrame | neighbor.c:231-245 | a frame reaches `processHELLO` exactly when it has at least three tokens and the second is `HELLO`, with the sequence number cast to 16 bits |
| Neighbors.HelloRoundTrip | neighbor.c:152 | parsing a HELLO the sender built gives back its address and sequence number |
| Neighbors.HelloNonNumericSeq | neighbor.c:238-244 | a non-numeric sequence field is accepted as 0 |
| Neighbors.HelloWithoutSeq | neighbor.c:238-240 | `ip:HELLO:` has no third token and is dropped |
| Neighbors.HelloEndsAtKeyword | neighbor.c:238-240 | `ip:HELLO` is dropped |
| Neighbors.HelloEmptyFieldsCollapse | neighbor.c:233-236 | empty fields collapse: `:ip::HELLO:::s:` parses as `ip:HELLO:s` |
| Neighbors.NeighborTable.SendHello | neighbor.c:151-152 | the frame sent is `myIP:HELLO:<counter>`, and the counter then advances with wrap-around |
| Neighbors.NeighborTable.HelloRound | neighbor.c:151-168 | one iteration sends `myIP:HELLO:<counter>`, advances the counter and sweeps |
| Neighbors.NeighborTable.HelloSenderThread | neighbor.c:147-168 | the frames sent are `HelloFrames(myIP, start, n)`, the counter is advanced `n` times, and the table is the run of sweeps |
| Neighbors.SeqAfterWraps | neighbor.c:147-165 | `n` increments from `start` leave the counter at `(start + n) mod 65536` |
| Neighbors.HelloFramesAt | neighbor.c:147-165 | there is one HELLO per iteration, and the k-th carries counter `(start + k) mod 65536` |
| Distance.RouteIndex | distance.c:41-49 | `findRoute`: the first row keyed by (dest, via), or none with that key |
| Distance.RouteTable.FindRoute | distance.c:41-49 | the scan returns exactly `RouteIndex` |
| Distance.RouteTable.CreateRoute | distance.c:51-65 | one row, with both names truncated to 31 characters, is prepended |
| Distance.BestDistance | distance.c:67-77 | the least distance over rows for the destination, at most 999999, and either 999999 or attained by a row |
| Distance.RouteTable.FindBestDistance | distance.c:67-77 | the scan returns exactly `BestDistance` |
| Distance.Listed | distance.c:104-110 | the scan of `usedDest` finds a destination iff it is among the first `usedCount` |
| Distance.RouteTable.AppendTuple | distance.c:113-120 | a reachable destination appends its `(d,best):` within the bound; an unreachable one appends nothing |
| Distance.RouteTable.GetDistanceVector | distance.c:87-129 | the buffer built is exactly `EncodeDV(myIP, routes)` |
| Distance.FirstDestsSpec | distance.c:98-126 | every destination of the table is listed, and none twice |
| Distance.FirstDestsOrdered | distance.c:102-126 | destinations are listed in the order of their first rows from the head |
| Distance.AdvertisedPairs | distance.c:113-120 | the advertised pairs are exactly (d, best(d)) for listed destinations whose best is below 999999 |
| Distance.VectorContents | distance.c:87-129 | the vector advertises, once each, exactly the table's destinations that have a best cost below 999999 |
| Distance.EncodeEmpty | distance.c:96 | an empty table gives the header `0.0.0.0:DV:` alone |
| Distance.ParseTuple | distance.c:166-181 | a tuple is accepted only when its token starts with `(`; its destination then has no `,` and no `)` and fits the 127 characters of `inside` |
| Distance.ParseDV | distance.c:143-160 | a frame read from the 1024-byte copy is a DV only with a non-empty sender field that has no `:` and no NUL |
| Distance.TupleRoundTrip | distance.c:166-181 | parsing the token `(d,c)` built by `snprintf` gives back `(d, c)` |
| Distance.TuplesTokenise | distance.c:163-166 | the concatenated `(d,c):` texts tokenise into one token per tuple |
| Distance.TuplesParse | distance.c:163-181 | parsing those tokens gives back the pairs in order |
| Distance.PairsRoundTrip | distance.c:139-181 | decoding `ip:DV:` followed by the tuple texts of encodable pairs gives back the sender and the pairs, when the frame fits 1023 characters |
| Distance.VectorRoundTrip | distance.c:87-181 | decoding what `getDistanceVector` built gives back `0.0.0.0` and exactly the advertised pairs |
| Distance.ParseTupleRejects | distance.c:167-177 | a tuple that does not start with `(`, or has no `,`, is skipped |
| Distance.ParseTuplesSnoc | distance.c:163-197 | the tuple loop skips a malformed token and otherwise appends its pair |
| Distance.MergeSpec | distance.c:139-202 | a frame that is not a DV changes nothing; otherwise rows are only added or updated from the sender's tuples, and the table is left as it was whenever the flag stays down |
| Distance.DVCutAtNul | distance.c:143-166 | the tuples behind a NUL are never seen: such a frame relaxes nothing and does not raise the flag |
| Distance.MergeByTokens | distance.c:148-160 | a frame whose second token is not `DV` (or is missing) changes nothing; otherwise every tuple after it is relaxed, with the first token as sender |
| Distance.RouteTable.ProcessDistanceVector | distance.c:139-202 | the table becomes `Merge(old routes, dv)`, the flag is raised iff the merge changed a row and is never cleared, and stored names fit their buffers |
| Distance.RouteTable.RelaxTuples | distance.c:162-197 | the tuple loop leaves the table and the change flag exactly as `RelaxAll` over the parsed tuples, malformed tokens skipped |
| Distance.RouteTable.RelaxTuple | distance.c:183-196 | the key's row gets cost + 1, created if absent; `changed` is set iff a row was created or its distance differed |
| Distance.RelaxSets | distance.c:184-196 | after relaxing (d, c) from the sender, the (d, sender) row holds c + 1 |
| Distance.RelaxOther | distance.c:186-196 | relaxing one key leaves every other key's row as it was |
| Distance.RelaxAllLastWins | distance.c:163-197 | after a whole vector, each destination's (d, sender) row holds the cost of its last tuple + 1 |
| Distance.RelaxAllFrame | distance.c:163-197 | keys the vector does not name are left unchanged |
| Distance.RelaxAllNoop | distance.c:192-199 | a vector the table already agrees with changes nothing and does not raise the flag |
| Distance.RelaxAllUnflaggedIsUnchanged | distance.c:162-201 | no change is made without raising the flag |
| Distance.RelaxAllIdempotent | distance.c:139-202 | processing the same vector again changes nothing and does not raise the flag |
| Distance.RelaxAllChangedIff | distance.c:162-201 | for distinct destinations, the flag is raised iff some tuple disagreed with the table, iff the table changed |
| Distance.RepeatedDestFlagsWithoutNetChange | distance.c:190-194 | with a destination repeated in one frame, the flag can be raised although the table ends as it was |
| Distance.LongSenderNeverSettles | distance.c:186-190 | a sender longer than 31 characters is never found, so each of its tuples adds a row and raises the flag |
| Distance.RelaxKeepsUnique | distance.c:186-190 | for names that fit, relaxing keeps at most one row per (dest, via) |
| Distance.RelaxAllKeepsUnique | distance.c:163-197 | the same holds for a whole vector |
| Distance.RelaxAllGrows | distance.c:186-196 | rows are never deleted or re-keyed; every new row is prepended, goes via the sender and holds some tuple's destination and cost + 1; a changed distance belongs to a row via the sender and is some tuple's cost + 1 for that destination |
| Distance.RelaxAllStored | distance.c:57-60 | every row's names fit their 32-byte buffers after a merge |
| Distance.RelaxAllBoundsBest | distance.c:184-196 | after a merge, the best cost to a destination of the frame is at most its last advertised cost + 1 |
| Distance.EmptyVectorNoop | distance.c:162-201 | the header-only vector of an empty table changes nothing at a receiver |
| Distance.RouteTable.constructor | distance.c:33-36 | the table starts empty with the flag down, and its address is `0.0.0.0` |
| Distance.RouteTable.DvUpdate | distance.c:208-211 | the flag is set |
| Distance.RouteTable.DvSent | distance.c:217-220 | the flag is cleared |
| Distance.RouteTable.DistanceCleanup | distance.c:236-242 | the table is empty |
| Router.Classify | main.c:96-119 | `parseMessage`'s decision on the 512-byte copy: a HELLO comes from a non-empty sender field with no `:` and no NUL |
| Router.NulFrameIgnored | main.c:100-108 | a frame that starts with a NUL is empty and dropped |
| Router.OnReceive | main.c:96-119 | receiving keeps the address and the counter and never clears the flag; only a vector touches the table or the flag, and only a HELLO touches the neighbor table |
| Router.OnTick | main.c:71-89 | a tick keeps the address and the table, sends the HELLO first and at most one frame after it, and never raises the flag |
| Router.ClassifyAgreesWithHelloReceiver | main.c:104-115 | for a frame that fits 511 characters, `parseMessage` sees a HELLO exactly when `neighbor.c`'s receiver does, with the same sender and sequence number |
| Router.OwnHelloClassified | main.c:110-114 | a node's own HELLO is read back as a HELLO from its address with its counter |
| Router.OwnVectorClassified | main.c:116-117 | every vector the daemon sends is dispatched to `processDistanceVector`, however the 512-byte copy cuts it |
| Router.IgnoredFrames | main.c:108-118 | a frame with fewer than two tokens, or with a second token that is neither keyword, is dropped |
| Router.IgnoredKeepsState | main.c:96-119 | a dropped frame has no effect |
| Router.HelloKeepsRoutes | main.c:110-114 | HELLO traffic touches only the neighbor table |
| Router.ReceiveRaisesFlag | main.c:116-117 | receiving never clears the flag; the flag is raised exactly by a vector whose merge changed a row |
| Router.Router.constructor | main.c:157 | the node starts with its truncated address, no neighbors, counter 0, an empty table and the flag down |
| Router.Router.ParseMessage | main.c:96-119 | the node's new state is `OnReceive(old state, msg, now)` |
| Router.Router.BroadcastDV | main.c:44-64 | the vector is sent only on an open socket, and the flag is cleared only by a successful send |
| Router.Router.SenderTick | main.c:73-80 | the node's new state and the frames sent are `OnTick(old state, now, socket, send outcome)` |
| Router.TickClearsOnDelivery | main.c:57-62 | a tick clears the flag exactly when it was set, the socket is open and `sendto` succeeded; it never touches the table |
| Router.IdleTick | main.c:74-80 | with the flag down, a tick sends the HELLO alone |
| Router.TickSends | main.c:74-80 | every tick sends the HELLO first, advances the counter and sweeps; the vector follows iff the flag is up and the socket is open |
| Router.DirtyUntilDelivered | main.c:71-89 | a pending vector stays pending over any run of events until a tick delivers it |
| Router.IdleWhileQuiet | main.c:71-119 | a node with the flag down stays quiet, and its table unchanged, while no vector reaches it |

## Left out

- Sockets are not modelled: `socket`, `setsockopt`, `bind`, the broadcast address and
  `recvfrom`. A received frame is a parameter. Whether the socket is open and whether `sendto`
  succeeded are boolean inputs.
- Threads are not modelled: `pthread_create`, the mutex, `g_running`, `sleep`/`usleep` and
  `neighborStop`'s shutdown. The receiver and sender run as interleaved events (`Router.Run`),
  each atomic, which is what the mutex provides for the neighbor list. The distance table has no
  mutex in the C code; the model does not capture races on it.
- The wall clock is not modelled: `now` is a parameter in whole seconds. `difftime`'s `double`
  is replaced by integer subtraction.
- Printing is not modelled: `neighborPrintTable`, `printDistanceTable` and the log messages have
  no effect on state.
- Allocation failure is not modelled: `malloc`/`calloc` returning NULL in `createNeighbor`,
  `createRoute` and `getDistanceVector`, and the NULL-argument checks.
- `neighborStop`'s freeing of the neighbor list and `main`'s argument handling (the default address
  `192.168.1.100`) are not modelled. `test_neighbor.c` and the headers are not part of this model.
- CStrings.Atoi: does not model overflow of `atoi` (undefined behaviour in C). The value is an
  unbounded integer, so `distVal + 1` does not wrap either.
- `snprintf` into `tuple[128]` and `message[128]` is modelled without truncation. It cannot
  truncate with names of at most 31 characters and 32-bit numbers.
- Characters are counted as bytes. Every bound (31, 127, 511, 1023, 2047) counts Dafny characters,
  which agrees with C only for single-byte (ASCII) text.
- `neighborInit` (neighbor.c:301-318) also starts `neighbor.c`'s own `HelloSenderThread` and
  `ReceiverThread` on the same socket. Those threads are not part of the node model in `Router`:
  - their HELLOs use a second counter, local to that thread and starting at 0
    (`Neighbors.NeighborTable.HelloSenderThread` models that thread on its own);
  - a frame taken by that receiver never reaches `parseMessage`, so a DV it takes is lost
    (`Neighbors.NeighborTable.ReceiveFrame` models that receiver on its own).
- Distance.RouteTable.GetDistanceVector: requires at most 100 distinct destinations. One more
  writes past `usedDest[100]`, which is undefined behaviour in C.
- Router.Router.SenderTick and Router.Router.BroadcastDV: require the same bound whenever they
  build a vector.
- Neighbors.NeighborTable.ReceiveFrame: the frame is taken as `recvfrom` delivered it. The
  255-byte cap of `neighbor.c`'s receive buffer is part of the input.
- Distance.RelaxAllChangedIff: stated for frames with distinct destinations. With a repeated
  destination the flag records a change during processing, which need not survive to the end
  (`Distance.RepeatedDestFlagsWithoutNetChange`).
