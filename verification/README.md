# Protocol and parser proofs for bnet

This project models four parts of the bnet network library and proves what they are for.

**The KCP engine** (`kcp/`). KCP is the reliable transport behind the library's `kcp` streams.
`KcpState` says what each operation does to a control block, as functions over two
arithmetics: wrapping 32-bit numbers, which is what runs, and unbounded integers.
`KcpEngine` is the block as an object whose methods work through its queues and its byte
buffer, each proved equal to its function. `KcpNetwork` puts two blocks on a network that
loses, repeats, delays and reorders datagrams as it likes; `KcpSimulation` proves that the
wrapping engine with its bytes does exactly what the unbounded twin does; `KcpWindows`,
`KcpSafety`, `KcpMessages` and `KcpDelivery` build the delivery theorems on the twin and carry
them back. `KcpProgress` and `KcpRoundTrips` prove what a flush sends and that round trips that
get through move the window, `KcpSettings` what the setters establish.
What each operation does is said over the fields, apart from the functions it is computed by:
`KcpCutting` cuts messages, `KcpSending` says how much a flush sends, `KcpRetransmission` what it
puts out, sets and answers, `KcpFastResend` what acknowledgements count and that segments passed
over are resent, `KcpReceiving` when a receive succeeds, `KcpWindowGrowth` how the window widens,
`KcpRoundTripTime` what is estimated and that samples are true, `KcpFormat` the wire format.
`KcpCongestion` and `KcpCongestionRuns` prove that the congestion window does not wrap, `KcpTimer`
treats the clock, `KcpHeader` and `KcpHandshake` the headers and the handshake in front of the
transport.

**The router** (`router/`). `RouteTree` is the compressed trie as a value, `RadixTree` and
`Router` the same on the heap, changed in place. `RouteTable` reads a tree as a table of
routes; `RouteAdd`, `RouteWalk` and `RouteRuns` prove that adding routes, with all splitting and
reordering, does to the tree what it does to the table, `RouteAccepts` which routes are accepted.
`RouteLookup` is the lookup that goes
back through skipped nodes, proved to end and to answer rightly; `RouteFill` and `RouteMatch` say
what it means for values to fit a route to a text. `RouteSearch` reads the loop as a recursive
search, `RouteLean` proves that no node is idle, and `RouteByTable` that the lookup comes to what a
search through the accepted routes alone comes to, so that the shape of the tree is not seen.
`RouteFinds` proves that without competing routes exactly the fitting texts are found,
`RouteDeadEnds` what a miss means otherwise, and `RouteMisses` shows a parameter route that is not
found.

**The HTTP parser** (`http/Http*`, `http/Url*`). `HttpBody` is the body and chunk machine byte by
byte, `HttpParser` the loop with its block jumps and marks, `HttpSplitting` what cutting the input
does, `HttpChunks` and `HttpChunkGrammar` chunked encoding, `HttpChunkFaults` the texts on which
cutting is seen, `HttpHex` the sizes as they are written, `HttpLength` the content length. The
`Url` modules give a grammar of URLs, prove that the two character machines accept exactly it,
and that the fields reported are its parts; `UrlAlphabets` has the characters.

**Codecs** (`http/Percent*`, `http/Multipart*`). Percent-encoding, and the multipart
form with its sorted index, each with the loops that read and write it and the round trips
between them, with the exact conditions under which they hold; `PercentAlphabets` and
`MultipartText` say what is written and read, character by character.

## What was found

- Cutting the input of the body parser is not invisible. When the byte behind a chunk's data is
  not CR, a single call drops the chunk's data, while a call that ended before that byte has
  already delivered it. `HttpChunks.WrongChunkEnd` gives an input; `HttpChunkFaults.CutsAgreeIff`
  says for which texts it happens, from every state. State, error and bytes taken agree in every
  case, and bodies without chunks may be cut anywhere.
- `url_decode(url_encode(s, k))` gives `s` back if and only if the first `k` bytes hold no `+` and no
  `%` with two hexadecimal digits behind it begins in them. A `%` alone does no harm.
- The table `unhex` lists 128 of its 256 entries, so bytes from 128 on count as the digit 0 in a
  chunk size. The model does the same.
- A multipart form survives printing and parsing if and only if its names are in order, the boundary
  divides its parts, and every field survives. A field survives if and only if its header texts hold
  no CR LF, its disposition, name and file name no `;`, and its disposition neither begins nor ends
  with white space. Quotation marks do no harm.
- In the router a split gives the upper node a part of another route as its full path. This does
  no harm: only nodes with a handler report theirs, and those hold the whole route
  (`RouteNames.TreeIsNamed`).
- The lookup of the router gives up in places where another way is left to try, so a parameter
  route can be missed that the text fits (`RouteMisses.ParameterRouteIsMissed`). Where no two
  routes agree up to a place where one goes on with a parameter and the other does not, it finds
  exactly the texts that fit (`RouteFinds.FindsExactly`). Otherwise a miss means that a route tried
  first leads into a dead end (`RouteDeadEnds.MissedMeans`), and `RouteByTable.MissedIff` tells from
  the accepted routes exactly when it happens.
- `ikcp_input` and `ikcp_flush` multiply 32-bit numbers without a guard. In every run the congestion
  window stays balanced if the window the peer can announce, and the one a hurried resend can set,
  stay below 2^32 bytes with a step of avoidance (`KcpCongestionRuns.WindowsStayBalanced`); all
  windows do if mss is at most 65535. Where they do not, there is a balanced block that one step
  takes out of balance (`KcpCongestion.BalanceIsKeptIff`).

## What is assumed

- Network: a datagram that is delivered is less than 2^31 segments old (`TimelyRun`). Runs in
  which neither side numbers that many segments meet this by themselves
  (`KcpDelivery.ShortRunIsTimely`).
- Both endpoints start from new control blocks with one conversation number and any settings that
  the setters allow, made before the first use (`KcpSettings.SettingsStartRuns`). Payloads may be
  any bytes, operations may come in any order, the clock may show anything.
- Hosts are little-endian, as far as header words and bit fields are concerned.

## Model

| member | source | states |
|---|---|---|
| KcpDelivery.MessagesArriveInOrder | dep/misc/ikcp.h:764-943 | In message mode, in every run of two endpoints over a network that loses, repeats, delays and reorders datagrams, the messages `ikcp_recv` returned are a prefix of the messages `ikcp_send` accepted, in both directions at once |
| KcpDelivery.BytesArriveInOrder | dep/misc/ikcp.h:764-943 | In either mode, stream mode with its partial appends included, the bytes read are a prefix of the bytes written |
| KcpDelivery.SegmentsArriveInOrder | dep/misc/ikcp.h:1090-1139 | The segments ever appended to a receive queue are a prefix of those the peer numbered (payload and fragment count), and every numbered segment is still in the sender's buffer, waiting at the receiver, or delivered in its place |
| KcpDelivery.NothingPendingMeansAllReturned | dep/misc/ikcp.h:1692-1695 | When `ikcp_waitsnd` is 0 on one side and the other's receive queue is empty, every accepted message has been returned |
| KcpDelivery.NeverStalls | dep/misc/ikcp.h:1679-1690 | In message mode a full receive queue always holds a complete message at its head, in every run |
| KcpDelivery.WindowsAlwaysHold | dep/misc/ikcp.h:966-1013 | In every run and across wraparound: the send buffer increases inside the window, `snd_una` is its head or `snd_nxt`, at most 65535 numbers are in flight; the reorder buffer increases without duplicates inside the receive window, the receive queue stays within it, and the next segment never waits while there is room |
| KcpDelivery.DatagramsFit | dep/misc/ikcp.h:1363-1419 | Every datagram ever handed to the output callback is between 24 bytes and the mtu long |
| KcpDelivery.EveryRunOk | dep/misc/ikcp.h:538-541 | The engine with wrapping 32-bit numbers stays in step with its twin over unbounded numbers in every timely run, and both invariants hold |
| KcpDelivery.ShortRunIsTimely | dep/misc/ikcp.h:538-541 | A run in which neither side numbers 2^31 segments, less a window, needs no assumption about the age of datagrams |
| KcpDelivery.StepKeepsRunOk | dep/misc/ikcp.h:1168-1275 | One step of either endpoint keeps the twins in step and the invariants of safety and of the callers |
| KcpRoundTrips.WorldRoundTrip | dep/misc/ikcp.h:977-1013 | For the 32-bit blocks, from any state of any run: if the oldest segment is due at a flush or update of A and B's queue has room, then one datagram with it and one with its acknowledgement that get through leave `snd_una` ahead of where it was, whatever both sides and the network do before, between and after (fewer than 2^31 - 65536 segments being numbered meanwhile) |
| KcpRoundTrips.RoundTripMakesProgress | dep/misc/ikcp.h:977-1013 | The same over unbounded numbers, without a bound, wherever the oldest segment is inside the receiver's window |
| KcpRoundTrips.RoomForOldest | dep/misc/ikcp.h:1234-1236 | The oldest segment is inside the window of a receiver whose queue is not full |
| KcpProgress.FlushSendsDue | dep/misc/ikcp.h:1455-1515 | A flush puts out data for exactly the segments that were never sent, timed out, or were acknowledged past often enough |
| KcpProgress.DeliveryIsAcked | dep/misc/ikcp.h:1229-1236 | A delivered data segment below the end of the window, new or old, leaves an acknowledgement to send |
| KcpProgress.FlushLogsAck | dep/misc/ikcp.h:1363-1375 | A flush puts out every acknowledgement that waits, and none is lost before |
| KcpProgress.DeliveryClears | dep/misc/ikcp.h:977-1013 | A delivered acknowledgement of the oldest segment, or an older one, leaves `snd_una` past it |
| KcpProgress.RunGrows | dep/misc/ikcp.h:966-1013 | In every run `snd_una` and `rcv_nxt` never move backwards |
| KcpRoundTrips.WorldProbe | dep/misc/ikcp.h:1377-1421 | For the 32-bit blocks, from any state of any run: when the peer's window is 0 and a probe is due at a flush or update, one probe and one answer that get through leave `rmt_wnd` at the room the receiver had at some moment after the probe arrived, whatever happens in between |
| KcpRoundTrips.ProbeReopens | dep/misc/ikcp.h:1377-1421 | The same over unbounded numbers |
| KcpRoundTrips.FlushAnnounces | dep/misc/ikcp.h:1326-1333 | Everything one flush puts out announces the same unused window, and a pending answer to a probe is among it |
| KcpProgress.TimeoutsStayBounded | dep/misc/ikcp.h:949-964 | In every run the retransmission timeout stays between its minimum and 60000 ms |
| KcpSafety.StepKeeps | dep/misc/ikcp.h:1090-1139 | Every step of either endpoint keeps the two-party invariant: windows well-formed, acknowledgements truthful, nothing lost, delivered is a prefix of numbered |
| KcpSafety.RunKeeps | dep/misc/ikcp.h:1090-1139 | The two-party invariant holds throughout every run |
| KcpSafety.FlushIsGood | dep/misc/ikcp.h:1338-1521 | Whatever state a flush starts in, the segments it puts out carry true numbers, acknowledge only what is held, and fit the mtu |
| KcpSafety.InputWiresKeeps | dep/misc/ikcp.h:1156-1306 | Reading a truthful datagram, whole, keeps the invariant |
| KcpSafety.RecvKeeps | dep/misc/ikcp.h:764-842 | `ikcp_recv` keeps the invariant, whether it takes, only looks, or fails |
| KcpSafety.SendKeeps | dep/misc/ikcp.h:875-943 | `ikcp_send` keeps the invariant in both modes |
| KcpSafety.NoLossStays | dep/misc/ikcp.h:977-1013 | That no numbered segment is lost survives everything the peer does |
| KcpWindows.SenderTakesUna | dep/misc/ikcp.h:999-1013 | A cumulative acknowledgement removes exactly the segments below it, moves `snd_una` forwards only, and keeps the window |
| KcpWindows.SenderTakesAck | dep/misc/ikcp.h:977-997 | A selective acknowledgement removes the segment it names and no other, moves `snd_una` forwards only, and keeps the window |
| KcpWindows.ReceiverTakes | dep/misc/ikcp.h:1229-1253 | A data segment below the end of the window is acknowledged and then held, one beyond it changes nothing; the queue grows by exactly the next numbered segments |
| KcpWindows.ParseDataOk | dep/misc/ikcp.h:1090-1139 | Putting a segment in its place keeps the reorder buffer increasing, drops duplicates, and moves exactly the segments that are next |
| KcpWindows.MoveOk | dep/misc/ikcp.h:1423-1449 | Queued segments enter the window in order and are numbered without gaps |
| KcpWindows.FlushWires | dep/misc/ikcp.h:1338-1521 | A flush numbers exactly the segments it takes from the queue and puts out only what is true of both directions |
| KcpMessages.FragmentsCarry | dep/misc/ikcp.h:899-940 | The fragments of a message hold its bytes in order and their `frg` counts down to 0 |
| KcpMessages.SendMessage | dep/misc/ikcp.h:875-943 | An accepted message is queued as exactly its own fragments, behind all messages before it |
| KcpMessages.RecvIsNextMessage | dep/misc/ikcp.h:764-842 | What `ikcp_recv` returns is the next accepted message, whole, and what leaves the queue is exactly its fragments |
| KcpMessages.PeekAnnounces | dep/misc/ikcp.h:847-869 | Whenever `ikcp_peeksize` announces a length, it is that of the next accepted message not returned yet |
| KcpMessages.LookConsumesNothing | dep/misc/ikcp.h:764-790 | A peek, and a receive that fails with -1, -2 or -3, takes nothing out of the queue |
| KcpMessages.FullQueueIsReadable | dep/misc/ikcp.h:847-869 | Fewer fragments than the smallest receive window means a full queue begins with a whole message |
| KcpMessages.ActKeepsUser | dep/misc/ikcp.h:764-943 | Every operation keeps the tie between what callers sent and received and the segments on the way |
| KcpSimulation.ActInStep | dep/misc/ikcp.h:538-541 | Each operation over 32-bit numbers and bytes is the operation over unbounded numbers and segments, seen through its low 32 bits |
| KcpSimulation.InputWiresLow | dep/misc/ikcp.h:1156-1306 | Reading a timely datagram with wrapping comparisons does what reading it with true order does |
| KcpSimulation.FlushLow | dep/misc/ikcp.h:1338-1550 | A flush over wrapping numbers is the flush over unbounded ones |
| KcpSimulation.ParseDataLow | dep/misc/ikcp.h:1090-1139 | The place found by wrapping comparison is the place by true order |
| KcpSimulation.PackLow | dep/misc/ikcp.h:1363-1419 | Truncating sequence numbers does not change how segments are packed |
| KcpSimulation.InputOfEncoded | dep/misc/ikcp.h:1168-1275 | Input of the bytes of a good datagram is input of its segments, with return code 0 |
| KcpSimulation.NotFarAhead | dep/misc/ikcp.h:1427-1449 | The sender is never further ahead of the receiver than both windows together |
| Arithmetic32.ItimediffIsExact | dep/misc/ikcp.h:538-541 | `_itimediff` of wrapped numbers less than 2^31 apart is their true difference |
| Arithmetic32.WrapInjectiveNear | dep/misc/ikcp.h:538-541 | Wrapped numbers less than half the range apart are equal only if the numbers are |
| KcpWire.FramingRoundTrip | dep/misc/ikcp.h:1168-1275 | The segments given to the packer come out of the reading loop in order, field by field with their payloads, from datagrams of 24 to mtu bytes, each read to its end with code 0 |
| KcpWire.ReadEncoded | dep/misc/ikcp.h:1313-1324 | Decoding undoes encoding; of a sequence number the low 32 bits arrive |
| KcpWire.PackIsGood | dep/misc/ikcp.h:1363-1419 | Packing loses, adds and reorders nothing; no datagram is empty or longer than the mtu |
| KcpWire.DecodeHeaderOfEncoded | dep/misc/ikcp.h:456-523 | Each of the eight header fields reads back as it was written, little-endian |
| KcpEngine.PutSeg | dep/misc/ikcp.h:1313-1324 | A segment is written at the pointer, byte for byte its encoding, inside the buffer; what lies before is untouched |
| KcpEngine.Ikcpcb.constructor | dep/misc/ikcp.h:640-702 | A block as created: both windows empty, 128-segment windows, mtu 1400, buffer of three datagrams |
| KcpEngine.Ikcpcb.Send | dep/misc/ikcp.h:875-943 | The method on the fields does exactly `Send` of the specification, codes -1 and -2 and the partial append of stream mode included |
| KcpEngine.Ikcpcb.ExtendLast | dep/misc/ikcp.h:883-905 | Stream mode fills up the last queued segment and nothing else |
| KcpEngine.Ikcpcb.Recv | dep/misc/ikcp.h:764-842 | Merging, draining and window probing do exactly what the specification says, with its error codes |
| KcpEngine.Ikcpcb.Merge | dep/misc/ikcp.h:789-817 | The merged bytes are those of the head message; only its segments leave the queue, none when peeking |
| KcpEngine.Ikcpcb.MoveReady | dep/misc/ikcp.h:819-831 | The loop moves exactly the next consecutive segments, as far as there is room |
| KcpEngine.Ikcpcb.PeekSizeOf | dep/misc/ikcp.h:847-869 | The loop over fragments finds the length of the head message, or -1 |
| KcpEngine.Ikcpcb.UpdateAckTimes | dep/misc/ikcp.h:949-964 | The round-trip estimate and the timeout after an acknowledgement |
| KcpProgress.TimesFit | dep/misc/ikcp.h:949-964 | Round-trip times below 2^28 keep every number of the estimate inside a signed 32-bit variable |
| KcpEngine.Ikcpcb.ShrinkBuffer | dep/misc/ikcp.h:966-975 | `snd_una` becomes the head of the buffer or `snd_nxt` |
| KcpEngine.Ikcpcb.ParseAckOf | dep/misc/ikcp.h:977-997 | The search loop removes the acknowledged segment and stops early as the specification does |
| KcpEngine.Ikcpcb.ParseUnaOf | dep/misc/ikcp.h:999-1013 | The loop drops exactly the head segments below `una` |
| KcpEngine.Ikcpcb.ParseFastackOf | dep/misc/ikcp.h:1015-1039 | The loop counts a duplicate acknowledgement for each earlier segment |
| KcpEngine.Ikcpcb.ParseDataOf | dep/misc/ikcp.h:1090-1139 | The backwards search inserts, drops duplicates, and moves what is ready |
| KcpEngine.Ikcpcb.InputOne | dep/misc/ikcp.h:1186-1275 | What one well-formed segment of a datagram does to the block |
| KcpEngine.Ikcpcb.ReadSegments | dep/misc/ikcp.h:1168-1278 | The reading loop stops with the right code at the first malformed segment and has applied all before it |
| KcpEngine.Ikcpcb.GrowWindow | dep/misc/ikcp.h:1284-1303 | The growth of the congestion window, in wrapping 32-bit arithmetic |
| KcpEngine.Ikcpcb.Input | dep/misc/ikcp.h:1156-1306 | One datagram: result code and new block are those of the specification |
| KcpEngine.Ikcpcb.Append | dep/misc/ikcp.h:1366-1375 | A segment that does not fit hands over the buffer first; the buffer always holds the encoding of the open datagram |
| KcpEngine.Ikcpcb.FlushHeaders | dep/misc/ikcp.h:1353-1421 | Acknowledgements and probes are packed in order, the list of acknowledgements is emptied |
| KcpEngine.Ikcpcb.MoveToWindow | dep/misc/ikcp.h:1423-1449 | The loop numbers queued segments until the window is full or the queue empty |
| KcpEngine.Ikcpcb.Attend | dep/misc/ikcp.h:1456-1488 | First send, timeout and fast resend, each with its timers and counters |
| KcpEngine.Ikcpcb.FlushData | dep/misc/ikcp.h:1455-1515 | The sweep sends what is due in window order and notes losses, hurried resends and dead links |
| KcpEngine.Ikcpcb.FlushOutput | dep/misc/ikcp.h:1338-1521 | Everything put out, as datagrams of the packed encodings |
| KcpEngine.Ikcpcb.ShrinkWindow | dep/misc/ikcp.h:1523-1549 | The reductions after hurried resends and timeouts, and at least one segment |
| KcpEngine.Ikcpcb.Flush | dep/misc/ikcp.h:1338-1550 | New block and datagrams are those of the specification; the scratch buffer of (mtu + 24) * 3 bytes is never overrun |
| KcpEngine.Ikcpcb.Update | dep/misc/ikcp.h:1553-1579 | Clock, flush when due, nothing otherwise |
| KcpEngine.Ikcpcb.CheckAt | dep/misc/ikcp.h:1590-1626 | The loop over resend times computes the specified time |
| KcpEngine.Ikcpcb.SetMtuTo | dep/misc/ikcp.h:1630-1643 | Refuses mtu below 50, else replaces buffer, mtu and mss together |
| KcpEngine.Ikcpcb.SetWindows | dep/misc/ikcp.h:1679-1690 | Positive arguments are taken, others leave their window alone; a receive window of 128 or more stays so |
| KcpEngine.Ikcpcb.SetInterval | dep/misc/ikcp.h:1645-1651 | The interval is bounded to 10 to 5000 ms |
| KcpEngine.Ikcpcb.SetNoDelay | dep/misc/ikcp.h:1653-1676 | Each setting is made unless its argument is negative, which leaves it as it was, and nothing else changes; an interval within 10 to 5000 ms stays within, a minimum timeout of 30 or 100 ms stays one of the two |
| KcpSettings.SettingsStartRuns | dep/misc/ikcp.h:1630-1690 | Two created blocks of one conversation, after any sequence of setters on either side, are a start of the theorems about runs: at least 128 segments in the receive window, mtu at least 50, interval and timeout in their bounds |
| KcpSettings.ConfiguredDatagramsFit | dep/misc/ikcp.h:1630-1643 | After any setters, every datagram of every run fits the mtu that was set |
| KcpCongestion.BalanceIsKeptIff | dep/misc/ikcp.h:1282-1304 | For one step: growth and a hurried resend keep (cwnd-1)*mss < incr < (cwnd+1)*mss, from every balanced block whose threshold is 2 to 32767, with a peer window of at most w and at most f segments in flight, if and only if the largest avoidance step from below w*mss, rounded up to a segment, and (max(f/2, 2)+fastresend)*mss are below 2^32; the square of mss may wrap |
| KcpCongestionRuns.WindowsStayBalanced | dep/misc/ikcp.h:1282-1304 | In every run, if each side's mss and fast-resend limit suit (as above) the largest window the other can announce, min(rcv_wnd, 65535), and what may be in flight: the balance holds on both sides, `ssthresh` stays within 2 to 32767, and the window is at least 1 once anything was put out |
| KcpCongestionRuns.CreatedStartsEven | dep/misc/ikcp.h:640-702 | The settings of a new block meet this with every peer |
| KcpSettings.ConfiguredWindowsStayBalanced | dep/misc/ikcp.h:1630-1690 | The same after any setters that leave suitable sizes |
| KcpSettings.SettersMean | dep/misc/ikcp.h:1630-1690 | What `ikcp_setmtu`, `ikcp_wndsize` and `ikcp_interval` take, and what they make of the rest |
| KcpSettings.DelaysMean | dep/misc/ikcp.h:1653-1676 | What each argument of `ikcp_nodelay` sets |
| KcpSettings.CreatedHasDefaults | dep/misc/ikcp.h:640-702 | The defaults of a new block |
| KcpCongestionRuns.FlushAnnouncesFew | dep/misc/ikcp.h:1326-1332 | What a flush puts out announces at most min(rcv_wnd, 65535) segments |
| KcpCongestionRuns.InputKeepsEven | dep/misc/ikcp.h:1195-1304 | Reading a datagram that announces no more than that keeps the balance and never reduces the window |
| KcpCongestionRuns.FlushKeepsEven | dep/misc/ikcp.h:1378-1545 | A flush keeps the balance and the bound on what is in flight, and leaves a window of at least 1 if it ran |
| KcpCongestion.SmallSegmentsSuit | dep/misc/ikcp.h:1284-1301 | With mss at most 65535 and fastresend at most 2^15 every peer window of 3 or more suits |
| KcpCongestion.GrowthFails | dep/misc/ikcp.h:1284-1303 | For every other mss and window a balanced block with threshold 2 that slow start or avoidance, in 32-bit arithmetic, takes out of balance |
| KcpCongestion.FastFails | dep/misc/ikcp.h:1523-1531 | The same for a hurried resend whose window exceeds 32 bits |
| KcpCongestion.GrowBalanced | dep/misc/ikcp.h:1284-1303 | Slow start, avoidance (mss*mss/incr) and clamping keep the balance and never reduce the window, and a window that changed is within the peer's |
| KcpCongestion.AvoidanceIncr | dep/misc/ikcp.h:1289-1291 | The avoidance step never lowers `incr` and leaves room below 2^32 for rounding up to a segment, so that only the square of mss can wrap |
| KcpCongestion.AfterFastBalanced | dep/misc/ikcp.h:1523-1531 | A hurried resend sets a balanced window of at least one segment, whichever settings suit |
| KcpCongestion.ShrinkBalanced | dep/misc/ikcp.h:1523-1545 | After a flush that ran the window is balanced and at least 1 |
| KcpSending.FlushesFillTheWindow | dep/misc/ikcp.h:1423-1449 | In every run an operation that flushes numbers exactly min(queued, max(0, limit - in flight)) segments, where the limit is min(cwnd, snd_wnd, rmt_wnd), or min(snd_wnd, rmt_wnd) with `nocwnd`: so it leaves no more in flight than before or than the limit |
| KcpSending.FlushTakes | dep/misc/ikcp.h:1423-1449 | The same of one flush, on the unbounded block |
| KcpFastResend.DatagramCounts | dep/misc/ikcp.h:1015-1039 | After a datagram every segment still in the buffer was there before, its `fastack` one higher exactly if the newest number the datagram acknowledges lies in the window left behind it and above the segment |
| KcpFastResend.NoAcksNoCount | dep/misc/ikcp.h:1278-1280 | A datagram without acknowledgements changes no counter |
| KcpFastResend.RunKeepsSeg | dep/misc/ikcp.h:1456-1488 | Over any run a segment is acknowledged, put out again, or has counted every pass |
| KcpFastResend.FastRetransmit | dep/misc/ikcp.h:1475-1488 | A segment whose counter and passes come to `fastresend`, within `fastlimit`, is acknowledged or put out again by the next flush, whatever else happened and before its timeout |
| KcpReceiving.ReceiveReturnsNext | dep/misc/ikcp.h:764-842 | In every run in message mode `ikcp_recv` returns the next accepted message if it is whole and fits the buffer, -3 if it does not fit, -2 as long as it is not whole, -1 if nothing waits; and `returned` grows by exactly that message |
| KcpReceiving.RecvWhole | dep/misc/ikcp.h:781-784 | A message whole at the head is received if and only if it is no longer than the buffer, otherwise -3 |
| KcpReceiving.RecvCodes | dep/misc/ikcp.h:772-784 | Of any queue: -1 if and only if it is empty, -2 if and only if fewer segments wait than the head message has, -3 if and only if that is longer than the buffer; a failing receive changes nothing |
| KcpReceiving.RecvReopens | dep/misc/ikcp.h:833-839 | Room regained in a full queue is told by the next flush |
| KcpCutting.MessageIsTaken | dep/misc/ikcp.h:907-943 | In message mode a message is taken if and only if 127 segments hold it; all but the last are full; a longer one changes nothing |
| KcpCutting.StreamIsFilled | dep/misc/ikcp.h:883-943 | In stream mode the last queued segment is filled up first, the rest queued in full segments if 127 hold it |
| KcpCutting.CountIsLeast | dep/misc/ikcp.h:907-909 | The number of segments is the least that holds the bytes |
| KcpRetransmission.FlushHandles | dep/misc/ikcp.h:1456-1500 | Every segment of the window, in its place: sent first, timed out, resent early or left alone, each with its timers and counters as the protocol has them |
| KcpRetransmission.FlushPutsOut | dep/misc/ikcp.h:1353-1515 | A flush puts out the waiting acknowledgements in order, a question if it is time, an answer if one is owed, and the data sent now in order, all with the same conversation, room and `una` |
| KcpRetransmission.FlushAnswers | dep/misc/ikcp.h:1502-1549 | Timeouts are counted, a segment put out once too often gives up the link, a timeout leaves a window of one segment and half the limit as threshold, an early resend half of what is in flight, anything else the window as it was |
| KcpRetransmission.QuestionsAreTimed | dep/misc/ikcp.h:1377-1394 | Questions of the window come first after 7 seconds, then each half as long again after the last, never more than 120 seconds |
| KcpRetransmission.WaitsDouble | dep/misc/ikcp.h:1466-1474 | Without `nodelay` the n-th timeout of a segment waits 2^n times its first wait |
| KcpWindowGrowth.GrowthIsExact | dep/misc/ikcp.h:1284-1303 | For all sizes that suit the peer, growth in 32 bits is growth in plain numbers: a segment for each new acknowledgement below the threshold, about a segment for each window full above it, never past the peer's window |
| KcpWindowGrowth.OnlyNewAcksWiden | dep/misc/ikcp.h:1282-1304 | A datagram widens the window if and only if it moves `snd_una`, and leaves the threshold alone |
| KcpRoundTripTime.SampleCounts | dep/misc/ikcp.h:949-964 | The first sample is taken as it is; then one counts an eighth, its distance a quarter; the timeout is the smoothed time and the larger of the interval and four deviations, within its bounds |
| KcpRoundTripTime.SampleBringsCloser | dep/misc/ikcp.h:949-964 | A sample brings the smoothed time closer and never past it |
| KcpRoundTripTime.OnlyAcksGiveSamples | dep/misc/ikcp.h:1216-1220 | Only acknowledgements whose time is not ahead of the clock change the estimate |
| KcpRoundTripTime.SamplesAreTrue | dep/misc/ikcp.h:1044-1090 | In every run each acknowledgement names number and time of a data segment the other side has put out |
| KcpRoundTripTime.DataIsStamped | dep/misc/ikcp.h:1490-1493 | The data of a flush is marked with its time |
| KcpFormat.EncodedIsLaidOut | dep/misc/ikcp.h:456-523 | Every field of a segment lies at its place, lowest byte first |
| KcpFormat.ReadingStops | dep/misc/ikcp.h:1168-1194 | Reading stops with 0 for less than a header, -1 for another conversation, -2 for a payload cut off, -3 for an unknown command, in this order, and otherwise takes the segment laid out there |
| KcpFormat.InputCodes | dep/misc/ikcp.h:1156-1194 | The codes of `ikcp_input`; after a malformed segment what the ones before it did stays done and the closing steps are left out |
| KcpFormat.PackIsFilled | dep/misc/ikcp.h:1366-1371 | Datagrams are filled up: the first segment of the next one would not have fitted |
| KcpTimer.CheckIsNeverLate | dep/misc/ikcp.h:1590-1626 | The announced wait is at most the interval and never beyond the next flush or any pending resend time; 0 if a flush is due |
| KcpTimer.CheckIsNeverIdle | dep/misc/ikcp.h:1590-1626 | An immediate wake-up is asked for only when a flush or a resend is due |
| KcpTimer.NoFlushBeforeCheck | dep/misc/ikcp.h:1553-1579 | An update before the announced time puts nothing out and only moves the clock |
| KcpTimer.NextFlushIsSoon | dep/misc/ikcp.h:1553-1579 | After an update that flushed the next flush is ahead and at most an interval away |
| KcpTimer.FirstDueTick | dep/misc/ikcp.h:1553-1579 | Polling every tick, none flushes until the due one does |
| KcpTimer.DrivenIsPolled | bnet/base/stream.hpp:474-498 | For every number n, the first n flushes of the loop that sleeps until the checked time are those of polling every millisecond: the same ticks, the same segments each time, and the same block in the end |
| KcpTimer.TickIs | dep/misc/ikcp.h:1553-1579 | When an update flushes, and when the next flush is due: an interval after the last, or after now if that has passed or the clock has jumped by ten seconds |
| KcpTimer.CheckIsTight | dep/misc/ikcp.h:1590-1626 | The announced wait is the interval, the time to the next flush or the time to a resend |
| KcpHeader.ReadUndoesWrite | dep/misc/kcp_util.hpp:119-152 | Every header reads back from its twelve bytes; what follows is not read |
| KcpHeader.WriteUndoesRead | dep/misc/kcp_util.hpp:119-152 | Twelve bytes are exactly one header |
| KcpHeader.ComputeChecksum | dep/misc/kcp_util.hpp:154-171 | The word loop, the odd byte and the folding loop, which ends, compute the checksum |
| KcpHeader.ChecksumComplements | dep/misc/kcp_util.hpp:154-171 | Checksum plus word sum is a multiple of 65535 (section 1 of RFC 1071), and the checksum is fixed by the word sum |
| KcpHeader.SealedIsKind | dep/misc/kcp_util.hpp:173-237 | A header with its checksum is of the kind its flags say and no other |
| KcpHeader.MadePassOwnTest | dep/misc/kcp_util.hpp:173-296 | Each `make_kcphdr_*` passes exactly its own test, for its own sequence number only |
| KcpHeader.HeaderIsLaidOut | dep/misc/kcp_util.hpp:119-152 | The fields of a header lie at their places, highest byte first |
| KcpHeader.WordsAreSummed | dep/misc/kcp_util.hpp:154-171 | The words are summed with their first byte as the low one |
| KcpHeader.HeadersAre | dep/misc/kcp_util.hpp:239-296 | Flags and numbers of the four headers, bit for bit |
| KcpHeader.TestsAre | dep/misc/kcp_util.hpp:173-237 | The four tests, bit for bit |
| KcpHandshake.ClientAndServerAgree | bnet/base/stream.hpp:603-690 | However datagrams are lost, repeated, delayed or reordered: a connected client uses its server's conversation, which is not 0 and is the one it asked for, if any |
| KcpHandshake.ServerAnswers | bnet/base/stream.hpp:354-387 | The server answers every copy of the SYN with the same conversation, which it never changes; every copy after the first resets the control block |
| KcpHandshake.OneExchangeConnects | bnet/base/stream.hpp:664-690 | One SYN and one answer that get through connect a waiting client |
| KcpHandshake.KcpStream.Gen | bnet/base/stream.hpp:572-588 | The conversation asked for, or the next counter value that is not 0 |
| KcpHandshake.KcpStream.Serve | bnet/base/stream.hpp:603-632 | The server's handshake on the first datagram: state and answer |
| KcpHandshake.KcpStream.Receive | bnet/base/stream.hpp:337-414 | A datagram of header size after the handshake: a SYN resets the control block and is answered, a FIN is reported as a reset connection, a SYN without a block aborts |
| KcpHandshake.KcpStream.Connect | bnet/base/stream.hpp:680-699 | The client accepts a SYN-ACK for its own number only |
| KcpHandshake.ConversationsAreFresh | bnet/base/stream.hpp:572-588 | The conversation asked for, or the next counter value that is not 0, behind which the counter then stands |
| KcpHandshake.ServerStarts | bnet/base/stream.hpp:603-632 | What the first datagram makes of a server, and its answer |
| KcpHandshake.HeaderOutcomes | bnet/base/stream.hpp:337-414 | What each kind of header does after the handshake, and that anything else does nothing |
| RadixTree.TreeNode.Walk | bnet/tool/tree.hpp:88-184 | Adding in place, through shared nodes: heap and result are those of the walk on values; nothing outside the tree is touched |
| RadixTree.TreeNode.Pass | bnet/tool/tree.hpp:110-172 | One level of the walk in place: parameter child, indexed child raised and moved, wildcard child, or a new one |
| RadixTree.TreeNode.SplitEdge | bnet/tool/tree.hpp:95-107 | Splitting an edge in place: the new child takes over the children |
| RadixTree.TreeNode.RaiseChild | bnet/tool/tree.hpp:195-216 | `increment_child_prio` with its swap loop: children and index string move together, and the position returned is the child's |
| RadixTree.TreeNode.MoveUp | bnet/tool/tree.hpp:200-205 | The swap loop moves the child past exactly those of lower priority, keeping the others' order |
| RadixTree.TreeNode.AddNode | bnet/tool/tree.hpp:219-226 | A new child goes last, or before the wildcard child |
| RadixTree.TreeNode.Insert | bnet/tool/tree.hpp:269-381 | The nodes of a new route are built in place |
| RadixTree.TreeNode.GrowChild | bnet/tool/tree.hpp:132-171 | A child for a route no child continues |
| RadixTree.CommonPrefixOf | bnet/tool/tree.hpp:383-390 | The loop finds the longest common prefix |
| Routing.Router.Add | bnet/tool/tree.hpp:54-56 | On the heap: the first handler of a route stays, every other route keeps what it had, and a static route among static routes is accepted if and only if it is new |
| Routing.Router.IsTable | bnet/tool/tree.hpp:74-184 | After any calls the heap tree holds for each route the handler of its first accepted call |
| RouteTree.LongestCommonPrefix | bnet/tool/tree.hpp:383-390 | A common prefix that cannot be extended |
| RouteTree.NewPosition | bnet/tool/tree.hpp:195-205 | Everything passed has lower priority, what stands before has not |
| RouteWalk.AddExtends | bnet/tool/tree.hpp:74-184 | Whatever the tree: an accepted add binds its route and changes no other; a refused one changes none; the shape is kept |
| RouteWalk.WalkExtends | bnet/tool/tree.hpp:88-172 | The same for the walk from any node, through splits, moves and parameters |
| RouteTable.SplitRoutes | bnet/tool/tree.hpp:95-107 | Splitting an edge changes no route |
| RouteTable.IncrementIndexed | bnet/tool/tree.hpp:195-216 | Index string and children stay aligned, distinct and sorted by descending priority |
| RouteTable.IncrementRoutes | bnet/tool/tree.hpp:195-216 | Reordering children changes no route |
| RouteAdd.InsertFresh | bnet/tool/tree.hpp:269-381 | `insert_child` into an empty node makes a tree with exactly the one route, parameters included |
| RouteAdd.GrowStatic | bnet/tool/tree.hpp:132-141 | A new child takes its place and adds exactly its route |
| RouteAdd.GrowWild | bnet/tool/tree.hpp:290-316 | A new wildcard child adds exactly its route |
| RouteRuns.TreeIsTable | bnet/tool/tree.hpp:54-56 | After any run of adds, static and `:name`, the tree is the table of first accepted calls |
| RouteRuns.StaticAcceptedIff | bnet/tool/tree.hpp:174-182 | A static route is accepted if and only if it is not in the table |
| RouteRuns.StaticTreeIsMap | bnet/tool/tree.hpp:54-182 | With static routes the tree is the map of first registrations, and an add returns true exactly when its route is new |
| RouteAccepts.AcceptedIff | bnet/tool/tree.hpp:74-184 | After any calls a route is accepted if and only if it is new and no accepted route has a parameter of another name where it has one |
| RouteAccepts.WalkAccepts | bnet/tool/tree.hpp:88-172 | The same of the walk from any node |
| RouteNames.TreeIsNamed | bnet/tool/tree.hpp:95-107 | Every node with a handler carries the whole route that leads to it, although a split gives nodes a part of another |
| RoutePriorities.PrioritiesCount | test/tree.hpp:102-117 | After accepted calls each node's priority is the number of handlers at and below it |
| RoutePriorities.AddExact | bnet/tool/tree.hpp:74-184 | One accepted call keeps every priority a count of handlers |
| RouteLookup.GetValue | bnet/tool/tree.hpp:392-636 | The lookup ends, although going back lengthens the path, with the result of the turns one after the other; a handler found is that of the returned route, and the values bound, each one segment, fill its parameters to the text; what the walk that never goes back finds, it finds |
| RouteLookup.LookupIsRight | bnet/tool/tree.hpp:392-636 | The same for the lookup as a function, in every tree |
| RouteMisses.ParameterRouteIsMissed | bnet/tool/tree.hpp:489-512 | With the routes `/:u` and `/f:v/e`, in this order, the text `/fg` fits the first route and the lookup finds nothing |
| RouteFinds.FindsExactly | bnet/tool/tree.hpp:392-636 | If no two accepted routes agree up to a place where one goes on with a parameter and the other with something else: a handler, route and values are the result if and only if the route was accepted with that handler and the values fit it to the text |
| RouteFinds.FoundIff | bnet/tool/tree.hpp:392-636 | In that case a text is found if and only if it fits an accepted route |
| RouteFinds.CalledApart | bnet/tool/tree.hpp:54-56 | It is enough that no two paths called compete in that way |
| RouteByTable.LookupByTable | bnet/tool/tree.hpp:392-636 | Whatever the calls and their order, the lookup in the tree comes to what a search along the text through the set of accepted routes comes to, which knows no tree: by the next character first, by the parameter if nothing is found that way, and to a stop in the places where the source returns |
| RouteByTable.MissedIff | bnet/tool/tree.hpp:392-636 | A text that fits an accepted route is missed if and only if that search stops |
| RouteByTable.OrderIsNotSeen | bnet/tool/tree.hpp:54-61 | Two runs of calls that accept the same routes with the same handlers answer every text alike, values included, whatever trees they built |
| RouteDeadEnds.MissedMeans | bnet/tool/tree.hpp:477-601 | If a text fits an accepted route and is not found, another accepted route parts from it where it has a parameter, with the character the text goes on with, and leads into a dead end: a parameter that ends the text where no route does, a parameter no route goes on behind, a last slash no route has, or one slash short of a route |
| RouteDeadEnds.FoundUnlessDeadEnd | bnet/tool/tree.hpp:392-636 | A text that meets no dead end is found if and only if it fits an accepted route |
| RouteDeadEnds.LosesTo | bnet/tool/tree.hpp:402-601 | The same below any node the search stands at |
| RouteSearch.LookupIsSearch | bnet/tool/tree.hpp:392-636 | The loop with its stack of skipped nodes comes to what a recursive search comes to that tries the static child first, goes on with the wildcard child where that finds no way, and ends where it gives up |
| RouteMatch.FitsIffMatch | bnet/tool/tree.hpp:477-495 | Values fit a route to a text if and only if they are those of the match segment by segment: there is at most one such list |
| RouteLean.TreeIsLean | bnet/tool/tree.hpp:74-381 | After any calls no node is idle: it has a handler, or is a parameter with a child, or routes part behind it |
| RouteLookup.RollBack | bnet/tool/tree.hpp:429-449 | Goes back to the last place whose path ends in what is left, if any; values bound since are dropped and the measure falls |
| RouteLookup.PassNode | bnet/tool/tree.hpp:398-543 | A turn that passes a node's path: index, skipped node, parameter |
| RouteLookup.AtNode | bnet/tool/tree.hpp:545-602 | A turn at the end of the path |
| RouteLookup.NoMatch | bnet/tool/tree.hpp:604-634 | A turn where the path and the node part |
| RouteLookup.StaticIsFound | bnet/tool/tree.hpp:402-423 | A static route is found by going straight down, whatever parameter routes stand beside it |
| RouteLookup.StaticLookupIff | bnet/tool/tree.hpp:392-602 | In a tree of static routes a text is found if and only if it is a route, with its handler |
| Routing.Router.Get | bnet/tool/tree.hpp:58-61 | On the heap, after any calls: a handler found is the first accepted one of the route returned, and the values, one segment each, fill that route to the text; in every case it is what the search through the accepted routes comes to; where no accepted routes compete, an accepted route that the text fits is what is found, with those values; where the text meets no dead end, it is found exactly if it fits an accepted route; with static routes `get` is the map of first registrations; a static route accepted is found whatever else there is |
| RadixTree.TreeNode.Read | bnet/tool/tree.hpp:58-61 | Reading the nodes on the heap gives the value the lookup runs on |
| RouteLookup.StaticFoundAfterRun | bnet/tool/tree.hpp:402-423 | A static route that was accepted is found after any run |
| RouteLookup.LookupAfterRun | bnet/tool/tree.hpp:54-61 | What is found after a run was registered by the first accepted call for that route, and the values fill it |
| RouteLookup.StaticLookupIsMap | bnet/tool/tree.hpp:54-61 | `get` after static adds is the map of first registrations |
| RouteFill.FillsParam | bnet/tool/tree.hpp:477-495 | A value bound to a parameter extends the text by exactly itself |
| HttpSplitting.CutsKeepTheState | bnet/base/http/parse.hpp:2464-2667 | However the input is cut: same state, error and bytes taken; the bytes given to the body callback are those of one call, plus at most what that call still held when it failed |
| HttpChunkFaults.CutsAgreeIff | bnet/base/http/parse.hpp:2464-2667 | From any state, every cutting gives exactly what one call gives if and only if the text is not faulty: it is not the rest of what the parser is in, then whole chunks, then a chunk whose data is followed by another byte than CR |
| HttpChunkFaults.StartFailsIff | bnet/base/http/parse.hpp:2516-2627 | From the start of a chunk the parser fails behind a chunk's data exactly on the texts made of whole chunks, a size line, that many bytes, a byte other than CR, and anything |
| HttpChunkFaults.BlockFailsIff | bnet/base/http/parse.hpp:2598-2637 | Inside a chunk's data with n bytes left: exactly if another byte than CR follows those, or CR LF and a text of the form above |
| HttpChunkFaults.FailsIffFaulty | bnet/base/http/parse.hpp:2464-2637 | The same from every state, size lines half read included |
| HttpChunkFaults.IdentityCutsAgree | bnet/base/http/parse.hpp:2464-2505 | A body without chunks may be cut anywhere |
| HttpSplitting.CutsAgreeUnlessFailing | bnet/base/http/parse.hpp:2598-2637 | Cutting is seen exactly in runs that end at a chunk's end |
| HttpSplitting.HoldsChunkEnd | bnet/base/http/parse.hpp:2598-2627 | Before the final CR of a chunk the body of the chunk has not been handed over yet |
| HttpChunks.WrongChunkEnd | bnet/base/http/parse.hpp:2621-2627 | The input `1 CR LF a X`: one call drops the chunk's byte, two calls deliver it |
| HttpChunks.ChunksAreRead | bnet/base/http/parse.hpp:2516-2637 | Decoding the chunked form of any chunks delivers their data in order, and ends before the next chunk |
| HttpChunks.SizeIsRead | bnet/base/http/parse.hpp:2516-2567 | The chunk-size loop accepts a hexadecimal numeral if and only if it is at most the guard's bound, and stores its value |
| HttpChunks.BlockIsRead | bnet/base/http/parse.hpp:2464-2498 | Skipping a block at once is taking its bytes one by one |
| HttpHex.UnhexIs | bnet/base/http/parse.hpp:679-696 | The table against the alphabets `0123456789ABCDEF` and `0123456789abcdef`: other bytes below 128 are refused, those above count as 0 |
| HttpHex.SpelledSizeIsRead | bnet/base/http/parse.hpp:2516-2567 | Every spelling of a number, in either case and with leading zeros, is read as that number up to 2^64 - 17 and refused above |
| HttpHex.NoDigitIsRefused | bnet/base/http/parse.hpp:2521-2553 | A byte below 128 that is no digit is refused in a size, or ends it if it is CR, `;` or a blank |
| HttpHex.WrittenIsRead | bnet/base/http/parse.hpp:2516-2637 | Data cut into chunks in any way, each behind its size in hexadecimal, and closed by `0`, is delivered in order |
| HttpHex.LineEndsAreStrict | bnet/base/http/parse.hpp:2579-2637 | A line end other than CR and LF is refused, and so are size lines of more than 80 KiB |
| HttpChunks.IdentityIsRead | bnet/base/http/parse.hpp:2464-2498 | Of a body with a content length a call delivers what it is given, takes nothing behind it, and is done with its last byte |
| HttpChunks.EofIsRead | bnet/base/http/parse.hpp:2500-2504 | Of a body that ends with the connection every call delivers all it is given |
| HttpChunkGrammar.BodyIsRead | bnet/base/http/parse.hpp:2516-2637 | Every chunked body (section 4.1 of RFC 7230), extensions included, is read to its trailer and its data delivered |
| HttpChunkGrammar.TrailerIff | bnet/base/http/parse.hpp:2516-2637 | The inputs read exactly to the trailer are the chunked bodies |
| HttpBody.AccumulateIsExact | bnet/base/http/parse.hpp:2555-2564 | The guard holds if and only if the next value is small enough, and then the wrapping multiplication is exact |
| HttpBody.StepKeepsSound | bnet/base/http/parse.hpp:2469-2470 | The assertions in the states hold at every byte; the "absent" mark is never reached |
| HttpLength.ReadContentLength | bnet/base/http/parse.hpp:1956-1970 | The stored length is the unbounded decimal value of the digits, or the value is refused: too large, not digits, or something after them |
| HttpParser.Execution.Execute | bnet/base/http/parse.hpp:2464-2667 | One call, with block jumps and marks, equals the byte-at-a-time machine |
| HttpParser.Execution.BodyBlock | bnet/base/http/parse.hpp:2464-2498 | The jump `p += to_read - 1` with the mark |
| HttpParser.Execution.ByteTurn | bnet/base/http/parse.hpp:2516-2597 | One turn on one byte |
| HttpParser.Execution.ChunkEnd | bnet/base/http/parse.hpp:2621-2637 | The CR and LF behind the data, with the body callback in between |
| HttpParser.Execution.SizeByte | bnet/base/http/parse.hpp:2532-2567 | One hexadecimal digit, separator or fault |
| UrlPartition.FieldsPartition | bnet/base/http/parse.hpp:2910-3030 | Of an accepted URL the fields are non-empty runs in bounds, one behind the other; every other byte is a delimiter; `port` is the number its run spells, at most 65535 |
| UrlPartition.AcceptedIff | bnet/base/http/parse.hpp:2910-3030 | The inputs accepted are exactly the texts of a grammar of URLs |
| UrlPartition.GrammaticalIsAccepted | bnet/base/http/parse.hpp:2910-3030 | Every grammatical URL is accepted and its parts are reported as they are |
| UrlPartition.AcceptedIsGrammatical | bnet/base/http/parse.hpp:2910-3030 | Whatever is accepted has the parts of the grammar, scheme without host refused, CONNECT only host and port |
| UrlPartition.FieldsInOrder | bnet/base/http/parse.hpp:2926-2982 | Fields stand in the order of the URL |
| UrlGrammar.ScanIff | bnet/base/http/parse.hpp:1000-1156 | `parse_url_char` survives exactly the texts of grammatical parts |
| UrlGrammar.GrammaticalIsScanned | bnet/base/http/parse.hpp:1000-1156 | No text has two readings |
| UrlHost.ScanHostIsGrammatical | bnet/base/http/parse.hpp:2738-2815 | What `http_parse_host_char` takes is userinfo, host (or bracketed address with zone) and port |
| UrlHost.GrammaticalHostIsScanned | bnet/base/http/parse.hpp:2738-2815 | And every such authority is taken, with one reading |
| UrlHost.CompleteIff | bnet/base/http/parse.hpp:2884-2898 | The end states that are refused are exactly the unfinished authorities |
| UrlAlphabets.ClassesAre | bnet/base/http/parse.hpp:875-891 | Each class of characters is its alphabet, byte for byte |
| UrlAlphabets.PlainIsAccepted | bnet/base/http/parse.hpp:2812-2925 | Every `http://` with a host over letters, digits, points and hyphens, an optional port up to 65535 and an optional path is accepted, with exactly those runs as fields |
| UrlAlphabets.HostIsPlainIff | bnet/base/http/parse.hpp:2754-2768 | Of hosts without delimiters exactly those are accepted that are not empty and have no other byte |
| UrlReading.FieldStep | bnet/base/http/parse.hpp:2926-2982 | Run by run, the fields entered are the parts read, in 16-bit offsets and lengths |
| UrlReading.HostFieldStep | bnet/base/http/parse.hpp:2833-2882 | The same for userinfo, host and port |
| UrlFields.PortValueIsDecimal | bnet/base/http/parse.hpp:3015-3026 | Over digits the loop accepts exactly the numbers up to 65535 and computes them |
| UrlParser.HttpParserUrl.ReadFields | bnet/base/http/parse.hpp:2926-2982 | The first loop sets exactly the fields of the parts read |
| UrlParser.HttpParserUrl.ParseHost | bnet/base/http/parse.hpp:2821-2900 | The host's run is divided in place |
| UrlParser.HttpParserUrl.ReadPort | bnet/base/http/parse.hpp:3002-3027 | The port loop, with its refusal above 65535 |
| UrlParser.HttpParserUrl.ParseUrl | bnet/base/http/parse.hpp:2910-3030 | Result and fields are those of the specification |
| PercentEncoding.DecodeUndoesEncodeIff | bnet/base/http/util.hpp:78-192 | For every string and offset, decoding gives the string back if and only if the part left unencoded has no `+` and no triple begins in it |
| PercentEncoding.DecodeUndoesEncode | bnet/base/http/util.hpp:78-192 | In particular when that part has neither `%` nor `+` |
| PercentEncoding.LeftUnencodedIsLost | bnet/base/http/util.hpp:78-192 | `a+` and `a%41`, encoded from offset 2 on, do not decode to themselves |
| PercentEncoding.EncodedHasNothingToEncode | bnet/base/http/util.hpp:195-253 | After `url_encode` from an offset, `has_unencode_char` from that offset is false |
| PercentEncoding.WellEncodedIff | bnet/base/http/util.hpp:224-250 | What is left uncomplained is exactly a sequence of unreserved bytes and `%` HEXDIG HEXDIG (section 2.1 of RFC 3986) |
| PercentEncoding.UrlDecode | bnet/base/http/util.hpp:78-127 | The loop with its skipping index decodes |
| PercentEncoding.UrlEncode | bnet/base/http/util.hpp:134-192 | The loop encodes from where the URL parser puts it |
| PercentEncoding.HasUnencodeChar | bnet/base/http/util.hpp:195-253 | The loop answers whether anything is left to encode |
| PercentEncoding.FindBegin | bnet/base/http/util.hpp:147-174 | Where encoding begins: at the offset, or by the fields of the parsed URL |
| PercentAlphabets.EncodedByteIs | bnet/base/http/util.hpp:53-76 | Letters, digits and `&*-./=?_` are left alone; any other byte becomes `%` and two digits in upper case |
| PercentAlphabets.TripleIsDecoded | bnet/base/http/util.hpp:78-127 | `%` and two digits of either case become the byte they spell |
| PercentAlphabets.OtherIsDecoded | bnet/base/http/util.hpp:78-127 | `+` becomes a blank; any other byte stays as it is |
| PercentAlphabets.PlainBegins | bnet/base/http/util.hpp:147-174 | Without an offset a plain URL is encoded from behind the slash of its path |
| MultipartRoundTrip.FormIsRead | bnet/base/http/multipart.hpp:304-528 | Parsing the text of a form gives its fields, equal and in equal order |
| MultipartRoundTrip.FieldIsRead | bnet/base/http/multipart.hpp:367-469 | One field is read back from its text, every member |
| MultipartExact.FormIsReadIff | bnet/base/http/multipart.hpp:304-528 | Every form: it comes back if and only if the names are in order, every field is printable, and the boundary divides the parts |
| MultipartExact.SemicolonIsLost | bnet/base/http/multipart.hpp:419-449 | A field whose name is `a;b` does not come back |
| MultipartExact.BoundaryInValueIsLost | bnet/base/http/multipart.hpp:512-515 | A form with the boundary line in a value does not come back |
| MultipartExact.UnboundedStops | bnet/base/http/multipart.hpp:512-520 | At a part that the boundary does not divide, in its header, the parser stops |
| MultipartExact.FieldIsReadIff | bnet/base/http/multipart.hpp:367-469 | A field comes back if and only if its header texts hold no line end, its disposition, name and file name no `;`, and its disposition no blanks at the ends |
| MultipartExact.ReadFormIsPrintable | bnet/base/http/multipart.hpp:473-528 | Whatever body is read, the fields read are printable and in order of their names |
| MultipartRoundTrip.HeaderIsRead | bnet/base/http/multipart.hpp:391-464 | The header rows are read back into the members they came from |
| MultipartRoundTrip.ParametersAreRead | bnet/base/http/multipart.hpp:419-449 | `name` and `filename` are read back from a disposition |
| MultipartRoundTrip.BoundedIff | bnet/base/http/multipart.hpp:512-515 | The next boundary is found behind a part if and only if the part does not contain the boundary line |
| MultipartText.PartIsWritten | bnet/base/http/multipart.hpp:304-357 | A part is written as its rows, those not set left out, an empty line and its value |
| MultipartText.FormIsWritten | bnet/base/http/multipart.hpp:304-357 | A form is its parts behind boundary lines, and the closing line |
| MultipartText.RowIsRead | bnet/base/http/multipart.hpp:391-464 | Titles are known in any case and with white space around them; other rows are passed over |
| MultipartText.ParameterIsRead | bnet/base/http/multipart.hpp:440-447 | So are the keys of the parameters |
| MultipartText.PartNeeds | bnet/base/http/multipart.hpp:367-390 | What a part is refused for |
| MultipartText.LessIsDictionaryOrder | bnet/base/http/multipart.hpp:199-204 | Names are ordered as in a dictionary |
| MultipartFields.FieldList.Insert | bnet/base/http/multipart.hpp:199-204 | Both containers change together: the field goes behind those not greater, and position and entry stay aligned |
| MultipartFields.FieldList.EqualRange | bnet/base/http/multipart.hpp:280-287 | The range holds exactly the fields of the name; without any, both ends are the end of the list |
| MultipartFields.FieldList.Find | bnet/base/http/multipart.hpp:260-265 | A field of the name, or the end if there is none |
| MultipartFields.InsertKeepsOrder | bnet/base/http/multipart.hpp:199-204 | The list stays sorted by name |
| MultipartFields.InsertIsStable | bnet/base/http/multipart.hpp:199-204 | Equal names keep the order of insertion, other names are untouched |
| MultipartFields.InsertedInOrder | bnet/base/http/multipart.hpp:199-204 | Both, after any run of inserting |
| MultipartParser.ToString | bnet/base/http/multipart.hpp:304-357 | The appending loop writes the form's text |
| MultipartParser.ReadParameters | bnet/base/http/multipart.hpp:419-449 | The loop over the parameters |
| MultipartParser.ReadField | bnet/base/http/multipart.hpp:367-469 | One part: its fields, refused, or an exception of `substr` |
| MultipartParser.ReadPart | bnet/base/http/multipart.hpp:484-525 | One turn of the loop over parts |
| MultipartParser.ParseBody | bnet/base/http/multipart.hpp:473-528 | The whole parser, exceptions included |

## Left out

- KcpDelivery.MessagesArriveInOrder: states order and completeness of what arrives, not that it arrives eventually, since the network may lose everything; `KcpRoundTrips.WorldRoundTrip` says what one round trip brings.
- KcpDelivery.EveryRunOk: needs timely runs, because 32-bit numbers of segments 2^31 apart cannot be told apart.
- KcpCongestionRuns.WindowsStayBalanced: asks for sizes that suit the peer's window, since the source multiplies unguarded 32-bit numbers. `KcpCongestion.BalanceIsKeptIff` shows them to be needed for a step from any balanced block; whether runs reach each block that fails is not shown.
- KcpEngine.Ikcpcb.Flush: requires queued segments that fit the mtu, which every state of a run meets; `ikcp_setmtu` and `ikcp_wndsize` after traffic has started are not followed.
- KcpEngine.Ikcpcb.UpdateAckTimes: the smoothed times are unbounded numbers, which are those of the source while round-trip times stay below 2^28 ms (`KcpProgress.TimesFit`); what overflows beyond that is undefined in C.
- KcpHandshake.ClientAndServerAgree: one incarnation of the client, with one sequence number.
- KcpHandshake.KcpStream.Receive: that a repeated SYN resets the control block is counted; what `ikcp_reset` drops is not followed into the delivery theorems, which hold between resets.
- KCP queues are sequences of payload and fragment count, as the other header fields of a queued segment are rewritten before they are sent or never read; list links and the doubling of the acknowledgement array are not modelled.
- KCP logging, allocator hooks, allocation failure, NULL buffers and negative send lengths.
- KCP: the conservative variant of fast acknowledgement is off, as in the source. Stream mode is a setting of a new block, as its field is set directly.
- Sockets, coroutines, timers and sessions around the transport and the handshake: I/O.
- RouteDeadEnds.MissedMeans: one way, as some dead ends only count where routes part; the exact condition is that of `RouteByTable.MissedIff`.
- RouteLookup.GetValue: the lookup only reads, so it runs on the value that `RadixTree.TreeNode.Read` reads from the nodes.
- RadixTree.TreeNode.Walk: the loops of `add_route` and `insert_child` that go down the tree are recursive methods on the nodes; their inner loops stay loops.
- Routing.Router.Add: routes are non-empty and their wildcards are named parameters, one a segment; catch-all routes and what a refused wildcard leaves behind are not modelled. Handlers are numbers, and no null handler is added.
- Router: trailing-slash hints, case-insensitive lookup, error texts, and 32-bit wrap of priorities or 16-bit wrap of the parameter count.
- HttpParser.Execution.Execute: from the states of chunks and identity bodies, with callbacks that return 0; request and status lines, header names, trailers, upgrade, pausing and the next message behind a body are not modelled.
- HttpLength.ReadContentLength: the value without the blanks before it and the line end behind it, which other states of the parser remove.
- UrlPartition.FieldsPartition: for inputs up to 65535 bytes, as the fields have 16-bit offsets; `UrlParser` models the 16-bit fields for longer ones too.
- Multipart: `erase`, `set`, the header extraction from a message, and assertions.
- MultipartFields.FieldList.Find: of several fields of one name, the C++ library does not say which is found; the model takes the first. The multimap is a sorted sequence of keys.
- MIME tables, UTF-8 helpers, byte buffers, and every other codec of the library: easy or table-driven.
