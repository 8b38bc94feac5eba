# Proofs about the proxy server's core

A model of the parts of the proxy server whose correctness depends on whole runs, and proofs of what
those parts promise. Goroutines become atomic steps of a transition system, sockets become byte
streams, and every object the Go code updates in place is a class whose methods are proved against a
specification function; the theorems are about those functions and systems.

- **DNS cache** (`DnsCache`, `DnsRecency`, `DnsLookups`, `DnsTheorems`, `DnsAnswers`). Any number of concurrent
  `Lookup` calls share resolutions, and a stamp-and-scan eviction must behave as a queue. A step is
  one critical section, one resolver return, one channel close or one wake-up.
- **Stream admission** (`HealthMetrics`, `StreamAdmission`, `StreamTheorems`, `StreamOvershoot`,
  `ProxyTunnel`). The optimistic global cap, the check-then-add tunnel cap and every exit path of
  `HandleConnAsync`, interleaved at each atomic counter operation over any number of streams and
  tunnels. The same code is also written as classes and proved to do what one undisturbed stream of the
  system does.
- **Framing** (`NetStream`, `SecureFraming`, `FramingTheorems`, `OversizedWrite`, `TamperedWire`).
  Length-prefixed encrypted packets, the leftover buffer, any interleaving of writes, partial deliveries
  and reads, and any bytes a network may put on the wire.
- **SOCKS5** (`Decimal`, `Socks5`, `SocksText`, `SocksTheorems`, `SocksReports`). The request encoder, the two independent request
  parsers over fixed buffers, and the dispatch on the parsed host (sections 4 and 5 of RFC 1928).
- **Tunnel pool** (`TunnelPool`, `BestChoice`, `PoolTheorems`, `PoolOvershoot`, `ErrorBasedChoice`). Scored
  selection, conservation of tunnels, and the cap under racing callers and error-based creations.
- **Ports** (`PortAllocator`, `PortHolders`). The allocation table, and the tunnels that hold its ports
  until one of two places releases them.
- **Close handshake** (`CloseHandshake`). One accepting thread against any number of closing ones.
- **PAC table** (`PacNames`, `Pac`, `PacTheorems`). A suffix search that writes its answers back into
  the table it searches.
- **Edit box** (`Utf8`, `EditBox`). In-place edits of a UTF-8 buffer (section 3 of RFC 3629) with
  three cached cursor offsets.

## What the proofs found

Where the code does not do all that its comments or a caller may expect, the proofs say when or how far it does.

- A lookup that joins a running resolution gets an answer published after it began, but the resolver
  itself may have returned before (`DnsTheorems.JoinedAnswerMayPredateTheCall`); it did exactly when the
  resolution joined was already in its returned state, from a time before the call
  (`DnsTheorems.JoinedAnswerPredatesIff`).
- The shared stream counter may exceed the limit; admitted streams never do
  (`StreamOvershoot.CounterMayOvershoot`, `StreamTheorems.NeverOverLimit`). The counter stays within the
  limit in all runs exactly when no more streams than the limit are ever unfinished at once
  (`StreamOvershoot.CounterKeptIff`).
- A tunnel limit can be exceeded by racing streams. The most a tunnel reaches is the smaller of the global
  limit and the tunnel's limit plus the number of racers less one (`StreamOvershoot.OvershootLimited`,
  `StreamOvershoot.OvershootHappens`). The limit is kept in all runs exactly when at most one stream may
  race or the global limit is no larger (`StreamOvershoot.LimitKeptIff`).
- The pool cap can be exceeded by racing `GetProxy` callers in the same way, and besides by
  `NewProxyByErrCount`, which adds a tunnel without looking at the cap. The most the pool reaches is the
  cap plus the racers less one plus the tunnels so added (`PoolTheorems.PoolCapped`,
  `PoolOvershoot.PoolOvershoots`). The cap is kept in all runs exactly when no two callers race and no
  tunnel is so added, or all tunnels are so added and are no more than the cap (`PoolOvershoot.CapKeptIff`).
- Without a global limit every stream lowers the counter by one (`ProxyTunnel.ProxyTunnel.HandleConnAsync`).
- A plaintext of 65508 bytes is accepted for writing, but its length prefix wraps to zero and the
  peer rejects it (`FramingTheorems.RoundTripIffSmall`). On a connection in any state the peer gets all that
  was written before, and then its read fails (`OversizedWrite.OversizedWriteBreaks`).
- A host of more than 255 bytes wraps its length byte (`SocksTheorems.RoundTripIffShort`), and a
  `host:port` text survives exactly when its port is in plain decimal form (`SocksTheorems.HostPortTextIff`).
- A `R://` host reaches the control function exactly through the redirect address type. The same type
  with a host that starts with `dns://` and has no `[` makes the dispatch index past the end of a split,
  and nothing recovers from that panic, so the process ends; no other accepted request does
  (`SocksTheorems.OnlyRedirectControls`). Eleven bytes are enough (`SocksTheorems.RedirectCanCrash`).
- The local parser panics on every domain name of 251 to 255 bytes, since the end of the name is computed
  in a byte, and on such requests of address type 5, and on no other (`SocksTheorems.LocalPanicsIff`); the
  encoder's own requests for such names are among them (`SocksTheorems.LongNamePanics`). The host text it returns otherwise is the
  name only as far as the first read had brought it (`SocksTheorems.LocalHostIff`); the raw bytes are right.
- The server parser reads 26 bytes where an IPv6 request has 22 (`SocksTheorems.OtherTypesFail`), and four
  bytes of a bad header are dropped when nothing follows them (`Socks5.GetServerRequest`).
- The comment on `selectBestTunnel` promises the best tunnel; the type bonus makes that true only
  within 0.1 (`TunnelPool.BestIsNearlyBest`, `TunnelPool.BestMayLose`). The best tunnel is picked in every
  order of the list exactly when no other eligible tunnel has its protocol, or it leads by more than 0.1
  within its protocol and by at least 0.1 over all others (`BestChoice.BestPickedIff`).
- A tunnel's port is released twice, by `Server` and by `DelProxy`. If the port was granted again in
  between, the second release takes the mark from its new holder, and the probe does not see a holder
  that listens over UDP (`PortHolders.DoubleReleaseSharesAPort`). Ports stay exclusive exactly when no
  release names a port held by another tunnel (`PortHolders.ExclusiveIffNoForeignRelease`), which one
  release per tunnel would ensure (`PortHolders.OneReleaseIsSafe`).

## Model

| member | source | states |
|---|---|---|
| `DnsCache.DNSCache.constructor` | connections/base/dnscache.go:68-77 | a new cache is empty, with zero counters |
| `DnsCache.DNSCache.Enter` | connections/base/dnscache.go:83-98 | the first critical section serves an unexpired entry, else joins the host's running resolution, else registers a new one; hits and misses follow |
| `DnsCache.DNSCache.Finish` | connections/base/dnscache.go:102-116 | the second critical section retires the resolution and stores exactly the non-empty, non-error answers |
| `DnsCache.DNSCache.Store` | connections/base/dnscache.go:105-111 | a stored answer gets a fresh stamp and expiry `now + ttl`; stamps stay distinct |
| `DnsCache.DNSCache.FindOldest` | connections/base/dnscache.go:123-130 | the scan finds the one entry with the smallest stamp, whatever the map order |
| `DnsCache.DNSCache.EvictLocked` | connections/base/dnscache.go:121-133 | the loop ends and leaves exactly the entries with fewer than `max` newer ones, whatever the map order |
| `DnsRecency.TracksStore` | connections/base/dnscache.go:104-133 | one store and eviction keeps the key set equal to the `max` most recently stored distinct hosts of the history |
| `DnsRecency.NewerIsLater` | connections/base/dnscache.go:104-133 | for a cached host the entries with larger stamps are precisely the distinct hosts stored after it |
| `DnsRecency.TracksBounded` | connections/base/dnscache.go:121-133 | a cache that tracks its history holds at most `max` entries |
| `DnsLookups.StepKeeps` | connections/base/dnscache.go:82-116 | every atomic step of any caller keeps the invariant tying entries, in-flight map, resolutions, callers and counters together |
| `DnsTheorems.Reachable` | connections/base/dnscache.go:82-116 | the invariant holds after every run from the empty cache |
| `DnsTheorems.SingleFlight` | connections/base/dnscache.go:82-116 | at most one open resolution per host; a host is in flight exactly while one is open; each has exactly one owner at work until its channel closes |
| `DnsTheorems.WaiterCanFinish` | connections/base/dnscache.go:91-116 | a waiter's flight always has an owner whose own remaining steps alone let the waiter return with that flight's answer |
| `DnsTheorems.JoinerGetsItsFlight` | connections/base/dnscache.go:91-95 | whatever runs in between, a joiner still waits for the flight it joined or has returned exactly its result |
| `DnsTheorems.AnswersAreFresh` | connections/base/dnscache.go:82-116 | every answer is a resolver answer for that host: an entry stored less than `ttl` before the hit, or a flight retired after the lookup began; an owned flight also returned after it began |
| `DnsTheorems.JoinedAnswerMayPredateTheCall` | connections/base/dnscache.go:91-104 | for every answer there is a run in which a joiner's resolver call returned before that joiner's lookup began |
| `DnsTheorems.JoinedAnswerPredatesIff` | connections/base/dnscache.go:91-104 | in every run, a joiner's resolver call returned before the joiner's lookup began exactly when, at the join, the resolution had already returned at a time before the call |
| `DnsTheorems.EntriesAreAnswers` | connections/base/dnscache.go:104-113 | every entry is a non-empty, error-free resolver answer for its host with expiry `ttl` after its store |
| `DnsTheorems.HoldsTheMostRecent` | connections/base/dnscache.go:104-133 | after any run a host is cached exactly when fewer than `max` distinct hosts were stored since its last store; size at most `max`, stamps distinct |
| `DnsTheorems.CountersAddUp` | connections/base/dnscache.go:84-95 | in every reachable state hits equals the lookups answered from an entry, and misses the lookups that own or share a resolution or have been answered by one |
| `DnsAnswers.UsableAnswersAreStored` | connections/base/dnscache.go:102-113 | in every run the stores are exactly the retired resolutions that gave an address without error, each once, in the order of retirement |
| `DnsAnswers.HitIffUnexpired` | connections/base/dnscache.go:83-90 | a lookup that enters is answered at once exactly when its host has an unexpired entry |
| `DnsAnswers.UnexpiredIffServed` | connections/base/dnscache.go:83-113 | a host has an unexpired entry exactly when its last store is less than `ttl` ago with fewer than `max` other hosts stored since, and the entry holds that answer |
| `DnsAnswers.EnteringLookup` | connections/base/dnscache.go:83-98 | in every state with the invariant, hence in every reachable one, a lookup that enters is answered, with those addresses, exactly when such a store exists; else it shares the one open resolution of its host if there is one; else it starts its own |
| `HealthMetrics.HealthMetrics.constructor` | connections/base/health_metrics.go:25-31 | new metrics count nothing and are not paused |
| `HealthMetrics.HealthMetrics.RecordConnection` | connections/base/health_metrics.go:34-52 | undisturbed, admits exactly when the tunnel accepts connections, counts or pauses accordingly, and keeps the counters in range |
| `HealthMetrics.HealthMetrics.ReleaseConnection` | connections/base/health_metrics.go:55-60 | lowers the active count by one and nothing else |
| `HealthMetrics.HealthMetrics.RecordFailure` | connections/base/health_metrics.go:63-68 | raises the failure count by one and nothing else |
| `HealthMetrics.RatesAreParts` | connections/base/health_metrics.go:105-148 | error rate times total is the failures, load factor times limit the active connections; both are 0 without traffic or limit |
| `HealthMetrics.HealthyIff` | connections/base/health_metrics.go:126-136 | healthy exactly when not paused and without traffic or with fewer than half failed |
| `HealthMetrics.ScoreWorth` | connections/base/health_metrics.go:183-205 | the difference of any two scores: 0.4 of the error rates, 0.3 of the load factors, 0.3 for free capacity and health; a tunnel without traffic scores 1 |
| `HealthMetrics.ScoreInUnit` | connections/base/health_metrics.go:181-205 | error rate, load factor and score of counters in range lie in [0, 1]; above 0.7 only with free capacity and health |
| `HealthMetrics.ScoreMonotone` | connections/base/health_metrics.go:181-205 | more failures, more load or a pause on the same tunnel never raise the score |
| `StreamAdmission.StepKeeps` | connections/base/proxytunnel.go:149-223 | every atomic counter operation of any stream keeps all counters equal to the streams they should count |
| `StreamAdmission.RunKeeps` | connections/base/proxytunnel.go:149-223 | that invariant holds after every interleaving |
| `StreamTheorems.NeverOverLimit` | connections/base/global_limit.go:24-39 | in every interleaving admitted streams never exceed the limit, and the counter is admitted plus in-transit attempts |
| `StreamTheorems.AdmittedIffSlotFree` | connections/base/global_limit.go:28-33 | from any reachable state an undisturbed attempt is admitted exactly when held plus in-transit streams leave a slot |
| `StreamOvershoot.CounterMayOvershoot` | connections/base/global_limit.go:28-32 | for every limit and every excess there is a run in which the counter is over the limit by that much while exactly the limit is admitted |
| `StreamOvershoot.CounterKeptIff` | connections/base/global_limit.go:24-39 | the counter stays within the limit in all runs with at most n unfinished streams at a time, on any tunnels, exactly when n is at most the limit |
| `StreamTheorems.TunnelAccounting` | connections/base/proxytunnel.go:162-210 | each tunnel's alive, active, total and failed counters equal their streams in every reachable state; alive <= active <= total, failed <= total |
| `StreamTheorems.ActiveWithinHeld` | connections/base/proxytunnel.go:154-169 | active connections summed over all tunnels never exceed the admitted streams, hence the limit |
| `StreamTheorems.AllReturned` | connections/base/proxytunnel.go:154-223 | once all streams are done, on whichever exit paths, the global counter and every tunnel's alive and active counts are zero |
| `StreamTheorems.StreamsFinish` | connections/base/proxytunnel.go:149-223 | whatever other streams do in between, twelve turns of its own take a stream to its end, and fewer from where it already stands |
| `StreamTheorems.OvershootBounded` | connections/base/health_metrics.go:34-52 | with at most k streams ever between load and add on a tunnel, its active count never exceeds `maxConn + k - 1` |
| `StreamOvershoot.OvershootHappens` | connections/base/health_metrics.go:38-49 | for all limits and every k there is a run with at most k streams ever in the window that ends with the smaller of the global limit and `maxConn + k - 1` active connections |
| `StreamOvershoot.OvershootLimited` | connections/base/health_metrics.go:34-52 | no run with at most k streams ever in the window has more active connections than that |
| `StreamOvershoot.UnlimitedTakesAll` | connections/base/health_metrics.go:34-52 | a tunnel without a limit can take the whole global budget with no two streams racing |
| `StreamOvershoot.LimitKeptIff` | connections/base/health_metrics.go:34-52 | all runs with at most k racing streams keep a tunnel's limit exactly when k is at most 1 or the global limit is no larger than the tunnel's |
| `StreamTheorems.ScoreAlwaysInUnit` | connections/base/health_metrics.go:183-205 | in every run with non-overlapping checks the counters stay in range and the score in [0, 1] |
| `ProxyTunnel.StreamLimit.TryAcquireStream` | connections/base/global_limit.go:24-34 | undisturbed, admits exactly when there is no limit or the count is below it; a refusal leaves the count as it was |
| `ProxyTunnel.StreamLimit.ReleaseStream` | connections/base/global_limit.go:37-39 | lowers the count by one, limit or not |
| `ProxyTunnel.ProxyTunnel.HandleConnAsync` | connections/base/proxytunnel.go:149-223 | for each of the four outcomes: when it occurs, what it leaves on the tunnel, where a served request is dispatched to, including the panic, and that the budget is back where it was (one lower when there is no limit) |
| `ProxyTunnel.SoloRun` | connections/base/proxytunnel.go:149-223 | the atomic steps of one undisturbed stream have exactly the effect stated for `HandleConnAsync`, from any state |
| `NetStream.NetConn.ReadFull` | connections/prosss/ss_server.go:186-208 | however the network cuts the bytes, a full read returns the next n bytes or fails having consumed what was left |
| `NetStream.NetConn.ReadAtLeast` | connections/prosocks5/socks5.go:248-254 | the first read of a request takes between the minimum and the buffer size |
| `SecureFraming.SSConn.CopyOut` | connections/prosss/ss_server.go:177-184 | copies as much as fits into the caller's buffer and changes nothing beyond |
| `SecureFraming.SSConn.HandOver` | connections/prosss/ss_server.go:216-227 | hands over what fits of a new plaintext and keeps exactly the rest for later reads |
| `SecureFraming.SSConn.Read` | connections/prosss/ss_server.go:175-228 | leftover first, then one packet; result, consumed wire and new leftover are those of the reading function, and the bytes are in the caller's buffer |
| `SecureFraming.SSConn.Write` | connections/prosss/ss_server.go:231-257 | puts the two length bytes, high byte first, and the sealed packet on the wire, or nothing and an error exactly when the packet exceeds 65536 bytes |
| `FramingTheorems.FrontPacket` | connections/prosss/ss_client.go:93-119 | a complete packet at the front of the wire is the frame of the oldest unread write and opens to its plaintext |
| `FramingTheorems.NextKeeps` | connections/prosss/ss_client.go:82-165 | each write, delivery or read of any size keeps: bytes read, leftover and queued plaintexts together are the bytes written |
| `FramingTheorems.ReadsArePrefix` | connections/prosss/ss_client.go:82-165 | in any interleaving of writes of at most 65507 bytes, deliveries and reads, what was read is a prefix of what was written |
| `FramingTheorems.ReadsReachEverything` | connections/prosss/ss_client.go:82-136 | after delivery, enough reads of any positive sizes return every byte written |
| `FramingTheorems.EverythingArrives` | connections/prosss/ss_client.go:82-165 | from any interleaving, delivering the rest and reading on returns every byte sent |
| `FramingTheorems.RoundTripIffSmall` | connections/prosss/ss_client.go:139-165 | a write is read back exactly when it has at most 65507 bytes; 65508 is accepted but unreadable, more is refused |
| `OversizedWrite.OversizedWriteBreaks` | connections/prosss/ss_client.go:82-165 | in any run with an accepted write of 65508 bytes, whatever comes before and after it: the reader gets a prefix of what was written before, until a read goes on to that write; by then all of it was handed over, and that read fails |
| `OversizedWrite.OversizedWriteIsMet` | connections/prosss/ss_client.go:82-136 | once all is delivered, enough reads of any positive sizes include the one that fails |
| `TamperedWire.ReadReports` | connections/prosss/ss_server.go:186-228 | for any bytes on the wire: a new read ends early, refuses a packet below 12 bytes or one the cipher rejects, with nothing handed over or left over, or hands over what fits of the opened packet and keeps the rest, each in exactly its case |
| `TamperedWire.LeftoverReports` | connections/prosss/ss_server.go:176-184 | a read with something left over takes from its front and leaves the wire alone |
| `TamperedWire.OnlyOpenedIsRead` | connections/prosss/ss_server.go:174-228 | whatever bytes arrive, in any pieces, the caller gets a prefix of what the opened packets open to, in order, and nothing of a rejected one |
| `TamperedWire.OnlySealedIsRead` | connections/prosss/ss_client.go:82-136 | with a cipher that opens only what was sealed, everything read is made of whole written plaintexts, the last perhaps cut short |
| `Decimal.DigitsItoa` | connections/prosocks5/socks5.go:539 | the decimal text of a number reads back as that number |
| `Decimal.AtoiItoa` | connections/prosocks5/socks5.go:78 | the integer parser inverts the decimal text within the machine range |
| `Decimal.DigitsIff` | connections/prosocks5/socks5.go:78 | a text is a number exactly when it is not empty and all digits |
| `Decimal.DigitsPositional` | connections/prosocks5/socks5.go:78 | each further digit counts in base ten, leading zeros do not count |
| `Decimal.AtoiSigned` | connections/prosocks5/socks5.go:78 | signs and the nearest bound for numbers out of range |
| `Decimal.AtoiOfJunk` | connections/prosocks5/socks5.go:78 | anything else counts as 0 |
| `Decimal.ItoaIff` | connections/prosocks5/socks5.go:539 | the text written for a number is its only form in digits without leading zeros |
| `SocksText.IPv4ReadsBack` | connections/prosocks5/socks5.go:524 | the address text, cut at its dots, is four numbers, those of the bytes in their order |
| `SocksText.SplitJoined` | connections/prosocks5/socks5.go:539 | cut at its last colon, with brackets around a host with colons removed, a joined text gives back host and port |
| `Socks5.HostToRaw` | connections/prosocks5/socks5.go:73-88 | the appended buffer, byte for byte: header, length byte, host and port with its high byte first; with port -1 host and port are those around the first colon |
| `Socks5.ReadInto` | connections/prosocks5/socks5.go:451 | a full read into part of a buffer fills that part with the next bytes and leaves what is before it alone |
| `Socks5.FillBuffer` | connections/prosocks5/socks5.go:481-517 | the staged reads end with the announced prefix of the stream in the buffer and the rest unread, or with the parser's error and the same bytes consumed |
| `Socks5.ParseBuffer` | connections/prosocks5/socks5.go:522-541 | host and port read out of the filled buffer are those of the request |
| `Socks5.GetServerRequest` | connections/prosocks5/socks5.go:423-542 | in any chunking, result and unread bytes are those of the parser on the whole stream; a bad header returns the bytes already taken together with those of one more read, or nothing when no byte follows the first four |
| `Socks5.SliceHost` | connections/prosocks5/socks5.go:276-281 | the host text cut out of the buffer after the first read; the slice panics exactly for names of more than 250 bytes |
| `Socks5.GetLocalRequest` | connections/prosocks5/socks5.go:228-325 | result and unread bytes are those of the parser on the whole stream, for the number of bytes the first read happened to take, including the panic on long names; a stream shorter than five bytes is used up |
| `Socks5.CompleteLocal` | connections/prosocks5/socks5.go:289-302 | completes a short first read to the announced length, refuses a longer one |
| `SocksTheorems.EncodeThenParse` | connections/prosocks5/socks5.go:423-542 | every host of at most 255 bytes and every port comes back joined, consuming exactly the encoded bytes whatever follows |
| `SocksTheorems.RoundTripIffShort` | connections/prosocks5/socks5.go:73-88 | that round trip holds exactly for hosts of at most 255 bytes |
| `SocksTheorems.LongHostStopsEarly` | connections/prosocks5/socks5.go:80-82 | with a longer host the server leaves encoded bytes unread |
| `SocksTheorems.HostPortTextIff` | connections/prosocks5/socks5.go:75-79 | a `host:port` text survives exactly when the host is short enough and the port a plain 16-bit decimal |
| `SocksTheorems.LocalTakesPrefix` | connections/prosocks5/socks5.go:270-302 | an accepted local request is exactly the announced prefix of the stream; domain names have at most 250 bytes |
| `SocksTheorems.LocalPanicsIff` | connections/prosocks5/socks5.go:257-281 | the local parser panics exactly on requests of a known version and command, address type 3 or 5 and a length byte above 250, however the bytes arrive |
| `SocksTheorems.LongNamePanics` | connections/prosocks5/socks5.go:278 | the encoded request for every host of 251 to 255 bytes, which the server parser reads, makes the local parser panic |
| `SocksTheorems.LocalHostIff` | connections/prosocks5/socks5.go:252-278 | the host text of an accepted request of address type 3 or 5 is the name it carries exactly when all bytes of the name that the first read did not bring are zero |
| `SocksTheorems.LocalThenServer` | connections/prosocks5/socks5.go:252-302 | for accepted IPv4 and domain requests the server parser consumes exactly the returned bytes and reports their port, UDP flag and address, an IPv4 one as the four numbers of its bytes between dots |
| `SocksTheorems.OtherTypesFail` | connections/prosocks5/socks5.go:485-512 | accepted IPv6 requests starve the server parser, and address type 5 is refused by it |
| `SocksTheorems.LocalSurvivesIff` | connections/prosocks5/socks5.go:451-541 | the server parser succeeds on an accepted local request exactly for IPv4 and domain requests |
| `SocksTheorems.DispatchJoined` | connections/base/proxytunnel.go:211-222 | a joined domain request goes to DNS exactly when its host starts with `dns://`, otherwise to TCP, never to control |
| `SocksTheorems.UnbracketJoined` | connections/base/proxytunnel.go:218 | unbracketing a joined host with a colon gives it back exactly when it holds no bracket |
| `SocksTheorems.DnsPayloadArrives` | connections/base/proxytunnel.go:217-219 | a `dns://` payload, encoded, parsed and dispatched, reaches the DNS handler unchanged exactly when it has no bracket |
| `SocksTheorems.OnlyRedirectControls` | connections/base/proxytunnel.go:211-218 | an accepted request reaches the control function exactly when it is a redirect of a `R://` host, and makes the dispatch panic exactly when it is a redirect of a `dns://` host without `[` |
| `SocksTheorems.RedirectCanCrash` | connections/base/proxytunnel.go:217-218 | a request of eleven bytes that passes every check of the parser and makes the dispatch panic |
| `SocksReports.ServerReports` | connections/prosocks5/socks5.go:481-541 | for any stream with a known version and command: exactly when the address type is refused, exactly when bytes are missing, and otherwise the request, the rest, the UDP flag, and host and port as they stand in the bytes |
| `SocksReports.RequestReports` | connections/prosocks5/socks5.go:522-541 | where host, port and flag of a complete request stand in its bytes, for each of the four address types |
| `SocksReports.LocalReports` | connections/prosocks5/socks5.go:252-302 | exactly when the local parser refuses the version, the command or the type, finds extra data or too little, or accepts, and what it returns and leaves unread in each case |
| `SocksReports.UnbracketMeans` | connections/base/proxytunnel.go:218 | unbracketing any host gives what stands after its first `[` up to the next bracket, and panics without a `[` |
| `SocksReports.RoutesByScheme` | connections/base/proxytunnel.go:211-222 | the route and its host, for every host text, by its first bytes |
| `TunnelPool.EligibleScore` | connections/base/health_metrics.go:183-205 | an eligible tunnel's score lies in [0, 1]; without metrics it is 0.5 |
| `TunnelPool.EligibleIff` | servercontroll/proxy_release.go:69-76 | eligible exactly when switched on and without metrics, without a limit or below its limit |
| `TunnelPool.BestIsNearlyBest` | servercontroll/proxy_release.go:62-95 | a tunnel is found exactly when an eligible one exists, and its own score is within 0.1 of every eligible score |
| `TunnelPool.ClearWinnerIsPicked` | servercontroll/proxy_release.go:67-95 | a tunnel more than 0.1 better than every other eligible one is picked wherever it stands in the list |
| `TunnelPool.BestMayLose` | servercontroll/proxy_release.go:81-93 | the 0.1 is attained: the bonus lets the tunnel met first win over one exactly that much better |
| `BestChoice.BestPickedIff` | servercontroll/proxy_release.go:62-95 | a strictly best tunnel is picked in every order of the list exactly when it is the only eligible one of its protocol, or leads by more than 0.1 within its protocol and by at least 0.1 over the others |
| `TunnelPool.ByTypeIsBest` | servercontroll/proxy_release.go:121-139 | selection by type is exactly optimal, takes the first of equals, and finds a tunnel exactly when an eligible one of the type exists |
| `TunnelPool.ProxyPool.AddProxy` | servercontroll/proxy_release.go:163-168 | the tunnel stands behind all others, nothing else changes |
| `TunnelPool.ProxyPool.DelProxy` | servercontroll/proxy_release.go:170-206 | removes all tunnels of the name, counts each under its known protocol, reports whether there was one and which were removed |
| `TunnelPool.ProxyPool.FindBest` | servercontroll/proxy_release.go:67-95 | the scan with best-so-far variables computes the greedy choice |
| `TunnelPool.ProxyPool.FindByType` | servercontroll/proxy_release.go:125-139 | the same for one type |
| `TunnelPool.ProxyPool.GetProxy` | servercontroll/proxy_release.go:39-161 | returns the choice, or at the cap the first tunnel, or adds a new one; undisturbed the pool stays within the cap |
| `TunnelPool.KindOf` | servercontroll/proxy_release.go:275-326 | a known protocol gives a tunnel of that protocol, any other a tls tunnel |
| `TunnelPool.RemovalOfOne` | servercontroll/proxy_release.go:180-195 | a single tunnel goes exactly when it has the name |
| `TunnelPool.RemovalSplits` | servercontroll/proxy_release.go:180-195 | removal treats each part of the list by itself and keeps the order of what stays and of what goes |
| `TunnelPool.NamedExists` | servercontroll/proxy_release.go:180-195 | something is removed exactly when a tunnel has the name |
| `TunnelPool.RaiseCounts` | servercontroll/proxy_release.go:186-188 | each known protocol's count rises by the number of its tunnels removed; no key appears |
| `PoolTheorems.TunnelsConserved` | servercontroll/proxy_release.go:163-197 | in every run, for each known protocol, tunnels added equals tunnels in the pool plus tunnels counted as removed |
| `PoolTheorems.DeleteTwice` | servercontroll/proxy_release.go:170-197 | deleting keeps exactly the other names, and deleting a gone tunnel changes nothing |
| `PoolTheorems.PoolCapped` | servercontroll/proxy_release.go:97-256 | in any run of `GetProxy`, `DelProxy` and `NewProxyByErrCount` calls with at most k `GetProxy` callers ever between count check and add, the pool never exceeds `MaxTunnels + k - 1` (zero for k = 0) plus the tunnels `NewProxyByErrCount` has added |
| `PoolOvershoot.PoolOvershoots` | servercontroll/proxy_release.go:100-113 | that bound is reached for every cap, every k and every number of error-based creations |
| `PoolOvershoot.CapKeptIff` | servercontroll/proxy_release.go:97-256 | all runs with at most k callers between check and add and at most e error-based creations keep the cap exactly when k is 1 and e is 0, or k is 0 and e is at most the cap |
| `PoolTheorems.SoloCall` | servercontroll/proxy_release.go:39-161 | an undisturbed caller of the step system does what `GetProxy` states |
| `ErrorBasedChoice.CollectStats` | servercontroll/proxy_release.go:210-237 | the map holds the sums over each protocol's tunnels with metrics, for the known protocols and any other met |
| `ErrorBasedChoice.StatsAddUp` | servercontroll/proxy_release.go:229-234 | total, failed and count of two lists together are the sums of theirs |
| `ErrorBasedChoice.StatsOfOne` | servercontroll/proxy_release.go:222-235 | one tunnel adds its own counters under its protocol if it keeps metrics |
| `ErrorBasedChoice.ProtocolsMet` | servercontroll/proxy_release.go:210-219 | the protocols considered are the four known ones and those of tunnels with metrics |
| `ErrorBasedChoice.ChoiceMeans` | servercontroll/proxy_release.go:240-253 | in the counters: when all protocols are in use, the chosen one has traffic that did not all fail and no larger part of failures than any other such protocol |
| `ErrorBasedChoice.NoneUsableIsQuic` | servercontroll/proxy_release.go:240-253 | when all are in use and none has such traffic, the choice is quic |
| `ErrorBasedChoice.ChooseProtocol` | servercontroll/proxy_release.go:240-253 | for every map order: an unused protocol if there is one, else the least failure ratio among those with traffic and a ratio below 1, else `quic` |
| `ErrorBasedChoice.UnusedWins` | servercontroll/proxy_release.go:243-247 | an unused known protocol always beats every used one |
| `ErrorBasedChoice.ChoiceUpToTies` | servercontroll/proxy_release.go:243-253 | two map orders can differ only between unused protocols or equal ratios |
| `PortAllocator.PortTable.GiveAPort` | connections/base/base.go:227-258 | -1 or the least unmarked port in [20000, 60000) that passes the probe, and afterwards exactly the range up to it is marked in addition |
| `PortAllocator.PortTable.ReleasePort` | connections/base/base.go:264-271 | unmarks a positive port and nothing else |
| `PortAllocator.PortTable.InitUsedPort` | connections/base/base.go:211-225 | marks exactly the ports found in addition |
| `PortAllocator.MarkedUntilReleased` | connections/base/base.go:227-271 | a granted port stays marked in every trace until a release names it |
| `PortAllocator.ReleaseBetweenGrants` | connections/base/base.go:227-271 | between two grants of one port there is always a release of it |
| `PortAllocator.ReleasedPortIsReused` | connections/base/base.go:260-271 | a released port below which all is marked is the next one granted |
| `PortAllocator.GrantIsGive` | connections/base/base.go:227-258 | marks and probe determine a grant: the port and the marks afterwards are the ones of the first free port |
| `PortHolders.StepKeeps` | connections/base/proxytunnel.go:77-84 | every step but the release of another tunnel's port keeps held ports marked and without a second holder |
| `PortHolders.ExclusiveIffNoForeignRelease` | servercontroll/proxy_release.go:198-203 | for every run of tunnels created, listening, closing and released in both places: no port has two holders now or after further grants exactly when no release names a port held by another tunnel |
| `PortHolders.OneReleaseIsSafe` | connections/base/proxytunnel.go:79-84 | if every release is the first of its tunnel, no release is foreign and no port is ever shared |
| `PortHolders.DoubleReleaseSharesAPort` | servercontroll/proxy_release.go:198-203 | whatever ports are free, the run in which `Server` and `DelProxy` both release for one tunnel ends with a port held by a tunnel that listens on it and by a newer one |
| `CloseHandshake.StepKeeps` | connections/protls/tlsserver.go:103-135 | every step of the acceptor or of any closer keeps the invariant |
| `CloseHandshake.RunKeeps` | connections/protls/tlsserver.go:103-135 | the invariant holds after every interleaving |
| `CloseHandshake.ListenerNeverLeaks` | connections/protls/tlsserver.go:103-135 | once both sides have passed their locked sections the listener is closed or a thread is committed to closing it; it is closed whenever AcceptHandle has returned |
| `CloseHandshake.NoLoopAfterClose` | connections/protls/tlsserver.go:108-115 | the accept loop is never entered if a TryClose locked section came first |
| `CloseHandshake.CloseWins` | connections/protls/tlsserver.go:103-135 | if everything has come to rest and TryClose was called, the listener is closed and AcceptHandle has returned |
| `CloseHandshake.CommittedCanClose` | connections/protls/tlsserver.go:112-135 | some thread is committed exactly when some step is a committed close; that step is never blocked, closes the listener, and stays due whatever other threads do |
| `CloseHandshake.TlsServer.Publish` | connections/protls/tlsserver.go:108-111 | the locked section publishes the listener and reads the flag, as the step of the race does |
| `CloseHandshake.TlsServer.AcceptHandle` | connections/protls/tlsserver.go:103-125 | undisturbed: the listener is closed on return on every path, and connections are handled exactly when no close came first |
| `CloseHandshake.TlsServer.TryClose` | connections/protls/tlsserver.go:127-135 | sets the flag and closes a published listener |
| `PacNames.TrimDot` | connections/prodns/search_dns.go:120 | takes off one trailing dot if there is one |
| `PacNames.SplitJoins` | connections/prodns/search_dns.go:125 | the labels joined with dots give the name back |
| `PacNames.DotSuffixIsTail` | connections/prodns/search_dns.go:125-128 | every dot-suffix of a name is the join of a tail of its labels |
| `Pac.CandidatesAreLookups` | connections/prodns/search_dns.go:127-131 | the names built label by label are exactly the dot-suffixes without their trailing dots |
| `Pac.NextCandidate` | connections/prodns/search_dns.go:128-129 | prepending a label, adding a dot and trimming one gives the next candidate |
| `Pac.LooksUpProper` | connections/prodns/search_dns.go:127-131 | for a name without a trailing dot the looked-up names are exactly its dot-suffixes |
| `Pac.LooksUpTransitive` | connections/prodns/search_dns.go:133-138 | what a looked-up name would look up, the name itself looks up |
| `Pac.PacTable.Load` | connections/prodns/search_dns.go:51-69 | the found hosts are added to the table |
| `Pac.PacTable.IsPac` | connections/prodns/search_dns.go:118-143 | answers by suffix search on the old table, and remembers the name exactly when it matched |
| `PacTheorems.MemoIsHarmless` | connections/prodns/search_dns.go:133-138 | a table whose extra entries are matched names answers every query as the loaded hosts alone do |
| `PacTheorems.MemoNeverMatters` | connections/prodns/search_dns.go:45-143 | in every interleaving of loads and queries, remembered entries never change an answer |
| `PacTheorems.AnswersMatchLoads` | connections/prodns/search_dns.go:118-143 | a finished query's yes is justified by what is loaded, its no by what was loaded when it began; with no load during the query both directions hold |
| `Utf8.EncodeBits` | deploy/ui.go:218-220 | which bits of a scalar value go into which byte, for each length of section 3 of RFC 3629 |
| `Utf8.DecodeSound` | deploy/ui.go:164-166 | decoding any bytes finds a rune exactly when they start with the encoding of one, and then that one; any other start is one byte of U+FFFD |
| `Utf8.DecodeEncode` | deploy/ui.go:164-166 | decoding an encoded rune gives the rune and its length, whatever follows |
| `Utf8.DecodeAt` | deploy/ui.go:164-166 | decoding at the offset of rune k yields that rune and ends at the next offset |
| `Utf8.DecodeLastAt` | deploy/ui.go:168-170 | decoding backwards from a rune boundary yields the rune before it |
| `Utf8.DecodeAllEncoded` | deploy/ui.go:33-42 | decoding an encoded text from the front gives back its runes |
| `Utf8.CutOneOut` | deploy/ui.go:206-212 | cutting the bytes between two neighbouring rune offsets leaves the encoding of the text without that rune |
| `EditBox.SliceGrow` | deploy/ui.go:44-51 | the same bytes in an array of at least the wanted capacity, a new one exactly if needed |
| `EditBox.SliceRemove` | deploy/ui.go:53-58 | the overlapping copy refines removing a range of a sequence |
| `EditBox.SliceInsert` | deploy/ui.go:60-67 | growing and two overlapping copies refine inserting into a sequence |
| `EditBox.Measure` | deploy/ui.go:33-42 | decoding any bytes from the front gives the columns and the number of their runes |
| `EditBox.EditBox.MoveCursorTo` | deploy/ui.go:159-162 | for any byte offset, also inside a rune, the cached offsets are those of decoding the bytes before it |
| `EditBox.EditBox.AtRune` | deploy/ui.go:159-162 | at the offset of rune k these are the cells and the number of the first k runes |
| `EditBox.EditBox.RuneUnderCursor` | deploy/ui.go:164-166 | the rune after the cursor and where it ends |
| `EditBox.EditBox.RuneBeforeCursor` | deploy/ui.go:168-170 | the rune before the cursor, ending the step at its first byte |
| `EditBox.EditBox.MoveCursorOneRuneBackward` | deploy/ui.go:172-178 | one rune to the left, or nothing at the start; text valid and offsets exact afterwards |
| `EditBox.EditBox.MoveCursorOneRuneForward` | deploy/ui.go:180-186 | one rune to the right, or nothing at the end |
| `EditBox.EditBox.MoveCursorToBeginningOfTheLine` | deploy/ui.go:188-190 | cursor before the first rune |
| `EditBox.EditBox.MoveCursorToEndOfTheLine` | deploy/ui.go:192-194 | cursor after the last rune |
| `EditBox.EditBox.DeleteRuneBackward` | deploy/ui.go:196-204 | removes exactly the rune before the cursor, or nothing at the start |
| `EditBox.EditBox.DeleteRuneForward` | deploy/ui.go:206-212 | removes exactly the rune after the cursor, or nothing at the end |
| `EditBox.EditBox.DeleteTheRestOfTheLine` | deploy/ui.go:214-216 | keeps exactly the runes before the cursor |
| `EditBox.EditBox.InsertRune` | deploy/ui.go:218-223 | puts the rune (U+FFFD for an invalid one) at the cursor and steps over it |
| `EditBox.EditBox.AdjustVOffset` | deploy/ui.go:136-157 | sets the scroll offset to the one `EditBox.ScrollsLeast` and `EditBox.CursorVisible` characterise, and touches nothing else |
| `EditBox.EditBox.HandleKey` | deploy/ui.go:291-327 | one key edits runes and cursor as a plain editor of rune sequences does, then scrolls |
| `EditBox.EditBox.EditLine` | deploy/ui.go:281-330 | after any sequence of keys the bytes are the UTF-8 form of the plainly edited line, all cached offsets are exact and the cursor is inside the box |
| `EditBox.KeysAtCursor` | deploy/ui.go:188-223 | what home, end, kill and insert make of the texts before and after the cursor, and that keys at an end of the line change nothing |
| `EditBox.KeysOnRune` | deploy/ui.go:172-212 | left, right, backspace and delete act on exactly the rune next to the cursor |
| `EditBox.KeysInTurn` | deploy/ui.go:291-327 | a sequence of keys acts one key after the other |
| `EditBox.InvalidTyped` | deploy/ui.go:218-220 | a value that is no scalar is typed as U+FFFD |
| `EditBox.ColumnsSnoc` | deploy/ui.go:33-42 | the columns of a text are zero when it is empty and grow with each rune by its width at the column it starts in |
| `EditBox.TabStops` | deploy/ui.go:26-31 | a tab ends at the next multiple of eight cells, any other rune has the terminal's width |
| `EditBox.CursorVisible` | deploy/ui.go:136-157 | in a box at least one cell wide an adjustment puts the cursor inside it and is then stable |
| `EditBox.ScrollsLeast` | deploy/ui.go:136-157 | an adjustment moves to the nearest scroll offset that keeps the margin on both sides of the cursor, or stays at or returns to the start exactly when the cursor is that close to it |
| `EditBox.InsertThenBackspace` | deploy/ui.go:196-223 | inserting then deleting backward restores text and cursor; so do inserting, left and delete, and right then left |
| `EditBox.DeleteThenInsert` | deploy/ui.go:206-223 | deleting a rune, typing it again and stepping left restores the line |

## Left out

- Ciphers, key derivation, TLS, QUIC, KCP and smux: library code. A cipher is an abstract pair of functions whose `open` inverts `seal` at 28 bytes of overhead; `SecureFraming.SoundCipherExists` shows the assumption can be met.
- HTTP handlers, authentication, uploads, deployment, git, firewall commands and shell calls: plumbing around the core.
- Terminal drawing and key polling: the rune width is a parameter, and only the key switch and the scroll adjustment of the main loop are modelled.
- Floating-point rounding and integer wrap-around: scores are reals and counters unbounded integers; a ratio of zero to zero is never smaller than another, as in the source.
- StreamTheorems.NeverOverLimit: the limit is positive and constant during a run. With a limit of zero or less the counter is never raised but still lowered; `ProxyTunnel.ProxyTunnel.HandleConnAsync` states that drift.
- HealthMetrics.HealthMetrics.RecordConnection: the classes describe undisturbed calls; interleavings are the subject of `StreamAdmission`. Byte and latency statistics are not kept.
- StreamTheorems.ScoreAlwaysInUnit: assumes that checks do not overlap on a limited tunnel; with k overlapping checks the load factor can exceed 1 as far as `StreamTheorems.OvershootBounded` allows.
- DnsCache.DNSCache.EvictLocked: `max` is not negative, since with a negative one the loop would never end. A resolver that panics is not modelled.
- NetStream.NetConn.ReadSome: in the sequential methods a read of a silent connection is the end of the stream; `FramingTheorems` has the reader wait instead. Deadlines, partially failing writes and failures of the random source are not modelled.
- SecureFraming.SSConn.Read: the test for packets above 65536 bytes is not part of it, since a two-byte length cannot exceed that.
- Socks5.GetServerRequest: the text of an IPv6 address is a parameter. Its IPv6 branch reads 26 bytes where a request has 22, so no round trip is claimed for it, and `SocksTheorems.OtherTypesFail` says what happens.
- Socks5.GetLocalRequest: the branch that rewrites the host text when `debug` is set is not modelled.
- SocksTheorems.Dispatch: the handlers behind the three routes are not modelled.
- ProxyTunnel.ProxyTunnel.HandleConnAsync: the route `IndexPanic` counts as served, since the deferred releases run; that the panic then ends the process is not modelled.
- StreamAdmission.StepKeeps: the steps of a stream do not depend on its route, and a run does not end where a dispatch panics.
- `GetSSServerRequest`, `ParseUDPSocks5` and `GetLocalRequestUDP`: not part of this model.
- BestChoice.BestPickedIff: the best tunnel is unique and its protocol has a name, as every protocol has.
- TunnelPool.BestIsNearlyBest: reads all counters as one snapshot; the source loads them one after another while streams run.
- TunnelPool.ProxyPool.GetProxy: the fallback from `ss` to `tls` when a cipher cannot be created is left out, nil pool entries are never added, and the cap is positive, as the start-up code ensures.
- TunnelPool.ProxyPool.DelProxy: the teardown after the lock (closing, firewall, port release) is left out.
- PortHolders.StepKeeps: a listener told to close may close at any later time, so an `ss` server that polls its flag is covered; when exactly it does is left out.
- PortHolders.ExclusiveIffNoForeignRelease: a tunnel is served once, so its `Server` releases once; a tunnel started again after its end, and the port a failed `ss` tunnel never gives back, are left out.
- PortAllocator.PortTable.GiveAPort: one probe outcome per port and call; the time between attempts is left out.
- PortAllocator.PortTable.InitUsedPort: reading ports out of the text of `lsof` is left out.
- Pac.PacTable.Load: reading hosts out of the lines of a file is left out, and the table is a set since every value stored in the map is true.
- PacTheorems.AnswersMatchLoads: a query that overlaps loads may see some of them; both bounds are stated.
- CloseHandshake.TlsServer.AcceptHandle: a connection is handed to its handler and not followed further.
- `ClientControl` error counters: timers and unsynchronised fields leave no invariant to state.
