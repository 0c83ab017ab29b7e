# Verified models of Pingclair

Dafny models of the parts of Pingclair where state, arithmetic or concurrency make a
mistake easy, with proofs about every input, every run and every transport schedule.
`dafny verify dfyconfig.toml` checks the whole project.

| component | files |
|---|---|
| Layer-4 pass-through: ClientHello parsing over fragmented TLS records, the preread, routing, the dial and the relay | `ClientHello.dfy`, `ClientHelloLaws.dfy`, `ClientHelloGrammar.dfy`, `Transport.dfy`, `Session.dfy`, `SessionLaws.dfy`, `Upstream.dfy`, `Relay.dfy` |
| The HTTP/2 body watchdog | `BodyWatch.dfy` |
| The FastCGI client | `FastCgi.dfy`, `FastCgiLaws.dfy` |
| The Admin document: tree edits, masking, publication | `Json.dfy`, `ConfigTree.dfy`, `Redaction.dfy`, `RedactionWalk.dfy`, `AdminPolicy.dfy` |
| The matcher compiler and its routing prefilter | `Matchers.dfy`, `MatcherLaws.dfy` |
| Content-coding ranking, percent escapes, cache variants and age | `ContentCoding.dfy`, `Percent.dfy`, `CacheVary.dfy`, `CacheAge.dfy` |
| Shared vocabulary | `Wire.dfy`, `Ordering.dfy` |

How the world outside is modelled:

- A peer is an `Endpoint`: a fixed stream it sends before closing, and nondeterministic
  answers to every read, write, flush and shutdown poll. A proof about a caller therefore
  covers every way the network may cut, delay or break the traffic. Each endpoint keeps a
  ledger of the polls that did something, when the last one was, the polls that failed, and the
  reads that were cut short; outcomes are stated against these ledgers.
- Clocks only ever move forward, by any amount. A network says whether its dials are polled in
  time; if not, a dial past its deadline may still be found connected. A relay is given any
  number of wakeups.
- The watchdog and the stream it watches are polled by one worker, so each poll and each store
  is one step, and a run is any sequence of steps. `Notify` is a single stored permit.
- Machine words are written out where they matter: the dial cursor and the Admin revision
  wrap at 2^64, the watchdog's counters saturate, ages are capped at 2^31, the ranking keeps
  its bits in one word.
- Regular expressions, address-range parsing, file lookups, path-pattern matching, hashing and
  HTTP dates are parameters.

## What holds only under a condition

Some statements one would like to make are false of the code. Each has an exact condition.

- A wait names the input size at which parsing can go on, and shorter inputs repeat it. The
  empty input is the one exception (`ClientHelloLaws.WaitRepeatsExactlyWhenNonEmpty`); the preread
  never asks about it.
- A restarted pause is waited out in full if and only if it was restarted on a whole millisecond
  and its deadline fits the counter (`BodyWatch.WholePauseExactlyOnTheMillisecond`); how long it
  lasts otherwise is `BodyWatch.LastsExactly`.
- A disarm spoken by excused work itself does not survive it; an armed pause does
  (`BodyWatch.AfterExcusedWork`, `BodyWatch.LastWordKeptUnlessDisarmed`).
- Whether a CGI header is accepted depends on how it was cut into records if and only if its blank
  line ends after 65,536 and within 131,070 bytes (`FastCgiLaws.CutDecidesExactlyBetween`).
- Editing the masked copy and restoring it is editing the document if and only if nothing in the
  written value is taken for a masked secret and every secret that an insertion or a deletion
  moves is answered by the one at its new place (`Redaction.EditCommutesExactly`,
  `Redaction.DeleteCommutesExactly`; a failing document is `Redaction.InsertionShiftsSecrets`).
- A PUT and then a DELETE at its path lead back to the document before them if and only if that
  showed no placeholder in a secret position (`AdminPolicy.PublishedPutThenDelete`).
- Query conditions other than presence and equality are compiled to presence, which keeps the
  meaning only of those that hold of every value
  (`MatcherLaws.CompiledMeaning`, `MatcherLaws.QueryConditionKeptExactly`).
- The path prefilter loses requests of a matcher with an unguarded alternative
  (`MatcherLaws.RoutesReachExactly`, `MatcherLaws.RoutesLoseNothing`, `MatcherLaws.LostExactlyWhenUnguarded`;
  a lost request is `MatcherLaws.PrefilterLosesARequest`).
- Rotation is unfair across a wrap of the cursor unless the pool size divides 2^64
  (`Upstream.RotationIsFair`).
- The stale-write guard sees the age of a snapshot modulo 2^64
  (`AdminPolicy.GuardSeesAgeModuloWord`).
- Expiry is exact unless the expiry instant is past the end of the clock
  (`CacheAge.ExpiryIsExactUnlessTheClockEnds`).

Where the code and its comments differ, the model follows the code: an empty STDOUT record is
passed on rather than ending the stream (`pingclair-fastcgi/src/lib.rs:363-364` says otherwise),
and a signal reload is refused once the Admin API has published
(`pingclair/src/runtime_listeners.rs:413-417`).

## Model

| member | source | states |
|---|---|---|
| ClientHello.Cursor.Record | pingclair-l4/src/hello.rs:68-85 | stepping over headers and empty records keeps the logical byte stream; it fails exactly when no payload byte is ahead, with the reason the stream stops |
| ClientHello.Cursor.Byte | pingclair-l4/src/hello.rs:87-96 | yields the next byte of the logical stream across record boundaries; a field that is complete on the wire never asks for more input |
| ClientHello.Cursor.Word | pingclair-l4/src/hello.rs:98-103 | yields the next two stream bytes as a big-endian number; a field with fewer than two left declines, unless the wire ends first |
| ClientHello.Cursor.Take | pingclair-l4/src/hello.rs:105-120 | splits off a field that sees exactly the next bytes of the stream while the cursor moves past them |
| ClientHello.Cursor.Equals | pingclair-l4/src/hello.rs:122-133 | compares the field's logical content, exactly or ignoring ASCII case |
| ClientHello.ParseSni | pingclair-l4/src/hello.rs:199-217 | agrees with the plain parser of the server_name body and never asks for more |
| ClientHello.ParseAlpn | pingclair-l4/src/hello.rs:218-235 | publishes the protocol list exactly when every name in it is well formed |
| ClientHello.ParseExtension | pingclair-l4/src/hello.rs:199-237 | adds one extension to what was seen; a second name or list declines |
| ClientHello.ParseExtensions | pingclair-l4/src/hello.rs:193-239 | the extension loop agrees with the plain parser over the concatenated bytes |
| ClientHello.ParseBody | pingclair-l4/src/hello.rs:166-192 | once the declared handshake is present every outcome is a hello or a decline, as the plain parser says |
| ClientHello.ParseHandshake | pingclair-l4/src/hello.rs:152-165 | the header and the declared length decide, as over one piece of payload, whether to wait, decline or parse the body; what they mean is ClientHelloGrammar.ClassifiesExactlyTheGrammar |
| ClientHello.Parse | pingclair-l4/src/hello.rs:152-240 | parsing the fragmented wire gives the verdict of the plain parser over the concatenated record payloads |
| ClientHello.Classify | pingclair-l4/src/hello.rs:140-150 | the classification equals the reference verdict, and its cursors show the reference SNI and ALPN bytes |
| ClientHello.MatchesSni | pingclair-l4/src/hello.rs:26-29 | true exactly when a name was sent and equals the argument ignoring ASCII case |
| ClientHello.OffersAlpn | pingclair-l4/src/hello.rs:32-48 | true exactly when the protocol is a member of the offered list |
| ClientHelloLaws.VerdictIsFinal | pingclair-l4/src/hello.rs:140-240 | no later byte changes a verdict other than a wait |
| ClientHelloLaws.WaitIsExact | pingclair-l4/src/hello.rs:67-240 | a wait names a size beyond the input and every shorter extension of a non-empty input repeats it |
| ClientHelloLaws.WaitRepeatsExactlyWhenNonEmpty | pingclair-l4/src/hello.rs:140-150 | all shorter extensions repeat the wait if and only if the input is not empty |
| ClientHelloLaws.FramedVerdict | pingclair-l4/src/hello.rs:67-85 | the verdict on any sequence of handshake records is the plain verdict on their joined payload |
| ClientHelloLaws.FragmentationIndependence | pingclair-l4/src/hello_tests.rs:59-76 | two ways of cutting one payload into records, empty ones included, give the same kind of verdict and the same hello |
| ClientHelloLaws.TrailingBytesAreIgnored | pingclair-l4/src/hello_tests.rs:78-87 | the same whatever follows the records on either wire |
| ClientHelloLaws.OnlyLetterCaseIsIgnored | pingclair-l4/src/hello.rs:122-133 | names are equal up to the case of ASCII letters, and in nothing else |
| ClientHelloGrammar.SentenceAccepted | pingclair-l4/src/hello.rs:164-239 | every ClientHello of the grammar is accepted and its name and protocols reported |
| ClientHelloGrammar.SentenceParsed | pingclair-l4/src/hello.rs:164-239 | every accepted body is the encoding of a ClientHello of the grammar |
| ClientHelloGrammar.AcceptsExactlyTheGrammar | pingclair-l4/src/hello.rs:164-239 | a body is accepted with given metadata if and only if some ClientHello encodes to it and carries that metadata |
| ClientHelloGrammar.ClassifiesExactlyTheGrammar | pingclair-l4/src/hello.rs:67-240 | any wire is a given hello if and only if it begins with handshake records whose joined payload begins with a type 1 message, its 24-bit length and a ClientHello of the grammar that carries that hello |
| ClientHelloGrammar.FramedAcceptsExactly | pingclair-l4/src/hello.rs:67-240 | the same for records alone |
| ClientHelloGrammar.WaitsExactlyInsideAnEnvelope | pingclair-l4/src/hello.rs:152-165 | records are waited on if and only if their payload is a proper beginning of some type 1 handshake message |
| ClientHelloGrammar.NameCarried | pingclair-l4/src/hello.rs:26-29 | a hello matches a name if and only if its server_name extension says that name up to letter case |
| ClientHelloGrammar.ProtocolOffered | pingclair-l4/src/hello.rs:32-48 | a hello offers a protocol if and only if its ALPN extension lists it |
| Session.Fill | pingclair-l4/src/session.rs:292-300 | reads exactly up to the needed length, never past it; reports a close only at the end of the stream and an interruption exactly when a read was cut short |
| Session.ShortestIsLeast | pingclair-l4/src/session.rs:282-314 | the consumed prefix is the least decisive prefix of the stream and has the verdict of every longer one |
| Session.PrereadLoop | pingclair-l4/src/session.rs:282-314 | unless a read was cut short, and then it is broken, the preread ends as the stream and the limit alone decide; it holds at most the limit and consumes nothing past the classified prefix |
| Session.Matches | pingclair-l4/src/session.rs:27-39 | peer ranges, SNI and ALPN conditions decide as stated over the hello's logical bytes |
| Session.FirstRoute | pingclair-l4/src/session.rs:322-333 | the chosen route accepts and no earlier one does; none is chosen only if none accepts |
| Session.SelectRoute | pingclair-l4/src/session.rs:322-333 | the loop over routes and matchers finds the first accepting route |
| Session.Decide | pingclair-l4/src/session.rs:264-333 | unless a read was cut short, blocked peers, refusals and the route are a function of the listener, the peer and the byte stream, not of read sizes; no client byte is taken where no matcher has a TLS part |
| Session.VerdictIgnoredWithoutTls | pingclair-l4/src/session.rs:27-39 | where no matcher has a TLS part, every verdict leads to the same route |
| Session.RouteIsTheStreams | pingclair-l4/src/session.rs:264-333 | the route is the one the verdict on the whole stream chooses, whether or not the listener reads ahead |
| Session.RouteIgnoresFragmentation | pingclair-l4/src/session.rs:316-333 | on a listener that reads ahead, streams whose records carry one decided payload within the limit take the same route, whatever the record boundaries and the bytes that follow |
| SessionLaws.HelloIsRouted | pingclair-l4/src/session.rs:264-333 | a ClientHello of the grammar, cut into records in any way and followed by anything, takes the first route whose peers, names and protocols it satisfies, told by its extensions, or none if there is none |
| SessionLaws.MappedPeerIsBlocked | pingclair-l4/src/session.rs:42-46 | a block-listed IPv4 address is refused also in its IPv6-mapped form |
| SessionLaws.OthersAreNotBlocked | pingclair-l4/src/session.rs:42-46 | no other address is refused for being blocked |
| Session.Serve | pingclair-l4/src/session.rs:253-355 | the decision as above; only the chosen route's pool is dialled, at most four times, and a connection is refused only for the reasons the dial gives and then relays nothing; the upstream receives the client's stream from its first byte, in order, nothing repeated or skipped; a normal end means every byte read arrived, both whole streams under half-close; a relay suspends only with a waker or after 64 busy rounds, times out only a whole idle period after the start and the last movement, and fails exactly when a poll failed |
| Relay.Direction.constructor | pingclair-l4/src/relay.rs:36-57 | the prefix is queued for replay in a buffer of the larger of the two sizes |
| Relay.Direction.TryWrite | pingclair-l4/src/relay.rs:72-83 | what the writer accepted stays an in-order prefix of what it is owed; progress exactly when bytes were taken, a fault exactly when the write failed or took none, and a pending write leaves its waker |
| Relay.Direction.TryFlush | pingclair-l4/src/relay.rs:84-93 | touches the writer only when the buffer is written out and owes a flush; progress exactly when the flush completed, a fault exactly when it failed, and a pending flush leaves its waker |
| Relay.Direction.TryRead | pingclair-l4/src/relay.rs:94-106 | reads nothing unless the buffer is drained, the source open and reading allowed, and never more than the configured size; progress exactly for new bytes or the first end of file, recorded only at the end of the peer's stream; a fault exactly when the read failed |
| Relay.Direction.TryShutdown | pingclair-l4/src/relay.rs:107-116 | progress exactly when the writer is newly shut down, only in half-close mode after end of file with everything written and flushed; a fault exactly when the shutdown failed |
| Relay.Direction.PushOut | pingclair-l4/src/relay.rs:72-93 | the writing half of a turn, with the same account of progress, faults and wakers |
| Relay.Direction.PullIn | pingclair-l4/src/relay.rs:94-116 | the reading half of a turn and the shutdown after it, likewise |
| Relay.Direction.PollIo | pingclair-l4/src/relay.rs:63-118 | one turn keeps the ledger of bytes read and accepted; progress exactly when a poll did something (bytes read or accepted, a flush, the end of file, a shutdown), a fault exactly when one failed; a turn without progress has parked every operation the direction still needs |
| Relay.SomeoneWaits | pingclair-l4/src/relay.rs:161-171 | in both close modes an unfinished relay in which nothing moved has a registered waker |
| Relay.TakeRound | pingclair-l4/src/relay.rs:147-171 | a round is busy only if something moved, idle only if nothing did and a waker is registered, faulty exactly when a poll failed, and otherwise finished exactly at the end test; at most eight polls do something; in immediate-close mode neither side is read once the other has ended, and each further busy round shrinks what is left to write and flush |
| Relay.DirectionInOrder | pingclair-l4/src/relay.rs:59-61 | a valid direction has delivered an in-order prefix of what it owes, all of it when drained |
| Relay.Accounted | pingclair-l4/src/relay.rs:59-61 | what a writer accepted and what the buffer holds add up to the prefix and what was read |
| Relay.PollRelay | pingclair-l4/src/relay.rs:141-176 | wakes itself only after 64 rounds that each moved something, and at most eight polls for each of 64 rounds do anything; times out only at a passed deadline and ends otherwise only before it; the deadline is the idle timeout after a moment no earlier than the last movement and no later than now; fails exactly when a poll failed; in immediate-close mode, after one end of file the other side is read no more and at most a bufferful is still delivered |
| Relay.RunRelay | pingclair-l4/src/relay.rs:126-178 | for any wakeups and answers: in-order prefixes both ways within one bufferful, shutdown only after end of file and full delivery, a normal end loses nothing, no sleep without a waker, a timeout only a whole idle period after the start and after the last movement of either side, a fault exactly when a poll failed |
| Upstream.Deduplicate | pingclair-l4/src/upstream.rs:27-39 | keeps the distinct addresses and refuses exactly at the 65th |
| Upstream.FromAddresses | pingclair-l4/src/upstream.rs:26-52 | the pool is the strictly ascending sequence of the distinct addresses, 1 to 64 of them, or the stated refusal |
| Upstream.PoolIsDeterministic | pingclair-l4/src/upstream.rs:46-47 | two strictly ascending pools of the same addresses are equal, so the pool depends only on the set of addresses in an answer |
| Upstream.Balancer.Connect | pingclair-l4/src/upstream.rs:65-124 | at most four attempts in rotation order from the ticket, each begun after the one before it ended and before the total deadline, and given the whole budget for a single address or two seconds of it, within that deadline; the dial ends with a connection, an error not worth another address or the last attempt's error, and sooner only if the pool was withdrawn or the deadline passed; where dials are polled in time, each is over by its own bound or timed out and a connection is never later than the deadline |
| Upstream.AttemptsAreDistinct | pingclair-l4/src/upstream.rs:93-102 | the attempts of one dial go to pairwise different addresses |
| Upstream.RotationIsFair | pingclair-l4/src/upstream.rs:82-86 | a window of as many tickets as addresses starts at pairwise different ones if and only if the cursor does not wrap in it or the pool size divides 2^64 |
| Upstream.EveryAddressStarts | pingclair-l4/src/upstream.rs:82-86 | every address is the start of some ticket of a fair window |
| BodyWatch.NeverMissesAWakeup | pingclair-proxy/src/body_timeout.rs:109-134 | in every run an armed watch whose watchdog was polled and has not fired has a permit pending or sleeps no later than its current deadline |
| BodyWatch.StepCovered | pingclair-proxy/src/body_timeout.rs:93-187 | each step keeps that cover and moves no counter back |
| BodyWatch.FiresOnlyAfterAQuietPause | pingclair-proxy/src/body_timeout.rs:114-134 | until the millisecond counter saturates, a stream is ended only by a poll of an armed watch, with no restart for the whole pause by its counters (less than a millisecond short of it by the clock) and that pause in force throughout |
| BodyWatch.PauseAskedFor | pingclair-proxy/src/body_timeout.rs:100-152 | the armed pause is the one asked for in whole milliseconds rounded down, at least one and at most the counter; re-arming is arming exactly for an armed watch |
| BodyWatch.LastsExactly | pingclair-proxy/src/body_timeout.rs:94-134 | after any restart in any run, every quiet continuation that is cut lasts at least a given time if and only if that time is within the deadline in whole milliseconds |
| BodyWatch.WholePauseExactlyOnTheMillisecond | pingclair-proxy/src/body_timeout.rs:94-134 | the whole pause is waited out after a restart if and only if it fell on a whole millisecond and the deadline is within the counter |
| BodyWatch.RoundingCanShortenAPause | pingclair-proxy/src/body_timeout.rs:94-107 | the instance: a one-millisecond pause can last one nanosecond |
| BodyWatch.PromptRunInTime | pingclair-proxy/src/body_timeout.rs:114-134 | if wakeups are answered before time passes, the clock never passes an armed deadline |
| BodyWatch.PromptExecutorFiresOnTime | pingclair-proxy/src/body_timeout.rs:114-134 | and, until the counter saturates, a stalled stream ends exactly at its deadline |
| BodyWatch.AfterExcusedWork | pingclair-proxy/src/body_timeout.rs:162-180 | whatever happens inside, if the stream survives: the pauses set aside before are as they were, the pause is the one in force when the work ended or else the one set aside, and an armed watch has a fresh clock and a wakeup |
| BodyWatch.ExcusedWorkIsNeverCut | pingclair-proxy/src/body_timeout.rs:154-180 | excused work that does not itself arm the watch, nested or not, is never ended by the watchdog and leaves the earlier pause with a fresh clock |
| BodyWatch.LastWordKeptUnlessDisarmed | pingclair-proxy/src/body_timeout.rs:162-180 | after the last arming or disarming, spoken at any depth with anything but arming after it, the pause is the one armed, or for a disarm the innermost one set aside around it; at the work's own level the word survives if and only if it armed the watch or nothing was armed before |
| BodyWatch.H2BodyWatch.Store | pingclair-proxy/src/body_timeout.rs:100-107 | stores now and the pause, at least one millisecond unless disarming, and leaves a permit |
| BodyWatch.H2BodyWatch.ArmWith | pingclair-proxy/src/body_timeout.rs:138-140 | is the arming step |
| BodyWatch.H2BodyWatch.RearmWith | pingclair-proxy/src/body_timeout.rs:146-152 | is the re-arming step: only an armed watch takes the new pause |
| BodyWatch.H2BodyWatch.Move | pingclair-proxy/src/body_timeout.rs:183-187 | is the step of a body chunk: the clock restarts, nothing is notified |
| BodyWatch.H2BodyWatch.BeginExcused | pingclair-proxy/src/body_timeout.rs:162-165 | swaps the pause out and remembers it |
| BodyWatch.H2BodyWatch.EndExcused | pingclair-proxy/src/body_timeout.rs:166-179 | restarts the clock, restores the pause only over a disarmed watch, and notifies |
| BodyWatch.H2BodyWatch.PollStalled | pingclair-proxy/src/body_timeout.rs:114-134 | one poll of the loop is the watchdog step from wherever it was suspended |
| FastCgi.FrameRoundTrip | pingclair-fastcgi/src/lib.rs:414-466 | every record, with any padding, reads back as its type and content, leaving the bytes after it |
| FastCgi.RecordsAreFrames | pingclair-fastcgi/src/lib.rs:414-441 | a record is read if and only if a frame of that type and content, for this request and with any padding, stands there |
| FastCgi.TypesAreNumbered | pingclair-fastcgi/src/lib.rs:35-70 | the record types have the numbers 1 to 7 and no others |
| FastCgi.OnTheWire | pingclair-fastcgi/src/lib.rs:444-517 | a record and three lengths, byte by byte |
| FastCgi.Frame | pingclair-fastcgi/src/lib.rs:454-463 | written records are multiples of eight bytes |
| FastCgi.PairRoundTrip | pingclair-fastcgi/src/lib.rs:504-517 | a packed pair decodes to itself and its size is the computed parameter size |
| FastCgi.PairsRoundTrip | pingclair-fastcgi/src/lib.rs:248-260 | a record of packed pairs decodes on its own to those pairs |
| FastCgi.Client.WriteRecord | pingclair-fastcgi/src/lib.rs:444-466 | appends exactly one frame, or refuses an oversized content and writes nothing |
| FastCgi.ParamsArrive | pingclair-fastcgi/src/lib.rs:238-265 | packed records and the empty one after them are read back as all their pairs in order, leaving the bytes that follow |
| FastCgi.Client.SendParams | pingclair-fastcgi/src/lib.rs:238-265 | if every pair fits, records within the ceiling each decode into whole pairs, the only empty one is last, and reading them back gives the environment in order with nothing left over; otherwise nothing is written |
| FastCgi.Client.SendStdin | pingclair-fastcgi/src/lib.rs:272-277 | the parts joined are the chunk, none empty and none over the ceiling |
| FastCgi.Client.ReadRecord | pingclair-fastcgi/src/lib.rs:414-441 | reads the record the bytes begin with, or reports why there is none |
| FastCgi.Client.ReadStreamRecord | pingclair-fastcgi/src/lib.rs:365-411 | yields the next STDOUT content past any STDERR records, the normal end, or the stated error, with diagnostics captured up to their cap |
| FastCgi.FindTerminator | pingclair-fastcgi/src/lib.rs:534-538 | finds the first blank line, or none exactly when there is none |
| FastCgi.Client.ReadResponseHeader | pingclair-fastcgi/src/lib.rs:297-322 | returns the block up to the first blank line and keeps the body bytes that shared its record |
| FastCgi.Client.ReadBodyChunk | pingclair-fastcgi/src/lib.rs:328-347 | yields non-empty chunks whose concatenation with what is left is the body; ends once and for all |
| FastCgiLaws.ExchangeOf | pingclair-fastcgi/src/lib.rs:297-347 | for every cut and interleaving the exchange succeeds if and only if the header fits at each record boundary, and then block, body and diagnostics depend only on the two streams |
| FastCgiLaws.Demultiplexed | pingclair-fastcgi/src/lib.rs:365-411 | with an early blank line a fresh client gets the block, the rest of STDOUT and the first 65,536 diagnostic bytes |
| FastCgiLaws.BrokenExchange | pingclair-fastcgi/src/lib.rs:297-411 | for every cut and interleaving, a response cut short, malformed, holding a foreign record or ended by status 1, 2 or 3 fails with that error, unless the header overran its bound first |
| FastCgiLaws.EverySplitIsReadExactlyWhenEarly | pingclair-fastcgi/src/lib.rs:299-312 | a header is accepted under every cut if and only if its blank line ends within 65,536 bytes |
| FastCgiLaws.SomeSplitIsReadExactlyWhenReachable | pingclair-fastcgi/src/lib.rs:299-320 | a header is accepted under some cut if and only if its blank line ends within 131,070 bytes |
| FastCgiLaws.CutDecidesExactlyBetween | pingclair-fastcgi/src/lib.rs:299-320 | some cuts accept and others refuse a header if and only if its blank line ends between the two bounds |
| FastCgiLaws.ReadWhole | pingclair-fastcgi/src/lib.rs:292-347 | the calls in order deliver exactly that exchange |
| Json.IndexRoundTrip | pingclair-api/src/config_tree.rs:230-234 | an index is parsed back from the segment that spells it |
| Json.OtherSpellings | pingclair-api/src/config_tree.rs:230-234 | one plus sign and leading zeros change no index; a second sign or any other character is none |
| ConfigTree.PutThenDelete | pingclair-api/src/config_tree.rs:65-154 | PUT then DELETE at one path returns the inserted value and restores the document |
| ConfigTree.GetAfterSet | pingclair-api/src/config_tree.rs:50-134 | a written value is read back at its path in every mode |
| ConfigTree.SetKeepsTheRest | pingclair-api/src/config_tree.rs:65-134 | a write changes nothing readable at any path that parts from it; what an insertion into an array moves is read back one index further on, the elements before it where they were |
| ConfigTree.SetSucceedsExactly | pingclair-api/src/config_tree.rs:72-133 | when each mode succeeds, over the kind and keys of the parent; a missing parent is the error of every mode |
| ConfigTree.RemoveExactlyWhereGet | pingclair-api/src/config_tree.rs:137-154 | DELETE succeeds exactly where GET does and returns what GET reads |
| ConfigTree.RemoveKeepsTheRest | pingclair-api/src/config_tree.rs:137-154 | a deletion changes nothing readable at any other path; later elements of its array are read one index earlier |
| ConfigTree.RemovedFieldIsGone | pingclair-api/src/config_tree.rs:142-143 | a deleted field is not found |
| ConfigTree.ReplaceExactlyWhereGet | pingclair-api/src/config_tree.rs:98-129 | PATCH succeeds exactly where GET does |
| ConfigTree.ReplaceTwice | pingclair-api/src/config_tree.rs:65-134 | the last of two replacements at a path wins |
| ConfigTree.WriteBack | pingclair-api/src/config_tree.rs:65-134 | writing back what was read changes nothing |
| ConfigTree.AppendIsReplace | pingclair-api/src/config_tree.rs:107-110 | POST at the first free index is PATCH of the array grown by one |
| ConfigTree.TraverseParent | pingclair-api/src/config_tree.rs:212-228 | yields the nodes from the document to the parent, each the child its segment names, or the error with which every edit at that path fails |
| ConfigTree.EditAlongChain | pingclair-api/src/config_tree.rs:86-153 | an edit of the document is the edit of the parent at the end of the walk, put back node by node, errors included |
| ConfigTree.WriteInto | pingclair-api/src/config_tree.rs:87-133 | the table of modes and kinds of parent is the one-step edit |
| ConfigTree.Document.Write | pingclair-api/src/config_tree.rs:66-134 | the walk, the write in the parent and the way back make the edit, or, on an error anywhere, leave the document alone |
| ConfigTree.Document.Delete | pingclair-api/src/config_tree.rs:137-154 | the walk, the removal in the parent and the way back make the deletion and return the node, or, on an error anywhere, leave the document alone |
| ConfigTree.Document.ExpandAppend | pingclair-api/src/config_tree.rs:157-174 | appends the whole body to the target array and touches nothing else; no write fails half way |
| ConfigTree.Walk | pingclair-api/src/config_tree.rs:182-208 | the search below a node finds the first tagged object in document order, at the path on its stack, or shows there is none |
| ConfigTree.FindIdPath | pingclair-api/src/config_tree.rs:181-210 | returns a path at which GET finds an object with that tag and before which there is none in document order, and none exactly when no path does |
| Redaction.RestoreUndoesMask | pingclair-api/src/redaction.rs:70-214 | restoring any masked document from itself gives it back |
| Redaction.CredentialsAreMasked | pingclair-api/src/redaction.rs:39-76 | under every listed credential name or part, in any case and behind any operation mark, no non-empty string, alone or in a list, shows in the masked copy |
| RedactionWalk.ProviderArgumentsAreMasked | pingclair-api/src/redaction.rs:34-37 | nor do the arguments of a DNS provider |
| Redaction.PlaceholderAnswered | pingclair-api/src/redaction.rs:144-165 | a placeholder is answered by the running string at its place exactly when that is neither empty nor a placeholder |
| Redaction.RestoreKeepsTheRest | pingclair-api/src/redaction.rs:98-165 | a document with no placeholder in a secret position is restored to itself |
| Redaction.MaskRevealsExactlyTheRest | pingclair-api/src/redaction.rs:70-214 | two documents have one masked copy if and only if they differ only in what non-empty secrets say |
| Redaction.UndoneExactlyWhenAnswered | pingclair-api/src/redaction.rs:70-214 | masking is undone by a running document if and only if each non-empty secret is the running one at its place, or the placeholder where there is none |
| Redaction.EditCommutesExactly | pingclair-api/src/redaction.rs:88-165 | for every document, path, value and mode: editing the masked copy has the error of the real edit, and restoring it gives the edited document if and only if the value is kept and what an insertion moves is answered at its new place |
| Redaction.DeleteCommutesExactly | pingclair-api/src/redaction.rs:88-165 | the same for deletions: always for object fields, and for array elements if and only if what moves is answered at its new place |
| Redaction.RestoreOfEdit | pingclair-api/src/server.rs:1121-1146 | restoring an edit of the real document restores the written value at its place, and changes nothing else if and only if nothing an insertion moves would be answered at its new place |
| Redaction.RestoreOfRemove | pingclair-api/src/server.rs:1121-1146 | restoring after a deletion changes nothing, unless what closed up would be answered at its new place |
| Redaction.EditOfMaskedCopy | pingclair-api/src/redaction.rs:88-165 | for every edit that moves no array element, writing a placeholder-free value into the masked copy and restoring gives the document, or the error, of that write on the real one |
| Redaction.InsertionShiftsSecrets | pingclair-api/src/redaction.rs:127-137 | the failing instance: a document with two tokens and a value inserted in front of them |
| Redaction.GetOfMask | pingclair-api/src/server.rs:449-459 | reading a part of the masked document is masking that part where it stands, with the same errors |
| Redaction.RestoreIsLocal | pingclair-api/src/server.rs:1121-1146 | restoring a document with one part replaced restores that part alone |
| Redaction.ReadModifyWrite | pingclair-api/src/server.rs:1022-1146 | read a part masked, write inside it, PATCH it back: the real document with that one write if and only if the write survives at the part's own position |
| RedactionWalk.RewriteStrings | pingclair-api/src/redaction.rs:144-165 | rewrites a secret string or each string of a secret list, nothing else |
| RedactionWalk.ProviderTwice | pingclair-api/src/redaction.rs:184-189 | a pass over a provider's arguments and then over the provider visits each secret position once |
| RedactionWalk.RewriteSecrets | pingclair-api/src/redaction.rs:176-199 | the recursive walk rewrites exactly the secret positions |
| RedactionWalk.RewriteField | pingclair-api/src/redaction.rs:109-125 | one field is rewritten by what its key makes of it |
| RedactionWalk.Redacted | pingclair-api/src/redaction.rs:70-76 | the walk produces the masked copy |
| RedactionWalk.RestorePlaceholders | pingclair-api/src/redaction.rs:98-102 | the walk produces the restored document |
| AdminPolicy.MaskedExportCommits | pingclair-api/src/server.rs:440-447 | loading an edited masked export publishes the running document with the edit, secrets in place, if and only if the edit survives masking and leaves no placeholder in a secret position |
| AdminPolicy.MaskedPartCommits | pingclair-api/src/server.rs:1022-1093 | the same for PATCHing back an edited masked part |
| AdminPolicy.EditHasEffect | pingclair-api/src/server.rs:1040-1059 | what a commit publishes, read by GET: a write gives its value, restored, at its path and leaves or moves the others; a deletion removes its field and leaves or closes up the others; an expansion appends the body to its target and changes nothing else; a load is what was sent |
| AdminPolicy.NumberedStep | pingclair-api/src/server.rs:116-135 | each step keeps revisions equal to the publication count modulo 2^64 and held snapshots among the publications |
| AdminPolicy.NoLostUpdates | pingclair/src/runtime_listeners.rs:267-281 | in every interleaving of up to 2^64 publications each API generation is its edit of the generation just before it, without placeholders |
| AdminPolicy.PublishedEdits | pingclair-api/src/server.rs:1040-1084 | in every interleaving each API generation differs from the one before it as its edit says, read by GET |
| AdminPolicy.PublishedPutThenDelete | pingclair-api/src/server.rs:1040-1084 | a published PUT and the published DELETE after it at its path lead back to the document before them, exactly when that showed no placeholder, as no API generation does |
| AdminPolicy.RevisionsIncrease | pingclair-api/src/server.rs:116-135 | revisions strictly increase along publications until the counter wraps |
| AdminPolicy.ReloadsNeverFollowTheApi | pingclair/src/runtime_listeners.rs:413-417 | no signal reload is published after an API generation |
| AdminPolicy.SnapshotsAreImmutable | pingclair-api/src/server.rs:139-151 | a retained snapshot changes only when its request takes a new one, and publications are never rewritten |
| AdminPolicy.GuardSeesAgeModuloWord | pingclair/src/runtime_listeners.rs:273-279 | a write passes the revision check if and only if the publications since its snapshot are a multiple of 2^64 |
| AdminPolicy.Publisher.PublishConfig | pingclair/src/runtime_listeners.rs:406-580 | publishes exactly when the reload gate, the runtime and the revision check all allow it, and changes nothing otherwise |
| AdminPolicy.Publisher.CommitDocument | pingclair-api/src/server.rs:1121-1175 | is the commit step of the protocol, whose published edits AdminPolicy.PublishedEdits describes |
| AdminPolicy.Publisher.ReloadDocument | pingclair/src/runtime_listeners.rs:406-427 | is the reload step of the protocol |
| MatcherLaws.CompilesExactlyWhenUnfolds | pingclair-config/src/compiler.rs:3145-3174 | compilation succeeds if and only if all names unfold within 33 levels and all address ranges parse |
| MatcherLaws.UnfoldIsUnique | pingclair-config/src/compiler.rs:3155-3174 | the unfolding does not depend on the number of levels allowed |
| MatcherLaws.CompiledMeaning | pingclair-config/src/compiler.rs:3145-3254 | for every matcher that compiles, the compiled form gives every request the verdict, faults included, of the source with names unfolded and query conditions other than equality weakened to presence |
| MatcherLaws.CompilationPreservesMeaning | pingclair-config/src/compiler.rs:3145-3254 | with every query condition presence or equality, the compiled matcher gives every request the verdict of the source with all names unfolded, faults included |
| MatcherLaws.CombinationsAreLogical | pingclair-core/src/server/router.rs:473-515 | the combinations are the logical ones, and a fault is neither a match nor its opposite |
| MatcherLaws.QueryConditionKeptExactly | pingclair-config/src/compiler.rs:3197-3207 | a query condition keeps its meaning if and only if it is presence, equality, asks for an empty part, or is a regular expression that matches every value |
| MatcherLaws.CyclicNamesAreRefused | pingclair-config/src/compiler.rs:3150-3154 | a matcher that can reach a cycle of names is refused |
| MatcherLaws.PathPatternsOfUnfolding | pingclair-config/src/compiler.rs:3109-3130 | the collected patterns are those of the unfolded matcher outside negations |
| MatcherLaws.RoutesReachExactly | pingclair-config/src/compiler.rs:3064-3105 | for every route that compiles, a request reaches an emitted entry if and only if the compiled matcher accepts it and one of the patterns, or the catch-all when there is none, matches |
| MatcherLaws.BareRouteReaches | pingclair-config/src/compiler.rs:3088-3095 | a route without a matcher takes exactly what the catch-all matches |
| MatcherLaws.RoutesLoseNothing | pingclair-config/src/compiler.rs:3064-3130 | if the matcher has no patterns, or its alternatives are guarded by patterns, the emitted entries accept exactly the requests the compiled matcher accepts |
| MatcherLaws.LostExactlyWhenUnguarded | pingclair-config/src/compiler.rs:3122-3126 | a request that meets every other condition but no pattern of a negation-free matcher is lost if and only if the matcher is unguarded |
| MatcherLaws.PrefilterLosesARequest | pingclair-config/src/compiler.rs:3064-3130 | the instance: a route for one path or one host loses the requests to that host off that path |
| ContentCoding.MentionedQuality | pingclair-core/src/encoding.rs:55-66 | a coding's own entry wins wherever it stands; otherwise only a wildcard refusal counts |
| ContentCoding.FirstEntryRates | pingclair-core/src/encoding.rs:55-66 | a coding's first entry is its quality, whatever stands around it |
| ContentCoding.WildcardsGrantNothing | pingclair-core/src/encoding.rs:55-66 | a header of wildcards alone, whatever their quality, ranks nothing |
| ContentCoding.SpellingDoesNotMatter | pingclair-core/src/encoding.rs:81-103 | two names are one coding exactly when they differ in letter case and padding only, or are gzip and x-gzip |
| ContentCoding.FindBest | pingclair-core/src/encoding.rs:185-208 | the scan finds the open coding that comes before every other open one |
| ContentCoding.Ranked.Next | pingclair-core/src/encoding.rs:185-211 | yields that coding and marks exactly it in the word |
| ContentCoding.WithBitSetsOne | pingclair-core/src/encoding.rs:188-209 | marking a rank changes that bit and no other |
| ContentCoding.RankAll | pingclair-core/src/encoding.rs:158-212 | draining the iterator is the stable sort by quality of the acceptable codings among the first 64 |
| ContentCoding.Negotiate | pingclair-core/src/encoding.rs:218-224 | the coding sent is the first of that sort |
| ContentCoding.RankedExactly | pingclair-core/src/encoding.rs:107-211 | membership: rated above zero and not below a rated identity, or unrated when identity is refused |
| ContentCoding.RankedInOrder | pingclair-core/src/encoding.rs:107-211 | order: quality, then the server's order, the unrated last |
| Percent.DecodePathComponent | pingclair-core/src/percent.rs:48-67 | refuses exactly when an escape stands for a separator, a backslash or a NUL, and otherwise decodes every escape once |
| Percent.DecodeForMatching | pingclair-core/src/percent.rs:90-118 | decodes the path before the first question mark and keeps the query |
| Percent.ResolveUnderRoot | pingclair-core/src/percent.rs:139-164 | the loop computes the components appended to the root |
| Percent.ResolveAcceptsExactly | pingclair-core/src/percent.rs:139-164 | a path resolves if and only if every part is clear and none decodes to the parent; the components are the named decoded parts |
| Percent.DecodeBySplitting | pingclair-core/src/percent.rs:90-164 | when every part is clear, decoding then splitting is splitting then decoding |
| Percent.GuardAndFileAgree | pingclair-core/src/percent.rs:69-164 | for a path that resolves, whatever query follows it, splitting what matchers compare gives exactly the components appended, none of which climbs or holds a separator |
| Percent.PushEncodedPath | pingclair-core/src/percent.rs:202-213 | appends the encoded name |
| Percent.EncodeRoundTrip | pingclair-core/src/percent.rs:188-241 | an encoded name decodes to the same bytes and is accepted if and only if it holds no backslash and no NUL |
| Percent.EitherCaseDecodes | pingclair-core/src/percent.rs:229-250 | escapes mean the same bytes whichever case each of their digits is in |
| Percent.EncodedNameIsMatched | pingclair-core/src/percent.rs:90-213 | an encoded name put into a URL, with any query behind it, is what matchers compare |
| CacheVary.Combine | pingclair-proxy/src/cache_vary.rs:41-51 | the count, then each length and value |
| CacheVary.Variance | pingclair-proxy/src/cache_vary.rs:29-55 | the loop builds the key of the sorted distinct nominations, or none for an invalid Vary |
| CacheVary.KeyIsInjective | pingclair-proxy/src/cache_vary.rs:38-51 | for counts and lengths that fit eight bytes, two requests have one key if and only if they agree line by line on every nominated field |
| CacheVary.KeyDependsOnTheSetOfNames | pingclair-proxy/src/cache_vary.rs:29-34 | reordering, repeating or recasing nominations changes no key |
| CacheVary.ResplittingChangesNothing | pingclair-proxy/src/cache_vary.rs:10-26 | one line or two nominate the same, errors included |
| CacheVary.NominatedExactly | pingclair-proxy/src/cache_vary.rs:10-26 | a Vary is interpreted if and only if no part is a star or malformed, and nominates each part trimmed and in small letters |
| CacheVary.StarIsRefused | pingclair-proxy/src/cache_vary.rs:19-23 | a star among the parts forbids the key |
| CacheVary.LinesInOrder | pingclair-proxy/src/cache_vary.rs:37-51 | the lines of a field are all of them, in the order received |
| CacheVary.MoreLinesMoreKeys | pingclair-proxy/src/cache_vary.rs:37-52 | a further request line changes the key if and only if its field is nominated |
| CacheAge.AgeSeconds | pingclair-proxy/src/cache_age.rs:58-67 | the fold in one machine word equals the written number capped at 2^31, for digit strings of any length |
| CacheAge.InitialAge | pingclair-proxy/src/cache_age.rs:68-72 | the larger of the apparent age and the stated age plus delay |
| CacheAge.ExpiryIsExactUnlessTheClockEnds | pingclair-proxy/src/cache_age.rs:83-121 | the stored epoch gives every hit its initial age plus its time in store, and a stored response expires exactly when that age reaches its lifetime if and only if the expiry instant can be represented; a zero lifetime is expired on arrival |
| CacheAge.LivesFromDateToExpires | pingclair-proxy/src/cache_age.rs:94-118 | without an explicit lifetime a response goes stale when its age reaches Expires minus Date, or minus its receipt without a Date; at once if that is not positive |
| CacheAge.ExplicitLifetimeWins | pingclair-proxy/src/cache_age.rs:94-118 | an explicit lifetime is used whatever Expires says |
| CacheAge.StoredUnlessOlderThanTheClock | pingclair-proxy/src/cache_age.rs:83-93 | a response is stored if and only if its age does not reach back before the clock begins |

## Left out

- Sockets, TLS records after the ClientHello, timers and the async runtime: replaced by nondeterministic polls and a clock.
- Session.Serve: `upstream` stands for the connection a successful dial establishes; logging, metrics, socket options and access-log byte counts are not modelled.
- ClientHello.Parse: the overflow check on the header position is not modelled, because a slice is never that long.
- DNS-backed upstream sources and their availability tracking: an availability answer is a parameter.
- BodyWatch: cancellation of a future in the middle of excused work, and HTTP/1 timers.
- FastCgi.Client.ReadResponseHeader: returns the header block as bytes; parsing its lines and status is a function of that block and is not modelled.
- FastCgi.Client.ReadRecord: read and write deadlines, failing writes and taking the diagnostics early are not modelled.
- ConfigTree.FindIdPath: the order of an object's fields is a parameter, and arrays are no longer than a machine word can index.
- ConfigTree.Document.Write and Delete: the walk keeps the nodes it entered and puts them back; aliasing of the document while it is edited is not captured.
- ConfigTree.Document.ExpandAppend: assumes the grown array is no longer than a machine word can index.
- Entity tags and If-Match.
- AdminPolicy: authentication, origins, validation and the data-plane transaction are one yes-or-no parameter of a publication.
- Matchers: handlers, regular-expression captures and the rest of the configuration compiler.
- MatcherLaws.LostExactlyWhenUnguarded: stated for negation-free matchers and requests that meet every other condition; with negations the conditions may exclude each other, and no syntactic condition is exact.
- ContentCoding: the text of the header; the model starts from parsed entries, with qualities as real numbers between 0 and 1.
- Percent: repair of invalid UTF-8 for display, and Windows paths.
- CacheVary: the hash, and the length limit on field names.
- CacheAge: parsing of HTTP dates and the revalidation header merge.
- The rest of the repository: configuration validators, directory merging, ACME, HTTP/3, access logs, metrics and plugins; long lists of independent checks or code over libraries that are not shown.
