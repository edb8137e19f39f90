# Verified models of Tailscale components

A Dafny 4.11 model of the parts of the Tailscale repository whose correctness rests on more
than one function at a time, with proofs of what they promise. `dafny verify dfyconfig.toml`
checks everything. Nothing was executed.

| files | what they model |
|---|---|
| `Frame`, `ForwardProtocol`, `ForwardGuarantees`, `ForwardBuffer`, `FrameWriter`, `FrameReader`, `Connection` | the DERP framing, the double-buffered forwarding of packets (callers, one flusher, a lock and a condition variable), the client's senders and its peeking reader |
| `Suppression`, `HealthTracker` | which health warnings are shown, and the change events published about them |
| `Routes`, `CnameWalk`, `AddrList`, `AppConnector` | the app connector: domains, CNAME chains, address lists, advertised and withdrawn prefixes, persisting and restoring |
| `NetlinkDiag`, `DiagDump`, `PortList`, `PortPoller` | the Linux port lister: the strict netlink parser, a dump over many datagrams, the refresh with fallback, the in-place sort and dedup |
| `Netip`, `Disco`, `DiscoBuffer` | the disco message codec |
| `LogBuffer`, `Upload` | the log ring buffer with drop markers, and batched upload |
| `ProbeLedger` | the transmission records of the queuing-delay probe |
| `LabelMap` | the metrics map with its sorted index |
| `Bytes`, `Seqs`, `Strings` | big-endian integers, equations between sequences, the order of strings |

The models keep the form of the code: objects whose methods change them are classes, loops
are loops over the same variables, and each such method is proved equal to, or to preserve,
a specification about which the lemmas speak. The forwarding protocol is a transition
system whose runs are arbitrary interleavings of the critical sections.

What comes from outside is a parameter or a nondeterministic choice: the clock, whether and
where a write to the connection is cut short, the order in which goroutines and timers run,
what the kernel and `/proc` answer, whether an upload succeeds, and the contents of sealed
boxes and JSON. `bufio.Writer` and `bufio.Reader` are modelled with the buffer sizes as
parameters.

## Findings

Thirteen properties that one would expect, or that comments state, do not hold of the code as it
is. In each case the model follows the code, a lemma or a method exhibits the failure, and
another member proves the exact condition.

- A comment in health/health.go:271-276 says a warnable is hidden when any dependency is
  unhealthy; the code hides it when a dependency is *shown*. The two agree for every set of
  problems iff the dependency table is transitively closed
  (`Suppression.DocumentedRuleIffClosed`, `GapDisagrees`). The built-in table is.
- A snapshot can be empty although a warning is set and past its `TimeToVisible`: a
  dependency that is set and not yet visible hides it and is left out itself
  (`HealthTracker.SnapshotEmptyIff`, `VeiledDependencyHidesAll`).
- Replaying published health changes reconstructs the tracker for a warnable iff its
  `TimeToVisible` is zero: a pending timer is overwritten without being stopped, so timers
  may publish in the wrong order (`HealthTracker.ReplayRightIffUndelayed`,
  `DelayedReplayGoesStale`).
- A comment in health/health.go:487-490 says a timer callback that has already started when
  its warnable becomes healthy publishes nothing. It publishes the resolved problem if the
  warnable is set again before the callback gets the lock, and so does the earlier of two
  timers, which is never stopped; no run does so iff the warnable's `TimeToVisible` is zero
  (`HealthTracker.ResolvedStaysResolvedIff`, `LateCallbackPublishes`,
  `OverwrittenTimerPublishes`).
- After `updateRoutes`, new routes stay covered by what is advertised if the advertiser adds
  every route it is given. `LocalBackend.AdvertiseRoute` skips a route that is already
  covered, even by a prefix withdrawn next, and advertises nothing if one route is not
  masked; with it, coverage holds iff all routes are masked and each lies in one that is
  neither withdrawn nor inside a withdrawn prefix, or no route is valid
  (`Routes.LocalBackendCoversIff`, `NarrowingLosesCoverage`).
- The first CNAME walk over a chain returns what it found where it stopped, so a wildcard
  match in mid-chain is missed (`CnameWalk.MissedIff`, `WildcardMissed`). The match becomes
  a domain, so a second walk finds it (`CnameWalk.SecondWalkFinds`).
- An empty domain map is omitted from the persisted routes and comes back as nil. A
  connector restored so panics iff it has not been configured since and a name on the chain
  matches a wildcard (`Connector.FindRoutedDomain`, `RestoredWalkPanics`).
- `updateDomains` forgets the addresses of a domain that is listed twice
  (`AppConnector.AddressesKeptIff`) and does not withdraw them either; nor does it withdraw
  those of a dropped domain unless routes are stored. An address is accounted for iff some
  domain that had it is listed at most once and, unless routes are stored, is kept
  (`AppConnector.AccountedForIff`, `TwiceListedForgets`, `UnstoredForgets`).
- Every domain tracked is listed or matches a wildcard, until an advertisement that was
  queued for a domain dropped since is carried out: it makes the domain a routed one again,
  iff it carries a single address (`Connector.RecordAdvertised`, `DroppedComesBack`).
- The routes published to be persisted share their address lists with the connector, which
  appends and sorts in place. A published list stays what it was iff no address that still
  fits into its array is less than its last one (`AddrList.AddAll`, `PublishedChanges`).
- An advertisement still queued when `ClearRoutes` runs writes to a nil map iff it carries a
  single address (`Connector.RecordAdvertised`, `ClearedWhileQueued`).
- The `/proc` fallback of the port lister never updates a socket it knows, so a reused inode
  is reported with its old port until a dump corrects it
  (`PortPoller.FallbackIsTrueIff`, `ReusedInodeUnnoticed`).
- The probe's transmission records are sized so that they do not overflow before a packet
  times out. With sends an interval apart that is so iff interval times capacity reaches the
  timeout (`ProbeLedger.RoomIff`); it does for every rate up to 10000 packets a second with
  the 5 s timeout, but not for every rate, because the ticker's interval is rounded down
  (`ProbeLedger.CapacitySuffices`, `DefaultTimeoutFits`, `SendSteadily`,
  `FastProbeOverflows`).

Smaller exceptions are part of the statements: a relay endpoint without addresses cannot be
parsed back, an upload batch may exceed the limit by one byte, and `sortAndDedup` drops
entries with empty protocol and port 0.

## Model

| member | source | states |
|---|---|---|
| Bytes.BigEndianAt | derp/derp.go:176-189 | byte i of a big-endian integer is its digit in base 256 with the remaining bytes after it |
| Frame.SplitEncoded | derp/derp.go:209-216 | reading a frame off a stream that starts with an encoded one returns that frame and the rest |
| Frame.SplitSound | derp/derp.go:209-216 | a frame read off a stream is what the stream starts with, byte for byte |
| Frame.SplitTruncated | derp/derp.go:209-216 | no frame is read off a proper prefix of one |
| Frame.DecodeEncoded | derp/derp.go:274-293 | a stream of encoded frames decodes to those frames |
| Frame.DecodeCut | derp/derp.go:209-216 | a stream cut anywhere decodes to a prefix of its frames |
| Frame.DecodeSound | derp/derp.go:209-216 | what decodes from a stream re-encodes to a prefix of it |
| ForwardProtocol.AdmissionIff | derp/forward.go:92-122 | a caller is refused iff there is an error, and waits iff something is pending and its frame would take it over 16 KiB; otherwise its frame goes to the end of what is pending |
| ForwardProtocol.ForwardLayout | derp/derp.go:76 | a forwarded packet on the wire: kind, big-endian length, source key, destination key, data |
| ForwardProtocol.AttemptKeeps | derp/forward.go:92-122 | accepting a frame or blocking on a full buffer keeps the invariant, whether or not it starts a flusher |
| ForwardProtocol.SwapKeeps | derp/forward.go:144-155 | the flusher's swap or park keeps the invariant |
| ForwardProtocol.FlushOkKeeps | derp/forward.go:127-138 | a completed write keeps the invariant |
| ForwardProtocol.FlushFailKeeps | derp/forward.go:162-172 | a write cut short anywhere keeps the invariant |
| ForwardProtocol.FlushFailReport | derp/forward.go:162-172 | the loss reported is the frames and bytes accepted and not flushed |
| ForwardProtocol.OtherKeeps | derp/derp_client.go:264-293 | a send, ping, pong or preferred-note, complete or cut short, keeps the invariant |
| ForwardProtocol.StepKeeps | derp/forward.go:73-172 | every step of every participant keeps the invariant |
| ForwardProtocol.Safety | derp/forward.go:50-172 | every state of every interleaving satisfies it: bytes conserved, at most one flusher, no lost wakeup, frames on the wire whole and in order, failure reported once |
| ForwardGuarantees.DeliveredInOrder | derp/forward.go:92-155 | what is on the connection, however a write was cut, decodes to frames whose packets are a prefix of those accepted, in acceptance order |
| ForwardGuarantees.BytesConserved | derp/forward.go:92-155 | until a failure flushed ++ in flight ++ pending is the encoding of all packets accepted, and `frames` counts those pending |
| ForwardGuarantees.NothingStranded | derp/forward.go:95-122 | a blocked caller not notified still has something pending before it that its frame would take over 16 KiB, and a flusher will release it; pending is empty without a flusher; a buffer over 16 KiB holds one frame |
| ForwardGuarantees.Batched | derp/forward.go:92-122 | any packets pushed before the flusher swaps are all accepted into one buffer while they fit together |
| ForwardGuarantees.OthersGoThrough | derp/derp_client.go:264-293 | on a live connection the frame of another sender arrives next, after any run |
| ForwardGuarantees.RunFailsOnce | derp/forward.go:162-172 | in every run `flushFailed` has been called exactly once if the error is set, and not at all otherwise |
| ForwardGuarantees.FailureIsFinal | derp/forward.go:39-48 | after a failed flush the error is sticky, nothing is accepted or written, and `flushFailed` ran once with exactly what was lost |
| ForwardGuarantees.FlusherSettles | derp/forward.go:124-138 | the flusher alone reaches a settled state in as many steps as its measure says |
| ForwardGuarantees.WokenReturns | derp/forward.go:107-112 | a caller woken in a settled state returns and does not block again |
| ForwardGuarantees.EveryoneGetsOut | derp/forward.go:50-60 | from any reachable state four flusher steps flush or fail everything and wake every blocked caller |
| ForwardBuffer.ForwardBuffers.constructor | derp/forward.go:50-68 | the zero value is ready to use |
| ForwardBuffer.ForwardBuffers.Append | derp/forward.go:113-116 | Go's append: contents extended, in place or in a fresh array |
| ForwardBuffer.ForwardBuffers.AppendFrame | derp/forward.go:113-116 | the four appends add exactly the encoding of the packet's frame |
| ForwardBuffer.ForwardBuffers.Add | derp/forward.go:92-122 | the array-backed `add` takes the protocol's step, waits iff something is pending and the frame would take it over 16 KiB, hands out the idle buffer only when no flusher owns one, and leaves the bytes being written alone |
| ForwardBuffer.ForwardBuffers.Next | derp/forward.go:144-155 | `next` takes the protocol's step; the buffers trade places and are never shared |
| ForwardBuffer.ForwardBuffers.Fail | derp/forward.go:162-172 | `fail` takes the protocol's step, counts the loss and lends no buffer again |
| FrameWriter.Writer.WriteFrameHeader | derp/derp.go:258-272 | both header paths leave the same five bytes on the stream; fails only if the connection takes fewer bytes than were written to it |
| FrameWriter.Writer.WriteUint32 | derp/derp.go:176-189 | the byte loop writes the big-endian integer, failing only if the connection does |
| FrameWriter.Writer.Send | derp/derp_client.go:264-293 | oversized and rate-limited packets write nothing; otherwise it fails iff it had failed before or the connection takes fewer bytes than the frame, and leaves exactly what the connection takes |
| FrameWriter.Writer.SendPingOrPong | derp/derp_client.go:369-379 | the same for the ping or pong frame |
| FrameWriter.Writer.NotePreferred | derp/derp_client.go:384-405 | the same for the one-byte preferred note |
| FrameWriter.Writer.FlushForwarded | derp/derp_client.go:334-343 | the same for the flusher's buffer |
| FrameReader.Client.constructor | derp/derp_client.go:133-158 | a new reader has the whole stream before it and nothing peeked |
| FrameReader.Client.NextFrame | derp/derp_client.go:574-612 | peeked or copied, the next frame is the one a plain reader takes, for every buffer size, and failures agree |
| FrameReader.Client.Recv | derp/derp_client.go:559-741 | returns what the one-frame-at-a-time parser returns, with position = reader position + peeked; after an error returns that error and consumes nothing |
| FrameReader.Client.RecvAll | derp/derp_client.go:559-741 | calls until an error return exactly the messages of the stream, and end with the error that ends it |
| FrameReader.StreamDelivered | derp/derp_client.go:563-741 | receiving a stream of acceptable frames delivers each frame's message in order, skipping only unknown and short ones |
| FrameReader.CutDelivered | derp/derp_client.go:563-741 | a stream of acceptable frames cut anywhere delivers the messages of the frames that are whole |
| FrameReader.PeerPresentRoundTrip | derp/derp_client.go:654-697 | a peer-present frame is read back with its address normalised, ignoring bytes from the future |
| FrameReader.PeerPresentShort | derp/derp_client.go:654-697 | the layouts of older servers, cut after the key, the address or the flags, are read with what is missing left empty |
| FrameReader.MessageRead | derp/derp_client.go:615-737 | every message, written in its documented layout with any bytes from the future, is read back as itself, a peer address in normal form |
| FrameReader.SkippedIff | derp/derp_client.go:615-737 | a frame is skipped iff it is too short for its kind or of no known kind |
| FrameReader.RejectedIff | derp/derp_client.go:615-631 | only server info is rejected: iff it has no nonce, is too long or does not open |
| FrameReader.LargeRefused | derp/derp_client.go:586-592 | a header announcing more than 1 MiB ends the stream |
| FrameReader.ReceiveSent | derp/derp_client.go:559-741 | a client of any buffer size gets from a stream of any messages, as a server writes them, exactly those messages in order |
| Connection.SenderTakesStep | derp/derp_client.go:264-293 | a sender fails iff the connection has too little room, and what it leaves there, whole or cut, is a step of the protocol |
| Connection.FlushTakesStep | derp/derp_client.go:334-343 | so does a flush, which also fails on a dead connection |
| Connection.RunReceived | derp/derp_client.go:563-741 | for every interleaving, whatever writes were cut, receiving delivers the messages of exactly the frames that decode from the connection: all those sent and at most the one torn, in lock order |
| Connection.ReceiveRun | derp/derp_client.go:559-741 | so the client's calls, for every buffer size, return exactly those messages |
| Connection.LiveRunReceived | derp/derp_client.go:563-741 | while the connection is alive, one message per frame written and not skipped |
| Suppression.ShownAreRootCauses | health/state.go:188-202 | a warnable is shown iff it is set and no dependency is shown |
| Suppression.ShownIsUnique | health/state.go:188-202 | for an acyclic table that is the only set with this property |
| Suppression.EveryWarningExplained | health/state.go:188-202 | what is set is shown or has a direct dependency shown, so something is shown whenever anything is set |
| Suppression.ClosedTableAgrees | health/health.go:271-276 | for a transitively closed table the code follows the documented rule |
| Suppression.GapDisagrees | health/health.go:271-276 | any gap in the table makes the rules differ |
| Suppression.DocumentedRuleIffClosed | health/health.go:271-276 | the rules agree for every set of problems iff the table is transitively closed |
| Suppression.BuiltinsFollowDocumentedRule | health/warnings.go:118-243 | the declared table is acyclic and closed, so the documented rule is what users get |
| HealthTracker.ReplayReconstructs | health/health.go:412-460 | with zero `TimeToVisible`, replaying the published changes gives the tracker's record after every run, whatever timers of others do |
| HealthTracker.DelayedReplayGoesStale | health/health.go:447-457 | with a delay, two updates and their timers out of order leave subscribers outdated for good |
| HealthTracker.ReplayRightIffUndelayed | health/health.go:412-460 | replay is right in every run, once timers are quiet, iff the warnable has no delay |
| HealthTracker.LateCallbackPublishes | health/health.go:484-493 | with a delay, a callback that survives `Stop` publishes a resolved problem over the present one |
| HealthTracker.ResolvedStaysResolvedIff | health/health.go:447-493 | no run has a timer about to do so iff the warnable has no delay |
| HealthTracker.OverwrittenTimerPublishes | health/health.go:447-493 | so does the earlier of two timers, even if stopping is always in time |
| HealthTracker.VisibleIff | health/health.go:380-385 | a warnable is visible iff it has no delay or the delay has passed since it broke |
| HealthTracker.UnhealthyAnnounced | health/health.go:412-460 | a problem is announced iff it is new or its arguments changed: at once iff its delay has passed, else by a timer; its start stays the same |
| HealthTracker.HealthyAnnounced | health/health.go:472-509 | that it is over is announced iff its delay had passed |
| HealthTracker.TimerAnnounces | health/health.go:447-457 | a timer announces what it was armed for iff the warnable is unhealthy then, and only once |
| HealthTracker.BrokenSinceLatest | health/health.go:412-430 | `BrokenSince` is the time of the latest healthy-to-unhealthy transition in every run |
| HealthTracker.Tracker.constructor | health/health.go:412-430 | a new tracker is the state of the empty run |
| HealthTracker.Tracker.SetUnhealthy | health/health.go:412-460 | takes the step the run lemmas are about |
| HealthTracker.Tracker.SetHealthy | health/health.go:472-509 | takes the step the run lemmas are about, whether or not stopping the timer is in time |
| HealthTracker.Tracker.Fire | health/health.go:447-457 | a timer callback takes the step the run lemmas are about |
| HealthTracker.Tracker.CurrentState | health/state.go:124-146 | the snapshot is exactly the warnables shown whose time since breaking has reached their `TimeToVisible` |
| HealthTracker.SnapshotEmptyIff | health/state.go:124-146 | the snapshot is empty iff every warnable that is set is, or directly depends on, one that is effectively unhealthy and not yet visible |
| HealthTracker.VeiledDependencyHidesAll | health/state.go:124-146 | a dependency just set hides a visible warnable and does not appear itself |
| Routes.NewRoutesStayCovered | appc/appconnector.go:350-400 | with an advertiser that adds what it is given, every address of the new routes is still covered after advertise-then-unadvertise, even where the removal list overlaps them |
| Routes.OnlySinglesOverlap | appc/appconnector.go:350-400 | the removal list takes from the new routes only single addresses |
| Routes.RoutesWithout | appc/appconnector.go:528-536 | exactly the routes in one list and not in the other |
| Routes.ContainsIff | appc/appconnector.go:360-386 | a prefix contains the addresses of its family that agree with it in all but the host bits, as integer division says |
| Routes.WithdrawnIff | appc/appconnector.go:350-400 | withdrawn are the stored routes that are gone, and the single address of each known one that a new route with host bits contains |
| Routes.Nested | ipn/ipnlocal/local.go:8894-8950 | prefixes that share an address are nested |
| Routes.SpansIff | ipn/ipnlocal/local.go:8932-8950 | containing both ends of a prefix is containing all of its addresses |
| Routes.CoversIff | ipn/ipnlocal/local.go:8932-8950 | a default route covers nothing; any other covers the routes all of whose addresses it contains |
| Routes.AdvertiseRepresents | ipn/ipnlocal/local.go:8894-8950 | a route asked for is advertised or covered by an advertised one |
| Routes.AdvertiseAdds | ipn/ipnlocal/local.go:8894-8950 | a prefix newly advertised was asked for and not covered before |
| Routes.AnchoredStaysCovered | ipn/ipnlocal/local.go:8894-8972 | if all routes are masked and every new route lies in an anchor, coverage holds whatever was advertised before |
| Routes.UnanchoredIsLost | ipn/ipnlocal/local.go:8894-8972 | otherwise some earlier advertisement makes it fail |
| Routes.LocalBackendCoversIff | ipn/ipnlocal/local.go:8894-8972 | coverage after the update holds from every earlier advertisement iff the routes are masked and anchored, or none is valid |
| Routes.NarrowingLosesCoverage | appc/appconnector.go:350-400 | narrowing a stored control route leaves nothing advertised |
| CnameWalk.PathIff | appc/appconnector.go:429-459 | the names walked are the one sequence in which each leads to the next, none led to repeats, and the last leads nowhere new |
| AppConnector.HasSuffixIff | util/dnsname/dnsname.go:202-213 | for every name and suffix: matched iff the name, less a dot at its end, ends with a dot and the suffix, less a dot at either end, which is not empty |
| AppConnector.SuffixIff | util/dnsname/dnsname.go:202-213 | for plain names: matched iff the name ends with a dot and the suffix, and surrounding dots change nothing |
| CnameWalk.MissedIff | appc/appconnector.go:429-459 | what the walk finds is promised; a promised domain is missed iff no exact domain is on the path, a wildcard matches before the last name and none matches that |
| CnameWalk.WildcardMissed | appc/appconnector.go:438-456 | any alias that matches a wildcard and leads to a name that does not is missed |
| CnameWalk.SecondWalkFinds | appc/appconnector.go:438-456 | after one walk over a chain, a second finds a routed domain iff the documented rule promised one |
| AppConnector.WalkTwice | appc/appconnector.go:429-459 | so it does on the connector: the second call returns true iff the rule promised a domain before the first |
| CnameWalk.RoutedWhereStopped | appc/appconnector.go:429-459 | whether a routed domain is found depends only on where the walk stops |
| AddrList.OrdCompares | appc/appconnector.go:522-524 | IPv4 addresses come before IPv6 ones, then by value, and different addresses never tie |
| AddrList.AppendAndSort | appc/appconnector.go:517-520 | appending and sorting adds the address once more, in order; the list stays strictly sorted iff the address was not there |
| AddrList.SortLast | appc/appconnector.go:517-520 | sorting in place moves the appended address to its position |
| AddrList.Add | appc/appconnector.go:517-520 | the slice-backed append and sort: in place while there is room, else in a fresh array |
| AddrList.PublishedIff | appc/appconnector.go:517-520 | whatever addresses are added, the first elements of the list stay what they were iff none is less than the last of them |
| AddrList.AddAll | appc/appconnector.go:222-239 | a list published and then added to: what the subscriber reads stays what it was iff no address that was added in place is less than the last published |
| AddrList.PublishedChanges | appc/appconnector.go:222-239 | a published list with room to spare changes under the subscriber, for every two addresses |
| AppConnector.LowerIs | appc/appconnector.go:298 | lowering leaves no upper-case letter and changes nothing else |
| AppConnector.ExactIff | appc/appconnector.go:294-308 | listed by name are the entries, in lower case, that are not empty and do not begin with an asterisk and a dot |
| AppConnector.WildIff | appc/appconnector.go:294-304 | wildcards are the entries that do, without it |
| AppConnector.TwiceIff | appc/appconnector.go:294-308 | a domain counts as listed twice iff two entries of the list are it, in lower case |
| AppConnector.AddressesKeptIff | appc/appconnector.go:290-319 | a domain keeps its addresses iff it is listed exactly once, or only matched by a wildcard |
| AppConnector.AccountedForIff | appc/appconnector.go:290-344 | a known address is still recorded, or withdrawn, iff some domain that had it is listed at most once and is kept unless routes are stored |
| AppConnector.UnstoredForgets | appc/appconnector.go:321-344 | without stored routes, configure, observe, advertise and drop: the address is forgotten and not withdrawn |
| AppConnector.TwiceListedForgets | appc/appconnector.go:294-308 | any domain listed twice loses whatever addresses it had, and none is withdrawn |
| AppConnector.Connector.constructor | appc/appconnector.go:184-200 | a connector without stored routes starts empty and valid |
| AppConnector.Connector.Restore | appc/appconnector.go:202-206 | persisted routes are installed as they are, a nil domain map included |
| AppConnector.Connector.StoreRoutes | appc/appconnector.go:222-239 | what is published is the whole state, and can be restored |
| AppConnector.Connector.MatchWildcard | appc/appconnector.go:440-446 | the loop decides whether the name ends with a dot and the domain of some wildcard |
| AppConnector.Connector.Look | appc/appconnector.go:433-446 | one name: exact, or a wildcard match that becomes a domain; a match panics iff the map is nil |
| AppConnector.Connector.Walk | appc/appconnector.go:429-459 | the loop stops where the chain ends, revisits or meets a domain, having passed over every name before |
| AppConnector.Connector.FindRoutedDomain | appc/appconnector.go:429-459 | terminates on every alias map, cyclic ones included; the result is on the chain, where the walk stops; true iff the rule promises a domain and it is not missed, and then it is a key of `domains`; exactly the names walked over that end with a dot and the domain of a wildcard become keys, without addresses; panics iff the map is nil and a name on the chain is such a match |
| AppConnector.Connector.HasDomainAddr | appc/appconnector.go:510-513 | the binary search decides membership |
| AppConnector.Connector.AddDomainAddr | appc/appconnector.go:517-520 | adds exactly the address, in order; lists stay strictly sorted iff it was not there; panics iff the map is nil |
| AppConnector.Connector.IsAddrKnown | appc/appconnector.go:465-478 | known iff recorded or covered by a control route; afterwards exactly it is recorded in addition if known; panics iff the map is nil and a control route covers the address |
| AppConnector.Connector.NewAddrs | appc/observe.go:117-124 | exactly the observed addresses covered by control are recorded in addition, and exactly the other new ones are to be advertised |
| AppConnector.Connector.ObserveRecord | appc/observe.go:106-131 | an observed name is handled iff its chain is routed: exactly the covered addresses are recorded for the domain found, an advertisement of exactly the other new ones is queued, exactly the wildcard matches walked over become domains, and nothing else changes |
| AppConnector.Connector.Learn | appc/observe.go:117-129 | the same for a domain already found |
| AppConnector.Connector.Observe | appc/observe.go:106-131 | for a whole response in any order: every routed name's addresses are recorded or queued for a domain on its chain; only observed addresses covered by control are recorded, only observed uncovered ones queued; only wildcard matches the response leads over become domains; panics iff the map is nil and a name matches a wildcard |
| AppConnector.Connector.RecordAdvertised | appc/appconnector.go:482-506 | the queued step records exactly the advertised single addresses, and makes the domain a key iff there is one; it fails iff the map is nil and there is one; domains stay listed or matched by a wildcard iff this one is, or was a key, or there is no single address |
| AppConnector.DroppedComesBack | appc/appconnector.go:482-506 | configure, observe, drop, carry out the queued advertisement: the domain is routed again though nothing lists it |
| AppConnector.ClearedWhileQueued | appc/appconnector.go:482-506 | configure, observe, clear, carry out the queued advertisement: it panics, for every domain and address |
| AppConnector.RestoredWalkPanics | types/appctype/appconnector.go:102-110 | configure a wildcard only, persist, restore, observe a match: it panics, for every wildcard and name |
| AppConnector.Connector.ClearRoutes | appc/appconnector.go:242-250 | everything is forgotten, but not the queue |
| AppConnector.Connector.UpdateDomains | appc/appconnector.go:290-344 | the domains are exactly those listed and those a wildcard keeps alive; if routes are stored, exactly the addresses of dropped domains are withdrawn; an address is accounted for iff it is recorded or withdrawn |
| AppConnector.Connector.ListExact | appc/appconnector.go:294-308 | the first loop lists exact domains and wildcards; a domain listed twice loses its addresses |
| AppConnector.Connector.KeepWildcards | appc/appconnector.go:310-319 | the second loop moves old domains matched by a wildcard over, and only those |
| AppConnector.Connector.UpdateRoutes | appc/appconnector.go:350-400 | unchanged routes do nothing; otherwise advertise-then-withdraw of exactly the obsolete prefixes is queued |
| NetlinkDiag.TakeEncoded | portlist/portlist_linux.go:451-477 | the header and body of an encoded message are read back, in either byte order |
| NetlinkDiag.MessageLayout | portlist/portlist_linux.go:451-470 | where length, type, flags, sequence number, port and body are, and that padding is zeros to a multiple of four |
| NetlinkDiag.LittleEndianAt | portlist/portlist_linux.go:451-470 | byte i of a little-endian integer is its digit in base 256 with i after it |
| NetlinkDiag.FlagBits | portlist/portlist_linux.go:471-508 | the flags looked at are bits 1 and 4 |
| NetlinkDiag.TakeSound | portlist/portlist_linux.go:451-477 | a message read is what the bytes start with, padding included |
| NetlinkDiag.MessagesEncoded | portlist/portlist_linux.go:450-477 | encoded messages are read back before whatever follows |
| NetlinkDiag.MessagesSound | portlist/portlist_linux.go:450-477 | a datagram read without error is the encoding of its messages: no byte is ignored |
| NetlinkDiag.JudgedExactly | portlist/portlist_linux.go:471-508 | a message counts as a record, or as completion, iff it has exactly the required type, flags, addressee, length and family |
| NetlinkDiag.ScanRecords | portlist/portlist_linux.go:449-518 | any list of records reaches the callback as it was, in order |
| NetlinkDiag.AcceptedIff | portlist/portlist_linux.go:449-518 | a datagram is accepted iff it is zero-padded matching records and then nothing or one clean completion; done iff the completion is there; the callback saw the bodies in order |
| NetlinkDiag.TakeTurn | portlist/portlist_linux.go:450-516 | one turn of the loop stops with the scan's outcome or accepts the record at the front |
| NetlinkDiag.ParseDatagram | portlist/portlist_linux.go:449-518 | on every byte string the loop terminates, reads in range and returns the outcome the other rows characterise |
| DiagDump.Receive | portlist/portlist_linux.go:375-432 | one turn of the receive loop ends with the outcome of the transaction or adds the records of one datagram |
| DiagDump.Dumping | portlist/portlist_linux.go:347-434 | the loop over datagrams terminates with the outcome that the next rows characterise |
| DiagDump.SucceedsIff | portlist/portlist_linux.go:366-434 | a dump succeeds iff interrupts and genuine datagrams of records end in one with a clean completion, within the limits on messages, records and bytes; it then delivers all their records in order |
| DiagDump.RowsListed | portlist/portlist_linux.go:404-424 | a socket is listed iff some record is of a listener with its inode |
| DiagDump.MsgRoundTrip | portlist/portlist_linux.go:409-422 | the fields of a record are read back from its bytes |
| DiagDump.MsgInverse | portlist/portlist_linux.go:409-422 | every body of 72 bytes or more is the encoding of its fields |
| DiagDump.LoopbackIff | portlist/portlist_linux.go:535-540 | localhost is 127.0.0.1 or ::1 in all sixteen bytes |
| DiagDump.RowIs | portlist/portlist_linux.go:404-424 | a record gives a row, with its inode, protocol and source port, iff remote address and destination port are zero and it is not on localhost or that is asked for |
| DiagDump.KeyReads | portlist/portlist_linux.go:420-422 | the key is the inode in decimal in the form that /proc links have |
| DiagDump.ErrorReply | portlist/portlist_linux.go:149-155 | a netlink error fails the dump, and counts as a missing capability iff it is one of eight errno values |
| DiagDump.WithinLimits | portlist/portlist_linux.go:367-396 | a dump that succeeds has in all no more datagrams, records and bytes than the limits |
| DiagDump.KeyInjective | portlist/portlist_linux.go:420-422 | different inodes have different keys |
| DiagDump.PolledFromWire | portlist/portlist_linux.go:238-434 | from the wire to the poll: the dumps count iff each is complete within 1 Mi datagrams, 1 Mi records and 128 MiB, and then a socket is known afterwards iff a record on the wire is of a listener with its inode, with the protocol and source port of the last such record |
| PortList.LessThanIsOrder | portlist/portlist.go:27-35 | `lessThan` is a strict weak order whose ties differ only in Pid |
| Strings.LessIff | portlist/portlist.go:27-35 | strings are ordered by the first character in which they differ, a prefix before what it is a prefix of |
| PortList.DedupInPlace | portlist/portlist.go:70-79 | the in-place loop returns the dedup of what was there, never clobbering an unread element |
| PortList.DedupKept | portlist/portlist.go:70-79 | the output of a sorted list is strictly sorted, among the input, and represents every key but the zero one |
| PortList.SortAndDedup | portlist/portlist.go:66-80 | sorted and deduplicated: strictly sorted, so one entry per (Port, Proto); a port is represented, with the least process name, iff its key is not the zero Port's |
| PortList.DedupOfSorted | portlist/portlist.go:66-80 | the same for every order that sorts the ports |
| PortList.SortPorts | portlist/portlist.go:67-69 | a sorted permutation |
| PortPoller.DumpedIff | portlist/portlist_linux.go:262-275 | the dumps count iff none fails, and then name exactly the sockets any of them delivers |
| PortPoller.DumpIsTheTruth | portlist/portlist_linux.go:276-292 | after a successful dump the known sockets are exactly the dumped ones; unchanged ones keep their process, others are looked up |
| PortPoller.LookedUpOnce | portlist/portlist_linux.go:658-668 | a process is looked for once: not found is given up, and found is kept while the socket is the same |
| PortPoller.IncapableIff | portlist/portlist_linux.go:262-275 | dumps are given up for good iff the first to fail does so for lack of a capability |
| PortPoller.ReadableIff | portlist/portlist_linux.go:195-208 | a row is read iff no file before its own is malformed |
| PortPoller.RowsSeen | portlist/portlist_linux.go:636-648 | after the rows, known sockets are only marked and unknown ones added as their first row has them |
| PortPoller.FallbackIsTrueIff | portlist/portlist_linux.go:175-232 | after a fallback the known sockets are the listed ones, and one is reported as its row has it iff it was not known as something else |
| PortPoller.ReusedInodeUnnoticed | portlist/portlist_linux.go:636-648 | two fallback polls with an inode reused between them report the old socket, and a dump then the new one |
| PortPoller.Poller.AppendDiagPorts | portlist/portlist_linux.go:238-294 | all dumps or nothing: on failure `known` is as if they had never been tried; a missing capability disables them for good |
| PortPoller.Poller.KeepDumped | portlist/portlist_linux.go:276-287 | drops what the dump does not name and updates the rest |
| PortPoller.Poller.AddDumped | portlist/portlist_linux.go:288-292 | adds what is new |
| PortPoller.Poller.ReadRows | portlist/portlist_linux.go:636-648 | applies listener rows one by one |
| PortPoller.Poller.ReadFiles | portlist/portlist_linux.go:195-208 | reads files up to the first malformed one and tells whether there was one |
| PortPoller.Poller.Sweep | portlist/portlist_linux.go:210-221 | keeps exactly the marked sockets and collects those without a process name |
| PortPoller.Poller.Poll | portlist/portlist_linux.go:175-232 | a whole poll: state as a function of earlier state, dump, files and names, in which failed dumps do not occur; which errors end it; the result is the base list and the known ports, sorted and deduplicated |
| PortPoller.Poller.Report | portlist/portlist_linux.go:227-231 | represents exactly the ports of the base list and the known ones (but not the zero key), sorted and without duplicates |
| Netip.NormalForm | disco/disco.go:239-243 | what an address becomes on the wire and back |
| Netip.MappedLayout | disco/disco.go:223-245 | an IPv4 address is sent as ten zero bytes, two of ones and its four |
| Netip.AddrPortLayout | disco/disco.go:223-245 | the address comes first, then the port |
| Netip.NormalKeepsBytes | disco/disco.go:239-243 | normalising is idempotent and does not show on the wire |
| Netip.AddrPortRoundTrip | disco/disco.go:223-245 | an address and port are read back in normal form |
| Disco.HeaderLayout | disco/disco.go:44-58 | the type numbers 1 to 9 and version 0 in the first two bytes |
| Disco.FieldLayout | disco/disco.go:374-397 | the offsets of the fields of a bind body and a relay endpoint |
| Disco.PingLayout | disco/disco.go:154-167 | the offsets of a ping: a zero key takes no room |
| Disco.PongLayout | disco/disco.go:262-269 | the offsets of a pong |
| Disco.RequestLayout | disco/disco.go:480-489 | the offsets of an allocation request |
| Disco.ViaLayout | disco/disco.go:568-591 | the addresses follow the fixed part of a relay endpoint |
| Disco.ResponseLayout | disco/disco.go:517-524 | the generation comes before the relay endpoint |
| Disco.ShortIff | disco/disco.go:81-109 | exactly which messages are refused as short, and which as unknown, by length, type and version |
| Disco.LaterVersion | disco/disco.go:221-247 | of a later version four types are taken as empty and the others as of this one |
| Disco.EndpointsRoundTrip | disco/disco.go:221-247 | an address list is read back in normal form |
| Disco.RelayRoundTrip | disco/disco.go:568-623 | a relay endpoint's body is read back, negative lifetimes through the unsigned cast included |
| Disco.CommonRoundTrip | disco/disco.go:374-397 | the shared bind body is read back |
| Disco.RoundTrip | disco/disco.go:81-109 | every one of the nine messages parses back to itself with addresses normalised, except that a relay endpoint without addresses is refused as short |
| Disco.NormalisedKeeps | disco/disco.go:221-284 | normalising a message is idempotent and does not change its wire form |
| Disco.EndpointsInverse | disco/disco.go:232-247 | an address list read is written back to the same bytes |
| Disco.RelayInverse | disco/disco.go:594-623 | so is a relay endpoint, lifetimes included |
| Disco.MarshalsBackIff | disco/disco.go:81-109 | what parses marshals to the same bytes iff they are canonical: version 0, nothing left over, padding zero |
| DiscoBuffer.PutEndpoints | disco/disco.go:585-590 | the loop fills in the address list and nothing before it |
| DiscoBuffer.PutCommon | disco/disco.go:374-382 | `encode` fills in the bind body |
| DiscoBuffer.PutRelay | disco/disco.go:568-591 | `encode` fills in the relay endpoint field by field |
| DiscoBuffer.AppendHeader | disco/disco.go:125-132 | grows the buffer by a header and zeros |
| DiscoBuffer.PutPing | disco/disco.go:154-167 | a zero key is left out and the padding stays zero |
| DiscoBuffer.PutPong | disco/disco.go:262-269 | the transaction id, address and port are filled in, completing the wire form |
| DiscoBuffer.PutRequest | disco/disco.go:480-489 | both keys and the generation are filled in, completing the wire form |
| DiscoBuffer.PutResponse | disco/disco.go:517-524 | the generation and the relay endpoint are filled in, completing the wire form |
| DiscoBuffer.AppendMarshal | disco/disco.go:111-132 | for every message, what was in the buffer stays and its wire form follows |
| DiscoBuffer.ReadEndpoints | disco/disco.go:614-621 | the loop reads the address list |
| LogBuffer.MarkerInjective | logtail/buffer.go:87 | a marker tells exactly how many lines were dropped |
| LogBuffer.MarkerReads | logtail/buffer.go:87 | the digits between the fixed texts of a marker read as the number dropped |
| Strings.DecimalReads | logtail/buffer.go:87 | decimal notation is digits without leading zeros that read back as the number |
| LogBuffer.RunRendered | logtail/buffer.go:73-120 | a run of drops between accepted lines shows as one marker with its length |
| LogBuffer.MemBuffer.constructor | logtail/buffer.go:32-36 | an empty buffer satisfies the invariant |
| LogBuffer.MemBuffer.TryReadLine | logtail/buffer.go:73-98 | reads the line held back, else the drop marker or message of the first entry, takes exactly that out and counts its bytes; reader output ++ what is left to read stays the rendered write history; `writeBytes = readBytes + storedBytes` |
| LogBuffer.FirstLineWaiting | logtail/buffer.go:73-98 | what is read is the first line waiting; nothing is read iff none is waiting, unless nil was written |
| LogBuffer.MemBuffer.Drain | logtail/logtail.go:448-476 | reading until there is nothing outputs the whole rendered history and empties the buffer |
| LogBuffer.MemBuffer.Write | logtail/buffer.go:100-120 | accepts iff there is room, and then queues the message with the drops before it, else counts a drop; the same invariant, and dropped bytes are counted |
| Upload.ClosedBuffer | logtail/logtail.go:226-227 | trimming the comma and closing the bracket makes the buffer the JSON array of its entries |
| Upload.Batcher.SendBatch | logtail/logtail.go:222-248 | success moves pending to sent, failure changes nothing, an empty buffer sends nothing |
| Upload.Batcher.Append | logtail/logtail.go:273-281 | sends first if the entry would overflow, then adds it |
| Upload.UploadLogs | logtail/logtail.go:206-285 | on success, failure or cancellation the uploads are JSON arrays of consecutive batches holding exactly the first `sent` entries once in order; no error iff that is all; batches of several entries exceed the limit by at most one byte and end only where the next entry would not fit |
| Upload.BoundIsTight | logtail/logtail.go:273-281 | the one byte over the limit is reached |
| Upload.OverByOne | logtail/logtail.go:206-285 | uploading any two entries that fill the limit together sends one array of both, one byte over the limit |
| ProbeLedger.Conserved | prober/derp.go:427-446 | accounting implies recorded = measured + dropped + outstanding |
| ProbeLedger.Ledger.constructor | prober/derp.go:419-428 | the ledger starts balanced and empty, with no send and no sweep behind it |
| ProbeLedger.Ledger.Balance | prober/derp.go:427-521 | in every state any interleaving reaches, recorded sends = measured + dropped + outstanding, and no packet counts twice |
| ProbeLedger.Ledger.ApplyTimeouts | prober/derp.go:432-446 | drops exactly the expired records, once each, and takes the step the run lemmas are about |
| ProbeLedger.Ledger.RecordSend | prober/derp.go:466-476 | appends the next sequence number within capacity, counting the oldest record as dropped if there is no room; there is room if all sends so far were an interval apart, each after a sweep, and interval times capacity reaches the timeout |
| ProbeLedger.AppendedIs | prober/derp.go:468-475 | the new record is last, and before it are the latest there is room for |
| ProbeLedger.Ledger.Find | prober/derp.go:505-521 | the early-exit search finds a record iff there is one |
| ProbeLedger.Ledger.Receive | prober/derp.go:503-521 | measures a packet iff its record is there, with its delay, takes out exactly that record, and otherwise changes nothing; takes the step the run lemmas are about |
| ProbeLedger.NoOverflow | prober/derp.go:419-427 | records an interval apart, none expired, leave room for one more if interval times capacity reaches the timeout |
| ProbeLedger.RoomIff | prober/derp.go:423-427 | that condition is exact: in all runs of sweeps, prompt sends and arrivals no record is given up iff it holds |
| ProbeLedger.PacedFits | prober/derp.go:427-521 | in every run whose sends were prompt the records are an interval apart, and one was given up only if the condition fails |
| ProbeLedger.SendSteadily | prober/derp.go:455-476 | a ledger sent to once an interval, one time more than its capacity, has given a record up whenever the condition fails |
| ProbeLedger.CapacitySuffices | prober/derp.go:427-456 | when capacity and ticker interval, computed from the rate, meet it |
| ProbeLedger.DefaultTimeoutFits | prober/derp.go:427-456 | they do for 5 s and every rate up to 10000 |
| ProbeLedger.FastProbeOverflows | prober/derp.go:427-456 | they do not for 30000 packets a second and 10 s: the run of 300002 steady sends gives a record up |
| LabelMap.KeyAtPosition | metrics/multilabelmap.go:160-167 | a key is in the map iff it is at the position of its label |
| LabelMap.IndexNeedsInjective | metrics/multilabelmap.go:141-173 | only keys with different labels can be indexed together |
| LabelMap.InsertIndex | metrics/multilabelmap.go:163-172 | inserting at the searched position keeps the index strictly sorted and equal to the map |
| LabelMap.ReplaceIndex | metrics/multilabelmap.go:165-166 | so does replacing a value |
| LabelMap.RemoveIndex | metrics/multilabelmap.go:269-272 | so does removing an entry |
| LabelMap.MultiLabelMap.constructor | metrics/multilabelmap.go:25-33 | the zero value has an empty index |
| LabelMap.MultiLabelMap.Search | metrics/multilabelmap.go:160-162 | the binary search returns the first label that is not less |
| LabelMap.MultiLabelMap.Insert | metrics/multilabelmap.go:169-172 | the overlapping shift moves every entry up intact |
| LabelMap.MultiLabelMap.AddKey | metrics/multilabelmap.go:155-173 | the index becomes that of the map with the key set |
| LabelMap.MultiLabelMap.Set | metrics/multilabelmap.go:208-213 | the map is updated and the index still mirrors it |
| LabelMap.MultiLabelMap.GetOrFill | metrics/multilabelmap.go:187-202 | an existing value is returned, a missing one created once |
| LabelMap.MultiLabelMap.Delete | metrics/multilabelmap.go:259-273 | the key leaves map and index |
| LabelMap.MultiLabelMap.CloseGap | metrics/multilabelmap.go:270 | entries after the gap move down intact |
| LabelMap.MultiLabelMap.Init | metrics/multilabelmap.go:141-150 | map and index become empty |

## Left out

- Sockets, TLS, deadlines and the write watchdog of the DERP client: a write succeeds or is cut short at any byte.
- The DERP handshake (server key, client info), `WatchConnectionChanges` and `ClosePeer`: they only add frames of the kinds already modelled.
- The contents of NaCl boxes, JSON and DNS messages: values handed to the model.
- Spurious condition-variable wakeups beyond those the protocol allows: the wait loop re-tests, so they change nothing.
- Warning texts, ETags, control-plane health messages and `updateBuiltinWarnablesLocked`: one branch per message.
- Delays of visibility timers in seconds: a timer may fire at any time after it is armed, and stopping it may come too late.
- Domain names outside ASCII in the app connector: lowering letters is modelled for ASCII.
- Routes `LocalBackend.AdvertiseRoute` skips as not allowed: the routes given are allowed.
- Route metrics and the write-rate loggers of the app connector.
- IPv6 zones in advertised routes: addresses of routes have none.
- Text parsing of `/proc/net` rows and process-name lookup: rows and names are parameters.
- SortPorts: inserts one port at a time; `DedupOfSorted` speaks of every order `sort.Slice` may leave.
- StoreRoutes: publishes values; that the lists share arrays with the connector is the subject of `AddrList`, and the race between the two goroutines is not modelled.
- ParseDatagram: walks the remaining bytes of the datagram where the code advances an offset into it.
- AppendMarshal: padding of a ping is not negative, as the code's own callers have it.
- TryReadLine: calls are atomic here, where the code's byte counters may be read between two updates of one call.
- UploadLogs: compression is left out; bounds are on uncompressed batches, as in the code; encodings are assumed not to end in a comma, which JSON values do not.
- RecordSend: sequence numbers do not wrap around at 64 bits; the capacity is rounded up exactly, where the code goes through a float.
- MultiLabelMap: label strings are assumed injective; `IndexNeedsInjective` shows this is necessary.
- `Prefs`, `serve` and client-update code, generated views and clones: only easy members.
