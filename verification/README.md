# REDesk: a verified model of the servers, the session manager and the stream cores

This project models the parts of REDesk that hold state and make decisions, and proves what holds of them over
whole runs.

- **Rendezvous server** (`Protocol`, `Net`, `RegistryStore`, `ServerLoop`, `Rendezvous`, `RendezvousRuns`,
  `RendezvousWire`): the frame codec, the ID registry with its squat guard, the message handlers, the broker sessions
  and the sweeping loop.
- **Relay** (`AllocationTable`, `Relay`, `RelayRuns`, `RelayWire`): two-leg address learning per token, the datagram
  parser and the forward loop.
- **Session manager** (`Session`, `SessionRuns`, `SessionAudit`, `SessionLogs`): lifecycle, capability gate, grants,
  trust-on-first-use pins, audit log and state callbacks.
- **Stream and arithmetic cores**: the incremental frame reassembler of the UI client (`ServiceClient`), the AIMD
  bitrate controller (`CongestionController`), the stub Noise session (`LittleEndian`, `NoiseSession`, `NoiseRuns`) and
  the stub video codec (`StubCodec`).

## How it is built

Each stateful object of the source is a class whose methods follow the source's statements and loops. Every method is
proved against a specification function on plain values (`Step`, `Parse`, `Encode`, ...), and a `Serve` method (one loop
pass or call after another, for any finite number; `ReadAll` for the client's stream) ties a driven object to the
function `Run` (`Feed` for the client). The lemmas about `Run` are therefore about every reachable state of the object.
Inductive proofs `hide` the function bodies they do not need, so that verification stays quick whatever the solver's
random seed.

The whole-run lemmas do not repeat `Run`. They state each state component as a function of the *history* alone: the
last accepted REGISTER, the datagrams seen under a token since its allocation was created, the successful authorize
calls of a session, the arrivals since the last filter reset. History functions read the sequence of messages, calls or
operations and the clock, and never the modelled state. Whether a REGISTER was accepted or a KEEPALIVE found its ID is
itself read off the history (`RegisterAt`, `KeepaliveAt`), and `RegisterAcceptedIff` and `KeepaliveNeverRejected` say
that the server decides the same way.

What each operation means is stated a second time without the model's own functions: on bytes and offsets, seconds,
single capability bits and the original's numbers (`LookupOnWire`, `RoutedOnWire`, `GrantEquation`, `AnswersFollowCalls`,
`LogsFollowCalls`, `FeedbackLaw`, `EncryptedBytes`, `DecodeOnBytes`, `ParseOnBytes` and their neighbours). The history
functions use those numbers too, not the constants of the modelled code.

Received datagrams and the clock are inputs. One pass of a server loop reads the clock twice, once in the handler and
once before the sweep, and the model keeps both readings. `Chronological` (a positive clock that never runs backwards) is
assumed only where a lemma says so.

Integers are exact where width matters: relay byte counters, nonces, bitrates, packet lengths and the loss sum are
written with their wrap-around. A capability mask is the set of its one bits, positions 0 to 31, so that `&`, `|` and
`& ~` are intersection, union and difference. Exclusive or is defined bit by bit on numbers. The floating-point
comparisons of the bitrate controller are integer comparisons; `LossThresholds` and `DecreaseTruncates` tie those to the
real thresholds 0.10, 0.02 and 0.85. When the 32-bit loss sum wraps to zero the original divides by zero and gets
infinity, which the integer form treats alike: high loss.

## Where the code and its comments disagree

The model follows the code.

- `registry_store.h:49` says a lookup gives nothing for an expired ID; the code never looks at age
  (`LookupIgnoresAge`). What a lookup does see is settled by the sweeps (`LookupAnswer`): it finds an ID exactly when
  the last sweep came at most 60 s after the ID's last touch, so the documentation is wrong exactly for IDs that expired
  since the last sweep (`LookupKeepsPromiseIff`).
- `registry_store.h:44-46` says a key change is accepted once the prior binding has expired, which is after 60 s; the
  guard refuses it for 90 s while the record is still stored. The two differ exactly for bound IDs touched more than
  60 s and less than 90 s ago (`GuardKeepsPromiseIff`).
- `session.h:66-72` describes Closed as ended and Denied as refused; `authorize` revives either, with every capability
  the session ever held (`ReauthorizingRevives`), and nothing else does (`EndedStaysShutIff`). Lowering the ceiling
  revokes nothing (`GrantEquation`).
- `session.cpp:157` says the handshake's fingerprint is recorded on the session; only a local copy gets it
  (`ManagerAgreesWithCalls`: the stored peer is the one the session was begun with).
- The crypto stub says its stream makes round trips reversible; each side orders the key as local then remote, so
  between two peers that holds exactly when the two keys agree as far as the text reaches (`CrossPeerDecryption`, `HonestPeersExchange`).
- `crypto_stub.cpp:194` promises strictly increasing nonces; the counter wraps at nonce 2^64 - 1
  (`RunningMaximumIff`, `MaxNonceReplays`, `SmallNonceAfterReset`).
- The relay refreshes an allocation's activity for a third party it then rejects, and counts bytes it does not forward
  (`TableRefinesHistory`, `CountersAreConserved`).

## Model

| member | source | states |
|---|---|---|
| Protocol.EncodeFrame | server/rendezvous/protocol.cpp:43-60 | the bytes pushed are the frame's layout, id cut to 255 and body to 65535 bytes |
| Protocol.DecodeFrame | server/rendezvous/protocol.cpp:14-41 | the cursor algorithm decodes as specified on every input, with all reads in bounds |
| Protocol.EncodedBytes | server/rendezvous/protocol.cpp:43-60 | the encoding byte by byte: type number, ID length, at most 255 bytes of ID, big-endian body length, at most 65535 bytes of body |
| Protocol.DecodeEncode | server/rendezvous/protocol.cpp:14-60 | decoding an encoded frame of a known type, with anything behind it, gives the frame cut to the wire limits |
| Protocol.DecodedIsPrefix | server/rendezvous/protocol.cpp:14-60 | whatever decodes to a known type begins with the encoding of the result |
| Protocol.DecodeCharacterised | server/rendezvous/protocol.cpp:14-41 | exactly which inputs decode to a known frame, to the empty frame, or fail |
| Protocol.PrefixFree | server/rendezvous/protocol.cpp:43-60 | no encoding is a proper prefix of another; a prefix has the same frame |
| Net.DecimalInjective | server/common/net.h:36-39 | decimal printing of ports is injective |
| Net.DecimalDenotes | server/common/net.h:36-39 | the printed number is the shortest string of decimal digits that denotes it |
| Net.DisplayInjective | server/common/net.h:36-42 | numeric endpoints print differently when they differ |
| Net.PrintedForm | server/common/net.h:36-39 | host:port, [host]:port for IPv6, and caller|callee for a pair |
| Net.PairKeyInjective | server/rendezvous/main.cpp:158 | the caller-callee key determines both endpoints, in order |
| Net.DisplayCollidesOnOtherHosts | server/common/net.h:36-39 | two endpoint values that print alike; neither host can come from the socket layer, which prints addresses numerically, so this only justifies the numeric hypothesis of the lemmas above |
| RegistryStore.InMemoryRegistry.Upsert | server/rendezvous/registry_store.cpp:17-41 | the new map and the status: malformed records and live key changes refused, everything else stored |
| RegistryStore.RegistryLaw | server/rendezvous/registry_store.cpp:17-62 | the registry's rules in bytes and seconds: 32-byte keys, the 90 s guard, what a sweep keeps |
| RegistryStore.InMemoryRegistry.Lookup | server/rendezvous/registry_store.cpp:43-48 | the stored record, whatever its age |
| RegistryStore.InMemoryRegistry.Expire | server/rendezvous/registry_store.cpp:50-62 | the erasing loop removes exactly the stale records and counts them |
| ServerLoop.SweepIsRecent | server/rendezvous/main.cpp:249-260 | at the end of every pass the last sweep is less than a period old |
| Rendezvous.EncodeAttestation | server/rendezvous/main.cpp:62-74 | three length-prefixed fields, each cut at 255 bytes |
| Rendezvous.AttestationInjective | server/rendezvous/main.cpp:60-74 | the body determines key, signature and verify key |
| Rendezvous.RendezvousServer.HandleRegister | server/rendezvous/main.cpp:91-124 | the registry afterwards and the reply sent |
| Rendezvous.RendezvousServer.HandleKeepalive | server/rendezvous/main.cpp:226-234 | a known ID gets the observed source and time, an unknown one is ignored |
| Rendezvous.RendezvousServer.HandleLookup | server/rendezvous/main.cpp:126-144 | the reply sent, to the asking endpoint |
| Rendezvous.RendezvousServer.HandleBroker | server/rendezvous/main.cpp:146-173 | the sessions afterwards and the datagram sent |
| Rendezvous.RendezvousServer.DropOldSessions | server/rendezvous/main.cpp:254-258 | the erasing loop keeps exactly the sessions at most 60 s old |
| Rendezvous.RendezvousServer.Pass | server/rendezvous/main.cpp:215-261 | one pass of the loop moves the whole state by Step and sends exactly the specified replies |
| Rendezvous.RendezvousServer.Serve | server/rendezvous/main.cpp:208-261 | any number of passes from start-up ends in Run and sends the transcript |
| RendezvousRuns.KeepaliveNeverRejected | server/rendezvous/main.cpp:226-234 | in every reachable state a KEEPALIVE for a bound ID is stored with its new endpoint and time, and one for an unbound ID changes nothing |
| RendezvousRuns.BoundMeaning | server/rendezvous/registry_store.cpp:50-62 | an ID is bound iff some accepted REGISTER of it was spared by every sweep since |
| RendezvousRuns.RegistryAgreesWithRun | server/rendezvous/registry_store.cpp:17-62 | after any run an ID is present iff registered and spared by every sweep since; its key, endpoint and time are those of its last accepted messages |
| RendezvousRuns.BoundIffTouchedForSweep | server/rendezvous/main.cpp:249-253 | in a chronological run an ID is bound iff the last sweep came at most 60 s after its last touch |
| RendezvousRuns.RegisterAcceptedIff | server/rendezvous/registry_store.cpp:17-41 | the server accepts a REGISTER iff the history says so: it is well formed, and its ID is unbound, or the key is the registered one, or the last touch is at least 90 s back |
| RendezvousRuns.TouchedOrForgotten | server/rendezvous/registry_store.cpp:50-62 | an accepted touch bounds the record's age from above, or lies more than 60 s back |
| RendezvousRuns.KeyStability | server/rendezvous/registry_store.cpp:26-39 | in a chronological run a key changes only when more than 60 s passed since every earlier accepted REGISTER or KEEPALIVE of that ID |
| RendezvousRuns.RegisterAnswer | server/rendezvous/main.cpp:91-124 | REGISTER_OK goes to the source exactly when the REGISTER is accepted, attesting its own key |
| RendezvousRuns.LookupAnswer | server/rendezvous/main.cpp:126-144 | LOOKUP_OK with the last accepted REGISTER's key iff the target is bound, LOOKUP_FAIL otherwise |
| RendezvousRuns.LookupOkCarriesRegisteredKey | server/rendezvous/main.cpp:60-74 | any attestation the received LOOKUP_OK parses as carries the key of the target's last accepted REGISTER |
| RendezvousRuns.BrokerForwardsToLastSeenEndpoint | server/rendezvous/main.cpp:146-173 | the blob goes verbatim to the source of the target's last accepted REGISTER or KEEPALIVE |
| RendezvousRuns.StalenessBound | server/rendezvous/main.cpp:249-260 | no record or broker session is older than 74 s at the end of any pass |
| RendezvousRuns.StalenessBoundIsTight | server/rendezvous/main.cpp:39-40 | a run in which a record reaches 74 s |
| RendezvousRuns.LookupIgnoresAge | server/rendezvous/registry_store.cpp:43-48 | a LOOKUP is answered from the registry however late it arrives |
| RendezvousRuns.LookupKeepsPromiseIff | server/rendezvous/registry_store.h:49 | a LOOKUP succeeds iff the last sweep came at most 60 s after the target's last touch; that no expired ID is found fails exactly for targets that expired since the last sweep |
| RendezvousRuns.GuardKeepsPromiseIff | server/rendezvous/registry_store.cpp:26-36 | a key change is refused iff its ID is bound and was touched less than 90 s ago; that it is refused exactly while the prior binding is unexpired fails exactly for bound IDs touched more than 60 s and less than 90 s ago |
| RendezvousRuns.SessionsRegenerateTheirKeys | server/rendezvous/main.cpp:158-165 | each stored session's own endpoints print to its key |
| RendezvousRuns.BrokerSessionsNeverMix | server/rendezvous/main.cpp:158-165 | with numeric sources the session found or made belongs to exactly the caller and the target's endpoint, and no other session changes |
| RendezvousRuns.DistinctSessionsDistinctPairs | server/rendezvous/main.cpp:158-165 | distinct sessions of a reachable state belong to distinct endpoint pairs |
| RendezvousRuns.SessionsAgreeWithRun | server/rendezvous/main.cpp:158-165 | a session is stored iff some pass opened it and it was spared since, and it is what that pass stored, all read off the messages |
| RendezvousRuns.OpenerMeaning | server/rendezvous/main.cpp:158-165 | the opener is the one pass that opened the session and that every sweep since found at most 60 s back |
| RendezvousWire.RequestIff | server/rendezvous/protocol.cpp:14-41 | the server acts on a datagram iff it starts with the encoding of a frame within the wire limits, and then on that frame |
| RendezvousWire.OthersAreIgnored | server/rendezvous/main.cpp:215-247 | any other datagram, and frame types only a server sends, change nothing and get no answer |
| RendezvousWire.LookupOnWire | server/rendezvous/main.cpp:126-144 | bytes to bytes: one datagram back about the ID in the id field, or the body when that is empty; LOOKUP_OK attesting its last registered key iff bound |
| RendezvousWire.RegisterOnWire | server/rendezvous/main.cpp:91-124 | bytes to bytes: which REGISTER is stored with its first 32 body bytes, source and time and answered by an attestation of that key; any other stores and sends nothing |
| RendezvousWire.KeepaliveOnWire | server/rendezvous/main.cpp:226-234 | a bound ID keeps its key and takes source and time, an unbound one changes nothing; no answer |
| RendezvousWire.BrokerOnWire | server/rendezvous/main.cpp:146-173 | bytes to bytes: the blob goes to the last touch's source and a session under the printed pair is found or made; else LOOKUP_FAIL |
| RendezvousWire.SweepOnClock | server/rendezvous/main.cpp:249-260 | 15 s after the last sweep exactly the records seen and sessions created at most 60 s ago survive, unchanged |
| AllocationTable.InMemoryAllocationTable.Allocate | server/relay/allocation_table.cpp:18-30 | idempotent creation; the empty token is refused |
| AllocationTable.InMemoryAllocationTable.Route | server/relay/allocation_table.cpp:32-77 | the entry afterwards and the destination, for both legs, a free leg and a third party |
| AllocationTable.InMemoryAllocationTable.Expire | server/relay/allocation_table.cpp:79-91 | the erasing loop removes exactly the idle allocations and counts them |
| AllocationTable.RouteLaw | server/relay/allocation_table.cpp:32-77 | both legs, both counters, the stamp and the answer, case by case |
| AllocationTable.AllocationLaw | server/relay/allocation_table.cpp:18-91 | a blank entry is made once; a sweep keeps what was active no more than the ttl ago |
| Relay.ParseIffWrapped | server/relay/main.cpp:54-63 | parsing and re-wrapping are inverse, in both directions |
| Relay.ParseDatagram | server/relay/main.cpp:54-63 | the out-parameters are the parse, or malformed input is refused |
| Relay.RelayServer.Pass | server/relay/main.cpp:88-136 | one pass moves the whole state by Step and forwards the received bytes unchanged |
| Relay.RelayServer.Serve | server/relay/main.cpp:81-136 | any number of passes from start-up ends in Run and sends the transcript |
| RelayRuns.SecondMeaning | server/relay/allocation_table.cpp:45-64 | the second source is the first one to differ from the first |
| RelayRuns.TableRefinesHistory | server/relay/allocation_table.cpp:18-91 | an allocation exists iff its token has a current lifetime, and both legs, both counters and both stamps are what the lifetime's datagrams say |
| RelayRuns.RoutingRefinesHistory | server/relay/main.cpp:95-117 | what a pass forwards and to whom, from the history alone; nothing for third sources |
| RelayRuns.PairingIsMutualAndStable | server/relay/allocation_table.cpp:45-64 | the two sources are each other's peer and stay so under any further datagrams of the lifetime |
| RelayRuns.LifetimeGrows | server/relay/allocation_table.cpp:18-91 | while no sweep removes an allocation, its history only grows |
| RelayRuns.BindingsLastUntilExpiry | server/relay/allocation_table.cpp:45-64 | in every run, until a sweep removes the allocation: learned addresses never change, and once both are known route answers every source the same |
| RelayRuns.DeliveryIsPaired | server/relay/main.cpp:97-113 | a forwarded datagram is byte for byte the received one, goes to another endpoint that sent in this lifetime, and replies come back |
| RelayRuns.BytesAreConserved | server/relay/allocation_table.cpp:71-76 | bytes sent by the two legs are bytes forwarded plus bytes held back |
| RelayRuns.CountersAreConserved | server/relay/allocation_table.cpp:71-76 | the stored counters account for them modulo 2^64 in every reachable state |
| RelayRuns.TranscriptIsForwarded | server/relay/main.cpp:97-117 | the payload bytes handed to the socket under a token are those the history forwards |
| RelayRuns.LegsAreAccountedFor | server/relay/allocation_table.cpp:66-77 | the payload the two legs sent in a lifetime is what the relay has sent under the token since the lifetime began, plus what it held back |
| RelayRuns.IdlenessBound | server/relay/main.cpp:129-135 | no allocation is idle for more than 39 s at the end of any pass |
| RelayRuns.IdlenessBoundIsTight | server/relay/main.cpp:43-44 | a run in which an allocation reaches 39 s |
| RelayWire.WrappedBytes | server/relay/main.cpp:54-63 | the relayed datagram byte by byte |
| RelayWire.MalformedOnWire | server/relay/main.cpp:54-63 | bytes without a whole non-empty token are not forwarded and change nothing |
| RelayWire.RoutedOnWire | server/relay/main.cpp:95-117 | bytes to bytes, over any run: a datagram goes out unchanged to an endpoint iff source and endpoint are the first two sources of the token since creation |
| RelayWire.BytesFromAdds | server/relay/allocation_table.cpp:71-76 | a source's bytes are summed visit by visit |
| RelayWire.AllocatedIffSeen | server/relay/main.cpp:129-135 | an allocation exists iff the last sweep came at most 30 s after the last datagram under its token |
| Session.SessionManager.Begin | core/session/session.cpp:123-136 | whole new state and result; a deny-listed peer gets no session |
| Session.SessionManager.HandshakeStarts | core/session/session.cpp:138-147 | whole new state and status |
| Session.SessionManager.HandshakeCompletes | core/session/session.cpp:149-185 | whole new state and status: deny-list re-check, pin, alert |
| Session.SessionManager.AuthorizeSession | core/session/session.cpp:187-225 | whole new state and status: clamped grant, or refusal |
| Session.SessionManager.DenySession | core/session/session.cpp:227-236 | whole new state and status |
| Session.SessionManager.Check | core/session/session.cpp:238-252 | the gate's answer, and an audit record for a refusal on a known session only |
| Session.SessionManager.Close | core/session/session.cpp:254-263 | whole new state and status |
| Session.SessionManager.IsBeingControlled | core/session/session.cpp:265-273 | true iff some session passes the gate for Control |
| Session.SessionManager.SetCeiling | core/session/session.cpp:291-293 | only the ceiling changes |
| Session.SessionManager.Allow | core/session/session.cpp:294-297 | onto the allow list and off the deny list |
| Session.SessionManager.Block | core/session/session.cpp:298-301 | onto the deny list and off the allow list |
| Session.ServeAll | core/session/session.cpp:120-301 | any sequence of calls on a new manager ends in Run and returns its answers |
| SessionRuns.ManagerAgreesWithCalls | core/session/session.cpp:123-301 | after any calls ids are exactly 1 to next_id - 1, the lists are disjoint, and every session's peer, state and grant are what its calls add up to |
| SessionRuns.GateEqualsHistory | core/session/session.cpp:238-252 | checkPermission is true iff the session exists, its last state-changing call was a successful authorize, and every needed bit is among its accumulated grants |
| SessionRuns.ControlledIffSomeSessionIs | core/session/session.cpp:265-273 | someone is being controlled iff the history permits Control to some session |
| SessionRuns.CallsDoNotInterfere | core/session/session.cpp:138-263 | a call about one session leaves every other as it was |
| SessionRuns.AllowedStaysUnderCeilings | core/session/session.cpp:195-201 | what was ever allowed lies within the ceilings ever in force |
| SessionRuns.GrantEquation | core/session/session.cpp:187-225 | a session holds bit b iff some earlier authorize of it requested a bit that is 0 or in the ceiling in force, and b is 0 or was itself requested and in that ceiling; so nothing beyond ViewOnly and the ceilings ever in force |
| SessionRuns.ReauthorizingRevives | core/session/session.h:124 | a later successful authorize reopens the gate for everything ever granted |
| SessionRuns.OnlyAuthorizingRevives | core/session/session.cpp:138-263 | a session that is not active stays so, through any calls, iff none of them authorizes it |
| SessionRuns.EndedStaysShutIff | core/session/session.cpp:187-263 | from Closed or Denied on, checkPermission refuses every request in every later state iff no authorize of the session succeeds |
| SessionLogs.AnswersFollowCalls | core/session/session.cpp:123-301 | what every call of every run returns, id, gate answer or error code, read off the calls before it |
| SessionLogs.LogsFollowCalls | core/session/session.cpp:97-263 | the whole audit log and the whole callback stream, record by record, in order and as they interleave, read off the calls |
| SessionAudit.PinsAreFirstCompletions | core/session/session.cpp:173-182 | a pin is the fingerprint of the routing ID's first non-denied completion |
| SessionAudit.PinsAreWriteOnce | core/session/session.cpp:173-182 | no run changes or removes a pin |
| SessionAudit.AlertsAreExact | core/session/session.cpp:173-182 | the KeyChangeDetected records are, in order across all routing IDs, exactly the non-denied completions with a fingerprint other than their ID's first, each naming that first one |
| SessionAudit.AlertsOfOneId | core/session/session.cpp:173-182 | for one routing ID these are its completions' fingerprints that differ from the first |
| SessionAudit.ObserversRebuildStates | core/session/session.cpp:112-117 | replaying the state callbacks over Pending gives every session's state |
| SessionAudit.LogsOnlyGrow | core/session/session.cpp:97-110 | audit log and callback stream are append-only |
| SessionAudit.AuditCountsAreExact | core/session/session.cpp:187-252 | granted, succeeded and activated records each count the successful authorizes; check-denied records count the refused checks on known sessions |
| SessionAudit.ActivationsAreRecordedWhole | core/session/session.cpp:217-223 | every CapabilityGranted record is followed at once by AuthSucceeded and SessionActivated of the same peer |
| ServiceClient.ServiceClient.DrainFrames | ui/src/ServiceClient.cpp:106-144 | the loop emits the parse of the buffer and leaves its residue; a bad length empties it and disconnects |
| ServiceClient.ServiceClient.OnReadyRead | ui/src/ServiceClient.cpp:101-104 | emitted frames and buffer always are the parse of all bytes read on this connection, residue under 4 + 2^20 bytes |
| ServiceClient.ServiceClient.ReadAll | ui/src/ServiceClient.cpp:101-144 | any list of chunks read one after another emits and leaves what Feed says |
| ServiceClient.ServiceClient.ConnectToService | ui/src/ServiceClient.cpp:41-53 | a new connection starts from an empty buffer; a live one is left alone |
| ServiceClient.ServiceClient.OnConnected | ui/src/ServiceClient.cpp:61-79 | Ready only with a token |
| ServiceClient.ServiceClient.SendCommand | ui/src/ServiceClient.cpp:92-99 | true iff Ready, not oversized, and the socket took every byte |
| ServiceClient.ParseResumes | ui/src/ServiceClient.cpp:106-144 | parsing a longer stream resumes from the residue, unless it had stopped |
| ServiceClient.ParseOnBytes | ui/src/ServiceClient.cpp:107-143 | the parse on bytes: big-endian length between 2 and 2^20, big-endian opcode, payload, and on behind it |
| ServiceClient.ChunkingIndependence | ui/src/ServiceClient.cpp:101-144 | however a stream is cut, feeding the pieces gives the one-shot parse of the whole |
| ServiceClient.ParseAccountsForStream | ui/src/ServiceClient.cpp:113-143 | delivered frames plus residue are the stream; after a stop a bad length follows; every frame took at least six bytes |
| ServiceClient.ParseOfLayouts | ui/src/ServiceClient.cpp:107-109 | a list of frames in the documented layout parses back to itself |
| ServiceClient.FramesSurviveChunking | ui/src/ServiceClient.cpp:101-144 | such a list, cut anywhere, is recovered exactly |
| CongestionController.StubCongestionController.OnFeedbackReport | core/transport/transport_stub.cpp:124-139 | the new target, by overuse, low loss or neither |
| CongestionController.StubCongestionController.SetBitrateBounds | core/transport/transport_stub.cpp:143-147 | new bounds and clamped target |
| CongestionController.StubCongestionController.Serve | core/transport/transport_stub.cpp:122-158 | any sequence of calls ends in Run with the target in range |
| CongestionController.FeedbackLaw | core/transport/transport_stub.cpp:124-139 | above 30000 us of delay or 10% loss the target falls to 85%, else below 2% loss it rises by 500 in 32 bits, else it stays; nearest value between the bounds |
| CongestionController.BoundsLaw | core/transport/transport_stub.cpp:143-158 | a maximum below the minimum is raised to it, the target goes to the nearest value between; start values |
| CongestionController.RunFollowsLaws | core/transport/transport_stub.cpp:122-147 | every step of every run obeys the two laws |
| CongestionController.LossThresholds | core/transport/transport_stub.cpp:127-135 | for every report, wrapped denominators included, the integer comparisons are the thresholds 0.10 and 0.02 on the loss ratio, which is infinite when packets were lost and the sum wraps to zero |
| CongestionController.DecreaseTruncates | core/transport/transport_stub.cpp:134 | the integer decrease is the truncated product with 0.85 |
| CongestionController.TargetStaysInRange | core/transport/transport_stub.cpp:138-146 | min, target, max stay ordered in every run, wrap-around included |
| CongestionController.ControllersConverge | core/transport/transport_stub.cpp:124-147 | two controllers under the same calls keep their order, never widen their gap, and after k overuse reports it is at most max(6, gap - k), whenever the bounds let all targets wrap on the additive step or none |
| CongestionController.SixCanStay | core/transport/transport_stub.cpp:134 | a gap of six can survive a decrease |
| CongestionController.OrderIsKeptIff | core/transport/transport_stub.cpp:124-139 | under bounds min and max every report keeps the order of every two targets iff max is at most 2^32-501 or min exceeds it |
| CongestionController.StraddlingBreaksOrder | core/transport/transport_stub.cpp:136-138 | with min <= 2^32-501 < max one good report takes target 2^32-501 to max and its successor to min |
| CongestionController.GoodReportRaises | core/transport/transport_stub.cpp:135-138 | a good report adds 500 up to the maximum iff the sum fits 32 bits or the bounds coincide |
| CongestionController.GoodReportsReachMax | core/transport/transport_stub.cpp:135-138 | for all bounds: fewer than N = ceil((max - target) / 500) good reports stay below the maximum, having added 500 each; N of them reach it iff N is zero, min equals max, or target + 500 N fits 32 bits; further ones stay there when max is at most 2^32-501 |
| CongestionController.OveruseDecaysGeometrically | core/transport/transport_stub.cpp:133-138 | k overuse reports leave at most max(min, max * (17/20)^k) |
| NoiseSession.StubNoiseSession.WriteMessage | core/crypto/crypto_stub.cpp:101-114 | state and message |
| NoiseSession.StubNoiseSession.ReadMessage | core/crypto/crypto_stub.cpp:116-135 | the peer's key is learned from the first 32 bytes; short or late messages are refused |
| NoiseSession.StubNoiseSession.EncryptMessage | core/crypto/crypto_stub.cpp:155-177 | nonce, then the combined text; the send counter advances modulo 2^64 |
| NoiseSession.StubNoiseSession.DecryptMessage | core/crypto/crypto_stub.cpp:179-205 | refusals, and the text with the receive counter one past the nonce modulo 2^64 |
| NoiseSession.StubNoiseSession.XorStream | core/crypto/crypto_stub.cpp:223-235 | the byte loop appends the combined text |
| NoiseSession.StubNoiseSession.PushNonce | core/crypto/crypto_stub.cpp:169-174 | the loop writes the nonce low byte first |
| NoiseSession.StubNoiseSession.TakeNonce | core/crypto/crypto_stub.cpp:190-193 | the loop reads the little-endian nonce |
| NoiseSession.StubNoiseSession.Serve | core/crypto/crypto_stub.cpp:101-205 | any sequence of operations ends in Run and returns their outcomes |
| NoiseSession.NonceRoundTrip | core/crypto/crypto_stub.cpp:169-193 | the eight-byte nonce encoding round-trips |
| NoiseSession.StreamIsInvolution | core/crypto/crypto_stub.cpp:223-235 | under one session's key the stream undoes itself, for every nonce and length |
| NoiseSession.XorIsBitwise | core/crypto/crypto_stub.cpp:231-233 | a bit of the combination of two bytes is one exactly when the two bytes differ in that bit |
| NoiseRuns.CompletionIffWroteAndRead | core/crypto/crypto_stub.cpp:101-135 | a session is complete iff it wrote one message and read one of at least 32 bytes, in either pattern |
| NoiseRuns.KeysFreezeOnCompletion | core/crypto/crypto_stub.cpp:101-135 | after completion the keys never change |
| NoiseRuns.SessionHoldsHistory | core/crypto/crypto_stub.cpp:101-205 | after any run the keys, the completion and both nonce counters are functions of the operations |
| NoiseRuns.ReplayFilterExact | core/crypto/crypto_stub.cpp:179-205 | what a decrypt returns at any point of any run of writes, reads, encrypts and decrypts: the text under the learned key iff the handshake is complete, a nonce is there and it exceeds every nonce since the last arrival of 2^64 - 1 |
| NoiseRuns.RunningMaximumIff | core/crypto/crypto_stub.cpp:194-199 | on a whole run the filter is the running maximum iff nonce 2^64 - 1 is never followed by another arrival |
| NoiseRuns.DuplicatesAreRejected | core/crypto/crypto_stub.cpp:194-199 | a duplicate is rejected unless a reset came in between, whatever else the session did |
| NoiseRuns.MaxNonceReplays | core/crypto/crypto_stub.cpp:199 | nonce 2^64 - 1 is accepted every time it arrives |
| NoiseRuns.ResetIsForgetful | core/crypto/crypto_stub.cpp:194-199 | right after it any nonce is accepted, however often it was seen |
| NoiseRuns.SmallNonceAfterReset | core/crypto/crypto_stub.cpp:194-199 | for every session a concrete run: nonce 2^64 - 1 and then nonce 0 are both accepted, so the filter is not the running maximum |
| NoiseRuns.SenderNumbersMessages | core/crypto/crypto_stub.cpp:155-177 | what an encrypt returns at any point of any run: the text under the learned key, numbered modulo 2^64 by the messages sent before it |
| NoiseRuns.EncryptedBytes | core/crypto/crypto_stub.cpp:155-235 | an encrypt at any point of any run, byte for byte: number in eight little-endian bytes, then each text byte combined with the key byte in turn and with the low byte of number plus position |
| NoiseRuns.DecryptedBytes | core/crypto/crypto_stub.cpp:179-235 | a decrypt at any point of any run: which error, or each byte combined the same way |
| NoiseRuns.HandshakeBytes | core/crypto/crypto_stub.cpp:101-135 | what writes and reads return at any point of any run |
| NoiseRuns.InOrderSelectionAccepted | core/crypto/crypto_stub.cpp:194-199 | when all arrivals of one run are messages of another run in sending order, every one is accepted |
| NoiseRuns.HonestHandshakeCompletes | core/crypto/crypto_stub.cpp:101-135 | after the two messages both sides are complete and hold each other's key |
| NoiseRuns.CrossPeerDecryption | core/crypto/crypto_stub.cpp:155-235 | the peer obtains the plaintext combined with both public keys, which is the plaintext iff they agree on its first min(length, 32) bytes |
| NoiseRuns.HonestPeersExchange | core/crypto/crypto_stub.cpp:101-235 | after an honest handshake, whatever both sides do next and in both directions: a message is accepted iff its number exceeds what the receiver remembers, and reads as the plaintext iff the public keys agree as far as it reaches |
| StubCodec.HeaderReadsBack | core/codec/codec_stub.cpp:80-138 | every header field of a packet reads back |
| StubCodec.PacketBytes | core/codec/codec_stub.cpp:80-138 | a packet byte for byte: magic number, fields at their offsets, pixels |
| StubCodec.DecodeEncoded | core/codec/codec_stub.cpp:125-204 | decoding an encoded frame gives size, format, timestamp and the pixels cut to their length modulo 2^32 |
| StubCodec.DecodeOnBytes | core/codec/codec_stub.cpp:179-204 | for any bytes, which are refused and what frame the others give |
| StubCodec.PixelsSurviveIff | core/codec/codec_stub.cpp:133 | the frame comes back iff it has fewer than 2^32 pixel bytes |
| StubCodec.StubEncoder.EncodeFrame | core/codec/codec_stub.cpp:113-146 | the packet or the refusal, and the flags afterwards |
| StubCodec.StubEncoder.Serve | core/codec/codec_stub.cpp:109-163 | any sequence of operations ends in Run and emits its packets |
| StubCodec.StubDecoder.Decode | core/codec/codec_stub.cpp:179-206 | short, foreign and truncated packets are refused; others give the decoded frame |
| StubCodec.KeyframesAnswerRequests | core/codec/codec_stub.cpp:113-155 | which encodes emit and how the others fail, and that a packet is a keyframe iff it is the first or a request came since the previous one |
| StubCodec.PacketsFollowOps | core/codec/codec_stub.cpp:113-155 | the whole packet stream of every run, read off the operations |

## Left out

- Sockets, Winsock and POSIX calls, the TCP listener and process start-up: input and output only; received datagrams and clock readings are parameters, and a failed send is only logged by the original.
- Mutexes: every table operation is one critical section, so it is one step here.
- The signer: a deterministic total function of ID and key; nothing is claimed about signatures, fingerprints or `handshakeHash`.
- The session manager's `static_key`, audit time stamps and detail text: the detail's content is kept as constructor arguments of the audit events; callbacks that call back into the manager are not modelled.
- Session ids and handshake message counts are unbounded here; the original's 64-bit and int counters would have to overflow to differ.
- Records, allocations and sessions are values inside their table's map, as in the original, and are replaced rather than updated through pointers; no aliasing between entries exists to model.
- Server loops run for any finite number of passes; the original never returns.
- Serve, ServeAll, Perform: drivers that stand for the callers of the modelled objects.
- Out-of-memory and container size limits, and QByteArray's int sizes, which a frame of at most 2^20 bytes cannot exceed.
- The UI client's socket: how many bytes a write takes is a parameter of `SendCommand`; a malformed frame drops the connection, and bytes that still arrive afterwards start a new stream, as the cleared buffer does in the original.
- The memory layout of the codec header is little-endian without padding, as on the supported platforms.
- Codec negotiation, encoder configuration, fragment counting, the loopback transport, the key store, capture, input, the platform backends, the service daemon and the user interface: small, plumbing, or not implemented in the original.
