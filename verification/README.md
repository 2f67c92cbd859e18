# A verified model of the SOVD server's stateful core

The system is a gateway between HTTP clients and vehicle ECUs. A client reads
and writes named data items, holds locks on entities and follows value streams;
the server turns that into UDS requests (ISO 14229-1:2013) in DoIP frames
(ISO 13400-2:2012) on a TCP stream. This project models the parts of it that
keep state, run against other threads or against time, or carry data through
several encodings, and proves what each of them is for.

Code that changes state is modelled as classes and methods over the same
fields, each proved equal to a specification function; the laws are lemmas
about those functions. Code whose threads interleave (the stream hub, the
session manager, the lock cap) is a transition system whose steps are the
stretches between two points where another thread can get in, and the laws
hold in every state of every run. Clocks, random octets, chunk sizes and the
answers of the ECU are parameters: nothing is assumed of them beyond what a
contract says.

| files | content |
|---|---|
| `Wrappers`, `Sets`, `Bytes`, `Numerals` | options and results, set sizes, octets and big-endian fields, decimal and hexadecimal text |
| `DoipProtocol`, `Sockets`, `DoipTransport` | DoIP framing; a socket that cuts the stream into any chunks; the transport on it |
| `UdsServices`, `ResponsePending`, `Ecu`, `UdsDoipAdapter` | UDS messages; the bounded 0x78 loop; an ECU called directly and over the wire; the adapter, proved to be the direct call |
| `Catalog`, `CatalogLaws`, `ReadYourWrite` | the typed value codec and its laws; a value put and got back through the whole stack |
| `StreamHub`, `StreamHubSafety`, `StreamHubDelivery` | the shared poller, its subscribers' handles and its thread; ownership, order, wind-down; every read is published and given to who waits |
| `SessionManager`, `SessionSafety`, `SessionCalls`, `SessionLiveness`, `SessionRace` | the heartbeat thread and its joins; what a call has done when it returns; the idle fallback, in time, and certain; a race of the revert |
| `LockManager`, `LockRefinement`, `LockCap`, `LockWorkers`, `LockRoutes`, `LockGuard` | the lock table; lazy against eager expiry; the cap under concurrency, and the one store behind it; the handlers; the client's renewing guard |
| `StreamTicket` | single-use tickets |
| `Sse`, `Mqtt` | event-stream framing, MQTT packets |
| `EntityRegistry` | the entity tree and the adapter contexts it owns |

## What the proofs found

Where the code and what is said about it part, the model follows the code, and
the exact condition is proved.

- The cap of 64 locks holds exactly with one worker. With n workers the bound
  is 63 + n, and a run that reaches it is constructed
  (`LockCap.CapUnderConcurrency`, `BoundIsReached`, `CapHoldsIffOneWorker`).
- A lock guard's renewals all succeed exactly when the lag of one reply and the
  lag of the next request add up to less than its interval leaves of the lock's
  lifetime - half the time to live, up to 3600 s - and then it excludes
  everybody else to its release. Round trips of under a quarter of the time to
  live are enough; under half of it are not: another client gets the lock. And
  with a time to live of two hours or more no guard survives its first renewal:
  the store clamps the lifetime to one hour, the guard waits half of what it
  asked for (`LockGuard.GuardNeverLapsesIff`, `GuardKeepsExclusion`,
  `QuarterTripsFit`, `HalfTripsMayLapse`, `LongTtlNeverFits`).
- An ECU that answers 0x78 more than ten times leaves its later answers in the
  stream, and the next request on that connection fails on them
  (`ResponsePending.StaleAnswersBreakTheNextExchange`).
- `revert_to_default` found in the default session leaves the security level as
  it is (`SessionSafety.RevertLeavesLevelZeroIff`) - unless a heartbeat still
  runs there, as it does after `ensure_session(1)` from another session; then a
  race with its idle timeout decides, and a run from the start leads into it
  (`SessionRace.RevertMayRace`, `RaceIsReachable`).
- `ensure_session` keeps the unlocked level when it changes the session. With an
  ECU that ties the level to the session, a write that demands both is then sent
  with the level locked, exactly if the session had to change and an earlier
  unlock was taken to be good enough (`UdsDoipAdapter.UdsDoipContext.Escalate`).
- The idle fallback needs a round of the heartbeat to take time. In the model,
  where a step may take none, an interval of 0 ms with sends of 0 ms lets the
  heartbeat spin for ever without the clock moving, and the fallback is reached
  only if the timeout is over already (`SessionLiveness.FallbackIsReachedIff`).
  With sends that take time it can be reached at interval 0, but nothing there
  bounds how often the heartbeat goes round before. Real steps take time, so
  that the source with interval 0 spins, but does fall back.
- With distinct raw numbers an enum label is read back as itself exactly when
  its raw number fits the one octet that is written, or the octet written
  instead happens to show the same text (`CatalogLaws.LabelSurvivesIff`); an
  empty raw value can be read but not written back (`RawBytesSurvive`); a float
  item with scale zero comes back only as zero (`FloatSurvivesIff`).
- Float items of seven or eight octets take in one number too many, because the
  limit they are checked against is rounded up; it is written as zeros
  (`CatalogLaws.LimitLetsOneThrough`). For eight octets the source converts
  2^64 to a 64-bit integer there, which C++ leaves undefined; the model wraps.
  And a raw number above 2^53 that a double cannot carry is lost on the way
  (`RoundedRawIsLost`).
- The idle fallback changes the tester's bookkeeping and sends nothing: it is
  true of the ECU exactly if that has gone back to its default session by itself
  (`UdsDoipAdapter.UdsDoipContext.FallBack`).
- Two different data items share a poller when a path or an id contains the
  separator of the key (`StreamHubSafety.KeysMayCollide`); nothing in the source
  rules that out.
- The header of the entity registry says a path without a slash is a root; the
  code also takes one whose only slash leads it, since its parent is empty
  (`EntityRegistry.RootIff`). The tree laws hold with the code's meaning.
- `append_mqtt_string` cuts a length to sixteen bits and `append_varint` has no
  limit of four octets: a broker recovers a packet exactly when neither matters
  (`Mqtt.PublishRoundTripIff`).

## Model

| member | source | states |
|---|---|---|
| DoipProtocol.AppendHeader | adapters/uds_doip/src/doip_protocol.cpp:16-24 | appends the eight header octets, version and inverse, type and length big-endian, and nothing else |
| DoipProtocol.HeaderOctets | adapters/uds_doip/src/doip_protocol.cpp:16-24 | the header octet by octet: 0x02, 0xFD, the code of the type, the length most significant octet first |
| DoipProtocol.HeaderRoundTrip | adapters/uds_doip/src/doip_protocol.cpp:26-47 | a header is recognised exactly when the stream begins with the octets it is written as |
| DoipProtocol.EncodeDiagnosticMessage | adapters/uds_doip/src/doip_protocol.cpp:69-80 | the octets sent are those of the diagnostic frame with both addresses and the request |
| DoipProtocol.AddressedOctets | adapters/uds_doip/src/doip_protocol.cpp:69-88 | the first two payload octets are the source address, high before low, the next two the target, the rest the UDS octets, both in writing and in reading |
| DoipProtocol.DiagnosticFrameOctets | adapters/uds_doip/src/doip_protocol.cpp:69-80 | the whole diagnostic frame in literal octets |
| DoipProtocol.EncodeRoutingActivationRequest | adapters/uds_doip/src/doip_protocol.cpp:49-59 | the octets sent are those of the activation frame |
| DoipProtocol.ActivationOctets | adapters/uds_doip/src/doip_protocol.cpp:61-67 | an activation response is five octets or more: tester, entity, code |
| DoipProtocol.ActivationFrameOctets | adapters/uds_doip/src/doip_protocol.cpp:49-59 | the whole activation request in literal octets |
| DoipProtocol.DiagnosticMessageRoundTrip | adapters/uds_doip/src/doip_protocol.cpp:82-88 | a payload decodes to given addresses and UDS octets exactly when it is their encoding |
| DoipProtocol.TakeFrameIff | adapters/uds_doip/src/doip_protocol.cpp:26-47 | a frame is found at the front of a stream exactly where its own octets stand and its length fits 32 bits |
| DoipProtocol.FramesAreSelfDelimiting | adapters/uds_doip/src/doip_protocol.cpp:16-47 | a stream that begins with any list of encoded frames parses back to exactly that list, then goes on with what follows |
| DoipProtocol.ParseWireSound | adapters/uds_doip/src/doip_protocol.cpp:26-47 | frames parsed, written again with the unread tail, are the stream; the tail holds no complete frame |
| DoipProtocol.WireInjective | adapters/uds_doip/src/doip_protocol.cpp:16-24 | two different frame lists never share an encoding |
| DoipProtocol.ParseWireExtends | adapters/uds_doip/src/doip_protocol.cpp:26-47 | more octets never change the frames already parsed |
| DoipTransport.DoipTransport.ReadExact | adapters/uds_doip/src/doip_transport.cpp:157-170 | on any schedule of chunks: success fills the buffer with exactly the next octets and uses up no more; failure is what the last recv met, a block, a close or an error, each with its own result, or too few octets coming |
| DoipTransport.ReadDiagnosticIff | adapters/uds_doip/src/doip_transport.cpp:172-220 | a read returns UDS octets exactly when the stream begins with a diagnostic frame of at most 64 KiB from that source to this tester, and uses up that frame only |
| DoipTransport.ReadDiagnosticFails | adapters/uds_doip/src/doip_transport.cpp:172-220 | a read times out exactly on a stream cut short, that is one that is the beginning of such a frame or less than a header; any other failure is a malformed frame |
| DoipTransport.DoipTransport.ReadDiagnosticMessage | adapters/uds_doip/src/doip_transport.cpp:172-220 | whatever the chunks, the outcome is that of the chunk-free reading, or a timeout or lost connection that one of the recv calls made has met |
| DoipTransport.ReadAckAt | adapters/uds_doip/src/doip_transport.cpp:242-276 | an acknowledgement is accepted exactly where a positive one stands; a negative one and any other frame are errors of their own |
| DoipTransport.ReadFrameFails | adapters/uds_doip/src/doip_transport.cpp:242-276 | so does the reading of an acknowledgement |
| DoipTransport.DoipTransport.SendAndReceive | adapters/uds_doip/src/doip_transport.cpp:222-278 | on success exactly the request's frame was sent; the outcome is that of acknowledgement then answer on the stream the peer sends for it, whatever the chunks, unless this send was cut short or one of the recv calls made met a fault |
| DoipTransport.DoipTransport.ReceivePendingResponse | adapters/uds_doip/src/doip_transport.cpp:280-291 | one more answer is read and nothing is sent; the outcome is that of the chunk-free reading, unless one of the recv calls made met a fault |
| DoipTransport.DoipTransport.Connect | adapters/uds_doip/src/doip_transport.cpp:49-155 | connected afterwards exactly on success; then the activation answer was accepted and used up; a failed activation leaves the transport closed, with the error of that answer, or of a fault that this send or one of the recv calls made has met |
| DoipTransport.ActivateIff | adapters/uds_doip/src/doip_transport.cpp:113-155 | activation succeeds exactly where a bounded response with code 0x10 stands and uses up just that, is refused exactly where one with another code stands, and times out exactly on a stream cut short |
| ResponsePending.ResolveIff | adapters/uds_doip/src/uds_doip_adapter.cpp:93-113 | a request returns a response, using up so many octets, exactly when the stream begins with a positive acknowledgement, at most ten pending answers and that response, itself pending only as the eleventh, and those frames are the octets used |
| ResponsePending.PendingBound | adapters/uds_doip/src/uds_doip_adapter.cpp:93-113 | any number of pending answers and a real one: up to ten give the real one and use up exactly those frames, from eleven on the eleventh pending one is returned |
| ResponsePending.StaleAnswersBreakTheNextExchange | adapters/uds_doip/src/uds_doip_adapter.cpp:104-110 | with eleven or more the next request on the connection fails on an answer left over |
| ResponsePending.ResolveResumes | adapters/uds_doip/src/uds_doip_adapter.cpp:97-112 | the specification of a whole request is the first exchange followed by the loop from its answer on |
| Ecu.SpeakIsCausal | adapters/uds_doip/src/doip_transport.cpp:222-278 | the ECU on the wire never takes back an octet when it is sent more, so a socket can be connected to it |
| Ecu.RecordServices | adapters/uds_doip/src/uds_services.cpp:55-92 | the model ECU, where it refuses nothing, answers reads, writes and adjustments of records in these octets, and does to its records just that |
| Ecu.SessionServices | adapters/uds_doip/src/uds_services.cpp:139-168 | it enters the session asked for, keeping the level or locking it, and answers a tester present unchanged |
| Ecu.SecurityServices | adapters/uds_doip/src/uds_services.cpp:170-199 | it unlocks an odd level exactly by the key that fits its seed octet by octet; another key is refused and changes nothing |
| Ecu.OtherAddressIsRefused | adapters/uds_doip/src/doip_transport.cpp:242-276 | a request for another address reaches no ECU and fails at the tester as negatively acknowledged |
| Ecu.AskedOverTheWire | adapters/uds_doip/src/uds_doip_adapter.cpp:93-113 | a request in a frame brings the ECU to the state of the direct call, and its answers are an acknowledgement, pending ones and the direct call's response |
| Ecu.OneRequest | adapters/uds_doip/src/uds_doip_adapter.cpp:93-113 | resolving what the ECU sends for one request is the direct call's response with the stream used up, if it stalls at most ten times, and a pending answer if more |
| Ecu.ActivatedInStep | adapters/uds_doip/src/doip_transport.cpp:113-155 | routing activation against the ECU is accepted, uses up all it sent and leaves it in its initial state |
| UdsServices.EchoesIff | adapters/uds_doip/src/uds_services.cpp:69-92 | a response confirms a write or an IO control exactly when it begins with the positive service id and the identifier |
| UdsServices.DecodeReadIff | adapters/uds_doip/src/uds_services.cpp:55-67 | a response carries given data exactly when it is the echo followed by that data |
| UdsServices.AcceptedOctets | adapters/uds_doip/src/uds_services.cpp:55-92 | which responses are accepted as read, write, IO control, session, seed and key, in literal octets, both directions |
| UdsServices.RequestOctets | adapters/uds_doip/src/uds_services.cpp:49-92 | the requests in literal octets |
| UdsServices.PendingOctets | adapters/uds_doip/src/uds_services.cpp:49-53 | a response is negative exactly when three octets or more begin with 0x7F, with its code in the third, and pending exactly with code 0x78 |
| UdsServices.SessionNames | adapters/uds_doip/src/uds_services.cpp:126-136 | exactly three names are session types, with their numbers |
| UdsServices.DeriveKey | adapters/uds_doip/src/uds_services.cpp:192-199 | the key is as long as the seed, and each octet is the bitwise exclusive or of the seed octet, 0xA5 and the level |
| UdsServices.DerivedKeyFitsIff | adapters/uds_doip/src/uds_services.cpp:192-199 | a key fits by that condition, which the model ECU checks it by, exactly if it is the derived one |
| UdsServices.DecodeReadDtc | adapters/uds_doip/src/uds_services.cpp:98-115 | exactly a positive report decodes, to one entry for each whole group of four octets in order, (n-3)/4 of them, a short tail ignored; the first three octets of a group give the code, the fourth the status |
| UdsServices.FormatDtcInjective | adapters/uds_doip/src/uds_services.cpp:28-38 | the eight character text determines the three octets of a code |
| UdsServices.FormatDtcReadsBack | adapters/uds_doip/src/uds_services.cpp:28-38 | the text of a code, read back digit by digit: the system by the top two bits, then five digits, a dash and two |
| UdsServices.DtcStatusByBits | adapters/uds_doip/src/uds_services.cpp:40-45 | each status text exactly for which bits |
| UdsServices.TextsDetermineCodes | adapters/uds_doip/src/uds_services.cpp:94-115 | the list of texts shown and the list of codes sent determine each other |
| UdsDoipAdapter.UdsDoipContext.AskAndResolve | adapters/uds_doip/src/uds_doip_adapter.cpp:93-113 | the bounded loop over the transport is the specification of one request, whatever the chunks, success and failure both, unless its send or one of its recv calls met a fault |
| UdsDoipAdapter.UdsDoipContext.AskInStep | adapters/uds_doip/src/uds_doip_adapter.cpp:93-113 | asked over the wire, the ECU's new state and response are those of the direct call and both ends are in step again, with a pending answer exactly when the ECU stalls more than ten times; it fails only for a fault met on the way |
| UdsDoipAdapter.UdsDoipContext.SendAndResolve | adapters/uds_doip/src/uds_doip_adapter.cpp:93-113 | the same from a transport that may still have to connect |
| UdsDoipAdapter.NrcClasses | adapters/uds_doip/src/nrc_map.cpp:5-26 | exactly which negative response codes come to which result |
| UdsDoipAdapter.RefusalIsReported | adapters/uds_doip/src/uds_doip_adapter.cpp:143-147 | a response without data comes to its code's result, or to an internal error exactly if it has none |
| UdsDoipAdapter.RefusalIsPassedOn | adapters/uds_doip/src/uds_doip_adapter.cpp:229-278 | an ECU that refuses a read or a write makes it come to its code's result, and nothing is read or stored |
| UdsDoipAdapter.DirectReadReturnsTheRecord | adapters/uds_doip/src/uds_doip_adapter.cpp:229-247 | a read answered with data is answered with the record under that identifier, and changes nothing |
| UdsDoipAdapter.ConfirmedWriteStores | adapters/uds_doip/src/uds_doip_adapter.cpp:249-278 | a write confirmed, by identifier or as IO control, stored exactly that data under exactly that identifier |
| UdsDoipAdapter.SeedAndKeyUnlock | adapters/uds_doip/src/uds_services.cpp:170-199 | seed and derived key unlock the level at an ECU that refuses nothing and accepts exactly the key that fits octet by octet, in the form the decoders accept |
| UdsDoipAdapter.WillingReadSucceeds | adapters/uds_doip/src/uds_services.cpp:55-67 | an ECU that refuses nothing answers a read of a record that fits with exactly that record |
| UdsDoipAdapter.WillingWriteSucceeds | adapters/uds_doip/src/uds_services.cpp:69-92 | it confirms every write in the form the decoder accepts |
| UdsDoipAdapter.UdsDoipContext.ReadData | adapters/uds_doip/src/uds_doip_adapter.cpp:229-247 | any result but a transport error is that of the direct read, or busy exactly when the ECU stalls more than ten times; a lossless network gives no transport error |
| UdsDoipAdapter.ConfirmedSessionIsEntered | adapters/uds_doip/src/uds_services.cpp:126-146 | a session control that is confirmed has put the ECU in exactly that session |
| UdsDoipAdapter.AcceptedKeyUnlocks | adapters/uds_doip/src/uds_services.cpp:170-190 | a key accepted for an odd level has unlocked exactly that level at the ECU |
| UdsDoipAdapter.FindByDidIff | catalog/src/did_catalog.cpp:232-237 | the lookup finds the first item with the identifier, and none exactly if there is none |
| UdsDoipAdapter.UdsDoipContext.DemandsAreTheItems | adapters/uds_doip/src/uds_doip_adapter.cpp:119-138 | the session, level and service used for an identifier are those of its first catalog entry's own fields, and none for an identifier not listed |
| UdsDoipAdapter.UdsDoipContext.EnsureSession | adapters/uds_doip/src/session_manager.cpp:35-61 | on success the ECU is in the session asked for, by its own state, and nothing else of it has changed but a level it ties to the session; on failure the bookkeeping stays |
| UdsDoipAdapter.UdsDoipContext.EnsureSecurityLevel | adapters/uds_doip/src/session_manager.cpp:91-122 | on success an odd level not held before is unlocked at the ECU and nothing else has changed there; the bookkeeping never falls; against a cooperative ECU it always succeeds |
| UdsDoipAdapter.UdsDoipContext.Beat | adapters/uds_doip/src/session_manager.cpp:142-149 | a heartbeat between two requests that gets its answer leaves the ECU as it was, both ends in step and true bookkeeping true; a cooperative ECU always answers |
| UdsDoipAdapter.UdsDoipContext.FallBack | adapters/uds_doip/src/session_manager.cpp:135-140 | the idle fallback leaves the ECU alone, and bookkeeping that is true exactly if the ECU is in its default session |
| UdsDoipAdapter.UdsDoipContext.RevertToDefault | adapters/uds_doip/src/session_manager.cpp:63-89 | bookkeeping reverts whatever the answer; confirmed, the ECU is in its default session and true bookkeeping is true again; a cooperative ECU always confirms |
| UdsDoipAdapter.UdsDoipContext.Escalate | adapters/uds_doip/src/uds_doip_adapter.cpp:119-138 | from true bookkeeping, success leaves the ECU itself in the demanded session, and with the demanded level exactly unless it relocks, the session had to change and an earlier unlock was reused; with an ECU that does not relock the bookkeeping stays true; nothing demanded, nothing sent |
| UdsDoipAdapter.UdsDoipContext.SendWrite | adapters/uds_doip/src/uds_doip_adapter.cpp:262-278 | any result but a transport error is that of the direct write, or busy exactly when the ECU stalls more than ten times; confirmed, it changed exactly that record; a lossless network gives no transport error |
| UdsDoipAdapter.UdsDoipContext.WriteData | adapters/uds_doip/src/uds_doip_adapter.cpp:249-278 | a successful write stored exactly the data under exactly the identifier, served by the ECU in the demanded session, and at the demanded level exactly unless that is stale; what is demanded, and whether the last frame sent is a write or an IO control, is stated by the fields of the first catalog entry with that identifier, in literal octets; with a cooperative ECU it always succeeds; without demands it is the direct write, or busy past ten stalls |
| Catalog.OctetsOfValue | catalog/src/did_catalog.cpp:248-276 | octets are recovered from the number they spell |
| Catalog.ValueOfOctets | catalog/src/did_catalog.cpp:248-276 | n octets keep exactly a number modulo 256^n |
| Catalog.BytesToUint | catalog/src/did_catalog.cpp:248-256 | the shifting loop computes the number the octets spell in the order asked for, modulo 2^64 |
| Catalog.NumberOfBigEndian | catalog/src/did_catalog.cpp:248-256 | big-endian, the last octet counts once and those before it 256-fold |
| Catalog.NumberOfLittleEndian | catalog/src/did_catalog.cpp:248-256 | little-endian, the first counts once and those after it 256-fold |
| Catalog.UintToBytes | catalog/src/did_catalog.cpp:269-276 | of n octets written, octet j is v / 256^(n-1-j) modulo 256 when big-endian, and v / 256^j modulo 256 when not |
| Numerals.ToHex | catalog/src/did_catalog.cpp:258-267 | the loop writes two digits an octet |
| Numerals.FromHex | catalog/src/did_catalog.cpp:282-305 | the loop accepts exactly an optional prefix and at least one digit pair, and returns the octets they spell |
| Numerals.HexRoundTrip | server/src/routes_util.cpp:57-66 | octets are recovered from their digits, in either case |
| Numerals.ParsedHexIff | catalog/src/did_catalog.cpp:282-305 | exactly the digits of one octet or more, in either case, with or without 0x or 0X, are accepted, and as those octets |
| Numerals.DecimalReadsBack | server/src/stream_hub.cpp:57 | a number reads back from its decimal text, which has no leading zero |
| Numerals.UpperHexIsCanonical | catalog/src/did_catalog.cpp:258-305 | octets read from text are written back as that text in upper case |
| CatalogLaws.StringSurvives | catalog/src/did_catalog.cpp:309-350 | a string is accepted exactly when it fits and comes back unchanged |
| CatalogLaws.StringBytesSurvive | catalog/src/did_catalog.cpp:309-350 | octets read as text are written back unchanged, or refused exactly when too long |
| CatalogLaws.TextIsItsOctets | catalog/src/did_catalog.cpp:309-312 | text shows each octet as one character |
| CatalogLaws.RawSurvives | catalog/src/did_catalog.cpp:333-397 | accepted hex comes back without prefix in upper case |
| CatalogLaws.RawBytesSurvive | catalog/src/did_catalog.cpp:333-397 | octets read as hex are written back unchanged, exactly unless there are none |
| CatalogLaws.EnumShowsFirstMatch | catalog/src/did_catalog.cpp:324-330 | an octet string shows the label of the first value with its big-endian number, as unsigned 64 bits, or its numeral exactly if none has it |
| CatalogLaws.FirstLabelIsWritten | catalog/src/did_catalog.cpp:369-389 | a label is written as the first value that carries it |
| CatalogLaws.LabelSurvives | catalog/src/did_catalog.cpp:324-389 | with distinct raw numbers of one octet each, whatever the labels, every listed label is accepted and comes back unchanged |
| CatalogLaws.LabelSurvivesIff | catalog/src/did_catalog.cpp:324-389 | with distinct raw numbers exactly the listed labels are accepted, and one comes back exactly when its raw number fits one octet or the octet written instead shows the same text |
| CatalogLaws.FloatIsScaledNumber | catalog/src/did_catalog.cpp:314-322 | in any arithmetic a float item shows its number, in its own byte order, times its scale, and refuses any other number of octets than its own |
| CatalogLaws.FloatSurvivesIff | catalog/src/did_catalog.cpp:314-367 | all items of one to six octets, and raw numbers below 2^51 of longer ones, either order: reading and writing back gives the same octets through a multiply and a divide off by 2^-53 each, exactly when the scale is not zero or the octets are |
| CatalogLaws.RoundedRawIsLost | catalog/src/did_catalog.cpp:314-367 | a raw number of a longer item that its conversion to double changes is never written back |
| CatalogLaws.ScalingError | catalog/src/did_catalog.cpp:314-358 | scaling up and down with relative errors of 2^-53 stays within half a step below 2^51 |
| CatalogLaws.FloatAcceptsIff | catalog/src/did_catalog.cpp:352-365 | in any arithmetic a number is accepted exactly when its computed quotient is within half a step of the raw numbers up to the converted limit |
| CatalogLaws.LimitConvertsExactly | catalog/src/did_catalog.cpp:360-362 | up to six octets, and in exact arithmetic, that is the limit itself |
| CatalogLaws.FloatComesBack | catalog/src/did_catalog.cpp:314-367 | every accepted number comes back as the value of the raw number it was rounded to, modulo what the octets hold |
| CatalogLaws.AcceptedRawFits | catalog/src/did_catalog.cpp:360-365 | in any arithmetic an item holds what it accepts if its converted limit is below 256^n |
| CatalogLaws.AcceptedRawsFitIff | catalog/src/did_catalog.cpp:360-365 | where dividing by one changes nothing, an item of scale one holds all it accepts exactly then |
| CatalogLaws.LimitLetsOneThrough | catalog/src/did_catalog.cpp:360-365 | where the limit is rounded up to 256^n or beyond, that number is accepted and comes back as zero |
| CatalogLaws.FloatComesBackClose | catalog/src/did_catalog.cpp:314-367 | through floating point, up to six octets, an accepted number comes back within six tenths of a step of itself |
| CatalogLaws.FloatComesBackNearest | catalog/src/did_catalog.cpp:314-367 | in exact arithmetic it comes back within half a step of itself, and no other raw number is nearer |
| ReadYourWrite.DecodeEncode | catalog/src/did_catalog.cpp:309-397 | for every item type, decoding an accepted value's encoding gives the value it is expected to read back as |
| ReadYourWrite.ReadBackIsClose | catalog/src/did_catalog.cpp:314-367 | for scaled numbers that is within six tenths of a step of what was put |
| ReadYourWrite.PutValue | server/src/routes_data.cpp:85-180 | locked, read-only, out of scope and refused by the codec each have their exact cause, in the handler's order, and send nothing; put successfully, the ECU's record is the encoded value |
| ReadYourWrite.GetValue | server/src/routes_util.cpp:74-109 | a value got is the decoded record of the ECU, which is unchanged |
| ReadYourWrite.PutThenGet | server/src/routes_data.cpp:85-180 | a value put and then got back through codec, UDS, frames and chunks is the expected value; with a cooperative ECU on a lossless network, and a record that fits a frame, everything admitted and accepted by the codec is put and got |
| ReadYourWrite.Attach | adapters/uds_doip/src/uds_doip_adapter.cpp:93-113 | such a network exists for every willing and prompt ECU and any chunk sizes |
| ReadYourWrite.PutThenGetInChunks | server/src/routes_data.cpp:85-180 | so with nothing assumed of the network but that it loses nothing, whatever the chunk sizes, every admitted and accepted value whose record fits a frame is put and got back |
| StreamHubSafety.StepKeepsOwned | server/src/stream_hub.cpp:20-132 | every step of every thread keeps: a poller runs exactly while the map lists it and it has live handles, its count is their number, and each handle's key leads to its own poller |
| StreamHubSafety.ReleaseHitsItsOwnPoller | server/src/stream_hub.cpp:110-132 | a release by key finds the handle's own poller, never a missing entry or another generation, and is the last exactly when no other handle is left |
| StreamHubSafety.OneRunningPollerPerKey | server/src/stream_hub.cpp:55-76 | no two running pollers share a key |
| StreamHubSafety.StepKeepsOrderly | server/src/stream_hub.cpp:45-103 | every step keeps each handle's versions increasing and paired with the value published at that version, and a stopped poller quiet |
| StreamHubSafety.HubIsAlwaysSafe | server/src/stream_hub.cpp:20-132 | ownership, delivery and quiet hold after every run from any state in which they hold |
| StreamHubSafety.EveryReachableHubIsSafe | server/src/stream_hub.cpp:20-132 | so they hold in every state the hub can reach from its start |
| StreamHubDelivery.EveryReadIsPublished | server/src/stream_hub.cpp:79-103 | over any run after which a poller still runs, whatever the other threads do, it has published exactly the values its reads returned, in order, one a round, its version counts them and the newest is at hand |
| StreamHubDelivery.ReadIsPublished | server/src/stream_hub.cpp:84-89 | the value a read returns is, after the thread's next two steps in any run, last in the log and the latest, and the version is one more |
| StreamHubDelivery.WaitDeliversIff | server/src/stream_hub.cpp:45-53 | a wait on a live handle gives the newest value with its version exactly if it is newer than the last seen, and else changes nothing |
| StreamHubDelivery.NewSubscriberIsGivenTheNewest | server/src/stream_hub.cpp:55-108 | whoever joins a poller that has published is given its newest value by the first wait |
| StreamHubDelivery.MovedSubscriptionGoesOn | server/src/stream_hub.cpp:29-39 | a subscription moved into another handle keeps its poller, its last version seen and all it was given; if that handle was the last of another poller, nothing has moved before the join |
| StreamHubDelivery.ConstructedSubscriptionGoesOn | server/src/stream_hub.cpp:23-27 | so does one moved into a new handle |
| StreamHubDelivery.JoinedMoveGoesOn | server/src/stream_hub.cpp:29-39 | and one that had to wait for a join |
| StreamHubDelivery.OtherHandlesStay | server/src/stream_hub.cpp:20-132 | no action reaches a handle it is not about |
| StreamHubDelivery.JoinReturns | server/src/stream_hub.cpp:110-132 | the join of a release is never stuck: at most three steps of the thread waited for, always possible, and it returns |
| StreamHubSafety.OnlyItsThreadTouchesAStoppedPoller | server/src/stream_hub.cpp:110-132 | after its stop only its own thread changes a poller |
| StreamHubSafety.StoppedPollerWindsDown | server/src/stream_hub.cpp:79-103 | after the stop nothing more is published, at most one read is begun, and the thread exits within three steps |
| StreamHubSafety.NothingAfterTheLastRelease | server/src/stream_hub.cpp:110-132 | once the last release has returned, no run makes that poller read or publish |
| StreamHubDelivery.CountersCountReads | server/src/stream_hub.cpp:79-84 | the counters those two laws speak of count exactly the reads begun, and those begun after the stop, in any run from a poller's first step |
| StreamHubSafety.KeysAreSharedIff | server/src/stream_hub.cpp:57 | two subscribers share a key exactly when the cadence is the same and path, separator and id run together to the same text |
| StreamHubSafety.KeysAreShared | server/src/stream_hub.cpp:57 | the same item at the same cadence always shares one; if neither path contains the separator, nothing else does |
| StreamHubSafety.KeysMayCollide | server/src/stream_hub.cpp:57 | with a separator in a path, different items share one |
| SessionSafety.StepKeepsSafe | adapters/uds_doip/src/session_manager.cpp:30-151 | every step keeps the mutex, thread and flag invariants |
| SessionSafety.SessionIsAlwaysSafe | adapters/uds_doip/src/session_manager.cpp:30-151 | they hold in every state of every interleaving |
| SessionSafety.SafeMeans | adapters/uds_doip/src/session_manager.cpp:30-151 | at most one heartbeat lives, no joinable thread object is overwritten, no join under the mutex, no old heartbeat across a session change, and an idle foreground in an escalated session has a running heartbeat |
| SessionSafety.JoinCompletes | adapters/uds_doip/src/session_manager.cpp:30-33 | a join is never stuck: the heartbeat can step nearer to its exit, or sleeps to a time the clock can reach |
| SessionSafety.NeverStuck | adapters/uds_doip/src/session_manager.cpp:30-151 | in every safe state a thread can step or time can pass |
| SessionSafety.EscalatedWithinDeadline | adapters/uds_doip/src/session_manager.cpp:124-151 | no escalated session outlives interval plus one send after the later of its idle timeout and the heartbeat's start |
| SessionSafety.UntouchedSessionFallsBack | adapters/uds_doip/src/session_manager.cpp:124-151 | left alone, a session stands at least to its idle timeout, and never past its deadline |
| SessionCalls.UseTouches | adapters/uds_doip/src/session_manager.cpp:35-37 | over any run through an EnsureSession or EnsureSecurityLevel call up to its return, the last touch is no earlier than the clock when it began |
| SessionCalls.UsedSessionStands | adapters/uds_doip/src/session_manager.cpp:124-151 | so a session that is used stands, with its level, if no other call is made, until the idle timeout has passed since that use began |
| SessionCalls.ConfirmedSessionIsIn | adapters/uds_doip/src/session_manager.cpp:35-61 | an EnsureSession whose requests are confirmed returns in the session asked for, unless the idle timeout has run out since |
| SessionCalls.ConfirmedLevelIsUnlocked | adapters/uds_doip/src/session_manager.cpp:91-122 | an EnsureSecurityLevel whose requests are confirmed returns with at least that level, unless the idle timeout has run out since |
| SessionCalls.RefusedCallChangesNothing | adapters/uds_doip/src/session_manager.cpp:35-122 | whatever the interleaving, a call refused by the ECU leaves session and level as they were, or fallen back |
| SessionCalls.WhatIsInForceIsKept | adapters/uds_doip/src/session_manager.cpp:35-100 | the call returns at once, and the heartbeat goes on, exactly if the session is in force or the level held |
| SessionCalls.CallsAreShort | adapters/uds_doip/src/session_manager.cpp:30-122 | whatever the heartbeat does and the ECU answers, a call takes at most seven steps of its own from its beginning to its return |
| SessionLiveness.FallbackIsReached | adapters/uds_doip/src/session_manager.cpp:124-151 | from any escalated session the heartbeat and the clock alone lead to the default session with level 0 no later than the deadline, if a round of the heartbeat takes time |
| SessionLiveness.FallbackIsInevitable | adapters/uds_doip/src/session_manager.cpp:124-151 | no run puts it off: an untouched run that has not come to it is before the deadline, its heartbeat has taken at most six steps for each interval up to there, and it can go on |
| SessionLiveness.FallbackIsReachedIff | adapters/uds_doip/src/session_manager.cpp:124-151 | for a heartbeat that is not waiting for a later time, it can be reached exactly if the interval or a send takes time, or the timeout is over |
| SessionLiveness.RunsEscalate | adapters/uds_doip/src/session_manager.cpp:30-151 | every idle foreground in an escalated session, after any run from the start, is such a state |
| SessionSafety.RevertLeavesLevelZeroIff | adapters/uds_doip/src/session_manager.cpp:63-89 | a finished revert leaves the default session, and level 0 exactly when it found another session or level 0; found in the default session with a heartbeat running, the level is kept or 0 |
| SessionRace.RevertMayRace | adapters/uds_doip/src/session_manager.cpp:63-69 | in that case both outcomes are possible: one run keeps the level, another loses it |
| SessionRace.RaceIsReachable | adapters/uds_doip/src/session_manager.cpp:35-89 | a run from the start leads into such a state with level 1 unlocked, when the interval is no shorter than the idle timeout |
| LockManager.Manager.AcquireLock | core/src/lock_manager.cpp:20-35 | table and answer are those of the specification |
| LockManager.ExpiryIsClamped | core/src/lock_manager.cpp:25-33 | a lock lasts exactly as long as asked for, up to 3600 s |
| LockManager.Manager.ReleaseLock | core/src/lock_manager.cpp:37-49 | table and answer are those of the specification |
| LockManager.Manager.RenewLock | core/src/lock_manager.cpp:51-64 | table and answer are those of the specification |
| LockManager.ExpiredEntryIsPurged | core/src/lock_manager.cpp:37-64 | a release or a renewal leaves no expired entry on its entity, and the entries of others alone |
| LockManager.Manager.HeldLockCount | core/src/lock_manager.cpp:77-84 | exactly the locks unexpired each at its own reading of the clock: at least those held at the end, at most those held at the start |
| LockRefinement.LazyRefinesEager | core/src/lock_manager.cpp:14-84 | over every run the table that keeps expired entries answers call by call like a store that deletes each at its expiry, counts that read the clock for each entry included |
| LockRefinement.GrantedIdsAreDistinct | core/src/lock_manager.cpp:20-35 | no id is granted twice in a run |
| LockRefinement.ExpiriesStayWithin | core/src/lock_manager.cpp:25-33 | at every point of a run no lock outlasts the next 3600 seconds |
| LockCap.StepKeepsTheBound | server/src/routes_locks.cpp:62-73 | each step of any worker keeps held locks plus acquires let through within 63 plus the workers |
| LockCap.CapUnderConcurrency | server/src/routes_locks.cpp:62-73 | the bound holds in every state n workers can reach |
| LockCap.BoundIsReached | server/src/routes_locks.cpp:62-73 | n workers can really come to hold 63 + n locks |
| LockCap.CapHoldsIffOneWorker | server/src/routes_locks.cpp:62-73 | the cap of 64 holds exactly when there is no second worker |
| LockWorkers.WorkersShareOneStore | server/src/routes_locks.cpp:62-73 | over every run of n workers the table is that of the store after exactly the acquires, renewals and releases of their requests, one after another at their times, each acquire for what its worker was asked |
| LockWorkers.WorkersAreAnsweredEagerly | core/src/lock_manager.cpp:14-84 | so the workers together are answered as by the store that deletes each lock at its expiry |
| LockWorkers.RequestsAreServed | server/src/routes_locks.cpp:32-163 | no request is held up by the others: a free worker counts exactly for a positive time to live, and takes what it was let through for |
| LockRoutes.PostLock | server/src/routes_locks.cpp:32-82 | one request alone never passes the cap, is busy only at the cap, conflicts only with a live lock, and what it creates is listed under the id and to the expiry it reports; refused, it changes nothing |
| LockRoutes.PutLock | server/src/routes_locks.cpp:84-128 | a renewal succeeds exactly for the holder of an unexpired lock, wrong ids and missing locks told apart, and extends it to the time reported, an hour at most |
| LockRoutes.DeleteLock | server/src/routes_locks.cpp:130-163 | the session is reverted exactly when the lock was really released, that is held by this id and unexpired |
| LockGuard.AcquireBeginsTheHold | client/src/lock_guard.cpp:9-11 | a successful acquire is held by the new id until its expiry |
| LockGuard.GuardKeepsExclusion | client/src/lock_guard.cpp:9-55 | for any time to live: if the lags of its trips fit and its release is served before the last expiry, from the acquire to that release, whatever other clients do and whenever, every renewal succeeds, every call of theirs on the entity is turned away, and the lock released is still the guard's |
| LockGuard.PromptReleaseIsInTime | client/src/lock_guard.cpp:43-55 | a release sent during the wait after the last reply is served in time if its lag fits like a renewal's |
| LockGuard.RenewedMeansInTime | client/src/lock_guard.cpp:22-39 | conversely, renewals that all succeed were all served before the expiry before them |
| LockGuard.GuardNeverLapsesIff | client/src/lock_guard.cpp:9-41 | for any time to live, whatever other clients do and whenever, all renewals succeed exactly when each reply's lag and the next request's lag add up to less than the interval leaves of the lock's lifetime |
| LockGuard.IntervalIs | client/src/lock_guard.cpp:22 | the guard waits half its time to live, a tenth of a second at least |
| LockGuard.LongTtlNeverFits | client/src/lock_guard.cpp:22 | with two hours or more that never happens |
| LockGuard.QuarterTripsFit | client/src/lock_guard.cpp:9-41 | for one to 3600 seconds, round trips under a quarter of the time to live are always enough |
| LockGuard.HalfTripsMayLapse | client/src/lock_guard.cpp:9-41 | round trips under half of it are not: a guard whose renewal is refused, and whose lock another client is granted meanwhile |
| StreamTicket.TicketTextInjective | server/src/stream_ticket.cpp:9-18 | tickets collide only when their random octets do |
| StreamTicket.TicketTextReadsBack | server/src/stream_ticket.cpp:9-18 | the text of a ticket is two digits an octet, and reads back to the octets |
| StreamTicket.StreamTicketStore.SweepExpired | server/src/stream_ticket.cpp:26-35 | the loop leaves exactly the unexpired tickets |
| StreamTicket.StreamTicketStore.IssueTicket | server/src/stream_ticket.cpp:37-55 | table and answer are those of the specification |
| StreamTicket.StreamTicketStore.RedeemTicket | server/src/stream_ticket.cpp:57-69 | table and answer are those of the specification: erased whatever the outcome |
| StreamTicket.OutstandingIsBounded | server/src/stream_ticket.cpp:37-55 | never more than 64 tickets after any run |
| StreamTicket.RedeemsNeverExceedMints | server/src/stream_ticket.cpp:37-69 | per ticket, redeems plus one if outstanding never exceed mints, even when random octets repeat |
| StreamTicket.RedeemsAndOutstandingNeverExceedMints | server/src/stream_ticket.cpp:37-69 | the same over the whole store |
| StreamTicket.TableIsHistory | server/src/stream_ticket.cpp:26-69 | what the table holds unexpired is what the call history says, so sweeping shows nowhere |
| StreamTicket.RedeemIff | server/src/stream_ticket.cpp:57-69 | a redeem succeeds exactly when an earlier call minted the ticket for that very pair less than 30 s ago and nothing touched it since |
| StreamTicket.RefusedIffFull | server/src/stream_ticket.cpp:37-40 | a mint is refused exactly when 64 tickets are live or no random octets are to be had, and else gives their text |
| Sse.ProvideContent | server/src/routes_streams.cpp:89-102 | one frame is written whole or not at all, a data frame for a line and a keep-alive comment for a wait in vain, in literal text; and the stream goes on exactly while the sink is writable and accepts |
| Sse.SplitLosesNothing | client/src/sovd_client.cpp:239-256 | frames found, joined again with the tail, are the text |
| Sse.SplitResumes | client/src/sovd_client.cpp:239-256 | splitting what has arrived and then the rest behind the leftover is splitting it all at once |
| Sse.SplitFramedIff | client/src/sovd_client.cpp:243-255 | the frames joined and the tail are found again exactly when no frame holds a separator or ends in a newline and the tail holds none |
| Sse.Subscriber.OnChunk | client/src/sovd_client.cpp:239-256 | one chunk: the values of the frames it completes are delivered in order, the buffer keeps the unfinished tail, a set stop flag takes nothing in |
| Sse.TakenIff | client/src/sovd_client.cpp:239-256 | a chunk is taken exactly if the stop flag is clear before it and was so around every chunk ahead |
| Sse.Subscriber.Subscribe | client/src/sovd_client.cpp:239-256 | over any chunks up to the stop the callback sees what the concatenated text says, however it was cut |
| Sse.LineIsCarriedIff | server/src/routes_streams.cpp:94-96 | a JSON line is carried intact exactly when it holds no separator and does not end in a newline |
| Sse.StreamIsReadBack | server/src/routes_streams.cpp:89-102 | cut off anywhere, the frames split off are exactly those that arrived whole, and the tail exactly the part of the next |
| Sse.CutAnywhere | server/src/routes_streams.cpp:89-102 | wherever the server's stream is cut, it is so many whole frames and a part of the next |
| Sse.FollowStream | client/src/sovd_client.cpp:239-256 | however what the server framed is cut into chunks, the callback has been given exactly the parsed lines whose frames arrived whole, keep-alives dropped, and the buffer is the rest |
| Mqtt.AppendVarint | server/src/mqtt_publisher.cpp:13-20 | the loop appends the seven-bit octets of the length |
| Mqtt.LengthRoundTrip | server/src/mqtt_publisher.cpp:13-20 | the standard decoder recovers a length whatever follows, exactly when its octets are allowed |
| Mqtt.VarintSize | server/src/mqtt_publisher.cpp:13-20 | k octets are used up to exactly the lengths under 128^k |
| Mqtt.FourOctetsIff | server/src/mqtt_publisher.cpp:13-20 | one to four octets exactly up to 268435455 |
| Mqtt.VarintIsMinimal | server/src/mqtt_publisher.cpp:13-20 | no other encoding of the length is shorter |
| Mqtt.AppendMqttString | server/src/mqtt_publisher.cpp:22-26 | appends the sixteen bit length and the octets |
| Mqtt.EncodePublish | server/src/mqtt_publisher.cpp:46-57 | the packet is that of the specification |
| Mqtt.PublishOctets | server/src/mqtt_publisher.cpp:46-57 | the PUBLISH packet in literal octets around its variable parts |
| Mqtt.TakePublishIff | server/src/mqtt_publisher.cpp:46-57 | a broker reads a message exactly out of a packet of that kind and body |
| Mqtt.EncodeConnect | server/src/mqtt_publisher.cpp:30-44 | the packet is that of the specification |
| Mqtt.ConnectOctets | server/src/mqtt_publisher.cpp:30-44 | the CONNECT packet likewise |
| Mqtt.DecodeConnectIff | server/src/mqtt_publisher.cpp:30-44 | a broker reads a client id and a keep-alive exactly out of a packet of that kind and body |
| Mqtt.PublishRoundTripIff | server/src/mqtt_publisher.cpp:46-57 | a broker recovers topic and payload, whatever follows, exactly when both length fields can hold their lengths |
| Mqtt.StreamRoundTripIff | server/src/mqtt_publisher.cpp:46-57 | from any run of packets a broker recovers exactly the messages, in order, exactly when each fits |
| Mqtt.ConnectRoundTripIff | server/src/mqtt_publisher.cpp:30-44 | a broker recovers client id and keep-alive exactly when the id fits its length field |
| EntityRegistry.Store.AddEntity | core/src/entity_registry.cpp:31-54 | registry and answer are those of the specification |
| EntityRegistry.AddIff | core/src/entity_registry.cpp:31-54 | an add is accepted exactly if the path is new and not empty, has under sixteen slashes, and what stands before its last slash, unless that leads it, is registered |
| EntityRegistry.AddDoes | core/src/entity_registry.cpp:31-54 | accepted, it registers exactly what it was given, listed last; refused, it changes nothing |
| EntityRegistry.Store.ListAll | core/src/entity_registry.cpp:63-69 | every entity once, in the order of registration |
| EntityRegistry.Store.RemoveEntity | core/src/entity_registry.cpp:71-86 | registry and answer are those of the specification; the scan finds any child |
| EntityRegistry.RemoveDoes | core/src/entity_registry.cpp:71-86 | a removal takes out exactly that entity, keeps the order of the others and destroys its context if its adapter can; refused, it changes nothing |
| EntityRegistry.Store.Teardown | core/src/entity_registry.cpp:22-29 | exactly the contexts still owned are destroyed, in the order of registration |
| EntityRegistry.ParentOf | core/src/entity_registry.cpp:16-20 | the parent is what stands before the last slash, "" without one |
| EntityRegistry.RootIff | core/src/entity_registry.cpp:16-20 | exactly the paths without a slash, or whose only slash leads them, need no parent |
| EntityRegistry.AddKeepsTree | core/src/entity_registry.cpp:31-54 | an add keeps the tree: listing without duplicates, depth within 16, parents registered and listed first |
| EntityRegistry.RemoveKeepsTree | core/src/entity_registry.cpp:71-86 | a removal keeps it |
| EntityRegistry.AlwaysATree | core/src/entity_registry.cpp:31-86 | it holds after every run of calls |
| EntityRegistry.AncestorsAreRegistered | core/src/entity_registry.cpp:31-54 | the way up from any entity is registered, ends at a root, and is shorter than 16 steps |
| EntityRegistry.RemoveIff | core/src/entity_registry.cpp:71-78 | an entity can be removed exactly when nothing is left anywhere below it |
| EntityRegistry.ContextsAreConserved | core/src/entity_registry.cpp:22-86 | contexts taken over are those destroyed and those still owned, each as often as handed in |
| EntityRegistry.EveryContextIsDestroyedOnce | core/src/entity_registry.cpp:22-86 | after any run and the destructor each distinct context has been destroyed exactly once |

## Left out

- HTTP, TLS, JSON, YAML and OpenSSL: library calls. A JSON line is a string and the parser a function that may fail; random octets are parameters.
- Socket options, timeouts as durations, address resolution: the dialed socket is a parameter, and each recv may deliver, block, close or fail.
- Route patterns, the table of scopes, the HTTP status table and error message texts: finite tables.
- The mock adapter, the config loader, proxy path rewriting, `to_hex_u16`, the hex form of an identifier in a URL, `EntityRegistry::find`, the read of faults beyond DTC decoding, clear and routine calls, and the client's request retry loop: they would add easy members only.
- The stream hub, the session manager and the lock cap under concurrency are modelled on values, as transition systems: their threads interleave, which methods cannot express. The model has the fields of the objects in its state, but not their memory: a hub destroyed before its handles is not modelled.
- The adapter is modelled with one caller at a time; transport exchanges are serialised by a mutex in the source. When a heartbeat comes between the adapter's requests is in the session model; in the adapter model a beat is one more request.
- The framing of a connection after a failed exchange: claims about alignment are made after a successful one.
- EnsureSession: the time of the last touch and the start of the heartbeat are in the session model, not in the adapter model.
- RaceIsReachable: is a witness, for intervals no shorter than the idle timeout.
- Concurrent foreground calls into the session manager: the source does not serialise them; callers are taken to be serial.
- IEEE 754 overflow, underflow and not-a-number values: arithmetic is over reals with relative errors.
- Wrap-around of lock ids, stream versions and ticket clocks: counters are unbounded.
- FloatSurvivesIff: leaves out raw numbers from 2^51 on of items of seven or eight octets, which a double may not carry; RoundedRawIsLost shows the loss.
- FloatComesBackNearest: is stated for exact arithmetic, because with rounding the nearest step can be off by one at a tie; FloatComesBackClose is the bound through floating point.
- PutValue: the token scope, the lock id and the time of the lock check are parameters; the parsing of the body and unnamed identifiers are left out.
- WriteData: what it says of the ECU's own level is about odd levels, the ones a seed can be requested for.
- EscalatedWithinDeadline: takes the bound on how long a heartbeat send lasts as given.
- Acquire: a time to live of zero or less makes a lock that is expired at once; the handlers refuse it, the store does not.
