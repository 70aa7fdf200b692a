# BlueRipple Passkey: a Dafny model

BlueRipple Passkey is a software FIDO2 authenticator: a virtual HID device speaks CTAPHID with a browser, a CTAP2
handler answers registration and assertion commands, a TPM signs, a fingerprint reader confirms, and a JSON file keeps
the discoverable credentials. This project models five of its parts and proves what each promises over whole runs.

`dafny verify dfyconfig.toml` checks everything.

## The parts

**CTAPHID framing and channels** (`Framing`, `Host`, `Channels`, `HidDevice`). Packets are 64-byte sequences.
`HidDevice.Device` is the object of the source: channel objects updated in place behind a table, packets built in byte
arrays, one `SendResponse` loop. Its methods are proved against functions on tables (`Channels`): one function for each
critical section, and a record of what the receiving thread does once it has left the lock.

**The device with all its threads** (`HidSystem`, `Assembler`, `Isolation`, `Provenance`, `Transactions`,
`OutputLock`, `Serial`, `Delivery`, `Bookkeeping`). `HidSystem` is a state machine in which the event loop, one
goroutine per CBOR transaction with its command handler, the cleanup loop and `Close` take turns: each critical section,
each send and each outcome of a `select` is a step, and every interleaving is a schedule. `Isolation` relates a channel
to `Assembler`, an independent description of one channel that sees only its own inputs; from there come
non-interference, tolerance of noise, the fragment round trip and the provenance of every dispatched message. `Transactions` is about what each transaction
sends. `OutputLock` splits `sendResponse` into one step per packet, with any number of concurrent callers and failing
injections, and reads the result with the host of `Host`. `Serial` shows that the device object does in one call what
the event loop does in several steps. `Delivery` joins the threads of `HidSystem` with the packets of `OutputLock`, down
to what a host reads. `Bookkeeping` says, from the events only, how each report is answered and what becomes of the last
use and the cancel slot of a channel.

**Credential store** (`Credentials`, `Disk`, `Storage`, `StorageRuns`). The object keeps a list, two indexes and a
file. The directory records every state it has been in, so that a stop at any point is covered. The list refines an
insertion-ordered map. The object logs its operations, so that what it promises about a stop holds over whole runs.

**CTAP2 commands** (`Ctap2`, `Handler`, `HandlerRuns`, `Decisions`, `Discovery`, `AuthData`, `Authority`).
`Handler.Handler` is the object of the source, with a nullable store and a nullable assertion state that is advanced in
place; `Ctap2.Exec` is its specification, and `HandlerRuns` the properties of runs; `Decisions` says when each command is
refused and how, `Discovery` what is found of what was registered. SHA-256 and the encoding of a public key are
parameters; a signature is the triple of key, relying party and digest it was made for; the answers of the signer, the
user, the clock and the disk are part of each command.

**Codec and key handles** (`Lencode`, `Codec`, `KeyHandle`), **presence** (`Presence`) and **configuration** (`RpIds`).
The codec objects work on a writer of limited room and on a reader over bytes. `Presence` is the single-flight slot with
one prompt goroutine, one result channel and one waiting caller per request, under any interleaving of verdicts,
rendezvous and time-outs. `Authority` puts it together with the handler: what is signed is what the user agreed to.

## Where the code does not do what one would expect

- A finished message of 1 to 57 bytes still counts as in progress. A continuation numbered 0 that follows before the
  channel is reset or times out dispatches it a second time (`Provenance.DispatchCount` says exactly when,
  `Isolation.ShortMessageTwice` gives a run).
- `Delete` of a credential that is not in memory reports success and writes nothing. After a delete whose write failed,
  the retry reports success while the file still has the credential (`StorageRuns.RetriedDeleteIsLost`);
  `StorageRuns.SuccessMeansWritten`, `StorageRuns.FileHoldsLastSuccess` and `StorageRuns.SuccessfulDeleteForgets` give the
  exact conditions.
- `DecodeInto` asks in its documentation for a buffer that is large enough, but rejects every buffer that is larger than
  the message, and slices beyond one that is smaller unless it has spare capacity (`Lencode.AcceptedBuffers`). The model
  follows the code.
- Responses longer than 7609 bytes need sequence bytes of 0x80 and more and cannot be read by a host; `Host.ReassembleIff`
  shows that 7609 is the exact limit.
- `padTo32` and `bigIntToBytes` differ from 2^256 on (`AuthData.CoordinatesAgree`).
- Accepting IP addresses in `validRPID` admits nothing that the rule for host names would not
  (`RpIds.AddressesAreHostNames`).

## Model

| member | source | states |
|---|---|---|
| Framing.FragmentShape | fidohid/fidohid.go:449-482 | a response has 1 + ceil(max(0, n-57)/59) packets with the announced headers, and its sequence bytes stay below 0x80 exactly up to 7609 bytes |
| Framing.ReadInitPacket | fidohid/fidohid.go:190-218 | reading a prefixed initialization report undoes building it, with the length modulo 65536 and zero padding |
| Framing.ReadContPacket | fidohid/fidohid.go:190-223 | the same for continuation reports |
| Host.ReassembleFragment | fidohid/fidohid.go:449-482 | a host reading a response of at most 7609 bytes has the message with the last packet and nothing before |
| Host.ReassembleIff | fidohid/fidohid.go:449-482 | a host reads a fragmented response as that message if and only if it has at most 7609 bytes |
| HidDevice.Device.SendResponse | fidohid/fidohid.go:449-482 | the loop injects the fragmentation of the message, cut after the injections that succeed |
| HidDevice.Device.ReadOutput | fidohid/fidohid.go:190-223 | stripping, padding and splitting a raw report |
| HidDevice.Device.HandleOutput | fidohid/fidohid.go:190-223 | a report has on table, cancellations, dispatches and packets exactly the effect of its critical section |
| HidDevice.Device.HandleInitPacket | fidohid/fidohid.go:225-284 | initialization packets: INIT, refusals, CANCEL, and the start of a message that replaces and cancels what was there |
| HidDevice.Device.HandleContPacket | fidohid/fidohid.go:286-324 | continuation packets: refusals, collection in place, dispatch and reset when complete |
| HidDevice.Device.HandleInit | fidohid/fidohid.go:326-361 | INIT stores a fresh channel under a new or the same identifier and answers on the one it came from |
| HidDevice.Device.DispatchCommand | fidohid/fidohid.go:363-378 | pings are echoed, CBOR is left to a transaction, everything else is refused |
| HidDevice.Device.AllocateCID | fidohid/fidohid.go:494-516 | the loop returns the first acceptable candidate |
| Channels.AllocatedIsFresh | fidohid/fidohid.go:494-516 | an allocated identifier is not zero, not broadcast, and with randomness not in use |
| HidDevice.Device.RegisterTransaction | fidohid/fidohid.go:395-402 | a transaction stores its cancel function, in a new channel if there is none |
| HidDevice.Device.FinishTransaction | fidohid/fidohid.go:428-443 | the slot of the channel is cleared, whoever holds it |
| HidDevice.Device.CleanupChannels | fidohid/fidohid.go:518-541 | the sweep removes exactly the stale channels and cancels exactly their transactions |
| HidDevice.Device.Close | fidohid/fidohid.go:175-188 | every stored cancel function is called and the table is emptied |
| Channels.ReceiveKeepsWellFormed | fidohid/fidohid.go:266-324 | an incomplete message holds 57 + 59 * seqNum bytes, fewer than announced, at most 1200 |
| Channels.ContinuedIsAssembling | fidohid/fidohid.go:303-318 | the sequence number stays at most 19 and completeness is exact, so no byte or 16-bit conversion wraps |
| HidSystem.Reachable | fidohid/fidohid.go:239-264 | in every reachable state of all threads the table is well formed, has no broadcast channel, and a stored cancel function belongs to a transaction of its own channel that has begun and has not ended |
| Serial.ObjectIsSerialSchedule | fidohid/fidohid.go:225-378 | over any sequence of reports the device object does what the event loop does in its steps: same table, same dispatches, same cancelled transactions, and its packets are the fragments of the messages the loop sends |
| Isolation.StepMatches | fidohid/fidohid.go:225-361 | each step of any thread moves a channel as the isolated assembler moves on the channel's own input |
| Isolation.ScheduleMatches | fidohid/fidohid.go:225-361 | over any interleaving a channel dispatches what the isolated assembler dispatches |
| Isolation.NonInterference | fidohid/fidohid.go:225-361 | schedules that agree on a channel's own inputs dispatch the same messages on it, whatever happens elsewhere |
| Isolation.BroadcastIsSilent | fidohid/fidohid.go:239-243 | nothing is ever dispatched on the broadcast channel |
| Assembler.OthersDoNotMatter | fidohid/fidohid.go:225-324 | inputs of other channels can be dropped |
| Assembler.TransferDelivers | fidohid/fidohid.go:190-324 | from any state the fragments of a message amid any noise deliver exactly that message, with the last fragment |
| Isolation.TransferIsDispatched | fidohid/fidohid.go:190-324 | the same for the whole device from any reachable state under any interleaving |
| Isolation.PingEchoes | fidohid/fidohid.go:369-370 | a ping transfer leaves the loop about to send the same message, and a host reads it back |
| Delivery.JointIsBoth | fidohid/fidohid.go:380-482 | threads that send packet by packet under the lock run a schedule of the device and a run of the output at once, each call belonging to one send |
| Delivery.SendersGoOn | fidohid/fidohid.go:449-482 | whoever is about to send can call, or waits for a lock that is free or whose holder can go on |
| Delivery.ThreadsGoOn | fidohid/fidohid.go:405-446 | the loop can take a report or store its channel, and a waiting transaction can send a keepalive, take its result or notice that its context is over |
| Delivery.HostReadsTheSchedule | fidohid/fidohid.go:449-482 | whatever the interleaving of threads and packets, a host reads exactly the messages that the schedule sent, in that order, and at most one more whose call is just ending, while injections succeed and handlers return at most 7608 bytes |
| Delivery.PingComesBack | fidohid/fidohid.go:369-370 | end to end: a ping transferred amid any noise is read by the host once the loop has sent again |
| Provenance.CollectingIsFaithful | fidohid/fidohid.go:266-318 | a message in progress is the cut of one initialization packet and its continuations 0, 1, 2, … since then |
| Provenance.DispatchProvenance | fidohid/fidohid.go:280-323 | every dispatched message has that provenance, ends with the dispatching packet, and never mixes two beginnings |
| Isolation.DispatchedHasProvenance | fidohid/fidohid.go:280-323 | the same for every dispatch of every schedule |
| Provenance.DispatchCount | fidohid/fidohid.go:266-323 | exactly how often one initialization packet leads to a dispatch, and with which message |
| Isolation.DispatchesPerMessage | fidohid/fidohid.go:266-323 | the same count for the whole device from any reachable state |
| Isolation.ShortMessageTwice | fidohid/fidohid.go:266-323 | a run from the start that dispatches a one-byte ping twice |
| Isolation.WhoCancels | fidohid/fidohid.go:249-264 | in every reachable state a step ends a transaction's context exactly when it is its time-out or its end, or when the transaction holds the slot of its channel and the step is an interrupting packet or staleness of that channel, or `Close` |
| Isolation.InitHandshake | fidohid/fidohid.go:326-361 | an INIT on the broadcast channel, with any steps of other threads between its critical sections, leads to a channel stored afresh under a valid identifier, unused when drawn at random, no other channel is touched, and the answer reads as the client's nonce, that identifier, the versions and the capabilities |
| Isolation.ResyncHandshake | fidohid/fidohid.go:326-361 | the same for an INIT on any other channel, which is stored afresh and answered on itself |
| Bookkeeping.EntryMoves | fidohid/fidohid.go:239-541 | in every reachable state each step moves the last use and the cancel slot of each channel as the events say: who takes, keeps and empties the slot, what counts as use, and when the channel goes |
| Bookkeeping.ReportsAreAnswered | fidohid/fidohid.go:225-378 | in every reachable state a report is refused for exactly the listed reasons with these error codes, and then nothing else changes; otherwise it begins an INIT, completes a message that is answered at once or starts a transaction, or is not answered |
| Transactions.TransactionProtocol | fidohid/fidohid.go:380-447 | each transaction stems from one dispatched CBOR message and sends, on its channel only, keepalives and then at most one answer: an error to an empty command, else the status and the response that its handler returned, in this order |
| Transactions.TakenIsSent | fidohid/fidohid.go:419-433 | a transaction that takes its result and is scheduled to send has answered with what its handler returned |
| Transactions.EveryTransactionCanFinish | fidohid/fidohid.go:380-447 | no transaction is ever stuck: its remaining steps can be taken one after the other, and then it is finished |
| Transactions.AnswersAreDistinct | fidohid/fidohid.go:419-433 | no CBOR command is answered twice |
| Transactions.TranscriptAdvances | fidohid/fidohid.go:419-446 | each event of a transaction extends its transcript as its phase allows |
| OutputLock.OutputIsAtomic | fidohid/fidohid.go:449-482 | in every interleaving of senders, failing injections included, the log is a sequence of contiguous pieces, one per finished call in lock order, then what the only holder of the lock has sent |
| OutputLock.CallsEnd | fidohid/fidohid.go:449-482 | a call ends with its last packet or with the first that cannot be injected, and then frees the lock |
| OutputLock.HostReadsWhatWasSent | fidohid/fidohid.go:449-482 | while injections succeed a host reads exactly the messages sent, in lock order |
| OutputLock.CallsAreAccountedFor | fidohid/fidohid.go:449-482 | each caller's finished messages and the one in progress are its calls in order: none lost, none repeated |
| Credentials.PutRefines | ctap2/storage.go:140-156 | saving refines putting into an insertion-ordered map: in place for a known user, at the end for a new one |
| Credentials.RemoveRefines | ctap2/storage.go:202-209 | deleting refines removing by credential identifier, keeping the order |
| Storage.CredentialStorage.Open | ctap2/storage.go:35-85 | opening fails exactly when the directory or the file cannot be made private, and loads a complete readable file and ignores any other |
| Storage.OperationHoldsPrefixes | ctap2/storage.go:87-122 | one more operation keeps the invariant of the store that every state of the directory since it was opened holds the original file or the complete list after some of the operations |
| StorageRuns.StopLeavesPrefix | ctap2/storage.go:87-122 | a stop at any point of any run leaves a file from which a reopened store enumerates the map after some of the operations |
| Storage.CredentialStorage.RebuildIndexes | ctap2/storage.go:124-133 | the indexes are the filtered list per relying party and the last credential per identifier |
| Storage.CredentialStorage.Persist | ctap2/storage.go:87-122 | whichever step fails, and in every state in between, the file is the old one or the complete new list; no temporary file stays |
| Storage.CredentialStorage.Save | ctap2/storage.go:135-166 | list, indexes, file, report and every state of the directory in between |
| Storage.CredentialStorage.Delete | ctap2/storage.go:192-220 | the same for deleting; nothing is written when there is nothing to delete |
| Storage.CredentialStorage.GetByRPID | ctap2/storage.go:168-182 | the credentials of a relying party in list order |
| Storage.CredentialStorage.GetByCredentialID | ctap2/storage.go:184-190 | the last credential with the identifier |
| StorageRuns.RunRefines | ctap2/storage.go:135-220 | every run of saves and deletes refines the insertion-ordered map, whatever the disk does |
| StorageRuns.NoKeyRepeats | ctap2/storage.go:140-156 | no user of a relying party is listed twice |
| StorageRuns.FileIsLastWritten | ctap2/storage.go:158-165 | the file holds the complete list as of the last operation that wrote it |
| StorageRuns.SuccessMeansWritten | ctap2/storage.go:197-220 | when exactly a reported success means that the file holds the list |
| StorageRuns.SuccessfulDeleteForgets | ctap2/storage.go:197-220 | when exactly a successful delete is forgotten by a reopened store |
| StorageRuns.RetriedDeleteIsLost | ctap2/storage.go:197-220 | a run in which a retried delete reports success and the credential stays in the file |
| StorageRuns.FileHoldsLastSuccess | ctap2/storage.go:158-220 | after any run the file holds the list as of the last reported success if and only if the list had not changed since the last write |
| StorageRuns.InStepWithHarmlessDeletes | ctap2/storage.go:158-220 | the file equals the list of the last operation that reported success when every delete of an absent credential follows a success |
| StorageRuns.ReopenedIsLastWritten | ctap2/storage.go:68-85 | a reopened store enumerates the map as of the last write |
| Handler.Handler.constructor | ctap2/ctap2.go:45-67 | the allow list is the set of the given identifiers |
| Handler.Handler.HandleCommand | ctap2/ctap2.go:77-94 | the object answers each command and changes store and session as specified |
| Handler.Handler.HandleGetNextAssertion | ctap2/ctap2.go:137-161 | the cursor is advanced first, and the session dropped at the end |
| Handler.Handler.GetAssertion | ctap2/getassertion.go:12-142 | refusals, clearing, matching, presence, session and response in the order of the source |
| Handler.Handler.Discover | ctap2/getassertion.go:59-91 | the stored credentials of the relying party that the signer accepts, in order |
| Handler.Handler.MakeCredential | ctap2/makecredential.go:13-182 | refusals, the question to the user, key, store and attestation in the order of the source; a failing disk is ignored, and the attested key is encoded from the padded coordinates |
| Handler.Handler.ConfirmPresence | ctap2/getassertion.go:94-127 | the pair handed to the presence check is the client data hash and the hash of the relying party |
| HandlerRuns.Enumeration | ctap2/ctap2.go:139-161 | after a discovery of c1…ck the first answer names c1 and its user, gives k if there are several, and is signed by its key over data that reads with the signer's counter; the n-th GetNextAssertion does the same for c(n+1), later ones are refused, whatever neutral commands come between |
| Decisions.RefusalsAreExact | ctap2/ctap2.go:77-161 | every command is refused for exactly the listed reasons, in this order and with these status codes, and is otherwise answered by what was asked for |
| Decisions.AskedIff | ctap2/getassertion.go:12-103 | the user is asked if and only if no earlier check stands in the way, about exactly this client data and relying party |
| Decisions.AllowListAnswer | ctap2/getassertion.go:38-58 | with an allow list the first usable entry signs, and the answer names no user and no number of matches |
| HandlerRuns.OnlyNeutralKeepsSessions | ctap2/getassertion.go:15-24 | which commands leave every session alone |
| HandlerRuns.OldSessionsDoNotMatter | ctap2/getassertion.go:23-24 | once a run has had a GetAssertion that passes the first two checks, its outcome does not depend on the session it started with |
| HandlerRuns.SessionOkAlways | ctap2/getassertion.go:129-138 | a session has at least two credentials of one allowed relying party and an index in range |
| HandlerRuns.EveryAssertionIsConfirmed | ctap2/getassertion.go:94-141 | every assertion of every run signs authenticator data, readable with the relying party's hash and the counter, and client data of the last opening command; the user was asked exactly these and agreed in time |
| Authority.AssertionRestsOnVerdict | ctap2/getassertion.go:94-141 | with handler and presence service together, every assertion rests on a request for the very pair that it signs, whose own verifier ended with success |
| Authority.AttestationRestsOnVerdict | ctap2/makecredential.go:58-87 | the same for every attestation |
| HandlerRuns.ConfirmationIsBounded | ctap2/getassertion.go:129-141 | one confirmation covers no more assertions than matched credentials |
| Discovery.StoreHoldsRegistered | ctap2/makecredential.go:105-122 | after any run the list is that of the registrations, even when disk writes failed |
| Discovery.RegisteredByRequests | ctap2/makecredential.go:105-122 | each credential handed to the store stems from a request of the run that nothing stood against, and has its relying party, user and names, and the handle, coordinates and time of the new key |
| Discovery.RegistrationToEnumeration | ctap2/getassertion.go:66-91 | from an empty store a discovery finds the latest credential of each registered user for whom it is usable, and nothing else, each once and in the order of first registration |
| Discovery.RegisteredIsDiscovered | ctap2/makecredential.go:105-122 | an attested resident credential is discovered from then on, as its request described it, until its user registers again |
| HandlerRuns.RegistrationIsConfirmed | ctap2/makecredential.go:13-182 | every attestation is for an allowed relying party and ES256, was asked for and confirmed in time, excludes no usable credential, carries readable data with the coordinates of the new key and that key's signature; a requested resident credential is stored as the request describes it, with the same coordinates |
| HandlerRuns.CoordinatesOf | ctap2/makecredential.go:105-130 | sent and stored coordinates of a key are the same bytes if and only if both numbers are below 2^256 |
| AuthData.Marshal | ctap2/authenticatordata.go:26-62 | the buffer holds the layout of section 6.1 of WebAuthn Level 2 |
| AuthData.OptionalParts | ctap2/authenticatordata.go:40-59 | attested data and extensions are there exactly when their flag is set and there is something to write |
| AuthData.MarshalRoundTrip | ctap2/authenticatordata.go:26-62 | the layout can be read back if and only if the credential identifier has at most 65535 bytes |
| AuthData.PadTo32 | ctap2/authenticatordata.go:96-104 | left-padding in a 32-byte array, or the first 32 bytes |
| AuthData.BigIntToBytes | ctap2/makecredential.go:193-203 | left-padding in a 32-byte array, or all bytes |
| AuthData.CoordinatesAgree | ctap2/makecredential.go:193-203 | both agree, on 32 bytes that decode to the number, if and only if it is below 2^256 |
| AuthData.CoordinateValue | ctap2/authenticatordata.go:96-104 | the stored bytes decode to the number whatever its size, and of a larger one the 32 leading bytes are sent |
| Codec.Encoder.Encode | internal/lencode/lencode.go:52-86 | one call writes one record, or part of one on a full writer, and latches the first error |
| Codec.Decoder.ReadMessagePrefix | internal/lencode/lencode.go:169-195 | separator and length are read once per message; errors are latched |
| Codec.Decoder.DecodeMessage | internal/lencode/lencode.go:113-126 | one call reads one message or latches an error |
| Codec.Decoder.DecodeIntoBuffer | internal/lencode/lencode.go:128-153 | reading into a slice of any length and capacity: rejected when longer than the message, out of range when it cannot be extended to it, else filled and otherwise untouched |
| Codec.Decoder.NextLength | internal/lencode/lencode.go:155-167 | the length of the next message without consuming it |
| Lencode.EncodeWritesRecords | internal/lencode/lencode.go:54-73 | a sequence of calls writes exactly the records before the first message that is too long |
| Lencode.LimitedWriterCuts | internal/lencode/lencode.go:74-86 | on a writer that takes only so many bytes, calls leave the front of what they would have written and report a failed write exactly when that is not all |
| Lencode.NextLenIsTransparent | internal/lencode/lencode.go:156-167 | calls of NextLen change no result of the calls of Decode around them |
| Lencode.NextLenAnnounces | internal/lencode/lencode.go:155-167 | the reported length is that of the message which the next Decode reads |
| Lencode.DecodeOutcome | internal/lencode/lencode.go:113-195 | what a fresh decoder makes of its bytes, with the error for each kind of failure |
| Lencode.OneErrorForever | internal/lencode/lencode.go:169-172 | whatever calls follow an error, each reports that error again |
| Lencode.TruncatedRoundTrip | internal/lencode/lencode.go:114-195 | every prefix of a stream reads as its whole records, then EOF exactly at a record boundary and an unexpected EOF otherwise, for every separator |
| Lencode.ReadsIffStream | internal/lencode/lencode.go:114-195 | bytes read as a list and a clean end if and only if they are the stream of that list |
| KeyHandle.BuildHandle | tpm/tpm.go:134-139 | the handle is the encoding of the fields before the first one that is too long |
| KeyHandle.ParseHandle | tpm/tpm.go:173-195 | three decodes and a clean end |
| KeyHandle.AcceptedIffEncoding | tpm/tpm.go:173-195 | a byte string passes if and only if it is the encoding of a triple, and of one only |
| KeyHandle.BuiltIsAccepted | tpm/tpm.go:134-139 | a built handle is accepted, with its own fields, if and only if no field is longer than 255 bytes |
| Presence.Always | userpresence/userpresence.go:135-168 | the slot names the one live prompt, channels pair a prompt with the caller of its own request, results are verdicts |
| Presence.SingleFlight | userpresence/userpresence.go:135-155 | at most one prompt is live, the slot is taken exactly meanwhile, and a request is accepted exactly when none is |
| Presence.ResultIsOwn | userpresence/userpresence.go:157-204 | a result that reaches a caller is what the verifier of its own request ended with, and no other; the request was made with the caller's challenge and application while none was active |
| Presence.PromptsGoOn | userpresence/userpresence.go:157-204 | whoever holds the slot can always go on until the slot is free, and a waiting caller can be given the result |
| Presence.AtMostOneDelivery | userpresence/userpresence.go:158-168 | a prompt delivers at most one result |
| Presence.UserPresence.ConfirmPresence | userpresence/userpresence.go:134-155 | the call under the lock |
| Presence.UserPresence.FreeSlot | userpresence/userpresence.go:165-167 | freeing the slot unconditionally frees the prompt's own request |
| RpIds.CheckRPID | main.go:358-376 | the loop decides the rule for host names |
| RpIds.AddressesAreHostNames | main.go:362-375 | IP addresses without colons are host names by that rule |
| RpIds.AcceptedNames | main.go:358-376 | which names are accepted, read off their characters: letters, digits, hyphens and dots, letters or digits at both ends and around dots, no 64 in a row without a dot, at most 253 |
| RpIds.NormalIsMeant | main.go:335-345 | what a value means: the part between the white space around it, in lower case |
| RpIds.ConfiguredRPIDs | main.go:335-356 | nothing if a non-blank value is invalid, else the strictly sorted list of the trimmed, lower-case, non-blank values |
| RpIds.ConfigurationIsCanonical | main.go:335-356 | the outcome depends on the set of identifiers meant only |
| RpIds.ConfigurationIsStable | main.go:335-356 | joining a result with commas and reading it as the environment gives it back |

## Left out

- uhid, TPM, fprintd, notify-send, sysfs and tray calls, installer scripts and the authentik blueprint: foreign code. Injection is a log that may refuse a packet, and the answers of signer, verifier, clock and disk are inputs.
- CBOR, JSON, SHA-256, ECDSA and HKDF: library code. Undecodable requests are a case of their own; file contents are credential lists, complete or torn.
- HidDevice.Device.AllocateCID: works on a finite list of candidates; that random retries end is not modelled.
- HidSystem.Reachable: does not say that a running transaction can always be cancelled, because a finishing transaction clears the slot of its channel whoever holds it.
- Isolation.NonInterference: an identifier drawn from the clock is not compared with the channels in use; such a draw counts as an input of the channel it hits.
- Framing.ReadInitPacket: is stated for reports with the 0x00 prefix; an unprefixed report on a channel whose first byte is zero loses that byte, as in the code.
- OutputLock.HostReadsWhatWasSent: is about whole messages in the order of the lock; how long a caller waits for it is not modelled.
- Storage.CredentialStorage.Persist: takes renaming as atomic; durability across a power failure is not modelled, since the directory is not synced.
- Authority.AssertionRestsOnVerdict: takes as given which call of the presence service each command made and that the handler heard what that caller got; the wait of 30 seconds is part of the answer.
- Codec.ByteReader.ReadFull: has no read errors other than the end of the bytes.
- Handler.Handler.HandleCommand: commands are taken one at a time; the handler has no lock, and simultaneous commands race on the assertion state.
- RpIds.ConfigurationIsStable: white space and case folding are parameters that leave host-name characters alone; lengths count characters, which for every accepted name are bytes.
- `credentialStoragePath`, `GetInfo`, the tray and USB monitor closures, the memory backend, COSE map literals and status constants that no modelled command returns: few states or constants only.
- `hostUIDMapped` and the checks of executables in userpresence: one loop over text.
