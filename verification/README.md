# A verified model of the PQC chart tool's protocol stack

The tool lets two peers agree on a session key with a two-way ML-KEM handshake, prove
their long-term identity to each other under that key, and chat over the resulting
channel. Messages travel in packets of at most 1400 bytes and are put together again in a
buffer that every connection of a server shares. This project models that stack in Dafny,
bottom up, and proves what it promises.

| file | what it models |
|---|---|
| `Basics.dfy`, `Runs.dfy` | bytes, network-order integers, results; runs of a step function |
| `Messages.dfy`, `MessageWriter.dfy` | the six message formats: decoders, and encoders writing into a preallocated buffer |
| `Fragment.dfy` | fragment headers, cutting a message, the sender, an in-memory transport |
| `Reassembly.dfy`, `Receivers.dfy` | the shared fragment buffer: its atomic step, the receiver loop, the purge; what one connection's receiver hears while others take turns |
| `PurgeTiming.dfy` | when purges run and what they leave |
| `SharedBuffer.dfy`, `ReassemblySafety.dfy` | non-interference, and safety of every message |
| `Gathering.dfy`, `ExactlyOnce.dfy`, `ManyMessages.dfy`, `FifoDelivery.dfy` | how often a message is delivered: exact conditions, one message and all of them; in-order delivery |
| `Crypto.dfy` | the primitives as abstract functions, their laws, and an instance that satisfies them |
| `HashExpansion.dfy` | the SHA-256 chain behind id hashes |
| `Handshake.dfy`, `HandshakeProofs.dfy` | the handshake object, its invariant, matching conversations |
| `ReplayCache.dfy` | the nonce cache and the history it agrees with |
| `Identity.dfy` | the identity exchange under any order of calls |
| `Driver.dfy`, `FullDriver.dfy`, `DriverGates.dfy` | the two drivers: phase 1, phase 2; when they return a channel and how else they end, from the primitives alone |
| `DriverProofs.dfy`, `HonestRun.dfy` | two drivers against each other: phase 1 agrees, phase 2 never completes |

## How to read it

Objects that the program updates in place are classes. Each of their methods is proved
equal to a pure step function (`Process`, `HandleAgree`, `Check`, ...); the properties over
whole runs are then lemmas about that function, by induction over the sequence of calls or
packets. Random values, clock readings and the order in which Go walks a map are inputs or
nondeterministic choices. A Go panic is one more error value, and the invariants show which
panics cannot happen.

What the step functions compute is stated a second time without naming them: wire formats
and headers byte by byte, keys, id hashes and signed messages in terms of the primitives,
limits and flags as numbers. These statements carry the rest; `DriverGates.dfy` puts them
together for the whole drivers.

Concurrency is interleaving: a run of the shared buffer is a sequence of atomic steps of
any receivers. The receiver loop itself, and so each driver method, lets other receivers
take any number of turns on any packets before each of its own (`OtherTurns`), and the
theorems speak of the steps of one connection among all the others. What is said of one
message assumes nothing about the packets of any other.

The cryptographic primitives are fields of `Crypto.Suite`; what is assumed of them is in
the predicates beside it (`IdealKem`: sections 7.2 and 7.3 of FIPS 203 without decapsulation
failure; `IdealHashes`: section 2.3 of RFC 5869 and the size of SHA-256; `IdealAead`: section
7 of NIST SP 800-38D; `IdealSignatures`: sections 5.1.5 to 5.1.7 of RFC 8032, for private
keys whose public half belongs to their seed), and every theorem names those it needs.
`Crypto.ToyIsIdeal` exhibits a suite that satisfies all of them, so nothing is proved from a
contradiction.

Results that turned out to need a condition, or not to hold:

- A message survives cutting and reassembly exactly when its true number of pieces fits in
  the header's 16 bits (`FragmentationExact`, `SendThenReceive`); a field survives encoding
  exactly when its length does (`RoundTripExact`).
- Without purges a message is delivered exactly once and leaves nothing behind if and only
  if all its packets arrive and none arrives after it is complete (`OnceIffCompleteInTime`,
  and for all messages together `ExactlyOnceExactly`). A late duplicate opens a new entry
  (`LateDuplicateReopensEntry`); the buffer has forgotten the message, so enough late
  duplicates complete that entry, and the message is delivered a second time
  (`DeliveredAgain`, `RepeatedRunDeliversAgain`).
- With purges and duplicates at will, a message is delivered at all if and only if at some
  moment all its packets had arrived since it was last purged (`DeliveredIffTogether`). When
  each packet arrives exactly once, it is delivered once if and only if no purge meets the
  message begun and incomplete, and never otherwise (`DeliveredUnlessPurged`).
  `PurgedInFlight` is a run of the program's own purge that loses a message. As long as
  packets of at most 100 messages reach the buffer, no purge removes anything
  (`FewMessagesNeverPurged`).
- `HandleRequest` replaces the keypair before it can fail. A rejected request between agree
  and finish leaves both sides established with different keys
  (`RejectedRequestSwapsKeypair`, in every suite by `BrokenRunExists`; the keys differ in
  `BrokenConversationDisagrees`): in every run the second
  secret is what the keypair generated last decapsulates (`EstablishedSecret`). Agreement
  holds for conversations that no such call interrupts (`MatchingConversations`).
- If key generation failed while a reply is awaited, the keypair would be gone; the
  handshake invariant survives such a failure exactly in the other states
  (`FailedKeyGeneration`).
- The README of the tool promises that two honest peers verify each other. The code never
  gets there: two honest drivers joined by a connection that loses nothing agree on the key
  and then both end with an error, whatever they draw at random (`HonestDriversFail`; such
  runs exist, `HonestRunExists`). The identity message is sent without a fragment header and
  is misread as one (`IdentityPacketIsMisread`). The responder gets past it if and only if
  the nonce begins with the number 1 and the last 50 bytes open to something with the
  expected hash, which is then too short to be a key (`IdentityStep`, `ResponderFails`).
  Moreover the two sides never sign and check the same message, in neither direction
  (`SignedIsNotChecked`). At the level of the methods the exchange does work
  (`ChallengeResponseAccepted`).

## Model

| member | source | states |
|---|---|---|
| Messages.FieldsAtExact | pkg/protocol/messages.go:62-80 | walking a sequence of length-prefixed fields by offset finds exactly the fields whose encodings stand there, each with a length that fits 16 bits |
| Messages.DecodeRequestExact | pkg/protocol/messages.go:53-86 | the request decoder returns m exactly on inputs that start with the encoding of a request m with 16-bit lengths; every read is in range |
| Messages.DecodeAgreeExact | pkg/protocol/messages.go:118-162 | the same equivalence for the three-field agree decoder |
| Messages.DecodeExact | pkg/protocol/messages.go:53-327 | the same equivalence for all six decoders at once |
| Messages.RoundTripExact | pkg/protocol/messages.go:29-327 | decoding an encoding followed by anything gives the message back if and only if its fields fit in 16-bit lengths |
| Messages.PrefixFree | pkg/protocol/messages.go:29-327 | no valid encoding is a prefix of another, within or across the six formats |
| Messages.DecoderSoundness | pkg/protocol/messages.go:53-327 | an accepted input starts with the re-encoding of the result, and at most one decoder accepts it |
| Messages.TruncationRejected | pkg/protocol/messages.go:54-78 | every proper prefix of a valid encoding is rejected, and as too short rather than as a wrong flag |
| Messages.EncodeLength | pkg/protocol/messages.go:31-31 | the total length of an encoding from its fields |
| Messages.WireFormat | pkg/protocol/messages.go:10-304 | all six formats byte by byte: the flag as a number, two bytes of length with the high one first, the field, in order, and nothing else |
| Messages.RefusalsExactly | pkg/protocol/messages.go:54-327 | a decoder says too short exactly below three bytes, and wrong flag exactly on another first byte |
| Messages.ShortFieldsExactly | pkg/protocol/messages.go:62-327 | and names the field whose length points beyond the end |
| MessageWriter.ByteBuffer.Append | pkg/protocol/messages.go:36-41 | appending inside the capacity adds exactly these bytes after the contents |
| MessageWriter.ByteBuffer.PutU16At | pkg/protocol/messages.go:35-47 | a 16-bit write beyond the length but inside the capacity leaves the contents alone; one inside the length replaces two bytes |
| MessageWriter.BothPatches | pkg/protocol/messages.go:43-47 | patching the two lengths into the buffer of zeros and fields yields the plain encoding |
| MessageWriter.SerializeRequest | pkg/protocol/messages.go:29-50 | the encoder that writes past its length and patches afterwards stays inside the computed capacity and returns flag, length, key, length, suite |
| MessageWriter.SerializeAgree | pkg/protocol/messages.go:97-115 | the append-then-patch encoder returns the plain concatenation of its three fields |
| MessageWriter.SerializeOne | pkg/protocol/messages.go:171-304 | the one-field encoders return flag and length-prefixed field |
| MessageWriter.Serialize | pkg/protocol/messages.go:29-304 | every encoder produces the format's plain concatenation |
| Fragment.MarshalBinary | pkg/protocol/fragment.go:23-31 | the 13-byte buffer filled in place equals the header's fields in network order |
| Fragment.UnmarshalMarshal | pkg/protocol/fragment.go:23-44 | a header followed by any payload is read back, and so is the payload |
| Fragment.HeaderBijection | pkg/protocol/fragment.go:23-44 | headers and 13-byte strings correspond one to one in both directions |
| Fragment.HeaderLayout | pkg/protocol/fragment.go:23-31 | the header byte by byte: flag, index, total, message length, message id, high bytes first |
| Fragment.HeaderNeeds13 | pkg/protocol/fragment.go:34-36 | exactly the inputs below 13 bytes have no header |
| Fragment.WholePacket | pkg/protocol/fragment.go:65-77 | a message within the limit goes out in one packet, numbered 0 of 1, with its length in 32 bits |
| Fragment.CeilDivLeast | pkg/protocol/fragment.go:81-81 | the quotient is the least k with k * max >= n |
| Fragment.ChunkSizes | pkg/protocol/fragment.go:82-88 | every piece is nonempty and at most max bytes, and all but the last are exactly max |
| Fragment.CutIsPrefix | pkg/protocol/fragment.go:82-88 | the first k pieces concatenate to the first k * max bytes |
| Fragment.FragmentationExact | pkg/protocol/fragment.go:65-105 | the pieces concatenate to the message if and only if the true count fits in 16 bits, and then the count is the ceiling |
| Fragment.OverlongCut | pkg/protocol/fragment.go:80-107 | a message of 65536 * q + r pieces, q at least 1, goes out as its first r pieces only |
| Fragment.PacketParts | pkg/protocol/fragment.go:82-102 | the slice of the i-th piece is in range, and with its header it is the i-th packet |
| Fragment.SendFragmented | pkg/protocol/fragment.go:53-108 | a too small limit sends nothing; otherwise exactly the message's packets are sent in order, up to the first send that fails, and the result says whether all were; the 16-bit counter never wraps |
| Fragment.Transport.Send | pkg/protocol/fragment.go:46-50 | a send appends one packet or fails and changes nothing |
| Fragment.Transport.Recv | pkg/protocol/fragment.go:46-50 | a receive takes the next packet in order or fails when none is left |
| Reassembly.FragmentBuffer.constructor | pkg/protocol/fragment.go:119-125 | a new buffer is empty and counts its timeout from now |
| Reassembly.FragmentBuffer.Cleanup | pkg/protocol/fragment.go:188-199 | nothing is removed from 100 entries or fewer; otherwise, in whatever order the map is walked, exactly 49 of the old entries remain unchanged |
| Reassembly.FragmentBuffer.Reassemble | pkg/protocol/fragment.go:171-174 | the loop appends the stored payloads in index order |
| Reassembly.FragmentBuffer.Store | pkg/protocol/fragment.go:160-183 | storing touches one entry, which is delivered and removed when its size reaches the total |
| Reassembly.FragmentBuffer.Turn | pkg/protocol/fragment.go:135-183 | one pass of the loop is one atomic step, and purges exactly when the timeout has passed and the packet takes the lock |
| Reassembly.FragmentBuffer.ReceiveFragmented | pkg/protocol/fragment.go:128-185 | while other receivers take turns in between, the loop takes the arrivals of its inbox in order, each in one atomic step with its own clock readings, stops at the first that does not merely store, and returns that answer |
| Reassembly.FragmentBuffer.OtherTurns | cmd/pqc-chart-tool/main.go:679-687 | any number of turns of other receivers, on any packets and clock readings, continue the run and leave this receiver's part of it as it is |
| Reassembly.TurnsPurgeOnlyCrowds | pkg/protocol/fragment.go:154-158 | whatever the clock says, a purge that removes anything met more than 100 entries |
| Reassembly.InsertExactly | pkg/protocol/fragment.go:165-180 | a fragment delivers exactly when the number stored is the total, or 65536 are stored and the total is 0 |
| Reassembly.JoinExactly | pkg/protocol/fragment.go:170-174 | what is delivered is the stored payloads at 0, 1, ..., total - 1 in order, an absent one counting as empty |
| Reassembly.ShortPacketRefused | pkg/protocol/fragment.go:141-143 | exactly the packets below 13 bytes are refused, and they change nothing |
| Reassembly.ShortPacketEndsCall | pkg/protocol/fragment.go:141-143 | a call returns that error exactly when such a packet is the one that ended it |
| Reassembly.WholeMessageReturned | pkg/protocol/fragment.go:146-149 | a packet that is all of its message is returned at once on any buffer |
| PurgeTiming.FirstPurgeWaits | pkg/protocol/fragment.go:155-158 | over every run, a purge that removes anything runs more than the timeout after the buffer was made |
| PurgeTiming.PurgesFarApart | pkg/protocol/fragment.go:155-158 | with a clock that never goes back, two purges that remove something are more than the timeout apart, from the end of the one to the check before the other |
| PurgeTiming.PurgeComes | pkg/protocol/fragment.go:155-158 | with more than 100 entries, a packet that takes the lock more than the timeout after every earlier turn runs a purge that removes something |
| PurgeTiming.PurgeLeaves49 | pkg/protocol/fragment.go:188-199 | such a purge met more than 100 entries, removes only entries, and leaves 49 |
| SharedBuffer.ProcessEntry | pkg/protocol/fragment.go:152-183 | a step changes the entry of a message only through a purge or through a fragment of that message |
| SharedBuffer.SharedRefinesPrivate | pkg/protocol/fragment.go:152-183 | over every run of any packets by any receivers, each message's entry and the answers to its fragments are those of a private buffer fed with that message's fragments and purges only |
| SharedBuffer.NonInterference | cmd/pqc-chart-tool/main.go:679-687 | two runs that agree on one message's own fragments and purges give it the same answers, whatever the other connections do |
| Gathering.Pigeonhole | pkg/protocol/fragment.go:169-169 | n distinct indices below n are all of them, so the size alone decides completion |
| ReassemblySafety.InsertIsSafe | pkg/protocol/fragment.go:165-180 | a true fragment keeps the entry a proper part of the message or delivers its exact flag and bytes |
| ReassemblySafety.SendingIsWellCut | pkg/protocol/fragment.go:81-105 | what the sender makes of a message meets the premise of the safety theorems if and only if its count fits in 16 bits |
| ReassemblySafety.MessageSafety | pkg/protocol/fragment.go:128-199 | over every run, with nothing assumed about the packets of any other message, the answers to a message's own genuine packets are "stored" or its exact flag and bytes |
| ReassemblySafety.RunIsSafe | pkg/protocol/fragment.go:128-199 | over every run of authentic packets, every entry is a proper subset of the true fragments of a known message |
| ReassemblySafety.ReassemblySafety | pkg/protocol/fragment.go:128-199 | dropped, duplicated, reordered, interleaved and purged at will, authentic packets never make the buffer return anything but the exact flag and bytes of the packet's own message, sent on the receiver's own connection |
| ExactlyOnce.EntryFollows | pkg/protocol/fragment.go:152-183 | over every run the entry of a message holds exactly what the arrivals and purges of that one message say |
| ExactlyOnce.AnswersFollow | pkg/protocol/fragment.go:165-183 | and each of its packets is answered accordingly, with the exact flag and bytes when it delivers |
| ExactlyOnce.DeliveredIffTogether | pkg/protocol/fragment.go:160-199 | under any losses, repetitions and purges a message is delivered if and only if at some moment all its pieces had arrived since it was last purged |
| ExactlyOnce.OnceIffCompleteInTime | pkg/protocol/fragment.go:160-183 | a message that is never purged is delivered exactly once and leaves nothing behind if and only if all its pieces arrive and none arrives once it is complete |
| ExactlyOnce.EntryTracksArrivals | pkg/protocol/fragment.go:160-181 | without purges and late pieces the entry holds exactly the pieces that have arrived, and nothing once complete; by then the message has been delivered once, before that never |
| ExactlyOnce.DeliveredAtLastMissing | pkg/protocol/fragment.go:169-180 | a message is delivered by the packet that supplies its last missing piece and by no other |
| ExactlyOnce.EarlyDuplicateIsIdempotent | pkg/protocol/fragment.go:166-166 | a duplicate before completion changes nothing |
| ExactlyOnce.LateDuplicateReopensEntry | pkg/protocol/fragment.go:161-183 | a fragment that arrives after delivery opens a new entry with just that fragment |
| ExactlyOnce.DeliveredAgain | pkg/protocol/fragment.go:161-183 | once the entry is gone the packets that follow are counted as if none had arrived before, so a second complete set delivers the message again |
| ExactlyOnce.DeliveredUnlessPurged | pkg/protocol/fragment.go:154-199 | when each packet of a message arrives exactly once it is delivered, once, if and only if no purge meets it begun and incomplete; otherwise never |
| ExactlyOnce.DistinctNeverLate | pkg/protocol/fragment.go:160-181 | packets that never repeat cannot arrive after their message is complete |
| ManyMessages.NeverEmptySlots | pkg/protocol/fragment.go:161-180 | no run leaves an entry without fragments behind |
| ManyMessages.ExactlyOnceExactly | pkg/protocol/fragment.go:128-185 | in any interleaving of any number of messages without purges, every message is delivered exactly once and the buffer ends empty if and only if all their pieces arrive and none arrives late |
| ManyMessages.EmptyWhenNothingPending | pkg/protocol/fragment.go:177-177 | without late duplicates the buffer is empty if and only if every message that has begun to arrive is complete |
| ManyMessages.CompleteWhenAllArrive | pkg/protocol/fragment.go:169-169 | a message is complete if and only if each of its packets has arrived on its connection |
| ManyMessages.ExactlyOnceDelivery | pkg/protocol/fragment.go:160-181 | when every packet of every message arrives exactly once, in any interleaving, every message is delivered exactly once and the buffer ends empty |
| ManyMessages.FewMessagesNeverPurged | pkg/protocol/fragment.go:154-199 | as long as packets of at most 100 message ids reach the buffer, forged ones included, no purge removes anything |
| ManyMessages.FewMessagesExactlyOnce | pkg/protocol/fragment.go:128-199 | so with at most 100 messages the exact condition for exactly-once delivery assumes nothing about purges |
| ManyMessages.RepeatedRunDeliversAgain | pkg/protocol/fragment.go:160-181 | a run that leaves the buffer empty, repeated, gets the same answers again, delivers every message as often again and leaves the buffer empty again |
| ManyMessages.PurgedInFlight | pkg/protocol/fragment.go:128-199 | a failing run for every message of several packets on a buffer of 100 other entries: with a clock and a walk order the code permits, one receive consumes all its packets, in order and once each, and the message is never delivered |
| Receivers.KeepsOneMore | pkg/protocol/fragment.go:128-185 | calls of ReceiveFragmented one after the other, with others' turns anywhere between, return the answers that end their loops, in order, and nothing else until the connection is exhausted |
| Receivers.KeepsAttends | pkg/protocol/fragment.go:154-158 | and so they do when of the clock only the purges' need of a crowd is kept, the form the theorems below start from |
| FifoDelivery.EntryOfRead | pkg/protocol/fragment.go:160-180 | while a message is read in order, its entry holds exactly its first pieces, whatever other receivers do that does not touch that entry |
| FifoDelivery.HearsInOrder | pkg/protocol/fragment.go:128-185 | on an in-order connection the calls return exactly the messages sent, one after the other, while other receivers use the buffer at will; only messages of several packets need, until they are read, that nobody else stores under their id and no purge removes what is stored there |
| FifoDelivery.HearsNoMore | pkg/protocol/fragment.go:136-139 | when nothing else was sent, all further calls find the connection closed |
| FifoDelivery.FewMessagesUndisturbed | pkg/protocol/fragment.go:154-199 | with packets of at most 100 messages reaching the buffer, only another use of its id can disturb a message |
| FifoDelivery.ReceivesMessage | pkg/protocol/fragment.go:128-185 | used alone, one call consumes exactly the packets of the next message, returns it, and restores the buffer; a message of one packet needs nothing, a longer one at most 99 other entries |
| FifoDelivery.SendThenReceive | pkg/protocol/fragment.go:53-185 | sending then receiving gives the message back if and only if its true number of pieces fits in 16 bits; one packet needs no condition on the buffer |
| HashExpansion.Shake256 | pkg/crypto/kdf.go:42-74 | both branches return the first n bytes of one fixed stream |
| HashExpansion.OutputsArePrefixes | pkg/crypto/kdf.go:42-74 | shorter outputs are prefixes of longer ones, across the 32-byte branch too |
| HashExpansion.ByteOfStream | pkg/crypto/kdf.go:56-71 | byte i of the output is byte i mod 32 of the block hashed i / 32 + 1 times |
| HashExpansion.OutputsExactly | pkg/crypto/kdf.go:42-74 | every output from the hash alone: up to 32 bytes of the hash of the data, beyond that the hash followed by the output for the hash |
| Handshake.KEMHandshake.Start | pkg/protocol/handshake.go:61-78 | the call's reply and every field after it, key generation failure included |
| Handshake.KEMHandshake.OnRequest | pkg/protocol/handshake.go:81-113 | the same for the request, including the fields already overwritten when the encapsulation fails |
| Handshake.KEMHandshake.OnAgree | pkg/protocol/handshake.go:116-149 | the same for the agree, state check first, partial updates included |
| Handshake.KEMHandshake.OnFinish | pkg/protocol/handshake.go:152-181 | the same for the finish, after which the keypair is gone |
| Handshake.KEMHandshake.Derive | pkg/protocol/handshake.go:184-204 | the key comes from both secrets in a fixed order, and no field changes |
| HandshakeProofs.StepKeepsInv | pkg/protocol/handshake.go:61-204 | every call, failing ones included, keeps the invariant when its key generation succeeds |
| HandshakeProofs.InvOverRuns | pkg/protocol/handshake.go:61-204 | after every sequence of calls: a waiting object has its keypair, a waiting responder its first secret, an established object both, and Failed is never reached |
| HandshakeProofs.ReachableAnswers | pkg/protocol/handshake.go:129-204 | no reachable call dereferences a missing keypair, and deriving succeeds exactly when established, so the missing-secrets error never occurs |
| HandshakeProofs.FailedKeyGeneration | pkg/protocol/handshake.go:66-94 | a failed key generation keeps the invariant if and only if no reply was awaited |
| HandshakeProofs.FailureKeepsState | pkg/protocol/handshake.go:81-158 | no failing call changes the state, nor the secrets of an established object |
| HandshakeProofs.EstablishedKeyIsStable | pkg/protocol/handshake.go:81-204 | over any run of failing calls and derivations the derived key of an established object stays the same |
| HandshakeProofs.ConversationInvOverRuns | pkg/protocol/handshake.go:61-181 | after every sequence of calls the secrets, peer key and keypair are those the recorded conversation determines |
| HandshakeProofs.RecordingIsTransparent | pkg/protocol/handshake.go:61-204 | recording the conversation does not change the object's behaviour |
| HandshakeProofs.MatchingConversations | pkg/protocol/handshake.go:81-204 | over every two sequences of calls, an initiator and a responder with the same request, agree and finish are both established, hold each other's public key and derive the same key: HKDF over the secret the responder encapsulated and then the initiator's, with 32 zero bytes of salt and the protocol's info string |
| HandshakeProofs.DerivesExactly | pkg/protocol/handshake.go:184-204 | a key is derived exactly in an established object with both secrets, and it is HKDF over ss_B2A and then ss_A2B |
| HandshakeProofs.Transitions | pkg/protocol/handshake.go:61-181 | which calls are accepted in which state, where each leads and which fields it sets |
| HandshakeProofs.RequestRefused | pkg/protocol/handshake.go:81-101 | which of the three errors refuses a request, and that the keypair and the peer key are overwritten before the last |
| HandshakeProofs.AgreeRefused | pkg/protocol/handshake.go:116-143 | which error refuses an agree; one that opens leaves its secret and its key behind when encapsulating to it fails |
| HandshakeProofs.FinishRefused | pkg/protocol/handshake.go:152-169 | which error refuses a finish, and that nothing is overwritten |
| HandshakeProofs.OutOfTurn | pkg/protocol/handshake.go:116-169 | a call in the wrong state, or without the keypair it needs, changes nothing |
| HandshakeProofs.KeypairIsLastGenerated | pkg/protocol/handshake.go:61-94 | in every run from any state the keypair, if there is one, is the one generated last, by an initiation or by a request that parses, answered or not |
| HandshakeProofs.EstablishedSecret | pkg/protocol/handshake.go:152-181 | in every run an established object's second secret is still that of its last completing call, and if that was a finish, it is what the keypair generated last before it decapsulates |
| HandshakeProofs.RejectedRequestSwapsKeypair | pkg/protocol/handshake.go:90-101 | from any two states and with any random draws: a rejected request between agree and finish makes the responder decapsulate with the wrong keypair, both sides end established, and these are their keys |
| HandshakeProofs.BrokenRunExists | pkg/protocol/handshake.go:90-101 | in every law-abiding suite and from any two states there is such a request, an empty key, and so such a run, with these two keys |
| HandshakeProofs.BrokenConversationDisagrees | pkg/protocol/handshake.go:90-101 | a concrete law-abiding suite and run in which the two keys then differ |
| Identity.DecryptEncrypt | pkg/crypto/aesgcm.go:15-69 | decrypting an encryption gives the text back, 28 bytes shorter |
| Identity.IdentityExchange.OnPeerIdentity | pkg/identity/verifier.go:69-98 | the key is stored only if its hash matches; the reply is the challenge under the session key |
| Identity.IdentityExchange.OnChallenge | pkg/identity/verifier.go:101-125 | the reply is the signature over nonce, binding and session id, under the session key; no field changes |
| Identity.IdentityExchange.OnResponse | pkg/identity/verifier.go:128-151 | the verdict, and that nothing but the verified flag can change |
| Identity.StoresExactly | pkg/identity/verifier.go:69-98 | a key is stored exactly if the message opens to it and the SHA-256 hash of the whole key is the expected one; the reply is then the sealed challenge, else the exact error, and nothing changes |
| Identity.AnswersExactly | pkg/identity/verifier.go:101-125 | a challenge is answered exactly if it opens and the private key has 64 bytes, by the signature over opened challenge, binding and session id in this order |
| Identity.SealedExactly | pkg/crypto/aesgcm.go:15-69 | sealing puts the nonce in front, opening takes 12 bytes off; 32-byte keys only; each error exactly |
| Identity.SignatureSizesExactly | pkg/crypto/mldsa.go:42-63 | which sizes of keys and signatures are refused, with which error, and which are left to a library that panics |
| Identity.StepKeepsInv | pkg/identity/verifier.go:69-151 | one call keeps the invariant, never unsets key or flag, and sets the flag exactly when it accepts a valid signature |
| Identity.InvOverRuns | pkg/identity/verifier.go:69-151 | after every sequence of calls the peer key, if set, has the expected SHA-256 hash, and the fields fixed at creation are unchanged |
| Identity.VerifiedExactly | pkg/identity/verifier.go:128-158 | under any order of calls the exchange is verified if and only if some call accepted a valid signature under a 32-byte key whose SHA-256 hash is the expected one |
| Identity.NewExchangeVerified | pkg/identity/verifier.go:46-52 | a new exchange is verified only by an accepted signature, in every run |
| Identity.VerifiedForever | pkg/identity/verifier.go:146-158 | verification is never taken back |
| Identity.ChallengeResponseAccepted | pkg/identity/verifier.go:101-151 | given the same plaintext nonce, binding and session id, the verifier accepts the answer of a prover with a generated key |
| ReplayCache.NonceCache.Purge | pkg/identity/verifier.go:185-189 | deleting while walking leaves exactly the unexpired entries |
| ReplayCache.NonceCache.CheckAndAdd | pkg/identity/verifier.go:176-198 | one call is a purge if the cache has grown beyond 1000, then a lookup of peer hash followed by nonce, then an insertion if new |
| ReplayCache.CacheIsHistory | pkg/identity/verifier.go:176-198 | the lazily purged cache holds exactly the keys whose last acceptance no later purge found expired, with the time of that acceptance |
| ReplayCache.RejectedExactly | pkg/identity/verifier.go:183-197 | a call is rejected if and only if its key was accepted before and no purge since, its own included, found that entry expired |
| ReplayCache.AcceptancesFarApart | pkg/identity/verifier.go:176-198 | with a clock that never goes back, two acceptances of one key are more than ttl apart |
| ReplayCache.RejectionsJustified | pkg/identity/verifier.go:192-194 | every rejection has an earlier acceptance of the same key |
| ReplayCache.SizeBound | pkg/identity/verifier.go:183-197 | after every call the cache has at most 1001 entries or at most as many as acceptances no older than ttl |
| ReplayCache.KeysIdentifyPairs | pkg/identity/verifier.go:177-177 | among peer hashes of one length the concatenated key identifies the pair of peer and nonce |
| Driver.Session.Receive | cmd/pqc-chart-tool/main.go:109-115 | one receive with its flag check, among other receivers' turns, on top of everything heard so far, with every purge where the clock readings put it |
| Driver.ExpectExactly | cmd/pqc-chart-tool/main.go:109-115 | a message is accepted exactly if it was heard with the flag that is due; another flag is an unexpected message, a failing receive stays what it is |
| Driver.InitiatorPhaseOne | cmd/pqc-chart-tool/main.go:94-133 | the initiator's steps on the real objects end with exactly the packets, handshake fields, number of receives and key of the step sequence, on every error path too |
| Driver.ResponderPhaseOne | cmd/pqc-chart-tool/main.go:206-249 | the same for the responder |
| FullDriver.SendIdentity | pkg/identity/verifier.go:55-66 | the encrypted public key goes out as one bare message, or the exact error is returned and nothing is sent |
| FullDriver.AnswerChallenge | cmd/pqc-chart-tool/main.go:298-314 | what is sent, how much is received and how it ends, on every path, as the step sequence over what is heard says |
| FullDriver.ChallengePeer | cmd/pqc-chart-tool/main.go:257-273 | the same for receiving an identity and sending the challenge, with the exchange's fields |
| FullDriver.CheckResponse | cmd/pqc-chart-tool/main.go:275-291 | the same for receiving and checking the signature |
| FullDriver.VerifyPeer | cmd/pqc-chart-tool/main.go:257-291 | the same for both together |
| FullDriver.InitiatorPhaseTwo | cmd/pqc-chart-tool/main.go:138-199 | the same for the initiator's order: show, answer, challenge, check |
| FullDriver.ResponderPhaseTwo | cmd/pqc-chart-tool/main.go:254-314 | the same for the responder's order: challenge, check, show, answer |
| FullDriver.PerformHandshake | cmd/pqc-chart-tool/main.go:94-203 | for every incoming packet sequence and every path: exactly these packets are sent, so many receives are made, and this is the result |
| FullDriver.PerformHandshakeResponder | cmd/pqc-chart-tool/main.go:206-318 | the same for the responder |
| FullDriver.VerifyingExactly | cmd/pqc-chart-tool/main.go:257-291 | verifying the peer succeeds if and only if it showed a key with the target hash and a valid signature of that key, under the session key, over the challenge as sent, the binding and the session id, and the challenge could be sent |
| FullDriver.AnsweringExactly | cmd/pqc-chart-tool/main.go:298-314 | answering succeeds if and only if a challenge message arrives that opens, the private key has its size, and the answer can be sent; then exactly that answer was sent |
| FullDriver.InitiatorGate | cmd/pqc-chart-tool/main.go:94-203 | the initiator returns a channel if and only if phase 1 derives its key, it hears in this order an answerable challenge, the target identity and its proof, and all its packets get out; the channel then has that key and these packets were sent |
| FullDriver.ResponderGate | cmd/pqc-chart-tool/main.go:206-318 | the same equivalence for the responder, who hears identity and proof first and the challenge last |
| DriverGates.WrapExactly | cmd/pqc-chart-tool/main.go:103-103 | a message of up to 1400 bytes is one packet, one of up to 2800 two, with these headers and pieces |
| DriverGates.InitiatorOneExactly | cmd/pqc-chart-tool/main.go:94-136 | the initiator derives a key exactly if an agree (0x02) arrives that decodes, its ciphertext decapsulates, its key can be encapsulated to and request and finish get out; then the key, the packets and the binding are these |
| DriverGates.InitiatorOneFails | cmd/pqc-chart-tool/main.go:94-115 | how phase 1 ends when key generation, the first send or the first receive fails or another message arrives |
| DriverGates.InitiatorRefuses | cmd/pqc-chart-tool/main.go:117-126 | which error an agree that arrives is answered with, and what got out: the request, then as much of the finish as fits |
| DriverGates.ResponderOneExactly | cmd/pqc-chart-tool/main.go:206-252 | the same equivalence for the responder with request (0x01) and finish (0x03) |
| DriverGates.ResponderOneFails | cmd/pqc-chart-tool/main.go:206-241 | how its phase 1 ends when a receive fails or brings another message |
| DriverGates.ResponderRefuses | cmd/pqc-chart-tool/main.go:220-229 | which error a request that arrives is answered with, or how much of the agree got out |
| DriverGates.ResponderRefusesFinish | cmd/pqc-chart-tool/main.go:241-243 | and a finish that arrives |
| DriverGates.LegsFail | cmd/pqc-chart-tool/main.go:146-314 | each receiving step of phase 2 ends with its own error, and sends nothing, on a failing receive, another flag, a message that does not open, or a wrong hash |
| DriverGates.CheckingFails | cmd/pqc-chart-tool/main.go:284-291 | the error for a signature that opens: key too short, signature too short, key too long, or not the signature over challenge, binding and key, each exactly when |
| DriverGates.AnsweringFails | cmd/pqc-chart-tool/main.go:307-310 | a challenge that opens is refused exactly for a private key of the wrong size |
| DriverGates.LegsRunOut | cmd/pqc-chart-tool/main.go:141-310 | and with a sending error after what still got out |
| DriverGates.InitiatorStops | cmd/pqc-chart-tool/main.go:94-156 | the initiator's whole run when phase 1 fails, when no send is left for its identity, and when no challenge (0x11) comes: packets, receives and error |
| DriverGates.ResponderStops | cmd/pqc-chart-tool/main.go:206-291 | the responder's; to a peer that has not proved its key it sends nothing after the challenge, so never its own identity |
| DriverGates.InitiatorChannel | cmd/pqc-chart-tool/main.go:94-203 | from the primitives alone: the initiator returns a channel under a key if and only if phase 1 derives it and then a challenge (0x11) opens, an identity (0x10) whose SHA-256 hash is the target, and a signature (0x12) of it over challenge, both public keys and key; and exactly what has then been sent |
| DriverGates.ResponderChannel | cmd/pqc-chart-tool/main.go:206-318 | the same for the responder, with the initiator's public key alone as binding |
| DriverProofs.PlayScript | pkg/protocol/handshake.go:61-204 | the undisturbed handshake succeeds with these three messages, of 1207, 2297 and 1091 bytes, and this key on both sides, all in terms of what the two draw |
| DriverProofs.PhaseOneAgreement | cmd/pqc-chart-tool/main.go:94-249 | through encoding, fragmenting, an in-order connection, reassembly on buffers that other connections use meanwhile, decoding and handling, both drivers end established with each other's public key and the same 32-byte key, HKDF over the two secrets in order; the agree takes two fragments |
| DriverProofs.AloneIsReserved | pkg/protocol/fragment.go:154-199 | an initiator alone on a buffer of at most 99 entries meets the premise of the agreement, whatever it reads later |
| HonestRun.IdentityPacketParses | pkg/identity/verifier.go:55-66 | the identity message, sent without a header, parses as a fragment with index 60 whose total and id are bytes of a random nonce |
| HonestRun.IdentityPacketIsMisread | pkg/protocol/fragment.go:141-183 | its outcome on any buffer, exactly: a 50-byte message if the nonce begins with the number 1, else one more fragment, which is stored or completes what is already there under the random id |
| HonestRun.HearsThird | cmd/pqc-chart-tool/main.go:257-264 | what a responder hears third, exactly, after request and finish on a connection with an honest initiator, if until then nobody else stores under the id the nonce spells |
| HonestRun.IdentityStep | cmd/pqc-chart-tool/main.go:257-273 | on that the responder passes its identity step if and only if the nonce begins with the number 1 and the last 50 bytes open to something with the target hash, with the exact error otherwise |
| HonestRun.ResponderFails | cmd/pqc-chart-tool/main.go:257-291 | whatever comes next, its phase 2 ends with an error |
| HonestRun.InitiatorSends | cmd/pqc-chart-tool/main.go:141-170 | the initiator's phase 2 sends the bare identity, then the signature if a challenge arrived, else nothing |
| HonestRun.HonestDriversFail | cmd/pqc-chart-tool/main.go:94-318 | two honest drivers, each receiving exactly what the other sends, agree on the key and then both return an error; if the identity packet does not pass, these errors and these packets |
| HonestRun.HonestRunExists | cmd/pqc-chart-tool/main.go:94-318 | for every choice of random values there is such a run, unless the identity packet happens to pass |
| HonestRun.HonestAnswerVerdict | pkg/identity/verifier.go:101-151 | an honestly answered challenge is judged, under any public key, as a signature over the opened challenge and the prover's binding, checked against the challenge as sent and the verifier's binding |
| HonestRun.BindingsByKeys | cmd/pqc-chart-tool/main.go:136-252 | the initiator binds its own public key and then the responder's; the responder, its keypair gone, the initiator's alone |
| HonestRun.SignedIsNotChecked | cmd/pqc-chart-tool/main.go:136-284 | after an undisturbed phase 1 the bindings are pkA + pkB and pkA, and the two messages, named by these keys, differ in both directions and whatever the challenges |

## Left out

- Weak memory and data races: a turn under the lock is one atomic step, and other receivers act between such steps only.
- Message ids: drawn at random by the program; here parameters, and distinct or unused elsewhere where a theorem says so.
- Memory: slices are values, so aliasing between a slice and the array behind it, the allocation made from a header's length field, and `SecureClear` and `ZeroString` are not modelled.
- The longest text AES-GCM takes, 64 GiB, beyond which the library panics.
- Random sources are assumed to deliver, except the one behind key generation, whose failure is modelled.
- DriverProofs.PhaseOneAgreement: covers connections that lose and reorder nothing and have room for the two packets each side sends; a failing send is modelled, but then there is nothing to agree on.
- HonestRun.HonestDriversFail: assumes that until the misread packet is read no other connection stores under the random id it seems to carry, and room for the initiator's first three packets.
- ReplayCache.AcceptancesFarApart: for calls one after the other; the program reads the clock before it takes the lock, so concurrent calls may see times out of order.
- The internals of ML-KEM, AES-GCM, Ed25519, HKDF and SHA-256, the real SHAKE256 (section 6.2 of FIPS 202), and hexadecimal formatting of id hashes.
- `SetState`, sockets, TLS, the HTTP upgrade, the key store, the command line and the chat loop: plumbing, or easy.
