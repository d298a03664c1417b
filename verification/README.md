# GoodNet core: a verified model

This project models the hard parts of GoodNet, a peer-to-peer protocol stack, and proves what they
promise: the Noise_XX engine, the connection manager's data plane and registry, the ICE connector,
the TCP connector's write pipeline and the store application's codec. To verify it, run
`dafny verify dfyconfig.toml` in this directory.

Code that computes values is modelled by functions; code that changes state is modelled by classes
and loops, each proved to do what a function of its inputs says, and the theorems are about those
functions. The send queue, the packet counter and the TCP write pipeline are step relations, one atomic
operation or one locked region per step, and their theorems hold for every interleaving; elsewhere an
event is one step.

How the files relate to the system:

- `NoiseSpec.dfy` states Noise_XX as sections 5.2, 5.3 and 7.5 of the Noise Protocol Framework word it
  (a token interpreter over `e`, `s`, `ee`, `es`, `se`) and proves the two ends stay in lockstep;
  `Noise.dfy` is the engine itself over arrays and objects, proved equal to the interpreter, including
  the call of `hkdf2` whose first output is its own input; `NoiseAuthentic.dfy` says what a reader must
  refuse, and writes the whole handshake out.
- `ReplayWindow.dfy`, `Session.dfy`, `EndToEnd.dfy`: the 256-bit window, AEAD sessions with
  compression and rekey, the packet counter, and delivery from a sender's run to the receiving handler;
  `PacketIds.dfy` takes drawing an id, sealing and rekeying apart; `Delivery.dfy` puts handshake, rekeys,
  encryption, framing and reassembly together.
- `Reassembly.dfy`, `SendQueue.dfy`, `Failover.dfy`, `Relay.dfy`: stream framing, the send queue,
  multi-path failover, gossip relay; `Framing.dfy` holds the parser against a description of its result,
  `RelayDelivery.dfy` proves that a packet that is not lost arrives.
- `Registry.dfy`, `ConnectionManager.dfy`: connection records and their indices under every sequence of
  connects, extra transports, disconnects, closes and handshake frames; `RegistryEffects.dfy` says what
  each event must bring about and takes two nodes from a call to their sessions; `RegistryLateFrames.dfy` holds
  runs in which handshake frames come behind a close, `RegistrySending.dfy` what a run of the registry
  means for a connection's packet counter.
- `Crc32.dfy`, `Stun.dfy`, `StunCode.dfy`, `StunReading.dfy`, `IceCandidates.dfy`, `IceSignal.dfy`,
  `IceSession.dfy`, `IceSafety.dfy`, `IceOutcomes.dfy`, `IceAgent.dfy`: STUN, candidates and their exchange,
  and the ICE session: what it never does, and what it must do.
- `TcpWriter.dfy`, `Store.dfy`, `StoreReading.dfy`: the TCP write pipeline; the store's sync codec, what it
  imports from any bytes, and the prefix query.
- `Bytes.dfy`, `Bits.dfy`: integers as bytes and as bits.

What is assumed is written down as predicates and nowhere else. `Suite.Lawful`: key agreement commutes,
decryption undoes encryption under the same key, nonce and associated data, and outputs have their sizes
(`NoiseLockstep.LawsConsistent` shows these can hold together). What must be refused is stated for suites
that are `Authentic` (a text that opens is a seal of what it opens to;
`NoiseAuthentic.AuthenticConsistent` is a witness), and that an old epoch's frame is refused for keys
that are `Apart` (no seal under one opens under the other; `Session.SteppingApart` is a witness).
`Zstd.Lawful`: decompression undoes compression within the declared size. `Env.Lawful` and `Env.Answers`
are what the registry needs of the handshake engine; both are proved of the Noise engine in
`RegistryOverNoise`, given `Uniform` (whether X25519 refuses a peer key does not depend on the secret).
That no device key converts to the all-zero X25519 key is a clause of `Env.Lawful`. `Sorts`: the sort
used for the check list sorts. `Prompt` is a hypothesis on a run of the registry and not a fact about the
core: no handshake frame reaches a record after its close. What holds of all runs, and exactly what fails
in the others, is stated without it.

Where the code differs from its own words, the model follows the code:

- the protocol name is 33 bytes long although a comment says 34; either way it is hashed;
- `docs` drawings show a tag after `e` in the second message; the code sends `e` bare, as XX does;
- `close_now` only asks the connector to close. The record stays, and the reassembly loop goes on to
  dispatch the frames behind the one that caused the close, so a handshake frame can be read at a step
  it was not meant for. `RegistryInvariant.Always` is what every run keeps. `RegistryInvariant.SoundIff`
  says exactly when the whole invariant holds throughout: no final message is accepted at step 1, and no
  stray record (authenticated, never established, with a live session of the same peer) disconnects.
  `RegistryLateFrames.TwoFins` is a run that ends in a session resting on two messages,
  `RegistryLateFrames.StrayTakesKey` one in which a disconnect erases a live session's key. Without such
  frames (`RegistryInvariant.Reachable`), or in a core that drops them
  (`RegistryInvariant.GuardedReachable`), the whole invariant holds;
- packet ids are not always fresh. `EndToEnd.UniqueIff` says when they are, and there are two ways to
  fail: the counter wraps at 2^64 (`EndToEnd.WrapsAt`), and a session that starts before anything was
  sent encrypts its first frame under id 0 (`EndToEnd.StartsAtZero`), as the session of two final
  messages does (`RegistrySending.TwoFinsStartAtZero`). Without frames behind a close the second cannot
  happen (`RegistrySending.PromptKeepsIds`). A third way needs a rekey between the draw and the seal of
  a frame: `PacketIds.RekeyBetween`, `PacketIds.LawIff`;
- `decrypt` moves the replay window before it authenticates, so a forged id can shut out genuine frames:
  `Session.HandedOnIff` is the exact condition;
- a payload over 128 MB that was compressed does not come back: `Session.UnpackPackIff`;
- a prefix ending in byte 0xFF, or the empty prefix, makes the prefix query differ from the prefix
  test: `StorePrefix.AgreeIff`;
- a connectivity check too long for the 16-bit STUN length is read as an empty one, and a user name of
  65533 to 65535 bytes cannot be written at all: `Stun.CheckRecoveredIff`, `Stun.CheckWrapped`;
- a connectivity check without MESSAGE-INTEGRITY is accepted whatever password is expected:
  `StunReading.UnsignedAccepted`;
- pair priorities tell candidate priorities apart only up to 2^31: `IceCandidates.TellsApartIff`;
- without an active path a batch goes to the connector of the connection's scheme, and what that refuses
  is lost without a drop report: `Failover.FlushFacts`;
- no code marks a connectivity check as failed, so a controlling ICE agent exhausts its list only if the
  list is empty: `IceSafety.GivesUpIff`.

## Model

| member | source | states |
|---|---|---|
| `NoiseLockstep.HandshakeLockstep` | core/crypto/noise.cpp:241-454 | for all static and ephemeral keys and payloads, if every write succeeds, all three messages are read, each side learns the other's exact static key and payload, hash, chaining key and cipher agree, and the split keys cross-match |
| `NoiseLockstep.MessageLockstep` | core/crypto/noise.cpp:241-440 | a message written by one synchronized side and read by the other keeps them synchronized and delivers the payload |
| `NoiseLockstep.TokensLockstep` | core/crypto/noise.cpp:241-440 | the same for any list of tokens usable at that point |
| `NoiseLockstep.TokenLockstep` | core/crypto/noise.cpp:241-440 | the same for one token, whichever of e, s, ee, es, se |
| `NoiseLockstep.ExchangeLockstep` | core/crypto/noise.cpp:241-440 | after every message both sides hold equal h, ck and cipher key and nonce |
| `NoiseLockstep.FirstMessage` | core/crypto/noise.cpp:247-264 | the first message always succeeds and is delivered in clear |
| `NoiseLockstep.SecondRefusedIff` | core/crypto/noise.cpp:265-301 | the second message can be written exactly when both key agreements it needs succeed |
| `NoiseLockstep.ThirdRefusedIff` | core/crypto/noise.cpp:302-335 | the third message can be written exactly when the se agreement succeeds |
| `NoiseLockstep.SecondAndThirdMessage` | core/crypto/noise.cpp:265-454 | from a delivered first message, the rest of the handshake ends in crossed keys |
| `NoiseLockstep.ReadKeepsLocal` | core/crypto/noise.cpp:339-440 | reading, even of a hostile message, never touches the local keys or the role |
| `NoiseLockstep.WriteKeepsRemote` | core/crypto/noise.cpp:241-337 | writing never touches what is known of the peer |
| `NoiseLockstep.LawsConsistent` | core/crypto/noise.cpp:24-64 | the laws asked of the primitives can be met together |
| `Noise.Hkdf2` | core/crypto/noise.cpp:45-64 | both HKDF outputs are right even when the first output is written over the chaining key |
| `Noise.SymmetricState.MixKey` | core/crypto/noise.cpp:177-188 | the aliased hkdf2 call yields the new chaining key and a fresh cipher key |
| `Noise.SymmetricState.MixHash` | core/crypto/noise.cpp:168-175 | h becomes the hash of h and the data, nothing else changes |
| `Noise.SymmetricState.EncryptAndHash` | core/crypto/noise.cpp:190-198 | ciphertext and new state are those of the framework, with and without a key |
| `Noise.SymmetricState.DecryptAndHash` | core/crypto/noise.cpp:200-209 | the same for decryption; a failure leaves the state as it was (what fails: `NoiseAuthentic.DecryptedIff`) |
| `Noise.HandshakeState.WriteMessage` | core/crypto/noise.cpp:241-337 | the three hand-unrolled steps, and the refusal at any later step, equal the token interpreter |
| `Noise.HandshakeState.ReadMessage` | core/crypto/noise.cpp:339-440 | the same for reading in either role, including every early failure and the zeros a refused static key leaves |
| `Noise.HandshakeState.Split` | core/crypto/noise.cpp:442-454 | the two transport keys, assigned by role |
| `NoiseAuthentic.DecryptedIff` | core/crypto/noise.cpp:96-122 | with a key, a text decrypts to a plain text exactly when it is the seal of it under key, nonce and handshake hash |
| `NoiseAuthentic.ReadSecondIff` | core/crypto/noise.cpp:363-401 | in either role a second message is read, with these keys and this payload, exactly when it is the text that seals them under the secrets this side agrees on with the ephemeral key in front |
| `NoiseAuthentic.ReadThirdIff` | core/crypto/noise.cpp:403-431 | the same for the third message |
| `NoiseAuthentic.SecondDetermined` | core/crypto/noise.cpp:363-401 | two second messages read in one state that tell the same ephemeral key, static key and payload are equal, so an altered one is refused or tells something else |
| `NoiseAuthentic.ThirdDetermined` | core/crypto/noise.cpp:403-431 | the same for third messages |
| `NoiseAuthentic.ReadFirstIff` | core/crypto/noise.cpp:345-361 | a first message is read exactly when it has 32 bytes: the ephemeral key, then the payload |
| `NoiseAuthentic.HkdfBlocks` | core/crypto/noise.cpp:45-64 | the two outputs are the first two blocks of the expansion in section 2.3 of RFC 5869 |
| `NoiseAuthentic.InitWritten` | core/crypto/noise.cpp:230-239 | both sides start from the hash of the protocol name, without a key |
| `NoiseAuthentic.FirstWritten` | core/crypto/noise.cpp:247-264 | the first message and the hash after it, written out |
| `NoiseAuthentic.SecondWritten` | core/crypto/noise.cpp:265-301 | the second message and the state after it, written out: which key, nonce and hash seal what |
| `NoiseAuthentic.ThirdWritten` | core/crypto/noise.cpp:302-335 | the same for the third |
| `NoiseAuthentic.SplitWritten` | core/crypto/noise.cpp:442-454 | the transport keys are blocks 1 and 2 of one more expansion, the first for the initiator to send with |
| `NoiseAuthentic.AuthenticConsistent` | core/crypto/noise.cpp:96-122 | a lawful suite that is authentic exists |
| `ReplayWindow.RunRepresents` | core/cm/transport.cpp:86-121 | after every run since a reset, bit i is set exactly when highest - i was accepted |
| `ReplayWindow.VerdictIffFresh` | core/cm/transport.cpp:86-115 | accept(n) is true exactly when n > 0 and n is above everything accepted, or within 256 of it and never accepted |
| `ReplayWindow.NeverTwice` | core/cm/transport.cpp:86-115 | no nonce is accepted twice, in whatever order nonces arrive |
| `ReplayWindow.AcceptIsFresh` | core/cm/transport.cpp:86-115 | one call on a window representing a set is the filter over the set, and represents the new set |
| `ReplayWindow.NonceWindow.Accept` | core/cm/transport.cpp:86-115 | the bitmap code computes that verdict and that set |
| `ReplayWindow.NonceWindow.Reset` | core/cm/transport.cpp:117-121 | the window forgets everything |
| `Session.UnpackPackIff` | core/cm/transport.cpp:130-246 | a packed payload comes back unchanged exactly when it travelled raw or is at most 128 MB long |
| `Session.NoiseSession.Encrypt` | core/cm/transport.cpp:130-183 | compression, framing and AEAD as specified |
| `Session.NoiseSession.Decrypt` | core/cm/transport.cpp:185-246 | length test, replay window, AEAD, unpacking, in this order; the window changes as specified even when the rest fails |
| `Session.NoiseSession.Rekey` | core/cm/handshake.cpp:30-53 | each key becomes the first HKDF output of itself and the window is reset |
| `Session.RekeyKeepsCrossed` | core/cm/handshake.cpp:30-53 | ends that start crossed and rekey equally often stay crossed |
| `Session.IdHandedOnOnce` | core/cm/transport.cpp:185-246 | whatever arrives, forged or repeated, one packet id is handed on at most once |
| `Session.OpenGenuine` | core/cm/transport.cpp:185-246 | a genuine frame is handed on, unaltered, exactly when the window takes its id and the payload is non-empty and fits |
| `Session.TakenIff` | core/cm/transport.cpp:86-115 | after any arrivals, forged ones included, the window takes an id exactly when it is positive, was not seen, and none 256 or more above it was |
| `Session.HandedOnIff` | core/cm/transport.cpp:185-246 | a genuine frame among arbitrary ones is handed on, unaltered, exactly when its payload can be restored and no id seen before shadows it |
| `Session.ReceiveAt` | core/cm/transport.cpp:185-246 | what is handed on at any position, in terms of the arrivals before it |
| `Session.OnlySealsHandedOn` | core/cm/transport.cpp:185-246 | whatever arrives, only seals under the key and the id they carry are handed on, as what they seal |
| `Session.TamperedRefused` | tests/connection_manager.cpp:325-338 | a frame that is no seal under the key and its id is never handed on |
| `Session.PackSize` | core/cm/transport.cpp:130-161 | a body is at most four bytes longer than its payload, raw up to the threshold, and compressed above it whenever that shrinks it |
| `Session.UnpackIff` | core/cm/transport.cpp:214-246 | a payload comes out of a body exactly when the body holds it raw, or compressed behind a declared size from 1 to 128 MB for which it comes back |
| `Session.RekeyChains` | core/cm/handshake.cpp:38-46 | after any number of rekeys each key is that link of the chain that starts from the first key of the same direction, and depends on nothing else |
| `Session.RekeyIsSplit` | core/cm/handshake.cpp:38-46 | each new key is the one a split derives first from the old key as chaining key |
| `Session.OldEpochRefused` | core/cm/handshake.cpp:30-53 | a frame sealed in one epoch is not handed on in another whose key is apart, although the window has forgotten its id |
| `Session.SteppingApart` | core/cm/handshake.cpp:30-53 | a lawful, authentic suite and a chain of keys apart exist |
| `EndToEnd.UniqueIff` | core/cm/transport.cpp:252-316 | over any run of sends, rekeys and shutdown: no two frames of one key epoch share an id and none uses 0, if each epoch starts from a positive id and the ids used stay within 2^64; and only if, in every run that sends no handshake message in a session |
| `EndToEnd.RunLinked` | core/types/connection.hpp:135 | the 64-bit counter is, at every point of a run, the number of ids the epoch has drawn, modulo 2^64 |
| `EndToEnd.SentIsOwed` | core/cm/transport.cpp:252-316 | over any run the frames encrypted are exactly the payloads given to a session between its start and the shutdown, in order; on a local connection none is |
| `EndToEnd.RunTidy` | core/cm/handshake.cpp:30-53 | while the epochs fit, ids of the current epoch rise strictly and lie below the next one, through any rekeys |
| `EndToEnd.ShortRunFits` | core/types/connection.hpp:135 | fewer than 2^64 events fit, if a handshake message is sent before the session starts |
| `EndToEnd.StartsAtZero` | core/cm/handshake.cpp:170-228 | a session before any frame: the first frame is encrypted under id 0 |
| `EndToEnd.WrapsAt` | core/cm/transport.cpp:252-316 | a handshake message, a session and n data frames keep the law exactly for n below 2^64 |
| `PacketIds.LawIff` | core/cm/transport.cpp:284-297 | under every interleaving of any number of senders and rekeys: if no era of the counter runs out and no rekey comes between a draw and its seal, the law holds exactly when the first id of the connection was not used to seal |
| `PacketIds.RunKeepsInv` | core/cm/transport.cpp:284 | every id drawn is told by its era and place, and no two threads or frames have one place |
| `PacketIds.RekeyBetween` | core/cm/handshake.cpp:38-49 | a rekey between the draw and the seal puts an old id under the new key, where it comes round again |
| `RegistrySending.PromptWritesFirst` | core/cm/handshake.cpp:304-430 | if no handshake frame comes behind a close, every session starts after a handshake message was sent on it |
| `RegistrySending.PromptKeepsIds` | core/cm/handshake.cpp:304-430 | then every connection with fewer than 2^64 events keeps the id law |
| `RegistrySending.TwoFinsStartAtZero` | core/cm/handshake.cpp:398-430 | the session of two final messages has sent nothing, and its first frame goes out under id 0 |
| `EndToEnd.AtMostOnce` | core/cm/dispatch.cpp:218-229 | for any reordering, loss, duplication and foreign frames each sent frame is dispatched at most once, with its own non-empty payload |
| `EndToEnd.DeliveredExactly` | core/cm/dispatch.cpp:218-229 | with unique ids, a genuine arrival is handed on exactly when it is the first of its frame, less than 256 ids behind every genuine one, not shadowed by a foreign one, and its payload can be restored |
| `EndToEnd.EpochDelivery` | core/cm/transport.cpp:318-420 | the same, from any run of the sending side whose epochs fit, through any pattern of arrivals |
| `EndToEnd.ForgedRefused` | core/cm/transport.cpp:185-246 | of the foreign frames only seals under the epoch's key and their own id are handed on |
| `Delivery.KeysMeet` | core/cm/handshake.cpp:202-208 | after a complete handshake and equally many rekeys each side opens what the other seals |
| `Delivery.SecureDelivery` | core/cm/dispatch.cpp:16-229 | any cutting of the stream of an epoch's frames, in any order, lost, repeated or mixed with others, hands on a genuine one, unaltered, exactly when it is deliverable, and with an authentic suite no foreign one that is not a seal |
| `Delivery.HandshakeToHandler` | core/crypto/noise.cpp:241-454 | the same from the static keys of the two ends on, in both directions |
| `Delivery.HypothesesMet` | core/cm/dispatch.cpp:16-229 | one frame meets the hypotheses of the two, over any lawful suite |
| `Delivery.ToyHandshake` | core/crypto/noise.cpp:241-454 | a handshake that goes through exists |
| `Reassembly.HeaderRoundTrip` | sdk/types.h:166-173 | reading a written 20-byte header gives it back |
| `Reassembly.ParseAppend` | core/cm/dispatch.cpp:73-121 | parsing resumes from the residue; after an error more bytes change nothing |
| `Reassembly.EncodeParse` | core/cm/dispatch.cpp:73-121 | the stream of any list of frames parses back to the list |
| `Reassembly.FastPathAgrees` | core/cm/dispatch.cpp:37-53 | the zero-copy path dispatches what the buffered path would |
| `Reassembly.FeedAllMatches` | core/cm/dispatch.cpp:16-121 | however a stream is cut into chunks within 16 MB, the packets dispatched are the parse of the whole stream, in order and once, and the buffer is the residue and the proper beginning of a frame, up to the first framing error or removal of the record |
| `Reassembly.OverflowIffNotFits` | core/cm/dispatch.cpp:55-69 | the connection is closed for overflow exactly when some buffered total exceeds 16 MB |
| `Reassembly.StreamDelivered` | core/cm/dispatch.cpp:16-121 | a well-formed stream of one transport with any beginning of a further frame is delivered exactly |
| `Reassembly.WholeFramesInterleave` | core/cm/dispatch.cpp:21-57 | chunks of several transports, which share one buffer, still parse in any order when each is made of whole frames |
| `Reassembly.RestIsStuck` | core/cm/dispatch.cpp:73-121 | what parsing leaves is too short for its header or for what the header announces |
| `Framing.ParseIff` | core/cm/dispatch.cpp:73-121 | the parse of any bytes is the one way to write them as well-formed frames and a rest that is the beginning of a frame, starts with a wrong magic number or version, or is behind the removal of the record |
| `Framing.HeaderWrittenBack` | sdk/types.h:166-173 | a header read from any 20 bytes writes those bytes |
| `Reassembly.Reassemble` | core/cm/dispatch.cpp:73-121 | the loop's packets, consumed count and reason to stop are those of the parse |
| `Reassembly.Receiver.HandleData` | core/cm/dispatch.cpp:16-121 | one chunk changes the buffer and dispatches as specified |
| `Reassembly.Receiver.HandleAll` | core/cm/dispatch.cpp:16-121 | any sequence of chunks leaves the buffer and the dispatches the stream owes |
| `SendQueue.RunKeepsInv` | core/cm/impl.hpp:34-58 | under every schedule of any number of threads the counter equals queued, reserved, to-be-rolled-back and just-removed bytes; queued plus admitted bytes stay within 8 MB; drained then queued frames are the push order |
| `SendQueue.NoUnderflow` | core/cm/impl.hpp:38-56 | no subtraction takes the counter below zero |
| `SendQueue.QuietQueue` | core/cm/impl.hpp:34-58 | with no operation under way the counter is exactly the queue |
| `SendQueue.RefusedIff` | core/cm/impl.hpp:34-40 | in any run, whatever other threads do between its reservation and its test, a push is refused exactly when the bytes live at the reservation plus its own exceed 8 MB |
| `SendQueue.RefusedWhileEmpty` | core/cm/impl.hpp:36-40 | a concurrent oversized reservation can refuse a push into an empty queue |
| `SendQueue.PushOutcome` | core/cm/impl.hpp:34-44 | an uninterrupted push makes its frame the newest of the queue, or leaves everything as it was |
| `SendQueue.DrainOutcome` | core/cm/impl.hpp:47-58 | a drain takes the oldest frames, the given maximum or all there are |
| `SendQueue.DrainsEmpty` | core/cm/impl.hpp:47-58 | drains that allow for as many frames as are queued empty the queue in order |
| `SendQueue.PerConnQueue.Reserve` | core/cm/impl.hpp:35-36 | the atomic add is the reserving step |
| `SendQueue.PerConnQueue.Rollback` | core/cm/impl.hpp:37-40 | the rollback is its step, and subtracts without wrapping |
| `SendQueue.PerConnQueue.TakeOut` | core/cm/impl.hpp:48-55 | the locked region takes the oldest frames and sums their bytes |
| `SendQueue.PerConnQueue.SubtractDrained` | core/cm/impl.hpp:56 | the subtraction after a drain is its step, and does not wrap |
| `Failover.TryFacts` | core/cm/transport.cpp:373-420 | only frames of the batch reach a connector; the batch is lost only if every path fails; otherwise the winner got all of it and every path before it had failed |
| `Failover.AttemptFacts` | core/cm/transport.cpp:318-355 | an attempt succeeds exactly when the gathered call does, or every frame is accepted on its own; then it sends exactly the batch, and otherwise what was accepted or a beginning of it |
| `Failover.AttemptedIff` | core/cm/transport.cpp:390-404 | a path is attempted once if it has a connector and no path before it can take the batch, else not at all |
| `Failover.WinnerIsBest` | core/cm/transport.cpp:373-420 | no active path of better priority could have taken the batch |
| `Failover.InactiveIffTriple` | core/cm/transport.cpp:394-403 | a history of attempts switches a path off exactly when it holds three consecutive failures |
| `Failover.SwitchedOffIff` | core/cm/transport.cpp:373-420 | over any run of flushes a path is switched off exactly by three failed attempts on it in a row |
| `Failover.BestPath` | core/types/connection.hpp:160-166 | the first active path of least priority number, None exactly when none is active |
| `Failover.FlushFrames` | core/cm/transport.cpp:318-355 | the frames taken and the verdict, gathered or one by one |
| `Failover.FlushFacts` | core/cm/transport.cpp:373-420 | a drop is reported exactly when a non-empty batch was missed by every active path and there was a path or no connector for the connection's scheme; a reported batch was handed over in full to none |
| `Failover.Connection.FlushQueue` | core/cm/transport.cpp:373-420 | empty batches, the loop over sorted paths, error counters and flags, and the fallback without paths, as specified |
| `Failover.Connection.TryPaths` | core/cm/transport.cpp:390-404 | the loop over the sorted paths does what failover owes |
| `Relay.FingerprintInjective` | core/cm/relay.cpp:19-24 | two packets share a fingerprint exactly when they share packet id and payload type, for any hash |
| `Relay.Dedup.RelaySeen` | core/cm/relay.cpp:19-45 | eviction, verdict and insertion as specified |
| `Relay.LookRemembers` | core/cm/relay.cpp:28-44 | a fingerprint judged new is remembered for 30 s whatever else is looked up |
| `Relay.DuplicateIff` | core/cm/relay.cpp:28-44 | a packet is a duplicate exactly when its fingerprint is on record and not stale in an overgrown set; then no stale entry is left there and no fresh one is lost |
| `Relay.RelayRoundTrip` | core/cm/relay.cpp:49-75 | a relayed payload is understood at the next hop exactly when hops remain and the inner frame is whole |
| `RelayNetwork.HopsBounded` | core/cm/relay.cpp:49-136 | in any network every run of one packet uses up a bounded number of hops |
| `RelayNetwork.RelayTerminates` | core/cm/relay.cpp:102-136 | an injected packet causes fewer deliveries than the weight of its hop count |
| `RelayNetwork.DeliveredWithinTtl` | core/cm/relay.cpp:49-136 | no node further than the initial hop count delivers it |
| `RelayNetwork.VerdictsSpaced` | core/cm/relay.cpp:19-45 | in any run, further injections of the same packet included, a node takes it for new twice only more than 30 s apart |
| `RelayDelivery.PacketArrives` | core/cm/relay.cpp:49-136 | in any network, with at least as many hops as nodes, all links up and no copy lost within 30 s: once no copy is on its way the destination has delivered the packet, whatever the order of arrivals and the other traffic |
| `RelayDelivery.RunSpreads` | core/cm/relay.cpp:102-136 | throughout such a run every node that has sent the packet on has served its peers, and no copy has lost more hops than nodes have taken it for new |
| `RelayDelivery.RunEnds` | core/cm/relay.cpp:49-136 | every such run can go on until no copy is on its way |
| `RegistryInvariant.Always` | core/cm/lifecycle.cpp:113-239 | every run, frames behind a close included: transport index right both ways, distinct schemes, queue ids equal record ids, every key leads to an established record of its peer, a session exists exactly when the handshake is over and rests on a verified payload whose device key is rs |
| `RegistryInvariant.SoundIff` | core/cm/handshake.cpp:170-253 | over any run the key index is a bijection and every session rests on three messages throughout, if and only if no final message is accepted at step 1 and no stray record disconnects |
| `RegistryInvariant.StepSoundIff` | core/cm/handshake.cpp:398-430 | one event keeps the whole invariant exactly when it is neither of the two |
| `RegistryInvariant.Reachable` | core/cm/handshake.cpp:304-430 | if no handshake frame reaches a record after its close and accepted second messages can be answered, the whole invariant holds and nothing breaks it |
| `RegistryInvariant.GuardAgreesIff` | core/cm/dispatch.cpp:106-113 | a core that drops frames behind a close behaves the same throughout exactly when every such frame finds no handshake state in its role or one that refuses it and stays as it was |
| `RegistryInvariant.GuardedReachable` | core/cm/dispatch.cpp:106-113 | such a core satisfies the whole invariant in every run |
| `RegistryLateFrames.TwoFins` | core/cm/handshake.cpp:398-430 | two final messages, the second behind the close, end in a session that rests on two messages |
| `RegistryLateFrames.StrayTakesKey` | core/cm/disconnect.cpp:63-122 | a run in which the disconnect of a stray record erases the key of a live session |
| `RegistryInvariant.StepKeeps` | core/cm/handshake.cpp:102-253 | every event keeps what all runs keep, and a total key index exactly when it is not the disconnect of a stray record |
| `RegistryInvariant.KeyIndexSurvivesIff` | core/cm/disconnect.cpp:63-122 | a primary disconnect keeps the key index right exactly when the record is not authenticated-but-unestablished with its peer's key owned by another session |
| `RegistryInvariant.StepStrayIff` | core/cm/handshake.cpp:347-396 | a stray record comes about in exactly one way: an accepted second message that cannot be answered |
| `RegistryInvariant.OneSessionPerPeer` | core/cm/handshake.cpp:170-228 | at most one live session per peer, in every run that nothing breaks |
| `RegistryInvariant.EstablishedIgnoresNoise` | core/cm/dispatch.cpp:138-161 | in every run, no handshake frame changes an established record |
| `RegistryInvariant.FinalizeKeeps` | core/cm/handshake.cpp:170-228 | finalizing a complete, verified handshake keeps every index right, whether the peer is new or already has a session |
| `RegistryInvariant.NoiseFinKeeps` | core/cm/handshake.cpp:398-430 | a final message at any step, before any first one or behind a close, keeps what all runs keep |
| `RegistryInvariant.SecondaryDisconnectKeeps` | core/cm/disconnect.cpp:17-61 | losing a secondary transport takes out exactly its path and its index entry |
| `RegistryInvariant.PrimaryDisconnectKeepsRest` | core/cm/disconnect.cpp:63-122 | losing a primary takes out its record, queue and all its transports, and nothing else |
| `RegistryInvariant.GoneForGood` | core/cm/lifecycle.cpp:113-239 | ids are never reused |
| `RegistryEffects.AddTransportIff` | core/cm/lifecycle.cpp:179-239 | a transport gets an id exactly when the key leads to a live session without a path of the scheme; then that record gains exactly that path, the index leads from the id to it, and nothing else changes |
| `RegistryEffects.SecondTransport` | core/cm/lifecycle.cpp:179-239 | in every run that nothing breaks, a peer with a live session is given a transport of a further scheme |
| `RegistryEffects.ConnectAdds` | core/cm/lifecycle.cpp:113-177 | a new record under a new id with its queue, open, shaking hands in its role, on one path; all others as they were |
| `RegistryEffects.SecondaryGoes` | core/cm/disconnect.cpp:17-61 | the owner loses exactly the paths of the transport, the index the entry |
| `RegistryEffects.PrimaryGoes` | core/cm/disconnect.cpp:63-122 | the record, its queue, its transports and, once authenticated, its peer's key go, and nothing else |
| `RegistryEffects.InitAnswered` | core/cm/handshake.cpp:304-345 | a first message that can be read and answered leaves the record at the state that wrote the answer |
| `RegistryEffects.CompletedOutcome` | core/cm/handshake.cpp:170-253 | a completed handshake ends in a session with that state and claim under the peer's key, or, when the peer already has one, in the end of the new connection |
| `RegistryEffects.SessionPath` | core/cm/handshake.cpp:156-163 | the session's one path is the connection itself, under the scheme negotiated |
| `RegistryEffects.IncompleteCloses` | core/cm/handshake.cpp:347-430 | a second or third message that completes nothing closes its connection without a session and leaves the others alone |
| `RegistryEffects.SessionStartsIff` | core/cm/handshake.cpp:347-430 | an event starts a session exactly when it completes the handshake of a peer without one |
| `RegistryEffects.HonestHandshake` | core/cm/handshake.cpp:102-430 | two nodes that trust each other and have no session with each other, in whatever other state: a call, its answer and the final message end in a session on each side with the other's claim, on handshake states whose transport keys cross |
| `RegistryOverNoise.NoiseEnvLawful` | core/cm/handshake.cpp:304-430 | the Noise engine meets what the registry asks of it |
| `RegistryOverNoise.NoiseEnvAnswers` | core/cm/handshake.cpp:347-396 | with X25519's refusals independent of the secret, an accepted second message can be answered |
| `RegistryOverNoise.InitPayloadFits` | core/cm/handshake.cpp:318-327 | whatever the step, a message's payload fits the one-byte buffer it is read into exactly when the frame is at most one byte longer than that step's keys and tags |
| `ConnectionManager.FindPath` | core/types/connection.hpp:176-180 | the loop finds a path exactly when one has the scheme |
| `ConnectionManager.ErasePath` | core/cm/disconnect.cpp:45-54 | the erasing loop keeps the other paths in order |
| `ConnectionManager.ProcessPayload` | core/cm/handshake.cpp:102-168 | accepted exactly when the signature verifies and the device key converts to the handshake's remote static key |
| `ConnectionManager.Manager.HandleConnect` | core/cm/lifecycle.cpp:113-177 | the maps after a connect; what all runs keep is kept |
| `ConnectionManager.Manager.HandleAddTransport` | core/cm/lifecycle.cpp:179-239 | the maps after an extra transport, or its refusal; what all runs keep is kept |
| `ConnectionManager.Manager.HandleDisconnect` | core/cm/disconnect.cpp:17-122 | the maps after losing a primary or a secondary transport; what all runs keep is kept |
| `ConnectionManager.Manager.HandleNoiseInit` | core/cm/handshake.cpp:304-345 | the record after a first message; what all runs keep is kept |
| `ConnectionManager.Manager.HandleNoiseResp` | core/cm/handshake.cpp:347-396 | the registry after a second message; what all runs keep is kept |
| `ConnectionManager.Manager.HandleNoiseFin` | core/cm/handshake.cpp:398-430 | the registry after a third message; what all runs keep is kept |
| `ConnectionManager.Manager.FinalizeHandshake` | core/cm/handshake.cpp:170-253 | the duplicate is dropped, or the session starts and takes its peer's key |
| `ConnectionManager.Manager.HandleAll` | core/cm/lifecycle.cpp:113-239 | any sequence of events keeps what all runs keep, and leaves every index right if nothing breaks it |
| `Crc32.InitTable` | plugins/connectors/ice/stun.cpp:53-61 | each entry is eight shifts of its index |
| `Crc32.ComputeCrc32` | plugins/connectors/ice/stun.cpp:63-69 | the table-driven loop equals the bit-by-bit definition on every byte string |
| `Crc32.LookupFeeds` | plugins/connectors/ice/stun.cpp:66-67 | one lookup feeds eight message bits, for any generator |
| `Crc32.ShiftsLinear` | plugins/connectors/ice/stun.cpp:53-61 | shifting is linear, which is why a table of 256 is enough |
| `Crc32.FingerprintNoticesBurst` | plugins/connectors/ice/stun.cpp:71-73 | every change confined to four neighbouring bytes changes the FINGERPRINT |
| `Stun.AttrsRoundTrip` | plugins/connectors/ice/stun.cpp:99-108 | reading attributes undoes writing them, padding included |
| `Stun.FingerprintCovers` | plugins/connectors/ice/stun.cpp:139-159 | the final FINGERPRINT is that of everything before it, the length field at its final value |
| `Stun.CheckParsed` | plugins/connectors/ice/stun.cpp:330-403 | a check that fits is read back, and the passwords accepted are the empty one and those that hash the builder's input alike |
| `Stun.CheckWrapped` | plugins/connectors/ice/stun.cpp:355-361 | a check whose length wraps is read as an empty request |
| `Stun.CheckRecoveredIff` | plugins/connectors/ice/stun.cpp:173-206 | for every user name, the check is built and its txn id, user name, priority and USE-CANDIDATE come back exactly when the body fits the 16-bit length |
| `Stun.MappedUndone` | plugins/connectors/ice/stun.cpp:285-309 | the XOR-MAPPED-ADDRESS of any IPv4 or IPv6 address and port is undone by the parser |
| `Stun.ResponseRecovered` | plugins/connectors/ice/stun.cpp:210-247 | a response comes back with any mapped address, port and txn id |
| `StunReading.AcceptedRequest` | plugins/connectors/ice/stun.cpp:330-383 | only a framed Binding Request is accepted, and each field comes from the last attribute of its kind |
| `StunReading.SignedIff` | plugins/connectors/ice/stun.cpp:385-400 | whatever stands before and behind the hash, the request is accepted exactly when no password is expected or the hash is that of everything before it |
| `StunReading.UnsignedAccepted` | plugins/connectors/ice/stun.cpp:385-402 | a request without a hash is accepted under every password |
| `StunReading.AttrRead` | plugins/connectors/ice/stun.cpp:355-365 | an attribute is read whatever its padding holds |
| `StunReading.RoleCarried` | plugins/connectors/ice/stun.cpp:190-198 | a check that fits announces exactly its sender's role, with the tie breaker |
| `StunReading.ResponseAcceptedIff` | plugins/connectors/ice/stun.cpp:251-326 | a response is accepted exactly when it is framed as one and carries an address of a known family |
| `StunReading.MappedWins` | plugins/connectors/ice/stun.cpp:285-319 | the last XOR-MAPPED-ADDRESS wins over plain addresses before and behind it |
| `StunCode.WriteU64` | plugins/connectors/ice/stun.cpp:40-45 | the downward loop writes network order |
| `StunCode.Buffer.AppendAttr` | plugins/connectors/ice/stun.cpp:99-108 | the buffer grows by exactly the encoded attribute, unless the padded length wraps, which it does from 65533 bytes up |
| `StunCode.Buffer.AppendIntegrityAndFingerprint` | plugins/connectors/ice/stun.cpp:139-159 | hash and checksum are taken with the length field at the values they must see, through three rewrites of it |
| `StunCode.BuildCheckRequest` | plugins/connectors/ice/stun.cpp:173-206 | the buffer-growing builder produces the specified check |
| `StunCode.BuildCheckResponse` | plugins/connectors/ice/stun.cpp:210-247 | the same for responses |
| `StunCode.ParseBindingRequest` | plugins/connectors/ice/stun.cpp:330-403 | the cursor loop is the fold over the attributes, on any bytes, whatever follows the packet in memory |
| `StunCode.ParseBindingResponse` | plugins/connectors/ice/stun.cpp:251-326 | the same for responses |
| `IceCandidates.PriorityIsSum` | plugins/connectors/ice/candidate.hpp:31-34 | the shifted and joined fields are the sum of section 5.1.2.1 of RFC 8445 |
| `IceCandidates.PriorityRange` | plugins/connectors/ice/candidate.hpp:31-34 | priorities are below 2^31, host above reflexive, ordered by local preference |
| `IceCandidates.FormulaInjective` | plugins/connectors/ice/session.cpp:31-39 | up to 2^31 the pair priority never wraps and tells both candidate priorities |
| `IceCandidates.FormulaOrder` | plugins/connectors/ice/session.cpp:31-39 | up to 2^31 pairs are ordered by their lower priority, then the higher one, then in favour of the controlling side |
| `IceCandidates.TellsApartIff` | plugins/connectors/ice/session.cpp:31-39 | pair priorities tell all candidate priorities below a bound apart if and only if the bound is at most 2^31 + 1 |
| `IceCandidates.WrapIff` | plugins/connectors/ice/session.cpp:31-39 | the 64-bit value is the formula's exactly when the smaller priority is not 2^32 - 1 |
| `IceCandidates.FormCheckList` | plugins/connectors/ice/session.cpp:226-247 | a descending permutation of all pairs of one address family |
| `IceCandidates.CollectPairs` | plugins/connectors/ice/session.cpp:230-242 | the nested loops collect every pair of one family, each as often as it occurs |
| `IceCandidates.HeldMirrored` | plugins/connectors/ice/session.cpp:226-247 | the controlling agent holds (l, r) exactly when the controlled one holds (r, l), at the same priority |
| `IceCandidates.SameOrder` | plugins/connectors/ice/session.cpp:244-246 | both agents check in the same order of candidate priorities, however ties were broken |
| `IceSignal.WireRoundTrip` | plugins/connectors/ice/candidate.hpp:95-131 | a candidate survives its 24-byte form |
| `IceSignal.SignalRecoveredIff` | plugins/connectors/ice/session.cpp:191-202 | the peer learns exactly what was sent if and only if credentials fit their fields without zero bytes and fewer than 2^16 candidates were sent |
| `IceSignal.SignalRead` | plugins/connectors/ice/session.cpp:466-488 | what the peer reads of any signal |
| `IceSignal.SerializeSignal` | plugins/connectors/ice/session.cpp:466-488 | the candidate loop produces the signal |
| `IceSignal.ExchangedLists` | plugins/connectors/ice/session.cpp:191-247 | after exchanging signals the two check lists are mirror images, and up to 2^31 in the same order |
| `IceSafety.RunKeepsInv` | plugins/connectors/ice/session.cpp:172-554 | over all event orders: Connected implies nominated, nominated implies Connected or Failed, one nomination that fixes the remote end, no waiting pair below the cursor, checks at strictly later places and never of better priority, consent lost only after the configured number of unanswered keepalives |
| `IceSafety.OneCheckPerStep` | plugins/connectors/ice/session.cpp:249-286 | one event sends at most one new check |
| `IceSafety.NominatedForGood` | plugins/connectors/ice/session.cpp:425-439 | once nominated, the remote end never changes |
| `IceSafety.GivesUpIff` | plugins/connectors/ice/session.cpp:263-276 | a controlling agent's scheduler gives up exactly on an empty list |
| `IceSafety.StepShape` | plugins/connectors/ice/session.cpp:172-222 | every event keeps the session's phases and the scheduler's invariant |
| `IceSafety.StepChecks` | plugins/connectors/ice/session.cpp:249-303 | every event keeps the order of checks |
| `IceSafety.StepConsent` | plugins/connectors/ice/session.cpp:498-539 | every event keeps the accounts of nomination and consent |
| `IceOutcomes.ResponseNominatesIff` | plugins/connectors/ice/session.cpp:359-384 | a response nominates exactly when the agent is controlling, not yet nominated, and a check is in progress under its transaction; then the remote end is that of such a pair |
| `IceOutcomes.AnsweredSucceeds` | plugins/connectors/ice/session.cpp:369-382 | the pair that answered is marked succeeded, the others stay |
| `IceOutcomes.RequestNominatesIff` | plugins/connectors/ice/session.cpp:386-421 | a controlled, not yet nominated agent is nominated by a request exactly when it carries USE-CANDIDATE, and the remote end is the sender's address |
| `IceOutcomes.OthersNeverNominate` | plugins/connectors/ice/session.cpp:425-439 | no other event nominates |
| `IceOutcomes.JoinedRightly` | plugins/connectors/ice/session.cpp:425-439 | over any run a nominated session's remote end is the one the nominating response or request gave it |
| `IceOutcomes.TimerLosesIff` | plugins/connectors/ice/session.cpp:503-535 | a keepalive timer loses consent exactly after the configured number of unanswered keepalives, and else keeps the peer alive |
| `IceOutcomes.TimeoutIff` | plugins/connectors/ice/session.cpp:543-554 | the session timer fails the session exactly while it is checking without a nomination |
| `IceOutcomes.SilentAfterClose` | plugins/connectors/ice/session.cpp:451-462 | a closed session stays closed and sends no check and no keepalive, in any run |
| `IceOutcomes.StartIff` | plugins/connectors/ice/session.cpp:172-222 | checking starts exactly when gathering or signalling completes the two candidate lists |
| `IceOutcomes.BeginForms` | plugins/connectors/ice/session.cpp:204-247 | the list is that of all pairs in descending priority, and the first check goes to the best |
| `IceOutcomes.TurnChecksBest` | plugins/connectors/ice/session.cpp:249-286 | as long as a pair is waiting, a turn checks exactly one more, under the new transaction, and none of the waiting ones is better |
| `IceOutcomes.EveryPairChecked` | plugins/connectors/ice/session.cpp:249-286 | as many turns as there are waiting pairs leave none unchecked |
| `IceAgent.Agent.FormCheckList` | plugins/connectors/ice/session.cpp:226-247 | the list and the cursor are replaced as specified |
| `IceAgent.Agent.CheckNextWaiting` | plugins/connectors/ice/session.cpp:252-261 | the search loop checks the first waiting pair at or after the cursor |
| `IceAgent.Agent.SendNextCheck` | plugins/connectors/ice/session.cpp:249-286 | the scheduler's turn, including giving up |
| `IceAgent.Agent.HandleResponse` | plugins/connectors/ice/session.cpp:359-384 | keepalive answers and check answers, told apart as specified |
| `IceAgent.Agent.HandleRequest` | plugins/connectors/ice/session.cpp:386-421 | nomination by a known or a peer-reflexive address |
| `IceAgent.Agent.Nominate` | plugins/connectors/ice/session.cpp:425-439 | the new state and the first keepalive |
| `IceAgent.Agent.KeepaliveFired` | plugins/connectors/ice/session.cpp:503-535 | the next keepalive, or loss of consent |
| `IceAgent.Agent.Handle` | plugins/connectors/ice/session.cpp:92-554 | any event changes the session as the step relation says and keeps every safety property, over everything the session has done |
| `TcpWriter.RunKeepsInv` | plugins/connectors/tcp/tcp.cpp:165-247 | under any interleaving at most one write is under way, of 1 to 64 frames, a non-empty queue has an active writer, and absent errors what is written is a prefix of what was enqueued |
| `TcpWriter.NothingTwice` | plugins/connectors/tcp/tcp.cpp:377-419 | errors or not, no frame is written more often than it was enqueued, and none is made up |
| `TcpWriter.FailureClears` | plugins/connectors/tcp/tcp.cpp:401-407 | a failed write empties the queue and leaves an idle writer that the next send starts again |
| `TcpWriter.AbortSkips` | plugins/connectors/tcp/tcp.cpp:408-418 | an aborted write counts as done: its frames are not sent again and the next ones follow |
| `TcpWriter.StepKeepsInv` | plugins/connectors/tcp/tcp.cpp:377-419 | each locked region keeps that |
| `TcpWriter.WriterDrains` | plugins/connectors/tcp/tcp.cpp:377-419 | left alone and without further errors the writer writes what is under way and queued, in order, and clears its flag; without any error that is everything enqueued |
| `TcpWriter.TcpConnection.Post` | plugins/connectors/tcp/tcp.cpp:178-187 | the posted closure is the enqueueing step |
| `TcpWriter.TcpConnection.StartWrite` | plugins/connectors/tcp/tcp.cpp:377-397 | the popping loop takes the oldest frames, at most 64 |
| `TcpWriter.TcpConnection.Completed` | plugins/connectors/tcp/tcp.cpp:400-418 | the completion handler is its step, for success, abort and error |
| `StoreSync.SyncRoundTrip` | apps/store/handler.cpp:251-298 | entries with 16-bit lengths: the import decodes exactly the first min(n, 255) encoded |
| `StoreSync.SyncCarries` | apps/store/handler.cpp:251-298 | any entries: each is imported as far as its fields carry it |
| `StoreSync.CarriedIffFits` | apps/store/handler.cpp:328-342 | an entry is carried unchanged exactly when its fields fit |
| `StoreSync.DecodeOne` | apps/store/handler.cpp:277-298 | one entry at the front is decoded and decoding goes on behind it |
| `StoreSync.Import` | apps/store/handler.cpp:274-298 | on any bytes the loop terminates, its cursor and remaining count partition the payload, and it yields what decoding says |
| `StoreReading.DecodeIff` | apps/store/handler.cpp:274-298 | on any bytes the entries imported are the one list that lies there in wire form, as many as announced or up to the first that is cut short |
| `StoreReading.ImportedIff` | apps/store/handler.cpp:270-298 | a sync message is imported exactly when its header is whole and its type is one of the two responses |
| `StoreSync.SyncResponse` | apps/store/handler.cpp:255-268 | the encoding loop builds the response |
| `StorePrefix.RangeIsPrefix` | apps/store/sqlite_backend.cpp:154-177 | for a non-empty prefix not ending in 0xFF the range holds exactly the keys with the prefix |
| `StorePrefix.AgreeIff` | apps/store/sqlite_backend.cpp:154-177 | query and prefix test agree on all keys if and only if the prefix is such |
| `StorePrefix.EndKey` | apps/store/sqlite_backend.cpp:154-166 | the bound built in place, with the last byte wrapping |

## Left out

- libsodium, OpenSSL and zstd internals: functions with the laws named above.
- Sockets, timers, Boost.Asio scheduling, SQLite, plugins, configuration, logging and key files: I/O or foreign code; clocks, random ids and connector answers are parameters or events.
- Zeroing of secrets in memory.
- Dispatch to handlers, session affinity, handler priorities, heartbeats and statistics: easy members; the dispatch of a relayed inner frame that is itself a relay frame is not modelled.
- Shutdown barrier: the flag test and the in-flight count are separate steps and nothing is claimed about them.
- `uri_index_` and the connections gauge: neither is kept exact by the code.
- Rekey with frames in flight: the two sides' epochs are compared only by number.
- Behaviour after a framing error: reassembly is stated up to the first one; the consumed bytes it leaves in the buffer are not looked at.
- Frames cut across chunks of different transports: the shared buffer mixes them, and nothing is claimed of such streams.
- ConnectionManager.Manager.HandleNoiseInit: a NOISE_INIT frame over 33 bytes (97 at step 1, 65 at step 2) is read like any other, although its payload runs past the one-byte buffer of core/cm/handshake.cpp:319; `RegistryOverNoise.InitPayloadFits` states the bound, at every step.
- The forwarding loop of `relay`: a node's outgoing messages are modelled as a list in any order, not as a loop over the record map.
- The draining flag of `PerConnQueue`, which only chooses the thread that flushes.
- Prefix query: expiry of entries and the row limit; the store's restamping of imported entries and replica convergence.
- STUN: the asynchronous client with its retries.
- The answer to a connectivity check, which goes out to every accepted request whatever the session's state: the events of the ICE session begin behind it.
- EndToEnd.UniqueIff: with handshake messages sent in a session, which the public send allows and the core never does, the condition is sufficient only; a send is one event there, and a rekey between its draw and its seal is in `PacketIds` alone.
- StunCode.BuildCheckRequest: returns None for a user name whose attribute cannot be written, as AppendAttr below.
- StunCode.Buffer.AppendAttr: what the overrunning copy of a value of 65533 to 65535 bytes would do to memory is not modelled; the attribute is refused instead.
- IceAgent: gathering through STUN servers is one event with its result; timers may fire at any time, which allows more runs than the real timers.
