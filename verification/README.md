# Verified model of the OpenPetition cores

OpenPetition lets people sign a petition without showing their address to any
server. This project models the parts of it that compute something exact and
proves what they are for:

| file | models |
|---|---|
| `Sharding.dfy`, `SharingTheorems.dfy` | threshold sharing of an email over a prime field and its reconstruction (`src/client/sharding.py`), on top of `ModArith.dfy` and `Polynomial.dfy` |
| `Tls.dfy`, `TlsTheorems.dfy`, `TlsLayout.dfy` | the TLS 1.3 record layer of the MPC node (`src/server/tls_smpc.h`), with `Bits.dfy` and `Buffers.dfy` |
| `Registry.dfy`, `RegistryRuns.dfy`, `WebSocket.dfy` | the discovery server's node table, its pruning, and its WebSocket frames (`src/server/discovery.cpp`) |
| `RelayWire.dfy`, `Relay.dfy`, `RelayRuns.dfy` | the relay registration client (`src/server/relay_client.cpp`) |
| `Smtp.dfy`, `Forwarder.dfy`, `Json.dfy`, `ProofHeader.dfy`, `Network.dfy` | the two parsers of network streams, the proof check and the JSON extraction in front of it (`src/server/smtp_client.cpp`, `src/server/forwarder.cpp`) |
| `Ledger.dfy` | the nullifier database (`src/server/mpcauth_server.cpp`) |
| `XorShares.dfy`, `Reconnect.dfy` | bit sharing and packing, and the reconnecting socket, of the web client (`src/web-client/src/`) |
| `Bytes.dfy`, `Numerals.dfy`, `Wrappers.dfy` | bytes, big-endian numbers, printed numerals, optional values |

Each component has the same shape. Code that changes state is a class or a
method with the loops of the original, proved equal to a function; the lemmas
are about that function, over every input or every run. For the ledger, the
record layer, the registry, the relay engine and an enrollment a driver method
(`Ledger.PlayEvents`, `TlsTheorems.EncryptRun`, `RegistryRuns.PlayAndResolve`,
`RelayRuns.PlayInputs`, `SharingTheorems.EnrollAndReconstruct`) puts the class
through a whole run and is proved to follow the run function. Formats are also
read back by readers that do not use the functions that write them: by the bits
of a byte, by the fields of a standard, or frame by frame. Clocks, random draws,
received datagrams and the way a network cuts a stream are parameters and are
quantified over. AES (as a circuit on 128 wires) and HMAC are function
parameters, so what is proved holds for every cipher and every hash.

Three facts are worth knowing before reading on.

* The field size of the sharing code is 2^521 - 1. That this number is prime is
  a hypothesis (`IsPrime`) of the lemmas that need it; they are stated for every prime.
* `src/server/README.md`, line 177, says that no nullifier is committed when
  cheating is detected. The code saves the nullifier before it asks for the
  verdict. The model follows the code; `Ledger.CheatingCommits` says exactly
  when the ledger stays unchanged.
* Properties one might expect hold only under a condition the code does not
  check, and are stated with the exact condition. A secret comes back when its
  number is below the prime (`SharingTheorems.SharesReconstruct`); for a text
  email that means at most 65 bytes (`SharingTheorems.TextEmailRoundTrip`). The
  forwarder's split is independent of how the stream was cut when header and
  body have certain sizes (`Forwarder.CutsIrrelevantExactly`). The SMTP
  reader's -1 means that the stream ended without a final line unless the first
  final line begins with "-1" and no further digit, "-01", or a blank and "-1"
  (`Smtp.MinusOneMeans`). No cipher input repeats within a run of up to 2^64
  records (`TlsTheorems.InputsRepeatOnlyOnWrap`), but two processes with one
  shard share some as soon as both have sealed a record
  (`TlsTheorems.RestartRepeats`).

## Model

| member | source | states |
|---|---|---|
| `Sharding.ThresholdSharder.ShardSecret` | src/client/sharding.py:18-38 | the loops produce, for nodes 1 to n in order, the value of the secret's polynomial at the node id modulo the prime, with length, threshold and node count |
| `Sharding.ThresholdSharder.ReconstructSecret` | src/client/sharding.py:40-54 | fails with a missing inverse exactly when two abscissas agree modulo the prime, otherwise returns the interpolating polynomial's value at zero as bytes, or overflows exactly when it does not fit |
| `Sharding.EnrollEmail` | src/client/sharding.py:56-59 | an email is shared among nodes 1 to n with threshold 3 and epoch 1, and its length in bytes is reported |
| `Sharding.ReconstructEmail` | src/client/sharding.py:61-68 | the first three share strings are read as the points of nodes 1 to 3; a malformed one is an error |
| `SharingTheorems.SharesReconstruct` | src/client/sharding.py:18-54 | any t or more shares of one call, in any order, reconstruct the bytes, leading zeros included, if and only if the number they spell is below the prime |
| `SharingTheorems.QuorumReconstructs` | src/client/sharding.py:40-54 | from any t or more distinct node ids the interpolated number is the secret modulo the prime |
| `SharingTheorems.SecretIsValueAtZero` | src/client/sharding.py:40-52 | for any points with distinct abscissas, honest or not, the result is the value at zero of every polynomial through them that is short enough |
| `SharingTheorems.ExactlyOneExplanation` | src/client/sharding.py:20-27 | whatever shares t - 1 nodes hold, every candidate secret is explained by exactly one choice of the random coefficients |
| `SharingTheorems.OrderIrrelevant` | src/client/sharding.py:43-52 | the interpolated value does not depend on the order of the points |
| `SharingTheorems.ExtraPointsIrrelevant` | src/client/sharding.py:43-52 | further points on the interpolating polynomial do not change the value |
| `SharingTheorems.ShortSecretsFit` | src/client/sharding.py:16-19 | sixty-five bytes always spell a number below 2^521 - 1 |
| `SharingTheorems.EmailRoundTrip` | src/client/sharding.py:56-68 | with at least three nodes, reconstructing the enrolled email with the length the enrollment reports gives it back if and only if it fits the field |
| `SharingTheorems.TextFitsExactly` | src/client/sharding.py:16-19 | bytes that do not start with 0 or 1, as no printable text does, spell a number below 2^521 - 1 if and only if there are at most 65 of them |
| `SharingTheorems.TextEmailRoundTrip` | src/client/sharding.py:56-68 | an enrolled text email comes back if and only if it has at most 65 bytes; every longer one is lost |
| `SharingTheorems.EnrollAndReconstruct` | src/enroll_test.py:20-50 | enrolling, collecting the share strings and reconstructing with the reported length gives the email back if and only if it fits the field |
| `SharingTheorems.ThresholdSuffices` | src/client/sharding.py:33-68 | any shares of an enrollment, as many as its threshold says, reconstruct the email with its reported length if and only if it fits |
| `SharingTheorems.BelowThreshold` | src/client/sharding.py:18-27 | any shares of an enrollment, one fewer than its threshold, are explained by every candidate number in exactly one way |
| `SharingTheorems.ToBytesExactly` | src/client/sharding.py:54-54 | the conversion gives the bytes of that length that spell the number, and overflows exactly when there are none |
| `SharingTheorems.NotInvertibleExactly` | src/client/sharding.py:45-51 | reconstruction raises for a missing inverse exactly when two abscissas agree modulo the prime |
| `SharingTheorems.BadNumeralExactly` | src/client/sharding.py:64-65 | an email's reconstruction refuses exactly the share lists with a malformed numeral among the first three |
| `Polynomial.RootBound` | src/client/sharding.py:40-52 | modulo a prime, a polynomial with as many distinct roots as coefficients is zero |
| `Polynomial.InterpolationUnique` | src/client/sharding.py:40-52 | two polynomials through the same k points and no longer than k agree everywhere and in every coefficient |
| `Polynomial.LagrangeInterpolates` | src/client/sharding.py:43-52 | the weighted basis the loops build passes through every point |
| `ModArith.ModularInverse` | src/client/sharding.py:51-51 | the modular power with exponent -1 returns the only reduced inverse, or fails when there is none |
| `ModArith.InverseExists` | src/client/sharding.py:49-51 | modulo a prime exactly the multiples of the prime have no inverse |
| `Tls.BytesToBools` | src/server/tls_smpc.h:23-29 | fills the buffer with the bits of each byte, lowest first |
| `Tls.BitOfBytes` | src/server/tls_smpc.h:23-29 | wire 8 * i + b is what shifting byte i right by b and masking gives |
| `Tls.BoolsToBytes` | src/server/tls_smpc.h:31-39 | fills the buffer with the bytes the bits spell |
| `Bits.BytesBitsBytes` | src/server/tls_smpc.h:23-39 | converting bytes to bits and back gives the bytes |
| `Bits.BitsBytesBits` | src/server/tls_smpc.h:23-39 | converting bits to bytes and back gives the bits |
| `Tls.HkdfExpandLabel` | src/server/tls_smpc.h:52-91 | writes exactly the first out_len bytes of T(1), T(2), ... over the HkdfLabel, touches nothing after them, hashes exactly the messages of those rounds, and fails exactly when the label is longer than 54 bytes |
| `Tls.ExpandPiece` | src/server/tls_smpc.h:70-90 | the output's bytes from 32 * (i - 1) on are those of T(i) |
| `TlsLayout.RoundHashes` | src/server/tls_smpc.h:73-84 | up to 255 rounds, T(i) is the HMAC of T(i - 1), which is empty for the first, the info and the byte i |
| `TlsLayout.HashedOnce` | src/server/tls_smpc.h:73-84 | the messages an expansion of up to 8160 bytes hashes give its rounds and are pairwise different |
| `TlsLayout.FirstBlock` | src/server/tls_smpc.h:52-91 | up to 32 bytes are cut from the HMAC of the info and the byte one |
| `TlsLayout.HkdfLabelReads` | src/server/tls_smpc.h:57-66 | the info, read by the structure of RFC 8446, section 7.1, holds the output length, "tls13 " and the label, and no context |
| `TlsTheorems.HkdfLabelInjective` | src/server/tls_smpc.h:57-66 | different output lengths or labels give different HkdfLabel encodings |
| `TlsTheorems.MessagesDistinct` | src/server/tls_smpc.h:73-85 | up to 8160 bytes of output no HMAC message is used twice within one expansion, nor as first message of two different ones |
| `Tls.MpcTlsSession.InitFromShard` | src/server/tls_smpc.h:96-113 | derives both keys and the IV from the zero-padded first 48 bytes of the shard; the sequence number runs on |
| `TlsLayout.KeySchedule` | src/server/tls_smpc.h:96-113 | both keys and the IV are cut from one HMAC each, under the labels "key", "iv" and "s ap key", of the shard filled up with zeros |
| `Tls.MixedNonce` | src/server/tls_smpc.h:153-159 | the byte loop mixes the big-endian sequence number into the last eight bytes of the IV |
| `Tls.MpcTlsSession.Encrypt` | src/server/tls_smpc.h:135-240 | writes exactly the record of len + 21 bytes and nothing else, feeds the cipher blocks of twelve bytes of nonce and a big-endian counter 2, 3, ... and then 1, and advances the 64-bit sequence number |
| `Tls.CounterBlockFields` | src/server/tls_smpc.h:170-179 | a cipher input's first twelve bytes are the nonce and its last four spell the counter |
| `TlsLayout.NonceFields` | src/server/tls_smpc.h:153-159 | a nonce begins with four bytes of the IV, and its last eight mixed with the IV spell the sequence number |
| `TlsLayout.RunInputFields` | src/server/tls_smpc.h:153-215 | every cipher input of a run, read as bytes, spells the number of its record and its counter |
| `TlsLayout.AesWires` | src/server/tls_smpc.h:144-188 | the circuit gets the key on its first wires and the block on its second |
| `TlsLayout.CiphertextByte` | src/server/tls_smpc.h:166-198 | ciphertext byte i is the plaintext's mixed with byte i % 16 of the cipher's output on any block that reads as the nonce and counter i / 16 + 2 |
| `TlsLayout.TagByte` | src/server/tls_smpc.h:200-232 | tag byte b is the cipher's output on the block of counter 1 mixed with every sixteenth ciphertext byte from b on |
| `Bytes.XorBit` | src/server/tls_smpc.h:158-158 | a bit of an exclusive or is set where exactly one of the two bits is |
| `TlsTheorems.NonceInjective` | src/server/tls_smpc.h:153-159 | different sequence numbers give different nonces |
| `TlsTheorems.InputsRepeatOnlyOnWrap` | src/server/tls_smpc.h:153-179 | under one key and IV no cipher input of a run is used twice if and only if there are at most 2^64 records, wherever the numbering starts |
| `TlsTheorems.EncryptRun` | src/server/tls_smpc.h:135-240 | a session that seals texts one after the other feeds the cipher the inputs of the run function, without a repetition if and only if there are at most 2^64 texts, and every record opens to its text under the nonce of its own number |
| `TlsTheorems.TwoRunsRepeat` | src/server/tls_smpc.h:153-179 | two runs under one key and IV share a cipher input if and only if they share a record number |
| `TlsTheorems.RestartRepeats` | src/server/tls_smpc.h:96-179 | two processes started from one shard share a cipher input if and only if each has sealed a record |
| `TlsTheorems.RecordOpens` | src/server/tls_smpc.h:138-232 | a receiver that reads the header length, checks the tag and strips the keystream gets the plaintext back if and only if the length fits the header |
| `TlsTheorems.CounterModeInverts` | src/server/tls_smpc.h:190-198 | mixing with the same keystream again recovers the plaintext, a partial last block included |
| `Registry.NodeKeyInjective` | src/server/discovery.cpp:91-93 | two pairs of integers have the same key string only if they are equal |
| `Registry.KeyReads` | src/server/discovery.cpp:91-93 | a key reads as the party before the first colon and the port after it |
| `Registry.DiscoveryServer.RegisterNode` | src/server/discovery.cpp:95-116 | the string-keyed map goes on representing the pair-keyed table, which gains the node or has its host, status and time renewed; reports whether it was new |
| `Registry.DiscoveryServer.UpdateRelayStatus` | src/server/discovery.cpp:118-136 | changes the relay fields of a known node, keeps an old name when the new one is empty, and ignores unknown nodes |
| `Registry.DiscoveryServer.ResolveParty` | src/server/discovery.cpp:138-148 | fails exactly when the party has no online node, otherwise answers with the online node whose key comes first |
| `Registry.DiscoveryServer.PruneStale` | src/server/discovery.cpp:241-257 | removes exactly the entries last seen more than the time to live ago and reports whether there were any |
| `Registry.LeastExists` | src/server/discovery.cpp:140-146 | the key order is total, so the walk over the map always has a next key |
| `Registry.LeqByFirstDifference` | src/server/discovery.cpp:140-146 | the map's order is decided by the first character that differs, a prefix coming first |
| `RegistryRuns.EntriesOrdered` | src/server/discovery.cpp:95-116 | in every reachable table an entry sits under its own node and joined_at <= last_seen <= now |
| `RegistryRuns.PresentExactly` | src/server/discovery.cpp:95-257 | after any run a node is listed exactly when it has announced itself and no later sweep found its last announcement too old |
| `RegistryRuns.EntryExactly` | src/server/discovery.cpp:95-136 | after any run every field of a listed node is told: host, status and last_seen from its last announcement, joined_at from the one with which it joined, relay status and name from the reports since then |
| `RegistryRuns.PlayAndResolve` | src/server/discovery.cpp:95-257 | a server that goes through any events resolves a party exactly when some listed node of it last announced itself as online, and answers with the host that node announced, first key first |
| `RegistryRuns.NeverRemoved` | src/server/discovery.cpp:234-257 | a node whose announcements are never more than the time to live apart stays listed and keeps its join time and relay fields |
| `RegistryRuns.SteadyHeartbeat` | src/server/mpcauth_server.cpp:494-500 | a node that announces itself at gaps no longer than the time to live, as the 15 s heartbeat does against 30 s, is in the table after any run |
| `RegistryRuns.StalenessBound` | src/server/discovery.cpp:234-257 | with sweeps no further apart than an interval, counted from the start, no entry is ever older than the time to live plus the interval, before the first sweep included |
| `RegistryRuns.StalenessBoundMet` | src/server/discovery.cpp:234-257 | for every time to live and positive interval there is such a run that reaches that bound |
| `WebSocket.SendWsText` | src/server/discovery.cpp:486-503 | the bytes pushed are the text frame with the length in its one-, two- or eight-byte form |
| `WebSocket.RecvHead` | src/server/discovery.cpp:419-437 | reads opcode, length in any of the three forms and mask, and stops at a close frame or a short read |
| `WebSocket.ReadLoop` | src/server/discovery.cpp:417-447 | passes over the payloads with the boundaries the frames give, however the payload bytes arrive, for declared lengths that fit the signed 32-bit cast |
| `WebSocket.FramesRoundTrip` | src/server/discovery.cpp:417-503 | reading the frames of any texts that fit one send gives the texts with their boundaries and leaves no byte over |
| `WebSocket.AnyFramesRead` | src/server/discovery.cpp:417-447 | of any frames, masked or not, of any opcodes and with lengths in any form, the reader passes over exactly the payloads before the first close frame and stops there |
| `WebSocket.CutOffFrame` | src/server/discovery.cpp:419-447 | of a frame that the stream cuts off, the reader passes over as much of the payload as has come, and over nothing if the head is incomplete |
| `WebSocket.FrameIsText` | src/server/discovery.cpp:486-503 | a pushed frame is a single unmasked text frame with its length in the shortest form |
| `RelayWire.BuildRelayMsg` | src/server/relay_client.cpp:216-238 | lays out magic, type, port, cookie or zeros, and the payload cut to the buffer |
| `RelayWire.MsgFields` | src/server/relay_client.cpp:216-238 | magic, type, big-endian port, cookie and payload stand at bytes 0, 1, 2, 4 and 20 |
| `RelayWire.ExtractSubdomain` | src/server/relay_client.cpp:40-53 | the scan stays inside any byte string, ends, and finds the first entry for the port |
| `RelayWire.ScanFindsFirst` | src/server/relay_client.cpp:37-53 | on any encoded list the scan gives the first name listed for the port |
| `RelayWire.FieldParts` | src/server/relay_client.cpp:37-50 | an entry is a big-endian port, a length byte and the name |
| `Relay.RelayEngine.HandleRelayPacket` | src/server/relay_client.cpp:175-202 | a Challenge of at least 20 bytes stores its cookie and is confirmed, Neighbors registers and may assign a name, anything else changes nothing |
| `Relay.RelayEngine.ParseNeighbors` | src/server/relay_client.cpp:204-214 | a new non-empty name is stored and reported, any other is ignored |
| `Relay.ChallengeUnderstood` | src/server/relay_client.cpp:175-238 | a Challenge laid out with any cookie hands exactly that cookie over, registers, and is confirmed with it |
| `Relay.NeighborsUnderstood` | src/server/relay_client.cpp:37-238 | a Neighbors message with an encoded list that fits the buffer registers, and stores and reports the first name listed for the port, keeping the old one when there is none |
| `Relay.RelayEngine.EngineStep` | src/server/relay_client.cpp:146-172 | one iteration receives, then sends a heartbeat or a Register when it is due |
| `RelayRuns.PlayInputs` | src/server/relay_client.cpp:143-172 | the engine, taken through any datagrams and timeouts, has the state of the run and has sent and called back exactly what its iterations say, after one Register at the start |
| `RelayRuns.StaysRegistered` | src/server/relay_client.cpp:190-248 | once registered, always registered |
| `RelayRuns.RegisteredExactly` | src/server/relay_client.cpp:143-248 | the client is registered exactly when a full Challenge or a Neighbors datagram has come |
| `RelayRuns.OthersIgnored` | src/server/relay_client.cpp:146-202 | any other datagram changes nothing and is not answered |
| `RelayRuns.RegisterExactly` | src/server/relay_client.cpp:160-171 | a Register is sent in exactly the iterations that end unregistered ten seconds or more after the start |
| `RelayRuns.RegisterIsBlank` | src/server/relay_client.cpp:240-243 | every Register names the port and carries a blank cookie and no payload |
| `RelayRuns.NoRegisterOnceRegistered` | src/server/relay_client.cpp:168-171 | no Register is sent in or after an iteration that ends registered |
| `RelayRuns.ConfirmAnswersChallenge` | src/server/relay_client.cpp:181-188 | a Confirm goes out exactly in answer to a full Challenge, once, with the cookie of that Challenge |
| `RelayRuns.HeartbeatCookie` | src/server/relay_client.cpp:256-259 | every Heartbeat carries the cookie of the latest Challenge, zeros if none ever came |
| `RelayRuns.CallbacksFollowSubdomain` | src/server/relay_client.cpp:204-214 | consecutive subdomain callbacks differ and the last one names the stored subdomain |
| `RelayRuns.HeartbeatAtSends` | src/server/relay_client.cpp:160-166 | the iterations counted as heartbeats are exactly those that send one |
| `RelayRuns.HeartbeatSpacing` | src/server/relay_client.cpp:160-166 | with iterations at most 5 s apart, consecutive heartbeats are at least 90 and less than 95 s apart |
| `RelayRuns.NextHeartbeat` | src/server/relay_client.cpp:143-166 | from any registered moment the next heartbeat comes in under 95 s |
| `RelayRuns.TwoHeartbeats` | src/server/relay_client.h:23-23 | while registered, every 190 s, so every 270 s time to live, holds two heartbeats |
| `Smtp.ReadResponse` | src/server/smtp_client.cpp:47-84 | the code depends on the stream alone, not on the reads; no byte is lost or invented |
| `Smtp.RescanIsOnePass` | src/server/smtp_client.cpp:61-82 | rescanning everything after each read computes what a scanner that sees each byte once computes |
| `Smtp.FinalCodeIsFirstFinalLine` | src/server/smtp_client.cpp:61-81 | there is a code exactly when some complete line has a space in fourth place, and it is that of the first such line |
| `Smtp.FinalStable` | src/server/smtp_client.cpp:50-83 | a code once found stays whatever arrives later |
| `Smtp.ReplyUnderstood` | src/server/smtp_client.cpp:47-84 | a reply of RFC 5321, section 4.2.1, of any number of lines is answered with its three digits as a number, whatever follows |
| `Smtp.MinusOneMeans` | src/server/smtp_client.cpp:45-84 | -1 is returned if and only if no complete line is final, or the first final line, without a carriage return, begins with "-1" and no further digit, "-01", or a blank and "-1" |
| `Smtp.MinusOneFromALine` | src/server/smtp_client.cpp:72-78 | a complete final line for which the reader answers -1 |
| `Forwarder.SmtpForwarder.VerifyProof` | src/server/forwarder.cpp:134-173 | accepts exactly when circuit hash and signature match and the commitments, at least one, are those of an honest prover with as many chunks |
| `Forwarder.TamperedRejected` | src/server/forwarder.cpp:134-173 | a proof accepted for one ciphertext is rejected for any other, short of an HMAC collision |
| `Forwarder.CommitmentsCover` | src/server/forwarder.cpp:158-169 | the chunks tile exactly the first n * (len / n) bytes, fewer than n are left over, and none exactly when n divides the length |
| `Forwarder.CommitmentsDetermine` | src/server/forwarder.cpp:158-169 | for ciphertexts of one length, short of an HMAC collision, n commitments agree if and only if the first n * (len / n) bytes do |
| `Forwarder.Reassemble` | src/server/forwarder.cpp:233-269 | the two read loops compute the split for every way the network cuts the stream |
| `Forwarder.SplitExactly` | src/server/forwarder.cpp:233-269 | when the empty line ends within 8191 bytes and at most 4096 follow, header and ciphertext are what stands before and after it |
| `Forwarder.CutsIrrelevantExactly` | src/server/forwarder.cpp:233-269 | the split is the same for all cuts if and only if there is no empty line in the first 8192 bytes, or it ends within 8191 and at most 4096 bytes follow |
| `Json.GetStringExactly` | src/server/forwarder.cpp:61-73 | on every text, malformed ones included, the string extractor returns what its pieces between quotes determine: the second piece after the first colon after the first whole piece that is the key |
| `Json.GetStringArray` | src/server/forwarder.cpp:75-93 | the loop collects the texts between each two quotes inside the brackets after the key |
| `Json.StringArrayExactly` | src/server/forwarder.cpp:75-93 | on every text these are every second piece between the first opening bracket after the key and the next closing one |
| `ProofHeader.HeaderReadsBack` | src/server/forwarder.cpp:61-274 | from a written header the three extractions give back hash, signature and all commitments, for any hexadecimal texts, any number of commitments and any blanks |
| `Forwarder.HandleClient` | src/server/forwarder.cpp:230-284 | forwards the ciphertext of a stream exactly when it splits and the proof extracted from its header is accepted |
| `Forwarder.HonestStreamForwarded` | src/server/forwarder.cpp:61-284 | a written header with an honest proof, an empty line and at most 4096 bytes of ciphertext are accepted and forwarded unchanged, however the stream is cut |
| `Ledger.ComputeHashToHex` | src/server/mpcauth_server.cpp:232-244 | the loops spell the bits four to a digit, lowest first, a short last group included |
| `Ledger.HashToHexInjective` | src/server/mpcauth_server.cpp:232-244 | equally long hashes have the same nullifier only if they are equal |
| `Ledger.HexBit` | src/server/mpcauth_server.cpp:232-244 | bit i of the hash is bit i % 4 of digit i / 4 of the nullifier |
| `Ledger.NullifierIsLine` | src/server/mpcauth_server.cpp:232-244 | a nullifier has no newline and is not empty |
| `Ledger.LinesOfRendered` | src/server/mpcauth_server.cpp:214-228 | reading a file of appended nullifiers line by line gives exactly these |
| `Ledger.NullifierLedger.LoadNullifierDatabase` | src/server/mpcauth_server.cpp:214-222 | adds the non-empty lines of any file to the set |
| `Ledger.NullifierLedger.SaveNullifier` | src/server/mpcauth_server.cpp:224-228 | appends one line |
| `Ledger.NullifierLedger.Restart` | src/server/mpcauth_server.cpp:431-431 | after a restart the set in memory is again the set of lines in the file |
| `Ledger.NullifierLedger.FinishSession` | src/server/mpcauth_server.cpp:338-355 | a known nullifier is rejected and nothing changes; a new one is added to memory and file before the verdict on cheating |
| `Ledger.LinesDistinct` | src/server/mpcauth_server.cpp:338-347 | no nullifier stands on two lines after any run |
| `Ledger.RejectedExactly` | src/server/mpcauth_server.cpp:338-355 | over sessions and restarts, a session is rejected if and only if the same hash has come up before, and succeeds, with its own nullifier, only when it did not cheat |
| `Ledger.NeverSignedTwice` | src/server/mpcauth_server.cpp:338-355 | no nullifier is returned as a success twice |
| `Ledger.CheatingCommits` | src/server/mpcauth_server.cpp:343-353 | a cheating session leaves the ledger alone if and only if its hash was known; afterwards that identity is rejected |
| `Ledger.PlayEvents` | src/server/mpcauth_server.cpp:214-355 | a node that goes through any sessions and restarts has the file, the set in memory and the answers of the run functions, and never gives the same success twice |
| `XorShares.ConvertBytesToBits` | src/web-client/src/mpc_util.ts:2-11 | the padded binary numerals give the bits of each byte, highest first |
| `XorShares.BitAt` | src/web-client/src/mpc_util.ts:2-11 | bit 8 * k + i is bit 7 - i of byte k |
| `XorShares.PackBits` | src/web-client/src/mpc_util.ts:29-35 | the bits set one by one are the packed bytes, the last one filled up with clear bits |
| `XorShares.PackedBit` | src/web-client/src/mpc_util.ts:29-35 | bit j stands in byte j / 8 at place 7 - j % 8, and places past the end are clear |
| `XorShares.PackInvertsConvert` | src/web-client/src/mpc_util.ts:2-36 | packing the bits of some bytes gives the bytes back |
| `XorShares.GenerateXorShares` | src/web-client/src/mpc_util.ts:13-27 | for every draw the shares combine to the input, and all but the first are the drawn ones |
| `XorShares.CombinedIsParity` | src/web-client/src/mpc_util.ts:13-27 | a bit of the combination is set when an odd number of shares have it set |
| `XorShares.EveryShareDrawn` | src/web-client/src/mpc_util.ts:18-22 | every choice of the drawn shares comes from some drawn bytes |
| `XorShares.OneCompletion` | src/web-client/src/mpc_util.ts:13-27 | whichever share is missing, the others fit every secret through exactly one value of it |
| `Reconnect.SharedSocket.constructor` | src/web-client/src/ws.ts:90-91 | importing the module leaves exactly one thing under way: a socket that will close or a timer that will fire |
| `Reconnect.SharedSocket.Connect` | src/web-client/src/ws.ts:46-53 | makes one socket, or schedules a reconnect when that fails |
| `Reconnect.SharedSocket.TimerFires` | src/web-client/src/ws.ts:82-88 | the early return is never taken, and the count stays at one |
| `Reconnect.SharedSocket.OnOpen` | src/web-client/src/ws.ts:55-57 | the open event keeps the count at one and marks the client connected |
| `Reconnect.SharedSocket.OnError` | src/web-client/src/ws.ts:76-79 | the error event disconnects and starts closing the socket, if it was connecting or open, without scheduling a second reconnect |
| `Reconnect.SharedSocket.OnClose` | src/web-client/src/ws.ts:71-74 | the close event leaves no socket and exactly one pending timer |

## Left out

- Sharding.ParseHex: does not model the other spellings Python's `int(s, 16)` takes (signs, underscores, surrounding blanks, digits of other scripts).
- Sharding.ReconstructEmail: refuses such spellings as malformed, and returns the bytes without decoding them.
- Text encodings: emails are byte strings; UTF-8 encoding and decoding are not modelled.
- The primality of 2^521 - 1, which is a hypothesis.
- AES, SHA-256, HMAC and the circuits behind them are parameters; nothing is claimed about their strength, and the tag is the exclusive-or placeholder of the code, not GCM's.
- Party BOB's side of the record layer, which writes no ciphertext of its own.
- Sockets, threads, locks, timeouts and the file system: they appear as parameters, as the sequence of events or as a string.
- Forwarder.HandleClient: stops at the bytes handed to the mail server.
- HTTP routing, the topology text and the list of WebSocket clients.
- WebSocket.ReadLoop: says nothing about declared payload lengths from 2^31, where the code's cast to a signed 32-bit integer changes the number.
- WebSocket.FramesRoundTrip: says nothing about frames of 2^31 bytes and more, for the same cast in the call of `send`.
- WebSocket.RecvHead: assumes, as the code does, that the short reads of a frame head arrive whole; a head of a single byte, whose second byte the code leaves unset, counts as the end.
- ProofHeader.Header: no code of the repository writes this header; the order of its members follows `PROTOCOL_FLOWS.md`, line 127.
- Reading a file torn in the middle of a line, and two processes that write the nullifier file at once.
- The Base64 step of `bitsToB64`, which the browser's `btoa` performs.
- The datagram that opens the network address translation, and forwarding of QUIC packets.
- Arithmetic overflow of 32-bit lengths and of clocks.
- `src/server/llss_mpc.h`, `src/server/h3_proxy.cpp`, `src/server/smtp_mpc.h` and the delivery script of `src/server/smtp_client.cpp`: wrappers and scripts around foreign libraries.
