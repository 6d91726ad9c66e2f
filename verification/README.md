# go-ipmi: a verified model of its session core and decoders

go-ipmi is a client for the Intelligent Platform Management Interface. This
project models the parts of it that are protocol or algorithm rather than one
command wrapped in a struct, and proves what they guarantee:

- the RMCP+ session establishment (Open Session, RAKP Messages 1 to 4, the loop
  over cipher suites, the derivation of SIK, K1 and K2), its safety over every
  run and its agreement with a managed system that follows the specification;
- the v1.5 and v2.0 packet layers, end to end: encryption, integrity trailer,
  framing, and a receiver with the same keys;
- the two sequence counters under every interleaving of threads;
- the streaming MD2 implementation, refined to the two-pass definition of RFC 1319;
- FRU reading in pieces, the walk over multi-record areas, type/length fields
  (with 6-bit ASCII) and the custom fields of an area;
- cipher suite discovery: paging, record parsing, the order of preference;
- ones' and twos' complement codecs and the IPMI checksums.

Verify everything with `dafny verify dfyconfig.toml` in this directory.

## How it is laid out

| file | what it models |
|---|---|
| `bits.dfy`, `bytes.dfy` | XOR bit by bit, little-endian integers, the byte-slice helpers of helpers.go |
| `crypto.dfy` | HMAC, MD5, AES and RC4 as arbitrary functions with their lengths and inverses; algorithm dispatch; AES in CBC mode |
| `rakp.dfy` | messages and formulas of the key exchange, and a managed system that follows the specification |
| `handshake.dfy` | the client's handshake as a function, and its safety and agreement |
| `packets.dfy` | RMCP, v1.5 and v2.0 packets, encryption, integrity code, the receiver |
| `datagrams.dfy` | what leaves the client byte by byte, and under which keys, stated without the functions that build it |
| `wire.dfy` | the packet structures as objects with Pack and Unpack |
| `session_v15.dfy` | v1.5 sessions: AuthCode, activation, every run of events |
| `ipmi_message.dfy` | IPMI requests and responses, checksums, the requester sequence number |
| `client.dfy` | the client as an object whose methods update its session in place, proved against the functions above |
| `runs.dfy`, `sequencing.dfy` | whole runs of a client; threads sharing a session |
| `md2.dfy`, `md2_digest.dfy` | RFC 1319 as two passes and the one-pass form; the digest object |
| `rfc1319.dfy` | RFC 1319 as equations, and the digest as their one solution |
| `fru_read.dfy`, `fru_termination.dfy` | FRU reads and walks, and when their loops end |
| `type_length.dfy`, `fru_area.dfy` | type/length fields; area fields |
| `cipher_suites.dfy` | discovery |
| `retries.dfy` | calling Connect20 again after it failed |
| `complement.dfy` | complement codecs |

Code that changes state in the repository is a class or a method with loops
here, tied by its `ensures` to a function; the theorems are lemmas about those
functions. The managed system and the network are arbitrary functions of
everything sent so far, so a theorem about them holds for every sequence of
answers, timeouts included. Random numbers are arbitrary inputs.

Client and managed system, sender and receiver share formulas, so agreement
between them says nothing about a formula both get wrong. What goes into every
code and key, and onto the wire, is therefore stated once more by offset, with the
numbers of the specification and over the primitives alone: the `Is..` predicates of
`rakp.dfy`, `crypto.dfy`, `handshake.dfy`, `datagrams.dfy` and `session_v15.dfy`. The
evidence of the handshake and the seal of the packets are stated over those.

## Where the code does not do what its names or documents promise

Each of these is stated as a theorem with its exact condition.

- The algorithms of a session need not be those of the cipher suite tried: the
  client takes whatever the Open Session Response carries
  (`Handshake.SuiteIsKeptIfCarried`, and `Handshake.SuiteIsNotAlwaysKept` for a
  run in which it happens).
- A failed Connect20 leaves the last suite it tried in the session, where the
  next call takes it for the user's choice: every retry tries only that suite.
  After the fallback list it is suite 12, with which no retry connects to a
  managed system that grants it (`Retries.RetryTriesLastSuite`,
  `Retries.RetryAgrees`, `Retries.FallbackCannotBeRetried`, and
  `Retries.RetriesFailWhereNewClientConnects` for a run in which it happens).
- MD2 AuthCodes do not depend on the session or the data: `md2.New().Sum(input)`
  appends the digest of the empty message to `input`, so the first 16 bytes are
  the padded password (`SessionV15.AuthCodeAgainstSpecification`,
  `SessionV15.Md2CodeOfTwoCommands`). In the same
  way the xRC4 key is the front of K2 whatever the initialization vector is
  (`Packets.Rc4KeyIgnoresVector`).
- xRC4 packets decrypt if and only if the sender's accumulated payload size is 0
  (`Packets.Rc4ReadsAtSizeZeroOnly`). Connecting again does not reset that size,
  nor the sequence number: in a later session not even the first xRC4 packet is
  read, unless the bytes sent before are a multiple of 2^32
  (`ClientRuns.LaterSessionsGoOn`).
- Received payloads that do not decrypt to what they should make the client panic
  (`Packets.DecryptPanicsExactly`), among them every encrypted one between the
  grant of AES and the derivation of the keys
  (`Packets.EncryptedAnswerBeforeKeysPanics`).
- Packets whose encrypted payload is 64 KiB or more (v2.0), or whose payload is
  256 bytes or more (v1.5), are cut by the length field (`Packets.EndToEnd`,
  `SessionV15.Session15Survives`).
- A MD2 `Write` narrows the length of its input to eight bits, and may then run
  off its buffer or hash bytes out of order (`Md2Digest.Digest.Write`,
  `Md2.WriteAppends`).
- The preferred cipher suites 15, 6, 11 and 12 never connect to a managed system
  that grants them (`CipherSuites.PreferredConnects`).
- Two of the three IANA bytes of an OEM cipher record are parsed as algorithms
  (`CipherSuites.RecordsRoundTrip`). The suite ids are read right all the same,
  unless one of those bytes is C0h or C1h (`CipherSuites.IdsAreRead`).
- A multi-record with more than 250 data bytes, unless it is the last, sends
  the walk to the wrong offset (`FruRead.WalkFollowsChain`); with 251 it reads
  the same record again without end (`FruTermination.Length251NeverEnds`).
- The read loop does not end for a device that counts no bytes in an answer
  (`FruTermination.ReadNeverEndsIffStalls`, `FruTermination.CountZeroNeverEnds`);
  for devices that always answer the same question the same way it ends within
  65535 rounds or never (`FruTermination.EndsSoonOrNever`).
- A custom text of one character in 8-bit ASCII has the end mark as its type/length
  byte and ends the custom fields (`FruArea.TailRoundTrip`).
- A custom field without content ends the custom fields of an area and one byte
  behind it is lost (`FruArea.ParsedIsConserved`). The parser panics on areas
  whose custom fields leave too little behind them (`FruArea.PanicsExactly`).
- The computed size of a 6-bit field is never its number of characters
  (`TypeLengthField.SizeCountsCharacters`).
- The complement decoders are wrong on sign-set fields of more than 16 bits
  (`Complement.DecodersAreRight`).

## Model

| member | source | states |
|---|---|---|
| `Handshake.LoopIsSafe` | interface_lan.go:235-269 | Over every suite list and every answer sequence: the loop ends Active exactly when it reports success (unless there was nothing to try and the session was Active before), and then the last attempt carries the evidence of `Authenticated`, with a suite from the list |
| `Handshake.AttemptIsAuthenticated` | interface_lan.go:239-265 | One attempt succeeds iff the session is Active, and then, in that very attempt: the requests carry the algorithms of the suite, the ids, the number drawn, the role and the name at their offsets; Open Session reported no error; the RAKP 2 id and code, the RAKP 3 code sent, the RAKP 4 status, id and check value, and SIK, K1 and K2 are the HMACs of the primitives over the inputs of sections 13.31 and 13.32 given by offset, read off the bytes that were exchanged |
| `Handshake.Rakp3Evidence` | cmd_rakp_message_3_4.go:102-177 | RAKP Message 3 turns the session Active only on a check value over the numbers, id and GUID of this exchange, after sending the code over the managed system's number; SIK is the HMAC over console's number, managed system's number, role and name, and K1 and K2 are the HMACs under it over twenty bytes 01h and 02h |
| `Handshake.Rakp1Evidence` | cmd_rakp_message_1_2.go:156-215 | RAKP Message 1 succeeds only on an answer whose code covers the sent and received fields, and never leaves the session Active |
| `Handshake.OpenEvidence` | cmd_open_session.go:131-191 | Open Session installs ids and algorithms exactly as an error-free answer gave them, and never leaves the session Active |
| `Handshake.ExchangesKeepKeysUsable` | cmd_rakp_message_3_4.go:64-154 | The exchanges, in whatever state they are called, make a session Active only with an RAKP-HMAC and an HMAC integrity algorithm of matching code length and with keys of that length |
| `Handshake.ConnectKeepsKeysUsable` | interface_lan.go:235-265 | The suite loop keeps that invariant for every suite list and every answer sequence |
| `Handshake.AttemptGetsGranted` | interface_lan.go:239-265 | Against a managed system that shares the user key and grants algorithms of one hash, asked for or not: an attempt succeeds iff the granted ones are an RAKP-HMAC and an HMAC integrity algorithm, and then the session has them and both sides hold the same SIK, K1 and K2 of this attempt |
| `Handshake.AttemptAgrees` | interface_lan.go:239-265 | The same for a managed system that follows the specification and so grants the suite tried, with the keys of the payloads exchanged |
| `Handshake.SuccessIsConnectable` | cmd_rakp_message_3_4.go:156-177 | Whatever is answered, an attempt succeeds only with an RAKP-HMAC and an HMAC integrity algorithm in the session |
| `Handshake.SuiteIsKeptIfCarried` | cmd_open_session.go:184-188 | After a successful attempt the session has the algorithms of the suite tried iff the Open Session Response carried them |
| `Handshake.SuiteIsNotAlwaysKept` | cmd_open_session.go:184-188 | A managed system that grants suite 16 whatever is asked connects a client that tries suite 15, for any primitives, name and password |
| `Handshake.FixedAnswerGrants` | cmd_open_session.go:131-191 | Managed systems that grant given algorithms and otherwise follow the specification exist: this one does |
| `Handshake.ConnectAgrees` | interface_lan.go:235-265 | The same for the whole loop: one connectable suite answered to specification suffices for success, whatever was answered to the others before |
| `Handshake.OpenAgrees` | cmd_open_session.go:61-191 | The request packed and the answer unpacked: the client ends up with the ids and algorithms the managed system chose |
| `Handshake.Rakp2AnswerUnpacks` | cmd_rakp_message_1_2.go:78-144 | The managed system reads id, number, role and name where the client packed them, and its answer unpacks to its own number, GUID and code |
| `Handshake.Rakp2Agrees` | client_auth_code.go:247-302 | Client and managed system compute the same RAKP 2 code; the exchange succeeds iff the authentication algorithm is an RAKP-HMAC one |
| `Handshake.Rakp4AnswerUnpacks` | client_auth_code.go:305-397 | The managed system accepts the client's RAKP 3 code, derives the same keys, and its check value unpacks unchanged |
| `Handshake.Rakp3Agrees` | cmd_rakp_message_3_4.go:54-177 | The last exchange succeeds iff the integrity algorithm is one whose check value the client can compute; the keys then agree |
| `Handshake.Rakp1Fields` | cmd_rakp_message_1_2.go:78-91 | The fields of RAKP Message 1 stand at the offsets of its table |
| `Handshake.AttemptSends` | cmd_rakp_message_1_2.go:78-102 | Whatever is answered, an attempt sends Open Session with the 32 bytes for its suite, then RAKP Message 1 with the granted id, the number drawn for it, the privilege level with bit 4 set and the name, and one RAKP Message 3 at most |
| `Handshake.OpenRequestLayout` | cmd_open_session.go:61-72 | The 32 bytes of the request: console id A0A1A2A3h, and three payloads of type 0, 1 and 2 with the numbers of the cipher suite table |
| `Handshake.SuiteIsInTable` | types_cipher_suite_id.go:46-93 | The algorithms of each suite are those of the table as numbers, and the confidentiality algorithm is the position in its group |
| `Handshake.GrantedSuiteIsUsed` | cmd_open_session.go:131-191 | An attempt that is granted what it asks for has the algorithms of the table in its session; suites 3, 8, 12 and 17 thus AES-CBC-128 |
| `Rakp.SikLayout` | client_auth_code.go:168-181 | The SIK input by offset: console's number, managed system's number, role, length of the name, name |
| `Rakp.Rakp2Layout` | client_auth_code.go:247-262 | The RAKP 2 input by offset: both ids, both numbers, GUID, role and name |
| `Rakp.Rakp3Layout` | client_auth_code.go:305-321 | The RAKP 3 input by offset: managed system's number, console's id, role and name |
| `Rakp.Rakp4Layout` | client_auth_code.go:342-372 | The RAKP 4 input by offset: console's number, managed system's id, GUID |
| `Rakp.DerivedKeys` | client_auth_code.go:168-244 | For every algorithm, key, number, role and name: SIK under Kg or else the user key over that input, K1 and K2 under SIK over 20 bytes 01h and 02h |
| `Crypto.AuthHmacIsCode` | helpers_hmac.go:51-83 | The code exists and is a given one iff that is the SHA1, MD5 or SHA256 HMAC for the numbers 1, 2 and 3 |
| `Crypto.IntegrityHmacIsCode` | helpers_hmac.go:51-83 | The same for the integrity numbers 1, 2 and 4, cut to 12, 16 and 16 bytes |
| `ClientRuns.EveryRunIsSafe` | interface_lan.go:211-281 | In every run of connects and sends from a new client, an Active session has the evidence and usable keys, its counters are the packets asked for and the xRC4 bytes of the whole run, and every packet is marked as its state requires |
| `ClientRuns.StepIsSafe` | interface_lan.go:235-269 | Every single connect or send preserves that |
| `ClientRuns.ActiveSessionCanSeal` | client_auth_code.go:122-162 | In every reachable Active session the integrity code exists for every input, with 12 bytes for SHA1 and 16 otherwise, and K2 holds an AES key |
| `ClientRuns.ConnectedPeerReads` | types_session.go:367-430 | After a successful connect, the managed system accepts and reads the next packet with the keys it derived itself from the handshake's payloads, iff the packet fits; the datagram ends in the HMAC of its bytes 4 to the code under the K1 the managed system derived |
| `ClientRuns.SendKeepsEvidence` | types_session.go:367-430 | Sending leaves the handshake's evidence intact |
| `ClientRuns.LaterSessionsGoOn` | cmd_open_session.go:131-191 | In every reachable Active session the next packet carries the number after all packets asked for in all sessions of the client; with xRC4 it is readable iff the payload bytes of all those with xRC4 are a multiple of 2^32 |
| `ClientRuns.SentIsMarked` | types_session.go:373-425 | Outside a session packets are clear with id and sequence 0; inside they are encrypted, authenticated and trailed unless the id is 0 |
| `ClientRuns.ConnectAroundIsSafe` | interface_lan.go:211-281 | Capabilities, suite loop and privilege level together: a call that succeeds leaves an Active session with the evidence and usable keys |
| `Packets.EndToEnd` | types_session.go:367-541 | For every raw payload of an Active session with AES or no encryption: packing, framing, unframing, recomputing the code and decrypting gives the raw payload, iff it is at most 65503 (AES) or 65535 bytes long |
| `Datagrams.SessionDatagram` | types_session.go:367-541 | Every raw payload of an Active session with any of the four confidentiality algorithms goes out as: RMCP frame, type byte with both bits, id, next number, length, the payload in clear, as AES-CBC blocks under the front of K2, or as RC4 bytes under the front of K2, then FFh pad bytes, their number, 07h and the code under K1 |
| `Datagrams.PacketIsSealed` | client_auth_code.go:122-162 | With HMAC-SHA1-96 the last 12 bytes of every such datagram are the front of the HMAC-SHA1, under the session's K1, of everything between the RMCP header and them; with the MD5 and SHA256 algorithms the same with 16 bytes |
| `Datagrams.CodeOfAlgorithm` | client_auth_code.go:122-162 | For every input the integrity code is nothing, the HMAC under K1, the MD5 digest between two passwords, or an error, by the number of the algorithm |
| `Datagrams.SetupDatagram` | types_session.go:367-430 | Outside an Active session a datagram is frame, header without either bit, id and number 0, and the payload |
| `Datagrams.HeaderLayout` | types_session.go:162-195 | The fields of a v2.0 header by offset, with and without OEM fields |
| `Datagrams.PayloadLayout` | types_session.go:493-593 | Encryption by algorithm: the AES payload is the vector and a chain of blocks over the padded payload; the xRC4 payload starts with the accumulated size, most significant byte first, and with the vector iff that is 0; other algorithms fail |
| `Packets.ActivePacket` | types_session.go:367-430 | Such a session always gets its packet: next sequence number, the managed system's session id, a payload that decrypts to the raw one, a fitting trailer |
| `Packets.CodeCovers` | types_session.go:453-485 | The integrity code covers exactly the sent bytes from AuthType/Format up to AuthCode, and the receiver finds it right |
| `Packets.TrailerIsFit` | types_session.go:432-485 | The trailer pads to a multiple of four bytes, states its pad length, and carries the code of all bytes in front of it |
| `Packets.TrailerIsMade` | client_auth_code.go:122-162 | Usable keys are enough for a trailer |
| `Packets.TrailerPadLength` | types_session.go:432-445 | Fewer than four pad bytes make the covered length a multiple of four |
| `Packets.Covered` | types_session.go:447-470 | The covered bytes are a multiple of four in number |
| `Packets.SessionRoundTrip` | types_session.go:238-319 | Header, payload, pad and a code of up to 16 bytes survive packing and unpacking, for 12- and 18-byte headers |
| `Packets.HeaderRoundTrip` | types_session.go:162-226 | A packed v2.0 header unpacks to itself whatever follows |
| `Packets.TrailerRoundTrip` | types_session.go:303-319 | A packed trailer unpacks to itself behind any bytes |
| `Packets.Header15RoundTrip` | types_session.go:66-102 | A packed v1.5 header unpacks to itself whatever follows, with and without a code |
| `Packets.Rmcp20RoundTrip` | types_rmcp.go:28-91 | A framed v2.0 packet is recognised and unpacked as one |
| `Packets.PacketSurvives` | types_rmcp.go:42-91 | A packet whose length fits comes off the wire whole |
| `Packets.LongPacketIsCut` | types_session.go:406-408 | A packet whose length wraps is never read back |
| `Packets.DecryptUndoesEncrypt` | types_session.go:493-613 | Decryption gives back every payload for AES-CBC-128 and for no encryption, with any initialization vector |
| `Packets.PaddingCountsUp` | types_session.go:499-513 | The confidentiality trailer is 1, 2, .. and its length, in the fewest whole blocks |
| `Packets.Rc4ReadsAtSizeZeroOnly` | types_session.go:543-640 | With xRC4 a receiver with the same key reads a packet iff the sender's accumulated payload size was 0 |
| `Packets.DecryptPanicsExactly` | types_session.go:597-645 | A received payload makes the client panic iff, with AES, it is less than two blocks or not whole blocks, there is no K2 yet, or the pad length decrypted from its last block and the byte in front of that reaches beyond it; with xRC4, iff it is shorter than 20 bytes |
| `Packets.EncryptedAnswerBeforeKeysPanics` | types_session.go:603-606 | After a new session was granted AES, and after RAKP Message 1, every encrypted payload does |
| `Crypto.CbcLastByte` | helpers_hmac.go:110-126 | The last decrypted byte comes from the last block and the byte in front of it |
| `Packets.Rc4KeyIgnoresVector` | types_session.go:564-579 | The xRC4 key is the front of K2 for every initialization vector |
| `Packets.SetupPacket` | types_session.go:367-430 | Outside a session the state stays as it was and the payload arrives in clear |
| `Packets.PacketKeepsKeys` | types_session.go:367-430 | Making a packet changes neither state, algorithms nor keys |
| `Crypto.CbcRoundTrip` | helpers_hmac.go:87-126 | CBC decryption undoes CBC encryption for every block function with an inverse |
| `Crypto.CbcChains` | helpers_hmac.go:87-108 | Each cipher block is the block function of the plain block XORed with the block in front of it |
| `Bits.XorBitAt` | helpers_hmac.go:87-126 | A bit of an XOR is set iff the bits of its operands differ |
| `Crypto.AuthHmac` | helpers_hmac.go:51-83 | A code exists exactly for the three RAKP-HMAC algorithms, with the length RAKP 2 carries |
| `Crypto.IntegrityHmac` | helpers_hmac.go:51-83 | A code exists exactly for the three HMAC integrity algorithms, with at least 16 bytes |
| `Sequencing.EveryScheduleKeepsRequests` | types_ipmi.go:146-173 | Under every interleaving of any number of threads, in whatever session: requests are numbered in build order, and none is sent twice |
| `Sequencing.RequestsShareNumberEvery63` | types_ipmi.go:146-173 | Requester sequence numbers stay in 1..63, and two requests share one iff they are a multiple of 63 apart; every request goes from 81h to 20h |
| `Sequencing.EveryScheduleIsCounted` | types_session.go:384-391 | Under every interleaving in every Active session, whatever its algorithms and whether or not encryption succeeds: each attempt to wrap draws the next number, in lock order, and each packet carries the number its attempt drew |
| `Sequencing.SequencesIncreaseUntilWrap` | types_session.go:384-391 | The numbers drawn are nonzero and strictly increasing iff the 32-bit counter has not wrapped, and until then so are those on the packets |
| `Sequencing.EveryScheduleIsCarried` | types_session.go:367-430 | With AES or no encryption, under every interleaving: no attempt fails, and each packet decrypts to the request it was made from |
| `Sequencing.PacketsIncreaseUntilWrap` | types_session.go:384-391 | There the packets' own numbers are nonzero and increasing iff the counter has not wrapped |
| `Sequencing.StepKeepsRequests` | types_ipmi.go:146-173 | Each locked step keeps the numbering and the single sending |
| `Sequencing.StepIsCounted` | types_session.go:367-391 | Each locked step keeps the numbers drawn in order |
| `Sequencing.StepIsCarried` | types_session.go:367-430 | Each locked step keeps what the packets carry |
| `SessionV15.EveryPacketIsConsistent` | types_session.go:334-365 | In every run of challenges, activations and commands, each packet's code is the one for the session id and sequence number of its own header |
| `SessionV15.StepIsSound` | cmd_activate_session.go:124-156 | Each event keeps that, resting on the inbound sequence number being 0 while not active |
| `SessionV15.PacketIsConsistent` | types_session.go:334-365 | One packet: type, id and sequence number are those of the session's stage, the number advances exactly in an active session, and the code is the one for the very id and number in the header, with MD5 the digest of the input given by offset |
| `SessionV15.SendableIffCode` | client_auth_code.go:53-91 | A packet can be made unless the session has an OEM or unknown authentication type |
| `SessionV15.AuthCodeAgainstSpecification` | client_auth_code.go:53-91 | By the number of the type: the code is that of section 22.17.1 for password and MD5; for MD2 it is the padded password whatever is sent; for any other type there is a panic |
| `SessionV15.MultiSessionLayout` | client_auth_code.go:53-72 | The input by offset: padded password, session id, payload, sequence number, padded password |
| `SessionV15.Datagram15` | types_session.go:66-134 | Every v1.5 packet by offset: frame, type, sequence number, session id, code, length, payload |
| `SessionV15.ChosenIsLowestFlag` | cmd_get_channel_authentication_capabilities.go:144-161 | Flag bits 1, 2, 4 and 5 stand for the types of the same numbers, and the lowest one set is chosen, 0 without any |
| `SessionV15.Md2CodeSaysNothing` | client_auth_code.go:81-84 | With MD2 any two packets under one password carry the same code |
| `SessionV15.Md2CodeOfTwoCommands` | client_auth_code.go:81-84 | Two named commands that differ in a byte, with different sequence numbers, do |
| `SessionV15.Session15Survives` | types_session.go:66-134 | A v1.5 packet comes off the wire as it was sent iff its payload is shorter than 256 bytes |
| `IpmiMessage.SealedPartsSumToZero` | types_ipmi.go:68-114 | Both checksummed parts of a request add up to 0 modulo 256 |
| `IpmiMessage.ChangedByteIsDetected` | types_ipmi.go:95-114 | Changing any one byte of such a part is detected |
| `IpmiMessage.SequenceSurvives` | types_ipmi.go:68-93 | The responder reads addresses, units, network function, command and data in their places; the sequence number survives the shift iff it has six bits |
| `IpmiMessage.ResponseRoundTrip` | types_ipmi.go:116-142 | A response laid out as section 13.8 unpacks to its fields |
| `IpmiMessage.ResponseLayout` | types_ipmi.go:116-142 | The fields of any response by offset |
| `IpmiMessage.SumRange` | types_ipmi.go:95-114 | The summing loop gives the two's complement checksum of the range |
| `IpmiMessage.IpmiRequest.Pack` | types_ipmi.go:68-93 | The buffer is the request layout |
| `IpmiMessage.IpmiRequest.ComputeChecksum` | types_ipmi.go:95-114 | Sets both checksums from the other fields, whatever they held before |
| `Client.NewClient` | client.go:78-127 | A client exists iff the user name has 1 to 16 bytes and the password is not empty; it starts in the pre-session state |
| `Client.Client.Connect20` | interface_lan.go:211-281 | Capabilities, discovery, the loop and the privilege level: the session becomes what the function of the theorems says, success means all of them succeeded and the session is Active with evidence; the invariant is kept |
| `Client.Client.TryCipherSuites` | interface_lan.go:228-269 | The loop over discovered suites or the user's own is the handshake function |
| `Client.Client.OpenSession` | cmd_open_session.go:131-191 | Updates the session and the payloads sent as the handshake function does that `Handshake.AttemptSends` and `Handshake.OpenEvidence` are about |
| `Client.Client.RAKPMessage1` | cmd_rakp_message_1_2.go:175-215 | Likewise |
| `Client.Client.RAKPMessage3` | cmd_rakp_message_3_4.go:102-154 | Likewise; the only method that makes the session Active |
| `Client.Client.ValidateRakp2` | cmd_rakp_message_1_2.go:156-173 | Accepts exactly the answer with the right id and code |
| `Client.Client.ValidateRakp4` | cmd_rakp_message_3_4.go:156-177 | Accepts exactly the answer with the right status, id and check value |
| `Client.Client.GenerateSik` | client_auth_code.go:168-195 | The buffer filled piece by piece is the input that `Rakp.SikLayout` gives by offset, keyed with Kg or the user key |
| `Client.Client.GenerateK1` | client_auth_code.go:200-220 | For every input and key from which the session's SIK was derived, the K1 of section 13.32 derived with it |
| `Client.Client.GenerateK2` | client_auth_code.go:225-244 | Likewise the K2 |
| `Client.Client.GenerateRakp2AuthCode` | client_auth_code.go:247-302 | The buffer is the RAKP 2 input of section 13.31 |
| `Client.Client.GenerateRakp3AuthCode` | client_auth_code.go:305-337 | The buffer is the RAKP 3 input |
| `Client.Client.GenerateRakp4AuthCode` | client_auth_code.go:342-397 | The buffer is the RAKP 4 input, and the code is cut as the integrity algorithm asks |
| `Client.Client.GenSession20` | types_session.go:367-430 | The new session and the packet object are those of the packet function; the invariant is kept |
| `Client.Client.GenSessionTrailer` | types_session.go:453-485 | The padding loop and appends give the trailer of the packet function |
| `Client.Client.GenIntegrityAuthCode` | client_auth_code.go:122-162 | The code that `Datagrams.CodeOfAlgorithm` gives by the number of the algorithm, under K1 |
| `Client.Client.EncryptPayload` | types_session.go:493-593 | The padding loop and the xRC4 state updates are those of the packet function |
| `Client.Client.DecryptPayload` | types_session.go:597-645 | Likewise, with the panics on short input |
| `Client.Client.BuildIPMIRequest` | types_ipmi.go:146-173 | A sealed request with the counter's value; the counter moves on from 63 to 1 |
| `Client.Client.GenSession15` | types_session.go:334-365 | One step of the v1.5 run, with its packet object |
| `Client.Client.AuthCode15` | client_auth_code.go:53-91 | The v1.5 code, through the MD2 digest object |
| `Client.Client.GetSessionChallenge` | cmd_get_session_challenge.go:54-71 | Sends, then takes over id and challenge of an answer; the run goes on by these events |
| `Client.Client.ActivateSession` | cmd_activate_session.go:124-156 | Sends, then becomes active with the id and number of an answer; the run goes on by these events |
| `SessionV15.ChosenTypeCanSend` | cmd_get_channel_authentication_capabilities.go:144-161 | The chosen type is one the client can compute a code for unless OEM is the only one supported |
| `Client.Client.ChooseAuthType` | cmd_get_channel_authentication_capabilities.go:144-161 | MD2 before MD5 before password before OEM |
| `Client.Client.GetChannelAuthenticationCapabilities` | cmd_get_channel_authentication_capabilities.go:106-192 | Sends, then takes over the authentication type chosen from the flags of an answer that unpacks |
| `Client.Client.Connect15` | interface_lan.go:170-208 | In whatever session there was before, it succeeds iff every exchange is answered, the first one can be sent and OEM is not the only supported type; the session is then active under the id of the activation, its number one past the initial one; the invariant is kept |
| `Wire.SessionHeader20.Pack` | types_session.go:162-195 | The cut buffer is the header layout |
| `Wire.SessionHeader20.Unpack` | types_session.go:197-226 | Sets the fields to the header on the wire; without an OEM payload the OEM fields stay |
| `Wire.SessionTrailer.Pack` | types_session.go:303-310 | The buffer is the trailer layout |
| `Wire.SessionTrailer.Unpack` | types_session.go:312-319 | Sets the fields from whatever bytes are there |
| `Wire.SessionPacket20.Pack` | types_session.go:238-246 | Header, payload and trailer |
| `Wire.SessionPacket20.Unpack` | types_session.go:248-283 | Succeeds exactly on long enough messages, and then holds the packet |
| `Wire.SessionHeader15.Pack` | types_session.go:66-78 | The buffer is the v1.5 header layout |
| `Wire.SessionHeader15.Unpack` | types_session.go:80-102 | Sets the fields to the header on the wire; without authentication the code stays |
| `Wire.SessionPacket15.Unpack` | types_session.go:119-134 | Succeeds exactly on long enough messages, and then holds the packet |
| `Md2.OnePassIsTwoPasses` | utils/md2/md2.go:157-180 | For every padded message, updating state and checksum block by block gives the state and checksum of the two passes of RFC 1319 |
| `Md2.FinishIsDigest` | utils/md2/md2.go:128-155 | Absorbing the checksum as one more block ends in the RFC digest of the message |
| `Rfc1319.DigestIsRfc1319` | utils/md2/md2.go:128-180 | For every message and substitution table the digest is the one solution of the equations of RFC 1319, sections 3.1 to 3.5: padding, checksum bytes, 18 rounds over 48 positions, first 16 bytes |
| `Md2.SumWrites` | utils/md2/md2.go:128-155 | Both writes of Sum leave the buffer empty, so that its panics are not reached |
| `Md2.ChunkingDoesNotMatter` | utils/md2/md2.go:81-126 | For every message and every split into writes of at most 240 bytes, the bytes hashed and buffered are the message |
| `Md2.WriteAppends` | utils/md2/md2.go:87-93 | A write of a given length appends, for all data, iff its narrowed length does not make it look short |
| `Md2.WriteParts` | utils/md2/md2.go:81-126 | Filling the buffer, hashing whole blocks and keeping the rest is what the write as a whole amounts to |
| `Md2Digest.Digest.Write` | utils/md2/md2.go:81-126 | Panics iff the narrowed length overruns the buffer; otherwise the fields hold the state after all bytes written |
| `Md2Digest.Digest.Sum` | utils/md2/md2.go:128-155 | Appends the RFC 1319 digest of everything written, and changes nothing |
| `Md2Digest.Digest.Block` | utils/md2/md2.go:157-180 | One block changes state and checksum as the one-pass function says, also when the block is the checksum array itself |
| `Md2Digest.Digest.Mix` | utils/md2/md2.go:166-172 | The nested loops are the 18 rounds |
| `Md2Digest.Digest.UpdateChecksum` | utils/md2/md2.go:174-179 | The last loop is the checksum step of the errata, also on the aliased block |
| `Md2Digest.Digest.constructor` | utils/md2/md2.go:53-74 | A new digest is valid and has absorbed nothing |
| `FruRead.PiecesAreOneRead` | cmd_read_fru_data.go:68-127 | For every device memory and every way of refusing or shortening reads: both loops end within 32 requests a byte, and a successful read is the one big slice |
| `FruRead.ReadsWithinMemory` | cmd_read_fru_data.go:68-127 | From a device that refuses reads only for their size, a stretch is read iff it lies within the memory |
| `FruRead.TryReadIsHonest` | cmd_read_fru_data.go:97-127 | Lowering the count ends, within count requests, in an answer within what was asked |
| `FruRead.RefusalIsRetried` | cmd_read_fru_data.go:97-127 | A refusal with C7h, C8h or CAh, and no other, is met by asking for one byte less, until none is left |
| `FruRead.GenerousReadIsFast` | cmd_read_fru_data.go:68-107 | From a device that gives what it is asked for, every stretch of its memory is read in as few requests as 32 bytes at a time allow |
| `FruRead.AreaIsAnnounced` | cmd_get_frus.go:234-301 | With a header of two bytes or more the two-step read gives the announced area or fails, and from a device that refuses reads only for their size it succeeds iff the area lies in the memory; it panics iff the first read returns fewer than two bytes |
| `FruRead.WalkFollowsChain` | cmd_get_frus.go:303-342 | From a device that refuses reads only for their size, the walk visits exactly the offsets of a chain and returns its records in order up to the end mark, iff every record before the last has at most 250 data bytes and every header answer reaches the length byte |
| `FruRead.FinishedWalkIsChain` | cmd_get_frus.go:303-342 | From every honest device, whatever it refuses, a walk that finishes on a chain whose records before the last have at most 250 data bytes has visited exactly the chain and returns its records |
| `FruRead.ReadRecordIsHonest` | cmd_get_frus.go:306-329 | From every honest device, a record that is read is the one in the memory |
| `FruRead.NextOffsetIsRight` | cmd_get_frus.go:334 | The eight-bit addition gives the next offset iff the length is at most 250; with 251 it gives the same offset |
| `FruRead.RecordIsRead` | cmd_get_frus.go:306-329 | A record in the memory is read iff the header answer has at least three bytes; the client panics iff it is a shorter answer, and fails iff there is none |
| `FruTermination.ReadNeverEndsIffStalls` | cmd_read_fru_data.go:72-88 | For devices that answer the same question the same way and count at most what was asked: reading never ends iff some answer on the way counts no bytes, and otherwise ends within as many rounds as bytes |
| `FruTermination.CountZeroNeverEnds` | cmd_read_fru_data.go:72-88 | A device that always answers with count 0 is asked without end |
| `FruTermination.EndsSoonOrNever` | cmd_read_fru_data.go:72-88 | For devices that answer the same question the same way, whatever they count: the loop ends within 65535 rounds or never |
| `FruTermination.Length251NeverEnds` | cmd_get_frus.go:334 | A record with 251 data bytes that is not the last is read at the same offset in every round |
| `FruRead.FruClient.TryReadFRUData` | cmd_read_fru_data.go:97-127 | The loop is the function the theorems are about |
| `FruRead.FruClient.ReadFRUDataByLength` | cmd_read_fru_data.go:68-92 | Likewise, with its 16-bit offset and length |
| `FruRead.FruClient.GetFRUAreaMultiRecords` | cmd_get_frus.go:303-342 | Likewise, with the panic on a short header |
| `FruRead.FruClient.ReadArea` | cmd_get_frus.go:234-255 | Likewise |
| `TypeLengthField.UnpackedText` | types_sdr_others.go:822-859 | Unpacking the packed form of every 6-bit text gives the text, plus one space iff its length is 3 modulo 4 |
| `TypeLengthField.TextOfPackedField` | types_sdr_others.go:794-868 | The same behind a type/length byte |
| `TypeLengthField.SixBitChars` | types_sdr_others.go:822-859 | The loop with its leftover bits gives the little-endian bit stream cut into six-bit groups, one character for each whole group |
| `TypeLengthField.GroupsAt` | types_sdr_others.go:838-857 | Which groups each byte completes, and from which bits |
| `TypeLengthField.Chars` | types_sdr_others.go:794-868 | All four encodings, decoded to what `TypeLengthField.WrittenIsRead` says, and the error when the lengths differ; no index out of range |
| `TypeLengthField.WrittenIsRead` | types_sdr_others.go:794-868 | Every text written as binary, as BCD plus in pairs, as 6-bit or as 8-bit ASCII is read back as itself, with one space more iff it is a 6-bit text of a length 3 modulo 4 |
| `TypeLengthField.SixBitCharacters` | types_sdr_others.go:838-857 | The four characters of any three bytes, and those of two bytes or one left over |
| `TypeLengthField.DigitsSurvive` | types_sdr_others.go:809-820 | Packed BCD digits come back in order |
| `TypeLengthField.SizeCountsCharacters` | types_sdr_others.go:769-791 | The computed size is the number of characters iff the encoding is not 6-bit, and never too small |
| `FruArea.TailRoundTrip` | types_fru.go:1010-1038 | Texts written as custom fields in any of the four encodings, end mark, unused bytes and checksum come back as the texts themselves, in order, iff none is empty or an 8-bit text of one character, whose type/length byte is the end mark |
| `FruArea.FieldsRoundTrip` | types_fru.go:1010-1038 | Any custom fields, end mark, unused bytes and checksum come back as the texts of the fields, the bytes and the checksum |
| `FruArea.FewerComeBack` | types_fru.go:1016-1030 | With a text that is empty, or an 8-bit text of one character, fewer texts come back than were written |
| `FruArea.ParsedIsConserved` | types_fru.go:1010-1038 | For any bytes that parse: fields, stop byte, unused bytes and checksum are the bytes, each once and in order; after an empty field one byte is lost |
| `FruArea.CustomsAreConserved` | types_fru.go:1016-1030 | What the loop consumed is the encoding of the fields it returned |
| `FruArea.CustomsAreRead` | types_fru.go:1016-1030 | Encoded fields are read in order, and reading goes on behind them |
| `FruArea.PanicsExactly` | types_fru.go:1010-1038 | For every data and offset: a panic iff the offset is 65535, or what the custom fields leave of the data is empty, an end mark as last byte, or an empty field with fewer than two bytes behind it |
| `FruArea.MissingEndPanics` | types_fru.go:1016-1036 | The same for encoded fields followed by anything that is not another custom field |
| `FruArea.CustomsEndAtRest` | types_fru.go:1016-1030 | Where and how the loop over the custom fields ends, for every data |
| `FruArea.FieldIsRead` | types_fru.go:979-1005 | An encoded field is read back with the offset behind it |
| `FruArea.FieldAt` | types_fru.go:979-1005 | A field that is read lies within the data, and the offset increases by its size |
| `FruArea.GetFRUTypeLengthField` | types_fru.go:979-1005 | The method is the function the theorems are about, panics and errors included |
| `FruArea.GetFRUCustomUnusedChecksumFields` | types_fru.go:1010-1038 | Likewise |
| `CipherSuites.PagesAreData` | cmd_get_channel_cipher_suites.go:72-88 | Paging collects exactly the first min(size, 1008) bytes of the record data |
| `CipherSuites.RecordsRoundTrip` | cmd_get_channel_cipher_suites.go:90-148 | Every list of records with three algorithm bytes or more parses back to the same ids and algorithms, in order, iff no OEM record has a second or third IANA byte of 40h to C1h |
| `CipherSuites.RecordLayout` | types_cipher_suite_id.go:83-109 | A record by offset: start, suite, IANA number, authentication algorithm, and the others under their tags |
| `CipherSuites.HarmlessIsRead` | cmd_get_channel_cipher_suites.go:97-144 | One such record is read as written and parsing goes on behind it |
| `CipherSuites.HarmIsVisible` | cmd_get_channel_cipher_suites.go:115-142 | An OEM record with other IANA bytes is read with wrong algorithms |
| `CipherSuites.AddEntry` | cmd_get_channel_cipher_suites.go:132-142 | Tag bits put each algorithm into its list, in order |
| `CipherSuites.SortedCount` | types_cipher_suite_id.go:127-138 | Sorting keeps each preferred suite as often as it was there, and drops the others |
| `CipherSuites.SortedInOrder` | types_cipher_suite_id.go:127-138 | The result is in order of preference |
| `CipherSuites.InOrderMeans` | types_cipher_suite_id.go:127-138 | In that order, a suite that stands earlier in the list of preferences comes first |
| `CipherSuites.FallbackIsPreferred` | types_cipher_suite_id.go:112-117 | Without the pages, or with a record that does not parse, the suites tried are 17, 3, 15, 16, 18, 19, 6, 7, 8, 11 and 12 |
| `CipherSuites.IdsAreRead` | cmd_get_channel_cipher_suites.go:90-148 | Whatever the IANA bytes are, a parse of full records that does not fail contains every id written; it succeeds with exactly those ids iff no second or third IANA byte is C0h or C1h |
| `CipherSuites.EntryIsRead` | cmd_get_channel_cipher_suites.go:97-144 | One record: its id is read, and parsing goes on where the next one starts, even behind a false start inside it |
| `CipherSuites.DiscoveryFindsOffered` | types_cipher_suite_id.go:112-138 | For at most 1008 bytes of full records without such an IANA byte: paging, parsing and sorting together yield the preferred ones of the offered suites, in order and each as often as offered |
| `CipherSuites.OfferedIsTried` | types_cipher_suite_id.go:112-138 | For at most 1008 bytes of full records, whatever their IANA bytes: every preferred suite that is offered is tried |
| `CipherSuites.OfferedSuiteConnects` | interface_lan.go:211-269 | A client without a suite of its own connects to every managed system that offers a connectable preferred suite, in at most 1008 bytes of full records, and answers it to specification |
| `Retries.FailedLoopLeavesLast` | interface_lan.go:239-265 | A failed loop leaves the last suite of its list in the session |
| `Retries.RetryTriesLastSuite` | interface_lan.go:228-242 | After a failed call that tried anything, the next call tries the last suite of it and nothing else, whatever is discovered |
| `Retries.RetryAgrees` | interface_lan.go:228-265 | With a managed system that now follows the specification for that suite, the retry succeeds iff the suite is connectable |
| `Retries.Suite12NeverConnects` | interface_lan.go:228-265 | With suite 12 in the session, no series of calls connects to a managed system that grants it |
| `Retries.FallbackCannotBeRetried` | types_cipher_suite_id.go:112-117 | After a failed call with the fallback list, no series of retries connects to a managed system that follows the specification from then on |
| `Retries.RetriesFailWhereNewClientConnects` | interface_lan.go:228-242 | A named run: the first call meets silence, every retry fails against a managed system that now answers every suite to specification, and without the suite left behind the next call would succeed |
| `CipherSuites.PreferredConnects` | types_cipher_suite_id.go:140-180 | An attempt with a preferred suite against a managed system that follows the specification succeeds iff it is not 15, 6, 11 or 12 |
| `CipherSuites.CollectPages` | cmd_get_channel_cipher_suites.go:72-88 | The paging loop is the function the theorems are about |
| `CipherSuites.ParseCipherSuitesData` | cmd_get_channel_cipher_suites.go:90-148 | The nested loops end on every byte string and give the parse, with the records in front of an error |
| `CipherSuites.SortCipherSuites` | types_cipher_suite_id.go:127-138 | The nested loops are the sort |
| `CipherSuites.FindBestCipherSuites` | types_cipher_suite_id.go:112-123 | Discovery, or all preferred suites after an error |
| `Complement.DecodersAreRight` | helpers.go:164-200 | For every width from 1 to 32, both decoders give the number the pattern stands for iff the width is at most 16 or the sign bit is clear |
| `Complement.TwosValueIsUnique` | helpers.go:184-200 | That number is the only one of the range congruent to the pattern |
| `Complement.EncodedDecodes` | helpers.go:202-216 | Decoding undoes encoding for every number of the range, up to 16 bits |
| `Complement.DecodedEncodes` | helpers.go:202-216 | Encoding undoes decoding, except that the ones' complement negative zero becomes 0 |
| `Complement.SmallIsRight` | helpers.go:164-200 | Up to 16 bits both decoders are right |
| `Complement.WideIsWrong` | helpers.go:177-197 | Above 16 bits both are wrong on every sign-set field |
| `Bits.XorLowOnes` | helpers.go:177 | XOR with ones complements the low bits and keeps the others |
| `Bytes.UnpackBytesMost` | helpers.go:386-398 | The loop gives the bytes from the offset on, at most the asked number |
| `Bytes.PadBytes` | helpers.go:114-124 | Cuts or extends to exactly the width |
| `Bytes.IsByteSliceEqual` | helpers.go:126-140 | True iff both slices are there and equal; nil equals nothing |
| `Bytes.PackBytes` | helpers.go:362-370 | Writes at the offset and nothing else, or changes nothing if it does not fit |
| `Bytes.PackUint32L` | helpers.go:492-498 | Writes the little-endian bytes at the offset and nothing else, or changes nothing |
| `Bytes.LE32RoundTrip` | helpers.go:477-498 | Little-endian packing and reading lose nothing |

## Left out

- UDP sockets, proxies, timeouts, the ioctl and ipmitool back ends: an exchange is "send, then any answer or none".
- The command line, Format and String functions, tables of names.
- The roughly one hundred single-command wrappers, SDR, SEL and sensor record layouts, and sensor conversion in floating point.
- HMAC, MD5, SHA, AES block and RC4 internals: arbitrary functions of fixed output length, AES and RC4 with their inverse laws.
- Get Channel Authentication Capabilities and Set Session Privilege Level around the RMCP+ handshake: their exchanges are not part of its history. What `Client.Client.Connect20` sends for them is part of its session.
- `Client.Client.Connect20`: the packets that carry the discovery requests, which change nothing but the counters, and those only of a session that is still Active from before.
- The unpacking of command responses behind the session layer (ParseRmcpResponse): in the handshake an answer is a payload, an ignored payload type, or nothing, and a panic while decrypting an answer, which `Packets.DecryptPanicsExactly` describes, is counted as no answer.
- ASF ping framing, and the RMCP frame as an object: the frame is a value.
- Aliasing between Go slices that share a backing array after append: sequences are values here. No modelled function reads a slice again after appending to it.
- The fixed fields in front of the custom fields of chassis, board and product areas, which are read one after the other with `FruArea.FieldAt`; the FRU common header.
- `FruRead.PiecesAreOneRead`: the contents read from devices that answer with no bytes, with more than was asked, or with a count that differs from the data. A loop still running shows as `Unfinished` after the rounds its `fuel` argument allows.
- `FruTermination.EndsSoonOrNever`: devices whose answer to the same question changes from one request to the next.
- `TypeLengthField.WrittenIsRead`: BCD plus texts of an odd number of characters, which have no encoding of their own.
- `FruArea.TailRoundTrip`: data of 64 KiB and more, where the 16-bit offset wraps; areas have at most 2040 bytes.
- `CipherSuites.DiscoveryFindsOffered`: more than 1008 bytes of records, of which the client reads the first 1008.
- `CipherSuites.RecordsRoundTrip`: records with fewer than three algorithm bytes, which the parser refuses at the end of the data.
- `Complement.EncodedDecodes`: encoding to more than 30 bits, where the conversion of a floating-point power to int32 is not defined by the language.
- `Sequencing.EveryScheduleIsCarried`: what packets carry with xRC4, which `Packets.Rc4ReadsAtSizeZeroOnly` states for one packet.
- `Packets.EndToEnd`: xRC4, which `Packets.Rc4ReadsAtSizeZeroOnly` treats.
- `Md2.ChunkingDoesNotMatter`: longer writes, whose exact behaviour `Md2Digest.Digest.Write` and `Md2.WriteAppends` state.
