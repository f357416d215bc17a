# camstream in Dafny

This project models the protocols and algorithms of the camstream live-video server and proves what
they promise. Each module follows one part of the C sources:

- **AnnexB, Packetizer, Depacketizer, RoundTripExact, RtpStream**: the RTP packetizer for H.264
  (`rtp_h264.c`), an independent receiver after RFC 6184, and the round trip with its exact condition, the
  framing and the clock of whole runs.
- **FramePool, FrameHub, HubProtocol, HubRuns, HubAlone**: the reference-counted frame pool and the
  keep-newest mailboxes, once as objects changed in place, once as a protocol between one publisher and any
  number of consumer threads with one step per lock region; HubAlone joins the two.
- **Rtcp, RetxCache**: RTCP feedback, sender reports, and the cache that answers a NACK.
- **Crc32, Stun, Fingerprint, DtlsRx, Session, SessionWire**: connectivity checks, certificate fingerprints, the
  DTLS receive queue, and the two state machines of a session that call back into each other, with that queue
  and the retransmission cache as their parts; SessionWire says what comes of a datagram in terms of its octets.
- **AuRing, EncoderWorker, EncoderRuns, JanusSender**: the access unit ring, the encode thread with its shared
  keyframe flag and what it has done after any run, and the sender thread, composed end to end.
- **Vision, Mosaic, Json, Sdp, SdpOffers**: the displacement search, the mosaic, the JSON helpers, and SDP with
  the choices made from offers of any length.

An object that the source updates in place is a class; its methods are proved equal to functions of a value
state, and the results are lemmas about those functions over all inputs, all runs or all interleavings.

## How the sources are read

- A packet sink called for every packet is modelled by the sequence of calls it would get. Frames are named
  by their pool index; buffers passed for reading are sequences.
- Sockets, OpenSSL, libsrtp, HMAC-SHA1, the clock, `strtol` and the hardware encoder are parameters: their
  results are arbitrary, within the assumptions named in the contracts (an HMAC has 20 octets, protecting a
  packet appends at most 64 octets, the encoder returns frames in order and a frame submitted with the
  keyframe flag comes out as a keyframe).
- Fixed-width integers are explicit: 16-bit sequence numbers, 32-bit counters and timestamps, the 64-bit
  product of the media clock. Counters that only feed status output are natural numbers.
- `frame_ref` runs without the pool lock. In HubProtocol it is one step (`Atomic`), or a read and a write
  with a limit on the number of subscribers at a time (`Split`). With a limit of two a count can be lost:
  `HubRuns.LostUpdate` gives the run, and `HubRuns.SplitExact` says that counting is exact in all runs if and
  only if the limit is at most one. A thread takes from and unsubscribes only its own consumer.
- Where code and documentation differ the code is modelled. The 30 s watchdog covers only the ICE state
  (`src/webrtc/webrtc_session.c:678` against `README.md:611`): `Session.StalledHandshakeStays`. Any datagram,
  not only a valid check, restarts the idle timer (`src/webrtc/webrtc_session.c:463` against `README.md:620`):
  `Session.AnyDatagramRestartsIdle`. Media follows the latest valid check, not the first
  (`src/webrtc/webrtc_session.c:563-587` against `docs/11_webrtc_internals.md:56`): `Session.RunPeer`.
- The promise that no keyframe request is lost does not hold for the hardware encoder. It breaks when a
  forced frame finds no input buffer (`EncoderWorker.RefusedFrameLosesRequest`), and when its unit comes out
  with a later frame and is too large (`EncoderWorker.OversizeUnitLosesRequest`). `EncoderWorker.LossExact`
  gives the exact condition for one call, `EncoderWorker.ReliabilityExact` for all runs of an encoder.
- The marker bit is early exactly when an empty NAL unit interrupts an access unit: `RtpStream.StreamMarker`
  on byte streams, and `RtpStream.EarlyMarkerOccurs` with input on which it happens.
- The displacement search reads outside the frames exactly when its window exceeds them or their columns no
  longer fit an `int`: `Vision.FitsExact`. The model reports that and stops.
- `json_get_string` steps over the end of a body whose literal stops in a backslash that is itself not
  escaped: `Json.LeavesExact` gives the exact condition, which one pass over the body decides, and
  `Json.LoneBackslashLeaves` a body. The model reports that and stops.
- `frame_hub_publish` copies without comparing sizes; `FrameHub.CopyConfined` says when the copy stays in its
  buffer, and the model reports when it does not.
- `json_escape_append` escapes quotes, backslashes, line breaks and tabs only, so that its output is not a JSON
  string exactly when the text has another control character: `Json.ControlsExact`.
- The sender of `janus_rtp_sender.c` holds the ring lock for one pop at a time and sends outside it, so pushes
  and drops fall between pops and between packets. JanusSender interleaves these steps; a drain loop left alone
  is one such run (`JanusSender.DrainHappens`).

## Model

| member | source | states |
|---|---|---|
| `AnnexB.NextNal` | src/webrtc/rtp_h264.c:69-121 | the two scanning loops return the span between one start code and the next, or nothing, for every buffer and cursor |
| `AnnexB.NextCodeUnique` | src/webrtc/rtp_h264.c:75-89 | the position found is the only one that holds a start code with none before it |
| `AnnexB.NalsFrom` | src/webrtc/rtp_h264.c:167-257 | repeated scanning from a moving cursor enumerates the NAL units of the rest of the buffer |
| `AnnexB.FirstCut` | src/webrtc/rtp_h264.c:97-115 | a unit is cut where it was written to end exactly when it embeds no start code and has no trailing zero before a three-octet one |
| `AnnexB.ScanJoin` | src/webrtc/rtp_h264.c:69-121 | scanning inverts joining with any mix of three- and four-octet start codes, exactly for lists whose units are all separable |
| `Packetizer.StampConcat` | src/webrtc/rtp_h264.c:191-229 | numbering a concatenation continues the sequence modulo 2^16 |
| `Packetizer.AfterConcat` | src/webrtc/rtp_h264.c:202-245 | sequence number and both counters add up over consecutive packets, modulo 2^16 and 2^32 |
| `Packetizer.ChunksFrom` | src/webrtc/rtp_h264.c:167-251 | what is still to be sent at a cursor is the current unit, marked by a lookahead of one, then the rest |
| `Packetizer.RtpH264.Reset` | src/webrtc/rtp_h264.c:38-49 | a reset changes identity, clock base and counters and keeps the sequence number |
| `Packetizer.RtpH264.SendSingle` | src/webrtc/rtp_h264.c:186-206 | one small unit goes out whole behind its RTP header, and the counters follow |
| `Packetizer.RtpH264.SendFragments` | src/webrtc/rtp_h264.c:207-248 | the fragmentation loop emits exactly the FU-A fragments of the unit, reusing one packet buffer |
| `Packetizer.RtpH264.Tick` | src/webrtc/rtp_h264.c:134-142 | the first presentation time becomes the base; the timestamp is the 64 and 32 bit clock expression |
| `Packetizer.RtpH264.Packetize` | src/webrtc/rtp_h264.c:123-261 | a call emits the packets of all NAL units found, with consecutive numbers, and leaves the state the step function gives; -1 exactly for empty input |
| `Depacketizer.NalRoundTrip` | src/webrtc/rtp_h264.c:186-251 | a receiver recovers a NAL unit exactly when it has a type from 1 to 23, or, fragmented, a clear F bit |
| `Depacketizer.ReceiveAu` | src/webrtc/rtp_h264.c:123-261 | the receiver recovers every access unit of carriable NAL units, empty ones included, cut where the lookahead stops |
| `Depacketizer.RunsWhole` | src/webrtc/rtp_h264.c:173-181 | without empty NAL units an access unit arrives in one piece |
| `Depacketizer.StepRoundTrip` | src/webrtc/rtp_h264.c:123-261 | packetizing and receiving a clean access unit is the identity on its NAL units |
| `RoundTripExact.ScanLoses` | src/webrtc/rtp_h264.c:69-121 | what scanning finds in a joined stream is never more than was joined, and as much only for recoverable lists |
| `RoundTripExact.AuLoses` | src/webrtc/rtp_h264.c:123-261 | a receiver gets no more than the packetizer was given, and all of it only if every NAL unit is carriable |
| `RoundTripExact.StreamExact` | src/webrtc/rtp_h264.c:69-261 | a list of NAL units, joined with any start codes, packetized and received, comes back as one access unit with exactly these units if and only if it is not empty, recoverable, and its units are non-empty and carriable |
| `RtpStream.FragmentShape` | src/webrtc/rtp_h264.c:211-248 | fragments are full but the last; S is on the first only, E and the marker on the last only |
| `RtpStream.FragmentedNal` | src/webrtc/rtp_h264.c:207-248 | a unit of L octets over the budget gives ceil((L-1)/1186), at least two, fragments, never with both S and E |
| `RtpStream.AuFramed` | src/webrtc/rtp_h264.c:184-248 | every payload has 1 to 1188 octets |
| `RtpStream.LastMarked` | src/webrtc/rtp_h264.c:173-197 | the last packet of an access unit always carries the marker |
| `RtpStream.MarkerExact` | src/webrtc/rtp_h264.c:173-197 | an earlier packet carries it too exactly when an empty NAL unit stands between two others |
| `RtpStream.StreamMarker` | src/webrtc/rtp_h264.c:69-197 | on a byte stream of recoverable units, whatever its start codes, the marker is early exactly when an empty unit stands between two others |
| `RtpStream.EarlyMarkerOccurs` | src/webrtc/rtp_h264.c:173-197 | two start codes in a row between any two NAL units make it early |
| `RtpStream.StepFraming` | src/webrtc/rtp_h264.c:144-245 | per call: every packet is 13 to 1200 octets with number, marker, timestamp and source in place, numbers are consecutive, counters match |
| `RtpStream.RunFraming` | src/webrtc/rtp_h264.c:144-261 | over any run numbers are consecutive modulo 2^16 across access units and counters equal the totals modulo 2^32 |
| `RtpStream.RunRoundTrip` | src/webrtc/rtp_h264.c:123-261 | over any run of clean access units the receiver recovers all their NAL units in order |
| `RtpStream.ClockExact` | src/webrtc/rtp_h264.c:139-140 | until the 64-bit product overflows the timestamp is the exact tick count, less than one tick behind, with no drift |
| `RtpStream.ClockMonotone` | src/webrtc/rtp_h264.c:139-140 | before the 32-bit wrap later frames never get earlier timestamps, and differences are within one tick of true time |
| `RtpStream.ClockBeforeBase` | src/webrtc/rtp_h264.c:139 | a frame stamped before the first gets timestamp zero |
| `RtpStream.StepTimestamps` | src/webrtc/rtp_h264.c:134-161 | the timestamp octets of every packet of a call are the 64 and 32 bit clock expression from the base on |
| `RtpStream.RunTimestamps` | src/webrtc/rtp_h264.c:134-161 | over any run the timestamp octets of every packet of the i-th access unit are the 90 kHz ticks from the first presentation time to its own, modulo 2^32; zero if it is earlier |
| `RtpStream.RunMonotone` | src/webrtc/rtp_h264.c:134-161 | if presentation times do not go back, no packet carries an earlier timestamp than one before it, until the 32-bit wrap |
| `RtpStream.RunBase` | src/webrtc/rtp_h264.c:134-137 | the base is the first presentation time ever seen |
| `FramePool.PopExact` | src/media/frame_pool.c:68-77 | popping keeps counts, owners and free list in agreement and fails exactly when every frame is owned |
| `FramePool.RefExact` | src/media/frame_pool.c:90-104 | an increment for a new owner keeps the agreement |
| `FramePool.UnrefExact` | src/media/frame_pool.c:106-133 | giving up a held reference keeps the agreement, returns the frame exactly with its last owner, and reaches neither error message |
| `FramePool.FramePool.Acquire` | src/media/frame_pool.c:62-88 | the newest free frame with count one, or nothing when all are in use |
| `FramePool.FramePool.AddRef` | src/media/frame_pool.c:90-104 | the count of that frame alone grows by one |
| `FramePool.FramePool.Release` | src/media/frame_pool.c:106-133 | the outcome and the new pool are those of the unref function, error cases included |
| `FrameHub.FrameHub.Subscribe` | src/media/frame_hub.c:45-71 | a new consumer with an empty mailbox at the head of the linked list, all else unchanged |
| `FrameHub.FrameHub.Unsubscribe` | src/media/frame_hub.c:73-105 | exactly that consumer leaves the doubly linked list and its mailbox reference is given up; counts stay exact |
| `FrameHub.FrameHub.Take` | src/media/frame_hub.c:175-189 | the mailbox is emptied and its reference passes to the caller |
| `FrameHub.FrameHub.DeliverAll` | src/media/frame_hub.c:138-162 | the walk over the list puts the frame into every mailbox and gives up what each held |
| `FrameHub.CopyConfined` | src/media/frame_hub.c:126 | the copy writes only octets of its own buffer exactly when the size is at most the capacity |
| `FrameHub.FrameBuffers.Copy` | src/media/frame_hub.c:126-134 | in the one flat allocation the frame's buffer holds the data and no other buffer changes |
| `FrameHub.FrameHub.Publish` | src/media/frame_hub.c:107-173 | rejected exactly for empty data or an empty free list, an overrun reported exactly for a larger frame that gets a buffer; otherwise the data goes into a frame nobody refers to, every mailbox holds it, and counts equal references |
| `HubProtocol.CountedStep` | src/media/frame_hub.c:73-189 | any step of any thread keeps every reference count equal to the references held and the free list equal to the unowned frames |
| `HubProtocol.ExclusiveStep` | src/media/frame_hub.c:121-149 | any step keeps the frame being filled out of everybody else's reach |
| `HubProtocol.SplitStep` | src/media/frame_pool.c:90-104 | with one subscriber nobody can change a count between its read and its write |
| `HubProtocol.ListedStep` | src/media/frame_hub.c:60-96 | the consumer list stays duplicate-free, holds exactly the active consumers, and the publisher's walk stays inside it |
| `HubProtocol.InvStep` | src/media/frame_hub.c:73-189 | all of these together are inductive, with the increment in one step or split |
| `HubRuns.RefCountsExact` | src/media/frame_pool.c:62-133 | in every interleaving counts equal references held, the free list is duplicate-free and exactly the unowned frames, and no error was ever reported |
| `HubRuns.CopyExclusive` | src/media/frame_hub.c:121-134 | while memcpy fills a buffer no mailbox, no consumer and not the free list refers to it |
| `HubRuns.LostUpdate` | src/media/frame_pool.c:96-103 | with a limit of two or more there is a run from creation that ends with count three for a frame to which two references exist |
| `HubRuns.SplitExact` | src/media/frame_pool.c:96-103 | the unlocked increment keeps the counts exact in every state of every run if and only if at most one subscriber is allowed at a time |
| `HubRuns.TakesFresh` | src/media/frame_hub.c:141-188 | each mailbox holds the newest frame delivered to it, and the numbers a consumer takes strictly increase |
| `HubRuns.NeverDry` | src/media/frame_pool.c:70-75 | with two buffers more than the consumers keep busy the publisher always finds a free one |
| `HubRuns.EnoughBuffers` | src/media/frame_hub.c:107-189 | for N subscribers holding at most one frame each N + 2 buffers suffice, and a single one when N is zero |
| `HubRuns.TwicePlusOne` | src/media/frame_hub.c:107-189 | 2N + 1 buffers always suffice |
| `HubAlone.PublishAlone` | src/media/frame_hub.c:107-173 | the publisher's steps with no other thread in between are a publish: the frame on top of the free list, which nobody refers to, gets the data and fills every mailbox, what consumers hold stays; without a free frame only the number changes |
| `Rtcp.PairMeaning` | src/webrtc/rtcp.c:104-119 | the expansion of a NACK entry lists exactly its own number and those of the set bits, modulo 2^16 |
| `Rtcp.ExpandMeaning` | src/webrtc/rtcp.c:100-120 | a list of entries reports a number exactly when one of them asks for it |
| `Rtcp.ParseConcat` | src/webrtc/rtcp.c:72-159 | parsing a compound and then what follows is parsing the two in turn |
| `Rtcp.ParseMerge` | src/webrtc/rtcp.c:72-159 | earlier reports only merge with what a datagram reports: counts add, BYE ors, numbers join up to 128, the last receiver report wins; never more than 128 numbers |
| `Rtcp.Compositional` | src/webrtc/rtcp.c:64-160 | a compound followed by anything reports the merge of its parts |
| `Rtcp.NackInverse` | src/webrtc/rtcp.c:97-121 | parsing an encoded Generic NACK reports the first 128 numbers of its expansion in order, and nothing else |
| `Rtcp.KeyframeRequestsParse` | src/webrtc/rtcp.c:142-152 | a PLI, and a FIR with any entries, parse to one picture request of their kind and nothing else |
| `Rtcp.ByeParses` | src/webrtc/rtcp.c:138-140 | a BYE with any sources and reason parses to a goodbye and nothing else |
| `Rtcp.ReceiverReportParses` | src/webrtc/rtcp.c:125-136 | a receiver report gives fraction lost, highest number and jitter of its first block, if it has one, and nothing else |
| `Rtcp.OthersIgnored` | src/webrtc/rtcp.c:86-156 | every other type, format, or report without a block changes nothing |
| `Rtcp.RtcpFeedback.AddPair` | src/webrtc/rtcp.c:104-119 | one entry appends its numbers up to the table limit |
| `Rtcp.RtcpFeedback.AddEntries` | src/webrtc/rtcp.c:98-120 | the entry loop, which stops at a full table, appends the first 128 of all |
| `Rtcp.RtcpFeedback.AddPacket` | src/webrtc/rtcp.c:89-156 | one packet updates exactly the fields its type and format call for |
| `Rtcp.RtcpFeedback.ParseDatagram` | src/webrtc/rtcp.c:64-160 | on arbitrary octets the parser stays in bounds, ends, and leaves the report the parse function gives |
| `Rtcp.FractionExact` | src/webrtc/rtcp.c:45-47 | the NTP fraction fits 32 bits and gives back the exact microsecond |
| `Rtcp.FractionMonotone` | src/webrtc/rtcp.c:45-47 | within a second later microseconds have larger fractions |
| `Rtcp.BuildSenderReport` | src/webrtc/rtcp.c:35-62 | the 28 octets are the report's fields in order and nothing behind them changes |
| `Rtcp.ReportReadBack` | src/webrtc/rtcp.c:35-62 | a reader of the 28 octets gets back source, timestamp, both counts, and the wall clock since 1970 to the microsecond within 32 bits of seconds |
| `Rtcp.ReportIsNotFeedback` | src/webrtc/rtcp.c:90-96 | a sender report in front of any datagram never changes what is reported |
| `RetxCache.RetxCache.Sink` | src/webrtc/webrtc_session.c:236-273 | each slot holds the last packet sent in it; a failed protection leaves the cache alone |
| `RetxCache.RetxCache.Resend` | src/webrtc/webrtc_session.c:196-210 | the answer to a list of numbers is the packets of the slots in use, in order |
| `RetxCache.MediaPath.SendAccessUnit` | src/webrtc/webrtc_session.c:718-751 | the history of the sink is that of the packetizer's whole run; nothing happens unless streaming |
| `RetxCache.SlotsCollide` | src/webrtc/webrtc_session.c:266 | numbers share a slot exactly when they are a multiple of 512 apart, also across the 16-bit wrap |
| `RetxCache.WindowExact` | src/webrtc/webrtc_session.c:236-273 | for each of the last 512 packets its slot holds that very packet exactly when its protection succeeded |
| `RetxCache.ResentIsLatest` | src/webrtc/webrtc_session.c:199-208 | whatever is resent for any number is the latest packet sent with a congruent one |
| `RetxCache.AnswerExact` | src/webrtc/webrtc_session.c:199-208 | asking for recent packets by number returns exactly those, byte for byte, in the order asked |
| `RetxCache.AnswerConcat` | src/webrtc/webrtc_session.c:196-210 | every number is answered by itself, in its place |
| `RetxCache.AnswerMixed` | src/webrtc/webrtc_session.c:196-210 | a list that mixes recent numbers with such as were never used is answered with the packets of the recent ones, in the order asked |
| `RetxCache.NackRoundTrip` | src/webrtc/webrtc_session.c:176-211 | an encoded NACK for recent packets, parsed and looked up, resends the first 128 of them |
| `Crc32.ShiftsLinear` | src/webrtc/ice_lite.c:27-29 | any number of register steps is linear over xor |
| `Crc32.OneOctet` | src/webrtc/ice_lite.c:121-123 | one table lookup equals eight bit steps |
| `Crc32.BuildTable` | src/webrtc/ice_lite.c:22-32 | the table holds, for every octet, the register after eight steps |
| `Crc32.Crc32Stun` | src/webrtc/ice_lite.c:115-126 | the table-driven loop computes the bit-serial CRC-32 of every message |
| `Crc32.KnownChecksum` | src/webrtc/ice_lite.c:115-126 | the checksum of the digit 1 is that of every CRC-32 |
| `Stun.FindAttribute` | src/webrtc/ice_lite.c:131-172 | the walker returns the first attribute of a kind that no malformed one precedes, within the message |
| `Stun.WalkLaidOut` | src/webrtc/ice_lite.c:150-169 | over well-formed attributes it finds exactly the first of the kind, with its value |
| `Stun.EncodedLaidOut` | src/webrtc/ice_lite.c:311-379 | encoding a list of attributes with padding lays it out where the walker finds it |
| `Stun.ExtendTiles` | src/webrtc/ice_lite.c:359-411 | appending an attribute keeps a message well formed and every earlier attribute findable |
| `Stun.SignVerifies` | src/webrtc/ice_lite.c:362-379 | a well-formed message signed with a password verifies with it |
| `Stun.FingerprintAdded` | src/webrtc/ice_lite.c:385-412 | the appended FINGERPRINT is found last and is the checksum of everything before it |
| `Stun.FingerprintKeepsVerification` | src/webrtc/ice_lite.c:451-478 | appending a FINGERPRINT to any well-formed message leaves the verdict of the verifier unchanged |
| `Stun.StunVerifyMi` | src/webrtc/ice_lite.c:419-479 | true exactly when a 20-octet MESSAGE-INTEGRITY equals the HMAC of what precedes it under a patched length field |
| `Stun.VerifyExact` | src/webrtc/ice_lite.c:419-479 | a message verifies if and only if its first MESSAGE-INTEGRITY has 20 octets and they are the HMAC, under the password, of the octets before it with the length field ending just behind it, whatever follows |
| `Stun.UnsignedFails` | src/webrtc/ice_lite.c:419-479 | without a MESSAGE-INTEGRITY nothing verifies |
| `Stun.RequestOctets` | src/webrtc/ice_lite.c:174-208 | a binding request is told by type 00 01, the cookie octets and a length within the datagram |
| `Stun.ClassOctets` | src/webrtc/ice_lite.c:35-61 | the classes of datagrams by first octet |
| `Stun.KnownOctets` | src/webrtc/ice_lite.c:333-345 | the address octets of the published example of RFC 5769, and the fingerprint mask |
| `Stun.UsernameMeaning` | src/webrtc/ice_lite.c:233-282 | the user name check accepts exactly our fragment before a colon, or after the first colon to the end |
| `Stun.BuildBindingResponse` | src/webrtc/ice_lite.c:284-417 | for an IPv4 peer the 64 octets written are the signed, fingerprinted response; refused exactly for short requests or buffers |
| `Stun.ResponseRoundTrip` | src/webrtc/ice_lite.c:284-417 | the response verifies with the same password, its fingerprint holds, its address decodes to the peer, it repeats cookie and transaction, and its three attributes stand where and under the kinds they should |
| `Fingerprint.Format` | src/webrtc/dtls_srtp.c:131-138 | the printing loop gives the algorithm name and the colon-separated digest |
| `Fingerprint.HexEqual` | src/webrtc/dtls_srtp.c:370-410 | true exactly when the value's hexadecimal digits, in either case and with any colons, are those of the digest; the buffer limit never matters |
| `Fingerprint.PrintNamesExactly` | src/webrtc/dtls_srtp.c:126-138 | a printed fingerprint matches the digest it was printed from and no other |
| `Fingerprint.NamesOneDigest` | src/webrtc/dtls_srtp.c:370-410 | no value of any form matches two digests |
| `Fingerprint.NamesExact` | src/webrtc/dtls_srtp.c:370-410 | a value names a digest if and only if, behind its first blank and without colons, it has two digits of either case for each octet, with the values of its halves |
| `Fingerprint.PrintedForm` | src/webrtc/dtls_srtp.c:131-138 | the printed form of an example: algorithm, upper case, colons |
| `DtlsRx.RxRing.OnUdp` | src/webrtc/dtls_srtp.c:651-671 | a datagram is queued behind the others; the oldest goes when 64 are waiting |
| `DtlsRx.RxRing.BioRead` | src/webrtc/dtls_srtp.c:249-282 | a read hands over the oldest datagram, or loses it when it does not fit |
| `DtlsRx.RxRing.ReadDatagrams` | src/webrtc/dtls_srtp.c:249-282 | any number of reads in one OpenSSL call has the effect of reading one after the other |
| `DtlsRx.RunOrdered` | src/webrtc/dtls_srtp.c:249-282 | over any run OpenSSL reads datagrams in arrival order, none twice, and each is read, dropped, discarded or waiting |
| `DtlsRx.HoldsSixtyFour` | src/webrtc/dtls_srtp.c:651-671 | without reads 64 datagrams wait before each new one costs the oldest |
| `Session.DtlsSrtp.SetState` | src/webrtc/dtls_srtp.c:357-368 | entering a state, with the callback and all it sets off, has the effect of one flat function |
| `Session.DtlsSrtp.DeriveKeys` | src/webrtc/dtls_srtp.c:412-498 | keys are ready exactly when export succeeds and the certificate is the one the offer names, if it names one |
| `Session.DtlsSrtp.Pump` | src/webrtc/dtls_srtp.c:500-559 | one handshake or read step has exactly the flat effect, for every outcome of OpenSSL and any number of datagrams it reads |
| `Session.DtlsSrtp.Close` | src/webrtc/dtls_srtp.c:778-789 | closing DTLS of a closed session only shuts it, with one shutdown message if connected |
| `Session.RtcSession.Close` | src/webrtc/webrtc_session.c:804-824 | despite the re-entrant call closing happens once and the hook is told once |
| `Session.RtcSession.OnState` | src/webrtc/webrtc_session.c:213-225 | the state callback moves or closes the session |
| `Session.RtcSession.RequestIdr` | src/webrtc/webrtc_session.c:753-770 | a keyframe request passes unless one did less than 400 ms before, in wrapping 64-bit time |
| `Session.RtcSession.OnConnected` | src/webrtc/webrtc_session.c:161-174 | streaming starts with a keyframe request and a report due in a second |
| `Session.RtcSession.Resend` | src/webrtc/webrtc_session.c:196-210 | the numbers asked for are looked up in the session's cache and what is there goes to the peer |
| `Session.RtcSession.OnRtcp` | src/webrtc/webrtc_session.c:176-211 | BYE closes and nothing more; otherwise PLI or FIR requests a keyframe and the numbers of a NACK are answered |
| `Session.RtcSession.SendAccessUnit` | src/webrtc/webrtc_session.c:718-751 | a keyframe clears the request flag in any state; only a streaming session packetizes, protects and caches |
| `Session.RtcSession.OnStun` | src/webrtc/webrtc_session.c:489-606 | an unauthenticated or foreign request is answered with 401; an accepted one moves the peer and is answered |
| `Session.DtlsSrtp.OnUdp` | src/webrtc/dtls_srtp.c:639-674 | a datagram goes into the receive queue and one OpenSSL call follows, unless DTLS has failed |
| `Session.RtcSession.OnUdp` | src/webrtc/webrtc_session.c:454-639 | dispatch by the first octet, and between RTP and RTCP by the second or the octet behind a single one, has exactly the flat effect, and none once closed |
| `Session.RtcSession.Tick` | src/webrtc/webrtc_session.c:641-716 | timeouts, handshake and sender reports have exactly the flat effect |
| `Session.HappenQuiescent` | src/webrtc/webrtc_session.c:454-824 | every event leads from one consistent pair of states to another, never backwards |
| `Session.RunQuiescent` | src/webrtc/webrtc_session.c:161-225 | over every run NEW or ICE goes with INIT, DTLS with HANDSHAKING, STREAMING with CONNECTED, CLOSED with CLOSED; streaming implies keys and a matching certificate; the close hook ran once if and only if closed, and a session once closed is what it was when it closed, but for the keyframe flag |
| `Session.RunPeer` | src/webrtc/webrtc_session.c:563-587 | while open, media goes to the source of the latest accepted check |
| `Session.RunOutgoing` | src/webrtc/webrtc_session.c:593-604 | every success answer verifies and names its destination; keyframe requests stay 400 ms and sender reports a second apart; none is asked for before streaming and every streaming session has asked |
| `Session.RunReceives` | src/webrtc/dtls_srtp.c:249-282 | over every run OpenSSL is offered exactly the DTLS datagrams that came while the session was open with a validated peer, reads them in arrival order, none twice, and all are accounted for |
| `Session.RunGenuine` | src/webrtc/webrtc_session.c:196-273 | over every run whatever is sent again was sent before, octet for octet |
| `Session.NackServed` | src/webrtc/webrtc_session.c:176-211 | after any run that leaves a session streaming, a NACK for recent packets has the first 128 of them sent again in the order asked, to the source of the latest accepted check, and does nothing else |
| `SessionWire.NackAnswered` | src/webrtc/webrtc_session.c:617-634 | the same told from octets: version 2 and a second octet from 192 to 223 |
| `SessionWire.KeyframeAsked` | src/webrtc/webrtc_session.c:190-194 | a PLI or FIR makes a streaming session ask for a keyframe, unless one was asked for less than 400 ms ago, and nothing else |
| `SessionWire.ByeCloses` | src/webrtc/webrtc_session.c:184-188 | a BYE closes a streaming session, with one shutdown message, and the hook is told once |
| `SessionWire.MediaIgnored` | src/webrtc/webrtc_session.c:617-634 | in the RTP range a second octet outside RTCP moves nothing but the time of last reception |
| `SessionWire.UnreadableIgnored` | src/webrtc/webrtc_session.c:626-632 | nor does RTCP before streaming or that does not decrypt |
| `SessionWire.OthersIgnored` | src/webrtc/webrtc_session.c:636-638 | nor do datagrams of other first octets |
| `SessionWire.DtlsHandled` | src/webrtc/webrtc_session.c:608-615 | first octets 20 to 63: ignored before there is a peer, otherwise offered to OpenSSL, with the exact conditions to close and to stream |
| `SessionWire.RunIdentified` | src/webrtc/dtls_srtp.c:468-492 | over every run a streaming session has a peer whose certificate digest is the one in the offer, digit by digit, if the offer has one |
| `SessionWire.IndicationsIgnored` | src/webrtc/webrtc_session.c:496-515 | first octets 0 to 3 without the octets of a binding request move nothing |
| `SessionWire.ForgedRefused` | src/webrtc/webrtc_session.c:525-533 | a check with a MAC that differs, of another size, or missing never moves the peer and gets a 401 |
| `SessionWire.CheckExact` | src/webrtc/webrtc_session.c:489-606 | a check with MAC and user name moves the peer and is answered if and only if the one is the HMAC and the other our fragment beside a colon; otherwise it gets a 401 |
| `SessionWire.TickExact` | src/webrtc/webrtc_session.c:641-716 | 15 s of silence or 30 s of checks close a session; a streaming one reports exactly when due, then a second later |
| `SessionWire.FirstReport` | src/webrtc/webrtc_session.c:173 | the first report is due a second after the handshake |
| `SessionWire.RunSends` | src/webrtc/webrtc_session.c:718-751 | over every run a session packetizes exactly the access units handed to it while it streamed, with their presentation times |
| `Session.PumpOutcome` | src/webrtc/dtls_srtp.c:500-559 | one OpenSSL call closes the session exactly on failure, close notice or bad keys, and makes it stream exactly when the finished handshake yields keys and the named certificate |
| `Session.UdpCloses` | src/webrtc/webrtc_session.c:487-638 | a datagram closes a session exactly when it breaks the handshake or connection, or says BYE to a streaming session |
| `Session.TickCloses` | src/webrtc/webrtc_session.c:647-685 | a tick closes exactly for 15 s of silence, 30 s of ICE without handshake, or a failing handshake |
| `AuRing.AuRing.PushAu` | src/media/au_ring.c:53-93 | the flat-buffer ring accepts a unit as a queue that drops from the front does; refused exactly for empty or oversize units |
| `AuRing.AuRing.PopAu` | src/media/au_ring.c:95-132 | the oldest unit comes out unaltered, or is lost when the caller's buffer is too small |
| `AuRing.RingRun` | src/media/au_ring.c:53-132 | over any run the queue is the tail of what was accepted, delivery is in order, and accepted = delivered + discarded + dropped + queued |
| `AuRing.KeepsLatest` | src/media/au_ring.c:53-93 | after any pushes the ring holds the last units it took in, as many as it has slots, and has dropped only the others |
| `EncoderWorker.RunBalanced` | src/media/encoder_worker.c:83-224 | in every interleaving each frame taken is counted once and the watchdog complains at most once per re-arm |
| `EncoderWorker.OwedMeaning` | src/media/encoder_worker.c:226-241 | a keyframe is owed exactly when some request has no keyframe pushed after it |
| `EncoderWorker.NextNoneLost` | src/media/encoder_worker.c:193-241 | one step with a reliable encoder loses no request |
| `EncoderWorker.RunNoneLost` | src/media/encoder_worker.c:70-241 | in every interleaving each request is pending in the flag, being served, in the encoder, in hand as a keyframe, or followed by the push of one |
| `EncoderWorker.StartedRun` | src/media/encoder_worker.c:70-241 | both hold of every run from creation |
| `EncoderWorker.LossExact` | src/media/encoder_v4l2m2m.c:551-637 | while a keyframe is owed, a call of the encoder loses no request exactly if the flag has been raised again, a forced frame stays in the encoder, or a keyframe comes out |
| `EncoderWorker.ReliabilityExact` | src/media/encoder_v4l2m2m.c:551-637 | for any set of encoder outcomes, no run from creation loses a request if and only if none of those a run can meet is a failure, a refusal, or a dropped unit of a forced frame; several units at once are met only if a frame can be taken in without output |
| `EncoderWorker.RefusedFrameLosesRequest` | src/media/encoder_v4l2m2m.c:551-554 | the run in which a forced frame finds no input buffer and its request is lost |
| `EncoderWorker.OversizeUnitLosesRequest` | src/media/encoder_v4l2m2m.c:628-637 | the run in which the unit of a forced frame comes out with a later frame, does not fit, and the request is lost |
| `EncoderWorker.SoftwareNeverLoses` | src/media/encoder_x264.c:128-162 | an encoder that hands out at most one unit a call, never too large, loses no request in any run from creation |
| `EncoderWorker.EncoderWorker.Admit` | src/media/encoder_worker.c:83-157 | idle, mismatched and empty frames are counted and skipped without touching the flag |
| `EncoderWorker.EncoderWorker.TakeFlag` | src/media/encoder_worker.c:192-197 | the exchange empties the flag and remembers it for the frame, as one step of the protocol |
| `EncoderWorker.EncoderWorker.EncodeFrame` | src/media/encoder_worker.c:192-224 | the encoder call is one step of the protocol, with the counters and the watchdog of its outcome |
| `EncoderWorker.EncoderWorker.ClearFlag` | src/media/encoder_worker.c:226-229 | the flag is cleared for a keyframe only, as one step of the protocol |
| `EncoderWorker.EncoderWorker.PushUnit` | src/media/encoder_worker.c:230-240 | the unit in hand goes into the ring as one step of the protocol |
| `EncoderWorker.EncoderWorker.RunOnce` | src/media/encoder_worker.c:70-241 | a round of the loop takes exactly the steps listed for the frame, the viewer and the encoder's answer it meets, and keeps counters, flag and ring in agreement with them |
| `EncoderRuns.RunPushes` | src/media/encoder_worker.c:226-241 | over every run from creation the ring holds, in order and numbered, the last of the outputs that fit a slot, with octets, time and keyframe flag of their encoder call; the log has a keyframe exactly where one of them entered; and the frame at the encoder is forced exactly if a request stood when the flag was taken |
| `EncoderRuns.EnteredNumbers` | src/media/encoder_worker.c:234-238 | units enter with numbers without a gap, and each fits a slot |
| `EncoderRuns.KeyframesEntered` | src/media/encoder_worker.c:226-241 | there are as many keyframes on record as IDR units entered |
| `EncoderRuns.ThreadPushes` | src/media/encoder_worker.c:234-238 | the same of the thread's own ring and flag, whatever the ring held at the start |
| `EncoderRuns.GatherAll` | src/media/encoder_v4l2m2m.c:609-637 | units that fit the buffer together come out whole, and are a keyframe if one of them is |
| `EncoderRuns.GatherOverflow` | src/media/encoder_v4l2m2m.c:628-637 | a unit that does not fit is lost with its keyframe flag |
| `EncoderRuns.RunCounts` | src/media/encoder_worker.c:83-224 | over every run each counter is the number of events of its kind |
| `EncoderRuns.ComplainsOnce` | src/media/encoder_worker.c:111-131 | the watchdog complains once, with the ninetieth frame in a row without output |
| `EncoderRuns.SignsOfLife` | src/media/encoder_worker.c:90-97 | a viewer that appears and every output re-arm it, and it is silent without a viewer |
| `JanusSender.JanusRtpSender.SendSink` | src/janus/janus_rtp_sender.c:126-169 | an attempt counts as sent, with its octets, or as failed, so that the tallies are those of all attempts so far |
| `JanusSender.JanusRtpSender.DrainRing` | src/janus/janus_rtp_sender.c:288-314 | the drain loop forwards every queued unit in order, until empty or a unit that does not fit; sent and failed packets are then what the packetizer counted since the sender was made |
| `JanusSender.HandleRtcp` | src/janus/janus_rtp_sender.c:206-250 | the shared flag is raised exactly if one of the waiting datagrams carries a PLI or a FIR |
| `JanusSender.AskingDatagrams` | src/janus/janus_rtp_sender.c:206-250 | a PLI and a FIR raise the flag; a BYE, a receiver report or a NACK does not |
| `JanusSender.CountersAgree` | src/janus/janus_rtp_sender.c:137-168 | in any interleaving, whatever the socket accepts, packets sent, failed and still in hand are together the growth of the packetizer's own counter, modulo 2^32 |
| `JanusSender.TalliesExact` | src/janus/janus_rtp_sender.c:137-168 | a socket that accepts everything has been given every packet with its header, one that accepts nothing, none |
| `JanusSender.HappenFaithful` | src/janus/janus_rtp_sender.c:288-314 | in any interleaving of pushes, pops and packets sent the packets are those of the delivered units, all but the last unit's have been sent, and none is discarded when the buffer holds a slot |
| `JanusSender.EndToEnd` | src/janus/janus_rtp_sender.c:288-314 | in any such interleaving a receiver has the NAL units of every delivered access unit but the one at hand, gets that one from the packets still to come, and nothing else; they are in the order pushed, and the missing ones are those counted as dropped or still queued |
| `JanusSender.WireTimestamps` | src/janus/janus_rtp_sender.c:288-314 | every packet of the i-th delivered unit carries the ticks from the first one's presentation time to its own |
| `JanusSender.DrainHappens` | src/janus/janus_rtp_sender.c:288-314 | the drain loop with no push in between is one of the interleavings |
| `JanusSender.DrainEmpties` | src/janus/janus_rtp_sender.c:288-314 | and it delivers everything queued when the buffer holds a slot |
| `Vision.SadBound` | src/vision/frame_matrix.c:97-106 | the error of any admissible offset is at most 255 times the area |
| `Vision.SadExact` | src/vision/frame_matrix.c:97-106 | the error is zero if and only if all overlapping pixels agree; if all differ by the same amount it is that amount for every pixel of the overlap |
| `Vision.OverlapRule` | src/vision/frame_matrix.c:86-95 | an offset counts if at least one and a quarter, rounded down, of the columns and of the rows overlap |
| `Vision.Measure` | src/vision/frame_matrix.c:97-106 | the two inner loops compute the sum of absolute differences without leaving 64 bits |
| `Vision.EstimateOffset` | src/vision/frame_matrix.c:74-114 | refused exactly for unusable input, outside exactly when the source would read outside the frames, otherwise the offset of least error among all that meet the overlap rule, the earliest in scan order on ties |
| `Vision.FitsExact` | src/vision/frame_matrix.c:89-105 | every candidate the source's test lets pass can be read if and only if the window is no larger than the frame and its columns fit an int |
| `Vision.WindowExact` | src/vision/frame_matrix.c:91-95 | the source's wrapping test agrees with the overlap rule on the whole window if and only if the window is no larger than the frame |
| `Vision.ExactShiftFound` | src/vision/frame_matrix.c:89-109 | if the second frame is the first moved by a candidate offset the error is zero and no later offset is returned |
| `Mosaic.VisionMosaic.Add` | src/vision/frame_matrix.c:141-156 | scattering a frame changes each cell by the one pixel that falls on it, and no other |
| `Mosaic.HitExact` | src/vision/frame_matrix.c:141-156 | each pixel falls on the cell as far right and down of the frame's place, and nothing falls elsewhere |
| `Mosaic.CellExact` | src/vision/frame_matrix.c:141-156 | after fewer than 2^32 frames a cell is the exact sum and number of its pixels |
| `Mosaic.ValueBetween` | src/vision/frame_matrix.c:158-161 | the exported value is the average, lies between darkest and brightest pixel, and is never cut by narrowing |
| `Json.EscapeAppend` | src/app/app_server.c:332-361 | what is appended is the escape of the longest prefix that fits with a terminator, never part of an escape |
| `Json.EscapedStaysOpen` | src/app/app_server.c:332-361 | a reader of escaped text meets no quote that ends it, is left behind no backslash, and has stored every character |
| `Json.ControlsExact` | src/app/app_server.c:332-361 | escaped text has a character below 32 if and only if the original has one other than line breaks and tab |
| `Json.JsonGetString` | src/app/app_server.c:227-297 | the character loop returns the field's value, or fails, as the reading function says, and reports exactly when the source would step over the body's end |
| `Json.EscapesRead` | src/app/app_server.c:256-291 | each escape sequence stands for its character |
| `Json.SeparatorsSkipped` | src/app/app_server.c:241-243 | blanks and colons before the value are skipped |
| `Json.FirstOccurrence` | src/app/app_server.c:233 | the field is searched at its first occurrence |
| `Json.ClosedStaysInside` | src/app/app_server.c:252-296 | a literal read to its closing quote is read inside the body |
| `Json.LeavesExact` | src/app/app_server.c:252-296 | the source steps over the body's end if and only if, in one pass over the field's literal, it ends behind a backslash that opens an escape, with room left |
| `Json.LoneBackslashLeaves` | src/app/app_server.c:252-296 | a body on which it does, and two endings in a backslash on which it does not |
| `Json.QuoteStaysInside` | src/app/app_server.c:252-296 | and with a closing quote behind it the same text is read inside |
| `Json.ReadEscaped` | src/app/app_server.c:252-296 | reading an escaped string gives the original, up to the room there is |
| `Json.PayloadRoundTrip` | src/app/app_server.c:590-632 | extracting the sdp field of the assembled payload returns the answer exactly when the buffer has room for it, and never reads behind the body |
| `Json.BuildPayload` | src/app/app_server.c:590-632 | for any answer under 8192 characters none of the overflow branches is reachable and the payload is complete |
| `Sdp.LinesInverse` | src/webrtc/sdp.c:47-91 | the visitor sees exactly the lines that were written |
| `Sdp.OtherLines` | src/webrtc/sdp.c:47-91 | a bare line feed and the end of the text end a line too; lines are cut to 511 characters |
| `Sdp.NextLine` | src/webrtc/sdp.c:53-90 | one turn of the loop yields the next line, trimmed and cut to the buffer |
| `Sdp.Parse` | src/webrtc/sdp.c:157-187 | the parser returns what folding the visitor over all lines gives, or fails when something mandatory is missing |
| `SdpOffers.TypeChosen` | src/webrtc/sdp.c:133-147 | the payload type is that of the first H.264 line with a non-negative number in a video section, whatever else the offer has |
| `SdpOffers.ValuesChosen` | src/webrtc/sdp.c:108-187 | an offer is accepted exactly if it has fragment, password, fingerprint and such a line; the last value of each counts, and the role defaults to actpass |
| `Sdp.AtoiDecimal` | src/webrtc/sdp.c:140 | reading a printed payload type gives it back |
| `Sdp.FormatMode` | src/webrtc/sdp.c:148-153 | the answer's format line is never taken to ask for packetization mode 0 |
| `Sdp.AnswerRoundTrip` | src/webrtc/sdp.c:157-358 | parsing an answer recovers fragment, password, fingerprint, role, both mids, the audio flag and the payload type |
| `Sdp.BuildAnswer` | src/webrtc/sdp.c:189-358 | the answer stays under 8192 characters with up to 16 further addresses, so neither buffer is exceeded; empty exactly when the caller's is too small |
| `SdpOffers.CandidatesExact` | src/webrtc/sdp.c:308-345 | candidate lines name the advertised address first, then in order every further one that is neither empty nor the same, each with its foundation, priority and the session's port |
| `SdpOffers.FurtherExact` | src/webrtc/sdp.c:317-325 | no further address is left out but empty ones and repeats of the first |
| `SdpOffers.PrioritiesFall` | src/webrtc/sdp.c:326-330 | further addresses have falling priorities below the first |
| `SdpOffers.AnswerSays` | src/webrtc/sdp.c:205-345 | the answer has the attributes for ICE lite, bundling, the passive role, one direction, control on the same port, codec and feedback |
| `Sdp.FingerprintSurvives` | src/webrtc/sdp.c:118-121 | the fingerprint recovered from the answer matches the digest it was printed from and no other |
| `Sdp.SignallingRoundTrip` | src/app/app_server.c:590-632 | the answer escaped into the payload, extracted and parsed gives every value back |

## Left out

- Sockets, poll, threads, V4L2, mmap, libx264, OpenSSL and libsrtp internals, key derivation bytes: parameters or absent.
- Allocation failures, except the empty frame pool: `malloc` returning nothing is not modelled.
- Stun.BuildBindingResponse: IPv4 peers only; the socket is IPv4 and the IPv6 branch writes a length that does not match its value.
- `stun_build_error_response`: its octets are not modelled, only that a 401 is sent and to whom.
- STUN indications, log lines and session statistics are not in the session's joint state.
- FrameHub.FrameHub.Publish: where it reports an overrun it says no more, because the copy then changes memory that is not the buffer's.
- JanusSender.EndToEnd: assumes that every send succeeds and that access units hold no empty or uncarriable NAL unit; ReceiveAu, StreamMarker and CountersAgree say what happens otherwise.
- HubProtocol.InvStep: with the split increment for one subscriber at a time, because with two it is false; LostUpdate gives the run and SplitExact the exact limit.
- How many datagrams one OpenSSL call reads, and into what room, is arbitrary: OpenSSL's record layer is a parameter.
- EncoderWorker.RunNoneLost: assumes no fatal encoder error and no forced frame refused or lost, because the promise fails otherwise; ReliabilityExact says exactly when.
- Vision.EstimateOffset: assumes that the first frame's data is shorter than 2^56 octets, so that no sum leaves 64 bits; where it reports that the source reads outside the frames it says no more.
- Json.JsonGetString: where it reports that the source steps over the body's end it says no more, because what lies behind is not part of the body.
- Sdp.BuildAnswer: inputs within the source's field sizes and without line breaks only, because `snprintf` results beyond the buffer are not modelled.
- Strings hold the characters before a C terminator; embedded terminators do not occur.
- Mutex lock order, memory ordering and fairness of the hub: the protocol has one step per lock region.
- Frames that hub consumers hold when they unsubscribe are dropped by explicit steps; destroying the hub is not modelled.
- Pixel conversions, row and column profiles, PGM and OBJ export, `json_get_int`, the web pages, the command line, status output, the libpeer backend.
