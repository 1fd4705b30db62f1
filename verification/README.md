# BitChatPi protocol stack: a verified model

BitChatPi is a mesh messaging daemon. This project models the protocol stack under `server/` in Dafny and proves what
holds of it for every input and every run:

- **Codec** (`Bytes`, `Packets`, `Padding`, `Codec`, `CodecTheorems`, `Wire`, `ZeroRuns`, `ForeignPackets`,
  `WireFormat`): the binary packet format with two header versions, optional fields, a counted route, compression and
  padding, and its bytes as another implementation finds them. zlib is a record of functions with one
  hypothesis, `Faithful`, which `ZeroRuns` shows to be satisfiable. `Wire` states the laws of the codec that the other
  parts need.
- **Fragmentation and reassembly** (`Fragmentation`, `Reassembly`, `Conservation`, `FragmentManagers`, `Attempts`,
  `Survival`, `Transfers`, `Delivery`, `Sending`, `Timing`, `Resumption`, `RescueRules`, `FragmentRuns`, `LostPacket`,
  `Sums`): splitting, active sets, byte counters and caps, the rescue cache across attempts, expiry and eviction.
  `Reassembly` is the specification on values, `FragmentManagers` the class that is proved against it, and the other
  modules hold the theorems.
- **Relaying** (`SeenCaches`, `Relay`, `FragmentRelay`, `Network`, `FloodReach`, `SourceRoutes`, `SignedRelay`): the
  two bounded duplicate caches as one generic class and its unbounded log, source routes, and a network of nodes as a
  transition system.
- **Sessions** (`NoiseTransport`, `PrivatePayloads`, `Sessions`, `SessionManagers`, `SessionRuns`, `Handshakes`,
  `PendingSends`, `SentOnce`, `PeerRules`): nonces and rekeying over an ideal AEAD (sections 5.1, 11.3 and 11.4 of the
  Noise Protocol Framework, revision 34), the per-peer state machine, the handshake caches and the queue of pending sends.
- **Payload formats** (`Utf8`, `Messages`, `MessageTheorems`, `Announcements`, `PayloadFormats`, over the sequence
  facts of `Seqs`): the message and ANNOUNCE payloads. A string is the UTF-8 byte string (RFC 3629) that encodes it.

Methods follow the loops and field updates of the source and are proved equal to specification functions; the lemmas are
about those functions.

## Where the code differs from what it says

The model follows the code; these differences are stated as lemmas, with the exact condition or an input.

- Unpadding is not the inverse of padding on data that needs no padding and ends like padding; splitting unpads
  unconditionally, so such a packet is lost although all fragments arrive (`FullDataDecodes`, `UnsignedReassembles`,
  `LostAlthoughComplete`).
- Decoding again without what reads as padding never helps: trailing bytes are ignored anyway (`RetryNeverHelps`).
- The cap test at `server/bitchatd/mesh/fragment_manager.py:350` compares a string with integer keys; it is always true,
  and the set is always removed (`SetKeptExactly`, `FullSetIsLost`, `RepeatAtGlobalCapIsLost`).
- `index < total` is not checked; the count can reach the total without all indices, and the join then raises KeyError
  (`BrokenExactly`, `KeyErrorReached`).
- All fragments of a packet share one relay key, so a relay drops the others until the mark is five minutes old or ten
  thousand marks behind (`FragmentDroppedExactly`, `KeySharedExactly`).
- No file of the repository assigns `RelayEngine.send_to_peer`, so the running daemon never takes the source-routed
  branch that `SourceRoutes` is about.
- A zero timestamp is filled in anew by every relay (`ReencodeExactly`).
- A NOISE_ENCRYPTED in mid-handshake replaces the session but not the handshake caches, so a retried msg1 gets an answer
  from a session that is gone (`RunsMatchExactly`, `StaleReply`).
- A queued message whose content exceeds 255 bytes raises in the middle of the drain, and everything queued behind it is
  lost (`CompletionSendsQueue`, `OversizeLosesQueue`).
- The peer timeout logs "no ANNOUNCE", but every packet of any type postpones it (`LastSeenExactly`,
  `SweepForgetsExactly`).
- Rekeying is local: nothing tells the peer, and the message that triggers it cannot be read (`RekeyLosesPeer`).
- A nickname or string that is cut to its limit may be cut inside a character; a message is then undecodable
  (`DecodeEncodeMessage`).

## Model

| member | source | states |
|---|---|---|
| `Delivery.SplitSendReassemble` | server/bitchatd/mesh/fragment_manager.py:210-413 | A packet is split into at most 256 fragments; each is encoded at its own time, decoded and handed, in any order with any repeats and among any other fragments and sweeps that leave it alone, to a manager with room and nothing to inherit. The last missing index returns exactly the original packet with TTL 0, if and only if the encoding was really padded or its tail does not read as padding |
| `Delivery.FragmentsReassemble` | server/bitchatd/mesh/fragment_manager.py:271-413 | In the same runs its fragments return nothing as long as an index is missing; the last missing one completes exactly the bytes that were split, and neither an active set nor a rescue entry of that key remains |
| `Delivery.FullDataDecodes` | server/bitchatd/mesh/fragment_manager.py:216-226 | The unconditional unpad before splitting is harmless exactly when padding was added or the encoding does not end like padding |
| `LostPacket.UnsignedReassembles` | server/bitchatd/mesh/fragment_manager.py:216-221 | For an unsigned packet with an uncompressed payload of at least 255 bytes the same condition on what the sender has: the packet comes back if and only if its encoding has a padded length or its payload does not end like padding |
| `LostPacket.LostAlthoughComplete` | server/bitchatd/mesh/fragment_manager.py:216-221 | For every compressor and every 600-byte ciphertext it does not shorten and that ends in 0x01: whatever the run in which all fragments arrive, the receiver does not return the packet |
| `Delivery.FragmentArrives` | server/bitchatd/mesh/fragment_manager.py:252-267 | Every fragment of a splittable packet, whenever it is encoded, decodes and carries its piece and the padded sender unharmed |
| `Delivery.ExpiredSetIsRescued` | server/bitchatd/mesh/fragment_manager.py:446-483 | A sweep keeps every fragment of a set that expires with at least three quarters of them, with correct chunks only and the sweep's time, unless the entry is evicted at once |
| `Delivery.ResumeCompletes` | server/bitchatd/mesh/fragment_manager.py:302-413 | A new attempt that finds such an entry less than an hour old, among any other traffic, returns nothing until the rescued and the newly received indices cover 0..total-1, then exactly the string that is sent, and leaves no set and no entry of the key |
| `Resumption.ExpireThenComplete` | server/bitchatd/mesh/fragment_manager.py:302-483 | Both halves over one run: a set expires with at least three quarters of its fragments, its entry is not evicted, any fragments (also late ones and retries under the same key) and any sweeps within the hour follow, a new attempt starts within 60 minutes; it completes at the first fragment after which inherited and new indices cover 0..total-1, to exactly the string that is sent, and then neither a set nor an entry of the key remains |
| `Resumption.RunKeepsEntry` | server/bitchatd/mesh/fragment_manager.py:428-495 | Over any run in which its key is not evicted or completed and no sweep comes more than an hour after it, a rescue entry keeps its indices and does not get older |
| `Delivery.StalePieceSurvives` | server/bitchatd/mesh/fragment_manager.py:302-327 | If the content behind a (sender, total, type) key changed, one stale inherited piece ends up in the completed string: the reason for the hypothesis of the soundness theorem |
| `Transfers.TransferCompletes` | server/bitchatd/mesh/fragment_manager.py:271-413 | Over every run in which a transfer is interleaved with sweeps at most 30,000 ms after its last own fragment and fragments of other ids, of any key, that do not complete another attempt of its key, for any inherited pieces with indices below the total: its set holds exactly the inherited pieces overlaid with the received ones, until they are complete; then exactly their join is returned and nothing of the transfer remains |
| `Transfers.OthersSpareIt` | server/bitchatd/mesh/fragment_manager.py:337-393 | A fragment of another id, even of another attempt under the same key unless it completes that attempt, or a sweep at most 30,000 ms after the set's last fragment, leaves a set as it is, whatever it opens, removes or completes |
| `Timing.SweepRemovesExactly` | server/bitchatd/mesh/fragment_manager.py:442-446 | A set outlasts a sweep, unchanged, if and only if its last fragment came at most 50 ms per announced fragment, or 30 s if that is more, before the sweep |
| `Timing.SweepRescuesExactly` | server/bitchatd/mesh/fragment_manager.py:446-483 | A set that does not, alone of its key, leaves an entry of the sweep's time with its fragments laid over what was there, if and only if four times its fragments are at least three times the total; otherwise the entry stays as it was |
| `Timing.TransferOutlastsExactly` | server/bitchatd/mesh/fragment_manager.py:355-446 | Over every run of a transfer that is not yet complete: its set holds what was inherited and received, and outlasts a sweep if and only if the sweep comes at most 30,000 ms after its last own fragment, whatever came in between |
| `Timing.LateTransferRescuedExactly` | server/bitchatd/mesh/fragment_manager.py:355-483 | If the sweep comes later, the set is gone, and an entry, of exactly the inherited and received pieces, is left if and only if they are at least three quarters of the total |
| `RescueRules.InheritedExactly` | server/bitchatd/mesh/fragment_manager.py:302-309 | A new set starts from the rescue entry of its key exactly when the entry is less than an hour old |
| `RescueRules.SweepForgetsStale` | server/bitchatd/mesh/fragment_manager.py:428-437 | After a sweep every entry is at most an hour old, or was renewed by a set that expired in this sweep |
| `RescueRules.SweepLimits` | server/bitchatd/mesh/fragment_manager.py:485-489 | A sweep that changed a cache kept on disk leaves at most 20 entries and 4 MiB |
| `RescueRules.TrimmedExactly` | server/bitchatd/mesh/fragment_manager.py:122-138 | Trimming leaves the cache as it is exactly when it holds at most 20 entries and 4 MiB |
| `RescueRules.TrimmedSparingly` | server/bitchatd/mesh/fragment_manager.py:122-138 | If it does not, some entry that went would have been one too many beside those that stay: the 21st, or over 4 MiB |
| `RescueRules.Accepted` | server/bitchatd/mesh/fragment_manager.py:291-357 | A fragment that is not ignored leaves its set gone, or with its own time as the time of the last fragment |
| `RescueRules.LostExactly` | server/bitchatd/mesh/fragment_manager.py:340-353 | A piece costs its set if and only if the set would exceed 1,048,576 bytes or all sets 4,194,304, a repeated index counting only its growth |
| `RescueRules.Ignored` | server/bitchatd/mesh/fragment_manager.py:271-301 | A fragment that is too short, empty, announces more than 256 fragments or would open a 65th set changes nothing |
| `RescueRules.AttemptCounted` | server/bitchatd/mesh/fragment_manager.py:309-320 | A fragment raises the attempt count of its key by one exactly when it opens a set, which carries the new number |
| `RescueRules.AttemptsCounted` | server/bitchatd/mesh/fragment_manager.py:309-320 | Between sweeps the attempt count of a key is what it was plus the number of sets opened for that key |
| `RescueRules.SweepForgetsAttempts` | server/bitchatd/mesh/fragment_manager.py:432-437 | A sweep that trims nothing forgets the attempt count of a key exactly when its rescue entry is over an hour old |
| `Survival.SetKeptExactly` | server/bitchatd/mesh/fragment_manager.py:284-353 | A set that was there before a fragment is there after it exactly when: for its own set, the headers agree, both byte caps hold and nothing is complete; for another set, no transfer of the same key is completed. The test meant to spare a set at the global cap spares none |
| `Survival.FullSetIsLost` | server/bitchatd/mesh/fragment_manager.py:341-346 | A set of one MiB received over the wire, and one byte more under another index: all of it is lost |
| `Survival.RepeatAtGlobalCapIsLost` | server/bitchatd/mesh/fragment_manager.py:348-353 | At four MiB overall even a repeated index that grows by one byte costs its set |
| `Survival.KeyErrorReached` | server/bitchatd/mesh/fragment_manager.py:365-366 | From an empty manager a first fragment with index 1 of total 1 raises KeyError |
| `Attempts.RunsReassembleExactly` | server/bitchatd/mesh/fragment_manager.py:302-393 | Over every run of handling and sweeping in which each fragment id has one sender and all fragments of one key are chunks of one string, every active set and rescue entry holds only correct chunks and every completed reassembly is exactly that string |
| `Attempts.RunsConserveBytes` | server/bitchatd/mesh/fragment_manager.py:291-368 | Over every run each set's counter is the sum of its fragment lengths, the global counter the sum over the sets, and at every call boundary there are at most 64 sets, 1 MiB per set and 4 MiB overall |
| `Conservation.HandleKeepsConsistent` | server/bitchatd/mesh/fragment_manager.py:271-413 | One arbitrary fragment keeps all of that, although an inherited set may exceed a cap in the middle of the call |
| `Conservation.SweepKeepsConsistent` | server/bitchatd/mesh/fragment_manager.py:428-495 | A sweep keeps all of that too |
| `Attempts.BrokenExactly` | server/bitchatd/mesh/fragment_manager.py:365-366 | The final join raises KeyError exactly when the fragment count reaches the total with an index out of range among the stored ones |
| `Attempts.CountedComplete` | server/bitchatd/mesh/fragment_manager.py:365-366 | Counting fragments is the same as having all indices exactly when every stored index is below the total |
| `Conservation.EvictOneMore` | server/bitchatd/mesh/fragment_manager.py:122-138 | One eviction step: dropping the oldest entry of an oversized cache preserves that survivors are newest and that the last evicted entry would have broken a limit |
| `Conservation.OldestExists` | server/bitchatd/mesh/fragment_manager.py:130-131 | A non-empty map of times has an oldest entry, which is what the eviction loop asks for while the cache is not empty |
| `FragmentManagers.FragmentManager.HandleFragment` | server/bitchatd/mesh/fragment_manager.py:271-413 | The in-place fields after the call, and the reply, are those of the specification for any payload, with every cap and exact counters |
| `FragmentRuns.Serve` | server/bitchatd/mesh/fragment_manager.py:82-117 | Any arrivals and cleanup rounds served by the class are a run with those replies; counters stay exact and caps hold, and over honest traffic every completed reassembly is exact and nothing raises |
| `FragmentManagers.FragmentManager.Remove` | server/bitchatd/mesh/fragment_manager.py:417-421 | Removing a set subtracts its bytes; the clamp at zero never acts |
| `FragmentManagers.FragmentManager.Add` | server/bitchatd/mesh/fragment_manager.py:337-393 | Caps on the set and overall, storing, and completion of the set, branch by branch |
| `FragmentManagers.FragmentManager.Open` | server/bitchatd/mesh/fragment_manager.py:291-336 | Opening a set inherits a rescue entry younger than an hour, counts its bytes and the attempt |
| `FragmentManagers.FragmentManager.Purge` | server/bitchatd/mesh/fragment_manager.py:368-389 | A completed transfer removes its own set, every stale set of the same key, the rescue entry and its time |
| `FragmentManagers.FragmentManager.CleanupOld` | server/bitchatd/mesh/fragment_manager.py:428-495 | A sweep drops stale rescue entries, expires sets in dictionary order, merges their fragments into the rescue cache and trims it |
| `FragmentManagers.FragmentManager.Expire` | server/bitchatd/mesh/fragment_manager.py:451-483 | One expired set: merged into its rescue entry when at least three quarters are there, and removed |
| `FragmentManagers.FragmentManager.EvictRescueIfNeeded` | server/bitchatd/mesh/fragment_manager.py:122-138 | Eviction ends within 20 entries and 4 MiB, survivors are at least as new as every evicted entry, keeping the last evicted one would have broken a limit, and the reported flag says whether anything went |
| `Fragmentation.PieceRoundTrip` | server/bitchatd/mesh/fragment_manager.py:48-63 | Decoding an encoded fragment payload gives it back |
| `Fragmentation.PieceOnto` | server/bitchatd/mesh/fragment_manager.py:54-63 | Every payload that decodes is the encoding of what it decodes to |
| `PayloadFormats.FragmentBytes` | server/bitchatd/mesh/fragment_manager.py:48-51 | The bytes of a fragment payload in plain numbers |
| `Fragmentation.ChunksJoin` | server/bitchatd/mesh/fragment_manager.py:243-246 | The chunks of a string join to the string |
| `Fragmentation.SplitPacket` | server/bitchatd/mesh/fragment_manager.py:210-267 | create_fragments: unpad, threshold, room per fragment, chunks and fragment packets in order, or a struct error |
| `Sending.EveryPacketArrives` | server/bitchatd/mesh/fragment_manager.py:210-413 | A sendable packet of any size whose route leaves room and that needs at most 256 fragments is sent: up to 512 bytes as itself, and what is encoded then decodes to it; above as fragments, of which the last missing one returns it with TTL 0 in every run in which they arrive, under the exact condition of the unpadding |
| `Sending.NothingSentExactly` | server/bitchatd/mesh/fragment_manager.py:216-240 | Nothing is sent exactly when the packet does not encode, or is over 512 bytes and has a route of at least 58 hops, 57 with a recipient |
| `Sending.SentWholeExactly` | server/bitchatd/mesh/fragment_manager.py:223-224 | The packet itself is sent exactly when it encodes to at most 512 bytes without what reads as padding |
| `Sending.PackErrorExactly` | server/bitchatd/mesh/fragment_manager.py:243-254 | Splitting raises exactly when more than 65,535 fragments would be needed |
| `Sending.ChunkAt` | server/bitchatd/mesh/fragment_manager.py:243-246 | Chunk i is the slice of the data from i times the room to the next multiple or the end |
| `Sending.RoomInNumbers` | server/bitchatd/mesh/fragment_manager.py:228-237 | A fragment has room for 461 bytes, 459 with version 2 or a route, 8 fewer for a recipient and for every hop, 1 fewer for the count of hops |
| `Sending.FragmentHeader` | server/bitchatd/mesh/fragment_manager.py:248-267 | What fragment i decodes to keeps sender, recipient, route, TTL and timestamp of its packet, has no signature, version 2 exactly with a route, and carries id, index, total, the packet's type and the i-th chunk |
| `Fragmentation.FragmentsFit` | server/bitchatd/mesh/fragment_manager.py:228-267 | Every fragment of every packet, routed or not, encodes to at most 499 bytes after possible compression and pads to 256 or 512 |
| `Fragmentation.FewFragments` | server/bitchatd/mesh/fragment_manager.py:228-246 | An encodable unrouted version 1 packet needs at most 145 fragments and at most 1 MiB, so a receiver's limits never reject it |
| `CodecTheorems.DecodeEncode` | server/bitchatd/protocol/codec.py:57-278 | Every transmissible packet within the payload limit survives the padded wire: all fields, with peer ids, hops and signature at their wire width and flags recomputed |
| `CodecTheorems.DecodeEncodeExactly` | server/bitchatd/protocol/codec.py:161-278 | An encoding with a full signature, or none, is decoded back if and only if its version is 1 or 2 and its payload is within the limit |
| `CodecTheorems.WellFormedRoundTrip` | server/bitchatd/protocol/codec.py:57-278 | A well-formed packet comes back unchanged in every field but the flags byte |
| `CodecTheorems.TrailingBytesIgnored` | server/bitchatd/protocol/codec.py:174-278 | Decoding ignores trailing bytes exactly when the packet does not announce a signature it is too short to hold |
| `CodecTheorems.PrefixIsNotThePacket` | server/bitchatd/protocol/codec.py:161-278 | A proper prefix of an encoding decodes at all only to the packet without its signature |
| `CodecTheorems.DecodedFromWire` | server/bitchatd/protocol/codec.py:174-278 | Whatever bytes arrive, a decoded packet has version 1 or 2, type, TTL, flags and timestamp within their widths, eight-byte sender, recipient and hops, at most 255 hops and only in version 2, and a 64-byte signature if any |
| `ForeignPackets.ForeignDecodesExactly` | server/bitchatd/protocol/codec.py:151-278 | A packet compressed by any other implementation, padded or not, decodes to exactly the payload that the first of the zlib, raw and any-format inflaters to open it yields; it fails to decode if and only if none opens it or the payload is over 50,000 times as long as the compressed bytes |
| `ForeignPackets.RetryNeverHelps` | server/bitchatd/protocol/codec.py:161-171 | For every byte string the second decoding attempt, after unpadding, changes nothing: what does not decode as it is does not decode unpadded |
| `ForeignPackets.LongPayloadRejected` | server/bitchatd/protocol/codec.py:189-199 | Whatever announces a payload over 10 MiB does not decode, not even after unpadding |
| `WireFormat.PacketBytes` | server/bitchatd/protocol/codec.py:57-139 | An encoding is, in plain numbers, version, type, TTL, eight bytes of timestamp, the flags byte (1 recipient, 2 signature, 4 compressed, 8 route), the length in two bytes or four, sender, recipient, counted route, payload or original size and compressed payload, and at most 64 bytes of signature; compressed exactly when over 100 bytes and shorter |
| `WireFormat.EncodesExactly` | server/bitchatd/protocol/codec.py:57-139 | Encoding succeeds if and only if version, type and TTL fit a byte, the timestamp eight bytes, and the payload field and the original size of a compressed payload two bytes, or four from version 2 on |
| `WireFormat.DigitsExactly` | server/bitchatd/protocol/codec.py:93-100 | The integers of the format are written most significant byte first |
| `WireFormat.PaddingBytes` | server/bitchatd/protocol/codec.py:22-39 | Padding only appends, every byte appended is their number, and something is appended exactly for the lengths that are padded |
| `WireFormat.PacketVector` | server/bitchatd/protocol/codec.py:57-139 | One packet's 32 bytes, byte by byte, whatever the compressor and the clock |
| `Codec.EncodePacket` | server/bitchatd/protocol/codec.py:57-139 | encode in the source's order, with flags and body growing step by step, equals the padded layout or None |
| `Codec.DecodeAtOffsets` | server/bitchatd/protocol/codec.py:174-278 | _decode_raw with its moving offset equals the parser on suffixes, including every failure |
| `Codec.EncodeBlob` | server/bitchatd/protocol/codec.py:64-82 | Compression is used only when it is shorter, with the original size in a two- or four-byte prefix, or fails when the size does not fit |
| `CodecTheorems.PeerIdUnchanged` | server/bitchatd/protocol/codec.py:142-148 | A peer id is kept exactly when it has eight bytes |
| `Padding.UnpadUndoesPad` | server/bitchatd/protocol/codec.py:22-54 | Unpadding undoes padding if and only if padding was added or the data does not itself end like padding |
| `Padding.PadAddsBytes` | server/bitchatd/protocol/codec.py:22-39 | Padding adds bytes exactly for lengths 1-255, 257-511, 769-1023 and 1793-2047, up to a block size |
| `Padding.PadLoop` | server/bitchatd/protocol/codec.py:22-39 | The loop over the block sizes computes the padding |
| `Wire.BinaryWireLaws` | server/bitchatd/protocol/codec.py:57-278 | The repository's codec obeys the five laws (round trip, rejected prefixes, fields decide bytes, lower TTL, sizes) that the other theorems rest on |
| `Wire.ReencodeExactly` | server/bitchatd/protocol/codec.py:96 | Re-encoding a received packet gives the received bytes back if and only if its timestamp was set, since a zero timestamp is replaced by the clock |
| `ZeroRuns.ZeroRunsFaithful` | server/bitchatd/protocol/codec.py:151-158 | The hypothesis about zlib is satisfiable by a compressor that really compresses |
| `Padding.UnpadCanLoseData` | server/bitchatd/protocol/codec.py:42-54 | 256 bytes of 0x01 are padded to themselves and unpadded to 255 |
| `SignedRelay.SignedBytesSurviveRelays` | server/bitchatd/mesh/session_manager.py:381-403 | After any number of decode, lower, encode hops every field but TTL is as sent, TTL is lower by exactly the hops, and re-encoding with TTL 0 and no signature gives the bytes the origin signed |
| `SignedRelay.TravelLowersTtl` | server/daemon.py:154-161 | The bytes after n relays are the encoding of the origin's packet with TTL lowered by n, and there are none after more relays than TTL |
| `Relay.RelayLowersTtl` | server/bitchatd/mesh/relay_engine.py:43-85 | A relayed packet is the received one with TTL one lower; own packets and TTL 0 are never relayed |
| `FloodReach.ActsExactly` | server/bitchatd/mesh/relay_engine.py:43-85 | An unseen packet of somebody else with TTL left and no duplicate hop goes to the next hop if that can be reached, and otherwise to all exactly when the draw succeeds (always with TTL 4 after lowering or at most ten peers, else 85, 70, 55 and 40 percent) and broadcasting is possible, with the TTL one lower; in every other case nothing is sent |
| `FloodReach.FindSelfExactly` | server/bitchatd/mesh/relay_engine.py:156-160 | A node finds itself at a position exactly when that hop is the first eight bytes of its id and no earlier one is |
| `FloodReach.DispatchActsExactly` | server/daemon.py:174-258 | Dispatching relays exactly what the filter lets through and is neither this node's own nor addressed to it alone; fragments to it count as such even under the broadcast address |
| `FloodReach.DispatchKeyIdentifies` | server/daemon.py:77-84 | The filter takes two packets for one exactly when sender and type agree and, for Noise packets, the payloads, for all others the timestamps |
| `FloodReach.DuplicateExactly` | server/daemon.py:87-100 | At any point of a node's life a packet is dropped as a duplicate if and only if it is no fragment, the last mark of its key is younger than 10 s and fewer than 1,000 marks followed it |
| `Relay.RelayKeyIdentifies` | server/bitchatd/mesh/relay_engine.py:119-121 | Two packets share a relay key if and only if sender, type and timestamp agree |
| `Relay.FragmentDroppedExactly` | server/bitchatd/mesh/relay_engine.py:98-121 | At any point of a relay's life a received fragment, whatever its recipient, route, flags byte and TTL, is dropped without a trace if and only if the last mark of the key shared by all fragments of its packet is younger than 300 s and fewer than 10,000 marks followed it |
| `FragmentRelay.DecodedIsFragment` | server/bitchatd/mesh/fragment_manager.py:248-267 | The bytes of every fragment of a packet with a timestamp, addressed, routed or compressed, after any number of relays, decode to such a received fragment, with the TTL lowered by the relays |
| `FragmentRelay.KeySharedExactly` | server/bitchatd/mesh/relay_engine.py:119-121 | Two fragments of a packet, each encoded at its own time, decode to packets with one relay key if and only if the packet has a timestamp or they were encoded in the same millisecond |
| `Relay.LifeKeepsMarks` | server/bitchatd/mesh/relay_engine.py:43-68 | Over every sequence of handle_relay calls with a forward clock the bounded cache stands for the unbounded list of marks |
| `Relay.NextFragmentDropped` | server/bitchatd/mesh/relay_engine.py:119-121 | Right after one received fragment of a packet was admitted, any other one within 300 s is dropped |
| `Relay.HasDuplicateHops` | server/bitchatd/mesh/relay_engine.py:146-153 | True exactly when two positions of the route agree |
| `Relay.FindSelfInRoute` | server/bitchatd/mesh/relay_engine.py:156-160 | The first position of this node's id in the route, or -1 |
| `SourceRoutes.SourceRouteProgress` | server/bitchatd/mesh/relay_engine.py:70-81 | Whenever nodes pass a decoded packet on by unicasts of handle_relay, the n-th relay leads to the n-th hop after the first node's own, positions strictly increase, the TTL falls by one each time, and after at most len(route) relays the recipient has it |
| `SourceRoutes.UnicastFollowsRoute` | server/bitchatd/mesh/relay_engine.py:70-81 | A unicast happens only on a route without duplicate hops that this node is on, to the next hop, with the TTL one lower, and never at the recipient |
| `Relay.RelayEngine.Handle` | server/bitchatd/mesh/relay_engine.py:43-85 | handle_relay updates the cache and acts as specified, branch by branch |
| `Relay.IsDispatchDuplicate` | server/daemon.py:77-100 | The dispatch filter answers and updates its cache as specified; fragments bypass it |
| `SeenCaches.CacheAnswersLikeLog` | server/bitchatd/mesh/relay_engine.py:98-114 | Along every run with a forward clock the bounded LRU cache reports a key as seen exactly when an unbounded log of marks would: last mark younger than the window and fewer than the capacity of marks after it |
| `SeenCaches.AdmissionsWellSpaced` | server/bitchatd/mesh/relay_engine.py:98-114 | Over every run two admissions of one key are at least the window apart or more than the capacity of marks apart |
| `SeenCaches.LookAnswersLog` | server/bitchatd/mesh/relay_engine.py:98-105 | Looking a key up in the cache answers what the log says |
| `SeenCaches.MarkAppendsToLog` | server/bitchatd/mesh/relay_engine.py:107-114 | Marking a key, with eviction, is appending to the log |
| `SeenCaches.SeenCache.IsSeen` | server/bitchatd/mesh/relay_engine.py:98-105 | _is_seen on the dictionary: an expired entry goes when it is looked up |
| `SeenCaches.SeenCache.MarkSeen` | server/bitchatd/mesh/relay_engine.py:107-114 | _mark_seen on the dictionary: the key moves to the end, the oldest entries beyond the capacity go |
| `SeenCaches.SeenCache.Admit` | server/daemon.py:87-100 | Lookup, removal of an expired entry, insertion at the end and eviction, on the dictionary itself |
| `Network.FloodSafety` | server/daemon.py:154-177 | In every reachable network a node sends one relay key again only 300 s or 10,000 marks later, never relays its own packets, and no copy has been relayed more often than its initial TTL |
| `FloodReach.FloodReaches` | server/bitchatd/mesh/relay_engine.py:43-85 | A flood reaches: along every path of distinct nodes that have not seen the packet, are neither its origin nor its recipient and relay with certainty, as long as its TTL at most, there is a run with any times, surroundings and neighbours that fit, after which a copy for the last node is on the air, relayed by all before it, its TTL lowered once by each |
| `FloodReach.OneHop` | server/bitchatd/mesh/relay_engine.py:83-85 | One delivery to such a node puts a copy for each chosen neighbour on the air and changes no other node |
| `FloodReach.StaysInFlight` | server/daemon.py:154-161 | Along every run a copy on the air stays there until a delivery of it |
| `Network.DeliverLosesEnergy` | server/bitchatd/mesh/relay_engine.py:43-85 | The sum of (n+1)^ttl over copies in flight strictly falls at every delivery |
| `Network.RunsKeepNetAndEnd` | server/bitchatd/mesh/relay_engine.py:43-85 | Every node's caches stay exact along every run, and no run is longer than the initial energy |
| `Network.DeliverKeepsNet` | server/daemon.py:174-177 | One delivery, with the dispatch of whatever its fragment completes, keeps both duplicate caches of every node equal to their logs and every copy's TTL account |
| `Network.FreshNetOk` | server/daemon.py:66-74 | Nodes that have seen nothing, with packets fresh from their origins, are a network the theorems start from |
| `Handshakes.RunsKeepCaches` | server/bitchatd/mesh/session_manager.py:492-580 | Over every run of packets, commands and timeouts a cached msg2 means a live unestablished session, a cached msg1 means a cached msg2, and an established session has neither |
| `Handshakes.EveryStepKeepsCaches` | server/bitchatd/mesh/session_manager.py:437-650 | Each single handler keeps that invariant, from any state that has it |
| `Handshakes.RunsMatchExactly` | server/bitchatd/mesh/session_manager.py:616-632 | Along a run the cached pair always belongs to the session in place if and only if no NOISE_ENCRYPTED arrived between msg2 and msg3 |
| `Handshakes.PairMatchesExactly` | server/bitchatd/mesh/session_manager.py:616-632 | The same for one step from any matching state |
| `Handshakes.RepliesRightExactly` | server/bitchatd/mesh/session_manager.py:521-550 | Every msg2 sent answers the message just received for the session in place, except exactly the resent answer of a pair that does not match |
| `Handshakes.RetryAnswered` | server/bitchatd/mesh/session_manager.py:521-536 | A repeated msg1 is answered with the cached msg2 and changes nothing else |
| `Handshakes.NewMsg1Restores` | server/bitchatd/mesh/session_manager.py:537-550 | Any other msg1 makes the caches match again |
| `Handshakes.StaleReply` | server/bitchatd/mesh/session_manager.py:616-632 | msg1, NOISE_ENCRYPTED, msg1 again: a concrete run in which the second answer comes from a session that is gone |
| `Handshakes.CompletesExactly` | server/bitchatd/mesh/session_manager.py:492-565 | After a handshake message the session is established if and only if a session that had sent msg2 read something other than a msg1 |
| `PeerRules.Msg1Exactly` | server/bitchatd/mesh/session_manager.py:492-580 | What becomes of a 32-byte message in every state: the cached answer again, or an answer from a session that has heard nothing, new if one was established or had answered, or the handshake given up |
| `PeerRules.OtherHandshakeExactly` | server/bitchatd/mesh/session_manager.py:492-580 | The same for every other handshake message |
| `PeerRules.Msg1AnsweredExactly` | server/bitchatd/mesh/session_manager.py:513-580 | A msg2 goes out for a 32-byte message if and only if it is a retry with the cached answer at hand, or it is readable and the answer writable |
| `PeerRules.HandshakeAgain` | server/bitchatd/mesh/session_manager.py:508-580 | From any established session: msg1 is answered by a new session, and a readable msg3 then establishes that session with the new keys and drains the young part of the queue; with nothing queued nonce and message count are zero |
| `PendingSends.AtMostOnce` | server/bitchatd/mesh/session_manager.py:582-614 | Over every run an id handed out once is transmitted at most once; if it was cancelled, timed out, dropped by a LEAVE or otherwise lost it is transmitted at no step; and every id is sent, queued or dropped |
| `PendingSends.RunsConserve` | server/bitchatd/mesh/session_manager.py:794-849 | Over every run the ids handed out are, with multiplicity, those transmitted, those queued and those dropped |
| `PendingSends.EveryStepConserves` | server/bitchatd/mesh/session_manager.py:355-377 | The same account balances for each single step |
| `PendingSends.CompletionSendsQueue` | server/bitchatd/mesh/session_manager.py:587-614 | When a handshake completes the queued messages younger than 600 s go out exactly once in queue order if and only if each fits its length byte; otherwise only those before the first that does not |
| `PendingSends.OversizeLosesQueue` | server/bitchatd/mesh/session_manager.py:587-614 | A concrete run: a message of 256 bytes is queued before a short one, the handshake completes, the queue is empty and neither was transmitted |
| `SentOnce.AtMostOnceToAnyone` | server/bitchatd/mesh/session_manager.py:582-614 | Over all peers and any interleaving of calls, an id handed out once is transmitted at most once to whomever, and to no one if any peer's queue lost it |
| `PendingSends.QueueArrives` | server/bitchatd/mesh/session_manager.py:587-614 | A peer holding the other half of the keys decrypts and parses the drained queue to exactly its ids and contents, in order, within an hour and 10,000 messages |
| `PendingSends.ReceiptsArrive` | server/bitchatd/mesh/session_manager.py:699-712 | The sender of a message decrypts a delivery receipt and then a read receipt, both naming its message |
| `PeerRules.MailAnsweredExactly` | server/bitchatd/mesh/session_manager.py:652-714 | Every text or file that decrypts is answered with exactly two messages, a delivery and a read receipt for its id, sealed under live keys; anything else that decrypts is not answered; the failures are forgotten |
| `PeerRules.ThirdFailureResets` | server/bitchatd/mesh/session_manager.py:632-650 | The third failure in a row, and no earlier one, sends LEAVE and ANNOUNCE and starts a new session |
| `PeerRules.NoSessionStartsOver` | server/bitchatd/mesh/session_manager.py:616-630 | So does every encrypted message without an established session |
| `PeerRules.AnnounceExactly` | server/bitchatd/mesh/session_manager.py:458-486 | An ANNOUNCE is echoed exactly when the last one is 10 s ago, and drops session and handshake caches exactly when it brings another Noise key than the one known |
| `PeerRules.SyncExactly` | server/bitchatd/mesh/session_manager.py:744-749 | A REQUEST_SYNC is answered under the same cooldown and changes nothing else |
| `PeerRules.TypeByteDecides` | server/bitchatd/mesh/session_manager.py:437-456 | Which type byte is read as what: 1 ANNOUNCE, 3 LEAVE, 16 handshake, 17 encrypted, 33 REQUEST_SYNC |
| `PeerRules.OtherTypesIgnored` | server/bitchatd/mesh/session_manager.py:437-456 | A packet of any other type changes nothing but the time of last contact |
| `PeerRules.SweepForgetsExactly` | server/bitchatd/mesh/session_manager.py:355-377 | A sweep forgets session, caches, queue, names and times of a peer exactly if it has announced itself and has been silent for longer than the timeout, and changes nothing of any other |
| `PeerRules.LeaveForgets` | server/bitchatd/mesh/session_manager.py:751-760 | LEAVE forgets an established session, the caches, the queue and the names at once |
| `PeerRules.LastSeenExactly` | server/bitchatd/mesh/session_manager.py:437-439 | Every packet, of whatever type, sets the time of last contact; nothing else but the sweep changes it |
| `PeerRules.SendExactly` | server/bitchatd/mesh/session_manager.py:794-849 | A message to send is transmitted alone, raises exactly when over 255 bytes, or is queued last with an ANNOUNCE exactly when there is no established session or nobody to hear it; an empty one changes nothing |
| `PeerRules.SendFileExactly` | server/bitchatd/mesh/session_manager.py:865-895 | With an established session exactly one message goes out, sealing the file's payload; without one nothing happens |
| `PeerRules.FreshExactly` | server/bitchatd/mesh/session_manager.py:588-590 | The drain keeps exactly what was queued less than 600 s ago |
| `PeerRules.CompletionReports` | server/bitchatd/mesh/session_manager.py:597-614 | Each message that the drain transmits is reported as delivered right after, in queue order, and no other one |
| `PeerRules.CooldownCleared` | server/bitchatd/mesh/session_manager.py:335-337 | Once the cooldowns are cleared the next ANNOUNCE is echoed at once, however recent the last one |
| `PrivatePayloads.TextRoundTrip` | server/bitchatd/mesh/session_manager.py:64-77 | A message payload is parsed back to its id and content, whatever the later formats would make of it |
| `PayloadFormats.TextBytes` | server/bitchatd/mesh/session_manager.py:64-77 | The bytes of a text payload in plain numbers; packing fails exactly for a content over 255 or an id over 65,535 bytes |
| `PayloadFormats.FileBytes` | server/bitchatd/mesh/session_manager.py:80-90 | The bytes of a file payload in plain numbers |
| `PayloadFormats.FramedReadExactly` | server/bitchatd/mesh/session_manager.py:138-175 | What any framed payload is read as, whoever wrote it: a receipt if its first byte and two hyphens say so, else a file unless the type is 1, else a text if the announced content, or what there is of it, is UTF-8, and otherwise whatever the later formats make of it |
| `PayloadFormats.ReceiptReadExactly` | server/bitchatd/mesh/session_manager.py:138-147 | A payload that begins with 2 or 3 and an ASCII id with two hyphens is a receipt for that id, whatever follows |
| `PrivatePayloads.FileRoundTrip` | server/bitchatd/mesh/session_manager.py:80-90 | A non-empty file payload is parsed back to its id and bytes |
| `PrivatePayloads.ReceiptRoundTrip` | server/bitchatd/mesh/session_manager.py:138-147 | A receipt is parsed back to the id it acknowledges |
| `SessionManagers.SessionManager.HandlePacket` | server/bitchatd/mesh/session_manager.py:437-456 | Every packet is dispatched on its type byte, its payload decoded, the dictionaries of its sender changed as specified, and every other peer left alone |
| `SessionRuns.Serve` | server/bitchatd/mesh/session_manager.py:287-330 | Whatever packets, commands and timeout rounds are interleaved, each peer's dictionaries and everything sent to it are exactly its own run; so the results about runs hold of the manager, among them the invariant of the handshake caches |
| `SessionManagers.SessionManager.HandleAnnounce` | server/bitchatd/mesh/session_manager.py:458-490 | The ANNOUNCE handler: nickname, reset on a changed Noise key, and the echo under a cooldown |
| `SessionManagers.SessionManager.ReadHandshakeMessage` | server/bitchatd/mesh/session_manager.py:552-580 | Reading a handshake message: failure forgets the session, msg3 establishes and drains, msg1 is answered and cached |
| `SessionManagers.SessionManager.HandleHandshake` | server/bitchatd/mesh/session_manager.py:492-580 | The handshake handler with its resets, retry, failures and drain |
| `SessionManagers.SessionManager.HandleEncrypted` | server/bitchatd/mesh/session_manager.py:616-714 | The NOISE_ENCRYPTED handler: forced re-handshake, the failure counter, receipts |
| `SessionManagers.SessionManager.DrainPendingSends` | server/bitchatd/mesh/session_manager.py:587-614 | The drain: the queue is taken, filtered, and sent in order until something raises |
| `SessionManagers.SessionManager.SendMessage` | server/bitchatd/mesh/session_manager.py:794-849 | The send command: queue and invite, or encrypt and send |
| `SessionManagers.SessionManager.SweepPeers` | server/bitchatd/mesh/session_manager.py:355-377 | The timeout sweep removes exactly the known peers that were silent too long, and reports exactly those |
| `SessionManagers.SessionManager.HandleLeave` | server/bitchatd/mesh/session_manager.py:751-764 | LEAVE forgets session, caches, keys and queue of one peer |
| `SessionManagers.SessionManager.CancelPendingSends` | server/bitchatd/mesh/session_manager.py:582-585 | Cancelling empties one queue and returns its length |
| `SessionManagers.SessionManager.SendFileTo` | server/bitchatd/mesh/session_manager.py:865-897 | The send_file command: nothing without an established session, else one sealed payload |
| `SessionManagers.SessionManager.ClearAnnounceCooldown` | server/bitchatd/mesh/session_manager.py:335-337 | Every peer's cooldown is forgotten and nothing else |
| `NoiseTransport.NoncesNeverRepeat` | server/bitchatd/crypto/noise_session.py:137-153 | Over every conversation no side seals two messages under one (rekey epoch, nonce), and every nonce is below 10,000 |
| `NoiseTransport.EncryptNeverExhausts` | server/bitchatd/crypto/noise_session.py:137-153 | On an established session nonce and message count agree and encryption never fails: the exhaustion branch is unreachable |
| `NoiseTransport.DecryptsExactlyInEpoch` | server/bitchatd/crypto/noise_session.py:155-171 | A sent message decrypts to its plaintext, in any order and any number of times, if and only if the receiver's rekey count equals the sender's at encryption |
| `NoiseTransport.RekeyLosesPeer` | server/bitchatd/crypto/noise_session.py:173-183 | Rekeying is local: the message that makes one side rekey is already lost on a peer that was in step |
| `PeerRules.RekeysExactly` | server/bitchatd/crypto/noise_session.py:137-183 | Encryption rekeys exactly when the session is an hour old or has sent 10,000 messages; the message then has nonce 0 under the next key, and otherwise the next nonce under the same key |
| `NoiseTransport.NoiseSession.Establish` | server/bitchatd/crypto/noise_session.py:113-135 | The final handshake message installs both keys with fresh counters |
| `NoiseTransport.NoiseSession.EncryptMessage` | server/bitchatd/crypto/noise_session.py:137-153 | encrypt with its checks, rekey, nonce and counters |
| `NoiseTransport.NoiseSession.Rekey` | server/bitchatd/crypto/noise_session.py:173-183 | Rekeying by age or count advances both keys and resets the counters |
| `NoiseTransport.NoiseSession.DecryptMessage` | server/bitchatd/crypto/noise_session.py:155-171 | decrypt with its length check; opens exactly what was sealed with the receiving key and the transmitted nonce |
| `MessageTheorems.MessageRoundTrip` | server/bitchatd/messages/message.py:47-178 | A message comes back unchanged if and only if it is within the field limits, for every combination of optional fields and whatever bytes follow |
| `MessageTheorems.DecodeEncodeMessage` | server/bitchatd/messages/message.py:47-178 | In general it comes back cut to the field limits, or not at all exactly when a cut splits a character |
| `MessageTheorems.DecodedHasText` | server/bitchatd/messages/message.py:97-178 | Whatever bytes arrive, every string of a decoded message is valid UTF-8 |
| `Messages.WriteMessage` | server/bitchatd/messages/message.py:47-94 | The encoder's growing buffer equals the layout, or None for a timestamp out of range |
| `Messages.ReadMessage` | server/bitchatd/messages/message.py:97-178 | The decoder's moving offset stays in bounds on every input and equals the parser on suffixes, including cut-off strings |
| `Messages.ReadMentionsAt` | server/bitchatd/messages/message.py:145-156 | The mentions loop: early end of data, cut-off strings skipped, invalid strings fatal |
| `Messages.SignedRoundTrip` | server/bitchatd/messages/message.py:66-108 | A signed 64-bit timestamp survives |
| `PayloadFormats.MessageBytes` | server/bitchatd/messages/message.py:47-94 | A message is, in plain numbers, its flags byte, eight bytes of two's complement, the fields behind one byte of length (the content two), cut at 255 and 65,535 bytes, and the options in order; None exactly for a timestamp outside 64 bits |
| `PayloadFormats.OptionsCutOff` | server/bitchatd/messages/message.py:130-178 | A message that ends after its content decodes without options, whatever its flags announce |
| `Announcements.AnnounceRoundTrip` | server/bitchatd/protocol/announce.py:31-65 | Decoding an ANNOUNCE gives both keys and the nickname cut to 15 bytes; a text of at most 15 bytes comes back whole |
| `PayloadFormats.AnnounceReadExactly` | server/bitchatd/protocol/announce.py:43-65 | An ANNOUNCE decodes exactly when no entry is cut off and the tags 1, 2 and 3 all occur; of several entries with one tag the last one counts |
| `PayloadFormats.AnnounceBytes` | server/bitchatd/protocol/announce.py:31-40 | The bytes of an ANNOUNCE in plain numbers; it is refused exactly when a key is over 255 bytes |
| `Announcements.UnknownEntriesSpliced` | server/bitchatd/protocol/announce.py:43-65 | Splicing entries with unknown tags between any entries, and a lone byte at the end, never changes the result |
| `Announcements.UnknownTagsIgnored` | server/bitchatd/protocol/announce.py:43-65 | The result depends on the known entries only, for every payload that is not malformed |
| `Announcements.ReadOnto` | server/bitchatd/protocol/announce.py:43-65 | Every payload that is not malformed is a written list of entries and at most one byte |
| `Announcements.ReadAnnounce` | server/bitchatd/protocol/announce.py:43-65 | The decoder's loop equals the entry-by-entry specification, including malformed payloads |
| `Announcements.WriteAnnounce` | server/bitchatd/protocol/announce.py:31-40 | The encoder's loop writes the three entries, or fails when a value exceeds 255 bytes |

## Left out

- BLE, D-Bus, adapters and process lifecycle (`server/bitchatd/ble`, most of `server/daemon.py`), the IPC server and the clients: I/O with no visible semantics.
- The rescue cache's file: JSON and base64 persistence; only the in-memory cache is modelled. Whether a file is configured is a parameter, because the cache is trimmed on a sweep only then.
- Callbacks, logging and the content ids (SHA-256 prefixes) reported with them.
- zlib, X25519, ChaCha20-Poly1305 and Ed25519: parameters and symbolic ciphertexts. Whether the Noise library can read or write a handshake message is an input.
- Clocks, UUIDs, random fragment ids, the relay's random draw and its delays are inputs. A session handler reads the wall clock once, and each encryption reads the monotonic clock up to twice.
- Which dispatched packets reach the session manager (`_dispatch`'s `is_for_me`): the handlers' theorems are about any packet that is handed over; which packets are relayed is modelled.
- Locks and `await`: each locked call is one atomic step, and `handle_relay` looks up and marks its key before its first `await`.
- Randomness of relaying: `_should_relay` is modelled with its table of odds, and its random draw is an input; nothing is said about how likely a flood is to spread.
- `server/bitchatd/mesh/peer_manager.py`, range formatting and the scanner's back-off: only easy facts.
- The file-type heuristics: `_sniff_file`, saving files, and the formats `_parse_incoming` tries after receipts and standard framing are one function parameter; a framed file keeps its bytes as sent.
- The IPC commands that touch no peer state (`ping`, `peers`, `set_nick`, `broadcast`), published events other than `message_delivered`, and `_session_timestamps`, which nothing reads.
- The two older copies of the stack, `bitchatd/` and `upstream/android/`.
- Strings with lone surrogates, which Python cannot encode, are not representable; the replacement decoding of nicknames is a parameter that leaves valid UTF-8 alone.
- SessionManagers.SessionManager: holds each Noise session as a value, not as a mutable object of its own; no two peers share one in the source. The class for the object itself is NoiseTransport.NoiseSession.
- Network.FloodSafety: speaks of relay keys, not packets, because packets that share sender, type and timestamp share a key.
- PendingSends.QueueArrives: assumes that no rekey falls due during the drain, because a rekey of one side loses the peer (NoiseTransport.RekeyLosesPeer).
- Transfers.TransferCompletes: assumes room for the whole transfer beside what else is held, inherited pieces with indices below the total, and that no other fragment has its id and none completes another attempt of its key, as every completion theorem does; what happens otherwise is Survival.SetKeptExactly and Attempts.BrokenExactly.
- FloodReach.FloodReaches: says that a run exists, not that every run spreads the packet: a node that first hears a copy with less TTL left drops the later ones, so a slow short path can end a flood early.
- Timing.SweepRescuesExactly: assumes that no other set of the same key expires in the same sweep and that a cache kept on disk need not be trimmed after it; what trimming does is FragmentManagers.FragmentManager.EvictRescueIfNeeded.
- Network.DeliverKeepsNet: what a fragment completes is an input of the delivery, any packets with TTL 0; that it is what was split is Delivery.SplitSendReassemble.
- SourceRoutes.SourceRouteProgress: assumes that no node has the broadcast address as its own id, and that a packet arrives as it was sent (Wire.ReencodeExactly).
