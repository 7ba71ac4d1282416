# Verified models of ruproxy's wire protocols

ruproxy is a proxy server that speaks several protocols. Between its sockets and its cryptographic
libraries sit hand-written, stateful wire protocols in which two sides have to stay in step. This project
models those protocols in Dafny and proves what they promise, over all inputs, all runs and all
interleavings.

| file | what it models |
|---|---|
| `Bytes.dfy`, `Aead.dfy` | bytes, big-endian integers, UTF-8, stream endpoints; the laws of an abstract AEAD |
| `VmessChunks.dfy`, `VmessProofs.dfy` | the VMess chunk stream: the downlink and uplink loops with masking, padding and three cipher kinds |
| `XhttpStream.dfy`, `XhttpReorderProofs.dfy`, `XhttpReorderLimits.dfy`, `XhttpReorderMixed.dfy`, `XhttpReorderFull.dfy` | the XHTTP reading stream that puts packets back in order: what it conserves, how far it gets, mixed uploads, and what a reader is sure to be given |
| `XhttpSessions.dfy`, `XhttpSessionRuns.dfy` | the XHTTP session table under concurrent GET, POST and TTL steps, with a reordering stream behind every session; what becomes of every request, task and stream |
| `HysteriaVarint.dfy`, `HysteriaFrames.dfy` | QUIC varints and the Hysteria2 UDP frame codec with fragmentation |
| `HysteriaReassembly.dfy`, `HysteriaReassemblyProofs.dfy`, `HysteriaDuplicates.dfy` | reassembly of fragments from any interleaving, and what duplicates do to it |
| `ShadowsocksAead.dfy`, `ShadowsocksProofs.dfy` | the Shadowsocks 2022 nonce, AEAD writer and AEAD reader |
| `RealityDer.dfy`, `RealityDerProofs.dfy` | replacing the signature inside a DER certificate |
| `RealityKeyShare.dfy` | extracting the x25519 key from a ClientHello |
| `AnytlsSession.dfy`, `AnytlsReplies.dfy`, `AnytlsStream.dfy` | the AnyTLS frame demultiplexer, what it answers, and its stream readers |
| `TuicCodec.dfy`, `TuicConnection.dfy` | TUIC addresses and commands; the authentication gate and the tasks behind it |
| `WireLayouts.dfy` | the wire of each protocol, position by position and on literal values |

`dafny verify dfyconfig.toml` checks the whole project.

How the models are built. Code that the repository writes as loops and objects with fields appears as methods
and classes, each proved equal to a specification function (or to a step of a specification relation) on
every input; the lemmas then relate these specifications to each other. The AEADs are two functions with the
laws `open(seal(p)) = p` and ciphertext length = plaintext length + 16; where a failure depends on it, the law
that a ciphertext does not open under another nonce is a hypothesis too, and `LawsAreConsistent` shows that
the laws can be met. Shake128 is an arbitrary infinite sequence of 16-bit words for each seed. Random padding,
the reads a socket returns, name resolution, the settings parser, token validation and the moment at which a
peer drops a receiver are parameters. Strings are their UTF-8 bytes.

Where a promise turned out not to hold for all inputs, the code is kept as it is and the exact condition is
proved: the VMess round trip and the authenticated-length option, the second varint reader from 16384 on, header
chunks and frames of 2^16 bytes and more, an outer DER length of 2^16 and a signature of 2^24 bytes and more,
domains over 255 bytes, repeated packet numbers, duplicated fragments, empty PSH frames.

Two comments of the repository do not match its code, and the model follows the code. The header of
`src/common/transport/xhttp.rs` says that a session in the map keeps only the two senders and the notification;
the session also keeps both receivers until a GET takes them. The comments of `src/vmess/mod.rs` present the
two chunk loops as mirror images of one format; with the authenticated-length option they are not.

## Model

| member | source | states |
|---|---|---|
| VmessChunks.FillChunkNonce | src/vmess/mod.rs:512-517 | The nonce is 12 bytes: the counter, high byte first, and bytes 2 to 11 of the IV at their own positions. |
| VmessChunks.SendChunk | src/vmess/mod.rs:421-500 | One pass of the downlink loop writes exactly the encoded chunk, leaves the counter and the Shake128 position the specification says, and makes exactly the listed AEAD calls. |
| VmessChunks.RelayDown | src/vmess/mod.rs:389-507 | The whole downlink loop: for every split of the input into reads of 1 to 8192 bytes the wire is the chunk stream of those reads followed by the EOF chunk; an unsupported security type writes nothing and fails; with no cipher and no chunk option the bytes are copied. |
| VmessChunks.ReceiveChunk | src/vmess/mod.rs:287-376 | One pass of the uplink loop on any bytes at all: padding length drawn before the size mask, and the same chunk, end or error as the chunk decoder, with the reader left behind the chunk. |
| VmessChunks.RelayUp | src/vmess/mod.rs:261-379 | The whole uplink loop on any wire: bytes delivered, success or failure, AEAD calls made and bytes left unread are those of the stream decoder. |
| VmessProofs.SizeNeverTruncates | src/vmess/mod.rs:466-467 | For reads up to 8192 bytes ciphertext plus padding stays below 2^16, so the cast of the chunk size loses nothing, and opening undoes sealing. |
| VmessProofs.ChunkLockStep | src/vmess/mod.rs:287-377 | Lock step: from any counter (65535 and its wrap included) and any Shake128 position, reading back a written chunk gives its plaintext and leaves exactly the counter, position and AEAD calls of the writer. |
| VmessProofs.RelayRoundTrip | src/vmess/mod.rs:287-377 | Without the authenticated-length option the uplink loop recovers exactly the bytes given to the downlink loop, for every stream, split, masking, padding and cipher, and stops at the EOF chunk with a known rest. |
| VmessProofs.CutRelay | src/vmess/mod.rs:261-379 | On every truncation of the wire, without the authenticated-length option: the uplink loop delivers a prefix of the bytes, and ends without an error only if it delivered all of them (a copied stream has no end of its own). |
| VmessProofs.AuthLenNeverDecodes | src/vmess/mod.rs:475-482 | With the authenticated-length option the two loops use the counter in opposite orders, so the first size field never opens (for AEADs whose ciphertexts are bound to their nonce). |
| VmessProofs.RelayRoundTripIff | src/vmess/mod.rs:261-507 | Over all options and streams: the two loops understand each other if the bytes are copied or the authenticated-length option is off; and if they are not copied and it is on, the uplink loop fails, for AEADs whose ciphertexts do not open under another nonce. |
| VmessProofs.DownNoncesDistinctIff | src/vmess/mod.rs:444-479 | Downlink, every option: no key and nonce are used together twice if and only if no AEAD is used at all (no cipher, no authenticated length) or the chunks, the EOF chunk included, increment the counter at most 2^16 times; each chunk does so once, or twice with the authenticated length. |
| VmessProofs.UpNoncesDistinctIff | src/vmess/mod.rs:299-365 | Uplink, every option and every wire a peer may send, authentic or not: no key and nonce are used together twice if and only if no AEAD is used at all or the loop increments the counter at most 2^16 times, a last call that fails counting as one more. |
| WireLayouts.NonceIff | src/vmess/mod.rs:512-517 | Twelve bytes are the nonce of a chunk if and only if the first two are the counter, high byte first, and the others equal the IV at the same position. |
| WireLayouts.OptionBits | src/vmess/mod.rs:56-65 | The option bits 0x01, 0x04, 0x08 and 0x10 and the four security types that are served. |
| WireLayouts.Ciphers | src/vmess/mod.rs:444-463 | Security 0 is plain, 4 is ChaCha20-Poly1305 under the derived key, 3 and 5 are AES-128-GCM under the key itself, for sealing and for opening. |
| WireLayouts.Draws | src/vmess/mod.rs:428-441 | Each chunk draws its padding length modulo 64 first and its size mask after it, each only if the options ask for it. |
| WireLayouts.SizeLayout | src/vmess/mod.rs:466-488 | The size field is sealed under the length key and the next counter, or two bytes, high byte first, that differ from the size in exactly the bits set in the mask. |
| WireLayouts.ChunkLayout | src/vmess/mod.rs:421-500 | On the wire a chunk is its size field, the sealed data and the padding, and the size counts the last two; the counter goes on by one, or by two with the authenticated length. |
| WireLayouts.AuthLenReads | src/vmess/mod.rs:299-365 | What the uplink loop does accept with the authenticated length: the size sealed under the counter and the data under the one after it. |
| WireLayouts.Xor16Iff | src/vmess/mod.rs:483-485 | A bit of the masked size is set if and only if size and mask differ in it. |
| XhttpReorder.XhttpStream.PollRead | src/common/transport/xhttp.rs:545-606 | One poll of the stream on any state, buffer size and choice among equal heap tops is a step of the specification relation; the loop terminates. |
| XhttpReorderProofs.RunConserves | src/common/transport/xhttp.rs:551-605 | In every run, for any mix of chunks and packets: bytes received are bytes delivered plus bytes in leftover, stream buffer, heap and channel; packet numbers are conserved likewise; and once eof is set both buffers are empty and the next packet is not at the top of the heap (whether it is held at all: EofHoldsNextIff). |
| XhttpReorderProofs.EofIsFinal | src/common/transport/xhttp.rs:577-579 | After eof no poll delivers anything or changes the state. |
| XhttpReorderProofs.RunInOrder | src/common/transport/xhttp.rs:565-576 | For packets arriving in any order and any buffer sizes, delivered bytes followed by leftover are packets 0 to next-1 in order. |
| XhttpReorderProofs.ChunksInOrder | src/common/transport/xhttp.rs:586-594 | For stream uploads, delivered, buffered and queued bytes are the posted bytes in order. |
| XhttpReorderMixed.RunIsShuffle | src/common/transport/xhttp.rs:551-605 | In every run, packets and stream chunks in any mix: what is delivered is packets 0 to next-1 in order, interleaved with the chunks in order, without what is still buffered of either. |
| XhttpReorderLimits.DistinctNeverStale | src/common/transport/xhttp.rs:565-573 | With pairwise distinct sequence numbers every heap entry has a number of at least the next one. |
| XhttpReorderLimits.StaleIffRepeated | src/common/transport/xhttp.rs:565-576 | Exact condition: the heap holds an entry behind the stream if and only if some number already delivered was received twice. |
| XhttpReorderLimits.StaleIsForever | src/common/transport/xhttp.rs:565-576 | Through every run from there on, an entry behind the stream stays in the heap and nothing is popped any more, whatever arrives and however often the stream is read. |
| XhttpReorderLimits.NextIsPoppedIff | src/common/transport/xhttp.rs:565-576 | Exact condition: with empty buffers the packet waited for is popped by a poll if and only if no stale entry is in the heap. |
| XhttpReorderLimits.RepeatStops | src/common/transport/xhttp.rs:565-576 | In every run: once a number has arrived twice, no larger number that arrives only after that is ever delivered (packets 0, 0, 1: packet 1 never). |
| XhttpReorderLimits.EofHoldsNextIff | src/common/transport/xhttp.rs:577-579 | Exact condition: at the end of the stream the packet waited for is still held if and only if it was received and some number already delivered was received twice; with distinct numbers every held number is beyond it. |
| XhttpReorderLimits.EofLosesPacket | src/common/transport/xhttp.rs:545-606 | The run on which it fails, from a fresh stream: packets 0, 0, 1 and the end of stream, then two reads; eof is set, packet 1 is awaited and held. |
| XhttpReorderLimits.RunIsComplete | src/common/transport/xhttp.rs:586-602 | From the moment at which distinct non-empty packets 0..n-1 have arrived ahead of any end of stream, in every later state of every run all of them are delivered, held or certain to be taken off the channel. |
| XhttpReorderLimits.AllDelivered | src/common/transport/xhttp.rs:545-606 | In every run in which distinct non-empty packets 0..n-1 arrive ahead of any end of stream, as many later reads with room for a byte as these packets have bytes deliver all of them, whatever else arrives, is read or is closed in between. |
| XhttpReorderFull.EmptyReadIsEnd | src/common/transport/xhttp.rs:577-602 | In every run of non-empty items a read with room returns no bytes only at the end: the end of the stream has been sent, or the last sender is gone and the channel is empty. |
| XhttpReorderFull.ClosedRead | src/common/transport/xhttp.rs:580-602 | Once the last sender is gone a read never waits, and with room it takes something away or meets the end. |
| XhttpReorderFull.ClosedEnds | src/common/transport/xhttp.rs:580-602 | Once the last sender is gone, more reads with room than bytes and items are left tell the reader the end of the stream. |
| XhttpReorderFull.AllItemsDelivered | src/common/transport/xhttp.rs:545-606 | Packets and chunks in any mix: once distinct packets 0..n-1 and any chunks, none empty, have arrived ahead of any end of stream, as many later reads with room as they have bytes deliver all of them, the packets in order interleaved with the chunks in order, whatever else arrives, is read or is closed in between. |
| XhttpReorderFull.AllChunksDelivered | src/common/transport/xhttp.rs:586-594 | Stream uploads: as many reads with room as the chunks ahead of any end of stream have bytes deliver all of these bytes in order. |
| XhttpSessions.RunKeepsInv | src/common/transport/xhttp.rs:180-224 | The inductive invariant of the session table over every interleaving of GET, POST and TTL steps. |
| XhttpSessions.OneTaskPerEntry | src/common/transport/xhttp.rs:180-224 | A map entry has exactly one live TTL task, that of its own session instance, and every live task has its entry. |
| XhttpSessions.TaskRemovesOnlyItsOwn | src/common/transport/xhttp.rs:207-220 | A step takes an entry out of the map exactly when the TTL task of that very instance expires or cleans up; EOF goes to no other session. |
| XhttpSessions.OneStreamPerInstance | src/common/transport/xhttp.rs:340-364 | Receivers are given out at most once, so an instance makes at most one stream (that it makes one: XhttpSessionRuns.FirstGetIsServed); both receivers are always present or both absent. |
| XhttpSessions.TimesOutIffNoGet | src/common/transport/xhttp.rs:203-207 | A waiting TTL task can time out if and only if no GET has taken the receivers. |
| XhttpSessions.PostedReachesItsStream | src/common/transport/xhttp.rs:377-412 | A stream receives in order what was posted through its own instance: of each POST for its session id, one packet or the frames of a stream, exactly what it has sent and in its order; of a POST given another instance, nothing. |
| XhttpSessions.SessionInOrder | src/common/transport/xhttp.rs:335-412 | Session table and reordering stream together: in every interleaving of GET, POST and TTL steps and reads, packets POSTed for a session come out of its own stream in order of their numbers. |
| XhttpSessionRuns.TakeAnswered | src/common/transport/xhttp.rs:340-364 | In every run a GET that gets its session is refused if and only if an earlier GET has had the lock of the same instance; otherwise its stream can be handed on at once, and that appends exactly this instance to the streams. |
| XhttpSessionRuns.FirstGetIsServed | src/common/transport/xhttp.rs:336-364 | The first GET to get an instance has its stream in every later state, or can hand it on. |
| XhttpSessionRuns.SameSessionIff | src/common/transport/xhttp.rs:180-224 | Two requests for one session id are given the same session if and only if no TTL task has taken it out of the map in between. |
| XhttpSessionRuns.TaskHistory | src/common/transport/xhttp.rs:203-221 | In every state a TTL task has done exactly what its position says: timed out, removed its entry, locked its session and sent EOF, or been notified and cleaned up. |
| XhttpSessionRuns.TableIsReleased | src/common/transport/xhttp.rs:210-214 | A TTL task that holds the lock of the map lets it go within two steps of its own, both possible, with its entry removed and EOF sent to its own session unless nobody can receive it. |
| XhttpSessionRuns.TaskCanGoOn | src/common/transport/xhttp.rs:203-221 | No TTL task is stuck: with the map free each one can take the step that is due, the timeout if no GET came and the notification if one did. |
| XhttpSessionRuns.TimedOutIsEnded | src/common/transport/xhttp.rs:203-215 | A session whose task is over was sent EOF if it timed out and its receiver was there, and only if it timed out. |
| XhttpSessionRuns.RequestHistory | src/common/transport/xhttp.rs:335-437 | In every state each request has done exactly what its position says, and a POST has sent as often as it counts. |
| XhttpSessionRuns.PostIsSent | src/common/transport/xhttp.rs:377-437 | Unless the receiver was dropped, a POST that is over has put its whole body, in order, into the channel of the session it was given; before that its next item can be sent. |
| XhttpSessionRuns.RequestCanGoOn | src/common/transport/xhttp.rs:336-382 | A request that has found its session gets its lock, unless the session's own TTL task is about to end it. |
| XhttpSessionRuns.SessionDelivers | src/common/transport/xhttp.rs:335-606 | End to end: whatever GETs, POSTs and TTL tasks do, what was POSTed into a session ahead of any end of stream is delivered by as many reads of its stream as it has bytes, packets in order interleaved with chunks in order. |
| XhttpSessionRuns.ReaderIsToldTheEnd | src/common/transport/xhttp.rs:580-602 | After the last sender of a session is gone no read of its stream waits, and enough of them tell the reader the end. |
| XhttpSessionRuns.LastSenderGoes | src/common/transport/xhttp.rs:209-221 | With the TTL task and all requests of a session over, nobody holds a sender and the channel is closed. |
| XhttpSessionRuns.StreamCanBeRead | src/common/transport/xhttp.rs:545-606 | A stream that was not dropped can be read in every state with any room. |
| HysteriaVarint.WriteVarint | src/hysteria2/auth.rs:95-105 | The bytes appended are the encoding of the value, in all four widths. |
| HysteriaVarint.ReadVarint | src/hysteria2/auth.rs:85-93 | The accumulating loop reads the value and leaves exactly the bytes behind the encoding, or fails on a short stream. |
| HysteriaVarint.ReadVarintBytes | src/hysteria2/proxy.rs:114-124 | The datagram reader, which takes the two top bits for a count of extra bytes. |
| HysteriaVarint.WriteThenRead | src/hysteria2/auth.rs:85-105 | Every 64-bit value that is written reads back as its low 62 bits, consuming exactly the bytes written (section 16 of RFC 9000). |
| HysteriaVarint.VarintRoundTripIff | src/hysteria2/auth.rs:85-105 | Exact condition: a value comes back unchanged if and only if it is below 2^62, whatever follows. |
| HysteriaVarint.ShortRoundTripIff | src/hysteria2/proxy.rs:114-136 | Exact condition: the datagram reader agrees with the writer if and only if the value is below 16384. |
| WireLayouts.VarintLayout | src/hysteria2/auth.rs:95-105 | Widths 1, 2, 4 and 8 and the tag bits on top of the value. |
| HysteriaFrames.BuildSingleUdpFrame | src/hysteria2/proxy.rs:179-208 | The bytes of one frame. |
| HysteriaFrames.ParseFrame | src/hysteria2/proxy.rs:147-176 | The parser on any bytes, with all its error cases, is the parsing function. |
| HysteriaFrames.AddrTextSplits | src/hysteria2/proxy.rs:138-145 | The text of every IPv4 or IPv6 socket address splits at its last colon back into the bare address and the port. |
| HysteriaFrames.FrameRoundTrip | src/hysteria2/proxy.rs:147-208 | A built frame parses back to its fields, host and port included. |
| HysteriaFrames.BuiltFrameParsesIff | src/hysteria2/proxy.rs:147-208 | With any address text of up to 16383 bytes a built frame parses back to its fields if the text has 1 to 2048 bytes, is UTF-8 and ends in a port, and is rejected otherwise. |
| WireLayouts.HysteriaFrameLayout | src/hysteria2/proxy.rs:178-208 | Session, packet number, fragment number and count at their positions, high bytes first, then the address and the payload. |
| WireLayouts.HysteriaPieces | src/hysteria2/proxy.rs:215-241 | A payload of up to 1100 bytes is one piece; a longer one is cut into pieces of exactly 1100 bytes but the last. |
| WireLayouts.SplitsIff | src/hysteria2/proxy.rs:138-145 | A text splits into two halves if and only if they are what stands before and after its last colon. |
| WireLayouts.PortIff | src/hysteria2/proxy.rs:138-145 | A text is a port if and only if it is one or more decimal digits, perhaps behind a plus sign, whose value fits 16 bits. |
| HysteriaFrames.PiecesFit | src/hysteria2/proxy.rs:232-240 | A payload of at most 65507 bytes is cut into at most 60 pieces, so the counts fit in a byte, and the pieces join to it again. |
| HysteriaFrames.BuiltFrameParses | src/hysteria2/proxy.rs:215-241 | Frame i of a fragmented packet parses to piece i with the right numbers, host and port. |
| HysteriaReassembly.FragBuffer.Insert | src/hysteria2/proxy.rs:264-280 | In place: the first payload under an id is kept, every fragment counts, and on completion the fragments are joined in ascending order of id. |
| HysteriaReassembly.UdpRelay.RelayFrame | src/hysteria2/proxy.rs:342-374 | The fragment table and the packets sent after one frame, with their target text host:port and with the buffers as separate objects; the table invariant is kept. |
| HysteriaReassembly.TargetSplits | src/hysteria2/proxy.rs:348-366 | Although an IPv6 host has lost its brackets, the target text splits at its last colon into the host and port of every socket address. |
| HysteriaReassembly.RelayKeepsTable | src/hysteria2/proxy.rs:264-280 | For an arbitrary frame, duplicates included: every entry keeps 1 <= received < total and no more fragments than received, and the 8-bit counter does not overflow. |
| HysteriaReassembly.RunKeepsTable | src/hysteria2/proxy.rs:350-362 | The same after every sequence of frames, so an entry leaves the table in the step in which it completes. |
| HysteriaReassemblyProofs.AllReassembled | src/hysteria2/proxy.rs:342-374 | All fragments of any set of packets, once each, in any order and interleaving: every packet is sent exactly once and unchanged, with its host and port, and the table ends empty. |
| HysteriaReassemblyProofs.AllSent | src/hysteria2/proxy.rs:342-374 | What the socket is given then: each packet once, its payload whole, with its own host and port as the target text. |
| HysteriaReassemblyProofs.WireFrames | src/hysteria2/proxy.rs:215-241 | The frames of that theorem are what the built bytes parse to. |
| HysteriaDuplicates.RunWithDuplicates | src/hysteria2/proxy.rs:264-280 | After any frames of any packets, duplicates and interleavings included: the table holds for each packet what arrived since it was last emitted, and the output is one datagram for each time its number of fragments was reached. |
| HysteriaDuplicates.EmittedIff | src/hysteria2/proxy.rs:264-280 | Exact condition: an emitted datagram is the packet unchanged if and only if the frames counted for it are all its fragments; its address is right in any case. |
| HysteriaDuplicates.TableEmptyIff | src/hysteria2/proxy.rs:350-362 | Exact condition: the table ends empty if and only if every packet has had a multiple of its number of fragments, duplicates counted. |
| ShadowsocksAead.IncrementNonce | src/shadowsocks/protocol.rs:152-159 | The carry loop, in place on an array of any length. |
| ShadowsocksAead.AeadWriter.ResetSubkey | src/shadowsocks/protocol.rs:448-451 | A new subkey starts again at the zero nonce with no seals made. |
| ShadowsocksAead.AeadWriter.WriteHeaderChunk | src/shadowsocks/protocol.rs:454-464 | Appends one sealed length and one sealed payload under consecutive nonces. |
| ShadowsocksAead.AeadWriter.WriteData | src/shadowsocks/protocol.rs:466-481 | Appends the wire of the data cut at 0x3FFF bytes, two nonces a chunk. |
| ShadowsocksAead.AeadReader.FillBuf | src/shadowsocks/protocol.rs:358-378 | One chunk into the buffer, the clean end of the stream, or an error, exactly as specified, on any input. |
| ShadowsocksAead.AeadReader.ReadPlain | src/shadowsocks/protocol.rs:395-403 | One buffered read on any input. |
| ShadowsocksAead.AeadReader.ReadExactPlain | src/shadowsocks/protocol.rs:381-393 | The exact-length loop on any input. |
| ShadowsocksAead.AeadReader.ReadHeaderChunk | src/shadowsocks/protocol.rs:406-421 | One chunk returned past the buffer, or an error. |
| ShadowsocksProofs.IncrementIsSucc | src/shadowsocks/protocol.rs:151-159 | The increment is +1 modulo 256 to the number of bytes on the little-endian value. |
| ShadowsocksProofs.NonceRepeatsIff | src/shadowsocks/protocol.rs:448-481 | Two AEAD calls under one subkey share a nonce if and only if they are a multiple of 2^96 calls apart. |
| ShadowsocksProofs.SealsDistinctIff | src/shadowsocks/protocol.rs:448-481 | The nonces a writer has sealed with since its subkey was set are pairwise distinct if and only if there are at most 2^96. |
| ShadowsocksProofs.ChunkLockStep | src/shadowsocks/protocol.rs:358-378 | A chunk reads back and leaves the reader's nonce where the writer's is. |
| ShadowsocksProofs.HeaderRoundTripIff | src/shadowsocks/protocol.rs:454-457 | Exact condition: a header chunk survives if and only if it is shorter than 2^16 bytes. |
| ShadowsocksProofs.CallsTake | src/shadowsocks/protocol.rs:356-403 | On the wire of data, whatever headers and data follow it, or on any truncation of it: buffered and exact reads of any sizes, in any mix, return a prefix of the data; on the whole wire enough reads return all of it, and what a reader then gets is the later writes with its nonce in step. |
| ShadowsocksProofs.ReadsAreComplete | src/shadowsocks/protocol.rs:356-403 | On the whole wire of data enough reads of at least one byte return everything and use the wire up. |
| ShadowsocksProofs.WriteAppends | src/shadowsocks/protocol.rs:454-481 | The wire of a sequence of writes is built by appending each write under the nonces that follow those of the writes before it. |
| ShadowsocksProofs.ScriptReads | src/shadowsocks/protocol.rs:356-421 | For every sequence of header and data writes, every truncation of its wire and all read sizes: each header is read as written or the reading fails, and what is read of data is a prefix of it; on the whole wire enough reads return everything as written. Behind the last header the reads are free, as in the server. |
| WireLayouts.ShadowsocksChunkLayout | src/shadowsocks/protocol.rs:454-464 | A sealed length of two bytes, high byte first, then the sealed data, under consecutive nonces. |
| WireLayouts.ShadowsocksPieces | src/shadowsocks/protocol.rs:466-481 | Data are cut into chunks of exactly 16383 bytes but the last. |
| WireLayouts.ShadowsocksReadsIff | src/shadowsocks/protocol.rs:358-378 | The clean end is met exactly with fewer than 18 bytes left; a chunk is read exactly when both parts are there and open. |
| RealityDer.DecodeLengthAt | src/vless/tls/reality.rs:454-471 | The length decoder on any bytes, multi-byte forms and errors included. |
| RealityDer.DerVec.FixOuterSequenceLength | src/vless/tls/reality.rs:494-516 | In place: the outer length field rewritten, whatever its old and new width. |
| RealityDer.DerVec.ReplaceSignature | src/vless/tls/reality.rs:404-438 | In place on any bytes: success, error or slice panic exactly as specified; only success changes the vector. |
| RealityDerProofs.ReplacesSignature | src/vless/tls/reality.rs:404-438 | On every well-formed certificate the first two TLVs stay byte for byte and the third becomes the BIT STRING 00 and the signature (section 4.1 of RFC 5280). |
| RealityDerProofs.SignedIsValidIff | src/vless/tls/reality.rs:473-492 | Exact condition: the result is again made of whole TLVs under a readable outer length field, even when a width has changed, if and only if signature and leading zero byte are fewer than 2^24 bytes. |
| RealityDerProofs.SignatureReadsBackIff | src/vless/tls/reality.rs:454-492 | The new BIT STRING holds 00 and the signature; its length reads back if and only if it is below 2^24 (section 8.1.3 of X.690). |
| RealityDerProofs.OuterLengthFitsIff | src/vless/tls/reality.rs:494-516 | Exact condition: the outer length equals the bytes that follow if and only if they are fewer than 2^16. |
| RealityDerProofs.LastReplacementWinsIff | src/vless/tls/reality.rs:404-438 | Exact condition: a second replacement gives what it would have given on the original if and only if the first signature and its leading zero byte were fewer than 2^24 bytes. |
| RealityKeyShare.ParseX25519KeyShare | src/vless/tls/reality.rs:585-622 | The share scanner on arbitrary bytes: it terminates, stays in bounds and computes the specified key or failure. |
| RealityKeyShare.ExtractX25519FromKeyShare | src/vless/tls/reality.rs:545-583 | The extension scanner on arbitrary bytes, likewise. |
| RealityKeyShare.SharesScan | src/vless/tls/reality.rs:597-620 | On serialised shares: the first 32-byte x25519 share, else the last 32 bytes of the last long enough hybrid share, else what was known before. |
| RealityKeyShare.ExtractsOffered | src/vless/tls/reality.rs:545-622 | On every well-formed ClientHello with a 32-byte session id, whatever follows it, extraction returns the key its first key_share extension offers (sections 4.1.2 and 4.2.8 of RFC 8446). |
| WireLayouts.DerLengthIff | src/vless/tls/reality.rs:454-471 | Exactly which length fields are accepted, and the length each of them stands for. |
| WireLayouts.NewSignatureLayout | src/vless/tls/reality.rs:418-492 | The new signature: tag 3, the shortest length form of up to three bytes, a zero byte and the signature. |
| WireLayouts.OuterLengthLayout | src/vless/tls/reality.rs:494-516 | The outer length in one, two or three bytes, and nothing else changed. |
| WireLayouts.LeftAloneIff | src/vless/tls/reality.rs:404-438 | A certificate is left alone if and only if it is not a SEQUENCE, tag 0x30, whose third field is there and is a BIT STRING, tag 3. |
| WireLayouts.HelloLayout | src/vless/tls/reality.rs:545-583 | The fields of a ClientHello in front of its session id take 5, 4, 2 and 32 bytes and the length byte; with a 32-byte session id what follows is scanned. |
| WireLayouts.ExtensionLayout | src/vless/tls/reality.rs:570-583 | Extension 51 is the key_share one, any other is skipped. |
| WireLayouts.ShareLayout | src/vless/tls/reality.rs:597-617 | Group 29 with 32 bytes is the key; of group 4588, with at least 1120 bytes, the last 32 are kept. |
| AnytlsSession.ServerSession.HandleFrame | src/anytls/session.rs:178-273 | The match of the read loop, field by field. |
| AnytlsSession.ServerSession.Drain | src/anytls/session.rs:276-279 | At exit every stream still open gets the EOF marker, in whatever order the map yields them. |
| AnytlsSession.ServerSession.RunServerSession | src/anytls/session.rs:147-282 | The read loop on any bytes: channels, table, version and outgoing frames are those of the specified session over the parsed frames. |
| AnytlsSession.HandleKeepsInv | src/anytls/session.rs:178-273 | Every open channel is in the table under its own id and nothing else is; before settings there is none. |
| AnytlsReplies.AcceptsIff | src/anytls/session.rs:178-273 | The session is settled after the frames so far if and only if one of them was a settings frame, and goes on exactly as long as none is an alert or a SYN without settings before it. |
| AnytlsReplies.SessionAnswers | src/anytls/session.rs:178-273 | For every frame sequence everything the session sends, from the incoming frames alone: the padding scheme if the client's differs, server settings for version 2 and later, the one alert, a SYNACK for each accepted SYN, the heartbeat reply. |
| AnytlsReplies.SynacksSent | src/anytls/session.rs:231-235 | For every frame sequence the SYNACK frames sent are, in order, exactly one for each accepted SYN with its own id while the version is at least 2, and none below. |
| WireLayouts.AnytlsFrameLayout | src/anytls/session.rs:134-145 | A frame is its command, the stream id in four bytes, the length in two, high bytes first, and the data. |
| WireLayouts.AnytlsParsesIff | src/anytls/session.rs:154-176 | A frame is parsed if and only if these are the bytes, and what follows is left. |
| AnytlsStream.StreamGetsItsPayloads | src/anytls/session.rs:214-254 | Every accepted SYN opens a channel that receives, in order, exactly the PSH payloads for its id up to FIN, a second SYN or the end of the session, then EOF (no marker after a second SYN), whatever the other streams do; if its receiver is dropped, exactly a prefix of these. |
| AnytlsStream.NothingBeforeSettings | src/anytls/session.rs:214-219 | No stream exists before settings have arrived. |
| AnytlsStream.StreamConn.Read | src/anytls/session.rs:61-77 | One read, on any channel contents. |
| AnytlsStream.StreamConn.ReadExactFrom | src/anytls/session.rs:80-93 | The exact-length loop. |
| AnytlsStream.ExactIff | src/anytls/session.rs:80-93 | The exact-length read succeeds if and only if that many bytes are left before the end marker, and returns them, and takes no more. |
| AnytlsStream.CallsInOrder | src/anytls/session.rs:61-93 | Reads of any sizes and exact-length reads, in any mix, return the bytes left in order, up to the first exact read that fails; enough reads with non-empty buffers return all of them. |
| AnytlsStream.NeverBeyond | src/anytls/session.rs:61-93 | Even past end markers no series of calls returns a byte out of order or one that was not in the channel. |
| AnytlsStream.ReaderGetsPshData | src/anytls/session.rs:61-279 | From SYN to reader: in every session, any series of reads and exact reads on a stream returns a prefix of the PSH data for its own id up to FIN, a second SYN or the end; if its receiver is kept and no PSH frame is empty, enough non-empty reads return exactly that data. |
| AnytlsStream.NonEmptyPayloads | src/anytls/session.rs:70-75 | Without empty PSH frames a reader gets all payload bytes before it sees the end. |
| AnytlsStream.UptoIsAllIff | src/anytls/session.rs:70-75 | Exact condition: all bytes are read before the end if and only if nothing but empty items follows an empty one. |
| AnytlsStream.FrameRoundTripIff | src/anytls/session.rs:134-176 | Exact condition: a frame survives the writer task and the read loop if and only if its data has fewer than 2^16 bytes. |
| AnytlsStream.FramesRoundTrip | src/anytls/session.rs:134-176 | A sequence of such frames parses back to itself. |
| AnytlsStream.WrittenIsDelivered | src/anytls/session.rs:95-109 | What one end writes to a stream and then closes is what a session at the other end puts into its channel, in order, the end marker behind it. |
| TuicCodec.ToBytes | src/tuic/proto.rs:75-101 | The bytes of an address, all four forms. |
| TuicCodec.ReadAddress | src/tuic/proto.rs:23-72 | The address reader on any bytes, with its error cases. |
| TuicCodec.ParseCommandWithPrefix | src/tuic/connection.rs:647-704 | The stream parser on any bytes. |
| TuicCodec.ReadFromSync | src/tuic/proto.rs:158-206 | The datagram parser on any bytes. |
| TuicCodec.MakePacketHeader | src/tuic/proto.rs:263-279 | The bytes of a packet header. |
| TuicCodec.PacketPayload | src/tuic/connection.rs:394-403 | The payload that is found by encoding the parsed address again is exactly what the parser left. |
| TuicCodec.AddressRoundTripIff | src/tuic/proto.rs:23-101 | Exact condition: encoding then decoding an address is the identity if and only if a domain has at most 255 bytes. |
| TuicCodec.DecodeThenEncode | src/tuic/proto.rs:208-254 | Decoding then encoding is the identity on the bytes consumed. |
| TuicCodec.PayloadIsRest | src/tuic/connection.rs:394-401 | For every datagram that parses to a packet, header length recomputed by encoding is never beyond the datagram and marks the parser's rest. |
| TuicCodec.HeaderRoundTripIff | src/tuic/proto.rs:158-279 | Exact condition: the datagram parser inverts the header builder and leaves the payload if and only if a domain has at most 255 bytes. |
| TuicCodec.ParsersAgree | src/tuic/proto.rs:158-206 | Stream and datagram parsers agree on every input, except that a datagram cannot carry Connect. |
| WireLayouts.TuicAddressLayout | src/tuic/proto.rs:75-101 | Tags 0xff, 0, 1 and 2 and the bytes behind each of them. |
| WireLayouts.TuicParsesIff | src/tuic/connection.rs:647-704 | Exactly what the stream parser takes: version 5, commands 0 to 4, and the bytes each needs. |
| WireLayouts.TuicCommandLayout | src/tuic/connection.rs:647-704 | Each command by its number, field by field. |
| WireLayouts.TuicHeaderLayout | src/tuic/proto.rs:263-279 | The header of a reply: version 5, command 2, association, packet, one fragment, number 0, size, address. |
| WireLayouts.ValidIsText | src/tuic/proto.rs:36-37 | Every text that is accepted is the UTF-8 of some characters (section 4 of RFC 3629). |
| WireLayouts.TextIsValid | src/tuic/proto.rs:36-37 | The UTF-8 of any characters is accepted. |
| TuicConnection.RunKeepsInv | src/tuic/connection.rs:320-605 | The inductive invariant over every interleaving of authentication, gated tasks, packets, dissociation and replies. |
| TuicConnection.NothingBeforeAuth | src/tuic/connection.rs:351-571 | Before every TCP dial and every attempt to create a UDP session, whether it succeeds or not, some Authenticate command has shown a valid token. |
| TuicConnection.ModeIsFinal | src/tuic/connection.rs:499-515 | Once the first packet has set the UDP mode it never changes. |
| TuicConnection.RepliesUseFirstMode | src/tuic/connection.rs:582-605 | No UDP session exists while the mode is unset, and every reply uses the mode the first packet set (which one that is: RepliesFollowFirstPacket). |
| TuicConnection.NoWaiterSleepsForever | src/tuic/connection.rs:50-74 | Once a call of set has finished, no waiter is stuck: each can take its next step and is through the gate in at most two. |
| TuicConnection.FlagMeansUuid | src/tuic/connection.rs:50-54 | The flag is never true without the uuid being present. |
| TuicConnection.UuidWasShown | src/tuic/connection.rs:413-433 | The user a connection is authenticated as has shown a token that is valid for that very user. |
| TuicConnection.RepliesFollowFirstPacket | src/tuic/connection.rs:499-605 | In every run: if the first packet past the gate comes in a datagram every reply is a datagram, if it comes on a stream every reply is a stream, and no reply is sent before it. |
| TuicConnection.RepliesHaveFirstPacket | src/tuic/connection.rs:499-515 | A mode is set only by such a first packet. |
| TuicConnection.EveryReplyIsSent | src/tuic/connection.rs:582-606 | In every run exactly as many replies go out as tasks send one. |
| TuicConnection.RepliesCanBeSent | src/tuic/connection.rs:543-606 | A created session can start replies, and each that is started can be sent once. |
| TuicConnection.OnlyTimeEndsWaiting | src/tuic/connection.rs:361-370 | In every run a gated task is over only because its time limit passed or because it was let through. |
| TuicConnection.SessionsChangeIff | src/tuic/connection.rs:543-578 | In every run a session appears exactly by an unfragmented packet for it and goes exactly by a Dissociate. |
| TuicConnection.DialHappens | src/tuic/connection.rs:449-461 | Past the gate a Connect is dialled in its next step and connected in the one after. |
| TuicConnection.PacketIsHandled | src/tuic/connection.rs:499-571 | Past the gate an unfragmented packet has its session after three steps; a fragment is dropped. |
| TuicConnection.AuthCompletesIff | src/tuic/connection.rs:413-433 | An Authenticate command goes through in five steps and sets its user if its token is valid, and is rejected in its second and changes nothing else if it is not. |
| TuicConnection.SecondAuthIsRejected | src/tuic/connection.rs:413-417 | On an authenticated connection a second Authenticate command changes nothing. |

## Left out

- XhttpSessions.RunKeepsInv: the handlers and the TTL task are modelled on values, as a transition system of their atomic steps, and not as methods on shared objects; aliasing of the session behind its shared pointer is an index here.
- XhttpSessionRuns.FirstGetIsServed: a request that the HTTP library drops between two of its steps is not modelled, and the queue of finished streams, whose two ends the server itself holds, is never closed.
- XhttpSessionRuns.PostIsSent: the body of a POST is what its client has sent by the end or the first error, so a packet whose body breaks off, or whose number does not parse, is a POST with an empty body.
- XhttpReorderFull.AllItemsDelivered: packets and chunks are taken to be non-empty, because an empty read result means end of stream to the caller.
- TuicConnection.RunKeepsInv: the tasks of a connection are modelled on values in the same way; closing the connection after a failed authentication does not stop the other tasks here, so the theorems hold for more interleavings than the program has.
- XhttpReorder.XhttpStream.PollRead: `next_seq` is unbounded, so the overflow of the 64-bit number after 2^64 packets is not modelled.
- VmessChunks.SendChunk: the trace statement at src/vmess/mod.rs:468-474, which computes `count - 1` on the wrapped counter, is not modelled.
- VmessProofs.RelayRoundTripIff: that the loops fail with the authenticated length needs an AEAD whose ciphertexts do not open under another nonce, which the functional laws alone do not give.
- XhttpReorderLimits.AllDelivered: packets are taken to be non-empty, because an empty read result means end of stream to the caller.
- ShadowsocksAead.AeadWriter.WriteData: the salt in front of the stream, which the server writes in the clear, is not modelled.
- HysteriaFrames.AddrTextSplits: the text of an IP address is any non-empty text of at most 45 ASCII characters without square brackets; formatting and parsing of the digits of an address are not modelled.
- HysteriaReassembly.UdpRelay.RelayFrame: the result of sending on the UDP socket is ignored, as the code does apart from logging.
- TuicCodec.ReadAddress: `read_from` and `read_address_sync` do the same on an asynchronous and on a plain reader, and are one method here.
- AnytlsSession.ServerSession.HandleFrame: parsing of the settings text, the padding scheme and the wording of the alert are parameters; log output is not modelled.
- AnytlsStream.StreamConn.Read: a channel is given with everything that will ever be put into it, so waiting for more is not a step.
- Channel capacities and time limits are guards of steps at most; no progress claim is made for a task that waits on a full channel, such as the TTL task at src/common/transport/xhttp.rs:213.
- Sockets, TLS, QUIC, HTTP and WebSocket handshakes, accept loops and plain relaying belong to libraries.
- The internals of the ciphers, hashes, key derivations and x25519, and every secrecy claim.
- The VMess request and response headers, the Shadowsocks and Trojan and VLESS and SOCKS5 address headers: short straight-line parsing.
- The AnyTLS padding scheme and the masquerade pages: randomness and text.
- Hysteria2 congestion control: floating point and wall clock.
- WireGuard: its behaviour rests on a network stack that is not part of this model.
- Path and configuration handling: easy string work.
