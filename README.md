# ZMTP/3.0 raw-socket handshake, modelled in Dafny

libzmq's `tests/test_raw_sock.cpp` sets up a ROUTER socket in raw mode and drives the
ZMTP/3.0 protocol by hand against an ordinary DEALER socket. The router reads each chunk
the DEALER writes into one 255-byte buffer and checks it byte by byte. It sends its own
greeting, assembles its own READY command in the buffer with `memcpy`, answers the
DEALER's "Hello" with a hand-built "World" frame, and finally checks that the DEALER's
application received "World".

The file pins down four things, and this project models and proves each of them:

- the 64-byte greeting (`zmtp_greeting_t`, module `Greeting`): signature 10, version 2,
  mechanism 20, as_server 1, filler 31;
- the short data frame (module `Frame`): a flags byte (0), a one-byte size, the payload;
- the READY command in the draft layout the file uses (module `Command`).
  It is a short frame whose payload is `"READY   "` (space-padded to 8 bytes) followed by
  properties. Each property is a one-byte name length, the name, a four-byte big-endian
  value length and the value;
- the ordering of the handshake, seen from the library-side peer (module `Handshake`).
  The signature goes first, on connecting. The rest of the greeting and READY go out once
  the peer's greeting has arrived. Messages the application queued go out only after the
  peer's READY, each as its own frame, in order.

Module `Wire` holds bytes (`Byte` is the file's `unsigned char`), errors, zero padding and
four-byte big-endian numbers. Module `RawSock` holds:

- the test's own byte literals;
- the router's checks of each chunk, with lemmas saying what passing them means;
- the buffer operations as methods on an `array<Byte>`: `memcpy` and `zmq_recv` truncating
  to the buffer;
- `RawSockExchange`, which runs `main`'s sequence of chunks against the handshake model.

Text constants are byte displays with the text in a comment. For example, `ReadyName` is
`52 45 41 44 59 20 20 20`, that is, "READY   ".

## Model

| member | source | states |
|---|---|---|
| Wire.ZeroFill | tests/test_raw_sock.cpp:43-44 | an initializer shorter than the array keeps its listed bytes and zeroes the rest, for exactly the array's length |
| Wire.BE32 | tests/test_raw_sock.cpp:116-117 | a value length below 2^32 becomes four bytes that read back, big-endian, as that length |
| Wire.FromBE32 | tests/test_raw_sock.cpp:116-117 | four length bytes read big-endian give a number below 2^32 |
| Wire.FromBE32RoundTrip | tests/test_raw_sock.cpp:116-117 | any four length bytes are the encoding of the number they are read as |
| Greeting.Remainder | tests/test_raw_sock.cpp:104-114 | the 54 bytes after the signature have version at 0-1, mechanism at 2-21, as_server at 22 and filler at 23-53 |
| Greeting.Encode | tests/test_raw_sock.cpp:29-35 | a greeting is exactly 64 = 10 + 2 + 20 + 1 + 31 bytes, each field at its struct offset with no padding |
| Greeting.Decode | tests/test_raw_sock.cpp:88-90 | accepts exactly the 64-byte inputs that start with the signature; otherwise WrongLength or MalformedSignature; an accepted greeting is well-formed |
| Greeting.GreetingRoundTrip | tests/test_raw_sock.cpp:29-35 | decoding gives g exactly when g is well-formed, carries the signature and encodes to the bytes (both directions) |
| Greeting.DecodeAfterSignature | tests/test_raw_sock.cpp:104-111 | the signature followed by any 54 bytes decodes field by field from those bytes |
| Greeting.NullGreetingBytes | tests/test_raw_sock.cpp:43-44 | the test's greeting is FF 00x7 01 7F, 03 00, "NULL" and 16 zeros, as_server 0, 31 zeros |
| Greeting.NullGreetingRemainder | tests/test_raw_sock.cpp:109-114 | after the signature: version 03 00, then "NULL" zero-padded to 20 bytes, then as_server 0 |
| Greeting.LegacyLengthIsConstant | tests/test_raw_sock.cpp:40-44 | bytes 1-8 of every greeting that is written or accepted are 00x7 01, whatever its other fields |
| Frame.EncodeShort | tests/test_raw_sock.cpp:138-144 | a payload under 255 bytes becomes flags 0, size byte equal to the length less 2, then the payload; a longer one is PayloadTooLong |
| Frame.DecodeShort | tests/test_raw_sock.cpp:149-156 | accepts exactly the frames with flags 0, size under 255 and size equal to the bytes present, and yields the bytes after the header |
| Frame.ShortRoundTrip | tests/test_raw_sock.cpp:142-156 | decoding b gives p exactly when encoding p gives b (both directions) |
| Command.EncodeProperty | tests/test_raw_sock.cpp:116-117 | succeeds exactly when the name fits one length byte and the value four, with NameTooLong or ValueTooLong otherwise, and is 5 + name + value bytes long |
| Command.PropertyLayout | tests/test_raw_sock.cpp:116-117 | an encoded property is name length, name, value length (read back big-endian) and value, at those offsets |
| Command.EncodeProperties | tests/test_raw_sock.cpp:115-117 | a property list encodes exactly when every property does, into WireSize bytes |
| Command.DecodeProperties | tests/test_raw_sock.cpp:115-117 | every list read consists of encodable properties whose wire size is the input's length; any failure is TruncatedProperty |
| Command.DecodePropertiesStep | tests/test_raw_sock.cpp:115-117 | the decoder takes the first property as its two length fields delimit it, then decodes the rest |
| Command.EncodeOfLayout | tests/test_raw_sock.cpp:116-117 | bytes laid out as one property re-encode to themselves |
| Command.DecodeFirstProperty | tests/test_raw_sock.cpp:115-117 | decoding an encoded property followed by more bytes yields that property, then whatever the rest decodes to |
| Command.DecodedFirstProperty | tests/test_raw_sock.cpp:115-117 | bytes that decode start with the encoding of the first property read, and the rest decodes to the remaining properties |
| Command.DecodeOfEncoded | tests/test_raw_sock.cpp:115-117 | every encodable property list decodes back from its encoding |
| Command.EncodeOfDecoded | tests/test_raw_sock.cpp:115-117 | every byte string that decodes is the encoding of what it decodes to |
| Command.EncodeTwoProperties | tests/test_raw_sock.cpp:116-117 | two properties are laid out one after the other |
| Command.PropertiesRoundTrip | tests/test_raw_sock.cpp:115-117 | decoding b gives ps exactly when encoding ps gives b (both directions) |
| Command.EncodeReady | tests/test_raw_sock.cpp:120-123 | READY encodes exactly when its properties do and fit a short frame; the size byte is the length less 2 and bytes 2-9 are "READY   " |
| Command.DecodeReady | tests/test_raw_sock.cpp:115-117 | a decoded READY frame carries "READY   " at bytes 2-9; a short frame with any other name is UnexpectedCommand |
| Command.ReadyRoundTrip | tests/test_raw_sock.cpp:115-123 | decoding a frame gives ps exactly when encoding ps gives that frame (both directions) |
| Handshake.Open | tests/test_raw_sock.cpp:67-72 | a new session of the given socket type and identity is Idle, satisfies the invariant, has written, delivered, queued and recorded nothing, and holds its greeting tail |
| Handshake.GreetingTail | tests/test_raw_sock.cpp:104-117 | the second write exists exactly when the identity is under 212 bytes, so that READY fits a short frame; it is the 54-byte 3.0 NULL greeting remainder followed by a READY that decodes to the session's socket type and identity |
| Handshake.Frames | tests/test_raw_sock.cpp:138-144 | one short frame per queued message, each decoding to its message, in order |
| Handshake.OnSend | tests/test_raw_sock.cpp:75-76 | a message of 255 bytes or more changes nothing; a shorter one is written as one frame that decodes to it once the handshake is over, and queued otherwise; deliveries and the peer's properties are unchanged, the invariant holds and earlier output is kept |
| Handshake.OnGreeting | tests/test_raw_sock.cpp:92-107 | the session reaches ReadySent, writing the greeting tail after the signature, exactly when the peer's greeting is valid and the tail exists; a malformed greeting fails with the decoder's error, a missing tail with the encoder's, and neither writes anything; deliveries and the peer's properties are unchanged |
| Handshake.OnReady | tests/test_raw_sock.cpp:126-144 | the peer's READY establishes the session, records the peer's properties and writes the queued messages as frames, in order; anything else fails with the decoder's error; nothing is delivered either way |
| Handshake.OnData | tests/test_raw_sock.cpp:146-156 | a valid data frame from the peer delivers its payload after those already delivered and writes, queues and records nothing else; a malformed one fails the session with the decoder's error |
| Handshake.Step | tests/test_raw_sock.cpp:72-156 | connecting an Idle session writes the signature alone and moves to SignatureSent, and connecting again changes nothing; a chunk before connecting fails with UnexpectedChunk; every step keeps the invariant and only adds output; failure is final and writes nothing; Established is reached only from ReadySent by a valid READY |
| Handshake.RunFrom | tests/test_raw_sock.cpp:72-156 | a sequence of events keeps the invariant and only extends the wire output and the deliveries |
| Handshake.Run | tests/test_raw_sock.cpp:72-156 | a fresh session keeps the invariant over any events, with the greeting tail fixed when it was opened |
| Handshake.PayloadsAppend | tests/test_raw_sock.cpp:138-144 | the payloads of two runs of frames are those of the first, then those of the second |
| Handshake.PayloadsOfFrames | tests/test_raw_sock.cpp:138-144 | framing queued messages and reading the frames back gives the messages |
| Handshake.SendKeepsMessages | tests/test_raw_sock.cpp:75-76 | a send adds exactly its message (if short enough) to the messages held, at the end |
| Handshake.ReadyKeepsMessages | tests/test_raw_sock.cpp:126-144 | flushing the queue on READY neither loses nor reorders a message |
| Handshake.StepKeepsMessages | tests/test_raw_sock.cpp:75-144 | a step that does not fail changes the messages held only by appending an accepted send |
| Handshake.NothingLostOrReordered | tests/test_raw_sock.cpp:75-144 | while no failure occurs, the messages on the wire and in the queue are the earlier ones followed by the accepted sends, in order |
| Handshake.DataOnlyAfterReady | tests/test_raw_sock.cpp:119-144 | a data frame is written, or a payload delivered, only if a READY was received among the events |
| Handshake.TailOnlyAfterGreeting | tests/test_raw_sock.cpp:86-107 | the greeting tail with READY is written only if a greeting was received among the events |
| Handshake.RunOrdering | tests/test_raw_sock.cpp:72-144 | from a fresh session: signature first, greeting tail second and only after a greeting, data only after a READY, and no message lost or reordered |
| Handshake.StepKeepsReceived | tests/test_raw_sock.cpp:86-156 | each event keeps the match between the phase and the chunks received: none before the greeting, the greeting in ReadySent, then READY and data frames whose payloads are the deliveries |
| Handshake.DeliveredAfterReady | tests/test_raw_sock.cpp:146-156 | over any events, a fresh session that has not failed has received the greeting, then the READY whose properties it recorded, and has delivered exactly the payloads of the data chunks after it, in order |
| RawSock.SocketTypePropertyBytes | tests/test_raw_sock.cpp:116 | Socket-Type with a six-letter type name is 0B "Socket-Type" 00 00 00 06 and the name, 22 bytes |
| RawSock.EmptyIdentityPropertyBytes | tests/test_raw_sock.cpp:117 | an empty Identity is 08 "Identity" 00 00 00 00, 13 bytes |
| RawSock.ReadyFrameBytes | tests/test_raw_sock.cpp:120-129 | READY with Socket-Type and an empty Identity is exactly the 45-byte literal, size byte 43 = length less 2 |
| RawSock.HelloFrame | tests/test_raw_sock.cpp:138-144 | "Hello" is framed as 00 05 "Hello", 7 bytes, and that frame passes the router's third-chunk checks |
| RawSock.WorldFrame | tests/test_raw_sock.cpp:149-156 | 00 05 "World" decodes to the 5-byte payload "World" |
| RawSock.SignatureChunkOk | tests/test_raw_sock.cpp:86-90 | the first chunk passes exactly when it is the 10-byte signature, and any 54 further bytes then make a greeting the decoder accepts |
| RawSock.HandshakeChunkOk | tests/test_raw_sock.cpp:104-117 | the second chunk passes exactly when it is 99 bytes of version 3.0, the zero-padded NULL mechanism and as_server 0, with any filler, then from offset 54 the DEALER's 45-byte READY literal |
| RawSock.HelloChunkOk | tests/test_raw_sock.cpp:137-144 | the third chunk passes exactly when it is the short frame of "Hello" (both directions) |
| RawSock.HandshakeCheckMeansReady | tests/test_raw_sock.cpp:104-117 | a second chunk that passes the checks completes the signature to a version 3.0, NULL, as_server 0 greeting, and from offset 54 carries a READY that decodes to Socket-Type DEALER and an empty Identity |
| RawSock.CopyInto | tests/test_raw_sock.cpp:120-123 | `memcpy` puts the source bytes at the offset and leaves the buffer before and after them unchanged |
| RawSock.Recv | tests/test_raw_sock.cpp:106-107 | `zmq_recv` returns the chunk's size and copies as much of the chunk as fits, leaving the rest of the buffer unchanged |
| RawSock.CopyPieces | tests/test_raw_sock.cpp:120-123 | four consecutive `memcpy` calls leave their four pieces, concatenated, at the start of the buffer and nothing after them changed |
| RawSock.AnnounceReady | tests/test_raw_sock.cpp:119-129 | the first 45 bytes of the buffer become the router's READY, which is the encoding of Socket-Type ROUTER with an empty Identity |
| RawSock.DealerTail | tests/test_raw_sock.cpp:104-117 | the DEALER's second write is the NULL greeting remainder followed by its 45-byte READY |
| RawSock.DealerTailPassesChecks | tests/test_raw_sock.cpp:106-117 | that second write passes every check the router makes of the second chunk |
| RawSock.DealerStarts | tests/test_raw_sock.cpp:72-90 | after connecting and sending "Hello", the DEALER has written only the signature and holds "Hello" |
| RawSock.DealerAnswersGreeting | tests/test_raw_sock.cpp:92-107 | the router's greeting makes the DEALER write the greeting remainder with READY as its second chunk |
| RawSock.DealerFlushesOnReady | tests/test_raw_sock.cpp:126-144 | the router's READY completes the handshake and puts 00 05 "Hello" on the wire as the third chunk |
| RawSock.DealerDelivers | tests/test_raw_sock.cpp:146-156 | the router's "World" frame reaches the DEALER's application as "World" and writes nothing |
| RawSock.RawSockExchange | tests/test_raw_sock.cpp:86-156 | in `main`'s order, the three chunks the router reads pass its signature, handshake and Hello checks, and the DEALER's application receives "World" |

## Left out

- Context and socket creation, options (ROUTER_RAW, LINGER), bind, connect over TCP, and close/terminate are library calls whose code is not part of this model. They become the `Connect` event and chunks passed from one side to the other.
- The ROUTER's identity frames concern socket-pattern routing, not the wire bytes. That covers the receives and their `zmq_msg_more` checks (lines 78-84, 100-102, 133-135) and the identity sends before each router write (lines 93-94, 126-127, 147-148).
- Background I/O threads, timing and TCP segmentation: the model exchanges whole chunks in the order the file reads them.
- Long (8-byte size) frames, the MORE bit, command flags and length-prefixed command names, a maximum message size and decoding from a partial buffer: nothing in the file writes or checks them.
- The `memcmp` at line 114 compares 22 bytes against a literal that holds only 21 (an out-of-bounds read). The model checks the evidently intended 20-byte mechanism followed by as_server 0.
- The struct comment at line 30 says the signature is FF, eight zeros and 7F. The initializer at line 44 puts 01 at offset 8, and lines 40-41 explain why. The model follows the initializer.
- The final ZMTP/3.0 command layout (a command flag and a length-prefixed name) differs from what the file sends. The model follows the file's draft layout: flags 0 and an 8-byte space-padded name.
- Greeting.Decode, Handshake.OnGreeting: the peer's greeting is accepted on its signature alone. Its version, mechanism and as_server are not checked, so an unsupported version or mechanism is not refused, because no code that would check them is part of this model.
- Handshake.GreetingTail: an identity of 212 bytes or more gives an error, because the READY would need the long frame form, so `OnGreeting` fails the session there instead of sending a long-frame READY.
- Handshake.OnReady: a peer READY without a Socket-Type property is accepted. ZMTP/3.0 treats a missing Socket-Type as a protocol error (a missing required property), but the READY the file sends always carries one, and no code that checks properties is part of this model.
- Handshake.OnSend: a message of 255 bytes or more is dropped rather than sent in the long frame form, which is out of scope above.
- Recv: it models only the copy into the buffer and the return value; blocking and the socket's receive queue are left out.
