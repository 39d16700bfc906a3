/**
 * The raw-socket test itself: the ROUTER in raw mode plays the wire protocol by
 * hand against a library DEALER, reading each chunk into one 255-byte buffer,
 * checking its bytes, and assembling its own READY in that buffer.
 */
module RawSock {
  import opened Wire
  import Greeting
  import Frame
  import opened Command
  import Handshake

  /** Socket-Type with a 6-letter type name such as DEALER is 22 bytes. */
  lemma SocketTypePropertyBytes(t: SocketType)
    ensures EncodeProperty(Property(SocketTypeKey, TypeName(t)))
         == Ok([11] + SocketTypeKey + [0, 0, 0, 6] + TypeName(t))
    ensures |EncodeProperty(Property(SocketTypeKey, TypeName(t))).value| == 22
  {
    var p := Property(SocketTypeKey, TypeName(t));
    assert |SocketTypeKey| == 11 && |TypeName(t)| == 6;
    assert BE32(6) == [0, 0, 0, 6];
    assert EncodeProperty(p) == Ok([|p.name|] + p.name + BE32(|p.value|) + p.value);
  }

  /** Identity with an empty value is 13 bytes. */
  lemma EmptyIdentityPropertyBytes()
    ensures EncodeProperty(Property(IdentityKey, [])) == Ok([8] + IdentityKey + [0, 0, 0, 0])
    ensures |EncodeProperty(Property(IdentityKey, [])).value| == 13
  {
    var q := Property(IdentityKey, []);
    assert |IdentityKey| == 8;
    assert BE32(0) == [0, 0, 0, 0];
    assert EncodeProperty(q) == Ok([|q.name|] + q.name + BE32(|q.value|) + q.value);
    assert [8] + IdentityKey + [0, 0, 0, 0] + [] == [8] + IdentityKey + [0, 0, 0, 0];
  }

  /** The Socket-Type property of a READY, as the test spells it. */
  function SocketTypeLiteral(t: SocketType): Bytes {
    [11] + SocketTypeKey + [0, 0, 0, 6] + TypeName(t)
  }

  /** The empty Identity property of a READY, as the test spells it. */
  const IdentityLiteral: Bytes := [8] + IdentityKey + [0, 0, 0, 0]

  /** The 45-byte READY frame the test expects from the DEALER and sends as the ROUTER. */
  function ReadyLiteral(t: SocketType): Bytes {
    [0, 43] + ReadyName + SocketTypeLiteral(t) + IdentityLiteral
  }

  /**
   * The READY frame with an empty identity: flags 0, size 43, "READY   ",
   * Socket-Type, Identity; 45 bytes in all, the size byte being the length less 2.
   */
  lemma ReadyFrameBytes(t: SocketType)
    ensures EncodeReady(ReadyProperties(t, [])) == Ok(ReadyLiteral(t))
    ensures |ReadyLiteral(t)| == 45 && ReadyLiteral(t)[1] == |ReadyLiteral(t)| - 2
  {
    SocketTypePropertyBytes(t);
    EmptyIdentityPropertyBytes();
    var p0 := SocketTypeLiteral(t);
    var p1 := IdentityLiteral;
    EncodeTwoProperties(Property(SocketTypeKey, TypeName(t)), Property(IdentityKey, []));
    assert EncodeProperties(ReadyProperties(t, [])) == Ok(p0 + p1);
    var body := ReadyName + (p0 + p1);
    assert |ReadyName| == 8 && |p0| == 22 && |p1| == 13;
    assert Frame.EncodeShort(body) == Ok([0, 43] + body);
    AppendAssoc(ReadyName, p0, p1);
    AppendAssoc([0, 43], ReadyName + p0, p1);
    AppendAssoc([0, 43], ReadyName, p0);
    assert [0, 43] + body == ReadyLiteral(t);
  }

  /** "Hello" */
  const Hello: Bytes := [0x48, 0x65, 0x6C, 0x6C, 0x6F]

  /** "World" */
  const World: Bytes := [0x57, 0x6F, 0x72, 0x6C, 0x64]

  /** Flags 0, size 5, "Hello": the frame the DEALER writes for `zmq_send (dealer, "Hello", 5, 0)`. */
  lemma HelloFrame()
    ensures Frame.EncodeShort(Hello) == Ok([0, 5] + Hello)
    ensures |[0, 5] + Hello| == 7 && HelloChunkOk([0, 5] + Hello)
  {
  }

  /** The router-built `00 05 W o r l d` decodes to the 5-byte payload "World". */
  lemma WorldFrame()
    ensures Frame.DecodeShort([0, 5] + World) == Ok(World)
    ensures |World| == 5
  {
    assert ([0, 5] + World)[2..] == World;
  }

  /**
   * The router's checks of the first chunk: exactly the 10 signature bytes,
   * which any 54 further bytes complete to a greeting the decoder accepts.
   */
  predicate SignatureChunkOk(c: Bytes): (ok: bool)
    ensures ok <==> c == Greeting.Signature
    ensures ok ==> forall rem :: |rem| == 54 ==> Greeting.Decode(c + rem).Ok?
  {
    |c| == 10 && c == Greeting.NullGreeting.signature
  }

  /**
   * The router's checks of the second chunk: 99 bytes, version 3.0, mechanism
   * "NULL" zero-padded to 20 bytes, as_server 0, and at offset 54 the DEALER's
   * READY: the frame header, Socket-Type DEALER and an empty Identity. The
   * three READY comparisons together cover the 45-byte READY literal.
   */
  predicate HandshakeChunkOk(c: Bytes): (ok: bool)
    ensures ok <==> && |c| == 99 && c[..2] == [3, 0] && c[2..22] == Greeting.NullMechanism && c[22] == 0
                    && c[54..] == ReadyLiteral(Dealer)
  {
    Greeting.NullGreetingRemainder();
    var header, socketType, identity := [0, 43] + ReadyName, SocketTypeLiteral(Dealer), IdentityLiteral;
    assert |header| == 10 && |socketType| == 22 && |identity| == 13;
    assert ReadyLiteral(Dealer) == header + socketType + identity;
    assert |c| == 99 && c[54..64] == header && c[64..86] == socketType && c[86..99] == identity
       ==> c[54..] == header + socketType + identity
      by {
        if |c| == 99 && c[54..64] == header && c[64..86] == socketType && c[86..99] == identity {
          ThreePieces(c, 54, header, socketType, identity);
        }
      }
    && |c| == 99
    && c[0] == 3 && c[1] == 0
    && c[2..22] == Greeting.NullName + Zeros(16) && c[22] == 0
    && c[54..64] == header
    && c[64..86] == socketType
    && c[86..99] == identity
  }

  /** The router's checks of the third chunk: flags 0, size 5, "Hello"; that is, the short frame of "Hello". */
  predicate HelloChunkOk(c: Bytes): (ok: bool)
    ensures ok <==> Frame.DecodeShort(c) == Ok(Hello)
  {
    assert |c| == 7 ==> c[2..] == c[2..7];
    |c| == 7 && c[0] == 0 && c[1] == 5 && c[2..7] == Hello
  }

  /**
   * A second chunk that passes the router's checks is a 3.0 NULL greeting
   * remainder with as_server 0, followed by a READY that decodes to
   * Socket-Type DEALER and an empty Identity.
   */
  lemma HandshakeCheckMeansReady(c: Bytes)
    requires HandshakeChunkOk(c)
    ensures Greeting.Decode(Greeting.Signature + c[..54]).Ok?
    ensures var g := Greeting.Decode(Greeting.Signature + c[..54]).value;
            g.version == [3, 0] && g.mechanism == Greeting.NullMechanism && g.asServer == 0
    ensures DecodeReady(c[54..]) == Ok(ReadyProperties(Dealer, []))
  {
    var rem := c[..54];
    Greeting.DecodeAfterSignature(rem);
    assert rem[..2] == c[..2] && rem[2..22] == c[2..22] && rem[22] == c[22];
    ReadyFrameBytes(Dealer);
    ReadyRoundTrip(ReadyProperties(Dealer, []), c[54..]);
  }

  /** `memcpy (buffer + offset, src, |src|)`. */
  method CopyInto(buffer: array<Byte>, offset: nat, src: Bytes)
    requires offset + |src| <= buffer.Length
    modifies buffer
    ensures buffer[offset..offset + |src|] == src
    ensures buffer[..offset] == old(buffer[..offset])
    ensures buffer[offset + |src|..] == old(buffer[offset + |src|..])
  {
    forall i | 0 <= i < |src| {
      buffer[offset + i] := src[i];
    }
  }

  /**
   * `zmq_recv (router, buffer, 255, 0)`: copies as much of the chunk as fits and
   * returns the chunk's full size.
   */
  method Recv(buffer: array<Byte>, chunk: Bytes) returns (rc: int)
    modifies buffer
    ensures rc == |chunk|
    ensures |chunk| <= buffer.Length ==> buffer[..|chunk|] == chunk && buffer[|chunk|..] == old(buffer[|chunk|..])
    ensures |chunk| > buffer.Length ==> buffer[..] == chunk[..buffer.Length]
  {
    var n := if |chunk| < buffer.Length then |chunk| else buffer.Length;
    CopyInto(buffer, 0, chunk[..n]);
    rc := |chunk|;
  }

  /** Four `memcpy` calls that lay the pieces of a frame one after another from the start of the buffer. */
  method CopyPieces(buffer: array<Byte>, header: Bytes, name: Bytes, first: Bytes, second: Bytes)
    requires |header| + |name| + |first| + |second| <= buffer.Length
    modifies buffer
    ensures buffer[..|header| + |name| + |first| + |second|] == header + name + first + second
    ensures buffer[|header| + |name| + |first| + |second|..]
         == old(buffer[|header| + |name| + |first| + |second|..])
  {
    var i, j, k := |header|, |header| + |name|, |header| + |name| + |first|;
    var n := k + |second|;
    CopyInto(buffer, 0, header);
    assert buffer[n..] == buffer[i..][n - i..];
    CopyInto(buffer, i, name);
    assert buffer[..j] == buffer[..i] + buffer[i..j];
    assert buffer[n..] == buffer[j..][n - j..];
    CopyInto(buffer, j, first);
    assert buffer[..k] == buffer[..j] + buffer[j..k];
    assert buffer[n..] == buffer[k..][n - k..];
    CopyInto(buffer, k, second);
    assert buffer[..n] == buffer[..k] + buffer[k..n];
  }

  /** The four `memcpy` calls that build the ROUTER's READY in the first 45 bytes of the buffer. */
  method AnnounceReady(buffer: array<Byte>)
    requires buffer.Length >= 45
    modifies buffer
    ensures buffer[..45] == ReadyLiteral(Router)
    ensures EncodeReady(ReadyProperties(Router, [])) == Ok(buffer[..45])
    ensures buffer[45..] == old(buffer[45..])
  {
    ReadyFrameBytes(Router);
    CopyPieces(buffer, [0, 43], ReadyName, SocketTypeLiteral(Router), IdentityLiteral);
  }

  /** The DEALER's second write, with an empty identity: the greeting remainder, then its READY. */
  lemma DealerTail()
    ensures Handshake.GreetingTail(Dealer, []) == Ok(DealerTailBytes())
  {
    ReadyFrameBytes(Dealer);
  }

  /** That second write passes every check the router makes of the second chunk. */
  lemma DealerTailPassesChecks()
    ensures HandshakeChunkOk(DealerTailBytes())
  {
    var rem := Greeting.Remainder(Greeting.NullGreeting);
    var c := rem + ReadyLiteral(Dealer);
    Greeting.NullGreetingRemainder();
    ReadyFrameBytes(Dealer);
    assert c[..2] == rem[..2] && c[2..22] == rem[2..22] && c[22] == rem[22];
    assert c[54..] == ReadyLiteral(Dealer);
  }

  /** The DEALER's second write, as the router receives it. */
  function DealerTailBytes(): Bytes {
    Greeting.Remainder(Greeting.NullGreeting) + ReadyLiteral(Dealer)
  }

  /** The DEALER after connecting and queueing "Hello": the signature is on the wire, the message waits. */
  lemma DealerStarts()
    ensures var s := Handshake.Step(Handshake.Step(Handshake.Open(Dealer, []), Handshake.Connect), Handshake.Send(Hello));
            && Handshake.Inv(s) && s.tail == Ok(DealerTailBytes())
            && s.phase == Handshake.SignatureSent && s.out == [Greeting.Signature] && s.pending == [Hello]
  {
    DealerTail();
  }

  /** The router's greeting makes the DEALER write its greeting remainder and READY. */
  lemma DealerAnswersGreeting(s: Handshake.Session)
    requires Handshake.Inv(s) && s.tail == Ok(DealerTailBytes())
    requires s.phase == Handshake.SignatureSent && s.out == [Greeting.Signature]
    ensures var r := Handshake.Step(s, Handshake.Receive(Greeting.Encode(Greeting.NullGreeting)));
            && r.phase == Handshake.ReadySent && r.pending == s.pending
            && r.out == [Greeting.Signature, DealerTailBytes()]
  {
    Greeting.NullGreetingRemainder();
    Greeting.GreetingRoundTrip(Greeting.NullGreeting, Greeting.Encode(Greeting.NullGreeting));
  }

  /** The router's READY ends the handshake and puts the queued "Hello" on the wire, after the handshake. */
  lemma DealerFlushesOnReady(s: Handshake.Session, ready: Bytes)
    requires Handshake.Inv(s) && s.phase == Handshake.ReadySent && s.pending == [Hello]
    requires DecodeReady(ready).Ok?
    ensures var r := Handshake.Step(s, Handshake.Receive(ready));
            && r.phase == Handshake.Established && r.delivered == []
            && |r.out| == 3 && r.out[0] == s.out[0] && r.out[1] == s.out[1] && r.out[2] == [0, 5] + Hello
  {
    HelloFrame();
    assert Handshake.Frames([Hello]) == [[0, 5] + Hello];
  }

  /** A data frame from the router hands its payload to the DEALER's application. */
  lemma DealerDelivers(s: Handshake.Session)
    requires Handshake.Inv(s) && s.phase == Handshake.Established && s.delivered == []
    ensures var r := Handshake.Step(s, Handshake.Receive([0, 5] + World));
            r.out == s.out && r.delivered == [World]
  {
    WorldFrame();
  }

  /**
   * The test's `main` from the router's side, with the DEALER played by the
   * handshake model: the chunks the router reads pass each of its checks, and
   * the DEALER's application receives "World".
   */
  method RawSockExchange() returns (wire: seq<Bytes>, reply: Bytes)
    ensures |wire| == 3
    ensures SignatureChunkOk(wire[0]) && HandshakeChunkOk(wire[1]) && HelloChunkOk(wire[2])
    ensures reply == World
  {
    var identity: Bytes := [];
    var dealer := Handshake.Open(Dealer, identity);
    dealer := Handshake.Step(dealer, Handshake.Connect);
    dealer := Handshake.Step(dealer, Handshake.Send(Hello));
    assert Handshake.Inv(dealer) && dealer.tail == Ok(DealerTailBytes())
        && dealer.phase == Handshake.SignatureSent && dealer.out == [Greeting.Signature] && dealer.pending == [Hello]
      by { DealerStarts(); }

    // The DEALER's first chunk: the signature.
    var buffer := new Byte[255];
    var signature := dealer.out[0];
    var rc := Recv(buffer, signature);
    assert rc == 10 && buffer[..10] == Greeting.NullGreeting.signature;

    // The router's own greeting; the DEALER answers with the rest of its greeting and READY.
    Greeting.NullGreetingRemainder();
    var greeting := Greeting.Encode(Greeting.NullGreeting);
    DealerAnswersGreeting(dealer);
    dealer := Handshake.Step(dealer, Handshake.Receive(greeting));
    var tail := dealer.out[1];
    DealerTailPassesChecks();
    assert HandshakeChunkOk(tail);
    rc := Recv(buffer, tail);
    assert rc == 99 && HandshakeChunkOk(buffer[..99]);

    // The router announces READY from the buffer; the DEALER now writes the queued "Hello".
    AnnounceReady(buffer);
    var ready := buffer[..45];
    ReadyRoundTrip(ReadyProperties(Router, []), ready);
    DealerFlushesOnReady(dealer, ready);
    dealer := Handshake.Step(dealer, Handshake.Receive(ready));
    var hello := dealer.out[2];
    HelloFrame();
    rc := Recv(buffer, hello);
    assert rc == 7 && HelloChunkOk(buffer[..7]);

    // "World" goes back and reaches the DEALER's application.
    var world := [0, 5] + World;
    DealerDelivers(dealer);
    dealer := Handshake.Step(dealer, Handshake.Receive(world));
    wire := dealer.out;
    reply := dealer.delivered[0];
    assert wire[0] == signature && wire[1] == tail && wire[2] == hello;
  }
}
