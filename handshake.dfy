/**
 * The library-side peer of the raw-socket test (the DEALER) as a state machine
 * over whole chunks: it writes the greeting signature on connecting, the rest of
 * the greeting together with its READY command once the peer's greeting has
 * arrived, and the messages the application queued earlier only once the peer's
 * READY has arrived.
 */
module Handshake {
  import opened Wire
  import Greeting
  import Frame
  import opened Command

  datatype Phase = Idle | SignatureSent | ReadySent | Established | Failed(error: Error)

  datatype Event =
    | Connect               // the transport connected
    | Send(message: Bytes)  // the application sends a one-part message
    | Receive(chunk: Bytes) // one chunk arrives from the peer

  datatype Session = Session(
    socketType: SocketType,
    identity: Bytes,
    tail: Result<Bytes>,    // the second write, GreetingTail(socketType, identity), prepared when opened
    phase: Phase,
    pending: seq<Bytes>,    // messages sent by the application before the handshake completed
    out: seq<Bytes>,        // chunks written to the wire, oldest first
    delivered: seq<Bytes>,  // payloads handed to the application, oldest first
    peer: seq<Property>)    // the properties of the peer's READY

  /** A new session: nothing written, delivered or queued, and the second write prepared. */
  function Open(t: SocketType, identity: Bytes): (r: Session)
    ensures Inv(r) && BeforeData(r) && r.out == [] && Sent(r) == []
    ensures r.tail == GreetingTail(t, identity)
    ensures r.phase == Idle && r.socketType == t && r.identity == identity
    ensures r.pending == [] && r.delivered == [] && r.peer == []
  {
    Session(t, identity, GreetingTail(t, identity), Idle, [], [], [], [])
  }

  /**
   * The second write of the handshake: the greeting after its signature, then
   * READY. It exists exactly when the READY fits a short frame: 8 bytes of name,
   * 22 of Socket-Type and 13 + |identity| of Identity make fewer than 255.
   */
  function GreetingTail(t: SocketType, identity: Bytes): (r: Result<Bytes>)
    ensures r.Ok? <==> |identity| < 212
    ensures r.Ok? ==> |r.value| > 54 && r.value[..54] == Greeting.Remainder(Greeting.NullGreeting)
    ensures r.Ok? ==> Command.DecodeReady(r.value[54..]) == Ok(ReadyProperties(t, identity))
  {
    var ps := ReadyProperties(t, identity);
    assert |SocketTypeKey| == 11 && |TypeName(t)| == 6 && |IdentityKey| == 8;
    assert WireSize(ps[1..][1..]) == 0;
    assert WireSize(ps[1..]) == 13 + |identity|;
    assert WireSize(ps) == 35 + |identity|;
    match EncodeReady(ReadyProperties(t, identity))
    case Err(e) => Err(e)
    case Ok(frame) =>
      var tail := Greeting.Remainder(Greeting.NullGreeting) + frame;
      assert tail[54..] == frame;
      ReadyRoundTrip(ReadyProperties(t, identity), frame);
      Ok(tail)
  }

  predicate AllShort(ms: seq<Bytes>) {
    forall i :: 0 <= i < |ms| ==> |ms[i]| < Frame.ShortLimit
  }

  /** One short frame per message, in order. */
  function Frames(ms: seq<Bytes>): (r: seq<Bytes>)
    requires AllShort(ms)
    ensures |r| == |ms|
    ensures forall i :: 0 <= i < |ms| ==> Frame.DecodeShort(r[i]) == Ok(ms[i])
  {
    if ms == [] then []
    else
      Frame.ShortRoundTrip(ms[0], Frame.EncodeShort(ms[0]).value);
      [Frame.EncodeShort(ms[0]).value] + Frames(ms[1..])
  }

  predicate AllFrames(chunks: seq<Bytes>) {
    forall i :: 0 <= i < |chunks| ==> Frame.DecodeShort(chunks[i]).Ok?
  }

  /** The payloads of a run of short frames; `PayloadsAppend` and `PayloadsOfFrames` say what they are. */
  function Payloads(chunks: seq<Bytes>): (r: seq<Bytes>)
    requires AllFrames(chunks)
    ensures |r| == |chunks|
  {
    if chunks == [] then [] else [Frame.DecodeShort(chunks[0]).value] + Payloads(chunks[1..])
  }

  /**
   * What is on the wire: the signature first, the greeting tail and READY second,
   * and nothing but data frames after them; data is written and delivered only
   * once the handshake is over.
   */
  ghost predicate Inv(s: Session) {
    && AllShort(s.pending)
    && (|s.out| >= 1 ==> s.out[0] == Greeting.Signature)
    && (|s.out| >= 2 ==> s.tail == Ok(s.out[1]))
    && (|s.out| >= 2 ==> AllFrames(s.out[2..]))
    && (s.delivered != [] ==> |s.out| >= 2)
    && match s.phase
       case Idle => s.out == [] && s.delivered == []
       case SignatureSent => |s.out| == 1 && s.delivered == []
       case ReadySent => |s.out| == 2 && s.delivered == []
       case Established => |s.out| >= 2 && s.pending == []
       case Failed(_) => true
  }

  /** `r` keeps the identity of `s` and only adds to its wire output and to what it delivered. */
  ghost predicate Extends(s: Session, r: Session) {
    && r.socketType == s.socketType && r.identity == s.identity && r.tail == s.tail
    && |s.out| <= |r.out| && r.out[..|s.out|] == s.out
    && |s.delivered| <= |r.delivered| && r.delivered[..|s.delivered|] == s.delivered
  }

  /** A step that fails writes and delivers nothing more. */
  ghost predicate FailsQuietly(s: Session, r: Session) {
    r.phase.Failed? ==> r.out == s.out && r.delivered == s.delivered
  }

  /** The application's message: refused if too long, written if the handshake is over, queued otherwise. */
  function OnSend(s: Session, m: Bytes): (r: Session)
    requires Inv(s) && !s.phase.Failed?
    ensures Inv(r) && Extends(s, r) && r.phase == s.phase
    ensures r.delivered == s.delivered && r.peer == s.peer
    ensures |m| >= Frame.ShortLimit ==> r == s
    ensures |m| < Frame.ShortLimit && s.phase == Established ==>
              r.pending == s.pending && |r.out| == |s.out| + 1 && Frame.DecodeShort(r.out[|s.out|]) == Ok(m)
    ensures |m| < Frame.ShortLimit && s.phase != Established ==> r.pending == s.pending + [m] && r.out == s.out
  {
    if |m| >= Frame.ShortLimit then s
    else if s.phase == Established then
      var frame := Frame.EncodeShort(m).value;
      Frame.ShortRoundTrip(m, frame);
      assert (s.out + [frame])[2..] == s.out[2..] + [frame];
      s.(out := s.out + [frame])
    else s.(pending := s.pending + [m])
  }

  /** The peer's greeting: answered by the greeting tail and READY. */
  function OnGreeting(s: Session, c: Bytes): (r: Session)
    requires Inv(s) && s.phase == SignatureSent
    ensures Inv(r) && Extends(s, r) && FailsQuietly(s, r)
    ensures r.phase == ReadySent <==> Greeting.Decode(c).Ok? && s.tail.Ok?
    ensures r.phase == ReadySent ==> r.out == s.out + [s.tail.value] && r.pending == s.pending
    ensures Greeting.Decode(c).Err? ==> r.phase == Failed(Greeting.Decode(c).error)
    ensures Greeting.Decode(c).Ok? && s.tail.Err? ==> r.phase == Failed(s.tail.error)
    ensures r.peer == s.peer && r.delivered == s.delivered
  {
    match Greeting.Decode(c)
    case Err(err) => s.(phase := Failed(err))
    case Ok(_) =>
      match s.tail
      case Err(err) => s.(phase := Failed(err))
      case Ok(tail) => s.(phase := ReadySent, out := s.out + [tail])
  }

  /** The peer's READY: the handshake is over and the queued messages go out, in order. */
  function OnReady(s: Session, c: Bytes): (r: Session)
    requires Inv(s) && s.phase == ReadySent
    ensures Inv(r) && Extends(s, r) && FailsQuietly(s, r)
    ensures r.phase == (if DecodeReady(c).Ok? then Established else Failed(DecodeReady(c).error))
    ensures DecodeReady(c).Ok? ==> r.out == s.out + Frames(s.pending) && r.pending == [] && r.peer == DecodeReady(c).value
    ensures r.delivered == s.delivered
  {
    match DecodeReady(c)
    case Err(err) => s.(phase := Failed(err))
    case Ok(props) =>
      var frames := Frames(s.pending);
      assert (s.out + frames)[2..] == frames;
      assert (s.out + frames)[..|s.out|] == s.out;
      s.(phase := Established, peer := props, out := s.out + frames, pending := [])
  }

  /** A data frame from the peer: its payload goes to the application. */
  function OnData(s: Session, c: Bytes): (r: Session)
    requires Inv(s) && s.phase == Established
    ensures Inv(r) && Extends(s, r) && FailsQuietly(s, r)
    ensures Frame.DecodeShort(c).Ok? ==> r.phase == Established && r.delivered == s.delivered + [Frame.DecodeShort(c).value]
    ensures Frame.DecodeShort(c).Ok? ==> r.out == s.out && r.pending == s.pending && r.peer == s.peer
    ensures Frame.DecodeShort(c).Err? ==> r.phase == Failed(Frame.DecodeShort(c).error)
  {
    match Frame.DecodeShort(c)
    case Err(err) => s.(phase := Failed(err))
    case Ok(p) => s.(delivered := s.delivered + [p])
  }

  /** One event. Failure is final; a message too long for a short frame is refused. */
  function Step(s: Session, e: Event): (r: Session)
    requires Inv(s)
    ensures Inv(r) && Extends(s, r) && FailsQuietly(s, r)
    ensures s.phase.Failed? ==> r == s
    ensures e.Connect? && s.phase == Idle ==>
              r.phase == SignatureSent && r.out == [Greeting.Signature] && r.pending == s.pending && r.peer == s.peer
    ensures e.Connect? && s.phase != Idle ==> r == s
    ensures e.Receive? && s.phase == Idle ==> r.phase == Failed(UnexpectedChunk)
    ensures r.phase == Established ==>
              s.phase == Established || (s.phase == ReadySent && e.Receive? && DecodeReady(e.chunk).Ok?)
  {
    if s.phase.Failed? then s
    else
      match e
      case Connect =>
        if s.phase == Idle then s.(phase := SignatureSent, out := [Greeting.Signature]) else s
      case Send(m) => OnSend(s, m)
      case Receive(c) =>
        match s.phase
        case Idle => s.(phase := Failed(UnexpectedChunk))
        case SignatureSent => OnGreeting(s, c)
        case ReadySent => OnReady(s, c)
        case Established => OnData(s, c)
  }

  /** The session after a sequence of events, oldest first. */
  function RunFrom(s: Session, evs: seq<Event>): (r: Session)
    requires Inv(s)
    ensures Inv(r) && Extends(s, r)
    decreases |evs|
  {
    if evs == [] then s
    else Step(RunFrom(s, evs[..|evs| - 1]), evs[|evs| - 1])
  }

  /** A fresh session after a sequence of events. */
  function Run(t: SocketType, identity: Bytes, evs: seq<Event>): (r: Session)
    ensures Inv(r) && r.socketType == t && r.identity == identity
    ensures r.tail == GreetingTail(t, identity)
  {
    RunFrom(Open(t, identity), evs)
  }

  /** Every message the application handed over so far, on the wire or still queued. */
  ghost function Sent(s: Session): seq<Bytes>
    requires Inv(s)
  {
    (if |s.out| >= 2 then Payloads(s.out[2..]) else []) + s.pending
  }

  /** The messages short enough to be accepted, in the order the application sent them. */
  function ShortSends(evs: seq<Event>): seq<Bytes> {
    if evs == [] then []
    else
      var last := evs[|evs| - 1];
      ShortSends(evs[..|evs| - 1]) + if last.Send? && |last.message| < Frame.ShortLimit then [last.message] else []
  }

  lemma {:induction false} PayloadsAppend(a: seq<Bytes>, b: seq<Bytes>)
    requires AllFrames(a) && AllFrames(b)
    ensures AllFrames(a + b) && Payloads(a + b) == Payloads(a) + Payloads(b)
  {
    if a == [] {
      assert a + b == b;
    } else {
      PayloadsAppend(a[1..], b);
      assert (a + b)[0] == a[0] && (a + b)[1..] == a[1..] + b;
    }
  }

  lemma {:induction false} PayloadsOfFrames(ms: seq<Bytes>)
    requires AllShort(ms)
    ensures AllFrames(Frames(ms)) && Payloads(Frames(ms)) == ms
  {
    if ms != [] {
      PayloadsOfFrames(ms[1..]);
      assert Frames(ms)[1..] == Frames(ms[1..]);
    }
  }

  lemma SendKeepsMessages(s: Session, m: Bytes)
    requires Inv(s) && !s.phase.Failed?
    ensures Sent(OnSend(s, m)) == Sent(s) + if |m| < Frame.ShortLimit then [m] else []
  {
    var r := OnSend(s, m);
    if |m| < Frame.ShortLimit {
      if s.phase == Established {
        var frame := Frame.EncodeShort(m).value;
        Frame.ShortRoundTrip(m, frame);
        assert r.out[2..] == s.out[2..] + [frame];
        PayloadsAppend(s.out[2..], [frame]);
        assert Payloads([frame]) == [m];
      } else {
        assert r.out == s.out && r.pending == s.pending + [m];
      }
    }
  }

  lemma ReadyKeepsMessages(s: Session, c: Bytes)
    requires Inv(s) && s.phase == ReadySent && DecodeReady(c).Ok?
    ensures Sent(OnReady(s, c)) == Sent(s)
  {
    var r := OnReady(s, c);
    assert r.out == s.out + Frames(s.pending) && r.pending == [];
    assert r.out[2..] == Frames(s.pending);
    assert s.out[2..] == [];
    PayloadsOfFrames(s.pending);
  }

  /** A step that does not fail neither loses, duplicates nor reorders a message. */
  lemma StepKeepsMessages(s: Session, e: Event)
    requires Inv(s) && !Step(s, e).phase.Failed?
    ensures Sent(Step(s, e)) == Sent(s) + if e.Send? && |e.message| < Frame.ShortLimit then [e.message] else []
  {
    assert !s.phase.Failed?;
    match e
    case Connect =>
      assert s.phase == Idle ==> s.pending == Step(s, e).pending;
    case Send(m) =>
      SendKeepsMessages(s, m);
    case Receive(c) =>
      var r := Step(s, e);
      if s.phase == SignatureSent {
        assert r == OnGreeting(s, c);
        assert r.out[2..] == [] && r.pending == s.pending;
      } else if s.phase == ReadySent {
        assert r == OnReady(s, c);
        ReadyKeepsMessages(s, c);
      } else {
        assert s.phase == Established && r == OnData(s, c);
        assert r.out == s.out && r.pending == s.pending;
      }
  }

  /**
   * While the session has not failed, the messages on the wire after the
   * handshake, followed by those still queued, are those it held before and
   * then the accepted sends, in the order the application made them.
   */
  lemma {:induction false} NothingLostOrReordered(s: Session, evs: seq<Event>)
    requires Inv(s) && !RunFrom(s, evs).phase.Failed?
    ensures Sent(RunFrom(s, evs)) == Sent(s) + ShortSends(evs)
    decreases |evs|
  {
    if evs != [] {
      var prefix := evs[..|evs| - 1];
      var last := evs[|evs| - 1];
      var p := RunFrom(s, prefix);
      assert RunFrom(s, evs) == Step(p, last);
      assert !p.phase.Failed?;
      NothingLostOrReordered(s, prefix);
      StepKeepsMessages(p, last);
    }
  }

  /** Some chunk among `evs` was a READY command. */
  ghost predicate ReadyReceived(evs: seq<Event>) {
    exists i :: 0 <= i < |evs| && evs[i].Receive? && DecodeReady(evs[i].chunk).Ok?
  }

  /** Nothing but the handshake has been written and nothing delivered yet. */
  ghost predicate BeforeData(s: Session) {
    |s.out| <= 2 && s.delivered == [] && s.phase != Established
  }

  /**
   * Data frames appear on the wire, and payloads reach the application, only
   * after a READY has been received from the peer.
   */
  lemma {:induction false} DataOnlyAfterReady(s: Session, evs: seq<Event>)
    requires Inv(s) && BeforeData(s)
    ensures !BeforeData(RunFrom(s, evs)) ==> ReadyReceived(evs)
    decreases |evs|
  {
    if evs != [] {
      var prefix := evs[..|evs| - 1];
      var last := evs[|evs| - 1];
      var p := RunFrom(s, prefix);
      var r := RunFrom(s, evs);
      assert r == Step(p, last);
      DataOnlyAfterReady(s, prefix);
      if !BeforeData(r) {
        if !BeforeData(p) {
          var i :| 0 <= i < |prefix| && prefix[i].Receive? && DecodeReady(prefix[i].chunk).Ok?;
          assert evs[i] == prefix[i];
        } else {
          assert !r.phase.Failed?;
          assert r.phase == Established;
          assert evs[|evs| - 1] == last;
        }
      }
    }
  }

  /** Some chunk among `evs` was a greeting carrying the signature. */
  ghost predicate GreetingReceived(evs: seq<Event>) {
    exists i :: 0 <= i < |evs| && evs[i].Receive? && Greeting.Decode(evs[i].chunk).Ok?
  }

  /**
   * The second write (the greeting tail with READY) goes out only after a
   * greeting has been received from the peer.
   */
  lemma {:induction false} TailOnlyAfterGreeting(s: Session, evs: seq<Event>)
    requires Inv(s) && |s.out| < 2
    ensures |RunFrom(s, evs).out| >= 2 ==> GreetingReceived(evs)
    decreases |evs|
  {
    if evs != [] {
      var prefix := evs[..|evs| - 1];
      var last := evs[|evs| - 1];
      var p := RunFrom(s, prefix);
      var r := RunFrom(s, evs);
      assert r == Step(p, last);
      TailOnlyAfterGreeting(s, prefix);
      if |r.out| >= 2 {
        if |p.out| >= 2 {
          var i :| 0 <= i < |prefix| && prefix[i].Receive? && Greeting.Decode(prefix[i].chunk).Ok?;
          assert evs[i] == prefix[i];
        } else {
          assert p.phase == SignatureSent && last.Receive?;
          assert r == OnGreeting(p, last.chunk);
          assert evs[|evs| - 1] == last;
        }
      }
    }
  }

  /**
   * From a fresh session: the signature is written first, the greeting tail and
   * READY second and only after the peer's greeting, data only after the peer's
   * READY, and the application's messages are neither lost nor reordered.
   */
  lemma RunOrdering(t: SocketType, identity: Bytes, evs: seq<Event>)
    ensures var r := Run(t, identity, evs);
            && (|r.out| >= 1 ==> r.out[0] == Greeting.Signature)
            && (|r.out| >= 2 ==> r.tail.Ok? && r.out[1] == r.tail.value && GreetingReceived(evs))
            && (|r.out| > 2 || r.delivered != [] ==> ReadyReceived(evs))
            && (!r.phase.Failed? ==> Sent(r) == ShortSends(evs))
  {
    var s := Open(t, identity);
    TailOnlyAfterGreeting(s, evs);
    DataOnlyAfterReady(s, evs);
    if !Run(t, identity, evs).phase.Failed? {
      NothingLostOrReordered(s, evs);
    }
  }

  /** The chunks received from the peer, oldest first. */
  function Received(evs: seq<Event>): seq<Bytes> {
    if evs == [] then []
    else
      var last := evs[|evs| - 1];
      Received(evs[..|evs| - 1]) + if last.Receive? then [last.chunk] else []
  }

  /**
   * What a session that has not failed has received, by phase: nothing before
   * the peer's greeting, the greeting alone in ReadySent, and once Established
   * the greeting, then the READY whose properties were recorded, then data
   * frames whose payloads are exactly what was delivered.
   */
  ghost predicate ReceivedMatches(s: Session, cs: seq<Bytes>) {
    !s.phase.Failed? ==>
      && (s.phase == Idle || s.phase == SignatureSent ==> cs == [])
      && (s.phase == ReadySent ==> |cs| == 1 && Greeting.Decode(cs[0]).Ok?)
      && (s.phase == Established ==>
            && |cs| >= 2 && Greeting.Decode(cs[0]).Ok? && DecodeReady(cs[1]) == Ok(s.peer)
            && AllFrames(cs[2..]) && s.delivered == Payloads(cs[2..]))
  }

  /** One step keeps the match between the phase and the chunks received. */
  lemma StepKeepsReceived(s: Session, e: Event, cs: seq<Bytes>)
    requires Inv(s) && ReceivedMatches(s, cs)
    ensures ReceivedMatches(Step(s, e), cs + if e.Receive? then [e.chunk] else [])
  {
    var r := Step(s, e);
    if !r.phase.Failed? && e.Receive? {
      var c := e.chunk;
      var ds := cs + [c];
      if s.phase == SignatureSent {
        assert r == OnGreeting(s, c);
      } else if s.phase == ReadySent {
        assert r == OnReady(s, c);
        assert ds[2..] == [];
      } else {
        assert s.phase == Established && r == OnData(s, c);
        assert ds[2..] == cs[2..] + [c];
        PayloadsAppend(cs[2..], [c]);
        assert Payloads([c]) == [Frame.DecodeShort(c).value];
      }
    } else if !r.phase.Failed? {
      assert cs + [] == cs;
    }
  }

  /**
   * Over any events, a fresh session that has not failed has delivered exactly
   * the payloads of the data chunks received after the peer's READY.
   */
  lemma {:induction false} DeliveredAfterReady(t: SocketType, identity: Bytes, evs: seq<Event>)
    ensures ReceivedMatches(Run(t, identity, evs), Received(evs))
    decreases |evs|
  {
    if evs != [] {
      var prefix := evs[..|evs| - 1];
      var last := evs[|evs| - 1];
      assert Run(t, identity, evs) == Step(Run(t, identity, prefix), last);
      DeliveredAfterReady(t, identity, prefix);
      StepKeepsReceived(Run(t, identity, prefix), last, Received(prefix));
    }
  }
}
