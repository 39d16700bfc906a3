/**
 * The READY command in the draft layout the raw-socket test exchanges: a short
 * frame (flags 0, size byte) whose payload is the name "READY" space-padded to
 * 8 bytes followed by properties, each a 1-byte name length, the name, a 4-byte
 * big-endian value length and the value.
 */
module Command {
  import opened Wire
  import Frame

  datatype Property = Property(name: Bytes, value: Bytes)

  const MaxNameLength: nat := 255

  /** The name fits its 1-byte length and the value its 4-byte length. */
  predicate Encodable(p: Property) {
    |p.name| <= MaxNameLength && |p.value| < Two32
  }

  predicate AllEncodable(ps: seq<Property>) {
    forall i :: 0 <= i < |ps| ==> Encodable(ps[i])
  }

  /** Number of bytes a property list takes on the wire. */
  function WireSize(ps: seq<Property>): nat {
    if ps == [] then 0 else 5 + |ps[0].name| + |ps[0].value| + WireSize(ps[1..])
  }

  /** One property on the wire. */
  function EncodeProperty(p: Property): (r: Result<Bytes>)
    ensures r.Ok? <==> Encodable(p)
    ensures |p.name| > MaxNameLength ==> r == Err(NameTooLong)
    ensures |p.name| <= MaxNameLength && |p.value| >= Two32 ==> r == Err(ValueTooLong)
    ensures r.Ok? ==> |r.value| == 5 + |p.name| + |p.value|
  {
    if |p.name| > MaxNameLength then Err(NameTooLong)
    else if |p.value| >= Two32 then Err(ValueTooLong)
    else Ok([|p.name|] + p.name + BE32(|p.value|) + p.value)
  }

  /**
   * An encoded property is its name length in one byte, the name, the value
   * length in four big-endian bytes, then the value.
   */
  lemma PropertyLayout(p: Property)
    requires Encodable(p)
    ensures var b := EncodeProperty(p).value; var n := |p.name|;
            && b[0] == n && b[1..1 + n] == p.name
            && FromBE32(b[1 + n..5 + n]) == |p.value| && b[5 + n..] == p.value
  {
    var b := EncodeProperty(p).value;
    var n := |p.name|;
    assert b[1 + n..5 + n] == BE32(|p.value|);
  }

  /** The properties one after another; the first property that does not fit gives the error. */
  function EncodeProperties(ps: seq<Property>): (r: Result<Bytes>)
    ensures r.Ok? <==> AllEncodable(ps)
    ensures r.Ok? ==> |r.value| == WireSize(ps)
  {
    if ps == [] then Ok([])
    else
      match EncodeProperty(ps[0])
      case Err(e) => Err(e)
      case Ok(head) =>
        match EncodeProperties(ps[1..])
        case Err(e) => Err(e)
        case Ok(tail) => Ok(head + tail)
  }

  /** Reads properties until the bytes run out; a declared length past the end is an error. */
  function DecodeProperties(b: Bytes): (r: Result<seq<Property>>)
    ensures r.Ok? ==> AllEncodable(r.value) && WireSize(r.value) == |b|
    ensures r.Err? ==> r.error == TruncatedProperty
    decreases |b|
  {
    if b == [] then Ok([])
    else
      var n: nat := b[0];
      if |b| < 5 + n then Err(TruncatedProperty)
      else
        var len: nat := FromBE32(b[1 + n..5 + n]);
        if |b| < 5 + n + len then Err(TruncatedProperty)
        else
          match DecodeProperties(b[5 + n + len..])
          case Err(e) => Err(e)
          case Ok(rest) => Ok([Property(b[1..1 + n], b[5 + n..5 + n + len])] + rest)
  }

  /** Decoding a property followed by more bytes yields the property, then whatever the rest decodes to. */
  lemma DecodeFirstProperty(p: Property, tail: Bytes)
    requires Encodable(p)
    ensures DecodeProperties(EncodeProperty(p).value + tail)
         == match DecodeProperties(tail) case Err(e) => Err(e) case Ok(rest) => Ok([p] + rest)
  {
    var head := EncodeProperty(p).value;
    PropertyLayout(p);
    var b := head + tail;
    var n := |p.name|;
    assert b[0] == n;
    assert b[1 + n..5 + n] == head[1 + n..5 + n];
    assert b[1..1 + n] == p.name;
    assert b[5 + n..5 + n + |p.value|] == p.value;
    assert b[5 + n + |p.value|..] == tail;
  }

  /** Every list of encodable properties decodes back from its encoding. */
  lemma {:induction false} DecodeOfEncoded(ps: seq<Property>)
    requires AllEncodable(ps)
    ensures DecodeProperties(EncodeProperties(ps).value) == Ok(ps)
  {
    if ps != [] {
      DecodeOfEncoded(ps[1..]);
      var tail := EncodeProperties(ps[1..]).value;
      DecodeFirstProperty(ps[0], tail);
      assert [ps[0]] + ps[1..] == ps;
    }
  }

  /** One step of the decoder: the first property as its lengths delimit it, then the rest. */
  lemma DecodePropertiesStep(b: Bytes)
    requires b != [] && DecodeProperties(b).Ok?
    ensures var n: nat := b[0];
      && 5 + n <= |b| && var len: nat := FromBE32(b[1 + n..5 + n]);
      && 5 + n + len <= |b|
      && DecodeProperties(b[5 + n + len..]).Ok?
      && DecodeProperties(b).value
         == [Property(b[1..1 + n], b[5 + n..5 + n + len])] + DecodeProperties(b[5 + n + len..]).value
  {
  }

  /** Bytes laid out as one property re-encode to themselves. */
  lemma EncodeOfLayout(b: Bytes, n: nat, len: nat)
    requires 5 + n + len <= |b| && b[0] == n && FromBE32(b[1 + n..5 + n]) == len
    ensures EncodeProperty(Property(b[1..1 + n], b[5 + n..5 + n + len])) == Ok(b[..5 + n + len])
  {
    FromBE32RoundTrip(b[1 + n..5 + n]);
    assert b[..5 + n + len] == [b[0]] + b[1..1 + n] + b[1 + n..5 + n] + b[5 + n..5 + n + len];
  }

  /** A byte string that decodes starts with the encoding of its first property. */
  lemma DecodedFirstProperty(b: Bytes) returns (p: Property, k: nat)
    requires b != [] && DecodeProperties(b).Ok?
    ensures 5 <= k <= |b| && EncodeProperty(p) == Ok(b[..k]) && DecodeProperties(b[k..]).Ok?
    ensures DecodeProperties(b).value == [p] + DecodeProperties(b[k..]).value
  {
    DecodePropertiesStep(b);
    var n: nat := b[0];
    var len: nat := FromBE32(b[1 + n..5 + n]);
    k := 5 + n + len;
    p := Property(b[1..1 + n], b[5 + n..k]);
    EncodeOfLayout(b, n, len);
  }

  /** Every byte string that decodes is the encoding of what it decodes to. */
  lemma {:induction false} EncodeOfDecoded(b: Bytes)
    requires DecodeProperties(b).Ok?
    ensures EncodeProperties(DecodeProperties(b).value) == Ok(b)
    decreases |b|
  {
    if b != [] {
      var p, k := DecodedFirstProperty(b);
      var rest := DecodeProperties(b[k..]).value;
      EncodeOfDecoded(b[k..]);
      var ps := [p] + rest;
      assert ps[0] == p && ps[1..] == rest;
      assert EncodeProperties(ps) == Ok(b[..k] + b[k..]);
      assert b == b[..k] + b[k..];
    }
  }

  /** Two properties are encoded one after the other. */
  lemma EncodeTwoProperties(p0: Property, p1: Property)
    requires Encodable(p0) && Encodable(p1)
    ensures EncodeProperties([p0, p1]) == Ok(EncodeProperty(p0).value + EncodeProperty(p1).value)
  {
    var ps := [p0, p1];
    assert ps[1..] == [p1] && ps[1..][1..] == [];
    assert EncodeProperties([p1]) == Ok(EncodeProperty(p1).value + []);
    assert EncodeProperty(p1).value + [] == EncodeProperty(p1).value;
  }

  /** Decoding a property list is the exact inverse of encoding one. */
  lemma PropertiesRoundTrip(ps: seq<Property>, b: Bytes)
    ensures DecodeProperties(b) == Ok(ps) <==> EncodeProperties(ps) == Ok(b)
  {
    if DecodeProperties(b) == Ok(ps) {
      EncodeOfDecoded(b);
    }
    if EncodeProperties(ps) == Ok(b) {
      DecodeOfEncoded(ps);
    }
  }

  /** "READY" space-padded to the fixed 8-byte command name. */
  const ReadyName: Bytes := [0x52, 0x45, 0x41, 0x44, 0x59, 0x20, 0x20, 0x20]

  /** The READY command as one short frame. */
  function EncodeReady(ps: seq<Property>): (r: Result<Bytes>)
    ensures r.Ok? <==> AllEncodable(ps) && 8 + WireSize(ps) < Frame.ShortLimit
    ensures r.Ok? ==> |r.value| == 10 + WireSize(ps) && r.value[0] == Frame.NoFlags
    ensures r.Ok? ==> r.value[1] == |r.value| - 2 && r.value[2..10] == ReadyName
  {
    match EncodeProperties(ps)
    case Err(e) => Err(e)
    case Ok(body) => Frame.EncodeShort(ReadyName + body)
  }

  /** The properties of a READY frame; any other command name is refused. */
  function DecodeReady(frame: Bytes): (r: Result<seq<Property>>)
    ensures r.Ok? ==> |frame| >= 10 && frame[2..10] == ReadyName
    ensures Frame.DecodeShort(frame).Ok? && !(|frame| >= 10 && frame[2..10] == ReadyName) ==> r == Err(UnexpectedCommand)
  {
    match Frame.DecodeShort(frame)
    case Err(e) => Err(e)
    case Ok(payload) =>
      if |payload| < |ReadyName| || payload[..|ReadyName|] != ReadyName then Err(UnexpectedCommand)
      else DecodeProperties(payload[|ReadyName|..])
  }

  /** Decoding a READY frame is the exact inverse of encoding one. */
  lemma ReadyRoundTrip(ps: seq<Property>, frame: Bytes)
    ensures DecodeReady(frame) == Ok(ps) <==> EncodeReady(ps) == Ok(frame)
  {
    if DecodeReady(frame) == Ok(ps) {
      var payload := frame[2..];
      PropertiesRoundTrip(ps, payload[8..]);
      assert payload == ReadyName + payload[8..];
      Frame.ShortRoundTrip(payload, frame);
    }
    if EncodeReady(ps) == Ok(frame) {
      var body := EncodeProperties(ps).value;
      Frame.ShortRoundTrip(ReadyName + body, frame);
      assert (ReadyName + body)[8..] == body;
      PropertiesRoundTrip(ps, body);
    }
  }

  /** The socket types the test uses. */
  datatype SocketType = Dealer | Router

  /** The value of the Socket-Type property. */
  function TypeName(t: SocketType): (r: Bytes)
    ensures |r| == 6
  {
    match t
    case Dealer => [0x44, 0x45, 0x41, 0x4C, 0x45, 0x52]  // "DEALER"
    case Router => [0x52, 0x4F, 0x55, 0x54, 0x45, 0x52]  // "ROUTER"
  }

  /** "Socket-Type" */
  const SocketTypeKey: Bytes := [0x53, 0x6F, 0x63, 0x6B, 0x65, 0x74, 0x2D, 0x54, 0x79, 0x70, 0x65]

  /** "Identity" */
  const IdentityKey: Bytes := [0x49, 0x64, 0x65, 0x6E, 0x74, 0x69, 0x74, 0x79]

  /** The properties a peer announces in READY: its socket type, then its identity. */
  function ReadyProperties(t: SocketType, identity: Bytes): seq<Property> {
    [Property(SocketTypeKey, TypeName(t)), Property(IdentityKey, identity)]
  }
}
