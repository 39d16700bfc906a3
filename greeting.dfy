/**
 * The 64-byte ZMTP/3.0 greeting of the raw-socket test (`zmtp_greeting_t`):
 * signature (10), version (2), mechanism (20), as_server (1), filler (31),
 * written field after field at fixed offsets with no padding.
 */
module Greeting {
  import opened Wire

  const SignatureSize: nat := 10
  const VersionSize: nat := 2
  const MechanismSize: nat := 20
  const FillerSize: nat := 31
  const GreetingSize: nat := 64

  /**
   * FF, eight bytes that an old peer reads as a 64-bit length (set to 1), then 7F.
   * The 01 is fixed: it never stands for the length of this greeting.
   */
  const Signature: Bytes := [0xFF, 0, 0, 0, 0, 0, 0, 0, 1, 0x7F]

  datatype ZmtpGreeting = ZmtpGreeting(
    signature: Bytes,
    version: Bytes,
    mechanism: Bytes,
    asServer: Byte,
    filler: Bytes)

  /** Every array member has the size the struct declares. */
  predicate WellFormed(g: ZmtpGreeting) {
    && |g.signature| == SignatureSize
    && |g.version| == VersionSize
    && |g.mechanism| == MechanismSize
    && |g.filler| == FillerSize
  }

  /** The 54 bytes that follow the signature. */
  function Remainder(g: ZmtpGreeting): (r: Bytes)
    requires WellFormed(g)
    ensures |r| == GreetingSize - SignatureSize
    ensures r[..2] == g.version && r[2..22] == g.mechanism && r[22] == g.asServer && r[23..] == g.filler
  {
    g.version + g.mechanism + [g.asServer] + g.filler
  }

  /** `sizeof (greeting)` bytes as `zmq_send` puts them on the wire. */
  function Encode(g: ZmtpGreeting): (r: Bytes)
    requires WellFormed(g)
    ensures |r| == GreetingSize == SignatureSize + VersionSize + MechanismSize + 1 + FillerSize
    ensures r[..10] == g.signature && r[10..12] == g.version && r[12..32] == g.mechanism
    ensures r[32] == g.asServer && r[33..] == g.filler
  {
    g.signature + Remainder(g)
  }

  /** Reads a greeting back; the signature must match exactly. */
  function Decode(b: Bytes): (r: Result<ZmtpGreeting>)
    ensures r.Ok? <==> |b| == GreetingSize && b[..SignatureSize] == Signature
    ensures |b| != GreetingSize ==> r == Err(WrongLength)
    ensures |b| == GreetingSize && b[..SignatureSize] != Signature ==> r == Err(MalformedSignature)
    ensures r.Ok? ==> WellFormed(r.value)
  {
    if |b| != GreetingSize then Err(WrongLength)
    else if b[..SignatureSize] != Signature then Err(MalformedSignature)
    else Ok(ZmtpGreeting(b[..10], b[10..12], b[12..32], b[32], b[33..]))
  }

  /** Decoding and encoding are inverses on greetings that carry the signature. */
  lemma GreetingRoundTrip(g: ZmtpGreeting, b: Bytes)
    ensures Decode(b) == Ok(g) <==> WellFormed(g) && g.signature == Signature && Encode(g) == b
  {
    if Decode(b) == Ok(g) {
      assert b == b[..10] + b[10..12] + b[12..32] + [b[32]] + b[33..];
    }
  }

  /** Whatever 54 bytes follow the signature, the greeting decodes field by field from them. */
  lemma DecodeAfterSignature(rem: Bytes)
    requires |rem| == GreetingSize - SignatureSize
    ensures Decode(Signature + rem) == Ok(ZmtpGreeting(Signature, rem[..2], rem[2..22], rem[22], rem[23..]))
  {
    var b := Signature + rem;
    assert b[..10] == Signature && b[10..12] == rem[..2] && b[12..32] == rem[2..22] && b[33..] == rem[23..];
  }

  /** "NULL" */
  const NullName: Bytes := [0x4E, 0x55, 0x4C, 0x4C]

  /** `"NULL"`, zero-padded to the 20-byte mechanism field. */
  const NullMechanism: Bytes := ZeroFill(NullName, MechanismSize)

  /**
   * The test's `greeting` constant: signature, version 3.0 and "NULL" are listed
   * in the initializer; as_server, the rest of the mechanism and the filler are zero.
   */
  const NullGreeting: ZmtpGreeting :=
    ZmtpGreeting(Signature, [3, 0], NullMechanism, 0, Zeros(FillerSize))

  /** The greeting constant, byte by byte. */
  lemma NullGreetingBytes()
    ensures WellFormed(NullGreeting)
    ensures Encode(NullGreeting)
         == [0xFF, 0, 0, 0, 0, 0, 0, 0, 1, 0x7F] + [3, 0] + [78, 85, 76, 76] + Zeros(16) + [0] + Zeros(31)
  {
    assert NullMechanism == [78, 85, 76, 76] + Zeros(16);
  }

  /**
   * The router's view after the signature chunk: version 03 00, mechanism "NULL"
   * zero-padded to 20 bytes, and as_server 0.
   */
  lemma NullGreetingRemainder()
    ensures WellFormed(NullGreeting)
    ensures Encode(NullGreeting) == Signature + Remainder(NullGreeting)
    ensures Remainder(NullGreeting)[0] == 3 && Remainder(NullGreeting)[1] == 0
    ensures Remainder(NullGreeting)[2..22] == NullName + Zeros(16)
    ensures Remainder(NullGreeting)[22] == 0
    ensures NullMechanism == NullName + Zeros(16)
  {
    assert NullMechanism == NullName + Zeros(16);
  }

  /**
   * Bytes 1 to 8 of every greeting this codec writes or accepts are seven zeros
   * and a one, whatever the version, mechanism, role or filler.
   */
  lemma LegacyLengthIsConstant(g: ZmtpGreeting, b: Bytes)
    ensures WellFormed(g) && g.signature == Signature ==> Encode(g)[1..9] == [0, 0, 0, 0, 0, 0, 0, 1]
    ensures Decode(b).Ok? ==> b[1..9] == [0, 0, 0, 0, 0, 0, 0, 1]
  {
    if WellFormed(g) && g.signature == Signature {
      assert Encode(g)[1..9] == Signature[1..9];
    }
    if Decode(b).Ok? {
      assert b[1..9] == b[..10][1..9];
    }
  }
}
