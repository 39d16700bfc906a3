/**
 * Short message frames as the raw-socket test writes and reads them: a flags
 * byte (0: no MORE, short length), a 1-byte size, then the payload.
 */
module Frame {
  import opened Wire

  /** Flags of a final, short, data frame. */
  const NoFlags: Byte := 0

  /** Payloads of this many bytes or more need the long form. */
  const ShortLimit: nat := 255

  /** The frame carrying `payload` as the last (or only) frame of a message. */
  function EncodeShort(payload: Bytes): (r: Result<Bytes>)
    ensures r.Ok? <==> |payload| < ShortLimit
    ensures r.Err? ==> r.error == PayloadTooLong
    ensures r.Ok? ==> |r.value| == |payload| + 2 && r.value[0] == NoFlags
    ensures r.Ok? ==> r.value[1] == |r.value| - 2 && r.value[2..] == payload
  {
    if |payload| < ShortLimit then Ok([NoFlags, |payload|] + payload) else Err(PayloadTooLong)
  }

  /** The payload of one complete short frame. */
  function DecodeShort(b: Bytes): (r: Result<Bytes>)
    ensures r.Ok? <==> |b| >= 2 && b[0] == NoFlags && b[1] < ShortLimit && b[1] == |b| - 2
    ensures r.Ok? ==> r.value == b[2..]
  {
    if |b| < 2 then Err(Truncated)
    else if b[0] != NoFlags then Err(UnsupportedFlags)
    else if b[1] >= ShortLimit then Err(PayloadTooLong)
    else if b[1] != |b| - 2 then Err(SizeMismatch)
    else Ok(b[2..])
  }

  /** Decoding is the exact inverse of encoding, in both directions. */
  lemma ShortRoundTrip(payload: Bytes, b: Bytes)
    ensures DecodeShort(b) == Ok(payload) <==> EncodeShort(payload) == Ok(b)
  {
    if DecodeShort(b) == Ok(payload) {
      assert b == [b[0], b[1]] + b[2..];
    }
  }
}
