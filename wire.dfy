/** Bytes, error kinds and the small byte-level helpers shared by the ZMTP codecs. */
module Wire {

  /** One octet, as the test's `typedef unsigned char byte`. */
  type Byte = b: int | 0 <= b < 256

  type Bytes = seq<Byte>

  /** Why a codec refused its input. */
  datatype Error =
    | WrongLength          // a greeting that is not exactly 64 bytes
    | MalformedSignature   // the first 10 bytes are not FF 00x7 01 7F
    | NameTooLong          // a property name that does not fit its 1-byte length
    | ValueTooLong         // a property value that does not fit its 4-byte length
    | PayloadTooLong       // a payload that needs the long frame form
    | Truncated            // fewer than the two header bytes of a frame
    | UnsupportedFlags     // a flags byte other than 0 (MORE, long or command bits)
    | SizeMismatch         // a size byte that disagrees with the bytes present
    | TruncatedProperty    // a property whose declared lengths run past the end
    | UnexpectedCommand    // a command other than READY during the handshake
    | UnexpectedChunk      // bytes from the peer before the connection started

  datatype Result<T> = Ok(value: T) | Err(error: Error)

  /** `n` zero bytes. */
  function Zeros(n: nat): (r: Bytes)
    ensures |r| == n
    ensures forall i :: 0 <= i < n ==> r[i] == 0
  {
    if n == 0 then [] else [0] + Zeros(n - 1)
  }

  /** A fixed-size C array initialised from a shorter list: the members not listed are zero. */
  function ZeroFill(prefix: Bytes, n: nat): (r: Bytes)
    requires |prefix| <= n
    ensures |r| == n && r[..|prefix|] == prefix
    ensures forall i :: |prefix| <= i < n ==> r[i] == 0
  {
    prefix + Zeros(n - |prefix|)
  }

  const Two32: nat := 0x1_0000_0000

  /** The 4-byte big-endian (network order) form of `n`. */
  function BE32(n: nat): (r: Bytes)
    requires n < Two32
    ensures |r| == 4 && FromBE32(r) == n
  {
    var q1 := n / 0x100;
    var q2 := q1 / 0x100;
    assert n == 0x100 * q1 + n % 0x100 && q1 == 0x100 * q2 + q1 % 0x100;
    assert q2 == 0x100 * (q2 / 0x100) + q2 % 0x100 && q2 / 0x100 < 0x100;
    [q2 / 0x100, q2 % 0x100, q1 % 0x100, n % 0x100]
  }

  /** The number that 4 big-endian bytes stand for. */
  function FromBE32(b: Bytes): (n: nat)
    requires |b| == 4
    ensures n < Two32
  {
    0x100_0000 * (b[0] as int) + 0x1_0000 * (b[1] as int) + 0x100 * (b[2] as int) + (b[3] as int)
  }

  /** Any four length bytes are the big-endian form of the number they stand for. */
  lemma FromBE32RoundTrip(b: Bytes)
    requires |b| == 4
    ensures BE32(FromBE32(b)) == b
  {
    var n := FromBE32(b);
    var q1 := 0x1_0000 * (b[0] as int) + 0x100 * (b[1] as int) + (b[2] as int);
    var q2 := 0x100 * (b[0] as int) + (b[1] as int);
    assert n == 0x100 * q1 + b[3] && n / 0x100 == q1 && n % 0x100 == b[3];
    assert q1 == 0x100 * q2 + b[2] && q1 / 0x100 == q2 && q1 % 0x100 == b[2];
    assert q2 / 0x100 == b[0] && q2 % 0x100 == b[1];
  }

  /** Concatenation regroups; stated once so that proofs about literal byte strings need not recompute it. */
  lemma AppendAssoc<T>(a: seq<T>, b: seq<T>, c: seq<T>)
    ensures a + (b + c) == a + b + c
  {
  }

  /** The part of a sequence from `i` on, cut at two more points, is the concatenation of its three pieces. */
  lemma ThreePieces<T>(r: seq<T>, i: nat, a: seq<T>, b: seq<T>, c: seq<T>)
    requires i + |a| + |b| + |c| == |r|
    requires r[i..i + |a|] == a && r[i + |a|..i + |a| + |b|] == b && r[i + |a| + |b|..] == c
    ensures r[i..] == a + b + c
  {
    assert r[i..] == r[i..i + |a|] + r[i + |a|..i + |a| + |b|] + r[i + |a| + |b|..];
  }
}
