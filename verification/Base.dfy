/**
  Vocabulary shared by every module: bytes, machine integers, errors, results,
  and `Ref`, which stands for a Go pointer to a value that a method fills in.
*/
module Base {

  type byte = b: int | 0 <= b < 256

  /** A Go string or byte slice. */
  type Bytes = seq<byte>

  type uint32 = x: int | 0 <= x < 0x1_0000_0000

  /** The longest body a reader accepts. */
  const MAX_PACKET_SIZE := 65536

  datatype Option<+T> = None | Some(value: T)

  datatype Error =
    | InvalidPacket
    | InvalidHeader
    | InvalidLength
    | InvalidArgument
    | TooManyArguments
    | InvalidSeqNo
    | UnsupportedVersion
    | FlagMismatch
    | UnencryptedDisabled
    | NoServerConfigured
    | EndOfStream
    | NoProxyHeader
    | MalformedProxy
    | ContinuationRequired
    | ContinuationFailed
    | LookupFailed

  datatype Result<+T> = Ok(value: T) | Err(error: Error)

  /** The target of a pointer receiver. */
  class Ref<T> {
    var value: T

    constructor (v: T)
      ensures value == v
    {
      value := v;
    }
  }

  /** The bytes of an ASCII literal. */
  function Ascii(s: string): Bytes {
    seq(|s|, i requires 0 <= i < |s| => if s[i] < 128 as char then s[i] as int else 63)
  }

  /** 8-bit increment, wrapping at 255. */
  function Succ8(b: byte): byte {
    (b + 1) % 256
  }

  function U16(n: nat): Bytes
    requires n < 0x1_0000
  {
    [n / 256, n % 256]
  }

  function FromU16(hi: byte, lo: byte): nat {
    256 * hi + lo
  }

  function U32(n: uint32): Bytes {
    [n / 0x100_0000, n / 0x1_0000 % 256, n / 256 % 256, n % 256]
  }

  function FromU32(s: Bytes): uint32
    requires |s| == 4
  {
    var a: int, b: int, c: int, d: int := s[0], s[1], s[2], s[3];
    0x100_0000 * a + 0x1_0000 * b + 256 * c + d
  }

  /** Numbers travel in network byte order. */
  lemma NetworkOrder()
    ensures U16(0x0102) == [1, 2] && FromU16(1, 2) == 0x0102
    ensures U32(0x0102_0304) == [1, 2, 3, 4] && FromU32([1, 2, 3, 4]) == 0x0102_0304
  {
  }

  lemma FromU16RoundTrip(hi: byte, lo: byte)
    ensures FromU16(hi, lo) < 0x1_0000 && U16(FromU16(hi, lo)) == [hi, lo]
  {
  }

  lemma U32RoundTrip(n: uint32)
    ensures FromU32(U32(n)) == n
  {
    assert n / 0x1_0000 == n / 0x100_0000 * 256 + n / 0x1_0000 % 256;
    assert n / 256 == n / 0x1_0000 * 256 + n / 256 % 256;
  }

  lemma FromU32RoundTrip(s: Bytes)
    requires |s| == 4
    ensures U32(FromU32(s)) == s
  {
    var n := FromU32(s);
    var a: int, b: int, c: int := s[0], s[1], s[2];
    assert n / 256 == 0x1_0000 * a + 256 * b + c;
    assert n / 0x1_0000 == 256 * a + b;
    assert n / 0x100_0000 == a;
  }
}
