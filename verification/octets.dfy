/**
 * Octet-level helpers of DNSQueryHandler: the big-endian integer readers
 * decodeTwoOctets and decodeTTL, the padding trimmer removeTrailingZeroes,
 * and the ways reading a response can fail.
 */
module Octets {
  import opened Wrappers

  /** An octet, as Java's byte masked with 0xFF. */
  newtype byte = b: int | 0 <= b < 256

  const TwoTo16: nat := 0x1_0000
  const TwoTo31: nat := 0x8000_0000
  const TwoTo32: nat := 0x1_0000_0000

  /**
   * Why decoding stopped. Java signals the first three with runtime
   * exceptions (BufferUnderflowException, StringIndexOutOfBoundsException);
   * PointerLimit stands for the unbounded recursion the source has on
   * compression-pointer cycles.
   */
  datatype DecodeError = Truncated | EmptyAddress | PointerLimit

  /** decodeTwoOctets: the two octets read as a big-endian unsigned 16-bit value. */
  function DecodeTwoOctets(b1: byte, b2: byte): (v: nat)
    ensures v < TwoTo16
  {
    b1 as int * 256 + b2 as int
  }

  /** The high octet of the value read is b1 and its low octet b2. */
  lemma TwoOctetsDigits(b1: byte, b2: byte)
    ensures DecodeTwoOctets(b1, b2) / 256 == b1 as int && DecodeTwoOctets(b1, b2) % 256 == b2 as int
  {
  }

  /** The two octets a 16-bit field is written as. */
  function EncodeTwoOctets(v: nat): (bs: seq<byte>)
    requires v < TwoTo16
    ensures |bs| == 2
  {
    [(v / 256) as byte, (v % 256) as byte]
  }

  lemma TwoOctetsRoundTrip(v: nat)
    requires v < TwoTo16
    ensures DecodeTwoOctets(EncodeTwoOctets(v)[0], EncodeTwoOctets(v)[1]) == v
  {
    var bs := EncodeTwoOctets(v);
    assert bs[0] as int == v / 256 && bs[1] as int == v % 256;
  }

  lemma TwoOctetsInverse(b1: byte, b2: byte)
    ensures EncodeTwoOctets(DecodeTwoOctets(b1, b2)) == [b1, b2]
  {
    TwoOctetsDigits(b1, b2);
  }

  /** The four octets read as a big-endian unsigned 32-bit value. */
  function Unsigned32(b1: byte, b2: byte, b3: byte, b4: byte): nat
  {
    ((b1 as int * 256 + b2 as int) * 256 + b3 as int) * 256 + b4 as int
  }

  /**
   * decodeTTL: Java shifts and adds in 32-bit int arithmetic, so the result
   * is the two's-complement reading of the four octets.
   */
  function DecodeTTL(b1: byte, b2: byte, b3: byte, b4: byte): (t: int)
    ensures -(TwoTo31 as int) <= t < TwoTo31
  {
    var u := Unsigned32(b1, b2, b3, b4);
    if u < TwoTo31 then u else u - TwoTo32
  }

  /**
   * The TTL read is congruent to the unsigned reading modulo 2^32, and
   * negative exactly when the first octet's top bit is set.
   */
  lemma TTLSigned(b1: byte, b2: byte, b3: byte, b4: byte)
    ensures (DecodeTTL(b1, b2, b3, b4) - Unsigned32(b1, b2, b3, b4)) % TwoTo32 == 0
    ensures DecodeTTL(b1, b2, b3, b4) < 0 <==> b1 >= 128
  {
  }

  /** The four octets a signed 32-bit TTL is written as. */
  function EncodeTTL(t: int): (bs: seq<byte>)
    requires -(TwoTo31 as int) <= t < TwoTo31
    ensures |bs| == 4
  {
    var u := t % TwoTo32;
    [(u / 0x100_0000) as byte, (u / 0x1_0000 % 256) as byte, (u / 256 % 256) as byte, (u % 256) as byte]
  }

  lemma TTLRoundTrip(t: int)
    requires -(TwoTo31 as int) <= t < TwoTo31
    ensures var bs := EncodeTTL(t); DecodeTTL(bs[0], bs[1], bs[2], bs[3]) == t
  {
    var u := t % TwoTo32;
    var bs := EncodeTTL(t);
    assert u == t || u == t + TwoTo32;
    assert bs[0] as int == u / 0x100_0000 && bs[1] as int == u / 0x1_0000 % 256;
    assert bs[2] as int == u / 256 % 256 && bs[3] as int == u % 256;
    SplitFour(u);
  }

  /**
   * removeTrailingZeroes: the shortest prefix that keeps every non-zero
   * octet. The Java loop runs off the front of an all-zero array, which the
   * model reports as None.
   */
  function RemoveTrailingZeroes(q: seq<byte>): (r: Option<seq<byte>>)
    ensures r.None? <==> forall i :: 0 <= i < |q| ==> q[i] == 0
    ensures r.Some? ==> 0 < |r.value| <= |q| && r.value == q[..|r.value|]
    ensures r.Some? ==> r.value[|r.value| - 1] != 0
    ensures r.Some? ==> forall i :: |r.value| <= i < |q| ==> q[i] == 0
  {
    if |q| == 0 then None
    else if q[|q| - 1] == 0 then RemoveTrailingZeroes(q[..|q| - 1])
    else Some(q)
  }

  /** Padding content that ends in a non-zero octet and trimming it again gives the content back. */
  lemma {:induction false} RemovePadding(content: seq<byte>, padding: nat)
    requires |content| > 0 && content[|content| - 1] != 0
    ensures RemoveTrailingZeroes(content + Zeros(padding)) == Some(content)
  {
    var r := RemoveTrailingZeroes(content + Zeros(padding));
    assert (content + Zeros(padding))[|content| - 1] != 0;
    assert r.Some?;
    assert |r.value| == |content|;
  }

  /** Base-256 digits of a 32-bit value, most significant first. */
  lemma SplitFour(u: nat)
    requires u < TwoTo32
    ensures ((u / 0x100_0000 * 256 + u / 0x1_0000 % 256) * 256 + u / 256 % 256) * 256 + u % 256 == u
  {
    var a, b, c, d := u / 0x100_0000, u / 0x1_0000 % 256, u / 256 % 256, u % 256;
    assert u / 256 == (u / 0x1_0000) * 256 + c;
    assert u / 0x1_0000 == a * 256 + b;
    assert u == (u / 256) * 256 + d;
  }

  function Zeros(n: nat): (z: seq<byte>)
    ensures |z| == n && forall i :: 0 <= i < n ==> z[i] == 0
  {
    seq(n, _ => 0)
  }
}
