/**
 * Bytes and the two byte-level operations the package codec is built from:
 * `slice` of a `Uint8Array`/`ArrayBuffer`, which clamps its bounds instead of
 * failing, and a 32-bit unsigned integer viewed through `Uint32Array`, whose
 * four bytes are laid out little-endian (host order on the platforms the
 * application runs on).
 */
module Bytes {

  newtype byte = x: int | 0 <= x < 256

  /** 2^32: `Uint32Array` stores its elements modulo this value. */
  const U32Modulus: nat := 0x1_0000_0000

  /** `view.slice(start, end)` for non-negative bounds: both bounds are clamped to the length, and a
      start past the end gives the empty slice. */
  function Slice(s: seq<byte>, start: nat, end: nat): (r: seq<byte>)
    ensures |r| == if start < end && start < |s| then (if end < |s| then end else |s|) - start else 0
    ensures end <= |s| && start <= end ==> r == s[start..end]
    ensures forall i :: 0 <= i < |r| ==> r[i] == s[start + i]
  {
    var lo := if start < |s| then start else |s|;
    var hi := if end < |s| then end else |s|;
    if lo < hi then s[lo..hi] else []
  }

  /** `buffer.slice(start)`: everything from `start` on, or nothing when `start` is past the end. */
  function SliceFrom(s: seq<byte>, start: nat): (r: seq<byte>)
    ensures r == Slice(s, start, |s|)
  {
    if start < |s| then s[start..] else []
  }

  /** The four bytes of `new Uint32Array([n]).buffer`: `n` reduced modulo 2^32, least significant
      byte first. */
  function U32LE(n: nat): (r: seq<byte>)
    ensures |r| == 4
  {
    var v := n % U32Modulus;
    [(v % 256) as byte, (v / 256 % 256) as byte, (v / 65536 % 256) as byte, (v / 16777216) as byte]
  }

  /** `new Uint32Array(b)[0]` for a 4-byte buffer: the little-endian value of its bytes. */
  function ReadU32LE(b: seq<byte>): (n: nat)
    requires |b| == 4
    ensures n < U32Modulus
  {
    b[0] as nat + 256 * b[1] as nat + 65536 * b[2] as nat + 16777216 * b[3] as nat
  }

  /** Reading back a written length gives the length modulo 2^32, so any length below 2^32
      survives the round trip unchanged. */
  lemma ReadU32LEOfU32LE(n: nat)
    ensures ReadU32LE(U32LE(n)) == n % U32Modulus
  {
    var v := n % U32Modulus;
    var b := U32LE(n);
    assert b[0] as int == v % 256;
    assert b[1] as int == v / 256 % 256;
    assert b[2] as int == v / 65536 % 256;
    assert b[3] as int == v / 16777216;
    assert v == v % 256 + 256 * (v / 256);
    assert v / 256 == v / 256 % 256 + 256 * (v / 65536);
    assert v / 65536 == v / 65536 % 256 + 256 * (v / 16777216);
  }

  /** Writing back a read value reproduces the four bytes: the encoding is a bijection between
      4-byte sequences and the naturals below 2^32. */
  lemma U32LEOfReadU32LE(b: seq<byte>)
    requires |b| == 4
    ensures U32LE(ReadU32LE(b)) == b
  {
    var v := ReadU32LE(b);
    var x0, x1, x2, x3 := b[0] as int, b[1] as int, b[2] as int, b[3] as int;
    assert v == x0 + 256 * (x1 + 256 * (x2 + 256 * x3));
    assert v % 256 == x0 && v / 256 == x1 + 256 * (x2 + 256 * x3);
    assert v / 65536 == (v / 256) / 256;
    assert v / 16777216 == (v / 65536) / 256;
    var r := U32LE(v);
    assert r[0] == b[0] && r[1] == b[1] && r[2] == b[2] && r[3] == b[3];
  }
}
