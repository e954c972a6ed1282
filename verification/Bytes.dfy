/** Reading integers from a buffer, in bounds only. */
module Bytes {

  type Byte = n: nat | n < 256
  type Buffer = seq<Byte>

  function U16LE(b: Buffer, i: nat): (n: nat)
    requires i + 2 <= |b|
    ensures n < 0x1_0000
  {
    b[i] as int + 256 * (b[i + 1] as int)
  }

  function U32LE(b: Buffer, i: nat): (n: nat)
    requires i + 4 <= |b|
    ensures n < 0x1_0000_0000
  {
    U16LE(b, i) + 0x1_0000 * U16LE(b, i + 2)
  }

  function U64LE(b: Buffer, i: nat): (n: nat)
    requires i + 8 <= |b|
  {
    U32LE(b, i) + 0x1_0000_0000 * U32LE(b, i + 4)
  }

  function U32BE(b: Buffer, i: nat): (n: nat)
    requires i + 4 <= |b|
    ensures n < 0x1_0000_0000
  {
    0x100_0000 * (b[i] as int) + 0x1_0000 * (b[i + 1] as int) + 256 * (b[i + 2] as int) + b[i + 3] as int
  }

  /** Bit `k` of a number, given as its weight. */
  predicate Bit(n: nat, weight: nat)
    requires weight > 0
  {
    n / weight % 2 == 1
  }

  /** Byte `k` of the little-endian form of a number. */
  function ByteOf(n: nat, k: nat): Byte {
    if k == 0 then n % 256 else ByteOf(n / 256, k - 1)
  }

  lemma ReadsU16(b: Buffer, i: nat, n: nat)
    requires i + 2 <= |b| && n < 0x1_0000
    requires b[i] == ByteOf(n, 0) && b[i + 1] == ByteOf(n, 1)
    ensures U16LE(b, i) == n
  {
    assert ByteOf(n, 1) == ByteOf(n / 256, 0) == n / 256;
  }

  lemma ReadsU32(b: Buffer, i: nat, n: nat)
    requires i + 4 <= |b| && n < 0x1_0000_0000
    requires forall k :: 0 <= k < 4 ==> b[i + k] == ByteOf(n, k)
    ensures U32LE(b, i) == n
  {
    var low, high := n % 0x1_0000, n / 0x1_0000;
    assert b[i + 0] == ByteOf(n, 0) && b[i + 1] == ByteOf(n, 1) && b[i + 2] == ByteOf(n, 2) && b[i + 3] == ByteOf(n, 3);
    var q := n / 256;
    assert ByteOf(n, 1) == ByteOf(q, 0);
    assert ByteOf(n, 2) == ByteOf(q, 1) == ByteOf(q / 256, 0);
    assert ByteOf(n, 3) == ByteOf(q, 2) == ByteOf(q / 256, 1) == ByteOf(q / 256 / 256, 0);
    assert n == 256 * q + n % 256 && q == 256 * (q / 256) + q % 256;
    assert q / 256 == 256 * (q / 256 / 256) + q / 256 % 256;
    assert q / 256 / 256 < 256;
  }
}
