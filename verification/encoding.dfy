/** Fixed-width integers and the byte strings the containers build their storage
    keys from (`indexToKey`, `u8ArrayToBytes`, `bytesToU8Array`). */
module Encoding {

  type byte = x: int | 0 <= x < 256

  const U32_LIMIT: int := 0x1_0000_0000

  type u32 = x: int | 0 <= x < U32_LIMIT

  /** The conversion a `Uint32Array` applies to a number stored in it (ToUint32):
      reduction modulo 2^32. Dafny's `%` is Euclidean, so a negative index wraps
      around exactly as it does in JavaScript. */
  function ToUint32(x: int): (r: u32)
    ensures 0 <= x < U32_LIMIT ==> r == x
    ensures x < 0 && -U32_LIMIT <= x ==> r == x + U32_LIMIT
  {
    x % U32_LIMIT
  }

  /** The four bytes of `x` in little-endian order, as the buffer of a one-element
      `Uint32Array` holds them. */
  function Le4(x: u32): (b: seq<byte>)
    ensures |b| == 4
  {
    var q1 := x / 256;
    var q2 := q1 / 256;
    [x % 256, q1 % 256, q2 % 256, q2 / 256]
  }

  /** The first element of a `Uint32Array` viewing the given bytes. */
  function FromLe4(b: seq<byte>): (x: u32)
    requires |b| >= 4
  {
    b[0] as int + 256 * (b[1] as int + 256 * (b[2] as int + 256 * b[3] as int))
  }

  lemma Le4RoundTrip(x: u32)
    ensures FromLe4(Le4(x)) == x
  {
    var q1 := x / 256;
    var q2 := q1 / 256;
    assert x == x % 256 + 256 * q1;
    assert q1 == q1 % 256 + 256 * q2;
    assert q2 == q2 % 256 + 256 * (q2 / 256);
  }

  /** The low byte and the rest of `lo + 256 * hi`. */
  lemma SplitByte(lo: byte, hi: nat)
    ensures (lo + 256 * hi) % 256 == lo && (lo + 256 * hi) / 256 == hi
  {
  }

  lemma FromLe4RoundTrip(b: seq<byte>)
    requires |b| == 4
    ensures Le4(FromLe4(b)) == b
  {
    var u: nat := b[2] as int + 256 * b[3] as int;
    var t: nat := b[1] as int + 256 * u;
    SplitByte(b[0], t);
    SplitByte(b[1], u);
    SplitByte(b[2], b[3]);
  }

  lemma Le4Injective(x: u32, y: u32)
    ensures Le4(x) == Le4(y) ==> x == y
  {
    Le4RoundTrip(x);
    Le4RoundTrip(y);
  }

  /** `u8ArrayToBytes`: one character per byte, with the byte as its code. */
  function U8ArrayToBytes(a: seq<byte>): (s: string)
    ensures |s| == |a|
    ensures forall i | 0 <= i < |a| :: s[i] as int == a[i]
  {
    if |a| == 0 then "" else [a[0] as char] + U8ArrayToBytes(a[1..])
  }

  /** `bytesToU8Array`: each character code, truncated to a byte as storing it in
      a `Uint8Array` does. */
  function BytesToU8Array(s: string): (a: seq<byte>)
    ensures |a| == |s|
    ensures forall i | 0 <= i < |s| :: a[i] == s[i] as int % 256
  {
    seq(|s|, i requires 0 <= i < |s| => s[i] as int % 256)
  }

  lemma BytesRoundTrip(a: seq<byte>)
    ensures BytesToU8Array(U8ArrayToBytes(a)) == a
  {
  }

  lemma U8ArrayToBytesInjective(a: seq<byte>, b: seq<byte>)
    ensures U8ArrayToBytes(a) == U8ArrayToBytes(b) ==> a == b
  {
    BytesRoundTrip(a);
    BytesRoundTrip(b);
  }
}
