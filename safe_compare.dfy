/** Byte-sequence comparison: the `timingSafeEqual` wrapper and the Node primitive it guards. */
module SafeCompare {
  import opened Common

  /** The OR of the XOR of every byte pair: it is zero exactly when no pair differs,
      and it visits every pair whatever the contents. */
  function DiffBits(a: seq<byte>, b: seq<byte>): (d: bv8)
    requires |a| == |b|
    ensures d == 0 <==> a == b
    decreases |a|
  {
    if |a| == 0 then 0
    else
      assert a == b <==> a[0] == b[0] && a[1..] == b[1..] by {
        assert a == [a[0]] + a[1..] && b == [b[0]] + b[1..];
      }
      (a[0] ^ b[0]) | DiffBits(a[1..], b[1..])
  }

  /** `crypto.timingSafeEqual`: Node throws unless both buffers have the same length,
      so that is demanded of every caller. */
  function ConstantTimeEquals(a: seq<byte>, b: seq<byte>): (r: bool)
    requires |a| == |b|
    ensures r <==> a == b
  {
    DiffBits(a, b) == 0
  }

  /** `timingSafeEqual` (src/utils/security.js:20-25): buffers of different lengths are
      unequal before any byte is compared; otherwise the primitive decides. */
  function TimingSafeEqual(a: seq<byte>, b: seq<byte>): (r: bool)
    ensures r <==> a == b
    ensures |a| != |b| ==> !r
  {
    if |a| != |b| then false else ConstantTimeEquals(a, b)
  }
}
