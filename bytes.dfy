/** Bytes of the loaded image and Python's slicing of them. */
module Bytes {

  /** Indexing a Python `bytes` object yields an int in 0..255. */
  type Byte = x: int | 0 <= x < 256

  /** A one-bit mask 2^k, k < 8. */
  predicate IsBitMask(mask: nat) {
    mask == 1 || mask == 2 || mask == 4 || mask == 8 || mask == 16 || mask == 32 || mask == 64 || mask == 128
  }

  /** `b & mask != 0` for a one-bit mask: the bit of b that mask selects is set. */
  predicate HasFlag(b: Byte, mask: nat)
    requires IsBitMask(mask)
  {
    (b / mask) % 2 == 1
  }


  function Min(a: int, b: int): int {
    if a < b then a else b
  }

  /** Python's `s[lo:hi]` for non-negative bounds: the upper bound clamps at the end of `s`,
      and a range that is empty or starts past the end gives the empty sequence. */
  function Slice<T>(s: seq<T>, lo: nat, hi: nat): (r: seq<T>)
    ensures |r| == if hi <= lo || |s| <= lo then 0 else Min(hi, |s|) - lo
    ensures lo <= hi ==> |r| <= hi - lo
    ensures lo <= hi <= |s| ==> r == s[lo..hi]
    ensures forall k :: 0 <= k < |r| ==> r[k] == s[lo + k]
  {
    if hi <= lo || |s| <= lo then [] else s[lo..Min(hi, |s|)]
  }
}
