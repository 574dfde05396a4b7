/** Bytes, byte buffers and the unsigned machine widths the library computes with. */
module Bytes {

  type byte = b: int | 0 <= b < 256

  datatype Option<+T> = None | Some(value: T)

  const U32: nat := 0x1_0000_0000
  const U64: nat := 0x1_0000_0000_0000_0000

  /** One past the largest `off_t`: no file is longer and no seek goes further. */
  const OFF_LIMIT: nat := 0x8000_0000_0000_0000

  function Min(a: nat, b: nat): nat {
    if a < b then a else b
  }

  /** Addition of two `uint64_t`. */
  function Add64(a: nat, b: nat): nat {
    (a + b) % U64
  }

  function Zeros(n: nat): (z: seq<byte>)
    ensures |z| == n
    ensures forall i :: 0 <= i < n ==> z[i] == 0
  {
    seq(n, _ => 0)
  }

  /** `memcpy(s + at, d, |d|)` inside a buffer that is large enough. */
  function Blit(s: seq<byte>, at: nat, d: seq<byte>): (r: seq<byte>)
    requires at + |d| <= |s|
    ensures |r| == |s|
    ensures forall i :: 0 <= i < |r| ==> r[i] == if at <= i < at + |d| then d[i - at] else s[i]
  {
    s[..at] + d + s[at + |d|..]
  }

  /** A file write at a position: it may extend the file, and a gap reads as zeros. */
  function WriteAt(s: seq<byte>, at: nat, d: seq<byte>): (r: seq<byte>)
    ensures at + |d| <= |s| ==> r == Blit(s, at, d)
  {
    var grown := if |s| < at + |d| then s + Zeros(at + |d| - |s|) else s;
    Blit(grown, at, d)
  }

  /** Every byte after a write: the data in its place, the old bytes elsewhere, and zeros in a gap. */
  lemma WriteAtBytes(s: seq<byte>, at: nat, d: seq<byte>, i: nat)
    ensures |WriteAt(s, at, d)| == if |s| < at + |d| then at + |d| else |s|
    ensures i < |WriteAt(s, at, d)| ==>
              WriteAt(s, at, d)[i] == if at <= i < at + |d| then d[i - at] else if i < |s| then s[i] else 0
  {
  }
}
