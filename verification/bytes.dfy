/** Bytes and the byte-string literals `b"..."` the firmware embeds. */
module Bytes {

  type byte = x: int | 0 <= x < 256

  /** True when every character of `s` fits in one byte. */
  predicate FitsInBytes(s: string) {
    forall i :: 0 <= i < |s| ==> s[i] as int < 256
  }

  /** The byte string `b"s"`: one byte per character, in order. */
  function Ascii(s: string): (r: seq<byte>)
    requires FitsInBytes(s)
    ensures |r| == |s|
    ensures forall i :: 0 <= i < |s| ==> r[i] == s[i] as int
  {
    seq(|s|, i requires 0 <= i < |s| => s[i] as int as byte)
  }
}
