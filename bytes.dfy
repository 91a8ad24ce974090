/** Bytes (uint8_t) and the exclusive-or reduction of a byte sequence: the
    one-byte checksum the receive window of ohc.c keeps up to date byte by
    byte. Bytes are the integers 0..255; the checksum register is an 8-bit
    vector, so that `^` is the machine's exclusive or. */
module Bytes {

  newtype byte = x: int | 0 <= x < 256

  /** A checksum value: packet_checksum, 8 bits wide. */
  type sum = bv8

  /** The bits of a byte, as the XOR operator sees them. */
  function Bits(b: byte): sum
  {
    b as sum
  }

  /** XOR of all bytes of `s`; 0 for the empty sequence. */
  function XorAll(s: seq<byte>): sum
  {
    if |s| == 0 then 0 else Bits(s[0]) ^ XorAll(s[1..])
  }

  /** The checksum of a concatenation is the XOR of the parts' checksums. */
  lemma {:induction false} XorAppend(a: seq<byte>, b: seq<byte>)
    ensures XorAll(a + b) == XorAll(a) ^ XorAll(b)
  {
    if |a| == 0 {
      assert a + b == b;
    } else {
      assert (a + b)[1..] == a[1..] + b;
      XorAppend(a[1..], b);
    }
  }

  /** An all-zero buffer (the power-on state of the C globals) has checksum 0. */
  lemma {:induction false} XorZeros(s: seq<byte>)
    requires forall i :: 0 <= i < |s| ==> s[i] == 0
    ensures XorAll(s) == 0
  {
    if |s| > 0 {
      XorZeros(s[1..]);
    }
  }

  /** Replacing one byte changes the checksum by XORing the old byte out and
      the new byte in: the incremental update the receive handler performs. */
  lemma XorUpdate(s: seq<byte>, i: nat, v: byte)
    requires i < |s|
    ensures XorAll(s[i := v]) == XorAll(s) ^ Bits(s[i]) ^ Bits(v)
  {
    var pre, post := s[..i], s[i + 1..];
    assert s == pre + ([s[i]] + post);
    assert s[i := v] == pre + ([v] + post);
    XorAppend(pre, [s[i]] + post);
    XorAppend(pre, [v] + post);
    assert ([s[i]] + post)[1..] == post;
    assert ([v] + post)[1..] == post;
  }

  /** Rotating a sequence does not change its checksum, so the window read
      oldest-first has the checksum of the buffer in storage order. */
  lemma XorRotate(s: seq<byte>, k: nat)
    requires k <= |s|
    ensures XorAll(s[k..] + s[..k]) == XorAll(s)
  {
    XorAppend(s[k..], s[..k]);
    XorAppend(s[..k], s[k..]);
    assert s[..k] + s[k..] == s;
  }
}
