/**
  char: the unsigned 32-bit codec applied to the Unicode code point
  (16 buckets, 8 rounds).  Like bool, the `RdxSortTemplate` implementation
  defines no `reverse`; it is fitted into the codec record with reverse = false.
 */
module Char {
  import opened Codec
  import opened Unsigned

  function CodePoint(ch: char): nat {
    ch as int
  }

  /** `((ch as u32) >> 4r) & 15`. */
  function CharCodec(): Codec<char> {
    Codec(16, 8, (ch: char, r: nat) => Nibble(CodePoint(ch), r), (r: nat, k: nat) => false)
  }

  /** Every code point fits in 32 bits. */
  lemma CodePointInRange(ch: char)
    ensures InRange(W32, CodePoint(ch))
  {
    Pow2Of32();
  }

  /**
    The char codec is the u32 codec on the code point: same shape, same
    digits; hence valid, reverse-free, rebuilding the code point from its 8
    nibbles and ordering characters by code point.
   */
  lemma CharIsU32(ch: char, other: char)
    ensures CharCodec().nbuckets == 16 && CharCodec().nrounds == 8
    ensures forall r: nat :: CharCodec().digit(ch, r) == UnsignedCodec(W32).digit(CodePoint(ch), r)
    ensures Valid(CharCodec()) && ReverseFree(CharCodec())
    ensures Rebuild(UnsignedCodec(W32), CodePoint(ch), CharCodec().nrounds) == CodePoint(ch)
    ensures KeyCmp(CharCodec(), ch, other) == IntCmp(CodePoint(ch), CodePoint(other))
  {
    CodePointInRange(ch);
    CodePointInRange(other);
    UnsignedRebuild(W32, CodePoint(ch));
    CmpBelowDigits(CharCodec(), UnsignedCodec(W32), ch, other, CodePoint(ch), CodePoint(other), 8);
    UnsignedOrder(W32, CodePoint(ch), CodePoint(other));
  }
}
