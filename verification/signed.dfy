/**
  Signed integers i8, i16, i32, i64 (and isize through the alias macro).
  The lower rounds read the nibbles of the two's-complement bit pattern, as
  the unsigned codec of the same width does; one extra top round splits the
  values into MIN, the other negatives, and the non-negatives.
 */
module Signed {
  import opened Codec
  import opened Unsigned
  import opened Arith

  function MinValue(w: Width): int {
    -(Pow2(w.Bits() - 1) as int)
  }

  function MaxValue(w: Width): int {
    Pow2(w.Bits() - 1) - 1
  }

  /** A value of the signed type of width w. */
  predicate InRangeSigned(w: Width, x: int) {
    MinValue(w) <= x <= MaxValue(w)
  }

  /** `transmute` to the unsigned type of the same width: x modulo 2^w. */
  function TwosComplement(w: Width, x: int): nat {
    x % Pow2(w.Bits())
  }

  /** The extra top round: bucket 0 for MIN, 2 for x >= 0, 1 for the other negatives. */
  function SignBucket(w: Width, x: int): nat {
    if x == MinValue(w) then 0
    else if x >= 0 then 2
    else 1
  }

  /** The codec of the signed integer type of width w, built on the unsigned one. */
  function SignedCodec(w: Width): Codec<int> {
    Codec(
      Max(UnsignedCodec(w).nbuckets, 3),
      UnsignedCodec(w).nrounds + 1,
      (x: int, r: nat) => SignedDigit(w, x, r),
      (r: nat, b: nat) => false)
  }

  /** `get_bucket`: the unsigned digit of the bit pattern below the top round, the sign bucket at it. */
  function SignedDigit(w: Width, x: int, r: nat): nat {
    if r < UnsignedCodec(w).nrounds then UnsignedCodec(w).digit(TwosComplement(w, x), r)
    else SignBucket(w, x)
  }

  /** `rdx_alias!(isize = i16 / i32 / i64)`. */
  function IsizeCodec(pw: PointerWidth): Codec<int> {
    Alias(SignedCodec(PointerWidthBits(pw)), (x: int) => x)
  }

  /**
    Signed codecs use max(16, 3) = 16 buckets and one round more than the
    unsigned codec of the same width; the top digit is below 3 and no bucket
    is ever reversed.
   */
  lemma SignedShape(w: Width)
    ensures SignedCodec(w).nbuckets == 16
    ensures SignedCodec(w).nrounds == UnsignedCodec(w).nrounds + 1
    ensures forall x: int :: SignedCodec(w).digit(x, w.Rounds()) < 3
    ensures Valid(SignedCodec(w))
    ensures ReverseFree(SignedCodec(w))
  {
    var c := SignedCodec(w);
    assert c.nbuckets == 16;
    forall x: int, r: nat
      ensures c.digit(x, r) < 16 && (r >= w.Rounds() ==> c.digit(x, r) < 3)
    {
      SignedDigitBound(w, x, r);
    }
  }

  lemma SignedDigitBound(w: Width, x: int, r: nat)
    ensures SignedDigit(w, x, r) < 16
    ensures r >= w.Rounds() ==> SignedDigit(w, x, r) < 3
  {
    if r < w.Rounds() {
      assert SignedDigit(w, x, r) == Nibble(TwosComplement(w, x), r);
    }
  }

  /** Below the top round the signed digits are the unsigned digits of the bit pattern. */
  lemma LowRounds(w: Width, x: int, y: int)
    ensures CmpBelow(SignedCodec(w), x, y, w.Rounds())
         == IntCmp(TwosComplement(w, x), TwosComplement(w, y))
  {
    var k := w.Rounds();
    var tx, ty := TwosComplement(w, x), TwosComplement(w, y);
    var p := Pow16(k);
    assert Pow2(w.Bits()) == p by {
      assert w.Bits() == 4 * k;
      Pow2Pow16(k);
    }
    assert tx % p == tx && ty % p == ty by {
      ModUnique(tx, p, 0, tx);
      ModUnique(ty, p, 0, ty);
    }
    assert CmpBelow(SignedCodec(w), x, y, k) == CmpBelow(UnsignedCodec(w), tx, ty, k) by {
      CmpBelowDigits(SignedCodec(w), UnsignedCodec(w), x, y, tx, ty, k);
    }
    NibbleOrder(w, tx, ty, k);
  }

  /** The bit pattern of a non-negative value is the value, that of a negative one is x + 2^w. */
  lemma PatternOf(w: Width, x: int)
    requires InRangeSigned(w, x)
    ensures x >= 0 ==> TwosComplement(w, x) == x
    ensures x < 0 ==> TwosComplement(w, x) == x + Pow2(w.Bits())
  {
    var m := Pow2(w.Bits());
    assert m == 2 * Pow2(w.Bits() - 1);
    if x >= 0 {
      ModUnique(x, m, 0, x);
    } else {
      ModUnique(x, m, -1, x + m);
    }
  }

  /** Digit comparison from the top (sign) round down is numeric comparison, MIN included. */
  lemma SignedOrder(w: Width, x: int, y: int)
    requires InRangeSigned(w, x) && InRangeSigned(w, y)
    ensures KeyCmp(SignedCodec(w), x, y) == IntCmp(x, y)
  {
    var c := SignedCodec(w);
    var k := w.Rounds();
    var sx, sy := SignBucket(w, x), SignBucket(w, y);
    var tx, ty := TwosComplement(w, x), TwosComplement(w, y);
    assert KeyCmp(c, x, y) == (if sx < sy then Less else if sx > sy then Greater else CmpBelow(c, x, y, k)) by {
      assert c.digit(x, k) == sx && c.digit(y, k) == sy;
      assert c.nrounds == k + 1;
    }
    assert CmpBelow(c, x, y, k) == IntCmp(tx, ty) by {
      LowRounds(w, x, y);
    }
    assert IntCmp(x, y) == (if sx < sy then Less else if sx > sy then Greater else IntCmp(tx, ty)) by {
      PatternOf(w, x);
      PatternOf(w, y);
      SignCases(w, x, y);
    }
  }

  /**
    The sign bucket orders values of different classes; within a class the
    bit patterns are ordered as the values.
   */
  lemma SignCases(w: Width, x: int, y: int)
    requires InRangeSigned(w, x) && InRangeSigned(w, y)
    requires x >= 0 ==> TwosComplement(w, x) == x
    requires x < 0 ==> TwosComplement(w, x) == x + Pow2(w.Bits())
    requires y >= 0 ==> TwosComplement(w, y) == y
    requires y < 0 ==> TwosComplement(w, y) == y + Pow2(w.Bits())
    ensures IntCmp(x, y) == (
      var sx, sy := SignBucket(w, x), SignBucket(w, y);
      if sx < sy then Less else if sx > sy then Greater
      else IntCmp(TwosComplement(w, x), TwosComplement(w, y)))
  {
  }

  /** isize is ordered as a number, with the codec of its pointer width. */
  lemma IsizeOrder(pw: PointerWidth, x: int, y: int)
    requires InRangeSigned(PointerWidthBits(pw), x) && InRangeSigned(PointerWidthBits(pw), y)
    ensures IsizeCodec(pw).nbuckets == 16
    ensures IsizeCodec(pw).nrounds == PointerWidthBits(pw).Bits() / 4 + 1
    ensures Valid(IsizeCodec(pw)) && ReverseFree(IsizeCodec(pw))
    ensures KeyCmp(IsizeCodec(pw), x, y) == IntCmp(x, y)
  {
    var w := PointerWidthBits(pw);
    var c := SignedCodec(w);
    assert c.nbuckets == 16 && c.nrounds == w.Bits() / 4 + 1 && Valid(c) && ReverseFree(c) by {
      SignedShape(w);
    }
    assert KeyCmp(c, x, y) == IntCmp(x, y) by {
      SignedOrder(w, x, y);
    }
    AliasFacts(c, (x: int) => x, x, y);
  }
}
