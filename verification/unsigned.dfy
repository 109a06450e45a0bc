/**
  Unsigned integers u8, u16, u32, u64 (and usize through the alias macro):
  16 buckets, one round per nibble, round r reading `(x >> 4r) & 15`.
  A value of width w is a natural number below 2^w.
 */
module Unsigned {
  import opened Codec
  import opened Arith

  /** The unsigned integer widths of the crate. */
  datatype Width = W8 | W16 | W32 | W64 {

    function Bits(): nat {
      match this
      case W8 => 8
      case W16 => 16
      case W32 => 32
      case W64 => 64
    }

    /** `cfg_nrounds` of the unsigned type of this width. */
    function Rounds(): nat {
      match this
      case W8 => 2
      case W16 => 4
      case W32 => 8
      case W64 => 16
    }
  }

  function Pow2(k: nat): (p: nat)
    ensures p >= 1
  {
    if k == 0 then 1 else 2 * Pow2(k - 1)
  }

  function Pow16(k: nat): (p: nat)
    ensures p >= 1
  {
    if k == 0 then 1 else 16 * Pow16(k - 1)
  }

  /** A value representable in the given width. */
  predicate InRange(w: Width, x: nat) {
    x < Pow2(w.Bits())
  }

  /** `(x >> (r << 2)) & 15`: a right shift by 4r bits is a division by 16^r. */
  function Nibble(x: nat, r: nat): nat {
    (x / Pow16(r)) % 16
  }

  /** The codec of an unsigned integer type of width w. */
  function UnsignedCodec(w: Width): Codec<nat> {
    Codec(16, w.Rounds(), (x: nat, r: nat) => Nibble(x, r), (r: nat, b: nat) => false)
  }

  /** The number a digit sequence stands for: the sum of digit(x, r) * 16^r over rounds r < k. */
  function Rebuild(c: Codec<nat>, x: nat, k: nat): nat {
    if k == 0 then 0 else Rebuild(c, x, k - 1) + c.digit(x, k - 1) * Pow16(k - 1)
  }

  /** usize takes the unsigned codec that matches the target's pointer width. */
  datatype PointerWidth = P16 | P32 | P64

  function PointerWidthBits(pw: PointerWidth): Width {
    match pw
    case P16 => W16
    case P32 => W32
    case P64 => W64
  }

  /** `rdx_alias!(usize = u16 / u32 / u64)`; the `as` conversion keeps the value. */
  function UsizeCodec(pw: PointerWidth): Codec<nat> {
    Alias(UnsignedCodec(PointerWidthBits(pw)), (x: nat) => x)
  }

  lemma {:induction false} Pow2Pow16(k: nat)
    ensures Pow2(4 * k) == Pow16(k)
  {
    if k > 0 {
      Pow2Pow16(k - 1);
      var j := 4 * (k - 1);
      assert Pow2(j + 4) == 2 * Pow2(j + 3) == 4 * Pow2(j + 2) == 8 * Pow2(j + 1) == 16 * Pow2(j);
    }
  }

  /** 2^32, the bound of u32. */
  lemma Pow2Of32()
    ensures Pow2(32) == 4294967296
  {
    Pow2Pow16(8);
    assert Pow16(8) == 4294967296;
  }

  /** x mod 16^(k+1) is the nibble of round k followed by x mod 16^k. */
  lemma NibbleSplit(x: nat, k: nat)
    ensures x % Pow16(k + 1) == Nibble(x, k) * Pow16(k) + x % Pow16(k)
  {
    var p := Pow16(k);
    var q, m := x / p, x % p;
    var hi, d := q / 16, q % 16;
    assert x == q * p + m;
    assert q == hi * 16 + d;
    assert x == hi * (16 * p) + (d * p + m) by {
      calc {
        x;
        q * p + m;
        (hi * 16 + d) * p + m;
        hi * (16 * p) + (d * p + m);
      }
    }
    MulLe(d, 15, p);
    assert Pow16(k + 1) == 16 * p;
    ModUnique(x, 16 * p, hi, d * p + m);
  }

  lemma {:induction false} RebuildMod(w: Width, x: nat, k: nat)
    ensures Rebuild(UnsignedCodec(w), x, k) == x % Pow16(k)
  {
    if k > 0 {
      RebuildMod(w, x, k - 1);
      NibbleSplit(x, k - 1);
    }
  }

  /** Comparing nibbles from round k-1 down is comparing the low 4k bits as numbers. */
  lemma {:induction false} NibbleOrder(w: Width, x: nat, y: nat, k: nat)
    ensures CmpBelow(UnsignedCodec(w), x, y, k) == IntCmp(x % Pow16(k), y % Pow16(k))
  {
    if k > 0 {
      var c := UnsignedCodec(w);
      NibbleOrder(w, x, y, k - 1);
      NibbleSplit(x, k - 1);
      NibbleSplit(y, k - 1);
      var p := Pow16(k - 1);
      assert c.digit(x, k - 1) == Nibble(x, k - 1) && c.digit(y, k - 1) == Nibble(y, k - 1);
      PositionalCmp(Nibble(x, k - 1), Nibble(y, k - 1), x % p, y % p, p);
    }
  }

  /** Two-digit positional numbers compare by their high digit first. */
  lemma PositionalCmp(dx: nat, dy: nat, a: nat, b: nat, p: nat)
    requires a < p && b < p
    ensures IntCmp(dx * p + a, dy * p + b)
         == (if dx < dy then Less else if dx > dy then Greater else IntCmp(a, b))
  {
    if dx < dy {
      MulLe(dx + 1, dy, p);
      assert (dx + 1) * p == dx * p + p;
    } else if dx > dy {
      MulLe(dy + 1, dx, p);
      assert (dy + 1) * p == dy * p + p;
    }
  }

  /**
    Unsigned codecs use 16 buckets and bit-width / 4 rounds, every digit is
    below 16 and no bucket is ever reversed.
   */
  lemma UnsignedShape(w: Width)
    ensures UnsignedCodec(w).nbuckets == 16
    ensures 4 * UnsignedCodec(w).nrounds == w.Bits()
    ensures Valid(UnsignedCodec(w))
    ensures ReverseFree(UnsignedCodec(w))
  {
  }

  /** A value of width w is rebuilt from its nibbles: x = sum of digit(x, r) * 16^r over all rounds. */
  lemma UnsignedRebuild(w: Width, x: nat)
    requires InRange(w, x)
    ensures Rebuild(UnsignedCodec(w), x, UnsignedCodec(w).nrounds) == x
  {
    var k := w.Rounds();
    assert w.Bits() == 4 * k;
    Pow2Pow16(k);
    RebuildMod(w, x, k);
    ModUnique(x, Pow16(k), 0, x);
  }

  /** Digit comparison from the top round down is numeric comparison. */
  lemma UnsignedOrder(w: Width, x: nat, y: nat)
    requires InRange(w, x) && InRange(w, y)
    ensures KeyCmp(UnsignedCodec(w), x, y) == IntCmp(x, y)
  {
    var k := w.Rounds();
    assert w.Bits() == 4 * k;
    Pow2Pow16(k);
    NibbleOrder(w, x, y, k);
    ModUnique(x, Pow16(k), 0, x);
    ModUnique(y, Pow16(k), 0, y);
  }

  /** usize is ordered as a number, with the codec of its pointer width. */
  lemma UsizeOrder(pw: PointerWidth, x: nat, y: nat)
    requires InRange(PointerWidthBits(pw), x) && InRange(PointerWidthBits(pw), y)
    ensures UsizeCodec(pw).nbuckets == 16
    ensures UsizeCodec(pw).nrounds == PointerWidthBits(pw).Bits() / 4
    ensures Valid(UsizeCodec(pw)) && ReverseFree(UsizeCodec(pw))
    ensures KeyCmp(UsizeCodec(pw), x, y) == IntCmp(x, y)
  {
    var w := PointerWidthBits(pw);
    AliasFacts(UnsignedCodec(w), (x: nat) => x, x, y);
    UnsignedOrder(w, x, y);
  }
}
