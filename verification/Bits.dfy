/** Fixed-width words as natural numbers, and the bit operations on them.
    A word of width `w` is a natural below `Pow2(w)`; bit 0 is the least significant. */
module Bits {

  type byte = x: int | 0 <= x < 256
  type u16 = x: int | 0 <= x < 0x1_0000
  type u32 = x: int | 0 <= x < 0x1_0000_0000

  function Min(a: nat, b: nat): nat { if a < b then a else b }

  function Pow2(n: nat): (p: nat)
    ensures p > 0
  {
    if n == 0 then 1 else 2 * Pow2(n - 1)
  }

  const WORD: int := 0x1_0000_0000

  lemma PowersOfTwo()
    ensures Pow2(8) == 0x100 && Pow2(16) == 0x1_0000 && Pow2(31) == 0x8000_0000 && Pow2(32) == WORD
    ensures Pow2(48) == 0x1_0000_0000_0000 && Pow2(64) == 0x1_0000_0000_0000_0000
  {
    assert Pow2(8) == 0x100;
    Pow2Add(8, 8);
    assert Pow2(16) == 0x100 * 0x100;
    Pow2Add(16, 16);
    assert Pow2(32) == 0x1_0000 * 0x1_0000;
    Pow2Add(16, 32);
    Pow2Add(32, 32);
    assert Pow2(32) == 2 * Pow2(31);
  }

  /** Bit `k` of `x`. */
  predicate Bit(x: nat, k: nat)
    decreases k
  {
    if k == 0 then x % 2 == 1 else Bit(x / 2, k - 1)
  }

  /** Bitwise `x & y`. */
  function And(x: nat, y: nat): (r: nat)
    ensures r <= x && r <= y
  {
    if x == 0 || y == 0 then 0 else 2 * And(x / 2, y / 2) + (if x % 2 == 1 && y % 2 == 1 then 1 else 0)
  }

  /** Bitwise `x | y`. */
  function Or(x: nat, y: nat): (r: nat)
    decreases x + y
  {
    if x == 0 then y else if y == 0 then x
    else 2 * Or(x / 2, y / 2) + (if x % 2 + y % 2 > 0 then 1 else 0)
  }

  /** `1 << k`, `!b` and `v << k` on one byte: bits shifted past bit 7 are lost. */
  function Shl8(v: byte, k: nat): byte { v * Pow2(k) % 256 }

  function Not8(b: byte): byte { 255 - b }

  lemma {:induction false} Pow2Add(a: nat, b: nat)
    ensures Pow2(a + b) == Pow2(a) * Pow2(b)
  {
    if a > 0 {
      Pow2Add(a - 1, b);
      assert Pow2(a + b) == 2 * Pow2(a - 1 + b);
    }
  }

  lemma {:induction false} Pow2Monotone(a: nat, b: nat)
    requires a <= b
    ensures Pow2(a) <= Pow2(b)
  {
    if a < b {
      Pow2Monotone(a, b - 1);
    }
  }

  lemma {:induction false} BitOfZero(k: nat)
    ensures !Bit(0, k)
  {
    if k > 0 {
      BitOfZero(k - 1);
    }
  }

  /** `&` acts on each bit separately. */
  lemma {:induction false} AndBit(x: nat, y: nat, k: nat)
    ensures Bit(And(x, y), k) == (Bit(x, k) && Bit(y, k))
    decreases k
  {
    if x == 0 || y == 0 {
      BitOfZero(k);
    } else if k > 0 {
      AndBit(x / 2, y / 2, k - 1);
      assert And(x, y) / 2 == And(x / 2, y / 2);
    }
  }

  /** Two words of the same width with the same bits are equal. */
  lemma {:induction false} SameBits(x: nat, y: nat, w: nat)
    requires x < Pow2(w) && y < Pow2(w)
    requires forall k: nat | k < w :: Bit(x, k) == Bit(y, k)
    ensures x == y
  {
    if w > 0 {
      assert Bit(x, 0) == Bit(y, 0);
      forall k: nat | k < w - 1
        ensures Bit(x / 2, k) == Bit(y / 2, k)
      {
        assert Bit(x, k + 1) == Bit(y, k + 1);
      }
      SameBits(x / 2, y / 2, w - 1);
    }
  }

  lemma HalfOfSum(low: nat, rest: nat)
    ensures (low + 2 * rest) % 2 == low % 2 && (low + 2 * rest) / 2 == low / 2 + rest
  {
  }

  /** The bits of a number written as a low part of `w` bits and a high part. */
  lemma {:induction false} BitOfParts(low: nat, high: nat, w: nat, k: nat)
    requires low < Pow2(w)
    ensures Bit(low + Pow2(w) * high, k) == if k < w then Bit(low, k) else Bit(high, k - w)
    decreases w
  {
    if w > 0 {
      var rest := Pow2(w - 1) * high;
      assert low + Pow2(w) * high == low + 2 * rest;
      HalfOfSum(low, rest);
      if k > 0 {
        BitOfParts(low / 2, high, w - 1, k - 1);
      }
    }
  }

  lemma ModHalf(x: nat, p: nat)
    requires p > 0
    ensures x % (2 * p) == 2 * (x / 2 % p) + x % 2
  {
    var q, r := x / 2 / p, x / 2 % p;
    assert x / 2 == p * q + r;
    assert x == 2 * p * q + (2 * r + x % 2);
    ModUnique(x, 2 * p, q, 2 * r + x % 2);
  }

  lemma ModUnique(x: int, m: nat, q: int, r: int)
    requires m > 0 && 0 <= r < m && x == m * q + r
    ensures x % m == r && x / m == q
  {
    var d := x / m - q;
    assert x == m * (x / m) + x % m;
    assert m * d == r - x % m by {
      assert m * d == m * (x / m) - m * q;
    }
  }

  /** One unfolding of `&`, whichever operand is zero. */
  lemma AndStep(x: nat, y: nat)
    ensures And(x, y) == 2 * And(x / 2, y / 2) + (if x % 2 == 1 && y % 2 == 1 then 1 else 0)
  {
  }

  /** One unfolding of `|`, whichever operand is zero. */
  lemma OrStep(x: nat, y: nat)
    ensures Or(x, y) == 2 * Or(x / 2, y / 2) + (if x % 2 == 1 || y % 2 == 1 then 1 else 0)
  {
  }

  lemma AndOnes(x: nat, m: nat)
    requires m > 0
    ensures And(x, 2 * m - 1) == 2 * And(x / 2, m - 1) + x % 2
  {
    AndStep(x, 2 * m - 1);
    assert (2 * m - 1) / 2 == m - 1 && (2 * m - 1) % 2 == 1;
  }

  lemma AndLowStep(x: nat, m: nat)
    requires m > 0 && And(x / 2, m - 1) == x / 2 % m
    ensures And(x, 2 * m - 1) == x % (2 * m)
  {
    AndOnes(x, m);
    ModHalf(x, m);
  }

  /** Low ones keep the remainder. */
  lemma {:induction false} AndLow(x: nat, n: nat)
    ensures And(x, Pow2(n) - 1) == x % Pow2(n)
    decreases n
  {
    if n > 0 {
      AndLow(x / 2, n - 1);
      AndLowStep(x, Pow2(n - 1));
    }
  }

  /** `x` with its low `n` bits cleared. */
  function High(x: nat, n: nat): (r: nat)
    ensures r <= x
    decreases n
  {
    if n == 0 then x else 2 * High(x / 2, n - 1)
  }

  /** `|` acts on each bit separately. */
  lemma {:induction false} OrBit(x: nat, y: nat, k: nat)
    ensures Bit(Or(x, y), k) == (Bit(x, k) || Bit(y, k))
    decreases k
  {
    var bit, half := if x % 2 == 1 || y % 2 == 1 then 1 else 0, Or(x / 2, y / 2);
    OrStep(x, y);
    HalfOfSum(bit, half);
    assert Or(x, y) % 2 == bit && Or(x, y) / 2 == half;
    if k > 0 {
      OrBit(x / 2, y / 2, k - 1);
    }
  }

  lemma {:induction false} BitAbove(x: nat, w: nat, k: nat)
    requires x < Pow2(w) && k >= w
    ensures !Bit(x, k)
    decreases k
  {
    if k > 0 {
      BitAbove(x / 2, if w == 0 then 0 else w - 1, k - 1);
    }
  }

  /** Complement flips every bit of a word. */
  lemma {:induction false} ComplementBit(x: nat, w: nat, k: nat)
    requires x < Pow2(w) && k < w
    ensures Bit(Pow2(w) - 1 - x, k) == !Bit(x, k)
    decreases w
  {
    var c := Pow2(w) - 1 - x;
    assert c / 2 == Pow2(w - 1) - 1 - x / 2 && c % 2 == 1 - x % 2;
    if k > 0 {
      ComplementBit(x / 2, w - 1, k - 1);
    }
  }

  lemma NotBit(b: byte, k: nat)
    requires k < 8
    ensures Bit(Not8(b), k) == !Bit(b, k)
  {
    assert Pow2(8) == 256;
    ComplementBit(b, 8, k);
  }

  /** Cutting a number down to `w` bits keeps them. */
  lemma {:induction false} BitOfLowPart(x: nat, w: nat, k: nat)
    requires k < w
    ensures Bit(x % Pow2(w), k) == Bit(x, k)
    decreases w
  {
    ModHalf(x, Pow2(w - 1));
    if k > 0 {
      BitOfLowPart(x / 2, w - 1, k - 1);
    }
  }

  lemma ShlBit(v: byte, s: nat, k: nat)
    requires k < 8
    ensures Bit(Shl8(v, s), k) == (k >= s && Bit(v, k - s))
  {
    BitOfParts(0, v, s, k);
    BitOfZero(k);
    assert Pow2(8) == 256;
    BitOfLowPart(v * Pow2(s), 8, k);
  }

  /** Clearing one bit of a byte, as `b &= !(1 << k)` does. */
  function ClearBit(b: byte, k: nat): (r: byte)
    requires k < 8
    ensures forall j: nat | j < 8 :: Bit(r, j) == (j != k && Bit(b, j))
  {
    forall j: nat | j < 8
      ensures Bit(And(b, Not8(Shl8(1, k))), j) == (j != k && Bit(b, j))
    {
      AndBit(b, Not8(Shl8(1, k)), j);
      NotBit(Shl8(1, k), j);
      ShlBit(1, k, j);
      if j > k { BitAbove(1, 1, j - k); }
    }
    And(b, Not8(Shl8(1, k)))
  }

  lemma {:induction false} OnesBits(w: nat, j: nat)
    requires j < w
    ensures Bit(Pow2(w) - 1, j)
  {
    assert (Pow2(w) - 1) % 2 == 1 && (Pow2(w) - 1) / 2 == Pow2(w - 1) - 1;
    if j > 0 {
      OnesBits(w - 1, j - 1);
    }
  }

  /** The bits of `w - n` ones above `n` zeros. */
  lemma {:induction false} HighOnesBits(w: nat, n: nat, j: nat)
    requires n <= w && j < w
    ensures Pow2(n) <= Pow2(w)
    ensures Bit(Pow2(w) - Pow2(n), j) == (j >= n)
  {
    Pow2Monotone(n, w);
    if n == 0 {
      OnesBits(w, j);
    } else {
      var x := Pow2(w) - Pow2(n);
      assert x % 2 == 0 && x / 2 == Pow2(w - 1) - Pow2(n - 1);
      if j > 0 {
        HighOnesBits(w - 1, n - 1, j - 1);
      }
    }
  }

  // ---- byte images ----

  /** The number a little-endian byte image stands for. */
  function FromLe(image: seq<byte>): (x: nat)
    ensures x < Pow2(8 * |image|)
  {
    if image == [] then 0
    else
      assert Pow2(8 * |image|) == 256 * Pow2(8 * |image[1..]|) by {
        Pow2Add(8, 8 * |image[1..]|);
        assert Pow2(8) == 256;
      }
      image[0] + 256 * FromLe(image[1..])
  }

  /** The `n`-byte little-endian image of `x`; higher bytes of `x` are dropped. */
  function ToLe(x: nat, n: nat): (image: seq<byte>)
    ensures |image| == n
  {
    if n == 0 then [] else [x % 256] + ToLe(x / 256, n - 1)
  }

  lemma {:induction false} FromToLe(x: nat, n: nat)
    requires x < Pow2(8 * n)
    ensures FromLe(ToLe(x, n)) == x
  {
    if n > 0 {
      assert Pow2(8 * n) == 256 * Pow2(8 * (n - 1)) by {
        Pow2Add(8, 8 * (n - 1));
        assert Pow2(8) == 256;
      }
      FromToLe(x / 256, n - 1);
      assert ToLe(x, n)[1..] == ToLe(x / 256, n - 1);
    }
  }

  lemma {:induction false} ToFromLe(image: seq<byte>)
    ensures ToLe(FromLe(image), |image|) == image
  {
    if image != [] {
      ToFromLe(image[1..]);
      assert FromLe(image) / 256 == FromLe(image[1..]);
    }
  }

  /** Bit `j` of an image, counted from the least significant end of its value. */
  predicate ImageBit(image: seq<byte>, j: nat)
    requires j < 8 * |image|
  {
    Bit(image[j / 8], j % 8)
  }

  lemma {:induction false} ImageBitIsValueBit(image: seq<byte>, j: nat)
    requires j < 8 * |image|
    ensures Bit(FromLe(image), j) == ImageBit(image, j)
  {
    assert Pow2(8) == 256;
    BitOfParts(image[0], FromLe(image[1..]), 8, j);
    if j >= 8 {
      ImageBitIsValueBit(image[1..], j - 8);
      assert (j - 8) / 8 == j / 8 - 1 && (j - 8) % 8 == j % 8;
      assert image[1..][(j - 8) / 8] == image[j / 8];
    }
  }
}
