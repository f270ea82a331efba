/** 64-bit machine words (the `block_t` of the source, an unsigned 64-bit integer) and the
    bitwise operations the packed structures use on them.

    A word is an integer in [0, 2^64). Bitwise AND/OR/NOT and the shifts are defined on the
    numbers themselves, and each one is specified bit by bit through `Bit(x, j)`, the j-th
    binary digit of x. Two words with the same bits are equal (`WordExt`), so every
    word-level fact is proved one bit position at a time.

    The hardware intrinsics `__builtin_ctzll` and `__builtin_clzll` are specified
    mathematically: `Ctz` is the position of the lowest set bit and `Clz` the number of zero
    bits above the highest set bit of a 64-bit word. */
module Words {

  const WORD_BITS: nat := 64
  const TWO_64: int := 0x1_0000_0000_0000_0000

  type Word = x: int | 0 <= x < TWO_64

  /** The largest value of the source's 32-bit `int`, which holds vertex counts and ids. */
  const INT_MAX: int := 0x7fff_ffff

  // ---------------------------------------------------------------------------------------
  // Powers of two and two arithmetic facts

  function Pow2(k: nat): (r: nat)
    ensures r >= 1
  {
    if k == 0 then 1 else 2 * Pow2(k - 1)
  }

  lemma {:induction false} Pow2Add(a: nat, b: nat)
    ensures Pow2(a + b) == Pow2(a) * Pow2(b)
  {
    if a > 0 {
      Pow2Add(a - 1, b);
      assert Pow2(a + b) == 2 * Pow2(a - 1 + b);
    }
  }

  lemma Pow2Is2To64()
    ensures Pow2(64) == TWO_64
  {
    Pow2Is2To32();
    Pow2Add(32, 32);
  }

  lemma Pow2Is2To32()
    ensures Pow2(32) == 0x1_0000_0000
  {
    Pow2Is2To16();
    Pow2Add(16, 16);
  }

  lemma Pow2Is2To16()
    ensures Pow2(16) == 0x1_0000
  {
    assert Pow2(8) == 256;
    Pow2Add(8, 8);
  }

  lemma {:induction false} Pow2Monotone(a: nat, b: nat)
    requires a <= b
    ensures Pow2(a) <= Pow2(b)
    ensures a < b ==> 2 * Pow2(a) <= Pow2(b)
  {
    if a < b {
      Pow2Monotone(a, b - 1);
    }
  }

  lemma {:induction false} MulAtLeast(d: int, k: int)
    requires d > 0 && k >= 1
    ensures d * k >= d
  {
    if k > 1 {
      MulAtLeast(d, k - 1);
      assert d * k == d * (k - 1) + d;
    }
  }

  /** Euclidean division has only one quotient and remainder. */
  lemma DivModUnique(a: int, d: int, q: int, r: int)
    requires d > 0 && a == d * q + r && 0 <= r < d
    ensures a / d == q && a % d == r
  {
    var q0, r0 := a / d, a % d;
    assert a == d * q0 + r0;
    if q0 < q {
      assert d * (q - q0) == d * q - d * q0;
      MulAtLeast(d, q - q0);
    } else if q0 > q {
      assert d * (q0 - q) == d * q0 - d * q;
      MulAtLeast(d, q0 - q);
    }
  }

  // ---------------------------------------------------------------------------------------
  // Bits

  /** Bit j of x: the j-th binary digit, counting from the least significant one. */
  predicate Bit(x: nat, j: nat)
  {
    if j == 0 then x % 2 == 1 else Bit(x / 2, j - 1)
  }

  lemma {:induction false} BitZero(j: nat)
    ensures !Bit(0, j)
  {
    if j > 0 {
      BitZero(j - 1);
    }
  }

  lemma BitOne()
    ensures forall j: nat :: Bit(1, j) == (j == 0)
  {
    forall j: nat
      ensures Bit(1, j) == (j == 0)
    {
      BitPow2(0, j);
    }
  }

  lemma {:induction false} BitPow2(k: nat, j: nat)
    ensures Bit(Pow2(k), j) == (j == k)
  {
    if j == 0 {
    } else if k == 0 {
      BitZero(j - 1);
    } else {
      BitPow2(k - 1, j - 1);
    }
  }

  /** A number below 2^n has no bit at position n or above. */
  lemma {:induction false} BitAbove(x: nat, n: nat, j: nat)
    requires x < Pow2(n) && n <= j
    ensures !Bit(x, j)
  {
    if n == 0 {
      assert x == 0;
      BitZero(j);
    } else {
      BitAbove(x / 2, n - 1, j - 1);
    }
  }

  /** A set bit at position k makes the number at least 2^k. */
  lemma {:induction false} BitAtLeast(x: nat, k: nat)
    requires Bit(x, k)
    ensures Pow2(k) <= x
  {
    if k > 0 {
      BitAtLeast(x / 2, k - 1);
    }
  }

  /** A number with no bit at position k or above is below 2^k. */
  lemma {:induction false} NoBitAbove(x: nat, k: nat)
    requires forall j: nat :: k <= j ==> !Bit(x, j)
    ensures x < Pow2(k)
  {
    if k == 0 {
      if x != 0 {
        var c := Ctz(x);
      }
    } else {
      forall j: nat | k - 1 <= j
        ensures !Bit(x / 2, j)
      {
        assert !Bit(x, j + 1);
      }
      NoBitAbove(x / 2, k - 1);
    }
  }

  /** Bits determine the number. */
  lemma {:induction false} Ext(a: nat, b: nat)
    requires forall j: nat :: Bit(a, j) == Bit(b, j)
    ensures a == b
    decreases a + b
  {
    assert Bit(a, 0) == Bit(b, 0);
    if a / 2 != b / 2 {
      forall j: nat
        ensures Bit(a / 2, j) == Bit(b / 2, j)
      {
        assert Bit(a, j + 1) == Bit(b, j + 1);
      }
      Ext(a / 2, b / 2);
    }
  }

  /** Two words with the same 64 bits are equal. */
  lemma WordExt(a: Word, b: Word)
    requires forall j: nat :: j < WORD_BITS ==> Bit(a, j) == Bit(b, j)
    ensures a == b
  {
    Pow2Is2To64();
    forall j: nat
      ensures Bit(a, j) == Bit(b, j)
    {
      if j >= WORD_BITS {
        BitAbove(a, 64, j);
        BitAbove(b, 64, j);
      }
    }
    Ext(a, b);
  }

  lemma WordBit(x: Word, j: nat)
    requires Bit(x, j)
    ensures j < WORD_BITS
  {
    Pow2Is2To64();
    if j >= WORD_BITS {
      BitAbove(x, 64, j);
    }
  }

  // ---------------------------------------------------------------------------------------
  // Bitwise operations

  /** `a & b` */
  function And(a: nat, b: nat): (r: nat)
    ensures r <= a && r <= b
    ensures forall j: nat :: Bit(r, j) == (Bit(a, j) && Bit(b, j))
  {
    if a == 0 || b == 0 then
      BitZeroAll();
      0
    else
      2 * And(a / 2, b / 2) + (if a % 2 == 1 && b % 2 == 1 then 1 else 0)
  }

  lemma BitZeroAll()
    ensures forall j: nat :: !Bit(0, j)
  {
    forall j: nat {
      BitZero(j);
    }
  }

  /** `a | b` */
  function Or(a: nat, b: nat): (r: nat)
    ensures forall j: nat :: Bit(r, j) == (Bit(a, j) || Bit(b, j))
    ensures forall n: nat :: a < Pow2(n) && b < Pow2(n) ==> r < Pow2(n)
  {
    if a == 0 then
      BitZeroAll();
      b
    else if b == 0 then
      BitZeroAll();
      a
    else
      2 * Or(a / 2, b / 2) + (if a % 2 == 1 || b % 2 == 1 then 1 else 0)
  }

  /** The 64-bit OR of two words is a word. */
  function OrWord(a: Word, b: Word): (r: Word)
    ensures forall j: nat :: Bit(r, j) == (Bit(a, j) || Bit(b, j))
  {
    Pow2Is2To64();
    Or(a, b)
  }

  /** Bits of 2^n - 1 - a: the complement of a within n bits. */
  lemma {:induction false} BitComplement(a: nat, n: nat, j: nat)
    requires a < Pow2(n)
    ensures Bit(Pow2(n) - 1 - a, j) == (j < n && !Bit(a, j))
  {
    if n == 0 {
      BitZero(j);
    } else if j == 0 {
    } else {
      assert (Pow2(n) - 1 - a) / 2 == Pow2(n - 1) - 1 - a / 2;
      BitComplement(a / 2, n - 1, j - 1);
    }
  }

  /** `~a` on a 64-bit word. */
  function Not(a: Word): (r: Word)
    ensures forall j: nat :: Bit(r, j) == (j < WORD_BITS && !Bit(a, j))
  {
    Pow2Is2To64();
    ComplementBits(a, 64, TWO_64 - 1 - a);
    TWO_64 - 1 - a
  }

  lemma ComplementBits(a: nat, n: nat, c: nat)
    requires a < Pow2(n) && c == Pow2(n) - 1 - a
    ensures forall j: nat :: Bit(c, j) == (j < n && !Bit(a, j))
  {
    forall j: nat
      ensures Bit(c, j) == (j < n && !Bit(a, j))
    {
      BitComplement(a, n, j);
    }
  }

  /** 2^w - 1: the w low bits set (`(1ULL << w) - 1`). */
  function LowMask(w: nat): (r: nat)
    ensures forall j: nat :: Bit(r, j) == (j < w)
  {
    ComplementBits(0, w, Pow2(w) - 1);
    BitZeroAll();
    Pow2(w) - 1
  }

  lemma {:induction false} BitMulPow2(a: nat, k: nat, j: nat)
    ensures Bit(a * Pow2(k), j) == (k <= j && Bit(a, j - k))
  {
    if k == 0 {
    } else {
      assert a * Pow2(k) == 2 * (a * Pow2(k - 1));
      if j == 0 {
      } else {
        BitMulPow2(a, k - 1, j - 1);
      }
    }
  }

  lemma {:induction false} BitMod(x: nat, n: nat, j: nat)
    ensures Bit(x % Pow2(n), j) == (j < n && Bit(x, j))
  {
    if n == 0 {
      BitZero(j);
    } else {
      var P := Pow2(n - 1);
      var q, r := x / (2 * P), x % (2 * P);
      assert x == 2 * (P * q) + r;
      DivModUnique(x / 2, P, q, r / 2);
      if j > 0 {
        BitMod(x / 2, n - 1, j - 1);
      }
    }
  }

  /** `a << k` on a 64-bit word: the bits move up by k and those past bit 63 are lost. */
  function Shl(a: Word, k: nat): (r: Word)
    requires k < WORD_BITS
    ensures forall j: nat :: Bit(r, j) == (k <= j < WORD_BITS && Bit(a, j - k))
  {
    Pow2Is2To64();
    ShlBits(a, k);
    (a * Pow2(k)) % TWO_64
  }

  lemma ShlBits(a: nat, k: nat)
    ensures forall j: nat :: Bit((a * Pow2(k)) % Pow2(64), j) == (k <= j < WORD_BITS && Bit(a, j - k))
  {
    var m := a * Pow2(k);
    forall j: nat
      ensures Bit(m % Pow2(64), j) == (k <= j < WORD_BITS && Bit(a, j - k))
    {
      BitMod(m, 64, j);
      BitMulPow2(a, k, j);
    }
  }

  /** x halved k times, rounding down: x / 2^k. */
  function Halve(x: nat, k: nat): nat
  {
    if k == 0 then x else Halve(x / 2, k - 1)
  }

  lemma {:induction false} HalveBits(x: nat, k: nat)
    ensures Halve(x, k) <= x
    ensures forall j: nat :: Bit(Halve(x, k), j) == Bit(x, j + k)
  {
    if k > 0 {
      HalveBits(x / 2, k - 1);
      forall j: nat
        ensures Bit(Halve(x, k), j) == Bit(x, j + k)
      {
        assert Bit(x, j + k) == Bit(x / 2, j + k - 1);
      }
    }
  }

  /** `a >> k` on a 64-bit word (a logical shift: zeros come in at the top). */
  function Shr(a: Word, k: nat): (r: Word)
    requires k < WORD_BITS
    ensures forall j: nat :: Bit(r, j) == Bit(a, j + k)
  {
    HalveBits(a, k);
    Halve(a, k)
  }

  // ---------------------------------------------------------------------------------------
  // Bit scanning

  /** `__builtin_ctzll(w)`: the position of the lowest set bit of a nonzero word. */
  function Ctz(w: nat): (r: nat)
    requires w != 0
    ensures Bit(w, r)
    ensures forall i: nat :: i < r ==> !Bit(w, i)
  {
    if w % 2 == 1 then 0 else 1 + Ctz(w / 2)
  }

  /** The bits of w - 1: those of w with the lowest set bit cleared and every bit below it set. */
  lemma {:induction false} BitPredecessor(w: nat, j: nat)
    requires w != 0
    ensures Bit(w - 1, j) == if j < Ctz(w) then true else if j == Ctz(w) then false else Bit(w, j)
  {
    if w % 2 == 1 {
      assert Ctz(w) == 0;
      if j > 0 {
        assert (w - 1) / 2 == w / 2;
        assert Bit(w - 1, j) == Bit(w / 2, j - 1) == Bit(w, j);
      }
    } else {
      assert Ctz(w) == 1 + Ctz(w / 2);
      if j > 0 {
        assert (w - 1) / 2 == w / 2 - 1;
        BitPredecessor(w / 2, j - 1);
        assert Bit(w - 1, j) == Bit(w / 2 - 1, j - 1);
        assert Bit(w, j) == Bit(w / 2, j - 1);
      }
    }
  }

  /** `w & (w - 1)` clears exactly the lowest set bit. */
  lemma ClearLowest(w: nat, j: nat)
    requires w != 0
    ensures Bit(And(w, w - 1), j) == (Bit(w, j) && j != Ctz(w))
  {
    BitPredecessor(w, j);
  }

  lemma ClearLowestAll(w: nat)
    requires w != 0
    ensures forall j: nat :: Bit(And(w, w - 1), j) == (Bit(w, j) && j != Ctz(w))
  {
    forall j: nat {
      ClearLowest(w, j);
    }
  }

  /** The positions one pass of the source's scanning loop visits in a word: it reads the
      lowest set bit with ctz, then clears it with `bits &= bits - 1`, until the word is 0. */
  function ScanOrder(w: nat): seq<nat>
    decreases w
  {
    if w == 0 then [] else [Ctz(w)] + ScanOrder(And(w, w - 1))
  }

  /** The scan visits exactly the set bits of the word, in strictly ascending order. */
  lemma {:induction false} ScanOrderSpec(w: nat)
    ensures forall p: nat :: p in ScanOrder(w) <==> Bit(w, p)
    ensures forall i, j :: 0 <= i < j < |ScanOrder(w)| ==> ScanOrder(w)[i] < ScanOrder(w)[j]
    decreases w
  {
    if w == 0 {
      BitZeroAll();
    } else {
      var rest := ScanOrder(And(w, w - 1));
      ScanOrderSpec(And(w, w - 1));
      ClearLowestAll(w);
      assert forall i | 0 <= i < |rest| :: Bit(And(w, w - 1), rest[i]);
      assert ScanOrder(w) == [Ctz(w)] + rest;
    }
  }

  /** The number of binary digits of x (0 for 0). */
  function BitLength(x: nat): (r: nat)
    ensures x < Pow2(r)
    ensures x > 0 ==> r >= 1 && Pow2(r - 1) <= x
  {
    if x == 0 then 0 else 1 + BitLength(x / 2)
  }

  /** `__builtin_clzll(x)`: the number of zero bits above the highest set bit of a nonzero
      64-bit word. */
  function Clz(x: Word): (r: nat)
    requires x != 0
    ensures r < WORD_BITS
    ensures Bit(x, WORD_BITS - 1 - r)
    ensures forall j: nat :: WORD_BITS - 1 - r < j ==> !Bit(x, j)
  {
    var len := BitLength(x);
    TopBit(x);
    64 - len
  }

  /** The highest set bit of a nonzero word is bit BitLength(x) - 1. */
  lemma TopBit(x: Word)
    requires x != 0
    ensures 1 <= BitLength(x) <= WORD_BITS
    ensures Bit(x, BitLength(x) - 1)
    ensures forall j: nat :: BitLength(x) - 1 < j ==> !Bit(x, j)
  {
    var len := BitLength(x);
    Pow2Is2To64();
    if len > 64 {
      Pow2Monotone(64, len - 1);
    }
    BitOfTop(x, len - 1);
    forall j: nat | len - 1 < j
      ensures !Bit(x, j)
    {
      BitAbove(x, len, j);
    }
  }

  lemma {:induction false} BitOfTop(x: nat, k: nat)
    requires Pow2(k) <= x < Pow2(k + 1)
    ensures Bit(x, k)
  {
    if k > 0 {
      BitOfTop(x / 2, k - 1);
    }
  }
}
