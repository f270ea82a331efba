/** The variable-width packed value array of the equitable-colouring code: values of
    `bitWidth` bits each, `insideOfBlock` of them side by side in every 64-bit word.

    The process-wide `config` record becomes the class `Config`; `init` derives the field
    width from the vertex count, then the number of fields per word, then the number of words.
    `SET_VALUE` and `GET_VALUE` clear, write and read one field inside one word, and the two
    bulk operations write every value of an `int` array, or copy the words of another array. */
module Packed {
  import opened Words

  /** The smallest value of the source's `int`. */
  const INT_MIN: int := -0x8000_0000
  /** Values of the source's 32-bit `unsigned int`. */
  const TWO_32: int := 0x1_0000_0000

  // ---------------------------------------------------------------------------------------
  // The arithmetic of `init`

  /** C's `/` on `int`: the quotient is truncated toward zero, so the remainder has the sign of
      the dividend. */
  function CDiv(a: int, b: int): (r: int)
    requires b > 0
    ensures a >= 0 ==> 0 <= a - r * b < b
    ensures a < 0 ==> -b < a - r * b <= 0
  {
    if a >= 0 then a / b else -((-a) / b)
  }

  /** `bitWidth`: 1 for at most one vertex, otherwise `64 - __builtin_clzll(n - 1)`, the
      number of binary digits of n - 1. It is the least width whose 2^w values hold 0 .. n-1. */
  function BitWidthFor(n: int): (w: nat)
    requires n <= INT_MAX
    ensures 1 <= w <= 31
    ensures n <= Pow2(w)
    ensures n >= 2 ==> Pow2(w - 1) < n
  {
    if n <= 1 then 1
    else
      var x: Word := n - 1;
      WidthOfCount(x);
      64 - Clz(x)
  }

  lemma WidthOfCount(x: Word)
    requires 1 <= x < INT_MAX
    ensures 64 - Clz(x) == BitLength(x) && 1 <= BitLength(x) <= 31
    ensures x < Pow2(BitLength(x)) && Pow2(BitLength(x) - 1) <= x
  {
    var len := BitLength(x);
    Pow2Is2To31();
    if len > 31 {
      Pow2Monotone(31, len - 1);
    }
  }

  lemma Pow2Is2To31()
    ensures Pow2(31) == 0x8000_0000
  {
    Pow2Is2To32();
  }

  /** Only one width is the least one that holds n values. */
  lemma BitWidthLeast(n: int, w: nat)
    requires 2 <= n <= INT_MAX && w >= 1 && n <= Pow2(w) && Pow2(w - 1) < n
    ensures BitWidthFor(n) == w
  {
    var v := BitWidthFor(n);
    if v < w {
      Pow2Monotone(v, w - 1);
    } else if v > w {
      Pow2Monotone(w, v - 1);
    }
  }

  /** The widths the comments of the source expect: 5 vertices need 3 bits, 64 need 6, 65
      need 7, and one vertex or none still get 1 bit. */
  lemma BitWidthExamples()
    ensures BitWidthFor(0) == 1 && BitWidthFor(1) == 1 && BitWidthFor(2) == 1
    ensures BitWidthFor(5) == 3 && BitWidthFor(64) == 6 && BitWidthFor(65) == 7
  {
    assert Pow2(1) == 2;
    BitWidthLeast(2, 1);
    assert Pow2(3) == 8;
    BitWidthLeast(5, 3);
    assert Pow2(6) == 64;
    BitWidthLeast(64, 6);
    assert Pow2(7) == 128;
    BitWidthLeast(65, 7);
  }

  /** `insideOfBlock`: `sizeof(block_t) * 8 / bitWidth` fields per word. They fill at most the
      64 bits of a word, so no field crosses into the next word, and one more would not fit. */
  function SlotsFor(w: nat): (r: nat)
    requires 1 <= w <= 31
    ensures r >= 2 && r * w <= WORD_BITS < (r + 1) * w
  {
    WORD_BITS / w
  }

  /** `totalBlockAmount`: `(n + insideOfBlock - 1) / insideOfBlock` with C's division. For a
      vertex count n >= 0 it is the least number of words with room for n fields. */
  function BlocksFor(n: int, slots: nat): (r: int)
    requires slots >= 1
    ensures n >= 0 ==> r >= 0 && n <= r * slots && (r == 0 || (r - 1) * slots < n)
  {
    CDiv(n + slots - 1, slots)
  }

  lemma MulMono(a: nat, b: int, c: int)
    requires b <= c
    ensures a * b <= a * c
  {
  }

  /** Every field index below the vertex count lies in one of the `totalBlockAmount` words. */
  lemma FieldBlockInRange(n: int, slots: nat, i: nat)
    requires slots >= 1 && i < n
    ensures i / slots < BlocksFor(n, slots)
  {
    var r := BlocksFor(n, slots);
    var q := i / slots;
    assert slots * q <= i;
    assert q < r by {
      if q >= r {
        MulMono(slots, r, q);
        assert false;
      }
    }
  }

  // ---------------------------------------------------------------------------------------
  // One field inside one word

  /** `(1ULL << w) - 1`: the w low bits. */
  function FieldOnes(w: nat): (r: Word)
    requires w < WORD_BITS
    ensures forall j: nat :: Bit(r, j) == (j < w)
  {
    ShlOne(w);
    Shl(1, w) - 1
  }

  lemma ShlOne(w: nat)
    requires w < WORD_BITS
    ensures Shl(1, w) == LowMask(w) + 1
  {
    BitOne();
    forall j: nat
      ensures Bit(Shl(1, w), j) == Bit(Pow2(w), j)
    {
      BitPow2(w, j);
    }
    Ext(Shl(1, w), Pow2(w));
  }

  /** `(value) & ((1U << w) - 1)`: the int is converted to `unsigned int` (its value modulo
      2^32) and its w low bits are kept. This is the value modulo 2^w, negative values
      included, as two's complement gives. */
  function LowBits(value: int, w: nat): (r: Word)
    requires 1 <= w <= 31
    ensures r < Pow2(w) && r == value % Pow2(w)
  {
    Pow2Is2To32();
    Pow2Is2To64();
    var u: Word := value % TWO_32;
    var r := And(u, FieldOnes(w));
    LowBitsValue(value, u, w, r);
    r
  }

  lemma LowBitsValue(value: int, u: nat, w: nat, r: nat)
    requires 1 <= w <= 31 && u == value % TWO_32
    requires forall j: nat :: Bit(r, j) == (Bit(u, j) && j < w)
    ensures r < Pow2(w) && r == value % Pow2(w)
  {
    var m := value % Pow2(w);
    Pow2Is2To32();
    Pow2Add(w, 32 - w);
    ModOfMod(value, Pow2(w), Pow2(32 - w));
    forall j: nat
      ensures Bit(r, j) == Bit(m, j)
    {
      BitMod(u, w, j);
    }
    Ext(r, m);
  }

  /** Taking a value modulo d * e and then modulo d is taking it modulo d. */
  lemma ModOfMod(x: int, d: nat, e: nat)
    requires d >= 1 && e >= 1
    ensures (x % (d * e)) % d == x % d
  {
    var q := x / (d * e);
    var r := x % (d * e);
    assert x == d * (e * q) + r;
    var q2 := r / d;
    var r2 := r % d;
    assert r == d * q2 + r2;
    assert x == d * (e * q + q2) + r2;
    DivModUniqueAt(x, d, e * q + q2, r2);
  }

  lemma DivModUniqueAt(a: int, d: int, q: int, r: int)
    requires d > 0 && a == d * q + r && 0 <= r < d
    ensures a % d == r
  {
    DivModUnique(a, d, q, r);
  }

  /** The word after the two statements of `SET_VALUE` on one word: the field at bit `shift`
      of width w is cleared with `&= ~mask`, then `bits << shift` is OR-ed in. */
  function StoreField(word: Word, shift: nat, w: nat, bits: Word): (r: Word)
    requires 1 <= w < WORD_BITS && shift + w <= WORD_BITS
  {
    var mask := Shl(FieldOnes(w), shift);
    var cleared := And(word, Not(mask));
    OrWord(cleared, Shl(bits, shift))
  }

  /** `GET_VALUE` on one word: `(word >> shift) & ((1ULL << w) - 1)`. */
  function LoadField(word: Word, shift: nat, w: nat): (r: Word)
    requires 1 <= w < WORD_BITS && shift + w <= WORD_BITS
  {
    And(Shr(word, shift), FieldOnes(w))
  }

  /** The bits of a stored word: the field holds the low bits of `bits`, every other bit is
      the old one. */
  lemma StoreFieldBits(word: Word, shift: nat, w: nat, bits: Word)
    requires 1 <= w < WORD_BITS && shift + w <= WORD_BITS && bits < Pow2(w)
    ensures forall p: nat ::
      Bit(StoreField(word, shift, w, bits), p) == if shift <= p < shift + w then Bit(bits, p - shift) else Bit(word, p)
  {
    var r := StoreField(word, shift, w, bits);
    forall p: nat
      ensures Bit(r, p) == if shift <= p < shift + w then Bit(bits, p - shift) else Bit(word, p)
    {
      if p >= WORD_BITS {
        WordBit0(word, p);
      } else if p >= shift + w {
        BitAbove(bits, w, p - shift);
      }
    }
  }

  lemma WordBit0(x: Word, p: nat)
    requires p >= WORD_BITS
    ensures !Bit(x, p)
  {
    if Bit(x, p) {
      WordBit(x, p);
    }
  }

  /** The bits of a loaded field: bit j is bit shift + j of the word, below the width. */
  lemma LoadFieldBits(word: Word, shift: nat, w: nat)
    requires 1 <= w < WORD_BITS && shift + w <= WORD_BITS
    ensures forall j: nat :: Bit(LoadField(word, shift, w), j) == (j < w && Bit(word, shift + j))
    ensures LoadField(word, shift, w) < Pow2(w)
  {
    var r := LoadField(word, shift, w);
    NoBitAbove(r, w);
  }

  /** `GET_VALUE` after `SET_VALUE` at the same field returns the stored bits. */
  lemma LoadStore(word: Word, shift: nat, w: nat, bits: Word)
    requires 1 <= w < WORD_BITS && shift + w <= WORD_BITS && bits < Pow2(w)
    ensures LoadField(StoreField(word, shift, w, bits), shift, w) == bits
  {
    var r := StoreField(word, shift, w, bits);
    StoreFieldBits(word, shift, w, bits);
    LoadFieldBits(r, shift, w);
    forall j: nat
      ensures Bit(LoadField(r, shift, w), j) == Bit(bits, j)
    {
      if j >= w {
        BitAbove(bits, w, j);
      }
    }
    Ext(LoadField(r, shift, w), bits);
  }

  /** Storing into one field leaves a field that does not overlap it as it was. */
  lemma LoadStoreOther(word: Word, shift: nat, shift': nat, w: nat, bits: Word)
    requires 1 <= w < WORD_BITS && shift + w <= WORD_BITS && shift' + w <= WORD_BITS && bits < Pow2(w)
    requires shift + w <= shift' || shift' + w <= shift
    ensures LoadField(StoreField(word, shift, w, bits), shift', w) == LoadField(word, shift', w)
  {
    var r := StoreField(word, shift, w, bits);
    StoreFieldBits(word, shift, w, bits);
    LoadFieldBits(r, shift', w);
    LoadFieldBits(word, shift', w);
    Ext(LoadField(r, shift', w), LoadField(word, shift', w));
  }

  // ---------------------------------------------------------------------------------------
  // Fields of a word array

  /** `BLOCK_INDEX(index)`: the word that holds the field. */
  function FieldBlock(index: nat, slots: nat): (r: nat)
    requires slots >= 1
    ensures slots * r <= index < slots * r + slots
  {
    index / slots
  }

  /** `MASK_INDEX(index)`: the position of the field inside its word, counted in fields. */
  function FieldSlot(index: nat, slots: nat): (r: nat)
    requires slots >= 1
    ensures r < slots && index == slots * FieldBlock(index, slots) + r
  {
    index % slots
  }

  /** A field starts at bit `MASK_INDEX(index) * w` and ends inside the word. */
  lemma SlotFits(index: nat, w: nat, slots: nat)
    requires 1 <= w <= 31 && slots == SlotsFor(w)
    ensures FieldSlot(index, slots) * w + w <= WORD_BITS
  {
    var k := FieldSlot(index, slots);
    MulMono(w, k + 1, slots);
    assert (k + 1) * w == k * w + w;
  }

  /** Fields in different slots of a word do not overlap. */
  lemma SlotsApart(k: nat, k': nat, w: nat)
    requires k != k' && w >= 1
    ensures k * w + w <= k' * w || k' * w + w <= k * w
  {
    if k < k' {
      MulMono(w, k + 1, k');
      assert (k + 1) * w == k * w + w;
    } else {
      MulMono(w, k' + 1, k);
      assert (k' + 1) * w == k' * w + w;
    }
  }

  /** The word array after `SET_VALUE(a, index, value)`: only the word holding the field
      changes. */
  function SetAt(a: seq<Word>, index: nat, value: int, w: nat, slots: nat): (r: seq<Word>)
    requires 1 <= w <= 31 && slots == SlotsFor(w) && FieldBlock(index, slots) < |a|
    ensures |r| == |a| && forall k :: 0 <= k < |a| && k != FieldBlock(index, slots) ==> r[k] == a[k]
  {
    SlotFits(index, w, slots);
    var b := FieldBlock(index, slots);
    a[b := StoreField(a[b], FieldSlot(index, slots) * w, w, LowBits(value, w))]
  }

  /** `GET_VALUE(a, index)`: a field holds fewer than 2^w values. */
  function GetAt(a: seq<Word>, index: nat, w: nat, slots: nat): (r: Word)
    requires 1 <= w <= 31 && slots == SlotsFor(w) && FieldBlock(index, slots) < |a|
    ensures r < Pow2(w)
  {
    SlotFits(index, w, slots);
    LoadFieldBits(a[FieldBlock(index, slots)], FieldSlot(index, slots) * w, w);
    LoadField(a[FieldBlock(index, slots)], FieldSlot(index, slots) * w, w)
  }

  /** Reading back the field just written gives the value modulo 2^w. */
  lemma GetSetSame(a: seq<Word>, index: nat, value: int, w: nat, slots: nat)
    requires 1 <= w <= 31 && slots == SlotsFor(w) && FieldBlock(index, slots) < |a|
    ensures GetAt(SetAt(a, index, value, w, slots), index, w, slots) == value % Pow2(w)
  {
    SlotFits(index, w, slots);
    var b := FieldBlock(index, slots);
    LoadStore(a[b], FieldSlot(index, slots) * w, w, LowBits(value, w));
  }

  /** Writing one field changes only the word that holds it, and no other field. */
  lemma GetSetOther(a: seq<Word>, index: nat, j: nat, value: int, w: nat, slots: nat)
    requires 1 <= w <= 31 && slots == SlotsFor(w) && FieldBlock(index, slots) < |a|
    requires FieldBlock(j, slots) < |a| && j != index
    ensures GetAt(SetAt(a, index, value, w, slots), j, w, slots) == GetAt(a, j, w, slots)
  {
    var b, b' := FieldBlock(index, slots), FieldBlock(j, slots);
    SlotFits(index, w, slots);
    SlotFits(j, w, slots);
    if b == b' {
      var k, k' := FieldSlot(index, slots), FieldSlot(j, slots);
      SlotsApart(k, k', w);
      LoadStoreOther(a[b], k * w, k' * w, w, LowBits(value, w));
    }
  }

  /** With the width `init` derives from the vertex count n, every vertex id 0 .. n-1 reads
      back exactly. */
  lemma GetSetVertexId(a: seq<Word>, index: nat, value: int, n: int)
    requires 0 <= value < n <= INT_MAX && FieldBlock(index, SlotsFor(BitWidthFor(n))) < |a|
    ensures var w := BitWidthFor(n);
      GetAt(SetAt(a, index, value, w, SlotsFor(w)), index, w, SlotsFor(w)) == value
  {
    var w := BitWidthFor(n);
    GetSetSame(a, index, value, w, SlotsFor(w));
    Mod2Small(value, Pow2(w));
  }

  lemma Mod2Small(x: int, m: int)
    requires 0 <= x < m
    ensures x % m == x
  {
  }

  /** The word array after `bulk_compress_from_ints` has written source[0 .. n-1] in turn. */
  function CompressAll(a: seq<Word>, source: seq<int>, n: nat, w: nat, slots: nat): (r: seq<Word>)
    requires 1 <= w <= 31 && slots == SlotsFor(w) && n <= |source| && n <= slots * |a|
    ensures |r| == |a|
  {
    if n == 0 then a
    else
      var prev := CompressAll(a, source, n - 1, w, slots);
      FieldBelow(n - 1, slots, |a|);
      SetAt(prev, n - 1, source[n - 1], w, slots)
  }

  /** n fields fit in `totalBlockAmount` words, so in any array at least that long. */
  lemma Capacity(n: int, blocks: int, slots: nat, len: nat)
    requires slots >= 1 && blocks == BlocksFor(n, slots) && blocks <= len
    ensures n >= 0 ==> n <= slots * len
  {
    if n >= 0 {
      MulMono(slots, blocks, len);
    }
  }

  /** A field index below slots * m lies in one of the first m words. */
  lemma FieldBelow(i: nat, slots: nat, m: nat)
    requires slots >= 1 && i < slots * m
    ensures FieldBlock(i, slots) < m
  {
    var b := FieldBlock(i, slots);
    if b >= m {
      MulMono(slots, m, b);
    }
  }

  /** One more write keeps every field written so far and adds field n - 1. */
  lemma CompressGetStep(prev: seq<Word>, source: seq<int>, n: nat, w: nat, slots: nat)
    requires 1 <= w <= 31 && slots == SlotsFor(w) && 1 <= n <= |source| && n <= slots * |prev|
    requires forall i: nat :: i < n - 1 ==> FieldBlock(i, slots) < |prev| && GetAt(prev, i, w, slots) == source[i] % Pow2(w)
    ensures FieldBlock(n - 1, slots) < |prev|
    ensures forall i: nat :: i < n ==>
      FieldBlock(i, slots) < |prev| &&
      GetAt(SetAt(prev, n - 1, source[n - 1], w, slots), i, w, slots) == source[i] % Pow2(w)
  {
    FieldBelow(n - 1, slots, |prev|);
    forall i: nat | i < n
      ensures FieldBlock(i, slots) < |prev|
      ensures GetAt(SetAt(prev, n - 1, source[n - 1], w, slots), i, w, slots) == source[i] % Pow2(w)
    {
      if i == n - 1 {
        GetSetSame(prev, i, source[i], w, slots);
      } else {
        GetSetOther(prev, n - 1, i, source[n - 1], w, slots);
      }
    }
  }

  /** After writing source[0 .. n-1], field i holds source[i] modulo 2^w for every i < n. */
  lemma {:induction false} CompressAllGet(a: seq<Word>, source: seq<int>, n: nat, w: nat, slots: nat)
    requires 1 <= w <= 31 && slots == SlotsFor(w) && n <= |source| && n <= slots * |a|
    ensures forall i: nat :: i < n ==>
      FieldBlock(i, slots) < |a| &&
      GetAt(CompressAll(a, source, n, w, slots), i, w, slots) == source[i] % Pow2(w)
  {
    if n > 0 {
      CompressAllGet(a, source, n - 1, w, slots);
      CompressGetStep(CompressAll(a, source, n - 1, w, slots), source, n, w, slots);
    }
  }

  /** Writing field n - 1 leaves every word k with n <= slots * k as it was. */
  lemma CompressKeepStep(prev: seq<Word>, a: seq<Word>, source: seq<int>, n: nat, w: nat, slots: nat)
    requires 1 <= w <= 31 && slots == SlotsFor(w) && 1 <= n <= |source| && n <= slots * |prev|
    requires |prev| == |a|
    requires forall k :: 0 <= k < |a| && n - 1 <= slots * k ==> prev[k] == a[k]
    ensures FieldBlock(n - 1, slots) < |prev|
    ensures forall k :: 0 <= k < |a| && n <= slots * k ==> SetAt(prev, n - 1, source[n - 1], w, slots)[k] == a[k]
  {
    FieldBelow(n - 1, slots, |prev|);
    forall k | 0 <= k < |a| && n <= slots * k
      ensures SetAt(prev, n - 1, source[n - 1], w, slots)[k] == a[k]
    {
      FieldBelow(n - 1, slots, k);
    }
  }

  /** After writing source[0 .. n-1], the words past those fields are as they were. */
  lemma {:induction false} CompressAllKeeps(a: seq<Word>, source: seq<int>, n: nat, w: nat, slots: nat)
    requires 1 <= w <= 31 && slots == SlotsFor(w) && n <= |source| && n <= slots * |a|
    ensures forall k :: 0 <= k < |a| && n <= slots * k ==> CompressAll(a, source, n, w, slots)[k] == a[k]
  {
    if n > 0 {
      CompressAllKeeps(a, source, n - 1, w, slots);
      CompressKeepStep(CompressAll(a, source, n - 1, w, slots), a, source, n, w, slots);
    }
  }

  // ---------------------------------------------------------------------------------------
  // The `config` record and the operations that use it

  class Config {
    var vertexAmount: int
    var totalBlockAmount: int
    var insideOfBlock: int
    var bitWidth: int

    /** The record as the program starts: a zero-initialized global with `bitWidth = 1`. */
    constructor ()
      ensures vertexAmount == 0 && totalBlockAmount == 0 && insideOfBlock == 0 && bitWidth == 1
    {
      vertexAmount := 0;
      totalBlockAmount := 0;
      insideOfBlock := 0;
      bitWidth := 1;
    }

    /** The fields are the ones `init` derives from `vertexAmount`. */
    ghost predicate Valid()
      reads this
    {
      INT_MIN <= vertexAmount < INT_MAX &&
      bitWidth == BitWidthFor(vertexAmount) &&
      insideOfBlock == SlotsFor(bitWidth) &&
      totalBlockAmount == BlocksFor(vertexAmount, insideOfBlock)
    }

    /** `init(vertexAmount)`. The vertex count INT_MAX is excluded: there
        `vertexAmount + insideOfBlock - 1` overflows `int`. */
    method Init(n: int)
      requires INT_MIN <= n < INT_MAX
      modifies this
      ensures Valid() && vertexAmount == n
      ensures 1 <= bitWidth <= 31 && insideOfBlock * bitWidth <= WORD_BITS
      ensures n >= 0 ==> totalBlockAmount >= 0 && n <= totalBlockAmount * insideOfBlock
      ensures forall i: nat :: i < n ==> FieldBlock(i, insideOfBlock) < totalBlockAmount
    {
      vertexAmount := n;
      bitWidth := BitWidthFor(n);
      insideOfBlock := SlotsFor(bitWidth);
      totalBlockAmount := BlocksFor(n, insideOfBlock);
      forall i: nat | i < n
        ensures FieldBlock(i, insideOfBlock) < totalBlockAmount
      {
        FieldBlockInRange(n, insideOfBlock, i);
      }
    }

    /** `GET_VALUE(a, index)`: always below 2^bitWidth. */
    function GetValue(a: seq<Word>, index: nat): (r: Word)
      reads this
      requires Valid() && FieldBlock(index, insideOfBlock) < |a|
      ensures r < Pow2(bitWidth)
    {
      GetAt(a, index, bitWidth, insideOfBlock)
    }

    /** `SET_VALUE(a, index, value)`. What the new words mean is proved about `SetAt`: only
        word `BLOCK_INDEX(index)` changes (`SetAt` writes one element), the field reads back
        as the value modulo 2^bitWidth (`GetSetSame`) and every other field as before
        (`GetSetOther`). */
    method SetValue(a: array<Word>, index: nat, value: int)
      requires Valid() && FieldBlock(index, insideOfBlock) < a.Length
      modifies a
      ensures a[..] == SetAt(old(a[..]), index, value, bitWidth, insideOfBlock)
    {
      var blockI := FieldBlock(index, insideOfBlock);
      var bitI := FieldSlot(index, insideOfBlock) * bitWidth;
      SlotFits(index, bitWidth, insideOfBlock);
      ghost var before := a[..];
      ghost var stored := StoreField(before[blockI], bitI, bitWidth, LowBits(value, bitWidth));
      var mask := Shl(FieldOnes(bitWidth), bitI);
      a[blockI] := And(a[blockI], Not(mask));
      a[blockI] := OrWord(a[blockI], Shl(LowBits(value, bitWidth), bitI));
      assert a[blockI] == stored;
      assert a[..] == before[blockI := stored];
    }

    /** `bulk_copy_compressed_values(dest, source)`: the first `totalBlockAmount` words of
        `dest` become those of `source`; the rest of `dest` is untouched. */
    method BulkCopy(dest: array<Word>, source: array<Word>)
      requires Valid() && totalBlockAmount <= dest.Length && totalBlockAmount <= source.Length
      modifies dest
      ensures forall k :: 0 <= k < dest.Length ==>
        dest[k] == if k < totalBlockAmount then old(source[k]) else old(dest[k])
    {
      var i := 0;
      while i < totalBlockAmount
        invariant 0 <= i <= if totalBlockAmount < 0 then 0 else totalBlockAmount
        invariant forall k :: 0 <= k < dest.Length ==> dest[k] == if k < i then old(source[k]) else old(dest[k])
        invariant forall k :: i <= k < source.Length ==> source[k] == old(source[k])
      {
        dest[i] := source[i];
        i := i + 1;
      }
    }

    /** `bulk_compress_from_ints(dest, source)`: the steps of `SET_VALUE` for indices
        0 .. vertexAmount-1 in turn. What the result means is proved about `CompressAll`:
        field i holds source[i] modulo 2^bitWidth, and the words past the written fields are
        untouched (`CompressAllGet`, `CompressAllKeeps`). */
    method BulkCompress(dest: array<Word>, source: array<int>)
      requires Valid() && totalBlockAmount <= dest.Length && vertexAmount <= source.Length
      modifies dest
      ensures vertexAmount >= 0 ==> vertexAmount <= insideOfBlock * dest.Length
      ensures vertexAmount >= 0 ==>
        dest[..] == CompressAll(old(dest[..]), source[..], vertexAmount, bitWidth, insideOfBlock)
      ensures vertexAmount < 0 ==> dest[..] == old(dest[..])
    {
      ghost var d0 := dest[..];
      Capacity(vertexAmount, totalBlockAmount, insideOfBlock, dest.Length);
      var i := 0;
      while i < vertexAmount
        invariant 0 <= i <= if vertexAmount < 0 then 0 else vertexAmount
        invariant dest[..] == CompressAll(d0, source[..], i, bitWidth, insideOfBlock)
      {
        FieldBelow(i, insideOfBlock, dest.Length);
        ghost var prev := dest[..];
        // the loop body repeats the statements of SET_VALUE(dest, i, source[i])
        SetValue(dest, i, source[i]);
        assert dest[..] == SetAt(prev, i, source[i], bitWidth, insideOfBlock);
        i := i + 1;
      }
      assert vertexAmount >= 0 ==> i == vertexAmount;
    }
  }
}
