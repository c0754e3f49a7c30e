/** Power-of-two block arithmetic (include/common/arithmetic/arithmetic.hpp).

    Machine words are naturals below 2^64. The bitwise operators are defined bit by
    bit, the functions below apply them exactly as the header does, and the lemmas
    show what they compute in terms of division and remainder. */
module Arithmetic {

  function Pow2(k: nat): (p: nat)
    ensures p > 0
  {
    if k == 0 then 1 else 2 * Pow2(k - 1)
  }

  /** Bits of a `uint64_t`. */
  const WIDTH: nat := 64

  const WORD: nat := 0x1_0000_0000_0000_0000

  lemma WordIsPow2()
    ensures Pow2(32) == 0x1_0000_0000 && Pow2(WIDTH) == WORD
  {
    assert Pow2(8) == 256;
    Pow2Add(8, 8);
    Pow2Add(16, 16);
    Pow2Add(32, 32);
  }

  lemma {:induction false} Pow2Add(a: nat, b: nat)
    ensures Pow2(a + b) == Pow2(a) * Pow2(b)
  {
    if b != 0 {
      Pow2Add(a, b - 1);
      assert Pow2(a + b) == 2 * (Pow2(a) * Pow2(b - 1));
    }
  }

  lemma {:induction false} Pow2Monotone(a: nat, b: nat)
    requires a < b
    ensures Pow2(a) < Pow2(b)
  {
    if a < b - 1 {
      Pow2Monotone(a, b - 1);
    }
  }

  /** Bitwise conjunction. */
  function BitAnd(x: nat, y: nat): nat {
    if x == 0 || y == 0 then 0
    else 2 * BitAnd(x / 2, y / 2) + (if x % 2 == 1 && y % 2 == 1 then 1 else 0)
  }

  /** Bitwise disjunction. */
  function BitOr(x: nat, y: nat): nat {
    if x == 0 then y else if y == 0 then x
    else 2 * BitOr(x / 2, y / 2) + (if x % 2 == 1 || y % 2 == 1 then 1 else 0)
  }

  /** Bitwise complement of a 64-bit word. */
  function BitNot64(x: nat): nat
    requires x < WORD
  {
    WORD - 1 - x
  }

  /** Logical right shift. */
  function ShiftRight(x: nat, k: nat): nat
    decreases k
  {
    if k == 0 then x else ShiftRight(x / 2, k - 1)
  }

  /** The low `k` bits. */
  function Low(x: nat, k: nat): nat
    decreases k
  {
    if k == 0 then 0 else 2 * Low(x / 2, k - 1) + x % 2
  }

  /** Leading zeros of `n` in a word of `width` bits, as `__builtin_clzll` counts them. */
  function LeadingZeros(n: nat, width: nat): nat
    decreases width
  {
    if width == 0 || n >= Pow2(width - 1) then 0 else 1 + LeadingZeros(n, width - 1)
  }

  // ---------------------------------------------------------------- the header's functions

  predicate IsPowerOf2(n: nat) {
    n != 0 && BitAnd(n, n - 1) == 0
  }

  function Log2(n: nat): int {
    WIDTH - LeadingZeros(n, WIDTH) - 1
  }

  /** The block sizes the header is used with: a power of two whose mask `1u << log2`
      fits the 32-bit literal it is computed in. */
  predicate BlockSize(b: nat) {
    IsPowerOf2(b) && b < 0x1_0000_0000
  }

  predicate IsAligned(n: nat, b: nat)
    requires BlockSize(b)
  {
    Log2OfPowerOf2(b);
    BitAnd(n, Pow2(Log2(b)) % 0x1_0000_0000 - 1) == 0
  }

  function AlignLeft(offset: nat, b: nat): nat
    requires BlockSize(b) && offset < WORD
  {
    BitAnd(offset, BitNot64(b - 1))
  }

  function AlignRight(offset: nat, b: nat): nat
    requires BlockSize(b) && offset < WORD
  {
    (AlignLeft(offset, b) + b) % WORD
  }

  function BlockOverrun(offset: nat, b: nat): nat
    requires BlockSize(b) && offset < WORD
  {
    BitAnd(offset, b - 1)
  }

  function BlockUnderrun(offset: nat, b: nat): nat
    requires BlockSize(b) && offset < WORD
  {
    (AlignRight(offset, b) - offset) % WORD
  }

  function BlockIndex(offset: nat, b: nat): nat
    requires BlockSize(b) && offset < WORD
  {
    Log2OfPowerOf2(b);
    ShiftRight(AlignLeft(offset, b), Log2(b))
  }

  function BlockCount(offset: nat, size: nat, b: nat): nat
    requires BlockSize(b) && offset + size < WORD
  {
    var first := BlockIndex(offset, b); // align_left(offset) >> log2(block_size)
    var final := BlockIndex(offset + size, b);
    var unaligned := if IsAligned(offset + size, b) then 0 else 1;
    var mask := if size != 0 then WORD - 1 else 0;
    BitAnd((final - first + unaligned) % WORD, mask)
  }

  // ---------------------------------------------------------------- powers of two

  lemma {:induction false} AndSelf(x: nat)
    ensures BitAnd(x, x) == x
  {
    if x != 0 {
      AndSelf(x / 2);
    }
  }

  lemma {:induction false} Pow2IsPowerOf2(k: nat)
    ensures IsPowerOf2(Pow2(k))
  {
    if k != 0 {
      Pow2IsPowerOf2(k - 1);
      assert (Pow2(k) - 1) / 2 == Pow2(k - 1) - 1;
    }
  }

  /** The `n & (n - 1)` test accepts a word only if it is some 2^k. */
  lemma {:induction false} PowerOf2Exponent(n: nat) returns (k: nat)
    requires IsPowerOf2(n)
    ensures n == Pow2(k)
  {
    if n == 1 {
      k := 0;
    } else if n % 2 == 0 {
      assert (n - 1) / 2 == n / 2 - 1;
      k := PowerOf2Exponent(n / 2);
      k := k + 1;
    } else {
      k := 0;
      assert (n - 1) / 2 == n / 2;
      AndSelf(n / 2);
    }
  }

  lemma {:induction false} LeadingZerosOfPow2(k: nat, width: nat)
    requires k < width
    ensures LeadingZeros(Pow2(k), width) == width - 1 - k
  {
    if k < width - 1 {
      Pow2Monotone(k, width - 1);
      LeadingZerosOfPow2(k, width - 1);
    }
  }

  /** `log2` inverts the power on every 64-bit power of two; the 32-bit mask of a block size
      does not wrap. */
  lemma Log2OfPowerOf2(n: nat)
    requires IsPowerOf2(n) && n < WORD
    ensures 0 <= Log2(n) < WIDTH && Pow2(Log2(n)) == n
    ensures BlockSize(n) <==> Log2(n) < 32
  {
    hide LeadingZeros, BitAnd;
    var k := PowerOf2Exponent(n);
    WordIsPow2();
    if k > WIDTH { Pow2Monotone(WIDTH, k); }
    assert k < WIDTH;
    LeadingZerosOfPow2(k, WIDTH);
    if k > 32 { Pow2Monotone(32, k); }
    if k < 32 { Pow2Monotone(k, 32); }
  }

  // ---------------------------------------------------------------- masks are remainders

  lemma {:induction false} MaskIsLow(x: nat, k: nat)
    ensures BitAnd(x, Pow2(k) - 1) == Low(x, k)
  {
    if k != 0 {
      assert (Pow2(k) - 1) / 2 == Pow2(k - 1) - 1;
      MaskIsLow(x / 2, k - 1);
    }
  }

  lemma {:induction false} ShiftSplits(x: nat, k: nat)
    ensures Low(x, k) < Pow2(k)
    ensures x == ShiftRight(x, k) * Pow2(k) + Low(x, k)
  {
    if k != 0 {
      ShiftSplits(x / 2, k - 1);
      DoubleProduct(ShiftRight(x / 2, k - 1), Pow2(k - 1));
    }
  }

  lemma DoubleProduct(a: int, b: int)
    ensures a * (2 * b) == 2 * (a * b)
  {
  }

  /** Shifting right divides and masking takes the remainder. */
  lemma ShiftAndMask(x: nat, k: nat)
    ensures ShiftRight(x, k) == x / Pow2(k)
    ensures BitAnd(x, Pow2(k) - 1) == Low(x, k) == x % Pow2(k)
  {
    hide Pow2, Low, ShiftRight, BitAnd;
    MaskIsLow(x, k);
    ShiftSplits(x, k);
    RemainderUnique(x, Pow2(k), ShiftRight(x, k), Low(x, k));
  }

  lemma MultipleAtLeast(a: int, d: int)
    requires d > 0
    ensures a >= 1 ==> a * d >= d
    ensures a <= -1 ==> a * d <= -d
  {
  }

  lemma RemainderUnique(x: int, d: int, q: int, r: int)
    requires d > 0 && 0 <= r < d && x == q * d + r
    ensures x / d == q && x % d == r
  {
    var q', r' := x / d, x % d;
    assert (q - q') * d == r' - r;
    MultipleAtLeast(q - q', d);
  }

  /** Quotient and remainder, with the block start `x / b * b` as a multiple of `b`. */
  lemma DivMod(x: nat, b: nat)
    requires b > 0
    ensures 0 <= x % b < b
    ensures x == x / b * b + x % b
    ensures (x / b * b) / b == x / b
    ensures (x / b + 1) * b == x / b * b + b
  {
    RemainderUnique(x / b * b, b, x / b, 0);
  }

  lemma {:induction false} ComplementSplits(x: nat, y: nat, w: nat)
    requires x < Pow2(w) && y < Pow2(w)
    ensures BitAnd(x, Pow2(w) - 1 - y) == x - BitAnd(x, y)
  {
    if w != 0 {
      var m := Pow2(w) - 1 - y;
      assert m / 2 == Pow2(w - 1) - 1 - y / 2 && m % 2 == 1 - y % 2;
      ComplementSplits(x / 2, y / 2, w - 1);
      if m == 0 {
        assert y / 2 == Pow2(w - 1) - 1;
      }
    }
  }

  lemma OverrunIsRemainder(x: nat, b: nat)
    requires BlockSize(b) && x < WORD
    ensures BlockOverrun(x, b) == x % b
    ensures IsAligned(x, b) <==> x % b == 0
  {
    hide BitAnd, Pow2, Log2;
    Log2OfPowerOf2(b);
    ShiftAndMask(x, Log2(b));
  }

  lemma AlignLeftIsBlockStart(x: nat, b: nat)
    requires BlockSize(b) && x < WORD
    ensures AlignLeft(x, b) == x - x % b
  {
    OverrunIsRemainder(x, b);
    WordIsPow2();
    ComplementSplits(x, b - 1, WIDTH);
  }

  lemma IndexIsQuotient(x: nat, b: nat)
    requires BlockSize(b) && x < WORD
    ensures AlignLeft(x, b) == x / b * b
    ensures BlockIndex(x, b) == x / b
  {
    hide AlignLeft, Log2, Pow2, ShiftRight;
    AlignLeftIsBlockStart(x, b);
    DivMod(x, b);
    Log2OfPowerOf2(b);
    ShiftAndMask(AlignLeft(x, b), Log2(b));
  }

  lemma NextStart(x: nat, b: nat, start: nat, rest: nat)
    requires x == start + rest && rest < b && x + b < WORD
    ensures (start + b) % WORD == start + b && (start + b - x) % WORD == b - rest
  {
    SmallRemainder(start + b, WORD);
    SmallRemainder(b - rest, WORD);
  }

  lemma UnderrunIsDistance(x: nat, b: nat)
    requires BlockSize(b) && x + b < WORD
    ensures AlignRight(x, b) == (x / b + 1) * b
    ensures BlockUnderrun(x, b) == b - x % b
  {
    assert b > 0;
    hide AlignLeft, BlockSize, IsPowerOf2;
    AlignLeftIsBlockStart(x, b);
    DivMod(x, b);
    NextStart(x, b, AlignLeft(x, b), x % b);
  }

  /** Every bit trick of the header is the division or remainder it stands for. */
  lemma BlockArithmetic(x: nat, b: nat)
    requires BlockSize(b) && x < WORD
    ensures BlockOverrun(x, b) == x % b
    ensures AlignLeft(x, b) == x / b * b
    ensures BlockIndex(x, b) == x / b
    ensures IsAligned(x, b) <==> x % b == 0
    ensures x + b < WORD ==> AlignRight(x, b) == (x / b + 1) * b && BlockUnderrun(x, b) == b - x % b
  {
    OverrunIsRemainder(x, b);
    IndexIsQuotient(x, b);
    if x + b < WORD {
      UnderrunIsDistance(x, b);
    }
  }

  // ---------------------------------------------------------------- counting blocks

  /** The blocks that contain some byte of [offset, offset + size). */
  ghost function BlocksTouched(offset: nat, size: nat, b: nat): (s: set<nat>)
    requires b > 0
  {
    set i: nat | offset <= i < offset + size :: i / b
  }

  ghost function Interval(lo: nat, hi: nat): set<nat> {
    set i: nat {:trigger Within(lo, i, hi)} | lo <= i < hi && Within(lo, i, hi)
  }

  ghost predicate Within(lo: nat, i: nat, hi: nat) { lo <= i < hi }

  lemma {:induction false} IntervalSize(lo: nat, hi: nat)
    requires lo <= hi
    ensures |Interval(lo, hi)| == hi - lo
  {
    if lo < hi {
      IntervalSize(lo, hi - 1);
      assert Interval(lo, hi) == Interval(lo, hi - 1) + {hi - 1};
    } else {
      assert Interval(lo, hi) == {};
    }
  }

  lemma DivMonotone(x: nat, y: nat, b: nat)
    requires b > 0 && x <= y
    ensures x / b <= y / b
  {
    DivMod(x, b);
    DivMod(y, b);
    MultipleAtLeast(x / b - y / b, b);
    assert (x / b - y / b) * b == x / b * b - y / b * b;
  }

  lemma EveryBlockBetween(offset: nat, last: nat, b: nat, c: nat) returns (i: nat)
    requires b > 0 && offset <= last && offset / b <= c <= last / b
    ensures offset <= i <= last && i / b == c
  {
    if c == offset / b {
      i := offset;
    } else {
      i := c * b;
      DivMod(offset, b);
      DivMod(last, b);
      RemainderUnique(i, b, c, 0);
      ProductMonotone(offset / b + 1, c, b);
      ProductMonotone(c, last / b, b);
    }
  }

  lemma ProductMonotone(x: nat, y: nat, b: nat)
    requires x <= y
    ensures x * b <= y * b
  {
  }

  lemma TouchedIsInterval(offset: nat, size: nat, b: nat)
    requires b > 0 && size > 0
    ensures BlocksTouched(offset, size, b) == Interval(offset / b, (offset + size - 1) / b + 1)
  {
    var touched := BlocksTouched(offset, size, b);
    var last := offset + size - 1;
    forall c: nat | offset / b <= c <= last / b
      ensures c in touched
    {
      var i := EveryBlockBetween(offset, last, b, c);
    }
    forall c | c in touched
      ensures offset / b <= c <= last / b
    {
      var i: nat :| offset <= i < offset + size && c == i / b;
      DivMonotone(offset, i, b);
      DivMonotone(i, last, b);
    }
  }

  lemma FullMask(n: nat)
    requires n < WORD
    ensures BitAnd(n, WORD - 1) == n
  {
    hide Pow2, BitAnd;
    WordIsPow2();
    ShiftAndMask(n, WIDTH);
    SmallRemainder(n, WORD);
  }

  lemma SmallRemainder(n: nat, d: nat)
    requires n < d
    ensures n % d == n
  {
    RemainderUnique(n, d, 0, n);
  }

  lemma CountInRange(offset: nat, size: nat, b: nat)
    requires b > 0 && size > 0 && offset + size < WORD
    ensures 0 <= (offset + size - 1) / b + 1 - offset / b < WORD
  {
    DivMonotone(offset, offset + size - 1, b);
    QuotientAtMost(offset + size - 1, b);
  }

  lemma BlockCountFormula(offset: nat, size: nat, b: nat)
    requires BlockSize(b) && offset + size < WORD && size > 0
    ensures BlockCount(offset, size, b) == (offset + size - 1) / b + 1 - offset / b
  {
    hide BlockIndex, IsAligned, BitAnd;
    var e := offset + size;
    assert BlockIndex(offset, b) == offset / b by { IndexIsQuotient(offset, b); }
    assert BlockIndex(e, b) == e / b by { IndexIsQuotient(e, b); }
    assert IsAligned(e, b) <==> e % b == 0 by { OverrunIsRemainder(e, b); }
    LastBlock(e, b);
    CountInRange(offset, size, b);
    FullMask((e - 1) / b + 1 - offset / b);
  }

  lemma BlockCountOfNothing(offset: nat, b: nat)
    requires BlockSize(b) && offset < WORD
    ensures BlockCount(offset, 0, b) == 0
  {
    hide BlockIndex, IsAligned, BlockSize;
  }

  lemma TouchedCount(offset: nat, size: nat, b: nat)
    requires b > 0
    ensures |BlocksTouched(offset, size, b)| ==
            if size == 0 then 0 else (offset + size - 1) / b + 1 - offset / b
  {
    if size == 0 {
      assert BlocksTouched(offset, size, b) == {};
    } else {
      hide BlocksTouched;
      TouchedIsInterval(offset, size, b);
      DivMonotone(offset, offset + size - 1, b);
      IntervalSize(offset / b, (offset + size - 1) / b + 1);
    }
  }

  /** `block_count` is the number of blocks that hold a byte of the range, and 0 for an
      empty range. */
  lemma BlockCountCountsBlocks(offset: nat, size: nat, b: nat)
    requires BlockSize(b) && offset + size < WORD
    ensures BlockCount(offset, size, b) == |BlocksTouched(offset, size, b)|
  {
    hide BlockCount, BlocksTouched;
    TouchedCount(offset, size, b);
    if size == 0 {
      BlockCountOfNothing(offset, b);
    } else {
      BlockCountFormula(offset, size, b);
    }
  }

  lemma LastBlock(e: nat, b: nat)
    requires b > 0 && e > 0
    ensures (e - 1) / b + 1 == e / b + (if e % b == 0 then 0 else 1)
  {
    assert e == e / b * b + e % b;
    if e % b == 0 {
      assert e - 1 == (e / b - 1) * b + (b - 1) by { assert (e / b - 1) * b == e / b * b - b; }
      RemainderUnique(e - 1, b, e / b - 1, b - 1);
    } else {
      RemainderUnique(e - 1, b, e / b, e % b - 1);
    }
  }

  lemma QuotientAtMost(e: nat, b: nat)
    requires b > 0
    ensures e / b <= e
  {
    DivMod(e, b);
    TimesAtLeast(e / b, b);
  }

  lemma TimesAtLeast(q: nat, b: nat)
    requires b > 0
    ensures q * b >= q
  {
  }
}
