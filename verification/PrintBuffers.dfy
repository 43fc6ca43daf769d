/** The block itoa really gets: kmalloc rounds its request down, so numbers of any length are
    written to a chunk of 16 bytes.
 */
module PrintBuffers {
  import opened Bits
  import Chunks
  import opened Numbers

  lemma Fourfold(a: nat)
    ensures Pow2(a + 2) == 4 * Pow2(a)
  {
    assert Pow2(a + 2) == 2 * Pow2(a + 1);
  }

  lemma Eightfold(a: nat)
    ensures Pow2(a + 3) == 8 * Pow2(a)
  {
    Fourfold(a);
    assert Pow2(a + 3) == 2 * Pow2(a + 2);
  }

  lemma Sixteenfold(a: nat)
    ensures Pow2(a + 4) == 16 * Pow2(a)
  {
    Fourfold(a);
    Fourfold(a + 2);
  }

  /** A digit is worth at least three bits and at most four: numbers of `low == 3k` bits have at
      most `k` digits, those with a bit above the first `high == 4k` have more. */
  lemma {:induction false} DigitsBounds(num: nat, base: Base, k: nat, low: nat, high: nat)
    requires k > 0 && low == 3 * k && high == 4 * k
    ensures num < Pow2(low) ==> |Numbers.Digits(num, base)| <= k
    ensures num >= Pow2(high) ==> |Numbers.Digits(num, base)| > k
  {
    var q := Quotient(num, base);
    Eightfold(low - 3);
    Sixteenfold(high - 4);
    if k > 1 && q > 0 {
      DigitsBounds(q, base, k - 1, low - 3, high - 4);
    }
  }

  lemma RequestSize(num: int, least: int, base: Base, style: Style)
    requires Shown(num, least, base).Some? && num < Pow2(64)
    ensures 1 <= Requested(num, base, style) <= 26
  {
    if num > 0 {
      DigitsCount(num, base);
      Pow2Monotone(64, 66);
      DigitsBounds(num, base, 22, 66, 88);
    }
  }

  /** For every 64-bit number the block is a chunk of 16 bytes, so itoa stays inside it exactly
      for texts of at most 15 characters. */
  lemma ItoaBlock(num: int, least: int, base: Base, style: Style)
    requires Shown(num, least, base).Some? && num < Pow2(64)
    ensures Chunks.RequestOrder(Requested(num, base, style)) == 0 && Chunks.ChunkSize(0) == 16
  {
    var n := Requested(num, base, style);
    RequestSize(num, least, base, style);
    assert Pow2(4) == 16 && Pow2(5) == 32;
    var k := FloorLog2(n);
    if k > 4 {
      Pow2Monotone(5, k);
    }
  }

  /** All 32-bit numbers fit in every base and style. */
  lemma WordsFit(num: int, least: int, base: Base, style: Style)
    requires Shown(num, least, base).Some? && 0 - Pow2(32) as int < num < Pow2(32)
    ensures |Text(num, least, base, style)| + 1 <= 16
  {
    var shown := Shown(num, least, base).value;
    Pow2Monotone(32, 33);
    DigitsBounds(shown, base, 11, 33, 44);
  }

  /** No number from 2^60 on does. */
  lemma LongsOverrun(num: int, least: int, base: Base, style: Style)
    requires num >= Pow2(60)
    ensures Shown(num, least, base).Some? && |Text(num, least, base, style)| + 1 > 16
  {
    DigitsBounds(num, base, 15, 45, 60);
  }
}
