/** Power-of-two block arithmetic used by the buddy allocator.

    Addresses are unsigned and unbounded here; masking and exclusive-or with a
    single bit are written as arithmetic, and `AlignClearsLowBits` and
    `FlipTogglesOneBit` say which bits those operations touch.
 */
module Bits {

  function Pow2(n: nat): (r: nat)
    ensures r > 0
  {
    if n == 0 then 1 else 2 * Pow2(n - 1)
  }

  /** Bit `i` of `x`. */
  function Bit(x: nat, i: nat): nat {
    x / Pow2(i) % 2
  }

  /** `x ^ (1 << i)` */
  function FlipBit(x: nat, i: nat): nat {
    if Bit(x, i) == 0 then x + Pow2(i)
    else
      BitSetBound(x, i);
      x - Pow2(i)
  }

  lemma BitSetBound(x: nat, i: nat)
    ensures Bit(x, i) != 0 ==> x >= Pow2(i)
  {
    if x < Pow2(i) {
      QuotientIs(x, Pow2(i), 0);
    }
  }

  /** Bytes in a block of the given order: `1 << (order + 12)`. */
  function Size(order: nat): (r: nat)
    ensures r > 0
  {
    Pow2(order + 12)
  }

  ghost predicate Aligned(a: nat, order: nat) {
    a % Size(order) == 0
  }

  /** `a & ~((1 << (order + 12)) - 1)` */
  function Align(a: nat, order: nat): (r: nat)
    ensures Aligned(r, order)
    ensures r <= a < r + Size(order)
  {
    ModBelow(a, Size(order));
    a - a % Size(order)
  }

  /** `a ^ (1 << (order + 12))`, the start of the buddy of block `a`. */
  function Flip(a: nat, order: nat): nat {
    FlipBit(a, order + 12)
  }

  // ---- division by a positive number ----

  lemma DivMod(a: nat, s: nat)
    requires s > 0
    ensures a == a / s * s + a % s
    ensures 0 <= a % s < s
  {
  }

  lemma QuotientRemainder(a: nat, s: nat) returns (q: nat, r: nat)
    requires s > 0
    ensures a == q * s + r && r < s
  {
    q, r := a / s, a % s;
    DivMod(a, s);
  }

  lemma MulOrder(p: nat, q: nat, s: nat)
    ensures p <= q ==> p * s <= q * s
    ensures p * s < q * s ==> p < q
  {
    if p <= q {
      assert (q - p) * s >= 0;
    } else {
      assert (p - q) * s >= 0;
    }
  }

  lemma QuotientIs(a: nat, s: nat, q: nat)
    requires s > 0
    requires q * s <= a < q * s + s
    ensures a / s == q && a % s == a - q * s
  {
    var d := a / s;
    DivMod(a, s);
    MulOrder(d, q + 1, s);
    MulOrder(q, d + 1, s);
  }

  lemma MulMod(q: nat, s: nat)
    requires s > 0
    ensures q * s % s == 0
    ensures q * s / s == q
  {
    QuotientIs(q * s, s, q);
  }

  lemma ModBelow(a: nat, s: nat)
    requires s > 0
    ensures 0 <= a % s <= a
    ensures (a - a % s) % s == 0
    ensures a < a - a % s + s
  {
    DivMod(a, s);
    MulMod(a / s, s);
  }

  /** A remainder below `t` scaled by `s`, plus one below `s`, is below `s * t`. */
  lemma Digits(q: nat, r: nat, t: nat, u: nat, s: nat)
    requires r < t && u < s
    ensures q * (s * t) <= (q * t + r) * s + u < q * (s * t) + s * t
  {
    assert (q * t + r) * s == q * (s * t) + r * s by {
      assert q * t * s == q * (s * t);
    }
    MulOrder(r, t - 1, s);
    assert (t - 1) * s == s * t - s;
    assert r * s >= 0;
  }

  /** Dividing twice is dividing by the product. */
  lemma DivDiv(a: nat, s: nat, t: nat)
    requires s > 0 && t > 0
    ensures s * t > 0
    ensures a / (s * t) == a / s / t
  {
    var d := a / s;
    DivMod(a, s);
    DivMod(d, t);
    Digits(d / t, d % t, t, a % s, s);
    assert s * t > 0;
    QuotientIs(a, s * t, d / t);
  }

  /** A remainder by a product, field by field. */
  lemma ModFields(y: nat, s: nat, t: nat)
    requires s > 0 && t > 0
    ensures s * t > 0
    ensures y % (s * t) == y / s % t * s + y % s
    ensures y % (s * t) / s == y / s % t
    ensures y % (s * t) % s == y % s
  {
    var q, r := QuotientRemainder(y, s);
    QuotientIs(y, s, q);
    var p, f := QuotientRemainder(q, t);
    QuotientIs(q, t, p);
    Digits(p, f, t, r, s);
    assert s * t > 0;
    QuotientIs(y, s * t, p);
    assert (p * t + f) * s == p * (s * t) + f * s by {
      assert p * t * s == p * (s * t);
    }
    QuotientIs(f * s + r, s, f);
  }

  lemma {:induction false} Pow2Add(i: nat, j: nat)
    ensures Pow2(i + j) == Pow2(i) * Pow2(j)
  {
    if i != 0 {
      Pow2Add(i - 1, j);
      assert Pow2(i + j) == 2 * Pow2(i - 1 + j);
    }
  }

  lemma {:induction false} Pow2Monotone(i: nat, j: nat)
    requires i <= j
    ensures Pow2(i) <= Pow2(j)
    ensures i < j ==> 2 * Pow2(i) <= Pow2(j)
  {
    if i < j {
      Pow2Monotone(i, j - 1);
    }
  }

  /** The exponent of the largest power of two that is at most `n`. */
  function FloorLog2(n: nat): (r: nat)
    ensures n >= 1 ==> Pow2(r) <= n < 2 * Pow2(r)
  {
    if n <= 1 then 0 else 1 + FloorLog2(n / 2)
  }

  lemma FloorLog2Is(n: nat, r: nat)
    requires Pow2(r) <= n < Pow2(r + 1)
    ensures FloorLog2(n) == r
  {
    var c := FloorLog2(n);
    if c > r {
      Pow2Monotone(r + 1, c);
    } else if c < r {
      Pow2Monotone(c + 1, r);
    }
  }

  // ---- aligned blocks ----

  lemma SizeDoubles(order: nat)
    ensures Size(order + 1) == 2 * Size(order)
  {
  }

  lemma AlignedMultiple(a: nat, order: nat) returns (q: nat)
    requires Aligned(a, order)
    ensures a == q * Size(order)
    ensures q == a / Size(order)
  {
    q := a / Size(order);
    DivMod(a, Size(order));
  }

  lemma MultipleAligned(q: nat, order: nat)
    ensures Aligned(q * Size(order), order)
  {
    MulMod(q, Size(order));
  }

  /** A block start aligned to some order is aligned to every smaller one. */
  lemma {:induction false} AlignedSmaller(a: nat, k: nat, j: nat)
    requires j <= k
    requires Aligned(a, k)
    ensures Aligned(a, j)
  {
    var q := AlignedMultiple(a, k);
    Pow2Add(k - j, j + 12);
    assert a == q * Pow2(k - j) * Size(j);
    MultipleAligned(q * Pow2(k - j), j);
  }

  /** `Align` is the only aligned block start whose block holds the address. */
  lemma AlignUnique(a: nat, order: nat, b: nat)
    requires Aligned(b, order)
    requires b <= a < b + Size(order)
    ensures b == Align(a, order)
  {
    var q := AlignedMultiple(b, order);
    QuotientIs(a, Size(order), q);
  }

  /** Aligning to a smaller order first changes nothing. */
  lemma AlignAlign(a: nat, j: nat, k: nat)
    requires j <= k
    ensures Align(Align(a, j), k) == Align(a, k)
  {
    var b := Align(a, k);
    AlignedSmaller(b, k, j);
    Nested(j, Align(a, j), k, b);
    AlignUnique(Align(a, j), k, b);
  }

  /** Cells `p` and `[q, q + m)` of a grid with step `s` overlap only by containment. */
  lemma GridNested(p: nat, q: nat, m: nat, s: nat)
    ensures p * s + s <= q * s || q * s + m * s <= p * s || (q * s <= p * s && p * s + s <= q * s + m * s)
  {
    assert (q + m) * s == q * s + m * s;
    MulOrder(p + 1, q, s);
    MulOrder(q + m, p, s);
    MulOrder(q, p, s);
    MulOrder(p + 1, q + m, s);
  }

  /** Two aligned blocks are either apart or the smaller lies inside the larger. */
  lemma Nested(j: nat, a: nat, k: nat, b: nat)
    requires j <= k
    requires Aligned(a, j) && Aligned(b, k)
    ensures a + Size(j) <= b || b + Size(k) <= a || (b <= a && a + Size(j) <= b + Size(k))
  {
    AlignedSmaller(b, k, j);
    var p := AlignedMultiple(a, j);
    var q := AlignedMultiple(b, j);
    Pow2Add(k - j, j + 12);
    GridNested(p, q, Pow2(k - j), Size(j));
  }

  /** `q ^ 1` */
  function Toggle(q: nat): nat {
    if q % 2 == 0 then q + 1 else q - 1
  }

  lemma FlipBitSum(q: nat, n: nat, r: nat)
    requires r < Pow2(n)
    ensures FlipBit(q * Pow2(n) + r, n) == Toggle(q) * Pow2(n) + r
  {
    QuotientIs(q * Pow2(n) + r, Pow2(n), q);
    if q % 2 == 0 {
      assert (q + 1) * Pow2(n) == q * Pow2(n) + Pow2(n);
    } else {
      assert (q - 1) * Pow2(n) == q * Pow2(n) - Pow2(n);
    }
  }

  lemma AlignMultiple(q: nat, k: nat)
    ensures Align(q * Size(k), k + 1) == q / 2 * Size(k + 1)
  {
    var h := q / 2;
    assert q == 2 * h + q % 2;
    MulOrder(2 * h, q, Size(k));
    MulOrder(q, 2 * h + 1, Size(k));
    assert (2 * h + 1) * Size(k) == 2 * h * Size(k) + Size(k);
    assert 2 * h * Size(k) == h * Size(k + 1);
    MultipleAligned(h, k + 1);
    AlignUnique(q * Size(k), k + 1, h * Size(k + 1));
  }

  /** The two halves of a block of order k+1 and how `Flip` moves between them. */
  lemma Buddies(b: nat, k: nat)
    requires Aligned(b, k)
    ensures Aligned(Flip(b, k), k)
    ensures Flip(Flip(b, k), k) == b
    ensures Align(b, k + 1) == if b < Flip(b, k) then b else Flip(b, k)
    ensures Align(Flip(b, k), k + 1) == Align(b, k + 1)
    ensures if b < Flip(b, k) then Flip(b, k) == b + Size(k) else b == Flip(b, k) + Size(k)
    ensures Aligned(b, k + 1) <==> b < Flip(b, k)
  {
    var q := AlignedMultiple(b, k);
    var p := Toggle(q);
    FlipBitSum(q, k + 12, 0);
    FlipBitSum(p, k + 12, 0);
    MultipleAligned(p, k);
    AlignMultiple(q, k);
    AlignMultiple(p, k);
    HalfSteps(q, Size(k));
    AlignedIffAlign(b, k + 1);
  }

  lemma HalfSteps(q: nat, s: nat)
    requires s > 0
    ensures q / 2 * (2 * s) == if q % 2 == 0 then q * s else Toggle(q) * s
    ensures q / 2 == Toggle(q) / 2 && Toggle(Toggle(q)) == q
    ensures if q % 2 == 0 then Toggle(q) * s == q * s + s else q * s == Toggle(q) * s + s
  {
    var h := q / 2;
    assert h * (2 * s) == 2 * h * s;
  }

  lemma AlignedIffAlign(b: nat, k: nat)
    ensures Aligned(b, k) <==> Align(b, k) == b
  {
  }

  /** A half is an aligned block of the order below, and the upper half is the lower one flipped. */
  lemma Halves(b: nat, k: nat)
    requires Aligned(b, k + 1)
    ensures Aligned(b, k)
    ensures Flip(b, k) == b + Size(k)
    ensures Aligned(b + Size(k), k)
    ensures Flip(b + Size(k), k) == b
  {
    AlignedSmaller(b, k + 1, k);
    Buddies(b, k);
  }

  // ---- what Align and Flip do to single bits ----

  lemma ShiftedQuotient(q: nat, s: nat, r: nat, t: nat)
    requires r < s && t > 0
    ensures s * t > 0
    ensures (q * s + r) / (s * t) == q / t
  {
    QuotientIs(q * s + r, s, q);
    DivDiv(q * s + r, s, t);
  }

  /** Bits at and above `n` of `q * 2^n + r` are the bits of `q`. */
  lemma HighBitsOfSum(q: nat, n: nat, r: nat, i: nat)
    requires r < Pow2(n)
    requires i >= n
    ensures Bit(q * Pow2(n) + r, i) == Bit(q, i - n)
  {
    Pow2Add(n, i - n);
    ShiftedQuotient(q, Pow2(n), r, Pow2(i - n));
  }

  lemma MulAssociative(a: nat, b: nat, c: nat)
    ensures a * (b * c) == a * b * c
  {
  }

  /** An even multiple of `s` does not change the parity of the quotient by `s`. */
  lemma EvenMultiple(h: nat, s: nat, r: nat)
    requires s > 0
    ensures (h * (2 * s) + r) / s % 2 == r / s % 2
  {
    var d := r / s;
    DivMod(r, s);
    assert (2 * h + d) * s == h * (2 * s) + d * s;
    QuotientIs(h * (2 * s) + r, s, 2 * h + d);
  }

  /** Bits below `n` of `q * 2^n + r` are the bits of `r`. */
  lemma LowBitsOfSum(q: nat, n: nat, r: nat, i: nat)
    requires i < n
    ensures Bit(q * Pow2(n) + r, i) == Bit(r, i)
  {
    Pow2Add(n - i - 1, i + 1);
    MulAssociative(q, Pow2(n - i - 1), 2 * Pow2(i));
    EvenMultiple(q * Pow2(n - i - 1), Pow2(i), r);
  }

  lemma AlignIs(a: nat, order: nat) returns (q: nat, r: nat)
    ensures a == q * Pow2(order + 12) + r && r < Pow2(order + 12) && Align(a, order) == q * Pow2(order + 12)
  {
    q, r := QuotientRemainder(a, Size(order));
    QuotientIs(a, Size(order), q);
  }

  lemma AlignClearsLowBits(a: nat, order: nat, i: nat)
    ensures Bit(Align(a, order), i) == if i < order + 12 then 0 else Bit(a, i)
  {
    var n := order + 12;
    var q, r := AlignIs(a, order);
    if i < n {
      LowBitsOfSum(q, n, 0, i);
      QuotientIs(0, Pow2(i), 0);
    } else {
      HighBitsOfSum(q, n, r, i);
      HighBitsOfSum(q, n, 0, i);
    }
  }

  lemma ToggleBits(q: nat, i: nat)
    ensures Bit(Toggle(q), i) == if i == 0 then 1 - Bit(q, 0) else Bit(q, i)
  {
    if i > 0 {
      Pow2Add(1, i - 1);
      DivDiv(q, 2, Pow2(i - 1));
      DivDiv(Toggle(q), 2, Pow2(i - 1));
      assert q / 2 == Toggle(q) / 2;
    }
  }

  lemma FlippedSumBits(a: nat, q: nat, n: nat, r: nat, i: nat)
    requires r < Pow2(n) && a == q * Pow2(n) + r
    ensures Bit(FlipBit(a, n), i) == if i == n then 1 - Bit(a, i) else Bit(a, i)
  {
    FlipBitSum(q, n, r);
    if i < n {
      LowBitsOfSum(q, n, r, i);
      LowBitsOfSum(Toggle(q), n, r, i);
    } else {
      HighBitsOfSum(q, n, r, i);
      HighBitsOfSum(Toggle(q), n, r, i);
      ToggleBits(q, i - n);
    }
  }

  lemma FlipTogglesOneBit(a: nat, order: nat, i: nat)
    ensures Bit(Flip(a, order), i) == if i == order + 12 then 1 - Bit(a, i) else Bit(a, i)
  {
    var n := order + 12;
    var q, r := QuotientRemainder(a, Pow2(n));
    FlippedSumBits(a, q, n, r, i);
  }
}
