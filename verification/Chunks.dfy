/** The bitmap of a page of equal-sized chunks, and what allocating and freeing do to it.

    The source builds its bit masks with shifts of the 32-bit constant 1. `Shift32` is that
    reading: shifting by 32 or more is undefined, and shifting by 31 gives, in a 64-bit
    word, bits 31 to 63. `Shift64` is the reading with a 64-bit constant.
 */
module Chunks {
  import opened Bits

  datatype Reading = Shift32 | Shift64

  /** 256 bits: bit `b` of word `w` is `bits[64 * w + b]`. */
  type Bitmap = bits: seq<bool> | |bits| == 256 witness seq(256, _ => false)

  // ---- geometry ----

  /** Chunk orders run from 0 (16 bytes) to 6 (1024 bytes). */
  type Order = k: nat | k <= 6

  function ChunkSize(order: Order): (r: nat)
    ensures r > 0
  {
    Pow2(order + 4)
  }

  /** `4096 >> (order + 4)` */
  function Slots(order: Order): (r: nat)
    ensures r <= 256
  {
    assert Pow2(8) == 256;
    Pow2Monotone(8 - order, 8);
    Pow2(8 - order)
  }

  /** The slots that malloc_prepare_pghdr marks for the page header. */
  function Reserved(order: Order): nat {
    if order == 0 then 3 else if order == 1 then 2 else 1
  }

  const HEADER_BYTES: nat := 48

  lemma Sizes(order: Order)
    ensures ChunkSize(order) * Slots(order) == 4096
    ensures ChunkSize(order) == [16, 32, 64, 128, 256, 512, 1024][order]
    ensures Slots(order) == [256, 128, 64, 32, 16, 8, 4][order]
  {
    assert Pow2(2) == 4 && Pow2(3) == 8 && Pow2(4) == 16 && Pow2(5) == 32 && Pow2(6) == 64 && Pow2(7) == 128;
    assert Pow2(8) == 256 && Pow2(9) == 512 && Pow2(10) == 1024;
  }

  lemma SlotBounds(order: Order)
    ensures 4 <= Slots(order) <= 256 && Reserved(order) <= 3
    ensures Slots(order) > 32 ==> Slots(order) >= 64
  {
    Sizes(order);
  }

  /** Offset of a slot in its page. */
  function Offset(slot: nat, order: Order): nat { slot * ChunkSize(order) }

  /** Chunks of different slots do not overlap, all lie in the page, and exactly the
      reserved slots touch the header. */
  lemma Geometry(s: nat, t: nat, order: Order)
    requires s < t < Slots(order)
    ensures Offset(s, order) + ChunkSize(order) <= Offset(t, order)
    ensures Offset(t, order) + ChunkSize(order) <= 4096
    ensures Offset(s, order) < HEADER_BYTES <==> s < Reserved(order)
  {
    Sizes(order);
  }

  // ---- masks ----

  /** The positions that `1 << (slot & 63)` covers in the word of `slot`: [slot, MaskEnd). */
  predicate Defined(slot: nat, reading: Reading) {
    reading.Shift64? || slot % 64 < 32
  }

  function MaskEnd(slot: nat, reading: Reading): (end: nat)
    ensures slot < end
    ensures slot < 256 ==> end <= 256
  {
    if reading.Shift32? && slot % 64 == 31 then slot + 33 else slot + 1
  }

  /** The value of bits s to e - 1 of a word. */
  function BitsValue(s: nat, e: nat): nat
    requires s <= e
    decreases e - s
  {
    if s == e then 0 else Pow2(s) + BitsValue(s + 1, e)
  }

  lemma {:induction false} BitsSum(s: nat, e: nat)
    requires s <= e
    ensures BitsValue(s, e) == Pow2(e) - Pow2(s)
    decreases e - s
  {
    if s < e {
      BitsSum(s + 1, e);
      assert Pow2(s + 1) == 2 * Pow2(s);
    }
  }

  /** The bits of the mask, `s` to `e - 1` of the word, make up the shifted constant: one bit, but
      for the 32-bit constant shifted by 31, which is negative and widened with its sign. */
  lemma MaskIs(slot: nat, reading: Reading, w: nat, s: nat, e: nat)
    requires slot == 64 * w + s && s < 64 && Defined(slot, reading)
    requires MaskEnd(slot, reading) == 64 * w + e
    ensures s < e <= 64
    ensures if reading == Shift32 && s == 31 then e == 64 && BitsValue(s, e) == Pow2(e) - Pow2(s)
            else BitsValue(s, e) == Pow2(s)
  {
    assert slot % 64 == s;
    BitsSum(s, e);
    var two := Pow2(s + 1);
    assert two == 2 * Pow2(s);
  }

  /** The bits of a word under a mask are all clear. */
  predicate Clear(bits: Bitmap, slot: nat, reading: Reading)
    requires slot < 256
  {
    forall k :: slot <= k < MaskEnd(slot, reading) ==> !bits[k]
  }

  function Assign(bits: Bitmap, slot: nat, reading: Reading, value: bool): (bits': Bitmap)
    requires slot < 256
    ensures forall k :: 0 <= k < 256 ==> bits'[k] == if slot <= k < MaskEnd(slot, reading) then value else bits[k]
  {
    seq(256, k requires 0 <= k < 256 => if slot <= k < MaskEnd(slot, reading) then value else bits[k])
  }

  // ---- malloc_mark_open_slot ----

  datatype Marked = Slot(slot: nat, bits: Bitmap) | NoneOpen | Undefined

  /** The search from slot `i` on. */
  function MarkFrom(bits: Bitmap, order: Order, reading: Reading, i: nat): Marked
    decreases Slots(order) - i
  {
    Sizes(order);
    if i >= Slots(order) then NoneOpen
    else if !Defined(i, reading) then Undefined
    else if Clear(bits, i, reading) then Slot(i, Assign(bits, i, reading, true))
    else MarkFrom(bits, order, reading, i + 1)
  }

  // ---- a page and its live chunks ----

  /** `live` is the set of slots handed out and not yet freed. */
  datatype Page = Page(order: Order, bits: Bitmap, nAllocations: nat, live: set<nat>)

  /** The slots that the search can reach. */
  function Reachable(order: Order, reading: Reading): (r: nat)
    ensures r <= 256
  {
    Sizes(order);
    if reading.Shift32? && Slots(order) > 32 then 32 else Slots(order)
  }

  function Capacity(order: Order, reading: Reading): int {
    Reachable(order, reading) - Reserved(order)
  }

  /** The bitmap marks exactly the header and the live chunks, and the counter counts these. */
  ghost predicate Inv(p: Page, reading: Reading) {
    && (forall s :: s in p.live ==> Reserved(p.order) <= s < Reachable(p.order, reading))
    && (forall s :: 0 <= s < Reachable(p.order, reading) ==> (p.bits[s] <==> s < Reserved(p.order) || s in p.live))
    && (reading.Shift32? && 32 <= Reachable(p.order, reading) ==> forall s :: 32 <= s < 64 ==> p.bits[s] == p.bits[31])
    && p.nAllocations == |p.live|
  }

  /** malloc_prepare_pghdr on a page whose bitmap holds whatever it held. */
  function Prepare(bits: Bitmap, order: Order): (p: Page)
    ensures forall k :: 0 <= k < 256 ==> p.bits[k] == (k < Reserved(order) || bits[k])
  {
    Page(order, seq(256, k requires 0 <= k < 256 => k < Reserved(order) || bits[k]), 0, {})
  }

  /** The header it writes is right exactly when the bits it leaves alone were clear. */
  lemma PrepareExact(bits: Bitmap, order: Order, reading: Reading)
    ensures Inv(Prepare(bits, order), reading) <==>
            forall s :: Reserved(order) <= s < (if reading.Shift32? && Slots(order) >= 32 then 64 else Slots(order)) ==>
              !bits[s]
  {
    Sizes(order);
    var p := Prepare(bits, order);
    assert forall s :: Reserved(order) <= s < 256 ==> p.bits[s] == bits[s];
  }

  // ---- kmalloc on a page ----

  /** The fullness test. */
  predicate IsFull(p: Page) {
    p.nAllocations >= Slots(p.order) - 1
  }

  datatype Allocation = Full | Chunk(slot: nat, page: Page) | Stuck

  /** A page that passes the fullness test is counted up first and then searched. When the
      search finds nothing it returns 0, and slot 0, the header itself, is handed out. */
  function Allocate(p: Page, reading: Reading): Allocation {
    if IsFull(p) then Full
    else
      match MarkFrom(p.bits, p.order, reading, 0)
      case Slot(s, bits) => Chunk(s, Page(p.order, bits, p.nAllocations + 1, p.live + {s}))
      case NoneOpen => Chunk(0, Page(p.order, p.bits, p.nAllocations + 1, p.live + {0}))
      case Undefined => Stuck
  }

  /** What a page that is not full is for: a chunk that was not live, clear of the header. */
  ghost predicate AllocateContract(p: Page, reading: Reading, a: Allocation) {
    && a.Chunk? && Reserved(p.order) <= a.slot && a.slot !in p.live
    && a.page.live == p.live + {a.slot} && Inv(a.page, reading)
  }

  function Interval(lo: nat, hi: nat): (s: set<nat>)
    ensures forall x :: x in s <==> lo <= x < hi
    ensures |s| == if lo <= hi then hi - lo else 0
    decreases hi
  {
    if lo >= hi then {} else Interval(lo, hi - 1) + {hi - 1}
  }

  lemma SmallerSet(s: set<nat>, t: set<nat>)
    requires s <= t
    ensures |s| <= |t|
    ensures |s| == |t| ==> s == t
  {
    assert t == s + (t - s);
    assert |t| == |s| + |t - s|;
    if |t - s| == 0 {
      assert t - s == {};
    }
  }

  /** A page has an unmarked reachable slot exactly when its live chunks do not fill it. */
  lemma OpenSlot(p: Page, reading: Reading)
    requires Inv(p, reading)
    ensures |p.live| <= Capacity(p.order, reading)
    ensures |p.live| < Capacity(p.order, reading) <==> exists s :: 0 <= s < Reachable(p.order, reading) && !p.bits[s]
  {
    SlotBounds(p.order);
    var all := Interval(Reserved(p.order), Reachable(p.order, reading));
    SmallerSet(p.live, all);
    if |p.live| < Capacity(p.order, reading) {
      assert p.live != all;
      var s :| s in all && s !in p.live;
      assert !p.bits[s];
    }
  }

  lemma ClearIff(p: Page, reading: Reading, s: nat)
    requires Inv(p, reading) && s < Reachable(p.order, reading)
    ensures Defined(s, reading)
    ensures Clear(p.bits, s, reading) <==> !p.bits[s]
  {
    SlotBounds(p.order);
  }

  predicate AllMarked(bits: Bitmap, from: nat, to: nat)
    requires to <= 256
  {
    forall k :: from <= k < to ==> bits[k]
  }

  lemma MarkStep(p: Page, reading: Reading, i: nat)
    requires Inv(p, reading) && i < Reachable(p.order, reading)
    ensures i < 256
    ensures MarkFrom(p.bits, p.order, reading, i)
         == if p.bits[i] then MarkFrom(p.bits, p.order, reading, i + 1) else Slot(i, Assign(p.bits, i, reading, true))
  {
    ClearIff(p, reading, i);
  }

  /** What the search from slot `i` on finds: the lowest unmarked reachable slot. With none it
      runs off the end of the slots, or into a shift that is undefined. */
  predicate Finds(p: Page, reading: Reading, i: nat, m: Marked) {
    var r := Reachable(p.order, reading);
    match m
    case Slot(s, bits) =>
      i <= s < r && !p.bits[s] && bits == Assign(p.bits, s, reading, true) && AllMarked(p.bits, i, s)
    case NoneOpen => r == Slots(p.order) && AllMarked(p.bits, i, r)
    case Undefined => r < Slots(p.order) && AllMarked(p.bits, i, r)
  }

  lemma FindsStep(p: Page, reading: Reading, i: nat, m: Marked)
    requires i < 256 && p.bits[i] && Finds(p, reading, i + 1, m)
    ensures Finds(p, reading, i, m)
  {
  }

  lemma {:induction false} MarkFinds(p: Page, reading: Reading, i: nat)
    requires Inv(p, reading) && i <= Reachable(p.order, reading)
    ensures Finds(p, reading, i, MarkFrom(p.bits, p.order, reading, i))
    decreases Reachable(p.order, reading) - i
  {
    if i < Reachable(p.order, reading) {
      MarkStep(p, reading, i);
      if p.bits[i] {
        MarkFinds(p, reading, i + 1);
        FindsStep(p, reading, i, MarkFrom(p.bits, p.order, reading, i + 1));
      }
    }
  }

  /** Marking an open slot and counting it keeps the invariant. */
  lemma MarkKeeps(p: Page, reading: Reading, s: nat)
    requires Inv(p, reading) && s < Reachable(p.order, reading) && !p.bits[s]
    ensures Inv(Page(p.order, Assign(p.bits, s, reading, true), p.nAllocations + 1, p.live + {s}), reading)
  {
    SlotBounds(p.order);
    assert s !in p.live && |p.live + {s}| == |p.live| + 1;
  }

  /** A page counts as full exactly when one more chunk would make as many as it has slots. */
  lemma FullExact(p: Page, reading: Reading)
    requires Inv(p, reading)
    ensures IsFull(p) <==> |p.live| + 1 >= [256, 128, 64, 32, 16, 8, 4][p.order]
    ensures Allocate(p, reading).Full? <==> |p.live| + 1 >= [256, 128, 64, 32, 16, 8, 4][p.order]
  {
    Sizes(p.order);
  }

  /** The slots behind the header that the search can reach, in numbers. */
  lemma Capacities(order: Order)
    ensures Capacity(order, Shift64) == [253, 126, 63, 31, 15, 7, 3][order]
    ensures Capacity(order, Shift32) == [29, 30, 31, 31, 15, 7, 3][order]
  {
    Sizes(order);
  }

  lemma AllReachable(order: Order, reading: Reading)
    requires order >= if reading.Shift64? then 2 else 3
    ensures Reachable(order, reading) == Slots(order) && Reserved(order) == 1
    ensures Slots(order) == [256, 128, 64, 32, 16, 8, 4][order] > 1
  {
    Sizes(order);
  }

  /** From order 2 on (3 with the 32-bit masks) a page refuses exactly when every slot behind the
      header is live. */
  lemma FullMeansFull(p: Page, reading: Reading)
    requires Inv(p, reading) && p.order >= if reading.Shift64? then 2 else 3
    ensures Allocate(p, reading).Full? <==> forall s :: Reserved(p.order) <= s < Slots(p.order) ==> s in p.live
  {
    AllReachable(p.order, reading);
    FullExact(p, reading);
    var all := Interval(Reserved(p.order), Slots(p.order));
    SmallerSet(p.live, all);
    assert (forall s :: Reserved(p.order) <= s < Slots(p.order) ==> s in p.live) <==> p.live == all;
  }

  /** A page refuses exactly when it counts as full. Otherwise it gives a proper chunk, the lowest
      unmarked slot, exactly when its live chunks do not fill the slots the search can reach; if they
      do, the invariant is lost. */
  lemma AllocateExact(p: Page, reading: Reading)
    requires Inv(p, reading)
    ensures var a := Allocate(p, reading);
            && (a.Full? <==> |p.live| + 1 >= [256, 128, 64, 32, 16, 8, 4][p.order])
            && (!a.Full? ==> (AllocateContract(p, reading, a) <==> |p.live| < Capacity(p.order, reading)))
            && (!a.Full? ==> (a.Chunk? && Inv(a.page, reading) <==> |p.live| < Capacity(p.order, reading)))
  {
    FullExact(p, reading);
    if !IsFull(p) {
      AllocateOpen(p, reading);
    }
  }

  lemma AllocateOpen(p: Page, reading: Reading)
    requires Inv(p, reading) && !IsFull(p)
    ensures var a := Allocate(p, reading);
            && !a.Full?
            && (AllocateContract(p, reading, a) <==> |p.live| < Capacity(p.order, reading))
            && (a.Chunk? && Inv(a.page, reading) <==> |p.live| < Capacity(p.order, reading))
  {
    OpenSlot(p, reading);
    MarkFinds(p, reading, 0);
    match MarkFrom(p.bits, p.order, reading, 0) {
      case Slot(s, bits) => MarkKeeps(p, reading, s);
      case NoneOpen => HeaderIsNoChunk(Allocate(p, reading).page, reading);
      case Undefined =>
    }
  }

  /** With `n` live chunks the fullness test lets a request through only to an open slot. */
  predicate TestHolds(order: Order, reading: Reading, n: nat) {
    n < Slots(order) - 1 ==> n < Capacity(order, reading)
  }

  /** The fullness test is strict enough exactly from order 2 on for 64-bit masks, and from
      order 3 on for the 32-bit ones. */
  lemma TestSuffices(order: Order, reading: Reading)
    ensures (forall n: nat :: TestHolds(order, reading, n)) <==> order >= if reading.Shift64? then 2 else 3
  {
    Sizes(order);
    var c := Capacity(order, reading);
    assert TestHolds(order, reading, c) <==> Slots(order) - 1 <= c;
  }

  // ---- kfree ----

  datatype Release = Freed(page: Page) | Unspecified

  /** The slot kfree computes from an address: `(address & 0x3FF) >> (order + 4)`. */
  function FreedSlot(offset: nat, order: Order): nat {
    DivBound(offset % 1024, ChunkSize(order));
    offset % 1024 / ChunkSize(order)
  }

  lemma DivBound(a: nat, s: nat)
    requires s > 0
    ensures a / s >= 0
  {
    var q, r := QuotientRemainder(a, s);
    QuotientIs(a, s, q);
  }

  function Free(p: Page, slot: nat, reading: Reading): Release {
    var s := FreedSlot(Offset(slot, p.order), p.order);
    FreedSlotBound(Offset(slot, p.order), p.order);
    if Defined(s, reading) then
      Freed(Page(p.order, Assign(p.bits, s, reading, false), (p.nAllocations + 0xFFFF) % 0x1_0000, p.live - {slot}))
    else Unspecified
  }

  lemma FreedSlotBound(offset: nat, order: Order)
    ensures FreedSlot(offset, order) * ChunkSize(order) <= offset % 1024
    ensures FreedSlot(offset, order) < 64
  {
    Sizes(order);
    var r := offset % 1024;
    DivMod(r, ChunkSize(order));
    MulOrder(64, FreedSlot(offset, order), ChunkSize(order));
  }

  lemma LowSlot(slot: nat, order: Order)
    requires Offset(slot, order) < 1024
    ensures FreedSlot(Offset(slot, order), order) == slot
  {
    QuotientIs(Offset(slot, order), ChunkSize(order), slot);
    QuotientIs(Offset(slot, order), 1024, 0);
  }

  lemma HighSlot(slot: nat, order: Order)
    requires Offset(slot, order) >= 1024
    ensures FreedSlot(Offset(slot, order), order) < slot
  {
    var f := FreedSlot(Offset(slot, order), order);
    FreedSlotBound(Offset(slot, order), order);
    MulOrder(f, slot, ChunkSize(order));
  }

  /** Only chunks in the first 1024 bytes of the page are recognised; others are taken for an
      earlier slot. */
  lemma FreedSlotExact(slot: nat, order: Order)
    ensures FreedSlot(Offset(slot, order), order) == slot <==> Offset(slot, order) < 1024
    ensures FreedSlot(Offset(slot, order), order) <= slot
  {
    if Offset(slot, order) < 1024 {
      LowSlot(slot, order);
    } else {
      HighSlot(slot, order);
    }
  }

  /** Clearing the mark of a live chunk and counting down keeps the invariant. */
  lemma ClearKeeps(p: Page, reading: Reading, slot: nat)
    requires Inv(p, reading) && slot in p.live
    ensures p.nAllocations > 0
    ensures Inv(Page(p.order, Assign(p.bits, slot, reading, false), p.nAllocations - 1, p.live - {slot}), reading)
  {
    assert |p.live - {slot}| == |p.live| - 1;
  }

  /** Clearing another mark leaves the chunk marked that is no longer live. */
  lemma WrongMark(p: Page, reading: Reading, slot: nat, s: nat, n: nat)
    requires Inv(p, reading) && slot in p.live && s < slot && Defined(s, reading)
    ensures !Inv(Page(p.order, Assign(p.bits, s, reading, false), n, p.live - {slot}), reading)
  {
    var bits := Assign(p.bits, s, reading, false);
    SlotBounds(p.order);
    assert bits[slot];
  }

  /** Which slot is cleared for any slot: its position within its quarter of the page. */
  lemma FreedSlotIs(slot: nat, order: Order)
    ensures FreedSlot(Offset(slot, order), order) == slot % [64, 32, 16, 8, 4, 2, 1][order]
  {
    Sizes(order);
    var c, m := ChunkSize(order), [64, 32, 16, 8, 4, 2, 1][order];
    assert c * m == 1024;
    var q, r := QuotientRemainder(slot, m);
    QuotientIs(slot, m, q);
    assert q * m * c == q * 1024 by {
      MulAssociative(q, m, c);
    }
    assert slot * c == q * 1024 + r * c;
    MulOrder(r + 1, m, c);
    QuotientIs(slot * c, 1024, q);
    QuotientIs(r * c, c, r);
  }

  /** Freeing a live chunk keeps the invariant exactly for chunks in the first 1024 bytes. */
  lemma FreeExact(p: Page, slot: nat, reading: Reading)
    requires Inv(p, reading) && slot in p.live
    ensures Free(p, slot, reading).Freed? && Inv(Free(p, slot, reading).page, reading) <==> Offset(slot, p.order) < 1024
    ensures Offset(slot, p.order) < 1024 ==>
              Free(p, slot, reading)
              == Freed(Page(p.order, Assign(p.bits, slot, reading, false), p.nAllocations - 1, p.live - {slot}))
  {
    FreedSlotExact(slot, p.order);
    OpenSlot(p, reading);
    ClearKeeps(p, reading, slot);
    var s := FreedSlot(Offset(slot, p.order), p.order);
    if s == slot {
      ClearIff(p, reading, slot);
      CountDown(p.nAllocations);
    } else if Defined(s, reading) {
      WrongMark(p, reading, slot, s, (p.nAllocations + 0xFFFF) % 0x1_0000);
    }
  }

  lemma CountDown(n: nat)
    ensures 0 < n <= 256 ==> (n + 0xFFFF) % 0x1_0000 == n - 1
  {
  }

  /** Freeing a chunk just handed out brings back the page as it was, bitmap and all. */
  lemma FreeUndoesAllocate(p: Page, reading: Reading)
    requires Inv(p, reading) && Allocate(p, reading).Chunk? && |p.live| < Capacity(p.order, reading)
    ensures var a := Allocate(p, reading);
            Free(a.page, a.slot, reading) == Freed(p) <==> Offset(a.slot, p.order) < 1024
  {
    var a := Allocate(p, reading);
    AllocateExact(p, reading);
    MarkFinds(p, reading, 0);
    ClearIff(p, reading, a.slot);
    FreeExact(a.page, a.slot, reading);
    FreedSlotExact(a.slot, p.order);
    OpenSlot(p, reading);
    SlotBounds(p.order);
    if Offset(a.slot, p.order) < 1024 {
      assert Assign(a.page.bits, a.slot, reading, false) == p.bits;
      assert a.page.live - {a.slot} == p.live;
    }
  }

  // ---- runs ----

  datatype Op = AllocateOp | FreeOp(slot: nat)

  predicate Sensible(p: Page, op: Op) {
    op.FreeOp? ==> op.slot in p.live
  }

  /** The page after a call, if the call is defined. */
  function Step(p: Page, op: Op, reading: Reading): (r: Release) {
    match op
    case AllocateOp =>
      (match Allocate(p, reading)
       case Full => Freed(p)
       case Chunk(_, q) => Freed(q)
       case Stuck => Unspecified)
    case FreeOp(slot) => Free(p, slot, reading)
  }

  predicate StepWorks(p: Page, op: Op, reading: Reading) {
    match op
    case AllocateOp => IsFull(p) || |p.live| < Capacity(p.order, reading)
    case FreeOp(slot) => Offset(slot, p.order) < 1024
  }

  /** Every call of the run is defined and leaves the invariant, and only live chunks are freed. */
  ghost predicate RunInv(p: Page, ops: seq<Op>, reading: Reading)
    decreases |ops|
  {
    Inv(p, reading) &&
    (ops == [] ||
     (Sensible(p, ops[0]) && Step(p, ops[0], reading).Freed? && RunInv(Step(p, ops[0], reading).page, ops[1..], reading)))
  }

  predicate RunWorks(p: Page, ops: seq<Op>, reading: Reading)
    decreases |ops|
  {
    ops == [] ||
    (Sensible(p, ops[0]) && StepWorks(p, ops[0], reading) &&
     Step(p, ops[0], reading).Freed? && RunWorks(Step(p, ops[0], reading).page, ops[1..], reading))
  }

  lemma StepExact(p: Page, op: Op, reading: Reading)
    requires Inv(p, reading) && Sensible(p, op)
    ensures Step(p, op, reading).Freed? && Inv(Step(p, op, reading).page, reading) <==> StepWorks(p, op, reading)
  {
    match op {
      case AllocateOp =>
        AllocateStepExact(p, reading);
      case FreeOp(slot) => FreeExact(p, slot, reading);
    }
  }

  lemma AllocateStepExact(p: Page, reading: Reading)
    requires Inv(p, reading)
    ensures Step(p, AllocateOp, reading).Freed? && Inv(Step(p, AllocateOp, reading).page, reading) <==>
            StepWorks(p, AllocateOp, reading)
  {
    if !Allocate(p, reading).Full? {
      AllocateExact(p, reading);
    }
  }

  /** A page on which slot 0 was handed out violates the invariant. */
  lemma HeaderIsNoChunk(p: Page, reading: Reading)
    requires 0 in p.live
    ensures !Inv(p, reading)
  {
  }

  /** A run keeps bitmap, counter and live chunks in agreement throughout exactly when each of
      its calls works. */
  lemma {:induction false} RunExact(p: Page, ops: seq<Op>, reading: Reading)
    requires Inv(p, reading)
    ensures RunInv(p, ops, reading) <==> RunWorks(p, ops, reading)
    decreases |ops|
  {
    if ops != [] && Sensible(p, ops[0]) {
      StepExact(p, ops[0], reading);
      if StepWorks(p, ops[0], reading) {
        RunExact(Step(p, ops[0], reading).page, ops[1..], reading);
      }
    }
  }

  /** With the 32-bit masks only slots below 32 are ever handed out, so in the pages of 16- and
      32-byte chunks every free works. */
  lemma SmallChunksFree(p: Page, slot: nat)
    requires Inv(p, Shift32) && slot in p.live && p.order <= 1
    ensures StepWorks(p, FreeOp(slot), Shift32)
  {
    SlotBounds(p.order);
  }

  // ---- the order of a request ----

  /** kmalloc takes the integer logarithm of the size, and at least 4. */
  function RequestOrder(bytes: nat): nat {
    if FloorLog2(bytes) < 4 then 0 else FloorLog2(bytes) - 4
  }

  /** The chunk is of 16 bytes for requests of fewer than 32, and otherwise more than half as large
      as the request and no larger. */
  lemma RequestOrderIs(bytes: nat)
    requires bytes <= 1024
    ensures RequestOrder(bytes) <= 6
    ensures if bytes < 32 then RequestOrder(bytes) == 0
            else ChunkSize(RequestOrder(bytes)) <= bytes < 2 * ChunkSize(RequestOrder(bytes))
  {
    assert Pow2(4) == 16 && Pow2(5) == 32 && Pow2(10) == 1024;
    var k := FloorLog2(bytes);
    if bytes > 0 && k > 10 {
      Pow2Monotone(10, k);
    }
    if bytes < 32 && k > 4 {
      Pow2Monotone(5, k);
    }
    if bytes >= 32 && k < 5 {
      Pow2Monotone(k + 1, 5);
    }
  }

  /** The chunk is large enough exactly for requests of at most 16 bytes or a power of two. */
  lemma RequestFits(bytes: nat)
    requires bytes <= 1024
    ensures RequestOrder(bytes) <= 6
    ensures ChunkSize(RequestOrder(bytes)) >= bytes <==> bytes <= 16 || bytes == Pow2(FloorLog2(bytes))
  {
    assert Pow2(4) == 16 && Pow2(10) == 1024;
    var k := FloorLog2(bytes);
    if bytes > 0 && k > 10 {
      Pow2Monotone(10, k);
    }
    if k < 4 {
      Pow2Monotone(k, 4);
    }
  }
}
