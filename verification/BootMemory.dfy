/** The free lists that the boot loader's memory map produces. */
module BootMemory {
  import opened Bits
  import opened FreeLists

  datatype Range = Range(beginning: nat, size: nat)

  /** Frames of a range, as a 32-bit count. */
  function Frames(r: Range): nat {
    r.size / 4096 % 0x1_0000_0000
  }

  /** The block order chosen for a range; counts the source's loop does not recognise get order 0. */
  function RangeOrder(r: Range, top: nat): nat {
    if Frames(r) < Pow2(top + 1) then FloorLog2(Frames(r)) else 0
  }

  /** `n_frames >> order` */
  function RangeBlocks(r: Range, top: nat): nat {
    Frames(r) / Pow2(RangeOrder(r, top))
  }

  /** Start of block `j` of a range; the offset is a 32-bit value. */
  function RangeStart(r: Range, order: nat, j: nat): nat {
    r.beginning + j * Size(order) % 0x1_0000_0000
  }

  lemma {:induction false} RangeOrderListed(r: Range, top: nat)
    ensures RangeOrder(r, top) <= top
  {
    var n, k := Frames(r), FloorLog2(Frames(r));
    if n == 0 {
    } else if n < Pow2(top + 1) && k > top {
      Pow2Monotone(top + 1, k);
    }
  }

  /** The lists after the first `j` blocks of a range were pushed. */
  function PushBlocks(L: Lists, r: Range, j: nat): (M: Lists)
    requires |L| > 0
    ensures |M| == |L|
  {
    RangeOrderListed(r, |L| - 1);
    var k := RangeOrder(r, |L| - 1);
    if j == 0 then L else Push(PushBlocks(L, r, j - 1), k, RangeStart(r, k, j - 1))
  }

  function PushRange(L: Lists, r: Range): (M: Lists)
    requires |L| > 0
    ensures |M| == |L|
  {
    PushBlocks(L, r, RangeBlocks(r, |L| - 1))
  }

  /** initialize, on a map of ranges taken in order. */
  function Initial(ranges: seq<Range>, top: nat): (L: Lists)
    ensures |L| == top + 1
  {
    if ranges == [] then seq(top + 1, _ => [])
    else PushRange(Initial(ranges[..|ranges| - 1], top), ranges[|ranges| - 1])
  }

  // ---- what a range turns into ----

  /** A non-empty range of fewer than twice the top block's frames becomes one block, at its
      beginning, of more than half its frames; the rest is never managed. */
  lemma OneBlock(L: Lists, r: Range)
    requires |L| > 0 && 1 <= Frames(r) < Pow2(|L|)
    ensures var k := RangeOrder(r, |L| - 1);
            && k < |L| && PushRange(L, r) == Push(L, k, r.beginning)
            && Pow2(k) <= Frames(r) < 2 * Pow2(k)
  {
    RangeOrderListed(r, |L| - 1);
    BlockCount(r, |L| - 1);
    FirstBlock(L, r);
  }

  lemma BlockCount(r: Range, top: nat)
    requires 1 <= Frames(r)
    ensures Frames(r) < Pow2(top + 1) ==> RangeBlocks(r, top) == 1
    ensures Frames(r) >= Pow2(top + 1) ==> RangeBlocks(r, top) == Frames(r)
  {
    var n, k := Frames(r), RangeOrder(r, top);
    if n < Pow2(top + 1) {
      QuotientIs(n, Pow2(k), 1);
    } else {
      QuotientIs(n, Pow2(0), n);
    }
  }

  lemma FirstBlock(L: Lists, r: Range)
    requires |L| > 0
    ensures RangeOrder(r, |L| - 1) < |L|
    ensures PushBlocks(L, r, 1) == Push(L, RangeOrder(r, |L| - 1), r.beginning)
  {
    RangeOrderListed(r, |L| - 1);
    assert PushBlocks(L, r, 0) == L;
  }

  // ---- ranges in bytes ----

  /** The bytes of a range that its 32-bit frame count can tell. */
  function Bytes(r: Range): nat { r.size % 0x1000_0000_0000 }

  lemma FrameBytes(r: Range)
    ensures 4096 * Frames(r) <= Bytes(r) < 4096 * Frames(r) + 4096
  {
    ModFields(r.size, 4096, 0x1_0000_0000);
  }

  lemma SizeBytes(k: nat)
    ensures Size(k) == 4096 * Pow2(k)
  {
    assert Pow2(12) == 4096;
    Pow2Add(12, k);
  }

  /** Block (k, b) is one of those a range is cut into: a range of less than twice the top block gives
      the one block at its beginning that it fills more than half, a longer one every whole frame,
      at an offset that wraps at 2^32. */
  ghost predicate BlockOf(r: Range, top: nat, k: nat, b: nat) {
    if Bytes(r) < 4096 * Pow2(top + 1) then
      k <= top && Size(k) <= Bytes(r) < 2 * Size(k) && b == r.beginning
    else
      k == 0 && exists j: nat :: 4096 * (j + 1) <= Bytes(r) && b == r.beginning + 4096 * j % 0x1_0000_0000
  }

  lemma BlockOfRange(r: Range, top: nat, k: nat, b: nat)
    ensures BlockOf(r, top, k, b) <==>
            k == RangeOrder(r, top) && exists j: nat :: j < RangeBlocks(r, top) && b == RangeStart(r, k, j)
  {
    FrameBytes(r);
    if Frames(r) == 0 {
      NoBlocks(r, top);
      SizeBytes(k);
    } else if Frames(r) < Pow2(top + 1) {
      OneBlockOf(r, top, k, b);
    } else {
      FramesOf(r, top, k, b);
    }
  }

  lemma OneBlockOf(r: Range, top: nat, k: nat, b: nat)
    requires 1 <= Frames(r) < Pow2(top + 1)
    ensures BlockOf(r, top, k, b) <==>
            k == RangeOrder(r, top) && exists j: nat :: j < RangeBlocks(r, top) && b == RangeStart(r, k, j)
  {
    FrameBytes(r);
    BlockCount(r, top);
    RangeOrderListed(r, top);
    SizeBytes(k);
    SizeBytes(RangeOrder(r, top));
    assert RangeStart(r, k, 0) == r.beginning;
    if Size(k) <= Bytes(r) < 2 * Size(k) {
      FloorLog2Is(Frames(r), k);
    }
  }

  lemma FramesOf(r: Range, top: nat, k: nat, b: nat)
    requires Pow2(top + 1) <= Frames(r)
    ensures BlockOf(r, top, k, b) <==>
            k == RangeOrder(r, top) && exists j: nat :: j < RangeBlocks(r, top) && b == RangeStart(r, k, j)
  {
    FrameBytes(r);
    BlockCount(r, top);
    if j: nat :| 4096 * (j + 1) <= Bytes(r) && b == r.beginning + 4096 * j % 0x1_0000_0000 {
      FrameStart(r, j);
      assert j < RangeBlocks(r, top) && b == RangeStart(r, 0, j);
    }
    if j: nat :| j < RangeBlocks(r, top) && b == RangeStart(r, 0, j) {
      FrameStart(r, j);
      assert 4096 * (j + 1) <= Bytes(r);
    }
  }

  lemma FrameStart(r: Range, j: nat)
    ensures RangeStart(r, 0, j) == r.beginning + 4096 * j % 0x1_0000_0000
  {
    assert Size(0) == 4096;
  }

  lemma NoBlocks(r: Range, top: nat)
    requires Frames(r) == 0
    ensures RangeBlocks(r, top) == 0
  {
    QuotientIs(0, Pow2(RangeOrder(r, top)), 0);
  }

  /** What pushing one range does to the lists, in bytes: nothing for less than a frame, otherwise one
      block for less than twice the top block, otherwise single frames. */
  lemma PushRangeExact(L: Lists, r: Range)
    requires |L| > 0
    ensures Bytes(r) < 4096 ==> PushRange(L, r) == L
    ensures 4096 <= Bytes(r) < 4096 * Pow2(|L|) ==>
              exists k: nat :: k < |L| && Size(k) <= Bytes(r) < 2 * Size(k) && PushRange(L, r) == Push(L, k, r.beginning)
    ensures forall k: nat, b: nat :: Listed(PushRange(L, r), k, b) <==> Listed(L, k, b) || BlockOf(r, |L| - 1, k, b)
  {
    FrameBytes(r);
    if Bytes(r) < 4096 {
      NoBlocks(r, |L| - 1);
    } else if Bytes(r) < 4096 * Pow2(|L|) {
      OneBlock(L, r);
      SizeBytes(RangeOrder(r, |L| - 1));
    }
    forall k: nat, b: nat ensures Listed(PushRange(L, r), k, b) <==> Listed(L, k, b) || BlockOf(r, |L| - 1, k, b) {
      BlocksListed(L, r, RangeBlocks(r, |L| - 1), k, b);
      BlockOfRange(r, |L| - 1, k, b);
    }
  }

  /** Which blocks initialize lists, for any map. */
  lemma {:induction false} InitialListed(ranges: seq<Range>, top: nat, k: nat, b: nat)
    ensures Listed(Initial(ranges, top), k, b) <==>
            exists i :: 0 <= i < |ranges| && BlockOf(ranges[i], top, k, b)
  {
    if ranges != [] {
      var n := |ranges| - 1;
      InitialListed(ranges[..n], top, k, b);
      PushRangeExact(Initial(ranges[..n], top), ranges[n]);
      LastRange(ranges, top, k, b);
    }
  }

  lemma LastRange(ranges: seq<Range>, top: nat, k: nat, b: nat)
    requires ranges != []
    ensures var n := |ranges| - 1;
            (exists i :: 0 <= i < |ranges| && BlockOf(ranges[i], top, k, b)) <==>
            (exists i :: 0 <= i < n && BlockOf(ranges[..n][i], top, k, b)) || BlockOf(ranges[n], top, k, b)
  {
    var n := |ranges| - 1;
    assert forall i :: 0 <= i < n ==> ranges[..n][i] == ranges[i];
  }

  lemma {:induction false} BlocksListed(L: Lists, r: Range, n: nat, k: nat, b: nat)
    requires |L| > 0
    ensures Listed(PushBlocks(L, r, n), k, b) <==>
            Listed(L, k, b) || (k == RangeOrder(r, |L| - 1) && exists j: nat :: j < n && b == RangeStart(r, k, j))
  {
    if n > 0 {
      RangeOrderListed(r, |L| - 1);
      BlocksListed(L, r, n - 1, k, b);
      PushListed(PushBlocks(L, r, n - 1), RangeOrder(r, |L| - 1), RangeStart(r, RangeOrder(r, |L| - 1), n - 1));
    }
  }

  ghost predicate Small(ranges: seq<Range>, top: nat) {
    forall i :: 0 <= i < |ranges| ==> 1 <= Frames(ranges[i]) < Pow2(top + 1)
  }

  lemma {:induction false} SmallListed(ranges: seq<Range>, top: nat, k: nat, b: nat)
    requires Small(ranges, top)
    ensures Listed(Initial(ranges, top), k, b) <==>
            exists i :: 0 <= i < |ranges| && k == RangeOrder(ranges[i], top) && b == ranges[i].beginning
  {
    if ranges != [] {
      var n := |ranges| - 1;
      var L := Initial(ranges[..n], top);
      SmallListed(ranges[..n], top, k, b);
      OneBlock(L, ranges[n]);
      PushListed(L, RangeOrder(ranges[n], top), ranges[n].beginning);
    }
  }

  /** The blocks of the map: aligned to their own order, apart, and no two of them buddies
      below the top order. */
  ghost predicate GoodMap(ranges: seq<Range>, top: nat) {
    && (forall i :: 0 <= i < |ranges| ==> Aligned(ranges[i].beginning, RangeOrder(ranges[i], top)))
    && (forall i, j :: 0 <= i < j < |ranges| ==> GoodPair(ranges[i], ranges[j], top))
  }

  ghost predicate GoodPair(r: Range, s: Range, top: nat) {
    var k, l := RangeOrder(r, top), RangeOrder(s, top);
    && Apart(k, r.beginning, l, s.beginning)
    && (k == l < top ==> s.beginning != Flip(r.beginning, k))
  }

  /** Pushing a block keeps the form canonical exactly when the block fits in. */
  lemma PushCanonicalIff(L: Lists, k: nat, b: nat)
    requires k < |L|
    ensures Canonical(Push(L, k, b)) <==>
            Canonical(L) && Aligned(b, k) && ApartFromAll(L, k, b) && (k + 1 < |L| ==> !Listed(L, k, Flip(b, k)))
  {
    var M := Push(L, k, b);
    PushListed(L, k, b);
    if Canonical(M) {
      assert Listed(M, k, b);
      assert Without(M[k], IndexOf(M[k], b)) == L[k];
      assert M[k := L[k]] == L;
      assert Unlink(M, k, b) == L;
      UnlinkCanonical(M, k, b);
    } else if Canonical(L) && Aligned(b, k) && ApartFromAll(L, k, b) && (k + 1 < |L| ==> !Listed(L, k, Flip(b, k))) {
      PushCanonical(L, k, b);
    }
  }

  /** A further block fits into the lists of a map exactly when it pairs well with every range. */
  lemma FitsIff(ranges: seq<Range>, r: Range, top: nat)
    requires Small(ranges, top)
    requires Aligned(r.beginning, RangeOrder(r, top))
    requires GoodMap(ranges, top)
    ensures var L, k := Initial(ranges, top), RangeOrder(r, top);
            ApartFromAll(L, k, r.beginning) && (k < top ==> !Listed(L, k, Flip(r.beginning, k))) <==>
            forall i :: 0 <= i < |ranges| ==> GoodPair(ranges[i], r, top)
  {
    var L, k, b := Initial(ranges, top), RangeOrder(r, top), r.beginning;
    Buddies(b, k);
    forall j: nat, c: nat {
      SmallListed(ranges, top, j, c);
    }
    forall i | 0 <= i < |ranges|
      ensures Listed(L, RangeOrder(ranges[i], top), ranges[i].beginning)
      ensures RangeOrder(ranges[i], top) == k ==> Flip(Flip(ranges[i].beginning, k), k) == ranges[i].beginning
    {
      Buddies(ranges[i].beginning, RangeOrder(ranges[i], top));
    }
  }

  lemma {:induction false} SmallCanonical(ranges: seq<Range>, top: nat)
    requires Small(ranges, top)
    ensures Canonical(Initial(ranges, top)) <==> GoodMap(ranges, top)
  {
    if ranges != [] {
      var n := |ranges| - 1;
      var rest, r := ranges[..n], ranges[n];
      var L := Initial(rest, top);
      SmallCanonical(rest, top);
      OneBlock(L, r);
      PushCanonicalIff(L, RangeOrder(r, top), r.beginning);
      GoodMapSplit(ranges, top);
      if GoodMap(rest, top) && Aligned(r.beginning, RangeOrder(r, top)) {
        FitsIff(rest, r, top);
      }
    }
  }

  lemma GoodMapSplit(ranges: seq<Range>, top: nat)
    requires ranges != []
    ensures var n := |ranges| - 1;
            GoodMap(ranges, top) <==>
            && GoodMap(ranges[..n], top) && Aligned(ranges[n].beginning, RangeOrder(ranges[n], top))
            && forall i :: 0 <= i < n ==> GoodPair(ranges[..n][i], ranges[n], top)
  {
    var n := |ranges| - 1;
    assert forall i :: 0 <= i < n ==> ranges[..n][i] == ranges[i];
  }

  /** A range the order loop does not recognise, of twice the top block's frames or more, is
      chopped into single frames: whatever lists it is pushed on, they are then not canonical. */
  lemma HugeRange(L: Lists, r: Range)
    requires |L| > 1 && Pow2(|L|) <= Frames(r)
    ensures !Canonical(PushRange(L, r))
  {
    AtLeastFour(|L|);
    BlockCount(r, |L| - 1);
    FirstThree(L, r, Frames(r));
  }

  lemma FirstThree(L: Lists, r: Range, n: nat)
    requires |L| > 1 && RangeOrder(r, |L| - 1) == 0 && n >= 3
    ensures !Canonical(PushBlocks(L, r, n))
  {
    FrameListed(L, r, n, 0);
    FrameListed(L, r, n, 1);
    FrameListed(L, r, n, 2);
    FirstStarts(r);
    NotCanonical(PushBlocks(L, r, n), r.beginning);
  }

  lemma NotCanonical(M: Lists, b: nat)
    requires |M| > 1
    requires Listed(M, 0, b) && Listed(M, 0, b + Size(0)) && Listed(M, 0, b + Size(0) + Size(0))
    ensures !Canonical(M)
  {
    if Aligned(b, 0) {
      ThreeFrames(M, b);
    }
  }

  lemma AtLeastFour(n: nat)
    requires n > 1
    ensures Pow2(n) >= 4
  {
    assert Pow2(n) == 2 * Pow2(n - 1) && Pow2(n - 1) == 2 * Pow2(n - 2);
  }

  lemma FirstStarts(r: Range)
    ensures RangeStart(r, 0, 0) == r.beginning
    ensures RangeStart(r, 0, 1) == r.beginning + Size(0)
    ensures RangeStart(r, 0, 2) == r.beginning + Size(0) + Size(0)
  {
    assert Size(0) == 4096;
  }

  /** Among three frames in a row there are two buddies. */
  lemma ThreeFrames(M: Lists, b: nat)
    requires |M| > 1 && Aligned(b, 0)
    requires Listed(M, 0, b) && Listed(M, 0, b + Size(0)) && Listed(M, 0, b + Size(0) + Size(0))
    ensures !NoBuddies(M)
  {
    Buddies(b, 0);
    if b >= Flip(b, 0) {
      var c := AlignedMultiple(b, 0);
      assert (c + 1) * Size(0) == b + Size(0);
      MultipleAligned(c + 1, 0);
      Halves(Flip(b, 0), 0) by {
        Buddies(Flip(b, 0), 0);
      }
      Buddies(b + Size(0), 0);
    }
  }

  lemma {:induction false} FrameListed(L: Lists, r: Range, n: nat, j: nat)
    requires |L| > 0 && RangeOrder(r, |L| - 1) == 0 && j < n
    ensures Listed(PushBlocks(L, r, n), 0, RangeStart(r, 0, j))
  {
    PushListed(PushBlocks(L, r, n - 1), 0, RangeStart(r, 0, n - 1));
    if j < n - 1 {
      FrameListed(L, r, n - 1, j);
    }
  }

  // ---- any map ----

  /** The ranges of at least one frame. */
  function NonEmpty(ranges: seq<Range>): seq<Range> {
    if ranges == [] then []
    else
      var r := ranges[|ranges| - 1];
      NonEmpty(ranges[..|ranges| - 1]) + if Frames(r) >= 1 then [r] else []
  }

  lemma {:induction false} DropEmpty(ranges: seq<Range>, top: nat)
    ensures Initial(NonEmpty(ranges), top) == Initial(ranges, top)
  {
    if ranges != [] {
      var n := |ranges| - 1;
      var rest, r := NonEmpty(ranges[..n]), ranges[n];
      DropEmpty(ranges[..n], top);
      if Frames(r) >= 1 {
        assert (rest + [r])[..|rest|] == rest;
      } else {
        NoBlocks(r, top);
        assert rest + [] == rest;
      }
    }
  }

  lemma {:induction false} KeepsNonEmpty(ranges: seq<Range>)
    ensures forall r :: r in NonEmpty(ranges) <==> r in ranges && Frames(r) >= 1
  {
    if ranges != [] {
      var n := |ranges| - 1;
      KeepsNonEmpty(ranges[..n]);
      assert ranges == ranges[..n] + [ranges[n]];
    }
  }

  /** No later block repairs a form that is not canonical. */
  lemma {:induction false} BlocksKeepLoss(L: Lists, r: Range, n: nat)
    requires |L| > 0 && !Canonical(L)
    ensures !Canonical(PushBlocks(L, r, n))
  {
    if n > 0 {
      var k := RangeOrder(r, |L| - 1);
      RangeOrderListed(r, |L| - 1);
      BlocksKeepLoss(L, r, n - 1);
      PushCanonicalIff(PushBlocks(L, r, n - 1), k, RangeStart(r, k, n - 1));
    }
  }

  /** A map with a range the order loop does not recognise never yields canonical lists. */
  lemma {:induction false} HugeMap(ranges: seq<Range>, top: nat, i: nat)
    requires top > 0 && i < |ranges| && Frames(ranges[i]) >= Pow2(top + 1)
    ensures !Canonical(Initial(ranges, top))
  {
    var n := |ranges| - 1;
    var L := Initial(ranges[..n], top);
    if i == n {
      HugeRange(L, ranges[n]);
    } else {
      HugeMap(ranges[..n], top, i);
      BlocksKeepLoss(L, ranges[n], RangeBlocks(ranges[n], top));
    }
  }

  /** initialize, which checks nothing itself, establishes the canonical form exactly for the
      maps whose ranges are all recognised and, empty ones aside, fit together. */
  lemma InitialCanonical(ranges: seq<Range>, top: nat)
    requires top > 0
    ensures Canonical(Initial(ranges, top)) <==>
            (forall i :: 0 <= i < |ranges| ==> Frames(ranges[i]) < Pow2(top + 1)) && GoodMap(NonEmpty(ranges), top)
  {
    if i :| 0 <= i < |ranges| && Frames(ranges[i]) >= Pow2(top + 1) {
      HugeMap(ranges, top, i);
    } else {
      var rest := NonEmpty(ranges);
      DropEmpty(ranges, top);
      KeepsNonEmpty(ranges);
      forall i | 0 <= i < |rest| ensures 1 <= Frames(rest[i]) < Pow2(top + 1) {
        assert rest[i] in ranges;
      }
      SmallCanonical(rest, top);
    }
  }
}
