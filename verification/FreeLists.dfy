/** What the buddy allocator's free lists mean, and what each operation does to them.

    `FreeLists` is the value held by the linked lists: entry `k` lists the block
    starts of order `k`, head first; the last entry is the top order.
 */
module FreeLists {
  import opened Bits

  type Lists = seq<seq<nat>>

  // ---- blocks and the addresses they cover ----

  ghost predicate InBlock(k: nat, b: nat, a: nat) {
    b <= a < b + Size(k)
  }

  ghost predicate Apart(k: nat, b: nat, j: nat, c: nat) {
    b + Size(k) <= c || c + Size(j) <= b
  }

  predicate Listed(L: Lists, k: nat, b: nat) {
    k < |L| && b in L[k]
  }

  /** Address `a` belongs to some listed block. */
  ghost predicate FreeAt(L: Lists, a: nat) {
    exists k: nat, b: nat :: Listed(L, k, b) && InBlock(k, b, a)
  }

  // ---- the canonical form of the lists ----

  ghost predicate NoDuplicates(s: seq<nat>) {
    forall i, j :: 0 <= i < j < |s| ==> s[i] != s[j]
  }

  ghost predicate AllAligned(L: Lists) {
    forall k: nat, b: nat :: Listed(L, k, b) ==> Aligned(b, k)
  }

  ghost predicate AllApart(L: Lists) {
    && (forall k: nat :: k < |L| ==> NoDuplicates(L[k]))
    && (forall k: nat, b: nat, j: nat, c: nat ::
          Listed(L, k, b) && Listed(L, j, c) && (k != j || b != c) ==> Apart(k, b, j, c))
  }

  /** Below the top order no list holds a block together with its buddy. */
  ghost predicate NoBuddies(L: Lists) {
    forall k: nat, b: nat :: k + 1 < |L| && Listed(L, k, b) ==> !Listed(L, k, Flip(b, k))
  }

  ghost predicate Canonical(L: Lists) {
    |L| > 0 && AllAligned(L) && AllApart(L) && NoBuddies(L)
  }

  /** Block (k, b) overlaps no listed block. */
  ghost predicate ApartFromAll(L: Lists, k: nat, b: nat) {
    forall j: nat, c: nat :: Listed(L, j, c) ==> Apart(k, b, j, c)
  }

  ghost predicate SameFree(L: Lists, M: Lists) {
    forall a: nat :: FreeAt(L, a) <==> FreeAt(M, a)
  }

  /** The addresses of `M` are those of `L` and those of block (k, b). */
  ghost predicate FreePlusBlock(M: Lists, L: Lists, k: nat, b: nat) {
    forall a: nat :: FreeAt(M, a) <==> FreeAt(L, a) || InBlock(k, b, a)
  }

  // ---- taking out and putting in one block ----

  function Without(s: seq<nat>, i: nat): seq<nat>
    requires i < |s|
  {
    s[..i] + s[i + 1..]
  }

  /** Position of the first occurrence of `x`, or the length when there is none. */
  function IndexOf(s: seq<nat>, x: nat): (i: nat)
    ensures i <= |s|
    ensures i < |s| <==> x in s
    ensures i < |s| ==> s[i] == x
    ensures x !in s[..i]
  {
    if s == [] || s[0] == x then 0
    else
      var i := 1 + IndexOf(s[1..], x);
      assert s == [s[0]] + s[1..];
      assert s[..i] == [s[0]] + s[1..][..i - 1];
      i
  }

  function Unlink(L: Lists, k: nat, x: nat): Lists
    requires Listed(L, k, x)
  {
    L[k := Without(L[k], IndexOf(L[k], x))]
  }

  function Push(L: Lists, k: nat, b: nat): Lists
    requires k < |L|
  {
    L[k := [b] + L[k]]
  }

  lemma PushListed(L: Lists, k: nat, b: nat)
    requires k < |L|
    ensures forall j: nat, c: nat :: Listed(Push(L, k, b), j, c) <==> Listed(L, j, c) || (j == k && c == b)
  {
  }

  lemma PushFree(L: Lists, k: nat, b: nat)
    requires k < |L|
    ensures FreePlusBlock(Push(L, k, b), L, k, b)
  {
    PushListed(L, k, b);
    var M := Push(L, k, b);
    forall a: nat ensures FreeAt(M, a) <==> FreeAt(L, a) || InBlock(k, b, a) {
      assert Listed(M, k, b);
    }
  }

  lemma PushCanonical(L: Lists, k: nat, b: nat)
    requires Canonical(L) && k < |L|
    requires Aligned(b, k)
    requires ApartFromAll(L, k, b)
    requires k + 1 < |L| ==> !Listed(L, k, Flip(b, k))
    ensures Canonical(Push(L, k, b))
  {
    PushListed(L, k, b);
    var M := Push(L, k, b);
    assert !Listed(L, k, b) by {
      assert !Apart(k, b, k, b);
    }
    assert NoBuddies(M) by {
      forall j: nat, c: nat | j + 1 < |M| && Listed(M, j, c) ensures !Listed(M, j, Flip(c, j)) {
        Buddies(c, j);
        if j == k {
          Buddies(b, k);
        }
      }
    }
    PushApart(L, k, b);
  }

  lemma UnlinkListed(L: Lists, k: nat, x: nat)
    requires AllApart(L)
    requires Listed(L, k, x)
    ensures forall j: nat, c: nat :: Listed(Unlink(L, k, x), j, c) <==> Listed(L, j, c) && (j != k || c != x)
  {
    var i := IndexOf(L[k], x);
    var s := Without(L[k], i);
    assert NoDuplicates(L[k]);
    forall c: nat ensures c in s <==> c in L[k] && c != x {
      if c in L[k] && c != x {
        var p :| 0 <= p < |L[k]| && L[k][p] == c;
        assert c == s[if p < i then p else p - 1];
      }
    }
  }

  lemma UnlinkCanonical(L: Lists, k: nat, x: nat)
    requires Canonical(L)
    requires Listed(L, k, x)
    ensures Canonical(Unlink(L, k, x))
    ensures ApartFromAll(Unlink(L, k, x), k, x)
    ensures FreePlusBlock(L, Unlink(L, k, x), k, x)
  {
    UnlinkListed(L, k, x);
    var M := Unlink(L, k, x);
    forall j: nat | j < |M| ensures NoDuplicates(M[j]) {
      assert NoDuplicates(L[j]);
    }
    assert FreePlusBlock(L, M, k, x);
  }

  // ---- splitting: fill_free_list and allocate ----

  /** The smallest order from `k` on with a non-empty list, or the number of lists. */
  function FirstNonEmpty(L: Lists, k: nat): (j: nat)
    requires k <= |L|
    ensures k <= j <= |L|
    ensures j < |L| ==> L[j] != []
    ensures forall i :: k <= i < j ==> L[i] == []
    decreases |L| - k
  {
    if k == |L| || L[k] != [] then k else FirstNonEmpty(L, k + 1)
  }

  /** fill_free_list, where it does not dereference a null list head. */
  function Fill(L: Lists, k: nat): (M: Lists)
    requires k < |L| && FirstNonEmpty(L, k) < |L|
    ensures |M| == |L| && M[k] != []
    decreases |L| - k
  {
    if L[k] != [] then L
    else
      var M := Fill(L, k + 1);
      var old_ := M[k + 1][0];
      M[k + 1 := M[k + 1][1..]][k := [Flip(old_, k), old_]]
  }

  /** The block a request of order `k` receives and the lists it leaves. */
  function Take(L: Lists, k: nat): (r: (nat, Lists))
    requires k < |L| && FirstNonEmpty(L, k) < |L|
    ensures |r.1| == |L|
  {
    var M := Fill(L, k);
    (M[k][0], M[k := M[k][1..]])
  }

  /** `Take` block by block: a request below the first non-empty order is served by
      halving what the order above receives and keeping one half. */
  lemma TakeUnfold(L: Lists, k: nat)
    requires k < |L| && FirstNonEmpty(L, k) < |L|
    ensures L[k] != [] ==> Take(L, k) == (L[k][0], L[k := L[k][1..]])
    ensures L[k] == [] ==>
              && Take(L, k + 1).1[k] == []
              && Take(L, k) == (Flip(Take(L, k + 1).0, k), Push(Take(L, k + 1).1, k, Take(L, k + 1).0))
    decreases |L| - k
  {
    if L[k] == [] {
      FillKeepsBelow(L, k + 1);
      var (b, M) := Take(L, k + 1);
      assert Fill(L, k) == M[k := [Flip(b, k), b]];
      assert [Flip(b, k), b][1..] == [b] + M[k];
      assert M[k := [Flip(b, k), b]][k := [b] + M[k]] == M[k := [b] + M[k]];
    }
  }

  /** Filling an empty list pops the list above and pushes both halves. */
  lemma FillByPushing(L: Lists, k: nat)
    requires k + 1 < |L| && L[k] == [] && FirstNonEmpty(L, k) < |L|
    ensures var M := Fill(L, k + 1);
            var b := M[k + 1][0];
            Fill(L, k) == Push(Push(M[k + 1 := M[k + 1][1..]], k, b), k, Flip(b, k))
  {
    FillKeepsBelow(L, k + 1);
    var M := Fill(L, k + 1);
    var b := M[k + 1][0];
    assert [Flip(b, k)] + ([b] + M[k]) == [Flip(b, k), b];
  }

  lemma {:induction false} FillKeepsBelow(L: Lists, k: nat)
    requires k < |L| && FirstNonEmpty(L, k) < |L|
    ensures forall i :: 0 <= i < k ==> Fill(L, k)[i] == L[i]
    decreases |L| - k
  {
    if L[k] == [] {
      FillKeepsBelow(L, k + 1);
    }
  }

  /** What a request of order `k` gets from canonical lists: the highest-addressed
      block of that order inside the head of the first non-empty list. */
  lemma {:induction false} TakeExact(L: Lists, k: nat)
    requires Canonical(L)
    requires k < |L| && FirstNonEmpty(L, k) < |L|
    ensures var (b, M) := Take(L, k);
            && Canonical(M)
            && Aligned(b, k)
            && ApartFromAll(M, k, b)
            && FreePlusBlock(L, M, k, b)
    ensures var j := FirstNonEmpty(L, k);
            Take(L, k).0 == L[j][0] + Size(j) - Size(k)
    decreases |L| - k
  {
    TakeUnfold(L, k);
    var (b, M) := Take(L, k);
    if L[k] != [] {
      assert Without(L[k], IndexOf(L[k], b)) == L[k][1..];
      assert Unlink(L, k, b) == M;
      UnlinkCanonical(L, k, b);
    } else {
      TakeExact(L, k + 1);
      var (low, M1) := Take(L, k + 1);
      Halves(low, k);
      SplitBlock(L, M1, k, low);
    }
  }

  /** Keeping the lower half of a block that was taken out and handing on the upper one. */
  lemma SplitBlock(L: Lists, M: Lists, k: nat, low: nat)
    requires Canonical(M) && |M| == |L| && k + 1 < |M| && M[k] == []
    requires Aligned(low, k + 1) && ApartFromAll(M, k + 1, low)
    requires FreePlusBlock(L, M, k + 1, low)
    ensures var N := Push(M, k, low);
            && Canonical(N)
            && Aligned(Flip(low, k), k)
            && ApartFromAll(N, k, Flip(low, k))
            && FreePlusBlock(L, N, k, Flip(low, k))
  {
    Halves(low, k);
    var N := Push(M, k, low);
    PushListed(M, k, low);
    forall j: nat, c: nat | Listed(M, j, c) ensures Apart(k, low, j, c) && Apart(k, low + Size(k), j, c) {
      assert Apart(k + 1, low, j, c);
    }
    PushCanonical(M, k, low);
    PushFree(M, k, low);
    forall a: nat ensures FreeAt(L, a) <==> FreeAt(N, a) || InBlock(k, Flip(low, k), a) {
      assert InBlock(k + 1, low, a) <==> InBlock(k, low, a) || InBlock(k, low + Size(k), a);
    }
  }

  /** fill_free_list conserves the free addresses exactly and keeps the blocks aligned and
      apart. Where it has to split, it leaves a block beside its buddy; taking the head of the
      list, as allocate does next, removes one of the two. */
  lemma FillExact(L: Lists, k: nat)
    requires Canonical(L)
    requires k < |L| && FirstNonEmpty(L, k) < |L|
    ensures var N := Fill(L, k);
            && SameFree(L, N) && AllAligned(N) && AllApart(N)
            && (NoBuddies(N) <==> L[k] != [])
            && NoBuddies(N[k := N[k][1..]])
  {
    TakeExact(L, k);
    var (b, M) := Take(L, k);
    var N := Fill(L, k);
    assert [b] + N[k][1..] == N[k] && M[k := N[k]] == N;
    assert Push(M, k, b) == N;
    PushFree(M, k, b);
    PushListed(M, k, b);
    PushApart(M, k, b);
    if L[k] == [] {
      FillBuddies(L, k);
    }
  }

  lemma PushApart(L: Lists, k: nat, b: nat)
    requires AllApart(L) && k < |L| && ApartFromAll(L, k, b)
    ensures AllApart(Push(L, k, b))
  {
    PushListed(L, k, b);
    var M := Push(L, k, b);
    assert !Listed(L, k, b) by {
      assert !Apart(k, b, k, b);
    }
    forall j: nat | j < |M| ensures NoDuplicates(M[j]) {
      assert NoDuplicates(L[j]);
    }
  }

  lemma FillBuddies(L: Lists, k: nat)
    requires k + 1 < |L| && L[k] == [] && FirstNonEmpty(L, k) < |L|
    ensures !NoBuddies(Fill(L, k))
  {
    var b := Fill(L, k + 1)[k + 1][0];
    assert Fill(L, k)[k] == [Flip(b, k), b];
    assert Listed(Fill(L, k), k, b) && Listed(Fill(L, k), k, Flip(b, k));
  }

  // ---- coalescing: add_free_list ----

  function AddFree(L: Lists, b: nat, k: nat): (M: Lists)
    requires k < |L|
    ensures |M| == |L|
    decreases |L| - k
  {
    if k + 1 == |L| then Push(L, k, b)
    else
      var c := Align(b, k);
      if Listed(L, k, Flip(c, k)) then AddFree(Unlink(L, k, Flip(c, k)), c, k + 1)
      else Push(L, k, c)
  }

  /** The order at which freeing (k, b) stops merging. */
  function MergeOrder(L: Lists, b: nat, k: nat): (m: nat)
    requires k < |L|
    ensures k <= m < |L|
    decreases |L| - k
  {
    if k + 1 < |L| && Listed(L, k, Flip(Align(b, k), k)) then MergeOrder(L, b, k + 1) else k
  }

  /** Freeing (k, b) does not end in a merge into the top order coming from an upper half.
      In that one case the block pushed on the top list keeps the upper half's address. */
  ghost predicate MergesCleanly(L: Lists, b: nat, k: nat)
    requires k < |L|
  {
    k + 1 < |L| && MergeOrder(L, b, k) + 1 == |L| ==> Aligned(Align(b, |L| - 2), |L| - 1)
  }

  /** Merge decisions look only at the lists from order `k` on and at the address above its low bits. */
  lemma {:induction false} MergeOrderLocal(L: Lists, M: Lists, b: nat, c: nat, k: nat)
    requires k < |L| == |M|
    requires forall i :: k <= i < |L| ==> L[i] == M[i]
    requires Align(b, k) == Align(c, k)
    ensures MergeOrder(L, b, k) == MergeOrder(M, c, k)
    decreases |L| - k
  {
    if k + 1 < |L| && Listed(L, k, Flip(Align(b, k), k)) {
      AlignAlign(b, k, k + 1);
      AlignAlign(c, k, k + 1);
      MergeOrderLocal(L, M, b, c, k + 1);
    }
  }

  /** One merge: the rest of the work is freeing the lower half's address one order up. */
  lemma AddFreeMerges(L: Lists, b: nat, k: nat)
    requires k + 1 < |L| && Listed(L, k, Flip(Align(b, k), k))
    ensures var c := Align(b, k);
            var M := Unlink(L, k, Flip(c, k));
            && AddFree(L, b, k) == AddFree(M, c, k + 1)
            && Align(c, k + 1) == Align(b, k + 1)
            && (MergesCleanly(L, b, k) <==> if k + 2 == |L| then Aligned(c, k + 1) else MergesCleanly(M, c, k + 1))
  {
    var c := Align(b, k);
    AlignAlign(b, k, k + 1);
    AlignAlign(b, k, |L| - 2);
    MergeOrderLocal(L, Unlink(L, k, Flip(c, k)), b, c, k + 1);
  }

  /** Freeing an aligned block that overlaps nothing listed adds exactly its addresses and
      keeps the lists canonical if and only if the merge is clean. */
  lemma {:induction false} AddFreeExact(L: Lists, b: nat, k: nat)
    requires Canonical(L) && k < |L|
    requires ApartFromAll(L, k, Align(b, k))
    requires k + 1 == |L| ==> Aligned(b, k)
    ensures Canonical(AddFree(L, b, k)) <==> MergesCleanly(L, b, k)
    ensures MergesCleanly(L, b, k) ==> FreePlusBlock(AddFree(L, b, k), L, k, Align(b, k))
    decreases |L| - k
  {
    var c := Align(b, k);
    if k + 1 == |L| {
      AlignUnique(b, k, b);
      PushCanonical(L, k, b);
      PushFree(L, k, b);
    } else if Listed(L, k, Flip(c, k)) {
      var M := Unlink(L, k, Flip(c, k));
      MergeHalves(L, M, c, k);
      AddFreeMerges(L, b, k);
      if k + 2 == |L| {
        PushUpperHalf(M, k + 1, c);
      } else {
        AddFreeExact(M, c, k + 1);
      }
    } else {
      PushCanonical(L, k, c);
      PushFree(L, k, c);
    }
  }

  /** A block reaching the top list is pushed as it is, aligned or not. */
  lemma PushUpperHalf(L: Lists, k: nat, c: nat)
    requires Canonical(L) && k + 1 == |L|
    requires ApartFromAll(L, k, Align(c, k))
    ensures Canonical(Push(L, k, c)) <==> Aligned(c, k)
    ensures Aligned(c, k) ==> FreePlusBlock(Push(L, k, c), L, k, Align(c, k))
  {
    PushListed(L, k, c);
    if Aligned(c, k) {
      AlignUnique(c, k, c);
      PushCanonical(L, k, c);
      PushFree(L, k, c);
    } else {
      assert Listed(Push(L, k, c), k, c);
    }
  }

  /** With its buddy unlinked, a free block and the buddy make one block of the next order
      that overlaps nothing else. */
  lemma MergeHalves(L: Lists, M: Lists, c: nat, k: nat)
    requires Canonical(L) && Aligned(c, k)
    requires Listed(L, k, Flip(c, k)) && M == Unlink(L, k, Flip(c, k))
    requires ApartFromAll(L, k, c)
    ensures Canonical(M)
    ensures ApartFromAll(M, k + 1, Align(c, k + 1))
    ensures forall N: Lists :: FreePlusBlock(N, M, k + 1, Align(c, k + 1)) ==> FreePlusBlock(N, L, k, c)
  {
    var d, e := Flip(c, k), Align(c, k + 1);
    Buddies(c, k);
    UnlinkCanonical(L, k, d);
    UnlinkListed(L, k, d);
    SizeDoubles(k);
    forall j: nat, x: nat | Listed(M, j, x) ensures Apart(k + 1, e, j, x) {
      assert Apart(k, c, j, x) && Apart(k, d, j, x);
    }
    assert forall a: nat :: InBlock(k + 1, e, a) <==> InBlock(k, c, a) || InBlock(k, d, a);
  }

  /** An unclean merge lists, at the top order, the upper half's address as the whole block. */
  lemma {:induction false} UncleanMerge(L: Lists, b: nat, k: nat)
    requires k + 1 < |L| && !MergesCleanly(L, b, k)
    ensures Listed(AddFree(L, b, k), |L| - 1, Align(b, |L| - 1) + Size(|L| - 2))
    decreases |L| - k
  {
    var c := Align(b, k);
    assert Listed(L, k, Flip(c, k));
    AddFreeMerges(L, b, k);
    var M := Unlink(L, k, Flip(c, k));
    if k + 2 == |L| {
      UpperHalf(c, k);
      UnlinkedPush(M, k + 1, c);
    } else {
      UncleanMerge(M, c, k + 1);
      AlignAlign(b, k, |L| - 1);
    }
  }

  lemma UnlinkedPush(M: Lists, k: nat, c: nat)
    requires k + 1 == |M|
    ensures Listed(AddFree(M, c, k), k, c)
  {
    PushListed(M, k, c);
  }

  lemma UpperHalf(c: nat, k: nat)
    requires Aligned(c, k) && !Aligned(c, k + 1)
    ensures c == Align(c, k + 1) + Size(k)
  {
    Buddies(c, k);
  }

  // ---- allocate and free undo each other ----

  /** Freeing what a request of order `k` just received gives back the very same lists, in
      the same order, if and only if the block was not split off the top order. When it was,
      the top list's head moves to the address of its upper half. */
  lemma {:induction false} TakeThenAddFree(L: Lists, k: nat)
    requires Canonical(L)
    requires k < |L| && FirstNonEmpty(L, k) < |L|
    ensures var j := FirstNonEmpty(L, k);
            var (b, M) := Take(L, k);
            if j == k || j + 1 < |L| then AddFree(M, b, k) == L
            else AddFree(M, b, k) == L[j := [L[j][0] + Size(j - 1)] + L[j][1..]] != L
    decreases |L| - k
  {
    TakeUnfold(L, k);
    var j := FirstNonEmpty(L, k);
    var (b, M) := Take(L, k);
    if L[k] != [] {
      PushBack(L, k);
    } else {
      var (low, M1) := Take(L, k + 1);
      TakeExact(L, k + 1);
      RejoinHalves(M1, low, k);
      if k + 2 == |L| {
        TakeUnfold(L, k + 1);
        Halves(low, k);
        assert [L[j][0] + Size(k)] + L[j][1..] != L[j];
      } else {
        TakeThenAddFree(L, k + 1);
      }
    }
  }

  lemma PushBack(L: Lists, k: nat)
    requires Canonical(L) && k < |L| && L[k] != []
    ensures AddFree(L[k := L[k][1..]], L[k][0], k) == L
  {
    var b, M := L[k][0], L[k := L[k][1..]];
    assert Listed(L, k, b);
    AlignUnique(b, k, b);
    assert Listed(M, k, Flip(b, k)) ==> Listed(L, k, Flip(b, k));
    assert [b] + L[k][1..] == L[k];
  }

  /** Freeing the upper half while the lower one is the only block of its list. */
  lemma RejoinHalves(M: Lists, low: nat, k: nat)
    requires k + 1 < |M| && M[k] == [] && Aligned(low, k + 1)
    ensures AddFree(Push(M, k, low), Flip(low, k), k)
         == if k + 2 == |M| then Push(M, k + 1, Flip(low, k)) else AddFree(M, low, k + 1)
  {
    Halves(low, k);
    Buddies(low, k);
    var b, N := Flip(low, k), Push(M, k, low);
    AlignUnique(b, k, b);
    assert N[k] == [low];
    assert Unlink(N, k, low) == M;
    AlignUnique(low, k + 1, low);
  }

  // ---- canonical lists are determined by the free addresses ----

  ghost predicate BlockFree(L: Lists, k: nat, b: nat) {
    forall a: nat :: InBlock(k, b, a) ==> FreeAt(L, a)
  }

  /** In canonical lists a wholly free aligned block lies inside one listed block. */
  lemma {:induction false} CoveringBlock(L: Lists, k: nat, b: nat) returns (j: nat)
    requires Canonical(L) && k < |L| && Aligned(b, k) && BlockFree(L, k, b)
    ensures j >= k && Listed(L, j, Align(b, j))
  {
    if k == 0 {
      assert InBlock(0, b, b);
      var c: nat;
      j, c :| Listed(L, j, c) && InBlock(j, c, b);
      AlignUnique(b, j, c);
    } else {
      Halves(b, k - 1);
      var up := b + Size(k - 1);
      assert forall a: nat :: InBlock(k - 1, b, a) || InBlock(k - 1, up, a) ==> InBlock(k, b, a);
      j := CoveringBlock(L, k - 1, b);
      var i := CoveringBlock(L, k - 1, up);
      if j == k - 1 {
        AlignUnique(b, j, b);
        AlignUnique(up, j, up);
        assert Flip(b, j) == up;
        assert i != j;
        AlignAlign(up, k, i);
        AlignUnique(up, k, b);
        j := i;
      }
    }
  }

  /** Every listed block is a maximal free aligned block, so equal free addresses force the
      same blocks into the lists of two canonical states. */
  lemma CanonicalUnique(L: Lists, M: Lists, k: nat, b: nat)
    requires Canonical(L) && Canonical(M) && |L| == |M| && SameFree(L, M)
    ensures Listed(L, k, b) <==> Listed(M, k, b)
  {
    if Listed(L, k, b) {
      ListedInOther(L, M, k, b);
    }
    if Listed(M, k, b) {
      ListedInOther(M, L, k, b);
    }
  }

  lemma ListedInOther(L: Lists, M: Lists, k: nat, b: nat)
    requires Canonical(L) && Canonical(M) && |L| == |M| && SameFree(L, M)
    requires Listed(L, k, b)
    ensures Listed(M, k, b)
  {
    var j := CoveringBlock(M, k, b);
    var c := Align(b, j);
    var i := CoveringBlock(L, j, c);
    var d := Align(c, i);
    AlignAlign(b, j, i);
    assert InBlock(k, b, b) && InBlock(i, d, b);
    assert !Apart(k, b, i, d);
    assert i == k && d == b;
    AlignUnique(b, k, b);
  }

  lemma {:induction false} SameElements(s: seq<nat>, t: seq<nat>)
    requires NoDuplicates(s) && NoDuplicates(t)
    requires forall x: nat :: x in s <==> x in t
    ensures multiset(s) == multiset(t)
  {
    forall x: nat ensures multiset(s)[x] == multiset(t)[x] {
      CountOnce(s, x);
      CountOnce(t, x);
    }
  }

  lemma {:induction false} CountOnce(s: seq<nat>, x: nat)
    requires NoDuplicates(s)
    ensures multiset(s)[x] == if x in s then 1 else 0
  {
    if s != [] {
      assert s == [s[0]] + s[1..];
      CountOnce(s[1..], x);
    }
  }

  /** Two canonical states with the same free addresses have the same lists up to order. */
  lemma CanonicalForm(L: Lists, M: Lists)
    requires Canonical(L) && Canonical(M) && |L| == |M| && SameFree(L, M)
    ensures forall k :: 0 <= k < |L| ==> multiset(L[k]) == multiset(M[k])
  {
    forall k: nat | k < |L| ensures multiset(L[k]) == multiset(M[k]) {
      forall b: nat ensures b in L[k] <==> b in M[k] {
        CanonicalUnique(L, M, k, b);
        assert Listed(L, k, b) <==> b in L[k];
        assert Listed(M, k, b) <==> b in M[k];
      }
      SameElements(L[k], M[k]);
    }
  }

  // ---- looking a block up: is_allocated and reserve ----

  /** Some listed block of an order above `k` and below `top` holds `where`. */
  ghost predicate InsideLarger(L: Lists, where: nat, k: nat, top: nat) {
    exists i: nat :: k < i < top && Listed(L, i, Align(where, i))
  }

  /** What is_allocated answers: its second loop stops short of the top order. */
  ghost predicate IsAllocated(L: Lists, where: nat, k: nat)
    requires k < |L|
  {
    !Listed(L, k, Align(where, k)) && !InsideLarger(L, where, k, |L| - 1)
  }

  lemma ListedIsFree(L: Lists, where: nat, k: nat, i: nat)
    requires k <= i && Listed(L, i, Align(where, i))
    ensures BlockFree(L, k, Align(where, k))
  {
    AlignAlign(where, k, i);
    Nested(k, Align(where, k), i, Align(where, i));
    assert forall a: nat :: InBlock(k, Align(where, k), a) ==> InBlock(i, Align(where, i), a);
  }

  /** In canonical lists an aligned block is free exactly when it is listed or lies inside a larger listed block. */
  lemma FreeIffInside(L: Lists, where: nat, k: nat)
    requires Canonical(L) && k < |L|
    ensures BlockFree(L, k, Align(where, k)) <==> Listed(L, k, Align(where, k)) || InsideLarger(L, where, k, |L|)
  {
    var b := Align(where, k);
    if BlockFree(L, k, b) {
      var j := CoveringBlock(L, k, b);
      AlignAlign(where, k, j);
    }
    if i: nat :| k <= i && Listed(L, i, Align(where, i)) {
      ListedIsFree(L, where, k, i);
    }
  }

  /** At most one listed block holds an address. */
  lemma OneHolder(L: Lists, where: nat, i: nat, j: nat)
    requires Canonical(L)
    requires Listed(L, i, Align(where, i)) && Listed(L, j, Align(where, j))
    ensures i == j
  {
    assert !Apart(i, Align(where, i), j, Align(where, j));
  }

  /** is_allocated is false exactly for the wholly free blocks that do not lie inside a
      listed block of the top order without being one. */
  lemma IsAllocatedExact(L: Lists, where: nat, k: nat)
    requires Canonical(L) && k < |L|
    ensures var top := |L| - 1;
            !IsAllocated(L, where, k) <==>
            BlockFree(L, k, Align(where, k)) && !(k < top && Listed(L, top, Align(where, top)))
  {
    var top := |L| - 1;
    FreeIffInside(L, where, k);
    if k < top && Listed(L, top, Align(where, top)) {
      forall i: nat | i < top ensures !Listed(L, i, Align(where, i)) {
        if Listed(L, i, Align(where, i)) {
          OneHolder(L, where, i, top);
        }
      }
    } else if BlockFree(L, k, Align(where, k)) && !Listed(L, k, Align(where, k)) {
      var i: nat :| k < i < |L| && Listed(L, i, Align(where, i));
      assert i < top;
    }
  }

  datatype ReserveOutcome = Reserved(lists: Lists) | Refused | Fault

  /** reserve: a listed block of the very order is unlinked; with no larger block found the
      request is refused; a larger block below the top order leads into the carving loop,
      whose index runs upwards past the last list (or which starts from a null block). */
  ghost function Reserve(L: Lists, where: nat, k: nat): ReserveOutcome
    requires k < |L|
  {
    if Listed(L, k, Align(where, k)) then Reserved(Unlink(L, k, Align(where, k)))
    else if InsideLarger(L, where, k, |L| - 1) then Fault
    else Refused
  }

  /** What reserving a block is for: it succeeds exactly on a wholly free block, and then
      takes out exactly that block. */
  ghost predicate ReserveContract(L: Lists, k: nat, b: nat, outcome: ReserveOutcome) {
    match outcome
    case Reserved(M) =>
      BlockFree(L, k, b) && Canonical(M) && ApartFromAll(M, k, b) && FreePlusBlock(L, M, k, b)
    case Refused => !BlockFree(L, k, b)
    case Fault => false
  }

  /** reserve does its job if and only if the block is not strictly inside a listed one. */
  lemma ReserveExact(L: Lists, where: nat, k: nat)
    requires Canonical(L) && k < |L|
    ensures ReserveContract(L, k, Align(where, k), Reserve(L, where, k)) <==> !InsideLarger(L, where, k, |L|)
  {
    var b := Align(where, k);
    FreeIffInside(L, where, k);
    if Listed(L, k, b) {
      UnlinkCanonical(L, k, b);
      forall i: nat | k < i && Listed(L, i, Align(where, i)) ensures false {
        OneHolder(L, where, i, k);
      }
    }
  }

  /** Lists with a single block `b` of order `j`. */
  function OnlyBlock(top: nat, j: nat, b: nat): (L: Lists)
    ensures |L| == top + 1
    ensures j <= top ==> forall k: nat, c: nat :: Listed(L, k, c) <==> k == j && c == b
  {
    seq(top + 1, i => if i == j then [b] else [])
  }

  /** How lookups fail: with one block free, any smaller block at its start is free too, but
      looks allocated and is refused when the large block is of the top order, and makes
      reserve fault when it is not. */
  lemma LookupFailures(top: nat, j: nat, b: nat, k: nat)
    requires k < j <= top && Aligned(b, j)
    ensures var L := OnlyBlock(top, j, b);
            && Canonical(L) && BlockFree(L, k, Align(b, k))
            && (IsAllocated(L, b, k) <==> j == top)
            && Reserve(L, b, k) == if j == top then Refused else Fault
  {
    var L := OnlyBlock(top, j, b);
    Buddies(b, j);
    AlignUnique(b, j, b);
    assert Listed(L, j, Align(b, j));
    assert forall i :: 0 <= i <= top ==> L[i] == if i == j then [b] else [];
    FreeIffInside(L, b, k);
  }

  // ---- cutting a block down: decompose_block ----

  function Decompose(L: Lists, b: nat, s: nat, e: nat): (M: Lists)
    requires s < |L|
    ensures |M| == |L|
    decreases s
  {
    if e > s then L
    else if e == s then Push(L, s, b)
    else
      var c := Align(b, s - 1);
      Decompose(Push(L, s - 1, Flip(c, s - 1)), c, s - 1, e)
  }

  /** Cutting a block of order `s` down to order `e` adds exactly its addresses, and the
      block of order `e` at its start heads list `e`; without that block the lists are canonical. */
  lemma {:induction false} DecomposeExact(L: Lists, b: nat, s: nat, e: nat)
    requires Canonical(L) && s < |L| && e <= s
    requires Aligned(b, s) && ApartFromAll(L, s, b)
    ensures var M := Decompose(L, b, s, e);
            && FreePlusBlock(M, L, s, b)
            && M[e] != [] && M[e][0] == b
            && Canonical(M[e := M[e][1..]])
            && ApartFromAll(M[e := M[e][1..]], e, b)
    decreases s
  {
    if e == s {
      assert ([b] + L[s])[1..] == L[s];
      PushFree(L, s, b);
    } else {
      AlignedSmaller(b, s, s - 1);
      AlignUnique(b, s - 1, b);
      CutHalf(L, s, b);
      DecomposeExact(Push(L, s - 1, Flip(b, s - 1)), b, s - 1, e);
    }
  }

  /** The lists a cut leaves are not canonical: the last block sits beside its buddy. */
  lemma {:induction false} DecomposeLeavesBuddies(L: Lists, b: nat, s: nat, e: nat)
    requires s < |L| && e < s && Aligned(b, s)
    ensures Listed(Decompose(L, b, s, e), e, b)
    ensures Listed(Decompose(L, b, s, e), e, Flip(b, e))
    ensures !NoBuddies(Decompose(L, b, s, e))
    decreases s
  {
    AlignedSmaller(b, s, s - 1);
    AlignUnique(b, s - 1, b);
    var N := Push(L, s - 1, Flip(b, s - 1));
    if e == s - 1 {
      PushListed(L, e, Flip(b, e));
      PushListed(N, e, b);
    } else {
      DecomposeLeavesBuddies(N, b, s - 1, e);
    }
  }

  lemma CutHalf(L: Lists, s: nat, b: nat)
    requires Canonical(L) && 0 < s < |L|
    requires Aligned(b, s) && ApartFromAll(L, s, b)
    ensures Canonical(Push(L, s - 1, Flip(b, s - 1)))
    ensures ApartFromAll(Push(L, s - 1, Flip(b, s - 1)), s - 1, b)
    ensures forall M: Lists :: FreePlusBlock(M, Push(L, s - 1, Flip(b, s - 1)), s - 1, b) ==> FreePlusBlock(M, L, s, b)
  {
    var k := s - 1;
    Halves(b, k);
    forall j: nat, c: nat | Listed(L, j, c) ensures Apart(k, b, j, c) && Apart(k, b + Size(k), j, c) {
      assert Apart(s, b, j, c);
    }
    assert !Listed(L, k, b) by {
      assert !Apart(k, b, k, b);
    }
    PushCanonical(L, k, Flip(b, k));
    PushListed(L, k, Flip(b, k));
    PushFree(L, k, Flip(b, k));
    assert forall a: nat :: InBlock(s, b, a) <==> InBlock(k, b, a) || InBlock(k, b + Size(k), a);
  }
}
