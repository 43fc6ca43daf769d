/** Runs of the physical-frame allocator: sequences of allocate and free calls on the
    free lists and the set of blocks handed out and not yet freed.
 */
module BuddyRuns {
  import opened Bits
  import opened FreeLists

  // ---- request sizes ----

  /** The smallest order whose blocks hold `n` frames. */
  function CeilLog2(n: nat): (r: nat)
    ensures n <= Pow2(r)
    ensures n >= 1 ==> Pow2(r) < 2 * n
  {
    if n <= 1 then 0
    else
      var r := CeilLog2((n + 1) / 2);
      assert r > 0 ==> Pow2(r) % 2 == 0;
      1 + r
  }

  /** get_alloc_order with top order `top`: sizes its loop does not recognise count as order 0. */
  function RequestOrder(n: nat, top: nat): nat {
    if n < Pow2(top + 1) then CeilLog2(n) else 0
  }

  lemma RequestOrderFits(n: nat, top: nat)
    requires 1 <= n <= Pow2(top)
    ensures var r := RequestOrder(n, top);
            r <= top && n <= Pow2(r) < 2 * n
  {
    var r := CeilLog2(n);
    if r > top {
      Pow2Monotone(top, r);
    }
  }

  /** Between a top block and two of them the order is one that no list has; no frames, and two top
      blocks or more, count as one frame. */
  lemma RequestOrderBeyond(n: nat, top: nat)
    requires n == 0 || n > Pow2(top)
    ensures RequestOrder(n, top) == if Pow2(top) < n < 2 * Pow2(top) then top + 1 else 0
  {
    assert Pow2(top + 1) == 2 * Pow2(top);
    if Pow2(top) < n < 2 * Pow2(top) {
      var r := CeilLog2(n);
      if r <= top {
        Pow2Monotone(r, top);
      } else {
        Pow2Monotone(top + 1, r);
      }
    }
  }

  // ---- the state machine ----

  /** `out` holds (order, start) of every block handed out and not yet freed. */
  datatype State = State(lists: Lists, out: set<(nat, nat)>) {
    function Top(): int {
      |lists| - 1
    }
  }

  datatype Op = Allocate(n: nat) | Free(start: nat, n: nat)

  /** The calls whose behaviour the source defines: an allocation either is refused for its
      size or finds a block, and only outstanding blocks are freed, with a page count of
      the order they were allocated with. */
  predicate Enabled(s: State, op: Op) {
    && |s.lists| > 0
    && match op
       case Allocate(n) =>
         n > Pow2(s.Top()) ||
         (RequestOrder(n, s.Top()) < |s.lists| && FirstNonEmpty(s.lists, RequestOrder(n, s.Top())) < |s.lists|)
       case Free(start, n) =>
         RequestOrder(n, s.Top()) < |s.lists| && (RequestOrder(n, s.Top()), start) in s.out
  }

  function Step(s: State, op: Op): (t: State)
    requires Enabled(s, op)
    ensures |t.lists| == |s.lists|
  {
    match op
    case Allocate(n) =>
      if n > Pow2(s.Top()) then s
      else
        var k := RequestOrder(n, s.Top());
        var (b, M) := Take(s.lists, k);
        State(M, s.out + {(k, b)})
    case Free(start, n) =>
      var k := RequestOrder(n, s.Top());
      State(AddFree(s.lists, start, k), s.out - {(k, start)})
  }

  ghost predicate OutstandingApart(s: State) {
    && (forall k: nat, b: nat :: (k, b) in s.out ==>
          k < |s.lists| && Aligned(b, k) && ApartFromAll(s.lists, k, b))
    && (forall k: nat, b: nat, j: nat, c: nat ::
          (k, b) in s.out && (j, c) in s.out && (k != j || b != c) ==> Apart(k, b, j, c))
  }

  /** Free blocks are canonical, blocks handed out are aligned, and nothing overlaps. */
  ghost predicate Inv(s: State) {
    Canonical(s.lists) && OutstandingApart(s)
  }

  ghost predicate Owned(s: State, a: nat) {
    FreeAt(s.lists, a) || exists k: nat, b: nat :: (k, b) in s.out && InBlock(k, b, a)
  }

  ghost predicate SameOwned(s: State, t: State) {
    forall a: nat :: Owned(s, a) <==> Owned(t, a)
  }

  ghost predicate CleanStep(s: State, op: Op)
    requires Enabled(s, op)
  {
    op.Free? ==> MergesCleanly(s.lists, op.start, RequestOrder(op.n, s.Top()))
  }

  lemma AllocateStep(s: State, n: nat)
    requires Inv(s) && Enabled(s, Allocate(n))
    ensures Inv(Step(s, Allocate(n)))
    ensures SameOwned(s, Step(s, Allocate(n)))
  {
    if n <= Pow2(s.Top()) {
      var k := RequestOrder(n, s.Top());
      var (b, M) := Take(s.lists, k);
      var t := Step(s, Allocate(n));
      TakeExact(s.lists, k);
      HandOut(s, t, k, b);
    }
  }

  /** Moving a block from the lists to the outstanding set. */
  lemma HandOut(s: State, t: State, k: nat, b: nat)
    requires Inv(s) && k < |s.lists| == |t.lists| && Aligned(b, k)
    requires Canonical(t.lists) && ApartFromAll(t.lists, k, b) && FreePlusBlock(s.lists, t.lists, k, b)
    requires t.out == s.out + {(k, b)}
    ensures OutstandingApart(t) && SameOwned(s, t)
  {
    forall j: nat, c: nat | (j, c) in s.out
      ensures ApartFromAll(t.lists, j, c) && Apart(j, c, k, b) && Apart(k, b, j, c)
    {
      StillApart(s.lists, t.lists, j, c);
      ApartFromFree(s.lists, j, c, k, b);
    }
    forall a: nat ensures Owned(s, a) <==> Owned(t, a) {
      assert (k, b) in t.out;
      assert forall j: nat, c: nat :: (j, c) in t.out <==> (j, c) in s.out || (j == k && c == b);
    }
  }

  lemma ApartWhenDisjoint(j: nat, c: nat, k: nat, b: nat)
    requires forall a: nat :: InBlock(k, b, a) ==> !InBlock(j, c, a)
    ensures Apart(j, c, k, b)
  {
    assert InBlock(k, b, b) && InBlock(j, c, c);
  }

  lemma FreeIsOutside(L: Lists, j: nat, c: nat, a: nat)
    requires ApartFromAll(L, j, c) && FreeAt(L, a)
    ensures !InBlock(j, c, a)
  {
    var i: nat, d: nat :| Listed(L, i, d) && InBlock(i, d, a);
    assert Apart(j, c, i, d);
  }

  /** A block apart from all listed ones is apart from any block made of free addresses. */
  lemma ApartFromFree(L: Lists, j: nat, c: nat, k: nat, b: nat)
    requires ApartFromAll(L, j, c)
    requires BlockFree(L, k, b)
    ensures Apart(j, c, k, b)
  {
    forall a: nat | InBlock(k, b, a) ensures !InBlock(j, c, a) {
      FreeIsOutside(L, j, c, a);
    }
    ApartWhenDisjoint(j, c, k, b);
  }

  lemma StillApart(L: Lists, M: Lists, j: nat, c: nat)
    requires ApartFromAll(L, j, c)
    requires forall a: nat :: FreeAt(M, a) ==> FreeAt(L, a)
    ensures ApartFromAll(M, j, c)
  {
    forall k: nat, b: nat | Listed(M, k, b) ensures Apart(j, c, k, b) {
      assert forall a: nat :: InBlock(k, b, a) ==> FreeAt(M, a);
      ApartFromFree(L, j, c, k, b);
    }
  }

  /** Freeing keeps the invariant exactly when the merge is clean. */
  lemma FreeStep(s: State, start: nat, n: nat)
    requires Inv(s) && Enabled(s, Free(start, n))
    ensures Inv(Step(s, Free(start, n))) <==> CleanStep(s, Free(start, n))
    ensures CleanStep(s, Free(start, n)) ==> SameOwned(s, Step(s, Free(start, n)))
  {
    var k := RequestOrder(n, s.Top());
    var t := Step(s, Free(start, n));
    AlignUnique(start, k, start);
    AddFreeExact(s.lists, start, k);
    if CleanStep(s, Free(start, n)) {
      TakeBack(s, t, k, start);
    }
  }

  /** Moving an outstanding block back to the lists. */
  lemma TakeBack(s: State, t: State, k: nat, b: nat)
    requires Inv(s) && |s.lists| == |t.lists| && (k, b) in s.out
    requires Canonical(t.lists) && FreePlusBlock(t.lists, s.lists, k, b)
    requires t.out == s.out - {(k, b)}
    ensures OutstandingApart(t) && SameOwned(s, t)
  {
    forall j: nat, c: nat | (j, c) in t.out ensures ApartFromAll(t.lists, j, c) {
      assert Apart(j, c, k, b);
      forall i: nat, d: nat | Listed(t.lists, i, d) ensures Apart(j, c, i, d) {
        forall a: nat | InBlock(i, d, a) ensures !InBlock(j, c, a) {
          assert FreeAt(t.lists, a);
          if FreeAt(s.lists, a) {
            FreeIsOutside(s.lists, j, c, a);
          }
        }
        ApartWhenDisjoint(j, c, i, d);
      }
    }
    assert forall j: nat, c: nat :: (j, c) in s.out <==> (j, c) in t.out || (j == k && c == b);
  }

  /** One call keeps the invariant if and only if it is not a free that merges uncleanly,
      and then every address stays owned or unowned as it was. */
  lemma StepExact(s: State, op: Op)
    requires Inv(s) && Enabled(s, op)
    ensures Inv(Step(s, op)) <==> CleanStep(s, op)
    ensures CleanStep(s, op) ==> SameOwned(s, Step(s, op))
  {
    match op
    case Allocate(n) => AllocateStep(s, n);
    case Free(start, n) => FreeStep(s, start, n);
  }

  // ---- whole runs ----

  predicate RunEnabled(s: State, ops: seq<Op>)
    decreases |ops|
  {
    ops == [] || (Enabled(s, ops[0]) && RunEnabled(Step(s, ops[0]), ops[1..]))
  }

  function Run(s: State, ops: seq<Op>): (t: State)
    requires RunEnabled(s, ops)
    ensures |t.lists| == |s.lists|
    decreases |ops|
  {
    if ops == [] then s else Run(Step(s, ops[0]), ops[1..])
  }

  /** The invariant holds at the start, after every call and at the end. */
  ghost predicate AlwaysInv(s: State, ops: seq<Op>)
    requires RunEnabled(s, ops)
    decreases |ops|
  {
    Inv(s) && (ops == [] || AlwaysInv(Step(s, ops[0]), ops[1..]))
  }

  ghost predicate CleanRun(s: State, ops: seq<Op>)
    requires RunEnabled(s, ops)
    decreases |ops|
  {
    ops == [] || (CleanStep(s, ops[0]) && CleanRun(Step(s, ops[0]), ops[1..]))
  }

  /** A run keeps the invariant throughout if and only if all its merges are clean, and
      then free plus handed-out addresses never change. */
  lemma {:induction false} RunExact(s: State, ops: seq<Op>)
    requires Inv(s) && RunEnabled(s, ops)
    ensures AlwaysInv(s, ops) <==> CleanRun(s, ops)
    ensures CleanRun(s, ops) ==> Inv(Run(s, ops)) && SameOwned(s, Run(s, ops))
    decreases |ops|
  {
    if ops != [] {
      var t := Step(s, ops[0]);
      StepExact(s, ops[0]);
      if CleanStep(s, ops[0]) {
        RunExact(t, ops[1..]);
      } else {
        assert !AlwaysInv(t, ops[1..]);
      }
    }
  }

  /** History does not matter: clean runs that end with the same free addresses end with
      the same lists, up to the order inside each list. */
  lemma HistoryIndependence(s: State, ops: seq<Op>, t: State, ops': seq<Op>)
    requires Inv(s) && RunEnabled(s, ops) && CleanRun(s, ops)
    requires Inv(t) && RunEnabled(t, ops') && CleanRun(t, ops')
    requires |s.lists| == |t.lists|
    requires SameFree(Run(s, ops).lists, Run(t, ops').lists)
    ensures forall k :: 0 <= k < |s.lists| ==> multiset(Run(s, ops).lists[k]) == multiset(Run(t, ops').lists[k])
  {
    RunExact(s, ops);
    RunExact(t, ops');
    CanonicalForm(Run(s, ops).lists, Run(t, ops').lists);
  }

  // ---- memory too small for a top-order block ----

  /** No aligned block of the top order consists of owned addresses only. */
  ghost predicate NoWholeTopBlock(s: State) {
    |s.lists| > 0 &&
    forall b: nat :: Aligned(b, s.Top()) ==> exists a: nat :: InBlock(s.Top(), b, a) && !Owned(s, a)
  }

  /** Everything merged on the way up was free, or is the block being freed. */
  lemma {:induction false} MergedAddresses(L: Lists, b: nat, k: nat, a: nat)
    requires Canonical(L) && k < |L|
    requires InBlock(MergeOrder(L, b, k), Align(b, MergeOrder(L, b, k)), a)
    ensures FreeAt(L, a) || InBlock(k, Align(b, k), a)
    decreases |L| - k
  {
    var c := Align(b, k);
    if k + 1 < |L| && Listed(L, k, Flip(c, k)) {
      if !InBlock(k + 1, Align(b, k + 1), a) {
        MergedAddresses(L, b, k + 1, a);
      }
      AlignAlign(b, k, k + 1);
      Buddies(c, k);
      if InBlock(k, Flip(c, k), a) {
        assert FreeAt(L, a);
      }
    }
  }

  lemma SmallMemoryMergesCleanly(s: State, op: Op)
    requires Inv(s) && NoWholeTopBlock(s) && Enabled(s, op)
    ensures CleanStep(s, op)
  {
    if op.Free? {
      var k, top := RequestOrder(op.n, s.Top()), s.Top();
      if k < top && MergeOrder(s.lists, op.start, k) == top {
        var a: nat :| InBlock(top, Align(op.start, top), a) && !Owned(s, a);
        AlignUnique(op.start, k, op.start);
        MergedAddresses(s.lists, op.start, k, a);
      }
    }
  }

  /** Where no whole aligned top-order block is managed, every run keeps the invariant. */
  lemma {:induction false} SmallMemoryRuns(s: State, ops: seq<Op>)
    requires Inv(s) && NoWholeTopBlock(s) && RunEnabled(s, ops)
    ensures AlwaysInv(s, ops) && CleanRun(s, ops)
    ensures SameOwned(s, Run(s, ops))
    decreases |ops|
  {
    if ops != [] {
      SmallMemoryMergesCleanly(s, ops[0]);
      StepExact(s, ops[0]);
      SmallMemoryRuns(Step(s, ops[0]), ops[1..]);
    }
  }

  // ---- single calls ----

  /** An allocation of 1 to 2^top frames is served exactly when some aligned block of its
      order is wholly free. What it gets is such a block: aligned, free before, not free
      after, of at least `n` and fewer than `2n` frames. */
  lemma AllocateExact(s: State, n: nat)
    requires Inv(s) && 1 <= n <= Pow2(s.Top())
    ensures var k := RequestOrder(n, s.Top());
            Enabled(s, Allocate(n)) <==> exists b: nat :: Aligned(b, k) && BlockFree(s.lists, k, b)
    ensures var k := RequestOrder(n, s.Top());
            Enabled(s, Allocate(n)) ==>
              var (b, M) := Take(s.lists, k);
              && Aligned(b, k) && n <= Pow2(k) < 2 * n
              && BlockFree(s.lists, k, b)
              && ApartFromAll(M, k, b)
              && Step(s, Allocate(n)).out == s.out + {(k, b)} && (k, b) !in s.out
  {
    var k := RequestOrder(n, s.Top());
    RequestOrderFits(n, s.Top());
    if b: nat :| Aligned(b, k) && BlockFree(s.lists, k, b) {
      var j := CoveringBlock(s.lists, k, b);
      assert s.lists[j] != [];
    }
    if FirstNonEmpty(s.lists, k) < |s.lists| {
      TakeExact(s.lists, k);
      var (b, M) := Take(s.lists, k);
      assert BlockFree(s.lists, k, b);
      assert InBlock(k, b, b) && FreeAt(s.lists, b);
      if (k, b) in s.out {
        ApartFromFree(s.lists, k, b, k, b);
      }
    }
  }

  /** The state after freeing what an allocation of `n` frames handed out. */
  function AllocatedAndFreed(s: State, n: nat): State
    requires |s.lists| > 0
    requires n <= Pow2(s.Top()) && Enabled(s, Allocate(n))
  {
    var k := RequestOrder(n, s.Top());
    var (b, M) := Take(s.lists, k);
    State(AddFree(M, b, k), s.out)
  }

  lemma AllocatedAndFreedIsARun(s: State, n: nat)
    requires Inv(s) && 1 <= n <= Pow2(s.Top()) && Enabled(s, Allocate(n))
    ensures var ops := [Allocate(n), Free(Take(s.lists, RequestOrder(n, s.Top())).0, n)];
            RunEnabled(s, ops) && Run(s, ops) == AllocatedAndFreed(s, n)
  {
    var k := RequestOrder(n, s.Top());
    AllocateExact(s, n);
    var b := Take(s.lists, k).0;
    assert s.out + {(k, b)} - {(k, b)} == s.out;
    TwoCalls(s, Allocate(n), Free(b, n));
  }

  lemma TwoCalls(s: State, op: Op, op': Op)
    requires Enabled(s, op) && Enabled(Step(s, op), op')
    ensures RunEnabled(s, [op, op']) && Run(s, [op, op']) == Step(Step(s, op), op')
  {
    assert [op, op'][1..] == [op'];
    assert Run(Step(s, op), [op']) == Step(Step(s, op), op');
  }

  /** free undoes allocate to the letter unless the block came out of the top order by
      splitting; then the invariant is gone as well. */
  lemma FreeUndoesAllocate(s: State, n: nat)
    requires Inv(s) && 1 <= n <= Pow2(s.Top()) && Enabled(s, Allocate(n))
    ensures var j := FirstNonEmpty(s.lists, RequestOrder(n, s.Top()));
            var t := AllocatedAndFreed(s, n);
            if j == RequestOrder(n, s.Top()) || j < s.Top() then t == s
            else t != s && !Inv(t) && t.lists[j] == [s.lists[j][0] + Size(j - 1)] + s.lists[j][1..]
  {
    var k := RequestOrder(n, s.Top());
    var j := FirstNonEmpty(s.lists, k);
    TakeThenAddFree(s.lists, k);
    if k < j == s.Top() {
      assert Listed(s.lists, j, s.lists[j][0]);
      UpperHalfListed(AllocatedAndFreed(s, n), s.lists[j][0]);
    }
  }

  lemma UpperHalfListed(s: State, h: nat)
    requires |s.lists| > 1 && s.lists[s.Top()] != [] && s.lists[s.Top()][0] == h + Size(s.Top() - 1)
    requires Aligned(h, s.Top())
    ensures !Inv(s)
  {
    var top := s.Top();
    Halves(h, top - 1);
    Buddies(h + Size(top - 1), top - 1);
    assert Listed(s.lists, top, h + Size(top - 1));
  }

  /** The smallest failing case: one free top-order block, one frame allocated and freed. */
  lemma SmallestLostBlock() returns (s: State)
    ensures s == State([[], [0]], {})
    ensures Inv(s) && 1 <= Pow2(s.Top()) && Enabled(s, Allocate(1))
    ensures !Inv(AllocatedAndFreed(s, 1))
  {
    s := OneTopBlock();
    FreeUndoesAllocate(s, 1);
  }

  lemma OneTopBlock() returns (s: State)
    ensures s == State([[], [0]], {})
    ensures Inv(s) && 1 <= Pow2(s.Top()) && Enabled(s, Allocate(1))
    ensures RequestOrder(1, s.Top()) == 0 && FirstNonEmpty(s.lists, 0) == 1 == s.Top()
  {
    var L: Lists := [[], [0]];
    s := State(L, {});
    assert forall k: nat, b: nat :: Listed(L, k, b) <==> k == 1 && b == 0;
    QuotientIs(0, Size(1), 0);
    assert Pow2(1) == 2 && Pow2(2) == 4;
    assert CeilLog2(1) == 0;
    assert FirstNonEmpty(L, 1) == 1;
  }
}
