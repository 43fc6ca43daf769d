/** What the virtual-region allocator's list of nodes means and what each operation does to it.

    Addresses are 64-bit. Where the source's loop meets a node on which it executes
    `continue` without moving on, the operation hangs; where it follows a null link it
    crashes; and where it gives back a node that is still linked it leaves a dangling link.
 */
module Regions {
  import opened Wrappers

  datatype Outcome<+T> = Done(value: T) | Hangs | Crashes | Dangles

  /** A node: start address, size in pages, and whether it is free. */
  datatype Region = Region(start: nat, size: nat, free: bool)

  type Regions = seq<Region>

  const ADDRESSES: nat := 0x1_0000_0000_0000_0000

  function End(r: Region): nat { r.start + 0x1000 * r.size }

  // ---- tilings ----

  /** The nodes lie end to end from `start`, none is empty, and they cover `pages` pages. */
  ghost predicate Tiles(rs: Regions, start: nat, pages: nat) {
    if rs == [] then pages == 0
    else rs[0].start == start && 0 < rs[0].size <= pages && Tiles(rs[1..], End(rs[0]), pages - rs[0].size)
  }

  /** No two neighbours are both free. */
  ghost predicate Coalesced(rs: Regions) {
    forall i {:trigger rs[i]} :: 0 <= i && i + 1 < |rs| ==> !(rs[i].free && rs[i + 1].free)
  }

  ghost predicate Inv(rs: Regions, start: nat, pages: nat) {
    Tiles(rs, start, pages) && Coalesced(rs) && start + 0x1000 * pages <= ADDRESSES
  }

  predicate Holds(r: Region, a: nat) {
    r.start <= a < End(r)
  }

  ghost predicate FreeAt(rs: Regions, a: nat) {
    exists i :: 0 <= i < |rs| && rs[i].free && Holds(rs[i], a)
  }

  /** The free addresses after are those before without [from, to). */
  ghost predicate Takes(rs: Regions, rs': Regions, from: nat, to: nat) {
    forall a: nat :: FreeAt(rs', a) <==> FreeAt(rs, a) && !(from <= a < to)
  }

  /** The free addresses after are those before and [from, to). */
  ghost predicate GivesBack(rs: Regions, rs': Regions, from: nat, to: nat) {
    forall a: nat :: FreeAt(rs', a) <==> FreeAt(rs, a) || from <= a < to
  }

  lemma {:induction false} TilesBounds(rs: Regions, start: nat, pages: nat, i: nat)
    requires Tiles(rs, start, pages) && i < |rs|
    ensures start <= rs[i].start && 0 < rs[i].size && End(rs[i]) <= start + 0x1000 * pages
    ensures i > 0 ==> End(rs[0]) <= rs[i].start
    ensures i + 1 == |rs| ==> End(rs[i]) == start + 0x1000 * pages
  {
    if i > 0 {
      TilesBounds(rs[1..], End(rs[0]), pages - rs[0].size, i - 1);
    }
  }

  /** Nodes do not overlap. */
  lemma {:induction false} OneHolder(rs: Regions, start: nat, pages: nat, i: nat, j: nat)
    requires Tiles(rs, start, pages) && i < j < |rs|
    ensures End(rs[i]) <= rs[j].start
  {
    if i == 0 {
      TilesBounds(rs, start, pages, j);
    } else {
      OneHolder(rs[1..], End(rs[0]), pages - rs[0].size, i - 1, j - 1);
    }
  }

  lemma FreeAtCons(r: Region, rs: Regions, a: nat)
    ensures FreeAt([r] + rs, a) <==> (r.free && Holds(r, a)) || FreeAt(rs, a)
  {
    var s := [r] + rs;
    if r.free && Holds(r, a) {
      assert s[0] == r;
    }
    if i :| 0 <= i < |rs| && rs[i].free && Holds(rs[i], a) {
      assert s[i + 1] == rs[i];
    }
    if i :| 0 <= i < |s| && s[i].free && Holds(s[i], a) {
      assert i > 0 ==> rs[i - 1] == s[i];
    }
  }

  /** Every free address of a tiling lies inside it. */
  lemma FreeInside(rs: Regions, start: nat, pages: nat, a: nat)
    requires Tiles(rs, start, pages) && FreeAt(rs, a)
    ensures start <= a < start + 0x1000 * pages
  {
    var i :| 0 <= i < |rs| && rs[i].free && Holds(rs[i], a);
    TilesBounds(rs, start, pages, i);
  }

  // ---- allocate_region ----

  /** bisect_node: the node keeps its first `n` pages, a new free node gets the others. */
  function FirstPart(r: Region, n: nat): Region { r.(size := n) }

  function SecondPart(r: Region, n: nat): Region
    requires n <= r.size
  {
    Region((r.start + 0x1000 * n) % ADDRESSES, r.size - n, true)
  }

  /** The outcome of allocate_region and the list it leaves. */
  function Allocate(rs: Regions, n: nat): (Outcome<Option<nat>>, Regions) {
    if rs == [] then (Done(None), [])
    else if !rs[0].free then (Hangs, rs)
    else if rs[0].size == n then (Done(Some(rs[0].start)), [rs[0].(free := false)] + rs[1..])
    else if rs[0].size > n then
      (Done(Some(rs[0].start)), [FirstPart(rs[0], n).(free := false), SecondPart(rs[0], n)] + rs[1..])
    else
      var (r, tail) := Allocate(rs[1..], n);
      (r, [rs[0]] + tail)
  }

  /** The index of the lowest free node of at least `n` pages, or the number of nodes. */
  function FirstFit(rs: Regions, n: nat): (i: nat)
    ensures i <= |rs|
    ensures i < |rs| ==> rs[i].free && rs[i].size >= n
    ensures forall j :: 0 <= j < i ==> !(rs[j].free && rs[j].size >= n)
  {
    if rs == [] || (rs[0].free && rs[0].size >= n) then 0 else 1 + FirstFit(rs[1..], n)
  }

  /** What allocating is for: the start of the first fit, or none when nothing fits. */
  function AllocateContract(rs: Regions, n: nat): Outcome<Option<nat>> {
    var i := FirstFit(rs, n);
    Done(if i < |rs| then Some(rs[i].start) else None)
  }

  /** A search that hands out nothing leaves the list as it was. */
  lemma {:induction false} AllocateUnchanged(rs: Regions, n: nat)
    ensures Allocate(rs, n).0 == Hangs || Allocate(rs, n).0 == Done(None) ==> Allocate(rs, n).1 == rs
  {
    if rs != [] {
      AllocateUnchanged(rs[1..], n);
      assert rs == [rs[0]] + rs[1..];
    }
  }

  /** No allocated node stands before the first fit. */
  ghost predicate ClearWay(rs: Regions, n: nat) {
    forall i :: 0 <= i < FirstFit(rs, n) ==> rs[i].free
  }

  lemma ClearWayNext(rs: Regions, n: nat)
    requires rs != [] && !(rs[0].free && rs[0].size >= n)
    ensures ClearWay(rs, n) <==> rs[0].free && ClearWay(rs[1..], n)
    ensures rs[0].free ==> AllocateContract(rs, n) == AllocateContract(rs[1..], n)
  {
    FreePrefix(rs, 1 + FirstFit(rs[1..], n));
  }

  /** allocate_region answers as it should exactly when no allocated node stands before the
      first fit; otherwise it hangs. */
  lemma {:induction false} AllocateExact(rs: Regions, n: nat)
    ensures var ok := forall i :: 0 <= i < FirstFit(rs, n) ==> rs[i].free;
            Allocate(rs, n).0 == if ok then AllocateContract(rs, n) else Hangs
    ensures Allocate(rs, n).0 == Hangs || Allocate(rs, n).0 == Done(None) ==> Allocate(rs, n).1 == rs
  {
    AllocateUnchanged(rs, n);
    AllocateAnswer(rs, n);
  }

  lemma {:induction false} AllocateAnswer(rs: Regions, n: nat)
    ensures Allocate(rs, n).0 == if ClearWay(rs, n) then AllocateContract(rs, n) else Hangs
  {
    if rs != [] && !(rs[0].free && rs[0].size >= n) {
      ClearWayNext(rs, n);
      if rs[0].free {
        AllocateAnswer(rs[1..], n);
      }
    }
  }

  lemma FreePrefix(rs: Regions, m: nat)
    requires 0 < m <= |rs|
    ensures (forall i :: 0 <= i < m ==> rs[i].free) <==> rs[0].free && forall i :: 0 <= i < m - 1 ==> rs[1..][i].free
  {
    if forall i :: 0 <= i < m - 1 ==> rs[1..][i].free {
      assert forall i :: 0 < i < m ==> rs[i] == rs[1..][i - 1];
    }
  }

  /** In a coalesced tiling that leaves only the first node to allocate from. */
  lemma AllocateFromHead(rs: Regions, start: nat, pages: nat, n: nat)
    requires Inv(rs, start, pages) && rs != []
    ensures Allocate(rs, n).0 != Hangs <==> rs[0].free && (rs[0].size >= n || |rs| == 1)
    ensures Allocate(rs, n).0 != Hangs && Allocate(rs, n).0 != Done(None) ==>
              Allocate(rs, n).0 == Done(Some(start)) && rs[0].free && rs[0].size >= n
  {
    if rs[0].free && rs[0].size < n && |rs| > 1 {
      assert !rs[1].free;
      assert Allocate(rs[1..], n).0 == Hangs;
    } else if |rs| == 1 {
      assert rs[1..] == [];
    }
  }

  /** After one allocation from a coalesced tiling every further one hangs. */
  lemma AllocatesOnce(rs: Regions, start: nat, pages: nat, n: nat, a: nat, m: nat)
    requires Inv(rs, start, pages) && Allocate(rs, n).0 == Done(Some(a))
    ensures Allocate(Allocate(rs, n).1, m).0 == Hangs
  {
    AllocateFromHead(rs, start, pages, n);
  }

  /** An allocation keeps the tiling and its coalescing, and takes exactly the pages it
      hands out, which were free. */
  lemma {:induction false} AllocateKeeps(rs: Regions, start: nat, pages: nat, n: nat)
    requires Inv(rs, start, pages) && n > 0
    ensures Inv(Allocate(rs, n).1, start, pages)
    ensures match Allocate(rs, n).0
            case Done(Some(a)) =>
              && Takes(rs, Allocate(rs, n).1, a, a + 0x1000 * n)
              && forall x: nat :: a <= x < a + 0x1000 * n ==> FreeAt(rs, x)
            case _ => Allocate(rs, n).1 == rs
  {
    AllocateExact(rs, n);
    if rs != [] {
      AllocateFromHead(rs, start, pages, n);
      var r, rest := rs[0], rs[1..];
      assert rs == [r] + rest;
      if r.free && r.size >= n {
        TakeHead(r, rest, start, pages, n);
      }
    }
  }

  lemma TakeHead(r: Region, rest: Regions, start: nat, pages: nat, n: nat)
    requires Inv([r] + rest, start, pages) && r.free && r.size >= n > 0
    ensures var rs' := if r.size == n then [r.(free := false)] + rest
                       else [FirstPart(r, n).(free := false), SecondPart(r, n)] + rest;
            && Inv(rs', start, pages)
            && Takes([r] + rest, rs', start, start + 0x1000 * n)
            && forall x: nat :: start <= x < start + 0x1000 * n ==> FreeAt([r] + rest, x)
  {
    var rs := [r] + rest;
    assert rs[1..] == rest;
    forall x: nat ensures FreeAt(rs, x) <==> (r.free && Holds(r, x)) || FreeAt(rest, x) {
      FreeAtCons(r, rest, x);
    }
    forall x: nat | FreeAt(rest, x) ensures x >= End(r) {
      FreeInside(rest, End(r), pages - r.size, x);
    }
    if r.size == n {
      var q := r.(free := false);
      var rs' := [q] + rest;
      assert rs'[1..] == rest;
      forall x: nat ensures FreeAt(rs', x) <==> FreeAt(rest, x) {
        FreeAtCons(q, rest, x);
      }
      CoalescedHead(r, rest, q);
    } else {
      var p, q := FirstPart(r, n).(free := false), SecondPart(r, n);
      assert q.start == r.start + 0x1000 * n;
      var rs' := [p, q] + rest;
      assert rs' == [p] + ([q] + rest) && ([q] + rest)[1..] == rest && rs'[1..] == [q] + rest;
      forall x: nat ensures FreeAt(rs', x) <==> Holds(q, x) || FreeAt(rest, x) {
        FreeAtCons(p, [q] + rest, x);
        FreeAtCons(q, rest, x);
      }
      CoalescedHead(r, rest, q);
      assert Coalesced([p] + ([q] + rest));
    }
  }

  /** Replacing the first node by another keeps a list coalesced if it adds no freedom. */
  lemma CoalescedHead(r: Region, rest: Regions, q: Region)
    requires Coalesced([r] + rest) && (q.free ==> r.free)
    ensures Coalesced([q] + rest)
  {
    var s, t := [r] + rest, [q] + rest;
    forall i {:trigger t[i]} | 0 <= i && i + 1 < |t| ensures !(t[i].free && t[i + 1].free) {
      assert t[i + 1] == s[i + 1] && !(s[i].free && s[i + 1].free);
    }
  }

  /** Node `i` replaced by two. */
  function SplitAt(rs: Regions, i: nat, p: Region, q: Region): (s: Regions)
    requires i < |rs|
    ensures |s| == |rs| + 1
    ensures forall k {:trigger s[k]} :: 0 <= k < |s| ==>
              s[k] == if k < i then rs[k] else if k == i then p else if k == i + 1 then q else rs[k - 1]
  {
    rs[..i] + [p, q] + rs[i + 1..]
  }

  lemma ConsUpdate(rs: Regions, i: nat, x: Region)
    requires 0 < i < |rs|
    ensures [rs[0]] + rs[1..][i - 1 := x] == rs[i := x]
  {
  }

  lemma ConsSplit(rs: Regions, i: nat, p: Region, q: Region)
    requires i < |rs|
    ensures i > 0 ==> [rs[0]] + SplitAt(rs[1..], i - 1, p, q) == SplitAt(rs, i, p, q)
    ensures i == 0 ==> [p, q] + rs[1..] == SplitAt(rs, i, p, q)
  {
  }

  /** allocate_region past nodes that are free and too small. */
  lemma {:induction false} AllocateAt(rs: Regions, n: nat, i: nat)
    requires i <= |rs| && forall k :: 0 <= k < i ==> rs[k].free && rs[k].size < n
    ensures Allocate(rs, n)
         == if i == |rs| then (Done(None), rs)
            else if !rs[i].free then (Hangs, rs)
            else if rs[i].size == n then (Done(Some(rs[i].start)), rs[i := rs[i].(free := false)])
            else if rs[i].size > n then
              (Done(Some(rs[i].start)), SplitAt(rs, i, FirstPart(rs[i], n).(free := false), SecondPart(rs[i], n)))
            else Allocate(rs, n)
  {
    if i > 0 {
      var tail := rs[1..];
      assert rs == [rs[0]] + tail;
      AllocateAt(tail, n, i - 1);
      if i < |rs| {
        ConsUpdate(rs, i, rs[i].(free := false));
      }
    } else if rs != [] {
      assert [rs[0].(free := false)] + rs[1..] == rs[0 := rs[0].(free := false)];
    }
    if i < |rs| && rs[i].size > n {
      ConsSplit(rs, i, FirstPart(rs[i], n).(free := false), SecondPart(rs[i], n));
    }
  }

  // ---- why Hangs is the right word ----

  /** Where `cur` stands after `k` rounds of allocate_region's loop: a node or the null link
      at the end, or None once the function has returned. */
  function Cursor(rs: Regions, n: nat, k: nat): (c: Option<nat>)
    ensures c.Some? ==> c.value <= |rs|
  {
    if k == 0 then Some(0)
    else
      match Cursor(rs, n, k - 1)
      case None => None
      case Some(i) =>
        if i == |rs| then None
        else if !rs[i].free then Some(i)
        else if rs[i].size >= n then None
        else Some(i + 1)
  }

  lemma {:induction false} CursorMoves(rs: Regions, n: nat, k: nat, m: nat)
    requires m <= |rs| && forall i :: 0 <= i < m ==> rs[i].free && rs[i].size < n
    ensures k <= m ==> Cursor(rs, n, k) == Some(k)
    ensures k > m && m < |rs| && !rs[m].free ==> Cursor(rs, n, k) == Some(m)
    ensures k > m && (m == |rs| || (rs[m].free && rs[m].size >= n)) ==> Cursor(rs, n, k) == None
  {
    if k > 0 {
      CursorMoves(rs, n, k - 1, m);
    }
  }

  /** The first node at which allocate_region stops moving, or the end of the list. */
  function Stop(rs: Regions, n: nat): (m: nat)
    ensures m <= |rs|
    ensures forall i :: 0 <= i < m ==> rs[i].free && rs[i].size < n
    ensures m < |rs| ==> !rs[m].free || rs[m].size >= n
  {
    if rs == [] || !rs[0].free || rs[0].size >= n then 0 else 1 + Stop(rs[1..], n)
  }

  /** The outcome Hangs stands for a loop that no number of rounds completes. */
  lemma HangsForever(rs: Regions, n: nat)
    ensures Allocate(rs, n).0 == Hangs <==> forall k: nat :: Cursor(rs, n, k).Some?
  {
    var m := Stop(rs, n);
    AllocateStops(rs, n);
    forall k: nat {
      CursorMoves(rs, n, k, m);
    }
    CursorMoves(rs, n, m + 1, m);
  }

  lemma {:induction false} AllocateStops(rs: Regions, n: nat)
    ensures Allocate(rs, n).0 == Hangs <==> Stop(rs, n) < |rs| && !rs[Stop(rs, n)].free
  {
    if rs != [] && rs[0].free && rs[0].size < n {
      AllocateStops(rs[1..], n);
    }
  }

  // ---- reserve_region ----

  /** The test that reserve_region makes, with its 32- and 64-bit wrap-around. */
  predicate Matches(r: Region, at: nat, n: nat) {
    r.start <= at && End(r) % ADDRESSES >= (at + 0x1000 * n % 0x1_0000_0000) % ADDRESSES
  }

  /** The pages [at, at + n) lie in the node. */
  predicate Contains(r: Region, at: nat, n: nat) {
    r.start <= at && at + 0x1000 * n <= End(r)
  }

  /** The outcome of reserve_region and the list it leaves: the front of the node is never
      split off, and of the two parts it is the second that gets marked. */
  function Reserve(rs: Regions, at: nat, n: nat): (Outcome<bool>, Regions) {
    if rs == [] then (Done(false), [])
    else if !rs[0].free then (Hangs, rs)
    else if Matches(rs[0], at, n) then
      if rs[0].size > n then (Done(true), [FirstPart(rs[0], n), SecondPart(rs[0], n).(free := false)] + rs[1..])
      else (Done(true), [rs[0].(free := false)] + rs[1..])
    else
      var (r, tail) := Reserve(rs[1..], at, n);
      (r, [rs[0]] + tail)
  }

  /** reserve_region past free nodes that do not pass its test. */
  lemma {:induction false} ReserveAt(rs: Regions, at: nat, n: nat, i: nat)
    requires i <= |rs| && forall k :: 0 <= k < i ==> rs[k].free && !Matches(rs[k], at, n)
    ensures Reserve(rs, at, n)
         == if i == |rs| then (Done(false), rs)
            else if !rs[i].free then (Hangs, rs)
            else if !Matches(rs[i], at, n) then Reserve(rs, at, n)
            else if rs[i].size > n then
              (Done(true), SplitAt(rs, i, FirstPart(rs[i], n), SecondPart(rs[i], n).(free := false)))
            else (Done(true), rs[i := rs[i].(free := false)])
  {
    if i > 0 {
      var tail := rs[1..];
      assert rs == [rs[0]] + tail;
      ReserveAt(tail, at, n, i - 1);
      if i < |rs| {
        ConsUpdate(rs, i, rs[i].(free := false));
      }
    } else if rs != [] {
      assert [rs[0].(free := false)] + rs[1..] == rs[0 := rs[0].(free := false)];
    }
    if i < |rs| && rs[i].size > n {
      ConsSplit(rs, i, FirstPart(rs[i], n), SecondPart(rs[i], n).(free := false));
    }
  }

  /** What reserving is for: it succeeds exactly when the pages lie in one free node, and then
      takes exactly those. */
  ghost predicate ReserveContract(rs: Regions, at: nat, n: nat, r: Outcome<bool>, rs': Regions) {
    && (r == Done(true) || (r == Done(false) && rs' == rs))
    && (r == Done(true) <==> exists i :: 0 <= i < |rs| && rs[i].free && Contains(rs[i], at, n))
    && (r == Done(true) ==> Takes(rs, rs', at, at + 0x1000 * n))
  }

  /** Reserving keeps the tiling and its coalescing, whatever it marks. */
  lemma ReserveKeeps(rs: Regions, start: nat, pages: nat, at: nat, n: nat)
    requires Inv(rs, start, pages) && n > 0
    ensures Inv(Reserve(rs, at, n).1, start, pages)
    ensures Reserve(rs, at, n).0 != Done(true) ==> Reserve(rs, at, n).1 == rs
  {
    if rs != [] && rs[0].free {
      assert rs == [rs[0]] + rs[1..];
      if Matches(rs[0], at, n) {
        MarkHead(rs[0], rs[1..], start, pages, n);
      } else if |rs| > 1 {
        assert Reserve(rs[1..], at, n) == (Hangs, rs[1..]);
      } else {
        assert rs[1..] == [];
      }
    }
  }

  lemma MarkHead(r: Region, rest: Regions, start: nat, pages: nat, n: nat)
    requires Inv([r] + rest, start, pages) && r.free && n > 0
    ensures var rs' := if r.size > n then [FirstPart(r, n), SecondPart(r, n).(free := false)] + rest
                       else [r.(free := false)] + rest;
            && Inv(rs', start, pages)
            && Takes([r] + rest, rs', if r.size > n then start + 0x1000 * n else start, End(r))
  {
    var rs := [r] + rest;
    assert rs[1..] == rest;
    forall x: nat ensures FreeAt(rs, x) <==> Holds(r, x) || FreeAt(rest, x) {
      FreeAtCons(r, rest, x);
    }
    forall x: nat | FreeAt(rest, x) ensures x >= End(r) {
      FreeInside(rest, End(r), pages - r.size, x);
    }
    if r.size > n {
      var p, q := FirstPart(r, n), SecondPart(r, n).(free := false);
      assert q.start == r.start + 0x1000 * n;
      var rs' := [p, q] + rest;
      assert rs' == [p] + ([q] + rest) && ([q] + rest)[1..] == rest && rs'[1..] == [q] + rest;
      forall x: nat ensures FreeAt(rs', x) <==> Holds(p, x) || FreeAt(rest, x) {
        FreeAtCons(p, [q] + rest, x);
        FreeAtCons(q, rest, x);
      }
      CoalescedHead(r, rest, q);
      assert Coalesced([p] + ([q] + rest));
    } else {
      var q := r.(free := false);
      var rs' := [q] + rest;
      assert rs'[1..] == rest;
      forall x: nat ensures FreeAt(rs', x) <==> FreeAt(rest, x) {
        FreeAtCons(q, rest, x);
      }
      CoalescedHead(r, rest, q);
    }
  }

  /** What the test of a node comes to, for a 64-bit address and a 32-bit page count. Of the count it
      sees the lowest 20 bits. A node that ends at 2^64 is only taken for a request that ends there
      too (or an empty one at 0); any other for a request that ends inside it, or after 2^64 and,
      wrapped, not behind it. */
  predicate Accepted(r: Region, at: nat, n: nat) {
    var stop := at + 0x1000 * (n % 0x10_0000);
    && r.start <= at
    && if r.start + 0x1000 * r.size == 0x1_0000_0000_0000_0000 then
         stop == 0x1_0000_0000_0000_0000 || stop == 0
       else
         stop <= r.start + 0x1000 * r.size
         || 0x1_0000_0000_0000_0000 <= stop <= r.start + 0x1000 * r.size + 0x1_0000_0000_0000_0000
  }

  lemma SeenPages(n: nat)
    ensures 0x1000 * n % 0x1_0000_0000 == 0x1000 * (n % 0x10_0000)
  {
    var q := n / 0x10_0000;
    assert n == 0x10_0000 * q + n % 0x10_0000;
    assert 0x1000 * n == 0x1_0000_0000 * q + 0x1000 * (n % 0x10_0000);
  }

  lemma Wrapped(x: nat)
    requires x < 2 * ADDRESSES
    ensures x % ADDRESSES == if x < ADDRESSES then x else x - ADDRESSES
  {
  }

  lemma MatchesExact(r: Region, at: nat, n: nat)
    requires End(r) <= ADDRESSES && at < ADDRESSES
    ensures Matches(r, at, n) <==> Accepted(r, at, n)
  {
    SeenPages(n);
    Wrapped(at + 0x1000 * (n % 0x10_0000));
    Wrapped(End(r));
  }

  /** For a request of fewer than 2^20 pages, where nothing reaches 2^64, the test asks whether the
      node holds the pages. */
  lemma MatchesPlain(r: Region, at: nat, n: nat)
    requires End(r) < ADDRESSES && n < 0x10_0000 && at + 0x1000 * n < ADDRESSES
    ensures Matches(r, at, n) <==> r.start <= at && at + 0x1000 * n <= r.start + 0x1000 * r.size
  {
    SeenPages(n);
    Wrapped(at + 0x1000 * n);
    Wrapped(End(r));
  }

  /** When reserve_region does its job, in terms of the list's first node: that node must be
      free; if the test picks it, it must hold the pages, and they must be all of it or
      exactly its second half; if the test does not, it must be the only node and not hold them. */
  predicate ReserveWorks(rs: Regions, at: nat, n: nat) {
    rs == [] ||
    (rs[0].free &&
     if Accepted(rs[0], at, n) then
       Contains(rs[0], at, n) && (rs[0].size == n || (rs[0].size == 2 * n && at == rs[0].start + 0x1000 * n))
     else |rs| == 1 && !Contains(rs[0], at, n))
  }

  lemma FirstEnds(rs: Regions, start: nat, pages: nat)
    requires Inv(rs, start, pages) && rs != []
    ensures End(rs[0]) <= ADDRESSES
  {
    TilesBounds(rs, start, pages, 0);
  }

  lemma ReserveExact(rs: Regions, start: nat, pages: nat, at: nat, n: nat)
    requires Inv(rs, start, pages) && n > 0 && at < ADDRESSES
    ensures ReserveContract(rs, at, n, Reserve(rs, at, n).0, Reserve(rs, at, n).1) <==> ReserveWorks(rs, at, n)
  {
    if rs != [] {
      FirstEnds(rs, start, pages);
      MatchesExact(rs[0], at, n);
    }
    if rs == [] || !rs[0].free {
    } else if Matches(rs[0], at, n) {
      assert rs == [rs[0]] + rs[1..];
      MarkHead(rs[0], rs[1..], start, pages, n);
      ReserveMatched(rs, start, pages, at, n);
    } else if |rs| > 1 {
      assert Reserve(rs[1..], at, n).0 == Hangs;
    } else {
      assert rs[1..] == [];
    }
  }

  /** The answer and the list in numbers, for a list whose first node is free: of a node the test
      accepts the pages behind the first `n` are marked, all of it if there are none. */
  lemma ReserveAnswer(rs: Regions, start: nat, pages: nat, at: nat, n: nat)
    requires Inv(rs, start, pages) && at < ADDRESSES && rs != [] && rs[0].free
    ensures Accepted(rs[0], at, n) && rs[0].size <= n ==>
              Reserve(rs, at, n) == (Done(true), [Region(rs[0].start, rs[0].size, false)] + rs[1..])
    ensures Accepted(rs[0], at, n) && rs[0].size > n ==>
              Reserve(rs, at, n)
              == (Done(true),
                  [Region(rs[0].start, n, true), Region(rs[0].start + 0x1000 * n, rs[0].size - n, false)] + rs[1..])
    ensures !Accepted(rs[0], at, n) ==> Reserve(rs, at, n) == (if |rs| == 1 then Done(false) else Hangs, rs)
  {
    FirstEnds(rs, start, pages);
    MatchesExact(rs[0], at, n);
    assert rs == [rs[0]] + rs[1..];
    if |rs| > 1 {
      assert !rs[1].free;
      assert Reserve(rs[1..], at, n) == (Hangs, rs[1..]);
    } else {
      assert rs[1..] == [];
    }
  }

  /** The pages that get marked are [marked, End); they are the requested ones only in two cases. */
  lemma ReserveMatched(rs: Regions, start: nat, pages: nat, at: nat, n: nat)
    requires Inv(rs, start, pages) && n > 0 && rs != [] && rs[0].free && Matches(rs[0], at, n)
    requires Takes(rs, Reserve(rs, at, n).1, if rs[0].size > n then start + 0x1000 * n else start, End(rs[0]))
    ensures ReserveContract(rs, at, n, Done(true), Reserve(rs, at, n).1) <==>
            Contains(rs[0], at, n) && (rs[0].size == n || (rs[0].size == 2 * n && at == rs[0].start + 0x1000 * n))
  {
    var rs' := Reserve(rs, at, n).1;
    var marked := if rs[0].size > n then start + 0x1000 * n else start;
    assert forall a: nat :: Holds(rs[0], a) ==> FreeAt(rs, a);
    if Takes(rs, rs', at, at + 0x1000 * n) && exists i :: 0 <= i < |rs| && rs[i].free && Contains(rs[i], at, n) {
      var i :| 0 <= i < |rs| && rs[i].free && Contains(rs[i], at, n);
      assert FreeAt(rs, at) && !FreeAt(rs', at);
      assert marked <= at < End(rs[0]);
      if i > 0 {
        OneHolder(rs, start, pages, 0, i);
      }
      var last := at + 0x1000 * n;
      assert FreeAt(rs, marked) && !FreeAt(rs', marked);
      assert at == marked;
      assert FreeAt(rs, End(rs[0]) - 1) && !FreeAt(rs', End(rs[0]) - 1);
    }
  }

  // ---- free_region ----

  /** The outcome of free_region and the list it leaves. A free successor is unlinked first;
      then the size added is that of the node after it, and that node is the one given back. */
  function Free(rs: Regions, at: nat): (Outcome<()>, Regions) {
    if rs == [] then (Done(()), [])
    else if rs[0].free then (Hangs, rs)
    else if rs[0].start == at then
      if |rs| == 1 then (Crashes, rs)
      else if rs[1].free then
        if |rs| == 2 then (Crashes, rs[..1])
        else (Dangles, [rs[0].(size := rs[0].size + rs[2].size, free := true)] + rs[2..])
      else (Done(()), [rs[0].(free := true)] + rs[1..])
    else
      var (r, tail) := Free(rs[1..], at);
      (r, [rs[0]] + tail)
  }

  /** free_region past allocated nodes that start elsewhere. */
  lemma {:induction false} FreeFrom(rs: Regions, at: nat, i: nat)
    requires i <= |rs| && forall k :: 0 <= k < i ==> !rs[k].free && rs[k].start != at
    ensures Free(rs, at)
         == if i == |rs| then (Done(()), rs)
            else if rs[i].free then (Hangs, rs)
            else if rs[i].start != at then Free(rs, at)
            else if i + 1 == |rs| then (Crashes, rs)
            else if !rs[i + 1].free then (Done(()), rs[i := rs[i].(free := true)])
            else if i + 2 == |rs| then (Crashes, rs[..i + 1])
            else (Dangles, rs[..i] + [rs[i].(size := rs[i].size + rs[i + 2].size, free := true)] + rs[i + 2..])
  {
    if i > 0 {
      var tail := rs[1..];
      assert rs == [rs[0]] + tail;
      FreeFrom(tail, at, i - 1);
      if i < |rs| {
        ConsUpdate(rs, i, rs[i].(free := true));
        assert [rs[0]] + tail[..i] == rs[..i + 1];
        if i + 2 < |rs| {
          var x := rs[i].(size := rs[i].size + rs[i + 2].size, free := true);
          assert tail[i + 1..] == rs[i + 2..];
          assert [rs[0]] + (tail[..i - 1] + [x] + tail[i + 1..]) == rs[..i] + [x] + rs[i + 2..];
        }
      }
    } else if rs != [] {
      assert [rs[0].(free := true)] + rs[1..] == rs[0 := rs[0].(free := true)];
      if 2 < |rs| {
        var x := rs[0].(size := rs[0].size + rs[2].size, free := true);
        assert [x] + rs[2..] == rs[..0] + [x] + rs[2..];
      }
    }
  }

  /** What freeing the allocated node `i` is for: its pages, and no others, become free, and
      the list stays a coalesced tiling. */
  ghost predicate FreeContract(rs: Regions, start: nat, pages: nat, i: nat, r: Outcome<()>, rs': Regions)
    requires i < |rs|
  {
    r == Done(()) && Inv(rs', start, pages) && GivesBack(rs, rs', rs[i].start, End(rs[i]))
  }

  /** The allocated node `i` can be freed: nothing free stands before it, and it has a
      successor, which is allocated. */
  predicate FreeWorks(rs: Regions, i: nat)
    requires i < |rs|
  {
    (forall j :: 0 <= j < i ==> !rs[j].free) && i + 1 < |rs| && !rs[i + 1].free
  }

  lemma {:induction false} FreeOutcome(rs: Regions, start: nat, pages: nat, i: nat)
    requires Tiles(rs, start, pages) && i < |rs| && !rs[i].free
    ensures Free(rs, rs[i].start).0 == Done(()) <==> FreeWorks(rs, i)
    ensures FreeWorks(rs, i) ==> Free(rs, rs[i].start).1 == rs[i := rs[i].(free := true)]
  {
    if !rs[0].free && i > 0 {
      TilesBounds(rs, start, pages, i);
      TilesBounds(rs, start, pages, 0);
      var tail := rs[1..];
      FreeOutcome(tail, End(rs[0]), pages - rs[0].size, i - 1);
      assert forall j :: 0 <= j < |tail| ==> tail[j] == rs[j + 1];
      assert FreeWorks(rs, i) <==> FreeWorks(tail, i - 1);
      assert [rs[0]] + tail[i - 1 := tail[i - 1].(free := true)] == rs[i := rs[i].(free := true)];
    }
  }

  lemma {:induction false} SetFreeTiles(rs: Regions, start: nat, pages: nat, i: nat)
    requires Tiles(rs, start, pages) && i < |rs|
    ensures Tiles(rs[i := rs[i].(free := true)], start, pages)
  {
    var rs' := rs[i := rs[i].(free := true)];
    if i > 0 {
      SetFreeTiles(rs[1..], End(rs[0]), pages - rs[0].size, i - 1);
      assert rs'[1..] == rs[1..][i - 1 := rs[i].(free := true)];
    } else {
      assert rs'[1..] == rs[1..];
    }
  }

  /** free_region does its job on an allocated node exactly when FreeWorks says so. */
  lemma FreeExact(rs: Regions, start: nat, pages: nat, i: nat)
    requires Inv(rs, start, pages) && i < |rs| && !rs[i].free
    ensures FreeContract(rs, start, pages, i, Free(rs, rs[i].start).0, Free(rs, rs[i].start).1) <==> FreeWorks(rs, i)
  {
    FreeOutcome(rs, start, pages, i);
    if FreeWorks(rs, i) {
      var rs' := rs[i := rs[i].(free := true)];
      SetFreeTiles(rs, start, pages, i);
      if i > 0 {
        assert !rs[i - 1].free;
      }
      assert Coalesced(rs');
      forall a: nat ensures FreeAt(rs', a) <==> FreeAt(rs, a) || Holds(rs[i], a) {
        if j :| 0 <= j < |rs| && rs[j].free && Holds(rs[j], a) {
          assert rs'[j] == rs[j];
        }
        if Holds(rs[i], a) {
          assert rs'[i].free && Holds(rs'[i], a);
        }
      }
    }
  }

  /** Freeing what was just allocated gives back the very same nodes exactly when the
      allocation took the whole first node and was not the only one. */
  lemma FreeUndoesAllocate(rs: Regions, start: nat, pages: nat, n: nat)
    requires Inv(rs, start, pages) && n > 0
    requires Allocate(rs, n).0 == Done(Some(start))
    ensures Free(Allocate(rs, n).1, start) == (Done(()), rs) <==> rs[0].size == n && |rs| > 1
    ensures rs[0].size > n ==> Free(Allocate(rs, n).1, start).0 != Done(())
  {
    AllocateFromHead(rs, start, pages, n);
    assert rs == [rs[0]] + rs[1..];
    if rs[0].size == n {
      var rs' := Allocate(rs, n).1;
      assert rs'[1..] == rs[1..];
      if |rs| > 1 {
        assert !rs[1].free;
        assert [rs'[0].(free := true)] + rs'[1..] == rs;
      }
    }
  }

  // ---- is_allocated_region ----

  /** The loop of is_allocated_region never moves to another node. */
  function IsAllocated(rs: Regions, at: nat, n: nat): Outcome<bool> {
    if rs == [] then Done(true)
    else if rs[0].free && Matches(rs[0], at, n) then Done(false)
    else Hangs
  }

  /** On a coalesced tiling it gives the right answer exactly when its test accepts the first node,
      and rightly so; in every other case it hangs. It never answers "allocated". */
  lemma IsAllocatedExact(rs: Regions, start: nat, pages: nat, at: nat, n: nat)
    requires Inv(rs, start, pages) && rs != [] && at < ADDRESSES
    ensures IsAllocated(rs, at, n) == if rs[0].free && Accepted(rs[0], at, n) then Done(false) else Hangs
    ensures var someFree := exists i :: 0 <= i < |rs| && rs[i].free && Contains(rs[i], at, n);
            IsAllocated(rs, at, n) == Done(!someFree) <==> rs[0].free && Accepted(rs[0], at, n) && someFree
  {
    FirstEnds(rs, start, pages);
    MatchesExact(rs[0], at, n);
  }

  // ---- initialize ----

  const HH_START: nat := 0xFFFF_8000_0000_0000
  const HH_SIZE: nat := 0x8_0000_0000

  function InitialRegion(): Regions {
    [Region(HH_START, HH_SIZE, true)]
  }

  /** The higher half ends at 2^64, where the end address wraps to zero: reserving its first
      512 pages fails, and the first allocation gets exactly those addresses. */
  lemma InitialReserveFails(n: nat)
    requires 0 < n < HH_SIZE
    ensures HH_START == 0xFFFF_8000_0000_0000 && HH_START + 0x1000 * HH_SIZE == 0x1_0000_0000_0000_0000
    ensures Inv(InitialRegion(), HH_START, HH_SIZE)
    ensures Reserve(InitialRegion(), HH_START, 512) == (Done(false), InitialRegion())
    ensures Contains(InitialRegion()[0], HH_START, 512)
    ensures Allocate(InitialRegion(), n).0 == Done(Some(HH_START))
  {
    var rs := InitialRegion();
    assert rs[1..] == [];
    assert [rs[0]] + [] == rs;
  }

  // ---- runs ----

  datatype Op = AllocateOp(n: nat) | ReserveOp(at: nat, n: nat) | FreeOp(at: nat)

  /** Requests are for at least one page, and what is freed was allocated as a node. */
  ghost predicate Sensible(rs: Regions, op: Op) {
    match op
    case AllocateOp(n) => n > 0
    case ReserveOp(at, n) => n > 0 && at < ADDRESSES
    case FreeOp(at) => exists i :: 0 <= i < |rs| && !rs[i].free && rs[i].start == at
  }

  function Step(rs: Regions, op: Op): Regions {
    match op
    case AllocateOp(n) => Allocate(rs, n).1
    case ReserveOp(at, n) => Reserve(rs, at, n).1
    case FreeOp(at) => Free(rs, at).1
  }

  /** The call comes back: it neither hangs nor crashes nor leaves a dangling link. */
  predicate Returns(rs: Regions, op: Op) {
    match op
    case AllocateOp(n) => Allocate(rs, n).0.Done?
    case ReserveOp(at, n) => Reserve(rs, at, n).0.Done?
    case FreeOp(at) => Free(rs, at).0 == Done(())
  }

  ghost predicate RunReturns(rs: Regions, ops: seq<Op>)
    decreases |ops|
  {
    ops == [] || (Sensible(rs, ops[0]) && Returns(rs, ops[0]) && RunReturns(Step(rs, ops[0]), ops[1..]))
  }

  function Run(rs: Regions, ops: seq<Op>): Regions
    decreases |ops|
  {
    if ops == [] then rs else Run(Step(rs, ops[0]), ops[1..])
  }

  lemma ReturnKeeps(rs: Regions, start: nat, pages: nat, op: Op)
    requires Inv(rs, start, pages) && Sensible(rs, op) && Returns(rs, op)
    ensures Inv(Step(rs, op), start, pages)
  {
    match op
    case AllocateOp(n) => AllocateKeeps(rs, start, pages, n);
    case ReserveOp(at, n) => ReserveKeeps(rs, start, pages, at, n);
    case FreeOp(at) =>
      var i :| 0 <= i < |rs| && !rs[i].free && rs[i].start == at;
      FreeOutcome(rs, start, pages, i);
      FreeExact(rs, start, pages, i);
  }

  /** Over every run of calls that return, the nodes stay a coalesced tiling of the region. */
  lemma {:induction false} RunKeeps(rs: Regions, start: nat, pages: nat, ops: seq<Op>)
    requires Inv(rs, start, pages) && RunReturns(rs, ops)
    ensures Inv(Run(rs, ops), start, pages)
    decreases |ops|
  {
    if ops != [] {
      ReturnKeeps(rs, start, pages, ops[0]);
      RunKeeps(Step(rs, ops[0]), start, pages, ops[1..]);
    }
  }

  /** A call does what it is for. */
  ghost predicate Correct(rs: Regions, start: nat, pages: nat, op: Op) {
    match op
    case AllocateOp(n) => Allocate(rs, n).0 == AllocateContract(rs, n)
    case ReserveOp(at, n) => ReserveContract(rs, at, n, Reserve(rs, at, n).0, Reserve(rs, at, n).1)
    case FreeOp(at) => exists i :: 0 <= i < |rs| && !rs[i].free && rs[i].start == at
                                   && FreeContract(rs, start, pages, i, Free(rs, at).0, Free(rs, at).1)
  }

  /** What the list must look like for that. */
  ghost predicate CallWorks(rs: Regions, op: Op) {
    match op
    case AllocateOp(n) => rs == [] || (rs[0].free && (rs[0].size >= n || |rs| == 1))
    case ReserveOp(at, n) => ReserveWorks(rs, at, n)
    case FreeOp(at) => exists i :: 0 <= i < |rs| && !rs[i].free && rs[i].start == at && FreeWorks(rs, i)
  }

  lemma StepExact(rs: Regions, start: nat, pages: nat, op: Op)
    requires Inv(rs, start, pages) && Sensible(rs, op)
    ensures Correct(rs, start, pages, op) <==> CallWorks(rs, op)
    ensures CallWorks(rs, op) ==> Inv(Step(rs, op), start, pages)
  {
    match op
    case AllocateOp(n) =>
      AllocateExact(rs, n);
      AllocateKeeps(rs, start, pages, n);
      if rs != [] {
        AllocateFromHead(rs, start, pages, n);
      }
    case ReserveOp(at, n) =>
      ReserveExact(rs, start, pages, at, n);
      ReserveKeeps(rs, start, pages, at, n);
    case FreeOp(at) =>
      forall i | 0 <= i < |rs| && !rs[i].free && rs[i].start == at
        ensures FreeContract(rs, start, pages, i, Free(rs, at).0, Free(rs, at).1) <==> FreeWorks(rs, i)
      {
        FreeExact(rs, start, pages, i);
      }
  }

  ghost predicate RunCorrect(rs: Regions, start: nat, pages: nat, ops: seq<Op>)
    decreases |ops|
  {
    ops == [] ||
    (Sensible(rs, ops[0]) && Correct(rs, start, pages, ops[0]) && RunCorrect(Step(rs, ops[0]), start, pages, ops[1..]))
  }

  ghost predicate RunWorks(rs: Regions, ops: seq<Op>)
    decreases |ops|
  {
    ops == [] || (Sensible(rs, ops[0]) && CallWorks(rs, ops[0]) && RunWorks(Step(rs, ops[0]), ops[1..]))
  }

  /** All calls of a run do what they are for exactly when each finds the list in one of the few
      shapes that suit it. */
  lemma {:induction false} RunExact(rs: Regions, start: nat, pages: nat, ops: seq<Op>)
    requires Inv(rs, start, pages)
    ensures RunCorrect(rs, start, pages, ops) <==> RunWorks(rs, ops)
    decreases |ops|
  {
    if ops != [] && Sensible(rs, ops[0]) {
      StepExact(rs, start, pages, ops[0]);
      if CallWorks(rs, ops[0]) {
        RunExact(Step(rs, ops[0]), start, pages, ops[1..]);
      }
    }
  }
}
