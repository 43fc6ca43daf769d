/** The physical-frame allocator itself: an array of list heads and linked block records.

    Where the source dereferences a null list head or indexes past the last list, the
    methods stop and report `Trap`.
 */
module PhysicalMemory {
  import opened Bits
  import opened FreeLists
  import opened BuddyRuns
  import opened Traps
  import opened Wrappers
  import BootMemory

  class Block {
    var start: nat
    var next: Block?
  }

  function At(c: seq<Block>, i: nat): Block? {
    if i < |c| then c[i] else null
  }

  /** `c` is the chain of records that starts at `head`. */
  ghost predicate ChainOf(head: Block?, c: seq<Block>)
    reads c
  {
    head == At(c, 0) && forall i {:trigger c[i].next} :: 0 <= i < |c| ==> c[i].next == At(c, i + 1)
  }

  function Bypassed(c: seq<Block>, i: nat): (d: seq<Block>)
    requires i < |c|
    ensures |d| == |c| - 1
    ensures forall p :: 0 <= p < |d| ==> d[p] == c[if p < i then p else p + 1]
  {
    c[..i] + c[i + 1..]
  }

  class Allocator {
    const freeLists: array<Block?>
    ghost var chains: seq<seq<Block>> // the records linked into each list
    ghost var lists: Lists // their block starts
    ghost var live: set<Block> // the records obtained from kmalloc and not given to kfree

    ghost predicate Valid()
      reads this, freeLists, live
    {
      && |chains| == |lists| == freeLists.Length > 0
      && (forall k, i {:trigger chains[k][i]} :: 0 <= k < |chains| && 0 <= i < |chains[k]| ==> chains[k][i] in live)
      && (forall k :: 0 <= k < |chains| ==> ChainOf(freeLists[k], chains[k]))
      && (forall k :: 0 <= k < |chains| ==> |chains[k]| == |lists[k]|)
      && (forall k, i {:trigger chains[k][i]} :: 0 <= k < |chains| && 0 <= i < |chains[k]| ==>
            chains[k][i].start == lists[k][i])
      && Distinct()
    }

    /** No record is linked twice. */
    ghost predicate Distinct()
      reads this
    {
      forall k, i, l, j {:trigger chains[k][i], chains[l][j]} ::
        0 <= k < |chains| && 0 <= i < |chains[k]| && 0 <= l < |chains| && 0 <= j < |chains[l]| ==>
          chains[k][i] == chains[l][j] ==> k == l && i == j
    }

    ghost predicate Unlinked(blk: Block)
      reads this
    {
      forall k, i {:trigger chains[k][i]} :: 0 <= k < |chains| && 0 <= i < |chains[k]| ==> chains[k][i] != blk
    }

    function Top(): int {
      freeLists.Length - 1
    }

    constructor (maxOrder: nat)
      ensures Valid() && live == {} && fresh(freeLists)
      ensures freeLists.Length == maxOrder + 1
      ensures lists == seq(maxOrder + 1, _ => [])
    {
      freeLists := new Block?[maxOrder + 1](_ => null);
      chains := seq(maxOrder + 1, _ => []);
      lists := seq(maxOrder + 1, _ => []);
      live := {};
    }

    // ---- the statements the source repeats ----

    method Kmalloc() returns (blk: Block)
      requires Valid()
      modifies this`live
      ensures Valid() && fresh(blk) && live == old(live) + {blk} && Unlinked(blk)
    {
      blk := new Block;
      live := live + {blk};
    }

    /** Only records that are no longer linked may be given back. */
    method Kfree(blk: Block)
      requires Valid() && blk in live && Unlinked(blk)
      modifies this`live
      ensures Valid() && live == old(live) - {blk}
    {
      live := live - {blk};
    }

    /** `blk->next = free_lists[order]; free_lists[order] = blk;` */
    method LinkFront(blk: Block, order: nat)
      requires Valid() && blk in live && Unlinked(blk) && order < |lists|
      modifies this`chains, this`lists, freeLists, blk`next
      ensures Valid()
      ensures chains == old(chains)[order := [blk] + old(chains)[order]]
      ensures lists == Push(old(lists), order, blk.start)
    {
      blk.next := freeLists[order];
      freeLists[order] := blk;
      chains := chains[order := [blk] + chains[order]];
      lists := Push(lists, order, blk.start);
    }

    /** The loop that walks one list looking for a block start. */
    method Search(order: nat, start: nat) returns (cur: Block?, prev: Block?)
      requires Valid() && order < |lists|
      ensures cur == At(chains[order], IndexOf(lists[order], start))
      ensures cur != null ==> prev == if IndexOf(lists[order], start) == 0 then null
                                      else chains[order][IndexOf(lists[order], start) - 1]
      ensures cur != null <==> Listed(lists, order, start)
    {
      cur, prev := freeLists[order], null;
      ghost var i := 0;
      while cur != null
        invariant i <= |chains[order]|
        invariant cur == At(chains[order], i)
        invariant prev == if i == 0 then null else chains[order][i - 1]
        invariant start !in lists[order][..i]
        decreases |chains[order]| - i
      {
        if cur.start == start {
          FirstAt(lists[order], start, i);
          return;
        }
        prev := cur;
        cur := cur.next;
        i := i + 1;
      }
      FirstAt(lists[order], start, i);
    }

    /** `Valid`, but for record `i` of list `order`, which the links already bypass. */
    ghost predicate ValidBut(order: nat, i: nat)
      reads this, freeLists, live
    {
      && order < |chains| == |lists| == freeLists.Length
      && i < |chains[order]|
      && (forall k, i {:trigger chains[k][i]} :: 0 <= k < |chains| && 0 <= i < |chains[k]| ==> chains[k][i] in live)
      && ChainOf(freeLists[order], Bypassed(chains[order], i))
      && (forall k :: 0 <= k < |chains| && k != order ==> ChainOf(freeLists[k], chains[k]))
      && (forall k :: 0 <= k < |chains| ==> |chains[k]| == |lists[k]|)
      && (forall k, i {:trigger chains[k][i]} :: 0 <= k < |chains| && 0 <= i < |chains[k]| ==>
            chains[k][i].start == lists[k][i])
      && Distinct()
    }

    /** `prev->next = cur->next` or, at the head, `free_lists[order] = cur->next`. */
    method Detach(order: nat, cur: Block, prev: Block?, ghost i: nat)
      requires Valid() && order < |lists| && i < |chains[order]| && cur == chains[order][i]
      requires prev == if i == 0 then null else chains[order][i - 1]
      modifies this`chains, this`lists, freeLists, live`next
      ensures Valid() && Unlinked(cur)
      ensures chains == old(chains)[order := Bypassed(old(chains)[order], i)]
      ensures lists == old(lists)[order := Without(old(lists)[order], i)]
    {
      if prev != null {
        prev.next := cur.next;
      } else {
        freeLists[order] := cur.next;
      }
      Forget(order, i);
    }

    ghost method Forget(order: nat, i: nat)
      requires ValidBut(order, i)
      modifies this`chains, this`lists
      ensures Valid() && Unlinked(old(chains)[order][i])
      ensures chains == old(chains)[order := Bypassed(old(chains)[order], i)]
      ensures lists == old(lists)[order := Without(old(lists)[order], i)]
    {
      ghost var c, d := chains[order], Bypassed(chains[order], i);
      chains := chains[order := d];
      lists := lists[order := Without(lists[order], i)];
      assert forall p :: 0 <= p < |d| ==> lists[order][p] == old(lists)[order][if p < i then p else p + 1];
      assert Unlinked(c[i]) by {
        assert forall k :: 0 <= k < |chains| && k != order ==> chains[k] == old(chains)[k];
      }
      assert Distinct() by {
        assert forall k :: 0 <= k < |chains| && k != order ==> chains[k] == old(chains)[k];
      }
    }

    /** Search, unlink and give back. `keep` is any unlinked record, which stays that way. */
    method Remove(order: nat, start: nat, ghost keep: set<Block>) returns (found: bool)
      requires Valid() && order < |lists|
      requires forall blk :: blk in keep ==> blk in live && Unlinked(blk)
      modifies this`chains, this`lists, this`live, freeLists, live`next
      ensures Valid() && live <= old(live)
      ensures found <==> Listed(old(lists), order, start)
      ensures lists == if found then Unlink(old(lists), order, start) else old(lists)
      ensures forall blk :: blk in keep ==> blk in live && Unlinked(blk)
    {
      var cur, prev := Search(order, start);
      found := cur != null;
      if found {
        Detach(order, cur, prev, IndexOf(lists[order], start));
        Kfree(cur);
      }
    }

    method SetStart(blk: Block, start: nat)
      requires Valid() && Unlinked(blk)
      modifies blk`start
      ensures Valid() && blk.start == start
    {
      blk.start := start;
    }

    /** A fresh record holding `start`, linked in front of the list. */
    method AddBlock(order: nat, start: nat, ghost keep: set<Block>)
      requires Valid() && order < |lists|
      requires forall blk :: blk in keep ==> blk in live && Unlinked(blk)
      modifies this`chains, this`lists, this`live, freeLists
      ensures Valid() && fresh(live - old(live)) && old(live) <= live
      ensures lists == Push(old(lists), order, start)
      ensures forall blk :: blk in keep ==> Unlinked(blk) && blk.start == old(blk.start)
    {
      var blk := Kmalloc();
      SetStart(blk, start);
      LinkFront(blk, order);
    }

    // ---- the operations ----

    method GetAllocOrder(n: nat) returns (order: nat)
      requires freeLists.Length > 0
      ensures order == RequestOrder(n, Top())
    {
      order := 0;
      var i := 0;
      while i < freeLists.Length
        invariant i <= freeLists.Length && order == 0
        invariant n == 0 || Pow2(i) <= n
      {
        if Pow2(i) == n {
          order := i;
          CeilLog2Is(n, i);
          Pow2Monotone(i, freeLists.Length);
          return;
        } else if Pow2(i) < n < Pow2(i + 1) {
          order := i + 1;
          CeilLog2Is(n, i + 1);
          Pow2Monotone(i + 1, freeLists.Length);
          return;
        }
        i := i + 1;
      }
    }

    /** Null stands for the null head that the source dereferences here. */
    method GetBlockFromStack(order: nat) returns (blk: Block?)
      requires Valid() && order < |lists|
      modifies this`chains, this`lists, freeLists, live`next
      ensures Valid()
      ensures blk == null <==> old(lists)[order] == []
      ensures blk == null ==> lists == old(lists)
      ensures blk != null ==>
                && blk in live && Unlinked(blk)
                && blk.start == old(lists)[order][0]
                && lists == old(lists)[order := old(lists)[order][1..]]
    {
      blk := freeLists[order];
      if blk != null {
        Detach(order, blk, null, 0);
        assert Without(old(lists)[order], 0) == old(lists)[order][1..];
      }
    }

    method FillFreeList(order: nat) returns (result: Outcome<()>)
      requires Valid() && order < |lists|
      modifies this, freeLists, live
      ensures Valid() && fresh(live - old(live))
      ensures result.Done? <==> order == Top() || FirstNonEmpty(old(lists), order) < |old(lists)|
      ensures lists == if FirstNonEmpty(old(lists), order) < |old(lists)| then Fill(old(lists), order) else old(lists)
      decreases |lists| - order
    {
      if freeLists[order] != null {
        return Done(());
      }
      if order >= freeLists.Length - 1 {
        return Done(());
      }
      result := FillFreeList(order + 1);
      if result.Trap? {
        return;
      }
      var oldBlock := GetBlockFromStack(order + 1);
      if oldBlock == null {
        return Trap;
      }
      LinkFront(oldBlock, order);
      AddBlock(order, Flip(oldBlock.start, order), {});
      FillByPushing(old(lists), order);
      return Done(());
    }

    method AddFreeList(blk: Block, order: nat)
      requires Valid() && blk in live && Unlinked(blk) && order < |lists|
      modifies this, freeLists, live
      ensures Valid() && fresh(live - old(live))
      ensures lists == AddFree(old(lists), old(blk.start), order)
      decreases |lists| - order
    {
      if order == freeLists.Length - 1 {
        LinkFront(blk, order);
        return;
      }
      SetStart(blk, Align(blk.start, order));
      if freeLists[order] == null {
        LinkFront(blk, order);
        return;
      }
      var found := Remove(order, Flip(blk.start, order), {blk});
      if found {
        AddFreeList(blk, order + 1);
      } else {
        LinkFront(blk, order);
      }
    }

    // ---- the interface ----

    method Allocate(n: nat) returns (result: Outcome<Option<nat>>)
      requires Valid()
      modifies this, freeLists, live
      ensures Valid() && fresh(live - old(live))
      ensures n > Pow2(Top()) ==> result == Done(None) && lists == old(lists)
      ensures n <= Pow2(Top()) ==>
                var k := RequestOrder(n, Top());
                if k < |old(lists)| && FirstNonEmpty(old(lists), k) < |old(lists)| then
                  result == Done(Some(Take(old(lists), k).0)) && lists == Take(old(lists), k).1
                else result == Trap && lists == old(lists)
    {
      if n > Pow2(freeLists.Length - 1) {
        return Done(None);
      }
      var order := GetAllocOrder(n);
      SmallRequest(n, freeLists.Length - 1);
      var filled := FillFreeList(order);
      if filled.Trap? {
        return Trap;
      }
      var blk := GetBlockFromStack(order);
      if blk == null {
        return Trap;
      }
      result := Done(Some(blk.start));
      Kfree(blk);
    }

    /** For page counts between the top block's and twice that, here and in the next two, the
        order is one above the top, and the array of lists is left. */
    method Free(start: nat, n: nat) returns (result: Outcome<()>)
      requires Valid()
      modifies this, freeLists, live
      ensures Valid() && fresh(live - old(live))
      ensures result.Done? <==> RequestOrder(n, Top()) < |old(lists)|
      ensures lists == if result.Done? then AddFree(old(lists), start, RequestOrder(n, Top())) else old(lists)
    {
      var order := GetAllocOrder(n);
      var blk := Kmalloc();
      SetStart(blk, start);
      if order >= freeLists.Length {
        return Trap;
      }
      AddFreeList(blk, order);
      return Done(());
    }

    method IsAllocated(start: nat, n: nat) returns (taken: Outcome<bool>)
      requires Valid()
      ensures taken.Done? <==> RequestOrder(n, Top()) < |lists|
      ensures taken.Done? ==> (taken.value <==> FreeLists.IsAllocated(lists, start, RequestOrder(n, Top())))
    {
      var order := GetAllocOrder(n);
      if order >= freeLists.Length {
        return Trap;
      }
      var cur, prev := Search(order, Align(start, order));
      if cur != null {
        return Done(false);
      }
      var i := order + 1;
      while i < freeLists.Length - 1
        invariant order + 1 <= i
        invariant forall j: nat :: order < j < i ==> !Listed(lists, j, Align(start, j))
      {
        cur, prev := Search(i, Align(start, i));
        if cur != null {
          return Done(false);
        }
        i := i + 1;
      }
      return Done(true);
    }

    method Reserve(start: nat, n: nat) returns (result: Outcome<bool>)
      requires Valid()
      modifies this, freeLists, live
      ensures RequestOrder(n, Top()) >= |old(lists)| ==> result == Trap
      ensures RequestOrder(n, Top()) < |old(lists)| ==>
                match FreeLists.Reserve(old(lists), start, RequestOrder(n, Top()))
                case Reserved(M) => result == Done(true) && Valid() && lists == M
                case Refused => result == Done(false) && Valid() && lists == old(lists)
                case Fault => result == Trap
    {
      var order := GetAllocOrder(n);
      if order >= freeLists.Length {
        return Trap;
      }
      var found := Remove(order, Align(start, order), {});
      if found {
        return Done(true);
      }
      var cur, splitOrder;
      found, cur, splitOrder := FindParent(order, start);
      if !found {
        return Done(false);
      }
      var carved := CarveUpwards(cur, splitOrder, order, start);
      return if carved.Done? then Done(true) else Trap;
    }

    /** The search for a larger block. It goes on after a hit, so a later non-empty list
        without the block leaves `cur` null. */
    method FindParent(order: nat, start: nat) returns (found: bool, cur: Block?, splitOrder: nat)
      requires Valid() && order < |lists|
      ensures found <==> InsideLarger(lists, start, order, |lists| - 1)
      ensures found ==> order < splitOrder < freeLists.Length
      ensures cur != null ==> cur in live
    {
      var prev;
      found, cur, splitOrder := false, null, order;
      var i := order + 1;
      while i < freeLists.Length - 1
        invariant order + 1 <= i && (i == order + 1 || i < freeLists.Length)
        invariant order <= splitOrder < freeLists.Length
        invariant found <==> InsideLarger(lists, start, order, i)
        invariant found ==> order < splitOrder
        invariant cur != null ==> cur in live
      {
        if freeLists[i] != null {
          cur, prev := Search(i, Align(start, i));
          if cur != null {
            found := true;
            splitOrder := i;
          }
        }
        i := i + 1;
      }
    }

    /** The carving loop of reserve. Its index starts at the order of the block found and
        counts up, so it never gets to its end: it writes past the array of lists, unless it
        starts from a null block. */
    method CarveUpwards(parent: Block?, splitOrder: nat, order: nat, start: nat) returns (r: Outcome<()>)
      requires order < splitOrder < freeLists.Length
      requires parent != null ==> parent in live
      modifies freeLists, live
      ensures r.Trap?
    {
      var cur, i := parent, splitOrder;
      while i >= order + 1
        invariant splitOrder <= i <= freeLists.Length + 1
        invariant cur != null ==> cur in live || fresh(cur)
        decreases freeLists.Length + 1 - i
      {
        if cur == null {
          return Trap;
        }
        var newBlock := new Block;
        newBlock.start := FlipBit(Align(cur.start, i - 1), i - 1);
        cur.start := Align(cur.start, i - 1);
        if Align(start, i - 1) == newBlock.start {
          newBlock, cur := cur, newBlock;
        }
        if i - 1 >= freeLists.Length {
          return Trap;
        }
        newBlock.next := freeLists[i - 1];
        freeLists[i - 1] := newBlock;
        i := i + 1;
      }
      return Done(());
    }

    method DecomposeBlock(blk: Block, startOrder: nat, endOrder: nat)
      requires Valid() && blk in live && Unlinked(blk) && startOrder < |lists|
      modifies this, freeLists, live
      ensures Valid() && fresh(live - old(live))
      ensures lists == Decompose(old(lists), old(blk.start), startOrder, endOrder)
      decreases startOrder
    {
      if endOrder > startOrder {
        return;
      }
      if startOrder == endOrder {
        LinkFront(blk, startOrder);
        return;
      }
      SetStart(blk, Align(blk.start, startOrder - 1));
      AddBlock(startOrder - 1, Flip(blk.start, startOrder - 1), {blk});
      DecomposeBlock(blk, startOrder - 1, endOrder);
    }

    method Initialize(ranges: seq<BootMemory.Range>)
      requires Valid()
      modifies this, freeLists
      ensures Valid() && fresh(live - old(live))
      ensures lists == BootMemory.Initial(ranges, Top())
    {
      var i := 0;
      while i < freeLists.Length
        invariant i <= freeLists.Length
        invariant forall k :: 0 <= k < i ==> freeLists[k] == null
        modifies freeLists
      {
        freeLists[i] := null;
        i := i + 1;
      }
      chains := seq(freeLists.Length, _ => []);
      lists := seq(freeLists.Length, _ => []);
      i := 0;
      while i < |ranges|
        invariant i <= |ranges|
        invariant Valid() && fresh(live - old(live)) && old(live) <= live
        invariant lists == BootMemory.Initial(ranges[..i], Top())
      {
        AddRange(ranges[i]);
        assert ranges[..i + 1][..i] == ranges[..i];
        i := i + 1;
      }
      assert ranges[..i] == ranges;
    }

    method AddRange(r: BootMemory.Range)
      requires Valid()
      modifies this, freeLists
      ensures Valid() && fresh(live - old(live)) && old(live) <= live
      ensures lists == BootMemory.PushRange(old(lists), r)
    {
      var order, nBlocks := CutRange(r);
      BootMemory.RangeOrderListed(r, freeLists.Length - 1);
      var j := 0;
      while j < nBlocks
        invariant j <= nBlocks
        invariant Valid() && fresh(live - old(live)) && old(live) <= live
        invariant lists == BootMemory.PushBlocks(old(lists), r, j)
      {
        var start := BlockStart(r, order, j);
        AddBlock(order, start, {});
        j := j + 1;
      }
    }

    /** The order of a range's blocks and their number. */
    method CutRange(r: BootMemory.Range) returns (order: nat, nBlocks: nat)
      requires freeLists.Length > 0
      ensures order == BootMemory.RangeOrder(r, Top()) && nBlocks == BootMemory.RangeBlocks(r, Top())
    {
      var nFrames := r.size / 4096 % 0x1_0000_0000;
      order := RangeOrder(r, nFrames);
      nBlocks := nFrames / Pow2(order);
    }

    /** `beginning + (j << (order + 12))`, the shift in 32 bits. */
    method BlockStart(r: BootMemory.Range, order: nat, j: nat) returns (start: nat)
      ensures start == BootMemory.RangeStart(r, order, j)
    {
      start := r.beginning + j * Size(order) % 0x1_0000_0000;
    }

    method RangeOrder(ghost r: BootMemory.Range, n: nat) returns (order: nat)
      requires freeLists.Length > 0 && n == BootMemory.Frames(r)
      ensures order == BootMemory.RangeOrder(r, Top())
    {
      order := 0;
      var i := 0;
      while i < freeLists.Length
        invariant i <= freeLists.Length && order == 0
        invariant n == 0 || Pow2(i) <= n
      {
        if Pow2(i) == n || Pow2(i) < n < Pow2(i + 1) {
          order := i;
          FloorLog2Is(n, i);
          Pow2Monotone(i + 1, freeLists.Length);
          return;
        }
        i := i + 1;
      }
    }
  }

  lemma {:induction false} FirstAt(s: seq<nat>, x: nat, i: nat)
    requires i <= |s| && x !in s[..i]
    requires i == |s| || s[i] == x
    ensures IndexOf(s, x) == i
  {
    var j := IndexOf(s, x);
    forall p | 0 <= p < i ensures s[p] != x {
      assert s[..i][p] == s[p];
    }
    forall p | 0 <= p < j ensures s[p] != x {
      assert s[..j][p] == s[p];
    }
  }

  lemma CeilLog2Is(n: nat, r: nat)
    requires n <= Pow2(r) && (r > 0 ==> Pow2(r - 1) < n)
    ensures CeilLog2(n) == r
  {
    var c := CeilLog2(n);
    if c > r {
      Pow2Monotone(r, c);
    } else if c < r {
      Pow2Monotone(c, r - 1);
    }
  }

  lemma SmallRequest(n: nat, top: nat)
    requires n <= Pow2(top)
    ensures RequestOrder(n, top) <= top
  {
    if n > 0 {
      RequestOrderFits(n, top);
    }
  }
}
