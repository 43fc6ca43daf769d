/** A page of chunks as the source keeps it: header fields and bitmap updated in place. */
module ChunkPages {
  import opened Bits
  import opened Chunks

  datatype Outcome<+T> = Done(value: T) | UndefinedShift | PageFull

  /** The counter counts the live chunks, as the invariant says. */
  ghost predicate Counted(p: Page) {
    p.nAllocations == |p.live|
  }

  /** The fullness test in terms of the live chunks: one more would make as many as there are slots. */
  ghost predicate Refuses(p: Page) {
    |p.live| + 1 >= Slots(p.order)
  }

  class ChunkPage {
    const start: nat // address of the page
    const bitmap: array<bool> // the four 64-bit words, bit by bit
    var order: Order
    var nAllocations: nat
    ghost var live: set<nat>

    ghost predicate Valid()
      reads this
    {
      bitmap.Length == 256 && start % 4096 == 0
    }

    ghost function State(): Page
      requires Valid()
      reads this, bitmap
    {
      Page(order, bitmap[..], nAllocations, live)
    }

    /** A page as it comes: nothing in it has been cleared. */
    constructor (start: nat, content: Bitmap)
      requires start % 4096 == 0
      ensures Valid() && this.start == start && State().bits == content && fresh(bitmap)
    {
      this.start := start;
      bitmap := new bool[256](i requires 0 <= i < 256 => content[i]);
      order, nAllocations, live := 0, 0, {};
      new;
      assert bitmap[..] == content;
    }

    /** malloc_prepare_pghdr */
    method PrepareHeader(newOrder: Order)
      requires Valid()
      modifies this, bitmap
      ensures Valid() && State() == Prepare(old(State()).bits, newOrder)
    {
      bitmap[0] := true;
      if newOrder <= 1 {
        bitmap[1] := true;
      }
      if newOrder == 0 {
        bitmap[2] := true;
      }
      order, nAllocations, live := newOrder, 0, {};
      ghost var expected := Prepare(old(State()).bits, newOrder).bits;
      assert forall k :: 0 <= k < 256 ==> bitmap[k] == expected[k];
      assert bitmap[..] == expected;
    }

    /** Whether every bit under the mask of a slot is clear. */
    method TestMask(slot: nat, reading: Reading) returns (clear: bool)
      requires Valid() && slot < 256
      ensures clear == Clear(bitmap[..], slot, reading)
    {
      var k := slot;
      while k < MaskEnd(slot, reading)
        invariant slot <= k <= MaskEnd(slot, reading)
        invariant forall j :: slot <= j < k ==> !bitmap[j]
      {
        if bitmap[k] {
          return false;
        }
        k := k + 1;
      }
      return true;
    }

    /** Setting or clearing the bits under the mask of a slot. */
    method WriteMask(slot: nat, reading: Reading, value: bool)
      requires Valid() && slot < 256
      modifies bitmap
      ensures bitmap[..] == Assign(old(bitmap[..]), slot, reading, value)
    {
      var k := slot;
      while k < MaskEnd(slot, reading)
        invariant slot <= k <= MaskEnd(slot, reading)
        invariant forall j :: 0 <= j < 256 ==> bitmap[j] == if slot <= j < k then value else old(bitmap[j])
      {
        bitmap[k] := value;
        k := k + 1;
      }
    }

    /** malloc_mark_open_slot; zero when no slot is open. */
    method MarkOpenSlot(reading: Reading) returns (r: Outcome<nat>)
      requires Valid()
      modifies bitmap
      ensures match MarkFrom(old(bitmap[..]), order, reading, 0)
              case Slot(s, bits) => r == Done(s) && bitmap[..] == bits
              case NoneOpen => r == Done(0) && bitmap[..] == old(bitmap[..])
              case Undefined => r == UndefinedShift && bitmap[..] == old(bitmap[..])
      ensures r != PageFull
    {
      var i := 0;
      var n := Slots(order);
      while i < n
        invariant i <= n && bitmap[..] == old(bitmap[..])
        invariant MarkFrom(old(bitmap[..]), order, reading, 0) == MarkFrom(old(bitmap[..]), order, reading, i)
      {
        if !Defined(i, reading) {
          return UndefinedShift;
        }
        var clear := TestMask(i, reading);
        if clear {
          WriteMask(i, reading, true);
          return Done(i);
        }
        i := i + 1;
      }
      return Done(0);
    }

    /** The fullness test. */
    method HasRoom(ghost p: Page) returns (room: bool)
      requires Valid() && State() == p && Counted(p)
      ensures room <==> !Refuses(p)
    {
      room := nAllocations < Slots(order) - 1;
    }

    /** kmalloc, for one page of the right order: the address of a chunk, unless the page
        counts as full and kmalloc goes on to the next. */
    method AllocateChunk(reading: Reading) returns (r: Outcome<nat>)
      requires Valid()
      modifies this, bitmap
      ensures Valid()
      ensures match Allocate(old(State()), reading)
              case Full => r == PageFull && State() == old(State())
              case Chunk(s, p) => r == Done(start + Offset(s, order)) && State() == p
              case Stuck => r == UndefinedShift
    {
      if nAllocations >= Slots(order) - 1 {
        return PageFull;
      }
      nAllocations := nAllocations + 1;
      var slot := MarkOpenSlot(reading);
      if slot.Done? {
        live := live + {slot.value};
        return Done(start + Offset(slot.value, order));
      }
      return UndefinedShift;
    }

    /** kfree of the chunk in a slot. The page's own bits of the address do not matter: only
        the lowest ten count. */
    method FreeChunk(address: nat, reading: Reading, ghost slot: nat) returns (ok: bool)
      requires Valid() && address == start + Offset(slot, order)
      modifies this, bitmap
      ensures Valid()
      ensures match Free(old(State()), slot, reading)
              case Freed(p) => ok && State() == p
              case Unspecified => !ok && State() == old(State())
    {
      SameLowBits(start, Offset(slot, order));
      FreedSlotBound(address, order);
      var s := address % 1024 / ChunkSize(order);
      if !Defined(s, reading) {
        return false;
      }
      WriteMask(s, reading, false);
      nAllocations := (nAllocations + 0xFFFF) % 0x1_0000;
      live := live - {slot};
      return true;
    }
  }

  /** malloc_page: an entry of the list of pages of one order. */
  class Descriptor {
    const page: ChunkPage
    var next: Descriptor?

    constructor (page: ChunkPage, next: Descriptor?)
      ensures this.page == page && this.next == next
    {
      this.page, this.next := page, next;
    }
  }

  function At(c: seq<Descriptor>, i: nat): Descriptor? {
    if i < |c| then c[i] else null
  }

  /** The list that starts at `head` has the pages `ps`. */
  ghost predicate Pages(head: Descriptor?, c: seq<Descriptor>, ps: seq<Page>)
    reads c, set d | d in c :: d.page, set d | d in c :: d.page.bitmap
  {
    && |c| == |ps| && head == At(c, 0)
    && (forall i :: 0 <= i < |c| ==> c[i].next == At(c, i + 1))
    && (forall i :: 0 <= i < |c| ==> c[i].page.Valid() && c[i].page.State() == ps[i])
  }

  /** kmalloc's walk along the pages of an order: the first with fewer than all but one of its chunks
      live, or null when there is none. */
  method ChoosePage(head: Descriptor?, ghost c: seq<Descriptor>, ghost ps: seq<Page>) returns (chosen: Descriptor?)
    requires Pages(head, c, ps) && forall j :: 0 <= j < |ps| ==> Counted(ps[j])
    ensures chosen == null <==> forall j :: 0 <= j < |ps| ==> Refuses(ps[j])
    ensures chosen != null ==>
              exists i :: 0 <= i < |c| && chosen == c[i] && !Refuses(ps[i]) && forall j :: 0 <= j < i ==> Refuses(ps[j])
  {
    chosen := head;
    ghost var i := 0;
    while chosen != null
      invariant i <= |c| && chosen == At(c, i)
      invariant forall j :: 0 <= j < i ==> Refuses(ps[j])
      decreases |c| - i
    {
      var room := chosen.page.HasRoom(ps[i]);
      if room {
        return;
      }
      assert Refuses(ps[i]);
      chosen := chosen.next;
      i := i + 1;
    }
  }

  lemma SameLowBits(base: nat, offset: nat)
    requires base % 4096 == 0
    ensures (base + offset) % 1024 == offset % 1024
  {
    var k := base / 4096;
    assert base == 1024 * (4 * k);
  }

  /** The order loop of kmalloc. */
  method OrderOf(bytes: nat) returns (order: nat)
    requires bytes <= 1024
    ensures order == RequestOrder(bytes)
  {
    var log, tmp := 0, bytes;
    while tmp / 2 > 0
      invariant FloorLog2(bytes) == log + FloorLog2(tmp)
    {
      tmp := tmp / 2;
      log := log + 1;
    }
    if log < 4 {
      log := 4;
    }
    return log - 4;
  }
}
