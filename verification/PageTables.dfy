/** The paging code: every table is read and written through the virtual addresses of the
    recursive slot. A `Trap` stands for a page fault the code does not expect, or for
    running out of frames.
 */
module PageTables {
  import opened PageEntries
  import opened PageWalk
  import opened PageTree
  import opened Traps
  import opened Wrappers

  class Machine {
    var mem: Memory
    const root: nat // the frame in CR3
    var spare: seq<nat> // the frames physical_memory::allocate(1) will return, in order
    var pfaulting: bool
    ghost var owner: Owners

    /** The tables form a tree and the frames still to be handed out are distinct and zero. */
    ghost predicate Valid()
      reads this
    {
      && Tree(mem, root, owner)
      && (forall k :: 0 <= k < |spare| ==> Spare(mem, owner, spare[k]))
      && (forall j, k :: 0 <= j < k < |spare| ==> spare[j] != spare[k])
    }

    constructor (mem: Memory, root: nat, spare: seq<nat>, ghost owner: Owners)
      requires Tree(mem, root, owner)
      requires forall k :: 0 <= k < |spare| ==> Spare(mem, owner, spare[k])
      requires forall j, k :: 0 <= j < k < |spare| ==> spare[j] != spare[k]
      ensures Valid() && this.mem == mem && this.root == root && this.spare == spare && !pfaulting
    {
      this.mem, this.root, this.spare, this.owner := mem, root, spare, owner;
      pfaulting := false;
    }

    // ---- memory accesses through translation ----

    /** Reading element `i` of a table through a virtual address that translates to it. */
    method Load(va: nat, ghost table: Option<nat>, ghost i: nat) returns (r: Option<nat>)
      requires i < 512 && Translate(mem, root, va) == EntryAddress(table, i)
      ensures r == match table case None => None case Some(f) => Some(mem(f, i))
    {
      match Translate(mem, root, va) {
        case None => return None;
        case Some(p) => return Some(mem(p.page, p.offset / 8));
      }
    }

    method Store(va: nat, w: nat, ghost f: nat, ghost i: nat) returns (ok: bool)
      requires i < 512 && Translate(mem, root, va) == Some(Physical(f, 8 * i))
      modifies this`mem
      ensures ok && mem == Write(old(mem), f, i, w)
    {
      match Translate(mem, root, va) {
        case None => return false;
        case Some(p) =>
          mem := Write(mem, p.page, p.offset / 8, w);
          return true;
      }
    }

    // ---- page tables ----

    /** Whether an address has a page table; none of the loads can fault. */
    method CheckPagetable(va: nat) returns (r: Outcome<bool>)
      requires Valid()
      ensures r == Done(HasTable(mem, root, va))
    {
      Windows(mem, root, owner, va);
      FollowSteps(mem, root, va);
      var e := Load(Element(RECURSIVE_PML4T, I4(va)), Some(root), I4(va));
      if e.None? {
        return Trap;
      }
      if !Present(e.value) {
        return Done(false);
      }
      e := Load(Element(PdptAddr(va), I3(va)), Follow(mem, root, [I4(va)]), I3(va));
      if e.None? {
        return Trap;
      }
      if !Present(e.value) {
        return Done(false);
      }
      e := Load(Element(PdirAddr(va), I2(va)), Follow(mem, root, [I4(va), I3(va)]), I2(va));
      if e.None? {
        return Trap;
      }
      return Done(Present(e.value));
    }

    /** Every frame that could become a table and is not in `spare` still can. */
    ghost predicate OtherSparesKept(m: Memory, o: Owners, frames: seq<nat>)
      reads this
    {
      forall g {:trigger Spare(mem, owner, g)} :: Spare(m, o, g) && g !in frames ==> Spare(mem, owner, g)
    }

    /** Storing the entry `e` for the zeroed frame `g` as a new table. */
    method InstallTable(entry: nat, e: nat, ghost g: nat, ghost f: nat, ghost i: nat)
      requires Valid() && Spare(mem, owner, g) && g !in spare && LinksTo(e, g)
      requires owner(f).Some? && |owner(f).value| < 3 && TreeEdge(owner(f).value, i) && !Present(mem(f, i))
      requires Translate(mem, root, entry) == Some(Physical(f, 8 * i))
      modifies this`mem, this`owner
      ensures Valid() && SameLeaves(old(mem), mem, root)
      ensures mem == Write(old(mem), f, i, e) && owner == Assign(old(owner), g, old(owner)(f).value + [i])
      ensures OtherSparesKept(old(mem), old(owner), [g])
      ensures |old(owner)(f).value| < 2 ==> SameTables(old(mem), mem, root)
    {
      if |owner(f).value| < 2 {
        LinkKeepsTables(mem, root, owner, f, i, e, g);
      }
      LinkKeepsTree(mem, root, owner, f, i, e, g);
      LinkKeepsLeaves(mem, root, owner, f, i, e, g);
      ghost var before := mem;
      var ok := Store(entry, e, f, i);
      owner := Assign(owner, g, owner(f).value + [i]);
      forall h | Spare(before, old(owner), h) && h != g ensures Spare(mem, owner, h) {
        assert h != f;
      }
    }

    /** A frame for a new table, and the entry for it: the statements that
        mem_create_pagetable repeats at each level. */
    method AddTable(entry: nat, ghost f: nat, ghost i: nat) returns (ok: bool)
      requires Valid()
      requires owner(f).Some? && |owner(f).value| < 3 && TreeEdge(owner(f).value, i) && !Present(mem(f, i))
      requires Translate(mem, root, entry) == Some(Physical(f, 8 * i))
      modifies this`mem, this`spare, this`owner
      ensures Valid() && SameLeaves(old(mem), mem, root)
      ensures ok <==> old(spare) != []
      ensures !ok ==> mem == old(mem) && spare == old(spare) && owner == old(owner)
      ensures ok ==>
                && mem == Write(old(mem), f, i, Link(old(spare)[0])) && spare == old(spare)[1..]
                && owner == Assign(old(owner), old(spare)[0], old(owner)(f).value + [i])
      ensures OtherSparesKept(old(mem), old(owner), old(spare))
      ensures |old(owner)(f).value| < 2 ==> SameTables(old(mem), mem, root)
      ensures forall g :: g in spare ==> g in old(spare)
    {
      if spare == [] {
        return false;
      }
      var g := spare[0];
      spare := spare[1..];
      LinkEntry(g);
      InstallTable(entry, Link(g), g, f, i);
      ok := true;
    }

    /** One level of mem_create_pagetable. */
    method EnsureTable(entry: nat, ghost f: nat, ghost i: nat) returns (ok: bool)
      requires Valid()
      requires owner(f).Some? && |owner(f).value| < 3 && TreeEdge(owner(f).value, i)
      requires Translate(mem, root, entry) == Some(Physical(f, 8 * i))
      modifies this`mem, this`spare, this`owner
      ensures Valid() && SameLeaves(old(mem), mem, root)
      ensures OtherSparesKept(old(mem), old(owner), old(spare))
      ensures |old(owner)(f).value| < 2 ==> SameTables(old(mem), mem, root)
      ensures forall g :: g in spare ==> g in old(spare)
      ensures |old(spare)| - 1 <= |spare| <= |old(spare)| && (!ok ==> old(spare) == [])
      ensures forall g, j {:trigger mem(g, j)} :: g != f || j != i ==> mem(g, j) == old(mem)(g, j)
      ensures ok ==> Present(mem(f, i)) && owner(Frame(mem(f, i))) == Some(old(owner)(f).value + [i])
      ensures old(owner)(root) == owner(root)
    {
      var e := Load(entry, Some(f), i);
      ok := true;
      if e.None? || !Present(e.value) {
        ok := AddTable(entry, f, i);
        if ok {
          LinkEntry(old(spare)[0]);
        }
      } else {
        assert GoodLink(mem, owner, f, i);
      }
    }

    method EnsurePdpt(va: nat) returns (ok: bool)
      requires Valid() && Ordinary(va)
      modifies this`mem, this`spare, this`owner
      ensures Valid() && SameLeaves(old(mem), mem, root)
      ensures OtherSparesKept(old(mem), old(owner), old(spare))
      ensures SameTables(old(mem), mem, root)
      ensures forall g :: g in spare ==> g in old(spare)
      ensures |old(spare)| - 1 <= |spare| <= |old(spare)| && (!ok ==> old(spare) == [])
      ensures ok ==> Follow(mem, root, [I4(va)]).Some?
    {
      Windows(mem, root, owner, va);
      ok := EnsureTable(Element(RECURSIVE_PML4T, I4(va)), root, I4(va));
      FollowSteps(mem, root, va);
    }

    method EnsurePdir(va: nat) returns (ok: bool)
      requires Valid() && Ordinary(va) && Follow(mem, root, [I4(va)]).Some?
      modifies this`mem, this`spare, this`owner
      ensures Valid() && SameLeaves(old(mem), mem, root)
      ensures OtherSparesKept(old(mem), old(owner), old(spare))
      ensures SameTables(old(mem), mem, root)
      ensures forall g :: g in spare ==> g in old(spare)
      ensures |old(spare)| - 1 <= |spare| <= |old(spare)| && (!ok ==> old(spare) == [])
      ensures ok ==> Follow(mem, root, [I4(va), I3(va)]).Some?
    {
      Windows(mem, root, owner, va);
      ghost var pdpt := Follow(mem, root, [I4(va)]).value;
      FollowFromRoot(mem, root, owner, [I4(va)]);
      FollowSteps(mem, root, va);
      ok := EnsureTable(Element(PdptAddr(va), I3(va)), pdpt, I3(va));
      FollowSteps(mem, root, va);
    }

    method EnsurePtbl(va: nat) returns (ok: bool)
      requires Valid() && Ordinary(va) && Follow(mem, root, [I4(va), I3(va)]).Some?
      modifies this`mem, this`spare, this`owner
      ensures Valid() && SameLeaves(old(mem), mem, root)
      ensures |old(spare)| - 1 <= |spare| <= |old(spare)| && (!ok ==> old(spare) == [])
      ensures ok ==> HasTable(mem, root, va)
    {
      Windows(mem, root, owner, va);
      ghost var pdir := Follow(mem, root, [I4(va), I3(va)]).value;
      FollowFromRoot(mem, root, owner, [I4(va), I3(va)]);
      FollowSteps(mem, root, va);
      if Follow(mem, root, [I4(va)]).Some? {
        FollowFromRoot(mem, root, owner, [I4(va)]);
      }
      ok := EnsureTable(Element(PdirAddr(va), I2(va)), pdir, I2(va));
      FollowSteps(mem, root, va);
    }

    method CreatePagetable(va: nat) returns (ok: bool)
      requires Valid() && Ordinary(va)
      modifies this`mem, this`spare, this`owner
      ensures Valid() && SameLeaves(old(mem), mem, root)
      ensures |old(spare)| - 3 <= |spare| <= |old(spare)| && (!ok ==> |old(spare)| < 3)
      ensures ok ==> HasTable(mem, root, va)
    {
      ok := EnsurePdpt(va);
      if ok {
        ok := EnsurePdir(va);
      }
      if ok {
        ok := EnsurePtbl(va);
      }
    }

    // ---- single entries ----

    method ReadLeaf(va: nat) returns (e: nat)
      requires Valid()
      ensures e == Leaf(mem, root, va)
    {
      var present := CheckPagetable(va);
      if present != Done(true) {
        return 0;
      }
      Windows(mem, root, owner, va);
      var word := Load(Element(PtblAddr(va), I1(va)), Follow(mem, root, TablePath(va)), I1(va));
      return if word.Some? then word.value else 0;
    }

    method GetMmuEntry(va: nat) returns (entry: PageEntry)
      requires Valid()
      ensures entry == Decode(Leaf(mem, root, va))
      ensures Carries(Leaf(mem, root, va), entry.flags) && entry.address == Leaf(mem, root, va) / 0x1000 * 0x1000
    {
      var e := ReadLeaf(va);
      DecodedFlags(e);
      return Decode(e);
    }

    method GetPhysicalAddress(va: nat) returns (pa: nat)
      requires Valid()
      ensures pa == PageBase(Leaf(mem, root, va))
    {
      var e := ReadLeaf(va);
      return PageBase(e);
    }

    method GetFlags(va: nat) returns (flags: nat)
      requires Valid()
      ensures flags == Leaf(mem, root, va) % 0x1000
    {
      var e := ReadLeaf(va);
      return e % 0x1000;
    }

    // ---- demand creation of page tables ----

    /** handle_pagefault for the access to a page-table entry where there is no page table. The
        faulting address lies in the recursive slot, so the handler's own tables are those of
        `va` one level up: it creates the missing upper tables, and the page it maps is the
        page table. It needs at most three frames and cannot fault itself. */
    method HandleTableFault(va: nat) returns (r: Outcome<()>)
      requires Valid() && Ordinary(va) && !HasTable(mem, root, va)
      modifies this
      ensures Valid() && SameLeaves(old(mem), mem, root)
      ensures !old(pfaulting) && |old(spare)| >= 3 ==> r.Done?
      ensures r.Done? ==> HasTable(mem, root, va) && pfaulting == old(pfaulting) == false
    {
      ghost var f := Element(PtblAddr(va), I1(va));
      ShiftedWindows(va);
      if pfaulting {
        return Trap;
      }
      assert f >= 0x1000;
      pfaulting := true;
      if spare == [] {
        return Trap;
      }
      var newPage := spare[0];
      spare := spare[1..];
      FramePage(newPage);
      var ok := EnsureUpperTables(va, newPage);
      if !ok {
        return Trap;
      }
      InstallPagetable(va, newPage);
      pfaulting := false;
      return Done(());
    }

    /** mem_check_pagetable and mem_create_pagetable for the faulting address: their addresses are
        those of the entries of `va` one level up, and entry 510 of the root is present. */
    method EnsureUpperTables(va: nat, ghost newPage: nat) returns (ok: bool)
      requires Valid() && Ordinary(va) && !HasTable(mem, root, va)
      requires Spare(mem, owner, newPage) && newPage !in spare
      modifies this`mem, this`spare, this`owner
      ensures Valid() && SameLeaves(old(mem), mem, root) && !HasTable(mem, root, va)
      ensures Spare(mem, owner, newPage) && newPage !in spare
      ensures !ok ==> |old(spare)| < 2
      ensures ok ==> Follow(mem, root, [I4(va), I3(va)]).Some?
    {
      ok := EnsurePdpt(va);
      if ok {
        ok := EnsurePdir(va);
      }
    }

    /** The store with which the handler maps the faulting page. */
    method InstallPagetable(va: nat, newPage: nat)
      requires Valid() && Ordinary(va) && !HasTable(mem, root, va)
      requires Follow(mem, root, [I4(va), I3(va)]).Some?
      requires Spare(mem, owner, newPage) && newPage !in spare
      modifies this`mem, this`owner
      ensures Valid() && SameLeaves(old(mem), mem, root) && HasTable(mem, root, va)
    {
      ghost var pdir := DirectoryEntry(mem, root, owner, va);
      RootEntry(newPage);
      FramePage(newPage);
      TableLinked(mem, root, owner, va, newPage + 1, newPage);
      InstallTable(Element(PdirAddr(va), I2(va)), PageBase(newPage) + 1, newPage, pdir, I2(va));
    }

    /** An access to the page-table entry of an address: where there is no page table it faults,
        and is made again once the handler is back. */
    method Reach(va: nat) returns (r: Outcome<()>)
      requires Valid() && Ordinary(va)
      modifies this
      ensures Valid() && SameLeaves(old(mem), mem, root)
      ensures HasTable(old(mem), root, va) ==> r.Done? && mem == old(mem)
      ensures !HasTable(old(mem), root, va) && !old(pfaulting) && |old(spare)| >= 3 ==> r.Done?
      ensures r.Done? ==> HasTable(mem, root, va) && pfaulting == old(pfaulting)
    {
      Windows(mem, root, owner, va);
      if Translate(mem, root, Element(PtblAddr(va), I1(va))).None? {
        r := HandleTableFault(va);
      } else {
        r := Done(());
      }
    }

    /** Overwriting an entry where there is a page table. */
    method SetLeaf(va: nat, e: nat) returns (ok: bool)
      requires Valid() && Ordinary(va)
      modifies this`mem
      ensures Valid()
      ensures ok <==> HasTable(old(mem), root, va)
      ensures !ok ==> mem == old(mem)
      ensures SameTables(old(mem), mem, root)
      ensures ok ==> forall w: nat {:trigger Leaf(mem, root, w)} :: Ordinary(w) ==>
                Leaf(mem, root, w) == if SamePage(va, w) then e else Leaf(old(mem), root, w)
    {
      var present := CheckPagetable(va);
      ok := present == Done(true);
      if ok {
        WriteLeaf(va, e);
      }
    }

    /** An entry that the setters change: they make the check and ignore its answer. */
    ghost predicate Replaced(m: Memory, va: nat, done: bool)
      reads this
    {
      forall w: nat {:trigger Leaf(mem, root, w)} :: Ordinary(w) && !(done && SamePage(va, w)) ==>
        Leaf(mem, root, w) == Leaf(m, root, w)
    }

    /** Whether a setter gets to its entry: at once, or through the page-fault handler. */
    ghost predicate Reachable(va: nat)
      reads this
    {
      HasTable(mem, root, va) || (!pfaulting && |spare| >= 3)
    }

    method SetMmuEntry(va: nat, entry: PageEntry) returns (r: Outcome<()>)
      requires Valid() && Ordinary(va)
      modifies this
      ensures Valid() && Replaced(old(mem), va, r.Done?)
      ensures old(Reachable(va)) ==> r.Done?
      ensures r.Done? ==> Leaf(mem, root, va) == Encode(entry) && Carries(Leaf(mem, root, va), entry.flags)
    {
      EncodedEntry(entry);
      r := Reach(va);
      if r.Done? {
        WriteLeaf(va, Encode(entry));
      }
    }

    /** The page changes, the flags stay. */
    method SetPhysicalAddress(va: nat, pa: nat) returns (r: Outcome<()>)
      requires Valid() && Ordinary(va)
      modifies this
      ensures Valid() && Replaced(old(mem), va, r.Done?)
      ensures old(Reachable(va)) ==> r.Done?
      ensures r.Done? ==>
                && PageBase(Leaf(mem, root, va)) == PageBase(pa)
                && Leaf(mem, root, va) % 0x1000 == Leaf(old(mem), root, va) % 0x1000
    {
      r := Reach(va);
      if r.Done? {
        var e := ReadLeaf(va);
        Join(pa, e);
        WriteLeaf(va, PageBase(pa) + e % 0x1000);
      }
    }

    /** The flags change, the page stays. */
    method SetFlags(va: nat, flags: nat) returns (r: Outcome<()>)
      requires Valid() && Ordinary(va)
      modifies this
      ensures Valid() && Replaced(old(mem), va, r.Done?)
      ensures old(Reachable(va)) ==> r.Done?
      ensures r.Done? ==>
                && PageBase(Leaf(mem, root, va)) == PageBase(Leaf(old(mem), root, va))
                && Leaf(mem, root, va) % 0x1000 == flags % 0x1000
    {
      r := Reach(va);
      if r.Done? {
        var e := ReadLeaf(va);
        Join(e, flags);
        WriteLeaf(va, PageBase(e) + flags % 0x1000);
      }
    }

    // ---- mapping ----

    /** Writing the page-table entry of an address that has a page table. */
    method WriteLeaf(va: nat, e: nat)
      requires Valid() && Ordinary(va) && HasTable(mem, root, va)
      modifies this`mem
      ensures Valid()
      ensures forall w: nat {:trigger Leaf(mem, root, w)} :: Ordinary(w) ==>
                Leaf(mem, root, w) == if SamePage(va, w) then e else Leaf(old(mem), root, w)
      ensures SameTables(old(mem), mem, root)
    {
      Windows(mem, root, owner, va);
      LeafAfterWrite(mem, root, owner, va, e);
      ghost var t := Follow(mem, root, TablePath(va)).value;
      ghost var before := mem;
      var ok := Store(Element(PtblAddr(va), I1(va)), e, t, I1(va));
      forall k | 0 <= k < |spare| ensures Spare(mem, owner, spare[k]) {
        assert Spare(before, owner, spare[k]);
      }
    }

    /** One page of a mapping, with its page table created where missing. */
    method MapPage(va: nat, e: nat) returns (ok: bool)
      requires Valid() && Ordinary(va)
      modifies this`mem, this`spare, this`owner
      ensures Valid()
      ensures |old(spare)| - 3 <= |spare| && (!ok ==> |old(spare)| < 3)
      ensures !ok ==> SameLeaves(old(mem), mem, root)
      ensures ok ==> forall w: nat {:trigger Leaf(mem, root, w)} :: Ordinary(w) ==>
                Leaf(mem, root, w) == if SamePage(va, w) then e else Leaf(old(mem), root, w)
    {
      ok := true;
      var present := CheckPagetable(va);
      if present == Done(false) {
        ok := CreatePagetable(va);
      }
      if ok {
        WriteLeaf(va, e);
      }
    }

    /** `vaddr += 0x1000` and `paddr += 0x1000` */
    method NextPage(a: nat, ghost start: nat, ghost k: nat) returns (b: nat)
      requires a == PageAt(start, k)
      ensures b == PageAt(start, k + 1) == FrameAt(start, k + 1)
    {
      PageAtNext(start, k);
      b := (a + 0x1000) % ADDRESSES;
    }

    /** map_range. `mapped` counts the pages done; it falls short of `n` only when the frames run out. */
    method MapRange(va: nat, pa: nat, n: nat, flags: PageFlags) returns (mapped: nat)
      requires Valid() && va < ADDRESSES && pa < ADDRESSES && n < 0x1_0000_0000
      requires forall k: nat {:trigger PageAt(va, k)} :: k < n ==> Ordinary(PageAt(va, k))
      modifies this`mem, this`spare, this`owner
      ensures Valid() && mapped <= n
      ensures RangeMapped(old(mem), mem, root, va, pa, mapped, flags)
      ensures forall k: nat {:trigger PageAt(va, k)} :: k < mapped ==> Carries(Leaf(mem, root, PageAt(va, k)), flags)
      ensures 3 * n <= |old(spare)| ==> mapped == n
    {
      mapped := 0;
      var vaddr, paddr := va, pa;
      RangeStart(va, pa);
      while mapped < n
        invariant Valid() && mapped <= n
        invariant vaddr == PageAt(va, mapped) && paddr == FrameAt(pa, mapped)
        invariant RangeMapped(old(mem), mem, root, va, pa, mapped, flags)
        invariant |spare| >= |old(spare)| - 3 * mapped
        decreases n - mapped
      {
        ghost var before := mem;
        var ok := MapPage(vaddr, LeafEntry(paddr, flags));
        if !ok {
          RangeMappedSame(old(mem), before, mem, root, va, pa, mapped, flags);
          break;
        }
        RangeMappedNext(old(mem), before, mem, root, va, pa, mapped, flags);
        vaddr := NextPage(vaddr, va, mapped);
        paddr := NextPage(paddr, pa, mapped);
        mapped := mapped + 1;
      }
      RangeFlags(old(mem), mem, root, va, pa, mapped, flags);
    }

    /** unmap_range. A page without a page table is not stepped over. */
    method UnmapRange(va: nat, n: nat)
      requires Valid() && va < ADDRESSES && n < 0x1_0000_0000
      requires forall k: nat {:trigger PageAt(va, k)} :: k < n ==> Ordinary(PageAt(va, k))
      modifies this`mem
      ensures Valid()
      ensures RangeCleared(old(mem), mem, root, va, FirstMissing(old(mem), root, va, n))
    {
      var vaddr := va;
      RangeStart(va, va);
      var i := 0;
      ghost var j := 0;
      ghost var missing := FirstMissing(mem, root, va, n);
      while i < n
        invariant Valid() && i <= n
        invariant j == (if i < missing then i else missing) && vaddr == PageAt(va, j)
        invariant RangeCleared(old(mem), mem, root, va, j)
        invariant SameTables(old(mem), mem, root)
      {
        i := i + 1;
        ghost var before := mem;
        assert HasTable(before, root, vaddr) == HasTable(old(mem), root, vaddr);
        var cleared := SetLeaf(vaddr, 0);
        if cleared {
          RangeClearedNext(old(mem), before, mem, root, va, j);
          vaddr := NextPage(vaddr, va, j);
          j := j + 1;
        }
      }
    }

    /** handle_pagefault. The two cases in which the source halts, and running out of frames, are traps. */
    method HandlePagefault(faultAddr: nat) returns (r: Outcome<()>)
      requires Valid() && Ordinary(faultAddr)
      modifies this
      ensures Valid()
      ensures old(pfaulting) || faultAddr < 0x1000 ==> r == Trap && mem == old(mem)
      ensures !old(pfaulting) && faultAddr >= 0x1000 && |old(spare)| >= 4 ==> r.Done?
      ensures r.Done? ==>
                && !pfaulting && old(spare) != []
                && forall w: nat {:trigger Leaf(mem, root, w)} :: Ordinary(w) ==>
                     Leaf(mem, root, w) == if SamePage(faultAddr, w) then old(spare)[0] + 1 else Leaf(old(mem), root, w)
    {
      if pfaulting {
        return Trap;
      }
      if faultAddr < 0x1000 {
        return Trap;
      }
      pfaulting := true;
      if spare == [] {
        return Trap;
      }
      var newPage := spare[0];
      FramePage(newPage);
      spare := spare[1..];
      var ok := MapPage(faultAddr, PageBase(newPage) + 1);
      if !ok {
        return Trap;
      }
      pfaulting := false;
      return Done(());
    }
  }

  /** The recursive-slot addresses of an address's tables, for each level of the tree. */
  lemma Windows(m: Memory, root: nat, owner: Owners, va: nat)
    requires Tree(m, root, owner)
    ensures Translate(m, root, Element(RECURSIVE_PML4T, I4(va))) == EntryAddress(Some(root), I4(va))
    ensures Translate(m, root, Element(PdptAddr(va), I3(va))) == EntryAddress(Follow(m, root, [I4(va)]), I3(va))
    ensures Translate(m, root, Element(PdirAddr(va), I2(va))) == EntryAddress(Follow(m, root, [I4(va), I3(va)]), I2(va))
    ensures Translate(m, root, Element(PtblAddr(va), I1(va))) == EntryAddress(Follow(m, root, TablePath(va)), I1(va))
  {
    NoLargeUpper(m, root, owner, I4(va), I3(va));
    RootWindow(m, root, I4(va));
    PdptWindow(m, root, va, I3(va));
    PdirWindow(m, root, va, I2(va));
    PtblWindow(m, root, va, I1(va));
  }

  /** The page-directory entry of an address, and the window onto it. */
  lemma DirectoryEntry(m: Memory, root: nat, owner: Owners, va: nat) returns (d: nat)
    requires Tree(m, root, owner) && Ordinary(va) && Follow(m, root, [I4(va), I3(va)]).Some?
    ensures d == Follow(m, root, [I4(va), I3(va)]).value && owner(d) == Some([I4(va), I3(va)])
    ensures I2(va) < 512 && TreeEdge(owner(d).value, I2(va))
    ensures Translate(m, root, Element(PdirAddr(va), I2(va))) == Some(Physical(d, 8 * I2(va)))
    ensures HasTable(m, root, va) <==> Present(m(d, I2(va)))
  {
    d := Follow(m, root, [I4(va), I3(va)]).value;
    FollowFromRoot(m, root, owner, [I4(va), I3(va)]);
    FollowSteps(m, root, va);
    NoLargeUpper(m, root, owner, I4(va), I3(va));
    PdirWindow(m, root, va, I2(va));
  }

  /** Linking a page table in its directory. */
  lemma TableLinked(m: Memory, root: nat, owner: Owners, va: nat, e: nat, g: nat)
    requires Tree(m, root, owner) && Ordinary(va) && Spare(m, owner, g) && LinksTo(e, g)
    requires Follow(m, root, [I4(va), I3(va)]).Some? && !HasTable(m, root, va)
    ensures var d := Follow(m, root, [I4(va), I3(va)]).value;
            HasTable(Write(m, d, I2(va), e), root, va)
  {
    var d := Follow(m, root, [I4(va), I3(va)]).value;
    var n := Write(m, d, I2(va), e);
    FollowFromRoot(m, root, owner, [I4(va), I3(va)]);
    FollowSteps(m, root, va);
    FollowAfterLink(m, root, owner, d, I2(va), e, g, root, [I4(va), I3(va)]);
    FollowSteps(n, root, va);
  }

  lemma FollowSteps(m: Memory, root: nat, va: nat)
    ensures Follow(m, root, [I4(va)]) == if Present(m(root, I4(va))) then Some(Frame(m(root, I4(va)))) else None
    ensures Follow(m, root, [I4(va), I3(va)])
         == if Present(m(root, I4(va))) then Follow(m, Frame(m(root, I4(va))), [I3(va)]) else None
    ensures Follow(m, root, TablePath(va))
         == match Follow(m, root, [I4(va), I3(va)])
            case None => None
            case Some(d) => if Present(m(d, I2(va))) then Some(Frame(m(d, I2(va)))) else None
    ensures Follow(m, root, [I4(va), I3(va)])
         == match Follow(m, root, [I4(va)])
            case None => None
            case Some(d) => if Present(m(d, I3(va))) then Some(Frame(m(d, I3(va)))) else None
  {
    var d := Frame(m(root, I4(va)));
    Follow1(m, root, I4(va));
    Follow2(m, root, I4(va), I3(va));
    Follow1(m, d, I3(va));
    Follow3(m, root, I4(va), I3(va), I2(va));
    Follow2(m, d, I3(va), I2(va));
    Follow1(m, Frame(m(d, I3(va))), I2(va));
  }

  /** The page of one word with the low bits of another. */
  lemma Join(a: nat, b: nat)
    ensures PageBase(PageBase(a) + b % 0x1000) == PageBase(a)
    ensures (PageBase(a) + b % 0x1000) % 0x1000 == b % 0x1000
  {
  }

  lemma RangeStart(va: nat, pa: nat)
    requires va < ADDRESSES && pa < ADDRESSES
    ensures PageAt(va, 0) == va && FrameAt(pa, 0) == pa
  {
  }

  lemma PageAtNext(va: nat, k: nat)
    ensures PageAt(va, k + 1) == (PageAt(va, k) + 0x1000) % ADDRESSES
    ensures FrameAt(va, k + 1) == (FrameAt(va, k) + 0x1000) % ADDRESSES
  {
  }
}
