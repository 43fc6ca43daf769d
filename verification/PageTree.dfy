/** The page tables as a tree: which frame holds which table, and how writing one entry
    changes the walks of all addresses.
 */
module PageTree {
  import Bits
  import opened PageEntries
  import opened PageWalk
  import opened Wrappers

  /** A table is named by the indices that lead to it from the root. */
  type Path = seq<nat>

  /** For every frame used as a table, the table it holds. */
  type Owners = nat -> Option<Path>

  function Assign(owner: Owners, g: nat, path: Path): Owners {
    (x: nat) => if x == g then Some(path) else owner(x)
  }

  predicate IsFrame(f: nat) { Frame(f) == f }

  /** The recursive entry is not an edge of the tree. */
  predicate TreeEdge(path: Path, i: nat) {
    i < 512 && (path == [] ==> i != RECURSIVE_SLOT)
  }

  ghost predicate GoodLink(m: Memory, owner: Owners, f: nat, i: nat)
    requires owner(f).Some?
  {
    Present(m(f, i)) ==> !Large(m(f, i)) && owner(Frame(m(f, i))) == Some(owner(f).value + [i])
  }

  /** Apart from the recursive slot the tables form a tree: each table frame holds one table
      only, reached by one path. */
  ghost predicate Tree(m: Memory, root: nat, owner: Owners) {
    && SelfMapped(m, root)
    && owner(root) == Some([])
    && (forall f :: owner(f).Some? ==> IsFrame(f) && |owner(f).value| <= 3 && (owner(f).value == [] ==> f == root))
    && (forall f, i {:trigger GoodLink(m, owner, f, i)} ::
          owner(f).Some? && |owner(f).value| < 3 && TreeEdge(owner(f).value, i) ==> GoodLink(m, owner, f, i))
  }

  ghost predicate Zeroed(m: Memory, g: nat) {
    forall i {:trigger m(g, i)} :: m(g, i) == 0
  }

  /** A frame that may become a table: page-aligned, holding no table yet, all zero. */
  ghost predicate Spare(m: Memory, owner: Owners, g: nat) {
    IsFrame(g) && owner(g).None? && Zeroed(m, g)
  }

  /** The fields of a word made of a page number and twelve low bits. */
  lemma WordParts(k: nat, low: nat)
    requires low < 0x1000
    ensures var w := k * 0x1000 + low;
            && (Present(w) <==> low % 2 == 1) && (Large(w) <==> low / 0x80 % 2 == 1)
            && w / 0x1000 == k && w % 0x1000 == low
            && (k < 0x100_0000_0000 ==> Frame(w) == k * 0x1000)
  {
    var w := k * 0x1000 + low;
    var q := low / 0x80;
    Bits.QuotientIs(w, 0x1000, k);
    Bits.QuotientIs(w, 2, k * 0x800 + low / 2);
    Bits.QuotientIs(w, 0x80, k * 32 + q);
    Bits.QuotientIs(k * 32 + q, 2, k * 16 + q / 2);
  }

  lemma FrameNumber(f: nat) returns (k: nat)
    requires IsFrame(f)
    ensures k < 0x100_0000_0000 && f == k * 0x1000
  {
    k := f / 0x1000 % 0x100_0000_0000;
  }

  lemma FramePage(f: nat)
    requires IsFrame(f)
    ensures PageBase(f) == f
  {
    var k := FrameNumber(f);
    PageOf(k, 0);
  }

  lemma RootEntry(root: nat)
    requires IsFrame(root)
    ensures LinksTo(root + 1, root) && !Present(0)
  {
    var k := FrameNumber(root);
    WordParts(k, 1);
  }

  /** The smallest tree: a root table with nothing but its recursive entry. */
  lemma EmptyTree(root: nat) returns (m: Memory, owner: Owners)
    requires IsFrame(root)
    ensures Tree(m, root, owner)
    ensures forall g: nat :: IsFrame(g) && g != root ==> Spare(m, owner, g)
  {
    m := (f: nat, i: nat) => if f == root && i == RECURSIVE_SLOT then root + 1 else 0;
    owner := (f: nat) => if f == root then Some([]) else None;
    RootEntry(root);
    forall f, i | owner(f).Some? && |owner(f).value| < 3 && TreeEdge(owner(f).value, i) ensures GoodLink(m, owner, f, i) {
      assert m(f, i) == 0;
    }
  }

  /** Paths from a table of the tree that stay inside it. */
  ghost predicate Inside(p: Path, path: Path) {
    && |p| + |path| <= 3
    && (forall k :: 0 <= k < |path| ==> path[k] < 512)
    && (p == [] && path != [] ==> path[0] != RECURSIVE_SLOT)
  }

  /** The frame a walk inside the tree reaches holds the table the path names. */
  lemma {:induction false} FollowInTree(m: Memory, root: nat, owner: Owners, f: nat, path: Path)
    requires Tree(m, root, owner) && owner(f).Some? && Inside(owner(f).value, path)
    requires Follow(m, f, path).Some?
    ensures owner(Follow(m, f, path).value) == Some(owner(f).value + path)
    decreases |path|
  {
    if path != [] {
      assert GoodLink(m, owner, f, path[0]);
      assert owner(f).value + path == owner(f).value + [path[0]] + path[1..];
      FollowInTree(m, root, owner, Frame(m(f, path[0])), path[1..]);
    } else {
      assert owner(f).value + path == owner(f).value;
    }
  }

  lemma FollowFromRoot(m: Memory, root: nat, owner: Owners, path: Path)
    requires Tree(m, root, owner) && Inside([], path)
    requires Follow(m, root, path).Some?
    ensures owner(Follow(m, root, path).value) == Some(path)
  {
    FollowInTree(m, root, owner, root, path);
    assert [] + path == path;
  }

  // ---- addresses ----

  function TablePath(va: nat): Path {
    [I4(va), I3(va), I2(va)]
  }

  /** Addresses outside the recursive slot. */
  predicate Ordinary(va: nat) {
    I4(va) != RECURSIVE_SLOT
  }

  predicate SamePage(v: nat, w: nat) {
    TablePath(v) == TablePath(w) && I1(v) == I1(w)
  }

  predicate HasTable(m: Memory, root: nat, va: nat) {
    Follow(m, root, TablePath(va)).Some?
  }

  /** The same ordinary addresses have page tables in both memories. */
  ghost predicate SameTables(m: Memory, n: Memory, root: nat) {
    forall w {:trigger HasTable(n, root, w)} :: Ordinary(w) ==> HasTable(n, root, w) == HasTable(m, root, w)
  }

  /** The page-table entry of an address; zero where there is no page table. */
  function Leaf(m: Memory, root: nat, va: nat): nat {
    match Follow(m, root, TablePath(va))
    case None => 0
    case Some(t) => m(t, I1(va))
  }

  /** Every page-table entry of an ordinary address is the same in both memories. */
  ghost predicate SameLeaves(m: Memory, n: Memory, root: nat) {
    forall w {:trigger Leaf(n, root, w)} :: Ordinary(w) ==> Leaf(n, root, w) == Leaf(m, root, w)
  }

  /** No entry at the first two levels of any walk is a large page. */
  lemma NoLargeUpper(m: Memory, root: nat, owner: Owners, a: nat, b: nat)
    requires Tree(m, root, owner) && a < 512 && b < 512
    ensures NotLarge(m, root, a)
    ensures Present(m(root, a)) ==> NotLarge(m, Frame(m(root, a)), b)
  {
    assert a != RECURSIVE_SLOT ==> GoodLink(m, owner, root, a);
    assert b != RECURSIVE_SLOT ==> GoodLink(m, owner, root, b);
    if a != RECURSIVE_SLOT && Present(m(root, a)) {
      assert GoodLink(m, owner, Frame(m(root, a)), b);
    }
  }

  /** None of the entries on the way to an ordinary address's page table is a large page. */
  lemma NoLargeEntries(m: Memory, root: nat, owner: Owners, va: nat)
    requires Tree(m, root, owner) && Ordinary(va)
    ensures NotLarge(m, root, I4(va))
    ensures Present(m(root, I4(va))) ==>
              var d := Frame(m(root, I4(va)));
              NotLarge(m, d, I3(va)) && (Present(m(d, I3(va))) ==> NotLarge(m, Frame(m(d, I3(va))), I2(va)))
  {
    assert GoodLink(m, owner, root, I4(va));
    if Present(m(root, I4(va))) {
      var d := Frame(m(root, I4(va)));
      assert GoodLink(m, owner, d, I3(va));
      if Present(m(d, I3(va))) {
        assert GoodLink(m, owner, Frame(m(d, I3(va))), I2(va));
      }
    }
  }

  /** Inside the tree, translation is exactly the page-table entry. */
  lemma TranslateIsLeaf(m: Memory, root: nat, owner: Owners, va: nat)
    requires Tree(m, root, owner) && Ordinary(va)
    ensures var e := Leaf(m, root, va);
            Translate(m, root, va)
            == if CanonicalAddress(va) && Present(e) then Some(Physical(Frame(e), va % 0x1000)) else None
  {
    NoLargeEntries(m, root, owner, va);
    var d := Frame(m(root, I4(va)));
    Follow3(m, root, I4(va), I3(va), I2(va));
    Follow2(m, d, I3(va), I2(va));
    Follow1(m, Frame(m(d, I3(va))), I2(va));
    assert !Present(0);
  }

  /** Different ordinary pages have their entries in different words of memory. */
  lemma DistinctEntries(m: Memory, root: nat, owner: Owners, v: nat, w: nat)
    requires Tree(m, root, owner) && Ordinary(v) && Ordinary(w) && !SamePage(v, w)
    requires Follow(m, root, TablePath(v)).Some? && Follow(m, root, TablePath(w)).Some?
    ensures (Follow(m, root, TablePath(v)).value, I1(v)) != (Follow(m, root, TablePath(w)).value, I1(w))
  {
    FollowFromRoot(m, root, owner, TablePath(v));
    FollowFromRoot(m, root, owner, TablePath(w));
  }

  // ---- writing a page-table entry ----

  ghost predicate SameUpperEntries(m: Memory, n: Memory, owner: Owners) {
    forall f, i {:trigger n(f, i)} :: owner(f).Some? && |owner(f).value| < 3 ==> n(f, i) == m(f, i)
  }

  lemma {:induction false} FollowSame(m: Memory, n: Memory, root: nat, owner: Owners, f: nat, path: Path)
    requires Tree(m, root, owner) && SameUpperEntries(m, n, owner)
    requires owner(f).Some? && Inside(owner(f).value, path)
    ensures Follow(n, f, path) == Follow(m, f, path)
    decreases |path|
  {
    if path != [] {
      assert n(f, path[0]) == m(f, path[0]);
      assert GoodLink(m, owner, f, path[0]);
      if Present(m(f, path[0])) {
        FollowSame(m, n, root, owner, Frame(m(f, path[0])), path[1..]);
      }
    }
  }

  lemma LeafWriteKeepsTree(m: Memory, root: nat, owner: Owners, t: nat, j: nat, w: nat)
    requires Tree(m, root, owner) && owner(t).Some? && |owner(t).value| == 3
    ensures SameUpperEntries(m, Write(m, t, j, w), owner)
    ensures Tree(Write(m, t, j, w), root, owner)
  {
    var n := Write(m, t, j, w);
    forall f, i | owner(f).Some? && |owner(f).value| < 3 && TreeEdge(owner(f).value, i) ensures GoodLink(n, owner, f, i) {
      assert GoodLink(m, owner, f, i);
    }
  }

  /** Writing the page-table entry of `v` changes that entry and no other ordinary page's. */
  lemma LeafAfterWrite(m: Memory, root: nat, owner: Owners, v: nat, e: nat)
    requires Tree(m, root, owner) && Ordinary(v)
    requires Follow(m, root, TablePath(v)).Some?
    ensures var t := Follow(m, root, TablePath(v)).value;
            var n := Write(m, t, I1(v), e);
            && owner(t) == Some(TablePath(v)) && Tree(n, root, owner)
            && (forall w {:trigger Leaf(n, root, w)} :: Ordinary(w) ==>
                  Leaf(n, root, w) == if SamePage(v, w) then e else Leaf(m, root, w))
            && SameTables(m, n, root)
  {
    FollowFromRoot(m, root, owner, TablePath(v));
    var t := Follow(m, root, TablePath(v)).value;
    LeafWriteKeepsTree(m, root, owner, t, I1(v), e);
    var n := Write(m, t, I1(v), e);
    forall w | Ordinary(w)
      ensures HasTable(n, root, w) == HasTable(m, root, w)
      ensures Leaf(n, root, w) == if SamePage(v, w) then e else Leaf(m, root, w)
    {
      FollowSame(m, n, root, owner, root, TablePath(w));
      if Follow(m, root, TablePath(w)).Some? {
        FollowFromRoot(m, root, owner, TablePath(w));
      }
    }
  }

  // ---- adding a table ----

  /** The entry mem_create_pagetable writes for a new table: present, and bit 8. */
  function Link(g: nat): nat { g + 0x101 }

  /** An entry for the table in frame `g`. */
  predicate LinksTo(e: nat, g: nat) {
    Present(e) && !Large(e) && Frame(e) == g
  }

  /** The entry for a new table has bits 0 and 8 set, and of the other low bits none. */
  lemma LinkBits(g: nat)
    requires IsFrame(g)
    ensures Carries(Link(g), PageFlags(true, false, false, false, false, false, false, false, true))
    ensures Link(g) / 0x200 % 8 == 0 && Frame(Link(g)) == g
  {
    var k := FrameNumber(g);
    LinkEntry(g);
    forall i: nat | i < 12 ensures Bits.Bit(Link(g), i) == Bits.Bit(0x101, i) {
      LowBits(k, 0x101, i);
    }
    SmallPowers();
    Bits.QuotientIs(Link(g), 0x200, k * 8);
  }

  lemma SmallPowers()
    ensures Bits.Pow2(0) == 1 && Bits.Pow2(1) == 2 && Bits.Pow2(2) == 4 && Bits.Pow2(3) == 8 && Bits.Pow2(4) == 16
    ensures Bits.Pow2(5) == 32 && Bits.Pow2(6) == 64 && Bits.Pow2(7) == 128 && Bits.Pow2(8) == 256
  {
  }

  /** Bits of a page number and twelve low bits. */
  lemma LowBits(k: nat, low: nat, i: nat)
    requires low < 0x1000
    ensures i < 12 ==> Bits.Bit(k * 0x1000 + low, i) == Bits.Bit(low, i)
    ensures i >= 12 ==> Bits.Bit(k * 0x1000 + low, i) == Bits.Bit(k, i - 12)
  {
    assert Bits.Pow2(12) == 0x1000;
    if i < 12 {
      Bits.LowBitsOfSum(k, 12, low, i);
    } else {
      Bits.HighBitsOfSum(k, 12, low, i);
    }
  }

  lemma LinkEntry(g: nat)
    requires IsFrame(g)
    ensures LinksTo(Link(g), g)
    ensures !Present(0)
  {
    var k := FrameNumber(g);
    WordParts(k, 0x101);
  }

  lemma LinkKeepsTree(m: Memory, root: nat, owner: Owners, f: nat, i: nat, e: nat, g: nat)
    requires Tree(m, root, owner) && Spare(m, owner, g) && LinksTo(e, g)
    requires owner(f).Some? && |owner(f).value| < 3 && TreeEdge(owner(f).value, i)
    ensures Tree(Write(m, f, i, e), root, Assign(owner, g, owner(f).value + [i]))
  {
    var n, owner' := Write(m, f, i, e), Assign(owner, g, owner(f).value + [i]);
    forall h, j | owner'(h).Some? && |owner'(h).value| < 3 && TreeEdge(owner'(h).value, j)
      ensures GoodLink(n, owner', h, j)
    {
      if h == g {
        assert m(g, j) == 0;
      } else {
        assert GoodLink(m, owner, h, j);
      }
    }
  }

  /** After linking the zeroed table `g`, walks that reached a table reach the same one, and
      a walk that reached none reaches at most `g`. */
  lemma {:induction false} FollowAfterLink(
    m: Memory, root: nat, owner: Owners, f: nat, i: nat, e: nat, g: nat, h: nat, path: Path)
    requires Tree(m, root, owner) && Spare(m, owner, g) && LinksTo(e, g)
    requires owner(f).Some? && |owner(f).value| < 3 && TreeEdge(owner(f).value, i) && !Present(m(f, i))
    requires owner(h).Some? && Inside(owner(h).value, path)
    ensures var n := Write(m, f, i, e);
            if Follow(m, h, path).Some? then Follow(n, h, path) == Follow(m, h, path)
            else Follow(n, h, path) == None || Follow(n, h, path) == Some(g)
    decreases |path|
  {
    if path != [] {
      var n, a := Write(m, f, i, e), path[0];
        if h == f && a == i {
        assert path[1..] != [] ==> n(g, path[1]) == 0;
      } else if Present(m(h, a)) {
        assert GoodLink(m, owner, h, a);
        FollowAfterLink(m, root, owner, f, i, e, g, Frame(m(h, a)), path[1..]);
      }
    }
  }

  /** Linking a zeroed table changes no ordinary page's entry. */
  lemma LinkKeepsLeaves(m: Memory, root: nat, owner: Owners, f: nat, i: nat, e: nat, g: nat)
    requires Tree(m, root, owner) && Spare(m, owner, g) && LinksTo(e, g)
    requires owner(f).Some? && |owner(f).value| < 3 && TreeEdge(owner(f).value, i) && !Present(m(f, i))
    ensures SameLeaves(m, Write(m, f, i, e), root)
  {
    var n := Write(m, f, i, e);
    forall w | Ordinary(w) ensures Leaf(n, root, w) == Leaf(m, root, w) {
      FollowAfterLink(m, root, owner, f, i, e, g, root, TablePath(w));
      if Follow(m, root, TablePath(w)).Some? {
        FollowFromRoot(m, root, owner, TablePath(w));
      } else {
        assert n(g, I1(w)) == 0;
      }
    }
  }

  /** Linking an upper table gives no ordinary address a page table. */
  lemma LinkKeepsTables(m: Memory, root: nat, owner: Owners, f: nat, i: nat, e: nat, g: nat)
    requires Tree(m, root, owner) && Spare(m, owner, g) && LinksTo(e, g)
    requires owner(f).Some? && |owner(f).value| < 2 && TreeEdge(owner(f).value, i) && !Present(m(f, i))
    ensures SameTables(m, Write(m, f, i, e), root)
  {
    var n, owner' := Write(m, f, i, e), Assign(owner, g, owner(f).value + [i]);
    LinkKeepsTree(m, root, owner, f, i, e, g);
    forall w | Ordinary(w) ensures HasTable(n, root, w) == HasTable(m, root, w) {
      FollowAfterLink(m, root, owner, f, i, e, g, root, TablePath(w));
      if HasTable(n, root, w) {
        FollowFromRoot(n, root, owner', TablePath(w));
        assert |owner'(g).value| < 3;
      }
    }
  }

  // ---- ranges of pages ----

  /** Address of page `k` of a range, with 64-bit wrap-around. */
  function PageAt(va: nat, k: nat): nat {
    (va + 0x1000 * k) % ADDRESSES
  }

  /** The four indices of an address are the digits of its page number, as far as they go. */
  lemma PageNumber(va: nat)
    ensures va / 0x1000 % 0x10_0000_0000 == ((I4(va) * 512 + I3(va)) * 512 + I2(va)) * 512 + I1(va)
  {
    Bits.DivDiv(va, 0x1000, 512);
    Bits.DivDiv(va, 0x1000, 0x4_0000);
    Bits.DivDiv(va, 0x1000, 0x800_0000);
    FourFields(va / 0x1000);
  }

  lemma FourFields(y: nat)
    ensures y % 0x10_0000_0000 == ((y / 0x800_0000 % 512 * 512 + y / 0x4_0000 % 512) * 512 + y / 512 % 512) * 512 + y % 512
  {
    Bits.ModFields(y, 0x800_0000, 512);
    ThreeFields(y);
  }

  lemma DropWrap(x: nat)
    ensures x % ADDRESSES / 0x1000 % 0x10_0000_0000 == x / 0x1000 % 0x10_0000_0000
  {
    Bits.ModFields(x, 0x1000, 0x10_0000_0000_0000);
    Bits.ModFields(x / 0x1000, 0x10_0000_0000, 0x1_0000);
  }

  /** The pages of a range of fewer than 2^32 pages are all different. */
  lemma DifferentPages(va: nat, j: nat, k: nat)
    requires j < k < 0x1_0000_0000
    ensures !SamePage(PageAt(va, j), PageAt(va, k))
  {
    PageNumber(PageAt(va, j));
    PageNumber(PageAt(va, k));
    DropWrap(va + 0x1000 * j);
    DropWrap(va + 0x1000 * k);
    assert (va + 0x1000 * j) / 0x1000 == va / 0x1000 + j;
    assert (va + 0x1000 * k) / 0x1000 == va / 0x1000 + k;
    NumbersDiffer(va / 0x1000 + j, va / 0x1000 + k);
  }

  lemma NumbersDiffer(x: nat, y: nat)
    requires x < y < x + 0x1_0000_0000
    ensures x % 0x10_0000_0000 != y % 0x10_0000_0000
  {
  }

  /** Physical address handed to page `k` of a range, with 64-bit wrap-around. */
  function FrameAt(pa: nat, k: nat): nat {
    (pa + 0x1000 * k) % ADDRESSES
  }

  /** Rounding down page by page is rounding the start down. */
  lemma FrameAtRounded(pa: nat, k: nat)
    requires pa + 0x1000 * k < ADDRESSES
    ensures PageBase(FrameAt(pa, k)) == PageBase(pa) + 0x1000 * k
  {
  }

  /** The page-table entry that maps a page to `pa` with the given flags. */
  function LeafEntry(pa: nat, flags: PageFlags): nat {
    PageBase(pa) + EncodeFlags(flags)
  }

  lemma LeafEntryParts(pa: nat, flags: PageFlags)
    ensures Present(LeafEntry(pa, flags)) <==> flags.present
    ensures LeafEntry(pa, flags) % 0x1000 == EncodeFlags(flags)
    ensures pa < 0x10_0000_0000_0000 ==> Frame(LeafEntry(pa, flags)) == PageBase(pa)
  {
    FlagsBelow(flags);
    WordParts(pa / 0x1000, EncodeFlags(flags));
  }

  /** With such an entry an address leads to the page of `pa` at its own offset, provided
      it is marked present. */
  lemma MappedTranslate(m: Memory, root: nat, owner: Owners, va: nat, pa: nat, flags: PageFlags)
    requires Tree(m, root, owner) && Ordinary(va) && CanonicalAddress(va)
    requires Leaf(m, root, va) == LeafEntry(pa, flags) && pa < 0x10_0000_0000_0000
    ensures Translate(m, root, va) == if flags.present then Some(Physical(PageBase(pa), va % 0x1000)) else None
  {
    TranslateIsLeaf(m, root, owner, va);
    LeafEntryParts(pa, flags);
  }

  /** Every flag is in its own bit of the entry. */
  lemma LeafEntryFlags(pa: nat, flags: PageFlags)
    ensures Carries(LeafEntry(pa, flags), flags)
  {
    EncodedFlags(flags, pa / 0x1000);
  }

  // ---- what map_range and unmap_range leave behind ----

  ghost predicate InRange(w: nat, va: nat, n: nat) {
    exists k: nat :: k < n && SamePage(PageAt(va, k), w)
  }

  /** The first `n` pages from `va` map to the frames from `pa` on, all others are as before. */
  ghost predicate RangeMapped(m: Memory, m': Memory, root: nat, va: nat, pa: nat, n: nat, flags: PageFlags) {
    && (forall k: nat {:trigger PageAt(va, k)} :: k < n ==>
          Leaf(m', root, PageAt(va, k)) == LeafEntry(FrameAt(pa, k), flags))
    && (forall w: nat {:trigger Leaf(m', root, w)} :: Ordinary(w) && !InRange(w, va, n) ==>
          Leaf(m', root, w) == Leaf(m, root, w))
  }

  /** The first `n` pages from `va` have a zero entry, all others are as before. */
  ghost predicate RangeCleared(m: Memory, m': Memory, root: nat, va: nat, n: nat) {
    && (forall k: nat {:trigger PageAt(va, k)} :: k < n ==> Leaf(m', root, PageAt(va, k)) == 0)
    && (forall w: nat {:trigger Leaf(m', root, w)} :: Ordinary(w) && !InRange(w, va, n) ==>
          Leaf(m', root, w) == Leaf(m, root, w))
  }

  /** Every page of a mapped range has the flags in their bits. */
  lemma RangeFlags(m: Memory, m': Memory, root: nat, va: nat, pa: nat, n: nat, flags: PageFlags)
    requires RangeMapped(m, m', root, va, pa, n, flags)
    ensures forall k: nat {:trigger PageAt(va, k)} :: k < n ==> Carries(Leaf(m', root, PageAt(va, k)), flags)
  {
    forall k: nat | k < n ensures Carries(Leaf(m', root, PageAt(va, k)), flags) {
      LeafEntryFlags(FrameAt(pa, k), flags);
    }
  }

  /** One address of a mapped range. */
  lemma PageTranslated(m: Memory, root: nat, owner: Owners, va: nat, pa: nat, k: nat, flags: PageFlags, w: nat)
    requires Tree(m, root, owner) && Ordinary(w) && CanonicalAddress(w) && SamePage(PageAt(va, k), w)
    requires Leaf(m, root, PageAt(va, k)) == LeafEntry(FrameAt(pa, k), flags) && pa + 0x1000 * k < 0x10_0000_0000_0000
    ensures Translate(m, root, w) == if flags.present then Some(Physical(PageBase(pa) + 0x1000 * k, w % 0x1000)) else None
  {
    var f := FrameAt(pa, k);
    FrameAtRounded(pa, k);
    FrameAtPlain(pa, k);
    MappedTranslate(m, root, owner, w, f, flags);
  }

  lemma FrameAtPlain(pa: nat, k: nat)
    requires pa + 0x1000 * k < ADDRESSES
    ensures FrameAt(pa, k) == pa + 0x1000 * k
  {
  }

  lemma RangePage(m: Memory, m': Memory, root: nat, va: nat, pa: nat, n: nat, flags: PageFlags, k: nat)
    requires RangeMapped(m, m', root, va, pa, n, flags) && k < n
    ensures PageAt(va, k) == (va + 0x1000 * k) % ADDRESSES
    ensures Leaf(m', root, PageAt(va, k)) == LeafEntry(FrameAt(pa, k), flags)
  {
  }

  /** What a mapped range means to the hardware: page by page its addresses lead to the frames from
      the rounded-down `pa` on, if the flags say present. */
  lemma RangeTranslated(
    m: Memory, m': Memory, root: nat, owner: Owners, va: nat, pa: nat, n: nat, flags: PageFlags,
    k: nat, v: nat, w: nat)
    requires Tree(m', root, owner) && RangeMapped(m, m', root, va, pa, n, flags)
    requires k < n && pa + 0x1000 * n <= 0x10_0000_0000_0000
    requires v == (va + 0x1000 * k) % ADDRESSES && SamePage(v, w) && Ordinary(w) && CanonicalAddress(w)
    ensures Translate(m', root, w) == if flags.present then Some(Physical(PageBase(pa) + 0x1000 * k, w % 0x1000)) else None
  {
    RangePage(m, m', root, va, pa, n, flags, k);
    assert PageAt(va, k) == v;
    PageTranslated(m', root, owner, va, pa, k, flags, w);
  }

  /** Every other ordinary address leads where it led before. */
  lemma OutsideRange(
    m: Memory, owner: Owners, m': Memory, owner': Owners, root: nat, va: nat, pa: nat, n: nat, flags: PageFlags, w: nat)
    requires Tree(m, root, owner) && Tree(m', root, owner')
    requires RangeMapped(m, m', root, va, pa, n, flags) && Ordinary(w) && !InRange(w, va, n)
    ensures Translate(m', root, w) == Translate(m, root, w)
  {
    TranslateIsLeaf(m, root, owner, w);
    TranslateIsLeaf(m', root, owner', w);
    assert Leaf(m', root, w) == Leaf(m, root, w);
  }

  /** The first page of a range without a page table, or `n`. */
  function FirstMissing(m: Memory, root: nat, va: nat, n: nat): (j: nat)
    ensures j <= n
    ensures forall k: nat {:trigger PageAt(va, k)} :: k < j ==> HasTable(m, root, PageAt(va, k))
    ensures j < n ==> !HasTable(m, root, PageAt(va, j))
  {
    if n == 0 then 0
    else
      var j := FirstMissing(m, root, va, n - 1);
      if j == n - 1 && HasTable(m, root, PageAt(va, j)) then n else j
  }

  /** unmap_range stops moving at the first page without a page table, so it unmaps its
      whole range exactly when nothing is mapped from there on. */
  lemma UnmapExact(m: Memory, m': Memory, root: nat, va: nat, n: nat)
    requires n < 0x1_0000_0000
    requires forall k: nat {:trigger PageAt(va, k)} :: k < n ==> Ordinary(PageAt(va, k))
    requires RangeCleared(m, m', root, va, FirstMissing(m, root, va, n))
    ensures (forall k: nat {:trigger PageAt(va, k)} :: k < n ==> !Present(Leaf(m', root, PageAt(va, k)))) <==>
            (forall k: nat {:trigger PageAt(va, k)} :: FirstMissing(m, root, va, n) <= k < n ==>
               !Present(Leaf(m, root, PageAt(va, k))))
  {
    var j := FirstMissing(m, root, va, n);
    forall k: nat | j <= k < n ensures Leaf(m', root, PageAt(va, k)) == Leaf(m, root, PageAt(va, k)) {
      forall i: nat | i < j ensures !SamePage(PageAt(va, i), PageAt(va, k)) {
        DifferentPages(va, i, k);
      }
      assert !InRange(PageAt(va, k), va, j);
    }
    assert !Present(0);
  }

  /** Tables in frames 0x1000 to 0x4000 that map page 0x200 and have no page table for page 0x1FF. */
  function StuckMemory(f: nat, i: nat): nat {
    if i == RECURSIVE_SLOT then (if f == 0x1000 then 0x1001 else 0)
    else if i == 0 then (if f == 0x1000 then 0x2001 else if f == 0x2000 then 0x3001 else if f == 0x4000 then 0x5001 else 0)
    else if i == 1 && f == 0x3000 then 0x4001
    else 0
  }

  function StuckOwner(f: nat): Option<Path> {
    if f == 0x1000 then Some([])
    else if f == 0x2000 then Some([0])
    else if f == 0x3000 then Some([0, 0])
    else if f == 0x4000 then Some([0, 0, 1])
    else None
  }

  lemma StuckTree()
    ensures Tree(StuckMemory, 0x1000, StuckOwner)
  {
    StuckEntries();
    assert [] + [0] == [0] && [0] + [0] == [0, 0] && [0, 0] + [1] == [0, 0, 1];
  }

  lemma StuckEntries()
    ensures !Present(0) && Present(0x1001) && Present(0x2001) && Present(0x3001) && Present(0x4001) && Present(0x5001)
    ensures !Large(0x1001) && !Large(0x2001) && !Large(0x3001) && !Large(0x4001)
    ensures Frame(0x1001) == 0x1000 && Frame(0x2001) == 0x2000 && Frame(0x3001) == 0x3000 && Frame(0x4001) == 0x4000
    ensures IsFrame(0x1000) && IsFrame(0x2000) && IsFrame(0x3000) && IsFrame(0x4000)
  {
  }

  /** Two pages, the first without a page table and the second mapped: unmapping both leaves
      the second mapped. */
  lemma UnmapStuck()
    ensures Tree(StuckMemory, 0x1000, StuckOwner)
    ensures Ordinary(PageAt(0x1F_F000, 0)) && Ordinary(PageAt(0x1F_F000, 1))
    ensures FirstMissing(StuckMemory, 0x1000, 0x1F_F000, 2) == 0
    ensures Present(Leaf(StuckMemory, 0x1000, PageAt(0x1F_F000, 1)))
  {
    var m := StuckMemory;
    StuckTree();
    StuckEntries();
    assert TablePath(PageAt(0x1F_F000, 0)) == [0, 0, 0] && TablePath(PageAt(0x1F_F000, 1)) == [0, 0, 1];
    Follow3(m, 0x1000, 0, 0, 0);
    Follow2(m, 0x2000, 0, 0);
    Follow1(m, 0x3000, 0);
    Follow3(m, 0x1000, 0, 0, 1);
    Follow2(m, 0x2000, 0, 1);
    Follow1(m, 0x3000, 1);
    assert FirstMissing(m, 0x1000, 0x1F_F000, 1) == 0;
  }

  /** One more page of a range. */
  lemma RangeMappedNext(
    m: Memory, m1: Memory, m2: Memory, root: nat, va: nat, pa: nat, k: nat, flags: PageFlags)
    requires k + 1 < 0x1_0000_0000
    requires forall j: nat {:trigger PageAt(va, j)} :: j <= k ==> Ordinary(PageAt(va, j))
    requires RangeMapped(m, m1, root, va, pa, k, flags)
    requires forall w: nat {:trigger Leaf(m2, root, w)} :: Ordinary(w) ==>
               Leaf(m2, root, w) == if SamePage(PageAt(va, k), w) then LeafEntry(FrameAt(pa, k), flags) else Leaf(m1, root, w)
    ensures RangeMapped(m, m2, root, va, pa, k + 1, flags)
  {
    forall j: nat | j < k + 1 ensures Leaf(m2, root, PageAt(va, j)) == LeafEntry(FrameAt(pa, j), flags) {
      if j < k {
        DifferentPages(va, j, k);
      }
    }
    forall w: nat | Ordinary(w) && !InRange(w, va, k + 1) ensures Leaf(m2, root, w) == Leaf(m, root, w) {
      assert !SamePage(PageAt(va, k), w);
      assert !InRange(w, va, k);
    }
  }

  lemma RangeMappedSame(
    m: Memory, m1: Memory, m2: Memory, root: nat, va: nat, pa: nat, n: nat, flags: PageFlags)
    requires forall j: nat {:trigger PageAt(va, j)} :: j < n ==> Ordinary(PageAt(va, j))
    requires RangeMapped(m, m1, root, va, pa, n, flags) && SameLeaves(m1, m2, root)
    ensures RangeMapped(m, m2, root, va, pa, n, flags)
  {
  }

  lemma RangeClearedNext(m: Memory, m1: Memory, m2: Memory, root: nat, va: nat, k: nat)
    requires k + 1 < 0x1_0000_0000
    requires forall j: nat {:trigger PageAt(va, j)} :: j <= k ==> Ordinary(PageAt(va, j))
    requires RangeCleared(m, m1, root, va, k)
    requires forall w: nat {:trigger Leaf(m2, root, w)} :: Ordinary(w) ==>
               Leaf(m2, root, w) == if SamePage(PageAt(va, k), w) then 0 else Leaf(m1, root, w)
    ensures RangeCleared(m, m2, root, va, k + 1)
  {
    forall w: nat | Ordinary(w) && !InRange(w, va, k + 1) ensures Leaf(m2, root, w) == Leaf(m, root, w) {
      assert !SamePage(PageAt(va, k), w);
      assert !InRange(w, va, k);
    }
  }
}
