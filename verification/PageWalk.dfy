/** The hardware's four-level table walk (AMD64 Architecture Programmer's Manual, Volume 2,
    section 5.3, "Long-Mode Page Translation") and what it makes of the recursive slot.

    Virtual addresses are numbers below 2^64; a right shift is a division, and masking a
    run of bits is a remainder. Entries are 64-bit words.
 */
module PageWalk {
  import opened Bits
  import opened Wrappers

  // ---- virtual addresses ----

  const ADDRESSES: nat := 0x1_0000_0000_0000_0000

  function I4(va: nat): nat { va / 0x80_0000_0000 % 512 }
  function I3(va: nat): nat { va / 0x4000_0000 % 512 }
  function I2(va: nat): nat { va / 0x20_0000 % 512 }
  function I1(va: nat): nat { va / 0x1000 % 512 }

  const RECURSIVE_SLOT: nat := 510
  const RECURSIVE_PTBLS: nat := 0xFFFF_0000_0000_0000 + RECURSIVE_SLOT * 0x80_0000_0000
  const RECURSIVE_PDIRS: nat := RECURSIVE_PTBLS + RECURSIVE_SLOT * 0x4000_0000
  const RECURSIVE_PDPTS: nat := RECURSIVE_PDIRS + RECURSIVE_SLOT * 0x20_0000
  const RECURSIVE_PML4T: nat := RECURSIVE_PDPTS + RECURSIVE_SLOT * 0x1000

  /** `RECURSIVE_PDPTS | ((va >> 27) & 0x1FF000)`, and so on for the other tables. */
  function PdptAddr(va: nat): nat { RECURSIVE_PDPTS + va / 0x800_0000 / 0x1000 % 0x200 * 0x1000 }
  function PdirAddr(va: nat): nat { RECURSIVE_PDIRS + va / 0x4_0000 / 0x1000 % 0x4_0000 * 0x1000 }
  function PtblAddr(va: nat): nat { RECURSIVE_PTBLS + va / 0x200 / 0x1000 % 0x800_0000 * 0x1000 }

  /** Address of element `i` of a table of 64-bit entries. */
  function Element(table: nat, i: nat): nat { table + 8 * i }

  /** Bits 48 to 63 repeat bit 47. */
  predicate CanonicalAddress(va: nat) {
    va < ADDRESSES && (va / 0x8000_0000_0000 == 0 || va / 0x8000_0000_0000 == 0x1_FFFF)
  }

  predicate Indices(va: nat, i4: nat, i3: nat, i2: nat, i1: nat, offset: nat) {
    CanonicalAddress(va) && I4(va) == i4 && I3(va) == i3 && I2(va) == i2 && I1(va) == i1 && va % 0x1000 == offset
  }

  /** One 9-bit field of a number. */
  lemma Field(x: nat, s: nat, high: nat, field: nat, low: nat)
    requires s > 0 && x == (high * 512 + field) * s + low && low < s && field < 512
    ensures x / s % 512 == field
  {
    QuotientIs(x, s, high * 512 + field);
    QuotientIs(high * 512 + field, 512, high);
  }

  /** An address put together from repeated top bits, four indices and an offset. */
  lemma Compose(va: nat, top: nat, a: nat, b: nat, c: nat, d: nat, offset: nat)
    requires a < 512 && b < 512 && c < 512 && d < 512 && offset < 0x1000
    requires top == if a < 256 then 0 else 0xFFFF
    requires va == (((top * 512 + a) * 512 + b) * 512 + c) * 0x20_0000 + d * 0x1000 + offset
    ensures Indices(va, a, b, c, d, offset)
  {
    Field(va, 0x1000, ((top * 512 + a) * 512 + b) * 512 + c, d, offset);
    Field(va, 0x20_0000, (top * 512 + a) * 512 + b, c, d * 0x1000 + offset);
    Field(va, 0x4000_0000, top * 512 + a, b, c * 0x20_0000 + d * 0x1000 + offset);
    Field(va, 0x80_0000_0000, top, a, b * 0x4000_0000 + c * 0x20_0000 + d * 0x1000 + offset);
    QuotientIs(va, 0x1000, (((top * 512 + a) * 512 + b) * 512 + c) * 512 + d);
    if a < 256 {
      QuotientIs(va, 0x8000_0000_0000, 0);
    } else {
      QuotientIs(va, 0x8000_0000_0000, 0x1_FFFF);
    }
  }

  lemma Pml4tIndices(i: nat)
    requires i < 512
    ensures Indices(Element(RECURSIVE_PML4T, i), 510, 510, 510, 510, 8 * i)
  {
    Compose(Element(RECURSIVE_PML4T, i), 0xFFFF, 510, 510, 510, 510, 8 * i);
  }

  lemma PdptIndices(va: nat, i: nat)
    requires i < 512
    ensures Indices(Element(PdptAddr(va), i), 510, 510, 510, I4(va), 8 * i)
  {
    DivDiv(va, 0x800_0000, 0x1000);
    Compose(Element(PdptAddr(va), i), 0xFFFF, 510, 510, 510, I4(va), 8 * i);
  }

  lemma TwoFields(y: nat)
    ensures y % 0x4_0000 == y / 512 % 512 * 512 + y % 512
  {
    ModFields(y, 512, 512);
  }

  lemma ThreeFields(y: nat)
    ensures y % 0x800_0000 == (y / 0x4_0000 % 512 * 512 + y / 512 % 512) * 512 + y % 512
  {
    ModFields(y, 0x4_0000, 512);
    TwoFields(y);
  }

  lemma PdirIndices(va: nat, i: nat)
    requires i < 512
    ensures Indices(Element(PdirAddr(va), i), 510, 510, I4(va), I3(va), 8 * i)
  {
    DivDiv(va, 0x4_0000, 0x1000);
    DivDiv(va, 0x4000_0000, 512);
    TwoFields(va / 0x4000_0000);
    Compose(Element(PdirAddr(va), i), 0xFFFF, 510, 510, I4(va), I3(va), 8 * i);
  }

  lemma PtblIndices(va: nat, i: nat)
    requires i < 512
    ensures Indices(Element(PtblAddr(va), i), 510, I4(va), I3(va), I2(va), 8 * i)
  {
    DivDiv(va, 0x200, 0x1000);
    DivDiv(va, 0x20_0000, 512);
    DivDiv(va, 0x20_0000, 0x4_0000);
    ThreeFields(va / 0x20_0000);
    Compose(Element(PtblAddr(va), i), 0xFFFF, 510, I4(va), I3(va), I2(va), 8 * i);
  }

  /** The table addresses in terms of the indices. */
  lemma TableAddresses(va: nat)
    ensures PdptAddr(va) == RECURSIVE_PDPTS + I4(va) * 0x1000
    ensures PdirAddr(va) == RECURSIVE_PDIRS + (I4(va) * 512 + I3(va)) * 0x1000
    ensures PtblAddr(va) == RECURSIVE_PTBLS + ((I4(va) * 512 + I3(va)) * 512 + I2(va)) * 0x1000
  {
    DivDiv(va, 0x800_0000, 0x1000);
    DivDiv(va, 0x4_0000, 0x1000);
    DivDiv(va, 0x4000_0000, 512);
    TwoFields(va / 0x4000_0000);
    DivDiv(va, 0x200, 0x1000);
    DivDiv(va, 0x20_0000, 512);
    DivDiv(va, 0x20_0000, 0x4_0000);
    ThreeFields(va / 0x20_0000);
  }

  /** The tables of a page table's own window are, one level up, the tables of the address it
      serves. */
  lemma ShiftedWindows(va: nat)
    ensures var f := Element(PtblAddr(va), I1(va));
            && I4(f) == RECURSIVE_SLOT && I3(f) == I4(va) && I2(f) == I3(va) && I1(f) == I2(va)
            && PdptAddr(f) == RECURSIVE_PML4T && PdirAddr(f) == PdptAddr(va) && PtblAddr(f) == PdirAddr(va)
            && f >= 0x1000
  {
    var f := Element(PtblAddr(va), I1(va));
    PtblIndices(va, I1(va));
    TableAddresses(va);
    TableAddresses(f);
  }

  // ---- the walk ----

  /** Physical memory as frames of 512 entries: the word at index `i` of the frame at address `f`. */
  type Memory = (nat, nat) -> nat

  function Write(m: Memory, f: nat, i: nat, w: nat): Memory {
    (g: nat, j: nat) => if g == f && j == i then w else m(g, j)
  }

  predicate Present(e: nat) { e % 2 == 1 }
  predicate Large(e: nat) { e / 0x80 % 2 == 1 }

  /** Bits 12 to 51 of an entry: the table or page it refers to. */
  function Frame(e: nat): nat { e / 0x1000 % 0x100_0000_0000 * 0x1000 }

  /** Where a walk ends: the entry that maps the page, by page size. */
  datatype Target = Fault | Page4K(e: nat) | Page2M(e: nat) | Page1G(e: nat)

  function Walk(m: Memory, root: nat, i4: nat, i3: nat, i2: nat, i1: nat): Target {
    var e4 := m(root, i4);
    if !Present(e4) then Fault
    else
      var e3 := m(Frame(e4), i3);
      if !Present(e3) then Fault
      else if Large(e3) then Page1G(e3)
      else
        var e2 := m(Frame(e3), i2);
        if !Present(e2) then Fault
        else if Large(e2) then Page2M(e2)
        else
          var e1 := m(Frame(e2), i1);
          if Present(e1) then Page4K(e1) else Fault
  }

  /** A physical address: a page and an offset in it. */
  datatype Physical = Physical(page: nat, offset: nat)

  /** Where a virtual address leads, or None for a fault. */
  function Translate(m: Memory, root: nat, va: nat): Option<Physical> {
    if !CanonicalAddress(va) then None
    else
      match Walk(m, root, I4(va), I3(va), I2(va), I1(va))
      case Fault => None
      case Page4K(e) => Some(Physical(Frame(e), va % 0x1000))
      case Page2M(e) => Some(Physical(e / 0x20_0000 % 0x8000_0000 * 0x20_0000, va % 0x20_0000))
      case Page1G(e) => Some(Physical(e / 0x4000_0000 % 0x40_0000 * 0x4000_0000, va % 0x4000_0000))
  }

  /** The frame reached from table `f` by following present entries along `path`. */
  function Follow(m: Memory, f: nat, path: seq<nat>): Option<nat>
    decreases |path|
  {
    if path == [] then Some(f)
    else if Present(m(f, path[0])) then Follow(m, Frame(m(f, path[0])), path[1..])
    else None
  }

  /** Entry 510 of the root refers to the root itself. */
  predicate SelfMapped(m: Memory, root: nat) {
    var e := m(root, RECURSIVE_SLOT);
    Frame(root) == root && Present(e) && !Large(e) && Frame(e) == root
  }

  // ---- the recursive slot reaches the tables of an address ----

  lemma Follow1(m: Memory, f: nat, a: nat)
    ensures Follow(m, f, [a]) == if Present(m(f, a)) then Some(Frame(m(f, a))) else None
  {
  }

  lemma Follow2(m: Memory, f: nat, a: nat, b: nat)
    ensures Follow(m, f, [a, b]) == if Present(m(f, a)) then Follow(m, Frame(m(f, a)), [b]) else None
  {
    assert [a, b][1..] == [b];
  }

  lemma Follow3(m: Memory, f: nat, a: nat, b: nat, c: nat)
    ensures Follow(m, f, [a, b, c]) == if Present(m(f, a)) then Follow(m, Frame(m(f, a)), [b, c]) else None
  {
    assert [a, b, c][1..] == [b, c];
  }

  /** Entry `i` of the table reached by a walk, as a physical address. */
  function EntryAddress(t: Option<nat>, i: nat): Option<Physical> {
    match t
    case None => None
    case Some(f) => Some(Physical(f, 8 * i))
  }

  predicate NotLarge(m: Memory, f: nat, i: nat) {
    Present(m(f, i)) ==> !Large(m(f, i))
  }

  /** The window onto the root table. */
  lemma RootWindow(m: Memory, root: nat, i: nat)
    requires SelfMapped(m, root) && i < 512
    ensures Translate(m, root, Element(RECURSIVE_PML4T, i)) == Some(Physical(root, 8 * i))
  {
    Pml4tIndices(i);
  }

  /** The window onto an address's page-directory-pointer table. */
  lemma PdptWindow(m: Memory, root: nat, va: nat, i: nat)
    requires SelfMapped(m, root) && i < 512
    ensures Translate(m, root, Element(PdptAddr(va), i)) == EntryAddress(Follow(m, root, [I4(va)]), i)
  {
    PdptIndices(va, i);
    Follow1(m, root, I4(va));
  }

  /** The window onto an address's page directory. The level-4 entry is read there as a
      directory entry, so it must not look like a large page. */
  lemma PdirWindow(m: Memory, root: nat, va: nat, i: nat)
    requires SelfMapped(m, root) && i < 512
    requires NotLarge(m, root, I4(va))
    ensures Translate(m, root, Element(PdirAddr(va), i)) == EntryAddress(Follow(m, root, [I4(va), I3(va)]), i)
  {
    PdirIndices(va, i);
    Follow2(m, root, I4(va), I3(va));
    Follow1(m, Frame(m(root, I4(va))), I3(va));
  }

  /** The window onto an address's page table. */
  lemma PtblWindow(m: Memory, root: nat, va: nat, i: nat)
    requires SelfMapped(m, root) && i < 512
    requires NotLarge(m, root, I4(va))
    requires Present(m(root, I4(va))) ==> NotLarge(m, Frame(m(root, I4(va))), I3(va))
    ensures Translate(m, root, Element(PtblAddr(va), i)) == EntryAddress(Follow(m, root, [I4(va), I3(va), I2(va)]), i)
  {
    PtblIndices(va, i);
    Follow3(m, root, I4(va), I3(va), I2(va));
    Follow2(m, Frame(m(root, I4(va))), I3(va), I2(va));
    Follow1(m, Frame(m(Frame(m(root, I4(va))), I3(va))), I2(va));
  }
}
