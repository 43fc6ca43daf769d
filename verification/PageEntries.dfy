/** The 64-bit page-table entry and its unpacked form. Entries are numbers below 2^64; the
    flag bits are packed and unpacked lowest bit first.
 */
module PageEntries {
  import opened Bits

  datatype PageFlags = PageFlags(
    global: bool, pageSize: bool, dirty: bool, accessed: bool, cacheDisabled: bool,
    writeThrough: bool, userAccessible: bool, rwAccessible: bool, present: bool)

  datatype PageEntry = PageEntry(address: nat, flags: PageFlags)

  /** `a & ~0xFFF` */
  function PageBase(a: nat): nat { a / 0x1000 * 0x1000 }

  function FlagBit(b: bool): nat {
    if b then 1 else 0
  }

  /** The number whose bit `k` is `bits[k]`. */
  function Pack(bits: seq<bool>): (r: nat)
    ensures r < Pow2(|bits|)
  {
    if bits == [] then 0 else FlagBit(bits[0]) + 2 * Pack(bits[1..])
  }

  /** The lowest `n` bits of a number. */
  function Unpack(w: nat, n: nat): (bits: seq<bool>)
    ensures |bits| == n
  {
    if n == 0 then [] else [w % 2 == 1] + Unpack(w / 2, n - 1)
  }

  lemma {:induction false} UnpackPack(high: nat, bits: seq<bool>)
    ensures Unpack(high * Pow2(|bits|) + Pack(bits), |bits|) == bits
  {
    if bits != [] {
      var p := Pow2(|bits| - 1);
      var x := high * p + Pack(bits[1..]);
      assert high * (2 * p) == 2 * (high * p);
      assert high * Pow2(|bits|) + Pack(bits) == 2 * x + FlagBit(bits[0]);
      assert (2 * x + FlagBit(bits[0])) / 2 == x && ((2 * x + FlagBit(bits[0])) % 2 == 1 <==> bits[0]);
      UnpackPack(high, bits[1..]);
    }
  }

  lemma {:induction false} PackUnpack(w: nat, n: nat)
    ensures Pack(Unpack(w, n)) == w % Pow2(n)
  {
    if n > 0 {
      var p := Pow2(n - 1);
      var bits := Unpack(w / 2, n - 1);
      PackUnpack(w / 2, n - 1);
      assert ([w % 2 == 1] + bits)[1..] == bits;
      var q, r := QuotientRemainder(w / 2, p);
      QuotientIs(w / 2, p, q);
      assert 2 * (q * p + r) + w % 2 == w;
      assert q * (2 * p) == 2 * (q * p);
      QuotientIs(w, 2 * p, q);
    } else {
      QuotientIs(w, 1, w);
    }
  }

  /** flags_to_x86_64: bit 0 is `present`, bit 8 is `global`. */
  function EncodeFlags(f: PageFlags): nat {
    Pack([f.present, f.rwAccessible, f.userAccessible, f.writeThrough, f.cacheDisabled,
          f.accessed, f.dirty, f.pageSize, f.global])
  }

  function DecodeFlags(raw: nat): PageFlags {
    var b := Unpack(raw, 9);
    PageFlags(b[8], b[7], b[6], b[5], b[4], b[3], b[2], b[1], b[0])
  }

  /** The constructor of page_entry. */
  function Decode(raw: nat): PageEntry {
    PageEntry(PageBase(raw), DecodeFlags(raw))
  }

  /** The conversion of page_entry to a 64-bit word. */
  function Encode(e: PageEntry): nat {
    PageBase(e.address) + EncodeFlags(e.flags)
  }

  lemma FlagsBelow(f: PageFlags)
    ensures EncodeFlags(f) < 512
    ensures EncodeFlags(f) % 2 == 1 <==> f.present
  {
    assert Pow2(9) == 512;
  }

  lemma WordOfFlags(f: PageFlags, base: nat)
    ensures DecodeFlags(base * 0x1000 + EncodeFlags(f)) == f
  {
    var bits := [f.present, f.rwAccessible, f.userAccessible, f.writeThrough, f.cacheDisabled,
                 f.accessed, f.dirty, f.pageSize, f.global];
    assert Pow2(9) == 512;
    UnpackPack(base * 8, bits);
  }

  lemma FlagsOfWord(raw: nat)
    ensures EncodeFlags(DecodeFlags(raw)) == raw % 512
  {
    var b := Unpack(raw, 9);
    assert [b[0], b[1], b[2], b[3], b[4], b[5], b[6], b[7], b[8]] == b;
    assert Pow2(9) == 512;
    PackUnpack(raw, 9);
  }

  lemma PageOf(base: nat, low: nat)
    requires low < 0x1000
    ensures PageBase(base * 0x1000 + low) == base * 0x1000
  {
    QuotientIs(base * 0x1000 + low, 0x1000, base);
  }

  lemma LowTwelve(raw: nat)
    ensures PageBase(raw) + raw % 512 == raw <==> raw / 512 % 8 == 0
  {
    ModFields(raw, 512, 8);
  }

  /** Decoding and encoding again keeps exactly the address and the nine flag bits, so the
      word comes back whole exactly when bits 9 to 11 were clear. */
  lemma EncodeDecode(raw: nat)
    ensures Encode(Decode(raw)) == PageBase(raw) + raw % 512
    ensures Encode(Decode(raw)) == raw <==> raw / 512 % 8 == 0
  {
    PageOf(raw / 0x1000, 0);
    FlagsOfWord(raw);
    LowTwelve(raw);
  }

  /** Encoding an entry loses nothing but the low twelve bits of its address. */
  lemma DecodeEncode(e: PageEntry)
    ensures Decode(Encode(e)) == PageEntry(PageBase(e.address), e.flags)
  {
    WordOfFlags(e.flags, e.address / 0x1000);
    FlagsBelow(e.flags);
    PageOf(e.address / 0x1000, EncodeFlags(e.flags));
  }

  // ---- which bit is which flag ----

  /** The bits of a word as the architecture names them (AMD64 Architecture Programmer's Manual,
      Volume 2, section 5.4, "Page-Translation-Table Entry Fields"). */
  ghost predicate Carries(w: nat, f: PageFlags) {
    && (Bit(w, 0) == 1 <==> f.present)
    && (Bit(w, 1) == 1 <==> f.rwAccessible)
    && (Bit(w, 2) == 1 <==> f.userAccessible)
    && (Bit(w, 3) == 1 <==> f.writeThrough)
    && (Bit(w, 4) == 1 <==> f.cacheDisabled)
    && (Bit(w, 5) == 1 <==> f.accessed)
    && (Bit(w, 6) == 1 <==> f.dirty)
    && (Bit(w, 7) == 1 <==> f.pageSize)
    && (Bit(w, 8) == 1 <==> f.global)
  }

  lemma NextBit(x: nat, i: nat)
    ensures Bit(x, i + 1) == Bit(x / 2, i)
  {
    DivDiv(x, 2, Pow2(i));
  }

  lemma {:induction false} UnpackBits(w: nat, n: nat, i: nat)
    requires i < n
    ensures Unpack(w, n)[i] <==> Bit(w, i) == 1
  {
    if i > 0 {
      NextBit(w, i - 1);
      UnpackBits(w / 2, n - 1, i - 1);
    } else {
      QuotientIs(w, 1, w);
    }
  }

  /** Decoding reads each flag off its own bit. */
  lemma DecodedFlags(w: nat)
    ensures Carries(w, Decode(w).flags)
  {
    forall i | 0 <= i < 9 ensures Unpack(w, 9)[i] <==> Bit(w, i) == 1 {
      UnpackBits(w, 9, i);
    }
  }

  /** Encoding sets each flag's own bit. */
  lemma EncodedFlags(f: PageFlags, base: nat)
    ensures Carries(base * 0x1000 + EncodeFlags(f), f)
  {
    var w := base * 0x1000 + EncodeFlags(f);
    WordOfFlags(f, base);
    DecodedFlags(w);
  }

  lemma EncodedEntry(e: PageEntry)
    ensures Carries(Encode(e), e.flags)
  {
    EncodedFlags(e.flags, e.address / 0x1000);
  }
}
