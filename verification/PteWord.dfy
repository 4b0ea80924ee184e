/** Page-table entries as the 64-bit words they are in memory: the masks of the code
    keep the fields apart, so an entry can be read as a record of them.
    The processor reads some of the same bits otherwise in the entry of a large page. */
module PteWord {
  import opened Arith
  import opened Paging
  import opened PageTables
  import opened Rights
  import opened MapSpec

  const PRESENT: bv64 := 0x1
  const WRITE: bv64 := 0x2
  const USER: bv64 := 0x4
  const WRITETHROUGH: bv64 := 0x8
  const CACHEDISABLE: bv64 := 0x10
  const LARGEPAGE: bv64 := 0x80
  const NOEXEC: bv64 := 0x8000_0000_0000_0000
  const ADDR_MASK: bv64 := 0x000f_ffff_ffff_f000

  function When(x: bool, flag: bv64): bv64 { if x then flag else 0 }

  /** The word the leaf arm writes. WRITECOMPLETE is both cache bits. */
  function LeafWord(phys: bv64, large: bool, a: Attrs): bv64 {
    (phys & ADDR_MASK)
    | (PRESENT | When(a.write, WRITE) | When(a.noexec, NOEXEC) | When(a.pwt, WRITETHROUGH) | When(a.pcd, CACHEDISABLE)
       | When(a.user, USER) | When(large, LARGEPAGE))
  }

  /** The word that hangs a table. */
  function TableWord(n: bv64): bv64 {
    (n & ADDR_MASK) | PRESENT | WRITE | USER
  }

  predicate Set(w: bv64, flag: bv64) { w & flag != 0 }

  function AttrsOf(w: bv64): Attrs {
    Attrs(Set(w, WRITE), Set(w, USER), Set(w, NOEXEC), Set(w, WRITETHROUGH), Set(w, CACHEDISABLE))
  }

  /** The parts of a word that hold an address: bit 12, bits 13 to 20, 21 to 29 and 30
      to 51, which are what a 4 KiB, 2 MiB and 1 GiB page tell apart. */
  function Bit12(w: bv64): bv1 { ((w >> 12) & 1) as bv1 }

  function To20(w: bv64): bv8 { ((w >> 13) & 0xff) as bv8 }

  function To29(w: bv64): bv9 { ((w >> 21) & 0x1ff) as bv9 }

  function To51(w: bv64): bv22 { ((w >> 30) & 0x3f_ffff) as bv22 }

  function Above(w: bv64): bv12 { (w >> 52) as bv12 }

  function Below(w: bv64): bv12 { (w & 0xfff) as bv12 }

  /** Their numbers. */
  function N12(w: bv64): nat { Bit12(w) as nat }

  function N20(w: bv64): nat { To20(w) as nat }

  function N29(w: bv64): nat { To29(w) as nat }

  function N51(w: bv64): nat { To51(w) as nat }

  /** The page number in the middle of a word. */
  function Page(w: bv64): nat {
    N51(w) * 0x4_0000 + N29(w) * 0x200 + N20(w) * 2 + N12(w)
  }

  /** The number a word stands for. */
  function Value(w: bv64): nat {
    Above(w) as nat * 0x10_0000_0000_0000 + Page(w) * 0x1000 + Below(w) as nat
  }

  /** The entry a word stands for. */
  function EntryOf(w: bv64): Entry {
    Entry(Set(w, PRESENT), Page(w) * 0x1000, Set(w, LARGEPAGE), AttrsOf(w))
  }

  lemma PageOf(w: bv64)
    ensures Page(w) * 0x1000 == Mask(Value(w))
  {
    hide Page, Above, Below, Mask;
    PageFits(w);
    PageIn(Above(w) as nat, Page(w), Below(w) as nat);
  }

  lemma PageFits(w: bv64)
    ensures Page(w) < 0x100_0000_0000
  {
    hide N51, N29, N20, N12;
    ZeroParts(w);
  }

  lemma PageIn(t: nat, p: nat, o: nat)
    requires p < 0x100_0000_0000 && o < 0x1000
    ensures Mask(t * 0x10_0000_0000_0000 + p * 0x1000 + o) == p * 0x1000
  {
    assert (t * 0x10_0000_0000_0000 + p * 0x1000 + o) / 0x1000 == t * 0x100_0000_0000 + p;
  }

  /* ---- what the processor makes of the word of a leaf (section 4.5) ---- */

  /** Bit 12 of a large page, bit 7 of a small one. */
  predicate AttributeBit(w: bv64, lv: nat) { if lv < 3 then Bit12(w) != 0 else Set(w, LARGEPAGE) }

  /** Bits 13 to 20 of a 2 MiB page, 13 to 29 of a 1 GiB page. */
  predicate ReservedBits(w: bv64, lv: nat) { (lv < 3 && To20(w) != 0) || (lv < 2 && To29(w) != 0) }

  /** Reading the entry is reading the word's own bits. */
  lemma ReadsWord(w: bv64, lv: nat, v: nat)
    requires 1 <= lv <= 3 && Set(w, PRESENT)
    ensures var x := Read(Stop(lv, EntryOf(w)), v);
      && (x == None <==> ReservedBits(w, lv))
      && (x.Some? ==> x.value.pat == AttributeBit(w, lv) && x.value.attrs == AttrsOf(w))
  {
    hide To29, To20, Bit12, N51, N29, N20, N12, Set, AttrsOf, Read, Rem;
    ZeroParts(w);
    PageParts(N51(w), N29(w), N20(w), N12(w));
    ReadParts(Stop(lv, EntryOf(w)), v, N29(w), N20(w), N12(w));
  }

  lemma ReadParts(s: Stop, v: nat, b: nat, c: nat, d: nat)
    requires 1 <= s.lv <= 3 && s.entry.present && d < 2
    requires Rem(s.entry.addr, 2) == c * 0x2000 + d * 0x1000
    requires Rem(s.entry.addr, 1) == b * 0x20_0000 + c * 0x2000 + d * 0x1000
    ensures Read(s, v) == None <==> (s.lv < 3 && c != 0) || (s.lv < 2 && b != 0)
    ensures Read(s, v).Some? ==>
      Read(s, v).value.pat == (if s.lv < 3 then d != 0 else s.entry.large) && Read(s, v).value.attrs == s.entry.attrs
  {
    hide Rem;
  }

  lemma ZeroParts(w: bv64)
    ensures N29(w) == 0 <==> To29(w) == 0
    ensures N20(w) == 0 <==> To20(w) == 0
    ensures N12(w) == 0 <==> Bit12(w) == 0
    ensures N12(w) < 2 && N20(w) < 0x100 && N29(w) < 0x200 && N51(w) < 0x40_0000
  {
    hide To51, To29, To20, Bit12;
  }

  lemma PageParts(a: nat, b: nat, c: nat, d: nat)
    requires d < 2 && c < 0x100 && b < 0x200
    ensures var addr := (a * 0x4_0000 + b * 0x200 + c * 2 + d) * 0x1000;
      && Rem(addr, 2) == c * 0x2000 + d * 0x1000
      && Rem(addr, 1) == b * 0x20_0000 + c * 0x2000 + d * 0x1000
  {
    var addr := (a * 0x4_0000 + b * 0x200 + c * 2 + d) * 0x1000;
    Quotient(addr, 0x20_0000, a * 0x200 + b, c * 0x2000 + d * 0x1000);
    Quotient(addr, 0x4000_0000, a, b * 0x20_0000 + c * 0x2000 + d * 0x1000);
  }

  /** The address parts of two words are the same. */
  predicate SamePage(w: bv64, x: bv64) {
    Bit12(w) == Bit12(x) && To20(w) == To20(x) && To29(w) == To29(x) && To51(w) == To51(x)
  }

  /** Every field of a leaf reads back as it was written, whatever the address. */
  lemma LeafReadsBack(phys: bv64, large: bool, a: Attrs)
    ensures var w := LeafWord(phys, large, a);
      Set(w, PRESENT) && Set(w, LARGEPAGE) == large && SamePage(w, phys) && AttrsOf(w) == a
  {
  }

  /** A word that hangs a table reads as a present entry that is no leaf and allows
      everything. */
  lemma TableReadsBack(n: bv64)
    ensures var w := TableWord(n);
      Set(w, PRESENT) && !Set(w, LARGEPAGE) && SamePage(w, n) && AttrsOf(w) == OPEN
  {
  }

  /** The word of a leaf bit by bit, as section 4.5 of the Intel SDM, Volume 3A, numbers
      them: present 0, write 1, user 2, the cache bits 3 and 4, page size 7, no-execute 63. */
  lemma LeafBits(phys: bv64, large: bool, perms: bv32)
    ensures var w := LeafWord(phys, large, LeafAttrs(perms));
      && w & 0x1 == 0x1 && w & 0x7ff0_0000_0000_0f60 == 0
      && (w & 0x2 == 0x2 <==> perms & 0x1 == 0x1)
      && (w & 0x4 == 0x4 <==> perms & 0x800 == 0x800)
      && (w & 0x8000_0000_0000_0000 == 0 <==> perms & 0x2 == 0x2)
      && (w & 0x80 == 0x80 <==> large)
      && w & 0x18 == (if perms & 0x4 == 0x4 then 0x8 else if perms & 0x20 == 0x20 then 0x10
                      else if perms & 0x10 == 0x10 then 0x18 else 0)
      && w & 0xf_ffff_ffff_f000 == phys & 0xf_ffff_ffff_f000
  {
  }

  /** The word of a table: present, writable, for the user, and its address. */
  lemma TableBits(n: bv64)
    ensures TableWord(n) == (n & 0xf_ffff_ffff_f000) | 0x7
  {
  }

  /** So the words the code writes are the entries of the model. */
  lemma WordsAreEntries(phys: bv64, large: bool, a: Attrs)
    ensures EntryOf(LeafWord(phys, large, a)) == Entry(true, Mask(Value(phys)), large, a)
    ensures EntryOf(TableWord(phys)) == Entry(true, Mask(Value(phys)), false, OPEN)
    ensures EntryOf(0) == EMPTY
  {
    hide To51, To29, To20, Bit12, Value, LeafWord, TableWord, Mask;
    LeafReadsBack(phys, large, a);
    TableReadsBack(phys);
    PageOf(phys);
    ZeroWord();
  }

  lemma ZeroWord()
    ensures EntryOf(0) == EMPTY
  {
    assert To51(0) == 0 && To29(0) == 0 && To20(0) == 0 && Bit12(0) == 0;
  }
}
