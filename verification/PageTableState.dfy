/** Page directory and page table words: addresses split and joined, entries encoded and decoded. */
module PageTableState {
  import opened Common
  import opened BitWords

  const PTE_ADDR: nat := 0xFFFF_F000
  const PTE_P: nat := 0x1
  const PTE_W: nat := 0x2
  const PTE_U: nat := 0x4
  const PTE_A: nat := 0x20
  const PTE_D: nat := 0x40

  // ----- addresses -----

  function PdNo(va: nat): nat {
    va / 0x40_0000
  }

  function PtNo(va: nat): nat {
    And(va, 0x3F_F000) / 4096
  }

  function PgOfs(va: nat): nat {
    And(va, 0xFFF)
  }

  function PageNo(va: nat): nat {
    va / 4096
  }

  /** The address with these three parts. */
  function Address(pd: nat, pt: nat, ofs: nat): nat {
    pd * 0x40_0000 + pt * 4096 + ofs
  }

  /** The masks pick out the table index and the offset. */
  lemma AddressParts(va: nat)
    ensures PtNo(va) == va / 4096 % 1024 && PgOfs(va) == va % 4096
  {
    assert PtNo(va) == va / 4096 % 1024 by { TableIndex(va); }
    assert PgOfs(va) == va % 4096 by { Offset(va); }
  }

  lemma TableIndex(va: nat)
    ensures PtNo(va) == va / 4096 % 1024
  {
    AndHigh(va, 1023);
    PageParts(va);
    ShlTen(1);
    MaskLow(va / 4096, 10);
    TenParts(va / 4096);
  }

  lemma Offset(va: nat)
    ensures PgOfs(va) == va % 4096
  {
    ShlPage(1);
    MaskLow(va, 12);
    PageParts(va);
  }

  /** Splitting a 32-bit address and joining parts are inverse to each other. */
  lemma SplitJoin(va: nat)
    requires va < WORD
    ensures PdNo(va) < 1024 && PtNo(va) < 1024 && PgOfs(va) < 4096
    ensures Address(PdNo(va), PtNo(va), PgOfs(va)) == va
  {
    AddressParts(va);
  }

  lemma JoinSplit(pd: nat, pt: nat, ofs: nat)
    requires pd < 1024 && pt < 1024 && ofs < 4096
    ensures var va := Address(pd, pt, ofs); va < WORD && PdNo(va) == pd && PtNo(va) == pt && PgOfs(va) == ofs
  {
    AddressParts(Address(pd, pt, ofs));
  }

  /** Two addresses lie in the same page exactly when both indices agree. */
  lemma SamePage(va: nat, vb: nat)
    requires va < WORD && vb < WORD
    ensures PageNo(va) == PageNo(vb) <==> PdNo(va) == PdNo(vb) && PtNo(va) == PtNo(vb)
  {
    PageIndices(va);
    PageIndices(vb);
  }

  lemma PageIndices(va: nat)
    ensures PageNo(va) == 1024 * PdNo(va) + PtNo(va) && PtNo(va) < 1024
  {
    AddressParts(va);
  }

  // ----- entries -----

  function Vtop(k: nat): nat
    requires k >= PHYS_BASE
  {
    k - PHYS_BASE
  }

  function PdeCreate(pt: nat): nat
    requires pt >= PHYS_BASE
  {
    Or(Or(Or(Vtop(pt), PTE_U), PTE_P), PTE_W)
  }

  function PteCreateUser(page: nat, writable: bool): nat
    requires page >= PHYS_BASE
  {
    Or(Or(Or(Vtop(page), PTE_P), if writable then PTE_W else 0), PTE_U)
  }

  /** pte_get_page, and pde_get_pt of a directory entry. */
  function PteGetPage(w: nat): nat {
    And(w, PTE_ADDR) + PHYS_BASE
  }

  lemma MaskPages(w: nat, m: nat, n: nat)
    requires m + 1 == Shl(1, n) && w / 4096 <= m
    ensures And(w, 4096 * m) == 4096 * (w / 4096)
  {
    AndHigh(w, m);
    PageParts(w);
    MaskAll(w / 4096, m, n);
  }

  lemma AddressOnly(w: nat)
    requires w < WORD
    ensures And(w, PTE_ADDR) == w - w % 4096
  {
    ShlTwenty(1);
    MaskPages(w, 0xF_FFFF, 20);
  }

  /** What a page table entry says. */
  datatype Entry = Entry(page: nat, present: bool, writable: bool, user: bool, accessed: bool, dirty: bool)

  function Decode(w: nat): Entry {
    Entry(PteGetPage(w), Bit(w, 0), Bit(w, 1), Bit(w, 2), Bit(w, 5), Bit(w, 6))
  }

  lemma PageOf(w: nat)
    requires w < WORD
    ensures Decode(w).page == w - w % 4096 + PHYS_BASE
  {
    AddressOnly(w);
  }

  // ----- flags -----

  lemma FlagsStaySmall(f: nat, m: nat)
    requires f < 4096 && m < 4096
    ensures Or(f, m) < 4096 && AndNot(f, m) < 4096
  {
    PageBound();
    WordBounds(f, m, 12);
  }

  lemma PageBound()
    ensures Pow2(12) == 4096
  {
    assert Pow2(6) == 64;
  }

  lemma Rejoin(w: nat, w': nat, r: nat)
    requires w < WORD && r < 4096 && w' == 4096 * (w / 4096) + r
    ensures w' < WORD && w' - w' % 4096 == w - w % 4096
  {
  }

  lemma OrFlag(w: nat, m: nat)
    requires w < WORD && m < 4096
    ensures Or(w, m) < WORD && Or(w, m) - Or(w, m) % 4096 == w - w % 4096
  {
    Rejoin(w, Or(w, m), Or(w % 4096, m)) by {
      OrLow(w, m);
      PageParts(w);
      FlagsStaySmall(w % 4096, m);
    }
  }

  lemma AndNotFlag(w: nat, m: nat)
    requires w < WORD && m < 4096
    ensures AndNot(w, m) < WORD && AndNot(w, m) - AndNot(w, m) % 4096 == w - w % 4096
  {
    Rejoin(w, AndNot(w, m), AndNot(w % 4096, m)) by {
      AndNotLow(w, m);
      PageParts(w);
      FlagsStaySmall(w % 4096, m);
    }
  }

  lemma FlagBits()
    ensures PTE_P == Pow2(0) && PTE_W == Pow2(1) && PTE_U == Pow2(2) && PTE_A == Pow2(5) && PTE_D == Pow2(6)
  {
  }

  lemma SetFlag(w: nat, k: nat, j: nat)
    ensures Bit(Or(w, Pow2(k)), j) <==> Bit(w, j) || j == k
  {
    OrBit(w, Pow2(k), j);
    PowBit(k, j);
  }

  lemma ClearFlag(w: nat, k: nat, j: nat)
    ensures Bit(AndNot(w, Pow2(k)), j) <==> Bit(w, j) && j != k
  {
    AndNotBit(w, Pow2(k), j);
    PowBit(k, j);
  }

  /** Setting a flag changes that flag of the entry and nothing else. */
  lemma DecodeSet(w: nat, k: nat)
    requires w < WORD && k < 12
    ensures Or(w, Pow2(k)) < WORD
    ensures var d, e := Decode(w), Decode(Or(w, Pow2(k)));
            && e.page == d.page && e.present == (d.present || k == 0) && e.writable == (d.writable || k == 1)
            && e.user == (d.user || k == 2) && e.accessed == (d.accessed || k == 5) && e.dirty == (d.dirty || k == 6)
  {
    FlagSmall(k);
    OrFlag(w, Pow2(k));
    PageOf(w);
    PageOf(Or(w, Pow2(k)));
    SetFlag(w, k, 0);
    SetFlag(w, k, 1);
    SetFlag(w, k, 2);
    SetFlag(w, k, 5);
    SetFlag(w, k, 6);
  }

  /** Clearing a flag changes that flag of the entry and nothing else. */
  lemma DecodeClear(w: nat, k: nat)
    requires w < WORD && k < 12
    ensures AndNot(w, Pow2(k)) < WORD
    ensures var d, e := Decode(w), Decode(AndNot(w, Pow2(k)));
            && e.page == d.page && e.present == (d.present && k != 0) && e.writable == (d.writable && k != 1)
            && e.user == (d.user && k != 2) && e.accessed == (d.accessed && k != 5) && e.dirty == (d.dirty && k != 6)
  {
    FlagSmall(k);
    AndNotFlag(w, Pow2(k));
    PageOf(w);
    PageOf(AndNot(w, Pow2(k)));
    ClearFlag(w, k, 0);
    ClearFlag(w, k, 1);
    ClearFlag(w, k, 2);
    ClearFlag(w, k, 5);
    ClearFlag(w, k, 6);
  }

  lemma FlagSmall(k: nat)
    requires k < 12
    ensures Pow2(k) < 4096
  {
    Pow2Monotonic(k + 1, 12);
    PageBound();
  }

  /** A page-aligned kernel address of low memory. */
  predicate KernelPage(page: nat) {
    page % 4096 == 0 && PHYS_BASE <= page < WORD
  }

  lemma DecodeZero(a: nat)
    requires a % 4096 == 0 && a < WORD
    ensures Decode(a) == Entry(a + PHYS_BASE, false, false, false, false, false)
  {
    PageOf(a);
    AlignedBits(a, 0);
    AlignedBits(a, 1);
    AlignedBits(a, 2);
    AlignedBits(a, 5);
    AlignedBits(a, 6);
  }

  lemma {:induction false} AlignedBits(a: nat, k: nat)
    requires k < 12 && a % 4096 == 0
    ensures !Bit(a, k)
  {
    LowBit(a, k, 12);
    PageParts(a);
    ZeroBit(k);
  }

  /** Low bits of a word are the bits of its low part. */
  lemma {:induction false} LowBit(w: nat, k: nat, n: nat)
    requires k < n
    ensures Bit(w, k) <==> Bit(Low(w, n), k)
    decreases n
  {
    var l := Low(w / 2, n - 1);
    assert (w % 2 + 2 * l) / 2 == l && (w % 2 + 2 * l) % 2 == w % 2;
    if k > 0 {
      LowBit(w / 2, k - 1, n - 1);
    }
  }

  /** A user entry decodes to the page and flags it was made from. */
  lemma EntryRoundTrip(page: nat, writable: bool)
    requires KernelPage(page)
    ensures PteCreateUser(page, writable) < WORD
    ensures Decode(PteCreateUser(page, writable)) == Entry(page, true, writable, true, false, false)
  {
    FlagBits();
    var a := Vtop(page);
    DecodeZero(a);
    DecodeSet(a, 0);
    var b := Or(a, PTE_P);
    DecodeSet(b, 1);
    WithZero(b);
    var c := Or(b, if writable then PTE_W else 0);
    DecodeSet(c, 2);
  }

  /** A directory entry leads back to the table it was made from, and is not zero. */
  lemma DirectoryRoundTrip(pt: nat)
    requires KernelPage(pt)
    ensures PdeCreate(pt) != 0 && PteGetPage(PdeCreate(pt)) == pt && Bit(PdeCreate(pt), 0)
    ensures Decode(PdeCreate(pt)) == Entry(pt, true, true, true, false, false)
  {
    FlagBits();
    var a := Vtop(pt);
    DecodeZero(a);
    DecodeSet(a, 2);
    DecodeSet(Or(a, PTE_U), 0);
    DecodeSet(Or(Or(a, PTE_U), PTE_P), 1);
    ZeroBit(0);
  }
}
