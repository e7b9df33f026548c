/** The two-level page table, written in place, as a map from page numbers to entries. */
module PageDirectory {
  import opened Common
  import opened BitWords
  import opened PageTableState

  /** The directory's words, and the words of the page tables by their kernel address. */
  datatype Dir = Dir(pd: seq<nat>, tables: map<nat, seq<nat>>)

  predicate TableOk(pt: seq<nat>) {
    |pt| == 1024 && forall i :: 0 <= i < 1024 ==> pt[i] < WORD
  }

  /** A directory word is zero or leads to a page table. */
  predicate PdeOk(d: Dir, w: nat) {
    w != 0 ==> KernelPage(PteGetPage(w)) && PteGetPage(w) in d.tables && Bit(w, 0)
  }

  predicate Valid(d: Dir) {
    && |d.pd| == 1024
    && (forall i :: 0 <= i < 1024 ==> PdeOk(d, d.pd[i]))
    && (forall i, j :: 0 <= i < j < 1024 && d.pd[i] != 0 && d.pd[j] != 0 ==> PteGetPage(d.pd[i]) != PteGetPage(d.pd[j]))
    && (forall t :: t in d.tables ==> TableOk(d.tables[t]))
  }

  /** The entry word of a page; a page without a table has the zero word. */
  function Word(d: Dir, n: nat): (w: nat)
    requires Valid(d) && n < 0x10_0000
    ensures w < WORD
  {
    assert PdeOk(d, d.pd[n / 1024]);
    if d.pd[n / 1024] == 0 then 0 else d.tables[PteGetPage(d.pd[n / 1024])][n % 1024]
  }

  predicate HasTable(d: Dir, n: nat)
    requires Valid(d) && n < 0x10_0000
  {
    d.pd[n / 1024] != 0
  }

  function Written(d: Dir, t: nat, i: nat, w: nat): Dir
    requires t in d.tables && i < |d.tables[t]|
  {
    var pt: seq<nat> := d.tables[t][i := w];
    d.(tables := d.tables[t := pt])
  }

  /** Writing one table word changes the entry of one page. */
  lemma WriteOne(d: Dir, m: nat, w: nat)
    requires Valid(d) && m < 0x10_0000 && HasTable(d, m) && w < WORD
    ensures var t := PteGetPage(d.pd[m / 1024]);
            && t in d.tables && Valid(Written(d, t, m % 1024, w))
            && forall n :: 0 <= n < 0x10_0000 ==> Word(Written(d, t, m % 1024, w), n) == if n == m then w else Word(d, n)
  {
    var t := PteGetPage(d.pd[m / 1024]);
    assert PdeOk(d, d.pd[m / 1024]);
    var d' := Written(d, t, m % 1024, w);
    assert TableOk(d.tables[t]);
    forall i | 0 <= i < 1024
      ensures PdeOk(d', d'.pd[i])
    {
      assert PdeOk(d, d.pd[i]);
    }
    forall n | 0 <= n < 0x10_0000
      ensures Word(d', n) == if n == m then w else Word(d, n)
    {
      assert PdeOk(d, d.pd[n / 1024]);
      SamePlace(n, m);
    }
  }

  lemma SamePlace(n: nat, m: nat)
    ensures n == m <==> n / 1024 == m / 1024 && n % 1024 == m % 1024
  {
  }

  function ZeroTable(): seq<nat> {
    seq(1024, _ => 0)
  }

  function WithTable(d: Dir, k: nat, t: nat): Dir
    requires k < |d.pd| && t >= PHYS_BASE
  {
    d.(pd := d.pd[k := PdeCreate(t)], tables := d.tables[t := ZeroTable()])
  }

  /** A new page table of zeros changes no page's entry. */
  lemma NewTable(d: Dir, k: nat, t: nat)
    requires Valid(d) && k < 1024 && d.pd[k] == 0 && KernelPage(t) && t !in d.tables
    ensures Valid(WithTable(d, k, t)) && PteGetPage(PdeCreate(t)) == t && PdeCreate(t) != 0
    ensures forall n :: 0 <= n < 0x10_0000 ==> Word(WithTable(d, k, t), n) == Word(d, n)
  {
    DirectoryRoundTrip(t);
    var d' := WithTable(d, k, t);
    forall i | 0 <= i < 1024
      ensures PdeOk(d', d'.pd[i]) && (i != k ==> d'.pd[i] == d.pd[i] && (d.pd[i] != 0 ==> PteGetPage(d.pd[i]) != t))
    {
      assert PdeOk(d, d.pd[i]);
    }
    forall n | 0 <= n < 0x10_0000
      ensures Word(d', n) == Word(d, n)
    {
      assert PdeOk(d, d.pd[n / 1024]) && PdeOk(d', d'.pd[n / 1024]);
    }
  }

  class PageDirectory {
    const pd: array<nat>
    var tables: map<nat, seq<nat>>

    ghost function State(): Dir
      reads this, pd
    {
      Dir(pd[..], tables)
    }

    /** Changes only the entry of one page. */
    ghost predicate Only(before: Dir, m: nat, w: nat)
      reads this, pd
    {
      && Valid(before) && Valid(State())
      && forall n :: 0 <= n < 0x10_0000 ==> Word(State(), n) == if n == m then w else Word(before, n)
    }

    /** Every page but one has the entry it had. */
    ghost predicate OthersKept(before: Dir, m: nat)
      reads this, pd
    {
      && Valid(before) && Valid(State())
      && forall n :: 0 <= n < 0x10_0000 && n != m ==> Word(State(), n) == Word(before, n)
    }

    /** A copy of the kernel's directory, whose page tables are shared. */
    constructor (kernel: Dir)
      requires Valid(kernel)
      ensures fresh(pd) && State() == kernel
    {
      pd := new nat[1024](i requires 0 <= i < 1024 => kernel.pd[i]);
      tables := kernel.tables;
      new;
      assert pd[..] == kernel.pd;
    }

    /** pagedir_create: kernel addresses are mapped as they are for the kernel and user addresses not at all. */
    static method Create(kernel: Dir, mem: bool) returns (r: Option<PageDirectory>)
      requires Valid(kernel) && forall n :: 0 <= n < PHYS_BASE / PGSIZE ==> Word(kernel, n) == 0
      ensures r.Some? <==> mem
      ensures r.Some? ==> fresh(r.value) && fresh(r.value.pd) && Valid(r.value.State())
      ensures r.Some? ==> forall n :: 0 <= n < 0x10_0000 ==>
                            Word(r.value.State(), n) == if n < PHYS_BASE / PGSIZE then 0 else Word(kernel, n)
    {
      if !mem {
        return None;
      }
      var d := new PageDirectory(kernel);
      r := Some(d);
    }

    /** lookup_page: where the page's entry is; makes the page table when asked to and there is memory. */
    method LookupPage(va: nat, create: bool, page: Option<nat>) returns (found: bool, t: nat, i: nat)
      requires Valid(State()) && va < WORD
      requires page.Some? ==> KernelPage(page.value) && page.value !in tables
      modifies this`tables, pd
      ensures Valid(State()) && forall n :: 0 <= n < 0x10_0000 ==> Word(State(), n) == Word(old(State()), n)
      ensures found <==> old(HasTable(State(), PageNo(va))) || (create && page.Some?)
      ensures found ==> HasTable(State(), PageNo(va)) && t == PteGetPage(pd[PageNo(va) / 1024]) && i == PageNo(va) % 1024 && t in tables
      ensures !found || !create ==> State() == old(State())
    {
      PageIndices(va);
      var k := PdNo(va);
      assert k == PageNo(va) / 1024 && k < 1024;
      if pd[k] == 0 {
        if !create || page.None? {
          return false, 0, 0;
        }
        NewTable(State(), k, page.value);
        ghost var before := State();
        tables := tables[page.value := ZeroTable()];
        pd[k] := PdeCreate(page.value);
        assert State() == WithTable(before, k, page.value);
      }
      assert PdeOk(State(), pd[k]);
      found, t, i := true, PteGetPage(pd[k]), PtNo(va);
    }

    method StoreWord(t: nat, i: nat, w: nat, ghost m: nat)
      requires Valid(State()) && m < 0x10_0000 && HasTable(State(), m) && w < WORD
      requires t == PteGetPage(pd[m / 1024]) && t in tables && i == m % 1024
      modifies this`tables
      ensures Only(old(State()), m, w)
    {
      WriteOne(State(), m, w);
      assert TableOk(tables[t]);
      var pt: seq<nat> := tables[t][i := w];
      tables := tables[t := pt];
    }

    /** pagedir_set_page */
    method SetPage(upage: nat, kpage: nat, writable: bool, page: Option<nat>) returns (ok: bool)
      requires Valid(State()) && upage < PHYS_BASE && upage % 4096 == 0 && KernelPage(kpage)
      requires page.Some? ==> KernelPage(page.value) && page.value !in tables
      requires !Bit(Word(State(), PageNo(upage)), 0)
      modifies this`tables, pd
      ensures ok <==> old(HasTable(State(), PageNo(upage))) || page.Some?
      ensures ok ==> Only(old(State()), PageNo(upage), PteCreateUser(kpage, writable))
      ensures ok ==> Decode(Word(State(), PageNo(upage))) == Entry(kpage, true, writable, true, false, false)
      ensures !ok ==> State() == old(State())
    {
      EntryRoundTrip(kpage, writable);
      var found, t, i := LookupPage(upage, true, page);
      if found {
        StoreWord(t, i, PteCreateUser(kpage, writable), PageNo(upage));
      }
      ok := found;
    }

    /** pagedir_get_page: the mapped page's address plus the offset, when the page is present. */
    method GetPage(uaddr: nat) returns (r: Option<nat>)
      requires Valid(State()) && uaddr < PHYS_BASE
      ensures var e := Decode(Word(State(), PageNo(uaddr)));
              r == if e.present then Some(e.page + uaddr % 4096) else None
    {
      AddressParts(uaddr);
      var w := ReadWord(uaddr);
      TestBit(w, 0);
      FlagBits();
      r := if And(w, PTE_P) != 0 then Some(PteGetPage(w) + PgOfs(uaddr)) else None;
    }

    /** The entry word found by lookup_page, or zero. */
    method ReadWord(va: nat) returns (w: nat)
      requires Valid(State()) && va < WORD
      ensures w == Word(State(), PageNo(va))
    {
      PageIndices(va);
      var k := PdNo(va);
      assert PdeOk(State(), pd[k]);
      w := 0;
      if pd[k] != 0 {
        assert TableOk(tables[PteGetPage(pd[k])]);
        w := tables[PteGetPage(pd[k])][PtNo(va)];
      }
    }

    /** pagedir_clear_page: the page stops being present; its frame and other flags stay. */
    method ClearPage(upage: nat)
      requires Valid(State()) && upage < PHYS_BASE && upage % 4096 == 0
      modifies this`tables, pd
      ensures Valid(State()) && OthersKept(old(State()), PageNo(upage))
      ensures Decode(Word(State(), PageNo(upage))) == old(Decode(Word(State(), PageNo(upage)))).(present := false)
    {
      var w := ReadWord(upage);
      FlagBits();
      TestBit(w, 0);
      DecodeClear(w, 0);
      if And(w, PTE_P) != 0 {
        ZeroBit(0);
        ChangeWord(upage, AndNot(w, PTE_P));
      }
    }

    /** Rewrites the entry word of a page that has a page table. */
    method ChangeWord(va: nat, w: nat)
      requires Valid(State()) && va < WORD && HasTable(State(), PageNo(va)) && w < WORD
      modifies this`tables, pd
      ensures Only(old(State()), PageNo(va), w)
      ensures pd[..] == old(pd[..])
    {
      var found, t, i := LookupPage(va, false, None);
      StoreWord(t, i, w, PageNo(va));
    }

    method HasEntry(va: nat) returns (yes: bool)
      requires Valid(State()) && va < WORD
      ensures yes <==> HasTable(State(), PageNo(va))
    {
      PageIndices(va);
      yes := pd[PdNo(va)] != 0;
    }

    /** pagedir_is_accessed and pagedir_is_dirty, for bits 5 and 6. */
    method IsFlagged(va: nat, k: nat) returns (yes: bool)
      requires Valid(State()) && va < WORD
      ensures yes <==> Bit(Word(State(), PageNo(va)), k)
    {
      var w := ReadWord(va);
      TestBit(w, k);
      yes := And(w, Pow2(k)) != 0;
    }

    /** pagedir_set_accessed and pagedir_set_dirty, for bits 5 and 6: one bit of one page, if it has a table. */
    method SetFlagged(va: nat, k: nat, on: bool)
      requires Valid(State()) && va < WORD && (k == 5 || k == 6)
      modifies this`tables, pd
      ensures Valid(State()) && OthersKept(old(State()), PageNo(va))
      ensures var d, e := old(Decode(Word(State(), PageNo(va)))), Decode(Word(State(), PageNo(va)));
              if !old(HasTable(State(), PageNo(va))) then e == d
              else if k == 5 then e == d.(accessed := on) else e == d.(dirty := on)
    {
      var present := HasEntry(va);
      if present {
        var w := ReadWord(va);
        if on {
          DecodeSet(w, k);
          ChangeWord(va, Or(w, Pow2(k)));
        } else {
          DecodeClear(w, k);
          ChangeWord(va, AndNot(w, Pow2(k)));
        }
      }
    }

    /** A page that has been set is found at every one of its addresses. */
    method SetThenGet(upage: nat, kpage: nat, writable: bool, page: Option<nat>, ofs: nat) returns (ok: bool, r: Option<nat>)
      requires Valid(State()) && upage < PHYS_BASE && upage % 4096 == 0 && KernelPage(kpage) && ofs < 4096
      requires page.Some? ==> KernelPage(page.value) && page.value !in tables
      requires !Bit(Word(State(), PageNo(upage)), 0)
      modifies this`tables, pd
      ensures ok ==> r == Some(kpage + ofs)
    {
      ok := SetPage(upage, kpage, writable, page);
      r := GetPage(upage + ofs);
    }
  }
}
