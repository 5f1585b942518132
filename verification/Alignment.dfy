/** The flash driver's alignments: double-words of eight bytes, pages of 512. */
module Alignment {
  const DWORD := 8
  const PAGE := 512

  /** `Get_align(address, sizeof(uint64_t))` */
  function Phase(address: nat): (p: nat)
    ensures p < DWORD
  {
    address % DWORD
  }

  predicate Aligned(address: nat) {
    Phase(address) == 0
  }

  /** `Align_down(address, sizeof(uint64_t))` */
  function DwordStart(address: nat): (a: nat)
    ensures a + Phase(address) == address
  {
    address - Phase(address)
  }

  /** The page an address lies in. */
  function PageOf(address: nat): (p: nat)
    ensures PAGE * p <= address < PAGE * p + PAGE
  {
    address / PAGE
  }

  /** `Align_down(address, FLASH_PAGE_SIZE)` */
  function PageStart(address: nat): (a: nat)
    ensures a == PAGE * PageOf(address)
  {
    PageStartIs(address);
    address - address % PAGE
  }

  /** `Test_align(address, FLASH_PAGE_SIZE)` */
  predicate PageAligned(address: nat) {
    address % PAGE == 0
  }

  lemma PageStartIs(address: nat)
    ensures address - address % PAGE == PAGE * (address / PAGE)
  {
  }

  lemma PageIs(address: nat, page: nat)
    requires PAGE * page <= address < PAGE * page + PAGE
    ensures PageOf(address) == page && address % PAGE == address - PAGE * page
  {
  }

  lemma PageAlignedIs(address: nat)
    ensures PageAligned(address) <==> address == PAGE * PageOf(address)
  {
  }

  lemma DwordStartAligned(address: nat)
    ensures Aligned(DwordStart(address))
    ensures Aligned(address) <==> DwordStart(address) == address
  {
  }

  lemma InDword(d: nat, k: nat)
    requires Aligned(d) && k < DWORD
    ensures Phase(d + k) == k && DwordStart(d + k) == d
  {
  }

  lemma NextAligned(d: nat)
    requires Aligned(d)
    ensures Aligned(d + DWORD)
  {
  }

  lemma Gap(a: nat, b: nat)
    requires Aligned(a) && Aligned(b) && a < b
    ensures a + DWORD <= b
  {
  }

  lemma PagesAligned(page: nat)
    ensures Aligned(PAGE * page) && Aligned(PAGE * page + PAGE)
  {
    assert PAGE * page == DWORD * (64 * page);
    assert PAGE * page + PAGE == DWORD * (64 * page + 64);
  }

  lemma DwordsOrdered(a: nat, b: nat)
    requires a <= b
    ensures DwordStart(a) <= DwordStart(b)
  {
    DwordStartAligned(a);
    DwordStartAligned(b);
    hide DwordStart, Aligned;
    if DwordStart(b) < DwordStart(a) {
      Gap(DwordStart(b), DwordStart(a));
    }
  }

  /** A double-word lies in one page. */
  lemma DwordInPage(address: nat)
    ensures PAGE * PageOf(address) <= DwordStart(address)
    ensures DwordStart(address) + DWORD <= PAGE * PageOf(address) + PAGE
  {
    var page, d := PageOf(address), DwordStart(address);
    PagesAligned(page);
    DwordStartAligned(address);
    hide *;
    if d < PAGE * page {
      Gap(d, PAGE * page);
    }
    Gap(d, PAGE * page + PAGE);
  }
}
