/**
 * The page table of the translator without replacement (fifo.c): one entry per
 * page number holding the frame and a valid bit.
 */
module FifoPageTable {
  import opened Decoder

  datatype PageEntry = PageEntry(frNum: u8, valid: bool)

  /** `create_page_entry(fr)`: an invalid entry. */
  function CreatePageEntry(fr: u8): PageEntry
  {
    PageEntry(fr, false)
  }

  /** `init_page_table`: `NUMPAGES` entries made by `create_page_entry(0)`. */
  method InitPageTable() returns (pt: array<PageEntry>)
    ensures fresh(pt) && pt.Length == NUMPAGES
    ensures forall i :: 0 <= i < NUMPAGES ==> pt[i] == PageEntry(0, false)
  {
    pt := new PageEntry[NUMPAGES];
    var i := 0;
    while i < NUMPAGES
      invariant 0 <= i <= NUMPAGES
      invariant forall j :: 0 <= j < i ==> pt[j] == PageEntry(0, false)
    {
      pt[i] := CreatePageEntry(0);
      i := i + 1;
    }
  }

  /** The page numbers whose entries are valid. */
  ghost function ValidPages(pt: seq<PageEntry>): set<int>
  {
    set p | 0 <= p < |pt| && pt[p].valid
  }

  /** Writing one entry adds its page to the valid set or removes it. */
  lemma ValidPagesUpdate(pt: seq<PageEntry>, p: int, e: PageEntry)
    requires 0 <= p < |pt|
    ensures ValidPages(pt[p := e]) == if e.valid then ValidPages(pt) + {p} else ValidPages(pt) - {p}
  {
  }
}
