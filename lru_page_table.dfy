/**
 * The page table of the LRU translator and its replacement policy: one entry
 * per page number holding the frame, a valid bit and the logical time of the
 * page's last use, plus the scans that pick the first valid entry and the
 * least recently used one.
 */
module LruPageTable {
  import opened Decoder

  /** `last_used` is an `unsigned long long`; its wrap-around at 2^64 is not modelled. */
  datatype PageEntry = PageEntry(frNum: u8, valid: bool, lastUsed: nat)

  /** `create_page_entry(fr)`: an invalid entry that was never used. */
  function CreatePageEntry(fr: u8): PageEntry
  {
    PageEntry(fr, false, 0)
  }

  /** `init_page_table`: `NUMPAGES` entries made by `create_page_entry(0)`. */
  method InitPageTable() returns (pt: array<PageEntry>)
    ensures fresh(pt) && pt.Length == NUMPAGES
    ensures forall i :: 0 <= i < NUMPAGES ==> pt[i] == PageEntry(0, false, 0)
  {
    pt := new PageEntry[NUMPAGES];
    var i := 0;
    while i < NUMPAGES
      invariant 0 <= i <= NUMPAGES
      invariant forall j :: 0 <= j < i ==> pt[j] == PageEntry(0, false, 0)
    {
      pt[i] := CreatePageEntry(0);
      i := i + 1;
    }
  }

  /** The page numbers whose entries are valid. */
  ghost function ValidPages(pt: seq<PageEntry>): set<int>
  {
    set p | 0 <= p < |pt| && pt[p].valid
  }

  /** Writing one entry adds its page to the valid set or removes it. */
  lemma ValidPagesUpdate(pt: seq<PageEntry>, p: int, e: PageEntry)
    requires 0 <= p < |pt|
    ensures ValidPages(pt[p := e]) == if e.valid then ValidPages(pt) + {p} else ValidPages(pt) - {p}
  {
  }

  predicate HasValid(pt: seq<PageEntry>)
  {
    exists p :: 0 <= p < |pt| && pt[p].valid
  }

  /** Index of the first valid entry at or after `k`, or -1. */
  function FirstValidFrom(pt: seq<PageEntry>, k: nat): (r: int)
    requires k <= |pt|
    ensures -1 <= r < |pt|
    ensures r >= 0 ==> k <= r && pt[r].valid && forall j :: k <= j < r ==> !pt[j].valid
    ensures r == -1 <==> forall j :: k <= j < |pt| ==> !pt[j].valid
    decreases |pt| - k
  {
    if k == |pt| then -1
    else if pt[k].valid then k
    else FirstValidFrom(pt, k + 1)
  }

  /** What `find_first_valid` returns: the least valid index, or -1 when none is valid. */
  function FirstValid(pt: seq<PageEntry>): (r: int)
    ensures -1 <= r < |pt|
    ensures r >= 0 ==> pt[r].valid && forall j :: 0 <= j < r ==> !pt[j].valid
    ensures r == -1 <==> !HasValid(pt)
  {
    FirstValidFrom(pt, 0)
  }

  /** `find_first_valid`: a scan from index 0 that stops at the first valid entry. */
  method FindFirstValid(pt: array<PageEntry>) returns (r: int)
    ensures r == FirstValid(pt[..])
  {
    var i := 0;
    while i < pt.Length
      invariant 0 <= i <= pt.Length
      invariant FirstValidFrom(pt[..], i) == FirstValid(pt[..])
    {
      if pt[i].valid {
        return i;
      }
      i := i + 1;
    }
    return -1;
  }

  /**
   * `m` is the victim `find_lru` must pick: a valid entry whose `last_used` is no
   * larger than that of any valid entry, and strictly smaller than that of every
   * valid entry before it (ties go to the lowest index).
   */
  predicate IsLruVictim(pt: seq<PageEntry>, m: int)
  {
    && 0 <= m < |pt| && pt[m].valid
    && (forall j :: 0 <= j < |pt| && pt[j].valid ==> pt[m].lastUsed <= pt[j].lastUsed)
    && (forall j :: 0 <= j < m && pt[j].valid ==> pt[m].lastUsed < pt[j].lastUsed)
  }

  /** `m` is the victim among the entries before `i`. */
  predicate IsLruVictimBelow(pt: seq<PageEntry>, i: nat, m: int)
  {
    && 0 <= m < |pt| && pt[m].valid
    && (forall j :: 0 <= j < i && j < |pt| && pt[j].valid ==> pt[m].lastUsed <= pt[j].lastUsed)
    && (forall j :: 0 <= j < m && pt[j].valid ==> pt[m].lastUsed < pt[j].lastUsed)
  }

  /**
   * The loop of `find_lru` from index `i` on, with `m` the current minimum: an
   * entry replaces it only if it is valid and strictly less recently used.
   */
  function LruScan(pt: seq<PageEntry>, i: nat, m: int): (r: int)
    requires i <= |pt|
    requires IsLruVictimBelow(pt, i, m)
    ensures IsLruVictim(pt, r)
    decreases |pt| - i
  {
    if i == |pt| then m
    else if pt[i].lastUsed < pt[m].lastUsed && pt[i].valid then LruScan(pt, i + 1, i)
    else LruScan(pt, i + 1, m)
  }

  /** What `find_lru` returns: the scan from index 1, seeded with the first valid entry. */
  function LruVictim(pt: seq<PageEntry>): (r: int)
    requires HasValid(pt)
    ensures IsLruVictim(pt, r)
  {
    LruScan(pt, 1, FirstValid(pt))
  }

  /** The victim is determined by its defining property. */
  lemma LruVictimUnique(pt: seq<PageEntry>, m: int)
    requires HasValid(pt)
    requires IsLruVictim(pt, m)
    ensures m == LruVictim(pt)
  {
  }

  /**
   * `find_lru`: starts from the first valid entry and scans indices 1 to 255,
   * keeping the entry with the strictly smallest `last_used` among valid ones.
   * The C code reads `pageTable[-1]` when no entry is valid, so callers must
   * ensure one is.
   */
  method FindLru(pt: array<PageEntry>) returns (minIdx: int)
    requires HasValid(pt[..])
    ensures IsLruVictim(pt[..], minIdx)
    ensures minIdx == LruVictim(pt[..])
  {
    minIdx := FindFirstValid(pt);
    var minLastUsed := pt[minIdx].lastUsed;
    var i := 1;
    while i < pt.Length
      invariant 1 <= i <= pt.Length
      invariant IsLruVictimBelow(pt[..], i, minIdx)
      invariant minLastUsed == pt[minIdx].lastUsed
    {
      var currPage := pt[i];
      if currPage.lastUsed < minLastUsed && currPage.valid {
        minLastUsed := currPage.lastUsed;
        minIdx := i;
      }
      i := i + 1;
    }
    LruVictimUnique(pt[..], minIdx);
  }

  /**
   * `should_replace(framePtr)`: the next free frame index is outside
   * `0 .. numFrames - 1`, so a victim must be evicted.
   */
  function ShouldReplace(framePtr: int, numFrames: nat): (b: bool)
    ensures b <==> !(0 <= framePtr < numFrames)
  {
    framePtr < 0 || framePtr > numFrames - 1
  }
}
