/**
 * The LRU translator of lru.c as an object: the page table, the cache and the
 * physical frames are arrays updated in place, and the cursors, statistics and
 * logical clock are fields. Each method is proved to do what module LruSpec
 * says one iteration, or the whole loop, does.
 */
module LruMmu {
  import opened Decoder
  import opened Memory
  import opened Tlb
  import opened LruPageTable
  import opened LruSpec

  class Mmu {
    /** `NUMFRAMES`: 128 in lru.c. */
    const numFrames: nat
    /** The contents of the backing store file. */
    const backing: BackingStore

    const pageTable: array<PageEntry>
    const tlb: array<TlbEntry>
    /** `memBlock->store`: one entry per physical frame. */
    const store: array<seq<byte>>

    var tlbPtr: int
    var framePtr: int
    var numTranslated: int
    var numPageFaults: int
    var tlbHits: int
    var counter: nat

    /** The state as module LruSpec describes it. */
    ghost function State(): LruState
      reads this, pageTable, tlb, store
    {
      LruState(pageTable[..], tlb[..], store[..], tlbPtr, framePtr, numTranslated, numPageFaults, tlbHits, counter)
    }

    ghost predicate Valid()
      reads this, pageTable, tlb, store
    {
      Inv(State(), numFrames, backing)
    }

    /** The set-up in `main` before the loop: the three tables and zeroed counters. */
    constructor (numFrames: nat, backing: BackingStore)
      requires 1 <= numFrames <= NUMPAGES
      ensures Valid() && State() == Init(numFrames)
      ensures this.numFrames == numFrames && this.backing == backing
      ensures fresh(pageTable) && fresh(tlb) && fresh(store)
    {
      this.numFrames := numFrames;
      this.backing := backing;
      var pt := InitPageTable();
      var t := InitTlb();
      pageTable := pt;
      tlb := t;
      store := new seq<byte>[numFrames](_ => []);
      tlbPtr, framePtr := 0, 0;
      numTranslated, numPageFaults, tlbHits := 0, 0, 0;
      counter := 0;
      new;
      assert pageTable[..] == Init(numFrames).pageTable;
      assert tlb[..] == Init(numFrames).tlb;
      assert store[..] == Init(numFrames).store;
      InitInv(numFrames, backing);
    }

    /**
     * The eviction in the page-fault branch (lru.c:88-96): invalidate the least
     * recently used valid page, clear it from the cache and give back its frame.
     */
    method EvictLru() returns (memLoc: int)
      requires pageTable.Length == NUMPAGES && HasValid(pageTable[..])
      modifies pageTable, tlb
      ensures var v := LruVictim(old(pageTable[..]));
              && memLoc == old(pageTable[v]).frNum
              && pageTable[..] == old(pageTable[..])[v := old(pageTable[v]).(valid := false)]
              && tlb[..] == ClearedTlb(old(tlb[..]), v)
    {
      var lruIdx := FindLru(pageTable);
      pageTable[lruIdx] := pageTable[lruIdx].(valid := false);
      memLoc := pageTable[lruIdx].frNum;
      ClearTlbEntry(tlb, lruIdx);
    }

    /**
     * The page-fault branch of the loop (lru.c:84-106): pick a frame, freeing
     * the least recently used page when none is free, and load the page into it.
     */
    method FaultIn(pg: u8)
      requires Valid() && !pageTable[pg].valid
      modifies this, pageTable, tlb, store
      ensures State() == Fault(old(State()), numFrames, backing, pg)
    {
      ghost var s := State();
      ghost var expected := Fault(s, numFrames, backing, pg);
      var memLoc := 0;
      if ShouldReplace(framePtr, numFrames) {
        FullMemoryHasValid(s, numFrames, backing);
        memLoc := EvictLru();
      } else {
        memLoc := framePtr;
      }
      assert expected.store == s.store[memLoc := backing(pg)];
      assert expected.pageTable == pageTable[..][pg := pageTable[pg].(frNum := memLoc, valid := true)];
      assert tlb[..] == expected.tlb;
      store[memLoc] := backing(pg);
      pageTable[pg] := pageTable[pg].(frNum := memLoc, valid := true);
      framePtr := framePtr + 1;
      numPageFaults := numPageFaults + 1;
      assert pageTable[..] == expected.pageTable;
      assert store[..] == expected.store;
    }

    /**
     * The cache-hit branch and the end of the iteration (lru.c:77-80 and
     * 113-117), given the frame `frNum` the cache returned: count the hit, touch
     * the page, read the byte.
     */
    method CountHit(la: LogAddr, frNum: u8) returns (t: Translation)
      requires pageTable.Length == NUMPAGES && frNum < store.Length && |store[frNum]| == FRAMESIZE
      modifies this, pageTable
      ensures (State(), t) == Hit(old(State()), la, frNum)
    {
      ghost var s := State();
      tlbHits := tlbHits + 1;
      pageTable[la.pgNum] := pageTable[la.pgNum].(lastUsed := counter);
      t := Translation(frNum * FRAMESIZE + la.pgOff, store[frNum][la.pgOff]);
      numTranslated := numTranslated + 1;
      counter := counter + 1;
      assert pageTable[..] == Hit(s, la, frNum).0.pageTable;
    }

    /**
     * The end of the cache-miss branch and of the iteration (lru.c:108-117),
     * once the page of `la` is valid: touch it, put it in slot `tlbPtr` of the
     * cache, advance `tlbPtr`, read the byte.
     */
    method RefillTlb(la: LogAddr) returns (t: Translation)
      requires pageTable.Length == NUMPAGES && 0 <= tlbPtr < tlb.Length
      requires pageTable[la.pgNum].frNum < store.Length && |store[pageTable[la.pgNum].frNum]| == FRAMESIZE
      modifies this, pageTable, tlb
      ensures (State(), t) == Refill(old(State()), la)
    {
      ghost var s := State();
      pageTable[la.pgNum] := pageTable[la.pgNum].(lastUsed := counter);
      var frNum := pageTable[la.pgNum].frNum;
      tlb[tlbPtr] := TlbEntry(la.pgNum, frNum);
      tlbPtr := (tlbPtr + 1) % TLBSIZE;
      t := Translation(frNum * FRAMESIZE + la.pgOff, store[frNum][la.pgOff]);
      numTranslated := numTranslated + 1;
      counter := counter + 1;
      assert pageTable[..] == Refill(s, la).0.pageTable;
      assert tlb[..] == Refill(s, la).0.tlb;
    }

    /** One iteration of the loop in `main` (lru.c:72-118) on the trace value `curr`. */
    method Translate(curr: u32) returns (t: Translation)
      requires Valid()
      modifies this, pageTable, tlb, store
      ensures Valid()
      ensures (State(), t) == Step(old(State()), numFrames, backing, curr)
    {
      ghost var s := State();
      var masked := MaskAddrRep(curr);
      var la := CreateLogAddr(masked);
      var buffQuery := QueryTlb(tlb, la.pgNum);
      if buffQuery != -1 {
        StepIsHit(s, numFrames, backing, curr);
        t := CountHit(la, AsU8(buffQuery));
      } else {
        if !pageTable[la.pgNum].valid {
          FaultIn(la.pgNum);
        }
        StepIsRefill(s, numFrames, backing, curr, State());
        t := RefillTlb(la);
      }
      StepInv(s, numFrames, backing, curr);
    }

    /** The loop in `main` over the whole trace, collecting what each line prints. */
    method Run(trace: seq<u32>) returns (out: seq<Translation>)
      requires Valid()
      modifies this, pageTable, tlb, store
      ensures Valid()
      ensures (State(), out) == RunTrace(old(State()), numFrames, backing, trace)
    {
      ghost var goal := RunTrace(State(), numFrames, backing, trace);
      out := [];
      var i := 0;
      while i < |trace|
        invariant 0 <= i <= |trace|
        invariant Valid()
        invariant RunTrace(State(), numFrames, backing, trace[i..]).0 == goal.0
        invariant out + RunTrace(State(), numFrames, backing, trace[i..]).1 == goal.1
      {
        ghost var s := State();
        var t := Translate(trace[i]);
        RunTraceFrom(s, numFrames, backing, trace, i, State(), t);
        assert out + [t] + RunTrace(State(), numFrames, backing, trace[i + 1..]).1
            == out + RunTrace(s, numFrames, backing, trace[i..]).1;
        out := out + [t];
        i := i + 1;
      }
      assert trace[i..] == [];
      assert RunTrace(State(), numFrames, backing, []) == (State(), []);
      assert out == goal.1 && State() == goal.0;
    }
  }
}
