/**
 * The translator of fifo.c as an object: the page table, the cache and the 256
 * physical frames are arrays updated in place, and the cursors and statistics
 * are fields. Each method is proved to do what module FifoSpec says one
 * iteration, or the whole loop, does.
 */
module FifoMmu {
  import opened Decoder
  import opened Memory
  import opened Tlb
  import opened FifoPageTable
  import opened FifoSpec

  class Mmu {
    /** The contents of the backing store file. */
    const backing: BackingStore

    const pageTable: array<PageEntry>
    const tlb: array<TlbEntry>
    /** `memBlock->store`: one entry per physical frame. */
    const store: array<seq<byte>>

    var tlbPtr: int
    var framePtr: int
    var numTranslated: int
    var numPageFaults: int
    var tlbHits: int

    /** The state as module FifoSpec describes it. */
    ghost function State(): FifoState
      reads this, pageTable, tlb, store
    {
      FifoState(pageTable[..], tlb[..], store[..], tlbPtr, framePtr, numTranslated, numPageFaults, tlbHits)
    }

    ghost predicate Valid()
      reads this, pageTable, tlb, store
    {
      Inv(State(), backing)
    }

    /** The set-up in `main` before the loop: the three tables and zeroed counters. */
    constructor (backing: BackingStore)
      ensures Valid() && State() == Init()
      ensures this.backing == backing
      ensures fresh(pageTable) && fresh(tlb) && fresh(store)
    {
      this.backing := backing;
      var pt := InitPageTable();
      var t := InitTlb();
      pageTable := pt;
      tlb := t;
      store := new seq<byte>[NUMFRAMES](_ => []);
      tlbPtr, framePtr := 0, 0;
      numTranslated, numPageFaults, tlbHits := 0, 0, 0;
      new;
      assert pageTable[..] == Init().pageTable;
      assert tlb[..] == Init().tlb;
      assert store[..] == Init().store;
      InitInv(backing);
    }

    /**
     * The page-fault branch of the loop (fifo.c:77-86): load the page into
     * frame `framePtr`, record that frame and mark the page valid.
     */
    method FaultIn(pg: u8)
      requires Valid() && !pageTable[pg].valid
      modifies this, pageTable, store
      ensures State() == Fault(old(State()), backing, pg)
    {
      ghost var s := State();
      FaultFrameInBounds(s, backing, pg);
      store[framePtr] := backing(pg);
      pageTable[pg] := pageTable[pg].(frNum := framePtr, valid := true);
      framePtr := framePtr + 1;
      numPageFaults := numPageFaults + 1;
    }

    /**
     * The cache-hit branch and the end of the iteration (fifo.c:72-74 and
     * 93-96), given the frame `frNum` the cache returned: count the hit, read
     * the byte.
     */
    method CountHit(la: LogAddr, frNum: u8) returns (t: Translation)
      requires frNum < store.Length && |store[frNum]| == FRAMESIZE
      modifies this
      ensures (State(), t) == Hit(old(State()), la, frNum)
    {
      tlbHits := tlbHits + 1;
      t := Translation(frNum * FRAMESIZE + la.pgOff, store[frNum][la.pgOff]);
      numTranslated := numTranslated + 1;
    }

    /**
     * The end of the cache-miss branch and of the iteration (fifo.c:88-96),
     * once the page of `la` is valid: put it in slot `tlbPtr` of the cache,
     * advance `tlbPtr`, read the byte.
     */
    method RefillTlb(la: LogAddr) returns (t: Translation)
      requires pageTable.Length == NUMPAGES && 0 <= tlbPtr < tlb.Length
      requires pageTable[la.pgNum].frNum < store.Length && |store[pageTable[la.pgNum].frNum]| == FRAMESIZE
      modifies this, tlb
      ensures (State(), t) == Refill(old(State()), la)
    {
      ghost var s := State();
      var frNum := pageTable[la.pgNum].frNum;
      tlb[tlbPtr] := TlbEntry(la.pgNum, frNum);
      tlbPtr := (tlbPtr + 1) % TLBSIZE;
      t := Translation(frNum * FRAMESIZE + la.pgOff, store[frNum][la.pgOff]);
      numTranslated := numTranslated + 1;
      assert tlb[..] == Refill(s, la).0.tlb;
    }

    /** One iteration of the loop in `main` (fifo.c:67-96) on the trace value `curr`. */
    method Translate(curr: u32) returns (t: Translation)
      requires Valid()
      modifies this, pageTable, tlb, store
      ensures Valid()
      ensures (State(), t) == Step(old(State()), backing, curr)
    {
      ghost var s := State();
      var masked := MaskAddrRep(curr);
      var la := CreateLogAddr(masked);
      var buffQuery := QueryTlb(tlb, la.pgNum);
      if buffQuery != -1 {
        StepIsHit(s, backing, curr);
        t := CountHit(la, AsU8(buffQuery));
      } else {
        if !pageTable[la.pgNum].valid {
          FaultIn(la.pgNum);
        }
        StepIsRefill(s, backing, curr, State());
        t := RefillTlb(la);
      }
      StepInv(s, backing, curr);
    }

    /** The loop in `main` over the whole trace, collecting what each line prints. */
    method Run(trace: seq<u32>) returns (out: seq<Translation>)
      requires Valid()
      modifies this, pageTable, tlb, store
      ensures Valid()
      ensures (State(), out) == RunTrace(old(State()), backing, trace)
    {
      ghost var goal := RunTrace(State(), backing, trace);
      out := [];
      var i := 0;
      while i < |trace|
        invariant 0 <= i <= |trace|
        invariant Valid()
        invariant RunTrace(State(), backing, trace[i..]).0 == goal.0
        invariant out + RunTrace(State(), backing, trace[i..]).1 == goal.1
      {
        ghost var s := State();
        var t := Translate(trace[i]);
        RunTraceFrom(s, backing, trace, i, State(), t);
        assert out + [t] + RunTrace(State(), backing, trace[i + 1..]).1
            == out + RunTrace(s, backing, trace[i..]).1;
        out := out + [t];
        i := i + 1;
      }
      assert trace[i..] == [];
      assert RunTrace(State(), backing, []) == (State(), []);
      assert out == goal.1 && State() == goal.0;
    }
  }
}
