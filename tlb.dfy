/**
 * The 16-slot translation cache shared by both translators. A slot holds a page
 * number and a frame number, both `uint8_t`. An empty slot holds `-1` in both
 * fields, which a `uint8_t` stores as 255, so the empty marker is
 * indistinguishable from page 255 mapped to frame 255. Lookup returns the frame
 * through an `int8_t`, so a stored frame of 255 reads back as -1, the value that
 * also means "miss".
 */
module Tlb {
  import opened Decoder

  datatype TlbEntry = TlbEntry(pgNum: u8, frNum: u8)

  /** `(uint8_t)x` for any int: reduction modulo 2^8. */
  function AsU8(x: int): (r: u8)
    ensures (x - r) % 256 == 0
  {
    x % 256
  }

  /** `(int8_t)x` for a `uint8_t` value, two's complement. */
  function AsInt8(x: u8): (r: int)
    ensures -128 <= r < 128
    ensures AsU8(r) == x
    ensures r == -1 <==> x == 255
  {
    if x < 128 then x else x - 256
  }

  /** The value `-1` takes in a `uint8_t` field. */
  const EMPTY: u8 := AsU8(-1)

  /** What `new_tlb_entry(-1, -1)` and `clear_tlb_entry` leave in a slot. */
  const Empty: TlbEntry := TlbEntry(EMPTY, EMPTY)

  /**
   * Index of the first slot at or after `k` whose page number is `pg`, or -1.
   */
  function FirstMatchFrom(tlb: seq<TlbEntry>, pg: u8, k: nat): (i: int)
    requires k <= |tlb|
    ensures -1 <= i < |tlb|
    ensures i >= 0 ==> k <= i && tlb[i].pgNum == pg && forall j :: k <= j < i ==> tlb[j].pgNum != pg
    ensures i == -1 <==> forall j :: k <= j < |tlb| ==> tlb[j].pgNum != pg
    decreases |tlb| - k
  {
    if k == |tlb| then -1
    else if tlb[k].pgNum == pg then k
    else FirstMatchFrom(tlb, pg, k + 1)
  }

  /** Index of the lowest slot whose page number is `pg`, or -1 if there is none. */
  function FirstMatch(tlb: seq<TlbEntry>, pg: u8): (i: int)
    ensures -1 <= i < |tlb|
    ensures i >= 0 ==> tlb[i].pgNum == pg && forall j :: 0 <= j < i ==> tlb[j].pgNum != pg
    ensures i == -1 <==> forall j :: 0 <= j < |tlb| ==> tlb[j].pgNum != pg
  {
    FirstMatchFrom(tlb, pg, 0)
  }

  /**
   * What `query_tlb` returns: the frame of the first matching slot read as an
   * `int8_t`, or -1 when no slot matches. A result other than -1 is a hit, and
   * casting it back to `uint8_t` gives the stored frame.
   */
  function TlbLookup(tlb: seq<TlbEntry>, pg: u8): (r: int)
    ensures -128 <= r < 128
    ensures r == -1 <==> FirstMatch(tlb, pg) == -1 || tlb[FirstMatch(tlb, pg)].frNum == EMPTY
    ensures r != -1 ==> tlb[FirstMatch(tlb, pg)] == TlbEntry(pg, AsU8(r))
  {
    var i := FirstMatch(tlb, pg);
    if i < 0 then -1 else AsInt8(tlb[i].frNum)
  }

  /** `query_tlb`: a linear first-match scan that does not change the cache. */
  method QueryTlb(tlb: array<TlbEntry>, pg: u8) returns (r: int)
    ensures r == TlbLookup(tlb[..], pg)
  {
    var i := 0;
    while i < tlb.Length
      invariant 0 <= i <= tlb.Length
      invariant FirstMatchFrom(tlb[..], pg, i) == FirstMatch(tlb[..], pg)
    {
      var curr := tlb[i];
      if curr.pgNum == pg {
        return AsInt8(curr.frNum);
      }
      i := i + 1;
    }
    return -1;
  }

  /** The cache after `clear_tlb_entry(tlb, pg)`: every slot holding `pg` emptied. */
  function ClearedTlb(tlb: seq<TlbEntry>, pg: u8): (r: seq<TlbEntry>)
    ensures |r| == |tlb|
    ensures forall i :: 0 <= i < |tlb| ==> r[i] == if tlb[i].pgNum == pg then Empty else tlb[i]
  {
    if tlb == [] then []
    else [if tlb[0].pgNum == pg then Empty else tlb[0]] + ClearedTlb(tlb[1..], pg)
  }

  /** `clear_tlb_entry`: resets, in place, both fields of every slot holding `pg`. */
  method ClearTlbEntry(tlb: array<TlbEntry>, pg: u8)
    modifies tlb
    ensures tlb[..] == ClearedTlb(old(tlb[..]), pg)
    ensures forall i :: 0 <= i < tlb.Length ==>
      tlb[i] == if old(tlb[i]).pgNum == pg then Empty else old(tlb[i])
  {
    var i := 0;
    while i < tlb.Length
      invariant 0 <= i <= tlb.Length
      invariant forall j :: 0 <= j < i ==> tlb[j] == if old(tlb[j]).pgNum == pg then Empty else old(tlb[j])
      invariant forall j :: i <= j < tlb.Length ==> tlb[j] == old(tlb[j])
    {
      if tlb[i].pgNum == pg {
        tlb[i] := Empty;
      }
      i := i + 1;
    }
  }

  /** Once a page is cleared from the cache, looking it up misses. */
  lemma ClearedTlbMisses(tlb: seq<TlbEntry>, pg: u8)
    ensures TlbLookup(ClearedTlb(tlb, pg), pg) == -1
  {
    var c := ClearedTlb(tlb, pg);
    var i := FirstMatch(c, pg);
    if i >= 0 {
      assert c[i] == Empty;
    }
  }

  /** `init_tlb`: a fresh cache of `TLBSIZE` empty slots. */
  method InitTlb() returns (tlb: array<TlbEntry>)
    ensures fresh(tlb) && tlb.Length == TLBSIZE
    ensures forall i :: 0 <= i < TLBSIZE ==> tlb[i] == Empty
  {
    tlb := new TlbEntry[TLBSIZE];
    var i := 0;
    while i < TLBSIZE
      invariant 0 <= i <= TLBSIZE
      invariant forall j :: 0 <= j < i ==> tlb[j] == Empty
    {
      tlb[i] := TlbEntry(AsU8(-1), AsU8(-1));
      i := i + 1;
    }
  }

  /** In a cache with only empty slots every lookup misses. */
  lemma EmptyTlbMisses(tlb: seq<TlbEntry>, pg: u8)
    requires forall i :: 0 <= i < |tlb| ==> tlb[i] == Empty
    ensures TlbLookup(tlb, pg) == -1
  {
  }
}
