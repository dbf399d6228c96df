/**
 * Physical memory and the backing store as seen by both translators, and the
 * per-address output of a translation.
 */
module Memory {
  import opened Decoder

  /** The contents of one page or frame: `FRAMESIZE` bytes. */
  type Frame = s: seq<byte> | |s| == FRAMESIZE witness seq(256, _ => 0)

  /**
   * The backing store file: page `p` occupies bytes `p * PAGESIZE` to
   * `p * PAGESIZE + 255`, so reading it is a function from page number to page.
   */
  type BackingStore = u8 -> Frame

  /** What one trace line prints: the physical address and the byte found there. */
  datatype Translation = Translation(physAddr: int, value: byte)

  /** A physical address splits back into its frame and its offset. */
  lemma PhysAddrSplit(fr: int, off: int)
    requires 0 <= off < FRAMESIZE
    ensures (fr * FRAMESIZE + off) % FRAMESIZE == off
    ensures (fr * FRAMESIZE + off) / FRAMESIZE == fr
  {
  }

  /** The integers `0 .. n - 1` as a set. */
  ghost function Range(n: nat): (r: set<int>)
    ensures forall x :: x in r <==> 0 <= x < n
  {
    if n == 0 then {} else Range(n - 1) + {n - 1}
  }

  lemma {:induction false} RangeSize(n: nat)
    ensures |Range(n)| == n
  {
    if n > 0 {
      RangeSize(n - 1);
    }
  }

  /** A set of integers in `0 .. n - 1` that misses one of them has fewer than `n` elements. */
  lemma SubsetOfRangeSize(s: set<int>, n: nat, missing: int)
    requires forall x :: x in s ==> 0 <= x < n
    requires 0 <= missing < n && missing !in s
    ensures |s| < n
  {
    RangeSize(n);
    SubsetSize(s, Range(n) - {missing});
  }

  lemma SubsetSize(a: set<int>, b: set<int>)
    requires a <= b
    ensures |a| <= |b|
  {
    assert b == a + (b - a);
    assert a * (b - a) == {};
  }
}
