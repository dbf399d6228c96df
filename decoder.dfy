/**
 * The address decoder shared by every variant of the translator: a trace value
 * is truncated to 16 bits and split into a page number (high byte) and a page
 * offset (low byte). The C integer widths are modelled as subset types of int.
 * On unsigned operands a cast to a narrower type, a right shift by k and a mask
 * with 2^k - 1 are the remainder or quotient by 2^k, which is how the bodies
 * are written.
 */
module Decoder {

  type u8 = x: int | 0 <= x < 0x100
  type u16 = x: int | 0 <= x < 0x1_0000
  type u32 = x: int | 0 <= x < 0x1_0000_0000

  /** A byte of the backing store or of a physical frame. */
  type byte = u8

  const PAGESIZE: nat := 256
  const FRAMESIZE: nat := 256
  const NUMPAGES: nat := 256
  const TLBSIZE: nat := 16

  /** A logical address: page number and offset within the page. */
  datatype LogAddr = LogAddr(pgNum: u8, pgOff: u8)

  /** `(uint16_t)(i)`: keeps the low 16 bits of the 32-bit trace value. */
  function MaskAddrRep(i: u32): (r: u16)
    ensures r <= i && (i - r) % 0x1_0000 == 0
    ensures i < 0x1_0000 ==> r == i
  {
    i % 0x1_0000
  }

  /** `(uint16_t)(i >> 16)`: the upper half of a 32-bit value. */
  function GetLogicalAddr(i: u32): (r: u16)
    ensures r * 0x1_0000 + MaskAddrRep(i) == i
  {
    i / 0x1_0000
  }

  /** `create_log_addr`: page number is `i >> 8`, offset is `i & 0xFF`. */
  function CreateLogAddr(i: u16): (la: LogAddr)
    ensures la.pgNum * 256 + la.pgOff == i
  {
    var msb := i / 256;
    var lsb := i % 256;
    LogAddr(msb, lsb)
  }

  /** The 16-bit value a logical address stands for. */
  function Encode(la: LogAddr): u16
  {
    la.pgNum * 256 + la.pgOff
  }

  /** The full decoding step a translator applies to each trace value. */
  function Decode(curr: u32): LogAddr
  {
    CreateLogAddr(MaskAddrRep(curr))
  }

  /** Decoding then re-encoding any 16-bit value gives it back. */
  lemma EncodeCreateLogAddr(i: u16)
    ensures Encode(CreateLogAddr(i)) == i
  {
  }

  /** Every page/offset pair is produced by exactly one 16-bit value. */
  lemma CreateLogAddrEncode(la: LogAddr)
    ensures CreateLogAddr(Encode(la)) == la
  {
  }

  /**
   * Decoding is total and depends only on the value modulo 2^16: the bits above
   * bit 15 are discarded, and the page/offset pair re-encodes to that residue.
   */
  lemma DecodeDependsOnLow16(x: u32, y: u32)
    ensures Encode(Decode(x)) == x % 0x1_0000
    ensures Decode(x).pgNum < NUMPAGES && Decode(x).pgOff < PAGESIZE
    ensures x % 0x1_0000 == y % 0x1_0000 <==> Decode(x) == Decode(y)
  {
    if Decode(x) == Decode(y) {
      EncodeCreateLogAddr(MaskAddrRep(x));
      EncodeCreateLogAddr(MaskAddrRep(y));
    }
  }

  /** Splitting a 32-bit value into its halves and decoding the lower one. */
  lemma SplitWord(x: u32)
    ensures GetLogicalAddr(x) * 0x1_0000 + Encode(Decode(x)) == x
  {
  }
}
