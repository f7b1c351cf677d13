/** Signed constants: the sign is the lowest bit of a variable-width number. */
module SignRotation {
  import opened Bits
  import opened BitStreamSpec
  import opened BitStreamWriter

  const TWO_63 := 0x8000_0000_0000_0000
  const TWO_64 := 0x1_0000_0000_0000_0000

  /** As the reader does it: 64-bit registers, and "-0" means the least integer. */
  function DecodeSignRotatedValue(v: nat): (u: nat)
    requires v < TWO_64
    ensures u < TWO_64
  {
    if v % 2 == 0 then v / 2
    else if v != 1 then (TWO_64 - v / 2) % TWO_64
    else TWO_63
  }

  /** The signed reading of a 64-bit register. */
  function AsSigned(u: nat): int
    requires u < TWO_64
  {
    if u < TWO_63 then u else u - TWO_64
  }

  /** What a writer emits for a signed number. */
  function EncodeSignRotatedValue(x: int): (v: nat)
    requires -TWO_63 <= x < TWO_63
    ensures v < TWO_64
  {
    if x >= 0 then 2 * x
    else if x == -TWO_63 then 1
    else 2 * -x + 1
  }

  /** The lowest bit is the sign and the others the size, but 1 stands for the least integer. */
  lemma DecodeMeans(size: int)
    requires 0 <= size < TWO_63
    ensures AsSigned(DecodeSignRotatedValue(2 * size)) == size
    ensures AsSigned(DecodeSignRotatedValue(2 * size + 1)) == if size == 0 then -TWO_63 else -size
  {
  }

  /** Every signed 64-bit constant survives in a variable-width field of any width. */
  lemma SignedRoundTrip(bits: seq<bool>, pos: nat, x: int, w: nat)
    requires -TWO_63 <= x < TWO_63 && 2 <= w <= 32
    requires Holds(bits, pos, WriteVbr(EncodeSignRotatedValue(x), w))
    ensures var r := VbrAt(bits, pos, w, 64);
      && r.Got? && r.value < TWO_64
      && r.pos == pos + |WriteVbr(EncodeSignRotatedValue(x), w)|
      && AsSigned(DecodeSignRotatedValue(r.value)) == x
  {
    hide WriteVbr, VbrAt, Pow2;
    Pow2Constants();
    VbrRoundTrip(bits, pos, EncodeSignRotatedValue(x), w, 64);
  }

  /** Decoding loses nothing: distinct encodings are distinct signed numbers, and the
      whole register range is used. */
  lemma DecodeIsBijective(v: nat)
    requires v < TWO_64
    ensures -TWO_63 <= AsSigned(DecodeSignRotatedValue(v)) < TWO_63
    ensures EncodeSignRotatedValue(AsSigned(DecodeSignRotatedValue(v))) == v
  {
  }
}
