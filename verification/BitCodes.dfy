/** The vocabulary of a bitcode stream: fixed numbers, abbreviations, records. */
module BitCodes {

  const END_BLOCK := 0
  const ENTER_SUBBLOCK := 1
  const DEFINE_ABBREV := 2
  const UNABBREV_RECORD := 3
  const FIRST_APPLICATION_ABBREV := 4

  const BLOCK_ID_WIDTH := 8
  const CODE_LEN_WIDTH := 4
  const BLOCK_SIZE_WIDTH := 32

  const BLOCKINFO_BLOCK_ID := 0
  const SET_BLOCK_ID := 1
  const BLOCK_NAME := 2
  const SET_RECORD_NAME := 3

  /** Bits in a machine word, which bounds every fixed-width read. */
  const MAX_CHUNK_SIZE := 64

  datatype AbbrevOp =
    | Literal(value: nat)
    | Fixed(width: nat)
    | Vbr(width: nat)
    | Array
    | Char6
    | Blob
  {
    /** A field that stands for exactly one value of the stream. */
    predicate IsScalar() {
      Fixed? || Vbr? || Char6?
    }
  }

  type Abbrev = seq<AbbrevOp>

  datatype Record = Record(code: nat, values: seq<nat>)

  datatype BlockInfo = BlockInfo(blockId: nat, abbrevs: seq<Abbrev>)

  /** What Advance found. */
  datatype Entry = Error | EndBlock | SubBlock(id: nat) | RecordEntry(abbrevId: nat)

  /** The character of a six-bit code, as its ASCII number. */
  function DecodeChar6(v: nat): nat
    requires v < 64
  {
    if v < 26 then v + 97
    else if v < 52 then v - 26 + 65
    else if v < 62 then v - 52 + 48
    else if v == 62 then 46
    else 95
  }

  predicate IsChar6(c: nat) {
    97 <= c <= 122 || 65 <= c <= 90 || 48 <= c <= 57 || c == 46 || c == 95
  }

  function EncodeChar6(c: nat): (v: nat)
    requires IsChar6(c)
    ensures v < 64 && DecodeChar6(v) == c
  {
    if 97 <= c then (if c <= 122 then c - 97 else 63)
    else if 65 <= c then (if c <= 90 then c - 65 + 26 else 63)
    else if c == 46 then 62
    else c - 48 + 52
  }
}
