/** A writer of bitcode, following the LLVM Bitcode File Format document, and the
    proofs that the reader undoes it. */
module BitStreamWriter {
  import opened Bits
  import opened BitCodes
  import opened BitStreamSpec

  // ----- the writer

  /** Sections "Fixed Width Integers" and "Variable Width Integers". */
  function WriteVbr(v: nat, w: nat): seq<bool>
    requires w >= 2
    decreases v
  {
    if v < Pow2(w - 1) then BitsOf(v, w)
    else
      HighPartSmaller(v, w - 1);
      BitsOf(v % Pow2(w - 1) + Pow2(w - 1), w) + WriteVbr(v / Pow2(w - 1), w)
  }

  lemma HighPartSmaller(v: nat, n: nat)
    requires n >= 1 && v >= Pow2(n)
    ensures v / Pow2(n) < v
  {
    Pow2Monotone(1, n);
    MulOrder(v / Pow2(n), 2, Pow2(n));
  }

  function Zeros(n: nat): (z: seq<bool>)
    ensures |z| == n
  {
    BitsOf(0, n)
  }

  function PadTo32(pos: nat): seq<bool> {
    Zeros(AlignUp32(pos) - pos)
  }

  predicate FitsField(op: AbbrevOp, v: nat) {
    match op
    case Fixed(w) => 1 <= w <= MAX_CHUNK_SIZE && v < Pow2(w)
    case Vbr(w) => 2 <= w <= 32 && v < Pow2(64)
    case Char6 => IsChar6(v)
    case _ => false
  }

  function WriteField(op: AbbrevOp, v: nat): seq<bool>
    requires FitsField(op, v)
  {
    if op.Fixed? then BitsOf(v, op.width)
    else if op.Vbr? then WriteVbr(v, op.width)
    else BitsOf(EncodeChar6(v), 6)
  }

  predicate FitsFields(op: AbbrevOp, vs: seq<nat>) {
    forall i :: 0 <= i < |vs| ==> FitsField(op, vs[i])
  }

  function WriteFields(op: AbbrevOp, vs: seq<nat>): seq<bool>
    requires FitsFields(op, vs)
  {
    if vs == [] then [] else WriteField(op, vs[0]) + WriteFields(op, vs[1..])
  }

  /** A blob whose padded length in bits is not cut by 32-bit arithmetic. */
  predicate FitsBlob(vs: seq<nat>) {
    |vs| <= 0x2000_0000 - 4 && forall i :: 0 <= i < |vs| ==> vs[i] < 256
  }

  /** Section "Data Records", blob: the padding depends on where the blob starts. */
  function WriteBlob(pos: nat, vs: seq<nat>): seq<bool> {
    var length := WriteVbr(|vs|, 6);
    length + (PadTo32(pos + |length|) + (BytesToBits(vs) + PadTo32(8 * |vs|)))
  }

  predicate FitsOps(ops: Abbrev, vs: seq<nat>) {
    if ops == [] then vs == []
    else if ops[0].Array? then
      |ops| == 2 && ops[1].IsScalar() && |vs| < Pow2(32) && FitsFields(ops[1], vs)
    else if ops[0].Blob? then |ops| == 1 && FitsBlob(vs)
    else
      && vs != []
      && (if ops[0].Literal? then ops[0].value == vs[0] else FitsField(ops[0], vs[0]))
      && FitsOps(ops[1..], vs[1..])
  }

  function WriteOps(pos: nat, ops: Abbrev, vs: seq<nat>): seq<bool>
    requires FitsOps(ops, vs)
    decreases |ops|
  {
    if ops == [] then []
    else if ops[0].Array? then WriteVbr(|vs|, 6) + WriteFields(ops[1], vs)
    else if ops[0].Blob? then WriteBlob(pos, vs)
    else if ops[0].Literal? then WriteOps(pos, ops[1..], vs[1..])
    else
      var first := WriteField(ops[0], vs[0]);
      first + WriteOps(pos + |first|, ops[1..], vs[1..])
  }

  predicate FitsRecord(abbrevs: seq<Abbrev>, id: nat, r: Record) {
    if id == UNABBREV_RECORD then
      r.code < Pow2(32) && |r.values| < Pow2(32) && FitsFields(Vbr(6), r.values)
    else
      && FIRST_APPLICATION_ABBREV <= id < FIRST_APPLICATION_ABBREV + |abbrevs|
      && var ops := abbrevs[id - FIRST_APPLICATION_ABBREV];
      && ops != []
      && r.code < Pow2(32)
      && (if ops[0].Literal? then ops[0].value == r.code else FitsField(ops[0], r.code))
      && FitsOps(ops[1..], r.values)
  }

  function WriteRecord(pos: nat, abbrevs: seq<Abbrev>, id: nat, r: Record): seq<bool>
    requires FitsRecord(abbrevs, id, r)
  {
    if id == UNABBREV_RECORD then
      WriteVbr(r.code, 6) + (WriteVbr(|r.values|, 6) + WriteFields(Vbr(6), r.values))
    else
      var ops := abbrevs[id - FIRST_APPLICATION_ABBREV];
      var code := if ops[0].Literal? then [] else WriteField(ops[0], r.code);
      code + WriteOps(pos + |code|, ops[1..], r.values)
  }

  /** What DEFINE_ABBREV can say. */
  predicate Definable(op: AbbrevOp) {
    match op
    case Literal(v) => v < Pow2(64)
    case Fixed(w) => 1 <= w <= MAX_CHUNK_SIZE
    case Vbr(w) => 1 <= w <= MAX_CHUNK_SIZE
    case _ => true
  }

  /** Section "Abbreviations": the encoding of one operand. */
  function WriteOpDef(op: AbbrevOp): seq<bool> {
    match op
    case Literal(v) => [true] + WriteVbr(v, 8)
    case Fixed(w) => [false] + (BitsOf(1, 3) + WriteVbr(w, 5))
    case Vbr(w) => [false] + (BitsOf(2, 3) + WriteVbr(w, 5))
    case Array => [false] + BitsOf(3, 3)
    case Char6 => [false] + BitsOf(4, 3)
    case Blob => [false] + BitsOf(5, 3)
  }

  function WriteOpDefs(ops: Abbrev): seq<bool> {
    if ops == [] then [] else WriteOpDef(ops[0]) + WriteOpDefs(ops[1..])
  }

  predicate DefinableAbbrev(ops: Abbrev) {
    0 < |ops| < Pow2(32) && forall i :: 0 <= i < |ops| ==> Definable(ops[i])
  }

  function WriteDefine(ops: Abbrev): seq<bool> {
    WriteVbr(|ops|, 5) + WriteOpDefs(ops)
  }

  // ----- reading what was written

  ghost predicate Holds(bits: seq<bool>, pos: nat, w: seq<bool>) {
    pos + |w| <= |bits| && bits[pos..pos + |w|] == w
  }

  lemma HoldsSplit(bits: seq<bool>, pos: nat, a: seq<bool>, b: seq<bool>)
    requires Holds(bits, pos, a + b)
    ensures Holds(bits, pos, a) && Holds(bits, pos + |a|, b)
  {
    var w := bits[pos..pos + |a + b|];
    assert w[..|a|] == bits[pos..pos + |a|] == a;
    assert w[|a|..] == bits[pos + |a|..pos + |a| + |b|] == b;
  }

  lemma ReadWritten(bits: seq<bool>, pos: nat, v: nat, n: nat)
    requires Holds(bits, pos, BitsOf(v, n)) && v < Pow2(n) && 1 <= n <= MAX_CHUNK_SIZE
    ensures ReadAt(bits, pos, n) == Got(v, pos + n)
    ensures bits[pos..pos + n] == BitsOf(v, n) && Nat(BitsOf(v, n)) == v
  {
    NatOfFittingBits(v, n);
  }

  lemma {:induction false} ChunksWritten(bits: seq<bool>, pos: nat, v: nat, w: nat, shift: nat, limit: nat)
    requires 2 <= w <= 32 && shift < limit && v < Pow2(limit - shift)
    requires Holds(bits, pos, WriteVbr(v, w))
    ensures ChunksAt(bits, pos, w, shift, limit) == Got(v, pos + |WriteVbr(v, w)|)
    decreases v
  {
    hide Nat, BitsOf, Pow2, Holds;
    var k := w - 1;
    assert Pow2(w) == 2 * Pow2(k) by { TopBit(w); }
    if v < Pow2(k) {
      Pow2Monotone(k, w);
      ReadWritten(bits, pos, v, w);
      DivModUnique(v, Pow2(k), 0, v);
    } else {
      var data, rest := v % Pow2(k), v / Pow2(k);
      HoldsSplit(bits, pos, BitsOf(data + Pow2(k), w), WriteVbr(rest, w));
      ReadWritten(bits, pos, data + Pow2(k), w);
      DivModUnique(data + Pow2(k), Pow2(k), 1, data);
      DivModIdentity(v, Pow2(k));
      HighPartSmaller(v, k);
      HighPartFits(v, k, limit - shift);
      ChunksWritten(bits, pos + w, rest, w, shift + k, limit);
    }
  }

  lemma TopBit(w: nat)
    requires w > 0
    ensures Pow2(w) == 2 * Pow2(w - 1)
  {
  }

  lemma DivModIdentity(v: nat, d: nat)
    requires d > 0
    ensures v == v % d + d * (v / d) && 0 <= v % d < d
  {
  }

  lemma HighPartFits(v: nat, k: nat, n: nat)
    requires Pow2(k) <= v < Pow2(n)
    ensures k < n && v / Pow2(k) < Pow2(n - k)
  {
    if n <= k {
      Pow2Monotone(n, k);
      assert false;
    }
    Pow2Add(k, n - k);
    if v / Pow2(k) >= Pow2(n - k) {
      MulOrder(Pow2(k), Pow2(n - k), v / Pow2(k));
      assert false;
    }
  }

  /** The reader undoes the variable-width writer and stops after its chunks. */
  lemma VbrRoundTrip(bits: seq<bool>, pos: nat, v: nat, w: nat, limit: nat)
    requires 2 <= w <= 32 && limit > 0 && v < Pow2(limit)
    requires Holds(bits, pos, WriteVbr(v, w))
    ensures VbrAt(bits, pos, w, limit) == Got(v, pos + |WriteVbr(v, w)|)
  {
    hide WriteVbr;
    ChunksWritten(bits, pos, v, w, 0, limit);
    DivModUnique(v, Pow2(limit), 0, v);
  }

  lemma FieldRoundTrip(bits: seq<bool>, pos: nat, op: AbbrevOp, v: nat)
    requires FitsField(op, v) && Holds(bits, pos, WriteField(op, v))
    ensures FieldAt(bits, pos, op) == Got(v, pos + |WriteField(op, v)|)
  {
    hide Nat, BitsOf, WriteVbr;
    match op
    case Fixed(w) => ReadWritten(bits, pos, v, w);
    case Vbr(w) => VbrRoundTrip(bits, pos, v, w, 64);
    case Char6 =>
      Pow2Constants();
      ReadWritten(bits, pos, EncodeChar6(v), 6);
  }

  lemma {:induction false} FieldsRoundTrip(bits: seq<bool>, pos: nat, op: AbbrevOp, vs: seq<nat>)
    requires op.IsScalar() && FitsFields(op, vs) && Holds(bits, pos, WriteFields(op, vs))
    ensures FieldsAt(bits, pos, op, |vs|) == Got(vs, pos + |WriteFields(op, vs)|)
    decreases |vs|
  {
    hide FieldAt, WriteField, FitsField, Holds;
    if vs == [] {
    } else {
      var first := WriteField(op, vs[0]);
      HoldsSplit(bits, pos, first, WriteFields(op, vs[1..]));
      FieldRoundTrip(bits, pos, op, vs[0]);
      FieldsRoundTrip(bits, pos + |first|, op, vs[1..]);
      assert vs == [vs[0]] + vs[1..];
    }
  }

  lemma {:induction false} BytesWritten(bits: seq<bool>, pos: nat, vs: seq<nat>)
    requires Holds(bits, pos, BytesToBits(vs))
    requires forall i :: 0 <= i < |vs| ==> vs[i] < 256
    ensures BytesAt(bits, pos, |vs|) == vs
    decreases |vs|
  {
    hide Nat, BitsOf;
    if vs == [] {
    } else {
      HoldsSplit(bits, pos, BitsOf(vs[0], 8), BytesToBits(vs[1..]));
      Pow2Constants();
      ReadWritten(bits, pos, vs[0], 8);
      BytesWritten(bits, pos + 8, vs[1..]);
      assert vs == [vs[0]] + vs[1..];
    }
  }

  /** The reader's padded length is the true one exactly up to 2^29 - 4 bytes. */
  lemma BlobSpanExact(count: nat)
    requires count < Pow2(32)
    ensures BlobSpan(count) == AlignUp32(8 * count) <==> count <= 0x2000_0000 - 4
  {
    Pow2Constants();
    hide Pow2, AlignUp32;
    var padded := (count + 3) / 4 * 4 * 8;
    AlignUp32Unique(8 * count, padded);
    if count <= 0x2000_0000 - 4 {
      assert (count + 3) % 0x1_0000_0000 == count + 3;
      assert padded < 0x1_0000_0000;
    } else {
      assert padded >= 0x1_0000_0000 > BlobSpan(count);
    }
  }

  lemma BlobRoundTrip(bits: seq<bool>, pos: nat, vs: seq<nat>)
    requires FitsBlob(vs) && Holds(bits, pos, WriteBlob(pos, vs))
    requires pos + |WriteBlob(pos, vs)| < |bits|
    ensures BlobAt(bits, pos) == Got(vs, pos + |WriteBlob(pos, vs)|)
  {
    hide VbrAt, WriteVbr, BytesToBits, BytesAt, BlobSpan, Zeros, Holds, AlignUp32, Pow2;
    var length := WriteVbr(|vs|, 6);
    var next := pos + |length|;
    var start := AlignUp32(next);
    HoldsSplit(bits, pos, length, PadTo32(next) + (BytesToBits(vs) + PadTo32(8 * |vs|)));
    HoldsSplit(bits, next, PadTo32(next), BytesToBits(vs) + PadTo32(8 * |vs|));
    HoldsSplit(bits, start, BytesToBits(vs), PadTo32(8 * |vs|));
    Pow2Constants();
    VbrRoundTrip(bits, pos, |vs|, 6, 32);
    BlobSpanExact(|vs|);
    BytesWritten(bits, start, vs);
  }

  lemma ArrayRoundTrip(bits: seq<bool>, pos: nat, ops: Abbrev, vs: seq<nat>)
    requires ops != [] && ops[0].Array? && FitsOps(ops, vs) && Holds(bits, pos, WriteOps(pos, ops, vs))
    requires pos + |WriteOps(pos, ops, vs)| < |bits|
    ensures OpsAt(bits, pos, ops) == Got(vs, pos + |WriteOps(pos, ops, vs)|)
  {
    hide VbrAt, WriteVbr, FieldsAt, WriteFields;
    HoldsSplit(bits, pos, WriteVbr(|vs|, 6), WriteFields(ops[1], vs));
    VbrRoundTrip(bits, pos, |vs|, 6, 32);
    FieldsRoundTrip(bits, pos + |WriteVbr(|vs|, 6)|, ops[1], vs);
  }

  lemma {:induction false} OpsRoundTrip(bits: seq<bool>, pos: nat, ops: Abbrev, vs: seq<nat>)
    requires FitsOps(ops, vs) && Holds(bits, pos, WriteOps(pos, ops, vs))
    requires pos + |WriteOps(pos, ops, vs)| < |bits|
    ensures OpsAt(bits, pos, ops) == Got(vs, pos + |WriteOps(pos, ops, vs)|)
    decreases |ops|
  {
    hide VbrAt, WriteVbr, BlobAt, WriteBlob, FieldAt, WriteField, FitsField, FieldsAt, WriteFields, FitsFields, FitsBlob, Holds;
    if ops == [] {
    } else if ops[0].Array? {
      ArrayRoundTrip(bits, pos, ops, vs);
    } else if ops[0].Blob? {
      BlobRoundTrip(bits, pos, vs);
      assert vs + [] == vs;
    } else if ops[0].Literal? {
      OpsRoundTrip(bits, pos, ops[1..], vs[1..]);
      assert vs == [vs[0]] + vs[1..];
    } else {
      var first := WriteField(ops[0], vs[0]);
      HoldsSplit(bits, pos, first, WriteOps(pos + |first|, ops[1..], vs[1..]));
      FieldRoundTrip(bits, pos, ops[0], vs[0]);
      OpsRoundTrip(bits, pos + |first|, ops[1..], vs[1..]);
      assert vs == [vs[0]] + vs[1..];
    }
  }

  /** Every record that fits its abbreviation, and every unabbreviated record, is read
      back exactly, and the reader stops at the bit after it. */
  lemma RecordRoundTrip(bits: seq<bool>, pos: nat, abbrevs: seq<Abbrev>, id: nat, r: Record)
    requires FitsRecord(abbrevs, id, r) && Holds(bits, pos, WriteRecord(pos, abbrevs, id, r))
    requires pos + |WriteRecord(pos, abbrevs, id, r)| < |bits|
    ensures RecordAt(bits, pos, abbrevs, id) == Got(r, pos + |WriteRecord(pos, abbrevs, id, r)|)
  {
    hide VbrAt, WriteVbr, FieldAt, WriteField, FieldsAt, WriteFields, OpsAt, WriteOps, FitsOps, Holds, Pow2;
    if id == UNABBREV_RECORD {
      var a, b, c := WriteVbr(r.code, 6), WriteVbr(|r.values|, 6), WriteFields(Vbr(6), r.values);
      HoldsSplit(bits, pos, a, b + c);
      HoldsSplit(bits, pos + |a|, b, c);
      VbrRoundTrip(bits, pos, r.code, 6, 32);
      VbrRoundTrip(bits, pos + |a|, |r.values|, 6, 32);
      FieldsRoundTrip(bits, pos + |a| + |b|, Vbr(6), r.values);
    } else {
      var ops := abbrevs[id - FIRST_APPLICATION_ABBREV];
      DivModUnique(r.code, Pow2(32), 0, r.code);
      var code := if ops[0].Literal? then [] else WriteField(ops[0], r.code);
      HoldsSplit(bits, pos, code, WriteOps(pos + |code|, ops[1..], r.values));
      if !ops[0].Literal? {
        FieldRoundTrip(bits, pos, ops[0], r.code);
      }
      OpsRoundTrip(bits, pos + |code|, ops[1..], r.values);
    }
  }

  lemma OneBit(bits: seq<bool>, pos: nat)
    requires Holds(bits, pos, [true])
    ensures ReadAt(bits, pos, 1) == Got(1, pos + 1)
  {
    assert [true] == BitsOf(1, 1);
    assert Pow2(1) == 2;
    ReadWritten(bits, pos, 1, 1);
  }

  lemma OpDefRoundTrip(bits: seq<bool>, pos: nat, op: AbbrevOp)
    requires Definable(op) && Holds(bits, pos, WriteOpDef(op))
    ensures OpDefAt(bits, pos) == Got(op, pos + |WriteOpDef(op)|)
  {
    hide VbrAt, WriteVbr, BitsOf, Holds, Nat, ReadAt, Pow2;
    match op
    case Literal(v) =>
      HoldsSplit(bits, pos, [true], WriteVbr(v, 8));
      OneBit(bits, pos);
      VbrRoundTrip(bits, pos + 1, v, 8, 64);
    case Fixed(w) => EncodingWritten(bits, pos, 1, WriteVbr(w, 5)); WidthWritten(bits, pos + 4, w);
    case Vbr(w) => EncodingWritten(bits, pos, 2, WriteVbr(w, 5)); WidthWritten(bits, pos + 4, w);
    case Array => assert BitsOf(3, 3) + [] == BitsOf(3, 3); EncodingWritten(bits, pos, 3, []);
    case Char6 => assert BitsOf(4, 3) + [] == BitsOf(4, 3); EncodingWritten(bits, pos, 4, []);
    case Blob => assert BitsOf(5, 3) + [] == BitsOf(5, 3); EncodingWritten(bits, pos, 5, []);
  }

  lemma EncodingWritten(bits: seq<bool>, pos: nat, enc: nat, rest: seq<bool>)
    requires enc < 8 && Holds(bits, pos, [false] + (BitsOf(enc, 3) + rest))
    ensures ReadAt(bits, pos, 1) == Got(0, pos + 1)
    ensures ReadAt(bits, pos + 1, 3) == Got(enc, pos + 4)
    ensures Holds(bits, pos + 4, rest)
  {
    HoldsSplit(bits, pos, [false], BitsOf(enc, 3) + rest);
    HoldsSplit(bits, pos + 1, BitsOf(enc, 3), rest);
    assert [false] == BitsOf(0, 1);
    ReadWritten(bits, pos, 0, 1);
    assert Pow2(3) == 8;
    ReadWritten(bits, pos + 1, enc, 3);
  }

  lemma WidthWritten(bits: seq<bool>, pos: nat, w: nat)
    requires w <= MAX_CHUNK_SIZE && Holds(bits, pos, WriteVbr(w, 5))
    ensures VbrAt(bits, pos, 5, 64) == Got(w, pos + |WriteVbr(w, 5)|)
  {
    hide Pow2, WriteVbr, Holds;
    Pow2Constants();
    VbrRoundTrip(bits, pos, w, 5, 64);
  }

  lemma {:induction false} OpDefsRoundTrip(bits: seq<bool>, pos: nat, ops: Abbrev)
    requires forall i :: 0 <= i < |ops| ==> Definable(ops[i])
    requires Holds(bits, pos, WriteOpDefs(ops))
    ensures OpDefsAt(bits, pos, |ops|) == Got(ops, pos + |WriteOpDefs(ops)|)
    decreases |ops|
  {
    hide OpDefAt, WriteOpDef;
    if ops == [] {
    } else {
      HoldsSplit(bits, pos, WriteOpDef(ops[0]), WriteOpDefs(ops[1..]));
      OpDefRoundTrip(bits, pos, ops[0]);
      OpDefsRoundTrip(bits, pos + |WriteOpDef(ops[0])|, ops[1..]);
      assert ops == [ops[0]] + ops[1..];
    }
  }

  /** Reading a DEFINE_ABBREV gives back the abbreviation. */
  lemma DefineRoundTrip(bits: seq<bool>, pos: nat, ops: Abbrev)
    requires DefinableAbbrev(ops) && Holds(bits, pos, WriteDefine(ops))
    ensures DefineAt(bits, pos) == Got(ops, pos + |WriteDefine(ops)|)
  {
    hide VbrAt, WriteVbr, OpDefsAt, WriteOpDefs;
    HoldsSplit(bits, pos, WriteVbr(|ops|, 5), WriteOpDefs(ops));
    VbrRoundTrip(bits, pos, |ops|, 5, 32);
    OpDefsRoundTrip(bits, pos + |WriteVbr(|ops|, 5)|, ops);
  }
}
