/** The numbers of the stream format, spelled out: which bits stand for what, without the
    names that the reader and the writer share. */
module StreamFormat {
  import opened Bits
  import opened BitCodes
  import opened BitStreamSpec

  // ----- bits and numbers

  /** The k-th bit counts 2^k. */
  lemma BitCounts(bits: seq<bool>, b: bool)
    ensures Nat(bits + [b]) == Nat(bits) + if b then Pow2(|bits|) else 0
  {
    OneBit(b);
    hide Nat, Pow2;
    NatAppend(bits, [b]);
    assert Pow2(|bits|) * Nat([b]) == if b then Pow2(|bits|) else 0;
  }

  lemma OneBit(b: bool)
    ensures Nat([b]) == if b then 1 else 0
  {
    assert [b][1..] == [];
  }

  lemma {:induction false} BitOf(v: nat, n: nat, j: nat)
    requires j < n
    ensures BitsOf(v, n)[j] == (v / Pow2(j) % 2 == 1)
  {
    if j == 0 {
      assert v / 1 == v;
    } else {
      BitOf(v / 2, n - 1, j - 1);
      HalfDivMod(v, Pow2(j - 1));
    }
  }

  /** The bits of a byte come lowest first, and the bytes in order. */
  lemma {:induction false} BitOfBytes(bytes: seq<nat>, i: nat, j: nat)
    requires i < |bytes| && j < 8
    ensures BytesToBits(bytes)[8 * i + j] == (bytes[i] / Pow2(j) % 2 == 1)
  {
    hide Pow2, BitsOf;
    var first := BitsOf(bytes[0], 8);
    if i == 0 {
      BitOf(bytes[0], 8, j);
    } else {
      BitOfBytes(bytes[1..], i - 1, j);
      assert BytesToBits(bytes)[8 * i + j] == BytesToBits(bytes[1..])[8 * (i - 1) + j];
    }
  }

  /** A chunk whose highest bit is clear is the last; else the number goes on in the next one,
      which counts from where the other bits of this one end. */
  lemma ChunkMeans(bits: seq<bool>, pos: nat, w: nat, shift: nat, limit: nat)
    requires 2 <= w <= 32 && shift < limit && pos + w <= |bits|
    ensures var data := Nat(bits[pos..pos + w - 1]);
      if !bits[pos + w - 1] then ChunksAt(bits, pos, w, shift, limit) == Got(data, pos + w)
      else
        var rest := ChunksAt(bits, pos + w, w, shift + w - 1, limit);
        ChunksAt(bits, pos, w, shift, limit) == if rest.Got? then Got(data + Pow2(w - 1) * rest.value, rest.pos) else Outside
  {
    hide Nat, Pow2;
    var low := bits[pos..pos + w - 1];
    assert bits[pos..pos + w] == low + [bits[pos + w - 1]];
    BitCounts(low, bits[pos + w - 1]);
    NatBound(low);
    if bits[pos + w - 1] {
      DivModUnique(Nat(low) + Pow2(w - 1), Pow2(w - 1), 1, Nat(low));
    } else {
      DivModUnique(Nat(low), Pow2(w - 1), 0, Nat(low));
    }
  }

  /** The six-bit characters. */
  lemma Char6Table(v: nat)
    requires v < 64
    ensures v <= 25 ==> DecodeChar6(v) == 'a' as nat + v <= 'z' as nat
    ensures 26 <= v <= 51 ==> DecodeChar6(v) == 'A' as nat + (v - 26) <= 'Z' as nat
    ensures 52 <= v <= 61 ==> DecodeChar6(v) == '0' as nat + (v - 52) <= '9' as nat
    ensures DecodeChar6(62) == '.' as nat && DecodeChar6(63) == '_' as nat
  {
  }

  // ----- entries of a block

  /** The codes 0 to 3: the end of the block, which pops its scope and aligns to 32 bits; a
      nested block, with its id in chunks of 8; a definition; and a record of its own. */
  lemma CodeMeans(bits: seq<bool>, st: State)
    requires 2 <= st.codeSize <= 32 && st.pos + st.codeSize <= |bits|
    ensures var code, p := Nat(bits[st.pos..st.pos + st.codeSize]), st.pos + st.codeSize;
      && (code == 0 && st.scopes != [] ==> Advance(bits, st, true, true) == Done(EndBlock, Pop(st.(pos := AlignUp32(p)))))
      && (code == 0 && st.scopes == [] ==> Advance(bits, st, true, true) == Done(Error, st.(pos := p)))
      && (code == 1 && VbrAt(bits, p, 8, 32).Got? ==>
            forall pop, process :: Advance(bits, st, pop, process) == Done(SubBlock(VbrAt(bits, p, 8, 32).value), st.(pos := VbrAt(bits, p, 8, 32).pos)))
      && (code == 2 ==> Advance(bits, st, true, false) == Done(RecordEntry(2), st.(pos := p)))
      && (code == 2 && DefineAt(bits, p).Got? && DefineAt(bits, p).pos <= |bits| ==>
            Advance(bits, st, true, true)
            == Advance(bits, st.(pos := DefineAt(bits, p).pos, abbrevs := st.abbrevs + [DefineAt(bits, p).value]), true, true))
      && (code >= 3 ==> forall pop, process :: Advance(bits, st, pop, process) == Done(RecordEntry(code), st.(pos := p)))
  {
    hide Nat, DefineAt, VbrAt, Pow2;
    var code := Nat(bits[st.pos..st.pos + st.codeSize]);
    NatBound(bits[st.pos..st.pos + st.codeSize]);
    Pow2Monotone(st.codeSize, 32);
    DivModUnique(code, Pow2(32), 0, code);
  }

  /** Record 3 is a code, a count and so many values, all in chunks of 6; from 4 on the
      abbreviations of the block are counted. */
  lemma RecordMeans(bits: seq<bool>, pos: nat, abbrevs: seq<Abbrev>, id: nat)
    ensures var code := VbrAt(bits, pos, 6, 32);
      code.Got? ==>
      var count := VbrAt(bits, code.pos, 6, 32);
      count.Got? ==>
      var values := FieldsAt(bits, count.pos, Vbr(6), count.value);
      values.Got? ==> RecordAt(bits, pos, abbrevs, 3) == Got(Record(code.value, values.value), values.pos)
    ensures id < 3 || id >= 4 + |abbrevs| ==> RecordAt(bits, pos, abbrevs, id) == Fatal
    ensures 4 <= id < 4 + |abbrevs| && |abbrevs[id - 4]| >= 1 && abbrevs[id - 4][0].IsScalar() ==>
      var code := FieldAt(bits, pos, abbrevs[id - 4][0]);
      code.Got? ==>
      var values := OpsAt(bits, code.pos, abbrevs[id - 4][1..]);
      values.Got? ==> RecordAt(bits, pos, abbrevs, id) == Got(Record(code.value % 0x1_0000_0000, values.value), values.pos)
  {
    hide VbrAt, FieldsAt, FieldAt, OpsAt;
    Pow2Constants();
    hide Pow2;
  }

  /** An operand of a definition: one bit for a literal, whose value is in chunks of 8; else
      three bits for its encoding, with the width of the first two in chunks of 5. */
  lemma OperandMeans(bits: seq<bool>, pos: nat)
    requires pos + 4 <= |bits|
    ensures var v := VbrAt(bits, pos + 1, 8, 64); bits[pos] && v.Got? ==> OpDefAt(bits, pos) == Got(Literal(v.value), v.pos)
    ensures var enc, width := Nat(bits[pos + 1..pos + 4]), VbrAt(bits, pos + 4, 5, 64);
      !bits[pos] ==>
      && (enc == 1 && width.Got? && 1 <= width.value <= 64 ==> OpDefAt(bits, pos) == Got(Fixed(width.value), width.pos))
      && (enc == 2 && width.Got? && 1 <= width.value <= 64 ==> OpDefAt(bits, pos) == Got(Vbr(width.value), width.pos))
      && (enc in {1, 2} && width.Got? && width.value == 0 ==> OpDefAt(bits, pos) == Got(Literal(0), width.pos))
      && (enc in {1, 2} && width.Got? && width.value > 64 ==> OpDefAt(bits, pos) == Fatal)
      && (enc == 3 ==> OpDefAt(bits, pos) == Got(Array, pos + 4))
      && (enc == 4 ==> OpDefAt(bits, pos) == Got(Char6, pos + 4))
      && (enc == 5 ==> OpDefAt(bits, pos) == Got(Blob, pos + 4))
      && (enc !in {1, 2, 3, 4, 5} ==> OpDefAt(bits, pos) == Fatal)
  {
    hide VbrAt;
    assert bits[pos..pos + 1] == [bits[pos]] && [bits[pos]][1..] == [];
    assert Nat([bits[pos]]) == if bits[pos] then 1 else 0;
    assert pos + 1 + 3 == pos + 4;
    hide Nat;
  }

  /** A definition counts its operands in chunks of 5; a list counts its elements in chunks
      of 6; and a blob its bytes, which begin at the next multiple of 32 bits. */
  lemma CountsMean(bits: seq<bool>, pos: nat, elem: AbbrevOp)
    requires elem.IsScalar()
    ensures var count := VbrAt(bits, pos, 5, 32);
      count.Got? ==>
      var ops := OpDefsAt(bits, count.pos, count.value);
      ops.Got? && ops.value != [] ==> DefineAt(bits, pos) == Got(ops.value, ops.pos)
    ensures var count := VbrAt(bits, pos, 6, 32);
      count.Got? ==> OpsAt(bits, pos, [Array, elem]) == FieldsAt(bits, count.pos, elem, count.value)
    ensures var count := VbrAt(bits, pos, 6, 32);
      count.Got? && BlobAt(bits, pos).Got? ==>
      var start := AlignUp32(count.pos);
      && start + 8 * count.value <= |bits|
      && BlobAt(bits, pos).value == BytesAt(bits, start, count.value)
  {
    hide VbrAt, OpDefsAt, FieldsAt, BytesAt, BlobSpan;
    assert [Array, elem][0] == Array && [Array, elem][1] == elem;
  }

  // ----- blocks

  /** A block begins with its code width in chunks of 4 and, at the next multiple of 32 bits,
      its length in words in 32 bits. */
  lemma HeaderMeans(bits: seq<bool>, st: State, registered: seq<Abbrev>)
    requires var width := VbrAt(bits, st.pos, 4, 32); width.Got? && AlignUp32(width.pos) + 32 < |bits|
    ensures var width := VbrAt(bits, st.pos, 4, 32);
      var start := AlignUp32(width.pos) + 32;
      var words := Nat(bits[start - 32..start]);
      && (1 <= width.value <= 64 ==>
            EnterSubBlock(bits, st, registered) == Done(false, State(start, width.value, registered, st.scopes + [Scope(st.codeSize, st.abbrevs)])))
      && (words < 0x800_0000 && start + 32 * words < |bits| ==> SkipBlock(bits, st) == Done(false, st.(pos := start + 32 * words)))
  {
    hide VbrAt, Nat;
    var width := VbrAt(bits, st.pos, 4, 32);
    var start := AlignUp32(width.pos) + 32;
    assert bits[AlignUp32(width.pos)..AlignUp32(width.pos) + 32] == bits[start - 32..start];
    var words := Nat(bits[start - 32..start]);
    Pow2Constants();
    hide Pow2, AlignUp32;
    assert words < 0x800_0000 ==> words * 32 % Pow2(32) == 32 * words;
  }

  /** In BLOCKINFO record 1 names the block that definitions are for; records 2 and 3 need
      one named; any other record says nothing. */
  lemma InfoRecordMeans(bits: seq<bool>, st: State, st1: State, rec: Record, end: nat, table: seq<BlockInfo>, index: nat)
    requires AdvanceSkipping(bits, st, true, false) == Done(RecordEntry(3), st1) && st1.pos <= |bits|
    requires RecordAt(bits, st1.pos, st1.abbrevs, 3) == Got(rec, end) && end <= |bits|
    ensures rec.code == 1 && rec.values == [] ==> InfoRecords(bits, st, table, index) == Done((true, table), st1.(pos := end))
    ensures rec.code == 1 && rec.values != [] ==>
      var id := rec.values[0] % 0x1_0000_0000;
      InfoRecords(bits, st, table, index) == InfoRecords(bits, st1.(pos := end), WithEntry(table, id), IndexOf(table, id))
    ensures rec.code in {2, 3} && index >= |table| ==> InfoRecords(bits, st, table, index) == Done((true, table), st1.(pos := end))
    ensures rec.code != 1 && (rec.code !in {2, 3} || index < |table|) ==>
      InfoRecords(bits, st, table, index) == InfoRecords(bits, st1.(pos := end), table, index)
  {
    hide AdvanceSkipping, RecordAt, DefineAt, WithEntry;
    Pow2Constants();
    hide Pow2;
  }
}
