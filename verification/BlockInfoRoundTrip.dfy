/** A written BLOCKINFO block, read back, registers each definition for the block id
    that was current when it was written. */
module BlockInfoRoundTrip {
  import opened Bits
  import opened BitCodes
  import opened BitStreamSpec
  import opened BitStreamWriter
  import opened BitStreamBlocks

  /** The block ids come from SETBID records; -1 before the first one. */
  function CurrentAfter(curr: int, item: Item): int {
    if item.Rec? && item.record.code == SET_BLOCK_ID && item.record.values != [] then item.record.values[0]
    else curr
  }

  /** The definitions written while `id` was current, in order. */
  function DefinitionsFor(items: seq<Item>, curr: int, id: nat): seq<Abbrev> {
    if items == [] then []
    else (if items[0].Define? && curr == id then [items[0].ops] else [])
         + DefinitionsFor(items[1..], CurrentAfter(curr, items[0]), id)
  }

  /** What a BLOCKINFO block can hold: unabbreviated records, definitions and nested blocks,
      and nothing is said about a block before the first SETBID.  Its definitions never become
      its own, so an abbreviated record has nothing to refer to (AbbreviatedFails). */
  predicate GoodInfo(items: seq<Item>, curr: int) {
    items == []
    || ((match items[0]
         case Define(_) => curr >= 0
         case Rec(id, r) =>
           && id == UNABBREV_RECORD
           && (r.code == SET_BLOCK_ID ==> r.values != [] && r.values[0] < Pow2(32))
           && (r.code == BLOCK_NAME || r.code == SET_RECORD_NAME ==> curr >= 0)
         case Nested(_) => true)
        && GoodInfo(items[1..], CurrentAfter(curr, items[0])))
  }

  /** A nested block is short enough to be stepped over. */
  predicate ShortItem(pos: nat, width: nat, abbrevs: seq<Abbrev>, info: Info, item: Item)
    requires FitsItem(width, abbrevs, info, item)
  {
    item.Nested? ==> BodyLength(NestedStart(pos, width, item.block), info, item.block) / 32 < 0x800_0000
  }

  predicate ShortNested(pos: nat, width: nat, abbrevs: seq<Abbrev>, info: Info, items: seq<Item>)
    requires FitsItems(width, abbrevs, info, items)
    decreases |items|
  {
    items == []
    || (ShortItem(pos, width, abbrevs, info, items[0])
        && ShortNested(pos + |WriteItem(pos, width, abbrevs, info, items[0])|, width, AbbrevsAfter(abbrevs, items[0]), info, items[1..]))
  }

  /** `index` is the entry of the current block id. */
  ghost predicate Current(table: seq<BlockInfo>, index: nat, curr: int) {
    if curr >= 0 then index < |table| && table[index].blockId == curr else index >= |table|
  }

  lemma IndexOfUnique(table: seq<BlockInfo>, i: nat)
    requires UniqueIds(table) && i < |table|
    ensures IndexOf(table, table[i].blockId) == i
  {
  }

  lemma AddedAbbrev(table: seq<BlockInfo>, index: nat, curr: nat, ops: Abbrev, id: nat)
    requires UniqueIds(table) && Current(table, index, curr)
    ensures UniqueIds(WithAbbrev(table, index, ops)) && Current(WithAbbrev(table, index, ops), index, curr)
    ensures RegisteredAbbrevs(WithAbbrev(table, index, ops), id)
         == RegisteredAbbrevs(table, id) + (if curr == id then [ops] else [])
  {
    var table' := WithAbbrev(table, index, ops);
    IndexOfUnique(table, index);
    IndexOfUnique(table', index);
    var i, i' := IndexOf(table, id), IndexOf(table', id);
    assert i == i' by {
      if i < |table| { IndexOfUnique(table', i); }
      if i' < |table'| { IndexOfUnique(table, i'); }
    }
  }

  lemma AddedEntry(table: seq<BlockInfo>, curr: nat, id: nat)
    requires UniqueIds(table)
    ensures UniqueIds(WithEntry(table, curr)) && Current(WithEntry(table, curr), IndexOf(table, curr), curr)
    ensures RegisteredAbbrevs(WithEntry(table, curr), id) == RegisteredAbbrevs(table, id)
  {
    hide IndexOf;
    if IndexOf(table, curr) == |table| {
      IndexOfAppend(table, BlockInfo(curr, []), id);
      IndexOfAppend(table, BlockInfo(curr, []), curr);
    }
  }

  lemma IndexOfAppend(table: seq<BlockInfo>, e: BlockInfo, id: nat)
    ensures IndexOf(table + [e], id) ==
      if IndexOf(table, id) < |table| then IndexOf(table, id)
      else if e.blockId == id then |table| else |table| + 1
  {
    hide IndexOf;
    var i, i' := IndexOf(table, id), IndexOf(table + [e], id);
    assert i' < |table| ==> (table + [e])[i'] == table[i'];
    assert i < |table| ==> (table + [e])[i] == table[i];
    assert (table + [e])[|table|] == e;
  }

  lemma AdvanceToCode(bits: seq<bool>, st: State, code: nat)
    requires 1 <= st.codeSize <= MAX_CHUNK_SIZE && code < Pow2(st.codeSize) && 2 <= code < Pow2(32)
    requires Holds(bits, st.pos, BitsOf(code, st.codeSize))
    ensures AdvanceSkipping(bits, st, true, false) == Done(RecordEntry(code), st.(pos := st.pos + st.codeSize))
  {
    hide BitsOf, Nat, Pow2, AdvanceSkipping;
    CodeWritten(bits, st.pos, code, st.codeSize);
    assert Advance(bits, st, true, false) == Done(RecordEntry(code), st.(pos := st.pos + st.codeSize));
    NoSkip(bits, st, true, false);
  }

  /** Stepping over a nested block is going on behind it. */
  lemma AdvanceOverBlock(bits: seq<bool>, st: State, info: Info, block: Block)
    requires 1 <= st.codeSize <= MAX_CHUNK_SIZE && FitsItem(st.codeSize, st.abbrevs, info, Nested(block))
    requires BodyLength(NestedStart(st.pos, st.codeSize, block), info, block) / 32 < 0x800_0000
    requires var w := WriteItem(st.pos, st.codeSize, st.abbrevs, info, Nested(block));
      Holds(bits, st.pos, w) && st.pos + |w| < |bits| && |bits| % 8 == 0
    ensures var w := WriteItem(st.pos, st.codeSize, st.abbrevs, info, Nested(block));
      AdvanceSkipping(bits, st, true, false) == AdvanceSkipping(bits, st.(pos := st.pos + |w|), true, false)
  {
    hide WriteItem, FitsItem, BitsOf, Nat, Pow2, WriteVbr, WriteBlock, BodyLength, Advance, AdvanceSkipping, SkipBlock, FitsBlock, Holds;
    NestedItem(st.pos, st.codeSize, st.abbrevs, info, block);
    var id := WriteVbr(block.id, BLOCK_ID_WIDTH);
    var p, start := st.pos + st.codeSize, NestedStart(st.pos, st.codeSize, block);
    HoldsSplit(bits, st.pos, BitsOf(ENTER_SUBBLOCK, st.codeSize), id + WriteBlock(start, info, block));
    HoldsSplit(bits, p, id, WriteBlock(start, info, block));
    SubBlockWritten(bits, st, block.id, false);
    Pow2Constants();
    SkipBlockWritten(bits, st.(pos := start), info, block);
    SkipsOne(bits, st, st.(pos := start), st.(pos := start + |WriteBlock(start, info, block)|), block.id);
  }

  lemma SkipsOne(bits: seq<bool>, st: State, st1: State, st2: State, id: nat)
    requires Advance(bits, st, true, false) == Done(SubBlock(id), st1) && SkipBlock(bits, st1) == Done(false, st2)
    ensures AdvanceSkipping(bits, st, true, false) == AdvanceSkipping(bits, st2, true, false)
  {
    hide Advance, SkipBlock;
  }

  lemma NoSkip(bits: seq<bool>, st: State, popAtEnd: bool, processAbbrevs: bool)
    requires var r := Advance(bits, st, popAtEnd, processAbbrevs); r.Done? && !r.value.SubBlock?
    ensures AdvanceSkipping(bits, st, popAtEnd, processAbbrevs) == Advance(bits, st, popAtEnd, processAbbrevs)
  {
  }

  /** The table that holds after an item, and the index that is current. */
  function TableAfter(table: seq<BlockInfo>, index: nat, item: Item): (seq<BlockInfo>, nat)
    requires item.Define? ==> index < |table|
  {
    if item.Define? then (WithAbbrev(table, index, item.ops), index)
    else if item.Rec? && item.record.code == SET_BLOCK_ID && item.record.values != [] then
      (WithEntry(table, item.record.values[0]), IndexOf(table, item.record.values[0]))
    else (table, index)
  }

  lemma DefinitionRead(bits: seq<bool>, st: State, st1: State, ops: Abbrev, end: nat, table: seq<BlockInfo>, index: nat)
    requires AdvanceSkipping(bits, st, true, false) == Done(RecordEntry(DEFINE_ABBREV), st1)
    requires st1.pos <= |bits| && DefineAt(bits, st1.pos) == Got(ops, end) && end <= |bits| && index < |table|
    ensures InfoRecords(bits, st, table, index) == InfoRecords(bits, st1.(pos := end), WithAbbrev(table, index, ops), index)
  {
    hide AdvanceSkipping, DefineAt, RecordAt, WithAbbrev, WithEntry;
  }

  lemma RecordRead(bits: seq<bool>, st: State, st1: State, rec: Record, end: nat, table: seq<BlockInfo>, index: nat)
    requires AdvanceSkipping(bits, st, true, false) == Done(RecordEntry(UNABBREV_RECORD), st1) && st1.pos <= |bits|
    requires RecordAt(bits, st1.pos, st1.abbrevs, UNABBREV_RECORD) == Got(rec, end) && end <= |bits|
    requires rec.code == SET_BLOCK_ID ==> rec.values != [] && rec.values[0] < Pow2(32)
    requires rec.code == BLOCK_NAME || rec.code == SET_RECORD_NAME ==> index < |table|
    ensures var (table', index') := TableAfter(table, index, Rec(UNABBREV_RECORD, rec));
      InfoRecords(bits, st, table, index) == InfoRecords(bits, st1.(pos := end), table', index')
  {
    hide AdvanceSkipping, DefineAt, RecordAt, WithAbbrev, WithEntry, Pow2;
    if rec.code == SET_BLOCK_ID {
      DivModUnique(rec.values[0], Pow2(32), 0, rec.values[0]);
    }
  }

  lemma InfoDefineStep(bits: seq<bool>, st: State, abbrevs: seq<Abbrev>, info: Info, items: seq<Item>,
                       table: seq<BlockInfo>, index: nat, curr: int)
    requires items != [] && items[0].Define? && 1 <= st.codeSize <= MAX_CHUNK_SIZE && GoodInfo(items, curr)
    requires Current(table, index, curr)
    requires FitsItem(st.codeSize, abbrevs, info, items[0])
    requires var w := WriteItem(st.pos, st.codeSize, abbrevs, info, items[0]);
      Holds(bits, st.pos, w) && st.pos + |w| < |bits|
    ensures var w := WriteItem(st.pos, st.codeSize, abbrevs, info, items[0]);
      var (table', index') := TableAfter(table, index, items[0]);
      InfoRecords(bits, st, table, index) == InfoRecords(bits, st.(pos := st.pos + |w|), table', index')
  {
    hide BitsOf, Nat, Pow2, WriteDefine, DefineAt, WriteRecord, AdvanceSkipping, WithAbbrev, FitsBlock, FitsRecord,
      WriteBlock, InfoRecords, Holds, DefinableAbbrev;
    var ops := items[0].ops;
    Pow2Constants();
    HoldsSplit(bits, st.pos, BitsOf(DEFINE_ABBREV, st.codeSize), WriteDefine(ops));
    AdvanceToCode(bits, st, DEFINE_ABBREV);
    var p := st.pos + st.codeSize;
    DefineRoundTrip(bits, p, ops);
    DefinitionRead(bits, st, st.(pos := p), ops, p + |WriteDefine(ops)|, table, index);
  }

  lemma UnabbreviatedAnywhere(bits: seq<bool>, pos: nat, a: seq<Abbrev>, b: seq<Abbrev>)
    ensures RecordAt(bits, pos, a, UNABBREV_RECORD) == RecordAt(bits, pos, b, UNABBREV_RECORD)
  {
  }

  lemma InfoRecStep(bits: seq<bool>, st: State, abbrevs: seq<Abbrev>, info: Info, items: seq<Item>,
                    table: seq<BlockInfo>, index: nat, curr: int)
    requires items != [] && items[0].Rec? && 1 <= st.codeSize <= MAX_CHUNK_SIZE && GoodInfo(items, curr)
    requires Current(table, index, curr)
    requires FitsItem(st.codeSize, abbrevs, info, items[0])
    requires var w := WriteItem(st.pos, st.codeSize, abbrevs, info, items[0]);
      Holds(bits, st.pos, w) && st.pos + |w| < |bits|
    ensures var w := WriteItem(st.pos, st.codeSize, abbrevs, info, items[0]);
      var (table', index') := TableAfter(table, index, items[0]);
      InfoRecords(bits, st, table, index) == InfoRecords(bits, st.(pos := st.pos + |w|), table', index')
  {
    hide BitsOf, Nat, Pow2, WriteDefine, WriteRecord, RecordAt, AdvanceSkipping, WithEntry, FitsBlock, FitsRecord,
      WriteBlock, InfoRecords, Holds, TableAfter;
    var p, id, r := st.pos + st.codeSize, items[0].abbrevId, items[0].record;
    Pow2Constants();
    HoldsSplit(bits, st.pos, BitsOf(id, st.codeSize), WriteRecord(p, abbrevs, id, r));
    AdvanceToCode(bits, st, id);
    RecordRoundTrip(bits, p, abbrevs, id, r);
    UnabbreviatedAnywhere(bits, p, abbrevs, st.abbrevs);
    RecordRead(bits, st, st.(pos := p), r, p + |WriteRecord(p, abbrevs, id, r)|, table, index);
  }

  lemma InfoNestedStep(bits: seq<bool>, st: State, abbrevs: seq<Abbrev>, info: Info, items: seq<Item>,
                       table: seq<BlockInfo>, index: nat)
    requires items != [] && items[0].Nested? && 1 <= st.codeSize <= MAX_CHUNK_SIZE && |bits| % 8 == 0
    requires FitsItems(st.codeSize, abbrevs, info, items) && ShortNested(st.pos, st.codeSize, abbrevs, info, items)
    requires var w := WriteItem(st.pos, st.codeSize, abbrevs, info, items[0]);
      Holds(bits, st.pos, w) && st.pos + |w| < |bits|
    ensures var w := WriteItem(st.pos, st.codeSize, abbrevs, info, items[0]);
      InfoRecords(bits, st, table, index) == InfoRecords(bits, st.(pos := st.pos + |w|), table, index)
  {
    hide BitsOf, WriteVbr, WriteBlock, BodyLength, AdvanceSkipping, RecordAt, DefineAt, FitsBlock;
    AdvanceOverBlock(bits, st, info, items[0].block);
  }

  /** One item: the reader goes on after it with the table it leaves. */
  lemma InfoItemStep(bits: seq<bool>, st: State, abbrevs: seq<Abbrev>, info: Info, items: seq<Item>,
                     table: seq<BlockInfo>, index: nat, curr: int)
    requires 1 <= st.codeSize <= MAX_CHUNK_SIZE && items != [] && GoodInfo(items, curr) && |bits| % 8 == 0
    requires Current(table, index, curr)
    requires FitsItems(st.codeSize, abbrevs, info, items) && ShortNested(st.pos, st.codeSize, abbrevs, info, items)
    requires var w := WriteItem(st.pos, st.codeSize, abbrevs, info, items[0]);
      Holds(bits, st.pos, w) && st.pos + |w| < |bits|
    ensures var w := WriteItem(st.pos, st.codeSize, abbrevs, info, items[0]);
      var (table', index') := TableAfter(table, index, items[0]);
      InfoRecords(bits, st, table, index) == InfoRecords(bits, st.(pos := st.pos + |w|), table', index')
  {
    hide InfoRecords, WriteItem, FitsItem, ShortNested;
    match items[0]
    case Define(_) => InfoDefineStep(bits, st, abbrevs, info, items, table, index, curr);
    case Rec(_, _) => InfoRecStep(bits, st, abbrevs, info, items, table, index, curr);
    case Nested(_) => InfoNestedStep(bits, st, abbrevs, info, items, table, index);
  }

  /** Reading the items of a BLOCKINFO block adds to every block id exactly the
      definitions made for it, and ends after the block. */
  lemma {:induction false} InfoRecordsWritten(bits: seq<bool>, st: State, abbrevs: seq<Abbrev>, info: Info,
                                              items: seq<Item>, table: seq<BlockInfo>, index: nat, curr: int, id: nat)
    requires 1 <= st.codeSize <= MAX_CHUNK_SIZE && st.scopes != []
    requires FitsItems(st.codeSize, abbrevs, info, items) && GoodInfo(items, curr)
    requires |bits| % 8 == 0 && ShortNested(st.pos, st.codeSize, abbrevs, info, items)
    requires UniqueIds(table) && Current(table, index, curr)
    requires Holds(bits, st.pos, WriteBody(st.pos, st.codeSize, abbrevs, info, items))
    ensures var r := InfoRecords(bits, st, table, index);
      && r.Done? && !r.value.0
      && r.st == Pop(st.(pos := st.pos + |WriteBody(st.pos, st.codeSize, abbrevs, info, items)|))
      && UniqueIds(r.value.1)
      && RegisteredAbbrevs(r.value.1, id) == RegisteredAbbrevs(table, id) + DefinitionsFor(items, curr, id)
    decreases |items|
  {
    hide BitsOf, Nat, Pow2, InfoRecords, WriteItem, FitsItem, WriteBody, UniqueIds, RegisteredAbbrevs, WithEntry, WithAbbrev, Advance;
    if items == [] {
      EmptyInfo(bits, st, abbrevs, info, table, index);
      assert RegisteredAbbrevs(table, id) + [] == RegisteredAbbrevs(table, id);
    } else {
      var first := WriteItem(st.pos, st.codeSize, abbrevs, info, items[0]);
      var st' := st.(pos := st.pos + |first|);
      var abbrevs', curr' := AbbrevsAfter(abbrevs, items[0]), CurrentAfter(curr, items[0]);
      BodyStep(st.pos, st.codeSize, abbrevs, info, items);
      HoldsSplit(bits, st.pos, first, WriteBody(st'.pos, st.codeSize, abbrevs', info, items[1..]));
      BodyLonger(st'.pos, st.codeSize, abbrevs', info, items[1..]);
      InfoItemStep(bits, st, abbrevs, info, items, table, index, curr);
      TableStep(table, index, items, curr, id);
      var (table', index') := TableAfter(table, index, items[0]);
      InfoRecordsWritten(bits, st', abbrevs', info, items[1..], table', index', curr', id);
    }
  }

  lemma BodyLonger(pos: nat, width: nat, abbrevs: seq<Abbrev>, info: Info, items: seq<Item>)
    requires FitsItems(width, abbrevs, info, items)
    ensures |WriteBody(pos, width, abbrevs, info, items)| >= width
  {
    hide WriteItems;
  }

  lemma EmptyInfo(bits: seq<bool>, st: State, abbrevs: seq<Abbrev>, info: Info, table: seq<BlockInfo>, index: nat)
    requires 1 <= st.codeSize <= MAX_CHUNK_SIZE && st.scopes != []
    requires Holds(bits, st.pos, WriteBody(st.pos, st.codeSize, abbrevs, info, []))
    ensures InfoRecords(bits, st, table, index)
         == Done((false, table), Pop(st.(pos := st.pos + |WriteBody(st.pos, st.codeSize, abbrevs, info, [])|)))
  {
    hide BitsOf, Nat, Pow2, AdvanceSkipping, WriteBody;
    EmptyBody(bits, st.(abbrevs := abbrevs), info);
    CodeWritten(bits, st.pos, END_BLOCK, st.codeSize);
    NoSkip(bits, st, true, false);
  }

  lemma TableStep(table: seq<BlockInfo>, index: nat, items: seq<Item>, curr: int, id: nat)
    requires items != [] && GoodInfo(items, curr) && UniqueIds(table) && Current(table, index, curr)
    ensures var (table', index') := TableAfter(table, index, items[0]);
      var curr' := CurrentAfter(curr, items[0]);
      && UniqueIds(table') && Current(table', index', curr')
      && RegisteredAbbrevs(table', id) + DefinitionsFor(items[1..], curr', id)
         == RegisteredAbbrevs(table, id) + DefinitionsFor(items, curr, id)
  {
    hide UniqueIds, RegisteredAbbrevs, WithEntry, WithAbbrev, FitsItem;
    var item := items[0];
    var first: seq<Abbrev> := if item.Define? && curr == id then [item.ops] else [];
    var rest := DefinitionsFor(items[1..], CurrentAfter(curr, item), id);
    var before := RegisteredAbbrevs(table, id);
    assert DefinitionsFor(items, curr, id) == first + rest;
    assert before + (first + rest) == before + first + rest;
    assert before + [] == before;
    assert item.Define? ==> curr >= 0;
    assert item.Rec? && item.record.code == SET_BLOCK_ID ==> item.record.values != [];
    hide DefinitionsFor, GoodInfo;
    if items[0].Define? {
      AddedAbbrev(table, index, curr, items[0].ops, id);
    } else if items[0].Rec? && items[0].record.code == SET_BLOCK_ID {
      AddedEntry(table, items[0].record.values[0], id);
    }
  }

  /** Inside BLOCKINFO no abbreviation is defined, so an abbreviated record is a fatal error. */
  lemma AbbreviatedFails(bits: seq<bool>, st: State, table: seq<BlockInfo>, index: nat, id: nat)
    requires 1 <= st.codeSize <= MAX_CHUNK_SIZE && st.abbrevs == []
    requires FIRST_APPLICATION_ABBREV <= id < Pow2(st.codeSize) && id < Pow2(32)
    requires Holds(bits, st.pos, BitsOf(id, st.codeSize))
    ensures InfoRecords(bits, st, table, index) == Failed
  {
    hide BitsOf, Nat, Pow2, AdvanceSkipping, DefineAt;
    AdvanceToCode(bits, st, id);
  }

  /** A whole BLOCKINFO block, read into an empty table. */
  lemma BlockInfoWritten(bits: seq<bool>, st: State, info: Info, block: Block, id: nat)
    requires block.id == BLOCKINFO_BLOCK_ID && BLOCKINFO_BLOCK_ID !in info
    requires FitsBlock(info, block) && GoodInfo(block.items, -1)
    requires |bits| % 8 == 0 && ShortNested(BodyStart(st.pos, block), block.width, [], info, block.items)
    requires Holds(bits, st.pos, WriteBlock(st.pos, info, block))
    ensures var r := ReadBlockInfo(bits, st, []);
      && r.Done? && !r.value.0
      && r.st == st.(pos := st.pos + |WriteBlock(st.pos, info, block)|)
      && RegisteredAbbrevs(r.value.1, id) == DefinitionsFor(block.items, -1, id)
  {
    hide BitsOf, Nat, Pow2, InfoRecords, WriteVbr, VbrAt, FitsItems, WriteBlock, WriteItems, GoodInfo, ShortNested;
    HeaderWritten(bits, st, info, block);
    var start := BodyStart(st.pos, block);
    var scopes := st.scopes + [Scope(st.codeSize, st.abbrevs)];
    var st1 := State(start, block.width, [], scopes);
    BodyIsWords(st.pos, info, block);
    InfoRecordsWritten(bits, st1, [], info, block.items, [], 0, -1, id);
    assert scopes[..|st.scopes|] == st.scopes;
    assert [] + DefinitionsFor(block.items, -1, id) == DefinitionsFor(block.items, -1, id);
  }
}
