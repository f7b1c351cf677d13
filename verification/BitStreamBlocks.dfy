/** Nested blocks: writing them, walking through them, skipping over them. */
module BitStreamBlocks {
  import opened Bits
  import opened BitCodes
  import opened BitStreamSpec
  import opened BitStreamWriter

  /** What a block contains. */
  datatype Item =
    | Rec(abbrevId: nat, record: Record)
    | Define(ops: Abbrev)
    | Nested(block: Block)

  datatype Block = Block(id: nat, width: nat, items: seq<Item>)

  /** The abbreviations BLOCKINFO registered, by block id. */
  type Info = map<nat, seq<Abbrev>>

  function Registered(info: Info, id: nat): seq<Abbrev> {
    if id in info then info[id] else []
  }

  // ----- the writer

  function AbbrevsAfter(abbrevs: seq<Abbrev>, item: Item): seq<Abbrev> {
    if item.Define? then abbrevs + [item.ops] else abbrevs
  }

  /** An item can be written with the given code width and abbreviations. */
  predicate FitsItem(width: nat, abbrevs: seq<Abbrev>, info: Info, item: Item)
    decreases item, 0
  {
    match item
    case Rec(id, r) => id < Pow2(width) && id < Pow2(32) && FitsRecord(abbrevs, id, r)
    case Define(ops) => DEFINE_ABBREV < Pow2(width) && DefinableAbbrev(ops)
    case Nested(block) => ENTER_SUBBLOCK < Pow2(width) && FitsBlock(info, block)
  }

  predicate FitsBlock(info: Info, block: Block)
    decreases block, 1
  {
    block.id < Pow2(32) && 1 <= block.width <= MAX_CHUNK_SIZE
    && FitsItems(block.width, Registered(info, block.id), info, block.items)
  }

  predicate FitsItems(width: nat, abbrevs: seq<Abbrev>, info: Info, items: seq<Item>)
    decreases items, 0
  {
    items == []
    || (FitsItem(width, abbrevs, info, items[0])
        && FitsItems(width, AbbrevsAfter(abbrevs, items[0]), info, items[1..]))
  }

  function WriteItem(pos: nat, width: nat, abbrevs: seq<Abbrev>, info: Info, item: Item): seq<bool>
    requires FitsItem(width, abbrevs, info, item)
    decreases item, 0
  {
    match item
    case Rec(id, r) => BitsOf(id, width) + WriteRecord(pos + width, abbrevs, id, r)
    case Define(ops) => BitsOf(DEFINE_ABBREV, width) + WriteDefine(ops)
    case Nested(block) =>
      var id := WriteVbr(block.id, BLOCK_ID_WIDTH);
      BitsOf(ENTER_SUBBLOCK, width) + (id + WriteBlock(pos + width + |id|, info, block))
  }

  function WriteItems(pos: nat, width: nat, abbrevs: seq<Abbrev>, info: Info, items: seq<Item>): seq<bool>
    requires FitsItems(width, abbrevs, info, items)
    decreases items, 0
  {
    if items == [] then []
    else
      var first := WriteItem(pos, width, abbrevs, info, items[0]);
      first + WriteItems(pos + |first|, width, AbbrevsAfter(abbrevs, items[0]), info, items[1..])
  }

  /** The items of a block, END_BLOCK, and the alignment after it. */
  function WriteBody(pos: nat, width: nat, abbrevs: seq<Abbrev>, info: Info, items: seq<Item>): seq<bool>
    requires FitsItems(width, abbrevs, info, items)
    decreases items, 1
  {
    var content := WriteItems(pos, width, abbrevs, info, items);
    content + (BitsOf(END_BLOCK, width) + PadTo32(pos + |content| + width))
  }

  /** Section "Blocks": [newabbrevlen, <align32bits>, blocklen, body].  The length is
      cut to its 32-bit field. */
  function WriteBlock(pos: nat, info: Info, block: Block): seq<bool>
    requires FitsBlock(info, block)
    decreases block, 1
  {
    var width := WriteVbr(block.width, CODE_LEN_WIDTH);
    var start := AlignUp32(pos + |width|) + BLOCK_SIZE_WIDTH;
    var body := WriteBody(start, block.width, Registered(info, block.id), info, block.items);
    width + (PadTo32(pos + |width|) + (BitsOf(|body| / 32, BLOCK_SIZE_WIDTH) + body))
  }

  // ----- the walk

  /** Consume a block entry by entry, the way every parser of a block does: enter it,
      read the records that Advance reports, go into nested blocks, stop at END_BLOCK. */
  function WalkBlock(bits: seq<bool>, st: State, info: Info, id: nat): (r: Step<Block>)
    ensures r.Done? ==> st.pos < r.st.pos
    decreases |bits| - st.pos, 0
  {
    match EnterSubBlock(bits, st, Registered(info, id))
    case Done(failed, st1) =>
      if failed then Failed
      else if !(st.pos < st1.pos <= |bits|) then Beyond
      else (
        match WalkItems(bits, st1, info)
        case Done(items, st2) => Done(Block(id, st1.codeSize, items), st2)
        case Failed => Failed
        case Beyond => Beyond)
    case Failed => Failed
    case Beyond => Beyond
  }

  function WalkItems(bits: seq<bool>, st: State, info: Info): (r: Step<seq<Item>>)
    ensures r.Done? ==> st.pos < r.st.pos
    decreases |bits| - st.pos, 1
  {
    match Advance(bits, st, true, true)
    case Done(EndBlock, st1) => Done([], st1)
    case Done(RecordEntry(id), st1) => (
      match RecordAt(bits, st1.pos, st1.abbrevs, id)
      case Got(rec, end) =>
        if end <= |bits| then WalkRest(bits, st1.(pos := end), info, st.pos, Rec(id, rec)) else Beyond
      case Fatal => Failed
      case Outside => Beyond)
    case Done(SubBlock(id), st1) =>
      if st1.pos > |bits| then Beyond
      else (
        match WalkBlock(bits, st1, info, id)
        case Done(block, st2) =>
          if st2.pos <= |bits| then WalkRest(bits, st2, info, st.pos, Nested(block)) else Beyond
        case Failed => Failed
        case Beyond => Beyond)
    case Done(Error, _) => Failed
    case Failed => Failed
    case Beyond => Beyond
  }

  function WalkRest(bits: seq<bool>, st: State, info: Info, ghost from: nat, first: Item): (r: Step<seq<Item>>)
    requires from < st.pos <= |bits|
    ensures r.Done? ==> st.pos < r.st.pos
    decreases |bits| - from, 0
  {
    match WalkItems(bits, st, info)
    case Done(rest, end) => Done([first] + rest, end)
    case Failed => Failed
    case Beyond => Beyond
  }

  // ----- the walk finds what was written

  /** What the walk reports: abbreviation definitions are consumed silently. */
  function Visible(items: seq<Item>): seq<Item>
    decreases items, 0
  {
    if items == [] then [] else VisibleItem(items[0]) + Visible(items[1..])
  }

  function VisibleItem(item: Item): seq<Item>
    decreases item, 0
  {
    match item
    case Define(_) => []
    case Rec(_, _) => [item]
    case Nested(block) => [Nested(VisibleBlock(block))]
  }

  function VisibleBlock(block: Block): Block
    decreases block, 1
  {
    Block(block.id, block.width, Visible(block.items))
  }

  lemma CodeWritten(bits: seq<bool>, pos: nat, code: nat, width: nat)
    requires 1 <= width <= MAX_CHUNK_SIZE && code < Pow2(width) && code < Pow2(32)
    requires Holds(bits, pos, BitsOf(code, width))
    ensures ReadAt(bits, pos, width) == Got(code, pos + width) && code % Pow2(32) == code
  {
    hide BitsOf, Nat, Pow2;
    ReadWritten(bits, pos, code, width);
    DivModUnique(code, Pow2(32), 0, code);
  }

  lemma EndWritten(bits: seq<bool>, st: State)
    requires 1 <= st.codeSize <= MAX_CHUNK_SIZE && st.scopes != []
    requires Holds(bits, st.pos, BitsOf(END_BLOCK, st.codeSize))
    ensures Advance(bits, st, true, true) == Done(EndBlock, Pop(st.(pos := AlignUp32(st.pos + st.codeSize))))
  {
    hide BitsOf, Nat, Pow2;
    CodeWritten(bits, st.pos, END_BLOCK, st.codeSize);
  }

  /** The state after an item of the current block. */
  function After(st: State, length: nat, item: Item): State {
    st.(pos := st.pos + length, abbrevs := AbbrevsAfter(st.abbrevs, item))
  }

  /** Definitions are consumed inside Advance, so the walk from before one is the walk
      from after it. */
  lemma DefineStep(bits: seq<bool>, st: State, info: Info, ops: Abbrev)
    requires 1 <= st.codeSize <= MAX_CHUNK_SIZE && FitsItem(st.codeSize, st.abbrevs, info, Define(ops))
    requires Holds(bits, st.pos, WriteItem(st.pos, st.codeSize, st.abbrevs, info, Define(ops)))
    ensures var w := WriteItem(st.pos, st.codeSize, st.abbrevs, info, Define(ops));
      WalkItems(bits, st, info) == WalkItems(bits, After(st, |w|, Define(ops)), info)
  {
    hide BitsOf, Nat, Pow2, WriteDefine, DefineAt, DefinableAbbrev, FitsBlock, FitsRecord, WriteBlock, WriteRecord, Holds;
    HoldsSplit(bits, st.pos, BitsOf(DEFINE_ABBREV, st.codeSize), WriteDefine(ops));
    Pow2Constants();
    CodeWritten(bits, st.pos, DEFINE_ABBREV, st.codeSize);
    DefineRoundTrip(bits, st.pos + st.codeSize, ops);
    var st' := After(st, st.codeSize + |WriteDefine(ops)|, Define(ops));
    assert Advance(bits, st, true, true) == Advance(bits, st', true, true);
  }

  lemma RecordStep(bits: seq<bool>, st: State, info: Info, id: nat, r: Record)
    requires 1 <= st.codeSize <= MAX_CHUNK_SIZE && FitsItem(st.codeSize, st.abbrevs, info, Rec(id, r))
    requires var w := WriteItem(st.pos, st.codeSize, st.abbrevs, info, Rec(id, r));
      Holds(bits, st.pos, w) && st.pos + |w| < |bits|
    ensures var w := WriteItem(st.pos, st.codeSize, st.abbrevs, info, Rec(id, r));
      WalkItems(bits, st, info) == WalkRest(bits, After(st, |w|, Rec(id, r)), info, st.pos, Rec(id, r))
  {
    hide BitsOf, Nat, Pow2, WriteRecord, FitsRecord, RecordAt, WalkRest, DefinableAbbrev, FitsBlock, WriteBlock, WriteDefine, Holds;
    var p := st.pos + st.codeSize;
    HoldsSplit(bits, st.pos, BitsOf(id, st.codeSize), WriteRecord(p, st.abbrevs, id, r));
    CodeWritten(bits, st.pos, id, st.codeSize);
    RecordRoundTrip(bits, p, st.abbrevs, id, r);
    IdOfRecord(st.abbrevs, id, r);
    hide ReadAt, CodeAt, RegisteredAbbrevs;
  }

  lemma IdOfRecord(abbrevs: seq<Abbrev>, id: nat, r: Record)
    requires FitsRecord(abbrevs, id, r)
    ensures id >= UNABBREV_RECORD
  {
  }

  /** The header of a written block, and where its body starts. */
  lemma HeaderWritten(bits: seq<bool>, st: State, info: Info, block: Block)
    requires FitsBlock(info, block)
    requires Holds(bits, st.pos, WriteBlock(st.pos, info, block))
    ensures var start := BodyStart(st.pos, block);
      var body := WriteBody(start, block.width, Registered(info, block.id), info, block.items);
      && Holds(bits, start, body)
      && start + |body| == st.pos + |WriteBlock(st.pos, info, block)|
      && VbrAt(bits, st.pos, CODE_LEN_WIDTH, 32) == Got(block.width, st.pos + |WriteVbr(block.width, CODE_LEN_WIDTH)|)
      && ReadAt(bits, start - 32, 32) == Got(Nat(BitsOf(|body| / 32, 32)), start)
  {
    hide Nat, Pow2, WriteVbr, VbrAt, WriteBody, BitsOf, FitsItems, PadTo32;
    var width := WriteVbr(block.width, CODE_LEN_WIDTH);
    var start := BodyStart(st.pos, block);
    var body := WriteBody(start, block.width, Registered(info, block.id), info, block.items);
    var size := BitsOf(|body| / 32, 32);
    PadLength(st.pos + |width|);
    HoldsSplit(bits, st.pos, width, PadTo32(st.pos + |width|) + (size + body));
    HoldsSplit(bits, st.pos + |width|, PadTo32(st.pos + |width|), size + body);
    HoldsSplit(bits, start - 32, size, body);
    Pow2Constants();
    VbrRoundTrip(bits, st.pos, block.width, CODE_LEN_WIDTH, 32);
  }

  lemma PadLength(pos: nat)
    ensures |PadTo32(pos)| == AlignUp32(pos) - pos
  {
  }

  function BodyStart(pos: nat, block: Block): nat {
    AlignUp32(pos + |WriteVbr(block.width, CODE_LEN_WIDTH)|) + BLOCK_SIZE_WIDTH
  }

  /** The walk from the start of a block's items, through END_BLOCK: it reports the
      items and leaves the scope. */
  lemma {:induction false} WalkItemsWritten(bits: seq<bool>, st: State, info: Info, items: seq<Item>)
    requires 1 <= st.codeSize <= MAX_CHUNK_SIZE && st.scopes != []
    requires FitsItems(st.codeSize, st.abbrevs, info, items)
    requires Holds(bits, st.pos, WriteBody(st.pos, st.codeSize, st.abbrevs, info, items))
    ensures var end := st.pos + |WriteBody(st.pos, st.codeSize, st.abbrevs, info, items)|;
      WalkItems(bits, st, info) == Done(Visible(items), Pop(st.(pos := end)))
    decreases items, 0
  {
    hide BitsOf, Nat, Pow2, WalkItems, WriteItem, FitsItem, WriteBody, Advance;
    if items == [] {
      EmptyBody(bits, st, info);
      EndWritten(bits, st);
      EndOfWalk(bits, st, info);
    } else {
      var first := WriteItem(st.pos, st.codeSize, st.abbrevs, info, items[0]);
      var st' := After(st, |first|, items[0]);
      BodyStep(st.pos, st.codeSize, st.abbrevs, info, items);
      HoldsSplit(bits, st.pos, first, WriteBody(st'.pos, st.codeSize, st'.abbrevs, info, items[1..]));
      WalkItemsWritten(bits, st', info, items[1..]);
      WalkItemWritten(bits, st, info, items[0]);
    }
  }

  lemma EmptyBody(bits: seq<bool>, st: State, info: Info)
    requires Holds(bits, st.pos, WriteBody(st.pos, st.codeSize, st.abbrevs, info, []))
    ensures Holds(bits, st.pos, BitsOf(END_BLOCK, st.codeSize))
    ensures st.pos + |WriteBody(st.pos, st.codeSize, st.abbrevs, info, [])| == AlignUp32(st.pos + st.codeSize)
  {
    hide BitsOf;
    var end, pad := BitsOf(END_BLOCK, st.codeSize), PadTo32(st.pos + st.codeSize);
    assert [] + (end + pad) == end + pad;
    HoldsSplit(bits, st.pos, end, pad);
  }

  lemma BodyStep(pos: nat, width: nat, abbrevs: seq<Abbrev>, info: Info, items: seq<Item>)
    requires items != [] && FitsItems(width, abbrevs, info, items)
    ensures var first := WriteItem(pos, width, abbrevs, info, items[0]);
      WriteBody(pos, width, abbrevs, info, items)
        == first + WriteBody(pos + |first|, width, AbbrevsAfter(abbrevs, items[0]), info, items[1..])
  {
    hide BitsOf, WriteItem, FitsItem, PadTo32;
    var content := WriteItems(pos, width, abbrevs, info, items);
    var first := WriteItem(pos, width, abbrevs, info, items[0]);
    var rest := WriteItems(pos + |first|, width, AbbrevsAfter(abbrevs, items[0]), info, items[1..]);
    var tail := BitsOf(END_BLOCK, width) + PadTo32(pos + |content| + width);
    assert content + tail == first + (rest + tail);
  }

  lemma EndOfWalk(bits: seq<bool>, st: State, info: Info)
    requires Advance(bits, st, true, true).Done? && Advance(bits, st, true, true).value == EndBlock
    ensures WalkItems(bits, st, info) == Done([], Advance(bits, st, true, true).st)
  {
  }

  /** Where a nested block starts, behind its code and id. */
  function NestedStart(pos: nat, width: nat, block: Block): nat {
    pos + width + |WriteVbr(block.id, BLOCK_ID_WIDTH)|
  }

  lemma NestedItem(pos: nat, width: nat, abbrevs: seq<Abbrev>, info: Info, block: Block)
    requires FitsItem(width, abbrevs, info, Nested(block))
    ensures ENTER_SUBBLOCK < Pow2(width) && block.id < Pow2(32) && FitsBlock(info, block)
    ensures WriteItem(pos, width, abbrevs, info, Nested(block))
         == BitsOf(ENTER_SUBBLOCK, width)
            + (WriteVbr(block.id, BLOCK_ID_WIDTH) + WriteBlock(NestedStart(pos, width, block), info, block))
  {
    hide BitsOf, Pow2, WriteVbr, WriteBlock, FitsItems;
  }

  lemma SubBlockWritten(bits: seq<bool>, st: State, id: nat, processAbbrevs: bool)
    requires 1 <= st.codeSize <= MAX_CHUNK_SIZE && ENTER_SUBBLOCK < Pow2(st.codeSize) && id < Pow2(32)
    requires Holds(bits, st.pos, BitsOf(ENTER_SUBBLOCK, st.codeSize))
    requires Holds(bits, st.pos + st.codeSize, WriteVbr(id, BLOCK_ID_WIDTH))
    ensures Advance(bits, st, true, processAbbrevs)
         == Done(SubBlock(id), st.(pos := st.pos + st.codeSize + |WriteVbr(id, BLOCK_ID_WIDTH)|))
  {
    hide BitsOf, Nat, WriteVbr, VbrAt, Pow2;
    Pow2Constants();
    CodeWritten(bits, st.pos, ENTER_SUBBLOCK, st.codeSize);
    VbrRoundTrip(bits, st.pos + st.codeSize, id, BLOCK_ID_WIDTH, 32);
  }

  lemma NestedStep(bits: seq<bool>, st: State, info: Info, block: Block)
    requires 1 <= st.codeSize <= MAX_CHUNK_SIZE && ENTER_SUBBLOCK < Pow2(st.codeSize) && block.id < Pow2(32)
    requires Holds(bits, st.pos, BitsOf(ENTER_SUBBLOCK, st.codeSize))
    requires Holds(bits, st.pos + st.codeSize, WriteVbr(block.id, BLOCK_ID_WIDTH))
    requires var st1 := st.(pos := st.pos + st.codeSize + |WriteVbr(block.id, BLOCK_ID_WIDTH)|);
      var walked := WalkBlock(bits, st1, info, block.id);
      walked.Done? && walked.st.pos <= |bits|
    ensures var st1 := st.(pos := st.pos + st.codeSize + |WriteVbr(block.id, BLOCK_ID_WIDTH)|);
      var walked := WalkBlock(bits, st1, info, block.id);
      st.pos < st1.pos < walked.st.pos
      && WalkItems(bits, st, info) == WalkRest(bits, walked.st, info, st.pos, Nested(walked.value))
  {
    hide BitsOf, Nat, WriteVbr, WalkRest, WalkBlock, VbrAt, Pow2, Advance;
    SubBlockWritten(bits, st, block.id, true);
  }

  /** One item at the front of the walk. */
  lemma {:induction false} WalkItemWritten(bits: seq<bool>, st: State, info: Info, item: Item)
    requires 1 <= st.codeSize <= MAX_CHUNK_SIZE
    requires FitsItem(st.codeSize, st.abbrevs, info, item)
    requires var w := WriteItem(st.pos, st.codeSize, st.abbrevs, info, item);
      Holds(bits, st.pos, w) && st.pos + |w| < |bits|
    ensures var st' := After(st, |WriteItem(st.pos, st.codeSize, st.abbrevs, info, item)|, item);
      WalkItems(bits, st, info) ==
        match WalkItems(bits, st', info)
        case Done(rest, end) => Done(VisibleItem(item) + rest, end)
        case Failed => Failed
        case Beyond => Beyond
    decreases item, 1
  {
    hide BitsOf, Nat, Pow2, WriteRecord, WriteDefine, WriteVbr, FitsRecord, WalkItems, WalkBlock, Holds, DefinableAbbrev;
    match item
    case Define(ops) =>
      DefineStep(bits, st, info, ops);
      var walked := WalkItems(bits, st, info);
      assert walked.Done? ==> [] + walked.value == walked.value;
    case Rec(id, r) => RecordStep(bits, st, info, id, r);
    case Nested(block) =>
      NestedItem(st.pos, st.codeSize, st.abbrevs, info, block);
      hide WriteItem, FitsItem, FitsBlock, WriteBlock, Holds;
      var id := WriteVbr(block.id, BLOCK_ID_WIDTH);
      var p, start := st.pos + st.codeSize, NestedStart(st.pos, st.codeSize, block);
      HoldsSplit(bits, st.pos, BitsOf(ENTER_SUBBLOCK, st.codeSize), id + WriteBlock(start, info, block));
      HoldsSplit(bits, p, id, WriteBlock(start, info, block));
      WalkBlockWritten(bits, st.(pos := start), info, block);
      NestedStep(bits, st, info, block);
  }

  /** Entering a written block and consuming its entries reports what was written, ends
      after the block, and leaves code width, abbreviations and scopes as they were. */
  lemma {:induction false} WalkBlockWritten(bits: seq<bool>, st: State, info: Info, block: Block)
    requires FitsBlock(info, block)
    requires Holds(bits, st.pos, WriteBlock(st.pos, info, block))
    ensures WalkBlock(bits, st, info, block.id)
         == Done(VisibleBlock(block), st.(pos := st.pos + |WriteBlock(st.pos, info, block)|))
    decreases block, 2
  {
    hide BitsOf, Nat, Pow2, Zeros, WalkItems, WriteVbr, VbrAt, FitsItems, WriteItems;
    HeaderWritten(bits, st, info, block);
    var start := BodyStart(st.pos, block);
    var scopes := st.scopes + [Scope(st.codeSize, st.abbrevs)];
    var st1 := State(start, block.width, Registered(info, block.id), scopes);
    WalkItemsWritten(bits, st1, info, block.items);
    assert scopes[..|st.scopes|] == st.scopes;
  }

  /** The length in bits of a written block's body. */
  function BodyLength(pos: nat, info: Info, block: Block): nat
    requires FitsBlock(info, block)
  {
    |WriteBody(BodyStart(pos, block), block.width, Registered(info, block.id), info, block.items)|
  }

  /** A body starts and ends on 32-bit boundaries. */
  lemma BodyIsWords(pos: nat, info: Info, block: Block)
    requires FitsBlock(info, block)
    ensures BodyLength(pos, info, block) % 32 == 0 && BodyStart(pos, block) % 32 == 0
    ensures BodyLength(pos, info, block) > 0
  {
    hide WriteVbr, WriteItems, Pow2;
  }

  /** Skipping a written block lands on the bit after it exactly when its body has
      fewer than 2^27 words: the length in bits is computed in 32 bits. */
  lemma SkipBlockWritten(bits: seq<bool>, st: State, info: Info, block: Block)
    requires FitsBlock(info, block)
    requires Holds(bits, st.pos, WriteBlock(st.pos, info, block))
    requires |bits| % 8 == 0 && st.pos + |WriteBlock(st.pos, info, block)| < |bits|
    requires BodyLength(st.pos, info, block) / 32 < Pow2(32)
    ensures SkipBlock(bits, st) == Done(false, st.(pos := st.pos + |WriteBlock(st.pos, info, block)|))
       <==> BodyLength(st.pos, info, block) / 32 < 0x800_0000
  {
    hide Nat, BitsOf, VbrAt, WriteVbr, WriteBlock, WriteBody, FitsBlock, Holds, ReadAt, Pow2;
    HeaderWritten(bits, st, info, block);
    BodyIsWords(st.pos, info, block);
    var words := BodyLength(st.pos, info, block) / 32;
    NatOfFittingBits(words, 32);
    Pow2Constants();
    WrapsAbove(words);
  }

  lemma WrapsAbove(words: nat)
    requires words < Pow2(32)
    ensures (words * 32) % Pow2(32) == words * 32 <==> words < 0x800_0000
  {
    Pow2Constants();
    hide Pow2;
  }

  // ----- a block that is too long to skip

  /** A record without values takes 14 bits when codes have two. */
  const EMPTY_RECORD := Rec(UNABBREV_RECORD, Record(0, []))

  function EmptyRecords(n: nat): (items: seq<Item>)
    ensures |items| == n
  {
    seq(n, _ => EMPTY_RECORD)
  }

  lemma {:induction false} EmptyRecordsLength(pos: nat, n: nat)
    ensures FitsItems(2, [], map[], EmptyRecords(n))
    ensures |WriteItems(pos, 2, [], map[], EmptyRecords(n))| == 14 * n
    decreases n
  {
    hide BitsOf;
    if n > 0 {
      assert EmptyRecords(n)[1..] == EmptyRecords(n - 1);
      EmptyRecordWritten(pos);
      hide WriteItem, FitsItem, EmptyRecords;
      EmptyRecordsLength(pos + 14, n - 1);
    }
  }

  lemma EmptyRecordWritten(pos: nat)
    ensures FitsItem(2, [], map[], EMPTY_RECORD) && |WriteItem(pos, 2, [], map[], EMPTY_RECORD)| == 14
  {
    hide BitsOf;
    assert Pow2(2) == 4 && Pow2(5) == 32;
    Pow2Monotone(2, 32);
    assert WriteVbr(0, 6) == BitsOf(0, 6);
  }

  function LongBlock(): Block {
    Block(8, 2, EmptyRecords(0x2000_0000))
  }

  lemma LongBlockLength(pos: nat)
    ensures FitsBlock(map[], LongBlock())
    ensures 0x800_0000 <= BodyLength(pos, map[], LongBlock()) / 32 < Pow2(32)
  {
    hide WriteVbr, WriteItems, EmptyRecords, FitsItems, BitsOf, PadTo32;
    var start := BodyStart(pos, LongBlock());
    EmptyRecordsLength(start, 0x2000_0000);
    PadLength(start + 14 * 0x2000_0000 + 2);
    Pow2Constants();
  }

  lemma HoldsFirst(w: seq<bool>, rest: seq<bool>)
    ensures Holds(w + rest, 0, w)
  {
  }

  lemma WrittenBlockEnds(pos: nat, info: Info, block: Block)
    requires FitsBlock(info, block)
    ensures (pos + |WriteBlock(pos, info, block)|) % 32 == 0
  {
    hide WriteVbr, WriteBody, PadTo32, BitsOf, AlignUp32, FitsItems, Pow2;
    BodyIsWords(pos, info, block);
    var p := pos + |WriteVbr(block.width, CODE_LEN_WIDTH)|;
    PadLength(p);
    assert pos + |WriteBlock(pos, info, block)| == AlignUp32(p) + 32 + BodyLength(pos, info, block);
  }

  /** A stream that holds the long block. */
  function LongStream(): seq<bool> {
    LongBlockLength(0);
    WriteBlock(0, map[], LongBlock()) + Zeros(8)
  }

  lemma LongStreamHolds()
    ensures FitsBlock(map[], LongBlock())
    ensures Holds(LongStream(), 0, WriteBlock(0, map[], LongBlock()))
    ensures |LongStream()| == |WriteBlock(0, map[], LongBlock())| + 8
  {
    hide WriteBlock, FitsBlock, LongBlock, BodyLength, Zeros, Holds, Pow2;
    LongBlockLength(0);
    HoldsFirst(WriteBlock(0, map[], LongBlock()), Zeros(8));
  }

  /** The walk comes out behind the long block and the skip does not. */
  lemma LongBlockMissed(bits: seq<bool>, st: State)
    requires bits == LongStream() && st.pos == 0
    ensures FitsBlock(map[], LongBlock())
    ensures var behind := st.(pos := |WriteBlock(0, map[], LongBlock())|);
      && WalkBlock(bits, st, map[], LongBlock().id) == Done(VisibleBlock(LongBlock()), behind)
      && SkipBlock(bits, st) != Done(false, behind)
  {
    hide LongStream, WriteBlock, FitsBlock, LongBlock, VisibleBlock, WalkBlock, SkipBlock, BodyLength, Holds, Pow2;
    LongBlockLength(0);
    LongStreamHolds();
    WrittenBlockEnds(0, map[], LongBlock());
    WalkBlockWritten(bits, st, map[], LongBlock());
    SkipBlockWritten(bits, st, map[], LongBlock());
  }

  /** SkipBlock and the walk end in the same state. */
  lemma SkipEqualsWalk(bits: seq<bool>, st: State, info: Info, block: Block)
    requires FitsBlock(info, block)
    requires Holds(bits, st.pos, WriteBlock(st.pos, info, block))
    requires |bits| % 8 == 0 && st.pos + |WriteBlock(st.pos, info, block)| < |bits|
    requires BodyLength(st.pos, info, block) / 32 < 0x800_0000
    ensures WalkBlock(bits, st, info, block.id).Done? && WalkBlock(bits, st, info, block.id).value == VisibleBlock(block)
    ensures SkipBlock(bits, st) == Done(false, WalkBlock(bits, st, info, block.id).st)
    ensures WalkBlock(bits, st, info, block.id).st == st.(pos := st.pos + |WriteBlock(st.pos, info, block)|)
  {
    hide WalkBlock, WriteBlock, FitsBlock, SkipBlock, BodyLength;
    Pow2Constants();
    WalkBlockWritten(bits, st, info, block);
    SkipBlockWritten(bits, st, info, block);
  }
}
