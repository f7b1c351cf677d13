/** What reading a bitcode stream means, on a plain sequence of bits and a position.

    Every function here says what one operation of the cursor reads; the cursor,
    which works on a 64-bit buffer, is proved to compute the same. */
module BitStreamSpec {
  import opened Bits
  import opened BitCodes

  /** Got: a value and the position after it.
      Fatal: the reader stops with a fatal error.
      Outside: the read leaves the stream, or shifts by more than a register is wide. */
  datatype Parse<+T> = Got(value: T, pos: nat) | Fatal | Outside {
    predicate IsFailure() { !Got? }
    function PropagateFailure<U>(): Parse<U> requires !Got? {
      if Fatal? then Parse<U>.Fatal else Parse<U>.Outside
    }
    function Extract(): (T, nat) requires Got? { (value, pos) }
  }

  function ReadAt(bits: seq<bool>, pos: nat, n: nat): Parse<nat> {
    if 1 <= n <= MAX_CHUNK_SIZE && pos + n <= |bits|
    then Got(Nat(bits[pos..pos + n]), pos + n)
    else Outside
  }

  /** The number spelled by the chunks of width w that start at pos, before it is cut
      to a register.  `shift` is where the register would put the next chunk. */
  function ChunksAt(bits: seq<bool>, pos: nat, w: nat, shift: nat, limit: nat): (r: Parse<nat>)
    requires w >= 2
    ensures !r.Fatal?
    ensures r.Got? ==> pos < r.pos <= |bits|
    decreases |bits| - pos
  {
    if shift >= limit || w > 32 || pos + w > |bits| then Outside
    else
      var piece := Nat(bits[pos..pos + w]);
      var data := piece % Pow2(w - 1);
      if piece < Pow2(w - 1) then Got(data, pos + w)
      else
        match ChunksAt(bits, pos + w, w, shift + (w - 1), limit)
        case Got(rest, end) => Got(data + Pow2(w - 1) * rest, end)
        case _ => Outside
  }

  /** A variable-width number in a register of `limit` bits.  A width that is no VBR
      width (below 2) reads nothing sensible. */
  function VbrAt(bits: seq<bool>, pos: nat, w: nat, limit: nat): (r: Parse<nat>)
    ensures !r.Fatal?
    ensures r.Got? ==> pos < r.pos <= |bits| && r.value < Pow2(limit)
  {
    if w < 2 then Outside
    else
      match ChunksAt(bits, pos, w, 0, limit)
      case Got(v, end) => Got(v % Pow2(limit), end)
      case _ => Outside
  }

  function AlignUp32(pos: nat): (r: nat)
    ensures pos <= r < pos + 32 && r % 32 == 0
  {
    (pos + 31) / 32 * 32
  }

  lemma AlignUp32Unique(pos: nat, r: nat)
    ensures r == AlignUp32(pos) <==> pos <= r < pos + 32 && r % 32 == 0
  {
  }

  // ----- fields and records

  function FieldAt(bits: seq<bool>, pos: nat, op: AbbrevOp): (r: Parse<nat>)
    requires op.IsScalar()
    ensures !r.Fatal?
    ensures r.Got? ==> pos < r.pos <= |bits|
  {
    if op.Fixed? then ReadAt(bits, pos, op.width)
    else if op.Vbr? then VbrAt(bits, pos, op.width, 64)
    else if pos + 6 > |bits| then Outside
    else
      NatBound(bits[pos..pos + 6]);
      Pow2Constants();
      Got(DecodeChar6(Nat(bits[pos..pos + 6])), pos + 6)
  }

  function FieldsAt(bits: seq<bool>, pos: nat, op: AbbrevOp, count: nat): (r: Parse<seq<nat>>)
    requires op.IsScalar()
    ensures !r.Fatal?
    ensures r.Got? ==> pos <= r.pos && |r.value| == count
    decreases count
  {
    if count == 0 then Got([], pos)
    else
      var (v, next) :- FieldAt(bits, pos, op);
      var (vs, end) :- FieldsAt(bits, next, op, count - 1);
      Got([v] + vs, end)
  }

  /** The bytes of a blob; pos is on a byte boundary. */
  function BytesAt(bits: seq<bool>, pos: nat, count: nat): (vs: seq<nat>)
    requires pos + 8 * count <= |bits|
    ensures |vs| == count
    decreases count
  {
    if count == 0 then [] else [Nat(bits[pos..pos + 8])] + BytesAt(bits, pos + 8, count - 1)
  }

  /** The padded length of a blob in bits, as 32-bit arithmetic computes it. */
  function BlobSpan(count: nat): nat {
    ((count + 3) % Pow2(32) / 4 * 4 * 8) % Pow2(32)
  }

  function BlobAt(bits: seq<bool>, pos: nat): (r: Parse<seq<nat>>)
    ensures !r.Fatal?
    ensures r.Got? ==> pos < r.pos <= |bits|
  {
    match VbrAt(bits, pos, 6, 32)
    case Got(count, next) =>
      var start := AlignUp32(next);
      var end := start + BlobSpan(count);
      if end < |bits| && start + 8 * count <= |bits| then Got(BytesAt(bits, start, count), end)
      else Outside
    case _ => Outside
  }

  function OpsAt(bits: seq<bool>, pos: nat, ops: Abbrev): (r: Parse<seq<nat>>)
    ensures r.Got? ==> pos <= r.pos
    decreases |ops|
  {
    if ops == [] then Got([], pos)
    else if ops[0].Array? then
      var (count, next) :- VbrAt(bits, pos, 6, 32);
      if |ops| != 2 || !ops[1].IsScalar() then Fatal
      else FieldsAt(bits, next, ops[1], count)
    else
      var (vs, next) :- OpAt(bits, pos, ops[0]);
      var (rest, end) :- OpsAt(bits, next, ops[1..]);
      Got(vs + rest, end)
  }

  function OpAt(bits: seq<bool>, pos: nat, op: AbbrevOp): (r: Parse<seq<nat>>)
    requires !op.Array?
    ensures r.Got? ==> pos <= r.pos
  {
    if op.Literal? then Got([op.value], pos)
    else if op.Blob? then BlobAt(bits, pos)
    else
      var (v, next) :- FieldAt(bits, pos, op);
      Got([v], next)
  }

  /** The record code comes from the first operand, cut to 32 bits. */
  function CodeAt(bits: seq<bool>, pos: nat, op: AbbrevOp): (r: Parse<nat>)
    ensures r.Got? ==> pos <= r.pos
  {
    if op.Literal? then Got(op.value % Pow2(32), pos)
    else if !op.IsScalar() then Fatal
    else
      var (v, next) :- FieldAt(bits, pos, op);
      Got(v % Pow2(32), next)
  }

  function RecordAt(bits: seq<bool>, pos: nat, abbrevs: seq<Abbrev>, id: nat): (r: Parse<Record>)
    ensures r.Got? ==> pos <= r.pos
  {
    if id == UNABBREV_RECORD then
      var (code, p1) :- VbrAt(bits, pos, 6, 32);
      var (count, p2) :- VbrAt(bits, p1, 6, 32);
      var (vs, end) :- FieldsAt(bits, p2, Vbr(6), count);
      Got(Record(code, vs), end)
    else if id < FIRST_APPLICATION_ABBREV || id - FIRST_APPLICATION_ABBREV >= |abbrevs| then Fatal
    else
      var ops := abbrevs[id - FIRST_APPLICATION_ABBREV];
      if ops == [] then Outside
      else
        var (code, next) :- CodeAt(bits, pos, ops[0]);
        var (vs, end) :- OpsAt(bits, next, ops[1..]);
        Got(Record(code, vs), end)
  }

  // ----- abbreviation definitions

  function OpDefAt(bits: seq<bool>, pos: nat): (r: Parse<AbbrevOp>)
    ensures r.Got? ==> pos < r.pos
  {
    var (isLiteral, p1) :- ReadAt(bits, pos, 1);
    if isLiteral != 0 then
      var (v, end) :- VbrAt(bits, p1, 8, 64);
      Got(Literal(v), end)
    else
      var (enc, p2) :- ReadAt(bits, p1, 3);
      if enc == 1 || enc == 2 then
        var (data, end) :- VbrAt(bits, p2, 5, 64);
        if data == 0 then Got(Literal(0), end)
        else if data > MAX_CHUNK_SIZE then Fatal
        else Got(if enc == 1 then Fixed(data) else Vbr(data), end)
      else if enc == 3 then Got(Array, p2)
      else if enc == 4 then Got(Char6, p2)
      else if enc == 5 then Got(Blob, p2)
      else Fatal
  }

  function OpDefsAt(bits: seq<bool>, pos: nat, count: nat): (r: Parse<Abbrev>)
    ensures r.Got? ==> pos <= r.pos && |r.value| == count
    decreases count
  {
    if count == 0 then Got([], pos)
    else
      var (op, next) :- OpDefAt(bits, pos);
      var (ops, end) :- OpDefsAt(bits, next, count - 1);
      Got([op] + ops, end)
  }

  function DefineAt(bits: seq<bool>, pos: nat): (r: Parse<Abbrev>)
    ensures r.Got? ==> pos < r.pos && r.value != []
  {
    var (count, next) :- VbrAt(bits, pos, 5, 32);
    var (ops, end) :- OpDefsAt(bits, next, count);
    if ops == [] then Fatal else Got(ops, end)
  }

  // ----- blocks

  datatype Scope = Scope(codeSize: nat, abbrevs: seq<Abbrev>)

  /** The cursor as a client sees it. */
  datatype State = State(pos: nat, codeSize: nat, abbrevs: seq<Abbrev>, scopes: seq<Scope>)

  datatype Step<+T> = Done(value: T, st: State) | Failed | Beyond

  function Pop(st: State): State
    requires st.scopes != []
  {
    var top := st.scopes[|st.scopes| - 1];
    State(st.pos, top.codeSize, top.abbrevs, st.scopes[..|st.scopes| - 1])
  }

  function Advance(bits: seq<bool>, st: State, popAtEnd: bool, processAbbrevs: bool): (r: Step<Entry>)
    ensures r.Done? ==> st.pos < r.st.pos
    decreases |bits| - st.pos
  {
    match ReadAt(bits, st.pos, st.codeSize)
    case Fatal => Failed
    case Outside => Beyond
    case Got(word, p) =>
      var code := word % Pow2(32);
      if code == END_BLOCK then
        if !popAtEnd then Done(EndBlock, st.(pos := p))
        else if st.scopes == [] then Done(Error, st.(pos := p))
        else Done(EndBlock, Pop(st.(pos := AlignUp32(p))))
      else if code == ENTER_SUBBLOCK then
        match VbrAt(bits, p, BLOCK_ID_WIDTH, 32)
        case Got(id, end) => Done(SubBlock(id), st.(pos := end))
        case _ => Beyond
      else if code == DEFINE_ABBREV && processAbbrevs then
        match DefineAt(bits, p)
        case Got(ops, end) =>
          if end <= |bits| then Advance(bits, st.(pos := end, abbrevs := st.abbrevs + [ops]), popAtEnd, processAbbrevs)
          else Beyond
        case Fatal => Failed
        case Outside => Beyond
      else Done(RecordEntry(code), st.(pos := p))
  }

  /** The block header: code width, alignment, length in 32-bit words. */
  function HeaderAt(bits: seq<bool>, pos: nat): (r: Parse<(nat, nat)>)
    ensures r.Got? ==> pos < r.pos <= |bits|
    ensures !r.Fatal?
  {
    match VbrAt(bits, pos, CODE_LEN_WIDTH, 32)
    case Got(width, p) => (
      match ReadAt(bits, AlignUp32(p), BLOCK_SIZE_WIDTH)
      case Got(words, end) => Got((width, words), end)
      case _ => Outside)
    case _ => Outside
  }

  /** Enter a block with the abbreviations registered for its id; the value is the
      error flag.  A width over 64 stops before the length is read. */
  function EnterSubBlock(bits: seq<bool>, st: State, registered: seq<Abbrev>): Step<bool> {
    var scopes := st.scopes + [Scope(st.codeSize, st.abbrevs)];
    match VbrAt(bits, st.pos, CODE_LEN_WIDTH, 32)
    case Got(width, p) =>
      if width > MAX_CHUNK_SIZE then Done(true, State(p, width, registered, scopes))
      else (
        match ReadAt(bits, AlignUp32(p), BLOCK_SIZE_WIDTH)
        case Got(_, end) =>
          if width == 0 then Done(true, State(end, width, registered, scopes))
          else if end < |bits| then Done(false, State(end, width, registered, scopes))
          else Beyond
        case _ => Beyond)
    case _ => Beyond
  }

  /** Jump over a block; the value is the error flag.  The length in bits is computed
      in 32 bits. */
  function SkipBlock(bits: seq<bool>, st: State): Step<bool> {
    match HeaderAt(bits, st.pos)
    case Got((_, words), p) =>
      var target := p + (words * 32) % Pow2(32);
      if p == |bits| then Beyond
      else if !CanSkipToPos(bits, target / 8) then Done(true, st.(pos := p))
      else if target < |bits| then Done(false, st.(pos := target))
      else Beyond
    case _ => Beyond
  }

  predicate CanSkipToPos(bits: seq<bool>, bytePos: nat) {
    bytePos == 0 || bytePos - 1 < |bits| / 8
  }

  /** Advance, stepping over nested blocks. */
  function AdvanceSkipping(bits: seq<bool>, st: State, popAtEnd: bool, processAbbrevs: bool): (r: Step<Entry>)
    ensures r.Done? ==> st.pos < r.st.pos && !r.value.SubBlock?
    decreases |bits| - st.pos
  {
    match Advance(bits, st, popAtEnd, processAbbrevs)
    case Done(SubBlock(_), st1) => (
      match SkipBlock(bits, st1)
      case Done(failed, st2) =>
        if failed then Done(Error, st2)
        else AdvanceSkipping(bits, st2, popAtEnd, processAbbrevs)
      case Failed => Failed
      case Beyond => Beyond)
    case other => other
  }

  // ----- the BLOCKINFO block

  predicate UniqueIds(table: seq<BlockInfo>) {
    forall i, j :: 0 <= i < j < |table| ==> table[i].blockId != table[j].blockId
  }

  /** The index of an id in the table; |table| when it is not there. */
  function IndexOf(table: seq<BlockInfo>, id: nat): (i: nat)
    ensures i <= |table|
    ensures i < |table| ==> table[i].blockId == id
    ensures forall k :: 0 <= k < i ==> table[k].blockId != id
  {
    if table == [] || table[0].blockId == id then 0 else 1 + IndexOf(table[1..], id)
  }

  /** The abbreviations that BLOCKINFO registered for a block id. */
  function RegisteredAbbrevs(table: seq<BlockInfo>, id: nat): seq<Abbrev> {
    var i := IndexOf(table, id);
    if i < |table| then table[i].abbrevs else []
  }

  function WithEntry(table: seq<BlockInfo>, id: nat): seq<BlockInfo> {
    if IndexOf(table, id) < |table| then table else table + [BlockInfo(id, [])]
  }

  function WithAbbrev(table: seq<BlockInfo>, i: nat, ops: Abbrev): seq<BlockInfo>
    requires i < |table|
  {
    table[i := table[i].(abbrevs := table[i].abbrevs + [ops])]
  }

  /** The records of a BLOCKINFO block, from st to its end.  `curr` is the index of the
      entry that definitions go to; |table| or more when no SETBID came yet. */
  function InfoRecords(bits: seq<bool>, st: State, table: seq<BlockInfo>, curr: nat): Step<(bool, seq<BlockInfo>)>
    decreases |bits| - st.pos
  {
    match AdvanceSkipping(bits, st, true, false)
    case Failed => Failed
    case Beyond => Beyond
    case Done(entry, st1) =>
      if !entry.RecordEntry? then Done((entry.Error?, table), st1)
      else if st1.pos > |bits| then Beyond
      else if entry.abbrevId == DEFINE_ABBREV then
        if curr >= |table| then Done((true, table), st1)
        else
          match DefineAt(bits, st1.pos)
          case Got(ops, end) =>
            if end > |bits| then Beyond
            else InfoRecords(bits, st1.(pos := end), WithAbbrev(table, curr, ops), curr)
          case Fatal => Failed
          case Outside => Beyond
      else
        match RecordAt(bits, st1.pos, st1.abbrevs, entry.abbrevId)
        case Fatal => Failed
        case Outside => Beyond
        case Got(rec, end) =>
          if end > |bits| then Beyond
          else if rec.code == SET_BLOCK_ID then
            if rec.values == [] then Done((true, table), st1.(pos := end))
            else
              var id := rec.values[0] % Pow2(32);
              InfoRecords(bits, st1.(pos := end), WithEntry(table, id), IndexOf(table, id))
          else if (rec.code == BLOCK_NAME || rec.code == SET_RECORD_NAME) && curr >= |table| then
            Done((true, table), st1.(pos := end))
          else InfoRecords(bits, st1.(pos := end), table, curr)
  }

  /** Reading a BLOCKINFO block: the error flag and the table that results.  Once
      there is a table, later blocks are skipped. */
  function ReadBlockInfo(bits: seq<bool>, st: State, table: seq<BlockInfo>): Step<(bool, seq<BlockInfo>)> {
    if table != [] then
      match SkipBlock(bits, st)
      case Done(failed, st1) => Done((failed, table), st1)
      case Failed => Failed
      case Beyond => Beyond
    else
      match EnterSubBlock(bits, st, [])
      case Done(failed, st1) =>
        if failed then Done((true, table), st1)
        else InfoRecords(bits, st1, table, 0)
      case Failed => Failed
      case Beyond => Beyond
  }
}
