/** The buffered cursor: a 64-bit word, the count of its unread bits, and the byte
    after it.  Each operation is proved to do on the buffer what BitStreamSpec says
    on the plain bit sequence. */
module BitStream {
  import opened Bits
  import opened BitCodes
  import opened BitStreamSpec

  type byte = n: nat | n < 256

  /** Loading bytes as a little-endian number. */
  function LittleEndian(bytes: seq<byte>): nat {
    if bytes == [] then 0 else bytes[0] + 256 * LittleEndian(bytes[1..])
  }

  lemma {:induction false} StreamBitsAppend(a: seq<byte>, b: seq<byte>)
    ensures BytesToBits(a + b) == BytesToBits(a) + BytesToBits(b)
  {
    if a == [] {
      assert a + b == b;
    } else {
      assert (a + b)[1..] == a[1..] + b;
      StreamBitsAppend(a[1..], b);
    }
  }

  lemma StreamBitsSlice(bytes: seq<byte>, i: nat, j: nat)
    requires i <= j <= |bytes|
    ensures BytesToBits(bytes)[8 * i..8 * j] == BytesToBits(bytes[i..j])
  {
    hide BytesToBits;
    var low, mid, high := bytes[..i], bytes[i..j], bytes[j..];
    SplitThree(bytes, i, j);
    StreamBitsAppend(low, mid + high);
    StreamBitsAppend(mid, high);
    MiddleSlice(BytesToBits(bytes), BytesToBits(low), BytesToBits(mid), BytesToBits(high), 8 * i, 8 * j);
  }

  lemma SplitThree<T>(s: seq<T>, i: nat, j: nat)
    requires i <= j <= |s|
    ensures s == s[..i] + (s[i..j] + s[j..])
  {
    assert s[i..j] + s[j..] == s[i..];
  }

  lemma MiddleSlice<T>(all: seq<T>, low: seq<T>, mid: seq<T>, high: seq<T>, i: nat, j: nat)
    requires all == low + (mid + high) && i == |low| && j == |low| + |mid|
    ensures all[i..j] == mid
  {
  }

  /** A word loaded from memory is the number its bits spell. */
  lemma {:induction false} LittleEndianIsNat(bytes: seq<byte>)
    ensures LittleEndian(bytes) == Nat(BytesToBits(bytes))
  {
    if bytes == [] {
    } else {
      LittleEndianIsNat(bytes[1..]);
      NatAppend(BitsOf(bytes[0], 8), BytesToBits(bytes[1..]));
      Pow2Constants();
      NatOfFittingBits(bytes[0], 8);
    }
  }

  class BitStreamReader {
    const bytes: seq<byte>
    ghost const bits: seq<bool>
    var blockInfoRecords: seq<BlockInfo>

    constructor (bytes: seq<byte>)
      requires |bytes| % 8 == 0
      ensures this.bytes == bytes && WellFormed() && blockInfoRecords == []
    {
      this.bytes := bytes;
      this.bits := BytesToBits(bytes);
      blockInfoRecords := [];
    }

    /** The stream is a whole number of machine words. */
    ghost predicate WellFormed() {
      |bytes| % 8 == 0 && bits == BytesToBits(bytes)
    }

    /** The last entry first, then the others in order. */
    method GetBlockInfo(blockId: nat) returns (index: int)
      requires UniqueIds(blockInfoRecords)
      ensures index == if IndexOf(blockInfoRecords, blockId) < |blockInfoRecords|
                       then IndexOf(blockInfoRecords, blockId) else -1
    {
      if blockInfoRecords != [] && blockInfoRecords[|blockInfoRecords| - 1].blockId == blockId {
        return |blockInfoRecords| - 1;
      }
      for i := 0 to |blockInfoRecords|
        invariant forall k :: 0 <= k < i ==> blockInfoRecords[k].blockId != blockId
      {
        if blockInfoRecords[i].blockId == blockId {
          return i;
        }
      }
      return -1;
    }

    method GetOrCreateBlockInfo(blockId: nat) returns (index: nat)
      requires UniqueIds(blockInfoRecords)
      modifies this
      ensures UniqueIds(blockInfoRecords)
      ensures blockInfoRecords == WithEntry(old(blockInfoRecords), blockId)
      ensures index == IndexOf(old(blockInfoRecords), blockId) < |blockInfoRecords|
    {
      var bi := GetBlockInfo(blockId);
      if bi >= 0 {
        return bi;
      }
      blockInfoRecords := blockInfoRecords + [BlockInfo(blockId, [])];
      return |blockInfoRecords| - 1;
    }
  }

  /** One step of the buffer: the low n bits come out, the others move down. */
  lemma TakeLowBits(bits: seq<bool>, pos: nat, n: nat, end: nat)
    requires pos + n <= end <= |bits|
    ensures And(Nat(bits[pos..end]), Mask(n)) == Nat(bits[pos..pos + n])
    ensures ShiftRight(Nat(bits[pos..end]), n) == Nat(bits[pos + n..end])
  {
    var s := bits[pos..end];
    AndMask(Nat(s), n);
    ShiftRightDivides(Nat(s), n);
    NatSplit(s, n);
    assert s[..n] == bits[pos..pos + n];
    assert s[n..] == bits[pos + n..end];
  }

  /** Joining the tail of one word and the head of the next. */
  lemma JoinWords(bits: seq<bool>, pos: nat, mid: nat, end: nat)
    requires pos <= mid <= end <= |bits| && end - pos <= 64
    ensures Or(Nat(bits[pos..mid]), ShiftLeft(Nat(bits[mid..end]), mid - pos, 64)) == Nat(bits[pos..end])
    ensures pos == mid ==> Nat(bits[pos..mid]) == 0
  {
    SliceJoins(bits, pos, mid, end);
    JoinBits(bits[pos..mid], bits[mid..end]);
  }

  lemma SliceJoins<T>(s: seq<T>, i: nat, j: nat, k: nat)
    requires i <= j <= k <= |s|
    ensures s[i..k] == s[i..j] + s[j..k]
  {
  }

  lemma JoinBits(low: seq<bool>, high: seq<bool>)
    requires |low| + |high| <= 64
    ensures Or(Nat(low), ShiftLeft(Nat(high), |low|, 64)) == Nat(low + high)
  {
    hide Nat, Or, ShiftLeft, Pow2;
    NatBound(low);
    ShiftLeftFits(high, |low|);
    OrDisjoint(Nat(low), Nat(high), |low|);
    NatAppend(low, high);
  }

  lemma ShiftLeftFits(high: seq<bool>, n: nat)
    requires |high| + n <= 64
    ensures ShiftLeft(Nat(high), n, 64) == Nat(high) * Pow2(n)
  {
    hide ShiftLeft, Nat, Pow2;
    NatBound(high);
    Pow2Monotone(|high|, 64 - n);
    Pow2Monotone(64 - n, 64);
    ShiftLeftDrops(Nat(high), n, 64);
    DivModUnique(Nat(high), Pow2(64 - n), 0, Nat(high));
  }

  /** A byte of the buffer is the number spelled by its eight bits of the stream. */
  lemma ByteValue(stream: BitStreamReader, i: nat)
    requires stream.WellFormed() && i < |stream.bytes|
    ensures stream.bytes[i] == Nat(stream.bits[8 * i..8 * i + 8])
  {
    StreamBitsSlice(stream.bytes, i, i + 1);
    assert stream.bytes[i..i + 1] == [stream.bytes[i]];
    LittleEndianIsNat([stream.bytes[i]]);
  }

  lemma NextByte(stream: BitStreamReader, i: nat, count: nat, done: seq<nat>)
    requires stream.WellFormed() && count > 0 && 8 * i + 8 * count <= |stream.bits|
    ensures done + BytesAt(stream.bits, 8 * i, count)
         == done + [stream.bytes[i]] + BytesAt(stream.bits, 8 * (i + 1), count - 1)
  {
    ByteValue(stream, i);
    var rest := BytesAt(stream.bits, 8 * (i + 1), count - 1);
    assert BytesAt(stream.bits, 8 * i, count) == [stream.bytes[i] as nat] + rest;
    assert done + ([stream.bytes[i] as nat] + rest) == done + [stream.bytes[i]] + rest;
  }

  // ----- the loop that joins the chunks of a variable-width number

  /** `low` holds the chunks before pos, `nextBit` bits of them; the chunks from pos
      on complete the number. */
  ghost predicate Unfinished(bits: seq<bool>, pos: nat, w: nat, nextBit: nat, limit: nat, low: nat, total: Parse<nat>)
    requires w >= 2
  {
    var rest := ChunksAt(bits, pos, w, nextBit, limit);
    && rest.Got? && total.Got? && rest.pos == total.pos
    && low < Pow2(nextBit)
    && total.value == low + Pow2(nextBit) * rest.value
  }

  lemma PieceFacts(bits: seq<bool>, pos: nat, w: nat)
    requires 2 <= w && pos + w <= |bits|
    ensures var piece := Nat(bits[pos..pos + w]);
      && piece < Pow2(w)
      && (And(piece, Pow2(w - 1)) == 0 <==> piece < Pow2(w - 1))
      && And(piece, Pow2(w - 1) - 1) == piece % Pow2(w - 1)
  {
    NatBound(bits[pos..pos + w]);
    TopAndRest(Nat(bits[pos..pos + w]), w - 1);
  }

  lemma TopAndRest(piece: nat, n: nat)
    requires piece < Pow2(n + 1)
    ensures And(piece, Pow2(n)) == 0 <==> piece < Pow2(n)
    ensures And(piece, Pow2(n) - 1) == piece % Pow2(n)
  {
    AndTopBit(piece, n);
    AndMask(piece, n);
    hide And, Mask, Pow2;
  }

  lemma SmallMod(v: nat, n: nat, limit: nat)
    requires v < Pow2(n) && n <= limit
    ensures v % Pow2(n) == v && v % Pow2(limit) == v
  {
    Pow2Monotone(n, limit);
    DivModUnique(v, Pow2(n), 0, v);
    DivModUnique(v, Pow2(limit), 0, v);
  }

  /** The first piece decides between the short answer and the loop. */
  lemma FirstChunk(bits: seq<bool>, pos: nat, w: nat, limit: nat)
    requires VbrAt(bits, pos, w, limit).Got? && limit >= 32
    ensures 2 <= w <= 32 && pos + w <= |bits|
    ensures var piece := Nat(bits[pos..pos + w]);
      if piece < Pow2(w - 1) then VbrAt(bits, pos, w, limit) == Got(piece, pos + w)
      else Unfinished(bits, pos, w, 0, limit, 0, ChunksAt(bits, pos, w, 0, limit))
  {
    hide Nat;
    var piece := Nat(bits[pos..pos + w]);
    if piece < Pow2(w - 1) {
      SmallMod(piece, w - 1, limit);
    }
  }

  /** One turn of the loop: either the number is complete, or one more chunk is. */
  lemma ChunkStep(bits: seq<bool>, pos: nat, w: nat, nextBit: nat, limit: nat, low: nat, total: Parse<nat>)
    requires 2 <= w && limit >= 32
    requires Unfinished(bits, pos, w, nextBit, limit, low, total)
    ensures w <= 32 && nextBit < limit && pos + w <= |bits|
    ensures var piece := Nat(bits[pos..pos + w]);
      var low' := Or(low, ShiftLeft(piece % Pow2(w - 1), nextBit, limit));
      if piece < Pow2(w - 1) then total == Got(total.value, pos + w) && low' == total.value % Pow2(limit)
      else pos + 2 * w <= |bits| && Unfinished(bits, pos + w, w, nextBit + (w - 1), limit, low', total)
  {
    hide Or, ShiftLeft, Nat;
    var piece := Nat(bits[pos..pos + w]);
    var data := piece % Pow2(w - 1);
    Pow2Monotone(w - 1, limit);
    OrShifted(low, data, nextBit, limit);
    if piece >= Pow2(w - 1) {
      var rest := ChunksAt(bits, pos + w, w, nextBit + (w - 1), limit);
      assert rest.Got?;
      LongerSum(low, data, rest.value, nextBit, w - 1, limit);
    }
  }

  lemma LongerSum(low: nat, data: nat, rest: nat, n: nat, k: nat, limit: nat)
    requires low < Pow2(n) && data < Pow2(k) && n + k <= limit
    ensures (low + Pow2(n) * data) % Pow2(limit) == low + Pow2(n) * data < Pow2(n + k)
    ensures low + Pow2(n) * (data + Pow2(k) * rest) == low + Pow2(n) * data + Pow2(n + k) * rest
  {
    hide Pow2;
    ShiftedSumBound(low, data, n, k);
    SmallMod(low + Pow2(n) * data, n + k, limit);
    Pow2Add(n, k);
    MulAdd(Pow2(n), data, Pow2(k) * rest);
    MulAssoc(Pow2(n), Pow2(k), rest);
  }

  /** What is still to be read completes what has been read. */
  ghost predicate Resumes<T>(total: Parse<seq<T>>, done: seq<T>, rest: Parse<seq<T>>) {
    match rest
    case Got(vs, end) => total == Got(done + vs, end)
    case Fatal => total == Fatal
    case Outside => total == Outside
  }

  lemma ResumesStart<T>(total: Parse<seq<T>>)
    ensures Resumes(total, [], total)
  {
    if total.Got? {
      assert [] + total.value == total.value;
    }
  }

  lemma ResumesStep<T>(total: Parse<seq<T>>, done: seq<T>, next: seq<T>, before: Parse<seq<T>>, rest: Parse<seq<T>>)
    requires Resumes(total, done, before) && Resumes(before, next, rest)
    ensures Resumes(total, done + next, rest)
  {
    if rest.Got? {
      assert done + (next + rest.value) == done + next + rest.value;
    }
  }

  /** A result, or the message of a fatal error. */
  datatype Outcome<+T> = Ok(value: T) | FatalError(message: string)

  /** What a method did is what the specification reads. */
  ghost predicate Agrees<T>(r: Outcome<T>, pos: nat, spec: Parse<T>) {
    match spec
    case Got(v, end) => r == Ok(v) && pos == end
    case Fatal => r.FatalError?
    case Outside => true
  }

  ghost predicate Follows<T>(r: Outcome<T>, st: State, spec: Step<T>) {
    match spec
    case Done(v, st') => r == Ok(v) && st == st'
    case Failed => r.FatalError?
    case Beyond => true
  }

  /** The first operand leaves the rest of the abbreviation to be read. */
  lemma OneOp(bits: seq<bool>, pos: nat, ops: Abbrev)
    requires ops != [] && !ops[0].Array? && OpAt(bits, pos, ops[0]).Got?
    ensures var first := OpAt(bits, pos, ops[0]);
      Resumes(OpsAt(bits, pos, ops), first.value, OpsAt(bits, first.pos, ops[1..]))
  {
  }

  /** The word a bit lies in. */
  lemma WordOf(bitNo: nat, length: nat)
    requires bitNo < 8 * length && length % 8 == 0
    ensures var byteNo := bitNo / 8 / 8 * 8;
      byteNo % 8 == 0 && byteNo + 8 <= length && 8 * byteNo + bitNo % 64 == bitNo
  {
    var word := bitNo / 64;
    assert bitNo / 8 / 8 == word;
    assert bitNo == 64 * word + bitNo % 64;
  }

  /** Where the boundary lies, by how much of the word is left; end is the end of the word. */
  lemma Boundary(pos: nat, left: nat, end: nat)
    requires end % 64 == 0 && pos + left == end && left <= 64
    ensures left < 32 ==> AlignUp32(pos) == end
    ensures 32 <= left < 64 ==> AlignUp32(pos) == end - 32
    ensures left == 64 ==> AlignUp32(pos) == pos
  {
    hide AlignUp32;
    if left < 32 {
      AlignUp32Unique(pos, end);
    } else if left < 64 {
      AlignUp32Unique(pos, end - 32);
    } else {
      AlignUp32Unique(pos, pos);
    }
  }

  class BitStreamCursor {
    const stream: BitStreamReader
    var nextChar: nat
    var size: nat
    var currWord: nat
    var bitsInCurrWord: nat
    var currCodeSize: nat
    var currAbbrevs: seq<Abbrev>
    var blockScope: seq<Scope>

    constructor (stream: BitStreamReader)
      requires stream.WellFormed()
      ensures Valid() && this.stream == stream && View() == State(0, 2, [], [])
    {
      this.stream := stream;
      nextChar, size, currWord, bitsInCurrWord := 0, 0, 0, 0;
      currCodeSize := 2;
      currAbbrevs, blockScope := [], [];
    }

    ghost predicate Valid()
      reads this
    {
      && stream.WellFormed()
      && size == 0
      && nextChar <= |stream.bytes|
      && nextChar % 8 == 0
      && bitsInCurrWord <= 64
      && bitsInCurrWord <= 8 * nextChar
      && (bitsInCurrWord > 0 ==> currWord == Nat(stream.bits[8 * nextChar - bitsInCurrWord..8 * nextChar]))
    }

    function CurrBitNo(): nat
      requires bitsInCurrWord <= 8 * nextChar
      reads this
    {
      nextChar * 8 - bitsInCurrWord
    }

    /** The cursor without its buffer. */
    ghost function View(): State
      requires bitsInCurrWord <= 8 * nextChar
      reads this
    {
      State(CurrBitNo(), currCodeSize, currAbbrevs, blockScope)
    }

    method FillCurrWord()
      requires stream.WellFormed() && nextChar % 8 == 0 && nextChar < |stream.bytes|
      modifies `nextChar, `currWord, `bitsInCurrWord
      ensures nextChar == old(nextChar) + 8 <= |stream.bytes| && bitsInCurrWord == 64
      ensures currWord == Nat(stream.bits[8 * old(nextChar)..8 * nextChar])
    {
      var data := stream.bytes[nextChar..nextChar + 8];
      StreamBitsSlice(stream.bytes, nextChar, nextChar + 8);
      LittleEndianIsNat(data);
      nextChar := nextChar + |data|;
      currWord := LittleEndian(data);
      bitsInCurrWord := |data| * 8;
    }

    /** The next n bits, least significant first. */
    method Read(n: nat) returns (r: nat)
      requires Valid() && 1 <= n <= MAX_CHUNK_SIZE && CurrBitNo() + n <= |stream.bits|
      modifies `nextChar, `currWord, `bitsInCurrWord
      ensures Valid() && bitsInCurrWord < 64
      ensures Got(r, CurrBitNo()) == ReadAt(stream.bits, old(CurrBitNo()), n)
    {
      hide And, Or, ShiftRight, ShiftLeft, Mask, Nat, BytesToBits;
      ghost var pos, mid := CurrBitNo(), 8 * nextChar;
      if bitsInCurrWord >= n {
        TakeLowBits(stream.bits, pos, n, mid);
        r := And(currWord, Mask(n));
        currWord := ShiftRight(currWord, n % 64);
        bitsInCurrWord := bitsInCurrWord - n;
      } else {
        r := if bitsInCurrWord != 0 then currWord else 0;
        var bitsLeft := n - bitsInCurrWord;
        FillCurrWord();
        TakeLowBits(stream.bits, mid, bitsLeft, 8 * nextChar);
        var high := And(currWord, Mask(bitsLeft));
        currWord := ShiftRight(currWord, bitsLeft % 64);
        bitsInCurrWord := bitsInCurrWord - bitsLeft;
        JoinWords(stream.bits, pos, mid, pos + n);
        r := Or(r, ShiftLeft(high, n - bitsLeft, 64));
      }
    }

    /** A jump makes the given bit the current one. */
    method JumpToBit(bitNo: nat)
      requires Valid() && bitNo < |stream.bits|
      modifies `nextChar, `currWord, `bitsInCurrWord
      ensures Valid() && CurrBitNo() == bitNo && bitsInCurrWord < 64
    {
      hide ShiftRight, Nat, BytesToBits, LittleEndian;
      var byteNo := bitNo / 8 / 8 * 8;
      var wordBitNo := bitNo % 64;
      WordOf(bitNo, |stream.bytes|);
      nextChar := byteNo;
      bitsInCurrWord := 0;
      if wordBitNo > 0 {
        var _ := Read(wordBitNo);
      }
    }

    /** The skip reaches the next multiple of 32, except from a full unread word: then
        the cursor is on a boundary already and still moves on by 32. */
    method SkipToFourByteBoundary()
      requires Valid()
      modifies `currWord, `bitsInCurrWord
      ensures Valid() && bitsInCurrWord < 64
      ensures CurrBitNo() == if old(bitsInCurrWord) < 64 then AlignUp32(old(CurrBitNo())) else old(CurrBitNo()) + 32
      ensures CurrBitNo() == AlignUp32(old(CurrBitNo())) <==> old(bitsInCurrWord) < 64
    {
      hide ShiftRight, Nat, BytesToBits, LittleEndian, Pow2, AlignUp32;
      Boundary(CurrBitNo(), bitsInCurrWord, 8 * nextChar);
      if bitsInCurrWord >= 32 {
        TakeLowBits(stream.bits, CurrBitNo(), bitsInCurrWord - 32, 8 * nextChar);
        currWord := ShiftRight(currWord, bitsInCurrWord - 32);
        bitsInCurrWord := 32;
        return;
      }
      bitsInCurrWord := 0;
    }

    /** Inside the stream the answer is no; finding that out may load a word, which
        does not move the cursor. */
    method AtEndOfStream() returns (r: bool)
      requires Valid() && CurrBitNo() < |stream.bits|
      modifies `nextChar, `currWord, `bitsInCurrWord
      ensures Valid() && CurrBitNo() == old(CurrBitNo()) && !r
    {
      if bitsInCurrWord != 0 {
        return false;
      }
      FillCurrWord();
      r := bitsInCurrWord == 0;
    }

    /** A variable-width number in a 32-bit register. */
    method ReadVBR(numBits: nat) returns (r: nat)
      requires Valid() && VbrAt(stream.bits, CurrBitNo(), numBits, 32).Got?
      modifies `nextChar, `currWord, `bitsInCurrWord
      ensures Valid() && bitsInCurrWord < 64
      ensures Got(r, CurrBitNo()) == VbrAt(stream.bits, old(CurrBitNo()), numBits, 32)
    {
      hide And, Or, ShiftLeft, Nat, BytesToBits, Pow2, ChunksAt, Unfinished;
      ghost var start := CurrBitNo();
      FirstChunk(stream.bits, start, numBits, 32);
      PieceFacts(stream.bits, start, numBits);
      ShiftedOne(numBits - 1, 32);
      var top := ShiftLeft(1, numBits - 1, 32);
      var piece := Read(numBits);
      if And(piece, top) == 0 {
        return piece;
      }
      r := 0;
      var nextBit: nat := 0;
      ghost var total := ChunksAt(stream.bits, start, numBits, 0, 32);
      while true
        invariant Valid() && bitsInCurrWord < 64 && numBits <= CurrBitNo()
        invariant piece == Nat(stream.bits[CurrBitNo() - numBits..CurrBitNo()])
        invariant Unfinished(stream.bits, CurrBitNo() - numBits, numBits, nextBit, 32, r, total)
        decreases |stream.bits| - CurrBitNo()
      {
        PieceFacts(stream.bits, CurrBitNo() - numBits, numBits);
        ChunkStep(stream.bits, CurrBitNo() - numBits, numBits, nextBit, 32, r, total);
        r := Or(r, ShiftLeft(And(piece, top - 1), nextBit, 32));
        if And(piece, top) == 0 {
          return;
        }
        nextBit := nextBit + (numBits - 1);
        piece := Read(numBits);
      }
    }

    /** A variable-width number in a 64-bit register. */
    method ReadVBR64(numBits: nat) returns (r: nat)
      requires Valid() && VbrAt(stream.bits, CurrBitNo(), numBits, 64).Got?
      modifies `nextChar, `currWord, `bitsInCurrWord
      ensures Valid() && bitsInCurrWord < 64
      ensures Got(r, CurrBitNo()) == VbrAt(stream.bits, old(CurrBitNo()), numBits, 64)
    {
      hide And, Or, ShiftLeft, Nat, BytesToBits, Pow2, ChunksAt, Unfinished;
      ghost var start := CurrBitNo();
      FirstChunk(stream.bits, start, numBits, 64);
      PieceFacts(stream.bits, start, numBits);
      ShiftedOne(numBits - 1, 32);
      var top := ShiftLeft(1, numBits - 1, 32);
      var piece := Read(numBits);
      if And(piece, top) == 0 {
        return piece;
      }
      r := 0;
      var nextBit: nat := 0;
      ghost var total := ChunksAt(stream.bits, start, numBits, 0, 64);
      while true
        invariant Valid() && bitsInCurrWord < 64 && numBits <= CurrBitNo()
        invariant piece == Nat(stream.bits[CurrBitNo() - numBits..CurrBitNo()])
        invariant Unfinished(stream.bits, CurrBitNo() - numBits, numBits, nextBit, 64, r, total)
        decreases |stream.bits| - CurrBitNo()
      {
        PieceFacts(stream.bits, CurrBitNo() - numBits, numBits);
        ChunkStep(stream.bits, CurrBitNo() - numBits, numBits, nextBit, 64, r, total);
        r := Or(r, ShiftLeft(And(piece, top - 1), nextBit, 64));
        if And(piece, top) == 0 {
          return;
        }
        nextBit := nextBit + (numBits - 1);
        piece := Read(numBits);
      }
    }

    method ReadCode() returns (code: nat)
      requires Valid() && ReadAt(stream.bits, CurrBitNo(), currCodeSize).Got?
      modifies `nextChar, `currWord, `bitsInCurrWord
      ensures Valid() && bitsInCurrWord < 64
      ensures var r := ReadAt(stream.bits, old(CurrBitNo()), currCodeSize);
        code == r.value % Pow2(32) && CurrBitNo() == r.pos
    {
      code := Read(currCodeSize);
      code := code % Pow2(32);
    }

    method ReadSubBlockID() returns (id: nat)
      requires Valid() && VbrAt(stream.bits, CurrBitNo(), BLOCK_ID_WIDTH, 32).Got?
      modifies `nextChar, `currWord, `bitsInCurrWord
      ensures Valid() && bitsInCurrWord < 64
      ensures Got(id, CurrBitNo()) == VbrAt(stream.bits, old(CurrBitNo()), BLOCK_ID_WIDTH, 32)
    {
      id := ReadVBR(BLOCK_ID_WIDTH);
    }

    predicate CanSkipToPos(pos: nat) {
      pos == 0 || pos - 1 < |stream.bytes|
    }

    /** One abbreviated value. */
    method ReadAbbreviatedField(op: AbbrevOp) returns (r: nat)
      requires Valid() && op.IsScalar() && FieldAt(stream.bits, CurrBitNo(), op).Got?
      modifies `nextChar, `currWord, `bitsInCurrWord
      ensures Valid() && bitsInCurrWord < 64
      ensures Got(r, CurrBitNo()) == FieldAt(stream.bits, old(CurrBitNo()), op)
    {
      match op
      case Fixed(width) =>
        r := Read(width);
      case Vbr(width) =>
        r := ReadVBR64(width);
      case Char6 =>
        ghost var pos := CurrBitNo();
        var v := Read(6);
        NatBound(stream.bits[pos..pos + 6]);
        Pow2Constants();
        r := DecodeChar6(v);
    }

    /** The values of an array, appended to those read before. */
    method ReadElements(vals: seq<nat>, count: nat, op: AbbrevOp) returns (r: seq<nat>)
      requires Valid() && op.IsScalar() && FieldsAt(stream.bits, CurrBitNo(), op, count).Got?
      modifies `nextChar, `currWord, `bitsInCurrWord
      ensures Valid()
      ensures var all := FieldsAt(stream.bits, old(CurrBitNo()), op, count);
        r == vals + all.value && CurrBitNo() == all.pos
      ensures old(bitsInCurrWord) < 64 ==> bitsInCurrWord < 64
    {
      hide FieldAt, Nat, BytesToBits;
      ghost var total := FieldsAt(stream.bits, CurrBitNo(), op, count);
      r := vals;
      ghost var read: seq<nat> := [];
      ResumesStart(total);
      var left := count;
      while left != 0
        invariant Valid() && r == vals + read
        invariant Resumes(total, read, FieldsAt(stream.bits, CurrBitNo(), op, left))
        invariant old(bitsInCurrWord) < 64 ==> bitsInCurrWord < 64
      {
        ghost var rest := FieldsAt(stream.bits, CurrBitNo(), op, left);
        var v := ReadAbbreviatedField(op);
        ResumesStep(total, read, [v], rest, FieldsAt(stream.bits, CurrBitNo(), op, left - 1));
        r := r + [v];
        read := read + [v];
        left := left - 1;
      }
    }

    /** Bytes straight from the buffer, appended to the values read before. */
    method CopyBytes(vals: seq<nat>, start: nat, count: nat) returns (r: seq<nat>)
      requires Valid() && 8 * start + 8 * count <= |stream.bits|
      ensures r == vals + BytesAt(stream.bits, 8 * start, count)
    {
      hide BytesAt, Nat, BytesToBits;
      ghost var total := BytesAt(stream.bits, 8 * start, count);
      ghost var read: seq<nat> := [];
      assert [] + total == total;
      var ptr: nat, left: nat := start, count;
      r := vals;
      while left != 0
        invariant ptr + left == start + count
        invariant r == vals + read
        invariant total == read + BytesAt(stream.bits, 8 * ptr, left)
      {
        NextByte(stream, ptr, left, read);
        r := r + [stream.bytes[ptr]];
        read := read + [stream.bytes[ptr]];
        ptr := ptr + 1;
        left := left - 1;
      }
      assert |BytesAt(stream.bits, 8 * ptr, 0)| == 0;
    }

    static lemma BlobParts(bits: seq<bool>, pos: nat)
      requires BlobAt(bits, pos).Got?
      ensures var length := VbrAt(bits, pos, 6, 32);
        && length.Got?
        && (var start := AlignUp32(length.pos);
            && start == 8 * (start / 8)
            && start + BlobSpan(length.value) < |bits| && start + 8 * length.value <= |bits|
            && BlobAt(bits, pos) == Got(BytesAt(bits, start, length.value), start + BlobSpan(length.value)))
    {
      hide VbrAt, Pow2, BlobSpan, BytesAt, AlignUp32;
      WholeBytes(AlignUp32(VbrAt(bits, pos, 6, 32).pos));
    }

    static lemma WholeBytes(pos: nat)
      requires pos % 32 == 0
      ensures pos == 8 * (pos / 8)
    {
    }

    /** A blob: its length, then its bytes on a 32-bit boundary, then padding. */
    method ReadBlob(vals: seq<nat>) returns (r: seq<nat>)
      requires Valid() && BlobAt(stream.bits, CurrBitNo()).Got?
      modifies `nextChar, `currWord, `bitsInCurrWord
      ensures Valid() && bitsInCurrWord < 64
      ensures var all := BlobAt(stream.bits, old(CurrBitNo()));
        r == vals + all.value && CurrBitNo() == all.pos
    {
      hide BlobAt, VbrAt, Pow2, Nat, BytesToBits, BlobSpan, BytesAt, AlignUp32;
      BlobParts(stream.bits, CurrBitNo());
      var count := ReadVBR(6);
      SkipToFourByteBoundary();
      var currBitPos := CurrBitNo();
      var newEnd := currBitPos + BlobSpan(count);
      r := CopyBytes(vals, currBitPos / 8, count);
      JumpToBit(newEnd);
    }

    method GetAbbrev(abbrevId: nat) returns (r: Outcome<Abbrev>)
      ensures r == if FIRST_APPLICATION_ABBREV <= abbrevId < FIRST_APPLICATION_ABBREV + |currAbbrevs|
                   then Ok(currAbbrevs[abbrevId - FIRST_APPLICATION_ABBREV])
                   else FatalError("Invalid abbrev number")
    {
      if abbrevId < FIRST_APPLICATION_ABBREV || abbrevId - FIRST_APPLICATION_ABBREV >= |currAbbrevs| {
        return FatalError("Invalid abbrev number");
      }
      return Ok(currAbbrevs[abbrevId - FIRST_APPLICATION_ABBREV]);
    }

    /** The operands after the record code. */
    method ReadOperands(abbv: Abbrev) returns (r: Outcome<seq<nat>>)
      requires Valid() && abbv != [] && !OpsAt(stream.bits, CurrBitNo(), abbv[1..]).Outside?
      modifies `nextChar, `currWord, `bitsInCurrWord
      ensures Valid()
      ensures old(bitsInCurrWord) < 64 ==> bitsInCurrWord < 64
      ensures Agrees(r, CurrBitNo(), OpsAt(stream.bits, old(CurrBitNo()), abbv[1..]))
    {
      hide FieldAt, FieldsAt, VbrAt, BlobAt, Nat, BytesToBits, Pow2;
      var vals: seq<nat> := [];
      ghost var total := OpsAt(stream.bits, CurrBitNo(), abbv[1..]);
      ResumesStart(total);
      var i := 1;
      while i != |abbv|
        invariant 1 <= i <= |abbv| && Valid()
        invariant old(bitsInCurrWord) < 64 ==> bitsInCurrWord < 64
        invariant Resumes(total, vals, OpsAt(stream.bits, CurrBitNo(), abbv[i..]))
      {
        var op := abbv[i];
        ghost var before, start, done := OpsAt(stream.bits, CurrBitNo(), abbv[i..]), CurrBitNo(), vals;
        assert abbv[i..][0] == op && abbv[i..][1..] == abbv[i + 1..];
        if op.Array? {
          var numElems := ReadVBR(6);
          if i + 2 != |abbv| {
            return FatalError("Array op not second to last");
          }
          i := i + 1;
          var elemEnc := abbv[i];
          if elemEnc.Literal? {
            return FatalError("Array element type has to be an encoding of a type");
          }
          if elemEnc.Array? || elemEnc.Blob? {
            return FatalError("Array element type can't be an Array or a Blob");
          }
          vals := ReadElements(vals, numElems, elemEnc);
          assert vals == done + before.value;
          assert vals + [] == vals;
          assert abbv[i + 1..] == [];
        } else {
          if op.Literal? {
            vals := vals + [op.value];
          } else if op.IsScalar() {
            var v := ReadAbbreviatedField(op);
            vals := vals + [v];
          } else {
            vals := ReadBlob(vals);
          }
          OneOp(stream.bits, start, abbv[i..]);
          ResumesStep(total, done, OpAt(stream.bits, start, op).value, before, OpsAt(stream.bits, CurrBitNo(), abbv[i + 1..]));
        }
        i := i + 1;
      }
      assert abbv[i..] == [] && vals + [] == vals;
      r := Ok(vals);
    }

    method ReadRecord(abbrevId: nat) returns (r: Outcome<Record>)
      requires Valid() && !RecordAt(stream.bits, CurrBitNo(), currAbbrevs, abbrevId).Outside?
      modifies `nextChar, `currWord, `bitsInCurrWord
      ensures Valid()
      ensures old(bitsInCurrWord) < 64 ==> bitsInCurrWord < 64
      ensures Agrees(r, CurrBitNo(), RecordAt(stream.bits, old(CurrBitNo()), currAbbrevs, abbrevId))
    {
      hide FieldAt, FieldsAt, OpsAt, VbrAt, Nat, BytesToBits, Pow2;
      if abbrevId == UNABBREV_RECORD {
        var unabbrevCode := ReadVBR(6);
        var count := ReadVBR(6);
        ghost var all := FieldsAt(stream.bits, CurrBitNo(), Vbr(6), count);
        var elements := ReadElements([], count, Vbr(6));
        assert [] + all.value == all.value;
        return Ok(Record(unabbrevCode, elements));
      }

      var found := GetAbbrev(abbrevId);
      if found.FatalError? {
        return FatalError(found.message);
      }
      var abbv := found.value;
      var codeOp := abbv[0];
      var code: nat;
      if codeOp.Literal? {
        code := codeOp.value % Pow2(32);
      } else {
        if codeOp.Array? || codeOp.Blob? {
          return FatalError("Abbreviation starts with an Array or a Blob");
        }
        code := ReadAbbreviatedField(codeOp);
        code := code % Pow2(32);
      }

      var operands := ReadOperands(abbv);
      if operands.FatalError? {
        return FatalError(operands.message);
      }
      r := Ok(Record(code, operands.value));
    }

    method ReadOpDef() returns (r: Outcome<AbbrevOp>)
      requires Valid() && !OpDefAt(stream.bits, CurrBitNo()).Outside?
      modifies `nextChar, `currWord, `bitsInCurrWord
      ensures Valid() && bitsInCurrWord < 64
      ensures Agrees(r, CurrBitNo(), OpDefAt(stream.bits, old(CurrBitNo())))
    {
      hide VbrAt, Nat, BytesToBits, Pow2;
      var isLiteral := Read(1);
      if isLiteral != 0 {
        var v := ReadVBR64(8);
        return Ok(Literal(v));
      }
      var enc := Read(3);
      if enc == 1 || enc == 2 {
        var data := ReadVBR64(5);
        if data == 0 {
          return Ok(Literal(0));
        }
        if data > MAX_CHUNK_SIZE {
          return FatalError("Fixed or VBR abbrev record with size > MaxChunkData");
        }
        return Ok(if enc == 1 then Fixed(data) else Vbr(data));
      } else if enc == 3 {
        return Ok(Array);
      } else if enc == 4 {
        return Ok(Char6);
      } else if enc == 5 {
        return Ok(Blob);
      }
      return FatalError("Invalid encoding");
    }

    /** The definition of an abbreviation, added to those of the current block. */
    method ReadAbbrevRecord() returns (r: Outcome<()>)
      requires Valid() && !DefineAt(stream.bits, CurrBitNo()).Outside?
      modifies `nextChar, `currWord, `bitsInCurrWord, `currAbbrevs
      ensures Valid() && bitsInCurrWord < 64
      ensures match DefineAt(stream.bits, old(CurrBitNo()))
              case Got(ops, end) => r == Ok(()) && CurrBitNo() == end && currAbbrevs == old(currAbbrevs) + [ops]
              case _ => r.FatalError?
    {
      hide VbrAt, OpDefAt, Nat, BytesToBits, Pow2;
      var numOpInfo := ReadVBR(5);
      var abbv: Abbrev := [];
      ghost var total := OpDefsAt(stream.bits, CurrBitNo(), numOpInfo);
      ResumesStart(total);
      var i := 0;
      while i != numOpInfo
        invariant i <= numOpInfo && Valid() && bitsInCurrWord < 64
        invariant currAbbrevs == old(currAbbrevs)
        invariant Resumes(total, abbv, OpDefsAt(stream.bits, CurrBitNo(), numOpInfo - i))
      {
        ghost var before := OpDefsAt(stream.bits, CurrBitNo(), numOpInfo - i);
        var op := ReadOpDef();
        if op.FatalError? {
          return FatalError(op.message);
        }
        ResumesStep(total, abbv, [op.value], before, OpDefsAt(stream.bits, CurrBitNo(), numOpInfo - i - 1));
        abbv := abbv + [op.value];
        i := i + 1;
      }
      assert abbv + [] == abbv;
      if |abbv| == 0 {
        return FatalError("Abbrev record with no operands");
      }
      currAbbrevs := currAbbrevs + [abbv];
      return Ok(());
    }

    // ----- blocks

    /** Nothing but the position changes, and only as the block header says. */
    method SkipBlock() returns (failed: bool)
      requires Valid() && BitStreamSpec.SkipBlock(stream.bits, View()).Done?
      modifies `nextChar, `currWord, `bitsInCurrWord
      ensures Valid() && (!failed ==> bitsInCurrWord < 64)
      ensures Done(failed, View()) == BitStreamSpec.SkipBlock(stream.bits, old(View()))
    {
      hide VbrAt, Nat, BytesToBits, Pow2;
      var _ := ReadVBR(CODE_LEN_WIDTH);
      SkipToFourByteBoundary();
      var numFourBytes := Read(BLOCK_SIZE_WIDTH);
      var skipTo := CurrBitNo() + numFourBytes * 4 * 8 % Pow2(32);
      var atEnd := AtEndOfStream();
      if atEnd || !CanSkipToPos(skipTo / 8) {
        return true;
      }
      JumpToBit(skipTo);
      return false;
    }

    method EnterSubBlock(blockId: nat) returns (failed: bool)
      requires Valid() && UniqueIds(stream.blockInfoRecords)
      requires BitStreamSpec.EnterSubBlock(stream.bits, View(), RegisteredAbbrevs(stream.blockInfoRecords, blockId)).Done?
      modifies this
      ensures Valid()
      ensures Done(failed, View())
           == BitStreamSpec.EnterSubBlock(stream.bits, old(View()), RegisteredAbbrevs(stream.blockInfoRecords, blockId))
    {
      hide VbrAt, Nat, BytesToBits, Pow2;
      blockScope := blockScope + [Scope(currCodeSize, currAbbrevs)];
      currAbbrevs := [];

      var info := stream.GetBlockInfo(blockId);
      if info >= 0 {
        currAbbrevs := currAbbrevs + stream.blockInfoRecords[info].abbrevs;
        assert [] + stream.blockInfoRecords[info].abbrevs == stream.blockInfoRecords[info].abbrevs;
      }

      currCodeSize := ReadVBR(CODE_LEN_WIDTH);
      if currCodeSize > MAX_CHUNK_SIZE {
        return true;
      }

      SkipToFourByteBoundary();
      var _ := Read(BLOCK_SIZE_WIDTH);
      if currCodeSize == 0 {
        return true;
      }
      failed := AtEndOfStream();
    }

    method PopBlockScope()
      requires Valid() && blockScope != []
      modifies `currCodeSize, `currAbbrevs, `blockScope
      ensures Valid() && View() == Pop(old(View()))
    {
      var top := blockScope[|blockScope| - 1];
      currCodeSize := top.codeSize;
      currAbbrevs := top.abbrevs;
      blockScope := blockScope[..|blockScope| - 1];
    }

    /** The scope is left behind the block's tail.  As in every skip to a boundary, that takes
        a word of which something has been read. */
    method ReadBlockEnd() returns (failed: bool)
      requires Valid()
      modifies this
      ensures Valid() && (old(bitsInCurrWord) < 64 ==> bitsInCurrWord < 64)
      ensures failed == (old(blockScope) == [])
      ensures failed ==> View() == old(View())
      ensures !failed ==> View() == Pop(old(View()).(pos :=
        if old(bitsInCurrWord) < 64 then AlignUp32(old(CurrBitNo())) else old(CurrBitNo()) + 32))
    {
      if blockScope == [] {
        return true;
      }
      SkipToFourByteBoundary();
      PopBlockScope();
      return false;
    }

    method Advance(dontPopBlockAtEnd: bool, dontAutoprocessAbbrevs: bool) returns (r: Outcome<Entry>)
      requires Valid()
      requires !BitStreamSpec.Advance(stream.bits, View(), !dontPopBlockAtEnd, !dontAutoprocessAbbrevs).Beyond?
      modifies this
      ensures Valid() && bitsInCurrWord < 64
      ensures Follows(r, View(), BitStreamSpec.Advance(stream.bits, old(View()), !dontPopBlockAtEnd, !dontAutoprocessAbbrevs))
    {
      hide VbrAt, DefineAt, Nat, BytesToBits, Pow2;
      ghost var total := BitStreamSpec.Advance(stream.bits, View(), !dontPopBlockAtEnd, !dontAutoprocessAbbrevs);
      while true
        invariant Valid()
        invariant total == BitStreamSpec.Advance(stream.bits, View(), !dontPopBlockAtEnd, !dontAutoprocessAbbrevs)
        decreases |stream.bits| - CurrBitNo()
      {
        var code := ReadCode();
        if code == END_BLOCK {
          if !dontPopBlockAtEnd {
            var failed := ReadBlockEnd();
            if failed {
              return Ok(Error);
            }
          }
          return Ok(EndBlock);
        }
        if code == ENTER_SUBBLOCK {
          var id := ReadSubBlockID();
          return Ok(SubBlock(id));
        }
        if code == DEFINE_ABBREV && !dontAutoprocessAbbrevs {
          var defined := ReadAbbrevRecord();
          if defined.FatalError? {
            return FatalError(defined.message);
          }
          continue;
        }
        return Ok(RecordEntry(code));
      }
    }

    method AdvanceSkippingSubblocks(dontPopBlockAtEnd: bool, dontAutoprocessAbbrevs: bool) returns (r: Outcome<Entry>)
      requires Valid()
      requires !AdvanceSkipping(stream.bits, View(), !dontPopBlockAtEnd, !dontAutoprocessAbbrevs).Beyond?
      modifies this
      ensures Valid() && (r.Ok? && r.value != Error ==> bitsInCurrWord < 64)
      ensures Follows(r, View(), AdvanceSkipping(stream.bits, old(View()), !dontPopBlockAtEnd, !dontAutoprocessAbbrevs))
    {
      hide VbrAt, Nat, BytesToBits, Pow2;
      ghost var total := AdvanceSkipping(stream.bits, View(), !dontPopBlockAtEnd, !dontAutoprocessAbbrevs);
      while true
        invariant Valid()
        invariant total == AdvanceSkipping(stream.bits, View(), !dontPopBlockAtEnd, !dontAutoprocessAbbrevs)
        decreases |stream.bits| - CurrBitNo()
      {
        r := Advance(dontPopBlockAtEnd, dontAutoprocessAbbrevs);
        if r.FatalError? || !r.value.SubBlock? {
          return;
        }
        var failed := SkipBlock();
        if failed {
          return Ok(Error);
        }
      }
    }

    /** A definition inside BLOCKINFO goes to the table instead of the current block. */
    method ReadBlockInfoAbbrev(index: nat) returns (r: Outcome<()>)
      requires Valid() && UniqueIds(stream.blockInfoRecords) && index < |stream.blockInfoRecords|
      requires !DefineAt(stream.bits, CurrBitNo()).Outside?
      modifies this, stream
      ensures Valid() && bitsInCurrWord < 64 && UniqueIds(stream.blockInfoRecords)
      ensures match DefineAt(stream.bits, old(CurrBitNo()))
              case Got(ops, end) =>
                && r == Ok(()) && View() == old(View()).(pos := end)
                && stream.blockInfoRecords == WithAbbrev(old(stream.blockInfoRecords), index, ops)
              case _ => r.FatalError?
    {
      hide DefineAt, Nat, BytesToBits, Pow2;
      r := ReadAbbrevRecord();
      if r.FatalError? {
        return;
      }
      var back := currAbbrevs[|currAbbrevs| - 1];
      stream.blockInfoRecords := WithAbbrev(stream.blockInfoRecords, index, back);
      currAbbrevs := currAbbrevs[..|currAbbrevs| - 1];
      assert currAbbrevs == old(currAbbrevs);
    }

    /** The first BLOCKINFO block fills the table of the stream. */
    method ReadBlockInfoBlock() returns (r: Outcome<bool>)
      requires Valid() && UniqueIds(stream.blockInfoRecords)
      requires !ReadBlockInfo(stream.bits, View(), stream.blockInfoRecords).Beyond?
      modifies this, stream
      ensures Valid() && UniqueIds(stream.blockInfoRecords)
      ensures match ReadBlockInfo(stream.bits, old(View()), old(stream.blockInfoRecords))
              case Done((failed, table), st) => r == Ok(failed) && stream.blockInfoRecords == table && View() == st
              case _ => r.FatalError?
    {
      hide VbrAt, RecordAt, DefineAt, Nat, BytesToBits, Pow2, UniqueIds, WithEntry, WithAbbrev;
      if stream.blockInfoRecords != [] {
        var skipFailed := SkipBlock();
        return Ok(skipFailed);
      }
      var enterFailed := EnterSubBlock(BLOCKINFO_BLOCK_ID);
      if enterFailed {
        return Ok(true);
      }
      ghost var total := InfoRecords(stream.bits, View(), stream.blockInfoRecords, 0);
      var currBlockInfo: nat := 0;
      while true
        invariant Valid() && UniqueIds(stream.blockInfoRecords)
        invariant total == InfoRecords(stream.bits, View(), stream.blockInfoRecords, currBlockInfo)
        decreases |stream.bits| - CurrBitNo()
      {
        var entry := AdvanceSkippingSubblocks(false, true);
        if entry.FatalError? {
          return FatalError(entry.message);
        }
        match entry.value
        case Error => return Ok(true);
        case EndBlock => return Ok(false);
        case RecordEntry(id) =>
          if id == DEFINE_ABBREV {
            if currBlockInfo >= |stream.blockInfoRecords| {
              return Ok(true);
            }
            var defined := ReadBlockInfoAbbrev(currBlockInfo);
            if defined.FatalError? {
              return FatalError(defined.message);
            }
            continue;
          }
          var record := ReadRecord(id);
          if record.FatalError? {
            return FatalError(record.message);
          }
          if record.value.code == SET_BLOCK_ID {
            if |record.value.values| < 1 {
              return Ok(true);
            }
            currBlockInfo := stream.GetOrCreateBlockInfo(record.value.values[0] % Pow2(32));
          } else if record.value.code == BLOCK_NAME || record.value.code == SET_RECORD_NAME {
            if currBlockInfo >= |stream.blockInfoRecords| {
              return Ok(true);
            }
          }
      }
    }
  }
}
