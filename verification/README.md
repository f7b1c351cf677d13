# Dilithium's IR kernel: a verified model

Dilithium reads LLVM bitcode and keeps LLVM's intermediate representation in memory.
This project models the parts of it whose invariants are hard to see in any one body,
and proves them with Dafny 4.11.  `dafny verify dfyconfig.toml` checks everything.

* **Bit stream** (`Bits`, `BitCodes`, `BitStreamSpec`, `BitStreamReader`,
  `BitStreamWriter`, `StreamFormat`, `BitStreamBlocks`, `BlockInfoRoundTrip`,
  `SignRotation`).
  The word-buffered cursor is a class with the fields of the original.  Each of its
  methods is proved against a declarative reading of a sequence of bits from a position
  (`ReadAt`, `VbrAt`, `RecordAt`, `DefineAt`, `Advance`, ...).  Independently of that
  reading, a writer of the format described in the sections "Variable Width Integers",
  "Abbreviation IDs", "Blocks", "Data Records" and "Abbreviations" of the LLVM Bitcode
  File Format says which bits stand for a value, a record, a block or a BLOCKINFO block,
  and round trips connect the two for all inputs.  `StreamFormat` gives the reading in
  literal numbers, so that reader and writer cannot agree on a wrong code.
* **Use lists** (`StableMerge`, `Uses`, `Waymarking`).  The intrusive list with its
  back pointers, the binomial merge sort that relinks it in place, replacement of all
  uses, and the tags by which a slot finds the end of its array.
* **Value handles** (`ValueHandles`, `HandleWalks`).  The table of handle lists, and the
  walks in which a sentinel survives that the handles it visits unlink themselves.
* **Metadata** (`MetadataResolution`, `SlotNumbering`, `TypeNumbering`).  The cascade
  that resolves waiting nodes, the numbering of nodes on graphs with cycles, and the
  types collected for printing.
* **Lazy function bodies** (`LazyBodies`).  The module parse that suspends after each
  body and resumes on demand.
* **Integers, attributes, layout** (`IntegerText`, `AttributeMerge`, `MathExtras`,
  `Layout`).  Text of fixed-width integers, the merge of attribute sets, and sizes and
  alignments under a table of alignments with remembered struct layouts, over unbounded
  numbers and in the original's 64 bits.

Where the original changes objects in place, so does the model: its classes have the
original's fields, and a ghost field or function gives the list, the order or the state
that a method's contract speaks of.  Fatal errors and thrown errors are results
(`FatalError`, `ok == false`).  Names follow the original.

Findings, each with its exact condition:

* The padded length of a blob wraps from 2^29 - 3 bytes on (`BlobSpanExact`), and the length
  of a skipped block from 2^27 words on (`SkipBlockWritten`, met by `LongBlockMissed`).
* Sizes count modulo 2^64 (`SizesWrap`).  A struct gets its true layout if and only if its
  size and the bits of each member fit (`LayoutExact`); seventeen arrays of 2^60 bytes, each
  of which fits, overlap (`MembersOverlap`).
* A prototype declared between two bodies while another one waits takes that one's body
  (`PairedExactly`, `LatePrototype`).
* The skip to a 32-bit boundary would go 32 bits too far from a full unread word
  (`SkipToFourByteBoundary`).  The code never gets there: the skip is private, and each of its
  callers has just read, `ReadBlockEnd` through `Advance`.

## Model

| member | source | states |
|---|---|---|
| BitStream.BitStreamCursor.FillCurrWord | Src/BitstreamReader.cpp:288-309 | The buffer comes to hold the next eight bytes, least significant byte first: the 64 stream bits from the old byte position on. |
| BitStream.BitStreamCursor.Read | Src/BitstreamReader.cpp:311-350 | Read(n), for 1 to 64 bits, returns the number the next n stream bits spell (least significant first) and moves the bit position by n, within a word or across two. |
| BitStream.BitStreamCursor.JumpToBit | Src/BitstreamReader.cpp:272-286 | After a jump to bit b the current bit number is b, whatever the alignment of b. |
| BitStream.BitStreamCursor.SkipToFourByteBoundary | Src/BitstreamReader.cpp:709-720 | The skip reaches the least multiple of 32 not below the position if and only if the buffer is not a full unread word; from a full word it would go 32 bits too far. The skip is private and each of its callers has just read, which never leaves a full word, so they all reach the boundary. |
| BitStream.BitStreamCursor.AtEndOfStream | Src/BitstreamReader.cpp:211-223 | Inside the stream the answer is no, and finding out does not move the position even when it loads a word. |
| BitStream.BitStreamCursor.ReadVBR | Src/BitstreamReader.cpp:352-376 | Whenever the chunks at the position form a number of chunk width 2 to 32 in a 32-bit register, that number is returned and exactly its chunks are consumed. |
| BitStream.BitStreamCursor.ReadVBR64 | Src/BitstreamReader.cpp:378-402 | The same for a 64-bit register. |
| BitStream.BitStreamCursor.ReadCode | Include/Dilithium/BitstreamReader.hpp:190-193 | The abbreviation id is the next code of the current width, cut to 32 bits. |
| BitStream.BitStreamCursor.ReadSubBlockID | Include/Dilithium/BitstreamReader.hpp:195-198 | The block id is the next 8-bit-chunk number. |
| BitStream.BitStreamCursor.ReadAbbreviatedField | Src/BitstreamReader.cpp:41-62 | A Fixed, VBR or Char6 field is read as the declarative reading of its encoding says, and the position is behind it. |
| BitStream.BitStreamCursor.ReadOperands | Src/BitstreamReader.cpp:508-557 | The operands of an abbreviation, with a trailing array or blob, are read as the declarative reading says, in order. |
| BitStream.BitStreamCursor.ReadBlob | Src/BitstreamReader.cpp:559-585 | A blob is its length, the bytes from the next 32-bit boundary and the padding after them, with the length arithmetic of 32 bits the code uses. |
| BitStream.BitStreamCursor.ReadRecord | Src/BitstreamReader.cpp:476-583 | Code and values of a record, abbreviated or not, agree with the declarative reading of the bits, including the fatal case; the position is behind the record. |
| BitStream.BitStreamCursor.ReadAbbrevRecord | Src/BitstreamReader.cpp:585-629 | A DEFINE_ABBREV adds exactly the abbreviation the bits define to the current list, with Fixed(0) and VBR(0) turned into the literal 0. |
| BitStream.BitStreamCursor.SkipBlock | Src/BitstreamReader.cpp:404-421 | Skipping goes to the header position plus the word count times 32 computed in 32 bits, or reports that the target cannot be reached, and touches neither code width nor scope. |
| BitStream.BitStreamCursor.EnterSubBlock | Src/BitstreamReader.cpp:423-448 | Entering saves code width and abbreviations in a scope, takes over the abbreviations registered for the block id and the width of the header, and stands at the first item. |
| BitStream.BitStreamCursor.PopBlockScope | Src/BitstreamReader.cpp:722-728 | Leaving restores the code width and the abbreviations saved on entry. |
| BitStream.BitStreamCursor.ReadBlockEnd | Src/BitstreamReader.cpp:450-464 | The end of a block aligns the position to 32 bits, as after every read, and pops one scope; without a scope it is an error and nothing changes. |
| BitStream.BitStreamCursor.Advance | Src/BitstreamReader.cpp:225-252 | Advance stops at the next end, sub-block or record, after taking in every abbreviation definition before it. |
| BitStream.BitStreamCursor.AdvanceSkippingSubblocks | Src/BitstreamReader.cpp:254-270 | The same with nested blocks stepped over, or an error when one cannot be skipped. |
| BitStream.BitStreamCursor.ReadBlockInfoBlock | Src/BitstreamReader.cpp:631-707 | The table of registered abbreviations after the block is the one the declarative reading of its items gives, and so are position and scope; malformed input is reported the same way. |
| BitStream.BitStreamReader.GetBlockInfo | Src/BitstreamReader.cpp:123-139 | The entry for a block id, when there is one; the shortcut through the last entry does not change the answer. |
| BitStream.BitStreamReader.GetOrCreateBlockInfo | Src/BitstreamReader.cpp:141-154 | The entry for the id, made at the end of the table when it is missing; no other entry changes and ids stay unique. |
| BitStreamWriter.VbrRoundTrip | Src/BitstreamReader.cpp:352-402 | For chunk width 2 to 32, every value below 2^32 (2^64) written in canonical chunks is read back, and exactly its chunks are consumed. |
| BitStreamWriter.FieldRoundTrip | Src/BitstreamReader.cpp:41-62 | Every value that fits a Fixed, VBR or Char6 field is read back from what a writer puts there. |
| BitStreamWriter.BlobSpanExact | Src/BitstreamReader.cpp:564-566 | The padded blob length the reader computes is the true one if and only if the blob has at most 2^29 - 4 bytes. |
| BitStreamWriter.BlobRoundTrip | Src/BitstreamReader.cpp:559-585 | Blobs of up to that length are read back byte for byte. |
| BitStreamWriter.RecordRoundTrip | Src/BitstreamReader.cpp:476-583 | For every abbreviation and every record that fits it, and for UNABBREV_RECORD, reading the written bits gives the same code and values and stops at the bit after them. |
| BitStreamWriter.DefineRoundTrip | Src/BitstreamReader.cpp:585-629 | Reading a written DEFINE_ABBREV gives the same abbreviation and stops behind it. |
| StreamFormat.CodeMeans | Src/BitstreamReader.cpp:225-252 | The literal codes: 0 ends the block, pops its scope and aligns to 32 bits, or is an error without one; 1 enters a block whose id follows in chunks of 8; 2 defines an abbreviation; 3 and above are records. |
| StreamFormat.RecordMeans | Src/BitstreamReader.cpp:476-583 | Record 3 is a code, a count and so many values in chunks of 6; the abbreviations of the block count from 4 on, and an id beyond them is fatal. |
| StreamFormat.OperandMeans | Src/BitstreamReader.cpp:585-629 | One bit marks a literal; else three bits say 1 Fixed, 2 VBR, 3 Array, 4 Char6, 5 Blob, with the width of the first two in chunks of 5; width 0 is the literal 0, a width above 64 or any other encoding fatal. |
| StreamFormat.CountsMean | Src/BitstreamReader.cpp:508-585 | A definition counts its operands in chunks of 5, a list its elements and a blob its bytes in chunks of 6; the bytes begin at the next multiple of 32. |
| StreamFormat.HeaderMeans | Src/BitstreamReader.cpp:404-448 | A block begins with its code width in chunks of 4 and, at the next multiple of 32, its length in words in 32 bits; entering saves the old width and abbreviations. |
| StreamFormat.InfoRecordMeans | Src/BitstreamReader.cpp:631-707 | Record 1 names the block that definitions are for, 2 and 3 need one named, any other says nothing. |
| StreamFormat.ChunkMeans | Src/BitstreamReader.cpp:352-402 | The highest bit of a chunk says that another follows, whose bits count from where the others of this one end. |
| StreamFormat.BitOfBytes | Src/BitstreamReader.cpp:288-309 | Bit j of byte i is stream bit 8 i + j. |
| StreamFormat.Char6Table | Include/Dilithium/BitCodes.hpp:195-219 | 0 to 25 are a to z, then A to Z, 0 to 9, the point and the underscore. |
| BitCodes.EncodeChar6 | Include/Dilithium/BitCodes.hpp:195-219 | Each of the 64 characters has the 6-bit code that decodes to it. |
| SignRotation.SignedRoundTrip | Src/BitcodeReader.cpp:741-753 | Every signed 64-bit constant, the minimum included, survives sign rotation and decoding. |
| SignRotation.DecodeIsBijective | Src/BitcodeReader.cpp:741-753 | Distinct words decode to distinct signed numbers, and encoding a decoded word gives the word back: no two encodings mean the same constant. |
| SignRotation.DecodeMeans | Src/BitcodeReader.cpp:741-753 | Word 2v means v and word 2v + 1 means -v, but word 1 means the least 64-bit number. |
| BitStreamBlocks.WalkItemsWritten | Src/BitstreamReader.cpp:225-252 | Walking the items of a written body reports just the records and nested blocks written, in order, whatever abbreviations are defined in between, and ends behind END_BLOCK. |
| BitStreamBlocks.WalkBlockWritten | Src/BitstreamReader.cpp:423-464 | Entering a written block and consuming it through END_BLOCK gives back its contents and leaves code width, abbreviations and scope depth as before, at the bit behind it. |
| BitStreamBlocks.SkipBlockWritten | Src/BitstreamReader.cpp:404-421 | Skipping a written block lands at the bit behind it if and only if its body has fewer than 2^27 words. |
| BitStreamBlocks.LongBlockMissed | Src/BitstreamReader.cpp:404-421 | The other side is met: a block of 2^29 empty records, and the stream that holds it, which the walk gets through and the skip does not. |
| BitStreamBlocks.SkipEqualsWalk | Src/BitstreamReader.cpp:404-464 | For such a block, skipping and walking end in the same state. |
| BlockInfoRoundTrip.InfoRecordsWritten | Src/BitstreamReader.cpp:631-707 | Reading the items of a written BLOCKINFO body, unabbreviated records, definitions and nested blocks of fewer than 2^27 words, adds to each block id exactly the abbreviations written for it. |
| BlockInfoRoundTrip.BlockInfoWritten | Src/BitstreamReader.cpp:631-707 | A whole such BLOCKINFO block, read into an empty table, leaves for every block id exactly the definitions written while that id was current, in order, and the reader stands behind the block. |
| BlockInfoRoundTrip.AbbreviatedFails | Src/BitstreamReader.cpp:631-707 | An abbreviated record inside BLOCKINFO is always the fatal error, since its definitions go to the table: there is none to read back. |
| StableMerge.MergePermutes | Src/Value.cpp:475-495 | Merging loses and invents nothing. |
| StableMerge.MergeOrders | Src/Value.cpp:475-495 | Merging two ordered chains, one earlier than the other, gives an ordered chain in which equal elements keep their order. |
| StableMerge.MergeStretches | Src/Value.cpp:475-495 | Stable sorts of adjacent stretches merge into the stable sort of both. |
| StableMerge.StableSortUnique | Src/Value.cpp:387-466 | There is only one stable sort of a list under a strict weak order. |
| StableMerge.EdgeSteps | Src/Value.cpp:398-443 | With c elements consumed, the stretch of slot i is empty or 2^i long, and the stretches from the highest slot down spell the first c elements. |
| StableMerge.Carry | Src/Value.cpp:418-442 | Putting one more element into the slots is a binary increment of the consumed count. |
| Uses.Value.MergeUseListsImpl | Src/Value.cpp:475-495 | The recursion relinks the two chains in place into their stable merge, left first on a tie, behind the given link. |
| Uses.Value.MergeUseLists | Src/Value.cpp:468-473 | The head returned starts the stable merge of the two chains. |
| Uses.FullSlot | Src/Value.cpp:418-442 | A slot that is not empty holds exactly 2^i uses, stably sorted. |
| Uses.SlotsBound | Src/Value.cpp:400-439 | A list of at most 2^32 uses never needs a 33rd slot. |
| Uses.Value.FindSlot | Src/Value.cpp:418-433 | Merging with the full slots from the lowest on ends at the first empty one with the stable sort of all uses from its edge to the new use; the slots passed are empty. |
| Uses.Value.PlaceUse | Src/Value.cpp:412-442 | After each use the slots hold the stable sorts of consecutive stretches of the prefix consumed. |
| Uses.Value.CollectUses | Src/Value.cpp:409-443 | All but the last use are in the slots, and as many slots are in use as the count has bits. |
| Uses.Value.MergeSlots | Src/Value.cpp:445-457 | Merging the slots from low to high with the last use gives the stable sort of the whole list. |
| Uses.Value.FixPrevPointers | Src/Value.cpp:459-465 | Every back pointer names the link that reaches its use. |
| Uses.Value.SortUseList | Src/Value.cpp:387-466 | For any comparison the list holds the same uses; under a strict weak order it is the stable sort; every link is rebuilt, no other list changes and the list invariant holds again. |
| Uses.Value.ReplaceAllUsesWith | Src/Value.cpp:317-346 | Terminates with an empty list; the new value has all the uses, the last one first, in front of its own; every use names the new value exactly if it named the old one, and no other list changes. |
| Uses.Use.AddToList | Src/Use.cpp:212-221 | The use comes first in the list, whose links and back pointers are right again. |
| Uses.Use.RemoveFromList | Src/Use.cpp:223-231 | The list is what it was without the use, in order, with its links right. |
| Uses.Use.Set | Src/Use.cpp:66-77 | The use moves from the list of its value to the front of the other; every other list is unchanged and each list holds just the uses that name its value. |
| Uses.Use.Swap | Src/Use.cpp:90-121 | The two uses exchange values and come first in the exchanged lists; when both name the same value nothing changes; the list invariant holds. |
| Waymarking.TableFollowsRule | Src/Use.cpp:129-146 | The twenty tags of the table are those of the general rule, and the rule goes on where the loop starts. |
| Waymarking.InitTags | Src/Use.cpp:127-167 | Every slot gets the tag the rule gives its distance to the end, for an array of any length. |
| Waymarking.DigitStep | Src/Use.cpp:148-164 | Reading down the digits above a stop spells, in binary, the distance from that stop to the end. |
| Waymarking.RunLength | Src/Use.cpp:148-164 | The digits above a stop are as many as the distance has bits, less one. |
| Waymarking.GetImpliedUser | Src/Use.cpp:169-210 | From any slot of a tagged array the position one past its last slot is found, looking at no more than twice the bit length of the distance plus one slots. |
| ValueHandles.NewHandle | Src/ValueHandle.cpp:44-56 | A new handle comes first in the list of the value it points at; with the invariant that a value is a key of the table if and only if its flag is set if and only if some handle points at it, and that its list holds just those handles. |
| ValueHandles.NewCopy | Src/ValueHandle.cpp:58-65 | A copy comes right before its original in the list; the table invariant holds. |
| ValueHandles.FirstInList | Src/ValueHandle.cpp:235-261 | What "first" means: the list of the value becomes the handle and then the old list, new entries included, and no other list changes. |
| ValueHandles.BeforeOriginal | Src/ValueHandle.cpp:208-220 | A copy of the handle at place p comes between the first p handles and the rest. |
| ValueHandles.OutOfList | Src/ValueHandle.cpp:263-289 | Leaving takes just that place out of the list, and the entry out of the table when it was the only one. |
| ValueHandles.Handle.AddToExistingUseList | Src/ValueHandle.cpp:208-220 | The handle joins a list at the place of the given link, and the head in the table is right. |
| ValueHandles.Handle.AddToUseList | Src/ValueHandle.cpp:235-261 | The handle comes first in the list of its value, which may be new to the table; the table invariant holds. The entries of an unordered map do not move, so resetting all heads changes no pointer. |
| ValueHandles.Handle.EraseNullHead | Src/ValueHandle.cpp:277-288 | The search for a null head erases the entry of the list just emptied and no other, and clears that value's flag. |
| ValueHandles.Handle.RemoveFromUseList | Src/ValueHandle.cpp:263-289 | The handle leaves the list of its value, in whose order nothing else changes, and the entry goes exactly with the last handle. |
| ValueHandles.Handle.Assign | Src/ValueHandle.cpp:75-90 | The handle moves from one list to the front of another, or to none; an assignment of the same value changes nothing; the invariant holds. |
| ValueHandles.Handle.CopyFrom | Src/ValueHandle.cpp:92-109 | The handle comes right before the other in the other's list; the invariant holds. |
| ValueHandles.Handle.Destroy | Src/ValueHandle.cpp:67-73 | The handle is gone from its list and from the table's reach; the invariant holds for the others. |
| HandleWalks.StartWalk | Src/ValueHandle.cpp:116-122 | The sentinel stands in front of the first handle of the value's list, which is otherwise unchanged. |
| HandleWalks.DeleteTurn | Src/ValueHandle.cpp:119-139 | One turn of the walk treats one handle: it leaves the list or stays by its kind, and the sentinel stands behind it, in front of the handles not visited. |
| HandleWalks.ValueIsDeleted | Src/ValueHandle.cpp:111-154 | Every handle is visited once although handles unlink themselves; each handle of the old list, by its kind: weak ones and callbacks are null, tracking ones hold the tombstone, asserting ones still point at the value, in order; the fatal report comes exactly if there is an asserting one. All other handles are as before. |
| HandleWalks.ReplaceTurn | Src/ValueHandle.cpp:167-185 | One turn of the walk moves one handle to the new value or leaves it, by its kind. |
| HandleWalks.ValueIsRAUWd | Src/ValueHandle.cpp:156-185 | Each handle of the old list, by its kind: weak and tracking ones point at the new value, in front of the handles it had; asserting ones and callbacks stay on the old value, in order; every other handle is as before. |
| MetadataResolution.HoldersCount | Src/Metadata.cpp:295-336 | Since each slot that holds an unresolved node is tracked once, a node is notified as often as it holds the resolved one. |
| MetadataResolution.Untrack | Src/Metadata.cpp:589-595 | Before a slot changes, the unresolved node it holds stops tracking just that slot; every unresolved node then tracks exactly the other slots that hold it. |
| MetadataResolution.Track | Src/Metadata.cpp:574-587 | After the store the new node tracks the slot: again every unresolved node tracks exactly the slots that hold it. |
| MetadataResolution.TakeReplaceableUses | Src/Metadata.cpp:824-834 | When a node gives up its tracked places, each other count is the number of unresolved operands plus the decrements now pending. |
| MetadataResolution.Resolve | Src/Metadata.cpp:824-834 | Terminates; every unresolved uniqued node again counts its unresolved operands and none is left at zero; nothing becomes unresolved; what was resolved besides the node has no unresolved operand; and no set of nodes that keep each other unresolved without the node loses a member, so the outcome is the largest such set. |
| MetadataResolution.ResolveAllUses | Src/Metadata.cpp:295-336 | The same for the loop over the tracked places, with the decrements still to come counted as pending all through the cascade; unowned places and resolved owners are passed over. |
| MetadataResolution.DecrementUnresolvedOperandCount | Src/Metadata.cpp:853-860 | A pending decrement is carried out; at zero the node resolves in turn. |
| MetadataResolution.CountUnresolvedOperands | Src/Metadata.cpp:862-867 | The count is the number of unresolved operands. |
| MetadataResolution.AmongPlaces | Src/Metadata.cpp:862-867 | An operand counts once for each slot that holds it, and resolved operands and empty slots count nothing. |
| MetadataResolution.SetOperand | Src/Metadata.cpp:724-728 | The operand is stored, the old node drops the slot and the new one tracks it, and tracked places again match the slots. |
| MetadataResolution.NewNode | Src/Metadata.cpp:656-683 | A new node starts unresolved exactly if it is temporary, or uniqued with an unresolved operand; counts and tracked places are right in the larger graph. |
| MetadataResolution.ResolveAfterOperandChange | Src/Metadata.cpp:836-851 | The count follows a changed operand, up, down or not at all, and the equation holds for every unresolved node. |
| MetadataResolution.ResolveSelfReference | Src/Metadata.cpp:786-793 | A node that comes to hold itself is resolved, whatever else it holds, and becomes distinct. |
| MetadataResolution.HandleChangedOperand | Src/Metadata.cpp:770-822 | After an operand of a node changes, counts and tracked places are right again; what was resolved has no unresolved operand unless it holds itself. |
| MetadataResolution.ReplaceAllUsesWith | Src/Metadata.cpp:241-293 | Replacing a temporary node: afterwards no slot holds it and it tracks nothing, each slot that held it holds the replacement, every other slot is as before, and counts and tracked places are right. |
| MetadataResolution.OnlyCyclesWait | Src/Metadata.cpp:824-867 | Once only uniqued nodes are unresolved and each ranks above its unresolved operands, nothing is unresolved: only cycles wait. |
| SlotNumbering.VisitOpsAdds | Src/AsmWriter.cpp:676-696 | What a walk adds is new, listed once, has all its operands listed too, and lies in every closed set that holds the start, cycles or not. |
| SlotNumbering.NumberedReachable | Src/AsmWriter.cpp:676-696 | The numbered nodes are, once each, exactly those a path of operands reaches from a root. |
| SlotNumbering.FirstNewMeans | Src/AsmWriter.cpp:688-695 | The first operand without a slot: every operand before it is no node or has one; and there is none exactly if all have. |
| SlotNumbering.VisitOpsInOrder | Src/AsmWriter.cpp:676-696 | Where every slot goes, also after a walk has come back up: to the first operand without a slot of the latest numbered node that has one, and when no node has, to the first of the operands the walk began with; and the walk ends only when nothing is left. |
| SlotNumbering.OrderUnique | Src/AsmWriter.cpp:676-696 | There is only one such order. |
| SlotNumbering.VisitDepthFirst | Src/AsmWriter.cpp:676-696 | Whenever a node gets a slot while one of its operands has none, the next slot goes to the first such operand. |
| SlotNumbering.SlotTracker.CreateMetadataSlot | Src/AsmWriter.cpp:676-696 | Terminates on any graph; the slots from the next free one on are given in the one order that VisitOpsInOrder states, begun at the node; map and counter give slot i to the i-th node of it, so slots are dense and no node has two. |
| SlotNumbering.SlotTracker.CreateSlots | Src/AsmWriter.cpp:726-736 | The same from slot 0 with the roots as the operands to begin with: when nothing found has an operand left, the next slot goes to the first root without one. |
| SlotNumbering.SlotTracker.GetMetadataSlot | Src/AsmWriter.cpp:567-575 | The slot of a numbered node, by which the order gives the node back, and -1 for any other. |
| SlotNumbering.SlotTracker.AllMDNodes | Src/AsmWriter.cpp:1685-1692 | Whatever order the map is gone through, every index of the table is filled, with the node of that slot. |
| TypeNumbering.TypeFinder.IncorporateType | Src/AsmWriter.cpp:1000-1034 | Afterwards the visited types are the least closed set that holds the type and those visited before. The new ones are dealt with in the one stack order (OrderUnique): first the type itself, then, of the types waiting, those visited last, and of these the first in the list of subtypes, duplicates going by their last place. The struct types wanted are listed in that order behind the earlier ones. |
| TypeNumbering.OrderUnique | Src/AsmWriter.cpp:1000-1034 | There is only one such order, for any type graph, cycles included, and whatever was visited before. |
| TypeNumbering.TypeFinder.WantedMeans | Src/AsmWriter.cpp:1006-1016 | The wanted types of a list are its struct types, only the named ones if asked for, in its order. |
| TypeNumbering.SplitNamed | Src/AsmWriter.cpp:1138-1170 | The types with a name that are not literals, and only they, are in front afterwards, in order; literals are dropped; exactly the unnamed others are numbered, from 0 on without a gap and in the order of the list. |
| LazyBodies.BitcodeReader.RememberAndSkipFunctionBody | Src/BitcodeReader.cpp:1002-1009 | The next waiting prototype, after the reversal at the first body, gets the offset; without one it is the error. |
| LazyBodies.BitcodeReader.ParseModule | Src/BitcodeReader.cpp:922-1023 | Whether started or resumed, the parse passes a body only while no symbol table came before it, so it stops right behind the first body after the table, with the place to resume there, or at the end with that place as it was; in the state a parse straight through has there; it fails only if that one fails. |
| LazyBodies.BitcodeReader.FindFunctionInStream | Src/BitcodeReader.cpp:2707-2722 | Resuming goes on until the body turns up and stops right behind it, and reports an error only if the module is malformed or has no body for the function. |
| LazyBodies.BitcodeReader.Materialize | Src/BitcodeReader.cpp:618-645 | Whatever was asked for before, the body is read at the offset a parse straight through finds for it, and once; nothing more is parsed when the offset is known, and else nothing past that body. |
| LazyBodies.BitcodeReader.MaterializeModule | Src/BitcodeReader.cpp:647-666 | For a complete module with the prototypes first, parsed to a place to resume or to the end, every body is read once at the offset of the straight parse, those now read in the order of the functions, and the parse ends in the state of that one. |
| LazyBodies.LoadLLVMModule | Src/BitcodeReader.cpp:2768-2778 | The whole load, wherever the symbol table stands: for every complete module with the prototypes first the bodies read are, once each and in the order of the functions, the j-th body for the j-th prototype, none is missing, and nothing stays to be materialized. |
| LazyBodies.RunStays | Src/BitcodeReader.cpp:922-1023 | An offset once found never changes as the parse goes on. |
| LazyBodies.PairedExactly | Src/BitcodeReader.cpp:1002-1023 | The j-th prototype gets the j-th body, for all j, if and only if each body has a prototype waiting and no prototype is declared between two bodies while another waits. |
| LazyBodies.FirstInTurn | Src/BitcodeReader.cpp:1002-1023 | With all prototypes before the first body, and no more bodies than prototypes, that is so. |
| LazyBodies.CompletePaired | Src/BitcodeReader.cpp:1002-1023 | A complete module with the prototypes first has as many bodies as prototypes, and each prototype is found at its own body. |
| LazyBodies.LatePrototype | Src/BitcodeReader.cpp:1209-1216 | A module in which a late prototype takes the body of an earlier one. |
| IntegerText.MPInt.constructor | Src/MPInt.cpp:80-86 | The value is cut to the width. |
| IntegerText.MPInt.ClearUnusedBits | Src/MPInt.cpp:603-610 | The value modulo 2^width. |
| IntegerText.MPInt.AddAssign | Src/MPInt.cpp:194-200 | Addition modulo 2^width, through the wrap-around of the 64-bit word. |
| IntegerText.MPInt.MultiplyAssign | Src/MPInt.cpp:210-216 | Multiplication modulo 2^width, through the wrap-around of the 64-bit word. |
| IntegerText.MPInt.ShiftLeftAssign | Src/MPInt.cpp:247-259 | The shifted value is right modulo 2^width, although bits beyond the width are not cleared yet. |
| IntegerText.MPInt.FromString | Src/MPInt.cpp:445-495 | For every text that meets the parser's own assertions, the value is the number the text stands for, negated after a minus sign, modulo 2^width. |
| IntegerText.MPInt.ToString | Src/MPInt.cpp:497-572 | The text is sign, prefix and digits of the value, unsigned or signed, and the buffer of 65 characters is never overrun. |
| IntegerText.RoundTrip | Src/MPInt.cpp:445-572 | For widths 1 to 64 and radix 2, 8, 10, 16, the text of any value, unsigned or signed, meets all the parser's assertions and parses to the same value. |
| IntegerText.TextFits | Src/MPInt.cpp:460-463 | The width assertions hold of the digits of every value that fits the width. |
| IntegerText.SExtendMeans | Include/Dilithium/MPInt.hpp:205-208 | Shifting up and down again is the two's complement reading of the value. |
| IntegerText.DigitMeans | Src/MPInt.cpp:42-77 | Which character stands for which digit: 0 to 9, and for radix 16 the letters in either case, from ten on. |
| IntegerText.TextLast | Src/MPInt.cpp:563-570 | The last digit is the remainder by the radix, with capital letters from ten on, and those before it spell the quotient. |
| IntegerText.SignsMean | Src/MPInt.cpp:445-495 | A plus sign changes nothing and a minus sign negates. |
| IntegerText.PrintedMeans | Src/MPInt.cpp:497-572 | What is printed for a value other than 0, spelled out: a minus sign if the signed reading is negative, the prefix of the radix, and the digits of the magnitude. |
| AttributeMerge.MergeIn | Src/Attributes.cpp:484-504 | Inserting an ordered set at a place that only moves on keeps the list ordered and puts, for each index, the new slots behind the old. |
| AttributeMerge.Get | Src/Attributes.cpp:471-508 | The merged set is ordered and holds, index by index, what the sets hold, earlier sets first. |
| AttributeMerge.OrderedUnique | Src/Attributes.cpp:471-508 | There is no other ordered list that does, so the result is the stable merge. |
| AttributeMerge.GetAttributes | Src/Attributes.cpp:452-469 | The lookup answers with the node of a slot of that index before which no slot has it, or none exactly if no slot has it. |
| AttributeMerge.GetThenLookUp | Src/Attributes.cpp:452-508 | A lookup in the merged set answers as the first of the sets that has the index does, and with none exactly if no set has it. |
| MathExtras.PowerOfTwoExponent | Include/Dilithium/MathExtras.hpp:187-190 | The bit test holds only of powers of two. |
| MathExtras.Pow2IsPowerOfTwo | Include/Dilithium/MathExtras.hpp:187-190 | The bit test holds of every power of two. |
| MathExtras.NextPowerOf2Least | Include/Dilithium/MathExtras.hpp:197-206 | For every 64-bit value, smearing the bits and adding one gives the least power of two above it if and only if its highest bit is clear; else the addition wraps to 0. |
| MathExtras.CountLeadingZeros | Include/Dilithium/MathExtras.hpp:53-79 | Halving the window finds the number of zeros above the highest bit, for a register of any power-of-two width. |
| MathExtras.RoundUpToAlignment | Include/Dilithium/MathExtras.hpp:208-211 | In 64-bit arithmetic the result is always a multiple of the alignment, and it is at or above the value and less than one alignment above if and only if value plus alignment is at most 2^64. |
| MathExtras.RoundUpWraps | Include/Dilithium/MathExtras.hpp:208-211 | For powers of two it is the least multiple at or above the value, modulo 2^64. |
| Layout.PointerForFinds | Src/DataLayout.cpp:252-261 | A pointer query finds the entry of its address space when there is one, else that of space 0. |
| Layout.NarrowestMeans | Src/DataLayout.cpp:460-487 | An integer without an entry of its own width takes the one of the narrowest wider integer. |
| Layout.WidestMeans | Src/DataLayout.cpp:460-493 | Without a wider one it takes the one of the widest integer. |
| Layout.Alignment | Src/DataLayout.cpp:389-438 | The recursion terminates on every type tree, and under sound tables every alignment, ABI or preferred, is a power of two. Which one it is, the rows from IntegerAlignments on say. |
| Layout.IntegerAlignments | Src/DataLayout.cpp:460-514 | An integer whose width is listed has the ABI alignment of its first entry for ABI queries and the preferred one for the others. |
| Layout.NearestAlignments | Src/DataLayout.cpp:460-514 | One not listed has those of the narrowest wider integer, or of the widest of all when none is wider. |
| Layout.FloatAlignments | Src/DataLayout.cpp:389-438 | A floating-point type whose width is listed has those of its first entry. |
| Layout.UnlistedFloat | Src/DataLayout.cpp:495-514 | One not listed has the least power of two not below its size in bytes. |
| Layout.StructAlignments | Src/DataLayout.cpp:389-438 | A struct has the larger of the aggregate entry's and its members' alignment; a packed one has ABI alignment 1. |
| Layout.PointerAlignments | Src/DataLayout.cpp:252-283 | A pointer has the alignments and the size of the entry for its space; a label those of space 0. |
| Layout.AbiAtMostPreferred | Src/DataLayout.cpp:389-438 | Under sound tables the ABI alignment of any type is at most the preferred one. |
| Layout.DefaultLayouts | Src/DataLayout.cpp:43-60 | The default tables in numbers: i64 has ABI alignment 4 and preferred 8; {i32, i64} takes 12 bytes with offsets 0 and 4; a struct of one float takes 4 bytes. |
| Layout.AllocSizeAligned | Include/Dilithium/DataLayout.hpp:151-166 | The allocation size, unbounded or in 64 bits, is the least multiple of the alignment that holds the store size: the padding never wraps. |
| Layout.SizesWrap | Src/DataLayout.cpp:285-327 | For every type, structs and arrays within each other, the 64-bit size in bits is the true one modulo 2^64: it is right if and only if the true one is below 2^64. |
| Layout.ScalarSizes | Src/DataLayout.cpp:285-327 | The sizes of integers and floating-point types in bits, as numbers. |
| Layout.ElementsSideBySide | Src/DataLayout.cpp:285-327 | The elements of an array or vector at an aligned place lie side by side, each padded to its alignment, fill it exactly and are aligned. |
| Layout.AllocExact | Include/Dilithium/DataLayout.hpp:151-166 | The 64-bit allocation size is the true one if and only if the true size in bits plus 7 is below 2^64; else it falls short by a multiple of 2^61. |
| Layout.LayoutExact | Src/DataLayout.cpp:142-172 | The 64-bit layout of a struct is the true one, offsets and all, if and only if the true struct size is below 2^64 and so are the bits of each member plus 7. |
| Layout.LayoutMeans | Src/DataLayout.cpp:142-172 | Over unbounded numbers, and in 64 bits for every struct that fits (LayoutExact): each member offset is aligned, behind the member before it and closer than its own alignment to it; the struct's alignment is a multiple of each member's and is 1 or one of them; its size is the next multiple of its alignment behind the last member. |
| Layout.MembersApart | Src/DataLayout.cpp:142-172 | Likewise: members do not overlap, in any pair, and lie inside the struct. |
| Layout.PackedTight | Src/DataLayout.cpp:142-172 | Likewise: the members of a packed struct follow each other without a gap, to its very end. |
| Layout.MembersOverlap | Src/DataLayout.cpp:142-172 | Seventeen members of 2^60 bytes each, every one of which fits: in 64 bits the last one starts where the first does. |
| Layout.LastMemberBelow | Src/DataLayout.cpp:174-185 | Likewise: the element containing an offset is the last member whose offset is at most that. |
| Layout.DataLayout.ComputeLayout | Src/DataLayout.cpp:142-172 | The loop, with the 64-bit sums of the original, computes the layout that these statements are about, rounding only what is not aligned. |
| Layout.DataLayout.GetStructLayout | Src/DataLayout.cpp:329-337 | What the table of layouts remembers is always what would be computed afresh. |
| Layout.DataLayout.TypeSizeInBitsOf | Src/DataLayout.cpp:285-327 | The size query in 64-bit arithmetic, which may fill the table of layouts, agrees with the recursive size. |
| Layout.DataLayout.AlignmentOf | Src/DataLayout.cpp:389-438 | The alignment query, which may fill the table of layouts, agrees with the recursive alignment, whose values IntegerAlignments to AbiAtMostPreferred state. |
| Layout.DataLayout.FindAlignment | Src/DataLayout.cpp:460-514 | When an entry has the kind and width, the first of them gives its ABI alignment to an ABI query and its preferred one to the other; else the search with its two best candidates agrees with narrowest wider, then widest, then natural alignment. |
| Layout.DataLayout.SetAlignment | Src/DataLayout.cpp:348-387 | Only entries with powers of two in range are let through; they replace the entry of the same kind and width or come last, and a refused one changes nothing. |
| Layout.DataLayout.SetPointerAlignment | Src/DataLayout.cpp:440-458 | The entry replaces the one of its address space or is inserted at its place. |
| Layout.SoundAlignment | Src/DataLayout.cpp:348-387 | An accepted entry keeps the tables sound: powers of two, and no ABI alignment above the preferred one. |
| Layout.SoundPointer | Src/DataLayout.cpp:440-458 | So does an accepted pointer entry: order and address space 0 are kept. |
| Layout.SpecifierSets | Src/DataLayout.cpp:516-637 | A specifier sets the bytes of the entry it names from bits, the ABI alignment first and the preferred one after it or the same, and changes no other entry. |
| Layout.DataLayout.Reset | Src/DataLayout.cpp:226-240 | For any run of specifiers: it is refused exactly if one of them is not allowed, and otherwise the tables are sound. |

## Left out

- Streams: short refills at the end of the stream, `seekg`/`tellg` failures and seeking to
  the exact end. The stream is a byte sequence whose length is a multiple of 8, the word
  has 64 bits, and claims are about reads inside it (`Outside` and `Beyond` mark the rest).
- Bit positions are unbounded: the 64-bit counter of bits is not modelled as wrapping.
- Numbers with chunk width below 2 or above 32, and numbers whose chunks go on past the
  register, are `Outside`: the original shifts out of range there.
- BitStream.BitStreamCursor.ReadBlob: a blob whose end lies past the stream is `Outside`;
  the branch that fills in zeros is not modelled.
- BitStream.BitStreamCursor.AtEndOfStream: is stated inside the stream only.
- `SkipAbbreviatedField` and `SkipRecord`: they repeat the reading without the values.
- Uses.Value.ReplaceAllUsesWith: does not model basic blocks and constant users, nor the
  notification of value handles and metadata before the loop, which the walks in
  HandleWalks and the metadata model treat on their own.
- Uses.Value.SortUseList: states nothing of lists of more than 2^32 uses, which the
  original asserts away.
- `Use::GetUser` and where the users are stored; the end of the array is the claim.
- Recursion depth: `MergeUseListsImpl`, the cascade and the numbering recurse without a
  bound on the stack.
- Callbacks of value handles: modelled by their default bodies.
- HandleWalks.ValueIsRAUWd: leaves out the debug check after the walk, which reads the
  table and changes nothing that the contract speaks of.
- MetadataResolution.HandleChangedOperand: the store of uniqued nodes is not modelled;
  `unique` says whether uniquing leaves the node in place, and the case in which an
  unresolved node collides with another one, is replaced by it and deleted, is not covered.
- MetadataResolution.ReplaceAllUsesWith: each uniqued holder is taken to stay unique, and
  the tracked references are those of operand slots; references from outside nodes and
  `MetadataAsValue` owners take no part in resolution.
- The map of tracked references is a list in the order of their index, which is the order
  in which the original sorts it.
- `DropAllReferences`, deletion of nodes, and values as metadata.
- SlotNumbering: function-local slots and attribute slots, which are plain counters; slot
  numbers are unbounded.
- TypeNumbering: the walk over functions and constants that feeds types in; name and
  kind of a type do not change while types are collected.
- LazyBodies: what is read inside a body, a symbol table or any other block; metadata
  read lazily; functions materialized on account of forward block addresses.
- LazyBodies.BitcodeReader.MaterializeModule: is stated for complete modules with the
  prototypes first and for one call, as the owner of the reader makes it: a second call would
  parse the tail of the module again.
- LazyBodies.BitcodeReader.AtEndOfStream: takes the stream to end with the module block. With
  bytes behind it the original resumes once more at the old place, with the code width of the
  outer level.
- LazyBodies.BitcodeReader.RememberAndSkipFunctionBody: the skip of the block and its error
  belong to the stream and are left out.
- LazyBodies.BitcodeReader.FindFunctionInStream: is stated where there is a place to resume
  or the cursor stands at the end; a module parsed straight through that lacks a promised
  body would be resumed at bit 0.
- LazyBodies.BitcodeReader.Materialize: the same.
- IntegerText.MPInt.ToString: does not cover the least signed value of 64 bits, whose
  negation overflows in the original; `RoundTrip` covers its text too.
- Division, signed shifts, sign extension and `Splat` of `MPInt`; floating-point text.
- AttributeMerge: the hash that makes sets unique is taken as injective, and building
  sets from single attributes is not modelled.
- Layout: type trees are finite; `X86Mmx` has no alignment of its own in the original's switch
  and is not a type of the model.
- Layout.DataLayout.Reset: the tokens of a description string come as a list of specifiers
  with 32-bit numbers; splitting the text, and what the specifiers `m`, `n` and `S` refuse,
  is left out.
- The vector branch of `AlignmentInfo`, which no caller reaches.
- Printing, DXIL tables, error categories, ownership and destructors.
