# Verification of ForkRedis

This project models, in Dafny, the parts of ForkRedis whose correctness is not visible from any one
function, and proves what they promise. The files follow the system's own components.

**Compression** (`third/lzfse`, called by RDB persistence through `src/util.cc`). `LzvnFormat`,
`LzvnDecoder`, `LzvnEncoder` and `LzvnSearch` are the LZVN opcode machine, its resumable decoder with
wide copies, the opcode emitter and the match search. `BitStream`, `BitSchedule`, `FseTables`, `Fse`, `Lmd`,
`FseNormalize` and `FreqCode` are the finite state entropy coder: the bit stream read backwards, the
tables, interleaved streams, value streams, frequency normalisation and the packed tables.
`LzfseBlock`, `LzfseHeader`, `LzfsePayload`, `LzfseCodec`, `LzfseFrontEnd` and `LzfseDecoder` are the
LZFSE blocks as triples and as bytes, the encoder with its block state and rollback, and the resumable
executor. `Container` says what a stream of blocks stands for, and `Compression` walks the blocks and
closes the circle: for every non-empty string shorter than 2^31 - 1 bytes, `Decompress(Compress(s)) == s`,
through LZVN, LZFSE or a raw block. Encoding succeeds whenever a stated room is there, and a source of one
repeated byte shrinks to a stated size.

**Allocator back end** (`third/snmalloc`). `RedBlackTree`, `RedBlackStore` and `RedBlack` are the
in-place red-black tree: trees and contexts as values, the store of child words and colours, and the
pointer-writing algorithms proved against the values. `BuddyBlocks` and `Buddy` are the buddy allocator
on top of those trees, `Range` the splitting into power-of-two blocks and the consolidating range.
`RemoteQueue` is the multi-producer queue of remote frees as a state machine over atomic steps.

**Persistence and indexes** (the repository's own code). `Strings` is the string object,
`SortedSet` the sorted set with its three indexes and `RankOrder` the order of its score index, `RdbText`,
`Reload` and `Rdb` are the dump format, `JsonText` and `Json` the JSON strings, values and printer,
`JsonGrammar` the texts of RFC 8259 as trees and `JsonParser` the parser, with `Decimal` and `TextOrder`
shared between them.

Most operations are methods over classes, arrays and loops, as in the sources, and each is proved
against a specification on values: `Expand` for LZVN streams, `Replay` for LZFSE triples, `Stands` for
containers, `Rep` for red-black stores, `Free` for the buddy allocator, `scores` for the sorted set,
`Dump` and `ValueOf` for JSON. The properties are then proved of those specifications.

Conventions: `Text` is a byte string. A ghost parameter names what a reader is expected to find; it
does not influence the result. Sizes of buddy blocks are given by their level, the logarithm of the
number of chunks. `Pow2`, `Quot` and `Rem` in `Powers` stand for shifts and masks.

Where the code and its comments differ, the code is followed. `can_dequeue` returns true when there is
nothing to dequeue; `RemoteQueue` models the check as `has_messages` uses it. The comment in `add_block`
speaks of re-traversing from the root; the code continues from the buddy, and `Buddy.Gap` shows that
this finds the same place.

Properties that are false of the code are kept with their exact condition and an input.

- The comments of the output bit stream allow 64 bits in the accumulator, but a flush then shifts a 64-bit
  word by 64. A stream keeps its bits, whatever that shift gives, exactly when no step finds the
  accumulator full, a last flush excepted (`BitSchedule.KeptUnlessFull`, `BitSchedule.FullFlush`). The
  coders stay below: `Fse.EncodeFour` flushes at most 47 bits and `Lmd.EncodeTriple` fewer than 64.
- A string marked as an integer is saved as that integer. It comes back unchanged exactly when it is marked
  raw, and not empty under compression, or is the canonical text of an `int`
  (`RdbText.SaveAndLoad`, with `RdbText.LeadingZeros`, `RdbText.TooLarge` and `RdbText.MinusAppended`). Two
  keys can become one that way (`Reload.KeysCollide`). A dump as a whole comes back exactly when all its
  strings do and its sorted sets are as below (`Rdb.RoundTrip`).
- A reloaded sorted set lists members of equal score in the order of its list. That is the order it had
  exactly when no increment brought them out of it (`Rdb.SaveAndLoadZSet`, `Rdb.IncrementedThenLoaded`).
- A JSON value without doubles survives dumping and parsing exactly when it is not nested more than 200
  deep and its keys are in order (`JsonParser.RoundTrip`, `JsonParser.TooDeep`). Long integers come back as doubles that
  equal them (`JsonParser.TenDigits`).
- A buddy pair whose upper half starts a separately obtained range is never merged, so completeness of
  `remove_block` is about blocks within one range (`Buddy.BuddyAllocator.RemoveBlock`, `Range.NotMerged`).

The check in front of `dequeue` is always made by the code. `RemoteQueue.GuardNeeded` says when it is
needed: exactly while `front` is the stub.

`Decompress` ends on what `Compress` wrote. `Compression.DecompressFor` shows
kinds of other data on which it never ends, and kinds on which it ends at once.

## Model

| member | source | states |
|---|---|---|
| `LzvnFormat.CopyMatchRepeats` | third/lzfse/src/lzvn_decode_base.c:433-476 | every byte an overlapping match copy writes equals the byte `D` places before it |
| `LzvnFormat.CopyMatchUnique` | third/lzfse/src/lzvn_decode_base.c:433-476 | that property and the length determine the copy, so any way of copying that has it is the byte-by-byte one |
| `LzvnFormat.CopyMatchSplit` | third/lzfse/src/lzvn_decode_base.c:433-476 | a match may be interrupted and continued anywhere |
| `LzvnFormat.ExecuteSplitLiteral` | third/lzfse/src/lzvn_decode_base.c:583-624 | an instruction interrupted inside its literal means the same as the rest of it run later |
| `LzvnFormat.ExecuteLiteralThenMatch` | third/lzfse/src/lzvn_decode_base.c:387-476 | literal-and-match instructions are their literal followed by their match |
| `LzvnFormat.ExecuteSplitMatch` | third/lzfse/src/lzvn_decode_base.c:433-476 | an instruction interrupted inside its match means the same as the rest of it run later |
| `LzvnFormat.EndMarkerStops` | third/lzfse/src/lzvn_decode_base.c:649-663 | the eight-byte marker ends the expansion with what was produced so far |
| `LzvnDecoder.Decoder.CopyLiteral` | third/lzfse/src/lzvn_decode_base.c:583-624 | the wide 8- and 4-byte literal copies agree with the plain copy on the bytes that count and write nothing past the destination |
| `LzvnDecoder.Decoder.CopyMatchBytes` | third/lzfse/src/lzvn_decode_base.c:433-476 | the wide match copy agrees with the byte-by-byte overlapping copy and writes nothing past the destination |
| `LzvnDecoder.Decoder.Perform` | third/lzfse/src/lzvn_decode_base.c:387-476 | one instruction is carried out or its remainder saved, and the output the state stands for does not change |
| `LzvnDecoder.Decoder.Instruction` | third/lzfse/src/lzvn_decode_base.c:113-385 | reading an opcode and carrying it out keeps the output the state stands for |
| `LzvnDecoder.Decoder.FinishPending` | third/lzfse/src/lzvn_decode_base.c:96-108 | resuming from the saved L, M, D keeps the output the state stands for |
| `LzvnDecoder.Decoder.Decode` | third/lzfse/src/lzvn_decode_base.c:47-711 | a call never changes the output a state stands for; it stops short only when the destination is full; a malformed stream never reaches the end marker |
| `LzvnDecoder.DecodeInPieces` | third/lzfse/src/lzvn_decode_base.c:47-711 | decoding with the destination cut at arbitrary points joins into the one expansion of the stream, and reaches its end exactly when the last cut is not 0 and leaves room for the whole output |
| `LzvnEncoder.OpcodeParses` | third/lzfse/src/lzvn_encode_base.c:62-182 | an emitted opcode is recognised by the decoder whatever follows its literal |
| `LzvnEncoder.ExecuteReproduces` | third/lzfse/src/lzvn_encode_base.c:95-182 | an instruction whose match is a true repetition reproduces the next source bytes |
| `LzvnEncoder.LiteralOpcodeCorrect` | third/lzfse/src/lzvn_encode_base.c:62-90 | literal opcodes decode to their own length |
| `LzvnEncoder.MatchOpcodeCorrect` | third/lzfse/src/lzvn_encode_base.c:161-177 | match opcodes decode to their own length at the previous distance |
| `LzvnEncoder.PreviousOpcodeCorrect` | third/lzfse/src/lzvn_encode_base.c:129-136 | the opcode that repeats the distance decodes to the literal, match and distance it was built from |
| `LzvnEncoder.ShortOpcodeCorrect` | third/lzfse/src/lzvn_encode_base.c:137-142 | the two-byte-distance opcode decodes to what it was built from |
| `LzvnEncoder.MediumOpcodeCorrect` | third/lzfse/src/lzvn_encode_base.c:150-159 | the 14-bit-distance opcode decodes to what it was built from |
| `LzvnEncoder.LongOpcodeCorrect` | third/lzfse/src/lzvn_encode_base.c:143-149 | the 16-bit-distance opcode decodes to what it was built from |
| `LzvnEncoder.HeadOpcodeCorrect` | third/lzfse/src/lzvn_encode_base.c:117-159 | the opcode chosen for the head of a match decodes to its L, M and D |
| `LzvnEncoder.EmitLiteral` | third/lzfse/src/lzvn_encode_base.c:62-90 | what was emitted stands for the source up to the end of the literal, and its size is that of the literal with its opcodes; nothing was emitted only when fewer than ten bytes would be left |
| `LzvnEncoder.LiteralSizeBound` | third/lzfse/src/lzvn_encode_base.c:62-90 | literals with their opcodes take at most five quarters of their number, and three quarters of a byte more for one, two or three of them |
| `LzvnEncoder.Emit` | third/lzfse/src/lzvn_encode_base.c:95-182 | what was emitted stands for the source up to the end of the match and is at most five quarters of it; after at most three literals it is nine bytes and two for every 271 of the match; it fails only when room for five quarters and eleven bytes is missing |
| `LzvnSearch.MatchingBytesAgree` | third/lzfse/src/lzvn_encode_base.c:203-215 | words that agree in `n` low bytes come from `n` equal source bytes |
| `LzvnSearch.FindMatchN` | third/lzfse/src/lzvn_encode_base.c:266-303 | a match is found exactly when three bytes agree within the distance limit, and then it is the longest one both ways, not back before the pending literal, with the bytes it saves |
| `LzvnSearch.FindMatch` | third/lzfse/src/lzvn_encode_base.c:226-262 | the same at any earlier position |
| `LzvnSearch.BestMatch` | third/lzfse/src/lzvn_encode_base.c:411-475 | the match comes from one of the four entries or the previous distance, and saves at least as much as the longest match of every one that hits; there is none only when nothing hits |
| `LzvnSearch.InitTable` | third/lzfse/src/lzvn_encode_base.c:368-381 | every entry of the fresh table is true of the source |
| `LzvnSearch.State.constructor` | third/lzfse/src/lzvn_encode_base.c:536-575 | nothing is emitted yet and the state invariant holds |
| `LzvnSearch.State.EmitMatch` | third/lzfse/src/lzvn_encode_base.c:310-329 | the emitted bytes stand for the source up to the match end, within the size bound; a full destination leaves the state as it was, and with enough room it is not full |
| `LzvnSearch.State.EmitLiterals` | third/lzfse/src/lzvn_encode_base.c:334-349 | the same for literals |
| `LzvnSearch.State.Resolve` | third/lzfse/src/lzvn_encode_base.c:477-518 | of an overlapping pending and incoming match the one that saves more is emitted, an earlier pending one before the incoming is kept, and a long backlog is emitted; with room enough this never fails |
| `LzvnSearch.State.Push` | third/lzfse/src/lzvn_encode_base.c:393-405 | the new hash line is true of the source |
| `LzvnSearch.State.Encode` | third/lzfse/src/lzvn_encode_base.c:383-529 | the invariant (emitted bytes and their size, table, pending match) holds at every step; in a source of one repeated byte the match is found at the second position and emitted at the third |
| `LzvnSearch.EncodePartial` | third/lzfse/src/lzvn_encode_base.c:536-582 | the stream written expands to exactly the bytes reported as used and is at most five quarters of them and nine bytes; 0 exactly below the minimum destination; the whole source is used when five quarters of it and nineteen bytes fit |
| `LzvnSearch.EncodeBuffer` | third/lzfse/src/lzvn_encode_base.c:584-593 | a non-zero result expands to the whole source and ends at its marker; it succeeds whenever five quarters of the source and nineteen bytes fit; a source of one repeated byte takes 26 bytes and two for every 271 |
| `LzvnSearch.ConstantBest` | third/lzfse/src/lzvn_encode_base.c:411-475 | in a source of one repeated byte the match found covers all but the last bytes |
| `Compression.LzvnRoundTrip` | third/lzfse/src/lzvn_encode_base.c:584-593 | for every source and capacity, an encoded source is decoded to its last byte and the end of the stream is reached; encoding succeeds whenever five quarters of the source and nineteen bytes fit |
| `BitStream.PopPush` | third/lzfse/src/lzfse_fse.h:262-269 | the bit stream is last in, first out |
| `BitStream.OutStream.Push` | third/lzfse/src/lzfse_fse.h:262-269 | pushing adds the bits on top of all bits written so far; asks for the 64 bits the comment asks for and for a defined shift |
| `BitStream.OutStream.Flush` | third/lzfse/src/lzfse_fse.h:181-195 | flushing an accumulator that is not full changes no bit of the stream and leaves at most 7 bits behind |
| `BitStream.OutStream.Finish` | third/lzfse/src/lzfse_fse.h:223-236 | the bytes written are exactly the bits pushed, with -7 to 0 padding bits |
| `BitStream.InStream.Init` | third/lzfse/src/lzfse_fse.h:300-325 | the reader accepts exactly the streams with enough bytes and zero padding, and then sees all their bits |
| `BitStream.InStream.Flush` | third/lzfse/src/lzfse_fse.h:361-378 | refilling changes no bit to be read, holds at least 56 bits, and fails exactly when bytes run out |
| `BitStream.InStream.Pull` | third/lzfse/src/lzfse_fse.h:407-413 | pulling takes the top bits and no others |
| `BitStream.FieldsRoundTrip` | third/lzfse/src/lzfse_fse.h:181-413 | fields of up to 56 bits, flushed anywhere and before the accumulator would be full, are read back in reverse order |
| `BitSchedule.KeptUnlessFull` | third/lzfse/src/lzfse_fse.h:181-269 | for every schedule of pushes and flushes the comments allow: all bits come out as they went in, whatever an undefined shift gives, exactly when no step finds 64 bits in the accumulator, a last flush excepted |
| `BitSchedule.SpillSeen` | third/lzfse/src/lzfse_fse.h:181-195 | a flush keeps the bits within the count even when the accumulator holds others above it |
| `BitSchedule.FullFlush` | third/lzfse/src/lzfse_fse.h:181-269 | 32 bits, 32 bits, a flush and any further bits: allowed by the comments, and not kept |
| `FseTables.ShiftCorrect` | third/lzfse/src/lzfse_fse.c:40-41 | the shift brings a frequency up to the number of states and not to twice that |
| `FseTables.ClzAt` | third/lzfse/src/lzfse_fse.c:173-173 | the leading zeros of a 32-bit word are given by its highest bit |
| `FseTables.ShiftIsClz` | third/lzfse/src/lzfse_fse.c:35-41 | the shift is the difference of the two counts of leading zeros |
| `FseTables.StepInverts` | third/lzfse/src/lzfse_fse.c:31-55 | one encoding step lands in the symbol's states and its decoder entry leads back to the old state and bits, in both ranges of states |
| `FseTables.EntryInRange` | third/lzfse/src/lzfse_fse.c:57-107 | every decoder entry with any bits leads to a state of the table |
| `Fse.InitEncoderTable` | third/lzfse/src/lzfse_fse.c:31-55 | the encoder table holds, for each occurring symbol, the entry that the inversion is proved for |
| `Fse.InitDecoderTable` | third/lzfse/src/lzfse_fse.c:57-107 | the decoder table does the same for each state, and is refused exactly when the frequencies overfill it |
| `Fse.DecodeSymbol` | third/lzfse/src/lzfse_fse.h:495-531 | decoding undoes encoding: symbol, state and stream all come back |
| `Fse.Encode` | third/lzfse/src/lzfse_fse.h:495-515 | pushes the low bits of the state and moves to the symbol's state, as specified |
| `Fse.Decode` | third/lzfse/src/lzfse_fse.h:522-531 | returns the entry's symbol, pulls its bits and stays inside the table, on any stream |
| `Fse.ItemInverts` | third/lzfse/src/lzfse_fse.h:495-549 | a symbol with extra raw bits, on any of several interleaved coders, is undone by its table entry |
| `Fse.EncodeLiterals` | third/lzfse/src/lzfse_encode_base.c:269-308 | the four interleaved literal streams, coded last to first; succeeds with enough room, and stays inside it |
| `Fse.DecodeLiterals` | third/lzfse/src/lzfse_decode_base.c:440-484 | the payload of a literal sequence gives the sequence back and all four states return to 0 |
| `Fse.LiteralsRoundTrip` | third/lzfse/src/lzfse_encode_base.c:269-308 | every literal sequence whose symbols occur in a normalised table survives table construction, coding and decoding |
| `Lmd.Contiguous` | third/lzfse/src/lzfse_internal.h:588-614 | the value intervals of consecutive symbols follow each other without gaps, for L, M and D |
| `Lmd.SplitValue` | third/lzfse/src/lzfse_internal.h:588-614 | every value up to the maximum is its symbol's base plus extra bits that fit |
| `Lmd.TableFinds` | third/lzfse/src/lzfse_encode_tables.h:29-216 | the three lookup tables, with the index arithmetic for distances, give the symbol whose interval holds the value |
| `Lmd.InitValueDecoderTable` | third/lzfse/src/lzfse_fse.c:109-147 | each entry carries the symbol's base value and the joint number of state and value bits |
| `Lmd.DecodeValue` | third/lzfse/src/lzfse_fse.h:539-549 | one pull gives the value and the next state |
| `Lmd.EncodeTriples` | third/lzfse/src/lzfse_encode_base.c:309-380 | padding and the L, M, D streams, coded last to first, within the room given |
| `Lmd.DecodeTriples` | third/lzfse/src/lzfse_decode_base.c:190-215 | the payload of a sequence of triples gives the sequence back and all three states return to 0 |
| `Lmd.TriplesRoundTrip` | third/lzfse/src/lzfse_encode_base.c:309-380 | every sequence of in-range triples whose symbols occur survives table construction, coding and decoding |
| `FseNormalize.StepProduct` | third/lzfse/src/lzfse_fse.c:170-190 | no 32-bit product of a count and the step overflows |
| `FseNormalize.ScaledRounds` | third/lzfse/src/lzfse_fse.c:170-195 | a scaled frequency is the nearest whole part of the states to its count, or one |
| `FseNormalize.StepIs` | third/lzfse/src/lzfse_fse.c:170-180 | the step is the largest whole number whose product with the total stays in range |
| `FseNormalize.ScaleAll` | third/lzfse/src/lzfse_fse.c:176-200 | every frequency is the rounded one, and the first of the largest and what is left are found |
| `FseNormalize.AdjustFreqs` | third/lzfse/src/lzfse_fse.c:150-165 | every pass takes from each frequency its share, the part of what is above one that the shift leaves, until the overrun is gone; no occurring symbol is taken to zero, and the shift never goes below 0 |
| `FseNormalize.Normalize` | third/lzfse/src/lzfse_fse.c:167-216 | each frequency is its count times the step, rounded to the nearest part of the states and at least one; the first of the largest takes the difference unless it would lose a quarter, and then the passes take it away; the result sums to the number of states and a symbol has states exactly when it occurred |
| `FreqCode.DecodeEncode` | third/lzfse/src/lzfse_encode_base.c:69-108 | the frequency code is a prefix code: decoding returns value and width whatever bits follow |
| `FreqCode.EncodeTable` | third/lzfse/src/lzfse_encode_base.c:114-154 | the bytes are the codes one after the other, padded by fewer than 8 bits |
| `FreqCode.DecodeTable` | third/lzfse/src/lzfse_decode_base.c:105-144 | a packed table is read back exactly and the end check passes |
| `FreqCode.TableRoundTrip` | third/lzfse/src/lzfse_encode_base.c:114-154 | every table of values up to 1047 survives packing |
| `FreqCode.PackedSize` | third/lzfse/src/lzfse_encode_base.c:114-154 | the packed tables of a block never outgrow the header structure |
| `LzfseHeader.GetPacked` | third/lzfse/src/lzfse_encode_base.c:36-40 | a field set in a word is the field read from it, whatever the other fields |
| `LzfseHeader.HeaderBack` | third/lzfse/src/lzfse_encode_base.c:45-65 | all fields of the V2 header come back from its bytes |
| `LzfsePayload.LiteralsAnywhere` | third/lzfse/src/lzfse_encode_base.c:269-308 | a literal payload means the same after any bytes, so the header may be filled in later |
| `LzfsePayload.LmdAnywhere` | third/lzfse/src/lzfse_encode_base.c:309-380 | the same for the L, M, D payload |
| `LzfseCodec.Frequencies` | third/lzfse/src/lzfse_encode_base.c:214-253 | every symbol of a block gets states in its normalised table, every frequency fits the packed code, and the table is the normalised one for the numbers of occurrences |
| `LzfseCodec.CountSymbols` | third/lzfse/src/lzfse_encode_base.c:208-242 | the table holds how often each symbol occurs |
| `LzfseCodec.LookUp` | third/lzfse/src/lzfse_encode_base.c:217-228 | the symbols counted are those of the intervals the values lie in |
| `LzfseCodec.ChooseTables` | third/lzfse/src/lzfse_encode_base.c:208-253 | the tables chosen are the normalised ones for the occurrences in the block, and can code every triple and literal of it |
| `LzfseCodec.EncodeBlock` | third/lzfse/src/lzfse_encode_base.c:171-416 | the bytes written are a V2 block for the triples and literals with the tables for its occurrences, inside the room left; it succeeds whenever there is room for the full header, two bytes a literal, eight a triple and 25 more |
| `LzfseCodec.HeaderChecks` | third/lzfse/src/lzfse_internal.h:511-567 | a written header passes every sanity check of the decoder |
| `LzfseCodec.DecodeBlock` | third/lzfse/src/lzfse_decode_base.c:376-510 | a V2 block in any source gives back its triples and literals and ends exactly at its last byte |
| `LzfseCodec.V2Magic` | third/lzfse/src/lzfse_decode_base.c:376-391 | a written block starts with the V2 magic and its fixed part |
| `LzfseBlock.ExecuteTrue` | third/lzfse/src/lzfse_decode_base.c:217-243 | a triple that is true of the source reproduces it |
| `LzfseBlock.DescribesAppend` | third/lzfse/src/lzfse_encode_base.c:425-464 | appending a true triple extends what the stored triples and literals describe |
| `LzfseBlock.DescribesReplay` | third/lzfse/src/lzfse_decode_base.c:156-330 | triples and literals that describe a piece of the source replay to it, whatever padding follows |
| `LzfseBlock.ReplayDelta` | third/lzfse/src/lzfse_encode_base.c:198-206 | writing a repeated distance as 0 does not change what a block replays to |
| `LzfseBlock.RewriteDistances` | third/lzfse/src/lzfse_encode_base.c:198-206 | the in-place loop writes 0 exactly where the distance equals the one before |
| `LzfseBlock.RevertDistances` | third/lzfse/src/lzfse_encode_base.c:395-407 | the revert loop restores every distance |
| `LzfseFrontEnd.CopyLiterals` | third/lzfse/src/lzfse_encode_base.c:440-458 | the 16-byte copies deliver exactly the literals |
| `LzfseFrontEnd.Encoder.PushLmd` | third/lzfse/src/lzfse_encode_base.c:425-464 | accepted exactly within the block limits; the stored triples then describe the source up to the new position; refused without any change |
| `LzfseFrontEnd.Encoder.SplitLiterals` | third/lzfse/src/lzfse_encode_base.c:483-489 | splitting an over-long literal keeps the description and uses the predicted number of triples |
| `LzfseFrontEnd.Encoder.SplitMatch` | third/lzfse/src/lzfse_encode_base.c:492-499 | splitting an over-long match keeps the description and uses the predicted number of triples |
| `LzfseFrontEnd.Encoder.PushMatch` | third/lzfse/src/lzfse_encode_base.c:470-523 | refused exactly when its triples or literals do not fit, and then nothing is left of it |
| `LzfseFrontEnd.FitsEmpty` | third/lzfse/src/lzfse_encode_base.c:530-542 | whatever the search produces fits an empty block state, so the second push after a block was written cannot fail |
| `LzfseFrontEnd.Crowded` | third/lzfse/src/lzfse_encode_base.c:530-542 | a block that is written because the next match does not fit holds enough to pay for its header |
| `LzfseFrontEnd.StepCost` | third/lzfse/src/lzfse_encode_base.c:643-806 | every position of the search costs at most twelve bytes for each byte it covers |
| `LzfseFrontEnd.SteadyStep` | third/lzfse/src/lzfse_encode_base.c:643-806 | in a source of one repeated byte there is a match for all that is left, or of full length, whenever the last one ends |
| `LzfseFrontEnd.Encoder.EncodeMatches` | third/lzfse/src/lzfse_encode_base.c:171-416 | the block is written, within its size bound, and the state emptied, or every count, literal and distance is as before; it is written whenever that bound and 15 bytes fit |
| `LzfseFrontEnd.Encoder.BackendMatch` | third/lzfse/src/lzfse_encode_base.c:530-542 | the match is added, at most at its own cost, a block written on the way included; it fails only when the destination is full |
| `LzfseFrontEnd.Encoder.BackendLiterals` | third/lzfse/src/lzfse_encode_base.c:549-557 | the same for literals |
| `LzfseFrontEnd.MatchLength` | third/lzfse/src/lzfse_encode_base.c:688-704 | the length found by 8-byte comparison is that of the longest repetition, up to the last eight bytes of the source |
| `LzfseFrontEnd.Incoming` | third/lzfse/src/lzfse_encode_base.c:677-754 | a match is found exactly when one of the four entries has the same word within the distance limit; it goes at least as far as the longest of them, cut at the limit, and as far back as the bytes agree |
| `LzfseFrontEnd.ExpandBack` | third/lzfse/src/lzfse_encode_base.c:747-754 | the backward extension goes as far back as the bytes agree, and not past the pending literal |
| `LzfseFrontEnd.Encoder.constructor` | third/lzfse/src/lzfse_encode_base.c:590-604 | the fresh history is invalid everywhere and nothing is described |
| `LzfseFrontEnd.Encoder.Resolve` | third/lzfse/src/lzfse_encode_base.c:711-796 | a match of 40 bytes is emitted at once, of two that overlap the longer one, and a pending one when a later one comes or the backlog is long; the state invariant and the bound on the backlog are kept |
| `LzfseFrontEnd.Encoder.Advance` | third/lzfse/src/lzfse_encode_base.c:657-671 | the new history line is true of the source |
| `LzfseFrontEnd.Encoder.EncodeBase` | third/lzfse/src/lzfse_encode_base.c:643-806 | the invariant and the bound on the cost hold at every position; it fails only when the destination is full, and not with room for twelve times the source and 783 bytes |
| `LzfseFrontEnd.Encoder.EncodeFinish` | third/lzfse/src/lzfse_encode_base.c:808-830 | on success the bytes written stand for the whole source; it succeeds whenever the cost so far and that of the rest fit |
| `LzfseFrontEnd.EncodeLzfse` | third/lzfse/src/lzfse_encode.c:70-121 | the LZFSE path as a whole: its output stands for the source; it succeeds with room for twelve times the source and 783 bytes, and for a source of one repeated byte it takes and needs about two kilobytes and 912 bytes for every 235900 |
| `LzfseDecoder.CopyLiteralWide` | third/lzfse/src/lzfse_decode_base.c:147-154 | the wide literal copy agrees with the plain one and stays inside its margin |
| `LzfseDecoder.CopyMatchWide` | third/lzfse/src/lzfse_decode_base.c:147-154 | the wide match copy, used for distance at least 8 or at least the length, agrees with the overlapping byte copy |
| `LzfseDecoder.LmdDecoder.ExecuteFast` | third/lzfse/src/lzfse_decode_base.c:224-243 | the fast path executes the triple |
| `LzfseDecoder.LmdDecoder.ExecuteLiteral` | third/lzfse/src/lzfse_decode_base.c:245-274 | a literal that does not fit is cut so that the saved state stands for the same output |
| `LzfseDecoder.LmdDecoder.ExecuteCopy` | third/lzfse/src/lzfse_decode_base.c:275-316 | a match that does not fit is cut so that the saved state stands for the same output |
| `LzfseDecoder.LmdDecoder.Decode` | third/lzfse/src/lzfse_decode_base.c:156-330 | finished, interrupted and rejected are exactly: the output the state stands for, the same output still to come, and no output |
| `LzfseDecoder.DecodeInPieces` | third/lzfse/src/lzfse_decode_base.c:156-330 | the result does not depend on where the destination ended in earlier calls |
| `Container.StandsExtends` | third/lzfse/src/lzfse_decode_base.c:332-620 | decoding only ever adds to the output |
| `Container.LeadsV2` | third/lzfse/src/lzfse_encode_base.c:383-393 | a written block extends what the stream so far leads to |
| `Compression.DecodeLzvnBlock` | third/lzfse/src/lzfse_decode_base.c:571-620 | an LZVN block yields exactly its raw bytes, or the destination is too short |
| `Compression.DecodeRawBlock` | third/lzfse/src/lzfse_decode_base.c:518-551 | a raw block is copied exactly when source and destination suffice |
| `Compression.DecodeV2Block` | third/lzfse/src/lzfse_decode_base.c:553-569 | a V2 block is executed, or the destination is too short for its output |
| `Compression.DecodeBlock` | third/lzfse/src/lzfse_decode_base.c:332-620 | one block brings the decoder to a state that stands for the same data |
| `Compression.Decode` | third/lzfse/src/lzfse_decode_base.c:332-620 | a stream that stands for data is decoded to it, or the destination is reported full exactly when it is too short |
| `Compression.DecodeBuffer` | third/lzfse/src/lzfse_decode.c:29-50 | the number of bytes, or the capacity when it was too small |
| `Compression.EncodeBuffer` | third/lzfse/src/lzfse_encode.c:33-141 | a non-zero result stands for the source; below 8 bytes it is the raw block, below 4096 the raw block or an LZVN block; 12 spare bytes suffice below 2^31-1 source bytes; a source of one repeated byte takes 42 bytes and two for every 271 in LZVN, and about two kilobytes and 912 for every 235900 in LZFSE |
| `Compression.MagicsAre` | third/lzfse/src/lzfse_internal.h:277-281 | the block magics are `bvx$`, `bvx-`, `bvxn` and `bvx2` |
| `Compression.Compress` | src/util.cc:60-83 | the growth loop ends within thirteen rounds with a stream that stands for the data; one repeated byte from 4096 bytes on is compressed in the first round |
| `Compression.Decompress` | src/util.cc:85-103 | the loop ends and returns the data |
| `Compression.DecompressFor` | src/util.cc:85-103 | any number of rounds on any data: empty data and a block that starts with an undefined opcode never end the loop, data without a block ends it at once with nothing, and data that stands for something ends it with that |
| `Compression.RoundTrip` | src/util.cc:60-103 | every non-empty string survives compression and decompression |
| `RedBlackTree.PathFits` | third/snmalloc/src/snmalloc/ds_core/redblacktree.h:271-343 | the height is at most 2 log2(n + 1), so the 128-slot path never overflows below 2^63 keys |
| `RedBlackTree.SizeBound` | third/snmalloc/src/snmalloc/ds_core/redblacktree.h:194-242 | a tree of black depth b has at least 2^b - 1 keys |
| `RedBlackTree.PlugBalanced` | third/snmalloc/src/snmalloc/ds_core/redblacktree.h:194-242 | a balanced subtree in a balanced context gives a balanced tree with a black root |
| `RedBlackStore.ContextFrame` | third/snmalloc/src/snmalloc/ds_core/redblacktree.h:271-319 | writes inside a hole's key interval leave the rest of the path alone |
| `RedBlackStore.Replaced` | third/snmalloc/src/snmalloc/ds_core/redblacktree.h:128-136 | a rewritten subtree linked into its slot is held in its unchanged context |
| `RedBlack.RBTree.constructor` | third/snmalloc/src/snmalloc/ds_core/redblacktree.h:420-420 | the empty tree is valid |
| `RedBlack.RBTree.Find` | third/snmalloc/src/snmalloc/ds_core/redblacktree.h:462-477 | finds a key exactly when it is present; otherwise the path ends at the null link where it belongs |
| `RedBlack.RBTree.InsertPath` | third/snmalloc/src/snmalloc/ds_core/redblacktree.h:645-731 | adds exactly the new key and restores order, colours and black depth without looking at the uncle |
| `RedBlack.SameDirection` | third/snmalloc/src/snmalloc/ds_core/redblacktree.h:671-693 | the pointer writes of the straight double-red case perform the rotation |
| `RedBlack.OppositeDirection` | third/snmalloc/src/snmalloc/ds_core/redblacktree.h:694-722 | the pointer writes of the bent double-red case perform the rotation |
| `RedBlack.InsertBalance` | third/snmalloc/src/snmalloc/ds_core/redblacktree.h:673-722 | both rotations move the double red two levels up with one more black level |
| `RedBlack.InsertStep` | third/snmalloc/src/snmalloc/ds_core/redblacktree.h:658-728 | one round of the loop keeps contents, order and balance |
| `RedBlack.RBTree.RemovePath` | third/snmalloc/src/snmalloc/ds_core/redblacktree.h:479-642 | removes exactly the key at the end of the path and restores order, colours and black depth |
| `RedBlack.Descend` | third/snmalloc/src/snmalloc/ds_core/redblacktree.h:486-496 | the replacement is the predecessor, the node itself, or its single red right child |
| `RedBlack.LeftLess` | third/snmalloc/src/snmalloc/ds_core/redblacktree.h:486-496 | a node without a left child has at most one red right child, so walking right from it is safe |
| `RedBlack.Splice` | third/snmalloc/src/snmalloc/ds_core/redblacktree.h:498-517 | the replacement takes the removed node's place, links and colour, and the refreshed path leads to the hole |
| `RedBlack.Fixup` | third/snmalloc/src/snmalloc/ds_core/redblacktree.h:352-380 | rewalking with the stored directions gives the path of the changed tree |
| `RedBlack.RedSibling` | third/snmalloc/src/snmalloc/ds_core/redblacktree.h:553-570 | the red-sibling writes rotate, and the path then leads to the same hole one level deeper |
| `RedBlack.FarNibling` | third/snmalloc/src/snmalloc/ds_core/redblacktree.h:579-592 | the far-nibling writes perform the single rotation with its colours |
| `RedBlack.NearNibling` | third/snmalloc/src/snmalloc/ds_core/redblacktree.h:603-618 | the near-nibling writes perform the double rotation with its colours |
| `RedBlack.Recolour` | third/snmalloc/src/snmalloc/ds_core/redblacktree.h:620-634 | the recolouring of the two black-nibling cases |
| `RedBlack.FarBalance` | third/snmalloc/src/snmalloc/ds_core/redblacktree.h:572-592 | the far-nibling rotation removes the missing black level, also under a red child left in the hole |
| `RedBlack.NearBalance` | third/snmalloc/src/snmalloc/ds_core/redblacktree.h:594-618 | the same for the near-nibling rotation |
| `RedBlack.RecolourBalance` | third/snmalloc/src/snmalloc/ds_core/redblacktree.h:620-634 | recolouring removes the missing level or moves it up |
| `RedBlack.Rebalance` | third/snmalloc/src/snmalloc/ds_core/redblacktree.h:527-641 | the double-black loop ends with a valid tree of the same keys |
| `RedBlack.RBTree.RemoveMin` | third/snmalloc/src/snmalloc/ds_core/redblacktree.h:738-752 | removes and returns the smallest key; null exactly on the empty tree |
| `RedBlack.RBTree.IsEmpty` | third/snmalloc/src/snmalloc/ds_core/redblacktree.h:733-736 | the root is null exactly when there is no key |
| `RedBlack.RBTree.RemoveElem` | third/snmalloc/src/snmalloc/ds_core/redblacktree.h:754-765 | removes the key and reports whether it was there |
| `RedBlack.RBTree.InsertElem` | third/snmalloc/src/snmalloc/ds_core/redblacktree.h:767-776 | adds the key and reports whether it was new |
| `RemoteQueue.StepKeeps` | third/snmalloc/src/snmalloc/mem/remoteallocator.h:72-190 | every atomic step of every producer and of the consumer keeps the queue invariant |
| `RemoteQueue.RunKeeps` | third/snmalloc/src/snmalloc/mem/remoteallocator.h:72-190 | so does every run |
| `RemoteQueue.ExchangeStep` | third/snmalloc/src/snmalloc/mem/remoteallocator.h:117-118 | publishing a segment by the exchange keeps it |
| `RemoteQueue.LinkStep` | third/snmalloc/src/snmalloc/mem/remoteallocator.h:120-127 | writing the link, or `front` for the first segment, keeps it |
| `RemoteQueue.DeliverStep` | third/snmalloc/src/snmalloc/mem/remoteallocator.h:155-180 | handing a message to the callback keeps it |
| `RemoteQueue.Safety` | third/snmalloc/src/snmalloc/mem/remoteallocator.h:72-190 | in every interleaving the delivered messages are a prefix of the exchange order, the source's own assertion holds, and the consumer is never past its check while the first write of `front` is due |
| `RemoteQueue.NothingLost` | third/snmalloc/src/snmalloc/mem/remoteallocator.h:105-128 | when nobody is half-way, the links from `front` pass all undelivered messages and end at `back` |
| `RemoteQueue.Drain` | third/snmalloc/src/snmalloc/mem/remoteallocator.h:142-190 | the consumer's own steps deliver everything before its bound |
| `RemoteQueue.Dequeue` | third/snmalloc/src/snmalloc/mem/corealloc.h:651-662 | one guarded `dequeue` from a quiet state delivers every message but the last |
| `RemoteQueue.GuardNeeded` | third/snmalloc/src/snmalloc/mem/corealloc.h:451-466 | from every reachable state with the consumer away: `dequeue` entered without the check keeps the invariant on every run exactly when `front` is not the stub, and otherwise some run loses the queue |
| `RemoteQueue.LostForever` | third/snmalloc/src/snmalloc/mem/remoteallocator.h:72-190 | a lost queue stays lost: no run delivers another message |
| `BuddyBlocks.Complete` | third/snmalloc/src/snmalloc/backend_helpers/buddy.h:117-148 | when no two mergeable buddies are held, a wholly free block within one range lies inside a held one |
| `BuddyBlocks.MergeUncrossed` | third/snmalloc/src/snmalloc/backend_helpers/largebuddyrange.h:155-166 | two buddies that may be consolidated make a block within one range |
| `BuddyBlocks.SplitUncrossed` | third/snmalloc/src/snmalloc/backend_helpers/buddy.h:143-146 | the halves of a block within one range are within it and may be merged again |
| `BuddyBlocks.Removed` | third/snmalloc/src/snmalloc/backend_helpers/buddy.h:84-84 | taking a block out frees exactly its chunks from the held set and keeps the invariant |
| `BuddyBlocks.Added` | third/snmalloc/src/snmalloc/backend_helpers/buddy.h:107-107 | putting a block in adds exactly its chunks and keeps the invariant |
| `Buddy.BuddyAddr` | third/snmalloc/src/snmalloc/backend_helpers/largebuddyrange.h:112-115 | `addr ^ size` is the address of the sibling block |
| `Buddy.ParentAddr` | third/snmalloc/src/snmalloc/backend_helpers/largebuddyrange.h:117-120 | aligning down gives the address of the enclosing block |
| `Buddy.ConsolidateMeans` | third/snmalloc/src/snmalloc/backend_helpers/largebuddyrange.h:155-166 | the boundary bit looked at decides whether the two may be merged |
| `Buddy.Gap` | third/snmalloc/src/snmalloc/backend_helpers/buddy.h:71-107 | no stored address lies between a block and its buddy, so the place found for the buddy is the block's own, also on the continued search |
| `Buddy.FewKeys` | third/snmalloc/src/snmalloc/backend_helpers/buddy.h:16-18 | a tree of chunk addresses is small enough for the 128-slot path |
| `Buddy.BuddyAllocator.constructor` | third/snmalloc/src/snmalloc/backend_helpers/buddy.h:53-53 | an empty allocator holds nothing |
| `Buddy.BuddyAllocator.AddBlock` | third/snmalloc/src/snmalloc/backend_helpers/buddy.h:64-110 | exactly the added chunks become free, or one full-size block leaves; no two mergeable buddies are held; `empty_at_or_above` stays sound |
| `Buddy.BuddyAllocator.RemoveBlock` | third/snmalloc/src/snmalloc/backend_helpers/buddy.h:117-148 | null exactly when no block of that size within one range is wholly free; otherwise exactly the returned block's chunks leave |
| `Buddy.BuddyAllocator.SplitBlock` | third/snmalloc/src/snmalloc/backend_helpers/buddy.h:143-147 | the first half is handed out and the second kept |
| `Range.RangeToPow2Blocks` | third/snmalloc/src/snmalloc/backend_helpers/range_helpers.h:8-36 | the blocks tile the aligned part of the range without gap or overlap, each naturally aligned and as large as possible |
| `Range.UpRange` | third/snmalloc/src/snmalloc/backend_helpers/largebuddyrange.h:117-120 | a chunk lies in a block exactly when it is between the block's ends |
| `Range.NextLevelBound` | third/snmalloc/src/snmalloc/backend_helpers/largebuddyrange.h:287-290 | the next power of two is the least one that suffices |
| `Range.RefillFits` | third/snmalloc/src/snmalloc/backend_helpers/largebuddyrange.h:287-290 | the refill size is at least the request and at most the largest block |
| `Range.LargeBuddyRange.RefillLevel` | third/snmalloc/src/snmalloc/backend_helpers/largebuddyrange.h:273-290 | the level asked for is the least one that covers the request and the minimum, and the total so far or the refill size |
| `Range.AskedWhen` | third/snmalloc/src/snmalloc/backend_helpers/largebuddyrange.h:273-290 | a level suffices exactly when it covers the request and the minimum and is not below what was obtained before, up to the refill size |
| `Range.RefillsGrow` | third/snmalloc/src/snmalloc/backend_helpers/largebuddyrange.h:273-290 | successive refills of single chunks ask for 1, 1, 2, 4, ... chunks up to the refill size |
| `Range.LargeBuddyRange.constructor` | third/snmalloc/src/snmalloc/backend_helpers/largebuddyrange.h:350-350 | nothing is obtained, returned or handed out |
| `Range.Conserved` | third/snmalloc/src/snmalloc/backend_helpers/largebuddyrange.h:352-392 | how often a chunk was obtained from the parent, less how often it was returned, is 1 when it is handed out or held, never both, and 0 otherwise |
| `Range.Balanced` | third/snmalloc/src/snmalloc/backend_helpers/largebuddyrange.h:352-392 | a sound log of parent calls counts every owned chunk once |
| `Range.OverflowWhen` | third/snmalloc/src/snmalloc/backend_helpers/largebuddyrange.h:241-256 | a block overflows exactly when the one added frees the last chunks of a full-size block of one range, and it is that block |
| `Range.LargeBuddyRange.AddOne` | third/snmalloc/src/snmalloc/backend_helpers/largebuddyrange.h:261-271 | one block is held, and the parent gets a full-size block back exactly when this one completes it |
| `Range.NoneReturned` | third/snmalloc/src/snmalloc/backend_helpers/largebuddyrange.h:287-298 | what is left of a refill never completes a full-size block, because it shares that block with the part handed out |
| `Range.LargeBuddyRange.AddRange` | third/snmalloc/src/snmalloc/backend_helpers/largebuddyrange.h:261-271 | every chunk of the range is held, except in full-size blocks that it completes, which are returned to the parent |
| `Range.LargeBuddyRange.Refill` | third/snmalloc/src/snmalloc/backend_helpers/largebuddyrange.h:273-299 | one call to the parent for the least level that the request, the minimum and the growth rule allow: the first part of its answer is handed out, a block within one range, all the rest is held, and nothing is returned; a null answer changes nothing |
| `Range.LargeBuddyRange.AllocRange` | third/snmalloc/src/snmalloc/backend_helpers/largebuddyrange.h:352-372 | a block within one range that was not handed out before is handed out; the parent is asked exactly when no block of that size is free, and then what it gives is the only change in what is owned |
| `Range.LargeBuddyRange.DeallocRange` | third/snmalloc/src/snmalloc/backend_helpers/largebuddyrange.h:374-392 | the block leaves the handed-out set; a too large one is returned, any other is held, and a full-size block is returned exactly when this one completes it |
| `Range.FirstPart` | third/snmalloc/src/snmalloc/backend_helpers/largebuddyrange.h:287-298 | the first part of a block of one range is a block of that range |
| `Range.Borrow` | third/snmalloc/src/snmalloc/backend_helpers/largebuddyrange.h:352-372 | whatever the parent would give, an allocation keeps blocks with users apart; it succeeds when a block is free |
| `Range.GiveBack` | third/snmalloc/src/snmalloc/backend_helpers/largebuddyrange.h:374-392 | any block with a user can be deallocated, and the others stay apart |
| `Range.Serve` | third/snmalloc/src/snmalloc/backend_helpers/largebuddyrange.h:352-392 | after any run of allocations and deallocations, with any parent, blocks with users do not overlap, and every chunk is with one user or held exactly when it was obtained once more than returned |
| `Range.GiveAllBack` | third/snmalloc/src/snmalloc/backend_helpers/largebuddyrange.h:352-392 | then everything can be deallocated, and what is owned is exactly what is held |
| `Range.NotMerged` | third/snmalloc/src/snmalloc/backend_helpers/largebuddyrange.h:155-166 | two free chunks are not put together when the second starts a separately obtained range: there is no block of two to remove |
| `TextOrder.LessTotal` | includes/objects/str.h:66-81 | member names are totally ordered |
| `TextOrder.LessTransitive` | includes/objects/str.h:66-81 | the order is transitive |
| `TextOrder.LessIs` | includes/objects/str.h:66-81 | a name is less than another exactly when it is a proper prefix of it or the first byte in which they differ is smaller |
| `SortedSet.ZSet.Walk` | src/objects/zset.cc:211-218 | the list with its scores, in order |
| `SortedSet.Scan` | src/objects/zset.cc:77-81 | the search by iterator stops at the member's own entry, inside the multimap |
| `SortedSet.ZSet.constructor` | includes/objects/zset.h:16-18 | an empty set describes the empty map |
| `SortedSet.ZSet.Add` | src/objects/zset.cc:42-56 | a new member goes into all three indexes, at the end of the list and after the entries of equal score; an existing one is left alone |
| `SortedSet.ZSet.Rem` | src/objects/zset.cc:64-85 | the member leaves all three indexes exactly when the score matches, and everything else keeps its order |
| `SortedSet.MoveRank` | src/objects/zset.cc:127-133 | erasing and inserting moves the member's entry to its new score |
| `SortedSet.ZSet.IncrBy` | src/objects/zset.cc:119-136 | all three indexes carry the new score, the list keeps its order and the entry moves behind those of equal score; a missing member changes nothing |
| `SortedSet.ZSet.Score` | src/objects/zset.cc:257-266 | the score of the abstract map |
| `SortedSet.ZSet.Count` | src/objects/zset.cc:87-97 | the number of members of the abstract map with a score in the range |
| `SortedSet.ZSet.RangeByScore` | src/objects/zset.cc:176-189 | exactly the members with a score in the range, each once, in non-decreasing order, as they follow each other in the multimap |
| `SortedSet.ZSet.RangeByLex` | src/objects/zset.cc:191-204 | exactly the members that neither precede the lower name nor are preceded by the upper one, by prefix and first difference, in order, with their scores |
| `Decimal.ToTextStoi` | src/objects/str.cc:188-190 | an integer-shaped text comes back from its value exactly when it is canonical |
| `Decimal.StoiToText` | src/objects/str.cc:210-215 | the text of an integer is read as that integer |
| `RdbText.SizeBack` | includes/util.h:112-119 | an eight-byte size comes back |
| `RdbText.IntBack` | includes/util.h:112-119 | a four-byte two's complement integer comes back |
| `RdbText.SmallBits` | includes/util.h:112-119 | the least significant byte comes first, and negative numbers are two's complement |
| `RdbText.Source.PeekWord` | src/util.cc:26-50 | the byte loop reads a little-endian word and removes its bytes, or fails and removes none |
| `RdbText.Source.ReadInt` | src/util.cc:26-37 | a written integer is read back and only its four bytes are removed |
| `RdbText.Source.ReadSize` | src/util.cc:39-50 | a written size is read back and only its eight bytes are removed |
| `Strings.RedisStrToInt` | src/util.cc:140-174 | no integer, an out-of-range one or its value, told by the shape of the text; the least `int` is out of range |
| `Strings.Str.constructor` | src/objects/str.cc:8-25 | marked as an integer exactly when the text is integer-shaped |
| `Strings.Str.Set` | src/objects/str.cc:61-82 | the loop marks the string as an integer exactly when the text is integer-shaped |
| `Strings.Str.Append` | src/objects/str.cc:84-97 | a string marked raw stays raw; one marked as an integer keeps the mark exactly when it still is one; the exception leaves the appended text behind |
| `Strings.Str.IncrBy` | src/objects/str.cc:99-116 | adds to the number and writes its canonical text; otherwise the text is unchanged, and a raw mark or an exception says why |
| `RdbText.EncodeText` | src/objects/str.cc:151-192 | the bytes are a written form of the string, an integer, raw or compressed as marked and configured; fails exactly on a marked integer that `std::stoi` refuses, or on an empty raw string under compression |
| `RdbText.DecodeText` | src/objects/str.cc:200-234 | a written string is read back, compressed or not, and not a byte more is consumed |
| `RdbText.SurvivesWhen` | src/objects/str.cc:151-234 | saving succeeds and gives back text and mark exactly when the string is raw, and not empty under compression, or the canonical text of an `int` |
| `RdbText.SaveAndLoad` | src/objects/str.cc:151-234 | the same of an actual save and load, compressed or not |
| `RdbText.LeadingZeros` | src/objects/str.cc:8-25 | "007" comes back as "7" |
| `RdbText.TooLarge` | src/objects/str.cc:187-191 | "2147483648" cannot be saved |
| `RdbText.MinusAppended` | src/objects/str.cc:84-97 | "-" with digits appended is raw and survives, where the same text set at once is an integer and, with a leading zero, does not |
| `Reload.BackTwice` | src/objects/str.cc:200-214 | a name that was loaded once comes back unchanged from then on |
| `Reload.BackWhenAll` | src/objects/list.cc:229-249 | a list comes back exactly when all its items do, and so does a set, although two elements can become one |
| `Reload.TableBackWhen` | src/objects/hash.cc:96-107 | a table whose entries are inserted only under new keys comes back exactly when every key and everything under a key does |
| `Reload.MembersBackWhen` | src/objects/zset.cc:220-243 | the list of a sorted set comes back exactly when all names do |
| `Reload.KeysCollide` | src/objects/hash.cc:96-107 | of entries under "07" and "7" only the one written first is loaded |
| `Rdb.DecodeTexts` | src/objects/list.cc:238-249 | the list or set elements come back as loading makes them, in order, and the rest of the input is untouched |
| `Rdb.DecodeHash` | src/objects/hash.cc:96-107 | the table that first insertions of the loaded entries give, whatever order it was walked in |
| `RankOrder.EntriesFacts` | includes/objects/zset.h:16-18 | the list of a valid sorted set names every member once, with its score |
| `RankOrder.RankedOk` | src/objects/zset.cc:42-56 | additions one after the other give a score index that is sorted, complete, and lists equal scores in the order of addition |
| `RankOrder.RankedWhen` | src/objects/zset.cc:220-243 | a score index is the one additions build exactly when members of equal score stand in it in the order of the list |
| `Rdb.DecodeNodes` | src/objects/zset.cc:220-243 | all three indexes of a sorted set are rebuilt as additions of the loaded names would, each name once |
| `Rdb.SaveAndLoadZSet` | src/objects/zset.cc:211-243 | a sorted set can be saved exactly when all its names can; it survives exactly when all names do and members of equal score stand in its score index in the order of the list |
| `Rdb.IncrementedThenLoaded` | src/objects/zset.cc:119-243 | two members made equal by an increment are listed the other way round after reloading |
| `Rdb.BackWhen` | src/database/db.cc:43-117 | a value that can be saved is loaded as it was exactly when all its strings survive and it is not a sorted set with members of equal score out of order |
| `Rdb.EncodeValue` | src/objects/list.cc:229-236 | the bytes are a written form of the value, for all five kinds; fails exactly when a string in it cannot be saved |
| `Rdb.DecodeValue` | src/database/db.cc:92-117 | every kind of value comes back as loading makes it and only its own bytes are consumed |
| `Rdb.EncodeKey` | src/database/db.cc:43-66 | expiry, kind, key and value, one after the other; fails exactly when a string cannot be saved |
| `Rdb.DecodePrefix` | src/database/db.cc:68-88 | the optional expiry and the kind come back |
| `Rdb.DecodeKey` | src/database/db.cc:68-118 | key, value and expiry come back and only their bytes are consumed |
| `Rdb.DbBackWhen` | src/database/db.cc:288-333 | a database is loaded as it was exactly when all its keys and values survive |
| `Rdb.SaveDb` | src/database/db.cc:288-305 | an empty database writes nothing, any other a database record; fails exactly when a string cannot be saved |
| `Rdb.LoadDb` | src/database/db.cc:307-333 | number, keys, values and expiries come back; anything else than a database record is refused |
| `Rdb.Save` | src/database/rdb.cc:26-34 | the magic and the databases; fails exactly when a string in one of them cannot be saved |
| `Rdb.SampleDump` | includes/objects/object.h:23-54 | the bytes of a dump of one key, for each of the five kinds, with and without an expiry time |
| `Rdb.Load` | src/database/rdb.cc:6-23 | every database comes back and the input is used up; without the magic, none |
| `Rdb.RoundTrip` | src/database/rdb.cc:6-34 | for any databases: the save fails exactly when some string cannot be saved, and otherwise a database is loaded as it was exactly when all its strings survive and no sorted set has members of equal score out of order |
| `JsonText.AppendText` | third/json11/json11.cpp:77-110 | the text of a string, with its escapes |
| `JsonText.EscapesAre` | third/json11/json11.cpp:77-106 | quote, backslash and five control characters are written with their letter, the other control characters with four digits, everything else as it is |
| `JsonText.EscapeSafe` | third/json11/json11.cpp:77-106 | no dumped string has a control character, U+2028 or U+2029 in it |
| `JsonText.Utf8Reads` | third/json11/json11.cpp:455-474 | for every code point up to U+10FFFF, whatever follows, a decoder written from the byte classes of RFC 3629 reads it back, in its shortest form |
| `JsonText.PairReads` | third/json11/json11.cpp:532-538 | the surrogate pair of a code point above U+FFFF is put together to that code point |
| `JsonText.UnitReads` | third/json11/json11.cpp:511-526 | four hexadecimal digits of either case are read as the number they write, and nothing else is |
| `JsonText.LettersRead` | third/json11/json11.cpp:551-565 | the eight escape letters stand for their characters, and no other letter is an escape |
| `JsonText.MeaningAppend` | third/json11/json11.cpp:480-567 | a piece at the end of a text adds what it stands for, unless it completes a surrogate pair |
| `JsonText.HeldUnit` | third/json11/json11.cpp:526-542 | the code point held back and what was emitted stand for the pieces read, also when a pair is completed or a surrogate stays alone |
| `JsonText.PiecesRead` | third/json11/json11.cpp:77-110 | a dumped string of any bytes is the text of its escapes, and they stand for it |
| `Json.AppendJson` | third/json11/json11.cpp:53-138 | the text of a value |
| `Json.DumpTwo` | third/json11/json11.cpp:112-122 | brackets and `, ` around and between the items of an array |
| `Json.DumpTwoEntries` | third/json11/json11.cpp:124-138 | braces, `: ` and `, ` around and between the entries of an object |
| `Json.AssignLast` | third/json11/json11.cpp:688-688 | entries in key order end up in key order |
| `Json.AssignFits` | third/json11/json11.cpp:688-688 | assigning keeps the keys in order, whatever order they come in |
| `Json.ReadSame` | third/json11/json11.cpp:302-309 | a value equals what is read back of it, by the library's own equality of numbers |
| `Json.SameTame` | third/json11/json11.cpp:644-728 | only a value within the depth limit and with ordered keys can equal what a parse gives |
| `Json.ShortWhen` | third/json11/json11.cpp:592-595 | every integer comes back as an integer exactly when none has ten characters or more |
| `JsonGrammar.LastCounts` | third/json11/json11.cpp:688-688 | of the entries with one key the last one counts, and the keys end up in order |
| `JsonGrammar.DumpIsText` | third/json11/json11.cpp:53-138 | every dumped value within the depth limit and with ordered keys is a text of the grammar, and stands for the value up to the class of long integers |
| `JsonGrammar.ValueFits` | third/json11/json11.cpp:644-728 | whatever a text stands for is within the depth limit and has its keys in order |
| `JsonParser.Parser.NextToken` | third/json11/json11.cpp:442-449 | the next character after white space, or failure at the end |
| `JsonParser.Parser.ParseEscape` | third/json11/json11.cpp:505-565 | it succeeds exactly on a legal escape; what was emitted and the code point held back then stand for all pieces read |
| `JsonParser.Parser.ParseString` | third/json11/json11.cpp:480-567 | it succeeds exactly when the text of legal pieces and a quote follow, with any escapes, and gives the bytes they stand for, surrogate pairs put together |
| `JsonParser.Parser.ParseNumber` | third/json11/json11.cpp:573-625 | it reads exactly the numbers of the grammar, as integers up to nine characters without fraction and exponent, and as doubles otherwise |
| `JsonParser.Parser.Expect` | third/json11/json11.cpp:629-638 | it succeeds exactly when the word stands there |
| `JsonParser.Parser.Separator` | third/json11/json11.cpp:715-722 | the closing character, or a comma and the next character, or failure |
| `JsonParser.Parser.ParseArray` | third/json11/json11.cpp:703-725 | it succeeds exactly when the text of an array follows, with any white space, and gives its items |
| `JsonParser.Parser.ParseObject` | third/json11/json11.cpp:670-701 | it succeeds exactly when the text of an object follows, with any white space, and gives its entries assigned one after the other |
| `JsonParser.Parser.ParseJson` | third/json11/json11.cpp:644-728 | it succeeds exactly when a text of the grammar within the depth limit follows the white space, gives its value, and stops at its end |
| `JsonParser.Parse` | third/json11/json11.cpp:732-744 | it succeeds on exactly the texts of the grammar of RFC 8259 nested at most 200 deep, and gives the value they stand for |
| `JsonParser.RoundTrip` | third/json11/json11.cpp:53-138 | a value without doubles survives dumping and parsing, by the library's own equality, exactly when it is within the depth limit and its keys are in order; it is the very same value exactly when moreover no integer has ten characters or more |
| `JsonParser.TooDeep` | third/json11/json11.cpp:644-647 | an empty array inside n others is read back exactly when n is at most 200 |
| `JsonParser.TenDigits` | third/json11/json11.cpp:592-625 | 1234567890 comes back as a double that equals it |

## Left out

- Sockets, event loop, worker threads, command dispatch, configuration, files and the command line: input and output around the modelled parts.
- `LRU`, `List::Rem`, index helpers such as the one in `ZSet::Range`, database numbering, timers and AOF replay: unfinished, thin, or dependent on the clock.
- `ZSet::Rank`, `LexCount`, `Card`: easy members beside those modelled.
- Latches and concurrent access to one object: the objects are modelled as used by one thread at a time.
- JSON doubles are carried as their literal text, and the comment-parsing mode and `parse_multi` are not modelled.
- JSON error messages: a failed parse is a flag.
- `lzfse_encode_translate` and sources of 2^31 bytes and more; the 32-bit stream variants; V1 block headers; the command-line tool.
- Values of the L, M, D streams are decoded for a whole block before they are executed; the source interleaves the two.
- LzfseCodec.DecodeBlock: on malformed blocks only, frequency tables that do not fill their states, omitted tables and literal counts that are not multiples of four are rejected, where the source goes on with them, and the L, M, D stream is bounded by its payload where the source uses the start of the source.
- Lmd.TableFinds: the tables are written as runs of equal symbols instead of entry by entry.
- LzfseDecoder.LmdDecoder.Decode: the range check rejects a missing distance at any output size; the source compares it as a 32-bit number, which differs only for malformed blocks beyond 4 GB of output.
- LzvnDecoder.Decoder.Decode: nothing is claimed for a stream that repeats a match distance before setting one, which the source copies unchecked, and a malformed stream keeps its meaning only when no instruction was pending.
- Compression.EncodeBuffer: the LZVN payload is written to a buffer of its own and then copied behind the header; the source writes it in place.
- Compression.DecompressFor: for malformed data beyond the kinds named, whether the loop ends is not stated.
- Compression.Decompress: the contract is about data that stands for something; the loop on other data is `Compression.DecompressFor`.
- RemoteQueue.Safety: atomic operations are sequentially consistent steps of a state machine over values; weaker memory orders, pointer encoding and `destroy` are not modelled.
- RedBlack.RBTree.RemovePath: colour and left child are separate fields of a cell, where the chunk representation keeps the colour in a bit of the child word; each tree has its own cells.
- Buddy.BuddyAllocator.AddBlock: the block must not reach across the start of a separately obtained range, which is how ranges are registered.
- Range.RangeToPow2Blocks: the aligned end must not be below the aligned start, which the source asserts, and the blocks are listed in callback order instead of being passed to a callback.
- Range.LargeBuddyRange.Refill: only an aligned parent is modelled, and its answer is a parameter; over-allocation from an unaligned parent is not modelled.
- SortedSet.ZSet.Rem: a member whose score is the least `int` is outside the contract, since the source then computes `score - 1`, which is signed overflow.
- SortedSet.ZSet.IncrBy: a sum outside the range of `int` is outside the contract, since it is signed overflow in the source; the score is returned as a number, not as its text.
- BitStream.OutStream.Flush: a full accumulator is outside the contract, since the source then shifts a 64-bit word by 64; what becomes of the stream then is `BitSchedule.KeptUnlessFull`.
- Strings.Str.IncrBy: a sum outside the range of `int` is outside the contract, since it is signed overflow in the source.
- RdbText.EncodeText: the assertion that a compressed string is not empty counts as a failure to save; with assertions off the source writes a string it cannot load.
- Rdb.DecodeValue: only well-formed input is covered; the source stops with an exception or undefined behaviour on truncated or corrupt dumps.
- Rdb.DecodeNodes: a loaded sorted set is compared by its list and score index, since the member map follows from them; the encoding mark of keys, elements and members is that of the constructor, since they are never changed in place.
- Rdb.RoundTrip: expiry timers are not modelled, only the stored times; strings and containers are within the sizes the format can write.
- JsonParser.RoundTrip: integers are unbounded, where the source has `int`, whose values doubles hold exactly; as the double an integer equals, only the one with its own text is considered, which is the only one that arises.
- Platform layers, capability pointers, slabs, size classes and thread caches of the allocator: not needed for the modelled properties.
