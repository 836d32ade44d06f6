# LZ4, LZO and xxHash: a model and its proofs

A model in Dafny of the compression libraries in this repository: the LZ4 block codec with its fast, size-limited,
streaming, hash-chain and optimal compressors, the LZ4 frame encoder and resumable decoder, the LZO1 and LZO1A codecs,
and the streaming xxHash functions. `dafny verify dfyconfig.toml` checks all of it.

Each codec has a small reference definition that works on sequences, one byte or one unit at a time. The code with its
arrays, tables, states and jumps is modelled as methods that are proved against these definitions, and the definitions
are proved to be each other's inverses.

* `Bytes`, `Sequences`: machine integers, and facts about sequences.
* `Lz4Format`, `Lz4RoundTrip`: the block format; what a block means, which blocks the safe decoder accepts, the round trip
  and the size of any conforming list of sequences. Everything that compresses proves that it emits such a list.
* `Lz4Decoder`: `LZ4_decompress_generic` with wild copies, the shortcut, the two tables for small offsets, prefix and
  external dictionary.
* `Lz4Emit`, `Lz4Match`, `Lz4Fast`, `Lz4DestSize`, `Lz4Block`, `Lz4Stream`: the fast compressors. The hash is an arbitrary
  function, so that no block is wrong because of it; what is found depends on it only through the slots that it gives.
  `Lz4NoMatch`: texts without a match, and with one or two where they are wanted.
* `Lz4HcIndex`, `Lz4HcEmit`, `Lz4HcParser`, `Lz4Opt`, `Lz4Hc`: the hash-chain index, the output with its guards, the lazy
  parser as a machine of three states, the optimal parser with its table and the reversal in place.
* `XxHash32`, `XxHash64`: one-shot and streaming hash.
* `LzoFormat`, `LzoEmit`, `Lzo1`, `Lzo1a`: the LZO codecs, for any dictionary lookup.
* `FrameFormat`: the frame format as a machine that takes one byte at a time, in a lenient form (what a decoder did) and a
  strict one (blocks that every placement of the history accepts). `FrameHistory`, `FrameWindow`, `FrameDecoder`: the
  decoder with its fifteen stages and its sliding history. `FrameBlocks`, `FrameBound`, `FrameMakeBlock`,
  `FrameEncoder`, `FrameRoundTrip`: what encoders write, how much and how far, and the round trip under any chunking.

Integers are 64-bit where the width does not matter; 16-bit and 32-bit table entries, the 32-bit stream offset, the
32-bit hash length and the 64-bit content size wrap as in the source. Bytes are little-endian.

Where the code does not do what is said of it, the exact condition is proved:

* Limited output of the fast compressor is written only below its limit for inputs of at most 134664 bytes; for every
  larger size there is an input that is written beyond it (`Lz4Block.CompressFast`, `Lz4Block.BeyondTheLimit`); with
  history, for one byte less (`Lz4Stream.BeyondTheLimit`). The guard behind a match length is the reason
  (`Lz4Emit.GuardExact`). With a capacity of one byte less than the input, as in a frame, it suffices up to 4 MB, the
  largest block.
* For the high-compression levels the same holds for inputs of at most 5637 bytes (`Lz4Hc.CompressHC`,
  `Lz4Hc.BeyondTheLimit`), because of the guard before the literals (`Lz4HcEmit.RunGuardExact`).
* So a frame encoder that is given exactly the room that is asked for writes beyond it, at levels 3 and above with blocks
  of 1 MB or 4 MB, and only then: `FrameMakeBlock.KeepsExactly`, `FrameEncoder.Cctx.Update`,
  `FrameEncoder.UpdateBeyondTheBound`. For a frame in one go the header matters too:
  `FrameEncoder.FrameKeepsExactly`, `FrameEncoder.CompressFrame`, `FrameEncoder.FrameBeyondTheBound`.
* `LZ4F_flush` and `LZ4F_compressEnd` accept less room than they fill. `FrameEncoder.FitsExactly` says what suffices for
  what they return, and `FrameEncoder.FlushWritesMore` and `EndWritesMore` that everything accepted below that can be
  exceeded.
* The bound without preferences is not the worst case: `FrameBound.WithoutPrefs`.
* The count of an announced size survives a reset: `FrameBlocks.ResetIsNotClean`, `FrameBlocks.FrameRun`.
* The expansion bound of the LZO test program fails for RBITS 3: `Lzo1.TestBoundHolds`.
* Renormalisation of the stream loses candidates in reach if and only if the source lies below an offset of less than
  64 KB: `Lz4Stream.Compressor.Renorm`, `Lz4Stream.LosesCandidates`.

## Model

| member | source | states |
|---|---|---|
| Lz4RoundTrip.ParseEncoded | app/src/main/cpp/lz4/lib/lz4.c:624-683 | An encoded sequence, wherever it stands, is parsed back to its literals, offset and match length, with the 255-coded lengths, and parsing ends exactly behind it. |
| Lz4RoundTrip.BlockRoundTrip | app/src/main/cpp/lz4/lib/lz4.c:1169-1344 | Any list of sequences that spells a text and meets the end-of-block restrictions (matches start 12 and end 5 bytes before the end) is accepted by the safe decoder at any capacity that holds the text, after any history, and decodes to the text. |
| Lz4RoundTrip.DecodeSeqs | app/src/main/cpp/lz4/lib/lz4.c:1206-1333 | Induction behind it: after all sequences the decoder stands exactly at the position in the text that the encoder had reached. |
| Lz4RoundTrip.SeqsSizeBound | app/src/main/cpp/lz4/lib/lz4.h:157 | Per-sequence accounting: sequences that spell n bytes of text take at most n + n/255 bytes. |
| Lz4RoundTrip.BlockSizeBound | app/src/main/cpp/lz4/lib/lz4.h:157 | A whole block for n bytes of text takes at most n + n/255 + 16 bytes, whatever sequences were chosen. |
| Lz4RoundTrip.KnownSequence | app/src/main/cpp/lz4/lib/lz4.c:624-683 | The bytes of a sequence: token, literal, offset with its lower byte first, rest of the length in steps of 255. |
| Lz4RoundTrip.KnownBlock | app/src/main/cpp/lz4/lib/lz4.c:1206-1333 | The bytes of a small block, and the 26 bytes that they decode to. |
| Lz4Format.BlockRefinesNaive | app/src/main/cpp/lz4/lib/lz4.c:1169-1344 | Whatever the safe decoder accepts, with its shortcut and its restrictions, has the meaning that byte-at-a-time decoding gives it. |
| Lz4Format.CopyMatchUnique | app/src/main/cpp/lz4/lib/lz4.c:1306-1332 | A text whose last bytes each repeat the byte one offset before them is the byte-at-a-time copy, also when source and target overlap; so every copying strategy need only be periodic. |
| Lz4Decoder.WildCopy | app/src/main/cpp/lz4/lib/lz4.c:280-287 | Eight bytes at a time, overshooting by up to 7: a periodic text continues with its period, and nothing before d or from the larger of d+8 and e+7 on is written. |
| Lz4Decoder.TableDistances | app/src/main/cpp/lz4/lib/lz4.c:1193-1194 | For each offset below 8 the two small tables lead to a distance of at least 8 that is a multiple of the offset, so that eight-byte copies keep the period; offset 0 included. |
| Lz4Decoder.CopyFirst8 | app/src/main/cpp/lz4/lib/lz4.c:1308-1317 | The first eight bytes of a match are right for every offset, and what follows may be copied from where the method says. |
| Lz4Decoder.CopyMatchInside | app/src/main/cpp/lz4/lib/lz4.c:1306-1332 | The match copy at any distance equals the byte-at-a-time copy, stays below the end of the buffer, and refuses exactly the matches that end within the last five bytes. |
| Lz4Decoder.CopyMatchFromDict | app/src/main/cpp/lz4/lib/lz4.c:1281-1304 | A match that begins in an external dictionary, wholly or with an overlapping rest in the buffer, equals the byte-at-a-time copy on dictionary and output put together. |
| Lz4Decoder.ReadLiteralLength | app/src/main/cpp/lz4/lib/lz4.c:1231-1240 | The loop that may read one byte past the input finds the length that is coded, or one that is sure to be refused; the stray byte has no influence. |
| Lz4Decoder.ReadMatchLength | app/src/main/cpp/lz4/lib/lz4.c:1268-1279 | Refuses exactly those match lengths whose bytes reach into the last five bytes of the input. |
| Lz4Decoder.TryShortcut | app/src/main/cpp/lz4/lib/lz4.c:1213-1229 | The shortcut is taken exactly under its condition, and then does the whole sequence; if not taken, the output is as before. |
| Lz4Decoder.DecodeOne | app/src/main/cpp/lz4/lib/lz4.c:1206-1333 | One iteration of the main loop: what remains to be decoded has the same result as before, or the result is there, or there is none. |
| Lz4Decoder.DecompressGeneric | app/src/main/cpp/lz4/lib/lz4.c:1169-1344 | For every source, capacity and history (none, prefix, external dictionary), the result is negative exactly when the byte-at-a-time decoder refuses the block, and else the bytes are those it gives; nothing outside the destination is written and bytes past the source have no influence. |
| Lz4Block.DecompressSafe | app/src/main/cpp/lz4/lib/lz4.c:1348-1351 | LZ4_decompress_safe: number of bytes and bytes of the reference decoder, negative exactly when it refuses. |
| Lz4Match.Count | app/src/main/cpp/lz4/lib/lz4.c:416-439 | LZ4_count, by 8, 4, 2 and 1 bytes, equals the length of the common prefix counted byte by byte, up to the limit. |
| Lz4Match.CommonLenAgree | app/src/main/cpp/lz4/lib/lz4.c:416-439 | The common prefix has at least w bytes if and only if the first w bytes agree, and can be counted in parts. |
| Lz4Match.ExtendMatch | app/src/main/cpp/lz4/lib/lz4.c:621-665 | Four equal bytes extended backwards by agreeing bytes and forwards by the count form a real match. |
| Lz4Match.Append | app/src/main/cpp/lz4/lib/lz4.c:621-685 | Literals and a real match at admissible positions extend a conforming list of sequences. |
| Lz4Emit.LiteralGuardSuffices | app/src/main/cpp/lz4/lib/lz4.c:627-629 | The guard before the literals (with its estimate by litLength/255) leaves room for token, length bytes, literals, wild-copy overshoot and offset. |
| Lz4Emit.GuardExact | app/src/main/cpp/lz4/lib/lz4.c:667-669 | The guard behind a match length, with its estimate by matchCode>>8, leaves room for the length bytes, for those written four at a time beyond them and for the token and offset that may follow untested, exactly for the match codes m with m < 15 or (m-15)/255 <= m/256 + 2. |
| Lz4Emit.GuardedUpTo | app/src/main/cpp/lz4/lib/lz4.c:667-669 | All match codes up to n are such if and only if n is at most 134654. |
| Lz4Emit.PutLiterals | app/src/main/cpp/lz4/lib/lz4.c:630-641 | Token, length bytes and literals stand behind what was written; no byte at or after the limit is touched. |
| Lz4Emit.PutMatchLength | app/src/main/cpp/lz4/lib/lz4.c:670-681 | The loop of speculative 0xFF writes leaves the 255-coded length, and 255s behind it up to the end of the last four it wrote; nothing at or after the limit is written. |
| Lz4Emit.PutMatch | app/src/main/cpp/lz4/lib/lz4.c:644-683 | Offset and match length complete the sequence; refused exactly when the guard says so; no byte at or after the limit is touched if the guard protects the match code or there is room. |
| Lz4Emit.PutLast | app/src/main/cpp/lz4/lib/lz4.c:713-729 | The last literals complete the block; nothing behind them is touched. |
| Lz4Fast.PutPosition | app/src/main/cpp/lz4/lib/lz4.c:500-513 | Entering a position makes its slot lead to it and changes no other, and keeps every entry within the positions that are behind the input pointer, for 16-bit and 32-bit entries. |
| Lz4Fast.Accept | app/src/main/cpp/lz4/lib/lz4.c:616-618 | A candidate that passes the tests is a real match of four bytes at a distance that fits 16 bits, also in 16-bit mode, where no distance is tested. |
| Lz4Fast.FindMatch | app/src/main/cpp/lz4/lib/lz4.c:592-619 | The search succeeds if and only if one of the positions it tries repeats what its slot leads to by then, be it an old entry or a position tried before, and ends at the first of them; it gives up only when the next position to try is too close to the end. For every hash, table and acceleration. |
| Lz4Fast.NoneLeftOut | app/src/main/cpp/lz4/lib/lz4.c:592-604 | With acceleration 1 no position is left out until the 65th of a search. |
| Lz4Fast.ProbesAscend | app/src/main/cpp/lz4/lib/lz4.c:592-604 | The positions a search tries go up by at least one each, with every acceleration. |
| Lz4Fast.NextPosition | app/src/main/cpp/lz4/lib/lz4.c:687-722 | After a match, the very next position is a match at once if and only if it repeats what its slot leads to, counting the position two back that has just been entered. |
| Lz4Fast.CatchUp | app/src/main/cpp/lz4/lib/lz4.c:621-622 | Going back over equal bytes keeps a real match, never behind the anchor or the low limit. |
| Lz4Fast.MatchFits | app/src/main/cpp/lz4/lib/lz4.c:667-669 | With the worst-case capacity the guard never stops a match. |
| Lz4Fast.MatchSpill | app/src/main/cpp/lz4/lib/lz4.c:667-681 | What the guard of the match length lets pass is written below the limit, if the match code is guarded or the match has saved its length, and else at most (n + 61185)/65280 bytes beyond it. |
| Lz4Fast.LiteralsFit | app/src/main/cpp/lz4/lib/lz4.c:627-629 | With the worst-case capacity the guard never stops literals. |
| Lz4Fast.EmitMatch | app/src/main/cpp/lz4/lib/lz4.c:643-685 | The match that is coded is as long as the common prefix up to five bytes before the end; the result is a conforming list of sequences; failure implies less than the worst-case capacity; no write at or after the limit. |
| Lz4Fast.NextSequence | app/src/main/cpp/lz4/lib/lz4.c:587-685 | One round of the main loop keeps: the output is the encoding of sequences that spell the input up to the anchor, and all table entries are behind the input pointer. From a first hit it emits the sequence that begins where the hit, extended backwards, begins, exactly if both guards pass. |
| Lz4Fast.FirstOverrun | app/src/main/cpp/lz4/lib/lz4.c:667-681 | For an input of more than 134664 bytes, one less with history, that starts with 134660 (134659) equal ones, and the limit at which its guards just pass: the length bytes of the first match end before the limit and the speculative ones behind it. |
| Lz4Fast.RepetitionHit | app/src/main/cpp/lz4/lib/lz4.c:592-619 | For an input that repeats a first part in which nothing repeats, whatever else the hash does to slots that are not that of its first position, the repetition is the first hit of the first search. |
| Lz4Fast.RepetitionLength | app/src/main/cpp/lz4/lib/lz4.c:658-665 | The match found there reaches to where the last five literals must begin. |
| Lz4Fast.EmitLast | app/src/main/cpp/lz4/lib/lz4.c:722-733 | The last literals complete the block, in exactly the bytes they take, if and only if they fit the limit. |
| Lz4Fast.CompressGeneric | app/src/main/cpp/lz4/lib/lz4.c:532-733 | For every hash and acceleration: a non-zero result decodes to the input after its history, is at most n + n/255 + 16 and at most the output limit; zero only if the limit is below the worst case; nothing is written beyond what the guards let pass; such an input as above is written beyond its limit; and an input that repeats its first part, from a position that is tried, becomes exactly the block with one match, or nothing if that does not pass the guards of the limit. |
| Lz4Block.CompressFast | app/src/main/cpp/lz4/lib/lz4.c:736-760 | LZ4_compress_fast: the same for a fresh state and both table modes; zero only for inputs that are too large or limits below the worst case, and always for inputs without a match that the limit does not exceed; an input that repeats its first part gives exactly the block with one match, if it fits; nothing is written from WriteEnd on, which is the limit itself for inputs of at most 134664 bytes, and for those of at most 4 MB with a limit at most one byte less. |
| Lz4Block.SmallPeriod | app/src/main/cpp/lz4/lib/lz4.c:592-619 | With acceleration 1 that holds for every text that repeats its first 1 to 65 bytes, if these repeat nothing and the slot of the first position is not taken between the two. |
| Lz4Block.KnownRepetition | app/src/main/cpp/lz4/lib/lz4.c:736-760 | For instance a kilobyte of sixteen letters over and over, which takes thirty bytes. |
| Lz4Block.BeyondTheLimit | app/src/main/cpp/lz4/lib/lz4.c:667-681 | For every larger size there is an input and a limit for which the compressor fails but has written beyond the limit, whatever the hash and the acceleration. |
| Lz4Block.FastRoundTrip | app/src/main/cpp/lz4/lib/lz4.c:736-760 | For every input, hash, acceleration up to 65536 and output limit, with exactly that much memory wherever the limit is kept: what is produced, LZ4_decompress_safe turns back into exactly the input; with the documented bound it is produced. |
| Lz4NoMatch.NoMatch | app/src/main/cpp/lz4/lib/lz4.c:616-618 | There are texts of every length in which no four bytes repeat within reach of a match, so that every compressor stores them. |
| Lz4NoMatch.InsertOnly | app/src/main/cpp/lz4/lib/lz4.c:616-618 | Putting five equal bytes between two groups of such a text adds exactly one place where a match can be, and moves the others. |
| Lz4NoMatch.TwoMatchesOnly | app/src/main/cpp/lz4/lib/lz4.c:616-618 | So there are texts with exactly two such places, almost anywhere. |
| Lz4DestSize.ShortenedFits | app/src/main/cpp/lz4/lib/lz4.c:889-904 | A match that is too long for the target is shortened to one whose length bytes just fit, and remains a match. |
| Lz4DestSize.LastRunFits | app/src/main/cpp/lz4/lib/lz4.c:926-934 | The shortened last run fits, and has at least 5 (8) literals when at least 6 (9) bytes are left; it leaves at most one byte of the room unused, and another one for every 65025. |
| Lz4DestSize.ConsumedConforms | app/src/main/cpp/lz4/lib/lz4.c:926-951 | After shortening, the sequences conform to the end-of-block restrictions of the shorter input that was consumed. |
| Lz4DestSize.DestMatch | app/src/main/cpp/lz4/lib/lz4.c:884-910 | A match, shortened or not, keeps the encoding invariant and the room for the end of the block; it is whole if and only if its description leaves that room, and shortened only when nothing more fits after it. |
| Lz4DestSize.CompressDestSizeGeneric | app/src/main/cpp/lz4/lib/lz4.c:798-951 | At most target bytes; the block decodes to exactly the first bytes of the input that are reported as consumed; zero exactly for target zero. If input is left over the target is full, but for one byte and another for every 65025; an input that repeats its first part is consumed whole when its one match fits. |
| Lz4Block.CompressDestSize | app/src/main/cpp/lz4/lib/lz4.c:954-984 | LZ4_compress_destSize: the same, and everything is consumed when the target is the worst case. |
| Lz4Block.DestSizeRoundTrip | app/src/main/cpp/lz4/lib/lz4.c:954-984 | For every target of at least one byte, what was consumed is what LZ4_decompress_safe gives back. |
| Lz4Stream.Compressor.Renorm | app/src/main/cpp/lz4/lib/lz4.c:1047-1063 | Renormalisation, at any source address and with the 32-bit wrap of its subtraction, leaves every table entry at the same distance behind the current position or out of reach of a match; it loses entries that were in reach if and only if the address is below a current offset of less than 64 KB, and then it loses all of them; the offset is at most 2^31 after it. |
| Lz4Stream.LosesCandidates | app/src/main/cpp/lz4/lib/lz4.c:1047-1063 | After any first block of less than 64 KB every entry is in reach, and none is any more once the next block lies at an address below its size. |
| Lz4Stream.Compressor.CompressContinue | app/src/main/cpp/lz4/lib/lz4.c:1066-1110 | Each block decodes to itself after everything that was compressed before it; the 32-bit offset never overflows, however many blocks there are; nothing is written from WriteEnd on, which is the limit for blocks of at most 134663 bytes with history and 134664 without. |
| Lz4Stream.BeyondTheLimit | app/src/main/cpp/lz4/lib/lz4.c:667-681 | With history, for every larger block there are a history and a limit for which it fails but has written beyond the limit. |
| Lz4Stream.Decompressor.DecompressContinue | app/src/main/cpp/lz4/lib/lz4.c:1406-1430 | For a destination behind the prefix or anywhere else that the dictionary does not overlap: decodes after the prefix, and after the external dictionary before it, which is the last prefix when the destination is elsewhere, and keeps track of both; a failed block keeps the prefix. |
| Lz4Stream.OneBlock | app/src/main/cpp/lz4/lib/lz4.c:1066-1110 | One block through compressor and decompressor keeps both ends in step. |
| Lz4Stream.StreamRoundTrip | app/src/main/cpp/lz4/lib/lz4.c:1406-1430 | Any number of non-empty blocks at any addresses are regenerated, all of them. |
| Lz4HcIndex.InsertKeepsTable | app/src/main/cpp/lz4/lib/lz4hc.c:100-118 | After an insertion the hash table still holds, for every hash, the last position that has it. |
| Lz4HcIndex.InsertKeepsChain | app/src/main/cpp/lz4/lib/lz4hc.c:100-118 | After an insertion the 64K-aliased 16-bit chain still leads from every position in reach to the previous one with the same hash, or out of reach when clipped. |
| Lz4HcIndex.Context.Insert | app/src/main/cpp/lz4/lib/lz4hc.c:100-118 | Inserting up to a position keeps both facts and moves nextToUpdate exactly there. |
| Lz4HcIndex.SameHash | app/src/main/cpp/lz4/lib/lz4hc.c:211-219 | Positions that share four bytes share the hash, so no candidate is on another chain. |
| Lz4HcIndex.SeenNext | app/src/main/cpp/lz4/lib/lz4hc.c:218-269 | Following one link skips no candidate. |
| Lz4HcIndex.LaterNext | app/src/main/cpp/lz4/lib/lz4hc.c:218-269 | One link down the chain, exactly one more position with the hash lies behind. |
| Lz4HcIndex.WalkEnd | app/src/main/cpp/lz4/lib/lz4hc.c:218-296 | When the attempts are used up, or the chain leaves the window, every position within distance 65535 with fewer others of the same hash behind it than there are attempts has been tried. |
| Lz4HcIndex.TriedAll | app/src/main/cpp/lz4/lib/lz4hc.c:218-296 | With as many attempts as there are positions within reach, the match is the longest of all. |
| Lz4HcIndex.WideCovers | app/src/main/cpp/lz4/lib/lz4hc.c:221-222 | The test on a single byte refuses no candidate that would give a longer match, extended both ways. |
| Lz4HcIndex.TryCandidate | app/src/main/cpp/lz4/lib/lz4hc.c:221-243 | A candidate replaces the best match exactly when the match it gives, extended both ways within the limits, is longer, and then by that match. |
| Lz4HcIndex.CountPattern | app/src/main/cpp/lz4/lib/lz4hc.c:134-163 | Counts exactly how far a four-byte pattern repeats. |
| Lz4HcIndex.ReverseCountPattern | app/src/main/cpp/lz4/lib/lz4hc.c:165-182 | Counts exactly how far the pattern repeats backwards, within the limit. |
| Lz4HcIndex.JumpPattern | app/src/main/cpp/lz4/lib/lz4hc.c:281-293 | The run of the pattern around a candidate is found in full; the jump goes to where as much of the pattern follows as at the current position, or to the start of the run, and never forwards. |
| Lz4HcIndex.Context.Next | app/src/main/cpp/lz4/lib/lz4hc.c:268-293 | The next candidate is the next of the chain, unless patterns are analysed, four equal bytes stand at the position, and the link is 1; then it is where the run of the pattern around the candidate lets the search jump to. |
| Lz4HcIndex.Context.InsertAndGetWiderMatch | app/src/main/cpp/lz4/lib/lz4hc.c:186-297 | For every number of attempts: any result longer than the given length is a real match that covers the position within the limits, and no candidate within reach that has fewer others with the hash behind it than there are attempts gives a longer one, extended both ways; the only exception are four equal bytes when patterns are analysed, where the latest candidate was tried. |
| Lz4HcEmit.RunGuardExact | app/src/main/cpp/lz4/lib/lz4hc.c:354-367 | The guard before the literals, with its estimate by length>>8, covers the length bytes, the literals as they are copied eight at a time and the offset, exactly for the runs for which these make at most eight bytes more than it counts. |
| Lz4HcEmit.RunGuardedUpTo | app/src/main/cpp/lz4/lib/lz4hc.c:354-367 | All runs up to n are such if and only if n is at most 5624. |
| Lz4HcEmit.EncodeSequence | app/src/main/cpp/lz4/lib/lz4hc.c:324-391 | Appends exactly one sequence, the literals from the anchor and the match, to the encoding; fails exactly when one of its two guards does, in limited output, and then the copied literals are there if the first did not; nothing is written beyond what the guards let pass. |
| Lz4HcEmit.SpillSuffices | app/src/main/cpp/lz4/lib/lz4hc.c:354-384 | Whatever the guards let pass is written at most Spill bytes beyond the limit: none up to 5637 bytes of input, one and one for every 64 KB of the limit for blocks with at most one byte more than the limit, else (n + 61185)/65280. |
| Lz4HcEmit.SparseMatch | app/src/main/cpp/lz4/lib/lz4hc.c:186-297 | In an input with two such places every match that may be coded is at one of them, of four bytes. |
| Lz4HcEmit.LastLiterals | app/src/main/cpp/lz4/lib/lz4hc.c:576-605 | The last literals complete the block, in exactly the bytes they take, if and only if they fit, and else nothing is written. |
| Lz4HcParser.FindWider | app/src/main/cpp/lz4/lib/lz4hc.c:445-450 | Every search the parser makes is at a position not behind nextToUpdate, and gives a usable match or none; none of the candidates that the attempts reach gives a longer one. |
| Lz4HcParser.CorrectKeeps | app/src/main/cpp/lz4/lib/lz4hc.c:474-490 | The correction of the second match leaves a usable match of at least four bytes that starts at least four bytes after the first and not more than one byte behind its end. |
| Lz4HcParser.StepSearch2 | app/src/main/cpp/lz4/lib/lz4hc.c:444-472 | Every path through Search2 keeps the invariant of the state it goes to, advances, and emits only sequences that spell the input. |
| Lz4HcParser.StepSearch3 | app/src/main/cpp/lz4/lib/lz4hc.c:474-573 | The same for every path through Search3, with up to three overlapping matches. |
| Lz4HcParser.SecondAfterFirst | app/src/main/cpp/lz4/lib/lz4hc.c:511-533 | When the third match replaces the second, the match that is saved is usable and starts behind the first. |
| Lz4HcParser.FirstOfThree | app/src/main/cpp/lz4/lib/lz4hc.c:543-573 | The first of three matches is shortened to a usable one that does not overlap the second, as corrected. |
| Lz4HcParser.AfterMain | app/src/main/cpp/lz4/lib/lz4hc.c:433-442 | Where there is no match the search finds none, and where the position before has the same four bytes it finds one, with every hash and number of attempts. |
| Lz4HcParser.RepetitionFound | app/src/main/cpp/lz4/lib/lz4hc.c:445-450 | On a text that repeats a first part in which nothing repeats, such that the chain leads back to its first position within the attempts, nothing is found before the repetition, and there all of it. |
| Lz4HcParser.CompressHashChain | app/src/main/cpp/lz4/lib/lz4hc.c:397-613 | For every input, hash and output limit: the output is at most n + n/255 + 16 bytes and at most the limit, and decodes to the input, or there is none and the limit is below the worst case; nothing is written beyond what the guards let pass; on an input with one or two matches whose second length does not fit, the literals before it are left behind; and such a repeated text becomes exactly the block with one match, or nothing if that does not fit. |
| Lz4Hc.CompressHC | app/src/main/cpp/lz4/lib/lz4hc.c:616-681 | At every compression level and capacity: zero only for inputs above the maximum or capacities below the bound, and always for inputs without a match that the capacity does not exceed; else the output is within capacity and bound and decodes to the input; a text that repeats its first part, within the attempts of the level, gives exactly the block with one match if that fits; nothing is written from WriteEnd on, which is the capacity for inputs of at most 5637 bytes. |
| Lz4Hc.BeyondTheLimit | app/src/main/cpp/lz4/lib/lz4hc.c:354-367 | For every larger size there is an input and a capacity for which the compressor fails but has written beyond the capacity, at every level and with every hash. |
| Lz4Hc.BlockEnd | app/src/main/cpp/lz4/lib/lz4frame.c:632-641 | A block of n bytes, at most 4 MB, with n - 1 as capacity, is written at most (n - 1)/65536 bytes beyond its own size. |
| Lz4Hc.FarthestWrite | app/src/main/cpp/lz4/lib/lz4frame.c:632-641 | And blocks of 64 KB, 256 KB, 1 MB and 4 MB can be: by 0, 3, 15 and 63 bytes, at every level and with every hash, and then they are stored. |
| Lz4Hc.HCRoundTrip | app/src/main/cpp/lz4/lib/lz4hc.c:672-696 | For every level, input, hash and capacity: what is produced, LZ4_decompress_safe turns back into the input; with the documented bound it is produced. |
| Lz4Opt.SequencePriceIsSize | app/src/main/cpp/lz4/lib/lz4opt.h:47-67 | The price of a sequence is the number of bytes its encoding takes. |
| Lz4Opt.FindLongerMatch | app/src/main/cpp/lz4/lib/lz4opt.h:78-95 | A match that is returned is longer than asked for, starts at the position, and may be encoded there; no candidate that the attempts reach gives a longer one. |
| Lz4Opt.FirstPrices | app/src/main/cpp/lz4/lib/lz4opt.h:148-182 | The first entries hold literals and all lengths of the first match with their prices, three literals follow, and every entry records a step that really ends there. |
| Lz4Opt.LiteralsAfter | app/src/main/cpp/lz4/lib/lz4opt.h:220-233 | Up to three literals replace an entry exactly where they are cheaper; no other entry changes. |
| Lz4Opt.MatchPrices | app/src/main/cpp/lz4/lib/lz4opt.h:235-277 | Each length of a new match replaces an entry exactly where it reaches further or costs no more; other entries up to the last position do not change; three literals follow; every entry still records a real step. |
| Lz4Opt.ReverseWalk | app/src/main/cpp/lz4/lib/lz4opt.h:283-302 | The in-place reversal visits exactly the chain back to position 0, and then the table, read forwards, is a path of real steps to the end. |
| Lz4Opt.PathFrame | app/src/main/cpp/lz4/lib/lz4opt.h:283-302 | A path depends only on the entries from its position on, so overwriting earlier ones keeps it. |
| Lz4Opt.ScanPositions | app/src/main/cpp/lz4/lib/lz4opt.h:184-281 | What the scan chooses is a real step, within the table, from a position that the recorded steps reach; if no other match starts inside the first, it is the first; no price rises; and a match within the attempts at the second position, if that is worth a search, that is longer than what is good enough is chosen at once. |
| Lz4Opt.EncodePath | app/src/main/cpp/lz4/lib/lz4opt.h:304-316 | Exactly the recorded matches are encoded, in order, each with the literals since the one before, unless the output is full. |
| Lz4Opt.PriceIsSize | app/src/main/cpp/lz4/lib/lz4opt.h:47-67 | The bytes that are emitted for a path are exactly the sum of the prices of its sequences. |
| Lz4Opt.CompressOptimal | app/src/main/cpp/lz4/lib/lz4opt.h:98-356 | For every input, hash and output limit, the output is within bound and limit and decodes to the input, or there is none and the limit is below the worst case; nothing is written beyond what the guards let pass; on an input with one or two matches as for the hash chain, and on a repeated text if its match is good enough to be taken at once; all table accesses are in range. |
| XxHash32.OneShot | app/src/main/cpp/lz4/lib/xxhash.c:269-323 | The pointer loop computes the hash as it is defined stripe by stripe. |
| XxHash32.StripesPrefix | app/src/main/cpp/lz4/lib/xxhash.c:384-440 | The accumulators after n stripes depend on those stripes only. |
| XxHash32.State.Reset | app/src/main/cpp/lz4/lib/xxhash.c:371-381 | A state in which nothing was given, with the seed. |
| XxHash32.State.CompleteStripe | app/src/main/cpp/lz4/lib/xxhash.c:384-440 | The buffered bytes and the first of the input form the next stripe. |
| XxHash32.State.WholeStripes | app/src/main/cpp/lz4/lib/xxhash.c:384-440 | All whole stripes of the input are absorbed; less than one stripe is left. |
| XxHash32.State.Update | app/src/main/cpp/lz4/lib/xxhash.c:384-440 | The state is that of the data given before followed by the input, for any input length. |
| XxHash32.State.Digest | app/src/main/cpp/lz4/lib/xxhash.c:454-487 | The digest is the one-shot hash of everything given, with the length modulo 2^32 and the sticky large_len. |
| XxHash32.Streamed | app/src/main/cpp/lz4/lib/xxhash.c:384-440 | For every seed and every partition of the data into updates, the digest equals the one-shot hash of the concatenation. |
| XxHash64.OneShot | app/src/main/cpp/lz4/lib/xxhash.c:629-695 | The pointer loop computes the hash as it is defined stripe by stripe. |
| XxHash64.StripesPrefix | app/src/main/cpp/lz4/lib/xxhash.c:753-806 | The accumulators after n stripes depend on those stripes only. |
| XxHash64.State.Reset | app/src/main/cpp/lz4/lib/xxhash.c:741-751 | A state in which nothing was given, with the seed. |
| XxHash64.State.CompleteStripe | app/src/main/cpp/lz4/lib/xxhash.c:753-806 | The buffered bytes and the first of the input form the next stripe. |
| XxHash64.State.WholeStripes | app/src/main/cpp/lz4/lib/xxhash.c:753-806 | All whole stripes of the input are absorbed; less than one stripe is left. |
| XxHash64.State.Update | app/src/main/cpp/lz4/lib/xxhash.c:753-806 | The state is that of the data given before followed by the input, for any input length. |
| XxHash64.State.Digest | app/src/main/cpp/lz4/lib/xxhash.c:818-867 | The digest is the one-shot hash of everything given. |
| XxHash64.Streamed | app/src/main/cpp/lz4/lib/xxhash.c:753-806 | For every seed and every partition of the data into updates, the digest equals the one-shot hash of the concatenation. |
| XxHash32.HashOfNothing | app/src/main/cpp/lz4/lib/xxhash.c:269-323 | The hash of no bytes, with seeds 0 and 1, as numbers. |
| XxHash32.HashOfThree | app/src/main/cpp/lz4/lib/xxhash.c:269-323 | The hash of the letters abc, byte by byte. |
| XxHash32.HashOfTwo | app/src/main/cpp/lz4/lib/xxhash.c:269-323 | The hash of two bytes that are a frame descriptor. |
| XxHash32.HashOf23 | app/src/main/cpp/lz4/lib/xxhash.c:269-323 | The hash of the bytes 0 to 22: one stripe, one word and three bytes. |
| XxHash32.HashOf32 | app/src/main/cpp/lz4/lib/xxhash.c:269-323 | The hash of the bytes 0 to 31 with seed 1: two stripes. |
| XxHash64.HashOfNothing | app/src/main/cpp/lz4/lib/xxhash.c:629-695 | The hash of no bytes, with seeds 0 and 1, as numbers. |
| XxHash64.HashOfThree | app/src/main/cpp/lz4/lib/xxhash.c:629-695 | The hash of the letters abc, byte by byte. |
| XxHash64.HashOf45 | app/src/main/cpp/lz4/lib/xxhash.c:629-695 | The hash of the bytes 0 to 44: one stripe, a word of eight bytes, one of four, and a byte. |
| XxHash64.HashOf64 | app/src/main/cpp/lz4/lib/xxhash.c:629-695 | The hash of the bytes 0 to 63 with seed 1: two stripes. |
| LzoFormat.ReadPiece | app/src/main/cpp/lzo/src/lzo1.c:206-236 | Each piece of a literal run (256<<k, R0FAST, short R0, normal) is read back as that piece, and the rest of the run follows. |
| LzoFormat.ReadWrittenMatch | app/src/main/cpp/lzo/src/lzo1.c:238-256 | A match, short or long, is read back with its offset and length, and is not taken for a literal run. |
| LzoFormat.RunSize | app/src/main/cpp/lzo/src/lzo1.c:272-316 | A run costs at most one byte and one more for every R0MIN + 3 literals. |
| LzoFormat.ChoicePlans | app/src/main/cpp/lzo/src/lzo1.c:364-563 | For any dictionary lookup, what the compressor chooses spells the input with real matches that can be coded. |
| LzoFormat.MatchIsReal | app/src/main/cpp/lzo/src/lzo1.c:389-509 | The measured match repeats the text at its offset and ends within the input. |
| LzoFormat.KnownPieces | app/src/main/cpp/lzo/src/lzo1.c:238-316 | The bytes of short and long matches for the three values of RBITS, and of runs in one and in several pieces. |
| LzoFormat.KnownChoice | app/src/main/cpp/lzo/src/lzo1.c:364-563 | Forty equal bytes, with the position before as candidate: one literal, one match of 36 bytes, three literals. |
| LzoEmit.MeasureMatch | app/src/main/cpp/lzo/src/lzo1.c:416-509 | The match is as long as the common prefix, up to the largest length that can be coded and the end of the input. |
| LzoEmit.StoreMatch | app/src/main/cpp/lzo/src/lzo1.c:447-526 | The two or three bytes of a match are those that the reader expects. |
| LzoEmit.CopyBack | app/src/main/cpp/lzo/src/lzo1.c:251-256 | The forward byte copy gives the periodic continuation, also when it overlaps. |
| Lzo1.StoreRun | app/src/main/cpp/lzo/src/lzo1.c:272-316 | The nested loops emit the greedy split of the run into pieces. |
| Lzo1.DecodeRun | app/src/main/cpp/lzo/src/lzo1.c:206-236 | A run in pieces decodes to its literals. |
| Lzo1.DecodePlan | app/src/main/cpp/lzo/src/lzo1.c:206-258 | A list of runs and matches that spells a text decodes to the text. |
| Lzo1.RoundTrip | app/src/main/cpp/lzo/src/lzo1.c:328-589 | For RBITS 3 to 5, every input and every dictionary lookup: decompression of the compressed data is the input. |
| Lzo1.Expansion | app/src/main/cpp/lzo/src/lzo1.c:328-589 | The compressed data have at most n + (n+3)/(R0MIN+3) + 1 bytes. |
| Lzo1.KnownBlock | app/src/main/cpp/lzo/src/lzo1.c:328-589 | They become nine given bytes. |
| Lzo1.ExactMissesNothing | app/src/main/cpp/lzo/src/lzo1.c:364-380 | The lookup that knows every earlier position finds one whenever three bytes in reach repeat; so the condition of the next two rows is that of a table that loses nothing. |
| Lzo1.WorstTotal | app/src/main/cpp/lzo/lzotest/lzotest.c:390-391 | For RBITS 3, a text of 4400 bytes whose only repeated triples are the intended ones exceeds the bound n + n/16 + 67 with every lookup that misses no repetition in reach. |
| Lzo1.TestBoundHolds | app/src/main/cpp/lzo/lzotest/lzotest.c:390-391 | The bound of the test program holds for all inputs and lookups if and only if RBITS is at least 4, and also for all that miss no repetition if and only if RBITS is at least 4. |
| Lzo1.Compress | app/src/main/cpp/lzo/src/lzo1.c:328-589 | The loop over pointers writes that encoding, within that size. |
| Lzo1.Decompress | app/src/main/cpp/lzo/src/lzo1.c:192-265 | The loop over pointers computes that decoding for well-formed data. |
| Lzo1.CompressDecompress | app/src/main/cpp/lzo/src/lzo1.c:596-618 | Both together give the input back. |
| Lzo1a.DecodeR1 | app/src/main/cpp/lzo/src/lzo1a.c:173-189 | A patched three-byte match and its literal, read in the after-literal loop, decode to those four bytes, and the loop goes on. |
| Lzo1a.DecodeRun | app/src/main/cpp/lzo/src/lzo1a.c:138-172 | A literal run in pieces decodes to its literals, and leaves the decoder in its after-literal loop exactly if its last piece is shorter than R0FAST. |
| Lzo1a.DecodePlan | app/src/main/cpp/lzo/src/lzo1a.c:138-226 | A list of runs and matches, with single literals folded into the match before them, decodes to the text; the markers that the after-literal loop reads as R1 are exactly those that were patched. |
| Lzo1a.RoundTrip | app/src/main/cpp/lzo/src/lzo1a.c:245-584 | For every input and every dictionary lookup: decompression of the compressed data is the input, every patched marker is read in the after-literal loop, and no other marker is read as one there. |
| Lzo1a.Expansion | app/src/main/cpp/lzo/src/lzo1a.c:245-584 | The compressed data have at most n + (n+3)/(R0MIN+3) + 1 bytes. |
| Lzo1a.KnownBlock | app/src/main/cpp/lzo/src/lzo1a.c:245-584 | Forty equal bytes become nine given bytes. |
| Lzo1a.KnownFold | app/src/main/cpp/lzo/src/lzo1a.c:327-347 | The bytes of a match of three bytes and one literal that are folded. |
| Lzo1a.StoreRun | app/src/main/cpp/lzo/src/lzo1a_cr.ch:43-107 | The run is split as by lzo1.c, though the loops are others. |
| Lzo1a.PatchMatch | app/src/main/cpp/lzo/src/lzo1a.c:327-347 | Masking the marker two bytes back and appending the literal turns a match of three bytes into the folded form. |
| Lzo1a.PutRun | app/src/main/cpp/lzo/src/lzo1a.c:322-385 | A run of one literal directly behind a three-byte match is folded, and only such a run. |
| Lzo1a.CompressLoop | app/src/main/cpp/lzo/src/lzo1a.c:281-564 | The loop with its back-patching writes the encoding that was defined without it, and the set of patched positions is exactly the one defined. |
| Lzo1a.Compress | app/src/main/cpp/lzo/src/lzo1a.c:245-584 | The whole compressor, within the bound. |
| Lzo1a.Decompress | app/src/main/cpp/lzo/src/lzo1a.c:123-233 | The two nested loops compute that decoding for well-formed data. |
| Lzo1a.CompressDecompress | app/src/main/cpp/lzo/src/lzo1a.c:591-640 | Both together give the input back. |
| FrameFormat.HeaderParsed | app/src/main/cpp/lz4/lib/lz4frame.c:998-1082 | A header that is written for any valid settings has the size its flags say, passes all checks and is read back as those settings. |
| FrameFormat.OnlySpelledParsed | app/src/main/cpp/lz4/lib/lz4frame.c:1027-1082 | The converse: whatever is read as a header is, byte for byte, what spells its settings with its two flags; so every reserved bit, the version, the block size and the checksum are tested. |
| FrameFormat.ParsedIsWritten | app/src/main/cpp/lz4/lib/lz4frame.c:1027-1082 | A header that is read, and announces no number that is 0, is the one that is written for its settings. |
| FrameFormat.WrongChecksum | app/src/main/cpp/lz4/lib/lz4frame.c:1060-1065 | With any other last byte, a written header is refused. |
| FrameFormat.KnownHeader | app/src/main/cpp/lz4/lib/lz4frame.c:565-592 | The seven bytes of the header for independent blocks of 64 KB without checksums. |
| FrameFormat.KnownNumbers | app/src/main/cpp/lz4/lib/lz4frame.c:104-148 | Numbers of four and eight bytes are written with their lowest byte first. |
| FrameFormat.DecodedRecent | app/src/main/cpp/lz4/lib/lz4frame.c:1139-1194 | The last 64 KB of what was decoded are as good as all of it: every block decodes to the same bytes. |
| FrameFormat.RunConcat | app/src/main/cpp/lz4/lib/lz4frame.c:1240-1617 | The byte machine of the format does not care how its input is cut. |
| FrameFormat.StrictOrFails | app/src/main/cpp/lz4/lib/lz4frame.c:1240-1617 | Where the machine that insists on blocks that any decoder accepts and the lenient one differ, the strict one refuses a byte before the end of the frame. |
| FrameFormat.CollectRun | app/src/main/cpp/lz4/lib/lz4frame.c:1258-1272 | Any field, however its bytes arrive, is judged when it is complete and not before. |
| FrameFormat.RawRun | app/src/main/cpp/lz4/lib/lz4frame.c:1355-1388 | An uncompressed block is its content, in parts of any size; the announced size counts down modulo 2^64. |
| FrameFormat.SkipRun | app/src/main/cpp/lz4/lib/lz4frame.c:1605-1615 | A skippable frame is skipped in parts of any size and ends with its last byte. |
| FrameHistory.Appended | app/src/main/cpp/lz4/lib/lz4frame.c:1163-1193 | Moving and appending history in the internal buffer keeps the last 64 KB (or all) of it. |
| FrameHistory.KeptFlushing | app/src/main/cpp/lz4/lib/lz4frame.c:1625-1637 | Copying history in front of a block that is only partly flushed keeps the last 64 KB, of which the flushed part belongs to the block. |
| FrameHistory.KeptIdle | app/src/main/cpp/lz4/lib/lz4frame.c:1638-1648 | Copying the last 64 KB to the start of the internal buffer keeps the history. |
| FrameWindow.DecompressUsingDict | app/src/main/cpp/lz4/lib/lz4.c:1468-1478 | With any dictionary that ends with the recent history, directly before the destination or elsewhere, the block decodes to what all of the history gives; it is refused only if some placement refuses it. |
| FrameWindow.Window.UpdateDict | app/src/main/cpp/lz4/lib/lz4frame.c:1139-1194 | Whatever was given to the user is added to the history, in the user's buffer or the internal one; every copy stays inside. |
| FrameWindow.Window.Dictionary | app/src/main/cpp/lz4/lib/lz4frame.c:1451-1492 | Whenever a block is decoded, `dict` and `dictSize`, in the user's buffer or the internal one, give bytes whose last 64 KB, or all of them, are those decoded last in the frame. |
| FrameWindow.Window.DecodeToDst | app/src/main/cpp/lz4/lib/lz4frame.c:1441-1471 | At every block decode the dictionary is the recent history; the block decodes into the user's buffer and joins the history. |
| FrameWindow.Window.DecodeToTmp | app/src/main/cpp/lz4/lib/lz4frame.c:1473-1503 | The same when the block must go to the internal buffer: it lies behind at least the recent history, and inside. |
| FrameWindow.Window.Flush | app/src/main/cpp/lz4/lib/lz4frame.c:1505-1523 | As much of the block as there is room for is given to the user, and the history remains right half-way through the block. |
| FrameWindow.Window.KeepIdle | app/src/main/cpp/lz4/lib/lz4frame.c:1638-1648 | Between calls the history no longer depends on the user's buffer. |
| FrameWindow.Window.KeepFlushing | app/src/main/cpp/lz4/lib/lz4frame.c:1625-1637 | The same while a block is being flushed. |
| FrameDecoder.Dctx.DecodeHeader | app/src/main/cpp/lz4/lib/lz4frame.c:998-1082 | Accepts and refuses exactly the headers of the format, including skippable ones and those not complete yet; with OnlySpelledParsed, nothing but written headers. |
| FrameDecoder.Dctx.AtGetFrameHeader | app/src/main/cpp/lz4/lib/lz4frame.c:1245-1256 | This stage does what the machine does with the bytes it takes; so do the other thirteen. |
| FrameDecoder.Dctx.AtStoreFrameHeader | app/src/main/cpp/lz4/lib/lz4frame.c:1258-1272 | The header collected in parts: first the smallest, then what its flags ask for. |
| FrameDecoder.Dctx.AtInit | app/src/main/cpp/lz4/lib/lz4frame.c:1274-1298 | Buffers are large enough for this frame and for history; nothing else changes. |
| FrameDecoder.Dctx.AtGetBlockHeader | app/src/main/cpp/lz4/lib/lz4frame.c:1300-1353 | The block header, if it is all there. |
| FrameDecoder.Dctx.DecodeBlockHeader | app/src/main/cpp/lz4/lib/lz4frame.c:1327-1353 | End mark, stored and compressed blocks are told apart; too large a block is refused; a wrong announced size will be refused. |
| FrameDecoder.Dctx.AtCopyDirect | app/src/main/cpp/lz4/lib/lz4frame.c:1355-1388 | Bytes of a stored block go to the user, the hashes, the count and the history. |
| FrameDecoder.Dctx.AtGetBlockChecksum | app/src/main/cpp/lz4/lib/lz4frame.c:1389-1414 | The checksum of a stored block is compared when its four bytes are there. |
| FrameDecoder.Dctx.AtGetCBlock | app/src/main/cpp/lz4/lib/lz4frame.c:1416-1503 | A compressed block that is wholly in the input is decoded there. |
| FrameDecoder.Dctx.AtStoreCBlock | app/src/main/cpp/lz4/lib/lz4frame.c:1427-1503 | A compressed block that comes in parts is collected and then decoded. |
| FrameDecoder.Dctx.DecodeBlock | app/src/main/cpp/lz4/lib/lz4frame.c:1441-1503 | Checksum and content of a compressed block, into the user's buffer or the internal one. |
| FrameDecoder.Dctx.AtFlushOut | app/src/main/cpp/lz4/lib/lz4frame.c:1505-1523 | Giving out a decoded block is not a step of the format; the stage ends or the user's buffer is full. |
| FrameDecoder.Dctx.AtGetSuffix | app/src/main/cpp/lz4/lib/lz4frame.c:1525-1567 | The announced size must have been reached, and the content checksum must match. |
| FrameDecoder.Dctx.AtStoreSuffix | app/src/main/cpp/lz4/lib/lz4frame.c:1543-1567 | The content checksum in parts. |
| FrameDecoder.Dctx.AtStoreSFrameSize | app/src/main/cpp/lz4/lib/lz4frame.c:1581-1603 | The size of a skippable frame in parts. |
| FrameDecoder.Dctx.AtSkipSkippable | app/src/main/cpp/lz4/lib/lz4frame.c:1605-1615 | A skippable frame is skipped, and the frame is complete with its last byte. |
| FrameDecoder.Dctx.OneStage | app/src/main/cpp/lz4/lib/lz4frame.c:1243-1616 | Each stage follows the machine, and takes input, gives output, or goes to a stage of lower rank: the loop terminates on every input. |
| FrameDecoder.Dctx.Decompress | app/src/main/cpp/lz4/lib/lz4frame.c:1216-1654 | One call, for any input and any room: the bytes taken run the machine of the format; what it decoded is what was given out so far and what is still pending; the call ends only when the input is used up, the room is full or the frame is complete; it returns 0 exactly in the last case; with input and room it makes progress; it fails only if the strict machine refuses one of the bytes before the end of the frame, and then the buffers can still be used after a reset. |
| FrameDecoder.Dctx.Reset | app/src/main/cpp/lz4/lib/lz4frame.c:957-962 | In the middle of a frame or after any error, a new frame can follow; but what was left of the announced size is kept. |
| FrameBlocks.GoodIsRobust | app/src/main/cpp/lz4/lib/lz4frame.c:1441-1503 | A block that LZ4_decompress_safe decodes without history is accepted wherever the decoder's history is and however much of it is kept. |
| FrameBlocks.BlockRun | app/src/main/cpp/lz4/lib/lz4frame.c:632-651 | The machine takes a block as it is written, stored or compressed, with or without checksum, as its content. |
| FrameBlocks.BlocksRun | app/src/main/cpp/lz4/lib/lz4frame.c:713-807 | Any number of blocks, and the announced size is counted down by all of them. |
| FrameBlocks.FrameRun | app/src/main/cpp/lz4/lib/lz4frame.c:858-885 | A whole frame is taken, to the contents of its blocks and with nothing left, if and only if its announced size is right modulo 2^64, or it announces none and none is left from an earlier frame. |
| FrameBlocks.ResetIsNotClean | app/src/main/cpp/lz4/lib/lz4frame.h:383-388 | Reset is documented to return to a clean state, but after the header of a frame that announces its size, any frame that announces none is refused, though a new context takes it. |
| FrameBlocks.NotBeforeTheEnd | app/src/main/cpp/lz4/lib/lz4frame.c:1525-1567 | No proper part of a frame is a complete frame. |
| FrameBlocks.WrongBlockChecksum | app/src/main/cpp/lz4/lib/lz4frame.c:1401-1451 | Whatever a block is, stored or compressed, it is refused with any checksum that is not that of its data. |
| FrameBlocks.BlockTooLong | app/src/main/cpp/lz4/lib/lz4frame.c:1334-1335 | A block header whose size is above the block size of the frame is refused. |
| FrameBlocks.WrongContentChecksum | app/src/main/cpp/lz4/lib/lz4frame.c:1558-1562 | The end of a frame is refused with any checksum that is not that of the content. |
| FrameBound.RoomIsBound | app/src/main/cpp/lz4/lib/lz4frame.c:277-303 | The closed form of the bound is what cutting into full blocks, and one for the rest when flushing, takes at most. |
| FrameBound.OptimalBSID | app/src/main/cpp/lz4/lib/lz4frame.c:257-269 | The loop finds the smallest of the IDs up to the requested one whose blocks hold the whole input, or the requested one if none does. |
| FrameBound.OptimalChoice | app/src/main/cpp/lz4/lib/lz4frame.c:257-269 | The chosen ID is valid and not above the requested one; if it is below, its blocks hold all of the input; and no smaller one has blocks that do. |
| FrameBound.OptimalFits | app/src/main/cpp/lz4/lib/lz4frame.c:305-369 | The bound for the chosen block size never exceeds the bound for the caller's own preferences. |
| FrameBound.PublicBoundSuffices | app/src/main/cpp/lz4/lib/lz4frame.c:614-623 | The bound that a caller can compute covers whatever is buffered. |
| FrameBound.WithoutPrefs | app/src/main/cpp/lz4/lib/lz4frame.c:271-289 | The bound without preferences is documented to be the worst case. For all sizes and all that can be buffered, it covers given preferences if and only if, without autoFlush, blocks are 64 KB and have no checksums, and with it, blocks have no checksums, or are larger and the content has none. |
| FrameMakeBlock.CompressAt | app/src/main/cpp/lz4/lib/lz4frame.c:632-641 | At every level, what the selected compressor leaves behind the block header, with one byte less capacity, is nothing, or shorter and decodes to the block; nothing if the block has no match; something if it repeats its first part and that fits, and at the fast levels exactly the bytes of the one match; it writes nothing from Reach on, which for the fast levels is the capacity. |
| FrameMakeBlock.FinishBlock | app/src/main/cpp/lz4/lib/lz4frame.c:642-651 | Whatever compressor left nothing or something shorter: header, data and checksum of a block with the given content, in exactly the overhead and its data. |
| FrameMakeBlock.MakeBlock | app/src/main/cpp/lz4/lib/lz4frame.c:632-651 | In place: the block has the given content and takes at most its size and the overhead; it is stored if it has no match, and compressed if it repeats its first part and that fits; nothing is written from MadeEnd on, and the blocks of 1 MB and 4 MB that are written farthest are written to there. |
| FrameMakeBlock.MadeEndBound | app/src/main/cpp/lz4/lib/lz4frame.c:632-651 | That is at most the overhead, the size and BlockSpill bytes more, for every block up to the block size. |
| FrameMakeBlock.KeepsExactly | app/src/main/cpp/lz4/lib/lz4frame.c:277-303 | The bytes that may be written beyond the bound of a call, Spill, are none if and only if the level is below 3 or blocks have 64 KB or 256 KB, whatever the checksums. |
| FrameEncoder.Cctx.Begin | app/src/main/cpp/lz4/lib/lz4frame.c:499-596 | The header for the preferences; fails exactly below 19 bytes of room; the context is in a frame with nothing given. |
| FrameEncoder.Cctx.CompleteBuffer | app/src/main/cpp/lz4/lib/lz4frame.c:733-755 | What is buffered and the start of the input become a block, or all of it stays buffered; no byte is lost. |
| FrameEncoder.Cctx.FromSource | app/src/main/cpp/lz4/lib/lz4frame.c:757-773 | Full blocks from the input; less than a block is left, nothing with autoFlush; returned and written is what the bound allows for, and BlockSpill bytes more. |
| FrameEncoder.Cctx.Update | app/src/main/cpp/lz4/lib/lz4frame.c:713-807 | Fails exactly outside a frame or below the bound; else returns at most the bound less the end of the frame, and what was returned so far is the header and good blocks that, with the buffer, hold all that was given; less than a block is only buffered; nothing is written beyond the bound and Spill bytes more, which are none for the preferences above. |
| FrameEncoder.UpdateBeyondTheBound | app/src/main/cpp/lz4/lib/lz4frame.c:713-807 | For all other preferences there is an input of one block for which it writes beyond the bound, whatever the hash. |
| FrameEncoder.Cctx.Flush | app/src/main/cpp/lz4/lib/lz4frame.c:818-846 | Everything buffered becomes one more block, and exactly the bytes of that block are returned, whatever room there is; it fails exactly when something is buffered and the context is outside a frame or the room is less than that and four bytes; all of the room for a flush is used if the content has no match; nothing is written from FlushEnd on. |
| FrameEncoder.FitsExactly | app/src/main/cpp/lz4/lib/lz4frame.c:818-885 | Whatever becomes of t buffered bytes, what a flush returns fits in cap if and only if cap >= t + 4, and 4 more with block checksums (0 for t = 0), and that of a flush and the end of the frame if and only if there are 4 more, and 4 more with a content checksum. |
| FrameEncoder.FlushWritesMore | app/src/main/cpp/lz4/lib/lz4frame.c:826-829 | For every number of buffered bytes and every room that the flush accepts and that is less than this, there is a content for which it returns more than the room. |
| FrameEncoder.EndWritesMore | app/src/main/cpp/lz4/lib/lz4frame.c:858-876 | The same for the end of the frame, which also accepts no room at all when nothing is buffered. |
| FrameEncoder.SmallestOverflows | app/src/main/cpp/lz4/lib/lz4frame.c:818-885 | One buffered byte, block checksums and room for five: nine are written. Nothing buffered and no room: four, or eight. |
| FrameEncoder.Cctx.End | app/src/main/cpp/lz4/lib/lz4frame.c:858-885 | The output is a whole frame that contains exactly what was given, and is exactly the flushed block, the end mark and the checksum; fails exactly when flushing does or the announced size is wrong, whatever room there is; nothing is written from EndEnd on. |
| FrameEncoder.Cctx.BoundFits | app/src/main/cpp/lz4/lib/lz4frame.c:609-623 | The documented bound for no input is exactly the room for what a flush and the end return, and they write at most Spill bytes beyond it. |
| FrameEncoder.CompressFrame | app/src/main/cpp/lz4/lib/lz4frame.c:327-383 | One-shot, at every level: never fails with the bound for the caller's own preferences, returns at most that, and the frame contains the input; nothing is written beyond the bound and FrameSpill bytes more. |
| FrameEncoder.FrameKeepsExactly | app/src/main/cpp/lz4/lib/lz4frame.c:305-369 | These are none for every size of input if and only if the level is below 3, or blocks have 64 KB or 256 KB, or 1 MB and the header is so short, or the checksums so many, that 15 bytes are covered. |
| FrameEncoder.FrameBeyondTheBound | app/src/main/cpp/lz4/lib/lz4frame.c:327-383 | For all other preferences there is an input of one full block for which the bytes beyond the bound are written, whatever the hash. |
| FrameRoundTrip.Encode | app/src/main/cpp/lz4/lib/lz4frame.c:713-885 | Any sequence of updates and flushes, then the end, gives a frame of what was given; it fails if and only if an announced size is wrong modulo 2^64. |
| FrameRoundTrip.Piece | app/src/main/cpp/lz4/lib/lz4frame.c:1240-1617 | A decoder that has taken part of a frame does not fail on any further part of the stream, whatever follows the frame. |
| FrameRoundTrip.Taken | app/src/main/cpp/lz4/lib/lz4frame.c:1240-1617 | It takes no byte beyond the frame, and the frame is complete exactly when all of it was taken. |
| FrameRoundTrip.Receive | app/src/main/cpp/lz4/lib/lz4frame.c:1216-1654 | One call with any part of the stream, also none, and any room, also none, keeps: no error, a prefix of the content given out, 0 returned exactly at the last byte of the frame. |
| FrameRoundTrip.Decode | app/src/main/cpp/lz4/lib/lz4frame.c:1216-1654 | Any calls that offer a byte and room for a byte come to the end of the frame, with all of its content and not a byte further. |
| FrameRoundTrip.RoundTrip | app/src/main/cpp/lz4/lib/lz4frame.c:1216-1654 | For independent blocks at every level, and an announced size that is absent or exact: any updates and flushes, any cutting of the stream, any room, anything after the frame: out comes what was put in, and exactly the frame is consumed. |
| FrameRoundTrip.OneShotRoundTrip | app/src/main/cpp/lz4/lib/lz4frame.c:327-383 | The same for a frame made in one go, which is also not longer than the bound for the caller's preferences. |

## Left out

- Lz4Decoder.DecompressGeneric: of a negative result only the sign is specified, and the tests for pointer overflow are not modelled.
- Lz4Block.CompressFast: acceleration is at most 65536, so that it does not wrap when shifted. The array reaches to WriteEnd, as otherwise there is no telling what is overwritten.
- Lz4Stream.Compressor.CompressContinue: blocks follow each other in memory; other placements and dictionaries given by the user depend on the caller's memory.
- Lz4Stream.Decompressor.DecompressContinue: the dictionary does not overlap the destination; ring buffers depend on the caller's memory.
- Lz4HcIndex.Context.InsertAndGetWiderMatch: for four equal bytes, when patterns are analysed, only the latest candidate is known to be tried; the code skips others and does not promise the longest match.
- Lz4Hc.CompressHC: one segment; the destination-size mode and external dictionaries repeat what is proved for the fast compressor. The array reaches to WriteEnd.
- Lz4Opt.ScanPositions: what is found behind the second position is only known to lower prices; the parser does not promise the optimum.
- Lz4Match.Count: the count-trailing-zeros intrinsic is taken to give the first differing byte.
- Lzo1.Decompress: only for well-formed data, as the source checks nothing but the end of the input; its return code is not modelled.
- Lzo1a.Decompress: the same.
- LzoFormat.Find: the dictionary is an arbitrary function of position and attempt, filtered by the reach test and the comparison of three bytes; its updates and hashes are not modelled.
- XxHash64.State.Digest: for less than 2^64 bytes, the width of the length.
- FrameDecoder.Dctx.Decompress: of the size hint only whether it is zero; user buffers are not adjacent to the internal one; allocation does not fail; with a prefix of exactly 65535 bytes the source also admits one byte before it, which cannot be referred to.
- FrameWindow.Window.UpdateDict: the branches that only a preset dictionary can reach.
- FrameEncoder.Cctx.Update: independent blocks only; linked blocks in the encoder depend on the caller's memory. The hash state is the bytes it was given, as justified by `XxHash32.Streamed`. The array reaches as far as is written.
- FrameEncoder.FitsExactly: for the bytes returned; what the high levels write beyond them is bounded by FlushEnd and EndEnd, exactly only for full blocks.
- FrameBound.CompressBound: the number of blocks does not wrap at 32 bits.
- The options stableSrc and stableDst, preset and compiled dictionaries, `LZ4F_getFrameInfo`.
- Partial decoding, `LZ4_decompress_fast` and the deprecated functions.
- `LZ4_saveDict`, `LZ4_loadDict` and external dictionaries in compressors.
- Big-endian byte order and unaligned access.
- The other LZO algorithms, whose bodies are in files that are not part of this model.
- The native interface of the application, its logging, signatures and sockets, and the command-line programs: foreign calls and input and output.
