# The state machines of the download core, verified

A model of the parts of this aria2 fork whose behaviour is hard to see from one function: the block
allocator of a segmented download, two incremental parsers, the cookie store, the store of HTTP
credentials, the choking of a seeder, the multitracker list, and the compare-and-swap gate that
decides which connection writes a block.

Code that changes objects in place is a class with the same fields, and its methods are proved
against functions on values; what a component promises is then proved about those functions, for
every input, every run or every interleaving. `dafny verify dfyconfig.toml` checks everything.

| files | component | main results |
|---|---|---|
| `Bitfield`, `BlockLengths`, `SparseSelector`, `OtherSelectors`, `BitfieldMan`, `Allocation` | block allocator | the three selectors are given exactly and are safe and complete; no block ever has two holders; a selector hands out every free block exactly once; cached totals equal recomputation; byte-range arithmetic counts bytes |
| `BencodeValues`, `BencodeMachine`, `BencodeParser`, `BencodeTexts`, `BencodeRoundTrip`, `BencodeSoundness`, `BencodePrefix`, `BencodeLanguage` | bencoding, BEP 3 | cutting the input changes nothing; the canonical encoding of a value is accepted exactly when the value fits; the accepted language is known exactly; in every reachable state, in error or not, the callbacks are properly nested: the first ones of a value |
| `ChunkedMachine`, `ChunkedFilter`, `ChunkedLanguage`, `ChunkedSoundness` | chunked transfer coding, section 4.1 of RFC 7230 | cutting the input changes nothing; the accepted language is exactly the messages, and the output is their payload |
| `Cookies`, `CookieNodes`, `CookieOrder`, `CookieStorage` | cookie store, RFC 6265 | over whole runs a trie with an index by use refines a flat list of cookies, for storing, eviction of the least recently used domains, and lookup; when the order of a lookup is that of the RFC |
| `Credentials`, `AuthConfigFactory` | basic credentials, section 2.2 of RFC 7617 | the search in an ordered set is a longest-prefix search; nothing stored is ever lost or changed |
| `SeederChoke` | unchoke scheduler | the comparison is a sort order because of one clock; how many peers are served, which, and never more than five |
| `Announce`, `AnnounceRuns`, `AnnounceEvents`, `AnnounceList` | multitracker list, BEP 12 | failures walk through every URL once; success leads its tier; which trackers are told of the start, the completion and the stop, and that this ends |
| `ClaimHistory`, `BlockTracker`, `GateHistory`, `EngineRuns`, `EngineTracker` | first write wins | in every interleaving, who wins is determined by the history, and at most one does between resets |
| `Text`, `Options`, `Sorting` | shared | positions in a text, optional values, and std::sort for a strict weak ordering |

## Model

| member | source | states |
|---|---|---|
| `Bitfield.PutBit` | libaria2/src/BitfieldMan.cc:578-591 | writing one bit of the packed field changes that bit and no other |
| `Bitfield.TestIsShift` | libaria2/src/bitfield.h:69-75 | bit 0 of a field is the top bit of its first byte |
| `Bitfield.UnavailableBit` | libaria2/src/BitfieldMan.cc:303-320 | the lazy array expression excludes a block exactly when it is ignored, outside the enabled filter, finished or in use |
| `Bitfield.CountSetBit` | libaria2/src/bitfield.h:98-121 | the count by 32-bit words with a masked last byte is the number of set bits among the first nbits |
| `Bitfield.CountSetBitSlow` | libaria2/src/bitfield.h:125-145 | the byte-wise count is the number of set bits among the first nbits |
| `Bitfield.OnesArePlaces` | libaria2/src/bitfield.h:98-145 | what the two counts count: the blocks whose bit is set |
| `Bitfield.TestAllBitSet` | libaria2/src/BitfieldMan.cc:633-644 | testAllBitSet is true exactly when all blocks are set and the spare bits of the last byte are clear |
| `Bitfield.PutKeepsSpareBits` | libaria2/src/BitfieldMan.cc:578-591 | writing the bit of a block leaves the spare bits alone |
| `Bitfield.SpareBitsMatter` | libaria2/src/BitfieldMan.cc:633-650 | one block and the byte 0xff: all blocks are set, and a spare bit is too |
| `BlockLengths.BlockLengthIs` | libaria2/src/BitfieldMan.cc:131-152 | the length of a block is that of its part of the file, cut off at the end, and 0 behind it |
| `BlockLengths.CountedIsMarked` | libaria2/src/BitfieldMan.cc:799-838 | counting blocks and correcting for a short last one is the sum of getBlockLength over the marked blocks |
| `BlockLengths.AllBlocksAreTotal` | libaria2/src/BitfieldMan.cc:136-152 | with positive lengths the lengths of all blocks add up to totalLength |
| `BlockLengths.LengthIsBytes` | libaria2/src/BitfieldMan.cc:799-838 | the sum of the lengths of the marked blocks is the number of bytes of the file that lie in them |
| `BlockLengths.MarkedBytesSplit` | libaria2/src/BitfieldMan.cc:919-950 | the number of finished bytes is additive over adjacent ranges |
| `BlockLengths.MarkedBytesCounted` | libaria2/src/BitfieldMan.cc:919-950 | the number of finished bytes of a range is the number of the bytes in it whose block is finished |
| `BlockLengths.AllBytesMarked` | libaria2/src/BitfieldMan.cc:898-917 | the finished bytes fill a range exactly when every byte lies in a finished block |
| `SparseSelector.GetStartIndex` | libaria2/src/BitfieldMan.cc:215-228 | the next free block at or behind an index, with none skipped |
| `SparseSelector.GetEndIndex` | libaria2/src/BitfieldMan.cc:231-239 | the end of the stretch of free blocks from an index on |
| `SparseSelector.GetSparseMissingUnusedIndex` | libaria2/src/BitfieldMan.cc:242-300 | the start of the best candidate: largest maximal free run, cut to its upper half behind a block in use, ties by placement; refused exactly when it is not block 0, follows no finished idle block and is shorter than minSplitSize |
| `SparseSelector.SparseByRuns` | libaria2/src/BitfieldMan.cc:242-300 | in terms of runs of free blocks: a run offers all its blocks or, behind a block in use, the upper half; the run that offers most is chosen, of several the first that offers all its blocks, else the first; the answer is its first block or its middle, refused exactly if it is a half that makes less than minSplitSize |
| `SparseSelector.SparseIsSafe` | libaria2/src/BitfieldMan.cc:242-300 | an index handed out by the sparse selector is a free block in range |
| `SparseSelector.SparseIsComplete` | libaria2/src/BitfieldMan.cc:274-299 | with nothing in use, or minSplitSize at most one block, the sparse selector succeeds exactly when a free block exists |
| `SparseSelector.SparseIsDetermined` | libaria2/src/BitfieldMan.cc:254-272 | the sparse selector has only one best candidate |
| `OtherSelectors.WindowsCover` | libaria2/src/BitfieldMan.cc:330-351 | every block from the offset on lies in a window of the geometric selector, for every base above 1 |
| `OtherSelectors.WindowsAreDisjoint` | libaria2/src/BitfieldMan.cc:330-351 | no block lies in two windows of the geometric selector |
| `OtherSelectors.GetGeomMissingUnusedIndex` | libaria2/src/BitfieldMan.cc:322-355 | the geometric selector terminates with the first free block of the first window in which a free block comes before any block in use, else with the sparse answer |
| `OtherSelectors.GeomByWindows` | libaria2/src/BitfieldMan.cc:322-355 | if in some window a free block comes before any block in use, that block of the first such window is handed out, otherwise the sparse selector decides |
| `OtherSelectors.GeomIsSafe` | libaria2/src/BitfieldMan.cc:322-355 | an index handed out by the geometric selector is a free block in range |
| `OtherSelectors.GeomIsComplete` | libaria2/src/BitfieldMan.cc:322-355 | with nothing in use, or minSplitSize at most one block, the geometric selector succeeds exactly when a free block exists |
| `OtherSelectors.GetInorderMissingUnusedIndex` | libaria2/src/BitfieldMan.cc:379-423 | the in-order selector answers the first block of the range if available, else what is taken from the first run that is long enough or follows a finished idle block |
| `OtherSelectors.InorderByBlocks` | libaria2/src/BitfieldMan.cc:379-423 | in terms of blocks: the first one of the range, or a free block behind a finished or excluded idle one, or the block that completes minSplitSize bytes of free blocks behind one in use; every run of free blocks that is passed over begins behind a block in use and is too short |
| `OtherSelectors.InorderIsSafe` | libaria2/src/BitfieldMan.cc:379-423 | an index handed out by the in-order selector is a free block in range |
| `OtherSelectors.InorderIsComplete` | libaria2/src/BitfieldMan.cc:379-423 | with minSplitSize at most one block, a search of any range succeeds exactly when a block it looks at is available, and answers with such a block |
| `OtherSelectors.InorderFindsFirst` | libaria2/src/BitfieldMan.cc:379-423 | with minSplitSize at most one block, no available block from startIndex on is passed over |
| `OtherSelectors.InorderStaysInRange` | libaria2/src/BitfieldMan.cc:403-414 | the in-order answer lies in its range, unless the range is empty, or minSplitSize is more than one block and no more than the blocks behind the first one of a range that ends before the file |
| `OtherSelectors.InorderLeavesRange` | libaria2/src/BitfieldMan.cc:387-414 | for every empty range inside the file, and for every range that ends before the file with a minSplitSize of more than one block and no more than the blocks behind its first one, some bit fields make the in-order selector answer at or behind endIndex |
| `BitfieldMan.MissingOnes` | libaria2/src/BitfieldMan.cc:556-566 | the missing blocks are the filter minus the finished ones in it, or all minus the finished ones |
| `BitfieldMan.BitfieldMan.constructor` | libaria2/src/BitfieldMan.cc:47-71 | nothing finished, in use or filtered, no spare bit set, and correct caches, for any lengths |
| `BitfieldMan.BitfieldMan.Copy` | libaria2/src/BitfieldMan.cc:73-95 | a copy has the same fields, spare bits included, in new arrays; a filter that is present but disabled is dropped |
| `BitfieldMan.CopyForgetsFilter` | libaria2/src/BitfieldMan.cc:73-95 | a manager with one block and that block in its disabled filter: after enabling their filters it counts one filtered block and its copy none |
| `BitfieldMan.BitfieldMan.UpdateCache` | libaria2/src/BitfieldMan.cc:863-870 | afterwards all five cached totals equal their definition over the blocks |
| `BitfieldMan.BitfieldMan.TotalsAre` | libaria2/src/BitfieldMan.cc:799-870 | what the five cached totals are after any call: the number of missing blocks inside the enabled filter, of filtered blocks, and of the bytes of the file that are finished, filtered, and finished inside the enabled filter |
| `BitfieldMan.BitfieldMan.GetCompletedLengthOf` | libaria2/src/BitfieldMan.cc:816-851 | the sum of the lengths of the finished blocks, inside the filter if asked for and enabled |
| `BitfieldMan.BitfieldMan.GetFilteredTotalLengthNow` | libaria2/src/BitfieldMan.cc:799-814 | the sum of the lengths of the blocks in the filter |
| `BitfieldMan.BitfieldMan.CountMissingBlockNow` | libaria2/src/BitfieldMan.cc:556-566 | the number of blocks that are missing and inside the enabled filter |
| `BitfieldMan.BitfieldMan.CountFilteredBlockNow` | libaria2/src/BitfieldMan.cc:568-576 | the number of blocks in the enabled filter |
| `BitfieldMan.BitfieldMan.SetBitInternal` | libaria2/src/BitfieldMan.cc:578-591 | changes one block; refuses indexes behind the last one |
| `BitfieldMan.BitfieldMan.SetUseBit` | libaria2/src/BitfieldMan.cc:593-596 | marks one block as in use and keeps the caches valid |
| `BitfieldMan.BitfieldMan.UnsetUseBit` | libaria2/src/BitfieldMan.cc:598-601 | takes one block out of use and keeps the caches valid |
| `BitfieldMan.BitfieldMan.SetBit` | libaria2/src/BitfieldMan.cc:603-608 | finishes one block, leaves the spare bits alone and keeps the caches valid |
| `BitfieldMan.BitfieldMan.UnsetBit` | libaria2/src/BitfieldMan.cc:610-615 | makes one block missing, leaves the spare bits alone and keeps the caches valid |
| `BitfieldMan.BitfieldMan.SetBitfield` | libaria2/src/BitfieldMan.cc:680-689 | takes over a field of the right length, spare bits included, and clears all use; ignores any other; caches stay valid |
| `BitfieldMan.BitfieldMan.ClearAllBit` | libaria2/src/BitfieldMan.cc:691-695 | nothing is finished, no spare bit is set, caches valid |
| `BitfieldMan.BitfieldMan.SetAllBit` | libaria2/src/BitfieldMan.cc:697-703 | everything is finished, the spare bits are as they were, and the cached completed length is then totalLength |
| `BitfieldMan.BitfieldMan.ClearAllUseBit` | libaria2/src/BitfieldMan.cc:705-709 | nothing is in use, caches valid |
| `BitfieldMan.BitfieldMan.SetAllUseBit` | libaria2/src/BitfieldMan.cc:711-716 | everything is in use, caches valid |
| `BitfieldMan.BitfieldMan.AddFilter` | libaria2/src/BitfieldMan.cc:731-742 | adds exactly the blocks that share a byte with the byte range |
| `BitfieldMan.BitfieldMan.RemoveFilter` | libaria2/src/BitfieldMan.cc:744-755 | removes exactly the blocks that share a byte with the byte range |
| `BitfieldMan.BitfieldMan.AddNotFilter` | libaria2/src/BitfieldMan.cc:757-774 | adds exactly the blocks that share no byte with the byte range, unless that is empty |
| `BitfieldMan.BitfieldMan.EnableFilter` | libaria2/src/BitfieldMan.cc:776-781 | the filter counts from now on, unchanged; caches valid |
| `BitfieldMan.BitfieldMan.DisableFilter` | libaria2/src/BitfieldMan.cc:783-787 | the filter is kept but no longer counts; caches valid |
| `BitfieldMan.BitfieldMan.ClearFilter` | libaria2/src/BitfieldMan.cc:789-797 | the filter is gone; caches valid |
| `BitfieldMan.BitfieldMan.SetBitRange` | libaria2/src/BitfieldMan.cc:890-896 | finishes the blocks of a closed index range and no others, and changes no spare bit |
| `BitfieldMan.BitfieldMan.UnsetBitRange` | libaria2/src/BitfieldMan.cc:882-888 | makes the blocks of a closed index range missing and no others, and changes no spare bit |
| `BitfieldMan.BitfieldMan.IsAllBitSet` | libaria2/src/BitfieldMan.cc:647-650 | isAllBitSet is true exactly when all blocks are finished and no spare bit is set |
| `BitfieldMan.Complete` | libaria2/src/BitfieldMan.cc:647-703 | isAllBitSet is true for a new manager once all its blocks have been set |
| `BitfieldMan.CompleteByField` | libaria2/src/BitfieldMan.cc:633-689 | isAllBitSet is true for a field taken over exactly when all its blocks and none of its spare bits are set |
| `BitfieldMan.BitfieldMan.GetOffsetCompletedLength` | libaria2/src/BitfieldMan.cc:919-950 | the number of bytes of the clipped range whose block is finished, counted byte by byte, and 0 behind the end; for a negative length, as long as the loop stays inside the field, the length itself or the finished bytes of the rest of one block and the beginning of an earlier one |
| `BitfieldMan.BitfieldMan.IsBitSetOffsetRange` | libaria2/src/BitfieldMan.cc:898-917 | true exactly when the clipped range is not empty and all its bytes lie in finished blocks |
| `BitfieldMan.BitfieldMan.BusyField` | libaria2/src/BitfieldMan.cc:303-320 | the blocks a selector must not hand out |
| `BitfieldMan.BitfieldMan.GetSparseMissingUnusedIndex` | libaria2/src/BitfieldMan.cc:303-320 | the sparse answer over the blocks that are not ignored, filtered out, finished or in use; what is found is free |
| `BitfieldMan.BitfieldMan.GetGeomMissingUnusedIndex` | libaria2/src/BitfieldMan.cc:358-377 | the geometric answer over the blocks that are not ignored, filtered out, finished or in use; what is found is free |
| `BitfieldMan.BitfieldMan.GetInorderMissingUnusedIndex` | libaria2/src/BitfieldMan.cc:445-463 | the in-order answer over the blocks that are not ignored, filtered out, finished or in use, with the end of the range cut to the block count; what is found is free |
| `BitfieldMan.BitfieldMan.GetRandomMissingUnusedIndex` | libaria2/src/RandomStreamPieceSelector.cc:48-71 | the random selector searches in order from a random block to the end, else before it, else over all blocks |
| `OtherSelectors.RandomFindsNext` | libaria2/src/RandomStreamPieceSelector.cc:48-71 | with minSplitSize at most one block, the random selector takes the next available block from the random one on, wraps around at the end, and fails exactly when no block is available |
| `BitfieldMan.AnswerIsSafe` | libaria2/src/BitfieldMan.cc:244-463 | an index handed out by any of the selectors is a free block |
| `BitfieldMan.AnswerIsComplete` | libaria2/src/BitfieldMan.cc:244-463 | with minSplitSize at most one block, a selector fails exactly when no block it reaches is free |
| `BitfieldMan.BitfieldMan.Acquire` | libaria2/src/BitfieldMan.cc:244-463 | a selector call and setUseBit make exactly the block that the selector answers busy, or nothing |
| `BitfieldMan.BitfieldMan.Drain` | libaria2/src/BitfieldMan.cc:244-463 | without releases and with minSplitSize at most one block, each selector hands out every free block it reaches exactly once and then runs dry; only the ranged one does not reach all blocks |
| `Allocation.NoTwoHolders` | libaria2/src/BitfieldMan.cc:593-615 | in every run of grants, releases and completions, a block has been released between two grants of it |
| `Allocation.StaysInUse` | libaria2/src/BitfieldMan.cc:593-601 | a granted block stays in use until it is released, whatever else happens |
| `Allocation.AnsweredIsLegal` | libaria2/src/BitfieldMan.cc:244-463 | an answer of any selector is missing, unused, not ignored and inside the enabled filter |
| `Allocation.Serve` | libaria2/src/BitfieldMan.cc:244-615 | every mix of selector calls, releases and completions on a manager is a legal run: each request gets the answer of its selector over its own ignore field, or the release or completion it asked for if in range, so each index handed out was missing, unused, not ignored and inside the enabled filter |
| `BencodeMachine.OverflowGuardIsExact` | libaria2/src/BencodeParser.cc:207-214 | the guard before multiplying refuses exactly the digits that lead above INT64_MAX |
| `BencodeMachine.SplitInvariance` | libaria2/src/BencodeParser.cc:77-270 | any way of cutting the input into calls gives the same state, stack, bytes consumed or error code, and callbacks |
| `BencodeMachine.StaysInError` | libaria2/src/BencodeParser.cc:77-86 | an error state answers every further input with its code |
| `BencodeParser.DigitRun` | libaria2/src/BencodeParser.cc:207-226 | the digit loop equals taking the digits one at a time, overflow included |
| `BencodeParser.BencodeParser.OnValueEnd` | libaria2/src/BencodeParser.cc:321-345 | moves to what the enclosing list, dictionary or document expects; its assertion cannot fail |
| `BencodeParser.BencodeParser.PushState` | libaria2/src/BencodeParser.cc:347-356 | refuses the 51st entry and then changes nothing |
| `BencodeParser.BencodeParser.ParseUpdate` | libaria2/src/BencodeParser.cc:77-270 | the fall-through loop with its bulk reads equals the byte-by-byte machine: state, stack, joined callbacks and result |
| `BencodeParser.BencodeParser.ParseFinal` | libaria2/src/BencodeParser.cc:272-282 | parseFinal equals parseUpdate, but reports premature data unless a value is complete or nothing has come |
| `BencodeParser.BencodeParser.Reset` | libaria2/src/BencodeParser.cc:284-293 | reset leads to the initial state, whatever the number fields still hold |
| `BencodeParser.BencodeParser.ParsePieces` | libaria2/src/BencodeParser.cc:77-270 | feeding pieces through the class equals one call with all of them joined |
| `BencodeRoundTrip.RoundTrip` | libaria2/src/BencodeParser.cc:77-356 | the canonical encoding of a value, with anything behind it, gives exactly the callbacks of the value, finishes and consumes exactly the encoding if integers, lengths and nesting fit, and the error code of the first obstacle if they do not |
| `BencodeTexts.CanonicalIs` | libaria2/src/BencodeParser.cc:77-356 | the canonical encoding is one of the texts that the parser takes for its value |
| `BencodeRoundTrip.TextIsRead` | libaria2/src/BencodeParser.cc:77-356 | every text of a value, with bytes before the sign or the first digit, leading zeros, floating-point tails and entries in any order, and with anything behind it, gives exactly the callbacks of the value and is consumed exactly if numerals, lengths and nesting fit; if they do not, the result is the error code of the first numeral, length or level that is too much |
| `BencodeRoundTrip.SampleIsRead` | libaria2/src/BencodeParser.cc:77-365 | a dictionary with one entry, a list of a negative number and a string, byte by byte: its nineteen callbacks in order |
| `BencodeRoundTrip.DeepestNesting` | libaria2/src/BencodeParser.cc:347-356 | up to fifty lists inside each other are read, more are refused as too deep |
| `BencodeSoundness.ByteKeepsNesting` | libaria2/src/BencodeParser.cc:295-345 | every byte, accepted or refused, keeps the stack and the callbacks properly nested |
| `BencodeSoundness.ReachableIsNested` | libaria2/src/BencodeParser.cc:284-365 | from any nested state, feeding pieces up to the first failure ends in a nested one |
| `BencodeSoundness.PressedIsNested` | libaria2/src/BencodeParser.cc:77-365 | from any nested state, feeding pieces whatever each call returns ends in a nested one |
| `BencodeSoundness.ReachedIsNested` | libaria2/src/BencodeParser.cc:63-365 | in every state that any calls lead to from the start, in error or not, the stack and the callbacks are properly nested |
| `BencodePrefix.NestedIsPrefix` | libaria2/src/BencodeParser.cc:295-345 | properly nested callbacks are the first ones of some value |
| `BencodePrefix.CallbacksArePrefix` | libaria2/src/BencodeParser.cc:63-447 | whatever is fed in whatever pieces, errors or not, the callbacks so far are the first ones of some value |
| `BencodePrefix.CallbacksMatch` | libaria2/src/BencodeParser.cc:63-447 | in every state that any calls lead to, each end callback closes the element that was begun last |
| `BencodeSoundness.AcceptedIsOneValue` | libaria2/src/BencodeParser.cc:77-345 | whatever run finishes, from any nested state and with errors on its way or not, produced the callbacks of exactly one value that fits, and parsing its canonical encoding leads to the same state |
| `BencodeLanguage.ByteExplained` | libaria2/src/BencodeParser.cc:87-268 | every byte taken keeps the text so far the beginning of a text, with the stack and the number fields for what is open |
| `BencodeLanguage.AcceptsExactly` | libaria2/src/BencodeParser.cc:77-270 | the accepted language: parsing finishes after n bytes exactly when these are a text of a value whose numerals, lengths and nesting fit, and the callbacks are then those of the value; a text that does not fit gives the error code of its first obstacle |
| `BencodeLanguage.Decode` | libaria2/src/BencodeParser.cc:63-282 | the parser, fed an input in any pieces, finishes exactly when the input begins with a text that fits; the result is then the length of the text and the callbacks are those of its value, and for a text that does not fit it is the error code of the first obstacle |
| `BencodeLanguage.ErrorsStick` | libaria2/src/BencodeParser.cc:95-98 | every error is remembered except a structure that is too deep, which leaves the parser where it was |
| `BencodeLanguage.RefusedBytes` | libaria2/src/BencodeParser.cc:87-268 | which bytes are refused in which state, and with which of the eight error codes |
| `BencodeLanguage.TooDeepGoesOn` | libaria2/src/BencodeParser.cc:141-144 | after a structure that is too deep parsing continues: a closing byte is taken |
| `BencodeRoundTrip.SkipsBeforeNumber` | libaria2/src/BencodeParser.cc:189-206 | bytes before the sign or the first digit of a number are skipped |
| `BencodeRoundTrip.FloatIsZero` | libaria2/src/BencodeParser.cc:225-266 | a number in floating-point notation is read to its end and reported as 0 |
| `ChunkedMachine.GuardIsExact` | libaria2/src/ChunkedDecodingStreamFilter.cc:81-216 | the mask test of a chunk size refuses exactly the digits that lead to 2^63 or above |
| `ChunkedMachine.HexDigitsAre` | libaria2/src/ChunkedDecodingStreamFilter.cc:93-126 | the hexadecimal digits of both cases and their values |
| `ChunkedMachine.SplitInvariance` | libaria2/src/ChunkedDecodingStreamFilter.cc:81-216 | any way of cutting a chunked input gives the same decoder, output, byte count and outcome |
| `ChunkedFilter.ChunkedDecodingStreamFilter.Transform` | libaria2/src/ChunkedDecodingStreamFilter.cc:81-216 | a buffer is decoded as if its bytes had come one at a time; the delegate gets exactly the output, and the result is its length |
| `ChunkedFilter.ChunkedDecodingStreamFilter.TransformPieces` | libaria2/src/ChunkedDecodingStreamFilter.cc:81-216 | the total of bytesProcessed does not depend on how the input is cut |
| `ChunkedLanguage.ReadSize` | libaria2/src/ChunkedDecodingStreamFilter.cc:93-126 | a chunk size is accepted exactly when its value is below 2^63 |
| `ChunkedLanguage.DecodesMessage` | libaria2/src/ChunkedDecodingStreamFilter.cc:81-221 | every message with CR-free extensions and trailers is decoded to its joined chunks, stopping right behind it whatever follows |
| `ChunkedLanguage.Sample` | libaria2/src/ChunkedDecodingStreamFilter.cc:81-221 | a message byte by byte, with leading zeros, an extension and a trailer line: ten bytes of data come out |
| `ChunkedSoundness.AcceptsOnlyMessages` | libaria2/src/ChunkedDecodingStreamFilter.cc:81-221 | completion means that exactly one message, with CR-free extensions and trailers, was read, and the output is its payload |
| `ChunkedSoundness.Decode` | libaria2/src/ChunkedDecodingStreamFilter.cc:81-221 | the filter, fed a message in any buffers, is finished exactly when a whole message has come, and its delegate then has the payload of that message and nothing else |
| `Cookies.SplitAtDot` | libaria2/src/CookieStorage.cc:234-245 | a dot separates the labels of a domain, and empty labels are dropped |
| `Cookies.MatchIsOnTheWay` | libaria2/src/CookieStorage.cc:233-245 | a cookie that matches a host is kept on the way from the root to that host exactly when its domain is the host, is not numeric or has no dot |
| `Cookies.NumericDomainIsMissed` | libaria2/src/Cookie.cc:82-96 | a cookie for the numeric domain 1.2.3.4 that is not host-only matches the host a.1.2.3.4 and is not kept on the way to it |
| `CookieNodes.DomainNode.AddCookie` | libaria2/src/CookieStorage.cc:83-139 | the cookies of a domain after one more is offered, exactly: an unexpired cookie takes the place and the creation time of its predecessor, an expired one erases it; a new one is added, and a full bucket of 50 first gives up all its expired cookies or, without any, one least recently used |
| `CookieNodes.OfferedKey` | libaria2/src/CookieStorage.cc:83-139 | the key of an offered cookie is in its bucket afterwards exactly when the cookie is unexpired |
| `CookieStorage.CookieStorage.OneNodePerRoute` | libaria2/src/CookieStorage.cc:198-214 | the trie has one node for each sequence of labels |
| `CookieStorage.CookieStorage.FindNode` | libaria2/src/CookieStorage.cc:377-385 | finds the node of a domain exactly when it exists |
| `CookieStorage.CookieStorage.GetOrCreate` | libaria2/src/CookieStorage.cc:280-290 | the node of a domain; the nodes added on the way are empty and untracked |
| `CookieStorage.CookieStorage.UpdateLru` | libaria2/src/CookieStorage.cc:298-308 | afterwards the tracker holds exactly the nodes flagged inLru, each under its current time |
| `CookieStorage.CookieStorage.EvictNode` | libaria2/src/CookieStorage.cc:250-270 | exactly the cleared nodes lose their cookies: tracked ones, at most delnum and no fewer unless nothing is left to track, none with a later time of use than a survivor; the tracker never refers to a removed node, and the root stays |
| `CookieStorage.CookieStorage.Store` | libaria2/src/CookieStorage.cc:274-296 | true exactly when the cookie is not persistent or has not expired, and a cookie with its domain, path and name is stored exactly then; a full tracker of 2000 domains first loses at most a tenth of them, the least recently used; then the domain of the cookie takes the offer as addCookie does, and no other domain changes; the domain of a cookie that is taken counts as used at that time and no other domain does; the invariant holds |
| `CookieStorage.StoredKey` | libaria2/src/CookieStorage.cc:274-296 | after a store, seen on the flat list, the key of the cookie is there exactly when the cookie was taken |
| `CookieStorage.StoredInFields` | libaria2/src/CookieStorage.cc:83-139 | a store in the fields of the cookies: one with the same domain, path and name gives way and passes its creation time on; otherwise the cookie is added, and a domain that holds 50 first gives up all that have expired or, if none has, one that was not used after any other |
| `CookieStorage.CookieStorage.Contains` | libaria2/src/CookieStorage.cc:388-392 | true exactly when a stored cookie has the same domain, path and name |
| `CookieStorage.CookieStorage.KeysAreUnique` | libaria2/src/CookieStorage.cc:83-139 | no two stored cookies share domain, path and name |
| `CookieStorage.CookieStorage.Size` | libaria2/src/CookieStorage.cc:426-433 | counting the tracked nodes counts every stored cookie |
| `CookieStorage.CookieStorage.FindCookie` | libaria2/src/CookieStorage.cc:68-81 | the matching cookies of a node, which are marked as used |
| `CookieOrder.BeforeIsStrictWeak` | libaria2/src/CookieStorage.cc:354-374 | the comparison by depth and creation time is a legal sort order |
| `CookieOrder.DepthCountsSegments` | libaria2/src/CookieStorage.cc:319-336 | the depth of a path is the number of its non-empty segments |
| `CookieOrder.DepthOfLonger` | libaria2/src/CookieStorage.cc:319-336 | of two paths that match a request the longer one is never less deep, and just as deep exactly when it only has more slashes at its end |
| `CookieOrder.LongerFirstExactly` | libaria2/src/CookieStorage.cc:354-374 | what is sorted by depth is sorted by length, as section 5.4 of RFC 6265 asks, exactly when no path stands before one that only has more slashes at its end |
| `CookieOrder.LongerFirstByTimes` | libaria2/src/CookieStorage.cc:354-374 | of paths sorted by depth, longer ones come first if of every two that only differ in slashes at the end the longer one was created first, and not if some shorter one was |
| `CookieOrder.ShorterPathFirst` | libaria2/src/CookieStorage.cc:354-374 | for the request /a/b, /a created first stands before /a/ |
| `CookieOrder.SortByPath` | libaria2/src/CookieStorage.cc:416-424 | a permutation, deepest path first and earliest creation first among equals |
| `CookieStorage.CookieStorage.CriteriaFind` | libaria2/src/CookieStorage.cc:394-424 | refines a scan of the flat list, stated in the fields of the cookies: every stored cookie is returned exactly once if it is not secure or the request is, has not expired, its path is the request path or covers it up to a slash, and its domain is the host or, unless it is host-only, the host is not numeric and ends in a dot and the domain, which is no dotted numeric one; no other is returned; deepest path first and earliest first among equals, where longer paths come first exactly when no path stands before one that only has more slashes at its end, which the creation times of the stored cookies decide; the returned cookies and the domains on the way to the host count as used at that time, and nothing else changes |
| `CookieStorage.OrderOfFound` | libaria2/src/CookieStorage.cc:354-424 | whether a lookup returns longer paths first is decided by the creation times of the stored cookies it finds whose paths only differ in slashes at the end |
| `CookieStorage.CookieStorage.Serve` | libaria2/src/CookieStorage.cc:250-424 | every run of stores, lookups and evictions refines steps on a flat list: each call first gives up whole domains, none of which was used after one that is kept according to the calls so far, and then stores or finds as above; the invariant of trie and tracker and unique keys hold |
| `CookieStorage.LastUse` | libaria2/src/CookieStorage.cc:298-413 | the time that eviction goes by is that of the last call that stored an unexpired cookie in the domain or looked up a host in it |
| `CookieStorage.GivenUpWasUsedBefore` | libaria2/src/CookieStorage.cc:250-308 | as long as the clock does not go backwards, whenever a domain that is evicted was stored to or looked up, every domain that is kept was so at that time or later, in the run or before it |
| `Credentials.LessIsTotal` | libaria2/src/AuthConfigFactory.cc:220-230 | of two credentials one comes first exactly when they are not equal |
| `Credentials.LessIsTransitive` | libaria2/src/AuthConfigFactory.cc:225-230 | the order of the set is transitive |
| `Credentials.CoversWholeSegments` | libaria2/src/AuthConfigFactory.cc:202-214 | a credential stored for a path covers requests for that host and port whose path is that path or lies below it, and never a longer name; written without the closing slash or with it |
| `Credentials.NoneBefore` | libaria2/src/AuthConfigFactory.cc:236-237 | no credential before the lower bound of a request covers its path |
| `Credentials.FirstIsLongest` | libaria2/src/AuthConfigFactory.cc:238-244 | the first match in the order of the set has the longest path |
| `Credentials.InsertedIsValid` | libaria2/src/AuthConfigFactory.cc:167-176 | insertion keeps the set strictly ordered |
| `AuthConfigFactory.AuthConfigFactory.FindBasicCred` | libaria2/src/AuthConfigFactory.cc:232-246 | in the fields of the credentials: the one of that host and port with the longest stored path that is a prefix of the request path closed by a slash, and the end exactly when there is none |
| `AuthConfigFactory.AuthConfigFactory.UpdateBasicCred` | libaria2/src/AuthConfigFactory.cc:167-176 | inserts unless a credential with the same key is there; nothing stored changes |
| `AuthConfigFactory.StoredExactlyWhenNewOrSame` | libaria2/src/AuthConfigFactory.cc:167-176 | after updateBasicCred the given credential is stored exactly when its key was new or it was stored already |
| `AuthConfigFactory.PasswordIsNotReplaced` | libaria2/src/AuthConfigFactory.cc:170-171 | a new password for a stored key is dropped |
| `AuthConfigFactory.ActivationCovers` | libaria2/src/AuthConfigFactory.cc:178-200 | after an activation the path is served by an active credential, every path below is covered and nothing is lost |
| `AuthConfigFactory.AuthConfigFactory.ActivateBasicCred` | libaria2/src/AuthConfigFactory.cc:178-200 | true exactly when a credential covers the path or the resolver offers one: the longest covering one becomes active, or a new one with the user and password offered is added for the path; then the lookup succeeds for that path and all below |
| `AuthConfigFactory.CoverIsKept` | libaria2/src/AuthConfigFactory.cc:167-200 | a path once covered stays covered, with everything below it |
| `AuthConfigFactory.AuthConfigFactory.ChallengedConfig` | libaria2/src/AuthConfigFactory.cc:63-81 | a user in the request is returned and offered to the store; otherwise the longest match answers, unless its user is empty |
| `AuthConfigFactory.AuthConfigFactory.Serve` | libaria2/src/AuthConfigFactory.cc:59-200 | over every run nothing stored is lost or changed but for activation, and covered paths stay covered |
| `SeederChoke.LessIsStrictWeak` | libaria2/src/BtSeederStateChoke.cc:58-113 | entries taken at one wallclock are ordered strictly and weakly, as std::sort demands |
| `SeederChoke.LessMeans` | libaria2/src/BtSeederStateChoke.cc:95-113 | at one wallclock: outstanding uploads first, then the most recently unchoked, then the fastest |
| `SeederChoke.WithoutOneClock` | libaria2/src/BtSeederStateChoke.cc:95-113 | three entries with flags from different clocks for which the comparison is not transitive |
| `SeederChoke.FrontIsBest` | libaria2/src/BtSeederStateChoke.cc:124-134 | the peers at the front are as many as places, and none behind comes before one of them |
| `SeederChoke.BtSeederStateChoke.Unchoke` | libaria2/src/BtSeederStateChoke.cc:120-151 | gives 3 or, in round 2, 4 regular places by merit; in rounds 0 and 1 one more to a peer of the rest, and leaves no other optimistic flag |
| `SeederChoke.BtSeederStateChoke.Gather` | libaria2/src/BtSeederStateChoke.cc:158-171 | every active peer is choked, the uninterested lose their optimistic place, and the interested are listed once each |
| `SeederChoke.BtSeederStateChoke.ExecuteChoke` | libaria2/src/BtSeederStateChoke.cc:153-178 | in the fields of the peers, with n active interested ones: rounds 0 and 1 clear chokingRequired for exactly min(n, 3) and make one other optimistic if n > 3; round 2 clears chokingRequired for exactly min(n, 4) and leaves the optimistic flags of interested peers; served are peers with outstanding uploads before others, then those unchoked in the last 20 seconds, latest first, then the fastest; inactive peers are untouched |
| `SeederChoke.BtSeederStateChoke.Run` | libaria2/src/BtSeederStateChoke.cc:153-178 | over any number of rounds, with peers that come, go and change their interest and figures in between, at most one peer is optimistic and at most five are unchoked |
| `Announce.EventsSettle` | libaria2/src/AnnounceTier.cc:46-78 | the table of events: an answer settles a pending event, a failing tier keeps only a pending start; a tier can be told of the stop once its start was answered and until the stop is settled, and of the completion only if its start was answered before and both are still to come |
| `Announce.CountOfParts` | libaria2/src/AnnounceList.cc:208-218 | every tier that allows the event counts once, and no other |
| `AnnounceRuns.PlaceIsSelected` | libaria2/src/AnnounceList.cc:97-105 | the selected URL is the one at the current place of the list of all URLs |
| `AnnounceRuns.FailureAdvances` | libaria2/src/AnnounceList.cc:119-135 | a failure selects the next URL in tier order, and behind the last one all tiers have failed; it changes the event of a tier only with its last URL |
| `AnnounceRuns.FailuresVisitEachOnce` | libaria2/src/AnnounceList.cc:85-135 | from a reset, n failures select URL number n of all tiers, and all tiers have failed after exactly their total |
| `AnnounceRuns.SuccessMovesToFront` | libaria2/src/AnnounceList.cc:107-117 | the URL that answered leads its tier, the others keep their order, other tiers do not change, and the first tier comes next |
| `AnnounceRuns.AnswerIsTriedFirst` | libaria2/src/AnnounceList.cc:107-135 | after a success, once the earlier tiers fail, the URL that answered is tried first in its tier |
| `AnnounceRuns.RunKeepsPool` | libaria2/src/AnnounceList.cc:85-257 | whatever is called in whatever order, each tier keeps its URLs and the iterators stay inside |
| `AnnounceRuns.MoveFindsAllowed` | libaria2/src/AnnounceList.cc:220-241 | moving to an allowed tier finds the nearest one from the current tier on, cyclically; without one the current tier starts over |
| `AnnounceRuns.MoveDoesNotRevive` | libaria2/src/AnnounceList.cc:220-241 | after the move the event can be sent exactly when an URL was selected before it and some tier allows it |
| `AnnounceEvents.AdjustedFor` | libaria2/src/DefaultBtAnnounce.cc:119-133 | for a stop or a completion the list goes to a tier that allows the event, the current one if it does, and sets the event there and nowhere else |
| `AnnounceEvents.AdjustWhen` | libaria2/src/DefaultBtAnnounce.cc:79-145 | there is something to announce exactly when a halting download has a tier to tell of the stop, a finished one a tier to tell of the completion, or the interval has passed; the stop goes before the completion, and that before what is pending at the selected tier, where a start of a finished download becomes a start after completion |
| `AnnounceEvents.AdjustKeeps` | libaria2/src/DefaultBtAnnounce.cc:117-145 | an announce changes the event of the announced tier at most: to a stop, a completion or a start after completion, each only if the tier is due for it; a plain start is never announced by a finished download |
| `AnnounceEvents.OutcomePays` | libaria2/src/TrackerWatcherCommand.cc:236-263 | whatever the outcome of an announce that carries a stop or a completion, at least one of the announces owed is settled |
| `AnnounceEvents.HaltingEnds` | libaria2/src/DefaultBtAnnounce.cc:386-390 | a halting download announces the stop to every tier that has answered a start and no stop, until the tier answers or all its URLs have failed, and is through after at most as many turns as there are URLs |
| `AnnounceEvents.CompletionIsTold` | libaria2/src/DefaultBtAnnounce.cc:127-133 | a finished download announces the completion to every tier that has answered a start before, until the tier answers or all its URLs have failed, and sends no more completed events after at most as many turns as there are URLs |
| `AnnounceEvents.CompletedFollowsStart` | libaria2/src/DefaultBtAnnounce.cc:127-141 | over any run the completed event goes to a tier only after that has answered a start that was sent before the download was finished |
| `AnnounceEvents.CompletedOnce` | libaria2/src/DefaultBtAnnounce.cc:127-141 | a tier that has answered the completed event, or was started after the completion, never gets the completed event afterwards |
| `AnnounceEvents.StoppedFollowsStart` | libaria2/src/DefaultBtAnnounce.cc:119-126 | over any run the stopped event goes to a tier only after that has answered a start |
| `AnnounceEvents.SomethingIsOwed` | libaria2/src/DefaultBtAnnounce.cc:88-92 | the number of announces owed is positive while some tier allows the event, and never more than there are URLs |
| `AnnounceList.AnnounceTier.NextEvent` | libaria2/src/AnnounceTier.cc:46-64 | the event after an answer |
| `AnnounceList.AnnounceTier.NextEventIfAfterStarted` | libaria2/src/AnnounceTier.cc:66-78 | the event after the last URL of a tier failed |
| `AnnounceList.AnnounceTier.Shuffle` | libaria2/src/AnnounceList.cc:243-250 | a permutation of the URLs, for any random draws |
| `AnnounceList.AnnounceList.ResetIterator` | libaria2/src/AnnounceList.cc:85-95 | the first URL of the first tier is selected, or none |
| `AnnounceList.AnnounceList.Reconfigure` | libaria2/src/AnnounceList.cc:63-76 | appends a tier for each list that is not empty, so that the URLs of the lists follow those there are, and resets |
| `AnnounceList.FreshInOrder` | libaria2/src/AnnounceList.cc:66-74 | the new tiers come list by list in the order given, each with its URLs and still to be started |
| `AnnounceList.AnnounceList.AnnounceSuccess` | libaria2/src/AnnounceList.cc:107-117 | announceSuccess refines the success of the state machine |
| `AnnounceList.AnnounceList.AnnounceFailure` | libaria2/src/AnnounceList.cc:119-135 | announceFailure refines the failure of the state machine |
| `AnnounceList.AnnounceList.SetEvent` | libaria2/src/AnnounceList.cc:147-152 | changes the event of the current tier, if an URL is selected |
| `AnnounceList.AnnounceList.CountAllowed` | libaria2/src/AnnounceList.cc:208-218 | the number of tiers that allow the event |
| `AnnounceList.AnnounceList.MoveToAllowedTier` | libaria2/src/AnnounceList.cc:220-241 | the two moves refine the move of the state machine |
| `AnnounceList.AnnounceList.Shuffle` | libaria2/src/AnnounceList.cc:243-250 | each tier keeps its URLs, and nothing else changes |
| `ClaimHistory.WinnersByHistory` | temp_workspace/PieceBlockTracker.h:14-23 | in the tracker of temp_workspace a request succeeds exactly when nothing was requested or finished since the last reset of the block, and a write exactly when a successful request waits for it |
| `ClaimHistory.AtMostOneWinner` | temp_workspace/PieceBlockTracker.h:14-23 | in every interleaving, between two resets at most one request and at most one write succeed |
| `ClaimHistory.WriteFollowsRequest` | temp_workspace/PieceBlockTracker.h:18-21 | a write that succeeds follows a request that succeeded, with no reset in between |
| `ClaimHistory.FirstContenderWins` | temp_workspace/PieceBlockTracker.h:14-21 | among contenders for a block that nobody resets or finishes, the first one wins and no other |
| `ClaimHistory.ExactlyOneWinner` | temp_workspace/PieceBlockTracker.h:14-21 | among contenders for a block that nobody resets or finishes exactly one wins |
| `BlockTracker.PieceBlockTracker.Serve` | temp_workspace/PieceBlockTracker.h:8-26 | the array with its compare-and-swap operations answers every interleaving as its history says |
| `GateHistory.WinnerIsHolder` | libaria2/src/PieceBlockTracker.h:54-94 | the recorded winner is the connection that was admitted and has not been released since |
| `GateHistory.AdmittedByHistory` | libaria2/src/PieceBlockTracker.h:54-72 | a connection may write exactly when no other one holds the block, that is, was admitted and not released since |
| `GateHistory.FirstWriteWins` | libaria2/src/PieceBlockTracker.h:54-94 | two connections are admitted to a block only if the earlier one was released in between, by a reset or by its own cancellation |
| `GateHistory.HolderKeepsBlock` | libaria2/src/PieceBlockTracker.h:54-72 | until a connection is released from a block, it is admitted every time and no other ever is |
| `GateHistory.ZeroExcludesNobody` | libaria2/src/PieceBlockTracker.h:63-71 | a connection of number 0 that is admitted to a block excludes nobody |
| `EngineRuns.WinnerOfHistory` | libaria2/src/PieceBlockTracker.h:35-94 | in a run of calls on many pieces the winner recorded for a block is the one its own steps make |
| `EngineRuns.GateByHistory` | libaria2/src/PieceBlockTracker.h:54-72 | a call to write is answered as the history of its block says, and with false for unknown blocks |
| `EngineRuns.OneWriterAtATime` | libaria2/src/PieceBlockTracker.h:54-94 | two connections are let through to a block only if it was reset in between or the earlier one was cancelled |
| `EngineRuns.RequestByHistory` | libaria2/src/PieceBlockTracker.h:43-52 | a call to request succeeds exactly when its block is known and was reset after every earlier request for it |
| `EngineRuns.OneRequestAtATime` | libaria2/src/PieceBlockTracker.h:43-81 | between two requests for a block that succeed the block is reset |
| `EngineTracker.CUIDCounter.NewID` | libaria2/src/CUIDCounter.cc:43-49 | the numbers given to connections are never 0 |
| `EngineTracker.PieceBlockTracker.AddPiece` | libaria2/src/PieceBlockTracker.h:35-41 | adds a piece with all blocks free; a known piece keeps its state |
| `EngineTracker.PieceBlockTracker.TryRequest` | libaria2/src/PieceBlockTracker.h:43-52 | requests one block if it is free; false for unknown pieces and blocks |
| `EngineTracker.PieceBlockTracker.TryStartWrite` | libaria2/src/PieceBlockTracker.h:54-72 | admits a connection by the recorded winner and changes no other block or piece; false for unknown pieces and blocks |
| `EngineTracker.PieceBlockTracker.ResetBlock` | libaria2/src/PieceBlockTracker.h:74-81 | frees a block and then forgets its winner, and changes no other block or piece |
| `EngineTracker.PieceBlockTracker.ClearCuid` | libaria2/src/PieceBlockTracker.h:84-94 | takes all blocks of a piece from that connection and from no other |
| `EngineTracker.PieceBlockTracker.Serve` | libaria2/src/PieceBlockTracker.h:35-94 | the tracker answers every run of calls from an empty start as the pieces before each call say |

## Where the code and its documentation differ

The model follows the code.

- The header of the geometric selector describes other windows than the code searches: [0,1), [1,b), [b,b²) and so on behind the offset.
- A ranged in-order search can answer at or behind its end, even if the range is empty (`InorderLeavesRange`; `InorderStaysInRange` says when it cannot).
- isAllBitSet is false for a finished download whose last byte has spare bits set (`SpareBitsMatter`). Only setBitfield lets them in, and it does exactly when its argument has them (`SetBitfield`, `CompleteByField`).
- Copying a BitfieldMan drops a filter that is present but disabled (`CopyForgetsFilter`).
- updateBasicCred is documented to replace an equal credential; it compares pointers and keeps the old one (`StoredExactlyWhenNewOrSame`). activateBasicCred is documented to store the path "/"; it stores the path it is given.
- Cookies are said to be sorted by path length; the code sorts by the number of path segments (`SortByPath`). The two differ for paths that only differ in slashes at their end (`ShorterPathFirst`), and for no others (`LongerFirstExactly`).
- A lookup misses a cookie that matches if its domain is numeric, has a dot and is not the host itself (`MatchIsOnTheWay`, `NumericDomainIsMissed`). Set-Cookie parsing makes such cookies: it derives host-only from the request host, so a host a.1.2.3.4 can set one for 1.2.3.4.
- moveToStoppedAllowedTier without an allowed tier goes back to the first URL of the current tier, and does not bring back a list that has run out (`MoveFindsAllowed`, `MoveDoesNotRevive`).
- The bencode parser forgets that a structure was too deep and goes on (`ErrorsStick`, `TooDeepGoesOn`), and it accepts more than BEP 3 (`AcceptsExactly`).
- The README of the repository speaks of a REQUESTED, WRITING, FINISHED life cycle. That is the tracker in temp_workspace (`BlockTracker`); the tracker of the engine has no FINISHED state, never stores WRITING, and admits writers by connection number only (`GateHistory`).

## Left out

- Integer widths: int is unbounded except where the code itself checks a limit (bencoded numbers and lengths, chunk sizes, connection numbers); size_t, int32_t and int64_t overflow elsewhere is not modelled.
- Bytes of texts are Dafny characters.
- Floating point: the base of the geometric selector is an exact real above 1 (with a base of 1 or less the code would not terminate), and the tenth of the tracker to evict is an integer division.
- BitfieldMan: operator=, hasMissingPiece, the getFirst and getAllMissing queries, isFilteredAllBitSet, isAllFilterBitSet and getMissingUnusedLength, which would add only easy members; null ignore fields.
- BitfieldMan.BitfieldMan.GetOffsetCompletedLength: a negative length for which the unsigned end - 1 wraps around, so that the loop runs past the field, is left out.
- BencodeParser: the state machine that receives the callbacks is an event log, in which adjacent characters callbacks are joined.
- ChunkedDecodingStreamFilter: the delegate is a sink that takes everything; the branch for an unexpected state behind a chunk, which cannot be reached, and release are not modelled.
- CookieStorage.CookieStorage.Store: asks that the domain of a cookie has a label; a cookie without one would be kept at the root of the trie, and evicting the root follows its null parent.
- Numeric hosts are an arbitrary predicate; an empty cookie path other than an equal one is no match, where the code would read before the string.
- Cookie files, Set-Cookie parsing and the other setters of Cookie.
- AuthConfigFactory: netrc and options (what they resolve to is a parameter), FTP, and HTTP without challenge.
- SeederChoke.BtSeederStateChoke.Unchoke: shuffling the tail is a choice of the peer that comes first; upload speeds and outstanding counts are fields of a peer rather than measurements.
- AnnounceEvents: one announce at a time, as the count of trackers sees to it; whether the interval has passed, how the download stands and whether a tracker answers are parameters of a turn; the announce URL itself and UDP trackers are not modelled.
- AnnounceList: the constructor from existing tiers, which could hold an empty or shared tier, and the one-URL form of reconfigure.
- GateHistory: interleavings are stated over the atomic steps of one block; EngineRuns takes each call as a whole, and the mutex around the map of pieces as one step. Weak memory orderings are not modelled in either tracker.
- BtLeecherStateChoke, AdaptiveURISelector, BitTorrent messages, sockets, TLS, name resolution, commands, disk access, digests, console and options.
