# Byteback verification model

A Dafny model of the native recovery engine of Byteback: how it carves files out of raw disk
ranges, in parallel and after interruptions, and the codecs, ciphers and repairs that its results
pass through. Each module follows one component of the source. Code that updates variables, arrays
or objects is modelled by methods and classes in the same loops and branches; each is proved against
a specification function, and the properties below are lemmas about those functions.

| files | component |
|---|---|
| `Trie`, `AhoCorasick`, `TrieGrowth`, `FailLinks`, `TransitionTable`, `Automaton` | the Aho-Corasick automaton and its flat transition table |
| `SubReads`, `ActiveCarves`, `CarveScan`, `ScanLaws`, `RangeScan` | the scan of one range: retry stack over failing reads, ordered candidates with their index, the whole scan against a scanner with neither automaton nor index, what it opens and reports in terms of the text alone, and reads and scan together |
| `GapCarve` | the gap searches and their shared budget |
| `ParallelCarve`, `ResumePlan` | the parallel carve phase as a state machine, the bounded queue, the sequential twin, resume and progress |
| `LdmRemap` | logical runs on spanned LDM volumes mapped to physical ones |
| `AesField`, `Aes`, `AesExample`, `Xts`, `Ccm`, `Md5` | the ciphers and the streaming digest |
| `Gf256`, `Raid6` | the RAID 6 field, its tables and the reconstruction of lost blocks |
| `Lznt1`, `UsaFixup`, `Utf`, `RunsCodec`, `ZipRepair` | NTFS decompression and fixup, file names and sanitizers, stored runs, archive repair |
| `Bytes`, `Bits`, `Sectors`, `Common` | numbers and byte strings, words of bits, lists of sectors, options: shared |

`dafny verify dfyconfig.toml` checks the whole project.

## What holds only under a condition

These are places where the code does less than its surroundings suggest. The model keeps the code as
it is and states exactly when the property holds.

- A byte count of a run on an LDM volume that ends at or before the last part border of the run
  leaves a piece with byte count 0, which means all bytes: the file grows. `LdmRemap.RemapPreservesBytes`
  gives the exact condition, `LdmRemap.UsedUpEarlyExample` an instance.
- The automaton keeps its state across an unreadable sector, so a header may be put together from
  both sides of it, and the record then begins at bytes that are not the header. `CarveScan.StartIsExact`
  gives the exact condition, `RangeScan.HeaderAcrossGap` an instance.
  From a range that can be read throughout, every record begins with its header
  (`RangeScan.CarveRange`).
- A gap search with budget n tries n - 1 candidates, since the attempt that reaches the budget ends
  it (`GapCarve.TryFindsFirst`).
- The progress base is described as working without double counting
  (`native/src/scan_coordinator.cpp:961-965`), but a worker's tick adds all sectors of its range
  scanned so far (lines 1068-1073), so the ticks of a range add up to the sectors scanned exactly if
  there is one tick (`ResumePlan.TicksAddUpExactly`), and where no read fails they stay within the
  range exactly if it is no longer than one chunk (`ResumePlan.TicksStayWithinExactly`, with
  `ResumePlan.TicksOverlap` an instance of two chunks). Beyond that the clamp is what keeps the
  progress bounded (`ResumePlan.ProgressIsBounded`).
- The drain after the joins never finds a record (`ParallelCarve.SafeThroughout`).
- `utf8ForJs` passes overlong sequences (`Utf.ForJsPassesOverlong`), surrogates and values that are
  too large; `Utf.ForJsWellFormedExactly` gives the exact condition. The preserving sanitizer always
  gives well-formed output (`Utf.PreserveSanitizes`).
- `lznt1Decompress` returns the length of the decoded output, where its comment says the number of
  bytes written. The two agree exactly if the output fits in the buffer
  (`Lznt1.ReturnsBytesWrittenExactly`); `Lznt1.ShortBuffer` is an instance where they do not.
- `applyUsaFixup` lets the update sequence array lie in the tail of a sector. Which record it accepts
  does not depend on that (`UsaFixup.SucceedsExactlyIfAllMatch`), what comes back does:
  `UsaFixup.FixupUndoesProtection` gives the exact condition, `UsaFixup.OverlapLosesTail` an instance
  where it fails. It never fails if no entry lies in an earlier tail (`UsaFixup.KeptEntriesSuffice`).
- A run with sector count 0 makes the whole stored list read back as empty
  (`RunsCodec.DeserializeUndoesSerialize`).
- The counter blocks of a message are distinct up to 2^24 - 1 blocks and no further
  (`Ccm.MessageCountersDistinct`).

## Model

| member | source | states |
|---|---|---|
| `AesField.SboxInverse` | native/src/crypto/aes_xts.cpp:9-45 | the two tables are inverse at all 256 byte values |
| `AesField.GfMul` | native/src/crypto/aes_xts.cpp:53-63 | the shift-and-add loop computes the product of polynomials modulo x^8 + x^4 + x^3 + x + 1, for all pairs of bytes |
| `AesField.ProductPlus` | native/src/crypto/aes_xts.cpp:53-63 | the product distributes over exclusive or in its first factor |
| `AesField.ProductOfPlus` | native/src/crypto/aes_xts.cpp:53-63 | the product distributes over exclusive or in its second factor |
| `AesField.MixInverse` | native/src/crypto/aes_xts.cpp:91-111 | the inverse column matrix times the column matrix is the identity, on every column of four bytes |
| `Aes.SubBytesInPlace` | native/src/crypto/aes_xts.cpp:69-71 | the loop over the state puts every byte through kSbox |
| `Aes.InvSubBytesInPlace` | native/src/crypto/aes_xts.cpp:73-75 | the loop over the state puts every byte through kInvSbox |
| `Aes.ShiftRowsInPlace` | native/src/crypto/aes_xts.cpp:77-82 | the hand-written swaps rotate row r left by r columns (section 5.1.2 of FIPS 197) |
| `Aes.InvShiftRowsInPlace` | native/src/crypto/aes_xts.cpp:84-89 | the hand-written swaps rotate row r right by r columns (section 5.3.1 of FIPS 197) |
| `Aes.MixColumnsInPlace` | native/src/crypto/aes_xts.cpp:91-100 | the xtime formulas multiply every column by the matrix of section 5.1.3 of FIPS 197 |
| `Aes.InvMixColumnsInPlace` | native/src/crypto/aes_xts.cpp:102-111 | the gfMul formulas multiply every column by the matrix of section 5.3.3 of FIPS 197 |
| `Aes.AddRoundKeyInPlace` | native/src/crypto/aes_xts.cpp:65-67 | the state becomes its exclusive or with the 16 key bytes at the given offset |
| `Aes.InvShiftAfterShift` | native/src/crypto/aes_xts.cpp:77-89 | the inverse row rotation undoes the row rotation |
| `Aes.InvMixAfterMix` | native/src/crypto/aes_xts.cpp:91-111 | the inverse column mixing undoes the column mixing on every state |
| `Aes.InvRoundsUndoRounds` | native/src/crypto/aes_xts.cpp:150-166 | the inverse rounds, run downwards, undo any number of rounds under any round keys |
| `Aes.InvCipherUndoesCipher` | native/src/crypto/aes_xts.cpp:145-172 | for any round keys and any number of rounds, decrypting an encrypted block gives it back |
| `Aes.EveryRoundKeyCounts` | native/src/crypto/aes_xts.cpp:145-169 | changing the key bytes of exactly one round, whichever it is, changes the ciphertext of every block |
| `AesExample.Fips197Example` | native/src/crypto/aes_xts.cpp:145-172 | the example of section C.1 of FIPS 197, round by round: the key schedule and the block give the ciphertext, and back |
| `Aes.AesBlockCrypt` | native/src/crypto/aes_xts.cpp:145-172 | the in-place round loops, also when input and output are the same array, compute the cipher or the inverse cipher of the input |
| `Xts.MulAlphaIsTimesX` | native/src/crypto/aes_xts.cpp:174-182 | the tweak update is multiplication by x modulo x^128 + x^7 + x^2 + x + 1, coefficient by coefficient |
| `Xts.XtsGfMul` | native/src/crypto/aes_xts.cpp:174-182 | the carry loop over the 16 bytes computes that update |
| `Xts.BlockAt` | native/src/crypto/aes_xts.cpp:194-202 | block j of the output depends on block j of the input and on the encrypted tweak times alpha^j only |
| `Xts.CryptBlocks` | native/src/crypto/aes_xts.cpp:194-202 | the loop over the blocks, also in place, equals the block-by-block definition and writes nothing behind the length |
| `Xts.BlocksInverse` | native/src/crypto/aes_xts.cpp:194-202 | whatever the block functions, if one undoes the other on a block, so it does on any whole number of blocks |
| `Xts.XtsCryptAt` | native/src/crypto/aes_xts.cpp:191-202 | block j of the output: the tweak encrypted under the second part of the key, times alpha^j, is added before and after the block function under the key |
| `Xts.XtsAesCryptImpl` | native/src/crypto/aes_xts.cpp:186-204 | success exactly for lengths that are multiples of 16; then the output is the mode applied to the input, and nothing else is written |
| `Xts.XtsAesRoundTrip` | native/src/crypto/aes_xts.cpp:145-204 | XTS-AES decryption undoes encryption for any round keys, any number of rounds, any tweak and every length that is a multiple of 16 |
| `Ccm.CcmFormatB0` | native/src/crypto/aes_ccm.cpp:46-56 | the block read back: nonce, big-endian length modulo 256^L, and flags that give L and the tag length and say that there is no additional data (section 2.2 of RFC 3610) |
| `Ccm.CcmFormatCounter` | native/src/crypto/aes_ccm.cpp:58-66 | the block read back: flags L - 1, nonce, and big-endian counter modulo 256^L (section 2.3 of RFC 3610) |
| `Ccm.CounterBlockReads` | native/src/crypto/aes_ccm.cpp:58-66 | so does every counter block, for nonces of 7 to 14 bytes |
| `Ccm.B0Reads` | native/src/crypto/aes_ccm.cpp:46-56 | so does every first block |
| `Ccm.FlagsOfSource` | native/src/crypto/aes_ccm.cpp:46-66 | with 12-byte nonces and 16-byte tags the flags are 0x02 and 0x3A |
| `Ccm.CounterBlocksDistinct` | native/src/crypto/aes_ccm.cpp:58-66 | two counter blocks of one nonce are equal exactly if the counters agree modulo 256^L |
| `Ccm.CounterNeverB0` | native/src/crypto/aes_ccm.cpp:46-66 | no counter block of any nonce equals the first MAC block of any message |
| `Ccm.MessageCountersDistinct` | native/src/crypto/aes_ccm.cpp:84-92 | all counter blocks of a message are pairwise distinct if and only if it has fewer than 2^24 blocks |
| `Ccm.CcmMac` | native/src/crypto/aes_ccm.cpp:28-41 | the loop computes CBC-MAC over B0 and the zero-padded data |
| `Ccm.CtrInto` | native/src/crypto/aes_ccm.cpp:84-92 | the counter loop, also in place, xors the data with the keystream from counter 1 on and writes nothing else |
| `Ccm.CtrAt` | native/src/crypto/aes_ccm.cpp:84-92 | every byte is masked with the byte at its place in the encrypted counter block of its own number |
| `Ccm.EncryptAt` | native/src/crypto/aes_ccm.cpp:71-95 | the ciphertext byte by byte: the data under the counters from 1 on, then the MAC under counter 0 |
| `Ccm.CbcMacAppends` | native/src/crypto/aes_ccm.cpp:28-41 | the MAC of whole blocks and more data goes on from the MAC of the blocks |
| `Ccm.CbcMacOfOne` | native/src/crypto/aes_ccm.cpp:28-41 | a block, filled up with zeros, is added to the running value and encrypted |
| `Ccm.DecryptUndoesEncrypt` | native/src/crypto/aes_ccm.cpp:71-126 | for every key, nonce and length, decrypting an encrypted message is accepted and gives the plaintext |
| `Ccm.AcceptsExactlyReencryption` | native/src/crypto/aes_ccm.cpp:97-126 | a ciphertext is accepted if and only if encrypting the recovered plaintext gives it back |
| `Ccm.AcceptsExactlyImage` | native/src/crypto/aes_ccm.cpp:97-126 | the accepted ciphertexts are exactly the outputs of encryption |
| `Ccm.AesCcmEncrypt` | native/src/crypto/aes_ccm.cpp:71-95 | success exactly if the output length is the input length plus 16; then the buffer holds the encrypted message and tag |
| `Ccm.SameBlock` | native/src/crypto/aes_ccm.cpp:122-125 | the comparison that accumulates differences is equality |
| `Ccm.AesCcmDecrypt` | native/src/crypto/aes_ccm.cpp:97-126 | the verdict is acceptance of the ciphertext received, also in place; the plaintext is written whatever the verdict |
| `Md5.FeedAppend` | native/src/crypto/md5.cpp:56-84 | feeding two pieces one after the other is feeding their concatenation |
| `Md5.FinishSteps` | native/src/crypto/md5.cpp:100-134 | padding through update and then one transform of the open block ends in the same digest as padding the message |
| `Md5.SplitIndependent` | native/src/crypto/md5.cpp:56-136 | however a message is cut into updates, the digest is that of RFC 1321 (sections 3.1 to 3.5) of the concatenation |
| `Md5.LoadUndoesSave` | native/src/crypto/md5.cpp:144-166 | a saved snapshot is always accepted and restores the stream it was taken from |
| `Md5.SameBytesSameSnapshot` | native/src/crypto/md5.cpp:144-155 | contexts that consumed the same bytes, however cut, save identical snapshots |
| `Md5.ResumedRunIsUninterrupted` | native/src/crypto/md5.cpp:144-166 | save, load and continue ends in the digest of an uninterrupted run |
| `Md5.Md5Context.Update` | native/src/crypto/md5.cpp:56-84 | the buffered in-place update advances the stream by the data; a finalized context is left alone |
| `Md5.Md5Context.FinalRaw` | native/src/crypto/md5.cpp:100-136 | the first call gives the digest of the stream, every later call gives the same bytes |
| `Md5.Md5Context.SaveState` | native/src/crypto/md5.cpp:144-155 | refused exactly for a finalized context; otherwise the snapshot depends on the stream only, not on stale buffer bytes |
| `Md5.Md5Context.LoadState` | native/src/crypto/md5.cpp:157-166 | accepted exactly for a consistent snapshot, and then the context holds its stream; a refused one changes nothing |
| `Md5.DigestOf` | native/src/crypto/md5.cpp:56-136 | a fresh context, any number of updates and one final call give the RFC 1321 digest of the concatenation |
| `Md5.ChainNext` | native/src/crypto/md5.cpp:56-84 | the chaining takes block after block in order, each once |
| `Md5.PaddingReads` | native/src/crypto/md5.cpp:100-122 | the padding is 0x80 and then zeros up to 56 modulo 64, and the length bytes have the value 8n modulo 2^64 |
| `Md5.OutputReads` | native/src/crypto/md5.cpp:124-134 | bytes 4k to 4k + 3 of the digest are word k, least significant byte first |
| `Md5.StartWords` | native/src/crypto/md5.cpp:9-40 | the words that a context starts with are those of section 3.3 of RFC 1321 |
| `Trie.WordsDistinct` | native/src/carver/signature_engine.cpp:576-597 | different states of the keyword tree spell different words |
| `Trie.CandidateWithEdge` | native/src/carver/signature_engine.cpp:612-622 | where the failure walk stops at an edge, the edge leads to the longest spelled suffix |
| `Trie.CandidateFails` | native/src/carver/signature_engine.cpp:612-622 | a step of the failure walk skips no suffix that has the wanted edge |
| `Trie.LongestStep` | native/src/carver/signature_engine.cpp:797-799 | the longest spelled suffix of a text and one more byte depends on the current state and the byte only |
| `AhoCorasick.SuffixIdsAre` | native/src/carver/signature_engine.cpp:624-634 | the merged list of a text names exactly the non-empty patterns that are suffixes of it |
| `AhoCorasick.SuffixIdsDistinct` | native/src/carver/signature_engine.cpp:624-634 | no pattern occurs twice in a merged list |
| `AhoCorasick.SuffixIdsOfLongest` | native/src/carver/signature_engine.cpp:624-634 | the patterns that end a text are those that end its longest spelled suffix |
| `AhoCorasick.FrontierStep` | native/src/carver/signature_engine.cpp:608-638 | processing the first state of the queue keeps the breadth-first order: every shallower state is finished |
| `AhoCorasick.AllDone` | native/src/carver/signature_engine.cpp:608-638 | when the queue is empty every state has been processed |
| `TrieGrowth.HeaderAdded` | native/src/carver/signature_engine.cpp:576-586 | adding one header keeps the tree and makes every match list exact for one more signature |
| `TrieGrowth.FooterAdded` | native/src/carver/signature_engine.cpp:588-598 | adding one footer keeps the tree and makes every match list exact for one more signature |
| `FailLinks.ChildIsLinked` | native/src/carver/signature_engine.cpp:612-634 | linking a child and appending the lists of its target makes its lists complete |
| `FailLinks.LinkOne` | native/src/carver/signature_engine.cpp:612-637 | linking one child keeps the breadth-first invariant of links and lists |
| `FailLinks.LinkingDone` | native/src/carver/signature_engine.cpp:608-638 | at the end every failure link leads to the longest spelled proper suffix and every list is complete |
| `TransitionTable.FailCell` | native/src/carver/signature_engine.cpp:656-664 | where a state has no edge, the cell of its failure link, compiled earlier, is the right one |
| `TransitionTable.CompilingDone` | native/src/carver/signature_engine.cpp:653-667 | at the end every cell of the table leads to the longest spelled suffix of word and byte |
| `Automaton.CarvingAutomaton.AddPattern` | native/src/carver/signature_engine.cpp:576-597 | walking a pattern adds exactly its missing prefixes and keeps all earlier states and lists |
| `Automaton.CarvingAutomaton.AddSignatures` | native/src/carver/signature_engine.cpp:572-599 | the tree spells all headers and footers, and each path end lists exactly the signatures with that pattern |
| `Automaton.CarvingAutomaton.FailTarget` | native/src/carver/signature_engine.cpp:613-622 | the failure walk ends at the longest spelled proper suffix |
| `Automaton.CarvingAutomaton.BuildFailLinks` | native/src/carver/signature_engine.cpp:601-638 | the breadth-first pass makes every link and both lists of every state right |
| `Automaton.CarvingAutomaton.CompileTable` | native/src/carver/signature_engine.cpp:640-667 | the flat table holds, for every state and byte, the longest spelled suffix |
| `Automaton.CarvingAutomaton.BuildAhoCorasick` | native/src/carver/signature_engine.cpp:566-668 | for every signature set: a tree of exactly the beginnings of the patterns, right links, complete lists and a right table |
| `Automaton.SpelledExactly` | native/src/carver/signature_engine.cpp:566-599 | a word is spelled by a state if and only if it is the beginning of a header or footer, or empty |
| `Automaton.TableIsFailWalk` | native/src/carver/signature_engine.cpp:640-667 | the table agrees with the failure-link walk at every state and byte |
| `Automaton.ListsAreExact` | native/src/carver/signature_engine.cpp:797-848 | the lists of the state after a text name exactly the signatures whose non-empty header or footer is a suffix of the text, each once |
| `Automaton.CarvingAutomaton.Transitions` | native/src/carver/signature_engine.cpp:797-799 | the loop of table lookups reaches the state of the longest spelled suffix of everything read |
| `Automaton.CarvingAutomaton.StateAfter` | native/src/carver/signature_engine.cpp:797-848 | after any text the match lists of the state are exact |
| `SubReads.SplitStep` | native/src/carver/signature_engine.cpp:766-775 | halving a failed read keeps what is still to be visited, in disk order, and uses up one of the allowed reads |
| `SubReads.HandleStep` | native/src/carver/signature_engine.cpp:766-797 | settling a read moves its sectors from pending to visited |
| `SubReads.ReadChunk` | native/src/carver/signature_engine.cpp:759-797 | for any pattern of failures the retry stack makes exactly the reads of the stack in order, ends after at most 2n - 1 of them, tiles the chunk in disk order and drops only single sectors that were unread |
| `SubReads.OnlyBadSectorsMissing` | native/src/carver/signature_engine.cpp:770-797 | if a read works exactly when all of its sectors are good, what gets through is the visited sectors without the bad ones |
| `SubReads.ReadRange` | native/src/carver/signature_engine.cpp:749-797 | the chunks tile the range in order, and from a disk with some bad sectors the automaton gets every good sector in order |
| `ActiveCarves.InsertKeepsIndex` | native/src/carver/signature_engine.cpp:835-844 | inserting a candidate in both structures keeps the per-signature index the exact inverse of the collection |
| `ActiveCarves.EraseKeepsIndex` | native/src/carver/signature_engine.cpp:739-747 | erasing a candidate from both keeps it so, and drops a signature with its last start |
| `ActiveCarves.NoStartHere` | native/src/carver/signature_engine.cpp:823-833 | the second duplicate test keeps start offsets unique, so opening never overwrites a candidate |
| `ActiveCarves.AlreadyActive` | native/src/carver/signature_engine.cpp:811-833 | the two windowed walks find a duplicate if and only if a scan of the whole collection does |
| `ActiveCarves.AtMostOneRecord` | native/src/carver/signature_engine.cpp:737-747 | every opened candidate is open or closed, exactly once, and yields at most one record, after it has left |
| `ActiveCarves.CarveTable.OpenCandidate` | native/src/carver/signature_engine.cpp:804-845 | a header match opens exactly one candidate, at its place in the order, unless there is a near duplicate; the invariant is kept |
| `ActiveCarves.CarveTable.Leave` | native/src/carver/signature_engine.cpp:739-747 | a candidate leaves the collection and the index together |
| `ActiveCarves.CarveTable.CloseByFooter` | native/src/carver/signature_engine.cpp:847-1085 | the loop over the copied starts closes exactly the candidates of the signature whose limit allows the end, in order, and keeps the others |
| `ActiveCarves.CarveTable.Prune` | native/src/carver/signature_engine.cpp:1088-1148 | exactly the candidates whose limit lies before the end of the read leave, in order, with a record if the refinement accepts them |
| `ActiveCarves.CarveTable.Flush` | native/src/carver/signature_engine.cpp:1157-1197 | the remaining candidates give their records in order, and over the whole scan no candidate gives two |
| `CarveScan.OpenAll` | native/src/carver/signature_engine.cpp:804-845 | the loop over the matched headers does what the simple scanner does with its list of ended headers |
| `CarveScan.CloseAll` | native/src/carver/signature_engine.cpp:848-1085 | the loop over the matched footers does what the simple scanner does with its list of ended footers |
| `CarveScan.ScanByte` | native/src/carver/signature_engine.cpp:797-1086 | one table lookup and the two loops equal comparing all patterns with the text read so far |
| `CarveScan.ScanPiece` | native/src/carver/signature_engine.cpp:795-1148 | one successful read with its prune equals the simple scanner on the same bytes |
| `CarveScan.ScanRange` | native/src/carver/signature_engine.cpp:702-1200 | the scan with automaton, ordered collection and index reports exactly what a scanner without them reports, in the same order, and each candidate at most once |
| `ScanLaws.EveryHeaderIsAnswered` | native/src/carver/signature_engine.cpp:797-845 | in a scan that takes every candidate no header in the text is passed over: it gets a candidate, unless an earlier one that no footer had closed stands near it (of the same signature and begun less than 4096 bytes before the last byte of the header, or of any signature and begun less than 512 bytes before its first) |
| `ScanLaws.RecordsExactly` | native/src/carver/signature_engine.cpp:847-1197 | what becomes of a candidate: it is a record if and only if a footer of its signature ends behind its header and within its limit, or else the refinement accepts it, the first one if the scan has passed its limit and the last one otherwise |
| `ScanLaws.CandidatesStandApart` | native/src/carver/signature_engine.cpp:804-845 | no candidate is opened within those distances of an earlier one that is still open |
| `ScanLaws.LeftoversComeLast` | native/src/carver/signature_engine.cpp:1088-1197 | the records settled by a footer or a passed limit come first, those left at the end of the range come last |
| `ScanLaws.RecordsOnlyGrow` | native/src/carver/signature_engine.cpp:749-1148 | reading on only appends records: those of the first reads come first, in the same order |
| `RangeScan.ReadsAreOrdered` | native/src/carver/signature_engine.cpp:749-795 | reads that tile a range give the scan pieces in disk order, none overlapping, whatever reads fail |
| `RangeScan.ReadsHold` | native/src/carver/signature_engine.cpp:759-797 | whatever reads fail, the pieces the scan gets are the bytes of the disk at their offsets |
| `RangeScan.FullReadsMissNothing` | native/src/carver/signature_engine.cpp:749-797 | where every read succeeds the pieces are the disk without a gap |
| `RangeScan.GoodRangeBeginsWithHeaders` | native/src/carver/signature_engine.cpp:749-845 | if all sectors of a range can be read, every record of the scan begins with its header on the disk |
| `RangeScan.RangeIsText` | native/src/carver/signature_engine.cpp:749-797 | fully read, the range is one stretch of text, each byte at its disk offset |
| `RangeScan.GoodRangeLosesNothing` | native/src/carver/signature_engine.cpp:749-845 | if all sectors of a range can be read and every candidate is taken, every header on the disk inside the range has a record that begins with it or within those distances before it |
| `RangeScan.CarveRange` | native/src/carver/signature_engine.cpp:749-1200 | retry stack and scan together: the scanned pieces are in order and the bytes of the disk, the records are those of the simple scanner on them, each candidate once at most; every header is answered; on a readable range each record begins with its header and no header on the disk is lost |
| `RangeScan.SplitDrains` | native/src/carver/signature_engine.cpp:759-797 | the retry stack settles three sectors with a bad one in the middle in five reads and gives up exactly that one |
| `CarveScan.RecordsAreGenuine` | native/src/carver/signature_engine.cpp:797-845 | every record belongs to a header that ends the text at some point, placed by the disk offset of its last byte |
| `CarveScan.StartIsExact` | native/src/carver/signature_engine.cpp:797-838 | a record begins where the first byte of its header was read if and only if no missing sector lies inside the header |
| `CarveScan.HeaderIsOnDisk` | native/src/carver/signature_engine.cpp:797-838 | in that case the disk has the header at the start of the record |
| `CarveScan.RecordsBeginWithHeaders` | native/src/carver/signature_engine.cpp:797-845 | when every sector could be read, every record begins with its header on the disk |
| `RangeScan.HeaderAcrossGap` | native/src/carver/signature_engine.cpp:759-799 | three sectors of 512 bytes, the middle one bad: the reads of the retry stack give a record that begins inside the bad sector, where the disk does not have the header |
| `GapCarve.ReassembledLength` | native/src/carver/bgc.cpp:65-72 | the reassembly is as long as the span less its gaps |
| `GapCarve.ReassembledExactly` | native/src/carver/bgc.cpp:65-72 | what the validator is asked about is the one sequence into which the gaps can be put back to give the span |
| `GapCarve.PassesIfScores` | native/src/carver/bgc.cpp:60-84 | a candidate is taken if and only if that sequence is at most 64 MiB long and scores at least 85 |
| `GapCarve.GridDefaults` | native/src/carver/bgc.cpp:38-45 | without parameters the search goes byte by byte over gaps of at most 64 KiB |
| `GapCarve.TryFindsFirst` | native/src/carver/bgc.cpp:53-85 | trying in order gives the first passing candidate among the first budget - 1, and failure means none of those passes |
| `GapCarve.BiGridIs` | native/src/carver/bgc.cpp:54-57 | the one-gap candidates are exactly the fragments and gaps on the step grid inside the span and the gap limit |
| `GapCarve.BiGridInOrder` | native/src/carver/bgc.cpp:54-57 | they come in strictly increasing order, so none is tried twice |
| `GapCarve.TriGridIs` | native/src/carver/bgc.cpp:110-117 | the two-gap candidates are exactly those on the step grid with both gaps inside the span and the limit |
| `GapCarve.TriGridInOrder` | native/src/carver/bgc.cpp:110-117 | they come in strictly increasing order, so none is tried twice |
| `GapCarve.BifragmentedGapCarve` | native/src/carver/bgc.cpp:25-87 | without a cancel, the first candidate in loop order within the budget whose gaps, cut out, leave at most 64 MiB that score at least 85, or not-found exactly if there is none |
| `GapCarve.TriFragmentedGapCarve` | native/src/carver/bgc.cpp:89-146 | the same for two gaps |
| `GapCarve.FoundIsInside` | native/src/carver/bgc.cpp:78-83 | a reported cut lies inside the span, its first fragment and its gaps are not empty, and its reassembly scored at least 85 |
| `GapCarve.BudgetIsExact` | native/include/byteback_carver.h:156-162 | in every interleaving of decrements and restores at most the budget goes ahead, and an attempt is refused only when all of it has been taken |
| `ParallelCarve.WorkerKeepsControl` | native/src/scan_coordinator.cpp:1057-1092 | every worker step keeps the queue within its cap, the live counter equal to the workers not gone, and what each place of the consumer relies on |
| `ParallelCarve.ConsumerKeepsControl` | native/src/scan_coordinator.cpp:1100-1145 | so does every consumer step, in the normal and in the exceptional shutdown |
| `ParallelCarve.WorkerConserves` | native/src/scan_coordinator.cpp:1060-1082 | a worker step neither creates nor duplicates nor silently drops a record |
| `ParallelCarve.ConsumerConserves` | native/src/scan_coordinator.cpp:1104-1125 | nor does a consumer step |
| `ParallelCarve.ClaimedOnce` | native/src/scan_coordinator.cpp:1063-1064 | a range changes from unclaimed to its owner by one claim and never changes again |
| `ParallelCarve.StepInv` | native/src/scan_coordinator.cpp:1026-1145 | every step, failures and cancel included, keeps the whole invariant |
| `ParallelCarve.RunInv` | native/src/scan_coordinator.cpp:1026-1145 | every state of every interleaving satisfies it |
| `ParallelCarve.ParallelRefinesSequential` | native/src/scan_coordinator.cpp:1026-1134 | in every interleaving without cancel or failure that finishes, all ranges were claimed, and the emitted records equal those of the sequential loop as a multiset: every record handed over with a name or an id, as often as it was, and no other |
| `ParallelCarve.NothingInvented` | native/src/scan_coordinator.cpp:1026-1145 | in every state of every run, failures included, no record is emitted more often than the sequential loop does and than it was handed over, and no tick at all |
| `ParallelCarve.SafeThroughout` | native/src/scan_coordinator.cpp:1026-1145 | the queue never exceeds its cap, no two workers scan one range, and the drain after the joins finds the queue empty |
| `ParallelCarve.OrderIsIrrelevant` | native/src/scan_coordinator.cpp:1009-1012 | reordering the work list leaves the reported multiset alone |
| `ParallelCarve.ReportRange` | native/src/scan_coordinator.cpp:912-918 | the callback reports the records of a range in order: each with a name or an id as often as it comes, and nothing else |
| `ParallelCarve.ReportedKeeps` | native/src/scan_coordinator.cpp:912-918 | the reports keep every record with a name or an id, as often as it comes, and drop the others |
| `ParallelCarve.SequentialIs` | native/src/scan_coordinator.cpp:1151-1185 | the reports of the sequential loop are those of everything handed over, in order |
| `ParallelCarve.SequentialCarve` | native/src/scan_coordinator.cpp:1151-1185 | the sequential loop reports the records of all ranges, range after range, each with a name or an id as often as it was handed over |
| `ParallelCarve.StepDecreases` | native/src/scan_coordinator.cpp:1060-1145 | every step but an idle poll or a spurious wake-up makes the measure smaller, and a spurious wake-up adds 3 |
| `ParallelCarve.WorkerKeepsSignals` | native/src/scan_coordinator.cpp:61-70 | every worker step, falling asleep on a full queue included, keeps the account of sleepers, free places and pending signals |
| `ParallelCarve.ConsumerKeepsSignals` | native/src/scan_coordinator.cpp:73-94 | every consumer step keeps it: a pop is followed by its signal, a close by its broadcast |
| `ParallelCarve.NoLostWakeUp` | native/src/scan_coordinator.cpp:61-94 | in every reachable state where a push sleeps, the queue is full and open, or a signal is still to be given, or a push that was woken is still to take its place |
| `ParallelCarve.NeverStuck` | native/src/scan_coordinator.cpp:61-94 | no deadlock, even if no sleeper ever wakes of its own accord: in every reachable state before the end some enabled step makes the measure smaller, after an exception of the consumer too |
| `ParallelCarve.RunIsBounded` | native/src/scan_coordinator.cpp:1049-1145 | a run has at most as many useful steps as the measure of its start and three for each spurious wake-up |
| `ParallelCarve.ClaimsStop` | native/src/scan_coordinator.cpp:1060-1064 | after a cancel or a failure of the consumer at most the ranges that workers were just about to claim are claimed, however long the run goes on |
| `ParallelCarve.BoundedRecordQueue.Push` | native/src/scan_coordinator.cpp:61-70 | a push that may proceed appends, or drops and says so if the queue is closed; the cap is kept |
| `ParallelCarve.BoundedRecordQueue.PopFor` | native/src/scan_coordinator.cpp:73-85 | the oldest record if there is one; otherwise closed or timed out, with nothing changed |
| `LdmRemap.SamePart` | native/src/scan_coordinator.cpp:279-284 | within contiguous parts the first match for a sector is the match for all later sectors up to its end |
| `LdmRemap.LdmMapLogicalSector` | native/src/scan_coordinator.cpp:277-286 | the loop maps a sector by the first part that contains it, or not at all |
| `LdmRemap.RemapRun` | native/src/scan_coordinator.cpp:299-320 | the loop over one run ends and appends exactly its pieces, coalesced |
| `LdmRemap.RemapRuns` | native/src/scan_coordinator.cpp:297-321 | so does the loop over all runs |
| `LdmRemap.RemapPreservesSectors` | native/src/scan_coordinator.cpp:296-323 | for contiguous parts the flattened result is the logical sectors mapped one by one, each run cut only at its first unmapped sector |
| `LdmRemap.RemappedDoNotMeet` | native/src/scan_coordinator.cpp:296-323 | coalescing is complete: no two neighbours in the result could be one run |
| `LdmRemap.RemapPreservesBytes` | native/src/scan_coordinator.cpp:307-319 | the bytes of the file survive if and only if no byte count ends at or before the last part border of its run |
| `LdmRemap.UsedUpEarlyExample` | native/src/scan_coordinator.cpp:307-317 | a concrete run that gains 512 bytes: its second piece gets byte count 0, which means all |
| `LdmRemap.FileRecord.RemapLdmSpannedRecord` | native/src/scan_coordinator.cpp:288-332 | runs, start and end sector of the record after the call, mapped or left alone |
| `ResumePlan.SkippedAndVisited` | native/src/scan_coordinator.cpp:972-998 | skipped and remaining sectors together are the full sector list, and their counts add up to the total |
| `ResumePlan.DropDrops` | native/src/scan_coordinator.cpp:972-998 | a resumed scan visits the full sector list less its first resume sectors, in order |
| `ResumePlan.ParallelRange` | native/src/scan_coordinator.cpp:975-997 | the skip arithmetic of the parallel path for one range, with its cursor and its progress base |
| `ResumePlan.SequentialRange` | native/src/scan_coordinator.cpp:1156-1183 | the skip arithmetic of the sequential path leaves the same part of the range |
| `ResumePlan.ParallelPlan` | native/src/scan_coordinator.cpp:966-998 | the parallel work list before sorting is the range list less its first resume sectors; base and total are the skipped and the remaining count |
| `ResumePlan.SequentialPlan` | native/src/scan_coordinator.cpp:1151-1185 | the sequential loop scans the same sub-ranges in the same order |
| `ResumePlan.ProgressIsBounded` | native/src/scan_coordinator.cpp:1036-1040 | whatever the ticks add up to, the clamped progress stays between the skipped sectors and the total |
| `ResumePlan.ReadTicksGoForward` | native/src/carver/signature_engine.cpp:1150-1154 | whatever reads fail, the ticks of a range go forward inside it |
| `ResumePlan.TicksAddUpExactly` | native/src/scan_coordinator.cpp:1068-1073 | ticks that go forward add up to the sectors scanned if and only if there is only one |
| `ResumePlan.TicksStayWithinExactly` | native/src/scan_coordinator.cpp:1068-1073 | where every read succeeds, the ticks of a range stay within its sectors if and only if it is no longer than one chunk |
| `ResumePlan.TicksOverlap` | native/src/scan_coordinator.cpp:1068-1073 | two chunks of 8192 sectors already add up to three: without the clamp the bound fails |
| `ResumePlan.MonotonicMeter.Tick` | native/include/scan_progress.h:14-21 | the meter never goes back and never lags behind what is proposed |
| `ResumePlan.ReportAll` | native/include/scan_progress.h:14-21 | a run of reports is non-decreasing and keeps any bound its proposals keep |
| `Gf256.MulOfPlus` | native/src/fs/raid6_math.cpp:13-34 | multiplication modulo 0x11D distributes over exclusive or |
| `Gf256.MulDouble` | native/src/fs/raid6_math.cpp:13-24 | doubling, one step of the table loop, may be done on either factor |
| `Gf256.ExpSum` | native/src/fs/raid6_math.cpp:31-34 | the product of two powers of x is the power of the sum |
| `Gf256.OrderIs255` | native/src/fs/raid6_math.cpp:13-24 | no positive power of x below 255 is one: the table loop writes 255 different entries |
| `Gf256.EveryByteIsPower` | native/src/fs/raid6_math.cpp:13-24 | every byte but zero is such a power, so the log table has no hole |
| `Raid6.GfTables.constructor` | native/src/fs/raid6_math.cpp:13-23 | after the loops every exp entry is its power and every log entry of a non-zero byte is its exponent |
| `Raid6.GfTables.GfMul` | native/src/fs/raid6_math.cpp:31-34 | adding logarithms computes the product of polynomials modulo x^8 + x^4 + x^3 + x^2 + 1 |
| `Raid6.GfTables.GfPow` | native/src/fs/raid6_math.cpp:36-40 | the power of x for any exponent, negative ones included, as the exponent modulo 255 |
| `Raid6.GfTables.GfDiv` | native/src/fs/raid6_math.cpp:42-46 | an error exactly for divisor zero; otherwise the quotient times the divisor is the dividend |
| `Raid6.MulCancels` | native/src/fs/raid6_math.cpp:31-46 | a product with a non-zero factor determines the other factor |
| `Raid6.NeverDegenerate` | native/src/fs/virtual_raid.cpp:518-521 | for two different slots below 255 the denominator is never zero: the error for a degenerate system cannot occur |
| `Raid6.OneLost` | native/src/fs/virtual_raid.cpp:463-489 | one lost data byte is determined by P and the others, and also by Q and the others |
| `Raid6.TwoLostAreDetermined` | native/src/fs/virtual_raid.cpp:491-521 | with at most 255 data disks any two lost data blocks are uniquely determined by the others, P and Q |
| `Raid6.RecoverTwoBlocks` | native/src/fs/virtual_raid.cpp:499-527 | the loops over slots and bytes give back exactly the two lost blocks, for any block size |
| `Lznt1.DisplacementFits` | native/include/fs/ntfs_util.h:239-244 | the width loop gives the least width of four or more with 2^width at least the position, and rejects exactly positions beyond 4096 |
| `Lznt1.CopyBackRepeats` | native/include/fs/ntfs_util.h:252-256 | a copy, overlapping or not, keeps what was there and repeats the byte one displacement back |
| `Lznt1.TokenReadsBack` | native/include/fs/ntfs_util.h:246-250 | a token encoded with the position-dependent split is read back as the same length and displacement |
| `Lznt1.PayloadReadsBack` | native/include/fs/ntfs_util.h:211-258 | the payload of any well-formed token list decodes to the LZ77 expansion of the tokens |
| `Lznt1.DecodeUndoesEncode` | native/include/fs/ntfs_util.h:186-261 | an encoded stream of literal and compressed chunks decodes to the expansion of its chunks, whatever follows the end marker |
| `Lznt1.RepeatedLetter` | native/include/fs/ntfs_util.h:186-261 | the stream of native/tests/test_lznt1.cpp with one literal and one match decodes to eleven letters |
| `Lznt1.CopyMatch` | native/include/fs/ntfs_util.h:252-256 | the byte-by-byte copy on a capped buffer shows the copy as far as the buffer reaches |
| `Lznt1.PutMatch` | native/include/fs/ntfs_util.h:239-256 | one token on the buffer: accepted exactly if the format allows it, with the right expansion |
| `Lznt1.GroupOfTokens` | native/include/fs/ntfs_util.h:217-257 | the loop over one flag byte refines the token-level reader |
| `Lznt1.CompressedChunk` | native/include/fs/ntfs_util.h:211-258 | so does the loop over one chunk |
| `Lznt1.Lznt1Decompress` | native/include/fs/ntfs_util.h:186-261 | the return value depends on the stream alone, -1 exactly if it is malformed; the buffer holds the matching prefix of the output and is untouched behind it |
| `Lznt1.ShowsWritten` | native/include/fs/ntfs_util.h:186-261 | what the buffer holds after a success is exactly the written part of the output, followed by what was there before |
| `Lznt1.ReturnsBytesWrittenExactly` | native/include/fs/ntfs_util.h:182-185 | for outputs below 2^31 bytes the return value is the number of bytes written if and only if the output fits in the buffer |
| `Lznt1.ShortBuffer` | native/include/fs/ntfs_util.h:182-185 | a concrete chunk of three literals and a buffer of two bytes: the call returns 3 and writes 2 |
| `UsaFixup.TailsFit` | native/include/fs/ntfs_util.h:144-154 | the guards already place every sector tail inside the record |
| `UsaFixup.SucceedsExactlyIfAllMatch` | native/include/fs/ntfs_util.h:152-164 | success if and only if every tail of the record holds the sequence number, wherever the array lies |
| `UsaFixup.OtherBytesStay` | native/include/fs/ntfs_util.h:152-164 | bytes outside the tails never change |
| `UsaFixup.TailComesFrom` | native/include/fs/ntfs_util.h:152-164 | for every layout, overlapping or not: after a success a tail holds what the record had at its origin, which is its entry of the array or, if that lies in an earlier tail, the origin of that tail |
| `UsaFixup.OverlapLosesTail` | native/include/fs/ntfs_util.h:144-164 | a concrete layout with an entry in an earlier tail: a protected record is accepted and its third tail comes back wrong |
| `UsaFixup.TailsBeginInside` | native/include/fs/ntfs_util.h:144-153 | where the guards pass, the first tail begins inside the record if and only if the sector size is not 1 |
| `UsaFixup.FixupUndoesProtection` | native/include/fs/ntfs_util.h:141-165 | a record protected as NTFS writes it is always accepted, and it comes back outside the array if and only if every origin holds what the entry of its tail held |
| `UsaFixup.KeptEntriesSuffice` | native/include/fs/ntfs_util.h:152-164 | that is so for any bytes if no entry of the array lies in the tail of an earlier sector |
| `UsaFixup.ApplyUsaFixup` | native/include/fs/ntfs_util.h:141-165 | verdict and patched record, also after a mismatch with earlier tails already restored |
| `Utf.EncodeStands` | native/include/fs/ntfs_util.h:75-91 | every scalar value is encoded as one sequence of the RFC 3629 grammar that decodes to it, whatever follows |
| `Utf.DecodeUndoesEncode` | native/include/fs/ntfs_util.h:75-91 | decoding encoded scalar values gives them back |
| `Utf.AppendUtf8` | native/include/fs/ntfs_util.h:75-91 | the cases with their shifts and masks of 32-bit words append the RFC 3629 encoding of the code point |
| `Bits.ShiftAndMask` | native/include/fs/ntfs_util.h:80-90 | for every word and every width, shifting right is the quotient by the power of two and masking the remainder |
| `Utf.EncodedBytes` | native/include/fs/ntfs_util.h:80-90 | what the shifts and masks put together are the quotients and remainders of the code point, with the lead bits of each byte added |
| `Utf.NextCodePoint` | native/include/fs/ntfs_util.h:94-118 | one turn of the loop: a pair, a replacement character for a lone surrogate, or the unit itself |
| `Utf.Utf16leToUtf8` | native/include/fs/ntfs_util.h:69-121 | the output is well-formed UTF-8 and decodes to the scalar values meant, up to the first zero unit, with U+FFFD for lone surrogates |
| `Utf.ScalarsReadBack` | native/include/fs/ntfs_util.h:94-118 | a name written in UTF-16 (section 2.1 of RFC 2781) is read back as its scalar values, up to a zero unit |
| `Utf.LoneSurrogate` | native/include/fs/ntfs_util.h:94-118 | a surrogate without its partner counts as U+FFFD, and reading goes on behind it |
| `Utf.ForJsKeeps` | native/include/util/utf8_sanitize.h:9-51 | well-formed strings pass utf8ForJs unchanged |
| `Utf.ForJsAppends` | native/include/util/utf8_sanitize.h:9-51 | what is well-formed in front is copied, and the rest is treated as if it stood alone |
| `Utf.ForJsReplaces` | native/include/util/utf8_sanitize.h:9-51 | a byte that cannot lead, or whose next byte is no tail, becomes one question mark; a lead byte too near the end becomes one with all that follows |
| `Utf.ForJsPassesOverlong` | native/include/util/utf8_sanitize.h:9-51 | a concrete overlong sequence passes it too: its output need not be well-formed |
| `Utf.StrictExactlyIfShortest` | native/include/util/utf8_sanitize.h:22-47 | a sequence that utf8ForJs copies fits the grammar of RFC 3629 if and only if it is the shortest form of a scalar value |
| `Utf.ForJsWellFormedExactly` | native/include/util/utf8_sanitize.h:9-51 | the output of utf8ForJs is well-formed if and only if every sequence it copies is the shortest form of a scalar value |
| `Utf.Utf8ForJs` | native/include/util/utf8_sanitize.h:9-51 | the loop equals the recursive description of what is kept, replaced and cut off |
| `Utf.StrictLength` | native/include/util/utf8_sanitize.h:78-100 | the bounds on lead and second byte accept exactly the sequences of section 4 of RFC 3629 |
| `Utf.PreserveSanitizes` | native/include/util/utf8_sanitize.h:65-110 | on any bytes: same length, bytes change to question marks only, and the result is well-formed |
| `Utf.PreserveIdempotent` | native/include/util/utf8_sanitize.h:65-110 | sanitizing twice is sanitizing once |
| `Utf.PreserveFixesExactlyWellFormed` | native/include/util/utf8_sanitize.h:65-110 | a string is left alone if and only if it is well-formed |
| `Utf.PreserveAppends` | native/include/util/utf8_sanitize.h:65-110 | what is well-formed in front stays, and the rest is sanitized as if it stood alone |
| `Utf.PreserveReplacesOne` | native/include/util/utf8_sanitize.h:65-110 | where nothing well-formed begins, one byte is replaced and the rest is sanitized as if it stood alone |
| `Utf.NamesPassSanitizers` | native/include/fs/ntfs_util.h:69-121 | decoded file names pass both sanitizers unchanged |
| `Utf.Utf8SanitizeLenientPreserving` | native/include/util/utf8_sanitize.h:65-110 | the loop computes the sanitized string that those lemmas are about |
| `RunsCodec.ParseU64` | native/src/db/runs_codec.cpp:21-33 | success if and only if the text is a non-empty decimal number that fits in 64 bits, and then its value |
| `RunsCodec.SerializeRuns` | native/src/db/runs_codec.cpp:6-17 | the loop writes the entries in order, the byte count only where it is positive |
| `RunsCodec.SerializedExamples` | native/src/db/runs_codec.cpp:6-17 | the texts of native/tests/test_runs_codec.cpp |
| `RunsCodec.EntryReadsBack` | native/src/db/runs_codec.cpp:47-61 | an entry is read back as its run, or refused exactly if the sector count is zero |
| `RunsCodec.DeserializeUndoesSerialize` | native/src/db/runs_codec.cpp:6-71 | a stored list comes back if every sector count is positive, and as the empty list otherwise |
| `RunsCodec.ReadNumbers` | native/src/db/runs_codec.cpp:49-61 | the comma positions in the whole text pick out the numbers of the entry |
| `RunsCodec.ReadEntry` | native/src/db/runs_codec.cpp:43-64 | one turn of the loop reads one entry or stops where the grammar stops |
| `RunsCodec.DeserializeRuns` | native/src/db/runs_codec.cpp:37-71 | for every text, well-formed or not, the index-driven loops give what the grammar-level reader gives |
| `ZipRepair.MembersAre` | native/include/carver/file_validators.h:234-257 | the members found are consecutive local headers from the start, each described faithfully, up to where no header follows or the cap is reached |
| `ZipRepair.CentralReadsBack` | native/include/carver/file_validators.h:271-292 | a written directory entry parses back (section 4.3.12 of APPNOTE.TXT) to the member, its versions are 20 and its other fields 0, and what follows it follows |
| `ZipRepair.LocalReadsBack` | native/include/carver/file_validators.h:233-257 | a local header laid out as section 4.3.7 of APPNOTE.TXT says is the member it describes, and what follows begins behind its data |
| `ZipRepair.DescriptorBit` | native/include/carver/file_validators.h:236-238 | a member has a data descriptor if and only if its flags masked with 0x0008 are not zero |
| `ZipRepair.StreamedIsLeftAlone` | native/include/carver/file_validators.h:236-238 | no member with bit 3 set is ever listed, and an archive that begins with one is left alone |
| `ZipRepair.FlagsExample` | native/include/carver/file_validators.h:236-238 | a header with flags 0x0004 is repaired, one with flags 0x0008 is not |
| `ZipRepair.EocdInReach` | native/include/carver/file_validators.h:217-226 | an end record is found if and only if it begins at most 22 + 65535 bytes before the end |
| `ZipRepair.RepairReadsBack` | native/include/carver/file_validators.h:260-302 | below 4 GiB the old bytes stay in front, the directory parses back to the members, and the end record (section 4.3.16) at the very end agrees in count, size and offset |
| `ZipRepair.RepairKeepsMembers` | native/include/carver/file_validators.h:213-303 | the entries describe the local headers of the repaired archive, and a second repair finds nothing to do |
| `ZipRepair.RepairRaisesScore` | native/include/carver/file_validators.h:190-303 | a repair lifts the score from at most 60 to at least 70 |
| `ZipRepair.RepairScoresFull` | native/include/carver/file_validators.h:190-303 | the repaired archive scores 95 unless its last name is longer than 65489 bytes |
| `ZipRepair.FindEocd` | native/include/carver/file_validators.h:217-226 | the loop finds an end record signature in the last 65557 bytes if there is one |
| `ZipRepair.CollectLocals` | native/include/carver/file_validators.h:233-257 | the walk collects exactly the members, or gives up on a data descriptor or a member that reaches past the end |
| `ZipRepair.ValidateZip` | native/include/carver/file_validators.h:190-208 | the score by start signature, directory entry and end record |
| `ZipRepair.ByteBuffer.RebuildMissingZipDirectory` | native/include/carver/file_validators.h:213-303 | true exactly if there are members and no end record; then the directory and end record are appended, otherwise the buffer is unchanged |

## Left out

- ParallelCarve.ParallelRefinesSequential: takes the records of a range as a function of the range, as the comment in the source does, so the shared budget of gap searches is taken not to run out; sorting enters only as a permutation (ParallelCarve.OrderIsIrrelevant).
- ParallelCarve.NeverStuck: a critical section, a notification and an atomic access are one step each, in an order that all threads agree on, so the relaxed memory orders of the source are not modelled; the consumer's timed wait is one step that may end at any moment, so its own signal is not needed and not counted.
- ParallelCarve.RunInv: thread creation, the cloning of readers (and the fall through to the sequential loop when cloning fails) are not part of the state machine; merging bad-sector telemetry is a step that may fail, and its result is not modelled.
- CarveScan.ScanRange: a record carries the candidate only; size, confidence, hash and metadata of a record, and the parsers that refine them, enter as an arbitrary predicate on candidates. No cancel; the one record about unread sectors and the progress ticks are not among the records.
- RangeScan.CarveRange: makes all reads of the range first and then scans what came through; the source takes each read through the scan before it makes the next, which no read depends on. What a read gives is an arbitrary function of the read.
- CarveScan.StartIsExact: start plus maximal size is an unbounded sum; the source adds in 64 bits.
- ActiveCarves.CarveTable.CloseByFooter: the record that a gap search rescues is a record like any other; its runs are not computed.
- ActiveCarves.CarveTable.OpenCandidate: the ordered map and the ordered sets of the source are sequences kept in order.
- SubReads.ReadChunk: without a cancel between sub-reads; a read is an arbitrary outcome that may change from try to try.
- GapCarve.BifragmentedGapCarve: without a cancel, and for spans inside the buffer, as the caller passes them; the validator is an arbitrary score function.
- GapCarve.TriFragmentedGapCarve: the same.
- ResumePlan.ParallelPlan: sector arithmetic is unbounded; the thresholds that decide between the two paths and what a checkpoint covers after a cancel are not modelled.
- LdmRemap.RemapPreservesSectors: sector arithmetic is unbounded, and the parts are contiguous, which the callers check first.
- Aes.InvCipherUndoesCipher: key expansion is not modelled; the round keys are arbitrary.
- Ccm.AesCcmEncrypt: the block cipher is an arbitrary function; lengths are unbounded, and the three length bytes are those of the source, so they wrap.
- Md5.DigestOf: the compression function and its constants are arbitrary; the hexadecimal form of the digest is left out.
- Raid6.RecoverTwoBlocks: the healthy slots are visited in slot order; the layout of disks and parity, failed reads and the copying of the wanted part of a block are left out.
- Lznt1.Lznt1Decompress: requires that the output fits where a literal chunk begins, because the source subtracts there; what the buffer holds after malformed input is not stated.
- UsaFixup.ApplyUsaFixup: requires that the sector size is not 1 where the guards pass (UsaFixup.TailsBeginInside); there the source would subtract below zero.
- ZipRepair.RepairReadsBack: for buffers below 4 GiB, as offsets have 32 bits.
- RunsCodec.DeserializeUndoesSerialize: for runs whose numbers have 64 bits, as the fields of the source do.
- Null arguments are not modelled: arrays and sequences are always there.
- Loading of signatures, the longest pattern length and the overlay file.
- The individual file-type validators and structural parsers, except the one for archives.
- Disk access, Windows, HTTP, SQLite, the Node bindings, the desktop shell and its renderer.
- The other file systems, EWF images, deduplication and the audit log, which would need code that is not part of this model.
