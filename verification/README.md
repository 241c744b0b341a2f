# Verified cores of a coreutils in Go

A Dafny model of the hardest algorithms of this set of Unix tools, with proofs of what the
tools promise. `dafny verify dfyconfig.toml` checks everything; nothing here is executed.

The parts, one module to a file:

- **diff.** The linear-space Myers search (`EditGraph`, `Myers`) is proved to return a
  cheapest edit script for all inputs. The textbook furthest-reaching invariant is false of
  this code, because diagonals are dropped once they run past an edge; the proof follows
  only the points of cheapest walks and an arithmetic bound on what may be dropped.
  `Groups` slides and pairs the changed lines. `EdScript` and `Unified` print them, each
  against an interpreter of its format that reads the printed text back;
  `UnifiedContext` says which lines the hunks show. `Compare` goes from the bytes of two
  files to the report and back to the new file.
- **dd.** Two concurrent protocols as state machines: the self-pipe notifier against any
  number of `Stop` calls (`Notifier`), and the shared lease on O_NONBLOCK with every
  read-modify-write split in two so that the descriptor's owner can step in between
  (`Lease`). The output pipeline: re-blocking and counting (`Records`), fixed-width
  records (`Blocking`, `BlockWriters`) and the EBCDIC tables (`Ebcdic`).
- **basenc.** Base58 by in-place carries over unbounded numbers (`Radix`, `Alphabet`,
  `Base58`), Z85 with its 32-bit accumulator (`Z85`), base16 and both base2 orders
  (`Base16`, `Base2`), and the streaming line wrapper (`Wrap`).
- **cksum.** The table-driven POSIX CRC against long division over GF(2) (`Crc`).
- **cut.** The LIST grammar and its one-pass reader (`CutList`), that a LIST written out
  is read as meant (`CutPrint`), merging and complementing of ranges (`CutRanges`), the
  field scanner (`CutLines`), byte mode and the refill buffer (`CutProcess`).
- **file.** Sparse inspection of a file by offset or from a stream (`Inspect`,
  `InspectFile`).
- **expr.** The parser that evaluates as it reads, against trees (`Expr`, `ExprParser`,
  `ExprMachine`), and what it computes on command lines (`ExprLaws`).
- **factor.** Trial division and unique factorization (`Factor`).
- Shared: `Common` definitions, `Decimal` numerals, `Lines` of text, `Streams` of bytes,
  `Int64` arithmetic.

Integers are unbounded except where the source's width matters: there the wrap-around is
written out (context arithmetic of unified diffs, `hi+1` in cut, 32-bit accumulation in
Z85, 32-bit CRC words, 64-bit offsets in file, 64-bit lengths in cksum). Readers, sinks,
system calls and the regular-expression matcher are parameters: a reader gives out its
bytes in any chunks and ends or fails, a system call succeeds or fails as an action of the
run says, and the matcher is any function.

Properties that turned out to be false of the code, each with an input that shows it and
with the exact condition under which the code meets it:

- Unified hunks overlap or leave the file when the context length wraps, and patch then
  refuses them (`Unified.HunksSoundIffNoWrap`, `Unified.PatchGivesNewIffNoWrap`; the input
  is `Unified.WrapMakesHunksOverlap`).
- cut's merged ranges overlap after an open range, and byte mode then prints bytes twice
  (`CutRanges.MergeRanges`, `CutProcess.ByteModeIff`; the list 2-,4 in
  `CutRanges.OpenRangeOverlaps`, `CutProcess.OpenRangePrintsTwice`); field mode and
  `--complement` are right for every list.
- expr's `match S P` is not `S : P` when an operand's value looks like a guard, a
  parenthesis or a function name (`ExprParser.MatchIsColonIff`; the command line is in
  `ExprParser.MatchOfLength`).
- conv=ibm followed by conv=ascii loses five bytes (`Ebcdic.IbmDiffers`).
- The O_NONBLOCK lease does not protect two descriptor numbers of one blocking file
  (`Lease.HeldIffOneNumberPerFile`, `Lease.AliasBreaksTheLease`), as its own comment says.
- An owner's flag update between a read and its write-back is lost (`Lease.UpdateKeptIff`;
  the runs are `Lease.LostInAcquire` and `Lease.LostInRestore`), although the comment in
  `restore` suggests that it is kept.

## Model

| member | source | states |
|---|---|---|
| Myers.MyersOps | cmds/diff/myers.go:23-27 | For all key sequences the result is a script that walks both in order and keeps only equal keys, no valid script has fewer deletions plus insertions, and its cost is the edit distance. |
| Myers.MyersRec | cmds/diff/myers.go:29-73 | What is appended is a minimal script of the two parts; the full-replacement fallback is proved unreachable and the recursion terminates on the lengths. |
| Myers.Bisect | cmds/diff/myers.go:78-162 | For all inputs, without common ends or with, the search succeeds inside its arrays and returns a point half way along some cheapest walk, for both parities of the length difference. |
| Myers.MiddleIsInside | cmds/diff/myers.go:53-68 | Such a point is neither corner when the two parts differ in their first and last elements, so both halves are smaller. |
| Myers.ForwardRound | cmds/diff/myers.go:101-128 | One forward round keeps the frontier invariant (sound, as far as every cheapest walk, pruned only past need) or returns a middle point. |
| Myers.ReverseRound | cmds/diff/myers.go:130-159 | The same for the frontier from the far corner, in reversed coordinates. |
| Myers.StartColumn | cmds/diff/myers.go:102-108 | Taking the better neighbour of the previous row starts the diagonal no later than any cheapest walk reaches it. |
| Myers.ForwardSnake | cmds/diff/myers.go:109-113 | Following equal elements costs no edit and stops exactly at the first difference or an edge. |
| Myers.NotPruned | cmds/diff/myers.go:115-119 | A diagonal dropped after running past an edge is one no cheapest walk still needs. |
| Myers.OverlapSplits | cmds/diff/myers.go:120-126 | When the frontiers meet on a diagonal within the total distance the meeting point splits a cheapest walk in half. |
| Myers.CommonPrefix | cmds/diff/myers.go:31-34 | The longest common prefix. |
| Myers.CommonSuffix | cmds/diff/myers.go:35-38 | The longest common suffix not overlapping the prefix. |
| Myers.MinimalScriptIsCheapest | cmds/diff/myers.go:19-27 | A script whose cost is the edit distance costs no more than any other script. |
| EditGraph.WalkCostsAtLeastTail | cmds/diff/myers.go:19-27 | Every walk from a point to the end costs at least the distance recurrence there, an independent definition of edit distance. |
| EditGraph.StrippedDistance | cmds/diff/myers.go:47-68 | Two texts that differ in their first and in their last elements are at least two edits apart, so that a split in half leaves work on both sides. |
| Myers.StripPrefixDistance | cmds/diff/myers.go:31-34 | Stripping the longest common prefix leaves the edit distance unchanged. |
| Myers.StripSuffixDistance | cmds/diff/myers.go:35-38 | So does stripping the common suffix. |
| EditGraph.ReversedGraph | cmds/diff/myers.go:129-159 | Distances from the far corner are distances of the reversed sequences. |
| Groups.DiffGroups | cmds/diff/diff.go:681-723 | The groups are ordered, separated by at least one aligned unchanged line, as low as they go, and hold exactly as many changed lines as the edit distance. |
| Groups.SlideDown | cmds/diff/diff.go:729-753 | The in-place slide keeps the unchanged keys in order and the number of changed lines, and leaves no run that could move one line lower. |
| Groups.SlideOnce | cmds/diff/diff.go:743-749 | Moving one run down past a line equal to its first changes neither the unchanged keys nor the count. |
| Groups.MarkChanged | cmds/diff/diff.go:683-698 | The marks on both sides leave the same unchanged keys and count the script's cost. |
| Groups.RunEnd | cmds/diff/diff.go:709-714 | The end of a run of changed lines; what is kept before and after it is the same. |
| Groups.RewriteGivesNew | cmds/diff/diff.go:672-680 | Replacing each group's old keys by its new ones rewrites the old sequence into the new one. |
| Groups.SizeIsEnough | cmds/diff/diff.go:672-723 | No group list that leaves the same lines outside has fewer changed lines than the edit distance. |
| Lines.Prep | cmds/diff/diff.go:587-611 | Splitting and interning: lines and the final-newline flag give the file back byte for byte, and each line's id is that of its key. |
| Lines.SameKeySameLine | cmds/diff/diff.go:599-610 | Under exact comparison two ids agree exactly when the lines and their missing newlines do. |
| Lines.SplitJoin | cmds/diff/diff.go:591-597 | Joining and splitting lines at newlines is the identity on newline-free lines. |
| EdScript.ScriptGivesNew | cmds/diff/diff.go:762-798 | An ed interpreter run on the script turns the old lines into the new lines, for every aligned group list, including lone-period lines. |
| EdScript.RunBlock | cmds/diff/diff.go:779-798 | In input mode the block inserts exactly its lines, whatever they contain. |
| EdScript.RunGroup | cmds/diff/diff.go:762-777 | One group's commands replace its old lines by its new ones and nothing else. |
| EdScript.ScriptIsOneLiners | cmds/diff/diff.go:762-798 | Every line of the script is one line, so the interpreter sees the lines that were printed. |
| EdScript.EmitEd | cmds/diff/diff.go:762-777 | The emitter writes that script, last group first. |
| EdScript.EmitEdBlock | cmds/diff/diff.go:779-798 | The emitter writes the block with its detour for a lone period. |
| EdScript.ParseRange | cmds/diff/diff.go:865-870 | A printed range reads back as the same line numbers. |
| EdScript.CommandOf | cmds/diff/diff.go:762-777 | A group's first line reads as its old lines with c or d, or as the line after which it inserts with a, and has a comma exactly for more than one old line. |
| Unified.HunksSoundIffNoWrap | cmds/diff/diff.go:887-901 | Hunks are in bounds, ordered and disjoint on both sides exactly when the context arithmetic does not wrap. |
| Unified.WrapMakesHunksOverlap | cmds/diff/diff.go:889-899 | A context of 2^62 lines doubles to a negative number and two hunks claim the same line. |
| Unified.HunksFit | cmds/diff/diff.go:887-901 | Without wrap-around all hunks from any starting group fit. |
| Unified.PatchGivesNewIffNoWrap | cmds/diff/diff.go:883-948 | For every context length: a patch program that checks every header and every old line rebuilds the new lines from the old ones and the printed hunks exactly when the context arithmetic does not wrap, and otherwise refuses the patch. |
| Unified.PatchGivesNew | cmds/diff/diff.go:883-948 | The direction without wrap-around. |
| Unified.HunkPasses | cmds/diff/diff.go:887-934 | In any state the patch program stops at a printed hunk or goes on after it, and stops for certain at one whose end wraps, because its header announces lines it does not have. |
| Unified.HunkApplies | cmds/diff/diff.go:902-934 | One printed hunk applies at its place and consumes exactly the counts in its header. |
| Unified.ReadPrintedHeader | cmds/diff/diff.go:939-948 | A printed range header reads back as the same ranges, empty sides included. |
| Unified.EmitUnified | cmds/diff/diff.go:883-937 | The emitter prints those hunks, for every context length; UnifiedContext.ContextShown says which lines they show. |
| Unified.OutputIsOneLiners | cmds/diff/diff.go:902-934 | Every line of the hunks is one line, so the patch program sees the lines that were printed. |
| UnifiedContext.ContextShown | cmds/diff/diff.go:887-901 | Read back from the print without wrap-around: an old line is shown exactly when it is within the context length of a changed line or insertion point, a line that is not shown lies between any two hunks, each hunk holds a change and every change is in one. |
| UnifiedContext.HunkShows | cmds/diff/diff.go:892-899 | One hunk shows the lines near its groups and no others. |
| UnifiedContext.MergeCovers | cmds/diff/diff.go:889-891 | Groups are merged as long as the lines near them leave no gap. |
| UnifiedContext.CountPrintedIff | cmds/diff/diff.go:939-948 | The count of a range is printed exactly when it is not one. |
| Compare.CompareEd | cmds/diff/diff.go:506-572 | From two files' bytes: no difference exactly when they are equal, binary files are not compared by line, and otherwise ed, fed the printed script, turns the lines of the old file into those of the new; no other way of aligning the lines changes fewer of them; trouble is reported exactly when a final newline is missing, which ed then adds. |
| Compare.CompareUnified | cmds/diff/diff.go:506-572 | The same for the printed unified diff: patch makes the new file byte for byte, missing final newlines included, exactly when the context arithmetic does not wrap, and refuses the hunks otherwise; as few lines as possible are changed, and exactly the lines within the context length of a change are shown. |
| Compare.FewestLines | cmds/diff/diff.go:599-611 | Groups that are minimal on interned keys are minimal on the lines themselves. |
| Compare.NoGroupsSameText | cmds/diff/diff.go:534-537 | No groups means the files are equal. |
| Notifier.RunIsSafe | cmds/dd/interrupt_unix.go:44-129 | In every run of the goroutine against any number of Stop calls the pipe is open whenever it is written, the signal is stored at most once, and after a Stop has returned a signal that reached the channel is visible. |
| Notifier.ClosedOnce | cmds/dd/interrupt_unix.go:93-129 | Each channel and the pipe are found open when they are closed. |
| Notifier.NoDeadlock | cmds/dd/interrupt_unix.go:93-102 | While a Stop call has not returned some step other than a delivery is enabled. |
| Notifier.RunIsBounded | cmds/dd/interrupt_unix.go:44-129 | A run has no more steps of its own than the work in its first state, however signals arrive. |
| Notifier.QuietMeansReturned | cmds/dd/interrupt_unix.go:93-102 | A run with no step of its own left has let every Stop return. |
| Notifier.StepKeepsInv | cmds/dd/interrupt_unix.go:44-129 | Every step keeps the invariant of the once, the channels, the pipe and the stored signal. |
| Lease.RunIsSafe | cmds/dd/interrupt_unix.go:144-217 | In every interleaving of acquires, restores and owner updates, on any table without two numbers for one blocking file: a registry entry exactly while guards live, its count their number, the bit set meanwhile and back to its first value after, other flags the owner's, every anchor closed once. |
| Lease.StepKeepsInv | cmds/dd/interrupt_unix.go:161-217 | Every half of every critical section keeps the invariant. |
| Lease.FlagsComeBack | cmds/dd/interrupt_unix.go:191-217 | With no owner update and no failing call the whole flag word is back after the last restore. |
| Lease.RestoreTwice | cmds/dd/interrupt_unix.go:192-196 | Restoring a guard again, after anything, does nothing. |
| Lease.Granted | cmds/dd/interrupt_unix.go:161-188 | If no call fails, an acquire adds one live guard, on the registered lease or on a new one. |
| Lease.HeldIffOneNumberPerFile | cmds/dd/interrupt_unix.go:135-143 | Every run keeps the bit set under live guards exactly when no two descriptor numbers share an open file description in blocking mode. |
| Lease.AliasBreaksTheLease | cmds/dd/interrupt_unix.go:135-143 | For any two such numbers a run of six steps clears the bit under a live guard. |
| Lease.UpdateKeptIff | cmds/dd/interrupt_unix.go:174-213 | After every run the other flags are what the owner last asked for, exactly when that last update was not made between dd's reading of the flag word and a successful write-back of a different one. |
| Lease.LostInAcquire | cmds/dd/interrupt_unix.go:174-186 | On any blocking descriptor a three-step run, the owner stepping in while the bit is borrowed, leaves the flags as dd read them. |
| Lease.LostInRestore | cmds/dd/interrupt_unix.go:206-213 | So does a five-step run with the owner stepping in while the bit is given back. |
| Lease.LateRestore | cmds/dd/interrupt_unix.go:138-143 | Even if descriptor numbers are closed and used again at any time, dd never changes the flags of a file it was not asked to acquire: a late restore goes through its anchor. |
| Base58.DecodeEncode | cmds/basenc/basenc.go:439-505 | Decoding what was encoded gives every byte string back. |
| Base58.EncodeDecode | cmds/basenc/basenc.go:439-505 | Encoding what was decoded gives every string over the alphabet back. |
| Base58.LeadingOnes | cmds/basenc/basenc.go:443-468 | As many leading '1's as leading zero bytes and no other leading zero digit. |
| Base58.SameNumber | cmds/basenc/basenc.go:439-469 | Letters and bytes, each read most significant first, are the same number. |
| Base58.AlphabetIs | cmds/basenc/basenc.go:433-437 | The letters are the ASCII digits and letters in order without 0, O, I and l. |
| Base58.EncodeBase58 | cmds/basenc/basenc.go:439-469 | The in-place carry loops compute the big-number encoding. |
| Base58.DecodeBase58 | cmds/basenc/basenc.go:471-505 | The in-place loops compute the decoding; text outside the alphabet is refused unless ignored. |
| Base58.WrappedRoundTrip | cmds/basenc/basenc.go:439-562 | Encoded, wrapped at any width and decoded, the bytes come back. |
| Radix.MulAdd | cmds/basenc/basenc.go:450-455 | One pass of the carry loop multiplies the number in the array and adds a digit. |
| Radix.Absorb | cmds/basenc/basenc.go:449-460 | A pass followed by the growing loop is the digits of the new number, with no leading zero. |
| Radix.DigitsOfValue | cmds/basenc/basenc.go:433-505 | A number has one digit string without leading zeros. |
| Alphabet.FilterBytes | cmds/basenc/basenc.go:507-519 | Newlines are dropped, other foreign bytes are dropped or refused. |
| Wrap.WrapWriter.Write | cmds/basenc/basenc.go:529-554 | However the text is split into writes, the output is the text broken every cols bytes. |
| Wrap.WrapWriter.Finish | cmds/basenc/basenc.go:556-562 | The last line is ended exactly when a line was begun. |
| Wrap.WrappedFits | cmds/basenc/basenc.go:523-562 | No wrapped line is longer than cols. |
| Wrap.BrokenAt | cmds/basenc/basenc.go:529-554 | Byte r of line q stands after exactly q newlines, so every line but the last is full. |
| Wrap.WrappedDecodes | cmds/basenc/basenc.go:507-562 | Filtering a wrapped text gives the text back. |
| Z85.DecodeEncode | cmds/basenc/basenc.go:394-431 | Decoding what was encoded gives every byte string of length divisible by four back, and the 32-bit accumulator never wraps. |
| Z85.SameNumber | cmds/basenc/basenc.go:400-408 | Four bytes and their five letters, each read most significant first, are the same number. |
| Z85.Hello | cmds/basenc/basenc.go:388-410 | The bytes 86 4F D2 6F are Hello. |
| Z85.EncodeZ85 | cmds/basenc/basenc.go:394-410 | The block encoder computes the encoding, lengths not divisible by four are refused. |
| Z85.DecodeZ85 | cmds/basenc/basenc.go:412-431 | The accumulator computes the decoding; other lengths and letters are refused. |
| Z85.Accumulate | cmds/basenc/basenc.go:420-426 | Five letters accumulate to their base-85 value modulo 2^32. |
| Z85.WrappedRoundTrip | cmds/basenc/basenc.go:388-562 | Encoded, wrapped and decoded, the bytes come back without wrap-around. |
| Base16.UnhexHex | cmds/basenc/basenc.go:208-223 | The digits of any bytes read back as the bytes. |
| Base16.HexAt | cmds/basenc/basenc.go:327-334 | Each byte is its high half and then its low half. |
| Base16.HexUnhex | cmds/basenc/basenc.go:211-223 | Digits of either letter case, decoded and encoded again, are the same digits in upper case. |
| Base16.AnyCase | cmds/basenc/basenc.go:211-223 | Two digit strings decode to the same bytes exactly when they are the same but for letter case. |
| Base16.EncodeStream | cmds/basenc/basenc.go:323-341 | However the payload is split into writes, the text is the hexadecimal of the whole. |
| Base16.DecodeBase16 | cmds/basenc/basenc.go:211-223 | The decoder accepts exactly an even number of digits. |
| Base16.WrappedRoundTrip | cmds/basenc/basenc.go:208-562 | Encoded, wrapped and decoded, the bytes come back. |
| Base2.DecodeEncode | cmds/basenc/basenc.go:343-386 | Decoding what was encoded gives the bytes back, most or least significant bit first. |
| Base2.BitOrder | cmds/basenc/basenc.go:347-363 | The last letter, or in the other order the first, is the lowest bit, and the others are those of half the byte. |
| Base2.GatherLetters | cmds/basenc/basenc.go:370-382 | Eight letters gather to the byte they spell, in both orders. |
| Base2.EncodeBase2 | cmds/basenc/basenc.go:347-363 | The encoder spells eight letters a byte. |
| Base2.DecodeBase2 | cmds/basenc/basenc.go:364-384 | The decoder accepts exactly a multiple of eight letters. |
| Base2.WrappedRoundTrip | cmds/basenc/basenc.go:343-562 | Encoded, wrapped and decoded, the bytes come back. |
| Records.ObsWriter.Write | cmds/dd/dd.go:859-882 | Any split of the payload into writes leaves full records delivered and less than one buffered. |
| Records.ObsWriter.Flush | cmds/dd/dd.go:884-894 | Afterwards the records are the payload cut every obs bytes, full and partial count whole and broken records, and every byte was counted. |
| Records.Reblock | cmds/dd/dd.go:852-894 | For every list of chunks: records, counts and byte total depend on the bytes only. |
| Records.Counter.Write | cmds/dd/dd.go:744-748 | A write passes through and adds its length. |
| Records.ChunksJoin | cmds/dd/dd.go:852-894 | The records put together are the payload. |
| Records.ChunksWhole | cmds/dd/dd.go:852-894 | Every record but the last is whole and none is empty. |
| BlockWriters.BlockWriter.Write | cmds/dd/dd.go:766-781 | Any split of the input leaves the lines so far written and the open line cut to the width. |
| BlockWriters.BlockWriter.Emit | cmds/dd/dd.go:783-799 | A line goes out cut, padded with spaces and then translated; an overflow is counted. |
| BlockWriters.BlockWriter.Flush | cmds/dd/dd.go:801-806 | The output is the whole input blocked, and the truncation count is the number of lines longer than cbs. |
| BlockWriters.UnblockWriter.Write | cmds/dd/dd.go:816-826 | Any split of the input leaves the whole records written as lines. |
| BlockWriters.UnblockWriter.Emit | cmds/dd/dd.go:828-841 | A record goes out without its trailing spaces and with a newline. |
| BlockWriters.UnblockWriter.Flush | cmds/dd/dd.go:843-848 | The output is the whole input unblocked, a short last record included. |
| BlockWriters.TranslateBytes | cmds/dd/conv_tables.go:137-141 | The in-place substitution maps every byte. |
| BlockWriters.RunBlock | cmds/dd/dd.go:409-441 | conv=block, ebcdic or ibm in front of the re-blocking writer: output records, counts and truncations for any chunking. |
| BlockWriters.RunAscii | cmds/dd/dd.go:685-697 | conv=ascii: each chunk translated in its buffer, then unblocked and re-blocked, for any chunking. |
| BlockWriters.ThereAndBack | cmds/dd/dd.go:757-848 | A conv=ebcdic run whose output blocks a conv=ascii run reads prints each line cut to cbs, without trailing spaces, with a newline. |
| Blocking.EbcdicThenAscii | cmds/dd/dd.go:757-848 | The same on whole texts. |
| Blocking.SameTextIffClean | cmds/dd/dd.go:757-848 | The text itself comes back exactly when it is empty or ends in a newline, no line is longer than cbs and none ends in a space. |
| Blocking.LinesOf | cmds/dd/dd.go:766-781 | A text is its lines in one way only. |
| Blocking.PaddedAt | cmds/dd/dd.go:783-793 | A record is the line's first bytes and spaces to its end. |
| Blocking.LongNext | cmds/dd/dd.go:774-798 | A line counts as truncated exactly when it is longer than cbs. |
| Ebcdic.AsciiOfEbcdic | cmds/dd/conv_tables.go:21-91 | The ASCII table undoes the EBCDIC table on all 256 bytes. |
| Ebcdic.IbmDiffers | cmds/dd/conv_tables.go:93-130 | The IBM table differs from the EBCDIC table at exactly five bytes, which are exactly those the ASCII table does not bring back. |
| Ebcdic.IbmMerges | cmds/dd/conv_tables.go:93-130 | No table could: two pairs of bytes get the same code. |
| Ebcdic.LettersAndDigits | cmds/dd/conv_tables.go:57-91 | Digits and the three blocks of capital and of small letters lie where EBCDIC has them. |
| Crc.Cksum | cmds/cksum/cksum.go:932-951 | For every message and every split into reads: the complement of the GF(2) remainder of the message followed by the bytes of its length (byte i weighs 256^i and the last is not zero, as Crc.LengthBytesAre and Crc.OneLength settle), and the length modulo 2^64. |
| Crc.LengthBytesAre | cmds/cksum/cksum.go:948-950 | The length bytes are the base-256 numeral of the length, lowest byte first, with no zero at its end. |
| Crc.OneLength | cmds/cksum/cksum.go:948-950 | There is only one such list of bytes. |
| Crc.Generator | cmds/cksum/cksum.go:1060-1075 | The generator by its exponents. |
| Crc.ChecksumOfA | cmds/cksum/cksum.go:932-951 | The checksum of the one byte 97 is 1220704766. |
| Crc.RegisterIsRemainder | cmds/cksum/cksum.go:1060-1075 | The bit-at-a-time shift register holds the remainder of long division of the message times x^32 by the generator 0x04c11db7. |
| Crc.TableStep | cmds/cksum/cksum.go:937-939 | For any 32-bit state and byte one table lookup is eight bit steps. |
| Crc.MakeTable | cmds/cksum/cksum.go:1060-1075 | The nested loops fill the table with eight shifts of each index. |
| Crc.AbsorbLength | cmds/cksum/cksum.go:948-950 | The length's bytes are absorbed, lowest first, none for zero. |
| Factor.WriteUintFactors | cmds/factor/factor.go:77-111 | For every n below 2^64 the printed terms stand for the primes of n in order, with product n (nothing for 0 and 1); with exponents each prime is printed once; the loop counter stays inside 64 bits and the loop ends. |
| Factor.OneFactorization | cmds/factor/factor.go:77-111 | There is only one such list of primes. |
| Factor.Tally.Add | cmds/factor/factor.go:83-88 | Counting a prime appends it to the factors found; a prime counted before is the last one. |
| Factor.Tally.Print | cmds/factor/factor.go:102-110 | Both printed forms stand for the factors found. |
| Factor.DivideOut | cmds/factor/factor.go:89-98 | Dividing a prime out keeps found factors times rest equal to n and leaves no multiple of it. |
| Factor.GuardBound | cmds/factor/factor.go:93-93 | The guard keeps the counter and its next value below 2^64. |
| CutList.ParseList | cmds/cut/cut.go:236-324 | The one-pass state machine computes the grammar's result, ranges or the first error with its digits, on every list. |
| CutList.NumberIff | cmds/cut/cut.go:300-318 | A number is accepted exactly when it is all digits and at most 9223372036854775799. |
| CutList.ReadListProper | cmds/cut/cut.go:236-324 | An accepted list has at least one range, all of them positive and in order. |
| CutPrint.ListMeans | cmds/cut/cut.go:236-324 | Any list of N, N-, -M and N-M, written out with any separators, is accepted and selects exactly the positions meant. |
| CutPrint.ReadListWritten | cmds/cut/cut.go:236-324 | It reads back as its ranges, in order. |
| CutPrint.WrongItems | cmds/cut/cut.go:236-324 | Zero, a lone dash, a range that runs backward and a number past the largest each give their own error. |
| CutRanges.MergeRanges | cmds/cut/cut.go:326-352 | For every list the merged ranges select the same positions; they are pairwise apart exactly when an open range appears once and no other range is open or begins after it. |
| CutRanges.MergeCovers | cmds/cut/cut.go:336-351 | Merging sorted ranges keeps the selected positions although the sum of hi and 1 wraps. |
| CutRanges.MergeSeparatedIff | cmds/cut/cut.go:341-346 | The merged ranges are separated exactly when, in order, only the last is open. |
| CutRanges.OpenRangeOverlaps | cmds/cut/cut.go:341-346 | The list 2-,4 keeps both ranges. |
| CutRanges.ComplementRanges | cmds/cut/cut.go:354-370 | Exactly the positions not selected, in separated ranges, whatever the merge left. |
| CutLines.ScanFields | cmds/cut/cut.go:475-534 | The scanner prints the selected fields with output delimiters between them, for ranges in order of their lower ends. |
| CutLines.FieldsJoin | cmds/cut/cut.go:475-534 | The fields with delimiters between them are the line. |
| CutLines.FieldsWithout | cmds/cut/cut.go:475-534 | No field holds a delimiter, nor runs into the next one. |
| CutProcess.ScanBytes | cmds/cut/cut.go:541-557 | Byte mode prints one piece for each range that begins in the line. |
| CutProcess.ByteModeIff | cmds/cut/cut.go:541-557 | Those pieces are the selected bytes, each once and in order, exactly when no range begins in the line after an open one. |
| CutProcess.SeparatedIsNotLate | cmds/cut/cut.go:541-557 | Separated ranges meet that condition on every line. |
| CutProcess.OpenRangePrintsTwice | cmds/cut/cut.go:541-557 | The list 2-,4 prints the fourth byte twice. |
| CutProcess.EmitLine | cmds/cut/cut.go:419-564 | The emitter computes a line's output in field and byte mode, which FieldOutput, UndelimitedLine and ByteModeIff pin down. |
| CutProcess.Cutter.Process | cmds/cut/cut.go:372-417 | The refill buffer prints what the whole input comes to, however the reads cut it up; after a read error what its terminated lines come to. |
| CutProcess.Cutter.MakeRoom | cmds/cut/cut.go:378-389 | Sliding or growing the buffer keeps the unread window and makes room. |
| CutProcess.Drain | cmds/cut/cut.go:394-403 | Every terminated line of the window is printed and none is left. |
| CutProcess.FieldOutput | cmds/cut/cut.go:465-534 | A delimited line comes to the fields its LIST asks for, or with --complement the others. |
| CutProcess.WantedNext | cmds/cut/cut.go:475-534 | Field k is taken exactly when the LIST asks for position k. |
| CutProcess.UndelimitedLine | cmds/cut/cut.go:465-476 | A line in which the delimiter stands nowhere passes whole with its terminator, or with -s not at all. |
| CutProcess.UndelimitedInput | cmds/cut/cut.go:372-476 | An input without the delimiter comes back unchanged, or with -s nothing of it. |
| CutProcess.Cut | cmds/cut/cut.go:236-417 | From the LIST and the stream to the output, with the usage errors; an input without the delimiter comes back unchanged, or with -s empty. |
| Inspect.MergeRanges | cmds/file/file.go:263-279 | The merged ranges ask for the same positions, with a gap between any two. |
| Inspect.BytesAt | cmds/file/file.go:288-314 | A window is answered exactly when every byte of it is kept (an empty one always), with the file's bytes; a wrapping end is refused. |
| Inspect.InspectReaderAt | cmds/file/file.go:316-336 | If every run of positions asked for can be read, what is kept is exactly what the ranges ask for within the file; otherwise the first run that is too wide or fails to read gives the error. |
| Inspect.Window | cmds/file/file.go:288-336 | After an inspection a window is answered exactly when it lies in the file and all of it was asked for. |
| Inspect.PrefixFound | cmds/file/file.go:281-286 | The prefix is the file up to the first position not asked for. |
| InspectFile.InspectRegular | cmds/file/file.go:338-350 | Inspection succeeds exactly when every run asked for, and the PE signature if the ranges ask for a whole header at the start, can be read; then exactly these are kept, and otherwise the first reason is given. |
| InspectFile.TogetherKeep | cmds/file/file.go:342-349 | Two inspections sorted together keep what either asked for. |
| InspectFile.InspectStream | cmds/file/file.go:352-368 | From a stream in any chunks: the context prefix, the ranges and the PE range are kept (the signature's bytes at the offset in the header among them), or everything if the stream ends first; it fails exactly when the stream fails or stalls before the last position asked for, or a run too wide comes before that, and with that reason. |
| InspectFile.OneAim | cmds/file/file.go:370-402 | The positions asked for settle how far a stream is read. |
| InspectFile.AimIs | cmds/file/file.go:370-402 | The loop over the merged spans reads to the last position asked for or to the first run that is too wide. |
| InspectFile.InspectStreamRanges | cmds/file/file.go:370-402 | Spans from a position on are kept and gaps passed over, or the reason is given that the stream and the spans lead to. |
| InspectFile.TransferReader | cmds/file/file.go:404-427 | Exactly count bytes, or those to the end of the stream; it ends, fails or makes no progress exactly when the stream does so before count bytes are out, an empty read being no progress, and otherwise leaves the rest to come as it would have. |
| InspectFile.PeOfPrefix | cmds/file/file.go:509-515 | The signature's range depends on the first 64 bytes only. |
| InspectFile.PeIff | cmds/file/file.go:509-515 | The range is the four bytes at an offset exactly when the file begins as an MZ header whose bytes 0x3c to 0x3f spell that offset, lowest byte first; every MZ header has one and no other file has. |
| InspectFile.RegularKind | cmds/file/file.go:338-350 | A readable regular file whose header is asked for is a PE executable exactly when the signature stands at the offset in its header, anywhere in the file, and otherwise a DOS executable if it has an MZ header. |
| InspectFile.ExecutableKind | cmds/file/file.go:466-472 | The same for what any inspection kept. |
| ExprParser.ReadBack | cmds/expr/expr.go:281-488 | Every expression tree, printed with or without redundant parentheses and guards, is read to its end with its eager value or its first error. |
| ExprParser.ReadTree | cmds/expr/expr.go:294-488 | The same in any context: precedence of six levels and left association decide where a tree ends. |
| ExprParser.TreeOf | cmds/expr/expr.go:281-488 | Whatever the parser accepts, on any tokens, is a printed tree that it has evaluated. |
| ExprParser.AcceptsTrees | cmds/expr/expr.go:248-254 | Arguments give a value exactly when they are a printed tree with that value. |
| ExprParser.TreeErrors | cmds/expr/expr.go:248-263 | A tree's arguments give its evaluation, errors included. |
| ExprParser.SubParser | cmds/expr/expr.go:558-567 | The function match is what the parser makes of its two operands and a colon read again as tokens. |
| ExprParser.MatchIsColonIff | cmds/expr/expr.go:558-567 | match S P is S : P under every matcher exactly when neither operand's value reads as a guard, a parenthesis or a function name. |
| ExprParser.MatchOfLength | cmds/expr/expr.go:558-567 | The command line match + length x is 1 whatever the matcher says, and + length : x is what it says. |
| ExprMachine.Run | cmds/expr/expr.go:216-272 | Output and exit status: 0 or 1 by the value, 2 for an invalid expression, 3 for a division by zero; ExprLaws says what the values are. |
| ExprMachine.Parser.ParseOr | cmds/expr/expr.go:294-314 | The loop for the lowest operator, or, agrees with the grammar and leaves the position after what it read. |
| ExprMachine.Parser.ParseAnd | cmds/expr/expr.go:316-334 | The same for and. |
| ExprMachine.Parser.ParseCompare | cmds/expr/expr.go:336-362 | The same for comparisons. |
| ExprMachine.Parser.ParseAdd | cmds/expr/expr.go:364-386 | The same for + and -. |
| ExprMachine.Parser.ParseMul | cmds/expr/expr.go:388-419 | The same for *, / and %, division toward zero and division by zero. |
| ExprMachine.Parser.ParseMatch | cmds/expr/expr.go:421-459 | The same for :, the matcher opaque. |
| ExprMachine.Parser.ParsePrimary | cmds/expr/expr.go:461-488 | The same for operands: guards, parentheses, functions, tokens. |
| ExprMachine.Parser.ParseFunction | cmds/expr/expr.go:490-572 | The same for function calls and their missing arguments. |
| ExprMachine.ScanInteger | cmds/expr/expr.go:586-605 | A value is a number exactly when it is an optional minus sign and at least one digit. |
| Expr.DivisionIs | cmds/expr/expr.go:402-416 | Quotient and remainder truncate toward zero. |
| Expr.TextIsInteger | cmds/expr/expr.go:376-384 | A printed number reads back as itself. |
| Decimal.DigitsAre | cmds/expr/expr.go:586-605 | Every further digit counts ten times less. |
| Decimal.NumeralIs | cmds/expr/expr.go:376-384 | A numeral reads back as its number and has no leading zero. |
| ExprLaws.CompareNumbers | cmds/expr/expr.go:336-362 | On command lines with two numbers each of the seven comparisons is 1 exactly when the numbers stand in that relation, and else 0. |
| ExprLaws.CompareStrings | cmds/expr/expr.go:336-362 | Other values compare by their first difference, byte by byte. |
| ExprLaws.SumsAndProducts | cmds/expr/expr.go:364-400 | The printed result of +, - and * read back is the sum, difference or product. |
| ExprLaws.Division | cmds/expr/expr.go:402-416 | The printed results of / and % are quotient and remainder toward zero, and dividing by zero is an error. |
| ExprLaws.NotNumbers | cmds/expr/expr.go:574-584 | Arithmetic on anything but two numbers is an error. |
| ExprLaws.OrAnd | cmds/expr/expr.go:294-334 | The values of \| and & by whether an operand is null or a zero. |
| ExprLaws.TruthyIff | cmds/expr/expr.go:622-631 | A value is false exactly when it is empty or an optional minus sign and zeros. |
| ExprLaws.LengthLaw | cmds/expr/expr.go:498-503 | length prints the number of characters. |
| ExprLaws.IndexLaw | cmds/expr/expr.go:504-522 | index prints the least position of any of the characters, or 0. |
| ExprLaws.SubstrLaw | cmds/expr/expr.go:523-557 | substr gives the characters at positions pos to pos+len-1 as far as there are any. |
| ExprLaws.Precedence | cmds/expr/expr.go:294-459 | For any two of the fifteen operators, parentheses around the tighter one, or around the left of two equally tight ones, make no difference. |
| ExprLaws.SyntaxErrors | cmds/expr/expr.go:248-263 | Two operands in a row, unmatched parentheses and a missing argument are errors of their own. |

## Left out

- Compare.CompareUnified: asks that the bytes of both files together are fewer than 2^63, as files in memory are. The two lines naming the files are not printed.
- Lease.FlagsComeBack: is about runs without owner updates and without failing calls; `Lease.RunIsSafe` and `Lease.UpdateKeptIff` cover the others.
- Lease.RunIsSafe: the owner updates other flags but never O_NONBLOCK itself, and descriptor numbers keep their files while guards live, as the source asks of the owner; only `Lease.LateRestore` lets numbers be closed and used again.
- Records.ObsWriter.Write: the sink never fails; error returns of writers are not modelled in any of the dd and basenc writers.
- BlockWriters.RunBlock: the re-blocking writer is always in place; without ibs= or obs= the program writes records straight to the counter.
- CutProcess.FieldOutput: lines shorter than 2^63 bytes, as any line in memory is; the same bound in `CutProcess.ByteModeIff`.
- Inspect.InspectReaderAt: files no longer than the largest signed offset, and a failing read is a property of its offset; the order of ranges that start together is that of a stable sort, and so is that of chunks.
- InspectFile.InspectStream: stream positions are unbounded numbers, not 64-bit ones.
- ExprMachine.Parser.ParseFunction: the sub-parser of `match` is the function that `ExprParser.SubParser` proves equal to reading the three tokens; characters are bytes, as in the C locale, and comparison is bytewise.
- Base2.DecodeBase2: the bit-or of distinct powers of two is an addition.
- Crc.Cksum: reading never fails; a read error ends the program before any result.
- diff's -i, -b and -w only change the key function, which `Lines.Prep` takes as a parameter; the end-to-end results are for exact comparison.
- diff's normal, forward-ed and context formats, directory comparison, and file headers.
- dd's option parsing, conv=sync, swab, lcase, ucase, seek and skip, status output, and the polling reader and writer loops.
- base64 and base32, which the program leaves to its libraries; digests other than the CRC.
- cut's character mode, -n, and whitespace-delimited fields.
- file's classification of what was read, but for telling PE from DOS executables; magic files, and symbolic links.
- expr's locales and regular expressions; parsing of command-line options everywhere.
- factor's numbers above 64 bits: the branch meant for them can never be taken.
