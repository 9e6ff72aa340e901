# libgit2 core algorithms, modelled and proved in Dafny

The bundled libgit2 sources under `libs/liboaf-git2/src` hold the algorithms this
repository leans on. This project models nine of them and proves what each is for.
`dafny verify dfyconfig.toml` checks everything.

* **Binary deltas** (`RabinTables`, `RabinHash`, `DeltaBlocks`, `DeltaIndexing`, `DeltaSearch`,
  `DeltaFormat`, `DeltaApply`, `DeltaEncoding`, `DeltaGreedy`, `DeltaItself`, `DeltaBufferSize`, `DeltaCreate`). The encoder indexes the source in hashed
  blocks, slides a Rabin hash over the target, extends matches backwards into literals that are
  already in its output buffer, and grows the buffer. Whatever it returns, the decoder turns back
  into the target, and it copies wherever its index gives four bytes.
* **Blame** (`BlameRanges`, `BlamePassing`, `BlameCompleteness`, `BlameScoreboard`, `BlameFile`). A sorted doubly linked list of
  line ranges is split and re-attributed along the edit scripts of an acyclic history. No line is ever lost
  or misattributed or kept back from a parent that has it unchanged, and the loop ends.
* **Rename matching** (`RenameMatching`). Greedy matching with ejection and retry ends, with a stable matching.
* **Configuration files** (`ConfigText`, `ConfigReader`, `ConfigContinuation`, `ConfigRoundTrip`, `ConfigComments`, `ConfigSections`). Escaping, quoting,
  comment stripping, continuation and unescaping compose to the identity, exactly when stated.
* **Line endings** (`TextBuffers`, `TextHeuristics`, `LineEndings`, `LineEndingRules`). Two chunked transforms and two different
  guesses at what is binary agree, so that commit undoes checkout; which files get which line ends
  follows from their attributes.
* **Attributes** (`AttributeAssignments`, `AttributeParsing`, `AttributeLines`, `AttributeLookup`). Parsed lines are sorted
  overrides, and the three lookups agree.
* **FETCH_HEAD** (`FetchHead`), the **buffered file writer** (`BufferedFile`) and the **object cache** (`ObjectCache`).

`Bytes` and `CStrings` hold what they share. Code that changes state is a class or a method over arrays; it is
proved equal to a function on values, and the properties are proved of that function.

Where the code does not do what one would expect, the model follows the code and the exact condition is proved:

* a copy offset of 2^31 or more is shifted into the sign of an `int` when it is read (`DeltaFormat.DeltaRoundTrip`);
* without a limit of at most 1570824171 the encoder shrinks its output buffer below what it holds exactly when some round leaves
  1570824137 bytes or more in it, because the next size wraps around (`DeltaCreate.CreateDelta`, `DeltaBufferSize.ShortSourceFills` and `OverrunExample`);
* a hash bucket is cut down to a single block exactly from 64 to 127 blocks (`DeltaBlocks.CullBounds`), because the skip count is zero;
* an unquoted configuration value loses a carriage return, vertical tab or form feed at its ends (`ConfigRoundTrip.VariableRoundTrip`);
* continuing a value fails an assertion exactly when its first line looks continued and what it stands for does not, and
  something follows (`ConfigContinuation.AssertionExactly`, by counts of backslashes);
* a comment behind a quoted value that ends in a backslash is taken for part of the value, because the closing quote is not counted
  (`ConfigComments.CommentMakesNoDifference`);
* a subsection with a newline, tab or backspace is not read back (`ConfigSections.SectionRoundTrip`);
* narrowing leaves a carriage return before a line feed where two stood (`LineEndingRules.NarrowLeavesNoPair`);
* a text file stays widened if the index holds a version with a carriage return (`LineEndings.FilterRoundTrip`);
* a name comes back from FETCH_HEAD exactly when it is readable (`FetchHead.LineRoundTrip`); HEAD never does: its line comes back
  without a name and for merge, exactly when the URL does not look quoted (`FetchHead.HeadLineRead`);
* a failed rename on commit loses the original file, which has been unlinked before (`BufferedFile.FileBuf.Commit`).

## Model

| member | source | states |
|---|---|---|
| RabinTables.TLinear | libs/liboaf-git2/src/delta.c:20-64 | the table T is linear over exclusive or, for all 65536 pairs of indices |
| RabinTables.ULinear | libs/liboaf-git2/src/delta.c:66-110 | the table U is linear over exclusive or |
| RabinHash.TTopBit | libs/liboaf-git2/src/delta.c:20-64 | bit 31 of T[i] is the low bit of i, so a step clears the bit that falls out and hashes stay below 2^31 |
| RabinHash.UIsShift | libs/liboaf-git2/src/delta.c:66-110 | U[b] is the hash of the byte b after fifteen more bytes of zero |
| RabinHash.ForgetIsHash | libs/liboaf-git2/src/delta.c:311 | removing the oldest byte from the hash of sixteen bytes leaves the direct hash of the other fifteen |
| RabinHash.RollIsHash | libs/liboaf-git2/src/delta.c:299-313 | one step of the rolling hash gives the direct hash of the window moved on by one byte |
| DeltaBlocks.BlocksAreWindows | libs/liboaf-git2/src/delta.c:182-201 | the indexed blocks ascend, and each carries the hash of the sixteen source bytes before its position |
| DeltaBlocks.BlocksCover | libs/liboaf-git2/src/delta.c:189-191 | every block of the source is represented: by itself, or by the lowest of the run of equal hashes it belongs to |
| DeltaBlocks.ThinIsUniform | libs/liboaf-git2/src/delta.c:218-227 | thinning keeps exactly every skip-th block of a bucket, the first included |
| DeltaBlocks.CullBounds | libs/liboaf-git2/src/delta.c:215-228 | a bucket below 64 blocks is not touched and none is left with 256; of 128 or more at least 128 equally spaced ones are left, and of 64 to 127, and only of those, the first alone |
| DeltaBlocks.BucketListIsSound | libs/liboaf-git2/src/delta.c:183-228 | what is left of a bucket ascends, is short, and holds only blocks of the source with the right hash bits |
| DeltaBlocks.SmallBucketsCover | libs/liboaf-git2/src/delta.c:215-217 | a bucket below HASH_LIMIT loses none of its blocks |
| DeltaIndexing.WindowHash | libs/liboaf-git2/src/delta.c:186-188 | the loop computes the direct hash of a window |
| DeltaIndexing.TableSize | libs/liboaf-git2/src/delta.c:150-153 | the table size is a power of two from 2^4 to 2^31, and the smallest such that is at least a quarter of the blocks |
| DeltaIndexing.Populate | libs/liboaf-git2/src/delta.c:181-201 | after population the linked chains hold exactly the blocks of the source, bucket by bucket, and the counts are their lengths |
| DeltaIndexing.CullChain | libs/liboaf-git2/src/delta.c:219-227 | culling relinks one chain in place to the specified thinning and leaves every other chain as it was |
| DeltaIndexing.CullAll | libs/liboaf-git2/src/delta.c:215-228 | culling treats all chains that are too long and no others |
| DeltaIndexing.DeltaIndex.constructor | libs/liboaf-git2/src/delta.c:126-232 | the index built for a source has in each bucket the list whose soundness is proved above |
| DeltaSearch.CommonIsMaximal | libs/liboaf-git2/src/delta.c:324-325 | the common stretch of source and target is equal byte for byte and cannot be made longer |
| DeltaSearch.CommonLength | libs/liboaf-git2/src/delta.c:320-325 | the comparison loop finds the length of the common stretch |
| DeltaSearch.BestIsLongest | libs/liboaf-git2/src/delta.c:314-333 | the match found is at least as long as that of every block with the current hash, or at least 4096 bytes, and is a real match |
| DeltaSearch.BestIsFirst | libs/liboaf-git2/src/delta.c:314-333 | which match it is: the one in hand if nothing is longer, else the first of the longest, or the first of 4096 bytes or more |
| DeltaSearch.BestStops | libs/liboaf-git2/src/delta.c:322-323 | leaving the loop when the rest of the source is too short loses nothing, because the chain ascends |
| DeltaSearch.FindMatch | libs/liboaf-git2/src/delta.c:309-334 | the search over the linked chain, with its early exits, returns the best match over the whole bucket |
| DeltaFormat.SizeRoundTrip | libs/liboaf-git2/src/delta-apply.c:22-41 | a size written in base 128 is read back, whatever follows it |
| DeltaFormat.CopyRoundTrip | libs/liboaf-git2/src/delta-apply.c:91-103 | a copy command with its zero bytes left out is read back exactly when its offset is below 2^31; from there on the shift of the top byte is undefined |
| DeltaFormat.RunOp | libs/liboaf-git2/src/delta-apply.c:86-123 | an encoded instruction appends its meaning to the result and leaves the rest of the delta to run |
| DeltaFormat.DeltaRoundTrip | libs/liboaf-git2/src/delta-apply.c:56-131 | applying the encoding of any valid instruction list gives its meaning, or is undefined exactly when some copy offset is 2^31 or more |
| DeltaFormat.OtherBaseFails | libs/liboaf-git2/src/delta-apply.c:67-74 | a delta is refused for a base of another size than its own |
| DeltaFormat.SizesAreChecked | libs/liboaf-git2/src/delta-apply.c:64-131 | a delta that is not refused announces the size of the base and of what it builds |
| DeltaApply.ReadHeaderSize | libs/liboaf-git2/src/delta-apply.c:22-41 | the loop over base 128 digits reads a size, or reports that the delta ended or the shift went too far |
| DeltaApply.ReadCopyArguments | libs/liboaf-git2/src/delta-apply.c:91-103 | reads the optional argument bytes of a copy command, zero length standing for 65536 |
| DeltaApply.RunInstructions | libs/liboaf-git2/src/delta-apply.c:83-127 | the loop with its output buffer computes what running the instructions one by one means |
| DeltaApply.ApplyDelta | libs/liboaf-git2/src/delta-apply.c:56-131 | the decoder computes the specified outcome: the target, a failure, or undefined behaviour |
| DeltaEncoding.BackMatches | libs/liboaf-git2/src/delta.c:351-362 | a match extended backwards into the pending literals is still a match, longer by exactly the bytes gone back |
| DeltaEncoding.LiteralKeeps | libs/liboaf-git2/src/delta.c:336-345 | taking a literal byte keeps the encoder sound: instructions so far and pending literals spell the target so far |
| DeltaEncoding.CopyKeeps | libs/liboaf-git2/src/delta.c:346-392 | emitting a copy of at most 64 KB keeps the encoder sound and moves on by at least four bytes |
| DeltaEncoding.NextKeeps | libs/liboaf-git2/src/delta.c:308-416 | every round keeps the encoder sound, moves on and stays inside the target |
| DeltaEncoding.DeltaOpsMeanTarget | libs/liboaf-git2/src/delta.c:254-428 | the instructions produced for any source and target are valid and mean exactly the target |
| DeltaEncoding.NextSize | libs/liboaf-git2/src/delta.c:371-388 | the encoding never grows beyond twice the target dealt with |
| DeltaEncoding.DeltaOfRoundTrip | libs/liboaf-git2/src/delta.c:254-428 | applying the delta to its source gives back the target, for sources up to 2^31 bytes and targets below 2^32 |
| DeltaGreedy.NextCopiesMatch | libs/liboaf-git2/src/delta.c:336-392 | with a match of four bytes or more in hand a round ends in one copy of at least the lesser of the match and 64 KB; without one it inserts a byte |
| DeltaGreedy.DeltaIsGreedy | libs/liboaf-git2/src/delta.c:254-428 | for every source and target: where a byte from position 16 on is inserted no indexed block gives four bytes; every copy has at least four, cannot go on or start earlier, and is as long as any indexed block gave where it was found, or 4096 |
| DeltaItself.DeltaOfItself | libs/liboaf-git2/src/delta.c:254-428 | the delta of a file of twenty bytes or more against itself is one copy for every 64 KB, up to three bytes at the end inserted |
| DeltaItself.OneCopy | libs/liboaf-git2/src/delta.c:254-428 | up to 64 KB it is the header and one copy command of at most three bytes |
| DeltaBufferSize.GrowthWraps | libs/liboaf-git2/src/delta.c:403-411 | without a limit the buffer grows exactly when its size is at most 0x55555555; above that the product wraps around in 32 bits |
| DeltaBufferSize.ChainGrows | libs/liboaf-git2/src/delta.c:270-272 | the sizes reached are 8192 times three halves rounded down, up to 1570824171, from where the buffer shrinks to 208752608 |
| DeltaBufferSize.RoomIsThreshold | libs/liboaf-git2/src/delta.c:403-415 | in every buffer reached, there is room below one threshold and none from it on: one above the limit, or 34 below the last size without a limit that stops the growth |
| DeltaBufferSize.FillsAtMostTwice | libs/liboaf-git2/src/delta.c:277-392 | no round leaves more in the buffer than twice the target and ten bytes |
| DeltaBufferSize.LiteralPeak | libs/liboaf-git2/src/delta.c:336-345 | from a source of at most sixteen bytes everything is inserted, and the most the buffer holds is the header, the target and one count for every 127 bytes |
| DeltaBufferSize.ShortSourceFills | libs/liboaf-git2/src/delta.c:403-415 | from such a source, with no limit, the buffer shrinks below what is in it if and only if the target has at least 1558552067 bytes |
| DeltaBufferSize.OverrunExample | libs/liboaf-git2/src/delta.c:403-415 | an input whose output buffer is shrunk below what it holds: a source of one byte and 1558552067 bytes of zero |
| DeltaCreate.PutSize | libs/liboaf-git2/src/delta.c:277-283 | writes a size in base 128 behind what is in the buffer, in at most five bytes |
| DeltaCreate.PutCopy | libs/liboaf-git2/src/delta.c:371-388 | writes a copy command, its command byte filled in last, in at most seven bytes |
| DeltaCreate.PutLiteral | libs/liboaf-git2/src/delta.c:336-345 | a literal goes behind its reserved count slot; a run of 127 is closed with its count |
| DeltaCreate.BackUp | libs/liboaf-git2/src/delta.c:351-362 | goes back over equal bytes; when the whole run is swallowed the count slot goes too |
| DeltaCreate.CloseRun | libs/liboaf-git2/src/delta.c:363-364 | fills in the count slot of what is left of a run, or of none when it was swallowed |
| DeltaCreate.HashBefore | libs/liboaf-git2/src/delta.c:394-400 | recomputes the hash of the sixteen bytes before the current one |
| DeltaCreate.RollAndSearch | libs/liboaf-git2/src/delta.c:309-334 | the rolled hash is the direct hash of the window, and the match chosen is the specified one |
| DeltaCreate.EmitMatch | libs/liboaf-git2/src/delta.c:346-392 | closes the run, extends the match and emits the copy as specified, within seven bytes |
| DeltaCreate.EnsureRoom | libs/liboaf-git2/src/delta.c:403-415 | leaves room for the next instruction exactly below the threshold; from it on it gives up at a limit, or shrinks the buffer without one |
| DeltaCreate.CreateDelta | libs/liboaf-git2/src/delta.c:254-428 | a delta returned is the specified one, applies to its source to give the target, and is no longer than a limit that was given; with a limit of at most 1570824171 it gives up exactly when some round leaves more than that in the buffer and never overruns; without one it overruns exactly when some round leaves 1570824137 bytes or more |
| BlameRanges.PiecesTile | libs/liboaf-git2/src/blame_git.c:123-156 | the pieces of a split cover the range split, in order, and none is empty |
| BlameRanges.PiecesStay | libs/liboaf-git2/src/blame_git.c:285-304 | the pieces of a split are not split again by the same chunk, although the loop meets those inserted after it |
| BlameRanges.SplitKeepsShape | libs/liboaf-git2/src/blame_git.c:211-245 | replacing a range by its pieces keeps the ranges in order and covering the same lines |
| BlameRanges.ChunkKeepsShape | libs/liboaf-git2/src/blame_git.c:285-304 | a chunk loses, repeats or empties no line range |
| BlameRanges.ChunkKeepsTruth | libs/liboaf-git2/src/blame_git.c:264-304 | a chunk of lines that really match keeps every range true: its lines are the lines of its suspect |
| BlameRanges.WalkSplit | libs/liboaf-git2/src/blame_git.c:285-304 | walking on behind the first piece after a split meets the remaining pieces and gives the specified result |
| BlameScoreboard.Scoreboard.PlaceFor | libs/liboaf-git2/src/blame_git.c:166-177 | the loop finds the last entry that starts before a line |
| BlameScoreboard.Scoreboard.AddEntry | libs/liboaf-git2/src/blame_git.c:166-186 | an entry is linked in at its sorted place, both ways, and nothing else moves |
| BlameScoreboard.Scoreboard.SplitBlame | libs/liboaf-git2/src/blame_git.c:211-245 | an entry is overwritten by its first piece and the others are linked in behind it |
| BlameScoreboard.Scoreboard.BlameOverlap | libs/liboaf-git2/src/blame_git.c:264-278 | an entry that overlaps the chunk is replaced by its pieces if any line passes to the parent |
| BlameScoreboard.Scoreboard.BlameChunk | libs/liboaf-git2/src/blame_git.c:285-304 | the walk over the list it inserts into passes one chunk on in every entry it touches |
| BlameScoreboard.Scoreboard.FindLastInTarget | libs/liboaf-git2/src/blame_git.c:95-108 | finds the end of the last line the target is still suspected for |
| BlameScoreboard.Scoreboard.EmitChanges | libs/liboaf-git2/src/blame_git.c:306-323 | the callback passes on every region before a change and keeps the two line offsets |
| BlameScoreboard.TrimCommonTail | libs/liboaf-git2/src/blame_git.c:325-347 | the loops over 1024-byte blocks and the rest of a line trim the specified number of bytes |
| BlamePassing.TrimIsCommonLines | libs/liboaf-git2/src/blame_git.c:325-347 | what is trimmed off both files is equal and starts a line in both |
| BlamePassing.CommonBlocksEnd | libs/liboaf-git2/src/blame_git.c:335-339 | whole blocks of 1024 bytes are compared until one differs or is missing |
| BlameScoreboard.Scoreboard.PassBlameToParent | libs/liboaf-git2/src/blame_git.c:371-392 | one parent in place, as the function whose effect on every line the next rows state; nothing when no line is left |
| BlamePassing.PassToParentKeepsGood | libs/liboaf-git2/src/blame_git.c:371-392 | passing blame along any script whose unchanged regions match keeps the scoreboard complete, in order, true and reachable |
| BlameCompleteness.ChunkSuspects | libs/liboaf-git2/src/blame_git.c:285-304 | a chunk takes exactly its lines from the target |
| BlameCompleteness.PassToParentSuspects | libs/liboaf-git2/src/blame_git.c:371-392 | after one parent the target is suspected for exactly those of its lines that lie inside a change of the edit script |
| BlameScoreboard.Scoreboard.PassWholeBlame | libs/liboaf-git2/src/blame_git.c:468-483 | hands a whole file on to a parent that has the same blob |
| BlamePassing.PassWholeKeepsGood | libs/liboaf-git2/src/blame_git.c:468-483 | a parent with the same blob id has the same lines, so nothing becomes false |
| BlamePassing.AskParentsKeepsGood | libs/liboaf-git2/src/blame_git.c:485-566 | asking the parents in turn, with its early exit for an equal blob, keeps the scoreboard good |
| BlameCompleteness.PassBlameSuspects | libs/liboaf-git2/src/blame_git.c:485-566 | after its turn a suspect keeps exactly the lines inside a change against the version in every parent that has one, and all if it may not ask |
| BlameScoreboard.Scoreboard.PassBlameOn | libs/liboaf-git2/src/blame_git.c:485-566 | asks the parents, then passes blame to each origin found |
| BlameScoreboard.Scoreboard.ConvictRemaining | libs/liboaf-git2/src/blame_git.c:605-611 | makes the suspect guilty of what it could not pass on |
| BlamePassing.InvestigateKeepsGood | libs/liboaf-git2/src/blame_git.c:589-616 | a round of the main loop keeps the scoreboard good |
| BlamePassing.InvestigateLowersDebt | libs/liboaf-git2/src/blame_git.c:589-616 | every round lowers the sum over unproven lines of one plus the rank of the suspect commit, so the loop ends on every acyclic history |
| BlamePassing.LikeGit | libs/liboaf-git2/src/blame_git.c:589-616 | the loop ends with a good scoreboard on which every entry is guilty |
| BlameCompleteness.LikeGitEarned | libs/liboaf-git2/src/blame_git.c:485-616 | at the end every range differs from the version in every parent of its suspect, or of one with the same content it took over from, unless that has no parents or is the oldest commit; a boundary mark is set only then |
| BlameScoreboard.Scoreboard.Run | libs/liboaf-git2/src/blame_git.c:589-616 | the in-place main loop does exactly that |
| BlameFile.IndexBlobLines | libs/liboaf-git2/src/blame.c:243-269 | finds where each line begins and how many there are, the last with or without a newline |
| BlameFile.BlameInternal | libs/liboaf-git2/src/blame.c:297-338 | blames a file from its first entry to its hunks, the fields cut to sixteen bits |
| BlameFile.HunksAreTruthful | libs/liboaf-git2/src/blame.c:271-338 | for files below 65536 lines the hunks cover the lines asked for without gap or overlap, and each line of a hunk is that very line of the file and ancestor commit it names |
| BlameFile.HunksAreThorough | libs/liboaf-git2/src/blame.c:271-338 | no hunk stops short: its lines differ from the versions in all parents of the origin, which has no parents or is the oldest commit where the boundary mark is set |
| RenameMatching.RematchKeepsMatching | libs/liboaf-git2/src/diff_tform.c:906-925 | a new mapping, with the ejection of the two it conflicts with, leaves the two tables mutually inverse |
| RenameMatching.RematchRaisesPotential | libs/liboaf-git2/src/diff_tform.c:906-925 | an ejecting update strictly raises the sum of three to the similarity over matched targets |
| RenameMatching.TryPair | libs/liboaf-git2/src/diff_tform.c:906-925 | the update in place: it happens exactly when the pair is better for both, and the pair does not block afterwards |
| RenameMatching.MatchTarget | libs/liboaf-git2/src/diff_tform.c:889-941 | one target against its sources, with the cap on how many are tried, and the best copy source |
| RenameMatching.NothingLeft | libs/liboaf-git2/src/diff_tform.c:935-940 | leaving the inner loop early skips only pairs that would not be looked at |
| RenameMatching.OnePass | libs/liboaf-git2/src/diff_tform.c:880-945 | a pass that ejects nothing has settled every target; one that ejects has raised the bounded sum |
| RenameMatching.FindBestMatches | libs/liboaf-git2/src/diff_tform.c:880-948 | the retried passes end, with a stable matching of the pairs looked at and, for copies, a best source for every target |
| RenameMatching.AllExamined | libs/liboaf-git2/src/diff_tform.c:938-940 | with at most rename_limit + 1 sources every comparable pair is looked at, so stability holds for all of them |
| RenameMatching.StableIsUnique | libs/liboaf-git2/src/diff_tform.c:880-948 | when similarities are distinct there is only one stable matching, so the order of the deltas does not matter |
| ConfigText.EscapeValue | libs/liboaf-git2/src/config_file.c:1410-1440 | escapes newline, tab, backspace, quote and backslash |
| ConfigText.FixupLine | libs/liboaf-git2/src/config_file.c:1443-1479 | drops quotes and decodes escapes, keeps a final lone backslash, and fails on an unknown escape |
| ConfigText.QuotesForValue | libs/liboaf-git2/src/config_file.c:1176-1192 | quotes an empty value, one that begins or ends with a blank, and one with a comment mark |
| ConfigText.StripComments | libs/liboaf-git2/src/config_file.c:982-1004 | cuts the line and counts the quotes as the function does whose result the next row characterises |
| ConfigComments.CutExactly | libs/liboaf-git2/src/config_file.c:982-1004 | for every line: what is left has no mark with an even number of counted quotes before it, and what is cut starts with one, or with a space before it |
| ConfigText.IsMultilineVar | libs/liboaf-git2/src/config_file.c:1481-1492 | a value is continued when it ends in an odd number of backslashes and has something before them |
| ConfigReader.Reader.ReadLine | libs/liboaf-git2/src/config_file.c:720-761 | takes the next line without its outer spaces and moves on |
| ConfigReader.SplitAtEquals | libs/liboaf-git2/src/config_file.c:1557-1578 | splits a line into a name without final spaces and a value without leading ones |
| ConfigReader.Reader.ParseMultilineVariable | libs/liboaf-git2/src/config_file.c:1494-1544 | reads the continuation lines of a value, skipping those that are only a comment |
| ConfigReader.Reader.ParseVariable | libs/liboaf-git2/src/config_file.c:1546-1609 | reads a name and its value, or an error, or reaches the failing assertion |
| ConfigRoundTrip.UnescapeEscape | libs/liboaf-git2/src/config_file.c:1406-1479 | unescaping undoes escaping, whatever follows |
| ConfigRoundTrip.EscapedBackslashes | libs/liboaf-git2/src/config_file.c:1410-1440 | an escaped value ends in twice as many backslashes as the value, so it never looks continued |
| ConfigRoundTrip.QuotedLineKept | libs/liboaf-git2/src/config_file.c:982-1004 | a printed line with quotes is never cut as a comment, whatever quotes and backslashes the value holds |
| ConfigRoundTrip.PrintVariable | libs/liboaf-git2/src/config_file.c:1317-1319 | prints the line of a variable from its escaped value |
| ConfigRoundTrip.EntryReadBack | libs/liboaf-git2/src/config_file.c:1546-1609 | a printed variable is read back under its name, its value without the bare spaces at the ends of an unquoted one, and reading goes on right after it |
| ConfigRoundTrip.VariableRoundTrip | libs/liboaf-git2/src/config_file.c:1381-1382 | name and value come back exactly if and only if the value is quoted or has no carriage return, vertical tab or form feed at an end |
| ConfigComments.CommentIsCut | libs/liboaf-git2/src/config_file.c:982-1609 | a printed variable with a comment behind it is read with its name and value, marks inside quotes included, unless the value is quoted and ends in a backslash |
| ConfigComments.CommentMakesNoDifference | libs/liboaf-git2/src/config_file.c:982-1609 | it reads as without the comment if and only if it is quoted and does not end in a backslash, or is unquoted and loses no space at its end |
| ConfigContinuation.ContinueAsserts | libs/liboaf-git2/src/config_file.c:1494-1544 | a value that looks continued never fails the assertion; one that does not fails it exactly when a line that is not only a comment comes before an empty one |
| ConfigContinuation.MarkLost | libs/liboaf-git2/src/config_file.c:1443-1492 | a spelling looks continued and its value does not exactly when, of its odd number of final backslashes, half rounded up together with those the value had before them are an even number or all there is |
| ConfigContinuation.AssertionExactly | libs/liboaf-git2/src/config_file.c:1494-1609 | for every text and position, reading a variable reaches the failing assertion if and only if its spelling loses the mark in that way and something follows |
| ConfigContinuation.QuotedMarkFails | libs/liboaf-git2/src/config_file.c:1494-1544 | a quote and a backslash with anything on the next line fail the assertion |
| ConfigRoundTrip.TwoLinesJoin | libs/liboaf-git2/src/config_file.c:1494-1544 | a value written on two lines is joined exactly when its first part is not all backslashes and ends in an even number of them and the whole does not look continued; with an odd number, and only then, the assertion fails |
| ConfigSections.WriteSection | libs/liboaf-git2/src/config_file.c:1146-1174 | prints a header, what follows the first dot of the key escaped and in quotes |
| ConfigSections.ParseHeading | libs/liboaf-git2/src/config_file.c:864-927 | reads the name of a section up to a space or bracket, in lower case |
| ConfigSections.ParseSubsection | libs/liboaf-git2/src/config_file.c:792-862 | reads the quoted subsection between the first and the last quote |
| ConfigSections.ParseSectionHeader | libs/liboaf-git2/src/config_file.c:864-927 | reads a line and the header on it |
| ConfigSections.HeaderReadBack | libs/liboaf-git2/src/config_file.c:792-927 | a printed header is read back in lower case, newline, tab and backspace of the subsection as the letters that escape them |
| ConfigSections.SectionRoundTrip | libs/liboaf-git2/src/config_file.c:1146-1174 | the same key comes back if and only if its first part is lower case and its subsection has no newline, tab or backspace |
| TextBuffers.Buffer.Grow | libs/liboaf-git2/src/buffer.c:39-90 | grows a buffer by halves and keeps what it holds |
| TextBuffers.NarrowInto | libs/liboaf-git2/src/buf_text.c:67-109 | the chunked copy drops exactly the carriage returns before line feeds, inside the buffer it allocated |
| TextBuffers.WidenInto | libs/liboaf-git2/src/buf_text.c:111-147 | the chunked copy puts a carriage return before exactly the line feeds that have none, growing as needed |
| TextBuffers.NarrowWidened | libs/liboaf-git2/src/buf_text.c:67-147 | narrowing after widening is narrowing, on all bytes |
| LineEndingRules.NarrowingIs | libs/liboaf-git2/src/buf_text.c:67-109 | narrowing drops carriage returns before line feeds and nothing else, one for each pair |
| LineEndingRules.NarrowingLeaves | libs/liboaf-git2/src/buf_text.c:67-109 | a carriage return is left before a line feed for each place where two stood |
| LineEndingRules.WideningIsWidened | libs/liboaf-git2/src/buf_text.c:111-147 | widening adds carriage returns before line feeds and nothing else, one for each bare line feed, so that every line feed stands after one |
| TextHeuristics.BomIsLongest | libs/liboaf-git2/src/buf_text.c:209-257 | the mark detected is the longest of the five marks that the bytes there begin with, or none if they begin with none |
| TextHeuristics.LooksBinary | libs/liboaf-git2/src/buf_text.c:179-202 | the counting loop, with its early exit, decides the checkout heuristic |
| TextHeuristics.BinaryExactly | libs/liboaf-git2/src/buf_text.c:179-202 | a blob is binary exactly with a wide mark, a NUL, or fewer than 128 ASCII characters for each strange byte |
| TextHeuristics.PlainIsText | libs/liboaf-git2/src/buf_text.c:179-306 | printable ASCII with tabs and line ends is text for both heuristics |
| TextHeuristics.NulIsBinary | libs/liboaf-git2/src/buf_text.c:179-306 | a NUL makes a file binary for both |
| TextHeuristics.AllPaired | libs/liboaf-git2/src/buf_text.c:287-291 | the two counts of carriage returns agree exactly when each stands before a line feed |
| TextHeuristics.GatherStats | libs/liboaf-git2/src/buf_text.c:259-306 | the counting loop gathers the specified counts and decides the commit heuristic |
| TextHeuristics.BinaryAgrees | libs/liboaf-git2/src/buf_text.c:179-306 | if commit takes a file that checkout widened for binary, checkout had taken its blob for binary |
| TextHeuristics.WidenedStats | libs/liboaf-git2/src/buf_text.c:287-291 | in a widened blob every carriage return is counted as part of a pair |
| LineEndings.ApplyToWorkdir | libs/liboaf-git2/src/crlf.c:207-243 | checkout passes the blob on, narrows it or widens it |
| LineEndings.ApplyToOdb | libs/liboaf-git2/src/crlf.c:124-167 | commit passes the file on or narrows it |
| LineEndingRules.LeftAlone | libs/liboaf-git2/src/crlf.c:245-290 | the filter leaves a file alone exactly when it is said not to be text, or nothing is said of it and autocrlf is off |
| LineEndingRules.CheckoutRule | libs/liboaf-git2/src/crlf.c:169-290 | for all attributes, settings and platforms: eol=crlf widens a text, eol=lf and text=input narrow it, otherwise the platform decides for a text, and for what nothing is said of only if autocrlf is on and it wants CRLF |
| LineEndingRules.NarrowLeavesNoPair | libs/liboaf-git2/src/crlf.c:207-243 | with eol=lf or text=input no carriage return is left before a line feed if and only if there were not two before one |
| LineEndingRules.CommitRule | libs/liboaf-git2/src/crlf.c:124-290 | for all attributes and settings: an explicit text setting narrows always, text=auto and a guess narrow text without bare carriage returns, a guess only if the index has none |
| LineEndings.FilterRoundTrip | libs/liboaf-git2/src/crlf.c:124-243 | a blob without carriage returns comes back from checkout and commit if and only if it is not the case that the action is a guess, the index has a carriage return, the ending is CRLF, the blob is text and it has a line feed |
| LineEndings.FilterRoundTripInIndex | libs/liboaf-git2/src/crlf.c:124-290 | under any attributes the filter accepts, with the blob itself in the index, it always comes back |
| AttributeAssignments.BSearch | libs/liboaf-git2/src/util.c:599-627 | finds an assignment in a sorted list, or the place where it belongs |
| AttributeAssignments.Find | libs/liboaf-git2/src/attr.c:65-75 | binary search by hash and name finds the value a list gives a name |
| AttributeAssignments.InsertSorted | libs/liboaf-git2/src/vector.c:141-174 | inserting keeps a list strictly sorted, and replaces the assignment of the same name |
| AttributeParsing.ScanName | libs/liboaf-git2/src/attr_file.c:536-541 | the incremental hash of a scanned name is the hash that lookups use |
| AttributeParsing.ScanItem | libs/liboaf-git2/src/attr_file.c:512-565 | scans one assignment: prefix, name and value, or a lone prefix, or a comment |
| AttributeParsing.ParseAssignments | libs/liboaf-git2/src/attr_file.c:497-602 | the list of a line is strictly sorted, has no name twice, and means what the assignments say from left to right with macros expanded |
| AttributeLines.NameSets | libs/liboaf-git2/src/attr_file.c:512-590 | a name alone sets the attribute and what a macro of that name stands for |
| AttributeLines.PrefixedName | libs/liboaf-git2/src/attr_file.c:512-590 | behind a minus it is turned off, behind an exclamation mark left unspecified, and no macro is expanded |
| AttributeLines.NameWithValue | libs/liboaf-git2/src/attr_file.c:512-590 | a name with a value has that value |
| AttributeLines.LaterOverrides | libs/liboaf-git2/src/attr_file.c:497-602 | later items of a line override earlier ones |
| AttributeLookup.Get | libs/liboaf-git2/src/attr.c:41-85 | one lookup gives what the strongest applying assignment of the name says |
| AttributeLookup.StrongestDecides | libs/liboaf-git2/src/attr.c:41-85 | a matching rule decides if no file before its own and no later rule of its own file says anything of the name |
| AttributeLookup.GetMany | libs/liboaf-git2/src/attr.c:93-157 | a lookup of many names gives, place by place, what single lookups give, also when it stops early |
| AttributeLookup.Foreach | libs/liboaf-git2/src/attr.c:160-213 | calls back for the specified reports in order, until the callback refuses |
| AttributeLookup.ReportsAreFirst | libs/liboaf-git2/src/attr.c:160-213 | each assigned name is reported once, with the value a single lookup gives it |
| FetchHead.HexRoundTrip | libs/liboaf-git2/src/fetchhead.c:83-84 | an object id printed in hexadecimal is read back |
| FetchHead.SortRefs | libs/liboaf-git2/src/fetchhead.c:132 | the references come in the order of the comparison, none lost or added |
| FetchHead.CompareTrans | libs/liboaf-git2/src/fetchhead.c:23-41 | the comparison of references is transitive, so sorting by it makes sense |
| FetchHead.MergeFirst | libs/liboaf-git2/src/fetchhead.c:23-41 | in order, references for merge come before all others, and names ascend among each of them |
| FetchHead.WriteRef | libs/liboaf-git2/src/fetchhead.c:75-111 | writes the line of one reference |
| FetchHead.LinesSpelled | libs/liboaf-git2/src/fetchhead.c:75-111 | how the lines of branches, tags, other references and HEAD are spelled |
| FetchHead.Write | libs/liboaf-git2/src/fetchhead.c:113-138 | sorts the references and writes a line for each |
| FetchHead.Foreach | libs/liboaf-git2/src/fetchhead.c:241-290 | reads line after line, carries the merge flag along, and stops at an error or a refusal |
| FetchHead.LineRoundTrip | libs/liboaf-git2/src/fetchhead.c:140-239 | a line is read back as the reference it was written for if and only if the name is not empty, not HEAD, has no quote, and no slash right after refs/heads/ or refs/tags/ |
| FetchHead.HeadLineRead | libs/liboaf-git2/src/fetchhead.c:75-239 | the line of HEAD is read as a nameless reference for merge from its URL if and only if the URL does not begin with a quote, or with branch or tag and a quote |
| FetchHead.HeadLineExample | libs/liboaf-git2/src/fetchhead.c:140-239 | a URL that is taken apart into a name and a URL |
| FetchHead.FileRoundTrip | libs/liboaf-git2/src/fetchhead.c:113-290 | a file of references on one line each is read back as those references, in order, if and only if all names are of that kind |
| BufferedFile.FileBuf.WriteNormal | libs/liboaf-git2/src/filebuf.c:148-161 | issues one write unless there is nothing to write, and succeeds exactly when the system lets that write succeed |
| BufferedFile.FileBuf.FlushBuffer | libs/liboaf-git2/src/filebuf.c:136-146 | sends what is buffered, or records the error |
| BufferedFile.FileBuf.Write | libs/liboaf-git2/src/filebuf.c:364-389 | appends to the stream of bytes sent and buffered, issuing one write for every 8192 bytes, and fails exactly when one of them does or an error was recorded |
| BufferedFile.FileBuf.Reserve | libs/liboaf-git2/src/filebuf.c:391-413 | hands out room right behind everything appended so far |
| BufferedFile.FileBuf.Printf | libs/liboaf-git2/src/filebuf.c:415-468 | appends formatted text, directly if it fits, after a flush, or by writing |
| BufferedFile.FileBuf.Commit | libs/liboaf-git2/src/filebuf.c:323-356 | installs everything appended; a recorded error leaves the original alone, a failed rename loses it |
| BufferedFile.RunAndCommit | libs/liboaf-git2/src/filebuf.c:323-468 | over every run of calls an error is recorded exactly when a write issued meanwhile fails or a reservation exceeds the buffer; then the original is untouched, else what was appended is installed unless close or rename fails |
| ObjectCache.Cache.Clear | libs/liboaf-git2/src/cache.c:83-97 | gives up every entry with its reference and its memory |
| ObjectCache.Cache.EvictEntries | libs/liboaf-git2/src/cache.c:118-146 | evicts exactly eight entries going round the buckets, or clears a smaller table, and always ends |
| ObjectCache.Cache.Get | libs/liboaf-git2/src/cache.c:154-176 | finds an entry of the kind asked for and gives the caller one reference |
| ObjectCache.Cache.Put | libs/liboaf-git2/src/cache.c:205-232 | files an object, keeps the one stored, or replaces a raw one by a parsed one |
| ObjectCache.Cache.Store | libs/liboaf-git2/src/cache.c:178-236 | used memory stays the sum of the sizes stored, each stored object has one reference of the cache, the caller gains exactly one, and nothing is evicted unless the shared counter is over its limit |
| ObjectCache.StoredAtFirst | libs/liboaf-git2/src/cache.c:28-60 | with the sizes set at first only commits, trees and tags below 4096 bytes are stored |
| ObjectCache.Perform | libs/liboaf-git2/src/cache.c:83-236 | a call on one of several caches keeps the accounts of all of them, and the shared counter at the sum of what they use |
| ObjectCache.RunCalls | libs/liboaf-git2/src/cache.c:83-236 | over every run of storing, looking up, clearing and evicting on any number of caches the accounts stay right, the counter is their sum, and callers are given exactly the references they are due |

## Left out

- DeltaCreate.CreateDelta: source and target sizes from 2^32 on, which the code truncates, and running out of memory; the outcome Overrun stands for a buffer that shrank below what was in it, and for whatever is written past its end.
- DeltaApply.ApplyDelta: what happens after a truncated copy command, an oversized header shift or a shifted sign bit is the single outcome Undefined.
- DeltaIndexing.DeltaIndex.constructor: the size in bytes of the index and sources from 2^32 - 1 bytes on, for which the number of blocks is capped.
- BlameScoreboard.Scoreboard.Run: which origin a parent has for a path (tree diffs and rename detection in `find_origin`) is a function of the question asked; reference counts of origins, and the flags and scores of entries that nothing reads, are not modelled.
- BlamePassing.PassToParentKeepsGood: xdiff is any edit script whose unchanged regions match; equal blob ids are taken to mean equal blobs.
- BlameFile.BlameInternal: signatures and paths of hunks, and blaming of an edited buffer. Coalescing of entries is never reached by the loop, so nothing is said about it.
- RenameMatching.FindBestMatches: similarity is a function of the pair, at most 65535, that does not fail; when there are no sources or targets the tables are empty of matches instead of missing. The rewriting of the deltas after matching is left out.
- ConfigReader.Reader.ParseVariable: line numbers in error messages; a line is a string that is shortened, not a buffer cut by a NUL, so that reuse of its memory is not captured. `char` is taken to be signed, so byte 0x85 is no space.
- ConfigSections.ParseSectionHeader: the name is a string that grows, not a buffer of fixed size. Rewriting a whole configuration file, includes and multivars are left out.
- LineEndings.ApplyToOdb: the lookup of the path in the index is a flag that says whether it reports a carriage return; the outcome of filters other than this one is left out.
- TextHeuristics.GatherStats: the counters are unbounded, so files of 2^31 bytes and more, whose counts overflow, behave as if they did not.
- AttributeLookup.Get: which files and rules apply to a path is given with the rules; pattern matching, the collecting and caching of attribute files, and reference counts of assignments are left out.
- AttributeParsing.ParseAssignments: memory pools, and what a line's pattern is.
- FetchHead.SortRefs: the library sort is a stable insertion sort here; only that the result is in order and a permutation is promised.
- FetchHead.Write: references without a name, which the code dereferences, and opening and committing the file.
- BufferedFile.FileBuf.Write: compression, hashing on write, locking and opening of the file; the answers of the system to write, close and rename are given beforehand.
- ObjectCache.Cache.EvictEntries: the buckets of the hash table are given as a list of keys; the seed is not cut to 32 bits, which cannot be seen because the number of buckets is a power of two.
- ObjectCache.Cache.Store: locks and failing allocations; an object is taken to be stored by one cache, and equal ids to mean equal sizes.
- xdiff, zlib, SHA-1, regular expressions and fnmatch: their internals are not part of this model.
- Checkout, diff iterators, clone, branch and fetch plumbing, dates, the file system and the network: input and output, or thin wrappers.
