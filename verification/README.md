# kotatsu: verified models

Dafny models of seven parts of the kotatsu runtime, with proofs of what they promise. Each
part has a small specification, the loops and objects of the program proved against it, and
laws about the specification.

- **Globs** (`Glob*.dfy`). A pattern is a text of bytes. Its meaning is: for some choice of
  brace terms, the text with each brace replaced by its term parses into parts, and the parts
  accept the path. Parts are matched by the recursive predicate `S` over the path split at
  `/`, a segment by `G`, the existential star match over UTF-8 atoms (a byte that does not
  decode is an atom of its own). The compiler (literal head, braces, arms, bits, plans, modes)
  and the matcher (segment program, token program, suffix words, binary search) are proved to
  give exactly that answer, from text to answer, for every text and every path, and creating
  a pattern fails exactly when some expansion does not parse or there are too many. What the
  text means is told once more from what is written in it: characters, wildcards, brackets as
  lists of items, separators and braces with their terms (`GlobWritten`, `GlobLaws`).
- **Framing** (`Framing*.dfy`). The reference is a machine that reads one byte at a time. The
  parser object, which takes headers, payloads and skipped payloads a chunk at a time, is
  proved equal to it, so that cutting a stream differently changes nothing; frames written
  read back, and so do headers of any lines somebody else wrote; the two readers drop no byte;
  the writer's batches are as few as they can be.
- **Command lines** (`Cmd*.dfy`). Reading is specified by two recursive unquoting functions.
  The iterator with its borrowed fast path is proved equal to them, and `join` to be undone
  by it; response files expand as a recursive function says, cycles included. Lines and files
  written by others read as the words in them stand for (`CmdWords`, `CmdFiles`).
- **Paths** (`Path*.dfy`). `normalize` rewrites the array it is still reading, and what it
  leaves is a function of the text it found. POSIX paths get a meaning, the directory they
  name, that `normalize`, `push`, `relative` and `resolve` are proved to keep and that tells
  which normal form a path has; written Windows paths have their root, names and normal form.
- **HTTP transfers** (`Http*.dfy`). A state machine of the manager, its list, curl's multi
  handle, the loop's queues and cancellation; an invariant of every state of every run; and
  the manager as an object, its list linked through the transfers, that does those steps.
- **Directories** (`DirectoryWalk.dfy`, `DirectoryOrder.dfy`, `Remove*.dfy`). The walk is
  proved to give one item for each way down the tree, in preorder; removal to unlink every
  entry of an undisturbed tree once, hard links included, directories after what they hold.
- **Test workers** (`Pool*.dfy`). A state machine of drivers over a shared cursor, in every
  interleaving: how often tests are dispatched and reported, with which verdict, what becomes
  of workers, and that every run ends.

Reading of files and directories, the network, processes and clocks are parameters: functions
from names to texts or listings, a map from inodes to nodes, or steps that may come in any
order. Texts of patterns are bytes; command lines, paths and frames are strings of
characters that stand for bytes.

## What turned out otherwise

- A transfer whose completion is queued and that has left its manager is never completed when
  the loop is destroyed before it turns again: no later cancel completes it, since it counts
  as queued (src/http/transfer.cpp:137-139). This happens when the manager goes before the
  loop, or when a cancel finds the completion queued. `HttpLaws.AbortedButNeverEnded` is such
  a run; `HttpLaws.DyingLoop` and `HttpLaws.DeadLoop` say exactly which transfers are lost, and
  that every other one ends once. As long as the loop lives, over every run, a transfer that curl
  no longer drives ends exactly once (`HttpLaws.EveryLiveRunEnds`).
- `join` for Windows gives a list back exactly when its program holds no quote
  (`CmdJoin.JoinRoundTripExactly`), which is what the header asks of callers.
- Resolving what `relative` wrote gives the normal form of the path exactly when the path is
  not empty (`PathLaws.RelativeThenResolve`): the empty path's normal form is empty, and a
  resolved path never is. What the two name is the same in both cases (`PathLaws.WayNames`).

## Model

| member | source | states |
|---|---|---|
| `GlobText.DecodeSequence` | include/kotatsu/support/utf8.h:28-72 | the decoding loop accepts exactly the well-formed sequences of RFC 3629 and gives their code point and length; for anything else it gives the replacement character and the maximal subpart: the longest start of a character, and at least one byte |
| `GlobText.AtomInjective` | src/support/glob_pattern.cpp:56-70 | atoms of equal value are spelled by the same bytes, so comparing bytes and comparing characters agree |
| `GlobText.Synchronizes` | src/support/glob_pattern.cpp:950-954 | wherever a character starts among the bytes of any text, an atom of the text starts: a byte search cannot land inside a character |
| `GlobSpec.StarChooses` | include/kotatsu/support/glob_pattern.h:49-80 | a star accepts whenever some number of whole characters leaves a rest that matches |
| `GlobSpec.StarChoice` | include/kotatsu/support/glob_pattern.h:49-80 | conversely a match with a star gives such a number, so the recursive definition is the existential one |
| `GlobSpec.BytesMatchAsCodes` | include/kotatsu/support/glob_pattern.h:69-76 | matching bytes equals matching sequences of code points, for patterns of UTF-8 literals and any input bytes |
| `GlobTokens.Contains` | src/support/glob_pattern.cpp:698-704 | one binary search over sorted ranges decides membership in the class as a set, negated or not |
| `GlobTokens.MatchTokens` | src/support/glob_pattern.cpp:927-995 | retrying only the latest star, and searching forward for the literal after it, decides exactly the existential star match |
| `GlobTokens.MatchAffix` | src/support/glob_pattern.cpp:918-925 | comparing both ends, without overlap, decides the star match of a one-star segment |
| `GlobExecute.ComputeBits` | src/support/glob_pattern.cpp:620-640 | the backward pass gives each segment bits that mean what the recursive definition says: from here on an ended path matches, and what follows may be missing |
| `GlobExecute.FindSegment` | src/support/glob_pattern.cpp:319-333 | the jump lands on the first segment from `from` on that starts with the text, and passes none |
| `GlobExecute.MatchSegment` | src/support/glob_pattern.cpp:862-879 | one segment against its piece of the path, whichever of the three ways its kind takes, and where the piece ends |
| `GlobExecute.Execute` | src/support/glob_pattern.cpp:830-916 | the program with one retry point accepts exactly the paths the recursive definition `S` does, for every arm and path, and terminates |
| `GlobPlans.PackedMatches` | include/kotatsu/support/glob_pattern.h:147-163 | comparing one masked word, two, or the text tells in each case whether the input ends with the literal |
| `GlobPlans.AbsorbsMeansAllGlobstars` | src/support/glob_pattern.cpp:637-640 | the separator may be absorbed exactly when the arm is `**` alone, repeated or not |
| `GlobPlans.SuffixTestIsNecessary` | src/support/glob_pattern.cpp:677-693 | the test before the segment program never rejects a path that `S` accepts |
| `GlobPlans.PrefixTreeMatches` | src/support/glob_pattern.cpp:645-660 | the prefix-tree plan agrees with `S` |
| `GlobPlans.DirectoryTreeArm` | src/support/glob_pattern.cpp:647-664 | the directory-tree plan agrees with `S`, and its directory is never empty |
| `GlobPlans.SuffixArm` | src/support/glob_pattern.cpp:665-667 | the suffix plan agrees with `S` |
| `GlobPlans.SegmentSuffixArm` | src/support/glob_pattern.cpp:665-667 | the segment-suffix plan agrees with `S` |
| `GlobPlans.PathSuffixArm` | src/support/glob_pattern.cpp:671-672 | the path-suffix plan agrees with `S` |
| `GlobPlans.MatchFinal` | src/support/glob_pattern.cpp:811-828 | matching the last segment against the last name, literal, affix or tokens, agrees with `S` on the whole arm |
| `GlobPlans.MatchArm` | src/support/glob_pattern.cpp:741-773 | whatever plan it has, an arm gives the answer of `S` on its segments |
| `GlobPattern.MatchExtensionSet` | src/support/glob_pattern.cpp:777-807 | the binary search whose mask depends on the probed arm finds an arm exactly when a linear scan finds one whose literal is a suffix |
| `GlobPattern.Sort` | src/support/glob_pattern.cpp:457-459 | sorting the arms keeps them all and orders their keys |
| `GlobPattern.ChooseMode` | src/support/glob_pattern.cpp:432-466 | every mode chosen is one the arms allow, and no arm is lost |
| `GlobPattern.MeansByMembers` | src/support/glob_pattern.cpp:457-459 | the meaning does not depend on the order of the arms |
| `GlobPattern.MeansBehindPrefix` | src/support/glob_pattern.cpp:706-724 | what the prefix leaves for the arms, the path that stops at the prefix included |
| `GlobPattern.MatchArms` | src/support/glob_pattern.cpp:706-775 | prefix, absorbed separator and arms accept exactly what the pattern means |
| `GlobPattern.MatchSomeArm` | src/support/glob_pattern.cpp:725-775 | trying the arms one by one, by suffix alone or by binary search finds an arm exactly when one accepts |
| `GlobPattern.Match` | include/kotatsu/support/glob_pattern.h:112-133 | every mode, those decided inline included, accepts exactly what the arms mean |
| `GlobClass.ReadMembers` | src/support/glob_pattern.cpp:142-174 | the loop that holds a member back for a dash reads the ranges that `Members` says, or its error; what those are of a written bracket is `GlobLetters.ItemsRead` |
| `GlobClass.Coalesce` | src/support/glob_pattern.cpp:175-185 | merging touching ranges keeps the set and leaves them apart |
| `GlobClass.ParseBracketCharset` | src/support/glob_pattern.cpp:120-185 | the sorted, coalesced ranges hold exactly the code points of the members as written |
| `GlobSyntax.PrefixSplits` | src/support/glob_pattern.cpp:351-385 | splitting a literal text off before an arm keeps the meaning of the whole; it fails exactly where two separators meet or the arm fails, with that error |
| `GlobSyntax.FinishHasNoEmptyAfterGlobstar` | src/support/glob_pattern.cpp:610-618 | after the trailing `**` rule no empty segment follows a `**` |
| `GlobBraces.OutsideSound` | src/support/glob_pattern.cpp:197-250 | what the scan finds are brace expressions as the grammar has them |
| `GlobBraces.OutsideComplete` | src/support/glob_pattern.cpp:197-250 | and it finds every text's brace expressions when the text has them |
| `GlobBraces.ParseBraces` | src/support/glob_pattern.cpp:197-250 | the loop succeeds exactly on well-formed texts, with their brace expressions |
| `GlobBraces.RankInjective` | src/support/glob_pattern.cpp:301-309 | different choices of terms have different ranks |
| `GlobBraces.RankBelowCount` | src/support/glob_pattern.cpp:388-397 | ranks are below the number of arms |
| `GlobBraces.NextChoice` | src/support/glob_pattern.cpp:301-309 | in place on the array of choices, steps to the next rank, and stops after the last: every choice comes once |
| `GlobBraces.BuildArm` | src/support/glob_pattern.cpp:257-280 | the arm's text is the pattern with each brace replaced by its term |
| `GlobBraces.ArmTextUtf8` | src/support/glob_pattern.cpp:257-280 | an arm of a UTF-8 pattern is UTF-8 |
| `GlobCompile.ScanBracketAt` | src/support/glob_pattern.cpp:85-118 | finds the bracket that closes, past a negation, a leading `]` and escapes |
| `GlobCompile.CompileClass` | src/support/glob_pattern.cpp:509-527 | a bracket compiles to a class with the same members as it parses to |
| `GlobCompile.CompileSegment` | src/support/glob_pattern.cpp:497-576 | the token loop, literal runs merged, gives tokens that match what the segment parses to, or its error |
| `GlobCompile.CompileSegments` | src/support/glob_pattern.cpp:490-608 | all segments of an arm, with its errors |
| `GlobCompile.CompileArm` | src/support/glob_pattern.cpp:490-696 | an arm compiles exactly when its text parses, and matches the same |
| `GlobCompile.SpellMatches` | src/support/glob_pattern.cpp:499-506 | merging literal bytes into runs keeps what tokens match |
| `GlobCompile.SimilarAccept` | src/support/glob_pattern.cpp:490-696 | parts whose tokens match alike accept the same paths |
| `GlobCreate.LiteralHead` | src/support/glob_pattern.cpp:35-51 | the literal head ends at the first wildcard or impossible escape, its escapes resolved |
| `GlobCreate.FindInvalidUtf8` | src/support/glob_pattern.cpp:72-83 | gives the size of a UTF-8 text, and of any other the offset where its UTF-8 ends and no character starts |
| `GlobCreate.CountArms` | src/support/glob_pattern.cpp:388-397 | the product of the numbers of terms |
| `GlobCreate.LiteralPattern` | src/support/glob_pattern.cpp:378-380 | a text without wildcards compiles to a pattern that matches its resolved text only |
| `GlobCreate.CreateArms` | src/support/glob_pattern.cpp:404-466 | compiling each choice behind the prefix gives a pattern that matches exactly what some choice spells, or the error of the first choice in order that spells no pattern |
| `GlobCreate.Create` | src/support/glob_pattern.cpp:337-467 | create() succeeds exactly when the text is UTF-8, its braces are well formed, there are not too many arms and each spells a pattern; the pattern means that some choice accepts the path; a rejected text gives the kind of error of the first thing that is wrong with it |
| `GlobMatch.CreateAndMatch` | src/support/glob_pattern.cpp:337-467 | created and asked, the pattern answers whether some choice of brace terms spells a pattern that accepts the path, or the text is rejected for what is wrong with it |
| `GlobMatch.Escape` | src/support/glob_pattern.cpp:469-479 | the loop escapes the special bytes |
| `GlobMatch.EscapeRoundTrip` | include/kotatsu/support/glob_pattern.h:91-96 | an escaped literal compiles exactly when it is UTF-8 without `//`, and then matches the literal and nothing else; the two ways to be rejected have an error kind each |
| `GlobMatch.PlainStaysPlain` | src/support/glob_pattern.cpp:469-479 | a text without the bytes that mean something in a pattern is escaped to itself |
| `GlobLetters.Utf8Reads` | include/kotatsu/support/utf8.h:28-72 | every Unicode scalar value, encoded as RFC 3629 says, is read as one atom of that value, whatever follows it |
| `GlobLetters.ItemsRead` | src/support/glob_pattern.cpp:120-174 | the members of a bracket written as single characters and ranges, plain or escaped, with a leading `]` and dashes first, last and behind a range, are those characters and ranges in order, or the error is InvalidRange when one goes backwards |
| `GlobLetters.BracketEnds` | src/support/glob_pattern.cpp:85-114 | the scan closes a written bracket at its own `]`, not at a leading or an escaped one |
| `GlobWritten.WrittenAccepts` | include/kotatsu/support/glob_pattern.h:53-66 | a pattern written as characters, `?`, stars, brackets and separators is read, and what it is read as accepts exactly the paths it fits, told over code points and path segments |
| `GlobWritten.WellFormedOrNot` | src/support/glob_pattern.cpp:490-610 | such a text is a pattern exactly when no two separators meet and no more than two stars do |
| `GlobLaws.PatternMatches` | src/support/glob_pattern.cpp:337-467 | a pattern with braces matches exactly the paths that it fits with some term picked for each pair of braces |
| `GlobLaws.PatternCompiles` | src/support/glob_pattern.cpp:389-404 | and compiles exactly when the ways to pick are no more than the limit |
| `GlobLaws.PlainPatternMatches` | include/kotatsu/support/glob_pattern.h:53-66 | a pattern without braces matches exactly the paths it fits, and so does one with a brace when braces are not expanded |
| `GlobLaws.PlainPatternCompiles` | src/support/glob_pattern.cpp:490-610 | a text of elements compiles exactly when no two separators meet and no more than two stars do |
| `GlobLaws.CutOffCompilesNot` | src/support/glob_pattern.cpp:355-366 | a text that ends in a lone backslash, escapes a separator or leaves a bracket open compiles to no pattern |
| `GlobLaws.BracketMatches` | include/kotatsu/support/glob_pattern.h:58-77 | a written bracket matches a path exactly when that is one character, no separator, and some item is it or spans it, or with `!` or `^` none does; a stray byte is a character that no item names |
| `GlobLaws.BracketMatchesCharacter` | include/kotatsu/support/glob_pattern.h:58-77 | the same for the encoding of any one code point: `lo <= cp <= hi` for some item, or for none |
| `GlobLaws.BackwardRange` | src/support/glob_pattern.cpp:146-154 | a bracket with a range whose end is below its start compiles to no pattern, for that reason alone |
| `FramingSpec.FeedSplits` | src/ipc/framing.cpp:80-175 | feeding two pieces in turn gives what feeding them at once gives: a frame found in the first stays, and without one all of the first was consumed |
| `FramingSpec.RunSplits` | src/ipc/framing.cpp:80-175 | the same for all frames and errors of a stream and the total consumed, up to the first malformed header |
| `FramingSpec.ChunksDoNotMatter` | src/ipc/framing.cpp:80-175 | however a stream is cut into chunks, it yields the same frames and errors and consumes the same bytes |
| `Framing.HeaderEnd` | src/ipc/framing.cpp:65-78 | finds the first blank line that ends in the new input, one that begins in what was read before included |
| `Framing.ReadContentLength` | src/ipc/framing.cpp:34-55 | the loop over header lines gives the length `ContentLength` says, or its error; what that is of written lines are the laws of `FramingHeaders` |
| `Framing.QuietHeader` | src/ipc/framing.cpp:99-113 | header bytes before the blank line only collect, up to the limit |
| `Framing.PayloadFeed` | src/ipc/framing.cpp:138-148 | taking a whole piece of payload is taking its bytes one by one |
| `Framing.SkipFeed` | src/ipc/framing.cpp:150-172 | so is skipping a piece of an oversized payload, its prefix kept up to the limit |
| `Framing.FrameParser.constructor` | src/ipc/framing.cpp:63-63 | a new parser is at the start of a header |
| `Framing.FrameParser.FeedChunk` | src/ipc/framing.cpp:80-175 | the four-phase loop leaves the fields, the consumed count and the frame or error of the byte-at-a-time machine |
| `FramingDrivers.DecimalOfDigits` | src/ipc/framing.cpp:59-61 | a size written in decimal reads back |
| `FramingDrivers.HeaderReadsBack` | src/ipc/framing.cpp:59-61 | the header written for a size ends at its blank line, not before, and names that size |
| `FramingDrivers.FrameReadsBack` | src/ipc/framing.cpp:95-172 | a frame fed to a parser in step gives its payload, or the Oversized error with its size and first bytes, consumes just the frame, and leaves the parser in step |
| `FramingDrivers.RoundTrip` | src/ipc/framing.cpp:59-175 | frames of any payloads, one after the other, parse back in order, oversized ones as their errors |
| `FramingDrivers.RoundTripInChunks` | src/ipc/framing.cpp:59-175 | so they do however the stream is cut, from any parser in step: every byte is consumed and the parser is in step again |
| `FramingHeaders.NamedLengthReads` | src/ipc/framing.cpp:34-55 | any lines that do not name the length, then `name: value` with the name in any letter case and blanks around both, then any lines: a parser in step fed the block and a payload of that size gives the payload, or that it is too large with its first 4096 bytes, takes just those bytes, and is in step again |
| `FramingHeaders.BadLengthReads` | src/ipc/framing.cpp:48-51 | if the value of that line is not all digits, or is more than 64 bits hold, the header is malformed with that value |
| `FramingHeaders.NoLengthReads` | src/ipc/framing.cpp:55-55 | if no line names the length, the header is malformed for that |
| `FramingHeaders.EndlessHeader` | src/ipc/framing.cpp:99-121 | while no blank line has ended the header, up to 8192 bytes are taken, and the next one makes it too long |
| `FramingHeaders.BrokenForGood` | src/ipc/framing.cpp:97-97 | after a malformed header every feed repeats that and takes nothing |
| `FramingDrivers.BlockingPipe.Read` | src/ipc/blocking_client.cpp:167-184 | returns the next frame of the bytes unread and still to come, and keeps every byte after it |
| `FramingDrivers.StreamReader.ReadMessage` | src/ipc/transport.cpp:88-108 | so does the reader that consumes from the stream's buffer, and at the end of input its parser stands behind all of it |
| `FramingDrivers.GreedyIsLeast` | src/ipc/transport.cpp:134-147 | no grouping of consecutive frames within the limit has fewer groups than the greedy one |
| `FramingDrivers.NextGroup` | src/ipc/transport.cpp:136-147 | a group is as long as the limit allows, or a single frame |
| `FramingDrivers.WriteFrames` | src/ipc/transport.cpp:126-159 | the writes are the frames' bytes in order, each within the limit or a single frame, and as few as any grouping allows; a write that fails is the last one, and those up to it are the same as if it had not |
| `CmdSplit.ReadBackslashes` | src/sys/cmd.cpp:82-98 | what a run of backslashes gives before a quote or not, and the last character taken |
| `CmdSplit.UnquoteWindowsFrom` | src/sys/cmd.cpp:187-205 | the loop unquotes by the C runtime's rules, to where the argument ends |
| `CmdSplit.UnquotePosixFrom` | src/sys/cmd.cpp:207-229 | the loop unquotes by a shell's rules, or a response file's |
| `CmdSplit.PlainEnd` | src/sys/cmd.cpp:157-174 | the fast path stops where unquoting starts, and what it passed reads as it is |
| `CmdSplit.BorrowedIsWhole` | src/sys/cmd.cpp:175-178 | the borrowed view is what full unquoting would give |
| `CmdSplit.SplitIterator.constructor` | src/sys/cmd.cpp:127-130 | a new iterator has all arguments of the line to give |
| `CmdSplit.SplitIterator.Advance` | src/sys/cmd.cpp:143-185 | moves on to what full unquoting of the rest of the line gives, or past the last |
| `CmdSplit.Split` | src/sys/cmd.cpp:127-185 | iterating gives all arguments of the line by full unquoting |
| `CmdJoin.AppendWindows` | src/sys/cmd.cpp:30-55 | writes the argument as it is, or quoted with backslashes doubled before quotes |
| `CmdJoin.AppendPosix` | src/sys/cmd.cpp:58-76 | writes the argument escaped character by character |
| `CmdJoin.Join` | src/sys/cmd.cpp:231-245 | writes all arguments, the program by its own rule |
| `CmdJoin.WindowsArgumentReads` | src/sys/cmd.cpp:30-55 | a written Windows argument, with any runs of backslashes and quotes, reads back, and reading stops at the space after it |
| `CmdJoin.PosixArgumentReads` | src/sys/cmd.cpp:58-76 | so does a written POSIX argument, the empty one and newlines included |
| `CmdJoin.WindowsProgramReads` | src/sys/cmd.cpp:16-26 | so does a written program without a quote |
| `CmdJoin.JoinRoundTrip` | include/kotatsu/sys/cmd.h:140-152 | splitting what join() wrote gives the arguments back: any list on POSIX, on Windows any whose program holds no quote |
| `CmdJoin.JoinRoundTripExactly` | include/kotatsu/sys/cmd.h:140-152 | and on Windows no other list |
| `CmdJoin.JoinThenSplit` | src/sys/cmd.cpp:127-245 | the writing and reading loops, one after the other, give the arguments back |
| `CmdJoin.EscapedExactly` | src/sys/cmd.cpp:57-76 | on POSIX a character is escaped, or a newline quoted, exactly when it is no ASCII letter or digit, no byte outside ASCII and none of ten marks |
| `CmdJoin.QuotedExactly` | src/sys/cmd.cpp:16-54 | what goes between quotes on Windows: of arguments exactly the empty one and those with a blank, tab, line feed, vertical tab or quote inside, of programs the empty one and those with a blank or tab |
| `CmdJoin.UnremarkableLine` | src/sys/cmd.cpp:231-245 | arguments of letters, digits and a few marks are written as they are, one space between them |
| `CmdWords.WindowsWordReads` | src/sys/cmd.cpp:187-205 | an argument of plain stretches, quoted stretches with escaped or doubled quotes, backslashes before a quote and escaped quotes outside, in any order that keeps them apart, reads as what they stand for |
| `CmdWords.DoubledReads` | src/sys/cmd.cpp:197-199 | inside quotes, a text with each quote doubled reads back as the text |
| `CmdWords.WindowsCutShort` | src/sys/cmd.cpp:188-191 | a quote that is never closed holds the rest of the line |
| `CmdWords.ProgramWordReads` | src/sys/cmd.cpp:192-203 | in a program quotes only group, wherever they are, and every backslash is its own |
| `CmdWords.PosixWordReads` | src/sys/cmd.cpp:207-229 | an argument of plain, escaped and quoted stretches reads as their characters, where a line has no escape between single quotes and a file has |
| `CmdWords.PosixCutShort` | src/sys/cmd.cpp:207-229 | so does one that ends in an open quote, or in a backslash with nothing to escape, which is then a character |
| `CmdWords.LineReads` | src/sys/cmd.cpp:132-185 | words with gaps of separators between them, before them and after them split into what the words stand for, the separators being those of each of the four readings |
| `CmdWords.CommandLineReads` | src/sys/cmd.cpp:143-148 | a Windows line starts with the program, empty when a blank comes first, and goes on with words |
| `CmdExpand.Opening` | src/sys/cmd.cpp:284-294 | opening a response file keeps what is left to give, and takes one of finitely many moves |
| `CmdExpand.Closing` | src/sys/cmd.cpp:272-277 | so does closing one at its end |
| `CmdExpand.ExpandIterator.constructor` | src/sys/cmd.cpp:247-254 | the iterator starts with the whole recursive expansion to give |
| `CmdExpand.ExpandIterator.Step` | src/sys/cmd.cpp:262-268 | drops the head of the innermost level, a file's or the command's |
| `CmdExpand.ExpandIterator.Settle` | src/sys/cmd.cpp:270-296 | stands on the next argument of the expansion, or is done when none is left; terminates whatever the files include |
| `CmdExpand.ExpandIterator.Advance` | src/sys/cmd.cpp:256-260 | gives one argument of the recursive expansion after the other |
| `CmdExpand.ExpandAll` | src/sys/cmd.cpp:247-296 | iterating gives exactly the recursive expansion bounded by the depth, cyclic files included; what that is of written files are the laws of `CmdFiles` |
| `CmdFiles.ExpandConcat` | src/sys/cmd.cpp:262-268 | expanding a list expands each of its arguments on its own, in order |
| `CmdFiles.StaysAsWritten` | src/sys/cmd.cpp:283-288 | an argument without `@`, one whose file cannot be read, and any inside eight files stay as written |
| `CmdFiles.FileReads` | src/sys/cmd.cpp:284-294 | a file of words, written for the quoting, stands for what they stand for, expanded one file deeper |
| `CmdFiles.WrittenFileReads` | src/sys/cmd.cpp:284-294 | a file in which each argument is written as join() does and ended by line ends or other blanks gives the arguments back, for either quoting |
| `CmdFiles.EscapeBetweenSingleQuotes` | src/sys/cmd.cpp:213-219 | between single quotes a backslash escapes in a POSIX file and is a character on a POSIX line |
| `CmdFiles.EightDeep` | src/sys/cmd.cpp:283-283 | files that each name the next are read eight deep and no deeper |
| `PathBuffer.FindPrefix` | src/fs/path.cpp:48-93 | the prefix of a Windows path; moving back before separators never passes the start |
| `PathBuffer.FindRoot` | src/fs/path.cpp:177-186 | prefix and root directory of a path |
| `PathRoots.RootIsItsOwn` | src/fs/path.cpp:177-186 | cut off behind its root, a path of either style and any prefix has the same root |
| `PathVolumes.RootReads` | include/kotatsu/fs/path.h:38-71 | the root of a written Windows path is its volume, of each of the six kinds or none, and the separators behind it |
| `PathVolumes.PathNames` | include/kotatsu/fs/path.h:22-28 | and its names are those written between separators, which behind a verbatim prefix are backslashes alone |
| `PathVolumes.WindowsNormal` | include/kotatsu/fs/path.h:321-329 | its normal form is the volume, one separator for those behind it, and the names kept, all with the separator first written |
| `PathPushes.AbsolutePushed` | include/kotatsu/fs/path.h:249-253 | an absolute Windows path takes the place of what it is joined onto |
| `PathPushes.OtherDrivePushed` | include/kotatsu/fs/path.h:249-253 | so does one on another drive, letters compared in either case |
| `PathPushes.RootedPushed` | include/kotatsu/fs/path.h:249-253 | one with separators first and no volume goes behind the other's volume, its `/` turned behind a verbatim one |
| `PathPushes.RelativePushed` | include/kotatsu/fs/path.h:249-253 | any other goes after it, behind the last separator the other was written with, or else the first of its own, or `/`, unless it ends in one or is a drive alone |
| `PathBuffer.ComponentIterator.constructor` | src/fs/path.cpp:198-221 | stands on the first name from a place on |
| `PathBuffer.ComponentIterator.Advance` | src/fs/path.cpp:206-216 | moves on to the next name, past at least one separator |
| `PathBuffer.CollectNames` | src/fs/path.cpp:100-106 | the names after the root |
| `PathBuffer.KeepSpans` | src/fs/path.cpp:334-349 | the places kept spell the names kept, in order and with a separator between any two |
| `PathBuffer.Buffer.WriteNames` | src/fs/path.cpp:361-367 | moving each kept name down over the buffer writes their texts as they were before any was moved |
| `PathBuffer.Buffer.Normalize` | src/fs/path.cpp:327-373 | in place, in the same storage, the path becomes root and kept names computed from the text it held, in either style |
| `PathLaws.NamesOfJoined` | src/fs/path.cpp:206-216 | names written with separators between them read back |
| `PathLaws.NormalIsFixed` | include/kotatsu/fs/path.h:323-331 | in POSIX style normalizing again changes nothing, `..` folded or kept |
| `PathLaws.NormalNamesTheSame` | include/kotatsu/fs/path.h:315-331 | in POSIX style a normal form names, from every start, the directory the path names, `..` as text says and stopping at the root |
| `PathForms.KeptNames` | include/kotatsu/fs/path.h:315-329 | with `..` kept, a normal form has every name of the path but `.`, in order |
| `PathForms.FoldedNames` | include/kotatsu/fs/path.h:321-329 | with `..` folded, the names kept climb first if at all, and behind a root never |
| `PathForms.NormalIsUnique` | include/kotatsu/fs/path.h:321-329 | two paths fold to the same text exactly when they name the same directory from every start, both from the root or neither |
| `PathLaws.PushedNames` | src/fs/path.cpp:254-293 | in POSIX style a joined path names what the second names from where the first leads |
| `PathLaws.RelativeThenResolve` | src/fs/path.cpp:375-427 | in POSIX style, whenever relative() succeeds, resolving its result against the base gives the folded normal form of the path, exactly when the path is not empty |
| `PathLaws.WayNames` | src/fs/path.cpp:375-415 | and from wherever the base leads, the result leads to what the path names |
| `PathJoin.Push` | src/fs/path.cpp:254-293 | the buffer holds the joined path, in each case of the two roots |
| `PathJoin.Relative` | src/fs/path.cpp:375-415 | succeeds exactly when the roots agree and the base has no `..` past the common part; writes the climbs and the rest, or leaves the buffer |
| `PathJoin.Resolve` | src/fs/path.cpp:417-427 | the joined path, normalized |
| `PathJoin.RelativeThenResolveAgain` | src/fs/path.cpp:375-427 | the operations one after the other give the normal form of the path |
| `HttpRuns.CancelKeeps` | src/http/transfer.cpp:132-140 | a cancel keeps the invariant, and ends at once a transfer whose completion is not queued |
| `HttpRuns.FinishKeeps` | src/http/manager.cpp:256-274 | curl's completion keeps the invariant |
| `HttpRuns.StartKeeps` | src/http/transfer.cpp:118-130 | so does a start, one that fails or whose task was cancelled before included |
| `HttpRuns.CompleteNextKeeps` | src/async/io/loop.cpp:160-185 | a queued completion is always of a transfer that is still awaited, and keeps the invariant |
| `HttpRuns.ReleaseAllKeeps` | src/http/manager.cpp:127-141 | the destructor's loop keeps the invariant and leaves no transfer tracked |
| `HttpLaws.EveryRunIsSafe` | src/http/manager.cpp:117-274 | in every state of every run the list holds exactly the transfers with an owner, once each, curl drives exactly those not queued, and each transfer has ended once or still waits |
| `HttpLaws.QueuedEnds` | src/async/io/loop.cpp:160-185 | over every run of a live loop, with starts, cancels, completions by curl and managers going at any point, a queued transfer has ended exactly once when turns enough have begun (one, two or three by its place in the queue): failed or with its response as it was queued, or cancelled if a cancel came before its end |
| `HttpLaws.CancelEnds` | src/http/transfer.cpp:132-140 | over every run of a live loop that goes on from a cancel, the transfer ends cancelled, exactly once, at the cancel or when turns enough have begun |
| `HttpLaws.FinishedEnds` | src/http/manager.cpp:256-274 | over every run of a live loop that goes on from curl's report of a transfer, it ends exactly once, with the error reported, or its response if none was, unless a cancel came first |
| `HttpLaws.RefusedEnds` | src/http/transfer.cpp:118-130 | over every run that goes on from a start that failed, the transfer has ended once, with what it failed with |
| `HttpLaws.CancelledStartEnds` | src/http/transfer.cpp:118-140 | over every run that goes on from a start by a task cancelled before, it has ended cancelled, once |
| `HttpLaws.GoneManagerEndsAll` | src/http/manager.cpp:117-142 | over every run of a live loop that goes on from its manager's destruction, every transfer ends exactly once when turns enough have begun: aborted if curl still drove it, as it had finished if not, and cancelled if a cancel came first |
| `HttpLaws.EveryLiveRunEnds` | src/http/manager.cpp:117-274 | over every run from the start that leaves the loop alive, each transfer that curl did not drive any more at some point has ended exactly once when turns enough have begun since |
| `HttpLaws.EndedForGood` | src/async/runtime/node.cpp:104-107 | over every run, a transfer that has ended stays as it ended |
| `HttpLaws.LostStays` | src/http/transfer.cpp:132-140 | in a dying loop a lost transfer stays lost, and how another can become so |
| `HttpLaws.DeadLoop` | src/http/manager.cpp:125-141 | over every further run of a dead loop exactly the lost transfers never end, and each other one has ended once when a cancel has reached it |
| `HttpLaws.DyingLoop` | src/http/manager.cpp:125-141 | when manager and loop go together, the lost ones are exactly those queued that had left the manager |
| `HttpLaws.AbortedButNeverEnded` | src/http/transfer.cpp:137-139 | a run in which a cancelled transfer never ends |
| `HttpManager.Manager.Unlink` | src/http/manager.cpp:243-253 | relinking the neighbours takes one transfer out of the linked list and keeps the rest |
| `HttpManager.Manager.Drop` | src/http/manager.cpp:239-254 | the pointers, the multi handle and the owner are those of the state machine's step |
| `HttpManager.Manager.Add` | src/http/manager.cpp:227-237 | the transfer is first in the list and with curl |
| `HttpManager.Manager.Start` | src/http/transfer.cpp:118-130 | start() and attach() make the state machine's step |
| `HttpManager.Manager.Cancel` | src/http/transfer.cpp:132-140 | so does cancel() |
| `HttpManager.Manager.AwaitResume` | src/http/transfer.cpp:142-157 | so does await_resume() |
| `HttpManager.Manager.Drive` | src/http/manager.cpp:256-274 | the loop over curl's messages is a run of completions, each with the error curl gives, which `HttpLaws.FinishedEnds` takes to the task |
| `HttpManager.Manager.Destroy` | src/http/manager.cpp:117-142 | the destructor's loop over the list is the state machine's step, and ends with an empty list |
| `HttpManager.Manager.CompleteNext` | src/async/io/loop.cpp:182-184 | completing the next of a turn never completes a transfer that no task awaits |
| `HttpManager.Manager.PendingRequests` | src/http/manager.cpp:194-200 | counting down the list gives the number of transfers curl drives |
| `DirectoryWalk.Walk.constructor` | src/fs/directory.cpp:815-830 | a new walk has the whole tree to give |
| `DirectoryWalk.Walk.Advance` | src/fs/directory.cpp:832-884 | gives the next item, after which what is to come is what the tree holds beyond it, its contents skipped as the caller asks; done when nothing is left |
| `DirectoryWalk.WalkAll` | src/fs/directory.cpp:822-884 | iterating gives the recursive walk of the tree, cut at the depth and at skipped directories, an error in place of what could not be read |
| `DirectoryOrder.WalkIsPreorder` | include/kotatsu/fs/directory.h:180-199 | the walk gives one item for each way down the tree through readable, unskipped directories within the depth, each once, a directory before what it holds and entries as listed |
| `DirectoryOrder.EntryNames` | include/kotatsu/fs/directory.h:201-232 | in POSIX style an entry's depth counts the names that lead to it and is within the limit, its name is the last, its path the root and them all, and its relative path those names alone; an error is of the unreadable directory at its names |
| `RemoveSpec.DescendantsFirst` | src/fs/directory.cpp:481-571 | whatever is in a directory goes before it, as one stretch that ends with it |
| `RemoveSpec.OrderCounts` | src/fs/directory.cpp:481-571 | the order has as many entries as the tree |
| `RemoveTree.ComesToGo` | src/fs/directory.cpp:564-568 | an entry that comes to go may: it is no directory that still holds anything, and a file that is to go by other names too keeps a link until the last |
| `RemoveTree.TakeKeeps` | src/fs/directory.cpp:494-541 | taking an entry, going in, or removing it keeps the invariant: `dir` is the directory on top of the levels, and what is gone and what is pending make up the whole order |
| `RemoveTree.ClimbKeeps` | src/fs/directory.cpp:542-563 | so does climbing through `..`, which always leads to the directory recorded below, and removing the emptied one |
| `RemoveTree.TurnKeeps` | src/fs/directory.cpp:490-569 | a turn of the loop never fails on an undisturbed tree; it ends only when every entry has gone |
| `RemoveTree.Remove` | src/fs/directory.cpp:481-571 | by a path of any number of names: every entry of the tree goes once, directories after what they hold, the count is of the entries; a file goes with its last name, one with links elsewhere loses as many as it had in the tree, and nothing else in the file system changes; a missing path removes nothing |
| `PoolRuns.Partition` | src/zest/pool.cpp:387-391 | each test is in one of the two lists, in order |
| `PoolLaws.TakeKeeps` | src/zest/pool.cpp:318-333 | taking the next test keeps the invariant |
| `PoolLaws.StartKeeps` | src/zest/pool.cpp:330-337 | so does a worker's start, or its failure |
| `PoolLaws.AnswerKeeps` | src/zest/pool.cpp:209-293 | so does an answer, its worker kept or lost; what is reported of it is `PoolVerdicts.EveryReport` |
| `PoolLaws.SerialKeeps` | src/zest/pool.cpp:400-413 | so does the change to the serial tests |
| `PoolLaws.EveryRun` | src/zest/pool.cpp:209-347 | in every interleaving a test is dispatched at most once and reported at most once and only if dispatched; a worker that is gone gets no test; a crash test shares its worker with none; a serial test in flight is alone |
| `PoolLaws.EndedRun` | src/zest/pool.cpp:318-413 | when a run has ended, every test dispatched has been reported exactly once, every worker started has gone exactly once, and if no start failed every test has been reported |
| `PoolLaws.AsManyAsJobs` | src/zest/pool.cpp:399-413 | in every interleaving as many drivers share the tests as jobs were asked for, or as there are tests to run together if those are fewer, and one runs the serial tests |
| `PoolVerdicts.EveryReport` | src/zest/pool.cpp:209-293 | over every run a test is answered at most once, and the verdict reported is the one that answer deserves: TimedOut when the worker was late or stuck, Failed after a fatal check, as replied or Crashed for an ordinary test, and for a crash test Passed exactly when its worker exited without success, Survived when it replied, Skipped when it said so |
| `PoolVerdicts.EndedReport` | src/zest/pool.cpp:209-293 | in a run that has ended, every answer to a test has been reported |
| `PoolVerdicts.LostGetsNoTest` | src/zest/pool.cpp:220-275 | a worker that was late, stuck, exited or failed fatally is given no other test, over every run |
| `PoolLaws.RunsAreShort` | src/zest/pool.cpp:318-347 | no run is longer than its tests and drivers allow |
| `PoolLaws.NeverStuck` | src/zest/pool.cpp:318-413 | a run that has not ended can go on |

## Left out

- Globs: positions and texts of errors (their kinds are modelled), `split_root`, the 32-bit indices of the pools, and the cache of a segment's end in `execute`, which changes no answer; `arm_count` does not saturate, as numbers are unbounded.
- Framing: the texts of errors, the reserved padding, and how a read fails other than by the end of input; a write either goes out whole or fails.
- Command lines: `decode` of byte order marks and UTF-16 is part of the function that loads a response file; `to_argv` and option parsing are not part of this model.
- Paths: `filename`, `parent`, `stem`, `extension`, `strip_prefix` and the small rewrites would only add easy members; what directories Windows paths name, and so what relating them means, is left out, since a name may read as a prefix once what was before it is gone; their roots, names, normal forms and joined texts have laws.
- HTTP: the set-up of curl handles, cookies and requests, sockets and timers; curl is a set of transfers that reports each at most once, and the loop is assumed not to be destroyed while it completes a turn.
- RemoveTree.Remove: assumes that no one else changes the tree and that every call is permitted; of the errors, only a missing path is modelled in full. Link counts are taken to count names, and a directory to have one.
- Directories: the Windows removal, statuses and the other file operations; listing order and what a listing tells of types are free.
- Pool: what workers print, logs, durations and the texts of failures; `when_all` is assumed to wait for every driver, and the number of jobs to be at least one, as `sys::parallelism()` gives for an unset option.
- The asynchronous runtime, codecs, process control, and the resource and signal code are not part of this model.
