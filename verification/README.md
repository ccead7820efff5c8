# Ficl and mDNSResponder: verified models

Two C programs of this repository, modelled in Dafny with their branches, edge cases and constants, and what
they are for proved about the models. Cells are 32 bits wide; every wrap-around is written out.

**Ficl**, a Forth interpreter:

- *Control structures.* `ControlWords` has the immediate words that emit and patch branch code, `Compilation`
  runs them over a whole tree, `Structured` says what the tree means without any code, `Layout` what code belongs
  to it, and `Vm` is the inner loop. `CompilerProof` and `Definitions` prove the compiler correct in both
  directions; `CountedLoops` counts the rounds of DO loops; `Discipline` shows that compiled code never leaves its
  instructions. `StackEffects` has the instructions by their stack comments, and `ControlExamples` small programs.
- *Jump threading.* `Threading` is the machine that rewrites branches as it runs them, and its proof against the
  one that does not, with how far the rewriting gets; `InnerLoop` does it in place on dictionary memory.
- *LZ77 codec.* `Bits` and `NetworkOrder` (on hosts of either byte order), `LzFormat`, `LzCompress`,
  `LzUncompress`, `LzRoundTrip` for the exact inputs that survive, and `LzTokens` for the format bit by bit.
- *Double-cell arithmetic and numbers.* `Doubles`, `DoubleMath`, `SignedDivision`, `Numerals`, `PicturedNumbers`,
  `NumberText`; `WordSyntax` for which words are numbers.
- *Dictionary.* `HashChains` and `Dictionary`: hashed, linked wordlists against plain lists, the search order, and
  FORGET; `DictionaryExamples` has dictionaries for what goes wrong.

**mDNSResponder**, `DNSCommon.c`:

- *Names on the wire.* `DomainNames`, `NameRoundTrip`, `DomainNameCodec`: compression pointers, writing, reading
  and skipping (RFC 1035, sections 2.3.4, 3.1 and 4.1.4); `NamePlaces` for names that stand in a message already, and
  `NameChanges` for bytes that change after the search.
- *Sections.* `Messages`, `Sections`, `MessageCodec`: building a message and walking over it. `MessageRoom`: what there
  is room for is put. `RecordNames`: reading
  the names of records back, with `RecordExamples` of those that are lost.
- *Names as text.* `NameText`, `NameTextCodec`: the escapes of section 5.1 of RFC 1035; `NameSyntax` for any text at all.
- *Conflict suffixes* (`SuffixNumbers`, `LabelSuffix`, `LabelRuns`, `SuffixTexts`, `LabelSuffixCodec`) and the *hash prefilter* (`NameHash`).

`Wrappers`, `Cells`, `Slices` and `Characters` are shared. Loops over buffers and objects that change are methods and
classes, each tied to a function whose properties are proved as lemmas.

## Where the code does not do what it is for

Each of these is a theorem with the exact condition, not an assumption:

- The compressor writes 252 as one byte that the decompressor takes for a marker, and 65536 in two bytes
  (`LzRoundTrip.RoundTrip`, `LzRoundTrip.TwentyEightBytesAreLost`).
- `FindCompressionPointer` looks at the byte after the message, so a name can be matched with a stale zero byte and
  then points at itself (`NameRoundTrip.StaleLost`).
- `putDomainNameAsLabels` reports success with the last labels missing when exactly one byte of room is left
  (`NameRoundTrip.CutExample`, `NameRoundTrip.PutThenGet`); this cannot happen to the names of questions and records
  (`Sections.QuestionNameWhole`, `Sections.RecordNameWhole`), but it can to names in the data of records
  (`RecordNames.DataNameRead`, `RecordExamples.DataCut`).
- The search for pointers looks at counts and lengths that change afterwards, so that a pointer can come to mean another
  name (`NameChanges.PutThenGetChanged`, `Sections.HeaderExample`, `RecordExamples.DataOverLength`).
- `AppendDNSNameString` skips one character after a label without looking at it, so a text that is one character too long is
  accepted without that character (`NameSyntax.AnyTextIsRead`, `NameText.LastCharacterLost`).
- `ficl2IntegerDecrement` borrows at the high bit and not at 0, so a floored quotient can have a wrong high cell
  (`SignedDivision.DivideFloored`, `SignedDivision.TinyDividendsMisborrow`).
- `>NUMBER` takes characters from `[` to the back quote for digits (`PicturedNumbers.StopsRight`,
  `PicturedNumbers.BracketIsFour`).
- Division by zero does not end, unless the dividend is zero too (`DoubleMath.DivisionByZero`).
- A DO loop that starts at the largest integer wraps around (`CountedLoops.TripsAreMax`, `CountedLoops.CountingLoop`).
- A host label that is only a suffix, as "-10", is not recognised as one (`LabelSuffix.Appended`, `LabelRuns.DashNine`,
  `LabelRuns.GrowsAlways`).
- The divisor for the digits of a suffix overflows (`SuffixNumbers.WrittenRight`, `SuffixNumbers.NeverEnds`,
  `LabelRuns.ComesBack`).
- The hash of a name counts characters that are not compared (`Dictionary.Dictionary.Lookup`,
  `DictionaryExamples.LongNames`).
- FORGET looks at one wordlist only (`Dictionary.Dictionary.Forget`, `DictionaryExamples.ForgetBelow`).

## Model

| member | source | states |
|---|---|---|
| `Definitions.CompiledMeans` | Development History (posixnap)/Ficl/ficl/vm.c:1264-1463 | a compiled definition returns with a data stack, or faults, if and only if its tree of control structures does; it hands the caller its own return stack back, so every loop has removed the three cells it pushed |
| `Definitions.CompiledEnds` | Development History (posixnap)/Ficl/ficl/vm.c:1264-1463 | the outcomes of the machine are exactly those of the tree, so that it runs for ever exactly when the tree does |
| `Definitions.QuestionDo` | Development History (posixnap)/Ficl/ficl/vm.c:1363-1387 | the compiled ?DO ends as the compiled DO does unless limit and start are equal; then it ends with both dropped, and its body, whatever it is, never runs |
| `Definitions.ThreadedMeans` | Development History (posixnap)/Ficl/ficl/vm.c:146-174 | the same if and only if for the inner loop that rewrites branches the first time they run, together with the fact that runs of the definition only ever fetch from instruction starts |
| `Definitions.CompileAndRun` | Development History (posixnap)/Ficl/ficl/vm.c:1264-1463 | compiling a properly nested tree with the control words and running it in place gives what the tree means, on the caller's return stack, if the budget of turns does not run out |
| `Definitions.BudgetSuffices` | Development History (posixnap)/Ficl/ficl/vm.c:1264-1463 | for a properly nested tree with a result there is a number of turns from which on every budget reaches an outcome, which is that result and no other |
| `Definitions.NeverLeft` | Development History (posixnap)/Ficl/ficl/vm.c:1430-1436 | a properly nested tree never lets a LEAVE out of its loops |
| `CompilerProof.Simulates` | Development History (posixnap)/Ficl/ficl/vm.c:1297-1463 | for every tree, wherever its code is laid: the machine gets from its first cell to its end, or out of the loop, with the data stack and return stack the tree calls for, and runs at least as long as the fuel when the tree does not end |
| `CompilerProof.SimulatesWhile` | Development History (posixnap)/Ficl/ficl/primitives.c:1921-1948 | BEGIN .. WHILE .. REPEAT, with its exit branch and its branch back |
| `CompilerProof.SimulatesLoop` | Development History (posixnap)/Ficl/ficl/vm.c:1389-1422 | rounds of DO and ?DO loops with LOOP and +LOOP, on wrapping indices, with LEAVE |
| `CompilerProof.SimulatesArms` | Development History (posixnap)/Ficl/ficl/vm.c:1321-1344 | CASE arms in order, the selected value kept until an arm takes it |
| `CompilerProof.SimulatesBody` | Development History (posixnap)/Ficl/ficl/primitives.c:808-838 | a body that falls through goes on with the next body and skips its OF |
| `CountedLoops.LoopRepeats` | Development History (posixnap)/Ficl/ficl/vm.c:1389-1422 | DO .. LOOP is its body repeated a number of times that the limit and start fix beforehand |
| `CountedLoops.TripsAreMax` | Development History (posixnap)/Ficl/ficl/vm.c:1389-1422 | that number is max(1, limit - start) if and only if the loop does not start at the largest integer with a limit other than the smallest |
| `CountedLoops.CountingLoop` | Development History (posixnap)/Ficl/ficl/vm.c:1389-1422 | a loop that counts its rounds counts just that many, modulo 2 to the 32: more than two thousand million from the largest integer to 0 |
| `CountedLoops.PlusLoopRepeats` | Development History (posixnap)/Ficl/ficl/vm.c:1389-1422 | DO .. +LOOP with a constant step, of either sign or 0, is its body repeated as often as it takes the index to get past the limit for the first time, on indices that are the step apart in 32 bits; or as long as there is fuel, if it never does |
| `CountedLoops.CountsDown` | Development History (posixnap)/Ficl/ficl/vm.c:1402-1422 | counting down by k from the limit or above it takes 1 + (start - limit) / k rounds; if the last step goes below the smallest integer, the loop goes on from the large index that this gives |
| `CountedLoops.CountsUp` | Development History (posixnap)/Ficl/ficl/vm.c:1402-1422 | counting up by k from below the limit takes (limit - start) / k rounds, rounded up; if the last step goes above the largest integer, the loop goes on from the small index that this gives |
| `CountedLoops.StartsPast` | Development History (posixnap)/Ficl/ficl/vm.c:1402-1422 | a loop that starts past its limit runs once, unless the index wraps to the other side; a step of 0 means one round or no end |
| `CountedLoops.CountingDown` | Development History (posixnap)/Ficl/ficl/vm.c:1402-1422 | limit start DO I -k +LOOP leaves exactly the indices start, start - k, and so on, down to the last that is not below the limit |
| `CountedLoops.FourDownToOne` | Development History (posixnap)/Ficl/ficl/test/core.fr:702-703 | 1 4 DO I -1 +LOOP leaves 4 3 2 1 |
| `ControlExamples.Chooses` | Development History (posixnap)/Ficl/ficl/vm.c:1285-1319 | IF takes its first branch for every number but 0, and ELSE its second for 0 |
| `ControlExamples.Selects` | Development History (posixnap)/Ficl/ficl/vm.c:1321-1345 | OF takes the arm whose number is equal, dropping both numbers, and ENDCASE drops the number that no arm took |
| `ControlExamples.FallsThrough` | Development History (posixnap)/Ficl/ficl/primitives.c:808-838 | after FALLTHROUGH the next body runs without its test |
| `ControlExamples.RepeatsWhile` | Development History (posixnap)/Ficl/ficl/primitives.c:1921-1948 | BEGIN DUP WHILE 1- REPEAT counts any number down to 0 |
| `ControlExamples.RepeatsUntil` | Development History (posixnap)/Ficl/ficl/primitives.c:1912-1919 | BEGIN 1- DUP 0= UNTIL does so from any number but 0 |
| `ControlExamples.RepeatsForEver` | Development History (posixnap)/Ficl/ficl/primitives.c:1951-1959 | BEGIN AGAIN never ends |
| `ControlExamples.LeavesAtOnce` | Development History (posixnap)/Ficl/ficl/vm.c:1430-1463 | I and J are the indices of the inner and the outer loop, and LEAVE ends the inner one at once |
| `StackEffects.PlainEffect` | Development History (posixnap)/Ficl/ficl/vm.c:595-930 | each instruction on the data stack takes and leaves the cells of its stack comment, arithmetic being modulo 2 to the 32 and flags -1 and 0, and leaves the rest of the stack alone |
| `StackEffects.PlainFaults` | Development History (posixnap)/Ficl/ficl/vm.c:595-930 | it faults exactly when the stack has fewer cells than it takes |
| `Vm.RunConcat` | Development History (posixnap)/Ficl/ficl/vm.c:1264-1463 | runs of the inner loop add up |
| `ControlWords.RollTwice` | Development History (posixnap)/Ficl/ficl/stack.c:348-380 | rolling the fourth cell up twice exchanges the two upper pairs, which WHILE uses |
| `ControlWords.Resolve` | Development History (posixnap)/Ficl/ficl/primitives.c:684-725 | after ENDCASE every collected branch leads to its target and no other cell has changed |
| `ControlWords.ResolveFixupMarks` | Development History (posixnap)/Ficl/ficl/primitives.c:684-725 | popping the collected addresses one by one resolves exactly those branches and leaves the rest of the stack |
| `ControlWords.Compiler.ResolveBackBranch` | Development History (posixnap)/Ficl/ficl/primitives.c:109-123 | the branch leads back to the marked address; a wrong tag is refused |
| `ControlWords.Compiler.ResolveForwardBranch` | Development History (posixnap)/Ficl/ficl/primitives.c:131-145 | the cell at the marked address leads to here; a wrong tag is refused |
| `ControlWords.Compiler.ResolveAbsBranch` | Development History (posixnap)/Ficl/ficl/primitives.c:152-174 | the cell at the marked address holds the address here, whatever the tag |
| `ControlWords.Compiler.IfCoIm` | Development History (posixnap)/Ficl/ficl/primitives.c:598-606 | cells and marks left by IF |
| `ControlWords.Compiler.ElseCoIm` | Development History (posixnap)/Ficl/ficl/primitives.c:623-640 | ELSE makes IF's branch lead past its own, and leaves its own open |
| `ControlWords.Compiler.EndifCoIm` | Development History (posixnap)/Ficl/ficl/primitives.c:648-653 | THEN resolves the open branch |
| `ControlWords.Compiler.UntilCoIm` | Development History (posixnap)/Ficl/ficl/primitives.c:1912-1919 | UNTIL branches back to BEGIN's mark |
| `ControlWords.Compiler.AgainCoIm` | Development History (posixnap)/Ficl/ficl/primitives.c:1951-1959 | AGAIN branches back to BEGIN's mark |
| `ControlWords.Compiler.WhileCoIm` | Development History (posixnap)/Ficl/ficl/primitives.c:1921-1936 | WHILE puts its own mark under BEGIN's |
| `ControlWords.Compiler.RepeatCoIm` | Development History (posixnap)/Ficl/ficl/primitives.c:1938-1948 | REPEAT branches back to BEGIN and makes WHILE lead past it |
| `ControlWords.Compiler.DoCoIm` | Development History (posixnap)/Ficl/ficl/primitives.c:1083-1120 | DO and ?DO leave a mark for the leave address and one for the loop |
| `ControlWords.Compiler.LoopCoIm` | Development History (posixnap)/Ficl/ficl/primitives.c:1123-1142 | LOOP and +LOOP branch back and fill in the leave address |
| `ControlWords.Compiler.OfCoIm` | Development History (posixnap)/Ficl/ficl/primitives.c:733-761 | OF opens a branch; an earlier FALLTHROUGH then leads past it |
| `ControlWords.Compiler.EndofCoIm` | Development History (posixnap)/Ficl/ficl/primitives.c:769-801 | ENDOF resolves OF and counts one more branch for ENDCASE |
| `ControlWords.Compiler.FallthroughCoIm` | Development History (posixnap)/Ficl/ficl/primitives.c:808-838 | FALLTHROUGH resolves OF and leaves a branch for the next OF |
| `ControlWords.Compiler.EndcaseCoIm` | Development History (posixnap)/Ficl/ficl/primitives.c:684-725 | ENDCASE drops the selected value and resolves as many branches as were counted |
| `Compilation.CompileNumber` | Development History (posixnap)/Ficl/ficl/primitives.c:989-1044 | a number from -16 to 16 takes one cell, any other two |
| `Compilation.Compile` | Development History (posixnap)/Ficl/ficl/primitives.c:598-838 | compiling a tree lays exactly its code, resolves every branch in it, leaves older cells alone and the data stack as it was |
| `Compilation.CompileArms` | Development History (posixnap)/Ficl/ficl/primitives.c:669-838 | the same for the arms of a CASE, with the branches that wait for ENDCASE or for the next OF |
| `Layout.LaidFrame` | Development History (posixnap)/Ficl/ficl/primitives.c:598-838 | code that is laid stays laid whatever happens outside it |
| `Layout.OneCode` | Development History (posixnap)/Ficl/ficl/primitives.c:598-838 | a tree has one code at one place |
| `Layout.CodeLaid` | Development History (posixnap)/Ficl/ficl/primitives.c:598-838 | every tree has code, at every place: its control words and branch distances lie where it says |
| `Threading.ThreadingPreserves` | Development History (posixnap)/Ficl/ficl/vm.c:146-174 | for code whose branches land on instruction starts, and runs that only fetch from them, the machine that rewrites branches on first execution ends if and only if the other one does, and in the same way, so it diverges exactly when the other does, jump cycles included |
| `Threading.OperandRuns` | Development History (posixnap)/Ficl/ficl/vm.c:146-174 | runs must stay on the starts: code whose branches land on them, but in which OF leads into the operand of a branch, returns, and faults once the branch has been rewritten |
| `Discipline.TypedThreads` | Development History (posixnap)/Ficl/ficl/vm.c:146-174 | a condition on the code alone is enough for that: every start has a loop depth, and all its successors are starts of the right depth |
| `Threading.SelfRunFollows` | Development History (posixnap)/Ficl/ficl/vm.c:1265-1319 | on runs that stay on the starts, every run of the rewriting machine is a run of the other with the same trace of states at instructions other than unconditional jumps |
| `Threading.OptimizeThreaded` | Development History (posixnap)/Ficl/ficl/vm.c:146-174 | rewriting one branch keeps the code equivalent to the original: same instructions, and each branch leads where following jumps from its first target leads |
| `Threading.ThreadingCompletes` | Development History (posixnap)/Ficl/ficl/vm.c:146-174 | in code in which no branch has run yet, after any run: what was executed has no check; a branch with a check leads where it did; and a branch without one, conditional or not, leads to the first instruction on its way that is no jump, jump cycles excepted |
| `Definitions.DefinitionThreaded` | Development History (posixnap)/Ficl/ficl/vm.c:146-174 | this holds of every compiled definition |
| `InnerLoop.Machine.OptimizeJumpToJump` | Development History (posixnap)/Ficl/ficl/vm.c:146-174 | the recursive patching in place equals its specification, and ends because each call retires one branch that still had its check |
| `InnerLoop.Machine.Turn` | Development History (posixnap)/Ficl/ficl/vm.c:1265-1319 | one turn of the inner loop in place, keeping the code threaded |
| `InnerLoop.Machine.Loop` | Development History (posixnap)/Ficl/ficl/vm.c:1264-1463 | any number of turns in place is that many steps of the rewriting machine |
| `Discipline.DefinitionTyped` | Development History (posixnap)/Ficl/ficl/primitives.c:1083-1142 | every instruction start of a compiled definition has a loop depth that all its successors agree with |
| `Discipline.RunTyped` | Development History (posixnap)/Ficl/ficl/vm.c:1346-1436 | in every run there are as many loop frames on the return stack as the depth says, each with a leave address of its own depth |
| `Discipline.DefinitionStays` | Development History (posixnap)/Ficl/ficl/vm.c:1264-1463 | so a compiled definition never executes an operand or anything outside itself before it returns |
| `Bits.BitGet` | Development History (posixnap)/Ficl/ficl/bit.c:3-10 | the bit at an index of the bytes, most significant first |
| `Bits.BitSet` | Development History (posixnap)/Ficl/ficl/bit.c:14-24 | changes exactly that bit |
| `Bits.BitGetString` | Development History (posixnap)/Ficl/ficl/bit.c:27-32 | copies a run of bits, right-aligned, and changes nothing else |
| `NetworkOrder.NetworkReverses` | Development History (posixnap)/Ficl/ficl/bit.c:39-50 | on hosts of either byte order the result in memory is the number's bytes, the most significant first |
| `NetworkOrder.NetworkOrderInMemory` | Development History (posixnap)/Ficl/ficl/bit.c:39-50 | so its bits in memory are the number's bits, most significant first |
| `NetworkOrder.NetworkOrderFromMemory` | Development History (posixnap)/Ficl/ficl/bit.c:39-50 | and memory in that order is read back as the number its bits spell |
| `LzFormat.MatchLengthIsLongest` | Development History (posixnap)/Ficl/ficl/lzcompress.c:39-50 | a traced match is equal text, and cannot be continued |
| `LzFormat.BestIsLongest` | Development History (posixnap)/Ficl/ficl/lzcompress.c:39-59 | the match chosen is as long as any useful one in the window, and no earlier one is as long |
| `LzFormat.PhraseInWindow` | Development History (posixnap)/Ficl/ficl/lzcompress.c:137-180 | every phrase stands in the window, wholly within what is already decoded, and equals the bytes it stands for |
| `LzFormat.SizeBound` | Development History (posixnap)/Ficl/ficl/lzcompress.c:119-183 | no more than nine bits are put out for each byte of input |
| `LzTokens.TokenIsLongest` | Development History (posixnap)/Ficl/ficl/lzcompress.c:39-59 | the 26 or 9 bits put out at each position: the longest repetition of 2 to 33 bytes within the last 4096 and what is searched of them, the one furthest back if there are several, as 12 bits of offset, 5 of length less 2 and the byte after it; that byte alone if and only if there is no repetition |
| `LzTokens.CompressedLayout` | Development History (posixnap)/Ficl/ficl/lzcompress.c:185-202 | the number of bits and the size of the input, the bits, and as few zeros as fill the last byte |
| `LzTokens.HeaderBytes` | Development History (posixnap)/Ficl/ficl/lzcompress.c:65-100 | the bytes of a header field, with 253 and 254 as markers for two and four bytes |
| `LzCompress.CompareWindow` | Development History (posixnap)/Ficl/ficl/lzcompress.c:10-61 | longest match, its first offset and the byte after it; 0 if there is none of two bytes or more |
| `LzCompress.EncodeHeaderField` | Development History (posixnap)/Ficl/ficl/lzcompress.c:65-100 | writes the field's bytes after what is there, and says where they end |
| `LzCompress.PutNext` | Development History (posixnap)/Ficl/ficl/lzcompress.c:132-164 | one token: its bits follow those already out, the rest of the buffer stays clear, within the allocation |
| `LzCompress.Compress` | Development History (posixnap)/Ficl/ficl/lzcompress.c:104-201 | the compressed form of every input, never writing outside 5n/4 + 10 bytes |
| `LzUncompress.DecodeHeaderField` | Development History (posixnap)/Ficl/ficl/lzuncompress.c:8-28 | the field's value as a signed number and the place after it, or that it runs past the data |
| `LzUncompress.Move` | Development History (posixnap)/Ficl/ficl/lzuncompress.c:72 | copies as if through a buffer, also when source and destination overlap |
| `LzUncompress.Uncompress` | Development History (posixnap)/Ficl/ficl/lzuncompress.c:31-94 | what the decoder makes of any bytes at all, or that it fails or leaves its buffers |
| `LzUncompress.Expand` | Development History (posixnap)/Ficl/ficl/lzuncompress.c:57-88 | the token loop, for any bits, start and end; the window starts at max(0, position - 4096) |
| `LzTokens.PhraseTaken` | Development History (posixnap)/Ficl/ficl/lzuncompress.c:57-88 | of 26 bits that start with a set bit: 12 bits count from max(0, position - 4096), 5 bits and 2 more are the length copied, and 8 are the byte after it; nothing is made of them if that leaves the buffers |
| `LzTokens.SymbolTaken` | Development History (posixnap)/Ficl/ficl/lzuncompress.c:57-88 | of nine bits that start with a clear bit: the byte that they spell |
| `LzRoundTrip.DecodeToken` | Development History (posixnap)/Ficl/ficl/lzuncompress.c:57-88 | decoding one token of the encoder takes the output from the first p bytes of the input to the first p + span |
| `LzRoundTrip.DecodeTokens` | Development History (posixnap)/Ficl/ficl/lzuncompress.c:57-88 | decoding all tokens from position p on restores the rest of the input |
| `LzRoundTrip.HeaderDecoded` | Development History (posixnap)/Ficl/ficl/lzuncompress.c:8-28 | a header field is read as written unless it is 252, and 65536 is read as 0 |
| `LzRoundTrip.RoundTrip` | Development History (posixnap)/Ficl/ficl/lzcompress.c:65-201 | uncompressing the compressed form returns the input if and only if neither its size in bytes nor its size in compressed bits is 252 or 65536 |
| `LzRoundTrip.Stream252` | Development History (posixnap)/Ficl/ficl/lzuncompress.c:15-27 | a stream of 252 bits is never decoded, whatever the input |
| `LzRoundTrip.Stream65536` | Development History (posixnap)/Ficl/ficl/lzcompress.c:78-88 | a stream of 65536 bits decodes to zeros |
| `LzRoundTrip.Size252` | Development History (posixnap)/Ficl/ficl/lzuncompress.c:15-27 | an input of 252 bytes is never decoded |
| `LzRoundTrip.Size65536` | Development History (posixnap)/Ficl/ficl/lzcompress.c:78-88 | an input of 65536 bytes decodes to the empty string if its stream has 65536 bits too, and otherwise not at all |
| `LzRoundTrip.ZerosNot65536` | Development History (posixnap)/Ficl/ficl/lzcompress.c:119-183 | no run of zeros compresses to 65536 bits |
| `LzRoundTrip.TwentyEightBytesAreLost` | Development History (posixnap)/Ficl/ficl/lzuncompress.c:15 | any twenty-eight different bytes make 252 bits and are lost |
| `DomainNameCodec.FindCompressionPointer` | Development History (posixnap)/rendezvous/mDNSPosix/DNSCommon.c:768-810 | the last place where the name matches, by the pointer loop |
| `NameRoundTrip.FoundMatches` | Development History (posixnap)/rendezvous/mDNSPosix/DNSCommon.c:768-810 | the place found matches and no later one does; nothing found means that none matches |
| `NamePlaces.StandingMatches` | Development History (posixnap)/rendezvous/mDNSPosix/DNSCommon.c:762-815 | a legal name that stands uncompressed in what is searched is matched there |
| `NamePlaces.PointedMatches` | Development History (posixnap)/rendezvous/mDNSPosix/DNSCommon.c:762-815 | so is one whose rest is matched where a pointer behind its first label leads back to |
| `NameRoundTrip.MatchSpells` | Development History (posixnap)/rendezvous/mDNSPosix/DNSCommon.c:781-806 | a match that ends within the message is read back as the name at any later time, through any chain of pointers |
| `DomainNameCodec.PutDomainNameAsLabels` | Development History (posixnap)/rendezvous/mDNSPosix/DNSCommon.c:817-868 | the message and the end of the name, or failure, by the loop that writes labels and pointers in place |
| `NameRoundTrip.PutKeeps` | Development History (posixnap)/rendezvous/mDNSPosix/DNSCommon.c:817-868 | nothing before the name is touched, whether it succeeds or not, nor, when it succeeds, anything after it |
| `NameRoundTrip.PutSize` | Development History (posixnap)/rendezvous/mDNSPosix/DNSCommon.c:817-868 | a name never takes more room than uncompressed |
| `NameRoundTrip.PutFits` | Development History (posixnap)/rendezvous/mDNSPosix/DNSCommon.c:817-868 | a legal name is put, and whole, if there is room for it uncompressed |
| `NamePlaces.StandingIsPointedTo` | Development History (posixnap)/rendezvous/mDNSPosix/DNSCommon.c:817-868 | a legal name that stands in the message is put as the two bytes of a pointer, to the place where it stands or one after that |
| `NamePlaces.SharedSize` | Development History (posixnap)/rendezvous/mDNSPosix/DNSCommon.c:817-868 | a name whose last labels stand in the message takes no more than its other labels and two bytes |
| `NamePlaces.LongIsRefused` | Development History (posixnap)/rendezvous/mDNSPosix/DNSCommon.c:817-868 | given room, a name with a label of more than 63 bytes is never put |
| `NamePlaces.LegalIsPut` | Development History (posixnap)/rendezvous/mDNSPosix/DNSCommon.c:817-868 | given room, and without compression, a name is put if and only if it is legal |
| `NameRoundTrip.PutThenGet` | Development History (posixnap)/rendezvous/mDNSPosix/DNSCommon.c:1060-1108 | a legal name that was put is read back at any later time, from any message that still has those bytes, if and only if its first match did not end on the stale byte at the place of writing and no labels were cut off for want of room; skipping it ends where the writer ended in every case |
| `NameRoundTrip.CarriedWhole` | Development History (posixnap)/rendezvous/mDNSPosix/DNSCommon.c:826-866 | the name is whole if and only if the room is not used up to the last byte with labels still to come |
| `NameRoundTrip.CarriedRead` | Development History (posixnap)/rendezvous/mDNSPosix/DNSCommon.c:1060-1108 | what is read back is exactly the labels that were put, in the truncated case too |
| `NameRoundTrip.StaleLost` | Development History (posixnap)/rendezvous/mDNSPosix/DNSCommon.c:792 | a name matched with the stale byte is never read back, unless what the match looked at has changed: its pointer leads back to itself until the name is too long |
| `NameRoundTrip.StaleExample` | Development History (posixnap)/rendezvous/mDNSPosix/DNSCommon.c:792 | one label's bytes before the place of writing and a zero byte at it are enough |
| `NameRoundTrip.CutExample` | Development History (posixnap)/rendezvous/mDNSPosix/DNSCommon.c:826-866 | in room for one label of two, the first alone is written and success reported |
| `NameRoundTrip.CutEndsAtLimit` | Development History (posixnap)/rendezvous/mDNSPosix/DNSCommon.c:826-866 | labels are lost only when the name ends exactly at the limit |
| `NameRoundTrip.LowBytesUnread` | Development History (posixnap)/rendezvous/mDNSPosix/DNSCommon.c:1060-1108 | bytes below the lowest place that reading looks at have no influence on it |
| `NameRoundTrip.PutThenGetAbove` | Development History (posixnap)/rendezvous/mDNSPosix/DNSCommon.c:1060-1108 | a name put whole is read back, unless it was stale, also when bytes have changed below the lowest place that reading looks at |
| `NameChanges.PutThenGetKept` | Development History (posixnap)/rendezvous/mDNSPosix/DNSCommon.c:1060-1108 | if nothing has changed of what the match looked at, a legal name that was put is read back if and only if it was neither stale nor cut |
| `NameChanges.PutThenGetChanged` | Development History (posixnap)/rendezvous/mDNSPosix/DNSCommon.c:1060-1108 | in general, when anything but its own bytes may have changed, it is read back if and only if it was not cut and what its pointer leads to survives |
| `NameChanges.SurvivesRead` | Development History (posixnap)/rendezvous/mDNSPosix/DNSCommon.c:1060-1108 | where a name was matched, it is read in a changed message if and only if each label on the way is as it was, and what follows it is too or spells the rest of the name now |
| `NameRoundTrip.SkipPut` | Development History (posixnap)/rendezvous/mDNSPosix/DNSCommon.c:1031-1057 | skipping what was put ends where the writer ended |
| `DomainNameCodec.GetDomainName` | Development History (posixnap)/rendezvous/mDNSPosix/DNSCommon.c:1060-1108 | on every buffer, circular pointers included, the loop ends; it fills in exactly the name that reading spells, and returns the place that skipping returns |
| `NameRoundTrip.AcceptedIsLegal` | Development History (posixnap)/rendezvous/mDNSPosix/DNSCommon.c:1060-1108 | whatever the bytes, an accepted name has labels of 1 to 63 bytes and at most 255 bytes |
| `NamePlaces.StandingIsRead` | Development History (posixnap)/rendezvous/mDNSPosix/DNSCommon.c:1060-1108 | every legal name is read where it stands |
| `NamePlaces.PointerIsRead` | Development History (posixnap)/rendezvous/mDNSPosix/DNSCommon.c:1060-1108 | so are labels and then a pointer to any place in the message, before or after it, where the rest of the name is read |
| `NameSyntax.EncodedIsLegal` | Development History (posixnap)/rendezvous/mDNSPosix/DNSCommon.c:228-245 | labels of 1 to 63 bytes that take no more than 254 with their lengths make a legal name |
| `NameSyntax.LegalIsEncoded` | Development History (posixnap)/rendezvous/mDNSPosix/DNSCommon.c:228-245 | and every legal name is made so |
| `NameRoundTrip.SkipAgrees` | Development History (posixnap)/rendezvous/mDNSPosix/DNSCommon.c:1031-1057 | a name that can be read can be skipped |
| `DomainNameCodec.SkipDomainName` | Development History (posixnap)/rendezvous/mDNSPosix/DNSCommon.c:1031-1057 | the place after a name, by the loop |
| `MessageCodec.PutQuestionIn` | Development History (posixnap)/rendezvous/mDNSPosix/DNSCommon.c:982-992 | the message after a question, its count in the header one higher, or failure |
| `MessageCodec.PutRDataIn` | Development History (posixnap)/rendezvous/mDNSPosix/DNSCommon.c:870-917 | the message after the data of a record of each type, or failure |
| `MessageCodec.PutResourceRecordTTL` | Development History (posixnap)/rendezvous/mDNSPosix/DNSCommon.c:919-957 | the message after a record, its length filled in and its count one higher; an unregistered record changes nothing |
| `MessageRoom.RecordFits` | Development History (posixnap)/rendezvous/mDNSPosix/DNSCommon.c:870-957 | a record with legal names that has room uncompressed is put if and only if it is no address of the wrong size: 4 bytes for A, 16 for AAAA |
| `MessageRoom.PlainRecordFits` | Development History (posixnap)/rendezvous/mDNSPosix/DNSCommon.c:870-957 | a record with no name in its data is put if and only if that is so and its data ends at the limit or before it |
| `MessageRoom.ReplyFits` | Development History (posixnap)/rendezvous/mDNSPosix/DNSCommon.c:919-957 | with room up to 8952 bytes, or 1452 if a record is counted in any section, the call succeeds and the count of answers, and nothing else in the header, goes up; an address of the wrong size does not move the place to go on, and an unregistered record changes nothing |
| `MessageRoom.ReplyWithin` | Development History (posixnap)/rendezvous/mDNSPosix/DNSCommon.c:919-957 | no record gets further than that |
| `MessageRoom.QuestionFits` | Development History (posixnap)/rendezvous/mDNSPosix/DNSCommon.c:982-992 | a question with a legal name is put if more than four bytes are left after the name uncompressed |
| `MessageRoom.AskFits` | Development History (posixnap)/rendezvous/mDNSPosix/DNSCommon.c:982-992 | and the count of questions, and nothing else in the header, goes up |
| `MessageRoom.QuestionLaid` | Development History (posixnap)/rendezvous/mDNSPosix/DNSCommon.c:982-992 | its type and class stand at its end, high bytes first |
| `Sections.QuestionPut` | Development History (posixnap)/rendezvous/mDNSPosix/DNSCommon.c:982-992 | a question that was put is skipped to its end, and nothing before it has changed |
| `Sections.RecordPut` | Development History (posixnap)/rendezvous/mDNSPosix/DNSCommon.c:919-957 | the same for a record, by way of the length filled in |
| `Sections.RecordLaid` | Development History (posixnap)/rendezvous/mDNSPosix/DNSCommon.c:870-957 | type, class, time to live, the length of the data, and the data of each type stand where section 4.1.3 of RFC 1035 puts them, with the values given |
| `Sections.LargeIsAlone` | Development History (posixnap)/rendezvous/mDNSPosix/DNSCommon.c:922-927 | however many answers are put into a message of at most 12 + 1440 bytes without any, it gets larger than that only if a single answer is in it |
| `Sections.AskKeeps` | Development History (posixnap)/rendezvous/mDNSPosix/DNSCommon.c:982-992 | every call of putQuestion, failed or not, keeps the questions counted in the header findable |
| `Sections.ReplyKeeps` | Development History (posixnap)/rendezvous/mDNSPosix/DNSCommon.c:919-957 | every call of PutResourceRecordTTL, failed or not, keeps questions and answers findable |
| `Sections.SectionsFound` | Development History (posixnap)/rendezvous/mDNSPosix/DNSCommon.c:1258-1272 | after any number of calls for questions and then for answers, with and without room, the answers are found at the end of the last question put and the authorities at the end of the last answer put, now and when more is written after them |
| `Sections.QuestionNameWhole` | Development History (posixnap)/rendezvous/mDNSPosix/DNSCommon.c:982-986 | the name of a question that was put has all its labels, as room for four bytes and more is left after it |
| `Sections.RecordNameWhole` | Development History (posixnap)/rendezvous/mDNSPosix/DNSCommon.c:936-937 | so has the name of a record |
| `Sections.QuestionRead` | Development History (posixnap)/rendezvous/mDNSPosix/DNSCommon.c:1244-1256 | a question that was put is read back with its name, type, class and end, if nothing changed of what the search looked at, or if reading does not get into the header, where the counts change, if and only if it was not stale; in general if and only if the place that its pointer leads to survives |
| `Sections.HeaderExample` | Development History (posixnap)/rendezvous/mDNSPosix/DNSCommon.c:982-992 | the first question of a message, put by a caller who starts from a header with an id that ends in 3 and all else zero: its name is found in the header, the count goes up, and another name is read back |
| `Sections.QuestionOfRunRead` | Development History (posixnap)/rendezvous/mDNSPosix/DNSCommon.c:1244-1256 | the same at the end of any run of further questions and answers |
| `RecordNames.RecordNameRead` | Development History (posixnap)/rendezvous/mDNSPosix/DNSCommon.c:919-957 | the name of a record, if nothing changed of what the search looked at, is read back if and only if it was not stale; in general if and only if the place that its pointer leads to survives |
| `RecordNames.DataNameRead` | Development History (posixnap)/rendezvous/mDNSPosix/DNSCommon.c:870-957 | the name in the data of a PTR, CNAME or SRV record is searched for while the length of the data is not filled in; if the match does not run over the length, it is read back if and only if it was neither stale nor cut; in general if and only if it was not cut and the place that its pointer leads to survives |
| `RecordExamples.DataCut` | Development History (posixnap)/rendezvous/mDNSPosix/DNSCommon.c:870-957 | such a name with a label lost: put fourteen bytes below the limit that the code takes, at 1438 once a record is counted and at 8938 before; success is reported |
| `RecordExamples.DataStale` | Development History (posixnap)/rendezvous/mDNSPosix/DNSCommon.c:870-957 | such a name matched with a stale byte, at any place in a message where it fits below the limit that the code takes: a port that spells the target |
| `RecordExamples.DataOverLength` | Development History (posixnap)/rendezvous/mDNSPosix/DNSCommon.c:870-957 | such a name matched over the length, neither stale nor cut, and not read back, at any place where it fits below that limit |
| `MessageCodec.GetQuestionIn` | Development History (posixnap)/rendezvous/mDNSPosix/DNSCommon.c:1244-1256 | the question at a place, its name filled in, or failure |
| `MessageCodec.SkipResourceRecord` | Development History (posixnap)/rendezvous/mDNSPosix/DNSCommon.c:1110-1123 | the place after a record, or failure |
| `MessageCodec.SkipQuestionIn` | Development History (posixnap)/rendezvous/mDNSPosix/DNSCommon.c:1236-1242 | the place after a question, or failure |
| `MessageCodec.LocateAnswers` | Development History (posixnap)/rendezvous/mDNSPosix/DNSCommon.c:1258-1264 | skips as many questions as the header counts |
| `MessageCodec.LocateAuthorities` | Development History (posixnap)/rendezvous/mDNSPosix/DNSCommon.c:1266-1272 | then as many answers as the header counts |
| `Doubles.Negate` | Development History (posixnap)/Ficl/ficl/double.c:91-100 | the two's complement negative of 64 bits |
| `Doubles.DecrementIsWrong` | Development History (posixnap)/Ficl/ficl/double.c:156-163 | the low cell is always right, and the whole is right if and only if the low cell is neither 0 nor the high bit |
| `Doubles.Carry` | Development History (posixnap)/Ficl/ficl/double.c:175-176 | the carry found from high bits is the true carry |
| `Doubles.Add` | Development History (posixnap)/Ficl/ficl/double.c:166-184 | 64-bit sum |
| `Doubles.Subtract` | Development History (posixnap)/Ficl/ficl/double.c:217-230 | 64-bit difference |
| `Doubles.ShiftLeft` | Development History (posixnap)/Ficl/ficl/double.c:237-250 | 64-bit doubling |
| `Doubles.ShiftRight` | Development History (posixnap)/Ficl/ficl/double.c:257-269 | 64-bit halving |
| `Doubles.Compare` | Development History (posixnap)/Ficl/ficl/double.c:291-306 | order of the 64-bit values |
| `Doubles.OrDoubleNewBit` | Development History (posixnap)/Ficl/ficl/double.c:276-284 | or with a bit below all others adds it |
| `DoubleMath.Multiply` | Development History (posixnap)/Ficl/ficl/double.c:191-209 | the exact 64-bit product of any two cells |
| `DoubleMath.MultiplySigned` | Development History (posixnap)/Ficl/ficl/double.c:130-152 | the exact signed product of any two cells |
| `DoubleMath.MultiplyAccumulate` | Development History (posixnap)/Ficl/ficl/double.c:110-123 | u * mul + add modulo 2 to the 64 |
| `DoubleMath.Divide` | Development History (posixnap)/Ficl/ficl/double.c:316-353 | q = quotient * y + remainder with remainder below y, for every double and every divisor other than 0; the loops end and nothing overflows |
| `DoubleMath.DivisionByZero` | Development History (posixnap)/Ficl/ficl/double.c:331-336 | by 0 the first loop goes on for ever if and only if the dividend is not 0 |
| `SignedDivision.DivideSymmetric` | Development History (posixnap)/Ficl/ficl/double.c:446-475 | remainder of the truncated quotient always; the quotient is the truncated one if and only if it is not the most negative double over -1 |
| `SignedDivision.TruncatedIsSymmetric` | Development History (posixnap)/Ficl/ficl/double.c:439-445 | truncation is the only division whose remainder has the sign of the dividend |
| `SignedDivision.DivideFloored` | Development History (posixnap)/Ficl/ficl/double.c:399-435 | remainder of the floored quotient and its low cell always; the whole quotient if and only if it does not overflow and the faulty borrow does not strike |
| `SignedDivision.FloorIsFloored` | Development History (posixnap)/Ficl/ficl/double.c:372-381 | flooring is the only division whose remainder has the sign of the divisor |
| `SignedDivision.TinyDividendsMisborrow` | Development History (posixnap)/Ficl/ficl/double.c:156-163 | every quotient between -1 and 0 is floored to the wrong double |
| `Numerals.StringReverse` | Development History (posixnap)/Ficl/ficl/utility.c:24-43 | reverses in place up to the NUL character |
| `Numerals.DigitRoundTrip` | Development History (posixnap)/Ficl/ficl/utility.c:50-55 | a digit's character is read as the digit, in every base |
| `Numerals.NoLeadingZero` | Development History (posixnap)/Ficl/ficl/primitives.c:1665-1686 | no zero stands in front of other digits |
| `Numerals.ReverseBackward` | Development History (posixnap)/Ficl/ficl/primitives.c:1665-1686 | the digits in the order in which they are computed, turned round, are the number |
| `PicturedNumbers.Pad.NumberSign` | Development History (posixnap)/Ficl/ficl/primitives.c:1621-1634 | puts the last digit and leaves the quotient |
| `PicturedNumbers.Pad.NumberSignS` | Development History (posixnap)/Ficl/ficl/primitives.c:1665-1686 | puts all digits of any double, at least one, and leaves zero |
| `PicturedNumbers.Pad.NumberSignGreater` | Development History (posixnap)/Ficl/ficl/primitives.c:1643-1656 | turns the picture round and returns its length |
| `PicturedNumbers.Pad.Sign` | Development History (posixnap)/Ficl/ficl/primitives.c:1712-1725 | puts a minus sign in front of negative numbers only |
| `PicturedNumbers.ToNumberIn` | Development History (posixnap)/Ficl/ficl/primitives.c:1741-1780 | digits are appended modulo 2 to the 64 until a character is none, and the rest is counted |
| `PicturedNumbers.NumeralIsRead` | Development History (posixnap)/Ficl/ficl/primitives.c:1741-1780 | the numeral of any double is read back as it, with nothing left over, in bases 2 to 36 |
| `PicturedNumbers.PrintAndRead` | Development History (posixnap)/Ficl/ficl/primitives.c:1606-1686 | <# #S #> and then >NUMBER from zero return the same double |
| `PicturedNumbers.TakenCharacters` | Development History (posixnap)/Ficl/ficl/primitives.c:1764-1776 | a character is converted if and only if it is a digit of the base, of either case, or stands from [ to the back quote and is low enough for the base; a digit is converted to what it is worth |
| `PicturedNumbers.StopsRight` | Development History (posixnap)/Ficl/ficl/primitives.c:1741-1780 | of any text, the digits in front are converted to the number they spell, and the rest is counted, if and only if the first character that is no digit is not one of those |
| `PicturedNumbers.BracketIsFour` | Development History (posixnap)/Ficl/ficl/primitives.c:1764-1776 | in base 8 an opening bracket is converted as 4 |
| `NumberText.AndMask` | Development History (posixnap)/Ficl/ficl/utility.c:101-107 | masking is the remainder by a power of two |
| `NumberText.IsPowerOfTwo` | Development History (posixnap)/Ficl/ficl/utility.c:63-75 | the exponent if and only if the number is a power of two above 1 |
| `NumberText.ShiftOut` | Development History (posixnap)/Ficl/ficl/utility.c:99-108 | masking and shifting writes the digits that division writes |
| `NumberText.DivideOut` | Development History (posixnap)/Ficl/ficl/utility.c:109-120 | the digits by double-cell division |
| `NumberText.Ltoa` | Development History (posixnap)/Ficl/ficl/utility.c:82-128 | sign and digits in base ten, the bits of the cell in any other base |
| `NumberText.Ultoa` | Development History (posixnap)/Ficl/ficl/utility.c:135-161 | digits of the unsigned cell |
| `NumberText.PrintedIsParsed` | Development History (posixnap)/Ficl/ficl/vm.c:2867-2933 | every cell printed by either printer is parsed back in the same base, the most negative one included |
| `NumberText.NumeralIsParsed` | Development History (posixnap)/Ficl/ficl/vm.c:2867-2933 | so is every unsigned cell |
| `NumberText.ParseNumber` | Development History (posixnap)/Ficl/ficl/vm.c:2867-2933 | sign, trailing point and digits of a word, or that it is no number |
| `WordSyntax.WordIsNumber` | Development History (posixnap)/Ficl/ficl/vm.c:2867-2933 | a sign or none, digits of the base and a point or none are a number: what the digits spell with that sign, modulo 2 to the 32, and a double if there is a point |
| `WordSyntax.NumberIsWritten` | Development History (posixnap)/Ficl/ficl/vm.c:2867-2933 | and no other word is one |
| `WordSyntax.PrintedIsRight` | Development History (posixnap)/Ficl/ficl/utility.c:82-161 | what is printed in base ten spells the signed number, and in any other base the unsigned one, without any wrap-around |
| `HashChains.SameNameSameHash` | Development History (posixnap)/Ficl/ficl/hash.c:46-69 | names that differ in case only have the same hash code |
| `HashChains.HashesOfWords` | Development History (posixnap)/Ficl/ficl/hash.c:46-69 | the codes of two words |
| `HashChains.FirstBeside` | Development History (posixnap)/Ficl/ficl/hash.c:110-138 | of any name, searching one bucket finds the word that scanning the whole wordlist finds if that is in the bucket, and otherwise nothing or another word of the bucket |
| `HashChains.FirstInBucket` | Development History (posixnap)/Ficl/ficl/hash.c:110-138 | of a name that is kept whole, that is up to 31 characters, searching one bucket finds the word that scanning the whole wordlist finds |
| `HashChains.FirstIsNewest` | Development History (posixnap)/Ficl/ficl/hash.c:110-138 | which is the newest word of that name |
| `HashChains.InsertRepresents` | Development History (posixnap)/Ficl/ficl/hash.c:79-98 | linking a word in front of its bucket puts it in front of the list |
| `HashChains.KeepRepresents` | Development History (posixnap)/Ficl/ficl/hash.c:14-35 | buckets cut at the first word kept hold exactly the words below the address |
| `HashChains.KeepHas` | Development History (posixnap)/Ficl/ficl/hash.c:14-35 | a word is kept if and only if it was there and is below the address |
| `HashChains.ForgetUndoes` | Development History (posixnap)/Ficl/ficl/tools.c:710-722 | forgetting the first of some definitions brings back the wordlist from before them |
| `Dictionary.Strincmp` | Development History (posixnap)/Ficl/ficl/utility.c:188-201 | 0 if and only if the strings are equal up to case, up to a NUL character |
| `Dictionary.ComputeHash` | Development History (posixnap)/Ficl/ficl/hash.c:46-69 | the hash code by its loop |
| `Dictionary.Dictionary.HashInsertWord` | Development History (posixnap)/Ficl/ficl/hash.c:79-98 | the word is the newest of its wordlist; all wordlists stay well linked |
| `Dictionary.Dictionary.HashLookup` | Development History (posixnap)/Ficl/ficl/hash.c:110-138 | the newest word of the name in its bucket of the wordlist, else of its parents; up to 31 characters that is the newest in the wordlist, else in its parents, for any bucket counts |
| `Dictionary.Dictionary.Lookup` | Development History (posixnap)/Ficl/ficl/dictionary.c:605-624 | from the top of the search order, the first wordlist that has the name decides, for up to 31 characters; a longer name, of which 31 are compared, is found as by scanning if and only if the scan finds nothing or its word is in the bucket of the name |
| `Dictionary.Dictionary.TopmostDecides` | Development History (posixnap)/Ficl/ficl/dictionary.c:605-624 | the wordlist nearest to the top of the search order that has the name decides; there is nothing only if none has it |
| `Dictionary.Dictionary.NearestDecides` | Development History (posixnap)/Ficl/ficl/hash.c:110-138 | within one wordlist and its ancestors, the nearest that has the name decides |
| `DictionaryExamples.LongNames` | Development History (posixnap)/Ficl/ficl/hash.c:110-138 | two names that differ in their 32nd character, in two buckets: the older word is found, not the newer one that scanning finds |
| `Dictionary.Dictionary.CreateWordlist` | Development History (posixnap)/Ficl/ficl/dictionary.c:472-484 | a new, empty wordlist above all that is there |
| `Dictionary.Dictionary.SetCurrent` | Development History (posixnap)/Ficl/ficl/search.c:168-176 | the wordlist that gets the next definitions |
| `Dictionary.Dictionary.SearchPush` | Development History (posixnap)/Ficl/ficl/search.c:278-290 | a wordlist on top of the search order |
| `Dictionary.Dictionary.SearchPop` | Development History (posixnap)/Ficl/ficl/search.c:256-271 | takes the top wordlist off the search order, if there is one |
| `Dictionary.Dictionary.SetParent` | Development History (posixnap)/Ficl/ficl/search.c:338-350 | links a wordlist to a parent |
| `Dictionary.Dictionary.AppendWord` | Development History (posixnap)/Ficl/ficl/dictionary.c:323-357 | the new word is above all others and is linked unless it is to stay smudged or has no name |
| `Dictionary.Dictionary.Unsmudge` | Development History (posixnap)/Ficl/ficl/dictionary.c:824-838 | the open definition becomes the newest word; one without a name is not linked |
| `Dictionary.Dictionary.AbortDefinition` | Development History (posixnap)/Ficl/ficl/dictionary.c:75-86 | memory is given back to the name of the open definition, and only then; a second time it does nothing more |
| `Dictionary.Dictionary.HashForget` | Development History (posixnap)/Ficl/ficl/hash.c:14-35 | exactly the words below the address stay, in order, although each chain is left at the first word kept |
| `Dictionary.Dictionary.Forget` | Development History (posixnap)/Ficl/ficl/tools.c:710-722 | the compilation wordlist loses the word and all newer ones; the dictionary stays sound if and only if no other wordlist has a word in the memory given back, and none stands there itself |
| `DictionaryExamples.ForgetBelow` | Development History (posixnap)/Ficl/ficl/tools.c:710-722 | a word in one wordlist and a later one in another: the former forgotten, the latter stays linked above the end of the dictionary |
| `NameTextCodec.ConvertDomainNameToCString` | Development History (posixnap)/rendezvous/mDNSPosix/DNSCommon.c:428-445 | fails if and only if the name is not legal, and otherwise writes its text within 1005 bytes |
| `NameTextCodec.AppendDNSNameString` | Development History (posixnap)/rendezvous/mDNSPosix/DNSCommon.c:299-333 | the name that any text without NUL characters spells, in its buffer, or failure |
| `NameSyntax.AnyTextIsRead` | Development History (posixnap)/rendezvous/mDNSPosix/DNSCommon.c:299-333 | of any text: the labels between its unescaped dots, with or without a dot at the end, each character standing for itself or as its escape says; it fails exactly when a label has more than 63 bytes or the name does not fit, unless it is one unescaped character too long for a name that is full without it, which is then taken without that character |
| `NameText.LastCharacterLost` | Development History (posixnap)/rendezvous/mDNSPosix/DNSCommon.c:324 | so the text of every name of 255 bytes is accepted with one more character, which is lost |
| `NameText.TextWithoutDotIsRead` | Development History (posixnap)/rendezvous/mDNSPosix/DNSCommon.c:324-332 | the text of every legal name but the root is parsed as that name without its last dot too |
| `NameText.DecimalIsRead` | Development History (posixnap)/rendezvous/mDNSPosix/DNSCommon.c:311-319 | three digits after a backslash are read as the byte that they spell, up to 255, and as themselves above |
| `NameText.PlainIsItself` | Development History (posixnap)/rendezvous/mDNSPosix/DNSCommon.c:400-425 | what is printed has no spaces and control characters, and bytes that need no escape are printed as they are |
| `NameText.TextIsRead` | Development History (posixnap)/rendezvous/mDNSPosix/DNSCommon.c:299-333 | the text of every legal name, whatever its bytes, is parsed as that name |
| `NameText.EscapedIsRead` | Development History (posixnap)/rendezvous/mDNSPosix/DNSCommon.c:400-425 | every byte's escape is read as that byte, whatever follows |
| `NameText.TextFits` | Development History (posixnap)/rendezvous/mDNSPosix/include/mDNSClientAPI.h:714-726 | text and NUL character of a legal name never exceed 1005 bytes |
| `LabelSuffixCodec.LabelContainsSuffix` | Development History (posixnap)/rendezvous/mDNSPosix/DNSCommon.c:577-598 | whether the label ends in a suffix, by the loop over its buffer |
| `LabelSuffixCodec.RemoveLabelSuffix` | Development History (posixnap)/rendezvous/mDNSPosix/DNSCommon.c:603-625 | shortens the label in place and returns the number modulo 2 to the 32 |
| `LabelSuffixCodec.AppendLabelSuffix` | Development History (posixnap)/rendezvous/mDNSPosix/DNSCommon.c:629-658 | makes room without cutting a UTF-8 character, and appends the number, for all numbers for which it ends |
| `LabelSuffixCodec.IncrementLabelSuffix` | Development History (posixnap)/rendezvous/mDNSPosix/DNSCommon.c:660-679 | the renaming in place |
| `LabelSuffix.CutAt` | Development History (posixnap)/rendezvous/mDNSPosix/DNSCommon.c:643-649 | as little as possible is cut off, and never part of a UTF-8 character |
| `SuffixNumbers.NeverEnds` | Development History (posixnap)/rendezvous/mDNSPosix/DNSCommon.c:637 | the loop that looks for the divisor goes on for ever if and only if the number is at least 4135583744, the largest power of ten modulo 2 to the 32 |
| `SuffixNumbers.WrittenRight` | Development History (posixnap)/rendezvous/mDNSPosix/DNSCommon.c:637-655 | the digits written are those of the number if and only if it is below 1410065408, ten to the power of 10 modulo 2 to the 32 |
| `LabelSuffix.NumberKept` | Development History (posixnap)/rendezvous/mDNSPosix/DNSCommon.c:603-658 | the number is read back if and only if it is below that, for every label |
| `LabelSuffix.Appended` | Development History (posixnap)/rendezvous/mDNSPosix/DNSCommon.c:577-658 | below that, what was appended is recognised with its number and removed again, but a host label that is a bare suffix of two digits or more is not recognised |
| `LabelSuffix.Incremented` | Development History (posixnap)/rendezvous/mDNSPosix/DNSCommon.c:660-679 | the new label carries the next number, with exactly that exception |
| `SuffixTexts.Recognised` | Development History (posixnap)/rendezvous/mDNSPosix/DNSCommon.c:577-598 | a service label has a suffix if and only if it ends in a space, a parenthesis, digits and a parenthesis; a host label if and only if it ends in a dash and digits, with something in front of them or a single digit |
| `SuffixTexts.AppendedText` | Development History (posixnap)/rendezvous/mDNSPosix/DNSCommon.c:629-658 | given room, the suffix comes after the unchanged label, unless that is a service label with spaces at its end, which are dropped (`LabelSuffix.WithoutSpaces`) |
| `SuffixTexts.FirstRenaming` | Development History (posixnap)/rendezvous/mDNSPosix/DNSCommon.c:660-679 | a label without a suffix is renamed with a 2, as in name (2) and name-2 |
| `SuffixTexts.NextRenaming` | Development History (posixnap)/rendezvous/mDNSPosix/DNSCommon.c:660-679 | one with a suffix keeps its stem and gets the next number: one more up to 10, and 1 to 100 more from there |
| `LabelRuns.NeverRepeats` | Development History (posixnap)/rendezvous/mDNSPosix/DNSCommon.c:660-679 | in every run of renamings, from any label at all, no label comes back, and none is over 63 bytes, as long as the numbers stay below that |
| `LabelRuns.ComesBack` | Development History (posixnap)/rendezvous/mDNSPosix/DNSCommon.c:660-679 | beyond it they do come back: a run of small steps from any host name with the number 1159829641 gets there again |
| `LabelRuns.GrowsAlways` | Development History (posixnap)/rendezvous/mDNSPosix/DNSCommon.c:660-679 | the number grows in every run from a label if and only if something of it is always left in front of the suffix |
| `LabelRuns.AsciiLasts` | Development History (posixnap)/rendezvous/mDNSPosix/DNSCommon.c:577-658 | which of the ASCII host labels are those: all but the empty one and a dash with one digit |
| `LabelRuns.DashNine` | Development History (posixnap)/rendezvous/mDNSPosix/DNSCommon.c:577-658 | -9 is renamed to -10, which has no number |
| `NameHash.SameIsFolded` | Development History (posixnap)/rendezvous/mDNSPosix/DNSCommon.c:190-206 | two legal names are the same if and only if their bytes are equal up to case |
| `NameHash.HashIsFolded` | Development History (posixnap)/rendezvous/mDNSPosix/DNSCommon.c:1000-1013 | the hash does not depend on case, zero bytes inside labels included |
| `NameHash.HashesOfNames` | Development History (posixnap)/rendezvous/mDNSPosix/DNSCommon.c:1000-1013 | what a pair of bytes and a last single byte make of a sum |
| `NameHash.HashLosesNothing` | Development History (posixnap)/rendezvous/mDNSPosix/DNSCommon.c:720-730 | comparing hashes first gives the same answer as comparing names |
| `NameHash.SameDomainName` | Development History (posixnap)/rendezvous/mDNSPosix/DNSCommon.c:190-206 | the comparison by its loop |
| `NameHash.SameDomainLabel` | Development History (posixnap)/rendezvous/mDNSPosix/DNSCommon.c:170-188 | one label by its loop |
| `NameHash.DomainNameHashValue` | Development History (posixnap)/rendezvous/mDNSPosix/DNSCommon.c:1000-1013 | the hash by its loop |

## Left out

- CompiledMeans: trees have no calls of other colon definitions, EXIT, UNLOOP, locals or return-stack words; the instructions between control words are those that work on the data stack and the loop indices, as other instructions would add only easy cases.
- Vm: the sizes of the data and return stacks are not limited, reading below the bottom of a stack is a fault, and so is fetching outside the dictionary; exceptions and their unwinding are not modelled.
- Control words outside proper nesting: only their refusal of wrong tags is modelled, since `resolveAbsBranch` only warns (`primitives.c:163-168`).
- CompileAndRun: the outer interpreter, name parsing and `:` and `;` themselves are not modelled; a definition is its tree and the final `(;)`.
- RoundTrip: `unsigned long` has four bytes, memory is not exhausted, and inputs are small enough that bit positions fit into a C int; a read or write outside the buffers, which C does not define, counts as failure.
- Divide: the divisor is not 0, for which the loop need not end (`DoubleMath.DivisionByZero`).
- DivideFloored: signed overflow of a C long, as in the negative of the smallest cell, wraps around.
- AppendLabelSuffix: numbers are below 4135583744; with a larger one it does not return (`SuffixNumbers.NeverEnds`).
- Lookup: names have no NUL character.
- Unsmudge: the open definition is still smudged and above all linked words.
- SearchPush: the search order has fewer than 16 wordlists; a seventeenth, which the test in `search.c:283` lets through, is written past the end of the array and is not modelled.
- SetParent: parent links lead to older wordlists, so that the search ends; wordlists are not forgotten themselves.
- NumberSignS: base 2 to 36 and room in the pad, which the C code does not check.
- AppendDNSNameString: the place where the name so far ends is a parameter; DomainNameLength, which finds it, is not modelled.
- PutRDataIn: type and data are as the caller gives them.
- SectionsFound: authorities and additionals are not put after the answers; they would repeat the argument for answers.
- GetResourceRecord, which adds field by field copying to getDomainName; SameRData and the length estimates.
- IncrementLabelSuffix: the random step, from 0 to 99, is a parameter.
- Float words, files, the debugger, SEE, CATCH and THROW, text output, packet sending, platform calls and user interfaces.
