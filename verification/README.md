# Verified models of the recovered standard library, the file queue and the tools

Dafny models of the parts of the decompilation repository whose code carries real
algorithms, with proofs of what they promise.

- **The file-server queue** (`CircularBuffer`, `ProducerConsumer`): the bounded ring,
  and the producer/consumer queue as a state machine with one step per statement, any
  number of threads, one mutex and one condition. `wait` gives the mutex up and sleeps
  in one step; `signal` wakes at least one sleeper if there is one; a sleeper may also
  wake without a signal.
- **The recovered Metrowerks library** (`RawStorage`, `GrowthPolicy`, `NonPodVector`,
  `PodVector`, `HeapAlgorithms`, `PriorityQueue`, `BasicString`): storage in which a
  cell can be constructed only while empty and read, assigned or destroyed only while
  it holds an object; vectors whose inserted value may be one of their own elements; heap
  algorithms for any strict weak order; the string.
- **The report splitter** (`ReportSplitter`, `ReportReading`, `CommentBound`): the greedy packing
  of tables into comments, its agreement with the unsplit report, what a reader of the texts
  finds in them, and how long comments can get.
- **The assembly tools** (`AsmReader`, `AsmBlock`): reading retail assembly, slicing text
  blocks, printing them as macros with labels.
- **The Ninja writer** (`NinjaWriter`, `NinjaLayouts`): wrapping, and reading back by Ninja's
  rule. A layout is the width and the indentations of the first line and of continuations;
  `_line` always puts continuations four further in, while the loop inside it works for any
  two; `NinjaLayouts` has exact conditions for both, and those for the loop suffice for `_line`.
- **The include flattener** (`IncludeFlattener`, `IncludeContents`),
  **the string-pool printer** (`StringPool`) with a model of how a C compiler reads
  literals, and **the ELF relocation loop** (`Relocation`).
- **The Newton roots** (`NewtonRoots`) in exact reals.

`dafny verify dfyconfig.toml` checks everything.

Where code and promise differ, the model follows the code and a lemma says exactly when
the promise holds:

- `circular_buffer::resize` leaves `count` alone, and the constructor does not set it
  (`CircularBuffer.ResizeValidIff`), so a resize keeps the queue only under a condition
  (`CircularBuffer.ResizeKeepsIff`; `CircularBuffer.ResizeLosesOrder` is a ring that loses it).
- `basic_string::reserve` writes no terminator on a string without storage
  (`BasicString.BasicString.Reserve`).
- The part marker is appended after the size check, so a comment can exceed the limit
  passed in (`ReportSplitter.MarkerExceedsLimit`); which bounds do hold is `CommentBound.BoundIff`,
  and the tool's own limit leaves room (`ReportSplitter.CommentsFitGitHub`).
- `_count_dollars_before_index` never looks at the first character
  (`NinjaWriter.CountIsRightIff`), so a line can exceed the width although it has an
  unescaped space (`NinjaWriter.LinesUnbrokenIff`, `NinjaLayouts.LineAlwaysCutIff`,
  `NinjaWriter.HiddenBreakNotTaken`).
- `_line` passes over a break that would fill the line exactly although it says it takes the
  rightmost that fits (`NinjaWriter.ExactFitIff`, `NinjaWriter.ExactFitPassedOver`).
- Indentation that leaves no room for a break turns the search bound negative, and a line that
  is too long may then hold breaks (`NinjaWriter.KeptIff`, `NinjaWriter.NoRoomBreaksLate`).
- Text ending inside an escape, or broken in front of a space, is not read back
  (`NinjaWriter.LineReadIff`, `NinjaLayouts.LineAlwaysReadIff`; `NinjaWriter.OpenEscapeLost` and
  `NinjaWriter.SpaceLost` are such texts).
- The growth loop of `change_size` can wrap and ask for an empty block for lengths beyond half
  the address space (`BasicString.GrowCapacity`, `BasicString.LongMayNotGrow`).
- `block_sequence` accepts parameters called like a quantization register, which its second
  substitution turns into a number, or like another word of the block, which the preprocessor
  then replaces too; when the macro still is the block is `AsmBlock.MacroCodeIff`
  (`AsmBlock.GqrParameterLost` and `AsmBlock.RegisterTakenTwice` are such operands).
- A local target in a macro is renamed with its own spelling while labels are printed in
  upper case, and targets outside plain branches are not range-checked
  (`AsmBlock.TargetResolvesIff`, `AsmBlock.LowerCaseUnresolved`).

## Model

| member | source | states |
|---|---|---|
| CircularBuffer.PushAppends | include/mw/mwFileQueue.h:59-69 | push keeps tail == (head + count) mod N and count <= N, appends the value as long as there is a free slot, and changes nothing when there is none |
| CircularBuffer.PopRemovesFront | include/mw/mwFileQueue.h:71-83 | front is the oldest value and pop removes exactly that one, keeping the ring consistent |
| CircularBuffer.ResizeValidIff | include/mw/mwFileQueue.h:33-38 | resize does not reset count: the ring is consistent afterwards if and only if count was 0 or equals the new size |
| CircularBuffer.ResizeKeepsIff | include/mw/mwFileQueue.h:33-38 | resize keeps the queued values in order, on a consistent ring, if and only if there were none or they fill the new storage exactly and already stand at its front |
| CircularBuffer.AtFrontIff | include/mw/mwFileQueue.h:33-38 | they stand at the front when head is 0, and when no two slots are alike only then |
| CircularBuffer.CircularBuffer.Push | include/mw/mwFileQueue.h:59-69 | the in-place push has the effect of the ring operation and reports whether it stored the value |
| CircularBuffer.CircularBuffer.Front | include/mw/mwFileQueue.h:71-76 | front returns the oldest value |
| CircularBuffer.CircularBuffer.Pop | include/mw/mwFileQueue.h:78-83 | the in-place pop has the effect of the ring operation |
| CircularBuffer.CircularBuffer.Resize | include/mw/mwFileQueue.h:33-38 | rewinds both ends, resizes the storage keeping its prefix, and leaves count as it was |
| ProducerConsumer.QueueIsSafe | include/mw/mwFileQueue.h:106-129 | in every state of every interleaving of any number of producers and consumers: produced values are the consumed ones followed by the ring contents, no push is refused, the mutex excludes, and a sleeping producer means the ring is full or someone is on the way to wake it |
| ProducerConsumer.CallsDeliver | include/mw/mwFileQueue.h:119-128 | in every interleaving the popped values are, in order, those that consumeNonBlocking has returned to its callers and then the one still on its way; and it answers that there is nothing only when the ring is empty |
| ProducerConsumer.CallsProduce | include/mw/mwFileQueue.h:106-116 | in every interleaving the values produce was called with are the pushed ones and those of calls under way: no call returns before its value is in the ring, and none pushes another |
| ProducerConsumer.StepKeepsFifo | include/mw/mwFileQueue.h:106-129 | each statement of produce and consumeNonBlocking keeps the order and the local promises (a producer about to push finds room, a consumer about to pop holds the front) |
| ProducerConsumer.StepKeepsExclusion | include/mw/mwFileQueue.h:106-129 | at most one thread is between acquiring and giving up the mutex, and wait gives it up |
| ProducerConsumer.StepKeepsWakeups | include/mw/mwFileQueue.h:107-116 | no wake-up is lost although signal may wake a single thread and wake-ups may be spurious |
| ProducerConsumer.SleeperWithFreeMutex | include/mw/mwFileQueue.h:106-129 | in every reachable state with a free mutex and a sleeping producer the ring is full or a woken producer is still to run |
| ProducerConsumer.NeverStuck | include/mw/mwFileQueue.h:106-129 | some thread can run unless all are outside calls or asleep, and then sleepers mean a full ring |
| ProducerConsumer.StepDecreases | include/mw/mwFileQueue.h:106-129 | every statement, a signal that wakes all sleepers included, lowers a bound on the statements left |
| ProducerConsumer.CallsFinish | include/mw/mwFileQueue.h:106-129 | once no call is started, every schedule ends within that bound, and only with all calls returned but those of producers asleep on a full ring |
| GrowthPolicy.GrowCapacity | include/mslcpp/vector.h:183-193 | the doubling loop terminates without leaving the 32-bit range, at a capacity between the need and max_size |
| GrowthPolicy.GrownIsTight | include/mslcpp/vector.h:403-411 | a need of up to half of max_size gives a capacity below twice the need, any other below that or max_size, none grows without need, and one doubling suffices when it can |
| GrowthPolicy.PushKeepsAmortized | include/mslcpp/vector.h:106 | each push_back keeps the account of relocated elements below twice the size |
| GrowthPolicy.PushBackCost | include/mslcpp/vector.h:283 | m push_backs on an empty vector relocate fewer than 2m old elements in total, the jump to max_size included |
| GrowthPolicy.PushBackSpace | include/mslcpp/vector.h:283 | after m push_backs the capacity is below 2m as long as m is at most half of max_size |
| RawStorage.Buffer.CopyConstruct | include/mslcpp/vector.h:385-392 | copies are constructed only in cells without an object, also within the same storage |
| RawStorage.Buffer.FillAssign | include/mslcpp/vector.h:398-400 | filling with *xr writes its value on entry even when xr points into the filled range |
| RawStorage.Buffer.CopyForward | include/mslcpp/algorithm.h:60-67 | copy onto an overlapping range that starts earlier moves every element intact |
| RawStorage.Buffer.CopyBackward | include/mslcpp/algorithm.h:95-102 | copy_backward onto an overlapping range that ends later moves every element intact |
| RawStorage.Buffer.DestroyDown | include/mslcpp/vector.h:42-50 | clear destroys each live element once, from the top down |
| NonPodVector.Vector.OpenWideGap | include/mslcpp/vector.h:380-387 | more new elements than tail: surplus constructed past the end, tail behind it, and *x still is what it was |
| NonPodVector.Vector.OpenNarrowGap | include/mslcpp/vector.h:388-397 | at most as many as the tail: the tail shifts and the adjusted reference still refers to the old value |
| NonPodVector.Vector.InsertInPlace | include/mslcpp/vector.h:376-400 | with spare capacity the contents become old[..i], n copies of the value of x on entry, old[i..] |
| NonPodVector.Vector.InsertReallocating | include/mslcpp/vector.h:401-427 | the same through new storage; all objects of the old storage are destroyed and the cost is accounted for |
| NonPodVector.Vector.Insert | include/mslcpp/vector.h:368-429 | insert(position, n, x) for every position, n and alias of x; objects live in exactly the cells below size |
| NonPodVector.Vector.Erase | include/mslcpp/vector.h:325-342 | erase(first, last) removes exactly that range and destroys the vacated cells once |
| NonPodVector.Vector.Reserve | include/mslcpp/vector.h:347-363 | reserve keeps the contents and never shrinks |
| NonPodVector.Vector.Resize | include/mslcpp/vector.h:316-323 | resize appends defaults or cuts off |
| NonPodVector.Vector.PushBack | include/mslcpp/vector.h:283 | push_back appends the value on entry, also of an element of the vector |
| NonPodVector.Vector.PopBack | include/mslcpp/vector.h:284-288 | pop_back removes and destroys the last element |
| NonPodVector.Vector.CopyOf | include/mslcpp/vector.h:264-268 | the copy has the same contents, in storage of exactly that size |
| NonPodVector.Vector.Clear | include/mslcpp/vector.h:42-50 | clear leaves no object and keeps the storage |
| PodVector.TailStartIsBehindGap | include/mslcpp/vector.h:168 | old_end - (num_move - n) is the address n words behind the position, also when the unsigned difference wraps |
| PodVector.PodVector.OpenGap | include/mslcpp/vector.h:165-177 | after the backward shift and the pointer adjustment *xr is the entry value of x for every alias position |
| PodVector.PodVector.Insert | include/mslcpp/vector.h:153-208 | POD insert on both paths: old[..i], n copies of the entry value of x, old[i..] |
| PodVector.PodVector.Erase | include/mslcpp/vector.h:233-244 | POD erase removes exactly the range |
| PodVector.PodVector.Reserve | include/mslcpp/vector.h:124-138 | POD reserve keeps the contents |
| PodVector.PodVector.Resize | include/mslcpp/vector.h:141-148 | POD resize appends copies of the entry value of x or cuts off |
| HeapAlgorithms.NotLessTransitive | include/mslcpp/algorithm.h:113-134 | not beating is transitive for every strict weak order |
| HeapAlgorithms.SiftRound | include/mslcpp/algorithm.h:119-132 | one round of the sift either closes the heap or moves its only violation to the chosen child |
| HeapAlgorithms.InsertHeapDown | include/mslcpp/algorithm.h:113-134 | __insert_heap_down repairs a heap whose only violation is at the hole, keeping the elements, single left child included |
| HeapAlgorithms.RiseStep | include/mslcpp/algorithm.h:151-160 | one round of push_heap moves the only violation to the parent |
| HeapAlgorithms.PushHeap | include/mslcpp/algorithm.h:136-163 | push_heap turns a heap followed by one value into a heap with the same elements |
| HeapAlgorithms.PopHeap | include/mslcpp/algorithm.h:165-182 | pop_heap moves the top to the end and leaves a heap before it, with the same elements |
| HeapAlgorithms.SiftParent | include/mslcpp/algorithm.h:205-210 | one round of make_heap extends the heap order to one more parent |
| HeapAlgorithms.MakeHeap | include/mslcpp/algorithm.h:184-225 | make_heap leaves a permutation of any input in heap order |
| PriorityQueue.TopIsMaximal | include/mslcpp/queue.h:21 | nothing in the queue beats top() |
| PriorityQueue.RunConserves | include/mslcpp/queue.h:31-43 | over every run, contents plus popped tops are the initial contents plus pushes |
| PriorityQueue.PoppedAboveRest | include/mslcpp/queue.h:38-43 | what a run of pops takes out is beaten by nothing left and nothing taken later |
| PriorityQueue.DrainSorts | include/mslcpp/queue.h:38-43 | popping until empty yields a sorted permutation |
| PriorityQueue.PriorityQueue.constructor | include/mslcpp/queue.h:15-18 | the constructor makes a heap of a copy of any container |
| PriorityQueue.PriorityQueue.Push | include/mslcpp/queue.h:31-36 | push adds the value to the heap |
| PriorityQueue.PriorityQueue.Pop | include/mslcpp/queue.h:38-43 | pop removes the top from the heap |
| PriorityQueue.PriorityQueue.Top | include/mslcpp/queue.h:21 | top returns an element nothing beats |
| BasicString.RoundIs | include/mslcpp/string.h:77 | __round gives the next number that is one less than a multiple of four, without wrapping |
| BasicString.GrowCapacity | include/mslcpp/string.h:166-171 | the growth loop ends for every 32-bit length and capacity, the block is allocated at its size if and only if some doubling exceeds n before the number wraps to nothing, and below half the address space it at least doubles and stays below 2n + 2 |
| BasicString.ShortGrows | include/mslcpp/string.h:166-171 | lengths below half the address space always find a block |
| BasicString.BasicString.ChangeSize | include/mslcpp/string.h:160-186 | change_size sets size and terminator and, if asked, keeps the common prefix |
| BasicString.BasicString.ReplaceInPlace | include/mslcpp/string.h:272-279 | replace within capacity |
| BasicString.BasicString.ReplaceInNewBlock | include/mslcpp/string.h:253-271 | replace into a new block |
| BasicString.BasicString.Replace | include/mslcpp/string.h:241-281 | replace(pos, n1, n2, c) gives s[..pos], n2 times c, s[pos + min(n1, |s| - pos)..], terminated, also when the string was not |
| BasicString.BasicString.AssignFrom | include/mslcpp/string.h:202-218 | assign(str, pos, n) gives the same substring whether or not str is the string itself |
| BasicString.BasicString.AssignSelf | include/mslcpp/string.h:210-212 | erasing the front and cutting off the rest is the substring |
| BasicString.BasicString.Append | include/mslcpp/string.h:129-139 | append adds the source; the result is terminated if and only if something was appended or the string was terminated |
| BasicString.BasicString.AssignChars | include/mslcpp/string.h:143-148 | assign replaces the contents and terminates them |
| BasicString.BasicString.Reserve | include/mslcpp/string.h:221-239 | reserve keeps the contents, and the terminator if and only if it was there; on a string without storage it is there if and only if fresh memory happens to hold one |
| ReportSplitter.FormatReport | tools/github_report.py:216-228 | the unsplit report: a reader who cuts the text at its newlines sees the lines of the report, in order |
| ReportSplitter.SplitComments | tools/github_report.py:231-280 | a reader of comment i sees the lines of part i of the greedy packing, in order, and behind them, when there are several, that it is part i + 1 of so many |
| ReportSplitter.DecimalReads | tools/github_report.py:278 | the numbers in the marker are what their digits say |
| ReportReading.OpeningRead | tools/github_report.py:208-210 | the opening of a section says whether it is open, and its title, marked when it continues |
| ReportReading.ReportRead | tools/github_report.py:216-228 | a reader of the report finds each section once, in order, with its title, header and all rows, or its note |
| ReportReading.PartRead | tools/github_report.py:243-266 | a reader of a part finds the tables packed into it, each with title, header and its rows |
| ReportSplitter.PlaceRound | tools/github_report.py:248-266 | one round of the section loop places the next chunk of the packing |
| ReportSplitter.Report.SplitIsReport | tools/github_report.py:243-271 | without re-openers and early closers the parts are exactly the lines of the report, each once, in order |
| ReportSplitter.Report.SplitIsPacked | tools/github_report.py:248-271 | no part is empty, each keeps to the limit unless one uncuttable piece alone exceeds it, and none had room for what the next one starts with |
| ReportSplitter.Report.FittingPartsFit | tools/github_report.py:250-262 | if each uncuttable piece fits, every part fits |
| ReportSplitter.Report.OneCommentIff | tools/github_report.py:231-271 | if each piece fits there is one comment if and only if the report fits the limit |
| ReportSplitter.Report.FittingReportIsWhole | tools/github_report.py:231-271 | a report within the limit becomes one part that equals it |
| ReportSplitter.Report.ChunkLines | tools/github_report.py:249-263 | every chunk is its section opening, the header, consecutive rows, and the closing |
| ReportSplitter.Report.PartBalanced | tools/github_report.py:208-213 | every part closes each details block it opens |
| ReportSplitter.CommentSize | tools/github_report.py:275-279 | a numbered comment is longer than its part by the marker |
| CommentBound.BoundIff | tools/github_report.py:273-280 | a bound holds for every comment of all reports whose pieces fit and that make fewer than 10^d comments if and only if it exceeds the limit by the longest marker, 23 + 2d, or the limit is below the footer |
| CommentBound.LongestComment | tools/github_report.py:273-280 | for every limit and number of digits some report has a comment that long |
| ReportSplitter.CommentsFit | tools/github_report.py:273-280 | any bound that exceeds the limit by the longest marker holds for every comment |
| ReportSplitter.CommentsFitGitHub | tools/github_report.py:15-17 | with the limit of the tool every comment fits GitHub, marker included |
| ReportSplitter.MarkerExceedsLimit | tools/github_report.py:277-278 | the marker is not counted: whatever the sections are, a summary that fills the limit becomes a comment beyond it |
| AsmReader.ReadIff | tools/generate_asm_sequences.py:68-122 | the reader yields given functions if and only if they are nonempty, of distinct names, with labels in order, and the lines that matter spell exactly them: names, boundaries, labels, and instruction k at address + 4k; every other file is refused |
| AsmReader.AcceptedIsFaithful | tools/generate_asm_sequences.py:68-122 | the lines that matter of an accepted file are those of the functions read, in order |
| AsmReader.AllRenderedAreRead | tools/generate_asm_sequences.py:68-122 | the lines of any list of well-formed functions with labels are read as that list |
| AsmReader.RelevantRead | tools/generate_asm_sequences.py:68-122 | other lines, and instructions and labels outside functions, change nothing |
| AsmReader.ReadFunctions | tools/generate_asm_sequences.py:68-122 | the loop computes the state machine of the lemmas |
| AsmBlock.BlockSequence | tools/generate_asm_sequences.py:262-312 | a block is accepted if and only if its bounds are good, no branch leaves it (with operands outside a text block: none is local), and the operands are well named registers of the block, none twice; the result is the slice |
| AsmBlock.FlowStaysIff | tools/generate_asm_sequences.py:283-296 | the branch checks hold if and only if control goes only to addresses of the block or its end, never away, and operands outside a text block have no local branches |
| AsmBlock.ParametersAppearIff | tools/generate_asm_sequences.py:297-311 | every parameter is put in for its register somewhere in the macro if and only if no register is mapped twice, each is used outside quotes, and no parameter is called qr0 to qr7 |
| AsmBlock.SliceIsFaithful | tools/generate_asm_sequences.py:282-283 | the slice covers the addresses asked for, and instruction k is the retail one at address + 4k if and only if the function starts on a word boundary |
| AsmBlock.EmitMacro | tools/generate_asm_sequences.py:161-224 | the emission loop for a text block, with operands, writes the lines of the lemmas |
| AsmBlock.SpellingMeansRetailIff | tools/generate_asm_sequences.py:251-259 | with the registers put in for all words that are parameters, a substituted instruction is the retail one word by word if and only if every word is kept: no parameter put in is called qr0 to qr7, no word left alone is called like a parameter, nothing changes in quotes |
| AsmBlock.MacroCodeIff | tools/generate_asm_sequences.py:160-215 | the first line defines SEQ_<name> with one parameter per operand; invoked with the registers, each bound to the parameter declared there, the macro is the code of the block, instruction by instruction and word by word, if and only if every word of the block is kept |
| AsmBlock.GqrNumbered | tools/generate_asm_sequences.py:254-259 | no word of the macro is a quantization register: those of the block are plain numbers |
| AsmBlock.MacroContinued | tools/generate_asm_sequences.py:180-224 | every line of the macro but the last is continued |
| AsmBlock.LabelsStandRight | tools/generate_asm_sequences.py:178-179 | each label stands where the retail address it is named after is |
| AsmBlock.MacroLabelIff | tools/generate_asm_sequences.py:170-179 | a label is defined once if it is the upper-case spelling of a local target of the block on a word boundary inside it or at its end, and otherwise not at all |
| AsmBlock.TargetResolvesIff | tools/generate_asm_sequences.py:170-179 | a local target resolves, to one label at its retail address, if and only if it is a word address of the block or its end and its digits are upper case |
| AsmBlock.BranchResolves | tools/generate_asm_sequences.py:285-289 | for an accepted block alignment and upper case are enough |
| AsmBlock.HexRoundTrip | tools/generate_asm_sequences.py:179 | printing a parsed address gives the digits back in upper case |
| NinjaWriter.CountIsRightIff | tools/ninja_syntax.py:161-168 | the dollar count is right unless only dollars precede the index, where it is one short |
| NinjaWriter.CountDollarsBeforeIndex | tools/ninja_syntax.py:161-168 | the counting loop |
| NinjaWriter.FindBreak | tools/ninja_syntax.py:178-194 | both searches together find the last usable break below the bound, or else the first from it on |
| NinjaWriter.WriteLine | tools/ninja_syntax.py:170-205 | the wrapping loop writes the physical lines of the lemmas |
| NinjaWriter.LinesUnbrokenIff | tools/ninja_syntax.py:173-205 | a physical line that exceeds the width has no unescaped space if and only if the text left to write does not start with an even number of dollars and a space |
| NinjaLayouts.LineStarts | tools/ninja_syntax.py:173-205 | every line starts in front, behind a space usable from the front, or behind a word of an odd number of dollars at which a line can start |
| NinjaLayouts.LineAlwaysCutIff | tools/ninja_syntax.py:170-205 | with room for a break, _line leaves no line that exceeds the width with an unescaped space, in any indentation and width, if and only if without indentation, in each width from 6 to below the length of the text, no such line starts with an even number of dollars and a space |
| NinjaLayouts.AlwaysCutIff | tools/ninja_syntax.py:173-205 | the loop of _line, started with any leading space: no line that exceeds the width has an unescaped space if and only if no even number of dollars and a space stand where a line can start; for _line itself that suffices |
| NinjaLayouts.NoDollarWordCut | tools/ninja_syntax.py:173-205 | so if no word of the text is an even number of dollars, no line that exceeds the width has an unescaped space |
| NinjaWriter.LinesKeepWidth | tools/ninja_syntax.py:173-205 | a physical line exceeds the width only if it has no break that the code takes for unescaped |
| NinjaWriter.UsableIff | tools/ninja_syntax.py:161-168 | the code judges a space rightly if and only if something other than dollars precedes it |
| NinjaWriter.KeptIff | tools/ninja_syntax.py:173-205 | when the indentation leaves no room for a break every line of a wider text is too long, and it is cut where the code could cut it if and only if at most one usable space lies before the search bound |
| NinjaWriter.ExactFitIff | tools/ninja_syntax.py:176-183 | the rightmost break that fits is taken if and only if it does not fill the line exactly or no other fits |
| NinjaWriter.LineRoundTrip | tools/ninja_syntax.py:170-205 | what Ninja reads back of any newline-free text: the text without the spaces of its own that physical lines start with, or if it ends inside an escape that without its last dollar and the next line with it |
| NinjaWriter.LineReadIff | tools/ninja_syntax.py:170-205 | a newline-free text is read back whatever follows in the file if and only if it does not end inside an escape and no physical line starts with a space of the text |
| NinjaLayouts.LineAlwaysReadIff | tools/ninja_syntax.py:170-205 | a newline-free text is read back from whatever _line makes of it, in any indentation and width, if and only if it does not end inside an escape and without indentation no width makes a line start with a space of it |
| NinjaLayouts.AlwaysReadIff | tools/ninja_syntax.py:173-205 | the loop of _line, started with any leading space: a newline-free text is read back if and only if it does not end inside an escape and has no space where a line can start; for _line itself that suffices |
| NinjaLayouts.TidyReadBack | tools/ninja_syntax.py:170-205 | so a newline-free text without runs of spaces and spaces in front that does not end inside an escape is always read back |
| NinjaWriter.EscapedIsComplete | tools/ninja_syntax.py:228-233 | escaped text never ends inside an escape |
| NinjaWriter.ExpandEscaped | tools/ninja_syntax.py:228-249 | escaped text expands to itself wherever it stands, whatever is defined |
| NinjaWriter.EscapeExpands | tools/ninja_syntax.py:228-249 | escape refuses exactly the texts with a newline, and expand(escape(s), vars) == s |
| NinjaWriter.ReferenceExpands | tools/ninja_syntax.py:236-249 | a reference expands to the local value of its name, or else the global one, or else nothing |
| IncludeFlattener.TerminatesIff | tools/decompctx.py:50-110 | flattening terminates for every file and every set of defines if and only if each include cycle passes through a file with a first-line guard or pragma once |
| IncludeFlattener.ImportTerminates | tools/decompctx.py:50-110 | the measure: unused keys, then rank among unguarded files, then lines left |
| IncludeFlattener.CycleStuck | tools/decompctx.py:93-106 | a file on a cycle of unguarded files needs unbounded depth |
| IncludeFlattener.ImportOnce | tools/decompctx.py:80-91 | for each guard key the body is written exactly once if the key has come into use, and not at all if it was in use or never came into use |
| IncludeContents.ImportTold | tools/decompctx.py:63-74 | between the markers of every include, however deep, stands outside inner markers exactly the text of the file it resolves to, or nothing if its guard was in use by then or nothing resolves; keys and visited files are those of the file and of the markers, in order |
| IncludeFlattener.ImportBrackets | tools/decompctx.py:101-108 | outside the include markers stand exactly the text lines of the file, in order; the markers are balanced |
| IncludeFlattener.Flattener.ImportFile | tools/decompctx.py:63-74 | the recursion over the global state computes the result of the lemmas, without a bound on its depth |
| IncludeFlattener.Flattener.ProcessLines | tools/decompctx.py:77-110 | the loop over the lines of a file |
| StringPool.PrintCString | tools/generate_retail_includes.py:179-197 | c_string spells the bytes before the first zero |
| StringPool.PrintPool | tools/generate_retail_includes.py:222-233 | the pool text: refused without a final zero byte, else one literal per part |
| StringPool.SplitJoins | tools/generate_retail_includes.py:227 | splitting at zero bytes and joining again is the identity |
| StringPool.SpellingReads | tools/generate_retail_includes.py:184-195 | each spelling is read back as its byte whatever follows, three-digit octal included |
| StringPool.EndingsRead | tools/generate_retail_includes.py:230 | a spelled-out zero at the end of a literal is one zero byte |
| StringPool.PoolRoundTrip | tools/generate_retail_includes.py:258-265 | compiling the text gives back the retail pool byte for byte |
| StringPool.LiteralIsPoolString | tools/generate_retail_includes.py:275-276 | an entry of the literal table is the C string the pool holds there |
| StringPool.OneLiteralIff | tools/generate_retail_includes.py:225-226 | two parts in one literal with the spelled-out zero between would be read back if and only if the second does not start with an octal digit, which is why the pool is one literal per part |
| Relocation.LoadResolvesAll | tools/check_mpvabdec.py:129-150 | with disjoint fields every field means symbol plus addend after the loop and all other bytes are unchanged |
| Relocation.LoadStopsAtFirst | tools/check_mpvabdec.py:149-150 | a failing entry stops the loop with everything before it stored and nothing after |
| Relocation.StoredResolves | tools/check_mpvabdec.py:139-148 | each kind of relocation on its own |
| Relocation.HighAdjusted | tools/check_mpvabdec.py:142 | (HA << 16) plus the signed low half is the value modulo 2^32 |
| Relocation.BranchFieldExact | tools/check_mpvabdec.py:146 | a branch decodes to its target if and only if the displacement is a multiple of four within 2^25 |
| Relocation.BranchFieldKeeps | tools/check_mpvabdec.py:146 | opcode, AA and LK are kept |
| Relocation.Emulator.LoadObject | tools/check_mpvabdec.py:129-150 | the loop runs through if and only if every entry of a placed SHT_RELA section has a known symbol, a supported kind and a mapped field; then, with disjoint fields, the field at base[target] + offset means symbol plus addend and no other byte has changed |
| Relocation.LoadedAsTold | tools/check_mpvabdec.py:114-146 | in terms of the object file: absolute, retail and section-relative symbols, info % 256 for the kind, info / 256 for the symbol |
| NewtonRoots.StepError | include/math.h:17-19 | a step turns the error d into d*d*(3 + d)/4 |
| NewtonRoots.ThreeStepsError | include/math.h:17-19 | three steps leave an error between 0 and the eighth power of the first |
| NewtonRoots.Sqrtf | include/math.h:8-23 | for a first error within 1 the result r >= 0 satisfies x*(1 - d^8) <= r*r <= x; x <= 0 is returned |
| NewtonRoots.FusedIsTwoSteps | include/math/gxMath.h:27-30 | the fused polynomial is two Newton steps |
| NewtonRoots.FastInvSqrtError | include/math/gxMath.h:27-30 | so its error is at most the fourth power of the estimate |
| NewtonRoots.FastSqrtIsInvSqrtStep | include/math/gxMath.h:46-48 | the square-root step is the inverse-root step on guess / value |
| NewtonRoots.FastSqrtError | include/math/gxMath.h:46-48 | so its square misses the value by at most the square of the relative error |

## Left out

- Declaration-only headers and the game sources: their bodies are not part of this model.
- `lower_bound`, `find`, `remove` and the other search algorithms of `algorithm.h`: textbook
  loops no other result needs.
- Heap algorithms on a range that does not start at the beginning of its array: every caller
  passes `begin()`.
- Length and position errors of the vectors and the string stop the program; they are
  preconditions. Allocation never fails.
- PodVector: the element size is the 4 bytes of its one instantiation, not a parameter.
- BasicString.BasicString.Append: the source must lie outside the string's own storage, because
  the old block is released before the copy; the same holds for `assign` from characters.
- BasicString.BasicString.ChangeSize: a length for which the growth loop finds no block is a
  precondition; which lengths those are is what `BasicString.GrowCapacity` states.
- BasicString.BasicString.Replace: new lengths above 2^32 - 5, and requests to `reserve` above that,
  for which the size of the block itself wraps.
- `mwProducerConsumerQueue::resize` while threads are inside calls: the state machine starts
  from an empty ring of any size. `reserve_priority_queue` adds only a call of `reserve`.
- The mutex and the condition variable themselves: their bodies are not part of this model.
- ReportSplitter: building the rows from the change report, number formatting and the JSON input;
  summary, titles, headers and rows are any strings.
- ReportSplitter.Report.PartBalanced: summary, header and rows must not themselves contain a
  details tag line, which `build` never writes.
- AsmBlock.EmitMacro: the renaming of relocation symbols, stack slots and `@sda21` operands, opword
  blocks, and whole functions with entry labels. Its labels are taken as emitted, before the
  preprocessor puts in registers.
- The regular expressions: the line and branch patterns are predicates or token kinds.
- NinjaWriter: `escape_path` and the rule and build statements around `_line`.
- IncludeFlattener: path joining and globbing (each include comes with its candidate paths, the
  excluded names with a set), the printed messages, and the second attempt after a decoding error.
- StringPool: trigraphs, which would need `??` sequences in the pool; the pointer tables beside
  the pool.
- Relocation: reading the ELF file, mapping sections, the symbol values `load_object` returns, and
  emulation.
- NewtonRoots: floating-point rounding, the estimate instruction, the bit trick and the table; the
  first error is a parameter.
