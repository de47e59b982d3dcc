# Verified models of the firmware's algorithmic cores

This project models the parts of the firmware that are algorithms rather than
register plumbing, and proves what they keep over every input and every run.
`dafny verify dfyconfig.toml` checks all of it.

**The JSON library** (`uart/cJSON.c`) is modelled twice and the two are tied
together. On texts and values: `Escape`, `Unescaping`, `Numeral`, `PrintText`,
`ParseText` and `MinifyText` say what is printed, parsed and minified, and
`RoundTrip`, `UniqueText`, `JsonGrammar`, `UnicodeEscapes`, `Overrun` and
`ParseSafety` prove the laws. `JsonLax`, `JsonErrors` and `JsonLeaves` say exactly
which texts are accepted, where the others go wrong, and what becomes of literals
and numerals outside the grammar; `Layout` where the blanks of formatted text
stand. On the C heap:
`Memory` holds node records, character blocks and pointer tables by address,
with an allocator that may refuse any request; using an unallocated address,
freeing one twice or writing outside a block would violate a precondition, and
a leak would show in the set of addresses. `Trees` and `Siblings` say when
doubly linked nodes form a tree and which value it stands for. The methods of
`Delete`, `ListOps`, `ParseStringHeap`, `ParseHeap`, `Duplicate`, `TextWriting`,
`PrintBuffered`, `PrintBlocks`, `PrintAlloc` and `MinifyInPlace` follow the C
code statement by statement and are proved against the text model. `LifeCycle`
joins both printers, the parser and deletion. Printable values are built from
null, booleans, numbers that are 32-bit integers, NUL-free strings and keys,
arrays and objects.

**The multi-CPU lock** (`rt-thread/src/cpu.c`) is `CpusLock`: a state, the steps
any CPU may take at any time, an invariant, and the methods that are the code of
the steps. A step touches at most one shared lock; the counters it changes belong
to the CPU's own thread and interrupts are off. The guards of the steps say what
callers and scheduler guarantee: balanced calls; a switch only by a CPU that
holds the lock, at `scheduler_lock_nest` 1 (`rt-thread/src/scheduler.c:324`), to
a thread no CPU runs; the raw lock at start-up (`rt-thread/src/components.c:248-250`);
the switch at interrupt exit, which counts the thread out without releasing
(`rt-thread/src/scheduler.c:614-618`). `CpusNesting` tells the counters from the
history of calls.

**Drivers and services**: `EthDma` (copying between packet chains and descriptor
buffers), `ButtonDriver` (debouncing, clicks and long presses over runs of
samples, with the constants of `rtconfig.h:250-254`), `TdsQueue`, `TdsService`
and `TdsStream` (receive ring, frame scanner, compaction, runs of calls), `FlashDriver` (double-word packing and
page ranges), `PwmDriver`, `PmTick` and `GpioIrq`. Code that updates fields is a
class whose methods are proved against functions of the old state; what the
source promises is proved about those functions, over whole runs where it spans
calls.

## Where the code does not do what it seems to

Each of these is stated by a contract or a lemma of the project.

- A string with unequal numbers of `{` and `}` does not survive printing and
  parsing. A literal whose brace count is not 0 at its first raw quote is read on
  past it, and overruns the buffer sized for it as soon as that is more than its
  `\u` escapes have left over. An escape cut short, as in the literal holding only
  `\u`, can lead out of the text.
- The parser takes more than JSON: any control character as a blank, numerals such
  as `-`, `01` and `1e`, any character behind a backslash, and a literal cut off by
  the end of the text.
- An empty object is indented one level less than a non-empty one.
- Two CPUs may both have `cpus_lock_nest` > 0: one of them is then still waiting.
- A frame longer than the whole free descriptor ring is accepted by the transmit
  loop and wraps around; the contents are only promised for frames that fit.
- A button whose trigger level is not 0 in its two lowest bits never calls back.
- Long_Time is not cleared by a double click, so the next press counts as held
  for longer than it was.
- The TDS queue holds 74 bytes, not 75, once a byte was read; at one pointer
  position the next byte empties it. The checksum compare may read one byte that
  has not been received, and a start byte with the length 0 makes it sum 65535.
- Flash writes of size 0 return an error and leave the flash unlocked; the range
  check can be passed by a 32-bit wrap-around. On the one-bank chip of this
  firmware every erase of a range of the flash that is not empty is exact; on
  two-bank chips one that crosses into the second bank is not. An erase of size 0 that does not begin
  between two pages erases the page around it, or a whole bank.
- The PWM reading divides the clock by the division setting and the writing does
  not; readings of long periods wrap in 32 bits.
- On the L0 family the disabling code tests groups of lines that its vectors do
  not have.

## Model

| member | source | states |
|---|---|---|
| Escape.EscapeAllPlain | uart/cJSON.c:260-272 | a string without characters that need escaping is its own escape, so the fast path and the slow path of print_string_ptr agree |
| Unescaping.BodyFits | uart/cJSON.c:198-248 | for every string body with complete `\u` escapes and closed braces, decoding succeeds and writes at most as many characters as the sizing loop counted |
| Unescaping.DecodeEscaped | uart/cJSON.c:203-247 | decoding runs through any escaped string, yields the string itself, and changes the brace count by its `{` minus its `}` |
| Numeral.ParseIntText | uart/cJSON.c:97-116 | parse_number on the `%d` text of any 32-bit integer gives that integer and stops behind it |
| RoundTrip.ParseQuote | uart/cJSON.c:193-311 | parse_string undoes print_string_ptr for every brace-balanced C string, wherever the text stands |
| RoundTrip.ParseQuoteOnly | uart/cJSON.c:204-207 | with unequal braces parse_string never returns the printed string |
| RoundTrip.ParsePrint | uart/cJSON.c:361-662 | at any offset, depth and format, parse_value on a printed value gives the value and the offset behind its text |
| RoundTrip.ParseUndoesPrint | uart/cJSON.c:327-662 | parsing what cJSON_Print or cJSON_PrintUnformatted prints gives the same value and consumes the whole text if and only if every string and key is brace-balanced |
| UniqueText.PrintIsInjective | uart/cJSON.c:345-347 | two printable values with the same text, formatted or not, are equal, whatever braces their strings hold |
| UniqueText.ValueUnique | uart/cJSON.c:376-662 | the unformatted text of a value is not the beginning of another value's text |
| PrintText.ClosingBrace | uart/cJSON.c:566-575 | the closing brace of a formatted object stands at its depth, that of an empty object one level less |
| Layout.PrintLaysOut | uart/cJSON.c:345-661 | for every value the formatted text is the unformatted text passed through a scanner that knows only the open brackets: a line break and one tab per open bracket in front of every member, one tab less in front of a closing brace, two less in that of an empty object, a tab behind a colon, a blank behind a comma in an array, literals copied |
| Layout.TabsAre | uart/cJSON.c:583-587 | indentation is made of tab characters, one for each level |
| UnicodeEscapes.ParseSpelled | uart/cJSON.c:178-247 | parse_string turns any sequence of non-zero Unicode scalar values written as `\uXXXX` or surrogate pairs (section 7 of RFC 8259), in either letter case, into exactly its UTF-8 encoding |
| UnicodeEscapes.SpellSpells | uart/cJSON.c:178-231 | every such sequence can be spelled that way |
| UnicodeEscapes.Utf8Reads | uart/cJSON.c:233-241 | the octets written determine the character when read by section 3 of RFC 3629 |
| Overrun.ReadsExactly | uart/cJSON.c:193-249 | for every literal, also with incomplete escapes: parse_string stays inside the block it sized and the text if and only if what its second loop still writes, from the first raw quote, incomplete escape or end of the text on, fits into the slack left by the `\u` escapes in front and what its first loop still sizes there |
| Overrun.OverrunsExactly | uart/cJSON.c:193-249 | where all escapes up to the first raw quote are complete nothing is sized any more: what is still written must fit into the slack |
| Overrun.StopsIncomplete | uart/cJSON.c:198-222 | an incomplete escape at the end of the text always leads out of it; elsewhere it writes nothing and steps over four characters, whatever they are |
| Overrun.IncompleteInput | uart/cJSON.c:193-222 | an input: the literal holding nothing but `\u` |
| Overrun.OverrunsWithoutUnicode | uart/cJSON.c:198-207 | without `\u` escapes: if and only if the brace count is 0 at the first raw quote, or there is none |
| Overrun.Walk | uart/cJSON.c:198-247 | up to the first raw quote, incomplete escape or end, the block sized has room for exactly what is written and the slack |
| Overrun.NoSlack | uart/cJSON.c:198-247 | the slack is 0 if and only if there is no `\u` escape |
| Overrun.PrintedOverruns | uart/cJSON.c:193-311 | reading a printed string back overruns if and only if its braces are unbalanced and what is read on from its closing quote exceeds four characters per `\u00XX` in it |
| Overrun.PrintedAlone | uart/cJSON.c:193-347 | a string printed by itself overruns when it is parsed if and only if its braces are unbalanced and nothing in it prints as `\u00XX` |
| ParseSafety.TameDocument | uart/cJSON.c:198-248 | a text is parsed without overrunning any buffer or the text when every string literal in it can be, whatever else is malformed |
| ParseSafety.UnbalancedOverflows | uart/cJSON.c:198-207 | for `["{"]` the sizing loop counts one character and the decoding loop writes three |
| JsonGrammar.AcceptsGrammar | uart/cJSON.c:327-551 | every text of the grammar of RFC 8259 with brace-balanced literals, in any blanks, with any escapes, fractions and exponents, is accepted, consumed, and gives the value it writes |
| JsonGrammar.ReadSyntax | uart/cJSON.c:361-551 | the same for parse_value at any offset of a text |
| JsonGrammar.ReadNumber | uart/cJSON.c:97-116 | parse_number on any numeral of the grammar: all digits as one integer, scaled by the exponent less the length of the fraction |
| JsonGrammar.ReadLiteral | uart/cJSON.c:193-253 | parse_string on any literal of the grammar whose raw braces are balanced |
| JsonLax.AcceptsExactly | uart/cJSON.c:327-551 | cJSON_ParseWithOpts gives a value and an end if and only if blanks and syntax with that value stand in front of that end, brackets, commas, colons and blanks spelled out around the literals and numerals, and, if asked for, nothing but blanks stands behind |
| JsonLax.TakesExactly | uart/cJSON.c:361-551 | the same for parse_value at any offset: no other text is accepted, and no more or less of it is consumed |
| JsonErrors.RefusesDocument | uart/cJSON.c:327-374 | cJSON_ParseWithOpts fails with a given ep if and only if the text goes wrong at that offset: no value, key, colon, comma or closing bracket where one must stand behind well-formed syntax, or something behind the value where the text must end |
| JsonErrors.RefusesExactly | uart/cJSON.c:361-551 | the same for parse_value at any offset |
| JsonLeaves.NumeralIs | uart/cJSON.c:97-116 | whatever stands there, parse_number takes the longest sign, zero, digits, fraction and exponent, each of which may be missing, and gives their value |
| JsonLeaves.BodyIs | uart/cJSON.c:203-249 | whatever literal parse_string gets through, its result is that of its pieces: unknown escapes stand for their character, bad or zero \u groups and halves of pairs for nothing; it ends at a quote with no raw brace open or with the text |
| JsonGrammar.ShortestSpelling | uart/cJSON.c:284-311 | print_string_ptr writes every character in the shortest spelling a JSON literal has for it, with lower-case hex digits where it takes a \u group |
| Unescaping.HexTable | uart/cJSON.c:178-190 | hex digits are written and read by one table, lower-case when written, either case when read |
| JsonGrammar.IntTextNumeral | uart/cJSON.c:148-163 | the text of an integer is the numeral without fraction, exponent or leading zeros whose digits have its magnitude |
| MinifyText.MinifyDefined | uart/cJSON.c:739-754 | cJSON_Minify stays inside a text if and only if its block comments and literals are closed |
| MinifyText.MinifyKeeps | uart/cJSON.c:739-754 | what it keeps there, character by character: literals whole, no comments, and of the rest everything but spaces, tabs, carriage returns and line feeds |
| MinifyText.MinifyPrint | uart/cJSON.c:346-347 | minifying the formatted or the unformatted text of any value gives the unformatted text |
| MinifyInPlace.MinifyBuffer | uart/cJSON.c:739-754 | the in-place loops leave exactly the kept text and a terminator |
| MinifyInPlace.MinifyStep | uart/cJSON.c:744-751 | one round of the loop: the write cursor never passes the read cursor, the unread characters are as they were, and what has been written and what is still to come make up the result |
| Memory.Heap.Malloc | uart/cJSON.c:47-47 | the allocator refuses, changing nothing, or returns an address not in use |
| Memory.Heap.Free | uart/cJSON.c:48-48 | only an allocated address can be freed, and only that one is |
| Delete.DeleteChain | uart/cJSON.c:82-94 | cJSON_Delete ends and frees every node and string of the chain and of everything below it, each once, and nothing else |
| Delete.DeleteNode | uart/cJSON.c:85-93 | the same for one node and its subtree |
| ListOps.GetArrayItem | uart/cJSON.c:666-666 | for 0 <= item < size the child at that index, for a negative item the first child or NULL without one, past the end NULL |
| ListOps.AddItemToArray | uart/cJSON.c:670-675 | the child list becomes the old one with the item at the end, linked both ways; a NULL item changes nothing |
| ListOps.InsertItemInArray | uart/cJSON.c:688-689 | the item stands at the index (at 0 for a negative one), or at the end when the index is past it |
| ListOps.DetachItemFromArray | uart/cJSON.c:681-682 | the element at the index (at 0 for a negative one) leaves the list with null links and an untouched subtree, the rest stays linked both ways; past the end nothing changes |
| ListOps.DeleteItemFromArray | uart/cJSON.c:683-683 | exactly the addresses the element at the index (at 0 for a negative one) owns are freed |
| ListOps.ReplaceItemInArray | uart/cJSON.c:690-692 | the item takes the place of the element at the index (at 0 for a negative one) and exactly what the element owned is freed |
| ListOps.AppendRefines | uart/cJSON.c:675-675 | after such an append the array stands for the old items and the new value |
| ListOps.SpliceRefines | uart/cJSON.c:681-692 | after a splice of the child list the array stands for the spliced items: insert-at, remove-at and replace-at of sequences |
| ListOps.AppendMemberRefines | uart/cJSON.c:675-675 | appending a named node to an object appends the member |
| ListOps.SpliceMembersRefines | uart/cJSON.c:681-692 | a splice of an object's children splices its members |
| ParseStringHeap.ParseHex4 | uart/cJSON.c:178-189 | the number of four hexadecimal digits, 0 when one of them is none |
| ParseStringHeap.PutUtf8 | uart/cJSON.c:233-241 | the bit operations, from the last byte backwards, write the UTF-8 octets of the character and no other byte |
| ParseStringHeap.DecodeInto | uart/cJSON.c:203-249 | the decoding loop writes what the text specification says, with its terminator, inside the block that was allocated |
| ParseStringHeap.ScanString | uart/cJSON.c:198-198 | the sizing loop |
| ParseHeap.ParseString | uart/cJSON.c:193-253 | the node owns a fresh string with the decoded text, or the heap is unchanged |
| ParseHeap.ParseValue | uart/cJSON.c:361-373 | the node's tree denotes the parsed value and everything new hangs below the node, also after a failure, so that it can be deleted; on failure ep is the offset of the text model, unless an allocation was refused |
| ParseHeap.ParseArray | uart/cJSON.c:410-435 | the same for arrays: fresh children in order, linked both ways |
| ParseHeap.ParseObject | uart/cJSON.c:518-551 | the same for objects, each key moved from valuestring to string |
| ParseHeap.ParseWithOpts | uart/cJSON.c:327-341 | a detached tree of fresh nodes denoting the value and the end of the text read, or NULL with the heap exactly as before and, unless memory was refused, the error position of the text specification |
| Duplicate.Strdup | uart/cJSON.c:50-59 | a fresh copy of the string or nothing changed |
| Duplicate.Duplicate | uart/cJSON.c:712-737 | a detached tree of all-fresh nodes equal to the original, which is untouched; when any allocation is refused the heap is as before |
| Duplicate.CopyDenotes | uart/cJSON.c:712-737 | a copy stands for every value the original stands for |
| TextWriting.EscapedSize | uart/cJSON.c:282-282 | the sizing pass counts exactly the bytes the writing pass emits |
| TextWriting.QuotedSize | uart/cJSON.c:260-286 | the size requested, and that the fast path is taken only when the text is its own escape |
| TextWriting.WriteQuoted | uart/cJSON.c:267-271 | both paths write the same quoted text and a terminator, and nothing outside it |
| TextWriting.WriteAllEscaped | uart/cJSON.c:288-308 | the writing pass emits the escaped text |
| PrintBuffers.LeastPower | uart/cJSON.c:118-118 | pow2gt is the least power of two at or above its argument, for 1 up to 2^30 |
| PrintBuffered.Ensure | uart/cJSON.c:122-137 | the granted room lies in the buffer and the content survives regrowth, or the buffer is gone and the heap is as before |
| PrintBuffered.Update | uart/cJSON.c:139-145 | the offset moves to the end of the text written |
| PrintBuffered.PrintNumber | uart/cJSON.c:148-163 | the decimal text inside what was granted |
| PrintBuffered.PrintStringPtr | uart/cJSON.c:256-311 | the quoted text inside what was granted |
| PrintBuffered.PrintValue | uart/cJSON.c:376-392 | with a growing buffer: the text of the value and a terminator at the old offset, everything in front kept, or the buffer freed and the heap as before |
| PrintBuffered.PrintArray | uart/cJSON.c:441-472 | the array text, over any regrowth |
| PrintBuffered.PrintObject | uart/cJSON.c:560-612 | the object text, over any regrowth |
| PrintBuffered.PrintBufferedText | uart/cJSON.c:349-357 | for either format and a first buffer of any size: the text of the value, or NULL with the heap as before |
| PrintBuffered.GetArraySize | uart/cJSON.c:665-665 | the number of children |
| PrintBlocks.FreeEntries | uart/cJSON.c:491-497 | the failure path of print_array frees every entry once and the table |
| PrintBlocks.FreePair | uart/cJSON.c:637-642 | the failure path of print_object frees every name and entry that was printed, and both tables |
| PrintAlloc.PrintValue | uart/cJSON.c:376-407 | without a buffer: the text of the value in one new block and nothing else left allocated, or NULL with the heap as before |
| PrintAlloc.PrintArray | uart/cJSON.c:473-514 | the same for arrays, through a table of strings |
| PrintAlloc.CollectItems | uart/cJSON.c:479-486 | the length summed up suffices for the joined text; a failure stops the loop with the table intact |
| PrintAlloc.JoinItems | uart/cJSON.c:488-512 | joining writes the array text inside the block and frees every entry and the table |
| PrintAlloc.PrintObject | uart/cJSON.c:554-661 | the same for objects, through two tables; printing goes on after a failure and all of it is freed |
| PrintAlloc.GatherAndJoin | uart/cJSON.c:621-659 | the length summed up suffices for the joined text |
| PrintAlloc.PrintTree | uart/cJSON.c:346-347 | cJSON_Print and cJSON_PrintUnformatted |
| LifeCycle.PrintBothWays | uart/cJSON.c:345-357 | the two printers return equal strings for every tree, either format and any first buffer |
| LifeCycle.Reload | uart/cJSON.c:327-357 | a tree printed and parsed again gives a second, disjoint tree of the same value and leaves nothing else behind |
| LifeCycle.ParseAndDelete | uart/cJSON.c:82-94 | parsing any text and deleting the tree restores the heap, whatever is malformed or refused |
| CpusLock.Keeps | rt-thread/src/cpu.c:20-185 | every step of every CPU keeps the invariant of lock holder, counters and spin locks |
| CpusLock.MutualExclusion | rt-thread/src/cpu.c:126-185 | after any interleaving of lock, unlock, switch and spin-lock steps on any CPUs: of the CPUs whose thread has cpus_lock_nest > 0 all but at most one are waiting, no thread runs twice, and between calls the lock is taken exactly when one CPU runs such a thread |
| CpusLock.SchedulerCount | rt-thread/src/cpu.c:20-66 | after any run scheduler_lock_nest is the number of spin locks the thread is busy with plus one inside the cpus lock, and a thread busy with spin locks has not been switched out |
| CpusLock.SpinLockExclusion | rt-thread/src/cpu.c:74-108 | after any run a spin lock is taken exactly when one CPU holds it |
| CpusNesting.NestingCounts | rt-thread/src/cpu.c:126-185 | after any run a CPU runs the thread it was last switched to; a thread's cpus_lock_nest is the number of rt_cpus_lock less the number of rt_cpus_unlock calls on the CPU running it, counted from the calls and reset by the switch at interrupt exit; its spin locks are those called for and not left |
| CpusNesting.HeldThroughout | rt-thread/src/cpu.c:126-168 | from the acquisition on, through any nested calls and whatever other CPUs do, the lock stays taken by that CPU as long as the calls of its thread are not all undone and it is not switched |
| CpusLock.OwnerMoves | rt-thread/src/cpu.c:126-185 | the protocol refines one mutex: a step takes it when free, releases it as its owner, or leaves it alone |
| CpusLock.StillRuns | rt-thread/src/cpu.c:74-86 | a thread that stays busy with a spin lock over a step stays on its CPU |
| CpusLock.SwitchesIdle | rt-thread/src/scheduler.c:324-324 | the scheduler's guard lets only threads without spin locks be switched out |
| CpusLock.TwoCounted | rt-thread/src/cpu.c:136-143 | two CPUs can both have counted themselves in while one of them still waits |
| CpusLock.Smp.CpusLock | rt-thread/src/cpu.c:126-147 | rt_cpus_lock up to the spin is the step; without a current thread it does nothing |
| CpusLock.Smp.CpusUnlock | rt-thread/src/cpu.c:153-168 | rt_cpus_unlock up to the release is the step |
| CpusLock.Smp.CpusAcquire | rt-thread/src/cpu.c:142-142 | the spin of rt_cpus_lock ends with the lock taken |
| CpusLock.Smp.CpusRelease | rt-thread/src/cpu.c:164-164 | the lock is cleared |
| CpusLock.Smp.StatusSet | rt-thread/src/cpu.c:176-180 | the new current thread |
| CpusLock.Smp.StatusRestore | rt-thread/src/cpu.c:181-184 | the lock is released unless the new thread is inside it |
| CpusLock.Smp.PreemptDisable | rt-thread/src/cpu.c:20-40 | rt_preempt_disable is the step |
| CpusLock.Smp.PreemptEnable | rt-thread/src/cpu.c:45-61 | rt_preempt_enable up to the scheduler call is the step |
| CpusLock.Smp.SpinLock | rt-thread/src/cpu.c:77-77 | the lock bit is taken for the CPU's thread, or for the CPU without one |
| CpusLock.Smp.SpinUnlock | rt-thread/src/cpu.c:83-83 | the lock bit is cleared |
| EthDma.Transmit | drivers/drv_eth.c:204-248 | a chain is accepted exactly when the descriptors its bytes need are free; then framelength is its length, and a frame that fits the ring stands in it contiguously with the rest of the ring unchanged; the loop ends although an iteration may copy nothing |
| EthDma.NeededLeast | drivers/drv_eth.c:216-247 | the descriptors a chain needs are the least number whose buffers hold its bytes, but at least one |
| EthDma.CopyPiece | drivers/drv_eth.c:216-247 | one piece over as many buffers as it takes |
| EthDma.Overlong | drivers/drv_eth.c:204-248 | a frame longer than the whole free ring is accepted and announced at full length, and the ring does not hold it |
| EthDma.Receive | drivers/drv_eth.c:323-350 | the receiving chain, however it is cut, holds the front of the ring in order |
| EthDma.Release | drivers/drv_eth.c:352-360 | exactly the first SegCount descriptors go back to the DMA |
| EthDma.Loopback | drivers/drv_eth.c:204-350 | scattering and gathering return the same bytes for every two segmentations of one length |
| ButtonDriver.EveryRun | packages/button-v1.0.1/button.c:194-372 | over any run with a trigger level kept as 0 the state is never UP after a call and DOWN exactly while the accepted level is the trigger level; accepted releases equal clicks, double clicks and long-frees together; the callback log is well-formed and no 8-bit counter wraps |
| ButtonDriver.LogShape | packages/button-v1.0.1/button.c:279-325 | in a well-formed log a long-free follows directly on a LONG, a LONG is followed by LONG or long-free only, a double click follows directly on a click |
| ButtonDriver.KeepsGood | packages/button-v1.0.1/button.c:194-372 | one call keeps the invariant |
| ButtonDriver.DeadButton | packages/button-v1.0.1/button.c:60-65 | some run of pin levels makes a callback happen if and only if the two bits kept of the trigger level are 0 |
| ButtonDriver.Debounced | packages/button-v1.0.1/button.c:199-206 | a change is accepted with the second differing sample since the last change, consecutive or not |
| ButtonDriver.Holding | packages/button-v1.0.1/button.c:224-276 | holding for n calls runs the LONG callback (cycle + calls beyond the long-press time) / 25 times for every n, despite the 8-bit reset at 0xFF |
| ButtonDriver.PressEnd | packages/button-v1.0.1/button.c:244-298 | a press ends in long-free if and only if a LONG callback ran during it |
| ButtonDriver.LeftOver | packages/button-v1.0.1/button.c:283-323 | a release clears Long_Time except when it makes a double click |
| ButtonDriver.Window | packages/button-v1.0.1/button.c:344-352 | after a click the double-click window closes at the 15th call, unless a press is accepted |
| ButtonDriver.ShortPress | packages/button-v1.0.1/button.c:280-325 | a press without a LONG callback runs the double-click callback if it began inside the window and otherwise the click callback, which opens the window |
| ButtonDriver.TwoPresses | packages/button-v1.0.1/button.c:194-372 | two such presses run click and double click if fewer than 15 calls lie between the release and the call that accepts the second press, otherwise click twice |
| ButtonDriver.Button.constructor | packages/button-v1.0.1/button.c:60-67 | Button_Create |
| ButtonDriver.Button.CycleProcess | packages/button-v1.0.1/button.c:194-372 | Button_Cycle_Process is the step the properties are about |
| TdsQueue.PutExact | applications/tds_service.c:113-128 | an arriving byte is appended if and only if fewer than 74 slots are used, or nothing was read yet; otherwise it is dropped, and in one pointer position the whole queue with it |
| TdsQueue.TakeFirst | applications/tds_service.c:84-101 | reading removes the first byte |
| TdsQueue.EmptyTest | applications/tds_service.c:28-34 | equal pointers mean an empty queue |
| TdsQueue.Fifo | applications/tds_service.c:84-128 | over any interleaving of arrivals with room and reads: queued and arrived bytes are the delivered and still queued ones, in order |
| TdsService.ScanResult | applications/tds_service.c:153-179 | the scan ends, stays inside the received bytes, stops only where less than a head is left or a frame has not wholly arrived, so that the buffer is never full, and handles only whole frames, in order, without overlap; it faults only at a start byte with length 0 |
| TdsService.Complete | applications/tds_service.c:153-179 | a whole frame in front of where the scan stops is handled, unless it starts inside a handled frame or less than nine bytes behind a start byte whose checksum was wrong |
| TdsService.Resynchronises | applications/tds_service.c:154-157 | behind any bytes without a start byte the first whole frame is the first one handled |
| TdsService.SumLaws | applications/tds_service.c:102-112 | the checksum of no bytes is 0, of one byte that byte, of two stretches the sum of theirs modulo 256 |
| TdsService.BehindBadSum | applications/tds_service.c:170-174 | behind a start byte with a wrong checksum nothing is handled within nine bytes, but a whole frame at the ninth is handled next |
| TdsService.ScanLocal | applications/tds_service.c:170-170 | of the bytes behind the received ones at most one can matter |
| TdsService.StaleByte | applications/tds_service.c:165-170 | that one does matter: a frame whose announced length is all that has arrived is handled if and only if the slot behind happens to hold the sum |
| TdsService.MyMemcpy | applications/tds_service.c:35-56 | the destination gets the original source bytes for every overlap, and nothing else changes |
| TdsService.Service.ReceiveInput | applications/tds_service.c:113-128 | the queue step; the byte is appended unless it arrived without room |
| TdsService.Service.Interrupt | applications/tds_service.c:113-128 | any bytes arriving at any time leave buffer and read pointer alone and are appended to the queue while there is room |
| TdsService.Service.QueueReadByte | applications/tds_service.c:84-101 | the first queued byte, or 0 from an empty queue |
| TdsService.Service.Fill | applications/tds_service.c:146-148 | moves bytes until the buffer is full or the queue empty, with bytes arriving between the steps, and loses none |
| TdsService.Service.GetCheckSum | applications/tds_service.c:102-112 | the byte sum modulo 256 |
| TdsService.Service.ScanBuffer | applications/tds_service.c:153-179 | with bytes arriving meanwhile the loop is the scan and hands on each frame's type byte |
| TdsService.Service.UartService | applications/tds_service.c:140-185 | whatever arrives during the call: bytes that arrived are the consumed ones, the buffer and the queue, in order, while there was room; exactly what the scan passed over is consumed; the buffer is not full afterwards; a fault exactly when the scan meets a start byte with length 0 |
| TdsStream.CutsDoNotMatter | applications/tds_service.c:140-185 | over any number of calls without an unreceived checksum byte or a length 0, the bytes read determine what is consumed, what is held and which frames were handled, however the stream was cut into calls |
| TdsStream.CallOnTrack | applications/tds_service.c:140-185 | one call keeps consumed bytes and handled frames equal to those of one scan of all bytes read |
| TdsStream.ScanIsStream | applications/tds_service.c:153-179 | a scan of the buffer that compares received bytes only is the scan of the stream |
| TdsStream.StreamMore | applications/tds_service.c:153-179 | with more bytes behind, the scan of a stream goes on from where it stopped |
| TdsStream.Serve | applications/tds_service.c:140-185 | any number of calls of the service, with bytes arriving at any time, do that |
| FlashDriver.Flash.Write | drivers/drv_flash_l4.c:127-206 | result by result: refused ranges and addresses, the unlocked state left behind for size 0, and on success the buffer and zero padding in the flash; no cell outside the padded range ever changes, even when programming fails or lies; with something to write it fails only if the HAL refused to program or a cell of the range does not hold its byte |
| FlashDriver.Flash.Pack | drivers/drv_flash_l4.c:154-173 | the shifted and or-ed bytes are the little-endian number of the next eight bytes, or of what is left |
| FlashDriver.LittleUnique | drivers/drv_flash_l4.c:179-179 | equal double words have equal bytes, so the read-back compare proves the bytes |
| FlashDriver.Flash.Read | drivers/drv_flash_l4.c:97-113 | the bytes of the range, an error past the end, a fault where the 32-bit check was passed by wrap-around |
| FlashDriver.WriteThenRead | drivers/drv_flash_l4.c:97-206 | what a successful write wrote is read back, padding included |
| FlashDriver.RangeCheck | drivers/drv_flash_l4.c:133-137 | the 32-bit check accepts exactly the ranges that end in time and those whose end wraps around |
| FlashDriver.PaddedIs | drivers/drv_flash_l4.c:154-196 | what is written: the bytes of the buffer, and fewer than eight zeros up to a whole double word |
| FlashDriver.PaddingFits | drivers/drv_flash_l4.c:156-196 | the last padded double word of an accepted range does not reach past the end |
| FlashDriver.EraseExact | drivers/drv_flash_l4.c:30-247 | for a range of the flash, with one bank or two: exactly its pages are erased if and only if it lies in one bank, or is empty and between two pages of a bank, or at the end of the second |
| FlashDriver.SingleBank | drivers/drv_flash_l4.c:56-57 | with the one bank of this firmware's chip every range of the flash that is not empty is erased exactly; an empty one at the end erases the whole flash |
| PwmDriver.PeriodFits | drivers/drv_pwm.c:259-268 | the prescaled period is within 3..65534 and differs from the tick count by less than one prescaled tick |
| PwmDriver.Divided | drivers/drv_pwm.c:212-219 | the clock divided by 1, 2 or 4, rounded down |
| PwmDriver.PrescalerFits | drivers/drv_pwm.c:260-262 | the prescaler fits 16 bits if and only if the tick count is below 65535*65536, which every clock below 1 GHz guarantees |
| PwmDriver.PrescalerTooSmall | drivers/drv_pwm.c:260-262 | a period and a clock for which it does not fit |
| PwmDriver.ReadBackClose | drivers/drv_pwm.c:222-286 | the period read back is at most the one set, short by less than (factor*1000 + clk)/clk nanoseconds, when nothing is clamped or wraps |
| PwmDriver.ReadBackExact | drivers/drv_pwm.c:222-224 | the readings are those of the registers if and only if the 32-bit product does not wrap |
| PwmDriver.OnlyDiv1 | drivers/drv_pwm.c:212-258 | for every clock of at least 4 MHz and every reading that is not 0: the reading is the one for the clock that was set with if and only if the division is Div1 |
| PwmDriver.AtLeastDouble | drivers/drv_pwm.c:212-224 | half a clock or less gives at least twice the reading |
| PwmDriver.Timer.Set | drivers/drv_pwm.c:229-286 | both registers fit, the pulse is inside the period, and is the scaled one unless clamped |
| PwmDriver.Timer.Get | drivers/drv_pwm.c:185-227 | the readings, with the clock division that setting ignores |
| PmTick.Exact | drivers/drv_pm.c:103-115 | one conversion keeps exact account if and only if its 32-bit sum does not wrap; the remainder is right even then |
| PmTick.ProgrammedTime | drivers/drv_pm.c:85-139 | every request but RT_TICK_MAX programs the greatest reload within the timer's range whose time lies within the 32-bit product of the request |
| PmTick.NeverDrifts | drivers/drv_pm.c:103-115 | over any run 256 * (sum of OS ticks) + remainder = 1000 * (sum of timer ticks) + old remainder, if and only if no conversion wrapped |
| PmTick.CounterNeverWraps | drivers/drv_lptim.c:19-22 | 16-bit counter readings never wrap a conversion |
| PmTick.SleepCredit | drivers/drv_pm.c:123-139 | for every request a sleep is credited with at most the ticks requested, and an unclamped full one with at most four less |
| PmTick.RunOfSleeps | drivers/drv_pm.c:123-170 | the same summed over any run of sleeps |
| PmTick.Pm.OsTickFromPmTick | drivers/drv_pm.c:103-115 | the conversion with its static remainder |
| PmTick.Pm.TimerStart | drivers/drv_pm.c:123-139 | the reload value, clamped to the timer's range |
| GpioIrq.RunAgrees | drivers/drv_gpio.c:503-630 | over any run of attach, detach, enable and disable, except on L0, a vector is enabled exactly when one of its lines is in the mask |
| GpioIrq.AgreeFamilies | drivers/drv_gpio.c:575-621 | that holds after every run if and only if the family is not L0 |
| GpioIrq.L0Breaks | drivers/drv_gpio.c:602-620 | on L0 disabling line 0 switches off the vector line 1 still needs |
| GpioIrq.SwitchesOffExactly | drivers/drv_gpio.c:575-621 | elsewhere the vector is switched off exactly when none of its lines is left |
| GpioIrq.GroupTest | drivers/drv_gpio.c:578-612 | the test of a group mask is the test of each of its lines |
| GpioIrq.MaskBits | drivers/drv_gpio.c:558-574 | setting and clearing a line's bit touches no other line |
| GpioIrq.Exclusive | drivers/drv_gpio.c:448-501 | until its line is detached an attached pin keeps it over any run |
| GpioIrq.History | drivers/drv_gpio.c:430-630 | after any run a line is held by the first attach since it was last detached, and is in the mask if and only if it was enabled while held and not disabled since |
| GpioIrq.Answers | drivers/drv_gpio.c:430-630 | after any run a call is refused for an unknown pin, for enabling a line nobody holds, and as busy for attaching to a line held otherwise, and succeeds in every other case |
| GpioIrq.StepKeepsSlot | drivers/drv_gpio.c:449-461 | and every other attach on the line is refused as busy |
| GpioIrq.Bit2BitNo | drivers/drv_gpio.c:407-418 | the bit number, or -1 when the word has not exactly one of the 32 bits |
| GpioIrq.Gpio.AttachIrq | drivers/drv_gpio.c:430-469 | stm32_pin_attach_irq is the step |
| GpioIrq.Gpio.DetachIrq | drivers/drv_gpio.c:471-501 | stm32_pin_dettach_irq is the step |
| GpioIrq.Gpio.IrqEnable | drivers/drv_gpio.c:503-630 | stm32_pin_irq_enable is the step |

## Left out

- Numbers that are not 32-bit integers: their text (`%e`, `%f`, `%.0f`) and binary rounding. `parse_number` is modelled over reals, with the conversion to int in range.
- Reference nodes (create_reference) and constant-name nodes: they share or do not own strings; the ownership theorems exclude them.
- Lookup, detaching and replacing by key (case-insensitive compare, `uart/cJSON.c:667-693`) and the Create and AddItemToObject helpers: a search or an allocation in front of operations that are modelled.
- ParseHeap.ParseWithOpts: only for texts on which the C code stays inside its buffer and the text; outside those its behaviour is undefined. Overrun.ReadsExactly says for which string literals that is the case.
- MinifyInPlace.MinifyBuffer: only for texts whose block comments and literals are closed, which MinifyText.MinifyDefined shows to be those on which the C code stays inside the text.
- ParseSafety.TameDocument: one direction; a text with a literal that overruns is parsed safely when parsing fails in front of it.
- JsonGrammar.AcceptsGrammar: `\u0000` and unpaired surrogates, which stand for no text in a C string.
- PrintBuffered.PrintBufferedText: texts up to 2^30 - 64 characters; beyond, pow2gt leaves the range of int.
- PrintAlloc.PrintTree: the lengths are unbounded integers; a text beyond 2^31 characters is not modelled.
- The switch in parse_string that falls through the UTF-8 lengths and the four copied lines of parse_hex4 are loops here; the allocator hooks and cJSON_InitHooks are not part of this model, nor is cJSON_GetErrorPtr, which returns ep.
- Interrupt nesting inside the windows of rt_cpus_lock (interrupts are off there), the scheduler's choice of thread, rt_enter_critical and fairness of the spin locks.
- EthDma.Receive: the frame is assumed to lie within the ring, as the DMA reports it; descriptors do not change hands while a chain is copied; transmission itself, cache and register access.
- ButtonDriver.EveryRun: samples are pin levels, 0 or 1; the step itself takes any byte.
- ButtonDriver.Button.CycleProcess: NULL callbacks count as called; the compile-time variants (continuous trigger, long-free trigger, single and double) are off as in the configuration; the list of buttons.
- TdsService.Service.UartService: what happens after the fault of a length 0, when get_check_sum has left the buffer; bytes arrive between the statements of the service, not inside the queue functions. The TDS value computed by tds_handle is not part of this model.
- FlashDriver.Flash.Write: HAL_FLASH_Program may change any of its own eight cells and no others; the flash is the 256 KB of `drivers/board.h:32-34`; the erase operation itself is the HAL's.
- FlashDriver.EraseExact: ranges that begin below the flash or wrap around, which the 32-bit check lets through; pages of 2 KB; the two-bank layout is that of other chips of the family, with the same 256 KB.
- PwmDriver.Timer.Set: the choice of clock tree per timer; registers are unbounded, and the lemmas say when they fit.
- PmTick.SleepCredit: the low-power timer stops at its programmed value; RT_TICK_MAX starts no timer.
- GpioIrq.Gpio.IrqEnable: pin modes, pull resistors and HAL calls other than enabling and disabling a vector; detaching does not disable an interrupt, in the model as in the code.
- Displays, menus, LEDs, motors, power switching, networking, storage of settings, file system and every HAL or clock initialisation.
