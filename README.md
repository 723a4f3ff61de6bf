# Incident interpreter: a verified model of its core

Incident is an esoteric language with an unusual front end. The program text has no fixed syntax. A *command* is any substring that occurs exactly three times and is not part of a longer such substring. Commands that overlap are deleted.

The bytes of each surviving command's three occurrences (its *incidences*) get tags of the form `3 * id + role`:
- role 0 is the first occurrence in the text, "push 0";
- role 1 is the middle occurrence, "pop";
- role 2 is the last occurrence, "push 1".

Every command owns a bit stack. Control passes from each incidence to the incidence that follows it in the text. Which link it takes depends on the outcome: pop 0, pop 1, or a completed push. A push of a (command, bit) that has already been pushed since the last pop is skipped. A pop of an empty stack reads a bit of standard input. The two pushes of one *anchor* command write bits to standard output.

This project models, in Dafny, the core of `incident.c`:

- `Lexer` (lexer.dfy) with `Tags` (tags.dfy):
  - `find_commands_and_incidences`, whose LCP window test and preceding-byte test are stated over given suffix and LCP arrays;
  - `lexical_parse`, with its marking, renumbering and role passes over the `parsed` and `newnumbers` arrays.
- `Anchor` (anchor.dfy): `anchor_command`, whose two scans count runs of equal command tags.
- `Threading` (threading.dfy): the threading loop of `main`. It walks the tags once, storing each incidence into the slot the previous incidence designated.
- `Engine` (engine.dfy): `execute_commands_from`.
  - A step function on a `Machine` value is the specification.
  - The class `Executor` runs the source's loop over an array of skip fields forming the intrusive list headed by `first_skipped_incidence`, with sentinel 1. It is proved to follow the step function pass by pass.
- `Interpreter` (interpreter.dfy):
  - the fragment driver of `main`;
  - `Interpret`, the whole pipeline after option parsing, built on the corrected threading loop (see Findings);
  - the lemmas that carry each stage's guarantees into the next: the lexer's tags are contiguous and in range, `anchor_command` never aborts on them, and the graph only leads to incidences or to 0.
- `Common` (common.dfy): bytes, `Option`, powers of two, and least-significant-first bit streams.

Every imperative function of the source is a `method` with loops and invariants, proved against a specification function. Properties of those functions are lemmas.

Where the Incident language description and the code disagree, the model follows the code:
- The anchor is chosen by counting every run of equal command tags (three per command). It is not chosen by ordering commands by their first occurrence. The second scan keeps the last tag of the first scan, so a text with a single run would make it abort (`Anchor.SingleRunAborts`). The lexer never produces such a text (`Interpreter.LexedAnchor`).
- Command numbers start at 1, not 0. The first survivor's number becomes 3 after the first-byte increment, so tags 0, 1 and 2 stay free for the byte categories. Incidence 0 means halt, and 1 is the sentinel of the skip list.
- In fragment mode each run starts with empty stacks, an empty skip list and empty bit buffers, but standard input is one shared stream. A byte partly consumed by one run is lost to the next run.
- The scan from a `^` to its first command byte does not stop at `$`. A `^` with no command after it writes nothing, not even the separator newline (`Interpreter.CaretThenDollar`).

## Model

| member | source | states |
|---|---|---|
| Lexer.RecordedWindows | incident.c:592-622 | The windows kept by the scan, in increasing order. Each passes the LCP test (the shorter inner LCP exceeds the longer boundary LCP) and fails the shared-preceding-byte test. Lexer.WindowMaximal, Lexer.LongerNotThrice and Lexer.MaximalIsRecorded show that they spell exactly the provisional commands. |
| Lexer.FoundGroups | incident.c:624-630 | Incidences 3g, 3g+1 and 3g+2 are SA[w], SA[w+1] and SA[w+2] of the g-th kept window w, all of length min(L[w], L[w+1]). |
| Lexer.FoundLength | incident.c:625-633 | Three incidences are recorded per kept window. |
| Lexer.WindowsApart | incident.c:598-606 | Two windows passing the LCP test are at least three apart in the suffix array. |
| Lexer.RecordedSparse | incident.c:592-633 | At most (number of windows + 2) / 3 provisional commands are recorded. |
| Lexer.FoundFits | incident.c:625-630 | The incidence array, as long as the input, never overflows. |
| Lexer.TripleSameText | incident.c:608-618 | The three incidences of a window spell the same substring. |
| Lexer.ExactlyThreeOccurrences | incident.c:598-613 | For a window that passes the LCP test, the three suffixes are distinct offsets, and an offset q starts the window's substring exactly when q is one of them: the substring occurs exactly three times. |
| Lexer.WindowMaximal | incident.c:608-622 | A kept window's h = min(L[w], L[w+1]) common bytes occur at exactly its three offsets. The three occurrences do not all go on with one common byte, so the substring is no prefix of a longer command. They do not all follow one common byte, so it is no suffix of one. |
| Lexer.LongerNotThrice | incident.c:576-577 | No substring that is longer than a kept window's substring and contains it occurs at three distinct offsets. A recorded provisional command is never a substring of a longer command. |
| Lexer.MaximalIsRecorded | incident.c:574-577 | Every non-empty substring that occurs at exactly three offsets, and extends by a common byte on neither side, is spelled by a kept window. That window has Inner equal to the substring's length and the same three offsets. The scan identifies all provisional commands. |
| Lexer.ExtendedRightThrice | incident.c:613-615 | If the three occurrences of a thrice-occurring substring go on with a common byte, the substring is a prefix of a longer one found at exactly the same offsets. So "extends by no common byte" is the same as "not part of a longer command". |
| Lexer.ExtendedLeftThrice | incident.c:615-622 | If the three occurrences follow a common byte, the substring is a suffix of a longer one found at exactly the three preceding offsets. |
| Lexer.OccurrencesBlock | incident.c:608-613 | The three occurrences of a substring found at exactly three offsets are neighbours in suffix-array order. |
| Lexer.BlockRecorded | incident.c:598-622 | A block of three neighbouring sorted suffixes that spells such a maximal substring passes the LCP test and fails the shared-preceding-byte test, with Inner equal to the substring's length. |
| Lexer.OnlyInBlock | incident.c:608-613 | In sorted order, when the first and last of a block of suffixes start with p and their outer neighbours share fewer than \|p\| bytes with them, no suffix outside the block starts with p. |
| Lexer.TripleValid | incident.c:625-630 | The incidences of a kept window are non-empty and lie inside the text. |
| Lexer.FoundValid | incident.c:592-633 | Every recorded incidence is non-empty and lies inside the text. |
| Lexer.FindCommandsAndIncidences | incident.c:585-634 | The loop fills the array with exactly the incidences of the kept windows and returns their number / 3. By Lexer.MaximalIsRecorded every provisional command is among them. |
| Lexer.ScanWindow | incident.c:592-630 | One pass over window i appends that window's three incidences exactly when it is kept, so the array then holds the kept incidences of windows 0 to i. |
| Lexer.MarkByte | incident.c:701-714 | Marking one more byte of the current incidence leaves `parsed` holding the marking tags, and `newnumbers` the deletions, of the incidence list with that incidence one byte longer. |
| Lexer.MarkCovered | incident.c:701-714 | Marking every byte of an incidence leaves `parsed` holding the marking tags, and `newnumbers` the deletions, of the incidence list extended by that incidence. |
| Lexer.MarkIncidence | incident.c:695-718 | After incidence m, `parsed` holds the marking tags of the first m+1 incidences. A command's `newnumbers` entry is 0 exactly when it is deleted. |
| Lexer.MarkIncidences | incident.c:695-718 | After the marking loop, `parsed` holds the marking tags of all incidences, and `newnumbers` is 0 exactly for the deleted commands. |
| Lexer.NumberSurvivors | incident.c:720-728 | Survivors get 2, 5, 8, ... in order, deleted commands keep 0, and the counter ends at 2 + 3 * survivors. |
| Lexer.NumberOne | incident.c:722-727 | A surviving provisional command takes 2 + 3 * (number of earlier survivors), and a deleted one keeps 0. The counter moves on only for a survivor, and no other entry changes. |
| Lexer.AssignRoles | incident.c:730-745 | After the last pass every byte holds its final tag: 0 noise, 2 overlap, 1 deleted, else 3 * (rank + 1) + role. |
| Lexer.AssignRole | incident.c:731-745 | Byte x gets its final tag and no other byte changes. Each survivor's counter then counts the first bytes of its incidences at or before x. |
| Lexer.LexicalParse | incident.c:654-748 | The three outcomes. An input under 3 bytes returns 0 with all tags 0. A sorter failure returns its code with all tags 0. Otherwise tags are the final tags of the recorded incidences, and the return value is the number of survivors. |
| Tags.OverlapDeletes | incident.c:701-714 | A byte covered by two provisional incidences is tagged 2, and every command covering it is deleted. |
| Tags.DeletedBytes | incident.c:736-740 | Bytes of a deleted command end as 1, or as 2 where incidences overlap. |
| Tags.SurvivorExclusive | incident.c:701-714 | A byte of a surviving command is covered by that one incidence only. |
| Tags.SurvivorTag | incident.c:720-747 | The bytes tagged 3 * (rank + 1) + role of a surviving incidence are exactly the bytes of that incidence. |
| Tags.RoleOrder | incident.c:730-745 | The three incidences of a survivor start at distinct bytes, do not overlap, and roles 0, 1, 2 follow text order. |
| Tags.TagRange | incident.c:720-747 | Every tag is 0, 1 or 2. Otherwise it carries an id between 1 and the number of survivors, plus the role of the surviving incidence that covers the byte. |
| Tags.IdsUsed | incident.c:720-747 | Every id from 1 to the number of survivors occurs with every role. |
| Tags.RankStrict | incident.c:722-728 | A survivor's number is below every later provisional command's. |
| Tags.RankHit | incident.c:722-728 | Every number below a command's rank belongs to an earlier survivor, so ids are consecutive. |
| Tags.FirstCommandByte | incident.c:730-745 | The first command byte of the text belongs to a first incidence (role 0). |
| Tags.LastCommandByte | incident.c:730-745 | The last command byte of the text belongs to a last incidence (role 2). |
| Tags.MarkTagOwner | incident.c:703-713 | During marking, a byte holds a command number exactly when one incidence covers it. |
| Anchor.AnchorCommand | incident.c:753-787 | The two-scan loop returns `AnchorOf` of the tags, with None standing for the abort. |
| Anchor.NoRuns | incident.c:756-768 | A scan from a non-command start finds no run exactly when no tag exceeds 2. |
| Anchor.AnchorShape | incident.c:753-787 | The result is 0 exactly when no tag exceeds 2. Any other result is ≡ 1 (mod 3): the middle incidence of a command present in the text. |
| Anchor.RunsRestart | incident.c:773-785 | The second scan's starting tag does not matter unless the first run carries it. |
| Anchor.SingleRunAborts | incident.c:770-786 | A text with a single run makes `anchor_command` abort. |
| Anchor.AnchorOfCentremost | incident.c:770-785 | When the first run's tag differs from the last tag seen, the result is the Pop incidence of run ⌊(n−1)/2⌋. |
| Anchor.AnchorOfTwoEnded | incident.c:753-787 | When the first command tag has role 0 and the last has role 2, `anchor_command` does not abort. It returns 0 without runs, and otherwise the Pop incidence of run ⌊(n−1)/2⌋. |
| Threading.SlotAfter | incident.c:456-465 | Role 0 designates post_pop0, role 1 post_push, and role 2 post_pop1 of the same command. |
| Threading.StoreReads | incident.c:452-453 | Storing through the pending slot changes that slot and no other. |
| Threading.StoreInto | incident.c:452-453 | The write `*store_next_command_in = v` on the array is the value-level Store. |
| Threading.RunEnd | incident.c:467-470 | The skip stops at the last byte of the run or, in fragment mode, before a byte that `StopByte` reads as `$`: the next tag as written, the next input byte in the corrected variant. |
| Threading.SkipRun | incident.c:467-470 | The skip loop ends just past RunEnd. |
| Threading.ThreadByte | incident.c:446-470 | One pass of the loop body advances the builder exactly as the loop's specification does. |
| Threading.ThreadDollar | incident.c:446-448 | The `$` branch closes the pending slot with 0, leaves nothing pending, and moves to the next byte, as the specification's step does. |
| Threading.ThreadCommand | incident.c:450-470 | The command branch stores the tag in the pending slot, leaves the run's own slot pending, and moves past the run, as the specification's step does. |
| Threading.BuildCommands | incident.c:441-475 | The loop and its closing store produce the corrected `Threaded` graph. |
| Threading.Threaded | incident.c:441-475 | The corrected loop, and the loop outside fragment mode, always complete with count + 1 commands. |
| Threading.ThreadedFirst | incident.c:441-475 | `first_incidence` is the first command tag of the text, or 0 when a `$` or the end comes first. |
| Threading.ThreadedRunLink | incident.c:450-470 | The slot each run designates holds the incidence that follows the run in the text, or 0 (halt) at a `$` or the end. |
| Threading.ThreadedUnused | incident.c:441-475 | A slot no run designates keeps 0. |
| Threading.VariantsAgree | incident.c:445-470 | Outside fragment mode the loop as written and the corrected loop build the same graph. |
| Threading.NullStoreCrash | incident.c:446-448 | As written, two `$` with no command byte between them write through NULL. |
| Threading.DoubleDollarProgram | incident.c:446-448 | For `$$` in fragment mode, the as-written loop crashes and the corrected one builds the all-halt graph. |
| Threading.SkipStopsAtDollar | incident.c:467-470 | With the corrected test, the skip never passes a `$`. |
| Threading.DollarInsideCommand | incident.c:467-470 | For `a$a$a$` in fragment mode, with the tags the lexer gives it, the as-written skip passes every `$`, so command 1 links 4 after its first incidence and 5 after its middle one. The corrected skip stops before each `$`, which closes the pending slot, so every link is 0. |
| Engine.Init | incident.c:231-246 | A run starts at the first incidence with empty stacks, an empty skip list and empty bit buffers. |
| Engine.Step | incident.c:248-367 | One pass of the loop keeps the context well formed. |
| Engine.PopWellFormed | incident.c:297-339 | A pop keeps the context well formed. |
| Engine.PushWellFormed | incident.c:263-295 | A push followed by the full-byte check keeps the context well formed. |
| Engine.Run | incident.c:248-372 | At most `fuel` passes, stopping at ip 0, keep the context well formed. |
| Engine.PushElision | incident.c:263-295 | A pending push changes no stack and goes to post_pop0 or post_pop1. A real push appends its bit to its own stack only, becomes pending, and goes to post_push. |
| Engine.GrowthBetweenPops | incident.c:264-295 | Between pops, stack growth equals newly pending pushes, so each (command, bit) is pushed for real at most once and a stack grows by at most 2. |
| Engine.PopTakesTop | incident.c:299-339 | A pop empties the skip list. On a non-empty stack it removes the top bit, branches on it, and leaves other stacks, input and output as they were. |
| Engine.PushThenPop | incident.c:272-339 | Last in, first out: a real push followed by its own pop restores every stack and branches on the bit pushed. |
| Engine.PopReadsInput | incident.c:308-331 | On an empty stack, a pop branches on the next unread input bit, least significant first, and consumes only it. At EOF it goes to post_push and consumes nothing. |
| Engine.OtherStepsKeepInput | incident.c:262-339 | No other step touches the input. |
| Engine.PushOutput | incident.c:269-288 | Only a real push of the anchor command writes an output bit, and the bit is the one pushed. |
| Engine.FlushOutput | incident.c:363-367 | Writing a full output byte loses no bit. |
| Engine.StepOutput | incident.c:262-367 | Each step appends to the output bit stream exactly the bits `Emitted` names. |
| Engine.RunOutputGrows | incident.c:248-372 | Output bytes and output bits only grow during a run. |
| Engine.ChainPush | incident.c:274-293 | Linking a new push in front of the skip list keeps the list exact. |
| Engine.ClearStep | incident.c:300-306 | One step of the clean-up walk zeroes one field and follows it. |
| Engine.ClearDone | incident.c:300-306 | The walk stops at sentinel 1 only after every pending push is cleared. |
| Engine.Executor.constructor | incident.c:231-246 | Zeroing the command storage gives the initial context. |
| Engine.Executor.SkipTellsPending | incident.c:264-280 | A push's skip field is non-zero exactly when that push is pending. |
| Engine.Executor.ClearSkipped | incident.c:299-306 | The clean-up loop empties the list, returns the head to 1, and changes nothing else. |
| Engine.Executor.PushBit | incident.c:263-295 | Cases 0 and 2 of the switch compute `Push`. |
| Engine.Executor.FlushByte | incident.c:363-367 | The full-byte check computes `Flush`. |
| Engine.Executor.PushStep | incident.c:262-295 | A push pass, followed by the full-byte check, computes `Step`. |
| Engine.Executor.ReadBit | incident.c:308-331 | The input branch of a pop computes `Pop`. |
| Engine.Executor.PopBit | incident.c:333-339 | The stack branch of a pop computes `Pop`. |
| Engine.Executor.PopStep | incident.c:297-339 | Case 1 of the switch computes `Step`. |
| Engine.Executor.Pass | incident.c:248-367 | One pass of the loop computes `Step`. |
| Engine.Executor.MainLoop | incident.c:248-372 | The while loop computes `Run`. |
| Engine.ExecuteCommandsFrom | incident.c:226-380 | The written bytes, whether ip reached 0, and the unread input are those of `Run` from `Init`. |
| Interpreter.LexedContiguous | incident.c:720-747 | Lexer output never repeats a command tag before the start of a run carrying it. |
| Interpreter.LexedInRange | incident.c:720-747 | Lexer output names only commands 1 to the number of survivors. |
| Interpreter.LexedAnchor | incident.c:753-787 | On lexer output, `anchor_command` never aborts. It returns 0 without commands, and otherwise the Pop incidence of the centre run. |
| Interpreter.ThreadedTargets | incident.c:441-475 | The threaded graph links only to incidences of its commands or to 0. |
| Interpreter.LexedFacts | incident.c:430-439 | The tags `main` gets are in range and contiguous, and the anchor exists. |
| Interpreter.CommandAt | incident.c:485-486 | The scan after a `^` stops at the first command byte or at the end. |
| Interpreter.SkipToCommand | incident.c:485-486 | The scan loop after a `^` stops at `CommandAt`. |
| Interpreter.FragmentStarts | incident.c:480-493 | Every start is a command tag of the text. |
| Interpreter.FragmentStartsAfterCaret | incident.c:483-490 | Every start is the tag of the first command byte at or after some `^`. |
| Interpreter.NoCaretNoStarts | incident.c:480-493 | Without `^`, fragment mode runs nothing. |
| Interpreter.FragmentAt | incident.c:484-490 | The body at a `^` runs from the next command byte and writes a newline after a halting run, or nothing if no command follows. |
| Interpreter.RunFragments | incident.c:480-493 | The driver's output is `Sessions` over the fragment starts: each run is followed by a newline, the input is shared, and a non-halting run ends the output. |
| Interpreter.Interpret | incident.c:430-493 | The pipeline yields the composed outcome `Expected`, and stops with a parse error exactly when the sorter fails on an input of 3 or more bytes. |
| Interpreter.RepeatedTripleGraph | incident.c:441-475 | For `abcabcabc` with tags 3,3,3,4,4,4,5,5,5, the graph starts at 3, and command 1's links are (4, 0, 5). |
| Interpreter.RepeatedTripleAnchor | incident.c:753-787 | For `abcabcabc` with those tags, the anchor is 4. |
| Interpreter.RepeatedTripleRun | incident.c:248-372 | For `abcabcabc` with those tags, the run halts after three passes with output bits 0, 1 and no byte written. |
| Interpreter.CaretThenDollar | incident.c:480-493 | In fragment mode, `^$` runs nothing and prints no separator. |
| Interpreter.ThreeDollarsLexed | incident.c:585-748 | For `a$a$a$`, the given suffix and LCP arrays meet their definitions, the scan keeps only the last window, its command `a$` survives, and the bytes are tagged 3, 3, 4, 4, 5, 5. |

## Left out

- The suffix sorter (libdivsufsort) and `suffixlcp`, including the Kasai LCP loop: the suffix array and LCP array are inputs, required to satisfy their definitions. A sorter failure is an input carrying a negative code.
- `malloc_slurp_file`, the command-line parsing of `main`, `--version` and usage output: these are file I/O and argv handling. `Interpret` starts from the program bytes and the fragment flag.
- Trace output (`encode_stack` and the trace printing in `execute_commands_from`): it is diagnostic text only.
- Storage details: the realloc-based growth and bit packing of stacks, `free`, and the out-of-memory exit 71. Stacks are `seq<bool>`.
- `getchar` and `putchar`: standard input is a byte sequence consumed by the model, and standard output is a byte sequence it appends to. A partial output byte at the end of a run is never written, as in the source.
- Non-termination: runs take a `fuel` bound. `halted` / `finished` report whether the program reached halt within it. What a program does after `fuel` passes is not modelled.
- Engine.Push: `output_byte |= 1 << output_bits` is modelled as addition, which is equal because that bit is still clear (`Common.BitsSetTop`).
- Engine.Init: the skip fields of command 0 are never zeroed by the source. The model has no skip fields for command 0 because no incidence of command 0 exists.
- Threading.Threaded: C leaves command slots that are never stored uninitialised (a VLA). The model starts them at 0. A slot is never stored only when every byte of its incidence is a `$` in fragment mode, since such bytes take the `$` branch.
- Threading.ThreadedFirst, Threading.ThreadedRunLink, Threading.ThreadedUnused: they require `DollarFree`, that no `$` sits inside a command run in fragment mode. For a `$` inside an incidence the corrected loop closes the slot at the `$`, and the bytes of that incidence after the `$` designate the same slot again (Threading.DollarInsideCommand shows one such program). No lemma describes the links of such programs in general.
- Interpreter.Interpret: it composes the corrected threading loop (`Threaded` variant `Corrected`). For a fragment-mode program with `$$`, or with a `$` inside an incidence, it describes the intended behaviour, not incident.c's write through NULL or its skip past the `$`. Outside fragment mode the two loops agree (Threading.VariantsAgree).
- Integer widths: `saidx_t` is treated as unbounded. Tags stay below 3 * (|program| + 1), well within 32 bits for any file the interpreter can hold in memory.

## Findings

| source | as written | input that shows it | evidently intended | confidence | as-written member | corrected member |
|---|---|---|---|---|---|---|
| incident.c:446-448 | At a `$` in fragment mode, `*store_next_command_in = 0` runs even when the pointer is already NULL after an earlier `$` | The program `$$` run with `-f`: the second `$` writes through NULL | Write only when a slot is pending, as the end of the loop (incident.c:474-475) does | high (not executed) | Threading.NullStoreCrash, Threading.DoubleDollarProgram | Threading.Threaded (variant Corrected, proved to always complete), used by Threading.BuildCommands |
| incident.c:468-469 | The skip over a command's bytes tests `parsed[i+1] != '$'`, comparing a tag with the byte 36 | The program `a$a$a$` run with `-f`: its command `a$` is tagged 3, 3, 4, 4, 5, 5 (Interpreter.ThreeDollarsLexed), and the skip passes every `$`, so command 1 links to 4 and 5 instead of halting | Test `input[i+1] != '$'`: the skip stops before a `$` and the `$` closes the pending slot with 0; bytes of the same incidence after the `$` start a new run that designates the same slot again | medium (not executed) | Threading.DollarInsideCommand | Threading.SkipStopsAtDollar, with Threading.RunEnd variant Corrected used by Threading.BuildCommands |
