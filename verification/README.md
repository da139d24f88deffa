# The bfin / bfvm brainfuck engine, in Dafny

The repository has two brainfuck interpreters, `src/bfin.c` and `src/bfvm.c`.
They are near copies of one design. Both keep the tape in a doubly linked list
of fixed-size byte chunks and grow it lazily at either end. Both resolve a `[`
by scanning forward with a nesting counter (`match_right`). Both remember the
`[` of the loops being repeated on a jump stack. Both run a line of program
text with one cursor (`execute`).

This project models that engine once. A `Variant` parameter covers the two
ways the programs differ:

- the reserve subtracted from the page size to get the chunk length (32 in
  bfin, 8 in bfvm);
- what a fresh chunk holds: anything in bfin, whose chunks come from
  `malloc`, and zeros in bfvm, whose chunks come from `calloc`.

Files, one module each:

| file | module | what it holds |
|---|---|---|
| base.dfy | `Base` | bytes, `Option`, 8-bit wrap-around, the byte stored at end of input |
| setup.dfy | `Setup` | the two variants, the chunk length, chunk fill, `Config` |
| tape.dfy | `Chunked` | the chunked tape: start-up, read, write, `>`/`<` with lazy growth, `+`/`-` |
| flat.dfy | `Flat` | the flat bi-infinite tape, and the proof that the chunked tape implements it |
| brackets.dfy | `Brackets` | `match_right`, and its specification as the least balanced match |
| jumpstack.dfy | `JumpStack` | `push_jump` and `pop_jump` on a sequence of positions |
| engine.dfy | `Engine` | the dispatch of `execute`, one step, fuel-bounded runs, `execute` on a line |
| reference.dfy | `Reference` | brainfuck on the flat tape, and the lock-step refinement of the engine |
| wellformed.dfy | `WellFormed` | balanced programs: the stack is always the open brackets, and no error exit is taken |
| laws.dfy | `Laws` | what one step does, operator by operator |
| runlaws.dfy | `RunLaws` | whole-run laws: a run of `+`/`-` adds up modulo 256, and `[-]` clears a cell |
| samples.dfy | `Samples` | complete `execute` calls on tiny lines: counting and echo, the crash, a diagnostic, end of input |

Modelling choices:

- **Tape.** The tape is a sequence of chunks, leftmost first. It also holds
  the index of the start-up chunk (`origin`), the current chunk (`cur`, the C
  `page`) and the offset in it (`off`, the C `data - page->mem`). The chunk
  list only ever grows at its ends, so a sequence loses nothing. The absolute
  position is `(cur - origin) * chunkLen + off`. `Cell(p)` reads the tape
  through that flat view.
- **Fresh chunks.** A chunk that is not allocated yet reads as what the
  allocator will put there: zero for `calloc`, or `junk(p)` for `malloc`.
  Here `junk` is an arbitrary function of the absolute position, passed as a
  parameter. Each chunk is allocated at most once, so this covers every
  `malloc` outcome.
- **Positions.** Program positions are indices into the line, where C uses
  `char *`. The end of the sequence plays the part of the terminating NUL.
  `Execute` first cuts the line at its first NUL (`Text`), as the C loop
  stops there.
- **Cells.** Cells are bytes 0..255. `+` and `-` wrap modulo 256.
- **End of input.** `,` at end of input stores 255. That is `getchar`'s EOF
  truncated to a `char`.
- **Streams and fuel.** Standard input and output are byte sequences.
  Programs need not halt, so a run takes a number of steps (`fuel`). A
  `Running` status at the end means the fuel ran out.
- **Exits.** The two diagnostics end one `execute` call with status
  `Diagnosed`, and the tape keeps what was written. A `]` on a zero cell
  with an empty stack is `Crashed`: bfin fails the assertion in `pop_jump`,
  and bfvm dereferences NULL there.
- **Dispatch.** The control logic is written once (`Engine.Dispatch`). The
  chunked engine and the flat reference machine both use it, so the
  refinement proof covers only the tape.

Three behaviours of the code at the edges, which the model keeps:

- `,` at end of input stores 255: `getchar`'s EOF is stored into a `char`
  cell (src/bfin.c:518-519, src/bfvm.c:278-279).
- A `[` with no matching `]` on a nonzero cell enters the loop without
  pushing anything and reports nothing (src/bfin.c:531-532).
- A `]` on a zero cell with an empty stack ends the process: `pop_jump`
  fails its assertion in bfin (src/bfin.c:237) and dereferences NULL in bfvm
  (src/bfvm.c:96). It is not the "no matching '['" diagnostic, which needs a
  nonzero cell.

## Model

| member | source | states |
|---|---|---|
| `Base.Wrap` | src/bfin.c:509-514 | the result differs from the cell plus the change by a multiple of 256; `+` turns 255 into 0 and only 255, and `-` turns 0 into 255 and only 0 |
| `Setup.ChunkLenAsWritten` | src/bfin.c:152-156 | the chunk length as computed: within 0..pagesize, and 0 exactly when the page size equals the reserve |
| `Setup.ChunkLenAsWrittenEmpty` | src/bfvm.c:328-330 | a 32-byte page gives bfin empty chunks, and an 8-byte page gives bfvm empty chunks |
| `Setup.ChunkLen` | src/bfin.c:150-156 | the intended chunk length: positive and at most the page; the page less the reserve when that is positive, else the whole page; it equals the as-written value at every page size except the reserve |
| `Setup.FillOf` | src/bfvm.c:114 | a bfvm chunk starts all zero, and a bfin chunk starts with whatever `junk` says |
| `Setup.ConfigFor` | src/bfvm.c:328-333 | start-up settings: a positive chunk length given by the reserve rule, and the variant's fill |
| `Chunked.Init` | src/bfin.c:148-165 | one chunk, the data pointer at offset `chunkLen / 2` (also its absolute position), and every cell at its initial value |
| `Chunked.Read` | src/bfin.c:515-516 | `*data` is the cell at the absolute position of the data pointer |
| `Chunked.Write` | src/bfin.c:518-519 | storing a byte sets the current cell to it; the position, the chunk count and every other cell stay as they were |
| `Chunked.GrowRight` | src/bfin.c:305-320 | `overflow_right`, called on the last chunk as its assertion demands, appends one chunk, keeps every existing chunk and the cursor, and changes no cell |
| `Chunked.GrowLeft` | src/bfin.c:282-295 | `overflow_left`, called on the first chunk as its assertion demands, prepends one chunk, keeps the existing chunks after it, shifts the indices by one, and changes no cell |
| `Chunked.MoveRight` | src/bfin.c:489-498 | `>` keeps the offset inside the chunk and adds exactly 1 to the absolute position; no cell changes; existing chunks are kept as a prefix; a chunk is added only when stepping off the last byte of the last chunk |
| `Chunked.MoveLeft` | src/bfin.c:499-508 | `<` keeps the offset inside the chunk and subtracts exactly 1 from the absolute position; no cell changes; existing chunks are kept as a suffix; a chunk is added only when stepping off the first byte of the first chunk |
| `Chunked.Increment` | src/bfin.c:509-511 | `+` adds 1 modulo 256 to the current cell only; the position stays |
| `Chunked.Decrement` | src/bfin.c:512-514 | `-` subtracts 1 modulo 256 from the current cell only; the position stays |
| `Chunked.MoveRightThenLeft` | src/bfin.c:489-508 | `>` then `<` returns to the same position with every cell unchanged |
| `Chunked.MoveLeftThenRight` | src/bfvm.c:249-268 | `<` then `>` returns to the same position with every cell unchanged |
| `Chunked.FirstCrossingRight` | src/bfvm.c:250-257 | crossing the right end reads the new chunk's initial value, which is 0 under `calloc` |
| `Chunked.FirstCrossingLeft` | src/bfvm.c:260-267 | crossing the left end reads the new chunk's initial value, which is 0 under `calloc` |
| `Chunked.ReturnReadsLastWritten` | src/bfvm.c:252-265 | after a write, stepping away and back in either direction reads the byte written |
| `Flat.Abstract` | src/bfin.c:6-8 | every well-formed chunked tape represents a flat tape: same position, same cells |
| `Flat.InitAgrees` | src/bfvm.c:332-333 | the start-up tape represents the empty flat tape with its head at `chunkLen / 2` |
| `Flat.ReadAgrees` | src/bfin.c:515-516 | reading the chunked tape reads the cell under the flat head |
| `Flat.MoveRightAgrees` | src/bfin.c:489-498 | `>` on the chunked tape is a head shift of +1 on the flat tape |
| `Flat.MoveLeftAgrees` | src/bfin.c:499-508 | `<` on the chunked tape is a head shift of -1 on the flat tape |
| `Flat.WriteAgrees` | src/bfin.c:509-519 | a write to the chunked tape is a write under the flat head |
| `Brackets.Scan` | src/bfvm.c:218-228 | the forward scan returns only positions at or after its start that hold a `]` |
| `Brackets.MatchRight` | src/bfin.c:443-462 | `match_right` returns either nothing or a `]` strictly after the `[` |
| `Brackets.MatchRightIsLeastMatch` | src/bfin.c:436-462 | `match_right` returns the least `j > i` holding a `]` with balanced text strictly between, and returns nothing exactly when no such `j` exists |
| `Brackets.UnmatchedStaysOpen` | src/bfvm.c:215-229 | when no `]` closes the `[`, the text from the `[` to the end opens more than it closes |
| `Brackets.MatchUnique` | src/bfvm.c:207-214 | at most one `]` closes a given `[` |
| `Brackets.BalancedHasMatch` | src/bfin.c:468-469 | in a balanced line every `[` has its `]` |
| `JumpStack.Pop` | src/bfin.c:234-244 | `pop_jump` removes exactly the top entry and keeps the others in order |
| `JumpStack.Push` | src/bfin.c:215-224 | `push_jump` puts the position on top, and popping it gives back the old stack |
| `JumpStack.PushPop` | src/bfvm.c:84-99 | pushing back the top of a popped stack restores it |
| `Engine.Dispatch` | src/bfin.c:488-546 | only a bracket can stop execution, and only with a diagnostic or the crash; an effect on the tape or the streams comes only from the six cell operators, which advance by one and leave the stack alone; any other character is skipped |
| `Engine.Perform` | src/bfin.c:489-520 | an operator's effect keeps the tape well formed, leaves cursor, stack and status alone, appends at most the current cell to the output, and consumes at most one input byte |
| `Engine.Step` | src/bfin.c:487-547 | one loop iteration keeps the machine well formed, changes nothing once execution has stopped, writes at most one byte, consumes input only from the front, and finishes only at the end of the text, with the tape unchanged |
| `Engine.Run` | src/bfvm.c:247-306 | any number of iterations keeps the machine well formed, writes at most one byte per step, and consumes input only from the front |
| `Engine.Text` | src/bfin.c:487 | the text the loop sees is the longest NUL-free prefix of the line |
| `Engine.Execute` | src/bfin.c:473-550 | a NULL line does nothing; otherwise the tape stays well formed, at most one byte is written per step, and input is consumed only from the front |
| `Reference.Lift` | src/bfin.c:6-8 | every engine state has a flat-tape state that it represents |
| `Reference.PerformRefines` | src/bfvm.c:249-280 | each operator's effect on the chunked tape matches its effect on the flat tape |
| `Reference.StepRefines` | src/bfvm.c:247-305 | one step of the engine and of the flat machine keep them in the same state |
| `Reference.RunRefines` | src/bfvm.c:247-306 | any number of steps keep the engine and the flat machine in the same state |
| `Reference.ExecuteRefines` | src/bfin.c:473-550 | `execute` gives the same output, input left over and status as brainfuck on the flat tape, and leaves a tape representing the flat result |
| `Reference.FromStartUp` | src/bfin.c:148-165 | from start-up, `execute` gives the same output, input left over and status as brainfuck on a flat tape whose head starts at `chunkLen / 2`, and leaves a tape representing the flat result |
| `WellFormed.Open` | src/bfin.c:12-16 | the open brackets after a prefix are positions inside that prefix, and each holds a `[` |
| `WellFormed.SkipLoopKeepsOpen` | src/bfin.c:521-530 | skipping a loop in a balanced line lands where the same brackets are open |
| `WellFormed.CloseFindsItsOpen` | src/bfin.c:12-16 | at a `]` of a balanced line, the innermost open `[` is the one it closes |
| `WellFormed.DispatchKeepsOpen` | src/bfin.c:521-545 | in a balanced line, a bracket, given the open brackets as the stack, never stops execution and leaves the open brackets at the new cursor |
| `WellFormed.StepKeepsOpen` | src/bfvm.c:281-304 | on the flat machine, one step of a balanced line keeps the stack equal to the open brackets, takes no error exit, and finishes only at the end with the stack empty |
| `WellFormed.RunKeepsOpen` | src/bfin.c:534-545 | any number of engine steps on a balanced line keep the stack equal to the open brackets and as deep as the nesting, take no error exit, and finish only at the end with the stack empty |
| `WellFormed.BalancedNeverFails` | src/bfin.c:468-470 | `execute` on a balanced line never reports a bracket error and never crashes |
| `WellFormed.TopIsMatch` | src/bfin.c:12-16 | from the start of `execute` on a balanced line, whenever the engine is about to evaluate a `]`, the stack is non-empty and its top is the `[` that `match_right` pairs with that `]` |
| `Laws.StepIncDec` | src/bfin.c:509-514 | `+`/`-` change the current cell by one modulo 256, and no other cell, the position, the stack or the streams |
| `Laws.StepMove` | src/bfin.c:489-508 | `>`/`<` move the absolute position by exactly ±1, keep the offset inside the chunk, and change no cell |
| `Laws.StepIo` | src/bfvm.c:275-280 | `.` appends the current cell to the output; `,` stores the next input byte, or 255 at end of input; neither moves the tape |
| `Laws.StepOpenOnZero` | src/bfin.c:521-530 | `[` on zero goes on exactly when a match exists, landing just past the least match so that `]` is not evaluated; otherwise it stops with "no matching ']'" |
| `Laws.StepOpenOnNonzero` | src/bfin.c:531-532 | `[` on nonzero always goes on to the next character; it pushes its position exactly when a match exists |
| `Laws.StepCloseOnNonzero` | src/bfin.c:535-541 | `]` on nonzero returns past the `[` on top without popping, or stops with "no matching '['" when the stack is empty |
| `Laws.StepCloseOnZero` | src/bfin.c:543-544 | `]` on zero pops the top and goes on; with an empty stack the process dies |
| `Laws.StepOther` | src/bfin.c:488-546 | any other character only advances the cursor |
| `Laws.StepAtEnd` | src/bfin.c:487 | at the terminator the run finishes and nothing else changes |
| `RunLaws.FlatCounterLaw` | src/bfvm.c:269-274 | on the flat tape, a run of `+`/`-` to the end leaves the cell at its value plus the count of `+` minus the count of `-`, modulo 256, and changes nothing else |
| `RunLaws.CounterLaw` | src/bfin.c:509-514 | the same law for the engine itself |
| `RunLaws.ClearLoopRounds` | src/bfin.c:534-544 | inside `[-]` on a nonzero cell, the loop goes round until the cell is zero, then pops and finishes |
| `RunLaws.FlatClearLoop` | src/bfvm.c:281-304 | on the flat tape, `[-]` finishes within twice the cell's value plus two steps, with the cell zero and nothing else changed |
| `RunLaws.ClearLoop` | src/bfin.c:521-545 | the same for the engine itself |
| `Samples.LoneCloseCrashes` | src/bfvm.c:95-99 | bfvm started afresh and given `]` dies in `pop_jump` |
| `Samples.LoneOpenDiagnosed` | src/bfvm.c:283-288 | bfvm started afresh and given `[` stops with "no matching ']'" |
| `Samples.EchoAtEof` | src/bfvm.c:278-279 | on any tape, `,.` with no input left outputs 255 and finishes |
| `Samples.CountToThree` | src/bfvm.c:269-277 | bfvm started afresh and given `+++.` writes exactly the byte 3 and finishes |
| `Samples.Echo` | src/bfin.c:515-520 | on any tape, `,.` with input left writes exactly the next input byte, consumes just that byte, and finishes |

## Left out

- `get_line`/`get_prog` (bfin) and `getline`/`getprog` (bfvm): reading lines and files into buffers is I/O. `Execute` takes the line, or None for the NULL the readers return after reporting a failure.
- `main` in both programs: the prompt loop, `fopen`, and the `sysconf` call. The page size is a positive parameter of `ConfigFor`.
- Standard input and output are byte sequences. The model does not cover buffering, or interleaving with the diagnostics on standard error.
- Allocation failure exits the process. Allocation is total here.
- `free`, `destroy_jumpstack` and the leak of the stack at the two early returns are bookkeeping with no observable effect. The stack of a finished `execute` call is simply dropped.
- The `stack->leftbracket == NULL` test in `]` cannot succeed: stack entries are indices of `[` characters, and `WfMachine` states it.
- `count` in `match_right` is an `int`, and the model's counter is unbounded. Overflowing it is undefined behaviour in C and needs more than 2^31-1 unclosed `[` on one line; `get_line` grows its buffer with `realloc` over a `size_t` length, so such a line can be read on a 64-bit host. The model does not cover that overflow.
- Signed `char`: cells are bytes 0..255. The tests `*data == 0` and `*data != 0` are the same either way.
- `Engine.Run`, `Engine.Execute`: programs need not halt, so runs are bounded by `fuel`. A run still `Running` at the end is cut off, not stuck.
- `Setup.ChunkLen`: the engine is configured with the corrected chunk length. The page size equal to the reserve, which the code as written mishandles, is recorded under Findings and not run through the engine.

## Findings

| source | as written | input that shows it | evidently intended | confidence | as-written member | corrected member |
|---|---|---|---|---|---|---|
| src/bfin.c:152-156 (also src/bfvm.c:328-330) | the small-page guard tests `chunklen < 0`, so a page exactly as large as the reserve leaves `chunklen == 0`. Then `malloc(0)` (src/bfin.c:262) or `calloc(1, 0)` (src/bfvm.c:114) either returns NULL, and the program exits with its allocation error at start-up (src/bfin.c:262-266, src/bfvm.c:114-117), or returns a zero-byte chunk, and the data pointer at offset 0 lies outside it | page size 32 for bfin, or 8 for bfvm | a page that leaves no room after the reserve is used whole (`chunklen <= 0`) | not executed | `Setup.ChunkLenAsWritten`, `Setup.ChunkLenAsWrittenEmpty` | `Setup.ChunkLen` |
