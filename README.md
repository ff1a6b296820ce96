# bfint core in Dafny

This project models the core of `bfint`, an optimising Brainfuck interpreter
written in C (`main.c`). The interpreter works in three stages.

1. **Filter.** `get_bf_char` skips every byte that is not one of the eight
   commands `+ - < > , . [ ]`. Its test `strchr("<>+-.,[]", c)` also finds
   the string's terminating NUL, so a 0 byte is kept too. It becomes an op
   that, like `,` and `.`, takes no run and ends the run before it; when
   executed it does nothing.
2. **Build.** `bf_int` appends one op per structural command (`, . [ ]`) or
   per leading run command. `bf_consume` then folds the maximal stretch of
   `+ - < >` that follows into the op's delta buffer `d`. This buffer has a
   window `offset`, a used `size` and a cursor `shift`, and it is trimmed of
   zero deltas at both ends. A `]` is matched backwards against its `[` with
   a bracket count, and both ops record each other's index (`op_ind`). An
   unmatched `]` stops the build.
3. **Optimise and run.** A second pass marks a loop `[ … ]` whose body is a
   single run as `linear` when the run leaves the cursor where it was and
   takes a fixed amount off the counter cell. It warns when that amount is
   negative. The engine then walks the op array on a tape that starts at
   30000 zero cells and grows on demand. `[` and `]` test the cursor cell
   and jump to their partner. A run adds its deltas, scaled by
   `counter / linear` (C's truncating division) on a marked op. `,` stores
   the next input byte (or the EOF value). `.` writes the cell's low byte.

Module by module:

| module | file | what it models |
|---|---|---|
| `Base` | `base.dfy` | `Option`/`Result`, bytes, and `zalloc` (grow a buffer, zero the new cells) |
| `Filter` | `filter.dfy` | `get_bf_char` on a text and a read position; `Commands`, the filtered text |
| `Ops` | `ops.dfy` | `struct bf_op` as a value, and the delta a run window puts on a cell |
| `Runs` | `runs.dfy` | `bf_consume`: the imperative builder on arrays, proved against the specification functions `Fold`, `TrimTail`, `TrimHead` and `Coalesce`, and those proved against the one-command-at-a-time meaning `Cursor`/`Net` |
| `Program` | `program.dfy` | the build loop of `bf_int`: `BuildProgram` is proved against the recursive `Build`; the backward bracket scan is proved against `Scan`, whose meaning is stated through bracket excess |
| `Optimizer` | `optimizer.dfy` | the linear-loop pass: `Optimize` is proved against `Optimized`/`Warnings` |
| `Engine` | `engine.dfy` | the execution loop: `Execute` runs on a growing `array<int>` and is proved against the fuel-bounded small-step `Run`; C's truncating division is `TruncDiv` |
| `Interpreter` | `interpreter.dfy` | `bf_int` as a whole: `BfInt` is proved equal to the reference `Interpret` |
| `Scenarios` | `scenarios.dfy` | small programs that pin down edge behaviour of the code |
| `Programs` | `programs.dfy` | whole texts run end to end: a loop the optimiser marks, and a NUL inside a loop |

The reading stream, `getchar` and `putchar` become values:
- the program text is a `seq<char>`;
- the input is a `seq<Byte>` together with the value `getchar` yields at end of input (`eof`);
- the output is a `seq<Byte>`.

A fatal `exit(1)` becomes `Err(Unbalanced)`. Execution is bounded by a
`fuel` count of engine steps, and its outcome is `Halted`, `Faulted` (an op
would read or write a cell below the tape; the cursor alone may stand below
it, so `<` halts with the cursor at -1) or `OutOfFuel`.

Four behaviours of the code that are easy to miss:
- **Unmatched `[`.** An unmatched `[` is never detected. The op keeps the partner index 0 that zero-filling gave it (`Scenarios.UnmatchedOpenAccepted`).
- **Cells below the tape.** Nothing stops a run such as `<+` from writing one cell below the tape, which is undefined behaviour in C. The model reports `Faulted` there (`Scenarios.BelowTapeFaults`).
- **Cell width.** Cells are C `int`s, and the code does nothing about overflow, which is undefined. The model keeps cells unbounded (see "Left out").
- **The linear pass reads a stale cell.** It reads `d[-offset]` without checking it against `size`. After head trimming, that cell can be a stale copy left in the buffer. The model keeps the whole allocated buffer in each op so that this read matches the code (`Scenarios.StaleEntryRead`).

## Model

| member | source | states |
|---|---|---|
| Base.LowByte | main.c:238-242 | the byte `putchar` writes is congruent to the cell modulo 256 and equals it when the cell already is a byte |
| Base.Extend | main.c:33-46 | the grown sequence keeps the old prefix and holds the zero value in every new place |
| Base.Zalloc | main.c:33-46 | the new buffer is fresh and holds the old contents followed by zeros up to the new length |
| Filter.Commands | main.c:51-64 | the filtered text is no longer than the source and consists only of the eight commands and NUL bytes |
| Filter.GetBfChar | main.c:51-64 | returns the next command or NUL byte at or after the read position and skips only the other bytes; at end of text it returns none; the pending commands are the returned one followed by those after the new position |
| Filter.PendingStep | main.c:51-64 | the commands pending at a position are the byte there if it is a command, then those after it |
| Filter.CommandsSplit | main.c:51-64 | filtering distributes over concatenation |
| Filter.CommandsIdempotent | main.c:51-64 | filtering a filtered text changes nothing |
| Runs.CursorCounts | main.c:100-121 | a run's cursor displacement is the number of `>` minus the number of `<` |
| Runs.Fold | main.c:81-126 | the consumption loop keeps the run cursor inside the buffer and cell 0 of the entry inside the window |
| Runs.Apply | main.c:92-125 | one command keeps the cursor inside the buffer, grows the buffer by at most one cell (to the left only on `<` at its first cell, lowering the offset by one) and moves cursor plus offset by the command's move |
| Runs.ApplyMeaning | main.c:94-121 | one command moves the window cursor by its move and adds its bump to the cell under the cursor only |
| Runs.FoldMeaning | main.c:81-126 | after the loop, the window cursor is the run's net displacement and every cell's delta is the net count of `+` minus `-` applied at it |
| Runs.TrimTail | main.c:129-130 | the trimmed size leaves a nonzero last delta and only zeros were cut |
| Runs.TrimHead | main.c:131-137 | head trimming leaves a nonzero first delta, raises the offset by the number of cells dropped and keeps the last delta |
| Runs.DropFirst | main.c:132-136 | one pass of the head loop moves the cells in use down one place, leaves the cells past them as they were, shrinks the size by one and raises the offset by one |
| Runs.TrimHeadKeepsDeltas | main.c:131-137 | head trimming leaves every cell's delta unchanged |
| Runs.TrimTailKeepsDeltas | main.c:129-130 | tail trimming leaves every cell's delta unchanged |
| Runs.Coalesce | main.c:127-137 | a trimmed run has size within its buffer, its entry cell inside the buffer when the offset is not positive, and nonzero first and last deltas |
| Runs.CoalesceShift | main.c:127 | the run's shift is the number of `>` minus the number of `<` |
| Runs.CoalesceMeaning | main.c:66-140 | the trimmed run puts on every cell exactly the net count of its `+` and `-` there, and its shift is the run's net cursor displacement |
| Runs.TrimIdempotent | main.c:129-137 | trimming a trimmed run again changes nothing |
| Runs.RunLength | main.c:81-126 | the run read is the longest prefix of run commands |
| Runs.RunLengthOf | main.c:81-126 | a split into run commands followed by a non-run command gives exactly that run length |
| Runs.SplitRun | main.c:66-140 | the commands after an op split into the run it takes, the terminator that ends it (none only at end of text) and the rest |
| Runs.ExtendLeft | main.c:103-112 | a step left of the buffer yields a fresh buffer with one zero cell in front of the old cells |
| Runs.TrimTailLoop | main.c:129-130 | the tail loop computes `TrimTail` of the buffer |
| Runs.DropFirstInPlace | main.c:132-136 | one pass of the head loop moves the used cells down by one and leaves the cells past them as they were |
| Runs.DropFirstStep | main.c:131-137 | the buffer one in-place pass leaves, with size one less and offset one more, trims to the same span as before the pass |
| Runs.Trim | main.c:129-137 | both trimming loops together compute `TrimHead` after `TrimTail` |
| Runs.ApplyInPlace | main.c:92-125 | one command applied to the array buffer gives the window `Apply` describes |
| Runs.ReadRun | main.c:81-126 | the consumption loop stops at a terminator or end of text; its buffer is the fold of the run commands consumed, and the commands pending before are that run, then the terminator, then those pending after |
| Runs.RunStart | main.c:70-73 | a run op counts itself as the run's first command; `[` and `]` start with the next command |
| Runs.Finish | main.c:127-137 | the shift and the trimming give exactly `Coalesce` of the run's commands |
| Runs.Consume | main.c:66-140 | `bf_consume` fills the op with `Coalesce` of the run that `SplitRun` reads off the pending commands, and returns the terminator and position after it |
| Program.ExcessAppend | main.c:178-181 | the bracket excess of a concatenation is the sum of the parts' excesses |
| Program.ScanMeaning | main.c:176-186 | the backward scan stops at the last position where the count reaches 0, and finds nothing exactly when the count stays positive at every position |
| Program.PartnerIsOpen | main.c:176-189 | a partner found for `]` is a `[` with a balanced stretch after it, and none is found exactly when no suffix has more `[` than `]` |
| Program.MatchBracket | main.c:174-186 | the while loop computes `Scan` over the ops built before the `]` |
| Program.LinkInPlace | main.c:174-190 | the scan and the two index writes compute `Link` of the ops built so far, failing exactly when it fails |
| Program.Link | main.c:174-189 | linking succeeds exactly when the scan finds a partner, and sets only the two ops' partner indices, each to the other |
| Program.AppendOp | main.c:162-164 | appending keeps every earlier op and adds one op holding the command with every other field zero |
| Program.BuildFromIo | main.c:166-171 | `,` and `.` are appended with no run and the build goes on with the next command |
| Program.BuildFromRun | main.c:162-191 | every other op is appended (and linked if it is `]`), takes the following run, and the build goes on after the run's terminator |
| Program.BuildProgram | main.c:155-192 | the imperative build loop computes `Build` of the text, including the unbalanced-bracket error |
| Program.Build | main.c:155-192 | a successful build is well formed (partner indices in range, sizes within buffers, the entry cell inside the buffer for non-positive offsets, no marks) and pairs its brackets |
| Program.AppendOpWellFormed | main.c:162-171 | appending a zeroed op keeps every earlier op well formed |
| Program.LinkWellFormed | main.c:188-189 | linking keeps partner indices inside the array |
| Program.WithRunWellFormed | main.c:191 | giving the last op its run makes the whole array well formed |
| Program.BuildFromWellFormed | main.c:157-192 | every array the build loop returns is well formed |
| Program.RunOpWellFormed | main.c:162-191 | the step for a run-taking op keeps the array well formed |
| Program.AppendOpPaired | main.c:162-164 | appending an op keeps every earlier `]` paired, and the whole array paired unless the new op is a `]` |
| Program.LinkPaired | main.c:174-190 | linking the `]` just appended pairs it with a `[` that points back to it across a balanced stretch, and leaves every earlier `]` paired |
| Program.LinkPairedAt | main.c:174-190 | each `]` of the linked array closes the `[` it points to |
| Program.LinkChars | main.c:188-189 | linking changes no op's command |
| Program.LinkClosesNew | main.c:176-189 | the `]` just appended is linked to a `[` that points back to it, with a balanced stretch between them |
| Program.ClosedNotScanned | main.c:176-186 | the `[` that an earlier `]` closes is not the one the scan for the new `]` stops at |
| Program.LinkKeepsClosed | main.c:176-189 | the scan for a new `]` never stops at a `[` an earlier `]` already closes, so that `]` keeps its partner |
| Program.PartnerAt | main.c:176-186 | the scan's partner is a `[` followed by a balanced stretch, and no suffix after it holds more `[` than `]` |
| Program.NotRelinked | main.c:176-186 | when a `]` at k closes a balanced stretch that starts after i, either the whole text after i is unbalanced or the text after k holds more `[` than `]`, so the scan for a later `]` cannot stop at i |
| Program.WithRunPaired | main.c:191 | giving an op its run keeps every link and command, so the pairing holds |
| Program.BuildFromPaired | main.c:157-192 | every array the build loop returns pairs each `]` with an earlier `[` that points back to it, with balanced brackets between them |
| Program.RunOpPaired | main.c:162-191 | the step for a run-taking op keeps the array paired |
| Optimizer.Linear | main.c:198-209 | the mark is non-negative, and nonzero exactly when the op is a candidate loop (a `[` linked to the next op, with no shift and a non-positive offset) whose delta buffer holds a negative value at index `-offset`, in which case the mark is that value negated; the index can lie past the trimmed window, where the buffer holds a stale cell |
| Optimizer.Optimized | main.c:194-210 | the pass changes only the `linear` field of each op, to a non-negative value |
| Optimizer.OptimizedPaired | main.c:194-210 | the pass keeps the bracket pairing the build made, which the engine's jumps follow |
| Optimizer.WarningsMeaning | main.c:202-206 | the warnings drawn by the first n ops are strictly increasing indices below n, and an index is among them exactly when its op is a candidate with a negative decrement |
| Optimizer.MarkOp | main.c:198-209 | the test on one op yields its mark and whether it draws a warning |
| Optimizer.Optimize | main.c:194-210 | the pass computes the marked array and the warning list |
| Optimizer.MarkOrWarning | main.c:198-209 | an op is marked exactly when it is a candidate with a positive decrement and warned about exactly when the decrement is negative, never both |
| Engine.TruncDivRemainder | main.c:255 | C division leaves a remainder smaller than the divisor that is 0 or has the sign of the dividend |
| Engine.TruncDivOdd | main.c:255 | C division of a negated dividend negates the quotient |
| Engine.TruncDivNonNegative | main.c:255 | for a non-negative dividend and positive divisor, C division agrees with floor division |
| Engine.TruncDivNegative | main.c:255 | for a negative dividend and a positive divisor, C division equals floor division when the divisor divides the dividend and is one more otherwise |
| Engine.TruncDivMultiple | main.c:255 | a multiple of the divisor divides exactly |
| Engine.Grow | main.c:244-274 | growth keeps every cell and zeroes the new ones |
| Engine.AddRun | main.c:253-263 | adding a scaled run changes each cell by the factor times the run's delta at it |
| Engine.Deposit | main.c:244-264 | the tape grows to cover the run's window (and no further) and every cell gains the factor times the run's delta at it; an empty run changes nothing |
| Engine.ApplyRun | main.c:244-275 | a run faults exactly when its window or, for a marked op, the counter lies below the tape; otherwise the cursor moves by the shift and stays on the tape |
| Engine.ApplyRunMeaning | main.c:244-275 | after a run the tape has grown to cover the window and the shift, and every cell has its old value plus the factor times the run's delta |
| Engine.NaiveRunIsNet | main.c:259-263 | an unmarked run's op changes each cell by the net `+`/`-` count of its commands and moves the cursor by their net displacement |
| Engine.PassesScale | main.c:253-258 | n passes of the loop body add n times the body's deltas |
| Engine.LinearIsPasses | main.c:253-258 | when the entry cell lies inside the trimmed window (`-offset < size`) and its delta is minus the mark, and the counter is a non-negative multiple n of the mark, the marked run leaves the tape that n naive passes of the body leave, and the counter ends at 0; for the stale-marked `[<-<>>]` the entry cell is outside the window and the counter never reaches 0 |
| Engine.CounterCountsDown | main.c:253-258 | each pass of a marked loop's body lowers the counter by the mark, ending at 0 |
| Engine.LinearRunScales | main.c:253-258 | a marked run adds its deltas scaled by counter/mark and leaves the cursor in place |
| Engine.CounterAfter | main.c:253-258 | after j passes the counter is (n - j) times the mark |
| Engine.Start | main.c:212-214 | execution starts at op 0 on 30000 zero cells with the cursor at 0, all input pending and no output |
| Engine.ReadInput | main.c:235 | `getchar` yields the EOF value at end of input, and otherwise the next input byte, which the input then starts with |
| Engine.Land | main.c:223-232 | landing on an op keeps the machine inside the program and its input and output unchanged |
| Engine.Step | main.c:221-276 | one step keeps the machine inside the program, only extends the output, and only consumes input |
| Engine.RunBounds | main.c:221-276 | execution halts exactly when the program counter reaches the end, fuel runs out only inside the program, output only grows and input is only consumed |
| Engine.RunUnfold | main.c:221-276 | a run with fuel is one step followed by the rest, or `Faulted` if the step faults |
| Engine.IoKeepsCursor | main.c:233-242 | `,` stores the next input byte or the EOF value in the cursor cell; `.` appends the cell's low byte; neither moves the cursor or runs a run |
| Engine.BracketControl | main.c:223-232 | `[` on zero and `]` on nonzero jump to the partner, whose run is then applied; otherwise the bracket's own run is applied |
| Engine.AddInPlace | main.c:253-263 | the in-place addition loop computes `AddRun` |
| Engine.Reserve | main.c:247-251 | growing the tape array computes `Grow` |
| Engine.DepositInPlace | main.c:244-274 | the grow-and-add stage on the array computes `Deposit` |
| Engine.ApplyRunInPlace | main.c:244-275 | applying an op's run on the array succeeds exactly when `ApplyRun` does, with the same tape and cursor |
| Engine.IoInPlace | main.c:233-242 | `,` or `.` on the array tape makes the step `Step` describes, with the cursor in place |
| Engine.StepInPlace | main.c:221-276 | one iteration of the execution loop on the array computes `Step` |
| Engine.Advance | main.c:221-276 | one iteration either leaves a machine whose remaining run equals the original's, or faults exactly as `Run` does |
| Engine.Execute | main.c:212-276 | the execution loop on a fresh 30000-cell tape returns the status and output of `Run` from the start state |
| Interpreter.OptimizedRunnable | main.c:194-210 | the optimised program of a well-formed build can be run |
| Interpreter.MarkedLoopIsPasses | main.c:194-258 | a loop the optimiser marks whose entry cell lies inside the trimmed window does, on a counter that is a multiple n of its mark, what n naive passes of its body do, leaving the counter at 0 |
| Interpreter.Interpret | main.c:142-287 | the interpreter fails exactly when the build fails |
| Interpreter.BfInt | main.c:142-287 | building, optimising and executing computes `Interpret` |
| Interpreter.CommentsIgnored | main.c:51-64 | a text and the commands and NUL bytes it holds behave identically |
| Interpreter.CommentInsertion | main.c:51-64 | inserting a comment that holds no command and no NUL byte anywhere in a program changes nothing |
| Scenarios.UnmatchedOpenAccepted | main.c:174-189 | `[` alone builds, with partner index 0 |
| Scenarios.UnmatchedCloseRejected | main.c:182-186 | `+]` fails with unbalanced brackets |
| Scenarios.StaleEntryRead | main.c:198-201 | for `[<-<>>]` the run leaves a stale -1 at the entry cell's index, so the loop is marked with 1 although the body does not change the counter |
| Scenarios.BelowTapeFaults | main.c:244-263 | `<+` touches the cell below the tape and faults with no output |
| Scenarios.OutputIsLowByte | main.c:238-242 | `-.` halts having written the byte 255 |
| Scenarios.EchoOneByte | main.c:233-242 | `,.` on input 65 writes 65 back |
| Scenarios.PlusPlusPlusDot | main.c:244-264 | `+++.` becomes one run op and a `.`, and writes 3 |
| Programs.EightByEightWrites64 | main.c:142-276 | `++++++++[>++++++++<-]>.` builds four ops with the brackets linked, the optimiser marks the `[` with 1 and warns about nothing, and 64 is written |
| Programs.MarkedPass | main.c:253-258 | in that program, the marked `[` applied once to a counter of 8 leaves the tape that eight naive passes of its body leave: 0 in the counter and 64 in the next cell |
| Programs.NulSplitsLoop | main.c:51-64 | a NUL byte inside `[+]` becomes an op between the brackets, so the `[` is no longer a candidate and the warning that `[+]` draws is not given |

## Left out

- Reading from a `FILE*`, `getchar` and `putchar` are modelled as a text, an input sequence and an output sequence; the value `getchar` returns at end of input is the parameter `eof`.
- The messages printed to stderr and the process exit status are not modelled; the fatal exit for unbalanced brackets becomes `Err(Unbalanced)`, and the infinite-loop warning becomes the list of warned op indices.
- Allocation failure ("Out of memory") and the exit it causes are not modelled: allocation always succeeds.
- The "Overflow detected in op_arr" check compares two pointers into the same array and cannot fire; it is not modelled.
- The `db` debug buffer of each op is never read by the interpreter and is not modelled.
- The `op` pointer of each op is replaced by the partner index `opInd` it is computed from.
- Freeing the op array, the delta buffers and the tape is not modelled (memory is garbage collected).
- `main`, `usage` and option parsing are outside the interpreter core and are not modelled.
- The program text is a sequence of characters; every character other than the eight commands and NUL is skipped, as every such byte is in C.
- Cells and deltas are unbounded integers. C `int` overflow is undefined behaviour, and the code does nothing to wrap.
- Writing below the tape is undefined behaviour in C. The model stops with `Faulted` before changing anything.
- Engine.Run: execution is bounded by a fuel count, so a program that loops forever ends in `OutOfFuel`; there is no lemma that more fuel preserves a finished outcome.
- The default branch of `bf_consume` that reports an unexpected character cannot be reached, because only run commands reach it; it is not modelled.
- Engine.Execute: the tape and the delta buffers are arrays, but the op array is a sequence of values, so aliasing between ops is not modelled.
