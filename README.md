# bfpython in Dafny

A model of `bfpython.py`, a small interpreter for the eight-instruction
tape language `+ - < > . , [ ]`.

The program has two parts.

- **The tape (`ArrayController`).** It holds 30000 cells, every one 0 at the
  start, and a data pointer `current_cell`. `+` and `-` change the current
  cell modulo 2^8. `>` and `<` move the pointer, wrapping around at both
  ends. `show_array` trims the trailing zero cells off the list in place and
  prints what is left. It prints nothing when every cell is zero.
- **The interpreter (`BrainfuckInterpreter`).** It holds the program as a
  list of characters and an instruction pointer `position`.
  `execute_instruction` performs one instruction. `run` repeats it while
  `position < length`, then dumps the tape if asked to.

Two jump rules make this interpreter unusual, and the model keeps them
exactly as written:

- **`[` on a zero cell.** Count the `[` from the start of the program up to
  and including this one; call it k. Jump to the k-th `]` counted from the
  end of the program. Execution resumes ON that `]`, which then simply
  steps past, because the cell is still zero.
- **`]` on a nonzero cell.** Walk back to the nearest `[` before it,
  whatever lies in between. Execution resumes just AFTER that `[`, so its
  condition is not tested again.

Both rules agree with ordinary bracket matching on a program with a single
loop (`Brackets.SingleLoopJumpsMatch`). They disagree on sibling loops
(`Brackets.ForwardSkipsSiblingLoops`) and on nested loops
(`Brackets.BackwardIgnoresNesting`).

Files and modules:

- `tape.dfy`, module `Tape`: the constants, the cell and pointer
  arithmetic as functions, the trimming of the final dump, and the class
  `ArrayController`, whose methods update `cells` and `currentCell` in
  place. The source's `array` field is called `cells`, because `array` is
  a Dafny keyword.
- `brackets.dfy`, module `Brackets`: the two jump targets, what they are
  characterised by, and a depth-based reference matcher to compare with.
- `semantics.dfy`, module `Semantics`: one instruction (`Step`) and a
  bounded run (`Exec`) as functions on a `Config` value. These are the
  specifications the in-place interpreter is proved against. The module
  also holds the per-instruction and whole-run lemmas.
- `interpreter.dfy`, module `Interpreter`: the class `BrainfuckInterpreter`,
  whose `ExecuteInstruction` and `Run` mutate the state in place, and
  `Evaluate`. The `while` loop of `run` is the method `Steps`, which `Run`
  calls before the dump.
- `scenarios.dfy`, module `Scenarios`: whole small programs run through
  `Exec`.

The source reads standard input one character at a time. The model
replaces it with a sequence of character codes that `,` consumes. Output is
a sequence of character codes that `.` appends to.

The dump is returned as an `Option` value instead of being printed.

The source's own comments call both targets "the corresponding" bracket
(bfpython.py:69, 75). Under ordinary bracket matching by nesting depth
(`Brackets.Matches`), that is the bracket that closes or opens the same
loop. The code does something else, and the model follows the code:

- `[` on a zero cell lands on the `]` itself rather than just after it
  (bfpython.py:73-74). In `[]+.[-]` that `]` is not the corresponding one
  (`Brackets.ForwardSkipsSiblingLoops`).
- `]` on a nonzero cell takes the nearest `[` whatever the nesting, and
  resumes one past it (bfpython.py:78-79, 85). In `[[-]>]` that `[` is not
  the corresponding one (`Brackets.BackwardIgnoresNesting`).

## Model

| member | source | states |
|---|---|---|
| `Tape.IncrementCell` | bfpython.py:25-26 | the new cell value is below 256 and differs from v + 1 by a multiple of 256, for any stored value (input can store codes above 255); so it is v + 1 below the top and wraps 255 to 0 |
| `Tape.CellModulusIsPowerOfBits` | bfpython.py:15-17 | the cell modulus 256 is 2 to the power BITS = 8, the `2 ** BITS` of bfpython.py:26, 29 |
| `Tape.DecrementCell` | bfpython.py:28-29 | the new cell value is below 256 and differs from v - 1 by a multiple of 256, for any stored value; so it is v - 1 above 0 and wraps 0 to 255 |
| `Tape.MoveRight` | bfpython.py:33-34 | the new pointer is below ARRAY_LENGTH; it is p + 1 below the end and wraps ARRAY_LENGTH - 1 to 0 |
| `Tape.MoveLeft` | bfpython.py:37-38 | the new pointer is below ARRAY_LENGTH; it is p - 1 above 0 and wraps 0 to ARRAY_LENGTH - 1 |
| `Tape.IncrementDecrementInverse` | bfpython.py:25-29 | on a value in [0, 256), `+` then `-` and `-` then `+` both give back the value |
| `Tape.RightLeftInverse` | bfpython.py:33-38 | on a valid pointer, `>` then `<` and `<` then `>` both give back the pointer |
| `Tape.IncrementTimesValue` | bfpython.py:25-26 | n increments of an in-range cell give (v + n) mod 256 |
| `Tape.IncrementWrapsAround` | bfpython.py:25-26 | 256 increments restore an in-range cell |
| `Tape.RightTimesValue` | bfpython.py:33-34 | n moves right give (p + n) mod ARRAY_LENGTH |
| `Tape.LeftTimesValue` | bfpython.py:37-38 | n moves left give (p - n) mod ARRAY_LENGTH |
| `Tape.RightWrapsAround` | bfpython.py:33-34 | ARRAY_LENGTH moves right restore the pointer |
| `Tape.LeftWrapsAround` | bfpython.py:37-38 | ARRAY_LENGTH moves left restore the pointer |
| `Tape.Trimmed` | bfpython.py:44-45 | the result is a prefix of the tape; everything cut off is zero; the last kept cell is nonzero; the result is empty exactly when the tape is all zero |
| `Tape.Dump` | bfpython.py:41-46 | nothing exactly when every cell is zero; otherwise a nonempty prefix ending in a nonzero cell, with only zeros after it |
| `Tape.ArrayController.constructor` | bfpython.py:21-23 | 30000 zero cells and the pointer on cell 0 |
| `Tape.ArrayController.Increment` | bfpython.py:25-26 | only the current cell changes, to IncrementCell of its old value; the pointer is unchanged |
| `Tape.ArrayController.Decrement` | bfpython.py:28-29 | only the current cell changes, to DecrementCell of its old value; the pointer is unchanged |
| `Tape.ArrayController.Right` | bfpython.py:33-34 | the pointer becomes MoveRight of the old one; no cell changes |
| `Tape.ArrayController.Left` | bfpython.py:37-38 | the pointer becomes MoveLeft of the old one; no cell changes |
| `Tape.ArrayController.ShowArray` | bfpython.py:41-46 | returns Dump of the old cells; an all-zero array is left intact, otherwise the array becomes exactly what is shown; the pointer is unchanged |
| `Brackets.Count` | bfpython.py:72 | the number of occurrences equals the multiplicity of the character in the sequence |
| `Brackets.Positions` | bfpython.py:73 | one index per occurrence of the character, each pointing at that character, in strictly increasing order |
| `Brackets.PositionsSuffixCount` | bfpython.py:73 | the t-th occurrence is followed, itself included, by exactly \|ps\| - t occurrences, so index \|ps\| - k is the k-th from the end |
| `Brackets.OpenerRank` | bfpython.py:72 | the count of `[` up to and including the one at p is at least 1 and at most p + 1 |
| `Brackets.ForwardTarget` | bfpython.py:71-74 | the target is a `]` of the program followed, itself included, by exactly k `]`, k being the rank of the jumping `[` |
| `Brackets.ForwardTargetUnique` | bfpython.py:72-73 | any `]` with exactly k `]` from it to the end is the forward target |
| `Brackets.SuffixCountDecreases` | bfpython.py:73 | a `]` further left is followed by strictly more `]` |
| `Brackets.LastOpenBefore` | bfpython.py:76-79 | the walk stops on a `[` before p, and no `[` lies strictly between it and p |
| `Brackets.SingleLoopJumpsMatch` | bfpython.py:70-79 | with exactly one `[` before exactly one `]`, both jumps are defined, `[` lands on its `]`, `]` walks back to its `[`, and the two match by depth |
| `Brackets.ForwardSkipsSiblingLoops` | bfpython.py:70-74 | in `[]+.[-]` the first `[` matches the `]` at 1 but jumps to the `]` at 6 |
| `Brackets.BackwardIgnoresNesting` | bfpython.py:76-79 | in `[[-]>]` the last `]` matches the `[` at 0 but walks back to the `[` at 1 |
| `Semantics.Initial` | bfpython.py:21-23 | a fresh state: 30000 zero cells, both pointers at 0, all input unread, no output |
| `Semantics.Step` | bfpython.py:58-85 | one instruction keeps the state well formed, leaves the instruction pointer inside the program or one past where it was, and only extends the output |
| `Semantics.Exec` | bfpython.py:87-89 | a bounded run halts exactly when the instruction pointer is at or past the end; it reports an undefined jump only when the next instruction cannot be carried out; it only extends the output |
| `Semantics.ArithmeticChangesOnlyCurrentCell` | bfpython.py:60-62 | `+` and `-` update the current cell modulo 256 and advance the instruction pointer by 1; nothing else changes |
| `Semantics.MovesChangeOnlyPointer` | bfpython.py:64-66 | `>` and `<` move the data pointer around the ring and advance the instruction pointer by 1; no cell changes |
| `Semantics.OtherCharactersAreNoOps` | bfpython.py:58-85 | a character outside the eight instructions only advances the instruction pointer by 1 |
| `Semantics.OutputAppendsCurrentCell` | bfpython.py:68 | `.` appends the current cell to the output and advances by 1; tape and pointer are unchanged |
| `Semantics.InputStoresNextCode` | bfpython.py:81-83 | `,` stores the next input code unreduced, or 0 when the input is exhausted, consumes it, and advances by 1 |
| `Semantics.OpenOnZeroSkipsPastClose` | bfpython.py:70-74 | `[` on a zero cell lands on the k-th `]` from the end without touching the tape; the next step executes that `]` and moves one past it |
| `Semantics.OpenOnNonzeroEnters` | bfpython.py:70-85 | `[` on a nonzero cell advances by 1 |
| `Semantics.CloseOnNonzeroLoopsBack` | bfpython.py:76-85 | `]` on a nonzero cell resumes one past the nearest `[` before it, with no `[` in between; the tape is unchanged |
| `Semantics.CloseOnZeroExits` | bfpython.py:76-85 | `]` on a zero cell advances by 1 |
| `Semantics.NonBracketAdvances` | bfpython.py:58-85 | every character other than a bracket can always run and advances the instruction pointer by exactly 1 |
| `Semantics.NoBracketsRunsStraightThrough` | bfpython.py:87-89 | without brackets a run never meets an undefined jump, and it halts exactly when its fuel covers the remaining instructions |
| `Semantics.NoBracketsHaltsAfterLength` | bfpython.py:87-89 | a bracket-free program halts after exactly `length` steps: `length` suffices and `length - 1` does not |
| `Interpreter.BrainfuckInterpreter.constructor` | bfpython.py:50-56 | shares the given tape, stores the program and its length, and starts at position 0 with no output |
| `Interpreter.BrainfuckInterpreter.ExecuteInstruction` | bfpython.py:58-85 | the new in-place state is exactly Step of the old one |
| `Interpreter.BrainfuckInterpreter.Steps` | bfpython.py:88-89 | the in-place state after the loop, and how it ended, are exactly those of Exec from the old state |
| `Interpreter.BrainfuckInterpreter.Run` | bfpython.py:87-91 | outcome, pointers, input and output are those of Exec from the old state; after a halted run with the dump requested, the result is Dump of the final tape and the tape is trimmed to it |
| `Interpreter.Evaluate` | bfpython.py:94-96 | the outcome, the output and the optional dump are those of Exec from a fresh tape |
| `Scenarios.IncrementTwiceThenOutput` | bfpython.py:58-89 | `++.` halts after 3 steps having written the code 2 |
| `Scenarios.ReadThenWrite` | bfpython.py:58-89 | `,.` writes back the first input code, or 0 on empty input |
| `Scenarios.ClearLoop` | bfpython.py:58-89 | `+[-]` halts after 4 steps with the current cell 0 |
| `Scenarios.MoveLoopAdds` | bfpython.py:58-89 | `[->+<]` entered with a in cell 0 and b in cell 1 halts after 5a steps with 0 and a + b, the other cells untouched |
| `Scenarios.MoveAndClear` | bfpython.py:58-89 | `[->+<]` with 3 and 0 halts with 0 and 3 |

## Left out

- The command-line entry point `main` (bfpython.py:98-118): argument parsing, opening the file, filtering it to the eight instruction characters, and the catch-all error message. Characters outside the eight are already no-ops in the interpreter.
- Real standard input and output, `chr`, `ord` and `print`. Input and output are sequences of character codes. The dump is returned instead of printed. Unicode and terminal behaviour are not modelled.
- Malformed bracket structures. A `[` whose rank exceeds the number of `]` raises IndexError in the source (bfpython.py:73). A `]` with no `[` before it walks on into Python's negative indices (bfpython.py:78-79). That walk raises IndexError when the program has no `[` at all. Otherwise it stops on the last `[` of the program and leaves the instruction pointer at zero or below. `ExecuteInstruction` requires neither case to happen. `Steps`, and so `Run`, stop with the outcome `Undefined` instead of following either path.
- Interpreter.BrainfuckInterpreter.Run: it and its loop `Steps` take a fuel bound and stops with `OutOfFuel` when the bound is spent. The source loops for as long as the program does, so what happens after the fuel runs out is not modelled.
- Interpreter.BrainfuckInterpreter.ExecuteInstruction: it requires the instruction passed in to be the one at `position`, which is how `run`, its only caller, calls it.
- The two references to one list (`self.array` aliasing `array_controller.array`, bfpython.py:52) are modelled as one tape reached through the interpreter's `tape` field.
- The tape length (30000) and the cell width (8 bits) are fixed constants, as in the source, not parameters.
- Tape.ArrayController.ShowArray: it does not re-establish the tape's length invariant, because the source shortens the list; nothing runs on the tape afterwards.
