/** The meaning of one instruction and of a whole run, as functions on an
    immutable snapshot of the interpreter. These are the specifications
    that the in-place interpreter is proved against. */
module Semantics {
  import opened Tape
  import opened Brackets

  /** Everything an instruction can read or change: the tape, the data
      pointer, the instruction pointer, the unread input and the output
      written so far. Input and output are character codes. */
  datatype Config = Config(
    cells: seq<nat>,
    cell: nat,
    position: nat,
    input: seq<nat>,
    output: seq<nat>)

  /** How a bounded run ends. `Undefined` is a jump the source cannot
      complete: a `[` whose rank exceeds the number of `]` (an IndexError
      there), or a `]` with no `[` before it (a walk into negative
      indices there). */
  datatype Outcome = Halted | OutOfFuel | Undefined

  datatype Trace = Trace(outcome: Outcome, final: Config)

  predicate WellFormed(code: seq<char>, c: Config)
  {
    |c.cells| == ARRAY_LENGTH && c.cell < ARRAY_LENGTH && c.position <= |code|
  }

  /** A fresh tape, pointers at 0, nothing written yet. */
  function Initial(input: seq<nat>): (c: Config)
    ensures |c.cells| == ARRAY_LENGTH && AllZero(c.cells)
    ensures c.cell == 0 && c.position == 0 && c.input == input && c.output == []
  {
    Config(seq(ARRAY_LENGTH, _ => 0), 0, 0, input, [])
  }

  /** The instruction at the instruction pointer can be carried out. */
  predicate CanStep(code: seq<char>, c: Config)
    requires WellFormed(code, c)
  {
    c.position < |code| &&
    var p, v := c.position, c.cells[c.cell];
    (code[p] == '[' && v == 0 ==> ForwardDefined(code, p)) &&
    (code[p] == ']' && v != 0 ==> BackwardDefined(code, p))
  }

  /** One execution of the instruction at the instruction pointer. */
  function Step(code: seq<char>, c: Config): (r: Config)
    requires WellFormed(code, c) && CanStep(code, c)
    ensures WellFormed(code, r)
    ensures r.position < |code| || r.position == c.position + 1
    ensures c.output <= r.output
  {
    var p, v := c.position, c.cells[c.cell];
    var next := p + 1;
    match code[p]
    case '+' => c.(cells := c.cells[c.cell := IncrementCell(v)], position := next)
    case '-' => c.(cells := c.cells[c.cell := DecrementCell(v)], position := next)
    case '>' => c.(cell := MoveRight(c.cell), position := next)
    case '<' => c.(cell := MoveLeft(c.cell), position := next)
    case '.' => c.(output := c.output + [v], position := next)
    case '[' => if v == 0 then c.(position := ForwardTarget(code, p)) else c.(position := next)
    case ']' => if v != 0 then c.(position := LastOpenBefore(code, p) + 1) else c.(position := next)
    case ',' =>
      if c.input == [] then c.(cells := c.cells[c.cell := 0], position := next)
      else c.(cells := c.cells[c.cell := c.input[0]], input := c.input[1..], position := next)
    case _ => c.(position := next)
  }

  /** Repeat `Step` while the instruction pointer is inside the program,
      for at most `fuel` instructions. */
  function Exec(code: seq<char>, c: Config, fuel: nat): (t: Trace)
    requires WellFormed(code, c)
    ensures WellFormed(code, t.final)
    ensures t.outcome == Halted <==> t.final.position >= |code|
    ensures t.outcome == Undefined ==> !CanStep(code, t.final)
    ensures c.output <= t.final.output
    decreases fuel
  {
    if c.position >= |code| then Trace(Halted, c)
    else if fuel == 0 then Trace(OutOfFuel, c)
    else if !CanStep(code, c) then Trace(Undefined, c)
    else Exec(code, Step(code, c), fuel - 1)
  }

  /** A run with fuel left, inside the program, and able to step, takes
      that step. */
  lemma ExecUnfold(code: seq<char>, c: Config, fuel: nat)
    requires WellFormed(code, c) && CanStep(code, c) && fuel > 0
    ensures Exec(code, c, fuel) == Exec(code, Step(code, c), fuel - 1)
  {
  }

  /** A run that is past the end, out of fuel, or stuck ends where it is. */
  lemma ExecStops(code: seq<char>, c: Config, fuel: nat)
    requires WellFormed(code, c)
    requires c.position >= |code| || fuel == 0 || !CanStep(code, c)
    ensures Exec(code, c, fuel) == Trace(
      if c.position >= |code| then Halted else if fuel == 0 then OutOfFuel else Undefined, c)
  {
  }

  // ---------------------------------------------------------------------
  // One instruction at a time.
  // ---------------------------------------------------------------------

  /** `+` and `-` change the current cell, modulo 2^BITS, and nothing
      else but the instruction pointer, which moves on by one. */
  lemma ArithmeticChangesOnlyCurrentCell(code: seq<char>, c: Config)
    requires WellFormed(code, c) && c.position < |code|
    requires code[c.position] == '+' || code[c.position] == '-'
    ensures CanStep(code, c)
    ensures var v := c.cells[c.cell];
      Step(code, c) == c.(
        cells := c.cells[c.cell := if code[c.position] == '+' then IncrementCell(v) else DecrementCell(v)],
        position := c.position + 1)
  {
  }

  /** `>` and `<` move the data pointer around the ring and change nothing
      else but the instruction pointer, which moves on by one. */
  lemma MovesChangeOnlyPointer(code: seq<char>, c: Config)
    requires WellFormed(code, c) && c.position < |code|
    requires code[c.position] == '>' || code[c.position] == '<'
    ensures CanStep(code, c)
    ensures Step(code, c) == c.(
      cell := if code[c.position] == '>' then MoveRight(c.cell) else MoveLeft(c.cell),
      position := c.position + 1)
  {
  }

  /** A character that is not one of the eight instructions does nothing
      but move the instruction pointer on. */
  lemma OtherCharactersAreNoOps(code: seq<char>, c: Config)
    requires WellFormed(code, c) && c.position < |code|
    requires code[c.position] !in "+-<>.,[]"
    ensures CanStep(code, c)
    ensures Step(code, c) == c.(position := c.position + 1)
  {
  }

  /** `.` appends the current cell to the output and changes nothing else
      but the instruction pointer. */
  lemma OutputAppendsCurrentCell(code: seq<char>, c: Config)
    requires WellFormed(code, c) && c.position < |code| && code[c.position] == '.'
    ensures CanStep(code, c)
    ensures Step(code, c) == c.(output := c.output + [c.cells[c.cell]], position := c.position + 1)
  {
  }

  /** `,` stores the next input code unreduced, or 0 once the input is
      exhausted, and consumes one input item if there is one. */
  lemma InputStoresNextCode(code: seq<char>, c: Config)
    requires WellFormed(code, c) && c.position < |code| && code[c.position] == ','
    ensures CanStep(code, c)
    ensures Step(code, c) == c.(
      cells := c.cells[c.cell := if c.input == [] then 0 else c.input[0]],
      input := if c.input == [] then [] else c.input[1..],
      position := c.position + 1)
  {
  }

  /** `[` on a zero cell lands on a `]` (the k-th from the end, k being the
      rank of the `[`), without touching the tape. The next step executes
      that `]`, which, the cell still being zero, just moves on. */
  lemma OpenOnZeroSkipsPastClose(code: seq<char>, c: Config)
    requires WellFormed(code, c) && CanStep(code, c)
    requires code[c.position] == '[' && c.cells[c.cell] == 0
    ensures var r := Step(code, c);
      r == c.(position := r.position) &&
      code[r.position] == ']' &&
      Count(code[r.position..], ']') == OpenerRank(code, c.position) &&
      CanStep(code, r) &&
      Step(code, r) == c.(position := r.position + 1)
  {
  }

  /** `[` on a nonzero cell enters the loop body. */
  lemma OpenOnNonzeroEnters(code: seq<char>, c: Config)
    requires WellFormed(code, c) && c.position < |code|
    requires code[c.position] == '[' && c.cells[c.cell] != 0
    ensures CanStep(code, c)
    ensures Step(code, c) == c.(position := c.position + 1)
  {
  }

  /** `]` on a nonzero cell resumes just after the nearest `[` before it,
      so the condition of that `[` is not evaluated again. */
  lemma CloseOnNonzeroLoopsBack(code: seq<char>, c: Config)
    requires WellFormed(code, c) && CanStep(code, c)
    requires code[c.position] == ']' && c.cells[c.cell] != 0
    ensures var r := Step(code, c);
      r == c.(position := r.position) &&
      0 < r.position <= c.position &&
      code[r.position - 1] == '[' &&
      forall i :: r.position <= i < c.position ==> code[i] != '['
  {
  }

  /** `]` on a zero cell leaves the loop. */
  lemma CloseOnZeroExits(code: seq<char>, c: Config)
    requires WellFormed(code, c) && c.position < |code|
    requires code[c.position] == ']' && c.cells[c.cell] == 0
    ensures CanStep(code, c)
    ensures Step(code, c) == c.(position := c.position + 1)
  {
  }

  // ---------------------------------------------------------------------
  // Whole runs.
  // ---------------------------------------------------------------------

  /** Every character other than a bracket (the six other instructions
      and any other character) can always be carried out and moves the
      instruction pointer on by exactly one. */
  lemma NonBracketAdvances(code: seq<char>, c: Config)
    requires WellFormed(code, c) && c.position < |code|
    requires code[c.position] != '[' && code[c.position] != ']'
    ensures CanStep(code, c) && Step(code, c).position == c.position + 1
  {
  }

  /** Without brackets every instruction is possible and moves on by one,
      so a run halts exactly when it was given enough fuel for every
      remaining instruction, and never reports an undefined jump. */
  lemma {:induction false} NoBracketsRunsStraightThrough(code: seq<char>, c: Config, fuel: nat)
    requires WellFormed(code, c)
    requires '[' !in code && ']' !in code
    ensures Exec(code, c, fuel).outcome != Undefined
    ensures Exec(code, c, fuel).outcome == Halted <==> fuel >= |code| - c.position
    decreases fuel
  {
    if c.position < |code| && fuel > 0 {
      assert code[c.position] in code;
      NonBracketAdvances(code, c);
      NoBracketsRunsStraightThrough(code, Step(code, c), fuel - 1);
    }
  }

  /** From the initial state, a bracket-free program halts after exactly
      |code| instructions: |code| is enough and |code| - 1 is not. */
  lemma NoBracketsHaltsAfterLength(code: seq<char>, input: seq<nat>)
    requires '[' !in code && ']' !in code
    ensures Exec(code, Initial(input), |code|).outcome == Halted
    ensures |code| > 0 ==> Exec(code, Initial(input), |code| - 1).outcome == OutOfFuel
  {
    NoBracketsRunsStraightThrough(code, Initial(input), |code|);
    if |code| > 0 {
      NoBracketsRunsStraightThrough(code, Initial(input), |code| - 1);
    }
  }
}
