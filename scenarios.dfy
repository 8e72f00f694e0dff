/** Whole programs run through the specification of the interpreter. */
module Scenarios {
  import opened Tape
  import opened Brackets
  import opened Semantics

  /** `++.` on a fresh tape writes the code 2 and halts after 3 steps. */
  lemma IncrementTwiceThenOutput(code: seq<char>, input: seq<nat>)
    requires code == "++."
    ensures Exec(code, Initial(input), 3).outcome == Halted
    ensures Exec(code, Initial(input), 3).final.output == [2]
  {
    var c0 := Initial(input);
    ArithmeticChangesOnlyCurrentCell(code, c0);
    ExecUnfold(code, c0, 3);
    var c1 := Step(code, c0);
    assert c1.cells[0] == 1;
    ArithmeticChangesOnlyCurrentCell(code, c1);
    ExecUnfold(code, c1, 2);
    var c2 := Step(code, c1);
    assert c2.cells[0] == 2;
    OutputAppendsCurrentCell(code, c2);
    ExecUnfold(code, c2, 1);
  }

  /** `,.` copies the first input code to the output unchanged, and writes
      0 when there is no input. */
  lemma ReadThenWrite(code: seq<char>, input: seq<nat>)
    requires code == ",."
    ensures Exec(code, Initial(input), 2).outcome == Halted
    ensures Exec(code, Initial(input), 2).final.output == [if input == [] then 0 else input[0]]
  {
    var c0 := Initial(input);
    InputStoresNextCode(code, c0);
    ExecUnfold(code, c0, 2);
    var c1 := Step(code, c0);
    OutputAppendsCurrentCell(code, c1);
    ExecUnfold(code, c1, 1);
  }

  /** `+[-]` enters the loop once, clears the cell, and halts after 4
      steps with the current cell at 0. */
  lemma ClearLoop(code: seq<char>, input: seq<nat>)
    requires code == "+[-]"
    ensures var t := Exec(code, Initial(input), 4);
      t.outcome == Halted && t.final.cell == 0 && t.final.cells[0] == 0
  {
    var c0 := Initial(input);
    ArithmeticChangesOnlyCurrentCell(code, c0);
    ExecUnfold(code, c0, 4);
    var c1 := Step(code, c0);
    assert c1.cells[0] == 1;
    OpenOnNonzeroEnters(code, c1);
    ExecUnfold(code, c1, 3);
    var c2 := Step(code, c1);
    ArithmeticChangesOnlyCurrentCell(code, c2);
    ExecUnfold(code, c2, 2);
    var c3 := Step(code, c2);
    assert c3.cells[0] == 0;
    CloseOnZeroExits(code, c3);
    ExecUnfold(code, c3, 1);
  }

  /** The state of `[->+<]` just after its `[`: pointer on cell 0, which
      holds `a`, with `b` in cell 1. */
  predicate AtLoopBody(c: Config, a: nat, b: nat)
  {
    |c.cells| == ARRAY_LENGTH && c.cell == 0 && c.position == 1 &&
    c.cells[0] == a && c.cells[1] == b
  }

  /** `->` of the body of `[->+<]`: takes one from cell 0 and moves to
      cell 1. */
  lemma LoopBodyFirstHalf(code: seq<char>, c: Config, a: nat, fuel: nat) returns (next: Config)
    requires code == "[->+<]"
    requires WellFormed(code, c) && c.cell == 0 && c.position == 1
    requires c.cells[0] == a && 0 < a < CELL_MODULUS && fuel >= 2
    ensures WellFormed(code, next)
    ensures Exec(code, c, fuel) == Exec(code, next, fuel - 2)
    ensures next == c.(cells := c.cells[0 := a - 1], cell := 1, position := 3)
  {
    ArithmeticChangesOnlyCurrentCell(code, c);
    ExecUnfold(code, c, fuel);
    var c1 := Step(code, c);
    MovesChangeOnlyPointer(code, c1);
    ExecUnfold(code, c1, fuel - 1);
    next := Step(code, c1);
  }

  /** `+<` of the body of `[->+<]`: adds one to cell 1 and moves back to
      cell 0. */
  lemma LoopBodySecondHalf(code: seq<char>, c: Config, b: nat, fuel: nat) returns (next: Config)
    requires code == "[->+<]"
    requires WellFormed(code, c) && c.cell == 1 && c.position == 3
    requires c.cells[1] == b && b + 1 < CELL_MODULUS && fuel >= 2
    ensures WellFormed(code, next)
    ensures Exec(code, c, fuel) == Exec(code, next, fuel - 2)
    ensures next == c.(cells := c.cells[1 := b + 1], cell := 0, position := 5)
  {
    ArithmeticChangesOnlyCurrentCell(code, c);
    ExecUnfold(code, c, fuel);
    var c1 := Step(code, c);
    MovesChangeOnlyPointer(code, c1);
    ExecUnfold(code, c1, fuel - 1);
    next := Step(code, c1);
  }

  /** The `]` of `[->+<]`: back to just after the `[` while cell 0 is
      nonzero, past the end once it is zero. */
  lemma LoopClose(code: seq<char>, c: Config, fuel: nat) returns (next: Config)
    requires code == "[->+<]"
    requires WellFormed(code, c) && c.position == 5 && fuel >= 1
    ensures WellFormed(code, next)
    ensures Exec(code, c, fuel) == Exec(code, next, fuel - 1)
    ensures next == c.(position := if c.cells[c.cell] == 0 then 6 else 1)
  {
    assert code[5] == ']' && code[0] in code[..5];
    if c.cells[c.cell] == 0 {
      CloseOnZeroExits(code, c);
    } else {
      CloseOnNonzeroLoopsBack(code, c);
      assert code[1] != '[' && code[2] != '[' && code[3] != '[' && code[4] != '[';
    }
    ExecUnfold(code, c, fuel);
    next := Step(code, c);
  }

  /** One pass through the body of `[->+<]`; the `]` then either loops
      back to just after the `[` or, cell 0 now being empty, falls through
      to the end. */
  lemma LoopPass(code: seq<char>, c: Config, a: nat, b: nat, fuel: nat) returns (next: Config)
    requires code == "[->+<]"
    requires AtLoopBody(c, a, b) && 0 < a && a + b < CELL_MODULUS && fuel >= 5
    ensures WellFormed(code, next) && next.cell == 0
    ensures Exec(code, c, fuel) == Exec(code, next, fuel - 5)
    ensures |next.cells| == |c.cells| && next.cells[0] == a - 1 && next.cells[1] == b + 1
    ensures forall i :: 2 <= i < |c.cells| ==> next.cells[i] == c.cells[i]
    ensures next.position == if a == 1 then 6 else 1
  {
    var c2 := LoopBodyFirstHalf(code, c, a, fuel);
    var c4 := LoopBodySecondHalf(code, c2, b, fuel - 2);
    next := LoopClose(code, c4, fuel - 4);
  }

  /** After `a` passes through the body of `[->+<]` cell 0 is empty and the
      `]` falls through, leaving `a + b` in cell 1 and the rest of the tape
      as it was. */
  lemma {:induction false} MoveLoopAdds(code: seq<char>, c: Config, a: nat, b: nat)
    requires code == "[->+<]"
    requires AtLoopBody(c, a, b) && 0 < a && a + b < CELL_MODULUS
    ensures var t := Exec(code, c, 5 * a);
      t.outcome == Halted && t.final.cell == 0 && |t.final.cells| == |c.cells| &&
      t.final.cells[0] == 0 && t.final.cells[1] == a + b &&
      forall i :: 2 <= i < |c.cells| ==> t.final.cells[i] == c.cells[i]
    decreases a
  {
    var next := LoopPass(code, c, a, b, 5 * a);
    if a > 1 {
      MoveLoopAdds(code, next, a - 1, b + 1);
    }
  }

  /** `[->+<]` with 3 in cell 0 and 0 in cell 1 ends with 0 and 3. */
  lemma MoveAndClear(code: seq<char>, input: seq<nat>)
    requires code == "[->+<]"
    ensures var start := Initial(input).(cells := Initial(input).cells[0 := 3]);
      var t := Exec(code, start, 16);
      t.outcome == Halted && t.final.cells[0] == 0 && t.final.cells[1] == 3
  {
    var start := Initial(input).(cells := Initial(input).cells[0 := 3]);
    assert start.cells[0] == 3 && start.cells[1] == 0;
    assert WellFormed(code, start);
    OpenOnNonzeroEnters(code, start);
    ExecUnfold(code, start, 16);
    MoveLoopAdds(code, start.(position := 1), 3, 0);
  }
}
