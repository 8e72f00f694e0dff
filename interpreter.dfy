/** The interpreter object: it holds the program, an instruction pointer,
    and the tape it shares with its `ArrayController`, and executes the
    program one instruction at a time, updating everything in place.
    Standard input and output are modelled as a sequence of character
    codes still to be read and a sequence of character codes written. */
module Interpreter {
  import opened Tape
  import opened Brackets
  import opened Semantics

  class BrainfuckInterpreter {
    const tape: ArrayController
    const sourcecode: seq<char>
    const length: nat
    const showArray: bool
    var position: nat
    var input: seq<nat>
    var output: seq<nat>

    ghost predicate Valid()
      reads this, tape
    {
      tape.Valid() && length == |sourcecode| && position <= length
    }

    /** The whole interpreter state, as a value. */
    function Snapshot(): Config
      reads this, tape
    {
      Config(tape.cells, tape.currentCell, position, input, output)
    }

    /** Starts at the first instruction with nothing written; `input` is
        what standard input will deliver. */
    constructor (sourcecode: seq<char>, arrayController: ArrayController, showArray: bool, input: seq<nat>)
      requires arrayController.Valid()
      ensures Valid()
      ensures this.tape == arrayController && this.sourcecode == sourcecode
      ensures this.length == |sourcecode| && this.showArray == showArray
      ensures position == 0 && this.input == input && output == []
    {
      this.tape := arrayController;
      this.position := 0;
      this.length := |sourcecode|;
      this.sourcecode := sourcecode;
      this.showArray := showArray;
      this.input := input;
      this.output := [];
    }

    /** Executes the instruction at `position`, as `Step` describes. */
    method ExecuteInstruction(instruction: char)
      requires Valid() && position < length && instruction == sourcecode[position]
      requires CanStep(sourcecode, Snapshot())
      modifies this, tape
      ensures Valid()
      ensures Snapshot() == Step(sourcecode, old(Snapshot()))
    {
      if instruction == '+' {
        tape.Increment();
      } else if instruction == '-' {
        tape.Decrement();
      } else if instruction == '>' {
        tape.Right();
      } else if instruction == '<' {
        tape.Left();
      } else if instruction == '.' {
        output := output + [tape.cells[tape.currentCell]];
      } else if instruction == '[' {
        if tape.cells[tape.currentCell] == 0 {
          position := ForwardTarget(sourcecode, position);
          return;
        }
      } else if instruction == ']' {
        if tape.cells[tape.currentCell] != 0 {
          ghost var target := LastOpenBefore(sourcecode, position);
          while sourcecode[position] != '['
            modifies this`position
            invariant target <= position <= old(position)
            decreases position
          {
            position := position - 1;
          }
        }
      } else if instruction == ',' {
        var code: nat := if input == [] then 0 else input[0];
        input := if input == [] then [] else input[1..];
        tape.cells := tape.cells[tape.currentCell := code];
      }
      position := position + 1;
    }

    /** The loop of `run`: executes instructions while `position` is inside
        the program, for at most `fuel` of them, and stops early on a jump
        that cannot be carried out. */
    method Steps(fuel: nat) returns (outcome: Outcome)
      requires Valid()
      modifies this, tape
      ensures Valid()
      ensures var t := Exec(sourcecode, old(Snapshot()), fuel);
        outcome == t.outcome && Snapshot() == t.final
    {
      ghost var current := Snapshot();
      ghost var t := Exec(sourcecode, current, fuel);
      outcome := Halted;
      var remaining := fuel;
      while position < length
        invariant Valid() && current == Snapshot()
        invariant Exec(sourcecode, current, remaining) == t
        decreases remaining
      {
        if remaining == 0 || !CanStep(sourcecode, Snapshot()) {
          outcome := if remaining == 0 then OutOfFuel else Undefined;
          break;
        }
        ExecUnfold(sourcecode, current, remaining);
        ExecuteInstruction(sourcecode[position]);
        current := Step(sourcecode, current);
        remaining := remaining - 1;
      }
      ExecStops(sourcecode, current, remaining);
    }

    /** Runs the program, for at most `fuel` instructions, then dumps the
        tape if asked to and the run halted. */
    method Run(fuel: nat) returns (outcome: Outcome, shown: Option<seq<nat>>)
      requires Valid()
      modifies this, tape
      ensures var t := Exec(sourcecode, old(Snapshot()), fuel);
        outcome == t.outcome &&
        position == t.final.position && input == t.final.input && output == t.final.output &&
        tape.currentCell == t.final.cell &&
        if showArray && outcome == Halted then
          shown == Dump(t.final.cells) &&
          tape.cells == (if shown.None? then t.final.cells else shown.value)
        else
          shown == None && tape.cells == t.final.cells
    {
      outcome := Steps(fuel);
      shown := None;
      if showArray && outcome == Halted {
        shown := tape.ShowArray();
      }
    }
  }

  /** Runs `code` on a fresh tape with `input` as standard input; returns
      how the run ended, what it wrote, and, if `showArray` is set and the
      run halted, the dump of the final tape. */
  method Evaluate(code: seq<char>, showArray: bool, input: seq<nat>, fuel: nat)
    returns (outcome: Outcome, output: seq<nat>, shown: Option<seq<nat>>)
    ensures var t := Exec(code, Initial(input), fuel);
      outcome == t.outcome && output == t.final.output &&
      shown == (if showArray && t.outcome == Halted then Dump(t.final.cells) else None)
  {
    var arrayController := new ArrayController();
    var interpreter := new BrainfuckInterpreter(code, arrayController, showArray, input);
    outcome, shown := interpreter.Run(fuel);
    output := interpreter.output;
  }
}
