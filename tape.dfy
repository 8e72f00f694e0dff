/** The memory of the interpreter: a fixed row of cells, each holding a
    small unsigned number, and a data pointer into that row. Moving the
    pointer past either end wraps around to the other end; arithmetic on a
    cell wraps around modulo 2^BITS. */
module Tape {

  /** Number of cells on the tape. */
  const ARRAY_LENGTH: nat := 30000

  /** Width of a cell in bits. */
  const BITS: nat := 8

  /** 2^BITS: cell arithmetic is done modulo this value. */
  const CELL_MODULUS: nat := 256

  /** 2 to the power `n`. */
  function Pow2(n: nat): (r: nat)
    ensures r >= 1
  {
    if n == 0 then 1 else 2 * Pow2(n - 1)
  }

  /** The cell modulus is 2^BITS, as the source computes it. */
  lemma CellModulusIsPowerOfBits()
    ensures CELL_MODULUS == Pow2(BITS)
  {
    assert Pow2(4) == 16;
  }

  datatype Option<T> = None | Some(value: T)

  // ---------------------------------------------------------------------
  // Cell arithmetic and pointer movement, as pure functions.
  // The source uses Python's `%`, which floors; Dafny's `%` is Euclidean.
  // With a positive modulus both give the same result for every integer
  // numerator, including the `-1` reached by decrementing or moving left
  // from 0.
  // ---------------------------------------------------------------------

  /** A number and its reduction modulo 2^BITS differ by a multiple of
      2^BITS. */
  lemma CellModDiff(x: int)
    ensures (x - x % CELL_MODULUS) % CELL_MODULUS == 0
  {
    assert x - x % CELL_MODULUS == (x / CELL_MODULUS) * CELL_MODULUS;
  }

  /** The new value of a cell after `+`. */
  function IncrementCell(v: nat): (r: nat)
    ensures r < CELL_MODULUS
    ensures v + 1 < CELL_MODULUS ==> r == v + 1
    ensures v == CELL_MODULUS - 1 ==> r == 0
    ensures (v + 1 - r) % CELL_MODULUS == 0
  {
    CellModDiff(v + 1);
    (v + 1) % CELL_MODULUS
  }

  /** The new value of a cell after `-`. */
  function DecrementCell(v: nat): (r: nat)
    ensures r < CELL_MODULUS
    ensures 0 < v <= CELL_MODULUS ==> r == v - 1
    ensures v == 0 ==> r == CELL_MODULUS - 1
    ensures (v - 1 - r) % CELL_MODULUS == 0
  {
    CellModDiff(v - 1);
    (v - 1) % CELL_MODULUS
  }

  /** The new data pointer after `>`. */
  function MoveRight(p: nat): (r: nat)
    ensures r < ARRAY_LENGTH
    ensures p + 1 < ARRAY_LENGTH ==> r == p + 1
    ensures p == ARRAY_LENGTH - 1 ==> r == 0
  {
    (p + 1) % ARRAY_LENGTH
  }

  /** The new data pointer after `<`. */
  function MoveLeft(p: nat): (r: nat)
    ensures r < ARRAY_LENGTH
    ensures 0 < p <= ARRAY_LENGTH ==> r == p - 1
    ensures p == 0 ==> r == ARRAY_LENGTH - 1
  {
    (p - 1) % ARRAY_LENGTH
  }

  /** On an in-range value, `+` and `-` undo each other in either order. */
  lemma IncrementDecrementInverse(v: nat)
    requires v < CELL_MODULUS
    ensures DecrementCell(IncrementCell(v)) == v
    ensures IncrementCell(DecrementCell(v)) == v
  {
  }

  /** On an in-range pointer, `>` and `<` undo each other in either order. */
  lemma RightLeftInverse(p: nat)
    requires p < ARRAY_LENGTH
    ensures MoveLeft(MoveRight(p)) == p
    ensures MoveRight(MoveLeft(p)) == p
  {
  }

  /** The value of a cell after `n` consecutive `+` instructions. */
  function IncrementTimes(v: nat, n: nat): nat
  {
    if n == 0 then v else IncrementCell(IncrementTimes(v, n - 1))
  }

  /** Reducing before or after adding one gives the same cell value. */
  lemma CellModSucc(x: nat)
    ensures (x % CELL_MODULUS + 1) % CELL_MODULUS == (x + 1) % CELL_MODULUS
  {
    var q, r := x / CELL_MODULUS, x % CELL_MODULUS;
    assert x == q * CELL_MODULUS + r;
    if r + 1 == CELL_MODULUS {
      assert x + 1 == (q + 1) * CELL_MODULUS;
    } else {
      assert x + 1 == q * CELL_MODULUS + (r + 1);
    }
  }

  /** `n` increments add `n` modulo 2^BITS. */
  lemma {:induction false} IncrementTimesValue(v: nat, n: nat)
    requires v < CELL_MODULUS
    ensures IncrementTimes(v, n) == (v + n) % CELL_MODULUS
  {
    if n == 0 {
      assert v % CELL_MODULUS == v;
    } else {
      var x := v + n - 1;
      IncrementTimesValue(v, n - 1);
      CellModSucc(x);
      assert IncrementTimes(v, n) == (x % CELL_MODULUS + 1) % CELL_MODULUS;
      assert x + 1 == v + n;
    }
  }

  /** 2^BITS increments bring an in-range cell back to where it started. */
  lemma IncrementWrapsAround(v: nat)
    requires v < CELL_MODULUS
    ensures IncrementTimes(v, CELL_MODULUS) == v
  {
    IncrementTimesValue(v, CELL_MODULUS);
  }

  /** The data pointer after `n` consecutive `>` instructions. */
  function RightTimes(p: nat, n: nat): nat
  {
    if n == 0 then p else MoveRight(RightTimes(p, n - 1))
  }

  /** The data pointer after `n` consecutive `<` instructions. */
  function LeftTimes(p: nat, n: nat): nat
  {
    if n == 0 then p else MoveLeft(LeftTimes(p, n - 1))
  }

  /** Reducing before or after adding one gives the same pointer. */
  lemma PointerModSucc(x: nat)
    ensures (x % ARRAY_LENGTH + 1) % ARRAY_LENGTH == (x + 1) % ARRAY_LENGTH
  {
    var q, r := x / ARRAY_LENGTH, x % ARRAY_LENGTH;
    assert x == q * ARRAY_LENGTH + r;
    if r + 1 == ARRAY_LENGTH {
      assert x + 1 == (q + 1) * ARRAY_LENGTH;
    } else {
      assert x + 1 == q * ARRAY_LENGTH + (r + 1);
    }
  }

  /** Reducing before or after subtracting one gives the same pointer. */
  lemma PointerModPred(x: int)
    ensures (x % ARRAY_LENGTH - 1) % ARRAY_LENGTH == (x - 1) % ARRAY_LENGTH
  {
    var q, r := x / ARRAY_LENGTH, x % ARRAY_LENGTH;
    assert x == q * ARRAY_LENGTH + r;
    if r == 0 {
      assert x - 1 == (q - 1) * ARRAY_LENGTH + (ARRAY_LENGTH - 1);
    } else {
      assert x - 1 == q * ARRAY_LENGTH + (r - 1);
    }
  }

  /** `n` moves to the right advance the pointer by `n` around the ring. */
  lemma {:induction false} RightTimesValue(p: nat, n: nat)
    requires p < ARRAY_LENGTH
    ensures RightTimes(p, n) == (p + n) % ARRAY_LENGTH
  {
    if n > 0 {
      RightTimesValue(p, n - 1);
      assert RightTimes(p, n) == MoveRight((p + n - 1) % ARRAY_LENGTH);
      PointerModSucc(p + n - 1);
    }
  }

  /** `n` moves to the left take the pointer back by `n` around the ring. */
  lemma {:induction false} LeftTimesValue(p: nat, n: nat)
    requires p < ARRAY_LENGTH
    ensures LeftTimes(p, n) == (p - n) % ARRAY_LENGTH
  {
    if n > 0 {
      LeftTimesValue(p, n - 1);
      assert LeftTimes(p, n) == MoveLeft((p - n + 1) % ARRAY_LENGTH);
      PointerModPred(p - n + 1);
    }
  }

  /** Going once around the tape to the right restores the pointer. */
  lemma RightWrapsAround(p: nat)
    requires p < ARRAY_LENGTH
    ensures RightTimes(p, ARRAY_LENGTH) == p
  {
    RightTimesValue(p, ARRAY_LENGTH);
    assert p + ARRAY_LENGTH == 1 * ARRAY_LENGTH + p;
  }

  /** Going once around the tape to the left restores the pointer. */
  lemma LeftWrapsAround(p: nat)
    requires p < ARRAY_LENGTH
    ensures LeftTimes(p, ARRAY_LENGTH) == p
  {
    LeftTimesValue(p, ARRAY_LENGTH);
    assert p - ARRAY_LENGTH == -1 * ARRAY_LENGTH + p;
  }

  // ---------------------------------------------------------------------
  // The final dump of the tape.
  // ---------------------------------------------------------------------

  predicate AllZero(s: seq<nat>)
  {
    forall i :: 0 <= i < |s| ==> s[i] == 0
  }

  /** `s` without its trailing zero cells. */
  function Trimmed(s: seq<nat>): (r: seq<nat>)
    ensures |r| <= |s| && r == s[..|r|]
    ensures forall i :: |r| <= i < |s| ==> s[i] == 0
    ensures r != [] ==> r[|r| - 1] != 0
    ensures r == [] <==> AllZero(s)
  {
    if s == [] then []
    else if s[|s| - 1] == 0 then Trimmed(s[..|s| - 1])
    else s
  }

  /** What the dump shows: nothing for an all-zero tape, otherwise the
      tape up to and including its last nonzero cell. */
  function Dump(s: seq<nat>): (r: Option<seq<nat>>)
    ensures r == None <==> AllZero(s)
    ensures r.Some? ==> r.value != [] && r.value[|r.value| - 1] != 0
    ensures r.Some? ==> |r.value| <= |s| && r.value == s[..|r.value|]
    ensures r.Some? ==> forall i :: |r.value| <= i < |s| ==> s[i] == 0
  {
    if AllZero(s) then None else Some(Trimmed(s))
  }

  /** The tape and data pointer, updated in place by the interpreter.
      `cells` is the source's `array` field (`array` is a Dafny keyword). */
  class ArrayController {
    var cells: seq<nat>
    var currentCell: nat

    ghost predicate Valid()
      reads this
    {
      |cells| == ARRAY_LENGTH && currentCell < ARRAY_LENGTH
    }

    /** All cells zero, pointer on cell 0. */
    constructor ()
      ensures Valid()
      ensures cells == seq(ARRAY_LENGTH, _ => 0) && currentCell == 0
    {
      cells := seq(ARRAY_LENGTH, _ => 0);
      currentCell := 0;
    }

    /** `+`: only the current cell changes; the pointer stays put. */
    method Increment()
      requires Valid()
      modifies this
      ensures Valid()
      ensures currentCell == old(currentCell)
      ensures cells == old(cells)[currentCell := IncrementCell(old(cells)[currentCell])]
    {
      cells := cells[currentCell := IncrementCell(cells[currentCell])];
    }

    /** `-`: only the current cell changes; the pointer stays put. */
    method Decrement()
      requires Valid()
      modifies this
      ensures Valid()
      ensures currentCell == old(currentCell)
      ensures cells == old(cells)[currentCell := DecrementCell(old(cells)[currentCell])]
    {
      cells := cells[currentCell := DecrementCell(cells[currentCell])];
    }

    /** `>`: only the pointer changes; every cell is left untouched. */
    method Right()
      requires Valid()
      modifies this
      ensures Valid()
      ensures cells == old(cells)
      ensures currentCell == MoveRight(old(currentCell))
    {
      currentCell := MoveRight(currentCell);
    }

    /** `<`: only the pointer changes; every cell is left untouched. */
    method Left()
      requires Valid()
      modifies this
      ensures Valid()
      ensures cells == old(cells)
      ensures currentCell == MoveLeft(old(currentCell))
    {
      currentCell := MoveLeft(currentCell);
    }

    /** Trims the trailing zero cells off the array in place and returns
        what is shown; an all-zero cells is left intact and nothing is
        shown. */
    method ShowArray() returns (shown: Option<seq<nat>>)
      modifies this
      ensures currentCell == old(currentCell)
      ensures shown == Dump(old(cells))
      ensures cells == if shown.None? then old(cells) else shown.value
    {
      if AllZero(cells) {
        return None;
      }
      while cells[|cells| - 1] == 0
        invariant !AllZero(cells)
        invariant currentCell == old(currentCell)
        invariant Trimmed(cells) == Trimmed(old(cells))
        decreases |cells|
      {
        cells := cells[..|cells| - 1];
      }
      shown := Some(cells);
    }
  }
}
