/** Where the two loop instructions jump to.

    The interpreter does not pair brackets by nesting depth. A `[` on a
    zero cell counts the `[` characters from the start of the program up to
    and including itself (call it k) and jumps to the k-th `]` counted from
    the end of the program. A `]` on a nonzero cell walks backwards to the
    nearest `[` before it, whatever lies in between. This module defines
    both rules, characterises their results, and compares them with
    ordinary depth-based bracket matching. */
module Brackets {

  /** Number of occurrences of `c` in `s` (Python's `list.count`). */
  function Count(s: seq<char>, c: char): (n: nat)
    ensures n == multiset(s)[c]
  {
    if s == [] then 0
    else
      assert s == s[..|s| - 1] + [s[|s| - 1]];
      Count(s[..|s| - 1], c) + (if s[|s| - 1] == c then 1 else 0)
  }

  /** The indices of `c` in `s`, in increasing order (the start positions
      of the matches of a one-character regular expression). */
  function Positions(s: seq<char>, c: char): (ps: seq<nat>)
    ensures |ps| == Count(s, c)
    ensures forall t :: 0 <= t < |ps| ==> ps[t] < |s| && s[ps[t]] == c
    ensures forall a, b :: 0 <= a < b < |ps| ==> ps[a] < ps[b]
  {
    if s == [] then []
    else Positions(s[..|s| - 1], c) + (if s[|s| - 1] == c then [|s| - 1] else [])
  }

  /** Counting over a sequence extended by one element. */
  lemma CountSnoc(a: seq<char>, x: char, c: char)
    ensures Count(a + [x], c) == Count(a, c) + (if x == c then 1 else 0)
  {
    assert multiset(a + [x]) == multiset(a) + multiset{x};
  }

  lemma SuffixCountExtend(s: seq<char>, c: char, t: nat)
    requires s != [] && t < |Positions(s[..|s| - 1], c)|
    requires var ps' := Positions(s[..|s| - 1], c);
      Count(s[..|s| - 1][ps'[t]..], c) == |ps'| - t
    ensures Count(s[Positions(s, c)[t]..], c) == |Positions(s, c)| - t
  {
    var n := |s|;
    var init := s[..n - 1];
    var ps' := Positions(init, c);
    var a := ps'[t];
    assert a < n - 1;
    SliceSnoc(s, a);
    CountSnoc(init[a..], s[n - 1], c);
    PositionsSnoc(s, c, t);
  }

  lemma SliceSnoc(s: seq<char>, a: nat)
    requires a < |s|
    ensures s[a..] == s[..|s| - 1][a..] + [s[|s| - 1]]
  {
  }

  lemma PositionsSnoc(s: seq<char>, c: char, t: nat)
    requires s != [] && t < |Positions(s[..|s| - 1], c)|
    ensures Positions(s, c)[t] == Positions(s[..|s| - 1], c)[t]
    ensures |Positions(s, c)| == |Positions(s[..|s| - 1], c)| + (if s[|s| - 1] == c then 1 else 0)
  {
  }

  /** The last occurrence of `c`, when it is the last element, is followed
      only by itself. */
  lemma SuffixCountLast(s: seq<char>, c: char, t: nat)
    requires s != [] && t == |Positions(s[..|s| - 1], c)| && t < |Positions(s, c)|
    ensures Count(s[Positions(s, c)[t]..], c) == |Positions(s, c)| - t
  {
    var n := |s|;
    assert s[n - 1] == c;
    assert Positions(s, c) == Positions(s[..n - 1], c) + [n - 1];
    assert s[n - 1..] == [c];
  }

  /** The t-th occurrence of `c` is followed, itself included, by exactly
      |ps| - t occurrences of `c`. */
  lemma {:induction false} PositionsSuffixCount(s: seq<char>, c: char, t: nat)
    requires t < |Positions(s, c)|
    ensures Count(s[Positions(s, c)[t]..], c) == |Positions(s, c)| - t
    decreases |s|
  {
    assert s != [];
    if t < |Positions(s[..|s| - 1], c)| {
      PositionsSuffixCount(s[..|s| - 1], c, t);
      SuffixCountExtend(s, c, t);
    } else {
      SuffixCountLast(s, c, t);
    }
  }

  /** How many `[` occur in `code[..p + 1]`: the rank of the `[` at `p`
      among all openers of the program. */
  function OpenerRank(code: seq<char>, p: nat): (k: nat)
    requires p < |code| && code[p] == '['
    ensures 1 <= k <= p + 1
  {
    assert code[p] in code[..p + 1];
    Count(code[..p + 1], '[')
  }

  /** The forward jump is defined when the program has at least as many
      `]` as the rank of the `[` that jumps. */
  predicate ForwardDefined(code: seq<char>, p: nat)
    requires p < |code| && code[p] == '['
  {
    OpenerRank(code, p) <= Count(code, ']')
  }

  /** Target of `[` on a zero cell: the k-th `]` counted from the end of
      the program, where k is the rank of this `[`. */
  function ForwardTarget(code: seq<char>, p: nat): (r: nat)
    requires p < |code| && code[p] == '['
    requires ForwardDefined(code, p)
    ensures r < |code| && code[r] == ']'
    ensures Count(code[r..], ']') == OpenerRank(code, p)
  {
    var closers := Positions(code, ']');
    var t := |closers| - OpenerRank(code, p);
    PositionsSuffixCount(code, ']', t);
    closers[t]
  }

  /** A later `]` is followed by fewer `]` than an earlier one. */
  lemma SuffixCountDecreases(code: seq<char>, r1: nat, r2: nat)
    requires r1 < r2 < |code| && code[r1] == ']'
    ensures Count(code[r1..], ']') > Count(code[r2..], ']')
  {
    assert code[r1..] == code[r1..r2] + code[r2..];
    assert code[r1..r2][0] == ']';
    assert multiset(code[r1..]) == multiset(code[r1..r2]) + multiset(code[r2..]);
  }

  /** The forward target is the only `]` followed, itself included, by
      exactly k `]`, k being the rank of the jumping `[`. */
  lemma ForwardTargetUnique(code: seq<char>, p: nat, r: nat)
    requires p < |code| && code[p] == '[' && ForwardDefined(code, p)
    requires r < |code| && code[r] == ']' && Count(code[r..], ']') == OpenerRank(code, p)
    ensures ForwardTarget(code, p) == r
  {
    var f := ForwardTarget(code, p);
    if f < r {
      SuffixCountDecreases(code, f, r);
    } else if r < f {
      SuffixCountDecreases(code, r, f);
    }
  }

  /** The backward jump is defined when some `[` precedes `p`. */
  predicate BackwardDefined(code: seq<char>, p: nat)
    requires p <= |code|
  {
    '[' in code[..p]
  }

  /** Where the backward walk of `]` stops: the nearest `[` strictly before
      `p`, regardless of the brackets in between. */
  function LastOpenBefore(code: seq<char>, p: nat): (r: nat)
    requires p <= |code| && BackwardDefined(code, p)
    ensures r < p && code[r] == '['
    ensures forall i :: r < i < p ==> code[i] != '['
  {
    if code[p - 1] == '[' then p - 1
    else
      assert code[..p] == code[..p - 1] + [code[p - 1]];
      LastOpenBefore(code, p - 1)
  }

  // ---------------------------------------------------------------------
  // Ordinary bracket matching, as a reference.
  // ---------------------------------------------------------------------

  /** Openers minus closers in `s`. */
  function Balance(s: seq<char>): int
  {
    Count(s, '[') - Count(s, ']')
  }

  /** Nesting depth just before index `m`, counted from the `[` at `i`
      (that opener itself excluded). */
  function Depth(code: seq<char>, i: nat, m: nat): int
    requires i < m <= |code|
  {
    Balance(code[i + 1..m])
  }

  /** `[` at `i` and `]` at `j` enclose a balanced stretch whose every
      prefix is non-negative: the pair that depth counting would match. */
  predicate Matches(code: seq<char>, i: nat, j: nat)
  {
    i < j < |code| && code[i] == '[' && code[j] == ']' &&
    Depth(code, i, j) == 0 &&
    forall m :: i < m <= j ==> Depth(code, i, m) >= 0
  }

  /** A program whose only brackets are one `[` at `i` and one `]` at `j`
      after it. */
  predicate SingleLoop(code: seq<char>, i: nat, j: nat)
  {
    i < j < |code| && code[i] == '[' && code[j] == ']' &&
    (forall m :: 0 <= m < |code| && m != i ==> code[m] != '[') &&
    (forall m :: 0 <= m < |code| && m != j ==> code[m] != ']')
  }

  /** A character found at exactly one index occurs exactly once. */
  lemma CountSingle(s: seq<char>, c: char, i: nat)
    requires i < |s| && s[i] == c
    requires forall m :: 0 <= m < |s| && m != i ==> s[m] != c
    ensures Count(s, c) == 1
  {
    assert s == s[..i] + [s[i]] + s[i + 1..];
    assert c !in s[..i] && c !in s[i + 1..];
    assert multiset(s) == multiset(s[..i]) + multiset{s[i]} + multiset(s[i + 1..]);
  }

  /** Depth changes by one at each bracket and not elsewhere. */
  lemma DepthStep(code: seq<char>, i: nat, m: nat)
    requires i < m < |code|
    ensures Depth(code, i, m + 1) ==
      Depth(code, i, m) + (if code[m] == '[' then 1 else if code[m] == ']' then -1 else 0)
  {
    assert code[i + 1..m + 1] == code[i + 1..m] + [code[m]];
    CountSnoc(code[i + 1..m], code[m], '[');
    CountSnoc(code[i + 1..m], code[m], ']');
  }

  /** Depth stays 0 across a stretch without brackets. */
  lemma {:induction false} DepthFlat(code: seq<char>, i: nat, m: nat)
    requires i < m <= |code|
    requires forall x :: i < x < m ==> code[x] != '[' && code[x] != ']'
    ensures Depth(code, i, m) == 0
    decreases m
  {
    if m == i + 1 {
      assert code[i + 1..m] == [];
    } else {
      DepthFlat(code, i, m - 1);
      DepthStep(code, i, m - 1);
    }
  }

  /** In a program with a single loop, both jump rules land where ordinary
      bracket matching would: `[` jumps to its `]`, and `]` walks back to
      its `[`. */
  lemma SingleLoopJumpsMatch(code: seq<char>, i: nat, j: nat)
    requires SingleLoop(code, i, j)
    ensures Matches(code, i, j)
    ensures ForwardDefined(code, i) && ForwardTarget(code, i) == j
    ensures BackwardDefined(code, j) && LastOpenBefore(code, j) == i
  {
    CountSingle(code, ']', j);
    CountSingle(code[..i + 1], '[', i);
    assert code[j..] == [code[j]] + code[j + 1..];
    assert ']' !in code[j + 1..];
    ForwardTargetUnique(code, i, j);
    forall m | i < m <= j
      ensures Depth(code, i, m) == 0
    {
      DepthFlat(code, i, m);
    }
    assert code[i] in code[..j];
  }

  /** Sibling loops: the first `[` of `[]+.[-]` is matched by the `]` at 1,
      but on a zero cell it jumps to the last `]`, at 6, skipping the
      second loop and the code before it. */
  lemma ForwardSkipsSiblingLoops(code: seq<char>)
    requires code == "[]+.[-]"
    ensures Matches(code, 0, 1)
    ensures ForwardDefined(code, 0) && ForwardTarget(code, 0) == 6
  {
    assert code[1..1] == [];
    assert code[6] == ']' && code[6] in code;
    assert code[6..] == [']'];
    ForwardTargetUnique(code, 0, 6);
  }

  /** Nested loops: the outer `]` of `[[-]>]` at 5 is matched by the `[` at
      0, but on a nonzero cell it walks back only to the inner `[` at 1. */
  lemma BackwardIgnoresNesting(code: seq<char>)
    requires code == "[[-]>]"
    ensures Matches(code, 0, 5)
    ensures BackwardDefined(code, 5) && LastOpenBefore(code, 5) == 1
  {
    assert code[1..1] == [];
    DepthStep(code, 0, 1);
    DepthStep(code, 0, 2);
    DepthStep(code, 0, 3);
    DepthStep(code, 0, 4);
    assert code[1] in code[..5];
    forall m | 0 < m <= 5
      ensures Depth(code, 0, m) >= 0
    {
    }
  }
}
