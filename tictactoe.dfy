/** Definitions shared by both revisions of the tic-tac-toe Q-learning engine.

    A board is the C array `int cells[3][3]`. C lays it out row-major, so the
    model keeps it as nine cells where cell (i, j) sits at index 3*i + j, and
    an action a names the cell (a/3, a%3), that is index a itself. */
module TicTacToe {

  const EMPTY := 0
  const X := 1
  const O := 2

  const NUM_CELLS := 9
  const NUM_STATES := 19683  // 3^9
  const NUM_ACTIONS := 9

  const ALPHA: real := 0.5
  const GAMMA: real := 0.9

  const REWARD_WIN: real := 1.0
  const REWARD_LOSE: real := -1.0
  const REWARD_DRAW: real := 0.5
  const REWARD_NONE: real := 0.0

  /** An index of one of the nine cells. */
  type Cell = k: nat | k < 9

  /** A value the game itself writes into a cell. */
  predicate IsMark(v: int) {
    v == EMPTY || v == X || v == O
  }

  /** Every cell holds EMPTY, X or O. */
  predicate ValidBoard(b: seq<int>) {
    forall k :: 0 <= k < |b| ==> IsMark(b[k])
  }

  /** No cell is EMPTY. */
  predicate Full(b: seq<int>) {
    forall k :: 0 <= k < |b| ==> b[k] != EMPTY
  }

  /** Every cell is EMPTY. */
  predicate AllEmpty(b: seq<int>) {
    forall k :: 0 <= k < |b| ==> b[k] == EMPTY
  }

  // ---------------------------------------------------------------------------
  // Base-3 state index

  function Pow3(n: nat): (p: nat)
    ensures p >= 1
  {
    if n == 0 then 1 else 3 * Pow3(n - 1)
  }

  /** The number whose base-3 digits, least significant first, are d. */
  function Encode(d: seq<int>): int {
    if d == [] then 0 else d[0] + 3 * Encode(d[1..])
  }

  /** The k-th base-3 digit of n, least significant first. */
  function Digit(n: int, k: nat): int
    decreases k
  {
    if k == 0 then n % 3 else Digit(n / 3, k - 1)
  }

  /** Appending a digit adds it with the next power of three as weight; this is
      the step of a loop that accumulates `state += cell * power; power *= 3`. */
  lemma {:induction false} EncodeSnoc(d: seq<int>, x: int)
    ensures Encode(d + [x]) == Encode(d) + x * Pow3(|d|)
  {
    if d != [] {
      assert (d + [x])[1..] == d[1..] + [x];
      EncodeSnoc(d[1..], x);
      calc {
        Encode(d + [x]);
        d[0] + 3 * Encode(d[1..] + [x]);
        d[0] + 3 * (Encode(d[1..]) + x * Pow3(|d| - 1));
        { assert 3 * (x * Pow3(|d| - 1)) == x * (3 * Pow3(|d| - 1)); }
        Encode(d) + x * Pow3(|d|);
      }
    }
  }

  /** With digits in {0, 1, 2}, n digits encode a number in [0, 3^n). */
  lemma {:induction false} EncodeBounds(d: seq<int>)
    requires ValidBoard(d)
    ensures 0 <= Encode(d) < Pow3(|d|)
  {
    if d != [] {
      EncodeBounds(d[1..]);
    }
  }

  /** With digits in {0, 1, 2}, the k-th base-3 digit of Encode(d) is d[k]. */
  lemma {:induction false} EncodeDigit(d: seq<int>, k: nat)
    requires ValidBoard(d) && k < |d|
    ensures Digit(Encode(d), k) == d[k]
  {
    var rest := Encode(d[1..]);
    assert Encode(d) == d[0] + 3 * rest;
    assert Encode(d) % 3 == d[0] && Encode(d) / 3 == rest;
    if k > 0 {
      EncodeDigit(d[1..], k - 1);
    }
  }

  /** Distinct boards of the same size get distinct indices. */
  lemma EncodeInjective(d1: seq<int>, d2: seq<int>)
    requires ValidBoard(d1) && ValidBoard(d2) && |d1| == |d2|
    requires Encode(d1) == Encode(d2)
    ensures d1 == d2
  {
    forall k | 0 <= k < |d1|
      ensures d1[k] == d2[k]
    {
      EncodeDigit(d1, k);
      EncodeDigit(d2, k);
    }
  }

  lemma Pow3Nine()
    ensures Pow3(9) == NUM_STATES
  {
  }

  /** A nine-cell board with cells in {EMPTY, X, O} has an index in [0, NUM_STATES). */
  lemma BoardIndexInRange(b: seq<int>)
    requires |b| == NUM_CELLS && ValidBoard(b)
    ensures 0 <= Encode(b) < NUM_STATES
  {
    EncodeBounds(b);
    Pow3Nine();
  }

  // ---------------------------------------------------------------------------
  // Lines

  /** The eight lines of the grid: three rows, three columns, two diagonals. */
  const Lines: seq<(Cell, Cell, Cell)> := [
    (0, 1, 2), (3, 4, 5), (6, 7, 8),  // rows
    (0, 3, 6), (1, 4, 7), (2, 5, 8),  // columns
    (0, 4, 8), (2, 4, 6)              // diagonals
  ]

  /** Line l holds three equal non-EMPTY values. */
  predicate LineComplete(b: seq<int>, l: nat)
    requires |b| == NUM_CELLS && l < |Lines|
  {
    var (p, q, r) := Lines[l];
    b[p] == b[q] && b[q] == b[r] && b[p] != EMPTY
  }

  /** Some row, column or diagonal holds three equal non-EMPTY values. */
  predicate HasLine(b: seq<int>)
    requires |b| == NUM_CELLS
  {
    exists l :: 0 <= l < |Lines| && LineComplete(b, l)
  }

  /** Row i is line i and column i is line 3 + i. */
  lemma LinesAt(i: nat)
    requires i < 3
    ensures Lines[i] == (3 * i, 3 * i + 1, 3 * i + 2)
    ensures Lines[3 + i] == (i, i + 3, i + 6)
  {
  }

  // ---------------------------------------------------------------------------
  // Q-table rows

  /** The largest of q[s, 0..n). */
  function RowMax(q: array2<real>, s: nat, n: nat): (m: real)
    reads q
    requires s < q.Length0 && 0 < n <= q.Length1
    ensures forall a :: 0 <= a < n ==> q[s, a] <= m
    ensures exists a :: 0 <= a < n && q[s, a] == m
  {
    if n == 1 then q[s, 0]
    else
      var m' := RowMax(q, s, n - 1);
      if q[s, n - 1] > m' then q[s, n - 1] else m'
  }

  /** a is the lowest action whose value q[s, a] is the maximum of the row. */
  predicate IsFirstArgmax(q: array2<real>, s: nat, a: int)
    reads q
    requires s < q.Length0 && q.Length1 == NUM_ACTIONS
  {
    && 0 <= a < NUM_ACTIONS
    && (forall i :: 0 <= i < NUM_ACTIONS ==> q[s, i] <= q[s, a])
    && (forall i :: 0 <= i < a ==> q[s, i] < q[s, a])
  }

  /** The earliest-index tie-break determines the greedy action uniquely. */
  lemma FirstArgmaxUnique(q: array2<real>, s: nat, a1: int, a2: int)
    requires s < q.Length0 && q.Length1 == NUM_ACTIONS
    requires IsFirstArgmax(q, s, a1) && IsFirstArgmax(q, s, a2)
    ensures a1 == a2
  {
    // each value bounds the other, so neither can lie strictly before the other
    assert q[s, a1] <= q[s, a2] && q[s, a2] <= q[s, a1];
  }
}
