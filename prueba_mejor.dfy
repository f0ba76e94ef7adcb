/** The revision Tic-Tac-Toe_ML/prueba_mejor.c of the Q-learning engine.

    Its state index is absolute (EMPTY/X/O are the digits 0/1/2), the turn is
    kept in a file-level flag, the greedy policy looks only at EMPTY cells, and
    `update_q_table` takes its reward as an `int`. Every call of `rand()` is a
    parameter here: the explore flag, the sequence of raw draws, the index draw. */
module PruebaMejor {
  import opened TicTacToe

  /** The struct Agent: a NUM_STATES x NUM_ACTIONS table of Q-values and the mark it plays. */
  class Agent {
    const qTable: array2<real>
    var player: int

    ghost predicate Valid() {
      qTable.Length0 == NUM_STATES && qTable.Length1 == NUM_ACTIONS
    }

    /** Storage for an agent; the table holds nothing in particular until `Initialize`. */
    constructor ()
      ensures Valid() && fresh(qTable)
    {
      qTable := new real[NUM_STATES, NUM_ACTIONS];
    }

    /** initialize_agent: every Q-value becomes 0.0 and the agent plays X. */
    method Initialize()
      requires Valid()
      modifies this, qTable
      ensures forall s, a :: 0 <= s < NUM_STATES && 0 <= a < NUM_ACTIONS ==> qTable[s, a] == 0.0
      ensures player == X
    {
      for i := 0 to NUM_STATES
        invariant forall s, a :: 0 <= s < i && 0 <= a < NUM_ACTIONS ==> qTable[s, a] == 0.0
      {
        for j := 0 to NUM_ACTIONS
          invariant forall s, a :: 0 <= s < i && 0 <= a < NUM_ACTIONS ==> qTable[s, a] == 0.0
          invariant forall a :: 0 <= a < j ==> qTable[i, a] == 0.0
        {
          qTable[i, j] := 0.0;
        }
      }
      player := X;
    }
  }

  /** initialize_board: every cell becomes EMPTY. */
  method InitializeBoard(board: array<int>)
    requires board.Length == NUM_CELLS
    modifies board
    ensures AllEmpty(board[..])
  {
    for i := 0 to 3
      invariant forall k :: 0 <= k < 3 * i ==> board[k] == EMPTY
    {
      for j := 0 to 3
        invariant forall k :: 0 <= k < 3 * i + j ==> board[k] == EMPTY
      {
        board[3 * i + j] := EMPTY;
      }
    }
  }

  // ---------------------------------------------------------------------------
  // Q-table update

  /** C's conversion of a double to an int: truncation toward zero. */
  function TruncateToInt(r: real): (n: int)
    ensures 0.0 <= r ==> n as real <= r < n as real + 1.0
    ensures r < 0.0 ==> n as real - 1.0 < r <= n as real
  {
    if r >= 0.0 then r.Floor else -((-r).Floor)
  }

  /** The reward parameter of update_q_table is an int, so a caller's REWARD_DRAW
      (0.5) arrives as 0 while REWARD_WIN and REWARD_LOSE arrive unchanged. */
  lemma RewardArgumentTruncated()
    ensures TruncateToInt(REWARD_DRAW) == 0 && TruncateToInt(REWARD_NONE) == 0
    ensures TruncateToInt(REWARD_WIN) == 1 && TruncateToInt(REWARD_LOSE) == -1
  {
  }

  /** update_q_table: one step of Q-learning on entry (state, action), bootstrapping
      from the largest of all nine values of next_state, legal or not. */
  method UpdateQTable(qTable: array2<real>, state: int, action: int, reward: int, nextState: int)
    requires qTable.Length0 == NUM_STATES && qTable.Length1 == NUM_ACTIONS
    requires 0 <= state < NUM_STATES && 0 <= action < NUM_ACTIONS && 0 <= nextState < NUM_STATES
    modifies qTable
    ensures qTable[state, action] == old(qTable[state, action])
      + ALPHA * (reward as real + GAMMA * old(RowMax(qTable, nextState, NUM_ACTIONS)) - old(qTable[state, action]))
    ensures forall s, a :: 0 <= s < NUM_STATES && 0 <= a < NUM_ACTIONS && (s != state || a != action) ==>
      qTable[s, a] == old(qTable[s, a])
  {
    var oldValue := qTable[state, action];
    // hasMax is false while the running maximum is still the source's -INFINITY
    var hasMax := false;
    var maxNextValue: real := 0.0;
    for i := 0 to NUM_ACTIONS
      invariant hasMax <==> i > 0
      invariant i > 0 ==> maxNextValue == RowMax(qTable, nextState, i)
    {
      if !hasMax || qTable[nextState, i] > maxNextValue {
        maxNextValue := qTable[nextState, i];
      }
      hasMax := true;
    }
    qTable[state, action] := oldValue + ALPHA * (reward as real + GAMMA * maxNextValue - oldValue);
  }

  // ---------------------------------------------------------------------------
  // State index and state string

  /** calculate_state: the cells, row-major, as base-3 digits, least significant first. */
  method CalculateState(board: array<int>) returns (state: int)
    requires board.Length == NUM_CELLS
    ensures state == Encode(board[..])
    ensures ValidBoard(board[..]) ==> 0 <= state < NUM_STATES
  {
    state := 0;
    var power := 1;
    for i := 0 to 3
      invariant state == Encode(board[..3 * i]) && power == Pow3(3 * i)
    {
      for j := 0 to 3
        invariant state == Encode(board[..3 * i + j]) && power == Pow3(3 * i + j)
      {
        var k := 3 * i + j;
        assert board[..k + 1] == board[..k] + [board[k]];
        EncodeSnoc(board[..k], board[k]);
        state := state + board[k] * power;
        power := power * 3;
      }
    }
    assert board[..9] == board[..];
    if ValidBoard(board[..]) {
      BoardIndexInRange(board[..]);
    }
  }

  /** The character get_state writes for a cell holding EMPTY, X or O. */
  function MarkChar(v: int): char
    requires IsMark(v)
  {
    if v == EMPTY then '0' else if v == X then '1' else '2'
  }

  /** get_state: a ten-character string, the cells' digits then a NUL. A cell
      holding anything but EMPTY, X or O leaves its character unwritten, so the
      contract says nothing about it. */
  method GetState(board: array<int>) returns (state: seq<char>)
    requires board.Length == NUM_CELLS
    ensures |state| == NUM_CELLS + 1 && state[NUM_CELLS] == '\0'
    ensures forall k :: 0 <= k < NUM_CELLS && IsMark(board[k]) ==> state[k] == MarkChar(board[k])
  {
    var buffer := new char[NUM_CELLS + 1];
    for i := 0 to 3
      invariant forall k :: 0 <= k < 3 * i && IsMark(board[k]) ==> buffer[k] == MarkChar(board[k])
    {
      for j := 0 to 3
        invariant forall k :: 0 <= k < 3 * i + j && IsMark(board[k]) ==> buffer[k] == MarkChar(board[k])
      {
        var v := board[3 * i + j];
        if v == EMPTY {
          buffer[3 * i + j] := '0';
        } else if v == X {
          buffer[3 * i + j] := '1';
        } else if v == O {
          buffer[3 * i + j] := '2';
        }
      }
    }
    buffer[NUM_CELLS] := '\0';
    state := buffer[..];
  }

  /** The string of get_state spells the base-3 digits of calculate_state:
      character k is '0' plus digit k of the state index. */
  lemma StateStringDigits(b: seq<int>, k: nat)
    requires |b| == NUM_CELLS && ValidBoard(b) && k < NUM_CELLS
    ensures 0 <= Digit(Encode(b), k) < 3
    ensures MarkChar(b[k]) == ('0' as int + Digit(Encode(b), k)) as char
  {
    EncodeDigit(b, k);
  }

  // ---------------------------------------------------------------------------
  // End of game

  /** is_win_state: 1 iff some row, column or diagonal is complete. */
  method IsWinState(board: array<int>) returns (r: int)
    requires board.Length == NUM_CELLS
    ensures r == (if HasLine(board[..]) then 1 else 0)
  {
    for i := 0 to 3
      invariant forall l :: (0 <= l < i || 3 <= l < 3 + i) ==> !LineComplete(board[..], l)
    {
      LinesAt(i);
      if (board[3 * i] == board[3 * i + 1] && board[3 * i + 1] == board[3 * i + 2] && board[3 * i] != 0) ||
         (board[i] == board[i + 3] && board[i + 3] == board[i + 6] && board[i] != 0)
      {
        assert LineComplete(board[..], i) || LineComplete(board[..], 3 + i);
        return 1;
      }
    }
    if (board[0] == board[4] && board[4] == board[8] && board[0] != 0) ||
       (board[2] == board[4] && board[4] == board[6] && board[2] != 0)
    {
      assert LineComplete(board[..], 6) || LineComplete(board[..], 7);
      return 1;
    }
    return 0;
  }

  /** is_draw_state: 1 iff no cell is EMPTY and no line is complete. */
  method IsDrawState(board: array<int>) returns (r: int)
    requires board.Length == NUM_CELLS
    ensures r == (if Full(board[..]) && !HasLine(board[..]) then 1 else 0)
  {
    for i := 0 to 3
      invariant forall k :: 0 <= k < 3 * i ==> board[k] != EMPTY
    {
      for j := 0 to 3
        invariant forall k :: 0 <= k < 3 * i + j ==> board[k] != EMPTY
      {
        if board[3 * i + j] == 0 {
          return 0;
        }
      }
    }
    var win := IsWinState(board);
    if win == 0 {
      return 1;
    }
    return 0;
  }

  /** is_game_over: 1 for a win, -1 for a full board without a line, 0 otherwise;
      a win takes precedence over a full board. */
  method IsGameOver(board: array<int>) returns (r: int)
    requires board.Length == NUM_CELLS
    ensures r == (if HasLine(board[..]) then 1 else if Full(board[..]) then -1 else 0)
  {
    var win := IsWinState(board);
    if win == 1 {
      return 1;
    }
    var draw := IsDrawState(board);
    if draw == 1 {
      return -1;
    }
    return 0;
  }

  // ---------------------------------------------------------------------------
  // Reward

  /** The least i in [from, 3) whose row i or column i is complete, or 3 when there is none. */
  function FirstRowOrColumn(b: seq<int>, from: nat): (i: nat)
    requires |b| == NUM_CELLS && from <= 3
    ensures from <= i <= 3
    ensures i < 3 ==> LineComplete(b, i) || LineComplete(b, 3 + i)
    ensures forall l :: (from <= l < i || 3 + from <= l < 3 + i) ==> !LineComplete(b, l)
    decreases 3 - from
  {
    if from == 3 then 3
    else if LineComplete(b, from) || LineComplete(b, 3 + from) then from
    else FirstRowOrColumn(b, from + 1)
  }

  /** The value calculate_reward gives a board. The first i whose row i or column i
      is complete decides by cells[i][0]; failing that, a complete diagonal decides
      by the centre; failing that, any non-EMPTY cell gives REWARD_NONE and only
      the all-EMPTY board gives REWARD_DRAW. */
  function RewardOf(b: seq<int>): real
    requires |b| == NUM_CELLS
  {
    var i := FirstRowOrColumn(b, 0);
    if i < 3 then
      (if b[3 * i] == X then REWARD_WIN else REWARD_LOSE)
    else if LineComplete(b, 6) || LineComplete(b, 7) then
      (if b[4] == X then REWARD_WIN else REWARD_LOSE)
    else if AllEmpty(b) then REWARD_DRAW
    else REWARD_NONE
  }

  /** calculate_reward. */
  method CalculateReward(board: array<int>) returns (r: real)
    requires board.Length == NUM_CELLS
    ensures r == RewardOf(board[..])
  {
    for i := 0 to 3
      invariant forall l :: (0 <= l < i || 3 <= l < 3 + i) ==> !LineComplete(board[..], l)
    {
      LinesAt(i);
      if (board[3 * i] == board[3 * i + 1] && board[3 * i + 1] == board[3 * i + 2] && board[3 * i] != EMPTY) ||
         (board[i] == board[i + 3] && board[i + 3] == board[i + 6] && board[i] != EMPTY)
      {
        assert LineComplete(board[..], i) || LineComplete(board[..], 3 + i);
        assert FirstRowOrColumn(board[..], 0) == i;
        return if board[3 * i] == X then REWARD_WIN else REWARD_LOSE;
      }
    }
    assert FirstRowOrColumn(board[..], 0) == 3;
    if (board[0] == board[4] && board[4] == board[8] && board[0] != EMPTY) ||
       (board[2] == board[4] && board[4] == board[6] && board[2] != EMPTY)
    {
      assert LineComplete(board[..], 6) || LineComplete(board[..], 7);
      return if board[4] == X then REWARD_WIN else REWARD_LOSE;
    }
    for i := 0 to 3
      invariant forall k :: 0 <= k < 3 * i ==> board[k] == EMPTY
    {
      for j := 0 to 3
        invariant forall k :: 0 <= k < 3 * i + j ==> board[k] == EMPTY
      {
        if !(board[3 * i + j] == EMPTY) {
          return REWARD_NONE;
        }
      }
    }
    return REWARD_DRAW;
  }

  /** When row i or column i is the first complete one, the reward is decided by
      cells[i][0], the head of row i, even when it is column i that is complete. */
  lemma RewardJudgedByRowHead(b: seq<int>, i: nat)
    requires |b| == NUM_CELLS && i < 3
    requires LineComplete(b, i) || LineComplete(b, 3 + i)
    requires forall l :: (0 <= l < i || 3 <= l < 3 + i) ==> !LineComplete(b, l)
    ensures RewardOf(b) == (if b[3 * i] == X then REWARD_WIN else REWARD_LOSE)
  {
    assert FirstRowOrColumn(b, 0) == i;
  }

  /** A column of X's is scored as a loss: X holds column 1 (cells 1, 4, 7), the
      head of row 1 is O, and no row or column before it is complete. */
  lemma ColumnWinScoredByWrongCell()
    ensures var b := [O, X, EMPTY, O, X, EMPTY, EMPTY, X, EMPTY];
      ValidBoard(b) && LineComplete(b, 4) && b[1] == X && RewardOf(b) == REWARD_LOSE
  {
    var b := [O, X, EMPTY, O, X, EMPTY, EMPTY, X, EMPTY];
    LinesAt(0);
    LinesAt(1);
    RewardJudgedByRowHead(b, 1);
  }

  /** A diagonal is judged correctly: when no row or column is complete, a complete
      diagonal earns REWARD_WIN exactly when its own mark is X. */
  lemma RewardDiagonal(b: seq<int>, l: nat)
    requires |b| == NUM_CELLS && (l == 6 || l == 7) && LineComplete(b, l)
    requires forall j :: 0 <= j < 6 ==> !LineComplete(b, j)
    ensures RewardOf(b) == (if b[Lines[l].0] == X then REWARD_WIN else REWARD_LOSE)
  {
    assert FirstRowOrColumn(b, 0) == 3;
  }

  /** On a board with a complete line the reward is REWARD_WIN or REWARD_LOSE. */
  lemma RewardOnLine(b: seq<int>)
    requires |b| == NUM_CELLS && HasLine(b)
    ensures RewardOf(b) == REWARD_WIN || RewardOf(b) == REWARD_LOSE
  {
    var l :| 0 <= l < |Lines| && LineComplete(b, l);
    var i := FirstRowOrColumn(b, 0);
    if i == 3 {
      assert l == 6 || l == 7;
    }
  }

  /** Without a complete line the emptiness test is inverted: REWARD_DRAW comes only
      from the all-EMPTY board, and a full board, the real draw, scores REWARD_NONE. */
  lemma RewardWithoutLine(b: seq<int>)
    requires |b| == NUM_CELLS && !HasLine(b)
    ensures RewardOf(b) == (if AllEmpty(b) then REWARD_DRAW else REWARD_NONE)
    ensures Full(b) ==> RewardOf(b) == REWARD_NONE
  {
    assert !LineComplete(b, 6) && !LineComplete(b, 7);
    if Full(b) {
      assert b[0] != EMPTY;
    }
  }

  // ---------------------------------------------------------------------------
  // Moves

  /** The file-level flag `player_turn`: 1 while X is to move, anything else while O is. */
  class TurnState {
    var playerTurn: int

    constructor ()
      ensures playerTurn == 1
    {
      playerTurn := 1;
    }

    /** update_board: the mark of the side to move goes into cell (action/3, action%3)
        and the flag passes to the other side. */
    method UpdateBoard(board: array<int>, action: int)
      requires board.Length == NUM_CELLS && 0 <= action < NUM_ACTIONS
      modifies this, board
      ensures board[..] == old(board[..])[action := if old(playerTurn) == 1 then X else O]
      ensures playerTurn == (if old(playerTurn) == 1 then 2 else 1)
    {
      var row := action / 3;
      var col := action % 3;
      if playerTurn == 1 {
        board[3 * row + col] := X;
        playerTurn := 2;
      } else {
        board[3 * row + col] := O;
        playerTurn := 1;
      }
    }
  }

  /** execute_action: `player` goes into cell (action/3, action%3), nothing else changes. */
  method ExecuteAction(board: array<int>, action: int, player: int)
    requires board.Length == NUM_CELLS && 0 <= action < NUM_ACTIONS
    modifies board
    ensures board[..] == old(board[..])[action := player]
  {
    var row := action / 3;
    var col := action % 3;
    board[3 * row + col] := player;
  }

  /** The test get_user_action applies before it accepts a typed action. */
  predicate AcceptsUserAction(b: seq<int>, action: int)
    requires |b| == NUM_CELLS
  {
    !(action < 0 || action > 8 || b[action] != EMPTY)
  }

  /** The indices of the EMPTY cells of b, in increasing (row-major) order. */
  function EmptyCells(b: seq<int>): (e: seq<int>)
    ensures |e| <= |b| && forall i :: 0 <= i < |e| ==> 0 <= e[i] < |b|
  {
    if b == [] then []
    else EmptyCells(b[..|b| - 1]) + (if b[|b| - 1] == EMPTY then [|b| - 1] else [])
  }

  /** EmptyCells lists exactly the EMPTY cells, each once, in increasing order. */
  lemma {:induction false} EmptyCellsSpec(b: seq<int>)
    ensures forall k :: k in EmptyCells(b) <==> 0 <= k < |b| && b[k] == EMPTY
    ensures forall m, n :: 0 <= m < n < |EmptyCells(b)| ==> EmptyCells(b)[m] < EmptyCells(b)[n]
  {
    if b != [] {
      var p := b[..|b| - 1];
      EmptyCellsSpec(p);
      assert forall k :: 0 <= k < |p| ==> p[k] == b[k];
      var e := EmptyCells(b);
      forall m, n | 0 <= m < n < |e|
        ensures e[m] < e[n]
      {
        if n == |EmptyCells(p)| {
          assert e[n] == |p|;
          assert e[m] == EmptyCells(p)[m] < |p|;
        }
      }
    }
  }

  /** Scanning one more cell appends it when it is EMPTY. */
  lemma EmptyCellsStep(b: seq<int>, k: nat)
    requires k < |b|
    ensures EmptyCells(b[..k + 1]) == EmptyCells(b[..k]) + (if b[k] == EMPTY then [k] else [])
  {
    assert b[..k + 1][..k] == b[..k];
  }

  /** A typed action is accepted exactly when it names an EMPTY cell. */
  lemma AcceptedActionsAreEmptyCells(b: seq<int>, action: int)
    requires |b| == NUM_CELLS
    ensures AcceptsUserAction(b, action) <==> action in EmptyCells(b)
  {
    EmptyCellsSpec(b);
  }

  /** make_random_move: `currentPlayer` goes into the (draw mod n)-th EMPTY cell in
      row-major order, n being the number of EMPTY cells; a full board is left as it is. */
  method MakeRandomMove(board: array<int>, currentPlayer: int, draw: nat)
    requires board.Length == NUM_CELLS
    modifies board
    ensures var e := EmptyCells(old(board[..]));
      if |e| == 0 then board[..] == old(board[..])
      else board[..] == old(board[..])[e[draw % |e|] := currentPlayer]
  {
    ghost var b := board[..];
    var emptyCells := new int[NUM_CELLS];
    var numEmptyCells := 0;
    for i := 0 to 3
      invariant board[..] == b && numEmptyCells <= 3 * i
      invariant emptyCells[..numEmptyCells] == EmptyCells(b[..3 * i])
    {
      for j := 0 to 3
        invariant board[..] == b && numEmptyCells <= 3 * i + j
        invariant emptyCells[..numEmptyCells] == EmptyCells(b[..3 * i + j])
      {
        var k := 3 * i + j;
        EmptyCellsStep(b, k);
        if board[k] == EMPTY {
          ghost var before := emptyCells[..numEmptyCells];
          emptyCells[numEmptyCells] := k;
          assert emptyCells[..numEmptyCells + 1] == before + [k];
          numEmptyCells := numEmptyCells + 1;
        }
      }
    }
    assert b[..9] == b;
    if numEmptyCells > 0 {
      var randomIndex := draw % numEmptyCells;
      var randomCell := emptyCells[randomIndex];
      assert randomCell == EmptyCells(b)[randomIndex];
      var row := randomCell / 3;
      var col := randomCell % 3;
      board[3 * row + col] := currentPlayer;
    }
  }

  // ---------------------------------------------------------------------------
  // Policy

  /** a is the lowest EMPTY cell whose Q-value is the largest among the EMPTY cells. */
  predicate IsBestLegal(q: array2<real>, b: seq<int>, s: nat, a: int)
    reads q
    requires s < q.Length0 && q.Length1 == NUM_ACTIONS && |b| == NUM_CELLS
  {
    && 0 <= a < NUM_ACTIONS && b[a] == EMPTY
    && (forall i :: 0 <= i < NUM_ACTIONS && b[i] == EMPTY ==> q[s, i] <= q[s, a])
    && (forall i :: 0 <= i < a && b[i] == EMPTY ==> q[s, i] < q[s, a])
  }

  /** The explore branch of select_action from attempt t on: attempt t tries
      cell draws[t] % NUM_ACTIONS; the first attempt that hits an EMPTY cell wins,
      and the ninth attempt is returned whatever its cell holds. */
  function ExploreFrom(b: seq<int>, draws: seq<nat>, t: nat): (a: int)
    requires |b| == NUM_CELLS && t < NUM_ACTIONS <= |draws|
    ensures 0 <= a < NUM_ACTIONS
    decreases NUM_ACTIONS - t
  {
    var a := draws[t] % NUM_ACTIONS;
    if b[a] == EMPTY || t == NUM_ACTIONS - 1 then a else ExploreFrom(b, draws, t + 1)
  }

  /** The explored action is some attempt's draw, every earlier attempt hit an
      occupied cell, and it is itself EMPTY unless all nine attempts missed. */
  lemma {:induction false} ExploreResult(b: seq<int>, draws: seq<nat>, from: nat)
    requires |b| == NUM_CELLS && from < NUM_ACTIONS <= |draws|
    ensures exists t :: (
      && from <= t < NUM_ACTIONS && ExploreFrom(b, draws, from) == draws[t] % NUM_ACTIONS
      && (forall u :: from <= u < t ==> b[draws[u] % NUM_ACTIONS] != EMPTY)
      && (b[draws[t] % NUM_ACTIONS] == EMPTY || t == NUM_ACTIONS - 1))
    decreases NUM_ACTIONS - from
  {
    var a := draws[from] % NUM_ACTIONS;
    if b[a] == EMPTY || from == NUM_ACTIONS - 1 {
      assert ExploreFrom(b, draws, from) == draws[from] % NUM_ACTIONS;
    } else {
      ExploreResult(b, draws, from + 1);
      var t :| from + 1 <= t < NUM_ACTIONS && ExploreFrom(b, draws, from + 1) == draws[t] % NUM_ACTIONS
        && (forall u :: from + 1 <= u < t ==> b[draws[u] % NUM_ACTIONS] != EMPTY)
        && (b[draws[t] % NUM_ACTIONS] == EMPTY || t == NUM_ACTIONS - 1);
      assert forall u :: from <= u < t ==> b[draws[u] % NUM_ACTIONS] != EMPTY;
    }
  }

  /** Exploration can return an occupied cell on a board that still has an EMPTY one:
      nine draws that all land on cell 0. */
  lemma ExploreMayReturnOccupied()
    ensures var b := [X, O, X, O, X, O, O, X, EMPTY];
      !Full(b) && b[ExploreFrom(b, [0, 0, 0, 0, 0, 0, 0, 0, 0], 0)] == X
  {
    var b := [X, O, X, O, X, O, O, X, EMPTY];
    var draws: seq<nat> := [0, 0, 0, 0, 0, 0, 0, 0, 0];
    assert b[8] == EMPTY;
    ExploreResult(b, draws, 0);
  }

  /** select_action. Exploring: -1 on a full board, otherwise the result of the
      attempt loop. Exploiting: the lowest EMPTY cell with the largest Q-value,
      or -1 when no cell is EMPTY. */
  method SelectAction(agent: Agent, board: array<int>, state: int, explore: bool, draws: seq<nat>)
    returns (action: int)
    requires agent.Valid() && board.Length == NUM_CELLS && 0 <= state < NUM_STATES
    requires |draws| >= NUM_ACTIONS
    ensures Full(board[..]) ==> action == -1
    ensures !Full(board[..]) && explore ==> action == ExploreFrom(board[..], draws, 0)
    ensures !Full(board[..]) && !explore ==> IsBestLegal(agent.qTable, board[..], state, action)
  {
    if explore {
      var emptyCells := 0;
      for i := 0 to NUM_ACTIONS
        invariant emptyCells == 0 <==> forall k :: 0 <= k < i ==> board[k] != EMPTY
      {
        if board[i] == EMPTY {
          emptyCells := emptyCells + 1;
        }
      }
      if emptyCells == 0 {
        return -1;
      }
      var attempts := 0;
      action := draws[attempts] % NUM_ACTIONS;
      attempts := attempts + 1;
      while board[action] != EMPTY && attempts < NUM_ACTIONS
        invariant 1 <= attempts <= NUM_ACTIONS
        invariant action == draws[attempts - 1] % NUM_ACTIONS
        invariant ExploreFrom(board[..], draws, attempts - 1) == ExploreFrom(board[..], draws, 0)
        decreases NUM_ACTIONS - attempts
      {
        action := draws[attempts] % NUM_ACTIONS;
        attempts := attempts + 1;
      }
    } else {
      var bestAction := -1;
      // meaningful once bestAction != -1; the source starts it at -INFINITY
      var bestQValue: real := 0.0;
      for a := 0 to NUM_ACTIONS
        invariant bestAction == -1 <==> forall k :: 0 <= k < a ==> board[k] != EMPTY
        invariant bestAction != -1 ==>
          && 0 <= bestAction < a && board[bestAction] == EMPTY
          && bestQValue == agent.qTable[state, bestAction]
          && (forall k :: 0 <= k < a && board[k] == EMPTY ==> agent.qTable[state, k] <= bestQValue)
          && (forall k :: 0 <= k < bestAction && board[k] == EMPTY ==> agent.qTable[state, k] < bestQValue)
      {
        if board[a] == EMPTY && (bestAction == -1 || agent.qTable[state, a] > bestQValue) {
          bestAction := a;
          bestQValue := agent.qTable[state, a];
        }
      }
      return bestAction;
    }
  }
}
