/** The revision Tic-Tac-Toe_ML/tic_tac_toe_main.c of the Q-learning engine.

    Its state index is relative to a player (EMPTY, the player's mark, anything
    else are the digits 0, 1, 2), the greedy action ignores which cells are
    occupied, the reward depends only on the player it is asked about, and the
    agent flips its own mark after every ply. Every call of `rand()` is a
    parameter here: an explore flag and a raw draw per call of getBestAction. */
module TicTacToeMain {
  import opened TicTacToe

  // ---------------------------------------------------------------------------
  // Board

  /** initBoard: every cell becomes EMPTY. */
  method InitBoard(board: array<int>)
    requires board.Length == NUM_CELLS
    modifies board
    ensures AllEmpty(board[..])
  {
    for i := 0 to 3
      invariant forall k :: 0 <= k < 3 * i ==> board[k] == EMPTY
    {
      for j := 0 to 3
        invariant forall k :: 0 <= k < 3 * i + j ==> board[k] == EMPTY
      {
        board[3 * i + j] := EMPTY;
      }
    }
  }

  /** updateBoard: `player` goes into cell (action/3, action%3), nothing else changes. */
  method UpdateBoard(board: array<int>, action: int, player: int)
    requires board.Length == NUM_CELLS && 0 <= action < NUM_ACTIONS
    modifies board
    ensures board[..] == old(board[..])[action := player]
  {
    var i := action / 3;
    var j := action % 3;
    board[3 * i + j] := player;
  }

  // ---------------------------------------------------------------------------
  // State index relative to a player

  /** The digit getState gives a cell: 0 for EMPTY, 1 for `player`'s mark, 2 for any other value. */
  function RelativeDigit(v: int, player: int): int {
    if v == EMPTY then 0 else if v == player then 1 else 2
  }

  /** The board seen from `player`: every cell replaced by its relative digit. */
  function Relative(b: seq<int>, player: int): (r: seq<int>)
    ensures |r| == |b| && ValidBoard(r)
  {
    seq(|b|, k requires 0 <= k < |b| => RelativeDigit(b[k], player))
  }

  /** getState: the relative digits, row-major, weighted by 3^k. Since every digit is
      0, 1 or 2, the index is in [0, NUM_STATES) for any cell values whatever. */
  method GetState(board: array<int>, player: int) returns (state: int)
    requires board.Length == NUM_CELLS
    ensures state == Encode(Relative(board[..], player))
    ensures 0 <= state < NUM_STATES
  {
    ghost var digits := Relative(board[..], player);
    state := 0;
    var k := 0;
    for i := 0 to 3
      invariant k == 3 * i && state == Encode(digits[..k])
    {
      for j := 0 to 3
        invariant k == 3 * i + j && state == Encode(digits[..k])
      {
        assert digits[..k + 1] == digits[..k] + [digits[k]];
        EncodeSnoc(digits[..k], digits[k]);
        if board[3 * i + j] == EMPTY {
          state := state + 0 * Pow3(k);
        } else if board[3 * i + j] == player {
          state := state + 1 * Pow3(k);
        } else {
          state := state + 2 * Pow3(k);
        }
        k := k + 1;
      }
    }
    assert digits[..9] == digits;
    BoardIndexInRange(digits);
  }

  /** Swaps the digits 1 and 2 and keeps 0. */
  function SwapOneTwo(d: int): int {
    if d == 1 then 2 else if d == 2 then 1 else d
  }

  /** On a board of EMPTY/X/O cells, the index seen from O is the index seen from X
      with the base-3 digits 1 and 2 exchanged. */
  lemma PerspectiveSwapsDigits(b: seq<int>, k: nat)
    requires |b| == NUM_CELLS && ValidBoard(b) && k < NUM_CELLS
    ensures Digit(Encode(Relative(b, O)), k) == SwapOneTwo(Digit(Encode(Relative(b, X)), k))
  {
    EncodeDigit(Relative(b, O), k);
    EncodeDigit(Relative(b, X), k);
  }

  /** Seen from X, the relative digits of an EMPTY/X/O board are its absolute ones,
      so this revision's index for X is the absolute index of the other revision. */
  lemma PerspectiveOfXIsAbsolute(b: seq<int>)
    requires ValidBoard(b)
    ensures Encode(Relative(b, X)) == Encode(b)
  {
    assert Relative(b, X) == b;
  }

  /** The empty board has index 0 from either side. */
  lemma {:induction false} EmptyBoardIndex(b: seq<int>, player: int)
    requires AllEmpty(b)
    ensures Encode(Relative(b, player)) == 0
  {
    if b != [] {
      EmptyBoardIndex(b[1..], player);
      assert Relative(b, player)[1..] == Relative(b[1..], player);
    }
  }

  // ---------------------------------------------------------------------------
  // End of game and reward

  /** checkWin: true iff some row, column or diagonal is complete. */
  method CheckWin(board: array<int>) returns (r: bool)
    requires board.Length == NUM_CELLS
    ensures r == HasLine(board[..])
  {
    for i := 0 to 3
      invariant forall l :: (0 <= l < i || 3 <= l < 3 + i) ==> !LineComplete(board[..], l)
    {
      LinesAt(i);
      if (board[3 * i] == board[3 * i + 1] && board[3 * i + 1] == board[3 * i + 2] && board[3 * i] != 0) ||
         (board[i] == board[i + 3] && board[i + 3] == board[i + 6] && board[i] != 0)
      {
        assert LineComplete(board[..], i) || LineComplete(board[..], 3 + i);
        return true;
      }
    }
    if (board[0] == board[4] && board[4] == board[8] && board[0] != 0) ||
       (board[2] == board[4] && board[4] == board[6] && board[2] != 0)
    {
      assert LineComplete(board[..], 6) || LineComplete(board[..], 7);
      return true;
    }
    return false;
  }

  /** checkDraw: true iff no cell is EMPTY, whether or not a line is complete. */
  method CheckDraw(board: array<int>) returns (r: bool)
    requires board.Length == NUM_CELLS
    ensures r == Full(board[..])
  {
    for i := 0 to 3
      invariant forall k :: 0 <= k < 3 * i ==> board[k] != EMPTY
    {
      for j := 0 to 3
        invariant forall k :: 0 <= k < 3 * i + j ==> board[k] != EMPTY
      {
        if board[3 * i + j] == EMPTY {
          return false;
        }
      }
    }
    return true;
  }

  /** gameOver: a complete line or a full board; the `player` argument plays no part. */
  method GameOver(board: array<int>, player: int) returns (r: bool)
    requires board.Length == NUM_CELLS
    ensures r == (HasLine(board[..]) || Full(board[..]))
  {
    var win := CheckWin(board);
    var draw := CheckDraw(board);
    r := win || draw;
  }

  /** The reward getReward gives a board for `player`: a complete line pays REWARD_WIN
      when `player` is X and REWARD_LOSE otherwise, a full board without a line pays
      REWARD_DRAW, and a game still in progress pays 0.0. */
  function RewardFor(b: seq<int>, player: int): real
    requires |b| == NUM_CELLS
  {
    if HasLine(b) then (if player == X then REWARD_WIN else REWARD_LOSE)
    else if Full(b) then REWARD_DRAW
    else 0.0
  }

  /** getReward. */
  method GetReward(board: array<int>, player: int) returns (r: real)
    requires board.Length == NUM_CELLS
    ensures r == RewardFor(board[..], player)
  {
    var win := CheckWin(board);
    if win {
      if player == X {
        return REWARD_WIN;
      } else {
        return REWARD_LOSE;
      }
    } else {
      var draw := CheckDraw(board);
      if draw {
        return REWARD_DRAW;
      } else {
        return 0.0;
      }
    }
  }

  /** The reward for a line follows the argument, not the winner: when O completes
      the top row, asking for X yields REWARD_WIN and asking for O yields REWARD_LOSE. */
  lemma RewardIgnoresWinner()
    ensures var b := [O, O, O, X, X, EMPTY, X, EMPTY, EMPTY];
      ValidBoard(b) && LineComplete(b, 0) && b[0] == O
      && RewardFor(b, X) == REWARD_WIN && RewardFor(b, O) == REWARD_LOSE
  {
    var b := [O, O, O, X, X, EMPTY, X, EMPTY, EMPTY];
    assert LineComplete(b, 0);
  }

  /** A full board with a complete line counts as a draw for checkDraw, yet the win is
      checked first, so its reward is REWARD_WIN or REWARD_LOSE, never REWARD_DRAW. */
  lemma FullWinningBoard()
    ensures var b := [X, X, X, O, O, X, X, O, O];
      Full(b) && HasLine(b) && RewardFor(b, X) == REWARD_WIN && RewardFor(b, O) == REWARD_LOSE
  {
    var b := [X, X, X, O, O, X, X, O, O];
    assert LineComplete(b, 0);
  }

  // ---------------------------------------------------------------------------
  // Agent

  /** What one call of getBestAction may return: draw % NUM_ACTIONS when it explores,
      otherwise the lowest action with the largest Q-value of the state. */
  predicate BestActionResult(q: array2<real>, s: nat, explore: bool, draw: nat, a: int)
    reads q
    requires s < q.Length0 && q.Length1 == NUM_ACTIONS
  {
    if explore then a == draw % NUM_ACTIONS else IsFirstArgmax(q, s, a)
  }

  /** The struct Agent: a NUM_STATES x NUM_ACTIONS table of Q-values and the mark it plays. */
  class Agent {
    const q: array2<real>
    var player: int

    ghost predicate Valid() {
      q.Length0 == NUM_STATES && q.Length1 == NUM_ACTIONS
    }

    /** Storage for an agent; the table holds nothing in particular until `Initialize`. */
    constructor ()
      ensures Valid() && fresh(q)
    {
      q := new real[NUM_STATES, NUM_ACTIONS];
    }

    /** initAgent: every Q-value becomes 0.0 and the agent plays X. */
    method Initialize()
      requires Valid()
      modifies this, q
      ensures forall s, a :: 0 <= s < NUM_STATES && 0 <= a < NUM_ACTIONS ==> q[s, a] == 0.0
      ensures player == X
    {
      for i := 0 to NUM_STATES
        invariant forall s, a :: 0 <= s < i && 0 <= a < NUM_ACTIONS ==> q[s, a] == 0.0
      {
        for j := 0 to NUM_ACTIONS
          invariant forall s, a :: 0 <= s < i && 0 <= a < NUM_ACTIONS ==> q[s, a] == 0.0
          invariant forall a :: 0 <= a < j ==> q[i, a] == 0.0
        {
          q[i, j] := 0.0;
        }
      }
      player := X;
    }

    /** updateQ: one step of Q-learning on entry (state, action), bootstrapping from the
        largest of all nine values of next_state; no other entry changes. */
    method UpdateQ(state: int, action: int, reward: real, nextState: int)
      requires Valid()
      requires 0 <= state < NUM_STATES && 0 <= action < NUM_ACTIONS && 0 <= nextState < NUM_STATES
      modifies q
      ensures q[state, action] == old(q[state, action])
        + ALPHA * (reward + GAMMA * old(RowMax(q, nextState, NUM_ACTIONS)) - old(q[state, action]))
      ensures forall s, a :: 0 <= s < NUM_STATES && 0 <= a < NUM_ACTIONS && (s != state || a != action) ==>
        q[s, a] == old(q[s, a])
    {
      var maxNextQ := q[nextState, 0];
      for i := 1 to NUM_ACTIONS
        invariant maxNextQ == RowMax(q, nextState, i)
      {
        if q[nextState, i] > maxNextQ {
          maxNextQ := q[nextState, i];
        }
      }
      q[state, action] := q[state, action] + ALPHA * (reward + GAMMA * maxNextQ - q[state, action]);
    }

    /** getBestAction: an action in [0, NUM_ACTIONS) in either branch; exploiting, the
        lowest action with the largest Q-value, occupied cells included. */
    method GetBestAction(state: int, explore: bool, draw: nat) returns (bestAction: int)
      requires Valid() && 0 <= state < NUM_STATES
      ensures 0 <= bestAction < NUM_ACTIONS
      ensures BestActionResult(q, state, explore, draw, bestAction)
    {
      bestAction := 0;
      if explore {
        bestAction := draw % NUM_ACTIONS;
      } else {
        var maxQ := q[state, 0];
        for i := 1 to NUM_ACTIONS
          invariant 0 <= bestAction < i && maxQ == q[state, bestAction]
          invariant forall k :: 0 <= k < i ==> q[state, k] <= maxQ
          invariant forall k :: 0 <= k < bestAction ==> q[state, k] < maxQ
        {
          if q[state, i] > maxQ {
            maxQ := q[state, i];
            bestAction := i;
          }
        }
      }
    }

    /** Lines 203-204 of train, the start of an episode: the board is cleared and the
        state is taken from the current player's side; the player is not reset. */
    method StartEpisode(board: array<int>) returns (state: int)
      requires Valid() && board.Length == NUM_CELLS
      modifies board
      ensures AllEmpty(board[..]) && state == 0
      ensures player == old(player)
    {
      InitBoard(board);
      state := GetState(board, player);
      EmptyBoardIndex(board[..], player);
    }

    /** One pass of the loop body of train (lines 206-211). The board receives the
        action of a first getBestAction call; the Q-update goes to the action of a
        second, independent call made on the same table; the reward and the next
        state are taken from the side that just moved; then the agent's mark flips. */
    method TrainPly(board: array<int>, state: int, explore1: bool, draw1: nat, explore2: bool, draw2: nat)
      returns (applied: int, updated: int, nextState: int, reward: real)
      requires Valid() && board.Length == NUM_CELLS && 0 <= state < NUM_STATES
      modifies this, q, board
      ensures old(BestActionResult(q, state, explore1, draw1, applied))
      ensures old(BestActionResult(q, state, explore2, draw2, updated))
      ensures board[..] == old(board[..])[applied := old(player)]
      ensures nextState == Encode(Relative(board[..], old(player))) && 0 <= nextState < NUM_STATES
      ensures reward == RewardFor(board[..], old(player))
      ensures q[state, updated] == old(q[state, updated])
        + ALPHA * (reward + GAMMA * old(RowMax(q, nextState, NUM_ACTIONS)) - old(q[state, updated]))
      ensures forall s, a :: 0 <= s < NUM_STATES && 0 <= a < NUM_ACTIONS && (s != state || a != updated) ==>
        q[s, a] == old(q[s, a])
      ensures player == (if old(player) == X then O else X)
    {
      applied := GetBestAction(state, explore1, draw1);
      UpdateBoard(board, applied, player);
      nextState := GetState(board, player);
      reward := GetReward(board, player);
      updated := GetBestAction(state, explore2, draw2);
      UpdateQ(state, updated, reward, nextState);
      player := if player == X then O else X;
    }
  }

  /** getNextState: the index, from `player`'s side, of a copy of the board with
      `player` placed at `action`; the board itself is not touched. */
  method GetNextState(board: array<int>, action: int, player: int) returns (nextState: int)
    requires board.Length == NUM_CELLS && 0 <= action < NUM_ACTIONS
    ensures nextState == Encode(Relative(board[..][action := player], player))
    ensures 0 <= nextState < NUM_STATES
  {
    var nextBoard := new int[NUM_CELLS];
    InitBoard(nextBoard);
    for i := 0 to 3
      invariant forall k :: 0 <= k < 3 * i ==> nextBoard[k] == board[k]
    {
      for j := 0 to 3
        invariant forall k :: 0 <= k < 3 * i + j ==> nextBoard[k] == board[k]
      {
        nextBoard[3 * i + j] := board[3 * i + j];
      }
    }
    assert nextBoard[..] == board[..];
    UpdateBoard(nextBoard, action, player);
    nextState := GetState(nextBoard, player);
  }
}
