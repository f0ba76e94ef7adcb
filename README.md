# Tic-tac-toe Q-learning engine and KNN selection, modelled in Dafny

This project models the core of the ML_in_C repository:

- the tabular Q-learning tic-tac-toe engine, in both of its revisions:
  - `Tic-Tac-Toe_ML/prueba_mejor.c`, in module `PruebaMejor`;
  - `Tic-Tac-Toe_ML/tic_tac_toe_main.c`, in module `TicTacToeMain`;
- the discrete parts of the k-nearest-neighbours classifier in `KNN_ML/knn_algorithm_main.c`, in module `Knn`:
  - the Fisher-Yates shuffle;
  - the train/test split;
  - the partial selection sort that picks the k nearest training points;
  - the majority vote;
  - the counting loop of `evaluate`.

Module `TicTacToe` (`tictactoe.dfy`) holds what the two revisions share:
- the constants;
- the base-3 state index `Encode` with its digit, bound and injectivity lemmas;
- the eight lines of the grid;
- the maximum and first argmax of a Q-table row.

A board `int cells[3][3]` is an `array<int>` of nine cells. Cell (i, j) sits at index 3*i + j, which is C's row-major layout, so an action a names index a. A Q-table `double q[NUM_STATES][NUM_ACTIONS]` is an `array2<real>`. An agent is a class whose fields are that table and the mark it plays. Each method that loops or writes is proved against a function on `board[..]`. Lemmas then state what that function means: which boards win, which reward a board earns, which cells a move may land on.

Every call of `rand()` is a parameter:
- an explore flag for the `rand()/RAND_MAX < EPSILON` test;
- the raw draws, reduced modulo 9, by the number of EMPTY cells, or by i + 1, as the C code reduces them.

## Model

| member | source | states |
|---|---|---|
| TicTacToe.EncodeSnoc | Tic-Tac-Toe_ML/prueba_mejor.c:100-105 | One loop step of `state += cell * power; power *= 3` appends a digit with weight 3^k |
| TicTacToe.EncodeBounds | Tic-Tac-Toe_ML/prueba_mejor.c:97-107 | Digits in {0,1,2} give an index in [0, 3^n) |
| TicTacToe.EncodeDigit | Tic-Tac-Toe_ML/prueba_mejor.c:97-107 | The k-th base-3 digit of the index is cell k, so the board can be read back from the index |
| TicTacToe.EncodeInjective | Tic-Tac-Toe_ML/prueba_mejor.c:97-107 | Distinct EMPTY/X/O boards get distinct state indices |
| TicTacToe.BoardIndexInRange | Tic-Tac-Toe_ML/prueba_mejor.c:14 | An EMPTY/X/O board has an index below NUM_STATES = 19683 |
| TicTacToe.RowMax | Tic-Tac-Toe_ML/prueba_mejor.c:84-90 | The maximum of a Q-table row bounds every entry and is attained by one |
| TicTacToe.FirstArgmaxUnique | Tic-Tac-Toe_ML/tic_tac_toe_main.c:174-180 | The greedy action with lowest-index tie-break is unique |
| PruebaMejor.Agent.Initialize | Tic-Tac-Toe_ML/prueba_mejor.c:35-42 | Every Q-value becomes 0.0 and the agent plays X |
| PruebaMejor.InitializeBoard | Tic-Tac-Toe_ML/prueba_mejor.c:45-51 | Every cell becomes EMPTY |
| PruebaMejor.TruncateToInt | Tic-Tac-Toe_ML/prueba_mejor.c:82 | Converting a double to the `int reward` parameter truncates toward zero |
| PruebaMejor.RewardArgumentTruncated | Tic-Tac-Toe_ML/prueba_mejor.c:16-19 | Passed as `int`, REWARD_DRAW and REWARD_NONE become 0; WIN and LOSE stay 1 and -1 |
| PruebaMejor.UpdateQTable | Tic-Tac-Toe_ML/prueba_mejor.c:82-94 | Q(s,a) becomes old + ALPHA*(reward + GAMMA*max over all nine Q(s',·) - old), taken from the old table; every other entry is unchanged |
| PruebaMejor.CalculateState | Tic-Tac-Toe_ML/prueba_mejor.c:97-107 | Returns the base-3 index of the cells in row-major order; for EMPTY/X/O boards it is in [0, NUM_STATES) |
| PruebaMejor.GetState | Tic-Tac-Toe_ML/prueba_mejor.c:232-251 | Ten characters: '0'/'1'/'2' for EMPTY/X/O cells, then NUL |
| PruebaMejor.StateStringDigits | Tic-Tac-Toe_ML/prueba_mejor.c:232-251 | Character k of the state string is '0' plus digit k of `calculate_state` |
| PruebaMejor.IsWinState | Tic-Tac-Toe_ML/prueba_mejor.c:155-172 | 1 iff some row, column or diagonal holds three equal non-EMPTY values, else 0 |
| PruebaMejor.IsDrawState | Tic-Tac-Toe_ML/prueba_mejor.c:175-193 | 1 iff the board is full and has no complete line |
| PruebaMejor.IsGameOver | Tic-Tac-Toe_ML/prueba_mejor.c:195-204 | 1 on a win, -1 on a full board without a line, 0 otherwise; a win outranks a full board |
| PruebaMejor.FirstRowOrColumn | Tic-Tac-Toe_ML/prueba_mejor.c:112-117 | The first i whose row or column is complete; no earlier row or column is complete |
| PruebaMejor.CalculateReward | Tic-Tac-Toe_ML/prueba_mejor.c:110-134 | The reward is `RewardOf`: the first complete row/column is scored by cells[i][0], a diagonal by the centre, then all-EMPTY gives DRAW and anything else NONE |
| PruebaMejor.RewardJudgedByRowHead | Tic-Tac-Toe_ML/prueba_mejor.c:112-116 | When row i or column i is the first complete one, cells[i][0] == X decides WIN vs LOSE, even for a column |
| PruebaMejor.ColumnWinScoredByWrongCell | Tic-Tac-Toe_ML/prueba_mejor.c:114-115 | A board where X completes column 1 scores REWARD_LOSE |
| PruebaMejor.RewardDiagonal | Tic-Tac-Toe_ML/prueba_mejor.c:118-121 | With no complete row or column, a complete diagonal scores WIN iff its own mark is X |
| PruebaMejor.RewardOnLine | Tic-Tac-Toe_ML/prueba_mejor.c:112-121 | Any complete line yields REWARD_WIN or REWARD_LOSE |
| PruebaMejor.RewardWithoutLine | Tic-Tac-Toe_ML/prueba_mejor.c:123-133 | Without a line, DRAW comes only from the all-EMPTY board; a full board scores NONE |
| PruebaMejor.TurnState.constructor | Tic-Tac-Toe_ML/prueba_mejor.c:136 | `player_turn` starts at 1 |
| PruebaMejor.TurnState.UpdateBoard | Tic-Tac-Toe_ML/prueba_mejor.c:139-152 | Writes X when `player_turn` is 1 and O otherwise into the action's cell; the flag becomes 2 or 1 |
| PruebaMejor.ExecuteAction | Tic-Tac-Toe_ML/prueba_mejor.c:222-229 | Writes `player` into the action's cell and changes nothing else |
| PruebaMejor.EmptyCells | Tic-Tac-Toe_ML/prueba_mejor.c:296-303 | The EMPTY-cell list has at most nine in-range entries |
| PruebaMejor.EmptyCellsSpec | Tic-Tac-Toe_ML/prueba_mejor.c:296-303 | The list holds exactly the EMPTY cells, in strictly increasing order |
| PruebaMejor.EmptyCellsStep | Tic-Tac-Toe_ML/prueba_mejor.c:298-301 | Scanning one more cell appends it iff it is EMPTY |
| PruebaMejor.AcceptedActionsAreEmptyCells | Tic-Tac-Toe_ML/prueba_mejor.c:212 | `get_user_action` accepts an action iff it is one of the EMPTY cells |
| PruebaMejor.MakeRandomMove | Tic-Tac-Toe_ML/prueba_mejor.c:291-317 | Puts the player on the (draw mod n)-th EMPTY cell in row-major order; a full board is unchanged |
| PruebaMejor.ExploreFrom | Tic-Tac-Toe_ML/prueba_mejor.c:272-276 | The explored action is always a cell index in [0, 9) |
| PruebaMejor.ExploreResult | Tic-Tac-Toe_ML/prueba_mejor.c:272-276 | The explored action is attempt t's draw, all earlier attempts hit occupied cells, and it is EMPTY unless all nine attempts missed |
| PruebaMejor.ExploreMayReturnOccupied | Tic-Tac-Toe_ML/prueba_mejor.c:272-276 | On a board with an EMPTY cell, nine unlucky draws return an occupied cell |
| PruebaMejor.SelectAction | Tic-Tac-Toe_ML/prueba_mejor.c:254-289 | A full board gives -1; exploring gives the attempt loop's result; exploiting gives the lowest EMPTY cell with the largest Q-value |
| TicTacToeMain.InitBoard | Tic-Tac-Toe_ML/tic_tac_toe_main.c:31-37 | Every cell becomes EMPTY |
| TicTacToeMain.UpdateBoard | Tic-Tac-Toe_ML/tic_tac_toe_main.c:106-110 | Writes `player` into the action's cell and changes nothing else |
| TicTacToeMain.Relative | Tic-Tac-Toe_ML/tic_tac_toe_main.c:90-98 | The player-relative digits are all in {0,1,2}, whatever the cells hold |
| TicTacToeMain.GetState | Tic-Tac-Toe_ML/tic_tac_toe_main.c:85-103 | Returns the base-3 index of the digits EMPTY→0, own mark→1, else→2; always in [0, NUM_STATES) |
| TicTacToeMain.PerspectiveSwapsDigits | Tic-Tac-Toe_ML/tic_tac_toe_main.c:85-103 | O's index is X's index with digits 1 and 2 exchanged |
| TicTacToeMain.PerspectiveOfXIsAbsolute | Tic-Tac-Toe_ML/tic_tac_toe_main.c:85-103 | Seen from X, the index equals the absolute index of `calculate_state` |
| TicTacToeMain.EmptyBoardIndex | Tic-Tac-Toe_ML/tic_tac_toe_main.c:203-204 | The empty board has index 0 from either side |
| TicTacToeMain.CheckWin | Tic-Tac-Toe_ML/tic_tac_toe_main.c:113-130 | True iff some row, column or diagonal is complete |
| TicTacToeMain.CheckDraw | Tic-Tac-Toe_ML/tic_tac_toe_main.c:133-142 | True iff no cell is EMPTY, line or not |
| TicTacToeMain.GameOver | Tic-Tac-Toe_ML/tic_tac_toe_main.c:145-147 | True iff a line is complete or the board is full; the player argument plays no part |
| TicTacToeMain.GetReward | Tic-Tac-Toe_ML/tic_tac_toe_main.c:150-165 | The reward is `RewardFor`: a line pays WIN when asked for X and LOSE otherwise, whoever made it; a full board pays DRAW; otherwise 0.0 |
| TicTacToeMain.RewardIgnoresWinner | Tic-Tac-Toe_ML/tic_tac_toe_main.c:151-157 | When O completes a row, the reward for X is WIN and for O is LOSE |
| TicTacToeMain.FullWinningBoard | Tic-Tac-Toe_ML/tic_tac_toe_main.c:151-161 | A full board with a line is a draw to `checkDraw`, yet its reward is WIN or LOSE, never DRAW |
| TicTacToeMain.Agent.Initialize | Tic-Tac-Toe_ML/tic_tac_toe_main.c:40-47 | Every Q-value becomes 0.0 and the agent plays X |
| TicTacToeMain.Agent.UpdateQ | Tic-Tac-Toe_ML/tic_tac_toe_main.c:74-82 | Q(s,a) += ALPHA*(reward + GAMMA*max over all nine old Q(s',·) - old Q(s,a)); every other entry is unchanged |
| TicTacToeMain.Agent.GetBestAction | Tic-Tac-Toe_ML/tic_tac_toe_main.c:168-183 | Always an action in [0, 9): draw % 9 when exploring; otherwise the lowest action with the largest Q-value, occupied cells included |
| TicTacToeMain.Agent.StartEpisode | Tic-Tac-Toe_ML/tic_tac_toe_main.c:203-204 | The board is cleared, the state is 0, and the player is not reset |
| TicTacToeMain.Agent.TrainPly | Tic-Tac-Toe_ML/tic_tac_toe_main.c:206-211 | The board takes the first getBestAction's action. The Q-update goes to a second, independent call's action. Reward and next state are taken from the mover's side. The player flips X↔O |
| TicTacToeMain.GetNextState | Tic-Tac-Toe_ML/tic_tac_toe_main.c:186-196 | The player-relative index of a copy of the board with the move applied; the board is untouched |
| Knn.Swap | KNN_ML/knn_algorithm_main.c:41-43 | Exchanges positions i and j and leaves all others |
| Knn.SwapPermutes | KNN_ML/knn_algorithm_main.c:41-43 | One exchange keeps the multiset of elements |
| Knn.ShufflePermutes | KNN_ML/knn_algorithm_main.c:35-45 | Whatever the draws, the shuffle keeps the length and the multiset of elements |
| Knn.ShuffleData | KNN_ML/knn_algorithm_main.c:35-45 | The array becomes the shuffle of its old contents (i from count-1 down to 1, j = draw % (i+1)) and is a permutation of them |
| Knn.SplitData | KNN_ML/knn_algorithm_main.c:48-62 | train = data[..trainCount], test = data[trainCount..], trainCount + testCount = count, and train ++ test = data |
| Knn.FirstMin | KNN_ML/knn_algorithm_main.c:120-125 | The inner loop's index is the first position of a minimum of the remaining buffer |
| Knn.FirstMinUnique | KNN_ML/knn_algorithm_main.c:120-125 | That position is unique |
| Knn.Selection | KNN_ML/knn_algorithm_main.c:118-128 | Step t reports an index in [t, train_count) |
| Knn.SelectionStep | KNN_ML/knn_algorithm_main.c:120-127 | One step reports the first minimum m and continues from the buffer with d[m] overwritten by d[i] |
| Knn.FirstNeighbourIsNearest | KNN_ML/knn_algorithm_main.c:118-126 | neighbors[0] is the first training point at the globally smallest distance |
| Knn.SelectionCanRepeat | KNN_ML/knn_algorithm_main.c:126-127 | For distances 1.0, 0.0, 2.0 and k = 2 the neighbours are points 1 and 1; point 0 is lost |
| Knn.FindKNearestNeighbors | KNN_ML/knn_algorithm_main.c:111-130 | neighbors[0..k) receives the selection; only a local copy of the distances is overwritten |
| Knn.Count | KNN_ML/knn_algorithm_main.c:141-146 | A label's count is at most the number of neighbours |
| Knn.CountOwnLabel | KNN_ML/knn_algorithm_main.c:142-145 | Each neighbour's label counts at least itself |
| Knn.CountAbsent | KNN_ML/knn_algorithm_main.c:142-145 | A class absent from the neighbours has count 0 |
| Knn.FirstMajority | KNN_ML/knn_algorithm_main.c:139-152 | The kept neighbour lies among those scanned |
| Knn.FirstMajorityIsFirstArgmax | KNN_ML/knn_algorithm_main.c:147-151 | The kept label has the largest count, and every earlier neighbour's count is strictly smaller |
| Knn.Vote | KNN_ML/knn_algorithm_main.c:137-154 | NULL exactly when there are no neighbours |
| Knn.VoteIsMajority | KNN_ML/knn_algorithm_main.c:137-154 | The winner is a neighbour's label, no class occurs more often, and ties go to the earliest neighbour |
| Knn.VoteStep | KNN_ML/knn_algorithm_main.c:147-151 | Neighbour i's label is kept exactly when its count exceeds `max_count` |
| Knn.PredictIsNeighbourLabel | KNN_ML/knn_algorithm_main.c:138-154 | k == 0 gives NULL; otherwise the class is the label of one of the selected neighbours |
| Knn.Classify | KNN_ML/knn_algorithm_main.c:133-155 | Returns the majority vote over the labels of the selected neighbours |
| Knn.CorrectCount | KNN_ML/knn_algorithm_main.c:160-166 | The number of correct predictions among n test items is at most n |
| Knn.AllCorrect | KNN_ML/knn_algorithm_main.c:160-166 | The count equals the number of items iff every prediction matches its label |
| Knn.CountCorrectPredictions | KNN_ML/knn_algorithm_main.c:160-166 | `correct_predictions` equals the number of test items predicted with their own label, at most test_count |

The code departs from what its comments and the rules of the game suggest in these places; the model follows the code, and the lemmas above pin each place down:
- `prueba_mejor.c` scores a column win by `cells[i][0]`, the head of the row with the same index, not by the column's mark (`ColumnWinScoredByWrongCell`); `tic_tac_toe_main.c` scores any line by the `player` argument, not by the mark that made it (`RewardIgnoresWinner`).
- `calculate_reward` in `prueba_mejor.c` returns REWARD_DRAW only for the all-EMPTY board and REWARD_NONE for every other board without a complete line, a full one included (`RewardWithoutLine`).
- `checkDraw` in `tic_tac_toe_main.c` returns true for any full board, whether or not it holds a complete line (`CheckDraw`, `FullWinningBoard`).
- The exploring branch of `select_action` gives up after nine draws and can then return an occupied cell (`ExploreMayReturnOccupied`); `getBestAction` never looks at the board, so both its random and its greedy choice can be an occupied cell (`GetBestAction`).
- The maximum of the next state's Q-values in `update_q_table` and `updateQ` ranges over all nine actions, occupied cells included (`UpdateQTable`, `UpdateQ`).
- `train` calls `getBestAction` twice per ply, once for the move it plays and once for the action it updates (`TrainPly`).

## Left out

- Console and file I/O: display_board, print_q_values, printBoard, exportQ, read_data, write_results_to_csv, plot_data and the main functions print, read or write files only.
- The interactive loop of get_user_action (prompt, scanf, retry) is I/O; only its acceptance test is modelled (`AcceptsUserAction`).
- srand/rand: each value rand() would return is a parameter, and the EPSILON probability is not modelled; the explore flag stands for the outcome of `rand()/RAND_MAX < EPSILON`.
- IEEE doubles and floats: Q-values, ALPHA, GAMMA, rewards, measurements and distances are reals, so rounding and NaN are not modelled. The `-INFINITY` starting maxima are a "no value yet" flag.
- TicTacToeMain.GetState: `pow(3, k)` is a double; the model adds exact powers of three, which the doubles represent exactly in this range.
- evaluate_agent, the 10000-episode loop of train and the game loops of both main functions are not modelled. They may pass -1 or an occupied cell as an action, so they need not terminate and can write out of bounds. `TrainPly` models one pass of train's loop body and `StartEpisode` the start of an episode.
- PruebaMejor.GetState: a cell value other than EMPTY, X or O leaves its character uninitialised, so the contract says nothing about that character; the malloc'd buffer is a fresh array here.
- PruebaMejor.MakeRandomMove: the C parameter `current_player` is a `char`; the model takes an int and does not narrow it.
- The `srand(time(NULL))` reseeding inside select_action and shuffle_data is not modelled; the draws are whatever values `rand()` would return after it.
- KNN numerics: normalize_data and calculate_distance use pow and sqrt, so the distances of the training points to a query are an input. The accuracy division at line 167 and the `(int)(0.7 * count)` at line 50 are floating point, so `trainCount` is an input.
- Knn: the data count is the length of the array; read_data's fixed 150-element buffer is not modelled.
- Knn: pointers into the training set (`&train[m]`) are indices, and `strcmp(...) == 0` is string equality.
- Knn.CountCorrectPredictions requires k >= 1: for k == 0 classify returns NULL and the strcmp at line 164 is undefined.
- PruebaMejor.CalculateState: the model's index is an unbounded integer, exact for any cell values; C's `int state` (prueba_mejor.c:98-103) would overflow only for cell values around 10^5 or more. Every caller writes EMPTY, X or O (or a `char`) into the board, so 32-bit overflow is not modelled.
- Knn.FindKNearestNeighbors and Knn.Classify require k <= train_count: for a larger k the loops at knn_algorithm_main.c:118-127 read `distances` and `train` out of bounds, which C leaves undefined.
- K_means_ML/k_means_main.c is not part of this model.
