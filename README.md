# A verified model of the dlgo Go engine

This project is a Dafny model of the rules engine and the two simple search agents of
the dlgo Go program, written in Python. It covers:

- **Moves and strings** (`gostrings.dfy`, module `GoStrings`). A `Move` is a play, a pass
  or a resignation. Its constructor accepts the flags exactly when an odd number of them
  hold. A `GoString` is a value: a colour, a set of stones and a set of liberties.
- **The position hash** (`zobrist.dfy`, module `Zobrist`). The hash of a grid is the
  empty-board code xor-ed with the code of every occupied point. Xor is defined on
  naturals, because Python integers are unbounded.
- **Placing a stone** (`placement.dfy`, module `Placement`). `Placed` is a pure statement
  of what `place_stone` does:
  1. It surveys the neighbours.
  2. It merges the same-colour strings.
  3. It writes the new string.
  4. It takes a liberty from each adjacent enemy string, and captures the strings left
     with none.

  The lemmas show that a placement keeps the board invariant. That invariant says that
  every stone maps to its own maximal string, and that a string's liberties are exactly
  its empty on-grid neighbours. The lemmas also describe which stones remain.
- **The board** (`goboard.dfy`, class `GoBoard.Board`). The `Board` updates its grid and
  hash in place. `place_stone`, `_replace_string` and `_remove_string` are methods. Each
  is proved to produce `Placed`, and to keep the hash equal to the hash of the grid.
- **Scoring** (`scoring.dfy`, module `Scoring`). `evaluate_territory` and the recursive
  `_collect_region` are proved against a declarative territory map. In that map, an
  empty point belongs to a player exactly when its connected empty region borders only
  that player's stones. `Territory` and `GameResult` are modelled as well, with komi 7.5.
- **The game record** (`gogame.dfy`, datatype `GoGame.GameState`). This covers applying
  a move, the end of the game, self-capture, positional superko through the situations of
  all ancestors, the validity of a move, the list of legal moves, the winner, and
  `new_game`.
- **The agent helpers** (`helpers.dfy`, module `Helpers`). This covers the eye test,
  `capture_diff`, `current_score` and `alpha_beta`. The search is a loop method, proved
  equal to a recursive function `Search`. `Search` is in turn related to a minimax value.
- **Monte Carlo tree search** (`montecarlo.dfy`, module `MonteCarlo`). `MCTSNode` is a
  class linked to its parent and its children. `MonteBot` keeps the tree shaped and the
  counters consistent while it selects, expands and backpropagates, and then makes the
  final choice.
- **The naive agents** (`naive.dfy`, module `Naive`). `RandomBot` and `AlphaBetaBot` are
  modelled, and related to each other: both consider the same candidate moves.

The model follows the code where the code does something surprising:

- **Captures give the new string a liberty.** When `_remove_string` frees a point, every
  neighbouring string other than the captured one gains that point as a liberty
  (dlgo/goboard.py:144-145). That includes the string that was just placed.
- **`alpha_beta` never looks past the current state.** It calls `apply_move` on a copy of
  the state and discards the result (dlgo/agents/helpers.py:95-97 and 119-121). Every
  recursive call therefore searches the same state one level shallower, with the other
  side to move. In the model, the search runs over one `Node` that stands for that single
  state. `Helpers.MinimaxIsStatic` shows the consequence: whatever the depth, the value
  of an unfinished position is its static evaluation.
- **A resignation with a point is a play.** `Move`'s constructor checks an exclusive-or of
  three flags, so a point together with both the pass and the resign flags is accepted.
  `GoStrings.NewMoveAccepts` states this.

## Model

| member | source | states |
|---|---|---|
| GoTypes.RowMajorFacts | dlgo/goboard.py:225-226 | the row-by-row, column-by-column enumeration that `legal_moves` walks has rows×cols points; they are exactly the on-grid points, in strictly increasing order and without repeats |
| GoStrings.NewMove | dlgo/goboard.py:11-19 | a move is built exactly when an odd number of "point given", "pass" and "resign" hold; it keeps the given fields, and it is a play exactly when a point is given |
| GoStrings.NewMoveAccepts | dlgo/goboard.py:14-31 | `play`, `pass_turn` and `resign` build the expected moves; an empty move, a point with pass, and a point with resign are rejected; all three flags together are accepted, as a play |
| GoStrings.GoString.WithoutLiberty | dlgo/goboard.py:43-45 | the colour and stones are kept; the point is no longer a liberty; every other liberty is kept; the count drops by one exactly when the point was a liberty |
| GoStrings.GoString.WithLiberty | dlgo/goboard.py:47-49 | the colour and stones are kept; the point becomes a liberty; every other liberty is kept; the count grows by one exactly when the point was not a liberty |
| GoStrings.GoString.MergedWith | dlgo/goboard.py:51-60 | the merged string has the shared colour and the union of the stones; its liberties are the liberties of either string that are not stones; stones and liberties are disjoint |
| GoStrings.MergedWithCommutes | dlgo/goboard.py:51-60 | merging two strings of one colour gives the same string in either order |
| GoStrings.StringsDisjoint | dlgo/goboard.py:105-106 | on a board where every stone maps to a string that contains it, two stones map to the same string or to strings with no stone in common |
| GoStrings.EmptyGridWellFormed | dlgo/goboard.py:75-79 | the empty grid of a new board satisfies the board invariant |
| Zobrist.EmptyPositionHash | dlgo/goboard.py:79 | the hash of the empty grid is the empty-board code |
| Zobrist.PositionHashPlace | dlgo/goboard.py:108 | when a grid gains a stone of colour c at an on-grid point, and no other colour changes, its hash is the old hash xor the code of (point, c) |
| Zobrist.PositionHashRemove | dlgo/goboard.py:148 | when a grid loses a stone of colour c at an on-grid point, and no other colour changes, its hash is the old hash xor the code of (point, c) |
| Zobrist.PositionHashColoursOnly | dlgo/goboard.py:134-136 | the hash depends only on which points hold which colour, so rewriting strings leaves it unchanged |
| Placement.ScanFacts | dlgo/goboard.py:85-99 | the neighbour survey collects exactly the empty on-grid neighbours as liberties, and the distinct strings found on on-grid neighbours, split by colour into same and opposite |
| Placement.SurveyFacts | dlgo/goboard.py:85-99 | on a well-formed grid, a string is listed as same (opposite) exactly when it has the player's (the other) colour and touches the point; the liberties are the point's free neighbours; no opposite string is listed twice |
| Placement.MergeAll | dlgo/goboard.py:101-104 | merging the same-colour strings into the new string gives their common colour, the union of all the stones, and the union of all the liberties minus those stones |
| Placement.NewStringStones | dlgo/goboard.py:101-104 | the stones of the new string are the placed point and every stone of an own-colour string that touches it |
| Placement.NewStringLiberties | dlgo/goboard.py:101-106 | the liberties of the new string are exactly its empty on-grid neighbours once it is written |
| Placement.WrittenInv | dlgo/goboard.py:101-108 | after the merged string is written, it is the merge of the stones around the point, and the invariant of the capture loop holds for the adjacent opposite strings |
| Placement.CapturedStones | dlgo/goboard.py:110-115 | a stone is removed exactly when it belongs to one of the adjacent opposite strings that has no liberty left once the point is taken away |
| Placement.CapturedFacts | dlgo/goboard.py:110-115 | a stone is captured exactly when it is an opponent's stone whose string touches the point and has no liberty other than the point |
| Placement.TrimStep | dlgo/goboard.py:111-113 | replacing an opposite string that keeps a liberty preserves the capture-loop invariant and removes no stone |
| Placement.RemoveStep | dlgo/goboard.py:114-115 | removing an opposite string that has no liberty left preserves the capture-loop invariant and removes exactly that string's stones |
| Placement.PendingApart | dlgo/goboard.py:110-115 | two different opposite strings next to the point never touch, so removing one of them never changes the other |
| Placement.CaptureAllFacts | dlgo/goboard.py:110-115 | the whole capture loop leaves a well-formed board, and removes exactly the captured stones |
| Placement.PlacedFacts | dlgo/goboard.py:81-115 | after a placement the grid is well-formed and the point holds the player's merged string; a point is occupied exactly when it is the placed point or was occupied and not captured; colours never change; strings away from the new one are kept |
| GoBoard.ClearStep | dlgo/goboard.py:139-148 | clearing one stone of a captured string gives the grid with that stone also removed (and its neighbours' liberties restored), and toggles the hash by that stone's code |
| GoBoard.MergeStrings | dlgo/goboard.py:101-104 | the merging loop computes the merge of the new string with all same-colour neighbours |
| GoBoard.Board.constructor | dlgo/goboard.py:75-79 | a new board has the given size, an empty grid and the empty-board hash, and satisfies the board invariant |
| GoBoard.Board.Copy | dlgo/goboard.py:169 | the deep copy is a fresh board with the same size, Zobrist table, grid and hash |
| GoBoard.Board.ZobristHash | dlgo/goboard.py:131-132 | on a consistent board the stored hash is the hash of the grid |
| GoBoard.Board.ReplaceString | dlgo/goboard.py:134-136 | each stone of the string now maps to the new string; the hash is unchanged and still matches the grid |
| GoBoard.Board.FreeNeighbours | dlgo/goboard.py:140-145 | every neighbour of a cleared stone whose string is not the captured one gains that stone's point as a liberty; the hash still matches |
| GoBoard.Board.ClearPoint | dlgo/goboard.py:139-148 | one turn of the removal loop: the stone is cleared, its neighbours gain a liberty, and the hash still matches the grid |
| GoBoard.Board.RemoveString | dlgo/goboard.py:138-148 | the grid becomes the old grid with the string's stones removed and the freed points given back as liberties to the strings around them; the hash matches the new grid |
| GoBoard.Board.SurveyNeighbours | dlgo/goboard.py:85-99 | the loop over the four neighbours computes the survey of the point |
| GoBoard.Board.WriteString | dlgo/goboard.py:105-106 | every stone of the new string maps to it; the hash is not touched |
| GoBoard.Board.ResolveCaptures | dlgo/goboard.py:110-115 | the loop over the opposite strings gives the captured grid, and leaves the board consistent with the placed stone in it |
| GoBoard.Board.PlaceStone | dlgo/goboard.py:81-115 | placing a stone on an empty on-grid point keeps the board consistent, grid and hash alike; the grid becomes `Placed`, and the point holds the player's colour |
| GoGame.NewState | dlgo/goboard.py:152-165 | a state records its board, player, previous state and move; `previous_states` is empty at the start, and otherwise is the previous state's set plus that state's own situation |
| GoGame.GameState.Successor | dlgo/goboard.py:167-190 | the next state has the other player to move, this state as its previous state, and the move as its last move; it is over exactly after a resignation or a second pass in a row |
| GoGame.GameState.SituationsMeaning | dlgo/goboard.py:158-164 | `previous_states` holds a (player, hash) pair exactly when some strict ancestor had that player to move on a board with that hash |
| GoGame.GameState.ApplyMove | dlgo/goboard.py:167-173 | a play places the mover's stone on a fresh copy of the board and leaves the old board untouched; a pass or a resignation shares the board; the new state is consistent and records this state's situation |
| GoGame.NewGame | dlgo/goboard.py:175-180 | a square or rectangular empty board, Black to move, with no history and not over |
| GoGame.GameState.IsMoveSelfCapture | dlgo/goboard.py:192-198 | true exactly for a play whose string has no liberty once the stone is placed and the captures are taken |
| GoGame.LibertyAfterPlay | dlgo/goboard.py:192-198 | a play with a neighbour that stays empty after placement is not self-capture |
| GoGame.EmptyNeighbourNotSelfCapture | dlgo/goboard.py:192-198 | a play next to an empty on-grid point is not self-capture |
| GoGame.CaptureNotSelfCapture | dlgo/goboard.py:192-198 | a play that captures at least one stone is not self-capture |
| GoGame.SelfCaptureCapturesNothing | dlgo/goboard.py:192-198 | a self-capturing play removes no stone |
| GoGame.GameState.DoesMoveViolateKo | dlgo/goboard.py:204-210 | true exactly for a play after which the pair (opponent to move, hash of the new grid) is among the situations seen before |
| GoGame.GameState.IsValidMove | dlgo/goboard.py:212-221 | nothing is valid after the game is over; otherwise a pass or a resignation is valid, and a play is valid exactly when its point is empty, it is not self-capture and it does not repeat a situation |
| GoGame.GameState.LegalMoves | dlgo/goboard.py:223-230 | a pass, a resignation, and then every valid play, in row-major order |
| GoGame.GameState.AppendRow | dlgo/goboard.py:226-229 | the inner loop appends the valid plays of one row, in column order |
| GoGame.LegalMovesMembers | dlgo/goboard.py:223-230 | the legal moves have no repeats, and list a play exactly when it is on the grid and valid |
| GoGame.GameState.Winner | dlgo/goboard.py:232-238 | nobody while the game goes on; after a resignation, the player to move (the opponent of the resigner); otherwise the winner of the area count |
| Scoring.FillMeaning | dlgo/scoring.py:62-67 | an empty region becomes territory of a colour exactly when only that colour borders it, and neutral exactly when nothing or both colours border it |
| Scoring.ConnectedContent | dlgo/scoring.py:73-94 | points connected through same-content neighbours have the same content and are on the grid |
| Scoring.RegionShared | dlgo/scoring.py:73-94 | every point of a region has that same region and the same content |
| Scoring.CollectRegion | dlgo/scoring.py:73-94 | the recursive flood fill returns each newly reached point once, all connected to the start with its content; it marks them visited; it returns the contents that border them |
| Scoring.GroupStatus | dlgo/scoring.py:61-69 | the region collected from an empty point is its whole region, and every point of it gets the status the territory map gives |
| Scoring.EvaluatePoint | dlgo/scoring.py:54-69 | one turn of the double loop marks the point, and keeps every mark in agreement with the territory map |
| Scoring.MarkRegion | dlgo/scoring.py:68-69 | filling a region keeps every mark in agreement with the territory map, and marks the region's first point |
| Scoring.EvaluateTerritory | dlgo/scoring.py:50-70 | the status of every point is its territory-map status: a stone its colour, an empty point the territory of the only colour bordering its region, or neutral |
| Scoring.NewTerritory | dlgo/scoring.py:9-28 | each counter is the number of points with that status; the counters add up to the number of points; the neutral list holds each neutral point once |
| Scoring.StonesTallied | dlgo/scoring.py:17-21 | in the territory map of a board, the number of points with a colour's stone status is the number of that colour's stones |
| Scoring.GameResult.WinningMargin | dlgo/scoring.py:38-41 | the margin is the non-negative difference between Black's points and White's points plus komi |
| Scoring.NoTie | dlgo/scoring.py:31-41 | with komi 7.5 the margin is at least 0.5, and Black wins exactly when it has at least 8 more points than White |
| Scoring.SignedMargin | dlgo/scoring.py:31-41 | the margin, signed by the winner, is Black's points minus White's points plus komi |
| Scoring.ComputeGameResult | dlgo/scoring.py:97-103 | the result is the area count: territory plus stones for each colour, with komi 7.5 |
| Helpers.CountsMeaning | dlgo/agents/helpers.py:21-38 | friendly and off-grid corners together are all four corners exactly when every on-grid corner is friendly, and there is an off-grid corner exactly when that count is positive |
| Helpers.IsPointAnEye | dlgo/agents/helpers.py:11-38 | true exactly when the point is empty, every on-grid neighbour holds the colour, and either all on-grid corners do (at an edge) or at least three of the four do |
| Helpers.CountAllStones | dlgo/agents/helpers.py:44-51 | the row-by-row count of a colour's stones is the number of that colour's stones on the board |
| Helpers.CaptureDiff | dlgo/agents/helpers.py:41-55 | the difference between the mover's stones and the opponent's stones on the board |
| Helpers.CurrentScore | dlgo/agents/helpers.py:58-62 | Black's area minus White's area plus komi: the margin, positive when Black wins and negative when White wins |
| Helpers.Search | dlgo/agents/helpers.py:74-81 | a finished game scores +inf when Black wins on area and -inf otherwise; depth 0 scores the evaluation; without `return_move` the result is always a score |
| Helpers.SkipsMove | dlgo/agents/helpers.py:89-94 | the loop skips a move exactly when it is a pass, a resignation or a play into an eye of the mover |
| Helpers.AlphaBeta | dlgo/agents/helpers.py:65-129 | the recursive search returns `Search` of the state's node |
| Helpers.SearchMoves | dlgo/agents/helpers.py:83-129 | the move loop of either side computes the best score and best move that `Scan` gives |
| Helpers.AlphaBetaWindow | dlgo/agents/helpers.py:65-129 | alpha-beta is fail-soft correct: inside the window it returns the minimax value, and a value at or beyond a bound is reported at or beyond that bound |
| Helpers.ScanWindow | dlgo/agents/helpers.py:88-103 | the move loop's best score relates to the minimax value of the child by the same bounds, from any loop state |
| Helpers.FullWindow | dlgo/agents/helpers.py:65-81 | with the full window (-inf, +inf) the search returns the minimax value |
| Helpers.MinimaxIsStatic | dlgo/agents/helpers.py:95-97 | because the successor is discarded, an unfinished game with a candidate move has minimax value equal to its static evaluation at every depth |
| Helpers.ScanFirstChoice | dlgo/agents/helpers.py:98-99 | with the full window, the move the loop records is the first candidate, unless the child's value equals the side's initial bound |
| Helpers.RootChoice | dlgo/agents/helpers.py:83-105 | with `return_move`, the search returns the first candidate, or `None` when there is none or the value equals the initial bound |
| Helpers.RootPlaysFirstCandidate | dlgo/agents/helpers.py:83-105 | with `return_move` on an unfinished game at positive depth, the search returns the first candidate move, or `None` exactly when there is none |
| MonteCarlo.Record | dlgo/agents/monte_carlo.py:33 | the winner's count goes up by one, and every other count is kept |
| MonteCarlo.LegalMovesApplicable | dlgo/agents/monte_carlo.py:22-27 | every legal move can be applied: a play is on the grid, on an empty point |
| MonteCarlo.MCTSNode.constructor | dlgo/agents/monte_carlo.py:13-22 | a new node has no wins, no rollouts and no children; all the legal moves of its state are untried; its depth is one more than its parent's |
| MonteCarlo.MCTSNode.AddRandomChild | dlgo/agents/monte_carlo.py:24-30 | the move at the index leaves the untried moves, and the others keep their order; a fresh child for that move is appended to the children. The child has this node as parent, the other player to move, this state as previous state and the move as last move. Its board is the board `apply_move` gives: for a play, a board of the same size whose grid is `Placed` with the mover's stone; for a pass or a resignation, the same board |
| MonteCarlo.NewChild | dlgo/agents/monte_carlo.py:27-28 | the child node holds the move, the parent, and the state `apply_move` gives: the other player to move, the parent's state as previous state, and the board after the move (`Placed` for a play, the parent's board for a pass or a resignation); it has no rollouts and no children |
| MonteCarlo.MCTSNode.MakeChild | dlgo/agents/monte_carlo.py:26-28 | the node made for the untried move at the index is a fresh, consistent child of this node for that move, and this node's state is unchanged |
| MonteCarlo.MCTSNode.Adopt | dlgo/agents/monte_carlo.py:26-29 | the untried move at the index is popped, the other untried moves keep their order, and the child is appended to the children |
| MonteCarlo.MCTSNode.RecordWin | dlgo/agents/monte_carlo.py:32-34 | the winner's count and the rollouts each go up by one, so the counts still add up to the rollouts |
| MonteCarlo.MCTSNode.IsTerminal | dlgo/agents/monte_carlo.py:39-40 | true exactly when the node's game is over: after a resignation or two passes |
| MonteCarlo.MCTSNode.WinningPct | dlgo/agents/monte_carlo.py:42-43 | the percentage times the rollouts is the player's wins, and it lies between 0 and 1 |
| MonteCarlo.ChainFacts | dlgo/agents/monte_carlo.py:64-66 | the parent chain of a node reaches the root, stays in the tree and visits each node once |
| MonteCarlo.RecordStep | dlgo/agents/monte_carlo.py:65 | one turn of the backpropagation loop records the win at one more node of the chain |
| MonteCarlo.RecordChain | dlgo/agents/monte_carlo.py:64-66 | the loop records the win at every node from the start up to the root |
| MonteCarlo.Backpropagate | dlgo/agents/monte_carlo.py:64-66 | exactly the nodes on the chain from the start to the root gain one rollout and one win for the winner; every other node is unchanged |
| MonteCarlo.Grow | dlgo/agents/monte_carlo.py:59-60 | expanding a node appends one fresh child with no rollouts |
| MonteCarlo.Playout | dlgo/agents/monte_carlo.py:62-66 | after the playout and backpropagation the tree is still well-formed, and the root has one more rollout |
| MonteCarlo.MonteBot.constructor | dlgo/agents/monte_carlo.py:47-49 | the bot keeps the temperature and the number of rounds |
| MonteCarlo.MonteBot.SelectChild | dlgo/agents/monte_carlo.py:77-92 | the node chosen is one of the children |
| MonteCarlo.MonteBot.SelectLeaf | dlgo/agents/monte_carlo.py:55-57 | the descent stops at a node in the tree that has an untried move or is terminal, and it stays at the root while the root has untried moves |
| MonteCarlo.MonteBot.Expand | dlgo/agents/monte_carlo.py:59-60 | a node with untried moves gets a fresh leaf; the tree grows by at most that leaf; an expandable root gains a child |
| MonteCarlo.MonteBot.Descend | dlgo/agents/monte_carlo.py:55-60 | selection followed by expansion gives a leaf in the grown tree, and the root has a child afterwards |
| MonteCarlo.MonteBot.Round | dlgo/agents/monte_carlo.py:54-66 | a round keeps the tree well-formed, adds only fresh nodes and gives the root one more rollout |
| MonteCarlo.MonteBot.FinalChoice | dlgo/agents/monte_carlo.py:68-75 | with no children there is no move; otherwise it is the move of the first child whose winning percentage for the player is the greatest |
| MonteCarlo.MonteBot.SelectMove | dlgo/agents/monte_carlo.py:51-75 | the root has one rollout per round, and every other node at least one; at every node the wins add up to the rollouts; a move is returned exactly when at least one round ran, and it is a legal move of the state; it is the move of the first child of the root with the strictly greatest winning percentage for the player to move |
| Naive.KeptMembers | dlgo/agents/naive.py:13-19 | a move is kept exactly when it is one of the legal moves and is not a pass, a resignation or a play into an own eye |
| Naive.RandomCandidatesMeaning | dlgo/agents/naive.py:12-19 | the candidates are exactly the valid on-grid plays that do not fill an eye of the mover |
| Naive.RandomBot.SelectMove | dlgo/agents/naive.py:10-23 | a pass when there is no candidate, and otherwise one of the candidates |
| Naive.CandidatesMembers | dlgo/agents/helpers.py:88-94 | the moves the search loop examines are the moves it does not skip |
| Naive.SearchCandidates | dlgo/agents/helpers.py:86-94 | the moves a root alpha-beta search examines are exactly the candidates of `RandomBot` |
| Naive.AlphaBetaBot.constructor | dlgo/agents/naive.py:27-30 | the bot keeps the depth (3 by default) and the evaluation function (`capture_diff` by default) |
| Naive.AlphaBetaBot.SelectMove | dlgo/agents/naive.py:32-40 | the root search's move, with `None` turned into a pass, or the score when the search returns one (game over or depth 0); at positive depth, the first candidate in shuffled order, or a pass |
| Naive.AlphaBetaPlaysCandidate | dlgo/agents/naive.py:32-40 | in an unfinished game at positive depth the search picks a move exactly when `RandomBot` has a candidate, and the move is one of those candidates |

## Left out

- `dlgo/gotypes.py` and `dlgo/zobrist.py` are not part of this model. `Player`, `Point` and its four neighbours are restated from their uses. The table of random 64-bit hash codes becomes a parameter of the board (`ZobristTable`), with arbitrary natural codes.
- `Board.is_on_grid`, `Board.get` and `Board.get_go_string` are modelled as plain functions. Contracts use them, so they have no rows of their own.
- `_remove_string` stores `None` for a cleared point. The model deletes the key, which `get` cannot tell apart. Its identity test `is not string` is modelled as value inequality, which picks out the same strings on a well-formed board.
- The `assert`s in `Move`'s constructor, in `merged_with` and in `place_stone` (on the grid, empty) become preconditions. So does the case where `is_valid_move` is asked about an off-grid play while the game goes on: the source fails there inside `place_stone`. Once the game is over, `is_valid_move` answers false for any move, off-grid plays included, and so does the model.
- `GameState.is_over` reads the previous state's last move whenever there is a last move. The model requires such a state to have a previous state, as every state built by the program does.
- `GameResult.__str__` (text formatting), the `Agent` base class, `dlgo/utils.py` and the command-line front ends are I/O and are not modelled.
- Floating point: komi and the winning percentages are `real`. `np.inf` is an explicit infinity in `Helpers.Ext`.
- Randomness becomes parameters or arbitrary choices: the index of `random.randint`, the pick of `random.choice`, and the order of `np.random.shuffle`. The shuffle is a function parameter required to be a permutation.
- MonteCarlo.MonteBot.SelectChild: the UCT score (`math.sqrt`, `math.log`, the temperature) is floating-point arithmetic, so the contract states only that some child is chosen, not the child with the highest score. The `temperature` field is kept but not read.
- MonteCarlo.Playout: `simulate_random_game` is not modelled. The winner of a playout is an arbitrary player, so nothing is stated about which player wins.
- Naive.RandomBot.SelectMove: the contract states that some candidate is played, not that the choice is uniformly random.
- `eval_fn` is any callable in the source. The model allows only the two evaluators the program defines, `capture_diff` and `current_score` (`Helpers.Evaluator`).
- Scoring.NewTerritory: the contract states which points `neutral_points` holds, each once, but not their order (row-major, from the insertion order of the status map).
- The deep copy of the state in `alpha_beta` is not modelled, because its successor is discarded and never observed.
- Overflow is not an issue: Python integers are unbounded, and so are the model's.
