# Snake Dijkstra — the game engine, modelled and verified in Dafny

The program is a snakes-and-ladders game for 2 to 4 players on an 8×8 board, written
as one Swing window (`SnakeDijkstraGUI`). This project models its engine, without
anything that is drawn on screen:

- the board: a serpentine numbering of the cells 1..64 and a point value of 1..3 for
  each cell (`initBoardLogic`, `Node`, `getPointOfNode`) — module `Board`;
- one move: the primality gate `isPrime`, the unit-step walk `genPath` (it stops on 64
  and stays on cell 1 when walking back), and the scan in `execLogic` that takes the
  first shortcut passed on a forward roll from a prime cell — module `Moves`;
- the shortcut table drawn by rejection sampling (`genShortcuts`) — module `Links`;
- the standings of the game-over dialog, a stable sort by descending score — module `Ranking`;
- the in-memory rule of `HighScoreManager`: best scores per lower-cased name — module `HighScores`;
- the game state (position stacks, scores, turn queue, shortcut table, input flag) and
  the operations that start a game and play a turn (`initGameData`, `playTurn`,
  `execLogic`, `finalizeTurn`, the dice click and Enter handlers) — class
  `Game.SnakeGame`.

Randomness becomes parameters: the dice value `val` (1..6), whether the roll goes
forward (`green`), the stream of candidate pairs for the shortcut table, and the 64
reward draws of the board. The high-score table read from disk is a constructor
parameter.

The central invariant is `Game.SnakeGame.Valid`: between turns the board is numbered,
every stack holds cells of the board, scores are non-negative, the shortcut table is
well formed, input is enabled exactly while a game runs and nobody stands on 64, and
until somebody does, the turn queue is a permutation of the players.

## Model

| member | source | states |
|---|---|---|
| Board.RowOf | src/SnakeDijkstraGUI.java:503-510 | The row a cell id gets lies on the grid. |
| Board.ColOf | src/SnakeDijkstraGUI.java:503-510 | The column a cell id gets lies on the grid. |
| Board.IdAt | src/SnakeDijkstraGUI.java:503-510 | Every grid position gets an id in 1..64, and RowOf/ColOf recover the position, so the numbering is one-to-one. |
| Board.IdAtOnto | src/SnakeDijkstraGUI.java:503-510 | Every id 1..64 is given to some position, so the numbering is onto. |
| Board.SerpentineAdjacent | src/SnakeDijkstraGUI.java:503-510 | Ids k and k+1 are grid neighbours: same row and one column apart, or same column and one row apart. |
| Board.RowDirection | src/SnakeDijkstraGUI.java:503-510 | The bottom row holds 1..8 left to right; along each row ids step by +1 or -1, alternating from row to row. |
| Board.InitBoardLogic | src/SnakeDijkstraGUI.java:503-510 | Every position (r, c) holds the cell IdAt(r, c) at (r, c) whose reward is 1 + the draw of that id (Node, line 83); hence the board is numbered and every reward is in 1..3. |
| Board.FillRow | src/SnakeDijkstraGUI.java:505-508 | One row is numbered on from the id reached so far, in the row's direction; the other rows are unchanged. |
| Board.GetPointOfNode | src/SnakeDijkstraGUI.java:722 | Returns 0 when no cell has the id; on a numbered board returns the cell's reward, which is in 1..3 exactly for ids 1..64. |
| Moves.IsPrime | src/SnakeDijkstraGUI.java:721 | Trial division up to the square root answers true exactly when n > 1 and no d in 2..n-1 divides n. |
| Moves.GenPath | src/SnakeDijkstraGUI.java:725-733 | The loop returns Path(s, abs(st), direction of st), so at most abs(st) cells. |
| Moves.PathShape | src/SnakeDijkstraGUI.java:725-733 | From a cell of the board a walk records at most m cells, all on the board, each one step from its predecessor (the first one step from the start), and 64 only as the last cell. |
| Moves.ForwardPath | src/SnakeDijkstraGUI.java:725-733 | A forward walk from c is exactly c+1, ..., min(c+m, 64). |
| Moves.BackwardPath | src/SnakeDijkstraGUI.java:726-730 | A backward walk from a cell below 64 records all m steps, the i-th at max(c-i-1, 1): it never goes below 1. |
| Moves.EmptyWalks | src/SnakeDijkstraGUI.java:726-730 | From 64 in either direction, and for zero steps, the walk is empty. |
| Moves.WalkScenarios | src/SnakeDijkstraGUI.java:725-733 | genPath(1, 3) is [2, 3, 4], genPath(1, -3) is [1, 1, 1], and a walk from 64 is empty. |
| Moves.FirstLink | src/SnakeDijkstraGUI.java:561-566 | The index found is the first one at which the link test holds, or the path length when it holds nowhere. |
| Moves.ScanForLink | src/SnakeDijkstraGUI.java:560-568 | The scan cuts the path just after the first cell whose link fires and yields that link's target; when none fires the path is kept and there is no target. |
| Moves.LinkRule | src/SnakeDijkstraGUI.java:560-573 | From a cell below 64, a link is taken iff the roll is green, the start is prime and a link source lies strictly less than val cells ahead; then the turn ends on the target of the nearest such source; otherwise it ends on min(cur+val, 64) forward or max(cur-val, 1) backward. |
| Moves.FinalCellOnBoard | src/SnakeDijkstraGUI.java:573-586 | A turn started on the board, with link targets on the board, ends on the board. |
| Moves.ResolveMove | src/SnakeDijkstraGUI.java:543-586 | The primality test, walk, link scan and end-cell choice of execLogic compute FinalCell, which lies on the board. |
| Moves.LinkScenarios | src/SnakeDijkstraGUI.java:560-568 | With the table {5 -> 20}: from prime 3 a roll of 5 jumps to 20, from 4 (not prime) it walks to 9, and from 3 a roll of 2 stops on 5 without jumping. |
| Links.Offer | src/SnakeDijkstraGUI.java:497-499 | An accepted pair adds exactly min -> max and keeps every other link; a rejected pair (equal draws, or min already a source or a target) changes nothing; a well-formed table stays well-formed. |
| Links.FillResult | src/SnakeDijkstraGUI.java:494-501 | Whenever the sampling loop ends, the table has exactly 5 links, every link satisfies 2 <= source < target <= 63, and the links it started with are kept. |
| Links.GenShortcuts | src/SnakeDijkstraGUI.java:494-501 | The loop computes Fill of the candidate stream: 5 well-formed links. |
| Links.ChainedTableArises | src/SnakeDijkstraGUI.java:498 | After 10 -> 20 the pair (5, 10) is still accepted, so a target may be another link's source. |
| Ranking.Rank | src/SnakeDijkstraGUI.java:696-697 | The standings list every player 1..N once, with non-increasing scores and ties in ascending id order. |
| Ranking.RankingUnique | src/SnakeDijkstraGUI.java:697 | Two lists of the same players both in standing order are equal, so any stable descending sort gives Rank's result. |
| HighScores.ToLower | src/SnakeDijkstraGUI.java:62 | Lower-casing keeps the length, lower-cases each character and leaves no upper-case letter. |
| HighScores.ToLowerIdempotent | src/SnakeDijkstraGUI.java:66-67 | Lower-casing a stored key again gives the same key, so saveScore's getScore(key) reads the entry of name. |
| HighScores.HighScoreManager.constructor | src/SnakeDijkstraGUI.java:49-51 | The manager starts from the loaded table. |
| HighScores.HighScoreManager.GetScore | src/SnakeDijkstraGUI.java:61-63 | The best under the lower-cased name, 0 when absent; names differing only in case agree. |
| HighScores.HighScoreManager.SaveScore | src/SnakeDijkstraGUI.java:65-76 | Afterwards the best of name is max(old best, newScore); no best decreases; names with another lower-cased form keep theirs; nothing changes when newScore does not beat the best. |
| Game.PlayersOnce | src/SnakeDijkstraGUI.java:481 | The multiset of players 1..n has n elements, each of 1..n once. |
| Game.AscendingQueued | src/SnakeDijkstraGUI.java:481 | The queue 1..n holds valid ids and is a permutation of the players. |
| Game.FullQueue | src/SnakeDijkstraGUI.java:530 | A queue that is a permutation of the players has n entries, exactly the ids 1..n, none twice; so it is empty only when there are no players. |
| Game.Dequeue | src/SnakeDijkstraGUI.java:544 | The player polled from a full queue is one of the players, and the rest plus that player is everyone. |
| Game.Push | src/SnakeDijkstraGUI.java:622 | Pushing a board cell on one stack keeps all stacks on the board, and finishes the game exactly when the cell is 64. |
| Game.Requeue | src/SnakeDijkstraGUI.java:636-641 | Adding the missing player at the front or the back makes the queue a permutation of the players again. |
| Game.NewGame | src/SnakeDijkstraGUI.java:475-481 | All stacks [1] and the queue 1..n: stacks on the board, queue full, nobody finished. |
| Game.StartingLine | src/SnakeDijkstraGUI.java:476-480 | The first loop gives n stacks [1] and a new score array of n zeros. |
| Game.FirstRound | src/SnakeDijkstraGUI.java:481 | The second loop gives the queue 1, 2, ..., n. |
| Game.SnakeGame.constructor | src/SnakeDijkstraGUI.java:324-361 | A window with a new board numbered from the reward draws (initBoardLogic, called at line 413), a new high-score manager holding the loaded table, no players, no links and input off; Valid holds. |
| Game.SnakeGame.InitGameData | src/SnakeDijkstraGUI.java:475-489 | From any state with a numbered board: names set, every stack [1], every score 0, queue 1..N, shortcut table = Fill of the draws, input on, Valid. |
| Game.SnakeGame.FinalizeTurn | src/SnakeDijkstraGUI.java:621-647 | pos pushed on that player's stack only, its points added to that player's score only; on 64 the game ends (input off, player not requeued, best = max(old best, score) with every other name's best kept, ranking returned); otherwise the player goes to the front on a multiple of 5 other than 1 and to the back otherwise, input on; Valid. |
| Game.SnakeGame.PassTurn | src/SnakeDijkstraGUI.java:636-647 | The player is requeued at the front on a multiple of 5 other than 1, at the back otherwise, and input is enabled; Valid. |
| Game.SnakeGame.AddPoints | src/SnakeDijkstraGUI.java:622-624 | Exactly the cell's reward is added to that player's score; other scores unchanged, none negative. |
| Game.SnakeGame.GameOver | src/SnakeDijkstraGUI.java:630-633 | The winner's score is offered to the high-score table (best = max of old best and score, every name with another lower-cased form keeps its best) and the returned standings are a ranking of the scores. |
| Game.SnakeGame.ExecLogic | src/SnakeDijkstraGUI.java:543-587 | TurnTaken holds: the front player leaves the queue and ends on FinalCell of the roll; only that player's stack and score change; names and shortcuts are kept; on 64 input stays off, the player is not requeued, the standings are a ranking of the scores and the player's best is max(old best, score) with every other name's best kept; otherwise the player is requeued as in finalizeTurn, input is on and the high-score table is untouched; Valid. |
| Game.SnakeGame.PlayTurn | src/SnakeDijkstraGUI.java:529-540 | On an empty queue nothing changes (all fields, the scores and the high-score table are unchanged); otherwise the turn is played: TurnTaken holds, as for ExecLogic; Valid. |
| Game.SnakeGame.RequestTurn | src/SnakeDijkstraGUI.java:402 | From any state where the engine can stop (Between), also mid-turn: with input off (during the dice roll or walk, before the first game, after game over) a click or Enter changes nothing: all fields, the scores and the high-score table are unchanged; with input on a turn is played: TurnTaken holds, as for ExecLogic; Valid is kept. |

## Behaviour of the code worth knowing

- The forward/backward draw of a roll is fixed: forward with probability 0.9.
- `genShortcuts` has no bound on its draws and never reports an error; it keeps drawing until five links exist.
- `genPath` does not check that its start cell lies in 1..64.
- When a player reaches 64 the whole game ends (the high-score save and the game-over dialog); the other players do not play on.

## Left out

- Everything drawn or played: Swing panels, dialogs, painting, fonts, the theme, sounds, key bindings, the scoreboard and the history text.
- Animation: the dice `Timer`, `animSeq` and `animMove`; the turn is finalized directly after the move is computed. A restart during an animation is not modelled: the restart button is not guarded by `inputEnabled` (src/SnakeDijkstraGUI.java:441-444), so in the program the pending `finalizeTurn` then pushes onto the old game's stack, adds points to the new game's scores and queues the player a second time in the new queue; the queue-permutation invariant holds for the model, not for that interleaving.
- `java.util.Random` and `Math.random`: the dice value, the forward/backward outcome (drawn with probability 0.9 in the code), the candidate pairs and the reward draws are parameters.
- High-score file persistence (`loadScores`, `scores.store`) and `Integer.parseInt` on stored text: the table is a map from names to integers.
- HighScores.ToLower: lower-cases ASCII letters only; Java's `toLowerCase` also folds other Unicode letters.
- `askPlayerNames` and the player-count dialog: the names are a parameter of `InitGameData`, which requires only at least one name (the dialog offers 2 to 4).
- Links.GenShortcuts: the sampling loop of the code runs until five links exist and need not stop; the model requires a candidate stream on which it stops (`Fill(map[], draws).Some?`).
- The -1 "no link" value of `execLogic` is an `Option`; a player's position stack is a sequence with the current cell last.
- Ranking.Rank: `List.sort` (a stable merge sort) is modelled by stable insertion; `RankingUnique` shows both give the same list.
- `playerScores` and `playerNames` are null before the first game in the code; the model starts them as an empty array and an empty sequence.
- Moves.IsPrime: the 32-bit overflow of `i * i` is not modelled; it cannot occur for cells 1..64.
- Game.SnakeGame.AddPoints: scores are unbounded integers; the 32-bit wrap-around of `playerScores[pid-1] += pts` (line 624) is not modelled, so the non-negative scores of `Valid` hold for unbounded scores only (a wrap needs more than 700 million turns at 3 points).
- Game.SnakeGame.ExecLogic, PlayTurn and RequestTurn return the mover and the cell as ghost results; the code returns nothing.
