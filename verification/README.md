# Connect-Four minimax player, modelled in Dafny

This project models the automatic Connect-Four player `JugadorMiniMax` on an 8 by 8 grid. The
player chooses a column for its colour (1 or -1) by searching the game tree to a configured
depth. It searches with plain minimax (`movMinMaxSensePoda`) or with alpha-beta pruning
(`movMinMaxPoda`), and it scores the leaves with a positional heuristic (`heuristica`) over a
fixed weight table (`taulaHeuristica`). It also keeps a counter, `contadorNodes`, of how many
leaves it has scored.

The project has five modules:

- `Board` (`board.dfy`) describes the board as the player sees it. The board class is an
  external collaborator. It is represented by an arbitrary type `B` and a record `Rules<B>` of
  the operations the player calls on it. `Board.Valid` states what the search relies on:
  - a move remains exactly when some column is legal;
  - every legal drop lowers a natural-number measure.
- `Heuristic` (`heuristic.dfy`) holds the weight table and the score as a pure function. The
  two nested loops are a method proved to compute that function. Further lemmas give the bound,
  the table total and the symmetry between the two colours.
- `Search` (`search.dfy`) holds the two recursive evaluators. Each 8-column sibling loop is a
  recursive function over the column index. Each evaluator returns the node's value together
  with the number of heuristic evaluations it made (`Eval.leaves`).
- `SearchProofs` (`search_proofs.dfy`) proves:
  - the leaf order;
  - the value range;
  - that the player maximises and the opponent minimises;
  - that the search is unbounded below depth 0;
  - the alpha-beta theorem, relating the pruned value to the unpruned one for every window;
  - that pruning never scores more leaves.
- `Player` (`player.dfy`) holds the two root selectors and the entry point `moviment`
  (`ChooseMove`), which adds the leaf count to the node counter.

The integer constants are the program's own:

- `Integer.MIN_VALUE` and `Integer.MAX_VALUE` start the loops;
- ±1000000 marks a win or a loss;
- the weights add up to 520.

Every value a node takes is shown to lie in [-1000000, 1000000], so no node value, alpha,
beta or heuristic sum can overflow a Java `int`.

Three behaviours of the code are worth stating plainly:

- The 64 weights add up to 520 (`Heuristic.TableWeightTotal`).
- A configured depth of 0 makes the root pass depth -1 (lines 92, 119). That depth never meets
  the `profunditat == 0` test (lines 144, 187), so the search runs until a line is made or the
  board is full (`SearchProofs.NegativeDepthUnbounded`, `Player.RootDepthZeroUnbounded`).
- With no legal column the root returns column 0, its initial choice (lines 82, 111;
  `Player.IsRootChoice`).

## Model

| member | source | states |
|---|---|---|
| Heuristic.CellScore | src/edu/epsevg/prop/lab/c4/JugadorMiniMax.java:224-228 | the function adds the weight for the player's colour, subtracts it for the opponent's and adds nothing otherwise; the contract bounds the contribution by the weight and, for a non-zero colour and a positive weight, ties its sign to the piece's colour |
| Heuristic.TableWeightTotal | src/edu/epsevg/prop/lab/c4/JugadorMiniMax.java:25-34 | the 64 weights of the table add up to 520 |
| Heuristic.Score | src/edu/epsevg/prop/lab/c4/JugadorMiniMax.java:218-231 | the heuristic of any board, for any colour, lies between -520 and 520 |
| Heuristic.ScoreBounded | src/edu/epsevg/prop/lab/c4/JugadorMiniMax.java:222-230 | the first n rows score within plus or minus the sum of their weights, because each cell moves the score by at most its weight |
| Heuristic.Evaluate | src/edu/epsevg/prop/lab/c4/JugadorMiniMax.java:218-231 | the two nested loops over rows and columns compute exactly the cell-by-cell score, so the result is within ±520 |
| Heuristic.ScoreAntisymmetric | src/edu/epsevg/prop/lab/c4/JugadorMiniMax.java:224-228 | for a non-zero colour, scoring the same board for the opposite colour gives the negated score |
| Heuristic.EmptyScoresZero | src/edu/epsevg/prop/lab/c4/JugadorMiniMax.java:220-231 | an empty board scores 0 for either colour |
| Heuristic.ColorZeroCountsEmptyCells | src/edu/epsevg/prop/lab/c4/JugadorMiniMax.java:224-228 | with colour 0 the first test matches empty cells, so an empty board scores the full 520 |
| Search.Minimax | src/edu/epsevg/prop/lab/c4/JugadorMiniMax.java:181-211 | `movMinMaxSensePoda`: a leaf is valued by `LeafEval`, otherwise the player's loop runs when `mov == 1` and the opponent's loop otherwise; what the value is, is stated by `SearchProofs.MinimaxInRange` and `SearchProofs.MinimaxAlternation` |
| Search.MaxChildren | src/edu/epsevg/prop/lab/c4/JugadorMiniMax.java:190-199 | the player's loop over columns from `i`: each legal child (player's piece dropped, `mov` 0, depth one less) is folded into the running maximum with `Math.max`; stated by `SearchProofs.MaxChildrenBounds` and `SearchProofs.MaxChildrenIsMaximum` |
| Search.MinChildren | src/edu/epsevg/prop/lab/c4/JugadorMiniMax.java:200-210 | the opponent's loop over columns from `i`: each legal child (opponent's piece dropped, `mov` 1, depth one less) is folded into the running minimum with `Math.min`; stated by `SearchProofs.MinChildrenBounds` and `SearchProofs.MinChildrenIsMinimum` |
| Search.AlphaBeta | src/edu/epsevg/prop/lab/c4/JugadorMiniMax.java:138-172 | `movMinMaxPoda`: the same leaf tests, then the pruned player's or opponent's loop with the window it was given; stated by `SearchProofs.AlphaBetaCorrect` and `SearchProofs.AlphaBetaInRange` |
| Search.MaxPruned | src/edu/epsevg/prop/lab/c4/JugadorMiniMax.java:147-158 | the player's pruned loop: each legal child is searched with the current alpha, alpha is raised to the running maximum, and the loop stops once alpha reaches beta; stated by `SearchProofs.MaxPrunedCorrect` and `SearchProofs.MaxPrunedBounds` |
| Search.MinPruned | src/edu/epsevg/prop/lab/c4/JugadorMiniMax.java:159-171 | the opponent's pruned loop: each legal child is searched with the current beta, beta is lowered to the running minimum, and the loop stops once alpha reaches beta; stated by `SearchProofs.MinPrunedCorrect` and `SearchProofs.MinPrunedBounds` |
| Search.LeafEval | src/edu/epsevg/prop/lab/c4/JugadorMiniMax.java:140-145 | a leaf's value is a sentinel or a score; it makes exactly one heuristic evaluation when neither side has a line and none otherwise |
| SearchProofs.TerminalPriority | src/edu/epsevg/prop/lab/c4/JugadorMiniMax.java:140-145 | in both evaluators, whatever the depth, window and side to move: the player's line gives 1000000 before the opponent's line gives -1000000, which comes before the depth/full-board test gives the heuristic, with 0, 0 and 1 evaluations |
| SearchProofs.SentinelsDominate | src/edu/epsevg/prop/lab/c4/JugadorMiniMax.java:183-188 | a heuristic score lies strictly between the two sentinels, so a leaf is worth 1000000 exactly when the player has a line and -1000000 exactly when only the opponent has one |
| SearchProofs.MinimaxInRange | src/edu/epsevg/prop/lab/c4/JugadorMiniMax.java:181-211 | every node of the unpruned search is worth a value in [-1000000, 1000000], never a loop's starting `Integer.MIN_VALUE`/`MAX_VALUE` |
| SearchProofs.MaxChildrenBounds | src/edu/epsevg/prop/lab/c4/JugadorMiniMax.java:190-199 | the player's loop never lowers the running maximum or the count; it returns its start unchanged when no column is legal, and a node value otherwise |
| SearchProofs.MinChildrenBounds | src/edu/epsevg/prop/lab/c4/JugadorMiniMax.java:200-210 | the opponent's loop never raises the running minimum or lowers the count; it returns its start unchanged when no column is legal, and a node value otherwise |
| SearchProofs.AlphaBetaInRange | src/edu/epsevg/prop/lab/c4/JugadorMiniMax.java:138-172 | every node of the pruned search, for any window, is worth a value in [-1000000, 1000000] |
| SearchProofs.MaxPrunedBounds | src/edu/epsevg/prop/lab/c4/JugadorMiniMax.java:147-158 | the player's pruned loop, with or without a cut-off, keeps the running maximum's bounds and returns a node value once a column is legal |
| SearchProofs.MinPrunedBounds | src/edu/epsevg/prop/lab/c4/JugadorMiniMax.java:159-171 | the opponent's pruned loop, with or without a cut-off, keeps the running minimum's bounds and returns a node value once a column is legal |
| SearchProofs.MaxChildrenIsMaximum | src/edu/epsevg/prop/lab/c4/JugadorMiniMax.java:190-199 | the player's loop returns a value at least every legal child's (player's piece dropped, opponent to move) and equal to its start or to one of them |
| SearchProofs.MinChildrenIsMinimum | src/edu/epsevg/prop/lab/c4/JugadorMiniMax.java:200-210 | the opponent's loop returns a value at most every legal child's (opponent's piece dropped, player to move) and equal to its start or to one of them |
| SearchProofs.MinimaxAlternation | src/edu/epsevg/prop/lab/c4/JugadorMiniMax.java:181-211 | at a node that is not a leaf, the value is that of some legal child, and is the largest of them when `mov == 1` and the smallest otherwise |
| SearchProofs.NegativeDepthUnbounded | src/edu/epsevg/prop/lab/c4/JugadorMiniMax.java:187 | the unpruned value is the same for every negative depth: only a line or a full board stops such a search |
| SearchProofs.AlphaBetaCorrect | src/edu/epsevg/prop/lab/c4/JugadorMiniMax.java:138-172 | for any window alpha < beta of `int` values, the pruned value equals the exact value when that lies strictly inside the window, is at most alpha when the exact value is, and at least beta when the exact value is |
| SearchProofs.MaxPrunedCorrect | src/edu/epsevg/prop/lab/c4/JugadorMiniMax.java:147-158 | the player's pruned loop, raising alpha and breaking once alpha >= beta, agrees with the unpruned loop in the window sense |
| SearchProofs.MinPrunedCorrect | src/edu/epsevg/prop/lab/c4/JugadorMiniMax.java:159-171 | the opponent's pruned loop, lowering beta and breaking once alpha >= beta, agrees with the unpruned loop in the window sense |
| SearchProofs.MaxStep | src/edu/epsevg/prop/lab/c4/JugadorMiniMax.java:153-155 | a beta cut-off happens only when the exact value has reached beta; otherwise the raised alpha still bounds both running maxima and equals both once above the original alpha |
| SearchProofs.MinStep | src/edu/epsevg/prop/lab/c4/JugadorMiniMax.java:165-167 | an alpha cut-off happens only when the exact value has fallen to alpha; otherwise the lowered beta still bounds both running minima and equals both once below the original beta |
| SearchProofs.FullWindowExact | src/edu/epsevg/prop/lab/c4/JugadorMiniMax.java:83-92 | with the window (`Integer.MIN_VALUE`, `Integer.MAX_VALUE`) the root passes, the pruned search returns exactly the unpruned value |
| SearchProofs.PrunedLeavesAtMost | src/edu/epsevg/prop/lab/c4/JugadorMiniMax.java:138-172 | for any window the pruned search makes no more heuristic evaluations than the unpruned one |
| Player.SearchRoot | src/edu/epsevg/prop/lab/c4/JugadorMiniMax.java:109-127 | the unpruned root returns the lowest legal column of greatest value (0 when none is legal) and makes exactly the evaluations of the legal columns' searches |
| Player.SearchRootPruned | src/edu/epsevg/prop/lab/c4/JugadorMiniMax.java:80-101 | the pruned root returns the same characterised column as the unpruned one and makes exactly the evaluations of the legal columns' pruned searches |
| Player.RootStep | src/edu/epsevg/prop/lab/c4/JugadorMiniMax.java:113-124 | a legal column replaces the best so far exactly when its value is strictly greater; an illegal column changes nothing |
| Player.RootDone | src/edu/epsevg/prop/lab/c4/JugadorMiniMax.java:126 | after column 7 the best so far is the root's choice |
| Player.RootChoiceUnique | src/edu/epsevg/prop/lab/c4/JugadorMiniMax.java:80-127 | the root's choice is determined by board, colour and depth, so pruning never changes the column played |
| Player.ImmediateWinChosen | src/edu/epsevg/prop/lab/c4/JugadorMiniMax.java:86-100 | if dropping in some column completes the player's line, the chosen column is that one or a lower one, and is also worth 1000000 |
| Player.OnePly | src/edu/epsevg/prop/lab/c4/JugadorMiniMax.java:183-188 | with depth 1 each column is judged on the board right after the drop: the player's line, the opponent's line, or the heuristic |
| Player.RootDepthZeroUnbounded | src/edu/epsevg/prop/lab/c4/JugadorMiniMax.java:119 | a configured depth at or below 0 gives every column the same value as depth 0, which searches to the end of the game |
| Player.PrunedRootLeavesAtMost | src/edu/epsevg/prop/lab/c4/JugadorMiniMax.java:80-127 | the pruned root makes at most as many heuristic evaluations as the unpruned root |
| Player.NewPlayer | src/edu/epsevg/prop/lab/c4/JugadorMiniMax.java:41-46 | the constructor keeps the configured depth and pruning flag and starts the counter at 0 |
| Player.ChooseMove | src/edu/epsevg/prop/lab/c4/JugadorMiniMax.java:54-65 | `moviment` returns the root's choice and grows the node counter by exactly the evaluations of the configured search, keeping depth and pruning unchanged |

## Left out

- The board class (`Tauler`: `movpossible`, `afegeix`, `solucio`, `espotmoure`, `getColor`, the copy constructor) is not part of this model. Its operations are function parameters and `Board.Valid` states the assumptions about them.
- Copying the board before each drop (lines 89, 116, 151, 163, 194, 204) is not modelled separately: `play` returns a new board, so aliasing cannot arise.
- The println of the node counter (line 63) is console output and is left out.
- The player's name (lines 14, 42, 70-72) has no bearing on the search and is left out.
- The unused imports `random` and `Random` (lines 9-10) are left out.
- The interfaces `Jugador` and `IAuto` (line 12) are left out.
- The colour field `colorJugador` (lines 16, 55) is passed as an argument instead. Its default of 1, seen only when a selector is called before `moviment`, is not modelled.
- Heuristic.Weights: the public, non-final array `taulaHeuristica` (line 25) is modelled as its initial value. Code holding the player could reassign it or write into it. The bound of ±520 (`Heuristic.Score`, `Heuristic.TableWeightTotal`) and the margin below the ±1000000 sentinels hold only while the table is unchanged. A smaller array would make line 225 throw, which is not modelled either.
- Player.ChooseMove: the counter is an unbounded natural number. The Java `int` field (line 20) would wrap after 2^31 - 1 evaluations, and that wrap-around is not modelled.
- Board.Opponent: the negation `colorJugador * -1` (lines 142, 164, 185, 205) is unbounded. Java wraps it only for `Integer.MIN_VALUE`, whose negation is itself, and the player is only ever given colour 1 or -1 (line 52), so that wrap is not modelled.
- The depth arithmetic `profunditat - 1` is unbounded integer subtraction. Java wraps at `Integer.MIN_VALUE`; a depth that low is never configured, so the wrap is left out.
- SearchProofs.AlphaBetaCorrect: the window must satisfy `Integer.MIN_VALUE <= alpha < beta <= Integer.MAX_VALUE`. Every call the program makes meets this: the root uses the full window, and a loop only recurses while alpha < beta.
