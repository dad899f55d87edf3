# FIEK-AI search and constraint solvers in Dafny

This project models six solvers from the FIEK-AI coursework repository (C#). They are written as
imperative Dafny where the C# changes arrays and objects in place, and as functions and lemmas where
it computes values. Each solver is proved against a specification.

- **Minimax chess** (`Detyra3/MinMaxChess`).
  - Pieces are objects with mutable coordinates. A `Board` holds a list of them.
  - Move generation covers:
    - pawns: one step forward, or a diagonal capture;
    - knight and king steps;
    - bishop, rook and queen rays;
    - Max's simplified castling.
  - `ApplyMove`/`UndoMove` change the board in place. `Evaluate` scores signed material plus mobility.
  - The engine runs fail-soft alpha-beta (`Run`) under a root loop (`GetBestMove`). Both skip pawn-takes-queen moves inside the tree.
  - The heap classes are tied to a value layer:
    - a `Layout` is the list of `(piece, x, y)` entries, and a `Ply` is the value of a move;
    - pure generators (`Moves`), `ApplyPly`/`UndoPly` and `Eval` describe the same behaviour on values;
    - `Search` follows the C# recursion, and `Minimax` is a plain reference minimax with the same skip rule and ±10000 sentinels.
  - The proofs show:
    - generation matches the rules (soundness, and membership in both directions for each piece kind);
    - apply followed by undo restores the multiset of entries, though the order may change;
    - every evaluation lies within ±9984, and `Eval(Min) == -Eval(Max)`;
    - `Run` is fail-soft with respect to `Minimax`, and equals it exactly under the full window;
    - `GetBestMove` returns the first move of strictly greatest child value, or null.
- **Blocked N-Queens A\*** (`Detyra2/nBlockedQueens`).
  - States hold rows 0..depth-1 as placed columns. Each step adds a queen with `AddQueen`.
  - Node keys are comma-joined column lists, and the closed set holds keys.
  - There are three heuristics. The open list is ordered by (F, G, insertion number), and the goal node's parent chain is reconstructed into the answer.
  - The proofs show:
    - keys are injective on placed prefixes;
    - every node on the open list is a valid partial placement, so a returned array is a full non-attacking placement that avoids the blocked squares;
    - the greedy `Conflict` heuristic never finds a diagonal pair, so it equals the number of remaining rows whenever it is finite. It is therefore admissible, even though the C# source comments call it inadmissible.
- **Killer Sudoku CSP** (`Detyra2/CspSolver`).
  - The state is a grid, per-cell domains and a cell→cage map.
  - Forward checking strips the value from row, column and box peers in the C# visiting order, and stops at the first emptied domain.
  - The cage-sum feasibility test uses min/max bounds, the next cell is chosen by MRV, and the search backtracks by restoring copies of the state.
  - The proofs show:
    - forward checking equals a pure specification;
    - the cage test is sound: a cage with a distinct completion to its sum is never rejected;
    - a successful `Solve` leaves a full grid that extends the start, takes each filled value from the cell's domain, and puts no repeat beside a cell it filled;
    - a failed `Solve` leaves grid and domains as they were.
- **Sudoku BFS** (`Detyra1/Sudoku`).
  - `IsSafe`, `CopyBoard` and a breadth-first search over copied 9×9 arrays that fills the first empty cell.
  - The proofs cover:
    - `IsSafe` ⟺ no peer holds the digit;
    - children are the safe digits in increasing order;
    - the queue's weight decreases, which proves termination;
    - a returned board is complete, extends the start, and keeps the start's "no clash" and "digits only" properties.
- **Social Golfers** (`Detyra1/SocialGolfers`, N = 32, P = 4, G = 8).
  - Backtracking fills a week × player table of group ids, keeping a symmetric "pair already met" matrix.
  - The proofs show:
    - the matrix always equals "shared a group in some earlier or current week";
    - every failed branch restores the exact prior state;
    - a success is a schedule where every week partitions the players into G groups of P and no pair meets twice.
- **Social Golfers, general case** (`Detyra1/SocialGolfersGeneralCase`).
  - The same search with groups drawn from a lexicographic k-combination generator.
  - The generator is proved to list every increasing index tuple exactly once, in strictly increasing lexicographic order.
- **Latin square** (`Detyra1/LatinSquare`).
  - Iterative deepening over a row-major depth-limited DFS, with `rowUsed`/`colUsed` flag tables.
  - The proofs show:
    - the flags always match the grid;
    - a failed call restores grid and flags exactly;
    - a call succeeds only when enough depth remains;
    - a success is a Latin square.

Modules: `Options`, `Decimal` (integer rendering), `ChessPieces`, `ChessMoves`, `ChessRules`,
`ChessPosition`, `ChessGeneration`, `ChessInvariance`, `ChessBounds`, `ChessBoard`, `ChessSearch`,
`ChessSearchProofs`, `ChessRoot`, `ChessEngine`, `BlockedQueens`, `KillerRules`, `KillerBoard`,
`KillerSudoku`, `SudokuBfs`, `GolfSchedule` (shared by both golfer solvers), `SocialGolfers`,
`KCombinations`, `GolfersGeneral`, `LatinSquare`.

## Model

| member | source | states |
|---|---|---|
| ChessRules.Opponent | Detyrat/Detyra3/MinMaxChess/Board.cs:248 | the opponent is the other player |
| ChessRules.OpponentInvolution | Detyrat/Detyra3/MinMaxChess/Piece.cs:11-14 | with two players, Opponent(Opponent(p)) == p |
| ChessRules.Direction | Detyrat/Detyra3/MinMaxChess/Board.cs:25 | a pawn's direction is +1 for Max and -1 for Min |
| ChessRules.PieceValue | Detyrat/Detyra3/MinMaxChess/Board.cs:231-240 | material values 1/3/3/5/9/100, each between 1 and 100 |
| ChessRules.SquareIndex | Detyrat/Detyra3/MinMaxChess/Board.cs:115 | the index of the first entry, in list order, standing on the square (or the length) |
| ChessRules.PieceAt | Detyrat/Detyra3/MinMaxChess/Board.cs:33 | null iff the square is empty; otherwise a piece standing there |
| ChessRules.EnemyAt | Detyrat/Detyra3/MinMaxChess/Board.cs:96 | null iff no opponent piece stands on the square; otherwise one that does |
| ChessPieces.Piece.constructor | Detyrat/Detyra3/MinMaxChess/Piece.cs:16-22 | a piece with the given kind, owner and coordinates |
| ChessMoves.Move.constructor | Detyrat/Detyra3/MinMaxChess/Move.cs:5-12 | the move stores the piece, its origin, its target and the captured piece |
| ChessMoves.Move.ToString | Detyrat/Detyra3/MinMaxChess/Move.cs:14-18 | text is "<Type> from (ox,oy) to (tx,ty)" with the original and target coordinates, followed by " (captures <Type>)" exactly when a piece is captured |
| ChessBoard.Board.constructor | Detyrat/Detyra3/MinMaxChess/Board.cs:9 | a new board has no pieces |
| ChessBoard.Board.FirstAt | Detyrat/Detyra3/MinMaxChess/Board.cs:115 | the list search returns PieceAt of the layout |
| ChessBoard.Board.FirstEnemyAt | Detyrat/Detyra3/MinMaxChess/Board.cs:96 | the list search returns EnemyAt of the layout |
| ChessBoard.Board.AnyAt | Detyrat/Detyra3/MinMaxChess/Board.cs:178-179 | true iff the square is occupied |
| ChessBoard.Board.AddPawnCapture | Detyrat/Detyra3/MinMaxChess/Board.cs:93-109 | appends the diagonal capture the rules allow at (x, y), if any |
| ChessBoard.Board.TryAddMove | Detyrat/Detyra3/MinMaxChess/Board.cs:111-128 | appends the step onto an empty or enemy-held square inside the board, if allowed |
| ChessBoard.Board.AddSteps | Detyrat/Detyra3/MinMaxChess/Board.cs:58-59 | appends the allowed steps for the deltas, in delta order |
| ChessBoard.Board.AddSlidingMoves | Detyrat/Detyra3/MinMaxChess/Board.cs:130-172 | appends the rays of all directions, in direction order |
| ChessBoard.Board.AddRay | Detyrat/Detyra3/MinMaxChess/Board.cs:132-170 | appends the ray of one direction |
| ChessBoard.Board.SlideStep | Detyrat/Detyra3/MinMaxChess/Board.cs:139-166 | one square of a ray: stops exactly on an occupied square, adding a capture only of an enemy |
| ChessBoard.Board.AddCastlingMoves | Detyrat/Detyra3/MinMaxChess/Board.cs:174-204 | appends the castling moves of the rules |
| ChessBoard.Board.GenerateMovesForPiece | Detyrat/Detyra3/MinMaxChess/Board.cs:22-91 | the moves of one piece are PieceMoves of the current layout |
| ChessBoard.Board.AddKingMoves | Detyrat/Detyra3/MinMaxChess/Board.cs:78-88 | king steps followed by castling |
| ChessBoard.Board.AddPawnMoves | Detyrat/Detyra3/MinMaxChess/Board.cs:27-49 | pawn forward move then the two captures, as PawnMoves |
| ChessBoard.Board.AddPawnCaptures | Detyrat/Detyra3/MinMaxChess/Board.cs:46-47 | captures on the left then right diagonal |
| ChessBoard.Board.AddPawnForward | Detyrat/Detyra3/MinMaxChess/Board.cs:33-44 | the forward move exactly when the square ahead is empty |
| ChessBoard.Board.GenerateMoves | Detyrat/Detyra3/MinMaxChess/Board.cs:11-20 | the moves equal Moves(layout, player): per-piece lists of that player's pieces in list order |
| ChessBoard.Board.ApplyMove | Detyrat/Detyra3/MinMaxChess/Board.cs:208-215 | the new layout is ApplyPly: captured piece removed by identity, mover relocated |
| ChessBoard.Board.Place | Detyrat/Detyra3/MinMaxChess/Board.cs:213-214 | setting a piece's coordinates relocates its entries and changes nothing else |
| ChessBoard.Board.UndoMove | Detyrat/Detyra3/MinMaxChess/Board.cs:217-224 | mover back at the origin, captured piece appended at the end; equals UndoPly for a capture taken from the target |
| ChessBoard.Board.Evaluate | Detyrat/Detyra3/MinMaxChess/Board.cs:226-246 | the score equals Eval: signed material plus own minus opponent move count |
| ChessGeneration.PawnShape | Detyrat/Detyra3/MinMaxChess/Board.cs:27-49 | a pawn move goes one rank forward inside the board: straight onto an empty square, or diagonally capturing an enemy there |
| ChessGeneration.PawnForward | Detyrat/Detyra3/MinMaxChess/Board.cs:30-44 | the straight move is generated iff the square ahead is inside and empty |
| ChessGeneration.PawnDiagonal | Detyrat/Detyra3/MinMaxChess/Board.cs:93-109 | a diagonal capture to x is generated iff the square is inside and holds an enemy |
| ChessGeneration.PawnAtEdge | Detyrat/Detyra3/MinMaxChess/Board.cs:30-31 | a pawn whose next rank is off the board has no moves |
| ChessGeneration.StepsMembers | Detyrat/Detyra3/MinMaxChess/Board.cs:111-128 | a step move is generated iff its delta is listed and its target is inside and not own-held; at most one per delta |
| ChessGeneration.RayShape | Detyrat/Detyra3/MinMaxChess/Board.cs:130-172 | a ray is the successive squares inside the board, only the last possibly a capture (of an enemy); it stops at a capture, the edge or an own piece |
| ChessGeneration.RayFromSquare | Detyrat/Detyra3/MinMaxChess/Board.cs:137 | a ray from a square has at most 7 moves |
| ChessGeneration.SlidesMembers | Detyrat/Detyra3/MinMaxChess/Board.cs:132 | a slide move is generated iff it is on the ray of a listed direction |
| ChessGeneration.CastlingMembers | Detyrat/Detyra3/MinMaxChess/Board.cs:174-204 | castling only for Max's king on (4,0): to (6,0) iff (5,0),(6,0) empty, to (2,0) iff (1,0),(2,0),(3,0) empty, never a capture |
| ChessGeneration.MovesFromMembers | Detyrat/Detyra3/MinMaxChess/Board.cs:11-20 | a move is generated iff some piece of the player generates it |
| ChessGeneration.NoPiecesNoMoves | Detyrat/Detyra3/MinMaxChess/Board.cs:14-18 | a player with no pieces has no moves |
| ChessGeneration.MovesSound | Detyrat/Detyra3/MinMaxChess/Board.cs:31-43 | each generated move is by the player's piece from its square to a square inside the board, capturing exactly the enemy on the target or nothing on an empty target |
| ChessPosition.RefIndex | Detyrat/Detyra3/MinMaxChess/Board.cs:211 | the first entry holding the piece reference |
| ChessPosition.RemoveFirst | Detyrat/Detyra3/MinMaxChess/Board.cs:211 | removal by identity takes out exactly one entry, the first with that reference |
| ChessPosition.Relocate | Detyrat/Detyra3/MinMaxChess/Board.cs:213-214 | each entry of the moved piece gets the new square, all others unchanged |
| ChessPosition.EvalAntisymmetric | Detyrat/Detyra3/MinMaxChess/Board.cs:226-248 | Eval(s, Opponent(p)) == -Eval(s, p) |
| ChessPosition.UndoAfterApply | Detyrat/Detyra3/MinMaxChess/Board.cs:208-224 | undo after apply is the identity without capture, else the captured piece moves to the end; the multiset is restored |
| ChessPosition.ApplyValid | Detyrat/Detyra3/MinMaxChess/Board.cs:208-215 | applying a generated move keeps pieces distinct, on the board and on distinct squares |
| ChessInvariance.MovesPerm | Detyrat/Detyra3/MinMaxChess/Board.cs:11-20 | two orders of the same pieces generate the same moves and the same number |
| ChessInvariance.EvalPerm | Detyrat/Detyra3/MinMaxChess/Board.cs:226-246 | the evaluation does not depend on the order of the piece list |
| ChessInvariance.MovesFromLength | Detyrat/Detyra3/MinMaxChess/Board.cs:244 | the move count is the sum of the pieces' move counts |
| ChessBounds.ValidSize | Detyrat/Detyra3/MinMaxChess/Board.cs:206 | pieces on distinct squares of the board are at most 64 |
| ChessBounds.PieceMovesBound | Detyrat/Detyra3/MinMaxChess/Board.cs:22-91 | one piece generates at most 56 moves |
| ChessBounds.EvalBound | Detyrat/Detyra3/MinMaxChess/Board.cs:226-246 | every evaluation of a valid layout lies in [-9984, 9984], strictly inside the ±10000 sentinels |
| ChessSearch.BestIsExtremum | Detyrat/Detyra3/MinMaxChess/ChessEngine.cs:45-78 | a node's value is the max (min) of the sentinel and its unskipped children, and is the sentinel or one of them |
| ChessSearchProofs.MinimaxRange | Detyrat/Detyra3/MinMaxChess/ChessEngine.cs:34-78 | minimax values stay within the sentinels |
| ChessSearchProofs.MinimaxPerm | Detyrat/Detyra3/MinMaxChess/ChessEngine.cs:34-78 | the minimax value does not depend on the order of the piece list |
| ChessSearchProofs.MaxLoopCorrect | Detyrat/Detyra3/MinMaxChess/ChessEngine.cs:45-61 | the maximizing sibling loop with alpha update and cutoff is fail-soft and restores the piece multiset |
| ChessSearchProofs.MinLoopCorrect | Detyrat/Detyra3/MinMaxChess/ChessEngine.cs:62-78 | the minimizing sibling loop with beta update and cutoff is fail-soft and restores the piece multiset |
| ChessSearchProofs.SearchCorrect | Detyrat/Detyra3/MinMaxChess/ChessEngine.cs:34-78 | Run's value is fail-soft with respect to minimax, within the sentinels, and the final layout is a permutation of the start |
| ChessSearchProofs.FullWindowExact | Detyrat/Detyra3/MinMaxChess/ChessEngine.cs:34-78 | with the full (-10000, 10000) window Run equals minimax |
| ChessRoot.PickIsFirstArgmax | Detyrat/Detyra3/MinMaxChess/ChessEngine.cs:18-29 | the strict-greater root loop returns the first maximum above -10000, or none |
| ChessRoot.FirstBestIsFirstArgmax | Detyrat/Detyra3/MinMaxChess/ChessEngine.cs:11-32 | the chosen move is the first move of greatest child value, and that value bounds every move |
| ChessRoot.FirstBestNone | Detyrat/Detyra3/MinMaxChess/ChessEngine.cs:24-31 | no move is chosen iff every child value is at most -10000 |
| ChessEngine.SearchRestores | Detyrat/Detyra3/MinMaxChess/ChessEngine.cs:52-54 | apply, recurse and undo leave the piece multiset as found |
| ChessEngine.Run | Detyrat/Detyra3/MinMaxChess/ChessEngine.cs:34-79 | the returned value and final board are those of Search on the old layout |
| ChessEngine.Siblings | Detyrat/Detyra3/MinMaxChess/ChessEngine.cs:45-78 | the sibling loop computes SearchLoop from the sentinel |
| ChessEngine.SearchChild | Detyrat/Detyra3/MinMaxChess/ChessEngine.cs:52-54 | apply, recursive Run, undo: value of the child search, board is UndoPly of its result |
| ChessEngine.Descend | Detyrat/Detyra3/MinMaxChess/ChessEngine.cs:52-53 | apply then recursive Run computes Search on the applied layout |
| ChessEngine.GetBestMove | Detyrat/Detyra3/MinMaxChess/ChessEngine.cs:11-32 | returns the first best root move (null iff every child value is at most -10000) and restores the piece multiset |
| ChessEngine.RootMoves | Detyrat/Detyra3/MinMaxChess/ChessEngine.cs:18-29 | the root loop computes FirstBest over the generated moves |
| ChessEngine.Consider | Detyrat/Detyra3/MinMaxChess/ChessEngine.cs:20-28 | one root iteration extends FirstBest by one move |
| Decimal.NatToString | Detyrat/Detyra3/MinMaxChess/Move.cs:17 | decimal rendering: digits only, one digit iff below 10 |
| Decimal.IntToStringInjective | Detyrat/Detyra2/nBlockedQueens/Program.cs:45 | distinct integers render differently |
| BlockedQueens.State.AddQueen | Detyrat/Detyra2/nBlockedQueens/Program.cs:35-41 | a copy with depth+1 and the new column at the old depth, other entries unchanged |
| BlockedQueens.AddQueenValid | Detyrat/Detyra2/nBlockedQueens/Program.cs:123-131 | the child is a valid placement iff the column is on the board, not blocked and not in conflict |
| BlockedQueens.KeyMatches | Detyrat/Detyra2/nBlockedQueens/Program.cs:43-46 | two keys are equal iff the placed column prefixes are equal |
| BlockedQueens.BlockedNQueensSolver.InConflict | Detyrat/Detyra2/nBlockedQueens/Program.cs:144-153 | true iff a placed queen shares the column or a diagonal |
| BlockedQueens.FirstFit | Detyrat/Detyra2/nBlockedQueens/Program.cs:198-209 | the greedy choice is a column not used, not blocked, on no used diagonal |
| BlockedQueens.GreedyFacts | Detyrat/Detyra2/nBlockedQueens/Program.cs:195-214 | a successful greedy fill places one queen per remaining row, no two sharing a column or diagonal |
| BlockedQueens.GreedyCompletes | Detyrat/Detyra2/nBlockedQueens/Program.cs:195-214 | a valid state plus its greedy fill is a full valid placement |
| BlockedQueens.SpreadNoPairs | Detyrat/Detyra2/nBlockedQueens/Program.cs:216-226 | the greedy queens have no diagonal pair |
| BlockedQueens.ConflictExact | Detyrat/Detyra2/nBlockedQueens/Program.cs:176-229 | a finite Conflict value equals the number of remaining rows |
| BlockedQueens.Admissible | Detyrat/Detyra2/nBlockedQueens/Program.cs:172-229 | every finite heuristic value is between 0 and the remaining rows; H1 and H2 equal it |
| BlockedQueens.Conflict | Detyrat/Detyra2/nBlockedQueens/Program.cs:176-229 | the method computes ConflictValue |
| BlockedQueens.MarkPlaced | Detyrat/Detyra2/nBlockedQueens/Program.cs:183-192 | column flags and diagonal sets of the placed queens |
| BlockedQueens.FitRow | Detyrat/Detyra2/nBlockedQueens/Program.cs:197-213 | the inner loop finds the first fitting column iff there is one |
| BlockedQueens.DiagonalPairs | Detyrat/Detyra2/nBlockedQueens/Program.cs:216-226 | counts the diagonal pairs i < j |
| BlockedQueens.Reconstruct | Detyrat/Detyra2/nBlockedQueens/Program.cs:155-167 | the stack read top-down gives the goal's placed columns in row order |
| BlockedQueens.PopMin | Detyrat/Detyra2/nBlockedQueens/Program.cs:93-106 | the dequeued entry has no entry before it in (F, G, insertion) order |
| BlockedQueens.BlockedNQueensSolver.SuccessorsGood | Detyrat/Detyra2/nBlockedQueens/Program.cs:123-137 | every enqueued child is a valid node one row deeper, with priority (F, G) |
| BlockedQueens.BlockedNQueensSolver.Expand | Detyrat/Detyra2/nBlockedQueens/Program.cs:123-138 | the column loop enqueues exactly Successors, numbering them with consecutive tie values |
| BlockedQueens.BlockedNQueensSolver.Heuristic | Detyrat/Detyra2/nBlockedQueens/Program.cs:77-83 | the chosen heuristic's value |
| BlockedQueens.BlockedNQueensSolver.constructor | Detyrat/Detyra2/nBlockedQueens/Program.cs:71-84 | stores n, the blocked set and the heuristic |
| BlockedQueens.NewSolver | Detyrat/Detyra2/nBlockedQueens/Program.cs:73 | no solver (the exception) iff n <= 0 |
| BlockedQueens.BlockedNQueensSolver.Solve | Detyrat/Detyra2/nBlockedQueens/Program.cs:86-142 | a returned array has n entries and is a non-attacking placement avoiding blocked squares |
| KillerRules.ScanMeaning | Detyrat/Detyra2/CspSolver/Program.cs:98-111 | the scan fails iff a filled digit repeats; otherwise it yields the used digits, their sum and the empty count |
| KillerRules.AvailFacts | Detyrat/Detyra2/CspSolver/Program.cs:118-119 | the available digits are 1..9 not used, strictly ascending |
| KillerRules.RoomForEmpty | Detyrat/Detyra2/CspSolver/Program.cs:121-125 | the empty count never exceeds the available digits, so the indexing is in bounds |
| KillerRules.LowerBound | Detyrat/Detyra2/CspSolver/Program.cs:123 | k distinct available digits sum to at least the k smallest |
| KillerRules.UpperBound | Detyrat/Detyra2/CspSolver/Program.cs:124 | k distinct available digits sum to at most the k largest |
| KillerRules.CompletableOk | Detyrat/Detyra2/CspSolver/Program.cs:92-130 | a cage that some distinct digit completion brings to its sum passes the check |
| KillerRules.PeersExact | Detyrat/Detyra2/CspSolver/Program.cs:67-84 | the visited peers are exactly the other cells of the row, column and box |
| KillerRules.StripMeaning | Detyrat/Detyra2/CspSolver/Program.cs:67-84 | stripping succeeds iff no visited peer has exactly {v}; then v is removed from all of them |
| KillerBoard.AssignShrinks | Detyrat/Detyra2/CspSolver/Program.cs:56-84 | assignment makes the cell's domain at most {v} and never grows another domain |
| KillerBoard.CageMapLast | Detyrat/Detyra2/CspSolver/Program.cs:38-44 | a cell maps to the last cage listing it, and only listed cells are mapped |
| KillerBoard.SetupUntouched | Detyrat/Detyra2/CspSolver/Program.cs:46-53 | a cell not forming a single-cell cage is 0 after construction |
| KillerBoard.SetupGivens | Detyrat/Detyra2/CspSolver/Program.cs:46-53 | a single-cell cage's cell holds its sum (the last such cage wins) |
| KillerBoard.FillShrinks | Detyrat/Detyra2/CspSolver/Program.cs:166 | filling an empty cell removes one empty cell |
| KillerBoard.SearchStep | Detyrat/Detyra2/CspSolver/Program.cs:164-169 | a solution from the assigned state is a solution from the state before |
| KillerBoard.UnusedByUnits | Detyrat/Detyra2/CspSolver/Program.cs:181-193 | the row/column loop and the box loop together test that no peer holds the value |
| KillerSudoku.InitialDomains | Detyrat/Detyra2/CspSolver/Program.cs:30-36 | every cell of the board gets {1..9} |
| KillerSudoku.MapCells | Detyrat/Detyra2/CspSolver/Program.cs:38-44 | the loops build CageMap |
| KillerSudoku.AvailableDigits | Detyrat/Detyra2/CspSolver/Program.cs:118-119 | the digits 1..9 not used, ascending |
| KillerSudoku.SumBounds | Detyrat/Detyra2/CspSolver/Program.cs:115-125 | min/max are the filled sum plus the k smallest/largest available digits |
| KillerSudoku.KillerSudokuCSP.constructor | Detyrat/Detyra2/CspSolver/Program.cs:23-54 | state is the setup grid and domains: full domains, cage map, single-cell cages assigned |
| KillerSudoku.KillerSudokuCSP.Assign | Detyrat/Detyra2/CspSolver/Program.cs:56-61 | grid updated at the cell; domains after the singleton and forward check; result is forward check and cage check |
| KillerSudoku.KillerSudokuCSP.Place | Detyrat/Detyra2/CspSolver/Program.cs:58 | writes the cell and nothing else |
| KillerSudoku.KillerSudokuCSP.ForwardCheck | Detyrat/Detyra2/CspSolver/Program.cs:63-90 | domains as in ForwardDomains; true iff no peer is emptied and the cage check passes |
| KillerSudoku.KillerSudokuCSP.RemoveCandidate | Detyrat/Detyra2/CspSolver/Program.cs:69 | removes the value from one domain; reports whether it removed the last one |
| KillerSudoku.KillerSudokuCSP.StripLines | Detyrat/Detyra2/CspSolver/Program.cs:67-73 | row and column peers processed as in the spec, stopping at an emptied domain |
| KillerSudoku.KillerSudokuCSP.StripBox | Detyrat/Detyra2/CspSolver/Program.cs:75-84 | box peers processed in row-major order, stopping at an emptied domain |
| KillerSudoku.KillerSudokuCSP.StripBoxCell | Detyrat/Detyra2/CspSolver/Program.cs:81 | one box cell skipped if it is the assigned cell, else stripped |
| KillerSudoku.KillerSudokuCSP.CheckCageConstraints | Detyrat/Detyra2/CspSolver/Program.cs:92-130 | true iff CageOk: no repeat, filled sum ≤ target, target within [min, max] |
| KillerSudoku.KillerSudokuCSP.ScanCells | Detyrat/Detyra2/CspSolver/Program.cs:98-111 | the cell loop computes Scan of the cage's values |
| KillerSudoku.KillerSudokuCSP.SelectUnassigned | Detyrat/Detyra2/CspSolver/Program.cs:132-150 | none iff the grid is full; else an empty cell of least domain size, the first such in row-major order |
| KillerSudoku.KillerSudokuCSP.IsSafe | Detyrat/Detyra2/CspSolver/Program.cs:179-195 | true iff no peer holds the value and the cell's cage passes on the current grid |
| KillerSudoku.KillerSudokuCSP.LinesFree | Detyrat/Detyra2/CspSolver/Program.cs:181-184 | true iff the row and column lack the value |
| KillerSudoku.KillerSudokuCSP.BoxFree | Detyrat/Detyra2/CspSolver/Program.cs:185-193 | true iff the 3×3 box lacks the value |
| KillerSudoku.KillerSudokuCSP.CloneGrid | Detyrat/Detyra2/CspSolver/Program.cs:161 | a fresh 9×9 array equal cell for cell |
| KillerSudoku.KillerSudokuCSP.Solve | Detyrat/Detyra2/CspSolver/Program.cs:152-177 | false restores grid and domains; true leaves a full grid extending the start, each filled value from its domain, with no repeat next to a filled cell |
| KillerSudoku.KillerSudokuCSP.TryValue | Detyrat/Detyra2/CspSolver/Program.cs:160-174 | one value tried with backups: restored on failure, solution on success |
| KillerSudoku.KillerSudokuCSP.Attempt | Detyrat/Detyra2/CspSolver/Program.cs:164-170 | IsSafe, Assign and recursive Solve; success gives a solution from the state before |
| SudokuBfs.SafeIffNoPeer | Detyrat/Detyra1/Sudoku/Program.cs:220-238 | Safe iff neither the cell nor any row, column or box peer holds the digit |
| SudokuBfs.PlaceSafe | Detyrat/Detyra1/Sudoku/Program.cs:199-205 | placing a safe digit keeps "no clash" and "digits only", and extends the start |
| SudokuBfs.FillOne | Detyrat/Detyra1/Sudoku/Program.cs:203-205 | a child has one fewer empty cell |
| SudokuBfs.NextQueue | Detyrat/Detyra1/Sudoku/Program.cs:176-206 | dequeuing a board and enqueuing its children lowers the queue's weight |
| SudokuBfs.CopyBoard | Detyrat/Detyra1/Sudoku/Program.cs:212-219 | a fresh 9×9 array equal cell for cell |
| SudokuBfs.IsSafe | Detyrat/Detyra1/Sudoku/Program.cs:220-238 | the loops compute Safe |
| SudokuBfs.FirstEmpty | Detyrat/Detyra1/Sudoku/Program.cs:179-192 | the first zero cell in row-major order, or -1 iff none |
| SudokuBfs.Expand | Detyrat/Detyra1/Sudoku/Program.cs:199-206 | children hold exactly the safe digits, in increasing order, each differing only at the cell |
| SudokuBfs.Child | Detyrat/Detyra1/Sudoku/Program.cs:203-204 | a fresh copy with the one cell set |
| SudokuBfs.Round | Detyrat/Detyra1/Sudoku/Program.cs:178-206 | one dequeue: done iff complete, else children one zero fewer and still good |
| SudokuBfs.SolveSudokuBFS | Detyrat/Detyra1/Sudoku/Program.cs:171-210 | a returned board is fresh, complete and extends the start; it keeps "no clash" and "digits only" from the start |
| LatinSquare.NextCell | Detyrat/Detyra1/LatinSquare/Program.cs:63-64 | row-major order: index+1 is the next column, or the next row's first cell |
| LatinSquare.PutNoRepeats | Detyrat/Detyra1/LatinSquare/Program.cs:66-72 | placing a value absent from row and column keeps rows and columns repeat-free |
| LatinSquare.PlaceKeeps | Detyrat/Detyra1/LatinSquare/Program.cs:68-72 | placing with flags set keeps grid and flags consistent at the next cell |
| LatinSquare.UndoRestores | Detyrat/Detyra1/LatinSquare/Program.cs:80-82 | clearing cell and flags restores the previous grid and flags |
| LatinSquare.Pigeonhole | Detyrat/Detyra1/LatinSquare/Program.cs:54-57 | n distinct values in 1..n include every value |
| LatinSquare.CompleteIsLatin | Detyrat/Detyra1/LatinSquare/Program.cs:54-57 | a full repeat-free grid holds each of 1..n in every row and column |
| LatinSquare.LatinSquareSolver.constructor | Detyrat/Detyra1/LatinSquare/Program.cs:19-21 | an empty grid with clear flags |
| LatinSquare.LatinSquareSolver.Set | Detyrat/Detyra1/LatinSquare/Program.cs:70-72 | writes the cell and both flags together |
| LatinSquare.LatinSquareSolver.TryValue | Detyrat/Detyra1/LatinSquare/Program.cs:68-83 | place, recurse and undo: success is a full consistent grid, failure leaves the state unchanged |
| LatinSquare.LatinSquareSolver.DepthLimitedDFS | Detyrat/Detyra1/LatinSquare/Program.cs:52-87 | succeeds at once when index == n·n; success only with index + remaining depth ≥ n·n and a full consistent grid; failure leaves the state unchanged |
| LatinSquare.LatinSquareSolver.SolveLatinSquare | Detyrat/Detyra1/LatinSquare/Program.cs:42-50 | success leaves a Latin square; failure leaves the state unchanged |
| GolfSchedule.MatchSymmetric | Detyrat/Detyra1/SocialGolfers/Program.cs:85-90 | a matrix matching the schedule is symmetric with a false diagonal |
| GolfSchedule.AddEmptyWeek | Detyrat/Detyra1/SocialGolfers/Program.cs:31-32 | a reset week adds no pair and no repeat |
| GolfSchedule.PlaceFacts | Detyrat/Detyra1/SocialGolfers/Program.cs:83 | writing a group id gives that group exactly the members, others unchanged; sharing gains exactly the group's pairs |
| GolfSchedule.PlaceMatch | Detyrat/Detyra1/SocialGolfers/Program.cs:85-90 | marking the group's pairs keeps the matrix equal to "have met" |
| GolfSchedule.PlaceNoRepeat | Detyrat/Detyra1/SocialGolfers/Program.cs:68-72 | a group of unmet players keeps "no pair meets twice" |
| GolfSchedule.MarkClear | Detyrat/Detyra1/SocialGolfers/Program.cs:100-105 | unmarking pairs that were unmarked before restores the matrix |
| GolfSchedule.PlaceClear | Detyrat/Detyra1/SocialGolfers/Program.cs:95-98 | resetting the group's entries to -1 restores the row |
| SocialGolfers.FreeId | Detyrat/Detyra1/SocialGolfers/Program.cs:74-81 | while a player is unplaced some group id below G is unused |
| SocialGolfers.RowComplete | Detyrat/Detyra1/SocialGolfers/Program.cs:50-56 | a row with every player placed in groups of 4 partitions the 32 players into 8 groups |
| SocialGolfers.StartWeek | Detyrat/Detyra1/SocialGolfers/Program.cs:27-35 | a finished schedule plus a reset week is ready to be filled |
| SocialGolfers.PlaceKeeps | Detyrat/Detyra1/SocialGolfers/Program.cs:74-92 | placing a valid group keeps the week invariant at the next anchor |
| SocialGolfers.GolferSolver.constructor | Detyrat/Detyra1/SocialGolfers/Program.cs:19-20 | the pair matrix starts all false |
| SocialGolfers.GolferSolver.ScheduleWeek | Detyrat/Detyra1/SocialGolfers/Program.cs:27-35 | succeeds when week == W; success is a finished schedule; failure keeps pairs and earlier weeks |
| SocialGolfers.GolferSolver.AssignGroupsForWeek | Detyrat/Detyra1/SocialGolfers/Program.cs:37-111 | success is a finished schedule; failure restores pairs and weeks up to this one |
| SocialGolfers.GolferSolver.FirstUnplaced | Detyrat/Detyra1/SocialGolfers/Program.cs:40-48 | the first unplaced player at or after startIndex, or -1 iff none |
| SocialGolfers.GolferSolver.TryGroup | Detyrat/Detyra1/SocialGolfers/Program.cs:74-105 | place, recurse, backtrack: failure restores the state exactly |
| SocialGolfers.GolferSolver.PlaceGroup | Detyrat/Detyra1/SocialGolfers/Program.cs:74-90 | writes the smallest free id to the four players and marks their six pairs |
| SocialGolfers.GolferSolver.TakeBack | Detyrat/Detyra1/SocialGolfers/Program.cs:95-105 | the backtrack restores the row and the matrix |
| SocialGolfers.GolferSolver.SmallestFreeId | Detyrat/Detyra1/SocialGolfers/Program.cs:74-81 | the smallest id unused in the week, G if all are used |
| SocialGolfers.GolferSolver.SetGroup | Detyrat/Detyra1/SocialGolfers/Program.cs:83-90 | writes ids and pair marks together |
| SocialGolfers.GolferSolver.SetIds | Detyrat/Detyra1/SocialGolfers/Program.cs:83 | the four players get the id |
| SocialGolfers.GolferSolver.MarkPairs | Detyrat/Detyra1/SocialGolfers/Program.cs:85-90 | the six pairs set in both directions |
| SocialGolfers.GolferSolver.MarkPair | Detyrat/Detyra1/SocialGolfers/Program.cs:85 | (x, y) and (y, x) set, nothing else |
| KCombinations.LeastIsFirst | Detyrat/Detyra1/SocialGolfersGeneralCase/Program.cs:85-86 | the starting indices 0..k-1 come before every other increasing tuple |
| KCombinations.TopIsLast | Detyrat/Detyra1/SocialGolfersGeneralCase/Program.cs:92-97 | when no index can move, no increasing tuple comes after |
| KCombinations.NextAfter | Detyrat/Detyra1/SocialGolfersGeneralCase/Program.cs:99-101 | the step yields an increasing tuple after the current one |
| KCombinations.NextIsSuccessor | Detyrat/Detyra1/SocialGolfersGeneralCase/Program.cs:92-101 | no increasing tuple lies strictly between the current one and the next |
| KCombinations.LexTotal | Detyrat/Detyra1/SocialGolfersGeneralCase/Program.cs:80-103 | the lexicographic order is total on equal-length tuples |
| KCombinations.Progress | Detyrat/Detyra1/SocialGolfersGeneralCase/Program.cs:88-102 | each step lowers a bounded measure, so the generator stops |
| KCombinations.Combinations | Detyrat/Detyra1/SocialGolfersGeneralCase/Program.cs:80-103 | nothing if k > n; otherwise every increasing index tuple exactly once, in increasing order, each mapped to list order |
| KCombinations.LastMovable | Detyrat/Detyra1/SocialGolfersGeneralCase/Program.cs:92-94 | the last index below its maximum, or -1 iff none |
| KCombinations.MoveOn | Detyrat/Detyra1/SocialGolfersGeneralCase/Program.cs:99-101 | the array becomes Next of its old contents |
| GolfersGeneral.UnplacedCount | Detyrat/Detyra1/SocialGolfersGeneralCase/Program.cs:33-38 | after gf groups, N - P·gf players are unplaced |
| GolfersGeneral.StartForming | Detyrat/Detyra1/SocialGolfersGeneralCase/Program.cs:18-25 | a reset week with no group formed satisfies the week invariant |
| GolfersGeneral.FinishForming | Detyrat/Detyra1/SocialGolfersGeneralCase/Program.cs:30-31 | G groups formed make a finished schedule |
| GolfersGeneral.FormKeeps | Detyrat/Detyra1/SocialGolfersGeneralCase/Program.cs:44-49 | placing a valid group with id groupsFormed keeps the invariant with one more group |
| GolfersGeneral.Candidate | Detyrat/Detyra1/SocialGolfersGeneralCase/Program.cs:40 | each candidate group has P ascending unplaced players |
| GolfersGeneral.ValidUnmet | Detyrat/Detyra1/SocialGolfersGeneralCase/Program.cs:62-69 | a group passing IsValidGroup has no marked pair |
| GolfersGeneral.GeneralSolver.constructor | Detyrat/Detyra1/SocialGolfersGeneralCase/Program.cs:14-16 | N = P·G and an all-false pair matrix |
| GolfersGeneral.GeneralSolver.ScheduleWeek | Detyrat/Detyra1/SocialGolfersGeneralCase/Program.cs:18-26 | succeeds when week == W; success is a finished schedule; failure keeps pairs and earlier weeks |
| GolfersGeneral.GeneralSolver.AssignGroupsForWeek | Detyrat/Detyra1/SocialGolfersGeneralCase/Program.cs:28-60 | success is a finished schedule; failure restores the state; fewer than P unplaced means failure |
| GolfersGeneral.GeneralSolver.Available | Detyrat/Detyra1/SocialGolfersGeneralCase/Program.cs:33-36 | the unplaced players in ascending order |
| GolfersGeneral.GeneralSolver.IsValidGroup | Detyrat/Detyra1/SocialGolfersGeneralCase/Program.cs:62-69 | true iff no pair i < j of the group is marked |
| GolfersGeneral.GeneralSolver.TryGroup | Detyrat/Detyra1/SocialGolfersGeneralCase/Program.cs:42-56 | place, recurse, backtrack: failure restores the state exactly |
| GolfersGeneral.GeneralSolver.PlaceGroup | Detyrat/Detyra1/SocialGolfersGeneralCase/Program.cs:44-47 | members get id groupsFormed and their pairs are marked |
| GolfersGeneral.GeneralSolver.TakeBack | Detyrat/Detyra1/SocialGolfersGeneralCase/Program.cs:52-56 | the backtrack restores the row and the matrix |
| GolfersGeneral.GeneralSolver.SetIds | Detyrat/Detyra1/SocialGolfersGeneralCase/Program.cs:44-45 | the members get the id |
| GolfersGeneral.GeneralSolver.MarkPairs | Detyrat/Detyra1/SocialGolfersGeneralCase/Program.cs:71-79 | every pair of distinct members set to the value in both directions |

## Left out

- Console I/O and entry points are not part of this model: every `Main`, `PrintBoard`, `PrintGrid`, `printWeek`, `BoardPrinter` and `ReadKey`. The puzzle tables, the cage list and the chess start position are data only.
- Machine integers are unbounded here. No 32-bit overflow can arise in the modelled ranges (evaluations lie within ±9984, and all grids are small). `int.MaxValue` is kept as the constant 0x7fffffff.
- .NET collection order:
  - `HashSet` enumeration in `Solve` is modelled as an arbitrary choice of a member;
  - `Dictionary` key order is modelled as row-major insertion order, which is the order the constructor inserts them;
  - the priority queue is modelled as a sequence whose minimum under (F, G, insertion) is removed.
- The `available.Sort()` call in the cage check is not modelled as a separate step: the list it sorts is already ascending (`AvailFacts`).
- KCombinations.Combinations: the lazy `yield` iterator is modelled eagerly, returning the whole list. The callers use each group in the same order. The early exit from the enumeration on success is not modelled.
- ChessEngine.GetBestMove: requires depth ≥ 1. At depth 0 the C# calls `Run` with -1, whose `depth == 0` test never fires.
- ChessEngine.Run: requires a valid layout (distinct pieces on distinct squares inside the board). The C# accepts any board. This is needed for the bound that keeps evaluations inside the sentinels.
- ChessBoard.Board.UndoMove: equals `UndoPly` only when the captured piece is not the mover and still stands on the target, as it does after `ApplyMove`. In other cases only the direct effect is stated.
- Move and Piece setters: `Move` fields are fixed at construction, and a `Piece`'s kind and owner are fixed. The source sets them only while building a move or the start position.
- Chess rules outside the C#: check, mate, en passant, promotion and rook movement in castling. The code does not implement them.
- KillerSudoku.KillerSudokuCSP.constructor: requires every cage to list at most 9 cells, all on the board (`Fits`). With more entries the empty count can exceed the 9 − |used| available digits, and the loop at Detyrat/Detyra2/CspSolver/Program.cs:121-125 then reads `available` past its end; an off-board cell indexes outside the grid.
- KillerSudoku.KillerSudokuCSP.Solve: requires every cell to lie in some cage, because the C# throws `KeyNotFoundException` otherwise. Its contract does not state that every cage meets its sum in the final grid. It states completeness, the extension of the start, values taken from the domains, and no repeat next to a cell the search filled. Clashes among the constructor's givens are not excluded, because the constructor ignores `Assign`'s result.
- KillerSudoku.KillerSudokuCSP.TryValue: the body of the C# `foreach` in `Solve` is split into `TryValue` (backups and restore) and `Attempt` (IsSafe, Assign, recursion). `Place` is the single array write of `Assign`.
- BlockedQueens.BlockedNQueensSolver.Solve: states soundness of a returned placement only. Completeness is not stated, because the `Conflict` heuristic prunes children whose greedy fill fails.
- SudokuBfs.SolveSudokuBFS: soundness only; completeness is not stated. The queue is a sequence of array references.
- SocialGolfers.GolferSolver.ScheduleWeek: states soundness of a success and restoration on failure. That a schedule for 5 weeks exists is not proved.
- LatinSquare.LatinSquareSolver.SolveLatinSquare: states soundness on success. That a Latin square is found for every n is not proved.
