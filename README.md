# Chinese checkers robot: board engine, search, mapper and vision encoding in Dafny

This project models the core of the Chinese checkers robot in Dafny and proves properties of it. The robot has four parts:

- **The AI server's game engine** (`aiServer/Board.py`, `aiServer/Players.py`).
  - The board is a 121-hole star of seventeen rows, and each tile has a dictionary of neighbours in six directions.
  - Ten pieces per player are placed on it.
  - Each tile gets two score tables. The evaluation-1 table is a breadth-first propagation from the far corner plus a triangle bonus. The evaluation-2 table is computed row by row.
  - There are win tests and a position score.
  - The move generator finds single steps and chains of jumps over occupied neighbours, and a jump search records maximal jump paths.
  - Paths are applied to the board and undone in place.
  - `minimax_pruning` is an alpha-beta search. It applies each candidate path to one shared board, searches one ply deeper and undoes the path.
- **The server's adapters**:
  - `BoardMapper` (`aiServer/aiserver.py`) maps client coordinates (x, y) to tiles, loads a board from a symbol matrix, validates a move sequence, and turns the AI's tile path into coordinates under a row-monotone heuristic;
  - `normalize_board_state` (`aiServer/BoardStateParser.py`) turns the text board into a seventeen-row matrix.
- **The Android app's board** (`BoardState.java`): flat-index arithmetic over the same row schedule, in an `int[121]`. The app also has two dotted-quad IPv4 validators (`IpConfigDialog.isValidIp`, `RobotControlFragment.isValidIpAddress`).
- **The integer part of the camera pipeline** (`detection_script/detection_no_trackbars.py`, repeated in `detection_script/detection_new_red.py`). It groups hole centres into rows, deals them into the board layout, matches each marble greedily to the nearest free hole, and writes the text board that the server parses.

## How the model is built

- Tiles are flat indices 0..120, numbered row by row. A tile holds `Empty`, `P1` (a player1 piece, written 'O') or `P2` (a player2 piece, written 'X').
- The neighbour dictionaries are data: `Adjacency` holds, for each tile, the items of its dictionary in insertion order.
  - `Topology.BoardAdjacency` builds the board's table from the five construction loops.
  - The move code takes any well-formed table as a parameter, as each `Tile` object holds its own dictionary.
- Code that changes state step by step is imperative Dafny:
  - `GameBoard.Board` is a class. Its occupancy and four score tables are arrays.
  - `Mapper.BoardMapper` holds the two dictionaries as `map` fields.
  - `AndroidBoard.BoardState` holds an `array<int>`.
  - The loops of the parser, the detection functions and the search are methods with loop invariants.
- Each method is proved against a pure function, and the properties are proved about those functions:
  - the move generator: `Moves.Explore`;
  - the jump search: `Jumps.Dfs`;
  - the search: `Minimax.Search`, together with `Minimax.Unpruned`, the unpruned minimax that it is proved to agree with;
  - the parser: `BoardText.Normalized`;
  - the detection functions: `Detection.GroupedByRow`, `Detection.Place`.
- `Tile.py` and `Piece.py` are not part of this model. The model uses them only through:
  - occupancy reads and writes;
  - the neighbour dictionary;
  - per-tile scores, which do not depend on whose turn it is;
  - `get_score1()`/`get_score2()`, which take no argument in `get_score` (`aiServer/Board.py:149-155`), assumed to return the tile's score for the owner of the piece standing on it: `score*_for_player1` under a player1 piece and `score*_for_player2` under a player2 piece (`Rules.SumOwned`);
  - `set_score1_for_player1/2`, assumed to keep the larger of the stored and offered score and to answer whether the offered one was larger (`GameBoard.SetScore`);
  - `set_score2_for_player1/2`, assumed to store the value given, overwriting the tile's score (`GameBoard.Board.FillRowScore2`). Under a keep-the-larger setter the evaluation-2 tables would agree with the model only when the initial tile score is at most every row score;
  - the piece colours, taken as 'O' for player1 and 'X' for player2.
- The board fills player1's evaluation-2 table as the program does, with the literal `1*10` on even-length rows (see Findings). The corrected table, `GameBoard.Score2Player1`, is modelled beside it with its own properties and the lemmas comparing the two.
- `get_all_jump_paths` is defined twice in `aiServer/Board.py`. Python keeps the last definition, at lines 556-566, but its body stops after building `visited` (see Findings). The model's jump search is the one at lines 461-506. It is the same search as `dfs_jumps` at lines 262-290.

## Model

| member | source | states |
|---|---|---|
| Topology.RowStartsAreSums | aiServer/Board.py:25-37 | the flat index of a row's first tile is the number of tiles in the rows above it |
| Topology.RowSizesSumToTileCount | app/src/main/java/hku/cs/fyp24057/chinesecheckerrobot/BoardState.java:16-19 | the seventeen row lengths add up to BOARD_SIZE = 121 |
| Topology.FlatIndexInverse | app/src/main/java/hku/cs/fyp24057/chinesecheckerrobot/BoardState.java:45-56 | the row and column of a valid position are recovered from its flat index, so flattening is injective |
| Topology.FlatIndexCovers | app/src/main/java/hku/cs/fyp24057/chinesecheckerrobot/BoardState.java:45-56 | every index 0..120 is the flat index of a valid position, so flattening is onto [0, 121) |
| Topology.ExpandingRowSizes | aiServer/Board.py:54-59 | every row the second loop links downwards is followed by a row one tile longer |
| Topology.ContractingRowSizes | aiServer/Board.py:62-67 | every row the third loop links upwards is preceded by a row one tile longer |
| Topology.WithinRowLink | aiServer/Board.py:47-51 | the first loop links only valid positions |
| Topology.ExpandingLink | aiServer/Board.py:54-59 | the second loop links only valid positions |
| Topology.ContractingLink | aiServer/Board.py:62-67 | the third loop links only valid positions |
| Topology.TopPointLink | aiServer/Board.py:70-74 | the fourth loop links only valid positions |
| Topology.BottomPointLink | aiServer/Board.py:77-81 | the fifth loop links only valid positions |
| Topology.PhasesDisjoint | aiServer/Board.py:45-81 | no two construction loops set the same direction of the same tile, so no link is overwritten |
| Topology.NbrPosOfPhase | aiServer/Board.py:45-81 | a link set by any loop is the tile's final neighbour in that direction |
| Topology.NbrPosPhase | aiServer/Board.py:45-81 | every final neighbour was set by one of the five loops |
| Topology.PhaseLinkSymmetric | aiServer/Board.py:45-81 | each loop sets every link together with its reverse (L/R, UL/DR, UR/DL) |
| Topology.NbrPosSymmetric | aiServer/Board.py:45-81 | B is A's d-neighbour exactly when A is B's opposite-direction neighbour |
| Topology.NbrSymmetric | aiServer/Board.py:45-81 | the neighbour relation on flat tiles is symmetric under the opposite direction |
| Topology.NbrIrreflexive | aiServer/Board.py:45-81 | no tile is its own neighbour |
| Topology.DirsAtNoDuplicates | aiServer/Board.py:45-81 | no tile's dictionary receives the same direction twice |
| Topology.DirsAtMembers | aiServer/Board.py:45-81 | a direction is a key of a tile's dictionary exactly when the tile has a neighbour that way |
| Topology.NeighbourDirs | aiServer/Board.py:45-81 | the keys of a tile's dictionary in insertion order are distinct and are exactly its neighbour directions |
| Topology.NeighboursComplete | aiServer/Board.py:45-81 | every neighbour of a tile is an item of its dictionary |
| Topology.Get | aiServer/Board.py:178 | dict.get(d) returns the tile of an entry under d, if any |
| Topology.BoardAdjacency | aiServer/Board.py:45-81 | the built dictionaries are well formed: 121 of them, naming tiles only, each direction at most once |
| Topology.BoardStep | aiServer/Board.py:45-81 | looking up a direction in the built dictionaries gives exactly the neighbour relation of the five loops |
| Topology.BoardStepSymmetric | aiServer/Board.py:45-81 | in the built dictionaries, v is u's d-neighbour exactly when u is v's opposite-direction neighbour |
| Topology.TrianglesAreRows | aiServer/Board.py:192-197 | the top triangle (tiles 0..9) is exactly rows 0-3 and the bottom one (111..120) exactly rows 13-16 |
| Topology.GetRowIndex | aiServer/Board.py:400-403 | a row is returned exactly for a board tile (None otherwise, where the loop falls through), and that row contains the tile |
| Rules.GetScore | aiServer/Board.py:141-156 | +1_000_000 when the player to move has won (checked first), -1_000_000 when the other has, otherwise the mover's table sum minus the opponent's |
| Rules.GetScoreAntisymmetric | aiServer/Board.py:141-156 | before anyone has won, player1's score of a position is the negation of player2's |
| Rules.GetScoreBothWon | aiServer/Board.py:141-145 | a position where both triangles are filled scores +1_000_000 for whichever side asks |
| Rules.GetScoreBounded | aiServer/Board.py:141-156 | with tables bounded by b, every score lies within 1_000_000 + 242 b of zero |
| Rules.SumOwnedBounded | aiServer/Board.py:149-155 | a sum over n tiles of a table bounded by b lies in [-n b, n b] |
| Rules.InitialOcc | aiServer/Board.py:84-92 | after placement, a tile holds player1 exactly on the top triangle and player2 exactly on the bottom one |
| Rules.InitialNotEnded | aiServer/Board.py:111-138 | a fresh board has not ended: neither player has won |
| Jumps.LinkLanding | aiServer/Board.py:542-546 | a landing is the empty tile one step beyond an occupied neighbour, in the same direction |
| Jumps.LinkLandingIsJump | aiServer/Board.py:542-546 | a landing found from a dictionary item is a jump from the tile |
| Jumps.JumpIsLinkLanding | aiServer/Board.py:542-546 | every jump from a tile passes over one of the items of its dictionary |
| Jumps.JumpStepLands | aiServer/Board.py:542-546 | every jump lands on an empty board tile |
| Jumps.GetJumpDestinations | aiServer/Board.py:535-547 | a tile is listed exactly when a single jump leads to it |
| Jumps.IsValidJump | aiServer/Board.py:549-554 | true exactly when one jump leads from the current tile to the landing |
| Jumps.ValidateJump | aiServer/Board.py:654-674 | true exactly when the target is a neighbour, or lies beyond an occupied neighbour in the same direction |
| Jumps.ValidJumpIsValidated | aiServer/Board.py:654-674 | every jump that is_valid_jump accepts, validate_jump accepts |
| Jumps.ValidateJumpIgnoresLanding | aiServer/Board.py:654-674 | validate_jump accepts a "jump" onto an occupied tile that is_valid_jump refuses, so the two differ |
| Jumps.DfsSound | aiServer/Board.py:474-502 | every path the search records extends the start path by jumps onto unvisited tiles, holds at least one jump, and cannot be extended |
| Jumps.DfsLinksSound | aiServer/Board.py:479-498 | the same for the paths found below the items of one dictionary loop |
| Jumps.DfsLinksNotFound | aiServer/Board.py:477-502 | when the loop finds no jump, no item leads to an unvisited landing |
| Jumps.JumpPaths | aiServer/Board.py:461-506 | an empty tile has no jump paths; every recorded path starts on the tile and is a maximal jump chain |
| Jumps.GetAllJumpPathsAsWritten | aiServer/Board.py:556-566 | as written, a list comes back exactly for an empty tile; an occupied tile gets None |
| Moves.Explore | aiServer/Board.py:159-189 | the already-jumped and already-returned sets only grow |
| Moves.ExploreYields | aiServer/Board.py:159-189 | only adjacency yields can repeat; every jump landing is yielded at most once and recorded as returned |
| Moves.ExploreReach | aiServer/Board.py:159-189 | after a call from t, t is marked, and every tile newly marked is reachable from t by jumps with its own jumps all explored |
| Moves.ExploreLinksAdjacent | aiServer/Board.py:170-175 | at the top level every empty neighbour in the dictionary is yielded |
| Moves.PossibleMovesExact | aiServer/Board.py:159-189 | the generator yields exactly the empty neighbours and the tiles reachable by one or more jumps; a tile repeats only if it is an empty neighbour |
| Moves.KeepInHome | aiServer/Board.py:200-208 | the moves kept are exactly those that do not take the piece out of its destination triangle |
| Moves.ValidMoves | aiServer/Board.py:200-208 | a valid move is an empty neighbour or a jump-reachable tile that keeps a piece already in its destination triangle inside it |
| Moves.KeepAccepted | aiServer/Board.py:211-214 | the moves kept are exactly those the heuristic accepts |
| Moves.ValidLogicalMoves | aiServer/Board.py:211-214 | the logical moves are exactly the valid moves the heuristic accepts, no more of them than valid moves |
| Moves.StepPaths | aiServer/Board.py:236-254 | every single-step path goes from the origin to an empty neighbour, and every empty neighbour that passes the triangle rule and the heuristic is listed |
| Moves.StepPathsFromLinks | aiServer/Board.py:238-253 | every single-step path names an item of the origin's dictionary |
| Moves.KeepJumpPaths | aiServer/Board.py:292-309 | a jump path is kept exactly when its final tile passes the triangle rule and the heuristic |
| Moves.ValidLogicalPaths | aiServer/Board.py:215-310 | no paths from an empty tile; every path starts on the origin, has two or more tiles, and its final tile passes the triangle rule and the heuristic; longer ones are maximal jump chains |
| Paths.MovePieceToTile | aiServer/Board.py:314-322 | succeeds exactly when the destination is empty; a refusal changes nothing; a success moves the piece and leaves every other tile alone |
| Paths.ApplyPath | aiServer/Board.py:602-628 | a path of fewer than two tiles, or with an empty first tile, returns False and changes nothing |
| Paths.UndoPath | aiServer/Board.py:630-652 | a path of fewer than two tiles, or with an empty last tile, returns False and changes nothing |
| Paths.ApplyWalkable | aiServer/Board.py:602-628 | on a walkable path apply_path returns True, leaves the piece on the last tile, empties the first and changes nothing else |
| Paths.UndoAfterApply | aiServer/Board.py:602-652 | undo_path after a complete apply_path restores the board exactly |
| Paths.ApplyBlocked | aiServer/Board.py:602-628 | at the first blocked step apply_path returns False with the piece left where it stopped, without rollback |
| GameBoard.SetScore | aiServer/Board.py:331-343 | the assumed tile setter keeps the larger score and answers whether the offered score raised it |
| GameBoard.PropagatedAlongWalk | aiServer/Board.py:328-345 | after the propagation, a tile n steps from the seed scores at least 16 - n, when the initial scores are low enough |
| GameBoard.WithBonus | aiServer/Board.py:335-336 | a triangle bonus is added to tiles lo..lo+9 and nowhere else |
| GameBoard.Score2Player1AsWrittenNotMonotone | aiServer/Board.py:349-355 | as written, player1's evaluation 2 drops from 40 to 5 on a step towards player1's destination |
| GameBoard.Score2Player1Monotone | aiServer/Board.py:349-355 | with the row factor on every row, each tile of a lower row scores more for player1 than every tile above |
| GameBoard.Score2Player2Monotone | aiServer/Board.py:359-365 | player2's evaluation 2 rises strictly towards the top row |
| GameBoard.Score2Mirror | aiServer/Board.py:348-365 | with the row factor on every row (the corrected table), player1's evaluation 2 mirrors player2's top to bottom |
| GameBoard.Score2Player1AsWrittenAgrees | aiServer/Board.py:349-355 | the program's player1 score equals the corrected one exactly on the even-numbered rows and row 1, and never exceeds it |
| GameBoard.Score2AsWrittenMirror | aiServer/Board.py:348-365 | the program's player1 table mirrors player2's exactly on the even-numbered rows and row 1; on rows 3, 5, ..., 15 it does not |
| GameBoard.JumpItem | aiServer/Board.py:479-497 | one item of the jump loop does what the search specification does for that item |
| GameBoard.JumpItemsAreDfsLinks | aiServer/Board.py:479-502 | running the jump loop from item k adds to what was gathered exactly what the search over the remaining items finds |
| GameBoard.Board.constructor | aiServer/Board.py:5-22 | the board has the built dictionaries, the initial placement, both players' propagated evaluation-1 tables (with their triangle bonuses), and the evaluation-2 tables exactly as the program computes them (player1's with the literal 1*10 on even-length rows) |
| GameBoard.Board.PlacePiecesInBoard | aiServer/Board.py:84-92 | player1 pieces on tiles 0..9, player2 pieces on 111..120, every other tile unchanged |
| GameBoard.Board.PropagateScore | aiServer/Board.py:330-334 | the queue loop ends with a propagated table: nothing lowered, nothing above its cap, the seed at least 16, every explored tile's neighbours at least its score minus one |
| GameBoard.Board.RelaxNeighbours | aiServer/Board.py:333-334 | one round keeps the bounds and the closure invariant and does not increase the termination measure |
| GameBoard.Board.AddTriangleBonus | aiServer/Board.py:335-336 | the table afterwards is the table before with the bonus on the ten triangle tiles |
| GameBoard.Board.FillRowScore2 | aiServer/Board.py:351-355 | one row of the table is filled with the program's evaluation-2 scores (1*10 for player1 on even-length rows); the rows above keep theirs |
| GameBoard.Board.FillScore2 | aiServer/Board.py:349-365 | every tile gets the program's evaluation-2 score of its row and column, for player1 or for player2 |
| GameBoard.Board.CalculateTilesScores | aiServer/Board.py:325-367 | both evaluation-1 tables are propagated from their seed with +5 on the destination triangle, and both evaluation-2 tables are the program's, as written, with +50 |
| GameBoard.Board.MovePieceToTile | aiServer/Board.py:314-322 | the method's result and new board are those of the specification function |
| GameBoard.Board.ApplyPath | aiServer/Board.py:602-628 | walking the piece one step at a time gives the specified result and board |
| GameBoard.Board.UndoPath | aiServer/Board.py:630-652 | walking the piece back gives the specified result and board |
| GameBoard.Board.FindJumps | aiServer/Board.py:474-502 | the recursive search appends exactly the search specification's paths |
| GameBoard.Board.TryJump | aiServer/Board.py:479-497 | one loop item: whether it jumped and the paths it added, as specified |
| GameBoard.Board.AllJumpPaths | aiServer/Board.py:461-506 | the method returns the specified jump paths of the tile |
| Minimax.Mover | aiServer/Players.py:48-92 | the maximising ply moves the turn holder's pieces, the minimising ply the opponent's |
| Minimax.StepCandidates | aiServer/Players.py:58-61 | two-tile paths exactly for the destinations the heuristic accepts |
| Minimax.JumpCandidates | aiServer/Players.py:63-66 | a jump path is a candidate exactly when it is longer than one tile and every hop passes the heuristic |
| Minimax.JumpPathWalkable | aiServer/Players.py:63-72 | every recorded jump path can be walked by apply_path, so the apply/undo round trip applies |
| Minimax.Candidates | aiServer/Players.py:56-66 | every candidate starts on the tile and can be walked |
| Minimax.Update | aiServer/Players.py:73-79 | a strictly better score (or the first) replaces best and path, and alpha or beta moves to it |
| Minimax.Search | aiServer/Players.py:33-123 | depth 0 or an ended game gives the score plus the depth and no path; otherwise the path is empty or a candidate of the side to move |
| Minimax.TileLoop | aiServer/Players.py:55-81 | the path after the tile loop is the one it started with or a candidate |
| Minimax.PathLoop | aiServer/Players.py:68-79 | the path after the candidate loop is the one it started with or a candidate |
| Minimax.Improve | aiServer/Players.py:74-76 | the unpruned bookkeeping keeps the maximum (or minimum) and the earliest path that reaches it |
| Minimax.Unpruned | aiServer/Players.py:44-46 | the reference minimax over the same candidates has the same base case |
| Minimax.FailSoft | aiServer/Players.py:33-123 | the pruned result bounds the unpruned value from above at or below alpha and from below at or above beta, and equals it, score and path, inside the window |
| Minimax.UnprunedBounded | aiServer/Players.py:44-86 | a minimax value lies between -Limit and Limit + depth |
| Minimax.RootAgrees | aiServer/Players.py:33-81 | with the window (-1e9, 1e9) and scores inside it, the root result is exactly the unpruned minimax score and first-best path |
| Minimax.UnprunedFirstBest | aiServer/Players.py:55-76 | the unpruned value is that of the first best candidate in flat tile order: at least as good as every candidate and strictly better than every earlier one |
| Minimax.SearchWithoutCandidates | aiServer/Players.py:83-86 | with no candidate the result is the plain score, without the depth bonus, and no path |
| Players.StepPaths | aiServer/Players.py:58-61 | the loop builds the specified two-tile candidates |
| Players.KeptJumpPaths | aiServer/Players.py:63-66 | the loop keeps the specified jump paths |
| Players.PossiblePaths | aiServer/Players.py:56-66 | the candidate list of one tile, as specified |
| Players.MinimaxPruning | aiServer/Players.py:33-123 | the search returns the specification's score and path, and the board is unchanged on return |
| Players.SearchPaths | aiServer/Players.py:68-79 | the candidate loop returns the specified loop state and leaves the board as it found it |
| Players.SearchChild | aiServer/Players.py:69-72 | apply, recursive search, undo: the child's score, with the board restored |
| Players.IsPlayer1 | aiServer/Players.py:134-135 | true exactly when the name contains the character '1' |
| Players.BoardTables | aiServer/Board.py:147-156 | evaluation 1 reads the score1 tables and evaluation 2 the score2 tables |
| Players.ComputerPlayer.constructor | aiServer/Players.py:140-144 | name, evaluation function and depth as given, any integer depth included; the default heuristic accepts everything |
| Players.ComputerPlayer.SetHeuristic | aiServer/Players.py:146-147 | the heuristic is replaced by the one given |
| Players.ComputerPlayer.MoveSetting | aiServer/Players.py:154-160 | the search is for player1 exactly when is_player1, with evaluation 1 exactly when eval_func == 1, over the player's heuristic |
| Players.ComputerPlayer.GetMove | aiServer/Players.py:149-173 | the board is left as it was. For a depth of 0 or more, the path is the maximising search's: empty or a candidate of this player's pieces. For a negative depth, the result is no move (Some([])) when the game has ended or the side to move has no candidate, and None otherwise |
| Mapper.CoordOfTilePlaces | aiServer/aiserver.py:50-60 | the coordinate given to a tile is a valid position that flattens back to the tile |
| Mapper.CoordOfTileRow | aiServer/aiserver.py:56-58 | a tile's y is its row (get_row_index) |
| Mapper.CoordOfFlat | aiServer/aiserver.py:50-60 | the tile at a valid position has that position as its coordinate |
| Mapper.CoordOfTileOnly | aiServer/aiserver.py:50-60 | only the tile at (x, y) has (x, y) as its coordinate |
| Mapper.TileAt | aiServer/aiserver.py:62-64 | a tile is found exactly for an on-board coordinate |
| Mapper.TileTableExact | aiServer/aiserver.py:54-59 | coord_to_tile holds exactly the coordinates of the tiles entered, each mapped to its tile |
| Mapper.CoordTableExact | aiServer/aiserver.py:54-60 | tile_to_coord holds exactly the tiles entered, each mapped to its coordinate |
| Mapper.UnionTables | aiServer/aiserver.py:50-60 | once every tile is entered, both dictionaries hold the board's entries over whatever they held before |
| Mapper.TablesInverse | aiServer/aiserver.py:50-60 | the filled dictionaries are inverse to each other, both ways round |
| Mapper.PieceOf | aiServer/aiserver.py:80-85 | 'O' is player1, 'X' player2, anything else no piece |
| Mapper.MatrixCell | aiServer/aiserver.py:77-82 | a piece comes only from a character inside the matrix |
| Mapper.CellChar | aiServer/aiserver.py:80-85 | the character drawn for a tile reads back as that tile's content |
| Mapper.MatrixRoundTrip | aiServer/aiserver.py:70-85 | loading the matrix drawn from a board gives that board back |
| Mapper.MatrixPieces | aiServer/aiserver.py:70-85 | a tile holds a piece exactly when the matrix has 'O' or 'X' at its coordinate, coloured by that symbol |
| Mapper.HopFault | aiServer/aiserver.py:132-165 | a hop has no fault exactly when both tiles exist, the origin holds a piece, the destination is empty and is a valid move |
| Mapper.HopsFromAccepts | aiServer/aiserver.py:131-167 | the rest of a sequence is accepted exactly when none of its hops has a fault |
| Mapper.TwoAccepted | aiServer/aiserver.py:145-167 | a two-coordinate sequence is accepted exactly when it is one valid move of a piece |
| Mapper.LongRejected | aiServer/aiserver.py:132-158 | every sequence of three or more coordinates is rejected, because the second hop starts on the tile the first needed empty |
| Mapper.HeuristicMirror | aiServer/aiserver.py:101-107 | player1's heuristic is player2's with the hop reversed |
| Mapper.HeuristicForward | aiServer/aiserver.py:101-107 | a path whose every hop passes the heuristic ends on a row no further back than where it starts |
| Mapper.Coords | aiServer/aiserver.py:117-122 | a board path gets one coordinate per tile, in order |
| Mapper.CoordsRoundTrip | aiServer/aiserver.py:117-122 | each coordinate of a board path leads back to its tile |
| Mapper.AiPath | aiServer/aiserver.py:89-111 | the AI's path is empty or a walkable path from one of its own pieces, every hop passing the heuristic when it is on |
| Mapper.AiMoveForward | aiServer/aiserver.py:101-124 | with the heuristic on, the coordinates returned are one per tile and the move never goes backwards for the side moving |
| Mapper.CandidatePasses | aiServer/Players.py:56-66 | every hop of a candidate passes the heuristic it was built with |
| Mapper.BoardMapper.constructor | aiServer/aiserver.py:43-48 | a fresh board in its initial placement with both dictionaries filled |
| Mapper.BoardMapper.InitMappings | aiServer/aiserver.py:50-60 | every tile is entered under its (column, row) coordinate in both dictionaries; other entries stay |
| Mapper.BoardMapper.InitRow | aiServer/aiserver.py:55-60 | the inner loop enters exactly the tiles of one more row |
| Mapper.BoardMapper.GetTileAtCoord | aiServer/aiserver.py:62-64 | the tile at the coordinate, None off the board |
| Mapper.BoardMapper.GetCoordOfTile | aiServer/aiserver.py:66-68 | a coordinate exactly for a board tile, and that coordinate leads back to the tile |
| Mapper.BoardMapper.UpdateBoardFromMatrix | aiServer/aiserver.py:70-85 | the board afterwards is exactly what the matrix says, every other tile empty |
| Mapper.BoardMapper.PlaceRow | aiServer/aiserver.py:78-85 | one matrix row placed: the tiles visited so far hold what the matrix says |
| Mapper.BoardMapper.ValidateMoveSequence | aiServer/aiserver.py:126-167 | the verdict is too-short or the first faulty hop, and True is returned exactly on acceptance |
| Mapper.BoardMapper.CoordPath | aiServer/aiserver.py:117-122 | the loop turns the tile path into its coordinates |
| Mapper.BoardMapper.GetAiMoveSequence | aiServer/aiserver.py:89-124 | the board is left as it was. For a depth of 0 or more, the result is the coordinates of the AI's path. For a negative depth, [] when the game has ended or the side to move has no candidate, and None otherwise |
| BoardText.Words | aiServer/BoardStateParser.py:22 | split() gives the maximal runs of non-blank characters, each non-empty |
| BoardText.WordsUnwords | aiServer/BoardStateParser.py:22 | splitting space-joined cells gives the cells back, one token each |
| BoardText.Symbol | aiServer/BoardStateParser.py:25-33 | only the one-character tokens O, X, ., G, R are kept, with G read as O and R as X |
| BoardText.Symbols | aiServer/BoardStateParser.py:25-33 | the kept cells are all 'O', 'X' or '.' |
| BoardText.SymbolsOfCells | aiServer/BoardStateParser.py:25-33 | tokens that are already cells are kept unchanged |
| BoardText.Fit | aiServer/BoardStateParser.py:36-41 | a row is cut, or padded with '.' on the right, to exactly the row width |
| BoardText.BoardLinesMembers | aiServer/BoardStateParser.py:49 | a line is kept exactly when it holds one of the five board characters |
| BoardText.FilteredAt | aiServer/BoardStateParser.py:52-80 | row i is the i-th kept line fitted to its width, or dots once the kept lines run out |
| BoardText.CollectCells | aiServer/BoardStateParser.py:25-33 | the token loop collects the specified cells |
| BoardText.PadRow | aiServer/BoardStateParser.py:36-41 | the padding loop gives the fitted row |
| BoardText.ExtendOrTrim | aiServer/BoardStateParser.py:70-73 | extending or trimming gives the fitted row |
| BoardText.NormalizeBoardState | aiServer/BoardStateParser.py:1-82 | the method returns the specified normalised matrix |
| BoardText.NormalizeRowForRow | aiServer/BoardStateParser.py:19-43 | the seventeen-line branch, as specified |
| BoardText.NormalizeFiltered | aiServer/BoardStateParser.py:44-80 | the other branch, as specified |
| BoardText.TopUp | aiServer/BoardStateParser.py:78-80 | rows of dots are appended until there are seventeen |
| BoardText.SeventeenRows | aiServer/BoardStateParser.py:16-43 | seventeen lines give seventeen rows, row i of exactly the star's row size |
| BoardText.OtherLineCounts | aiServer/BoardStateParser.py:49-80 | otherwise: max(17, kept) rows, row i of its width (one cell past the sixteenth), dots after the kept rows |
| BoardText.CellsAreCells | aiServer/BoardStateParser.py:1-82 | every output cell is 'O', 'X' or '.', whatever the input |
| BoardText.RowRoundTrip | aiServer/BoardStateParser.py:22-41 | a row of cells, written out and read back, is itself |
| BoardText.Idempotent | aiServer/BoardStateParser.py:1-82 | normalising the written-out result again changes nothing |
| AndroidBoard.OnBoard | app/src/main/java/hku/cs/fyp24057/chinesecheckerrobot/BoardState.java:33-43 | the index of every valid position is below 121, so the range checks never reject one |
| AndroidBoard.Count | app/src/main/java/hku/cs/fyp24057/chinesecheckerrobot/BoardState.java:92-98 | the count is at most the number of holes, and 0 exactly when every hole is EMPTY |
| AndroidBoard.GetAfterSet | app/src/main/java/hku/cs/fyp24057/chinesecheckerrobot/BoardState.java:33-43 | reading after writing gives the written value at that position and the old content elsewhere |
| AndroidBoard.SetOutsideIgnored | app/src/main/java/hku/cs/fyp24057/chinesecheckerrobot/BoardState.java:33-38 | writing off the star changes nothing |
| AndroidBoard.CountAfterSet | app/src/main/java/hku/cs/fyp24057/chinesecheckerrobot/BoardState.java:33-38 | filling an empty hole adds one piece, emptying a full one removes one |
| AndroidBoard.Glyph | app/src/main/java/hku/cs/fyp24057/chinesecheckerrobot/BoardState.java:69-78 | every value is drawn with a visible character |
| AndroidBoard.GlyphsDistinct | app/src/main/java/hku/cs/fyp24057/chinesecheckerrobot/BoardState.java:69-78 | the seven colours have seven different characters, none of them the one for unknown values |
| AndroidBoard.PictureMarks | app/src/main/java/hku/cs/fyp24057/chinesecheckerrobot/BoardState.java:59-84 | without blanks and line breaks, the first r lines are the glyphs of the holes of rows 0..r-1, in flat order |
| AndroidBoard.WholePicture | app/src/main/java/hku/cs/fyp24057/chinesecheckerrobot/BoardState.java:59-84 | the picture shows every one of the 121 holes exactly once, in flat-index order |
| AndroidBoard.BoardState.constructor | app/src/main/java/hku/cs/fyp24057/chinesecheckerrobot/BoardState.java:24-27 | 121 holes, all EMPTY |
| AndroidBoard.BoardState.ResetBoard | app/src/main/java/hku/cs/fyp24057/chinesecheckerrobot/BoardState.java:29-31 | every hole EMPTY |
| AndroidBoard.BoardState.GetIndex | app/src/main/java/hku/cs/fyp24057/chinesecheckerrobot/BoardState.java:45-56 | the sum of the row lengths above plus the column for a valid position, -1 otherwise |
| AndroidBoard.BoardState.SetPosition | app/src/main/java/hku/cs/fyp24057/chinesecheckerrobot/BoardState.java:33-38 | the board afterwards is the specified write: only the addressed hole changes |
| AndroidBoard.BoardState.GetPosition | app/src/main/java/hku/cs/fyp24057/chinesecheckerrobot/BoardState.java:40-43 | the content of the hole, EMPTY off the star |
| AndroidBoard.BoardState.IsValidPosition | app/src/main/java/hku/cs/fyp24057/chinesecheckerrobot/BoardState.java:87-89 | true exactly for the positions of the star |
| AndroidBoard.BoardState.GetPieceCount | app/src/main/java/hku/cs/fyp24057/chinesecheckerrobot/BoardState.java:92-98 | the number of holes that are not EMPTY |
| AndroidBoard.BoardState.ToString | app/src/main/java/hku/cs/fyp24057/chinesecheckerrobot/BoardState.java:59-84 | the loops build the specified picture |
| AndroidBoard.BoardState.DrawRow | app/src/main/java/hku/cs/fyp24057/chinesecheckerrobot/BoardState.java:68-80 | one row's holes, each drawn as its glyph and a blank |
| IpValidation.SplitAll | app/src/main/java/hku/cs/fyp24057/chinesecheckerrobot/IpConfigDialog.java:62 | one piece per dot plus one, none containing a dot |
| IpValidation.JoinSplitAll | app/src/main/java/hku/cs/fyp24057/chinesecheckerrobot/IpConfigDialog.java:62 | joining the pieces with dots gives the text back |
| IpValidation.DropTrailingEmpty | app/src/main/java/hku/cs/fyp24057/chinesecheckerrobot/IpConfigDialog.java:62 | the parts with exactly the empty pieces at the end removed |
| IpValidation.JavaSplit | app/src/main/java/hku/cs/fyp24057/chinesecheckerrobot/IpConfigDialog.java:62 | no part contains a dot |
| IpValidation.ParseInt | app/src/main/java/hku/cs/fyp24057/chinesecheckerrobot/IpConfigDialog.java:67 | a value only for a signed numeral in the 32-bit range; a digit string in range reads as its value |
| IpValidation.ParseDecimal | app/src/main/java/hku/cs/fyp24057/chinesecheckerrobot/IpConfigDialog.java:67 | parseInt reads back what the decimal writer writes |
| IpValidation.IsValidIp | app/src/main/java/hku/cs/fyp24057/chinesecheckerrobot/IpConfigDialog.java:60-74 | false for null or empty text; true only with four parts each an integer in [0, 255] |
| IpValidation.IsValidIpAddress | app/src/main/java/hku/cs/fyp24057/chinesecheckerrobot/RobotControlFragment.java:157-170 | true exactly when there are four parts each an integer in [0, 255] |
| IpValidation.ValidatorsAgree | app/src/main/java/hku/cs/fyp24057/chinesecheckerrobot/RobotControlFragment.java:157-170 | the two validators agree on every non-null string |
| IpValidation.SplitFour | app/src/main/java/hku/cs/fyp24057/chinesecheckerrobot/IpConfigDialog.java:62-63 | four non-empty dot-free pieces joined by dots split back into those four |
| IpValidation.DottedAccepted | app/src/main/java/hku/cs/fyp24057/chinesecheckerrobot/IpConfigDialog.java:60-74 | every address written the usual way with octets in [0, 255] is accepted |
| IpValidation.AcceptedForm | app/src/main/java/hku/cs/fyp24057/chinesecheckerrobot/IpConfigDialog.java:62-63 | an accepted address is its four parts joined by dots, followed by any number of extra dots |
| IpValidation.DoubleDotRejected | app/src/main/java/hku/cs/fyp24057/chinesecheckerrobot/IpConfigDialog.java:65-72 | two dots in a row followed later by a non-dot leave an empty part, which parseInt rejects |
| IpValidation.TrailingDotAccepted | app/src/main/java/hku/cs/fyp24057/chinesecheckerrobot/IpConfigDialog.java:62 | a dot added after an accepted address is accepted too |
| IpValidation.SignedPartAccepted | app/src/main/java/hku/cs/fyp24057/chinesecheckerrobot/IpConfigDialog.java:66-67 | a part with a leading '+' or '-' parses, as Integer.parseInt allows |
| Detection.SortYX | detection_script/detection_no_trackbars.py:283 | the result is ordered by (y, x) and is a permutation of the input |
| Detection.SortX | detection_script/detection_no_trackbars.py:306-308 | the result is ordered by x and is a permutation of the input |
| Detection.SortXOfSortedYX | detection_script/detection_no_trackbars.py:306-308 | since the sort is stable, a (y, x)-sorted run sorted by x is ordered by (x, y) |
| Detection.Rows | detection_script/detection_no_trackbars.py:285-304 | the runs concatenate back to the sorted list, and the first run starts with its first cell |
| Detection.RowsAreSplit | detection_script/detection_no_trackbars.py:289-304 | the runs are non-empty and maximal: y-gaps within a run are at most the threshold, between runs above it |
| Detection.SplitIsRows | detection_script/detection_no_trackbars.py:289-304 | any such split is the one the loop computes, so the runs are determined by the list and threshold |
| Detection.RowsBanded | detection_script/detection_no_trackbars.py:283-304 | on a (y, x)-sorted list the runs are horizontal bands more than the threshold apart |
| Detection.SortRows | detection_script/detection_no_trackbars.py:306-308 | each run is replaced by its x-sorted version |
| Detection.GroupedIsPermutation | detection_script/detection_no_trackbars.py:268-315 | the result is the input reordered: nothing lost, added or duplicated |
| Detection.GroupedRuns | detection_script/detection_no_trackbars.py:268-315 | the result is the maximal threshold runs of the (y, x)-sorted cells, bands apart, each written out by (x, y) |
| Detection.CutRuns | detection_script/detection_no_trackbars.py:285-304 | the walk over the sorted cells builds the specified runs |
| Detection.SortEachRun | detection_script/detection_no_trackbars.py:306-308 | each run sorted by x, in place |
| Detection.Concatenate | detection_script/detection_no_trackbars.py:310-313 | the runs extended one after the other |
| Detection.GroupCellsByRow | detection_script/detection_no_trackbars.py:268-315 | the method returns the specified grouping |
| Detection.FillRow | detection_script/detection_no_trackbars.py:333-341 | one row of the given size, continuing the row-major fill with None once the cells run out |
| Detection.DealRows | detection_script/detection_no_trackbars.py:329-341 | the rows have the layout's lengths and, read row by row, are the grouped cells followed by None |
| Detection.AssignCellsToLayout | detection_script/detection_no_trackbars.py:317-345 | the rows have the layout's lengths and hold the cells grouped with threshold 10 in row-major order, then None |
| Detection.BoardLayoutSlots | detection_script/detection_no_trackbars.py:248-266 | with the board layout, the slot at row r, column c holds the grouped cell at that slot's flat board index, or None |
| Detection.HypotBelow | detection_script/detection_no_trackbars.py:361-374 | a hypot distance is below the threshold exactly when its integer square is below the threshold squared |
| Detection.ArgOrder | detection_script/detection_no_trackbars.py:364 | every index once, nearest first |
| Detection.FirstFit | detection_script/detection_no_trackbars.py:367-385 | the scan stops at the first sorted position whose hole is free and near enough, or finds none |
| Detection.Choose | detection_script/detection_no_trackbars.py:366-391 | a chosen hole exists and is not yet taken |
| Detection.ChooseNearest | detection_script/detection_no_trackbars.py:359-391 | a marble goes to the nearest free hole when that hole is near enough, and to none otherwise |
| Detection.PlaceInvariant | detection_script/detection_no_trackbars.py:356-376 | every hole is a key; the taken holes are exactly those with a colour; no more of them than marbles |
| Detection.PlaceKeeps | detection_script/detection_no_trackbars.py:371-376 | a hole once given a marble keeps that marble's colour: no hole gets two marbles |
| Detection.MarbleStep | detection_script/detection_no_trackbars.py:359-391 | marble k either changes nothing or takes the nearest free hole with its colour |
| Detection.AssignMarblesOutcome | detection_script/detection_no_trackbars.py:356-393 | the unbound-name error exactly for no holes and some marble; otherwise every hole is a key |
| Detection.ScanForHole | detection_script/detection_no_trackbars.py:367-391 | the loop over sorted indices finds the specified hole |
| Detection.AssignMarblesToCells | detection_script/detection_no_trackbars.py:350-393 | the method returns the specified assignment |
| Detection.Glyph | detection_script/detection_no_trackbars.py:519-534 | 'X' exactly for no hole, '.' for an empty hole, 'G' for green, 'R' for red, '?' for anything else |
| Detection.PrintTextBoard | detection_script/detection_no_trackbars.py:514-538 | one line per layout row, its characters joined by single blanks |
| Detection.RowTextParsed | detection_script/detection_no_trackbars.py:519-536 | the server's parser reads a written row place for place: green as 'O', red as 'X', empty as '.', and no hole also as 'X' |

## Left out

- Console I/O and logging: the prints in `Player_Computer.get_move`, `logging` calls, `print_board`/`to_string` (`Tile.__str__` is not part of this model), and the file writes in `assign_cells_to_layout` and `print_text_board`. `PrintTextBoard` returns the lines instead.
- The Flask routes and debug files of `aiServer/aiserver.py` (lines 169-487), the detection server, and all OpenCV image processing. These are network, file and foreign-library code.
- Floating point:
  - hole centres and marble positions are integers, as the scripts round them;
  - the hypot comparison is done on squared integer distances (`Detection.HypotBelow` shows the two agree);
  - the 16-bit `np.int16` of hole centres is not modelled.
- `Tile.py` and `Piece.py` are not part of this model:
  - piece objects, `generate_pieces`, `get_player1_pieces`/`get_player2_pieces` and `get_tile` become occupancy values;
  - the initial tile score is a constructor parameter;
  - `Tile` objects are assumed truthy in `while any(pending_of_exploring)`.
- `can_player1_move`/`can_player2_move` (`aiServer/Board.py:119-124`): nothing in the core calls them.
- Shadowed code is left out: the earlier `apply_path`/`undo_path` (`aiServer/Board.py:508-532`), the commented-out jump search (410-460) and the class-level `find_jumps` (568-600).
- The generators are lazy in Python. Their callers drain them completely, so the model computes the whole sequence.
- Robot control, camera and other UI code of the Android app.
- GameBoard.Score2Mirror: the mirror is stated for the corrected player1 table only. The table the program builds mirrors player2's only on the even-numbered rows and on row 1 (`GameBoard.Score2AsWrittenMirror`).
- Players.MinimaxPruning: takes a `nat` depth. A negative depth never meets `depth == 0` (`aiServer/Players.py:44`), so the recursion has no depth bound. A call returns at once only where the game has ended (44-46) or the side to move has no candidate (83-86 and 120-123). Otherwise the search recurses until each line reaches such a position or Python's recursion limit raises RecursionError. The method, `Minimax.Search` and `Minimax.Unpruned` are defined on the depths where the recursion is bounded.
- Players.ComputerPlayer.GetMove: a negative depth is accepted from the request at `aiServer/aiserver.py:272` and passed on at 97. It gives `Some([])` when the game has ended or the side to move has no candidate, because minimax_pruning then returns at once with an empty path. Otherwise it gives `None`. The model does not follow the recursion without a depth bound that the source starts there. That recursion ends in RecursionError, or in a move only if every line of play reaches a finished game or a side without candidates.
- Mapper.BoardMapper.GetAiMoveSequence: for a negative depth, returns `[]` in the two cases where `Players.ComputerPlayer.GetMove` gives `Some([])` (`aiServer/aiserver.py:110-111`). It inherits `None` otherwise. There the source usually raises, and the route's handler turns that into an error reply.
- GameBoard.SetScore: the setters of the unseen `Tile` class are assumed to keep the larger score and to report a raise. The propagation's queue depends on that answer.
- GameBoard.Board.PropagateScore: states bounds and the relaxation invariant of the breadth-first propagation (`Propagated`), not the exact final table. `GameBoard.PropagatedAlongWalk` derives the distance bound from it.
- Jumps.JumpPaths: proves every recorded path is a maximal jump chain from the tile. It does not prove that every maximal chain is recorded.
- Moves.ValidLogicalPaths: its jump part inherits the soundness-only statement of `Jumps.JumpPaths`.
- Minimax.RootAgrees: holds when the score tables and the depth keep every score strictly inside the root window. `Minimax.FailSoft` holds without that.
- Detection.ArgOrder: equal distances are taken in index order. `np.argsort`'s default sort does not fix the order of ties, so with two equally near free holes the model's choice is one of the source's possible choices. `Detection.ChooseNearest` holds for every order.
- `detection_script/detection_new_red.py` repeats `group_cells_by_row` (lines 494-541), `assign_cells_to_layout` (543-571), `print_text_board` (573-605) and `assign_marbles_to_cells` (607-650) line for line. Its only difference is a default base threshold of 20, which is a parameter of `Detection.AssignMarblesToCells`. The model's rows cite the `detection_no_trackbars.py` copies.
- IpValidation.ParseInt: accepts ASCII digits only. `Integer.parseInt` also accepts other Unicode decimal digits.
- IpValidation.IsValidIp: a Java `null` is `None`. `IpValidation.IsValidIpAddress` takes a non-null string, since calling it on null would throw.

## Findings

| source | as written | input that shows it | evidently intended | confidence | as-written member | corrected member |
|---|---|---|---|---|---|---|
| aiServer/Board.py:353 | player1's evaluation-2 score on even-length rows uses the literal `1*10` instead of the row factor `i*10` | tile at row 4, column 6 scores 40 but the tile at row 5, column 0, one row nearer player1's goal, scores 5 | `i*10 - abs(int((len(row)-1)/2 - j))`, as on odd rows and in player2's table at line 363 | high, not executed | GameBoard.Score2Player1AsWrittenNotMonotone | GameBoard.Score2Player1Monotone |
| aiServer/Board.py:556-566 | the last `get_all_jump_paths` ends after building `visited`, so an occupied tile gets `None`; `for path in jump_paths` in `minimax_pruning` (Players.py:64, 101) then raises TypeError | any occupied tile, e.g. tile 0 of a fresh board | the jump search of lines 461-506, returning the maximal jump paths | high, not executed | Jumps.GetAllJumpPathsAsWritten | Jumps.JumpPaths |
