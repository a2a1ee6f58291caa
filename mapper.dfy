/**
 * aiServer/aiserver.py, class BoardMapper: the (x, y) coordinates the
 * web client uses for the tiles of the program's Board (x is the place
 * within the row, y the row), the board rebuilt from the client's matrix
 * of characters, the check of a move sequence, and the computer player's
 * move translated back into coordinates.
 */
module Mapper {
  import opened Wrappers
  import opened Topology
  import opened Rules
  import opened Jumps
  import opened Moves
  import opened Paths
  import opened Minimax
  import opened GameBoard
  import opened Players

  /** A client coordinate (x, y). */
  type Coord = (int, int)

  /** DEFAULT_DEPTH, DEFAULT_EVAL_FUNC and USE_HEURISTIC. */
  const DefaultDepth: nat := 4
  const DefaultEvalFunc: int := 1
  const DefaultUseHeuristic: bool := true

  /**
   * The coordinate of tile t, found the way _init_mappings meets it:
   * walking the rows from row r on to the one that holds t.
   */
  function RowWalk(t: nat, r: nat): (xy: Coord)
    requires r < 17 && RowStarts[r] <= t < 121
    decreases 17 - r
  {
    RowStartStep(r);
    if t < RowStarts[r + 1] then (t - RowStarts[r], r) else RowWalk(t, r + 1)
  }

  /** The coordinate of a board tile: its place in its row, and its row (every row offset is 0). */
  function CoordOfTile(t: nat): (xy: Coord)
    requires t < 121
  {
    RowWalk(t, 0)
  }

  lemma {:induction false} RowWalkPlaces(t: nat, r: nat)
    requires r < 17 && RowStarts[r] <= t < 121
    ensures var xy := RowWalk(t, r); ValidPos(xy.1, xy.0) && FlatIndex(xy.1, xy.0) == t
    decreases 17 - r
  {
    RowStartStep(r);
    if t >= RowStarts[r + 1] {
      RowWalkPlaces(t, r + 1);
    }
  }

  /** The coordinate of a tile is a valid position that flattens back to the tile. */
  lemma CoordOfTilePlaces(t: nat)
    requires t < 121
    ensures var xy := CoordOfTile(t); ValidPos(xy.1, xy.0) && FlatIndex(xy.1, xy.0) == t
  {
    RowWalkPlaces(t, 0);
  }

  /** The y of a tile's coordinate is the tile's row (get_row_index). */
  lemma CoordOfTileRow(t: nat)
    requires t < 121
    ensures CoordOfTile(t).1 == RowOf(t)
  {
    CoordOfTilePlaces(t);
    var xy := CoordOfTile(t);
    FlatIndexInverse(xy.1, xy.0);
  }

  /** The tile at a valid position has that position as its coordinate. */
  lemma CoordOfFlat(r: int, c: int)
    requires ValidPos(r, c)
    ensures CoordOfTile(FlatIndex(r, c)) == (c, r)
  {
    var t := FlatIndex(r, c);
    CoordOfTilePlaces(t);
    var xy := CoordOfTile(t);
    FlatIndexInverse(r, c);
    FlatIndexInverse(xy.1, xy.0);
  }

  lemma FlatIndexBelow(r: int, c: int)
    requires ValidPos(r, c)
    ensures FlatIndex(r, c) < 121
  {
    assert RowStarts[r + 1] <= 121;
  }

  lemma RowBound(r: nat)
    requires r < 17
    ensures RowStarts[r] + RowSizes[r] == RowStarts[r + 1] <= 121
  {
    RowStartStep(r);
  }

  /** Only the tile at (x, y) has (x, y) as its coordinate. */
  lemma CoordOfTileOnly(x: int, y: int)
    ensures forall t | t < 121 && CoordOfTile(t) == (x, y) :: ValidPos(y, x) && t == FlatIndex(y, x)
  {
    forall t | t < 121 && CoordOfTile(t) == (x, y)
      ensures ValidPos(y, x) && t == FlatIndex(y, x)
    {
      CoordOfTilePlaces(t);
    }
  }

  /** The tile at a coordinate, if the board has one there. */
  function TileAt(x: int, y: int): (t: Option<nat>)
    ensures t.Some? <==> ValidPos(y, x)
    ensures t.Some? ==> t.value < 121
  {
    if ValidPos(y, x) then Some(FlatIndex(y, x)) else None
  }

  // ---------------------------------------------------------------------
  // The two dictionaries of _init_mappings
  // ---------------------------------------------------------------------

  /** coord_to_tile once the first n tiles of board_row_tiles, row by row, were entered. */
  function TileTable(n: nat): (m: map<Coord, nat>)
    requires n <= 121
  {
    if n == 0 then map[] else TileTable(n - 1)[CoordOfTile(n - 1) := n - 1]
  }

  /** tile_to_coord once the first n tiles were entered. */
  function CoordTable(n: nat): (m: map<nat, Coord>)
    requires n <= 121
  {
    if n == 0 then map[] else CoordTable(n - 1)[n - 1 := CoordOfTile(n - 1)]
  }

  /** coord_to_tile holds exactly the coordinates of the tiles entered, each mapped to its tile. */
  lemma {:induction false} TileTableExact(n: nat)
    requires n <= 121
    ensures forall xy: Coord {:trigger xy in TileTable(n)} :: xy in TileTable(n) <==> ValidPos(xy.1, xy.0) && FlatIndex(xy.1, xy.0) < n
    ensures forall xy: Coord {:trigger TileTable(n)[xy]} | xy in TileTable(n) :: TileTable(n)[xy] == FlatIndex(xy.1, xy.0)
  {
    if n > 0 {
      TileTableExact(n - 1);
      CoordOfTilePlaces(n - 1);
      forall xy: Coord | ValidPos(xy.1, xy.0) && FlatIndex(xy.1, xy.0) == n - 1
        ensures xy == CoordOfTile(n - 1)
      {
        CoordOfFlat(xy.1, xy.0);
      }
    }
  }

  /** tile_to_coord holds exactly the tiles entered, each mapped to its coordinate. */
  lemma {:induction false} CoordTableExact(n: nat)
    requires n <= 121
    ensures forall t: nat :: t in CoordTable(n) <==> t < n
    ensures forall t: nat {:trigger CoordTable(n)[t]} | t in CoordTable(n) :: CoordTable(n)[t] == CoordOfTile(t)
  {
    if n > 0 {
      CoordTableExact(n - 1);
    }
  }

  /** Entering the tile at row r, place c, under the coordinate (c, r). */
  lemma TablesStep(r: int, c: int)
    requires ValidPos(r, c)
    ensures FlatIndex(r, c) < 121
    ensures TileTable(FlatIndex(r, c) + 1) == TileTable(FlatIndex(r, c))[(c, r) := FlatIndex(r, c)]
    ensures CoordTable(FlatIndex(r, c) + 1) == CoordTable(FlatIndex(r, c))[FlatIndex(r, c) := (c, r)]
  {
    CoordOfFlat(r, c);
  }

  lemma UnionUpdate<K, V>(a: map<K, V>, b: map<K, V>, k: K, v: V)
    ensures (a + b)[k := v] == a + b[k := v]
  {
  }

  /** coord_to_tile once filled: exactly the coordinates of the board's tiles, each mapped to its tile. */
  ghost predicate CoordIndex(m: map<Coord, nat>)
  {
    (forall xy: Coord {:trigger xy in m} :: xy in m <==> ValidPos(xy.1, xy.0))
    && forall xy: Coord {:trigger m[xy]} | xy in m :: m[xy] == FlatIndex(xy.1, xy.0)
  }

  /** tile_to_coord once filled: exactly the board's tiles, each mapped to its coordinate. */
  ghost predicate TileIndex(m: map<nat, Coord>)
  {
    (forall t: nat :: t in m <==> t < 121)
    && forall t: nat {:trigger m[t]} | t in m :: m[t] == CoordOfTile(t)
  }

  /** The dictionaries of _init_mappings, once every tile was entered over what they held before. */
  lemma UnionTables(c0: map<Coord, nat>, t0: map<nat, Coord>, n: nat)
    requires n == 121
    ensures forall xy: Coord {:trigger xy in c0 + TileTable(n)} :: xy in c0 + TileTable(n) <==> xy in c0 || ValidPos(xy.1, xy.0)
    ensures forall xy: Coord {:trigger (c0 + TileTable(n))[xy]} | ValidPos(xy.1, xy.0) :: (c0 + TileTable(n))[xy] == FlatIndex(xy.1, xy.0)
    ensures forall xy: Coord {:trigger (c0 + TileTable(n))[xy]} | xy in c0 && !ValidPos(xy.1, xy.0) :: (c0 + TileTable(n))[xy] == c0[xy]
    ensures forall t: nat :: t in t0 + CoordTable(n) <==> t in t0 || t < 121
    ensures forall t: nat {:trigger (t0 + CoordTable(n))[t]} | t < 121 :: (t0 + CoordTable(n))[t] == CoordOfTile(t)
    ensures forall t: nat {:trigger (t0 + CoordTable(n))[t]} | t in t0 && t >= 121 :: (t0 + CoordTable(n))[t] == t0[t]
  {
    TileTableExact(n);
    CoordTableExact(n);
    forall xy: Coord | ValidPos(xy.1, xy.0)
      ensures FlatIndex(xy.1, xy.0) < n
    {
      FlatIndexBelow(xy.1, xy.0);
    }
  }

  /** The two dictionaries are inverse to each other, both ways round. */
  lemma TablesInverse(toTile: map<Coord, nat>, toCoord: map<nat, Coord>)
    requires CoordIndex(toTile) && TileIndex(toCoord)
    ensures forall t {:trigger toCoord[t]} | t in toCoord :: toCoord[t] in toTile && toTile[toCoord[t]] == t
    ensures forall xy {:trigger toTile[xy]} | xy in toTile :: toTile[xy] in toCoord && toCoord[toTile[xy]] == xy
  {
    forall xy | xy in toTile
      ensures toTile[xy] in toCoord && toCoord[toTile[xy]] == xy
    {
      FlatIndexBelow(xy.1, xy.0);
      CoordOfFlat(xy.1, xy.0);
    }
    forall t | t in toCoord
      ensures toCoord[t] in toTile && toTile[toCoord[t]] == t
    {
      CoordOfTilePlaces(t);
    }
  }

  // ---------------------------------------------------------------------
  // The client's matrix
  // ---------------------------------------------------------------------

  /** The piece a matrix character stands for: 'O' player1, 'X' player2, anything else none. */
  function PieceOf(c: char): (o: Occ)
    ensures o == P1 <==> c == 'O'
    ensures o == P2 <==> c == 'X'
  {
    if c == 'O' then P1 else if c == 'X' then P2 else Empty
  }

  /** What the matrix puts at (x, y): nothing when the coordinate is outside the matrix. */
  function MatrixCell(matrix: seq<seq<char>>, x: int, y: int): (o: Occ)
    ensures o != Empty ==> 0 <= y < |matrix| && 0 <= x < |matrix[y]| && o == PieceOf(matrix[y][x])
  {
    if 0 <= y < |matrix| && 0 <= x < |matrix[y]| then PieceOf(matrix[y][x]) else Empty
  }

  /** The occupancy update_board_from_matrix leaves: each tile holds what the matrix puts at its coordinate. */
  function MatrixOcc(matrix: seq<seq<char>>): (occ: Occupancy)
  {
    seq(121, t requires 0 <= t < 121 => var xy := CoordOfTile(t); MatrixCell(matrix, xy.0, xy.1))
  }

  /** Tile t comes before place x of row y in the order update_board_from_matrix visits the matrix. */
  predicate Before(t: nat, y: int, x: int)
    requires t < 121
  {
    var xy := CoordOfTile(t);
    xy.1 < y || (xy.1 == y && xy.0 < x)
  }

  /** The tiles visited so far (before place x of row y) hold what the matrix says, the others nothing. */
  ghost predicate Filled(cells: seq<Occ>, matrix: seq<seq<char>>, y: int, x: int)
  {
    |cells| == 121 && forall t {:trigger cells[t]} | 0 <= t < 121 :: cells[t] == if Before(t, y, x) then MatrixOcc(matrix)[t] else Empty
  }

  lemma FilledAtStart(cells: seq<Occ>, matrix: seq<seq<char>>)
    requires |cells| == 121 && forall t | 0 <= t < 121 :: cells[t] == Empty
    ensures Filled(cells, matrix, 0, 0)
  {
    forall t | 0 <= t < 121
      ensures !Before(t, 0, 0)
    {
      CoordOfTilePlaces(t);
    }
  }

  /** Visiting place x of row y: a piece character there lands on the tile at (x, y), if any. */
  lemma PlaceStep(cells: seq<Occ>, matrix: seq<seq<char>>, y: nat, x: nat)
    requires Filled(cells, matrix, y, x) && y < |matrix| && x < |matrix[y]|
    ensures var c := matrix[y][x];
            Filled(if (c == 'O' || c == 'X') && ValidPos(y, x) then cells[FlatIndex(y, x) := PieceOf(c)] else cells, matrix, y, x + 1)
  {
    var c := matrix[y][x];
    var cells' := if (c == 'O' || c == 'X') && ValidPos(y, x) then cells[FlatIndex(y, x) := PieceOf(c)] else cells;
    forall t | 0 <= t < 121
      ensures cells'[t] == if Before(t, y, x + 1) then MatrixOcc(matrix)[t] else Empty
    {
      var xy := CoordOfTile(t);
      CoordOfTilePlaces(t);
      if xy == (x, y) {
        assert t == FlatIndex(y, x);
      } else if ValidPos(y, x) {
        CoordOfFlat(y, x);
        assert t != FlatIndex(y, x);
      }
    }
  }

  /** Past the end of row y of the matrix, the rest of the board's row y stays empty. */
  lemma RowFilled(cells: seq<Occ>, matrix: seq<seq<char>>, y: nat)
    requires y < |matrix| && Filled(cells, matrix, y, |matrix[y]|)
    ensures Filled(cells, matrix, y + 1, 0)
  {
  }

  /** Past the last row of the matrix, the rest of the board stays empty. */
  lemma FilledAtEnd(cells: seq<Occ>, matrix: seq<seq<char>>)
    requires Filled(cells, matrix, |matrix|, 0)
    ensures cells == MatrixOcc(matrix)
  {
    forall t | 0 <= t < 121
      ensures cells[t] == MatrixOcc(matrix)[t]
    {
    }
  }

  /** The character a tile is drawn with in the client's matrix. */
  function CellChar(o: Occ): (c: char)
    ensures PieceOf(c) == o
  {
    match o
    case Empty => '.'
    case P1 => 'O'
    case P2 => 'X'
  }

  /** The client's matrix of a board: seventeen rows of RowSizes characters. */
  function OccMatrix(occ: Occupancy): (matrix: seq<seq<char>>)
    ensures |matrix| == 17 && forall r | 0 <= r < 17 :: |matrix[r]| == RowSizes[r]
  {
    seq(17, r requires 0 <= r < 17 => seq(RowSizes[r], c requires 0 <= c < RowSizes[r] => CellChar(occ[FlatIndex(r, c)])))
  }

  /** Reading back the matrix of a board gives that board. */
  lemma MatrixRoundTrip(occ: Occupancy)
    ensures MatrixOcc(OccMatrix(occ)) == occ
  {
    var m := OccMatrix(occ);
    forall t | 0 <= t < 121
      ensures MatrixOcc(m)[t] == occ[t]
    {
      CoordOfTilePlaces(t);
      var xy := CoordOfTile(t);
      assert m[xy.1][xy.0] == CellChar(occ[FlatIndex(xy.1, xy.0)]);
    }
  }

  /** A tile holds a piece exactly when the matrix has 'O' or 'X' at its coordinate. */
  lemma MatrixPieces(matrix: seq<seq<char>>, x: int, y: int)
    requires ValidPos(y, x)
    ensures var o := MatrixOcc(matrix)[FlatIndex(y, x)];
            (o == P1 <==> y < |matrix| && x < |matrix[y]| && matrix[y][x] == 'O')
            && (o == P2 <==> y < |matrix| && x < |matrix[y]| && matrix[y][x] == 'X')
  {
    CoordOfFlat(y, x);
  }

  // ---------------------------------------------------------------------
  // validate_move_sequence
  // ---------------------------------------------------------------------

  /** The outcome of validate_move_sequence; each rejection names the coordinates its message shows. */
  datatype Verdict =
    | Accepted
    | TooShort
    | TileNotFound(origin: Coord, dest: Coord)
    | NoPieceAtOrigin(origin: Coord)
    | DestinationNotEmpty(dest: Coord)
    | CannotMove(origin: Coord, dest: Coord)

  /** What is wrong with the hop from a to b on the board, if anything. */
  function HopFault(adj: Adjacency, occ: Occupancy, a: Coord, b: Coord): (f: Option<Verdict>)
    requires WellFormed(adj)
    ensures f.Some? ==> f.value != Accepted && f.value != TooShort
    ensures f.None? <==> ValidPos(a.1, a.0) && ValidPos(b.1, b.0) && occ[FlatIndex(a.1, a.0)] != Empty
                         && FlatIndex(b.1, b.0) in ValidMoves(adj, occ, FlatIndex(a.1, a.0))
  {
    var o := TileAt(a.0, a.1);
    var d := TileAt(b.0, b.1);
    if o.None? || d.None? then Some(TileNotFound(a, b))
    else if occ[o.value] == Empty then Some(NoPieceAtOrigin(a))
    else if occ[d.value] != Empty then
      ValidMovesLand(adj, occ, o.value);
      Some(DestinationNotEmpty(b))
    else if d.value !in ValidMoves(adj, occ, o.value) then Some(CannotMove(a, b))
    else None
  }

  /** The verdict on the hops from path[i] on: the first fault, or Accepted. */
  function HopsFrom(adj: Adjacency, occ: Occupancy, path: seq<Coord>, i: nat): (v: Verdict)
    requires WellFormed(adj) && i < |path|
    decreases |path| - i
  {
    if i == |path| - 1 then Accepted
    else match HopFault(adj, occ, path[i], path[i + 1])
      case Some(f) => f
      case None => HopsFrom(adj, occ, path, i + 1)
  }

  /** The verdict on a whole sequence: too short below two coordinates, else the first faulty hop. */
  function Validate(adj: Adjacency, occ: Occupancy, path: seq<Coord>): (v: Verdict)
    requires WellFormed(adj)
  {
    if |path| < 2 then TooShort else HopsFrom(adj, occ, path, 0)
  }

  /** Every hop from path[i] on is a valid move on the board exactly when HopsFrom accepts. */
  lemma {:induction false} HopsFromAccepts(adj: Adjacency, occ: Occupancy, path: seq<Coord>, i: nat)
    requires WellFormed(adj) && i < |path|
    ensures HopsFrom(adj, occ, path, i) == Accepted <==> forall k | i <= k < |path| - 1 :: HopFault(adj, occ, path[k], path[k + 1]).None?
    decreases |path| - i
  {
    if i < |path| - 1 {
      HopsFromAccepts(adj, occ, path, i + 1);
    }
  }

  /** A sequence of two coordinates is accepted exactly when it is one valid move of a piece. */
  lemma TwoAccepted(adj: Adjacency, occ: Occupancy, a: Coord, b: Coord)
    requires WellFormed(adj)
    ensures Validate(adj, occ, [a, b]) == Accepted <==>
              ValidPos(a.1, a.0) && ValidPos(b.1, b.0) && occ[FlatIndex(a.1, a.0)] != Empty
              && FlatIndex(b.1, b.0) in ValidMoves(adj, occ, FlatIndex(a.1, a.0))
  {
    HopsFromAccepts(adj, occ, [a, b], 0);
  }

  /**
   * Every sequence of three or more coordinates is rejected: the board is
   * not changed between hops, so the second hop starts on the tile the
   * first hop needed empty.
   */
  lemma LongRejected(adj: Adjacency, occ: Occupancy, path: seq<Coord>)
    requires WellFormed(adj) && |path| >= 3
    ensures Validate(adj, occ, path) != Accepted
  {
    if HopFault(adj, occ, path[0], path[1]).None? {
      var o := FlatIndex(path[0].1, path[0].0);
      var t := FlatIndex(path[1].1, path[1].0);
      ValidMoveLands(adj, occ, o, t);
      assert TileAt(path[1].0, path[1].1) == Some(t);
      assert HopFault(adj, occ, path[1], path[2]).Some?;
      assert Validate(adj, occ, path) == HopsFrom(adj, occ, path, 1);
    }
  }

  // ---------------------------------------------------------------------
  // The heuristic of get_ai_move_sequence
  // ---------------------------------------------------------------------

  /**
   * The heuristic get_ai_move_sequence gives the player: player1 never
   * moves to a lower row index, player2 never to a higher one.
   */
  function RowHeuristic(isPlayer1: bool): (h: (nat, nat) -> bool)
  {
    (o: nat, d: nat) => o < 121 && d < 121 && (if isPlayer1 then RowOf(o) <= RowOf(d) else RowOf(d) <= RowOf(o))
  }

  /** The heuristic of one player is the other's with the hop reversed. */
  lemma HeuristicMirror(o: nat, d: nat)
    ensures RowHeuristic(true)(o, d) == RowHeuristic(false)(d, o)
  {
  }

  /** A path whose every hop the heuristic accepts ends on a row no further back than it started. */
  lemma {:induction false} HeuristicForward(isPlayer1: bool, p: seq<nat>)
    requires |p| >= 2 && HopsPass(p, RowHeuristic(isPlayer1))
    ensures p[0] < 121 && p[|p| - 1] < 121
    ensures isPlayer1 ==> RowOf(p[0]) <= RowOf(p[|p| - 1])
    ensures !isPlayer1 ==> RowOf(p[|p| - 1]) <= RowOf(p[0])
  {
    var h := RowHeuristic(isPlayer1);
    assert h(p[0], p[1]);
    if |p| > 2 {
      var q := p[1..];
      assert HopsPass(q, h) by {
        forall i | 0 <= i < |q| - 1
          ensures h(q[i], q[i + 1])
        {
          assert h(p[i + 1], p[i + 2]);
        }
      }
      HeuristicForward(isPlayer1, q);
    }
  }

  /** The coordinates of a tile path, skipping anything that is not a board tile. */
  function Coords(path: seq<nat>): (coords: seq<Coord>)
    ensures |coords| <= |path|
    ensures OnBoard(path) ==> |coords| == |path| && forall k {:trigger coords[k]} | 0 <= k < |path| :: coords[k] == CoordOfTile(path[k])
  {
    if |path| == 0 then []
    else (if path[0] < 121 then [CoordOfTile(path[0])] else []) + Coords(path[1..])
  }

  lemma {:induction false} CoordsAppend(a: seq<nat>, b: seq<nat>)
    ensures Coords(a + b) == Coords(a) + Coords(b)
  {
    if |a| > 0 {
      assert (a + b)[1..] == a[1..] + b;
      CoordsAppend(a[1..], b);
    } else {
      assert a + b == b;
    }
  }

  lemma CoordsSnoc(path: seq<nat>, k: nat)
    requires k < |path|
    ensures Coords(path[..k + 1]) == Coords(path[..k]) + (if path[k] < 121 then [CoordOfTile(path[k])] else [])
  {
    assert path[..k + 1] == path[..k] + [path[k]];
    CoordsAppend(path[..k], [path[k]]);
    assert [path[k]][1..] == [];
  }

  /** The coordinates of a board path lead back, tile by tile, to the path. */
  lemma CoordsRoundTrip(path: seq<nat>)
    requires OnBoard(path)
    ensures forall k | 0 <= k < |path| :: TileAt(Coords(path)[k].0, Coords(path)[k].1) == Some(path[k])
  {
    forall k | 0 <= k < |path|
      ensures TileAt(Coords(path)[k].0, Coords(path)[k].1) == Some(path[k])
    {
      CoordOfTilePlaces(path[k]);
    }
  }

  // ---------------------------------------------------------------------
  // BoardMapper
  // ---------------------------------------------------------------------

  class BoardMapper {
    const board: Board
    var coordToTile: map<Coord, nat>
    var tileToCoord: map<nat, Coord>

    ghost predicate Valid()
      reads this, board
    {
      board.Valid() && CoordIndex(coordToTile) && TileIndex(tileToCoord)
    }

    /** BoardMapper(): a fresh Board and the two dictionaries filled. */
    constructor(tileScore: int)
      ensures Valid() && fresh(board) && board.cells[..] == InitialOcc()
    {
      board := new Board(tileScore);
      coordToTile := map[];
      tileToCoord := map[];
      new;
      InitMappings();
    }

    /**
     * _init_mappings: every tile of board_row_tiles, row i place j,
     * entered under (j, i) in both dictionaries; entries already there
     * under other keys stay.
     */
    method InitMappings()
      modifies this
      ensures forall xy: Coord {:trigger xy in coordToTile} :: xy in coordToTile <==> xy in old(coordToTile) || ValidPos(xy.1, xy.0)
      ensures forall xy: Coord {:trigger coordToTile[xy]} | ValidPos(xy.1, xy.0) :: coordToTile[xy] == FlatIndex(xy.1, xy.0)
      ensures forall xy: Coord {:trigger coordToTile[xy]} | xy in old(coordToTile) && !ValidPos(xy.1, xy.0) :: coordToTile[xy] == old(coordToTile)[xy]
      ensures forall t: nat :: t in tileToCoord <==> t in old(tileToCoord) || t < 121
      ensures forall t {:trigger tileToCoord[t]} | t < 121 :: tileToCoord[t] == CoordOfTile(t)
      ensures forall t {:trigger tileToCoord[t]} | t in old(tileToCoord) && t >= 121 :: tileToCoord[t] == old(tileToCoord)[t]
    {
      var i := 0;
      while i < 17
        invariant 0 <= i <= 17
        invariant coordToTile == old(coordToTile) + TileTable(RowStarts[i])
        invariant tileToCoord == old(tileToCoord) + CoordTable(RowStarts[i])
      {
        InitRow(i, old(coordToTile), old(tileToCoord));
        i := i + 1;
      }
      UnionTables(old(coordToTile), old(tileToCoord), RowStarts[i]);
    }

    /** The inner loop of _init_mappings, over the tiles of row i. */
    method InitRow(i: nat, ghost c0: map<Coord, nat>, ghost t0: map<nat, Coord>)
      requires i < 17
      requires coordToTile == c0 + TileTable(RowStarts[i]) && tileToCoord == t0 + CoordTable(RowStarts[i])
      modifies this
      ensures coordToTile == c0 + TileTable(RowStarts[i + 1]) && tileToCoord == t0 + CoordTable(RowStarts[i + 1])
    {
      RowBound(i);
      var j := 0;
      ghost var n := RowStarts[i];
      while j < RowSizes[i]
        invariant 0 <= j <= RowSizes[i] && n == RowStarts[i] + j && n <= 121
        invariant coordToTile == c0 + TileTable(n)
        invariant tileToCoord == t0 + CoordTable(n)
      {
        var x := j;
        var y := i;
        var tile := FlatIndex(i, j);
        TablesStep(i, j);
        UnionUpdate(c0, TileTable(tile), (x, y), tile);
        UnionUpdate(t0, CoordTable(tile), tile, (x, y));
        coordToTile := coordToTile[(x, y) := tile];
        tileToCoord := tileToCoord[tile := (x, y)];
        j := j + 1;
        n := n + 1;
      }
    }

    /** get_tile_at_coord: the tile at (x, y), if there is one. */
    function GetTileAtCoord(x: int, y: int): (t: Option<nat>)
      requires Valid()
      reads this, board
      ensures t == TileAt(x, y)
    {
      if (x, y) in coordToTile then Some(coordToTile[(x, y)]) else None
    }

    /** get_coord_of_tile: the coordinate of a tile, if it is one of the board's. */
    function GetCoordOfTile(t: nat): (xy: Option<Coord>)
      requires TileIndex(tileToCoord)
      reads this
      ensures xy.Some? <==> t < 121
      ensures xy.Some? ==> TileAt(xy.value.0, xy.value.1) == Some(t)
      ensures xy.Some? ==> xy.value == CoordOfTile(t)
    {
      if t in tileToCoord then CoordOfTilePlaces(t); Some(tileToCoord[t]) else None
    }

    /**
     * update_board_from_matrix: every tile emptied, then each 'O' or 'X'
     * of the matrix placed on the tile at its coordinate, if any.
     */
    method UpdateBoardFromMatrix(matrix: seq<seq<char>>)
      requires Valid()
      modifies board.cells
      ensures board.cells[..] == MatrixOcc(matrix)
    {
      forall t | 0 <= t < 121 {
        board.cells[t] := Empty;
      }
      FilledAtStart(board.cells[..], matrix);
      var y := 0;
      while y < |matrix|
        invariant 0 <= y <= |matrix|
        invariant Filled(board.cells[..], matrix, y, 0)
      {
        PlaceRow(matrix, y);
        y := y + 1;
      }
      FilledAtEnd(board.cells[..], matrix);
    }

    /** The inner loop of update_board_from_matrix, over row y of the matrix. */
    method PlaceRow(matrix: seq<seq<char>>, y: nat)
      requires Valid() && y < |matrix| && Filled(board.cells[..], matrix, y, 0)
      modifies board.cells
      ensures Filled(board.cells[..], matrix, y + 1, 0)
    {
      var row := matrix[y];
      var x := 0;
      while x < |row|
        invariant 0 <= x <= |row|
        invariant Filled(board.cells[..], matrix, y, x)
      {
        PlaceStep(board.cells[..], matrix, y, x);
        var cell := row[x];
        if cell == 'O' || cell == 'X' {
          var tile := GetTileAtCoord(x, y);
          if tile.Some? {
            board.cells[tile.value] := PieceOf(cell);
          }
        }
        x := x + 1;
      }
      RowFilled(board.cells[..], matrix, y);
    }

    /** validate_move_sequence: hop by hop on the current board, the first fault found, or acceptance. */
    method ValidateMoveSequence(path: seq<Coord>) returns (ok: bool, verdict: Verdict)
      requires Valid()
      ensures verdict == Validate(board.adj, board.cells[..], path)
      ensures ok <==> verdict == Accepted
    {
      if |path| < 2 {
        return false, TooShort;
      }
      var i := 0;
      while i < |path| - 1
        invariant 0 <= i < |path|
        invariant HopsFrom(board.adj, board.cells[..], path, i) == Validate(board.adj, board.cells[..], path)
      {
        var (originX, originY) := path[i];
        var (destX, destY) := path[i + 1];
        var originTile := GetTileAtCoord(originX, originY);
        var destTile := GetTileAtCoord(destX, destY);
        if originTile.None? || destTile.None? {
          return false, TileNotFound(path[i], path[i + 1]);
        }
        if board.cells[originTile.value] == Empty {
          return false, NoPieceAtOrigin(path[i]);
        }
        if board.cells[destTile.value] != Empty {
          return false, DestinationNotEmpty(path[i + 1]);
        }
        var validMoves := ValidMoves(board.adj, board.cells[..], originTile.value);
        if destTile.value !in validMoves {
          return false, CannotMove(path[i], path[i + 1]);
        }
        i := i + 1;
      }
      return true, Accepted;
    }

    /** The loop of get_ai_move_sequence that turns a tile path into coordinates. */
    method CoordPath(bestPath: seq<nat>) returns (coordPath: seq<Coord>)
      requires TileIndex(tileToCoord)
      ensures coordPath == Coords(bestPath)
    {
      coordPath := [];
      var k := 0;
      while k < |bestPath|
        invariant 0 <= k <= |bestPath|
        invariant coordPath == Coords(bestPath[..k])
      {
        CoordsSnoc(bestPath, k);
        var xy := GetCoordOfTile(bestPath[k]);
        if xy.Some? {
          coordPath := coordPath + [xy.value];
        }
        k := k + 1;
      }
      assert bestPath[..k] == bestPath;
    }

    /**
     * get_ai_move_sequence: a computer player named AI1 (player1) or AI2,
     * with the row heuristic when asked for, searches the board; its path
     * comes back as coordinates, none when it found no move. The board is
     * left as it was. A negative depth is passed on as it came; the search
     * then returns at once, with no move, on a finished game or when the
     * side to move has no candidate, and None stands for the recursion
     * without a depth bound otherwise.
     */
    method GetAiMoveSequence(isPlayer1: bool, depth: int, evalFunc: int, useHeuristic: bool) returns (coords: Option<seq<Coord>>)
      requires Valid()
      modifies board.cells
      ensures board.cells[..] == old(board.cells[..])
      ensures coords.None? <==> depth < 0 && !GameEnded(old(board.cells[..]))
                                && MoverCandidates(AiSetting(board.adj, BoardTables(board, true), BoardTables(board, false), isPlayer1, evalFunc, useHeuristic),
                                                   old(board.cells[..]), true, 0) != []
      ensures depth >= 0 ==> coords == Some(Coords(AiPath(board.adj, BoardTables(board, true), BoardTables(board, false),
                                                          old(board.cells[..]), isPlayer1, depth, evalFunc, useHeuristic)))
      ensures depth < 0 && coords.Some? ==> coords == Some([])
    {
      var aiPlayer := new ComputerPlayer(if isPlayer1 then "AI1" else "AI2", evalFunc, depth);
      if useHeuristic {
        aiPlayer.SetHeuristic(RowHeuristic(isPlayer1));
      }
      assert IsPlayer1(aiPlayer.name) == isPlayer1 by {
        if isPlayer1 {
          assert aiPlayer.name[2] == '1';
        }
      }
      var bestPath := aiPlayer.GetMove(board);
      if bestPath.None? {
        return None;
      }
      if bestPath.value == [] {
        return Some([]);
      }
      var cs := CoordPath(bestPath.value);
      coords := Some(cs);
    }
  }

  /** The setting get_ai_move_sequence searches with. */
  function AiSetting(adj: Adjacency, eval1: Tables, eval2: Tables, isPlayer1: bool, evalFunc: int, useHeuristic: bool): (s: Setting)
    requires WellFormed(adj) && Sized(eval1) && Sized(eval2)
    ensures Ready(s)
  {
    BoardSetting(adj, if useHeuristic then RowHeuristic(isPlayer1) else DefaultHeuristic, isPlayer1, evalFunc == 1, eval1, eval2)
  }

  /**
   * The tile path get_ai_move_sequence obtains: the search's best path
   * for the side of player1 or player2, maximising. It is empty, or a
   * path of two or more tiles that starts on a piece of that side and
   * can be walked, every hop of it passing the heuristic in use.
   */
  function AiPath(adj: Adjacency, eval1: Tables, eval2: Tables, occ: Occupancy,
                  isPlayer1: bool, depth: nat, evalFunc: int, useHeuristic: bool): (path: seq<nat>)
    requires WellFormed(adj) && Sized(eval1) && Sized(eval2)
    ensures path == [] || (Walkable(occ, path) && occ[path[0]] == PlayerOf(isPlayer1))
    ensures path != [] && useHeuristic ==> HopsPass(path, RowHeuristic(isPlayer1))
  {
    var s := AiSetting(adj, eval1, eval2, isPlayer1, evalFunc, useHeuristic);
    var path := Search(s, occ, depth, true, -1_000_000_000, 1_000_000_000).1;
    if path != [] then
      var t :| 0 <= t < 121 && occ[t] == Mover(s, true) && path in s.candidates(occ, t);
      assert Walkable(occ, path) && path[0] == t;
      CandidatePasses(adj, if useHeuristic then RowHeuristic(isPlayer1) else DefaultHeuristic, occ, t, path);
      path
    else path
  }

  /**
   * With the heuristic on, the coordinates get_ai_move_sequence returns
   * are one per tile of the path, and the move ends on a row no further
   * back, for the side moving, than where it starts.
   */
  lemma AiMoveForward(adj: Adjacency, eval1: Tables, eval2: Tables, occ: Occupancy, isPlayer1: bool, depth: nat, evalFunc: int)
    requires WellFormed(adj) && Sized(eval1) && Sized(eval2)
    ensures var path := AiPath(adj, eval1, eval2, occ, isPlayer1, depth, evalFunc, true);
            var coords := Coords(path);
            |coords| == |path| && (coords == [] || |coords| >= 2)
            && (|coords| >= 2 && isPlayer1 ==> coords[0].1 <= coords[|coords| - 1].1)
            && (|coords| >= 2 && !isPlayer1 ==> coords[|coords| - 1].1 <= coords[0].1)
  {
    var path := AiPath(adj, eval1, eval2, occ, isPlayer1, depth, evalFunc, true);
    if path != [] {
      ForwardCoords(isPlayer1, path);
    }
  }

  lemma ForwardCoords(isPlayer1: bool, path: seq<nat>)
    requires OnBoard(path) && |path| >= 2 && HopsPass(path, RowHeuristic(isPlayer1))
    ensures var coords := Coords(path);
            |coords| == |path|
            && (isPlayer1 ==> coords[0].1 <= coords[|coords| - 1].1)
            && (!isPlayer1 ==> coords[|coords| - 1].1 <= coords[0].1)
  {
    HeuristicForward(isPlayer1, path);
    CoordOfTileRow(path[0]);
    CoordOfTileRow(path[|path| - 1]);
  }

  /** Every hop of a candidate passes the heuristic it was built with. */
  lemma CandidatePasses(adj: Adjacency, h: (nat, nat) -> bool, occ: Occupancy, o: nat, p: seq<nat>)
    requires WellFormed(adj) && o < 121 && occ[o] != Empty && p in Candidates(adj, h, occ, o)
    ensures HopsPass(p, h)
  {
    var steps := StepCandidates(o, ValidMoves(adj, occ, o), h);
    var jumps := JumpCandidates(JumpPaths(adj, occ, o), h);
    assert p in steps + jumps;
    if p in steps {
      StepCandidatePasses(o, ValidMoves(adj, occ, o), h, p);
    }
  }

  lemma StepCandidatePasses(o: nat, ds: seq<nat>, h: (nat, nat) -> bool, p: seq<nat>)
    requires p in StepCandidates(o, ds, h)
    ensures HopsPass(p, h)
  {
    assert |p| == 2 && h(p[0], p[1]);
  }
}
