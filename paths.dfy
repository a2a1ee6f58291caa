/**
 * Moving a piece along a path of tiles and moving it back
 * (aiServer/Board.py:314-322 and 602-652), as functions on an occupancy.
 * The class in board.dfy performs the same steps on an array and is
 * proved to agree with these functions.
 */
module Paths {
  import opened Rules

  predicate OnBoard(path: seq<nat>)
  {
    forall i | 0 <= i < |path| :: path[i] < 121
  }

  /**
   * move_piece_to_tile: refused (false, nothing changes) when the
   * destination holds a piece; otherwise the destination receives the
   * origin's content and the origin is emptied.
   */
  function MovePieceToTile(occ: Occupancy, origin: nat, dest: nat): (r: (bool, Occupancy))
    requires origin < 121 && dest < 121
    ensures r.0 <==> occ[dest] == Empty
    ensures !r.0 ==> r.1 == occ
    ensures r.0 && origin != dest ==> r.1[dest] == occ[origin] && r.1[origin] == Empty
    ensures forall t | 0 <= t < 121 && t != origin && t != dest :: r.1[t] == occ[t]
  {
    if occ[dest] != Empty then (false, occ)
    else (true, occ[dest := occ[origin]][origin := Empty])
  }

  /**
   * The steps i, i+1, ... of apply_path: before each step the next tile
   * must be empty, otherwise the walk stops with false and keeps what it
   * has done so far; a step puts the piece on the next tile and empties
   * the current one.
   */
  function ApplySteps(occ: Occupancy, path: seq<nat>, piece: Occ, i: nat): (r: (bool, Occupancy))
    requires OnBoard(path)
    decreases |path| - i
  {
    if i + 1 >= |path| then (true, occ)
    else if occ[path[i + 1]] != Empty then (false, occ)
    else ApplySteps(occ[path[i + 1] := piece][path[i] := Empty], path, piece, i + 1)
  }

  /** apply_path (the last definition, Board.py:602-628). */
  function ApplyPath(occ: Occupancy, path: seq<nat>): (r: (bool, Occupancy))
    requires OnBoard(path)
    ensures |path| < 2 || occ[path[0]] == Empty ==> r == (false, occ)
  {
    if |path| < 2 then (false, occ)
    else if occ[path[0]] == Empty then (false, occ)
    else ApplySteps(occ, path, occ[path[0]], 0)
  }

  /** The steps i, i-1, ..., 1 of undo_path: the previous tile receives the piece and the current one is emptied, unchecked. */
  function UndoSteps(occ: Occupancy, path: seq<nat>, piece: Occ, i: nat): (r: Occupancy)
    requires OnBoard(path) && i < |path|
    decreases i
  {
    if i == 0 then occ
    else UndoSteps(occ[path[i - 1] := piece][path[i] := Empty], path, piece, i - 1)
  }

  /** undo_path (the last definition, Board.py:630-652). */
  function UndoPath(occ: Occupancy, path: seq<nat>): (r: (bool, Occupancy))
    requires OnBoard(path)
    ensures |path| < 2 || occ[path[|path| - 1]] == Empty ==> r == (false, occ)
  {
    if |path| < 2 then (false, occ)
    else if occ[path[|path| - 1]] == Empty then (false, occ)
    else (true, UndoSteps(occ, path, occ[path[|path| - 1]], |path| - 1))
  }

  /**
   * A path apply_path can walk in full: at least two tiles, a piece on the
   * first, every later tile empty and no tile repeated twice in a row.
   */
  predicate Walkable(occ: Occupancy, path: seq<nat>)
  {
    OnBoard(path) && |path| >= 2 && occ[path[0]] != Empty
    && (forall i | 1 <= i < |path| :: occ[path[i]] == Empty && path[i] != path[i - 1])
  }

  /** The occupancy with the piece on path[0] carried to tile t. */
  function Carried(occ: Occupancy, path: seq<nat>, t: nat): (r: Occupancy)
    requires OnBoard(path) && |path| > 0 && t < 121
    ensures r[t] == occ[path[0]]
    ensures t != path[0] ==> r[path[0]] == Empty
    ensures forall u | 0 <= u < 121 && u != path[0] && u != t :: r[u] == occ[u]
  {
    occ[path[0] := Empty][t := occ[path[0]]]
  }

  /** One forward step turns "carried to path[i]" into "carried to path[i+1]". */
  lemma CarryStep(occ: Occupancy, path: seq<nat>, i: nat)
    requires Walkable(occ, path) && i + 1 < |path|
    ensures Carried(occ, path, path[i])[path[i + 1]] == Empty
    ensures Carried(occ, path, path[i])[path[i + 1] := occ[path[0]]][path[i] := Empty] == Carried(occ, path, path[i + 1])
  {
    var a := Carried(occ, path, path[i])[path[i + 1] := occ[path[0]]][path[i] := Empty];
    var b := Carried(occ, path, path[i + 1]);
    forall u | 0 <= u < 121
      ensures a[u] == b[u]
    {
      if i > 0 {
        assert occ[path[i]] == Empty;
      }
    }
  }

  lemma {:induction false} ApplyStepsCarries(occ: Occupancy, path: seq<nat>, i: nat)
    requires Walkable(occ, path) && i < |path|
    ensures ApplySteps(Carried(occ, path, path[i]), path, occ[path[0]], i) == (true, Carried(occ, path, path[|path| - 1]))
    decreases |path| - i
  {
    if i + 1 < |path| {
      CarryStep(occ, path, i);
      ApplyStepsCarries(occ, path, i + 1);
    }
  }

  lemma CarriedHome(occ: Occupancy, path: seq<nat>)
    requires OnBoard(path) && |path| > 0
    ensures Carried(occ, path, path[0]) == occ
  {
  }

  /**
   * apply_path on a walkable path returns true, leaves the piece on the
   * last tile, empties the first and changes nothing else.
   */
  lemma ApplyWalkable(occ: Occupancy, path: seq<nat>)
    requires Walkable(occ, path)
    ensures ApplyPath(occ, path) == (true, Carried(occ, path, path[|path| - 1]))
  {
    CarriedHome(occ, path);
    ApplyStepsCarries(occ, path, 0);
  }

  /** One backward step of undo_path turns "carried to path[i]" into "carried to path[i-1]". */
  lemma UncarryStep(occ: Occupancy, path: seq<nat>, i: nat)
    requires Walkable(occ, path) && 0 < i < |path|
    ensures Carried(occ, path, path[i])[path[i - 1] := occ[path[0]]][path[i] := Empty] == Carried(occ, path, path[i - 1])
  {
    var a := Carried(occ, path, path[i])[path[i - 1] := occ[path[0]]][path[i] := Empty];
    var b := Carried(occ, path, path[i - 1]);
    forall u | 0 <= u < 121
      ensures a[u] == b[u]
    {
      assert occ[path[i]] == Empty;
    }
  }

  lemma {:induction false} UndoStepsUncarries(occ: Occupancy, path: seq<nat>, i: nat)
    requires Walkable(occ, path) && i < |path|
    ensures UndoSteps(Carried(occ, path, path[i]), path, occ[path[0]], i) == occ
  {
    if i == 0 {
      CarriedHome(occ, path);
    } else {
      UncarryStep(occ, path, i);
      UndoStepsUncarries(occ, path, i - 1);
    }
  }

  /** undo_path after a complete apply_path restores the occupancy exactly. */
  lemma UndoAfterApply(occ: Occupancy, path: seq<nat>)
    requires Walkable(occ, path)
    ensures UndoPath(ApplyPath(occ, path).1, path) == (true, occ)
  {
    ApplyWalkable(occ, path);
    UndoStepsUncarries(occ, path, |path| - 1);
  }

  /**
   * apply_path does not roll back: when tiles 1..j-1 are walkable and tile
   * j holds another piece or repeats tile j-1, it returns false with the
   * piece left on path[j-1].
   */
  lemma ApplyBlocked(occ: Occupancy, path: seq<nat>, j: nat)
    requires OnBoard(path) && 1 <= j < |path| && occ[path[0]] != Empty
    requires forall i | 1 <= i < j :: occ[path[i]] == Empty && path[i] != path[i - 1]
    requires (occ[path[j]] != Empty && path[j] != path[0]) || path[j] == path[j - 1]
    ensures ApplyPath(occ, path) == (false, Carried(occ, path, path[j - 1]))
  {
    CarriedHome(occ, path);
    ApplyStepsBlocked(occ, path, 0, j);
  }

  lemma {:induction false} ApplyStepsBlocked(occ: Occupancy, path: seq<nat>, i: nat, j: nat)
    requires OnBoard(path) && i < j < |path| && occ[path[0]] != Empty
    requires forall k | 1 <= k < j :: occ[path[k]] == Empty && path[k] != path[k - 1]
    requires (occ[path[j]] != Empty && path[j] != path[0]) || path[j] == path[j - 1]
    ensures ApplySteps(Carried(occ, path, path[i]), path, occ[path[0]], i) == (false, Carried(occ, path, path[j - 1]))
    decreases j - i
  {
    var c := Carried(occ, path, path[i]);
    if i + 1 == j {
      assert c[path[j]] != Empty by {
        if path[j] != path[i] {
          assert c[path[j]] == occ[path[j]];
        }
      }
    } else {
      assert c[path[i + 1]] == Empty by {
        assert occ[path[i + 1]] == Empty && path[i + 1] != path[i];
      }
      var a := c[path[i + 1] := occ[path[0]]][path[i] := Empty];
      assert a == Carried(occ, path, path[i + 1]) by {
        forall u | 0 <= u < 121
          ensures a[u] == Carried(occ, path, path[i + 1])[u]
        {
          if i > 0 {
            assert occ[path[i]] == Empty;
          }
        }
      }
      ApplyStepsBlocked(occ, path, i + 1, j);
    }
  }
}
