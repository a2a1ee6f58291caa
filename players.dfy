/**
 * aiServer/Players.py: the alpha-beta search minimax_pruning as the
 * program runs it, on one shared Board that every candidate path is
 * applied to and undone on, and the computer player that calls it.
 * The method is proved to return what Minimax.Search computes and to
 * leave the board as it found it.
 */
module Players {
  import opened Wrappers
  import opened Topology
  import opened Rules
  import opened Jumps
  import opened Moves
  import opened Paths
  import opened Minimax
  import opened GameBoard

  // ---------------------------------------------------------------------
  // The candidate lists, built the way the loops of Players.py build them
  // ---------------------------------------------------------------------

  lemma {:induction false} JumpCandidatesSnoc(paths: seq<seq<nat>>, p: seq<nat>, h: (nat, nat) -> bool)
    ensures JumpCandidates(paths + [p], h) == JumpCandidates(paths, h) + (if |p| > 1 && HopsPass(p, h) then [p] else [])
  {
    if |paths| == 0 {
      assert [p][1..] == [];
    } else {
      assert (paths + [p])[1..] == paths[1..] + [p];
      JumpCandidatesSnoc(paths[1..], p, h);
    }
  }

  lemma StepCandidatesPrefix(o: nat, ds: seq<nat>, k: nat, h: (nat, nat) -> bool)
    requires k < |ds|
    ensures StepCandidates(o, ds[..k + 1], h) == StepCandidates(o, ds[..k], h) + (if h(o, ds[k]) then [[o, ds[k]]] else [])
  {
    assert ds[..k + 1][..k] == ds[..k];
  }

  lemma JumpCandidatesPrefix(paths: seq<seq<nat>>, j: nat, h: (nat, nat) -> bool)
    requires j < |paths|
    ensures JumpCandidates(paths[..j + 1], h) == JumpCandidates(paths[..j], h) + (if |paths[j]| > 1 && HopsPass(paths[j], h) then [paths[j]] else [])
  {
    assert paths[..j + 1] == paths[..j] + [paths[j]];
    JumpCandidatesSnoc(paths[..j], paths[j], h);
  }

  /** The first loop of possible_paths: [origin, dest] for each destination the heuristic accepts. */
  method StepPaths(t: nat, dests: seq<nat>, h: (nat, nat) -> bool) returns (cs: seq<seq<nat>>)
    ensures cs == StepCandidates(t, dests, h)
  {
    cs := [];
    var k := 0;
    while k < |dests|
      invariant 0 <= k <= |dests|
      invariant cs == StepCandidates(t, dests[..k], h)
    {
      StepCandidatesPrefix(t, dests, k, h);
      if h(t, dests[k]) {
        cs := cs + [[t, dests[k]]];
      }
      k := k + 1;
    }
    assert dests[..k] == dests;
  }

  /** The second loop of possible_paths: the jump paths longer than one tile whose every hop the heuristic accepts. */
  method KeptJumpPaths(jumpPaths: seq<seq<nat>>, h: (nat, nat) -> bool) returns (cs: seq<seq<nat>>)
    ensures cs == JumpCandidates(jumpPaths, h)
  {
    cs := [];
    var j := 0;
    while j < |jumpPaths|
      invariant 0 <= j <= |jumpPaths|
      invariant cs == JumpCandidates(jumpPaths[..j], h)
    {
      JumpCandidatesPrefix(jumpPaths, j, h);
      if |jumpPaths[j]| > 1 && HopsPass(jumpPaths[j], h) {
        cs := cs + [jumpPaths[j]];
      }
      j := j + 1;
    }
    assert jumpPaths[..j] == jumpPaths;
  }

  /**
   * possible_paths for one tile of the side to move (Players.py:56-66):
   * [origin, dest] for each valid move the heuristic accepts, then every
   * jump path longer than one tile whose every hop it accepts. The search
   * takes its lists from its setting's `candidates`; MoveSetting's are
   * Candidates, so this method is the loop-level witness that those are
   * the lists Players.py:56-66 builds on the board.
   */
  method PossiblePaths(b: Board, h: (nat, nat) -> bool, t: nat) returns (cs: seq<seq<nat>>)
    requires b.Valid() && t < 121 && b.cells[t] != Empty
    ensures cs == Candidates(b.adj, h, b.cells[..], t)
  {
    var dests := ValidMoves(b.adj, b.cells[..], t);
    var steps := StepPaths(t, dests, h);
    var jumpPaths := b.AllJumpPaths(t);
    var jumps := KeptJumpPaths(jumpPaths, h);
    cs := steps + jumps;
  }

  // ---------------------------------------------------------------------
  // minimax_pruning (Players.py:33-123)
  // ---------------------------------------------------------------------

  /**
   * minimax_pruning (Players.py:33-123): the base case, then the children
   * of the side to move tile by tile in flat order (SearchPaths); the
   * loop stops once beta <= alpha. The result is Search's, and the board
   * is restored. The candidate lists come from s.candidates; on the
   * program's board (MoveSetting) that is Candidates, the lists the loops
   * of PossiblePaths build, so the search uses the function rather than
   * rebuilding the lists on each ply.
   */
  method MinimaxPruning(b: Board, s: Setting, depth: nat, maximizing: bool, alpha: int, beta: int)
      returns (points: int, bestPath: seq<nat>)
    requires b.Valid() && Ready(s)
    modifies b.cells
    ensures b.cells[..] == old(b.cells[..])
    ensures (points, bestPath) == Search(s, old(b.cells[..]), depth, maximizing, alpha, beta)
    decreases depth, 2
  {
    ghost var occ := b.cells[..];
    if depth == 0 || GameEnded(b.cells[..]) {
      return GetScore(b.cells[..], s.isPlayer1Turn, s.useEvalFunc1, s.eval1, s.eval2) + depth, [];
    }
    var who := Mover(s, maximizing);
    var found := false;
    var best := 0;
    bestPath := [];
    var a := alpha;
    var bt := beta;
    ghost var final := TileLoop(s, occ, depth, maximizing, 0, Acc(false, 0, [], alpha, beta));
    var t := 0;
    while t < 121
      invariant 0 <= t <= 121 && b.cells[..] == occ
      invariant TileLoop(s, occ, depth, maximizing, t, Acc(found, best, bestPath, a, bt)) == final
    {
      if b.cells[t] == who {
        var cs := s.candidates(b.cells[..], t);
        var r := SearchPaths(b, s, depth, maximizing, t, cs, Acc(found, best, bestPath, a, bt));
        found, best, bestPath, a, bt := r.found, r.best, r.path, r.alpha, r.beta;
        if bt <= a {
          break;
        }
      }
      t := t + 1;
    }
    if !found {
      return GetScore(b.cells[..], s.isPlayer1Turn, s.useEvalFunc1, s.eval1, s.eval2), [];
    }
    return best, bestPath;
  }

  /**
   * The loop over possible_paths of tile t, starting from the loop state
   * acc: each path is searched (SearchChild); a strictly better score (or
   * the first) replaces the best score and path; alpha (maximising) or
   * beta (minimising) moves to the score; the loop stops once beta <= alpha.
   */
  method SearchPaths(b: Board, s: Setting, depth: nat, maximizing: bool, t: nat, cs: seq<seq<nat>>, acc: Acc)
      returns (r: Acc)
    requires b.Valid() && Ready(s) && depth > 0 && t < 121 && b.cells[t] == Mover(s, maximizing) && cs == s.candidates(b.cells[..], t)
    modifies b.cells
    ensures b.cells[..] == old(b.cells[..])
    ensures r == PathLoop(s, old(b.cells[..]), depth, maximizing, t, cs, 0, acc)
    decreases depth, 1
  {
    ghost var occ := b.cells[..];
    var found, best, bestPath, a, bt := acc.found, acc.best, acc.path, acc.alpha, acc.beta;
    var i := 0;
    while i < |cs|
      invariant 0 <= i <= |cs| && b.cells[..] == occ
      invariant PathLoop(s, occ, depth, maximizing, t, cs, i, Acc(found, best, bestPath, a, bt)) == PathLoop(s, occ, depth, maximizing, t, cs, 0, acc)
    {
      var c := cs[i];
      ghost var before := Acc(found, best, bestPath, a, bt);
      PathLoopUnfold(s, occ, depth, maximizing, t, cs, i, before);
      var childPoints := SearchChild(b, s, depth, maximizing, c, a, bt);
      var improved := if maximizing then !found || childPoints > best else !found || childPoints < best;
      found := true;
      if improved {
        best := childPoints;
        bestPath := c;
      }
      if maximizing {
        a := Max(a, childPoints);
      } else {
        bt := Min(bt, childPoints);
      }
      assert Acc(found, best, bestPath, a, bt) == Update(maximizing, before, childPoints, c);
      if bt <= a {
        break;
      }
      i := i + 1;
    }
    return Acc(found, best, bestPath, a, bt);
  }

  /** One turn of PathLoop, unfolded: the candidate searched, the loop state updated, the loop left or continued. */
  lemma PathLoopUnfold(s: Setting, occ: Occupancy, depth: nat, maximizing: bool, t: nat, cs: seq<seq<nat>>, i: nat, acc: Acc)
    requires Ready(s) && depth > 0 && t < 121 && occ[t] == Mover(s, maximizing) && cs == s.candidates(occ, t) && i < |cs|
    ensures Walkable(occ, cs[i])
    ensures var acc' := Update(maximizing, acc, Search(s, Child(occ, cs[i]), depth - 1, !maximizing, acc.alpha, acc.beta).0, cs[i]);
      PathLoop(s, occ, depth, maximizing, t, cs, i, acc) == if acc'.beta <= acc'.alpha then acc' else PathLoop(s, occ, depth, maximizing, t, cs, i + 1, acc')
  {
    assert cs[i] in cs;
  }

  /** apply_path, the recursive call one ply deeper with the other side maximising, and undo_path. */
  method SearchChild(b: Board, s: Setting, depth: nat, maximizing: bool, c: seq<nat>, alpha: int, beta: int)
      returns (points: int)
    requires b.Valid() && Ready(s) && depth > 0 && Walkable(b.cells[..], c)
    modifies b.cells
    ensures b.cells[..] == old(b.cells[..])
    ensures points == Search(s, Child(old(b.cells[..]), c), depth - 1, !maximizing, alpha, beta).0
    decreases depth, 0
  {
    ghost var occ := b.cells[..];
    UndoAfterApply(occ, c);
    var _ := b.ApplyPath(c);
    var childPath;
    points, childPath := MinimaxPruning(b, s, depth - 1, !maximizing, alpha, beta);
    var _ := b.UndoPath(c);
  }

  // ---------------------------------------------------------------------
  // Player and Player_Computer (Players.py:127-182)
  // ---------------------------------------------------------------------

  /** Player.is_player1: the name contains the character '1'. */
  function IsPlayer1(name: string): (r: bool)
    ensures r <==> exists i | 0 <= i < |name| :: name[i] == '1'
  {
    if |name| == 0 then false
    else name[0] == '1' || IsPlayer1(name[1..])
  }

  /** Player_Computer.DEFAULT_HEURISTIC: every move passes. */
  const DefaultHeuristic: (nat, nat) -> bool := (o: nat, v: nat) => true

  /** The per-tile score tables of a board, for eval1 (score1) or eval2 (score2). */
  function BoardTables(b: Board, useEvalFunc1: bool): (e: Tables)
    requires b.Valid()
    reads b, b.score1P1, b.score1P2, b.score2P1, b.score2P2
    ensures Sized(e)
    ensures useEvalFunc1 ==> e.forPlayer1 == b.score1P1[..] && e.forPlayer2 == b.score1P2[..]
    ensures !useEvalFunc1 ==> e.forPlayer1 == b.score2P1[..] && e.forPlayer2 == b.score2P2[..]
  {
    if useEvalFunc1 then Tables(b.score1P1[..], b.score1P2[..]) else Tables(b.score2P1[..], b.score2P2[..])
  }

  /**
   * A computer player: its name, the evaluation function it chose
   * (1 selects score1, anything else score2), the search depth and the
   * heuristic every candidate move must pass.
   */
  class ComputerPlayer {
    const name: string
    const evalFunc: int
    const depth: int
    var heuristic: (nat, nat) -> bool

    constructor(name: string, evalFunc: int, depth: int)
      ensures this.name == name && this.evalFunc == evalFunc && this.depth == depth
      ensures heuristic == DefaultHeuristic
    {
      this.name := name;
      this.evalFunc := evalFunc;
      this.depth := depth;
      heuristic := DefaultHeuristic;
    }

    method SetHeuristic(f: (nat, nat) -> bool)
      modifies this
      ensures heuristic == f
    {
      heuristic := f;
    }

    /** uses_eval_func_1 */
    predicate UsesEvalFunc1()
    {
      evalFunc == 1
    }

    /** The setting get_move searches with: this player's side, evaluation function and heuristic on board b. */
    function MoveSetting(b: Board): (s: Setting)
      requires b.Valid()
      reads this, b, b.score1P1, b.score1P2, b.score2P1, b.score2P2
      ensures Ready(s) && s.isPlayer1Turn == IsPlayer1(name) && s.useEvalFunc1 == (evalFunc == 1)
      ensures forall occ: Occupancy, o: nat | o < 121 && occ[o] != Empty :: s.candidates(occ, o) == Candidates(b.adj, heuristic, occ, o)
    {
      BoardSetting(b.adj, heuristic, IsPlayer1(name), UsesEvalFunc1(), BoardTables(b, true), BoardTables(b, false))
    }

    /**
     * get_move: minimax_pruning to this player's depth, maximising, with
     * the window (-1_000_000_000, 1_000_000_000); the board is left as it
     * was and the path returned is the search's best path, empty or one
     * of the candidates of this player's pieces. The depth is taken as
     * given: a negative one never meets the `depth == 0` test, so the
     * search returns at once, with no move, only when the game has ended
     * or the side to move has no candidate at all; otherwise it recurses
     * without a depth bound, and that outcome is None.
     */
    method GetMove(b: Board) returns (path: Option<seq<nat>>)
      requires b.Valid()
      modifies b.cells
      ensures b.cells[..] == old(b.cells[..])
      ensures path.None? <==> depth < 0 && !GameEnded(old(b.cells[..])) && MoverCandidates(MoveSetting(b), old(b.cells[..]), true, 0) != []
      ensures depth >= 0 ==> path == Some(Search(MoveSetting(b), old(b.cells[..]), depth, true, -1_000_000_000, 1_000_000_000).1)
      ensures depth < 0 && path.Some? ==> path == Some([])
      ensures path.Some? ==> path.value == [] || IsCandidate(MoveSetting(b), old(b.cells[..]), true, path.value)
    {
      if depth < 0 {
        var s := BoardSetting(b.adj, heuristic, IsPlayer1(name), UsesEvalFunc1(), BoardTables(b, true), BoardTables(b, false));
        if GameEnded(b.cells[..]) || MoverCandidates(s, b.cells[..], true, 0) == [] {
          return Some([]);
        }
        return None;
      }
      var s := BoardSetting(b.adj, heuristic, IsPlayer1(name), UsesEvalFunc1(), BoardTables(b, true), BoardTables(b, false));
      var score, p := MinimaxPruning(b, s, depth, true, -1_000_000_000, 1_000_000_000);
      path := Some(p);
    }
  }
}
