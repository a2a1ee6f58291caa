/**
 * The alpha-beta search of aiServer/Players.py:33-123 as functions over an
 * occupancy: the candidate paths of a tile, the pruned search exactly as
 * the loops perform it, and an unpruned minimax over the same candidate
 * lists as its reference. The method that runs the search on a mutable
 * board (players.dfy) is proved to compute `Search`.
 */
module Minimax {
  import opened Topology
  import opened Rules
  import opened Jumps
  import opened Moves
  import opened Paths

  /**
   * The arguments that stay fixed through one search: whose turn the
   * score is taken for, the evaluation function chosen, the two per-tile
   * score tables, and the candidate paths of a tile on a given board
   * (instantiated below with the board's move generator and heuristic).
   */
  datatype Setting = Setting(isPlayer1Turn: bool, useEvalFunc1: bool, eval1: Tables, eval2: Tables,
                             candidates: (Occupancy, nat) -> seq<seq<nat>>)

  /** Every candidate of a tile starts at that tile and can be walked by apply_path. */
  predicate AllWalkable(occ: Occupancy, o: nat, cs: seq<seq<nat>>)
  {
    forall c | c in cs :: Walkable(occ, c) && c[0] == o
  }

  ghost predicate Ready(s: Setting)
  {
    Sized(s.eval1) && Sized(s.eval2)
    && forall occ: Occupancy, o: nat | o < 121 && occ[o] != Empty :: AllWalkable(occ, o, s.candidates(occ, o))
  }

  /** board.get_score(is_player1_turn, use_eval_func_1) */
  function Score(s: Setting, occ: Occupancy): int
    requires Ready(s)
  {
    GetScore(occ, s.isPlayer1Turn, s.useEvalFunc1, s.eval1, s.eval2)
  }

  /** The side whose tiles a ply expands: the turn holder when maximising, the opponent when minimising. */
  function Mover(s: Setting, maximizing: bool): (who: Occ)
    ensures who != Empty
    ensures maximizing ==> who == PlayerOf(s.isPlayer1Turn)
    ensures !maximizing ==> who == Opponent(PlayerOf(s.isPlayer1Turn))
  {
    if maximizing then PlayerOf(s.isPlayer1Turn) else Opponent(PlayerOf(s.isPlayer1Turn))
  }

  // ---------------------------------------------------------------------
  // Candidate paths (Players.py:57-66 and 96-103)
  // ---------------------------------------------------------------------

  /** [origin, dest] for every destination the heuristic accepts, in order. */
  function StepCandidates(o: nat, ds: seq<nat>, h: (nat, nat) -> bool): (cs: seq<seq<nat>>)
    ensures forall c | c in cs :: |c| == 2 && c[0] == o && c[1] in ds && h(o, c[1])
    ensures forall d | d in ds && h(o, d) :: [o, d] in cs
  {
    if |ds| == 0 then []
    else
      var init := ds[..|ds| - 1];
      var rest := StepCandidates(o, init, h);
      assert ds == init + [ds[|ds| - 1]];
      rest + (if h(o, ds[|ds| - 1]) then [[o, ds[|ds| - 1]]] else [])
  }

  /** Every hop of the path passes the heuristic. */
  predicate HopsPass(p: seq<nat>, h: (nat, nat) -> bool)
  {
    forall i | 0 <= i < |p| - 1 :: h(p[i], p[i + 1])
  }

  /** The jump paths longer than one tile whose every hop passes the heuristic, in order. */
  function JumpCandidates(paths: seq<seq<nat>>, h: (nat, nat) -> bool): (cs: seq<seq<nat>>)
    ensures forall c :: c in cs <==> c in paths && |c| > 1 && HopsPass(c, h)
  {
    if |paths| == 0 then []
    else (if |paths[0]| > 1 && HopsPass(paths[0], h) then [paths[0]] else []) + JumpCandidates(paths[1..], h)
  }

  /** A valid move lands on an empty tile. */
  lemma ValidMoveLands(adj: Adjacency, occ: Occupancy, o: nat, v: nat)
    requires WellFormed(adj) && o < 121 && occ[o] != Empty && v in ValidMoves(adj, occ, o)
    ensures v < 121 && occ[v] == Empty
  {
    if !EmptyNeighbour(adj, occ, o, v) {
      var p :| JumpChain(adj, occ, p) && |p| >= 2 && p[0] == o && Last(p) == v;
      JumpStepLands(adj, occ, p[|p| - 2], p[|p| - 1]);
    }
  }

  lemma ValidMovesLand(adj: Adjacency, occ: Occupancy, o: nat)
    requires WellFormed(adj) && o < 121 && occ[o] != Empty
    ensures forall v | v in ValidMoves(adj, occ, o) :: v < 121 && occ[v] == Empty
  {
    forall v | v in ValidMoves(adj, occ, o) ensures v < 121 && occ[v] == Empty {
      ValidMoveLands(adj, occ, o, v);
    }
  }

  /** Two-tile paths from an occupied tile onto empty tiles can be walked. */
  lemma StepCandidatesWalkable(occ: Occupancy, o: nat, ds: seq<nat>, h: (nat, nat) -> bool)
    requires o < 121 && occ[o] != Empty && forall v | v in ds :: v < 121 && occ[v] == Empty
    ensures AllWalkable(occ, o, StepCandidates(o, ds, h))
  {
    forall c | c in StepCandidates(o, ds, h)
      ensures Walkable(occ, c) && c[0] == o
    {
      assert c[1] in ds;
    }
  }

  /** A recorded jump path can be walked by apply_path. */
  lemma JumpPathWalkable(adj: Adjacency, occ: Occupancy, o: nat, p: seq<nat>)
    requires WellFormed(adj) && o < 121 && occ[o] != Empty && MaximalJumpPath(adj, occ, [o], p)
    ensures Walkable(occ, p)
  {
    forall i | 1 <= i < |p|
      ensures occ[p[i]] == Empty && p[i] != p[i - 1]
    {
      JumpStepLands(adj, occ, p[i - 1], p[i]);
    }
  }

  lemma JumpCandidatesWalkable(adj: Adjacency, occ: Occupancy, o: nat, h: (nat, nat) -> bool)
    requires WellFormed(adj) && o < 121 && occ[o] != Empty
    ensures AllWalkable(occ, o, JumpCandidates(JumpPaths(adj, occ, o), h))
  {
    forall c | c in JumpCandidates(JumpPaths(adj, occ, o), h)
      ensures Walkable(occ, c) && c[0] == o
    {
      JumpPathWalkable(adj, occ, o, c);
    }
  }

  /**
   * The candidate paths of a tile holding a piece: the two-tile paths to
   * each valid move the heuristic accepts, then the jump paths whose every
   * hop it accepts. Each of them starts at the tile and can be walked.
   */
  function Candidates(adj: Adjacency, h: (nat, nat) -> bool, occ: Occupancy, o: nat): (cs: seq<seq<nat>>)
    requires WellFormed(adj) && o < 121 && occ[o] != Empty
    ensures AllWalkable(occ, o, cs)
  {
    ValidMovesLand(adj, occ, o);
    StepCandidatesWalkable(occ, o, ValidMoves(adj, occ, o), h);
    JumpCandidatesWalkable(adj, occ, o, h);
    StepCandidates(o, ValidMoves(adj, occ, o), h) + JumpCandidates(JumpPaths(adj, occ, o), h)
  }

  /** The candidate lists of the program: Candidates on a tile holding a piece, nothing elsewhere. */
  function BoardCandidates(adj: Adjacency, h: (nat, nat) -> bool): (gen: (Occupancy, nat) -> seq<seq<nat>>)
    requires WellFormed(adj)
    ensures forall occ: Occupancy, o: nat | o < 121 && occ[o] != Empty :: gen(occ, o) == Candidates(adj, h, occ, o)
  {
    (occ: Occupancy, o: nat) => if o < 121 && occ[o] != Empty then Candidates(adj, h, occ, o) else []
  }

  /** The setting of a search on the board with neighbour dictionaries adj and heuristic h. */
  function BoardSetting(adj: Adjacency, h: (nat, nat) -> bool, isPlayer1Turn: bool, useEvalFunc1: bool,
                        eval1: Tables, eval2: Tables): (s: Setting)
    requires WellFormed(adj) && Sized(eval1) && Sized(eval2)
    ensures Ready(s)
    ensures forall occ: Occupancy, o: nat | o < 121 && occ[o] != Empty :: s.candidates(occ, o) == Candidates(adj, h, occ, o)
  {
    Setting(isPlayer1Turn, useEvalFunc1, eval1, eval2, BoardCandidates(adj, h))
  }

  /** A candidate of some tile of the side to move. */
  predicate IsCandidate(s: Setting, occ: Occupancy, maximizing: bool, p: seq<nat>)
  {
    exists t | 0 <= t < 121 && occ[t] == Mover(s, maximizing) :: p in s.candidates(occ, t)
  }

  /** The board a candidate leads to (apply_path). */
  function Child(occ: Occupancy, c: seq<nat>): Occupancy
    requires OnBoard(c)
  {
    ApplyPath(occ, c).1
  }

  // ---------------------------------------------------------------------
  // The pruned search as written
  // ---------------------------------------------------------------------

  /**
   * The loop state of one ply: whether some candidate was searched
   * (found_any_move), the best score and path so far (max_points or
   * min_points, best_path) and the current window.
   */
  datatype Acc = Acc(found: bool, best: int, path: seq<nat>, alpha: int, beta: int)

  function Max(a: int, b: int): int { if a >= b then a else b }
  function Min(a: int, b: int): int { if a <= b then a else b }

  /**
   * The bookkeeping after one child returned `points`: a strictly better
   * score (or the first one) replaces best and path, and alpha (maximising)
   * or beta (minimising) moves towards it.
   */
  function Update(maximizing: bool, acc: Acc, points: int, c: seq<nat>): (r: Acc)
    ensures r.found
    ensures maximizing ==> r.alpha == Max(acc.alpha, points) && r.beta == acc.beta
    ensures !maximizing ==> r.beta == Min(acc.beta, points) && r.alpha == acc.alpha
    ensures (!acc.found || (maximizing && points > acc.best) || (!maximizing && points < acc.best)) ==> r.best == points && r.path == c
    ensures (acc.found && ((maximizing && points <= acc.best) || (!maximizing && points >= acc.best))) ==> r.best == acc.best && r.path == acc.path
  {
    if maximizing then
      var improved := !acc.found || points > acc.best;
      Acc(true, if improved then points else acc.best, if improved then c else acc.path, Max(acc.alpha, points), acc.beta)
    else
      var improved := !acc.found || points < acc.best;
      Acc(true, if improved then points else acc.best, if improved then c else acc.path, acc.alpha, Min(acc.beta, points))
  }

  /**
   * minimax_pruning: at depth 0 or on a finished game the score plus the
   * remaining depth and no path; otherwise the tiles of the side to move
   * in flat order, each candidate applied, searched one ply deeper with
   * the other role and undone, stopping once beta <= alpha; with no
   * candidate at all, the plain score and no path.
   */
  function Search(s: Setting, occ: Occupancy, depth: nat, maximizing: bool, alpha: int, beta: int): (r: (int, seq<nat>))
    requires Ready(s)
    ensures depth == 0 || GameEnded(occ) ==> r == (Score(s, occ) + depth, [])
    ensures r.1 == [] || IsCandidate(s, occ, maximizing, r.1)
    decreases depth, 2
  {
    if depth == 0 || GameEnded(occ) then (Score(s, occ) + depth, [])
    else
      var acc := TileLoop(s, occ, depth, maximizing, 0, Acc(false, 0, [], alpha, beta));
      if !acc.found then (Score(s, occ), []) else (acc.best, acc.path)
  }

  /** The loop over the tiles t, t+1, ... of the side to move. */
  function TileLoop(s: Setting, occ: Occupancy, depth: nat, maximizing: bool, t: nat, acc: Acc): (r: Acc)
    requires Ready(s) && depth > 0 && t <= 121
    ensures r.path == acc.path || IsCandidate(s, occ, maximizing, r.path)
    decreases depth, 1, 121 - t
  {
    if t == 121 then acc
    else if occ[t] != Mover(s, maximizing) then TileLoop(s, occ, depth, maximizing, t + 1, acc)
    else
      var acc' := PathLoop(s, occ, depth, maximizing, t, s.candidates(occ, t), 0, acc);
      if acc'.beta <= acc'.alpha then acc' else TileLoop(s, occ, depth, maximizing, t + 1, acc')
  }

  /** The loop over the candidates cs[i..] of tile t. */
  function PathLoop(s: Setting, occ: Occupancy, depth: nat, maximizing: bool, t: nat, cs: seq<seq<nat>>, i: nat, acc: Acc): (r: Acc)
    requires Ready(s) && depth > 0 && t < 121 && occ[t] == Mover(s, maximizing) && cs == s.candidates(occ, t) && i <= |cs|
    ensures r.path == acc.path || IsCandidate(s, occ, maximizing, r.path)
    decreases depth, 0, |cs| - i
  {
    if i == |cs| then acc
    else
      assert cs[i] in cs;
      var points := Search(s, Child(occ, cs[i]), depth - 1, !maximizing, acc.alpha, acc.beta).0;
      var acc' := Update(maximizing, acc, points, cs[i]);
      if acc'.beta <= acc'.alpha then acc' else PathLoop(s, occ, depth, maximizing, t, cs, i + 1, acc')
  }

  // ---------------------------------------------------------------------
  // The reference: minimax without pruning
  // ---------------------------------------------------------------------

  /** The best child so far of an unpruned ply. */
  datatype Best = Best(found: bool, best: int, path: seq<nat>)

  /** The first strictly better child replaces the best so far. */
  function Improve(maximizing: bool, b: Best, points: int, c: seq<nat>): (r: Best)
    ensures r.found
    ensures maximizing && b.found ==> r.best == Max(b.best, points)
    ensures !maximizing && b.found ==> r.best == Min(b.best, points)
    ensures !b.found ==> r.best == points && r.path == c
  {
    if !b.found || (maximizing && points > b.best) || (!maximizing && points < b.best) then Best(true, points, c)
    else b
  }

  /** The value of the game tree over the same candidate lists, every child searched, ties to the earliest. */
  function Unpruned(s: Setting, occ: Occupancy, depth: nat, maximizing: bool): (r: (int, seq<nat>))
    requires Ready(s)
    ensures depth == 0 || GameEnded(occ) ==> r == (Score(s, occ) + depth, [])
    decreases depth, 2
  {
    if depth == 0 || GameEnded(occ) then (Score(s, occ) + depth, [])
    else
      var b := UnprunedTiles(s, occ, depth, maximizing, 0, Best(false, 0, []));
      if !b.found then (Score(s, occ), []) else (b.best, b.path)
  }

  function UnprunedTiles(s: Setting, occ: Occupancy, depth: nat, maximizing: bool, t: nat, b: Best): (r: Best)
    requires Ready(s) && depth > 0 && t <= 121
    decreases depth, 1, 121 - t
  {
    if t == 121 then b
    else if occ[t] != Mover(s, maximizing) then UnprunedTiles(s, occ, depth, maximizing, t + 1, b)
    else UnprunedTiles(s, occ, depth, maximizing, t + 1, UnprunedPaths(s, occ, depth, maximizing, t, s.candidates(occ, t), 0, b))
  }

  function UnprunedPaths(s: Setting, occ: Occupancy, depth: nat, maximizing: bool, t: nat, cs: seq<seq<nat>>, i: nat, b: Best): (r: Best)
    requires Ready(s) && depth > 0 && t < 121 && occ[t] == Mover(s, maximizing) && cs == s.candidates(occ, t) && i <= |cs|
    decreases depth, 0, |cs| - i
  {
    if i == |cs| then b
    else
      assert cs[i] in cs;
      UnprunedPaths(s, occ, depth, maximizing, t, cs, i + 1, Improve(maximizing, b, Unpruned(s, Child(occ, cs[i]), depth - 1, !maximizing).0, cs[i]))
  }

  // ---------------------------------------------------------------------
  // Pruning does not change the answer
  // ---------------------------------------------------------------------

  /**
   * The fail-soft relation between a pruned result r, searched with the
   * window (alpha, beta), and the unpruned value v: at or below alpha r is
   * an upper bound of v, at or above beta a lower bound, and strictly
   * inside the window r is v, score and path.
   */
  predicate Rel(r: (int, seq<nat>), v: (int, seq<nat>), alpha: int, beta: int)
  {
    (r.0 <= alpha ==> v.0 <= r.0) && (r.0 >= beta ==> v.0 >= r.0) && (alpha < r.0 < beta ==> r == v)
  }

  /** What the pruned loop state and the unpruned one share while no cut has happened. */
  predicate Inv(maximizing: bool, alpha: int, beta: int, acc: Acc, b: Best)
  {
    acc.found == b.found && acc.alpha < acc.beta
    && (if maximizing then
          acc.beta == beta && acc.alpha == (if acc.found then Max(alpha, acc.best) else alpha)
          && (acc.found ==> (acc.best <= alpha ==> b.best <= acc.best)
                            && (acc.best > alpha ==> acc.best == b.best && acc.path == b.path))
        else
          acc.alpha == alpha && acc.beta == (if acc.found then Min(beta, acc.best) else beta)
          && (acc.found ==> (acc.best >= beta ==> b.best >= acc.best)
                            && (acc.best < beta ==> acc.best == b.best && acc.path == b.path)))
  }

  /** After a cut: the pruned best lies beyond the window and the unpruned best is at least as extreme. */
  predicate CutOff(maximizing: bool, alpha: int, beta: int, acc: Acc, b: Best)
  {
    acc.found && b.found
    && (maximizing ==> acc.best >= beta && b.best >= acc.best)
    && (!maximizing ==> acc.best <= alpha && b.best <= acc.best)
  }

  /** One child: the pruned bookkeeping and the unpruned one, given the fail-soft relation for the child. */
  lemma UpdateRel(maximizing: bool, alpha: int, beta: int, acc: Acc, b: Best, points: int, value: int, c: seq<nat>)
    requires alpha < beta && Inv(maximizing, alpha, beta, acc, b)
    requires Rel((points, []), (value, []), acc.alpha, acc.beta)
    ensures var acc' := Update(maximizing, acc, points, c);
            var b' := Improve(maximizing, b, value, c);
            if acc'.beta <= acc'.alpha then CutOff(maximizing, alpha, beta, acc', b') else Inv(maximizing, alpha, beta, acc', b')
  {
  }

  /** The unpruned best only moves in the direction of the ply. */
  lemma {:induction false} UnprunedPathsMono(s: Setting, occ: Occupancy, depth: nat, maximizing: bool, t: nat, cs: seq<seq<nat>>, i: nat, b: Best)
    requires Ready(s) && depth > 0 && t < 121 && occ[t] == Mover(s, maximizing) && cs == s.candidates(occ, t) && i <= |cs|
    ensures var r := UnprunedPaths(s, occ, depth, maximizing, t, cs, i, b);
            (b.found ==> r.found) && (b.found && maximizing ==> r.best >= b.best) && (b.found && !maximizing ==> r.best <= b.best)
    decreases |cs| - i
  {
    if i < |cs| {
      assert cs[i] in cs;
      UnprunedPathsMono(s, occ, depth, maximizing, t, cs, i + 1, Improve(maximizing, b, Unpruned(s, Child(occ, cs[i]), depth - 1, !maximizing).0, cs[i]));
    }
  }

  lemma {:induction false} UnprunedTilesMono(s: Setting, occ: Occupancy, depth: nat, maximizing: bool, t: nat, b: Best)
    requires Ready(s) && depth > 0 && t <= 121
    ensures var r := UnprunedTiles(s, occ, depth, maximizing, t, b);
            (b.found ==> r.found) && (b.found && maximizing ==> r.best >= b.best) && (b.found && !maximizing ==> r.best <= b.best)
    decreases 121 - t
  {
    if t < 121 {
      if occ[t] != Mover(s, maximizing) {
        UnprunedTilesMono(s, occ, depth, maximizing, t + 1, b);
      } else {
        var cs := s.candidates(occ, t);
        UnprunedPathsMono(s, occ, depth, maximizing, t, cs, 0, b);
        UnprunedTilesMono(s, occ, depth, maximizing, t + 1, UnprunedPaths(s, occ, depth, maximizing, t, cs, 0, b));
      }
    }
  }

  /**
   * Fail-soft correctness of minimax_pruning: with alpha < beta its result
   * and the unpruned minimax value stand in the relation Rel.
   */
  lemma {:induction false} FailSoft(s: Setting, occ: Occupancy, depth: nat, maximizing: bool, alpha: int, beta: int)
    requires Ready(s) && alpha < beta
    ensures Rel(Search(s, occ, depth, maximizing, alpha, beta), Unpruned(s, occ, depth, maximizing), alpha, beta)
    decreases depth, 2
  {
    if depth > 0 && !GameEnded(occ) {
      TilesRel(s, occ, depth, maximizing, alpha, beta, 0, Acc(false, 0, [], alpha, beta), Best(false, 0, []));
    }
  }

  lemma {:induction false} TilesRel(s: Setting, occ: Occupancy, depth: nat, maximizing: bool, alpha: int, beta: int, t: nat, acc: Acc, b: Best)
    requires Ready(s) && depth > 0 && t <= 121 && alpha < beta && Inv(maximizing, alpha, beta, acc, b)
    ensures var r := TileLoop(s, occ, depth, maximizing, t, acc);
            var v := UnprunedTiles(s, occ, depth, maximizing, t, b);
            r.found == v.found && (r.found ==> Rel((r.best, r.path), (v.best, v.path), alpha, beta))
    decreases depth, 1, 121 - t
  {
    if t < 121 {
      if occ[t] != Mover(s, maximizing) {
        TilesRel(s, occ, depth, maximizing, alpha, beta, t + 1, acc, b);
      } else {
        var cs := s.candidates(occ, t);
        PathsRel(s, occ, depth, maximizing, alpha, beta, t, cs, 0, acc, b);
        var acc' := PathLoop(s, occ, depth, maximizing, t, cs, 0, acc);
        var b' := UnprunedPaths(s, occ, depth, maximizing, t, cs, 0, b);
        if acc'.beta <= acc'.alpha {
          UnprunedTilesMono(s, occ, depth, maximizing, t + 1, b');
        } else {
          TilesRel(s, occ, depth, maximizing, alpha, beta, t + 1, acc', b');
        }
      }
    }
  }

  lemma {:induction false} PathsRel(s: Setting, occ: Occupancy, depth: nat, maximizing: bool, alpha: int, beta: int,
                                    t: nat, cs: seq<seq<nat>>, i: nat, acc: Acc, b: Best)
    requires Ready(s) && depth > 0 && t < 121 && occ[t] == Mover(s, maximizing) && cs == s.candidates(occ, t) && i <= |cs|
    requires alpha < beta && Inv(maximizing, alpha, beta, acc, b)
    ensures var r := PathLoop(s, occ, depth, maximizing, t, cs, i, acc);
            var v := UnprunedPaths(s, occ, depth, maximizing, t, cs, i, b);
            if r.beta <= r.alpha then CutOff(maximizing, alpha, beta, r, v) else Inv(maximizing, alpha, beta, r, v)
    decreases depth, 0, |cs| - i
  {
    if i < |cs| {
      assert cs[i] in cs;
      var child := Child(occ, cs[i]);
      FailSoft(s, child, depth - 1, !maximizing, acc.alpha, acc.beta);
      var points := Search(s, child, depth - 1, !maximizing, acc.alpha, acc.beta).0;
      var value := Unpruned(s, child, depth - 1, !maximizing).0;
      UpdateRel(maximizing, alpha, beta, acc, b, points, value, cs[i]);
      var acc' := Update(maximizing, acc, points, cs[i]);
      var b' := Improve(maximizing, b, value, cs[i]);
      assert UnprunedPaths(s, occ, depth, maximizing, t, cs, i, b) == UnprunedPaths(s, occ, depth, maximizing, t, cs, i + 1, b');
      if acc'.beta <= acc'.alpha {
        assert PathLoop(s, occ, depth, maximizing, t, cs, i, acc) == acc';
        UnprunedPathsMono(s, occ, depth, maximizing, t, cs, i + 1, b');
      } else {
        assert PathLoop(s, occ, depth, maximizing, t, cs, i, acc) == PathLoop(s, occ, depth, maximizing, t, cs, i + 1, acc');
        PathsRel(s, occ, depth, maximizing, alpha, beta, t, cs, i + 1, acc', b');
      }
    }
  }

  /** Every entry of both score tables lies in [-bound, bound]. */
  predicate Bounded(s: Setting, bound: int)
  {
    TablesBounded(s.eval1, bound) && TablesBounded(s.eval2, bound)
  }

  /** The largest static score in absolute value. */
  function Limit(bound: int): int
  {
    WinScore + 242 * bound
  }

  /** A minimax value lies between -Limit and Limit plus the depth. */
  lemma {:induction false} UnprunedBounded(s: Setting, occ: Occupancy, depth: nat, maximizing: bool, bound: int)
    requires Ready(s) && Bounded(s, bound)
    ensures -Limit(bound) <= Unpruned(s, occ, depth, maximizing).0 <= Limit(bound) + depth
    decreases depth, 2
  {
    GetScoreBounded(occ, s.isPlayer1Turn, s.useEvalFunc1, s.eval1, s.eval2, bound);
    if depth > 0 && !GameEnded(occ) {
      UnprunedTilesBounded(s, occ, depth, maximizing, bound, 0, Best(false, 0, []));
    }
  }

  lemma {:induction false} UnprunedTilesBounded(s: Setting, occ: Occupancy, depth: nat, maximizing: bool, bound: int, t: nat, b: Best)
    requires Ready(s) && Bounded(s, bound) && depth > 0 && t <= 121
    requires b.found ==> -Limit(bound) <= b.best <= Limit(bound) + depth - 1
    ensures var r := UnprunedTiles(s, occ, depth, maximizing, t, b);
            r.found ==> -Limit(bound) <= r.best <= Limit(bound) + depth - 1
    decreases depth, 1, 121 - t
  {
    if t < 121 {
      if occ[t] != Mover(s, maximizing) {
        UnprunedTilesBounded(s, occ, depth, maximizing, bound, t + 1, b);
      } else {
        var cs := s.candidates(occ, t);
        UnprunedPathsBounded(s, occ, depth, maximizing, bound, t, cs, 0, b);
        UnprunedTilesBounded(s, occ, depth, maximizing, bound, t + 1, UnprunedPaths(s, occ, depth, maximizing, t, cs, 0, b));
      }
    }
  }

  lemma {:induction false} UnprunedPathsBounded(s: Setting, occ: Occupancy, depth: nat, maximizing: bool, bound: int,
                                                t: nat, cs: seq<seq<nat>>, i: nat, b: Best)
    requires Ready(s) && Bounded(s, bound) && depth > 0 && t < 121 && occ[t] == Mover(s, maximizing) && cs == s.candidates(occ, t) && i <= |cs|
    requires b.found ==> -Limit(bound) <= b.best <= Limit(bound) + depth - 1
    ensures var r := UnprunedPaths(s, occ, depth, maximizing, t, cs, i, b);
            r.found ==> -Limit(bound) <= r.best <= Limit(bound) + depth - 1
    decreases depth, 0, |cs| - i
  {
    if i < |cs| {
      assert cs[i] in cs;
      var child := Child(occ, cs[i]);
      UnprunedBounded(s, child, depth - 1, !maximizing, bound);
      UnprunedPathsBounded(s, occ, depth, maximizing, bound, t, cs, i + 1,
                           Improve(maximizing, b, Unpruned(s, child, depth - 1, !maximizing).0, cs[i]));
    }
  }

  /**
   * The root call of minimax_pruning, with the window (-1e9, 1e9), returns
   * exactly the unpruned minimax score and the same first-best path, as
   * long as the score tables and the depth keep every score inside it.
   */
  lemma RootAgrees(s: Setting, occ: Occupancy, depth: nat, maximizing: bool, bound: int)
    requires Ready(s) && Bounded(s, bound) && Limit(bound) + depth < 1_000_000_000
    ensures Search(s, occ, depth, maximizing, -1_000_000_000, 1_000_000_000) == Unpruned(s, occ, depth, maximizing)
  {
    FailSoft(s, occ, depth, maximizing, -1_000_000_000, 1_000_000_000);
    UnprunedBounded(s, occ, depth, maximizing, bound);
  }

  // ---------------------------------------------------------------------
  // What the unpruned value is: the first best child
  // ---------------------------------------------------------------------

  /** The candidates of the side to move on tiles t..120, tile by tile in flat order. */
  function MoverCandidates(s: Setting, occ: Occupancy, maximizing: bool, t: nat): (cs: seq<seq<nat>>)
    requires Ready(s) && t <= 121
    ensures forall c | c in cs :: Walkable(occ, c)
    ensures forall k | 0 <= k < |cs| :: Walkable(occ, cs[k])
    decreases 121 - t
  {
    if t == 121 then []
    else if occ[t] != Mover(s, maximizing) then MoverCandidates(s, occ, maximizing, t + 1)
    else s.candidates(occ, t) + MoverCandidates(s, occ, maximizing, t + 1)
  }

  /** The minimax value of the board a candidate leads to. */
  function ChildValue(s: Setting, occ: Occupancy, depth: nat, maximizing: bool, c: seq<nat>): int
    requires Ready(s) && depth > 0 && OnBoard(c)
  {
    Unpruned(s, Child(occ, c), depth - 1, !maximizing).0
  }

  /** Improve over a flat list of candidates. */
  function Fold(s: Setting, occ: Occupancy, depth: nat, maximizing: bool, cs: seq<seq<nat>>, b: Best): Best
    requires Ready(s) && depth > 0 && forall c | c in cs :: OnBoard(c)
  {
    if |cs| == 0 then b
    else Fold(s, occ, depth, maximizing, cs[1..], Improve(maximizing, b, ChildValue(s, occ, depth, maximizing, cs[0]), cs[0]))
  }

  lemma {:induction false} FoldConcat(s: Setting, occ: Occupancy, depth: nat, maximizing: bool, xs: seq<seq<nat>>, ys: seq<seq<nat>>, b: Best)
    requires Ready(s) && depth > 0 && (forall c | c in xs :: OnBoard(c)) && forall c | c in ys :: OnBoard(c)
    ensures Fold(s, occ, depth, maximizing, xs + ys, b) == Fold(s, occ, depth, maximizing, ys, Fold(s, occ, depth, maximizing, xs, b))
  {
    if |xs| == 0 {
      assert xs + ys == ys;
    } else {
      assert (xs + ys)[1..] == xs[1..] + ys;
      FoldConcat(s, occ, depth, maximizing, xs[1..], ys, Improve(maximizing, b, ChildValue(s, occ, depth, maximizing, xs[0]), xs[0]));
    }
  }

  lemma {:induction false} PathsAsFold(s: Setting, occ: Occupancy, depth: nat, maximizing: bool, t: nat, cs: seq<seq<nat>>, i: nat, b: Best)
    requires Ready(s) && depth > 0 && t < 121 && occ[t] == Mover(s, maximizing) && cs == s.candidates(occ, t) && i <= |cs|
    ensures forall c | c in cs[i..] :: OnBoard(c)
    ensures UnprunedPaths(s, occ, depth, maximizing, t, cs, i, b) == Fold(s, occ, depth, maximizing, cs[i..], b)
    decreases |cs| - i
  {
    assert forall c | c in cs[i..] :: c in cs;
    if i < |cs| {
      assert cs[i] in cs;
      assert cs[i..][1..] == cs[i + 1..];
      PathsAsFold(s, occ, depth, maximizing, t, cs, i + 1, Improve(maximizing, b, ChildValue(s, occ, depth, maximizing, cs[i]), cs[i]));
    }
  }

  lemma {:induction false} TilesAsFold(s: Setting, occ: Occupancy, depth: nat, maximizing: bool, t: nat, b: Best)
    requires Ready(s) && depth > 0 && t <= 121
    ensures UnprunedTiles(s, occ, depth, maximizing, t, b) == Fold(s, occ, depth, maximizing, MoverCandidates(s, occ, maximizing, t), b)
    decreases 121 - t
  {
    if t < 121 {
      if occ[t] != Mover(s, maximizing) {
        TilesAsFold(s, occ, depth, maximizing, t + 1, b);
      } else {
        var cs := s.candidates(occ, t);
        PathsAsFold(s, occ, depth, maximizing, t, cs, 0, b);
        assert cs[0..] == cs;
        var b' := UnprunedPaths(s, occ, depth, maximizing, t, cs, 0, b);
        TilesAsFold(s, occ, depth, maximizing, t + 1, b');
        FoldConcat(s, occ, depth, maximizing, cs, MoverCandidates(s, occ, maximizing, t + 1), b);
      }
    }
  }

  /** `x` is at least as good as `y` for the side that plays the ply. */
  predicate AtLeast(maximizing: bool, x: int, y: int)
  {
    if maximizing then x >= y else x <= y
  }

  /**
   * Folding from nothing over a non-empty list ends on the first entry of
   * best value: its value is at least as good as every entry's, and
   * strictly better than every earlier entry's.
   */
  lemma {:induction false} FoldFirstBest(s: Setting, occ: Occupancy, depth: nat, maximizing: bool, cs: seq<seq<nat>>, b: Best)
    requires Ready(s) && depth > 0 && forall c | c in cs :: OnBoard(c)
    requires !b.found ==> |cs| > 0
    ensures var r := Fold(s, occ, depth, maximizing, cs, b);
            r.found
            && (forall j | 0 <= j < |cs| :: AtLeast(maximizing, r.best, ChildValue(s, occ, depth, maximizing, cs[j])))
            && (b.found ==> AtLeast(maximizing, r.best, b.best))
            && ((b.found && r == b) || exists k | 0 <= k < |cs| ::
                  r == Best(true, ChildValue(s, occ, depth, maximizing, cs[k]), cs[k])
                  && (b.found ==> !AtLeast(maximizing, b.best, r.best))
                  && forall j | 0 <= j < k :: !AtLeast(maximizing, ChildValue(s, occ, depth, maximizing, cs[j]), r.best))
  {
    if |cs| > 0 {
      var v := ChildValue(s, occ, depth, maximizing, cs[0]);
      var b' := Improve(maximizing, b, v, cs[0]);
      FoldFirstBest(s, occ, depth, maximizing, cs[1..], b');
      var r := Fold(s, occ, depth, maximizing, cs, b);
      forall j | 1 <= j < |cs| ensures cs[j] == cs[1..][j - 1] { }
      if r == b' {
        if b.found && r == b {
        } else {
          assert r == Best(true, v, cs[0]);
        }
      } else {
        var k :| 0 <= k < |cs[1..]| && r == Best(true, ChildValue(s, occ, depth, maximizing, cs[1..][k]), cs[1..][k])
                 && !AtLeast(maximizing, b'.best, r.best)
                 && forall j | 0 <= j < k :: !AtLeast(maximizing, ChildValue(s, occ, depth, maximizing, cs[1..][j]), r.best);
        assert r == Best(true, ChildValue(s, occ, depth, maximizing, cs[k + 1]), cs[k + 1]);
      }
    }
  }

  /**
   * The unpruned value of a ply with moves is the value of its first best
   * candidate over the tiles in flat order: at least as good as every
   * candidate's, strictly better than every earlier one's; with no
   * candidate it is the plain score and no path.
   */
  lemma UnprunedFirstBest(s: Setting, occ: Occupancy, depth: nat, maximizing: bool)
    requires Ready(s) && depth > 0 && !GameEnded(occ)
    ensures var cs := MoverCandidates(s, occ, maximizing, 0);
            var r := Unpruned(s, occ, depth, maximizing);
            (|cs| == 0 ==> r == (Score(s, occ), []))
            && (|cs| > 0 ==> exists k | 0 <= k < |cs| ::
                  r == (ChildValue(s, occ, depth, maximizing, cs[k]), cs[k])
                  && (forall j | 0 <= j < |cs| :: AtLeast(maximizing, r.0, ChildValue(s, occ, depth, maximizing, cs[j])))
                  && forall j | 0 <= j < k :: !AtLeast(maximizing, ChildValue(s, occ, depth, maximizing, cs[j]), r.0))
  {
    var cs := MoverCandidates(s, occ, maximizing, 0);
    TilesAsFold(s, occ, depth, maximizing, 0, Best(false, 0, []));
    if |cs| > 0 {
      FoldFirstBest(s, occ, depth, maximizing, cs, Best(false, 0, []));
    }
  }

  lemma {:induction false} TileLoopWithoutCandidates(s: Setting, occ: Occupancy, depth: nat, maximizing: bool, t: nat, acc: Acc)
    requires Ready(s) && depth > 0 && t <= 121 && MoverCandidates(s, occ, maximizing, t) == []
    ensures TileLoop(s, occ, depth, maximizing, t, acc) == acc
    decreases 121 - t
  {
    if t < 121 {
      if occ[t] == Mover(s, maximizing) {
        assert s.candidates(occ, t) == [];
      }
      TileLoopWithoutCandidates(s, occ, depth, maximizing, t + 1, acc);
    }
  }

  /** With no candidate for the side to move, minimax_pruning returns the plain score (no depth bonus) and no path. */
  lemma SearchWithoutCandidates(s: Setting, occ: Occupancy, depth: nat, maximizing: bool, alpha: int, beta: int)
    requires Ready(s) && depth > 0 && !GameEnded(occ) && MoverCandidates(s, occ, maximizing, 0) == []
    ensures Search(s, occ, depth, maximizing, alpha, beta) == (Score(s, occ), [])
  {
    TileLoopWithoutCandidates(s, occ, depth, maximizing, 0, Acc(false, 0, [], alpha, beta));
  }
}
