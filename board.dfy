/**
 * The mutable Board of aiServer/Board.py: the occupancy of the 121 tiles
 * and the four per-tile score tables live in arrays that the methods
 * update in place, the way the Python methods update the Tile objects.
 * Each method is proved against the functions of the other modules.
 */
module GameBoard {
  import opened Wrappers
  import opened Topology
  import opened Rules
  import opened Jumps
  import opened Paths

  // ---------------------------------------------------------------------
  // Score tables (Board.py:325-367)
  // ---------------------------------------------------------------------

  /**
   * set_score1_for_player1/2 of the unseen Tile class, as assumed here: the
   * tile keeps the larger of its score and the offered one, and answers
   * whether the offered one was larger.
   */
  function SetScore(stored: int, offered: int): (r: (bool, int))
    ensures r.1 == (if offered > stored then offered else stored)
    ensures r.0 <==> r.1 > stored
  {
    if offered > stored then (true, offered) else (false, stored)
  }

  /** A tile whose score the propagation has explored: the seed, or one whose score it raised. */
  predicate Settled(init: seq<int>, sc: seq<int>, seed: nat, u: nat)
    requires |init| == 121 && |sc| == 121 && u < 121
  {
    u == seed || sc[u] > init[u]
  }

  /** The largest score the propagation can produce: 16, or the seed's own score if larger. */
  function Ceiling(init: seq<int>, seed: nat): int
    requires |init| == 121 && seed < 121
  {
    if init[seed] > 16 then init[seed] else 16
  }

  function Cap(init: seq<int>, seed: nat, t: nat): int
    requires |init| == 121 && seed < 121 && t < 121
  {
    if init[t] > Ceiling(init, seed) then init[t] else Ceiling(init, seed)
  }

  /** No score fell below its initial value or rose above its cap. */
  predicate InBounds(init: seq<int>, sc: seq<int>, seed: nat)
    requires seed < 121
  {
    |init| == 121 && |sc| == 121 && forall t | 0 <= t < 121 :: init[t] <= sc[t] <= Cap(init, seed, t)
  }

  predicate AllSettled(init: seq<int>, sc: seq<int>, seed: nat, pending: seq<nat>)
    requires |init| == 121 && |sc| == 121
  {
    forall x | x in pending :: x < 121 && Settled(init, sc, seed, x)
  }

  /** An explored tile's score never exceeds the ceiling, so the scores it offers stay below every cap. */
  lemma SettledBelowCeiling(init: seq<int>, sc: seq<int>, seed: nat, u: nat)
    requires seed < 121 && u < 121 && InBounds(init, sc, seed) && Settled(init, sc, seed, u)
    ensures sc[u] <= Ceiling(init, seed)
  {
  }

  /** Every explored tile u outside `pending` has given each neighbour at least its own score minus one. */
  predicate Closed(adj: Adjacency, init: seq<int>, sc: seq<int>, seed: nat, pending: seq<nat>)
    requires WellFormed(adj) && |init| == 121 && |sc| == 121
  {
    forall u, k | 0 <= u < 121 && 0 <= k < |adj[u]| && Settled(init, sc, seed, u) && u !in pending :: sc[adj[u][k].tile] >= sc[u] - 1
  }

  /**
   * The state of the propagation part-way through tile u's neighbours:
   * the first k of them hold at least su - 1, every other explored tile
   * outside the pending list is closed, and the pending list only grew.
   */
  predicate Relaxing(adj: Adjacency, init: seq<int>, sc: seq<int>, seed: nat, u: nat, su: int, k: nat, pending: seq<nat>, pending': seq<nat>)
    requires WellFormed(adj) && seed < 121
  {
    InBounds(init, sc, seed) && sc[seed] >= 16
    && u < 121 && k <= |adj[u]| && sc[u] == su && su <= Ceiling(init, seed) && Settled(init, sc, seed, u)
    && AllSettled(init, sc, seed, pending')
    && (forall x | x in pending :: x in pending')
    && (forall j | 0 <= j < k :: sc[adj[u][j].tile] >= su - 1)
    && (forall w, j | 0 <= w < 121 && 0 <= j < |adj[w]| && w != u && Settled(init, sc, seed, w) && w !in pending'
          :: sc[adj[w][j].tile] >= sc[w] - 1)
  }

  lemma RelaxStart(adj: Adjacency, init: seq<int>, sc: seq<int>, seed: nat, u: nat, pending: seq<nat>)
    requires WellFormed(adj) && seed < 121 && u < 121
    requires InBounds(init, sc, seed) && sc[seed] >= 16
    requires Settled(init, sc, seed, u) && AllSettled(init, sc, seed, pending)
    requires Closed(adj, init, sc, seed, [u] + pending)
    ensures Relaxing(adj, init, sc, seed, u, sc[u], 0, pending, pending)
  {
    SettledBelowCeiling(init, sc, seed, u);
    forall w, j | 0 <= w < 121 && 0 <= j < |adj[w]| && w != u && Settled(init, sc, seed, w) && w !in pending
      ensures sc[adj[w][j].tile] >= sc[w] - 1
    {
      assert w !in [u] + pending;
    }
  }

  /** Offering neighbour k of u the score su - 1 keeps the state, one neighbour further on. */
  lemma RelaxStep(adj: Adjacency, init: seq<int>, sc: seq<int>, seed: nat, u: nat, su: int, k: nat, pending: seq<nat>, pending': seq<nat>)
    requires WellFormed(adj) && seed < 121
    requires Relaxing(adj, init, sc, seed, u, su, k, pending, pending') && k < |adj[u]|
    ensures var v := adj[u][k].tile; var (raised, x) := SetScore(sc[v], su - 1);
      if raised then v != u && Relaxing(adj, init, sc[v := x], seed, u, su, k + 1, pending, pending' + [v])
      else Relaxing(adj, init, sc, seed, u, su, k + 1, pending, pending')
  {
    var v := adj[u][k].tile;
    var (raised, x) := SetScore(sc[v], su - 1);
    if raised {
      var sc' := sc[v := x];
      assert InBounds(init, sc', seed);
      forall w, j | 0 <= w < 121 && 0 <= j < |adj[w]| && w != u && Settled(init, sc', seed, w) && w !in pending' + [v]
        ensures sc'[adj[w][j].tile] >= sc'[w] - 1
      {
        assert w != v && Settled(init, sc, seed, w) && w !in pending';
      }
    }
  }

  lemma RelaxDone(adj: Adjacency, init: seq<int>, sc: seq<int>, seed: nat, u: nat, su: int, pending: seq<nat>, pending': seq<nat>)
    requires WellFormed(adj) && seed < 121 && u < 121
    requires Relaxing(adj, init, sc, seed, u, su, |adj[u]|, pending, pending')
    ensures Closed(adj, init, sc, seed, pending')
  {
  }

  /**
   * The score table `sc` after the breadth-first propagation from `seed`
   * over the table `init`: no score went down, none rose above the cap,
   * the seed holds at least 16, and every explored tile has given each
   * neighbour at least its own score minus one.
   */
  predicate Propagated(adj: Adjacency, init: seq<int>, sc: seq<int>, seed: nat)
    requires WellFormed(adj) && seed < 121
  {
    InBounds(init, sc, seed) && sc[seed] >= 16
    && Closed(adj, init, sc, seed, [])
  }

  /** A walk through the neighbour dictionaries: item ks[i] of w[i]'s dictionary leads to w[i+1]. */
  predicate Walk(adj: Adjacency, w: seq<nat>, ks: seq<nat>)
    requires WellFormed(adj)
  {
    |w| >= 1 && |ks| == |w| - 1 && AllTiles121(w)
    && forall i | 0 <= i < |ks| :: ks[i] < |adj[w[i]]| && adj[w[i]][ks[i]].tile == w[i + 1]
  }

  /**
   * What the propagation is for: when every initial score is at most
   * `low`, a tile n steps from the seed with n + low < 16 ends with a
   * score of at least 16 - n.
   */
  lemma {:induction false} PropagatedAlongWalk(adj: Adjacency, init: seq<int>, sc: seq<int>, seed: nat, w: seq<nat>, ks: seq<nat>, low: int)
    requires WellFormed(adj) && seed < 121 && Propagated(adj, init, sc, seed)
    requires Walk(adj, w, ks) && w[0] == seed
    requires forall t | 0 <= t < 121 :: init[t] <= low
    requires |w| - 1 + low < 16
    ensures sc[w[|w| - 1]] >= 16 - (|w| - 1)
  {
    if |w| > 1 {
      var n := |w| - 1;
      PropagatedAlongWalk(adj, init, sc, seed, w[..n], ks[..n - 1], low);
      var u := w[n - 1];
      assert sc[u] >= 16 - (n - 1);
      assert Settled(init, sc, seed, u);
      assert u !in [];
      assert sc[adj[u][ks[n - 1]].tile] >= sc[u] - 1;
    }
  }

  /** The sum of the distances of sc below the caps over tiles 0..n-1 (the propagation's termination measure). */
  ghost function Gap(init: seq<int>, seed: nat, sc: seq<int>, n: nat): int
    requires |init| == 121 && |sc| == 121 && seed < 121 && n <= 121
  {
    if n == 0 then 0 else Gap(init, seed, sc, n - 1) + (Cap(init, seed, n - 1) - sc[n - 1])
  }

  lemma {:induction false} GapNonNegative(init: seq<int>, seed: nat, sc: seq<int>, n: nat)
    requires |init| == 121 && |sc| == 121 && seed < 121 && n <= 121
    requires forall t | 0 <= t < 121 :: sc[t] <= Cap(init, seed, t)
    ensures Gap(init, seed, sc, n) >= 0
  {
    if n > 0 {
      GapNonNegative(init, seed, sc, n - 1);
    }
  }

  lemma {:induction false} GapRaise(init: seq<int>, seed: nat, sc: seq<int>, n: nat, v: nat, x: int)
    requires |init| == 121 && |sc| == 121 && seed < 121 && n <= 121 && v < 121
    ensures Gap(init, seed, sc[v := x], n) == Gap(init, seed, sc, n) - (if v < n then x - sc[v] else 0)
  {
    if n > 0 {
      GapRaise(init, seed, sc, n - 1, v, x);
    }
  }

  /** A table with `bonus` added on tiles lo..lo+9 (a destination triangle). */
  function WithBonus(s: seq<int>, lo: nat, bonus: int): (r: seq<int>)
    requires |s| == 121 && lo + 10 <= 121
    ensures |r| == 121 && forall t | 0 <= t < 121 :: r[t] == s[t] + (if lo <= t < lo + 10 then bonus else 0)
  {
    seq(121, t requires 0 <= t < 121 => s[t] + (if lo <= t < lo + 10 then bonus else 0))
  }

  /** Adding a bonus and then taking it away gives the table back. */
  lemma WithBonusInverse(s: seq<int>, lo: nat, bonus: int)
    requires |s| == 121 && lo + 10 <= 121
    ensures WithBonus(WithBonus(s, lo, bonus), lo, -bonus) == s
  {
  }

  function Abs(x: int): nat
  {
    if x < 0 then -x else x
  }

  /**
   * How far column j lies from the middle of a row of `len` tiles:
   * |len // 2 - j| for odd lengths and |int((len - 1) / 2 - j)|, which is
   * |len - 1 - 2j| div 2, for even ones.
   */
  function CentreOffset(len: nat, j: nat): nat
  {
    if len % 2 == 0 then Abs(len - 1 - 2 * j) / 2 else Abs(len / 2 - j)
  }

  lemma CentreOffsetBound(r: nat, c: nat)
    requires ValidPos(r, c)
    ensures CentreOffset(RowSizes[r], c) <= 6
  {
  }

  /** Player1's evaluation-2 score of tile (r, c) as Board.py:350-354 computes it: the even rows use the literal 1*10. */
  function Score2Player1AsWritten(r: nat, c: nat): int
    requires r < 17
  {
    if RowSizes[r] % 2 == 0 then 1 * 10 - CentreOffset(RowSizes[r], c) else r * 10 - CentreOffset(RowSizes[r], c)
  }

  /** Player1's evaluation-2 score with the row factor i*10 on every row, as on the odd rows and for player2. */
  function Score2Player1(r: nat, c: nat): int
    requires r < 17
  {
    r * 10 - CentreOffset(RowSizes[r], c)
  }

  /** Player2's evaluation-2 score of tile (r, c) (Board.py:359-364). */
  function Score2Player2(r: nat, c: nat): int
    requires r < 17
  {
    (16 - r) * 10 - CentreOffset(RowSizes[r], c)
  }

  /**
   * As written, player1's evaluation 2 is not monotone in the row: moving
   * from row 4, column 6 down to row 5, column 0 (towards player1's
   * destination) lowers the score from 40 to 5.
   */
  lemma Score2Player1AsWrittenNotMonotone()
    ensures ValidPos(4, 6) && ValidPos(5, 0)
    ensures Score2Player1AsWritten(4, 6) == 40 && Score2Player1AsWritten(5, 0) == 5
  {
  }

  /** With the row factor on every row, every tile of a lower row scores more for player1 than every tile of the row above. */
  lemma Score2Player1Monotone(r: nat, c: nat, c': nat)
    requires ValidPos(r, c) && ValidPos(r + 1, c')
    ensures Score2Player1(r + 1, c') > Score2Player1(r, c)
  {
    CentreOffsetBound(r + 1, c');
  }

  /** Player2's evaluation 2 rises towards the top row. */
  lemma Score2Player2Monotone(r: nat, c: nat, c': nat)
    requires ValidPos(r, c) && ValidPos(r + 1, c')
    ensures Score2Player2(r, c) > Score2Player2(r + 1, c')
  {
    CentreOffsetBound(r, c);
  }

  /** With the row factor on every row, player1's table mirrors player2's top to bottom. */
  lemma Score2Mirror(r: nat, c: nat)
    requires ValidPos(r, c)
    ensures ValidPos(16 - r, c) && Score2Player1(r, c) == Score2Player2(16 - r, c)
  {
  }

  /**
   * The rows of even length are exactly the odd-numbered rows, so the
   * literal 1*10 is used on rows 1, 3, ..., 15; it agrees with the row
   * factor only on row 1.
   */
  lemma Score2Player1AsWrittenAgrees(r: nat, c: nat)
    requires ValidPos(r, c)
    ensures Score2Player1AsWritten(r, c) == Score2Player1(r, c) <==> r % 2 == 0 || r == 1
    ensures Score2Player1AsWritten(r, c) <= Score2Player1(r, c)
  {
  }

  /**
   * The table the program builds for player1 mirrors player2's exactly on
   * the even-numbered rows and on row 1; on rows 3, 5, ..., 15 it does not.
   */
  lemma Score2AsWrittenMirror(r: nat, c: nat)
    requires ValidPos(r, c)
    ensures ValidPos(16 - r, c)
    ensures Score2Player1AsWritten(r, c) == Score2Player2(16 - r, c) <==> r % 2 == 0 || r == 1
  {
    Score2Player1AsWrittenAgrees(r, c);
    Score2Mirror(r, c);
  }

  /** The evaluation-2 score of tile t for player1 (as written) or for player2, before the triangle bonus. */
  function Score2Of(forPlayer1: bool, t: nat): int
    requires t < 121
  {
    if forPlayer1 then Score2Player1AsWritten(RowOf(t), ColOf(t)) else Score2Player2(RowOf(t), ColOf(t))
  }

  /** The score the fill loop writes at place c of row r. */
  function RowScore2(forPlayer1: bool, r: nat, c: nat): int
    requires r < 17
  {
    if forPlayer1 then
      (if RowSizes[r] % 2 == 0 then 1 * 10 else r * 10) - CentreOffset(RowSizes[r], c)
    else
      (16 - r) * 10 - CentreOffset(RowSizes[r], c)
  }

  lemma Score2OfPlace(forPlayer1: bool, r: nat, c: nat)
    requires ValidPos(r, c)
    ensures RowStarts[r] + c < 121
    ensures Score2Of(forPlayer1, RowStarts[r] + c) == RowScore2(forPlayer1, r, c)
  {
    RowStartStep(r);
    RowOfUnique(RowStarts[r] + c, r);
  }

  /**
   * The full evaluation-2 tables the program builds, with +50 on the
   * player's destination triangle; player1's uses the literal 1*10 on the
   * even-length rows.
   */
  function Score2Table1(t: nat): int
    requires t < 121
  {
    Score2Player1AsWritten(RowOf(t), ColOf(t)) + (if InBottomTriangle(t) then 50 else 0)
  }

  function Score2Table2(t: nat): int
    requires t < 121
  {
    Score2Player2(RowOf(t), ColOf(t)) + (if InTopTriangle(t) then 50 else 0)
  }

  // ---------------------------------------------------------------------
  // The jump search, one dictionary item at a time
  // ---------------------------------------------------------------------

  predicate LinksOnBoard(links: seq<Link>)
  {
    forall j | 0 <= j < |links| :: links[j].tile < 121
  }

  /** One item of find_jumps' loop: whether it gave a jump, and the paths found below it. */
  function JumpItem(adj: Adjacency, occ: Occupancy, path: seq<nat>, link: Link): (r: (bool, seq<seq<nat>>))
    requires WellFormed(adj) && SearchPath(path) && link.tile < 121
    ensures r == DfsLinks(adj, occ, path, [link])
  {
    assert [link][1..] == [];
    match LinkLanding(adj, occ, link)
    case Some(v) =>
      if v in path then (false, [])
      else
        SearchPathExtend(path, v);
        assert Dfs(adj, occ, path + [v]) + [] == Dfs(adj, occ, path + [v]);
        (true, Dfs(adj, occ, path + [v]))
    case None => (false, [])
  }

  /** find_jumps' loop from item k on, with the flag and the paths gathered so far, in the order the loop runs. */
  function JumpItems(adj: Adjacency, occ: Occupancy, path: seq<nat>, links: seq<Link>, k: nat, any: bool, acc: seq<seq<nat>>): (bool, seq<seq<nat>>)
    requires WellFormed(adj) && SearchPath(path) && LinksOnBoard(links) && k <= |links|
    decreases |links| - k
  {
    if k == |links| then (any, acc)
    else
      var one := JumpItem(adj, occ, path, links[k]);
      JumpItems(adj, occ, path, links, k + 1, any || one.0, acc + one.1)
  }

  /** Running the loop from item k gives what the search over links[k..] gives, after what was gathered. */
  lemma {:induction false} JumpItemsAreDfsLinks(adj: Adjacency, occ: Occupancy, path: seq<nat>, links: seq<Link>, k: nat, any: bool, acc: seq<seq<nat>>)
    requires WellFormed(adj) && SearchPath(path) && LinksOnBoard(links) && k <= |links|
    ensures LinksOnBoard(links[k..])
    ensures var r := DfsLinks(adj, occ, path, links[k..]);
      JumpItems(adj, occ, path, links, k, any, acc) == (any || r.0, acc + r.1)
    decreases |links| - k
  {
    if k < |links| {
      var one := JumpItem(adj, occ, path, links[k]);
      JumpItemsAreDfsLinks(adj, occ, path, links, k + 1, any || one.0, acc + one.1);
      assert links[k..][1..] == links[k + 1..];
      assert links[k..][0] == links[k];
      var rest := DfsLinks(adj, occ, path, links[k + 1..]);
      assert acc + one.1 + rest.1 == acc + (one.1 + rest.1);
      var r := DfsLinks(adj, occ, path, links[k..]);
      match LinkLanding(adj, occ, links[k])
      case Some(v) =>
        if v !in path {
          SearchPathExtend(path, v);
          assert r == (true, Dfs(adj, occ, path + [v]) + rest.1);
        } else {
          assert r == rest;
        }
      case None =>
        assert r == rest;
    } else {
      assert links[k..] == [] && acc + [] == acc;
    }
  }

  // ---------------------------------------------------------------------
  // The board
  // ---------------------------------------------------------------------

  class Board {
    /** Each tile's neighbour dictionary (add_neighbouring_tiles). */
    const adj: Adjacency
    /** What each tile holds. */
    const cells: array<Occ>
    /** score1 for player1 and player2 (evaluation function 1). */
    const score1P1: array<int>
    const score1P2: array<int>
    /** score2 for player1 and player2 (evaluation function 2). */
    const score2P1: array<int>
    const score2P2: array<int>

    ghost predicate Valid()
    {
      WellFormed(adj) && cells.Length == 121
      && score1P1.Length == 121 && score1P2.Length == 121 && score2P1.Length == 121 && score2P2.Length == 121
      && score1P1 != score1P2 && score1P1 != score2P1 && score1P1 != score2P2
      && score1P2 != score2P1 && score1P2 != score2P2 && score2P1 != score2P2
    }

    /**
     * Board(): the tiles with their neighbour dictionaries, the pieces
     * placed, and the score tables computed from the score every fresh
     * Tile holds (tileScore; Tile.py is not part of this model).
     */
    constructor(tileScore: int)
      ensures Valid() && adj == BoardAdjacency() && cells[..] == InitialOcc()
      ensures Propagated(adj, seq(121, _ => tileScore), WithBonus(score1P1[..], 111, -5), 120)
      ensures Propagated(adj, seq(121, _ => tileScore), WithBonus(score1P2[..], 0, -5), 0)
      ensures forall t | 0 <= t < 121 :: score2P1[t] == Score2Table1(t) && score2P2[t] == Score2Table2(t)
    {
      adj := BoardAdjacency();
      cells := new Occ[121](_ => Empty);
      score1P1 := new int[121](_ => tileScore);
      score1P2 := new int[121](_ => tileScore);
      score2P1 := new int[121](_ => tileScore);
      score2P2 := new int[121](_ => tileScore);
      new;
      PlacePiecesInBoard();
      assert cells[..] == InitialOcc();
      CalculateTilesScores();
    }

    /**
     * place_pieces_in_board: the ten player1 pieces on tiles 0..9 (i counts
     * up), then the ten player2 pieces on board_tiles[-i] while i counts
     * back down, that is on tiles 111..120.
     */
    method PlacePiecesInBoard()
      requires Valid()
      modifies cells
      ensures forall t | 0 <= t < 121 :: cells[t] == (if t < 10 then P1 else if t >= 111 then P2 else old(cells[t]))
    {
      var i := 0;
      var placed := 0;
      while placed < 10
        invariant 0 <= placed <= 10 && i == placed
        invariant forall t | 0 <= t < 121 :: cells[t] == (if t < i then P1 else old(cells[t]))
      {
        cells[i] := P1;
        i := i + 1;
        placed := placed + 1;
      }
      placed := 0;
      while placed < 10
        invariant 0 <= placed <= 10 && i == 10 - placed
        invariant forall t | 0 <= t < 121 :: cells[t] == (if t < 10 then P1 else if 111 <= t < 121 - i then P2 else old(cells[t]))
      {
        cells[121 - i] := P2;
        i := i - 1;
        placed := placed + 1;
      }
    }

    /**
     * The breadth-first propagation of calculate_tiles_scores: the seed is
     * offered 16; then, while tiles are pending, the first one is taken and
     * its neighbours are offered its score minus one (RelaxNeighbours).
     */
    method PropagateScore(scores: array<int>, seed: nat)
      requires Valid() && scores.Length == 121 && seed < 121
      modifies scores
      ensures Propagated(adj, old(scores[..]), scores[..], seed)
    {
      ghost var init := scores[..];
      scores[seed] := SetScore(scores[seed], 16).1;
      var pending: seq<nat> := [seed];
      GapNonNegative(init, seed, scores[..], 121);
      while |pending| > 0
        invariant InBounds(init, scores[..], seed) && scores[seed] >= 16
        invariant AllSettled(init, scores[..], seed, pending)
        invariant Closed(adj, init, scores[..], seed, pending)
        invariant Gap(init, seed, scores[..], 121) >= 0
        decreases Gap(init, seed, scores[..], 121), |pending|
      {
        var u := pending[0];
        assert u in pending;
        assert pending == [u] + pending[1..];
        pending := RelaxNeighbours(scores, init, seed, u, pending[1..]);
        GapNonNegative(init, seed, scores[..], 121);
      }
    }

    /**
     * One round of the propagation: each neighbour of u, in dictionary
     * order, is offered u's score minus one, and each whose score rose is
     * appended to the pending list.
     */
    method RelaxNeighbours(scores: array<int>, ghost init: seq<int>, seed: nat, u: nat, pending: seq<nat>) returns (pending': seq<nat>)
      requires Valid() && scores.Length == 121 && seed < 121 && u < 121
      requires InBounds(init, scores[..], seed) && scores[seed] >= 16
      requires Settled(init, scores[..], seed, u) && AllSettled(init, scores[..], seed, pending)
      requires Closed(adj, init, scores[..], seed, [u] + pending)
      modifies scores
      ensures InBounds(init, scores[..], seed) && scores[seed] >= 16
      ensures AllSettled(init, scores[..], seed, pending')
      ensures Closed(adj, init, scores[..], seed, pending')
      ensures Gap(init, seed, scores[..], 121) <= old(Gap(init, seed, scores[..], 121))
      ensures Gap(init, seed, scores[..], 121) + |pending'| <= old(Gap(init, seed, scores[..], 121)) + |pending|
    {
      ghost var g0 := Gap(init, seed, scores[..], 121);
      RelaxStart(adj, init, scores[..], seed, u, pending);
      var su := scores[u];
      var links := adj[u];
      pending' := pending;
      var k := 0;
      while k < |links|
        invariant 0 <= k <= |links| && links == adj[u]
        invariant Relaxing(adj, init, scores[..], seed, u, su, k, pending, pending')
        invariant Gap(init, seed, scores[..], 121) <= g0
        invariant Gap(init, seed, scores[..], 121) + |pending'| <= g0 + |pending|
      {
        var v := links[k].tile;
        RelaxStep(adj, init, scores[..], seed, u, su, k, pending, pending');
        var (raised, score) := SetScore(scores[v], su - 1);
        if raised {
          GapRaise(init, seed, scores[..], 121, v, score);
          scores[v] := score;
          pending' := pending' + [v];
        }
        k := k + 1;
      }
      RelaxDone(adj, init, scores[..], seed, u, su, pending, pending');
    }

    /** The +5 (evaluation 1) or +50 (evaluation 2) of a destination triangle: each of tiles lo..lo+9 offered its score plus the bonus. */
    method AddTriangleBonus(scores: array<int>, lo: nat, bonus: nat)
      requires scores.Length == 121 && lo + 10 <= 121
      modifies scores
      ensures scores[..] == WithBonus(old(scores[..]), lo, bonus)
    {
      var t := lo;
      while t < lo + 10
        invariant lo <= t <= lo + 10
        invariant forall x | 0 <= x < 121 :: scores[x] == old(scores[x]) + (if lo <= x < t then bonus else 0)
      {
        scores[t] := scores[t] + bonus;
        t := t + 1;
      }
    }

    /** One row r of the fill: place c of the row gets the row score, the rows above keep theirs. */
    method FillRowScore2(scores: array<int>, forPlayer1: bool, r: nat)
      requires scores.Length == 121 && r < 17
      modifies scores
      ensures RowStarts[r] + RowSizes[r] <= 121
      ensures forall t | 0 <= t < RowStarts[r] :: scores[t] == old(scores[t])
      ensures forall c | 0 <= c < RowSizes[r] :: scores[RowStarts[r] + c] == RowScore2(forPlayer1, r, c)
    {
      var len := RowSizes[r];
      var start := RowStarts[r];
      RowStartStep(r);
      var j := 0;
      while j < len
        invariant 0 <= j <= len
        invariant forall t | 0 <= t < start :: scores[t] == old(scores[t])
        invariant forall c | 0 <= c < j :: scores[start + c] == RowScore2(forPlayer1, r, c)
      {
        scores[start + j] := RowScore2(forPlayer1, r, j);
        j := j + 1;
      }
    }

    /** The row-by-row fill of an evaluation-2 table: player1's (forPlayer1) or player2's. */
    method FillScore2(scores: array<int>, forPlayer1: bool)
      requires scores.Length == 121
      modifies scores
      ensures forall t | 0 <= t < 121 :: scores[t] == Score2Of(forPlayer1, t)
    {
      var i := 0;
      while i < 17
        invariant 0 <= i <= 17
        invariant forall t | 0 <= t < RowStarts[i] :: scores[t] == Score2Of(forPlayer1, t)
      {
        FillRowScore2(scores, forPlayer1, i);
        RowStartStep(i);
        forall t | RowStarts[i] <= t < RowStarts[i + 1]
          ensures scores[t] == Score2Of(forPlayer1, t)
        {
          Score2OfPlace(forPlayer1, i, t - RowStarts[i]);
        }
        i := i + 1;
      }
    }

    /** calculate_tiles_scores: both propagations with their +5, then both evaluation-2 tables with their +50. */
    method CalculateTilesScores()
      requires Valid()
      modifies score1P1, score1P2, score2P1, score2P2
      ensures Propagated(adj, old(score1P1[..]), WithBonus(score1P1[..], 111, -5), 120)
      ensures Propagated(adj, old(score1P2[..]), WithBonus(score1P2[..], 0, -5), 0)
      ensures forall t | 0 <= t < 121 :: score2P1[t] == Score2Table1(t) && score2P2[t] == Score2Table2(t)
    {
      PropagateScore(score1P1, 120);
      ghost var mid1 := score1P1[..];
      AddTriangleBonus(score1P1, 111, 5);
      WithBonusInverse(mid1, 111, 5);
      PropagateScore(score1P2, 0);
      ghost var mid2 := score1P2[..];
      AddTriangleBonus(score1P2, 0, 5);
      WithBonusInverse(mid2, 0, 5);
      FillScore2(score2P1, true);
      AddTriangleBonus(score2P1, 111, 50);
      FillScore2(score2P2, false);
      AddTriangleBonus(score2P2, 0, 50);
    }
  

    /** move_piece_to_tile (Board.py:314-322). */
    method MovePieceToTile(origin: nat, dest: nat) returns (ok: bool)
      requires Valid() && origin < 121 && dest < 121
      modifies cells
      ensures (ok, cells[..]) == Paths.MovePieceToTile(old(cells[..]), origin, dest)
    {
      if cells[dest] != Empty {
        return false;
      }
      cells[dest] := cells[origin];
      cells[origin] := Empty;
      return true;
    }

    /** apply_path (Board.py:602-628), one step of the piece at a time. */
    method ApplyPath(path: seq<nat>) returns (ok: bool)
      requires Valid() && OnBoard(path)
      modifies cells
      ensures (ok, cells[..]) == Paths.ApplyPath(old(cells[..]), path)
    {
      if |path| < 2 {
        return false;
      }
      var piece := cells[path[0]];
      if piece == Empty {
        return false;
      }
      var i := 0;
      while i < |path| - 1
        invariant 0 <= i <= |path| - 1
        invariant ApplySteps(cells[..], path, piece, i) == Paths.ApplyPath(old(cells[..]), path)
      {
        if cells[path[i + 1]] != Empty {
          return false;
        }
        cells[path[i + 1]] := piece;
        cells[path[i]] := Empty;
        i := i + 1;
      }
      return true;
    }

    /** undo_path (Board.py:630-652): the piece on the last tile walks back to the first, unchecked. */
    method UndoPath(path: seq<nat>) returns (ok: bool)
      requires Valid() && OnBoard(path)
      modifies cells
      ensures (ok, cells[..]) == Paths.UndoPath(old(cells[..]), path)
    {
      if |path| < 2 {
        return false;
      }
      var piece := cells[path[|path| - 1]];
      if piece == Empty {
        return false;
      }
      var i := |path| - 1;
      while i > 0
        invariant 0 <= i <= |path| - 1
        invariant UndoSteps(cells[..], path, piece, i) == Paths.UndoPath(old(cells[..]), path).1
      {
        cells[path[i - 1]] := piece;
        cells[path[i]] := Empty;
        i := i - 1;
      }
      return true;
    }

    /**
     * The nested find_jumps of get_all_jump_paths (Board.py:461-506),
     * reading the board `occ`, which the search does not change:
     * `visited` holds the tiles of `path`; every item of the last tile's
     * dictionary is tried in order (TryJump), and a path that allowed no
     * jump and holds at least one is appended to the paths found so far.
     */
    method FindJumps(occ: Occupancy, path: seq<nat>, visited: set<nat>, found: seq<seq<nat>>) returns (found': seq<seq<nat>>)
      requires WellFormed(adj) && SearchPath(path) && visited == Elems(path)
      ensures found' == found + Dfs(adj, occ, path)
      decreases AllTiles - Elems(path), 1
    {
      var links := adj[path[|path| - 1]];
      var foundAnyJump := false;
      found' := found;
      ghost var mine: seq<seq<nat>> := [];
      ghost var whole := JumpItems(adj, occ, path, links, 0, false, []);
      var k := 0;
      while k < |links|
        invariant 0 <= k <= |links| && links == adj[Last(path)] && LinksOnBoard(links)
        invariant found' == found + mine
        invariant JumpItems(adj, occ, path, links, k, foundAnyJump, mine) == whole
      {
        var jumped;
        jumped, found' := TryJump(occ, path, visited, links[k], found');
        mine := mine + JumpItem(adj, occ, path, links[k]).1;
        foundAnyJump := foundAnyJump || jumped;
        k := k + 1;
      }
      JumpItemsAreDfsLinks(adj, occ, path, links, 0, false, []);
      assert links[0..] == links;
      if !foundAnyJump && |path| > 1 {
        found' := found' + [path];
      }
    }

    /**
     * One item of find_jumps' loop: when the neighbour holds a piece and
     * the tile beyond it in the same direction is empty and unvisited, the
     * landing is added to `visited`, the search goes on from it, and the
     * landing is removed again.
     */
    method TryJump(occ: Occupancy, path: seq<nat>, visited: set<nat>, link: Link, found: seq<seq<nat>>) returns (jumped: bool, found': seq<seq<nat>>)
      requires WellFormed(adj) && SearchPath(path) && visited == Elems(path) && link.tile < 121
      ensures jumped == JumpItem(adj, occ, path, link).0 && found' == found + JumpItem(adj, occ, path, link).1
      decreases AllTiles - Elems(path), 0
    {
      var landing := LinkLanding(adj, occ, link);
      if landing.None? || landing.value in visited {
        return false, found;
      }
      var v := landing.value;
      SearchPathExtend(path, v);
      found' := FindJumps(occ, path + [v], visited + {v}, found);
      return true, found';
    }

    /** get_all_jump_paths with its nested find_jumps (Board.py:461-506). */
    method AllJumpPaths(t: nat) returns (paths: seq<seq<nat>>)
      requires Valid() && t < 121
      ensures paths == JumpPaths(adj, cells[..], t)
    {
      if cells[t] == Empty {
        return [];
      }
      paths := FindJumps(cells[..], [t], {t}, []);
    }
  }
}
