/**
 * What a tile holds, the win tests and the static evaluation of a position
 * (aiServer/Board.py:111-156). An occupancy lists, for each of the 121
 * tiles, whether it is empty or which player's piece stands on it.
 */
module Rules {
  import opened Topology

  /** The content of a tile: no piece, a player1 piece ('O') or a player2 piece ('X'). */
  datatype Occ = Empty | P1 | P2

  type Occupancy = s: seq<Occ> | |s| == 121 witness seq(121, _ => Empty)

  function Opponent(who: Occ): (o: Occ)
    requires who != Empty
    ensures o != Empty && o != who
  {
    if who == P1 then P2 else P1
  }

  /** The player that moves when it is player1's turn (true) or player2's (false). */
  function PlayerOf(isPlayer1: bool): (who: Occ)
    ensures who != Empty && (who == P1 <==> isPlayer1)
  {
    if isPlayer1 then P1 else P2
  }

  /**
   * has_player1_reached_destination: every tile of the bottom triangle is
   * occupied and at least one of them holds a player1 piece.
   */
  predicate Player1Won(occ: Occupancy)
  {
    (forall t | 111 <= t < 121 :: occ[t] != Empty) && (exists t | 111 <= t < 121 :: occ[t] == P1)
  }

  /** has_player2_reached_destination: the mirror image on the top triangle. */
  predicate Player2Won(occ: Occupancy)
  {
    (forall t | 0 <= t < 10 :: occ[t] != Empty) && (exists t | 0 <= t < 10 :: occ[t] == P2)
  }

  /** has_game_ended: one of the players has won. */
  predicate GameEnded(occ: Occupancy)
  {
    Player2Won(occ) || Player1Won(occ)
  }

  /** The sum of table[t] over the tiles t < n that hold a piece of `who`. */
  function SumOwned(occ: Occupancy, table: seq<int>, who: Occ, n: nat): int
    requires n <= 121 && |table| == 121
  {
    if n == 0 then 0
    else SumOwned(occ, table, who, n - 1) + (if occ[n - 1] == who then table[n - 1] else 0)
  }

  /** Every entry of a per-tile table lies in [-bound, bound]. */
  predicate TableBounded(table: seq<int>, bound: int)
  {
    |table| == 121 && bound >= 0 && forall t | 0 <= t < 121 :: -bound <= table[t] <= bound
  }

  lemma {:induction false} SumOwnedBounded(occ: Occupancy, table: seq<int>, who: Occ, n: nat, bound: int)
    requires n <= 121 && TableBounded(table, bound)
    ensures -(n * bound) <= SumOwned(occ, table, who, n) <= n * bound
  {
    if n > 0 {
      SumOwnedBounded(occ, table, who, n - 1, bound);
    }
  }

  /**
   * One evaluation function's per-tile scores: the score a tile is worth
   * to player1's piece and to player2's piece standing on it (the
   * score*_for_player1 / score*_for_player2 pair of a Tile).
   */
  datatype Tables = Tables(forPlayer1: seq<int>, forPlayer2: seq<int>)

  predicate Sized(e: Tables)
  {
    |e.forPlayer1| == 121 && |e.forPlayer2| == 121
  }

  predicate TablesBounded(e: Tables, bound: int)
  {
    TableBounded(e.forPlayer1, bound) && TableBounded(e.forPlayer2, bound)
  }

  const WinScore: int := 1_000_000

  /**
   * get_score: +1_000_000 when the player to move has won (checked first),
   * -1_000_000 when the other player has, and otherwise the mover's table
   * sum minus the opponent's, each piece counted with the score of its
   * tile for its own player under eval1 or eval2. Tile.get_score1 and
   * get_score2 take no argument; Tile.py is not part of this model, and
   * they are taken to answer the score for the owner of the piece on the
   * tile (forPlayer1 under a player1 piece, forPlayer2 under a player2 one).
   */
  function GetScore(occ: Occupancy, isPlayer1Turn: bool, useEvalFunc1: bool, eval1: Tables, eval2: Tables): (r: int)
    requires Sized(eval1) && Sized(eval2)
    ensures (isPlayer1Turn && Player1Won(occ)) || (!isPlayer1Turn && Player2Won(occ)) ==> r == WinScore
    ensures (!((isPlayer1Turn && Player1Won(occ)) || (!isPlayer1Turn && Player2Won(occ)))
             && ((isPlayer1Turn && Player2Won(occ)) || (!isPlayer1Turn && Player1Won(occ)))) ==> r == -WinScore
  {
    if (isPlayer1Turn && Player1Won(occ)) || (!isPlayer1Turn && Player2Won(occ)) then WinScore
    else if (isPlayer1Turn && Player2Won(occ)) || (!isPlayer1Turn && Player1Won(occ)) then -WinScore
    else
      var table := if useEvalFunc1 then eval1 else eval2;
      var scorePlayer1 := SumOwned(occ, table.forPlayer1, P1, 121) * (if isPlayer1Turn then 1 else -1);
      var scorePlayer2 := SumOwned(occ, table.forPlayer2, P2, 121) * (if isPlayer1Turn then -1 else 1);
      scorePlayer1 + scorePlayer2
  }

  /** Before anyone has won, the two players' views of a position are opposite. */
  lemma GetScoreAntisymmetric(occ: Occupancy, useEvalFunc1: bool, eval1: Tables, eval2: Tables)
    requires Sized(eval1) && Sized(eval2) && !GameEnded(occ)
    ensures GetScore(occ, true, useEvalFunc1, eval1, eval2) == -GetScore(occ, false, useEvalFunc1, eval1, eval2)
  {
  }

  /**
   * Because the mover's own win is checked first, a position in which both
   * players have filled their destination triangles scores +1_000_000 for
   * whichever side is asked.
   */
  lemma GetScoreBothWon(occ: Occupancy, isPlayer1Turn: bool, useEvalFunc1: bool, eval1: Tables, eval2: Tables)
    requires Sized(eval1) && Sized(eval2) && Player1Won(occ) && Player2Won(occ)
    ensures GetScore(occ, isPlayer1Turn, useEvalFunc1, eval1, eval2) == WinScore
  {
  }

  /** With both tables bounded by `bound`, a score lies within 1_000_000 + 242 * bound of zero. */
  lemma GetScoreBounded(occ: Occupancy, isPlayer1Turn: bool, useEvalFunc1: bool, eval1: Tables, eval2: Tables, bound: int)
    requires TablesBounded(eval1, bound) && TablesBounded(eval2, bound)
    ensures -WinScore - 242 * bound <= GetScore(occ, isPlayer1Turn, useEvalFunc1, eval1, eval2) <= WinScore + 242 * bound
  {
    var table := if useEvalFunc1 then eval1 else eval2;
    SumOwnedBounded(occ, table.forPlayer1, P1, 121, bound);
    SumOwnedBounded(occ, table.forPlayer2, P2, 121, bound);
  }

  /** The occupancy after place_pieces_in_board: player1 on tiles 0..9, player2 on 111..120. */
  function InitialOcc(): (occ: Occupancy)
    ensures forall t | 0 <= t < 121 :: (occ[t] == P1 <==> InTopTriangle(t)) && (occ[t] == P2 <==> InBottomTriangle(t))
  {
    seq(121, t => if t < 10 then P1 else if t >= 111 then P2 else Empty)
  }

  /** A fresh board is not finished: each destination triangle is full of the other player's pieces. */
  lemma InitialNotEnded()
    ensures !GameEnded(InitialOcc())
  {
    assert InitialOcc()[111] == P2 && InitialOcc()[0] == P1;
  }
}
