/**
 * The fixed star-shaped board of aiServer/Board.py: 17 rows of holes,
 * flattened row-major into the 121 tiles 0..120, and the six labelled
 * neighbour links that add_neighbouring_tiles wires between them.
 * A tile is identified by its flat index; (row, col) is its position.
 */
module Topology {
  import opened Wrappers

  const NumRows: nat := 17
  const NumTiles: nat := 121

  /** Holes per row, top to bottom (TILES_PER_ROW in Board.py, ROW_LENGTHS in BoardState.java). */
  const RowSizes: seq<nat> := [1, 2, 3, 4, 13, 12, 11, 10, 9, 10, 11, 12, 13, 4, 3, 2, 1]

  /** RowStarts[r] is the flat index of the first tile of row r; RowStarts[17] is the tile count. */
  const RowStarts: seq<nat> := [0, 1, 3, 6, 10, 23, 35, 46, 56, 65, 75, 86, 98, 111, 115, 118, 120, 121]

  /** Every tile index. */
  const AllTiles: set<nat> := set t: nat | t < 121

  function Sum(s: seq<int>): int
  {
    if |s| == 0 then 0 else Sum(s[..|s| - 1]) + s[|s| - 1]
  }

  lemma RowStartStep(r: nat)
    requires r < 17
    ensures RowStarts[r + 1] == RowStarts[r] + RowSizes[r]
  {
  }

  /** The start of each row is the number of tiles in the rows above it. */
  lemma {:induction false} RowStartsAreSums(r: nat)
    requires r <= 17
    ensures RowStarts[r] == Sum(RowSizes[..r])
  {
    if r > 0 {
      RowStartsAreSums(r - 1);
      assert RowSizes[..r][..r - 1] == RowSizes[..r - 1];
      RowStartStep(r - 1);
    }
  }

  /** The row schedule covers exactly 121 tiles. */
  lemma RowSizesSumToTileCount()
    ensures Sum(RowSizes) == NumTiles
  {
    RowStartsAreSums(17);
    assert RowSizes[..17] == RowSizes;
  }

  lemma {:induction false} RowStartsMonotone(a: nat, b: nat)
    requires a <= b <= 17
    ensures RowStarts[a] <= RowStarts[b]
    ensures a < b ==> RowStarts[a + 1] <= RowStarts[b]
    decreases b - a
  {
    if a < b {
      RowStartStep(a);
      RowStartsMonotone(a + 1, b);
    }
  }

  datatype Pos = Pos(row: int, col: int)

  predicate ValidPos(r: int, c: int)
  {
    0 <= r < 17 && 0 <= c < RowSizes[r]
  }

  function FlatIndex(r: int, c: int): (i: nat)
    requires ValidPos(r, c)
    ensures RowStarts[r] <= i < RowStarts[r + 1]
  {
    RowStartStep(r);
    RowStarts[r] + c
  }

  /** The row of a tile, found by its flat index. */
  function RowOf(i: int): (r: nat)
    requires 0 <= i < 121
    ensures r < 17 && RowStarts[r] <= i < RowStarts[r + 1]
  {
    if i < 1 then 0 else if i < 3 then 1 else if i < 6 then 2 else if i < 10 then 3
    else if i < 23 then 4 else if i < 35 then 5 else if i < 46 then 6 else if i < 56 then 7
    else if i < 65 then 8 else if i < 75 then 9 else if i < 86 then 10 else if i < 98 then 11
    else if i < 111 then 12 else if i < 115 then 13 else if i < 118 then 14 else if i < 120 then 15
    else 16
  }

  function ColOf(i: int): (c: nat)
    requires 0 <= i < 121
    ensures ValidPos(RowOf(i), c) && FlatIndex(RowOf(i), c) == i
  {
    RowStartStep(RowOf(i));
    i - RowStarts[RowOf(i)]
  }

  /** Flattening is a bijection between valid positions and 0..120. */
  lemma FlatIndexInverse(r: int, c: int)
    requires ValidPos(r, c)
    ensures RowOf(FlatIndex(r, c)) == r && ColOf(FlatIndex(r, c)) == c
  {
    var i := FlatIndex(r, c);
    var r' := RowOf(i);
    if r' < r {
      RowStartsMonotone(r', r);
    } else if r < r' {
      RowStartsMonotone(r, r');
    }
  }

  lemma FlatIndexCovers(i: int)
    requires 0 <= i < 121
    ensures ValidPos(RowOf(i), ColOf(i)) && FlatIndex(RowOf(i), ColOf(i)) == i
  {
  }

  // ---------------------------------------------------------------------
  // Neighbour links (Board.py:45-81)
  // ---------------------------------------------------------------------

  datatype Dir = L | R | UL | UR | DL | DR

  function Opp(d: Dir): (o: Dir)
    ensures o != d
  {
    match d
    case L => R
    case R => L
    case UL => DR
    case DR => UL
    case UR => DL
    case DL => UR
  }

  /** Rows of the second loop (Board.py:54), linked down to a row one hole longer. */
  const ExpandingRows: set<int> := {0, 1, 2, 8, 9, 10, 11}
  /** Rows of the third loop (Board.py:62), linked up to a row one hole longer. */
  const ContractingRows: set<int> := {5, 6, 7, 8, 14, 15, 16}

  lemma ExpandingRowSizes(r: int)
    requires r in ExpandingRows
    ensures 0 <= r < 16 && RowSizes[r + 1] == RowSizes[r] + 1
  {
  }

  lemma ContractingRowSizes(r: int)
    requires r in ContractingRows
    ensures 0 < r < 17 && RowSizes[r - 1] == RowSizes[r] + 1
  {
  }

  /** Links set by the first loop: consecutive holes of a row (Board.py:47-51). */
  function WithinRowLink(r: int, c: int, d: Dir): (p: Option<Pos>)
    requires ValidPos(r, c)
    ensures p.Some? ==> ValidPos(p.value.row, p.value.col)
  {
    match d
    case R => if c + 1 < RowSizes[r] then Some(Pos(r, c + 1)) else None
    case L => if c >= 1 then Some(Pos(r, c - 1)) else None
    case _ => None
  }

  /**
   * Links set by the second loop (Board.py:54-59): hole j of an expanding
   * row r gets DL to (r+1, j) and DR to (r+1, j+1); the two lower holes
   * get UR and UL back.
   */
  function ExpandingLink(r: int, c: int, d: Dir): (p: Option<Pos>)
    requires ValidPos(r, c)
    ensures p.Some? ==> ValidPos(p.value.row, p.value.col)
  {
    match d
    case DL => if r in ExpandingRows then Some(Pos(r + 1, c)) else None
    case DR => if r in ExpandingRows then Some(Pos(r + 1, c + 1)) else None
    case UR => if r - 1 in ExpandingRows && c < RowSizes[r - 1] then Some(Pos(r - 1, c)) else None
    case UL => if r - 1 in ExpandingRows && c >= 1 then Some(Pos(r - 1, c - 1)) else None
    case _ => None
  }

  /**
   * Links set by the third loop (Board.py:62-67): hole j of a contracting
   * row r gets UL to (r-1, j) and UR to (r-1, j+1); the two upper holes
   * get DR and DL back.
   */
  function ContractingLink(r: int, c: int, d: Dir): (p: Option<Pos>)
    requires ValidPos(r, c)
    ensures p.Some? ==> ValidPos(p.value.row, p.value.col)
  {
    match d
    case UL => if r in ContractingRows then Some(Pos(r - 1, c)) else None
    case UR => if r in ContractingRows then Some(Pos(r - 1, c + 1)) else None
    case DR => if r + 1 in ContractingRows && c < RowSizes[r + 1] then Some(Pos(r + 1, c)) else None
    case DL => if r + 1 in ContractingRows && c >= 1 then Some(Pos(r + 1, c - 1)) else None
    case _ => None
  }

  /** Links set by the fourth loop (Board.py:70-74): the top point joins row 4 at offset 4. */
  function TopPointLink(r: int, c: int, d: Dir): (p: Option<Pos>)
    requires ValidPos(r, c)
    ensures p.Some? ==> ValidPos(p.value.row, p.value.col)
  {
    match d
    case DL => if r == 3 then Some(Pos(4, c + 4)) else None
    case DR => if r == 3 then Some(Pos(4, c + 5)) else None
    case UR => if r == 4 && 4 <= c <= 7 then Some(Pos(3, c - 4)) else None
    case UL => if r == 4 && 5 <= c <= 8 then Some(Pos(3, c - 5)) else None
    case _ => None
  }

  /** Links set by the fifth loop (Board.py:77-81): the bottom point joins row 12 at offset 4. */
  function BottomPointLink(r: int, c: int, d: Dir): (p: Option<Pos>)
    requires ValidPos(r, c)
    ensures p.Some? ==> ValidPos(p.value.row, p.value.col)
  {
    match d
    case UL => if r == 13 then Some(Pos(12, c + 4)) else None
    case UR => if r == 13 then Some(Pos(12, c + 5)) else None
    case DR => if r == 12 && 4 <= c <= 7 then Some(Pos(13, c - 4)) else None
    case DL => if r == 12 && 5 <= c <= 8 then Some(Pos(13, c - 5)) else None
    case _ => None
  }

  /** The link that construction loop `phase` (1..5, in source order) sets for (r, c) in direction d. */
  function PhaseLink(phase: nat, r: int, c: int, d: Dir): Option<Pos>
    requires ValidPos(r, c)
  {
    if phase == 1 then WithinRowLink(r, c, d)
    else if phase == 2 then ExpandingLink(r, c, d)
    else if phase == 3 then ContractingLink(r, c, d)
    else if phase == 4 then TopPointLink(r, c, d)
    else if phase == 5 then BottomPointLink(r, c, d)
    else None
  }

  /** The neighbour of (r, c) in direction d once all five loops have run. */
  function NbrPos(r: int, c: int, d: Dir): (p: Option<Pos>)
    requires ValidPos(r, c)
    ensures p.Some? ==> ValidPos(p.value.row, p.value.col)
  {
    if WithinRowLink(r, c, d).Some? then WithinRowLink(r, c, d)
    else if ExpandingLink(r, c, d).Some? then ExpandingLink(r, c, d)
    else if ContractingLink(r, c, d).Some? then ContractingLink(r, c, d)
    else if TopPointLink(r, c, d).Some? then TopPointLink(r, c, d)
    else BottomPointLink(r, c, d)
  }

  /** No two loops set the same direction of the same tile, so no link is ever overwritten. */
  lemma PhasesDisjoint(r: int, c: int, d: Dir, p: nat, q: nat)
    requires ValidPos(r, c) && 1 <= p < q <= 5
    ensures PhaseLink(p, r, c, d).None? || PhaseLink(q, r, c, d).None?
  {
    if d == UL || d == UR {
      PhasesDisjointUp(r, c, d, p, q);
    } else if d == DL || d == DR {
      PhasesDisjointDown(r, c, d, p, q);
    }
  }

  lemma PhasesDisjointUp(r: int, c: int, d: Dir, p: nat, q: nat)
    requires ValidPos(r, c) && 1 <= p < q <= 5 && (d == UL || d == UR)
    ensures PhaseLink(p, r, c, d).None? || PhaseLink(q, r, c, d).None?
  {
  }

  lemma PhasesDisjointDown(r: int, c: int, d: Dir, p: nat, q: nat)
    requires ValidPos(r, c) && 1 <= p < q <= 5 && (d == DL || d == DR)
    ensures PhaseLink(p, r, c, d).None? || PhaseLink(q, r, c, d).None?
  {
  }

  /** The link a loop sets is the final neighbour: no other loop sets that direction. */
  lemma NbrPosOfPhase(p: nat, r: int, c: int, d: Dir)
    requires ValidPos(r, c) && 1 <= p <= 5 && PhaseLink(p, r, c, d).Some?
    ensures NbrPos(r, c, d) == PhaseLink(p, r, c, d)
  {
    if p > 1 { PhasesDisjoint(r, c, d, 1, p); }
    if p > 2 { PhasesDisjoint(r, c, d, 2, p); }
    if p > 3 { PhasesDisjoint(r, c, d, 3, p); }
    if p > 4 { PhasesDisjoint(r, c, d, 4, p); }
  }

  /** Every final neighbour was set by one of the five loops. */
  lemma NbrPosPhase(r: int, c: int, d: Dir) returns (p: nat)
    requires ValidPos(r, c) && NbrPos(r, c, d).Some?
    ensures 1 <= p <= 5 && PhaseLink(p, r, c, d) == NbrPos(r, c, d)
  {
    if WithinRowLink(r, c, d).Some? { p := 1; }
    else if ExpandingLink(r, c, d).Some? { p := 2; }
    else if ContractingLink(r, c, d).Some? { p := 3; }
    else if TopPointLink(r, c, d).Some? { p := 4; }
    else { p := 5; }
  }

  lemma WithinRowSymmetric(r: int, c: int, d: Dir)
    requires ValidPos(r, c) && WithinRowLink(r, c, d).Some?
    ensures WithinRowLink(WithinRowLink(r, c, d).value.row, WithinRowLink(r, c, d).value.col, Opp(d)) == Some(Pos(r, c))
  {
  }

  lemma ExpandingSymmetric(r: int, c: int, d: Dir)
    requires ValidPos(r, c) && ExpandingLink(r, c, d).Some?
    ensures ExpandingLink(ExpandingLink(r, c, d).value.row, ExpandingLink(r, c, d).value.col, Opp(d)) == Some(Pos(r, c))
  {
    if r in ExpandingRows { ExpandingRowSizes(r); }
    if r - 1 in ExpandingRows { ExpandingRowSizes(r - 1); }
  }

  lemma ContractingSymmetric(r: int, c: int, d: Dir)
    requires ValidPos(r, c) && ContractingLink(r, c, d).Some?
    ensures ContractingLink(ContractingLink(r, c, d).value.row, ContractingLink(r, c, d).value.col, Opp(d)) == Some(Pos(r, c))
  {
    if r in ContractingRows { ContractingRowSizes(r); }
    if r + 1 in ContractingRows { ContractingRowSizes(r + 1); }
  }

  lemma TopPointSymmetric(r: int, c: int, d: Dir)
    requires ValidPos(r, c) && TopPointLink(r, c, d).Some?
    ensures TopPointLink(TopPointLink(r, c, d).value.row, TopPointLink(r, c, d).value.col, Opp(d)) == Some(Pos(r, c))
  {
  }

  lemma BottomPointSymmetric(r: int, c: int, d: Dir)
    requires ValidPos(r, c) && BottomPointLink(r, c, d).Some?
    ensures BottomPointLink(BottomPointLink(r, c, d).value.row, BottomPointLink(r, c, d).value.col, Opp(d)) == Some(Pos(r, c))
  {
  }

  /** Each construction loop sets every link together with its reverse. */
  lemma PhaseLinkSymmetric(p: nat, r: int, c: int, d: Dir)
    requires ValidPos(r, c) && 1 <= p <= 5 && PhaseLink(p, r, c, d).Some?
    ensures ValidPos(PhaseLink(p, r, c, d).value.row, PhaseLink(p, r, c, d).value.col)
    ensures PhaseLink(p, PhaseLink(p, r, c, d).value.row, PhaseLink(p, r, c, d).value.col, Opp(d)) == Some(Pos(r, c))
  {
    if p == 1 { WithinRowSymmetric(r, c, d); }
    else if p == 2 { ExpandingSymmetric(r, c, d); }
    else if p == 3 { ContractingSymmetric(r, c, d); }
    else if p == 4 { TopPointSymmetric(r, c, d); }
    else { BottomPointSymmetric(r, c, d); }
  }

  /** Every link is set together with its reverse: B is A's d-neighbour iff A is B's Opp(d)-neighbour. */
  lemma NbrPosSymmetric(r: int, c: int, d: Dir)
    requires ValidPos(r, c) && NbrPos(r, c, d).Some?
    ensures NbrPos(NbrPos(r, c, d).value.row, NbrPos(r, c, d).value.col, Opp(d)) == Some(Pos(r, c))
  {
    var p := NbrPosPhase(r, c, d);
    var q := PhaseLink(p, r, c, d).value;
    PhaseLinkSymmetric(p, r, c, d);
    NbrPosOfPhase(p, q.row, q.col, Opp(d));
  }

  /** The neighbour of tile i in direction d (Tile.get_neighbours().get(d) in Board.py). */
  function Nbr(i: int, d: Dir): (n: Option<nat>)
    requires 0 <= i < 121
    ensures n.Some? ==> n.value < 121
  {
    match NbrPos(RowOf(i), ColOf(i), d)
    case None => None
    case Some(p) => Some(FlatIndex(p.row, p.col))
  }

  /** The neighbour relation on flat tiles is symmetric under Opp. */
  lemma NbrSymmetric(i: int, d: Dir)
    requires 0 <= i < 121 && Nbr(i, d).Some?
    ensures Nbr(Nbr(i, d).value, Opp(d)) == Some(i)
  {
    var p := NbrPos(RowOf(i), ColOf(i), d).value;
    NbrPosSymmetric(RowOf(i), ColOf(i), d);
    FlatIndexInverse(p.row, p.col);
  }

  lemma NbrIrreflexive(i: int, d: Dir)
    requires 0 <= i < 121 && Nbr(i, d).Some?
    ensures Nbr(i, d).value != i
  {
    var p := NbrPos(RowOf(i), ColOf(i), d).value;
    FlatIndexInverse(p.row, p.col);
  }

  // ---------------------------------------------------------------------
  // Iteration order of a tile's neighbour dictionary
  // ---------------------------------------------------------------------

  /**
   * The order in which one loop inserts a tile's links. Each of the five
   * loops inserts, for any one tile, a sub-list of R, L, UL, UR, DL, DR in
   * this relative order (UL/UR come from an earlier row iteration or an
   * earlier statement than DL/DR, and UL from the smaller tile_index).
   */
  const LoopOrder: seq<Dir> := [R, L, UL, UR, DL, DR]

  function DirsOfPhase(phase: nat, r: int, c: int, ds: seq<Dir>): (res: seq<Dir>)
    requires ValidPos(r, c)
    ensures forall d :: d in res <==> d in ds && PhaseLink(phase, r, c, d).Some?
    ensures |res| <= |ds|
  {
    if |ds| == 0 then []
    else (if PhaseLink(phase, r, c, ds[0]).Some? then [ds[0]] else []) + DirsOfPhase(phase, r, c, ds[1..])
  }

  predicate NoDuplicates<T(==)>(s: seq<T>)
  {
    forall a, b :: 0 <= a < b < |s| ==> s[a] != s[b]
  }

  predicate Disjoint<T(==)>(a: seq<T>, b: seq<T>)
  {
    forall x :: x in a ==> x !in b
  }

  lemma DirsOfPhaseNoDuplicates(phase: nat, r: int, c: int, ds: seq<Dir>)
    requires ValidPos(r, c) && NoDuplicates(ds)
    ensures NoDuplicates(DirsOfPhase(phase, r, c, ds))
  {
    if |ds| > 0 {
      DirsOfPhaseNoDuplicates(phase, r, c, ds[1..]);
      assert ds[0] !in ds[1..];
    }
  }

  lemma PhaseDirsDisjoint(r: int, c: int, p: nat, q: nat)
    requires ValidPos(r, c) && 1 <= p < q <= 5
    ensures Disjoint(DirsOfPhase(p, r, c, LoopOrder), DirsOfPhase(q, r, c, LoopOrder))
  {
    forall d | d in DirsOfPhase(p, r, c, LoopOrder) ensures d !in DirsOfPhase(q, r, c, LoopOrder) {
      PhasesDisjoint(r, c, d, p, q);
    }
  }

  /** The directions of (r, c) in dictionary order: phase 1's links, then phase 2's, ..., then phase 5's. */
  function DirsAt(r: int, c: int): seq<Dir>
    requires ValidPos(r, c)
  {
    DirsOfPhase(1, r, c, LoopOrder) + DirsOfPhase(2, r, c, LoopOrder) + DirsOfPhase(3, r, c, LoopOrder)
      + DirsOfPhase(4, r, c, LoopOrder) + DirsOfPhase(5, r, c, LoopOrder)
  }

  lemma DirsAtNoDuplicates(r: int, c: int)
    requires ValidPos(r, c)
    ensures NoDuplicates(DirsAt(r, c))
  {
    assert NoDuplicates(LoopOrder);
    DirsOfPhaseNoDuplicates(1, r, c, LoopOrder);
    DirsOfPhaseNoDuplicates(2, r, c, LoopOrder);
    DirsOfPhaseNoDuplicates(3, r, c, LoopOrder);
    DirsOfPhaseNoDuplicates(4, r, c, LoopOrder);
    DirsOfPhaseNoDuplicates(5, r, c, LoopOrder);
    PhaseDirsDisjoint(r, c, 1, 2); PhaseDirsDisjoint(r, c, 1, 3); PhaseDirsDisjoint(r, c, 1, 4);
    PhaseDirsDisjoint(r, c, 1, 5); PhaseDirsDisjoint(r, c, 2, 3); PhaseDirsDisjoint(r, c, 2, 4);
    PhaseDirsDisjoint(r, c, 2, 5); PhaseDirsDisjoint(r, c, 3, 4); PhaseDirsDisjoint(r, c, 3, 5);
    PhaseDirsDisjoint(r, c, 4, 5);
    NoDuplicatesConcat5(DirsOfPhase(1, r, c, LoopOrder), DirsOfPhase(2, r, c, LoopOrder),
      DirsOfPhase(3, r, c, LoopOrder), DirsOfPhase(4, r, c, LoopOrder), DirsOfPhase(5, r, c, LoopOrder));
  }

  lemma DirsAtComplete(r: int, c: int, d: Dir)
    requires ValidPos(r, c) && NbrPos(r, c, d).Some?
    ensures d in DirsAt(r, c)
  {
    assert d in LoopOrder;
    var p := NbrPosPhase(r, c, d);
    assert d in DirsOfPhase(p, r, c, LoopOrder);
  }

  lemma DirsAtSound(r: int, c: int, d: Dir)
    requires ValidPos(r, c) && d in DirsAt(r, c)
    ensures NbrPos(r, c, d).Some?
  {
    if d in DirsOfPhase(1, r, c, LoopOrder) { NbrPosOfPhase(1, r, c, d); }
    else if d in DirsOfPhase(2, r, c, LoopOrder) { NbrPosOfPhase(2, r, c, d); }
    else if d in DirsOfPhase(3, r, c, LoopOrder) { NbrPosOfPhase(3, r, c, d); }
    else if d in DirsOfPhase(4, r, c, LoopOrder) { NbrPosOfPhase(4, r, c, d); }
    else { NbrPosOfPhase(5, r, c, d); }
  }

  lemma DirsAtMembers(r: int, c: int, d: Dir)
    requires ValidPos(r, c)
    ensures d in DirsAt(r, c) <==> NbrPos(r, c, d).Some?
  {
    if NbrPos(r, c, d).Some? {
      DirsAtComplete(r, c, d);
    }
    if d in DirsAt(r, c) {
      DirsAtSound(r, c, d);
    }
  }

  /**
   * The directions of tile i in dictionary insertion order (Python dicts
   * iterate in insertion order). Each direction appears once, and exactly
   * the directions in which the tile has a neighbour appear.
   */
  function NeighbourDirs(i: int): (ds: seq<Dir>)
    requires 0 <= i < 121
    ensures NoDuplicates(ds)
    ensures forall d :: d in ds <==> Nbr(i, d).Some?
  {
    var r, c := RowOf(i), ColOf(i);
    DirsAtNoDuplicates(r, c);
    forall d ensures d in DirsAt(r, c) <==> Nbr(i, d).Some? {
      DirsAtMembers(r, c, d);
    }
    DirsAt(r, c)
  }

  lemma NoDuplicatesConcat<T>(a: seq<T>, b: seq<T>)
    requires NoDuplicates(a) && NoDuplicates(b)
    requires Disjoint(a, b)
    ensures NoDuplicates(a + b)
  {
    forall i, j | 0 <= i < j < |a + b| ensures (a + b)[i] != (a + b)[j] {
      if j < |a| {
      } else if i >= |a| {
        assert (a + b)[i] == b[i - |a|] && (a + b)[j] == b[j - |a|];
      } else {
        assert (a + b)[i] in a && (a + b)[j] in b;
      }
    }
  }

  lemma NoDuplicatesConcat5<T>(s1: seq<T>, s2: seq<T>, s3: seq<T>, s4: seq<T>, s5: seq<T>)
    requires NoDuplicates(s1) && NoDuplicates(s2) && NoDuplicates(s3) && NoDuplicates(s4) && NoDuplicates(s5)
    requires Disjoint(s1, s2) && Disjoint(s1, s3) && Disjoint(s1, s4) && Disjoint(s1, s5)
    requires Disjoint(s2, s3) && Disjoint(s2, s4) && Disjoint(s2, s5)
    requires Disjoint(s3, s4) && Disjoint(s3, s5) && Disjoint(s4, s5)
    ensures NoDuplicates(s1 + s2 + s3 + s4 + s5)
  {
    NoDuplicatesConcat(s1, s2);
    NoDuplicatesConcat(s1 + s2, s3);
    NoDuplicatesConcat(s1 + s2 + s3, s4);
    NoDuplicatesConcat(s1 + s2 + s3 + s4, s5);
  }

  /** One entry of a tile's neighbour dictionary: direction and neighbouring tile. */
  datatype Link = Link(dir: Dir, tile: nat)

  function LinksFor(i: int, ds: seq<Dir>): (links: seq<Link>)
    requires 0 <= i < 121
    ensures forall k :: 0 <= k < |links| ==> Nbr(i, links[k].dir) == Some(links[k].tile) && links[k].tile < 121
  {
    if |ds| == 0 then []
    else
      (match Nbr(i, ds[0]) case Some(t) => [Link(ds[0], t)] case None => []) + LinksFor(i, ds[1..])
  }

  lemma {:induction false} LinksForComplete(i: int, ds: seq<Dir>, d: Dir)
    requires 0 <= i < 121 && d in ds && Nbr(i, d).Some?
    ensures Link(d, Nbr(i, d).value) in LinksFor(i, ds)
  {
    if ds[0] != d {
      LinksForComplete(i, ds[1..], d);
    }
  }

  /** The items of tile i's neighbour dictionary, in iteration order (Tile.get_neighbours().items()). */
  function Neighbours(i: int): (links: seq<Link>)
    requires 0 <= i < 121
    ensures forall k :: 0 <= k < |links| ==> Nbr(i, links[k].dir) == Some(links[k].tile) && links[k].tile < 121
  {
    LinksFor(i, NeighbourDirs(i))
  }

  /** Every neighbour of tile i appears in its dictionary. */
  lemma NeighboursComplete(i: int, d: Dir)
    requires 0 <= i < 121 && Nbr(i, d).Some?
    ensures Link(d, Nbr(i, d).value) in Neighbours(i)
  {
    LinksForComplete(i, NeighbourDirs(i), d);
  }

  /** The directions of a dictionary's items, in order. */
  function DirsOf(links: seq<Link>): (ds: seq<Dir>)
    ensures |ds| == |links| && forall k | 0 <= k < |links| :: ds[k] == links[k].dir
  {
    if |links| == 0 then [] else [links[0].dir] + DirsOf(links[1..])
  }

  lemma {:induction false} LinksForDirs(i: int, ds: seq<Dir>)
    requires 0 <= i < 121 && NoDuplicates(ds)
    ensures NoDuplicates(DirsOf(LinksFor(i, ds)))
    ensures forall d | d in DirsOf(LinksFor(i, ds)) :: d in ds
  {
    if |ds| > 0 {
      var tail := LinksFor(i, ds[1..]);
      LinksForDirs(i, ds[1..]);
      assert ds[0] !in ds[1..];
      assert LinksFor(i, ds) == tail || (|LinksFor(i, ds)| > 0 && LinksFor(i, ds)[1..] == tail && LinksFor(i, ds)[0].dir == ds[0]);
      DirsOfPrepend(LinksFor(i, ds), tail, ds);
    }
  }

  /** Putting an entry for a fresh key in front of a dictionary keeps its keys distinct. */
  lemma DirsOfPrepend(links: seq<Link>, tail: seq<Link>, ds: seq<Dir>)
    requires |ds| > 0 && ds[0] !in ds[1..]
    requires links == tail || (|links| > 0 && links[1..] == tail && links[0].dir == ds[0])
    requires NoDuplicates(DirsOf(tail)) && forall d | d in DirsOf(tail) :: d in ds[1..]
    ensures NoDuplicates(DirsOf(links)) && forall d | d in DirsOf(links) :: d in ds
  {
    if links != tail {
      assert DirsOf(links) == [ds[0]] + DirsOf(tail);
      NoDuplicatesConcat([ds[0]], DirsOf(tail));
    }
  }

  // ---------------------------------------------------------------------
  // The board's neighbour dictionaries as data
  // ---------------------------------------------------------------------

  /**
   * For each tile, the items of its neighbour dictionary in iteration
   * order. The search and move code below take this table as a value and
   * use only WellFormed of it; BoardAdjacency is the table of this board.
   */
  type Adjacency = seq<seq<Link>>

  /** 121 dictionaries, each naming tiles only and using each direction at most once. */
  predicate WellFormed(adj: Adjacency)
  {
    && |adj| == 121
    && (forall u, k | 0 <= u < 121 && 0 <= k < |adj[u]| :: adj[u][k].tile < 121)
    && (forall u | 0 <= u < 121 :: NoDuplicates(DirsOf(adj[u])))
  }

  /** dict.get(d) on a dictionary's items: the tile of the first entry under d. */
  function Get(links: seq<Link>, d: Dir): (n: Option<nat>)
    ensures n.Some? ==> exists k | 0 <= k < |links| :: links[k] == Link(d, n.value)
  {
    if |links| == 0 then None
    else if links[0].dir == d then Some(links[0].tile)
    else
      var n := Get(links[1..], d);
      assert n.Some? ==> exists k | 0 <= k < |links[1..]| :: links[1..][k] == Link(d, n.value);
      assert forall k | 0 <= k < |links[1..]| :: links[1..][k] == links[k + 1];
      n
  }

  /** With distinct keys, each entry is what get returns for its key. */
  lemma {:induction false} GetEntry(links: seq<Link>, k: nat)
    requires NoDuplicates(DirsOf(links)) && k < |links|
    ensures Get(links, links[k].dir) == Some(links[k].tile)
  {
    if k > 0 {
      assert DirsOf(links)[0] != DirsOf(links)[k];
      assert DirsOf(links[1..]) == DirsOf(links)[1..];
      GetEntry(links[1..], k - 1);
    }
  }

  /** The neighbour of u in direction d according to the dictionaries. */
  function Step(adj: Adjacency, u: int, d: Dir): (n: Option<nat>)
    requires WellFormed(adj) && 0 <= u < 121
    ensures n.Some? ==> n.value < 121
  {
    Get(adj[u], d)
  }

  /** Every item of u's dictionary is a step from u. */
  lemma StepEntry(adj: Adjacency, u: int, k: int)
    requires WellFormed(adj) && 0 <= u < 121 && 0 <= k < |adj[u]|
    ensures Step(adj, u, adj[u][k].dir) == Some(adj[u][k].tile)
  {
    GetEntry(adj[u], k);
  }

  /** Every step from u is an item of u's dictionary. */
  lemma StepIsEntry(adj: Adjacency, u: int, d: Dir) returns (k: nat)
    requires WellFormed(adj) && 0 <= u < 121 && Step(adj, u, d).Some?
    ensures k < |adj[u]| && adj[u][k] == Link(d, Step(adj, u, d).value)
  {
    k :| 0 <= k < |adj[u]| && adj[u][k] == Link(d, Step(adj, u, d).value);
  }

  /** The neighbour dictionaries built by Board.py:45-81, tile by tile. */
  function BoardAdjacency(): (adj: Adjacency)
    ensures WellFormed(adj)
  {
    var adj := seq(121, i requires 0 <= i < 121 => Neighbours(i));
    forall u | 0 <= u < 121 ensures NoDuplicates(DirsOf(adj[u])) {
      LinksForDirs(u, NeighbourDirs(u));
    }
    adj
  }

  /** The dictionaries give exactly the neighbour relation of the construction loops. */
  lemma BoardStep(u: int, d: Dir)
    requires 0 <= u < 121
    ensures Step(BoardAdjacency(), u, d) == Nbr(u, d)
  {
    var adj := BoardAdjacency();
    if Nbr(u, d).Some? {
      NeighboursComplete(u, d);
      var k :| 0 <= k < |adj[u]| && adj[u][k] == Link(d, Nbr(u, d).value);
      StepEntry(adj, u, k);
    } else if Step(adj, u, d).Some? {
      var k := StepIsEntry(adj, u, d);
      assert false;
    }
  }

  /** In the board's dictionaries, v is u's d-neighbour exactly when u is v's Opp(d)-neighbour. */
  lemma BoardStepSymmetric(u: int, d: Dir)
    requires 0 <= u < 121 && Step(BoardAdjacency(), u, d).Some?
    ensures Step(BoardAdjacency(), Step(BoardAdjacency(), u, d).value, Opp(d)) == Some(u)
  {
    BoardStep(u, d);
    NbrSymmetric(u, d);
    BoardStep(Nbr(u, d).value, Opp(d));
  }

  // ---------------------------------------------------------------------
  // Corner triangles and rows
  // ---------------------------------------------------------------------

  /** board_tiles[:10] (Board.py:192-193): player2's destination, player1's start. */
  predicate InTopTriangle(t: int) { 0 <= t < 10 }

  /** board_tiles[-10:] (Board.py:196-197): player1's destination, player2's start. */
  predicate InBottomTriangle(t: int) { 111 <= t < 121 }

  /** The triangles are exactly rows 0-3 and rows 13-16. */
  lemma TrianglesAreRows(t: int)
    requires 0 <= t < 121
    ensures InTopTriangle(t) <==> RowOf(t) <= 3
    ensures InBottomTriangle(t) <==> RowOf(t) >= 13
  {
  }

  /** get_row_index (Board.py:400-403): scan the rows in order for the one holding the tile. */
  method GetRowIndex(t: int) returns (r: Option<nat>)
    ensures r.Some? <==> 0 <= t < 121
    ensures r.Some? ==> r.value < 17 && RowStarts[r.value] <= t < RowStarts[r.value] + RowSizes[r.value]
  {
    var i := 0;
    while i < 17
      invariant 0 <= i <= 17
      invariant 0 <= t ==> RowStarts[i] <= t
    {
      RowStartStep(i);
      if RowStarts[i] <= t < RowStarts[i] + RowSizes[i] {
        return Some(i);
      }
      i := i + 1;
    }
    return None;
  }

  lemma RowOfUnique(t: int, r: nat)
    requires 0 <= t < 121 && r < 17 && RowStarts[r] <= t < RowStarts[r + 1]
    ensures RowOf(t) == r
  {
    FlatIndexInverse(r, t - RowStarts[r]);
  }
}
