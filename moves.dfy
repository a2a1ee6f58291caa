/**
 * The move generator of aiServer/Board.py:159-189 and the filters built on
 * it (Board.py:200-310). The generator shares two sets between all of its
 * recursive calls: the tiles already jumped from and the landings already
 * yielded. Each function below returns what a call yields, in order,
 * together with the two sets as the call leaves them.
 */
module Moves {
  import opened Wrappers
  import opened Topology
  import opened Rules
  import opened Jumps

  /** already_jumped_from and already_returned. */
  datatype GenState = GenState(jumped: set<nat>, returned: set<nat>)

  /**
   * get_all_possible_tiles_to_move(tile = t, only_jumps): nothing if t was
   * already jumped from; otherwise mark it and walk its neighbour dictionary.
   */
  function Explore(adj: Adjacency, occ: Occupancy, t: nat, onlyJumps: bool, st: GenState): (res: (seq<nat>, GenState))
    requires WellFormed(adj) && t < 121
    ensures st.jumped <= res.1.jumped && st.returned <= res.1.returned
    decreases AllTiles - st.jumped, 0
  {
    if t in st.jumped then ([], st)
    else
      assert t in AllTiles;
      NeighboursAreLinks(adj, t);
      ExploreLinks(adj, occ, t, adj[t], onlyJumps, st.(jumped := st.jumped + {t}))
  }

  /**
   * The loop over the neighbour dictionary of t: an empty neighbour is
   * yielded at the top level only; an occupied one with an empty tile
   * beyond it yields that landing (unless it was yielded before), then
   * everything the recursive call from the landing yields.
   */
  function ExploreLinks(adj: Adjacency, occ: Occupancy, t: nat, links: seq<Link>, onlyJumps: bool, st: GenState): (res: (seq<nat>, GenState))
    requires LinksOf(adj, t, links)
    ensures st.jumped <= res.1.jumped && st.returned <= res.1.returned
    decreases AllTiles - st.jumped, 1, |links|
  {
    if |links| == 0 then ([], st)
    else
      var nb := links[0].tile;
      if occ[nb] == Empty then
        var (ys, st1) := ExploreLinks(adj, occ, t, links[1..], onlyJumps, st);
        ((if onlyJumps then [] else [nb]) + ys, st1)
      else
        match LinkLanding(adj, occ, links[0])
        case None => ExploreLinks(adj, occ, t, links[1..], onlyJumps, st)
        case Some(nn) =>
          var first := if nn in st.returned then [] else [nn];
          var st1 := st.(returned := st.returned + {nn});
          var (ys2, st2) := Explore(adj, occ, nn, true, st1);
          var st3 := st2.(returned := st2.returned + (set y | y in ys2));
          var (ys4, st4) := ExploreLinks(adj, occ, t, links[1..], onlyJumps, st3);
          (first + ys2 + ys4, st4)
  }

  /** The tiles the generator yields for the piece on o (first call: both sets empty). */
  function PossibleMoves(adj: Adjacency, occ: Occupancy, o: nat): seq<nat>
    requires WellFormed(adj) && o < 121
  {
    Explore(adj, occ, o, false, GenState({}, {})).0
  }

  /** v is an empty neighbour of t. */
  predicate EmptyNeighbour(adj: Adjacency, occ: Occupancy, t: int, v: int)
  {
    Adjacent(adj, t, v) && 0 <= v < 121 && occ[v] == Empty
  }

  /** y may be yielded by the adjacency branch of a loop over `links`. */
  predicate AdjacentYield(adj: Adjacency, occ: Occupancy, links: seq<Link>, onlyJumps: bool, y: nat)
  {
    !onlyJumps && exists k | 0 <= k < |links| :: links[k].tile == y && y < 121 && occ[y] == Empty
  }

  /**
   * How yields and already_returned relate: only adjacency yields can repeat
   * or already be in the set; every other yield is added to it; the set
   * grows by yielded tiles only.
   */
  ghost predicate YieldFacts(adj: Adjacency, occ: Occupancy, links: seq<Link>, onlyJumps: bool, st: GenState, ys: seq<nat>, st': GenState)
  {
    && (forall i, j | 0 <= i < j < |ys| && ys[i] == ys[j] :: AdjacentYield(adj, occ, links, onlyJumps, ys[i]))
    && (forall i | 0 <= i < |ys| && ys[i] in st.returned :: AdjacentYield(adj, occ, links, onlyJumps, ys[i]))
    && (forall i | 0 <= i < |ys| && !AdjacentYield(adj, occ, links, onlyJumps, ys[i]) :: ys[i] in st'.returned)
    && st'.returned <= st.returned + (set y | y in ys)
  }

  lemma AdjacentYieldTail(adj: Adjacency, occ: Occupancy, links: seq<Link>, onlyJumps: bool, y: nat)
    requires |links| > 0 && AdjacentYield(adj, occ, links[1..], onlyJumps, y)
    ensures AdjacentYield(adj, occ, links, onlyJumps, y)
  {
    var k :| 0 <= k < |links[1..]| && links[1..][k].tile == y && y < 121 && occ[y] == Empty;
    assert links[k + 1].tile == y;
  }

  lemma {:induction false} ExploreYields(adj: Adjacency, occ: Occupancy, t: nat, onlyJumps: bool, st: GenState)
    requires WellFormed(adj) && t < 121
    ensures onlyJumps ==> YieldFacts(adj, occ, [], true, st, Explore(adj, occ, t, onlyJumps, st).0, Explore(adj, occ, t, onlyJumps, st).1)
    ensures !onlyJumps ==> YieldFacts(adj, occ, adj[t], false, st, Explore(adj, occ, t, onlyJumps, st).0, Explore(adj, occ, t, onlyJumps, st).1)
    decreases AllTiles - st.jumped, 0
  {
    if t !in st.jumped {
      assert t in AllTiles;
      NeighboursAreLinks(adj, t);
      var st0 := st.(jumped := st.jumped + {t});
      ExploreLinksYields(adj, occ, t, adj[t], onlyJumps, st0);
      if onlyJumps {
        forall y ensures !AdjacentYield(adj, occ, adj[t], true, y) { }
      }
    }
  }

  lemma {:induction false} ExploreLinksYields(adj: Adjacency, occ: Occupancy, t: nat, links: seq<Link>, onlyJumps: bool, st: GenState)
    requires LinksOf(adj, t, links)
    ensures YieldFacts(adj, occ, links, onlyJumps, st, ExploreLinks(adj, occ, t, links, onlyJumps, st).0, ExploreLinks(adj, occ, t, links, onlyJumps, st).1)
    decreases AllTiles - st.jumped, 1, |links|, 1
  {
    if |links| > 0 {
      if occ[links[0].tile] == Empty {
        AdjacentBranchYields(adj, occ, t, links, onlyJumps, st);
      } else if LinkLanding(adj, occ, links[0]).None? {
        AdjacentYieldTails(adj, occ, links, onlyJumps);
        LinksOfTail(adj, t, links);
        ExploreLinksYields(adj, occ, t, links[1..], onlyJumps, st);
      } else {
        LandingBranchYields(adj, occ, t, links, onlyJumps, st);
      }
    }
  }

  lemma AdjacentYieldTails(adj: Adjacency, occ: Occupancy, links: seq<Link>, onlyJumps: bool)
    requires |links| > 0
    ensures forall y | AdjacentYield(adj, occ, links[1..], onlyJumps, y) :: AdjacentYield(adj, occ, links, onlyJumps, y)
  {
    forall y | AdjacentYield(adj, occ, links[1..], onlyJumps, y) ensures AdjacentYield(adj, occ, links, onlyJumps, y) {
      AdjacentYieldTail(adj, occ, links, onlyJumps, y);
    }
  }

  /** The loop step for an empty neighbour. */
  lemma {:induction false} AdjacentBranchYields(adj: Adjacency, occ: Occupancy, t: nat, links: seq<Link>, onlyJumps: bool, st: GenState)
    requires LinksOf(adj, t, links) && |links| > 0 && occ[links[0].tile] == Empty
    ensures YieldFacts(adj, occ, links, onlyJumps, st, ExploreLinks(adj, occ, t, links, onlyJumps, st).0, ExploreLinks(adj, occ, t, links, onlyJumps, st).1)
    decreases AllTiles - st.jumped, 1, |links|, 0
  {
    AdjacentYieldTails(adj, occ, links, onlyJumps);
    LinksOfTail(adj, t, links);
    var nb := links[0].tile;
    var (ys1, st1) := ExploreLinks(adj, occ, t, links[1..], onlyJumps, st);
    ExploreLinksYields(adj, occ, t, links[1..], onlyJumps, st);
    var head: seq<nat> := if onlyJumps then [] else [nb];
    assert ExploreLinks(adj, occ, t, links, onlyJumps, st) == (head + ys1, st1);
    YieldFactsPrependAdjacent(adj, occ, links, onlyJumps, st, head, ys1, st1);
  }

  /** The loop step for a jump: the landing, the search from it, then the rest of the loop. */
  lemma {:induction false} LandingBranchYields(adj: Adjacency, occ: Occupancy, t: nat, links: seq<Link>, onlyJumps: bool, st: GenState)
    requires LinksOf(adj, t, links) && |links| > 0 && occ[links[0].tile] != Empty && LinkLanding(adj, occ, links[0]).Some?
    ensures YieldFacts(adj, occ, links, onlyJumps, st, ExploreLinks(adj, occ, t, links, onlyJumps, st).0, ExploreLinks(adj, occ, t, links, onlyJumps, st).1)
    decreases AllTiles - st.jumped, 1, |links|, 0
  {
    AdjacentYieldTails(adj, occ, links, onlyJumps);
    LinksOfTail(adj, t, links);
    var nn := LinkLanding(adj, occ, links[0]).value;
    var first: seq<nat> := if nn in st.returned then [] else [nn];
    var st1 := st.(returned := st.returned + {nn});
    var (ys2, st2) := Explore(adj, occ, nn, true, st1);
    ExploreYields(adj, occ, nn, true, st1);
    var st3 := st2.(returned := st2.returned + (set y | y in ys2));
    var (ys4, st4) := ExploreLinks(adj, occ, t, links[1..], onlyJumps, st3);
    ExploreLinksYields(adj, occ, t, links[1..], onlyJumps, st3);
    assert ExploreLinks(adj, occ, t, links, onlyJumps, st) == (first + ys2 + ys4, st4);
    LandingFront(nn, first, st, st1, ys2, st2);
    assert st3 == st2;
    YieldFactsConcat(adj, occ, links, onlyJumps, st, first + ys2, st3, ys4, st4);
  }

  /** Adjacency yields in front of the rest of the loop keep the facts. */
  lemma YieldFactsPrependAdjacent(adj: Adjacency, occ: Occupancy, links: seq<Link>, onlyJumps: bool, st: GenState,
                                  head: seq<nat>, ys1: seq<nat>, st1: GenState)
    requires |links| > 0 && |head| <= 1
    requires forall i | 0 <= i < |head| :: AdjacentYield(adj, occ, links, onlyJumps, head[i])
    requires forall y | AdjacentYield(adj, occ, links[1..], onlyJumps, y) :: AdjacentYield(adj, occ, links, onlyJumps, y)
    requires YieldFacts(adj, occ, links[1..], onlyJumps, st, ys1, st1)
    ensures YieldFacts(adj, occ, links, onlyJumps, st, head + ys1, st1)
  {
    var ys := head + ys1;
    assert forall i | |head| <= i < |ys| :: ys[i] == ys1[i - |head|];
    assert (set y | y in ys) == (set y | y in head) + (set y | y in ys1);
  }

  /** The landing (when new) and the recursive call's yields are fresh, distinct and recorded. */
  lemma LandingFront(nn: nat, first: seq<nat>, st: GenState, st1: GenState, ys2: seq<nat>, st2: GenState)
    requires first == (if nn in st.returned then [] else [nn])
    requires st1 == st.(returned := st.returned + {nn})
    requires forall i, j | 0 <= i < j < |ys2| :: ys2[i] != ys2[j]
    requires forall i | 0 <= i < |ys2| :: ys2[i] !in st1.returned && ys2[i] in st2.returned
    requires st1.returned <= st2.returned <= st1.returned + (set y | y in ys2)
    ensures var front := first + ys2;
      && (forall i | 0 <= i < |front| :: front[i] !in st.returned && front[i] in st2.returned)
      && (forall i, j | 0 <= i < j < |front| :: front[i] != front[j])
      && st.returned <= st2.returned <= st.returned + (set y | y in front)
  {
    var front := first + ys2;
    assert forall i | |first| <= i < |front| :: front[i] == ys2[i - |first|];
    assert (set y | y in front) == (set y | y in first) + (set y | y in ys2);
  }

  /** Gluing a block of fresh, distinct yields to the facts about the rest of the loop. */
  lemma YieldFactsConcat(adj: Adjacency, occ: Occupancy, links: seq<Link>, onlyJumps: bool, st: GenState,
                         front: seq<nat>, st3: GenState, ys4: seq<nat>, st4: GenState)
    requires forall i | 0 <= i < |front| :: front[i] !in st.returned && front[i] in st3.returned
    requires forall i, j | 0 <= i < j < |front| :: front[i] != front[j]
    requires st.returned <= st3.returned <= st.returned + (set y | y in front)
    requires st3.returned <= st4.returned && |links| > 0
    requires forall y | AdjacentYield(adj, occ, links[1..], onlyJumps, y) :: AdjacentYield(adj, occ, links, onlyJumps, y)
    requires YieldFacts(adj, occ, links[1..], onlyJumps, st3, ys4, st4)
    ensures YieldFacts(adj, occ, links, onlyJumps, st, front + ys4, st4)
  {
    var ys := front + ys4;
    forall i, j | 0 <= i < j < |ys| && ys[i] == ys[j] ensures AdjacentYield(adj, occ, links, onlyJumps, ys[i]) {
      if j < |front| {
      } else if i >= |front| {
        assert ys[i] == ys4[i - |front|] && ys[j] == ys4[j - |front|];
      } else {
        assert ys[j] == ys4[j - |front|] && ys[i] in st3.returned;
      }
    }
    forall i | 0 <= i < |ys| && ys[i] in st.returned ensures AdjacentYield(adj, occ, links, onlyJumps, ys[i]) {
      if i >= |front| {
        assert ys[i] == ys4[i - |front|];
      }
    }
    forall i | 0 <= i < |ys| && !AdjacentYield(adj, occ, links, onlyJumps, ys[i]) ensures ys[i] in st4.returned {
      if i >= |front| {
        assert ys[i] == ys4[i - |front|];
      }
    }
    assert (set y | y in ys) == (set y | y in front) + (set y | y in ys4);
  }

  // ---------------------------------------------------------------------
  // Which tiles the generator reaches
  // ---------------------------------------------------------------------

  /** Every jump from a tile newly jumped from lands on a tile jumped from and returned. */
  ghost predicate Closed(adj: Adjacency, occ: Occupancy, st: GenState, st': GenState)
  {
    forall u, v | u in st'.jumped && u !in st.jumped && JumpStep(adj, occ, u, v) :: v in st'.jumped && v in st'.returned
  }

  /** Every tile newly jumped from is t or reachable from t; every tile newly returned is reachable from t. */
  ghost predicate FromT(adj: Adjacency, occ: Occupancy, t: nat, st: GenState, st': GenState)
  {
    && (forall u | u in st'.jumped && u !in st.jumped :: u == t || Reachable(adj, occ, t, u))
    && (forall v | v in st'.returned && v !in st.returned :: Reachable(adj, occ, t, v))
  }

  /** After a call from t (see Closed and FromT); both sets only grow. */
  ghost predicate ReachFacts(adj: Adjacency, occ: Occupancy, t: nat, st: GenState, st': GenState)
  {
    st.jumped <= st'.jumped && st.returned <= st'.returned && Closed(adj, occ, st, st') && FromT(adj, occ, t, st, st')
  }

  /** Every jump along one of `links` lands on a tile jumped from and returned. */
  ghost predicate LandingsDone(adj: Adjacency, occ: Occupancy, links: seq<Link>, st': GenState)
  {
    WellFormed(adj) && forall k | 0 <= k < |links| && links[k].tile < 121 && LinkLanding(adj, occ, links[k]).Some? ::
      LinkLanding(adj, occ, links[k]).value in st'.jumped && LinkLanding(adj, occ, links[k]).value in st'.returned
  }

  lemma {:induction false} ExploreReach(adj: Adjacency, occ: Occupancy, t: nat, onlyJumps: bool, st: GenState)
    requires WellFormed(adj) && t < 121
    ensures t in Explore(adj, occ, t, onlyJumps, st).1.jumped
    ensures ReachFacts(adj, occ, t, st, Explore(adj, occ, t, onlyJumps, st).1)
    decreases AllTiles - st.jumped, 0
  {
    if t !in st.jumped {
      assert t in AllTiles;
      NeighboursAreLinks(adj, t);
      var st0 := st.(jumped := st.jumped + {t});
      ExploreLinksReach(adj, occ, t, adj[t], onlyJumps, st0);
      ExploreStepFacts(adj, occ, t, st, ExploreLinks(adj, occ, t, adj[t], onlyJumps, st0).1);
    }
  }

  /** Marking t and running its loop gives the facts for the whole call. */
  lemma ExploreStepFacts(adj: Adjacency, occ: Occupancy, t: nat, st: GenState, st': GenState)
    requires WellFormed(adj) && t < 121 && t !in st.jumped
    requires ReachFacts(adj, occ, t, st.(jumped := st.jumped + {t}), st')
    requires LandingsDone(adj, occ, adj[t], st')
    ensures t in st'.jumped && ReachFacts(adj, occ, t, st, st')
  {
    var st0 := st.(jumped := st.jumped + {t});
    LandingsCoverJumps(adj, occ, t, st');
    forall u, v | u in st'.jumped && u !in st.jumped && JumpStep(adj, occ, u, v) ensures v in st'.jumped && v in st'.returned {
      if u != t {
        assert u in st'.jumped && u !in st0.jumped && JumpStep(adj, occ, u, v);
      }
    }
  }

  /** Every jump from t follows one of t's neighbour links. */
  lemma LandingsCoverJumps(adj: Adjacency, occ: Occupancy, t: nat, st': GenState)
    requires WellFormed(adj) && t < 121 && LandingsDone(adj, occ, adj[t], st')
    ensures forall v | JumpStep(adj, occ, t, v) :: v in st'.jumped && v in st'.returned
  {
    forall v | JumpStep(adj, occ, t, v) ensures v in st'.jumped && v in st'.returned {
      var k := JumpIsLinkLanding(adj, occ, t, v);
    }
  }

  lemma {:induction false} ExploreLinksReach(adj: Adjacency, occ: Occupancy, t: nat, links: seq<Link>, onlyJumps: bool, st: GenState)
    requires LinksOf(adj, t, links) && t in st.jumped
    ensures ReachFacts(adj, occ, t, st, ExploreLinks(adj, occ, t, links, onlyJumps, st).1)
    ensures LandingsDone(adj, occ, links, ExploreLinks(adj, occ, t, links, onlyJumps, st).1)
    decreases AllTiles - st.jumped, 1, |links|, 1
  {
    if |links| > 0 {
      var nb := links[0].tile;
      if occ[nb] == Empty || LinkLanding(adj, occ, links[0]).None? {
        ExploreLinksReach(adj, occ, t, links[1..], onlyJumps, st);
        LandingsDoneCons(adj, occ, links, ExploreLinks(adj, occ, t, links, onlyJumps, st).1);
      } else {
        ExploreLinksJump(adj, occ, t, links, onlyJumps, st);
      }
    }
  }

  /** The branch of ExploreLinksReach where the first link is jumped over. */
  lemma {:induction false} ExploreLinksJump(adj: Adjacency, occ: Occupancy, t: nat, links: seq<Link>, onlyJumps: bool, st: GenState)
    requires LinksOf(adj, t, links) && t in st.jumped && |links| > 0
    requires occ[links[0].tile] != Empty && LinkLanding(adj, occ, links[0]).Some?
    ensures ReachFacts(adj, occ, t, st, ExploreLinks(adj, occ, t, links, onlyJumps, st).1)
    ensures LandingsDone(adj, occ, links, ExploreLinks(adj, occ, t, links, onlyJumps, st).1)
    decreases AllTiles - st.jumped, 1, |links|, 0
  {
    var nn := LinkLanding(adj, occ, links[0]).value;
    LinkLandingIsJump(adj, occ, t, links[0]);
    var st1 := st.(returned := st.returned + {nn});
    var (ys2, st2) := Explore(adj, occ, nn, true, st1);
    ExploreReach(adj, occ, nn, true, st1);
    ExploreYields(adj, occ, nn, true, st1);
    var st3 := st2.(returned := st2.returned + (set y | y in ys2));
    assert st3 == st2;
    var st4 := ExploreLinks(adj, occ, t, links[1..], onlyJumps, st3).1;
    ExploreLinksReach(adj, occ, t, links[1..], onlyJumps, st3);
    assert ExploreLinks(adj, occ, t, links, onlyJumps, st).1 == st4;
    LandingStepFacts(adj, occ, t, nn, st, st2, st4);
    LandingsDoneCons(adj, occ, links, st4);
  }

  /** LandingsDone for the tail of a loop and for its head give it for the whole loop. */
  lemma LandingsDoneCons(adj: Adjacency, occ: Occupancy, links: seq<Link>, st': GenState)
    requires |links| > 0 && LandingsDone(adj, occ, links[1..], st')
    requires links[0].tile < 121 && LinkLanding(adj, occ, links[0]).Some? ==> LinkLanding(adj, occ, links[0]).value in st'.jumped && LinkLanding(adj, occ, links[0]).value in st'.returned
    ensures LandingsDone(adj, occ, links, st')
  {
    assert forall k | 1 <= k < |links| :: links[k] == links[1..][k - 1];
  }

  /** Jumping from t to nn, searching from nn, then finishing t's loop gives the facts from t. */
  lemma LandingStepFacts(adj: Adjacency, occ: Occupancy, t: nat, nn: nat, st: GenState, st2: GenState, st4: GenState)
    requires WellFormed(adj) && t < 121 && JumpStep(adj, occ, t, nn) && t in st.jumped
    requires nn in st2.jumped
    requires ReachFacts(adj, occ, nn, st.(returned := st.returned + {nn}), st2)
    requires ReachFacts(adj, occ, t, st2, st4)
    ensures ReachFacts(adj, occ, t, st, st4) && nn in st4.jumped && nn in st4.returned
  {
    forall u | u in st4.jumped && u !in st.jumped ensures u == t || Reachable(adj, occ, t, u) {
      if u in st2.jumped {
        if u == nn {
          ReachableStep(adj, occ, t, nn);
        } else {
          ReachablePrepend(adj, occ, t, nn, u);
        }
      }
    }
    forall v | v in st4.returned && v !in st.returned ensures Reachable(adj, occ, t, v) {
      if v == nn {
        ReachableStep(adj, occ, t, nn);
      } else if v in st2.returned {
        ReachablePrepend(adj, occ, t, nn, v);
      }
    }
  }

  /** At the top level every empty neighbour of a loop's links is yielded. */
  lemma {:induction false} ExploreLinksAdjacent(adj: Adjacency, occ: Occupancy, t: nat, links: seq<Link>, st: GenState)
    requires LinksOf(adj, t, links)
    ensures forall k | 0 <= k < |links| && occ[links[k].tile] == Empty :: links[k].tile in ExploreLinks(adj, occ, t, links, false, st).0
    decreases |links|
  {
    if |links| > 0 {
      assert forall k | 1 <= k < |links| :: links[k] == links[1..][k - 1];
      var nb := links[0].tile;
      if occ[nb] == Empty || LinkLanding(adj, occ, links[0]).None? {
        ExploreLinksAdjacent(adj, occ, t, links[1..], st);
      } else {
        var nn := LinkLanding(adj, occ, links[0]).value;
        var st1 := st.(returned := st.returned + {nn});
        var (ys2, st2) := Explore(adj, occ, nn, true, st1);
        var st3 := st2.(returned := st2.returned + (set y | y in ys2));
        ExploreLinksAdjacent(adj, occ, t, links[1..], st3);
      }
    }
  }

  /** Every tile of a jump chain from o lies in a set closed under jumps that holds o. */
  lemma {:induction false} ChainInClosed(adj: Adjacency, occ: Occupancy, p: seq<nat>, st': GenState, k: nat)
    requires JumpChain(adj, occ, p) && p[0] in st'.jumped && 1 <= k < |p|
    requires Closed(adj, occ, GenState({}, {}), st')
    ensures p[k] in st'.jumped && p[k] in st'.returned
  {
    if k > 1 {
      ChainInClosed(adj, occ, p, st', k - 1);
    }
    assert JumpStep(adj, occ, p[k - 1], p[k]);
  }

  /**
   * get_all_possible_tiles_to_move yields exactly the empty neighbours of
   * the origin and the empty tiles reachable from it by one or more
   * jumps; a tile appears twice only if it is an empty neighbour (which
   * a chain of jumps may reach as well).
   */
  lemma PossibleMovesExact(adj: Adjacency, occ: Occupancy, o: nat)
    requires WellFormed(adj) && o < 121
    ensures forall v :: v in PossibleMoves(adj, occ, o) <==> EmptyNeighbour(adj, occ, o, v) || Reachable(adj, occ, o, v)
    ensures var ys := PossibleMoves(adj, occ, o);
      forall i, j | 0 <= i < j < |ys| && ys[i] == ys[j] :: EmptyNeighbour(adj, occ, o, ys[i])
  {
    var st := GenState({}, {});
    var links := adj[o];
    NeighboursAreLinks(adj, o);
    var (ys, st') := Explore(adj, occ, o, false, st);
    assert (ys, st') == ExploreLinks(adj, occ, o, links, false, st.(jumped := st.jumped + {o}));
    ExploreYields(adj, occ, o, false, st);
    ExploreReach(adj, occ, o, false, st);
    ExploreLinksAdjacent(adj, occ, o, links, st.(jumped := st.jumped + {o}));
    TopLevelExact(adj, occ, o, ys, st');
  }

  /** The top-level facts about yields and sets, assembled into the exact description. */
  lemma TopLevelExact(adj: Adjacency, occ: Occupancy, o: nat, ys: seq<nat>, st': GenState)
    requires WellFormed(adj) && o < 121
    requires YieldFacts(adj, occ, adj[o], false, GenState({}, {}), ys, st')
    requires o in st'.jumped && ReachFacts(adj, occ, o, GenState({}, {}), st')
    requires forall k | 0 <= k < |adj[o]| && occ[adj[o][k].tile] == Empty :: adj[o][k].tile in ys
    ensures forall v :: v in ys <==> EmptyNeighbour(adj, occ, o, v) || Reachable(adj, occ, o, v)
    ensures forall i, j | 0 <= i < j < |ys| && ys[i] == ys[j] :: EmptyNeighbour(adj, occ, o, ys[i])
  {
    var links := adj[o];
    forall y: nat | AdjacentYield(adj, occ, links, false, y) ensures EmptyNeighbour(adj, occ, o, y) {
      var k :| 0 <= k < |links| && links[k].tile == y && y < 121 && occ[y] == Empty;
      StepEntry(adj, o, k);
    }
    forall v ensures v in ys <==> EmptyNeighbour(adj, occ, o, v) || Reachable(adj, occ, o, v) {
      if v in ys {
        var i :| 0 <= i < |ys| && ys[i] == v;
        if !AdjacentYield(adj, occ, links, false, v) {
          assert v in st'.returned;
        }
      }
      if EmptyNeighbour(adj, occ, o, v) {
        var d :| Step(adj, o, d) == Some(v);
        var k := StepIsEntry(adj, o, d);
        assert links[k].tile == v;
      }
      if Reachable(adj, occ, o, v) {
        var p :| JumpChain(adj, occ, p) && |p| >= 2 && p[0] == o && Last(p) == v;
        ChainInClosed(adj, occ, p, st', |p| - 1);
      }
    }
  }

  // ---------------------------------------------------------------------
  // The triangle-exit rule and the move filters (Board.py:200-310)
  // ---------------------------------------------------------------------

  /**
   * Moving `who`'s piece from o to v takes it out of its destination
   * triangle: player2 from the top triangle, player1 from the bottom one.
   */
  predicate LeavesHome(who: Occ, o: int, v: int)
  {
    (who == P2 && InTopTriangle(o) && !InTopTriangle(v)) || (who == P1 && InBottomTriangle(o) && !InBottomTriangle(v))
  }

  /** The moves of ys, in order, that keep `who`'s piece on o inside its destination triangle. */
  function KeepInHome(who: Occ, o: int, ys: seq<nat>): (ms: seq<nat>)
    ensures |ms| <= |ys|
    ensures forall v :: v in ms <==> v in ys && !LeavesHome(who, o, v)
  {
    if |ys| == 0 then []
    else (if LeavesHome(who, o, ys[0]) then [] else [ys[0]]) + KeepInHome(who, o, ys[1..])
  }

  /**
   * get_all_valid_moves: the generator's moves from o without those that
   * take the piece out of its destination triangle.
   */
  function ValidMoves(adj: Adjacency, occ: Occupancy, o: nat): (ms: seq<nat>)
    requires WellFormed(adj) && o < 121 && occ[o] != Empty
    ensures forall v :: v in ms <==> (EmptyNeighbour(adj, occ, o, v) || Reachable(adj, occ, o, v)) && !LeavesHome(occ[o], o, v)
  {
    PossibleMovesExact(adj, occ, o);
    KeepInHome(occ[o], o, PossibleMoves(adj, occ, o))
  }

  /** The moves of ys, in order, that the heuristic accepts from o. */
  function KeepAccepted(o: nat, ys: seq<nat>, h: (nat, nat) -> bool): (ms: seq<nat>)
    ensures |ms| <= |ys|
    ensures forall v :: v in ms <==> v in ys && h(o, v)
  {
    if |ys| == 0 then []
    else (if h(o, ys[0]) then [ys[0]] else []) + KeepAccepted(o, ys[1..], h)
  }

  /** get_all_valid_logical_moves: the valid moves from o that the heuristic accepts, in generator order. */
  function ValidLogicalMoves(adj: Adjacency, occ: Occupancy, o: nat, h: (nat, nat) -> bool): (ms: seq<nat>)
    requires WellFormed(adj) && o < 121 && occ[o] != Empty
    ensures |ms| <= |ValidMoves(adj, occ, o)|
    ensures forall v :: v in ms <==> (EmptyNeighbour(adj, occ, o, v) || Reachable(adj, occ, o, v)) && !LeavesHome(occ[o], o, v) && h(o, v)
  {
    KeepAccepted(o, ValidMoves(adj, occ, o), h)
  }

  /** The heuristic of get_all_valid_logical_paths, or None when no heuristic is given. */
  type Heuristic = Option<(nat, nat) -> bool>

  predicate Accepts(h: Heuristic, o: nat, v: nat)
  {
    h.None? || h.value(o, v)
  }

  /** The single-step part: [o, nb] for every empty neighbour in dictionary order that passes both tests. */
  function StepPaths(occ: Occupancy, o: nat, links: seq<Link>, h: Heuristic): (paths: seq<seq<nat>>)
    requires o < 121 && occ[o] != Empty && forall k | 0 <= k < |links| :: links[k].tile < 121
    ensures forall p | p in paths :: |p| == 2 && p[0] == o && p[1] < 121 && occ[p[1]] == Empty
                                     && !LeavesHome(occ[o], o, p[1]) && Accepts(h, o, p[1])
    ensures forall k | 0 <= k < |links| :: (occ[links[k].tile] == Empty && !LeavesHome(occ[o], o, links[k].tile)
                                            && Accepts(h, o, links[k].tile)) ==> [o, links[k].tile] in paths
  {
    if |links| == 0 then []
    else
      var nb := links[0].tile;
      var rest := StepPaths(occ, o, links[1..], h);
      assert forall k | 1 <= k < |links| :: links[k] == links[1..][k - 1];
      if occ[nb] == Empty && !LeavesHome(occ[o], o, nb) && Accepts(h, o, nb) then [[o, nb]] + rest else rest
  }

  /** The jump part: the search's paths whose final tile passes both tests, in search order. */
  function KeepJumpPaths(who: Occ, o: nat, paths: seq<seq<nat>>, h: Heuristic): (kept: seq<seq<nat>>)
    requires forall p | p in paths :: |p| > 0
    ensures forall p :: p in kept <==> p in paths && !LeavesHome(who, o, Last(p)) && Accepts(h, o, Last(p))
  {
    if |paths| == 0 then []
    else
      var rest := KeepJumpPaths(who, o, paths[1..], h);
      if !LeavesHome(who, o, Last(paths[0])) && Accepts(h, o, Last(paths[0])) then [paths[0]] + rest else rest
  }

  /**
   * get_all_valid_logical_paths: nothing for an empty origin; otherwise the
   * single steps onto empty neighbours, then the maximal jump paths of the
   * search, each kept when its final tile stays inside the destination
   * triangle (if the piece is already there) and passes the heuristic.
   */
  function ValidLogicalPaths(adj: Adjacency, occ: Occupancy, o: nat, h: Heuristic): (paths: seq<seq<nat>>)
    requires WellFormed(adj) && o < 121
    ensures occ[o] == Empty ==> paths == []
    ensures forall p | p in paths :: |p| >= 2 && p[0] == o && !LeavesHome(occ[o], o, Last(p)) && Accepts(h, o, Last(p))
    ensures forall p | p in paths && |p| > 2 :: MaximalJumpPath(adj, occ, [o], p)
    ensures forall p | p in paths && |p| == 2 :: (Adjacent(adj, o, p[1]) && occ[p[1]] == Empty) || MaximalJumpPath(adj, occ, [o], p)
  {
    if occ[o] == Empty then []
    else
      var steps := StepPaths(occ, o, adj[o], h);
      var jumps := KeepJumpPaths(occ[o], o, JumpPaths(adj, occ, o), h);
      forall p | p in steps ensures Adjacent(adj, o, p[1]) {
        var k := StepPathsFromLinks(occ, o, adj[o], h, p);
        LinkToAdjacent(adj, o, p[1]);
      }
      steps + jumps
  }

  /** Every single-step path names an item of the dictionary it was built from. */
  lemma {:induction false} StepPathsFromLinks(occ: Occupancy, o: nat, links: seq<Link>, h: Heuristic, p: seq<nat>) returns (k: nat)
    requires o < 121 && occ[o] != Empty && forall j | 0 <= j < |links| :: links[j].tile < 121
    requires p in StepPaths(occ, o, links, h)
    ensures k < |links| && links[k].tile == p[1]
  {
    assert |links| > 0;
    var rest := StepPaths(occ, o, links[1..], h);
    if p in rest {
      var j := StepPathsFromLinks(occ, o, links[1..], h, p);
      assert links[1..][j] == links[j + 1];
      k := j + 1;
    } else {
      assert StepPaths(occ, o, links, h) == [[o, links[0].tile]] + rest;
      k := 0;
    }
  }

}
