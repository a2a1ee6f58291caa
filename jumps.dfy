/**
 * Single jumps and chains of jumps on a fixed occupancy (aiServer/Board.py:
 * 461-506, 535-554, 654-671). A jump from u in direction d passes over the
 * occupied neighbour of u in that direction and lands on the empty tile just
 * beyond it, in the same direction.
 */
module Jumps {
  import opened Wrappers
  import opened Topology
  import opened Rules

  /** Every element of s is a tile index. */
  predicate AllTiles121(s: seq<nat>)
  {
    forall k | 0 <= k < |s| :: s[k] < 121
  }

  function Last(s: seq<nat>): nat
    requires |s| > 0
  {
    s[|s| - 1]
  }

  /** A list of (direction, tile) entries each of which is a step from u. */
  predicate LinksOf(adj: Adjacency, u: int, links: seq<Link>)
  {
    WellFormed(adj) && 0 <= u < 121 && forall k | 0 <= k < |links| :: Step(adj, u, links[k].dir) == Some(links[k].tile)
  }

  lemma NeighboursAreLinks(adj: Adjacency, u: int)
    requires WellFormed(adj) && 0 <= u < 121
    ensures LinksOf(adj, u, adj[u])
  {
    forall k | 0 <= k < |adj[u]| ensures Step(adj, u, adj[u][k].dir) == Some(adj[u][k].tile) {
      StepEntry(adj, u, k);
    }
  }

  /** A suffix of a list of steps from u is one too. */
  lemma LinksOfTail(adj: Adjacency, u: int, links: seq<Link>)
    requires LinksOf(adj, u, links) && |links| > 0
    ensures LinksOf(adj, u, links[1..]) && Step(adj, u, links[0].dir) == Some(links[0].tile)
  {
    assert forall k | 0 <= k < |links[1..]| :: links[1..][k] == links[k + 1];
  }

  /**
   * The landing tile of a jump over the neighbour named by `link`: the
   * neighbour must hold a piece and the tile beyond it in the same
   * direction must exist and be empty.
   */
  function LinkLanding(adj: Adjacency, occ: Occupancy, link: Link): (v: Option<nat>)
    requires WellFormed(adj) && link.tile < 121
    ensures v.Some? ==> v.value < 121 && occ[v.value] == Empty && occ[link.tile] != Empty
    ensures v.Some? ==> Step(adj, link.tile, link.dir) == v
  {
    if occ[link.tile] == Empty then None
    else match Step(adj, link.tile, link.dir)
      case None => None
      case Some(v) => if occ[v] == Empty then Some(v) else None
  }

  /** The landing of a jump from u in direction d, if that jump is possible. */
  function JumpVia(adj: Adjacency, occ: Occupancy, u: int, d: Dir): Option<nat>
    requires WellFormed(adj) && 0 <= u < 121
  {
    match Step(adj, u, d)
    case None => None
    case Some(m) => LinkLanding(adj, occ, Link(d, m))
  }

  /** One jump leads from u to v. */
  predicate JumpStep(adj: Adjacency, occ: Occupancy, u: int, v: int)
  {
    WellFormed(adj) && 0 <= u < 121 && exists d: Dir :: JumpVia(adj, occ, u, d) == Some(v)
  }

  lemma LinkLandingIsJump(adj: Adjacency, occ: Occupancy, u: int, link: Link)
    requires WellFormed(adj) && 0 <= u < 121 && link.tile < 121
    requires Step(adj, u, link.dir) == Some(link.tile) && LinkLanding(adj, occ, link).Some?
    ensures JumpStep(adj, occ, u, LinkLanding(adj, occ, link).value)
  {
    assert JumpVia(adj, occ, u, link.dir) == LinkLanding(adj, occ, link);
  }

  /** Every jump from u passes over one of the items of u's dictionary. */
  lemma JumpIsLinkLanding(adj: Adjacency, occ: Occupancy, u: int, v: int) returns (k: nat)
    requires JumpStep(adj, occ, u, v)
    ensures k < |adj[u]| && LinkLanding(adj, occ, adj[u][k]) == Some(v)
  {
    var d :| JumpVia(adj, occ, u, d) == Some(v);
    k := StepIsEntry(adj, u, d);
  }

  /** A landing is an empty tile. */
  lemma JumpStepLands(adj: Adjacency, occ: Occupancy, u: int, v: int)
    requires JumpStep(adj, occ, u, v)
    ensures 0 <= v < 121 && occ[v] == Empty
  {
  }

  /** A chain of one or more tiles, each reached from the previous by one jump. */
  predicate JumpChain(adj: Adjacency, occ: Occupancy, p: seq<nat>)
  {
    |p| >= 1 && AllTiles121(p) && forall k | 0 <= k < |p| - 1 :: JumpStep(adj, occ, p[k], p[k + 1])
  }

  /** v is reachable from u by one or more jumps (the moving piece stays on u while searching). */
  ghost predicate Reachable(adj: Adjacency, occ: Occupancy, u: int, v: int)
  {
    exists p: seq<nat> :: JumpChain(adj, occ, p) && |p| >= 2 && p[0] == u && Last(p) == v
  }

  lemma ReachableStep(adj: Adjacency, occ: Occupancy, u: int, v: int)
    requires 0 <= u < 121 && JumpStep(adj, occ, u, v)
    ensures Reachable(adj, occ, u, v)
  {
    JumpStepLands(adj, occ, u, v);
    var p: seq<nat> := [u, v];
    assert JumpChain(adj, occ, p) && Last(p) == v;
  }

  lemma ReachablePrepend(adj: Adjacency, occ: Occupancy, u: int, v: int, w: int)
    requires 0 <= u < 121 && JumpStep(adj, occ, u, v) && Reachable(adj, occ, v, w)
    ensures Reachable(adj, occ, u, w)
  {
    var p :| JumpChain(adj, occ, p) && |p| >= 2 && p[0] == v && Last(p) == w;
    var un: nat := u;
    ChainPrepend(adj, occ, un, p);
    var q: seq<nat> := [un] + p;
    assert q[|q| - 1] == p[|p| - 1];
    assert JumpChain(adj, occ, q) && |q| >= 2 && q[0] == u && Last(q) == w;
  }

  /** A jump into the first tile of a chain extends the chain by one tile at the front. */
  lemma ChainPrepend(adj: Adjacency, occ: Occupancy, u: nat, p: seq<nat>)
    requires u < 121 && JumpChain(adj, occ, p) && JumpStep(adj, occ, u, p[0])
    ensures JumpChain(adj, occ, [u] + p)
  {
    var q := [u] + p;
    forall k | 0 <= k < |q| - 1 ensures JumpStep(adj, occ, q[k], q[k + 1]) {
      if k > 0 {
        assert q[k] == p[k - 1] && q[k + 1] == p[k];
      }
    }
  }

  // ---------------------------------------------------------------------
  // get_jump_destinations / is_valid_jump / validate_jump
  // ---------------------------------------------------------------------

  function LandingsOf(adj: Adjacency, occ: Occupancy, links: seq<Link>): (dests: seq<nat>)
    requires WellFormed(adj) && forall k | 0 <= k < |links| :: links[k].tile < 121
    ensures forall v :: v in dests <==> exists k | 0 <= k < |links| :: LinkLanding(adj, occ, links[k]) == Some(v)
  {
    if |links| == 0 then []
    else
      var rest := LandingsOf(adj, occ, links[1..]);
      assert forall k | 1 <= k < |links| :: links[k] == links[1..][k - 1];
      match LinkLanding(adj, occ, links[0])
      case Some(v) => [v] + rest
      case None => rest
  }

  /**
   * get_jump_destinations: the landings of every jump from u, in the order of
   * u's neighbour dictionary.
   */
  function GetJumpDestinations(adj: Adjacency, occ: Occupancy, u: int): (dests: seq<nat>)
    requires WellFormed(adj) && 0 <= u < 121
    ensures forall v :: v in dests <==> JumpStep(adj, occ, u, v)
  {
    var dests := LandingsOf(adj, occ, adj[u]);
    forall v ensures v in dests <==> JumpStep(adj, occ, u, v) {
      if JumpStep(adj, occ, u, v) {
        var k := JumpIsLinkLanding(adj, occ, u, v);
      }
      if v in dests {
        var k :| 0 <= k < |adj[u]| && LinkLanding(adj, occ, adj[u][k]) == Some(v);
        StepEntry(adj, u, k);
        LinkLandingIsJump(adj, occ, u, adj[u][k]);
      }
    }
    dests
  }

  /** is_valid_jump: the landing is among the jump destinations of the current tile. */
  function IsValidJump(adj: Adjacency, occ: Occupancy, current: int, landing: int): (ok: bool)
    requires WellFormed(adj) && 0 <= current < 121
    ensures ok <==> JumpStep(adj, occ, current, landing)
  {
    landing in GetJumpDestinations(adj, occ, current)
  }

  /** `to` is a neighbour of `from` in some direction. */
  predicate Adjacent(adj: Adjacency, from: int, to: int)
  {
    WellFormed(adj) && 0 <= from < 121 && exists d: Dir :: Step(adj, from, d) == Some(to)
  }

  /** The tile beyond the neighbour of u in direction d, when that neighbour holds a piece. */
  function BeyondOccupied(adj: Adjacency, occ: Occupancy, u: int, d: Dir): Option<nat>
    requires WellFormed(adj) && 0 <= u < 121
  {
    match Step(adj, u, d)
    case None => None
    case Some(m) => if occ[m] != Empty then Step(adj, m, d) else None
  }

  /** `to` lies beyond an occupied neighbour of `from`, whatever `to` holds. */
  predicate OverOccupied(adj: Adjacency, occ: Occupancy, from: int, to: int)
  {
    WellFormed(adj) && 0 <= from < 121 && exists d: Dir :: BeyondOccupied(adj, occ, from, d) == Some(to)
  }

  /** Some item of `links` is `to` (to_tile in from_tile.get_neighbours().values()). */
  predicate LinkTo(links: seq<Link>, to: int)
  {
    exists k | 0 <= k < |links| :: links[k].tile == to
  }

  /** Some item of `links` holds a piece and has `to` beyond it in the item's direction. */
  predicate LinkOver(adj: Adjacency, occ: Occupancy, links: seq<Link>, to: int)
    requires WellFormed(adj) && forall k | 0 <= k < |links| :: links[k].tile < 121
  {
    exists k | 0 <= k < |links| :: occ[links[k].tile] != Empty && Step(adj, links[k].tile, links[k].dir) == Some(to)
  }

  lemma LinkToAdjacent(adj: Adjacency, from: int, to: int)
    requires WellFormed(adj) && 0 <= from < 121
    ensures LinkTo(adj[from], to) <==> Adjacent(adj, from, to)
  {
    if Adjacent(adj, from, to) {
      var d :| Step(adj, from, d) == Some(to);
      var k := StepIsEntry(adj, from, d);
      assert adj[from][k].tile == to;
    }
    if LinkTo(adj[from], to) {
      var k :| 0 <= k < |adj[from]| && adj[from][k].tile == to;
      StepEntry(adj, from, k);
    }
  }

  lemma LinkOverOccupied(adj: Adjacency, occ: Occupancy, from: int, to: int)
    requires WellFormed(adj) && 0 <= from < 121
    ensures LinkOver(adj, occ, adj[from], to) <==> OverOccupied(adj, occ, from, to)
  {
    var links := adj[from];
    if OverOccupied(adj, occ, from, to) {
      var d :| BeyondOccupied(adj, occ, from, d) == Some(to);
      var k := StepIsEntry(adj, from, d);
      assert occ[links[k].tile] != Empty && Step(adj, links[k].tile, links[k].dir) == Some(to);
    }
    if LinkOver(adj, occ, links, to) {
      var k :| 0 <= k < |links| && occ[links[k].tile] != Empty && Step(adj, links[k].tile, links[k].dir) == Some(to);
      StepEntry(adj, from, k);
      assert BeyondOccupied(adj, occ, from, links[k].dir) == Some(to);
    }
  }

  /**
   * validate_jump: true when `to` is a neighbour of `from`, or lies beyond
   * an occupied neighbour of `from` in the same direction. Neither the
   * neighbour nor the landing is required to be empty.
   */
  function ValidateJump(adj: Adjacency, occ: Occupancy, from: int, to: int): (ok: bool)
    requires WellFormed(adj) && 0 <= from < 121
    ensures ok <==> Adjacent(adj, from, to) || OverOccupied(adj, occ, from, to)
  {
    LinkToAdjacent(adj, from, to);
    LinkOverOccupied(adj, occ, from, to);
    if LinkTo(adj[from], to) then true
    else LinkOver(adj, occ, adj[from], to)
  }

  /** Every jump that is_valid_jump accepts, validate_jump accepts too. */
  lemma ValidJumpIsValidated(adj: Adjacency, occ: Occupancy, from: int, to: int)
    requires WellFormed(adj) && 0 <= from < 121 && IsValidJump(adj, occ, from, to)
    ensures ValidateJump(adj, occ, from, to)
  {
    var d :| JumpVia(adj, occ, from, d) == Some(to);
    assert BeyondOccupied(adj, occ, from, d) == Some(to);
  }

  /** validate_jump also accepts a "jump" onto an occupied tile, which is_valid_jump refuses. */
  lemma ValidateJumpIgnoresLanding(adj: Adjacency, occ: Occupancy, from: int, d: Dir, m: nat, to: nat)
    requires WellFormed(adj) && 0 <= from < 121 && Step(adj, from, d) == Some(m) && Step(adj, m, d) == Some(to)
    requires occ[m] != Empty && occ[to] != Empty
    ensures ValidateJump(adj, occ, from, to) && !IsValidJump(adj, occ, from, to)
  {
    assert BeyondOccupied(adj, occ, from, d) == Some(to);
  }

  // ---------------------------------------------------------------------
  // The jump-path depth-first search (Board.py:461-506)
  // ---------------------------------------------------------------------

  /** The tiles of a path (the `visited` set of the search). */
  function Elems(p: seq<nat>): set<nat>
  {
    set x | x in p
  }

  predicate Distinct(p: seq<nat>)
  {
    forall i, j | 0 <= i < j < |p| :: p[i] != p[j]
  }

  /** A search path: a non-empty list of tiles without repetition (visited is always Elems(path)). */
  predicate SearchPath(p: seq<nat>)
  {
    |p| >= 1 && AllTiles121(p) && Distinct(p)
  }

  lemma SearchPathExtend(p: seq<nat>, v: nat)
    requires SearchPath(p) && v < 121 && v !in p
    ensures SearchPath(p + [v]) && Elems(p + [v]) == Elems(p) + {v}
    ensures AllTiles - Elems(p + [v]) < AllTiles - Elems(p)
  {
    assert v in AllTiles;
  }

  /**
   * find_jumps(current_tile = Last(path), current_path = path) with
   * visited == Elems(path): try every item of the current tile's dictionary
   * in order, recurse into each jump onto an unvisited empty tile, and
   * record the path itself when no jump was possible and it holds at least
   * one jump.
   */
  function Dfs(adj: Adjacency, occ: Occupancy, path: seq<nat>): (paths: seq<seq<nat>>)
    requires WellFormed(adj) && SearchPath(path)
    decreases AllTiles - Elems(path), 1
  {
    var (found, paths) := DfsLinks(adj, occ, path, adj[Last(path)]);
    if !found && |path| > 1 then paths + [path] else paths
  }

  /** The loop of find_jumps over `links`: whether some item gave a jump, and the paths found below them. */
  function DfsLinks(adj: Adjacency, occ: Occupancy, path: seq<nat>, links: seq<Link>): (res: (bool, seq<seq<nat>>))
    requires WellFormed(adj) && SearchPath(path) && forall k | 0 <= k < |links| :: links[k].tile < 121
    decreases AllTiles - Elems(path), 0, |links|
  {
    if |links| == 0 then (false, [])
    else
      var (found, rest) := DfsLinks(adj, occ, path, links[1..]);
      match LinkLanding(adj, occ, links[0])
      case Some(v) =>
        if v in path then (found, rest)
        else
          SearchPathExtend(path, v);
          (true, Dfs(adj, occ, path + [v]) + rest)
      case None => (found, rest)
  }

  /**
   * A recorded jump path: it extends `start`, every tile after the last
   * one of `start` is reached by a jump from its predecessor, no tile
   * repeats, it holds at least one jump, and no further jump is possible
   * from its last tile onto a tile it does not contain.
   */
  ghost predicate MaximalJumpPath(adj: Adjacency, occ: Occupancy, start: seq<nat>, p: seq<nat>)
  {
    |start| <= |p| && p[..|start|] == start && |p| >= 2 && SearchPath(p)
    && (forall k | |start| - 1 <= k < |p| - 1 && k >= 0 :: JumpStep(adj, occ, p[k], p[k + 1]))
    && (forall v :: JumpStep(adj, occ, Last(p), v) ==> v in p)
  }

  lemma MaximalExtend(adj: Adjacency, occ: Occupancy, path: seq<nat>, v: nat, p: seq<nat>)
    requires SearchPath(path) && v < 121 && v !in path && JumpStep(adj, occ, Last(path), v)
    requires MaximalJumpPath(adj, occ, path + [v], p)
    ensures MaximalJumpPath(adj, occ, path, p)
  {
    var n := |path|;
    assert p[..n + 1] == path + [v];
    assert p[..n] == (path + [v])[..n] == path;
    assert p[n - 1] == Last(path) && p[n] == v by {
      assert p[n - 1] == p[..n + 1][n - 1] && p[n] == p[..n + 1][n];
    }
    forall k | n - 1 <= k < |p| - 1 && k >= 0 ensures JumpStep(adj, occ, p[k], p[k + 1]) {
      if k >= n {
        assert |path + [v]| - 1 <= k;
      }
    }
  }

  lemma {:induction false} DfsSound(adj: Adjacency, occ: Occupancy, path: seq<nat>)
    requires WellFormed(adj) && SearchPath(path)
    ensures forall p | p in Dfs(adj, occ, path) :: MaximalJumpPath(adj, occ, path, p)
    decreases AllTiles - Elems(path), 1
  {
    var u := Last(path);
    NeighboursAreLinks(adj, u);
    DfsLinksSound(adj, occ, path, adj[u]);
    if !DfsLinks(adj, occ, path, adj[u]).0 && |path| > 1 {
      DfsLinksNotFound(adj, occ, path, adj[u]);
      forall v | JumpStep(adj, occ, u, v) ensures v in path {
        var k := JumpIsLinkLanding(adj, occ, u, v);
      }
      assert path[..|path|] == path;
    }
  }

  lemma {:induction false} DfsLinksSound(adj: Adjacency, occ: Occupancy, path: seq<nat>, links: seq<Link>)
    requires SearchPath(path) && LinksOf(adj, Last(path), links)
    ensures forall p | p in DfsLinks(adj, occ, path, links).1 :: MaximalJumpPath(adj, occ, path, p)
    decreases AllTiles - Elems(path), 0, |links|
  {
    if |links| > 0 {
      LinksOfTail(adj, Last(path), links);
      DfsLinksSound(adj, occ, path, links[1..]);
      match LinkLanding(adj, occ, links[0])
      case Some(v) =>
        if v !in path {
          SearchPathExtend(path, v);
          DfsSound(adj, occ, path + [v]);
          LinkLandingIsJump(adj, occ, Last(path), links[0]);
          forall p | p in Dfs(adj, occ, path + [v]) ensures MaximalJumpPath(adj, occ, path, p) {
            MaximalExtend(adj, occ, path, v, p);
          }
        }
      case None =>
    }
  }

  /** When the loop finds no jump, no item of the list leads to an unvisited landing. */
  lemma {:induction false} DfsLinksNotFound(adj: Adjacency, occ: Occupancy, path: seq<nat>, links: seq<Link>)
    requires WellFormed(adj) && SearchPath(path) && forall k | 0 <= k < |links| :: links[k].tile < 121
    requires !DfsLinks(adj, occ, path, links).0
    ensures forall k | 0 <= k < |links| :: LinkLanding(adj, occ, links[k]).None? || LinkLanding(adj, occ, links[k]).value in path
    decreases |links|
  {
    if |links| > 0 {
      DfsLinksNotFound(adj, occ, path, links[1..]);
      assert forall k | 1 <= k < |links| :: links[k] == links[1..][k - 1];
    }
  }

  /**
   * The effective get_all_jump_paths as the search of Board.py:461-506
   * defines it: no paths from an empty tile, otherwise the recorded
   * maximal jump chains from the tile.
   */
  function JumpPaths(adj: Adjacency, occ: Occupancy, t: nat): (paths: seq<seq<nat>>)
    requires WellFormed(adj) && t < 121
    ensures occ[t] == Empty ==> paths == []
    ensures forall p | p in paths :: MaximalJumpPath(adj, occ, [t], p) && p[0] == t
  {
    if occ[t] == Empty then []
    else
      DfsSound(adj, occ, [t]);
      Dfs(adj, occ, [t])
  }

  /**
   * get_all_jump_paths exactly as the class body holds it (Board.py:556-566):
   * the method ends after `visited` is built, so an occupied tile gets None.
   */
  function GetAllJumpPathsAsWritten(occ: Occupancy, t: nat): (r: Option<seq<seq<nat>>>)
    requires t < 121
    ensures r.Some? <==> occ[t] == Empty
  {
    if occ[t] == Empty then Some([]) else None
  }
}
