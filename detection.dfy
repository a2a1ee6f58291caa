/**
 * The integer parts of the camera pipeline (detection_script/detection_no_trackbars.py,
 * copied function for function into detection_script/detection_new_red.py):
 * the hole centres found on a photo of the empty board are grouped into
 * board rows and poured into the 121 slots of the star, each marble found
 * on a second photo is matched to the nearest free hole, and every row is
 * written out as a line of text for the game server.
 */
module Detection {
  import opened Wrappers
  import Topology
  import BoardText

  /** A hole centre (x, y) in image pixels, already rounded to integers. */
  type Cell = (int, int)

  /** A marble: centre and radius (floored to integers) and its colour name. */
  datatype Marble = Marble(x: int, y: int, radius: int, color: string)

  /** Default row_threshold of group_cells_by_row. */
  const DefaultRowThreshold: int := 15

  /** The row_threshold that assign_cells_to_layout passes to group_cells_by_row. */
  const LayoutRowThreshold: int := 10

  /** Default base_threshold of assign_marbles_to_cells in detection_no_trackbars.py. */
  const BaseThresholdNoTrackbars: int := 45

  /** Default base_threshold of assign_marbles_to_cells in detection_new_red.py. */
  const BaseThresholdNewRed: int := 20

  function Abs(n: int): nat
  {
    if n < 0 then -n else n
  }

  function Min(a: int, b: int): int
  {
    if a <= b then a else b
  }

  // ---------------------------------------------------------------------
  // Sorting: by (y, x), and stably by x
  // ---------------------------------------------------------------------

  /** The order of the key (c[1], c[0]): by y, then by x. */
  predicate LeqYX(a: Cell, b: Cell)
  {
    a.1 < b.1 || (a.1 == b.1 && a.0 <= b.0)
  }

  predicate SortedYX(s: seq<Cell>)
  {
    forall i, j | 0 <= i < j < |s| :: LeqYX(s[i], s[j])
  }

  lemma ConsYX(x: Cell, r: seq<Cell>)
    requires SortedYX(r) && forall k | 0 <= k < |r| :: LeqYX(x, r[k])
    ensures SortedYX([x] + r)
  {
    var c := [x] + r;
    forall i, j | 0 <= i < j < |c|
      ensures LeqYX(c[i], c[j])
    {
      if i > 0 {
        assert c[i] == r[i - 1] && c[j] == r[j - 1];
      }
    }
  }

  function InsertYX(p: Cell, s: seq<Cell>): (r: seq<Cell>)
    requires SortedYX(s)
    ensures SortedYX(r) && multiset(r) == multiset(s) + multiset{p}
    decreases |s|
  {
    if |s| == 0 || LeqYX(p, s[0]) then
      ConsYX(p, s);
      [p] + s
    else
      var rest := InsertYX(p, s[1..]);
      assert s == [s[0]] + s[1..];
      assert forall k | 0 <= k < |rest| :: LeqYX(s[0], rest[k]) by {
        forall k | 0 <= k < |rest|
          ensures LeqYX(s[0], rest[k])
        {
          assert rest[k] in multiset(rest);
        }
      }
      ConsYX(s[0], rest);
      [s[0]] + rest
  }

  /** sorted(cells, key=lambda c: (c[1], c[0])). */
  function SortYX(s: seq<Cell>): (r: seq<Cell>)
    ensures SortedYX(r) && multiset(r) == multiset(s)
    decreases |s|
  {
    if |s| == 0 then []
    else
      assert s == [s[0]] + s[1..];
      InsertYX(s[0], SortYX(s[1..]))
  }

  predicate SortedX(s: seq<Cell>)
  {
    forall i, j | 0 <= i < j < |s| :: s[i].0 <= s[j].0
  }

  lemma ConsX(x: Cell, r: seq<Cell>)
    requires SortedX(r) && forall k | 0 <= k < |r| :: x.0 <= r[k].0
    ensures SortedX([x] + r)
  {
    var c := [x] + r;
    forall i, j | 0 <= i < j < |c|
      ensures c[i].0 <= c[j].0
    {
      if i > 0 {
        assert c[i] == r[i - 1] && c[j] == r[j - 1];
      }
    }
  }

  /** Inserting p before the first element whose x is not smaller keeps equal keys in input order. */
  function InsertX(p: Cell, s: seq<Cell>): (r: seq<Cell>)
    requires SortedX(s)
    ensures SortedX(r) && multiset(r) == multiset(s) + multiset{p}
    decreases |s|
  {
    if |s| == 0 || p.0 <= s[0].0 then
      ConsX(p, s);
      [p] + s
    else
      var rest := InsertX(p, s[1..]);
      assert s == [s[0]] + s[1..];
      assert forall k | 0 <= k < |rest| :: s[0].0 <= rest[k].0 by {
        forall k | 0 <= k < |rest|
          ensures s[0].0 <= rest[k].0
        {
          assert rest[k] in multiset(rest);
        }
      }
      ConsX(s[0], rest);
      [s[0]] + rest
  }

  /** row.sort(key=lambda c: c[0]): Python's list sort is stable. */
  function SortX(s: seq<Cell>): (r: seq<Cell>)
    ensures SortedX(r) && multiset(r) == multiset(s)
    decreases |s|
  {
    if |s| == 0 then []
    else
      assert s == [s[0]] + s[1..];
      InsertX(s[0], SortX(s[1..]))
  }

  /** The order of the key (c[0], c[1]): by x, then by y. */
  predicate SortedXY(s: seq<Cell>)
  {
    forall i, j | 0 <= i < j < |s| :: LeqXY(s[i], s[j])
  }

  predicate LeqXY(a: Cell, b: Cell)
  {
    a.0 < b.0 || (a.0 == b.0 && a.1 <= b.1)
  }

  lemma ConsXY(x: Cell, r: seq<Cell>)
    requires SortedXY(r) && forall k | 0 <= k < |r| :: LeqXY(x, r[k])
    ensures SortedXY([x] + r)
  {
    var c := [x] + r;
    forall i, j | 0 <= i < j < |c|
      ensures LeqXY(c[i], c[j])
    {
      if i > 0 {
        assert c[i] == r[i - 1] && c[j] == r[j - 1];
      }
    }
  }

  lemma {:induction false} InsertXAboveY(p: Cell, s: seq<Cell>)
    requires SortedX(s) && SortedXY(s)
    requires forall q | q in s :: p.1 <= q.1
    ensures SortedXY(InsertX(p, s))
    decreases |s|
  {
    if |s| == 0 || p.0 <= s[0].0 {
      assert forall k | 0 <= k < |s| :: LeqXY(p, s[k]) by {
        forall k | 0 <= k < |s|
          ensures LeqXY(p, s[k])
        {
          assert s[k] in s;
        }
      }
      ConsXY(p, s);
    } else {
      InsertXAboveY(p, s[1..]);
      var rest := InsertX(p, s[1..]);
      assert forall k | 0 <= k < |rest| :: LeqXY(s[0], rest[k]) by {
        forall k | 0 <= k < |rest|
          ensures LeqXY(s[0], rest[k])
        {
          assert rest[k] in multiset(rest);
        }
      }
      ConsXY(s[0], rest);
    }
  }

  /**
   * Stability: sorting a (y, x)-sorted run by x alone leaves the cells of
   * one column ordered by y, so the result is ordered by (x, y).
   */
  lemma {:induction false} SortXOfSortedYX(s: seq<Cell>)
    requires SortedYX(s)
    ensures SortedXY(SortX(s))
    decreases |s|
  {
    if |s| > 0 {
      SortXOfSortedYX(s[1..]);
      var rest := SortX(s[1..]);
      forall q | q in rest
        ensures s[0].1 <= q.1
      {
        assert q in multiset(rest);
        assert q in s[1..];
      }
      InsertXAboveY(s[0], rest);
    }
  }

  // ---------------------------------------------------------------------
  // Rows
  // ---------------------------------------------------------------------

  /** The rows concatenated in order. */
  function Flatten<T>(rows: seq<seq<T>>): seq<T>
  {
    if |rows| == 0 then [] else rows[0] + Flatten(rows[1..])
  }

  lemma {:induction false} FlattenSnoc<T>(rows: seq<seq<T>>, row: seq<T>)
    ensures Flatten(rows + [row]) == Flatten(rows) + row
  {
    if |rows| == 0 {
      assert rows + [row] == [row];
      assert [row][1..] == [];
    } else {
      assert (rows + [row])[1..] == rows[1..] + [row];
      FlattenSnoc(rows[1..], row);
    }
  }

  lemma {:induction false} InFlatten<T>(rows: seq<seq<T>>, k: nat, q: T)
    requires k < |rows| && q in rows[k]
    ensures q in Flatten(rows)
  {
    if k > 0 {
      InFlatten(rows[1..], k - 1, q);
    }
  }

  function Last<T>(r: seq<T>): T
    requires |r| > 0
  {
    r[|r| - 1]
  }

  predicate RunsNonEmpty<T>(rows: seq<seq<T>>)
  {
    forall k | 0 <= k < |rows| :: |rows[k]| > 0
  }

  /** Inside a run, each cell's y is within t of the previous cell's. */
  predicate RunsClose(rows: seq<seq<Cell>>, t: int)
  {
    forall k, j | 0 <= k < |rows| && 0 < j < |rows[k]| :: Abs(rows[k][j].1 - rows[k][j - 1].1) <= t
  }

  /** The first cell of a run is more than t away in y from the last cell of the run before. */
  predicate RunsApart(rows: seq<seq<Cell>>, t: int)
    requires RunsNonEmpty(rows)
  {
    forall k | 0 < k < |rows| :: Abs(rows[k][0].1 - Last(rows[k - 1]).1) > t
  }

  /** rows cut s into maximal threshold runs. */
  predicate IsRowSplit(rows: seq<seq<Cell>>, s: seq<Cell>, t: int)
  {
    Flatten(rows) == s && RunsNonEmpty(rows) && RunsClose(rows, t) && RunsApart(rows, t)
  }

  /** The runs of group_cells_by_row: a cell joins the current run when its y is within t of the previous cell's. */
  function Rows(s: seq<Cell>, t: int): (rows: seq<seq<Cell>>)
    ensures Flatten(rows) == s
    ensures |s| > 0 ==> |rows| > 0 && |rows[0]| > 0 && rows[0][0] == s[0]
    decreases |s|
  {
    if |s| == 0 then []
    else if |s| == 1 then
      assert [s][1..] == [];
      [s]
    else
      var rest := Rows(s[1..], t);
      if Abs(s[1].1 - s[0].1) <= t then
        var rows := [[s[0]] + rest[0]] + rest[1..];
        assert rows[1..] == rest[1..];
        assert s == [s[0]] + s[1..];
        rows
      else
        var rows := [[s[0]]] + rest;
        assert rows[1..] == rest;
        assert s == [s[0]] + s[1..];
        rows
  }

  /** A cell close to the first run joins it. */
  lemma ConsJoinClose(x: Cell, rows: seq<seq<Cell>>, t: int)
    requires RunsNonEmpty(rows) && RunsClose(rows, t) && |rows| > 0
    requires Abs(rows[0][0].1 - x.1) <= t
    ensures RunsClose([[x] + rows[0]] + rows[1..], t)
  {
    var r: seq<seq<Cell>> := [[x] + rows[0]] + rows[1..];
    forall k, j | 0 <= k < |r| && 0 < j < |r[k]|
      ensures Abs(r[k][j].1 - r[k][j - 1].1) <= t
    {
      if k == 0 {
        if j > 1 {
          assert r[0][j] == rows[0][j - 1] && r[0][j - 1] == rows[0][j - 2];
        }
      } else {
        assert r[k] == rows[k];
      }
    }
  }

  lemma ConsJoinApart(x: Cell, rows: seq<seq<Cell>>, t: int)
    requires RunsNonEmpty(rows) && RunsApart(rows, t) && |rows| > 0
    ensures RunsNonEmpty([[x] + rows[0]] + rows[1..])
    ensures RunsApart([[x] + rows[0]] + rows[1..], t)
  {
    var r: seq<seq<Cell>> := [[x] + rows[0]] + rows[1..];
    assert forall k | 0 < k < |r| :: r[k] == rows[k];
    forall k | 0 < k < |r|
      ensures Abs(r[k][0].1 - Last(r[k - 1]).1) > t
    {
      assert Last(r[k - 1]) == Last(rows[k - 1]);
    }
  }

  /** A cell close to the first run's first cell joins that run. */
  lemma ConsJoin(x: Cell, rows: seq<seq<Cell>>, s: seq<Cell>, t: int)
    requires IsRowSplit(rows, s, t) && |rows| > 0
    requires Abs(rows[0][0].1 - x.1) <= t
    ensures IsRowSplit([[x] + rows[0]] + rows[1..], [x] + s, t)
  {
    var r: seq<seq<Cell>> := [[x] + rows[0]] + rows[1..];
    assert r[1..] == rows[1..];
    ConsJoinClose(x, rows, t);
    ConsJoinApart(x, rows, t);
  }

  /** A cell far from the first run starts a run of its own. */
  lemma ConsApart(x: Cell, rows: seq<seq<Cell>>, s: seq<Cell>, t: int)
    requires IsRowSplit(rows, s, t) && |rows| > 0
    requires Abs(rows[0][0].1 - x.1) > t
    ensures IsRowSplit([[x]] + rows, [x] + s, t)
  {
    var r := [[x]] + rows;
    assert r[1..] == rows;
    assert forall k | 0 < k < |r| :: r[k] == rows[k - 1];
  }

  /** Rows(s, t) is a split of s into threshold runs. */
  lemma {:induction false} RowsAreSplit(s: seq<Cell>, t: int)
    ensures IsRowSplit(Rows(s, t), s, t)
    decreases |s|
  {
    if |s| == 1 {
      assert Flatten([s]) == s by {
        assert [s][1..] == [];
      }
    } else if |s| >= 2 {
      RowsAreSplit(s[1..], t);
      var rest := Rows(s[1..], t);
      assert s == [s[0]] + s[1..];
      if Abs(s[1].1 - s[0].1) <= t {
        ConsJoin(s[0], rest, s[1..], t);
      } else {
        ConsApart(s[0], rest, s[1..], t);
      }
    }
  }

  /** What is left of a split once the first cell is taken away. */
  function Behead(rows: seq<seq<Cell>>): seq<seq<Cell>>
    requires |rows| > 0 && |rows[0]| > 0
  {
    if |rows[0]| > 1 then [rows[0][1..]] + rows[1..] else rows[1..]
  }

  lemma BeheadLong(rows: seq<seq<Cell>>, s: seq<Cell>, t: int)
    requires IsRowSplit(rows, s, t) && |rows| > 0 && |rows[0]| > 1
    ensures IsRowSplit([rows[0][1..]] + rows[1..], s[1..], t)
  {
    assert s == rows[0] + Flatten(rows[1..]);
    var b := [rows[0][1..]] + rows[1..];
    assert b[1..] == rows[1..];
    assert Flatten(b) == s[1..] by {
      assert Flatten(b) == rows[0][1..] + Flatten(rows[1..]);
    }
    forall k, j | 0 <= k < |b| && 0 < j < |b[k]|
      ensures Abs(b[k][j].1 - b[k][j - 1].1) <= t
    {
      if k == 0 {
        assert b[0][j] == rows[0][j + 1] && b[0][j - 1] == rows[0][j];
      } else {
        assert b[k] == rows[k];
      }
    }
    assert RunsApart(b, t) by {
      forall k | 0 < k < |b|
        ensures Abs(b[k][0].1 - Last(b[k - 1]).1) > t
      {
        assert b[k] == rows[k];
        assert Last(b[k - 1]) == Last(rows[k - 1]);
      }
    }
  }

  lemma BeheadShort(rows: seq<seq<Cell>>, s: seq<Cell>, t: int)
    requires IsRowSplit(rows, s, t) && |rows| > 0 && |rows[0]| == 1
    ensures IsRowSplit(rows[1..], s[1..], t)
  {
    assert s == rows[0] + Flatten(rows[1..]);
    var b := rows[1..];
    assert forall k | 0 <= k < |b| :: b[k] == rows[k + 1];
  }

  lemma BeheadSplit(rows: seq<seq<Cell>>, s: seq<Cell>, t: int)
    requires IsRowSplit(rows, s, t) && |rows| > 0
    ensures |s| > 0 && s[0] == rows[0][0]
    ensures IsRowSplit(Behead(rows), s[1..], t)
  {
    assert s == rows[0] + Flatten(rows[1..]);
    if |rows[0]| > 1 {
      BeheadLong(rows, s, t);
    } else {
      BeheadShort(rows, s, t);
    }
  }

  lemma {:induction false} FlattenOfEmptyRows(rows: seq<seq<Cell>>)
    requires RunsNonEmpty(rows)
    requires Flatten(rows) == []
    ensures rows == []
  {
  }

  /** Any split of s into threshold runs is Rows(s, t): the runs are determined by s and t. */
  lemma SplitLongCase(rows: seq<seq<Cell>>, s: seq<Cell>, t: int)
    requires IsRowSplit(rows, s, t) && |rows| > 0 && |rows[0]| > 1
    requires Behead(rows) == Rows(s[1..], t)
    ensures rows == Rows(s, t)
  {
    assert s == rows[0] + Flatten(rows[1..]);
    assert rows[0][1] == s[1];
    var tail := Behead(rows);
    assert tail[0] == rows[0][1..] && tail[1..] == rows[1..];
    assert rows[0] == [s[0]] + rows[0][1..];
    assert rows == [[s[0]] + tail[0]] + tail[1..];
  }

  lemma SplitShortCase(rows: seq<seq<Cell>>, s: seq<Cell>, t: int)
    requires IsRowSplit(rows, s, t) && |rows| > 0 && |rows[0]| == 1 && |s| > 1
    requires Behead(rows) == Rows(s[1..], t)
    ensures rows == Rows(s, t)
  {
    assert s == rows[0] + Flatten(rows[1..]);
    var tail := Behead(rows);
    assert tail == rows[1..];
    assert rows[0] == [s[0]];
    assert rows[1][0] == s[1];
    assert rows == [[s[0]]] + tail;
  }

  lemma {:induction false} SplitIsRows(rows: seq<seq<Cell>>, s: seq<Cell>, t: int)
    requires IsRowSplit(rows, s, t)
    ensures rows == Rows(s, t)
    decreases |s|
  {
    if |s| == 0 {
      FlattenOfEmptyRows(rows);
    } else {
      BeheadSplit(rows, s, t);
      SplitIsRows(Behead(rows), s[1..], t);
      if |rows[0]| > 1 {
        SplitLongCase(rows, s, t);
      } else if |s| == 1 {
        assert s == rows[0] + Flatten(rows[1..]);
        assert rows == [rows[0]];
      } else {
        SplitShortCase(rows, s, t);
      }
    }
  }

  /** Every cell of an earlier run lies more than t above every cell of a later run. */
  predicate Banded(rows: seq<seq<Cell>>, t: int)
  {
    forall k, k2, p, q | 0 <= k < k2 < |rows| && p in rows[k] && q in rows[k2] :: p.1 + t < q.1
  }

  lemma SortedYXParts(a: seq<Cell>, b: seq<Cell>)
    requires SortedYX(a + b)
    ensures SortedYX(a) && SortedYX(b)
  {
    var c := a + b;
    assert forall i | 0 <= i < |a| :: a[i] == c[i];
    assert forall i | 0 <= i < |b| :: b[i] == c[|a| + i];
  }

  /** The runs of a (y, x)-sorted list are themselves (y, x)-sorted. */
  lemma {:induction false} RunsSorted(rows: seq<seq<Cell>>)
    requires SortedYX(Flatten(rows))
    ensures forall k | 0 <= k < |rows| :: SortedYX(rows[k])
  {
    if |rows| > 0 {
      SortedYXParts(rows[0], Flatten(rows[1..]));
      RunsSorted(rows[1..]);
      assert forall k | 0 < k < |rows| :: rows[k] == rows[1..][k - 1];
    }
  }

  lemma BandedJoin(x: Cell, rest: seq<seq<Cell>>, t: int)
    requires Banded(rest, t) && |rest| > 0 && |rest[0]| > 0 && x.1 <= rest[0][0].1
    ensures Banded([[x] + rest[0]] + rest[1..], t)
  {
    var rows := [[x] + rest[0]] + rest[1..];
    assert forall i | 0 < i < |rows| :: rows[i] == rest[i];
    forall k, k2, p: Cell, q: Cell | 0 <= k < k2 < |rows| && p in rows[k] && q in rows[k2]
      ensures p.1 + t < q.1
    {
      if k == 0 && p == x {
        assert rest[0][0] in rest[0];
      }
    }
  }

  lemma BandedApart(x: Cell, rest: seq<seq<Cell>>, t: int)
    requires Banded(rest, t)
    requires forall k, q: Cell | 0 <= k < |rest| && q in rest[k] :: x.1 + t < q.1
    ensures Banded([[x]] + rest, t)
  {
    var rows := [[x]] + rest;
    assert forall i | 0 < i < |rows| :: rows[i] == rest[i - 1];
  }

  /** On a (y, x)-sorted list the runs are horizontal bands more than t apart. */
  lemma {:induction false} RowsBanded(s: seq<Cell>, t: int)
    requires SortedYX(s)
    ensures Banded(Rows(s, t), t)
    decreases |s|
  {
    if |s| >= 2 {
      SortedYXParts([s[0]], s[1..]);
      assert [s[0]] + s[1..] == s;
      RowsBanded(s[1..], t);
      var rest := Rows(s[1..], t);
      assert LeqYX(s[0], s[1]);
      if Abs(s[1].1 - s[0].1) <= t {
        BandedJoin(s[0], rest, t);
      } else {
        forall k, q: Cell | 0 <= k < |rest| && q in rest[k]
          ensures s[0].1 + t < q.1
        {
          InFlatten(rest, k, q);
          assert q in s[1..];
        }
        BandedApart(s[0], rest, t);
      }
    }
  }

  lemma CloseExtendLast(rows: seq<seq<Cell>>, cur: seq<Cell>, p: Cell, t: int)
    requires RunsClose(rows + [cur], t) && |cur| > 0 && Abs(p.1 - Last(cur).1) <= t
    ensures RunsClose(rows + [cur + [p]], t)
  {
    var before: seq<seq<Cell>> := rows + [cur];
    var after: seq<seq<Cell>> := rows + [cur + [p]];
    forall k, j | 0 <= k < |after| && 0 < j < |after[k]|
      ensures Abs(after[k][j].1 - after[k][j - 1].1) <= t
    {
      if k < |rows| {
        assert after[k] == before[k];
      } else if j < |cur| {
        assert before[k] == cur;
        assert after[k][j] == cur[j] && after[k][j - 1] == cur[j - 1];
      }
    }
  }

  lemma ApartExtendLast(rows: seq<seq<Cell>>, cur: seq<Cell>, p: Cell, t: int)
    requires RunsNonEmpty(rows + [cur]) && RunsApart(rows + [cur], t)
    ensures RunsNonEmpty(rows + [cur + [p]]) && RunsApart(rows + [cur + [p]], t)
  {
    var before := rows + [cur];
    var after := rows + [cur + [p]];
    assert forall k | 0 <= k < |rows| :: after[k] == before[k];
    assert after[|rows|][0] == before[|rows|][0];
  }

  lemma CloseSnocSingleton(rows: seq<seq<Cell>>, p: Cell, t: int)
    requires RunsClose(rows, t)
    ensures RunsClose(rows + [[p]], t)
  {
    var after := rows + [[p]];
    assert forall k | 0 <= k < |rows| :: after[k] == rows[k];
  }

  lemma ApartSnocSingleton(rows: seq<seq<Cell>>, p: Cell, t: int)
    requires RunsNonEmpty(rows) && RunsApart(rows, t) && |rows| > 0
    requires Abs(p.1 - Last(Last(rows)).1) > t
    ensures RunsNonEmpty(rows + [[p]]) && RunsApart(rows + [[p]], t)
  {
    var after := rows + [[p]];
    assert forall k | 0 <= k < |rows| :: after[k] == rows[k];
    assert after[|rows|] == [p];
  }

  /** A cell close to the last one joins the current run. */
  lemma SnocJoin(rows: seq<seq<Cell>>, cur: seq<Cell>, s: seq<Cell>, p: Cell, t: int)
    requires IsRowSplit(rows + [cur], s, t) && |s| > 0
    requires Abs(p.1 - Last(s).1) <= t
    ensures IsRowSplit(rows + [cur + [p]], s + [p], t)
  {
    FlattenSnoc(rows, cur);
    FlattenSnoc(rows, cur + [p]);
    assert (rows + [cur])[|rows|] == cur;
    assert Last(cur) == Last(s);
    CloseExtendLast(rows, cur, p, t);
    ApartExtendLast(rows, cur, p, t);
  }

  /** A cell far from the last one starts a new run. */
  lemma SnocApart(rows: seq<seq<Cell>>, cur: seq<Cell>, s: seq<Cell>, p: Cell, t: int)
    requires IsRowSplit(rows + [cur], s, t) && |s| > 0
    requires Abs(p.1 - Last(s).1) > t
    ensures IsRowSplit(rows + [cur] + [[p]], s + [p], t)
  {
    var before := rows + [cur];
    FlattenSnoc(rows, cur);
    FlattenSnoc(before, [p]);
    assert before[|rows|] == cur && |cur| > 0;
    assert Last(before) == cur;
    assert Last(cur) == Last(s);
    CloseSnocSingleton(before, p, t);
    ApartSnocSingleton(before, p, t);
  }

  /** Each run sorted by x, in place of the run. */
  function SortRows(rows: seq<seq<Cell>>): (sorted: seq<seq<Cell>>)
    ensures |sorted| == |rows| && forall k | 0 <= k < |rows| :: sorted[k] == SortX(rows[k])
  {
    seq(|rows|, k requires 0 <= k < |rows| => SortX(rows[k]))
  }

  /** What group_cells_by_row returns. */
  function GroupedByRow(cells: seq<Cell>, t: int): seq<Cell>
  {
    Flatten(SortRows(Rows(SortYX(cells), t)))
  }

  lemma {:induction false} FlattenSortRows(rows: seq<seq<Cell>>)
    ensures multiset(Flatten(SortRows(rows))) == multiset(Flatten(rows))
  {
    if |rows| > 0 {
      assert SortRows(rows)[1..] == SortRows(rows[1..]);
      FlattenSortRows(rows[1..]);
    }
  }

  /** group_cells_by_row returns its input reordered: nothing is lost, added or duplicated. */
  lemma GroupedIsPermutation(cells: seq<Cell>, t: int)
    ensures multiset(GroupedByRow(cells, t)) == multiset(cells)
    ensures |GroupedByRow(cells, t)| == |cells|
  {
    FlattenSortRows(Rows(SortYX(cells), t));
    assert |GroupedByRow(cells, t)| == |multiset(GroupedByRow(cells, t))|;
  }

  lemma SortRowsBanded(rows: seq<seq<Cell>>, t: int)
    requires Banded(rows, t)
    ensures Banded(SortRows(rows), t)
  {
    var rs := SortRows(rows);
    forall k, k2, p: Cell, q: Cell | 0 <= k < k2 < |rs| && p in rs[k] && q in rs[k2]
      ensures p.1 + t < q.1
    {
      assert p in multiset(rs[k]) && q in multiset(rs[k2]);
      assert p in rows[k] && q in rows[k2];
    }
  }

  lemma SortRowsXY(rows: seq<seq<Cell>>)
    requires forall k | 0 <= k < |rows| :: SortedYX(rows[k])
    ensures forall k | 0 <= k < |rows| :: SortedXY(SortRows(rows)[k])
  {
    forall k | 0 <= k < |rows|
      ensures SortedXY(SortRows(rows)[k])
    {
      SortXOfSortedYX(rows[k]);
    }
  }

  /**
   * The shape of the result: the (y, x)-sorted cells cut into maximal
   * threshold runs, the runs are bands more than t apart in y, and each
   * run is written out by x (by y within one x, since the sort is stable).
   */
  lemma GroupedRuns(cells: seq<Cell>, t: int)
    ensures var rows := Rows(SortYX(cells), t);
      && IsRowSplit(rows, SortYX(cells), t)
      && GroupedByRow(cells, t) == Flatten(SortRows(rows))
      && Banded(SortRows(rows), t)
      && forall k | 0 <= k < |rows| :: multiset(SortRows(rows)[k]) == multiset(rows[k]) && SortedXY(SortRows(rows)[k])
  {
    var s := SortYX(cells);
    var rows := Rows(s, t);
    RowsAreSplit(s, t);
    RowsBanded(s, t);
    SortRowsBanded(rows, t);
    RunsSorted(rows);
    SortRowsXY(rows);
  }

  /** The runs loop of group_cells_by_row over the sorted cells. */
  method CutRuns(sorted: seq<Cell>, rowThreshold: int) returns (rows: seq<seq<Cell>>)
    requires |sorted| > 0
    ensures rows == Rows(sorted, rowThreshold)
  {
    rows := [];
    var current := [sorted[0]];
    var prevY := sorted[0].1;
    assert Flatten([current]) == sorted[..1] by {
      assert [current][1..] == [];
    }
    var i := 1;
    while i < |sorted|
      invariant 1 <= i <= |sorted|
      invariant prevY == sorted[i - 1].1
      invariant IsRowSplit(rows + [current], sorted[..i], rowThreshold)
    {
      var (x, y) := sorted[i];
      assert sorted[..i + 1] == sorted[..i] + [(x, y)];
      assert Last(sorted[..i]) == sorted[i - 1];
      if Abs(y - prevY) <= rowThreshold {
        SnocJoin(rows, current, sorted[..i], (x, y), rowThreshold);
        current := current + [(x, y)];
      } else {
        SnocApart(rows, current, sorted[..i], (x, y), rowThreshold);
        rows := rows + [current];
        current := [(x, y)];
      }
      prevY := y;
      i := i + 1;
    }
    rows := rows + [current];
    assert sorted[..i] == sorted;
    SplitIsRows(rows, sorted, rowThreshold);
  }

  /** Each run sorted by x in place. */
  method SortEachRun(runs: seq<seq<Cell>>) returns (rows: seq<seq<Cell>>)
    ensures rows == SortRows(runs)
  {
    rows := runs;
    var k := 0;
    while k < |rows|
      invariant 0 <= k <= |rows| == |runs|
      invariant forall j | 0 <= j < k :: rows[j] == SortX(runs[j])
      invariant forall j | k <= j < |rows| :: rows[j] == runs[j]
    {
      rows := rows[k := SortX(rows[k])];
      k := k + 1;
    }
  }

  /** The runs extended one after the other onto an empty list. */
  method Concatenate<T>(rows: seq<seq<T>>) returns (flat: seq<T>)
    ensures flat == Flatten(rows)
  {
    flat := [];
    var k := 0;
    while k < |rows|
      invariant 0 <= k <= |rows|
      invariant flat == Flatten(rows[..k])
    {
      assert rows[..k + 1] == rows[..k] + [rows[k]];
      FlattenSnoc(rows[..k], rows[k]);
      flat := flat + rows[k];
      k := k + 1;
    }
    assert rows[..k] == rows;
  }

  /**
   * group_cells_by_row: sort by (y, x), cut where successive y values are
   * more than rowThreshold apart, sort each run by x, and concatenate.
   */
  method GroupCellsByRow(cells: seq<Cell>, rowThreshold: int) returns (grouped: seq<Cell>)
    ensures grouped == GroupedByRow(cells, rowThreshold)
  {
    if |cells| == 0 {
      return [];
    }
    var sorted := SortYX(cells);
    assert |sorted| == |multiset(cells)| == |cells|;
    var rows := CutRuns(sorted, rowThreshold);
    rows := SortEachRun(rows);
    grouped := Concatenate(rows);
  }

  // ---------------------------------------------------------------------
  // Layout
  // ---------------------------------------------------------------------

  /** The number of places in a layout with the given row lengths. */
  function Total(layout: seq<nat>): nat
  {
    if |layout| == 0 then 0 else Total(layout[..|layout| - 1]) + layout[|layout| - 1]
  }

  lemma TotalStep(layout: seq<nat>, r: nat)
    requires r < |layout|
    ensures Total(layout[..r + 1]) == Total(layout[..r]) + layout[r]
  {
    assert layout[..r + 1][..r] == layout[..r];
  }

  /** n places filled row-major from grouped: the cells in order, then None. */
  function Padded(grouped: seq<Cell>, n: nat): (slots: seq<Option<Cell>>)
    ensures |slots| == n
  {
    seq(n, i requires 0 <= i < n => if i < |grouped| then Some(grouped[i]) else None)
  }

  lemma PaddedSnoc(grouped: seq<Cell>, n: nat)
    ensures Padded(grouped, n + 1) == Padded(grouped, n) + [if n < |grouped| then Some(grouped[n]) else None]
  {
  }

  /** The inner loop of assign_cells_to_layout: one row of `size` places, from position `index` on. */
  method FillRow(grouped: seq<Cell>, index: nat, size: nat, ghost start: nat) returns (rowCells: seq<Option<Cell>>, next: nat)
    requires index == Min(start, |grouped|)
    ensures |rowCells| == size
    ensures Padded(grouped, start) + rowCells == Padded(grouped, start + size)
    ensures next == Min(start + size, |grouped|)
  {
    rowCells := [];
    next := index;
    var c := 0;
    while c < size
      invariant 0 <= c <= size && |rowCells| == c
      invariant Padded(grouped, start) + rowCells == Padded(grouped, start + c)
      invariant next == Min(start + c, |grouped|)
    {
      PaddedSnoc(grouped, start + c);
      if next < |grouped| {
        rowCells := rowCells + [Some(grouped[next])];
        next := next + 1;
      } else {
        rowCells := rowCells + [None];
      }
      c := c + 1;
    }
  }

  /** The outer loop of assign_cells_to_layout: the grouped cells dealt out row by row into the layout. */
  method DealRows(grouped: seq<Cell>, layout: seq<nat>) returns (populated: seq<seq<Option<Cell>>>)
    ensures |populated| == |layout|
    ensures forall r | 0 <= r < |layout| :: |populated[r]| == layout[r]
    ensures Flatten(populated) == Padded(grouped, Total(layout))
  {
    populated := [];
    var index := 0;
    var r := 0;
    while r < |layout|
      invariant 0 <= r <= |layout| && |populated| == r
      invariant forall j | 0 <= j < r :: |populated[j]| == layout[j]
      invariant Flatten(populated) == Padded(grouped, Total(layout[..r]))
      invariant index == Min(Total(layout[..r]), |grouped|)
    {
      ghost var start := Total(layout[..r]);
      var rowCells;
      rowCells, index := FillRow(grouped, index, layout[r], start);
      TotalStep(layout, r);
      FlattenSnoc(populated, rowCells);
      ghost var before := populated;
      populated := populated + [rowCells];
      forall j | 0 <= j < r + 1
        ensures |populated[j]| == layout[j]
      {
        if j < r {
          assert populated[j] == before[j];
        }
      }
      r := r + 1;
    }
    assert layout[..r] == layout;
  }

  /**
   * assign_cells_to_layout: the hole centres grouped into rows with
   * threshold 10, then dealt out row by row into the layout, None once
   * they run out.
   */
  method AssignCellsToLayout(emptyCells: seq<Cell>, layout: seq<nat>) returns (populated: seq<seq<Option<Cell>>>)
    ensures |populated| == |layout|
    ensures forall r | 0 <= r < |layout| :: |populated[r]| == layout[r]
    ensures Flatten(populated) == Padded(GroupedByRow(emptyCells, LayoutRowThreshold), Total(layout))
  {
    var grouped := GroupCellsByRow(emptyCells, LayoutRowThreshold);
    populated := DealRows(grouped, layout);
  }

  lemma {:induction false} FlattenLength<T>(rows: seq<seq<T>>, layout: seq<nat>)
    requires |rows| == |layout| && forall j | 0 <= j < |rows| :: |rows[j]| == layout[j]
    ensures |Flatten(rows)| == Total(layout)
  {
    if |rows| > 0 {
      var n := |rows| - 1;
      assert rows == rows[..n] + [rows[n]];
      FlattenSnoc(rows[..n], rows[n]);
      FlattenLength(rows[..n], layout[..n]);
    }
  }

  /** Place c of row r of a layout is entry Total(layout[..r]) + c of the flattened rows. */
  lemma {:induction false} FlattenAt<T>(rows: seq<seq<T>>, layout: seq<nat>, r: nat, c: nat)
    requires |rows| == |layout| && forall j | 0 <= j < |rows| :: |rows[j]| == layout[j]
    requires r < |rows| && c < layout[r]
    ensures Total(layout[..r]) + c < |Flatten(rows)|
    ensures Flatten(rows)[Total(layout[..r]) + c] == rows[r][c]
  {
    var n := |rows| - 1;
    assert rows == rows[..n] + [rows[n]];
    FlattenSnoc(rows[..n], rows[n]);
    FlattenLength(rows[..n], layout[..n]);
    if r < n {
      assert layout[..n][..r] == layout[..r];
      FlattenAt(rows[..n], layout[..n], r, c);
    } else {
      assert layout[..r] == layout[..n];
    }
  }

  lemma {:induction false} TotalRowSizes(r: nat)
    requires r <= 17
    ensures Total(Topology.RowSizes[..r]) == Topology.RowStarts[r]
  {
    if r > 0 {
      TotalRowSizes(r - 1);
      assert Topology.RowSizes[..r][..r - 1] == Topology.RowSizes[..r - 1];
      Topology.RowStartStep(r - 1);
    }
  }

  /**
   * Filled with the board layout, the slot in row r, column c holds the
   * grouped cell whose position is the slot's flat index on the game
   * board, or None when fewer cells were found: the 121 places are
   * filled in the board's own numbering.
   */
  lemma BoardLayoutSlots(populated: seq<seq<Option<Cell>>>, grouped: seq<Cell>, r: int, c: int)
    requires |populated| == 17 && forall j | 0 <= j < 17 :: |populated[j]| == Topology.RowSizes[j]
    requires Flatten(populated) == Padded(grouped, Total(Topology.RowSizes))
    requires Topology.ValidPos(r, c)
    ensures Total(Topology.RowSizes) == 121
    ensures populated[r][c] == if Topology.FlatIndex(r, c) < |grouped| then Some(grouped[Topology.FlatIndex(r, c)]) else None
  {
    TotalRowSizes(17);
    assert Topology.RowSizes[..17] == Topology.RowSizes;
    TotalRowSizes(r);
    FlattenAt(populated, Topology.RowSizes, r, c);
  }

  // ---------------------------------------------------------------------
  // Marbles to holes
  // ---------------------------------------------------------------------

  /** The squared distance from a marble's centre to a hole centre. */
  function Dist2(m: Marble, c: Cell): int
  {
    (m.x - c.0) * (m.x - c.0) + (m.y - c.1) * (m.y - c.1)
  }

  /** dist < base_threshold + radius, with the distance compared through its square. */
  predicate Near(m: Marble, c: Cell, base: int)
  {
    base + m.radius > 0 && Dist2(m, c) < (base + m.radius) * (base + m.radius)
  }

  /**
   * For a distance h = hypot(dx, dy) >= 0 with h * h the integer d2,
   * h < bound exactly when bound is positive and d2 < bound * bound.
   */
  lemma HypotBelow(d2: int, h: real, bound: int)
    requires 0.0 <= h && h * h == d2 as real
    ensures h < bound as real <==> bound > 0 && d2 < bound * bound
  {
    var b := bound as real;
    assert (bound * bound) as real == b * b;
    if h < b {
      assert h * h <= h * b;
      assert h * b < b * b;
    }
  }

  /** Every entry is an index of cells. */
  predicate Indexes(order: seq<nat>, n: nat)
  {
    forall k | 0 <= k < |order| :: order[k] < n
  }

  /** Nearest first. */
  predicate NearestFirst(m: Marble, cells: seq<Cell>, order: seq<nat>)
    requires Indexes(order, |cells|)
  {
    forall a, b | 0 <= a < b < |order| :: Dist2(m, cells[order[a]]) <= Dist2(m, cells[order[b]])
  }

  lemma ConsNearest(m: Marble, cells: seq<Cell>, i: nat, order: seq<nat>)
    requires Indexes(order, |cells|) && NearestFirst(m, cells, order) && i < |cells|
    requires forall k | 0 <= k < |order| :: Dist2(m, cells[i]) <= Dist2(m, cells[order[k]])
    ensures Indexes([i] + order, |cells|) && NearestFirst(m, cells, [i] + order)
  {
    var c := [i] + order;
    forall a, b | 0 <= a < b < |c|
      ensures Dist2(m, cells[c[a]]) <= Dist2(m, cells[c[b]])
    {
      if a > 0 {
        assert c[a] == order[a - 1] && c[b] == order[b - 1];
      }
    }
  }

  /** Index i placed after every index at most as far away. */
  function InsertByDistance(m: Marble, cells: seq<Cell>, i: nat, order: seq<nat>): (r: seq<nat>)
    requires i < |cells| && Indexes(order, |cells|) && NearestFirst(m, cells, order)
    ensures Indexes(r, |cells|) && NearestFirst(m, cells, r)
    ensures |r| == |order| + 1 && forall j :: j in r <==> j == i || j in order
    decreases |order|
  {
    if |order| == 0 || Dist2(m, cells[i]) < Dist2(m, cells[order[0]]) then
      ConsNearest(m, cells, i, order);
      [i] + order
    else
      var rest := InsertByDistance(m, cells, i, order[1..]);
      assert order == [order[0]] + order[1..];
      assert forall k | 0 <= k < |rest| :: Dist2(m, cells[order[0]]) <= Dist2(m, cells[rest[k]]) by {
        forall k | 0 <= k < |rest|
          ensures Dist2(m, cells[order[0]]) <= Dist2(m, cells[rest[k]])
        {
          assert rest[k] in rest;
        }
      }
      ConsNearest(m, cells, order[0], rest);
      [order[0]] + rest
  }

  /**
   * np.argsort of the distances to the first n holes: every index once,
   * nearest first, equal distances in index order.
   */
  function ArgOrder(m: Marble, cells: seq<Cell>, n: nat): (order: seq<nat>)
    requires n <= |cells|
    ensures |order| == n && Indexes(order, |cells|) && NearestFirst(m, cells, order)
    ensures forall j: nat :: j in order <==> j < n
  {
    if n == 0 then []
    else
      var prev := ArgOrder(m, cells, n - 1);
      InsertByDistance(m, cells, n - 1, prev)
  }

  /** The hole at this position of the order is free and near enough. */
  predicate Fits(cells: seq<Cell>, taken: set<Cell>, m: Marble, base: int, i: nat)
    requires i < |cells|
  {
    cells[i] !in taken && Near(m, cells[i], base)
  }

  /** The scan of the sorted indices: the first position from p on whose hole fits. */
  function FirstFit(cells: seq<Cell>, taken: set<Cell>, m: Marble, base: int, order: seq<nat>, p: nat): (r: Option<nat>)
    requires Indexes(order, |cells|) && p <= |order|
    ensures r.Some? ==> p <= r.value < |order| && Fits(cells, taken, m, base, order[r.value])
    ensures r.Some? ==> forall q | p <= q < r.value :: !Fits(cells, taken, m, base, order[q])
    ensures r.None? ==> forall q | p <= q < |order| :: !Fits(cells, taken, m, base, order[q])
    decreases |order| - p
  {
    if p == |order| then None
    else if Fits(cells, taken, m, base, order[p]) then Some(p)
    else FirstFit(cells, taken, m, base, order, p + 1)
  }

  /** The index of the hole a marble is put in, given the holes already taken. */
  function Choose(cells: seq<Cell>, taken: set<Cell>, m: Marble, base: int): (r: Option<nat>)
    ensures r.Some? ==> r.value < |cells| && cells[r.value] !in taken
  {
    var order := ArgOrder(m, cells, |cells|);
    match FirstFit(cells, taken, m, base, order, 0)
    case None => None
    case Some(q) => Some(order[q])
  }

  /**
   * A marble goes to the nearest free hole when that hole is near enough,
   * and to none when no free hole is near enough.
   */
  lemma ChooseNearest(cells: seq<Cell>, taken: set<Cell>, m: Marble, base: int)
    ensures Choose(cells, taken, m, base).None? <==>
      forall j | 0 <= j < |cells| :: cells[j] in taken || !Near(m, cells[j], base)
    ensures Choose(cells, taken, m, base).Some? ==>
      var i := Choose(cells, taken, m, base).value;
      && i < |cells| && cells[i] !in taken && Near(m, cells[i], base)
      && forall j | 0 <= j < |cells| && cells[j] !in taken :: Dist2(m, cells[i]) <= Dist2(m, cells[j])
  {
    var order := ArgOrder(m, cells, |cells|);
    var found := FirstFit(cells, taken, m, base, order, 0);
    match found
    case None =>
      forall j | 0 <= j < |cells|
        ensures cells[j] in taken || !Near(m, cells[j], base)
      {
        assert j in order;
        var q :| 0 <= q < |order| && order[q] == j;
      }
    case Some(q) =>
      var i := order[q];
      forall j | 0 <= j < |cells| && cells[j] !in taken
        ensures Dist2(m, cells[i]) <= Dist2(m, cells[j])
      {
        assert j in order;
        var q2 :| 0 <= q2 < |order| && order[q2] == j;
      }
  }

  /** The state assign_marbles_to_cells keeps: the colour per hole, and the holes taken. */
  datatype Occupancy = Occupancy(colours: map<Cell, Option<string>>, occupied: set<Cell>)

  /** One marble handled. */
  function PlaceOne(cells: seq<Cell>, st: Occupancy, m: Marble, base: int): Occupancy
  {
    match Choose(cells, st.occupied, m, base)
    case None => st
    case Some(i) => Occupancy(st.colours[cells[i] := Some(m.color)], st.occupied + {cells[i]})
  }

  /** The marbles handled in input order, starting from every hole empty. */
  function Place(cells: seq<Cell>, marbles: seq<Marble>, base: int): Occupancy
    decreases |marbles|
  {
    if |marbles| == 0 then Occupancy(map c | c in cells :: None, {})
    else PlaceOne(cells, Place(cells, marbles[..|marbles| - 1], base), marbles[|marbles| - 1], base)
  }

  /** What assign_marbles_to_cells returns, or the name error its log line raises. */
  datatype Assignment = Assigned(colours: map<Cell, Option<string>>) | MinDistUnbound

  function AssignMarbles(cells: seq<Cell>, marbles: seq<Marble>, base: int): Assignment
  {
    if |cells| == 0 && |marbles| > 0 then MinDistUnbound
    else Assigned(Place(cells, marbles, base).colours)
  }

  /**
   * Every hole is a key; the taken holes are exactly those holding a
   * colour; and there are no more of them than marbles.
   */
  lemma {:induction false} PlaceInvariant(cells: seq<Cell>, marbles: seq<Marble>, base: int)
    ensures var st := Place(cells, marbles, base);
      && (forall c :: c in st.colours <==> c in cells)
      && (forall c :: c in st.occupied <==> c in st.colours && st.colours[c].Some?)
      && |st.occupied| <= |marbles|
    decreases |marbles|
  {
    if |marbles| > 0 {
      PlaceInvariant(cells, marbles[..|marbles| - 1], base);
    }
  }

  lemma {:induction false} PlaceOccupied(cells: seq<Cell>, marbles: seq<Marble>, base: int, c: Cell)
    ensures var st := Place(cells, marbles, base);
      c in st.occupied <==> c in st.colours && st.colours[c].Some?
    decreases |marbles|
  {
    if |marbles| > 0 {
      PlaceOccupied(cells, marbles[..|marbles| - 1], base, c);
    }
  }

  lemma PlaceOneKeeps(cells: seq<Cell>, st: Occupancy, m: Marble, base: int, c: Cell)
    requires c in st.colours && c in st.occupied
    ensures c in PlaceOne(cells, st, m, base).colours && c in PlaceOne(cells, st, m, base).occupied
    ensures PlaceOne(cells, st, m, base).colours[c] == st.colours[c]
  {
  }

  lemma PlaceLastKeeps(cells: seq<Cell>, marbles: seq<Marble>, base: int, c: Cell)
    requires |marbles| > 0
    requires c in Place(cells, marbles[..|marbles| - 1], base).colours
    requires Place(cells, marbles[..|marbles| - 1], base).colours[c].Some?
    ensures c in Place(cells, marbles, base).colours
    ensures Place(cells, marbles, base).colours[c] == Place(cells, marbles[..|marbles| - 1], base).colours[c]
  {
    PlaceOccupied(cells, marbles[..|marbles| - 1], base, c);
    PlaceOneKeeps(cells, Place(cells, marbles[..|marbles| - 1], base), marbles[|marbles| - 1], base, c);
  }

  lemma {:induction false} KeepsFrom(cells: seq<Cell>, marbles: seq<Marble>, base: int, k: nat, c: Cell, v: Option<string>)
    requires k <= |marbles| && v.Some?
    requires c in Place(cells, marbles[..k], base).colours && Place(cells, marbles[..k], base).colours[c] == v
    ensures c in Place(cells, marbles, base).colours && Place(cells, marbles, base).colours[c] == v
    decreases |marbles| - k
  {
    if k == |marbles| {
      assert marbles[..k] == marbles;
    } else {
      var next := marbles[..k + 1];
      assert next[..|next| - 1] == marbles[..k];
      PlaceLastKeeps(cells, next, base, c);
      KeepsFrom(cells, marbles, base, k + 1, c, v);
    }
  }

  /** A hole once given a marble keeps that marble's colour: no hole gets two marbles. */
  lemma PlaceKeeps(cells: seq<Cell>, marbles: seq<Marble>, base: int, k: nat, c: Cell)
    requires k <= |marbles|
    requires c in Place(cells, marbles[..k], base).colours && Place(cells, marbles[..k], base).colours[c].Some?
    ensures c in Place(cells, marbles, base).colours
    ensures Place(cells, marbles, base).colours[c] == Place(cells, marbles[..k], base).colours[c]
  {
    KeepsFrom(cells, marbles, base, k, c, Place(cells, marbles[..k], base).colours[c]);
  }

  /**
   * The k-th marble either leaves the board as it was (no free hole near
   * enough) or takes the nearest free hole, which was not taken before.
   */
  lemma MarbleStep(cells: seq<Cell>, marbles: seq<Marble>, base: int, k: nat)
    requires k < |marbles|
    ensures var before := Place(cells, marbles[..k], base);
      var after := Place(cells, marbles[..k + 1], base);
      var m := marbles[k];
      || (after == before && forall j | 0 <= j < |cells| :: cells[j] in before.occupied || !Near(m, cells[j], base))
      || exists i | 0 <= i < |cells| ::
           && cells[i] !in before.occupied && Near(m, cells[i], base)
           && (forall j | 0 <= j < |cells| && cells[j] !in before.occupied :: Dist2(m, cells[i]) <= Dist2(m, cells[j]))
           && after.colours == before.colours[cells[i] := Some(m.color)]
           && after.occupied == before.occupied + {cells[i]}
  {
    assert marbles[..k + 1][..k] == marbles[..k];
    var before := Place(cells, marbles[..k], base);
    ChooseNearest(cells, before.occupied, marbles[k], base);
  }

  /** An empty list of holes with at least one marble is the one error; otherwise every hole is a key. */
  lemma AssignMarblesOutcome(cells: seq<Cell>, marbles: seq<Marble>, base: int)
    ensures AssignMarbles(cells, marbles, base).MinDistUnbound? <==> |cells| == 0 && |marbles| > 0
    ensures AssignMarbles(cells, marbles, base).Assigned? ==>
      forall c :: c in AssignMarbles(cells, marbles, base).colours <==> c in cells
  {
    PlaceInvariant(cells, marbles, base);
  }

  /** The state after marble k, from the state before it and the hole chosen for it. */
  lemma PlaceExtend(cells: seq<Cell>, marbles: seq<Marble>, base: int, k: nat, chosen: Option<nat>)
    requires k < |marbles|
    requires chosen == Choose(cells, Place(cells, marbles[..k], base).occupied, marbles[k], base)
    ensures chosen.Some? ==> chosen.value < |cells|
    ensures var before := Place(cells, marbles[..k], base);
      Place(cells, marbles[..k + 1], base) ==
        match chosen
        case None => before
        case Some(i) => Occupancy(before.colours[cells[i] := Some(marbles[k].color)], before.occupied + {cells[i]})
  {
    assert marbles[..k + 1][..k] == marbles[..k];
  }

  /** The scan over the sorted indices for one marble. */
  method ScanForHole(cells: seq<Cell>, occupied: set<Cell>, m: Marble, base: int) returns (chosen: Option<nat>, scanned: bool)
    ensures chosen == Choose(cells, occupied, m, base)
    ensures scanned <==> |cells| > 0
  {
    var order := ArgOrder(m, cells, |cells|);
    assert |cells| > 0 ==> 0 in order;
    chosen := None;
    scanned := false;
    var p := 0;
    while p < |order|
      invariant 0 <= p <= |order|
      invariant FirstFit(cells, occupied, m, base, order, p) == FirstFit(cells, occupied, m, base, order, 0)
      invariant scanned <==> p > 0
    {
      var idx := order[p];
      scanned := true;
      if cells[idx] !in occupied && Near(m, cells[idx], base) {
        chosen := Some(idx);
        return;
      }
      p := p + 1;
    }
  }

  /**
   * assign_marbles_to_cells: each marble in turn takes the nearest free
   * hole closer than base + radius, or is skipped; with no holes at all
   * the first marble's log line names an unbound min_dist.
   */
  method AssignMarblesToCells(cells: seq<Cell>, marbles: seq<Marble>, base: int) returns (result: Assignment)
    ensures result == AssignMarbles(cells, marbles, base)
  {
    var cellOccupancy: map<Cell, Option<string>> := map c | c in cells :: None;
    var occupiedCells: set<Cell> := {};
    var minDistBound := false;
    var k := 0;
    while k < |marbles|
      invariant 0 <= k <= |marbles|
      invariant Occupancy(cellOccupancy, occupiedCells) == Place(cells, marbles[..k], base)
      invariant minDistBound <==> k > 0 && |cells| > 0
      invariant |cells| == 0 ==> k == 0
    {
      var m := marbles[k];
      var chosen, scanned := ScanForHole(cells, occupiedCells, m, base);
      minDistBound := minDistBound || scanned;
      PlaceExtend(cells, marbles, base, k, chosen);
      match chosen {
        case Some(i) =>
          cellOccupancy := cellOccupancy[cells[i] := Some(m.color)];
          occupiedCells := occupiedCells + {cells[i]};
        case None =>
          if !minDistBound {
            return MinDistUnbound;
          }
      }
      k := k + 1;
    }
    assert marbles[..k] == marbles;
    result := Assigned(cellOccupancy);
  }

  // ---------------------------------------------------------------------
  // Text board
  // ---------------------------------------------------------------------

  /** cell_occupancy.get(cell, None). */
  function Occupant(colours: map<Cell, Option<string>>, c: Cell): Option<string>
  {
    if c in colours then colours[c] else None
  }

  /** The character written for one place of the layout. */
  function Glyph(slot: Option<Cell>, colours: map<Cell, Option<string>>): (g: char)
    ensures g == 'X' <==> slot.None?
    ensures g == '.' <==> slot.Some? && Occupant(colours, slot.value).None?
    ensures g == 'G' <==> slot.Some? && Occupant(colours, slot.value) == Some("green")
    ensures g == 'R' <==> slot.Some? && Occupant(colours, slot.value) == Some("red")
    ensures g != '?' ==> g == 'X' || g == '.' || g == 'G' || g == 'R'
  {
    match slot
    case None => 'X'
    case Some(c) =>
      match Occupant(colours, c)
      case None => '.'
      case Some(colour) => if colour == "green" then 'G' else if colour == "red" then 'R' else '?'
  }

  /** The characters of one row of the layout. */
  function Glyphs(row: seq<Option<Cell>>, colours: map<Cell, Option<string>>): (gs: seq<char>)
    ensures |gs| == |row| && forall k | 0 <= k < |row| :: gs[k] == Glyph(row[k], colours)
  {
    seq(|row|, k requires 0 <= k < |row| => Glyph(row[k], colours))
  }

  /** A row of the text board: its characters joined with single blanks. */
  function RowText(row: seq<Option<Cell>>, colours: map<Cell, Option<string>>): string
  {
    BoardText.Unwords(Glyphs(row, colours))
  }

  /**
   * print_text_board: one line per layout row, built character by
   * character; the lines are returned instead of printed and written to
   * board_matrix.txt.
   */
  method PrintTextBoard(populated: seq<seq<Option<Cell>>>, colours: map<Cell, Option<string>>) returns (lines: seq<string>)
    ensures |lines| == |populated|
    ensures forall r | 0 <= r < |populated| :: lines[r] == RowText(populated[r], colours)
  {
    lines := [];
    var r := 0;
    while r < |populated|
      invariant 0 <= r <= |populated| && |lines| == r
      invariant forall j | 0 <= j < r :: lines[j] == RowText(populated[j], colours)
    {
      var row := populated[r];
      var rowStr: seq<char> := [];
      var c := 0;
      while c < |row|
        invariant 0 <= c <= |row|
        invariant rowStr == Glyphs(row[..c], colours)
      {
        assert row[..c + 1] == row[..c] + [row[c]];
        rowStr := rowStr + [Glyph(row[c], colours)];
        c := c + 1;
      }
      assert row[..c] == row;
      lines := lines + [BoardText.Unwords(rowStr)];
      r := r + 1;
    }
  }

  /** How the game server's board parser reads a written character. */
  function Reading(g: char): char
  {
    if g == 'G' then 'O' else if g == 'R' then 'X' else g
  }

  lemma {:induction false} SymbolsOfGlyphs(gs: seq<char>)
    requires forall k | 0 <= k < |gs| :: gs[k] == 'X' || gs[k] == '.' || gs[k] == 'G' || gs[k] == 'R'
    ensures BoardText.Symbols(BoardText.Singletons(gs)) == seq(|gs|, k requires 0 <= k < |gs| => Reading(gs[k]))
  {
    if |gs| > 0 {
      var n := |gs| - 1;
      assert BoardText.Singletons(gs)[..n] == BoardText.Singletons(gs[..n]);
      SymbolsOfGlyphs(gs[..n]);
      assert BoardText.Symbol([gs[n]]) == Some(Reading(gs[n]));
    }
  }

  /**
   * A row written without '?' is read back by the game server's parser
   * place for place: green as player 1 ('O'), red as player 2 ('X'), an
   * empty hole as '.', and a place where no hole was detected also as 'X',
   * that is, as a player-2 marble.
   */
  lemma RowTextParsed(row: seq<Option<Cell>>, colours: map<Cell, Option<string>>)
    requires forall k | 0 <= k < |row| :: Glyph(row[k], colours) != '?'
    ensures var parsed := BoardText.Symbols(BoardText.Words(RowText(row, colours)));
      && |parsed| == |row|
      && forall k | 0 <= k < |row| ::
           parsed[k] == (if row[k].None? then 'X'
                         else match Occupant(colours, row[k].value)
                           case None => '.'
                           case Some(colour) => if colour == "green" then 'O' else 'X')
  {
    var gs := Glyphs(row, colours);
    BoardText.WordsUnwords(gs);
    SymbolsOfGlyphs(gs);
  }
}
