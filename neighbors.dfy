/**
 * The Moore neighbourhood of a cell: which cells the board visits around a
 * centre, in which order, and how many of them are mined.
 */
module Neighbors {
  import opened Grid

  /** The eight positions around `p`, in row-major order. */
  function Offsets(p: Pos): (ps: seq<Pos>)
    ensures |ps| == 8
  {
    [Pos(p.row - 1, p.col - 1), Pos(p.row - 1, p.col), Pos(p.row - 1, p.col + 1),
     Pos(p.row, p.col - 1), Pos(p.row, p.col + 1),
     Pos(p.row + 1, p.col - 1), Pos(p.row + 1, p.col), Pos(p.row + 1, p.col + 1)]
  }

  /** Strictly increasing in row-major order (hence without repetitions). */
  predicate Sorted(ps: seq<Pos>) {
    forall i, j :: 0 <= i < j < |ps| ==> Before(ps[i], ps[j])
  }

  /** The positions of `ps` that lie on the grid, in their original order. */
  function KeepInBounds(g: Cells, ps: seq<Pos>): (r: seq<Pos>)
    ensures |r| <= |ps|
    ensures forall q :: q in r <==> q in ps && InBounds(g, q)
    ensures Sorted(ps) ==> Sorted(r)
  {
    if ps == [] then []
    else
      var rest := KeepInBounds(g, ps[1..]);
      assert forall q :: q in ps <==> q == ps[0] || q in ps[1..];
      assert Sorted(ps) ==> Sorted(ps[1..]) && forall q :: q in rest ==> Before(ps[0], q);
      if InBounds(g, ps[0]) then [ps[0]] + rest else rest
  }

  /** The cells the board visits around `p`: the in-bounds ones among the eight offsets. */
  function Neighborhood(g: Cells, p: Pos): seq<Pos> {
    KeepInBounds(g, Offsets(p))
  }

  /**
   * The neighbourhood holds exactly the in-bounds cells adjacent to `p`, in
   * row-major order, so at most eight of them.
   */
  lemma NeighborhoodIsAdjacentInBounds(g: Cells, p: Pos)
    ensures forall q :: q in Neighborhood(g, p) <==> InBounds(g, q) && Adjacent(p, q)
    ensures Sorted(Neighborhood(g, p))
    ensures |Neighborhood(g, p)| <= 8
  {
    var os := Offsets(p);
    assert Sorted(os);
    forall q | Adjacent(p, q)
      ensures q in os
    {
      if q.row == p.row - 1 {
        assert q == os[0] || q == os[1] || q == os[2];
      } else if q.row == p.row {
        assert q == os[3] || q == os[4];
      } else {
        assert q == os[5] || q == os[6] || q == os[7];
      }
    }
  }

  /** Each visited cell is in bounds and adjacent to the centre. */
  lemma NeighborAt(g: Cells, p: Pos, k: int)
    requires 0 <= k < |Neighborhood(g, p)|
    ensures InBounds(g, Neighborhood(g, p)[k]) && Adjacent(p, Neighborhood(g, p)[k])
  {
    NeighborhoodIsAdjacentInBounds(g, p);
    assert Neighborhood(g, p)[k] in Neighborhood(g, p);
  }

  /** Two row-major-sorted sequences with the same elements are the same sequence. */
  lemma {:induction false} SortedUnique(a: seq<Pos>, b: seq<Pos>)
    requires Sorted(a) && Sorted(b)
    requires forall q :: q in a <==> q in b
    ensures a == b
  {
    if a != [] || b != [] {
      assert a != [] ==> a[0] in b;
      assert b != [] ==> b[0] in a;
      assert a[0] == b[0] by {
        assert b[0] in a && a[0] in b;
      }
      forall q
        ensures q in a[1..] <==> q in b[1..]
      {
        if q in a[1..] {
          var k :| 1 <= k < |a| && a[k] == q;
          assert Before(a[0], a[k]);
          assert q in b;
          var m :| 0 <= m < |b| && b[m] == q;
        }
        if q in b[1..] {
          var k :| 1 <= k < |b| && b[k] == q;
          assert Before(b[0], b[k]);
          assert q in a;
          var m :| 0 <= m < |a| && a[m] == q;
        }
      }
      SortedUnique(a[1..], b[1..]);
    }
  }

  // The scan of forEachNeighbor: row by row over the clipped 3x3 window,
  // skipping the centre.

  /**
   * What the scan has produced by the time it reaches `scan`: in order, the
   * in-bounds cells adjacent to `center` that come before `scan`.
   */
  ghost predicate VisitedBefore(g: Cells, center: Pos, visited: seq<Pos>, scan: Pos) {
    Sorted(visited) &&
    (forall k :: 0 <= k < |visited| ==>
      InBounds(g, visited[k]) && Adjacent(center, visited[k]) && Before(visited[k], scan)) &&
    (forall q {:trigger q in visited} :: InBounds(g, q) && Adjacent(center, q) && Before(q, scan) ==> q in visited)
  }

  /** Nothing is visited before the window's first cell. */
  lemma VisitStart(g: Cells, center: Pos, startRow: int, startCol: int)
    requires startRow <= 0 || startRow <= center.row - 1
    requires startCol <= 0 || startCol <= center.col - 1
    ensures VisitedBefore(g, center, [], Pos(startRow, startCol))
  {
  }

  /** Passing one cell appends it exactly when it is an in-bounds neighbour. */
  lemma VisitCell(g: Cells, center: Pos, visited: seq<Pos>, scan: Pos)
    requires VisitedBefore(g, center, visited, scan)
    ensures VisitedBefore(g, center,
      if InBounds(g, scan) && Adjacent(center, scan) then visited + [scan] else visited,
      Pos(scan.row, scan.col + 1))
  {
    var next := Pos(scan.row, scan.col + 1);
    var v := if InBounds(g, scan) && Adjacent(center, scan) then visited + [scan] else visited;
    forall q | InBounds(g, q) && Adjacent(center, q) && Before(q, next)
      ensures q in v
    {
      if q != scan {
        assert Before(q, scan);
      }
    }
  }

  /** What forEachNeighbor does at one cell of its window: visit it unless it is the centre. */
  function VisitWindow(visited: seq<Pos>, center: Pos, row: int, col: int): (r: seq<Pos>)
    ensures r == visited || r == visited + [Pos(row, col)]
  {
    if row != center.row || col != center.col then visited + [Pos(row, col)] else visited
  }

  /** One cell of the 3 by 3 window clipped to the grid: it is visited unless it is the centre. */
  lemma VisitWindowCell(g: Cells, center: Pos, visited: seq<Pos>, row: int, col: int)
    requires Rectangular(g) && 0 <= row < |g| && 0 <= col < |g[0]|
    requires center.row - 1 <= row <= center.row + 1 && center.col - 1 <= col <= center.col + 1
    requires VisitedBefore(g, center, visited, Pos(row, col))
    ensures VisitedBefore(g, center, VisitWindow(visited, center, row, col), Pos(row, col + 1))
  {
    assert InBounds(g, Pos(row, col)) && Adjacent(center, Pos(row, col)) <==> row != center.row || col != center.col;
    VisitCell(g, center, visited, Pos(row, col));
  }

  /** Past the window's last column the scan moves on to the next row. */
  lemma VisitNextRow(g: Cells, center: Pos, visited: seq<Pos>, row: int, col: int, startCol: int)
    requires Rectangular(g)
    requires VisitedBefore(g, center, visited, Pos(row, col))
    requires (|g| > 0 && col >= |g[0]|) || col >= center.col + 2
    requires startCol <= 0 || startCol <= center.col - 1
    ensures VisitedBefore(g, center, visited, Pos(row + 1, startCol))
  {
    forall q | InBounds(g, q) && Adjacent(center, q) && Before(q, Pos(row + 1, startCol))
      ensures q in visited
    {
      assert Before(q, Pos(row, col));
    }
  }

  /** Past the window's last row the scan has produced the neighbourhood. */
  lemma VisitEnd(g: Cells, center: Pos, visited: seq<Pos>, row: int, startCol: int)
    requires VisitedBefore(g, center, visited, Pos(row, startCol))
    requires row >= |g| || row >= center.row + 2
    ensures visited == Neighborhood(g, center)
  {
    NeighborhoodIsAdjacentInBounds(g, center);
    forall q
      ensures q in visited <==> q in Neighborhood(g, center)
    {
      if InBounds(g, q) && Adjacent(center, q) {
        assert Before(q, Pos(row, startCol));
      }
    }
    SortedUnique(visited, Neighborhood(g, center));
  }

  /** No neighbour is listed twice: none occurs before its own index. */
  lemma NeighborhoodDistinct(g: Cells, p: Pos, k: int)
    requires 0 <= k < |Neighborhood(g, p)|
    ensures Neighborhood(g, p)[k] !in Neighborhood(g, p)[..k]
  {
    var ns := Neighborhood(g, p);
    NeighborhoodIsAdjacentInBounds(g, p);
    forall j | 0 <= j < k
      ensures ns[j] != ns[k]
    {
      assert Before(ns[j], ns[k]);
    }
  }

  /** 1 when `q` is a mined cell of the grid, 0 otherwise (also off the grid). */
  function MineAt(g: Cells, q: Pos): nat {
    if InBounds(g, q) && At(g, q).isMined then 1 else 0
  }

  /** The true number of mined cells among the eight cells surrounding `p`. */
  function MinedNeighbors(g: Cells, p: Pos): nat {
    MineAt(g, Pos(p.row - 1, p.col - 1)) + MineAt(g, Pos(p.row - 1, p.col)) + MineAt(g, Pos(p.row - 1, p.col + 1)) +
    MineAt(g, Pos(p.row, p.col - 1)) + MineAt(g, Pos(p.row, p.col + 1)) +
    MineAt(g, Pos(p.row + 1, p.col - 1)) + MineAt(g, Pos(p.row + 1, p.col)) + MineAt(g, Pos(p.row + 1, p.col + 1))
  }

  /** Every cell's `neighboringMines` is the true number of mined cells around it. */
  ghost predicate Consistent(g: Cells) {
    forall p {:trigger MinedNeighbors(g, p)} :: InBounds(g, p) ==> At(g, p).neighboringMines == MinedNeighbors(g, p)
  }

  /** Same shape, same mines, same counts: the other fields may differ. */
  ghost predicate SameLayout(g: Cells, h: Cells) {
    SameShape(g, h) &&
    forall p :: InBounds(g, p) ==>
      InBounds(h, p) && At(h, p).isMined == At(g, p).isMined &&
      At(h, p).neighboringMines == At(g, p).neighboringMines
  }

  /** Covering and flagging do not bear on whether the counts are right. */
  lemma ConsistentSameLayout(g: Cells, h: Cells)
    requires SameLayout(g, h)
    ensures Consistent(g) <==> Consistent(h)
  {
    SameShapeInBounds(g, h);
    assert forall q :: MineAt(g, q) == MineAt(h, q);
    assert forall p :: MinedNeighbors(g, p) == MinedNeighbors(h, p);
  }

  /** In a consistent grid, a cell showing zero has no mined neighbour. */
  lemma ZeroHasNoMinedNeighbor(g: Cells, p: Pos, q: Pos)
    requires Consistent(g) && InBounds(g, p) && InBounds(g, q) && Adjacent(p, q)
    requires At(g, p).neighboringMines == 0
    ensures !At(g, q).isMined
  {
    assert MineAt(g, q) <= MinedNeighbors(g, p);
  }

  // The counts during the row-major scan of computeNeighborCounts: only mined
  // cells strictly before `scan` have contributed so far.

  function MineBefore(g: Cells, q: Pos, scan: Pos): nat {
    if Before(q, scan) then MineAt(g, q) else 0
  }

  function MinedNeighborsBefore(g: Cells, p: Pos, scan: Pos): nat {
    MineBefore(g, Pos(p.row - 1, p.col - 1), scan) + MineBefore(g, Pos(p.row - 1, p.col), scan) +
    MineBefore(g, Pos(p.row - 1, p.col + 1), scan) +
    MineBefore(g, Pos(p.row, p.col - 1), scan) + MineBefore(g, Pos(p.row, p.col + 1), scan) +
    MineBefore(g, Pos(p.row + 1, p.col - 1), scan) + MineBefore(g, Pos(p.row + 1, p.col), scan) +
    MineBefore(g, Pos(p.row + 1, p.col + 1), scan)
  }

  lemma ScanStart(g: Cells, p: Pos)
    ensures MinedNeighborsBefore(g, p, Pos(0, 0)) == 0
  {
  }

  /** Moving the scan past `scan` adds that cell's mine to each of its neighbours. */
  lemma ScanStep(g: Cells, p: Pos, scan: Pos)
    ensures MinedNeighborsBefore(g, p, Pos(scan.row, scan.col + 1))
         == MinedNeighborsBefore(g, p, scan) + (if Adjacent(scan, p) then MineAt(g, scan) else 0)
  {
  }

  /** The end of a row is the start of the next one. */
  lemma ScanNextRow(g: Cells, p: Pos, row: int)
    requires 0 <= row < |g|
    ensures MinedNeighborsBefore(g, p, Pos(row, |g[row]|)) == MinedNeighborsBefore(g, p, Pos(row + 1, 0))
  {
  }

  /** Once the scan has passed every row, every mined neighbour has contributed. */
  lemma ScanEnd(g: Cells, p: Pos)
    ensures MinedNeighborsBefore(g, p, Pos(|g|, 0)) == MinedNeighbors(g, p)
  {
  }

  /** Grids of the same shape with the same mines have the same true counts. */
  lemma SameMinesNeighbors(g: Cells, h: Cells)
    requires SameShape(g, h)
    requires forall p :: InBounds(g, p) ==> At(g, p).isMined == At(h, p).isMined
    ensures forall p :: MinedNeighbors(g, p) == MinedNeighbors(h, p)
  {
    SameShapeInBounds(g, h);
    assert forall q :: MineAt(g, q) == MineAt(h, q);
    assert forall p :: MinedNeighbors(g, p) == MinedNeighbors(h, p);
  }

  /** `g` with one added to the count of every cell whose position is in `ps`. */
  function IncrementAt(g: Cells, ps: seq<Pos>): (r: Cells)
    ensures SameShape(g, r) && (Rectangular(g) ==> Rectangular(r))
  {
    seq(|g|, i requires 0 <= i < |g| =>
      seq(|g[i]|, j requires 0 <= j < |g[i]| =>
        g[i][j].(neighboringMines := g[i][j].neighboringMines + (if Pos(i, j) in ps then 1 else 0))))
  }

  lemma IncrementNone(g: Cells)
    ensures IncrementAt(g, []) == g
  {
    Extensionality(IncrementAt(g, []), g);
  }

  /** Incrementing one more cell, not yet incremented, is one more update in place. */
  lemma IncrementOneMore(g: Cells, ps: seq<Pos>, n: Pos)
    requires InBounds(g, n) && n !in ps
    ensures InBounds(IncrementAt(g, ps), n)
    ensures IncrementAt(g, ps + [n])
         == Put(IncrementAt(g, ps), n,
                At(IncrementAt(g, ps), n).(neighboringMines := At(IncrementAt(g, ps), n).neighboringMines + 1))
  {
    var h := IncrementAt(g, ps);
    Extensionality(IncrementAt(g, ps + [n]), Put(h, n, At(h, n).(neighboringMines := At(h, n).neighboringMines + 1)));
  }

  // The counts are stated cell by cell in separate lemmas rather than in the
  // functions' own postconditions: a quantified postcondition mentioning the
  // eight neighbours of every cell would keep producing new cells to talk about.

  /** The grid computeNeighborCounts produces from `g` (see WithNeighborCountsAt). */
  function WithNeighborCounts(g: Cells): (r: Cells)
    ensures SameShape(g, r) && (Rectangular(g) ==> Rectangular(r))
  {
    seq(|g|, i requires 0 <= i < |g| =>
      seq(|g[i]|, j requires 0 <= j < |g[i]| =>
        g[i][j].(neighboringMines := g[i][j].neighboringMines + MinedNeighbors(g, Pos(i, j)))))
  }

  /**
   * After computeNeighborCounts every cell keeps its mine, flag and cover,
   * and its count has grown by the true number of mined cells around it.
   */
  lemma WithNeighborCountsAt(g: Cells, p: Pos)
    requires InBounds(g, p)
    ensures InBounds(WithNeighborCounts(g), p)
    ensures At(WithNeighborCounts(g), p)
         == At(g, p).(neighboringMines := At(g, p).neighboringMines + MinedNeighbors(g, p))
  {
  }

  /** Counting from zero makes every count right: a board whose counts start at zero ends up consistent. */
  lemma WithNeighborCountsConsistent(g: Cells)
    requires forall p :: InBounds(g, p) ==> At(g, p).neighboringMines == 0
    ensures Consistent(WithNeighborCounts(g))
  {
    var r := WithNeighborCounts(g);
    SameShapeInBounds(g, r);
    forall p | InBounds(r, p)
      ensures At(r, p).neighboringMines == MinedNeighbors(r, p)
    {
      WithNeighborCountsAt(g, p);
      forall q | InBounds(g, q)
        ensures At(r, q).isMined == At(g, q).isMined
      {
        WithNeighborCountsAt(g, q);
      }
      SameMinesNeighbors(g, r);
    }
  }

  /**
   * computeNeighborCounts part-way through its scan of `g0`: every cell's
   * count grown by the number of its mined neighbours before `scan`.
   */
  ghost function Tallied(g0: Cells, scan: Pos): (r: Cells)
    ensures SameShape(g0, r) && (Rectangular(g0) ==> Rectangular(r))
  {
    seq(|g0|, i requires 0 <= i < |g0| =>
      seq(|g0[i]|, j requires 0 <= j < |g0[i]| =>
        g0[i][j].(neighboringMines := g0[i][j].neighboringMines + MinedNeighborsBefore(g0, Pos(i, j), scan))))
  }

  lemma TalliedAt(g0: Cells, scan: Pos, p: Pos)
    requires InBounds(g0, p)
    ensures InBounds(Tallied(g0, scan), p)
    ensures At(Tallied(g0, scan), p)
         == At(g0, p).(neighboringMines := At(g0, p).neighboringMines + MinedNeighborsBefore(g0, p, scan))
  {
  }

  lemma TallyStart(g0: Cells)
    ensures Tallied(g0, Pos(0, 0)) == g0
  {
    forall p | InBounds(g0, p)
      ensures At(Tallied(g0, Pos(0, 0)), p) == At(g0, p)
    {
      TalliedAt(g0, Pos(0, 0), p);
      ScanStart(g0, p);
    }
    Extensionality(Tallied(g0, Pos(0, 0)), g0);
  }

  /** The mined cells are those of `g0` all along the scan. */
  lemma TalliedMines(g0: Cells, scan: Pos, p: Pos)
    requires InBounds(g0, p)
    ensures InBounds(Tallied(g0, scan), p) && At(Tallied(g0, scan), p).isMined == At(g0, p).isMined
  {
    TalliedAt(g0, scan, p);
  }

  /** Passing a mined cell adds one to each of its in-bounds neighbours; passing any other cell changes nothing. */
  lemma TallyPass(g0: Cells, scan: Pos)
    requires InBounds(g0, scan)
    ensures InBounds(Tallied(g0, scan), scan)
    ensures Tallied(g0, Pos(scan.row, scan.col + 1))
         == if At(Tallied(g0, scan), scan).isMined
            then IncrementAt(Tallied(g0, scan), Neighborhood(Tallied(g0, scan), scan))
            else Tallied(g0, scan)
  {
    var t := Tallied(g0, scan);
    var next := Tallied(g0, Pos(scan.row, scan.col + 1));
    TalliedMines(g0, scan, scan);
    var expected := if At(g0, scan).isMined then IncrementAt(t, Neighborhood(t, scan)) else t;
    NeighborhoodIsAdjacentInBounds(t, scan);
    SameShapeInBounds(g0, t);
    forall p | InBounds(g0, p)
      ensures At(next, p) == At(expected, p)
    {
      TalliedAt(g0, scan, p);
      TalliedAt(g0, Pos(scan.row, scan.col + 1), p);
      ScanStep(g0, p, scan);
    }
    Extensionality(next, expected);
  }

  /** One step of the scan, in the form the scanning loop uses: the grid before and after visiting `scan`. */
  lemma TallyStep(g0: Cells, row: int, col: int, before: Cells, after: Cells)
    requires InBounds(g0, Pos(row, col)) && before == Tallied(g0, Pos(row, col))
    requires InBounds(before, Pos(row, col))
    requires after == if At(before, Pos(row, col)).isMined
                      then IncrementAt(before, Neighborhood(before, Pos(row, col)))
                      else before
    ensures after == Tallied(g0, Pos(row, col + 1))
  {
    TallyPass(g0, Pos(row, col));
  }

  lemma TallyNextRow(g0: Cells, row: int)
    requires 0 <= row < |g0|
    ensures Tallied(g0, Pos(row, |g0[row]|)) == Tallied(g0, Pos(row + 1, 0))
  {
    forall p | InBounds(g0, p)
      ensures At(Tallied(g0, Pos(row, |g0[row]|)), p) == At(Tallied(g0, Pos(row + 1, 0)), p)
    {
      TalliedAt(g0, Pos(row, |g0[row]|), p);
      TalliedAt(g0, Pos(row + 1, 0), p);
      ScanNextRow(g0, p, row);
    }
    Extensionality(Tallied(g0, Pos(row, |g0[row]|)), Tallied(g0, Pos(row + 1, 0)));
  }

  /** After the last row every cell's count has grown by its true number of mined neighbours. */
  lemma TallyEnd(g0: Cells)
    ensures Tallied(g0, Pos(|g0|, 0)) == WithNeighborCounts(g0)
  {
    forall p | InBounds(g0, p)
      ensures At(Tallied(g0, Pos(|g0|, 0)), p) == At(WithNeighborCounts(g0), p)
    {
      TalliedAt(g0, Pos(|g0|, 0), p);
      WithNeighborCountsAt(g0, p);
      ScanEnd(g0, p);
    }
    Extensionality(Tallied(g0, Pos(|g0|, 0)), WithNeighborCounts(g0));
  }
}
