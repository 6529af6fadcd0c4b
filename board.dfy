/** The Board class: a rectangular grid of cells that the game updates in place. */
module Boards {
  import opened Grid
  import opened Counting
  import opened Neighbors
  import opened Flood

  /**
   * The state of the flood's callback part way through the neighbours `ns`
   * of `next`: the first `k` are uncovered, the flood invariant holds with
   * `next` still on the stack, and every push paid for by one uncovered cell.
   */
  ghost predicate Spreading(g0: Cells, g1: Cells, g: Cells, start: Pos, next: Pos, ns: seq<Pos>, k: int,
                            toProcess: seq<Pos>, pushed: seq<Pos>) {
    Flooding(g0, g, start, pushed + [next]) && SpreadProgress(g1, g, next, ns, k, toProcess, pushed)
  }

  /**
   * The callback's own bookkeeping: the first `k` neighbours are uncovered,
   * only uncovering has happened, and every push is paid for by one uncovered cell.
   */
  ghost predicate SpreadProgress(g1: Cells, g: Cells, next: Pos, ns: seq<Pos>, k: int,
                                 toProcess: seq<Pos>, pushed: seq<Pos>) {
    ns == Neighborhood(g1, next) && 0 <= k <= |ns| && Rectangular(g) && OnlyUncovers(g1, g) &&
    |toProcess| <= |pushed| && pushed[..|toProcess|] == toProcess &&
    (forall j :: 0 <= j < k ==> InBounds(g, ns[j]) && !At(g, ns[j]).isCovered) &&
    Count(g, IsCovered) + |pushed| <= Count(g1, IsCovered) + |toProcess|
  }

  lemma SpreadBegin(g0: Cells, g1: Cells, start: Pos, next: Pos, ns: seq<Pos>, toProcess: seq<Pos>)
    requires Rectangular(g1) && Flooding(g0, g1, start, toProcess + [next]) && ns == Neighborhood(g1, next)
    ensures Spreading(g0, g1, g1, start, next, ns, 0, toProcess, toProcess)
  {
    assert toProcess[..|toProcess|] == toProcess;
  }

  /** Visiting neighbour `ns[k]`: uncover it if covered, and push it if its count is zero. */
  lemma SpreadStep(g0: Cells, g1: Cells, g: Cells, start: Pos, next: Pos, ns: seq<Pos>, k: int,
                   toProcess: seq<Pos>, pushed: seq<Pos>)
    requires Spreading(g0, g1, g, start, next, ns, k, toProcess, pushed) && k < |ns|
    ensures InBounds(g, ns[k])
    ensures var c := At(g, ns[k]);
      Spreading(g0, g1, if c.isCovered then Put(g, ns[k], c.(isCovered := false)) else g,
                start, next, ns, k + 1, toProcess,
                if c.isCovered && c.neighboringMines == 0 then pushed + [ns[k]] else pushed)
  {
    var n := ns[k];
    NeighborAt(g1, next, k);
    SameShapeInBounds(g1, g);
    if At(g, n).isCovered {
      SpreadUncover(g0, g1, g, start, next, ns, k, toProcess, pushed);
    }
  }

  /** Visiting a covered neighbour uncovers it and, when its count is zero, pushes it. */
  lemma SpreadUncover(g0: Cells, g1: Cells, g: Cells, start: Pos, next: Pos, ns: seq<Pos>, k: int,
                      toProcess: seq<Pos>, pushed: seq<Pos>)
    requires Spreading(g0, g1, g, start, next, ns, k, toProcess, pushed) && k < |ns|
    requires InBounds(g, ns[k]) && At(g, ns[k]).isCovered
    ensures var c := At(g, ns[k]);
      Spreading(g0, g1, Put(g, ns[k], c.(isCovered := false)), start, next, ns, k + 1, toProcess,
                if c.neighboringMines == 0 then pushed + [ns[k]] else pushed)
  {
    NeighborAt(g1, next, k);
    SameShapeInBounds(g0, g);
    FloodVisit(g0, g, start, pushed, next, ns[k]);
    ProgressUncover(g1, g, next, ns, k, toProcess, pushed);
  }

  lemma ProgressUncover(g1: Cells, g: Cells, next: Pos, ns: seq<Pos>, k: int, toProcess: seq<Pos>, pushed: seq<Pos>)
    requires SpreadProgress(g1, g, next, ns, k, toProcess, pushed) && k < |ns|
    requires InBounds(g, ns[k]) && At(g, ns[k]).isCovered
    ensures var c := At(g, ns[k]);
      SpreadProgress(g1, Put(g, ns[k], c.(isCovered := false)), next, ns, k + 1, toProcess,
                     if c.neighboringMines == 0 then pushed + [ns[k]] else pushed)
  {
    var n := ns[k];
    var c := At(g, n);
    var g2 := Put(g, n, c.(isCovered := false));
    var pushed2 := if c.neighboringMines == 0 then pushed + [n] else pushed;
    CountPut(g, n, c.(isCovered := false), IsCovered);
    assert OnlyUncovers(g, g2);
    OnlyUncoversTransitive(g1, g, g2);
    assert pushed2[..|toProcess|] == toProcess by {
      assert pushed2[..|pushed|] == pushed;
    }
  }

  /** After the last neighbour, `next` can leave the stack. */
  lemma SpreadEnd(g0: Cells, g1: Cells, g: Cells, start: Pos, next: Pos, ns: seq<Pos>,
                  toProcess: seq<Pos>, pushed: seq<Pos>)
    requires Spreading(g0, g1, g, start, next, ns, |ns|, toProcess, pushed)
    ensures Rectangular(g) && Flooding(g0, g, start, pushed) && OnlyUncovers(g1, g)
    ensures |toProcess| <= |pushed| && pushed[..|toProcess|] == toProcess
    ensures Count(g, IsCovered) + |pushed| <= Count(g1, IsCovered) + |toProcess|
  {
    NeighborhoodIsAdjacentInBounds(g1, next);
    SameShapeInBounds(g0, g);
    SameShapeInBounds(g1, g);
    forall q | InBounds(g0, q) && Adjacent(next, q)
      ensures !At(g, q).isCovered
    {
      assert q in ns;
      var j :| 0 <= j < |ns| && ns[j] == q;
    }
    FloodDone(g0, g, start, pushed, next);
  }

  class Board {
    /** The rows of cells. Every operation that changes a cell reassigns this field. */
    var rows: Cells

    ghost predicate Valid()
      reads this
    {
      Rectangular(rows)
    }

    /** A new board: `height` rows of `width` covered, unmined, unflagged cells with count zero. */
    constructor (height: nat, width: nat)
      ensures Valid() && rows == Fresh(height, width)
    {
      var built: Cells := [];
      var i := 0;
      while i < height
        invariant 0 <= i <= height
        invariant |built| == i
        invariant forall k :: 0 <= k < i ==> built[k] == seq(width, _ => Blank)
      {
        var row: seq<Cell> := [];
        var j := 0;
        while j < width
          invariant 0 <= j <= width
          invariant row == seq(j, _ => Blank)
        {
          row := row + [Blank];
          j := j + 1;
        }
        built := built + [row];
        i := i + 1;
      }
      rows := built;
    }

    /** The number of rows. */
    function Height(): (h: nat)
      reads this
      ensures h == |rows|
    {
      |rows|
    }

    /** The length of the first row, which on a valid board is the length of every row. */
    function Width(): (w: nat)
      reads this
      requires |rows| > 0
      ensures Valid() ==> forall i :: 0 <= i < |rows| ==> |rows[i]| == w
    {
      |rows[0]|
    }

    /** The cell at (`row`, `col`), which must be on the board. */
    function Get(row: int, col: int): (c: Cell)
      reads this
      requires InBounds(rows, Pos(row, col))
      ensures c == At(rows, Pos(row, col))
    {
      rows[row][col]
    }

    /** A deep copy: a new board holding the same cells, which later changes to either do not share. */
    method Clone() returns (cloned: Board)
      requires Valid()
      ensures fresh(cloned) && cloned.Valid() && cloned.rows == rows
    {
      cloned := new Board(0, 0);
      cloned.rows := rows;
    }

    /**
     * forEachNeighbor: the positions it hands to its callback, in the order it
     * does so. The callers below run the callback's body over this sequence.
     */
    method ForEachNeighbor(centerRow: int, centerCol: int) returns (visited: seq<Pos>)
      requires Valid() && |rows| > 0
      ensures visited == Neighborhood(rows, Pos(centerRow, centerCol))
    {
      var center := Pos(centerRow, centerCol);
      var startRow := if centerRow - 1 > 0 then centerRow - 1 else 0;
      var startCol := if centerCol - 1 > 0 then centerCol - 1 else 0;
      var endRow := if centerRow + 2 < |rows| then centerRow + 2 else |rows|;
      var endCol := if centerCol + 2 < |rows[0]| then centerCol + 2 else |rows[0]|;
      VisitStart(rows, center, startRow, startCol);
      visited := [];
      var row := startRow;
      while row < endRow
        invariant startRow <= row && (row <= endRow || row == startRow)
        invariant VisitedBefore(rows, center, visited, Pos(row, startCol))
      {
        var col := startCol;
        while col < endCol
          invariant startCol <= col && (col <= endCol || col == startCol)
          invariant VisitedBefore(rows, center, visited, Pos(row, col))
        {
          VisitWindowCell(rows, center, visited, row, col);
          ghost var next := VisitWindow(visited, center, row, col);
          if row != centerRow || col != centerCol {
            visited := visited + [Pos(row, col)];
          }
          assert visited == next;
          col := col + 1;
        }
        VisitNextRow(rows, center, visited, row, col, startCol);
        row := row + 1;
      }
      VisitEnd(rows, center, visited, row, startCol);
    }

    /**
     * Marks `count` unmined cells as mined, each chosen freely among the
     * cells still unmined, then adds the neighbour counts.
     */
    method PlaceMines(count: int)
      requires Valid() && count <= Count(rows, IsUnmined)
      modifies this
      ensures Valid() && SameShape(old(rows), rows)
      ensures Count(rows, IsMined) == old(Count(rows, IsMined)) + (if count > 0 then count else 0)
      ensures forall p :: InBounds(rows, p) ==>
        InBounds(old(rows), p) &&
        (At(old(rows), p).isMined ==> At(rows, p).isMined) &&
        At(rows, p).isFlagged == At(old(rows), p).isFlagged &&
        At(rows, p).isCovered == At(old(rows), p).isCovered &&
        At(rows, p).neighboringMines == At(old(rows), p).neighboringMines + MinedNeighbors(rows, p)
    {
      ghost var g0 := rows;
      var i := 0;
      while i < count
        invariant 0 <= i && (i <= count || i == 0)
        invariant Valid() && OnlyAddsMines(g0, rows)
        invariant Count(rows, IsMined) == Count(g0, IsMined) + i
        invariant Count(rows, IsUnmined) + i == Count(g0, IsUnmined)
      {
        ghost var unmined := CountWitness(rows, IsUnmined);
        var row: int, col: int :| 0 <= row < |rows| && 0 <= col < |rows[row]| && !rows[row][col].isMined;
        AddMine(g0, rows, Pos(row, col));
        rows := Put(rows, Pos(row, col), rows[row][col].(isMined := true));
        i := i + 1;
      }
      ghost var placed := rows;
      ComputeNeighborCounts();
      SameShapeInBounds(g0, placed);
      SameShapeInBounds(placed, rows);
      forall p | InBounds(placed, p)
        ensures At(rows, p) == At(placed, p).(neighboringMines := At(placed, p).neighboringMines + MinedNeighbors(placed, p))
      {
        WithNeighborCountsAt(placed, p);
      }
      CountSameOn(placed, rows, IsMined);
      SameMinesNeighbors(placed, rows);
    }

    /** Adds to every cell's count the number of mined cells around it. */
    method ComputeNeighborCounts()
      requires Valid()
      modifies this
      ensures Valid() && rows == WithNeighborCounts(old(rows))
    {
      ghost var g0 := rows;
      TallyStart(g0);
      var row := 0;
      while row < |rows|
        invariant 0 <= row <= |g0|
        invariant Valid() && rows == Tallied(g0, Pos(row, 0))
      {
        ComputeRowNeighborCounts(row, g0);
        row := row + 1;
      }
      TallyEnd(g0);
    }

    /** One pass of computeNeighborCounts' outer loop: the cells of row `row`, left to right. */
    method ComputeRowNeighborCounts(row: int, ghost g0: Cells)
      requires Valid() && 0 <= row < |g0| && rows == Tallied(g0, Pos(row, 0))
      modifies this
      ensures Valid() && rows == Tallied(g0, Pos(row + 1, 0))
    {
      var col := 0;
      while col < |rows[0]|
        invariant 0 <= col <= |g0[0]|
        invariant Valid() && rows == Tallied(g0, Pos(row, col))
      {
        CountAround(row, col, g0);
        col := col + 1;
      }
      assert col == |g0[row]|;
      TallyNextRow(g0, row);
    }

    /** The body of computeNeighborCounts' inner loop: a mined cell adds one to each neighbour's count. */
    method CountAround(row: int, col: int, ghost g0: Cells)
      requires Valid() && InBounds(g0, Pos(row, col)) && rows == Tallied(g0, Pos(row, col))
      modifies this
      ensures Valid() && rows == Tallied(g0, Pos(row, col + 1))
    {
      ghost var before := rows;
      if rows[row][col].isMined {
        IncrementNeighbors(row, col);
      }
      TallyStep(g0, row, col, before, rows);
    }

    /**
     * The callback computeNeighborCounts hands to forEachNeighbor for a mined
     * cell: adds one to the count of every neighbour it visits.
     */
    method IncrementNeighbors(row: int, col: int)
      requires Valid() && |rows| > 0
      modifies this
      ensures Valid() && rows == IncrementAt(old(rows), Neighborhood(old(rows), Pos(row, col)))
    {
      ghost var g0 := rows;
      var ns := ForEachNeighbor(row, col);
      IncrementNone(g0);
      var k := 0;
      while k < |ns|
        invariant 0 <= k <= |ns|
        invariant rows == IncrementAt(g0, ns[..k])
      {
        var n := ns[k];
        assert n in ns;
        NeighborhoodDistinct(g0, Pos(row, col), k);
        IncrementOneMore(g0, ns[..k], n);
        rows := Put(rows, n, rows[n.row][n.col].(neighboringMines := rows[n.row][n.col].neighboringMines + 1));
        assert ns[..k + 1] == ns[..k] + [n];
        k := k + 1;
      }
      assert ns[..k] == ns;
    }

    /** Uncovers every mined cell (on a loss). */
    method UncoverMines()
      requires Valid()
      modifies this
      ensures Valid() && rows == RevealMines(old(rows))
    {
      ghost var g0 := rows;
      var i := 0;
      while i < |rows|
        invariant 0 <= i <= |rows|
        invariant Valid() && SameShape(g0, rows)
        invariant forall p :: InBounds(g0, p) ==>
          InBounds(rows, p) && At(rows, p) == if p.row < i then At(RevealMines(g0), p) else At(g0, p)
      {
        var j := 0;
        while j < |rows[i]|
          invariant Valid() && SameShape(g0, rows)
          invariant 0 <= j <= |rows[i]|
          invariant forall p :: InBounds(g0, p) ==>
            InBounds(rows, p) &&
            At(rows, p) == if Before(p, Pos(i, j)) then At(RevealMines(g0), p) else At(g0, p)
        {
          var cell := rows[i][j];
          if cell.isMined {
            rows := Put(rows, Pos(i, j), cell.(isCovered := false));
          }
          j := j + 1;
        }
        i := i + 1;
      }
      Extensionality(rows, RevealMines(g0));
    }

    /** Flags every mined cell (on a win). */
    method MarkMines()
      requires Valid()
      modifies this
      ensures Valid() && rows == FlagMines(old(rows))
    {
      ghost var g0 := rows;
      var i := 0;
      while i < |rows|
        invariant 0 <= i <= |rows|
        invariant Valid() && SameShape(g0, rows)
        invariant forall p :: InBounds(g0, p) ==>
          InBounds(rows, p) && At(rows, p) == if p.row < i then At(FlagMines(g0), p) else At(g0, p)
      {
        var j := 0;
        while j < |rows[i]|
          invariant Valid() && SameShape(g0, rows)
          invariant 0 <= j <= |rows[i]|
          invariant forall p :: InBounds(g0, p) ==>
            InBounds(rows, p) &&
            At(rows, p) == if Before(p, Pos(i, j)) then At(FlagMines(g0), p) else At(g0, p)
        {
          var cell := rows[i][j];
          if cell.isMined {
            rows := Put(rows, Pos(i, j), cell.(isFlagged := true));
          }
          j := j + 1;
        }
        i := i + 1;
      }
      Extensionality(rows, FlagMines(g0));
    }

    /** The number of covered cells. */
    method CountCovered() returns (count: nat)
      ensures count == Count(rows, IsCovered)
    {
      count := 0;
      var i := 0;
      while i < |rows|
        invariant 0 <= i <= |rows|
        invariant count == Count(rows[..i], IsCovered)
      {
        var row := rows[i];
        var j := 0;
        while j < |row|
          invariant 0 <= j <= |row|
          invariant count == Count(rows[..i], IsCovered) + CountRow(row[..j], IsCovered)
        {
          if row[j].isCovered {
            count := count + 1;
          }
          assert row[..j + 1][..j] == row[..j];
          j := j + 1;
        }
        assert row[..j] == row;
        assert rows[..i + 1][..i] == rows[..i];
        i := i + 1;
      }
      assert rows[..i] == rows;
    }

    /** The number of covered cells carrying a flag: what the flag counter shows. */
    method CountFlagged() returns (count: nat)
      ensures count == Count(rows, IsCoveredFlagged)
    {
      count := 0;
      var i := 0;
      while i < |rows|
        invariant 0 <= i <= |rows|
        invariant count == Count(rows[..i], IsCoveredFlagged)
      {
        var row := rows[i];
        var j := 0;
        while j < |row|
          invariant 0 <= j <= |row|
          invariant count == Count(rows[..i], IsCoveredFlagged) + CountRow(row[..j], IsCoveredFlagged)
        {
          if row[j].isCovered && row[j].isFlagged {
            count := count + 1;
          }
          assert row[..j + 1][..j] == row[..j];
          j := j + 1;
        }
        assert row[..j] == row;
        assert rows[..i + 1][..i] == rows[..i];
        i := i + 1;
      }
      assert rows[..i] == rows;
    }

    /** A click: uncovers a covered cell, chords on an uncovered one. Returns whether a mine was hit. */
    method HandleCellClick(row: int, col: int) returns (hitMine: bool)
      requires Valid() && InBounds(rows, Pos(row, col))
      modifies this
      ensures Valid() && (rows, hitMine) == Click(old(rows), Pos(row, col))
    {
      if rows[row][col].isCovered {
        hitMine := UncoverCell(row, col);
      } else {
        hitMine := UncoverNeighbors(row, col);
      }
    }

    /**
     * Uncovers one cell and returns whether it is mined; from an unmined cell
     * whose count is zero, floods the surrounding cells with an explicit stack.
     */
    method UncoverCell(row: int, col: int) returns (hitMine: bool)
      requires Valid() && InBounds(rows, Pos(row, col))
      modifies this
      ensures Valid() && rows == Uncover(old(rows), Pos(row, col))
      ensures hitMine == (old(rows[row][col]).isCovered && old(rows[row][col]).isMined)
    {
      ghost var g0 := rows;
      var start := Pos(row, col);
      var cell := rows[row][col];
      hitMine := false;
      if !cell.isCovered {
        UncoverIdempotent(g0, start);
        return;
      }
      rows := Put(rows, start, cell.(isCovered := false));
      if cell.isMined {
        hitMine := true;
        UncoverSingle(g0, start);
        return;
      }
      if cell.neighboringMines != 0 {
        UncoverSingle(g0, start);
        return;
      }
      FloodBegin(g0, start);
      var toProcess := [start];
      while |toProcess| > 0
        invariant Valid() && Flooding(g0, rows, start, toProcess)
        decreases Count(rows, IsCovered) + |toProcess|
      {
        ghost var pending := toProcess;
        var next := toProcess[|toProcess| - 1];
        toProcess := toProcess[..|toProcess| - 1];
        assert toProcess + [next] == pending;
        toProcess := SpreadFrom(next, toProcess, g0, start);
      }
      FloodEnd(g0, rows, start);
    }

    /**
     * The callback uncoverCell's flood hands to forEachNeighbor for the cell
     * `next` just popped: uncovers each covered neighbour and pushes those
     * whose count is zero.
     */
    method SpreadFrom(next: Pos, toProcess: seq<Pos>, ghost g0: Cells, ghost start: Pos) returns (pushed: seq<Pos>)
      requires Valid() && Flooding(g0, rows, start, toProcess + [next])
      modifies this
      ensures Valid() && Flooding(g0, rows, start, pushed)
      ensures OnlyUncovers(old(rows), rows) && |toProcess| <= |pushed| && pushed[..|toProcess|] == toProcess
      ensures Count(rows, IsCovered) + |pushed| <= old(Count(rows, IsCovered)) + |toProcess|
    {
      ghost var g1 := rows;
      pushed := toProcess;
      var ns := ForEachNeighbor(next.row, next.col);
      SpreadBegin(g0, g1, start, next, ns, toProcess);
      var k := 0;
      while k < |ns|
        invariant Spreading(g0, g1, rows, start, next, ns, k, toProcess, pushed)
        decreases |ns| - k
      {
        SpreadStep(g0, g1, rows, start, next, ns, k, toProcess, pushed);
        var n := ns[k];
        var neighborCell := rows[n.row][n.col];
        if neighborCell.isCovered {
          rows := Put(rows, n, neighborCell.(isCovered := false));
          if neighborCell.neighboringMines == 0 {
            pushed := pushed + [n];
          }
        }
        k := k + 1;
      }
      SpreadEnd(g0, g1, rows, start, next, ns, toProcess, pushed);
    }

    /**
     * Chording: when at least as many covered neighbours are flagged as the
     * cell's count, uncovers the covered, unflagged neighbours in order until a
     * mine is hit. Returns whether a mine was hit.
     */
    method UncoverNeighbors(row: int, col: int) returns (hitMine: bool)
      requires Valid() && InBounds(rows, Pos(row, col))
      modifies this
      ensures Valid() && (rows, hitMine) == Chord(old(rows), Pos(row, col))
    {
      var flaggedNeighborCount := CountFlaggedNeighbors(row, col);
      hitMine := false;
      if flaggedNeighborCount >= rows[row][col].neighboringMines {
        hitMine := UncoverUnflaggedNeighbors(row, col);
      }
    }

    /** The first callback of uncoverNeighbors: counts the covered, flagged neighbours. */
    method CountFlaggedNeighbors(row: int, col: int) returns (count: nat)
      requires Valid() && InBounds(rows, Pos(row, col))
      ensures count == FlaggedAmong(rows, Neighborhood(rows, Pos(row, col)))
    {
      var ns := ForEachNeighbor(row, col);
      count := 0;
      var k := 0;
      while k < |ns|
        invariant 0 <= k <= |ns|
        invariant count + FlaggedAmong(rows, ns[k..]) == FlaggedAmong(rows, ns)
      {
        NeighborAt(rows, Pos(row, col), k);
        FlaggedAmongAt(rows, ns, k);
        var neighborCell := rows[ns[k].row][ns[k].col];
        if neighborCell.isCovered && neighborCell.isFlagged {
          count := count + 1;
        }
        k := k + 1;
      }
    }

    /**
     * The second pass of uncoverNeighbors: hands each neighbour in turn to
     * `ChordVisitCell`, until one of them is a mine.
     */
    method UncoverUnflaggedNeighbors(row: int, col: int) returns (hitMine: bool)
      requires Valid() && InBounds(rows, Pos(row, col))
      modifies this
      ensures Valid() && (rows, hitMine) == ChordOver(old(rows), Neighborhood(old(rows), Pos(row, col)), false)
    {
      ghost var g0 := rows;
      var ns := ForEachNeighbor(row, col);
      hitMine := false;
      var k := 0;
      while k < |ns|
        invariant 0 <= k <= |ns|
        invariant Valid() && SameShape(g0, rows)
        invariant ChordOver(rows, ns[k..], hitMine) == ChordOver(g0, ns, false)
      {
        NeighborAt(g0, Pos(row, col), k);
        SameShapeInBounds(g0, rows);
        ghost var before, hitBefore := rows, hitMine;
        hitMine := ChordVisitCell(ns[k], hitMine);
        ChordStep(g0, ns, k, before, hitBefore, rows, hitMine);
        k := k + 1;
      }
    }

    /**
     * The second callback of uncoverNeighbors, on neighbour `n`: a covered,
     * unflagged cell is uncovered unless a mine has already been hit.
     */
    method ChordVisitCell(n: Pos, hitMine: bool) returns (hit: bool)
      requires Valid() && InBounds(rows, n)
      modifies this
      ensures Valid() && (rows, hit) == ChordVisit(old(rows), n, hitMine)
    {
      hit := hitMine;
      var neighborCell := rows[n.row][n.col];
      if neighborCell.isCovered && !neighborCell.isFlagged {
        if !hit {
          hit := UncoverCell(n.row, n.col);
        }
      }
    }
  }
}
