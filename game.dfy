/**
 * One game session: a board, how the game was resolved, and the number of
 * mines it was started with. A left click and a right click each turn the
 * session into a new one, working on a copy of the board.
 */
module Games {
  import opened Grid
  import opened Counting
  import opened Neighbors
  import opened Flood
  import opened Boards
  import Decimal

  /** `null`, "won" or "lost". */
  datatype Resolution = Unresolved | Won | Lost

  datatype GameState = GameState(board: Board, resolution: Resolution, mineCount: int)

  /** No mined cell is uncovered. */
  ghost predicate NoMineUncovered(g: Cells) {
    forall p :: InBounds(g, p) && At(g, p).isMined ==> At(g, p).isCovered
  }

  /**
   * What holds of a session between clicks: the counts are right, the board
   * holds `mineCount` mines, and while the game is on no mine has been uncovered.
   */
  ghost predicate Playing(g: Cells, resolution: Resolution, mineCount: int) {
    Rectangular(g) && Consistent(g) && Count(g, IsMined) == mineCount &&
    (resolution == Unresolved ==> NoMineUncovered(g))
  }

  /** Every covered cell is mined: nothing is left to uncover. */
  ghost predicate AllSafeUncovered(g: Cells) {
    forall p :: InBounds(g, p) && At(g, p).isCovered ==> At(g, p).isMined
  }

  /** The board and the resolution after a left click on `p`. */
  ghost function ClickOutcome(g: Cells, resolution: Resolution, mineCount: int, p: Pos): (r: (Cells, Resolution))
    requires InBounds(g, p)
    ensures resolution != Unresolved || At(g, p).isFlagged ==> r == (g, resolution)
    ensures resolution == Unresolved && r.1 == Lost ==>
      forall q :: InBounds(r.0, q) && At(r.0, q).isMined ==> !At(r.0, q).isCovered
    ensures resolution == Unresolved && r.1 == Won ==>
      forall q :: InBounds(r.0, q) && At(r.0, q).isMined ==> At(r.0, q).isFlagged
  {
    if resolution != Unresolved || At(g, p).isFlagged then (g, resolution)
    else
      var (g1, hit) := Click(g, p);
      if hit then (RevealMines(g1), Lost)
      else if Count(g1, IsCovered) <= mineCount then (FlagMines(g1), Won)
      else (g1, Unresolved)
  }

  /** The board after a right click on `p`: the flag of a covered cell flips while the game is on. */
  function ToggleFlag(g: Cells, resolution: Resolution, p: Pos): (r: Cells)
    requires InBounds(g, p)
    ensures SameShape(g, r)
    ensures forall q :: InBounds(g, q) && q != p ==> InBounds(r, q) && At(r, q) == At(g, q)
    ensures InBounds(r, p) && At(r, p) == At(g, p).(isFlagged := At(r, p).isFlagged)
    ensures At(r, p).isFlagged != At(g, p).isFlagged <==> resolution == Unresolved && At(g, p).isCovered
  {
    if resolution == Unresolved && At(g, p).isCovered then Put(g, p, At(g, p).(isFlagged := !At(g, p).isFlagged))
    else g
  }

  // ---------------------------------------------------------------- the session

  /** A new session: a `height` by `width` board with `mineCount` mines, not resolved. */
  method NewGame(height: nat, width: nat, mineCount: int) returns (s: GameState)
    requires mineCount <= height * width
    ensures fresh(s.board) && s.board.Valid()
    ensures s.resolution == Unresolved && s.mineCount == mineCount
    ensures |s.board.rows| == height && forall i :: 0 <= i < height ==> |s.board.rows[i]| == width
    ensures forall p :: InBounds(s.board.rows, p) ==> At(s.board.rows, p).isCovered && !At(s.board.rows, p).isFlagged
    ensures Consistent(s.board.rows)
    ensures Count(s.board.rows, IsMined) == if mineCount > 0 then mineCount else 0
    ensures mineCount >= 0 ==> Playing(s.board.rows, Unresolved, mineCount)
  {
    var board := new Board(height, width);
    CountFresh(height, width);
    board.PlaceMines(mineCount);
    s := GameState(board, Unresolved, mineCount);
  }

  /** handleClick: the session after a left click on (`row`, `col`). */
  method HandleClick(s: GameState, row: int, col: int) returns (t: GameState)
    requires s.board.Valid() && InBounds(s.board.rows, Pos(row, col))
    ensures t.board.Valid() && t.mineCount == s.mineCount
    ensures (t.board.rows, t.resolution) == ClickOutcome(s.board.rows, s.resolution, s.mineCount, Pos(row, col))
    ensures s.resolution != Unresolved || s.board.rows[row][col].isFlagged ==> t == s
    ensures t.board == s.board || fresh(t.board)
    ensures s.resolution == Unresolved && !s.board.rows[row][col].isFlagged ==> fresh(t.board)
  {
    if s.resolution != Unresolved {
      return s;
    }
    var cell := s.board.Get(row, col);
    if cell.isFlagged {
      return s;
    }
    var newBoard := s.board.Clone();
    var resolution := Unresolved;
    var hitMine := newBoard.HandleCellClick(row, col);
    if hitMine {
      newBoard.UncoverMines();
      resolution := Lost;
    } else {
      var covered := newBoard.CountCovered();
      if covered <= s.mineCount {
        newBoard.MarkMines();
        resolution := Won;
      }
    }
    t := GameState(newBoard, resolution, s.mineCount);
  }

  /** handleRightClick: the session after a right click on (`row`, `col`). */
  method HandleRightClick(s: GameState, row: int, col: int) returns (t: GameState)
    requires s.board.Valid() && InBounds(s.board.rows, Pos(row, col))
    ensures t.board.Valid() && t.resolution == s.resolution && t.mineCount == s.mineCount
    ensures t.board.rows == ToggleFlag(s.board.rows, s.resolution, Pos(row, col))
    ensures s.resolution != Unresolved || !s.board.rows[row][col].isCovered ==> t == s
    ensures t.board == s.board || fresh(t.board)
  {
    if s.resolution != Unresolved {
      return s;
    }
    var cell := s.board.Get(row, col);
    if cell.isCovered {
      var newBoard := s.board.Clone();
      newBoard.rows := Put(newBoard.rows, Pos(row, col), cell.(isFlagged := !cell.isFlagged));
      return GameState(newBoard, s.resolution, s.mineCount);
    }
    return s;
  }

  // ---------------------------------------------------------------- what a click means

  /** A left click keeps the session invariant. */
  lemma ClickKeepsPlaying(g: Cells, resolution: Resolution, mineCount: int, p: Pos)
    requires Playing(g, resolution, mineCount) && InBounds(g, p)
    ensures Playing(ClickOutcome(g, resolution, mineCount, p).0, ClickOutcome(g, resolution, mineCount, p).1, mineCount)
  {
    if resolution == Unresolved && !At(g, p).isFlagged {
      var (g1, hit) := Click(g, p);
      ClickOnlyUncovers(g, p);
      KeepsLayout(g, g1);
      if hit {
        KeepsLayout(g1, RevealMines(g1));
      } else {
        ClickHitIff(g, p);
        forall q | InBounds(g1, q) && At(g1, q).isMined
          ensures At(g1, q).isCovered
        {
          assert InBounds(g, q);
        }
        if Count(g1, IsCovered) <= mineCount {
          KeepsLayout(g1, FlagMines(g1));
        }
      }
    }
  }

  /** The grid after handleCellClick differs from the one before only by uncovered cells. */
  lemma ClickOnlyUncovers(g: Cells, p: Pos)
    requires InBounds(g, p)
    ensures OnlyUncovers(g, Click(g, p).0)
  {
    if At(g, p).isCovered {
      UncoverOnlyUncovers(g, p);
    }
  }

  /** A grid change that keeps every mine and every count keeps the counts right and the number of mines. */
  lemma KeepsLayout(g: Cells, h: Cells)
    requires Rectangular(g) && SameLayout(g, h)
    ensures Rectangular(h) && (Consistent(g) <==> Consistent(h)) && Count(g, IsMined) == Count(h, IsMined)
  {
    SameShapeInBounds(g, h);
    ConsistentSameLayout(g, h);
    CountSameOn(g, h, IsMined);
  }

  /** In a game that is on, the click is lost exactly when it uncovers a mine. */
  lemma LostIffMineUncovered(g: Cells, mineCount: int, p: Pos)
    requires Playing(g, Unresolved, mineCount) && InBounds(g, p) && !At(g, p).isFlagged
    ensures ClickOutcome(g, Unresolved, mineCount, p).1 == Lost <==> MineUncovered(g, Click(g, p).0)
  {
    ClickHitIff(g, p);
  }

  /**
   * In a game that is on, a click that hits no mine wins exactly when every
   * cell left covered is mined.
   */
  lemma WonIffAllSafeUncovered(g: Cells, mineCount: int, p: Pos)
    requires Playing(g, Unresolved, mineCount) && InBounds(g, p) && !At(g, p).isFlagged
    requires !Click(g, p).1
    ensures ClickOutcome(g, Unresolved, mineCount, p).1 == Won <==> AllSafeUncovered(Click(g, p).0)
  {
    var g1 := Click(g, p).0;
    ClickKeepsPlaying(g, Unresolved, mineCount, p);
    ClickOnlyUncovers(g, p);
    KeepsLayout(g, g1);
    ClickHitIff(g, p);
    forall q | InBounds(g1, q) && At(g1, q).isMined
      ensures At(g1, q).isCovered
    {
      assert InBounds(g, q);
    }
    CountMonotone(g1, IsMined, IsCovered);
  }

  /** Two right clicks on the same cell give back the board. */
  lemma ToggleFlagTwice(g: Cells, resolution: Resolution, p: Pos)
    requires InBounds(g, p)
    ensures ToggleFlag(ToggleFlag(g, resolution, p), resolution, p) == g
  {
    var r := ToggleFlag(ToggleFlag(g, resolution, p), resolution, p);
    SameShapeInBounds(g, ToggleFlag(g, resolution, p));
    Extensionality(r, g);
  }

  /** A right click keeps the session invariant. */
  lemma ToggleFlagKeepsPlaying(g: Cells, resolution: Resolution, mineCount: int, p: Pos)
    requires Playing(g, resolution, mineCount) && InBounds(g, p)
    ensures Playing(ToggleFlag(g, resolution, p), resolution, mineCount)
  {
    var r := ToggleFlag(g, resolution, p);
    SameShapeInBounds(g, r);
    KeepsLayout(g, r);
  }

  // ---------------------------------------------------------------- the status line

  function ResolutionWord(resolution: Resolution): string
    requires resolution != Unresolved
  {
    if resolution == Won then "won" else "lost"
  }

  /** The status line: the outcome once resolved, otherwise flags shown against mines. */
  function Message(resolution: Resolution, flagged: nat, mineCount: int): (m: string)
    ensures |m| > 8 && (Decimal.IsDigit(m[0]) <==> resolution == Unresolved)
    ensures resolution != Unresolved ==> m[..7] == "You\U{2019}ve " && m[|m| - 1] == '!'
    ensures resolution == Unresolved ==> m[|m| - 8..] == " flagged"
    ensures resolution == Won ==> m == "You\U{2019}ve won!"
    ensures resolution == Lost ==> m == "You\U{2019}ve lost!"
  {
    if resolution != Unresolved then "You\U{2019}ve " + ResolutionWord(resolution) + "!"
    else Decimal.Render(flagged) + "/" + (Decimal.Render(mineCount) + " flagged")
  }

  /** The status line shown for a session. */
  method StatusMessage(s: GameState) returns (m: string)
    ensures m == Message(s.resolution, Count(s.board.rows, IsCoveredFlagged), s.mineCount)
  {
    if s.resolution != Unresolved {
      m := Message(s.resolution, 0, s.mineCount);
    } else {
      var flagged := s.board.CountFlagged();
      m := Message(s.resolution, flagged, s.mineCount);
    }
  }

  /** The index of the first slash in `s`, or its length when there is none. */
  function SlashIndex(s: string): (i: nat)
    ensures i <= |s|
  {
    if s == [] then 0 else if s[0] == '/' then 0 else 1 + SlashIndex(s[1..])
  }

  lemma {:induction false} SlashIndexAfter(a: string, b: string)
    requires '/' !in a
    ensures SlashIndex(a + "/" + b) == |a|
    decreases |a|
  {
    var x := a + "/" + b;
    if a != [] {
      assert x[0] == a[0] && x[1..] == a[1..] + "/" + b;
      SlashIndexAfter(a[1..], b);
    }
  }

  /** Two strings without a slash, each followed by a slash and more text, split the same way. */
  lemma SplitAtSlash(a: string, b: string, c: string, d: string)
    requires '/' !in a && '/' !in c && a + "/" + b == c + "/" + d
    ensures a == c && b == d
  {
    var x := a + "/" + b;
    SlashIndexAfter(a, b);
    SlashIndexAfter(c, d);
    assert a == x[..|a|] && c == x[..|c|];
    assert b == x[|a| + 1..] && d == x[|c| + 1..];
  }

  lemma DropSuffix(x: string, y: string, t: string)
    requires x + t == y + t
    ensures x == y
  {
    assert x == (x + t)[..|x|] && y == (y + t)[..|y|];
  }

  /** While the game is on, the status line tells both numbers. */
  lemma FlagCountMessageInjective(f1: nat, m1: int, f2: nat, m2: int)
    requires Message(Unresolved, f1, m1) == Message(Unresolved, f2, m2)
    ensures f1 == f2 && m1 == m2
  {
    Decimal.RenderOmits(f1, '/');
    Decimal.RenderOmits(f2, '/');
    SplitAtSlash(Decimal.Render(f1), Decimal.Render(m1) + " flagged", Decimal.Render(f2), Decimal.Render(m2) + " flagged");
    DropSuffix(Decimal.Render(m1), Decimal.Render(m2), " flagged");
    Decimal.RenderInjective(f1, f2);
    Decimal.RenderInjective(m1, m2);
  }

  /** The status line tells the resolution, and while the game is on, both numbers. */
  lemma MessageInjective(r1: Resolution, f1: nat, m1: int, r2: Resolution, f2: nat, m2: int)
    requires Message(r1, f1, m1) == Message(r2, f2, m2)
    ensures r1 == r2 && (r1 == Unresolved ==> f1 == f2 && m1 == m2)
  {
    if r1 == Unresolved && r2 == Unresolved {
      FlagCountMessageInjective(f1, m1, f2, m2);
    } else if r1 != Unresolved && r2 != Unresolved {
      assert |Message(r1, f1, m1)| == 8 + |ResolutionWord(r1)|;
      assert |Message(r2, f2, m2)| == 8 + |ResolutionWord(r2)|;
    }
  }
}
