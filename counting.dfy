/** Scanning counts over the grid: how many cells satisfy a property. */
module Counting {
  import opened Grid

  predicate IsCovered(c: Cell) { c.isCovered }
  predicate IsMined(c: Cell) { c.isMined }
  predicate IsUnmined(c: Cell) { !c.isMined }
  /** What the flag counter shows: flags on cells that are still covered. */
  predicate IsCoveredFlagged(c: Cell) { c.isCovered && c.isFlagged }

  /** Number of cells of one row that satisfy `P`. */
  function CountRow(s: seq<Cell>, P: Cell -> bool): (n: nat)
    ensures n <= |s|
  {
    if s == [] then 0 else CountRow(s[..|s| - 1], P) + (if P(s[|s| - 1]) then 1 else 0)
  }

  /** Number of cells of the grid that satisfy `P`, row by row. */
  function Count(g: Cells, P: Cell -> bool): nat {
    if g == [] then 0 else Count(g[..|g| - 1], P) + CountRow(g[|g| - 1], P)
  }

  lemma {:induction false} CountRowPut(s: seq<Cell>, j: nat, x: Cell, P: Cell -> bool)
    requires j < |s|
    ensures CountRow(s[j := x], P) + (if P(s[j]) then 1 else 0)
         == CountRow(s, P) + (if P(x) then 1 else 0)
  {
    var t := s[j := x];
    if j == |s| - 1 {
      assert t[..|t| - 1] == s[..|s| - 1];
    } else {
      assert t[..|t| - 1] == s[..|s| - 1][j := x];
      CountRowPut(s[..|s| - 1], j, x, P);
    }
  }

  /** Replacing one cell changes the count by what the old and the new cell contribute. */
  lemma {:induction false} CountPut(g: Cells, p: Pos, x: Cell, P: Cell -> bool)
    requires InBounds(g, p)
    ensures Count(Put(g, p, x), P) + (if P(At(g, p)) then 1 else 0)
         == Count(g, P) + (if P(x) then 1 else 0)
    decreases |g|
  {
    var h := Put(g, p, x);
    if p.row == |g| - 1 {
      assert h[..|h| - 1] == g[..|g| - 1];
      CountRowPut(g[p.row], p.col, x, P);
    } else {
      assert h[..|h| - 1] == Put(g[..|g| - 1], p, x);
      CountPut(g[..|g| - 1], p, x, P);
    }
  }

  lemma {:induction false} CountRowWitness(s: seq<Cell>, P: Cell -> bool) returns (j: nat)
    requires CountRow(s, P) > 0
    ensures j < |s| && P(s[j])
  {
    if P(s[|s| - 1]) {
      j := |s| - 1;
    } else {
      j := CountRowWitness(s[..|s| - 1], P);
    }
  }

  /** A positive count has a cell that witnesses it. */
  lemma {:induction false} CountWitness(g: Cells, P: Cell -> bool) returns (p: Pos)
    requires Count(g, P) > 0
    ensures InBounds(g, p) && P(At(g, p))
  {
    if CountRow(g[|g| - 1], P) > 0 {
      var j := CountRowWitness(g[|g| - 1], P);
      p := Pos(|g| - 1, j);
    } else {
      p := CountWitness(g[..|g| - 1], P);
    }
  }

  lemma {:induction false} CountRowMonotone(s: seq<Cell>, P: Cell -> bool, Q: Cell -> bool)
    requires forall j :: 0 <= j < |s| && P(s[j]) ==> Q(s[j])
    ensures CountRow(s, P) <= CountRow(s, Q)
    ensures CountRow(s, P) == CountRow(s, Q) <==> forall j :: 0 <= j < |s| && Q(s[j]) ==> P(s[j])
  {
    if s != [] {
      var t := s[..|s| - 1];
      assert forall j :: 0 <= j < |t| ==> t[j] == s[j];
      CountRowMonotone(t, P, Q);
    }
  }

  /**
   * When every cell satisfying `P` satisfies `Q`, there are at most as many of
   * the first as of the second, and as many exactly when the two agree cell by cell.
   */
  lemma {:induction false} CountMonotone(g: Cells, P: Cell -> bool, Q: Cell -> bool)
    requires forall p :: InBounds(g, p) && P(At(g, p)) ==> Q(At(g, p))
    ensures Count(g, P) <= Count(g, Q)
    ensures Count(g, P) == Count(g, Q) <==> forall p :: InBounds(g, p) && Q(At(g, p)) ==> P(At(g, p))
  {
    if g != [] {
      var t := g[..|g| - 1];
      var last := g[|g| - 1];
      assert forall p :: InBounds(t, p) ==> InBounds(g, p) && At(t, p) == At(g, p);
      CountMonotone(t, P, Q);
      forall j | 0 <= j < |last| && P(last[j])
        ensures Q(last[j])
      {
        assert At(g, Pos(|g| - 1, j)) == last[j];
      }
      CountRowMonotone(last, P, Q);
      if Count(g, P) == Count(g, Q) {
        forall p | InBounds(g, p) && Q(At(g, p))
          ensures P(At(g, p))
        {
          if p.row < |g| - 1 {
            assert InBounds(t, p) && At(t, p) == At(g, p);
          } else {
            assert last[p.col] == At(g, p);
          }
        }
      }
      if forall p :: InBounds(g, p) && Q(At(g, p)) ==> P(At(g, p)) {
        forall j | 0 <= j < |last| && Q(last[j])
          ensures P(last[j])
        {
          assert At(g, Pos(|g| - 1, j)) == last[j];
        }
      }
    }
  }

  lemma {:induction false} CountRowSameOn(s: seq<Cell>, t: seq<Cell>, P: Cell -> bool)
    requires |s| == |t| && forall j :: 0 <= j < |s| ==> P(s[j]) == P(t[j])
    ensures CountRow(s, P) == CountRow(t, P)
  {
    if s != [] {
      CountRowSameOn(s[..|s| - 1], t[..|t| - 1], P);
    }
  }

  /** Grids of the same shape on which `P` agrees cell by cell have the same count. */
  lemma {:induction false} CountSameOn(g: Cells, h: Cells, P: Cell -> bool)
    requires SameShape(g, h)
    requires forall p :: InBounds(g, p) ==> P(At(g, p)) == P(At(h, p))
    ensures Count(g, P) == Count(h, P)
  {
    if g != [] {
      var last := |g| - 1;
      forall j | 0 <= j < |g[last]|
        ensures P(g[last][j]) == P(h[last][j])
      {
        assert InBounds(g, Pos(last, j));
      }
      CountRowSameOn(g[last], h[last], P);
      forall p | InBounds(g[..last], p)
        ensures P(At(g[..last], p)) == P(At(h[..last], p))
      {
        assert InBounds(g, p);
      }
      CountSameOn(g[..last], h[..last], P);
    }
  }

  /** Every cell of a new `height` by `width` board is unmined. */
  lemma {:induction false} CountFresh(height: nat, width: nat)
    ensures Count(Fresh(height, width), IsUnmined) == height * width
    ensures Count(Fresh(height, width), IsMined) == 0
  {
    var row := seq(width, _ => Blank);
    CountRowBlank(row);
    if height > 0 {
      var g := Fresh(height, width);
      assert g[..height - 1] == Fresh(height - 1, width);
      assert g[height - 1] == row;
      CountFresh(height - 1, width);
      assert (height - 1) * width + width == height * width;
    }
  }

  lemma {:induction false} CountRowBlank(s: seq<Cell>)
    requires forall j :: 0 <= j < |s| ==> s[j] == Blank
    ensures CountRow(s, IsUnmined) == |s| && CountRow(s, IsMined) == 0
  {
    if s != [] {
      CountRowBlank(s[..|s| - 1]);
    }
  }

  /** `g` is `g0` with possibly more cells mined and nothing else changed. */
  ghost predicate OnlyAddsMines(g0: Cells, g: Cells) {
    SameShape(g0, g) &&
    forall p :: InBounds(g0, p) ==>
      InBounds(g, p) && At(g, p) == At(g0, p).(isMined := At(g, p).isMined) &&
      (At(g0, p).isMined ==> At(g, p).isMined)
  }

  /** Mining one more unmined cell moves one cell from the unmined count to the mined one. */
  lemma AddMine(g0: Cells, g: Cells, p: Pos)
    requires OnlyAddsMines(g0, g) && InBounds(g, p) && !At(g, p).isMined
    ensures OnlyAddsMines(g0, Put(g, p, At(g, p).(isMined := true)))
    ensures Count(Put(g, p, At(g, p).(isMined := true)), IsMined) == Count(g, IsMined) + 1
    ensures Count(Put(g, p, At(g, p).(isMined := true)), IsUnmined) + 1 == Count(g, IsUnmined)
  {
    var x := At(g, p).(isMined := true);
    CountPut(g, p, x, IsMined);
    CountPut(g, p, x, IsUnmined);
  }
}
