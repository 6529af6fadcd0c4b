/**
 * What uncovering a cell, chording and revealing do to the grid, stated as
 * functions of the grid before the operation, with their properties.
 */
module Flood {
  import opened Grid
  import opened Neighbors

  /** `h` differs from `g` only in cells that were covered in `g` and are uncovered in `h`. */
  ghost predicate OnlyUncovers(g: Cells, h: Cells) {
    SameShape(g, h) &&
    forall q :: InBounds(g, q) ==>
      InBounds(h, q) &&
      At(h, q) == At(g, q).(isCovered := At(h, q).isCovered) &&
      (At(h, q).isCovered ==> At(g, q).isCovered)
  }

  lemma OnlyUncoversLayout(g: Cells, h: Cells)
    requires OnlyUncovers(g, h)
    ensures SameLayout(g, h) && (Consistent(g) <==> Consistent(h))
    ensures Rectangular(g) ==> Rectangular(h)
  {
    SameShapeInBounds(g, h);
    ConsistentSameLayout(g, h);
  }

  lemma OnlyUncoversTransitive(g: Cells, h: Cells, k: Cells)
    requires OnlyUncovers(g, h) && OnlyUncovers(h, k)
    ensures OnlyUncovers(g, k)
  {
  }

  // ---------------------------------------------------------------- flood fill

  /** One step of the flood fill: from a cell whose count is zero to a covered neighbour. */
  ghost predicate Step(g: Cells, p: Pos, q: Pos) {
    InBounds(g, p) && InBounds(g, q) && Adjacent(p, q) &&
    At(g, p).neighboringMines == 0 && At(g, q).isCovered
  }

  /** A chain of steps starting at `s`. */
  ghost predicate FloodPath(g: Cells, s: Pos, path: seq<Pos>)
    decreases |path|
  {
    if |path| <= 1 then path == [s]
    else FloodPath(g, s, path[..|path| - 1]) && Step(g, path[|path| - 2], path[|path| - 1])
  }

  /** `q` is reached from `s` by a chain of steps in `g`. */
  ghost predicate Reached(g: Cells, s: Pos, q: Pos) {
    exists path {:trigger FloodPath(g, s, path)} :: |path| > 0 && FloodPath(g, s, path) && path[|path| - 1] == q
  }

  lemma ReachedStart(g: Cells, s: Pos)
    ensures Reached(g, s, s)
  {
    assert FloodPath(g, s, [s]);
  }

  lemma ReachedStep(g: Cells, s: Pos, p: Pos, q: Pos)
    requires Reached(g, s, p) && Step(g, p, q)
    ensures Reached(g, s, q)
  {
    var path :| |path| > 0 && FloodPath(g, s, path) && path[|path| - 1] == p;
    var longer := path + [q];
    assert longer[..|longer| - 1] == path;
    assert FloodPath(g, s, longer);
  }

  /** Every reached cell other than the start is entered by a step from a reached cell. */
  lemma ReachedFrom(g: Cells, s: Pos, q: Pos) returns (p: Pos)
    requires Reached(g, s, q) && q != s
    ensures Reached(g, s, p) && Step(g, p, q)
  {
    var path :| |path| > 0 && FloodPath(g, s, path) && path[|path| - 1] == q;
    p := path[|path| - 2];
    var prefix := path[..|path| - 1];
    assert prefix[|prefix| - 1] == p && FloodPath(g, s, prefix);
  }

  /** The cells that uncovering `s` uncovers: `s` itself, and when it is not mined, the flood from it. */
  ghost predicate Uncovers(g: Cells, s: Pos, q: Pos) {
    InBounds(g, s) && At(g, s).isCovered && (q == s || (!At(g, s).isMined && Reached(g, s, q)))
  }

  /** The grid after uncovering `s` (uncoverCell). */
  ghost function Uncover(g: Cells, s: Pos): (r: Cells)
    ensures SameShape(g, r)
    ensures forall q :: InBounds(g, q) ==>
      InBounds(r, q) && At(r, q) == At(g, q).(isCovered := At(g, q).isCovered && !Uncovers(g, s, q))
  {
    seq(|g|, i requires 0 <= i < |g| =>
      seq(|g[i]|, j requires 0 <= j < |g[i]| =>
        g[i][j].(isCovered := g[i][j].isCovered && !Uncovers(g, s, Pos(i, j)))))
  }

  /**
   * Uncovering never covers a cell again and never touches a cell's mine,
   * flag or count; a cell it uncovers was covered.
   */
  lemma UncoverOnlyUncovers(g: Cells, s: Pos)
    ensures OnlyUncovers(g, Uncover(g, s))
  {
  }

  /** Uncovering an uncovered cell changes nothing. */
  lemma UncoverIdempotent(g: Cells, s: Pos)
    requires InBounds(g, s) && !At(g, s).isCovered
    ensures Uncover(g, s) == g
  {
    Extensionality(Uncover(g, s), g);
  }

  /** A flood goes beyond its start only when the start's count is zero. */
  lemma {:induction false} FloodNeedsZeroStart(g: Cells, s: Pos, path: seq<Pos>)
    requires |path| > 1 && FloodPath(g, s, path)
    ensures InBounds(g, s) && At(g, s).neighboringMines == 0
    decreases |path|
  {
    var prefix := path[..|path| - 1];
    if |prefix| > 1 {
      FloodNeedsZeroStart(g, s, prefix);
    } else {
      assert Step(g, s, path[1]);
    }
  }

  /** From a cell whose count is not zero, the flood reaches nothing but that cell. */
  lemma ReachedOnlyStart(g: Cells, s: Pos, q: Pos)
    requires InBounds(g, s) && At(g, s).neighboringMines != 0
    ensures Reached(g, s, q) <==> q == s
  {
    if Reached(g, s, q) {
      var path :| |path| > 0 && FloodPath(g, s, path) && path[|path| - 1] == q;
      if |path| > 1 {
        FloodNeedsZeroStart(g, s, path);
      }
    }
    if q == s {
      ReachedStart(g, s);
    }
  }

  /**
   * In a consistent grid the flood never uncovers a mine: every cell it
   * enters is the neighbour of a cell whose count is zero.
   */
  lemma UncoverAvoidsMines(g: Cells, s: Pos)
    requires Consistent(g)
    ensures forall q :: InBounds(g, q) && Uncovers(g, s, q) && q != s ==> !At(g, q).isMined
  {
    forall q | InBounds(g, q) && Uncovers(g, s, q) && q != s
      ensures !At(g, q).isMined
    {
      var p := ReachedFrom(g, s, q);
      ZeroHasNoMinedNeighbor(g, p, q);
    }
  }

  /**
   * The flood is maximal: every cell it uncovers whose count is zero has
   * all its neighbours uncovered afterwards.
   */
  lemma UncoverIsClosed(g: Cells, s: Pos, p: Pos, q: Pos)
    requires InBounds(g, s) && !At(g, s).isMined
    requires InBounds(g, p) && InBounds(g, q) && Adjacent(p, q)
    requires Uncovers(g, s, p) && At(g, p).neighboringMines == 0
    ensures !At(Uncover(g, s), q).isCovered
  {
    if At(g, q).isCovered {
      if p == s {
        ReachedStart(g, s);
      }
      ReachedStep(g, s, p, q);
    }
  }

  /** Newly uncovered cells whose count is zero have every neighbour uncovered. */
  ghost predicate Closed(g0: Cells, g1: Cells)
    requires SameShape(g0, g1)
  {
    forall p, q {:trigger Adjacent(p, q)} ::
      InBounds(g0, p) && InBounds(g0, q) && Adjacent(p, q) &&
      At(g0, p).isCovered && !At(g1, p).isCovered && At(g0, p).neighboringMines == 0
      ==> !At(g1, q).isCovered
  }

  /** A grid that has uncovered the start and is closed has uncovered every reached cell. */
  lemma {:induction false} ClosedCoversReached(g0: Cells, g1: Cells, s: Pos, path: seq<Pos>)
    requires SameShape(g0, g1) && Closed(g0, g1)
    requires InBounds(g0, s) && At(g0, s).isCovered && !At(g1, s).isCovered
    requires |path| > 0 && FloodPath(g0, s, path)
    ensures InBounds(g0, path[|path| - 1])
    ensures At(g0, path[|path| - 1]).isCovered && !At(g1, path[|path| - 1]).isCovered
    decreases |path|
  {
    if |path| > 1 {
      var prefix := path[..|path| - 1];
      ClosedCoversReached(g0, g1, s, prefix);
      assert Step(g0, prefix[|prefix| - 1], path[|path| - 1]);
    }
  }

  lemma ClosedUncoversAll(g0: Cells, g1: Cells, s: Pos)
    requires SameShape(g0, g1) && Closed(g0, g1)
    requires InBounds(g0, s) && At(g0, s).isCovered && !At(g1, s).isCovered
    ensures forall q :: Reached(g0, s, q) ==> InBounds(g0, q) && !At(g1, q).isCovered
  {
    forall q | Reached(g0, s, q)
      ensures InBounds(g0, q) && !At(g1, q).isCovered
    {
      var path :| |path| > 0 && FloodPath(g0, s, path) && path[|path| - 1] == q;
      ClosedCoversReached(g0, g1, s, path);
    }
  }

  // The flood loop of uncoverCell, which keeps the cells still to spread from
  // on an explicit stack.

  /** `g` has uncovered `start` and nothing the flood from it does not reach. */
  ghost predicate FloodSound(g0: Cells, g: Cells, start: Pos) {
    OnlyUncovers(g0, g) &&
    InBounds(g0, start) && At(g0, start).isCovered && !At(g0, start).isMined && !At(g, start).isCovered &&
    forall q :: InBounds(g0, q) && At(g0, q).isCovered && !At(g, q).isCovered ==> Reached(g0, start, q)
  }

  /** Every cell on `stack` is reached and has count zero. */
  ghost predicate FloodPending(g0: Cells, start: Pos, stack: seq<Pos>) {
    forall k :: 0 <= k < |stack| ==>
      InBounds(g0, stack[k]) && Reached(g0, start, stack[k]) && At(g0, stack[k]).neighboringMines == 0
  }

  /** Every newly uncovered zero cell that is not on `stack` has all its neighbours uncovered. */
  ghost predicate FloodClosedExcept(g0: Cells, g: Cells, stack: seq<Pos>)
    requires SameShape(g0, g)
  {
    forall x, q {:trigger Adjacent(x, q)} ::
      InBounds(g0, x) && InBounds(g0, q) && Adjacent(x, q) &&
      At(g0, x).isCovered && !At(g, x).isCovered && At(g0, x).neighboringMines == 0 && x !in stack
      ==> !At(g, q).isCovered
  }

  /** A state of uncoverCell's flood from `start` over `g0`, with `stack` still to spread from. */
  ghost predicate Flooding(g0: Cells, g: Cells, start: Pos, stack: seq<Pos>) {
    FloodSound(g0, g, start) && FloodPending(g0, start, stack) && FloodClosedExcept(g0, g, stack)
  }

  /** Uncovering a covered zero cell and pushing it starts the flood. */
  lemma FloodBegin(g0: Cells, start: Pos)
    requires InBounds(g0, start) && At(g0, start).isCovered && !At(g0, start).isMined
    requires At(g0, start).neighboringMines == 0
    ensures Flooding(g0, Put(g0, start, At(g0, start).(isCovered := false)), start, [start])
  {
    ReachedStart(g0, start);
  }

  lemma FloodVisitSound(g0: Cells, g: Cells, start: Pos, next: Pos, n: Pos)
    requires FloodSound(g0, g, start) && Reached(g0, start, next) && At(g0, next).neighboringMines == 0
    requires InBounds(g0, n) && Adjacent(next, n) && At(g, n).isCovered
    ensures InBounds(g, n) && FloodSound(g0, Put(g, n, At(g, n).(isCovered := false)), start)
  {
    ReachedStep(g0, start, next, n);
  }

  lemma FloodVisitPending(g0: Cells, start: Pos, stack: seq<Pos>, n: Pos, push: bool)
    requires FloodPending(g0, start, stack)
    requires push ==> InBounds(g0, n) && Reached(g0, start, n) && At(g0, n).neighboringMines == 0
    ensures FloodPending(g0, start, if push then stack + [n] else stack)
  {
  }

  lemma FloodVisitClosed(g0: Cells, g: Cells, stack: seq<Pos>, stack1: seq<Pos>, n: Pos)
    requires OnlyUncovers(g0, g) && FloodClosedExcept(g0, g, stack)
    requires InBounds(g, n) && At(g, n).isCovered
    requires forall x :: x in stack ==> x in stack1
    requires At(g0, n).neighboringMines == 0 ==> n in stack1
    ensures OnlyUncovers(g0, Put(g, n, At(g, n).(isCovered := false)))
    ensures FloodClosedExcept(g0, Put(g, n, At(g, n).(isCovered := false)), stack1)
  {
    var g1 := Put(g, n, At(g, n).(isCovered := false));
    forall x, q |
      InBounds(g0, x) && InBounds(g0, q) && Adjacent(x, q) &&
      At(g0, x).isCovered && !At(g1, x).isCovered && At(g0, x).neighboringMines == 0 && x !in stack1
      ensures !At(g1, q).isCovered
    {
      assert x != n;
    }
  }

  /**
   * While spreading from `next`: uncovering a covered neighbour, and pushing
   * it when its count is zero, keeps the flood state.
   */
  lemma FloodVisit(g0: Cells, g: Cells, start: Pos, stack: seq<Pos>, next: Pos, n: Pos)
    requires Flooding(g0, g, start, stack + [next])
    requires InBounds(g0, n) && Adjacent(next, n) && At(g, n).isCovered
    ensures InBounds(g, n)
    ensures Flooding(g0, Put(g, n, At(g, n).(isCovered := false)), start,
                     (if At(g, n).neighboringMines == 0 then stack + [n] else stack) + [next])
  {
    var push := At(g, n).neighboringMines == 0;
    assert (stack + [next])[|stack|] == next;
    FloodVisitSound(g0, g, start, next, n);
    ReachedStep(g0, start, next, n);
    assert FloodPending(g0, start, stack) by {
      forall k | 0 <= k < |stack| ensures stack[k] == (stack + [next])[k] { }
    }
    FloodVisitPending(g0, start, stack, n, push);
    var pushed := if push then stack + [n] else stack;
    FloodVisitPending(g0, start, pushed, next, true);
    FloodVisitClosed(g0, g, stack + [next], pushed + [next], n);
  }

  /** Once every neighbour of `next` is uncovered, `next` no longer needs to be on the stack. */
  lemma FloodDone(g0: Cells, g: Cells, start: Pos, stack: seq<Pos>, next: Pos)
    requires Flooding(g0, g, start, stack + [next])
    requires forall q :: InBounds(g0, q) && Adjacent(next, q) ==> !At(g, q).isCovered
    ensures Flooding(g0, g, start, stack)
  {
    forall k | 0 <= k < |stack|
      ensures InBounds(g0, stack[k]) && Reached(g0, start, stack[k]) && At(g0, stack[k]).neighboringMines == 0
    {
      assert stack[k] == (stack + [next])[k];
    }
  }

  /** An empty stack means the flood is complete: the grid is the result of uncovering `start`. */
  lemma FloodEnd(g0: Cells, g: Cells, start: Pos)
    requires Flooding(g0, g, start, [])
    ensures g == Uncover(g0, start)
  {
    assert Closed(g0, g);
    ClosedUncoversAll(g0, g, start);
    ReachedStart(g0, start);
    Extensionality(g, Uncover(g0, start));
  }

  /** A mined cell, or one whose count is not zero, is uncovered alone. */
  lemma UncoverSingle(g0: Cells, start: Pos)
    requires InBounds(g0, start) && At(g0, start).isCovered
    requires At(g0, start).isMined || At(g0, start).neighboringMines != 0
    ensures Uncover(g0, start) == Put(g0, start, At(g0, start).(isCovered := false))
  {
    if !At(g0, start).isMined {
      forall q {
        ReachedOnlyStart(g0, start, q);
      }
    }
    Extensionality(Uncover(g0, start), Put(g0, start, At(g0, start).(isCovered := false)));
  }

  /** Some mined cell that was covered in `g` is uncovered in `h`. */
  ghost predicate MineUncovered(g: Cells, h: Cells) {
    exists q :: InBounds(g, q) && InBounds(h, q) &&
      At(g, q).isMined && At(g, q).isCovered && !At(h, q).isCovered
  }

  /** In a consistent grid, uncovering a covered cell uncovers a mine exactly when that cell is mined. */
  lemma UncoverHitIff(g: Cells, s: Pos)
    requires Consistent(g) && InBounds(g, s) && At(g, s).isCovered
    ensures MineUncovered(g, Uncover(g, s)) <==> At(g, s).isMined
  {
    UncoverAvoidsMines(g, s);
    var r := Uncover(g, s);
    if At(g, s).isMined {
      assert InBounds(r, s) && !At(r, s).isCovered;
    }
  }

  lemma MineUncoveredChain(g: Cells, h: Cells, k: Cells)
    requires OnlyUncovers(g, h) && OnlyUncovers(h, k)
    ensures MineUncovered(g, k) <==> MineUncovered(g, h) || MineUncovered(h, k)
  {
    if MineUncovered(g, k) {
      var q :| InBounds(g, q) && InBounds(k, q) && At(g, q).isMined && At(g, q).isCovered && !At(k, q).isCovered;
      assert InBounds(h, q);
    }
    if MineUncovered(g, h) {
      var q :| InBounds(g, q) && InBounds(h, q) && At(g, q).isMined && At(g, q).isCovered && !At(h, q).isCovered;
      assert InBounds(k, q);
    }
    if MineUncovered(h, k) {
      var q :| InBounds(h, q) && InBounds(k, q) && At(h, q).isMined && At(h, q).isCovered && !At(k, q).isCovered;
      assert InBounds(g, q);
    }
  }

  // ---------------------------------------------------------------- chording

  /** Number of covered, flagged cells among the positions `ns`. */
  function FlaggedAmong(g: Cells, ns: seq<Pos>): (n: nat)
    ensures n <= |ns|
  {
    if ns == [] then 0
    else
      (if InBounds(g, ns[0]) && At(g, ns[0]).isCovered && At(g, ns[0]).isFlagged then 1 else 0)
      + FlaggedAmong(g, ns[1..])
  }

  /**
   * Going through `ns` in order, uncover each covered, unflagged cell until a
   * mine has been hit; `hit` says whether one has been hit so far.
   */
  ghost function ChordOver(g: Cells, ns: seq<Pos>, hit: bool): (r: (Cells, bool))
    ensures OnlyUncovers(g, r.0)
    ensures hit ==> r.1
    decreases |ns|
  {
    if ns == [] then (g, hit)
    else if InBounds(g, ns[0]) && At(g, ns[0]).isCovered && !At(g, ns[0]).isFlagged && !hit then
      var g1 := Uncover(g, ns[0]);
      UncoverOnlyUncovers(g, ns[0]);
      var r := ChordOver(g1, ns[1..], At(g, ns[0]).isMined);
      OnlyUncoversTransitive(g, g1, r.0);
      r
    else
      ChordOver(g, ns[1..], hit)
  }

  /** Once a mine has been hit, chording uncovers nothing more: `||` short-circuits. */
  lemma {:induction false} ChordAfterHit(g: Cells, ns: seq<Pos>)
    ensures ChordOver(g, ns, true) == (g, true)
    decreases |ns|
  {
    if ns != [] {
      ChordAfterHit(g, ns[1..]);
    }
  }

  /**
   * A chord that hits no mine leaves every listed cell uncovered that was
   * covered and unflagged: it uncovers all the unflagged neighbours.
   */
  lemma {:induction false} ChordOverUncoversAll(g: Cells, ns: seq<Pos>, hit: bool)
    requires !ChordOver(g, ns, hit).1
    ensures forall n :: n in ns && InBounds(g, n) && At(g, n).isCovered && !At(g, n).isFlagged ==>
      InBounds(ChordOver(g, ns, hit).0, n) && !At(ChordOver(g, ns, hit).0, n).isCovered
    decreases |ns|
  {
    if ns != [] {
      var r := ChordOver(g, ns, hit);
      if InBounds(g, ns[0]) && At(g, ns[0]).isCovered && !At(g, ns[0]).isFlagged && !hit {
        var g1 := Uncover(g, ns[0]);
        UncoverOnlyUncovers(g, ns[0]);
        ChordOverUncoversAll(g1, ns[1..], At(g, ns[0]).isMined);
        assert r == ChordOver(g1, ns[1..], At(g, ns[0]).isMined);
        forall n | n in ns && InBounds(g, n) && At(g, n).isCovered && !At(g, n).isFlagged
          ensures InBounds(r.0, n) && !At(r.0, n).isCovered
        {
          if !At(g1, n).isCovered {
            assert InBounds(g1, n);
          } else {
            assert n != ns[0];
            assert n in ns[1..];
          }
        }
      } else {
        ChordOverUncoversAll(g, ns[1..], hit);
        forall n | n in ns && InBounds(g, n) && At(g, n).isCovered && !At(g, n).isFlagged
          ensures InBounds(r.0, n) && !At(r.0, n).isCovered
        {
          if n != ns[0] {
            assert n in ns[1..];
          }
        }
      }
    }
  }

  /** Unfolds `FlaggedAmong` at position `k` of `ns`, as a loop over `ns` reads it. */
  lemma FlaggedAmongAt(g: Cells, ns: seq<Pos>, k: int)
    requires 0 <= k < |ns|
    ensures FlaggedAmong(g, ns[k..])
         == (if InBounds(g, ns[k]) && At(g, ns[k]).isCovered && At(g, ns[k]).isFlagged then 1 else 0)
            + FlaggedAmong(g, ns[k + 1..])
  {
    assert ns[k..][1..] == ns[k + 1..];
  }

  /** Unfolds `ChordOver` at position `k` of `ns`, as a loop over `ns` reads it. */
  lemma ChordOverAt(g: Cells, ns: seq<Pos>, k: int, hit: bool)
    requires 0 <= k < |ns|
    ensures ChordOver(g, ns[k..], hit)
         == if InBounds(g, ns[k]) && At(g, ns[k]).isCovered && !At(g, ns[k]).isFlagged && !hit
            then ChordOver(Uncover(g, ns[k]), ns[k + 1..], At(g, ns[k]).isMined)
            else ChordOver(g, ns[k + 1..], hit)
  {
    assert ns[k..][1..] == ns[k + 1..];
  }

  /** What chording does at one neighbour `n`: uncover it when covered, unflagged and no mine has been hit yet. */
  ghost function ChordVisit(g: Cells, n: Pos, hit: bool): (r: (Cells, bool))
    ensures OnlyUncovers(g, r.0)
  {
    UncoverOnlyUncovers(g, n);
    if InBounds(g, n) && At(g, n).isCovered && !At(g, n).isFlagged && !hit then (Uncover(g, n), At(g, n).isMined)
    else (g, hit)
  }

  /** One step of a loop over `ns` that chords: the grid and hit flag before and after visiting `ns[k]`. */
  lemma ChordStep(g0: Cells, ns: seq<Pos>, k: int, before: Cells, hitBefore: bool, after: Cells, hitAfter: bool)
    requires 0 <= k < |ns|
    requires SameShape(g0, before) && ChordOver(before, ns[k..], hitBefore) == ChordOver(g0, ns, false)
    requires (after, hitAfter) == ChordVisit(before, ns[k], hitBefore)
    ensures SameShape(g0, after) && ChordOver(after, ns[k + 1..], hitAfter) == ChordOver(g0, ns, false)
  {
    ChordOverAt(before, ns, k, hitBefore);
    SameShapeInBounds(before, after);
  }

  /** The grid and the hit flag after uncoverNeighbors on `p`. */
  ghost function Chord(g: Cells, p: Pos): (Cells, bool)
    requires InBounds(g, p)
  {
    var ns := Neighborhood(g, p);
    if FlaggedAmong(g, ns) >= At(g, p).neighboringMines then ChordOver(g, ns, false) else (g, false)
  }

  /** The grid and the hit flag after handleCellClick on `p`. */
  ghost function Click(g: Cells, p: Pos): (Cells, bool)
    requires InBounds(g, p)
  {
    if At(g, p).isCovered then (Uncover(g, p), At(g, p).isMined) else Chord(g, p)
  }

  /** With too few flags around it, chording changes nothing and hits nothing. */
  lemma ChordNeedsFlags(g: Cells, p: Pos)
    requires InBounds(g, p) && FlaggedAmong(g, Neighborhood(g, p)) < At(g, p).neighboringMines
    ensures Chord(g, p) == (g, false)
  {
  }

  /** In a consistent grid, the chord reports a hit exactly when a mine has been uncovered. */
  lemma {:induction false} ChordOverHitIff(g: Cells, ns: seq<Pos>, hit: bool)
    requires Consistent(g)
    ensures ChordOver(g, ns, hit).1 <==> hit || MineUncovered(g, ChordOver(g, ns, hit).0)
    decreases |ns|
  {
    var r := ChordOver(g, ns, hit);
    if ns == [] {
    } else if InBounds(g, ns[0]) && At(g, ns[0]).isCovered && !At(g, ns[0]).isFlagged && !hit {
      var g1 := Uncover(g, ns[0]);
      UncoverOnlyUncovers(g, ns[0]);
      OnlyUncoversLayout(g, g1);
      UncoverHitIff(g, ns[0]);
      ChordOverHitIff(g1, ns[1..], At(g, ns[0]).isMined);
      MineUncoveredChain(g, g1, r.0);
    } else {
      ChordOverHitIff(g, ns[1..], hit);
    }
  }

  /** `handleCellClick` reports a hit exactly when the move uncovered a mine. */
  lemma ClickHitIff(g: Cells, p: Pos)
    requires Consistent(g) && InBounds(g, p)
    ensures Click(g, p).1 <==> MineUncovered(g, Click(g, p).0)
  {
    if At(g, p).isCovered {
      UncoverHitIff(g, p);
    } else {
      var ns := Neighborhood(g, p);
      if FlaggedAmong(g, ns) >= At(g, p).neighboringMines {
        ChordOverHitIff(g, ns, false);
      }
    }
  }

  /** Every mined neighbour of `p` is covered and flagged in `g`. */
  ghost predicate FlagsCorrectAround(g: Cells, p: Pos) {
    forall q :: InBounds(g, q) && Adjacent(p, q) && At(g, q).isMined ==>
      At(g, q).isFlagged && At(g, q).isCovered
  }

  lemma {:induction false} ChordOverSafe(g: Cells, p: Pos, ns: seq<Pos>)
    requires Consistent(g) && FlagsCorrectAround(g, p)
    requires forall n :: n in ns ==> Adjacent(p, n)
    ensures !ChordOver(g, ns, false).1
    decreases |ns|
  {
    if ns != [] {
      var n := ns[0];
      assert n in ns;
      if InBounds(g, n) && At(g, n).isCovered && !At(g, n).isFlagged {
        var g1 := Uncover(g, n);
        UncoverOnlyUncovers(g, n);
        OnlyUncoversLayout(g, g1);
        UncoverAvoidsMines(g, n);
        assert FlagsCorrectAround(g1, p);
        ChordOverSafe(g1, p, ns[1..]);
      } else {
        ChordOverSafe(g, p, ns[1..]);
      }
    }
  }

  /**
   * When the flags around an uncovered cell are right (every mined neighbour
   * is flagged), chording on it hits no mine and uncovers none.
   */
  lemma ChordSafeWithCorrectFlags(g: Cells, p: Pos)
    requires Consistent(g) && InBounds(g, p) && FlagsCorrectAround(g, p)
    ensures !Chord(g, p).1 && !MineUncovered(g, Chord(g, p).0)
  {
    var ns := Neighborhood(g, p);
    NeighborhoodIsAdjacentInBounds(g, p);
    if FlaggedAmong(g, ns) >= At(g, p).neighboringMines {
      ChordOverSafe(g, p, ns);
      ChordOverHitIff(g, ns, false);
    }
  }

  // ---------------------------------------------------------------- end of game

  /** The grid after uncoverMines: a cell stays covered exactly when it was covered and unmined. */
  function RevealMines(g: Cells): (r: Cells)
    ensures SameShape(g, r)
    ensures forall q :: InBounds(g, q) ==>
      InBounds(r, q) && At(r, q) == At(g, q).(isCovered := At(r, q).isCovered) &&
      (At(r, q).isCovered <==> At(g, q).isCovered && !At(g, q).isMined)
  {
    seq(|g|, i requires 0 <= i < |g| =>
      seq(|g[i]|, j requires 0 <= j < |g[i]| =>
        if g[i][j].isMined then g[i][j].(isCovered := false) else g[i][j]))
  }

  /** The grid after markMines: a cell is flagged exactly when it was flagged or is mined. */
  function FlagMines(g: Cells): (r: Cells)
    ensures SameShape(g, r)
    ensures forall q :: InBounds(g, q) ==>
      InBounds(r, q) && At(r, q) == At(g, q).(isFlagged := At(r, q).isFlagged) &&
      (At(r, q).isFlagged <==> At(g, q).isFlagged || At(g, q).isMined)
  {
    seq(|g|, i requires 0 <= i < |g| =>
      seq(|g[i]|, j requires 0 <= j < |g[i]| =>
        if g[i][j].isMined then g[i][j].(isFlagged := true) else g[i][j]))
  }
}
