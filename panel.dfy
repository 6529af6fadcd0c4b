/**
 * The configuration panel: the board size and mine count a new game is
 * started with, a key that tells successive games apart, and whether a game
 * is showing. Every handler maps the old record to the new one.
 */
module Panel {
  import opened Grid
  import opened Counting

  const MaxHeight := 50
  const MaxWidth := 50

  datatype Config = Config(gameKey: int, height: int, width: int, mineCount: int, inProgress: bool)

  /** The form field an edit comes from. */
  datatype Field = Height | Width | MineCount

  /** The traditional 9 by 9 beginner game with 10 mines, no game showing. */
  const Initial := Config(0, 9, 9, 10, false)

  /** Sizes and mine count a board can be built and mined with. */
  predicate InRange(c: Config) {
    1 <= c.height <= MaxHeight && 1 <= c.width <= MaxWidth && 0 <= c.mineCount <= c.height * c.width
  }

  /** `x` forced into [`lo`, `hi`] as `Math.max(Math.min(x, hi), lo)` does. */
  function Clamp(x: int, lo: int, hi: int): (r: int)
    requires lo <= hi
    ensures lo <= r <= hi
    ensures lo <= x <= hi ==> r == x
    ensures x < lo ==> r == lo
    ensures hi < x ==> r == hi
  {
    var m := if x < hi then x else hi;
    if m > lo then m else lo
  }

  /** The record with one field replaced by the edited value, before any clamping. */
  function Edit(c: Config, field: Field, value: int): (r: Config)
  {
    match field
    case Height => c.(height := value)
    case Width => c.(width := value)
    case MineCount => c.(mineCount := value)
  }

  /** handleChange: the edited field takes the new value, then all three are clamped. */
  function HandleChange(c: Config, field: Field, value: int): (r: Config)
    ensures InRange(r)
    ensures r.gameKey == c.gameKey && r.inProgress == c.inProgress
    ensures r.height == Clamp(Edit(c, field, value).height, 1, MaxHeight)
    ensures r.width == Clamp(Edit(c, field, value).width, 1, MaxWidth)
    ensures r.mineCount == Clamp(Edit(c, field, value).mineCount, 0, r.height * r.width)
  {
    var e := Edit(c, field, value);
    var height := Clamp(e.height, 1, MaxHeight);
    var width := Clamp(e.width, 1, MaxWidth);
    var mineCount := Clamp(e.mineCount, 0, height * width);
    c.(height := height, width := width, mineCount := mineCount)
  }

  /** handleStart: a game is shown; nothing else changes. */
  function HandleStart(c: Config): (r: Config)
    ensures r.inProgress
    ensures r.(inProgress := c.inProgress) == c
  {
    c.(inProgress := true)
  }

  /** handleStartFresh: a new game (a new key) is shown with the same settings. */
  function HandleStartFresh(c: Config): (r: Config)
    ensures r.inProgress && r.gameKey == c.gameKey + 1
    ensures r.(gameKey := c.gameKey, inProgress := c.inProgress) == c
  {
    c.(gameKey := c.gameKey + 1, inProgress := true)
  }

  /** handleReconfigure: back to the form; the next game will get a new key. */
  function HandleReconfigure(c: Config): (r: Config)
    ensures !r.inProgress && r.gameKey == c.gameKey + 1
    ensures r.(gameKey := c.gameKey, inProgress := c.inProgress) == c
  {
    c.(gameKey := c.gameKey + 1, inProgress := false)
  }

  // ---------------------------------------------------------------- properties

  /** The initial settings are in range. */
  lemma InitialInRange()
    ensures InRange(Initial) && Initial.gameKey == 0 && !Initial.inProgress
  {
  }

  /** An edit whose result is already in range is kept exactly; one that is not is changed. */
  lemma ChangeKeepsInRangeEdit(c: Config, field: Field, value: int)
    ensures HandleChange(c, field, value) == Edit(c, field, value) <==> InRange(Edit(c, field, value))
  {
    var e := Edit(c, field, value);
    if InRange(e) {
      assert 0 <= e.mineCount <= e.height * e.width;
    }
  }

  /**
   * Editing the height or the width keeps the mine count when it still fits
   * and otherwise lowers it to the new number of cells.
   */
  lemma ResizeMineCount(c: Config, field: Field, value: int)
    requires field != MineCount && 0 <= c.mineCount
    ensures var r := HandleChange(c, field, value);
      r.mineCount == if c.mineCount <= r.height * r.width then c.mineCount else r.height * r.width
  {
    var r := HandleChange(c, field, value);
    assert Edit(c, field, value).mineCount == c.mineCount;
    assert r.mineCount == Clamp(c.mineCount, 0, r.height * r.width);
  }

  /** Making the same edit twice is the same as making it once. */
  lemma ChangeIdempotent(c: Config, field: Field, value: int)
    ensures HandleChange(HandleChange(c, field, value), field, value) == HandleChange(c, field, value)
  {
    var r := HandleChange(c, field, value);
    var e := Edit(r, field, value);
    if field == MineCount {
      assert Clamp(e.mineCount, 0, r.height * r.width) == r.mineCount;
    } else {
      assert Clamp(e.height, 1, MaxHeight) == r.height && Clamp(e.width, 1, MaxWidth) == r.width;
    }
  }

  /**
   * In-range settings are what a new game needs: a fresh board of that size
   * has at least `mineCount` unmined cells, so every mine can be placed.
   */
  lemma InRangeCanPlaceMines(c: Config)
    requires InRange(c)
    ensures c.height >= 1 && 0 <= c.mineCount <= Count(Fresh(c.height, c.width), IsUnmined)
  {
    CountFresh(c.height, c.width);
  }

  /** None of the handlers takes the settings out of range. */
  lemma HandlersKeepInRange(c: Config)
    requires InRange(c)
    ensures InRange(HandleStart(c)) && InRange(HandleStartFresh(c)) && InRange(HandleReconfigure(c))
  {
    assert HandleStart(c).(inProgress := c.inProgress) == c;
    assert HandleStartFresh(c).(gameKey := c.gameKey, inProgress := c.inProgress) == c;
    assert HandleReconfigure(c).(gameKey := c.gameKey, inProgress := c.inProgress) == c;
  }
}
