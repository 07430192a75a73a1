/** The state of one game: the fields of the source's `Minesweeper` object
    that the game logic reads and writes, and the constructor's sizing. */
module Minesweeper {

  datatype Level = Easy | Normal | Hard

  /** Why an operation of the model does not produce a next state:
      `OutOfDraws` — the explicit draw sequence that stands for `Math.random`
      ran out before every mine was placed; `EndlessRecursion` — `expand`
      never returns (see `Expansion.Expand`). */
  datatype Fault = OutOfDraws | EndlessRecursion

  /** `field` is the source's `map`, flattened to one entry per position. */
  datatype Game = Game(
    row: nat,
    column: nat,
    size: nat,
    mineNumber: nat,
    countDown: int,
    boomPosition: int,
    field: seq<int>,
    isMapCreated: bool,
    isGameDone: bool,
    isOpen: seq<bool>,
    isFlag: seq<bool>)

  predicate WellFormed(g: Game) {
    && g.row > 0
    && g.column > 0
    && g.size == g.row * g.column
    && |g.field| == g.size
    && |g.isOpen| == g.size
    && |g.isFlag| == g.size
  }

  /** The constructor's mine count, in exact integer arithmetic: the source
      truncates `size * 15.625 / 100` (that is size * 5/32), or
      `size * 20.625 / 100` (size * 33/160) for HARD. */
  function MineNumber(level: Level, size: nat): (n: nat)
    ensures level != Hard ==> n * 32 <= size * 5 < (n + 1) * 32
    ensures level == Hard ==> n * 160 <= size * 33 < (n + 1) * 160
  {
    if level == Hard then size * 33 / 160 else size * 5 / 32
  }

  /** `new Minesweeper(context, container, level)`, without the views. */
  function New(level: Level): (g: Game)
    ensures WellFormed(g)
    ensures level == Easy ==> g.row == 8 && g.column == 8 && g.mineNumber == 10
    ensures level == Normal ==> g.row == 16 && g.column == 16 && g.mineNumber == 40
    ensures level == Hard ==> g.row == 16 && g.column == 30 && g.mineNumber == 99
    ensures 0 < g.mineNumber < g.size
    ensures g.countDown == g.size - g.mineNumber
    ensures !g.isMapCreated && !g.isGameDone && g.boomPosition == -1
    ensures forall p :: 0 <= p < g.size ==> !g.isOpen[p] && !g.isFlag[p]
  {
    var row: nat := if level == Easy then 8 else 16;
    var column: nat := match level case Easy => 8 case Normal => 16 case Hard => 30;
    var size := row * column;
    var mineNumber := MineNumber(level, size);
    Game(row, column, size, mineNumber, size - mineNumber, -1, seq(size, _ => 0),
         false, false, seq(size, _ => false), seq(size, _ => false))
  }

  /** The state part of `open(position)`: a flagged cell is left alone,
      any other cell becomes open. The drawing done by `setState` is left out. */
  function Open(g: Game, p: nat): (g': Game)
    requires p < |g.isOpen| && p < |g.isFlag|
    ensures g'.(isOpen := g.isOpen) == g
    ensures |g'.isOpen| == |g.isOpen|
    ensures forall q :: 0 <= q < |g.isOpen| && q != p ==> g'.isOpen[q] == g.isOpen[q]
    ensures g'.isOpen[p] == (g.isOpen[p] || !g.isFlag[p])
  {
    if g.isFlag[p] then g else g.(isOpen := g.isOpen[p := true])
  }

  /** The cells not yet open. */
  function Hidden(g: Game): set<nat> {
    set p | 0 <= p < |g.isOpen| && !g.isOpen[p]
  }

  /** The cells not yet open that hold no mine: what `countDown` is meant to count. */
  function SafeHidden(g: Game): set<nat> {
    set p | 0 <= p < |g.isOpen| && p < |g.field| && !g.isOpen[p] && g.field[p] >= 0
  }
}
