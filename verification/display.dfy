/** What a cell shows: `setState` (Minesweeper.java lines 188-200) for an
    open cell, and the face the board adapter gives each cell when it is
    built from a saved game (lines 331-345). Colours and drawables become
    the constructors of `Face`. */
module Display {
  import opened Minefield
  import opened Minesweeper
  import opened Play
  import opened Invariant

  datatype Face = Ball | Flag | FlagError | Empty | Number(count: int) | Mine | MineBoom

  /** `setState`: an open cell shows its value. */
  function OpenFace(value: int): (f: Face)
    ensures f == Empty <==> value == 0
    ensures f == Mine <==> value < 0
    ensures f.Number? <==> value > 0
    ensures f.Number? ==> f.count == value
  {
    if value == 0 then Empty else if value > 0 then Number(value) else Mine
  }

  /** The adapter's face of cell i. */
  function CellFace(g: Game, i: nat): (f: Face)
    requires WellFormed(g) && i < g.size
    ensures f == Ball <==> !g.isOpen[i] && !g.isFlag[i]
    ensures f == Flag || f == FlagError <==> g.isFlag[i]
    ensures f == FlagError <==> g.isFlag[i] && g.isGameDone && g.field[i] >= 0
    ensures f == MineBoom <==> !g.isFlag[i] && g.isOpen[i] && i == g.boomPosition
    ensures g.isOpen[i] && !g.isFlag[i] && i != g.boomPosition ==> f == OpenFace(g.field[i])
  {
    if g.isFlag[i] then
      if g.isGameDone && g.field[i] >= 0 then FlagError else Flag
    else if g.isOpen[i] then
      if i == g.boomPosition then MineBoom else OpenFace(g.field[i])
    else Ball
  }

  /** While a game runs nothing gives a mine away: no cell shows a mine, an
      exploded mine or a wrong flag, and every number lies in 1 .. 8. */
  lemma RunningFaces(g: Game, i: nat)
    requires Inv(g) && !g.isGameDone && i < g.size
    ensures CellFace(g, i) !in {Mine, MineBoom, FlagError}
    ensures g.isMapCreated && CellFace(g, i).Number? ==> 1 <= CellFace(g, i).count <= 8
  {
    if g.isMapCreated {
      CountsAtMostEight(g.row, g.column, g.field);
    }
  }

  /** After a loss the board shows the exploded mine once, every other mine
      that carries no flag, every flag on a safe cell as wrong, and a flag on
      a mine as a flag: what `gameOver` paints (lines 202-219). */
  lemma LostFaces(g: Game, position: nat, i: nat)
    requires Inv(g) && g.isMapCreated && position < g.size && i < g.size
    requires !g.isGameDone && !g.isOpen[position] && !g.isFlag[position] && g.field[position] < 0
    ensures var r := Reveal(g, position).value;
            && (CellFace(r, i) == MineBoom <==> i == position)
            && (!g.isFlag[i] && g.field[i] < 0 && i != position ==> CellFace(r, i) == Mine)
            && (g.isFlag[i] ==> CellFace(r, i) == (if g.field[i] >= 0 then FlagError else Flag))
            && (!g.isFlag[i] && g.field[i] >= 0 ==> CellFace(r, i) == CellFace(g, i))
  {
  }

  /** After a win every safe cell shows its value and every mine shows a
      ball or a flag. */
  lemma WonFaces(g: Game, i: nat)
    requires Inv(g) && g.isMapCreated && g.isGameDone && g.boomPosition == -1 && i < g.size
    ensures g.field[i] >= 0 ==> CellFace(g, i) == OpenFace(g.field[i]) && CellFace(g, i) != Mine
    ensures g.field[i] < 0 ==> CellFace(g, i) in {Ball, Flag}
  {
    WonIffAllSafeOpen(g);
  }
}
