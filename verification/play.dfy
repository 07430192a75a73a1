/** The two click listeners of the board (Minesweeper.java lines 92-139) and
    `gameOver` (lines 202-219), on the state alone: the dialogs, the
    background resources and the button texts are left out. */
module Play {
  import opened Wrappers
  import opened Minefield
  import opened Minesweeper
  import opened Expansion

  predicate DrawsInside(g: Game, draws: seq<nat>) {
    forall i :: 0 <= i < |draws| ==> draws[i] < g.size
  }

  /** The first statement of the click listener: the map is created, around
      the clicked cell, on the first click only. */
  function EnsureMap(g: Game, position: nat, draws: seq<nat>): (r: Result<Game, Fault>)
    requires WellFormed(g) && position < g.size && DrawsInside(g, draws)
    ensures g.isMapCreated ==> r == Success(g)
    ensures r.Failure? ==> r.error == OutOfDraws
    ensures r.Success? ==> WellFormed(r.value) && r.value.isMapCreated
    ensures r.Success? ==> r.value.(field := g.field, isMapCreated := g.isMapCreated) == g
    ensures r.Success? && !g.isMapCreated ==> Placed(g.column, r.value.field, position, g.mineNumber)
  {
    if g.isMapCreated then Success(g)
    else
      match CreateMap(g.row, g.column, position, g.mineNumber, draws)
      case None => Failure(OutOfDraws)
      case Some(field) => Success(g.(field := field, isMapCreated := true))
  }

  /** The rest of the click listener: nothing happens once the game is over
      or on an open or flagged cell; a mine ends the game; any other cell is
      expanded, and the game is won when `countDown` reaches 0. */
  function Reveal(g: Game, position: nat): (r: Result<Game, Fault>)
    requires WellFormed(g) && position < g.size
    ensures g.isGameDone || g.isOpen[position] || g.isFlag[position] ==> r == Success(g)
    ensures r.Failure? ==> r.error == EndlessRecursion
    ensures r.Success? ==> WellFormed(r.value) && r.value.isFlag == g.isFlag && r.value.field == g.field
    ensures r.Success? ==> r.value.isMapCreated == g.isMapCreated && r.value.mineNumber == g.mineNumber
    ensures !g.isGameDone && !g.isOpen[position] && !g.isFlag[position] && g.field[position] < 0 ==>
              r.Success? && r.value.isGameDone && r.value.boomPosition == position &&
              r.value.countDown == g.countDown
    ensures !g.isGameDone && !g.isOpen[position] && !g.isFlag[position] && g.field[position] >= 0 && r.Success? ==>
              r.value.boomPosition == g.boomPosition && r.value.isOpen[position] &&
              (r.value.isGameDone <==> r.value.countDown == 0)
  {
    if g.isGameDone || g.isOpen[position] || g.isFlag[position] then Success(g)
    else if g.field[position] < 0 then Success(GameOver(g.(boomPosition := position)))
    else
      ExpandFault(g, position);
      var g1 :- Expand(g, position);
      Success(if g1.countDown == 0 then g1.(isGameDone := true) else g1)
  }

  /** `onItemClick(position)`: create the map if needed, then reveal. */
  function Click(g: Game, position: nat, draws: seq<nat>): (r: Result<Game, Fault>)
    requires WellFormed(g) && position < g.size && DrawsInside(g, draws)
    ensures r.Success? ==> WellFormed(r.value) && r.value.isMapCreated
  {
    var g1 :- EnsureMap(g, position, draws);
    Reveal(g1, position)
  }

  /** `onItemLongClick(position)`: toggle the flag of a hidden cell while the
      game is running. */
  function LongClick(g: Game, position: nat): (r: Game)
    requires WellFormed(g) && position < g.size
    ensures WellFormed(r) && r.(isFlag := g.isFlag) == g
    ensures forall q :: 0 <= q < g.size && q != position ==> r.isFlag[q] == g.isFlag[q]
    ensures r.isFlag[position] <==> (g.isFlag[position] != (!g.isGameDone && !g.isOpen[position]))
  {
    if !g.isGameDone && !g.isOpen[position] then
      g.(isFlag := g.isFlag[position := !g.isFlag[position]])
    else g
  }

  /** `gameOver()`: the game ends, the exploded cell is opened, and the sweep
      opens every other mine that carries no flag. */
  function GameOver(g: Game): (r: Game)
    requires WellFormed(g) && 0 <= g.boomPosition < g.size
    ensures WellFormed(r)
    ensures r.(isOpen := g.isOpen, isGameDone := g.isGameDone) == g
    ensures r.isGameDone && r.isOpen[g.boomPosition]
    ensures forall q :: 0 <= q < g.size ==>
              (r.isOpen[q] <==> g.isOpen[q] || q == g.boomPosition || (!g.isFlag[q] && g.field[q] < 0))
  {
    var b := g.boomPosition;
    LossSweep(g.(isGameDone := true, isOpen := g.isOpen[b := true]), 0)
  }

  /** The loop of `gameOver` from index i on: a cell that carries no flag,
      holds a mine and is not the exploded one is opened. */
  function LossSweep(g: Game, i: nat): (r: Game)
    requires WellFormed(g) && 0 <= g.boomPosition < g.size && i <= g.size
    ensures WellFormed(r) && r.(isOpen := g.isOpen) == g
    ensures forall q :: 0 <= q < g.size ==>
              (r.isOpen[q] <==> g.isOpen[q] || (i <= q && !g.isFlag[q] && g.field[q] < 0 && q != g.boomPosition))
    decreases g.size - i
  {
    if i == g.size then g
    else
      var g1 := if !g.isFlag[i] && g.field[i] < 0 && i != g.boomPosition then Open(g, i) else g;
      LossSweep(g1, i + 1)
  }

  /** The first click lays the map whenever the draws hold `mineNumber`
      distinct cells other than the clicked one. */
  lemma EnsureMapProgress(g: Game, position: nat, draws: seq<nat>)
    requires WellFormed(g) && position < g.size && DrawsInside(g, draws)
    requires |DistinctDraws(position, draws)| >= g.mineNumber
    ensures EnsureMap(g, position, draws).Success?
  {
    if !g.isMapCreated {
      CreateMapProgress(g.row, g.column, position, g.mineNumber, draws);
    }
  }

  /** Toggling a flag twice restores the state. */
  lemma LongClickTwice(g: Game, position: nat)
    requires WellFormed(g) && position < g.size
    ensures LongClick(LongClick(g, position), position) == g
  {
    var r := LongClick(LongClick(g, position), position);
    assert r.isFlag == g.isFlag;
  }

  /** A cell that carries a flag is never opened, either by a click or by a
      loss: once the map exists, a click leaves it closed and flagged. */
  lemma ClickKeepsFlag(g: Game, position: nat, draws: seq<nat>, q: nat)
    requires WellFormed(g) && position < g.size && DrawsInside(g, draws) && q < g.size
    requires g.isFlag[q] && !g.isOpen[q]
    ensures Click(g, position, draws).Success? ==>
              Click(g, position, draws).value.isFlag[q] && !Click(g, position, draws).value.isOpen[q]
  {
  }
}
