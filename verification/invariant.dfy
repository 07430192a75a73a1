/** The invariant a game keeps between two events, and its preservation by
    every event of the board (construction, long click, click). The click
    part holds under `FlagsClear`: see `Expansion` for what `expand` does when
    a flag touches a hidden zero cell. */
module Invariant {
  import opened Minefield
  import opened Minesweeper
  import opened Expansion
  import opened Play

  /** The cells that hold no mine. */
  function SafeCells(field: seq<int>): set<nat> {
    set p | 0 <= p < |field| && field[p] >= 0
  }

  /** Between events: no cell is both open and flagged; before the first click
      nothing is open and `countDown` is its initial value; once the map
      exists its mines are labelled and counted and `countDown` is the number
      of safe cells still hidden; a game not lost has no open mine and is over
      exactly when `countDown` is 0; a lost game has its exploded mine open. */
  predicate Inv(g: Game) {
    && WellFormed(g)
    && 0 < g.mineNumber < g.size
    && (forall p :: 0 <= p < g.size ==> !(g.isOpen[p] && g.isFlag[p]))
    && (!g.isMapCreated ==>
          && !g.isGameDone && g.boomPosition == -1
          && g.countDown == g.size - g.mineNumber
          && (forall p :: 0 <= p < g.size ==> !g.isOpen[p]))
    && (g.isMapCreated ==>
          && MinesLabelled(g.field, g.mineNumber)
          && CountsConsistent(g.column, g.field)
          && g.countDown == |SafeHidden(g)|)
    && (g.boomPosition == -1 ==>
          && (forall p :: 0 <= p < g.size && g.isOpen[p] ==> g.field[p] >= 0)
          && (g.isGameDone <==> g.countDown == 0))
    && (g.boomPosition != -1 ==>
          && 0 <= g.boomPosition < g.size && g.isMapCreated && g.isGameDone
          && g.isOpen[g.boomPosition] && g.field[g.boomPosition] < 0
          && g.countDown > 0)
  }

  /** The safe cells and the mines split the board. */
  lemma {:induction false} SafeCellsCard(field: seq<int>)
    ensures |SafeCells(field)| + |Mines(field)| == |field|
  {
    if field != [] {
      var n := |field| - 1;
      var init := field[..n];
      SafeCellsCard(init);
      if field[n] >= 0 {
        assert SafeCells(field) == SafeCells(init) + {n};
        assert Mines(field) == Mines(init);
      } else {
        assert SafeCells(field) == SafeCells(init);
        assert Mines(field) == Mines(init) + {n};
      }
    }
  }

  /** Removing a subset takes exactly its size away. */
  lemma DiffCard<T>(a: set<T>, b: set<T>)
    requires b <= a
    ensures |a - b| == |a| - |b|
  {
    assert a == (a - b) + b;
    assert (a - b) * b == {};
  }

  lemma NewInv(level: Level)
    ensures Inv(New(level))
  {
  }

  lemma LongClickInv(g: Game, position: nat)
    requires Inv(g) && position < g.size
    ensures Inv(LongClick(g, position))
  {
    var r := LongClick(g, position);
    assert SafeHidden(r) == SafeHidden(g);
  }

  /** The first click lays the mines around a cell that stays safe; every
      safe cell is then hidden, so `countDown` already counts them. */
  lemma EnsureMapInv(g: Game, position: nat, draws: seq<nat>)
    requires Inv(g) && position < g.size && DrawsInside(g, draws)
    ensures EnsureMap(g, position, draws).Success? ==> Inv(EnsureMap(g, position, draws).value)
  {
    var r := EnsureMap(g, position, draws);
    if r.Success? && !g.isMapCreated {
      var g' := r.value;
      assert SafeHidden(g') == SafeCells(g'.field);
      SafeCellsCard(g'.field);
    }
  }

  /** A loss opens mines only, so the safe cells still hidden are unchanged. */
  lemma GameOverInv(g: Game, position: nat)
    requires Inv(g) && g.isMapCreated && position < g.size
    requires !g.isGameDone && !g.isOpen[position] && !g.isFlag[position] && g.field[position] < 0
    ensures Inv(Reveal(g, position).value)
  {
    var r := Reveal(g, position).value;
    assert SafeHidden(r) == SafeHidden(g);
  }

  /** An expansion that opens only safe cells and decrements `countDown`
      once per cell opened keeps `countDown` equal to the safe cells hidden. */
  lemma SafeRevealCount(g: Game, g1: Game)
    requires WellFormed(g) && Grows(g, g1) && g.countDown == |SafeHidden(g)|
    requires forall q :: 0 <= q < g.size && NewlyOpened(g, g1, q) ==> g.field[q] >= 0
    requires g.countDown - g1.countDown == |Hidden(g)| - |Hidden(g1)|
    ensures g1.countDown == |SafeHidden(g1)|
  {
    var revealed := Hidden(g) - Hidden(g1);
    assert Hidden(g1) <= Hidden(g);
    assert revealed <= SafeHidden(g);
    assert SafeHidden(g1) == SafeHidden(g) - revealed;
    assert Hidden(g1) == Hidden(g) - revealed;
    DiffCard(SafeHidden(g), revealed);
    DiffCard(Hidden(g), revealed);
  }

  /** Such an expansion keeps the invariant, with the win check after it. */
  lemma SafeRevealInv(g: Game, g1: Game)
    requires Inv(g) && g.isMapCreated && !g.isGameDone && g.boomPosition == -1
    requires Grows(g, g1)
    requires forall q :: 0 <= q < g.size && NewlyOpened(g, g1, q) ==> g.field[q] >= 0
    requires g.countDown - g1.countDown == |Hidden(g)| - |Hidden(g1)|
    ensures Inv(if g1.countDown == 0 then g1.(isGameDone := true) else g1)
  {
    SafeRevealCount(g, g1);
    var r := if g1.countDown == 0 then g1.(isGameDone := true) else g1;
    assert SafeHidden(r) == SafeHidden(g1);
    assert forall p :: 0 <= p < g.size && r.isOpen[p] ==> g.isOpen[p] || NewlyOpened(g, g1, p);
  }

  /** Flags that all sit on mines never touch a hidden cell holding 0, so
      the restriction of `ExpandInv` and `ClickInv` leaves out only games
      that carry a flag on a safe cell. */
  lemma CorrectFlagsClear(g: Game)
    requires Inv(g) && g.isMapCreated
    requires forall q :: 0 <= q < g.size && g.isFlag[q] ==> g.field[q] < 0
    ensures FlagsClear(g)
  {
    forall z | 0 <= z < g.size && !g.isOpen[z] && !g.isFlag[z] && g.field[z] == 0
      ensures NoFlagAround(g, z)
    {
      ZeroHasNoMineAround(g.column, g.field, z);
    }
  }

  /** A click on a safe cell, with no flag beside a hidden zero cell: the
      cells `expand` opens are safe and `countDown` drops by their number. */
  lemma ExpandInv(g: Game, position: nat)
    requires Inv(g) && g.isMapCreated && position < g.size && FlagsClear(g)
    requires !g.isGameDone && !g.isOpen[position] && !g.isFlag[position] && g.field[position] >= 0
    ensures Reveal(g, position).Success? && Inv(Reveal(g, position).value)
  {
    ExpandExact(g, position);
    ExpandSafe(g, position);
    SafeRevealInv(g, Expand(g, position).value);
  }

  /** Every click keeps the invariant, as long as no flag touches a hidden
      cell holding 0 once the map is laid. */
  lemma ClickInv(g: Game, position: nat, draws: seq<nat>)
    requires Inv(g) && position < g.size && DrawsInside(g, draws)
    requires EnsureMap(g, position, draws).Success? ==> FlagsClear(EnsureMap(g, position, draws).value)
    ensures EnsureMap(g, position, draws).Success? ==> Click(g, position, draws).Success?
    ensures Click(g, position, draws).Success? ==> Inv(Click(g, position, draws).value)
  {
    EnsureMapInv(g, position, draws);
    var e := EnsureMap(g, position, draws);
    if e.Success? {
      var g1 := e.value;
      if !g1.isGameDone && !g1.isOpen[position] && !g1.isFlag[position] {
        if g1.field[position] < 0 {
          GameOverInv(g1, position);
        } else {
          ExpandInv(g1, position);
        }
      }
    }
  }

  /** A game that was not lost is won exactly when every safe cell is open. */
  lemma WonIffAllSafeOpen(g: Game)
    requires Inv(g) && g.isMapCreated && g.boomPosition == -1
    ensures g.isGameDone <==> forall p :: 0 <= p < g.size && g.field[p] >= 0 ==> g.isOpen[p]
  {
    if !g.isGameDone {
      var p :| p in SafeHidden(g);
      assert 0 <= p < g.size && g.field[p] >= 0 && !g.isOpen[p];
    } else {
      forall p | 0 <= p < g.size && g.field[p] >= 0
        ensures g.isOpen[p]
      {
        assert p !in SafeHidden(g);
      }
    }
  }

  /** The first click never hits a mine: the map is laid around it. */
  lemma FirstClickSafe(g: Game, position: nat, draws: seq<nat>)
    requires Inv(g) && !g.isMapCreated && position < g.size && DrawsInside(g, draws)
    ensures Click(g, position, draws).Success? ==>
              Click(g, position, draws).value.boomPosition == -1 &&
              Click(g, position, draws).value.field[position] >= 0
  {
  }

  /** Once the map is laid it never changes: a later click only reveals. */
  lemma MapCreatedOnce(g: Game, position: nat, draws: seq<nat>)
    requires WellFormed(g) && g.isMapCreated && position < g.size && DrawsInside(g, draws)
    ensures Click(g, position, draws) == Reveal(g, position)
    ensures Click(g, position, draws).Success? ==> Click(g, position, draws).value.field == g.field
  {
  }
}
