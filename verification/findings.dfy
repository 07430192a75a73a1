/** Three consequences of `expand` (Minesweeper.java lines 221-263) visiting
    flagged cells, each shown on a concrete board, and the evidently intended
    `expand`, which skips flagged cells as well as open ones, with the
    properties the click listener relies on proved for it. The boards are
    smaller than any level builds (8 x 8, 16 x 16, 16 x 30). `expand` and the
    click listener read only `row` and `column`, so the endless recursion of
    `EndlessClick` happens in the same way in a corner of an Easy board. The
    charge per visit to a flagged cell does too, but there how often the cell
    is visited, what `countDown` reaches and whether the game is won depend on
    the rest of the board. */
module Findings {
  import opened Wrappers
  import opened Grid
  import opened Minefield
  import opened Minesweeper
  import opened Expansion
  import opened Play
  import opened Invariant

  /** One row: an empty cell, a cell counting one mine, the mine. The middle
      cell carries a flag; nothing is open yet. */
  function FlaggedNumberBoard(): (g: Game)
    ensures WellFormed(g) && g.isMapCreated && !g.isGameDone && g.boomPosition == -1
  {
    Game(1, 3, 3, 1, 2, -1, [0, 1, -1], true, false,
         [false, false, false], [false, true, false])
  }

  /** The board is a legal position: it satisfies the game invariant. */
  lemma FlaggedNumberBoardInv()
    ensures Inv(FlaggedNumberBoard())
  {
    var g := FlaggedNumberBoard();
    BoardLabelled(g.field);
    BoardCounts(g.field);
    assert SafeHidden(g) == {0, 1};
  }

  lemma BoardLabelled(field: seq<int>)
    requires field == [0, 1, -1]
    ensures MinesLabelled(field, 1)
  {
    assert Mines(field) == {2};
    assert field[2] == -1;
  }

  lemma BoardCounts(field: seq<int>)
    requires field == [0, 1, -1]
    ensures CountsConsistent(3, field)
  {
    assert !Adjacent(3, 0, 2);
    assert MinesAround(3, field, 0) == {};
    assert MinesAround(3, field, 1) == {2};
  }

  /** One row: three empty cells, a cell counting one mine, the mine. The
      second and third cells carry flags. */
  function FlaggedZerosBoard(): (g: Game)
    ensures WellFormed(g) && g.isMapCreated && !g.isGameDone
  {
    Game(1, 5, 5, 1, 4, -1, [0, 0, 0, 1, -1], true, false,
         [false, false, false, false, false], [false, true, true, false, false])
  }

  /** Directions 3 to 7 leave a one-row board from its first cell. */
  lemma {:induction false} FirstCellRestOff(g: Game, k: nat)
    requires WellFormed(g) && g.row == 1 && g.field[0] == 0 && g.isOpen[0] && 3 <= k <= 8
    ensures ExpandFrom(g, 0, k) == Success(g)
    decreases 8 - k
  {
    assert Row(g.column, 0) == 0 && Col(g.column, 0) == 0;
    if k < 8 {
      assert !InDirection(g.row, g.column, 0, 0, k);
      FirstCellRestOff(g, k + 1);
    }
  }

  /** Directions 0 and 1 leave a one-row board from its first cell too. */
  lemma FirstCellUpOff(g: Game)
    requires WellFormed(g) && g.row == 1 && g.column > 1 && g.field[0] == 0 && g.isOpen[0]
    ensures ExpandFrom(g, 0, 0) == ExpandFrom(g, 0, 2)
  {
    assert Row(g.column, 0) == 0 && Col(g.column, 0) == 0;
    assert !InDirection(g.row, g.column, 0, 0, 0);
    assert !InDirection(g.row, g.column, 0, 0, 1);
    assert ExpandFrom(g, 0, 0) == ExpandFrom(g, 0, 1);
  }

  /** Direction 2 from the first cell is the second cell. */
  lemma FirstCellRight(g: Game)
    requires WellFormed(g) && g.row == 1 && g.column > 1 && g.field[0] == 0 && g.isOpen[0]
    ensures Expand(g, 1).Success? ==> ExpandFrom(g, 0, 2) == ExpandFrom(Expand(g, 1).value, 0, 3)
    ensures Expand(g, 1).Failure? ==> ExpandFrom(g, 0, 2) == Expand(g, 1)
  {
    assert Row(g.column, 0) == 0 && Col(g.column, 0) == 0;
    assert InDirection(g.row, g.column, 0, 0, 2);
    assert Neighbour(g.row, g.column, 0, 0, 2) == 1;
  }

  /** `expand` from the empty cell opens it, visits the flagged cell without
      opening it, and decrements `countDown` for both. */
  lemma PrematureExpand()
    ensures Expand(FlaggedNumberBoard(), 0) ==
              Success(Game(1, 3, 3, 1, 0, -1, [0, 1, -1], true, false,
                           [true, false, false], [false, true, false]))
  {
    var g := FlaggedNumberBoard();
    var g0 := Open(g, 0).(countDown := 1);
    var g1 := g0.(countDown := 0);
    assert Expand(g0, 1) == Success(g1);
    FirstCellUpOff(g0);
    FirstCellRight(g0);
    FirstCellRestOff(g1, 3);
    assert Expand(g, 0) == ExpandFrom(g0, 0, 0);
    assert g1.isOpen == [true, false, false];
  }

  /** Clicking the empty cell declares the game won while the flagged safe
      cell is still hidden: `expand` visits it, `open` leaves it closed, and
      `countDown` is decremented for it anyway. */
  lemma PrematureWin()
    ensures Click(FlaggedNumberBoard(), 0, []).Success?
    ensures var r := Click(FlaggedNumberBoard(), 0, []).value;
              r.isGameDone && r.boomPosition == -1 && !r.isOpen[1] && r.field[1] >= 0
    ensures !Inv(Click(FlaggedNumberBoard(), 0, []).value)
  {
    PrematureExpand();
    var w := Game(1, 3, 3, 1, 0, -1, [0, 1, -1], true, true,
                  [true, false, false], [false, true, false]);
    assert Reveal(FlaggedNumberBoard(), 0) == Success(w);
    assert 1 in SafeHidden(w);
  }

  /** Clicking the first empty cell reaches the two touching flagged empty
      cells, which call each other forever: the source overflows its stack. */
  lemma EndlessClick()
    ensures Click(FlaggedZerosBoard(), 0, []) == Failure(EndlessRecursion)
    ensures forall depth: nat :: ExpandSteps(FlaggedZerosBoard(), 0, depth).None?
  {
    var g := FlaggedZerosBoard();
    var g0 := Open(g, 0).(countDown := 3);
    assert FlaggedZero(g0, 2) && Adjacent(5, 1, 2);
    assert Expand(g0, 1) == Failure(EndlessRecursion);
    FirstCellUpOff(g0);
    FirstCellRight(g0);
    assert Expand(g, 0) == ExpandFrom(g0, 0, 0);
    ExpandIsLiteral(g, 0);
  }

  /** One row: three empty cells, a cell counting one mine, the mine. Only
      the second cell carries a flag; `open` is the open-cell row. */
  function TwiceVisitedBoard(open: seq<bool>, countDown: int): (g: Game)
    requires |open| == 5
    ensures WellFormed(g) && g.isMapCreated && !g.isGameDone && g.boomPosition == -1
  {
    Game(1, 5, 5, 1, countDown, -1, [0, 0, 0, 1, -1], true, false,
         open, [false, true, false, false, false])
  }

  /** Before the click nothing is open and four safe cells are to be found. */
  function TwiceVisitedStart(): Game {
    TwiceVisitedBoard([false, false, false, false, false], 4)
  }

  lemma TwiceVisitedInv()
    ensures Inv(TwiceVisitedStart())
  {
    var g := TwiceVisitedStart();
    TwiceVisitedLabelled(g.field);
    TwiceVisitedCounts(g.field);
    TwiceVisitedSafe(g);
  }

  lemma TwiceVisitedSafe(g: Game)
    requires g.isOpen == [false, false, false, false, false] && g.field == [0, 0, 0, 1, -1]
    ensures |SafeHidden(g)| == 4
  {
    assert SafeHidden(g) == {0, 1, 2, 3};
  }

  lemma TwiceVisitedLabelled(field: seq<int>)
    requires field == [0, 0, 0, 1, -1]
    ensures MinesLabelled(field, 1)
  {
    assert Mines(field) == {4};
    assert field[4] == -1;
  }

  lemma TwiceVisitedCounts(field: seq<int>)
    requires field == [0, 0, 0, 1, -1]
    ensures CountsConsistent(5, field)
  {
    assert forall p :: 0 <= p < 3 ==> !Adjacent(5, p, 4);
    assert MinesAround(5, field, 0) == {};
    assert MinesAround(5, field, 1) == {};
    assert MinesAround(5, field, 2) == {};
    assert MinesAround(5, field, 3) == {4};
  }

  /** On a one-row board the directions that change the row lead off it. */
  lemma RowOff(g: Game, p: nat, k: nat)
    requires WellFormed(g) && g.row == 1 && p < g.size && k < 8 && g.field[p] == 0
    requires g.isOpen[p] || (g.isFlag[p] && !FlaggedZeroAround(g, p))
    requires DeltaRow[k] != 0
    ensures ExpandFrom(g, p, k) == ExpandFrom(g, p, k + 1)
  {
    RowCell(g.column, p);
    assert !InDirection(g.row, g.column, 0, p, k);
  }

  /** From a cell whose neighbours are all open the eight calls change nothing. */
  lemma {:induction false} AllAroundOpen(g: Game, p: nat, k: nat)
    requires WellFormed(g) && p < g.size && k <= 8 && g.field[p] == 0
    requires g.isOpen[p] || (g.isFlag[p] && !FlaggedZeroAround(g, p))
    requires forall q :: 0 <= q < g.size && Adjacent(g.column, p, q) ==> g.isOpen[q]
    ensures ExpandFrom(g, p, k) == Success(g)
    decreases 8 - k
  {
    if k < 8 {
      RowColInside(g.row, g.column, p);
      var r, c := Row(g.column, p), Col(g.column, p);
      if InDirection(g.row, g.column, r, c, k) {
        NeighbourAdjacent(g.row, g.column, r, c, k);
      }
      AllAroundOpen(g, p, k + 1);
    }
  }

  /** On a one-row board a cell's row is 0 and its column is its position. */
  lemma RowCell(column: nat, p: nat)
    requires p < column
    ensures Row(column, p) == 0 && Col(column, p) == p
  {
    PosRowCol(column, 0, p);
    assert Pos(column, 0, p) == p;
  }

  /** On a one-row board a cell's neighbours are the cells just left and right of it. */
  lemma RowAdjacent(column: nat, p: nat, q: nat)
    requires p < column && q < column
    ensures Adjacent(column, p, q) <==> q + 1 == p || p + 1 == q
  {
    RowCell(column, p);
    RowCell(column, q);
  }

  /** A cell of a one-row board whose left and right cells are not hidden
      flagged zero cells has no such cell around it. */
  lemma RowNoFlaggedZero(g: Game, p: nat)
    requires WellFormed(g) && g.row == 1 && p < g.size
    requires p == 0 || !FlaggedZero(g, p - 1)
    requires p + 1 == g.size || !FlaggedZero(g, p + 1)
    ensures !FlaggedZeroAround(g, p)
  {
    forall q | 0 <= q < g.size && Adjacent(g.column, p, q)
      ensures !FlaggedZero(g, q)
    {
      RowAdjacent(g.column, p, q);
    }
  }

  /** One visit of `expand` to a hidden cell that holds no flag and a
      number: it is opened and `countDown` drops. */
  lemma VisitNumber(g: Game, p: nat)
    requires WellFormed(g) && p < g.size && !g.isOpen[p] && !g.isFlag[p] && g.field[p] != 0
    ensures Expand(g, p) == Success(Open(g, p).(countDown := g.countDown - 1))
  {
  }

  /** One visit to a hidden unflagged cell holding 0: it is opened, `countDown`
      drops and the eight calls follow. */
  lemma VisitZero(g: Game, p: nat)
    requires WellFormed(g) && p < g.size && !g.isOpen[p] && !g.isFlag[p] && g.field[p] == 0
    ensures Expand(g, p) == ExpandFrom(Open(g, p).(countDown := g.countDown - 1), p, 0)
  {
  }

  /** On a one-row board direction 2 leads to the right-hand cell. */
  lemma RowRight(g: Game, p: nat)
    requires WellFormed(g) && g.row == 1 && p + 1 < g.size && g.field[p] == 0
    requires g.isOpen[p] || (g.isFlag[p] && !FlaggedZeroAround(g, p))
    ensures Expand(g, p + 1).Success? ==> ExpandFrom(g, p, 2) == ExpandFrom(Expand(g, p + 1).value, p, 3)
  {
    RowCell(g.column, p);
    assert InDirection(g.row, g.column, 0, p, 2);
    assert Neighbour(g.row, g.column, 0, p, 2) == p + 1;
  }

  /** On a one-row board direction 6 leads to the left-hand cell. */
  lemma RowLeft(g: Game, p: nat)
    requires WellFormed(g) && g.row == 1 && 0 < p < g.size && g.field[p] == 0
    requires g.isOpen[p] || (g.isFlag[p] && !FlaggedZeroAround(g, p))
    ensures Expand(g, p - 1).Success? ==> ExpandFrom(g, p, 6) == ExpandFrom(Expand(g, p - 1).value, p, 7)
  {
    RowCell(g.column, p);
    assert InDirection(g.row, g.column, 0, p, 6);
    assert Neighbour(g.row, g.column, 0, p, 6) == p - 1;
  }

  /** The second visit to the flagged cell, from the third cell: it stays
      closed and both its neighbours are open, yet `countDown` drops. */
  lemma TwiceVisitedSecondVisit(c: int)
    ensures Expand(TwiceVisitedBoard([true, false, true, true, false], c), 1) ==
              Success(TwiceVisitedBoard([true, false, true, true, false], c - 1))
  {
    var s3 := TwiceVisitedBoard([true, false, true, true, false], c);
    var s4 := TwiceVisitedBoard([true, false, true, true, false], c - 1);
    RowNoFlaggedZero(s3, 1);
    assert Open(s3, 1) == s3;
    assert Expand(s3, 1) == ExpandFrom(s3.(countDown := c - 1), 1, 0);
    assert s3.(countDown := c - 1) == s4;
    RowNoFlaggedZero(s4, 1);
    forall q | 0 <= q < 5 && Adjacent(5, 1, q) ensures s4.isOpen[q] {
      RowAdjacent(5, 1, q);
    }
    AllAroundOpen(s4, 1, 0);
  }

  /** The 1 to the right of the third cell is opened. */
  lemma TwiceVisitedNumber(c: int)
    ensures Expand(TwiceVisitedBoard([true, false, true, false, false], c), 3) ==
              Success(TwiceVisitedBoard([true, false, true, true, false], c - 1))
  {
    var s2 := TwiceVisitedBoard([true, false, true, false, false], c);
    VisitNumber(s2, 3);
    assert s2.isOpen[3 := true] == [true, false, true, true, false];
  }

  /** From the third cell: right to the 1, which is opened, then left to the
      flagged cell, visited a second time. `c` is `countDown` on arrival. */
  lemma TwiceVisitedThird(c: int)
    ensures ExpandFrom(TwiceVisitedBoard([true, false, true, false, false], c), 2, 0) ==
              Success(TwiceVisitedBoard([true, false, true, true, false], c - 2))
  {
    var s2 := TwiceVisitedBoard([true, false, true, false, false], c);
    var s3 := TwiceVisitedBoard([true, false, true, true, false], c - 1);
    var s4 := TwiceVisitedBoard([true, false, true, true, false], c - 2);
    RowOff(s2, 2, 0);
    RowOff(s2, 2, 1);
    TwiceVisitedNumber(c);
    RowRight(s2, 2);
    RowOff(s3, 2, 3);
    RowOff(s3, 2, 4);
    RowOff(s3, 2, 5);
    TwiceVisitedSecondVisit(c - 1);
    RowLeft(s3, 2);
    RowOff(s4, 2, 7);
  }

  /** The third cell, first reached from the flagged cell, is opened. */
  lemma TwiceVisitedOpenThird(c: int)
    ensures Expand(TwiceVisitedBoard([true, false, false, false, false], c), 2) ==
              Success(TwiceVisitedBoard([true, false, true, true, false], c - 3))
  {
    var s1 := TwiceVisitedBoard([true, false, false, false, false], c);
    VisitZero(s1, 2);
    assert Open(s1, 2).(countDown := c - 1) == TwiceVisitedBoard([true, false, true, false, false], c - 1) by {
      assert s1.isOpen[2 := true] == [true, false, true, false, false];
    }
    TwiceVisitedThird(c - 1);
  }

  /** From the flagged cell, visited first from cell 0: right to the third
      cell, whose expansion opens everything left to open. */
  lemma TwiceVisitedFlag(c: int)
    ensures !FlaggedZeroAround(TwiceVisitedBoard([true, false, false, false, false], c), 1)
    ensures ExpandFrom(TwiceVisitedBoard([true, false, false, false, false], c), 1, 0) ==
              Success(TwiceVisitedBoard([true, false, true, true, false], c - 3))
  {
    var s1 := TwiceVisitedBoard([true, false, false, false, false], c);
    var s4 := TwiceVisitedBoard([true, false, true, true, false], c - 3);
    RowNoFlaggedZero(s1, 1);
    RowOff(s1, 1, 0);
    RowOff(s1, 1, 1);
    TwiceVisitedOpenThird(c);
    RowRight(s1, 1);
    RowNoFlaggedZero(s4, 1);
    forall q | 0 <= q < 5 && Adjacent(5, 1, q) ensures s4.isOpen[q] {
      RowAdjacent(5, 1, q);
    }
    AllAroundOpen(s4, 1, 3);
  }

  /** The first visit to the flagged cell, from cell 0. */
  lemma TwiceVisitedFirstVisit(c: int)
    ensures Expand(TwiceVisitedBoard([true, false, false, false, false], c), 1) ==
              Success(TwiceVisitedBoard([true, false, true, true, false], c - 4))
  {
    var s0 := TwiceVisitedBoard([true, false, false, false, false], c);
    TwiceVisitedFlag(c - 1);
    RowNoFlaggedZero(s0, 1);
    assert Open(s0, 1) == s0;
    assert Expand(s0, 1) == ExpandFrom(s0.(countDown := c - 1), 1, 0);
    assert s0.(countDown := c - 1) == TwiceVisitedBoard([true, false, false, false, false], c - 1);
  }

  /** `expand` from the first cell takes `countDown` down by five while
      opening three cells: the flagged cell is visited from both of its empty
      neighbours, decremented for each visit, and stays closed. */
  lemma TwiceVisitedExpand(c: int)
    ensures Expand(TwiceVisitedBoard([false, false, false, false, false], c), 0) ==
              Success(TwiceVisitedBoard([true, false, true, true, false], c - 5))
  {
    var g := TwiceVisitedBoard([false, false, false, false, false], c);
    VisitZero(g, 0);
    assert Open(g, 0).(countDown := c - 1) == TwiceVisitedBoard([true, false, false, false, false], c - 1) by {
      assert g.isOpen[0 := true] == [true, false, false, false, false];
    }
    TwiceVisitedFromFirst(c - 1);
  }

  /** The eight calls from the opened first cell: only direction 2, to the
      flagged cell, stays on the board. */
  lemma TwiceVisitedFromFirst(c: int)
    ensures ExpandFrom(TwiceVisitedBoard([true, false, false, false, false], c), 0, 0) ==
              Success(TwiceVisitedBoard([true, false, true, true, false], c - 4))
  {
    var s0 := TwiceVisitedBoard([true, false, false, false, false], c);
    FirstCellUpOff(s0);
    TwiceVisitedFirstVisit(c);
    FirstCellRight(s0);
    FirstCellRestOff(TwiceVisitedBoard([true, false, true, true, false], c - 4), 3);
  }

  /** When the board with one flag is legal (by `TwiceVisitedInvIff`,
      exactly when `countDown` is 4), a click on the first cell leaves
      `countDown` at -1 with a safe cell hidden: the invariant is broken and,
      as `NegativeCountNeverWins` shows, the game can no longer be won. */
  lemma CountDownBelowZero(c: int)
    ensures Inv(TwiceVisitedBoard([false, false, false, false, false], c)) ==>
              && Click(TwiceVisitedBoard([false, false, false, false, false], c), 0, []) ==
                   Success(TwiceVisitedBoard([true, false, true, true, false], -1))
              && !Inv(TwiceVisitedBoard([true, false, true, true, false], -1))
  {
    TwiceVisitedInvIff(c);
    if c == 4 {
      TwiceVisitedExpand(c);
    }
  }

  /** The start board is legal exactly when `countDown` is 4. */
  lemma TwiceVisitedInvIff(c: int)
    ensures Inv(TwiceVisitedBoard([false, false, false, false, false], c)) <==> c == 4
  {
    var g := TwiceVisitedBoard([false, false, false, false, false], c);
    TwiceVisitedSafe(g);
    if c == 4 {
      TwiceVisitedInv();
      assert g == TwiceVisitedStart();
    }
  }

  /** Once `countDown` is below 0 no click wins: `countDown` never rises, so
      a finished game is a lost one, lost at the clicked cell. */
  lemma NegativeCountNeverWins(g: Game, position: nat, draws: seq<nat>)
    requires WellFormed(g) && g.isMapCreated && position < g.size && DrawsInside(g, draws)
    requires g.countDown < 0 && !g.isGameDone && g.boomPosition == -1
    ensures Click(g, position, draws).Success? ==>
              && Click(g, position, draws).value.countDown < 0
              && (Click(g, position, draws).value.isGameDone ==>
                    Click(g, position, draws).value.boomPosition == position as int)
  {
    if !g.isOpen[position] && !g.isFlag[position] && g.field[position] >= 0 {
      ExpandCountBound(g, position);
      if Expand(g, position).Success? {
        var g1 := Expand(g, position).value;
        assert Hidden(g1) <= Hidden(g);
        SubsetCard(Hidden(g1), Hidden(g));
      }
    }
  }

  /** `expand` as evidently intended: a flagged cell is skipped like an open
      one. It always returns and never opens a flagged cell;
      `GuardedExact` and `GuardedSafe` state what it costs and what it
      opens. */
  function ExpandGuarded(g: Game, p: nat): (r: Game)
    requires WellFormed(g) && p < g.size
    ensures Grows(g, r)
    ensures !g.isFlag[p] ==> r.isOpen[p]
    decreases Hidden(g), 1, 0
  {
    if g.isOpen[p] || g.isFlag[p] then g
    else
      var g0 := Open(g, p).(countDown := g.countDown - 1);
      OpenStep(g, p);
      assert Hidden(g0) == Hidden(g) - {p};
      if g.field[p] != 0 then g0 else ExpandGuardedFrom(g0, p, 0)
  }

  /** The eight guarded calls from an open cell holding 0, from direction k on. */
  function ExpandGuardedFrom(g: Game, p: nat, k: nat): (r: Game)
    requires WellFormed(g) && p < g.size && k <= 8
    requires g.isOpen[p] && g.field[p] == 0
    ensures Grows(g, r)
    decreases Hidden(g) + {p}, 0, 8 - k
  {
    if k == 8 then g
    else
      RowColInside(g.row, g.column, p);
      var r, c := Row(g.column, p), Col(g.column, p);
      var g1 :=
        if InDirection(g.row, g.column, r, c, k) then
          NeighbourAdjacent(g.row, g.column, r, c, k);
          ExpandGuarded(g, Neighbour(g.row, g.column, r, c, k))
        else g;
      ExpandGuardedFrom(g1, p, k + 1)
  }

  /** The guarded `expand` decrements `countDown` exactly once per cell it
      opens, whatever the flags. */
  lemma {:induction false} GuardedExact(g: Game, p: nat)
    requires WellFormed(g) && p < g.size
    ensures g.countDown - ExpandGuarded(g, p).countDown == |Hidden(g)| - |Hidden(ExpandGuarded(g, p))|
    decreases Hidden(g), 1, 0
  {
    if !g.isOpen[p] && !g.isFlag[p] {
      var g0 := Open(g, p).(countDown := g.countDown - 1);
      OpenStep(g, p);
      assert Hidden(g0) == Hidden(g) - {p};
      if g.field[p] == 0 {
        GuardedFromExact(g0, p, 0);
      }
    }
  }

  lemma {:induction false} GuardedFromExact(g: Game, p: nat, k: nat)
    requires WellFormed(g) && p < g.size && k <= 8
    requires g.isOpen[p] && g.field[p] == 0
    ensures g.countDown - ExpandGuardedFrom(g, p, k).countDown == |Hidden(g)| - |Hidden(ExpandGuardedFrom(g, p, k))|
    decreases Hidden(g) + {p}, 0, 8 - k
  {
    if k < 8 {
      RowColInside(g.row, g.column, p);
      var r, c := Row(g.column, p), Col(g.column, p);
      if InDirection(g.row, g.column, r, c, k) {
        NeighbourAdjacent(g.row, g.column, r, c, k);
        var nb := Neighbour(g.row, g.column, r, c, k);
        GuardedExact(g, nb);
        var g1 := ExpandGuarded(g, nb);
        GuardedFromExact(g1, p, k + 1);
        assert ExpandGuardedFrom(g, p, k) == ExpandGuardedFrom(g1, p, k + 1);
      } else {
        GuardedFromExact(g, p, k + 1);
      }
    }
  }

  /** From a safe cell of a consistent map the guarded `expand` opens only
      safe cells: it goes on only from cells holding 0, whose neighbours
      hold no mine. */
  lemma {:induction false} GuardedSafe(g: Game, p: nat)
    requires WellFormed(g) && p < g.size && CountsConsistent(g.column, g.field) && g.field[p] >= 0
    ensures forall q :: 0 <= q < g.size && NewlyOpened(g, ExpandGuarded(g, p), q) ==> g.field[q] >= 0
    decreases Hidden(g), 1, 0
  {
    if !g.isOpen[p] && !g.isFlag[p] && g.field[p] == 0 {
      var g0 := Open(g, p).(countDown := g.countDown - 1);
      OpenStep(g, p);
      assert Hidden(g0) == Hidden(g) - {p};
      GuardedFromSafe(g0, p, 0);
      assert forall q :: 0 <= q < g.size && NewlyOpened(g, ExpandGuarded(g, p), q) ==>
        q == p || NewlyOpened(g0, ExpandGuarded(g, p), q);
    }
  }

  lemma {:induction false} GuardedFromSafe(g: Game, p: nat, k: nat)
    requires WellFormed(g) && p < g.size && k <= 8 && CountsConsistent(g.column, g.field)
    requires g.isOpen[p] && g.field[p] == 0
    ensures forall q :: 0 <= q < g.size && NewlyOpened(g, ExpandGuardedFrom(g, p, k), q) ==> g.field[q] >= 0
    decreases Hidden(g) + {p}, 0, 8 - k
  {
    if k < 8 {
      RowColInside(g.row, g.column, p);
      var r, c := Row(g.column, p), Col(g.column, p);
      if InDirection(g.row, g.column, r, c, k) {
        NeighbourAdjacent(g.row, g.column, r, c, k);
        ZeroHasNoMineAround(g.column, g.field, p);
        var nb := Neighbour(g.row, g.column, r, c, k);
        GuardedSafe(g, nb);
        var g1 := ExpandGuarded(g, nb);
        GuardedFromSafe(g1, p, k + 1);
        var g2 := ExpandGuardedFrom(g1, p, k + 1);
        assert ExpandGuardedFrom(g, p, k) == g2;
        assert forall q :: 0 <= q < g.size && NewlyOpened(g, g2, q) ==>
          NewlyOpened(g, g1, q) || NewlyOpened(g1, g2, q);
      } else {
        GuardedFromSafe(g, p, k + 1);
      }
    }
  }

  /** When no flag touches a hidden zero cell the source's `expand` already
      does what the guarded one does. */
  lemma {:induction false} GuardedAgrees(g: Game, p: nat)
    requires WellFormed(g) && p < g.size
    requires FlagsClear(g) && !g.isFlag[p]
    ensures Expand(g, p) == Success(ExpandGuarded(g, p))
    decreases Hidden(g), 1, 1
  {
    if !g.isOpen[p] && g.field[p] == 0 {
      GuardedAgreesZero(g, p);
    }
  }

  lemma {:induction false} GuardedAgreesZero(g: Game, p: nat)
    requires WellFormed(g) && p < g.size
    requires FlagsClear(g) && !g.isFlag[p] && !g.isOpen[p] && g.field[p] == 0
    ensures Expand(g, p) == Success(ExpandGuarded(g, p))
    decreases Hidden(g), 1, 0
  {
    var g0 := Open(g, p).(countDown := g.countDown - 1);
    OpenStep(g, p);
    assert NoFlagAround(g0, p);
    FlagsClearGrows(g, g0);
    GuardedFromAgrees(g0, p, 0);
  }

  lemma {:induction false} GuardedFromAgrees(g: Game, p: nat, k: nat)
    requires WellFormed(g) && p < g.size && k <= 8
    requires g.isOpen[p] && g.field[p] == 0
    requires FlagsClear(g) && NoFlagAround(g, p)
    ensures ExpandFrom(g, p, k) == Success(ExpandGuardedFrom(g, p, k))
    decreases Hidden(g) + {p}, 0, 8 - k
  {
    if k < 8 {
      RowColInside(g.row, g.column, p);
      var r, c := Row(g.column, p), Col(g.column, p);
      if InDirection(g.row, g.column, r, c, k) {
        NeighbourAdjacent(g.row, g.column, r, c, k);
        var nb := Neighbour(g.row, g.column, r, c, k);
        GuardedAgrees(g, nb);
        var g1 := ExpandGuarded(g, nb);
        FlagsClearGrows(g, g1);
        assert NoFlagAround(g1, p);
        GuardedFromAgrees(g1, p, k + 1);
        assert ExpandFrom(g, p, k) == ExpandFrom(g1, p, k + 1);
      } else {
        GuardedFromAgrees(g, p, k + 1);
      }
    }
  }

  /** The click listener with the guarded `expand`. */
  function RevealGuarded(g: Game, position: nat): (r: Game)
    requires WellFormed(g) && position < g.size
    ensures WellFormed(r) && r.isFlag == g.isFlag && r.field == g.field
    ensures g.isGameDone || g.isOpen[position] || g.isFlag[position] ==> r == g
    ensures !g.isGameDone && !g.isOpen[position] && !g.isFlag[position] && g.field[position] >= 0 ==>
              r.isOpen[position] && (r.isGameDone <==> r.countDown == 0)
  {
    if g.isGameDone || g.isOpen[position] || g.isFlag[position] then g
    else if g.field[position] < 0 then GameOver(g.(boomPosition := position))
    else
      var g1 := ExpandGuarded(g, position);
      if g1.countDown == 0 then g1.(isGameDone := true) else g1
  }

  /** With the guard, every click on a laid map keeps the invariant, whatever
      the flags: a win is declared exactly when every safe cell is open. */
  lemma RevealGuardedInv(g: Game, position: nat)
    requires Inv(g) && g.isMapCreated && position < g.size
    ensures Inv(RevealGuarded(g, position))
  {
    if !g.isGameDone && !g.isOpen[position] && !g.isFlag[position] {
      if g.field[position] < 0 {
        GameOverInv(g, position);
        assert RevealGuarded(g, position) == Reveal(g, position).value;
      } else {
        ExpandGuardedInv(g, position);
      }
    }
  }

  lemma ExpandGuardedInv(g: Game, position: nat)
    requires Inv(g) && g.isMapCreated && position < g.size
    requires !g.isGameDone && !g.isOpen[position] && !g.isFlag[position] && g.field[position] >= 0
    ensures Inv(RevealGuarded(g, position))
  {
    GuardedExact(g, position);
    GuardedSafe(g, position);
    SafeRevealInv(g, ExpandGuarded(g, position));
  }

  /** With the guard, a flag on a safe cell keeps the game running: the
      cell stays hidden, so a safe cell is still to be opened. */
  lemma GuardedFlagBlocksWin(g: Game, position: nat, q: nat)
    requires Inv(g) && g.isMapCreated && position < g.size && q < g.size
    requires !g.isGameDone && g.field[position] >= 0 && g.isFlag[q] && g.field[q] >= 0
    ensures !RevealGuarded(g, position).isGameDone
  {
    RevealGuardedInv(g, position);
    assert q in SafeHidden(RevealGuarded(g, position));
  }
}
