/** The recursive reveal `expand` (Minesweeper.java lines 221-263).

    The source guards the recursion with `isOpen` alone, while `open`
    returns early on a flagged cell without opening it. So a flagged cell
    reached from a zero cell is visited anyway: `countDown` is decremented and,
    when the cell holds 0, the recursion continues from it. A visit never
    opens the flagged cell, so two touching hidden flagged zero cells call each
    other forever. `Expand` follows the source step by step and reports
    `EndlessRecursion` at the first visit of a hidden flagged zero cell that
    has a hidden flagged zero neighbour; `ExpandSteps` is the literal
    recursion with a call-depth budget, and the lemmas at the end connect the
    two. */
module Expansion {
  import opened Wrappers
  import opened Grid
  import opened Minefield
  import opened Minesweeper

  /** A hidden flagged cell holding 0. */
  predicate FlaggedZero(g: Game, q: nat) {
    q < |g.isOpen| && q < |g.isFlag| && q < |g.field| &&
    g.isFlag[q] && !g.isOpen[q] && g.field[q] == 0
  }

  predicate FlaggedZeroAround(g: Game, p: nat)
    requires WellFormed(g)
  {
    exists q :: 0 <= q < g.size && Adjacent(g.column, p, q) && FlaggedZero(g, q)
  }

  /** Second component of the termination measure: with the set of hidden
      cells unchanged, the recursion only goes from a hidden flagged zero cell
      (rank 2) to a cell of lower rank. */
  function Rank(g: Game, q: nat): nat {
    if q < |g.isOpen| && q < |g.isFlag| && q < |g.field| && !g.isOpen[q] then
      if !g.isFlag[q] then 1 else if g.field[q] == 0 then 2 else 0
    else 0
  }

  /** g' differs from g only in `isOpen` and `countDown`, no open cell is
      closed, and no flagged cell changes. */
  predicate Grows(g: Game, g': Game) {
    && g'.(isOpen := g.isOpen, countDown := g.countDown) == g
    && |g'.isOpen| == |g.isOpen|
    && (forall q :: 0 <= q < |g.isOpen| && g.isOpen[q] ==> g'.isOpen[q])
    && (forall q :: 0 <= q < |g.isOpen| && q < |g.isFlag| && g.isFlag[q] ==> g'.isOpen[q] == g.isOpen[q])
  }

  predicate OpenOrFlagged(g: Game, q: nat) {
    q < |g.isOpen| && q < |g.isFlag| && (g.isOpen[q] || g.isFlag[q])
  }

  /** Every in-bounds neighbour of z is open or flagged. */
  predicate Surrounded(g: Game, z: nat)
    requires WellFormed(g)
  {
    forall q :: 0 <= q < g.size && Adjacent(g.column, z, q) ==> OpenOrFlagged(g, q)
  }

  predicate NoFlagAround(g: Game, z: nat)
    requires WellFormed(g)
  {
    forall q :: 0 <= q < g.size && Adjacent(g.column, z, q) ==> !g.isFlag[q]
  }

  /** No flagged cell touches a hidden, unflagged cell that holds 0. Under this
      condition `expand` never reaches a flagged cell. */
  predicate FlagsClear(g: Game)
    requires WellFormed(g)
  {
    forall z :: 0 <= z < g.size && !g.isOpen[z] && !g.isFlag[z] && g.field[z] == 0 ==> NoFlagAround(g, z)
  }

  predicate NewlyOpened(g: Game, g': Game, q: nat) {
    q < |g.isOpen| && q < |g'.isOpen| && !g.isOpen[q] && g'.isOpen[q]
  }

  /** `expand(position)`, i.e. `expand(position / column, position % column)`. */
  function Expand(g: Game, p: nat): (res: Result<Game, Fault>)
    requires WellFormed(g) && p < g.size
    ensures res.Success? ==> Grows(g, res.value)
    ensures g.isOpen[p] ==> res == Success(g)
    ensures res.Success? && !g.isFlag[p] ==> res.value.isOpen[p]
    decreases Hidden(g), Rank(g, p), 1, 0
  {
    if g.isOpen[p] then Success(g)
    else if g.isFlag[p] && g.field[p] == 0 && FlaggedZeroAround(g, p) then Failure(EndlessRecursion)
    else
      var g0 := Open(g, p).(countDown := g.countDown - 1);
      OpenStep(g, p);
      if g.field[p] != 0 then Success(g0) else ExpandFrom(g0, p, 0)
  }

  /** The eight recursive calls of `expand(r, c)` on a zero cell, from
      direction k on. */
  function ExpandFrom(g: Game, p: nat, k: nat): (res: Result<Game, Fault>)
    requires WellFormed(g) && p < g.size && k <= 8 && g.field[p] == 0
    requires g.isOpen[p] || (g.isFlag[p] && !FlaggedZeroAround(g, p))
    ensures res.Success? ==> Grows(g, res.value)
    decreases Hidden(g) + {p}, Rank(g, p), 0, 8 - k
  {
    if k == 8 then Success(g)
    else
      RowColInside(g.row, g.column, p);
      var r, c := Row(g.column, p), Col(g.column, p);
      var g1 :-
        if InDirection(g.row, g.column, r, c, k) then
          NeighbourAdjacent(g.row, g.column, r, c, k);
          Expand(g, Neighbour(g.row, g.column, r, c, k))
        else Success(g);
      ExpandFrom(g1, p, k + 1)
  }

  /** The only way `expand` fails to return is the endless recursion. */
  lemma {:induction false} ExpandFault(g: Game, p: nat)
    requires WellFormed(g) && p < g.size
    ensures Expand(g, p).Failure? ==> Expand(g, p).error == EndlessRecursion
    decreases Hidden(g), Rank(g, p), 1, 0
  {
    if !g.isOpen[p] && !(g.isFlag[p] && g.field[p] == 0 && FlaggedZeroAround(g, p)) && g.field[p] == 0 {
      OpenStep(g, p);
      ExpandFromFault(Open(g, p).(countDown := g.countDown - 1), p, 0);
    }
  }

  lemma {:induction false} ExpandFromFault(g: Game, p: nat, k: nat)
    requires WellFormed(g) && p < g.size && k <= 8 && g.field[p] == 0
    requires g.isOpen[p] || (g.isFlag[p] && !FlaggedZeroAround(g, p))
    ensures ExpandFrom(g, p, k).Failure? ==> ExpandFrom(g, p, k).error == EndlessRecursion
    decreases Hidden(g) + {p}, Rank(g, p), 0, 8 - k
  {
    if k < 8 {
      RowColInside(g.row, g.column, p);
      var r, c := Row(g.column, p), Col(g.column, p);
      if InDirection(g.row, g.column, r, c, k) {
        NeighbourAdjacent(g.row, g.column, r, c, k);
        var nb := Neighbour(g.row, g.column, r, c, k);
        ExpandFault(g, nb);
        if Expand(g, nb).Success? {
          ExpandFromFault(Expand(g, nb).value, p, k + 1);
        }
      } else {
        ExpandFromFault(g, p, k + 1);
      }
    }
  }

  /** `countDown` drops by at least the number of cells `expand` opens: by
      one per visit, and a flagged cell can be visited more than once. */
  lemma {:induction false} ExpandCountBound(g: Game, p: nat)
    requires WellFormed(g) && p < g.size
    ensures Expand(g, p).Success? ==>
              g.countDown - Expand(g, p).value.countDown >= |Hidden(g)| - |Hidden(Expand(g, p).value)|
    decreases Hidden(g), Rank(g, p), 1, 0
  {
    if !g.isOpen[p] && !(g.isFlag[p] && g.field[p] == 0 && FlaggedZeroAround(g, p)) {
      var g0 := Open(g, p).(countDown := g.countDown - 1);
      OpenStep(g, p);
      assert |Hidden(g0)| >= |Hidden(g)| - 1;
      if g.field[p] == 0 {
        ExpandFromCountBound(g0, p, 0);
      }
    }
  }

  lemma {:induction false} ExpandFromCountBound(g: Game, p: nat, k: nat)
    requires WellFormed(g) && p < g.size && k <= 8 && g.field[p] == 0
    requires g.isOpen[p] || (g.isFlag[p] && !FlaggedZeroAround(g, p))
    ensures ExpandFrom(g, p, k).Success? ==>
              g.countDown - ExpandFrom(g, p, k).value.countDown >= |Hidden(g)| - |Hidden(ExpandFrom(g, p, k).value)|
    decreases Hidden(g) + {p}, Rank(g, p), 0, 8 - k
  {
    if k < 8 {
      RowColInside(g.row, g.column, p);
      var r, c := Row(g.column, p), Col(g.column, p);
      if InDirection(g.row, g.column, r, c, k) {
        NeighbourAdjacent(g.row, g.column, r, c, k);
        var nb := Neighbour(g.row, g.column, r, c, k);
        ExpandCountBound(g, nb);
        var first := Expand(g, nb);
        if first.Success? {
          var g1 := first.value;
          ExpandFromCountBound(g1, p, k + 1);
          assert ExpandFrom(g, p, k) == ExpandFrom(g1, p, k + 1);
        }
      } else {
        ExpandFromCountBound(g, p, k + 1);
      }
    }
  }

  /** What the first two statements of `expand(r, c)` do to a hidden cell. */
  lemma OpenStep(g: Game, p: nat)
    requires WellFormed(g) && p < g.size && !g.isOpen[p]
    ensures Grows(g, Open(g, p).(countDown := g.countDown - 1))
    ensures Hidden(Open(g, p)) == if g.isFlag[p] then Hidden(g) else Hidden(g) - {p}
    ensures Hidden(Open(g, p)) + {p} == Hidden(g)
  {
    var g0 := Open(g, p);
    assert Hidden(g0) == if g.isFlag[p] then Hidden(g) else Hidden(g) - {p};
  }

  /** Surrounded, stated with the source's eight directions. */
  lemma DirectionsSurround(g: Game, p: nat)
    requires WellFormed(g) && p < g.size
    requires forall j :: 0 <= j < 8 && InDirection(g.row, g.column, Row(g.column, p), Col(g.column, p), j) ==>
               OpenOrFlagged(g, Neighbour(g.row, g.column, Row(g.column, p), Col(g.column, p), j))
    ensures Surrounded(g, p)
  {
    RowColInside(g.row, g.column, p);
    var r, c := Row(g.column, p), Col(g.column, p);
    forall q | 0 <= q < g.size && Adjacent(g.column, p, q)
      ensures OpenOrFlagged(g, q)
    {
      var k := AdjacentDirection(g.row, g.column, r, c, q);
    }
  }

  lemma SurroundedGrows(g: Game, g': Game, z: nat)
    requires WellFormed(g) && Grows(g, g') && Surrounded(g, z)
    ensures WellFormed(g') && Surrounded(g', z)
  {
  }

  /** Closure: when `expand` returns, every cell it opened that holds 0 has
      all its in-bounds neighbours open or flagged. */
  lemma {:induction false} ExpandSurrounds(g: Game, p: nat)
    requires WellFormed(g) && p < g.size
    ensures Expand(g, p).Success? ==>
              forall z :: 0 <= z < g.size && NewlyOpened(g, Expand(g, p).value, z) && g.field[z] == 0 ==>
                Surrounded(Expand(g, p).value, z)
    decreases Hidden(g), Rank(g, p), 1, 0
  {
    if !g.isOpen[p] && !(g.isFlag[p] && FlaggedZeroAround(g, p)) && g.field[p] == 0 {
      var g0 := Open(g, p).(countDown := g.countDown - 1);
      OpenStep(g, p);
      ExpandFromSurrounds(g0, p, 0);
      ExpandFromVisits(g0, p, 0);
      var res := ExpandFrom(g0, p, 0);
      assert Expand(g, p) == res;
      if res.Success? && !g.isFlag[p] {
        DirectionsSurround(res.value, p);
      }
    }
  }

  lemma {:induction false} ExpandFromSurrounds(g: Game, p: nat, k: nat)
    requires WellFormed(g) && p < g.size && k <= 8 && g.field[p] == 0
    requires g.isOpen[p] || (g.isFlag[p] && !FlaggedZeroAround(g, p))
    ensures ExpandFrom(g, p, k).Success? ==>
              forall z :: 0 <= z < g.size && NewlyOpened(g, ExpandFrom(g, p, k).value, z) && g.field[z] == 0 ==>
                Surrounded(ExpandFrom(g, p, k).value, z)
    decreases Hidden(g) + {p}, Rank(g, p), 0, 8 - k
  {
    if k < 8 {
      RowColInside(g.row, g.column, p);
      var r, c := Row(g.column, p), Col(g.column, p);
      if InDirection(g.row, g.column, r, c, k) {
        NeighbourAdjacent(g.row, g.column, r, c, k);
        var nb := Neighbour(g.row, g.column, r, c, k);
        ExpandSurrounds(g, nb);
        var first := Expand(g, nb);
        if first.Success? {
          var g1 := first.value;
          ExpandFromSurrounds(g1, p, k + 1);
          var res := ExpandFrom(g1, p, k + 1);
          assert ExpandFrom(g, p, k) == res;
          if res.Success? {
            forall z | 0 <= z < g.size && NewlyOpened(g, res.value, z) && g.field[z] == 0
              ensures Surrounded(res.value, z)
            {
              if NewlyOpened(g, g1, z) {
                SurroundedGrows(g1, res.value, z);
              } else {
                assert NewlyOpened(g1, res.value, z);
              }
            }
          }
        }
      } else {
        ExpandFromSurrounds(g, p, k + 1);
      }
    }
  }

  /** `ExpandFrom` leaves each neighbour it visits open or flagged. */
  lemma {:induction false} ExpandFromVisits(g: Game, p: nat, k: nat)
    requires WellFormed(g) && p < g.size && k <= 8 && g.field[p] == 0
    requires g.isOpen[p] || (g.isFlag[p] && !FlaggedZeroAround(g, p))
    ensures ExpandFrom(g, p, k).Success? ==>
              forall j :: k <= j < 8 && InDirection(g.row, g.column, Row(g.column, p), Col(g.column, p), j) ==>
                OpenOrFlagged(ExpandFrom(g, p, k).value,
                              Neighbour(g.row, g.column, Row(g.column, p), Col(g.column, p), j))
    decreases 8 - k
  {
    if k < 8 {
      RowColInside(g.row, g.column, p);
      var r, c := Row(g.column, p), Col(g.column, p);
      if InDirection(g.row, g.column, r, c, k) {
        NeighbourAdjacent(g.row, g.column, r, c, k);
        var nb := Neighbour(g.row, g.column, r, c, k);
        var first := Expand(g, nb);
        if first.Success? {
          var g1 := first.value;
          assert OpenOrFlagged(g1, nb);
          ExpandFromVisits(g1, p, k + 1);
          var res := ExpandFrom(g1, p, k + 1);
          assert ExpandFrom(g, p, k) == res;
          if res.Success? {
            forall j | k <= j < 8 && InDirection(g.row, g.column, r, c, j)
              ensures OpenOrFlagged(res.value, Neighbour(g.row, g.column, r, c, j))
            {
              if j == k {
                assert OpenOrFlagged(res.value, nb);
              }
            }
          }
        }
      } else {
        ExpandFromVisits(g, p, k + 1);
      }
    }
  }

  lemma FlagsClearGrows(g: Game, g': Game)
    requires WellFormed(g) && Grows(g, g') && FlagsClear(g)
    ensures WellFormed(g') && FlagsClear(g')
  {
  }

  /** With no flagged cell beside a hidden zero cell, `expand` from an
      unflagged cell returns, and `countDown` drops by exactly the number of
      cells it opened. */
  lemma {:induction false} ExpandExact(g: Game, p: nat)
    requires WellFormed(g) && p < g.size && FlagsClear(g) && !g.isFlag[p]
    ensures Expand(g, p).Success?
    ensures g.countDown - Expand(g, p).value.countDown == |Hidden(g)| - |Hidden(Expand(g, p).value)|
    decreases Hidden(g), Rank(g, p), 1, 0
  {
    if !g.isOpen[p] {
      var g0 := Open(g, p).(countDown := g.countDown - 1);
      OpenStep(g, p);
      if g.field[p] == 0 {
        assert NoFlagAround(g0, p);
        FlagsClearGrows(g, g0);
        ExpandFromExact(g0, p, 0);
      }
    }
  }

  lemma {:induction false} ExpandFromExact(g: Game, p: nat, k: nat)
    requires WellFormed(g) && p < g.size && k <= 8 && g.field[p] == 0
    requires g.isOpen[p] || (g.isFlag[p] && !FlaggedZeroAround(g, p))
    requires FlagsClear(g) && NoFlagAround(g, p)
    ensures ExpandFrom(g, p, k).Success?
    ensures g.countDown - ExpandFrom(g, p, k).value.countDown == |Hidden(g)| - |Hidden(ExpandFrom(g, p, k).value)|
    decreases Hidden(g) + {p}, Rank(g, p), 0, 8 - k
  {
    if k < 8 {
      RowColInside(g.row, g.column, p);
      var r, c := Row(g.column, p), Col(g.column, p);
      if InDirection(g.row, g.column, r, c, k) {
        NeighbourAdjacent(g.row, g.column, r, c, k);
        var nb := Neighbour(g.row, g.column, r, c, k);
        ExpandExact(g, nb);
        var g1 := Expand(g, nb).value;
        FlagsClearGrows(g, g1);
        assert NoFlagAround(g1, p);
        ExpandFromExact(g1, p, k + 1);
        assert ExpandFrom(g, p, k) == ExpandFrom(g1, p, k + 1);
      } else {
        ExpandFromExact(g, p, k + 1);
      }
    }
  }

  /** Cell q touches a cell holding 0 that the expansion from g to g' opened,
      or a cell holding 0 that is hidden and flagged in g. The second case
      does not say that `expand` visited that cell. */
  predicate ReachedFromZero(g: Game, g': Game, q: nat)
    requires WellFormed(g)
  {
    exists z :: 0 <= z < g.size && Adjacent(g.column, z, q) && g.field[z] == 0 &&
      (NewlyOpened(g, g', z) || FlaggedZero(g, z))
  }

  lemma ReachedWidens(g: Game, g1: Game, g2: Game, q: nat)
    requires WellFormed(g) && Grows(g, g1) && Grows(g1, g2)
    ensures ReachedFromZero(g, g1, q) ==> ReachedFromZero(g, g2, q)
    ensures ReachedFromZero(g1, g2, q) ==> ReachedFromZero(g, g2, q)
  {
    if ReachedFromZero(g, g1, q) {
      var z :| 0 <= z < g.size && Adjacent(g.column, z, q) && g.field[z] == 0 &&
        (NewlyOpened(g, g1, z) || FlaggedZero(g, z));
      assert NewlyOpened(g, g2, z) || FlaggedZero(g, z);
    }
    if ReachedFromZero(g1, g2, q) {
      var z :| 0 <= z < g1.size && Adjacent(g1.column, z, q) && g1.field[z] == 0 &&
        (NewlyOpened(g1, g2, z) || FlaggedZero(g1, z));
      assert NewlyOpened(g, g2, z) || FlaggedZero(g, z);
    }
  }

  /** The recursion goes only from cells holding 0 to their in-bounds
      neighbours: every cell `expand` opens besides the clicked one touches
      a zero cell it opened or a hidden flagged zero cell. */
  lemma {:induction false} ExpandReach(g: Game, p: nat)
    requires WellFormed(g) && p < g.size
    ensures Expand(g, p).Success? ==>
              forall q :: 0 <= q < g.size && q != p && NewlyOpened(g, Expand(g, p).value, q) ==>
                ReachedFromZero(g, Expand(g, p).value, q)
    decreases Hidden(g), Rank(g, p), 1, 0
  {
    if !g.isOpen[p] && !(g.isFlag[p] && FlaggedZeroAround(g, p)) && g.field[p] == 0 {
      var g0 := Open(g, p).(countDown := g.countDown - 1);
      OpenStep(g, p);
      ExpandFromReach(g0, p, 0);
      var res := ExpandFrom(g0, p, 0);
      assert Expand(g, p) == res;
      if res.Success? {
        ReachFromStart(g, g0, res.value, p);
      }
    }
  }

  /** The start cell of a zero expansion counts as reached-from-zero for its
      neighbours. */
  lemma ReachFromStart(g: Game, g0: Game, g': Game, p: nat)
    requires WellFormed(g) && p < g.size && !g.isOpen[p] && g.field[p] == 0
    requires Grows(g, g0) && Grows(g0, g') && Hidden(g0) + {p} == Hidden(g)
    requires !g.isFlag[p] ==> g0.isOpen[p]
    requires forall q :: 0 <= q < g.size && NewlyOpened(g0, g', q) ==>
               Adjacent(g.column, p, q) || ReachedFromZero(g0, g', q)
    ensures forall q :: 0 <= q < g.size && q != p && NewlyOpened(g, g', q) ==> ReachedFromZero(g, g', q)
  {
    forall q | 0 <= q < g.size && q != p && NewlyOpened(g, g', q)
      ensures ReachedFromZero(g, g', q)
    {
      assert q in Hidden(g);
      assert NewlyOpened(g0, g', q);
      if Adjacent(g.column, p, q) {
        assert NewlyOpened(g, g', p) || FlaggedZero(g, p);
      } else {
        var z :| 0 <= z < g.size && Adjacent(g.column, z, q) && g.field[z] == 0 &&
          (NewlyOpened(g0, g', z) || FlaggedZero(g0, z));
        assert NewlyOpened(g, g', z) || FlaggedZero(g, z);
      }
    }
  }

  lemma {:induction false} ExpandFromReach(g: Game, p: nat, k: nat)
    requires WellFormed(g) && p < g.size && k <= 8 && g.field[p] == 0
    requires g.isOpen[p] || (g.isFlag[p] && !FlaggedZeroAround(g, p))
    ensures ExpandFrom(g, p, k).Success? ==>
              forall q :: 0 <= q < g.size && NewlyOpened(g, ExpandFrom(g, p, k).value, q) ==>
                Adjacent(g.column, p, q) || ReachedFromZero(g, ExpandFrom(g, p, k).value, q)
    decreases Hidden(g) + {p}, Rank(g, p), 0, 8 - k
  {
    if k < 8 {
      RowColInside(g.row, g.column, p);
      var r, c := Row(g.column, p), Col(g.column, p);
      if InDirection(g.row, g.column, r, c, k) {
        NeighbourAdjacent(g.row, g.column, r, c, k);
        var nb := Neighbour(g.row, g.column, r, c, k);
        ExpandReach(g, nb);
        var first := Expand(g, nb);
        if first.Success? {
          var g1 := first.value;
          ExpandFromReach(g1, p, k + 1);
          var res := ExpandFrom(g1, p, k + 1);
          assert ExpandFrom(g, p, k) == res;
          if res.Success? {
            forall q | 0 <= q < g.size && NewlyOpened(g, res.value, q)
              ensures Adjacent(g.column, p, q) || ReachedFromZero(g, res.value, q)
            {
              ReachedWidens(g, g1, res.value, q);
              if NewlyOpened(g, g1, q) {
                assert q == nb || ReachedFromZero(g, g1, q);
              } else {
                assert NewlyOpened(g1, res.value, q);
              }
            }
          }
        }
      } else {
        ExpandFromReach(g, p, k + 1);
      }
    }
  }

  /** With consistent counts, `expand` started on a cell that is not a mine
      never opens a mine. */
  lemma ExpandSafe(g: Game, p: nat)
    requires WellFormed(g) && p < g.size && CountsConsistent(g.column, g.field) && g.field[p] >= 0
    ensures Expand(g, p).Success? ==>
              forall q :: 0 <= q < g.size && NewlyOpened(g, Expand(g, p).value, q) ==> g.field[q] >= 0
  {
    ExpandReach(g, p);
    if Expand(g, p).Success? {
      var g' := Expand(g, p).value;
      forall q | 0 <= q < g.size && NewlyOpened(g, g', q)
        ensures g.field[q] >= 0
      {
        if q != p {
          var z :| 0 <= z < g.size && Adjacent(g.column, z, q) && g.field[z] == 0 &&
            (NewlyOpened(g, g', z) || FlaggedZero(g, z));
          ZeroHasNoMineAround(g.column, g.field, z);
        }
      }
    }
  }

  /** The source's recursion taken literally: `expand` guarded by `isOpen`
      alone, with at most `depth` nested calls (the thread's stack). `None`
      means the calls went deeper than `depth`. */
  function ExpandSteps(g: Game, p: nat, depth: nat): (r: Option<Game>)
    requires WellFormed(g) && p < g.size
    ensures r.Some? ==> Grows(g, r.value)
    decreases depth, 0, 0
  {
    if depth == 0 then None
    else if g.isOpen[p] then Some(g)
    else
      var g0 := Open(g, p).(countDown := g.countDown - 1);
      OpenStep(g, p);
      if g.field[p] != 0 then Some(g0) else StepsFrom(g0, p, 0, depth - 1)
  }

  function StepsFrom(g: Game, p: nat, k: nat, depth: nat): (r: Option<Game>)
    requires WellFormed(g) && p < g.size && k <= 8
    ensures r.Some? ==> Grows(g, r.value)
    decreases depth, 1, 8 - k
  {
    if k == 8 then Some(g)
    else
      RowColInside(g.row, g.column, p);
      var r, c := Row(g.column, p), Col(g.column, p);
      var g1 :-
        if InDirection(g.row, g.column, r, c, k) then
          NeighbourAdjacent(g.row, g.column, r, c, k);
          ExpandSteps(g, Neighbour(g.row, g.column, r, c, k), depth)
        else Some(g);
      StepsFrom(g1, p, k + 1, depth)
  }

  /** Whatever the literal recursion computes within some stack depth is
      what `Expand` computes. */
  lemma {:induction false} StepsSound(g: Game, p: nat, depth: nat)
    requires WellFormed(g) && p < g.size
    ensures ExpandSteps(g, p, depth).Some? ==> Expand(g, p) == Success(ExpandSteps(g, p, depth).value)
    decreases depth, 0, 0
  {
    if depth > 0 && !g.isOpen[p] && g.field[p] == 0 {
      var g0 := Open(g, p).(countDown := g.countDown - 1);
      OpenStep(g, p);
      assert ExpandSteps(g, p, depth) == StepsFrom(g0, p, 0, depth - 1);
      if g.isFlag[p] && FlaggedZeroAround(g, p) {
        var q :| 0 <= q < g.size && Adjacent(g.column, p, q) && FlaggedZero(g, q);
        RowColInside(g.row, g.column, p);
        var j := AdjacentDirection(g.row, g.column, Row(g.column, p), Col(g.column, p), q);
        StepsFromStuck(g0, p, 0, j, depth - 1);
      } else {
        assert Expand(g, p) == ExpandFrom(g0, p, 0);
        StepsFromSound(g0, p, 0, depth - 1);
      }
    }
  }

  lemma {:induction false} StepsFromSound(g: Game, p: nat, k: nat, depth: nat)
    requires WellFormed(g) && p < g.size && k <= 8 && g.field[p] == 0
    requires g.isOpen[p] || (g.isFlag[p] && !FlaggedZeroAround(g, p))
    ensures StepsFrom(g, p, k, depth).Some? ==> ExpandFrom(g, p, k) == Success(StepsFrom(g, p, k, depth).value)
    decreases depth, 1, 8 - k
  {
    if k < 8 {
      RowColInside(g.row, g.column, p);
      var r, c := Row(g.column, p), Col(g.column, p);
      if InDirection(g.row, g.column, r, c, k) {
        NeighbourAdjacent(g.row, g.column, r, c, k);
        var nb := Neighbour(g.row, g.column, r, c, k);
        StepsSound(g, nb, depth);
        var first := ExpandSteps(g, nb, depth);
        if first.Some? {
          StepsFromSound(first.value, p, k + 1, depth);
          assert StepsFrom(g, p, k, depth) == StepsFrom(first.value, p, k + 1, depth);
          assert ExpandFrom(g, p, k) == ExpandFrom(first.value, p, k + 1);
        }
      } else {
        StepsFromSound(g, p, k + 1, depth);
      }
    }
  }

  /** From a hidden flagged zero cell whose flagged zero neighbour lies in a
      direction j not yet visited, the literal recursion never comes back. */
  lemma {:induction false} StepsFromStuck(g: Game, p: nat, k: nat, j: nat, depth: nat)
    requires WellFormed(g) && p < g.size && k <= j < 8 && FlaggedZero(g, p)
    requires InDirection(g.row, g.column, Row(g.column, p), Col(g.column, p), j)
    requires FlaggedZero(g, Neighbour(g.row, g.column, Row(g.column, p), Col(g.column, p), j))
    ensures StepsFrom(g, p, k, depth).None?
    decreases depth, 1, 8 - k
  {
    RowColInside(g.row, g.column, p);
    var r, c := Row(g.column, p), Col(g.column, p);
    if InDirection(g.row, g.column, r, c, k) {
      NeighbourAdjacent(g.row, g.column, r, c, k);
      var nb := Neighbour(g.row, g.column, r, c, k);
      StepsSound(g, nb, depth);
      var first := ExpandSteps(g, nb, depth);
      if k == j {
        PosRowCol(g.column, r, c);
        assert Adjacent(g.column, nb, p);
        assert Expand(g, nb).Failure?;
      } else if first.Some? {
        assert StepsFrom(g, p, k, depth) == StepsFrom(first.value, p, k + 1, depth);
        StepsFromStuck(first.value, p, k + 1, j, depth);
      }
    } else {
      StepsFromStuck(g, p, k + 1, j, depth);
    }
  }

  lemma HiddenShrinks(g: Game, g': Game)
    requires Grows(g, g')
    ensures Hidden(g') <= Hidden(g) && |Hidden(g')| <= |Hidden(g)|
  {
    SubsetCard(Hidden(g'), Hidden(g));
  }

  /** With three stack frames per hidden cell the literal recursion returns
      exactly what `Expand` returns. */
  lemma {:induction false} StepsComplete(g: Game, p: nat, depth: nat)
    requires WellFormed(g) && p < g.size && Expand(g, p).Success?
    requires depth > 3 * |Hidden(g)| + Rank(g, p)
    ensures ExpandSteps(g, p, depth) == Some(Expand(g, p).value)
    decreases Hidden(g), Rank(g, p), 1, 1
  {
    if !g.isOpen[p] && g.field[p] == 0 {
      StepsCompleteZero(g, p, depth);
    }
  }

  lemma {:induction false} StepsCompleteZero(g: Game, p: nat, depth: nat)
    requires WellFormed(g) && p < g.size && Expand(g, p).Success?
    requires !g.isOpen[p] && g.field[p] == 0
    requires depth > 3 * |Hidden(g)| + Rank(g, p)
    ensures ExpandSteps(g, p, depth) == Some(Expand(g, p).value)
    decreases Hidden(g), Rank(g, p), 1, 0
  {
    var g0 := Open(g, p).(countDown := g.countDown - 1);
    OpenStep(g, p);
    assert Expand(g, p) == ExpandFrom(g0, p, 0);
    assert ExpandSteps(g, p, depth) == StepsFrom(g0, p, 0, depth - 1);
    assert Hidden(g0) + {p} == Hidden(g);
    if !g.isFlag[p] {
      assert Hidden(g0) == Hidden(g) - {p};
      assert |Hidden(g0)| == |Hidden(g)| - 1;
    } else {
      assert Hidden(g0) == Hidden(g);
    }
    StepsFromComplete(g0, p, 0, depth - 1);
  }

  lemma {:induction false} StepsFromComplete(g: Game, p: nat, k: nat, depth: nat)
    requires WellFormed(g) && p < g.size && k <= 8 && g.field[p] == 0
    requires g.isOpen[p] || (g.isFlag[p] && !FlaggedZeroAround(g, p))
    requires ExpandFrom(g, p, k).Success?
    requires depth > 3 * |Hidden(g)| + (if g.isOpen[p] then 2 else 1)
    ensures StepsFrom(g, p, k, depth) == Some(ExpandFrom(g, p, k).value)
    decreases Hidden(g) + {p}, Rank(g, p), 0, 8 - k
  {
    if k < 8 {
      RowColInside(g.row, g.column, p);
      var r, c := Row(g.column, p), Col(g.column, p);
      if InDirection(g.row, g.column, r, c, k) {
        NeighbourAdjacent(g.row, g.column, r, c, k);
        var nb := Neighbour(g.row, g.column, r, c, k);
        assert Rank(g, nb) == 2 ==> FlaggedZero(g, nb);
        StepsComplete(g, nb, depth);
        var g1 := Expand(g, nb).value;
        HiddenShrinks(g, g1);
        StepsFromComplete(g1, p, k + 1, depth);
      } else {
        StepsFromComplete(g, p, k + 1, depth);
      }
    }
  }

  /** `Expand` is the literal recursion: it fails exactly when no stack depth
      suffices, and otherwise its result is what a deep enough stack yields. */
  lemma ExpandIsLiteral(g: Game, p: nat)
    requires WellFormed(g) && p < g.size
    ensures Expand(g, p).Failure? <==> forall depth: nat :: ExpandSteps(g, p, depth).None?
    ensures Expand(g, p).Success? ==>
              ExpandSteps(g, p, 3 * |Hidden(g)| + Rank(g, p) + 1) == Some(Expand(g, p).value)
  {
    forall depth: nat
      ensures ExpandSteps(g, p, depth).Some? ==> Expand(g, p) == Success(ExpandSteps(g, p, depth).value)
    {
      StepsSound(g, p, depth);
    }
    if Expand(g, p).Success? {
      StepsComplete(g, p, 3 * |Hidden(g)| + Rank(g, p) + 1);
    }
  }
}
