/** The mine field and its placement (`createMap`). The field holds one integer
    per cell: the k-th mine placed holds -k, every other cell holds the number
    of mines among its in-bounds neighbours. The source draws candidate cells
    with `Math.random`; here the draws are an explicit input sequence. */
module Minefield {
  import opened Wrappers
  import opened Grid

  function Mines(field: seq<int>): set<nat> {
    set p | 0 <= p < |field| && field[p] < 0
  }

  function MinesAround(column: nat, field: seq<int>, p: nat): set<nat>
    requires column > 0
  {
    set q | 0 <= q < |field| && Adjacent(column, p, q) && field[q] < 0
  }

  /** Every cell that is not a mine holds the number of mines around it. */
  predicate CountsConsistent(column: nat, field: seq<int>)
    requires column > 0
  {
    forall p :: 0 <= p < |field| && field[p] >= 0 ==> field[p] == |MinesAround(column, field, p)|
  }

  /** Some cell holds v. */
  predicate HasLabel(field: seq<int>, v: int) {
    exists p :: 0 <= p < |field| && field[p] == v
  }

  /** There are exactly k mines, labelled -1 .. -k: the labels lie in that
      range, are pairwise distinct, and every one of them is used. */
  predicate MinesLabelled(field: seq<int>, k: nat) {
    && |Mines(field)| == k
    && (forall p :: 0 <= p < |field| && field[p] < 0 ==> -(k as int) <= field[p])
    && (forall p, q :: 0 <= p < |field| && 0 <= q < |field| && p != q && field[p] < 0 && field[q] < 0 ==> field[p] != field[q])
    && (forall v :: -(k as int) <= v < 0 ==> HasLabel(field, v))
  }

  /** The invariant of the placement loop after `count` mines: labelled
      mines, consistent counts, and the first-clicked cell still safe. */
  predicate Placed(column: nat, field: seq<int>, position: nat, count: nat)
    requires column > 0
  {
    && position < |field|
    && MinesLabelled(field, count)
    && CountsConsistent(column, field)
    && field[position] >= 0
  }

  /** One iteration of the placement loop that hits a cell which is not yet
      a mine: label it `-count - 1` and bump every in-bounds neighbour that is
      not itself a mine. */
  function AddMine(column: nat, field: seq<int>, pos: nat, count: nat): (r: seq<int>)
    requires column > 0 && pos < |field|
    ensures |r| == |field| && r[pos] == -(count as int) - 1
    ensures forall q :: 0 <= q < |field| && q != pos && field[q] < 0 ==> r[q] == field[q]
    ensures forall q :: 0 <= q < |field| && q != pos && field[q] >= 0 ==>
              r[q] == if Adjacent(column, pos, q) then field[q] + 1 else field[q]
  {
    seq(|field|, q requires 0 <= q < |field| =>
      if q == pos then -(count as int) - 1
      else if Adjacent(column, pos, q) && field[q] >= 0 then field[q] + 1
      else field[q])
  }

  lemma AddMinePlaced(column: nat, field: seq<int>, position: nat, pos: nat, count: nat)
    requires column > 0 && pos < |field| && pos != position && field[pos] >= 0
    requires Placed(column, field, position, count)
    ensures Placed(column, AddMine(column, field, pos, count), position, count + 1)
  {
    AddMineLabels(column, field, pos, count);
    AddMineCounts(column, field, pos, count);
  }

  lemma AddMineLabels(column: nat, field: seq<int>, pos: nat, count: nat)
    requires column > 0 && pos < |field| && field[pos] >= 0
    requires MinesLabelled(field, count)
    ensures Mines(AddMine(column, field, pos, count)) == Mines(field) + {pos}
    ensures MinesLabelled(AddMine(column, field, pos, count), count + 1)
  {
    AddMineMines(column, field, pos, count);
    AddMineDistinct(column, field, pos, count);
    AddMineUsesLabels(column, field, pos, count);
  }

  lemma AddMineMines(column: nat, field: seq<int>, pos: nat, count: nat)
    requires column > 0 && pos < |field| && field[pos] >= 0
    ensures Mines(AddMine(column, field, pos, count)) == Mines(field) + {pos}
    ensures |Mines(AddMine(column, field, pos, count))| == |Mines(field)| + 1
  {
    var nf := AddMine(column, field, pos, count);
    assert Mines(nf) == Mines(field) + {pos};
    assert pos !in Mines(field);
  }

  /** The new label -count-1 lies below every label in use, so labels stay
      distinct and within -(count+1) .. -1. */
  lemma AddMineDistinct(column: nat, field: seq<int>, pos: nat, count: nat)
    requires column > 0 && pos < |field| && field[pos] >= 0
    requires forall p :: 0 <= p < |field| && field[p] < 0 ==> -(count as int) <= field[p]
    requires forall p, q :: 0 <= p < |field| && 0 <= q < |field| && p != q && field[p] < 0 && field[q] < 0 ==> field[p] != field[q]
    ensures var nf := AddMine(column, field, pos, count);
            && (forall p :: 0 <= p < |nf| && nf[p] < 0 ==> -(count as int) - 1 <= nf[p])
            && (forall p, q :: 0 <= p < |nf| && 0 <= q < |nf| && p != q && nf[p] < 0 && nf[q] < 0 ==> nf[p] != nf[q])
  {
    var nf := AddMine(column, field, pos, count);
    assert forall p :: 0 <= p < |nf| && nf[p] < 0 ==> nf[p] == (if p == pos then -(count as int) - 1 else field[p]);
  }

  /** The new mine takes the one label not used yet; the others stay. */
  lemma AddMineUsesLabels(column: nat, field: seq<int>, pos: nat, count: nat)
    requires column > 0 && pos < |field| && field[pos] >= 0
    requires forall v :: -(count as int) <= v < 0 ==> HasLabel(field, v)
    ensures forall v :: -(count as int) - 1 <= v < 0 ==> HasLabel(AddMine(column, field, pos, count), v)
  {
    var nf := AddMine(column, field, pos, count);
    assert nf[pos] == -(count as int) - 1;
    forall v | -(count as int) <= v < 0
      ensures HasLabel(nf, v)
    {
      assert HasLabel(field, v);
      var p :| 0 <= p < |field| && field[p] == v;
      assert nf[p] == v;
    }
  }

  lemma AddMineCounts(column: nat, field: seq<int>, pos: nat, count: nat)
    requires column > 0 && pos < |field| && field[pos] >= 0
    requires CountsConsistent(column, field)
    ensures CountsConsistent(column, AddMine(column, field, pos, count))
  {
    var nf := AddMine(column, field, pos, count);
    forall p | 0 <= p < |nf| && nf[p] >= 0
      ensures nf[p] == |MinesAround(column, nf, p)|
    {
      if Adjacent(column, pos, p) {
        assert MinesAround(column, nf, p) == MinesAround(column, field, p) + {pos};
      } else {
        assert MinesAround(column, nf, p) == MinesAround(column, field, p);
      }
    }
  }

  /** The placement loop (`for (count = 0; count < mineNumber; )`) folded over
      the draws: a draw equal to the first-clicked position, or one that hits
      a mine already placed, is consumed without placing anything. `None`
      means the draws ran out first; the source would keep drawing. */
  function PlaceMines(column: nat, field: seq<int>, position: nat, mineNumber: nat, count: nat,
                      draws: seq<nat>): (r: Option<seq<int>>)
    requires column > 0 && position < |field|
    requires forall i :: 0 <= i < |draws| ==> draws[i] < |field|
    ensures r.Some? ==> |r.value| == |field|
    ensures r.Some? && count <= mineNumber && Placed(column, field, position, count) ==>
              Placed(column, r.value, position, mineNumber)
    decreases |draws|
  {
    if count >= mineNumber then Some(field)
    else if |draws| == 0 then None
    else
      var pos := draws[0];
      if pos == position || field[pos] < 0 then
        PlaceMines(column, field, position, mineNumber, count, draws[1..])
      else
        var next := AddMine(column, field, pos, count);
        assert Placed(column, field, position, count) ==> Placed(column, next, position, count + 1) by {
          if Placed(column, field, position, count) {
            AddMinePlaced(column, field, position, pos, count);
          }
        }
        PlaceMines(column, next, position, mineNumber, count + 1, draws[1..])
  }

  /** The cells among the draws that the placement loop can still turn into
      a mine: not the first-clicked cell and not a mine already. */
  function Usable(field: seq<int>, position: nat, draws: seq<nat>): set<nat> {
    set i | 0 <= i < |draws| && draws[i] < |field| && draws[i] != position && field[draws[i]] >= 0 :: draws[i]
  }

  /** The loop finishes when the draws still hold enough distinct usable
      cells: each one the loop reaches is either placed or already a mine. */
  lemma {:induction false} PlaceMinesProgress(column: nat, field: seq<int>, position: nat, mineNumber: nat,
                                              count: nat, draws: seq<nat>)
    requires column > 0 && position < |field|
    requires forall i :: 0 <= i < |draws| ==> draws[i] < |field|
    requires count + |Usable(field, position, draws)| >= mineNumber
    ensures PlaceMines(column, field, position, mineNumber, count, draws).Some?
    decreases |draws|
  {
    if count < mineNumber {
      var pos := draws[0];
      var rest := draws[1..];
      var u := Usable(field, position, draws);
      if pos == position || field[pos] < 0 {
        assert Usable(field, position, rest) == u by {
          forall d | d in u ensures d in Usable(field, position, rest) {
            var i :| 0 <= i < |draws| && draws[i] < |field| && draws[i] != position && field[draws[i]] >= 0 && draws[i] == d;
            assert i != 0;
            assert rest[i - 1] == d;
          }
        }
        PlaceMinesProgress(column, field, position, mineNumber, count, rest);
      } else {
        var next := AddMine(column, field, pos, count);
        var u' := Usable(next, position, rest);
        assert u - {pos} <= u' by {
          forall d | d in u - {pos} ensures d in u' {
            var i :| 0 <= i < |draws| && draws[i] < |field| && draws[i] != position && field[draws[i]] >= 0 && draws[i] == d;
            assert i != 0;
            assert rest[i - 1] == d;
            assert next[d] >= 0;
          }
        }
        SubsetCard(u - {pos}, u');
        assert pos in u;
        assert |u - {pos}| == |u| - 1;
        PlaceMinesProgress(column, next, position, mineNumber, count + 1, rest);
      }
    }
  }

  /** Every mine the loop places is a drawn cell other than the
      first-clicked one: the mines come from `Math.random`'s draws. */
  lemma {:induction false} PlaceMinesFromDraws(column: nat, field: seq<int>, position: nat, mineNumber: nat,
                                               count: nat, draws: seq<nat>)
    requires column > 0 && position < |field|
    requires forall i :: 0 <= i < |draws| ==> draws[i] < |field|
    ensures PlaceMines(column, field, position, mineNumber, count, draws).Some? ==>
              Mines(PlaceMines(column, field, position, mineNumber, count, draws).value)
                <= Mines(field) + DistinctDraws(position, draws)
    decreases |draws|
  {
    if count < mineNumber && |draws| > 0 {
      var pos, rest := draws[0], draws[1..];
      assert DistinctDraws(position, rest) <= DistinctDraws(position, draws) by {
        forall x | x in DistinctDraws(position, rest) ensures x in DistinctDraws(position, draws) {
          var i :| 0 <= i < |rest| && rest[i] != position && rest[i] == x;
          assert draws[i + 1] == x;
        }
      }
      if pos == position || field[pos] < 0 {
        PlaceMinesFromDraws(column, field, position, mineNumber, count, rest);
      } else {
        var next := AddMine(column, field, pos, count);
        AddMineMines(column, field, pos, count);
        assert pos in DistinctDraws(position, draws) by { assert draws[0] == pos; }
        PlaceMinesFromDraws(column, next, position, mineNumber, count + 1, rest);
      }
    }
  }

  /** `createMap(position)`: a fresh all-zero field, then the placement loop. */
  function CreateMap(row: nat, column: nat, position: nat, mineNumber: nat, draws: seq<nat>)
    : (r: Option<seq<int>>)
    requires column > 0 && position < row * column
    requires forall i :: 0 <= i < |draws| ==> draws[i] < row * column
    ensures r.Some? ==> |r.value| == row * column
    ensures r.Some? ==> Placed(column, r.value, position, mineNumber)
    ensures r.Some? ==> Mines(r.value) <= DistinctDraws(position, draws)
  {
    var zero := seq(row * column, _ => 0);
    assert Mines(zero) == {};
    assert forall p | 0 <= p < |zero| :: MinesAround(column, zero, p) == {};
    PlaceMinesFromDraws(column, zero, position, mineNumber, 0, draws);
    PlaceMines(column, zero, position, mineNumber, 0, draws)
  }

  /** The distinct drawn cells other than the first-clicked one. */
  function DistinctDraws(position: nat, draws: seq<nat>): set<nat> {
    set i | 0 <= i < |draws| && draws[i] != position :: draws[i]
  }

  /** `createMap` returns once the draws hold `mineNumber` distinct cells
      other than the first-clicked one. */
  lemma CreateMapProgress(row: nat, column: nat, position: nat, mineNumber: nat, draws: seq<nat>)
    requires column > 0 && position < row * column
    requires forall i :: 0 <= i < |draws| ==> draws[i] < row * column
    requires |DistinctDraws(position, draws)| >= mineNumber
    ensures CreateMap(row, column, position, mineNumber, draws).Some?
  {
    var zero := seq(row * column, _ => 0);
    assert Usable(zero, position, draws) == DistinctDraws(position, draws);
    PlaceMinesProgress(column, zero, position, mineNumber, 0, draws);
  }

  /** With consistent counts every cell that is not a mine holds 0 .. 8. */
  lemma CountsAtMostEight(row: nat, column: nat, field: seq<int>)
    requires column > 0 && |field| == row * column
    requires CountsConsistent(column, field)
    ensures forall p :: 0 <= p < |field| && field[p] >= 0 ==> field[p] <= 8
  {
    forall p | 0 <= p < |field| && field[p] >= 0
      ensures field[p] <= 8
    {
      AroundAtMostEight(row, column, p);
      SubsetCard(MinesAround(column, field, p), Around(row, column, p));
    }
  }

  /** A cell counting zero mines has no mine beside it. */
  lemma ZeroHasNoMineAround(column: nat, field: seq<int>, p: nat)
    requires column > 0 && p < |field| && field[p] == 0
    requires CountsConsistent(column, field)
    ensures forall q :: 0 <= q < |field| && Adjacent(column, p, q) ==> field[q] >= 0
  {
    var around := MinesAround(column, field, p);
    assert around == {};
    forall q | 0 <= q < |field| && Adjacent(column, p, q)
      ensures field[q] >= 0
    {
      assert q !in around;
    }
  }
}
