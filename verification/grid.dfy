/** Board geometry. A cell is addressed by its linear position
    `p = r * column + c`, as the click listeners receive it; the row and the
    column are recovered with `/` and `%`, as `getMapValue` and the
    position form of `expand` do. */
module Grid {

  function Row(column: nat, p: nat): nat
    requires column > 0
  {
    p / column
  }

  function Col(column: nat, p: nat): nat
    requires column > 0
  {
    p % column
  }

  function Pos(column: nat, r: nat, c: nat): nat {
    r * column + c
  }

  /** Two distinct cells whose rows and columns each differ by at most one. */
  predicate Adjacent(column: nat, p: nat, q: nat)
    requires column > 0
  {
    && p != q
    && -1 <= Row(column, p) - Row(column, q) <= 1
    && -1 <= Col(column, p) - Col(column, q) <= 1
  }

  /** The eight directions in the order `expand` visits them: up, up-right,
      right, down-right, down, down-left, left, up-left. */
  const DeltaRow: seq<int> := [-1, -1, 0, 1, 1, 1, 0, -1]
  const DeltaCol: seq<int> := [0, 1, 1, 1, 0, -1, -1, -1]

  /** The neighbour of (r, c) in direction k lies on the board
      (the source's `checkUp`, `checkRight`, ... tests). */
  predicate InDirection(row: nat, column: nat, r: nat, c: nat, k: nat)
    requires k < 8
  {
    0 <= r + DeltaRow[k] < row && 0 <= c + DeltaCol[k] < column
  }

  function Neighbour(row: nat, column: nat, r: nat, c: nat, k: nat): nat
    requires k < 8 && InDirection(row, column, r, c, k)
  {
    Pos(column, (r + DeltaRow[k]) as nat, (c + DeltaCol[k]) as nat)
  }

  lemma PosRowCol(column: nat, r: nat, c: nat)
    requires c < column
    ensures Row(column, Pos(column, r, c)) == r
    ensures Col(column, Pos(column, r, c)) == c
  {
    var p := Pos(column, r, c);
    var q, m := p / column, p % column;
    assert p == q * column + m && m < column;
    assert q > r ==> q * column >= (r + 1) * column;
    assert q < r ==> (q + 1) * column <= r * column;
  }

  lemma PosInside(row: nat, column: nat, r: nat, c: nat)
    requires r < row && c < column
    ensures Pos(column, r, c) < row * column
  {
    assert (r + 1) * column <= row * column;
  }

  lemma RowColInside(row: nat, column: nat, p: nat)
    requires column > 0 && p < row * column
    ensures Row(column, p) < row && Col(column, p) < column
    ensures Pos(column, Row(column, p), Col(column, p)) == p
  {
    var q := p / column;
    assert q >= row ==> q * column >= row * column;
  }

  /** A direction that stays on the board leads to an adjacent cell. */
  lemma NeighbourAdjacent(row: nat, column: nat, r: nat, c: nat, k: nat)
    requires r < row && c < column && k < 8 && InDirection(row, column, r, c, k)
    ensures Neighbour(row, column, r, c, k) < row * column
    ensures Adjacent(column, Pos(column, r, c), Neighbour(row, column, r, c, k))
  {
    var r', c' := (r + DeltaRow[k]) as nat, (c + DeltaCol[k]) as nat;
    PosInside(row, column, r', c');
    PosRowCol(column, r, c);
    PosRowCol(column, r', c');
  }

  /** Every adjacent cell is reached by exactly the direction `k` returned. */
  lemma AdjacentDirection(row: nat, column: nat, r: nat, c: nat, q: nat) returns (k: nat)
    requires r < row && c < column && q < row * column
    requires Adjacent(column, Pos(column, r, c), q)
    ensures k < 8 && InDirection(row, column, r, c, k)
    ensures Neighbour(row, column, r, c, k) == q
  {
    PosRowCol(column, r, c);
    RowColInside(row, column, q);
    var dr, dc := Row(column, q) - r, Col(column, q) - c;
    k := if dr == -1 && dc == 0 then 0
      else if dr == -1 && dc == 1 then 1
      else if dr == 0 && dc == 1 then 2
      else if dr == 1 && dc == 1 then 3
      else if dr == 1 && dc == 0 then 4
      else if dr == 1 && dc == -1 then 5
      else if dr == 0 && dc == -1 then 6
      else 7;
  }

  /** The cells around a position, as a set; at most eight of them. */
  function Around(row: nat, column: nat, p: nat): set<nat>
    requires column > 0
  {
    set q | 0 <= q < row * column && Adjacent(column, p, q)
  }

  lemma AroundAtMostEight(row: nat, column: nat, p: nat)
    requires column > 0 && p < row * column
    ensures |Around(row, column, p)| <= 8
  {
    RowColInside(row, column, p);
    var r, c := Row(column, p), Col(column, p);
    var cand := seq(8, k requires 0 <= k < 8 =>
      if InDirection(row, column, r, c, k) then Neighbour(row, column, r, c, k) else p);
    var all := {cand[0], cand[1], cand[2], cand[3], cand[4], cand[5], cand[6], cand[7]};
    forall q | q in Around(row, column, p)
      ensures q in all
    {
      var k := AdjacentDirection(row, column, r, c, q);
      assert cand[k] == q;
    }
    SubsetCard(Around(row, column, p), all);
  }

  lemma SubsetCard<T>(a: set<T>, b: set<T>)
    requires a <= b
    ensures |a| <= |b|
  {
    if a != {} {
      var x :| x in a;
      SubsetCard(a - {x}, b - {x});
    }
  }
}
