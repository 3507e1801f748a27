/** `Board::find` as a function from a board value and a start position to
    the boards it emits, in emission order; and what that output is:
    completions of the board, every solution compatible with the masks, in
    strictly increasing row-major order. */
module Search {
  import opened Cells
  import opened Grids

  /** `find(pos)`: skip assigned cells; at position 81 emit the board; at
      an empty cell with no candidate emit nothing; otherwise try each
      candidate digit in ascending order on a copy. */
  function Enumerate(g: Grid, pos: int): seq<Grid>
    requires 0 <= pos <= 81
    decreases |EmptyCells(g)|, 1, 81 - pos
  {
    if pos == 81 then [g]
    else if g[pos].digit != 0 then Enumerate(g, pos + 1)
    else if !g[pos].Any() then []
    else Branches(g, pos, 1)
  }

  /** The digit loop of `find` from digit `dig` on: each candidate digit
      is assigned at `pos` on a copy of the board, and the search goes on
      from `pos` in that copy. */
  function Branches(g: Grid, pos: int, dig: int): seq<Grid>
    requires 0 <= pos < 81 && g[pos].digit == 0 && 1 <= dig <= 10
    decreases |EmptyCells(g)|, 0, 10 - dig
  {
    if dig == 10 then []
    else
      (if g[pos].Has(dig) then
         AssignFillsOne(g, pos, dig);
         Enumerate(Assign(g, pos, dig), pos)
       else []) + Branches(g, pos, dig + 1)
  }

  /** `h` is a completion of `g` from `pos` on: digits before `pos` and
      digits already placed are kept, every cell from `pos` on is filled,
      and no mask has gained a bit. */
  predicate Completes(g: Grid, h: Grid, pos: int) {
    (forall i :: 0 <= i < 81 && (i < pos || g[i].digit != 0) ==> h[i].digit == g[i].digit) &&
    (forall i :: 0 <= i < 81 && pos <= i ==> h[i].digit != 0) &&
    (forall i :: 0 <= i < 81 ==> h[i].mask & !g[i].mask == 0)
  }

  /** Every emitted board completes the board `find` was called on; if that
      board was consistent (and well-formed), so is every emitted one. */
  lemma {:induction false} EnumerateCompletes(g: Grid, pos: int)
    requires 0 <= pos <= 81
    ensures forall h: Grid :: h in Enumerate(g, pos) ==> Completes(g, h, pos)
    ensures WellFormed(g) ==> forall h: Grid :: h in Enumerate(g, pos) ==> WellFormed(h)
    ensures Consistent(g) ==> forall h: Grid :: h in Enumerate(g, pos) ==> Consistent(h)
    decreases |EmptyCells(g)|, 1, 81 - pos
  {
    if pos == 81 {
    } else if g[pos].digit != 0 {
      EnumerateCompletes(g, pos + 1);
    } else if !g[pos].Any() {
    } else {
      BranchesComplete(g, pos, 1);
    }
  }

  /** Every board emitted by the digit loop from `dig` on completes `g` from
      `pos`, and holds a digit of at least `dig` at `pos`. */
  lemma {:induction false} BranchesComplete(g: Grid, pos: int, dig: int)
    requires 0 <= pos < 81 && g[pos].digit == 0 && 1 <= dig <= 10
    ensures forall h: Grid :: h in Branches(g, pos, dig) ==> Completes(g, h, pos) && h[pos].digit >= dig
    ensures WellFormed(g) ==> forall h: Grid :: h in Branches(g, pos, dig) ==> WellFormed(h)
    ensures Consistent(g) ==> forall h: Grid :: h in Branches(g, pos, dig) ==> Consistent(h)
    decreases |EmptyCells(g)|, 0, 10 - dig
  {
    if dig < 10 {
      BranchesComplete(g, pos, dig + 1);
      if g[pos].Has(dig) {
        var next := Assign(g, pos, dig);
        AssignFillsOne(g, pos, dig);
        AssignEffect(g, pos, dig);
        EnumerateCompletes(next, pos);
        if WellFormed(g) {
          AssignWellFormed(g, pos, dig);
        }
        if Consistent(g) {
          GuardedAssignConsistent(g, pos, dig);
        }
        forall h: Grid | h in Enumerate(next, pos)
          ensures Completes(g, h, pos) && h[pos].digit >= dig
        {
          assert Completes(next, h, pos);
          forall i | 0 <= i < 81
            ensures h[i].mask & !g[i].mask == 0
          {
            MaskShrinkTransitive(h[i].mask, next[i].mask, g[i].mask);
          }
        }
      }
    }
  }

  /** `a` comes before `b` in row-major order of digits: they agree up to
      some cell where `a`'s digit is smaller. */
  predicate Before(a: Grid, b: Grid) {
    exists k :: 0 <= k < 81 && a[k].digit < b[k].digit && forall i :: 0 <= i < k ==> a[i].digit == b[i].digit
  }

  predicate StrictlyIncreasing(s: seq<Grid>) {
    forall i, j :: 0 <= i < j < |s| ==> Before(s[i], s[j])
  }

  lemma SortedConcat(a: seq<Grid>, b: seq<Grid>)
    requires StrictlyIncreasing(a) && StrictlyIncreasing(b)
    requires forall x, y :: x in a && y in b ==> Before(x, y)
    ensures StrictlyIncreasing(a + b)
  {
    var s := a + b;
    forall i, j | 0 <= i < j < |s|
      ensures Before(s[i], s[j])
    {
      if j < |a| {
        assert s[i] == a[i] && s[j] == a[j];
      } else if i >= |a| {
        assert s[i] == b[i - |a|] && s[j] == b[j - |a|];
      } else {
        assert s[i] in a && s[j] in b;
      }
    }
  }

  /** Determinism of the output order: `find` emits its boards in strictly
      increasing row-major digit order (so no board is emitted twice). */
  lemma {:induction false} EnumerateIncreasing(g: Grid, pos: int)
    requires 0 <= pos <= 81
    ensures StrictlyIncreasing(Enumerate(g, pos))
    decreases |EmptyCells(g)|, 1, 81 - pos
  {
    if pos == 81 {
    } else if g[pos].digit != 0 {
      EnumerateIncreasing(g, pos + 1);
    } else if !g[pos].Any() {
    } else {
      BranchesIncreasing(g, pos, 1);
    }
  }

  lemma {:induction false} BranchesIncreasing(g: Grid, pos: int, dig: int)
    requires 0 <= pos < 81 && g[pos].digit == 0 && 1 <= dig <= 10
    ensures StrictlyIncreasing(Branches(g, pos, dig))
    decreases |EmptyCells(g)|, 0, 10 - dig
  {
    if dig < 10 {
      var rest := Branches(g, pos, dig + 1);
      BranchesIncreasing(g, pos, dig + 1);
      BranchesComplete(g, pos, dig + 1);
      if g[pos].Has(dig) {
        var next := Assign(g, pos, dig);
        AssignFillsOne(g, pos, dig);
        AssignEffect(g, pos, dig);
        var first := Enumerate(next, pos);
        EnumerateIncreasing(next, pos);
        EnumerateCompletes(next, pos);
        forall x: Grid, y: Grid | x in first && y in rest
          ensures Before(x, y)
        {
          assert Completes(next, x, pos);
          assert x[pos].digit == dig < y[pos].digit;
          assert forall i :: 0 <= i < pos ==> x[i].digit == y[i].digit;
        }
        SortedConcat(first, rest);
      } else {
        assert Branches(g, pos, dig) == [] + rest;
      }
    }
  }

  /** The digit of `h` at every cell agrees with `g`'s placed digits, `g`
      is filled before `pos`, and each empty cell of `g` still lists the
      digit `h` has there. */
  predicate Admits(g: Grid, h: Grid, pos: int) {
    (forall i :: 0 <= i < 81 && g[i].digit != 0 ==> h[i].digit == g[i].digit) &&
    (forall i :: 0 <= i < 81 && i < pos ==> g[i].digit != 0) &&
    (forall i :: 0 <= i < 81 && g[i].digit == 0 && 1 <= h[i].digit <= 9 ==> g[i].Has(h[i].digit))
  }

  /** Completeness: every solution that keeps the placed digits and that the
      masks admit is emitted (up to the masks, which the search rewrites). */
  lemma {:induction false} EnumerateFinds(g: Grid, pos: int, h: Grid)
    requires 0 <= pos <= 81 && Solution(h) && Admits(g, h, pos)
    ensures exists s :: s in Enumerate(g, pos) && Digits(s) == Digits(h)
    decreases |EmptyCells(g)|, 1, 81 - pos
  {
    if pos == 81 {
      assert Digits(g) == Digits(h);
      assert g in Enumerate(g, pos);
    } else if g[pos].digit != 0 {
      EnumerateFinds(g, pos + 1, h);
    } else {
      assert g[pos].Has(h[pos].digit);
      assert g[pos].Any();
      BranchesFinds(g, pos, 1, h);
    }
  }

  lemma {:induction false} BranchesFinds(g: Grid, pos: int, dig: int, h: Grid)
    requires 0 <= pos < 81 && g[pos].digit == 0 && 1 <= dig <= h[pos].digit
    requires Solution(h) && Admits(g, h, pos)
    ensures exists s :: s in Branches(g, pos, dig) && Digits(s) == Digits(h)
    decreases |EmptyCells(g)|, 0, 10 - dig
  {
    if dig == h[pos].digit {
      var next := Assign(g, pos, dig);
      AssignFillsOne(g, pos, dig);
      AssignEffect(g, pos, dig);
      forall i | 0 <= i < 81 && next[i].digit == 0 && 1 <= h[i].digit <= 9
        ensures next[i].Has(h[i].digit)
      {
        if InUnit(pos, i) {
          assert Peer(pos, i);
          assert h[i].digit != dig;
        }
      }
      assert Admits(next, h, pos);
      EnumerateFinds(next, pos, h);
      var s :| s in Enumerate(next, pos) && Digits(s) == Digits(h);
      assert s in Branches(g, pos, dig);
    } else {
      BranchesFinds(g, pos, dig + 1, h);
      var s :| s in Branches(g, pos, dig + 1) && Digits(s) == Digits(h);
      assert s in Branches(g, pos, dig);
    }
  }

  /** The scan reaches an empty cell whose mask is empty: nothing is
      emitted. */
  lemma {:induction false} EnumerateDeadEnd(g: Grid, pos: int, p: int)
    requires 0 <= pos <= p < 81
    requires forall i :: pos <= i < p ==> g[i].digit != 0
    requires g[p].digit == 0 && !g[p].Any()
    ensures Enumerate(g, pos) == []
    decreases p - pos
  {
    if pos < p {
      EnumerateDeadEnd(g, pos + 1, p);
    }
  }

  /** The digit `Pattern` puts in row `r`, column `c`, less one. */
  function PatternAt(r: int, c: int): int {
    (3 * (r % 3) + r / 3 + c) % 9
  }

  /** A completed Sudoku: cell (r, c) holds `PatternAt(r, c) + 1`. */
  function Pattern(): Grid {
    seq(81, i requires 0 <= i < 81 => Cell(PatternAt(Row(i), Col(i)) + 1, FullMask))
  }

  lemma ModDistinct(x: int, y: int)
    requires 0 <= x <= 16 && 0 <= y <= 16 && x != y && -9 < x - y < 9
    ensures x % 9 != y % 9
  {
  }

  /** Two different cells of the same row, column or box get different
      digits from `Pattern`. */
  lemma PatternDistinct(r1: int, c1: int, r2: int, c2: int)
    requires 0 <= r1 < 9 && 0 <= c1 < 9 && 0 <= r2 < 9 && 0 <= c2 < 9
    requires r1 != r2 || c1 != c2
    requires r1 == r2 || c1 == c2 || (r1 / 3 == r2 / 3 && c1 / 3 == c2 / 3)
    ensures PatternAt(r1, c1) != PatternAt(r2, c2)
  {
    var o1, o2 := 3 * (r1 % 3) + r1 / 3, 3 * (r2 % 3) + r2 / 3;
    assert 0 <= o1 <= 8 && 0 <= o2 <= 8;
    if r1 == r2 {
      ModDistinct(o1 + c1, o2 + c2);
    } else if c1 == c2 {
      assert r1 == 3 * (r1 / 3) + r1 % 3 && r2 == 3 * (r2 / 3) + r2 % 3;
      assert o1 != o2;
      ModDistinct(o1 + c1, o2 + c2);
    } else {
      assert c1 == 3 * (c1 / 3) + c1 % 3 && c2 == 3 * (c2 / 3) + c2 % 3;
      assert (o1 + c1) - (o2 + c2) == 3 * (r1 % 3 - r2 % 3) + (c1 % 3 - c2 % 3);
      ModDistinct(o1 + c1, o2 + c2);
    }
  }

  lemma PatternSolution()
    ensures Solution(Pattern())
  {
    var h := Pattern();
    forall p, q | 0 <= p < 81 && 0 <= q < 81 && Peer(p, q) && h[p].digit != 0
      ensures h[q].digit != h[p].digit
    {
      SameCell(p, q);
      AtRowCol(p);
      AtRowCol(q);
      PatternDistinct(Row(p), Col(p), Row(q), Col(q));
    }
  }

  /** Whether a board is a Sudoku depends on its digits alone. */
  lemma SameDigitsSolution(s: Grid, h: Grid)
    requires Digits(s) == Digits(h) && Solution(h)
    ensures Solution(s)
  {
    forall i | 0 <= i < 81
      ensures s[i].digit == h[i].digit
    {
      assert Digits(s)[i] == Digits(h)[i];
    }
  }

  /** The empty board admits every completed Sudoku. */
  lemma BlankAdmits(h: Grid)
    ensures Admits(Blank(), h, 0)
  {
    var b: Grid := Blank();
    forall i | 0 <= i < 81 && b[i].digit == 0 && 1 <= h[i].digit <= 9
      ensures b[i].Has(h[i].digit)
    {
      assert b[i] == NewCell();
    }
  }

  /** The search on the empty board emits at least one completed Sudoku. */
  lemma EmptyBoardHasSolution()
    ensures exists s :: s in Enumerate(Blank(), 0) && Solution(s)
  {
    var h := Pattern();
    PatternSolution();
    BlankAdmits(h);
    EnumerateFinds(Blank(), 0, h);
    var s: Grid :| s in Enumerate(Blank(), 0) && Digits(s) == Digits(h);
    SameDigitsSolution(s, h);
  }

  lemma MaskShrinkTransitive(a: bv10, b: bv10, c: bv10)
    requires a & !b == 0 && b & !c == 0
    ensures a & !c == 0
  {
  }
}
