/** The 9x9 board as a value: 81 cells in row-major order, the index
    arithmetic of `Board::cell`, the peer relation, and `Board::assign` as a
    function from the board before to the board after. */
module Grids {
  import opened Cells

  /** A board's contents, indexed by `row * 9 + col`. */
  type Grid = g: seq<Cell> | |g| == 81 witness Blank()

  /** `Board b;`: every cell freshly constructed. */
  function Blank(): seq<Cell> {
    seq(81, _ => NewCell())
  }

  function Row(pos: int): int { pos / 9 }

  function Col(pos: int): int { pos % 9 }

  /** `Board::cell(row, col)`. */
  function At(row: int, col: int): (pos: int)
    requires 0 <= row < 9 && 0 <= col < 9
    ensures 0 <= pos < 81 && Row(pos) == row && Col(pos) == col
  {
    row * 9 + col
  }

  /** Every flat index is the index of its own row and column. */
  lemma AtRowCol(pos: int)
    requires 0 <= pos < 81
    ensures 0 <= Row(pos) < 9 && 0 <= Col(pos) < 9 && At(Row(pos), Col(pos)) == pos
  {
  }

  /** Two cells with the same row and column are the same cell. */
  lemma SameCell(p: int, q: int)
    requires 0 <= p < 81 && 0 <= q < 81
    ensures (Row(p) == Row(q) && Col(p) == Col(q)) <==> p == q
  {
    AtRowCol(p);
    AtRowCol(q);
  }

  /** First row (or column) of the 3x3 box holding row (or column) `x`. */
  function BoxOrigin(x: int): int { x - x % 3 }

  predicate SameBox(p: int, q: int) {
    BoxOrigin(Row(p)) == BoxOrigin(Row(q)) && BoxOrigin(Col(p)) == BoxOrigin(Col(q))
  }

  /** `q` lies in the row, the column or the box of `p` (`p` itself included). */
  predicate InUnit(p: int, q: int) {
    Row(p) == Row(q) || Col(p) == Col(q) || SameBox(p, q)
  }

  /** The 20 other cells sharing a row, a column or a box with `p`. */
  predicate Peer(p: int, q: int) {
    p != q && InUnit(p, q)
  }

  /** The cells the box loop of `assign` visits, `cell(rb + r, cb + c)` for
      `r, c` in 0..2, are exactly the cells of the same box. */
  lemma BoxLoopCoversBox(pos: int, i: int)
    requires 0 <= pos < 81 && 0 <= i < 81
    ensures SameBox(pos, i) <==>
      (BoxOrigin(Row(pos)) <= Row(i) < BoxOrigin(Row(pos)) + 3 &&
       BoxOrigin(Col(pos)) <= Col(i) < BoxOrigin(Col(pos)) + 3)
  {
  }

  predicate WellFormed(g: Grid) {
    forall i :: 0 <= i < 81 ==> g[i].WellFormed()
  }

  /** No row, column or box holds the same digit twice. */
  predicate NoDuplicates(g: Grid) {
    forall p, q :: 0 <= p < 81 && 0 <= q < 81 && Peer(p, q) && g[p].digit != 0 ==> g[q].digit != g[p].digit
  }

  /** Every cell's mask excludes the digits assigned to its peers. */
  predicate MasksExclude(g: Grid) {
    forall p, q :: 0 <= p < 81 && 0 <= q < 81 && Peer(p, q) && 1 <= g[p].digit <= 9 ==> !g[q].Has(g[p].digit)
  }

  /** Some cell of the row, column or box of `i` (`i` included) holds `d`. */
  predicate Taken(g: Grid, i: int, d: int) {
    exists q :: 0 <= q < 81 && InUnit(i, q) && g[q].digit == d
  }

  /** A digit is missing from a mask only because a cell of the same unit
      holds it. */
  predicate MasksJustified(g: Grid) {
    forall i, d :: 0 <= i < 81 && 1 <= d <= 9 && !g[i].Has(d) ==> Taken(g, i, d)
  }

  /** The board invariant: well-formed cells, no duplicate digit in any unit,
      and no mask listing a digit a peer already holds. */
  predicate Consistent(g: Grid) {
    WellFormed(g) && NoDuplicates(g) && MasksExclude(g)
  }

  predicate Full(g: Grid) {
    forall i :: 0 <= i < 81 ==> 1 <= g[i].digit <= 9
  }

  /** A completed Sudoku. */
  predicate Solution(g: Grid) {
    Full(g) && NoDuplicates(g)
  }

  /** The digits of a board, without the masks. */
  function Digits(g: Grid): (d: seq<int>)
    ensures |d| == 81 && forall i :: 0 <= i < 81 ==> d[i] == g[i].digit
  {
    seq(81, i requires 0 <= i < 81 => g[i].digit)
  }

  /** The cells still empty; the search's termination measure. */
  function EmptyCells(g: Grid): set<int> {
    set i | 0 <= i < 81 && g[i].digit == 0
  }

  /** `Board::assign(pos, dig)` on a board value: place `dig` at `pos`, then
      strike `dig` from every cell of the column, the row and the box of `pos`
      (`pos` itself included). */
  function Assign(g: Grid, pos: int, dig: int): Grid
    requires 0 <= pos < 81 && 1 <= dig <= 9
  {
    seq(81, i requires 0 <= i < 81 =>
      var c := if i == pos then g[i].(digit := dig) else g[i];
      if InUnit(pos, i) then c.CantAssign(dig) else c)
  }

  /** What `assign` does to one cell `i`. */
  lemma AssignAt(g: Grid, pos: int, dig: int, i: int)
    requires 0 <= pos < 81 && 1 <= dig <= 9 && 0 <= i < 81
    ensures Assign(g, pos, dig)[i].digit == if i == pos then dig else g[i].digit
    ensures InUnit(pos, i) ==> !Assign(g, pos, dig)[i].Has(dig)
    ensures !InUnit(pos, i) ==> Assign(g, pos, dig)[i] == g[i]
    ensures Assign(g, pos, dig)[i].mask & !g[i].mask == 0
    ensures forall e :: 1 <= e <= 9 && e != dig ==> (Assign(g, pos, dig)[i].Has(e) <==> g[i].Has(e))
  {
    var c := if i == pos then g[i].(digit := dig) else g[i];
    assert Assign(g, pos, dig)[i] == if InUnit(pos, i) then c.CantAssign(dig) else c;
    if InUnit(pos, i) {
      CantAssignShrinks(c, dig);
      forall e | 1 <= e <= 9 && e != dig
        ensures c.CantAssign(dig).Has(e) <==> g[i].Has(e)
      {
        CantAssignKeepsOthers(c, dig, e);
      }
    }
  }

  /** What `assign` does, cell by cell: `pos` gets `dig` and no other digit
      changes; `dig` is a candidate of no cell in the unit of `pos`; cells
      outside that unit are untouched; no mask gains a bit and no other digit
      is struck. */
  lemma AssignEffect(g: Grid, pos: int, dig: int)
    requires 0 <= pos < 81 && 1 <= dig <= 9
    ensures Assign(g, pos, dig)[pos].digit == dig
    ensures forall i :: 0 <= i < 81 && i != pos ==> Assign(g, pos, dig)[i].digit == g[i].digit
    ensures forall i :: 0 <= i < 81 && InUnit(pos, i) ==> !Assign(g, pos, dig)[i].Has(dig)
    ensures forall i :: 0 <= i < 81 && !InUnit(pos, i) ==> Assign(g, pos, dig)[i] == g[i]
    ensures forall i :: 0 <= i < 81 ==> Assign(g, pos, dig)[i].mask & !g[i].mask == 0
    ensures forall i, e :: 0 <= i < 81 && 1 <= e <= 9 && e != dig ==>
      (Assign(g, pos, dig)[i].Has(e) <==> g[i].Has(e))
  {
    forall i | 0 <= i < 81 {
      AssignAt(g, pos, dig, i);
    }
  }

  /** `assign` keeps every cell well-formed. */
  lemma AssignWellFormed(g: Grid, pos: int, dig: int)
    requires 0 <= pos < 81 && 1 <= dig <= 9 && WellFormed(g)
    ensures WellFormed(Assign(g, pos, dig))
  {
    var h := Assign(g, pos, dig);
    forall i | 0 <= i < 81
      ensures h[i].WellFormed()
    {
      CantAssignShrinks(if i == pos then g[i].(digit := dig) else g[i], dig);
    }
  }

  /** Filling an empty cell leaves exactly one empty cell fewer. */
  lemma AssignFillsOne(g: Grid, pos: int, dig: int)
    requires 0 <= pos < 81 && 1 <= dig <= 9 && g[pos].digit == 0
    ensures EmptyCells(Assign(g, pos, dig)) == EmptyCells(g) - {pos}
    ensures |EmptyCells(Assign(g, pos, dig))| == |EmptyCells(g)| - 1
  {
    AssignEffect(g, pos, dig);
    var h := Assign(g, pos, dig);
    assert EmptyCells(h) == EmptyCells(g) - {pos};
  }

  /** Whatever the board, `assign` keeps masks clear of the digits peers
      hold: the new digit is struck from every peer, and other masks only
      shrink. */
  lemma AssignKeepsExclusion(g: Grid, pos: int, dig: int)
    requires 0 <= pos < 81 && 1 <= dig <= 9 && MasksExclude(g)
    ensures MasksExclude(Assign(g, pos, dig))
  {
    AssignEffect(g, pos, dig);
    var h := Assign(g, pos, dig);
    forall p, q | 0 <= p < 81 && 0 <= q < 81 && Peer(p, q) && 1 <= h[p].digit <= 9
      ensures !h[q].Has(h[p].digit)
    {
      if p == pos {
        assert InUnit(pos, q);
      } else {
        assert h[p].digit == g[p].digit;
        assert !g[q].Has(g[p].digit);
        if h[p].digit != dig {
          assert h[q].Has(h[p].digit) <==> g[q].Has(h[p].digit);
        }
      }
    }
  }

  /** Placing a digit that no peer holds keeps the board invariant. */
  lemma AssignConsistent(g: Grid, pos: int, dig: int)
    requires 0 <= pos < 81 && 1 <= dig <= 9 && Consistent(g)
    requires forall q :: 0 <= q < 81 && Peer(pos, q) ==> g[q].digit != dig
    ensures Consistent(Assign(g, pos, dig))
  {
    AssignEffect(g, pos, dig);
    AssignWellFormed(g, pos, dig);
    AssignKeepsExclusion(g, pos, dig);
    var h := Assign(g, pos, dig);
    forall p, q | 0 <= p < 81 && 0 <= q < 81 && Peer(p, q) && h[p].digit != 0
      ensures h[q].digit != h[p].digit
    {
      if p == pos {
      } else if q == pos {
        assert Peer(pos, p);
      } else {
        assert g[q].digit != g[p].digit;
      }
    }
  }

  /** The call `find` makes: on a consistent board, a digit still listed in
      the mask of `pos` is held by no peer, so assigning it keeps the board
      consistent. */
  lemma GuardedAssignConsistent(g: Grid, pos: int, dig: int)
    requires 0 <= pos < 81 && 1 <= dig <= 9 && Consistent(g) && g[pos].Has(dig)
    ensures Consistent(Assign(g, pos, dig))
  {
    forall q | 0 <= q < 81 && Peer(pos, q)
      ensures g[q].digit != dig
    {
      assert Peer(q, pos);
    }
    AssignConsistent(g, pos, dig);
  }

  /** Assigning an empty cell (or re-assigning the same digit) keeps every
      missing candidate accounted for by a unit-mate holding it. */
  lemma AssignKeepsJustified(g: Grid, pos: int, dig: int)
    requires 0 <= pos < 81 && 1 <= dig <= 9 && MasksJustified(g)
    requires g[pos].digit == 0 || g[pos].digit == dig
    ensures MasksJustified(Assign(g, pos, dig))
  {
    AssignEffect(g, pos, dig);
    var h := Assign(g, pos, dig);
    forall i, d | 0 <= i < 81 && 1 <= d <= 9 && !h[i].Has(d)
      ensures Taken(h, i, d)
    {
      if d == dig && InUnit(i, pos) {
        assert h[pos].digit == d;
      } else {
        if d == dig {
          assert !InUnit(pos, i);
        }
        assert !g[i].Has(d);
        var q :| 0 <= q < 81 && InUnit(i, q) && g[q].digit == d;
        assert h[q].digit == d;
      }
    }
  }
}
