/** `struct Board`: 81 cells held by value in a fixed array, updated in place
    by `assign`, copied by `find` for each branch and read by `print`. Each
    method is proved against the function on board values that specifies
    it. */
module Boards {
  import opened Cells
  import opened Grids
  import opened Search
  import opened Text

  /** One cell as `assign` leaves it once it has been set (when it is `pos`)
      and, if `hit`, struck by one of the three loops. */
  ghost function Struck(g: Grid, pos: int, dig: int, i: int, hit: bool): Cell
    requires 0 <= i < 81 && 1 <= dig <= 9
  {
    var c := if i == pos then g[i].(digit := dig) else g[i];
    if hit then c.CantAssign(dig) else c
  }

  class Board {
    const cells: array<Cell>

    ghost predicate Valid()
      reads cells
    {
      cells.Length == 81 && WellFormed(cells[..])
    }

    /** `Board b;`: every cell default-constructed. */
    constructor ()
      ensures Valid() && fresh(cells) && cells[..] == Blank()
    {
      cells := new Cell[81](_ => NewCell());
    }

    /** The copy `Board next(*this)`. */
    constructor Copy(other: Board)
      requires other.Valid()
      ensures Valid() && fresh(cells) && cells[..] == other.cells[..]
    {
      var a := new Cell[81];
      forall i | 0 <= i < 81 {
        a[i] := other.cells[i];
      }
      cells := a;
    }

    /** `Board::assign(pos, dig)`: set the digit, then strike `dig` from the
        column, the row and the 3x3 box of `pos`. */
    method Assign(pos: int, dig: int)
      requires Valid() && 0 <= pos < 81 && 1 <= dig <= 9
      modifies cells
      ensures Valid() && cells[..] == Grids.Assign(old(cells[..]), pos, dig)
    {
      ghost var g: Grid := cells[..];
      var row := pos / 9;
      var col := pos % 9;
      cells[pos] := cells[pos].(digit := dig);
      for r := 0 to 9
        invariant forall i :: 0 <= i < 81 ==>
          cells[i] == Struck(g, pos, dig, i, Col(i) == col && Row(i) < r)
      {
        var p := At(r, col);
        cells[p] := cells[p].CantAssign(dig);
        forall i | 0 <= i < 81
          ensures cells[i] == Struck(g, pos, dig, i, Col(i) == col && Row(i) < r + 1)
        {
          SameCell(i, p);
        }
      }
      for c := 0 to 9
        invariant forall i :: 0 <= i < 81 ==>
          cells[i] == Struck(g, pos, dig, i, Col(i) == col || (Row(i) == row && Col(i) < c))
      {
        var p := At(row, c);
        if c == col {
          CantAssignIdempotent(g[p], dig);
        }
        cells[p] := cells[p].CantAssign(dig);
        forall i | 0 <= i < 81
          ensures cells[i] == Struck(g, pos, dig, i, Col(i) == col || (Row(i) == row && Col(i) < c + 1))
        {
          SameCell(i, p);
        }
      }
      var rb := row - row % 3;
      var cb := col - col % 3;
      for r := 0 to 3
        invariant forall i :: 0 <= i < 81 ==>
          cells[i] == Struck(g, pos, dig, i, Col(i) == col || Row(i) == row ||
            (rb <= Row(i) < rb + r && cb <= Col(i) < cb + 3))
      {
        for c := 0 to 3
          invariant forall i :: 0 <= i < 81 ==>
            cells[i] == Struck(g, pos, dig, i, Col(i) == col || Row(i) == row ||
              (rb <= Row(i) < rb + r && cb <= Col(i) < cb + 3) ||
              (Row(i) == rb + r && cb <= Col(i) < cb + c))
        {
          var p := At(rb + r, cb + c);
          CantAssignIdempotent(if p == pos then g[p].(digit := dig) else g[p], dig);
          cells[p] := cells[p].CantAssign(dig);
          forall i | 0 <= i < 81
            ensures cells[i] == Struck(g, pos, dig, i, Col(i) == col || Row(i) == row ||
              (rb <= Row(i) < rb + r && cb <= Col(i) < cb + 3) ||
              (Row(i) == rb + r && cb <= Col(i) < cb + c + 1))
          {
            SameCell(i, p);
          }
        }
      }
      forall i | 0 <= i < 81
        ensures cells[i] == Grids.Assign(g, pos, dig)[i]
      {
        BoxLoopCoversBox(pos, i);
      }
      AssignWellFormed(g, pos, dig);
    }

    /** `Board::find(pos)`: the boards it emits are those `Enumerate`
        gives; each call works on its own copy, so this board is left as it
        was. */
    method Find(pos0: int) returns (out: seq<Grid>)
      requires Valid() && 0 <= pos0 <= 81
      ensures out == Enumerate(cells[..], pos0)
      decreases |EmptyCells(cells[..])|
    {
      ghost var g: Grid := cells[..];
      var pos := pos0;
      while true
        invariant pos0 <= pos <= 81
        invariant Enumerate(g, pos) == Enumerate(g, pos0)
        decreases 81 - pos
      {
        if pos == 81 {
          out := [cells[..]];
          return;
        }
        if cells[pos].digit == 0 {
          break;
        }
        pos := pos + 1;
      }
      var x := cells[pos];
      assert x == g[pos];
      if !x.Any() {
        out := [];
        return;
      }
      ghost var all := Branches(g, pos, 1);
      out := [];
      for dig := 1 to 10
        invariant out + Branches(g, pos, dig) == all
      {
        ghost var rest := Branches(g, pos, dig + 1);
        if x.Has(dig) {
          var next := new Board.Copy(this);
          next.Assign(pos, dig);
          AssignFillsOne(g, pos, dig);
          var found := next.Find(pos);
          assert Branches(g, pos, dig) == found + rest;
          assert (out + found) + rest == out + (found + rest);
          out := out + found;
        } else {
          assert Branches(g, pos, dig) == [] + rest;
        }
      }
      assert out + [] == out;
    }

    /** `Board::print()`: the text written is `Render` of the board. */
    method Print() returns (s: string)
      requires Valid()
      ensures s == Render(cells[..])
    {
      ghost var g: Grid := cells[..];
      s := [];
      for r := 0 to 9
        invariant s == Lines(g, r)
      {
        for c := 0 to 9
          invariant s == Lines(g, r) + RowPrefix(g, r, c)
        {
          var x := cells[At(r, c)];
          if x.digit != 0 {
            s := s + [('0' as int + x.digit) as char];
          } else {
            s := s + "_";
          }
          if c == 2 || c == 5 {
            s := s + " ";
          }
        }
        s := s + "\n";
      }
      s := s + "\n";
    }
  }
}
