/** `main`: read the puzzle into a fresh board, refuse a bad count, then
    `find(0)`. The input stream is a parameter and the printed boards are
    returned; what the whole program computes is `Solutions`, and what that
    is, is proved here. */
module Solver {
  import opened Cells
  import opened Grids
  import opened Search
  import opened Text
  import opened Boards

  /** The boards the program emits for `input`, or the reason it stops. */
  function Solutions(input: string): Result<seq<Grid>> {
    match ParseGrid(input)
    case Err(e) => Err(e)
    case Ok(g) => Ok(Enumerate(g, 0))
  }

  /** The read loop of `main` on a `Board`, with the final count check. */
  method Parse(input: string) returns (r: Result<Board>)
    ensures r.Ok? <==> ParseGrid(input).Ok?
    ensures r.Ok? ==> fresh(r.value.cells) && r.value.Valid() && r.value.cells[..] == ParseGrid(input).value
    ensures r.Err? ==> r.error == ParseGrid(input).error
  {
    var b := new Board();
    var pos := 0;
    for i := 0 to |input|
      invariant 0 <= pos && b.Valid() && fresh(b.cells)
      invariant Feed(Ok(Scanning(b.cells[..], pos)), input[i..]) == Feed(Ok(Scanning(Blank(), 0)), input)
    {
      var c := input[i];
      assert input[i..][0] == c && input[i..][1..] == input[i + 1..];
      if c == '_' {
        pos := pos + 1;
      } else if IsDigit(c) {
        if pos < 81 {
          if c == '0' {
            FeedErr(ZeroDigit(pos), input[i + 1..]);
            return Err(ZeroDigit(pos));
          }
          b.Assign(pos, c as int - '0' as int);
        }
        pos := pos + 1;
      }
    }
    if pos != 81 {
      return Err(BadCount(pos));
    }
    return Ok(b);
  }

  /** The whole program: parse, then `find(0)` on the parsed board. */
  method Run(input: string) returns (r: Result<seq<Grid>>)
    ensures r == Solutions(input)
  {
    var parsed := Parse(input);
    match parsed
    case Err(e) =>
      r := Err(e);
    case Ok(b) =>
      var found := b.Find(0);
      r := Ok(found);
  }

  /** The program on a puzzle whose givens clash nowhere: every board it
      prints is a completed Sudoku keeping every given; every completed
      Sudoku keeping every given is printed; and they come in strictly
      increasing row-major order, so none twice. */
  lemma SolutionsCorrect(input: string)
    requires ParseGrid(input).Ok? && NoDuplicates(ParseGrid(input).value)
    ensures Solutions(input).Ok?
    ensures forall s: Grid :: s in Solutions(input).value ==>
      Solution(s) && Keeps(ParseGrid(input).value, s)
    ensures forall h: Grid :: Solution(h) && Keeps(ParseGrid(input).value, h) ==>
      exists s :: s in Solutions(input).value && Digits(s) == Digits(h)
    ensures StrictlyIncreasing(Solutions(input).value)
  {
    var g := ParseGrid(input).value;
    ParsedMasks(input);
    EnumerateCompletes(g, 0);
    EnumerateIncreasing(g, 0);
    forall s: Grid | s in Enumerate(g, 0)
      ensures Solution(s) && Keeps(g, s)
    {
      assert Completes(g, s, 0) && Consistent(s);
    }
    forall h: Grid | Solution(h) && Keeps(g, h)
      ensures exists s :: s in Enumerate(g, 0) && Digits(s) == Digits(h)
    {
      GivensAdmit(g, h);
      EnumerateFinds(g, 0, h);
    }
  }

  /** `h` keeps every digit placed in `g`. */
  predicate Keeps(g: Grid, h: Grid) {
    forall i :: 0 <= i < 81 && g[i].digit != 0 ==> h[i].digit == g[i].digit
  }

  /** A completed Sudoku that keeps the givens is admitted by the masks the
      read loop left: a digit can be missing from an empty cell's mask only
      because a unit-mate holds it, and that unit-mate's digit is kept. */
  lemma GivensAdmit(g: Grid, h: Grid)
    requires MasksJustified(g) && Solution(h) && Keeps(g, h)
    ensures Admits(g, h, 0)
  {
    forall i | 0 <= i < 81 && g[i].digit == 0 && 1 <= h[i].digit <= 9
      ensures g[i].Has(h[i].digit)
    {
      var d := h[i].digit;
      if !g[i].Has(d) {
        assert Taken(g, i, d);
        var q :| 0 <= q < 81 && InUnit(i, q) && g[q].digit == d;
        assert Peer(i, q);
        assert false;
      }
    }
  }

  /** With clashing givens nothing emitted is a Sudoku: `find` never
      revisits a given, so the clash survives into every board it prints. */
  lemma ClashingGivens(input: string, p: int, q: int)
    requires ParseGrid(input).Ok?
    requires 0 <= p < 81 && 0 <= q < 81 && Peer(p, q)
    requires ParseGrid(input).value[p].digit != 0
    requires ParseGrid(input).value[p].digit == ParseGrid(input).value[q].digit
    ensures forall s: Grid :: s in Solutions(input).value ==> !Solution(s)
  {
    var g := ParseGrid(input).value;
    EnumerateCompletes(g, 0);
    forall s: Grid | s in Enumerate(g, 0)
      ensures !Solution(s)
    {
      assert Completes(g, s, 0);
      assert s[p].digit == s[q].digit;
    }
  }
}
