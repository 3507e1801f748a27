/** The text side: the board a puzzle text describes (the read loop of
    `main`) and the text `Board::print` writes, as functions on character
    sequences, with their round trip. */
module Text {
  import opened Cells
  import opened Grids

  // ---------------------------------------------------------------------
  // Printing

  /** What `print` writes for one cell: its digit, or `_` while empty. */
  function Symbol(c: Cell): char
    requires c.WellFormed()
  {
    if c.digit != 0 then ('0' as int + c.digit) as char else '_'
  }

  /** One cell of a printed row, followed by a space after columns 2 and 5. */
  function CellText(g: Grid, r: int, c: int): string
    requires WellFormed(g) && 0 <= r < 9 && 0 <= c < 9
  {
    [Symbol(g[At(r, c)])] + (if c == 2 || c == 5 then " " else "")
  }

  /** The first `c` cells of printed row `r`. */
  function RowPrefix(g: Grid, r: int, c: int): string
    requires WellFormed(g) && 0 <= r < 9 && 0 <= c <= 9
  {
    if c == 0 then [] else RowPrefix(g, r, c - 1) + CellText(g, r, c - 1)
  }

  /** Printed row `r`, ended by a newline. */
  function Line(g: Grid, r: int): string
    requires WellFormed(g) && 0 <= r < 9
  {
    RowPrefix(g, r, 9) + "\n"
  }

  /** The first `n` printed rows. */
  function Lines(g: Grid, n: int): string
    requires WellFormed(g) && 0 <= n <= 9
  {
    if n == 0 then [] else Lines(g, n - 1) + Line(g, n - 1)
  }

  /** Everything `print` writes: nine rows, then a blank line. */
  function Render(g: Grid): string
    requires WellFormed(g)
  {
    Lines(g, 9) + "\n"
  }

  /** The spaces `print` has written in a row before cell `c`. */
  function Gaps(c: int): int {
    if c >= 6 then 2 else if c >= 3 then 1 else 0
  }

  /** One printed cell: its symbol and, after columns 2 and 5, a space. */
  lemma CellTextShape(g: Grid, r: int, c: int)
    requires WellFormed(g) && 0 <= r < 9 && 0 <= c < 9
    ensures |CellText(g, r, c)| == 1 + Gaps(c + 1) - Gaps(c)
    ensures CellText(g, r, c)[0] == Symbol(g[9 * r + c])
    ensures |CellText(g, r, c)| == 2 ==> CellText(g, r, c)[1] == ' '
  {
  }

  lemma {:induction false} RowPrefixLength(g: Grid, r: int, c: int)
    requires WellFormed(g) && 0 <= r < 9 && 0 <= c <= 9
    ensures |RowPrefix(g, r, c)| == c + Gaps(c)
  {
    if c > 0 {
      RowPrefixLength(g, r, c - 1);
      CellTextShape(g, r, c - 1);
    }
  }

  /** The symbol of the last cell of a row prefix is its last but one
      character, or its last. */
  lemma RowPrefixLast(g: Grid, r: int, c: int)
    requires WellFormed(g) && 0 <= r < 9 && 0 < c <= 9
    ensures |RowPrefix(g, r, c)| == c + Gaps(c)
    ensures RowPrefix(g, r, c)[c - 1 + Gaps(c - 1)] == Symbol(g[9 * r + c - 1])
  {
    RowPrefixLength(g, r, c - 1);
    CellTextShape(g, r, c - 1);
    var a, b := RowPrefix(g, r, c - 1), CellText(g, r, c - 1);
    assert RowPrefix(g, r, c) == a + b;
    assert (a + b)[|a|] == b[0];
  }

  /** The symbol of cell `k` of a row is character `k + Gaps(k)` of every
      longer prefix of that row. */
  lemma {:induction false} RowPrefixAt(g: Grid, r: int, c: int, k: int)
    requires WellFormed(g) && 0 <= r < 9 && 0 <= k < c <= 9
    ensures |RowPrefix(g, r, c)| == c + Gaps(c)
    ensures RowPrefix(g, r, c)[k + Gaps(k)] == Symbol(g[9 * r + k])
  {
    RowPrefixLength(g, r, c);
    if k == c - 1 {
      RowPrefixLast(g, r, c);
    } else {
      RowPrefixAt(g, r, c - 1, k);
      var a, b := RowPrefix(g, r, c - 1), CellText(g, r, c - 1);
      assert RowPrefix(g, r, c) == a + b;
      var i := k + Gaps(k);
      assert (a + b)[i] == a[i];
    }
  }

  /** Once written, the spaces after cells 2 and 5 are characters 3 and 7. */
  lemma {:induction false} RowPrefixSpaces(g: Grid, r: int, c: int)
    requires WellFormed(g) && 0 <= r < 9 && 0 <= c <= 9
    ensures |RowPrefix(g, r, c)| == c + Gaps(c)
    ensures 3 <= c ==> RowPrefix(g, r, c)[3] == ' '
    ensures 6 <= c ==> RowPrefix(g, r, c)[7] == ' '
  {
    RowPrefixLength(g, r, c);
    if c > 3 {
      RowPrefixSpaces(g, r, c - 1);
      CellTextShape(g, r, c - 1);
      var a, b := RowPrefix(g, r, c - 1), CellText(g, r, c - 1);
      assert RowPrefix(g, r, c) == a + b;
      if c == 6 {
        assert (a + b)[|a| + 1] == b[1];
      } else {
        assert (a + b)[3] == a[3];
        if 6 < c {
          assert (a + b)[7] == a[7];
        }
      }
    } else if c == 3 {
      RowPrefixLength(g, r, 2);
      CellTextShape(g, r, 2);
      var a, b := RowPrefix(g, r, 2), CellText(g, r, 2);
      assert RowPrefix(g, r, 3) == a + b;
      assert (a + b)[|a| + 1] == b[1];
    }
  }

  /** Where the first `c` cells of a row land: the symbol of cell `k` is
      character `k + Gaps(k)`, and the spaces follow cells 2 and 5. */
  lemma RowPrefixShape(g: Grid, r: int, c: int)
    requires WellFormed(g) && 0 <= r < 9 && 0 <= c <= 9
    ensures |RowPrefix(g, r, c)| == c + Gaps(c)
    ensures forall k :: 0 <= k < c ==> RowPrefix(g, r, c)[k + Gaps(k)] == Symbol(g[9 * r + k])
    ensures 3 <= c ==> RowPrefix(g, r, c)[3] == ' '
    ensures 6 <= c ==> RowPrefix(g, r, c)[7] == ' '
  {
    RowPrefixSpaces(g, r, c);
    forall k | 0 <= k < c
      ensures RowPrefix(g, r, c)[k + Gaps(k)] == Symbol(g[9 * r + k])
    {
      RowPrefixAt(g, r, c, k);
    }
  }

  /** Each printed row is twelve characters: the nine symbols in three
      groups of three, a space after the first two groups, and a newline. */
  lemma LineShape(g: Grid, r: int)
    requires WellFormed(g) && 0 <= r < 9
    ensures |Line(g, r)| == 12
    ensures forall k :: 0 <= k < 9 ==> Line(g, r)[k + Gaps(k)] == Symbol(g[9 * r + k])
    ensures Line(g, r)[3] == ' ' && Line(g, r)[7] == ' ' && Line(g, r)[11] == '\n'
  {
    RowPrefixShape(g, r, 9);
    var p := RowPrefix(g, r, 9);
    assert Line(g, r) == p + "\n";
    forall k | 0 <= k < 9
      ensures (p + "\n")[k + Gaps(k)] == Symbol(g[9 * r + k])
    {
      assert (p + "\n")[k + Gaps(k)] == p[k + Gaps(k)];
    }
  }

  lemma {:induction false} LinesShape(g: Grid, n: int)
    requires WellFormed(g) && 0 <= n <= 9
    ensures |Lines(g, n)| == 12 * n
    ensures forall r :: 0 <= r < n ==> Lines(g, n)[12 * r .. 12 * r + 12] == Line(g, r)
  {
    if n > 0 {
      LinesShape(g, n - 1);
      LineShape(g, n - 1);
      var a, b := Lines(g, n - 1), Line(g, n - 1);
      forall r | 0 <= r < n
        ensures (a + b)[12 * r .. 12 * r + 12] == Line(g, r)
      {
        if r < n - 1 {
          assert (a + b)[12 * r .. 12 * r + 12] == a[12 * r .. 12 * r + 12];
        } else {
          assert (a + b)[12 * r .. 12 * r + 12] == b;
        }
      }
    }
  }

  /** The printed board is 109 characters: row `r` occupies characters
      `12 * r` to `12 * r + 11`, and a lone newline ends it. */
  lemma RenderShape(g: Grid)
    requires WellFormed(g)
    ensures |Render(g)| == 109 && Render(g)[108] == '\n'
    ensures forall r :: 0 <= r < 9 ==> Render(g)[12 * r .. 12 * r + 12] == Line(g, r)
  {
    LinesShape(g, 9);
    var a := Lines(g, 9);
    forall r | 0 <= r < 9
      ensures (a + "\n")[12 * r .. 12 * r + 12] == Line(g, r)
    {
      assert (a + "\n")[12 * r .. 12 * r + 12] == a[12 * r .. 12 * r + 12];
    }
  }

  // ---------------------------------------------------------------------
  // Parsing

  datatype ParseError =
    | ZeroDigit(pos: int)   // a '0' read while the counter is below 81
    | BadCount(count: int)  // "Invalid board: " followed by the count

  datatype Result<T> = Ok(value: T) | Err(error: ParseError)

  /** The read loop's state: the board built so far and the counter `pos`. */
  datatype Scanning = Scanning(grid: Grid, count: int)

  /** `isdigit` in the C locale. */
  predicate IsDigit(c: char) {
    '0' <= c <= '9'
  }

  /** The characters the counter advances on. */
  predicate IsMark(c: char) {
    c == '_' || IsDigit(c)
  }

  /** One character of the read loop: `_` advances the counter; a digit
      advances it and, while the counter is below 81, is assigned at the
      counter; anything else is skipped. A `0` below 81 is refused: the source
      would call `assign(pos, 0)`, which its assertion forbids. */
  function Step(st: Result<Scanning>, c: char): Result<Scanning> {
    match st
    case Err(_) => st
    case Ok(Scanning(g, n)) =>
      if c == '_' then Ok(Scanning(g, n + 1))
      else if IsDigit(c) then
        if 0 <= n < 81 then
          if c == '0' then Err(ZeroDigit(n))
          else Ok(Scanning(Assign(g, n, c as int - '0' as int), n + 1))
        else Ok(Scanning(g, n + 1))
      else st
  }

  /** The read loop run over `s` from state `st`. */
  function Feed(st: Result<Scanning>, s: string): Result<Scanning>
    decreases |s|
  {
    if s == [] then st else Feed(Step(st, s[0]), s[1..])
  }

  /** The read loop of `main` from a fresh board, then the final count
      check. */
  function ParseGrid(input: string): Result<Grid> {
    match Feed(Ok(Scanning(Blank(), 0)), input)
    case Err(e) => Err(e)
    case Ok(Scanning(g, n)) => if n == 81 then Ok(g) else Err(BadCount(n))
  }

  /** The characters of `s` that advance the counter, in order. */
  function Marks(s: string): string {
    if s == [] then [] else (if IsMark(s[0]) then [s[0]] else []) + Marks(s[1..])
  }

  /** The digit a mark stands for, 0 for `_`. */
  function MarkValue(c: char): int {
    if IsDigit(c) then c as int - '0' as int else 0
  }

  lemma {:induction false} MarksAppend(a: string, b: string)
    ensures Marks(a + b) == Marks(a) + Marks(b)
  {
    if a != [] {
      assert a + b != [] && (a + b)[0] == a[0] && (a + b)[1..] == a[1..] + b;
      MarksAppend(a[1..], b);
      var h := if IsMark(a[0]) then [a[0]] else [];
      calc {
        Marks(a + b);
        h + Marks(a[1..] + b);
        h + (Marks(a[1..]) + Marks(b));
        (h + Marks(a[1..])) + Marks(b);
        Marks(a) + Marks(b);
      }
    } else {
      assert a + b == b;
    }
  }

  /** How the first character of `s` contributes to its marks. */
  lemma MarksCons(s: string)
    requires s != []
    ensures IsMark(s[0]) ==> Marks(s) == [s[0]] + Marks(s[1..])
    ensures !IsMark(s[0]) ==> Marks(s) == Marks(s[1..])
  {
    if !IsMark(s[0]) {
      assert Marks(s) == [] + Marks(s[1..]);
    }
  }

  lemma {:induction false} FeedAppend(st: Result<Scanning>, a: string, b: string)
    ensures Feed(st, a + b) == Feed(Feed(st, a), b)
    decreases |a|
  {
    if a != [] {
      assert a + b != [] && (a + b)[0] == a[0] && (a + b)[1..] == a[1..] + b;
      FeedAppend(Step(st, a[0]), a[1..], b);
    } else {
      assert a + b == b;
    }
  }

  lemma {:induction false} FeedErr(e: ParseError, s: string)
    ensures Feed(Err(e), s) == Err(e)
    decreases |s|
  {
    if s != [] {
      FeedErr(e, s[1..]);
    }
  }

  /** The digit cell `p` holds once the marks `m` have been read from
      counter `n` on, starting from board `g`. */
  function Placed(g: Grid, n: int, m: string, p: int): int
    requires 0 <= p < 81
  {
    if n <= p < n + |m| && m[p - n] != '_' then MarkValue(m[p - n]) else g[p].digit
  }

  /** Reading one more mark `c` before `m'`: cell `n` takes `c`'s digit
      unless `c` is `_`, and every other cell is placed as before. */
  lemma PlacedCons(g: Grid, g': Grid, n: int, c: char, m': string, p: int)
    requires 0 <= n && 0 <= p < 81 && IsMark(c)
    requires g'[p].digit == if p == n && c != '_' then MarkValue(c) else g[p].digit
    ensures Placed(g', n + 1, m', p) == Placed(g, n, [c] + m', p)
  {
    var m := [c] + m';
    if p == n {
      assert m[0] == c;
    } else if n < p < n + |m| {
      assert m[p - n] == m'[p - (n + 1)];
    }
  }

  /** The read loop with no `0` among the marks it assigns: it counts every
      mark, and each cell from the counter on gets the digit of the mark
      read at its position (a `_` leaves the cell as it was); cells beyond
      position 80 are never written. */
  lemma {:induction false} FeedDigits(g: Grid, n: int, s: string)
    requires 0 <= n
    requires forall k :: 0 <= k < |Marks(s)| && n + k < 81 ==> Marks(s)[k] != '0'
    ensures Feed(Ok(Scanning(g, n)), s).Ok?
    ensures Feed(Ok(Scanning(g, n)), s).value.count == n + |Marks(s)|
    ensures forall p :: 0 <= p < 81 ==>
      Feed(Ok(Scanning(g, n)), s).value.grid[p].digit == Placed(g, n, Marks(s), p)
    decreases |s|
  {
    if s != [] {
      var c, rest := s[0], s[1..];
      var m' := Marks(rest);
      MarksCons(s);
      if !IsMark(c) {
        FeedDigits(g, n, rest);
      } else {
        var m := [c] + m';
        assert Marks(s) == m;
        forall k | 0 <= k < |m'| && n + 1 + k < 81
          ensures m'[k] != '0'
        {
          assert m[k + 1] == m'[k];
        }
        assert m[0] == c;
        var g' := if c != '_' && n < 81 then Assign(g, n, MarkValue(c)) else g;
        assert Step(Ok(Scanning(g, n)), c) == Ok(Scanning(g', n + 1));
        FeedDigits(g', n + 1, rest);
        forall p | 0 <= p < 81
          ensures Placed(g', n + 1, m', p) == Placed(g, n, m, p)
        {
          if c != '_' && n < 81 {
            AssignAt(g, n, MarkValue(c), p);
          }
          PlacedCons(g, g', n, c, m', p);
        }
      }
    }
  }

  /** The first `0` among the first 81 marks stops the read loop with an
      error at its position. */
  lemma {:induction false} FeedZero(g: Grid, n: int, s: string, k: int)
    requires 0 <= n && 0 <= k < |Marks(s)| && n + k < 81 && Marks(s)[k] == '0'
    requires forall j :: 0 <= j < k ==> Marks(s)[j] != '0'
    ensures Feed(Ok(Scanning(g, n)), s) == Err(ZeroDigit(n + k))
    decreases |s|
  {
    var c, rest := s[0], s[1..];
    var m, m' := Marks(s), Marks(rest);
    MarksCons(s);
    if IsMark(c) && c != '0' {
      assert m[0] == c && 0 < k;
      assert m'[k - 1] == m[k];
      forall j | 0 <= j < k - 1
        ensures m'[j] != '0'
      {
        assert m'[j] == m[j + 1];
      }
    }
    if c == '_' {
      FeedZero(g, n + 1, rest, k - 1);
    } else if IsDigit(c) {
      if c == '0' {
        assert m[0] == c && k == 0;
        FeedErr(ZeroDigit(n), rest);
      } else {
        FeedZero(Assign(g, n, c as int - '0' as int), n + 1, rest, k - 1);
      }
    } else {
      FeedZero(g, n, rest, k);
    }
  }

  /** The parser's contract: with no `0` among the first 81 marks, the input
      is accepted exactly when it has 81 marks, the board then holds the
      digit of the `p`-th mark at cell `p`, and otherwise the error is the
      final count. */
  lemma ParseDigits(input: string)
    requires forall k :: 0 <= k < |Marks(input)| && k < 81 ==> Marks(input)[k] != '0'
    ensures ParseGrid(input).Ok? <==> |Marks(input)| == 81
    ensures |Marks(input)| != 81 ==> ParseGrid(input) == Err(BadCount(|Marks(input)|))
    ensures ParseGrid(input).Ok? ==>
      forall p :: 0 <= p < 81 ==> ParseGrid(input).value[p].digit == MarkValue(Marks(input)[p])
  {
    FeedDigits(Blank(), 0, input);
    forall p | 0 <= p < 81
      ensures Placed(Blank(), 0, Marks(input), p) == if p < |Marks(input)| then MarkValue(Marks(input)[p]) else 0
    {
    }
  }

  /** A `0` among the first 81 marks makes the parser fail at the first
      such position. */
  lemma ParseRejectsZero(input: string, k: int)
    requires 0 <= k < |Marks(input)| && k < 81 && Marks(input)[k] == '0'
    requires forall j :: 0 <= j < k ==> Marks(input)[j] != '0'
    ensures ParseGrid(input) == Err(ZeroDigit(k))
  {
    FeedZero(Blank(), 0, input, k);
  }

  /** What holds of the board at every point of the read loop: cells are
      well-formed, masks exclude the digits peers hold and miss a digit only
      because a unit-mate holds it, and no cell from the counter on has been
      written. */
  predicate Building(g: Grid, n: int) {
    WellFormed(g) && MasksExclude(g) && MasksJustified(g) &&
    forall p :: 0 <= p < 81 && n <= p ==> g[p].digit == 0
  }

  /** One digit assigned at the counter keeps the read loop's invariant,
      with the counter advanced. */
  lemma AssignBuilding(g: Grid, n: int, dig: int)
    requires 0 <= n < 81 && 1 <= dig <= 9 && Building(g, n)
    ensures Building(Assign(g, n, dig), n + 1)
  {
    AssignEffect(g, n, dig);
    AssignWellFormed(g, n, dig);
    AssignKeepsExclusion(g, n, dig);
    AssignKeepsJustified(g, n, dig);
  }

  lemma {:induction false} FeedBuilding(g: Grid, n: int, s: string)
    requires 0 <= n && Building(g, n)
    ensures Feed(Ok(Scanning(g, n)), s).Ok? ==>
      Building(Feed(Ok(Scanning(g, n)), s).value.grid, Feed(Ok(Scanning(g, n)), s).value.count)
    decreases |s|
  {
    if s != [] {
      var c, rest := s[0], s[1..];
      var st := Step(Ok(Scanning(g, n)), c);
      assert Feed(Ok(Scanning(g, n)), s) == Feed(st, rest);
      if c == '_' {
        assert st == Ok(Scanning(g, n + 1));
        FeedBuilding(g, n + 1, rest);
      } else if !IsDigit(c) {
        assert st == Ok(Scanning(g, n));
        FeedBuilding(g, n, rest);
      } else if 81 <= n {
        assert st == Ok(Scanning(g, n + 1));
        FeedBuilding(g, n + 1, rest);
      } else if c == '0' {
        assert st == Err(ZeroDigit(n));
        FeedErr(ZeroDigit(n), rest);
      } else {
        var dig := c as int - '0' as int;
        assert st == Ok(Scanning(Assign(g, n, dig), n + 1));
        AssignBuilding(g, n, dig);
        FeedBuilding(Assign(g, n, dig), n + 1, rest);
      }
    }
  }

  /** Any board the parser accepts, whatever its digits, has well-formed
      cells, masks that exclude every peer's digit, and masks that miss a
      digit only where a unit-mate holds it. */
  lemma ParsedMasks(input: string)
    requires ParseGrid(input).Ok?
    ensures WellFormed(ParseGrid(input).value)
    ensures MasksExclude(ParseGrid(input).value)
    ensures MasksJustified(ParseGrid(input).value)
  {
    var b := Blank();
    forall i, d | 0 <= i < 81 && 1 <= d <= 9
      ensures b[i].Has(d)
    {
    }
    assert Building(b, 0);
    FeedBuilding(b, 0, input);
  }

  // ---------------------------------------------------------------------
  // Round trip

  /** A mark followed by a space, or alone, leaves just the mark. */
  lemma MarkThenSpace(x: char)
    requires IsMark(x)
    ensures Marks([x]) == [x] && Marks([x, ' ']) == [x]
  {
    assert Marks([' ']) == [] + Marks([]);
    assert Marks([x, ' ']) == [x] + Marks([' ']);
  }

  /** A digit or `_` counts as a mark; the spaces `print` adds do not. */
  lemma CellTextMarks(g: Grid, r: int, c: int)
    requires WellFormed(g) && 0 <= r < 9 && 0 <= c < 9
    ensures Marks(CellText(g, r, c)) == [Symbol(g[9 * r + c])]
  {
    var x := Symbol(g[9 * r + c]);
    assert IsMark(x);
    MarkThenSpace(x);
    assert CellText(g, r, c) == if c == 2 || c == 5 then [x, ' '] else [x];
  }

  /** The marks of a row's first `c` cells are their symbols. */
  lemma {:induction false} RowPrefixMarks(g: Grid, r: int, c: int)
    requires WellFormed(g) && 0 <= r < 9 && 0 <= c <= 9
    ensures |Marks(RowPrefix(g, r, c))| == c
    ensures forall k :: 0 <= k < c ==> Marks(RowPrefix(g, r, c))[k] == Symbol(g[9 * r + k])
  {
    if c > 0 {
      RowPrefixMarks(g, r, c - 1);
      var a, b := RowPrefix(g, r, c - 1), CellText(g, r, c - 1);
      MarksAppend(a, b);
      CellTextMarks(g, r, c - 1);
      var m := Marks(a);
      var m' := m + [Symbol(g[9 * r + c - 1])];
      assert Marks(RowPrefix(g, r, c)) == m';
      forall k | 0 <= k < c - 1
        ensures m'[k] == Symbol(g[9 * r + k])
      {
        assert m'[k] == m[k];
      }
    }
  }

  /** The marks of the first `n` printed rows are their cells' symbols in
      row-major order. */
  lemma {:induction false} LinesMarks(g: Grid, n: int)
    requires WellFormed(g) && 0 <= n <= 9
    ensures |Marks(Lines(g, n))| == 9 * n
    ensures forall p :: 0 <= p < 9 * n ==> Marks(Lines(g, n))[p] == Symbol(g[p])
  {
    if n > 0 {
      LinesMarks(g, n - 1);
      RowPrefixMarks(g, n - 1, 9);
      MarksAppend(Lines(g, n - 1), Line(g, n - 1));
      MarksAppend(RowPrefix(g, n - 1, 9), "\n");
      assert Marks("\n") == [];
      var a, b := Marks(Lines(g, n - 1)), Marks(RowPrefix(g, n - 1, 9));
      assert Marks(Lines(g, n)) == a + b;
      forall p | 0 <= p < 9 * n
        ensures (a + b)[p] == Symbol(g[p])
      {
        if p < 9 * (n - 1) {
          assert (a + b)[p] == a[p];
        } else {
          var k := p - 9 * (n - 1);
          assert (a + b)[p] == b[k];
          assert 9 * (n - 1) + k == p;
        }
      }
    }
  }

  /** The marks of the printed board are its 81 cells' symbols in order. */
  lemma RenderMarks(g: Grid)
    requires WellFormed(g)
    ensures |Marks(Render(g))| == 81
    ensures forall p :: 0 <= p < 81 ==> Marks(Render(g))[p] == Symbol(g[p])
  {
    LinesMarks(g, 9);
    MarksAppend(Lines(g, 9), "\n");
    assert Marks("\n") == [];
    assert Marks(Render(g)) == Marks(Lines(g, 9)) + [];
  }

  /** Parsing what `print` wrote gives back every cell's digit (the masks
      may differ). */
  lemma RoundTrip(g: Grid)
    requires WellFormed(g)
    ensures ParseGrid(Render(g)).Ok?
    ensures Digits(ParseGrid(Render(g)).value) == Digits(g)
  {
    var text := Render(g);
    RenderMarks(g);
    ParseDigits(text);
    var h := ParseGrid(text).value;
    forall p | 0 <= p < 81
      ensures h[p].digit == g[p].digit
    {
      assert Marks(text)[p] == Symbol(g[p]);
    }
  }
}
