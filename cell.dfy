/** One grid position: the digit placed there (0 while empty) and the set of
    digits that may still be placed there, kept as bits 1..9 of an unsigned
    word. Only bits 1..9 are ever set or tested, so the word is modelled by
    its low ten bits. */
module Cells {

  /** The bit that stands for digit `dig` in a candidate mask. */
  function Bit(dig: int): bv10
    requires 1 <= dig <= 9
  {
    (1 as bv10) << dig
  }

  /** Bits 1..9 set, every other bit clear. */
  const FullMask: bv10 := 0x3FE

  datatype Cell = Cell(digit: int, mask: bv10) {

    /** `assignable()`: some candidate is left. */
    predicate Any() {
      mask != 0
    }

    /** `assignable(dig)`: `dig` is still a candidate. */
    predicate Has(dig: int)
      requires 1 <= dig <= 9
    {
      mask & Bit(dig) != 0
    }

    /** `cant_assign(dig)`: strike `dig` from the candidates. The digit in
        the cell is not consulted, so an assigned cell is struck as well. */
    function CantAssign(dig: int): (c: Cell)
      requires 1 <= dig <= 9
      ensures c.digit == digit
      ensures !c.Has(dig)
    {
      Cell(digit, mask & !Bit(dig))
    }

    /** The state every reachable cell is in: a digit 0..9 and no candidate
        bit outside 1..9. */
    predicate WellFormed() {
      0 <= digit <= 9 && mask & !FullMask == 0
    }
  }

  /** The default constructor `Cell()`. */
  function NewCell(): (c: Cell)
    ensures c.digit == 0 && c.WellFormed()
    ensures forall d :: 1 <= d <= 9 ==> c.Has(d)
  {
    Cell(0, (1 << 9) | (1 << 8) | (1 << 7) | (1 << 6) | (1 << 5) | (1 << 4) | (1 << 3) | (1 << 2) | (1 << 1))
  }

  /** A fresh cell's mask is exactly bits 1..9. */
  lemma NewCellMask()
    ensures NewCell().mask == FullMask
  {
  }

  /** For a well-formed cell, `assignable()` holds exactly when some digit
      1..9 is a candidate. */
  lemma AnyIffSomeCandidate(c: Cell)
    requires c.WellFormed()
    ensures c.Any() <==> exists d :: 1 <= d <= 9 && c.Has(d)
  {
    if c.Any() {
      var m := c.mask;
      if m & Bit(1) != 0 { assert c.Has(1); }
      else if m & Bit(2) != 0 { assert c.Has(2); }
      else if m & Bit(3) != 0 { assert c.Has(3); }
      else if m & Bit(4) != 0 { assert c.Has(4); }
      else if m & Bit(5) != 0 { assert c.Has(5); }
      else if m & Bit(6) != 0 { assert c.Has(6); }
      else if m & Bit(7) != 0 { assert c.Has(7); }
      else if m & Bit(8) != 0 { assert c.Has(8); }
      else { assert c.Has(9); }
    }
  }

  /** Striking `dig` leaves every other digit's candidacy as it was. */
  lemma CantAssignKeepsOthers(c: Cell, dig: int, e: int)
    requires 1 <= dig <= 9 && 1 <= e <= 9 && e != dig
    ensures c.CantAssign(dig).Has(e) <==> c.Has(e)
  {
    BitsDisjoint(dig, e);
    ClearOther(c.mask, Bit(dig), Bit(e));
  }

  /** Distinct digits have distinct bits. */
  lemma BitsDisjoint(d: int, e: int)
    requires 1 <= d <= 9 && 1 <= e <= 9 && d != e
    ensures Bit(d) & Bit(e) == 0
  {
  }

  lemma ClearOther(m: bv10, a: bv10, b: bv10)
    requires a & b == 0
    ensures m & !a & b == m & b
  {
  }

  /** Striking `dig` changes no bit of the mask but the bit of `dig`. */
  lemma CantAssignOnlyClears(c: Cell, dig: int)
    requires 1 <= dig <= 9
    ensures c.CantAssign(dig).mask | Bit(dig) == c.mask | Bit(dig)
  {
    ClearThenSet(c.mask, Bit(dig));
  }

  lemma ClearThenSet(m: bv10, b: bv10)
    ensures (m & !b) | b == m | b
  {
  }

  /** Striking a digit twice is the same as striking it once. */
  lemma CantAssignIdempotent(c: Cell, dig: int)
    requires 1 <= dig <= 9
    ensures c.CantAssign(dig).CantAssign(dig) == c.CantAssign(dig)
  {
  }

  /** Striking is unconditional: an assigned cell that still lists `dig`
      loses it too, and keeps its digit. */
  lemma CantAssignIgnoresAssigned(c: Cell, dig: int)
    requires 1 <= dig <= 9 && c.digit != 0 && c.Has(dig)
    ensures c.CantAssign(dig) != c && c.CantAssign(dig).digit == c.digit
  {
  }

  /** Striking never adds a candidate and keeps the cell well-formed. */
  lemma CantAssignShrinks(c: Cell, dig: int)
    requires 1 <= dig <= 9
    ensures c.CantAssign(dig).mask & !c.mask == 0
    ensures c.WellFormed() ==> c.CantAssign(dig).WellFormed()
  {
  }
}
