/** The location helpers `getRow` and `getCol`: a cell number is mapped to
    a 1-based row and column by membership tests on the first two rows
    (columns); everything else falls through to 3. */
module Location {

  function GetRow(i: int): (row: int)
    ensures 1 <= row <= 3
    ensures 0 <= i < 9 ==> row == i / 3 + 1
    ensures !(0 <= i <= 5) ==> row == 3
  {
    if i in [0, 1, 2] then 1
    else if i in [3, 4, 5] then 2
    else 3
  }

  function GetCol(i: int): (col: int)
    ensures 1 <= col <= 3
    ensures 0 <= i < 9 ==> col == i % 3 + 1
    ensures !(i in {0, 1, 3, 4, 6, 7}) ==> col == 3
  {
    if i in [0, 3, 6] then 1
    else if i in [1, 4, 7] then 2
    else 3
  }

  /** Row and column together name exactly one cell: the cell is recovered
      from them in row-major order. */
  lemma LocationRecoversCell(i: int)
    requires 0 <= i < 9
    ensures (GetRow(i) - 1) * 3 + (GetCol(i) - 1) == i
  {
  }

  /** Two different cells are reported at different locations. */
  lemma LocationInjective(i: int, j: int)
    requires 0 <= i < 9 && 0 <= j < 9
    requires GetRow(i) == GetRow(j) && GetCol(i) == GetCol(j)
    ensures i == j
  {
    LocationRecoversCell(i);
    LocationRecoversCell(j);
  }
}
