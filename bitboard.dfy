/**
 * The 10 x 5 puzzle board packed into a 64-bit word. Cell (x, y) is bit
 * y * 11 + x, so every row is followed by one unused margin bit that catches a
 * cell shifted off the right edge; bit 63 is a sentinel that marks a board
 * shifted off the bottom edge as invalid.
 */
module BitBoard {
  import opened Bits
  import opened Wrappers

  const X_SIZE: int := 10
  const Y_SIZE: int := 5
  /** X_SIZE + 1: each row is followed by one margin bit. */
  const Y_SHIFT: int := 11
  /** A bit outside the board; setting it makes a board invalid. */
  const INVALID_BIT: Word := {63}

  /** The coordinates that `checkRange` accepts. */
  predicate InRange(x: int, y: int)
  {
    0 <= x < X_SIZE && 0 <= y < Y_SIZE
  }

  /** The bit position of cell (x, y). */
  function Index(x: int, y: int): (i: Bit)
    requires InRange(x, y)
  {
    y * Y_SHIFT + x
  }

  /** Cell (x', y') comes before cell (x, y) in row-major order. */
  predicate Before(x': int, y': int, x: int, y: int)
  {
    y' < y || (y' == y && x' < x)
  }

  // The arithmetic facts about bit positions, each proved once.

  /** Distinct cells have distinct bits. */
  lemma IndexInjective(x: int, y: int, x': int, y': int)
    requires InRange(x, y) && InRange(x', y')
    ensures Index(x, y) == Index(x', y') <==> x == x' && y == y'
  {
  }

  /** Row-major order of the cells is the order of their bits. */
  lemma IndexOrder(x': int, y': int, x: int, y: int)
    requires InRange(x', y') && InRange(x, y)
    ensures Before(x', y', x, y) <==> Index(x', y') < Index(x, y)
  {
  }

  /** Division by the row length recovers the coordinates of a cell. */
  lemma IndexCoordinates(x: int, y: int)
    requires InRange(x, y)
    ensures Index(x, y) % Y_SHIFT == x && Index(x, y) / Y_SHIFT == y
  {
  }

  /** The margin bit at the end of each row, and everything above the last cell, are not cells. */
  lemma NotACell(x: int, y: int, i: Bit)
    requires InRange(x, y)
    requires (exists r | 0 <= r <= Y_SIZE :: i == r * Y_SHIFT - 1) || Index(X_SIZE - 1, Y_SIZE - 1) < i
    ensures Index(x, y) != i
  {
  }

  /** The cells of rows r with lo <= r < hi. */
  function Rows(lo: int, hi: int): Word
  {
    set x, y | 0 <= x < X_SIZE && 0 <= y < Y_SIZE && lo <= y < hi :: Index(x, y)
  }

  /** Adjacent bands of rows join. */
  lemma RowsJoin(lo: int, mid: int, hi: int)
    requires lo <= mid <= hi
    ensures Rows(lo, mid) + Rows(mid, hi) == Rows(lo, hi)
  {
    forall i | i in Rows(lo, hi)
      ensures i in Rows(lo, mid) + Rows(mid, hi)
    {
      var x, y :| 0 <= x < X_SIZE && 0 <= y < Y_SIZE && lo <= y < hi && i == Index(x, y);
      if y < mid {
        assert i in Rows(lo, mid);
      } else {
        assert i in Rows(mid, hi);
      }
    }
  }

  /** The cells of column x of rows r < n. */
  function ColumnPart(x: int, n: int): Word
  {
    set x', y | 0 <= x' < X_SIZE && 0 <= y < Y_SIZE && x' == x && y < n :: Index(x', y)
  }

  // The masks that the static initializer computes.
  const FIRST_ROW: Word := Rows(0, 1)
  const LAST_ROW: Word := Rows(Y_SIZE - 1, Y_SIZE)
  const LAST_COLUMN: Word := ColumnPart(X_SIZE - 1, Y_SIZE)
  const FULL_BOARD: Word := Rows(0, Y_SIZE)

  /** The cells of row y left of column n. */
  function RowPart(y: int, n: int): Word
  {
    set x', y' | 0 <= x' < X_SIZE && 0 <= y' < Y_SIZE && x' < n && y' == y :: Index(x', y')
  }

  /** A row part has one cell per column. */
  lemma {:induction false} RowPartSize(y: int, n: nat)
    requires 0 <= y < Y_SIZE && n <= X_SIZE
    ensures |RowPart(y, n)| == n
  {
    if n > 0 {
      RowPartSize(y, n - 1);
      assert RowPart(y, n) == RowPart(y, n - 1) + {Index(n - 1, y)};
      assert Index(n - 1, y) !in RowPart(y, n - 1);
    }
  }

  /** The first n rows hold n * X_SIZE cells. */
  lemma {:induction false} RowsSize(n: nat)
    requires n <= Y_SIZE
    ensures |Rows(0, n)| == n * X_SIZE
  {
    if n > 0 {
      var k := n - 1;
      RowsSize(k);
      RowsJoin(0, k, n);
      assert Rows(k, n) == RowPart(k, X_SIZE);
      RowPartSize(k, X_SIZE);
      forall i | i in Rows(0, k)
        ensures i !in Rows(k, n)
      {
        var x, y :| 0 <= x < X_SIZE && 0 <= y < k && i == Index(x, y);
      }
      assert Rows(0, k) * Rows(k, n) == {};
    }
  }

  /** The full board has X_SIZE * Y_SIZE cells, the highest one at bit 53. */
  lemma FullBoardSize()
    ensures |FULL_BOARD| == X_SIZE * Y_SIZE
    ensures Index(X_SIZE - 1, Y_SIZE - 1) == 53 && 53 in FULL_BOARD
    ensures forall i | i in FULL_BOARD :: i <= 53
  {
    RowsSize(Y_SIZE);
  }

  /** Ten bits above the board are free: `Long.numberOfLeadingZeros(FULL_BOARD)` is 10. */
  lemma FullBoardLeadingZeros()
    ensures LeadingZeros(FULL_BOARD) == 10
  {
    FullBoardSize();
  }

  /** A board within the full board has at most X_SIZE * Y_SIZE cells. */
  lemma ValidSize(b: Word)
    requires Valid(b)
    ensures |b| <= X_SIZE * Y_SIZE
  {
    ValidIsSubset(b);
    FullBoardSize();
    assert FULL_BOARD == b + (FULL_BOARD - b);
  }

  /** Row y of the board is the first row shifted down by y rows. */
  lemma ShiftedFirstRow(y: int)
    requires 0 <= y < Y_SIZE
    ensures ShiftLeft(FIRST_ROW, y * Y_SHIFT) == Rows(y, y + 1)
  {
    forall i: Bit
      ensures i in ShiftLeft(FIRST_ROW, y * Y_SHIFT) <==> i in Rows(y, y + 1)
    {
      if i in Rows(y, y + 1) {
        var x, y' :| 0 <= x < X_SIZE && y' == y && i == Index(x, y');
        assert i - y * Y_SHIFT == Index(x, 0);
      }
      if i in ShiftLeft(FIRST_ROW, y * Y_SHIFT) {
        var x, y' :| 0 <= x < X_SIZE && y' == 0 && i - y * Y_SHIFT == Index(x, y');
        assert i == Index(x, y);
      }
    }
  }

  /** The static initializer: its loops build exactly the four masks. */
  method InitMasks() returns (firstRow: Word, lastRow: Word, lastColumn: Word, fullBoard: Word)
    ensures firstRow == FIRST_ROW && lastRow == LAST_ROW
    ensures lastColumn == LAST_COLUMN && fullBoard == FULL_BOARD
  {
    var board: Word := {};
    for x := 0 to X_SIZE
      invariant board == set x', y | 0 <= x' < X_SIZE && 0 <= y < Y_SIZE && x' < x && y == 0 :: Index(x', y)
    {
      board := board + GetBit(x, 0).value;
    }
    firstRow := board;
    lastRow := ShiftLeft(board, (Y_SIZE - 1) * Y_SHIFT);
    ShiftedFirstRow(Y_SIZE - 1);

    board := {};
    for y := 0 to Y_SIZE
      invariant board == ColumnPart(X_SIZE - 1, y)
    {
      board := board + GetBit(X_SIZE - 1, y).value;
    }
    lastColumn := board;

    board := {};
    for y := 0 to Y_SIZE
      invariant board == Rows(0, y)
    {
      ShiftedFirstRow(y);
      RowsJoin(0, y, y + 1);
      board := board + ShiftLeft(firstRow, y * Y_SHIFT);
    }
    fullBoard := board;
  }

  /** `checkRange` followed by the single bit of the cell. */
  function GetBit(x: int, y: int): (r: Result<Word>)
    ensures r.Ok? <==> InRange(x, y)
    ensures r.Err? ==> r.error == CoordinateOutOfRange(x, y)
  {
    if InRange(x, y) then Ok({Index(x, y)}) else Err(CoordinateOutOfRange(x, y))
  }

  /** `isSet`: whether the cell's bit is set, after the same range check as `GetBit`. */
  function IsSet(b: Word, x: int, y: int): (r: Result<bool>)
    ensures r.Ok? <==> InRange(x, y)
    ensures r.Err? ==> r.error == CoordinateOutOfRange(x, y)
    ensures r.Ok? ==> (r.value <==> Index(x, y) in b)
  {
    var bit :- GetBit(x, y);
    assert b * bit != {} <==> Index(x, y) in b by {
      if b * bit != {} {
        var j :| j in b * bit;
      } else {
        assert Index(x, y) !in b * bit;
      }
    }
    Ok(b * bit != {})
  }

  /** `valid`: no bit outside the board is set. */
  predicate Valid(b: Word)
  {
    b * Complement(FULL_BOARD) == {}
  }

  /** A board is valid exactly when all its bits are cells. */
  lemma ValidIsSubset(b: Word)
    ensures Valid(b) <==> b <= FULL_BOARD
  {
    if !Valid(b) {
      var i :| i in b * Complement(FULL_BOARD);
    } else {
      forall i | i in b
        ensures i in FULL_BOARD
      {
        assert i !in b * Complement(FULL_BOARD);
      }
    }
  }

  /** Cell (x, y) is on the board and set in b. */
  predicate HasCell(b: Word, x: int, y: int)
  {
    InRange(x, y) && Index(x, y) in b
  }

  /** Every bit of a valid board is a cell, whose coordinates this lemma returns. */
  lemma ValidCell(b: Word, i: Bit) returns (x: int, y: int)
    requires Valid(b) && i in b
    ensures HasCell(b, x, y) && Index(x, y) == i
  {
    ValidIsSubset(b);
    x, y :| InRange(x, y) && Index(x, y) == i;
  }

  /** Two valid boards with the same cells are equal. */
  lemma CellsEqual(a: Word, b: Word)
    requires Valid(a) && Valid(b)
    requires forall x, y | InRange(x, y) :: HasCell(a, x, y) <==> HasCell(b, x, y)
    ensures a == b
  {
    forall i: Bit
      ensures i in a <==> i in b
    {
      if i in a {
        var x, y := ValidCell(a, i);
      } else if i in b {
        var x, y := ValidCell(b, i);
      }
    }
  }

  /** A valid board without cells is the empty board. */
  lemma NoCells(b: Word)
    requires Valid(b)
    requires forall x, y | InRange(x, y) :: !HasCell(b, x, y)
    ensures b == {}
  {
    if b != {} {
      var i :| i in b;
      var x, y := ValidCell(b, i);
    }
  }

  /** `getBit` of an in-range cell is a valid board holding exactly that cell. */
  lemma GetBitCell(x: int, y: int)
    requires InRange(x, y)
    ensures |GetBit(x, y).value| == 1 && Valid(GetBit(x, y).value)
    ensures forall x', y' | InRange(x', y') :: HasCell(GetBit(x, y).value, x', y') <==> x' == x && y' == y
  {
    ValidIsSubset(GetBit(x, y).value);
    forall x', y' | InRange(x', y')
      ensures HasCell(GetBit(x, y).value, x', y') <==> x' == x && y' == y
    {
      IndexInjective(x, y, x', y');
    }
  }

  /** `isSet(getBit(x, y), x', y')` holds for the same cell only, and fails out of range. */
  lemma IsSetGetBit(x: int, y: int, x': int, y': int)
    requires InRange(x, y)
    ensures IsSet(GetBit(x, y).value, x', y')
         == if InRange(x', y') then Ok(x' == x && y' == y) else Err(CoordinateOutOfRange(x', y'))
  {
    if InRange(x', y') {
      IndexInjective(x, y, x', y');
    }
  }

  /** A single bit is a valid board exactly when it is a cell: margin bits and the bits above the last cell are not. */
  lemma SingleBitValid(i: Bit)
    ensures Valid({i}) <==> exists x, y | InRange(x, y) :: Index(x, y) == i
    ensures (exists r | 0 <= r <= Y_SIZE :: i == r * Y_SHIFT - 1) || Index(X_SIZE - 1, Y_SIZE - 1) < i ==> !Valid({i})
  {
    ValidIsSubset({i});
    if (exists r | 0 <= r <= Y_SIZE :: i == r * Y_SHIFT - 1) || Index(X_SIZE - 1, Y_SIZE - 1) < i {
      forall x, y | InRange(x, y)
        ensures Index(x, y) != i
      {
        NotACell(x, y, i);
      }
    }
  }

  /** Column x holds a cell of b. */
  predicate ColumnUsed(b: Word, x: int)
  {
    exists y | 0 <= y < Y_SIZE :: HasCell(b, x, y)
  }

  /** Row y holds a cell of b. */
  predicate RowUsed(b: Word, y: int)
  {
    exists x | 0 <= x < X_SIZE :: HasCell(b, x, y)
  }

  /** The columns, numbered as first-row bits, that hold at least one cell of b. */
  function Columns(b: Word): Word
  {
    set x: Bit | x < X_SIZE && ColumnUsed(b, x)
  }

  /** The number of columns from the left edge to the rightmost column holding a cell. */
  function XExtent(b: Word): (n: nat)
    ensures n <= X_SIZE
    ensures forall x, y | HasCell(b, x, y) :: x < n
    ensures n > 0 ==> ColumnUsed(b, n - 1)
  {
    var cols := Columns(b);
    assert forall x, y | HasCell(b, x, y) :: x in cols;
    BitLength(cols)
  }

  /** A width is the extent when every cell lies left of it and the column before it is used. */
  lemma XExtentIs(b: Word, n: nat)
    requires n <= X_SIZE
    requires forall x, y | HasCell(b, x, y) :: x < n
    requires n > 0 ==> ColumnUsed(b, n - 1)
    ensures XExtent(b) == n
  {
  }

  /** Row y of b moved onto the first row, as `b >>> (y * Y_SHIFT)` does. */
  lemma RowToFirstRow(b: Word, y: int)
    requires 0 <= y < Y_SIZE
    ensures forall x: Bit | x < X_SIZE :: x in ShiftRightUnsigned(b, y * Y_SHIFT) <==> HasCell(b, x, y)
  {
  }

  /** The rows of b OR-ed onto the first row, as the loop of `xSize` builds them. */
  function RowsOverlaid(b: Word, n: int): (r: Word)
    requires 0 <= n <= Y_SIZE
    ensures forall x: Bit | x < X_SIZE :: x in r <==> exists y | 0 <= y < n :: HasCell(b, x, y)
  {
    if n == 0 then {}
    else
      RowToFirstRow(b, n - 1);
      RowsOverlaid(b, n - 1) + ShiftRightUnsigned(b, (n - 1) * Y_SHIFT)
  }

  /** `xSize`: the number of columns up to the rightmost one holding a cell, 0 for an empty board. */
  method XSize(b: Word) returns (r: nat)
    ensures r == XExtent(b)
  {
    var acc: Word := {};
    for y := 0 to Y_SIZE
      invariant acc == RowsOverlaid(b, y)
    {
      acc := acc + ShiftRightUnsigned(b, y * Y_SHIFT);
    }
    acc := acc * FIRST_ROW;
    assert acc == Columns(b) by {
      forall i: Bit
        ensures i in acc <==> i in Columns(b)
      {
        if i < X_SIZE {
          assert Index(i, 0) == i;
        }
      }
    }
    r := 64 - LeadingZeros(acc);
  }

  /** Every position splits into a row and a column by division by the row length. */
  lemma DivMod(i: int)
    ensures i == Y_SHIFT * (i / Y_SHIFT) + i % Y_SHIFT && 0 <= i % Y_SHIFT < Y_SHIFT
  {
  }

  /** `ySize`: the number of rows up to the bottom one holding a cell, 0 for an empty board. */
  function YSize(b: Word): (n: nat)
    ensures n <= Y_SIZE + 1
    ensures n == 0 <==> b == {}
    ensures forall x, y | HasCell(b, x, y) :: y < n
    ensures Valid(b) ==> n <= Y_SIZE && (n > 0 ==> RowUsed(b, n - 1))
  {
    var len := BitLength(b);
    var n := (len + Y_SHIFT - 1) / Y_SHIFT;
    assert forall x, y | HasCell(b, x, y) :: y < n by {
      forall x, y | HasCell(b, x, y)
        ensures y < n
      {
        DivMod(len + Y_SHIFT - 1);
      }
    }
    assert Valid(b) ==> n <= Y_SIZE && (n > 0 ==> RowUsed(b, n - 1)) by {
      if Valid(b) && n > 0 {
        var x, y := ValidCell(b, len - 1);
        DivMod(len + Y_SHIFT - 1);
      }
    }
    n
  }

  /** A height is `ySize` when every cell lies above it and the row before it is used. */
  lemma YSizeIs(b: Word, n: nat)
    requires Valid(b) && n <= Y_SIZE
    requires forall x, y | HasCell(b, x, y) :: y < n
    requires n > 0 ==> RowUsed(b, n - 1)
    ensures YSize(b) == n
  {
    if n == 0 {
      NoCells(b);
    }
  }

  /** The extents of the empty board and of a single cell. */
  lemma ExtentsOfGetBit(x: int, y: int)
    requires InRange(x, y)
    ensures XExtent({}) == 0 && YSize({}) == 0
    ensures XExtent(GetBit(x, y).value) == x + 1 && YSize(GetBit(x, y).value) == y + 1
  {
    GetBitCell(x, y);
    var b := GetBit(x, y).value;
    assert HasCell(b, x, y);
    XExtentIs(b, x + 1);
    YSizeIs(b, y + 1);
  }

  /** Bit j of the rotated board comes from cell (x', y') of b, which lies in the first Y_SIZE columns. */
  predicate RotatesTo(b: Word, x': int, y': int, j: int)
  {
    HasCell(b, x', y') && x' < Y_SIZE && y' < YSize(b) && j == Index(YSize(b) - 1 - y', x')
  }

  /** What cell (x, y) of b contributes to the rotated board when `rotateRight` visits it. */
  function RotatedCellAt(b: Word, x: int, y: int): (r: Word)
    ensures forall j :: j in r <==> RotatesTo(b, x, y, j)
  {
    if HasCell(b, x, y) && x < Y_SIZE && y < YSize(b) then {Index(YSize(b) - 1 - y, x)} else {}
  }

  /** The rotated cells of b that come before cell (x, y) in row-major order. */
  function RotatedScan(b: Word, x: int, y: int): Word
    requires 0 <= x <= X_SIZE && 0 <= y <= Y_SIZE
    decreases y, x
  {
    if x > 0 then RotatedScan(b, x - 1, y) + RotatedCellAt(b, x - 1, y)
    else if y > 0 then RotatedScan(b, X_SIZE, y - 1)
    else {}
  }

  /** A bit is in the scan exactly when it comes from a cell before (x, y). */
  lemma {:induction false} RotatedScanMember(b: Word, x: int, y: int, j: int)
    requires 0 <= x <= X_SIZE && 0 <= y <= Y_SIZE
    ensures j in RotatedScan(b, x, y) <==> exists x', y' | Before(x', y', x, y) :: RotatesTo(b, x', y', j)
    decreases y, x
  {
    if x > 0 {
      RotatedScanMember(b, x - 1, y, j);
      if exists x', y' | Before(x', y', x, y) :: RotatesTo(b, x', y', j) {
        var x', y' :| Before(x', y', x, y) && RotatesTo(b, x', y', j);
        if x' != x - 1 || y' != y {
          assert Before(x', y', x - 1, y);
        }
      }
    } else if y > 0 {
      RotatedScanMember(b, X_SIZE, y - 1, j);
      if exists x', y' | Before(x', y', x, y) :: RotatesTo(b, x', y', j) {
        var x', y' :| Before(x', y', x, y) && RotatesTo(b, x', y', j);
        assert Before(x', y', X_SIZE, y - 1);
      }
    }
  }

  /**
   * The board turned a quarter turn clockwise and moved back to the top left:
   * cell (x, y) goes to (ySize - 1 - y, x), for the cells in the first Y_SIZE
   * columns.
   */
  function Rotated(b: Word): Word
  {
    RotatedScan(b, 0, Y_SIZE)
  }

  /** Cell (x, y) of the rotated board comes from cell (y, sy) of the original, sy = ySize - 1 - x. */
  lemma RotatedCell(b: Word, x: int, y: int, sy: int)
    requires InRange(x, y) && sy == YSize(b) - 1 - x
    ensures HasCell(Rotated(b), x, y) <==> 0 <= sy && HasCell(b, y, sy)
  {
    var ys, j := YSize(b), Index(x, y);
    RotatedScanMember(b, 0, Y_SIZE, j);
    if HasCell(Rotated(b), x, y) {
      var x', y' :| Before(x', y', 0, Y_SIZE) && RotatesTo(b, x', y', j);
      IndexInjective(ys - 1 - y', x', x, y);
      assert x' == y && y' == sy;
    }
    if 0 <= sy && HasCell(b, y, sy) {
      assert ys - 1 - sy == x;
      assert RotatesTo(b, y, sy, j);
    }
  }

  /** Every bit of a rotated board is a cell. */
  lemma RotatedBits(b: Word, j: Bit)
    requires j in Rotated(b)
    ensures exists x, y | InRange(x, y) :: j == Index(x, y)
  {
    RotatedScanMember(b, 0, Y_SIZE, j);
    var x', y' :| Before(x', y', 0, Y_SIZE) && RotatesTo(b, x', y', j);
  }

  /** A rotated board is valid, and narrow enough to be rotated again. */
  lemma RotatedFits(b: Word)
    requires Valid(b)
    ensures Valid(Rotated(b)) && XExtent(Rotated(b)) <= Y_SIZE
  {
    var r := Rotated(b);
    forall j | j in r
      ensures j in FULL_BOARD
    {
      RotatedBits(b, j);
    }
    ValidIsSubset(r);
    var n := XExtent(r);
    if n > 0 {
      var y :| 0 <= y < Y_SIZE && HasCell(r, n - 1, y);
      RotatedCell(b, n - 1, y, YSize(b) - n);
    }
  }

  /** Columns of row y from `from` on hold no cell of b, so they add nothing to the scan. */
  lemma {:induction false} RotatedScanRowTail(b: Word, from: int, x: int, y: int)
    requires XExtent(b) <= from <= x <= X_SIZE && 0 <= y < Y_SIZE
    ensures RotatedScan(b, x, y) == RotatedScan(b, from, y)
    decreases x
  {
    if x > from {
      RotatedScanRowTail(b, from, x - 1, y);
      assert !HasCell(b, x - 1, y);
    }
  }

  /** No cell of b outside the first Y_SIZE columns comes before (x, y). */
  ghost predicate NoWideBefore(b: Word, x: int, y: int)
  {
    forall x', y' | HasCell(b, x', y') && Y_SIZE <= x' :: !Before(x', y', x, y)
  }

  /** The cells of b outside the first Y_SIZE columns, which cannot be rotated onto the board. */
  function WideCells(b: Word): Word
  {
    set x, y | 0 <= x < X_SIZE && 0 <= y < Y_SIZE && Y_SIZE <= x && HasCell(b, x, y) :: Index(x, y)
  }

  /**
   * `rotateRight`: the rotated board, or the range error that `getBit` raises
   * at the first cell, in row-major order, whose rotated position would fall
   * below the board.
   */
  function Rotation(b: Word): (r: Result<Word>)
    requires Valid(b)
    ensures r.Ok? <==> XExtent(b) <= Y_SIZE
    ensures r.Ok? ==> Valid(r.value) && XExtent(r.value) <= Y_SIZE
  {
    if XExtent(b) <= Y_SIZE then
      RotatedFits(b);
      Ok(Rotated(b))
    else
      var i := TrailingZeros(WideCells(b));
      Err(CoordinateOutOfRange(YSize(b) - 1 - i / Y_SHIFT, i % Y_SHIFT))
  }

  /** A wide cell's bit is in `WideCells`. */
  lemma WideCellIn(b: Word, x: int, y: int)
    requires HasCell(b, x, y) && Y_SIZE <= x
    ensures Index(x, y) in WideCells(b)
  {
  }

  /** Every bit of `WideCells` is a wide cell, whose coordinates this lemma returns. */
  lemma WideCellAt(b: Word, i: int) returns (x: int, y: int)
    requires i in WideCells(b)
    ensures HasCell(b, x, y) && Y_SIZE <= x && Index(x, y) == i
  {
    x, y :| 0 <= x < X_SIZE && 0 <= y < Y_SIZE && Y_SIZE <= x && HasCell(b, x, y) && i == Index(x, y);
  }

  /** The first wide cell in row-major order decides the error of `rotateRight`. */
  lemma FirstWideCell(b: Word, x: int, y: int)
    requires Valid(b) && HasCell(b, x, y) && Y_SIZE <= x
    requires NoWideBefore(b, x, y)
    ensures Rotation(b) == Err(CoordinateOutOfRange(YSize(b) - 1 - y, x))
  {
    IndexCoordinates(x, y);
    var i := Index(x, y);
    WideCellIn(b, x, y);
    forall j | j in WideCells(b)
      ensures i <= j
    {
      var x', y' := WideCellAt(b, j);
      IndexOrder(x', y', x, y);
    }
    assert TrailingZeros(WideCells(b)) == i;
  }

  /** A board too wide to rotate has a first wide cell, and so an error from `FirstWideCell`. */
  lemma RotationError(b: Word) returns (x: int, y: int)
    requires Valid(b) && XExtent(b) > Y_SIZE
    ensures HasCell(b, x, y) && Y_SIZE <= x && NoWideBefore(b, x, y)
    ensures Rotation(b) == Err(CoordinateOutOfRange(YSize(b) - 1 - y, x))
  {
    var y0 :| 0 <= y0 < Y_SIZE && HasCell(b, XExtent(b) - 1, y0);
    WideCellIn(b, XExtent(b) - 1, y0);
    x, y := WideCellAt(b, TrailingZeros(WideCells(b)));
    forall x', y' | HasCell(b, x', y') && Y_SIZE <= x'
      ensures !Before(x', y', x, y)
    {
      WideCellIn(b, x', y');
      IndexOrder(x', y', x, y);
    }
    FirstWideCell(b, x, y);
  }

  /** Once every row up to the height has been scanned without a wide cell, the scan is the rotation. */
  lemma RotationComplete(b: Word)
    requires Valid(b)
    requires NoWideBefore(b, 0, YSize(b))
    ensures Rotation(b) == Ok(RotatedScan(b, 0, YSize(b)))
  {
    var ys, n := YSize(b), XExtent(b);
    if n > 0 {
      var y0 :| 0 <= y0 < Y_SIZE && HasCell(b, n - 1, y0);
      assert Before(n - 1, y0, 0, ys);
    }
    forall j
      ensures j in RotatedScan(b, 0, ys) <==> j in Rotated(b)
    {
      RotatedScanMember(b, 0, ys, j);
      RotatedScanMember(b, 0, Y_SIZE, j);
      if j in RotatedScan(b, 0, ys) {
        var x', y' :| Before(x', y', 0, ys) && RotatesTo(b, x', y', j);
        assert Before(x', y', 0, Y_SIZE);
      }
      if j in Rotated(b) {
        var x', y' :| Before(x', y', 0, Y_SIZE) && RotatesTo(b, x', y', j);
        assert Before(x', y', 0, ys);
      }
    }
    assert RotatedScan(b, 0, ys) == Rotated(b);
  }

  /**
   * One more cell of the scan: a set cell adds the bit of its turned position
   * (tx, x), tx = ySize - y - 1, and the scan stays free of wide cells.
   */
  lemma RotatedScanNext(b: Word, x: int, y: int, tx: int)
    requires 0 <= x < X_SIZE && 0 <= y < Y_SIZE && tx == YSize(b) - y - 1
    requires NoWideBefore(b, x, y)
    requires HasCell(b, x, y) ==> x < Y_SIZE
    ensures NoWideBefore(b, x + 1, y)
    ensures RotatedScan(b, x + 1, y) == RotatedScan(b, x, y) + (if HasCell(b, x, y) then {Index(tx, x)} else {})
  {
    if HasCell(b, x, y) {
      assert RotatedCellAt(b, x, y) == {Index(tx, x)};
    } else {
      assert RotatedCellAt(b, x, y) == {};
    }
  }

  /** The inner loop of `rotateRight`: the cells of row y, added to the cells turned so far. */
  method RotateRow(b: Word, y: int, xSize: int, ySize: int, board: Word) returns (r: Result<Word>)
    requires Valid(b) && xSize == XExtent(b) && ySize == YSize(b) && 0 <= y < ySize
    requires NoWideBefore(b, 0, y) && board == RotatedScan(b, 0, y)
    ensures r.Ok? ==> NoWideBefore(b, 0, y + 1) && r.value == RotatedScan(b, 0, y + 1)
    ensures r.Err? ==> r == Rotation(b)
  {
    var newBoard := board;
    for x := 0 to xSize
      invariant NoWideBefore(b, x, y)
      invariant newBoard == RotatedScan(b, x, y)
    {
      var isSet := IsSet(b, x, y);
      if isSet.value {
        var bit := GetBit(ySize - y - 1, x);
        if bit.Err? {
          FirstWideCell(b, x, y);
          return Err(bit.error);
        }
        newBoard := newBoard + bit.value;
      }
      RotatedScanNext(b, x, y, ySize - y - 1);
    }
    RotatedScanRowTail(b, xSize, X_SIZE, y);
    r := Ok(newBoard);
  }

  /** `rotateRight`: the loop over the rows up to the height, each row up to the width. */
  method RotateRight(b: Word) returns (r: Result<Word>)
    requires Valid(b)
    ensures r == Rotation(b)
  {
    var newBoard: Word := {};
    var xSize := XSize(b);
    var ySize := YSize(b);
    for y := 0 to ySize
      invariant NoWideBefore(b, 0, y)
      invariant newBoard == RotatedScan(b, 0, y)
    {
      var row := RotateRow(b, y, xSize, ySize, newBoard);
      if row.Err? {
        return row;
      }
      newBoard := row.value;
    }
    RotationComplete(b);
    r := Ok(newBoard);
  }

  /** A board adjusted to the top left: its first column and its first row hold a cell, unless it is empty. */
  ghost predicate TopLeft(b: Word)
  {
    b != {} ==> ColumnUsed(b, 0) && RowUsed(b, 0)
  }

  /** The cells of a rotated board lie within the swapped extents. */
  lemma RotatedWithin(b: Word)
    requires Valid(b)
    ensures forall x, y | HasCell(Rotated(b), x, y) :: x < YSize(b) && y < XExtent(b)
  {
    forall x, y | HasCell(Rotated(b), x, y)
      ensures x < YSize(b) && y < XExtent(b)
    {
      RotatedCell(b, x, y, YSize(b) - 1 - x);
    }
  }

  /** The first row of a top-left board becomes the last column of its turn, its first column the first row. */
  lemma RotatedFirstRowAndColumn(b: Word)
    requires Valid(b) && XExtent(b) <= Y_SIZE && TopLeft(b) && b != {}
    ensures ColumnUsed(Rotated(b), YSize(b) - 1) && RowUsed(Rotated(b), 0)
  {
    var ys := YSize(b);
    var y0 :| 0 <= y0 < Y_SIZE && HasCell(b, 0, y0);
    RotatedCell(b, ys - 1 - y0, 0, y0);
    var x1 :| 0 <= x1 < X_SIZE && HasCell(b, x1, 0);
    RotatedCell(b, ys - 1, x1, 0);
  }

  /** The last row of a board becomes the first column of its turn, its last column the last row. */
  lemma RotatedLastRowAndColumn(b: Word)
    requires Valid(b) && XExtent(b) <= Y_SIZE && b != {}
    ensures ColumnUsed(Rotated(b), 0) && RowUsed(Rotated(b), XExtent(b) - 1)
  {
    var xs, ys := XExtent(b), YSize(b);
    NonEmptyExtents(b);
    var x0 :| 0 <= x0 < X_SIZE && HasCell(b, x0, ys - 1);
    RotatedCell(b, 0, x0, ys - 1);
    var y1 :| 0 <= y1 < Y_SIZE && HasCell(b, xs - 1, y1);
    RotatedCell(b, ys - 1 - y1, xs - 1, y1);
  }

  /** Rotating a top-left board swaps its extents and leaves it at the top left. */
  lemma RotatedTopLeft(b: Word)
    requires Valid(b) && XExtent(b) <= Y_SIZE && TopLeft(b)
    ensures TopLeft(Rotated(b))
    ensures XExtent(Rotated(b)) == YSize(b) && YSize(Rotated(b)) == XExtent(b)
  {
    var r := Rotated(b);
    RotatedFits(b);
    RotatedWithin(b);
    if b == {} {
      NoCells(r);
      XExtentIs(b, 0);
    } else {
      RotatedFirstRowAndColumn(b);
      RotatedLastRowAndColumn(b);
      XExtentIs(r, YSize(b));
      YSizeIs(r, XExtent(b));
    }
  }

  /** Two quarter turns of a top-left board turn it half way round within its extents: (x, y) comes from (x', y'). */
  lemma HalfTurn(b: Word, x: int, y: int, x': int, y': int)
    requires Turnable(b) && InRange(x, y)
    requires x' == XExtent(b) - 1 - x && y' == YSize(b) - 1 - y
    ensures Turnable(Rotated(b))
    ensures XExtent(Rotated(Rotated(b))) == XExtent(b) && YSize(Rotated(Rotated(b))) == YSize(b)
    ensures HasCell(Rotated(Rotated(b)), x, y) <==> x < XExtent(b) && y < YSize(b) && HasCell(b, x', y')
  {
    var r := Rotated(b);
    TurnableRotated(b);
    RotatedTopLeft(r);
    RotatedCell(r, x, y, x');
    if 0 <= x' {
      RotatedCell(b, y, x', y');
    }
  }

  /** A quarter turn of a top-left board that fits is again a top-left board that fits. */
  ghost predicate Turnable(b: Word)
  {
    Valid(b) && XExtent(b) <= Y_SIZE && TopLeft(b)
  }

  lemma TurnableRotated(b: Word)
    requires Turnable(b)
    ensures Turnable(Rotated(b))
    ensures XExtent(Rotated(b)) == YSize(b) && YSize(Rotated(b)) == XExtent(b)
  {
    RotatedFits(b);
    RotatedTopLeft(b);
  }

  /** Each cell is where it started after four quarter turns. */
  lemma FullTurnCell(b: Word, x: int, y: int)
    requires Turnable(b) && InRange(x, y)
    ensures Turnable(Rotated(b)) && Turnable(Rotated(Rotated(b))) && Turnable(Rotated(Rotated(Rotated(b))))
    ensures HasCell(Rotated(Rotated(Rotated(Rotated(b)))), x, y) <==> HasCell(b, x, y)
  {
    TurnableRotated(b);
    TurnableRotated(Rotated(b));
    var r2 := Rotated(Rotated(b));
    var x2, y2 := XExtent(b) - 1 - x, YSize(b) - 1 - y;
    HalfTurn(r2, x, y, x2, y2);
    if x2 >= 0 && y2 >= 0 {
      HalfTurn(b, x2, y2, x, y);
    }
  }

  /** A board that can be turned is turned without error. */
  lemma RotationOk(b: Word)
    requires Turnable(b)
    ensures Rotation(b) == Ok(Rotated(b)) && Turnable(Rotated(b))
  {
    TurnableRotated(b);
  }

  /** Four quarter turns of a top-left board that fits when rotated give back the board. */
  lemma FourQuarterTurns(b: Word)
    requires Turnable(b)
    ensures Turnable(Rotated(b)) && Turnable(Rotated(Rotated(b))) && Turnable(Rotated(Rotated(Rotated(b))))
    ensures Rotated(Rotated(Rotated(Rotated(b)))) == b
  {
    var r4 := Rotated(Rotated(Rotated(Rotated(b))));
    forall x, y | InRange(x, y)
      ensures HasCell(r4, x, y) <==> HasCell(b, x, y)
    {
      FullTurnCell(b, x, y);
    }
    FullTurnCell(b, 0, 0);
    RotatedFits(Rotated(Rotated(Rotated(b))));
    CellsEqual(r4, b);
  }

  /**
   * `generateRotations`: the board followed by its next three quarter turns,
   * or the error of the first turn that fails.
   */
  function GenerateRotations(b: Word): Result<seq<Word>>
    requires Valid(b)
  {
    match Rotation(b)
    case Err(e) => Err(e)
    case Ok(r1) =>
      match Rotation(r1)
      case Err(e) => Err(e)
      case Ok(r2) =>
        match Rotation(r2)
        case Err(e) => Err(e)
        case Ok(r3) => Ok([b, r1, r2, r3])
  }

  /** The rotations exist exactly when the board can be turned once; otherwise the first turn's error is reported. */
  lemma GenerateRotationsResult(b: Word)
    requires Valid(b)
    ensures GenerateRotations(b).Ok? <==> XExtent(b) <= Y_SIZE
    ensures GenerateRotations(b).Err? ==> Rotation(b) == Err(GenerateRotations(b).error)
  {
  }

  /** Four boards: the board itself, and each next one is the quarter turn of the one before. */
  lemma GenerateRotationsSteps(b: Word)
    requires Valid(b) && XExtent(b) <= Y_SIZE
    ensures GenerateRotations(b).Ok?
    ensures |GenerateRotations(b).value| == 4 && GenerateRotations(b).value[0] == b
    ensures forall i | 0 <= i < 3 :: Valid(GenerateRotations(b).value[i])
    ensures forall i | 0 <= i < 3 :: Rotation(GenerateRotations(b).value[i]) == Ok(GenerateRotations(b).value[i + 1])
  {
    var r1 := Rotation(b).value;
    var r2 := Rotation(r1).value;
    var r3 := Rotation(r2).value;
    assert GenerateRotations(b) == Ok([b, r1, r2, r3]);
  }

  /** A quarter turn of a board that has a cell and fits has a cell. */
  lemma RotatedNonEmpty(b: Word)
    requires Valid(b) && b != {} && XExtent(b) <= Y_SIZE
    ensures Rotated(b) != {}
  {
    var i :| i in b;
    var cx, cy := ValidCell(b, i);
    RotatedCell(b, YSize(b) - 1 - cy, cx, cy);
  }

  /** The four rotations of a board with a cell are valid boards with a cell. */
  lemma RotationsNonEmpty(b: Word)
    requires Valid(b) && b != {} && XExtent(b) <= Y_SIZE
    ensures GenerateRotations(b).Ok?
    ensures forall i | 0 <= i < 4 :: Valid(GenerateRotations(b).value[i]) && GenerateRotations(b).value[i] != {}
  {
    var r1 := Rotated(b);
    RotatedFits(b);
    RotatedNonEmpty(b);
    var r2 := Rotated(r1);
    RotatedFits(r1);
    RotatedNonEmpty(r1);
    var r3 := Rotated(r2);
    RotatedFits(r2);
    RotatedNonEmpty(r2);
    var rs := [b, r1, r2, r3];
    assert GenerateRotations(b) == Ok(rs);
    forall i | 0 <= i < 4
      ensures Valid(rs[i]) && rs[i] != {}
    {
      if i == 0 {
      } else if i == 1 {
      } else if i == 2 {
      } else {
        assert rs[i] == r3;
      }
    }
  }

  /** The rotations of a top-left board are top-left boards, and one more turn gives back the board. */
  lemma RotationsCycle(b: Word)
    requires Turnable(b)
    ensures GenerateRotations(b).Ok?
    ensures forall i | 0 <= i < 4 :: Turnable(GenerateRotations(b).value[i])
    ensures Rotation(GenerateRotations(b).value[3]) == Ok(b)
  {
    FourQuarterTurns(b);
    var r1 := Rotated(b);
    var r2 := Rotated(r1);
    var r3 := Rotated(r2);
    RotationOk(b);
    RotationOk(r1);
    RotationOk(r2);
    RotationOk(r3);
    var rs := [b, r1, r2, r3];
    assert GenerateRotations(b) == Ok(rs);
    forall i | 0 <= i < 4
      ensures Turnable(rs[i])
    {
      if i == 0 {
      } else if i == 1 {
      } else if i == 2 {
      } else {
        assert rs[i] == r3;
      }
    }
  }

  /** A bit on a margin or above the last cell is not set in a valid board. */
  lemma NotACellBit(b: Word, i: int)
    requires Valid(b)
    requires (exists r | 0 <= r <= Y_SIZE :: i == r * Y_SHIFT - 1) || Index(X_SIZE - 1, Y_SIZE - 1) < i
    ensures 0 <= i < 64 ==> i !in b
  {
    if 0 <= i < 64 {
      ValidIsSubset(b);
      forall x, y | InRange(x, y)
        ensures Index(x, y) != i
      {
        NotACell(x, y, i);
      }
    }
  }

  /** A valid board that is not empty has a first column and a last row that are used. */
  lemma NonEmptyExtents(b: Word)
    requires Valid(b) && b != {}
    ensures 0 < XExtent(b) && 0 < YSize(b)
    ensures ColumnUsed(b, XExtent(b) - 1) && RowUsed(b, YSize(b) - 1)
  {
    var x :| 0 <= x < X_SIZE && HasCell(b, x, YSize(b) - 1);
  }

  /** `xShift`: the board moved one column to the right. */
  function XShift(b: Word): Word
  {
    ShiftLeft(b, 1)
  }

  /** A cell of the shifted board comes from the cell to its left, sx = x - 1; nothing enters column 0. */
  lemma XShiftCell(b: Word, x: int, y: int, sx: int)
    requires Valid(b) && InRange(x, y) && sx == x - 1
    ensures HasCell(XShift(b), x, y) <==> 0 <= sx && HasCell(b, sx, y)
  {
    var i: int := Index(x, y);
    if 0 <= sx {
      assert Index(sx, y) == i - 1;
    } else {
      assert i - 1 == y * Y_SHIFT - 1;
      NotACellBit(b, i - 1);
    }
  }

  /** The shifted board is valid exactly when the last column is free. */
  lemma XShiftValid(b: Word)
    requires Valid(b)
    ensures Valid(XShift(b)) <==> !ColumnUsed(b, X_SIZE - 1)
  {
    var r := XShift(b);
    ValidIsSubset(r);
    if ColumnUsed(b, X_SIZE - 1) {
      var y :| 0 <= y < Y_SIZE && HasCell(b, X_SIZE - 1, y);
      var i: Bit := Index(X_SIZE - 1, y) + 1;
      assert i in r;
      assert i == (y + 1) * Y_SHIFT - 1;
      NotACellBit(FULL_BOARD, i);
    } else {
      forall j | j in r
        ensures j in FULL_BOARD
      {
        var x, y := ValidCell(b, j - 1);
        assert Index(x + 1, y) == j;
      }
    }
  }

  /** Shifting a board whose last column is free moves its right edge by one and keeps its height. */
  lemma XShiftExtents(b: Word)
    requires Valid(b) && b != {} && !ColumnUsed(b, X_SIZE - 1)
    ensures Valid(XShift(b)) && XShift(b) != {}
    ensures XExtent(XShift(b)) == XExtent(b) + 1 && YSize(XShift(b)) == YSize(b)
  {
    var r, n, ys := XShift(b), XExtent(b), YSize(b);
    XShiftValid(b);
    NonEmptyExtents(b);
    forall x: int, y: int | HasCell(r, x, y)
      ensures x < n + 1 && y < ys
    {
      XShiftCell(b, x, y, x - 1);
    }
    var y0 :| 0 <= y0 < Y_SIZE && HasCell(b, n - 1, y0);
    XShiftCell(b, n, y0, n - 1);
    var x0 :| 0 <= x0 < X_SIZE && HasCell(b, x0, ys - 1);
    XShiftCell(b, x0 + 1, ys - 1, x0);
    XExtentIs(r, n + 1);
    YSizeIs(r, ys);
  }

  /** `yShift`: the board moved one row down; a cell pushed off the last row sets the invalid bit. */
  function YShift(b: Word): Word
  {
    if b * LAST_ROW != {} then ShiftLeft(b, Y_SHIFT) + INVALID_BIT else ShiftLeft(b, Y_SHIFT)
  }

  /** The mask test of `yShift` asks whether the last row holds a cell. */
  lemma LastRowMask(b: Word)
    ensures b * LAST_ROW != {} <==> RowUsed(b, Y_SIZE - 1)
  {
    if b * LAST_ROW != {} {
      var i :| i in b * LAST_ROW;
      var x, y :| 0 <= x < X_SIZE && 0 <= y < Y_SIZE && Y_SIZE - 1 <= y < Y_SIZE && i == Index(x, y);
      assert HasCell(b, x, Y_SIZE - 1);
    }
    if RowUsed(b, Y_SIZE - 1) {
      var x :| 0 <= x < X_SIZE && HasCell(b, x, Y_SIZE - 1);
      assert Index(x, Y_SIZE - 1) in b * LAST_ROW;
    }
  }

  /** A cell of the shifted board comes from the cell above it, sy = y - 1; nothing enters row 0. */
  lemma YShiftCell(b: Word, x: int, y: int, sy: int)
    requires Valid(b) && InRange(x, y) && sy == y - 1
    ensures HasCell(YShift(b), x, y) <==> 0 <= sy && HasCell(b, x, sy)
  {
    var i: int := Index(x, y);
    assert i < 63;
    if 0 <= sy {
      assert Index(x, sy) == i - Y_SHIFT;
    }
  }

  /** The shifted board is valid exactly when the last row is free. */
  lemma YShiftValid(b: Word)
    requires Valid(b)
    ensures Valid(YShift(b)) <==> !RowUsed(b, Y_SIZE - 1)
  {
    var r := YShift(b);
    ValidIsSubset(r);
    LastRowMask(b);
    if RowUsed(b, Y_SIZE - 1) {
      assert 63 in r;
      NotACellBit(FULL_BOARD, 63);
    } else {
      forall j | j in r
        ensures j in FULL_BOARD
      {
        var x, y := ValidCell(b, j - Y_SHIFT);
        assert Index(x, y + 1) == j;
      }
    }
  }

  /** Shifting a board whose last row is free moves its bottom edge by one and keeps its width. */
  lemma YShiftExtents(b: Word)
    requires Valid(b) && b != {} && !RowUsed(b, Y_SIZE - 1)
    ensures Valid(YShift(b)) && YShift(b) != {}
    ensures XExtent(YShift(b)) == XExtent(b) && YSize(YShift(b)) == YSize(b) + 1
  {
    var r, n, ys := YShift(b), XExtent(b), YSize(b);
    YShiftValid(b);
    NonEmptyExtents(b);
    forall x: int, y: int | HasCell(r, x, y)
      ensures x < n && y < ys + 1
    {
      YShiftCell(b, x, y, y - 1);
    }
    var y0 :| 0 <= y0 < Y_SIZE && HasCell(b, n - 1, y0);
    YShiftCell(b, n - 1, y0 + 1, y0);
    var x0 :| 0 <= x0 < X_SIZE && HasCell(b, x0, ys - 1);
    YShiftCell(b, x0, ys, ys - 1);
    XExtentIs(r, n);
    YSizeIs(r, ys + 1);
  }

  /** `xShift` of a single cell is the next cell of its row, and an invalid board at the right edge. */
  lemma XShiftGetBit(x: int, y: int)
    requires InRange(x, y)
    ensures x + 1 < X_SIZE ==> XShift(GetBit(x, y).value) == GetBit(x + 1, y).value
    ensures x + 1 == X_SIZE ==> !Valid(XShift(GetBit(x, y).value))
  {
    var b := GetBit(x, y).value;
    GetBitCell(x, y);
    XShiftValid(b);
    if x + 1 < X_SIZE {
      GetBitCell(x + 1, y);
      forall x', y' | InRange(x', y')
        ensures HasCell(XShift(b), x', y') <==> HasCell(GetBit(x + 1, y).value, x', y')
      {
        XShiftCell(b, x', y', x' - 1);
      }
      CellsEqual(XShift(b), GetBit(x + 1, y).value);
    } else {
      assert HasCell(b, x, y);
    }
  }

  /** `yShift` of a single cell is the cell below it, and an invalid board on the last row. */
  lemma YShiftGetBit(x: int, y: int)
    requires InRange(x, y)
    ensures y + 1 < Y_SIZE ==> YShift(GetBit(x, y).value) == GetBit(x, y + 1).value
    ensures y + 1 == Y_SIZE ==> !Valid(YShift(GetBit(x, y).value))
  {
    var b := GetBit(x, y).value;
    GetBitCell(x, y);
    YShiftValid(b);
    if y + 1 < Y_SIZE {
      GetBitCell(x, y + 1);
      forall x', y' | InRange(x', y')
        ensures HasCell(YShift(b), x', y') <==> HasCell(GetBit(x, y + 1).value, x', y')
      {
        YShiftCell(b, x', y', y' - 1);
      }
      CellsEqual(YShift(b), GetBit(x, y + 1).value);
    } else {
      assert HasCell(b, x, y);
    }
  }

  /** The next right shift of a valid board that is not empty is not empty, and one column wider when valid. */
  lemma XShiftStep(b: Word)
    requires Valid(b) && b != {}
    ensures XShift(b) != {}
    ensures Valid(XShift(b)) ==> XExtent(XShift(b)) == XExtent(b) + 1
  {
    XShiftValid(b);
    if !ColumnUsed(b, X_SIZE - 1) {
      XShiftExtents(b);
    } else {
      var i :| i in b;
      var x, y := ValidCell(b, i);
      var j: Bit := i + 1;
      assert j in XShift(b);
    }
  }

  /**
   * `generateXShifts`: b followed by its shifts to the right for as long as
   * they stay valid, and nothing when b itself is invalid. The empty board is
   * excluded: all its shifts are valid, so that stream never ends.
   */
  function XShifts(b: Word): (r: seq<Word>)
    requires b != {}
    ensures |r| > 0 <==> Valid(b)
    ensures |r| > 0 ==> r[0] == b && !Valid(XShift(r[|r| - 1]))
    ensures forall k | 0 <= k < |r| :: Valid(r[k]) && r[k] != {}
    ensures forall k | 0 < k < |r| :: r[k] == XShift(r[k - 1])
    decreases if Valid(b) then X_SIZE + 1 - XExtent(b) else 0
  {
    if !Valid(b) then []
    else
      XShiftStep(b);
      [b] + XShifts(XShift(b))
  }

  /** There are 10 - xSize + 1 right shifts, each one column further right, and the last touches the right edge. */
  lemma {:induction false} XShiftsCount(b: Word)
    requires Valid(b) && b != {}
    ensures |XShifts(b)| == X_SIZE - XExtent(b) + 1
    ensures ColumnUsed(XShifts(b)[|XShifts(b)| - 1], X_SIZE - 1)
    decreases X_SIZE + 1 - XExtent(b)
  {
    var r := XShifts(b);
    XShiftStep(b);
    XShiftValid(b);
    var rest := XShifts(XShift(b));
    assert r == [b] + rest;
    if !ColumnUsed(b, X_SIZE - 1) {
      XShiftsCount(XShift(b));
      assert r[|r| - 1] == rest[|rest| - 1];
    } else {
      var i :| 0 <= i < Y_SIZE && HasCell(b, X_SIZE - 1, i);
    }
  }

  /** Shift k is k columns further: its extent grows by k. */
  lemma {:induction false} XShiftsExtent(b: Word, k: int)
    requires Valid(b) && b != {} && 0 <= k < |XShifts(b)|
    ensures XExtent(XShifts(b)[k]) == XExtent(b) + k
    decreases k
  {
    if k > 0 {
      var r := XShifts(b);
      XShiftsExtent(b, k - 1);
      XShiftStep(r[k - 1]);
    }
  }

  /** Shift k moves every cell k columns to the right: its cell (x, y) is cell (x - k, y) of b. */
  lemma {:induction false} XShiftsCell(b: Word, k: int, x: int, y: int, sx: int)
    requires Valid(b) && b != {} && 0 <= k < |XShifts(b)|
    requires InRange(x, y) && sx == x - k
    ensures HasCell(XShifts(b)[k], x, y) <==> 0 <= sx && HasCell(b, sx, y)
    decreases k
  {
    var r := XShifts(b);
    if k > 0 {
      XShiftCell(r[k - 1], x, y, x - 1);
      if 0 < x {
        XShiftsCell(b, k - 1, x - 1, y, sx);
      }
    }
  }

  /** The next downward shift of a valid board that is not empty is not empty, and one row taller when valid. */
  lemma YShiftStep(b: Word)
    requires Valid(b) && b != {}
    ensures YShift(b) != {}
    ensures Valid(YShift(b)) ==> YSize(YShift(b)) == YSize(b) + 1
  {
    YShiftValid(b);
    LastRowMask(b);
    if !RowUsed(b, Y_SIZE - 1) {
      YShiftExtents(b);
    } else {
      assert 63 in YShift(b);
    }
  }

  /**
   * `generateYShifts`: b followed by its shifts downwards for as long as they
   * stay valid, and nothing when b itself is invalid. The empty board is
   * excluded: all its shifts are valid, so that stream never ends.
   */
  function YShifts(b: Word): (r: seq<Word>)
    requires b != {}
    ensures |r| > 0 <==> Valid(b)
    ensures |r| > 0 ==> r[0] == b && !Valid(YShift(r[|r| - 1]))
    ensures forall k | 0 <= k < |r| :: Valid(r[k]) && r[k] != {}
    ensures forall k | 0 < k < |r| :: r[k] == YShift(r[k - 1])
    decreases if Valid(b) then Y_SIZE + 1 - YSize(b) else 0
  {
    if !Valid(b) then []
    else
      YShiftStep(b);
      [b] + YShifts(YShift(b))
  }

  /** There are 5 - ySize + 1 downward shifts, each one row lower, and the last touches the bottom edge. */
  lemma {:induction false} YShiftsCount(b: Word)
    requires Valid(b) && b != {}
    ensures |YShifts(b)| == Y_SIZE - YSize(b) + 1
    ensures RowUsed(YShifts(b)[|YShifts(b)| - 1], Y_SIZE - 1)
    decreases Y_SIZE + 1 - YSize(b)
  {
    var r := YShifts(b);
    YShiftStep(b);
    YShiftValid(b);
    var rest := YShifts(YShift(b));
    assert r == [b] + rest;
    if !RowUsed(b, Y_SIZE - 1) {
      YShiftsCount(YShift(b));
      assert r[|r| - 1] == rest[|rest| - 1];
    } else {
      var i :| 0 <= i < X_SIZE && HasCell(b, i, Y_SIZE - 1);
    }
  }

  /** Shift k is k rows further: its extent grows by k. */
  lemma {:induction false} YShiftsExtent(b: Word, k: int)
    requires Valid(b) && b != {} && 0 <= k < |YShifts(b)|
    ensures YSize(YShifts(b)[k]) == YSize(b) + k
    decreases k
  {
    if k > 0 {
      var r := YShifts(b);
      YShiftsExtent(b, k - 1);
      YShiftStep(r[k - 1]);
    }
  }

  /** Shifting down keeps the width: every downward shift has the extent of b. */
  lemma {:induction false} YShiftsWidth(b: Word, k: int)
    requires Valid(b) && b != {} && 0 <= k < |YShifts(b)|
    ensures XExtent(YShifts(b)[k]) == XExtent(b)
    decreases k
  {
    if k > 0 {
      var r := YShifts(b);
      YShiftsWidth(b, k - 1);
      YShiftValid(r[k - 1]);
      YShiftExtents(r[k - 1]);
    }
  }

  /** Shift k moves every cell k rows down: its cell (x, y) is cell (x, y - k) of b. */
  lemma {:induction false} YShiftsCell(b: Word, k: int, x: int, y: int, sy: int)
    requires Valid(b) && b != {} && 0 <= k < |YShifts(b)|
    requires InRange(x, y) && sy == y - k
    ensures HasCell(YShifts(b)[k], x, y) <==> 0 <= sy && HasCell(b, x, sy)
    decreases k
  {
    var r := YShifts(b);
    if k > 0 {
      YShiftCell(r[k - 1], x, y, y - 1);
      if 0 < y {
        YShiftsCell(b, k - 1, x, y - 1, sy);
      }
    }
  }
}
