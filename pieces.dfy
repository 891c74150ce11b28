/**
 * A puzzle piece: its character and every placement ("variant") of its
 * shapes on the board, grouped by lowest bit, with the smallest and largest
 * cell counts. Pieces are immutable values; `MakePiece` plays the part of the
 * private constructor and `NewPiece` that of the public one.
 */
module Pieces {
  import opened Bits
  import opened Wrappers
  import opened BitBoard

  /** `Integer.MAX_VALUE` and `Integer.MIN_VALUE`: the statistics of no values. */
  const INT_MAX: int := 0x7fff_ffff
  const INT_MIN: int := -0x8000_0000

  /** The number of entries of the first-bit table: one per bit, and one for the empty board. */
  const TABLE_SIZE: int := 65

  datatype Piece = Piece(
    character: char,
    variants: seq<Word>,
    byFirstBit: seq<seq<Word>>,
    minSize: int,
    maxSize: int)

  // ---------------------------------------------------------------------------
  // Sequences

  /** s is t with some elements left out, the rest kept in order. */
  ghost predicate Subsequence<T>(s: seq<T>, t: seq<T>)
    decreases |t|
  {
    s == [] || (t != [] && (Subsequence(s, t[1..]) || (s[0] == t[0] && Subsequence(s[1..], t[1..]))))
  }

  /** A stream `filter`: the elements of s that pass `keep`, in their order, duplicates included. */
  function Filter<T(!new)>(s: seq<T>, keep: T -> bool): (r: seq<T>)
    ensures |r| <= |s|
    ensures forall k | 0 <= k < |r| :: keep(r[k])
  {
    if s == [] then []
    else
      var rest := Filter(s[1..], keep);
      if keep(s[0]) then [s[0]] + rest else rest
  }

  /**
   * The filter keeps the elements that pass, in order, each as often as it
   * occurs, and drops all others: it is the one subsequence with those elements.
   */
  lemma {:induction false} FilterKeeps<T(!new)>(s: seq<T>, keep: T -> bool)
    ensures forall x :: multiset(Filter(s, keep))[x] == if keep(x) then multiset(s)[x] else 0
    ensures Subsequence(Filter(s, keep), s)
  {
    if s != [] {
      FilterKeeps(s[1..], keep);
      assert s == [s[0]] + s[1..];
    }
  }

  /** Filtering with two tests that agree everywhere gives the same elements. */
  lemma {:induction false} FilterSame<T(!new)>(s: seq<T>, p: T -> bool, q: T -> bool)
    requires forall x :: p(x) == q(x)
    ensures Filter(s, p) == Filter(s, q)
  {
    if s != [] {
      FilterSame(s[1..], p, q);
    }
  }

  /** Splitting a filter by a second test: its elements are those that pass and those that fail it. */
  lemma {:induction false} FilterCount<T(!new)>(s: seq<T>, p: T -> bool, q: T -> bool, pq: T -> bool, pnq: T -> bool)
    requires forall x :: pq(x) == (p(x) && q(x)) && pnq(x) == (p(x) && !q(x))
    ensures |Filter(s, p)| == |Filter(s, pq)| + |Filter(s, pnq)|
  {
    if s != [] {
      FilterCount(s[1..], p, q, pq, pnq);
    }
  }

  /** A test every element passes keeps the whole sequence. */
  lemma {:induction false} FilterAll<T(!new)>(s: seq<T>, p: T -> bool)
    requires forall x :: p(x)
    ensures Filter(s, p) == s
  {
    if s != [] {
      FilterAll(s[1..], p);
      assert s == [s[0]] + s[1..];
    }
  }

  /** Every element of a filter is an element of the original. */
  lemma FilterMember<T(!new)>(s: seq<T>, keep: T -> bool, x: T)
    ensures x in Filter(s, keep) <==> x in s && keep(x)
  {
    var r := Filter(s, keep);
    FilterKeeps(s, keep);
    assert x in r <==> multiset(r)[x] > 0;
    assert x in s <==> multiset(s)[x] > 0;
  }

  // ---------------------------------------------------------------------------
  // Shape text

  /** `Character.isWhitespace` */
  predicate IsWhitespace(c: char)
  {
    ('\t' <= c <= '\r') || ('\U{1C}' <= c <= '\U{1F}') || c == ' ' || c == '\U{1680}'
    || ('\U{2000}' <= c <= '\U{2006}') || ('\U{2008}' <= c <= '\U{200A}')
    || c == '\U{2028}' || c == '\U{2029}' || c == '\U{205F}' || c == '\U{3000}'
  }

  /** The length of the whitespace prefix that `stripLeading` removes. */
  function LeadingWhitespace(s: string): (n: nat)
    ensures n <= |s|
    ensures forall i | 0 <= i < n :: IsWhitespace(s[i])
    ensures n < |s| ==> !IsWhitespace(s[n])
  {
    if s == [] || !IsWhitespace(s[0]) then 0 else 1 + LeadingWhitespace(s[1..])
  }

  /** `stripLeading().charAt(0)`: the first character that is not whitespace. */
  function FirstNonWhitespace(s: string): (r: Result<char>)
    ensures r.Ok? <==> exists i | 0 <= i < |s| :: !IsWhitespace(s[i])
    ensures r.Ok? ==> exists i | 0 <= i < |s| :: s[i] == r.value && !IsWhitespace(s[i]) && forall j | 0 <= j < i :: IsWhitespace(s[j])
    ensures r.Err? ==> r.error == NoShapeCharacter
  {
    var n := LeadingWhitespace(s);
    if n < |s| then Ok(s[n]) else Err(NoShapeCharacter)
  }

  /** The pieces of s between its newlines, empty ones included. */
  function SplitLines(s: string): (r: seq<string>)
    ensures |r| > 0
    ensures forall i | 0 <= i < |r| :: '\n' !in r[i]
  {
    if s == [] then [""]
    else
      var rest := SplitLines(s[1..]);
      if s[0] == '\n' then [""] + rest else [[s[0]] + rest[0]] + rest[1..]
  }

  /** The lines joined by newlines. */
  function JoinLines(rows: seq<string>): string
    requires |rows| > 0
  {
    if |rows| == 1 then rows[0] else rows[0] + "\n" + JoinLines(rows[1..])
  }

  /** Joining the split lines gives back the text. */
  lemma {:induction false} JoinSplitLines(s: string)
    ensures JoinLines(SplitLines(s)) == s
  {
    if s != [] {
      var rest := SplitLines(s[1..]);
      JoinSplitLines(s[1..]);
      if s[0] == '\n' {
        assert SplitLines(s)[1..] == rest;
      } else {
        var r := SplitLines(s);
        assert r[0] == [s[0]] + rest[0];
        if |rest| > 1 {
          assert r[1..] == rest[1..];
          assert JoinLines(rest) == rest[0] + "\n" + JoinLines(rest[1..]);
        }
      }
    }
  }

  /** Splitting joined lines that hold no newline gives back the lines. */
  lemma {:induction false} SplitJoinLines(rows: seq<string>)
    requires |rows| > 0 && forall i | 0 <= i < |rows| :: '\n' !in rows[i]
    ensures SplitLines(JoinLines(rows)) == rows
    decreases |rows|, |rows[0]|
  {
    var s := JoinLines(rows);
    if |rows| == 1 {
      SplitLineWithout(rows[0]);
    } else if rows[0] == [] {
      assert s == "\n" + JoinLines(rows[1..]);
      assert s[1..] == JoinLines(rows[1..]);
      SplitJoinLines(rows[1..]);
      assert rows == [""] + rows[1..];
    } else {
      var shorter := [rows[0][1..]] + rows[1..];
      assert JoinLines(shorter) == rows[0][1..] + "\n" + JoinLines(rows[1..]);
      assert s[1..] == JoinLines(shorter);
      assert shorter[1..] == rows[1..];
      SplitJoinLines(shorter);
      assert rows[0] == [rows[0][0]] + rows[0][1..];
    }
  }

  /** A line without a newline splits into itself. */
  lemma {:induction false} SplitLineWithout(s: string)
    requires '\n' !in s
    ensures SplitLines(s) == [s]
  {
    if s != [] {
      assert '\n' !in s[1..] by {
        forall i | 0 <= i < |s[1..]|
          ensures s[1..][i] != '\n'
        {
          assert s[1..][i] == s[i + 1];
        }
      }
      SplitLineWithout(s[1..]);
      assert s == [s[0]] + s[1..];
    }
  }

  /** The lines without the empty ones at the end. */
  function DropTrailingEmpty(rows: seq<string>): (r: seq<string>)
    ensures r <= rows
    ensures forall i | |r| <= i < |rows| :: rows[i] == []
    ensures r != [] ==> r[|r| - 1] != []
  {
    if rows == [] || rows[|rows| - 1] != [] then rows else DropTrailingEmpty(rows[..|rows| - 1])
  }

  /**
   * `split("\n")`: the text itself when it holds no newline, and otherwise the
   * pieces between newlines without the empty ones at the end.
   */
  function Split(s: string): (r: seq<string>)
  {
    if '\n' in s then DropTrailingEmpty(SplitLines(s)) else [s]
  }

  /** The split lines are the newline-separated pieces of the text, up to empty lines at the end. */
  lemma SplitIsLines(s: string)
    ensures Split(s) <= SplitLines(s)
    ensures forall i | |Split(s)| <= i < |SplitLines(s)| :: SplitLines(s)[i] == []
  {
    if '\n' !in s {
      SplitLineWithout(s);
    }
  }

  // ---------------------------------------------------------------------------
  // Parsing a shape

  /** Row y of the text has a character other than a space at column x. */
  predicate Mark(rows: seq<string>, x: int, y: int)
  {
    0 <= y < |rows| && 0 <= x < |rows[y]| && rows[y][x] != ' '
  }

  /** The union of two partial boards, keeping the first error. */
  function Union(a: Result<Word>, b: Result<Word>): Result<Word>
  {
    if a.Err? then a else if b.Err? then b else Ok(a.value + b.value)
  }

  /** Union keeps the first error, so it groups either way. */
  lemma UnionAssociative(a: Result<Word>, b: Result<Word>, c: Result<Word>)
    ensures Union(Union(a, b), c) == Union(a, Union(b, c))
  {
    if a.Ok? && b.Ok? && c.Ok? {
      assert (a.value + b.value) + c.value == a.value + (b.value + c.value);
    }
  }

  /** The empty board adds nothing. */
  lemma UnionEmpty(c: Result<Word>)
    ensures Union(Ok({}), c) == c
  {
    if c.Ok? {
      assert {} + c.value == c.value;
    }
  }

  /** The bits of the marks of row y from column x on, or the first range error among them. */
  function RowFrom(row: string, y: int, x: nat): Result<Word>
    requires x <= |row|
    decreases |row| - x
  {
    if x == |row| then Ok({})
    else if row[x] == ' ' then RowFrom(row, y, x + 1)
    else Union(GetBit(x, y), RowFrom(row, y, x + 1))
  }

  /** The bits of the marks of rows y and below, or the first range error among them. */
  function RowsFrom(rows: seq<string>, y: nat): Result<Word>
    requires y <= |rows|
    decreases |rows| - y
  {
    if y == |rows| then Ok({}) else Union(RowFrom(rows[y], y, 0), RowsFrom(rows, y + 1))
  }

  /** The error is the range error of a mark off the board such that every mark before it is on the board. */
  ghost predicate FirstBadMark(rows: seq<string>, e: Error)
  {
    e.CoordinateOutOfRange? && Mark(rows, e.x, e.y) && !InRange(e.x, e.y)
    && forall x, y | Before(x, y, e.x, e.y) && Mark(rows, x, y) :: InRange(x, y)
  }

  /** What one row contributes: its marks, or the range error of its first mark off the board. */
  lemma {:induction false} RowFromCells(row: string, y: int, x: nat)
    requires x <= |row|
    ensures RowFrom(row, y, x).Ok? <==> forall i | x <= i < |row| && row[i] != ' ' :: InRange(i, y)
    ensures RowFrom(row, y, x).Ok? ==> Valid(RowFrom(row, y, x).value)
    ensures RowFrom(row, y, x).Ok? ==> forall cx, cy :: HasCell(RowFrom(row, y, x).value, cx, cy) <==> cy == y && x <= cx < |row| && row[cx] != ' '
    ensures RowFrom(row, y, x).Err? ==> var e := RowFrom(row, y, x).error;
      e.CoordinateOutOfRange? && e.y == y && x <= e.x < |row| && row[e.x] != ' ' && !InRange(e.x, y)
      && forall i | x <= i < e.x && row[i] != ' ' :: InRange(i, y)
    decreases |row| - x
  {
    if x < |row| {
      RowFromCells(row, y, x + 1);
      if row[x] != ' ' && InRange(x, y) {
        var rest := RowFrom(row, y, x + 1);
        GetBitCell(x, y);
        SingleBitValid(Index(x, y));
        if rest.Ok? {
          assert forall i | x <= i < |row| && row[i] != ' ' :: InRange(i, y);
          ValidIsSubset(rest.value);
          ValidIsSubset({Index(x, y)});
          ValidIsSubset({Index(x, y)} + rest.value);
          forall cx, cy
            ensures HasCell({Index(x, y)} + rest.value, cx, cy) <==> cy == y && x <= cx < |row| && row[cx] != ' '
          {
            if InRange(cx, cy) {
              IndexInjective(cx, cy, x, y);
              assert HasCell({Index(x, y)} + rest.value, cx, cy) <==> (cx == x && cy == y) || HasCell(rest.value, cx, cy);
            }
          }
        }
      }
    }
  }

  /** What rows y and below contribute: their marks, or the range error of the first mark off the board. */
  lemma {:induction false} RowsFromCells(rows: seq<string>, y: nat)
    requires y <= |rows|
    ensures RowsFrom(rows, y).Ok? <==> forall cx, cy | y <= cy && Mark(rows, cx, cy) :: InRange(cx, cy)
    ensures RowsFrom(rows, y).Ok? ==> Valid(RowsFrom(rows, y).value)
    ensures RowsFrom(rows, y).Ok? ==> forall cx, cy :: HasCell(RowsFrom(rows, y).value, cx, cy) <==> y <= cy && Mark(rows, cx, cy)
    ensures RowsFrom(rows, y).Err? ==> var e := RowsFrom(rows, y).error;
      e.CoordinateOutOfRange? && y <= e.y && Mark(rows, e.x, e.y) && !InRange(e.x, e.y)
      && forall cx, cy | y <= cy && Before(cx, cy, e.x, e.y) && Mark(rows, cx, cy) :: InRange(cx, cy)
    decreases |rows| - y
  {
    if y < |rows| {
      RowFromCells(rows[y], y, 0);
      RowsFromCells(rows, y + 1);
      var row, rest := RowFrom(rows[y], y, 0), RowsFrom(rows, y + 1);
      if row.Ok? && rest.Ok? {
        ValidIsSubset(row.value);
        ValidIsSubset(rest.value);
        ValidIsSubset(row.value + rest.value);
        forall cx, cy
          ensures HasCell(row.value + rest.value, cx, cy) <==> y <= cy && Mark(rows, cx, cy)
        {
          assert HasCell(row.value + rest.value, cx, cy) <==> HasCell(row.value, cx, cy) || HasCell(rest.value, cx, cy);
        }
      }
    }
  }

  /**
   * `parse`, as a function: cell (x, y) is set exactly when row y of the text
   * has a character other than a space at column x, and a mark off the board
   * makes `getBit` raise the range error of the first such mark.
   */
  function ShapeBoard(form: string): (r: Result<Word>)
    ensures r.Ok? <==> forall x, y | Mark(Split(form), x, y) :: InRange(x, y)
    ensures r.Ok? ==> Valid(r.value)
    ensures r.Ok? ==> forall x, y :: HasCell(r.value, x, y) <==> Mark(Split(form), x, y)
    ensures r.Err? ==> FirstBadMark(Split(form), r.error)
  {
    RowsFromCells(Split(form), 0);
    RowsFrom(Split(form), 0)
  }

  /** `parse`: OR the bit of every mark into the board, row by row. */
  method Parse(form: string) returns (r: Result<Word>)
    ensures r == ShapeBoard(form)
  {
    var bitBoard: Word := {};
    var rows := Split(form);
    UnionEmpty(RowsFrom(rows, 0));
    for y := 0 to |rows|
      invariant Union(Ok(bitBoard), RowsFrom(rows, y)) == RowsFrom(rows, 0)
    {
      for x := 0 to |rows[y]|
        invariant Union(Ok(bitBoard), Union(RowFrom(rows[y], y, x), RowsFrom(rows, y + 1))) == RowsFrom(rows, 0)
      {
        if rows[y][x] != ' ' {
          var bit := GetBit(x, y);
          UnionAssociative(bit, RowFrom(rows[y], y, x + 1), RowsFrom(rows, y + 1));
          if bit.Err? {
            return Err(bit.error);
          }
          UnionAssociative(Ok(bitBoard), bit, Union(RowFrom(rows[y], y, x + 1), RowsFrom(rows, y + 1)));
          bitBoard := bitBoard + bit.value;
        }
      }
      UnionEmpty(RowsFrom(rows, y + 1));
    }
    return Ok(bitBoard);
  }

  /** Some row of the text has a character other than a space: the shape has a cell to draw. */
  ghost predicate Drawn(form: string)
  {
    exists x, y :: Mark(Split(form), x, y)
  }

  /** A drawn shape that parses has a cell. */
  lemma DrawnNotEmpty(form: string)
    requires Drawn(form) && ShapeBoard(form).Ok?
    ensures ShapeBoard(form).value != {}
  {
    var x, y :| Mark(Split(form), x, y);
    assert HasCell(ShapeBoard(form).value, x, y);
  }

  // ---------------------------------------------------------------------------
  // Variants

  /** `flatMap(generateYShifts)` */
  function YShiftsAll(bs: seq<Word>): (r: seq<Word>)
    requires forall i | 0 <= i < |bs| :: bs[i] != {}
    ensures forall k | 0 <= k < |r| :: Valid(r[k]) && r[k] != {}
  {
    if bs == [] then [] else YShifts(bs[0]) + YShiftsAll(bs[1..])
  }

  /** `flatMap(generateXShifts)` */
  function XShiftsAll(bs: seq<Word>): (r: seq<Word>)
    requires forall i | 0 <= i < |bs| :: bs[i] != {}
    ensures forall k | 0 <= k < |r| :: Valid(r[k]) && r[k] != {}
  {
    if bs == [] then [] else XShifts(bs[0]) + XShiftsAll(bs[1..])
  }

  /** The variants of one parsed shape: each rotation, each downward shift of it, each rightward shift of that. */
  function ShapeVariants(b: Word): (r: Result<seq<Word>>)
    requires Valid(b) && b != {}
    ensures r.Ok? <==> XExtent(b) <= Y_SIZE
    ensures r.Err? ==> Rotation(b) == Err(r.error)
    ensures r.Ok? ==> Placed(r.value)
  {
    GenerateRotationsResult(b);
    match GenerateRotations(b)
    case Err(e) => Err(e)
    case Ok(rs) =>
      RotationsNonEmpty(b);
      Ok(XShiftsAll(YShiftsAll(rs)))
  }

  /** Every shape parses and can be rotated. */
  ghost predicate ShapesFit(shapes: seq<string>)
  {
    forall i | 0 <= i < |shapes| :: ShapeBoard(shapes[i]).Ok? && XExtent(ShapeBoard(shapes[i]).value) <= Y_SIZE
  }

  /** All shapes fit when the first does and the others do. */
  lemma ShapesFitFirst(shapes: seq<string>)
    requires shapes != []
    ensures ShapesFit(shapes) <==> ShapeBoard(shapes[0]).Ok? && XExtent(ShapeBoard(shapes[0]).value) <= Y_SIZE && ShapesFit(shapes[1..])
  {
    assert forall i | 0 < i < |shapes| :: shapes[i] == shapes[1..][i - 1];
  }

  /**
   * The variant stream of the public constructor: the variants of the shapes,
   * shape after shape; the first shape that does not parse or rotate gives its error.
   */
  function ShapesVariants(shapes: seq<string>): (r: Result<seq<Word>>)
    requires forall s | s in shapes :: Drawn(s)
    ensures r.Ok? ==> Placed(r.value)
  {
    if shapes == [] then Ok([])
    else
      match ShapeTextVariants(shapes[0])
      case Err(e) => Err(e)
      case Ok(vs) =>
        match ShapesVariants(shapes[1..])
        case Err(e) => Err(e)
        case Ok(rest) =>
          PlacedAppend(vs, rest);
          Ok(vs + rest)
  }

  /** The variants exist exactly when every shape parses and can be rotated. */
  lemma {:induction false} ShapesVariantsOk(shapes: seq<string>)
    requires forall s | s in shapes :: Drawn(s)
    ensures ShapesVariants(shapes).Ok? <==> ShapesFit(shapes)
  {
    if shapes != [] {
      ShapesFitFirst(shapes);
      ShapesVariantsOk(shapes[1..]);
    }
  }

  /** The variants of one shape text, or the error of parsing or of rotating it. */
  function ShapeTextVariants(form: string): (r: Result<seq<Word>>)
    requires Drawn(form)
    ensures r.Ok? <==> ShapeBoard(form).Ok? && XExtent(ShapeBoard(form).value) <= Y_SIZE
    ensures r.Ok? ==> Placed(r.value)
  {
    match ShapeBoard(form)
    case Err(e) => Err(e)
    case Ok(b) =>
      DrawnNotEmpty(form);
      ShapeVariants(b)
  }

  /** Every board is valid and has a cell: a placement of a piece. */
  ghost predicate Placed(vs: seq<Word>)
  {
    forall k | 0 <= k < |vs| :: Valid(vs[k]) && vs[k] != {}
  }

  /** Placements joined are placements. */
  lemma PlacedAppend(a: seq<Word>, b: seq<Word>)
    requires Placed(a) && Placed(b)
    ensures Placed(a + b)
  {
    assert forall k | |a| <= k < |a| + |b| :: (a + b)[k] == b[k - |a|];
  }

  // ---------------------------------------------------------------------------
  // Statistics and the first-bit table

  /** `getMin` of the cell counts: the smallest, or `Integer.MAX_VALUE` when there is none. */
  function MinSize(vs: seq<Word>): (m: int)
    ensures vs == [] ==> m == INT_MAX
    ensures vs != [] ==> exists k | 0 <= k < |vs| :: |vs[k]| == m
    ensures forall k | 0 <= k < |vs| :: m <= |vs[k]|
  {
    if vs == [] then INT_MAX
    else if |vs| == 1 then |vs[0]|
    else
      var m := MinSize(vs[1..]);
      assert forall k | 1 <= k < |vs| :: vs[k] == vs[1..][k - 1];
      if |vs[0]| <= m then |vs[0]| else m
  }

  /** `getMax` of the cell counts: the largest, or `Integer.MIN_VALUE` when there is none. */
  function MaxSize(vs: seq<Word>): (m: int)
    ensures vs == [] ==> m == INT_MIN
    ensures vs != [] ==> exists k | 0 <= k < |vs| :: |vs[k]| == m
    ensures forall k | 0 <= k < |vs| :: |vs[k]| <= m
  {
    if vs == [] then INT_MIN
    else if |vs| == 1 then |vs[0]|
    else
      var m := MaxSize(vs[1..]);
      assert forall k | 1 <= k < |vs| :: vs[k] == vs[1..][k - 1];
      if |vs[0]| >= m then |vs[0]| else m
  }

  /** The test of the table's filter: the lowest bit of the board is `bit`. */
  function FirstBitIs(bit: int): Word -> bool
  {
    (v: Word) => TrailingZeros(v) == bit
  }

  /** The lowest bit of the board is below n. */
  function FirstBitUnder(n: int): Word -> bool
  {
    (v: Word) => TrailingZeros(v) < n
  }

  /** The boards of vs whose lowest bit is `bit`, in order. */
  function WithFirstBit(vs: seq<Word>, bit: int): seq<Word>
  {
    Filter(vs, FirstBitIs(bit))
  }

  /** The boards of vs whose lowest bit is below n, in order. */
  function FirstBitBelow(vs: seq<Word>, n: int): seq<Word>
  {
    Filter(vs, FirstBitUnder(n))
  }

  /** The table of `createTableByFirstBit`: entry i holds the boards whose lowest bit is i. */
  function TableByFirstBit(vs: seq<Word>): (t: seq<seq<Word>>)
    ensures |t| == TABLE_SIZE
  {
    seq(TABLE_SIZE, i => WithFirstBit(vs, i))
  }

  /** `createTableByFirstBit`: allocate 65 entries and fill entry i with the boards whose lowest bit is i. */
  method CreateTableByFirstBit(bitBoards: seq<Word>) returns (r: seq<seq<Word>>)
    ensures r == TableByFirstBit(bitBoards)
  {
    var bbs := new seq<Word>[TABLE_SIZE];
    for i := 0 to bbs.Length
      invariant forall k | 0 <= k < i :: bbs[k] == WithFirstBit(bitBoards, k)
    {
      var bit := i;
      bbs[i] := Filter(bitBoards, FirstBitIs(bit));
    }
    return bbs[..];
  }

  /** The sum of the lengths of the entries. */
  function TotalLength(t: seq<seq<Word>>): nat
  {
    if t == [] then 0 else TotalLength(t[..|t| - 1]) + |t[|t| - 1]|
  }

  /** The first n entries of the table hold the boards whose lowest bit is below n. */
  lemma {:induction false} TablePrefix(vs: seq<Word>, n: nat)
    requires n <= TABLE_SIZE
    ensures TotalLength(TableByFirstBit(vs)[..n]) == |FirstBitBelow(vs, n)|
  {
    var t := TableByFirstBit(vs);
    if n == 0 {
      FilterNone(vs, FirstBitUnder(0));
    } else {
      TablePrefix(vs, n - 1);
      assert t[..n][..n - 1] == t[..n - 1];
      FilterCount(vs, FirstBitUnder(n), FirstBitIs(n - 1), FirstBitIs(n - 1), FirstBitUnder(n - 1));
    }
  }

  /** A test no element passes keeps nothing. */
  lemma {:induction false} FilterNone<T(!new)>(s: seq<T>, p: T -> bool)
    requires forall x :: !p(x)
    ensures Filter(s, p) == []
  {
    if s != [] {
      FilterNone(s[1..], p);
    }
  }

  /** The table entries together hold every board exactly once: their lengths add up to the number of boards. */
  lemma TablePartition(vs: seq<Word>)
    ensures TotalLength(TableByFirstBit(vs)) == |vs|
  {
    TablePrefix(vs, TABLE_SIZE);
    assert TableByFirstBit(vs)[..TABLE_SIZE] == TableByFirstBit(vs);
    FilterAll(vs, FirstBitUnder(TABLE_SIZE));
  }

  // ---------------------------------------------------------------------------
  // Construction

  /** The private constructor: the table and the statistics of the given variants. */
  function MakePiece(c: char, vs: seq<Word>): Piece
  {
    Piece(c, vs, TableByFirstBit(vs), MinSize(vs), MaxSize(vs))
  }

  /** What holds of every piece the constructors build: valid non-empty variants, and the derived fields. */
  ghost predicate WellFormed(p: Piece)
  {
    Placed(p.variants) && p == MakePiece(p.character, p.variants)
  }

  /**
   * The public constructor: the character is the first one that is not
   * whitespace in the first shape, and the variants are those of each shape in
   * turn. Each shape must draw a cell; the stream would not end otherwise.
   */
  function NewPiece(shapes: seq<string>): (r: Result<Piece>)
    requires |shapes| > 0
    requires forall s | s in shapes :: Drawn(s)
    ensures r.Ok? <==> FirstNonWhitespace(shapes[0]).Ok? && ShapesFit(shapes)
    ensures r.Ok? ==> WellFormed(r.value)
    ensures r.Ok? ==> r.value.character == FirstNonWhitespace(shapes[0]).value
    ensures r.Ok? ==> ShapesVariants(shapes) == Ok(r.value.variants)
  {
    ShapesVariantsOk(shapes);
    match FirstNonWhitespace(shapes[0])
    case Err(e) => Err(e)
    case Ok(c) =>
      match ShapesVariants(shapes)
      case Err(e) => Err(e)
      case Ok(vs) => Ok(MakePiece(c, vs))
  }

  // ---------------------------------------------------------------------------
  // Getters

  /** `getVariantCount` */
  function VariantCount(p: Piece): (n: nat)
    requires WellFormed(p)
    ensures n == TotalLength(p.byFirstBit)
  {
    TablePartition(p.variants);
    |p.variants|
  }

  /** `getVariant`: the i-th variant, a valid board with a cell. */
  function Variant(p: Piece, i: int): (v: Word)
    requires WellFormed(p) && 0 <= i < |p.variants|
    ensures Valid(v) && v != {}
  {
    p.variants[i]
  }

  /** `getVariantCountByFirstBit`: how many variants have lowest bit `bit`; none exactly when no variant does. */
  function VariantCountByFirstBit(p: Piece, bit: int): (n: nat)
    requires WellFormed(p) && 0 <= bit < TABLE_SIZE
    ensures n <= |p.variants|
    ensures n == 0 <==> forall k | 0 <= k < |p.variants| :: TrailingZeros(p.variants[k]) != bit
  {
    var e := WithFirstBit(p.variants, bit);
    assert p.byFirstBit[bit] == e;
    assert e == [] <==> forall k | 0 <= k < |p.variants| :: TrailingZeros(p.variants[k]) != bit by {
      if e == [] {
        forall k | 0 <= k < |p.variants|
          ensures TrailingZeros(p.variants[k]) != bit
        {
          assert p.variants[k] in p.variants;
          FilterMember(p.variants, FirstBitIs(bit), p.variants[k]);
        }
      } else {
        assert e[0] in e;
        FilterMember(p.variants, FirstBitIs(bit), e[0]);
        var k :| 0 <= k < |p.variants| && p.variants[k] == e[0];
      }
    }
    |p.byFirstBit[bit]|
  }

  /**
   * Entry 64 of the table, the one for the empty word, is always empty: every
   * variant has a cell. The last-piece search reads it when the board is
   * already full before the last piece.
   */
  lemma EmptyWordEntry(p: Piece)
    requires WellFormed(p)
    ensures VariantCountByFirstBit(p, 64) == 0
  {
  }

  /** `getVariantByFirstBit`: the i-th variant in order among those with lowest bit `bit`. */
  function VariantByFirstBit(p: Piece, bit: int, i: int): (v: Word)
    requires WellFormed(p) && 0 <= bit < TABLE_SIZE && 0 <= i < |p.byFirstBit[bit]|
    ensures v in p.variants && TrailingZeros(v) == bit
  {
    var e := WithFirstBit(p.variants, bit);
    assert p.byFirstBit[bit] == e;
    assert e[i] in e;
    FilterMember(p.variants, FirstBitIs(bit), e[i]);
    p.byFirstBit[bit][i]
  }

  /** Entry `bit` of a piece's table holds exactly its variants with that lowest bit, in their order, duplicates included. */
  lemma FirstBitEntry(p: Piece, bit: int)
    requires WellFormed(p) && 0 <= bit < TABLE_SIZE
    ensures Subsequence(p.byFirstBit[bit], p.variants)
    ensures forall v :: multiset(p.byFirstBit[bit])[v] == if TrailingZeros(v) == bit then multiset(p.variants)[v] else 0
  {
    var e := WithFirstBit(p.variants, bit);
    assert p.byFirstBit[bit] == e;
    FilterKeeps(p.variants, FirstBitIs(bit));
  }

  /** The smallest and largest variant sizes bound every variant's size and are attained, when there is a variant. */
  lemma SizeBounds(p: Piece)
    requires WellFormed(p) && p.variants != []
    ensures forall k | 0 <= k < |p.variants| :: p.minSize <= |p.variants[k]| <= p.maxSize
    ensures exists k | 0 <= k < |p.variants| :: |p.variants[k]| == p.minSize
    ensures exists k | 0 <= k < |p.variants| :: |p.variants[k]| == p.maxSize
  {
  }

  // ---------------------------------------------------------------------------
  // Coverage test and pruning

  /** The union of the boards of vs that are disjoint from bb. */
  function Fitting(bb: Word, vs: seq<Word>): Word
  {
    if vs == [] then {} else Fitting(bb, vs[..|vs| - 1]) + if vs[|vs| - 1] * bb == {} then vs[|vs| - 1] else {}
  }

  /** A bit is in `Fitting` exactly when some board of vs disjoint from bb has it. */
  lemma {:induction false} FittingBits(bb: Word, vs: seq<Word>)
    ensures forall i: Bit :: i in Fitting(bb, vs) <==> exists k | 0 <= k < |vs| :: vs[k] * bb == {} && i in vs[k]
  {
    if vs != [] {
      FittingBits(bb, vs[..|vs| - 1]);
      assert forall k | 0 <= k < |vs| - 1 :: vs[..|vs| - 1][k] == vs[k];
    }
  }

  /** bb OR-ed with every variant, of the first n pieces, that is disjoint from bb. */
  function Reach(bb: Word, pieces: seq<Piece>, n: nat): (r: Word)
    requires n <= |pieces|
    ensures bb <= r
  {
    if n == 0 then bb else Reach(bb, pieces, n - 1) + Fitting(bb, pieces[n - 1].variants)
  }

  /** The result of `canFillAround`: after some piece, the accumulated board is the full board. */
  function CanFill(bb: Word, pieces: seq<Piece>): (r: bool)
    ensures pieces == [] ==> !r
  {
    exists n | 1 <= n <= |pieces| :: Reach(bb, pieces, n) == FULL_BOARD
  }

  /**
   * `canFillAround`: OR every fitting variant into the board, piece by piece,
   * and answer true as soon as the board is full after a piece.
   */
  method CanFillAround(bb: Word, pieces: seq<Piece>) returns (r: bool)
    ensures r == CanFill(bb, pieces)
  {
    var acc := bb;
    for i := 0 to |pieces|
      invariant acc == Reach(bb, pieces, i)
      invariant forall n | 1 <= n <= i :: Reach(bb, pieces, n) != FULL_BOARD
    {
      var piece := pieces[i];
      for j := 0 to |piece.variants|
        invariant acc == Reach(bb, pieces, i) + Fitting(bb, piece.variants[..j])
      {
        var pbb := piece.variants[j];
        assert piece.variants[..j + 1][..j] == piece.variants[..j];
        if pbb * bb == {} {
          acc := acc + pbb;
        }
      }
      assert piece.variants[..|piece.variants|] == piece.variants;
      assert acc == Reach(bb, pieces, i + 1);
      if acc == FULL_BOARD {
        return true;
      }
    }
    return false;
  }

  /** Every variant of every piece is a valid board. */
  ghost predicate ValidPieces(pieces: seq<Piece>)
  {
    forall j, k | 0 <= j < |pieces| && 0 <= k < |pieces[j].variants| :: Valid(pieces[j].variants[k])
  }

  /** Reach only grows with more pieces, and stays on the board when everything is valid. */
  lemma {:induction false} ReachGrows(bb: Word, pieces: seq<Piece>, m: nat, n: nat)
    requires m <= n <= |pieces|
    ensures Reach(bb, pieces, m) <= Reach(bb, pieces, n)
    ensures Valid(bb) && ValidPieces(pieces) ==> Reach(bb, pieces, n) <= FULL_BOARD
    decreases n
  {
    if n > 0 {
      ReachGrows(bb, pieces, if m < n then m else n - 1, n - 1);
      if Valid(bb) && ValidPieces(pieces) {
        ValidIsSubset(bb);
        FittingBits(bb, pieces[n - 1].variants);
        forall i | i in Fitting(bb, pieces[n - 1].variants)
          ensures i in FULL_BOARD
        {
          var k :| 0 <= k < |pieces[n - 1].variants| && pieces[n - 1].variants[k] * bb == {} && i in pieces[n - 1].variants[k];
          ValidIsSubset(pieces[n - 1].variants[k]);
        }
      }
    } else {
      if Valid(bb) {
        ValidIsSubset(bb);
      }
    }
  }

  /**
   * Testing only after each piece, and stopping early, gives the same answer
   * as one test after all pieces: for a valid board and valid pieces, the board
   * can be filled exactly when bb OR-ed with every fitting variant is the full board.
   */
  lemma CanFillAtEnd(bb: Word, pieces: seq<Piece>)
    requires Valid(bb) && ValidPieces(pieces) && pieces != []
    ensures CanFill(bb, pieces) <==> Reach(bb, pieces, |pieces|) == FULL_BOARD
  {
    if CanFill(bb, pieces) {
      var n :| 1 <= n <= |pieces| && Reach(bb, pieces, n) == FULL_BOARD;
      ReachGrows(bb, pieces, n, |pieces|);
    }
  }

  /**
   * When the test fails, there is a free cell that no variant disjoint from
   * bb covers, so no choice of variants can fill the board around bb.
   */
  lemma CanFillSound(bb: Word, pieces: seq<Piece>) returns (x: int, y: int)
    requires Valid(bb) && ValidPieces(pieces) && pieces != []
    requires !CanFill(bb, pieces)
    ensures InRange(x, y) && Index(x, y) !in bb
    ensures forall j, k | 0 <= j < |pieces| && 0 <= k < |pieces[j].variants| && pieces[j].variants[k] * bb == {} :: Index(x, y) !in pieces[j].variants[k]
  {
    CanFillAtEnd(bb, pieces);
    ReachGrows(bb, pieces, |pieces|, |pieces|);
    var r := Reach(bb, pieces, |pieces|);
    assert exists i :: i in FULL_BOARD && i !in r;
    var i :| i in FULL_BOARD && i !in r;
    ValidIsSubset(FULL_BOARD);
    x, y := ValidCell(FULL_BOARD, i);
    forall j, k | 0 <= j < |pieces| && 0 <= k < |pieces[j].variants| && pieces[j].variants[k] * bb == {}
      ensures Index(x, y) !in pieces[j].variants[k]
    {
      ReachGrows(bb, pieces, j + 1, |pieces|);
      FittingBits(bb, pieces[j].variants);
    }
  }

  /** The pieces of the list other than p. */
  function Others(p: Piece, pieces: seq<Piece>): (r: seq<Piece>)
    ensures p !in r
    ensures forall q | q in pieces && q != p :: q in r
  {
    var r := Filter(pieces, (q: Piece) => q != p);
    assert forall q :: q in r <==> q in pieces && q != p by {
      forall q {
        FilterMember(pieces, (q: Piece) => q != p, q);
      }
    }
    r
  }

  /** The test of `pruned`'s filter: the pieces can still fill the board around the variant. */
  function Survives(others: seq<Piece>): Word -> bool
  {
    (bb: Word) => CanFill(bb, others)
  }

  /** `pruned`: the same character, and the variants that pass the coverage test against the other pieces. */
  function Pruned(p: Piece, pieces: seq<Piece>): (r: Piece)
    ensures r.character == p.character
    ensures WellFormed(p) ==> WellFormed(r)
  {
    var others := Others(p, pieces);
    var vs := Filter(p.variants, Survives(others));
    assert WellFormed(p) ==> forall k | 0 <= k < |vs| :: Valid(vs[k]) && vs[k] != {} by {
      forall k | 0 <= k < |vs|
        ensures vs[k] in p.variants
      {
        FilterMember(p.variants, Survives(others), vs[k]);
      }
    }
    MakePiece(p.character, vs)
  }

  /**
   * A pruned piece keeps, in order and with their repetitions, exactly the
   * variants around which the other pieces can still fill the board.
   */
  lemma PrunedVariants(p: Piece, pieces: seq<Piece>)
    ensures Subsequence(Pruned(p, pieces).variants, p.variants)
    ensures forall v :: multiset(Pruned(p, pieces).variants)[v] == if CanFill(v, Others(p, pieces)) then multiset(p.variants)[v] else 0
  {
    FilterKeeps(p.variants, Survives(Others(p, pieces)));
  }
}
