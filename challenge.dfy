/**
 * A challenge: a text pattern of pieces already placed on the board. Parsing
 * it gives the occupied cells and the pieces still available, after checking
 * that every placed piece is drawn in the shape of one of its variants.
 */
module Challenges {
  import opened Bits
  import opened Wrappers
  import opened BitBoard
  import opened Pieces

  datatype Challenge = Challenge(occupied: Word, availablePieces: seq<Piece>)

  // ---------------------------------------------------------------------------
  // Looking up a piece by its character

  /** The first piece, from index `from` on, with character c. */
  function IndexFrom(pieces: seq<Piece>, c: char, from: nat): (r: Result<nat>)
    requires from <= |pieces|
    decreases |pieces| - from
  {
    if from == |pieces| then Err(NoPieceForCharacter(c))
    else if pieces[from].character == c then Ok(from)
    else IndexFrom(pieces, c, from + 1)
  }

  /** `findPieceIndexByCharacter`, as a function: the first index of a piece with character c. */
  function IndexOfCharacter(pieces: seq<Piece>, c: char): (r: Result<nat>)
  {
    IndexFrom(pieces, c, 0)
  }

  /** The search from `from` finds the first piece with the character there or later, or reports that there is none. */
  lemma {:induction false} IndexFromFinds(pieces: seq<Piece>, c: char, from: nat)
    requires from <= |pieces|
    ensures IndexFrom(pieces, c, from).Ok? ==> var p := IndexFrom(pieces, c, from).value;
      from <= p < |pieces| && pieces[p].character == c && forall q | from <= q < p :: pieces[q].character != c
    ensures IndexFrom(pieces, c, from).Err? ==>
      IndexFrom(pieces, c, from).error == NoPieceForCharacter(c) && forall q | from <= q < |pieces| :: pieces[q].character != c
    decreases |pieces| - from
  {
    if from < |pieces| && pieces[from].character != c {
      IndexFromFinds(pieces, c, from + 1);
    }
  }

  /** The index found is that of the first piece with the character; the error means no piece has it. */
  lemma IndexOfCharacterFinds(pieces: seq<Piece>, c: char)
    ensures IndexOfCharacter(pieces, c).Ok? ==> var p := IndexOfCharacter(pieces, c).value;
      p < |pieces| && pieces[p].character == c && forall q | 0 <= q < p :: pieces[q].character != c
    ensures IndexOfCharacter(pieces, c).Err? <==>
      IndexOfCharacter(pieces, c) == Err(NoPieceForCharacter(c)) && forall q | 0 <= q < |pieces| :: pieces[q].character != c
  {
    IndexFromFinds(pieces, c, 0);
  }

  /** `findPieceIndexByCharacter`: return the first index whose piece has character c, or raise the error. */
  method FindPieceIndexByCharacter(pieces: seq<Piece>, c: char) returns (r: Result<nat>)
    ensures r == IndexOfCharacter(pieces, c)
  {
    for p := 0 to |pieces|
      invariant IndexFrom(pieces, c, p) == IndexOfCharacter(pieces, c)
    {
      if pieces[p].character == c {
        return Ok(p);
      }
    }
    return Err(NoPieceForCharacter(c));
  }

  // ---------------------------------------------------------------------------
  // Scanning the pattern

  /** A mark of the pattern: cell (x, y), drawn with the character of piece `piece`. */
  datatype Stroke = Stroke(x: int, y: int, piece: nat)

  /** The marks of a, then those of b, keeping the first error. */
  function Then(a: Result<seq<Stroke>>, b: Result<seq<Stroke>>): Result<seq<Stroke>>
  {
    if a.Err? then a else if b.Err? then b else Ok(a.value + b.value)
  }

  /** `Then` keeps the first error, so it groups either way. */
  lemma ThenAssociative(a: Result<seq<Stroke>>, b: Result<seq<Stroke>>, c: Result<seq<Stroke>>)
    ensures Then(Then(a, b), c) == Then(a, Then(b, c))
  {
    if a.Ok? && b.Ok? && c.Ok? {
      assert (a.value + b.value) + c.value == a.value + (b.value + c.value);
    }
  }

  /** No marks add nothing. */
  lemma ThenEmpty(c: Result<seq<Stroke>>)
    ensures Then(Ok([]), c) == c
  {
    if c.Ok? {
      assert [] + c.value == c.value;
    }
  }

  /** The mark at (x, y) drawn with c: its bit must exist, then its piece. */
  function CellStroke(pieces: seq<Piece>, c: char, x: int, y: int): Result<seq<Stroke>>
  {
    match GetBit(x, y)
    case Err(e) => Err(e)
    case Ok(_) =>
      match IndexOfCharacter(pieces, c)
      case Err(e) => Err(e)
      case Ok(p) => Ok([Stroke(x, y, p)])
  }

  /** A mark that parses: on the board, and drawn with the character of some piece. */
  predicate GoodCell(pieces: seq<Piece>, c: char, x: int, y: int)
  {
    InRange(x, y) && IndexOfCharacter(pieces, c).Ok?
  }

  /** The error of a mark that does not parse: the range check comes first. */
  function CellError(pieces: seq<Piece>, c: char, x: int, y: int): Error
  {
    if !InRange(x, y) then CoordinateOutOfRange(x, y) else NoPieceForCharacter(c)
  }

  /** The marks of row y from column x on, or the error of the first that does not parse. */
  function StrokesFrom(pieces: seq<Piece>, row: string, y: int, x: nat): Result<seq<Stroke>>
    requires x <= |row|
    decreases |row| - x
  {
    if x == |row| then Ok([])
    else if row[x] == ' ' then StrokesFrom(pieces, row, y, x + 1)
    else Then(CellStroke(pieces, row[x], x, y), StrokesFrom(pieces, row, y, x + 1))
  }

  /** The marks of the rows from y on, or the error of the first that does not parse. */
  function StrokesBelow(pieces: seq<Piece>, rows: seq<string>, y: nat): Result<seq<Stroke>>
    requires y <= |rows|
    decreases |rows| - y
  {
    if y == |rows| then Ok([]) else Then(StrokesFrom(pieces, rows[y], y, 0), StrokesBelow(pieces, rows, y + 1))
  }

  /** The marks of the pattern, in row-major order. */
  function Strokes(pieces: seq<Piece>, pattern: string): Result<seq<Stroke>>
  {
    StrokesBelow(pieces, Split(pattern), 0)
  }

  /** The stroke is the mark at its cell, with the index of the first piece of its character. */
  ghost predicate StrokeOfRow(pieces: seq<Piece>, row: string, y: int, x: nat, s: Stroke)
  {
    s.y == y && x <= s.x < |row| && row[s.x] != ' ' && InRange(s.x, s.y) && IndexOfCharacter(pieces, row[s.x]) == Ok(s.piece)
  }

  /** What one row contributes: a stroke for each of its marks, or the error of the first mark that does not parse. */
  lemma {:induction false} StrokesFromFacts(pieces: seq<Piece>, row: string, y: int, x: nat)
    requires x <= |row|
    ensures StrokesFrom(pieces, row, y, x).Ok? <==> forall i | x <= i < |row| && row[i] != ' ' :: GoodCell(pieces, row[i], i, y)
    ensures StrokesFrom(pieces, row, y, x).Ok? ==>
      forall s :: s in StrokesFrom(pieces, row, y, x).value <==> StrokeOfRow(pieces, row, y, x, s)
    ensures StrokesFrom(pieces, row, y, x).Err? ==>
      exists ex | x <= ex < |row| && row[ex] != ' ' && !GoodCell(pieces, row[ex], ex, y) ::
        StrokesFrom(pieces, row, y, x).error == CellError(pieces, row[ex], ex, y)
        && forall i | x <= i < ex && row[i] != ' ' :: GoodCell(pieces, row[i], i, y)
    decreases |row| - x
  {
    if x < |row| {
      StrokesFromFacts(pieces, row, y, x + 1);
      var rest := StrokesFrom(pieces, row, y, x + 1);
      if rest.Err? && (row[x] == ' ' || GoodCell(pieces, row[x], x, y)) {
        var ex :| x + 1 <= ex < |row| && row[ex] != ' ' && !GoodCell(pieces, row[ex], ex, y)
          && rest.error == CellError(pieces, row[ex], ex, y)
          && forall i | x + 1 <= i < ex && row[i] != ' ' :: GoodCell(pieces, row[i], i, y);
        assert forall i | x <= i < ex && row[i] != ' ' :: GoodCell(pieces, row[i], i, y);
      }
      if row[x] != ' ' {
        if !GoodCell(pieces, row[x], x, y) {
          IndexOfCharacterFinds(pieces, row[x]);
          assert CellStroke(pieces, row[x], x, y) == Err(CellError(pieces, row[x], x, y));
          assert x <= x < |row| && row[x] != ' ' && !GoodCell(pieces, row[x], x, y)
            && StrokesFrom(pieces, row, y, x).error == CellError(pieces, row[x], x, y);
        } else if rest.Ok? {
          var s0 := Stroke(x, y, IndexOfCharacter(pieces, row[x]).value);
          assert StrokesFrom(pieces, row, y, x).value == [s0] + rest.value;
          forall s
            ensures s in [s0] + rest.value <==> StrokeOfRow(pieces, row, y, x, s)
          {
            assert s in [s0] + rest.value <==> s == s0 || s in rest.value;
          }
        }
      }
    }
  }

  /** The stroke is a mark of the rows from y on, with the index of the first piece of its character. */
  ghost predicate StrokeOfRows(pieces: seq<Piece>, rows: seq<string>, y: int, s: Stroke)
  {
    y <= s.y && Mark(rows, s.x, s.y) && InRange(s.x, s.y) && IndexOfCharacter(pieces, rows[s.y][s.x]) == Ok(s.piece)
  }

  /** Every mark of the rows from y on, before (x, y') in row-major order, parses. */
  ghost predicate GoodBefore(pieces: seq<Piece>, rows: seq<string>, y: int, x': int, y': int)
  {
    forall cx, cy | y <= cy && Before(cx, cy, x', y') && Mark(rows, cx, cy) :: GoodCell(pieces, rows[cy][cx], cx, cy)
  }

  /** The error is that of the first mark, from row y on, that does not parse. */
  ghost predicate FirstBadStroke(pieces: seq<Piece>, rows: seq<string>, y: int, e: Error)
  {
    exists ex, ey | y <= ey && Mark(rows, ex, ey) && !GoodCell(pieces, rows[ey][ex], ex, ey) ::
      e == CellError(pieces, rows[ey][ex], ex, ey) && GoodBefore(pieces, rows, y, ex, ey)
  }

  /** The error of row y, when the rows below are not reached. */
  lemma RowErrorFirst(pieces: seq<Piece>, rows: seq<string>, y: nat)
    requires y < |rows| && StrokesFrom(pieces, rows[y], y, 0).Err?
    ensures FirstBadStroke(pieces, rows, y, StrokesFrom(pieces, rows[y], y, 0).error)
  {
    StrokesFromFacts(pieces, rows[y], y, 0);
    var e := StrokesFrom(pieces, rows[y], y, 0).error;
    var ex :| 0 <= ex < |rows[y]| && rows[y][ex] != ' ' && !GoodCell(pieces, rows[y][ex], ex, y)
      && e == CellError(pieces, rows[y][ex], ex, y)
      && forall i | 0 <= i < ex && rows[y][i] != ' ' :: GoodCell(pieces, rows[y][i], i, y);
    assert Mark(rows, ex, y);
    assert GoodBefore(pieces, rows, y, ex, y);
  }

  /** The error of a later row, when row y parses. */
  lemma LaterErrorFirst(pieces: seq<Piece>, rows: seq<string>, y: nat, e: Error)
    requires y < |rows| && StrokesFrom(pieces, rows[y], y, 0).Ok?
    requires FirstBadStroke(pieces, rows, y + 1, e)
    ensures FirstBadStroke(pieces, rows, y, e)
  {
    StrokesFromFacts(pieces, rows[y], y, 0);
    var ex, ey :| y + 1 <= ey && Mark(rows, ex, ey) && !GoodCell(pieces, rows[ey][ex], ex, ey)
      && e == CellError(pieces, rows[ey][ex], ex, ey) && GoodBefore(pieces, rows, y + 1, ex, ey);
    forall cx, cy | y <= cy && Before(cx, cy, ex, ey) && Mark(rows, cx, cy)
      ensures GoodCell(pieces, rows[cy][cx], cx, cy)
    {
      if cy == y {
        assert rows[y][cx] != ' ';
      }
    }
  }

  /** What the rows from y on contribute: a stroke for each mark, or the error of the first mark that does not parse. */
  lemma {:induction false} StrokesBelowFacts(pieces: seq<Piece>, rows: seq<string>, y: nat)
    requires y <= |rows|
    ensures StrokesBelow(pieces, rows, y).Ok? <==> forall cx, cy | y <= cy && Mark(rows, cx, cy) :: GoodCell(pieces, rows[cy][cx], cx, cy)
    ensures StrokesBelow(pieces, rows, y).Ok? ==>
      forall s :: s in StrokesBelow(pieces, rows, y).value <==> StrokeOfRows(pieces, rows, y, s)
    ensures StrokesBelow(pieces, rows, y).Err? ==> FirstBadStroke(pieces, rows, y, StrokesBelow(pieces, rows, y).error)
    decreases |rows| - y
  {
    if y < |rows| {
      StrokesFromFacts(pieces, rows[y], y, 0);
      StrokesBelowFacts(pieces, rows, y + 1);
      var row, rest := StrokesFrom(pieces, rows[y], y, 0), StrokesBelow(pieces, rows, y + 1);
      if row.Err? {
        RowErrorFirst(pieces, rows, y);
      } else if rest.Err? {
        LaterErrorFirst(pieces, rows, y, rest.error);
      } else {
        forall s
          ensures s in row.value + rest.value <==> StrokeOfRows(pieces, rows, y, s)
        {
          assert s in row.value + rest.value <==> s in row.value || s in rest.value;
          assert StrokeOfRow(pieces, rows[y], y, 0, s) <==> StrokeOfRows(pieces, rows, y, s) && s.y == y;
        }
      }
    }
  }

  /** The cells of the strokes. */
  function Cells(ms: seq<Stroke>): Word
  {
    if ms == [] then {}
    else
      var s := ms[|ms| - 1];
      Cells(ms[..|ms| - 1]) + if InRange(s.x, s.y) then {Index(s.x, s.y)} else {}
  }

  /** The cells of the strokes of piece q. */
  function PieceCells(ms: seq<Stroke>, q: int): Word
  {
    if ms == [] then {}
    else
      var s := ms[|ms| - 1];
      PieceCells(ms[..|ms| - 1], q) + if InRange(s.x, s.y) && s.piece == q then {Index(s.x, s.y)} else {}
  }

  /** A cell is in `Cells` exactly when some stroke on the board is at it, and in `PieceCells` when that stroke is of piece q. */
  lemma {:induction false} CellsOf(ms: seq<Stroke>, q: int, x: int, y: int)
    requires InRange(x, y)
    ensures Index(x, y) in Cells(ms) <==> exists k | 0 <= k < |ms| :: ms[k].x == x && ms[k].y == y
    ensures Index(x, y) in PieceCells(ms, q) <==> exists k | 0 <= k < |ms| :: ms[k].x == x && ms[k].y == y && ms[k].piece == q
  {
    if ms != [] {
      var s := ms[|ms| - 1];
      CellsOf(ms[..|ms| - 1], q, x, y);
      assert forall k | 0 <= k < |ms| - 1 :: ms[..|ms| - 1][k] == ms[k];
      if InRange(s.x, s.y) {
        IndexInjective(s.x, s.y, x, y);
      }
    }
  }

  /** The strokes' cells, of any piece or of one, are valid boards. */
  lemma {:induction false} CellsValid(ms: seq<Stroke>, q: int)
    ensures Valid(Cells(ms)) && Valid(PieceCells(ms, q))
  {
    if ms != [] {
      CellsValid(ms[..|ms| - 1], q);
      var s := ms[|ms| - 1];
      ValidIsSubset(Cells(ms[..|ms| - 1]));
      ValidIsSubset(PieceCells(ms[..|ms| - 1], q));
      if InRange(s.x, s.y) {
        SingleBitValid(Index(s.x, s.y));
        ValidIsSubset({Index(s.x, s.y)});
      }
      ValidIsSubset(Cells(ms));
      ValidIsSubset(PieceCells(ms, q));
    }
  }

  // ---------------------------------------------------------------------------
  // Checking and removing the placed pieces

  /** The pieces from index lo on whose drawn cells are empty, in order. */
  function Kept(pieces: seq<Piece>, boards: seq<Word>, lo: nat): seq<Piece>
    requires |boards| == |pieces| && lo <= |pieces|
    decreases |pieces| - lo
  {
    if lo == |pieces| then []
    else (if boards[lo] == {} then [pieces[lo]] else []) + Kept(pieces, boards, lo + 1)
  }

  /** Piece q is drawn, but not in the shape of any of its variants. */
  predicate Misdrawn(pieces: seq<Piece>, boards: seq<Word>, q: nat)
    requires |boards| == |pieces| && q < |pieces|
  {
    boards[q] != {} && boards[q] !in pieces[q].variants
  }

  /** The highest index below k of a piece drawn in a shape that is not one of its variants. */
  function Mismatch(pieces: seq<Piece>, boards: seq<Word>, k: nat): Option<nat>
    requires |boards| == |pieces| && k <= |pieces|
  {
    if k == 0 then None
    else if Misdrawn(pieces, boards, k - 1) then Some(k - 1)
    else Mismatch(pieces, boards, k - 1)
  }

  /** The drawn cells of each piece. */
  function Boards(ms: seq<Stroke>, n: nat): (boards: seq<Word>)
    ensures |boards| == n
  {
    seq(n, q => PieceCells(ms, q))
  }

  /** The pieces not drawn, or the error of the last piece drawn in a shape that is not one of its variants. */
  function Available(pieces: seq<Piece>, boards: seq<Word>): Result<seq<Piece>>
    requires |boards| == |pieces|
  {
    match Mismatch(pieces, boards, |pieces|)
    case Some(p) => Err(PieceDoesNotMatchPattern(p))
    case None => Ok(Kept(pieces, boards, 0))
  }

  /**
   * The constructor with `parse`, as a function: the marks of the pattern (or
   * the first error among them), then the check of the placed pieces from the
   * last one down (or the first error among them), then the occupied cells and
   * the pieces not drawn.
   */
  function ChallengeOf(pieces: seq<Piece>, pattern: string): Result<Challenge>
  {
    match Strokes(pieces, pattern)
    case Err(e) => Err(e)
    case Ok(ms) =>
      match Available(pieces, Boards(ms, |pieces|))
      case Err(e) => Err(e)
      case Ok(available) => Ok(Challenge(Cells(ms), available))
  }

  /** The next stroke, added to those scanned so far. */
  lemma ThenStroke(done: seq<Stroke>, s: Stroke, rest: Result<seq<Stroke>>)
    ensures Then(Ok(done), Then(Ok([s]), rest)) == Then(Ok(done + [s]), rest)
  {
    ThenAssociative(Ok(done), Ok([s]), rest);
  }

  /** `Mismatch` finds the highest misdrawn piece below k, and none when there is none. */
  lemma {:induction false} MismatchFinds(pieces: seq<Piece>, boards: seq<Word>, k: nat)
    requires |boards| == |pieces| && k <= |pieces|
    ensures Mismatch(pieces, boards, k).Some? ==> var p := Mismatch(pieces, boards, k).value;
      p < k && Misdrawn(pieces, boards, p) && forall q | p < q < k :: !Misdrawn(pieces, boards, q)
    ensures Mismatch(pieces, boards, k).None? <==> forall q | 0 <= q < k :: !Misdrawn(pieces, boards, q)
  {
    if k > 0 {
      MismatchFinds(pieces, boards, k - 1);
    }
  }

  /** `Kept` keeps, in order, exactly the pieces from lo on whose boards are empty. */
  lemma {:induction false} KeptFacts(pieces: seq<Piece>, boards: seq<Word>, lo: nat)
    requires |boards| == |pieces| && lo <= |pieces|
    ensures Subsequence(Kept(pieces, boards, lo), pieces[lo..])
    ensures forall c :: c in Kept(pieces, boards, lo) <==> exists q | lo <= q < |pieces| :: boards[q] == {} && pieces[q] == c
    decreases |pieces| - lo
  {
    if lo < |pieces| {
      KeptFacts(pieces, boards, lo + 1);
      var s, t := Kept(pieces, boards, lo), pieces[lo..];
      assert t[1..] == pieces[lo + 1..];
      if boards[lo] == {} {
        assert s[0] == t[0] && s[1..] == Kept(pieces, boards, lo + 1);
      } else {
        assert s == Kept(pieces, boards, lo + 1);
      }
    }
  }

  /** The mark at (x, y) is drawn with the character of piece q (the first piece with it). */
  ghost predicate MarkOf(pieces: seq<Piece>, rows: seq<string>, q: int, x: int, y: int)
  {
    Mark(rows, x, y) && IndexOfCharacter(pieces, rows[y][x]) == Ok(q)
  }

  /** Piece q is drawn somewhere in the pattern. */
  ghost predicate Used(pieces: seq<Piece>, rows: seq<string>, q: int)
  {
    exists x, y :: MarkOf(pieces, rows, q, x, y)
  }

  /** Every mark of the rows is on the board and drawn with the character of a piece. */
  ghost predicate MarksGood(pieces: seq<Piece>, rows: seq<string>)
  {
    forall x, y | Mark(rows, x, y) :: GoodCell(pieces, rows[y][x], x, y)
  }

  /** When the scan succeeds, a cell is occupied exactly when it is marked, and in piece q's board exactly when marked with q's character. */
  lemma StrokeCells(pieces: seq<Piece>, pattern: string, q: int, x: int, y: int)
    requires Strokes(pieces, pattern).Ok? && InRange(x, y)
    ensures Index(x, y) in Cells(Strokes(pieces, pattern).value) <==> Mark(Split(pattern), x, y)
    ensures Index(x, y) in PieceCells(Strokes(pieces, pattern).value, q) <==> MarkOf(pieces, Split(pattern), q, x, y)
  {
    var rows, ms := Split(pattern), Strokes(pieces, pattern).value;
    StrokesBelowFacts(pieces, rows, 0);
    CellsOf(ms, q, x, y);
    if Mark(rows, x, y) {
      var s := Stroke(x, y, IndexOfCharacter(pieces, rows[y][x]).value);
      assert StrokeOfRows(pieces, rows, 0, s);
      var k :| 0 <= k < |ms| && ms[k] == s;
    }
    forall k | 0 <= k < |ms| && ms[k].x == x && ms[k].y == y
      ensures Mark(rows, x, y) && IndexOfCharacter(pieces, rows[y][x]) == Ok(ms[k].piece)
    {
      assert StrokeOfRows(pieces, rows, 0, ms[k]);
    }
  }

  /** A piece's drawn board is empty exactly when the piece is not drawn, once every mark parses. */
  lemma UnusedEmpty(pieces: seq<Piece>, pattern: string, q: int)
    requires Strokes(pieces, pattern).Ok?
    ensures PieceCells(Strokes(pieces, pattern).value, q) == {} <==> !Used(pieces, Split(pattern), q)
  {
    var rows, ms := Split(pattern), Strokes(pieces, pattern).value;
    StrokesBelowFacts(pieces, rows, 0);
    if Used(pieces, rows, q) {
      var x, y :| MarkOf(pieces, rows, q, x, y);
      assert GoodCell(pieces, rows[y][x], x, y);
      StrokeCells(pieces, pattern, q, x, y);
    }
    if PieceCells(ms, q) != {} {
      CellsValid(ms, q);
      var i :| i in PieceCells(ms, q);
      var x, y := ValidCell(PieceCells(ms, q), i);
      StrokeCells(pieces, pattern, q, x, y);
    }
  }

  /**
   * The constructor succeeds exactly when every mark is on the board and
   * drawn with the character of a piece, and no drawn piece has a shape that
   * is not one of its variants. Otherwise its error is that of the first bad
   * mark in row-major order, or else names the last misdrawn piece.
   */
  lemma ChallengeOfErrors(pieces: seq<Piece>, pattern: string)
    ensures Strokes(pieces, pattern).Ok? <==> MarksGood(pieces, Split(pattern))
    ensures ChallengeOf(pieces, pattern).Ok? <==> (MarksGood(pieces, Split(pattern))
      && forall q | 0 <= q < |pieces| :: !Misdrawn(pieces, Boards(Strokes(pieces, pattern).value, |pieces|), q))
    ensures Strokes(pieces, pattern).Err? ==>
      ChallengeOf(pieces, pattern).Err? && FirstBadStroke(pieces, Split(pattern), 0, ChallengeOf(pieces, pattern).error)
    ensures ChallengeOf(pieces, pattern).Err? && Strokes(pieces, pattern).Ok? ==>
      var boards := Boards(Strokes(pieces, pattern).value, |pieces|);
      exists p | 0 <= p < |pieces| && Misdrawn(pieces, boards, p) ::
        ChallengeOf(pieces, pattern).error == PieceDoesNotMatchPattern(p)
        && forall q | p < q < |pieces| :: !Misdrawn(pieces, boards, q)
  {
    var rows := Split(pattern);
    StrokesBelowFacts(pieces, rows, 0);
    if Strokes(pieces, pattern).Ok? {
      var boards := Boards(Strokes(pieces, pattern).value, |pieces|);
      MismatchFinds(pieces, boards, |pieces|);
    }
  }

  /**
   * After a successful parse the occupied board holds exactly the marked
   * cells, each piece's drawn board is one of its variants, and the available
   * pieces are, in order, those not drawn in the pattern.
   */
  lemma ChallengeOfResult(pieces: seq<Piece>, pattern: string)
    requires ChallengeOf(pieces, pattern).Ok?
    ensures var occupied := ChallengeOf(pieces, pattern).value.occupied;
      Valid(occupied) && forall x, y | InRange(x, y) :: HasCell(occupied, x, y) <==> Mark(Split(pattern), x, y)
    ensures var boards := Boards(Strokes(pieces, pattern).value, |pieces|);
      forall q | 0 <= q < |pieces| && Used(pieces, Split(pattern), q) :: boards[q] in pieces[q].variants
    ensures var available := ChallengeOf(pieces, pattern).value.availablePieces;
      Subsequence(available, pieces)
      && forall c :: c in available <==> exists q | 0 <= q < |pieces| :: pieces[q] == c && !Used(pieces, Split(pattern), q)
  {
    var rows, ms := Split(pattern), Strokes(pieces, pattern).value;
    var boards := Boards(ms, |pieces|);
    CellsValid(ms, 0);
    forall x, y | InRange(x, y)
      ensures HasCell(Cells(ms), x, y) <==> Mark(rows, x, y)
    {
      StrokeCells(pieces, pattern, 0, x, y);
    }
    assert Mismatch(pieces, boards, |pieces|) == None;
    MismatchFinds(pieces, boards, |pieces|);
    forall q | 0 <= q < |pieces|
      ensures boards[q] == {} <==> !Used(pieces, rows, q)
      ensures Used(pieces, rows, q) ==> boards[q] in pieces[q].variants
    {
      UnusedEmpty(pieces, pattern, q);
      assert !Misdrawn(pieces, boards, q);
    }
    KeptFacts(pieces, boards, 0);
    assert pieces[0..] == pieces;
  }

  /** Between pieces with distinct characters, a piece is drawn exactly when its character appears in the pattern. */
  lemma UsedByCharacter(pieces: seq<Piece>, rows: seq<string>, q: int)
    requires 0 <= q < |pieces|
    requires forall i, j | 0 <= i < j < |pieces| :: pieces[i].character != pieces[j].character
    ensures Used(pieces, rows, q) <==> exists x, y :: Mark(rows, x, y) && rows[y][x] == pieces[q].character
  {
    IndexOfCharacterFinds(pieces, pieces[q].character);
    if exists x, y :: Mark(rows, x, y) && rows[y][x] == pieces[q].character {
      var x, y :| Mark(rows, x, y) && rows[y][x] == pieces[q].character;
      assert MarkOf(pieces, rows, q, x, y);
    }
    if Used(pieces, rows, q) {
      var x, y :| MarkOf(pieces, rows, q, x, y);
      IndexOfCharacterFinds(pieces, rows[y][x]);
    }
  }

  /** The scan of one row of the pattern: OR each mark's bit into the occupied board and into its piece's board. */
  method ScanRow(pieces: seq<Piece>, row: string, y: int, pieceBoards: array<Word>, occupied0: Word, ghost done0: seq<Stroke>)
    returns (err: Option<Error>, occupied: Word, ghost done: seq<Stroke>)
    requires pieceBoards.Length == |pieces|
    requires occupied0 == Cells(done0)
    requires forall q | 0 <= q < pieceBoards.Length :: pieceBoards[q] == PieceCells(done0, q)
    modifies pieceBoards
    ensures err.None? ==> Then(Ok(done0), StrokesFrom(pieces, row, y, 0)) == Ok(done)
    ensures err.None? ==> occupied == Cells(done) && forall q | 0 <= q < pieceBoards.Length :: pieceBoards[q] == PieceCells(done, q)
    ensures err.Some? ==> Then(Ok(done0), StrokesFrom(pieces, row, y, 0)) == Err(err.value)
  {
    occupied, done := occupied0, done0;
    for x := 0 to |row|
      invariant Then(Ok(done), StrokesFrom(pieces, row, y, x)) == Then(Ok(done0), StrokesFrom(pieces, row, y, 0))
      invariant occupied == Cells(done)
      invariant forall q | 0 <= q < pieceBoards.Length :: pieceBoards[q] == PieceCells(done, q)
    {
      if row[x] != ' ' {
        var rest := StrokesFrom(pieces, row, y, x + 1);
        var bit := GetBit(x, y);
        if bit.Err? {
          return Some(bit.error), occupied, done;
        }
        var p := FindPieceIndexByCharacter(pieces, row[x]);
        if p.Err? {
          return Some(p.error), occupied, done;
        }
        IndexOfCharacterFinds(pieces, row[x]);
        var s := Stroke(x, y, p.value);
        ThenAssociative(Ok(done), Ok([s]), rest);
        assert (done + [s])[..|done|] == done;
        occupied := occupied + bit.value;
        pieceBoards[p.value] := pieceBoards[p.value] + bit.value;
        done := done + [s];
      }
    }
    assert done + [] == done;
    return None, occupied, done;
  }

  /** The scan of the whole pattern: the occupied board and the board of each piece. */
  method ScanPattern(pieces: seq<Piece>, pattern: string) returns (r: Result<(Word, seq<Word>)>)
    ensures r.Err? ==> Strokes(pieces, pattern) == Err(r.error)
    ensures r.Ok? ==> Strokes(pieces, pattern).Ok?
    ensures r.Ok? ==> r.value == (Cells(Strokes(pieces, pattern).value), Boards(Strokes(pieces, pattern).value, |pieces|))
  {
    var pieceBoards := new Word[|pieces|](_ => {});
    var occupied: Word := {};
    ghost var done: seq<Stroke> := [];
    var rows := Split(pattern);
    ThenEmpty(StrokesBelow(pieces, rows, 0));
    for y := 0 to |rows|
      invariant Then(Ok(done), StrokesBelow(pieces, rows, y)) == StrokesBelow(pieces, rows, 0)
      invariant occupied == Cells(done)
      invariant forall q | 0 <= q < pieceBoards.Length :: pieceBoards[q] == PieceCells(done, q)
    {
      var rest := StrokesBelow(pieces, rows, y + 1);
      ThenAssociative(Ok(done), StrokesFrom(pieces, rows[y], y, 0), rest);
      var err;
      err, occupied, done := ScanRow(pieces, rows[y], y, pieceBoards, occupied, done);
      if err.Some? {
        return Err(err.value);
      }
    }
    assert done + [] == done;
    assert pieceBoards[..] == Boards(done, |pieces|);
    return Ok((occupied, pieceBoards[..]));
  }

  /**
   * The second half of `parse`: walk the pieces from the last down, removing
   * each drawn one from a copy of the list after checking that it is drawn as
   * one of its variants.
   */
  method RemoveUsed(pieces: seq<Piece>, pieceBoards: seq<Word>) returns (r: Result<seq<Piece>>)
    requires |pieceBoards| == |pieces|
    ensures r == Available(pieces, pieceBoards)
  {
    var piecesCopy := pieces;
    var p := |pieces|;
    while p > 0
      invariant 0 <= p <= |pieces|
      invariant piecesCopy == pieces[..p] + Kept(pieces, pieceBoards, p)
      invariant Mismatch(pieces, pieceBoards, |pieces|) == Mismatch(pieces, pieceBoards, p)
    {
      p := p - 1;
      if pieceBoards[p] != {} {
        var piece := piecesCopy[p];
        assert piece == pieces[p];
        piecesCopy := piecesCopy[..p] + piecesCopy[p + 1..];
        assert piecesCopy == pieces[..p] + Kept(pieces, pieceBoards, p + 1);
        var found := false;
        for i := 0 to |piece.variants|
          invariant !found
          invariant forall j | 0 <= j < i :: piece.variants[j] != pieceBoards[p]
        {
          var bb := piece.variants[i];
          if bb == pieceBoards[p] {
            found := true;
            break;
          }
        }
        if !found {
          return Err(PieceDoesNotMatchPattern(p));
        }
      } else {
        assert pieces[..p + 1] == pieces[..p] + [pieces[p]];
      }
    }
    assert pieces[..0] == [];
    assert Mismatch(pieces, pieceBoards, |pieces|) == None;
    assert piecesCopy == Kept(pieces, pieceBoards, 0);
    return Ok(piecesCopy);
  }

  /** `new Challenge(pieces, pattern)`: parse the pattern against a copy of the piece list. */
  method NewChallenge(pieces: seq<Piece>, pattern: string) returns (r: Result<Challenge>)
    ensures r == ChallengeOf(pieces, pattern)
  {
    var scan := ScanPattern(pieces, pattern);
    if scan.Err? {
      return Err(scan.error);
    }
    var (occupied, pieceBoards) := scan.value;
    var available := RemoveUsed(pieces, pieceBoards);
    if available.Err? {
      return Err(available.error);
    }
    return Ok(Challenge(occupied, available.value));
  }
}
