/**
 * The solver that fills the board one position at a time: the lowest empty
 * cell is covered next, by every variant of every unused piece that has that
 * cell as its lowest bit. Which pieces are used is kept in the occupied word
 * itself: the mask of a variant of piece p is the variant with the tag bit
 * 63 - p, one of the bits above the board, so a single test `mask & occupied`
 * rejects both a variant that overlaps and a piece already placed.
 */
module ByPosition {
  import opened Bits
  import opened Wrappers
  import opened BitBoard
  import opened Pieces
  import opened Tilings
  import ByPiece

  // ---------------------------------------------------------------------------
  // The masks

  /** `1L << (63 - p)`: the bit that marks piece p as used. */
  function TagBit(p: nat): Word
    requires p < 64
  {
    {(63 - p) as Bit}
  }

  /** Every piece has its full first-bit table, as the constructors build it. */
  ghost predicate Tabled(ps: seq<Piece>)
  {
    forall p | 0 <= p < |ps| :: |ps[p].byFirstBit| == TABLE_SIZE
  }

  /** The masks of piece p at position pos: its variants with that lowest bit, in order, each with the tag bit of p. */
  function PieceMasks(piece: Piece, p: nat, pos: nat): (r: seq<Word>)
    requires p < 64 && pos < |piece.byFirstBit|
    ensures |r| == |piece.byFirstBit[pos]|
  {
    seq(|piece.byFirstBit[pos]|, i requires 0 <= i < |piece.byFirstBit[pos]| => piece.byFirstBit[pos][i] + TagBit(p))
  }

  /** The first i + 1 masks of piece p at pos are the first i and the next variant with the tag bit. */
  lemma PieceMasksNext(piece: Piece, p: nat, pos: nat, i: nat)
    requires p < 64 && pos < |piece.byFirstBit| && i < |piece.byFirstBit[pos]|
    ensures PieceMasks(piece, p, pos)[..i + 1] == PieceMasks(piece, p, pos)[..i] + [piece.byFirstBit[pos][i] + TagBit(p)]
  {
  }

  /** The first i + 1 elements of a sequence. */
  lemma TakeNext<T>(s: seq<T>, i: nat)
    requires i < |s|
    ensures s[..i + 1] == s[..i] + [s[i]]
  {
  }

  /** Pieces built by the constructors have their full first-bit tables. */
  lemma WellFormedTabled(ps: seq<Piece>)
    requires ByPiece.AllWellFormed(ps)
    ensures Tabled(ps)
  {
    forall p | 0 <= p < |ps|
      ensures |ps[p].byFirstBit| == TABLE_SIZE
    {
      assert WellFormed(ps[p]);
    }
  }

  /** The masks at position pos of the first m pieces, piece after piece. */
  function MasksUpTo(ps: seq<Piece>, pos: nat, m: nat): seq<Word>
    requires m <= |ps| <= 64 && pos < TABLE_SIZE && Tabled(ps)
  {
    if m == 0 then [] else MasksUpTo(ps, pos, m - 1) + PieceMasks(ps[m - 1], m - 1, pos)
  }

  /** `pieceMasksByPos`: for each of the 64 positions, the masks of all pieces there. */
  function MaskTable(ps: seq<Piece>): (t: seq<seq<Word>>)
    requires |ps| <= 64 && Tabled(ps)
    ensures |t| == 64
  {
    seq(64, pos requires 0 <= pos < 64 => MasksUpTo(ps, pos, |ps|))
  }

  /** `maxPos`: the highest position below k that has a mask, or 0 when none has. */
  function LastUsed(t: seq<seq<Word>>, k: nat): (r: nat)
    requires k <= |t|
    ensures r < k || r == 0
    ensures 0 < r ==> r < k && t[r] != []
    ensures forall pos | r < pos < k :: t[pos] == []
  {
    if k == 0 then 0 else if t[k - 1] != [] then k - 1 else LastUsed(t, k - 1)
  }

  /** `(1L << 63) >> (n - 1)`: Java takes a long's shift distance modulo 64. */
  function AllPiecesMask(n: int): Word
  {
    ShiftRightSigned(ShiftLeft({0}, 63), (n - 1) % 64)
  }

  /** `solvedMask`: the occupied word once the board is full and every piece is used. */
  function SolvedMask(n: int): Word
  {
    FULL_BOARD + AllPiecesMask(n)
  }

  /** Bit i is the tag bit of one of pieces 0 to n - 1. */
  predicate IsTag(n: nat, i: Bit)
  {
    64 - n <= i
  }

  /** The tag bits of pieces 0 to n - 1. */
  function Tags(n: nat): Word
  {
    set i: Bit | IsTag(n, i)
  }

  /** The three tables a solver computes from its pieces. */
  datatype Masks = Masks(byPos: seq<seq<Word>>, maxPos: int, solved: Word)

  /** What the constructor computes from the pieces. */
  function Setup(ps: seq<Piece>): Masks
    requires |ps| <= 64 && Tabled(ps)
  {
    var t := MaskTable(ps);
    Masks(t, LastUsed(t, 64), SolvedMask(|ps|))
  }

  /** What the search relies on: 64 positions, maxPos one of them, and each mask a tag bit off the board. */
  ghost predicate Tagged(m: Masks)
  {
    |m.byPos| == 64 && 0 <= m.maxPos < 64
    && forall pos, k | 0 <= pos < 64 && 0 <= k < |m.byPos[pos]| :: !(m.byPos[pos][k] <= FULL_BOARD)
  }

  // ---------------------------------------------------------------------------
  // The search

  /** `numberOfTrailingZeros(occupied ^ FULL_BOARD)`: the lowest free cell, or the lowest tag bit when the board is full. */
  function FirstEmpty(occ: Word): (r: nat)
    ensures r <= 64 && (r == 64 <==> occ == FULL_BOARD)
  {
    var x := Xor(occ, FULL_BOARD);
    assert x == {} ==> occ == FULL_BOARD by {
      if x == {} {
        forall i: Bit
          ensures i in occ <==> i in FULL_BOARD
        {
          assert i !in x;
        }
      }
    }
    TrailingZeros(x)
  }

  /** `solveLast`: one solution exactly when a mask at the first empty cell is all that is left, tag bit included. */
  function Last(m: Masks, occ: Word): nat
    requires |m.byPos| == 64 && occ != FULL_BOARD
  {
    if Xor(occ, m.solved) in m.byPos[FirstEmpty(occ)] then 1 else 0
  }

  /** occ with every mask, at the positions from from to pos, that is disjoint from occ. */
  function Accumulated(m: Masks, occ: Word, from: nat, pos: int): Word
    requires pos < |m.byPos|
    decreases pos - from
  {
    if pos < from then occ else Accumulated(m, occ, from, pos - 1) + Fitting(occ, m.byPos[pos])
  }

  /**
   * The answer of `canFillAround`: after the positions from the first empty
   * cell up to some pos of at most maxPos, the accumulated word is solvedMask.
   */
  predicate FillsAround(m: Masks, occ: Word)
    requires |m.byPos| == 64 && m.maxPos < 64
  {
    exists pos | FirstEmpty(occ) <= pos <= m.maxPos :: Accumulated(m, occ, FirstEmpty(occ), pos) == m.solved
  }

  /** The solutions the task on occ at level counts with the first k masks at the first empty cell. */
  function Explore(m: Masks, occ: Word, level: int, k: nat): nat
    requires Tagged(m) && occ != FULL_BOARD && k <= |m.byPos[FirstEmpty(occ)]|
    decreases Complement(occ), 1, k
  {
    if k == 0 then 0
    else Explore(m, occ, level, k - 1) + Try(m, occ, level, m.byPos[FirstEmpty(occ)][k - 1])
  }

  /** One mask of the task: nothing when it overlaps occ or its piece is used, else what follows its placement. */
  function Try(m: Masks, occ: Word, level: int, mask: Word): nat
    requires Tagged(m) && occ != FULL_BOARD && mask in m.byPos[FirstEmpty(occ)]
    decreases Complement(occ), 0, 0
  {
    if mask * occ != {} then 0
    else
      var o := occ + mask;
      assert o != FULL_BOARD && Complement(o) < Complement(occ) by {
        var i :| i in mask && i !in FULL_BOARD;
        assert i !in mask * occ;
        assert i in o && i !in occ;
      }
      Place(m, o, level)
  }

  /**
   * What follows a placement that leaves occ occupied: on level 1 the last
   * piece around it; above, the task on the next level when the other pieces
   * can still cover the board around it.
   */
  function Place(m: Masks, occ: Word, level: int): nat
    requires Tagged(m) && occ != FULL_BOARD
    decreases Complement(occ), 2, 0
  {
    if level == 1 then Last(m, occ)
    else if FillsAround(m, occ) then Explore(m, occ, level - 1, |m.byPos[FirstEmpty(occ)]|)
    else 0
  }

  /** The tables of pieces that fit above the board are tagged: each mask has its piece's tag bit. */
  lemma SetupTagged(ps: seq<Piece>)
    requires |ps| <= 10 && Tabled(ps)
    ensures Tagged(Setup(ps))
  {
    var t := MaskTable(ps);
    forall pos, k | 0 <= pos < 64 && 0 <= k < |t[pos]|
      ensures !(t[pos][k] <= FULL_BOARD)
    {
      var p := MaskOwner(ps, pos, |ps|, k);
      FullBoardSize();
      assert (63 - p) as Bit in t[pos][k];
    }
  }

  /** Each mask at pos of the first m pieces has the tag bit of one of them. */
  lemma {:induction false} MaskOwner(ps: seq<Piece>, pos: nat, m: nat, k: nat) returns (p: nat)
    requires m <= |ps| <= 64 && pos < 64 && Tabled(ps) && k < |MasksUpTo(ps, pos, m)|
    ensures p < m && (63 - p) as Bit in MasksUpTo(ps, pos, m)[k]
  {
    var prev := MasksUpTo(ps, pos, m - 1);
    if k < |prev| {
      p := MaskOwner(ps, pos, m - 1, k);
    } else {
      p := m - 1;
      var v := ps[p].byFirstBit[pos][k - |prev|];
      assert MasksUpTo(ps, pos, m)[k] == v + TagBit(p);
    }
  }

  // ---------------------------------------------------------------------------
  // The solver

  class SolverByPosition {
    const pieces: seq<Piece>
    const pieceMasksByPos: seq<seq<Word>>
    const maxPos: int
    const solvedMask: Word
    var solutions: nat

    /** The tables as one value. */
    function Config(): Masks
    {
      Masks(pieceMasksByPos, maxPos, solvedMask)
    }

    /** The constructor: the table of masks by lowest bit, the highest position with masks, and the solved word. */
    constructor (pieces: seq<Piece>)
      requires |pieces| <= LeadingZeros(FULL_BOARD) && ByPiece.AllWellFormed(pieces)
      ensures |pieces| <= 10 && this.pieces == pieces && Config() == Setup(pieces) && solutions == 0
    {
      FullBoardLeadingZeros();
      WellFormedTabled(pieces);
      var table := new seq<Word>[64];
      var max := 0;
      for pos := 0 to table.Length
        invariant table[..pos] == MaskTable(pieces)[..pos]
        invariant max == LastUsed(MaskTable(pieces), pos)
      {
        var masks := MasksAt(pieces, pos);
        table[pos] := masks;
        if masks != [] {
          max := pos;
        }
        TakeNext(table[..], pos);
        TakeNext(MaskTable(pieces), pos);
      }
      assert table[..] == table[..64];
      this.pieces := pieces;
      pieceMasksByPos := table[..];
      maxPos := max;
      solvedMask := FULL_BOARD + AllPiecesMask(|pieces|);
      solutions := 0;
    }
  
    /**
     * The checked construction: more pieces than there are free bits above
     * the board is an error, as the constructor's exception; otherwise the
     * solver built by the constructor.
     */
    static method Create(pieces: seq<Piece>) returns (r: Result<SolverByPosition>)
      requires ByPiece.AllWellFormed(pieces)
      ensures r.Err? <==> |pieces| > 10
      ensures r.Err? ==> r.error == TooManyPieces
      ensures r.Ok? ==> fresh(r.value) && r.value.pieces == pieces && r.value.Config() == Setup(pieces) && r.value.solutions == 0
    {
      FullBoardLeadingZeros();
      if |pieces| > LeadingZeros(FULL_BOARD) {
        return Err(TooManyPieces);
      }
      var solver := new SolverByPosition(pieces);
      return Ok(solver);
    }

    /** `solve`: resets the count and runs the task on the empty board at level n - 1. */
    method Solve()
      requires |pieces| <= 10 && Tabled(pieces) && Config() == Setup(pieces)
      modifies this
      ensures Tagged(Config()) && {} != FULL_BOARD
      ensures solutions == Explore(Config(), {}, |pieces| - 1, |Config().byPos[FirstEmpty({})]|)
    {
      SetupTagged(pieces);
      FullBoardSize();
      solutions := 0;
      Compute({}, |pieces| - 1);
    }

    /**
     * `compute`: every mask at the first empty cell that fits; on level 1
     * followed by the last piece, above by the task on the next level when
     * `canFillAround` lets it through.
     */
    method Compute(occupied: Word, level: int)
      requires Tagged(Config()) && occupied != FULL_BOARD
      modifies this
      ensures solutions == old(solutions) + Explore(Config(), occupied, level, |pieceMasksByPos[FirstEmpty(occupied)]|)
      decreases Complement(occupied), 1
    {
      var firstEmpty := TrailingZeros(Xor(occupied, FULL_BOARD));
      var masks := pieceMasksByPos[firstEmpty];
      for k := 0 to |masks|
        invariant solutions == old(solutions) + Explore(Config(), occupied, level, k)
      {
        TryMask(occupied, level, masks[k]);
      }
    }

    /** One pass of either variants loop of `compute`. */
    method TryMask(occupied: Word, level: int, mask: Word)
      requires Tagged(Config()) && occupied != FULL_BOARD && mask in pieceMasksByPos[FirstEmpty(occupied)]
      modifies this
      ensures solutions == old(solutions) + Try(Config(), occupied, level, mask)
      decreases Complement(occupied), 0
    {
      if level == 1 {
        if mask * occupied == {} {
          var newOccupied := occupied + mask;
          SolveLast(newOccupied);
        }
      } else {
        if mask * occupied == {} {
          var newOccupied := occupied + mask;
          assert newOccupied != FULL_BOARD && Complement(newOccupied) < Complement(occupied) by {
            var i :| i in mask && i !in FULL_BOARD;
            assert i !in mask * occupied;
            assert i in newOccupied && i !in occupied;
          }
          var fill := CanFillAround(newOccupied);
          if fill {
            Compute(newOccupied, level - 1);
          }
        }
      }
    }

    /** `solveLast`: looks among the masks at the first empty cell for the one that is exactly what is left. */
    method SolveLast(occupied: Word)
      requires |pieceMasksByPos| == 64 && occupied != FULL_BOARD
      modifies this
      ensures solutions == old(solutions) + Last(Config(), occupied)
    {
      var firstEmpty := TrailingZeros(Xor(occupied, FULL_BOARD));
      var toCover := Xor(occupied, solvedMask);
      var masks := pieceMasksByPos[firstEmpty];
      for k := 0 to |masks|
        invariant toCover !in masks[..k]
      {
        if masks[k] == toCover {
          solutions := solutions + 1;
          return;
        }
      }
      assert masks[..|masks|] == masks;
    }

    /**
     * `canFillAround`: from the first empty cell up to maxPos, OR every mask
     * that fits into the word, and answer true as soon as it is solvedMask.
     */
    method CanFillAround(occupied: Word) returns (r: bool)
      requires |pieceMasksByPos| == 64 && 0 <= maxPos < 64
      ensures r == FillsAround(Config(), occupied)
    {
      var firstEmpty := TrailingZeros(Xor(occupied, FULL_BOARD));
      assert firstEmpty == FirstEmpty(occupied);
      var acc := occupied;
      var pos := firstEmpty;
      while pos <= maxPos
        invariant firstEmpty <= pos <= 64 && (pos <= maxPos + 1 || pos == firstEmpty)
        invariant acc == Accumulated(Config(), occupied, firstEmpty, pos - 1)
        invariant forall q | firstEmpty <= q < pos :: Accumulated(Config(), occupied, firstEmpty, q) != solvedMask
        decreases maxPos - pos
      {
        var masks := pieceMasksByPos[pos];
        for k := 0 to |masks|
          invariant acc == Accumulated(Config(), occupied, firstEmpty, pos - 1) + Fitting(occupied, masks[..k])
        {
          assert masks[..k + 1][..k] == masks[..k];
          if masks[k] * occupied == {} {
            acc := acc + masks[k];
          }
        }
        assert masks[..|masks|] == masks;
        assert acc == Accumulated(Config(), occupied, firstEmpty, pos);
        if acc == solvedMask {
          assert firstEmpty <= pos <= maxPos && Accumulated(Config(), occupied, FirstEmpty(occupied), pos) == Config().solved;
          return true;
        }
        pos := pos + 1;
      }
      return false;
    }

    /** The list of masks the constructor collects for one position: piece by piece, its variants with that lowest bit. */
    static method MasksAt(pieces: seq<Piece>, pos: nat) returns (masks: seq<Word>)
      requires |pieces| <= 64 && pos < 64 && ByPiece.AllWellFormed(pieces) && Tabled(pieces)
      ensures masks == MasksUpTo(pieces, pos, |pieces|)
    {
      masks := [];
      for p := 0 to |pieces|
        invariant masks == MasksUpTo(pieces, pos, p)
      {
        var piece := pieces[p];
        masks := AddPieceMasks(masks, piece, p, pos);
      }
    }

    /** One pass of the piece loop of the constructor: the masks of piece p at pos appended to masks. */
    static method AddPieceMasks(masks: seq<Word>, piece: Piece, p: nat, pos: nat) returns (r: seq<Word>)
      requires WellFormed(piece) && p < 64 && pos < 64
      ensures |piece.byFirstBit| == TABLE_SIZE && r == masks + PieceMasks(piece, p, pos)
    {
      r := masks;
      var n := VariantCountByFirstBit(piece, pos);
      for i := 0 to n
        invariant r == masks + PieceMasks(piece, p, pos)[..i]
      {
        var mask := VariantByFirstBit(piece, pos, i);
        mask := mask + TagBit(p);
        PieceMasksNext(piece, p, pos, i);
        r := r + [mask];
      }
      assert PieceMasks(piece, p, pos)[..n] == PieceMasks(piece, p, pos);
    }
  }
}
