/**
 * What the position solver counts. A state of the search is a partial choice
 * a (see Tilings): the occupied word of that state is the cells a covers with
 * the tag bits of the pieces a places. The masks at the first empty cell split
 * the completions of a by the piece that covers that cell, so the count of the
 * search from the empty board is the number of tilings, the same number the
 * piece solver counts.
 */
module PositionCounts {
  import opened Bits
  import opened BitBoard
  import opened Pieces
  import opened Tilings
  import opened ByPosition
  import ByPiece

  // ---------------------------------------------------------------------------
  // What a mask stands for

  /** The piece a mask belongs to: its highest bit is the tag bit 63 - p. */
  function Owner(mask: Word): int
  {
    64 - BitLength(mask)
  }

  /** The cells of a mask. */
  function Shape(mask: Word): Word
  {
    mask * FULL_BOARD
  }

  /** A variant of piece p with its tag bit: the tag bit is the highest bit and the variant is what is on the board. */
  lemma MaskParts(v: Word, p: nat)
    requires Valid(v) && p < 10
    ensures Owner(v + TagBit(p)) == p && Shape(v + TagBit(p)) == v
  {
    FullBoardSize();
    ValidIsSubset(v);
    var w := v + TagBit(p);
    var r := BitLength(w);
    assert (63 - p) as Bit in w;
    assert r - 1 !in v;
    forall i | i in w
      ensures i in FULL_BOARD <==> i in v
    {
    }
  }

  /** mask is, at position pos, a variant of one of the pieces vss with that piece's tag bit. */
  ghost predicate IsMaskAt(vss: seq<seq<Word>>, mask: Word, pos: nat)
  {
    0 <= Owner(mask) < |vss| <= 64
    && Shape(mask) in vss[Owner(mask)] && TrailingZeros(Shape(mask)) == pos
    && mask == Shape(mask) + TagBit(Owner(mask))
  }

  /** The pieces of a solver and their variant lists, with what the constructors guarantee of them. */
  ghost predicate Ready(ps: seq<Piece>, vss: seq<seq<Word>>)
  {
    |ps| <= 10 && |vss| == |ps|
    && (forall p | 0 <= p < |ps| :: vss[p] == ps[p].variants && |ps[p].byFirstBit| == TABLE_SIZE && NoDup(vss[p]))
    && (forall p, pos | 0 <= p < |ps| && 0 <= pos < TABLE_SIZE :: Indexed(ps[p].byFirstBit[pos], vss[p], pos))
    && forall p, k | 0 <= p < |ps| && 0 <= k < |vss[p]| :: Valid(vss[p][k]) && vss[p][k] != {}
  }

  /** Entry pos of a first-bit table of vs: no repeats, and exactly the boards of vs whose lowest bit is pos. */
  ghost predicate Indexed(e: seq<Word>, vs: seq<Word>, pos: nat)
  {
    NoDup(e)
    && (forall v | v in e :: v in vs && TrailingZeros(v) == pos)
    && forall v | v in vs && TrailingZeros(v) == pos :: v in e
  }

  /** The filter of a list without repeats is such an entry. */
  lemma FirstBitIndexed(vs: seq<Word>, pos: nat)
    requires NoDup(vs)
    ensures Indexed(WithFirstBit(vs, pos), vs, pos)
  {
    FilterNoDup(vs, FirstBitIs(pos));
    forall v
      ensures v in WithFirstBit(vs, pos) <==> v in vs && TrailingZeros(v) == pos
    {
      FilterMember(vs, FirstBitIs(pos), v);
    }
  }

  /** Pieces from the constructors, with distinct variants, are ready. */
  lemma ReadyPieces(ps: seq<Piece>)
    requires |ps| <= 10 && ByPiece.AllWellFormed(ps) && ByPiece.DistinctVariants(ps)
    ensures Ready(ps, ByPiece.Vss(ps))
  {
    var vss := ByPiece.Vss(ps);
    forall p | 0 <= p < |ps|
      ensures vss[p] == ps[p].variants && |ps[p].byFirstBit| == TABLE_SIZE && NoDup(vss[p])
      ensures forall k | 0 <= k < |vss[p]| :: Valid(vss[p][k]) && vss[p][k] != {}
    {
      assert WellFormed(ps[p]);
    }
    forall p, pos | 0 <= p < |ps| && 0 <= pos < TABLE_SIZE
      ensures Indexed(ps[p].byFirstBit[pos], vss[p], pos)
    {
      assert WellFormed(ps[p]);
      FirstBitIndexed(vss[p], pos);
    }
  }

  /** Ready pieces have their full first-bit tables. */
  lemma ReadyTabled(ps: seq<Piece>, vss: seq<seq<Word>>)
    requires Ready(ps, vss)
    ensures Tabled(ps)
  {
  }

  /** The boards of piece p listed at pos are its variants with lowest bit pos. */
  lemma ByFirstBitMember(ps: seq<Piece>, vss: seq<seq<Word>>, p: nat, pos: nat, v: Word)
    requires Ready(ps, vss) && p < |ps| && pos < TABLE_SIZE
    ensures v in ps[p].byFirstBit[pos] <==> v in vss[p] && TrailingZeros(v) == pos
  {
    assert Indexed(ps[p].byFirstBit[pos], vss[p], pos);
  }

  /** The masks of piece p at pos are exactly its variants there with its tag bit. */
  lemma PieceMasksMember(ps: seq<Piece>, vss: seq<seq<Word>>, p: nat, pos: nat, mask: Word)
    requires Ready(ps, vss) && p < |ps| && pos < 64
    ensures mask in PieceMasks(ps[p], p, pos) <==> Owner(mask) == p && IsMaskAt(vss, mask, pos)
  {
    if mask in PieceMasks(ps[p], p, pos) {
      PieceMasksSound(ps, vss, p, pos, mask);
    }
    if Owner(mask) == p && IsMaskAt(vss, mask, pos) {
      PieceMasksComplete(ps, vss, p, pos, mask);
    }
  }

  /** Each mask of piece p at pos is a variant of p with lowest bit pos and the tag bit of p. */
  lemma PieceMasksSound(ps: seq<Piece>, vss: seq<seq<Word>>, p: nat, pos: nat, mask: Word)
    requires Ready(ps, vss) && p < |ps| && pos < 64 && mask in PieceMasks(ps[p], p, pos)
    ensures Owner(mask) == p && IsMaskAt(vss, mask, pos)
  {
    var s := PieceMasks(ps[p], p, pos);
    var i :| 0 <= i < |s| && s[i] == mask;
    var v := ps[p].byFirstBit[pos][i];
    ByFirstBitMember(ps, vss, p, pos, v);
    var k :| 0 <= k < |vss[p]| && vss[p][k] == v;
    MaskParts(v, p);
  }

  /** Each variant of p with lowest bit pos, with the tag bit of p, is a mask of p at pos. */
  lemma PieceMasksComplete(ps: seq<Piece>, vss: seq<seq<Word>>, p: nat, pos: nat, mask: Word)
    requires Ready(ps, vss) && p < |ps| && pos < 64 && Owner(mask) == p && IsMaskAt(vss, mask, pos)
    ensures mask in PieceMasks(ps[p], p, pos)
  {
    var s := PieceMasks(ps[p], p, pos);
    var row := ps[p].byFirstBit[pos];
    var v := Shape(mask);
    ByFirstBitMember(ps, vss, p, pos, v);
    var i :| 0 <= i < |row| && row[i] == v;
    assert s[i] == mask;
  }

  /** The masks at pos of the first m pieces are the masks there of pieces below m. */
  lemma MasksUpToMember(ps: seq<Piece>, vss: seq<seq<Word>>, pos: nat, m: nat, mask: Word)
    requires Ready(ps, vss) && m <= |ps| && pos < 64
    ensures mask in MasksUpTo(ps, pos, m) <==> Owner(mask) < m && IsMaskAt(vss, mask, pos)
  {
    if mask in MasksUpTo(ps, pos, m) {
      MasksUpToSound(ps, vss, pos, m, mask);
    }
    if Owner(mask) < m && IsMaskAt(vss, mask, pos) {
      MasksUpToComplete(ps, vss, pos, m, mask);
    }
  }

  /** Each mask at pos of the first m pieces is a mask there of a piece below m. */
  lemma {:induction false} MasksUpToSound(ps: seq<Piece>, vss: seq<seq<Word>>, pos: nat, m: nat, mask: Word)
    requires Ready(ps, vss) && m <= |ps| && pos < 64 && mask in MasksUpTo(ps, pos, m)
    ensures Owner(mask) < m && IsMaskAt(vss, mask, pos)
  {
    var prev := MasksUpTo(ps, pos, m - 1);
    if mask in prev {
      MasksUpToSound(ps, vss, pos, m - 1, mask);
    } else {
      PieceMasksMember(ps, vss, m - 1, pos, mask);
    }
  }

  /** Each mask at pos of a piece below m is among those of the first m pieces. */
  lemma {:induction false} MasksUpToComplete(ps: seq<Piece>, vss: seq<seq<Word>>, pos: nat, m: nat, mask: Word)
    requires Ready(ps, vss) && m <= |ps| && pos < 64 && Owner(mask) < m && IsMaskAt(vss, mask, pos)
    ensures mask in MasksUpTo(ps, pos, m)
  {
    if Owner(mask) == m - 1 {
      PieceMasksMember(ps, vss, m - 1, pos, mask);
    } else {
      MasksUpToComplete(ps, vss, pos, m - 1, mask);
    }
  }

  /** `pieceMasksByPos[pos]` holds exactly the masks at pos. */
  lemma TableMember(ps: seq<Piece>, vss: seq<seq<Word>>, pos: nat, mask: Word)
    requires Ready(ps, vss) && pos < 64
    ensures mask in MaskTable(ps)[pos] <==> IsMaskAt(vss, mask, pos)
  {
    MasksUpToMember(ps, vss, pos, |ps|, mask);
  }

  /** Keeping some elements of a list without repeats gives a list without repeats. */
  lemma {:induction false} FilterNoDup<T(!new)>(s: seq<T>, keep: T -> bool)
    requires NoDup(s)
    ensures NoDup(Filter(s, keep))
  {
    if s != [] {
      var rest := Filter(s[1..], keep);
      assert NoDup(s[1..]) by {
        forall i, j | 0 <= i < j < |s[1..]|
          ensures s[1..][i] != s[1..][j]
        {
          assert s[1..][i] == s[i + 1] && s[1..][j] == s[j + 1];
        }
      }
      FilterNoDup(s[1..], keep);
      FilterMember(s[1..], keep, s[0]);
      assert s[0] !in s[1..];
    }
  }

  /** Joining two lists without repeats and without a common element gives a list without repeats. */
  lemma NoDupJoin<T>(s: seq<T>, t: seq<T>)
    requires NoDup(s) && NoDup(t) && forall k | 0 <= k < |t| :: t[k] !in s
    ensures NoDup(s + t)
  {
    forall i, j | 0 <= i < j < |s + t|
      ensures (s + t)[i] != (s + t)[j]
    {
      if i < |s| <= j {
        assert (s + t)[j] == t[j - |s|];
      }
    }
  }

  /** The masks of piece p at pos have no repeats. */
  lemma PieceMasksNoDup(ps: seq<Piece>, vss: seq<seq<Word>>, p: nat, pos: nat)
    requires Ready(ps, vss) && p < |ps| && pos < 64
    ensures NoDup(PieceMasks(ps[p], p, pos))
  {
    var s := PieceMasks(ps[p], p, pos);
    var row := ps[p].byFirstBit[pos];
    assert Indexed(row, vss[p], pos);
    forall i, j | 0 <= i < j < |s|
      ensures s[i] != s[j]
    {
      ByFirstBitMember(ps, vss, p, pos, row[i]);
      ByFirstBitMember(ps, vss, p, pos, row[j]);
      var ki :| 0 <= ki < |vss[p]| && vss[p][ki] == row[i];
      var kj :| 0 <= kj < |vss[p]| && vss[p][kj] == row[j];
      MaskParts(row[i], p);
      MaskParts(row[j], p);
    }
  }

  /** The masks at pos of the first m pieces have no repeats. */
  lemma {:induction false} MasksUpToNoDup(ps: seq<Piece>, vss: seq<seq<Word>>, pos: nat, m: nat)
    requires Ready(ps, vss) && m <= |ps| && pos < 64
    ensures NoDup(MasksUpTo(ps, pos, m))
  {
    if m > 0 {
      var prev := MasksUpTo(ps, pos, m - 1);
      var s := PieceMasks(ps[m - 1], m - 1, pos);
      MasksUpToNoDup(ps, vss, pos, m - 1);
      PieceMasksNoDup(ps, vss, m - 1, pos);
      NewPieceMasks(ps, vss, pos, m);
      NoDupJoin(prev, s);
    }
  }

  /** The masks of piece m - 1 are not among those of the pieces before it. */
  lemma NewPieceMasks(ps: seq<Piece>, vss: seq<seq<Word>>, pos: nat, m: nat)
    requires Ready(ps, vss) && 0 < m <= |ps| && pos < 64
    ensures var s := PieceMasks(ps[m - 1], m - 1, pos); forall k | 0 <= k < |s| :: s[k] !in MasksUpTo(ps, pos, m - 1)
  {
    var s := PieceMasks(ps[m - 1], m - 1, pos);
    forall k | 0 <= k < |s|
      ensures s[k] !in MasksUpTo(ps, pos, m - 1)
    {
      NewPieceMask(ps, vss, pos, m, k);
    }
  }

  /** One mask of piece m - 1 is not among those of the pieces before it. */
  lemma NewPieceMask(ps: seq<Piece>, vss: seq<seq<Word>>, pos: nat, m: nat, k: nat)
    requires Ready(ps, vss) && 0 < m <= |ps| && pos < 64 && k < |PieceMasks(ps[m - 1], m - 1, pos)|
    ensures PieceMasks(ps[m - 1], m - 1, pos)[k] !in MasksUpTo(ps, pos, m - 1)
  {
    var mask := PieceMasks(ps[m - 1], m - 1, pos)[k];
    PieceMasksSound(ps, vss, m - 1, pos, mask);
    if mask in MasksUpTo(ps, pos, m - 1) {
      MasksUpToSound(ps, vss, pos, m - 1, mask);
    }
  }

  /** No mask is listed twice at a position. */
  lemma TableNoDup(ps: seq<Piece>, vss: seq<seq<Word>>, pos: nat)
    requires Ready(ps, vss) && pos < 64
    ensures NoDup(MaskTable(ps)[pos])
  {
    MasksUpToNoDup(ps, vss, pos, |ps|);
  }

  // ---------------------------------------------------------------------------
  // The states of the search

  /** Bit i is the tag bit of a piece that a places. */
  predicate IsUsed(a: seq<int>, i: Bit)
  {
    64 - |a| <= i && a[63 - i] != NONE
  }

  /** The tag bits of the pieces a places. */
  function Used(a: seq<int>): Word
  {
    set i: Bit | IsUsed(a, i)
  }

  /** The occupied word of the search in the state a: the cells a covers and the tag bits of the pieces it places. */
  function Occupied(vss: seq<seq<Word>>, a: seq<int>): Word
    requires IsChoice(vss, a)
  {
    Tilings.Placed(vss, a) + Used(a)
  }

  /** The number of pieces a leaves unplaced. */
  function Unplaced(a: seq<int>): nat
  {
    if a == [] then 0 else Unplaced(a[..|a| - 1]) + if a[|a| - 1] == NONE then 1 else 0
  }

  /** Placing an unplaced piece leaves one piece fewer unplaced. */
  lemma {:induction false} UnplacedPlace(a: seq<int>, q: int, i: int)
    requires 0 <= q < |a| && a[q] == NONE && i != NONE
    ensures Unplaced(a) >= 1 && Unplaced(a[q := i]) == Unplaced(a) - 1
  {
    var n := |a| - 1;
    if q == n {
      assert a[q := i][..n] == a[..n];
    } else {
      assert a[q := i][..n] == a[..n][q := i];
      UnplacedPlace(a[..n], q, i);
    }
  }

  /** A state with an unplaced piece names one. */
  lemma {:induction false} UnplacedSome(a: seq<int>) returns (q: nat)
    requires Unplaced(a) > 0
    ensures q < |a| && a[q] == NONE
  {
    var n := |a| - 1;
    if a[n] == NONE {
      q := n;
    } else {
      q := UnplacedSome(a[..n]);
    }
  }

  /** A state with no unplaced piece places every piece. */
  lemma {:induction false} UnplacedNone(a: seq<int>)
    requires Unplaced(a) == 0
    ensures Complete(a)
  {
    if a != [] {
      var n := |a| - 1;
      UnplacedNone(a[..n]);
      assert forall p | 0 <= p < n :: a[p] == a[..n][p];
    }
  }

  /** The empty state leaves every piece unplaced. */
  lemma {:induction false} UnplacedNones(n: nat)
    ensures Unplaced(Nones(n)) == n
  {
    if n > 0 {
      assert Nones(n)[..n - 1] == Nones(n - 1);
      UnplacedNones(n - 1);
    }
  }

  /** The cells a covers are cells of the board. */
  lemma PlacedOnBoard(ps: seq<Piece>, vss: seq<seq<Word>>, a: seq<int>)
    requires Ready(ps, vss) && IsChoice(vss, a)
    ensures Tilings.Placed(vss, a) <= FULL_BOARD
  {
    forall i | i in Tilings.Placed(vss, a)
      ensures i in FULL_BOARD
    {
      PlacedMember(vss, a, i);
      var p :| 0 <= p < |a| && i in Pick(vss, a, p);
      ValidIsSubset(vss[p][a[p]]);
    }
  }

  /** On the board the occupied word holds the covered cells; above it, the tag bits of the placed pieces. */
  lemma OccupiedBits(ps: seq<Piece>, vss: seq<seq<Word>>, a: seq<int>, i: Bit)
    requires Ready(ps, vss) && IsChoice(vss, a)
    ensures i in FULL_BOARD ==> (i in Occupied(vss, a) <==> i in Tilings.Placed(vss, a))
    ensures i !in FULL_BOARD ==> (i in Occupied(vss, a) <==> IsUsed(a, i))
  {
    PlacedOnBoard(ps, vss, a);
    FullBoardSize();
  }

  /** One test for two things: a mask is disjoint from the occupied word exactly when its piece is unplaced and its cells are free. */
  lemma Fits(ps: seq<Piece>, vss: seq<seq<Word>>, a: seq<int>, mask: Word, pos: nat)
    requires Ready(ps, vss) && IsChoice(vss, a) && IsMaskAt(vss, mask, pos)
    ensures mask * Occupied(vss, a) == {} <==> a[Owner(mask)] == NONE && Shape(mask) * Tilings.Placed(vss, a) == {}
  {
    var p := Owner(mask);
    var v := Shape(mask);
    var t := (63 - p) as Bit;
    FullBoardSize();
    OccupiedBits(ps, vss, a, t);
    assert t in mask && t !in FULL_BOARD;
    if a[p] != NONE {
      assert IsUsed(a, t);
      assert t in mask * Occupied(vss, a);
    }
    if i :| i in v * Tilings.Placed(vss, a) {
      OccupiedBits(ps, vss, a, i);
      assert i in mask * Occupied(vss, a);
    }
    if i :| i in mask * Occupied(vss, a) {
      OccupiedBits(ps, vss, a, i);
      if i !in v {
        assert i == t;
      }
    }
  }

  /** The state after a mask: its piece placed with the variant the mask carries. */
  ghost function Child(vss: seq<seq<Word>>, a: seq<int>, mask: Word): seq<int>
    requires |a| == |vss|
  {
    var p := Owner(mask);
    if 0 <= p < |a| then a[p := ByPiece.FirstIndex(vss[p], Shape(mask))] else a
  }

  /**
   * A mask that fits leads to the state that places its piece: the occupied
   * word of that state is `occupied | mask`, its pieces stay apart and one
   * piece fewer is unplaced.
   */
  lemma ChildState(ps: seq<Piece>, vss: seq<seq<Word>>, a: seq<int>, mask: Word, pos: nat)
    requires Ready(ps, vss) && IsChoice(vss, a) && Separate(vss, {}, a) && IsMaskAt(vss, mask, pos)
    requires mask * Occupied(vss, a) == {}
    ensures var b := Child(vss, a, mask);
      IsChoice(vss, b) && Separate(vss, {}, b) && Occupied(vss, b) == Occupied(vss, a) + mask
      && Unplaced(b) == Unplaced(a) - 1
    ensures var p := Owner(mask); var i := Child(vss, a, mask)[p];
      a[p] == NONE && 0 <= i < |vss[p]| && vss[p][i] == Shape(mask)
  {
    var p := Owner(mask);
    var v := Shape(mask);
    var i := ByPiece.FirstIndex(vss[p], v);
    Fits(ps, vss, a, mask, pos);
    ByPiece.FirstIndexFinds(vss[p], v);
    var b := a[p := i];
    PlacedPlace(vss, a, p, i);
    SeparatePlace(vss, {}, a, p, i);
    assert {} + Tilings.Placed(vss, a) == Tilings.Placed(vss, a);
    UnplacedPlace(a, p, i);
    UsedPlace(a, p, i);
  }

  /** Placing piece p adds its tag bit to the used ones. */
  lemma UsedPlace(a: seq<int>, p: nat, i: int)
    requires p < |a| <= 64 && a[p] == NONE && i != NONE
    ensures Used(a[p := i]) == Used(a) + TagBit(p)
  {
    forall j: Bit
      ensures IsUsed(a[p := i], j) <==> IsUsed(a, j) || j == (63 - p) as Bit
    {
    }
  }

  /**
   * `numberOfTrailingZeros(occupied ^ FULL_BOARD)` in a state: the lowest
   * cell the state leaves free, every cell below it covered; once every cell
   * is covered, a bit above the board.
   */
  lemma FirstFree(ps: seq<Piece>, vss: seq<seq<Word>>, a: seq<int>)
    requires Ready(ps, vss) && IsChoice(vss, a)
    ensures var fe := FirstEmpty(Occupied(vss, a));
      !(FULL_BOARD <= Tilings.Placed(vss, a)) ==>
        fe < 64 && fe as Bit in FULL_BOARD && fe as Bit !in Tilings.Placed(vss, a)
        && forall j: Bit | j < fe && j in FULL_BOARD :: j in Tilings.Placed(vss, a)
    ensures FULL_BOARD <= Tilings.Placed(vss, a) ==> 54 <= FirstEmpty(Occupied(vss, a))
  {
    var o := Occupied(vss, a);
    var x := Xor(o, FULL_BOARD);
    var fe := FirstEmpty(o);
    assert fe == TrailingZeros(x);
    FullBoardSize();
    if !(FULL_BOARD <= Tilings.Placed(vss, a)) {
      var i :| i in FULL_BOARD && i !in Tilings.Placed(vss, a);
      OccupiedBits(ps, vss, a, i);
      assert i in x;
      var f := fe as Bit;
      OccupiedBits(ps, vss, a, f);
      forall j: Bit | j < fe && j in FULL_BOARD
        ensures j in Tilings.Placed(vss, a)
      {
        OccupiedBits(ps, vss, a, j);
        assert j !in x;
      }
    } else if fe < 64 {
      var f := fe as Bit;
      OccupiedBits(ps, vss, a, f);
    }
  }

  /** Every mask has its lowest bit on the board. */
  lemma MaskOnBoard(ps: seq<Piece>, vss: seq<seq<Word>>, pos: nat, mask: Word)
    requires Ready(ps, vss) && pos < 64 && mask in MaskTable(ps)[pos]
    ensures pos <= 53
  {
    TableMember(ps, vss, pos, mask);
    var v := Shape(mask);
    var k :| 0 <= k < |vss[Owner(mask)]| && vss[Owner(mask)][k] == v;
    ValidIsSubset(v);
    FullBoardSize();
    assert TrailingZeros(v) in v;
  }

  /** No mask has its lowest bit above the board. */
  lemma RowAboveBoard(ps: seq<Piece>, vss: seq<seq<Word>>, pos: nat)
    requires Ready(ps, vss) && 54 <= pos < 64
    ensures MaskTable(ps)[pos] == []
  {
    var row := MaskTable(ps)[pos];
    if row != [] {
      MaskOnBoard(ps, vss, pos, row[0]);
    }
  }

  /** A state always differs from the full board: a covered cell comes with a tag bit above the board. */
  lemma NotFull(ps: seq<Piece>, vss: seq<seq<Word>>, a: seq<int>)
    requires Ready(ps, vss) && IsChoice(vss, a)
    ensures Occupied(vss, a) != FULL_BOARD
  {
    FullBoardSize();
    OccupiedBits(ps, vss, a, 53);
    if 53 in Occupied(vss, a) {
      PlacedMember(vss, a, 53);
      var p :| 0 <= p < |a| && 53 in Pick(vss, a, p);
      var t := (63 - p) as Bit;
      OccupiedBits(ps, vss, a, t);
      assert IsUsed(a, t);
    }
  }

  /** The masks at the first empty cell of the state a. */
  ghost function Row(ps: seq<Piece>, vss: seq<seq<Word>>, a: seq<int>): seq<Word>
    requires Ready(ps, vss) && IsChoice(vss, a)
  {
    NotFull(ps, vss, a);
    MaskTable(ps)[FirstEmpty(Occupied(vss, a))]
  }

  /** The search is at state a: its pieces apart on the board. */
  ghost predicate AtState(ps: seq<Piece>, vss: seq<seq<Word>>, a: seq<int>)
  {
    Ready(ps, vss) && IsChoice(vss, a) && Separate(vss, {}, a)
  }

  /** `(1L << 63) >> (n - 1)` has the tag bits of pieces 0 to n - 1. */
  lemma AllPiecesTags(n: nat)
    requires 1 <= n <= 64
    ensures AllPiecesMask(n) == Tags(n)
  {
    var top := ShiftLeft({0}, 63);
    assert (n - 1) % 64 == n - 1;
    forall i: Bit
      ensures i in AllPiecesMask(n) <==> IsTag(n, i)
    {
      assert SignedBit(top, n - 1, i) <==> IsTag(n, i);
    }
  }

  /** A variant of a completion for a piece a leaves unplaced is disjoint from what a covers. */
  lemma UnplacedApart(vss: seq<seq<Word>>, a: seq<int>, c: seq<int>, q: int)
    requires IsChoice(vss, a) && IsChoice(vss, c) && Extends(c, a) && Separate(vss, {}, c)
    requires 0 <= q < |a| && a[q] == NONE
    ensures Pick(vss, c, q) * Tilings.Placed(vss, a) == {}
  {
    forall i | i in Tilings.Placed(vss, a)
      ensures i !in Pick(vss, c, q)
    {
      PlacedMember(vss, a, i);
      var p :| 0 <= p < |a| && i in Pick(vss, a, p);
      assert a[p] != NONE && p != q;
      assert i in Pick(vss, c, p);
      if p < q {
        assert Pick(vss, c, p) * Pick(vss, c, q) == {};
        assert i !in Pick(vss, c, p) * Pick(vss, c, q);
      } else {
        assert Pick(vss, c, q) * Pick(vss, c, p) == {};
        assert i !in Pick(vss, c, q) * Pick(vss, c, p);
      }
    }
  }

  /** In a list without repeats an element's first index is its index. */
  lemma FirstIndexNoDup(s: seq<Word>, i: int)
    requires NoDup(s) && 0 <= i < |s|
    ensures ByPiece.FirstIndex(s, s[i]) == i
  {
  }

  /** The completions of the state after a fitting mask: the completions of a that place its piece the way the mask does. */
  lemma ChildCompletions(ps: seq<Piece>, vss: seq<seq<Word>>, a: seq<int>, mask: Word, pos: nat, c: seq<int>)
    requires AtState(ps, vss, a) && IsMaskAt(vss, mask, pos) && mask * Occupied(vss, a) == {}
    ensures var p := Owner(mask);
      c in Completions(vss, {}, Child(vss, a, mask)) <==> c in Completions(vss, {}, a) && c[p] == Child(vss, a, mask)[p]
  {
    var p := Owner(mask);
    ChildState(ps, vss, a, mask, pos);
    var i := Child(vss, a, mask)[p];
    CompletionsMember(vss, {}, a, c);
    CompletionsMember(vss, {}, Child(vss, a, mask), c);
    ExtendsPlace(c, a, p, i);
  }

  /**
   * A completion of a, with a piece still to place, covers the first empty
   * cell with some unplaced piece; the mask of that placement is at the first
   * empty cell and fits, and the completion is a completion after it.
   */
  lemma UnplacedMask(ps: seq<Piece>, vss: seq<seq<Word>>, a: seq<int>, c: seq<int>, p: nat) returns (mask: Word, pos: nat)
    requires AtState(ps, vss, a) && c in Completions(vss, {}, a) && p < |a| && a[p] == NONE
    ensures pos < 64 && mask in MaskTable(ps)[pos] && IsMaskAt(vss, mask, pos) && Owner(mask) == p
    ensures mask * Occupied(vss, a) == {} && Pick(vss, c, p) <= mask && (63 - p) as Bit in mask
    ensures FirstEmpty(Occupied(vss, a)) <= pos <= Setup(ps).maxPos
    ensures c in Completions(vss, {}, Child(vss, a, mask))
  {
    CompletionsMember(vss, {}, a, c);
    var v := vss[p][c[p]];
    assert v == Pick(vss, c, p);
    ValidIsSubset(v);
    UnplacedApart(vss, a, c, p);
    FirstFree(ps, vss, a);
    pos := TrailingZeros(v);
    var lo := pos as Bit;
    assert lo in v && lo in FULL_BOARD && lo !in Tilings.Placed(vss, a);
    mask := v + TagBit(p);
    MaskParts(v, p);
    TableMember(ps, vss, pos, mask);
    Fits(ps, vss, a, mask, pos);
    var t := MaskTable(ps);
    assert t[pos] != [];
    assert pos <= LastUsed(t, 64);
    ChildCompletions(ps, vss, a, mask, pos, c);
    FirstIndexNoDup(vss[p], c[p]);
  }

  /** Two pieces a choice keeps apart do not share a cell. */
  lemma ApartCell(vss: seq<seq<Word>>, c: seq<int>, p: int, p': int, i: Bit)
    requires IsChoice(vss, c) && Separate(vss, {}, c) && 0 <= p < |c| && 0 <= p' < |c| && p != p'
    requires i in Pick(vss, c, p)
    ensures i !in Pick(vss, c, p')
  {
    if p < p' {
      assert i !in Pick(vss, c, p) * Pick(vss, c, p');
    } else {
      assert i !in Pick(vss, c, p') * Pick(vss, c, p);
    }
  }

  /**
   * A completion after a mask at pos: the mask's piece covers pos, no other
   * piece does, and the mask is that piece's variant with its tag bit. So the
   * completion determines the mask.
   */
  lemma CompletionMask(ps: seq<Piece>, vss: seq<seq<Word>>, a: seq<int>, mask: Word, pos: nat, c: seq<int>)
    requires AtState(ps, vss, a) && IsMaskAt(vss, mask, pos) && mask * Occupied(vss, a) == {}
    requires c in Completions(vss, {}, Child(vss, a, mask))
    ensures pos < 64 && pos as Bit in Pick(vss, c, Owner(mask))
    ensures forall p | 0 <= p < |c| && p != Owner(mask) :: pos as Bit !in Pick(vss, c, p)
    ensures mask == Pick(vss, c, Owner(mask)) + TagBit(Owner(mask))
  {
    var o := Owner(mask);
    var v := Shape(mask);
    ChildCompletions(ps, vss, a, mask, pos, c);
    ChildState(ps, vss, a, mask, pos);
    CompletionsMember(vss, {}, a, c);
    var k :| 0 <= k < |vss[o]| && vss[o][k] == v;
    assert pos in v;
    forall p | 0 <= p < |c| && p != o
      ensures pos as Bit !in Pick(vss, c, p)
    {
      ApartCell(vss, c, o, p, pos as Bit);
    }
  }

  // ---------------------------------------------------------------------------
  // The masks at the first empty cell split the completions

  /** The union of the first k sets of parts. */
  ghost function Union<T>(parts: seq<set<T>>, k: nat): set<T>
    requires k <= |parts|
  {
    if k == 0 then {} else Union(parts, k - 1) + parts[k - 1]
  }

  /** The sets of parts are pairwise disjoint. */
  ghost predicate Disjoint<T>(parts: seq<set<T>>)
  {
    forall j, m | 0 <= j < m < |parts| :: parts[j] !! parts[m]
  }

  /** An element of a later part is not in the union of the first k. */
  lemma {:induction false} UnionOutside<T>(parts: seq<set<T>>, k: nat, m: nat, x: T)
    requires Disjoint(parts) && k <= m < |parts| && x in parts[m]
    ensures x !in Union(parts, k)
  {
    if k > 0 {
      UnionOutside(parts, k - 1, m, x);
    }
  }

  /** An element of one of the first k parts is in their union. */
  lemma {:induction false} UnionHas<T>(parts: seq<set<T>>, j: nat, k: nat, x: T)
    requires j < k <= |parts| && x in parts[j]
    ensures x in Union(parts, k)
  {
    if j < k - 1 {
      UnionHas(parts, j, k - 1, x);
    }
  }

  /** The union of parts within S is within S. */
  lemma {:induction false} UnionWithin<T>(parts: seq<set<T>>, k: nat, S: set<T>)
    requires k <= |parts| && forall j | 0 <= j < |parts| :: parts[j] <= S
    ensures Union(parts, k) <= S
  {
    if k > 0 {
      UnionWithin(parts, k - 1, S);
    }
  }

  /** The sizes of the first k sets of parts, added up. */
  ghost function Sizes<T>(parts: seq<set<T>>, k: nat): nat
    requires k <= |parts|
  {
    if k == 0 then 0 else Sizes(parts, k - 1) + |parts[k - 1]|
  }

  /** Disjoint parts add up: the size of their union is the sum of their sizes. */
  lemma {:induction false} UnionSizes<T>(parts: seq<set<T>>, k: nat)
    requires Disjoint(parts) && k <= |parts|
    ensures |Union(parts, k)| == Sizes(parts, k)
  {
    if k > 0 {
      UnionSizes(parts, k - 1);
      UnionNext(parts, k - 1);
    }
  }

  /** Adding a part disjoint from the union of the parts before it adds its size. */
  lemma UnionNext<T>(parts: seq<set<T>>, k: nat)
    requires Disjoint(parts) && k < |parts|
    ensures |Union(parts, k + 1)| == |Union(parts, k)| + |parts[k]|
  {
    forall x | x in parts[k]
      ensures x !in Union(parts, k)
    {
      UnionOutside(parts, k, k, x);
    }
    DisjointCard(Union(parts, k), parts[k]);
  }

  /** The size of a union of two disjoint sets. */
  lemma DisjointCard<T>(u: set<T>, v: set<T>)
    requires u !! v
    ensures |u + v| == |u| + |v|
  {
  }

  /** The completions after each mask at the first empty cell of a: none after a mask that does not fit. */
  ghost function Parts(ps: seq<Piece>, vss: seq<seq<Word>>, a: seq<int>): (r: seq<set<seq<int>>>)
    requires Ready(ps, vss) && IsChoice(vss, a)
    ensures |r| == |Row(ps, vss, a)|
  {
    var row := Row(ps, vss, a);
    seq(|row|, j requires 0 <= j < |row| =>
      if row[j] * Occupied(vss, a) == {} then Completions(vss, {}, Child(vss, a, row[j])) else {})
  }

  /** Different masks at the first empty cell lead to different completions. */
  lemma PartsDisjoint(ps: seq<Piece>, vss: seq<seq<Word>>, a: seq<int>)
    requires AtState(ps, vss, a)
    ensures Disjoint(Parts(ps, vss, a))
  {
    var row := Row(ps, vss, a);
    var parts := Parts(ps, vss, a);
    var fe := FirstEmpty(Occupied(vss, a));
    NotFull(ps, vss, a);
    TableNoDup(ps, vss, fe);
    forall j, m | 0 <= j < m < |parts|
      ensures parts[j] !! parts[m]
    {
      forall c | c in parts[m]
        ensures c !in parts[j]
      {
        if c in parts[j] {
          TableMember(ps, vss, fe, row[j]);
          TableMember(ps, vss, fe, row[m]);
          CompletionMask(ps, vss, a, row[j], fe, c);
          CompletionMask(ps, vss, a, row[m], fe, c);
        }
      }
    }
  }

  /** Every completion after a mask is a completion of a. */
  lemma PartsWithin(ps: seq<Piece>, vss: seq<seq<Word>>, a: seq<int>)
    requires AtState(ps, vss, a)
    ensures forall j | 0 <= j < |Parts(ps, vss, a)| :: Parts(ps, vss, a)[j] <= Completions(vss, {}, a)
  {
    var row := Row(ps, vss, a);
    var parts := Parts(ps, vss, a);
    var fe := FirstEmpty(Occupied(vss, a));
    NotFull(ps, vss, a);
    forall j, c | 0 <= j < |parts| && c in parts[j]
      ensures c in Completions(vss, {}, a)
    {
      TableMember(ps, vss, fe, row[j]);
      ChildCompletions(ps, vss, a, row[j], fe, c);
    }
  }

  /** A state with a completion and a piece still to place leaves a cell free. */
  lemma FreeCell(ps: seq<Piece>, vss: seq<seq<Word>>, a: seq<int>, c: seq<int>)
    requires AtState(ps, vss, a) && Unplaced(a) >= 1 && c in Completions(vss, {}, a)
    ensures !(FULL_BOARD <= Tilings.Placed(vss, a))
  {
    CompletionsMember(vss, {}, a, c);
    var q := UnplacedSome(a);
    var v := Pick(vss, c, q);
    UnplacedApart(vss, a, c, q);
    ValidIsSubset(v);
    var i := TrailingZeros(v) as Bit;
    assert i in v && i in FULL_BOARD && i !in Tilings.Placed(vss, a);
  }

  /** In a completion of a, a cell a leaves free is covered by a piece a leaves unplaced. */
  lemma CoveringPiece(ps: seq<Piece>, vss: seq<seq<Word>>, a: seq<int>, c: seq<int>, i: Bit) returns (p: nat)
    requires AtState(ps, vss, a) && c in Completions(vss, {}, a)
    requires i in FULL_BOARD && i !in Tilings.Placed(vss, a)
    ensures p < |a| && a[p] == NONE && i in Pick(vss, c, p)
  {
    CompletionsMember(vss, {}, a, c);
    assert i in Tilings.Placed(vss, c);
    PlacedMember(vss, c, i);
    p :| 0 <= p < |c| && i in Pick(vss, c, p);
    if a[p] != NONE {
      assert Pick(vss, a, p) == Pick(vss, c, p);
      PlacedMember(vss, a, i);
    }
  }

  /** A completion of a, with a piece still to place, comes after the mask of the piece that covers the first empty cell. */
  lemma CoverPart(ps: seq<Piece>, vss: seq<seq<Word>>, a: seq<int>, c: seq<int>) returns (j: nat)
    requires AtState(ps, vss, a) && Unplaced(a) >= 1 && c in Completions(vss, {}, a)
    ensures j < |Parts(ps, vss, a)| && c in Parts(ps, vss, a)[j]
  {
    var row := Row(ps, vss, a);
    var fe := FirstEmpty(Occupied(vss, a));
    FreeCell(ps, vss, a, c);
    FirstFree(ps, vss, a);
    var p := CoveringPiece(ps, vss, a, c, fe as Bit);
    var mask, pos := UnplacedMask(ps, vss, a, c, p);
    assert pos == fe by {
      var v := Shape(mask);
      assert fe as Bit in v;
      var t := pos as Bit;
      assert t in v;
    }
    j :| 0 <= j < |row| && row[j] == mask;
  }

  /** With a piece still to place, the masks at the first empty cell split the completions of a. */
  lemma SplitAll(ps: seq<Piece>, vss: seq<seq<Word>>, a: seq<int>)
    requires AtState(ps, vss, a) && Unplaced(a) >= 1
    ensures Union(Parts(ps, vss, a), |Parts(ps, vss, a)|) == Completions(vss, {}, a)
  {
    var parts := Parts(ps, vss, a);
    PartsWithin(ps, vss, a);
    UnionWithin(parts, |parts|, Completions(vss, {}, a));
    forall c | c in Completions(vss, {}, a)
      ensures c in Union(parts, |parts|)
    {
      var j := CoverPart(ps, vss, a, c);
      UnionHas(parts, j, |parts|, c);
    }
  }

  // ---------------------------------------------------------------------------
  // canFillAround never prunes a state that has a completion

  /** Accumulating masks only adds to occ. */
  lemma {:induction false} AccumulatedHasOcc(m: Masks, occ: Word, from: nat, pos: int)
    requires pos < |m.byPos|
    ensures occ <= Accumulated(m, occ, from, pos)
    decreases pos - from
  {
    if pos >= from {
      AccumulatedHasOcc(m, occ, from, pos - 1);
    }
  }

  /** A mask at a position from from to pos that is disjoint from occ is accumulated. */
  lemma {:induction false} AccumulatedHasMask(m: Masks, occ: Word, from: nat, pos: int, k: nat, mask: Word)
    requires from <= k <= pos < |m.byPos| && mask in m.byPos[k] && mask * occ == {}
    ensures mask <= Accumulated(m, occ, from, pos)
    decreases pos - from
  {
    if pos == k {
      FittingBits(occ, m.byPos[k]);
      var j :| 0 <= j < |m.byPos[k]| && m.byPos[k][j] == mask;
    } else {
      AccumulatedHasMask(m, occ, from, pos - 1, k, mask);
    }
  }

  /** When occ and every mask are within S, so is what is accumulated. */
  lemma {:induction false} AccumulatedWithin(m: Masks, occ: Word, from: nat, pos: int, S: Word)
    requires pos < |m.byPos| && occ <= S
    requires forall q, k | 0 <= q < |m.byPos| && 0 <= k < |m.byPos[q]| :: m.byPos[q][k] <= S
    ensures Accumulated(m, occ, from, pos) <= S
    decreases pos - from
  {
    if pos >= from {
      AccumulatedWithin(m, occ, from, pos - 1, S);
      FittingBits(occ, m.byPos[pos]);
    }
  }

  /** Every mask is within solvedMask. */
  lemma MaskSolved(ps: seq<Piece>, vss: seq<seq<Word>>, pos: nat, mask: Word)
    requires Ready(ps, vss) && 1 <= |ps| && pos < 64 && mask in MaskTable(ps)[pos]
    ensures mask <= SolvedMask(|ps|)
  {
    TableMember(ps, vss, pos, mask);
    AllPiecesTags(|ps|);
    var v := Shape(mask);
    var k :| 0 <= k < |vss[Owner(mask)]| && vss[Owner(mask)][k] == v;
    ValidIsSubset(v);
    assert IsTag(|ps|, (63 - Owner(mask)) as Bit);
  }

  /** The occupied word of a state is within solvedMask. */
  lemma OccupiedSolved(ps: seq<Piece>, vss: seq<seq<Word>>, a: seq<int>)
    requires Ready(ps, vss) && IsChoice(vss, a) && 1 <= |ps|
    ensures Occupied(vss, a) <= SolvedMask(|ps|)
  {
    PlacedOnBoard(ps, vss, a);
    AllPiecesTags(|ps|);
    forall i | i in Used(a)
      ensures IsTag(|ps|, i)
    {
    }
  }

  /** With a piece to place and a completion, the first empty cell is at most maxPos. */
  lemma FirstBelowMax(ps: seq<Piece>, vss: seq<seq<Word>>, a: seq<int>, c: seq<int>)
    requires AtState(ps, vss, a) && Unplaced(a) >= 1 && c in Completions(vss, {}, a)
    ensures Tabled(ps) && FirstEmpty(Occupied(vss, a)) <= Setup(ps).maxPos
  {
    var q := UnplacedSome(a);
    var mq, pq := UnplacedMask(ps, vss, a, c, q);
  }

  /** A bit of solvedMask the occupied word lacks is a free cell or a tag bit of a piece still to place. */
  lemma SolvedPiece(ps: seq<Piece>, vss: seq<seq<Word>>, a: seq<int>, c: seq<int>, i: Bit) returns (p: nat)
    requires AtState(ps, vss, a) && Unplaced(a) >= 1 && c in Completions(vss, {}, a)
    requires i in SolvedMask(|ps|) && i !in Occupied(vss, a)
    ensures p < |a| && a[p] == NONE && (i in Pick(vss, c, p) || i == (63 - p) as Bit)
  {
    var q := UnplacedSome(a);
    AllPiecesTags(|ps|);
    OccupiedBits(ps, vss, a, i);
    if i in FULL_BOARD {
      p := CoveringPiece(ps, vss, a, c, i);
    } else {
      assert IsTag(|ps|, i);
      p := 63 - i;
    }
  }

  /** The cells a completion gives a piece still to place, and its tag bit, are accumulated up to maxPos. */
  lemma PieceAccumulated(ps: seq<Piece>, vss: seq<seq<Word>>, a: seq<int>, c: seq<int>, p: nat)
    requires AtState(ps, vss, a) && c in Completions(vss, {}, a) && p < |a| && a[p] == NONE
    ensures Tabled(ps)
    ensures var acc := Accumulated(Setup(ps), Occupied(vss, a), FirstEmpty(Occupied(vss, a)), Setup(ps).maxPos);
      Pick(vss, c, p) <= acc && (63 - p) as Bit in acc
  {
    ReadyTabled(ps, vss);
    var mask, pos := UnplacedMask(ps, vss, a, c, p);
    var o := Occupied(vss, a);
    AccumulatedHasMask(Setup(ps), o, FirstEmpty(o), Setup(ps).maxPos, pos, mask);
  }

  /** The cells and tag bits that the completion c gives the pieces below m that a has still to place. */
  ghost function Claimed(vss: seq<seq<Word>>, a: seq<int>, c: seq<int>, m: nat): Word
    requires IsChoice(vss, c) && |a| == |c| <= 64 && m <= |a|
  {
    if m == 0 then {}
    else if a[m - 1] == NONE then Claimed(vss, a, c, m - 1) + Pick(vss, c, m - 1) + {(64 - m) as Bit}
    else Claimed(vss, a, c, m - 1)
  }

  /** Every piece below m still to place has its cells and its tag bit claimed. */
  lemma {:induction false} ClaimedHas(vss: seq<seq<Word>>, a: seq<int>, c: seq<int>, m: nat, p: nat)
    requires IsChoice(vss, c) && |a| == |c| <= 64 && p < m <= |a| && a[p] == NONE
    ensures Pick(vss, c, p) <= Claimed(vss, a, c, m) && (63 - p) as Bit in Claimed(vss, a, c, m)
  {
    if p < m - 1 {
      ClaimedHas(vss, a, c, m - 1, p);
    }
  }

  /** When every piece below m still to place has its cells and tag bit in acc, so has the claim. */
  lemma {:induction false} ClaimedWithin(vss: seq<seq<Word>>, a: seq<int>, c: seq<int>, m: nat, acc: Word)
    requires IsChoice(vss, c) && |a| == |c| <= 64 && m <= |a|
    requires forall p | 0 <= p < m && a[p] == NONE :: Pick(vss, c, p) <= acc && (63 - p) as Bit in acc
    ensures Claimed(vss, a, c, m) <= acc
  {
    if m > 0 {
      ClaimedWithin(vss, a, c, m - 1, acc);
    }
  }

  /** What every piece still to place claims is accumulated from the first empty cell up to maxPos. */
  lemma PiecesAccumulated(ps: seq<Piece>, vss: seq<seq<Word>>, a: seq<int>, c: seq<int>)
    requires AtState(ps, vss, a) && c in Completions(vss, {}, a)
    ensures Tabled(ps)
    ensures var acc := Accumulated(Setup(ps), Occupied(vss, a), FirstEmpty(Occupied(vss, a)), Setup(ps).maxPos);
      forall p | 0 <= p < |a| && a[p] == NONE :: Pick(vss, c, p) <= acc && (63 - p) as Bit in acc
  {
    ReadyTabled(ps, vss);
    forall p | 0 <= p < |a| && a[p] == NONE
      ensures Pick(vss, c, p) <= Accumulated(Setup(ps), Occupied(vss, a), FirstEmpty(Occupied(vss, a)), Setup(ps).maxPos)
      ensures (63 - p) as Bit in Accumulated(Setup(ps), Occupied(vss, a), FirstEmpty(Occupied(vss, a)), Setup(ps).maxPos)
    {
      PieceAccumulated(ps, vss, a, c, p);
    }
  }

  /** A bit of solvedMask is occupied or claimed by a piece still to place when a has a completion. */
  lemma SolvedCovered(ps: seq<Piece>, vss: seq<seq<Word>>, a: seq<int>, c: seq<int>, i: Bit)
    requires AtState(ps, vss, a) && Unplaced(a) >= 1 && c in Completions(vss, {}, a)
    requires i in SolvedMask(|ps|)
    ensures i in Occupied(vss, a) + Claimed(vss, a, c, |a|)
  {
    if i !in Occupied(vss, a) {
      var p := SolvedPiece(ps, vss, a, c, i);
      ClaimedHas(vss, a, c, |a|, p);
    }
  }

  /** With a completion, the accumulated word from the first empty cell up to maxPos is solvedMask. */
  lemma AccumulatedSolved(ps: seq<Piece>, vss: seq<seq<Word>>, a: seq<int>, c: seq<int>)
    requires AtState(ps, vss, a) && Unplaced(a) >= 1 && c in Completions(vss, {}, a)
    ensures Tabled(ps)
    ensures Accumulated(Setup(ps), Occupied(vss, a), FirstEmpty(Occupied(vss, a)), Setup(ps).maxPos) == Setup(ps).solved
  {
    ReadyTabled(ps, vss);
    var m := Setup(ps);
    var o := Occupied(vss, a);
    var fe := FirstEmpty(o);
    var acc := Accumulated(m, o, fe, m.maxPos);
    AccumulatedHasOcc(m, o, fe, m.maxPos);
    PiecesAccumulated(ps, vss, a, c);
    ClaimedWithin(vss, a, c, |a|, acc);
    forall i | i in m.solved
      ensures i in acc
    {
      SolvedCovered(ps, vss, a, c, i);
    }
    OccupiedSolved(ps, vss, a);
    forall pos, k | 0 <= pos < 64 && 0 <= k < |m.byPos[pos]|
      ensures m.byPos[pos][k] <= m.solved
    {
      MaskSolved(ps, vss, pos, m.byPos[pos][k]);
    }
    AccumulatedWithin(m, o, fe, m.maxPos, m.solved);
  }

  /**
   * `canFillAround` is a sound pruning: in a state with a piece to place and
   * a completion, the masks that fit, accumulated from the first empty cell
   * up to maxPos, give solvedMask.
   */
  lemma PruneSound(ps: seq<Piece>, vss: seq<seq<Word>>, a: seq<int>, c: seq<int>)
    requires AtState(ps, vss, a) && Unplaced(a) >= 1 && c in Completions(vss, {}, a)
    ensures Tabled(ps) && FillsAround(Setup(ps), Occupied(vss, a))
  {
    FirstBelowMax(ps, vss, a, c);
    AccumulatedSolved(ps, vss, a, c);
    var m := Setup(ps);
    var o := Occupied(vss, a);
    assert FirstEmpty(o) <= m.maxPos && Accumulated(m, o, FirstEmpty(o), m.maxPos) == m.solved;
  }

  // ---------------------------------------------------------------------------
  // solveLast counts the completions of a state with one piece to place

  /** With one piece q to place, every other piece is placed. */
  lemma OnlyUnplaced(a: seq<int>, q: nat)
    requires Unplaced(a) == 1 && q < |a| && a[q] == NONE
    ensures forall p | 0 <= p < |a| && p != q :: a[p] != NONE
  {
    UnplacedPlace(a, q, 0);
    UnplacedNone(a[q := 0]);
    assert forall p | 0 <= p < |a| && p != q :: a[p] == a[q := 0][p];
  }

  /** The cells a state leaves free. */
  function Holes(vss: seq<seq<Word>>, a: seq<int>): Word
    requires IsChoice(vss, a)
  {
    FULL_BOARD - Tilings.Placed(vss, a)
  }

  /** With one piece q to place, the tag bits used are those of the other pieces. */
  lemma UsedLast(b: seq<int>, q: nat, i: Bit)
    requires Unplaced(b) == 1 && q < |b| <= 64 && b[q] == NONE
    ensures IsUsed(b, i) <==> IsTag(|b|, i) && i != (63 - q) as Bit
  {
    OnlyUnplaced(b, q);
    if IsTag(|b|, i) {
      assert 63 - i < |b|;
    }
  }

  /** One bit of `occupied ^ solvedMask` with one piece q to place. */
  lemma LastTargetBit(ps: seq<Piece>, vss: seq<seq<Word>>, b: seq<int>, q: nat, i: Bit)
    requires Ready(ps, vss) && IsChoice(vss, b) && Unplaced(b) == 1 && q < |b| && b[q] == NONE
    ensures i in Xor(Occupied(vss, b), SolvedMask(|ps|)) <==> i in Holes(vss, b) || i == (63 - q) as Bit
  {
    AllPiecesTags(|ps|);
    OccupiedBits(ps, vss, b, i);
    FullBoardSize();
    if i !in FULL_BOARD {
      UsedLast(b, q, i);
      assert i in SolvedMask(|ps|) <==> IsTag(|ps|, i);
    }
  }

  /** With one piece q to place, `occupied ^ solvedMask` is the free cells with the tag bit of q. */
  lemma LastTarget(ps: seq<Piece>, vss: seq<seq<Word>>, b: seq<int>, q: nat)
    requires Ready(ps, vss) && IsChoice(vss, b) && Unplaced(b) == 1 && q < |b| && b[q] == NONE
    ensures Xor(Occupied(vss, b), SolvedMask(|ps|)) == Holes(vss, b) + TagBit(q)
  {
    forall i: Bit
      ensures i in Xor(Occupied(vss, b), SolvedMask(|ps|)) <==> i in Holes(vss, b) + TagBit(q)
    {
      LastTargetBit(ps, vss, b, q, i);
    }
  }

  /** A completion of a state with one piece q to place puts q exactly on the free cells. */
  lemma LastCompletion(ps: seq<Piece>, vss: seq<seq<Word>>, b: seq<int>, q: nat, c: seq<int>)
    requires AtState(ps, vss, b) && Unplaced(b) == 1 && q < |b| && b[q] == NONE && c in Completions(vss, {}, b)
    ensures 0 <= c[q] < |vss[q]| && c == b[q := c[q]] && vss[q][c[q]] == Holes(vss, b)
  {
    CompletionsMember(vss, {}, b, c);
    OnlyUnplaced(b, q);
    PlacedOnBoard(ps, vss, b);
    assert c == b[q := c[q]];
    PlacedPlace(vss, b, q, c[q]);
    UnplacedApart(vss, b, c, q);
    var v := vss[q][c[q]];
    ValidIsSubset(v);
    assert v == Holes(vss, b) by {
      assert {} + Tilings.Placed(vss, c) == FULL_BOARD;
    }
  }

  /** Placing q exactly on the free cells completes a state with one piece q to place. */
  lemma LastPlace(ps: seq<Piece>, vss: seq<seq<Word>>, b: seq<int>, q: nat, i: int)
    requires AtState(ps, vss, b) && Unplaced(b) == 1 && q < |b| && b[q] == NONE
    requires 0 <= i < |vss[q]| && vss[q][i] == Holes(vss, b)
    ensures b[q := i] in Completions(vss, {}, b)
  {
    OnlyUnplaced(b, q);
    PlacedOnBoard(ps, vss, b);
    PlacedPlace(vss, b, q, i);
    SeparatePlace(vss, {}, b, q, i);
    assert {} + Tilings.Placed(vss, b) == Tilings.Placed(vss, b);
    assert {} + Tilings.Placed(vss, b[q := i]) == FULL_BOARD;
    ExtendsPlace(b[q := i], b, q, i);
    CompletionsMember(vss, {}, b, b[q := i]);
  }

  /** The mask `solveLast` looks for is at the first empty cell exactly when the free cells are a variant of q. */
  lemma LastMask(ps: seq<Piece>, vss: seq<seq<Word>>, b: seq<int>, q: nat)
    requires AtState(ps, vss, b) && Unplaced(b) == 1 && q < |b| && b[q] == NONE
    ensures Occupied(vss, b) != FULL_BOARD
    ensures Xor(Occupied(vss, b), SolvedMask(|ps|)) in Row(ps, vss, b) <==> Holes(vss, b) in vss[q]
  {
    NotFull(ps, vss, b);
    LastTarget(ps, vss, b, q);
    PlacedOnBoard(ps, vss, b);
    var h := Holes(vss, b);
    var t := h + TagBit(q);
    var fe := FirstEmpty(Occupied(vss, b));
    ValidIsSubset(h);
    MaskParts(h, q);
    TableMember(ps, vss, fe, t);
    if h in vss[q] {
      var k :| 0 <= k < |vss[q]| && vss[q][k] == h;
      FirstFree(ps, vss, b);
      var lo := TrailingZeros(h) as Bit;
      assert lo in h;
      assert fe as Bit in h;
    }
  }

  /** `solveLast` counts the completions of a state with one piece to place. */
  lemma LastCounts(ps: seq<Piece>, vss: seq<seq<Word>>, b: seq<int>)
    requires AtState(ps, vss, b) && Unplaced(b) == 1
    ensures Tabled(ps) && Occupied(vss, b) != FULL_BOARD
    ensures Last(Setup(ps), Occupied(vss, b)) == |Completions(vss, {}, b)|
  {
    ReadyTabled(ps, vss);
    var q := UnplacedSome(b);
    LastMask(ps, vss, b, q);
    var h := Holes(vss, b);
    var C := Completions(vss, {}, b);
    if h in vss[q] {
      var i := ByPiece.FirstIndex(vss[q], h);
      ByPiece.FirstIndexFinds(vss[q], h);
      LastPlace(ps, vss, b, q, i);
      forall c | c in C
        ensures c == b[q := i]
      {
        LastCompletion(ps, vss, b, q, c);
        FirstIndexNoDup(vss[q], c[q]);
      }
      assert C == {b[q := i]};
    } else {
      if c :| c in C {
        LastCompletion(ps, vss, b, q, c);
      }
      assert C == {};
    }
  }

  // ---------------------------------------------------------------------------
  // The count of the search

  /**
   * The task on level at state a, with level + 1 pieces to place, counts
   * over its first k masks the completions after those masks.
   */
  lemma {:induction false} ExploreCounts(ps: seq<Piece>, vss: seq<seq<Word>>, a: seq<int>, level: int, k: nat)
    requires AtState(ps, vss, a) && 1 <= level && Unplaced(a) == level + 1 && k <= |Row(ps, vss, a)|
    ensures Tabled(ps) && Tagged(Setup(ps)) && Occupied(vss, a) != FULL_BOARD
    ensures Explore(Setup(ps), Occupied(vss, a), level, k) == Sizes(Parts(ps, vss, a), k)
    decreases level, 3, k
  {
    ReadyTabled(ps, vss);
    SetupTagged(ps);
    NotFull(ps, vss, a);
    if k > 0 {
      ExploreCounts(ps, vss, a, level, k - 1);
      TryCounts(ps, vss, a, level, k - 1);
    }
  }

  /** One mask at the first empty cell of a counts the completions after it, none when it does not fit. */
  lemma {:induction false} TryCounts(ps: seq<Piece>, vss: seq<seq<Word>>, a: seq<int>, level: int, j: nat)
    requires AtState(ps, vss, a) && 1 <= level && Unplaced(a) == level + 1 && j < |Row(ps, vss, a)|
    ensures Tabled(ps) && Tagged(Setup(ps)) && Occupied(vss, a) != FULL_BOARD
    ensures Try(Setup(ps), Occupied(vss, a), level, Row(ps, vss, a)[j]) == |Parts(ps, vss, a)[j]|
    decreases level, 2, 0
  {
    ReadyTabled(ps, vss);
    SetupTagged(ps);
    NotFull(ps, vss, a);
    var mask := Row(ps, vss, a)[j];
    if mask * Occupied(vss, a) == {} {
      var fe := FirstEmpty(Occupied(vss, a));
      TableMember(ps, vss, fe, mask);
      ChildState(ps, vss, a, mask, fe);
      PlaceCounts(ps, vss, Child(vss, a, mask), level);
    }
  }

  /** After a placement that leaves level pieces to place, the search that follows counts the completions. */
  lemma {:induction false} PlaceCounts(ps: seq<Piece>, vss: seq<seq<Word>>, b: seq<int>, level: int)
    requires AtState(ps, vss, b) && 1 <= level && Unplaced(b) == level
    ensures Tabled(ps) && Tagged(Setup(ps)) && Occupied(vss, b) != FULL_BOARD
    ensures Place(Setup(ps), Occupied(vss, b), level) == |Completions(vss, {}, b)|
    decreases level, 1, 0
  {
    ReadyTabled(ps, vss);
    SetupTagged(ps);
    NotFull(ps, vss, b);
    if level == 1 {
      LastCounts(ps, vss, b);
    } else {
      PlaceDeeper(ps, vss, b, level);
    }
  }

  /** Above level 1 the task on the next level counts the completions, or is pruned when there are none. */
  lemma {:induction false} PlaceDeeper(ps: seq<Piece>, vss: seq<seq<Word>>, b: seq<int>, level: int)
    requires AtState(ps, vss, b) && 2 <= level && Unplaced(b) == level
    ensures Tabled(ps) && Tagged(Setup(ps)) && Occupied(vss, b) != FULL_BOARD
    ensures Place(Setup(ps), Occupied(vss, b), level) == |Completions(vss, {}, b)|
    decreases level, 0, 0
  {
    ReadyTabled(ps, vss);
    SetupTagged(ps);
    NotFull(ps, vss, b);
    if FillsAround(Setup(ps), Occupied(vss, b)) {
      ExploreCounts(ps, vss, b, level - 1, |Row(ps, vss, b)|);
      PartsDisjoint(ps, vss, b);
      UnionSizes(Parts(ps, vss, b), |Row(ps, vss, b)|);
      SplitAll(ps, vss, b);
    } else if c :| c in Completions(vss, {}, b) {
      PruneSound(ps, vss, b, c);
    }
  }

  /** The empty state: nothing covered, nothing used, every piece to place. */
  lemma EmptyState(ps: seq<Piece>, vss: seq<seq<Word>>)
    requires Ready(ps, vss)
    ensures AtState(ps, vss, Nones(|ps|)) && Occupied(vss, Nones(|ps|)) == {} && Unplaced(Nones(|ps|)) == |ps|
  {
    var a := Nones(|ps|);
    forall i | i in Tilings.Placed(vss, a)
      ensures false
    {
      PlacedMember(vss, a, i);
    }
    UnplacedNones(|ps|);
  }

  /**
   * `solve` counts the tilings: from the empty board, with n - 1 as the first
   * level, the search counts every way to place all n pieces, each exactly
   * once, on disjoint cells covering the board.
   */
  lemma SolveCounts(ps: seq<Piece>)
    requires 2 <= |ps| <= 10 && ByPiece.AllWellFormed(ps) && ByPiece.DistinctVariants(ps)
    ensures Tabled(ps) && Tagged(Setup(ps)) && {} != FULL_BOARD
    ensures Explore(Setup(ps), {}, |ps| - 1, |Setup(ps).byPos[FirstEmpty({})]|) == |TilingsOf(ByPiece.Vss(ps), {})|
  {
    var vss := ByPiece.Vss(ps);
    ReadyPieces(ps);
    EmptyState(ps, vss);
    var a := Nones(|ps|);
    ExploreCounts(ps, vss, a, |ps| - 1, |Row(ps, vss, a)|);
    PartsDisjoint(ps, vss, a);
    UnionSizes(Parts(ps, vss, a), |Row(ps, vss, a)|);
    SplitAll(ps, vss, a);
  }

  /** Both solvers count the same number of solutions for the same pieces on the empty board. */
  lemma SolversAgree(ps: seq<Piece>, printing: bool)
    requires 2 <= |ps| <= 10 && ByPiece.AllWellFormed(ps) && ByPiece.DistinctVariants(ps)
    ensures Tabled(ps) && Tagged(Setup(ps)) && {} != FULL_BOARD
    ensures var sorted := ByPiece.SortByVariantCount(ps);
      ByPiece.AllWellFormed(sorted)
      && ByPiece.Search(sorted, {}, printing).solutions == Explore(Setup(ps), {}, |ps| - 1, |Setup(ps).byPos[FirstEmpty({})]|)
  {
    SolveCounts(ps);
    ByPiece.SearchCounts(ps, {}, printing);
  }
}
