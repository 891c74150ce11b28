/**
 * The solver that places one piece at a time: the pieces are sorted by
 * decreasing number of variants and tried from the last one down; every
 * variant of the current piece that fits, passes the size window and the
 * coverage test leads to a search with one piece fewer, and the last piece
 * only has to match the holes that are left.
 */
module ByPiece {
  import opened Bits
  import opened BitBoard
  import opened Pieces
  import opened Tilings

  // ---------------------------------------------------------------------------
  // The order of the pieces

  /** The pieces are sorted by decreasing number of variants. */
  predicate Descending(s: seq<Piece>)
  {
    forall i, j | 0 <= i < j < |s| :: |s[i].variants| >= |s[j].variants|
  }

  /** x inserted into the descending s after the last piece with at least as many variants. */
  function Insert(s: seq<Piece>, x: Piece): (r: seq<Piece>)
    ensures |r| == |s| + 1
  {
    if s == [] || |s[|s| - 1].variants| >= |x.variants| then s + [x]
    else Insert(s[..|s| - 1], x) + [s[|s| - 1]]
  }

  /**
   * The list sort with the reversed variant-count comparator: a stable sort
   * by decreasing number of variants, written as an insertion sort.
   */
  function SortByVariantCount(s: seq<Piece>): (r: seq<Piece>)
    ensures |r| == |s|
  {
    if s == [] then [] else Insert(SortByVariantCount(s[..|s| - 1]), s[|s| - 1])
  }

  /** Inserting keeps the order and adds exactly x. */
  lemma InsertSorts(s: seq<Piece>, x: Piece)
    requires Descending(s)
    ensures Descending(Insert(s, x))
    ensures multiset(Insert(s, x)) == multiset(s) + multiset{x}
  {
    InsertOrders(s, x);
    InsertKeeps(s, x);
  }

  /** Inserting into a descending list keeps it descending. */
  lemma {:induction false} InsertOrders(s: seq<Piece>, x: Piece)
    requires Descending(s)
    ensures Descending(Insert(s, x))
    decreases |s|
  {
    if s != [] && |s[|s| - 1].variants| < |x.variants| {
      var s', y := s[..|s| - 1], s[|s| - 1];
      InsertOrders(s', x);
      InsertAbove(s', x, |y.variants|);
      var r := Insert(s, x);
      assert r == Insert(s', x) + [y];
      forall i, j | 0 <= i < j < |r|
        ensures |r[i].variants| >= |r[j].variants|
      {
        if j < |r| - 1 {
          assert r[i] == Insert(s', x)[i] && r[j] == Insert(s', x)[j];
        }
      }
    }
  }

  /** Inserting adds exactly x. */
  lemma {:induction false} InsertKeeps(s: seq<Piece>, x: Piece)
    ensures multiset(Insert(s, x)) == multiset(s) + multiset{x}
    decreases |s|
  {
    if s != [] && |s[|s| - 1].variants| < |x.variants| {
      var s', y := s[..|s| - 1], s[|s| - 1];
      assert s == s' + [y];
      InsertKeeps(s', x);
    }
  }

  /** When x and every piece of s have at least b variants, so does every piece after inserting x. */
  lemma {:induction false} InsertAbove(s: seq<Piece>, x: Piece, b: int)
    requires |x.variants| >= b && forall k | 0 <= k < |s| :: |s[k].variants| >= b
    ensures forall k | 0 <= k < |s| + 1 :: |Insert(s, x)[k].variants| >= b
    decreases |s|
  {
    if s != [] && |s[|s| - 1].variants| < |x.variants| {
      InsertAbove(s[..|s| - 1], x, b);
    }
  }

  /** The sort orders the pieces by decreasing number of variants and keeps every piece as often as it occurs. */
  lemma {:induction false} SortSorts(s: seq<Piece>)
    ensures Descending(SortByVariantCount(s))
    ensures multiset(SortByVariantCount(s)) == multiset(s)
  {
    if s != [] {
      SortSorts(s[..|s| - 1]);
      InsertSorts(SortByVariantCount(s[..|s| - 1]), s[|s| - 1]);
      assert s == s[..|s| - 1] + [s[|s| - 1]];
    }
  }

  /** Inserting is a run of exchanges of adjacent pieces. */
  lemma {:induction false} InsertSwaps(s: seq<Piece>, x: Piece) returns (js: seq<nat>)
    ensures forall k | 0 <= k < |js| :: js[k] + 1 < |s| + 1
    ensures ApplySwaps(s + [x], js) == Insert(s, x)
  {
    if s == [] || |s[|s| - 1].variants| >= |x.variants| {
      js := [];
    } else {
      var s', y := s[..|s| - 1], s[|s| - 1];
      var js' := InsertSwaps(s', x);
      assert Swap(s + [x], |s'|) == s' + [x] + [y] by {
        assert s == s' + [y];
      }
      ApplySwapsAppend(s' + [x], js', y);
      js := [|s'|] + js';
      assert js[1..] == js';
    }
  }

  /** Sorting is a run of exchanges of adjacent pieces. */
  lemma {:induction false} SortSwaps(s: seq<Piece>) returns (js: seq<nat>)
    ensures forall k | 0 <= k < |js| :: js[k] + 1 < |s|
    ensures ApplySwaps(s, js) == SortByVariantCount(s)
  {
    if s == [] {
      js := [];
    } else {
      var t, x := s[..|s| - 1], s[|s| - 1];
      var jt := SortSwaps(t);
      var jx := InsertSwaps(SortByVariantCount(t), x);
      assert s == t + [x];
      ApplySwapsAppend(t, jt, x);
      ApplySwapsThen(s, jt, jx);
      js := jt + jx;
    }
  }

  // ---------------------------------------------------------------------------
  // Pieces as lists of variants

  /** The variants of each piece. */
  function Vss(ps: seq<Piece>): (r: seq<seq<Word>>)
    ensures |r| == |ps|
  {
    seq(|ps|, p requires 0 <= p < |ps| => ps[p].variants)
  }

  /** Exchanging two pieces exchanges their variant lists. */
  lemma VssSwap(ps: seq<Piece>, j: nat)
    requires j + 1 < |ps|
    ensures Vss(Swap(ps, j)) == Swap(Vss(ps), j)
  {
  }

  /** A run of exchanges of pieces is the same run on their variant lists. */
  lemma {:induction false} VssApplySwaps(ps: seq<Piece>, js: seq<nat>)
    requires forall k | 0 <= k < |js| :: js[k] + 1 < |ps|
    ensures Vss(ApplySwaps(ps, js)) == ApplySwaps(Vss(ps), js)
    decreases |js|
  {
    if js != [] {
      VssSwap(ps, js[0]);
      VssApplySwaps(Swap(ps, js[0]), js[1..]);
    }
  }

  /** Sorting the pieces does not change the number of tilings. */
  lemma SortedTilings(ps: seq<Piece>, occ: Word)
    ensures |TilingsOf(Vss(SortByVariantCount(ps)), occ)| == |TilingsOf(Vss(ps), occ)|
  {
    var js := SortSwaps(ps);
    VssApplySwaps(ps, js);
    ApplySwapsTilings(Vss(ps), occ, js);
  }

  /** The remaining pieces ps[..k] are the first k pieces of the variant lists. */
  lemma VssPrefix(ps: seq<Piece>, k: nat)
    requires k <= |ps|
    ensures Vss(ps[..k]) == Vss(ps)[..k]
  {
  }

  /** Every piece is built by the constructors. */
  ghost predicate AllWellFormed(ps: seq<Piece>)
  {
    forall p | 0 <= p < |ps| :: WellFormed(ps[p])
  }

  /** No piece has the same placement twice. */
  ghost predicate DistinctVariants(ps: seq<Piece>)
  {
    forall p | 0 <= p < |ps| :: NoDup(ps[p].variants)
  }

  /** Sorting keeps the pieces, so it keeps these properties. */
  lemma SortedPieces(ps: seq<Piece>)
    ensures AllWellFormed(ps) ==> AllWellFormed(SortByVariantCount(ps))
    ensures DistinctVariants(ps) ==> DistinctVariants(SortByVariantCount(ps))
  {
    var r := SortByVariantCount(ps);
    SortSorts(ps);
    forall p | 0 <= p < |r|
      ensures exists q | 0 <= q < |ps| :: ps[q] == r[p]
    {
      assert r[p] in multiset(r);
      assert r[p] in multiset(ps);
      var q :| 0 <= q < |ps| && ps[q] == r[p];
    }
  }

  // ---------------------------------------------------------------------------
  // The size window

  /** Java `int` arithmetic: the value modulo 2^32, in the range of `int`. */
  function Wrap32(v: int): (r: int)
    ensures INT_MIN <= r <= INT_MAX
    ensures INT_MIN <= v <= INT_MAX ==> r == v
  {
    (v - INT_MIN) % 0x1_0000_0000 + INT_MIN
  }

  /**
   * (minSize, maxSize) after the loop over the first m remaining pieces:
   * both start at the number of free cells, maxSize loses each piece's
   * smallest size and minSize its largest, in `int` arithmetic.
   */
  function Window(free: int, ps: seq<Piece>, m: nat): (int, int)
    requires m <= |ps|
  {
    if m == 0 then (free, free)
    else
      var w := Window(free, ps, m - 1);
      (Wrap32(w.0 - ps[m - 1].maxSize), Wrap32(w.1 - ps[m - 1].minSize))
  }

  /** The smallest sizes of the first m pieces added up. */
  function SumMin(ps: seq<Piece>, m: nat): int
    requires m <= |ps|
  {
    if m == 0 then 0 else SumMin(ps, m - 1) + ps[m - 1].minSize
  }

  /** The largest sizes of the first m pieces added up. */
  function SumMax(ps: seq<Piece>, m: nat): int
    requires m <= |ps|
  {
    if m == 0 then 0 else SumMax(ps, m - 1) + ps[m - 1].maxSize
  }

  /** With few pieces of at most 50 cells nothing wraps: the window is the free cells less the summed sizes. */
  lemma {:induction false} WindowExact(free: int, ps: seq<Piece>, m: nat)
    requires m <= |ps| && m <= X_SIZE * Y_SIZE && -64 <= free <= 64
    requires forall p | 0 <= p < m :: 0 <= ps[p].minSize <= ps[p].maxSize <= X_SIZE * Y_SIZE
    ensures Window(free, ps, m) == (free - SumMax(ps, m), free - SumMin(ps, m))
    ensures 0 <= SumMin(ps, m) <= SumMax(ps, m) <= X_SIZE * Y_SIZE * m
  {
    if m > 0 {
      WindowExact(free, ps, m - 1);
    }
  }

  /** The smallest and largest sizes of a piece with variants bound each variant, and lie between 1 and 50. */
  ghost predicate Sized(p: Piece)
  {
    p.variants != [] ==>
      1 <= p.minSize <= p.maxSize <= X_SIZE * Y_SIZE
      && forall k | 0 <= k < |p.variants| :: p.minSize <= |p.variants[k]| <= p.maxSize
  }

  /** Every piece the constructors build has sizes like that. */
  lemma WellFormedSized(p: Piece)
    requires WellFormed(p)
    ensures Sized(p)
  {
    if p.variants != [] {
      SizeBounds(p);
      var j :| 0 <= j < |p.variants| && |p.variants[j]| == p.maxSize;
      ValidSize(p.variants[j]);
      var j' :| 0 <= j' < |p.variants| && |p.variants[j']| == p.minSize;
      assert p.variants[j'] != {};
    }
  }

  /** The variants a complete choice gives the first m pieces have sizes between the summed smallest and largest sizes. */
  lemma {:induction false} SizeUpToBounds(ps: seq<Piece>, vss: seq<seq<Word>>, c: seq<int>, m: nat)
    requires m <= |vss| <= |ps| && IsChoice(vss, c) && Complete(c)
    requires forall p | 0 <= p < |vss| :: vss[p] == ps[p].variants && Sized(ps[p])
    ensures SumMin(ps, m) <= SizeUpTo(vss, c, m) <= SumMax(ps, m)
    ensures m <= SizeUpTo(vss, c, m)
    ensures forall p | 0 <= p < m :: 1 <= ps[p].minSize <= ps[p].maxSize <= X_SIZE * Y_SIZE
  {
    if m > 0 {
      var p := m - 1;
      SizeUpToBounds(ps, vss, c, p);
      assert Pick(vss, c, p) == ps[p].variants[c[p]];
      assert Sized(ps[p]);
    }
  }

  /**
   * Size pruning loses nothing: when the other pieces can tile the board
   * around occ and bb, the size of bb lies in the window.
   */
  lemma {:induction false} WindowSound(ps: seq<Piece>, occ: Word, k: nat, bb: Word, c: seq<int>)
    requires k <= |ps| && bb * occ == {}
    requires forall p | 0 <= p < k :: Sized(ps[p])
    requires Tiles(Vss(ps[..k]), occ + bb, c)
    ensures var w := Window(X_SIZE * Y_SIZE - |occ|, ps, k); w.0 <= |bb| <= w.1
  {
    WindowSoundFor(ps, Vss(ps[..k]), occ, bb, c);
  }

  /** The same, for the variant lists of the first pieces given directly. */
  lemma {:induction false} WindowSoundFor(ps: seq<Piece>, vss: seq<seq<Word>>, occ: Word, bb: Word, c: seq<int>)
    requires |vss| <= |ps| && bb * occ == {}
    requires forall p | 0 <= p < |vss| :: vss[p] == ps[p].variants && Sized(ps[p])
    requires Tiles(vss, occ + bb, c)
    ensures var w := Window(X_SIZE * Y_SIZE - |occ|, ps, |vss|); w.0 <= |bb| <= w.1
  {
    var b, s := CoverSizes(vss, occ, bb, c);
    SizeUpToBounds(ps, vss, c, |vss|);
    WindowArith(X_SIZE * Y_SIZE - |occ|, ps, |vss|, b, s);
  }

  /** A tiling around occ and bb splits the free cells of occ into bb and the pieces' variants. */
  lemma {:induction false} CoverSizes(vss: seq<seq<Word>>, occ: Word, bb: Word, c: seq<int>) returns (b: int, s: int)
    requires bb * occ == {} && Tiles(vss, occ + bb, c)
    ensures b == |bb| && s == SizeUpTo(vss, c, |c|) && |c| == |vss|
    ensures b + s == X_SIZE * Y_SIZE - |occ| && 0 <= |occ| <= X_SIZE * Y_SIZE
  {
    TilingSize(vss, occ + bb, c);
    FullBoardSize();
    assert occ * bb == {} by {
      forall i | i in occ ensures i !in bb {
        assert i !in bb * occ;
      }
    }
    assert |occ + bb| == |occ| + |bb|;
    ValidIsSubset(occ);
    ValidSize(occ);
    b, s := |bb|, SizeUpTo(vss, c, |c|);
  }

  /** The window arithmetic: a size between the summed bounds lies in the window. */
  lemma {:induction false} WindowArith(free: int, ps: seq<Piece>, k: nat, b: int, s: int)
    requires k <= |ps| && 0 <= free <= X_SIZE * Y_SIZE && 0 <= b && free == b + s
    requires forall p | 0 <= p < k :: 1 <= ps[p].minSize <= ps[p].maxSize <= X_SIZE * Y_SIZE
    requires SumMin(ps, k) <= s <= SumMax(ps, k) && k <= s
    ensures Window(free, ps, k).0 <= b <= Window(free, ps, k).1
  {
    WindowExact(free, ps, k);
  }

  // ---------------------------------------------------------------------------
  // The coverage test and the last piece

  /**
   * Coverage pruning loses nothing: when the pieces can tile the board around
   * o, every free cell is covered by a variant that fits o, so `canFillAround`
   * answers true.
   */
  lemma {:induction false} CanFillNeeded(ps: seq<Piece>, o: Word, c: seq<int>)
    requires |ps| > 0 && AllWellFormed(ps) && Tiles(Vss(ps), o, c)
    ensures CanFill(o, ps)
  {
    assert ValidPieces(ps);
    CanFillNeededFor(ps, Vss(ps), o, c);
  }

  /** The same, for the variant lists of the pieces given directly. */
  lemma {:induction false} CanFillNeededFor(ps: seq<Piece>, vss: seq<seq<Word>>, o: Word, c: seq<int>)
    requires |ps| > 0 && |vss| == |ps| && ValidPieces(ps)
    requires forall p | 0 <= p < |ps| :: vss[p] == ps[p].variants
    requires Tiles(vss, o, c)
    ensures CanFill(o, ps)
  {
    var n := |ps|;
    TilingSize(vss, o, c);
    ValidIsSubset(o);
    ReachGrows(o, ps, n, n);
    forall i | i in FULL_BOARD
      ensures i in Reach(o, ps, n)
    {
      CellReached(ps, vss, o, c, i);
    }
    assert Reach(o, ps, n) == FULL_BOARD;
  }

  /** A cell of the board is occupied or covered by the variant a tiling gives some piece, which fits o. */
  lemma {:induction false} CellReached(ps: seq<Piece>, vss: seq<seq<Word>>, o: Word, c: seq<int>, i: Bit)
    requires |vss| == |ps| && forall p | 0 <= p < |ps| :: vss[p] == ps[p].variants
    requires Tiles(vss, o, c) && i in FULL_BOARD
    ensures i in Reach(o, ps, |ps|)
  {
    if i in o {
      ReachGrows(o, ps, 0, |ps|);
    } else {
      assert i in Tilings.Placed(vss, c);
      PlacedMember(vss, c, i);
      var p :| 0 <= p < |ps| && i in Pick(vss, c, p);
      var v := ps[p].variants[c[p]];
      assert Pick(vss, c, p) == v && v * o == {};
      FittingBits(o, ps[p].variants);
      assert i in Fitting(o, ps[p].variants);
      ReachGrows(o, ps, p + 1, |ps|);
    }
  }

  /** A valid board covers exactly the free cells of o, disjointly, when it is the holes `o ^ FULL_BOARD`. */
  lemma {:induction false} HolesExactly(v: Word, o: Word)
    requires Valid(v)
    ensures (v * o == {} && o + v == FULL_BOARD) <==> v == Xor(o, FULL_BOARD)
  {
    ValidIsSubset(v);
    if v == Xor(o, FULL_BOARD) {
      forall i: Bit | i in o
        ensures i in FULL_BOARD
      {
        assert i in v <==> i !in FULL_BOARD;
      }
      assert v == FULL_BOARD - o;
    }
    if v * o == {} && o + v == FULL_BOARD {
      forall i: Bit
        ensures i in v <==> i in Xor(o, FULL_BOARD)
      {
        if i in v {
          assert i !in v * o;
        }
      }
    }
  }

  /**
   * The last piece tiles the board around o in exactly one way when one of
   * its (distinct) variants is the holes of o, and in none otherwise.
   */
  lemma {:induction false} LeafTilings(vs: seq<Word>, o: Word)
    requires forall k | 0 <= k < |vs| :: Valid(vs[k])
    requires NoDup(vs)
    ensures |TilingsOf([vs], o)| == if Xor(o, FULL_BOARD) in vs then 1 else 0
  {
    var holes := Xor(o, FULL_BOARD);
    if holes in vs {
      var j :| 0 <= j < |vs| && vs[j] == holes;
      LeafOne(vs, o, j);
    } else {
      LeafNone(vs, o);
    }
  }

  /** When variant j is the holes of o, tiling with one piece has the one choice [j]. */
  lemma LeafOne(vs: seq<Word>, o: Word, j: nat)
    requires forall k | 0 <= k < |vs| :: Valid(vs[k])
    requires NoDup(vs) && j < |vs| && vs[j] == Xor(o, FULL_BOARD)
    ensures TilingsOf([vs], o) == {[j]}
  {
    forall c | c in TilingsOf([vs], o)
      ensures c == [j]
    {
      LeafMember(vs, o, c);
    }
    LeafMember(vs, o, [j]);
  }

  /** When no variant is the holes of o, tiling with one piece has no choice. */
  lemma LeafNone(vs: seq<Word>, o: Word)
    requires forall k | 0 <= k < |vs| :: Valid(vs[k])
    requires Xor(o, FULL_BOARD) !in vs
    ensures TilingsOf([vs], o) == {}
  {
    forall c
      ensures c !in TilingsOf([vs], o)
    {
      LeafMember(vs, o, c);
    }
  }

  /** The choices tiling the board around o with one piece pick a variant that is the holes of o. */
  lemma {:induction false} LeafMember(vs: seq<Word>, o: Word, c: seq<int>)
    requires forall k | 0 <= k < |vs| :: Valid(vs[k])
    ensures c in TilingsOf([vs], o) <==> |c| == 1 && 0 <= c[0] < |vs| && vs[c[0]] == Xor(o, FULL_BOARD)
  {
    TilingsMember([vs], o, c);
    if |c| == 1 {
      LastPieceTiles([vs], o, c);
      assert [vs][..0] == [] && c[..0] == [];
      if 0 <= c[0] < |vs| {
        HolesExactly(vs[c[0]], o);
        assert Tilings.Placed([], []) == {};
      }
    }
  }

  /** Looking only at the variants with w's lowest bit finds w exactly when looking at all variants does. */
  lemma {:induction false} FirstBitFinds(p: Piece, w: Word)
    requires WellFormed(p)
    ensures w in p.byFirstBit[TrailingZeros(w)] <==> w in p.variants
  {
    FirstBitEntry(p, TrailingZeros(w));
    assert w in p.byFirstBit[TrailingZeros(w)] <==> w in multiset(p.byFirstBit[TrailingZeros(w)]);
  }

  /** What the last piece's search relies on: a full first-bit table that finds every variant, and no variant twice. */
  ghost predicate LeafReady(p: Piece)
  {
    |p.byFirstBit| == TABLE_SIZE
    && NoDup(p.variants)
    && forall w: Word :: w in p.byFirstBit[TrailingZeros(w)] <==> w in p.variants
  }

  /** What the search relies on about the pieces: valid variants, sizes that bound them, and a last piece ready. */
  ghost predicate Ready(ps: seq<Piece>)
  {
    |ps| > 0 && ValidPieces(ps) && (forall p | 0 <= p < |ps| :: Sized(ps[p])) && LeafReady(ps[0])
  }

  /** Pieces built by the constructors, none with the same placement twice, are ready. */
  lemma {:induction false} WellFormedReady(ps: seq<Piece>)
    requires |ps| > 0 && AllWellFormed(ps) && DistinctVariants(ps)
    ensures Ready(ps)
  {
    forall p | 0 <= p < |ps|
      ensures Sized(ps[p])
    {
      WellFormedSized(ps[p]);
    }
    forall w: Word
      ensures w in ps[0].byFirstBit[TrailingZeros(w)] <==> w in ps[0].variants
    {
      FirstBitFinds(ps[0], w);
    }
  }

  // ---------------------------------------------------------------------------
  // Printing a solution

  /** The length of the text of a board: Y_SIZE lines of X_SIZE characters and a newline. */
  const GRID_SIZE: int := Y_SIZE * Y_SHIFT

  /** Position i of the text is a column of the board, not a newline; it then shows cell (i % Y_SHIFT, i / Y_SHIFT), whose bit is i. */
  predicate IsColumn(i: int)
  {
    i % Y_SHIFT < X_SIZE
  }

  /** The text before any piece is drawn: blank lines. */
  function EmptyGrid(): (g: string)
    ensures |g| == GRID_SIZE
  {
    seq(GRID_SIZE, i => if IsColumn(i) then ' ' else '\n')
  }

  /** `drawPiece`: the character ch on every cell of bb. */
  function Draw(g: string, bb: Word, ch: char): (r: string)
    requires |g| == GRID_SIZE
    ensures |r| == GRID_SIZE
  {
    seq(GRID_SIZE, i requires 0 <= i < GRID_SIZE => if IsColumn(i) && i in bb then ch else g[i])
  }

  /** Every piece above k has a variant chosen by c. */
  predicate Chosen(ps: seq<Piece>, c: seq<int>, k: int)
  {
    |c| == |ps| && forall p | 0 <= p < |ps| && k < p :: 0 <= c[p] < |ps[p].variants|
  }

  /** The text with the first m pieces drawn in order, each with its chosen variant. */
  function RenderUpTo(ps: seq<Piece>, c: seq<int>, m: nat): (g: string)
    requires Chosen(ps, c, -1) && m <= |ps|
    ensures |g| == GRID_SIZE
  {
    if m == 0 then EmptyGrid()
    else Draw(RenderUpTo(ps, c, m - 1), ps[m - 1].variants[c[m - 1]], ps[m - 1].character)
  }

  /** `printSolution`: the text of a solution, pieces drawn from the first to the last. */
  function Render(ps: seq<Piece>, c: seq<int>): (g: string)
    requires Chosen(ps, c, -1)
    ensures |g| == GRID_SIZE
  {
    RenderUpTo(ps, c, |ps|)
  }

  /** The overlaps `drawPiece` reports while the first m pieces are drawn in order. */
  function OverlapsUpTo(ps: seq<Piece>, c: seq<int>, m: nat): seq<Line>
    requires Chosen(ps, c, -1) && m <= |ps|
  {
    if m == 0 then []
    else OverlapsUpTo(ps, c, m - 1) + Overlaps(RenderUpTo(ps, c, m - 1), ps[m - 1].variants[c[m - 1]], ps[m - 1].character)
  }

  /** `printSolution`: the overlaps reported while drawing the pieces, then the text of the board. */
  function PrintLines(ps: seq<Piece>, c: seq<int>): (r: seq<Line>)
    requires Chosen(ps, c, -1)
    ensures r != [] && r[|r| - 1] == Board(Render(ps, c))
  {
    OverlapsUpTo(ps, c, |ps|) + [Board(Render(ps, c))]
  }

  // ---------------------------------------------------------------------------
  // The search, as functions

  /** A line of output: a solution's text, or the error `drawPiece` reports when a cell is drawn twice. */
  datatype Line = Board(text: string) | Overlap(x: int, y: int, found: char, piece: char)

  /** What a part of the search adds to the counters and to the printed output. */
  datatype Outcome = Outcome(solutions: nat, tries: nat, printed: seq<Line>)
  {
    function Plus(o: Outcome): Outcome
    {
      Outcome(solutions + o.solutions, tries + o.tries, printed + o.printed)
    }
  }

  const NOTHING: Outcome := Outcome(0, 0, [])

  /** The position of the first w in s, or |s| when there is none. */
  function FirstIndex(s: seq<Word>, w: Word): (i: nat)
    ensures i <= |s| && (i < |s| ==> s[i] == w)
    ensures forall j | 0 <= j < i :: s[j] != w
  {
    if s == [] || s[0] == w then 0 else 1 + FirstIndex(s[1..], w)
  }

  /**
   * `solveLastCount`: the last piece around the board o looks for the holes
   * only among its variants with the holes' lowest bit; the variants it
   * compares are its tries.
   */
  function LastCount(o: Word, piece: Piece): Outcome
    requires |piece.byFirstBit| == TABLE_SIZE
  {
    var holes := Xor(o, FULL_BOARD);
    var vs := piece.byFirstBit[TrailingZeros(holes)];
    var j := FirstIndex(vs, holes);
    if j < |vs| then Outcome(1, j + 1, []) else Outcome(0, |vs|, [])
  }

  /**
   * `solveLastPrint`: the last piece, ps[0], looks for the holes among all its
   * variants and prints the solution they complete.
   */
  function LastPrint(ps: seq<Piece>, o: Word, chosen: seq<int>): Outcome
    requires |ps| > 0 && Chosen(ps, chosen, 0)
  {
    var holes := Xor(o, FULL_BOARD);
    var vs := ps[0].variants;
    var j := FirstIndex(vs, holes);
    if j < |vs| then Outcome(1, j + 1, PrintLines(ps, chosen[0 := j])) else Outcome(0, |vs|, [])
  }

  /** The last piece, printing or counting. */
  function Leaf(ps: seq<Piece>, o: Word, chosen: seq<int>, printing: bool): Outcome
    requires |ps| > 0 && |ps[0].byFirstBit| == TABLE_SIZE && Chosen(ps, chosen, 0)
  {
    if printing then LastPrint(ps, o, chosen) else LastCount(o, ps[0])
  }

  /** The task for piece k around occ, over its first m variants. */
  function Explore(ps: seq<Piece>, occ: Word, k: nat, m: nat, chosen: seq<int>, printing: bool): Outcome
    requires 1 <= k < |ps| && m <= |ps[k].variants| && |ps[0].byFirstBit| == TABLE_SIZE
    requires Chosen(ps, chosen, k)
    decreases k, 1, m
  {
    if m == 0 then NOTHING
    else Explore(ps, occ, k, m - 1, chosen, printing).Plus(Branch(ps, occ, k, m - 1, chosen, printing))
  }

  /**
   * Variant i of piece k: one try; then, if it fits, the last piece when k is
   * 1, and otherwise, when its size lies in the window and the remaining
   * pieces can still cover the board, the task for piece k - 1.
   */
  function Branch(ps: seq<Piece>, occ: Word, k: nat, i: nat, chosen: seq<int>, printing: bool): Outcome
    requires 1 <= k < |ps| && i < |ps[k].variants| && |ps[0].byFirstBit| == TABLE_SIZE
    requires Chosen(ps, chosen, k)
    decreases k, 0
  {
    var bb := ps[k].variants[i];
    var tried := Outcome(0, 1, []);
    if bb * occ != {} then tried
    else if k == 1 then tried.Plus(Leaf(ps, occ + bb, chosen[1 := i], printing))
    else
      var w := Window(X_SIZE * Y_SIZE - |occ|, ps, k);
      if w.0 <= |bb| <= w.1 && CanFill(occ + bb, ps[..k]) then
        tried.Plus(Explore(ps, occ + bb, k - 1, |ps[k - 1].variants|, chosen[k := i], printing))
      else tried
  }

  /** `solve`: the whole search from the initially occupied cells, for two or more pieces. */
  function Search(ps: seq<Piece>, occ0: Word, printing: bool): Outcome
    requires |ps| != 1 && (ps != [] ==> |ps[0].byFirstBit| == TABLE_SIZE)
  {
    if ps == [] then NOTHING
    else Explore(ps, occ0, |ps| - 1, |ps[|ps| - 1].variants|, Nones(|ps|), printing)
  }

  // ---------------------------------------------------------------------------
  // The search counts the tilings

  /** FirstIndex finds w exactly when w is in s. */
  lemma FirstIndexFinds(s: seq<Word>, w: Word)
    ensures FirstIndex(s, w) < |s| <==> w in s
  {
    if w in s {
      var j :| 0 <= j < |s| && s[j] == w;
      assert FirstIndex(s, w) <= j;
    }
  }

  /** The last piece finds a solution exactly when the holes left are one of its variants: one for each tiling, when they are distinct. */
  lemma {:induction false} LeafCounts(ps: seq<Piece>, o: Word, chosen: seq<int>, printing: bool)
    requires |ps| > 0 && ValidPieces(ps) && LeafReady(ps[0]) && Chosen(ps, chosen, 0)
    ensures Leaf(ps, o, chosen, printing).solutions == Count([ps[0].variants], o)
  {
    var holes := Xor(o, FULL_BOARD);
    LeafTilings(ps[0].variants, o);
    CountTilings([ps[0].variants], o);
    FirstIndexFinds(ps[0].variants, holes);
    FirstIndexFinds(ps[0].byFirstBit[TrailingZeros(holes)], holes);
  }

  /** The variant lists of the first k + 1 pieces: those of the first k, then piece k's. */
  lemma VssStep(ps: seq<Piece>, k: nat)
    requires k < |ps|
    ensures |Vss(ps[..k + 1])| == k + 1 && Vss(ps[..k + 1])[..k] == Vss(ps[..k])
    ensures Vss(ps[..k + 1])[k] == ps[k].variants
  {
  }

  /**
   * Pruning loses no tiling: when the remaining pieces can tile the board
   * around occ and bb, the size of bb lies in the window and the coverage test
   * passes.
   */
  lemma {:induction false} PruneSound(ps: seq<Piece>, occ: Word, k: nat, bb: Word)
    requires 1 <= k <= |ps| && bb * occ == {} && Ready(ps)
    ensures Count(Vss(ps[..k]), occ + bb) != 0 ==>
      var w := Window(X_SIZE * Y_SIZE - |occ|, ps, k);
      w.0 <= |bb| <= w.1 && CanFill(occ + bb, ps[..k])
  {
    CountTilings(Vss(ps[..k]), occ + bb);
    var T := TilingsOf(Vss(ps[..k]), occ + bb);
    if T != {} {
      var c :| c in T;
      TilingsMember(Vss(ps[..k]), occ + bb, c);
      WindowSound(ps, occ, k, bb, c);
      PruneCover(ps, occ + bb, k, c);
    }
  }

  /** The coverage half of the above. */
  lemma {:induction false} PruneCover(ps: seq<Piece>, o: Word, k: nat, c: seq<int>)
    requires 1 <= k <= |ps| && ValidPieces(ps) && Tiles(Vss(ps[..k]), o, c)
    ensures CanFill(o, ps[..k])
  {
    assert ValidPieces(ps[..k]);
    CanFillNeededFor(ps[..k], Vss(ps[..k]), o, c);
  }

  /**
   * The task for piece k counts the tilings, by pieces 0 to k, of the board
   * around occ in which piece k has one of its first m variants.
   */
  lemma {:induction false} ExploreCounts(ps: seq<Piece>, occ: Word, k: nat, m: nat, chosen: seq<int>, printing: bool)
    requires 1 <= k < |ps| && m <= |ps[k].variants| && Chosen(ps, chosen, k) && Ready(ps)
    ensures |Vss(ps[..k + 1])| == k + 1 && Vss(ps[..k + 1])[k] == ps[k].variants
    ensures Explore(ps, occ, k, m, chosen, printing).solutions == CountBelow(Vss(ps[..k + 1]), occ, m)
    decreases k, 1, m
  {
    VssStep(ps, k);
    if m > 0 {
      ExploreCounts(ps, occ, k, m - 1, chosen, printing);
      ExploreCountsStep(ps, occ, k, m - 1, chosen, printing);
    }
  }

  /** One more variant of piece k: its branch adds its share of the tilings. */
  lemma {:induction false} ExploreCountsStep(ps: seq<Piece>, occ: Word, k: nat, i: nat, chosen: seq<int>, printing: bool)
    requires 1 <= k < |ps| && i < |ps[k].variants| && Chosen(ps, chosen, k) && Ready(ps)
    requires |Vss(ps[..k + 1])| == k + 1 && Vss(ps[..k + 1])[k] == ps[k].variants
    requires Explore(ps, occ, k, i, chosen, printing).solutions == CountBelow(Vss(ps[..k + 1]), occ, i)
    ensures Explore(ps, occ, k, i + 1, chosen, printing).solutions == CountBelow(Vss(ps[..k + 1]), occ, i + 1)
    decreases k, 0, 1
  {
    BranchCounts(ps, occ, k, i, chosen, printing);
    CountBelowStep(ps, occ, k, i);
    ExploreStep(ps, occ, k, i, chosen, printing);
  }

  /** The task over the first i + 1 variants adds variant i's branch to the task over the first i. */
  lemma ExploreStep(ps: seq<Piece>, occ: Word, k: nat, i: nat, chosen: seq<int>, printing: bool)
    requires 1 <= k < |ps| && i < |ps[k].variants| && |ps[0].byFirstBit| == TABLE_SIZE && Chosen(ps, chosen, k)
    ensures Explore(ps, occ, k, i + 1, chosen, printing)
      == Explore(ps, occ, k, i, chosen, printing).Plus(Branch(ps, occ, k, i, chosen, printing))
  {
  }

  /** The count over the first i + 1 variants of piece k adds variant i's share. */
  lemma CountBelowStep(ps: seq<Piece>, occ: Word, k: nat, i: nat)
    requires 1 <= k < |ps| && i < |ps[k].variants|
    ensures |Vss(ps[..k + 1])| == k + 1 && Vss(ps[..k + 1])[k] == ps[k].variants
    ensures var bb := ps[k].variants[i];
      CountBelow(Vss(ps[..k + 1]), occ, i + 1) == CountBelow(Vss(ps[..k + 1]), occ, i) + if bb * occ == {} then Count(Vss(ps[..k]), occ + bb) else 0
  {
    VssStep(ps, k);
  }

  /** Variant i of piece k counts the tilings, by pieces 0 to k - 1, of the board around occ and that variant, when it fits. */
  lemma {:induction false} BranchCounts(ps: seq<Piece>, occ: Word, k: nat, i: nat, chosen: seq<int>, printing: bool)
    requires 1 <= k < |ps| && i < |ps[k].variants| && Chosen(ps, chosen, k) && Ready(ps)
    ensures var bb := ps[k].variants[i];
      Branch(ps, occ, k, i, chosen, printing).solutions == if bb * occ == {} then Count(Vss(ps[..k]), occ + bb) else 0
    decreases k, 0, 0
  {
    var bb := ps[k].variants[i];
    if bb * occ == {} {
      if k == 1 {
        assert Vss(ps[..1]) == [ps[0].variants];
        LeafCounts(ps, occ + bb, chosen[1 := i], printing);
      } else {
        PruneSound(ps, occ, k, bb);
        ExploreCounts(ps, occ + bb, k - 1, |ps[k - 1].variants|, chosen[k := i], printing);
      }
    }
  }

  /**
   * For two or more pieces, all built by the constructors and none with the
   * same placement twice, the search counts exactly the tilings of the board
   * around the initially occupied cells; sorting the pieces first does not
   * change that number.
   */
  lemma {:induction false} SearchCounts(pieces: seq<Piece>, occ0: Word, printing: bool)
    requires |pieces| >= 2 && AllWellFormed(pieces) && DistinctVariants(pieces)
    ensures var ps := SortByVariantCount(pieces);
      AllWellFormed(ps) && Search(ps, occ0, printing).solutions == |TilingsOf(Vss(pieces), occ0)|
  {
    var ps := SortByVariantCount(pieces);
    SortedPieces(pieces);
    WellFormedReady(ps);
    SearchCountsReady(ps, occ0, printing);
    SortedTilings(pieces, occ0);
  }

  /** The search over ready pieces, in the order given, counts their tilings. */
  lemma {:induction false} SearchCountsReady(ps: seq<Piece>, occ0: Word, printing: bool)
    requires |ps| >= 2 && Ready(ps)
    ensures Search(ps, occ0, printing).solutions == |TilingsOf(Vss(ps), occ0)|
  {
    var n := |ps|;
    assert ps[..n] == ps;
    ExploreCounts(ps, occ0, n - 1, |ps[n - 1].variants|, Nones(n), printing);
    CountTilings(Vss(ps), occ0);
  }

  // ---------------------------------------------------------------------------
  // The counters and the printed solutions agree

  /** Every solution is a try; when printing, each solution prints at least one line, and when counting nothing is printed. */
  predicate Consistent(o: Outcome, printing: bool)
  {
    o.solutions <= o.tries && if printing then o.solutions <= |o.printed| else o.printed == []
  }

  /** The last piece keeps the counters and the output in agreement. */
  lemma LeafConsistent(ps: seq<Piece>, o: Word, chosen: seq<int>, printing: bool)
    requires |ps| > 0 && |ps[0].byFirstBit| == TABLE_SIZE && Chosen(ps, chosen, 0)
    ensures Consistent(Leaf(ps, o, chosen, printing), printing)
  {
  }

  /** So does every task. */
  lemma {:induction false} ExploreConsistent(ps: seq<Piece>, occ: Word, k: nat, m: nat, chosen: seq<int>, printing: bool)
    requires 1 <= k < |ps| && m <= |ps[k].variants| && |ps[0].byFirstBit| == TABLE_SIZE
    requires Chosen(ps, chosen, k)
    ensures Consistent(Explore(ps, occ, k, m, chosen, printing), printing)
    decreases k, 1, m
  {
    if m > 0 {
      ExploreConsistent(ps, occ, k, m - 1, chosen, printing);
      ExploreConsistentStep(ps, occ, k, m - 1, chosen, printing);
    }
  }

  /** One more variant keeps the task consistent. */
  lemma {:induction false} ExploreConsistentStep(ps: seq<Piece>, occ: Word, k: nat, i: nat, chosen: seq<int>, printing: bool)
    requires 1 <= k < |ps| && i < |ps[k].variants| && |ps[0].byFirstBit| == TABLE_SIZE
    requires Chosen(ps, chosen, k) && Consistent(Explore(ps, occ, k, i, chosen, printing), printing)
    ensures Consistent(Explore(ps, occ, k, i + 1, chosen, printing), printing)
    decreases k, 0, 1
  {
    BranchConsistent(ps, occ, k, i, chosen, printing);
    ExploreStep(ps, occ, k, i, chosen, printing);
    ConsistentPlus(Explore(ps, occ, k, i, chosen, printing), Branch(ps, occ, k, i, chosen, printing), printing);
  }

  /** Consistent outcomes add up to a consistent outcome. */
  lemma ConsistentPlus(a: Outcome, b: Outcome, printing: bool)
    requires Consistent(a, printing) && Consistent(b, printing)
    ensures Consistent(a.Plus(b), printing)
  {
  }

  /** And every branch. */
  lemma {:induction false} BranchConsistent(ps: seq<Piece>, occ: Word, k: nat, i: nat, chosen: seq<int>, printing: bool)
    requires 1 <= k < |ps| && i < |ps[k].variants| && |ps[0].byFirstBit| == TABLE_SIZE
    requires Chosen(ps, chosen, k)
    ensures Consistent(Branch(ps, occ, k, i, chosen, printing), printing)
    decreases k, 0, 0
  {
    var bb := ps[k].variants[i];
    if bb * occ == {} {
      if k == 1 {
        LeafConsistent(ps, occ + bb, chosen[1 := i], printing);
      } else {
        ExploreConsistent(ps, occ + bb, k - 1, |ps[k - 1].variants|, chosen[k := i], printing);
      }
    }
  }

  /** The whole search: at most one solution per try, one printed line per solution, and none when only counting. */
  lemma SearchConsistent(ps: seq<Piece>, occ0: Word, printing: bool)
    requires |ps| != 1 && (ps != [] ==> |ps[0].byFirstBit| == TABLE_SIZE)
    ensures Consistent(Search(ps, occ0, printing), printing)
  {
    if ps != [] {
      ExploreConsistent(ps, occ0, |ps| - 1, |ps[|ps| - 1].variants|, Nones(|ps|), printing);
    }
  }

  // ---------------------------------------------------------------------------
  // Every printed solution is a tiling

  /**
   * What the chain of tasks above piece k has placed: pieces above k have a
   * variant, pieces 0 to k none, the placed variants are disjoint from the
   * initially occupied cells occ0 and from each other, and occ is occ0 with
   * them.
   */
  ghost predicate Chain(ps: seq<Piece>, occ0: Word, occ: Word, k: nat, chosen: seq<int>)
  {
    IsChoice(Vss(ps), chosen)
    && (forall p | 0 <= p < |ps| :: chosen[p] == NONE <==> p <= k)
    && Separate(Vss(ps), occ0, chosen)
    && occ == occ0 + Tilings.Placed(Vss(ps), chosen)
  }

  /** A solution line: the text of a tiling of the board around occ0. */
  ghost predicate SolutionLine(ps: seq<Piece>, occ0: Word, l: Line)
  {
    l.Board? && exists c | Tiles(Vss(ps), occ0, c) && Chosen(ps, c, -1) :: l.text == Render(ps, c)
  }

  /** An outcome printing one solution line per solution, and nothing else. */
  ghost predicate Sound(ps: seq<Piece>, occ0: Word, e: Outcome)
  {
    |e.printed| == e.solutions && forall l | l in e.printed :: SolutionLine(ps, occ0, l)
  }

  /** The chain gives the pieces above k a variant. */
  lemma ChainChosen(ps: seq<Piece>, occ0: Word, occ: Word, k: nat, chosen: seq<int>)
    requires Chain(ps, occ0, occ, k, chosen)
    ensures Chosen(ps, chosen, k)
  {
    forall p | 0 <= p < |ps| && k < p
      ensures 0 <= chosen[p] < |ps[p].variants|
    {
      assert Vss(ps)[p] == ps[p].variants;
    }
  }

  /** Placing a fitting variant of piece k extends the chain to piece k - 1. */
  lemma ChainPlace(ps: seq<Piece>, occ0: Word, occ: Word, k: nat, chosen: seq<int>, i: nat)
    requires 1 <= k < |ps| && i < |ps[k].variants| && Chain(ps, occ0, occ, k, chosen)
    requires ps[k].variants[i] * occ == {}
    ensures Chain(ps, occ0, occ + ps[k].variants[i], k - 1, chosen[k := i])
  {
    var vss := Vss(ps);
    assert vss[k] == ps[k].variants;
    SeparatePlace(vss, occ0, chosen, k, i);
    PlacedPlace(vss, chosen, k, i);
  }

  /** When the holes left at the end of the chain are a variant of the last piece, that variant completes a tiling. */
  lemma ChainTiles(ps: seq<Piece>, occ0: Word, o: Word, chosen: seq<int>, j: nat)
    requires |ps| > 0 && ValidPieces(ps) && Chain(ps, occ0, o, 0, chosen)
    requires j < |ps[0].variants| && ps[0].variants[j] == Xor(o, FULL_BOARD)
    ensures Tiles(Vss(ps), occ0, chosen[0 := j]) && Chosen(ps, chosen[0 := j], -1)
  {
    var vss := Vss(ps);
    var v := ps[0].variants[j];
    assert vss[0] == ps[0].variants;
    HolesExactly(v, o);
    SeparatePlace(vss, occ0, chosen, 0, j);
    PlacedPlace(vss, chosen, 0, j);
    ChainChosen(ps, occ0, o, 0, chosen);
  }

  /** The last piece prints only solutions. */
  lemma LeafSound(ps: seq<Piece>, occ0: Word, o: Word, chosen: seq<int>)
    requires |ps| > 0 && |ps[0].byFirstBit| == TABLE_SIZE && ValidPieces(ps)
    requires Chain(ps, occ0, o, 0, chosen) && Chosen(ps, chosen, 0)
    ensures Sound(ps, occ0, Leaf(ps, o, chosen, true))
  {
    var j := FirstIndex(ps[0].variants, Xor(o, FULL_BOARD));
    if j < |ps[0].variants| {
      ChainTiles(ps, occ0, o, chosen, j);
      TilesDisjoint(ps, occ0, chosen[0 := j]);
      PrintClean(ps, chosen[0 := j]);
    }
  }

  /** Every task prints only solutions. */
  lemma {:induction false} ExploreSound(ps: seq<Piece>, occ0: Word, occ: Word, k: nat, m: nat, chosen: seq<int>)
    requires 1 <= k < |ps| && m <= |ps[k].variants| && |ps[0].byFirstBit| == TABLE_SIZE && ValidPieces(ps)
    requires Chain(ps, occ0, occ, k, chosen) && Chosen(ps, chosen, k)
    ensures Sound(ps, occ0, Explore(ps, occ, k, m, chosen, true))
    decreases k, 1, m
  {
    if m > 0 {
      ExploreSound(ps, occ0, occ, k, m - 1, chosen);
      ExploreSoundStep(ps, occ0, occ, k, m - 1, chosen);
    }
  }

  /** One more variant prints only solutions. */
  lemma {:induction false} ExploreSoundStep(ps: seq<Piece>, occ0: Word, occ: Word, k: nat, i: nat, chosen: seq<int>)
    requires 1 <= k < |ps| && i < |ps[k].variants| && |ps[0].byFirstBit| == TABLE_SIZE && ValidPieces(ps)
    requires Chain(ps, occ0, occ, k, chosen) && Chosen(ps, chosen, k)
    requires Sound(ps, occ0, Explore(ps, occ, k, i, chosen, true))
    ensures Sound(ps, occ0, Explore(ps, occ, k, i + 1, chosen, true))
    decreases k, 0, 1
  {
    BranchSound(ps, occ0, occ, k, i, chosen);
    ExploreStep(ps, occ, k, i, chosen, true);
    SoundPlus(ps, occ0, Explore(ps, occ, k, i, chosen, true), Branch(ps, occ, k, i, chosen, true));
  }

  /** Sound outcomes add up to a sound outcome. */
  lemma SoundPlus(ps: seq<Piece>, occ0: Word, a: Outcome, b: Outcome)
    requires Sound(ps, occ0, a) && Sound(ps, occ0, b)
    ensures Sound(ps, occ0, a.Plus(b))
  {
  }

  /** And so does every branch. */
  lemma {:induction false} BranchSound(ps: seq<Piece>, occ0: Word, occ: Word, k: nat, i: nat, chosen: seq<int>)
    requires 1 <= k < |ps| && i < |ps[k].variants| && |ps[0].byFirstBit| == TABLE_SIZE && ValidPieces(ps)
    requires Chain(ps, occ0, occ, k, chosen) && Chosen(ps, chosen, k)
    ensures Sound(ps, occ0, Branch(ps, occ, k, i, chosen, true))
    decreases k, 0, 0
  {
    var bb := ps[k].variants[i];
    if bb * occ == {} {
      ChainPlace(ps, occ0, occ, k, chosen, i);
      ChainChosen(ps, occ0, occ + bb, k - 1, chosen[k := i]);
      if k == 1 {
        LeafSound(ps, occ0, occ + bb, chosen[1 := i]);
      } else {
        ExploreSound(ps, occ0, occ + bb, k - 1, |ps[k - 1].variants|, chosen[k := i]);
      }
    }
  }

  /** Every line the whole search prints is the text of a tiling of the board around occ0. */
  lemma SearchSound(ps: seq<Piece>, occ0: Word)
    requires |ps| != 1 && (ps != [] ==> |ps[0].byFirstBit| == TABLE_SIZE) && ValidPieces(ps)
    ensures Sound(ps, occ0, Search(ps, occ0, true))
  {
    if ps != [] {
      ChainStart(ps, occ0);
      ExploreSound(ps, occ0, occ0, |ps| - 1, |ps[|ps| - 1].variants|, Nones(|ps|));
    }
  }

  /** Before any piece is placed the chain is empty: no piece has a variant and occ is occ0. */
  lemma ChainStart(ps: seq<Piece>, occ0: Word)
    requires ps != []
    ensures Chain(ps, occ0, occ0, |ps| - 1, Nones(|ps|)) && Chosen(ps, Nones(|ps|), |ps| - 1)
  {
    var n := |ps|;
    var vss := Vss(ps);
    assert IsChoice(vss, Nones(n));
    assert Tilings.Placed(vss, Nones(n)) == {} by {
      forall i: Bit
        ensures i !in Tilings.Placed(vss, Nones(n))
      {
        PlacedMember(vss, Nones(n), i);
      }
    }
    assert occ0 + {} == occ0;
  }

  // ---------------------------------------------------------------------------
  // What a printed solution shows

  /**
   * With the first m pieces drawn, in a column of the text a cell shows the
   * character of a drawn piece covering it and a blank when none does; the
   * last position of each line is a newline.
   */
  lemma {:induction false} RenderUpToCells(ps: seq<Piece>, c: seq<int>, m: nat, i: int)
    requires Chosen(ps, c, -1) && m <= |ps| && 0 <= i < GRID_SIZE
    requires forall p, q | 0 <= p < q < m :: ps[p].variants[c[p]] * ps[q].variants[c[q]] == {}
    ensures !IsColumn(i) ==> RenderUpTo(ps, c, m)[i] == '\n'
    ensures IsColumn(i) && (forall p | 0 <= p < m :: i !in ps[p].variants[c[p]]) ==> RenderUpTo(ps, c, m)[i] == ' '
    ensures forall p | 0 <= p < m && IsColumn(i) && i in ps[p].variants[c[p]] :: RenderUpTo(ps, c, m)[i] == ps[p].character
  {
    if m > 0 {
      RenderUpToCells(ps, c, m - 1, i);
      var v := ps[m - 1].variants[c[m - 1]];
      forall p | 0 <= p < m - 1 && i in ps[p].variants[c[p]]
        ensures i !in v
      {
        assert i !in ps[p].variants[c[p]] * v;
      }
    }
  }

  /**
   * The text of a tiling: each cell covered by a piece shows that piece's
   * character, each initially occupied cell a blank, and each line ends in a
   * newline.
   */
  lemma RenderCells(ps: seq<Piece>, occ0: Word, c: seq<int>, i: int)
    requires Tiles(Vss(ps), occ0, c) && 0 <= i < GRID_SIZE
    ensures Chosen(ps, c, -1)
    ensures !IsColumn(i) ==> Render(ps, c)[i] == '\n'
    ensures IsColumn(i) && i in occ0 ==> Render(ps, c)[i] == ' '
    ensures forall p | 0 <= p < |ps| && IsColumn(i) && i in ps[p].variants[c[p]] :: Render(ps, c)[i] == ps[p].character
  {
    var vss := Vss(ps);
    assert forall p | 0 <= p < |ps| :: vss[p] == ps[p].variants && Pick(vss, c, p) == ps[p].variants[c[p]];
    RenderUpToCells(ps, c, |ps|, i);
    if IsColumn(i) && i in occ0 {
      forall p | 0 <= p < |ps|
        ensures i !in ps[p].variants[c[p]]
      {
        assert i !in Pick(vss, c, p) * occ0;
      }
    }
  }

  // ---------------------------------------------------------------------------
  // Overlaps while drawing

  /** The errors `drawPiece` reports drawing ch on bb over g, for the positions below n in order: each cell of bb that is not blank. */
  function OverlapsBelow(g: string, bb: Word, ch: char, n: nat): seq<Line>
    requires |g| == GRID_SIZE && n <= GRID_SIZE
  {
    if n == 0 then []
    else
      var i := n - 1;
      OverlapsBelow(g, bb, ch, i) + if IsColumn(i) && i in bb && g[i] != ' ' then [Overlap(i % Y_SHIFT, i / Y_SHIFT, g[i], ch)] else []
  }

  /** All the errors of drawing ch on bb over g. */
  function Overlaps(g: string, bb: Word, ch: char): seq<Line>
    requires |g| == GRID_SIZE
  {
    OverlapsBelow(g, bb, ch, |g|)
  }

  /** Drawing reports nothing exactly when the cells it draws are all blank. */
  lemma {:induction false} OverlapsNone(g: string, bb: Word, ch: char, n: nat)
    requires |g| == GRID_SIZE && n <= GRID_SIZE
    ensures OverlapsBelow(g, bb, ch, n) == [] <==> forall i | 0 <= i < n && IsColumn(i) && i in bb :: g[i] == ' '
  {
    if n > 0 {
      OverlapsNone(g, bb, ch, n - 1);
    }
  }

  /** drawPiece part way: ch drawn on the cells of bb at the positions below n. */
  function DrawBelow(g: string, bb: Word, ch: char, n: int): (r: string)
    requires |g| == GRID_SIZE
    ensures |r| == GRID_SIZE
  {
    seq(GRID_SIZE, i requires 0 <= i < GRID_SIZE => if i < n && IsColumn(i) && i in bb then ch else g[i])
  }

  /** Drawing below no position changes nothing, and below every position it is the whole drawing. */
  lemma DrawBelowEnds(g: string, bb: Word, ch: char)
    requires |g| == GRID_SIZE
    ensures DrawBelow(g, bb, ch, 0) == g && DrawBelow(g, bb, ch, GRID_SIZE) == Draw(g, bb, ch)
  {
  }

  /** One more position: position n is drawn when it is a column cell of bb. */
  lemma DrawBelowStep(g: string, bb: Word, ch: char, n: int)
    requires |g| == GRID_SIZE && 0 <= n < GRID_SIZE
    ensures DrawBelow(g, bb, ch, n)[n] == g[n]
    ensures DrawBelow(g, bb, ch, n + 1) == if IsColumn(n) && n in bb then DrawBelow(g, bb, ch, n)[n := ch] else DrawBelow(g, bb, ch, n)
  {
  }

  /** Every choice disjoint: each piece has a variant, and no two of them share a cell. */
  ghost predicate Disjoint(ps: seq<Piece>, c: seq<int>)
  {
    Chosen(ps, c, -1) && forall p, q | 0 <= p < q < |ps| :: ps[p].variants[c[p]] * ps[q].variants[c[q]] == {}
  }

  /** A tiling is disjoint. */
  lemma TilesDisjoint(ps: seq<Piece>, occ0: Word, c: seq<int>)
    requires Tiles(Vss(ps), occ0, c)
    ensures Disjoint(ps, c)
  {
    var vss := Vss(ps);
    assert forall p | 0 <= p < |ps| :: vss[p] == ps[p].variants && Pick(vss, c, p) == ps[p].variants[c[p]];
  }

  /** Drawing the pieces of a disjoint choice in order never draws over a piece. */
  lemma NoOverlaps(ps: seq<Piece>, c: seq<int>, m: nat)
    requires Disjoint(ps, c) && m < |ps|
    ensures Overlaps(RenderUpTo(ps, c, m), ps[m].variants[c[m]], ps[m].character) == []
  {
    var g := RenderUpTo(ps, c, m);
    var v := ps[m].variants[c[m]];
    forall i | 0 <= i < GRID_SIZE && IsColumn(i) && i in v
      ensures g[i] == ' '
    {
      RenderUpToCells(ps, c, m, i);
      forall p | 0 <= p < m
        ensures i !in ps[p].variants[c[p]]
      {
        assert i !in ps[p].variants[c[p]] * v;
      }
    }
    OverlapsNone(g, v, ps[m].character, GRID_SIZE);
  }

  /** Drawing a disjoint choice reports no overlap, so printing it prints just its text. */
  lemma PrintClean(ps: seq<Piece>, c: seq<int>)
    requires Disjoint(ps, c)
    ensures PrintLines(ps, c) == [Board(Render(ps, c))]
  {
    OverlapsUpToNone(ps, c, |ps|);
  }

  /** No overlap among the first m pieces of a disjoint choice. */
  lemma {:induction false} OverlapsUpToNone(ps: seq<Piece>, c: seq<int>, m: nat)
    requires Disjoint(ps, c) && m <= |ps|
    ensures OverlapsUpTo(ps, c, m) == []
  {
    if m > 0 {
      OverlapsUpToNone(ps, c, m - 1);
      NoOverlaps(ps, c, m - 1);
    }
  }

  /** Position x of line y is a column of the board for x < X_SIZE, and the newline for x == X_SIZE. */
  lemma LinePosition(x: int, y: int)
    requires 0 <= x <= X_SIZE && 0 <= y < Y_SIZE
    ensures 0 <= y * Y_SHIFT + x < GRID_SIZE
    ensures IsColumn(y * Y_SHIFT + x) <==> x < X_SIZE
    ensures (y * Y_SHIFT + x) % Y_SHIFT == x && (y * Y_SHIFT + x) / Y_SHIFT == y
  {
  }

  /** What the solver's methods rely on: valid variants, and a full first-bit table for the last piece. */
  ghost predicate Searchable(ps: seq<Piece>)
  {
    |ps| > 0 && |ps[0].byFirstBit| == TABLE_SIZE && ValidPieces(ps)
  }

  /** Pieces built by the constructors are searchable. */
  lemma WellFormedSearchable(ps: seq<Piece>)
    requires |ps| > 0 && AllWellFormed(ps)
    ensures Searchable(ps)
  {
    assert WellFormed(ps[0]);
  }

  /** Variant i of piece 1: one try, and the last piece around it when it fits. */
  lemma BranchLast(ps: seq<Piece>, occ: Word, i: nat, chosen: seq<int>, printing: bool)
    requires 1 < |ps| && i < |ps[1].variants| && |ps[0].byFirstBit| == TABLE_SIZE && Chosen(ps, chosen, 1)
    ensures var bb := ps[1].variants[i];
      var e := if printing then LastPrint(ps, occ + bb, chosen[1 := i]) else LastCount(occ + bb, ps[0]);
      Branch(ps, occ, 1, i, chosen, printing)
      == if bb * occ == {} then Outcome(e.solutions, e.tries + 1, e.printed) else Outcome(0, 1, [])
  {
    var bb := ps[1].variants[i];
    var e := Leaf(ps, occ + bb, chosen[1 := i], printing);
    assert [] + e.printed == e.printed;
  }

  /** Variant i of piece k from 2 up: one try, and the task for piece k - 1 when it fits and passes both tests. */
  lemma BranchPruned(ps: seq<Piece>, occ: Word, k: nat, i: nat, chosen: seq<int>, printing: bool)
    requires 2 <= k < |ps| && i < |ps[k].variants| && |ps[0].byFirstBit| == TABLE_SIZE && Chosen(ps, chosen, k)
    ensures var bb := ps[k].variants[i];
      var w := Window(X_SIZE * Y_SIZE - |occ|, ps, k);
      var e := Explore(ps, occ + bb, k - 1, |ps[k - 1].variants|, chosen[k := i], printing);
      Branch(ps, occ, k, i, chosen, printing)
      == if bb * occ == {} && w.0 <= |bb| <= w.1 && CanFill(occ + bb, ps[..k])
         then Outcome(e.solutions, e.tries + 1, e.printed)
         else Outcome(0, 1, [])
  {
    var bb := ps[k].variants[i];
    var e := Explore(ps, occ + bb, k - 1, |ps[k - 1].variants|, chosen[k := i], printing);
    assert [] + e.printed == e.printed;
  }

  /**
   * One loop step of `compute`: counters and output that held the task over
   * the first i variants on top of (s, t, o), and then grew by variant i's
   * branch, hold the task over the first i + 1.
   */
  /**
   * The tests `compute` makes before handing variant bb down: it is disjoint
   * from the occupied cells, its size lies in the window, and the remaining
   * pieces can still cover the board around it.
   */
  predicate Admits(occ: Word, bb: Word, minSize: int, maxSize: int, rest: seq<Piece>)
  {
    bb * occ == {} && minSize <= |bb| <= maxSize && CanFill(occ + bb, rest)
  }

  /**
   * A pass of the variants loop for a piece from index 2 up that adds one
   * try, and the task below when the variant is admitted, extends the task
   * over the first i variants to the first i + 1.
   */
  lemma PrunedAdds(ps: seq<Piece>, occ: Word, k: nat, i: nat, chosen: seq<int>, printing: bool, minSize: int, maxSize: int,
                   s: int, t: int, o: seq<Line>, s0: int, t0: int, o0: seq<Line>, s1: int, t1: int, o1: seq<Line>)
    requires 2 <= k < |ps| && i < |ps[k].variants| && |ps[0].byFirstBit| == TABLE_SIZE && Chosen(ps, chosen, k)
    requires (minSize, maxSize) == Window(X_SIZE * Y_SIZE - |occ|, ps, k)
    requires s0 == s + Explore(ps, occ, k, i, chosen, printing).solutions
    requires t0 == t + Explore(ps, occ, k, i, chosen, printing).tries
    requires o0 == o + Explore(ps, occ, k, i, chosen, printing).printed
    requires var bb := ps[k].variants[i];
        var e := Explore(ps, occ + bb, k - 1, |ps[k - 1].variants|, chosen[k := i], printing);
        t1 == t0 + 1 + (if Admits(occ, bb, minSize, maxSize, ps[..k]) then e.tries else 0)
        && s1 == s0 + (if Admits(occ, bb, minSize, maxSize, ps[..k]) then e.solutions else 0)
        && o1 == o0 + (if Admits(occ, bb, minSize, maxSize, ps[..k]) then e.printed else [])
    ensures s1 == s + Explore(ps, occ, k, i + 1, chosen, printing).solutions
    ensures t1 == t + Explore(ps, occ, k, i + 1, chosen, printing).tries
    ensures o1 == o + Explore(ps, occ, k, i + 1, chosen, printing).printed
  {
    BranchPruned(ps, occ, k, i, chosen, printing);
    ExploreAdds(ps, occ, k, i, chosen, printing, s, t, o, s0, t0, o0, s1, t1, o1);
  }

  lemma ExploreAdds(ps: seq<Piece>, occ: Word, k: nat, i: nat, chosen: seq<int>, printing: bool,
                    s: int, t: int, o: seq<Line>, s0: int, t0: int, o0: seq<Line>, s1: int, t1: int, o1: seq<Line>)
    requires 1 <= k < |ps| && i < |ps[k].variants| && |ps[0].byFirstBit| == TABLE_SIZE && Chosen(ps, chosen, k)
    requires s0 == s + Explore(ps, occ, k, i, chosen, printing).solutions
    requires t0 == t + Explore(ps, occ, k, i, chosen, printing).tries
    requires o0 == o + Explore(ps, occ, k, i, chosen, printing).printed
    requires s1 == s0 + Branch(ps, occ, k, i, chosen, printing).solutions
    requires t1 == t0 + Branch(ps, occ, k, i, chosen, printing).tries
    requires o1 == o0 + Branch(ps, occ, k, i, chosen, printing).printed
    ensures s1 == s + Explore(ps, occ, k, i + 1, chosen, printing).solutions
    ensures t1 == t + Explore(ps, occ, k, i + 1, chosen, printing).tries
    ensures o1 == o + Explore(ps, occ, k, i + 1, chosen, printing).printed
  {
    ExploreStep(ps, occ, k, i, chosen, printing);
    var a := Explore(ps, occ, k, i, chosen, printing).printed;
    var b := Branch(ps, occ, k, i, chosen, printing).printed;
    assert (o + a) + b == o + (a + b);
  }

  // ---------------------------------------------------------------------------
  // The solver

  /**
   * `SolverByPiece`: the sorted pieces, the initially occupied cells and
   * whether to print solutions; the two counters, and the lines printed to
   * standard output.
   */
  class SolverByPiece {
    const pieces: seq<Piece>
    const initialOccupied: Word
    const printSolution: bool
    var solutions: nat
    var tries: nat
    var output: seq<Line>

    /** The constructor: a copy of the pieces sorted by decreasing number of variants. */
    constructor (pieces: seq<Piece>, initialOccupied: Word, printSolution: bool)
      ensures this.pieces == SortByVariantCount(pieces)
      ensures this.initialOccupied == initialOccupied && this.printSolution == printSolution
      ensures solutions == 0 && tries == 0 && output == []
    {
      this.pieces := SortByVariantCount(pieces);
      this.initialOccupied := initialOccupied;
      this.printSolution := printSolution;
      solutions := 0;
      tries := 0;
      output := [];
    }

    /**
     * `solve`: resets the counters and, when there are pieces, runs the task
     * for the last piece on the initially occupied cells. The pieces come
     * from the constructors; a single piece is outside what the search is
     * written for (its `assert pieceIndex == 1`).
     */
    method Solve()
      requires |pieces| != 1 && AllWellFormed(pieces)
      modifies this
      ensures var e := Search(pieces, initialOccupied, printSolution);
        solutions == e.solutions && tries == e.tries && output == old(output) + e.printed
    {
      solutions := 0;
      tries := 0;
      if |pieces| != 0 {
        var n := |pieces|;
        WellFormedSearchable(pieces);
        Compute(initialOccupied, n - 1, Nones(n));
      } else {
        assert output == old(output) + [];
      }
    }

    /**
     * `compute` of the task for piece pieceIndex on the occupied cells, with
     * the variants chosen by the tasks above it: the size window and the
     * coverage test prune the variants of pieces from index 2 up, and piece 1
     * hands each fitting variant to the last piece.
     */
    method Compute(occupied: Word, pieceIndex: nat, chosen: seq<int>)
      requires 1 <= pieceIndex < |pieces| && Searchable(pieces)
      requires Chosen(pieces, chosen, pieceIndex)
      modifies this
      ensures var e := Explore(pieces, occupied, pieceIndex, |pieces[pieceIndex].variants|, chosen, printSolution);
        solutions == old(solutions) + e.solutions && tries == old(tries) + e.tries && output == old(output) + e.printed
      decreases pieceIndex, 3
    {
      if pieceIndex >= 2 {
        ComputePruned(occupied, pieceIndex, chosen);
      } else {
        ComputeLast(occupied, chosen);
      }
    }

    /**
     * `compute` for a piece from index 2 up: the size window the remaining
     * pieces leave, then each variant of the piece in turn.
     */
    method ComputePruned(occupied: Word, pieceIndex: nat, chosen: seq<int>)
      requires 2 <= pieceIndex < |pieces| && Searchable(pieces)
      requires Chosen(pieces, chosen, pieceIndex)
      modifies this
      ensures var e := Explore(pieces, occupied, pieceIndex, |pieces[pieceIndex].variants|, chosen, printSolution);
        solutions == old(solutions) + e.solutions && tries == old(tries) + e.tries && output == old(output) + e.printed
      decreases pieceIndex, 2
    {
      var piece := pieces[pieceIndex];
      var minSize, maxSize := SizeWindow(X_SIZE * Y_SIZE - |occupied|, pieceIndex);
      for i := 0 to |piece.variants|
        invariant var e := Explore(pieces, occupied, pieceIndex, i, chosen, printSolution);
          solutions == old(solutions) + e.solutions && tries == old(tries) + e.tries && output == old(output) + e.printed
      {
        ghost var s0, t0, o0 := solutions, tries, output;
        TryVariant(occupied, pieceIndex, chosen, i, minSize, maxSize);
        PrunedAdds(pieces, occupied, pieceIndex, i, chosen, printSolution, minSize, maxSize, old(solutions), old(tries), old(output), s0, t0, o0, solutions, tries, output);
      }
    }

    /** `compute` for piece 1: each of its variants in turn, each followed by the last piece. */
    method ComputeLast(occupied: Word, chosen: seq<int>)
      requires 2 <= |pieces| && Searchable(pieces) && Chosen(pieces, chosen, 1)
      modifies this
      ensures var e := Explore(pieces, occupied, 1, |pieces[1].variants|, chosen, printSolution);
        solutions == old(solutions) + e.solutions && tries == old(tries) + e.tries && output == old(output) + e.printed
    {
      var piece := pieces[1];
      for i := 0 to |piece.variants|
        invariant var e := Explore(pieces, occupied, 1, i, chosen, printSolution);
          solutions == old(solutions) + e.solutions && tries == old(tries) + e.tries && output == old(output) + e.printed
      {
        ghost var s0, t0, o0 := solutions, tries, output;
        TryLastVariant(occupied, chosen, i);
        ExploreAdds(pieces, occupied, 1, i, chosen, printSolution, old(solutions), old(tries), old(output), s0, t0, o0, solutions, tries, output);
      }
    }

    /**
     * The size window of `compute`: from the free cells, maxSize takes away
     * the smallest size and minSize the largest size of each remaining piece.
     */
    method SizeWindow(free: int, pieceIndex: nat) returns (minSize: int, maxSize: int)
      requires pieceIndex <= |pieces|
      ensures (minSize, maxSize) == Window(free, pieces, pieceIndex)
    {
      var remainingPieces := pieces[..pieceIndex];
      minSize, maxSize := free, free;
      for i := 0 to |remainingPieces|
        invariant (minSize, maxSize) == Window(free, pieces, i)
      {
        var p := remainingPieces[i];
        maxSize := Wrap32(maxSize - p.minSize);
        minSize := Wrap32(minSize - p.maxSize);
      }
    }

    /**
     * One pass of the variants loop of `compute` for a piece from index 2 up:
     * counts the try, and hands a variant that fits, whose size is inside the
     * window and that leaves the remaining pieces room, to the task below.
     */
    method TryVariant(occupied: Word, pieceIndex: nat, chosen: seq<int>, i: nat, minSize: int, maxSize: int)
      requires 2 <= pieceIndex < |pieces| && Searchable(pieces) && i < |pieces[pieceIndex].variants|
      requires Chosen(pieces, chosen, pieceIndex)
      modifies this
      ensures var bb := pieces[pieceIndex].variants[i];
        var e := Explore(pieces, occupied + bb, pieceIndex - 1, |pieces[pieceIndex - 1].variants|, chosen[pieceIndex := i], printSolution);
        tries == old(tries) + 1 + (if Admits(occupied, bb, minSize, maxSize, pieces[..pieceIndex]) then e.tries else 0)
        && solutions == old(solutions) + (if Admits(occupied, bb, minSize, maxSize, pieces[..pieceIndex]) then e.solutions else 0)
        && output == old(output) + (if Admits(occupied, bb, minSize, maxSize, pieces[..pieceIndex]) then e.printed else [])
      decreases pieceIndex, 1
    {
      var bb := pieces[pieceIndex].variants[i];
      tries := tries + 1;
      if bb * occupied == {} {
        var size := |bb|;
        if size >= minSize && size <= maxSize {
          TryCovered(occupied + bb, pieceIndex, chosen[pieceIndex := i]);
        }
      }
    }

    /**
     * The innermost test of the variants loop of `compute`: the search goes
     * on below piece pieceIndex only when the pieces before it can still
     * cover the board around the placed variant.
     */
    method TryCovered(newOccupied: Word, pieceIndex: nat, chosen: seq<int>)
      requires 2 <= pieceIndex < |pieces| && Searchable(pieces)
      requires Chosen(pieces, chosen, pieceIndex - 1)
      modifies this
      ensures var e := Explore(pieces, newOccupied, pieceIndex - 1, |pieces[pieceIndex - 1].variants|, chosen, printSolution);
        tries == old(tries) + (if CanFill(newOccupied, pieces[..pieceIndex]) then e.tries else 0)
        && solutions == old(solutions) + (if CanFill(newOccupied, pieces[..pieceIndex]) then e.solutions else 0)
        && output == old(output) + (if CanFill(newOccupied, pieces[..pieceIndex]) then e.printed else [])
      decreases pieceIndex, 0
    {
      var fill := CanFillAround(newOccupied, pieces[..pieceIndex]);
      if fill {
        Compute(newOccupied, pieceIndex - 1, chosen);
      }
    }

    /**
     * One pass of the variants loop of `compute` for piece 1: counts the try,
     * and lets the last piece cover the holes a fitting variant leaves.
     */
    method TryLastVariant(occupied: Word, chosen: seq<int>, i: nat)
      requires 2 <= |pieces| && Searchable(pieces) && i < |pieces[1].variants|
      requires Chosen(pieces, chosen, 1)
      modifies this
      ensures var b := Branch(pieces, occupied, 1, i, chosen, printSolution);
        solutions == old(solutions) + b.solutions && tries == old(tries) + b.tries && output == old(output) + b.printed
    {
      var lastPiece := pieces[0];
      var bb := pieces[1].variants[i];
      tries := tries + 1;
      if bb * occupied == {} {
        var newOccupied := occupied + bb;
        if printSolution {
          SolveLastPrint(newOccupied, lastPiece, i, chosen);
        } else {
          SolveLastCount(newOccupied, lastPiece);
        }
      }
      BranchLast(pieces, occupied, i, chosen, printSolution);
    }

    /** `solveLastCount`: looks for the holes among the variants of piece with their lowest bit. */
    method SolveLastCount(occ: Word, piece: Piece)
      requires |piece.byFirstBit| == TABLE_SIZE
      modifies this
      ensures var e := LastCount(occ, piece);
        solutions == old(solutions) + e.solutions && tries == old(tries) + e.tries && output == old(output)
    {
      var toCover := Xor(occ, FULL_BOARD);
      var firstBit := TrailingZeros(toCover);
      var candidates := piece.byFirstBit[firstBit];
      for i := 0 to |candidates|
        invariant forall j | 0 <= j < i :: candidates[j] != toCover
      {
        if candidates[i] == toCover {
          solutions := solutions + 1;
          tries := tries + (i + 1);
          assert FirstIndex(candidates, toCover) == i;
          return;
        }
      }
      tries := tries + |candidates|;
    }

    /** `solveLastPrint`: looks for the holes among all variants of the last piece and prints the solution they complete. */
    method SolveLastPrint(occ: Word, piece: Piece, previ: nat, chosen: seq<int>)
      requires |pieces| >= 2 && piece == pieces[0] && Searchable(pieces) && |chosen| == |pieces|
      requires Chosen(pieces, chosen[1 := previ], 0)
      modifies this
      ensures var e := LastPrint(pieces, occ, chosen[1 := previ]);
        solutions == old(solutions) + e.solutions && tries == old(tries) + e.tries && output == old(output) + e.printed
    {
      var holesToCover := Xor(occ, FULL_BOARD);
      for i := 0 to |piece.variants|
        invariant forall j | 0 <= j < i :: piece.variants[j] != holesToCover
      {
        if piece.variants[i] == holesToCover {
          solutions := solutions + 1;
          tries := tries + (i + 1);
          assert FirstIndex(piece.variants, holesToCover) == i;
          PrintSolution(piece, i, previ, chosen);
          return;
        }
      }
      tries := tries + |piece.variants|;
    }

    /**
     * `printSolution`: a blank board, the last piece drawn with lastVariant,
     * then piece 1 with prevVariant and each piece above with the variant
     * its task chose, and the text printed.
     */
    method PrintSolution(lastPiece: Piece, lastVariant: nat, prevVariant: nat, chosen: seq<int>)
      requires |pieces| >= 2 && lastPiece == pieces[0] && |chosen| == |pieces|
      requires Chosen(pieces, chosen[1 := prevVariant][0 := lastVariant], -1)
      modifies this
      ensures output == old(output) + PrintLines(pieces, chosen[1 := prevVariant][0 := lastVariant])
      ensures solutions == old(solutions) && tries == old(tries)
    {
      var c := chosen[1 := prevVariant][0 := lastVariant];
      var sb := BlankGrid();
      assert sb[..] == RenderUpTo(pieces, c, 0);
      DrawPiece(sb, lastPiece, lastVariant);
      for p := 1 to |pieces|
        invariant sb[..] == RenderUpTo(pieces, c, p)
        invariant output == old(output) + OverlapsUpTo(pieces, c, p) && solutions == old(solutions) && tries == old(tries)
      {
        DrawPiece(sb, pieces[p], c[p]);
      }
      output := output + [Board(sb[..])];
    }

    /** The blank board `printSolution` starts from: spaces, each row ended by a newline. */
    method BlankGrid() returns (sb: array<char>)
      ensures fresh(sb) && sb[..] == EmptyGrid()
    {
      sb := new char[GRID_SIZE];
      for y := 0 to Y_SIZE
        modifies sb
        invariant forall j | 0 <= j < y * Y_SHIFT :: sb[j] == EmptyGrid()[j]
      {
        for x := 0 to X_SIZE
          modifies sb
          invariant forall j | 0 <= j < y * Y_SHIFT + x :: sb[j] == EmptyGrid()[j]
        {
          LinePosition(x, y);
          sb[y * Y_SHIFT + x] := ' ';
        }
        LinePosition(X_SIZE, y);
        sb[y * Y_SHIFT + X_SIZE] := '\n';
      }
    }

    /** `drawPiece`: the piece's character on every cell of the variant, reporting each cell that was not blank. */
    method DrawPiece(sb: array<char>, piece: Piece, variant: nat)
      requires sb.Length == GRID_SIZE && variant < |piece.variants|
      modifies this, sb
      ensures sb[..] == Draw(old(sb[..]), piece.variants[variant], piece.character)
      ensures output == old(output) + Overlaps(old(sb[..]), piece.variants[variant], piece.character)
      ensures solutions == old(solutions) && tries == old(tries)
    {
      var bb := piece.variants[variant];
      var c := piece.character;
      ghost var g := sb[..];
      DrawBelowEnds(g, bb, c);
      for y := 0 to Y_SIZE
        invariant sb[..] == DrawBelow(g, bb, c, y * Y_SHIFT)
        invariant output == old(output) + OverlapsBelow(g, bb, c, y * Y_SHIFT)
        invariant solutions == old(solutions) && tries == old(tries)
      {
        DrawRow(sb, g, bb, c, y, old(output));
        LinePosition(X_SIZE, y);
        DrawBelowStep(g, bb, c, y * Y_SHIFT + X_SIZE);
      }
    }

    /** One row of `drawPiece`: the cells of row y, from the left. */
    method DrawRow(sb: array<char>, ghost g: string, bb: Word, c: char, y: nat, ghost base: seq<Line>)
      requires sb.Length == GRID_SIZE && |g| == GRID_SIZE && y < Y_SIZE
      requires sb[..] == DrawBelow(g, bb, c, y * Y_SHIFT)
      requires output == base + OverlapsBelow(g, bb, c, y * Y_SHIFT)
      modifies this, sb
      ensures sb[..] == DrawBelow(g, bb, c, y * Y_SHIFT + X_SIZE)
      ensures output == base + OverlapsBelow(g, bb, c, y * Y_SHIFT + X_SIZE)
      ensures solutions == old(solutions) && tries == old(tries)
    {
      for x := 0 to X_SIZE
        invariant sb[..] == DrawBelow(g, bb, c, y * Y_SHIFT + x)
        invariant output == base + OverlapsBelow(g, bb, c, y * Y_SHIFT + x)
        invariant solutions == old(solutions) && tries == old(tries)
      {
        LinePosition(x, y);
        DrawBelowStep(g, bb, c, y * Y_SHIFT + x);
        var cell := IsSet(bb, x, y);
        if cell.value {
          var i := y * (X_SIZE + 1) + x;
          if sb[i] != ' ' {
            output := output + [Overlap(x, y, sb[i], c)];
          }
          sb[i] := c;
        }
      }
    }
  }
}
