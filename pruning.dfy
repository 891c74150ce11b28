/**
 * What pruning promises: a variant that some solution of the empty board
 * uses passes the coverage test against the other pieces, so `pruned` keeps
 * it; pruning every piece of the list, as the piece factory does before
 * either solver runs, therefore keeps the number of solutions.
 */
module Pruning {
  import opened Bits
  import opened BitBoard
  import opened Pieces
  import opened Tilings
  import opened ByPiece
  import ByPosition
  import PositionCounts

  // ---------------------------------------------------------------------------
  // The other pieces

  /** No piece of the list equals any other. */
  ghost predicate DistinctPieces(ps: seq<Piece>)
  {
    NoDup(ps)
  }

  /** A list without x is its own list of pieces other than x. */
  lemma {:induction false} OthersNone(x: Piece, s: seq<Piece>)
    requires forall k | 0 <= k < |s| :: s[k] != x
    ensures Others(x, s) == s
  {
    if s != [] {
      OthersNone(x, s[1..]);
      assert s == [s[0]] + s[1..];
    }
  }

  /** When x occurs only at p, the pieces other than x are the list without its element p. */
  lemma {:induction false} OthersDrop(x: Piece, s: seq<Piece>, p: nat)
    requires p < |s| && s[p] == x
    requires forall k | 0 <= k < |s| && k != p :: s[k] != x
    ensures Others(x, s) == Drop(s, p)
  {
    if p == 0 {
      OthersNone(x, s[1..]);
    } else {
      OthersDrop(x, s[1..], p - 1);
      assert Drop(s, p) == [s[0]] + Drop(s[1..], p - 1);
    }
  }

  /** The variant lists of the list without piece p. */
  lemma DropVss(ps: seq<Piece>, p: nat)
    requires p < |ps|
    ensures Vss(Drop(ps, p)) == Drop(Vss(ps), p)
  {
  }

  // ---------------------------------------------------------------------------
  // One piece

  /**
   * `pruned` never removes a variant that is needed for some solution: when
   * the distinct pieces, at least two of them, tile the empty board, the
   * variant the tiling gives piece p survives pruning that piece against
   * the whole list.
   */
  lemma PrunedKeepsNeeded(ps: seq<Piece>, c: seq<int>, p: nat)
    requires |ps| >= 2 && AllWellFormed(ps) && DistinctPieces(ps)
    requires c in TilingsOf(Vss(ps), {}) && p < |ps|
    ensures |c| == |ps| && 0 <= c[p] < |ps[p].variants|
    ensures ps[p].variants[c[p]] in Pruned(ps[p], ps).variants
  {
    NeededFills(ps, c, p);
    SurvivorKept(ps[p], ps, ps[p].variants[c[p]]);
  }

  /** The other pieces of a tiling fill the board around the variant it gives piece p. */
  lemma NeededFills(ps: seq<Piece>, c: seq<int>, p: nat)
    requires |ps| >= 2 && AllWellFormed(ps) && DistinctPieces(ps)
    requires c in TilingsOf(Vss(ps), {}) && p < |ps|
    ensures |c| == |ps| && 0 <= c[p] < |ps[p].variants|
    ensures CanFill(ps[p].variants[c[p]], Others(ps[p], ps))
  {
    OthersTile(ps, c, p);
    DropWellFormed(ps, p);
    CanFillNeeded(Drop(ps, p), ps[p].variants[c[p]], Drop(c, p));
  }

  /** The other pieces of distinct pieces are the list without piece p, and they tile around its variant. */
  lemma OthersTile(ps: seq<Piece>, c: seq<int>, p: nat)
    requires DistinctPieces(ps) && c in TilingsOf(Vss(ps), {}) && p < |ps|
    ensures |c| == |ps| && 0 <= c[p] < |ps[p].variants|
    ensures Others(ps[p], ps) == Drop(ps, p)
    ensures Tiles(Vss(Drop(ps, p)), ps[p].variants[c[p]], Drop(c, p))
  {
    var vss := Vss(ps);
    CompletionsMember(vss, {}, Nones(|ps|), c);
    DropTiles(vss, {}, c, p);
    assert {} + vss[p][c[p]] == vss[p][c[p]];
    OthersDrop(ps[p], ps, p);
    DropVss(ps, p);
  }

  /** Dropping a piece keeps the others built by the constructors. */
  lemma DropWellFormed(ps: seq<Piece>, p: nat)
    requires AllWellFormed(ps) && p < |ps|
    ensures AllWellFormed(Drop(ps, p))
  {
  }

  /** A variant that passes the coverage test against the other pieces is kept. */
  lemma SurvivorKept(x: Piece, ps: seq<Piece>, v: Word)
    requires v in x.variants && CanFill(v, Others(x, ps))
    ensures v in Pruned(x, ps).variants
  {
    PrunedVariants(x, ps);
    assert multiset(x.variants)[v] > 0;
  }

  /**
   * With no other piece there is nothing to fill the board around a variant,
   * so pruning the only piece of a list removes all its variants, even one
   * that covers the whole board on its own.
   */
  lemma PrunedAlone(x: Piece)
    ensures Pruned(x, [x]).variants == []
  {
  }

  // ---------------------------------------------------------------------------
  // The whole list

  /** `getPiecesPruned`: every piece of the list pruned against the list. */
  function PruneAll(ps: seq<Piece>): (r: seq<Piece>)
    ensures |r| == |ps|
    ensures forall k | 0 <= k < |ps| :: r[k].character == ps[k].character
    ensures AllWellFormed(ps) ==> AllWellFormed(r)
  {
    seq(|ps|, k requires 0 <= k < |ps| => Pruned(ps[k], ps))
  }

  /** A filter of a sequence without duplicates has none. */
  lemma {:induction false} FilterNoDup<T(!new)>(s: seq<T>, keep: T -> bool)
    requires NoDup(s)
    ensures NoDup(Filter(s, keep))
  {
    if s != [] {
      FilterNoDup(s[1..], keep);
      var rest := Filter(s[1..], keep);
      if keep(s[0]) {
        FilterMember(s[1..], keep, s[0]);
        assert s[0] !in s[1..] by {
          assert forall j | 1 <= j < |s| :: s[0] != s[j];
        }
        assert forall j | 0 <= j < |rest| :: ([s[0]] + rest)[j + 1] == rest[j];
      }
    }
  }

  /** Pruning keeps every piece free of repeated placements. */
  lemma PruneAllDistinct(ps: seq<Piece>)
    requires DistinctVariants(ps)
    ensures DistinctVariants(PruneAll(ps))
  {
    forall k | 0 <= k < |ps|
      ensures NoDup(PruneAll(ps)[k].variants)
    {
      FilterNoDup(ps[k].variants, Survives(Others(ps[k], ps)));
    }
  }

  /** Where x sits in s, or NONE when it is not there. */
  function IndexOf(s: seq<Word>, x: Word): (r: int)
    ensures x in s ==> 0 <= r < |s| && s[r] == x
    ensures x !in s ==> r == NONE
  {
    if s == [] then NONE
    else if s[0] == x then 0
    else
      var k := IndexOf(s[1..], x);
      if k == NONE then NONE else k + 1
  }

  /** The choice that gives each piece, in the lists `to`, the variant c gives it in the lists `from`. */
  function Reindexed(from: seq<seq<Word>>, to: seq<seq<Word>>, c: seq<int>): (r: seq<int>)
    ensures |r| == |c|
  {
    seq(|c|, k requires 0 <= k < |c| =>
      if k < |from| && k < |to| && 0 <= c[k] < |from[k]| then IndexOf(to[k], from[k][c[k]]) else NONE)
  }

  /** Every variant c picks from the lists `from` is also in the lists `to`. */
  ghost predicate Lands(from: seq<seq<Word>>, to: seq<seq<Word>>, c: seq<int>)
  {
    |c| == |from| == |to| && forall k | 0 <= k < |c| :: 0 <= c[k] < |from[k]| && from[k][c[k]] in to[k]
  }

  /** A tiling whose variants all land gives a tiling once reindexed. */
  lemma ReindexedTiles(from: seq<seq<Word>>, to: seq<seq<Word>>, occ: Word, c: seq<int>)
    requires c in TilingsOf(from, occ) && Lands(from, to, c)
    ensures Reindexed(from, to, c) in TilingsOf(to, occ)
  {
    var r := Reindexed(from, to, c);
    CompletionsMember(from, occ, Nones(|from|), c);
    assert forall k | 0 <= k < |c| :: 0 <= r[k] < |to[k]| && to[k][r[k]] == from[k][c[k]];
    SamePicksTiles(from, c, to, r, occ);
    CompletionsMember(to, occ, Nones(|to|), r);
  }

  /**
   * When every tiling by the lists `from` lands in the lists `to`, and no list
   * of `from` repeats a variant, reindexing is one to one, so `to` has at
   * least as many tilings.
   */
  lemma ReindexedAtMost(from: seq<seq<Word>>, to: seq<seq<Word>>, occ: Word)
    requires forall k | 0 <= k < |from| :: NoDup(from[k])
    requires forall c | c in TilingsOf(from, occ) :: Lands(from, to, c)
    ensures |TilingsOf(from, occ)| <= |TilingsOf(to, occ)|
  {
    var S := TilingsOf(from, occ);
    var f := (c: seq<int>) => Reindexed(from, to, c);
    forall c | c in S
      ensures f(c) in TilingsOf(to, occ)
    {
      ReindexedTiles(from, to, occ, c);
    }
    forall c, d | c in S && d in S && f(c) == f(d)
      ensures c == d
    {
      forall k | 0 <= k < |c|
        ensures c[k] == d[k]
      {
        assert to[k][f(c)[k]] == from[k][c[k]] && to[k][f(d)[k]] == from[k][d[k]];
      }
    }
    InjectiveInto(S, TilingsOf(to, occ), f);
  }

  /**
   * Pruning every piece keeps the number of tilings of the empty board, for
   * two or more distinct pieces built by the constructors, none with the same
   * placement twice.
   */
  lemma PruneAllTilings(ps: seq<Piece>)
    requires |ps| >= 2 && AllWellFormed(ps) && DistinctPieces(ps) && DistinctVariants(ps)
    ensures |TilingsOf(Vss(PruneAll(ps)), {})| == |TilingsOf(Vss(ps), {})|
  {
    var qs := PruneAll(ps);
    var from, to := Vss(ps), Vss(qs);
    forall c | c in TilingsOf(from, {})
      ensures Lands(from, to, c)
    {
      forall k | 0 <= k < |c|
        ensures 0 <= c[k] < |from[k]| && from[k][c[k]] in to[k]
      {
        PrunedKeepsNeeded(ps, c, k);
      }
    }
    ReindexedAtMost(from, to, {});
    PruneAllDistinct(ps);
    forall c | c in TilingsOf(to, {})
      ensures Lands(to, from, c)
    {
      CompletionsMember(to, {}, Nones(|to|), c);
      forall k | 0 <= k < |c|
        ensures 0 <= c[k] < |to[k]| && to[k][c[k]] in from[k]
      {
        FilterMember(ps[k].variants, Survives(Others(ps[k], ps)), to[k][c[k]]);
      }
    }
    ReindexedAtMost(to, from, {});
  }

  /**
   * The count the piece solver gives for the pruned pieces on the empty board
   * is the number of tilings by the pieces as built.
   */
  lemma PrunedSearchCounts(ps: seq<Piece>, printing: bool)
    requires |ps| >= 2 && AllWellFormed(ps) && DistinctPieces(ps) && DistinctVariants(ps)
    ensures var qs := SortByVariantCount(PruneAll(ps));
      AllWellFormed(qs) && Search(qs, {}, printing).solutions == |TilingsOf(Vss(ps), {})|
  {
    PruneAllDistinct(ps);
    SearchCounts(PruneAll(ps), {}, printing);
    PruneAllTilings(ps);
  }

  /** The same for the position solver: its count for the pruned pieces is the number of tilings by the pieces as built. */
  lemma PrunedPositionCounts(ps: seq<Piece>)
    requires 2 <= |ps| <= 10 && AllWellFormed(ps) && DistinctPieces(ps) && DistinctVariants(ps)
    ensures var qs := PruneAll(ps);
      ByPosition.Tabled(qs) && ByPosition.Tagged(ByPosition.Setup(qs)) && {} != FULL_BOARD
      && ByPosition.Explore(ByPosition.Setup(qs), {}, |qs| - 1, |ByPosition.Setup(qs).byPos[ByPosition.FirstEmpty({})]|)
         == |TilingsOf(Vss(ps), {})|
  {
    PruneAllDistinct(ps);
    PositionCounts.SolveCounts(PruneAll(ps));
    PruneAllTilings(ps);
  }
}
