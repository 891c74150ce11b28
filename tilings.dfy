/**
 * The reference the two solvers are measured against: the tilings of the
 * free cells of the board by one variant of each piece. A piece is given by
 * its list of variants; a choice gives each piece a variant index, or NONE
 * while it is still unplaced. A tiling is a complete choice whose variants
 * are disjoint from each other and from the initially occupied cells, and
 * together with them cover the full board.
 */
module Tilings {
  import opened Bits
  import opened BitBoard

  /** The variant index of a piece not placed yet. */
  const NONE: int := -1

  // ---------------------------------------------------------------------------
  // Sequences

  /** No element occurs twice. */
  ghost predicate NoDup<T>(s: seq<T>)
  {
    forall i, j | 0 <= i < j < |s| :: s[i] != s[j]
  }

  /** The elements of s. */
  ghost function Elements<T>(s: seq<T>): set<T>
  {
    set x | x in s
  }

  /** A sequence without duplicates has as many elements as its length. */
  lemma {:induction false} NoDupCard<T>(s: seq<T>)
    requires NoDup(s)
    ensures |Elements(s)| == |s|
  {
    if s != [] {
      var s' := s[..|s| - 1];
      NoDupCard(s');
      assert Elements(s) == Elements(s') + {s[|s| - 1]};
      assert s[|s| - 1] !in Elements(s');
    }
  }

  /** An injective map keeps the size of a set. */
  lemma {:induction false} InjectiveImage<T(!new), U(!new)>(S: set<T>, f: T -> U)
    requires forall x, y | x in S && y in S && f(x) == f(y) :: x == y
    ensures |set x | x in S :: f(x)| == |S|
    decreases |S|
  {
    if S != {} {
      var x :| x in S;
      var S' := S - {x};
      InjectiveImage(S', f);
      assert (set y | y in S :: f(y)) == (set y | y in S' :: f(y)) + {f(x)};
      assert f(x) !in (set y | y in S' :: f(y));
    }
  }

  /** s with the elements at j and j + 1 exchanged. */
  function Swap<T>(s: seq<T>, j: nat): (r: seq<T>)
    requires j + 1 < |s|
    ensures |r| == |s|
  {
    s[j := s[j + 1]][j + 1 := s[j]]
  }

  /** Exchanging twice restores the sequence. */
  lemma SwapSwap<T>(s: seq<T>, j: nat)
    requires j + 1 < |s|
    ensures Swap(Swap(s, j), j) == s
  {
    assert forall k | 0 <= k < |s| :: Swap(Swap(s, j), j)[k] == s[k];
  }

  /** The exchanges of adjacent elements at js[0], js[1], ... in turn. */
  function ApplySwaps<T>(s: seq<T>, js: seq<nat>): (r: seq<T>)
    requires forall k | 0 <= k < |js| :: js[k] + 1 < |s|
    ensures |r| == |s|
    decreases |js|
  {
    if js == [] then s else ApplySwaps(Swap(s, js[0]), js[1..])
  }

  /** Exchanges inside s leave an element appended after s in place. */
  lemma {:induction false} ApplySwapsAppend<T>(s: seq<T>, js: seq<nat>, y: T)
    requires forall k | 0 <= k < |js| :: js[k] + 1 < |s|
    ensures ApplySwaps(s + [y], js) == ApplySwaps(s, js) + [y]
    decreases |js|
  {
    if js != [] {
      assert Swap(s + [y], js[0]) == Swap(s, js[0]) + [y];
      ApplySwapsAppend(Swap(s, js[0]), js[1..], y);
    }
  }

  /** Two runs of exchanges one after the other. */
  lemma {:induction false} ApplySwapsThen<T>(s: seq<T>, js: seq<nat>, ks: seq<nat>)
    requires forall k | 0 <= k < |js| :: js[k] + 1 < |s|
    requires forall k | 0 <= k < |ks| :: ks[k] + 1 < |s|
    ensures ApplySwaps(s, js + ks) == ApplySwaps(ApplySwaps(s, js), ks)
    decreases |js|
  {
    if js == [] {
      assert js + ks == ks;
    } else {
      assert (js + ks)[0] == js[0] && (js + ks)[1..] == js[1..] + ks;
      ApplySwapsThen(Swap(s, js[0]), js[1..], ks);
    }
  }

  // ---------------------------------------------------------------------------
  // Choices

  /** c gives each piece p of vss no variant, or the index of one of its variants. */
  predicate IsChoice(vss: seq<seq<Word>>, c: seq<int>)
  {
    |c| == |vss| && forall p | 0 <= p < |c| :: NONE <= c[p] < |vss[p]|
  }

  /** Every piece has a variant. */
  predicate Complete(c: seq<int>)
  {
    forall p | 0 <= p < |c| :: c[p] != NONE
  }

  /** The cells piece p covers under c. */
  function Pick(vss: seq<seq<Word>>, c: seq<int>, p: int): Word
    requires IsChoice(vss, c) && 0 <= p < |c|
  {
    if c[p] == NONE then {} else vss[p][c[p]]
  }

  /** The cells the first m pieces cover under c. */
  function PlacedUpTo(vss: seq<seq<Word>>, c: seq<int>, m: nat): Word
    requires IsChoice(vss, c) && m <= |c|
  {
    if m == 0 then {} else PlacedUpTo(vss, c, m - 1) + Pick(vss, c, m - 1)
  }

  /** The cells all pieces cover under c. */
  function Placed(vss: seq<seq<Word>>, c: seq<int>): Word
    requires IsChoice(vss, c)
  {
    PlacedUpTo(vss, c, |c|)
  }

  /** The pieces placed by c are disjoint from occ and from each other. */
  ghost predicate Separate(vss: seq<seq<Word>>, occ: Word, c: seq<int>)
    requires IsChoice(vss, c)
  {
    (forall p | 0 <= p < |c| :: Pick(vss, c, p) * occ == {})
    && forall p, q | 0 <= p < q < |c| :: Pick(vss, c, p) * Pick(vss, c, q) == {}
  }

  /** c places every piece, disjointly, on exactly the cells of the board not in occ. */
  ghost predicate Tiles(vss: seq<seq<Word>>, occ: Word, c: seq<int>)
  {
    IsChoice(vss, c) && Complete(c) && Separate(vss, occ, c) && occ + Placed(vss, c) == FULL_BOARD
  }

  /** c agrees with every placement of a. */
  predicate Extends(c: seq<int>, a: seq<int>)
  {
    |c| == |a| && forall p | 0 <= p < |a| && a[p] != NONE :: c[p] == a[p]
  }

  /** The choice that places no piece. */
  function Nones(n: nat): (a: seq<int>)
    ensures |a| == n && forall p | 0 <= p < n :: a[p] == NONE
  {
    seq(n, _ => NONE)
  }

  /** Every complete choice for vss. */
  function AllChoices(vss: seq<seq<Word>>): set<seq<int>>
  {
    if vss == [] then {[]}
    else
      var n := |vss| - 1;
      set c, i | c in AllChoices(vss[..n]) && 0 <= i < |vss[n]| :: c + [i]
  }

  /** The complete choices are exactly the choices that place every piece. */
  lemma AllChoicesMember(vss: seq<seq<Word>>, c: seq<int>)
    ensures c in AllChoices(vss) <==> IsChoice(vss, c) && Complete(c)
  {
    if c in AllChoices(vss) {
      AllChoicesSound(vss, c);
    }
    if IsChoice(vss, c) && Complete(c) {
      AllChoicesComplete(vss, c);
    }
  }

  /** Every member of AllChoices places every piece. */
  lemma {:induction false} AllChoicesSound(vss: seq<seq<Word>>, c: seq<int>)
    requires c in AllChoices(vss)
    ensures IsChoice(vss, c) && Complete(c)
  {
    if vss != [] {
      var n := |vss| - 1;
      var c', i :| c' in AllChoices(vss[..n]) && 0 <= i < |vss[n]| && c == c' + [i];
      AllChoicesSound(vss[..n], c');
      assert forall p | 0 <= p < n :: c[p] == c'[p] && vss[p] == vss[..n][p];
    }
  }

  /** Every choice that places every piece is in AllChoices. */
  lemma {:induction false} AllChoicesComplete(vss: seq<seq<Word>>, c: seq<int>)
    requires IsChoice(vss, c) && Complete(c)
    ensures c in AllChoices(vss)
  {
    if vss != [] {
      var n := |vss| - 1;
      assert forall p | 0 <= p < n :: c[..n][p] == c[p] && vss[..n][p] == vss[p];
      AllChoicesComplete(vss[..n], c[..n]);
      assert c == c[..n] + [c[n]];
    }
  }

  /** The complete choices extending a that tile the board around occ. */
  ghost function Completions(vss: seq<seq<Word>>, occ: Word, a: seq<int>): set<seq<int>>
  {
    set c | c in AllChoices(vss) && Extends(c, a) && Tiles(vss, occ, c)
  }

  /** The tilings of the board around occ by the pieces vss. */
  ghost function TilingsOf(vss: seq<seq<Word>>, occ: Word): set<seq<int>>
  {
    Completions(vss, occ, Nones(|vss|))
  }

  /** Being a completion, in plain terms. */
  lemma CompletionsMember(vss: seq<seq<Word>>, occ: Word, a: seq<int>, c: seq<int>)
    ensures c in Completions(vss, occ, a) <==> Extends(c, a) && Tiles(vss, occ, c)
  {
    AllChoicesMember(vss, c);
  }

  // ---------------------------------------------------------------------------
  // The placed cells

  /** A cell is placed by the first m pieces exactly when one of them covers it. */
  lemma {:induction false} PlacedUpToMember(vss: seq<seq<Word>>, c: seq<int>, m: nat, i: Bit)
    requires IsChoice(vss, c) && m <= |c|
    ensures i in PlacedUpTo(vss, c, m) <==> exists p | 0 <= p < m :: i in Pick(vss, c, p)
  {
    if m > 0 {
      PlacedUpToMember(vss, c, m - 1, i);
    }
  }

  /** A cell is placed exactly when some piece covers it. */
  lemma PlacedMember(vss: seq<seq<Word>>, c: seq<int>, i: Bit)
    requires IsChoice(vss, c)
    ensures i in Placed(vss, c) <==> exists p | 0 <= p < |c| :: i in Pick(vss, c, p)
  {
    PlacedUpToMember(vss, c, |c|, i);
  }

  /** The total size of the variants of the first m pieces. */
  function SizeUpTo(vss: seq<seq<Word>>, c: seq<int>, m: nat): nat
    requires IsChoice(vss, c) && m <= |c|
  {
    if m == 0 then 0 else SizeUpTo(vss, c, m - 1) + |Pick(vss, c, m - 1)|
  }

  /** Disjoint pieces cover as many cells as their sizes add up to. */
  lemma {:induction false} PlacedUpToSize(vss: seq<seq<Word>>, occ: Word, c: seq<int>, m: nat)
    requires IsChoice(vss, c) && m <= |c| && Separate(vss, occ, c)
    ensures |PlacedUpTo(vss, c, m)| == SizeUpTo(vss, c, m)
  {
    if m > 0 {
      var k := m - 1;
      PlacedUpToSize(vss, occ, c, k);
      PlacedUpToApart(vss, occ, c, k);
    }
  }

  /** Piece k of a separate choice shares no cell with the pieces before it. */
  lemma PlacedUpToApart(vss: seq<seq<Word>>, occ: Word, c: seq<int>, k: nat)
    requires IsChoice(vss, c) && k < |c| && Separate(vss, occ, c)
    ensures PlacedUpTo(vss, c, k) * Pick(vss, c, k) == {}
  {
    forall i: Bit | i in PlacedUpTo(vss, c, k)
      ensures i !in Pick(vss, c, k)
    {
      PlacedUpToMember(vss, c, k, i);
      var p :| 0 <= p < k && i in Pick(vss, c, p);
      assert i !in Pick(vss, c, p) * Pick(vss, c, k);
    }
  }

  /** Placing piece q with variant i adds that variant's cells. */
  lemma {:induction false} PlacedUpToPlace(vss: seq<seq<Word>>, a: seq<int>, q: int, i: int, m: nat)
    requires IsChoice(vss, a) && 0 <= q < |a| && a[q] == NONE && 0 <= i < |vss[q]| && m <= |a|
    ensures IsChoice(vss, a[q := i])
    ensures PlacedUpTo(vss, a[q := i], m) == PlacedUpTo(vss, a, m) + if q < m then vss[q][i] else {}
  {
    if m > 0 {
      PlacedUpToPlace(vss, a, q, i, m - 1);
    }
  }

  /** Placing piece q with variant i adds that variant's cells to the placed ones. */
  lemma PlacedPlace(vss: seq<seq<Word>>, a: seq<int>, q: int, i: int)
    requires IsChoice(vss, a) && 0 <= q < |a| && a[q] == NONE && 0 <= i < |vss[q]|
    ensures IsChoice(vss, a[q := i])
    ensures Placed(vss, a[q := i]) == Placed(vss, a) + vss[q][i]
  {
    PlacedUpToPlace(vss, a, q, i, |a|);
  }

  /** Placing piece q keeps the pieces separate exactly when its variant avoids occ and the placed cells. */
  lemma SeparatePlace(vss: seq<seq<Word>>, occ: Word, a: seq<int>, q: int, i: int)
    requires IsChoice(vss, a) && 0 <= q < |a| && a[q] == NONE && 0 <= i < |vss[q]|
    ensures IsChoice(vss, a[q := i])
    ensures Separate(vss, occ, a[q := i]) <==> Separate(vss, occ, a) && vss[q][i] * (occ + Placed(vss, a)) == {}
  {
    var a' := a[q := i];
    assert forall p | 0 <= p < |a| && p != q :: Pick(vss, a', p) == Pick(vss, a, p);
    assert Pick(vss, a', q) == vss[q][i] && Pick(vss, a, q) == {};
    if Separate(vss, occ, a') {
      forall j: Bit | j in Placed(vss, a)
        ensures j !in vss[q][i]
      {
        PlacedMember(vss, a, j);
        var p :| 0 <= p < |a| && j in Pick(vss, a, p);
        assert p != q && Pick(vss, a', p) == Pick(vss, a, p);
        if p < q {
          assert Pick(vss, a', p) * Pick(vss, a', q) == {};
          assert j !in Pick(vss, a', p) * Pick(vss, a', q);
        } else {
          assert Pick(vss, a', q) * Pick(vss, a', p) == {};
          assert j !in Pick(vss, a', q) * Pick(vss, a', p);
        }
      }
      assert vss[q][i] * Placed(vss, a) == {};
      forall p, p' | 0 <= p < p' < |a|
        ensures Pick(vss, a, p) * Pick(vss, a, p') == {}
      {
        assert Pick(vss, a', p) * Pick(vss, a', p') == {};
      }
      forall p | 0 <= p < |a|
        ensures Pick(vss, a, p) * occ == {}
      {
        assert Pick(vss, a', p) * occ == {};
      }
    }
    if Separate(vss, occ, a) && vss[q][i] * (occ + Placed(vss, a)) == {} {
      forall p, p' | 0 <= p < p' < |a|
        ensures Pick(vss, a', p) * Pick(vss, a', p') == {}
      {
        if p == q {
          PlacedMember(vss, a, 0);
          forall j | j in Pick(vss, a, p')
            ensures j in Placed(vss, a)
          {
            PlacedMember(vss, a, j);
          }
        } else if p' == q {
          forall j | j in Pick(vss, a, p)
            ensures j in Placed(vss, a)
          {
            PlacedMember(vss, a, j);
          }
        } else {
          assert Pick(vss, a, p) * Pick(vss, a, p') == {};
        }
      }
      forall p | 0 <= p < |a|
        ensures Pick(vss, a', p) * occ == {}
      {
        if p != q {
          assert Pick(vss, a, p) * occ == {};
        }
      }
    }
  }

  /** The completions of a in which piece q (unplaced in a) has variant i are the completions of a with q placed so. */
  lemma ExtendsPlace(c: seq<int>, a: seq<int>, q: int, i: int)
    requires 0 <= q < |a| && a[q] == NONE && i != NONE
    ensures Extends(c, a[q := i]) <==> Extends(c, a) && c[q] == i
  {
    if Extends(c, a) && c[q] == i {
      forall p | 0 <= p < |a| && a[q := i][p] != NONE
        ensures c[p] == a[q := i][p]
      {
        if p != q {
          assert a[p] != NONE;
        }
      }
    }
  }

  /** A completion's pieces include those of the choice it extends, so that choice is separate too and places less. */
  lemma ExtendsSeparate(vss: seq<seq<Word>>, occ: Word, c: seq<int>, a: seq<int>)
    requires IsChoice(vss, c) && IsChoice(vss, a) && Extends(c, a) && Separate(vss, occ, c)
    ensures Separate(vss, occ, a)
    ensures Placed(vss, a) <= Placed(vss, c)
  {
    assert forall p | 0 <= p < |a| :: Pick(vss, a, p) <= Pick(vss, c, p);
    forall p, q | 0 <= p < q < |a|
      ensures Pick(vss, a, p) * Pick(vss, a, q) == {}
    {
      assert Pick(vss, c, p) * Pick(vss, c, q) == {};
    }
    forall p | 0 <= p < |a|
      ensures Pick(vss, a, p) * occ == {}
    {
      assert Pick(vss, c, p) * occ == {};
    }
    forall j | j in Placed(vss, a)
      ensures j in Placed(vss, c)
    {
      PlacedMember(vss, a, j);
      PlacedMember(vss, c, j);
    }
  }

  // ---------------------------------------------------------------------------
  // The last piece

  /** Being a tiling, in plain terms. */
  lemma TilingsMember(vss: seq<seq<Word>>, occ: Word, c: seq<int>)
    ensures c in TilingsOf(vss, occ) <==> Tiles(vss, occ, c)
  {
    CompletionsMember(vss, occ, Nones(|vss|), c);
  }

  /** The first m pieces place the same cells whatever the pieces from K on do. */
  lemma {:induction false} PlacedUpToPrefix(vss: seq<seq<Word>>, c: seq<int>, K: nat, m: nat)
    requires IsChoice(vss, c) && m <= K <= |c|
    ensures IsChoice(vss[..K], c[..K])
    ensures PlacedUpTo(vss[..K], c[..K], m) == PlacedUpTo(vss, c, m)
  {
    if m > 0 {
      PlacedUpToPrefix(vss, c, K, m - 1);
    }
  }

  /**
   * A choice tiles the board around occ exactly when the last piece has a
   * variant disjoint from occ and the other pieces tile the board around occ
   * and that variant.
   */
  lemma LastPieceTiles(vss: seq<seq<Word>>, occ: Word, c: seq<int>)
    requires |vss| > 0 && |c| == |vss|
    ensures Tiles(vss, occ, c) <==>
      var K := |vss| - 1;
      0 <= c[K] < |vss[K]| && vss[K][c[K]] * occ == {} && Tiles(vss[..K], occ + vss[K][c[K]], c[..K])
  {
    var K := |vss| - 1;
    var vss', c' := vss[..K], c[..K];
    if IsChoice(vss, c) {
      PlacedUpToPrefix(vss, c, K, K);
      assert forall p | 0 <= p < K :: Pick(vss', c', p) == Pick(vss, c, p);
    }
    if Tiles(vss, occ, c) {
      var v := vss[K][c[K]];
      assert Pick(vss, c, K) == v;
      assert v * occ == {};
      forall p | 0 <= p < K
        ensures Pick(vss', c', p) * (occ + v) == {}
      {
        assert Pick(vss, c, p) * occ == {};
        assert Pick(vss, c, p) * Pick(vss, c, K) == {};
      }
      forall p, q | 0 <= p < q < K
        ensures Pick(vss', c', p) * Pick(vss', c', q) == {}
      {
        assert Pick(vss, c, p) * Pick(vss, c, q) == {};
      }
      assert Separate(vss', occ + v, c');
      assert Tiles(vss', occ + v, c');
    }
    if 0 <= c[K] < |vss[K]| && vss[K][c[K]] * occ == {} && Tiles(vss', occ + vss[K][c[K]], c') {
      var v := vss[K][c[K]];
      assert IsChoice(vss, c);
      PlacedUpToPrefix(vss, c, K, K);
      assert Pick(vss, c, K) == v;
      forall p | 0 <= p < |c|
        ensures Pick(vss, c, p) * occ == {}
      {
        if p < K {
          assert Pick(vss', c', p) * (occ + v) == {};
        }
      }
      forall p, q | 0 <= p < q < |c|
        ensures Pick(vss, c, p) * Pick(vss, c, q) == {}
      {
        if q < K {
          assert Pick(vss', c', p) * Pick(vss', c', q) == {};
        } else {
          assert Pick(vss', c', p) * (occ + v) == {};
        }
      }
      assert Tiles(vss, occ, c);
    }
  }

  /** The tilings in which the last piece has variant i. */
  ghost function LastSlice(vss: seq<seq<Word>>, occ: Word, i: int): set<seq<int>>
    requires |vss| > 0
  {
    set c | c in TilingsOf(vss, occ) && |c| == |vss| && c[|vss| - 1] == i
  }

  /** The tilings in which the last piece has a variant below m. */
  ghost function LastBelow(vss: seq<seq<Word>>, occ: Word, m: int): set<seq<int>>
    requires |vss| > 0
  {
    set c | c in TilingsOf(vss, occ) && |c| == |vss| && c[|vss| - 1] < m
  }

  /** A choice with variant i appended for one more piece. */
  function Append(i: int): seq<int> -> seq<int>
  {
    (c: seq<int>) => c + [i]
  }

  /** A choice without the pieces from k on. */
  function Prefix(k: nat): seq<int> -> seq<int>
  {
    (c: seq<int>) => if k <= |c| then c[..k] else c
  }

  /** Leaving out the last piece maps its slice into the tilings of the smaller board. */
  lemma SliceAtMost(vss: seq<seq<Word>>, occ: Word, i: int)
    requires |vss| > 0 && 0 <= i < |vss[|vss| - 1]|
    ensures |LastSlice(vss, occ, i)| <= |TilingsOf(vss[..|vss| - 1], occ + vss[|vss| - 1][i])|
  {
    var K := |vss| - 1;
    var S := LastSlice(vss, occ, i);
    var T := TilingsOf(vss[..K], occ + vss[K][i]);
    forall c | c in S
      ensures Prefix(K)(c) in T
    {
      TilingsMember(vss, occ, c);
      LastPieceTiles(vss, occ, c);
      TilingsMember(vss[..K], occ + vss[K][i], c[..K]);
    }
    forall c, d | c in S && d in S && Prefix(K)(c) == Prefix(K)(d)
      ensures c == d
    {
      assert c == c[..K] + [i] && d == d[..K] + [i];
    }
    InjectiveInto(S, T, Prefix(K));
  }

  /** Appending variant i maps the tilings of the smaller board into the slice, when i is disjoint from occ. */
  lemma SliceAtLeast(vss: seq<seq<Word>>, occ: Word, i: int)
    requires |vss| > 0 && 0 <= i < |vss[|vss| - 1]| && vss[|vss| - 1][i] * occ == {}
    ensures |TilingsOf(vss[..|vss| - 1], occ + vss[|vss| - 1][i])| <= |LastSlice(vss, occ, i)|
  {
    var K := |vss| - 1;
    var S := LastSlice(vss, occ, i);
    var T := TilingsOf(vss[..K], occ + vss[K][i]);
    forall c | c in T
      ensures Append(i)(c) in S
    {
      var c' := c + [i];
      TilingsMember(vss[..K], occ + vss[K][i], c);
      assert c'[..K] == c;
      LastPieceTiles(vss, occ, c');
      TilingsMember(vss, occ, c');
    }
    forall c, d | c in T && d in T && Append(i)(c) == Append(i)(d)
      ensures c == d
    {
      assert c == (c + [i])[..|c|] && d == (d + [i])[..|d|];
    }
    InjectiveInto(T, S, Append(i));
  }

  /**
   * The tilings in which the last piece has variant i correspond one to one
   * to the tilings of the board around occ and that variant by the other
   * pieces; there are none when the variant overlaps occ.
   */
  lemma SliceSize(vss: seq<seq<Word>>, occ: Word, i: int)
    requires |vss| > 0 && 0 <= i < |vss[|vss| - 1]|
    ensures var K := |vss| - 1;
      |LastSlice(vss, occ, i)| == if vss[K][i] * occ == {} then |TilingsOf(vss[..K], occ + vss[K][i])| else 0
  {
    var K := |vss| - 1;
    if vss[K][i] * occ == {} {
      SliceAtMost(vss, occ, i);
      SliceAtLeast(vss, occ, i);
    } else {
      forall c | c in LastSlice(vss, occ, i)
        ensures false
      {
        TilingsMember(vss, occ, c);
        LastPieceTiles(vss, occ, c);
      }
      assert LastSlice(vss, occ, i) == {};
    }
  }

  /** One more variant of the last piece adds its slice. */
  lemma LastBelowStep(vss: seq<seq<Word>>, occ: Word, m: int)
    requires |vss| > 0 && 0 <= m
    ensures |LastBelow(vss, occ, m + 1)| == |LastBelow(vss, occ, m)| + |LastSlice(vss, occ, m)|
  {
    assert LastBelow(vss, occ, m + 1) == LastBelow(vss, occ, m) + LastSlice(vss, occ, m);
    assert LastBelow(vss, occ, m) * LastSlice(vss, occ, m) == {};
  }

  /** No tiling has its last variant below 0, and every tiling has it below the number of variants. */
  lemma LastBelowEnds(vss: seq<seq<Word>>, occ: Word)
    requires |vss| > 0
    ensures LastBelow(vss, occ, 0) == {}
    ensures LastBelow(vss, occ, |vss[|vss| - 1]|) == TilingsOf(vss, occ)
  {
    var K := |vss| - 1;
    forall c | c in TilingsOf(vss, occ)
      ensures |c| == |vss| && 0 <= c[K] < |vss[K]|
    {
      TilingsMember(vss, occ, c);
    }
  }

  /** The occupied cells and the variants of a tiling make up the board, so their sizes add up to its size. */
  lemma TilingSize(vss: seq<seq<Word>>, occ: Word, c: seq<int>)
    requires Tiles(vss, occ, c)
    ensures occ <= FULL_BOARD
    ensures |occ| + SizeUpTo(vss, c, |c|) == |FULL_BOARD|
  {
    PlacedUpToSize(vss, occ, c, |c|);
    forall i: Bit | i in Placed(vss, c)
      ensures i !in occ
    {
      PlacedMember(vss, c, i);
      var p :| 0 <= p < |c| && i in Pick(vss, c, p);
      assert Pick(vss, c, p) * occ == {};
      assert i !in Pick(vss, c, p) * occ;
    }
    assert occ * Placed(vss, c) == {};
  }

  // ---------------------------------------------------------------------------
  // Taking one piece out

  /** s without the element at p. */
  function Drop<T>(s: seq<T>, p: nat): (r: seq<T>)
    requires p < |s|
    ensures |r| == |s| - 1
    ensures forall k | 0 <= k < |r| :: r[k] == s[Skip(p, k)]
  {
    s[..p] + s[p + 1..]
  }

  /** Element k of a sequence with element p dropped is element Skip(p, k) of the original. */
  function Skip(p: int, k: int): int
  {
    if k < p then k else k + 1
  }

  /** Piece k without piece p is piece Skip(p, k) with it. */
  lemma DropPicks(vss: seq<seq<Word>>, c: seq<int>, p: nat)
    requires p < |vss| && IsChoice(vss, c)
    ensures IsChoice(Drop(vss, p), Drop(c, p))
    ensures forall k | 0 <= k < |c| - 1 :: Pick(Drop(vss, p), Drop(c, p), k) == Pick(vss, c, Skip(p, k))
  {
  }

  /**
   * Taking a piece out of a tiling leaves a tiling by the other pieces of the
   * board around occ and the variant the piece had.
   */
  lemma DropTiles(vss: seq<seq<Word>>, occ: Word, c: seq<int>, p: nat)
    requires p < |vss| && Tiles(vss, occ, c)
    ensures 0 <= c[p] < |vss[p]| && Tiles(Drop(vss, p), occ + vss[p][c[p]], Drop(c, p))
  {
    var vss', c', v := Drop(vss, p), Drop(c, p), vss[p][c[p]];
    DropPicks(vss, c, p);
    assert Pick(vss, c, p) == v;
    forall k | 0 <= k < |c'|
      ensures Pick(vss', c', k) * (occ + v) == {}
    {
      assert Pick(vss, c, Skip(p, k)) * occ == {};
      if Skip(p, k) < p {
        assert Pick(vss, c, Skip(p, k)) * Pick(vss, c, p) == {};
      } else {
        assert Pick(vss, c, p) * Pick(vss, c, Skip(p, k)) == {};
      }
    }
    forall k, l | 0 <= k < l < |c'|
      ensures Pick(vss', c', k) * Pick(vss', c', l) == {}
    {
      assert Pick(vss, c, Skip(p, k)) * Pick(vss, c, Skip(p, l)) == {};
    }
    forall i: Bit
      ensures i in occ + v + Placed(vss', c') <==> i in FULL_BOARD
    {
      PlacedMember(vss', c', i);
      PlacedMember(vss, c, i);
      if i in Placed(vss', c') {
        var k :| 0 <= k < |c'| && i in Pick(vss', c', k);
        assert i in Pick(vss, c, Skip(p, k));
      }
      if i in FULL_BOARD && i !in occ && i !in v {
        var q :| 0 <= q < |c| && i in Pick(vss, c, q);
        var k := if q < p then q else q - 1;
        assert i in Pick(vss', c', k);
      }
    }
    assert occ + v + Placed(vss', c') == FULL_BOARD;
  }

  // ---------------------------------------------------------------------------
  // Choices that cover the same cells

  /** Placements that agree piece by piece cover the same cells. */
  lemma {:induction false} SamePicksPlaced(vss: seq<seq<Word>>, c: seq<int>, vss': seq<seq<Word>>, c': seq<int>, m: nat)
    requires IsChoice(vss, c) && IsChoice(vss', c') && |c| == |c'| && m <= |c|
    requires forall k | 0 <= k < |c| :: Pick(vss, c, k) == Pick(vss', c', k)
    ensures PlacedUpTo(vss, c, m) == PlacedUpTo(vss', c', m)
  {
    if m > 0 {
      SamePicksPlaced(vss, c, vss', c', m - 1);
    }
  }

  /** A complete choice giving every piece the cells a tiling gives it is a tiling too. */
  lemma SamePicksTiles(vss: seq<seq<Word>>, c: seq<int>, vss': seq<seq<Word>>, c': seq<int>, occ: Word)
    requires Tiles(vss, occ, c) && IsChoice(vss', c') && Complete(c') && |c| == |c'|
    requires forall k | 0 <= k < |c| :: Pick(vss, c, k) == Pick(vss', c', k)
    ensures Tiles(vss', occ, c')
  {
    SamePicksPlaced(vss, c, vss', c', |c|);
    assert forall k | 0 <= k < |c'| :: Pick(vss', c', k) * occ == {} by {
      assert forall k | 0 <= k < |c| :: Pick(vss, c, k) * occ == {};
    }
    assert forall k, l | 0 <= k < l < |c'| :: Pick(vss', c', k) * Pick(vss', c', l) == {} by {
      assert forall k, l | 0 <= k < l < |c| :: Pick(vss, c, k) * Pick(vss, c, l) == {};
    }
  }

  // ---------------------------------------------------------------------------
  // Reordering the pieces

  /** Piece p of the order with j and j + 1 exchanged is piece Other(j, p) of the original order. */
  function Other(j: int, p: int): int
  {
    if p == j then j + 1 else if p == j + 1 then j else p
  }

  /** Exchanging two adjacent pieces, and their variants in a tiling, gives a tiling. */
  lemma SwapTilesOneWay(vss: seq<seq<Word>>, occ: Word, c: seq<int>, j: nat)
    requires j + 1 < |vss| && Tiles(vss, occ, c)
    ensures Tiles(Swap(vss, j), occ, Swap(c, j))
  {
    SwapPicks(vss, c, j);
    SwapPlaced(vss, c, j);
    SwapSeparate(vss, occ, c, j);
  }

  /** Piece p with the exchange is piece Other(j, p) without it. */
  lemma SwapPicks(vss: seq<seq<Word>>, c: seq<int>, j: nat)
    requires j + 1 < |vss| && IsChoice(vss, c)
    ensures IsChoice(Swap(vss, j), Swap(c, j))
    ensures forall p | 0 <= p < |c| :: Pick(Swap(vss, j), Swap(c, j), p) == Pick(vss, c, Other(j, p))
  {
    var vss', c' := Swap(vss, j), Swap(c, j);
    assert forall p | 0 <= p < |c| :: c'[p] == c[Other(j, p)] && vss'[p] == vss[Other(j, p)];
  }

  /** The exchange covers the same cells. */
  lemma SwapPlaced(vss: seq<seq<Word>>, c: seq<int>, j: nat)
    requires j + 1 < |vss| && IsChoice(vss, c)
    ensures IsChoice(Swap(vss, j), Swap(c, j)) && Placed(Swap(vss, j), Swap(c, j)) == Placed(vss, c)
  {
    var vss', c' := Swap(vss, j), Swap(c, j);
    SwapPicks(vss, c, j);
    forall i: Bit
      ensures i in Placed(vss', c') <==> i in Placed(vss, c)
    {
      PlacedMember(vss', c', i);
      PlacedMember(vss, c, i);
      if i in Placed(vss, c) {
        var p :| 0 <= p < |c| && i in Pick(vss, c, p);
        assert i in Pick(vss', c', Other(j, p));
      }
    }
  }

  /** The exchange keeps the pieces apart from occ and from each other. */
  lemma SwapSeparate(vss: seq<seq<Word>>, occ: Word, c: seq<int>, j: nat)
    requires j + 1 < |vss| && IsChoice(vss, c) && Separate(vss, occ, c)
    ensures IsChoice(Swap(vss, j), Swap(c, j)) && Separate(Swap(vss, j), occ, Swap(c, j))
  {
    var vss', c' := Swap(vss, j), Swap(c, j);
    SwapPicks(vss, c, j);
    forall p, q | 0 <= p < q < |c|
      ensures Pick(vss', c', p) * Pick(vss', c', q) == {}
    {
      if Other(j, p) < Other(j, q) {
        assert Pick(vss, c, Other(j, p)) * Pick(vss, c, Other(j, q)) == {};
      } else {
        assert Pick(vss, c, Other(j, q)) * Pick(vss, c, Other(j, p)) == {};
      }
    }
    forall p | 0 <= p < |c|
      ensures Pick(vss', c', p) * occ == {}
    {
      assert Pick(vss, c, Other(j, p)) * occ == {};
    }
  }

  /** Exchanging two adjacent pieces, and their variants in a choice, keeps it a tiling or not one. */
  lemma SwapTiles(vss: seq<seq<Word>>, occ: Word, c: seq<int>, j: nat)
    requires j + 1 < |vss| && |c| == |vss|
    ensures Tiles(Swap(vss, j), occ, Swap(c, j)) <==> Tiles(vss, occ, c)
  {
    if Tiles(vss, occ, c) {
      SwapTilesOneWay(vss, occ, c, j);
    }
    if Tiles(Swap(vss, j), occ, Swap(c, j)) {
      SwapTilesOneWay(Swap(vss, j), occ, Swap(c, j), j);
      SwapSwap(vss, j);
      SwapSwap(c, j);
    }
  }

  /** A choice with the variants of j and j + 1 exchanged. */
  function SwapChoice(j: nat): seq<int> -> seq<int>
  {
    (c: seq<int>) => if j + 1 < |c| then Swap(c, j) else c
  }

  /** Exchanging two adjacent pieces maps a tiling to a tiling of the exchanged pieces. */
  lemma SwapInto(vss: seq<seq<Word>>, occ: Word, j: nat, x: seq<int>)
    requires j + 1 < |vss| && x in TilingsOf(vss, occ)
    ensures |x| == |vss| && SwapChoice(j)(x) in TilingsOf(Swap(vss, j), occ)
  {
    var n := |vss|;
    CompletionsMember(vss, occ, Nones(n), x);
    SwapTiles(vss, occ, x, j);
    CompletionsMember(Swap(vss, j), occ, Nones(n), Swap(x, j));
  }

  /** Exchanging j and j + 1 cannot map two different choices of the same length to one. */
  lemma SwapInjective(S: set<seq<int>>, n: nat, j: nat)
    requires j + 1 < n && forall x | x in S :: |x| == n
    ensures forall x, y | x in S && y in S && SwapChoice(j)(x) == SwapChoice(j)(y) :: x == y
  {
    forall x, y | x in S && y in S && SwapChoice(j)(x) == SwapChoice(j)(y)
      ensures x == y
    {
      SwapSwap(x, j);
      SwapSwap(y, j);
    }
  }

  /** A set mapped injectively into another is no larger. */
  lemma InjectiveInto<T(!new), U(!new)>(S: set<T>, S': set<U>, f: T -> U)
    requires forall x | x in S :: f(x) in S'
    requires forall x, y | x in S && y in S && f(x) == f(y) :: x == y
    ensures |S| <= |S'|
  {
    InjectiveImage(S, f);
    var image := set x | x in S :: f(x);
    assert image <= S';
    assert S' == image + (S' - image);
    assert image * (S' - image) == {};
  }

  /** Exchanging two adjacent pieces does not lose tilings. */
  lemma SwapTilingsAtMost(vss: seq<seq<Word>>, occ: Word, j: nat)
    requires j + 1 < |vss|
    ensures |TilingsOf(vss, occ)| <= |TilingsOf(Swap(vss, j), occ)|
  {
    var S := TilingsOf(vss, occ);
    forall x | x in S
      ensures |x| == |vss| && SwapChoice(j)(x) in TilingsOf(Swap(vss, j), occ)
    {
      SwapInto(vss, occ, j, x);
    }
    SwapInjective(S, |vss|, j);
    InjectiveInto(S, TilingsOf(Swap(vss, j), occ), SwapChoice(j));
  }

  /** Exchanging two adjacent pieces does not change the number of tilings. */
  lemma SwapTilings(vss: seq<seq<Word>>, occ: Word, j: nat)
    requires j + 1 < |vss|
    ensures |TilingsOf(Swap(vss, j), occ)| == |TilingsOf(vss, occ)|
  {
    SwapTilingsAtMost(vss, occ, j);
    SwapTilingsAtMost(Swap(vss, j), occ, j);
    SwapSwap(vss, j);
  }

  /** Any run of exchanges of adjacent pieces keeps the number of tilings. */
  lemma {:induction false} ApplySwapsTilings(vss: seq<seq<Word>>, occ: Word, js: seq<nat>)
    requires forall k | 0 <= k < |js| :: js[k] + 1 < |vss|
    ensures |TilingsOf(ApplySwaps(vss, js), occ)| == |TilingsOf(vss, occ)|
    decreases |js|
  {
    if js != [] {
      SwapTilings(vss, occ, js[0]);
      ApplySwapsTilings(Swap(vss, js[0]), occ, js[1..]);
    }
  }

  // ---------------------------------------------------------------------------
  // Counting the tilings piece by piece

  /**
   * The number of tilings, counted the way a search does: with no pieces left
   * there is one when the board is full; otherwise add up, over the variants
   * of the last piece that fit, the tilings by the other pieces around it.
   */
  function Count(vss: seq<seq<Word>>, occ: Word): nat
    decreases |vss|, 1, 0
  {
    if vss == [] then (if occ == FULL_BOARD then 1 else 0)
    else CountBelow(vss, occ, |vss[|vss| - 1]|)
  }

  /** The same sum over the first m variants of the last piece only. */
  function CountBelow(vss: seq<seq<Word>>, occ: Word, m: nat): nat
    requires |vss| > 0 && m <= |vss[|vss| - 1]|
    decreases |vss|, 0, m
  {
    if m == 0 then 0
    else
      var K := |vss| - 1;
      var v := vss[K][m - 1];
      CountBelow(vss, occ, m - 1) + if v * occ == {} then Count(vss[..K], occ + v) else 0
  }

  /** With no pieces, the only choice is the empty one, and it tiles exactly the full board. */
  lemma NoPiecesTilings(occ: Word)
    ensures |TilingsOf([], occ)| == if occ == FULL_BOARD then 1 else 0
  {
    assert Placed([], []) == {};
    forall c | c in TilingsOf([], occ)
      ensures c == []
    {
      TilingsMember([], occ, c);
    }
    TilingsMember([], occ, []);
    if occ == FULL_BOARD {
      assert TilingsOf([], occ) == {[]};
    } else {
      assert TilingsOf([], occ) == {};
    }
  }

  /** The recursive count is the number of tilings. */
  lemma {:induction false} CountTilings(vss: seq<seq<Word>>, occ: Word)
    ensures Count(vss, occ) == |TilingsOf(vss, occ)|
    decreases |vss|, 1, 0
  {
    if vss == [] {
      NoPiecesTilings(occ);
    } else {
      CountBelowTilings(vss, occ, |vss[|vss| - 1]|);
      LastBelowEnds(vss, occ);
    }
  }

  /** The count over the first m variants of the last piece is the number of tilings giving it one of them. */
  lemma {:induction false} CountBelowTilings(vss: seq<seq<Word>>, occ: Word, m: nat)
    requires |vss| > 0 && m <= |vss[|vss| - 1]|
    ensures CountBelow(vss, occ, m) == |LastBelow(vss, occ, m)|
    decreases |vss|, 0, m
  {
    if m == 0 {
      LastBelowEnds(vss, occ);
    } else {
      CountBelowTilings(vss, occ, m - 1);
      CountBelowTilingsStep(vss, occ, m - 1);
    }
  }

  /** One more variant of the last piece keeps the count and the tilings in step. */
  lemma {:induction false} CountBelowTilingsStep(vss: seq<seq<Word>>, occ: Word, i: nat)
    requires |vss| > 0 && i < |vss[|vss| - 1]|
    requires CountBelow(vss, occ, i) == |LastBelow(vss, occ, i)|
    ensures CountBelow(vss, occ, i + 1) == |LastBelow(vss, occ, i + 1)|
    decreases |vss|, 0, 0
  {
    var K := |vss| - 1;
    LastBelowGrows(vss, occ, i);
    CountTilings(vss[..K], occ + vss[K][i]);
  }

  /** One more variant of the last piece adds the tilings of the other pieces around it, when it fits. */
  lemma LastBelowGrows(vss: seq<seq<Word>>, occ: Word, i: nat)
    requires |vss| > 0 && i < |vss[|vss| - 1]|
    ensures var K := |vss| - 1; var v := vss[K][i];
      |LastBelow(vss, occ, i + 1)| == |LastBelow(vss, occ, i)| + if v * occ == {} then |TilingsOf(vss[..K], occ + v)| else 0
  {
    LastBelowStep(vss, occ, i);
    SliceSize(vss, occ, i);
  }
}
