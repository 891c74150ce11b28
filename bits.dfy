/**
 * A Java `long` as the set of positions of its one bits. The bitwise operators
 * used by the puzzle solver become set operations: `a & b` is `a * b`, `a | b`
 * is `a + b`, `a ^ b` is `Xor(a, b)`, `~a` is `Complement(a)`, `Long.bitCount(a)`
 * is `|a|`. The shifts drop the bits that leave the 64 positions, as Java does.
 */
module Bits {

  /** A bit position of a 64-bit word. */
  type Bit = i: int | 0 <= i < 64

  /** A 64-bit word, given by the positions of its one bits. */
  type Word = set<Bit>

  /** `~w` */
  function Complement(w: Word): (r: Word)
    ensures forall i: Bit :: i in r <==> i !in w
  {
    set i: Bit | i !in w
  }

  /** `a ^ b` */
  function Xor(a: Word, b: Word): (r: Word)
    ensures forall i: Bit :: i in r <==> (i in a <==> i !in b)
  {
    set i: Bit | (i in a) != (i in b)
  }

  /** `w << k` for a shift distance 0 <= k < 64: bits moved past position 63 are lost. */
  function ShiftLeft(w: Word, k: nat): (r: Word)
    ensures forall i: Bit :: i in r <==> i >= k && (i - k) in w
  {
    var r := set i | i in w && i + k < 64 :: (i + k) as Bit;
    assert forall i: Bit | i >= k && (i - k) in w :: i in r by {
      forall i: Bit | i >= k && (i - k) in w
        ensures i in r
      {
        var j: Bit := i - k;
        assert j in w && j + k < 64;
      }
    }
    r
  }

  /** `w >>> k`: zeros are shifted in at the top. */
  function ShiftRightUnsigned(w: Word, k: nat): (r: Word)
    ensures forall i: Bit :: i in r <==> i + k < 64 && (i + k) as Bit in w
  {
    var r := set i | i in w && i >= k :: (i - k) as Bit;
    assert forall i: Bit | i + k < 64 && (i + k) as Bit in w :: i in r by {
      forall i: Bit | i + k < 64 && (i + k) as Bit in w
        ensures i in r
      {
        var j: Bit := i + k;
        assert j in w && j >= k;
      }
    }
    r
  }

  /** Bit i of `w >> k`: bit i + k of w, or the sign bit 63 once i + k is past the top. */
  predicate SignedBit(w: Word, k: nat, i: Bit)
  {
    if i + k < 64 then (i + k) as Bit in w else 63 in w
  }

  /** `w >> k` for a shift distance 0 <= k < 64: the sign bit 63 is copied into the vacated top bits. */
  function ShiftRightSigned(w: Word, k: nat): Word
    requires k < 64
  {
    set i: Bit | SignedBit(w, k, i)
  }

  /** The lowest one bit of w at or above position i, or 64 if there is none. */
  function LowestFrom(w: Word, i: nat): (r: nat)
    requires i <= 64
    ensures i <= r <= 64
    ensures r < 64 ==> r in w
    ensures forall j: Bit | i <= j < r :: j !in w
    decreases 64 - i
  {
    if i == 64 then 64 else if i in w then i else LowestFrom(w, i + 1)
  }

  /** `Long.numberOfTrailingZeros(w)`: the lowest one bit, 64 for the zero word. */
  function TrailingZeros(w: Word): (r: nat)
    ensures r <= 64
    ensures r == 64 <==> w == {}
    ensures r < 64 ==> r in w && forall j | j in w :: r <= j
  {
    LowestFrom(w, 0)
  }

  /** One plus the highest one bit of w below position k, or 0 if there is none. */
  function LengthBelow(w: Word, k: nat): (r: nat)
    requires k <= 64
    ensures r <= k
    ensures r > 0 ==> (r - 1) in w
    ensures forall j: Bit | r <= j < k :: j !in w
  {
    if k == 0 then 0 else if (k - 1) in w then k else LengthBelow(w, k - 1)
  }

  /** `64 - Long.numberOfLeadingZeros(w)`: one plus the highest one bit, 0 for the zero word. */
  function BitLength(w: Word): (r: nat)
    ensures r <= 64
    ensures r == 0 <==> w == {}
    ensures r > 0 ==> (r - 1) in w
    ensures forall j | j in w :: j < r
  {
    LengthBelow(w, 64)
  }

  /** `Long.numberOfLeadingZeros(w)` */
  function LeadingZeros(w: Word): (r: nat)
    ensures r <= 64
    ensures r == 64 <==> w == {}
    ensures r < 64 ==> (63 - r) in w && forall j | j in w :: j <= 63 - r
  {
    64 - BitLength(w)
  }
}
