// 64-bit words as the C types uint64_t and int64_t read them, and what shifting and
// complementing a word means for the numbers.
//
// The operators have names, so that proofs can hide them and use their laws.
module Words {
  type Word = bv64

  const POW64: int := 0x1_0000_0000_0000_0000
  const ALL: Word := 0xffff_ffff_ffff_ffff

  function AsUnsigned(w: Word): (n: nat)
    ensures n < POW64
  {
    w as nat
  }

  function AsSigned(w: Word): int {
    if Top(w) then AsUnsigned(w) - POW64 else AsUnsigned(w)
  }

  // The conversion of an integer to a word.
  function WordOf(v: int): Word {
    (v % POW64) as bv64
  }

  predicate Top(w: Word) {
    w & 0x8000_0000_0000_0000 != 0
  }

  predicate Lowest(w: Word) {
    w & 1 != 0
  }

  function LowestBit(w: Word): Word {
    w & 1
  }

  function Shl(w: Word): Word {
    w << 1
  }

  function Shr(w: Word): Word {
    w >> 1
  }

  function Flip(w: Word): Word {
    w ^ 0xffff_ffff_ffff_ffff
  }

  function Or(a: Word, b: Word): Word {
    a | b
  }

  predicate Disjoint(a: Word, b: Word) {
    a & b == 0
  }

  predicate Within(w: Word, m: Word) {
    w & m == w
  }

  // The one bits of m reach up to the top.
  predicate High(m: Word) {
    (m << 1) & m == m << 1
  }

  // ----- words and numbers -----

  lemma UnsignedOf(v: int)
    ensures AsUnsigned(WordOf(v)) == v % POW64
  {
    assert (v % POW64) % POW64 == v % POW64;
  }

  lemma SameUnsigned(a: Word, b: Word)
    requires AsUnsigned(a) == AsUnsigned(b)
    ensures a == b
  {
    RawThereAndBack(a);
    RawThereAndBack(b);
  }

  lemma RawThereAndBack(w: bv64)
    ensures (w as nat) as bv64 == w
  {
  }

  lemma TopIsHalf(w: Word)
    ensures Top(w) <==> AsUnsigned(w) >= 0x8000_0000_0000_0000
  {
  }

  lemma SignedOf(v: int)
    requires -POW64 <= 2 * v < POW64
    ensures AsSigned(WordOf(v)) == v
  {
    hide AsUnsigned, WordOf, Top;
    UnsignedOf(v);
    TopIsHalf(WordOf(v));
  }

  lemma SameSigned(a: Word, b: Word)
    requires AsSigned(a) == AsSigned(b)
    ensures a == b
  {
    hide AsUnsigned, Top;
    TopIsHalf(a);
    TopIsHalf(b);
    SameUnsigned(a, b);
  }

  // ----- shift to the left -----

  lemma ShlDoubles(w: Word)
    ensures AsUnsigned(Shl(w)) == 2 * AsUnsigned(w) - if Top(w) then POW64 else 0
  {
    RawClearTop(w);
    RawDouble(w & 0x7fff_ffff_ffff_ffff);
    assert (w & 0x7fff_ffff_ffff_ffff) << 1 == w << 1;
  }

  lemma RawDouble(w: bv64)
    requires w < 0x8000_0000_0000_0000
    ensures AsUnsigned(w << 1) == 2 * AsUnsigned(w)
  {
  }

  lemma RawClearTop(w: bv64)
    ensures AsUnsigned(w) == AsUnsigned(w & 0x7fff_ffff_ffff_ffff)
                           + if w & 0x8000_0000_0000_0000 == 0 then 0 else 0x8000_0000_0000_0000
  {
  }

  // ----- words without a common one bit add up -----

  // Shifted to the left until nothing is left of the mask.
  lemma {:induction false} DisjointAdd(a: Word, b: Word, m: Word)
    requires Disjoint(a, b) && Within(Or(a, b), m) && High(m)
    ensures AsUnsigned(Or(a, b)) == AsUnsigned(a) + AsUnsigned(b)
    decreases AsUnsigned(m)
  {
    hide AsUnsigned, High, Within, Or, Disjoint, Shl, Top;
    if AsUnsigned(m) == 0 {
      NothingLeft(a, b, m);
    } else {
      HighIsTop(m);
      ShlDisjoint(a, b);
      ShlOr(a, b);
      ShlWithin(Or(a, b), m);
      ShlHigh(m);
      TopOr(a, b);
      TopDisjoint(a, b);
      ShlDoubles(a);
      ShlDoubles(b);
      ShlDoubles(Or(a, b));
      ShlDoubles(m);
      DisjointAdd(Shl(a), Shl(b), Shl(m));
    }
  }

  lemma NothingLeft(a: Word, b: Word, m: Word)
    requires AsUnsigned(m) == 0 && Within(Or(a, b), m)
    ensures AsUnsigned(a) == AsUnsigned(b) == AsUnsigned(Or(a, b)) == 0
  {
    IsZero(m);
    RawIsZero(a, b);
    assert a == 0 && b == 0;
  }

  lemma IsZero(m: Word)
    requires AsUnsigned(m) == 0
    ensures m == 0
  {
  }

  lemma RawIsZero(a: bv64, b: bv64)
    requires (a | b) & 0 == a | b
    ensures a == 0 && b == 0
  {
  }

  lemma HighIsTop(m: Word)
    requires AsUnsigned(m) != 0 && High(m)
    ensures Top(m)
  {
    ZeroIsZero();
    if !Top(m) {
      RawHighIsTop(m);
    }
  }

  lemma ZeroIsZero()
    ensures AsUnsigned(0) == 0
  {
  }

  lemma RawHighIsTop(m: bv64)
    requires (m << 1) & m == m << 1 && m & 0x8000_0000_0000_0000 == 0
    ensures m == 0
  {
  }

  lemma ShlDisjoint(a: Word, b: Word)
    requires Disjoint(a, b)
    ensures Disjoint(Shl(a), Shl(b))
  {
  }

  lemma ShlOr(a: Word, b: Word)
    ensures Or(Shl(a), Shl(b)) == Shl(Or(a, b))
  {
  }

  lemma ShlWithin(a: Word, m: Word)
    requires Within(a, m)
    ensures Within(Shl(a), Shl(m))
  {
  }

  lemma ShlHigh(m: Word)
    requires High(m)
    ensures High(Shl(m))
  {
  }

  lemma TopOr(a: Word, b: Word)
    ensures Top(Or(a, b)) <==> Top(a) || Top(b)
  {
    RawTopOr(a, b);
  }

  lemma RawTopOr(a: bv64, b: bv64)
    ensures (a | b) & 0x8000_0000_0000_0000 == (a & 0x8000_0000_0000_0000) | (b & 0x8000_0000_0000_0000)
    ensures a & 0x8000_0000_0000_0000 == 0 || a & 0x8000_0000_0000_0000 == 0x8000_0000_0000_0000
  {
  }

  lemma TopDisjoint(a: Word, b: Word)
    requires Disjoint(a, b)
    ensures !(Top(a) && Top(b))
  {
  }

  // ----- complement -----

  lemma FlipSubtracts(w: Word)
    ensures AsUnsigned(Flip(w)) == POW64 - 1 - AsUnsigned(w)
  {
    hide *;
    FlipParts(w);
    DisjointAdd(w, Flip(w), ALL);
    AllIsLargest();
  }

  lemma FlipParts(w: Word)
    ensures Disjoint(w, Flip(w)) && Or(w, Flip(w)) == ALL && Within(ALL, ALL) && High(ALL)
  {
  }

  lemma AllIsLargest()
    ensures AsUnsigned(ALL) == POW64 - 1
  {
  }

  // ----- shift to the right -----

  lemma ShrHalves(w: Word)
    ensures AsUnsigned(w) == 2 * AsUnsigned(Shr(w)) + if Lowest(w) then 1 else 0
  {
    hide *;
    ShrParts(w);
    ShrTop(w);
    FlipParts(w);
    EverythingWithin(w);
    DisjointAdd(Shl(Shr(w)), LowestBit(w), ALL);
    ShlDoubles(Shr(w));
    LowestIsOne(w);
  }

  lemma ShrParts(w: Word)
    ensures Or(Shl(Shr(w)), LowestBit(w)) == w && Disjoint(Shl(Shr(w)), LowestBit(w))
  {
    RawShrParts(w);
  }

  lemma RawShrParts(w: bv64)
    ensures ((w >> 1) << 1) | (w & 1) == w && ((w >> 1) << 1) & (w & 1) == 0
  {
  }

  lemma ShrTop(w: Word)
    ensures !Top(Shr(w))
  {
  }

  lemma EverythingWithin(w: Word)
    ensures Within(w, ALL)
  {
  }

  lemma LowestIsOne(w: Word)
    ensures AsUnsigned(LowestBit(w)) == if Lowest(w) then 1 else 0
  {
    assert w & 1 == 0 || w & 1 == 1;
  }
}
