/** Single bits of 64-bit words. */
module Bits {

  const ALL_ONES: bv64 := 0xFFFF_FFFF_FFFF_FFFF

  /** A bit position as a six-bit number. */
  function Pos(k: nat): bv6
    requires k < 64
  {
    if k == 0 then 0 else Pos(k - 1) + 1
  }

  lemma Successor(x: bv6)
    requires x as int < 63
    ensures (x + 1) as int == x as int + 1
  {
  }

  lemma {:induction false} PosValue(k: nat)
    requires k < 64
    ensures Pos(k) as int == k
  {
    if k > 0 {
      PosValue(k - 1);
      Successor(Pos(k - 1));
    }
  }

  /** `1 << k` */
  function Mask(k: nat): bv64
    requires k < 64
  {
    One(Pos(k))
  }

  predicate Bit(word: bv64, k: nat)
    requires k < 64
  {
    word & Mask(k) != 0
  }

  /** `word | 1 << k` */
  function WithBit(word: bv64, k: nat): bv64
    requires k < 64
  {
    word | Mask(k)
  }

  /** `word & !(1 << k)` */
  function WithoutBit(word: bv64, k: nat): bv64
    requires k < 64
  {
    word & !Mask(k)
  }

  lemma PosInjective(j: nat, k: nat)
    requires j < 64 && k < 64 && j != k
    ensures Pos(j) != Pos(k)
  {
    PosValue(j);
    PosValue(k);
  }

  function One(s: bv6): bv64 { 1 << s }

  lemma OrOther(word: bv64, s: bv6, t: bv6)
    requires s != t
    ensures (word | One(s)) & One(t) == word & One(t)
  {
  }

  lemma ClearOther(word: bv64, s: bv6, t: bv6)
    requires s != t
    ensures (word & !One(s)) & One(t) == word & One(t)
  {
  }

  lemma SameBit(word: bv64, s: bv6)
    ensures (word | One(s)) & One(s) != 0 && (word & !One(s)) & One(s) == 0
  {
  }

  lemma MaskOther(word: bv64, k: nat, j: nat)
    requires k < 64 && j < 64 && j != k
    ensures (word | Mask(k)) & Mask(j) == word & Mask(j)
    ensures (word & !Mask(k)) & Mask(j) == word & Mask(j)
  {
    PosInjective(j, k);
    OrOther(word, Pos(k), Pos(j));
    ClearOther(word, Pos(k), Pos(j));
  }

  lemma OtherBit(word: bv64, k: nat, j: nat)
    requires k < 64 && j < 64 && j != k
    ensures Bit(WithBit(word, k), j) == Bit(word, j)
    ensures Bit(WithoutBit(word, k), j) == Bit(word, j)
  {
    MaskOther(word, k, j);
  }

  lemma SameBitChanges(word: bv64, k: nat)
    requires k < 64
    ensures Bit(WithBit(word, k), k) && !Bit(WithoutBit(word, k), k)
  {
    SameBit(word, Pos(k));
  }

  /** Or-ing a mask sets that bit and no other; and-ing its complement clears that bit
      and no other. */
  lemma OneBit(word: bv64, k: nat, j: nat)
    requires k < 64 && j < 64
    ensures Bit(WithBit(word, k), j) == (j == k || Bit(word, j))
    ensures Bit(WithoutBit(word, k), j) == (j != k && Bit(word, j))
  {
    hide Bit, WithBit, WithoutBit;
    if j == k { SameBitChanges(word, k); } else { OtherBit(word, k, j); }
  }

  lemma AllOnes(s: bv6)
    ensures ALL_ONES & One(s) != 0
  {
  }

  lemma AllOnesBit(k: nat)
    requires k < 64
    ensures Bit(ALL_ONES, k)
  {
    hide Pos;
    AllOnes(Pos(k));
  }

  /** The bits up to and including position s. */
  function UpTo(s: bv6): bv64 { (One(s) - 1) | One(s) }

  predicate Covers(word: bv64, s: bv6) { word & UpTo(s) == UpTo(s) }

  lemma UpToZero(word: bv64)
    requires word & One(0) != 0
    ensures Covers(word, 0)
  {
  }

  lemma UpToStep(word: bv64, s: bv6)
    requires Covers(word, s) && s < 63 && word & One(s + 1) != 0
    ensures Covers(word, s + 1)
  {
  }

  lemma UpToTop(word: bv64, s: bv6)
    requires Covers(word, s) && s as int == 63
    ensures word == ALL_ONES
  {
    assert (s as int) as bv6 == s;
    assert s == 63;
  }

  lemma NotTop(s: bv6)
    requires s as int < 63
    ensures s < 63
  {
    if s == 63 { }
  }

  lemma PosStep(k: nat)
    requires 0 < k < 64
    ensures Pos(k) == Pos(k - 1) + 1 && Pos(k - 1) < 63
  {
    PosValue(k - 1);
    NotTop(Pos(k - 1));
  }

  lemma {:induction false} BitsUpTo(word: bv64, k: nat)
    requires k < 64 && forall j: nat | j <= k :: Bit(word, j)
    ensures Covers(word, Pos(k))
  {
    assert Bit(word, k);
    if k == 0 {
      UpToZero(word);
    } else {
      hide Covers;
      BitsUpTo(word, k - 1);
      CoversNext(word, k);
    }
  }

  lemma CoversNext(word: bv64, k: nat)
    requires 0 < k < 64 && Covers(word, Pos(k - 1)) && Bit(word, k)
    ensures Covers(word, Pos(k))
  {
    hide Covers;
    PosStep(k);
    UpToStep(word, Pos(k - 1));
  }

  lemma SomeBitClear(word: bv64)
    requires word != ALL_ONES
    ensures exists j: nat | j < 64 :: !Bit(word, j)
  {
    hide Pos, One, UpTo, Bit;
    if forall j: nat | j < 64 :: Bit(word, j) {
      BitsUpTo(word, 63);
      PosValue(63);
      UpToTop(word, Pos(63));
    }
  }

  function LowestClear(word: bv64, from: nat): (k: nat)
    requires from < 64 && exists j: nat | from <= j < 64 :: !Bit(word, j)
    ensures from <= k < 64 && !Bit(word, k) && forall j: nat | from <= j < k :: Bit(word, j)
    decreases 64 - from
  {
    if !Bit(word, from) then from else LowestClear(word, from + 1)
  }

  /** The number of one bits below the lowest zero bit. */
  function TrailingOnes(word: bv64): (k: nat)
    requires word != ALL_ONES
    ensures k < 64 && !Bit(word, k) && forall j: nat | j < k :: Bit(word, j)
  {
    SomeBitClear(word);
    LowestClear(word, 0)
  }
}
