/** `PhysFrame::start_address`: frame indices as 64-bit physical addresses. */
module FrameAddress {
  import opened LittleEndian
  import opened PageWalk

  /** `n as u64`, from the binary digits of n. */
  function Word(n: nat): bv64 {
    if n == 0 then 0 else Append(Word(n / 2), Digit(n))
  }

  function Append(x: bv64, digit: bv64): bv64 { (x << 1) | digit }

  predicate Below20(x: bv64) { x & 0xFFFF_FFFF_FFF0_0000 == 0 }

  function Scale(x: bv64): bv64 { x << 12 }

  function Digit(n: nat): bv64 { if n % 2 == 1 then 1 else 0 }

  /** The address of frame `index`: index * 4096. */
  function FrameAddr(index: nat): bv64 { Scale(Word(index)) }

  function Power(k: nat): nat { if k == 0 then 1 else 2 * Power(k - 1) }

  /** All bits from position k up. */
  function High(k: nat): bv64 { if k == 0 then 0xFFFF_FFFF_FFFF_FFFF else High(k - 1) << 1 }

  lemma Doubled(x: bv64, d: bv64, h: bv64)
    requires x & h == 0 && d <= 1
    ensures Append(x, d) & (h << 1) == 0
  {
  }

  lemma {:induction false} WordBelow(n: nat, k: nat)
    requires n < Power(k)
    ensures Word(n) & High(k) == 0
  {
    if k == 0 {
    } else {
      WordBelow(n / 2, k - 1);
      if n > 0 { Doubled(Word(n / 2), Digit(n), High(k - 1)); }
    }
  }

  lemma HighValues()
    ensures High(20) == 0xFFFF_FFFF_FFF0_0000 && High(18) == 0xFFFF_FFFF_FFFC_0000
  {
    assert High(6) == 0xFFFF_FFFF_FFFF_FFC0;
    assert High(12) == 0xFFFF_FFFF_FFFF_F000;
    assert High(18) == 0xFFFF_FFFF_FFFC_0000;
  }

  lemma PowerValues()
    ensures Power(18) == 0x4_0000 && Power(20) == 0x10_0000
  {
    assert Power(9) == 512;
    assert Power(18) == 0x4_0000;
  }

  lemma Separated(x: bv64, y: bv64, d: bv64, e: bv64)
    requires Below20(x) && Below20(y) && d <= 1 && e <= 1 && Append(x, d) == Append(y, e)
    ensures x == y && d == e
  {
  }

  lemma SmallWord(n: nat)
    requires n < 0x10_0000
    ensures Below20(Word(n))
  {
    HighValues();
    PowerValues();
    WordBelow(n, 20);
  }

  lemma HalvesAgree(i: nat, j: nat)
    requires i < 0x10_0000 && j < 0x10_0000 && Word(i) == Word(j)
    ensures Word(i / 2) == Word(j / 2) && Digit(i) == Digit(j)
  {
    hide Word, Digit, Append, Below20;
    SmallWord(i / 2);
    SmallWord(j / 2);
    WordUnfolds(i);
    WordUnfolds(j);
    DigitBit(i);
    DigitBit(j);
    Separated(Word(i / 2), Word(j / 2), Digit(i), Digit(j));
  }

  lemma DigitBit(n: nat)
    ensures Digit(n) <= 1
  {
  }

  lemma SameDigit(i: nat, j: nat)
    requires Digit(i) == Digit(j)
    ensures i % 2 == j % 2
  {
  }

  lemma {:induction false} WordInjective(i: nat, j: nat)
    requires i < 0x10_0000 && j < 0x10_0000 && Word(i) == Word(j)
    ensures i == j
    decreases i + j
  {
    hide Word, Digit;
    if i != 0 || j != 0 {
      HalvesAgree(i, j);
      SameDigit(i, j);
      WordInjective(i / 2, j / 2);
    }
  }

  lemma WordUnfolds(n: nat)
    ensures Word(n) == Append(Word(n / 2), Digit(n))
  {
  }

  lemma ShiftedAddress(x: bv64, y: bv64)
    requires Below20(x) && Below20(y) && Scale(x) == Scale(y)
    ensures x == y
  {
  }

  lemma AlignedAddress(x: bv64)
    requires Below20(x)
    ensures AddrOf(Scale(x)) == Scale(x)
  {
  }

  lemma LowAddress(x: bv64)
    requires x & 0xFFFF_FFFF_FFFC_0000 == 0
    ensures Scale(x) < IDENTITY_LIMIT
  {
  }

  lemma FrameAddrAligned(i: nat)
    requires i < 0x10_0000
    ensures AddrOf(FrameAddr(i)) == FrameAddr(i)
  {
    hide Word, AddrOf, Scale, Below20;
    SmallWord(i);
    AlignedAddress(Word(i));
  }

  /** IDENTITY_LIMIT, counted in frames. */
  const WINDOW_FRAMES := 0x4_0000

  /** They lie below it. */
  lemma FrameAddrLow(i: nat)
    requires i < WINDOW_FRAMES
    ensures FrameAddr(i) < IDENTITY_LIMIT
  {
    HighValues();
    PowerValues();
    WordBelow(i, 18);
    hide Word;
    LowAddress(Word(i));
  }

  /** Distinct frames have distinct addresses. */
  lemma FrameAddrInjective(i: nat, j: nat)
    requires i < 0x10_0000 && j < 0x10_0000 && FrameAddr(i) == FrameAddr(j)
    ensures i == j
  {
    hide Word, Scale, Below20;
    SmallWord(i);
    SmallWord(j);
    ShiftedAddress(Word(i), Word(j));
    WordInjective(i, j);
  }

  // ---- Addresses as numbers ------------------------------------------------------

  function Shr1(w: bv64): bv64 { w >> 1 }

  function Shr4(w: bv64): bv64 { w >> 4 }

  function Shr12(w: bv64): bv64 { w >> 12 }

  predicate TopClear(x: bv64) { x & 0x8000_0000_0000_0000 == 0 }

  lemma Halved(x: bv64, d: bv64)
    requires TopClear(x) && d <= 1
    ensures Shr1(Append(x, d)) == x
  {
  }

  lemma TopBit()
    ensures High(63) == 0x8000_0000_0000_0000 && Power(63) == 0x8000_0000_0000_0000
  {
    HighValues();
    PowerValues();
    assert High(27) == 0xFFFF_FFFF_F800_0000;
    assert High(36) == 0xFFFF_FFF0_0000_0000;
    assert High(45) == 0xFFFF_E000_0000_0000;
    assert High(54) == 0xFFC0_0000_0000_0000;
    assert Power(27) == 0x800_0000;
    assert Power(34) == 0x4_0000_0000;
    assert Power(40) == 0x100_0000_0000;
    assert Power(47) == 0x8000_0000_0000;
    assert Power(55) == 0x80_0000_0000_0000;
  }

  lemma WordTopClear(n: nat)
    requires n < 0x8000_0000_0000_0000
    ensures TopClear(Word(n))
  {
    TopBit();
    WordBelow(n, 63);
  }

  /** Dropping the lowest digit is a shift. */
  lemma WordHalf(n: nat)
    requires n < U64
    ensures Shr1(Word(n)) == Word(n / 2)
  {
    hide Word, Digit, Append, TopClear, Shr1;
    WordTopClear(n / 2);
    WordUnfolds(n);
    DigitBit(n);
    Halved(Word(n / 2), Digit(n));
  }

  lemma FourShifts(w: bv64)
    ensures Shr1(Shr1(Shr1(Shr1(w)))) == Shr4(w)
  {
  }

  lemma WordSixteenth(n: nat)
    requires n < U64
    ensures Shr4(Word(n)) == Word(n / 16)
  {
    hide Word, Shr1, Shr4;
    WordHalf(n);
    WordHalf(n / 2);
    WordHalf(n / 4);
    WordHalf(n / 8);
    assert n / 2 / 2 == n / 4 && n / 4 / 2 == n / 8 && n / 8 / 2 == n / 16;
    FourShifts(Word(n));
  }

  lemma TwelveShifts(w: bv64)
    ensures Shr4(Shr4(Shr4(w))) == Shr12(w)
  {
  }

  /** `addr >> 12` is the quotient by the page size. */
  lemma WordPage(n: nat)
    requires n < U64
    ensures Shr12(Word(n)) == Word(n / 4096)
  {
    hide Word, Shr4, Shr12;
    WordSixteenth(n);
    WordSixteenth(n / 16);
    WordSixteenth(n / 256);
    assert n / 16 / 16 == n / 256 && n / 256 / 16 == n / 4096;
    TwelveShifts(Word(n));
  }

  lemma PageFromShift(v: bv64, w: bv64)
    requires Shr12(v) == Shr12(w)
    ensures Page(v) == Page(w)
  {
  }

  /** The page of an address is decided by its quotient by the page size. */
  lemma PageOfNumber(m: nat, n: nat)
    requires m < U64 && n < U64 && m / 4096 == n / 4096
    ensures Page(Word(m)) == Page(Word(n))
  {
    hide Word, Page, Shr12;
    WordPage(m);
    WordPage(n);
    PageFromShift(Word(m), Word(n));
  }
}
