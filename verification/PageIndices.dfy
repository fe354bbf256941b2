/** Table indices as numbers: the index at a level is one base-512 digit of the page
    number, as section 4.5 of the Intel SDM Volume 3A lays a linear address out. */
module PageIndices {
  import opened FrameAddress
  import opened HeapLayout
  import opened LittleEndian
  import opened Masks
  import opened PageWalk

  function Inc(x: bv64): bv64 { x + 1 }

  function And(x: bv64, y: bv64): bv64 { x & y }

  lemma {:induction false} NextWord(n: nat)
    ensures Word(n + 1) == Inc(Word(n))
  {
    hide Word, Append, Digit, Inc;
    WordUnfolds(n);
    WordUnfolds(n + 1);
    LastDigits(n);
    if n % 2 == 0 {
      AppendOne(Word(n / 2));
    } else {
      NextWord(n / 2);
      AppendCarry(Word(n / 2));
    }
  }

  lemma LastDigits(n: nat)
    ensures Digit(n) == (if n % 2 == 0 then 0 else 1) && Digit(n + 1) == (if n % 2 == 0 then 1 else 0)
  {
  }

  lemma AppendOne(x: bv64)
    ensures Inc(Append(x, 0)) == Append(x, 1)
  {
  }

  lemma AppendCarry(x: bv64)
    ensures Inc(Append(x, 1)) == Append(Inc(x), 0)
  {
  }

  lemma Successor(x: bv64, n: nat)
    requires x as int == n < 511
    ensures Inc(x) as int == n + 1
  {
    assert x < 0x1FF;
  }

  /** A small number's word has its value. */
  lemma {:induction false} SmallWordValue(n: nat)
    requires n < 512
    ensures Word(n) as int == n
  {
    hide Word, Inc;
    if n == 0 {
      WordZero();
    } else {
      SmallWordValue(n - 1);
      NextWord(n - 1);
      Successor(Word(n - 1), n - 1);
    }
  }

  lemma WordZero()
    ensures Word(0) as int == 0
  {
  }

  function Low(k: nat): bv64 { if k == 0 then 0 else Append(Low(k - 1), 1) }

  function TwoTo(k: nat): (p: nat)
    ensures p > 0
  {
    if k == 0 then 1 else 2 * TwoTo(k - 1)
  }

  lemma HalfRemainder(m: nat, b: nat)
    requires b > 0
    ensures m % (2 * b) == 2 * (m / 2 % b) + m % 2
  {
    var h := m / 2;
    Quotient(h, b);
    var q, r := h / b, h % b;
    assert q * (2 * b) == 2 * (q * b);
    DivMod(q, 2 * b, 2 * r + m % 2);
  }

  lemma AndAppend(u: bv64, v: bv64, d: bv64)
    requires d <= 1
    ensures And(Append(u, d), Append(v, 1)) == Append(And(u, v), d)
  {
  }

  lemma AndZero(u: bv64)
    ensures And(u, 0) == 0
  {
  }

  /** The lowest k digits are the remainder by 2^k. */
  lemma {:induction false} LowWord(m: nat, k: nat)
    ensures And(Word(m), Low(k)) == Word(m % TwoTo(k))
  {
    if k == 0 {
      AndZero(Word(m));
    } else {
      LowWord(m / 2, k - 1);
      LowStep(m, Low(k - 1), TwoTo(k - 1));
    }
  }

  lemma LowStep(m: nat, low: bv64, b: nat)
    requires b > 0 && And(Word(m / 2), low) == Word(m / 2 % b)
    ensures And(Word(m), Append(low, 1)) == Word(m % (2 * b))
  {
    hide Word, And, Append, Digit;
    HalfRemainder(m, b);
    var n := 2 * (m / 2 % b) + m % 2;
    assert n / 2 == m / 2 % b && n % 2 == m % 2;
    WordUnfolds(m);
    WordUnfolds(n);
    DigitBit(m);
    ParityDigit(m, n);
    AndAppend(Word(m / 2), low, Digit(m));
  }

  lemma ParityDigit(m: nat, n: nat)
    requires m % 2 == n % 2
    ensures Digit(m) == Digit(n)
  {
  }

  lemma NineDigits(m: nat)
    ensures And(Word(m), 0x1FF) == Word(m % 512) && And(Word(m), 0x1FF) as int == m % 512
  {
    hide Word, And;
    LowWord(m, 9);
    NineOnes();
    SmallWordValue(m % 512);
  }

  lemma NineOnes()
    ensures Low(9) == 0x1FF && TwoTo(9) == 512
  {
    assert Low(3) == 7 && Low(6) == 0x3F;
    assert TwoTo(4) == 16;
  }

  // ---- Shifts ---------------------------------------------------------------------------------

  function Shr9(w: bv64): bv64 { w >> 9 }

  lemma NineShifts(w: bv64)
    ensures Shr9(w) == Shr1(Shr4(Shr4(w)))
  {
  }

  lemma WordOver512(n: nat)
    requires n < U64
    ensures Shr9(Word(n)) == Word(n / 512)
  {
    hide Word, Shr1, Shr4, Shr9;
    NineShifts(Word(n));
    WordSixteenth(n);
    WordSixteenth(n / 16);
    WordHalf(n / 256);
    assert n / 16 / 16 == n / 256 && n / 256 / 2 == n / 512;
  }

  lemma FieldShifts(w: bv64)
    ensures Field(w, 0) == And(Shr12(w), 0x1FF)
    ensures Field(w, 1) == And(Shr9(Shr12(w)), 0x1FF)
    ensures Field(w, 2) == And(Shr9(Shr9(Shr12(w))), 0x1FF)
    ensures Field(w, 3) == And(Shr9(Shr9(Shr9(Shr12(w)))), 0x1FF)
  {
  }

  lemma IndexIsField(w: bv64)
    ensures forall level: nat | level < 4 :: Index(w, level) == Field(w, level) as int
  {
    hide Field;
  }

  /** Level 0 is the lowest base-512 digit of the page number, level 3 the highest. */
  lemma IndexIs(n: nat)
    requires n < U64
    ensures Index(Word(n), 0) == n / 4096 % 512
    ensures Index(Word(n), 1) == n / 4096 / 512 % 512
    ensures Index(Word(n), 2) == n / 4096 / 512 / 512 % 512
    ensures Index(Word(n), 3) == n / 4096 / 512 / 512 / 512 % 512
  {
    hide Word, And, Shr9, Shr12, Field, Index;
    IndexIsField(Word(n));
    FieldShifts(Word(n));
    WordPage(n);
    var m := n / 4096;
    WordOver512(m);
    WordOver512(m / 512);
    WordOver512(m / 512 / 512);
    NineDigits(m);
    NineDigits(m / 512);
    NineDigits(m / 512 / 512);
    NineDigits(m / 512 / 512 / 512);
  }
}
