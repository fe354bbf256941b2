/** The source rounds with masks, `x & !(a - 1)`; the models round with division. On powers
    of two the two agree: `Word` writes a number as its 64 binary digits. */
module Masks {
  import opened LittleEndian
  import opened FrameAddress
  import opened HeapLayout
  import AddressSpace
  import Multiboot
  import TaskMachine

  /** Numbers below 2^64 are told apart by their words. */
  lemma {:induction false} WordExact(i: nat, j: nat)
    requires i < U64 && j < U64 && Word(i) == Word(j)
    ensures i == j
    decreases i + j
  {
    hide Word, Shr1;
    if i != 0 || j != 0 {
      WordHalf(i);
      WordHalf(j);
      LowDigit(i);
      LowDigit(j);
      SameDigit(i, j);
      WordExact(i / 2, j / 2);
    }
  }

  lemma LowDigit(n: nat)
    ensures Word(n) & 1 == Digit(n)
  {
    hide Word, Digit;
    WordUnfolds(n);
    DigitBit(n);
    AppendedDigit(Word(n / 2), Digit(n));
  }

  lemma AppendedDigit(x: bv64, d: bv64)
    requires d <= 1
    ensures Append(x, d) & 1 == d
  {
  }

  /** `x & !mask` */
  function Clear(x: bv64, mask: bv64): bv64 { x & !mask }

  lemma MaskedDigits(u: bv64, v: bv64, d: bv64)
    requires d <= 1
    ensures Clear(Append(u, d), Append(v, 1)) == Append(Clear(u, v), 0)
  {
  }

  lemma ClearedWord(u: bv64)
    ensures Clear(u, 0) == u
  {
  }

  /** The largest multiple of `a` that is not above `x`. */
  function Down(x: nat, a: nat): nat
    requires a > 0
  {
    x / a * a
  }

  lemma HalfDown(x: nat, b: nat)
    requires b > 0
    ensures Down(x, 2 * b) == 2 * Down(x / 2, b)
  {
    var h := x / 2;
    Quotient(h, b);
    var q, r := h / b, h % b;
    assert q * (2 * b) == 2 * (q * b);
    DivMod(q, 2 * b, 2 * r + x % 2);
  }

  lemma LastDigits(c: nat, m: nat)
    ensures Digit(2 * c + 1) == 1 && Digit(2 * m) == 0
  {
  }

  lemma MaskStep(x: nat, c: nat, m: nat)
    requires Clear(Word(x / 2), Word(c)) == Word(m)
    ensures Clear(Word(x), Word(2 * c + 1)) == Word(2 * m)
  {
    hide Word, Append, Clear, Digit;
    LastDigits(c, m);
    WordUnfolds(x);
    WordUnfolds(2 * c + 1);
    WordUnfolds(2 * m);
    DigitBit(x);
    MaskedDigits(Word(x / 2), Word(c), Digit(x));
  }

  /** Clearing the digits below a power of two rounds down to a multiple of it. */
  lemma {:induction false} MaskRoundsDown(x: nat, a: nat)
    requires PowerOfTwo(a)
    ensures Clear(Word(x), Word(a - 1)) == Word(Down(x, a))
    decreases a
  {
    hide Word, Clear;
    if a == 1 {
      NoMask(x);
    } else {
      hide Down;
      var b := a / 2;
      HalfDown(x, b);
      MaskRoundsDown(x / 2, b);
      MaskStep(x, b - 1, Down(x / 2, b));
    }
  }

  lemma NoMask(x: nat)
    ensures Clear(Word(x), Word(0)) == Word(x)
  {
    assert Word(0) == 0;
    hide Word;
    ClearedWord(Word(x));
  }

  /** The heap's `align_up`. */
  lemma AlignUpIsMask(addr: nat, align: nat)
    requires PowerOfTwo(align) && addr + align - 1 < U64
    ensures Clear(Word(addr + align - 1), Word(align - 1)) == Word(AlignUp(addr, align))
  {
    MaskRoundsDown(addr + align - 1, align);
  }

  /** The parser's step to the next tag, the top of a new stack, the page of an address. */
  lemma OtherMasks(n: nat)
    ensures Clear(Word(n + 7), Word(7)) == Word(Multiboot.RoundUp8(n))
    ensures Clear(Word(n + TaskMachine.STACK_SIZE), Word(0xF)) == Word(TaskMachine.StackTop(n))
    ensures Clear(Word(n), Word(0xFFF)) == Word(AddressSpace.PageStart(n))
  {
    Powers();
    hide PowerOfTwo, Word, Clear;
    MaskRoundsDown(n + 7, 8);
    MaskRoundsDown(n + TaskMachine.STACK_SIZE, 16);
    MaskRoundsDown(n, 0x1000);
  }

  lemma Powers()
    ensures PowerOfTwo(8) && PowerOfTwo(16) && PowerOfTwo(0x1000)
  {
    assert PowerOfTwo(64) && PowerOfTwo(512);
  }
}
