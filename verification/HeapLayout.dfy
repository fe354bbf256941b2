/** Layouts, rounding and regions of src/heap.rs: the arithmetic under the allocator. */
module HeapLayout {
  import opened Common

  const NODE_SIZE := 16
  const NODE_ALIGN := 8
  const ISIZE_MAX := 0x7FFF_FFFF_FFFF_FFFF
  const USIZE_MAX := 0xFFFF_FFFF_FFFF_FFFF

  datatype Region = Region(start: nat, size: nat) {
    function End(): nat { start + size }
  }

  predicate Apart(a: Region, b: Region) { a.End() <= b.start || b.End() <= a.start }

  predicate PowerOfTwo(n: nat)
    decreases n
  {
    n == 1 || (n > 1 && n % 2 == 0 && PowerOfTwo(n / 2))
  }

  datatype Layout = Layout(size: nat, align: nat) {
    /** What Rust guarantees of any `Layout`. */
    predicate Good() { PowerOfTwo(align) && align <= ISIZE_MAX && size <= ISIZE_MAX - (align - 1) }
  }

  predicate Multiple(x: nat, a: nat) { a > 0 && x % a == 0 }

  /** `addr` rounded up to a multiple of `align`. On a power of two this is the source's
      mask (`Masks.AlignUpIsMask`). */
  function AlignUp(addr: nat, align: nat): nat
    requires align > 0
  {
    (addr + align - 1) / align * align
  }

  /** `size_align`; none is its panic on an unreasonable alignment. */
  function SizeAlign(layout: Layout): Option<(nat, nat)>
    requires layout.Good()
  {
    var align := Max(layout.align, NODE_ALIGN);
    if layout.size > ISIZE_MAX - (align - 1) then None
    else Some((Max(AlignUp(layout.size, align), NODE_SIZE), align))
  }

  /** `alloc_from_region`: the aligned start, if the request fits and leaves either
      nothing or at least a node behind. */
  function AllocFrom(r: Region, size: nat, align: nat): Option<nat>
    requires align > 0
  {
    var start := AlignUp(r.start, align);
    if start + size > USIZE_MAX then None
    else if start + size > r.End() then None
    else if 0 < r.End() - (start + size) < NODE_SIZE then None
    else Some(start)
  }

  /** The index of the first region that can satisfy the request. */
  function FirstFit(regions: seq<Region>, size: nat, align: nat): (k: nat)
    requires align > 0
    ensures k <= |regions|
    ensures k < |regions| ==> AllocFrom(regions[k], size, align).Some?
    ensures forall j | 0 <= j < k :: AllocFrom(regions[j], size, align).None?
  {
    if regions == [] then 0
    else if AllocFrom(regions[0], size, align).Some? then 0
    else 1 + FirstFit(regions[1..], size, align)
  }

  // ---- What fits, in figures -------------------------------------------------------------------

  /** A request fits a region at p: p is the least multiple of `align` in or behind the
      region's first byte, the request ends by the last 64-bit address, and it leaves
      nothing of the region behind or at least the 16 bytes of a node. */
  predicate FitsAt(r: Region, size: nat, align: nat, p: nat) {
    && r.start <= p < r.start + align && Multiple(p, align)
    && p + size <= 0xFFFF_FFFF_FFFF_FFFF
    && (p + size == r.start + r.size || p + size + 16 <= r.start + r.size)
  }

  /** p is where a request goes: in region i, and no earlier region fits it. */
  ghost predicate FirstAt(regions: seq<Region>, i: nat, size: nat, align: nat, p: nat) {
    i < |regions| && FitsAt(regions[i], size, align, p) && FitsNowhere(regions[..i], size, align)
  }

  ghost predicate FitsNowhere(regions: seq<Region>, size: nat, align: nat) {
    forall i, p: nat | 0 <= i < |regions| :: !FitsAt(regions[i], size, align, p)
  }

  /** The regions without the one at i, what it has left behind `from` in front. */
  function Cut(regions: seq<Region>, i: nat, from: nat): seq<Region>
    requires i < |regions|
  {
    var end := regions[i].start + regions[i].size;
    (if from < end then [Region(from, end - from)] else []) + regions[..i] + regions[i + 1..]
  }

  /** p is the first place for the request, and `after` the regions once it is taken. */
  ghost predicate Granted(before: seq<Region>, size: nat, align: nat, p: nat, after: seq<Region>) {
    exists i: nat :: FirstAt(before, i, size, align, p) && after == Cut(before, i, p + size)
  }

  lemma OneMultiple(p: nat, q: nat, start: nat, align: nat)
    requires Multiple(p, align) && Multiple(q, align) && start <= p < start + align && start <= q < start + align
    ensures p == q
  {
    Quotient(p, align);
    Quotient(q, align);
    if p / align < q / align { NextMultiple(p / align, q / align, align); }
    if q / align < p / align { NextMultiple(q / align, p / align, align); }
  }

  /** A region yields p exactly if the request fits there. */
  lemma FitsExactly(r: Region, size: nat, align: nat, p: nat)
    requires align > 0
    ensures AllocFrom(r, size, align) == Some(p) <==> FitsAt(r, size, align, p)
  {
    hide AlignUp;
    AlignUpFacts(r.start, align);
    if FitsAt(r, size, align, p) { OneMultiple(p, AlignUp(r.start, align), r.start, align); }
  }

  lemma NeverFits(r: Region, size: nat, align: nat)
    requires align > 0
    ensures AllocFrom(r, size, align).None? <==> forall p: nat :: !FitsAt(r, size, align, p)
  {
    hide AllocFrom, FitsAt;
    forall p: nat ensures AllocFrom(r, size, align) == Some(p) <==> FitsAt(r, size, align, p) {
      FitsExactly(r, size, align, p);
    }
    if AllocFrom(r, size, align).Some? { assert FitsAt(r, size, align, AllocFrom(r, size, align).value); }
  }

  /** First fit: none exactly if the request fits nowhere, else the first place. */
  lemma FirstFitExactly(regions: seq<Region>, size: nat, align: nat)
    requires align > 0
    ensures var k := FirstFit(regions, size, align);
      && (k == |regions| <==> FitsNowhere(regions, size, align))
      && (k < |regions| ==> FirstAt(regions, k, size, align, AllocFrom(regions[k], size, align).value))
  {
    hide AllocFrom, FitsAt;
    forall i | 0 <= i < |regions|
      ensures AllocFrom(regions[i], size, align).None? <==> forall p: nat :: !FitsAt(regions[i], size, align, p)
    {
      NeverFits(regions[i], size, align);
    }
    var k := FirstFit(regions, size, align);
    if k < |regions| { FitsExactly(regions[k], size, align, AllocFrom(regions[k], size, align).value); }
  }

  /** What `size_align` makes of a layout: alignment at least 8, the size padded to it, at
      least 16 bytes. */
  ghost predicate Rounded(layout: Layout, size: nat, align: nat) {
    && align == (if layout.align < 8 then 8 else layout.align)
    && exists padded: nat :: Multiple(padded, align) && layout.size <= padded < layout.size + align
         && size == if padded < 16 then 16 else padded
  }

  lemma SizeAlignExactly(layout: Layout, size: nat, align: nat)
    requires layout.Good()
    ensures SizeAlign(layout).None? <==>
      layout.size + (if layout.align < 8 then 8 else layout.align) - 1 > 0x7FFF_FFFF_FFFF_FFFF
    ensures SizeAlign(layout).Some? ==> (SizeAlign(layout) == Some((size, align)) <==> Rounded(layout, size, align))
  {
    hide AlignUp, PowerOfTwo;
    var a := Max(layout.align, NODE_ALIGN);
    AlignUpFacts(layout.size, a);
    var padded := AlignUp(layout.size, a);
    assert Multiple(padded, a);
    if Rounded(layout, size, align) {
      var other: nat :| Multiple(other, align) && layout.size <= other < layout.size + align
        && size == if other < 16 then 16 else other;
      OneMultiple(padded, other, layout.size, a);
    }
  }

  function Total(regions: seq<Region>): nat {
    if regions == [] then 0 else regions[0].size + Total(regions[1..])
  }

  function Without<T>(s: seq<T>, k: nat): (r: seq<T>)
    requires k < |s|
    ensures |r| == |s| - 1
    ensures forall i | 0 <= i < |r| :: r[i] == s[if i < k then i else i + 1]
  {
    s[..k] + s[k + 1..]
  }

  lemma {:induction false} TotalWithout(s: seq<Region>, k: nat)
    requires k < |s|
    ensures Total(Without(s, k)) == Total(s) - s[k].size
    decreases |s|
  {
    if k == 0 {
      assert Without(s, 0) == s[1..];
    } else {
      TotalWithout(s[1..], k - 1);
      assert Without(s, k)[1..] == Without(s[1..], k - 1);
    }
  }

  lemma {:induction false} TotalAppend(s: seq<Region>, r: Region)
    ensures Total(s + [r]) == Total(s) + r.size
  {
    if s == [] {
      assert [r][1..] == [];
    } else {
      TotalAppend(s[1..], r);
      assert (s + [r])[1..] == s[1..] + [r];
    }
  }

  lemma Quotient(x: nat, a: nat)
    requires a > 0
    ensures x == x / a * a + x % a && 0 <= x % a < a
  {
  }

  lemma NextMultiple(p: nat, q: nat, a: nat)
    requires p < q
    ensures p * a + a <= q * a
  {
    assert q * a == p * a + (q - p) * a;
    assert (q - p) * a == a + (q - p - 1) * a;
  }

  lemma DivMod(q: nat, a: nat, r: nat)
    requires r < a
    ensures (q * a + r) / a == q && (q * a + r) % a == r
  {
    var x := q * a + r;
    Quotient(x, a);
    if x / a < q { NextMultiple(x / a, q, a); }
    if q < x / a { NextMultiple(q, x / a, a); }
  }

  /** The least multiple of `align` that is not below `addr`. */
  lemma AlignUpFacts(addr: nat, align: nat)
    requires align > 0
    ensures addr <= AlignUp(addr, align) < addr + align
    ensures AlignUp(addr, align) % align == 0
    ensures addr % align == 0 ==> AlignUp(addr, align) == addr
  {
    var x := addr + align - 1;
    Quotient(x, align);
    DivMod(x / align, align, 0);
    if addr % align == 0 {
      Quotient(addr, align);
      DivMod(addr / align, align, align - 1);
    }
  }

  lemma MultipleOf8(x: nat, a: nat)
    requires a > 0 && x % a == 0 && a % 8 == 0
    ensures x % 8 == 0
  {
    Quotient(x, a);
    var q, m := x / a, a / 8;
    assert x == 8 * (q * m);
  }

  lemma PowerAtLeast8(n: nat)
    requires PowerOfTwo(n) && n >= 8
    ensures n % 8 == 0
  {
    assert PowerOfTwo(n / 2) && PowerOfTwo(n / 2 / 2) && PowerOfTwo(n / 2 / 2 / 2);
    assert n == 2 * (n / 2) && n / 2 == 2 * (n / 2 / 2) && n / 2 / 2 == 2 * (n / 2 / 2 / 2);
  }

  /** Every request is rounded to whole words, to at least a node, and to at least what
      was asked for. */
  lemma SizeAlignFacts(layout: Layout)
    requires layout.Good() && SizeAlign(layout).Some?
    ensures var (size, align) := SizeAlign(layout).value;
      && size >= layout.size && size >= NODE_SIZE && size % 8 == 0
      && align >= layout.align && align % 8 == 0 && align > 0
      && (forall x: nat | x % align == 0 :: x % layout.align == 0)
      && (layout.align <= 8 ==> align == 8)
  {
    var align := Max(layout.align, NODE_ALIGN);
    if layout.align >= 8 {
      PowerAtLeast8(layout.align);
    } else {
      SmallPower(layout.align);
    }
    hide PowerOfTwo, AlignUp;
    AlignUpFacts(layout.size, align);
    MultipleOf8(AlignUp(layout.size, align), align);
  }

  lemma SmallPower(n: nat)
    requires PowerOfTwo(n) && n < 8
    ensures n == 1 || n == 2 || n == 4
    ensures forall x: nat | x % 8 == 0 :: x % n == 0
  {
    assert !PowerOfTwo(3);
    hide PowerOfTwo;
    forall x: nat | x % 8 == 0 ensures x % n == 0 {
      SmallDivisor(x, n);
    }
  }

  lemma SmallDivisor(x: nat, n: nat)
    requires (n == 1 || n == 2 || n == 4) && x % 8 == 0
    ensures x % n == 0
  {
    if n == 1 {
      assert x % 1 == 0;
    } else if n == 2 {
      assert x % 2 == 0;
    } else {
      assert x % 4 == 0;
    }
  }
}
