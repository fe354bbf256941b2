/** Option and Result, and the little-endian byte strings that the disk format and
    the boot-information structure are both made of. */
module Common {

  datatype Option<+T> = None | Some(value: T)

  datatype Result<+T, +E> = Ok(value: T) | Err(error: E)

  function Min(a: int, b: int): int { if a <= b then a else b }

  function SaturatingSub(a: nat, b: nat): nat { if a < b then 0 else a - b }

  function Max(a: int, b: int): int { if a <= b then b else a }
}

module LittleEndian {

  type byte = b: int | 0 <= b < 256

  const U16 := 0x1_0000
  const U32 := 0x1_0000_0000
  const U64 := 0x1_0000_0000_0000_0000

  /** `bytes` occupies `image` from `off` on. */
  ghost predicate Holds(image: seq<byte>, off: int, bytes: seq<byte>) {
    0 <= off && off + |bytes| <= |image| && image[off..off + |bytes|] == bytes
  }

  lemma HoldsSplit(image: seq<byte>, off: int, a: seq<byte>, b: seq<byte>)
    requires Holds(image, off, a + b)
    ensures Holds(image, off, a) && Holds(image, off + |a|, b)
  {
    var whole := image[off..off + |a + b|];
    assert whole[..|a|] == a && whole[|a|..] == b;
    assert image[off..off + |a|] == whole[..|a|];
    assert image[off + |a|..off + |a| + |b|] == whole[|a|..];
  }

  function Zeros(n: nat): (s: seq<byte>)
    ensures |s| == n
  {
    if n == 0 then [] else [0] + Zeros(n - 1)
  }

  function ReadU16(image: seq<byte>, off: nat): nat
    requires off + 2 <= |image|
  {
    (image[off] as int) + 0x100 * (image[off + 1] as int)
  }

  function ReadU32(image: seq<byte>, off: nat): nat
    requires off + 4 <= |image|
  {
    (image[off] as int) + 0x100 * (image[off + 1] as int)
    + 0x1_0000 * (image[off + 2] as int) + 0x100_0000 * (image[off + 3] as int)
  }

  /** The number whose base-256 digits these are, the least significant first. */
  function Value(s: seq<byte>): nat { if s == [] then 0 else s[0] as int + 256 * Value(s[1..]) }

  lemma {:induction false} Values(s: seq<byte>)
    ensures |s| == 2 ==> Value(s) == s[0] as int + 256 * s[1] as int
    ensures |s| == 4 ==> Value(s) == s[0] as int + 256 * (s[1] as int + 256 * (s[2] as int + 256 * s[3] as int))
  {
    if |s| == 2 {
      assert Value(s[1..]) == s[1] as int + 256 * Value(s[1..][1..]);
    } else if |s| == 4 {
      Values(s[1..][1..]);
      assert Value(s) == s[0] as int + 256 * (s[1] as int + 256 * Value(s[1..][1..]));
    }
  }

  /** Reading and writing are little-endian. */
  lemma LittleEndianReads(image: seq<byte>, off: nat)
    ensures off + 2 <= |image| ==> ReadU16(image, off) == Value(image[off..off + 2])
    ensures off + 4 <= |image| ==> ReadU32(image, off) == Value(image[off..off + 4])
  {
    if off + 2 <= |image| { Values(image[off..off + 2]); }
    if off + 4 <= |image| { Values(image[off..off + 4]); }
  }

  lemma LittleEndianWrites(n: nat)
    ensures n < U16 ==> Value(Le16(n)) == n
    ensures n < U32 ==> Value(Le32(n)) == n
  {
    Values(Le16(n));
    Values(Le32(n));
    if n < U32 { Digits(n); }
  }

  /** `(n as u16).to_le_bytes()`: the cast keeps the low 16 bits. */
  function Le16(n: nat): (s: seq<byte>)
    ensures |s| == 2
  {
    [n % 0x100, n / 0x100 % 0x100]
  }

  /** `(n as u32).to_le_bytes()`: the cast keeps the low 32 bits. */
  function Le32(n: nat): (s: seq<byte>)
    ensures |s| == 4
  {
    [n % 0x100, n / 0x100 % 0x100, n / 0x1_0000 % 0x100, n / 0x100_0000 % 0x100]
  }

  lemma ReadLe16(image: seq<byte>, off: nat, n: nat)
    requires Holds(image, off, Le16(n)) && n < U16
    ensures ReadU16(image, off) == n
  {
    var s := image[off..off + 2];
    assert s[0] == image[off] && s[1] == image[off + 1];
  }

  lemma ReadLe32(image: seq<byte>, off: nat, n: nat)
    requires Holds(image, off, Le32(n)) && n < U32
    ensures ReadU32(image, off) == n
  {
    var s := image[off..off + 4];
    assert s[0] == image[off] && s[1] == image[off + 1] && s[2] == image[off + 2] && s[3] == image[off + 3];
    Digits(n);
  }

  /** A number below 2^32 is the sum of its four base-256 digits. */
  lemma Digits(n: nat)
    requires n < U32
    ensures n == n % 0x100 + 0x100 * (n / 0x100 % 0x100)
              + 0x1_0000 * (n / 0x1_0000 % 0x100) + 0x100_0000 * (n / 0x100_0000 % 0x100)
  {
    var a := n / 0x100;
    var b := a / 0x100;
    var c := b / 0x100;
    assert n / 0x1_0000 == b && n / 0x100_0000 == c;
    assert n == n % 0x100 + 0x100 * a && a == a % 0x100 + 0x100 * b && b == b % 0x100 + 0x100 * c;
  }
}
