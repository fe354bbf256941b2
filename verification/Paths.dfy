/** Splitting a byte string at '/', as Rust's `str::split` does: n separators give
    n + 1 pieces, some of them possibly empty. */
module Paths {
  import opened LittleEndian

  const SLASH: byte := 47
  const DOT: byte := 46

  type Name = seq<byte>

  function Split(s: seq<byte>): (pieces: seq<Name>)
    ensures |pieces| >= 1
  {
    if s == [] then [[]]
    else
      var rest := Split(s[1..]);
      if s[0] == SLASH then [[]] + rest else [[s[0]] + rest[0]] + rest[1..]
  }

  lemma {:induction false} SplitJoin(a: seq<byte>, b: seq<byte>)
    ensures Split(a + [SLASH] + b) == Split(a) + Split(b)
  {
    var s := a + [SLASH] + b;
    if a == [] {
      assert s[1..] == b;
    } else {
      assert s[1..] == a[1..] + [SLASH] + b;
      SplitJoin(a[1..], b);
      assert Split(a) + Split(b) == (if a[0] == SLASH then [[]] + Split(a[1..]) else [[a[0]] + Split(a[1..])[0]] + Split(a[1..])[1..]) + Split(b);
    }
  }

  lemma {:induction false} SplitPlain(s: seq<byte>)
    requires SLASH !in s
    ensures Split(s) == [s]
  {
    if s != [] {
      SplitPlain(s[1..]);
      assert s == [s[0]] + s[1..];
    }
  }

  /** No piece ever holds a separator. */
  lemma {:induction false} SplitPieces(s: seq<byte>, k: nat)
    requires k < |Split(s)|
    ensures SLASH !in Split(s)[k]
  {
    if s != [] {
      if s[0] == SLASH {
        if k > 0 { SplitPieces(s[1..], k - 1); }
      } else {
        SplitPieces(s[1..], k);
      }
    }
  }
}
