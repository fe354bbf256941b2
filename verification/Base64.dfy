/** The base64 decoder and encoder of src/shell.rs (sections 4 and 3.5 of RFC 4648).
    The 24-bit groups that the code assembles with shifts are sums of their digits here. */
module Base64 {
  import opened Common
  import opened LittleEndian

  const PAD: byte := 61

  datatype B64Error = InvalidChar | BadLength

  /** `b64_val`. */
  function Val(c: byte): (v: Option<nat>)
    ensures v.Some? ==> v.value < 64
    ensures c == PAD ==> v == None
  {
    if 65 <= c <= 90 then Some(c - 65)
    else if 97 <= c <= 122 then Some(c - 97 + 26)
    else if 48 <= c <= 57 then Some(c - 48 + 52)
    else if c == 43 then Some(62)
    else if c == 47 then Some(63)
    else None
  }

  /** The alphabet string of the encoder, by index. */
  function Symbol(v: nat): (c: byte)
    requires v < 64
    ensures Val(c) == Some(v)
  {
    if v < 26 then 65 + v
    else if v < 52 then 97 + (v - 26)
    else if v < 62 then 48 + (v - 52)
    else if v == 62 then 43
    else 47
  }

  // ---- Decoding ----------------------------------------------------------------------------

  /** A group of four characters: its 6-bit values, 0 for padding, and the padding. */
  datatype Group = Group(vals: seq<nat>, pad: nat)

  /** The group from its j-th character on, after these values and this padding. */
  function ScanGroup(chunk: seq<byte>, last: bool, vals: seq<nat>, pad: nat): (r: Result<Group, B64Error>)
    requires |chunk| == 4 && pad <= |vals| <= 4 && forall k | 0 <= k < |vals| :: vals[k] < 64
    ensures r.Ok? ==> |r.value.vals| == 4 && pad <= r.value.pad && forall k | 0 <= k < 4 :: r.value.vals[k] < 64
    decreases 4 - |vals|
  {
    var j := |vals|;
    if j == 4 then Ok(Group(vals, pad))
    else if chunk[j] == PAD then
      if !last || j < 2 then Err(BadLength) else ScanGroup(chunk, last, vals + [0], pad + 1)
    else if pad != 0 then Err(BadLength)
    else if Val(chunk[j]).None? then Err(InvalidChar)
    else ScanGroup(chunk, last, vals + [Val(chunk[j]).value], pad)
  }

  function Triple(v: seq<nat>): nat
    requires |v| == 4
  {
    v[0] * 0x4_0000 + v[1] * 0x1000 + v[2] * 0x40 + v[3]
  }

  /** The bytes of a group: three, less one for each padding character. */
  function GroupBytes(triple: nat, pad: nat): seq<byte> {
    [triple / 0x1_0000 % 0x100] + (if pad < 2 then [triple / 0x100 % 0x100] else [])
    + if pad < 1 then [triple % 0x100] else []
  }

  function Onto(out: seq<byte>, rest: Result<seq<byte>, B64Error>): Result<seq<byte>, B64Error> {
    if rest.Err? then rest else Ok(out + rest.value)
  }

  function DecodeGroups(input: seq<byte>): Result<seq<byte>, B64Error>
    requires |input| % 4 == 0
    decreases |input|
  {
    if input == [] then Ok([])
    else
      var group := ScanGroup(input[..4], |input| == 4, [], 0);
      if group.Err? then Err(group.error)
      else
        Onto(GroupBytes(Triple(group.value.vals), group.value.pad), DecodeGroups(input[4..]))
  }

  function Decoded(input: seq<byte>): Result<seq<byte>, B64Error> {
    if |input| % 4 != 0 then Err(BadLength) else DecodeGroups(input)
  }

  lemma OntoNothing(rest: Result<seq<byte>, B64Error>)
    ensures Onto([], rest) == rest
  {
    if rest.Ok? { assert [] + rest.value == rest.value; }
  }

  lemma OntoOnto(a: seq<byte>, b: seq<byte>, rest: Result<seq<byte>, B64Error>)
    ensures Onto(a, Onto(b, rest)) == Onto(a + b, rest)
  {
    if rest.Ok? { assert a + (b + rest.value) == a + b + rest.value; }
  }

  /** One turn of the decoding loop. */
  lemma DecodedStep(out: seq<byte>, input: seq<byte>, i: nat)
    requires |input| % 4 == 0 && 4 * i < |input|
    ensures var group := ScanGroup(input[4 * i..4 * i + 4], i + 1 == |input| / 4, [], 0);
      Onto(out, DecodeGroups(input[4 * i..])) == if group.Err? then Err(group.error)
        else Onto(out + GroupBytes(Triple(group.value.vals), group.value.pad), DecodeGroups(input[4 * (i + 1)..]))
  {
    hide ScanGroup, Triple, GroupBytes;
    var rest := input[4 * i..];
    assert rest[..4] == input[4 * i..4 * i + 4] && rest[4..] == input[4 * (i + 1)..];
    var group := ScanGroup(rest[..4], |rest| == 4, [], 0);
    if group.Ok? {
      OntoOnto(out, GroupBytes(Triple(group.value.vals), group.value.pad), DecodeGroups(rest[4..]));
    }
  }

  method Decode(input: seq<byte>) returns (r: Result<seq<byte>, B64Error>)
    ensures r == Decoded(input)
  {
    hide ScanGroup, Triple, DecodeGroups, Onto;
    if |input| % 4 != 0 { return Err(BadLength); }
    var chunks := |input| / 4;
    var out: seq<byte> := [];
    assert input[0..] == input;
    OntoNothing(DecodeGroups(input));
    for i := 0 to chunks
      invariant DecodeGroups(input) == Onto(out, DecodeGroups(input[4 * i..]))
    {
      var chunk, last := input[4 * i..4 * i + 4], i + 1 == chunks;
      DecodedStep(out, input, i);
      var group := DecodeGroup(chunk, last);
      if group.Err? { return Err(group.error); }
      var triple, pad := Triple(group.value.vals), group.value.pad;
      ghost var before := out;
      out := out + [triple / 0x1_0000 % 0x100];
      if pad < 2 { out := out + [triple / 0x100 % 0x100]; }
      if pad < 1 { out := out + [triple % 0x100]; }
      assert out == before + GroupBytes(triple, pad);
    }
    assert input[4 * chunks..] == [];
    DecodedNone(out);
    r := Ok(out);
  }

  lemma DecodedNone(out: seq<byte>)
    ensures Onto(out, DecodeGroups([])) == Ok(out)
  {
    assert out + [] == out;
  }

  method DecodeGroup(chunk: seq<byte>, last: bool) returns (r: Result<Group, B64Error>)
    requires |chunk| == 4
    ensures r == ScanGroup(chunk, last, [], 0)
  {
    var vals: seq<nat>, pad := [], 0;
    for j := 0 to 4
      invariant pad <= j && |vals| == j && forall k | 0 <= k < j :: vals[k] < 64
      invariant ScanGroup(chunk, last, [], 0) == ScanGroup(chunk, last, vals, pad)
    {
      if chunk[j] == PAD {
        if !last || j < 2 { return Err(BadLength); }
        pad := pad + 1;
        vals := vals + [0];
      } else {
        if pad != 0 { return Err(BadLength); }
        var v := Val(chunk[j]);
        if v.None? { return Err(InvalidChar); }
        vals := vals + [v.value];
      }
    }
    r := Ok(Group(vals, pad));
  }

  // ---- Encoding ----------------------------------------------------------------------------

  /** Up to three bytes as a 24-bit number, missing ones 0. */
  function Number(chunk: seq<byte>): nat
    requires 1 <= |chunk| <= 3
  {
    (chunk[0] as int) * 0x1_0000 + (if |chunk| > 1 then (chunk[1] as int) * 0x100 else 0) + if |chunk| > 2 then chunk[2] as int else 0
  }

  function EncodeGroup(chunk: seq<byte>): (s: seq<byte>)
    requires 1 <= |chunk| <= 3
    ensures |s| == 4
  {
    var n := Number(chunk);
    [Symbol(n / 0x4_0000 % 64), Symbol(n / 0x1000 % 64),
     if |chunk| > 1 then Symbol(n / 0x40 % 64) else PAD, if |chunk| > 2 then Symbol(n % 64) else PAD]
  }

  function Encoded(input: seq<byte>): seq<byte>
    decreases |input|
  {
    if input == [] then []
    else if |input| <= 3 then EncodeGroup(input)
    else EncodeGroup(input[..3]) + Encoded(input[3..])
  }

  lemma EncodedStep(out: seq<byte>, input: seq<byte>, i: nat)
    requires i < |input|
    ensures var j := Min(i + 3, |input|);
      out + Encoded(input[i..]) == out + EncodeGroup(input[i..j]) + Encoded(input[j..])
  {
    hide EncodeGroup;
    var rest, j := input[i..], Min(i + 3, |input|);
    if |rest| > 3 {
      assert rest[..3] == input[i..j] && rest[3..] == input[j..];
    } else {
      assert rest == input[i..j] && input[j..] == [];
    }
  }

  lemma EncodedNone()
    ensures Encoded([]) == []
  {
  }

  method Encode(input: seq<byte>) returns (out: seq<byte>)
    ensures out == Encoded(input)
  {
    hide Encoded, Number;
    out := [];
    var i := 0;
    assert input[0..] == input;
    while i < |input|
      invariant i <= |input| && Encoded(input) == out + Encoded(input[i..])
    {
      var chunk := input[i..Min(i + 3, |input|)];
      var n := Number(chunk);
      EncodedStep(out, input, i);
      ghost var before := out;
      out := out + [Symbol(n / 0x4_0000 % 64)] + [Symbol(n / 0x1000 % 64)];
      out := out + [if |chunk| > 1 then Symbol(n / 0x40 % 64) else PAD];
      out := out + [if |chunk| > 2 then Symbol(n % 64) else PAD];
      assert out == before + EncodeGroup(chunk);
      i := i + |chunk|;
    }
    assert input[|input|..] == [];
    EncodedNone();
  }

  // ---- The alphabet and the groups in figures (section 4 of RFC 4648) -------------------------

  lemma Capitals(v: nat)
    requires v < 26
    ensures Symbol(v) as char == "ABCDEFGHIJKLMNOPQRSTUVWXYZ"[v]
  {
  }

  lemma SmallLetters(v: nat)
    requires v < 26
    ensures Symbol(26 + v) as char == "abcdefghijklmnopqrstuvwxyz"[v]
  {
  }

  lemma TheRest(v: nat)
    requires v < 12
    ensures Symbol(52 + v) as char == "0123456789+/"[v]
  {
  }

  /** Six bits a character, the first byte's highest first; "=" for bytes that are not there. */
  lemma GroupDigits(a: byte, b: byte, c: byte)
    ensures EncodeGroup([a, b, c]) == [Symbol(a / 4), Symbol(a % 4 * 16 + b / 16), Symbol(b % 16 * 4 + c / 64), Symbol(c % 64)]
    ensures EncodeGroup([a, b]) == [Symbol(a / 4), Symbol(a % 4 * 16 + b / 16), Symbol(b % 16 * 4), 61]
    ensures EncodeGroup([a]) == [Symbol(a / 4), Symbol(a % 4 * 16), 61, 61]
  {
    hide EncodeGroup, Symbol;
    GroupOfThree(a, b, c);
    GroupOfTwo(a, b);
    GroupOfOne(a);
  }

  lemma GroupOfThree(a: byte, b: byte, c: byte)
    ensures EncodeGroup([a, b, c]) == [Symbol(a / 4), Symbol(a % 4 * 16 + b / 16), Symbol(b % 16 * 4 + c / 64), Symbol(c % 64)]
  {
    hide Symbol, Number;
    Numbers(a, b, c);
    NumberSextets(a, b, c);
  }

  lemma GroupOfTwo(a: byte, b: byte)
    ensures EncodeGroup([a, b]) == [Symbol(a / 4), Symbol(a % 4 * 16 + b / 16), Symbol(b % 16 * 4), 61]
  {
    hide Symbol, Number;
    Numbers(a, b, 0);
    NumberSextets(a, b, 0);
  }

  lemma GroupOfOne(a: byte)
    ensures EncodeGroup([a]) == [Symbol(a / 4), Symbol(a % 4 * 16), 61, 61]
  {
    hide Symbol, Number;
    Numbers(a, 0, 0);
    NumberSextets(a, 0, 0);
  }

  lemma Numbers(a: byte, b: byte, c: byte)
    ensures Number([a, b, c]) == a as int * 0x1_0000 + b as int * 0x100 + c as int
    ensures Number([a, b]) == a as int * 0x1_0000 + b as int * 0x100
    ensures Number([a]) == a as int * 0x1_0000
  {
  }

  lemma NumberSextets(a: nat, b: nat, c: nat)
    requires a < 256 && b < 256 && c < 256
    ensures var n := a * 0x1_0000 + b * 0x100 + c;
      && n / 0x4_0000 % 64 == a / 4 && n / 0x1000 % 64 == a % 4 * 16 + b / 16
      && n / 0x40 % 64 == b % 16 * 4 + c / 64 && n % 64 == c % 64
  {
    var n := a * 0x1_0000 + b * 0x100 + c;
    var m := 0x400 * a + 4 * b + c / 64;
    assert n == 64 * m + c % 64;
    var l := 16 * a + b / 16;
    assert m == 64 * l + (b % 16 * 4 + c / 64);
    assert l == 64 * (a / 4) + (a % 4 * 16 + b / 16);
    assert n / 0x40 == m && n / 0x1000 == l && n / 0x4_0000 == a / 4;
  }

  /** Group k of the encoding comes from bytes 3k to 3k + 2, as far as there are any. */
  lemma {:induction false} EncodedGroup(input: seq<byte>, k: nat)
    requires 3 * k < |input|
    ensures |Encoded(input)| == (|input| + 2) / 3 * 4
    ensures Encoded(input)[4 * k..4 * k + 4] == EncodeGroup(input[3 * k..Min(3 * k + 3, |input|)])
    decreases |input|
  {
    hide EncodeGroup;
    if |input| <= 3 {
      assert input[0..|input|] == input;
    } else {
      var rest := Encoded(input[3..]);
      EncodedGroup(input[3..], if k == 0 then 0 else k - 1);
      if k == 0 {
        assert input[0..3] == input[..3];
      } else {
        assert input[3..][3 * (k - 1)..Min(3 * k, |input| - 3)] == input[3 * k..Min(3 * k + 3, |input|)];
        assert Encoded(input)[4 * k..4 * k + 4] == rest[4 * (k - 1)..4 * (k - 1) + 4];
      }
    }
  }

  // ---- One group ------------------------------------------------------------------------------

  /** Leading characters of the alphabet. */
  function Symbols(s: seq<byte>): (n: nat)
    ensures n <= |s|
    ensures forall k | 0 <= k < n :: Val(s[k]).Some?
    ensures n < |s| ==> Val(s[n]).None?
  {
    if s == [] || Val(s[0]).None? then 0 else 1 + Symbols(s[1..])
  }

  function Values(s: seq<byte>): (v: seq<nat>)
    requires forall k | 0 <= k < |s| :: Val(s[k]).Some?
    ensures |v| == |s| && forall k | 0 <= k < |s| :: v[k] == Val(s[k]).value < 64
  {
    seq(|s|, k requires 0 <= k < |s| => Val(s[k]).value)
  }

  /** The scan reads the leading symbols and only then can fail. */
  lemma {:induction false} ScanSymbols(chunk: seq<byte>, last: bool, n: nat)
    requires |chunk| == 4 && n <= Symbols(chunk)
    ensures ScanGroup(chunk, last, [], 0) == ScanGroup(chunk, last, Values(chunk[..n]), 0)
    decreases n
  {
    if n == 0 {
      assert Values(chunk[..0]) == [];
    } else {
      ScanSymbols(chunk, last, n - 1);
      assert Values(chunk[..n - 1]) + [Val(chunk[n - 1]).value] == Values(chunk[..n]);
    }
  }

  /** Padding that is allowed at the end: one character or two. */
  predicate Padding(s: seq<byte>) { s == [PAD] || s == [PAD, PAD] }

  /** What a group decodes to, from its leading symbols and what follows them. */
  lemma ScanOutcome(chunk: seq<byte>, last: bool)
    requires |chunk| == 4
    ensures var n := Symbols(chunk);
      ScanGroup(chunk, last, [], 0) ==
        if n == 4 then Ok(Group(Values(chunk), 0))
        else if chunk[n] != PAD then Err(InvalidChar)
        else if last && Padding(chunk[n..]) then Ok(Group(Values(chunk[..n]) + seq(4 - n, _ => 0), 4 - n))
        else Err(BadLength)
  {
    hide Symbols, Val;
    var n := Symbols(chunk);
    ScanSymbols(chunk, last, n);
    var v := Values(chunk[..n]);
    if n == 4 {
      assert chunk[..4] == chunk;
    } else if chunk[n] == PAD && last && n >= 2 {
      if n == 3 {
        assert chunk[3..] == [PAD] && seq(1, _ => 0) == [0];
      } else {
        assert chunk[2..] == [PAD, chunk[3]];
        assert seq(2, _ => 0) == [0, 0] && v + [0] + [0] == v + [0, 0];
        assert ScanGroup(chunk, last, v, 0) == ScanGroup(chunk, last, v + [0], 1);
        assert chunk[3] == PAD ==> ScanGroup(chunk, last, v + [0], 1) == Ok(Group(v + [0] + [0], 2));
      }
    } else if n < 2 {
      assert |chunk[n..]| > 2;
    }
  }

  /** A 24-bit number is the sum of its four base-64 digits. */
  lemma Sextets(n: nat)
    requires n < 0x100_0000
    ensures n == n / 0x4_0000 % 64 * 0x4_0000 + n / 0x1000 % 64 * 0x1000 + n / 0x40 % 64 * 0x40 + n % 64
  {
    var a := n / 0x40;
    var b := a / 0x40;
    assert n / 0x1000 == b && n / 0x4_0000 == b / 0x40;
  }

  lemma ThreeBytes(a: nat, b: nat, c: nat)
    requires a < 0x100 && b < 0x100 && c < 0x100
    ensures var n := a * 0x1_0000 + b * 0x100 + c;
      && n < 0x100_0000 && n / 0x1_0000 % 0x100 == a && n / 0x100 % 0x100 == b && n % 0x100 == c
      && (c == 0 ==> n % 64 == 0) && (b == 0 && c == 0 ==> n / 0x40 % 64 == 0)
  {
    var n := a * 0x1_0000 + b * 0x100 + c;
    var m := n / 0x100;
    assert m == a * 0x100 + b && n / 0x1_0000 == m / 0x100 == a;
    if c == 0 { assert n == 64 * (a * 0x400 + b * 4); }
    if b == 0 && c == 0 { assert n / 0x40 == 64 * (a * 16); }
  }

  lemma NumberDigits(chunk: seq<byte>)
    requires 1 <= |chunk| <= 3
    ensures var n := Number(chunk);
      && n < 0x100_0000 && GroupBytes(n, 3 - |chunk|) == chunk
      && (|chunk| < 3 ==> n % 64 == 0) && (|chunk| < 2 ==> n / 0x40 % 64 == 0)
  {
    ThreeBytes(chunk[0], if |chunk| > 1 then chunk[1] else 0, if |chunk| > 2 then chunk[2] else 0);
  }

  /** A group encoded and scanned again gives its bytes back. */
  lemma GroupRoundTrip(chunk: seq<byte>, last: bool)
    requires 1 <= |chunk| <= 3 && (|chunk| < 3 ==> last)
    ensures var r := ScanGroup(EncodeGroup(chunk), last, [], 0);
      r.Ok? && GroupBytes(Triple(r.value.vals), r.value.pad) == chunk
  {
    hide GroupBytes, Number, ScanGroup, Symbols, Val, Symbol;
    var n, g := Number(chunk), EncodeGroup(chunk);
    NumberDigits(chunk);
    Sextets(n);
    ScanOutcome(g, last);
    var v := ScanGroup(g, last, [], 0).value.vals;
    assert forall k | 0 <= k <= |chunk| :: Val(g[k]).Some?;
    assert |chunk| < 3 ==> g[|chunk| + 1] == PAD;
    assert Symbols(g) == |chunk| + 1;
    assert Triple(v) == n;
  }

  /** Unused bits of the last value are zero: four after two padding characters, two
      after one (section 3.5 of RFC 4648). */
  predicate GroupBitsZero(g: Group)
    requires |g.vals| == 4
  {
    (g.pad == 1 ==> g.vals[2] % 4 == 0) && (g.pad == 2 ==> g.vals[1] % 16 == 0)
  }

  /** Four values below 64 as one number. */
  function Pack(a: nat, b: nat, c: nat, d: nat): nat { a * 0x4_0000 + b * 0x1000 + c * 0x40 + d }

  lemma PackedValues(a: nat, b: nat, c: nat, d: nat)
    requires a < 64 && b < 64 && c < 64 && d < 64
    ensures var t := Pack(a, b, c, d);
      t < 0x100_0000 && t / 0x4_0000 % 64 == a && t / 0x1000 % 64 == b && t / 0x40 % 64 == c && t % 64 == d
  {
    var t := Pack(a, b, c, d);
    var x := t / 0x40;
    assert x == a * 0x1000 + b * 0x40 + c;
    var y := x / 0x40;
    assert y == a * 0x40 + b && t / 0x1000 == y && t / 0x4_0000 == y / 0x40;
  }

  /** The bytes kept of a number are the number with the rest cleared. */
  lemma KeptBytes(t: nat, pad: nat)
    requires t < 0x100_0000 && pad <= 2
    ensures var s := GroupBytes(t, pad);
      |s| == 3 - pad && Number(s) == if pad == 0 then t else if pad == 1 then t / 0x100 * 0x100 else t / 0x1_0000 * 0x1_0000
  {
    var q := t / 0x100;
    assert t / 0x1_0000 == q / 0x100 < 0x100;
  }

  lemma ClearedBits(a: nat, b: nat, c: nat, d: nat)
    requires a < 64 && b < 64 && c < 64 && d < 64
    ensures Pack(a, b, c, d) / 0x100 * 0x100 == Pack(a, b, c / 4 * 4, 0)
    ensures Pack(a, b, c, d) / 0x1_0000 * 0x1_0000 == Pack(a, b / 16 * 16, 0, 0)
  {
    var b1, b0, c1, c0 := b / 16, b % 16, c / 4, c % 4;
    assert Pack(a, b, c, d) / 0x100 == a * 0x400 + b * 16 + c1 by {
      assert Pack(a, b, c, d) == (a * 0x400 + b * 16 + c1) * 0x100 + (c0 * 64 + d);
    }
    assert Pack(a, b, c, d) / 0x1_0000 == a * 4 + b1 by {
      assert Pack(a, b, c, d) == (a * 4 + b1) * 0x1_0000 + (b0 * 0x1000 + c * 64 + d);
    }
  }

  lemma SymbolsDiffer(v: nat, c: byte)
    requires v < 64
    ensures Symbol(v) == c <==> Val(c) == Some(v)
  {
  }

  /** Encoding the bytes of a scanned group gives its values back, less the unused bits. */
  lemma GroupReencodes(chunk: seq<byte>, last: bool)
    requires |chunk| == 4 && ScanGroup(chunk, last, [], 0).Ok?
    ensures var g := ScanGroup(chunk, last, [], 0).value; var bytes := GroupBytes(Triple(g.vals), g.pad);
      && g.pad == 4 - Symbols(chunk) <= 2 && (g.pad > 0 ==> last) && |bytes| == 3 - g.pad
      && (EncodeGroup(bytes) == chunk <==> GroupBitsZero(g))
  {
    hide ScanGroup, Symbols, Val, Symbol, GroupBytes, Number, Pack;
    ScanOutcome(chunk, last);
    var g := ScanGroup(chunk, last, [], 0).value;
    var v := g.vals;
    TripleIsPack(v);
    PackedValues(v[0], v[1], v[2], v[3]);
    KeptBytes(Triple(v), g.pad);
    ClearedBits(v[0], v[1], v[2], v[3]);
    var b := if g.pad == 2 then v[1] / 16 * 16 else v[1];
    var c := if g.pad == 2 then 0 else if g.pad == 1 then v[2] / 4 * 4 else v[2];
    PackedValues(v[0], b, c, if g.pad == 0 then v[3] else 0);
    SymbolsDiffer(v[0], chunk[0]);
    SymbolsDiffer(b, chunk[1]);
    SymbolsDiffer(c, chunk[2]);
    SymbolsDiffer(v[3], chunk[3]);
    if g.pad == 1 {
      assert chunk[3..] == [chunk[3]];
    } else if g.pad == 2 {
      assert chunk[2..] == [chunk[2], chunk[3]];
    }
  }

  lemma TripleIsPack(v: seq<nat>)
    requires |v| == 4
    ensures Triple(v) == Pack(v[0], v[1], v[2], v[3])
  {
  }

  // ---- Whole inputs ----------------------------------------------------------------------------

  /** Decoding undoes encoding, for all inputs. */
  lemma {:induction false} EncodeThenDecode(input: seq<byte>)
    ensures |Encoded(input)| % 4 == 0 && Decoded(Encoded(input)) == Ok(input)
    decreases |input|
  {
    hide ScanGroup, EncodeGroup, GroupBytes, Triple;
    if input == [] {
    } else if |input| <= 3 {
      GroupRoundTrip(input, true);
      var s := EncodeGroup(input);
      assert s[..4] == s && s[4..] == [];
      assert DecodeGroups(s[4..]) == Ok([]);
      assert input + [] == input;
    } else {
      var chunk, rest := input[..3], input[3..];
      EncodeThenDecode(rest);
      EncodedNotEmpty(rest);
      GroupRoundTrip(chunk, false);
      var s := EncodeGroup(chunk) + Encoded(rest);
      assert s[..4] == EncodeGroup(chunk) && s[4..] == Encoded(rest);
      assert chunk + rest == input;
    }
  }

  lemma EncodedNotEmpty(input: seq<byte>)
    requires input != []
    ensures Encoded(input) != []
  {
  }

  lemma {:induction false} SymbolsSplit(a: seq<byte>, b: seq<byte>)
    ensures Symbols(a + b) == if Symbols(a) < |a| then Symbols(a) else |a| + Symbols(b)
  {
    if a == [] {
      assert a + b == b;
    } else {
      assert (a + b)[1..] == a[1..] + b;
      if Val(a[0]).Some? { SymbolsSplit(a[1..], b); }
    }
  }

  /** Why an input is rejected, by its first character outside the alphabet. */
  function Fault(input: seq<byte>): Option<B64Error> {
    var n := Symbols(input);
    if |input| % 4 != 0 then Some(BadLength)
    else if n == |input| || Padding(input[n..]) then None
    else if input[n] != PAD then Some(InvalidChar)
    else Some(BadLength)
  }

  lemma FaultSplit(chunk: seq<byte>, rest: seq<byte>)
    requires |chunk| == 4 && |rest| % 4 == 0
    ensures var n := Symbols(chunk);
      Fault(chunk + rest) ==
        if n == 4 then Fault(rest)
        else if chunk[n] != PAD then Some(InvalidChar)
        else if rest == [] && Padding(chunk[n..]) then None
        else Some(BadLength)
  {
    hide Symbols;
    var input, n := chunk + rest, Symbols(chunk);
    SymbolsSplit(chunk, rest);
    if n < 4 {
      assert input[n..] == chunk[n..] + rest;
      assert rest != [] ==> |input[n..]| > 4;
    } else {
      assert input[4 + Symbols(rest)..] == rest[Symbols(rest)..];
    }
  }

  /** Exactly what is accepted, and which error the rest gets: symbols in fours, the last
      four with one or two padding characters at most. */
  lemma {:induction false} DecodeOutcome(input: seq<byte>)
    ensures Fault(input) == match Decoded(input) { case Ok(_) => None case Err(e) => Some(e) }
    decreases |input|
  {
    if |input| % 4 == 0 && input != [] {
      hide ScanGroup, GroupBytes, Triple, Val, Fault, Symbols, Padding;
      var chunk, rest := input[..4], input[4..];
      assert chunk + rest == input;
      FaultSplit(chunk, rest);
      ScanOutcome(chunk, rest == []);
      DecodeOutcome(rest);
    }
  }

  /** The bits of the last symbol that no byte takes are zero. */
  predicate PadBitsZero(input: seq<byte>)
    requires Fault(input).None?
  {
    var n := Symbols(input);
    n < |input| ==> Val(input[n - 1]).value % (if |input| - n == 1 then 4 else 16) == 0
  }

  lemma LastGroupBits(chunk: seq<byte>)
    requires |chunk| == 4 && ScanGroup(chunk, true, [], 0).Ok? && Fault(chunk).None?
    ensures GroupBitsZero(ScanGroup(chunk, true, [], 0).value) <==> PadBitsZero(chunk)
  {
    hide ScanGroup, Val;
    ScanOutcome(chunk, true);
    var n, v := Symbols(chunk), ScanGroup(chunk, true, [], 0).value.vals;
    assert v[n - 1] == Val(chunk[n - 1]).value;
  }

  /** Encoding undoes decoding exactly on the accepted inputs without stray bits. */
  lemma {:induction false} DecodeThenEncode(input: seq<byte>)
    requires Decoded(input).Ok?
    ensures Fault(input).None? && (Encoded(Decoded(input).value) == input <==> PadBitsZero(input))
    ensures |Decoded(input).value| == 0 <==> |input| == 0
    decreases |input|
  {
    hide ScanGroup, EncodeGroup, GroupBytes, Triple, Val;
    DecodeOutcome(input);
    if input != [] {
      var chunk, rest := input[..4], input[4..];
      assert chunk + rest == input;
      SymbolsSplit(chunk, rest);
      ScanOutcome(chunk, rest == []);
      GroupReencodes(chunk, rest == []);
      var g := ScanGroup(chunk, rest == [], [], 0).value;
      var bytes := GroupBytes(Triple(g.vals), g.pad);
      if rest == [] {
        assert bytes + [] == bytes && chunk == input;
        LastGroupBits(chunk);
        assert DecodeGroups(rest) == Ok([]);
        assert Encoded(bytes) == EncodeGroup(bytes);
      } else {
        DecodeThenEncode(rest);
        var tail := Decoded(rest).value;
        assert (bytes + tail)[..3] == bytes && (bytes + tail)[3..] == tail;
        assert Encoded(bytes + tail) == EncodeGroup(bytes) + Encoded(tail);
        assert chunk + Encoded(tail) == input <==> Encoded(tail) == rest;
      }
    }
  }
}
