/** The copy-from-user path of src/interrupts.rs: `SYS_WRITE`, which validates the
    caller's range, and `SYS_WRITE_UNCHECKED`, which does not. */
module SysWrite {
  import opened LittleEndian
  import opened AddressSpace

  const MAX_WRITE := 256

  /** -1 as the caller sees it. */
  const REJECTED := 0xFFFF_FFFF_FFFF_FFFF

  /** The n bytes that memory holds from `ptr` on. */
  function BytesAt(load: nat -> byte, ptr: nat, n: nat): (s: seq<byte>)
    ensures |s| == n
  {
    seq(n, i requires 0 <= i < n => load(ptr + i))
  }

  class WriteCall {
    const space: AddressSpace
    /** LAST_WRITE_BUF, LAST_WRITE_LEN, and what went to the console. */
    const buffer: array<byte>
    var length: nat
    var console: seq<byte>

    ghost predicate Ready()
      reads space, space.frames, space.frames.bitmap
    {
      space.Valid() && buffer.Length == MAX_WRITE && buffer as object != space.frames.bitmap
    }

    constructor (space: AddressSpace)
      requires space.Valid()
      ensures this.space == space && Ready() && fresh(buffer) && length == 0 && console == []
    {
      this.space := space;
      buffer := new byte[MAX_WRITE](_ => 0);
      length := 0;
      console := [];
    }

    /** A rejected call changes nothing. An accepted one has at most 256 bytes, and emits
        and records exactly those; when it was validated, ring 3 could have read each of
        them itself. `load` is memory as ring 0 sees it. */
    method Write(ptr: nat, len: nat, validate: bool, load: nat -> byte) returns (rax: nat)
      requires Ready() && ptr < U64 && len < U64
      modifies this`length, this`console, buffer
      ensures Ready()
      ensures rax == 0xFFFF_FFFF_FFFF_FFFF <==>
        len > 256 || (validate && len > 0 &&
          !(ptr + len <= 0x8000_0000_0000 && AllUser(space.pages, ptr, ptr + len)))
      ensures rax == 0xFFFF_FFFF_FFFF_FFFF ==>
        length == old(length) && console == old(console) && buffer[..] == old(buffer[..])
      ensures rax != 0xFFFF_FFFF_FFFF_FFFF ==>
        && rax == len == length <= 256 == buffer.Length && |console| == |old(console)| + len
        && console[..|old(console)|] == old(console) && buffer[len..] == old(buffer[len..])
        && forall i | 0 <= i < len :: console[|old(console)| + i] == buffer[i] == load(ptr + i)
      ensures rax != 0xFFFF_FFFF_FFFF_FFFF && validate ==> AllUser(space.pages, ptr, ptr + len)
    {
      hide AllUser, BytesAt, AddressSpace.Valid;
      if len > MAX_WRITE { return REJECTED; }
      if validate {
        var ok := space.UserRangeOk(ptr, len);
        if !ok { return REJECTED; }
        if len == 0 { NoBytes(ptr); }
      }
      Emit(ptr, len, load);
      rax := len;
      EachByte(load, ptr, len, old(console));
    }

    lemma EachByte(load: nat -> byte, ptr: nat, len: nat, before: seq<byte>)
      requires len <= buffer.Length
      requires console == before + BytesAt(load, ptr, len) && buffer[..len] == BytesAt(load, ptr, len)
      ensures |console| == |before| + len && console[..|before|] == before
      ensures forall i | 0 <= i < len :: console[|before| + i] == buffer[i] == load(ptr + i)
    {
      forall i | 0 <= i < len ensures console[|before| + i] == buffer[i] == load(ptr + i) {
        assert buffer[i] == buffer[..len][i] == BytesAt(load, ptr, len)[i];
      }
    }

    lemma NoBytes(ptr: nat)
      ensures AllUser(space.pages, ptr, ptr)
    {
    }

    method Emit(ptr: nat, len: nat, load: nat -> byte)
      requires buffer.Length == MAX_WRITE && len <= MAX_WRITE
      modifies this`length, this`console, buffer
      ensures length == len
      ensures console == old(console) + BytesAt(load, ptr, len)
      ensures buffer[..len] == BytesAt(load, ptr, len)
      ensures buffer[len..] == old(buffer[len..])
    {
      length := 0;
      for i := 0 to len
        invariant console == old(console) + BytesAt(load, ptr, i)
        invariant buffer[..i] == BytesAt(load, ptr, i)
        invariant buffer[i..] == old(buffer[i..])
      {
        var b := load(ptr + i);
        buffer[i] := b;
        console := console + [b];
        assert BytesAt(load, ptr, i + 1) == BytesAt(load, ptr, i) + [b];
        assert buffer[..i + 1] == buffer[..i] + [b];
      }
      length := len;
    }
  }
}
