/** From GRUB's tag list to the bitmap: `frame_allocator::init` as it is called at boot. */
module BootMemory {
  import opened Common
  import opened LittleEndian
  import opened Frames
  import opened Multiboot

  /** The regions the iterator yields, collected as `init`'s loop consumes them. */
  method Collect(iter: MemoryMapIter) returns (regions: seq<MemoryRegion>)
    requires iter.Valid()
    modifies iter
    ensures regions == old(Remaining(iter.memory, iter.window))
  {
    hide Remaining;
    regions := [];
    var r := iter.Next();
    while r.Some?
      invariant iter.Valid()
      invariant old(Remaining(iter.memory, iter.window)) ==
        regions + (if r.Some? then [r.value] else []) + Remaining(iter.memory, iter.window)
      invariant r.None? ==> Remaining(iter.memory, iter.window) == []
      decreases r.Some?, iter.window.end - iter.window.next
    {
      regions := regions + [r.value];
      r := iter.Next();
    }
  }

  /** `init`; false stands for its two panics, no map and no usable frame. */
  method Init(memory: seq<byte>, addr: nat, kernelStart: u64, kernelEnd: u64, frames: FrameAllocator)
    returns (ok: bool)
    requires Mapped(memory, addr) && frames.bitmap.Length == BITMAP_WORDS
    modifies frames, frames.bitmap
    ensures var parsed := Parsed(memory, addr + 8, addr + ReadU32(memory, addr));
      && (ok <==> parsed.Some? && exists i | 0 <= i < FRAME_COUNT :: InsideSome(i, parsed.value))
      && (ok ==> frames.Valid() && frames.held == {})
      && (ok ==> forall i | 0 <= i < FRAME_COUNT :: i in frames.Free() <==>
            && InsideSome(i, parsed.value)
            && i != 0
            && (RoundsUp(kernelEnd) ==> !Meets(i, kernelStart, kernelEnd))
            && !Meets(i, addr, addr + ReadU32(memory, addr)))
  {
    hide Meets, InsideSome;
    var window := MemoryMap(memory, addr);
    if window.None? { return false; }
    var iter := new MemoryMapIter(memory, window.value);
    var regions := Collect(iter);
    assert Some(regions) == Parsed(memory, addr + 8, addr + ReadU32(memory, addr));
    ok := frames.Init(regions, kernelStart, kernelEnd, addr, addr + ReadU32(memory, addr));
    assert ok <==> exists i | 0 <= i < FRAME_COUNT :: InsideSome(i, regions);
  }

  /** The whole path on a well-formed tag list: frame i is free after boot if and only if
      it lies wholly inside one usable region of the first map tag, below 4 GiB, and meets
      neither frame 0 nor the kernel image nor the boot information. (A kernel image that
      ends so high that rounding its end up overflows is not reserved at all.) */
  method InitFromLayout(memory: seq<byte>, addr: nat, kernelStart: u64, kernelEnd: u64,
                        frames: FrameAllocator, ghost tags: seq<Tag>)
    returns (ok: bool)
    requires Holds(memory, addr, InfoBytes(tags)) && GoodInfo(tags)
    requires |memory| <= BOOT_MAP_LIMIT
    requires frames.bitmap.Length == BITMAP_WORDS
    modifies frames, frames.bitmap
    ensures ok <==> MapOf(tags).Some? && exists i | 0 <= i < 0x10_0000 :: InsideSome(i, MapOf(tags).value)
    ensures ok ==> frames.Valid() && frames.held == {}
    ensures ok ==> forall i | 0 <= i < 0x10_0000 :: i in frames.Free() <==>
      && InsideSome(i, MapOf(tags).value)
      && i != 0
      && (kernelEnd + 4095 < 0x1_0000_0000_0000_0000 ==> !Meets(i, kernelStart, kernelEnd))
      && !Meets(i, addr, addr + |InfoBytes(tags)|)
  {
    ParserReadsLayout(memory, addr, tags);
    hide InfoBytes, InsideSome, Parsed, MapOf;
    ok := Init(memory, addr, kernelStart, kernelEnd, frames);
  }
}
