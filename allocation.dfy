// Inline bump-pointer allocation as emitted by the code stub assembler
// (v8/src/compiler/code-stub-assembler.cc:302-417), read as the behaviour
// of the generated code on one execution.
//
// Memory is a map from word addresses to word contents; a word that is not
// in the map reads as 0.  The runtime call that takes over when the linear
// allocation area is exhausted is not modelled: its result is a parameter,
// and the model records the request the code would send.

module Allocation {
  import opened Tagging

  datatype AllocationSpace = NewSpace | OldSpace

  /** The two flag bits the allocators test; kNone has both clear. */
  datatype AllocationFlags = AllocationFlags(doubleAlignment: bool, pretenured: bool)

  const NoFlags := AllocationFlags(false, false)

  datatype Option<T> = None | Some(value: T)

  /** Runtime::kAllocateInTargetSpace with its tagged size and its flags. */
  datatype RuntimeRequest = AllocateInTargetSpace(taggedSize: int, doubleAlign: bool, space: AllocationSpace)

  /** What one run of the emitted allocation code produces: the tagged
    * object address, the memory afterwards and the runtime call, if any. */
  datatype Allocation = Allocation(address: int, memory: map<int, int>, runtimeCall: Option<RuntimeRequest>)

  /** The external references for the new- and old-space top and limit. */
  datatype SpaceAddresses = SpaceAddresses(newTop: int, newLimit: int, oldTop: int, oldLimit: int)

  function Load(memory: map<int, int>, address: int): int {
    if address in memory then memory[address] else 0
  }

  function TargetSpace(flags: AllocationFlags): AllocationSpace {
    if flags.pretenured then OldSpace else NewSpace
  }

  /** The runtime fallback an allocator requests; the double-align flag is
    * always encoded as false. */
  function RuntimeFallback(arch: Arch, size: int, flags: AllocationFlags): RuntimeRequest {
    AllocateInTargetSpace(SmiTag(arch, size), false, TargetSpace(flags))
  }

  /** AllocateRawUnaligned: bump `top` by `size` if the area up to `limit`
    * has room, otherwise call the runtime. */
  function UnalignedAllocation(arch: Arch, size: int, flags: AllocationFlags,
                               topAddress: int, limitAddress: int,
                               memory: map<int, int>, runtimeResult: int): (r: Allocation)
    ensures r.runtimeCall.Some? ==> r.memory == memory && r.address == runtimeResult
    ensures r.runtimeCall.None? ==> r.memory.Keys == memory.Keys + {topAddress}
    ensures r.runtimeCall.None? ==>
      forall a :: a in memory && a != topAddress ==> r.memory[a] == memory[a]
  {
    var top := Load(memory, topAddress);
    var limit := Load(memory, limitAddress);
    if IntPtrSub(arch, limit, top) < size then
      Allocation(runtimeResult, memory, Some(RuntimeFallback(arch, size, flags)))
    else
      Allocation(IntPtrAdd(arch, top, HeapObjectTag),
                 memory[topAddress := IntPtrAdd(arch, top, size)], None)
  }

  /** The size AllocateRawAligned reserves: one more pointer when double
    * alignment is asked for and `top` is not 8-aligned (the mask 7 keeps
    * the low three bits). */
  function AdjustedSize(arch: Arch, size: int, flags: AllocationFlags, top: int): (r: int)
    ensures r == size || r == IntPtrAdd(arch, size, PointerSize(arch))
    ensures !flags.doubleAlignment ==> r == size
  {
    if flags.doubleAlignment && WordAndLowBits(top, 3) != 0
    then IntPtrAdd(arch, size, PointerSize(arch))
    else size
  }

  /** The filler AdjustedSize makes room for, in bytes. */
  function Padding(arch: Arch, flags: AllocationFlags, top: int): nat {
    if flags.doubleAlignment && top % DoubleSize != 0 then PointerSize(arch) else 0
  }

  /** AllocateRawAligned exactly as the code reads: the loaded `top` and
    * `limit` words, not their addresses, go to the unaligned allocator,
    * with no flags, and the filler and the new top are stored whichever
    * path was taken. */
  function AlignedAllocationAsWritten(arch: Arch, size: int, flags: AllocationFlags,
                                      topAddress: int, limitAddress: int, filler: int,
                                      memory: map<int, int>, runtimeResult: int): (r: Allocation)
    ensures topAddress in r.memory
    ensures r.memory[topAddress] == IntPtrAdd(arch, Load(memory, topAddress),
                                              AdjustedSize(arch, size, flags, Load(memory, topAddress)))
  {
    var top := Load(memory, topAddress);
    var limit := Load(memory, limitAddress);
    var adjusted := AdjustedSize(arch, size, flags, top);
    var inner := UnalignedAllocation(arch, adjusted, NoFlags, top, limit, memory, runtimeResult);
    var needsFiller := adjusted != size;
    var filled := if needsFiller then inner.memory[top := filler] else inner.memory;
    var address := if needsFiller then IntPtrAdd(arch, inner.address, PointerSize(arch)) else inner.address;
    Allocation(address, filled[topAddress := IntPtrAdd(arch, top, adjusted)], inner.runtimeCall)
  }

  /** AllocateRawAligned as evidently intended: the unaligned allocator gets
    * the top and limit addresses and the caller's flags, and the filler and
    * the new top are stored only when the inline path allocated. */
  function AlignedAllocation(arch: Arch, size: int, flags: AllocationFlags,
                             topAddress: int, limitAddress: int, filler: int,
                             memory: map<int, int>, runtimeResult: int): (r: Allocation)
    ensures r.runtimeCall.Some? ==> r.memory == memory && r.address == runtimeResult
  {
    var top := Load(memory, topAddress);
    var adjusted := AdjustedSize(arch, size, flags, top);
    var inner := UnalignedAllocation(arch, adjusted, flags, topAddress, limitAddress, memory, runtimeResult);
    if inner.runtimeCall.Some? then
      inner
    else
      var needsFiller := adjusted != size;
      var filled := if needsFiller then inner.memory[top := filler] else inner.memory;
      var address := if needsFiller then IntPtrAdd(arch, inner.address, PointerSize(arch)) else inner.address;
      Allocation(address, filled[topAddress := IntPtrAdd(arch, top, adjusted)], None)
  }

  function TopAddress(addresses: SpaceAddresses, space: AllocationSpace): int {
    if space.NewSpace? then addresses.newTop else addresses.oldTop
  }

  function LimitAddress(addresses: SpaceAddresses, space: AllocationSpace): int {
    if space.NewSpace? then addresses.newLimit else addresses.oldLimit
  }

  /** Allocate: picks the space's top and limit by the pretenure flag and
    * aligns only on a 32-bit host, where pointers are 4 bytes. */
  function SpaceAllocation(arch: Arch, size: int, flags: AllocationFlags, addresses: SpaceAddresses,
                           filler: int, memory: map<int, int>, runtimeResult: int): (r: Allocation)
    ensures r.runtimeCall.Some? ==> r.memory == memory && r.address == runtimeResult
  {
    var space := TargetSpace(flags);
    var topAddress := TopAddress(addresses, space);
    var limitAddress := LimitAddress(addresses, space);
    if arch.Arch32? && flags.doubleAlignment then
      AlignedAllocation(arch, size, flags, topAddress, limitAddress, filler, memory, runtimeResult)
    else
      UnalignedAllocation(arch, size, flags, topAddress, limitAddress, memory, runtimeResult)
  }

  // ---------------------------------------------------------------------
  // The emitted code run against a heap whose words change in place

  class Heap {
    var memory: map<int, int>

    constructor(memory: map<int, int>)
      ensures this.memory == memory
    {
      this.memory := memory;
    }

    method AllocateRawUnaligned(arch: Arch, size: int, flags: AllocationFlags,
                                topAddress: int, limitAddress: int, runtimeResult: int)
      returns (address: int, runtimeCall: Option<RuntimeRequest>)
      modifies this
      ensures Allocation(address, memory, runtimeCall)
           == UnalignedAllocation(arch, size, flags, topAddress, limitAddress, old(memory), runtimeResult)
    {
      var top := Load(memory, topAddress);
      var limit := Load(memory, limitAddress);
      if IntPtrSub(arch, limit, top) < size {
        runtimeCall := Some(RuntimeFallback(arch, size, flags));
        address := runtimeResult;
      } else {
        memory := memory[topAddress := IntPtrAdd(arch, top, size)];
        address := IntPtrAdd(arch, top, HeapObjectTag);
        runtimeCall := None;
      }
    }

    method AllocateRawAligned(arch: Arch, size: int, flags: AllocationFlags,
                              topAddress: int, limitAddress: int, filler: int, runtimeResult: int)
      returns (address: int, runtimeCall: Option<RuntimeRequest>)
      modifies this
      ensures Allocation(address, memory, runtimeCall)
           == AlignedAllocation(arch, size, flags, topAddress, limitAddress, filler, old(memory), runtimeResult)
    {
      var top := Load(memory, topAddress);
      var adjusted := AdjustedSize(arch, size, flags, top);
      address, runtimeCall := AllocateRawUnaligned(arch, adjusted, flags, topAddress, limitAddress, runtimeResult);
      if runtimeCall.None? {
        if adjusted != size {
          memory := memory[top := filler];
          address := IntPtrAdd(arch, address, PointerSize(arch));
        }
        memory := memory[topAddress := IntPtrAdd(arch, top, adjusted)];
      }
    }

    method Allocate(arch: Arch, size: int, flags: AllocationFlags, addresses: SpaceAddresses,
                    filler: int, runtimeResult: int)
      returns (address: int, runtimeCall: Option<RuntimeRequest>)
      modifies this
      ensures Allocation(address, memory, runtimeCall)
           == SpaceAllocation(arch, size, flags, addresses, filler, old(memory), runtimeResult)
    {
      var space := TargetSpace(flags);
      var topAddress := TopAddress(addresses, space);
      var limitAddress := LimitAddress(addresses, space);
      if arch.Arch32? && flags.doubleAlignment {
        address, runtimeCall := AllocateRawAligned(arch, size, flags, topAddress, limitAddress, filler, runtimeResult);
      } else {
        address, runtimeCall := AllocateRawUnaligned(arch, size, flags, topAddress, limitAddress, runtimeResult);
      }
    }
  }

  // ---------------------------------------------------------------------
  // Properties

  /** A linear allocation area: non-negative word pointers with `top` at
    * most `limit`, and room for the tag above `limit`. */
  predicate LinearArea(arch: Arch, top: int, limit: int) {
    0 <= top <= limit && IsWord(arch, limit + PointerSize(arch))
  }

  /** The runtime is called exactly when the area has fewer than `size`
    * bytes left. */
  lemma UnalignedRuntimePath(arch: Arch, size: int, flags: AllocationFlags,
                             topAddress: int, limitAddress: int,
                             memory: map<int, int>, runtimeResult: int)
    requires LinearArea(arch, Load(memory, topAddress), Load(memory, limitAddress))
    ensures var r := UnalignedAllocation(arch, size, flags, topAddress, limitAddress, memory, runtimeResult);
            (r.runtimeCall.Some? <==> Load(memory, limitAddress) - Load(memory, topAddress) < size)
  {
  }

  /** On the inline path the object starts at the old top, tagged, and the
    * top moves past it without crossing the limit; nothing else changes. */
  lemma UnalignedFastPath(arch: Arch, size: int, flags: AllocationFlags,
                          topAddress: int, limitAddress: int,
                          memory: map<int, int>, runtimeResult: int)
    requires LinearArea(arch, Load(memory, topAddress), Load(memory, limitAddress))
    requires 0 <= size <= Load(memory, limitAddress) - Load(memory, topAddress)
    ensures var top := Load(memory, topAddress);
            var r := UnalignedAllocation(arch, size, flags, topAddress, limitAddress, memory, runtimeResult);
            && r.runtimeCall == None
            && r.address == top + HeapObjectTag
            && r.memory == memory[topAddress := top + size]
            && top + size <= Load(memory, limitAddress)
  {
  }

  /** On the runtime path memory is untouched, the result is the runtime's,
    * and the request carries the tagged size and the space the pretenure
    * flag selects, without double alignment. */
  lemma UnalignedRuntimeRequest(arch: Arch, size: int, flags: AllocationFlags,
                                topAddress: int, limitAddress: int,
                                memory: map<int, int>, runtimeResult: int)
    ensures var r := UnalignedAllocation(arch, size, flags, topAddress, limitAddress, memory, runtimeResult);
            r.runtimeCall.Some? ==>
              && r.memory == memory
              && r.address == runtimeResult
              && r.runtimeCall.value.taggedSize == SmiTag(arch, size)
              && !r.runtimeCall.value.doubleAlign
              && (r.runtimeCall.value.space == OldSpace <==> flags.pretenured)
  {
  }

  /** With the area's words read from their addresses, the aligned
    * allocator's inline path puts the object right after the filler, on an
    * 8-byte boundary when asked to, inside the area, and changes only the
    * filler word and the top. */
  lemma AlignedFastPath(arch: Arch, size: int, flags: AllocationFlags,
                        topAddress: int, limitAddress: int, filler: int,
                        memory: map<int, int>, runtimeResult: int)
    requires LinearArea(arch, Load(memory, topAddress), Load(memory, limitAddress))
    requires Load(memory, topAddress) % PointerSize(arch) == 0
    requires 0 <= size
    requires size + Padding(arch, flags, Load(memory, topAddress))
             <= Load(memory, limitAddress) - Load(memory, topAddress)
    ensures var top := Load(memory, topAddress);
            var pad := Padding(arch, flags, top);
            var r := AlignedAllocation(arch, size, flags, topAddress, limitAddress, filler, memory, runtimeResult);
            && r.runtimeCall == None
            && r.address == top + pad + HeapObjectTag
            && (flags.doubleAlignment ==> (r.address - HeapObjectTag) % DoubleSize == 0)
            && r.address - HeapObjectTag + size <= Load(memory, limitAddress)
            && r.memory == (if pad == 0 then memory else memory[top := filler])[topAddress := top + size + pad]
  {
    var top := Load(memory, topAddress);
    var pad := Padding(arch, flags, top);
    var adjusted := size + pad;
    AdjustedSizeIsPadded(arch, size, flags, top);
    UnalignedFastPath(arch, adjusted, flags, topAddress, limitAddress, memory, runtimeResult);
    var inner := UnalignedAllocation(arch, adjusted, flags, topAddress, limitAddress, memory, runtimeResult);
    var r := AlignedAllocation(arch, size, flags, topAddress, limitAddress, filler, memory, runtimeResult);
    if pad == 0 {
      assert r.memory == inner.memory[topAddress := top + adjusted];
    } else {
      assert r.address == IntPtrAdd(arch, top + HeapObjectTag, PointerSize(arch));
      assert r.memory == inner.memory[top := filler][topAddress := top + adjusted];
      assert r.memory == memory[top := filler][topAddress := top + adjusted];
    }
    if flags.doubleAlignment {
      PaddingAligns(arch, flags, top);
    }
  }

  /** Without overflow, the adjusted size is the size plus the padding. */
  lemma AdjustedSizeIsPadded(arch: Arch, size: int, flags: AllocationFlags, top: int)
    requires 0 <= size && IsWord(arch, size + PointerSize(arch))
    ensures AdjustedSize(arch, size, flags, top) == size + Padding(arch, flags, top)
  {
    assert WordAndLowBits(top, 3) == top % DoubleSize;
  }

  /** The padding moves a pointer-aligned top onto an 8-byte boundary. */
  lemma PaddingAligns(arch: Arch, flags: AllocationFlags, top: int)
    requires flags.doubleAlignment && top % PointerSize(arch) == 0
    ensures (top + Padding(arch, flags, top)) % DoubleSize == 0
  {
    if arch.Arch32? {
      assert top % DoubleSize == 0 || top % DoubleSize == 4;
    }
  }

  /** The aligned allocator calls the runtime exactly when the area cannot
    * hold the object and its filler; it then changes no memory and asks
    * for the space the pretenure flag selects. */
  lemma AlignedRuntimePath(arch: Arch, size: int, flags: AllocationFlags,
                           topAddress: int, limitAddress: int, filler: int,
                           memory: map<int, int>, runtimeResult: int)
    requires LinearArea(arch, Load(memory, topAddress), Load(memory, limitAddress))
    requires 0 <= size && IsWord(arch, size + PointerSize(arch))
    ensures var top := Load(memory, topAddress);
            var r := AlignedAllocation(arch, size, flags, topAddress, limitAddress, filler, memory, runtimeResult);
            && (r.runtimeCall.Some? <==> Load(memory, limitAddress) - top < size + Padding(arch, flags, top))
            && (r.runtimeCall.Some? ==>
                  && r.memory == memory
                  && r.address == runtimeResult
                  && (r.runtimeCall.value.space == OldSpace <==> flags.pretenured))
  {
    var top := Load(memory, topAddress);
    AdjustedSizeIsPadded(arch, size, flags, top);
    UnalignedRuntimePath(arch, size + Padding(arch, flags, top), flags, topAddress, limitAddress, memory, runtimeResult);
  }

  /** Allocate inspects the top and limit of the space the pretenure flag
    * selects, falls back to the runtime for that same space, and on the
    * inline path advances only that space's top (and writes the filler on
    * a 32-bit host when double alignment needs one). */
  lemma AllocateTargetsOneSpace(arch: Arch, size: int, flags: AllocationFlags, addresses: SpaceAddresses,
                                filler: int, memory: map<int, int>, runtimeResult: int)
    requires var space := TargetSpace(flags);
             && LinearArea(arch, Load(memory, TopAddress(addresses, space)), Load(memory, LimitAddress(addresses, space)))
             && Load(memory, TopAddress(addresses, space)) % PointerSize(arch) == 0
             && 0 <= size && IsWord(arch, size + PointerSize(arch))
    ensures var space := TargetSpace(flags);
            var top := Load(memory, TopAddress(addresses, space));
            var limit := Load(memory, LimitAddress(addresses, space));
            var pad := if arch.Arch32? then Padding(arch, flags, top) else 0;
            var r := SpaceAllocation(arch, size, flags, addresses, filler, memory, runtimeResult);
            && (r.runtimeCall.Some? <==> limit - top < size + pad)
            && (r.runtimeCall.Some? ==> r.runtimeCall.value.space == space)
            && (r.runtimeCall.None? ==>
                  && r.address == top + pad + HeapObjectTag
                  && r.memory == (if pad == 0 then memory else memory[top := filler])
                                   [TopAddress(addresses, space) := top + size + pad])
  {
    var space := TargetSpace(flags);
    var topAddress := TopAddress(addresses, space);
    var limitAddress := LimitAddress(addresses, space);
    var top := Load(memory, topAddress);
    var limit := Load(memory, limitAddress);
    if arch.Arch32? && flags.doubleAlignment {
      AlignedRuntimePath(arch, size, flags, topAddress, limitAddress, filler, memory, runtimeResult);
      if size + Padding(arch, flags, top) <= limit - top {
        AlignedFastPath(arch, size, flags, topAddress, limitAddress, filler, memory, runtimeResult);
      }
    } else {
      if arch.Arch32? {
        assert Padding(arch, flags, top) == 0;
      }
      UnalignedRuntimePath(arch, size, flags, topAddress, limitAddress, memory, runtimeResult);
      UnalignedRuntimeRequest(arch, size, flags, topAddress, limitAddress, memory, runtimeResult);
      if size <= limit - top {
        UnalignedFastPath(arch, size, flags, topAddress, limitAddress, memory, runtimeResult);
      }
    }
  }

  // ---------------------------------------------------------------------
  // The aligned allocator as written

  /** The code hands the loaded top (1000) and limit (2000) to the unaligned
    * allocator as if they were the addresses of the top and limit.  It then
    * reads the words stored at 1000 and 2000, returns an object at 5000,
    * outside the area, and overwrites the word at 1000 with a bogus top;
    * the intended allocator returns the object at 1000. */
  lemma AlignedAsWrittenMisreadsTop()
    ensures var memory := map[100 := 1000, 104 := 2000, 1000 := 5000, 2000 := 6000];
            var flags := AllocationFlags(true, false);
            var asWritten := AlignedAllocationAsWritten(Arch32, 16, flags, 100, 104, 7, memory, 0);
            var intended := AlignedAllocation(Arch32, 16, flags, 100, 104, 7, memory, 0);
            && asWritten.address == 5000 + HeapObjectTag
            && asWritten.memory[1000] == 5016
            && intended.address == 1000 + HeapObjectTag
            && intended.memory == memory[100 := 1016]
  {
    var memory := map[100 := 1000, 104 := 2000, 1000 := 5000, 2000 := 6000];
    var flags := AllocationFlags(true, false);
    assert Load(memory, 100) == 1000 && Load(memory, 104) == 2000;
    assert Load(memory, 1000) == 5000 && Load(memory, 2000) == 6000;
    AdjustedSizeIsPadded(Arch32, 16, flags, 1000);
    var inner := UnalignedAllocation(Arch32, 16, NoFlags, 1000, 2000, memory, 0);
    assert inner == Allocation(5001, memory[1000 := 5016], None);
    var direct := UnalignedAllocation(Arch32, 16, flags, 100, 104, memory, 0);
    assert direct == Allocation(1001, memory[100 := 1016], None);
  }

  /** With a pretenured request and an area too small (top 1000, limit
    * 1008, 16 bytes wanted), the code as written asks the runtime for new
    * space, because it passes no flags, and then still moves the old-space
    * top to 1016, past the limit.  The intended allocator asks for old space
    * and leaves memory alone. */
  lemma AlignedAsWrittenRuntimeFallback()
    ensures var memory := map[100 := 1000, 104 := 1008];
            var flags := AllocationFlags(true, true);
            var asWritten := AlignedAllocationAsWritten(Arch32, 16, flags, 100, 104, 7, memory, 0);
            var intended := AlignedAllocation(Arch32, 16, flags, 100, 104, 7, memory, 0);
            && asWritten.runtimeCall == Some(AllocateInTargetSpace(SmiTag(Arch32, 16), false, NewSpace))
            && asWritten.memory[100] == 1016 > 1008
            && intended.runtimeCall == Some(AllocateInTargetSpace(SmiTag(Arch32, 16), false, OldSpace))
            && intended.memory == memory
  {
    var memory := map[100 := 1000, 104 := 1008];
    var flags := AllocationFlags(true, true);
    assert Load(memory, 100) == 1000 && Load(memory, 104) == 1008;
    assert Load(memory, 1000) == 0 && Load(memory, 1008) == 0;
    AdjustedSizeIsPadded(Arch32, 16, flags, 1000);
    var inner := UnalignedAllocation(Arch32, 16, NoFlags, 1000, 1008, memory, 0);
    assert inner == Allocation(0, memory, Some(RuntimeFallback(Arch32, 16, NoFlags)));
    var direct := UnalignedAllocation(Arch32, 16, flags, 100, 104, memory, 0);
    assert direct == Allocation(0, memory, Some(RuntimeFallback(Arch32, 16, flags)));
  }
}
