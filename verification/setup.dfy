/**
 Bootstrap of the initial execution state from a loaded ELF image: one memory
 region per program header, in header order, then a zero-filled heap that ends
 at the fixed top-of-memory address `0x7FFFFFFC`; the program counter is the
 image's entry point and register 29, the stack pointer, holds that top.

 `Memory`, `Region`, `State` and the ELF image are declared in files this model
 does not include; they are modelled abstractly here: a memory is the list of
 its regions in mount order and `Mount` appends to it.
 */
module Setup {
  import opened Wrappers
  import opened Words
  import Registers

  /** The default heap size, 64 KiB. */
  const SMALL_HEAP_SIZE: u32 := 0x10000

  /** End (exclusive) of the heap and initial stack pointer: the top four bytes stay unmapped. */
  const HEAP_END: u32 := 0x7FFFFFFC

  /** A contiguous span of virtual memory `[start, start + |data|)` with its bytes. */
  datatype Region = Region(start: u32, data: seq<u8>)

  /** The address space: its regions, in mount order. */
  datatype Memory = Memory(regions: seq<Region>)

  /** `Memory::new`: no region mounted. */
  function NewMemory(): (m: Memory)
    ensures |m.regions| == 0
  {
    Memory([])
  }

  /** `Memory::mount`: the region is added after all those mounted before it. */
  function Mount(m: Memory, region: Region): (m': Memory)
    ensures |m'.regions| == |m.regions| + 1
    ensures m'.regions[..|m.regions|] == m.regions
    ensures m'.regions[|m.regions|] == region
  {
    Memory(m.regions + [region])
  }

  /** One loadable segment of the image: where it goes and its initial bytes. */
  datatype ProgramHeader = ProgramHeader(virtualAddress: u32, data: seq<u8>)

  datatype ElfHeader = ElfHeader(programEntry: u32)

  /** The parsed executable image, as the bootstrap consumes it. */
  datatype Elf = Elf(header: ElfHeader, programHeaders: seq<ProgramHeader>)

  /** The 32 general-purpose registers. */
  type RegisterFile = r: seq<u32> | |r| == Registers.SLOT_COUNT witness seq(32, _ => 0)

  /** The CPU state: program counter, register file and owned address space. */
  datatype State = State(programCounter: u32, registers: RegisterFile, memory: Memory)

  /**
   `State::new`, which is not part of this model: it keeps the entry point and
   the memory it is given; the register file it starts from is modelled as all
   zero, and nothing below depends on that choice.
   */
  function NewState(entry: u32, memory: Memory): (s: State)
    ensures s.programCounter == entry && s.memory == memory
  {
    State(entry, seq(32, _ => 0), memory)
  }

  /** The region a program header is mounted as: its bytes, copied, at its virtual address. */
  function SegmentRegion(header: ProgramHeader): (r: Region)
    ensures r.start == header.virtualAddress && r.data == header.data
  {
    Region(header.virtualAddress, header.data)
  }

  /** The `for header in &elf.program_headers` loop: mounts each segment, in order. */
  function MountSegments(m: Memory, headers: seq<ProgramHeader>): (m': Memory)
    ensures |m'.regions| == |m.regions| + |headers|
    ensures m'.regions[..|m.regions|] == m.regions
    ensures forall i :: 0 <= i < |headers| ==> m'.regions[|m.regions| + i] == SegmentRegion(headers[i])
    decreases |headers|
  {
    if headers == [] then m
    else
      var m1 := Mount(m, SegmentRegion(headers[0]));
      var r := MountSegments(m1, headers[1..]);
      assert forall i :: 1 <= i < |headers| ==> r.regions[|m1.regions| + (i - 1)] == SegmentRegion(headers[i]);
      r
  }

  /** The heap region: `heapSize` zero bytes ending at `HEAP_END`. */
  function HeapRegion(heapSize: u32): (r: Region)
    requires heapSize <= HEAP_END
    ensures r.start == HEAP_END - heapSize && |r.data| == heapSize
    ensures r.start + |r.data| == HEAP_END
    ensures forall j :: 0 <= j < |r.data| ==> r.data[j] == 0
  {
    Region(HEAP_END - heapSize, seq(heapSize, _ => 0))
  }

  /** The heap region is the only region of `heapSize` zero bytes that ends at `HEAP_END`. */
  lemma HeapRegionUnique(r: Region, heapSize: u32)
    requires heapSize <= HEAP_END
    requires |r.data| == heapSize && r.start + |r.data| == HEAP_END
    requires forall j :: 0 <= j < |r.data| ==> r.data[j] == 0
    ensures r == HeapRegion(heapSize)
  {
    assert r.data == HeapRegion(heapSize).data;
  }

  /**
   `create_simple_state`. The subtraction `heap_end - heap_size` is on `u32`,
   so callers must keep `heapSize` at most `HEAP_END`.
   */
  function CreateSimpleState(elf: Elf, heapSize: u32): (s: State)
    requires heapSize <= HEAP_END
    ensures |s.memory.regions| == |elf.programHeaders| + 1
    ensures forall i :: 0 <= i < |elf.programHeaders| ==>
              && s.memory.regions[i].start == elf.programHeaders[i].virtualAddress
              && s.memory.regions[i].data == elf.programHeaders[i].data
    ensures var heap := s.memory.regions[|elf.programHeaders|];
              && heap.start == HEAP_END - heapSize
              && |heap.data| == heapSize
              && (forall j :: 0 <= j < heapSize ==> heap.data[j] == 0)
    ensures s.programCounter == elf.header.programEntry
    ensures s.registers[29] == HEAP_END
    ensures forall i :: 0 <= i < Registers.SLOT_COUNT && i != 29 ==>
              s.registers[i] == NewState(elf.header.programEntry, s.memory).registers[i]
  {
    var segments := MountSegments(NewMemory(), elf.programHeaders);
    var memory := Mount(segments, HeapRegion(heapSize));
    var state := NewState(elf.header.programEntry, memory);
    state.(registers := state.registers[29 := HEAP_END])
  }

  /**
   The memory of the bootstrapped state, stated independently of the mounting
   loop: the image's segments in header order, then the heap.
   */
  lemma CreateSimpleStateRegions(elf: Elf, heapSize: u32)
    requires heapSize <= HEAP_END
    ensures var headers := elf.programHeaders;
            CreateSimpleState(elf, heapSize).memory.regions
            == seq(|headers|, i requires 0 <= i < |headers| => SegmentRegion(headers[i])) + [HeapRegion(heapSize)]
  {
  }

  /** The register written is the stack pointer: slot 29 is `StackPointer`. */
  lemma StackPointerIsRegister29(elf: Elf, heapSize: u32)
    requires heapSize <= HEAP_END
    ensures Registers.FromU32(29) == Some(Registers.StackPointer)
    ensures CreateSimpleState(elf, heapSize).registers[Registers.Index(Registers.StackPointer)] == HEAP_END
  {
  }

  /** The heap is the last region mounted and ends exactly at `HEAP_END`. */
  lemma HeapIsLastRegion(elf: Elf, heapSize: u32)
    requires heapSize <= HEAP_END
    ensures var regions := CreateSimpleState(elf, heapSize).memory.regions;
              var heap := regions[|regions| - 1];
              heap.start + |heap.data| == HEAP_END && |heap.data| == heapSize
  {
  }

  /** With the default heap size the heap occupies `[0x7FFEFFFC, 0x7FFFFFFC)`. */
  lemma SmallHeapLayout(elf: Elf)
    ensures var regions := CreateSimpleState(elf, SMALL_HEAP_SIZE).memory.regions;
              var heap := regions[|regions| - 1];
              heap.start == 0x7FFEFFFC && heap.start + |heap.data| == 0x7FFFFFFC
  {
  }
}
