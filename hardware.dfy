/** The simulated MIPS machine as the user-program layer sees it: its
    constants, the translation-entry record shared by the TLB and the page
    tables, the physical frame map, and the machine state (registers, main
    memory, TLB, active page table). */
module Hardware {

  newtype byte = x: int | 0 <= x < 256

  // Sizes of the simulated machine (the stock Nachos values).
  const PageSize: nat := 128
  const NumPhysPages: nat := 32
  const MemorySize: nat := NumPhysPages * PageSize
  const TLBSize: nat := 4
  const UserStackSize: nat := 1024

  // Register file layout.
  const NumTotalRegs: nat := 40
  const StackReg: nat := 29
  const PCReg: nat := 34
  const NextPCReg: nat := 35
  const PrevPCReg: nat := 36
  const BadVAddrReg: nat := 39

  function Min(a: int, b: int): int
  {
    if a <= b then a else b
  }

  /** The value a C `int` holds after an assignment of `x`: 32-bit two's
      complement wrap-around. */
  function Int32(x: int): (r: int)
    ensures -0x8000_0000 <= r < 0x8000_0000
    ensures (x - r) % 0x1_0000_0000 == 0
    ensures -0x8000_0000 <= x < 0x8000_0000 ==> r == x
  {
    (x + 0x8000_0000) % 0x1_0000_0000 - 0x8000_0000
  }

  /** One translation, used both for a TLB slot and for a page-table entry.
      `interval` is the recency counter, `replace` the FIFO "next victim"
      flag (TLB only) and `tid` the owning thread (inverted table only). */
  datatype TranslationEntry = TranslationEntry(
    virtualPage: int,
    physicalPage: int,
    valid: bool,
    use: bool,
    dirty: bool,
    readOnly: bool,
    noSwap: bool,
    interval: int,
    replace: bool,
    tid: int)

  /** Number of clear (free) bits. */
  function FreeCount(bits: seq<bool>): (r: nat)
    ensures r <= |bits|
  {
    if bits == [] then 0 else (if bits[0] then 0 else 1) + FreeCount(bits[1..])
  }

  lemma {:induction false} FreeCountZero(bits: seq<bool>)
    ensures FreeCount(bits) == 0 <==> forall j :: 0 <= j < |bits| ==> bits[j]
  {
    if bits != [] {
      FreeCountZero(bits[1..]);
      assert forall j :: 1 <= j < |bits| ==> bits[j] == bits[1..][j - 1];
    }
  }

  lemma {:induction false} FreeCountMark(bits: seq<bool>, k: nat)
    requires k < |bits| && !bits[k]
    ensures FreeCount(bits[k := true]) == FreeCount(bits) - 1
  {
    if k > 0 {
      assert bits[k := true][1..] == bits[1..][k - 1 := true];
      FreeCountMark(bits[1..], k - 1);
    }
  }

  /** The physical frame map (`memMap`). One bit per frame; a set bit is a
      frame in use. */
  class FrameMap {
    const bits: array<bool>

    constructor ()
      ensures fresh(bits) && bits.Length == NumPhysPages
      ensures forall j :: 0 <= j < bits.Length ==> !bits[j]
    {
      bits := new bool[NumPhysPages](_ => false);
    }

    /** Allocates a free frame, or answers -1 when every frame is in use.
        The contract does not say which free frame is chosen. */
    method Find() returns (r: int)
      modifies bits
      ensures r == -1 <==> FreeCount(old(bits[..])) == 0
      ensures r == -1 ==> bits[..] == old(bits[..])
      ensures r != -1 ==> 0 <= r < bits.Length && !old(bits[r])
      ensures r != -1 ==> bits[..] == old(bits[..])[r := true]
      ensures r != -1 ==> FreeCount(bits[..]) == FreeCount(old(bits[..])) - 1
    {
      FreeCountZero(bits[..]);
      var i := 0;
      while i < bits.Length
        invariant 0 <= i <= bits.Length
        invariant forall j :: 0 <= j < i ==> bits[j]
      {
        if !bits[i] {
          FreeCountMark(bits[..], i);
          bits[i] := true;
          return i;
        }
        i := i + 1;
      }
      r := -1;
    }

    /** Marks every frame free. */
    method Refresh()
      modifies bits
      ensures forall j :: 0 <= j < bits.Length ==> !bits[j]
    {
      forall j | 0 <= j < bits.Length {
        bits[j] := false;
      }
    }
  }

  /** The machine state the kernel touches. `tlb` is null unless the machine
      translates through a TLB; `pageTable`/`pageTableSize` designate the
      active page table. */
  class Machine {
    const registers: array<int>
    const mainMemory: array<byte>
    const tlb: array?<TranslationEntry>
    const memMap: FrameMap
    var pageTable: array<TranslationEntry>
    var pageTableSize: int

    ghost predicate Valid()
    {
      registers.Length == NumTotalRegs &&
      mainMemory.Length == MemorySize &&
      memMap.bits.Length == NumPhysPages &&
      (tlb != null ==> tlb.Length == TLBSize)
    }

    constructor (useTlb: bool)
      ensures Valid() && (tlb != null <==> useTlb)
      ensures fresh(registers) && fresh(mainMemory) && (tlb != null ==> fresh(tlb)) && fresh(memMap) && fresh(memMap.bits)
    {
      registers := new int[NumTotalRegs](_ => 0);
      mainMemory := new byte[MemorySize](_ => 0);
      if useTlb {
        tlb := new TranslationEntry[TLBSize];
      } else {
        tlb := null;
      }
      memMap := new FrameMap();
      pageTable := new TranslationEntry[0];
      pageTableSize := 0;
    }
  }
}
