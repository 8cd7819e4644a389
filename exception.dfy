/** The kernel's entry point from user mode: the PC advance after a system
    call, the page-fault resolver (TLB refill with LRU or FIFO replacement,
    or demand paging through the inverted page table) and the dispatch on
    the kind of exception. */
module Exception {
  import opened Hardware
  import opened Bytes
  import opened Replacement

  datatype ExceptionType =
    | NoException
    | SyscallException
    | PageFaultException
    | ReadOnlyException
    | BusErrorException
    | AddressErrorException
    | OverflowException
    | IllegalInstrException

  /** File positions are C `int`s: byte offsets within a swap file must
      stay below 2^31. */
  const MaxFilePosition: nat := 0x8000_0000

  // System call codes, passed in register 2.
  const SC_Halt: int := 0
  const SC_Exit: int := 1

  /** What the handler leaves the kernel to do: resume the user program,
      halt the machine, finish the current thread with an exit status, or
      abort on an exception it does not handle. */
  datatype Outcome = Resumed | HaltRequested | ExitRequested(status: int) | Fatal

  /** The request a system call with code `code` and first argument `arg`
      makes. */
  function SyscallOutcome(code: int, arg: int): Outcome
  {
    if code == SC_Halt then HaltRequested
    else if code == SC_Exit then ExitRequested(arg)
    else Resumed
  }

  /** Advances the program counters past the system-call instruction. */
  method SyscallEnd(m: Machine)
    requires m.Valid()
    modifies m.registers
    ensures m.registers[PrevPCReg] == old(m.registers[PCReg])
    ensures m.registers[PCReg] == old(m.registers[NextPCReg])
    ensures m.registers[NextPCReg] == Int32(old(m.registers[NextPCReg]) + 4)
    ensures forall r :: 0 <= r < NumTotalRegs && r != PrevPCReg && r != PCReg && r != NextPCReg ==>
              m.registers[r] == old(m.registers[r])
  {
    var pc := m.registers[PCReg];
    m.registers[PrevPCReg] := pc;
    pc := m.registers[NextPCReg];
    m.registers[PCReg] := pc;
    pc := Int32(pc + 4);
    m.registers[NextPCReg] := pc;
  }

  /** A 32-bit register value read as unsigned. */
  function Unsigned(x: int): (u: nat)
    ensures u < 0x1_0000_0000 && (x - u) % 0x1_0000_0000 == 0
    ensures 0 <= x < 0x1_0000_0000 ==> u == x
  {
    x % 0x1_0000_0000
  }

  /** The virtual page holding the faulting address. */
  function FaultPage(badVAddr: int): (vpn: nat)
    ensures vpn * PageSize <= Unsigned(badVAddr) < (vpn + 1) * PageSize
    ensures vpn < 0x1_0000_0000 / PageSize
  {
    Unsigned(badVAddr) / PageSize
  }

  /** The first scan of a TLB fault: fills the lowest invalid slot with
      `vpn` and answers its index, or answers TLBSize when every slot is
      valid and nothing was changed. */
  method FillInvalidSlot(m: Machine, vpn: int) returns (i: int)
    requires m.Valid() && m.tlb != null
    modifies m.tlb
    ensures i == if FirstInvalid(old(m.tlb[..])) == -1 then TLBSize else FirstInvalid(old(m.tlb[..]))
    ensures i < TLBSize ==> m.tlb[..] == old(m.tlb[..])[i := Filled(old(m.tlb[i]), vpn, i)]
    ensures i == TLBSize ==> m.tlb[..] == old(m.tlb[..])
  {
    i := 0;
    while i < TLBSize
      invariant 0 <= i <= TLBSize
      invariant forall j :: 0 <= j < i ==> m.tlb[j].valid
      invariant m.tlb[..] == old(m.tlb[..])
    {
      if !m.tlb[i].valid {
        var e := m.tlb[i].(valid := true, interval := 0);
        if i == 0 {
          e := e.(replace := true);
        }
        m.tlb[i] := e.(physicalPage := vpn, virtualPage := vpn);
        return;
      }
      i := i + 1;
    }
  }

  /** The largest-interval scan over the first `n` entries of `a`, skipping
      invalid entries when `validOnly`: the index of the first entry with the
      largest interval, or -1 when no entry beats the starting maximum -1. */
  method LargestInterval(a: array<TranslationEntry>, n: nat, validOnly: bool) returns (id: int)
    requires n <= a.Length
    ensures id == FirstLargest(a[..n], validOnly)
  {
    id := -1;
    var maxIntv := -1;
    var i := 0;
    while i < n
      invariant 0 <= i <= n
      invariant id == FirstLargest(a[..i], validOnly)
      invariant maxIntv == if id == -1 then -1 else a[id].interval
    {
      assert a[..i + 1][..i] == a[..i];
      if (a[i].valid || !validOnly) && a[i].interval > maxIntv {
        maxIntv := a[i].interval;
        id := i;
      }
      i := i + 1;
    }
    assert a[..n] == a[..i];
  }

  /** A TLB miss on page `vpn` in the LRU build. */
  method PageFaultTlbLru(m: Machine, vpn: int)
    requires m.Valid() && m.tlb != null
    requires FirstInvalid(m.tlb[..]) == -1 ==> FirstLargest(m.tlb[..], false) >= 0
    modifies m.tlb
    ensures m.tlb[..] == TlbFaultLru(old(m.tlb[..]), vpn)
  {
    var i := FillInvalidSlot(m, vpn);
    if i == TLBSize {
      var lruId := LargestInterval(m.tlb, TLBSize, false);
      assert m.tlb[..TLBSize] == m.tlb[..];
      m.tlb[lruId] := m.tlb[lruId].(interval := 0, physicalPage := vpn, virtualPage := vpn);
    }
  }

  /** A TLB miss on page `vpn` in the FIFO build. */
  method PageFaultTlbFifo(m: Machine, vpn: int)
    requires m.Valid() && m.tlb != null
    requires FirstInvalid(m.tlb[..]) == -1 ==> FirstReplace(m.tlb[..]) >= 0
    modifies m.tlb
    ensures m.tlb[..] == TlbFaultFifo(old(m.tlb[..]), vpn)
  {
    var i := FillInvalidSlot(m, vpn);
    if i == TLBSize {
      ghost var s := m.tlb[..];
      var fifoId := -1;
      i := 0;
      while i < TLBSize
        invariant 0 <= i <= TLBSize
        invariant forall j :: 0 <= j < i ==> !m.tlb[j].replace
        invariant m.tlb[..] == s
      {
        if m.tlb[i].replace {
          fifoId := i;
          m.tlb[i] := m.tlb[i].(replace := false);
          m.tlb[(i + 1) % TLBSize] := m.tlb[(i + 1) % TLBSize].(replace := true);
          break;
        }
        i := i + 1;
      }
      assert fifoId == FirstReplace(s);
      m.tlb[fifoId] := m.tlb[fifoId].(physicalPage := vpn, virtualPage := vpn);
    }
  }

  /** Entry `e` of the inverted table installed for page `vpn` of thread
      `tid` in frame `ppn`. */
  function Installed(e: TranslationEntry, vpn: int, ppn: int, tid: int): TranslationEntry
  {
    e.(virtualPage := vpn, physicalPage := ppn, dirty := false, valid := true,
       use := true, interval := 0, tid := tid)
  }

  /** Every valid entry among the first NumPhysPages of the inverted table
      names the frame it sits at. */
  ghost predicate DirectMapped(t: seq<TranslationEntry>)
  {
    forall f :: 0 <= f < |t| && f < NumPhysPages && t[f].valid ==> t[f].physicalPage == f
  }

  /** In a direct-mapped table no two valid entries share a frame. */
  lemma DirectMappedDistinct(t: seq<TranslationEntry>, i: nat, j: nat)
    requires DirectMapped(t) && i < j < |t| && j < NumPhysPages && t[i].valid && t[j].valid
    ensures t[i].physicalPage != t[j].physicalPage
  {
  }

  /** The victim of the inverted-table scan exists, its owner has a swap
      file, and a dirty victim names a real frame and a page of its owner
      whose byte offset is a valid file position. */
  ghost predicate Evictable(t: seq<TranslationEntry>, swaps: map<int, SwapFile>)
    requires |t| >= NumPhysPages
  {
    var v := FirstLargest(t[..NumPhysPages], true);
    v >= 0 && t[v].tid in swaps &&
    (t[v].dirty ==> 0 <= t[v].physicalPage < NumPhysPages &&
                    0 <= t[v].virtualPage && t[v].virtualPage * PageSize < MaxFilePosition)
  }

  /** Frees frame `v`, the scan's victim: writes it back to its owner's swap
      file when dirty and marks its entry invalid. */
  method Evict(m: Machine, v: int, swaps: map<int, SwapFile>)
    requires m.Valid() && m.pageTable.Length >= NumPhysPages && 0 <= v < NumPhysPages
    requires m.pageTable[v].tid in swaps
    requires m.pageTable[v].dirty ==>
               0 <= m.pageTable[v].physicalPage < NumPhysPages &&
               0 <= m.pageTable[v].virtualPage && m.pageTable[v].virtualPage * PageSize < MaxFilePosition
    modifies m.pageTable, swaps.Values
    ensures m.pageTable[..] == old(m.pageTable[..])[v := old(m.pageTable[v]).(valid := false)]
    ensures var e := old(m.pageTable[v]);
      if e.dirty then
        swaps[e.tid].bytes == Written(old(swaps[e.tid].bytes), Page(m.mainMemory[..], e.physicalPage), e.virtualPage * PageSize) &&
        forall t :: t in swaps && swaps[t] != swaps[e.tid] ==> swaps[t].bytes == old(swaps[t].bytes)
      else
        forall t :: t in swaps ==> swaps[t].bytes == old(swaps[t].bytes)
  {
    var ptable := m.pageTable;
    var oldTid := ptable[v].tid;
    if ptable[v].dirty {
      var poffset := ptable[v].physicalPage * PageSize;
      var voffset := ptable[v].virtualPage * PageSize;
      var frame := m.mainMemory[poffset..poffset + PageSize];
      assert frame == Page(m.mainMemory[..], ptable[v].physicalPage);
      swaps[oldTid].WriteAt(frame, voffset);
    }
    ptable[v] := ptable[v].(valid := false);
  }

  /** Installs page `vpn` of thread `tid` in frame `ppn`: the entry at
      `ppn` and the frame's contents, read from the thread's swap file. */
  method Install(m: Machine, ppn: int, vpn: nat, tid: int, swap: SwapFile)
    requires m.Valid() && m.pageTable.Length >= NumPhysPages && 0 <= ppn < NumPhysPages
    requires vpn * PageSize < MaxFilePosition
    modifies m.pageTable, m.mainMemory
    ensures m.pageTable[..] == old(m.pageTable[..])[ppn := Installed(old(m.pageTable[ppn]), vpn, ppn, tid)]
    ensures m.mainMemory[..] == Overwrite(old(m.mainMemory[..]), Read(swap.bytes, PageSize, vpn * PageSize), ppn * PageSize)
  {
    var ptable := m.pageTable;
    ptable[ppn] := ptable[ppn].(virtualPage := vpn, physicalPage := ppn, dirty := false,
                                valid := true, use := true, interval := 0, tid := tid);
    var page := Read(swap.bytes, PageSize, vpn * PageSize);
    CopyIn(m.mainMemory, ppn * PageSize, page);
  }

  /** The frame for an inverted-table fault: a free one when the frame map
      has one, otherwise that of the first valid entry with the largest
      interval, which is evicted. */
  method FrameForFault(m: Machine, swaps: map<int, SwapFile>) returns (ppn: int)
    requires m.Valid() && m.pageTable.Length >= NumPhysPages
    requires FreeCount(m.memMap.bits[..]) == 0 ==> Evictable(m.pageTable[..], swaps)
    modifies m.pageTable, m.memMap.bits, swaps.Values
    ensures 0 <= ppn < NumPhysPages
    // a free frame when there is one, otherwise the victim's
    ensures FreeCount(old(m.memMap.bits[..])) > 0 ==>
              !old(m.memMap.bits[..])[ppn] && m.memMap.bits[..] == old(m.memMap.bits[..])[ppn := true] &&
              m.pageTable[..] == old(m.pageTable[..]) &&
              forall t :: t in swaps ==> swaps[t].bytes == old(swaps[t].bytes)
    ensures FreeCount(old(m.memMap.bits[..])) == 0 ==>
              ppn == FirstLargest(old(m.pageTable[..])[..NumPhysPages], true) &&
              m.memMap.bits[..] == old(m.memMap.bits[..]) &&
              m.pageTable[..] == old(m.pageTable[..])[ppn := old(m.pageTable[ppn]).(valid := false)]
    // the victim's frame goes back to its owner's swap file only when dirty
    ensures FreeCount(old(m.memMap.bits[..])) == 0 ==>
              var e := old(m.pageTable[ppn]);
              if e.dirty then
                swaps[e.tid].bytes == Written(old(swaps[e.tid].bytes), Page(m.mainMemory[..], e.physicalPage), e.virtualPage * PageSize) &&
                forall t :: t in swaps && swaps[t] != swaps[e.tid] ==> swaps[t].bytes == old(swaps[t].bytes)
              else
                forall t :: t in swaps ==> swaps[t].bytes == old(swaps[t].bytes)
  {
    ppn := m.memMap.Find();
    if ppn == -1 {
      var lruId := LargestInterval(m.pageTable, NumPhysPages, true);
      Evict(m, lruId, swaps);
      ppn := lruId;
    }
  }

  /** A page fault on page `vpn` of thread `current` with the inverted page
      table: take a free frame, or evict the first valid entry with the
      largest interval; then install the new entry at that frame and load
      the page from the current thread's swap file. */
  method PageFaultInverted(m: Machine, vpn: nat, current: int, swaps: map<int, SwapFile>) returns (ppn: int)
    requires m.Valid() && m.pageTable.Length >= NumPhysPages && current in swaps
    requires vpn * PageSize < MaxFilePosition
    requires FreeCount(m.memMap.bits[..]) == 0 ==> Evictable(m.pageTable[..], swaps)
    modifies m.pageTable, m.mainMemory, m.memMap.bits, swaps.Values
    ensures 0 <= ppn < NumPhysPages
    // a free frame when there is one, otherwise the victim's
    ensures FreeCount(old(m.memMap.bits[..])) > 0 ==>
              !old(m.memMap.bits[..])[ppn] && m.memMap.bits[..] == old(m.memMap.bits[..])[ppn := true] &&
              forall t :: t in swaps ==> swaps[t].bytes == old(swaps[t].bytes)
    ensures FreeCount(old(m.memMap.bits[..])) == 0 ==>
              ppn == FirstLargest(old(m.pageTable[..])[..NumPhysPages], true) &&
              m.memMap.bits[..] == old(m.memMap.bits[..])
    // the victim's frame goes back to its owner's swap file only when dirty
    ensures FreeCount(old(m.memMap.bits[..])) == 0 ==>
              var e := old(m.pageTable[ppn]);
              if e.dirty then
                swaps[e.tid].bytes == Written(old(swaps[e.tid].bytes), Page(old(m.mainMemory[..]), e.physicalPage), e.virtualPage * PageSize) &&
                forall t :: t in swaps && swaps[t] != swaps[e.tid] ==> swaps[t].bytes == old(swaps[t].bytes)
              else
                forall t :: t in swaps ==> swaps[t].bytes == old(swaps[t].bytes)
    // the new entry, and no other entry changed
    ensures m.pageTable[..] == old(m.pageTable[..])[ppn := Installed(old(m.pageTable[ppn]), vpn, ppn, current)]
    // the frame is loaded from the current thread's swap file
    ensures m.mainMemory[..] == Overwrite(old(m.mainMemory[..]), Read(swaps[current].bytes, PageSize, vpn * PageSize), ppn * PageSize)
    ensures DirectMapped(old(m.pageTable[..])) ==> DirectMapped(m.pageTable[..])
  {
    ghost var t0 := m.pageTable[..];
    ppn := FrameForFault(m, swaps);
    ghost var t1 := m.pageTable[..];
    assert forall j :: 0 <= j < |t0| && j != ppn ==> t1[j] == t0[j];
    Install(m, ppn, vpn, current, swaps[current]);
    assert m.pageTable[..] == t0[ppn := Installed(t0[ppn], vpn, ppn, current)];
  }

  /** The kernel's entry point for an exception of kind `which` raised by
      thread `current` (the LRU build). A system call reports its request
      and advances the program counters; a page fault is resolved through
      the TLB when the machine has one and through the inverted page table
      otherwise; any other kind is fatal and changes nothing. */
  method ExceptionHandler(m: Machine, which: ExceptionType, current: int, swaps: map<int, SwapFile>)
    returns (r: Outcome)
    requires m.Valid()
    requires which == PageFaultException && m.tlb != null ==>
               FirstInvalid(m.tlb[..]) == -1 ==> FirstLargest(m.tlb[..], false) >= 0
    requires which == PageFaultException && m.tlb == null ==>
               m.pageTable.Length >= NumPhysPages && current in swaps &&
               Unsigned(m.registers[BadVAddrReg]) < MaxFilePosition &&
               (FreeCount(m.memMap.bits[..]) == 0 ==> Evictable(m.pageTable[..], swaps))
    modifies m.registers, m.tlb, m.pageTable, m.mainMemory, m.memMap.bits, swaps.Values
    ensures which == SyscallException ==>
              r == SyscallOutcome(old(m.registers[2]), old(m.registers[4])) &&
              m.registers[PrevPCReg] == old(m.registers[PCReg]) &&
              m.registers[PCReg] == old(m.registers[NextPCReg]) &&
              m.registers[NextPCReg] == Int32(old(m.registers[NextPCReg]) + 4)
    // a system call touches only the three program counters
    ensures which == SyscallException ==>
              (forall k :: 0 <= k < NumTotalRegs && k != PrevPCReg && k != PCReg && k != NextPCReg ==>
                 m.registers[k] == old(m.registers[k])) &&
              unchanged(m.mainMemory, m.memMap.bits, m.pageTable) &&
              (m.tlb != null ==> unchanged(m.tlb)) &&
              forall t :: t in swaps ==> swaps[t].bytes == old(swaps[t].bytes)
    ensures which == PageFaultException ==> r == Resumed
    // a TLB refill touches only the TLB
    ensures which == PageFaultException && m.tlb != null ==>
              unchanged(m.mainMemory, m.memMap.bits) &&
              (m.pageTable != m.tlb ==> unchanged(m.pageTable)) &&
              forall t :: t in swaps ==> swaps[t].bytes == old(swaps[t].bytes)
    ensures which == PageFaultException && m.tlb != null ==>
              m.tlb[..] == TlbFaultLru(old(m.tlb[..]), FaultPage(old(m.registers[BadVAddrReg])))
    ensures which == PageFaultException && m.tlb == null ==>
              exists f :: 0 <= f < NumPhysPages &&
                m.pageTable[f] == Installed(old(m.pageTable[f]), FaultPage(old(m.registers[BadVAddrReg])), f, current) &&
                forall j :: 0 <= j < m.pageTable.Length && j != f ==> m.pageTable[j] == old(m.pageTable[j])
    ensures which != SyscallException ==> m.registers[..] == old(m.registers[..])
    ensures which != SyscallException && which != PageFaultException ==>
              r == Fatal && unchanged(m.mainMemory, m.memMap.bits, m.pageTable) &&
              (m.tlb != null ==> unchanged(m.tlb)) &&
              forall t :: t in swaps ==> swaps[t].bytes == old(swaps[t].bytes)
  {
    var code := m.registers[2];
    if which == SyscallException {
      r := SyscallOutcome(code, m.registers[4]);
      SyscallEnd(m);
    } else if which == PageFaultException {
      var badVAddr := m.registers[BadVAddrReg];
      var vpn := FaultPage(badVAddr);
      if m.tlb != null {
        PageFaultTlbLru(m, vpn);
      } else {
        var ppn := PageFaultInverted(m, vpn, current, swaps);
      }
      r := Resumed;
    } else {
      r := Fatal;
    }
  }
}
