/** The address space of a user program: its size in pages, its page table,
    its swap file holding the program image, and the work done on creation,
    at the first dispatch and at every context switch. */
module AddressSpace {
  import opened Hardware
  import opened Bytes
  import opened Noff

  /** Images whose size, and therefore whose initial stack pointer, fit in a
      C `int`. */
  const MaxImageSize: nat := 0x8000_0000

  /** The name buffer of the constructor: `char threadName[37]`. */
  const SourceNameBufferSize: nat := 37
  /** The buffer the name needs: 32 characters, ".swap" and a terminator. */
  const NameBufferSize: nat := 38

  /** divRoundUp(n, PageSize): the number of pages that hold `n` bytes. */
  function PagesFor(n: nat): (r: nat)
    ensures n <= r * PageSize < n + PageSize
  {
    n / PageSize + (if n % PageSize > 0 then 1 else 0)
  }

  lemma PagesForMonotone(a: nat, b: nat)
    requires a <= b
    ensures PagesFor(a) <= PagesFor(b)
  {
  }

  /** Bytes the program needs: its three segments and the user stack. */
  function RawSize(h: Header): nat
  {
    h.code.Size() + h.initData.Size() + h.uninitData.Size() + UserStackSize
  }

  /** A header the constructor can load without overflowing a 32-bit size
      and whose non-empty segments lie inside the executable. */
  predicate Loadable(h: Header, executableLength: nat)
  {
    RawSize(h) + PageSize <= MaxImageSize &&
    (h.code.Size() > 0 ==> h.code.FileAddr() + h.code.Size() <= executableLength) &&
    (h.initData.Size() > 0 ==> h.initData.FileAddr() + h.initData.Size() <= executableLength)
  }

  /** strncpy(dst, s, n) on a C string: the characters of `s` before its
      terminator, at most `n` of them. Each character of a name stands for
      one C `char`, that is one byte. */
  function StrNCopy(s: string, n: nat): (r: string)
    ensures |r| <= n && r <= s && '\0' !in r
    ensures |r| < n && |r| < |s| ==> s[|r|] == '\0'
  {
    if n == 0 || s == [] || s[0] == '\0' then [] else [s[0]] + StrNCopy(s[1..], n - 1)
  }

  lemma {:induction false} StrNCopyFull(s: string, n: nat)
    requires n <= |s| && '\0' !in s[..n]
    ensures StrNCopy(s, n) == s[..n]
  {
    if n > 0 {
      assert s[0] == s[..n][0];
      assert s[1..][..n - 1] == s[..n][1..];
      StrNCopyFull(s[1..], n - 1);
    }
  }

  /** The swap-file name: the thread name cut to 32 characters, then ".swap". */
  function SwapName(threadName: string): (r: string)
    ensures 5 <= |r| <= 37
    ensures r[|r| - 5..] == ".swap"
    ensures r[..|r| - 5] <= threadName && '\0' !in r[..|r| - 5]
    ensures '\0' !in threadName ==> |r| == Min(|threadName|, 32) + 5
  {
    StrNCopy(threadName, 32) + ".swap"
  }

  /** What strncpy, the terminator store and strcat leave in the name
      buffer: the swap-file name and its terminator. */
  function SwapNameBuffer(threadName: string): string
  {
    SwapName(threadName) + "\0"
  }

  /** A thread name of 32 or more characters makes the constructor store one
      byte past the end of its 37-byte name buffer. */
  lemma SwapNameOverflowsSourceBuffer(threadName: string)
    requires |threadName| >= 32 && '\0' !in threadName[..32]
    ensures |SwapNameBuffer(threadName)| == SourceNameBufferSize + 1
  {
    StrNCopyFull(threadName, 32);
  }

  /** A 38-byte buffer holds the name of every thread. */
  lemma SwapNameFitsBuffer(threadName: string)
    ensures |SwapNameBuffer(threadName)| <= NameBufferSize
  {
  }

  /** Copies the code segment to swap offset 0 and the initialised-data
      segment right after it, each only when it is non-empty. */
  method CopySegments(swap: SwapFile, executable: seq<byte>, codeAddr: nat, cs: nat, dataAddr: nat, ds: nat)
    requires cs + ds <= |swap.bytes|
    requires cs > 0 ==> codeAddr + cs <= |executable|
    requires ds > 0 ==> dataAddr + ds <= |executable|
    modifies swap
    ensures |swap.bytes| == |old(swap.bytes)|
    ensures cs > 0 ==> swap.bytes[..cs] == executable[codeAddr..codeAddr + cs]
    ensures ds > 0 ==> swap.bytes[cs..cs + ds] == executable[dataAddr..dataAddr + ds]
    ensures forall k :: cs + ds <= k < |swap.bytes| ==> swap.bytes[k] == old(swap.bytes[k])
  {
    if cs > 0 {
      swap.WriteAt(executable[codeAddr..codeAddr + cs], 0);
    }
    ghost var afterCode := swap.bytes;
    if ds > 0 {
      swap.WriteAt(executable[dataAddr..dataAddr + ds], cs);
      assert swap.bytes[..cs] == afterCode[..cs];
    }
  }

  /** The program image a fresh swap file holds for header `h`: the code
      segment at 0, the initialised data right after it, zeros beyond, over
      the whole address space. */
  ghost predicate SwapImage(h: Header, executable: seq<byte>, image: seq<byte>)
    requires Loadable(h, |executable|)
  {
    var cs, ds := h.code.Size(), h.initData.Size();
    |image| == PagesFor(RawSize(h)) * PageSize &&
    (cs > 0 ==> image[..cs] == executable[h.code.FileAddr()..h.code.FileAddr() + cs]) &&
    (ds > 0 ==> image[cs..cs + ds] == executable[h.initData.FileAddr()..h.initData.FileAddr() + ds]) &&
    (forall k :: cs + ds <= k < |image| ==> image[k] == 0)
  }

  /** Creates the swap file of `size` bytes and copies the segments in. */
  method FillSwapFile(hdr: Header, executable: seq<byte>, size: nat) returns (swap: SwapFile)
    requires Loadable(hdr, |executable|) && size == PagesFor(RawSize(hdr)) * PageSize
    ensures fresh(swap) && SwapImage(hdr, executable, swap.bytes)
  {
    swap := new SwapFile(size);
    var cs, ds := hdr.code.Size(), hdr.initData.Size();
    CopySegments(swap, executable, hdr.code.FileAddr(), cs, hdr.initData.FileAddr(), ds);
  }

  /** Swap page `p` after a context switch out: the frame of entry `e` when
      that entry was valid and dirty, otherwise the page as it was. */
  ghost function SavedPage(swap: seq<byte>, e: TranslationEntry, memory: seq<byte>, p: nat): seq<byte>
    requires (p + 1) * PageSize <= |swap| && |memory| == MemorySize
    requires e.valid && e.dirty ==> 0 <= e.physicalPage < NumPhysPages
  {
    if e.valid && e.dirty then Page(memory, e.physicalPage) else Page(swap, p)
  }

  /** Every entry that is valid and dirty names a frame. */
  ghost predicate DirtyFramesInRange(t: seq<TranslationEntry>)
  {
    forall j :: 0 <= j < |t| && t[j].valid && t[j].dirty ==> 0 <= t[j].physicalPage < NumPhysPages
  }

  /** The first `i` entries of `t0` have been saved: in `t` they are
      invalidated and in `swap` their pages hold what `SavedPage` says; the
      others are as in `t0` and `swap0`. */
  ghost predicate SavedUpTo(t0: seq<TranslationEntry>, t: seq<TranslationEntry>,
                            swap0: seq<byte>, swap: seq<byte>, memory: seq<byte>, i: nat)
  {
    |t| == |t0| && i <= |t0| && DirtyFramesInRange(t0) &&
    |swap0| == |t0| * PageSize && |swap| == |swap0| && |memory| == MemorySize &&
    (forall j :: 0 <= j < i ==> t[j] == t0[j].(valid := false)) &&
    (forall j :: i <= j < |t| ==> t[j] == t0[j]) &&
    (forall p :: 0 <= p < i ==> Page(swap, p) == SavedPage(swap0, t0[p], memory, p)) &&
    (forall p :: i <= p < |t| ==> Page(swap, p) == Page(swap0, p))
  }

  /** Saving entry `i`: its frame goes to swap page `i` when it is valid
      and dirty, and it is invalidated. */
  lemma SaveStep(t0: seq<TranslationEntry>, t: seq<TranslationEntry>,
                 swap0: seq<byte>, swap: seq<byte>, swap': seq<byte>, memory: seq<byte>, i: nat)
    requires SavedUpTo(t0, t, swap0, swap, memory, i) && i < |t0|
    requires |swap'| == |swap|
    requires t0[i].valid && t0[i].dirty ==>
               forall p :: 0 <= p < |t0| ==> Page(swap', p) == if p == i then Page(memory, t0[i].physicalPage) else Page(swap, p)
    requires !(t0[i].valid && t0[i].dirty) ==> swap' == swap
    ensures SavedUpTo(t0, t[i := t[i].(valid := false)], swap0, swap', memory, i + 1)
  {
  }

  /** When no entry was both valid and dirty, saving leaves the whole swap
      file as it was. */
  lemma SaveKeepsCleanSwap(t0: seq<TranslationEntry>, swap0: seq<byte>, swap: seq<byte>, memory: seq<byte>)
    requires |swap0| == |t0| * PageSize && |swap| == |swap0| && |memory| == MemorySize
    requires forall j :: 0 <= j < |t0| ==> !(t0[j].valid && t0[j].dirty)
    requires forall p :: 0 <= p < |t0| ==> Page(swap, p) == SavedPage(swap0, t0[p], memory, p)
    ensures swap == swap0
  {
    PagesDetermineImage(swap, swap0, |t0|);
  }

  /** Entry `e` once code page `i` has been mapped into frame `ppn`: valid,
      clean, writable and pinned. */
  function Mapped(e: TranslationEntry, i: nat, ppn: int): TranslationEntry
  {
    e.(virtualPage := i, physicalPage := ppn, valid := true, use := false,
       dirty := false, readOnly := false, noSwap := true)
  }

  /** Some entry of `p` uses frame `f`. */
  ghost predicate UsedBy(p: seq<TranslationEntry>, f: int)
  {
    exists j :: 0 <= j < |p| && p[j].physicalPage == f
  }

  /** Entry `j` of `p` is code page `j` of `t0` mapped into a frame, and no
      two entries share a frame. */
  ghost predicate EntriesMapped(t0: seq<TranslationEntry>, p: seq<TranslationEntry>)
    requires |p| <= |t0|
  {
    (forall j :: 0 <= j < |p| ==>
       0 <= p[j].physicalPage < NumPhysPages && p[j] == Mapped(t0[j], j, p[j].physicalPage)) &&
    (forall j, j' :: 0 <= j < j' < |p| ==> p[j].physicalPage != p[j'].physicalPage)
  }

  /** The frames of `p` were free in `bits0` and are in use in `bits`, which
      differs from `bits0` in those frames only. */
  ghost predicate FramesTaken(p: seq<TranslationEntry>, bits0: seq<bool>, bits: seq<bool>)
    requires |bits0| == NumPhysPages && |bits| == NumPhysPages
    requires forall j :: 0 <= j < |p| ==> 0 <= p[j].physicalPage < NumPhysPages
  {
    (forall j :: 0 <= j < |p| ==> !bits0[p[j].physicalPage]) &&
    (forall f :: 0 <= f < NumPhysPages ==> bits[f] == (bits0[f] || UsedBy(p, f))) &&
    FreeCount(bits) + |p| == FreeCount(bits0)
  }

  /** The frame of entry `j` of `p` holds page `j` of the swap image; every
      other frame of memory is as in `mem0`. */
  ghost predicate FramesLoaded(p: seq<TranslationEntry>, mem0: seq<byte>, mem: seq<byte>, swap: seq<byte>)
    requires |p| * PageSize <= |swap| && |mem0| == MemorySize && |mem| == MemorySize
    requires forall j :: 0 <= j < |p| ==> 0 <= p[j].physicalPage < NumPhysPages
  {
    (forall j :: 0 <= j < |p| ==> Page(mem, p[j].physicalPage) == Page(swap, j)) &&
    (forall f :: 0 <= f < NumPhysPages && !UsedBy(p, f) ==> Page(mem, f) == Page(mem0, f))
  }

  /** The entries `p` map the first |p| code pages of table `t0`: each into
      its own frame, one that was free in `bits0`, now marked in use in
      `bits` and holding that page of the swap image; no other frame bit is
      set and no other frame of memory changed. */
  ghost predicate CodePagesMapped(t0: seq<TranslationEntry>, p: seq<TranslationEntry>,
                                  bits0: seq<bool>, bits: seq<bool>,
                                  mem0: seq<byte>, mem: seq<byte>, swap: seq<byte>)
  {
    |p| <= |t0| && |p| * PageSize <= |swap| &&
    |bits0| == NumPhysPages && |bits| == NumPhysPages &&
    |mem0| == MemorySize && |mem| == MemorySize &&
    EntriesMapped(t0, p) &&
    FramesTaken(p, bits0, bits) &&
    FramesLoaded(p, mem0, mem, swap)
  }

  /** The frames used after one more entry are those of before and its own. */
  lemma UsedByStep(p: seq<TranslationEntry>, e: TranslationEntry, f: int)
    ensures UsedBy(p + [e], f) == (UsedBy(p, f) || e.physicalPage == f)
  {
    var p' := p + [e];
    if UsedBy(p, f) {
      var j :| 0 <= j < |p| && p[j].physicalPage == f;
      assert p'[j].physicalPage == f;
    }
    if UsedBy(p', f) && e.physicalPage != f {
      var j :| 0 <= j < |p'| && p'[j].physicalPage == f;
      assert p[j].physicalPage == f;
    }
    if e.physicalPage == f {
      assert p'[|p|].physicalPage == f;
    }
  }

  /** A frame not in use by `p` extends its one-to-one mapping. */
  lemma MapStepEntries(t0: seq<TranslationEntry>, p: seq<TranslationEntry>, ppn: int)
    requires |p| < |t0| && EntriesMapped(t0, p)
    requires 0 <= ppn < NumPhysPages && !UsedBy(p, ppn)
    ensures EntriesMapped(t0, p + [Mapped(t0[|p|], |p|, ppn)])
  {
    var n := |p|;
    forall j | 0 <= j < n
      ensures p[j].physicalPage != ppn
    {
      assert UsedBy(p, p[j].physicalPage);
    }
  }

  /** Taking the free frame `ppn` for one more entry sets its bit alone. */
  lemma MapStepFrames(p: seq<TranslationEntry>, e: TranslationEntry,
                      bits0: seq<bool>, bits: seq<bool>, ppn: int)
    requires |bits0| == NumPhysPages && |bits| == NumPhysPages
    requires forall j :: 0 <= j < |p| ==> 0 <= p[j].physicalPage < NumPhysPages
    requires FramesTaken(p, bits0, bits)
    requires 0 <= ppn < NumPhysPages && !bits[ppn] && e.physicalPage == ppn
    ensures forall j :: 0 <= j < |p + [e]| ==> 0 <= (p + [e])[j].physicalPage < NumPhysPages
    ensures FramesTaken(p + [e], bits0, bits[ppn := true])
  {
    var p' := p + [e];
    assert forall j :: 0 <= j < |p| ==> p'[j] == p[j];
    forall f | 0 <= f < NumPhysPages
      ensures UsedBy(p', f) == (UsedBy(p, f) || f == ppn)
    {
      UsedByStep(p, e, f);
    }
    FreeCountMark(bits, ppn);
  }

  /** Loading swap page |p| into frame `ppn`, which `p` does not use, extends
      the loaded frames by that one. */
  lemma MapStepLoaded(p: seq<TranslationEntry>, e: TranslationEntry,
                      mem0: seq<byte>, mem: seq<byte>, swap: seq<byte>, ppn: int)
    requires (|p| + 1) * PageSize <= |swap| && |mem0| == MemorySize && |mem| == MemorySize
    requires forall j :: 0 <= j < |p| ==> 0 <= p[j].physicalPage < NumPhysPages
    requires FramesLoaded(p, mem0, mem, swap)
    requires 0 <= ppn < NumPhysPages && !UsedBy(p, ppn) && e.physicalPage == ppn
    ensures forall j :: 0 <= j < |p + [e]| ==> 0 <= (p + [e])[j].physicalPage < NumPhysPages
    ensures FramesLoaded(p + [e], mem0, Overwrite(mem, Page(swap, |p|), ppn * PageSize), swap)
  {
    var n := |p|;
    var p', mem' := p + [e], Overwrite(mem, Page(swap, n), ppn * PageSize);
    forall j | 0 <= j < n + 1
      ensures Page(mem', p'[j].physicalPage) == Page(swap, j)
    {
      if j < n {
        assert p'[j] == p[j];
        assert UsedBy(p, p[j].physicalPage);
        PageOfOverwrite(mem, Page(swap, n), ppn, p[j].physicalPage);
      } else {
        PageOfOverwrite(mem, Page(swap, n), ppn, ppn);
      }
    }
    forall f | 0 <= f < NumPhysPages && !UsedBy(p', f)
      ensures Page(mem', f) == Page(mem0, f)
    {
      UsedByStep(p, e, f);
      PageOfOverwrite(mem, Page(swap, n), ppn, f);
    }
  }

  /** Mapping the next code page into a free frame extends the mapping. */
  lemma MapStep(t0: seq<TranslationEntry>, p: seq<TranslationEntry>,
                bits0: seq<bool>, bits: seq<bool>,
                mem0: seq<byte>, mem: seq<byte>, swap: seq<byte>, ppn: int)
    requires CodePagesMapped(t0, p, bits0, bits, mem0, mem, swap)
    requires |p| < |t0| && (|p| + 1) * PageSize <= |swap|
    requires 0 <= ppn < NumPhysPages && !bits[ppn]
    ensures CodePagesMapped(t0, p + [Mapped(t0[|p|], |p|, ppn)], bits0, bits[ppn := true],
                            mem0, Overwrite(mem, Page(swap, |p|), ppn * PageSize), swap)
  {
    var e := Mapped(t0[|p|], |p|, ppn);
    assert !UsedBy(p, ppn);
    MapStepEntries(t0, p, ppn);
    MapStepFrames(p, e, bits0, bits, ppn);
    MapStepLoaded(p, e, mem0, mem, swap, ppn);
  }

  /** The table, frame map and memory after the code pages of `t0` were
      mapped eagerly: with k free frames in `bits0` the first min(k,
      codePages) code pages are mapped; when the frames ran out first, the
      entry at which allocation failed names its page and physical page -1;
      the entries after it are untouched. */
  ghost predicate Restored(t0: seq<TranslationEntry>, t: seq<TranslationEntry>,
                           bits0: seq<bool>, bits: seq<bool>,
                           mem0: seq<byte>, mem: seq<byte>, swap: seq<byte>, codePages: nat)
  {
    var n := Min(FreeCount(bits0), codePages);
    codePages <= |t0| == |t| &&
    CodePagesMapped(t0, t[..n], bits0, bits, mem0, mem, swap) &&
    (n < codePages ==> t[n] == t0[n].(virtualPage := n, physicalPage := -1)) &&
    (forall j :: (if n < codePages then n + 1 else n) <= j < |t| ==> t[j] == t0[j])
  }

  /** Every code page mapped: the frame map had enough free frames. */
  lemma RestoredFull(t0: seq<TranslationEntry>, t: seq<TranslationEntry>,
                     bits0: seq<bool>, bits: seq<bool>,
                     mem0: seq<byte>, mem: seq<byte>, swap: seq<byte>, codePages: nat)
    requires codePages <= |t0| == |t|
    requires CodePagesMapped(t0, t[..codePages], bits0, bits, mem0, mem, swap)
    requires forall j :: codePages <= j < |t| ==> t[j] == t0[j]
    ensures Restored(t0, t, bits0, bits, mem0, mem, swap, codePages)
  {
  }

  /** The frame map ran out at code page `n`: entry `n` of `u` is the failed
      one and the entries before it are those of `t`. */
  lemma RestoredShort(t0: seq<TranslationEntry>, t: seq<TranslationEntry>, u: seq<TranslationEntry>,
                      bits0: seq<bool>, bits: seq<bool>,
                      mem0: seq<byte>, mem: seq<byte>, swap: seq<byte>, n: nat, codePages: nat)
    requires n < codePages <= |t0| == |t|
    requires CodePagesMapped(t0, t[..n], bits0, bits, mem0, mem, swap) && FreeCount(bits) == 0
    requires forall j :: n <= j < |t| ==> t[j] == t0[j]
    requires u == t[n := t[n].(virtualPage := n, physicalPage := -1)]
    ensures Restored(t0, u, bits0, bits, mem0, mem, swap, codePages)
  {
    assert u[..n] == t[..n];
  }

  /** A fresh page table of `pages` entries, each invalid and swappable. */
  method NewPageTable(pages: nat) returns (table: array<TranslationEntry>)
    ensures fresh(table) && table.Length == pages
    ensures forall j :: 0 <= j < pages ==> !table[j].valid && !table[j].noSwap
  {
    table := new TranslationEntry[pages];
    var i := 0;
    while i < pages
      invariant 0 <= i <= pages
      invariant forall j :: 0 <= j < i ==> !table[j].valid && !table[j].noSwap
    {
      table[i] := table[i].(valid := false, noSwap := false);
      i := i + 1;
    }
  }

  datatype LoadResult = Loaded(space: AddrSpace) | BadMagic | SwapCreateFailed

  class AddrSpace {
    var numPages: nat
    var codePageNum: nat
    var pageTable: array<TranslationEntry>
    var swapName: string
    var swapFile: SwapFile

    ghost predicate Valid()
      reads this, swapFile
    {
      numPages * PageSize <= MaxImageSize &&
      codePageNum <= numPages &&
      |swapFile.bytes| == numPages * PageSize &&
      (pageTable.Length == numPages || pageTable.Length == 0)
    }

    /** The state the constructor leaves for header `h`, the executable image
        and the thread name. */
    ghost predicate Initialised(h: Header, executable: seq<byte>, threadName: string, withPageTable: bool)
      requires Loadable(h, |executable|)
      reads this, pageTable, swapFile
    {
      Valid() &&
      // numPages = ceil(raw size / PageSize); codePageNum = ceil(code size / PageSize)
      numPages == PagesFor(RawSize(h)) &&
      codePageNum == PagesFor(h.code.Size()) &&
      // every entry of a fresh page table is invalid and swappable
      pageTable.Length == (if withPageTable then numPages else 0) &&
      (forall i :: 0 <= i < pageTable.Length ==> !pageTable[i].valid && !pageTable[i].noSwap) &&
      swapName == SwapName(threadName) &&
      // the swap image: code at 0, initialised data right after, zeros beyond
      SwapImage(h, executable, swapFile.bytes)
    }

    /** Sizes the address space, initialises its page table (when the
        machine uses page tables), names and fills its swap file. */
    constructor (h: NoffHeader, executable: seq<byte>, threadName: string, withPageTable: bool)
      requires Loadable(h.Value(), |executable|)
      ensures fresh(pageTable) && fresh(swapFile)
      ensures Initialised(h.Value(), executable, threadName, withPageTable)
    {
      var hdr := h.Value();
      var size := RawSize(hdr);
      var pages := PagesFor(size);
      size := pages * PageSize;
      var table: array<TranslationEntry>;
      if withPageTable {
        table := NewPageTable(pages);
      } else {
        table := new TranslationEntry[0];
      }
      var name := SwapName(threadName);
      var swap := FillSwapFile(hdr, executable, size);
      numPages, codePageNum := pages, PagesFor(hdr.code.Size());
      pageTable, swapName, swapFile := table, name, swap;
    }

    /** Sets every register to 0, then PC to 0, NextPC to 4 and the stack
        pointer 16 bytes below the end of the address space. */
    method InitRegisters(m: Machine)
      requires Valid() && m.Valid()
      modifies m.registers
      ensures m.registers[PCReg] == 0 && m.registers[NextPCReg] == 4
      ensures m.registers[StackReg] == Int32(numPages * PageSize - 16)
      ensures numPages > 0 ==> m.registers[StackReg] == numPages * PageSize - 16
      ensures forall r :: 0 <= r < NumTotalRegs && r != PCReg && r != NextPCReg && r != StackReg ==>
                m.registers[r] == 0
    {
      var i := 0;
      while i < NumTotalRegs
        invariant 0 <= i <= NumTotalRegs
        invariant forall r :: 0 <= r < i ==> m.registers[r] == 0
      {
        m.registers[i] := 0;
        i := i + 1;
      }
      m.registers[PCReg] := 0;
      m.registers[NextPCReg] := 4;
      m.registers[StackReg] := Int32(numPages * PageSize - 16);
    }

    /** Context switch out, TLB build: forget every cached translation. */
    method SaveStateTlb(m: Machine)
      requires m.Valid() && m.tlb != null
      modifies m.tlb
      ensures forall i :: 0 <= i < TLBSize ==> m.tlb[i] == old(m.tlb[i]).(valid := false)
    {
      var i := 0;
      while i < TLBSize
        invariant 0 <= i <= TLBSize
        invariant forall j :: 0 <= j < i ==> m.tlb[j] == old(m.tlb[j]).(valid := false)
        invariant forall j :: i <= j < TLBSize ==> m.tlb[j] == old(m.tlb[j])
      {
        m.tlb[i] := m.tlb[i].(valid := false);
        i := i + 1;
      }
    }

    /** Context switch out, page-table build: write every valid and dirty
        page back to its swap page, invalidate every entry and free every
        frame. */
    method SaveStatePageTable(m: Machine)
      requires Valid() && m.Valid() && pageTable.Length == numPages
      requires forall i :: 0 <= i < numPages && pageTable[i].valid && pageTable[i].dirty ==>
                 0 <= pageTable[i].physicalPage < NumPhysPages
      modifies pageTable, swapFile, m.memMap.bits
      ensures Valid()
      ensures forall i :: 0 <= i < numPages ==> pageTable[i] == old(pageTable[i]).(valid := false)
      ensures forall p :: 0 <= p < numPages ==>
                Page(swapFile.bytes, p) == SavedPage(old(swapFile.bytes), old(pageTable[p]), m.mainMemory[..], p)
      ensures forall f :: 0 <= f < NumPhysPages ==> !m.memMap.bits[f]
    {
      ghost var table0, swap0, memory := pageTable[..], swapFile.bytes, m.mainMemory[..];
      var i := 0;
      while i < numPages
        invariant 0 <= i <= numPages && m.mainMemory[..] == memory
        invariant SavedUpTo(table0, pageTable[..], swap0, swapFile.bytes, memory, i)
      {
        ghost var t, before := pageTable[..], swapFile.bytes;
        if pageTable[i].valid && pageTable[i].dirty {
          WriteBack(m, i, pageTable[i].physicalPage);
        }
        pageTable[i] := pageTable[i].(valid := false);
        SaveStep(table0, t, swap0, before, swapFile.bytes, memory, i);
        i := i + 1;
      }
      m.memMap.Refresh();
    }

    /** Writes frame `ppn` of main memory to swap page `i`. */
    method WriteBack(m: Machine, i: nat, ppn: int)
      requires Valid() && m.Valid() && i < numPages && 0 <= ppn < NumPhysPages
      modifies swapFile
      ensures |swapFile.bytes| == numPages * PageSize
      ensures forall p :: 0 <= p < numPages ==>
                Page(swapFile.bytes, p) == if p == i then Page(m.mainMemory[..], ppn) else Page(old(swapFile.bytes), p)
    {
      var frame := m.mainMemory[ppn * PageSize..(ppn + 1) * PageSize];
      assert frame == Page(m.mainMemory[..], ppn);
      swapFile.WriteAt(frame, i * PageSize);
      forall p | 0 <= p < numPages
        ensures Page(swapFile.bytes, p) == if p == i then frame else Page(old(swapFile.bytes), p)
      {
        PageOfOverwrite(old(swapFile.bytes), frame, i, p);
      }
    }

    /** Maps code page `i` into a newly allocated frame loaded from swap, or
        records physical page -1 when the frame map is full. */
    method MapCodePage(m: Machine, i: nat) returns (ppn: int)
      requires Valid() && m.Valid() && pageTable.Length == numPages && i < codePageNum
      modifies pageTable, m.mainMemory, m.memMap.bits
      ensures ppn == -1 <==> FreeCount(old(m.memMap.bits[..])) == 0
      ensures ppn == -1 ==>
                pageTable[..] == old(pageTable[..])[i := old(pageTable[i]).(virtualPage := i, physicalPage := -1)] &&
                m.memMap.bits[..] == old(m.memMap.bits[..]) && m.mainMemory[..] == old(m.mainMemory[..])
      ensures ppn != -1 ==>
                0 <= ppn < NumPhysPages && !old(m.memMap.bits[..])[ppn] &&
                pageTable[..] == old(pageTable[..])[i := Mapped(old(pageTable[i]), i, ppn)] &&
                m.memMap.bits[..] == old(m.memMap.bits[..])[ppn := true] &&
                m.mainMemory[..] == Overwrite(old(m.mainMemory[..]), Page(swapFile.bytes, i), ppn * PageSize)
    {
      ppn := m.memMap.Find();
      if ppn == -1 {
        pageTable[i] := pageTable[i].(virtualPage := i, physicalPage := -1);
        return;
      }
      pageTable[i] := pageTable[i].(virtualPage := i, physicalPage := ppn, valid := true, use := false,
                                    dirty := false, readOnly := false, noSwap := true);
      var page := Read(swapFile.bytes, PageSize, i * PageSize);
      assert page == Page(swapFile.bytes, i);
      CopyIn(m.mainMemory, ppn * PageSize, page);
    }

    /** Context switch in, page-table build: make this page table the active
        one and map the code pages eagerly, each into a newly allocated frame
        loaded from swap, until the frame map runs out. */
    method RestoreState(m: Machine)
      requires Valid() && m.Valid() && pageTable.Length == numPages
      modifies m`pageTable, m`pageTableSize, pageTable, m.mainMemory, m.memMap.bits
      ensures m.pageTable == pageTable && m.pageTableSize == numPages
      ensures Restored(old(pageTable[..]), pageTable[..], old(m.memMap.bits[..]), m.memMap.bits[..],
                       old(m.mainMemory[..]), m.mainMemory[..], swapFile.bytes, codePageNum)
    {
      ghost var t0, bits0, mem0 := pageTable[..], m.memMap.bits[..], m.mainMemory[..];
      m.pageTable := pageTable;
      m.pageTableSize := numPages;
      ghost var t, bits, mem, swap := t0, bits0, mem0, swapFile.bytes;
      var i := 0;
      while i < codePageNum
        invariant 0 <= i <= codePageNum
        invariant m.pageTable == pageTable && m.pageTableSize == numPages
        invariant t == pageTable[..] && bits == m.memMap.bits[..] && mem == m.mainMemory[..]
        invariant swap == swapFile.bytes && |swap| == numPages * PageSize
        invariant CodePagesMapped(t0, t[..i], bits0, bits, mem0, mem, swap)
        invariant forall j :: i <= j < numPages ==> t[j] == t0[j]
      {
        var ppn := MapCodePage(m, i);
        if ppn == -1 {
          RestoredShort(t0, t, pageTable[..], bits0, bits, mem0, mem, swap, i, codePageNum);
          t := pageTable[..];
          break;
        }
        MapStep(t0, t[..i], bits0, bits, mem0, mem, swap, ppn);
        assert t[i := Mapped(t0[i], i, ppn)][..i + 1] == t[..i] + [Mapped(t0[i], i, ppn)];
        t, bits, mem := t[i := Mapped(t0[i], i, ppn)], bits[ppn := true], Overwrite(mem, Page(swap, i), ppn * PageSize);
        i := i + 1;
      }
      if i == codePageNum {
        RestoredFull(t0, t, bits0, bits, mem0, mem, swap, i);
      }
      assert t == pageTable[..] && Restored(t0, t, bits0, bits, mem0, mem, swap, codePageNum);
    }
  }

  /** Creates the address space of `executable` for the thread named
      `threadName`. The header is converted once, and only when its magic
      number is wrong as read but right converted; loading stops when the
      magic number is still wrong, or when the swap file cannot be created
      (`swapCreated` is the file system's answer). */
  method Load(executable: seq<byte>, threadName: string, withPageTable: bool, swapCreated: bool)
    returns (r: LoadResult)
    requires |executable| >= NoffHeaderSize
    requires HostHeader(RawHeader(executable)).noffMagic == NOFFMAGIC ==>
               Loadable(HostHeader(RawHeader(executable)), |executable|)
    ensures r.BadMagic? <==> HostHeader(RawHeader(executable)).noffMagic != NOFFMAGIC
    ensures r.SwapCreateFailed? <==> HostHeader(RawHeader(executable)).noffMagic == NOFFMAGIC && !swapCreated
    ensures r.Loaded? ==>
              fresh(r.space) && fresh(r.space.pageTable) && fresh(r.space.swapFile) &&
              r.space.Initialised(HostHeader(RawHeader(executable)), executable, threadName, withPageTable)
  {
    var h := new NoffHeader.Read(executable);
    if h.noffMagic != NOFFMAGIC && WordToHost(h.noffMagic) == NOFFMAGIC {
      SwapHeader(h);
    }
    assert h.Value() == HostHeader(RawHeader(executable));
    if h.noffMagic != NOFFMAGIC {
      return BadMagic;
    }
    if !swapCreated {
      return SwapCreateFailed;
    }
    var space := new AddrSpace(h, executable, threadName, withPageTable);
    r := Loaded(space);
  }
}
