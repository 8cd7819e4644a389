/** The translation caches' choice of slot on a page fault, stated on
    sequences of entries: the lowest invalid slot of the TLB, the slot with
    the largest recency counter (LRU, and the inverted table's victim), and
    the slot holding the rotating "next victim" flag (FIFO). The fault
    handler's loops are proved against these functions. */
module Replacement {
  import opened Hardware

  /** The lowest index of an invalid entry, or -1 when every entry is valid. */
  function FirstInvalid(s: seq<TranslationEntry>): (r: int)
    ensures -1 <= r < |s|
    ensures r == -1 <==> forall j :: 0 <= j < |s| ==> s[j].valid
    ensures r >= 0 ==> !s[r].valid && forall j :: 0 <= j < r ==> s[j].valid
  {
    if s == [] then -1
    else if !s[0].valid then 0
    else var r := FirstInvalid(s[1..]); if r == -1 then -1 else r + 1
  }

  /** An entry the largest-interval scan may pick: one whose interval beats
      the scan's starting maximum of -1, and, for the inverted table, a valid
      one. */
  predicate Candidate(e: TranslationEntry, validOnly: bool)
  {
    (e.valid || !validOnly) && e.interval >= 0
  }

  /** The index the largest-interval scan settles on: the first candidate
      with the largest interval, or -1 when there is no candidate. */
  function FirstLargest(s: seq<TranslationEntry>, validOnly: bool): (r: int)
    ensures -1 <= r < |s|
    ensures r == -1 <==> forall j :: 0 <= j < |s| ==> !Candidate(s[j], validOnly)
    ensures r >= 0 ==> Candidate(s[r], validOnly)
    ensures r >= 0 ==> forall j :: 0 <= j < |s| && Candidate(s[j], validOnly) ==> s[j].interval <= s[r].interval
    ensures r >= 0 ==> forall j :: 0 <= j < r && Candidate(s[j], validOnly) ==> s[j].interval < s[r].interval
  {
    if s == [] then -1
    else
      var prefix := s[..|s| - 1];
      var r := FirstLargest(prefix, validOnly);
      var e := s[|s| - 1];
      assert forall j :: 0 <= j < |prefix| ==> prefix[j] == s[j];
      if Candidate(e, validOnly) && (r == -1 || e.interval > s[r].interval) then |s| - 1 else r
  }

  /** The lowest index whose `replace` flag is set, or -1 when none is. */
  function FirstReplace(s: seq<TranslationEntry>): (r: int)
    ensures -1 <= r < |s|
    ensures r == -1 <==> forall j :: 0 <= j < |s| ==> !s[j].replace
    ensures r >= 0 ==> s[r].replace && forall j :: 0 <= j < r ==> !s[j].replace
  {
    if s == [] then -1
    else if s[0].replace then 0
    else var r := FirstReplace(s[1..]); if r == -1 then -1 else r + 1
  }

  /** Every one of the four TLB slots holds a valid translation. The slots
      are named one by one (TLBSize is 4), which keeps the FIFO proofs free
      of quantifiers. */
  ghost predicate Full(s: seq<TranslationEntry>)
  {
    |s| == TLBSize && TLBSize == 4 && s[0].valid && s[1].valid && s[2].valid && s[3].valid
  }

  /** Of the four TLB slots, exactly slot `p` carries the `replace` flag. */
  ghost predicate FlagAt(s: seq<TranslationEntry>, p: int)
  {
    |s| == TLBSize && TLBSize == 4 &&
    s[0].replace == (p == 0) && s[1].replace == (p == 1) &&
    s[2].replace == (p == 2) && s[3].replace == (p == 3)
  }

  /** Invalid slot `i` filled with page `vpn`: valid, interval 0, mapped
      one-to-one, and flagged as the next victim when it is slot 0. */
  function Filled(e: TranslationEntry, vpn: int, i: nat): TranslationEntry
  {
    e.(valid := true, interval := 0, replace := e.replace || i == 0,
       virtualPage := vpn, physicalPage := vpn)
  }

  /** Slot `e` taken over by page `vpn` (the mapping only). */
  function Retargeted(e: TranslationEntry, vpn: int): TranslationEntry
  {
    e.(virtualPage := vpn, physicalPage := vpn)
  }

  /** The FIFO replacement on a full TLB: the first flagged slot passes its
      flag to the next slot (cyclically) and is taken over by `vpn`. */
  function FifoReplace(s: seq<TranslationEntry>, vpn: int): seq<TranslationEntry>
    requires |s| == TLBSize && FirstReplace(s) >= 0
  {
    var v := FirstReplace(s);
    var s1 := s[v := s[v].(replace := false)];
    var next := (v + 1) % TLBSize;
    var s2 := s1[next := s1[next].(replace := true)];
    s2[v := Retargeted(s2[v], vpn)]
  }

  /** A TLB fault in the LRU build: fill the lowest invalid slot, otherwise
      reset the counter of the first slot with the largest interval and map
      it to `vpn`. */
  function TlbFaultLru(s: seq<TranslationEntry>, vpn: int): seq<TranslationEntry>
    requires FirstInvalid(s) == -1 ==> FirstLargest(s, false) >= 0
  {
    var i := FirstInvalid(s);
    if i >= 0 then s[i := Filled(s[i], vpn, i)]
    else
      var v := FirstLargest(s, false);
      s[v := Retargeted(s[v].(interval := 0), vpn)]
  }

  /** A TLB fault in the FIFO build: fill the lowest invalid slot, otherwise
      replace the flagged slot. */
  function TlbFaultFifo(s: seq<TranslationEntry>, vpn: int): seq<TranslationEntry>
    requires |s| == TLBSize && (FirstInvalid(s) == -1 ==> FirstReplace(s) >= 0)
  {
    var i := FirstInvalid(s);
    if i >= 0 then s[i := Filled(s[i], vpn, i)] else FifoReplace(s, vpn)
  }

  /** After an LRU-build fault some slot translates `vpn` to itself with
      interval 0, it is the lowest invalid slot if there was one and the
      first largest-interval slot otherwise, and no other slot changed. */
  lemma TlbFaultLruInstalls(s: seq<TranslationEntry>, vpn: int)
    requires FirstInvalid(s) == -1 ==> FirstLargest(s, false) >= 0
    ensures var t := TlbFaultLru(s, vpn);
      var k := if FirstInvalid(s) >= 0 then FirstInvalid(s) else FirstLargest(s, false);
      |t| == |s| && 0 <= k < |s| &&
      t[k].valid && t[k].virtualPage == vpn && t[k].physicalPage == vpn && t[k].interval == 0 &&
      (forall j :: 0 <= j < |s| && j != k ==> t[j] == s[j]) &&
      (FirstInvalid(s) >= 0 ==> t[k].replace == (s[k].replace || k == 0)) &&
      (FirstInvalid(s) == -1 ==> forall j :: 0 <= j < |s| && s[j].interval >= 0 ==> s[j].interval <= s[k].interval)
  {
  }

  /** A FIFO replacement on a full TLB whose flag sits on slot `p` alone
      evicts `p`, maps it to `vpn`, moves the flag to the next slot and
      leaves the TLB full, every other mapping unchanged. */
  lemma FifoReplaceRotates(s: seq<TranslationEntry>, vpn: int, p: int)
    requires |s| == TLBSize && 0 <= p < TLBSize && FlagAt(s, p)
    ensures FirstReplace(s) == p
    ensures var t := FifoReplace(s, vpn);
      |t| == TLBSize && FlagAt(t, (p + 1) % TLBSize) &&
      t[p].virtualPage == vpn && t[p].physicalPage == vpn &&
      (forall j :: 0 <= j < |s| ==> t[j].valid == s[j].valid && t[j].interval == s[j].interval) &&
      (forall j :: 0 <= j < |s| && j != p ==> t[j].virtualPage == s[j].virtualPage && t[j].physicalPage == s[j].physicalPage)
  {
    FlagFirst(s, p);
  }

  /** The fault on page `vpns[k]` takes the TLB from `trace[k]` to
      `trace[k + 1]` in the FIFO build. */
  ghost predicate FifoStepAt(trace: seq<seq<TranslationEntry>>, vpns: seq<int>, k: int)
    requires |trace| == |vpns| + 1 && 0 <= k < |vpns|
  {
    |trace[k]| == TLBSize && (FirstInvalid(trace[k]) == -1 ==> FirstReplace(trace[k]) >= 0) &&
    trace[k + 1] == TlbFaultFifo(trace[k], vpns[k])
  }

  /** `trace` is the succession of TLB states while the FIFO build handles
      faults on the pages `vpns`, one after another. */
  ghost predicate FifoTrace(trace: seq<seq<TranslationEntry>>, vpns: seq<int>)
  {
    |trace| == |vpns| + 1 && forall k :: 0 <= k < |vpns| ==> FifoStepAt(trace, vpns, k)
  }

  /** In `trace`, a full TLB at step `j` flagged at slot `r` alone is
      followed by a full TLB flagged at the next slot alone. */
  ghost predicate AdvancesAt(trace: seq<seq<TranslationEntry>>, j: int, r: int)
  {
    0 <= j < |trace| - 1 && 0 <= r < TLBSize && Full(trace[j]) && FlagAt(trace[j], r) ==>
      Full(trace[j + 1]) && FlagAt(trace[j + 1], (r + 1) % TLBSize)
  }

  ghost predicate FlagAdvances(trace: seq<seq<TranslationEntry>>)
  {
    forall j, r :: AdvancesAt(trace, j, r)
  }

  lemma FifoTraceAdvances(trace: seq<seq<TranslationEntry>>, vpns: seq<int>)
    requires FifoTrace(trace, vpns)
    ensures FlagAdvances(trace)
  {
    forall j, r ensures AdvancesAt(trace, j, r) {
      if 0 <= j < |trace| - 1 && 0 <= r < TLBSize && Full(trace[j]) && FlagAt(trace[j], r) {
        assert FifoStepAt(trace, vpns, j);
        FifoReplaceRotates(trace[j], vpns[j], r);
        assert trace[j + 1] == FifoReplace(trace[j], vpns[j]);
      }
    }
  }

  /** After `k` steps of such a trace from a full TLB flagged at `p` alone,
      the TLB is still full and flagged at slot (p + k) mod TLBSize alone. */
  lemma {:induction false} FlagAfter(trace: seq<seq<TranslationEntry>>, p: int, k: nat)
    requires k < |trace| && FlagAdvances(trace) && 0 <= p < TLBSize && Full(trace[0]) && FlagAt(trace[0], p)
    ensures Full(trace[k]) && FlagAt(trace[k], (p + k) % TLBSize)
    decreases k
  {
    if k > 0 {
      FlagAfter(trace, p, k - 1);
      assert AdvancesAt(trace, k - 1, (p + (k - 1)) % TLBSize);
      CyclicShift(p + (k - 1), 1);
    }
  }

  /** Successive faults on a full TLB whose flag sits on slot `p` alone evict
      the slots p, p+1, ... in cyclic order, each handing the flag on to the
      next, and the TLB stays full. */
  lemma FifoRotation(trace: seq<seq<TranslationEntry>>, vpns: seq<int>, p: int)
    requires FifoTrace(trace, vpns) && 0 <= p < TLBSize && Full(trace[0]) && FlagAt(trace[0], p)
    ensures forall k :: 0 <= k < |trace| ==> Full(trace[k]) && FlagAt(trace[k], (p + k) % TLBSize)
    ensures forall k :: 0 <= k < |trace| ==> FirstReplace(trace[k]) == (p + k) % TLBSize
  {
    FifoTraceAdvances(trace, vpns);
    forall k | 0 <= k < |trace|
      ensures Full(trace[k]) && FlagAt(trace[k], (p + k) % TLBSize)
      ensures FirstReplace(trace[k]) == (p + k) % TLBSize
    {
      FlagAfter(trace, p, k);
      FlagFirst(trace[k], (p + k) % TLBSize);
    }
  }

  /** The slot flagged alone is the first flagged slot. */
  lemma FlagFirst(s: seq<TranslationEntry>, p: int)
    requires 0 <= p < TLBSize && FlagAt(s, p)
    ensures FirstReplace(s) == p
  {
    assert s[p].replace;
  }

  /** Adding `j` to a slot index taken modulo the TLB size. */
  lemma CyclicShift(x: int, j: int)
    ensures (x % TLBSize + j) % TLBSize == (x + j) % TLBSize
  {
  }
}
