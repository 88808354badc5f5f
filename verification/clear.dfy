/** The top of the scanner: the gate in `PgClear` that decides whether the knowledge block is
    complete enough to sweep, the sweep itself (`PgClearWorker`: system PTEs from build 9200 on,
    then big pool), and `PgLocateObject`, which finds the region of an object. The processor
    switches (`IpiSingleCall`) and the work item are direct calls here. */
module Clear {
  import opened Bits
  import opened Outcomes
  import opened Block
  import opened Runs
  import opened Sweep
  import opened Ptes
  import opened Pool
  import opened Scan

  /** The kernel state the sweeps read. */
  datatype Kernel = Kernel(
    tables: Tables,                  // the page tables
    masks: PteMasks,                 // MM_PTE_*_MASK
    ptesVa: u64,                     // the address the PTE at PgBlock->BasePte maps
    pool: PoolParams,
    determine: u64 -> bv32,          // MmDeterminePoolType
    bigPages: seq<BigPage>,          // PoolBigPageTable[0 .. PoolBigPageTableSize)
    buildNumber: nat
  )

  /** The kernel state matches the block: the table holds `PoolBigPageTableSize` entries, and the
      PTE bitmap (`NumberOfPtes + 1` bits) has a size a `ULONG` can hold without reaching
      `MAXULONG`. */
  predicate Matches(blk: PgBlock, k: Kernel) {
    |k.bigPages| == blk.poolBigPageTableSize && blk.numberOfPtes < MAXULONG
  }

  /** `PgLocateObject`: the big-pool lookup, and the system-PTE lookup only when the object's
      type is still unset afterwards. `est` is the establisher `GetCounterBody` decodes. */
  function LocateObject(blk: PgBlock, k: Kernel, est: u64, obj: PgObject): (r: PgObject)
    requires Matches(blk, k)
    ensures FirstAccepted(k.pool, blk, k.determine, est, k.bigPages) < |k.bigPages| ==>
      r == LocatePool(k.pool, blk, k.determine, k.bigPages, est, obj)
    ensures FirstAccepted(k.pool, blk, k.determine, est, k.bigPages) == |k.bigPages| && obj.region != NoRegion ==>
      r == obj
    ensures FirstAccepted(k.pool, blk, k.determine, est, k.bigPages) == |k.bigPages| && obj.region == NoRegion ==>
      r == LocateSystemPtes(blk, k.tables, k.masks, k.ptesVa, est, obj)
  {
    hide FirstAccepted, LocateSystemPtes;
    var o := LocatePool(k.pool, blk, k.determine, k.bigPages, est, obj);
    if o.region == NoRegion then LocateSystemPtes(blk, k.tables, k.masks, k.ptesVa, est, o) else o
  }

  /** For an object not yet located: it lands in the first big-pool entry that holds the
      establisher if there is one; otherwise in the first maximal run of marked system PTEs that
      holds it; otherwise it stays unlocated and unchanged. */
  lemma LocateObjectFindsRegion(blk: PgBlock, k: Kernel, est: u64, obj: PgObject)
    requires Matches(blk, k) && obj.region == NoRegion
    ensures var r := LocateObject(blk, k, est, obj);
      var i := FirstAccepted(k.pool, blk, k.determine, est, k.bigPages);
      var rs := RunsFrom(SystemPtesBitMap(blk, k.tables, k.masks, k.ptesVa), 0);
      var j := FirstCovering(blk, k.ptesVa, est, rs);
      && (r.region == PoolBigPage <==> i < |k.bigPages|)
      && (r.region == SystemPtes <==> i == |k.bigPages| && j < |rs|)
      && (r.region == NoRegion <==> r == obj)
      && (i < |k.bigPages| ==> r.baseAddress == k.bigPages[i].va && r.regionSize == k.bigPages[i].numberOfPages)
      && (i == |k.bigPages| && j < |rs| ==>
            (IsMaximalRun(SystemPtesBitMap(blk, k.tables, k.masks, k.ptesVa), rs[j])
             && Covers(blk, k.ptesVa, est, rs[j]) && r.baseAddress == VaOf(k.ptesVa, rs[j].start)))
  {
    hide FirstAccepted, FirstCovering, SystemPtesBitMap, Covers, VisitedRuns;
    LocateSystemPtesFindsFirstRun(blk, k.tables, k.masks, k.ptesVa, est, obj);
  }

  /** `RTL_SOFT_ASSERTMSG` yields its expression, so the `||` chain of `PgClear` opens the gate
      as soon as one of the seven lookups succeeded; it opens for every resolved block. */
  function GateAsWritten(blk: PgBlock): (open: bool)
    ensures Resolved(blk) ==> open
  {
    || blk.offsetEntryPoint != 0
    || blk.sizeCmpAppendDllSection != 0
    || blk.sizeINITKDBG != 0
    || blk.poolBigPageTable != 0
    || blk.poolBigPageTableSize != 0
    || blk.expLargePoolTableLock != 0
    || blk.mmDeterminePoolType != 0
  }

  /** Every lookup the sweep depends on succeeded: the gate as evidently intended. */
  predicate Resolved(blk: PgBlock) {
    && blk.offsetEntryPoint != 0
    && blk.sizeCmpAppendDllSection != 0
    && blk.sizeINITKDBG != 0
    && blk.poolBigPageTable != 0
    && blk.poolBigPageTableSize != 0
    && blk.expLargePoolTableLock != 0
    && blk.mmDeterminePoolType != 0
  }

  /** The gate as written stays shut only when all seven lookups failed, and it opens for every
      resolved block. */
  lemma GateAsWrittenShutOnlyWhenNothingFound(blk: PgBlock)
    ensures !GateAsWritten(blk) <==>
      blk.offsetEntryPoint == 0 && blk.sizeCmpAppendDllSection == 0 && blk.sizeINITKDBG == 0
      && blk.poolBigPageTable == 0 && blk.poolBigPageTableSize == 0 && blk.expLargePoolTableLock == 0
      && blk.mmDeterminePoolType == 0
    ensures Resolved(blk) ==> GateAsWritten(blk)
  {
  }

  /** A block in which only `OffsetEntryPoint` was found passes the gate as written, although the
      big-page table the sweep walks was never located. */
  lemma GateAsWrittenAdmitsUnresolvedBlock(blk: PgBlock)
    requires blk.offsetEntryPoint == 0x1000 && blk.poolBigPageTable == 0
    ensures GateAsWritten(blk) && !Resolved(blk)
  {
  }

  /** `PgClearWorker`: the system-PTE sweep from build 9200 on, then the big-pool sweep, each
      from where the previous one left memory and the reference count. A big-pool sweep whose
      table or type routine the lookups did not find faults before it compares anything. */
  function ClearWorker(p: Params, blk: PgBlock, k: Kernel, mem: seq<byte>, jump: seq<byte>): (r: Option<Swept>)
    requires p.Valid() && blk.WellFormed() && Matches(blk, k)
    ensures r.Some? ==> |r.value.mem| == |mem|
    ensures PoolSweepFaults(k.pool, blk, k.bigPages) ==> r.None?
  {
    var ptes := if k.buildNumber >= 9200 then ClearSystemPtesRegions(blk, k.tables, k.masks, k.ptesVa) else [];
    var s1 :- CompareRegions(p, blk, mem, ptes, jump);
    if PoolSweepFaults(k.pool, blk, k.bigPages) then None
    else
      var s2 :- CompareRegions(p, blk.(referenceCount := s1.referenceCount), s1.mem,
                               ClearPoolRegions(k.pool, blk, k.determine, k.bigPages), jump);
      Some(Swept(s2.mem, s2.referenceCount, s1.created + s2.created))
  }

  /** The regions one worker run compares, in order. */
  function WorkerRegions(blk: PgBlock, k: Kernel): seq<Region>
    requires Matches(blk, k)
  {
    (if k.buildNumber >= 9200 then ClearSystemPtesRegions(blk, k.tables, k.masks, k.ptesVa) else [])
      + ClearPoolRegions(k.pool, blk, k.determine, k.bigPages)
  }

  /** Unless the big-pool sweep faults, the worker is one sweep over the system-PTE regions
      followed by the big-pool regions: an object is created only for a region of that list, and
      nothing changes when none is. */
  lemma ClearWorkerSweepsRegions(p: Params, blk: PgBlock, k: Kernel, mem: seq<byte>, jump: seq<byte>)
    requires p.Valid() && blk.WellFormed() && Matches(blk, k)
    ensures !PoolSweepFaults(k.pool, blk, k.bigPages) ==>
      ClearWorker(p, blk, k, mem, jump) == CompareRegions(p, blk, mem, WorkerRegions(blk, k), jump)
    ensures var r := ClearWorker(p, blk, k, mem, jump); var gs := WorkerRegions(blk, k);
      r.Some? ==>
        (&& |r.value.created| == |gs|
         && (forall i {:trigger r.value.created[i]} :: 0 <= i < |gs| && r.value.created[i].Some? ==>
               r.value.created[i].value == EncryptedObject(blk, gs[i].kind, gs[i].base, gs[i].size))
         && (NoneCreated(r.value.created) ==> r.value.mem == mem && r.value.referenceCount == blk.referenceCount))
  {
    hide CompareRegions, ClearSystemPtesRegions, ClearPoolRegions, PoolSweepFaults;
    var ptes := if k.buildNumber >= 9200 then ClearSystemPtesRegions(blk, k.tables, k.masks, k.ptesVa) else [];
    CompareRegionsAppend(p, blk, mem, ptes, ClearPoolRegions(k.pool, blk, k.determine, k.bigPages), jump);
  }

  /** `PgClear` as written: behind the `||` gate, a block with any one lookup found is swept, and
      the sweep faults when the big-pool table or type routine is among the lookups that failed. */
  function PgClear(p: Params, blk: PgBlock, k: Kernel, mem: seq<byte>, jump: seq<byte>): (r: Option<Swept>)
    requires p.Valid() && blk.WellFormed() && Matches(blk, k)
    ensures !GateAsWritten(blk) ==> r == Some(Swept(mem, blk.referenceCount, []))
    ensures GateAsWritten(blk) && !PoolSweepFaults(k.pool, blk, k.bigPages) ==>
      r == CompareRegions(p, blk, mem, WorkerRegions(blk, k), jump)
    ensures GateAsWritten(blk) && PoolSweepFaults(k.pool, blk, k.bigPages) ==> r.None?
  {
    hide ClearWorker, CompareRegions, WorkerRegions, PoolSweepFaults;
    ClearWorkerSweepsRegions(p, blk, k, mem, jump);
    if GateAsWritten(blk) then ClearWorker(p, blk, k, mem, jump) else Some(Swept(mem, blk.referenceCount, []))
  }

  /** `PgClear` with the gate as evidently intended: a block with a missing lookup is not swept,
      and a resolved block never reaches the faulting reads. */
  function PgClearIntended(p: Params, blk: PgBlock, k: Kernel, mem: seq<byte>, jump: seq<byte>): (r: Option<Swept>)
    requires p.Valid() && blk.WellFormed() && Matches(blk, k)
    ensures !Resolved(blk) ==> r == Some(Swept(mem, blk.referenceCount, []))
    ensures Resolved(blk) ==> r == CompareRegions(p, blk, mem, WorkerRegions(blk, k), jump)
  {
    hide ClearWorker, CompareRegions, WorkerRegions;
    ClearWorkerSweepsRegions(p, blk, k, mem, jump);
    if Resolved(blk) then ClearWorker(p, blk, k, mem, jump) else Some(Swept(mem, blk.referenceCount, []))
  }

  /** As written, a block in which only `OffsetEntryPoint` was found is swept: with big-page
      entries to read at the NULL table the sweep faults, and with none it compares the
      system-PTE regions. The intended gate leaves such a block alone. */
  lemma PgClearSweepsUnresolvedBlock(p: Params, blk: PgBlock, k: Kernel, mem: seq<byte>, jump: seq<byte>)
    requires p.Valid() && blk.WellFormed() && Matches(blk, k)
    requires blk.offsetEntryPoint != 0 && blk.poolBigPageTable == 0
    ensures PgClearIntended(p, blk, k, mem, jump) == Some(Swept(mem, blk.referenceCount, []))
    ensures |k.bigPages| > 0 ==> PgClear(p, blk, k, mem, jump).None?
    ensures |k.bigPages| == 0 ==>
      PgClear(p, blk, k, mem, jump) == CompareRegions(p, blk, mem, WorkerRegions(blk, k), jump)
  {
    hide CompareRegions, WorkerRegions, ClearWorker;
  }
}
