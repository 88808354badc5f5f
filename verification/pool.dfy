/** The big-pool side of the sweep: `PgClearPoolEncryptedContext` compares the large
    non-paged allocations listed in the big-page table, and `PgLocatePoolObject` looks up the
    allocation that holds an establisher. `MmDeterminePoolType` is a parameter. */
module Pool {
  import opened Bits
  import opened Outcomes
  import opened Block
  import opened Sweep

  /** A `POOL_BIG_PAGES` entry: the allocation's address (its low bit flags a free entry) and its
      size in bytes. */
  datatype BigPage = BigPage(va: u64, numberOfPages: u64)

  /** Constants from headers outside this model: `POOL_BIG_TABLE_ENTRY_FREE` and
      `BASE_POOL_TYPE_MASK`. */
  datatype PoolParams = PoolParams(entryFree: word, basePoolTypeMask: bv32)

  /** `NonPagedPool` of `POOL_TYPE`. */
  const NON_PAGED_POOL: bv32 := 0

  /** The entry's address carries the free flag. */
  predicate Free(pp: PoolParams, e: BigPage) {
    (e.va as word) & pp.entryFree == pp.entryFree
  }

  /** `CheckType`: the entry's pool type masked with `BASE_POOL_TYPE_MASK`. */
  function CheckType(pp: PoolParams, determine: u64 -> bv32, e: BigPage): bv32 {
    determine(e.va) & pp.basePoolTypeMask
  }

  /** The sweep compares an entry that is in use, whose pool type masked with
      `BASE_POOL_TYPE_MASK` is `NonPagedPool`, and whose size exceeds `SizeINITKDBG`. */
  predicate SweepKeeps(pp: PoolParams, blk: PgBlock, determine: u64 -> bv32, e: BigPage) {
    && !Free(pp, e)
    && CheckType(pp, determine, e) == NON_PAGED_POOL
    && e.numberOfPages > blk.sizeINITKDBG
  }

  /** The entries of `table` the sweep compares, in table order. */
  function KeptEntries(pp: PoolParams, blk: PgBlock, determine: u64 -> bv32, table: seq<BigPage>)
    : (ks: seq<BigPage>)
    ensures |ks| <= |table|
    ensures forall e {:trigger e in ks} {:trigger e in table} ::
      e in ks <==> e in table && SweepKeeps(pp, blk, determine, e)
  {
    if |table| == 0 then []
    else
      var rest := KeptEntries(pp, blk, determine, table[1..]);
      assert forall e {:trigger e in table} :: e in table <==> e == table[0] || e in table[1..];
      if SweepKeeps(pp, blk, determine, table[0]) then [table[0]] + rest else rest
  }

  /** The region an entry is compared as. */
  function PoolRegion(e: BigPage): Region {
    Region(PoolBigPage, e.va, e.numberOfPages)
  }

  /** `PgClearPoolEncryptedContext`: the regions it hands to `PgCompareFields`, in order: one
      for each entry the sweep keeps, and no other. The table holds the `PoolBigPageTableSize`
      entries at `PoolBigPageTable`. */
  function ClearPoolRegions(pp: PoolParams, blk: PgBlock, determine: u64 -> bv32, table: seq<BigPage>)
    : (gs: seq<Region>)
    ensures |gs| <= |table|
    ensures forall e {:trigger e in table} ::
      e in table && SweepKeeps(pp, blk, determine, e) ==> PoolRegion(e) in gs
    ensures forall g {:trigger g in gs} :: g in gs ==>
      exists e {:trigger e in table} :: e in table && SweepKeeps(pp, blk, determine, e) && g == PoolRegion(e)
  {
    hide SweepKeeps, KeptEntries;
    var ks := KeptEntries(pp, blk, determine, table);
    var gs := seq(|ks|, i requires 0 <= i < |ks| => PoolRegion(ks[i]));
    assert forall i {:trigger ks[i]} :: 0 <= i < |ks| ==> ks[i] in ks && gs[i] == PoolRegion(ks[i]);
    gs
  }

  /** Before comparing anything the sweep faults: it reads the first entry of a table at a NULL
      `PoolBigPageTable`, or calls a NULL `MmDeterminePoolType` for the first entry in use. Free
      entries are skipped before the call, so a NULL routine with a table of free entries runs
      through. */
  predicate PoolSweepFaults(pp: PoolParams, blk: PgBlock, table: seq<BigPage>) {
    || (blk.poolBigPageTable == 0 && |table| > 0)
    || (blk.mmDeterminePoolType == 0 && exists i {:trigger table[i]} :: 0 <= i < |table| && !Free(pp, table[i]))
  }

  /** One more entry makes the sweep fault exactly when its read or its type lookup does. */
  lemma PoolSweepFaultsAppend(pp: PoolParams, blk: PgBlock, table: seq<BigPage>, e: BigPage)
    ensures PoolSweepFaults(pp, blk, table + [e]) <==>
      || PoolSweepFaults(pp, blk, table)
      || blk.poolBigPageTable == 0
      || (blk.mmDeterminePoolType == 0 && !Free(pp, e))
  {
    var t := table + [e];
    assert t[|table|] == e;
    assert forall i {:trigger table[i]} :: 0 <= i < |table| ==> t[i] == table[i];
  }

  /** A fault within the first `n` entries is a fault of the whole sweep. */
  lemma PoolSweepFaultsPrefix(pp: PoolParams, blk: PgBlock, table: seq<BigPage>, n: nat)
    requires n <= |table|
    ensures PoolSweepFaults(pp, blk, table[..n]) ==> PoolSweepFaults(pp, blk, table)
    ensures n == 0 ==> !PoolSweepFaults(pp, blk, table[..n])
  {
    assert forall i {:trigger table[..n][i]} :: 0 <= i < n ==> table[..n][i] == table[i];
  }

  /** One turn of the loop of `PgClearPoolEncryptedContext`, at entry `e`: it faults when it
      reads a table the lookups did not find, or calls a routine they did not find for an entry
      in use; otherwise `e`'s region joins the regions `gs` so far when the sweep keeps it. */
  method VisitEntry(pp: PoolParams, blk: PgBlock, determine: u64 -> bv32, e: BigPage, gs: seq<Region>)
    returns (r: Option<seq<Region>>)
    ensures r.None? <==> blk.poolBigPageTable == 0 || (blk.mmDeterminePoolType == 0 && !Free(pp, e))
    ensures r.Some? && SweepKeeps(pp, blk, determine, e) ==> r.value == gs + [PoolRegion(e)]
    ensures r.Some? && !SweepKeeps(pp, blk, determine, e) ==> r.value == gs
  {
    hide Free, CheckType;
    if blk.poolBigPageTable == 0 {
      return None;
    }
    if !Free(pp, e) {
      if blk.mmDeterminePoolType == 0 {
        return None;
      }
      var checkType := CheckType(pp, determine, e);
      if checkType == NON_PAGED_POOL {
        if e.numberOfPages > blk.sizeINITKDBG {
          return Some(gs + [PoolRegion(e)]);
        }
      }
    }
    return Some(gs);
  }

  /** The loop of `PgClearPoolEncryptedContext`, index by index: None when a turn faults, which
      happens exactly when the sweep does, and otherwise the regions `ClearPoolRegions` lists. */
  method ClearPoolLoop(pp: PoolParams, blk: PgBlock, determine: u64 -> bv32, table: seq<BigPage>)
    returns (r: Option<seq<Region>>)
    requires |table| == blk.poolBigPageTableSize
    ensures r.None? <==> PoolSweepFaults(pp, blk, table)
    ensures r.Some? ==> r.value == ClearPoolRegions(pp, blk, determine, table)
  {
    hide ClearPoolRegions, PoolSweepFaults;
    var gs := [];
    var index := 0;
    PoolSweepFaultsPrefix(pp, blk, table, 0);
    while index < blk.poolBigPageTableSize
      invariant index <= |table|
      invariant gs == ClearPoolRegions(pp, blk, determine, table[..index])
      invariant !PoolSweepFaults(pp, blk, table[..index])
    {
      assert table[..index + 1] == table[..index] + [table[index]];
      PoolSweepFaultsAppend(pp, blk, table[..index], table[index]);
      ClearPoolRegionsAppend(pp, blk, determine, table[..index], table[index]);
      var next := VisitEntry(pp, blk, determine, table[index], gs);
      if next.None? {
        PoolSweepFaultsPrefix(pp, blk, table, index + 1);
        return None;
      }
      gs := next.value;
      index := index + 1;
    }
    assert table[..index] == table;
    r := Some(gs);
  }

  /** One more entry adds its region exactly when the sweep keeps it. */
  lemma {:induction false} KeptEntriesAppend(pp: PoolParams, blk: PgBlock, determine: u64 -> bv32, table: seq<BigPage>,
                                             e: BigPage)
    ensures KeptEntries(pp, blk, determine, table + [e])
         == KeptEntries(pp, blk, determine, table) + if SweepKeeps(pp, blk, determine, e) then [e] else []
    decreases |table|
  {
    hide SweepKeeps;
    if |table| > 0 {
      assert (table + [e])[1..] == table[1..] + [e];
      KeptEntriesAppend(pp, blk, determine, table[1..], e);
    }
  }

  /** One more entry adds its region exactly when the sweep keeps it. */
  lemma ClearPoolRegionsAppend(pp: PoolParams, blk: PgBlock, determine: u64 -> bv32, table: seq<BigPage>,
                               e: BigPage)
    ensures ClearPoolRegions(pp, blk, determine, table + [e])
         == ClearPoolRegions(pp, blk, determine, table) + if SweepKeeps(pp, blk, determine, e) then [PoolRegion(e)] else []
  {
    hide SweepKeeps;
    KeptEntriesAppend(pp, blk, determine, table, e);
  }

  /** The lookup accepts an entry in use whose pool type, unmasked, is `NonPagedPool`, whose size
      exceeds `SizeINITKDBG`, and whose range `[Va, Va + NumberOfPages)` (64-bit sum) holds the
      establisher. */
  predicate LocateAccepts(pp: PoolParams, blk: PgBlock, determine: u64 -> bv32, est: u64, e: BigPage) {
    && !Free(pp, e)
    && determine(e.va) == NON_PAGED_POOL
    && e.numberOfPages > blk.sizeINITKDBG
    && e.va <= est < (e.va + e.numberOfPages) % TWO_64
  }

  /** The position of the first entry the lookup accepts, or `|table|`. */
  function FirstAccepted(pp: PoolParams, blk: PgBlock, determine: u64 -> bv32, est: u64, table: seq<BigPage>)
    : (k: nat)
    ensures k <= |table|
    ensures forall j {:trigger table[j]} :: 0 <= j < k ==> !LocateAccepts(pp, blk, determine, est, table[j])
    ensures k < |table| ==> LocateAccepts(pp, blk, determine, est, table[k])
  {
    if |table| == 0 then 0
    else if LocateAccepts(pp, blk, determine, est, table[0]) then 0
    else 1 + FirstAccepted(pp, blk, determine, est, table[1..])
  }

  /** `PgLocatePoolObject`: the object takes the first accepted entry as its region; with none,
      it is left as it was. */
  function LocatePool(pp: PoolParams, blk: PgBlock, determine: u64 -> bv32, table: seq<BigPage>, est: u64,
                      obj: PgObject): (r: PgObject)
    ensures r.protection == obj.protection && r.callback == obj.callback && r.establisher == obj.establisher
    ensures var k := FirstAccepted(pp, blk, determine, est, table);
      && (k == |table| ==> r == obj)
      && (k < |table| ==> r.region == PoolBigPage && r.baseAddress == table[k].va
                          && r.regionSize == table[k].numberOfPages)
  {
    var k := FirstAccepted(pp, blk, determine, est, table);
    if k == |table| then obj
    else obj.(baseAddress := table[k].va, regionSize := table[k].numberOfPages, region := PoolBigPage)
  }

  /** The lookup tests the pool type without the mask the sweep applies, so an entry the sweep
      compares because only flag bits above the base type are set is never found by the lookup. */
  lemma LocateSkipsFlaggedTypes(pp: PoolParams, blk: PgBlock, determine: u64 -> bv32, est: u64, e: BigPage)
    requires SweepKeeps(pp, blk, determine, e)
    requires determine(e.va) != NON_PAGED_POOL
    ensures !LocateAccepts(pp, blk, determine, est, e)
  {
  }

  /** Otherwise the lookup accepts exactly the entries the sweep compares that hold the
      establisher. */
  lemma LocateAcceptsKeptEntries(pp: PoolParams, blk: PgBlock, determine: u64 -> bv32, est: u64, e: BigPage)
    requires determine(e.va) == NON_PAGED_POOL
    ensures LocateAccepts(pp, blk, determine, est, e)
        <==> SweepKeeps(pp, blk, determine, e) && e.va <= est < (e.va + e.numberOfPages) % TWO_64
  {
  }
}
