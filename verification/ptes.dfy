/** The system-PTE side of the sweep: the bitmap `InitializeSystemPtesBitMap` builds by walking
    the four-level page tables over the system PTE range, and the runs of that bitmap that
    `PgClearSystemPtesEncryptedContext` compares and `PgLocateSystemPtesObject` searches.

    Page-table entries are addressed by number: PTE number `n` maps the page `n` of the 48-bit
    address space, and the PDE, PPE and PXE above it are entries `n / 512`, `n / 512^2` and
    `n / 512^3` of their levels (section 4.5 of the Intel SDM, volume 3A, four-level paging). The
    `Get*Address` and `GetVirtualAddressMappedBy*` helpers of the self map are this arithmetic. */
module Ptes {
  import opened Bits
  import opened Block
  import opened Runs
  import opened Sweep

  const PAGE_SIZE: nat := 0x1000
  /** PTEs covered by one PDE, PPE and PXE. */
  const PDE_SPAN: nat := 0x200
  const PPE_SPAN: nat := 0x4_0000
  const PXE_SPAN: nat := 0x800_0000
  /** PTE numbers are 36 bits wide (address bits 47:12). */
  const PTE_NUMBERS: nat := 0x10_0000_0000

  /** The `MM_PTE_*_MASK` constants, from headers outside this model. */
  datatype PteMasks = PteMasks(
    valid: word, dirty: word, write: word, access: word,
    writeThrough: word, cacheDisable: word, copyOnWrite: word)
  {
    /** `VALID_PTE_SET_BITS`. */
    function SetBits(): word {
      valid | dirty | write | access
    }

    /** `VALID_PTE_UNSET_BITS`. */
    function UnsetBits(): word {
      writeThrough | cacheDisable | copyOnWrite
    }
  }

  /** The four levels of the page tables, each indexed by entry number at its level. */
  datatype Tables = Tables(pxe: nat -> word, ppe: nat -> word, pde: nat -> word, pte: nat -> word)

  /** `u.Hard.Valid`, bit 0. */
  predicate Present(e: word) {
    e & 1 != 0
  }

  /** `u.Hard.LargePage`, bit 7. */
  predicate LargePage(e: word) {
    e & 0x80 != 0
  }

  /** `u.Hard.NoExecute`, bit 63. */
  predicate NoExecute(e: word) {
    e & 0x8000_0000_0000_0000 != 0
  }

  /** PTE number `n` is reached through present PXE, PPE and PDE, and the PDE maps a page table
      rather than a large page. */
  predicate ReachedThroughPageTable(t: Tables, n: nat) {
    && Present(t.pxe(n / PXE_SPAN))
    && Present(t.ppe(n / PPE_SPAN))
    && Present(t.pde(n / PDE_SPAN))
    && !LargePage(t.pde(n / PDE_SPAN))
  }

  /** The PTE maps an executable, writable, dirty, accessed page that is neither write-through,
      uncached nor copy-on-write: what a page allocated for a guardian context looks like. */
  predicate ContextLike(mk: PteMasks, e: word) {
    && Present(e)
    && !NoExecute(e)
    && e & mk.SetBits() == mk.SetBits()
    && e & mk.UnsetBits() == 0
  }

  /** PTE number `n` is one whose bit the walk sets. */
  predicate Marked(t: Tables, mk: PteMasks, n: nat) {
    ReachedThroughPageTable(t, n) && ContextLike(mk, t.pte(n))
  }

  /** The bitmap's meaning: `NumberOfPtes + 1` bits, bit `i` set exactly when PTE `base + i` is
      marked and lies in the range. The do-while looks at the first PTE even when the range is
      empty, so bit 0 follows PTE `base` whatever `NumberOfPtes` is. */
  function BitMap(t: Tables, mk: PteMasks, base: nat, count: nat): (bm: seq<bool>)
    ensures |bm| == count + 1
  {
    seq(count + 1, i requires 0 <= i < count + 1 => (i < count || i == 0) && Marked(t, mk, base + i))
  }

  /** The first PTE number of the next table at a level that spans `span` PTEs. */
  function NextBlock(n: nat, span: nat): (m: nat)
    requires span > 0
    ensures m > n
  {
    (n / span + 1) * span
  }

  /** Every PTE number up to the next PXE boundary shares the PXE of `n`, so none of them is
      marked when that PXE is not present. */
  lemma SkipPxe(t: Tables, mk: PteMasks, n: nat)
    requires !Present(t.pxe(n / PXE_SPAN))
    ensures forall x {:trigger Marked(t, mk, x)} :: n <= x < NextBlock(n, PXE_SPAN) ==> !Marked(t, mk, x)
  {
    hide Present, ContextLike;
    forall x | n <= x < NextBlock(n, PXE_SPAN)
      ensures !Marked(t, mk, x)
    {
      assert x / PXE_SPAN == n / PXE_SPAN;
    }
  }

  lemma SkipPpe(t: Tables, mk: PteMasks, n: nat)
    requires !Present(t.ppe(n / PPE_SPAN))
    ensures forall x {:trigger Marked(t, mk, x)} :: n <= x < NextBlock(n, PPE_SPAN) ==> !Marked(t, mk, x)
  {
    hide Present, ContextLike;
    forall x | n <= x < NextBlock(n, PPE_SPAN)
      ensures !Marked(t, mk, x)
    {
      assert x / PPE_SPAN == n / PPE_SPAN;
    }
  }

  lemma SkipPde(t: Tables, mk: PteMasks, n: nat)
    requires !Present(t.pde(n / PDE_SPAN)) || LargePage(t.pde(n / PDE_SPAN))
    ensures forall x {:trigger Marked(t, mk, x)} :: n <= x < NextBlock(n, PDE_SPAN) ==> !Marked(t, mk, x)
  {
    hide Present, LargePage, ContextLike;
    forall x | n <= x < NextBlock(n, PDE_SPAN)
      ensures !Marked(t, mk, x)
    {
      assert x / PDE_SPAN == n / PDE_SPAN;
    }
  }

  /** `InitializeSystemPtesBitMap(BasePte, NumberOfPtes, BitMap)` on a cleared bitmap of
      `NumberOfPtes + 1` bits: the walk goes PTE by PTE through present page tables and skips a
      whole table at the first level that is not present (or maps a large page), and it sets
      exactly the bits of the marked PTEs of the range. */
  method InitializeBitMap(t: Tables, mk: PteMasks, base: nat, count: nat) returns (bm: seq<bool>)
    ensures bm == BitMap(t, mk, base, count)
  {
    hide Present, LargePage, ContextLike, NextBlock;
    bm := seq(count + 1, _ => false);
    var n := base;
    var first := true;
    while first || n < base + count
      invariant |bm| == count + 1
      invariant base <= n && (first ==> n == base) && (!first ==> base < n)
      invariant forall i {:trigger bm[i]} :: 0 <= i < count + 1 ==>
        bm[i] == (base + i < n && (i < count || i == 0) && Marked(t, mk, base + i))
      decreases base + count + 1 - n
    {
      if Present(t.pxe(n / PXE_SPAN)) {
        if Present(t.ppe(n / PPE_SPAN)) {
          if Present(t.pde(n / PDE_SPAN)) && !LargePage(t.pde(n / PDE_SPAN)) {
            if ContextLike(mk, t.pte(n)) {
              bm := bm[n - base := true];
            }
            n := n + 1;
          } else {
            SkipPde(t, mk, n);
            n := NextBlock(n, PDE_SPAN);
          }
        } else {
          SkipPpe(t, mk, n);
          n := NextBlock(n, PPE_SPAN);
        }
      } else {
        SkipPxe(t, mk, n);
        n := NextBlock(n, PXE_SPAN);
      }
      first := false;
    }
  }

  /** `GetVirtualAddressMappedByPte(BasePte + i)`: the address `i` pages above the one the first
      system PTE maps. */
  function VaOf(baseVa: u64, i: nat): u64 {
    (baseVa + i * PAGE_SIZE) % TWO_64
  }

  /** The number of the PTE that maps `va`. */
  function PteNumber(va: u64): nat {
    (va / PAGE_SIZE) % PTE_NUMBERS
  }

  /** The bitmap both system-PTE routines build over `PgBlock->NumberOfPtes` PTEs from the one
      mapping `baseVa`. */
  function SystemPtesBitMap(blk: PgBlock, t: Tables, mk: PteMasks, baseVa: u64): (bm: seq<bool>)
    ensures |bm| == blk.numberOfPtes + 1
  {
    BitMap(t, mk, PteNumber(baseVa), blk.numberOfPtes)
  }

  /** The runs the loop of both routines visits. */
  function VisitedRuns(blk: PgBlock, t: Tables, mk: PteMasks, baseVa: u64): seq<Run>
    requires blk.numberOfPtes < MAXULONG
  {
    Enumerate(SystemPtesBitMap(blk, t, mk, baseVa), 0, blk.numberOfPtes)
  }

  /** The loop of both routines visits the maximal runs of set bits of the bitmap, left to right,
      each once. */
  lemma VisitedRunsAreMaximalRuns(blk: PgBlock, t: Tables, mk: PteMasks, baseVa: u64)
    requires blk.numberOfPtes < MAXULONG
    ensures VisitedRuns(blk, t, mk, baseVa) == RunsFrom(SystemPtesBitMap(blk, t, mk, baseVa), 0)
    ensures forall r {:trigger IsMaximalRun(SystemPtesBitMap(blk, t, mk, baseVa), r)} ::
      r in VisitedRuns(blk, t, mk, baseVa) <==> IsMaximalRun(SystemPtesBitMap(blk, t, mk, baseVa), r)
    ensures InOrder(SystemPtesBitMap(blk, t, mk, baseVa), VisitedRuns(blk, t, mk, baseVa), 0)
  {
    hide Marked;
    var bm := SystemPtesBitMap(blk, t, mk, baseVa);
    EnumerateVisitsRuns(bm, 0, blk.numberOfPtes);
    RunsFromAreMaximal(bm, 0);
    RunsFromOrdered(bm, 0);
  }

  /** `BYTES_TO_PAGES(Size)`: pages needed to hold `size` bytes. */
  function BytesToPages(size: u64): nat {
    (size + PAGE_SIZE - 1) / PAGE_SIZE
  }

  /** The sweep compares a run only when it spans at least `BYTES_TO_PAGES(SizeINITKDBG)` pages. */
  predicate LongEnough(blk: PgBlock, r: Run) {
    r.start <= r.end && r.end - r.start >= BytesToPages(blk.sizeINITKDBG)
  }

  /** The region a run is compared as: its first address, and its length times `PAGE_SIZE`
      computed in 32 bits (`ULONG` times an `int` constant). */
  function PteRegion(baseVa: u64, r: Run): Region
    requires r.start <= r.end
  {
    Region(SystemPtes, VaOf(baseVa, r.start), ((r.end - r.start) * PAGE_SIZE) % TWO_32)
  }

  /** The runs of `rs` long enough to be compared, in order. */
  function LongRuns(blk: PgBlock, rs: seq<Run>): (ls: seq<Run>)
    ensures |ls| <= |rs|
    ensures forall r {:trigger r in ls} {:trigger r in rs} :: r in ls <==> r in rs && LongEnough(blk, r)
    ensures forall i {:trigger ls[i]} :: 0 <= i < |ls| ==> LongEnough(blk, ls[i])
  {
    if |rs| == 0 then []
    else
      var rest := LongRuns(blk, rs[1..]);
      assert forall r {:trigger r in rs} :: r in rs <==> r == rs[0] || r in rs[1..];
      if LongEnough(blk, rs[0]) then [rs[0]] + rest else rest
  }

  /** The regions the sweep compares, from the runs it visits. */
  function PteRegions(blk: PgBlock, baseVa: u64, rs: seq<Run>): (gs: seq<Region>)
  {
    var ls := LongRuns(blk, rs);
    seq(|ls|, i requires 0 <= i < |ls| => PteRegion(baseVa, ls[i]))
  }

  /** `PgClearSystemPtesEncryptedContext`: the regions it hands to `PgCompareFields`, in order:
      one for each maximal run of marked system PTEs at least `BYTES_TO_PAGES(SizeINITKDBG)`
      long, and no other. */
  function ClearSystemPtesRegions(blk: PgBlock, t: Tables, mk: PteMasks, baseVa: u64): (gs: seq<Region>)
    requires blk.numberOfPtes < MAXULONG
    ensures forall r {:trigger IsMaximalRun(SystemPtesBitMap(blk, t, mk, baseVa), r)} ::
      IsMaximalRun(SystemPtesBitMap(blk, t, mk, baseVa), r) && LongEnough(blk, r) ==> PteRegion(baseVa, r) in gs
    ensures forall g {:trigger g in gs} :: g in gs ==>
      exists r {:trigger IsMaximalRun(SystemPtesBitMap(blk, t, mk, baseVa), r)} ::
        IsMaximalRun(SystemPtesBitMap(blk, t, mk, baseVa), r) && LongEnough(blk, r) && g == PteRegion(baseVa, r)
  {
    hide SystemPtesBitMap, VisitedRuns, IsMaximalRun, PteRegions;
    var bm := SystemPtesBitMap(blk, t, mk, baseVa);
    VisitedRunsAreMaximalRuns(blk, t, mk, baseVa);
    RunsFromAreMaximal(bm, 0);
    PteRegionsOfRuns(blk, baseVa, VisitedRuns(blk, t, mk, baseVa), bm);
    PteRegions(blk, baseVa, VisitedRuns(blk, t, mk, baseVa))
  }

  /** The regions of a list holding exactly the maximal runs of `bm` are those of its long
      maximal runs. */
  lemma PteRegionsOfRuns(blk: PgBlock, baseVa: u64, rs: seq<Run>, bm: seq<bool>)
    requires forall r {:trigger IsMaximalRun(bm, r)} :: r in rs <==> IsMaximalRun(bm, r)
    ensures var gs := PteRegions(blk, baseVa, rs);
      && (forall r {:trigger IsMaximalRun(bm, r)} :: IsMaximalRun(bm, r) && LongEnough(blk, r) ==> PteRegion(baseVa, r) in gs)
      && (forall g {:trigger g in gs} :: g in gs ==>
            exists r {:trigger IsMaximalRun(bm, r)} :: IsMaximalRun(bm, r) && LongEnough(blk, r) && g == PteRegion(baseVa, r))
  {
    hide IsMaximalRun, PteRegion, LongRuns;
    var ls := LongRuns(blk, rs);
    var gs := PteRegions(blk, baseVa, rs);
    assert |gs| == |ls|;
    assert forall i {:trigger gs[i]} {:trigger ls[i]} :: 0 <= i < |ls| ==> ls[i] in ls && gs[i] == PteRegion(baseVa, ls[i]);
    forall r | IsMaximalRun(bm, r) && LongEnough(blk, r)
      ensures PteRegion(baseVa, r) in gs
    {
      assert r in ls;
      var i :| 0 <= i < |ls| && ls[i] == r;
      assert gs[i] == PteRegion(baseVa, r);
    }
    forall g | g in gs
      ensures exists r {:trigger IsMaximalRun(bm, r)} :: IsMaximalRun(bm, r) && LongEnough(blk, r) && g == PteRegion(baseVa, r)
    {
      var i :| 0 <= i < |gs| && gs[i] == g;
      assert ls[i] in rs && LongEnough(blk, ls[i]);
      assert IsMaximalRun(bm, ls[i]);
    }
  }

  /** The establisher lies in the run's address range short of its last
      `SizeCmpAppendDllSection` bytes (64-bit unsigned arithmetic). */
  predicate Covers(blk: PgBlock, baseVa: u64, est: u64, r: Run) {
    VaOf(baseVa, r.start) <= est < (VaOf(baseVa, r.end) - blk.sizeCmpAppendDllSection) % TWO_64
  }

  /** The position of the first run that covers the establisher, or `|rs|`. */
  function FirstCovering(blk: PgBlock, baseVa: u64, est: u64, rs: seq<Run>): (k: nat)
    ensures k <= |rs|
    ensures forall j {:trigger rs[j]} :: 0 <= j < k ==> !Covers(blk, baseVa, est, rs[j])
    ensures k < |rs| ==> Covers(blk, baseVa, est, rs[k])
  {
    if |rs| == 0 then 0
    else if Covers(blk, baseVa, est, rs[0]) then 0
    else 1 + FirstCovering(blk, baseVa, est, rs[1..])
  }

  /** `PgLocateSystemPtesObject`: the object takes the first visited run that covers its
      establisher as its region (size in 64 bits); with no such run it is left as it was. */
  function LocateSystemPtes(blk: PgBlock, t: Tables, mk: PteMasks, baseVa: u64, est: u64, obj: PgObject)
    : (r: PgObject)
    requires blk.numberOfPtes < MAXULONG
    ensures r.protection == obj.protection && r.callback == obj.callback && r.establisher == obj.establisher
    ensures r == obj || r.region == SystemPtes
  {
    var rs := VisitedRuns(blk, t, mk, baseVa);
    var k := FirstCovering(blk, baseVa, est, rs);
    if k == |rs| then obj
    else
      var run := rs[k];
      var len: nat := run.end - run.start;
      obj.(baseAddress := VaOf(baseVa, run.start), regionSize := (len * PAGE_SIZE) % TWO_64, region := SystemPtes)
  }

  /** The run found is a maximal run of the bitmap that covers the establisher, and no maximal run
      to its left does; when no maximal run covers it, nothing changes. */
  lemma LocateSystemPtesFindsFirstRun(blk: PgBlock, t: Tables, mk: PteMasks, baseVa: u64, est: u64, obj: PgObject)
    requires blk.numberOfPtes < MAXULONG
    ensures var bm := SystemPtesBitMap(blk, t, mk, baseVa);
      var rs := RunsFrom(bm, 0);
      var k := FirstCovering(blk, baseVa, est, rs);
      && (k == |rs| ==> LocateSystemPtes(blk, t, mk, baseVa, est, obj) == obj)
      && (k < |rs| ==>
            && IsMaximalRun(bm, rs[k]) && Covers(blk, baseVa, est, rs[k])
            && LocateSystemPtes(blk, t, mk, baseVa, est, obj)
               == obj.(baseAddress := VaOf(baseVa, rs[k].start),
                       regionSize := ((rs[k].end - rs[k].start) * PAGE_SIZE) % TWO_64, region := SystemPtes))
  {
    hide Covers, Enumerate, FirstCovering, SystemPtesBitMap;
    VisitedRunsAreMaximalRuns(blk, t, mk, baseVa);
  }
}
