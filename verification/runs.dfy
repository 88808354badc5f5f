/** Runs of set bits in a bitmap (`RTL_BITMAP`), and the loop both system-PTE routines use to
    visit them: find a set bit from a hint, find where its run ends, clear the run, move the hint
    to the run's end. The bitmap is a sequence of bits; `RtlFindSetBits` and
    `RtlFindNextForwardRunClear` are modelled by their documented meaning. */
module Runs {
  /** `MAXULONG`, the "no bit found" answer of `RtlFindSetBits`. */
  const MAXULONG: nat := 0xFFFF_FFFF

  /** The half-open bit range `[start, end)`. */
  datatype Run = Run(start: nat, end: nat)

  /** `[r.start, r.end)` is a non-empty run of set bits that cannot be extended either way. */
  ghost predicate IsMaximalRun(bm: seq<bool>, r: Run) {
    && r.start < r.end <= |bm|
    && (forall j {:trigger bm[j]} :: r.start <= j < r.end ==> bm[j])
    && (r.start == 0 || !bm[r.start - 1])
    && (r.end == |bm| || !bm[r.end])
  }

  /** No bit below `hint` is set. */
  ghost predicate ClearBelow(bm: seq<bool>, hint: nat) {
    forall j {:trigger bm[j]} :: 0 <= j < |bm| && j < hint ==> !bm[j]
  }

  /** Every set bit lies below `k`. */
  ghost predicate SetBelow(bm: seq<bool>, k: nat) {
    forall j {:trigger bm[j]} :: 0 <= j < |bm| && bm[j] ==> j < k
  }

  /** The first set bit in `[lo, hi)`, or `hi`. */
  function FirstSet(bm: seq<bool>, lo: nat, hi: nat): (r: nat)
    requires lo <= hi <= |bm|
    ensures lo <= r <= hi
    ensures forall j {:trigger bm[j]} :: lo <= j < r ==> !bm[j]
    ensures r < hi ==> bm[r]
    decreases hi - lo
  {
    if lo == hi then hi else if bm[lo] then lo else FirstSet(bm, lo + 1, hi)
  }

  /** The first clear bit in `[lo, hi)`, or `hi`. */
  function FirstClear(bm: seq<bool>, lo: nat, hi: nat): (r: nat)
    requires lo <= hi <= |bm|
    ensures lo <= r <= hi
    ensures forall j {:trigger bm[j]} :: lo <= j < r ==> bm[j]
    ensures r < hi ==> !bm[r]
    decreases hi - lo
  {
    if lo == hi then hi else if !bm[lo] then lo else FirstClear(bm, lo + 1, hi)
  }

  /** `RtlFindSetBits(BitMap, 1, HintIndex)`: the first set bit at or after the hint, wrapping
      round to the start of the bitmap (a hint past the end starts at 0), or `MAXULONG`. */
  function FindSetBits(bm: seq<bool>, hint: nat): (r: nat)
    requires |bm| <= MAXULONG
    ensures r == MAXULONG <==> forall j {:trigger bm[j]} :: 0 <= j < |bm| ==> !bm[j]
    ensures r != MAXULONG ==> r < |bm| && bm[r]
    ensures r != MAXULONG && hint <= r ==> forall j {:trigger bm[j]} :: hint <= j < r ==> !bm[j]
    ensures r != MAXULONG && r < hint ==> forall j {:trigger bm[j]} :: (hint <= j < |bm| || 0 <= j < r) ==> !bm[j]
  {
    var h := if hint < |bm| then hint else 0;
    var a := FirstSet(bm, h, |bm|);
    if a < |bm| then a
    else
      var w := FirstSet(bm, 0, h);
      if w < h then w else MAXULONG
  }

  /** `RtlFindNextForwardRunClear(BitMap, FromIndex, &StartingRunIndex)`: where the next run of
      clear bits starts, which is where the run of set bits at `lo` ends; the end of the bitmap
      when no clear bit follows. */
  function FindNextForwardRunClear(bm: seq<bool>, lo: nat): (start: nat)
    requires lo <= |bm|
    ensures lo <= start <= |bm|
    ensures forall j {:trigger bm[j]} :: lo <= j < start ==> bm[j]
    ensures start == |bm| || !bm[start]
  {
    FirstClear(bm, lo, |bm|)
  }

  /** `RtlClearBits(BitMap, start, n)`. */
  function ClearBits(bm: seq<bool>, start: nat, n: nat): (r: seq<bool>)
    requires start + n <= |bm|
    ensures |r| == |bm|
    ensures forall j {:trigger r[j]} :: 0 <= j < |bm| ==> r[j] == (bm[j] && !(start <= j < start + n))
  {
    seq(|bm|, j requires 0 <= j < |bm| => bm[j] && !(start <= j < start + n))
  }

  /** The runs the sweep loop visits, in order: the do-while body finds a set bit from the hint,
      finds the end of its run and clears it; the loop goes on while the hint, now the run's end,
      is below `limit` (`NumberOfPtes`). */
  function Enumerate(bm: seq<bool>, hint: nat, limit: nat): (rs: seq<Run>)
    requires |bm| <= MAXULONG && hint <= |bm|
    requires ClearBelow(bm, hint)
    ensures RunsWithin(bm, hint, rs)
    decreases |bm| - hint
  {
    hide FindSetBits, FindNextForwardRunClear, ClearBits, ClearBelow, RunsWithin;
    var h := FindSetBits(bm, hint);
    if h == MAXULONG then
      NoRuns(bm, hint);
      []
    else
      var s := FindNextForwardRunClear(bm, h);
      ClearRunKeeps(bm, hint, h, s);
      var bm' := ClearBits(bm, h, s - h);
      var rest := if s < limit then Enumerate(bm', s, limit) else [];
      RunsCons(bm, bm', hint, h, s, rest);
      [Run(h, s)] + rest
  }

  /** `rs` lists non-empty runs from `lo` on, left to right without overlap, each starting at a
      set bit. */
  ghost predicate RunsWithin(bm: seq<bool>, lo: nat, rs: seq<Run>) {
    && (forall i {:trigger rs[i]} :: 0 <= i < |rs| ==> lo <= rs[i].start < rs[i].end <= |bm| && bm[rs[i].start])
    && (forall i {:trigger rs[i]} :: 0 < i < |rs| ==> rs[i - 1].end <= rs[i].start)
  }

  /** The empty list is such a list. */
  lemma NoRuns(bm: seq<bool>, lo: nat)
    ensures RunsWithin(bm, lo, [])
  {
  }

  /** A run `[h, s)` starting at a set bit, followed by such a list from `s` on over a bitmap with
      fewer bits set, is such a list from the hint on. */
  lemma RunsCons(bm: seq<bool>, bm': seq<bool>, hint: nat, h: nat, s: nat, rest: seq<Run>)
    requires hint <= h < s <= |bm| && bm[h] && |bm'| == |bm|
    requires forall x {:trigger bm'[x]} :: 0 <= x < |bm| && bm'[x] ==> bm[x]
    requires RunsWithin(bm', s, rest)
    ensures RunsWithin(bm, hint, [Run(h, s)] + rest)
  {
    var rs := [Run(h, s)] + rest;
    assert forall i {:trigger rs[i]} :: 0 < i < |rs| ==> rs[i] == rest[i - 1];
  }

  /** The run found from the hint starts at or after it and is not empty; clearing it leaves
      nothing set below its end and sets no bit that was clear. */
  lemma ClearRunKeeps(bm: seq<bool>, hint: nat, h: nat, s: nat)
    requires |bm| <= MAXULONG && hint <= |bm| && ClearBelow(bm, hint)
    requires h == FindSetBits(bm, hint) && h != MAXULONG && s == FindNextForwardRunClear(bm, h)
    ensures hint <= h < s <= |bm| && bm[h]
    ensures ClearBelow(ClearBits(bm, h, s - h), s)
    ensures forall x {:trigger ClearBits(bm, h, s - h)[x]} :: 0 <= x < |bm| && ClearBits(bm, h, s - h)[x] ==> bm[x]
  {
  }

  /** Reference: the maximal runs of set bits at or after `i`, left to right. */
  function RunsFrom(bm: seq<bool>, i: nat): (rs: seq<Run>)
    decreases |bm| - i
  {
    if i >= |bm| then []
    else if !bm[i] then RunsFrom(bm, i + 1)
    else
      var e := FirstClear(bm, i, |bm|);
      [Run(i, e)] + RunsFrom(bm, e)
  }

  /** A maximal run that starts inside a run of set bits beginning at `i` is that run. */
  lemma MaximalRunAt(bm: seq<bool>, i: nat, r: Run)
    requires i < |bm| && bm[i] && (i == 0 || !bm[i - 1])
    requires IsMaximalRun(bm, r) && i <= r.start < FirstClear(bm, i, |bm|)
    ensures r == Run(i, FirstClear(bm, i, |bm|))
  {
  }

  /** The reference lists exactly the maximal runs that start at or after `i`. */
  lemma {:induction false} RunsFromAreMaximal(bm: seq<bool>, i: nat)
    requires 0 < i < |bm| ==> !bm[i - 1] || !bm[i]
    ensures forall r {:trigger IsMaximalRun(bm, r)} :: r in RunsFrom(bm, i) <==> IsMaximalRun(bm, r) && i <= r.start
    decreases |bm| - i
  {
    if i >= |bm| {
      assert RunsFrom(bm, i) == [];
      forall r | IsMaximalRun(bm, r)
        ensures r.start < i
      {
      }
    } else if !bm[i] {
      RunsFromAreMaximal(bm, i + 1);
      forall r | IsMaximalRun(bm, r) && i <= r.start
        ensures i + 1 <= r.start
      {
        assert bm[r.start];
      }
    } else {
      var e := FirstClear(bm, i, |bm|);
      RunsFromAreMaximal(bm, e);
      assert IsMaximalRun(bm, Run(i, e));
      assert RunsFrom(bm, i) == [Run(i, e)] + RunsFrom(bm, e);
      forall r
        ensures r in RunsFrom(bm, i) <==> IsMaximalRun(bm, r) && i <= r.start
      {
        if IsMaximalRun(bm, r) && i <= r.start && r.start < e {
          MaximalRunAt(bm, i, r);
        }
      }
    }
  }

  /** `rs` are non-empty runs at or after `i` starting on a set bit, left to right, each separated
      from the next by at least one clear bit. */
  ghost predicate InOrder(bm: seq<bool>, rs: seq<Run>, i: nat) {
    && (forall a {:trigger rs[a]} :: 0 <= a < |rs| ==> i <= rs[a].start < rs[a].end <= |bm| && bm[rs[a].start])
    && (forall a, b {:trigger rs[a], rs[b]} :: 0 <= a < b < |rs| ==> rs[a].end < rs[b].start)
  }

  /** The reference's runs come in order. */
  lemma {:induction false} RunsFromOrdered(bm: seq<bool>, i: nat)
    ensures InOrder(bm, RunsFrom(bm, i), i)
    decreases |bm| - i
  {
    if i >= |bm| {
    } else if !bm[i] {
      RunsFromOrdered(bm, i + 1);
    } else {
      var e := FirstClear(bm, i, |bm|);
      RunsFromOrdered(bm, e);
      var rest := RunsFrom(bm, e);
      var rs := [Run(i, e)] + rest;
      forall a | 0 <= a < |rs|
        ensures i <= rs[a].start < rs[a].end <= |bm| && bm[rs[a].start]
      {
        if a > 0 {
          assert rs[a] == rest[a - 1];
        }
      }
      forall a, b | 0 <= a < b < |rs|
        ensures rs[a].end < rs[b].start
      {
        assert rs[b] == rest[b - 1];
        if a == 0 {
          assert bm[rest[b - 1].start];
        } else {
          assert rs[a] == rest[a - 1];
        }
      }
    }
  }

  /** Skipping clear bits does not change the runs ahead. */
  lemma {:induction false} RunsFromSkipsClear(bm: seq<bool>, i: nat, j: nat)
    requires i <= j
    requires forall x {:trigger bm[x]} :: i <= x < j && x < |bm| ==> !bm[x]
    ensures RunsFrom(bm, i) == RunsFrom(bm, j)
    decreases j - i
  {
    if i < j && i < |bm| {
      RunsFromSkipsClear(bm, i + 1, j);
    }
  }

  /** The runs at or after `i` depend only on the bits from `i` on. */
  lemma {:induction false} RunsFromAgree(bm: seq<bool>, bm': seq<bool>, i: nat)
    requires |bm| == |bm'|
    requires forall x {:trigger bm[x]} {:trigger bm'[x]} :: i <= x < |bm| ==> bm[x] == bm'[x]
    ensures RunsFrom(bm, i) == RunsFrom(bm', i)
    decreases |bm| - i
  {
    if i < |bm| {
      if !bm[i] {
        RunsFromAgree(bm, bm', i + 1);
      } else {
        var e := FirstClear(bm, i, |bm|);
        FirstClearAgree(bm, bm', i, |bm|);
        RunsFromAgree(bm, bm', e);
      }
    }
  }

  lemma {:induction false} FirstClearAgree(bm: seq<bool>, bm': seq<bool>, lo: nat, hi: nat)
    requires lo <= hi <= |bm| == |bm'|
    requires forall x {:trigger bm[x]} {:trigger bm'[x]} :: lo <= x < |bm| ==> bm[x] == bm'[x]
    ensures FirstClear(bm, lo, hi) == FirstClear(bm', lo, hi)
    decreases hi - lo
  {
    if lo < hi {
      FirstClearAgree(bm, bm', lo + 1, hi);
    }
  }

  /** With no bit set from `i` on, there are no runs ahead. */
  lemma RunsFromNone(bm: seq<bool>, i: nat)
    requires forall x {:trigger bm[x]} :: i <= x < |bm| ==> !bm[x]
    ensures RunsFrom(bm, i) == []
  {
    if i < |bm| {
      RunsFromSkipsClear(bm, i, |bm|);
    }
  }

  /** Clearing the run `[h, s)` found from the hint leaves nothing set below `s`, keeps every
      other bit, and keeps every bit from `s` on. */
  lemma ClearRunState(bm: seq<bool>, hint: nat, h: nat, s: nat, k: nat)
    requires hint <= h < s <= |bm|
    requires ClearBelow(bm, hint) && SetBelow(bm, k)
    requires forall j {:trigger bm[j]} :: hint <= j < h ==> !bm[j]
    ensures ClearBelow(ClearBits(bm, h, s - h), s)
    ensures SetBelow(ClearBits(bm, h, s - h), k)
    ensures forall x {:trigger bm[x]} :: s <= x < |bm| ==> bm[x] == ClearBits(bm, h, s - h)[x]
  {
  }

  /** One turn of the sweep loop: the run found from the hint, then, while its end is below
      `limit`, the runs visited from there over the bitmap with that run cleared. */
  lemma EnumerateCons(bm: seq<bool>, hint: nat, limit: nat)
    requires |bm| <= MAXULONG && hint <= |bm|
    requires ClearBelow(bm, hint)
    requires FindSetBits(bm, hint) != MAXULONG
    ensures var h := FindSetBits(bm, hint); var s := FindNextForwardRunClear(bm, h);
      && hint <= h < s <= |bm|
      && ClearBelow(ClearBits(bm, h, s - h), s)
      && Enumerate(bm, hint, limit)
         == [Run(h, s)] + (if s < limit then Enumerate(ClearBits(bm, h, s - h), s, limit) else [])
  {
    hide FindSetBits, FindNextForwardRunClear, ClearBits, ClearBelow, RunsWithin;
    var h := FindSetBits(bm, hint);
    ClearRunKeeps(bm, hint, h, FindNextForwardRunClear(bm, h));
  }

  /** With no bit set, the sweep loop visits nothing. */
  lemma EnumerateNone(bm: seq<bool>, hint: nat, limit: nat)
    requires |bm| <= MAXULONG && hint <= |bm|
    requires ClearBelow(bm, hint)
    requires FindSetBits(bm, hint) == MAXULONG
    ensures Enumerate(bm, hint, limit) == []
  {
    hide FindSetBits, FindNextForwardRunClear, ClearBits, ClearBelow, RunsWithin;
  }

  /** The reference at a set bit: the run from there, then the runs from its end. */
  lemma RunsFromAt(bm: seq<bool>, h: nat)
    requires h < |bm| && bm[h]
    ensures RunsFrom(bm, h) == [Run(h, FindNextForwardRunClear(bm, h))] + RunsFrom(bm, FindNextForwardRunClear(bm, h))
  {
  }

  /** The sweep loop visits exactly the maximal runs of the bitmap, left to right, when the hint
      starts with nothing set below it and every set bit lies below `limit` (or is bit 0, which the
      do-while looks at even when `limit` is 0). */
  lemma {:induction false} EnumerateVisitsRuns(bm: seq<bool>, hint: nat, limit: nat)
    requires |bm| <= MAXULONG && hint <= |bm|
    requires ClearBelow(bm, hint)
    requires SetBelow(bm, if limit == 0 then 1 else limit)
    ensures Enumerate(bm, hint, limit) == RunsFrom(bm, hint)
    decreases |bm| - hint
  {
    hide FindSetBits, ClearBits, FirstClear, FindNextForwardRunClear, Enumerate, RunsFrom;
    var h := FindSetBits(bm, hint);
    if h == MAXULONG {
      EnumerateNone(bm, hint, limit);
      RunsFromNone(bm, hint);
    } else {
      assert hint <= h;
      hide ClearBelow;
      RunsFromSkipsClear(bm, hint, h);
      var s := FindNextForwardRunClear(bm, h);
      RunsFromAt(bm, h);
      EnumerateCons(bm, hint, limit);
      var k := if limit == 0 then 1 else limit;
      ClearRunState(bm, hint, h, s, k);
      var bm' := ClearBits(bm, h, s - h);
      if s < limit {
        EnumerateVisitsRuns(bm', s, limit);
        RunsFromAgree(bm, bm', s);
      } else {
        RunsFromNone(bm, s);
      }
    }
  }
}
