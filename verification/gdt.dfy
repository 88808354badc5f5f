/** The i386 GDT support routines the scanner's kernel interface relies on:
    `Ke386GetGdtEntryThread`, which returns a thread's view of a GDT entry (the process's LDT
    descriptor for the LDT selector, the thread's TEB as the base of the TEB selector), and
    `KeI386SetGdtSelector`, which stores a descriptor above the kernel's fixed entries on every
    active processor. The selector constants come from headers outside this model and are
    parameters. */
module Gdt {
  import opened Bits

  type u8 = x: nat | x < 0x100
  type u16 = x: nat | x < 0x1_0000

  /** `KGDTENTRY`: the low limit, the base split over three fields, and the two flag bytes that
      hold the type, the privilege level and the high limit. */
  datatype Descriptor = Descriptor(limitLow: u16, baseLow: u16, baseMid: u8, flags1: u8, flags2: u8,
                                   baseHi: u8)

  /** `KGDT_NUMBER`, `KGDT_LDT` and `KGDT_R3_TEB`; the two selectors are byte offsets. */
  datatype Layout = Layout(number: nat, ldt: nat, r3Teb: nat)

  /** The 32-bit segment base a descriptor encodes. */
  function Base(d: Descriptor): (b: u32) {
    d.baseLow + 0x1_0000 * (d.baseMid) + 0x100_0000 * (d.baseHi)
  }

  /** A descriptor with its base replaced by `teb`, split the way the routine splits it. */
  function WithBase(d: Descriptor, teb: u32): (r: Descriptor)
    ensures Base(r) == teb
    ensures r.limitLow == d.limitLow && r.flags1 == d.flags1 && r.flags2 == d.flags2
  {
    SplitBase(teb);
    d.(baseLow := teb % 0x1_0000, baseMid := (teb / 0x1_0000) % 0x100, baseHi := teb / 0x100_0000)
  }

  /** The three base fields of a 32-bit value put it back together. */
  lemma SplitBase(b: u32)
    ensures b / 0x100_0000 < 0x100
    ensures b == b % 0x1_0000 + 0x1_0000 * ((b / 0x1_0000) % 0x100) + 0x100_0000 * (b / 0x100_0000)
  {
    var q := b / 0x1_0000;
    var lo := b % 0x1_0000;
    var mid := q % 0x100;
    var hi := q / 0x100;
    assert q == 0x100 * hi + mid;
    assert b == 0x100_0000 * hi + (0x1_0000 * mid + lo);
    assert b / 0x100_0000 == hi;
  }

  /** The part of a thread the routine reads: its TEB address and its process's LDT descriptor. */
  datatype Thread = Thread(teb: u32, ldtDescriptor: Descriptor)

  /** `Ke386GetGdtEntryThread`: `out` is the caller's descriptor, returned unchanged for an
      offset past the kernel's entries. The offset must be a multiple of 8. */
  function GetGdtEntryThread(layout: Layout, gdt: seq<Descriptor>, thread: Thread, offset: u32, out: Descriptor)
    : (r: Descriptor)
    requires offset % 8 == 0 && |gdt| >= layout.number
    ensures offset >= 8 * layout.number ==> r == out
    ensures offset < 8 * layout.number && offset == layout.ldt ==> r == thread.ldtDescriptor
    ensures offset < 8 * layout.number && offset != layout.ldt && offset != layout.r3Teb ==> r == gdt[offset / 8]
    ensures offset < 8 * layout.number && offset != layout.ldt && offset == layout.r3Teb ==>
      && Base(r) == thread.teb
      && r.limitLow == gdt[offset / 8].limitLow && r.flags1 == gdt[offset / 8].flags1
      && r.flags2 == gdt[offset / 8].flags2
  {
    if offset >= 8 * layout.number then out
    else if offset == layout.ldt then thread.ldtDescriptor
    else
      var d := gdt[offset / 8];
      if offset == layout.r3Teb then WithBase(d, thread.teb) else d
  }

  /** Reading the TEB selector's base back gives the thread's TEB, whatever the stored base was,
      and the stored entry is otherwise what the caller sees. */
  lemma TebEntryCarriesTeb(layout: Layout, gdt: seq<Descriptor>, thread: Thread, out: Descriptor)
    requires layout.r3Teb % 8 == 0 && layout.r3Teb < 8 * layout.number && layout.r3Teb != layout.ldt
    requires |gdt| >= layout.number && layout.r3Teb < TWO_32
    ensures var r := GetGdtEntryThread(layout, gdt, thread, layout.r3Teb, out);
      r == WithBase(gdt[layout.r3Teb / 8], thread.teb) && WithBase(r, Base(gdt[layout.r3Teb / 8])) == gdt[layout.r3Teb / 8]
  {
    var d := gdt[layout.r3Teb / 8];
    BaseSplitsBack(d);
  }

  /** Splitting a descriptor's own base back into it changes nothing. */
  lemma BaseSplitsBack(d: Descriptor)
    ensures WithBase(WithBase(d, 0), Base(d)) == d
  {
    var b := Base(d);
    var q := d.baseMid + 0x100 * (d.baseHi);
    assert b == 0x1_0000 * q + d.baseLow;
    assert b % 0x1_0000 == d.baseLow && b / 0x1_0000 == q;
    assert q % 0x100 == d.baseMid;
    assert b == 0x100_0000 * (d.baseHi) + (0x1_0000 * (d.baseMid) + d.baseLow);
    assert b / 0x100_0000 == d.baseHi;
  }

  datatype Status = Success | Unsuccessful

  /** The highest member of a nonempty set of processor numbers: the processor
      `KeFindFirstSetLeftAffinity` picks. */
  ghost function Highest(a: set<nat>): (m: nat)
    requires a != {}
    ensures m in a
    ensures forall j | j in a :: j <= m
    decreases |a|
  {
    var x :| x in a;
    var rest := a - {x};
    assert forall j | j in a :: j == x || j in rest;
    if rest == {} then x
    else
      var m := Highest(rest);
      if x > m then x else m
  }

  /** A selector above the kernel's fixed entries, with no table or privilege bits. */
  predicate Allocatable(layout: Layout, selector: u32) {
    selector % 8 == 0 && selector / 8 >= layout.number
  }

  /** Every active processor has a GDT long enough for the entry. */
  predicate Reachable(gdts: seq<seq<Descriptor>>, active: set<nat>, index: nat) {
    forall n | n in active :: n < |gdts| && index < |gdts[n]|
  }

  /** Every GDT of `gdts` with `value` at `index` on the processors of `active`. */
  function Stored(gdts: seq<seq<Descriptor>>, active: set<nat>, index: nat, value: Descriptor)
    : (r: seq<seq<Descriptor>>)
    requires Reachable(gdts, active, index)
    ensures |r| == |gdts|
    ensures forall n | 0 <= n < |r| :: |r[n]| == |gdts[n]|
  {
    seq(|gdts|, n requires 0 <= n < |gdts| => if n in active then gdts[n][index := value] else gdts[n])
  }

  /** An entry stored above the kernel's fixed entries is invisible to
      `Ke386GetGdtEntryThread`, which answers for every offset exactly as before the store. */
  lemma StoredEntriesStayHidden(layout: Layout, gdts: seq<seq<Descriptor>>, active: set<nat>, selector: u32,
                                value: Descriptor, n: nat, thread: Thread, offset: u32, out: Descriptor)
    requires Reachable(gdts, active, selector / 8) && Allocatable(layout, selector)
    requires n < |gdts| && |gdts[n]| >= layout.number && offset % 8 == 0
    ensures var after := Stored(gdts, active, selector / 8, value)[n];
      GetGdtEntryThread(layout, after, thread, offset, out) == GetGdtEntryThread(layout, gdts[n], thread, offset, out)
  {
  }

  /** `KeI386SetGdtSelector`: a selector with table or privilege bits, or one of the kernel's own
      entries, is refused; otherwise every active processor's GDT gets `value` at the selector's
      index, highest processor first, and nothing else changes. `active` is
      `KeActiveProcessors` as a set of processor numbers. */
  method SetGdtSelector(layout: Layout, gdts: seq<seq<Descriptor>>, active: set<nat>, selector: u32,
                        value: Descriptor) returns (status: Status, gdts': seq<seq<Descriptor>>)
    requires Allocatable(layout, selector) ==> Reachable(gdts, active, selector / 8)
    ensures !Allocatable(layout, selector) ==> status == Unsuccessful && gdts' == gdts
    ensures Allocatable(layout, selector) ==> status == Success
    ensures |gdts'| == |gdts|
    ensures Allocatable(layout, selector) ==> gdts' == Stored(gdts, active, selector / 8, value)
  {
    var index := selector / 8;
    if selector % 8 != 0 || index < layout.number {
      return Unsuccessful, gdts;
    }
    var target := active;
    gdts' := gdts;
    while target != {}
      invariant target <= active
      invariant |gdts'| == |gdts|
      invariant forall n | 0 <= n < |gdts| ::
        gdts'[n] == if n in active && n !in target then gdts[n][index := value] else gdts[n]
      decreases |target|
    {
      ghost var top := Highest(target);
      var bitNumber :| bitNumber in target && forall j | j in target :: j <= bitNumber;
      target := target - {bitNumber};
      gdts' := gdts'[bitNumber := gdts'[bitNumber][index := value]];
    }
    return Success, gdts';
  }

  /** The store reaches the entry on every active processor and touches nothing else. */
  lemma StoredReachesActive(gdts: seq<seq<Descriptor>>, active: set<nat>, index: nat, value: Descriptor, n: nat, i: nat)
    requires Reachable(gdts, active, index) && n < |gdts| && i < |gdts[n]|
    ensures Stored(gdts, active, index, value)[n][i] == if n in active && i == index then value else gdts[n][i]
  {
  }
}
