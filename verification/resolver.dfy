/** The byte-pattern rules `InitializePgBlock` uses to fill the knowledge block: the walk after
    `CmpAppendDllSection` that finds `SizeCmpAppendDllSection`, `BtcEnable` and
    `OffsetEntryPoint`; the walk through the big-pool lookup routine that finds the big-page table,
    its size and its lock; the walk through `MmAllocateMappingAddress` that finds the system-PTE
    bitmap; the choice of prologue pattern and the `INITKDBG` size. The instruction decoder
    (`DetourGetInstructionLength`), `ScanBytes` and `__RVA_TO_VA` are outside this model: a walk
    receives the instructions the decoder yields, each with the address its RIP-relative operand
    names, and kernel memory is a 64-bit load function. */
module Resolver {
  import opened Bits
  import opened Outcomes
  import opened Runs

  /** One decoded instruction: its length, the bytes from its first byte on (the rules read up
      to byte 14, past the end of short instructions), and the address `__RVA_TO_VA(pc + 3)`
      yields for it. */
  datatype Insn = Insn(len: nat, code: seq<byte>, target: u64)

  /** Every instruction shows the fifteen bytes the rules may read. */
  predicate Decoded(s: seq<Insn>) {
    forall i | 0 <= i < |s| :: |s[i].code| >= 15
  }

  /** `ret` (`c3`) ends the pool and PTE walks. */
  predicate Ret(t: Insn) {
    t.len == 1 && |t.code| > 0 && t.code[0] == 0xc3
  }

  // ---------------------------------------------------------------------------------------
  // The walk from `CmpAppendDllSection` to `jmp r8`

  /** What the first walk reports. */
  datatype EntryFacts = EntryFacts(sizeCmpAppendDllSection: u32, btcEnable: bool, offsetEntryPoint: u32)

  /** How a rule of the walk is read: as the code is written, or as it is evidently meant. */
  datatype Reading = AsWritten | Intended

  /** `jmp r8` (`41 ff e0`), the end of the compare loop. */
  predicate JumpsR8(code: seq<byte>)
    requires |code| >= 3
  {
    code[0] == 0x41 && code[1] == 0xff && code[2] == 0xe0
  }

  /** The loop condition of the walk continues only while all three bytes differ from
      `41 ff e0`, so it ends at any instruction that shares one of them. */
  predicate LeavesAsWritten(code: seq<byte>)
    requires |code| >= 3
  {
    !(code[0] != 0x41 && code[1] != 0xff && code[2] != 0xe0)
  }

  /** The instruction that ends the walk. */
  predicate Leaves(rd: Reading, code: seq<byte>)
    requires |code| >= 3
  {
    match rd
    case AsWritten => LeavesAsWritten(code)
    case Intended => JumpsR8(code)
  }

  /** `btc rax, rax` (`48 0f bb c0`) at bytes 11..14 after the size load. */
  predicate BtcFollows(code: seq<byte>)
    requires |code| >= 15
  {
    code[11] == 0x48 && code[12] == 0x0f && code[13] == 0xbb && code[14] == 0xc0
  }

  /** The test as written sets `BtcEnable` when any one of the four bytes matches. */
  predicate BtcFollowsAsWritten(code: seq<byte>)
    requires |code| >= 15
  {
    code[11] == 0x48 || code[12] == 0x0f || code[13] == 0xbb || code[14] == 0xc0
  }

  predicate Marks(rd: Reading, code: seq<byte>)
    requires |code| >= 15
  {
    match rd
    case AsWritten => BtcFollowsAsWritten(code)
    case Intended => BtcFollows(code)
  }

  /** The 8-byte `xor [rdx + rcx * 8 + disp32], rax` (`48 31 84 ca`) whose displacement is the
      size of the compared block. */
  predicate SizeLoad(t: Insn) {
    t.len == 8 && |t.code| >= 8 && t.code[0] == 0x48 && t.code[1] == 0x31 && t.code[2] == 0x84 && t.code[3] == 0xca
  }

  function SizeOf(t: Insn): u32
    requires |t.code| >= 8
  {
    U32Of(t.code[4..8])
  }

  /** The 6-byte `mov eax, [rdx + disp32]` (`8b 82`) whose displacement is the entry offset. */
  predicate OffsetLoad(t: Insn) {
    t.len == 6 && |t.code| >= 6 && t.code[0] == 0x8b && t.code[1] == 0x82
  }

  function OffsetOf(t: Insn): u32
    requires |t.code| >= 6
  {
    U32Of(t.code[2..6])
  }

  /** One instruction's effect on the size and the BTC flag: only while no size is known. */
  function EntryStep(rd: Reading, t: Insn, f: EntryFacts): EntryFacts
    requires |t.code| >= 15
  {
    if f.sizeCmpAppendDllSection == 0 && SizeLoad(t) then
      f.(sizeCmpAppendDllSection := SizeOf(t), btcEnable := f.btcEnable || Marks(rd, t.code))
    else f
  }

  /** The walk: it ends at the leaving instruction, at the end of the stream, or right after the
      entry-offset load. */
  function EntryWalk(rd: Reading, s: seq<Insn>, f: EntryFacts): (r: EntryFacts)
    requires Decoded(s)
    ensures f.btcEnable ==> r.btcEnable
    ensures f.sizeCmpAppendDllSection != 0 ==> r.sizeCmpAppendDllSection == f.sizeCmpAppendDllSection
    decreases |s|
  {
    if |s| == 0 || Leaves(rd, s[0].code) then f
    else
      var g := EntryStep(rd, s[0], f);
      if OffsetLoad(s[0]) then g.(offsetEntryPoint := OffsetOf(s[0]))
      else EntryWalk(rd, s[1..], g)
  }

  /** Where the walk stops: the first instruction that leaves the loop or loads the offset. */
  function EntryEnd(rd: Reading, s: seq<Insn>): (k: nat)
    requires Decoded(s)
    ensures k <= |s|
    ensures forall j {:trigger s[j]} :: 0 <= j < k ==> !Leaves(rd, s[j].code) && !OffsetLoad(s[j])
    ensures k < |s| ==> Leaves(rd, s[k].code) || OffsetLoad(s[k])
  {
    if |s| == 0 || Leaves(rd, s[0].code) || OffsetLoad(s[0]) then 0
    else 1 + EntryEnd(rd, s[1..])
  }

  /** The first size load with a nonzero displacement, or `|s|`. */
  function FirstSize(s: seq<Insn>): (k: nat)
    ensures k <= |s|
    ensures forall j {:trigger s[j]} :: 0 <= j < k ==> !(SizeLoad(s[j]) && SizeOf(s[j]) != 0)
    ensures k < |s| ==> SizeLoad(s[k]) && SizeOf(s[k]) != 0
  {
    if |s| == 0 || (SizeLoad(s[0]) && SizeOf(s[0]) != 0) then 0
    else 1 + FirstSize(s[1..])
  }

  /** Some size load among `s` carries the BTC marker. */
  predicate AnyMarked(rd: Reading, s: seq<Insn>)
    requires Decoded(s)
    decreases |s|
  {
    |s| > 0 && ((SizeLoad(s[0]) && Marks(rd, s[0].code)) || AnyMarked(rd, s[1..]))
  }

  function Min(a: nat, b: nat): nat {
    if a <= b then a else b
  }

  /** The walk reports the entry offset of the offset load it stops at, if it stops at one. */
  lemma {:induction false} EntryWalkFindsOffset(rd: Reading, s: seq<Insn>, f: EntryFacts)
    requires Decoded(s)
    ensures var k := EntryEnd(rd, s);
      EntryWalk(rd, s, f).offsetEntryPoint
        == (if k < |s| && !Leaves(rd, s[k].code) then OffsetOf(s[k]) else f.offsetEntryPoint)
    decreases |s|
  {
    hide Leaves, Marks, OffsetOf, SizeOf, OffsetLoad, SizeLoad;
    if |s| > 0 && !Leaves(rd, s[0].code) && !OffsetLoad(s[0]) {
      EntryWalkFindsOffset(rd, s[1..], EntryStep(rd, s[0], f));
      assert EntryEnd(rd, s) == EntryEnd(rd, s[1..]) + 1;
    }
  }

  /** From a block with no size yet, the walk reports the size of the first nonzero size load
      before it stops. */
  lemma {:induction false} EntryWalkFindsSize(rd: Reading, s: seq<Insn>, f: EntryFacts)
    requires Decoded(s) && f.sizeCmpAppendDllSection == 0
    ensures var k := EntryEnd(rd, s); var n := FirstSize(s);
      EntryWalk(rd, s, f).sizeCmpAppendDllSection == (if n < k then SizeOf(s[n]) else 0)
    decreases |s|
  {
    hide Leaves, Marks, OffsetOf, SizeOf;
    if |s| > 0 && !Leaves(rd, s[0].code) {
      var g := EntryStep(rd, s[0], f);
      if OffsetLoad(s[0]) {
      } else if g.sizeCmpAppendDllSection != 0 {
        EntryWalkKeepsSize(rd, s[1..], g);
        assert FirstSize(s) == 0;
      } else {
        EntryWalkFindsSize(rd, s[1..], g);
        assert EntryEnd(rd, s) == EntryEnd(rd, s[1..]) + 1;
        assert FirstSize(s) == FirstSize(s[1..]) + 1;
      }
    }
  }

  /** The instructions whose size loads count for the BTC flag: those before the walk stops,
      up to and including the first nonzero size load. */
  ghost function SizeWindow(rd: Reading, s: seq<Insn>): seq<Insn>
    requires Decoded(s)
  {
    s[..Min(EntryEnd(rd, s), FirstSize(s) + 1)]
  }

  /** Past an instruction that neither stops the walk nor carries a nonzero size, the window is
      that instruction followed by the window of the rest. */
  lemma SizeWindowCons(rd: Reading, s: seq<Insn>)
    requires Decoded(s) && |s| > 0 && !Leaves(rd, s[0].code) && !OffsetLoad(s[0])
    requires !(SizeLoad(s[0]) && SizeOf(s[0]) != 0)
    ensures Decoded(s[1..])
    ensures SizeWindow(rd, s) == [s[0]] + SizeWindow(rd, s[1..])
  {
    hide Leaves, Marks, OffsetOf, SizeOf, OffsetLoad, SizeLoad;
    EntryEndCons(rd, s);
    FirstSizeCons(s);
    var k, n := EntryEnd(rd, s[1..]), FirstSize(s[1..]);
    hide EntryEnd, FirstSize;
    var m := Min(k, n + 1);
    assert Min(k + 1, n + 2) == m + 1;
    assert s[..m + 1] == [s[0]] + s[1..][..m];
  }

  /** A marked size load in `[t] + w` is `t` or one in `w`. */
  lemma AnyMarkedCons(rd: Reading, t: Insn, w: seq<Insn>)
    requires |t.code| >= 15 && Decoded(w)
    ensures Decoded([t] + w)
    ensures AnyMarked(rd, [t] + w) <==> (SizeLoad(t) && Marks(rd, t.code)) || AnyMarked(rd, w)
  {
    hide Marks, SizeLoad;
    assert ([t] + w)[0] == t;
    assert ([t] + w)[1..] == w;
  }

  /** Past an instruction that does not stop the walk, the walk stops one later. */
  lemma EntryEndCons(rd: Reading, s: seq<Insn>)
    requires Decoded(s) && |s| > 0 && !Leaves(rd, s[0].code) && !OffsetLoad(s[0])
    ensures EntryEnd(rd, s) == EntryEnd(rd, s[1..]) + 1
  {
    hide Leaves, Marks, OffsetOf, SizeOf, OffsetLoad, SizeLoad;
  }

  /** Past an instruction without a nonzero size, the first nonzero size comes one later. */
  lemma FirstSizeCons(s: seq<Insn>)
    requires |s| > 0 && !(SizeLoad(s[0]) && SizeOf(s[0]) != 0)
    ensures FirstSize(s) == FirstSize(s[1..]) + 1
  {
    hide Leaves, Marks, OffsetOf, SizeOf, OffsetLoad, SizeLoad;
  }

  /** From a block with no size yet, the walk sets the BTC flag exactly when a size load up to
      the first nonzero one, before the walk stops, carries the marker. */
  lemma {:induction false} EntryWalkFindsBtc(rd: Reading, s: seq<Insn>, f: EntryFacts)
    requires Decoded(s) && f.sizeCmpAppendDllSection == 0
    ensures EntryWalk(rd, s, f).btcEnable <==> f.btcEnable || AnyMarked(rd, SizeWindow(rd, s))
    decreases |s|
  {
    hide Leaves, Marks, OffsetOf, SizeOf;
    if |s| > 0 && !Leaves(rd, s[0].code) {
      var g := EntryStep(rd, s[0], f);
      if OffsetLoad(s[0]) {
        assert SizeWindow(rd, s) == [];
      } else if g.sizeCmpAppendDllSection != 0 {
        EntryWalkKeepsSize(rd, s[1..], g);
        assert FirstSize(s) == 0 && EntryEnd(rd, s) >= 1;
        var t := s[..1];
        assert t == [s[0]] && t[1..] == [];
      } else {
        EntryWalkFindsBtc(rd, s[1..], g);
        SizeWindowCons(rd, s);
        hide SizeWindow, EntryWalk, AnyMarked;
        AnyMarkedCons(rd, s[0], SizeWindow(rd, s[1..]));
        assert g.btcEnable == (f.btcEnable || (SizeLoad(s[0]) && Marks(rd, s[0].code)));
      }
    } else {
      assert SizeWindow(rd, s) == [];
    }
  }

  /** What the walk finds, from a block with no size yet: the entry offset of the offset load
      it stops at; the size of the first nonzero size load before it; and the BTC flag of any
      size load up to and including that one. */
  lemma EntryWalkFinds(rd: Reading, s: seq<Insn>, f: EntryFacts)
    requires Decoded(s) && f.sizeCmpAppendDllSection == 0
    ensures var r := EntryWalk(rd, s, f); var k := EntryEnd(rd, s); var n := FirstSize(s);
      && r.offsetEntryPoint == (if k < |s| && !Leaves(rd, s[k].code) then OffsetOf(s[k]) else f.offsetEntryPoint)
      && r.sizeCmpAppendDllSection == (if n < k then SizeOf(s[n]) else 0)
      && (r.btcEnable <==> f.btcEnable || AnyMarked(rd, s[..Min(k, n + 1)]))
  {
    EntryWalkFindsOffset(rd, s, f);
    EntryWalkFindsSize(rd, s, f);
    EntryWalkFindsBtc(rd, s, f);
  }

  /** Once a size is known, the walk keeps it and the BTC flag. */
  lemma {:induction false} EntryWalkKeepsSize(rd: Reading, s: seq<Insn>, f: EntryFacts)
    requires Decoded(s) && f.sizeCmpAppendDllSection != 0
    ensures EntryWalk(rd, s, f).sizeCmpAppendDllSection == f.sizeCmpAppendDllSection
    ensures EntryWalk(rd, s, f).btcEnable == f.btcEnable
    decreases |s|
  {
    if |s| > 0 && !Leaves(rd, s[0].code) && !OffsetLoad(s[0]) {
      EntryWalkKeepsSize(rd, s[1..], f);
    }
  }

  /** Fifteen bytes of instruction text, padded with `nop`. */
  function Text(b: seq<byte>): (c: seq<byte>)
    ensures |c| >= 15
  {
    b + seq(15, _ => 0x90)
  }

  /** An instruction with a `41` (REX.B) prefix, such as `pop r15` (`41 5f`), ends the walk as
      written, so the entry offset loaded after it is never found. */
  lemma EntryWalkAsWrittenStopsAtRexB()
    ensures var s := [Insn(2, Text([0x41, 0x5f]), 0), Insn(6, Text([0x8b, 0x82, 0x10, 0x01, 0, 0]), 0)];
      var f := EntryFacts(0, false, 0);
      && Decoded(s)
      && EntryWalk(AsWritten, s, f).offsetEntryPoint == 0
      && EntryWalk(Intended, s, f).offsetEntryPoint == 0x110
  {
    var s := [Insn(2, Text([0x41, 0x5f]), 0), Insn(6, Text([0x8b, 0x82, 0x10, 0x01, 0, 0]), 0)];
    var f := EntryFacts(0, false, 0);
    assert Text([0x8b, 0x82, 0x10, 0x01, 0, 0])[2..6] == [0x10, 0x01, 0, 0];
    assert s[1..] == [s[1]];
  }

  /** A size load followed by `mov rax, rdx; ror rax, cl` (`48 8b c2 48 d3 c8`) has `48` at byte
      11, which the test as written takes for the BTC marker. */
  lemma EntryWalkAsWrittenSeesBtc()
    ensures var c := [0x48, 0x31, 0x84, 0xca, 0x00, 0x01, 0x00, 0x00, 0x48, 0x8b, 0xc2, 0x48, 0xd3, 0xc8, 0x90];
      var s := [Insn(8, c, 0)];
      var f := EntryFacts(0, false, 0);
      && Decoded(s)
      && EntryWalk(AsWritten, s, f).btcEnable
      && !EntryWalk(Intended, s, f).btcEnable
      && EntryWalk(Intended, s, f).sizeCmpAppendDllSection == 0x100
  {
    var c: seq<byte> := [0x48, 0x31, 0x84, 0xca, 0x00, 0x01, 0x00, 0x00, 0x48, 0x8b, 0xc2, 0x48, 0xd3, 0xc8, 0x90];
    assert c[4..8] == [0x00, 0x01, 0x00, 0x00];
    var s := [Insn(8, c, 0)];
    assert s[1..] == [];
  }

  // ---------------------------------------------------------------------------------------
  // The walk through the big-pool lookup routine

  /** What the second walk tracks: the slots of the table pointer and of the table size, and the
      lock (`PgBlock->ExpLargePoolTableLock`, zero while unknown). */
  datatype PoolFacts = PoolFacts(pageTable: Option<u64>, pageTableSize: Option<u64>, lock: u64)

  /** A 7-byte REX-prefixed `mov r64, [rip + disp32]`: a candidate slot. */
  predicate SlotLoad(t: Insn) {
    t.len == 7 && |t.code| >= 2 && t.code[0] & 0xf0 == 0x40 && t.code[1] == 0x8b
  }

  /** A 7-byte REX-prefixed `lea r64, [rip + disp32]` or `prefetchw [rip + disp32]`
      (`0f 0d 0d`): a reference to the lock. */
  predicate LockRef(t: Insn) {
    && t.len == 7 && |t.code| >= 3
    && ((t.code[0] & 0xf0 == 0x40 && t.code[1] == 0x8d)
        || (t.code[0] == 0x0f && t.code[1] == 0x0d && t.code[2] == 0x0d))
  }

  /** A slot is kept only if the value it holds is nonzero and page aligned. */
  predicate Plausible(peek: u64 -> u64, a: u64) {
    peek(a) != 0 && peek(a) % 0x1000 == 0
  }

  /** All three are known. */
  predicate Complete(f: PoolFacts) {
    f.pageTable.Some? && f.pageTableSize.Some? && f.lock != 0
  }

  function PoolStep(peek: u64 -> u64, t: Insn, f: PoolFacts): PoolFacts {
    if SlotLoad(t) then
      if f.pageTable.None? then f.(pageTable := if Plausible(peek, t.target) then Some(t.target) else None)
      else if f.pageTableSize.None? then
        f.(pageTableSize := if Plausible(peek, t.target) then Some(t.target) else None)
      else f
    else if LockRef(t) && f.lock == 0 then f.(lock := t.target)
    else f
  }

  /** The walk: it ends at `ret`, at the end of the stream, or as soon as all three are known. */
  function PoolWalk(peek: u64 -> u64, s: seq<Insn>, f: PoolFacts): (r: PoolFacts)
    ensures f.pageTable.Some? ==> r.pageTable == f.pageTable
    ensures f.pageTableSize.Some? ==> r.pageTableSize == f.pageTableSize
    ensures f.lock != 0 ==> r.lock == f.lock
    ensures Complete(f) ==> r == f
    decreases |s|
  {
    if |s| == 0 || Ret(s[0]) then f
    else
      var g := PoolStep(peek, s[0], f);
      if Complete(g) then g else PoolWalk(peek, s[1..], g)
  }

  /** The slot one instruction offers: its target, if it is a slot load holding a plausible value. */
  function SlotOf(peek: u64 -> u64, t: Insn): seq<u64> {
    if SlotLoad(t) && Plausible(peek, t.target) then [t.target] else []
  }

  /** The lock one instruction offers: its target, if it is a nonzero lock reference. */
  function LockOf(t: Insn): seq<u64> {
    if LockRef(t) && t.target != 0 then [t.target] else []
  }

  /** The targets of the slot loads holding a plausible value, in order. */
  function Slots(peek: u64 -> u64, s: seq<Insn>): (ts: seq<u64>)
    ensures forall a {:trigger a in ts} :: a in ts ==> Plausible(peek, a)
  {
    if |s| == 0 then [] else SlotOf(peek, s[0]) + Slots(peek, s[1..])
  }

  /** The nonzero targets of the lock references, in order. */
  function Locks(s: seq<Insn>): (ls: seq<u64>)
    ensures forall a {:trigger a in ls} :: a in ls ==> a != 0
  {
    if |s| == 0 then [] else LockOf(s[0]) + Locks(s[1..])
  }

  /** The position of the first `ret`, or `|s|`. */
  function FirstRet(s: seq<Insn>): (k: nat)
    ensures k <= |s|
    ensures forall j {:trigger s[j]} :: 0 <= j < k ==> !Ret(s[j])
    ensures k < |s| ==> Ret(s[k])
  {
    if |s| == 0 || Ret(s[0]) then 0 else 1 + FirstRet(s[1..])
  }

  /** The facts after taking what is still unknown from the candidates, in order: the table
      slot from the first plausible slot, the size slot from the next one, the lock from the
      first nonzero reference. */
  function Fill(f: PoolFacts, slots: seq<u64>, locks: seq<u64>): PoolFacts {
    var rest := if f.pageTable.None? && |slots| > 0 then slots[1..] else slots;
    PoolFacts(
      if f.pageTable.None? && |slots| > 0 then Some(slots[0]) else f.pageTable,
      if f.pageTableSize.None? && |rest| > 0 then Some(rest[0]) else f.pageTableSize,
      if f.lock == 0 && |locks| > 0 then locks[0] else f.lock)
  }

  /** One step of the walk takes from an instruction what `Fill` would take from its
      candidates: a slot load and a lock reference never coincide, and a known fact is kept. */
  lemma FillStep(peek: u64 -> u64, t: Insn, f: PoolFacts, sl: seq<u64>, lk: seq<u64>)
    ensures Fill(f, SlotOf(peek, t) + sl, LockOf(t) + lk) == Fill(PoolStep(peek, t, f), sl, lk)
  {
    assert SlotLoad(t) ==> !LockRef(t);
    if SlotOf(peek, t) == [] {
      assert SlotOf(peek, t) + sl == sl;
    }
    if LockOf(t) == [] {
      assert LockOf(t) + lk == lk;
    }
  }

  /** The candidates before the first `ret` are those of the first instruction and those of the
      rest before its first `ret`. */
  lemma CandidatesCons(peek: u64 -> u64, s: seq<Insn>)
    requires |s| > 0 && !Ret(s[0])
    ensures FirstRet(s) == FirstRet(s[1..]) + 1
    ensures Slots(peek, s[..FirstRet(s)]) == SlotOf(peek, s[0]) + Slots(peek, s[1..][..FirstRet(s[1..])])
    ensures Locks(s[..FirstRet(s)]) == LockOf(s[0]) + Locks(s[1..][..FirstRet(s[1..])])
  {
    hide SlotOf, LockOf;
    var k := FirstRet(s[1..]);
    var t := s[..k + 1];
    assert t[0] == s[0];
    assert t[1..] == s[1..][..k];
    assert Slots(peek, t) == SlotOf(peek, t[0]) + Slots(peek, t[1..]);
    assert Locks(t) == LockOf(t[0]) + Locks(t[1..]);
  }

  /** The walk takes the first candidates of each kind before the first `ret`; the early exit
      once all three are known changes nothing. */
  lemma {:induction false} PoolWalkFills(peek: u64 -> u64, s: seq<Insn>, f: PoolFacts)
    ensures var k := FirstRet(s);
      PoolWalk(peek, s, f) == Fill(f, Slots(peek, s[..k]), Locks(s[..k]))
    decreases |s|
  {
    if |s| > 0 && !Ret(s[0]) {
      hide Slots, Locks, FirstRet, Fill, SlotOf, LockOf;
      var g := PoolStep(peek, s[0], f);
      CandidatesCons(peek, s);
      var k := FirstRet(s[1..]);
      FillStep(peek, s[0], f, Slots(peek, s[1..][..k]), Locks(s[1..][..k]));
      if Complete(g) {
        FilledStaysFilled(g, Slots(peek, s[1..][..k]), Locks(s[1..][..k]));
      } else {
        PoolWalkFills(peek, s[1..], g);
      }
    } else {
      assert s[..FirstRet(s)] == [];
    }
  }

  /** Nothing is left to take once all three are known. */
  lemma FilledStaysFilled(f: PoolFacts, sl: seq<u64>, lk: seq<u64>)
    requires Complete(f)
    ensures Fill(f, sl, lk) == f
  {
  }

  /** Where the table and its size end up: the larger of the two slot values is the table, the
      smaller the size (the source compares the values, since the two loads come in either
      order). */
  function PoolTable(peek: u64 -> u64, f: PoolFacts): (r: Option<(u64, u64)>)
    ensures r.Some? <==> Complete(f)
    ensures r.Some? ==>
      && r.value.0 >= r.value.1
      && ((r.value.0 == peek(f.pageTable.value) && r.value.1 == peek(f.pageTableSize.value))
          || (r.value.0 == peek(f.pageTableSize.value) && r.value.1 == peek(f.pageTable.value)))
  {
    if !Complete(f) then None
    else if peek(f.pageTable.value) > peek(f.pageTableSize.value) then
      Some((peek(f.pageTable.value), peek(f.pageTableSize.value)))
    else Some((peek(f.pageTableSize.value), peek(f.pageTable.value)))
  }

  /** From nothing known: the table and size come from the first two plausible slots before the
      first `ret`, the lock from the first nonzero lock reference there, and the table is found
      exactly when there are two such slots and one such reference. */
  lemma PoolWalkFinds(peek: u64 -> u64, s: seq<Insn>)
    ensures var r := PoolWalk(peek, s, PoolFacts(None, None, 0));
      var sl := Slots(peek, s[..FirstRet(s)]);
      var lk := Locks(s[..FirstRet(s)]);
      && (PoolTable(peek, r).Some? <==> |sl| >= 2 && |lk| >= 1)
      && (|sl| >= 2 ==> r.pageTable == Some(sl[0]) && r.pageTableSize == Some(sl[1]))
      && r.lock == (if |lk| > 0 then lk[0] else 0)
      && (forall a {:trigger a in sl} :: a in sl ==> Plausible(peek, a))
  {
    PoolWalkFills(peek, s, PoolFacts(None, None, 0));
    var lk := Locks(s[..FirstRet(s)]);
    if |lk| > 0 {
      assert lk[0] in lk;
    }
  }

  // ---------------------------------------------------------------------------------------
  // The walk through `MmAllocateMappingAddress`

  /** What the third walk reports. */
  datatype PteFacts = PteFacts(numberOfPtes: u64, basePte: u64)

  /** The 7-byte `lea rcx, [rip + disp32]` (`48 8d 0d`) naming the system-PTE bitmap. */
  predicate BitMapRef(t: Insn) {
    t.len == 7 && |t.code| >= 3 && t.code[0] == 0x48 && t.code[1] == 0x8d && t.code[2] == 0x0d
  }

  /** The word past the `RTL_BITMAP` (16 bytes) that holds the base PTE; before build 9600 it
      sits two `ULONG`s further. */
  function BasePteSlot(buildNumber: nat, bitmap: u64): (a: u64)
    ensures buildNumber >= 9600 ==> a == (bitmap + 16) % TWO_64
    ensures buildNumber < 9600 ==> a == (bitmap + 24) % TWO_64
  {
    (bitmap + 16 + if buildNumber < 9600 then 8 else 0) % TWO_64
  }

  /** The bitmap's facts: `SizeOfBitMap * 8` in `ULONG` arithmetic, and the base PTE. */
  function PteFactsAt(peek: u64 -> u64, buildNumber: nat, bitmap: u64): (r: PteFacts)
    ensures r.numberOfPtes % 8 == 0 && r.numberOfPtes < TWO_32
    ensures peek(bitmap) % TWO_32 < TWO_32 / 8 ==> r.numberOfPtes == 8 * (peek(bitmap) % TWO_32)
    ensures r.basePte == peek(BasePteSlot(buildNumber, bitmap))
  {
    PteFacts((8 * (peek(bitmap) % TWO_32)) % TWO_32, peek(BasePteSlot(buildNumber, bitmap)))
  }

  /** The walk: the first bitmap reference before `ret` decides; without one nothing is set. */
  function PteWalk(peek: u64 -> u64, buildNumber: nat, s: seq<Insn>): (r: Option<PteFacts>)
    ensures r.Some? ==> r.value.numberOfPtes % 8 == 0 && r.value.numberOfPtes < MAXULONG
    decreases |s|
  {
    if |s| == 0 || Ret(s[0]) then None
    else if BitMapRef(s[0]) then Some(PteFactsAt(peek, buildNumber, s[0].target))
    else PteWalk(peek, buildNumber, s[1..])
  }

  /** The position of the first bitmap reference or `ret`, or `|s|`. */
  function FirstBitMapOrRet(s: seq<Insn>): (k: nat)
    ensures k <= |s|
    ensures forall j {:trigger s[j]} :: 0 <= j < k ==> !Ret(s[j]) && !BitMapRef(s[j])
    ensures k < |s| ==> Ret(s[k]) || BitMapRef(s[k])
  {
    if |s| == 0 || Ret(s[0]) || BitMapRef(s[0]) then 0 else 1 + FirstBitMapOrRet(s[1..])
  }

  /** The walk reads the bitmap the first reference before `ret` names, and the PTE count it
      reports always fits the sweep's bitmap, whose size `NumberOfPtes + 1` must stay below
      `MAXULONG`. */
  lemma {:induction false} PteWalkFindsBitMap(peek: u64 -> u64, buildNumber: nat, s: seq<Insn>)
    ensures var k := FirstBitMapOrRet(s); var r := PteWalk(peek, buildNumber, s);
      && (r.Some? <==> k < |s| && !Ret(s[k]))
      && (r.Some? ==> r.value == PteFactsAt(peek, buildNumber, s[k].target) && r.value.numberOfPtes < MAXULONG)
    decreases |s|
  {
    if |s| > 0 && !Ret(s[0]) && !BitMapRef(s[0]) {
      PteWalkFindsBitMap(peek, buildNumber, s[1..]);
      assert FirstBitMapOrRet(s) == 1 + FirstBitMapOrRet(s[1..]);
    }
  }

  // ---------------------------------------------------------------------------------------
  // The prologue pattern and the `INITKDBG` size

  /** The guardian's prologue before build 18362 and from it on. */
  const HEADER: seq<byte> := [0x55, 0x41, 0x54, 0x41, 0x55, 0x41, 0x56, 0x41, 0x57, 0x48, 0x81, 0xEC, 0xC0,
                              0x02, 0x00, 0x00, 0x48, 0x8D, 0xA8, 0xD8, 0xFD, 0xFF, 0xFF, 0x48, 0x83, 0xE5,
                              0x80]
  const HEADER_EX: seq<byte> := [0x55, 0x41, 0x54, 0x41, 0x55, 0x41, 0x56, 0x41, 0x57, 0x48, 0x8D, 0x68, 0xA1,
                                 0x48, 0x81, 0xEC, 0xB0, 0x00, 0x00, 0x00]

  /** `push rbp; push r12; push r13; push r14; push r15`. */
  const PUSHES: seq<byte> := [0x55, 0x41, 0x54, 0x41, 0x55, 0x41, 0x56, 0x41, 0x57]

  /** The pattern searched for the guardian's prologue: both begin with the same register saves
      and differ right after them, so the build alone picks the frame layout. */
  function HeaderPattern(buildNumber: nat): (r: seq<byte>)
    ensures |r| >= 12 && r[..9] == PUSHES
    ensures buildNumber < 18362 ==> r[9..12] == [0x48, 0x81, 0xEC] && |r| == 27
    ensures buildNumber >= 18362 ==> r[9..12] == [0x48, 0x8D, 0x68] && |r| == 20
  {
    if buildNumber < 18362 then HEADER else HEADER_EX
  }

  /** `SizeINITKDBG`: the larger of the section's raw and virtual sizes. */
  function SizeInitKdbg(sizeOfRawData: u32, virtualSize: u32): (r: u64)
    ensures r >= sizeOfRawData && r >= virtualSize
    ensures r == sizeOfRawData || r == virtualSize
  {
    if sizeOfRawData > virtualSize then sizeOfRawData else virtualSize
  }
}
