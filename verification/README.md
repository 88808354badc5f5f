# Shark PatchGuard context scanner, modelled in Dafny

This project models the part of the Shark driver that finds the encrypted PatchGuard contexts
of a running 64-bit Windows kernel and defuses them, together with the x86 GDT helpers of the
Windows Research Kernel it ships beside. The PatchGuard part covers:

- the key walks the guardian encrypts its context with: rotate-left and rotate-right by a
  growing amount and, on newer builds, an extra BTC step;
- the two entry setters. `PgSetNewEntry` decodes the guardian's entry inside an encrypted
  context, writes a jump over it and re-encodes it in place. `PgSetNewEntryWithBtc` first has to
  search for the encoded prologue;
- `PgCompareFields`, which slides a four-word window over a region looking for the knowledge
  block's reference fields, in the clear or under the guardian's field key walk, and on an
  encoded match records an object (`PgCreateObject`) and calls the entry setter;
- the two sweeps that feed it regions: the marked system PTEs, found through the bitmap that
  `InitializeSystemPtesBitMap` builds from the page tables, and the large non-paged pool
  allocations of the big-page table;
- the lookups that find the region holding an object's establisher (`PgLocatePoolObject`,
  `PgLocateSystemPtesObject`, `PgLocateObject`);
- the byte-pattern rules `InitializePgBlock` uses to fill the knowledge block, and the gate in
  `PgClear` that decides whether the block is complete enough to sweep (`PgClearWorker`).

Memory is a byte sequence addressed from 0. A read or write outside it is the fault the driver
would take, and the model reports it as `None`. Machine words are `bv64`, and the 32-bit and
64-bit wrap-arounds of the C arithmetic are written out where they matter. Page tables, the
big-page table, `MmDeterminePoolType` and the kernel's 64-bit loads are parameters; the
instruction decoder is replaced by the sequence of instructions it yields.

The composed sweep (`PgCompareFields`, the two sweeps, `PgClearWorker`, `PgClear`) follows the
code as written, including the defects listed under "## Findings". Each defect also has a
corrected definition beside it (`PatchWithBtc`, `EntryPatchIntended`, `PgClearIntended`), with
the property the authors evidently meant proved about it and a lemma relating the two readings.

Modules:

- `Bits`: rotations, little-endian words, XOR and BTC.
- `BtcBlob`: the eight-byte `Btc64` routine decoded as x86-64 code.
- `Outcomes`: the optional value.
- `Block`: the knowledge block and the object record.
- `Patch`: the copy-out, decode, jump, encode, copy-back patch.
- `Cipher`: `PgSetNewEntry`.
- `CipherBtc`: `PgSetNewEntryWithBtc`.
- `Scan`: `PgCompareFields` and `PgCreateObject`.
- `Sweep`: a sequence of `PgCompareFields` calls.
- `Runs`: the `RTL_BITMAP` run search the system-PTE routines loop over, and the maximal runs
  it is measured against.
- `Ptes`: `InitializeSystemPtesBitMap`, `PgClearSystemPtesEncryptedContext` and
  `PgLocateSystemPtesObject`.
- `Pool`: `PgClearPoolEncryptedContext` and `PgLocatePoolObject`.
- `Clear`: `PgLocateObject`, `PgClearWorker` and `PgClear`.
- `Resolver`: the resolution rules of `InitializePgBlock`.
- `Gdt`: `Ke386GetGdtEntryThread` and `KeI386SetGdtSelector`.

## Model

| member | source | states |
|---|---|---|
| Bits.MaskThenModulo | Labs/Shark/Projects/Shark/AMD64/PatchGuardAMD64.c:28-29 | masking the rotate amount with 0xFF before reducing it modulo 64 gives the amount modulo 64 |
| Bits.RolMatchesMacro | Labs/Shark/Projects/Shark/AMD64/PatchGuardAMD64.c:28-29 | for every word, the one-bit rotations equal the macros' shift-or form |
| Bits.RorUndoesRol | Labs/Shark/Projects/Shark/AMD64/PatchGuardAMD64.c:28-29 | `__ROR64` by n undoes `__ROL64` by n, for every word and every amount |
| Bits.RolUndoesRor | Labs/Shark/Projects/Shark/AMD64/PatchGuardAMD64.c:28-29 | `__ROL64` by n undoes `__ROR64` by n |
| Bits.RolAdds | Labs/Shark/Projects/Shark/AMD64/PatchGuardAMD64.c:28 | two left rotations compose into one rotation by the sum of their reduced amounts |
| Bits.RotCountIgnoresWrap32 | Labs/Shark/Projects/Shark/AMD64/PatchGuardAMD64.c:784 | the 32-bit wrap-around of the rotate amount `FieldIndex + Index` never changes a rotation |
| Bits.XorBytesTwice | Labs/Shark/Projects/Shark/AMD64/PatchGuardAMD64.c:811-823 | XOR with the same key stream twice restores the buffer |
| Bits.WordBytesWordAt | Labs/Shark/Projects/Shark/AMD64/PatchGuardAMD64.c:768-771 | storing a word loaded from memory writes back the eight bytes it came from |
| Bits.BtcInvolution | Labs/Shark/Projects/Shark/AMD64/PatchGuardAMD64.c:103-105 | complementing the same bit twice restores the word |
| Bits.Btc64FlipsOneBit | Labs/Shark/Projects/Shark/AMD64/PatchGuardAMD64.c:103-105 | `Btc64(k, k)` differs from `k` in exactly the bit numbered by `k`'s low six bits |
| BtcBlob.BlobDisassembly | Labs/Shark/Projects/Shark/AMD64/PatchGuardAMD64.c:103-105 | the constant `0xc3c18b48d1bb0f48`, stored little-endian, is `btc rcx, rdx; mov rax, rcx; ret` |
| BtcBlob.BlobComputesBtc64 | Labs/Shark/Projects/Shark/AMD64/PatchGuardAMD64.c:103-105 | called with the key in both argument registers, the routine returns the key with bit `key mod 64` complemented, whatever the other registers hold |
| Patch.Read | Labs/Shark/Projects/Shark/AMD64/PatchGuardAMD64.c:768-771 | the copy out succeeds exactly when the window lies inside memory, and then it holds the window's bytes |
| Patch.WriteBackRewrites | Labs/Shark/Projects/Shark/AMD64/PatchGuardAMD64.c:794-833 | copying the re-encoded window back changes no byte outside the window, no byte of the window outside the jump, and decoding the window finds the jump |
| Patch.RewritesKeepsBefore | Labs/Shark/Projects/Shark/AMD64/PatchGuardAMD64.c:816-833 | the encoded bytes in front of the jump are unchanged by the rewrite |
| Cipher.PrefixWalk | Labs/Shark/Projects/Shark/AMD64/PatchGuardAMD64.c:773-779 | the prefix loop yields the key rotated left by 0, 1, ..., FieldIndex - 1 in turn |
| Cipher.DecodeWindow | Labs/Shark/Projects/Shark/AMD64/PatchGuardAMD64.c:773-786 | the decode loops XOR the window with the key stream, and leave the key used for the last word |
| Cipher.EncodeWindow | Labs/Shark/Projects/Shark/AMD64/PatchGuardAMD64.c:822-825 | the `while (Index--)` loop XORs each word with the key obtained by walking down from the last key with right rotations |
| Cipher.BackKeysRetraceEntryKeys | Labs/Shark/Projects/Shark/AMD64/PatchGuardAMD64.c:807-825 | walking down from the decode loop's last key meets, word by word, every key the decode loop used |
| Cipher.SameKeystream | Labs/Shark/Projects/Shark/AMD64/PatchGuardAMD64.c:807-825 | the re-encode loop runs exactly the decode loop's key stream, so re-encoding undoes decoding |
| Cipher.EntryKeyClosedForm | Labs/Shark/Projects/Shark/AMD64/PatchGuardAMD64.c:773-786 | the key for word w is the original key rotated left by the sum of (i mod 64) for i up to FieldIndex + w |
| Cipher.PatchWindow | Labs/Shark/Projects/Shark/AMD64/PatchGuardAMD64.c:801-825 | decode, write the jump, re-encode: the window's plain text with the jump spliced in, encoded with the same key stream |
| Cipher.FindEntry | Labs/Shark/Projects/Shark/AMD64/PatchGuardAMD64.c:765-788 | the entry RVA is the dword at byte `OffsetEntryPoint & 7` of the decoded window at `OffsetEntryPoint & ~7`, or None when that window lies outside memory |
| Cipher.PatchAt | Labs/Shark/Projects/Shark/AMD64/PatchGuardAMD64.c:792-835 | the patch happens exactly when the window at `RvaOfEntry & ~7` lies in memory and the jump fits, and then takes one reference and keeps memory's size |
| Cipher.PatchAtRewritesEntry | Labs/Shark/Projects/Shark/AMD64/PatchGuardAMD64.c:792-835 | a successful patch rewrites the entry's window so that, decoded, it reads as before except for the jump at `RvaOfEntry & 7`, and changes nothing else |
| Cipher.PatchEntryRewritesEntry | Labs/Shark/Projects/Shark/AMD64/PatchGuardAMD64.c:748-842 | whenever `PgSetNewEntry` patches, it rewrites the entry named by the first decoded window and nothing else |
| Cipher.PatchEntryAt | Labs/Shark/Projects/Shark/AMD64/PatchGuardAMD64.c:792-835 | the loops of the second half compute the patch at the given RVA |
| Cipher.SetNewEntry | Labs/Shark/Projects/Shark/AMD64/PatchGuardAMD64.c:748-842 | the whole setter with its loops computes the entry patch |
| CipherBtc.CompareCount | Labs/Shark/Projects/Shark/AMD64/PatchGuardAMD64.c:865 | the pair count keeps every compared pair inside the context; it is `(size - S) / 8 - 1` when that fits, and wraps to 2^32 - 1 when the context is shorter than S + 8 |
| CipherBtc.ScanFindsFirstHit | Labs/Shark/Projects/Shark/AMD64/PatchGuardAMD64.c:867-885 | from any point of the loops, the search stops at the first hit in loop order with every earlier pair missed, or runs out having missed every pair, or faults only where a probe reads outside memory |
| CipherBtc.SearchFindsFirstHit | Labs/Shark/Projects/Shark/AMD64/PatchGuardAMD64.c:867-885 | the same from the start of the loops |
| CipherBtc.Search | Labs/Shark/Projects/Shark/AMD64/PatchGuardAMD64.c:867-887 | a stop below alignment 8 is a hit at an index below CompareCount; running out leaves `AlignOffset == 8` and `Index == CompareCount` |
| CipherBtc.SearchPrologue | Labs/Shark/Projects/Shark/AMD64/PatchGuardAMD64.c:867-887 | the two nested loops with `goto found` compute the search |
| CipherBtc.ProbeHit | Labs/Shark/Projects/Shark/AMD64/PatchGuardAMD64.c:876-881 | a hit means `LastRorKey` encodes `ControlPc[1]` as word `Index + 1` and the key one BTC step below encodes `ControlPc[0]` as word `Index` |
| CipherBtc.StopLayout | Labs/Shark/Projects/Shark/AMD64/PatchGuardAMD64.c:888-893 | the copied window starts FieldIndex words into the encoded part, the matched words are its last XORed words, and the prologue starts `8 - AlignOffset` bytes before the matched pair |
| CipherBtc.BtcXorWords | Labs/Shark/Projects/Shark/AMD64/PatchGuardAMD64.c:896-903 | the `while (Index--)` loop XORs the first LastRorKeyOffset words with the keys walked down from `LastRorKey` and leaves the rest of the buffer as it is |
| CipherBtc.PrologueDecodes | Labs/Shark/Projects/Shark/AMD64/PatchGuardAMD64.c:876-903 | at a hit, the window the setter copies out decodes, under the keys the loops use, to the prologue |
| CipherBtc.BtcPatchAt | Labs/Shark/Projects/Shark/AMD64/PatchGuardAMD64.c:888-927 | the patch at a stop happens exactly when the window lies in memory and the jump fits, and then takes one reference |
| CipherBtc.BtcPatchAtRewrites | Labs/Shark/Projects/Shark/AMD64/PatchGuardAMD64.c:888-927 | the patch at a stop rewrites exactly the jump's bytes of the window decoded with the BTC key stream |
| CipherBtc.PatchPrologueAt | Labs/Shark/Projects/Shark/AMD64/PatchGuardAMD64.c:891-927 | the copy, the two XOR loops and the copy back compute the patch at a stop |
| CipherBtc.PatchWithBtcAsWritten | Labs/Shark/Projects/Shark/AMD64/PatchGuardAMD64.c:846-934 | as written, every setter call that does not fault takes one reference and keeps memory's size, including one after a search that found nothing |
| CipherBtc.PatchWithBtc | Labs/Shark/Projects/Shark/AMD64/PatchGuardAMD64.c:846-934 | with the two corrections, a patch also takes exactly one reference and keeps memory's size |
| CipherBtc.AsWrittenAgreesOffAlignment | Labs/Shark/Projects/Shark/AMD64/PatchGuardAMD64.c:887-927 | after a hit at a nonzero alignment the setter as written and the corrected one patch alike; after a hit at alignment 0 the first writes the jump at byte 8 of the window and the second at byte 0 |
| CipherBtc.FirstPairHitWrapsWindow | Labs/Shark/Projects/Shark/AMD64/PatchGuardAMD64.c:888-893 | an unaligned hit on the first pair makes the `ULONG` `FieldIndex` wrap to 0xFFFFFFFF, so the copied window starts 0xFFFFFFF8 bytes past the encoded part |
| CipherBtc.PatchWithBtcLandsOnPrologue | Labs/Shark/Projects/Shark/AMD64/PatchGuardAMD64.c:846-934 | the corrected setter patches only after a hit, and then the window decodes to the prologue and the jump lands on its first byte, with every other byte of memory unchanged |
| CipherBtc.AsWrittenKeepsAlignedPrologue | Labs/Shark/Projects/Shark/AMD64/PatchGuardAMD64.c:907 | as written, a hit at alignment 0 leaves the first eight encoded bytes, which decode to the prologue's start, untouched |
| CipherBtc.AsWrittenPatchesWithoutMatch | Labs/Shark/Projects/Shark/AMD64/PatchGuardAMD64.c:887-927 | as written, a search that finds nothing still patches, where the corrected setter does not |
| CipherBtc.AsWrittenPatchesShortContext | Labs/Shark/Projects/Shark/AMD64/PatchGuardAMD64.c:865-927 | a context of `SizeCmpAppendDllSection + 8` bytes has no pair to compare, and the setter as written patches it anyway |
| CipherBtc.SetNewEntryWithBtcAsWritten | Labs/Shark/Projects/Shark/AMD64/PatchGuardAMD64.c:846-934 | the setter as written, with its search loops, the fall-through to `found:` and its XOR loops, computes the as-written patch |
| CipherBtc.SetNewEntryWithBtc | Labs/Shark/Projects/Shark/AMD64/PatchGuardAMD64.c:846-934 | the setter with its search and XOR loops, and with the two corrections, computes the corrected patch |
| Scan.Classify | Labs/Shark/Projects/Shark/AMD64/PatchGuardAMD64.c:957-988 | the loop body stops at the reference block itself before reading anything, faults only when the window lies outside memory, and reports a declassified context exactly when all four words equal the reference fields |
| Scan.ScanFrom | Labs/Shark/Projects/Shark/AMD64/PatchGuardAMD64.c:954-1077 | a sweep that stops does so inside the positions it reaches, at a position whose window breaks the loop body with something other than a miss |
| Scan.DecodesFieldsUnrolled | Labs/Shark/Projects/Shark/AMD64/PatchGuardAMD64.c:990-1018 | the window decodes under the field key walk exactly when words 2, 1 and 0, XORed with keys 1, 2 and 3 of the walk, give the reference fields |
| Scan.ClassifyEncrypted | Labs/Shark/Projects/Shark/AMD64/PatchGuardAMD64.c:964-1021 | an encoded context is reported exactly where the window is not the reference block, its last word differs from the reference, and every word decodes to the reference; the key passed on is the walk's third key |
| Scan.ScanFindsFirstEvent | Labs/Shark/Projects/Shark/AMD64/PatchGuardAMD64.c:954-1077 | the sweep stops at the first position, byte by byte, where the body breaks, with a miss at every earlier one; it runs out only after missing everywhere; it faults only where a window read faults |
| Scan.ScanStopsAtFirstEvent | Labs/Shark/Projects/Shark/AMD64/PatchGuardAMD64.c:954-1077 | conversely, a breaking position with a miss at every earlier one is where the sweep stops |
| Scan.SmallRegionExaminedOnce | Labs/Shark/Projects/Shark/AMD64/PatchGuardAMD64.c:957-1077 | the do-while examines the base of a region even when the region is too small for a window |
| Scan.SweepWindow | Labs/Shark/Projects/Shark/AMD64/PatchGuardAMD64.c:954-1077 | the loop as written returns the sweep's outcome |
| Scan.EndAddress | Labs/Shark/Projects/Shark/AMD64/PatchGuardAMD64.c:955 | the end of the sweep is base + size - 32 when that neither borrows nor overflows |
| Scan.UnwindIsRorDown | Labs/Shark/Projects/Shark/AMD64/PatchGuardAMD64.c:1051-1055 | the unwinding loop from index i rotates right by PG_FIELD_BITS - i, ..., 1 in turn |
| Scan.PrefixKeyUndoesRorDown | Labs/Shark/Projects/Shark/AMD64/PatchGuardAMD64.c:773-779 | the prefix loop of `PgSetNewEntry` undoes the unwinding: rotating left by 0, 1, ..., m after rotating right by m, ..., 1 returns the key |
| Scan.SetterKeyStartsSchedule | Labs/Shark/Projects/Shark/AMD64/PatchGuardAMD64.c:1051-1066 | without BTC, the key handed to `PgSetNewEntry` is the start of the guardian's schedule: its prefix steps re-derive the key each matched word was encoded with |
| Scan.CreateObject | Labs/Shark/Projects/Shark/AMD64/PatchGuardAMD64.c:706-744 | the object records the protection, type, base address and size it is given and the guard body built from filter, original and capture routine, and starts with no establisher |
| Scan.UnwindKey | Labs/Shark/Projects/Shark/AMD64/PatchGuardAMD64.c:1051-1055 | the loop computes the unwound key |
| Scan.EntryPatch | Labs/Shark/Projects/Shark/AMD64/PatchGuardAMD64.c:1042-1067 | every setter call that does not fault keeps memory's size and takes one reference |
| Scan.EntryPatchIntended | Labs/Shark/Projects/Shark/AMD64/PatchGuardAMD64.c:1042-1067 | the same call with the corrected BTC setter takes a reference only after a search that stopped at a hit |
| Scan.EntryPatchIsSetter | Labs/Shark/Projects/Shark/AMD64/PatchGuardAMD64.c:1042-1067 | the call is `PgSetNewEntry` without BTC and `PgSetNewEntryWithBtc` as written with it; it agrees with the corrected call except after a hit at alignment 0, and where the search ran out the corrected call patches nothing |
| Scan.CallSetter | Labs/Shark/Projects/Shark/AMD64/PatchGuardAMD64.c:1042-1067 | `PgSetNewEntry` and `PgSetNewEntryWithBtc` as written, with their loops, compute the setter call |
| Scan.CompareFields | Labs/Shark/Projects/Shark/AMD64/PatchGuardAMD64.c:938-1078 | a comparison that creates no object changes neither memory nor the reference count; a created object records the encrypted protection, the region's type, base and size and the clear callback, and comes with one reference taken |
| Scan.CompareFieldsPatchesFirstMatch | Labs/Shark/Projects/Shark/AMD64/PatchGuardAMD64.c:1018-1070 | when the first event is an encoded context, one object is created and the setter runs on the context at `TargetPc - PG_FIRST_FIELD_OFFSET` with the unwound key |
| Scan.CompareFieldsStopsWithoutObject | Labs/Shark/Projects/Shark/AMD64/PatchGuardAMD64.c:960-987 | when the first event is a declassified context or the reference block, nothing is created and nothing changes, whatever follows |
| Scan.CompareFieldsMissesEverywhere | Labs/Shark/Projects/Shark/AMD64/PatchGuardAMD64.c:954-1077 | a region where every window misses creates nothing and changes nothing |
| Scan.CompareFieldsObjectOnlyAtFirstMatch | Labs/Shark/Projects/Shark/AMD64/PatchGuardAMD64.c:1031-1070 | an object is created only when the first event of the sweep is an encoded context |
| Scan.CompareFieldsRun | Labs/Shark/Projects/Shark/AMD64/PatchGuardAMD64.c:938-1078 | the routine with its sweep loop, its unwinding loop and the setters' loops computes the comparison |
| Sweep.CompareRegions | Labs/Shark/Projects/Shark/AMD64/PatchGuardAMD64.c:1245-1249 | each region gets one comparison; every object created describes its region, and when none is created memory and the reference count are unchanged |
| Sweep.CompareRegionsAppend | Labs/Shark/Projects/Shark/AMD64/PatchGuardAMD64.c:1706-1718 | sweeping two lists is sweeping the first and then the second from where the first left memory and the reference count |
| Runs.FindSetBits | Labs/Shark/Projects/Shark/AMD64/PatchGuardAMD64.c:1230-1233 | `RtlFindSetBits` returns `MAXULONG` exactly when no bit is set, and otherwise the first set bit at or after the hint, wrapping round |
| Runs.FindNextForwardRunClear | Labs/Shark/Projects/Shark/AMD64/PatchGuardAMD64.c:1236-1239 | the run of set bits from the hint ends at the first clear bit or at the end of the bitmap |
| Runs.ClearBits | Labs/Shark/Projects/Shark/AMD64/PatchGuardAMD64.c:1241 | `RtlClearBits` clears exactly the bits of the run and keeps the others |
| Runs.Enumerate | Labs/Shark/Projects/Shark/AMD64/PatchGuardAMD64.c:1229-1254 | the loop visits runs that start at a set bit at or after the hint and lie inside the bitmap, left to right without overlap |
| Runs.RunsFromAreMaximal | Labs/Shark/Projects/Shark/AMD64/PatchGuardAMD64.c:1229-1254 | the reference run list holds exactly the maximal runs of set bits from a position on |
| Runs.RunsFromOrdered | Labs/Shark/Projects/Shark/AMD64/PatchGuardAMD64.c:1229-1254 | the reference runs come left to right, separated by clear bits |
| Runs.EnumerateVisitsRuns | Labs/Shark/Projects/Shark/AMD64/PatchGuardAMD64.c:1229-1254 | the find-set, find-clear, clear-run loop visits exactly the reference runs, in order |
| Ptes.SkipPxe | Labs/Shark/Projects/Shark/AMD64/PatchGuardAMD64.c:1183-1185 | no PTE under a PXE that is not present is marked, so the walk may skip to the next PXE |
| Ptes.SkipPpe | Labs/Shark/Projects/Shark/AMD64/PatchGuardAMD64.c:1179-1181 | no PTE under a PPE that is not present is marked |
| Ptes.SkipPde | Labs/Shark/Projects/Shark/AMD64/PatchGuardAMD64.c:1171-1177 | no PTE under a PDE that is not present or maps a large page is marked |
| Ptes.InitializeBitMap | Labs/Shark/Projects/Shark/AMD64/PatchGuardAMD64.c:1139-1186 | the page-table walk sets exactly the bits of the PTEs in range that are reached through page tables and map executable, writable, dirty, accessed, cached, non-copy-on-write pages |
| Ptes.SystemPtesBitMap | Labs/Shark/Projects/Shark/AMD64/PatchGuardAMD64.c:1217-1227 | both system-PTE routines build a bitmap of `NumberOfPtes + 1` bits |
| Ptes.VisitedRunsAreMaximalRuns | Labs/Shark/Projects/Shark/AMD64/PatchGuardAMD64.c:1229-1254 | the loop of both routines visits the maximal runs of marked PTEs, each once, left to right |
| Ptes.LongRuns | Labs/Shark/Projects/Shark/AMD64/PatchGuardAMD64.c:1243-1244 | a run is compared exactly when it spans at least `BYTES_TO_PAGES(SizeINITKDBG)` pages |
| Ptes.ClearSystemPtesRegions | Labs/Shark/Projects/Shark/AMD64/PatchGuardAMD64.c:1191-1258 | the sweep compares the region of every maximal run of marked PTEs long enough for a context, and no other region |
| Ptes.FirstCovering | Labs/Shark/Projects/Shark/AMD64/PatchGuardAMD64.c:1398-1403 | the lookup takes the first run whose range, short of its last `SizeCmpAppendDllSection` bytes, holds the establisher |
| Ptes.LocateSystemPtes | Labs/Shark/Projects/Shark/AMD64/PatchGuardAMD64.c:1384-1425 | the object is either left as it was or typed as a system-PTE region, keeping its protection, callback and establisher |
| Ptes.LocateSystemPtesFindsFirstRun | Labs/Shark/Projects/Shark/AMD64/PatchGuardAMD64.c:1349-1429 | the run found is a maximal run of marked PTEs that covers the establisher, with no covering run to its left; with none, the object is unchanged |
| Pool.KeptEntries | Labs/Shark/Projects/Shark/AMD64/PatchGuardAMD64.c:1286-1292 | the sweep compares exactly the table entries in use whose masked pool type is `NonPagedPool` and whose size exceeds `SizeINITKDBG` |
| Pool.ClearPoolRegions | Labs/Shark/Projects/Shark/AMD64/PatchGuardAMD64.c:1283-1301 | the sweep compares the region of every kept entry, at most one per table entry, and no other region |
| Pool.PoolSweepFaultsAppend | Labs/Shark/Projects/Shark/AMD64/PatchGuardAMD64.c:1283-1301 | one more table entry makes the loop fault exactly when the table is NULL, or `MmDeterminePoolType` is NULL and the entry is in use |
| Pool.ClearPoolRegionsAppend | Labs/Shark/Projects/Shark/AMD64/PatchGuardAMD64.c:1286-1298 | one more table entry adds its region exactly when the sweep keeps it |
| Pool.VisitEntry | Labs/Shark/Projects/Shark/AMD64/PatchGuardAMD64.c:1286-1298 | one turn of the loop faults exactly when the table is NULL, or `MmDeterminePoolType` is NULL and the entry is in use; otherwise it adds the entry's region exactly when the sweep keeps the entry |
| Pool.ClearPoolLoop | Labs/Shark/Projects/Shark/AMD64/PatchGuardAMD64.c:1283-1301 | the index loop faults exactly when the table is NULL and not empty, or `MmDeterminePoolType` is NULL and an entry is in use; otherwise it hands `PgCompareFields` the regions of the kept entries in table order |
| Pool.FirstAccepted | Labs/Shark/Projects/Shark/AMD64/PatchGuardAMD64.c:1316-1325 | the lookup takes the first entry in use, of pool type `NonPagedPool`, larger than `SizeINITKDBG` and holding the establisher |
| Pool.LocatePool | Labs/Shark/Projects/Shark/AMD64/PatchGuardAMD64.c:1306-1345 | the object takes the first accepted entry's address and size as a big-pool region, or is left as it was |
| Pool.LocateSkipsFlaggedTypes | Labs/Shark/Projects/Shark/AMD64/PatchGuardAMD64.c:1321 | the lookup compares the unmasked pool type, so an entry the sweep compares because only flag bits are set is never found |
| Pool.LocateAcceptsKeptEntries | Labs/Shark/Projects/Shark/AMD64/PatchGuardAMD64.c:1319-1325 | otherwise the lookup accepts exactly the entries the sweep compares that hold the establisher |
| Clear.LocateObject | Labs/Shark/Projects/Shark/AMD64/PatchGuardAMD64.c:1438-1450 | the system-PTE lookup runs only when the big-pool lookup left the object's type unset |
| Clear.LocateObjectFindsRegion | Labs/Shark/Projects/Shark/AMD64/PatchGuardAMD64.c:1433-1451 | an unlocated object lands in the first big-pool entry holding its establisher, otherwise in the first maximal run of marked PTEs holding it, otherwise stays unchanged |
| Clear.GateAsWrittenShutOnlyWhenNothingFound | Labs/Shark/Projects/Shark/AMD64/PatchGuardAMD64.c:1741-1761 | the gate as written stays shut only when all seven lookups failed |
| Clear.GateAsWrittenAdmitsUnresolvedBlock | Labs/Shark/Projects/Shark/AMD64/PatchGuardAMD64.c:1741-1761 | a block where only `OffsetEntryPoint` was found passes the gate as written although the big-page table is unknown |
| Clear.GateAsWritten | Labs/Shark/Projects/Shark/AMD64/PatchGuardAMD64.c:1741-1761 | the gate as written lets every fully resolved block through |
| Clear.ClearWorker | Labs/Shark/Projects/Shark/AMD64/PatchGuardAMD64.c:1694-1723 | the worker keeps memory's size, and faults when the big-page sweep would read a NULL table or call a NULL `MmDeterminePoolType` |
| Clear.ClearWorkerSweepsRegions | Labs/Shark/Projects/Shark/AMD64/PatchGuardAMD64.c:1694-1723 | unless the pool sweep faults, the worker sweeps the system-PTE regions (from build 9200 on) and then the big-pool regions; objects describe their regions and nothing changes when none is created |
| Clear.PgClear | Labs/Shark/Projects/Shark/AMD64/PatchGuardAMD64.c:1727-1784 | as written: a block whose seven lookups all failed is not swept; any other block is swept as the worker sweeps, and faults where the big-page sweep reads a NULL table or calls a NULL `MmDeterminePoolType` |
| Clear.PgClearIntended | Labs/Shark/Projects/Shark/AMD64/PatchGuardAMD64.c:1741-1784 | with the gate as intended, a block with a missing lookup is not swept, and a resolved one is swept exactly as the worker sweeps |
| Clear.PgClearSweepsUnresolvedBlock | Labs/Shark/Projects/Shark/AMD64/PatchGuardAMD64.c:1741-1761 | a block with only `OffsetEntryPoint` found is left alone by the intended gate; as written it is swept, and the big-page sweep faults on the NULL table as soon as the table size is nonzero |
| Resolver.EntryWalkFinds | Labs/Shark/Projects/Shark/AMD64/PatchGuardAMD64.c:201-254 | the walk reports the entry offset of the offset load it stops at, the size of the first nonzero size load before that, and the BTC flag of any size load up to that one |
| Resolver.EntryWalkFindsOffset | Labs/Shark/Projects/Shark/AMD64/PatchGuardAMD64.c:239-251 | the entry offset is the displacement of the `8b 82` load the walk stops at, if it stops at one |
| Resolver.EntryWalkFindsSize | Labs/Shark/Projects/Shark/AMD64/PatchGuardAMD64.c:209-216 | the size is the displacement of the first 8-byte `48 31 84 ca` load with a nonzero displacement before the walk stops |
| Resolver.EntryWalkFindsBtc | Labs/Shark/Projects/Shark/AMD64/PatchGuardAMD64.c:209-234 | the BTC flag is set exactly when a size load up to the first nonzero one carries the marker |
| Resolver.EntryWalkKeepsSize | Labs/Shark/Projects/Shark/AMD64/PatchGuardAMD64.c:209 | once a size is known the walk keeps it and the BTC flag |
| Resolver.EntryWalkAsWrittenStopsAtRexB | Labs/Shark/Projects/Shark/AMD64/PatchGuardAMD64.c:204-206 | as written, a `pop r15` ends the walk before the offset load that follows it; read as intended, the offset 0x110 is found |
| Resolver.EntryWalkAsWrittenSeesBtc | Labs/Shark/Projects/Shark/AMD64/PatchGuardAMD64.c:223-226 | as written, a size load followed by `mov rax, rdx; ror rax, cl` sets the BTC flag; read as intended, it does not |
| Resolver.EntryWalk | Labs/Shark/Projects/Shark/AMD64/PatchGuardAMD64.c:201-254 | the walk never clears the BTC flag and never changes a size once it is known |
| Resolver.Slots | Labs/Shark/Projects/Shark/AMD64/PatchGuardAMD64.c:538-548 | every slot kept holds a nonzero, page-aligned value |
| Resolver.PoolWalkFills | Labs/Shark/Projects/Shark/AMD64/PatchGuardAMD64.c:523-602 | the walk takes the first candidates of each kind before the first `ret`; its early exit changes nothing |
| Resolver.PoolTable | Labs/Shark/Projects/Shark/AMD64/PatchGuardAMD64.c:570-582 | the table and its size are found exactly when both slots and the lock are; the table is the larger slot value and the size the smaller |
| Resolver.PoolWalk | Labs/Shark/Projects/Shark/AMD64/PatchGuardAMD64.c:523-602 | the walk keeps the table, its size and the lock once known, and leaves a complete set of facts as it is |
| Resolver.PoolWalkFinds | Labs/Shark/Projects/Shark/AMD64/PatchGuardAMD64.c:523-602 | from nothing known, the table is found exactly when two plausible slots and a nonzero lock reference precede the first `ret`, taken in order |
| Resolver.PteFactsAt | Labs/Shark/Projects/Shark/AMD64/PatchGuardAMD64.c:635-653 | `NumberOfPtes` is `SizeOfBitMap * 8` in 32-bit arithmetic, so a multiple of 8 below 2^32, and `BasePte` is the word after the bitmap header |
| Resolver.BasePteSlot | Labs/Shark/Projects/Shark/AMD64/PatchGuardAMD64.c:647-653 | the base PTE is read 16 bytes past the bitmap from build 9600 on and 24 bytes past it before build 9600 |
| Resolver.PteWalk | Labs/Shark/Projects/Shark/AMD64/PatchGuardAMD64.c:622-666 | a bitmap found yields a PTE count that is a multiple of 8 and below `MAXULONG` |
| Resolver.PteWalkFindsBitMap | Labs/Shark/Projects/Shark/AMD64/PatchGuardAMD64.c:622-666 | the walk reads the first bitmap reference before `ret`, and the PTE count it reports stays below `MAXULONG` |
| Resolver.HeaderPattern | Labs/Shark/Projects/Shark/AMD64/PatchGuardAMD64.c:257-268 | the prologue pattern is the 27-byte `Header` before build 18362 and the 20-byte `HeaderEx` from it on; both open with the same five register saves |
| Resolver.SizeInitKdbg | Labs/Shark/Projects/Shark/AMD64/PatchGuardAMD64.c:294-296 | `SizeINITKDBG` is the larger of the section's raw and virtual sizes |
| Gdt.GetGdtEntryThread | Labs/WRK/base/ntos/ke/i386/gdtsup.c:66-105 | an offset past the kernel's entries leaves the caller's descriptor; the LDT selector gives the process's LDT descriptor; the TEB selector gives the stored entry with the thread's TEB as base; any other gives the stored entry |
| Gdt.SplitBase | Labs/WRK/base/ntos/ke/i386/gdtsup.c:100-104 | the low, middle and high base fields of a 32-bit value put it back together |
| Gdt.WithBase | Labs/WRK/base/ntos/ke/i386/gdtsup.c:99-105 | the descriptor's base becomes the TEB address and its limit and flags are kept |
| Gdt.TebEntryCarriesTeb | Labs/WRK/base/ntos/ke/i386/gdtsup.c:99-105 | the TEB selector's base reads back as the thread's TEB, and putting the stored base back gives the stored entry |
| Gdt.BaseSplitsBack | Labs/WRK/base/ntos/ke/i386/gdtsup.c:99-105 | splitting a descriptor's own base back into it changes nothing |
| Gdt.Highest | Labs/WRK/base/ntos/ke/i386/gdtsup.c:157-158 | a nonempty processor set has a highest member, the one `KeFindFirstSetLeftAffinity` picks: it is in the set and no member exceeds it |
| Gdt.SetGdtSelector | Labs/WRK/base/ntos/ke/i386/gdtsup.c:147-169 | a selector with table or privilege bits or inside the kernel's entries is refused with nothing changed; otherwise every active processor's GDT gets the value at the selector's index |
| Gdt.StoredReachesActive | Labs/WRK/base/ntos/ke/i386/gdtsup.c:156-167 | the store reaches the entry on every active processor and touches no other entry or processor |
| Gdt.StoredEntriesStayHidden | Labs/WRK/base/ntos/ke/i386/gdtsup.c:66-68 | an entry stored by `KeI386SetGdtSelector` lies past the entries `Ke386GetGdtEntryThread` answers for, so every answer stays as before |

## Left out

- `DetourLockedBuildJumpCode`: the jump bytes are a parameter, because the code that builds them is not part of this model. One jump serves a whole sweep, where the source builds one per object.
- `InterlockedIncrementSizeT`: the reference count is a plain increment, because the model has no concurrency.
- `DbgPrint` calls: left out, because they only log.
- `ExAllocatePool`: allocation is assumed to succeed. The source skips the entry setter when `PgCreateObject` returns NULL, and skips a system-PTE routine when its bitmap cannot be allocated.
- `PgCreateObject`: the `Context` argument is not stored, as in the source; the object's owner is the one knowledge block modelled.
- `IpiSingleCall`, the work item, `KeSetEvent` and the wait in `PgClear`: treated as direct calls, because the model has no processors or threads.
- `PgCheckAllWorkerThread`: not part of this model; the worker's result is what the two sweeps leave.
- `PgClear`: the build-9200 soft asserts on `NumberOfPtes` and `BasePte` after the gate only log, and are left out.
- `RTL_SOFT_ASSERTMSG`: its header is not part of this model; it is taken to yield its expression, as its checked-build definition does.
- `GetCounterBody`: not part of this model; the establisher it decodes is a parameter of the lookups.
- `Clear.LocateObject`, `Clear.ClearWorker` and `Clear.PgClear` require `NumberOfPtes < MAXULONG`, so that the `ULONG` bitmap size `NumberOfPtes + 1` does not wrap; the resolver only ever stores such a count (`Resolver.PteWalkFindsBitMap`).
- `RtlFindNextForwardRunClear` with no clear bit after the hint: taken to report the end of the bitmap; its source is not part of this model.
- `BYTES_TO_PAGES`: its header is not part of this model; it is taken as the exact page count, which a 32-bit cast of the result would not change for a section size, below 2^32 bytes.
- `GetVirtualAddressMappedByPte` and the `Get*Address` helpers: the self-map arithmetic is written on PTE numbers, without the sign extension of canonical addresses.
- `DetourGetInstructionLength`, `ScanBytes` and `__RVA_TO_VA`: not part of this model. A resolver walk receives the decoded instructions, each with the address its RIP-relative operand names, and ends at the end of that sequence.
- The resolver walks start from a zeroed knowledge block, as `InitializePgBlock` leaves it; the search loops around them, `RtlLookupFunctionEntry`, the header copy and the resolution of `MmDeterminePoolType` (line 508) are left out.
- `MmDeterminePoolType`, the `POOL_BIG_TABLE_ENTRY_FREE`, `BASE_POOL_TYPE_MASK` and `MM_PTE_*_MASK` constants, and the `KGDT_*` selectors: parameters, because their headers are not part of this model.
- `KeActiveProcessors`: a set of processor numbers rather than a `KAFFINITY` bit mask.
- `Cipher.PatchAt` and `CipherBtc.BtcPatchAt`: a jump longer than the bytes of the window that follow its position is modelled as a fault (`None`), whereas the source copies it into the stack buffer regardless and overruns it. The jump bytes are a parameter here and the source's jump always fits the prologue it replaces.
- `CipherBtc.StopLayout`, `CipherBtc.StopTopKeys`, `CipherBtc.PrologueDecodes`, `CipherBtc.HitWindowDecodes` and `CipherBtc.PatchWithBtcLandsOnPrologue` require that an unaligned hit is not on the first pair and that `8 * FieldIndex` stays below 2^32. Outside that, `FieldIndex = Index - 1` wraps as a `ULONG`, and the copied window lies 0xFFFFFFF8 bytes past the encoded part (`CipherBtc.FirstPairHitWrapsWindow`); what the setter then reads and writes is only what `BtcPatchAt` computes, with no decoding claim.
- `Scan.EntryPatch` and `Scan.CallSetter` call the BTC setter as written. The corrected setter is reached only through `Scan.EntryPatchIntended` and `CipherBtc.SetNewEntryWithBtc`, and `Scan.EntryPatchIsSetter` states where the two differ: after a hit at alignment 0, and after a search that found nothing.
- `Clear.PgClear` with a partly resolved block: only the two faults it provably takes are modelled, the read of a NULL `PoolBigPageTable` with a nonzero size and the call of a NULL `MmDeterminePoolType` for an entry in use. A zero `SizeCmpAppendDllSection`, `SizeINITKDBG`, `NumberOfPtes` or `BasePte` is used as given, and the sweep goes ahead with it.
- `Gdt.SetGdtSelector` requires, for a selector it accepts, that every active processor has a GDT long enough for the selector's index: the routine writes `Pcr->GDT + GdtIndex` with no bound check, and a store past a GDT is outside the model. A refused selector needs nothing.
- `Gdt.GetGdtEntryThread` requires an offset that is a multiple of 8, as the routine's own comment demands of its callers.

## Findings

| source | as written | input that shows it | evidently intended | confidence | as-written member | corrected member |
|---|---|---|---|---|---|---|
| Labs/Shark/Projects/Shark/AMD64/PatchGuardAMD64.c:907 | the jump is written at byte `8 - AlignOffset` of the window | a hit at `AlignOffset == 0`: the jump goes to byte 8 and the prologue at byte 0 stays encoded as it was | the jump at `(8 - AlignOffset) % 8`, the prologue's first byte | not executed | CipherBtc.AsWrittenKeepsAlignedPrologue | CipherBtc.PatchWithBtcLandsOnPrologue |
| Labs/Shark/Projects/Shark/AMD64/PatchGuardAMD64.c:887-927 | after the search loops the patch goes ahead whether or not a pair matched | `ContextSize == SizeCmpAppendDllSection + 8`: CompareCount is 0, nothing is compared, and a window is rewritten with keys derived from `LastRorKey == 0` | no patch without a match | not executed | CipherBtc.AsWrittenPatchesShortContext | CipherBtc.PatchWithBtcLandsOnPrologue |
| Labs/Shark/Projects/Shark/AMD64/PatchGuardAMD64.c:204-206 | the walk continues only while all three bytes differ from `41 ff e0`, so it ends at any instruction that shares one of them | a `pop r15` (`41 5f`) before the `8b 82` load: the walk stops at it and `OffsetEntryPoint` stays 0 | the walk ends at `jmp r8`, the whole `41 ff e0` | not executed | Resolver.EntryWalkAsWrittenStopsAtRexB | Resolver.EntryWalkFindsOffset |
| Labs/Shark/Projects/Shark/AMD64/PatchGuardAMD64.c:223-226 | `BtcEnable` is set when any one of the four bytes matches `48 0f bb c0` | a size load followed by `48 8b c2 48 d3 c8`: byte 11 is `48` and BTC is switched on | `BtcEnable` only when all four bytes match | not executed | Resolver.EntryWalkAsWrittenSeesBtc | Resolver.EntryWalkFindsBtc |
| Labs/Shark/Projects/Shark/AMD64/PatchGuardAMD64.c:1741-1761 | the seven lookups are joined with a logical or, so the sweep runs when any one of them succeeded | a block with only `OffsetEntryPoint` found and a nonempty big-page table: the sweep starts and reads the NULL table | sweep only when every lookup succeeded | not executed | Clear.PgClearSweepsUnresolvedBlock | Clear.PgClearIntended |
