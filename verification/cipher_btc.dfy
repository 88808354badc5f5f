/** `PgSetNewEntryWithBtc`: guardians that mix every key with a BTC step are not decoded from a
    known key; the setter searches the encoded part of the context for the place where the
    guardian's own prologue (`PgBlock->Header`) lies encoded, recovers the keys of the two or
    three words there, and writes the jump over the prologue. */
module CipherBtc {
  import opened Bits
  import opened Outcomes
  import opened Block
  import opened Patch
  import opened Cipher

  /** `(ContextSize - SizeCmpAppendDllSection) / 8 - 1`, computed in 64 bits and stored in a
      ULONG: the number of adjacent word pairs the search tries at each alignment. */
  function CompareCount(ctxSize: u64, s: u32): (cc: u32)
    ensures ctxSize >= s + 8 ==> 8 * (cc + 1) <= ctxSize - s
    ensures ctxSize >= s + 8 && (ctxSize - s) / 8 - 1 < TWO_32 ==> cc == (ctxSize - s) / 8 - 1
    ensures s <= ctxSize < s + 8 ==> cc == TWO_32 - 1
  {
    ((((ctxSize - s) % TWO_64) / 8 - 1) % TWO_64) % TWO_32
  }

  /** `ControlPc[j]` with `ControlPc = PgBlock->Header + a`: word `j` of the prologue copy read
      at byte offset `a`. */
  function ControlWord(blk: PgBlock, a: nat, j: nat): word
    requires blk.WellFormed() && a < 8 && j < 2
  {
    WordAt(blk.header, a + 8 * j)
  }

  /** The word at `addr` of memory, XORed with `k`, is `ControlPc[j]`: `k` encodes that word
      of the prologue copy there. */
  predicate EncodesControl(blk: PgBlock, mem: seq<byte>, addr: nat, k: word, a: nat, j: nat)
    requires blk.WellFormed() && a < 8 && j < 2
  {
    addr + 8 <= |mem| && WordAt(mem, addr) ^ k == ControlWord(blk, a, j)
  }

  /** One step of the search, over the encoded words at `base` (`TargetPc`): the key that would
      encode `ControlPc[1]` as `TargetPc[i + 1]`, and whether the key before it in the guardian's
      schedule encodes `ControlPc[0]` as `TargetPc[i]`. None when the two words lie outside
      memory. The rotate amount `Index + 1` is a ULONG sum; its 32-bit wrap never changes a
      rotation (`RotCountIgnoresWrap32`), so it is written as the plain sum. */
  datatype ProbeResult = ProbeResult(hit: bool, last: word)

  function Probe(blk: PgBlock, mem: seq<byte>, base: nat, a: nat, i: nat): (r: Option<ProbeResult>)
    requires blk.WellFormed() && a < 8
    ensures r.Some? <==> base + 8 * i + 16 <= |mem|
  {
    if base + 8 * i + 16 > |mem| then None
    else
      var last := WordAt(mem, base + 8 * (i + 1)) ^ ControlWord(blk, a, 1);
      Some(ProbeResult(EncodesControl(blk, mem, base + 8 * i, Btc64(Ror(last, i + 1)), a, 0), last))
  }

  /** Where the search stopped: `AlignOffset`, `Index` and `LastRorKey` at the `found` label.
      `align == 8` means every pair was tried without a hit. */
  datatype Stop = Stop(align: nat, index: nat, last: word)

  /** The two search loops over the probes at `base`, from alignment `a` and index `i` on, with
      `last` the key the previous probe left in `LastRorKey`. None when a probe faults. */
  function Scan(blk: PgBlock, mem: seq<byte>, base: nat, cc: nat, a: nat, i: nat, last: word)
    : (r: Option<Stop>)
    requires blk.WellFormed() && a <= 8 && i <= cc
    decreases 8 - a, cc - i
  {
    if a == 8 then Some(Stop(8, i, last))
    else if i == cc then
      if a == 7 then Some(Stop(8, cc, last)) else Scan(blk, mem, base, cc, a + 1, 0, last)
    else
      var pr := Probe(blk, mem, base, a, i);
      if pr.None? then None
      else if pr.value.hit then Some(Stop(a, i, pr.value.last))
      else Scan(blk, mem, base, cc, a, i + 1, pr.value.last)
  }

  /** `(a, i)` comes strictly before `(b, j)` in the order the loops try pairs. */
  predicate Before(a: nat, i: nat, b: nat, j: nat) {
    a < b || (a == b && i < j)
  }

  /** Every pair from `(a, i)` up to, not including, `(b, j)` was read and missed. */
  ghost predicate MissedBetween(blk: PgBlock, mem: seq<byte>, base: nat, cc: nat, a: nat, i: nat, b: nat, j: nat)
    requires blk.WellFormed()
  {
    forall a': nat, i': nat {:trigger Probe(blk, mem, base, a', i')} ::
      a' < 8 && i' < cc && !Before(a', i', a, i) && Before(a', i', b, j) ==>
        Probe(blk, mem, base, a', i').Some? && !Probe(blk, mem, base, a', i').value.hit
  }

  /** What the search returns, from any point of the loops on: the first hit in loop order,
      with every pair before it missed; or, when there is none, the exhausted state with every
      pair missed; or None when a probe faults before either. */
  lemma {:induction false} ScanFindsFirstHit(blk: PgBlock, mem: seq<byte>, base: nat, cc: nat,
                                             a: nat, i: nat, last: word)
    requires blk.WellFormed() && a <= 8 && i <= cc
    ensures var r := Scan(blk, mem, base, cc, a, i, last);
      && (r.Some? ==> r.value.align <= 8)
      && (r.Some? && r.value.align < 8 ==>
            && r.value.index < cc && !Before(r.value.align, r.value.index, a, i)
            && Probe(blk, mem, base, r.value.align, r.value.index) == Some(ProbeResult(true, r.value.last))
            && MissedBetween(blk, mem, base, cc, a, i, r.value.align, r.value.index))
      && (r.Some? && r.value.align == 8 ==>
            (a < 8 ==> r.value.index == cc) && MissedBetween(blk, mem, base, cc, a, i, 8, 0))
      && (r.None? ==>
            exists a': nat, i': nat {:trigger Probe(blk, mem, base, a', i')} ::
              a' < 8 && i' < cc && !Before(a', i', a, i) && Probe(blk, mem, base, a', i').None?)
    decreases 8 - a, cc - i
  {
    hide Probe;
    if a == 8 {
    } else if i == cc {
      if a < 7 {
        ScanFindsFirstHit(blk, mem, base, cc, a + 1, 0, last);
      }
    } else {
      var pr := Probe(blk, mem, base, a, i);
      if pr.Some? && !pr.value.hit {
        ScanFindsFirstHit(blk, mem, base, cc, a, i + 1, pr.value.last);
      }
    }
  }

  /** The search of `PgSetNewEntryWithBtc` over the encoded words at `base`: where it stops, a
      hit or the exhausted state with `AlignOffset == 8` and `Index == CompareCount`, or None
      when a probe reads outside memory. `SearchFindsFirstHit` says which stop it is. */
  function Search(blk: PgBlock, mem: seq<byte>, base: nat, cc: nat): (r: Option<Stop>)
    requires blk.WellFormed()
    ensures r.Some? ==> r.value.align <= 8
    ensures r.Some? && r.value.align < 8 ==>
      && r.value.index < cc
      && Probe(blk, mem, base, r.value.align, r.value.index) == Some(ProbeResult(true, r.value.last))
    ensures r.Some? && r.value.align == 8 ==> r.value.index == cc
  {
    ScanFindsFirstHit(blk, mem, base, cc, 0, 0, 0);
    Scan(blk, mem, base, cc, 0, 0, 0)
  }

  /** The search stops at the first pair, in loop order, whose probe hits, after every earlier
      probe missed; without a hit it has missed every pair; it faults only when some probe reads
      outside memory. */
  lemma SearchFindsFirstHit(blk: PgBlock, mem: seq<byte>, base: nat, cc: nat)
    requires blk.WellFormed()
    ensures var r := Search(blk, mem, base, cc);
      && (r.Some? && r.value.align < 8 ==> MissedBetween(blk, mem, base, cc, 0, 0, r.value.align, r.value.index))
      && (r.Some? && r.value.align == 8 ==> MissedBetween(blk, mem, base, cc, 0, 0, 8, 0))
      && (r.None? ==>
            exists a': nat, i': nat {:trigger Probe(blk, mem, base, a', i')} ::
              a' < 8 && i' < cc && Probe(blk, mem, base, a', i').None?)
  {
    hide Probe;
    ScanFindsFirstHit(blk, mem, base, cc, 0, 0, 0);
  }

  /** The search loops as the source writes them: `for (AlignOffset ...) for (Index ...)`, with
      `goto found` on a hit. */
  method SearchPrologue(blk: PgBlock, mem: seq<byte>, base: nat, cc: nat) returns (r: Option<Stop>)
    requires blk.WellFormed()
    ensures r == Search(blk, mem, base, cc)
  {
    hide Probe;
    var last: word := 0;
    var a: nat := 0;
    var i: nat := 0;
    while a < 8
      invariant a <= 8
      invariant a < 8 ==> Search(blk, mem, base, cc) == Scan(blk, mem, base, cc, a, 0, last)
      invariant a == 8 ==> Search(blk, mem, base, cc) == Some(Stop(8, i, last))
      invariant a == 8 && cc > 0 ==> i == cc
      decreases 8 - a
    {
      i := 0;
      while i < cc
        invariant i <= cc
        invariant Search(blk, mem, base, cc) == Scan(blk, mem, base, cc, a, i, last)
        decreases cc - i
      {
        var pr := Probe(blk, mem, base, a, i);
        if pr.None? {
          return None;
        }
        last := pr.value.last;
        if pr.value.hit {
          return Some(Stop(a, i, last));
        }
        i := i + 1;
      }
      a := a + 1;
    }
    r := Some(Stop(8, i, last));
  }

  /** The key the BTC loops use for word `j` of `len`, walking down from `last` at word
      `len - 1`: rotate right by `FieldIndex + j + 1`, then complement the key's own bit. As in
      `Probe`, the 32-bit wrap of the amount is left out because no rotation sees it. */
  function BtcKey(last: word, fi: u32, len: nat, j: nat): word
    requires j < len
    decreases len - j
  {
    if j == len - 1 then last else Btc64(Ror(BtcKey(last, fi, len, j + 1), fi + j + 1))
  }

  function BtcKeys(last: word, fi: u32, len: nat): (ks: seq<word>)
    ensures |ks| == len
  {
    seq(len, j requires 0 <= j < len => BtcKey(last, fi, len, j))
  }

  /** The key stream of a window of `count` words of which only the first `len` are XORed;
      XOR with the zero bytes after them leaves the rest of the window as it is. */
  function BtcStream(last: word, fi: u32, len: nat, count: nat): (r: seq<byte>)
    requires len <= count
    ensures |r| == 8 * count
    ensures forall x {:trigger r[x]} :: 8 * len <= x < 8 * count ==> r[x] == 0
  {
    KeystreamBytes(BtcKeys(last, fi, len)) + seq(8 * (count - len), _ => 0)
  }

  /** `AlignOffset & 7` is non-zero: the prologue starts inside the word before the match. */
  predicate Unaligned(m: Stop) {
    m.align % 8 != 0
  }

  /** `FieldIndex = Index - (AlignOffset & 7 ? 1 : 0)`, an unsigned 32-bit difference. */
  function StopFieldIndex(m: Stop): u32 {
    (m.index - (if Unaligned(m) then 1 else 0)) % TWO_32
  }

  /** `LastRorKeyOffset = 2 + (AlignOffset & 7 ? 1 : 0)`: the words the loops XOR. */
  function StopKeyCount(m: Stop): (len: nat)
    ensures 2 <= len <= 3
  {
    2 + (if Unaligned(m) then 1 else 0)
  }

  /** `Context + SizeCmpAppendDllSection + FieldIndex * 8`, the product a ULONG. */
  function StopWindow(blk: PgBlock, ctx: nat, m: Stop): nat {
    ctx + blk.sizeCmpAppendDllSection + (StopFieldIndex(m) * 8) % TWO_32
  }

  /** The patch at the place the search stopped, with the jump at byte `pos` of the window:
      XOR the first words with the recovered keys, write the jump, XOR them again, copy the
      window back and take a reference. None when the window lies outside memory or the jump
      does not fit in it. */
  function BtcPatchAt(p: Params, blk: PgBlock, mem: seq<byte>, ctx: nat, m: Stop, pos: nat, jump: seq<byte>)
    : (r: Option<Patched>)
    requires p.Valid()
    ensures r.Some? <==> StopWindow(blk, ctx, m) + p.WindowSize() <= |mem| && pos + |jump| <= p.WindowSize()
    ensures r.Some? ==> r.value.referenceCount == blk.referenceCount + 1 && |r.value.mem| == |mem|
  {
    var at := StopWindow(blk, ctx, m);
    if at + p.WindowSize() > |mem| || pos + |jump| > p.WindowSize() then None
    else
      var ks := BtcStream(m.last, StopFieldIndex(m), StopKeyCount(m), p.compareFieldsCount);
      Some(Patched(WriteBack(mem, at, pos, jump, ks), blk.referenceCount + 1))
  }

  /** `PgSetNewEntryWithBtc` as written: after the search the patch goes ahead whether or not a
      pair matched, and the jump goes to byte `8 - AlignOffset` of the window. */
  function PatchWithBtcAsWritten(p: Params, blk: PgBlock, mem: seq<byte>, ctx: nat, ctxSize: u64, jump: seq<byte>)
    : (r: Option<Patched>)
    requires p.Valid() && blk.WellFormed()
    ensures r.Some? ==> r.value.referenceCount == blk.referenceCount + 1 && |r.value.mem| == |mem|
  {
    hide Probe, Scan, BtcPatchAt, StopWindow, AsWrittenOffset;
    var s := blk.sizeCmpAppendDllSection;
    var m :- Search(blk, mem, ctx + s, CompareCount(ctxSize, s));
    BtcPatchAt(p, blk, mem, ctx, m, AsWrittenOffset(m), jump)
  }

  /** `8 - AlignOffset`: where the setter as written puts the jump inside the window. */
  function AsWrittenOffset(m: Stop): nat
    requires m.align <= 8
  {
    8 - m.align
  }

  /** Byte offset, inside the window, of the prologue's first byte when the search matched at
      alignment `align`: the byte `align` of the prologue starts the matched word. */
  function PrologueOffset(align: nat): nat
    requires align < 8
  {
    (8 - align) % 8
  }

  /** `PgSetNewEntryWithBtc` as intended: patch only when a pair matched, and write the jump
      over the first byte of the prologue. */
  function PatchWithBtc(p: Params, blk: PgBlock, mem: seq<byte>, ctx: nat, ctxSize: u64, jump: seq<byte>)
    : (r: Option<Patched>)
    requires p.Valid() && blk.WellFormed()
    ensures r.Some? ==> r.value.referenceCount == blk.referenceCount + 1 && |r.value.mem| == |mem|
  {
    var s := blk.sizeCmpAppendDllSection;
    var m :- Search(blk, mem, ctx + s, CompareCount(ctxSize, s));
    PatchAtStop(p, blk, mem, ctx, m, jump)
  }

  /** The corrected patch once the search stopped at `m`: none when every pair missed,
      otherwise the jump over the prologue's first byte. */
  function PatchAtStop(p: Params, blk: PgBlock, mem: seq<byte>, ctx: nat, m: Stop, jump: seq<byte>)
    : (r: Option<Patched>)
    requires p.Valid() && m.align <= 8
    ensures m.align == 8 ==> r.None?
    ensures r.Some? ==> r.value.referenceCount == blk.referenceCount + 1 && |r.value.mem| == |mem|
  {
    if m.align == 8 then None else BtcPatchAt(p, blk, mem, ctx, m, PrologueOffset(m.align), jump)
  }

  /** A key stream word stays in place when more bytes follow it. */
  lemma KeyAtPrefix(ksb: seq<byte>, tail: seq<byte>, w: nat, k: word)
    requires KeyAt(ksb, w, k)
    ensures KeyAt(ksb + tail, w, k)
  {
    var all := ksb + tail;
    forall j | 0 <= j < 8
      ensures all[8 * w + j] == WordBytes(k)[j]
    {
      assert all[8 * w + j] == ksb[8 * w + j];
    }
  }

  /** Before the loop runs, nothing is XORed: the words from `len` on XOR with zero. */
  lemma NothingEncodedYet(plain: seq<byte>, ksb: seq<byte>, len: nat)
    requires |plain| == |ksb| && 8 * len <= |plain|
    requires forall x {:trigger ksb[x]} :: 8 * len <= x < |ksb| ==> ksb[x] == 0
    ensures PartlyEncoded(plain, ksb, len) == plain
  {
    forall b | 0 <= b < |plain|
      ensures PartlyEncoded(plain, ksb, len)[b] == plain[b]
    {
      PartlyEncodedAt(plain, ksb, len, b);
    }
  }

  /** All of it XORed. */
  lemma AllEncoded(plain: seq<byte>, ksb: seq<byte>)
    requires |plain| == |ksb|
    ensures PartlyEncoded(plain, ksb, 0) == XorBytes(plain, ksb)
  {
    assert plain[8 * 0..] == plain;
    assert ksb[8 * 0..] == ksb;
  }

  /** The walk starts from `last`. */
  lemma BtcKeyTop(last: word, fi: u32, len: nat)
    requires 0 < len
    ensures BtcKeys(last, fi, len)[len - 1] == last
  {
  }

  /** One step of the walk down: key `w - 1` is key `w` rotated right by `FieldIndex + w`
      with its own bit complemented. */
  lemma BtcKeyStep(last: word, fi: u32, len: nat, w: nat)
    requires 0 < w < len
    ensures BtcKeys(last, fi, len)[w - 1] == Btc64(Ror(BtcKeys(last, fi, len)[w], fi + w))
  {
    assert fi + (w - 1) + 1 == fi + w;
  }

  /** `Index = LastRorKeyOffset; while (Index--)`: XOR word `Index` with the key, then rotate the
      key right by `FieldIndex + Index` and complement its own bit. Both loops of the source are
      this loop, and XOR makes the second undo the first. */
  method BtcXorWords(buf: seq<byte>, last: word, fi: u32, len: nat, count: nat) returns (r: seq<byte>)
    requires 0 < len <= count && |buf| == 8 * count
    ensures r == XorBytes(buf, BtcStream(last, fi, len, count))
  {
    hide XorBytes, PartlyEncoded, KeystreamBytes, EncodeStep, KeyAt, Btc64, Ror, BtcKey;
    ghost var keys := BtcKeys(last, fi, len);
    ghost var ksb := BtcStream(last, fi, len, count);
    NothingEncodedYet(buf, ksb, len);
    BtcKeyTop(last, fi, len);
    r := buf;
    var k := last;
    var w: nat := len;
    while w > 0
      invariant w <= len
      invariant r == PartlyEncoded(buf, ksb, w)
      invariant w > 0 ==> k == keys[w - 1]
    {
      w := w - 1;
      KeystreamWord(keys, w);
      KeyAtPrefix(KeystreamBytes(keys), seq(8 * (count - len), _ => 0), w, k);
      EncodeOneWord(buf, ksb, k, w);
      r := EncodeStep(r, buf, w, k);
      if w > 0 {
        BtcKeyStep(last, fi, len, w);
      }
      k := Btc64(Ror(k, fi + w));
    }
    AllEncoded(buf, ksb);
  }


  /** What a hit at `(a, i)` says about memory: `last` encodes `ControlPc[1]` as word `i + 1` at
      `base`, and the key one BTC step before it encodes `ControlPc[0]` as word `i`. */
  lemma ProbeHit(blk: PgBlock, mem: seq<byte>, base: nat, a: nat, i: nat, last: word)
    requires blk.WellFormed() && a < 8
    requires Probe(blk, mem, base, a, i) == Some(ProbeResult(true, last))
    ensures EncodesControl(blk, mem, base + 8 * i, Btc64(Ror(last, i + 1)), a, 0)
    ensures EncodesControl(blk, mem, base + 8 * (i + 1), last, a, 1)
  {
    XorCancels(WordAt(mem, base + 8 * (i + 1)), ControlWord(blk, a, 1));
  }

  /** The key below the top one is one BTC step down from `last`. */
  lemma BtcKeyBelowTop(last: word, fi: u32, len: nat)
    requires len >= 2
    ensures BtcKey(last, fi, len, len - 2) == Btc64(Ror(last, fi + len - 1))
  {
    assert BtcKey(last, fi, len, len - 1) == last;
    assert fi + (len - 2) + 1 == fi + len - 1;
  }

  /** Where the window lies relative to the matched pair: when `FieldIndex * 8` does not wrap,
      the window starts `FieldIndex` words into `TargetPc`, the matched words `Index` and
      `Index + 1` are its words `LastRorKeyOffset - 2` and `LastRorKeyOffset - 1`, the prologue
      starts in the first of them, and the rotation amount `FieldIndex + LastRorKeyOffset - 1`
      of the key below the top one is `Index + 1`. */
  lemma StopLayout(blk: PgBlock, ctx: nat, m: Stop)
    requires m.align < 8
    requires Unaligned(m) ==> m.index >= 1
    requires 8 * m.index < TWO_32
    ensures StopWindow(blk, ctx, m) == ctx + blk.sizeCmpAppendDllSection + 8 * StopFieldIndex(m)
    ensures StopFieldIndex(m) + (StopKeyCount(m) - 2) == m.index
    ensures StopFieldIndex(m) + StopKeyCount(m) - 1 == m.index + 1
    ensures 8 * (StopKeyCount(m) - 2) == PrologueOffset(m.align) + m.align
  {
  }

  /** The top two keys the loops use at a stop: `LastRorKey`, and one BTC step below it, rotated
      by `FieldIndex + LastRorKeyOffset - 1 == Index + 1`. */
  lemma StopTopKeys(m: Stop)
    requires Unaligned(m) ==> m.index >= 1
    requires m.index < TWO_32
    ensures BtcKeys(m.last, StopFieldIndex(m), StopKeyCount(m))[StopKeyCount(m) - 2] == Btc64(Ror(m.last, m.index + 1))
    ensures BtcKeys(m.last, StopFieldIndex(m), StopKeyCount(m))[StopKeyCount(m) - 1] == m.last
  {
    hide Btc64, Ror;
    var fi := StopFieldIndex(m);
    var len := StopKeyCount(m);
    assert fi + len - 1 == m.index + 1;
    BtcKeyBelowTop(m.last, fi, len);
    assert BtcKey(m.last, fi, len, len - 1) == m.last;
  }

  /** Words `w` and `w + 1` of the window at `at`, XORed with key words `w` and `w + 1` of `ks`,
      are `ControlPc[0]` and `ControlPc[1]`: the prologue, read from its byte `a` on. */
  predicate DecodesPrologue(blk: PgBlock, mem: seq<byte>, at: nat, ks: seq<word>, a: nat, w: nat)
    requires blk.WellFormed() && a < 8
  {
    && w + 1 < |ks|
    && EncodesControl(blk, mem, at + 8 * w, ks[w], a, 0)
    && EncodesControl(blk, mem, at + 8 * (w + 1), ks[w + 1], a, 1)
  }

  /** A hit at `m` means the window the setter copies out holds the prologue under the keys the
      loops walk down from `LastRorKey`: the matched pair is its last two XORed words. */
  lemma PrologueDecodes(blk: PgBlock, mem: seq<byte>, ctx: nat, m: Stop)
    requires blk.WellFormed() && m.align < 8
    requires Probe(blk, mem, ctx + blk.sizeCmpAppendDllSection, m.align, m.index) == Some(ProbeResult(true, m.last))
    requires Unaligned(m) ==> m.index >= 1
    requires 8 * m.index < TWO_32
    ensures DecodesPrologue(blk, mem, StopWindow(blk, ctx, m), BtcKeys(m.last, StopFieldIndex(m), StopKeyCount(m)),
                            m.align, StopKeyCount(m) - 2)
  {
    hide Probe, EncodesControl, BtcKeys, Btc64, Ror;
    var base := ctx + blk.sizeCmpAppendDllSection;
    ProbeHit(blk, mem, base, m.align, m.index, m.last);
    StopTopKeys(m);
    StopLayout(blk, ctx, m);
    hide StopWindow, StopKeyCount, StopFieldIndex, PrologueOffset;
    var at, len := StopWindow(blk, ctx, m), StopKeyCount(m);
    assert at + 8 * (len - 2) == base + 8 * m.index;
    assert at + 8 * (len - 2 + 1) == base + 8 * (m.index + 1);
  }

  /** When the search stops at a hit, the window decodes to the prologue. */
  lemma HitWindowDecodes(blk: PgBlock, mem: seq<byte>, ctx: nat, ctxSize: u64, m: Stop)
    requires blk.WellFormed()
    requires Search(blk, mem, ctx + blk.sizeCmpAppendDllSection,
                    CompareCount(ctxSize, blk.sizeCmpAppendDllSection)) == Some(m)
    requires m.align < 8 && (Unaligned(m) ==> m.index >= 1) && 8 * m.index < TWO_32
    ensures DecodesPrologue(blk, mem, StopWindow(blk, ctx, m), BtcKeys(m.last, StopFieldIndex(m), StopKeyCount(m)),
                            m.align, StopKeyCount(m) - 2)
  {
    hide Probe;
    PrologueDecodes(blk, mem, ctx, m);
  }

  /** Once the search has stopped at `m`, the corrected setter is the patch at `m` with the jump
      at the prologue's first byte, or None when every pair missed. */
  lemma PatchWithBtcAtStop(p: Params, blk: PgBlock, mem: seq<byte>, ctx: nat, ctxSize: u64, jump: seq<byte>, m: Stop)
    requires p.Valid() && blk.WellFormed()
    requires Search(blk, mem, ctx + blk.sizeCmpAppendDllSection,
                    CompareCount(ctxSize, blk.sizeCmpAppendDllSection)) == Some(m)
    ensures PatchWithBtc(p, blk, mem, ctx, ctxSize, jump) == PatchAtStop(p, blk, mem, ctx, m, jump)
  {
    hide Probe, BtcPatchAt;
  }

  /** The setter as written is the patch at `m` with the jump at byte `8 - AlignOffset`. */
  lemma AsWrittenAtStop(p: Params, blk: PgBlock, mem: seq<byte>, ctx: nat, ctxSize: u64, jump: seq<byte>, m: Stop)
    requires p.Valid() && blk.WellFormed()
    requires Search(blk, mem, ctx + blk.sizeCmpAppendDllSection,
                    CompareCount(ctxSize, blk.sizeCmpAppendDllSection)) == Some(m)
    ensures PatchWithBtcAsWritten(p, blk, mem, ctx, ctxSize, jump) == BtcPatchAt(p, blk, mem, ctx, m, AsWrittenOffset(m), jump)
  {
    hide Probe, BtcPatchAt;
  }

  /** A patch at a stop rewrites exactly the jump's bytes of the window decoded with the BTC key
      stream, and nothing else in memory. */
  lemma BtcPatchAtRewrites(p: Params, blk: PgBlock, mem: seq<byte>, ctx: nat, m: Stop, pos: nat, jump: seq<byte>)
    requires p.Valid()
    requires BtcPatchAt(p, blk, mem, ctx, m, pos, jump).Some?
    ensures Rewrites(mem, BtcPatchAt(p, blk, mem, ctx, m, pos, jump).value.mem, StopWindow(blk, ctx, m), pos, jump,
                     BtcStream(m.last, StopFieldIndex(m), StopKeyCount(m), p.compareFieldsCount))
  {
    WriteBackRewrites(mem, StopWindow(blk, ctx, m), pos, jump,
                      BtcStream(m.last, StopFieldIndex(m), StopKeyCount(m), p.compareFieldsCount));
  }

  /** Away from alignment 0 the two readings agree: after a hit at a nonzero alignment
      `8 - AlignOffset` is the prologue's first byte, so the setter as written patches exactly as
      the corrected one does. They part only after a hit at alignment 0 and after a search that
      found nothing. */
  lemma AsWrittenAgreesOffAlignment(p: Params, blk: PgBlock, mem: seq<byte>, ctx: nat, ctxSize: u64,
                                    jump: seq<byte>, m: Stop)
    requires p.Valid() && blk.WellFormed()
    requires Search(blk, mem, ctx + blk.sizeCmpAppendDllSection,
                    CompareCount(ctxSize, blk.sizeCmpAppendDllSection)) == Some(m)
    ensures 0 < m.align < 8 ==>
      PatchWithBtcAsWritten(p, blk, mem, ctx, ctxSize, jump) == PatchWithBtc(p, blk, mem, ctx, ctxSize, jump)
    ensures m.align == 0 ==>
      PatchWithBtcAsWritten(p, blk, mem, ctx, ctxSize, jump) == BtcPatchAt(p, blk, mem, ctx, m, 8, jump)
      && PatchWithBtc(p, blk, mem, ctx, ctxSize, jump) == BtcPatchAt(p, blk, mem, ctx, m, 0, jump)
  {
    hide Probe, BtcPatchAt, Search;
    AsWrittenAtStop(p, blk, mem, ctx, ctxSize, jump, m);
    PatchWithBtcAtStop(p, blk, mem, ctx, ctxSize, jump, m);
  }

  /** A hit on the first pair at a nonzero alignment puts the prologue's start in the word before
      the compared words, but `FieldIndex = Index - 1` is a `ULONG` and wraps to 0xFFFFFFFF: the
      window the setter copies out (in both readings) lies 0xFFFFFFF8 bytes past
      `Context + SizeCmpAppendDllSection` instead of 8 bytes before it. */
  lemma FirstPairHitWrapsWindow(blk: PgBlock, ctx: nat, m: Stop)
    requires Unaligned(m) && m.index == 0
    ensures StopFieldIndex(m) == 0xFFFF_FFFF
    ensures StopWindow(blk, ctx, m) == ctx + blk.sizeCmpAppendDllSection + 0xFFFF_FFF8
  {
  }

  /** The corrected setter patches only after a hit, and then the jump lands on the prologue:
      the window it rewrites decodes, at the words the search matched, to the prologue read from
      byte `align` on, the jump starts `align` bytes before those words, and decoding the
      rewritten window finds the jump there with every other byte of memory unchanged. */
  lemma PatchWithBtcLandsOnPrologue(p: Params, blk: PgBlock, mem: seq<byte>, ctx: nat, ctxSize: u64,
                                    jump: seq<byte>, m: Stop)
    requires p.Valid() && blk.WellFormed()
    requires Search(blk, mem, ctx + blk.sizeCmpAppendDllSection,
                    CompareCount(ctxSize, blk.sizeCmpAppendDllSection)) == Some(m)
    requires (Unaligned(m) ==> m.index >= 1) && 8 * m.index < TWO_32
    ensures m.align == 8 ==> PatchWithBtc(p, blk, mem, ctx, ctxSize, jump).None?
    ensures PatchWithBtc(p, blk, mem, ctx, ctxSize, jump).Some? ==>
      && m.align < 8
      && PrologueOffset(m.align) + m.align == 8 * (StopKeyCount(m) - 2)
      && DecodesPrologue(blk, mem, StopWindow(blk, ctx, m), BtcKeys(m.last, StopFieldIndex(m), StopKeyCount(m)),
                         m.align, StopKeyCount(m) - 2)
      && Rewrites(mem, PatchWithBtc(p, blk, mem, ctx, ctxSize, jump).value.mem, StopWindow(blk, ctx, m),
                  PrologueOffset(m.align), jump,
                  BtcStream(m.last, StopFieldIndex(m), StopKeyCount(m), p.compareFieldsCount))
  {
    hide Probe;
    PatchWithBtcAtStop(p, blk, mem, ctx, ctxSize, jump, m);
    if m.align < 8 && BtcPatchAt(p, blk, mem, ctx, m, PrologueOffset(m.align), jump).Some? {
      StopLayout(blk, ctx, m);
      HitWindowDecodes(blk, mem, ctx, ctxSize, m);
      BtcPatchAtRewrites(p, blk, mem, ctx, m, PrologueOffset(m.align), jump);
    }
  }

  /** As written, a hit at alignment 0 puts the jump at byte 8 of the window: the first word,
      which decodes to the first eight bytes of the prologue, keeps its encoded bytes, so the
      guardian's entry is not overwritten. */
  lemma AsWrittenKeepsAlignedPrologue(p: Params, blk: PgBlock, mem: seq<byte>, ctx: nat, ctxSize: u64,
                                      jump: seq<byte>, m: Stop)
    requires p.Valid() && blk.WellFormed()
    requires Search(blk, mem, ctx + blk.sizeCmpAppendDllSection,
                    CompareCount(ctxSize, blk.sizeCmpAppendDllSection)) == Some(m)
    requires m.align == 0 && 8 * m.index < TWO_32
    requires StopWindow(blk, ctx, m) + p.WindowSize() <= |mem| && 8 + |jump| <= p.WindowSize()
    ensures PatchWithBtcAsWritten(p, blk, mem, ctx, ctxSize, jump).Some?
    ensures DecodesPrologue(blk, mem, StopWindow(blk, ctx, m), BtcKeys(m.last, StopFieldIndex(m), StopKeyCount(m)), 0, 0)
    ensures Window(PatchWithBtcAsWritten(p, blk, mem, ctx, ctxSize, jump).value.mem, StopWindow(blk, ctx, m), 8)
         == Window(mem, StopWindow(blk, ctx, m), 8)
  {
    hide Probe, PatchWithBtcAsWritten, Search, Btc64, Ror, BtcPatchAt;
    AsWrittenAtStop(p, blk, mem, ctx, ctxSize, jump, m);
    HitWindowDecodes(blk, mem, ctx, ctxSize, m);
    BtcPatchAtRewrites(p, blk, mem, ctx, m, 8, jump);
    RewritesKeepsBefore(mem, BtcPatchAt(p, blk, mem, ctx, m, 8, jump).value.mem, StopWindow(blk, ctx, m), 8, jump,
                        BtcStream(m.last, StopFieldIndex(m), StopKeyCount(m), p.compareFieldsCount));
  }

  /** As written, a search that tried every pair without a hit still patches: `FieldIndex` is
      then `CompareCount`, and the window just past the compared words is rewritten with keys
      derived from whatever `LastRorKey` the last probe left. The corrected setter returns None
      there. */
  lemma AsWrittenPatchesWithoutMatch(p: Params, blk: PgBlock, mem: seq<byte>, ctx: nat, ctxSize: u64,
                                     jump: seq<byte>, m: Stop)
    requires p.Valid() && blk.WellFormed()
    requires Search(blk, mem, ctx + blk.sizeCmpAppendDllSection,
                    CompareCount(ctxSize, blk.sizeCmpAppendDllSection)) == Some(m)
    requires m.align == 8
    requires StopWindow(blk, ctx, m) + p.WindowSize() <= |mem| && |jump| <= p.WindowSize()
    ensures PatchWithBtcAsWritten(p, blk, mem, ctx, ctxSize, jump).Some?
    ensures PatchWithBtc(p, blk, mem, ctx, ctxSize, jump).None?
  {
    hide Probe;
    AsWrittenAtStop(p, blk, mem, ctx, ctxSize, jump, m);
    PatchWithBtcAtStop(p, blk, mem, ctx, ctxSize, jump, m);
  }

  /** A concrete case: a context only one word longer than `SizeCmpAppendDllSection` has no
      pair to compare, the search runs out at once, and the setter as written patches anyway. */
  lemma AsWrittenPatchesShortContext(p: Params, blk: PgBlock, mem: seq<byte>, jump: seq<byte>)
    requires p.Valid() && blk.WellFormed()
    requires blk.sizeCmpAppendDllSection + p.WindowSize() <= |mem| && |jump| <= p.WindowSize()
    ensures PatchWithBtcAsWritten(p, blk, mem, 0, blk.sizeCmpAppendDllSection + 8, jump).Some?
    ensures PatchWithBtc(p, blk, mem, 0, blk.sizeCmpAppendDllSection + 8, jump).None?
  {
    hide Probe;
    var s: nat := blk.sizeCmpAppendDllSection;
    assert CompareCount(s + 8, s) == 0;
    var r := Search(blk, mem, s, 0);
    assert r.Some? && r.value.align == 8;
    AsWrittenPatchesWithoutMatch(p, blk, mem, 0, s + 8, jump, r.value);
  }

  /** The patch at a stop, with the XOR loops of the source: copy the window out, XOR its first
      words with the keys walked down from `LastRorKey`, write the jump, XOR again, copy back. */
  method PatchPrologueAt(p: Params, blk: PgBlock, mem: seq<byte>, ctx: nat, m: Stop, pos: nat, jump: seq<byte>)
    returns (r: Option<Patched>)
    requires p.Valid()
    ensures r == BtcPatchAt(p, blk, mem, ctx, m, pos, jump)
  {
    var at := StopWindow(blk, ctx, m);
    var window := Read(mem, at, p.WindowSize());
    if window.None? || pos + |jump| > p.WindowSize() {
      return None;
    }
    var plain := BtcXorWords(window.value, m.last, StopFieldIndex(m), StopKeyCount(m), p.compareFieldsCount);
    var cipher := BtcXorWords(Splice(plain, pos, jump), m.last, StopFieldIndex(m), StopKeyCount(m),
                              p.compareFieldsCount);
    r := Some(Patched(Write(mem, at, cipher), blk.referenceCount + 1));
  }

  /** `PgSetNewEntryWithBtc` as written, with the search loops and the XOR loops: when the loops
      run out, control falls through to `found:` with `AlignOffset == 8` and patches anyway, and
      the jump goes to byte `8 - AlignOffset` of the window. */
  method SetNewEntryWithBtcAsWritten(p: Params, blk: PgBlock, mem: seq<byte>, ctx: nat, ctxSize: u64,
                                     jump: seq<byte>) returns (r: Option<Patched>)
    requires p.Valid() && blk.WellFormed()
    ensures r == PatchWithBtcAsWritten(p, blk, mem, ctx, ctxSize, jump)
  {
    hide Probe, BtcPatchAt, CompareCount, AsWrittenOffset;
    var s := blk.sizeCmpAppendDllSection;
    var stop := SearchPrologue(blk, mem, ctx + s, CompareCount(ctxSize, s));
    if stop.None? {
      return None;
    }
    hide PatchWithBtcAsWritten, Search;
    AsWrittenAtStop(p, blk, mem, ctx, ctxSize, jump, stop.value);
    r := PatchPrologueAt(p, blk, mem, ctx, stop.value, AsWrittenOffset(stop.value), jump);
  }

  /** `PgSetNewEntryWithBtc`, with the search loops and the XOR loops, as intended: no patch
      without a hit, and the jump at the prologue's first byte. */
  method SetNewEntryWithBtc(p: Params, blk: PgBlock, mem: seq<byte>, ctx: nat, ctxSize: u64, jump: seq<byte>)
    returns (r: Option<Patched>)
    requires p.Valid() && blk.WellFormed()
    ensures r == PatchWithBtc(p, blk, mem, ctx, ctxSize, jump)
  {
    hide Probe, BtcPatchAt, CompareCount;
    var s := blk.sizeCmpAppendDllSection;
    var stop := SearchPrologue(blk, mem, ctx + s, CompareCount(ctxSize, s));
    if stop.None? {
      return None;
    }
    hide PatchWithBtc, Search;
    PatchWithBtcAtStop(p, blk, mem, ctx, ctxSize, jump, stop.value);
    if stop.value.align == 8 {
      return None;
    }
    r := PatchPrologueAt(p, blk, mem, ctx, stop.value, PrologueOffset(stop.value.align), jump);
  }
}
