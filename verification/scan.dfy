/** `PgCompareFields`: slide a four-word window over a region one byte at a time and test it
    against the reference `PgBlock->Fields` under the guardian's field key walk; on an encoded
    match create the object (`PgCreateObject`) and hand the context to the entry setter. */
module Scan {
  import opened Bits
  import opened Outcomes
  import opened Block
  import opened Patch
  import opened Cipher
  import opened CipherBtc

  /** `Fields[j]` with `Fields = TargetPc`: word `j` of the window at `t`. */
  function FieldWord(mem: seq<byte>, t: nat, j: nat): word
    requires t + FIELDS_SIZE <= |mem| && j < FIELDS_COUNT
  {
    WordAt(mem, t + 8 * j)
  }

  /** `Fields[j] ^ RorKey`: a word of the window decoded with a key. */
  function Unmask(w: word, k: word): word {
    w ^ k
  }

  /** Decoding with `Fields[3] ^ PgBlock->Fields[3]` gives `PgBlock->Fields[3]`. */
  lemma UnmaskCancels(w: word, b: word)
    ensures Unmask(w, Unmask(w, b)) == b
  {
  }

  /** A word decodes to zero exactly under the key equal to it. */
  lemma UnmaskZero(w: word, b: word)
    ensures Unmask(w, b) == 0 <==> w == b
  {
    if w != b {
      XorCancels(w, b);
    }
  }

  /** The optional BTC step of the field key walk (`if (PgBlock->BtcEnable)`). */
  function Mix(blk: PgBlock, k: word): word {
    if blk.btcEnable then Btc64(k) else k
  }

  /** The key after `j` steps of the field key walk from `k0 = Fields[3] ^ PgBlock->Fields[3]`:
      step `j` rotates right by `PG_FIELD_BITS - (j - 1)` (a ULONG difference, whose wrap no
      rotation sees) and then mixes. Word `3 - j` of a context is encoded with key `j`. */
  function ChainKey(p: Params, blk: PgBlock, k0: word, j: nat): word
    decreases j
  {
    if j == 0 then k0 else Mix(blk, Ror(ChainKey(p, blk, k0, j - 1), p.fieldBits - (j - 1)))
  }

  lemma ChainKeyStarts(p: Params, blk: PgBlock, k0: word)
    ensures ChainKey(p, blk, k0, 0) == k0
  {
  }

  /** What the loop body finds at one position. */
  datatype Hit =
    | Miss                        // nothing here: the sweep moves on one byte
    | ReferenceBlock              // the window is `PgBlock->Fields` itself
    | DeclassifiedContext         // the four words equal the reference in the clear
    | EncryptedContext(key: word) // the words decode to the reference; `key` decodes Fields[0]

  /** The words at `t` decode, under the field key walk from `k0`, to the reference fields:
      word `3 - j` XOR key `j` is `PgBlock->Fields[3 - j]` for every `j`. */
  ghost predicate DecodesFieldsFrom(p: Params, blk: PgBlock, mem: seq<byte>, t: nat, k0: word)
    requires blk.WellFormed() && t + FIELDS_SIZE <= |mem|
  {
    forall j {:trigger ChainKey(p, blk, k0, j)} :: 0 <= j < FIELDS_COUNT ==>
      Unmask(FieldWord(mem, t, 3 - j), ChainKey(p, blk, k0, j)) == blk.fields[3 - j]
  }

  /** The walk that starts from `Fields[3] ^ PgBlock->Fields[3]` decodes the window: an
      independent statement of the nested tests of the loop body. */
  ghost predicate DecodesFields(p: Params, blk: PgBlock, mem: seq<byte>, t: nat)
    requires blk.WellFormed() && t + FIELDS_SIZE <= |mem|
  {
    DecodesFieldsFrom(p, blk, mem, t, Unmask(FieldWord(mem, t, 3), blk.fields[3]))
  }

  /** The window equals the reference fields word by word. */
  lemma WindowIsReference(blk: PgBlock, mem: seq<byte>, t: nat)
    requires blk.WellFormed() && t + FIELDS_SIZE <= |mem|
    ensures (forall j {:trigger blk.fields[j]} :: 0 <= j < FIELDS_COUNT ==> FieldWord(mem, t, j) == blk.fields[j])
      <==> FieldWord(mem, t, 3) == blk.fields[3] && FieldWord(mem, t, 2) == blk.fields[2]
           && FieldWord(mem, t, 1) == blk.fields[1] && FieldWord(mem, t, 0) == blk.fields[0]
  {
    hide FieldWord;
    if FieldWord(mem, t, 3) == blk.fields[3] && FieldWord(mem, t, 2) == blk.fields[2]
       && FieldWord(mem, t, 1) == blk.fields[1] && FieldWord(mem, t, 0) == blk.fields[0]
    {
      forall j | 0 <= j < FIELDS_COUNT
        ensures FieldWord(mem, t, j) == blk.fields[j]
      {
        if j == 0 {} else if j == 1 {} else if j == 2 {} else {}
      }
    }
  }

  /** The body of the sweep loop at `TargetPc == t`. The reference block is recognised by its
      address before anything is read; reading the window outside memory is a fault (None). */
  function Classify(p: Params, blk: PgBlock, mem: seq<byte>, t: nat): (r: Option<Hit>)
    requires blk.WellFormed()
    ensures r.Some? <==> t == blk.fieldsAddress || t + FIELDS_SIZE <= |mem|
    ensures r == Some(ReferenceBlock) <==> t == blk.fieldsAddress
    ensures r == Some(DeclassifiedContext) <==>
      && t != blk.fieldsAddress && t + FIELDS_SIZE <= |mem|
      && forall j {:trigger blk.fields[j]} :: 0 <= j < FIELDS_COUNT ==> FieldWord(mem, t, j) == blk.fields[j]
  {
    hide WordAt, ChainKey;
    if t == blk.fieldsAddress then Some(ReferenceBlock)
    else if t + FIELDS_SIZE > |mem| then None
    else
      UnmaskZero(FieldWord(mem, t, 3), blk.fields[3]);
      WindowIsReference(blk, mem, t);
      hide Unmask, FieldWord;
      var k0 := Unmask(FieldWord(mem, t, 3), blk.fields[3]);
      if k0 == 0 then
        if FieldWord(mem, t, 2) == blk.fields[2] && FieldWord(mem, t, 1) == blk.fields[1]
           && FieldWord(mem, t, 0) == blk.fields[0]
        then Some(DeclassifiedContext)
        else Some(Miss)
      else
        var k1 := ChainKey(p, blk, k0, 1);
        if Unmask(FieldWord(mem, t, 2), k1) != blk.fields[2] then Some(Miss)
        else
          var k2 := ChainKey(p, blk, k0, 2);
          if Unmask(FieldWord(mem, t, 1), k2) != blk.fields[1] then Some(Miss)
          else
            var k3 := ChainKey(p, blk, k0, 3);
            if Unmask(FieldWord(mem, t, 0), k3) != blk.fields[0] then Some(Miss)
            else Some(EncryptedContext(Unmask(FieldWord(mem, t, 0), blk.fields[0])))
  }

  /** The quantified statement unrolled: key 0 always decodes word 3, so the window decodes
      exactly when words 2, 1 and 0 decode under keys 1, 2 and 3. */
  lemma DecodesFieldsUnrolled(p: Params, blk: PgBlock, mem: seq<byte>, t: nat)
    requires blk.WellFormed() && t + FIELDS_SIZE <= |mem|
    ensures DecodesFields(p, blk, mem, t) <==>
      && Unmask(FieldWord(mem, t, 2), ChainKey(p, blk, Unmask(FieldWord(mem, t, 3), blk.fields[3]), 1)) == blk.fields[2]
      && Unmask(FieldWord(mem, t, 1), ChainKey(p, blk, Unmask(FieldWord(mem, t, 3), blk.fields[3]), 2)) == blk.fields[1]
      && Unmask(FieldWord(mem, t, 0), ChainKey(p, blk, Unmask(FieldWord(mem, t, 3), blk.fields[3]), 3)) == blk.fields[0]
  {
    hide WordAt, ChainKey, Unmask;
    var k0 := Unmask(FieldWord(mem, t, 3), blk.fields[3]);
    ChainKeyStarts(p, blk, k0);
    UnmaskCancels(FieldWord(mem, t, 3), blk.fields[3]);
    var k1, k2, k3 := ChainKey(p, blk, k0, 1), ChainKey(p, blk, k0, 2), ChainKey(p, blk, k0, 3);
    if DecodesFieldsFrom(p, blk, mem, t, k0) {
      assert Unmask(FieldWord(mem, t, 3 - 1), k1) == blk.fields[3 - 1];
      assert Unmask(FieldWord(mem, t, 3 - 2), k2) == blk.fields[3 - 2];
      assert Unmask(FieldWord(mem, t, 3 - 3), k3) == blk.fields[3 - 3];
    }
    if Unmask(FieldWord(mem, t, 2), k1) == blk.fields[2] && Unmask(FieldWord(mem, t, 1), k2) == blk.fields[1]
       && Unmask(FieldWord(mem, t, 0), k3) == blk.fields[0]
    {
      forall j | 0 <= j < FIELDS_COUNT
        ensures Unmask(FieldWord(mem, t, 3 - j), ChainKey(p, blk, k0, j)) == blk.fields[3 - j]
      {
        if j == 0 {
        } else if j == 1 {
        } else if j == 2 {
        } else {
        }
      }
    }
  }

  /** An encoded context is found exactly where the window is not the reference block, its
      last word differs from the reference, and the whole window decodes to the reference; the
      key handed on is the third key of the walk. */
  lemma ClassifyEncrypted(p: Params, blk: PgBlock, mem: seq<byte>, t: nat)
    requires blk.WellFormed()
    ensures (Classify(p, blk, mem, t).Some? && Classify(p, blk, mem, t).value.EncryptedContext?) <==>
      && t != blk.fieldsAddress && t + FIELDS_SIZE <= |mem|
      && FieldWord(mem, t, 3) != blk.fields[3]
      && DecodesFields(p, blk, mem, t)
    ensures Classify(p, blk, mem, t).Some? && Classify(p, blk, mem, t).value.EncryptedContext? ==>
      Classify(p, blk, mem, t).value.key == ChainKey(p, blk, Unmask(FieldWord(mem, t, 3), blk.fields[3]), 3)
  {
    hide WordAt, Ror, Btc64, ChainKey, Unmask;
    if t != blk.fieldsAddress && t + FIELDS_SIZE <= |mem| {
      DecodesFieldsUnrolled(p, blk, mem, t);
      UnmaskCancels(FieldWord(mem, t, 0), ChainKey(p, blk, Unmask(FieldWord(mem, t, 3), blk.fields[3]), 3));
      UnmaskZero(FieldWord(mem, t, 3), blk.fields[3]);
    }
  }

  /** Where the sweep stopped: the loop ran out, or it broke at position `at`. */
  datatype Outcome = Exhausted | Stopped(at: nat, hit: Hit)

  /** The `do { ... TargetPc++; } while (TargetPc < EndAddress)` loop from `TargetPc == t`: the
      body runs at `t` even when `t` is not below `end`. None when a window read faults. */
  function ScanFrom(p: Params, blk: PgBlock, mem: seq<byte>, t: nat, end: nat): (r: Option<Outcome>)
    requires blk.WellFormed()
    ensures r.Some? && r.value.Stopped? ==>
      && t <= r.value.at < Reach(t, end)
      && r.value.hit != Miss
      && Classify(p, blk, mem, r.value.at) == Some(r.value.hit)
    decreases end - t
  {
    var h :- Classify(p, blk, mem, t);
    if h != Miss then Some(Stopped(t, h))
    else if t + 1 < end then ScanFrom(p, blk, mem, t + 1, end)
    else Some(Exhausted)
  }

  /** The positions the loop body runs at, from `t`: up to `end`, but at least `t` itself. */
  function Reach(t: nat, end: nat): (u: nat)
    ensures t < u
  {
    if t + 1 < end then end else t + 1
  }

  /** Every position in `[t, u)` holds no context and is not the reference block. */
  ghost predicate AllMiss(p: Params, blk: PgBlock, mem: seq<byte>, t: nat, u: nat)
    requires blk.WellFormed()
  {
    forall x {:trigger Classify(p, blk, mem, x)} :: t <= x < u ==> Classify(p, blk, mem, x) == Some(Miss)
  }

  /** What the sweep returns: it stops at the first position, one byte at a time, whose body
      breaks, having missed at every earlier one; it runs out only after missing everywhere it
      runs; it faults only where a window read faults. */
  lemma {:induction false} ScanFindsFirstEvent(p: Params, blk: PgBlock, mem: seq<byte>, t: nat, end: nat)
    requires blk.WellFormed()
    ensures var r := ScanFrom(p, blk, mem, t, end);
      && (r.Some? && r.value.Stopped? ==>
            && t <= r.value.at < Reach(t, end)
            && r.value.hit != Miss
            && Classify(p, blk, mem, r.value.at) == Some(r.value.hit)
            && AllMiss(p, blk, mem, t, r.value.at))
      && (r == Some(Exhausted) ==> AllMiss(p, blk, mem, t, Reach(t, end)))
      && (r.None? ==>
            exists x {:trigger Classify(p, blk, mem, x)} ::
              t <= x < Reach(t, end) && Classify(p, blk, mem, x).None? && AllMiss(p, blk, mem, t, x))
    decreases end - t
  {
    hide Classify;
    var h := Classify(p, blk, mem, t);
    AllMissEmpty(p, blk, mem, t);
    if h.Some? && h.value == Miss && t + 1 < end {
      var r := ScanFrom(p, blk, mem, t + 1, end);
      assert ScanFrom(p, blk, mem, t, end) == r;
      assert Reach(t + 1, end) == Reach(t, end);
      ScanFindsFirstEvent(p, blk, mem, t + 1, end);
      hide ScanFrom, Reach;
      if r.None? {
        var x :| t + 1 <= x < Reach(t + 1, end) && Classify(p, blk, mem, x).None? && AllMiss(p, blk, mem, t + 1, x);
        AllMissCons(p, blk, mem, t, x);
      } else if r.value.Stopped? {
        AllMissCons(p, blk, mem, t, r.value.at);
      } else {
        AllMissCons(p, blk, mem, t, Reach(t, end));
      }
    } else if h.Some? && h.value == Miss {
      AllMissCons(p, blk, mem, t, t + 1);
    }
  }

  lemma AllMissEmpty(p: Params, blk: PgBlock, mem: seq<byte>, t: nat)
    requires blk.WellFormed()
    ensures AllMiss(p, blk, mem, t, t)
  {
  }

  /** A miss at `t` extends a run of misses from `t + 1` down to `t`. */
  lemma AllMissCons(p: Params, blk: PgBlock, mem: seq<byte>, t: nat, u: nat)
    requires blk.WellFormed() && t < u
    requires Classify(p, blk, mem, t) == Some(Miss) && AllMiss(p, blk, mem, t + 1, u)
    ensures AllMiss(p, blk, mem, t, u)
  {
    hide Classify;
  }

  /** Conversely, a position at which the body breaks, with a miss at every earlier one, is where
      the sweep stops. */
  lemma {:induction false} ScanStopsAtFirstEvent(p: Params, blk: PgBlock, mem: seq<byte>, t: nat, end: nat,
                                                 x: nat, h: Hit)
    requires blk.WellFormed()
    requires t <= x < Reach(t, end) && h != Miss
    requires Classify(p, blk, mem, x) == Some(h) && AllMiss(p, blk, mem, t, x)
    ensures ScanFrom(p, blk, mem, t, end) == Some(Stopped(x, h))
    decreases x - t
  {
    hide Classify;
    if t < x {
      assert Classify(p, blk, mem, t) == Some(Miss);
      ScanStopsAtFirstEvent(p, blk, mem, t + 1, end, x, h);
    }
  }

  /** A region too small to hold a window is still examined once, at its base. */
  lemma SmallRegionExaminedOnce(p: Params, blk: PgBlock, mem: seq<byte>, t: nat, end: nat)
    requires blk.WellFormed() && end <= t + 1
    ensures Classify(p, blk, mem, t).None? ==> ScanFrom(p, blk, mem, t, end).None?
    ensures Classify(p, blk, mem, t) == Some(Miss) ==> ScanFrom(p, blk, mem, t, end) == Some(Exhausted)
    ensures Classify(p, blk, mem, t).Some? && Classify(p, blk, mem, t) != Some(Miss) ==>
      ScanFrom(p, blk, mem, t, end) == Some(Stopped(t, Classify(p, blk, mem, t).value))
  {
    hide Classify;
  }

  /** The sweep loop as the source writes it. */
  method SweepWindow(p: Params, blk: PgBlock, mem: seq<byte>, base: nat, end: nat) returns (r: Option<Outcome>)
    requires blk.WellFormed()
    ensures r == ScanFrom(p, blk, mem, base, end)
  {
    hide Classify;
    var t := base;
    while true
      invariant base <= t
      invariant ScanFrom(p, blk, mem, base, end) == ScanFrom(p, blk, mem, t, end)
      decreases end - t
    {
      var h := Classify(p, blk, mem, t);
      if h.None? {
        return None;
      }
      if h.value != Miss {
        return Some(Stopped(t, h.value));
      }
      if t + 1 >= end {
        return Some(Exhausted);
      }
      t := t + 1;
    }
  }

  /** `BaseAddress + RegionSize - sizeof(PgBlock->Fields)`, pointer arithmetic modulo 2^64. */
  function EndAddress(base: u64, size: u64): (e: u64)
    ensures base + size >= FIELDS_SIZE && base + size - FIELDS_SIZE < TWO_64 ==> e == base + size - FIELDS_SIZE
  {
    (base + size - FIELDS_SIZE) % TWO_64
  }

  /** `TargetPc - PG_FIRST_FIELD_OFFSET`, pointer arithmetic modulo 2^64. */
  function ContextOf(p: Params, t: nat): u64 {
    (t - p.firstFieldOffset) % TWO_64
  }

  /** The right-rotation loop that follows a match when BTC is off:
      `for (; RorKeyIndex < PG_FIELD_BITS; RorKeyIndex++) RorKey = __ROR64(RorKey, PG_FIELD_BITS - RorKeyIndex)`. */
  function Unwind(p: Params, k: word, i: nat): word
    decreases p.fieldBits - i
  {
    if i < p.fieldBits then Unwind(p, Ror(k, p.fieldBits - i), i + 1) else k
  }

  /** Rotating right by `m`, `m - 1`, ..., 1 in turn. */
  function RorDown(k: word, m: nat): word
    decreases m
  {
    if m == 0 then k else RorDown(Ror(k, m), m - 1)
  }

  /** The unwinding loop from index `i` rotates right by `PG_FIELD_BITS - i`, ..., 1. */
  lemma {:induction false} UnwindIsRorDown(p: Params, k: word, i: nat)
    requires i <= p.fieldBits
    ensures Unwind(p, k, i) == RorDown(k, p.fieldBits - i)
    decreases p.fieldBits - i
  {
    if i < p.fieldBits {
      UnwindIsRorDown(p, Ror(k, p.fieldBits - i), i + 1);
      assert p.fieldBits - i - 1 == p.fieldBits - (i + 1);
    }
  }

  /** The prefix loop of `PgSetNewEntry` undoes a walk down: rotating left by 0, 1, ..., m after
      rotating right by m, ..., 1 gives the key back. */
  lemma {:induction false} PrefixKeyUndoesRorDown(k: word, m: nat)
    ensures PrefixKey(RorDown(k, m), m + 1) == k
    decreases m
  {
    if m == 0 {
      assert PrefixKey(k, 1) == Rol(k, 0);
    } else {
      PrefixKeyUndoesRorDown(Ror(k, m), m - 1);
      RolUndoesRor(k, m);
    }
  }

  /** The key `PgCompareFields` hands to `PgSetNewEntry` after a match with key `k3`. */
  function SetterKey(p: Params, k3: word): word {
    Unwind(p, k3, 3)
  }

  /** Without BTC, the key handed to `PgSetNewEntry` is the start of the guardian's schedule:
      its first `PG_FIELD_BITS + 1 - j` prefix steps give the key word `3 - j` of the matched
      window is encoded with. So the entry setter decodes the context with the same schedule
      the match was found under. */
  lemma SetterKeyStartsSchedule(p: Params, blk: PgBlock, mem: seq<byte>, t: nat)
    requires blk.WellFormed() && !blk.btcEnable && p.fieldBits >= 3
    requires Classify(p, blk, mem, t).Some? && Classify(p, blk, mem, t).value.EncryptedContext?
    ensures var key := SetterKey(p, Classify(p, blk, mem, t).value.key);
      && Unmask(FieldWord(mem, t, 3), PrefixKey(key, p.fieldBits + 1)) == blk.fields[3]
      && Unmask(FieldWord(mem, t, 2), PrefixKey(key, p.fieldBits)) == blk.fields[2]
      && Unmask(FieldWord(mem, t, 1), PrefixKey(key, p.fieldBits - 1)) == blk.fields[1]
      && Unmask(FieldWord(mem, t, 0), PrefixKey(key, p.fieldBits - 2)) == blk.fields[0]
  {
    hide Classify, ChainKey, Ror, Unwind, RorDown, PrefixKey, WordAt, Unmask, SetterKey;
    ClassifyEncrypted(p, blk, mem, t);
    DecodesFieldsUnrolled(p, blk, mem, t);
    var k0 := Unmask(FieldWord(mem, t, 3), blk.fields[3]);
    ChainKeyStarts(p, blk, k0);
    UnmaskCancels(FieldWord(mem, t, 3), blk.fields[3]);
    ScheduleKeyAt(p, blk, k0, 0);
    ScheduleKeyAt(p, blk, k0, 1);
    ScheduleKeyAt(p, blk, k0, 2);
    ScheduleKeyAt(p, blk, k0, 3);
  }

  /** Without BTC, prefix step `PG_FIELD_BITS + 1 - j` from the setter's key is key `j` of the
      field walk. */
  lemma ScheduleKeyAt(p: Params, blk: PgBlock, k0: word, j: nat)
    requires !blk.btcEnable && j <= 3 && 3 <= p.fieldBits
    ensures PrefixKey(SetterKey(p, ChainKey(p, blk, k0, 3)), p.fieldBits + 1 - j) == ChainKey(p, blk, k0, j)
  {
    hide ChainKey, Ror, Unwind, RorDown, PrefixKey;
    var fb: nat := p.fieldBits;
    UnwindIsRorDown(p, ChainKey(p, blk, k0, 3), 3);
    ChainRorDown(p, blk, k0, j);
    PrefixKeyUndoesRorDown(ChainKey(p, blk, k0, j), fb - j);
    assert fb - j + 1 == fb + 1 - j;
  }

  /** Without BTC, the walk down from key `j` of the field walk reaches the same key as the
      walk down from key 3. */
  lemma ChainRorDown(p: Params, blk: PgBlock, k0: word, j: nat)
    requires !blk.btcEnable && j <= 3 && 3 <= p.fieldBits
    ensures RorDown(ChainKey(p, blk, k0, 3), p.fieldBits - 3) == RorDown(ChainKey(p, blk, k0, j), p.fieldBits - j)
    decreases 3 - j
  {
    var fb: nat := p.fieldBits;
    if j < 3 {
      ChainStep(p, blk, k0, j);
      ChainRorDown(p, blk, k0, j + 1);
    }
  }

  /** One step of the walk down is one step of the field walk when BTC is off. */
  lemma ChainStep(p: Params, blk: PgBlock, k0: word, j: nat)
    requires !blk.btcEnable && j < 3 && 3 <= p.fieldBits
    ensures RorDown(ChainKey(p, blk, k0, j), p.fieldBits - j)
         == RorDown(ChainKey(p, blk, k0, j + 1), p.fieldBits - (j + 1))
  {
    var fb: nat := p.fieldBits;
    assert ChainKey(p, blk, k0, j + 1) == Ror(ChainKey(p, blk, k0, j), fb - j);
  }

  /** The right-rotation loop that follows a match when BTC is off, as the source writes it. */
  method UnwindKey(p: Params, k3: word) returns (k: word)
    ensures k == SetterKey(p, k3)
  {
    hide Ror;
    k := k3;
    var i: nat := 3;
    while i < p.fieldBits
      invariant Unwind(p, k, i) == Unwind(p, k3, 3)
      decreases p.fieldBits - i
    {
      k := Ror(k, p.fieldBits - i);
      i := i + 1;
    }
  }

  /** `PgCreateObject`: a zeroed record holding the protection, region type, base and size, and
      the redirect `SetGuardBody` stamps with the filter, the original and the capture routine.
      The context argument is not stored, and the owner is the one knowledge block modelled. The
      establisher stays zero until `PgLocateObject` fills the region in. */
  function CreateObject(protection: Protection, region: RegionType, base: u64, size: u64,
                        filter: u64, original: u64, captureContext: u64): (o: PgObject)
    ensures o.establisher == 0
    ensures o.protection == protection && o.region == region && o.baseAddress == base && o.regionSize == size
    ensures o.callback == GuardBody(filter, original, captureContext)
  {
    PgObject(protection, region, base, size, GuardBody(filter, original, captureContext), 0)
  }

  /** The object `PgCompareFields` creates for an encoded context in a region. */
  function EncryptedObject(blk: PgBlock, region: RegionType, base: u64, size: u64): PgObject {
    CreateObject(Encrypted, region, base, size, blk.clearCallback, 0, blk.captureContext)
  }

  /** The entry setter `PgCompareFields` calls for the context at `ctx`: `PgSetNewEntry` with the
      unwound key, or, with BTC on, `PgSetNewEntryWithBtc` as written. None when an access faults.
      Every call that does not fault takes a reference. */
  function EntryPatch(p: Params, blk: PgBlock, mem: seq<byte>, ctx: nat, ctxSize: u64, key: word, jump: seq<byte>)
    : (r: Option<Patched>)
    requires p.Valid() && blk.WellFormed()
    ensures r.Some? ==> |r.value.mem| == |mem| && r.value.referenceCount == blk.referenceCount + 1
  {
    if !blk.btcEnable then PatchEntry(p, blk, mem, ctx, key, jump)
    else PatchWithBtcAsWritten(p, blk, mem, ctx, ctxSize, jump)
  }

  /** The same call with the corrected `PgSetNewEntryWithBtc`: with BTC on, a search that finds no
      prologue patches nothing and the jump lands on the prologue's first byte. */
  function EntryPatchIntended(p: Params, blk: PgBlock, mem: seq<byte>, ctx: nat, ctxSize: u64, key: word,
                              jump: seq<byte>): (r: Option<Patched>)
    requires p.Valid() && blk.WellFormed()
    ensures r.Some? ==> |r.value.mem| == |mem| && r.value.referenceCount == blk.referenceCount + 1
    ensures blk.btcEnable && r.Some? ==>
      var m := Search(blk, mem, ctx + blk.sizeCmpAppendDllSection, CompareCount(ctxSize, blk.sizeCmpAppendDllSection));
      m.Some? && m.value.align < 8
  {
    if !blk.btcEnable then PatchEntry(p, blk, mem, ctx, key, jump)
    else PatchWithBtc(p, blk, mem, ctx, ctxSize, jump)
  }

  /** The setter call is `PgSetNewEntry` without BTC and the setter as written with it; the
      corrected call differs from it only with BTC on, after a hit at alignment 0 (the jump at
      byte 8 of the window as written, at byte 0 as intended) or after a search that found
      nothing (a patch as written, none as intended). */
  lemma EntryPatchIsSetter(p: Params, blk: PgBlock, mem: seq<byte>, ctx: nat, ctxSize: u64, key: word,
                           jump: seq<byte>)
    requires p.Valid() && blk.WellFormed()
    ensures !blk.btcEnable ==> EntryPatch(p, blk, mem, ctx, ctxSize, key, jump) == PatchEntry(p, blk, mem, ctx, key, jump)
    ensures blk.btcEnable ==>
      EntryPatch(p, blk, mem, ctx, ctxSize, key, jump) == PatchWithBtcAsWritten(p, blk, mem, ctx, ctxSize, jump)
    ensures var m := Search(blk, mem, ctx + blk.sizeCmpAppendDllSection,
                            CompareCount(ctxSize, blk.sizeCmpAppendDllSection));
      !blk.btcEnable || m.None? || 0 < m.value.align < 8 ==>
        EntryPatch(p, blk, mem, ctx, ctxSize, key, jump) == EntryPatchIntended(p, blk, mem, ctx, ctxSize, key, jump)
    ensures var m := Search(blk, mem, ctx + blk.sizeCmpAppendDllSection,
                            CompareCount(ctxSize, blk.sizeCmpAppendDllSection));
      blk.btcEnable && m.Some? && m.value.align == 8 ==>
        EntryPatchIntended(p, blk, mem, ctx, ctxSize, key, jump).None?
  {
    hide Probe, BtcPatchAt, PatchEntry, Search;
    if blk.btcEnable {
      var s := blk.sizeCmpAppendDllSection;
      var m := Search(blk, mem, ctx + s, CompareCount(ctxSize, s));
      if m.Some? {
        AsWrittenAgreesOffAlignment(p, blk, mem, ctx, ctxSize, jump, m.value);
        PatchWithBtcAtStop(p, blk, mem, ctx, ctxSize, jump, m.value);
      }
    }
  }

  /** `(ULONG_PTR)EndAddress - (ULONG_PTR)Context`: the size handed to the BTC setter. */
  function ContextSize(end: u64, ctx: u64): u64 {
    (end - ctx) % TWO_64
  }

  /** What one call of `PgCompareFields` leaves behind: memory, the reference count, and the
      object it created, if any. */
  datatype Compared = Compared(mem: seq<byte>, referenceCount: nat, created: Option<PgObject>)

  /** `PgCompareFields(PgBlock, Type, BaseAddress, RegionSize)`. None when an access faults. */
  function CompareFields(p: Params, blk: PgBlock, mem: seq<byte>, region: RegionType, base: u64, size: u64,
                         jump: seq<byte>): (r: Option<Compared>)
    requires p.Valid() && blk.WellFormed()
    ensures r.Some? ==> |r.value.mem| == |mem|
    ensures r.Some? && r.value.created.None? ==> r.value.mem == mem && r.value.referenceCount == blk.referenceCount
    ensures r.Some? && r.value.created.Some? ==> r.value.created.value == EncryptedObject(blk, region, base, size)
    ensures r.Some? && r.value.created.Some? ==> r.value.referenceCount == blk.referenceCount + 1
  {
    var end := EndAddress(base, size);
    var o :- ScanFrom(p, blk, mem, base, end);
    if o.Stopped? && o.hit.EncryptedContext? then
      var ctx := ContextOf(p, o.at);
      var e :- EntryPatch(p, blk, mem, ctx, ContextSize(end, ctx), SetterKey(p, o.hit.key), jump);
      Some(Compared(e.mem, e.referenceCount, Some(EncryptedObject(blk, region, base, size))))
    else
      Some(Compared(mem, blk.referenceCount, None))
  }

  /** The first position, in byte steps from the base, at which the loop body breaks is `x`. */
  ghost predicate FirstEventAt(p: Params, blk: PgBlock, mem: seq<byte>, base: u64, size: u64, x: nat)
    requires blk.WellFormed()
  {
    && base <= x < Reach(base, EndAddress(base, size))
    && Classify(p, blk, mem, x).Some? && Classify(p, blk, mem, x) != Some(Miss)
    && AllMiss(p, blk, mem, base, x)
  }

  /** When the first event is an encoded context, exactly one object is created, and the setter
      runs on the context at `TargetPc - PG_FIRST_FIELD_OFFSET` with the key the walk unwinds
      to; no later position is looked at. */
  lemma CompareFieldsPatchesFirstMatch(p: Params, blk: PgBlock, mem: seq<byte>, region: RegionType, base: u64,
                                       size: u64, jump: seq<byte>, x: nat)
    requires p.Valid() && blk.WellFormed()
    requires FirstEventAt(p, blk, mem, base, size, x)
    requires Classify(p, blk, mem, x).value.EncryptedContext?
    ensures var ctx := ContextOf(p, x);
      var e := EntryPatch(p, blk, mem, ctx, ContextSize(EndAddress(base, size), ctx),
                          SetterKey(p, Classify(p, blk, mem, x).value.key), jump);
      CompareFields(p, blk, mem, region, base, size, jump)
        == if e.None? then None
           else Some(Compared(e.value.mem, e.value.referenceCount, Some(EncryptedObject(blk, region, base, size))))
  {
    hide Classify, EntryPatch;
    ScanStopsAtFirstEvent(p, blk, mem, base, EndAddress(base, size), x, Classify(p, blk, mem, x).value);
  }

  /** When the first event is a declassified context or the reference block itself, the sweep
      stops there: nothing is created and nothing changes, even if an encoded context follows. */
  lemma CompareFieldsStopsWithoutObject(p: Params, blk: PgBlock, mem: seq<byte>, region: RegionType, base: u64,
                                        size: u64, jump: seq<byte>, x: nat)
    requires p.Valid() && blk.WellFormed()
    requires FirstEventAt(p, blk, mem, base, size, x)
    requires !Classify(p, blk, mem, x).value.EncryptedContext?
    ensures CompareFields(p, blk, mem, region, base, size, jump) == Some(Compared(mem, blk.referenceCount, None))
  {
    hide Classify, EntryPatch;
    ScanStopsAtFirstEvent(p, blk, mem, base, EndAddress(base, size), x, Classify(p, blk, mem, x).value);
  }

  /** A region where every window misses changes nothing and creates nothing. */
  lemma CompareFieldsMissesEverywhere(p: Params, blk: PgBlock, mem: seq<byte>, region: RegionType, base: u64,
                                      size: u64, jump: seq<byte>)
    requires p.Valid() && blk.WellFormed()
    requires AllMiss(p, blk, mem, base, Reach(base, EndAddress(base, size)))
    ensures CompareFields(p, blk, mem, region, base, size, jump) == Some(Compared(mem, blk.referenceCount, None))
  {
    hide Classify, EntryPatch;
    var end := EndAddress(base, size);
    ScanFindsFirstEvent(p, blk, mem, base, end);
  }

  /** An object is created only for an encoded context that is the first event of the sweep. */
  lemma CompareFieldsObjectOnlyAtFirstMatch(p: Params, blk: PgBlock, mem: seq<byte>, region: RegionType,
                                            base: u64, size: u64, jump: seq<byte>)
    requires p.Valid() && blk.WellFormed()
    requires CompareFields(p, blk, mem, region, base, size, jump).Some?
    requires CompareFields(p, blk, mem, region, base, size, jump).value.created.Some?
    ensures exists x: nat {:trigger Classify(p, blk, mem, x)} ::
      FirstEventAt(p, blk, mem, base, size, x) && Classify(p, blk, mem, x).value.EncryptedContext?
  {
    hide Classify, EntryPatch;
    var end := EndAddress(base, size);
    ScanFindsFirstEvent(p, blk, mem, base, end);
    var o := ScanFrom(p, blk, mem, base, end);
    assert o.Some? && o.value.Stopped? && o.value.hit.EncryptedContext?;
    var x := o.value.at;
    assert FirstEventAt(p, blk, mem, base, size, x);
  }

  /** The entry setter as `PgCompareFields` calls it, with the loops of the setters. */
  method CallSetter(p: Params, blk: PgBlock, mem: seq<byte>, ctx: nat, ctxSize: u64, key: word, jump: seq<byte>)
    returns (r: Option<Patched>)
    requires p.Valid() && blk.WellFormed()
    ensures r == EntryPatch(p, blk, mem, ctx, ctxSize, key, jump)
  {
    hide Probe, BtcPatchAt, PatchEntry, Search;
    if !blk.btcEnable {
      r := SetNewEntry(p, blk, mem, ctx, key, jump);
    } else {
      r := SetNewEntryWithBtcAsWritten(p, blk, mem, ctx, ctxSize, jump);
    }
  }

  /** `PgCompareFields` with its sweep loop, its unwinding loop and the setters' loops. */
  method CompareFieldsRun(p: Params, blk: PgBlock, mem: seq<byte>, region: RegionType, base: u64, size: u64,
                          jump: seq<byte>) returns (r: Option<Compared>)
    requires p.Valid() && blk.WellFormed()
    ensures r == CompareFields(p, blk, mem, region, base, size, jump)
  {
    hide Classify, EntryPatch, ScanFrom, SetterKey;
    var end := EndAddress(base, size);
    var o := SweepWindow(p, blk, mem, base, end);
    if o.None? {
      return None;
    }
    if !(o.value.Stopped? && o.value.hit.EncryptedContext?) {
      return Some(Compared(mem, blk.referenceCount, None));
    }
    var ctx := ContextOf(p, o.value.at);
    var key := UnwindKey(p, o.value.hit.key);
    var e := CallSetter(p, blk, mem, ctx, ContextSize(end, ctx), key, jump);
    if e.None? {
      return None;
    }
    r := Some(Compared(e.value.mem, e.value.referenceCount, Some(EncryptedObject(blk, region, base, size))));
  }
}
