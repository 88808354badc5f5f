/** `PgSetNewEntry`: the rotating-XOR key schedule of guardians without the BTC mixing step,
    and the patch that decodes the guardian's entry, overwrites it with a jump and re-encodes
    it in place. */
module Cipher {
  import opened Bits
  import opened Outcomes
  import opened Block
  import opened Patch

  /** The key after the prefix loop: rotated left by 0, 1, ..., n - 1 in turn. */
  function PrefixKey(key: word, n: nat): word
    decreases n
  {
    if n == 0 then key else Rol(PrefixKey(key, n - 1), n - 1)
  }

  /** The key that word `w` of a window starting at field index `fi` is XORed with: the decode
      loop rotates left by `fi + w` (an unsigned 32-bit sum) before using it. */
  function EntryKey(key: word, fi: u32, w: nat): word
    decreases w
  {
    var prev := if w == 0 then PrefixKey(key, fi) else EntryKey(key, fi, w - 1);
    Rol(prev, (fi + w) % TWO_32)
  }

  function EntryKeys(key: word, fi: u32, count: nat): (ks: seq<word>)
    ensures |ks| == count
  {
    seq(count, w requires 0 <= w => EntryKey(key, fi, w))
  }

  /** The key the re-encode loop uses for word `w`, walking down from `last` at word
      `count - 1` by rotating right by `fi + w + 1`. */
  function BackKey(last: word, fi: u32, count: nat, w: nat): word
    requires w < count
    decreases count - w
  {
    if w == count - 1 then last else Ror(BackKey(last, fi, count, w + 1), (fi + w + 1) % TWO_32)
  }

  function BackKeys(last: word, fi: u32, count: nat): (ks: seq<word>)
    ensures |ks| == count
  {
    seq(count, w requires 0 <= w < count => BackKey(last, fi, count, w))
  }

  /** A key sequence laid out as the bytes of consecutive little-endian words. */
  function KeystreamBytes(ks: seq<word>): (r: seq<byte>)
    ensures |r| == 8 * |ks|
  {
    if ks == [] then [] else WordBytes(ks[0]) + KeystreamBytes(ks[1..])
  }

  /** `(x - y) / 8` on unsigned 32-bit values: the field index of byte offset `x` when the
      encoded part of a context starts at `y`. */
  function FieldIndexOf(x: u32, y: u32): u32 {
    ((x - y) % TWO_32) / 8
  }

  /** `x & ~7`. */
  function AlignDown8(x: nat): (r: nat)
    ensures r <= x && r % 8 == 0 && x - r < 8
  {
    x - x % 8
  }

  /** The key stream of a window of `count` words at field index `fi`, as bytes. */
  function Keystream(key: word, fi: u32, count: nat): (r: seq<byte>)
    ensures |r| == 8 * count
  {
    KeystreamBytes(EntryKeys(key, fi, count))
  }

  /** What the decode loops of `PgSetNewEntry` produce from an encoded window. */
  function Decoded(window: seq<byte>, key: word, fi: u32, count: nat): (r: seq<byte>)
    requires |window| == 8 * count
    ensures |r| == |window|
  {
    XorBytes(window, Keystream(key, fi, count))
  }

  /** Byte `8 * w + j` of a key stream is byte `j` of key `w`. */
  lemma {:induction false} KeystreamByte(ks: seq<word>, w: nat, j: nat)
    requires w < |ks| && j < 8
    ensures KeystreamBytes(ks)[8 * w + j] == WordBytes(ks[w])[j]
    decreases w
  {
    if w > 0 {
      KeystreamByte(ks[1..], w - 1, j);
      assert 8 * w + j == 8 + (8 * (w - 1) + j);
    }
  }

  /** Bytes `8 * w .. 8 * w + 7` of the key stream `ksb` are the bytes of `k`. */
  predicate KeyAt(ksb: seq<byte>, w: nat, k: word) {
    8 * w + 8 <= |ksb| && forall j :: 0 <= j < 8 ==> ksb[8 * w + j] == WordBytes(k)[j]
  }

  lemma KeystreamWord(ks: seq<word>, w: nat)
    requires w < |ks|
    ensures KeyAt(KeystreamBytes(ks), w, ks[w])
  {
    forall j | 0 <= j < 8
      ensures KeystreamBytes(ks)[8 * w + j] == WordBytes(ks[w])[j]
    {
      KeystreamByte(ks, w, j);
    }
  }

  /** Word `w` of `window`, XORed with `k`. */
  function XorWord(window: seq<byte>, w: nat, k: word): (r: seq<byte>)
    requires 8 * w + 8 <= |window|
    ensures |r| == 8
    ensures forall j {:trigger r[j]} :: 0 <= j < 8 ==> r[j] == window[8 * w + j] ^ WordBytes(k)[j]
  {
    XorBytes(window[8 * w..8 * w + 8], WordBytes(k))
  }

  /** Appending the next decoded word extends a decoded prefix by one word. */
  lemma ExtendDecodedPrefix(plain: seq<byte>, window: seq<byte>, ksb: seq<byte>, k: word, w: nat)
    requires |window| == |ksb| && |plain| == 8 * w && KeyAt(ksb, w, k)
    requires forall b {:trigger plain[b]} :: 0 <= b < 8 * w ==> plain[b] == window[b] ^ ksb[b]
    ensures var next := plain + XorWord(window, w, k);
      forall b {:trigger next[b]} :: 0 <= b < 8 * w + 8 ==> next[b] == window[b] ^ ksb[b]
  {
    var next := plain + XorWord(window, w, k);
    forall b | 8 * w <= b < 8 * w + 8
      ensures next[b] == window[b] ^ ksb[b]
    {
      assert ksb[8 * w + (b - 8 * w)] == WordBytes(k)[b - 8 * w];
      assert next[b] == XorWord(window, w, k)[b - 8 * w];
    }
  }

  /** The first decode loop: rotate the key left by 0, 1, ..., `fi - 1` in turn. */
  method PrefixWalk(key: word, fi: u32) returns (k: word)
    ensures k == PrefixKey(key, fi)
  {
    k := key;
    var i: nat := 0;
    while i < fi
      invariant i <= fi
      invariant k == PrefixKey(key, i)
    {
      k := Rol(k, i);
      i := i + 1;
    }
  }

  /** The second decode loop: one key per word, each XORed onto its word. */
  method DecodeWords(window: seq<byte>, key: word, fi: u32, count: nat, prefix: word)
    returns (plain: seq<byte>, last: word)
    requires count > 0 && |window| == 8 * count && prefix == PrefixKey(key, fi)
    ensures plain == Decoded(window, key, fi, count)
    ensures last == EntryKey(key, fi, count - 1)
  {
    hide Rol, WordBytes, XorWord, KeystreamBytes, PrefixKey;
    ghost var keys := EntryKeys(key, fi, count);
    ghost var ksb := KeystreamBytes(keys);
    var k := prefix;
    plain := [];
    var w: nat := 0;
    while w < count
      invariant w <= count
      invariant |plain| == 8 * w
      invariant forall b {:trigger plain[b]} :: 0 <= b < 8 * w ==> plain[b] == window[b] ^ ksb[b]
      invariant w == 0 ==> k == prefix
      invariant w > 0 ==> k == keys[w - 1]
    {
      k := Rol(k, (fi + w) % TWO_32);
      KeystreamWord(keys, w);
      ExtendDecodedPrefix(plain, window, ksb, k, w);
      plain := plain + XorWord(window, w, k);
      w := w + 1;
    }
    XorBytesPointwise(plain, window, ksb);
    last := k;
  }

  /** The two decode loops of `PgSetNewEntry`. Also returns the key left in `LastRorKey`, which
      the re-encode loop starts from. */
  method DecodeWindow(window: seq<byte>, key: word, fi: u32, count: nat)
    returns (plain: seq<byte>, last: word)
    requires count > 0 && |window| == 8 * count
    ensures plain == Decoded(window, key, fi, count)
    ensures last == EntryKey(key, fi, count - 1)
  {
    var prefix := PrefixWalk(key, fi);
    plain, last := DecodeWords(window, key, fi, count, prefix);
  }

  /** The buffer while the re-encode loop runs: words below `w` still plain, the rest encoded
      with the key stream `ksb`. */
  function PartlyEncoded(plain: seq<byte>, ksb: seq<byte>, w: nat): (r: seq<byte>)
    requires |plain| == |ksb| && 8 * w <= |plain|
    ensures |r| == |plain|
  {
    plain[..8 * w] + XorBytes(plain[8 * w..], ksb[8 * w..])
  }

  /** Byte `b` of the partly re-encoded buffer. */
  lemma PartlyEncodedAt(plain: seq<byte>, ksb: seq<byte>, w: nat, b: nat)
    requires |plain| == |ksb| && 8 * w <= |plain| && b < |plain|
    ensures PartlyEncoded(plain, ksb, w)[b] == if b < 8 * w then plain[b] else plain[b] ^ ksb[b]
  {
    if b >= 8 * w {
      assert XorBytes(plain[8 * w..], ksb[8 * w..])[b - 8 * w] == plain[b] ^ ksb[b];
    }
  }

  /** The buffer after re-encoding word `w` in place. */
  function EncodeStep(cipher: seq<byte>, plain: seq<byte>, w: nat, k: word): (r: seq<byte>)
    requires |cipher| == |plain| && 8 * w + 8 <= |plain|
    ensures |r| == |plain|
  {
    cipher[..8 * w] + XorWord(plain, w, k) + cipher[8 * w + 8..]
  }

  lemma EncodeOneByte(plain: seq<byte>, ksb: seq<byte>, k: word, w: nat, b: nat)
    requires |plain| == |ksb| && KeyAt(ksb, w, k) && b < |plain|
    ensures EncodeStep(PartlyEncoded(plain, ksb, w + 1), plain, w, k)[b]
            == PartlyEncoded(plain, ksb, w)[b]
  {
    PartlyEncodedAt(plain, ksb, w, b);
    PartlyEncodedAt(plain, ksb, w + 1, b);
    if 8 * w <= b < 8 * w + 8 {
      assert ksb[8 * w + (b - 8 * w)] == WordBytes(k)[b - 8 * w];
      assert EncodeStep(PartlyEncoded(plain, ksb, w + 1), plain, w, k)[b]
             == XorWord(plain, w, k)[b - 8 * w];
    }
  }

  /** Re-encoding word `w` in place moves the boundary of the encoded part down by one word. */
  lemma EncodeOneWord(plain: seq<byte>, ksb: seq<byte>, k: word, w: nat)
    requires |plain| == |ksb| && KeyAt(ksb, w, k)
    ensures EncodeStep(PartlyEncoded(plain, ksb, w + 1), plain, w, k) == PartlyEncoded(plain, ksb, w)
  {
    forall b | 0 <= b < |plain| {
      EncodeOneByte(plain, ksb, k, w, b);
    }
  }

  /** Nothing re-encoded yet, and everything re-encoded. */
  lemma PartlyEncodedEnds(plain: seq<byte>, ksb: seq<byte>, count: nat)
    requires |plain| == |ksb| == 8 * count
    ensures PartlyEncoded(plain, ksb, count) == plain
    ensures PartlyEncoded(plain, ksb, 0) == XorBytes(plain, ksb)
  {
    assert plain[..8 * count] == plain;
    assert plain[8 * 0..] == plain;
    assert ksb[8 * 0..] == ksb;
  }

  /** The re-encode loop `while (Index--)`: XOR word `w` with the current key, then rotate it
      right by `fi + w`, from the last word down to the first. */
  method EncodeWindow(plain: seq<byte>, last: word, fi: u32, count: nat) returns (cipher: seq<byte>)
    requires count > 0 && |plain| == 8 * count
    ensures cipher == XorBytes(plain, KeystreamBytes(BackKeys(last, fi, count)))
  {
    ghost var keys := BackKeys(last, fi, count);
    ghost var ksb := KeystreamBytes(keys);
    PartlyEncodedEnds(plain, ksb, count);
    BackKeyStep(last, fi, count, count);
    hide XorBytes, PartlyEncoded, KeystreamBytes, EncodeStep, Ror, BackKeys, BackKey;
    cipher := plain;
    var k := last;
    var w: nat := count;
    while w > 0
      invariant w <= count
      invariant cipher == PartlyEncoded(plain, ksb, w)
      invariant w > 0 ==> k == keys[w - 1]
    {
      w := w - 1;
      KeystreamWord(keys, w);
      EncodeOneWord(plain, ksb, k, w);
      cipher := EncodeStep(cipher, plain, w, k);
      if w > 0 {
        BackKeyStep(last, fi, count, w);
        k := Ror(k, (fi + w) % TWO_32);
      }
    }
  }

  /** The walk down starts from `last`, and key `w - 1` is key `w` rotated right by
      `FieldIndex + w`. */
  lemma BackKeyStep(last: word, fi: u32, count: nat, w: nat)
    requires 0 < w <= count
    ensures BackKeys(last, fi, count)[count - 1] == last
    ensures w < count ==> BackKeys(last, fi, count)[w - 1] == Ror(BackKeys(last, fi, count)[w], (fi + w) % TWO_32)
  {
    hide Ror;
    assert (w - 1) + 1 == w;
  }

  /** Walking down from the decode loop's last key with the inverse rotations meets every key
      the decode loop used: the two loops run the same key stream. */
  lemma {:induction false} BackKeysRetraceEntryKeys(key: word, fi: u32, count: nat, w: nat)
    requires w < count
    ensures BackKey(EntryKey(key, fi, count - 1), fi, count, w) == EntryKey(key, fi, w)
    decreases count - w
  {
    if w < count - 1 {
      BackKeysRetraceEntryKeys(key, fi, count, w + 1);
      RorUndoesRol(EntryKey(key, fi, w), (fi + w + 1) % TWO_32);
    }
  }

  lemma SameKeystream(key: word, fi: u32, count: nat)
    requires count > 0
    ensures BackKeys(EntryKey(key, fi, count - 1), fi, count) == EntryKeys(key, fi, count)
  {
    forall w | 0 <= w < count
      ensures BackKey(EntryKey(key, fi, count - 1), fi, count, w) == EntryKey(key, fi, w)
    {
      BackKeysRetraceEntryKeys(key, fi, count, w);
    }
  }

  /** Sum of the rotate amounts `i mod 64` for `i` in `[0, n)`. */
  function RotSum(n: nat): nat {
    if n == 0 then 0 else RotSum(n - 1) + RotCount(n - 1)
  }

  /** Closed form of the key schedule: the key for word `w` is the original key rotated left by
      `0 + 1 + ... + (fi + w)`, each term reduced modulo 64 as the macro reduces it. */
  lemma {:induction false} PrefixKeyClosedForm(key: word, n: nat)
    ensures PrefixKey(key, n) == RotateLeft(key, RotSum(n))
  {
    if n > 0 {
      PrefixKeyClosedForm(key, n - 1);
      RotateLeftAdds(key, RotSum(n - 1), RotCount(n - 1));
    }
  }

  lemma {:induction false} EntryKeyClosedForm(key: word, fi: u32, w: nat)
    ensures EntryKey(key, fi, w) == RotateLeft(key, RotSum(fi + w + 1))
    decreases w
  {
    if w == 0 {
      PrefixKeyClosedForm(key, fi);
    } else {
      EntryKeyClosedForm(key, fi, w - 1);
    }
    RotCountIgnoresWrap32(fi + w);
    RotateLeftAdds(key, RotSum(fi + w), RotCount(fi + w));
  }

  /** The unaligned `*(PULONG)(buffer + i)`. */
  function DwordAt(buf: seq<byte>, i: nat): u32
    requires i + 4 <= |buf|
  {
    U32Of(buf[i..i + 4])
  }

  /** Where the guardian's entry lies: the dword at byte `OffsetEntryPoint & 7` of the decoded
      window at `OffsetEntryPoint & ~7`. None when that window lies outside `mem`. */
  function EntryRva(p: Params, blk: PgBlock, mem: seq<byte>, ctx: nat, key: word): (r: Option<u32>)
    requires p.Valid()
  {
    var off := blk.offsetEntryPoint;
    var window :- Read(mem, ctx + AlignDown8(off), p.WindowSize());
    var plain := Decoded(window, key, FieldIndexOf(off, blk.sizeCmpAppendDllSection), p.compareFieldsCount);
    Some(DwordAt(plain, off % 8))
  }

  /** The second half of `PgSetNewEntry`, once the entry's RVA is known: decode the window at
      that RVA, write `jump` (the bytes `DetourLockedBuildJumpCode` produces for the object's
      callback) at the RVA's byte position, re-encode and copy back, and take a reference.
      None when the window lies outside `mem` or the jump does not fit in it. */
  function PatchAt(p: Params, blk: PgBlock, mem: seq<byte>, ctx: nat, key: word, jump: seq<byte>, rva: u32)
    : (r: Option<Patched>)
    requires p.Valid()
    ensures r.Some? <==> ctx + AlignDown8(rva) + p.WindowSize() <= |mem| && rva % 8 + |jump| <= p.WindowSize()
    ensures r.Some? ==> r.value.referenceCount == blk.referenceCount + 1 && |r.value.mem| == |mem|
  {
    var at := ctx + AlignDown8(rva);
    if at + p.WindowSize() > |mem| || rva % 8 + |jump| > p.WindowSize() then None
    else
      var fi := FieldIndexOf(rva, blk.sizeCmpAppendDllSection);
      Some(Patched(WriteBack(mem, at, rva % 8, jump, Keystream(key, fi, p.compareFieldsCount)),
                   blk.referenceCount + 1))
  }

  /** What `PgSetNewEntry(PgBlock, Object, Context, RorKey)` does to memory: find the entry's
      RVA in the window holding `OffsetEntryPoint`, then patch the entry. */
  function PatchEntry(p: Params, blk: PgBlock, mem: seq<byte>, ctx: nat, key: word, jump: seq<byte>)
    : (r: Option<Patched>)
    requires p.Valid()
    ensures EntryRva(p, blk, mem, ctx, key).None? ==> r.None?
  {
    var rva :- EntryRva(p, blk, mem, ctx, key);
    PatchAt(p, blk, mem, ctx, key, jump, rva)
  }

  /** A successful patch rewrites the entry's window so that the guardian finds the jump there,
      changes no byte of the window outside the jump, and changes no byte outside the window. */
  lemma PatchAtRewritesEntry(p: Params, blk: PgBlock, mem: seq<byte>, ctx: nat, key: word,
                             jump: seq<byte>, rva: u32)
    requires p.Valid()
    ensures var r := PatchAt(p, blk, mem, ctx, key, jump, rva);
      r.Some? ==>
        Rewrites(mem, r.value.mem, ctx + AlignDown8(rva), rva % 8, jump,
                 Keystream(key, FieldIndexOf(rva, blk.sizeCmpAppendDllSection), p.compareFieldsCount))
  {
    hide Keystream, Rewrites, Rol, Ror;
    var at := ctx + AlignDown8(rva);
    if at + p.WindowSize() <= |mem| && rva % 8 + |jump| <= p.WindowSize() {
      WriteBackRewrites(mem, at, rva % 8, jump,
                        Keystream(key, FieldIndexOf(rva, blk.sizeCmpAppendDllSection), p.compareFieldsCount));
    }
  }

  /** The same for the whole of `PgSetNewEntry`: whenever it patches, it patches the entry whose
      RVA the first window holds. */
  lemma PatchEntryRewritesEntry(p: Params, blk: PgBlock, mem: seq<byte>, ctx: nat, key: word, jump: seq<byte>)
    requires p.Valid()
    ensures var r := PatchEntry(p, blk, mem, ctx, key, jump);
      r.Some? ==>
        var rva := EntryRva(p, blk, mem, ctx, key).value;
        Rewrites(mem, r.value.mem, ctx + AlignDown8(rva), rva % 8, jump,
                 Keystream(key, FieldIndexOf(rva, blk.sizeCmpAppendDllSection), p.compareFieldsCount))
  {
    var e := EntryRva(p, blk, mem, ctx, key);
    if e.Some? {
      PatchAtRewritesEntry(p, blk, mem, ctx, key, jump, e.value);
    }
  }

  /** Decode, write the jump, re-encode: the middle of `PgSetNewEntry` on one window. */
  method PatchWindow(window: seq<byte>, key: word, fi: u32, count: nat, pos: nat, jump: seq<byte>)
    returns (cipher: seq<byte>)
    requires count > 0 && |window| == 8 * count && pos + |jump| <= 8 * count
    ensures cipher == Reencode(window, pos, jump, Keystream(key, fi, count))
  {
    var plain, last := DecodeWindow(window, key, fi, count);
    cipher := EncodeWindow(Splice(plain, pos, jump), last, fi, count);
    SameKeystream(key, fi, count);
  }

  /** The first half of `PgSetNewEntry`: decode the window holding `OffsetEntryPoint` and read
      the entry's RVA out of it. */
  method FindEntry(p: Params, blk: PgBlock, mem: seq<byte>, ctx: nat, key: word) returns (r: Option<u32>)
    requires p.Valid()
    ensures r == EntryRva(p, blk, mem, ctx, key)
  {
    hide Decoded, DwordAt;
    var off := blk.offsetEntryPoint;
    var first := Read(mem, ctx + AlignDown8(off), p.WindowSize());
    if first.None? {
      return None;
    }
    var plain, _ := DecodeWindow(first.value, key, FieldIndexOf(off, blk.sizeCmpAppendDllSection),
                                 p.compareFieldsCount);
    r := Some(DwordAt(plain, off % 8));
  }

  /** The second half of `PgSetNewEntry`: patch the entry at a known RVA. */
  method PatchEntryAt(p: Params, blk: PgBlock, mem: seq<byte>, ctx: nat, key: word, jump: seq<byte>, rva: u32)
    returns (r: Option<Patched>)
    requires p.Valid()
    ensures r == PatchAt(p, blk, mem, ctx, key, jump, rva)
  {
    hide Keystream, Reencode;
    var n := p.WindowSize();
    var at := ctx + AlignDown8(rva);
    var window := Read(mem, at, n);
    if window.None? || rva % 8 + |jump| > n {
      return None;
    }
    var cipher := PatchWindow(window.value, key, FieldIndexOf(rva, blk.sizeCmpAppendDllSection),
                              p.compareFieldsCount, rva % 8, jump);
    r := Some(Patched(Write(mem, at, cipher), blk.referenceCount + 1));
  }

  /** `PgSetNewEntry`. */
  method SetNewEntry(p: Params, blk: PgBlock, mem: seq<byte>, ctx: nat, key: word, jump: seq<byte>)
    returns (r: Option<Patched>)
    requires p.Valid()
    ensures r == PatchEntry(p, blk, mem, ctx, key, jump)
  {
    var rva := FindEntry(p, blk, mem, ctx, key);
    if rva.None? {
      return None;
    }
    r := PatchEntryAt(p, blk, mem, ctx, key, jump, rva.value);
  }
}
