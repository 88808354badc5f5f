/** The patch both entry setters apply to an encoded window of a context: copy the window out,
    decode it with a key stream, write a jump into it, encode it with the same key stream and
    copy it back. Memory is a byte sequence addressed from 0; an access outside it is the fault
    the driver would take, and is reported as None. */
module Patch {
  import opened Bits
  import opened Outcomes

  /** Replaces `|code|` bytes of `buf` at `at`. */
  function Splice(buf: seq<byte>, at: nat, code: seq<byte>): (r: seq<byte>)
    requires at + |code| <= |buf|
    ensures |r| == |buf|
    ensures forall b {:trigger r[b]} :: 0 <= b < |r| && !(at <= b < at + |code|) ==> r[b] == buf[b]
    ensures forall b {:trigger r[b]} :: at <= b < at + |code| ==> r[b] == code[b - at]
  {
    seq(|buf|, b requires 0 <= b < |buf| => if at <= b < at + |code| then code[b - at] else buf[b])
  }

  /** Bytes `[a, a + n)` of `mem`. */
  function Window(mem: seq<byte>, a: nat, n: nat): (r: seq<byte>)
    requires a + n <= |mem|
    ensures |r| == n
    ensures forall b {:trigger r[b]} :: 0 <= b < n ==> r[b] == mem[a + b]
  {
    seq(n, b requires 0 <= b < n => mem[a + b])
  }

  /** Bytes `[a, a + n)` of `mem` (an `RtlCopyMemory` out of memory), or None when they lie
      outside it. */
  function Read(mem: seq<byte>, a: nat, n: nat): (r: Option<seq<byte>>)
    ensures r.Some? <==> a + n <= |mem|
    ensures r.Some? ==> |r.value| == n
    ensures r.Some? ==> forall b {:trigger r.value[b]} :: 0 <= b < n ==> r.value[b] == mem[a + b]
  {
    if a + n <= |mem| then Some(Window(mem, a, n)) else None
  }

  /** `mem` with `bytes` copied to `a`. */
  function Write(mem: seq<byte>, a: nat, bytes: seq<byte>): (r: seq<byte>)
    requires a + |bytes| <= |mem|
    ensures |r| == |mem|
    ensures forall x {:trigger r[x]} :: 0 <= x < |mem| && !(a <= x < a + |bytes|) ==> r[x] == mem[x]
    ensures forall x {:trigger r[x]} :: a <= x < a + |bytes| ==> r[x] == bytes[x - a]
  {
    seq(|mem|, x requires 0 <= x < |mem| => if a <= x < a + |bytes| then bytes[x - a] else mem[x])
  }

  /** A buffer that agrees bytewise with `a ^ ks` is their XOR. */
  lemma XorBytesPointwise(r: seq<byte>, a: seq<byte>, ks: seq<byte>)
    requires |r| == |a| == |ks|
    requires forall b {:trigger r[b]} :: 0 <= b < |r| ==> r[b] == a[b] ^ ks[b]
    ensures r == XorBytes(a, ks)
  {
  }

  /** The result of a patch: the rewritten memory and the incremented `PgBlock->ReferenceCount`. */
  datatype Patched = Patched(mem: seq<byte>, referenceCount: nat)

  /** The window decoded with the key stream `ks`, with `jump` written at byte `pos`, and
      encoded again with the same key stream. */
  function Reencode(window: seq<byte>, pos: nat, jump: seq<byte>, ks: seq<byte>): (r: seq<byte>)
    requires |window| == |ks| && pos + |jump| <= |ks|
    ensures |r| == |window|
  {
    XorBytes(Splice(XorBytes(window, ks), pos, jump), ks)
  }

  /** The window of `|ks|` bytes at `at` re-encoded with the jump and copied back over itself. */
  function WriteBack(mem: seq<byte>, at: nat, pos: nat, jump: seq<byte>, ks: seq<byte>): (r: seq<byte>)
    requires at + |ks| <= |mem| && pos + |jump| <= |ks|
    ensures |r| == |mem|
  {
    Write(mem, at, Reencode(Window(mem, at, |ks|), pos, jump, ks))
  }

  /** `mem'` is `mem` with the encoded window of `|ks|` bytes at `at` rewritten so that, decoded
      with `ks`, it reads as before except for `jump` at byte `pos`; no other byte of memory
      differs, and inside the window only the bytes under the jump do. */
  ghost predicate Rewrites(mem: seq<byte>, mem': seq<byte>, at: nat, pos: nat, jump: seq<byte>, ks: seq<byte>)
  {
    var n := |ks|;
    && at + n <= |mem| && pos + |jump| <= n
    && |mem'| == |mem|
    // nothing outside the window changes
    && (forall x {:trigger mem'[x]} :: 0 <= x < |mem| && !(at <= x < at + n) ==> mem'[x] == mem[x])
    // inside the window only the bytes under the jump change
    && (forall x {:trigger mem'[x]} :: at <= x < at + n && !(at + pos <= x < at + pos + |jump|) ==> mem'[x] == mem[x])
    // decoding the window finds the jump
    && XorBytes(Window(mem', at, n), ks) == Splice(XorBytes(Window(mem, at, n), ks), pos, jump)
  }

  /** Inside the window, a byte the jump does not cover is XORed with the same key byte twice. */
  lemma WriteBackKeepsUncovered(mem: seq<byte>, at: nat, pos: nat, jump: seq<byte>, ks: seq<byte>)
    requires at + |ks| <= |mem| && pos + |jump| <= |ks|
    ensures var mem' := WriteBack(mem, at, pos, jump, ks);
      forall x {:trigger mem'[x]} :: at <= x < at + |ks| && !(at + pos <= x < at + pos + |jump|) ==>
        mem'[x] == mem[x]
  {
    var n := |ks|;
    var plain := XorBytes(Window(mem, at, n), ks);
    var cipher := Reencode(Window(mem, at, n), pos, jump, ks);
    forall x | at <= x < at + n && !(at + pos <= x < at + pos + |jump|)
      ensures Write(mem, at, cipher)[x] == mem[x]
    {
      var i := x - at;
      assert Write(mem, at, cipher)[at + i] == cipher[i];
      assert Splice(plain, pos, jump)[i] == plain[i];
    }
  }

  /** Decoding the written-back window gives the patched plain text. */
  lemma WriteBackDecodes(mem: seq<byte>, at: nat, pos: nat, jump: seq<byte>, ks: seq<byte>)
    requires at + |ks| <= |mem| && pos + |jump| <= |ks|
    ensures XorBytes(Window(WriteBack(mem, at, pos, jump, ks), at, |ks|), ks)
            == Splice(XorBytes(Window(mem, at, |ks|), ks), pos, jump)
  {
    var cipher := Reencode(Window(mem, at, |ks|), pos, jump, ks);
    assert Window(Write(mem, at, cipher), at, |ks|) == cipher;
    XorBytesTwice(Splice(XorBytes(Window(mem, at, |ks|), ks), pos, jump), ks);
  }

  /** Writing back the re-encoded window rewrites exactly the jump's bytes of the decoded window. */
  lemma WriteBackRewrites(mem: seq<byte>, at: nat, pos: nat, jump: seq<byte>, ks: seq<byte>)
    requires at + |ks| <= |mem| && pos + |jump| <= |ks|
    ensures Rewrites(mem, WriteBack(mem, at, pos, jump, ks), at, pos, jump, ks)
  {
    WriteBackKeepsUncovered(mem, at, pos, jump, ks);
    WriteBackDecodes(mem, at, pos, jump, ks);
  }

  /** A rewrite leaves the encoded bytes of the window before the jump as they were. */
  lemma RewritesKeepsBefore(mem: seq<byte>, mem': seq<byte>, at: nat, pos: nat, jump: seq<byte>, ks: seq<byte>)
    requires Rewrites(mem, mem', at, pos, jump, ks)
    ensures Window(mem', at, pos) == Window(mem, at, pos)
  {
    forall x | at <= x < at + pos
      ensures mem'[x] == mem[x]
    {
    }
  }
}
