/** The eight-byte routine the knowledge block carries as `Btc64`, read as x86-64 machine code.
    Only the three instruction forms it is made of are decoded: `BTC r/m64, r64` and
    `MOV r64, r/m64` with a register operand (REX.W prefix, ModRM mod = 11), and `RET`. */
module BtcBlob {
  import opened Bits
  import opened Outcomes

  /** The routine as the source stores it: one 64-bit constant, laid out little-endian. */
  const BLOB: word := 0xc3c18b48d1bb0f48

  /** General registers in x86 encoding order (ModRM reg/rm field 0..7, no REX.R/REX.B). */
  datatype Reg = Rax | Rcx | Rdx | Rbx | Rsp | Rbp | Rsi | Rdi

  function RegOf(n: byte): (r: Reg)
    requires n < 8
    ensures RegIndex(r) == n as nat
  {
    if n == 0 then Rax else if n == 1 then Rcx else if n == 2 then Rdx else if n == 3 then Rbx
    else if n == 4 then Rsp else if n == 5 then Rbp else if n == 6 then Rsi else Rdi
  }

  function RegIndex(r: Reg): nat {
    match r
    case Rax => 0 case Rcx => 1 case Rdx => 2 case Rbx => 3
    case Rsp => 4 case Rbp => 5 case Rsi => 6 case Rdi => 7
  }

  datatype Insn =
    | BtcReg(dst: Reg, bit: Reg)   // BTC dst, bit
    | MovReg(dst: Reg, src: Reg)   // MOV dst, src
    | Ret

  const REX_W: byte := 0x48

  /** ModRM with mod = 11 names two registers: `reg` in bits 5..3, `rm` in bits 2..0. */
  predicate RegisterForm(modrm: byte) {
    modrm & 0xC0 == 0xC0
  }

  function ModRmReg(modrm: byte): Reg {
    RegOf((modrm >> 3) & 7)
  }

  function ModRmRm(modrm: byte): Reg {
    RegOf(modrm & 7)
  }

  /** The instruction at offset `i` and its length, or None for any other encoding or one that
      runs past the end of `code`. */
  function DecodeAt(code: seq<byte>, i: nat): (r: Option<(Insn, nat)>)
    ensures r.Some? ==> 0 < r.value.1 && i + r.value.1 <= |code|
    ensures r.Some? && r.value.0.Ret? ==> code[i] == 0xC3
  {
    if i >= |code| then None
    else if code[i] == 0xC3 then Some((Ret, 1))
    else if code[i] == REX_W && i + 4 <= |code| && code[i + 1] == 0x0F && code[i + 2] == 0xBB
      && RegisterForm(code[i + 3])
    then
      // BTC r/m64, r64: the destination is the r/m operand, the bit offset the reg operand
      Some((BtcReg(ModRmRm(code[i + 3]), ModRmReg(code[i + 3])), 4))
    else if code[i] == REX_W && i + 3 <= |code| && code[i + 1] == 0x8B && RegisterForm(code[i + 2])
    then
      // MOV r64, r/m64: the destination is the reg operand
      Some((MovReg(ModRmReg(code[i + 2]), ModRmRm(code[i + 2])), 3))
    else None
  }

  /** The instructions from offset `i` up to and including the first `RET`. */
  function Disassemble(code: seq<byte>, i: nat): (r: Option<seq<Insn>>)
    ensures r.Some? ==> |r.value| > 0 && r.value[|r.value| - 1] == Ret
    ensures r.Some? ==> forall k :: 0 <= k < |r.value| - 1 ==> r.value[k] != Ret
    decreases |code| - i
  {
    var d :- DecodeAt(code, i);
    if d.0 == Ret then Some([Ret])
    else
      var rest :- Disassemble(code, i + d.1);
      Some([d.0] + rest)
  }

  /** Register file, indexed by `RegIndex`. */
  type Regs = s: seq<word> | |s| == 8 witness [0, 0, 0, 0, 0, 0, 0, 0]

  function Get(regs: Regs, r: Reg): word {
    regs[RegIndex(r)]
  }

  function Set(regs: Regs, r: Reg, v: word): (out: Regs)
    ensures Get(out, r) == v
    ensures forall q :: q != r ==> Get(out, q) == Get(regs, q)
  {
    regs[RegIndex(r) := v]
  }

  /** Runs straight-line code and returns `rax` at the `RET`. */
  function Run(prog: seq<Insn>, regs: Regs): (r: Option<word>)
    ensures r.Some? <==> Ret in prog
    ensures prog != [] && prog[0] == Ret ==> r == Some(Get(regs, Rax))
  {
    if prog == [] then None
    else match prog[0]
      case Ret => Some(Get(regs, Rax))
      case BtcReg(d, b) =>
        var r := Run(prog[1..], Set(regs, d, Btc(Get(regs, d), Get(regs, b))));
        assert prog == [prog[0]] + prog[1..];
        r
      case MovReg(d, s) =>
        var r := Run(prog[1..], Set(regs, d, Get(regs, s)));
        assert prog == [prog[0]] + prog[1..];
        r
  }

  /** A call under the x64 calling convention: first argument in `rcx`, second in `rdx`,
      result in `rax`; the other registers hold whatever `regs` says. */
  function Call(code: seq<byte>, regs: Regs, a: word, b: word): Option<word> {
    var prog :- Disassemble(code, 0);
    Run(prog, Set(Set(regs, Rcx, a), Rdx, b))
  }

  /** The blob is `btc rcx, rdx; mov rax, rcx; ret`. */
  lemma BlobDisassembly()
    ensures WordBytes(BLOB) == [0x48, 0x0F, 0xBB, 0xD1, 0x48, 0x8B, 0xC1, 0xC3]
    ensures Disassemble(WordBytes(BLOB), 0) == Some([BtcReg(Rcx, Rdx), MovReg(Rax, Rcx), Ret])
  {
    var code := WordBytes(BLOB);
    assert code == [0x48, 0x0F, 0xBB, 0xD1, 0x48, 0x8B, 0xC1, 0xC3];
    assert DecodeAt(code, 7) == Some((Ret, 1));
    assert Disassemble(code, 7) == Some([Ret]);
    assert DecodeAt(code, 4) == Some((MovReg(Rax, Rcx), 3));
    assert Disassemble(code, 4) == Some([MovReg(Rax, Rcx)] + [Ret]);
    assert [MovReg(Rax, Rcx)] + [Ret] == [MovReg(Rax, Rcx), Ret];
    var d := DecodeAt(code, 0);
    assert d == Some((BtcReg(Rcx, Rdx), 4));
    assert d.value.0 != Ret;
    assert Disassemble(code, 0 + d.value.1) == Some([MovReg(Rax, Rcx), Ret]);
    assert Disassemble(code, 0) == Some([d.value.0] + [MovReg(Rax, Rcx), Ret]);
    assert [BtcReg(Rcx, Rdx)] + [MovReg(Rax, Rcx), Ret] == [BtcReg(Rcx, Rdx), MovReg(Rax, Rcx), Ret];
  }

  /** Calling the blob with the key in both argument registers, as every call site does, returns
      the key with bit `key mod 64` complemented, whatever the other registers hold. */
  lemma BlobComputesBtc64(regs: Regs, key: word)
    ensures Call(WordBytes(BLOB), regs, key, key) == Some(Btc64(key))
  {
    BlobDisassembly();
    var prog := [BtcReg(Rcx, Rdx), MovReg(Rax, Rcx), Ret];
    var r0 := Set(Set(regs, Rcx, key), Rdx, key);
    var r1 := Set(r0, Rcx, Btc(key, key));
    var r2 := Set(r1, Rax, Btc(key, key));
    assert Get(r1, Rcx) == Btc(key, key);
    assert Run([Ret], r2) == Some(Btc(key, key));
    assert Run([MovReg(Rax, Rcx), Ret], r1) == Run([Ret], r2) by {
      assert [MovReg(Rax, Rcx), Ret][1..] == [Ret];
    }
    assert Run(prog, r0) == Run([MovReg(Rax, Rcx), Ret], r1) by {
      assert prog[1..] == [MovReg(Rax, Rcx), Ret];
      assert Get(r0, Rcx) == key && Get(r0, Rdx) == key;
    }
  }
}
