/** The part of an x86_64 processor that the syscall bridge touches: the temporary
    registers, the flags, the stack and frame pointers, and a word-addressed memory.
    Address 8*i is cell i; the bridge only ever pushes, pops and loads whole words. */
module X86 {
  import opened Words

  const CARRY: Word := 0x1
  const NOT_CARRY: Word := 0xFFFF_FFFF_FFFF_FFFE

  predicate Carry(rflag: Word) {
    rflag % 2 == 1
  }

  /** `rflag &= ~CARRY`. */
  function ClearCarry(rflag: Word): Word {
    BitAnd(NOT_CARRY, rflag)
  }

  /** `rflag |= CARRY`. */
  function SetCarry(rflag: Word): Word {
    OrOne(rflag);
    BitOr(rflag, CARRY)
  }

  lemma OrOne(f: nat)
    ensures BitOr(f, 1) == f - f % 2 + 1
  {
    assert f > 0 ==> BitOr(f / 2, 0) == f / 2;
  }

  lemma ClearsBitZero(f: Word)
    ensures ClearCarry(f) == f - f % 2
  {
    var ones := 0x7FFF_FFFF_FFFF_FFFF;
    AndDouble(ones, f);
    assert BitAnd(ones, f / 2) == f / 2 by {
      Pow64();
      AndFullMask(f / 2, 63);
    }
  }

  /** Both updates touch bit 0 and nothing else. */
  lemma CarryBitOnly(f: Word)
    ensures !Carry(ClearCarry(f)) && ClearCarry(f) / 2 == f / 2
    ensures Carry(SetCarry(f)) && SetCarry(f) / 2 == f / 2
  {
    ClearsBitZero(f);
    OrOne(f);
  }

  /** The registers; `rip` is where the last `ret` transferred control. */
  datatype Cpu = Cpu(
    rax: Word, rdi: Word, rsi: Word, rdx: Word, rcx: Word, r8: Word, r9: Word,
    r10: Word, r11: Word, rflag: Word, rbp: Word, rsp: Word, rip: Word)

  const ADDRESSABLE_CELLS: nat := 0x2000_0000_0000_0000

  function Cell(address: nat): nat {
    address / 8
  }

  /** `after` everywhere except in the cells lo..hi, which `before` keeps. */
  function Overlay(before: seq<Word>, after: seq<Word>, lo: nat, hi: nat): (m: seq<Word>)
    requires |before| == |after| && lo <= hi <= |before|
    ensures |m| == |before|
    ensures forall i | 0 <= i < |m| :: m[i] == if lo <= i < hi then before[i] else after[i]
  {
    after[..lo] + before[lo..hi] + after[hi..]
  }

  class Machine {
    var rax: Word
    var rdi: Word
    var rsi: Word
    var rdx: Word
    var rcx: Word
    var r8: Word
    var r9: Word
    var r10: Word
    var r11: Word
    var rflag: Word
    var rbp: Word
    var rsp: Word
    var rip: Word
    const mem: array<Word>

    constructor (cells: nat)
      ensures fresh(mem) && mem.Length == cells
    {
      mem := new Word[cells];
      rax, rdi, rsi, rdx, rcx, r8, r9 := 0, 0, 0, 0, 0, 0, 0;
      r10, r11, rflag, rbp, rsp, rip := 0, 0, 0, 0, 0, 0;
    }

    function State(): Cpu
      reads this
    {
      Cpu(rax, rdi, rsi, rdx, rcx, r8, r9, r10, r11, rflag, rbp, rsp, rip)
    }

    /** Also `call`, for v the address of the next instruction, and `pushfq`. Cell `top` is
        the one the stack pointer points at. */
    method Push(v: Word, ghost top: nat)
      requires rsp == 8 * top && 0 < top <= mem.Length
      modifies this`rsp, mem
      ensures rsp == 8 * (top - 1)
      ensures mem[..] == old(mem[..])[top - 1 := v]
    {
      rsp := rsp - 8;
      mem[Cell(rsp)] := v;
    }

    /** Also `popfq`. */
    method Pop(ghost top: nat) returns (v: Word)
      requires rsp == 8 * top && top < mem.Length < ADDRESSABLE_CELLS
      modifies this`rsp
      ensures rsp == 8 * (top + 1)
      ensures v == mem[top]
    {
      v := mem[Cell(rsp)];
      rsp := rsp + 8;
    }

    method Ret(ghost top: nat)
      requires rsp == 8 * top && top < mem.Length < ADDRESSABLE_CELLS
      modifies this`rsp, this`rip
      ensures rsp == 8 * (top + 1)
      ensures rip == mem[top]
    {
      rip := Pop(top);
    }

    /** Foreign code ran and left anything in the caller-saved registers, in the flags and
        in every memory cell but lo..hi, where `after` says what it left in memory. */
    method Scramble(after: seq<Word>, lo: nat, hi: nat)
      requires |after| == mem.Length && lo <= hi <= mem.Length
      modifies this, mem
      ensures rbp == old(rbp) && rsp == old(rsp) && rip == old(rip)
      ensures mem[..] == Overlay(old(mem[..]), after, lo, hi)
    {
      forall i | 0 <= i < mem.Length && !(lo <= i < hi) {
        mem[i] := after[i];
      }
      rax, rdi, rsi, rdx, rcx, r8, r9, r10, r11, rflag := *, *, *, *, *, *, *, *, *, *;
    }
  }
}
