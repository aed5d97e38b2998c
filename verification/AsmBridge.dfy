/** ___darling_handle_x86_64_syscall (syscall_asmbridge.S), instruction by instruction. */
module AsmBridge {
  import opened Words
  import opened X86
  import opened RegisterFrame
  import SyscallTypes
  import opened Dispatch
  import opened CBridge

  /** The register values the bridge saves when entered in state c: the stack pointer is
      taken after the bridge's own `push %rbp`, and %rbp has been set to it. */
  function EntryRegs(c: Cpu): Regs
    requires c.rsp >= 8
  {
    Regs(c.rax, c.rdi, c.rsi, c.rdx, c.rcx, c.r8, c.r9, c.r10, c.r11, c.rflag,
         c.rsp - 8, c.rsp - 8)
  }

  /** The words from position i of `words` on lie directly below cell k of `before`. */
  ghost predicate Pushed(before: seq<Word>, k: nat, words: seq<Word>, i: nat, mem: seq<Word>)
    requires i <= |words| <= k <= |before|
  {
    mem == before[..k - (|words| - i)] + words[i..] + before[k..]
  }

  lemma PushedOne(before: seq<Word>, k: nat, words: seq<Word>, i: nat, mem: seq<Word>)
    requires 0 < i <= |words| <= k <= |before| && Pushed(before, k, words, i, mem)
    ensures Pushed(before, k, words, i - 1, mem[k - (|words| - i) - 1 := words[i - 1]])
  {
  }

  /** One push of a sequence that lays `words` out below cell k, last word first. */
  method PushNext(m: Machine, v: Word, ghost before: seq<Word>, ghost k: nat, ghost words: seq<Word>,
                  ghost i: nat)
    requires 0 < i <= |words| <= k <= |before| == m.mem.Length
    requires m.rsp == 8 * (k - (|words| - i)) && Pushed(before, k, words, i, m.mem[..])
    requires v == words[i - 1]
    modifies m`rsp, m.mem
    ensures m.rsp == 8 * (k - (|words| - i) - 1) && Pushed(before, k, words, i - 1, m.mem[..])
  {
    PushedOne(before, k, words, i, m.mem[..]);
    m.Push(v, k - (|words| - i));
  }

  /** The words the bridge pushes, in memory order. */
  function SavedWords(c: Cpu): (words: seq<Word>)
    requires c.rsp >= 8
    ensures |words| == 13
  {
    [c.rax, c.rdi, c.rsi, c.rdx, c.rcx, c.r8, c.r9, c.r10, c.r11, c.rflag,
     c.rsp - 8, c.rsp - 8, c.rbp]
  }

  /** The first four pushes: both pointers and the flags. */
  method SavePointers(m: Machine, ghost k: nat)
    requires m.rsp == 8 * k && 13 <= k <= m.mem.Length
    modifies m`rsp, m`rbp, m.mem
    ensures m.rsp == 8 * (k - 4) && m.rbp == 8 * (k - 1)
    ensures Pushed(old(m.mem[..]), k, SavedWords(old(m.State())), 9, m.mem[..])
  {
    ghost var b, w := m.mem[..], SavedWords(m.State());
    PushNext(m, m.rbp, b, k, w, 13);
    m.rbp := m.rsp;
    PushNext(m, m.rsp, b, k, w, 12);
    PushNext(m, m.rbp, b, k, w, 11);
    PushNext(m, m.rflag, b, k, w, 10);
  }

  /** The remaining nine pushes: the temporary registers, onto what SavePointers left. */
  method SaveTemporaries(m: Machine, ghost b: seq<Word>, ghost k: nat, ghost w: seq<Word>)
    requires 13 == |w| <= k <= |b| == m.mem.Length
    requires m.rsp == 8 * (k - 4) && Pushed(b, k, w, 9, m.mem[..])
    requires w[..9] == [m.rax, m.rdi, m.rsi, m.rdx, m.rcx, m.r8, m.r9, m.r10, m.r11]
    modifies m`rsp, m.mem
    ensures m.rsp == 8 * (k - 13) && Pushed(b, k, w, 0, m.mem[..])
  {
    assert forall i | 0 <= i < 9 :: w[i] == w[..9][i];
    PushNext(m, m.r11, b, k, w, 9);
    PushNext(m, m.r10, b, k, w, 8);
    PushNext(m, m.r9, b, k, w, 7);
    PushNext(m, m.r8, b, k, w, 6);
    PushNext(m, m.rcx, b, k, w, 5);
    PushNext(m, m.rdx, b, k, w, 4);
    PushNext(m, m.rsi, b, k, w, 3);
    PushNext(m, m.rdi, b, k, w, 2);
    PushNext(m, m.rax, b, k, w, 1);
  }

  /** Entry to the bridge: the thirteen pushes leave SavedWords right below the return
      address at cell k. A stack that is aligned as the System V ABI demands for the call
      of a stub is so again for the call of the C function. */
  method SaveFrame(m: Machine, ghost k: nat)
    requires m.rsp == 8 * k && 13 <= k <= m.mem.Length
    modifies m`rsp, m`rbp, m.mem
    ensures m.rsp == 8 * (k - 13) && m.rbp == 8 * (k - 1)
    ensures Pushed(old(m.mem[..]), k, SavedWords(old(m.State())), 0, m.mem[..])
    ensures old(m.rsp) % 16 == 8 ==> m.rsp % 16 == 0
  {
    ghost var b, w := m.mem[..], SavedWords(m.State());
    SavePointers(m, k);
    SaveTemporaries(m, b, k, w);
  }

  /** The struct the C code is handed: field by field the registers at entry, with the
      caller's stack arguments 32 bytes above the saved stack pointer. */
  lemma SavedStruct(b: seq<Word>, c: Cpu, k: nat, mem: seq<Word>)
    requires 14 <= k && k + 7 <= |b| && c.rsp == 8 * k
    requires Pushed(b, k, SavedWords(c), 0, mem)
    ensures At(mem, k - 13) == EntryRegs(c) && mem[k - 1] == c.rbp
    ensures Readable(mem, k - 13) && FirstStackArg(EntryRegs(c).rsp) == k + 3
    ensures StackOf(mem, k - 13) == b[k + 3..k + 7]
    ensures |mem| == |b| && mem[k..] == b[k..]
  {
    var w := SavedWords(c);
    assert forall i | 0 <= i < 13 :: mem[k - 13 + i] == w[i];
    assert mem[k + 3..k + 7] == mem[k..][3..7];
    assert b[k + 3..k + 7] == b[k..][3..7];
  }

  /** The first five pops. */
  method RestoreFirst(m: Machine, ghost f: nat)
    requires m.rsp == 8 * f && f + FRAME_WORDS <= m.mem.Length < ADDRESSABLE_CELLS
    modifies m`rax, m`rdi, m`rsi, m`rdx, m`rcx, m`rsp
    ensures m.rsp == 8 * (f + 5)
    ensures m.rax == m.mem[f] && m.rdi == m.mem[f + 1] && m.rsi == m.mem[f + 2]
    ensures m.rdx == m.mem[f + 3] && m.rcx == m.mem[f + 4]
  {
    m.rax := m.Pop(f);
    m.rdi := m.Pop(f + 1);
    m.rsi := m.Pop(f + 2);
    m.rdx := m.Pop(f + 3);
    m.rcx := m.Pop(f + 4);
  }

  /** The next four pops. */
  method RestoreNext(m: Machine, ghost f: nat)
    requires m.rsp == 8 * (f + 5) && f + FRAME_WORDS <= m.mem.Length < ADDRESSABLE_CELLS
    modifies m`r8, m`r9, m`r10, m`r11, m`rsp
    ensures m.rsp == 8 * (f + 9)
    ensures m.r8 == m.mem[f + 5] && m.r9 == m.mem[f + 6]
    ensures m.r10 == m.mem[f + 7] && m.r11 == m.mem[f + 8]
  {
    m.r8 := m.Pop(f + 5);
    m.r9 := m.Pop(f + 6);
    m.r10 := m.Pop(f + 7);
    m.r11 := m.Pop(f + 8);
  }

  /** The last four pops. `pop %rsp` loads the saved stack pointer, which the C code has not
      changed, so that the final pop finds the %rbp of the bridge's caller. */
  method RestorePointers(m: Machine, ghost f: nat)
    requires m.rsp == 8 * (f + 9) && f + 13 <= m.mem.Length < ADDRESSABLE_CELLS
    requires m.mem[f + RSP] == 8 * (f + 12)
    modifies m`rflag, m`rbp, m`rsp
    ensures m.rflag == m.mem[f + RFLAG] && m.rbp == m.mem[f + 12] && m.rsp == 8 * (f + 13)
  {
    m.rflag := m.Pop(f + 9);
    m.rbp := m.Pop(f + 10);
    m.rsp := m.Pop(f + 11);
    m.rbp := m.Pop(f + 12);
  }

  method RestoreFrame(m: Machine, ghost f: nat)
    requires m.rsp == 8 * f && f + 13 <= m.mem.Length < ADDRESSABLE_CELLS
    requires At(m.mem[..], f).rsp == 8 * (f + 12)
    modifies m
    ensures var r := At(m.mem[..], f);
            m.State() == Cpu(r.rax, r.rdi, r.rsi, r.rdx, r.rcx, r.r8, r.r9, r.r10, r.r11,
                             r.rflag, m.mem[f + 12], 8 * (f + 13), old(m.rip))
  {
    RestoreFirst(m, f);
    RestoreNext(m, f);
    RestorePointers(m, f);
  }

  /** Up to and including the call of the C function, whose argument is the address of the
      twelve words just pushed. */
  method CallHandler(m: Machine, ghost t: nat, afterCall: Word) returns (regs: Word, ghost saved: seq<Word>)
    requires m.rsp == 8 * t && 14 <= t && t + 7 <= m.mem.Length
    modifies m`rsp, m`rbp, m`rdi, m.mem
    ensures Cell(regs) == t - 13 && m.rsp == 8 * (t - 14)
    ensures Pushed(old(m.mem[..]), t, SavedWords(old(m.State())), 0, saved)
    ensures m.mem[..] == saved[t - 14 := afterCall]
    ensures At(m.mem[..], t - 13) == EntryRegs(old(m.State())) && Readable(m.mem[..], t - 13)
    ensures FirstStackArg(EntryRegs(old(m.State())).rsp) == t + 3
    ensures StackOf(m.mem[..], t - 13) == old(m.mem[t + 3..t + 7])
  {
    ghost var c, before := m.State(), m.mem[..];
    SaveFrame(m, t);
    saved := m.mem[..];
    SavedStruct(before, c, t, saved);
    CalledStruct(before, saved, t, afterCall);
    m.rdi := m.rsp;
    regs := m.rdi;
    m.Push(afterCall, t - 13);
  }

  /** State c with the results in r, having returned to `rip`. */
  function Resumed(c: Cpu, r: Regs, rip: Word): Cpu
    requires c.rsp < MAX_WORD - 8
  {
    c.(rax := r.rax, rdx := r.rdx, rflag := r.rflag, rsp := c.rsp + 8, rip := rip)
  }

  /** From the return of the C function on, when r is what it left in the struct and c is
      the state the bridge was entered in. */
  method ReturnFromHandler(m: Machine, ghost t: nat, ghost afterCall: Word, ghost c: Cpu, ghost r: Regs)
    requires 14 <= t && t + 7 <= m.mem.Length < ADDRESSABLE_CELLS && c.rsp == 8 * t
    requires m.rsp == 8 * (t - 14) && m.mem[t - 14] == afterCall
    requires At(m.mem[..], t - 13) == r && m.mem[t - 1] == c.rbp
    requires SameButResults(r, EntryRegs(c))
    modifies m
    ensures m.State() == Resumed(c, r, m.mem[t])
  {
    m.Ret(t - 14);
    assert m.rip == afterCall;
    RestoreFrame(m, t - 13);
    m.Ret(t);
  }

  /** The C function, run by a bridge entered in state c with memory `before`. */
  method RunHandler<W>(k: SyscallTypes.Emulation<W>, m: Machine, regs: Word, world: W, after: seq<Word>,
                       ghost c: Cpu, ghost before: seq<Word>, ghost saved: seq<Word>,
                       ghost t: nat, ghost ret: Word)
    returns (trapped: bool, world': W)
    requires 14 <= t && t + 7 <= m.mem.Length == |after| == |before| == |saved|
    requires Cell(regs) == t - 13 && c.rsp == 8 * t
    requires Pushed(before, t, SavedWords(c), 0, saved) && m.mem[..] == saved[t - 14 := ret]
    requires At(m.mem[..], t - 13) == EntryRegs(c) && Readable(m.mem[..], t - 13)
    requires FirstStackArg(EntryRegs(c).rsp) == t + 3
    requires StackOf(m.mem[..], t - 13) == before[t + 3..t + 7]
    modifies m, m.mem
    ensures m.rsp == old(m.rsp)
    ensures match Handle(k, EntryRegs(c), before[t + 3..t + 7], world)
            case Trap => trapped
            case Handled(r, _, w) =>
              && !trapped && world' == w
              && At(m.mem[..], t - 13) == r && m.mem[t - 14] == ret && m.mem[t - 1] == c.rbp
              && KeptAround(before, after, m.mem[..], t, t + 3)
  {
    ghost var called := m.mem[..];
    var error;
    trapped, error, world' := HandleSyscall(k, m, regs, world, after);
    if !trapped {
      ghost var r := Handle(k, EntryRegs(c), before[t + 3..t + 7], world).regs;
      assert m.mem[..] == FrameAfter(called, after, t - 13, r);
      AfterCall(before, saved, after, m.mem[..], c, t, ret, r);
    }
  }

  /** The whole bridge, entered with its return address in cell t. It either traps or does
      to the registers what Handle says, returns to its caller and leaves, of all memory it
      and the C code share, nothing changed but cells below its return address. */
  method Bridge<W>(k: SyscallTypes.Emulation<W>, m: Machine, ghost t: nat, afterCall: Word, world: W, after: seq<Word>)
    returns (trapped: bool, world': W)
    requires m.rsp == 8 * t && 14 <= t && t + 7 <= m.mem.Length == |after| < ADDRESSABLE_CELLS
    modifies m, m.mem
    ensures var c, before := old(m.State()), old(m.mem[..]);
            match Handle(k, EntryRegs(c), before[t + 3..t + 7], world)
            case Trap => trapped
            case Handled(r, _, w) =>
              && !trapped && world' == w
              && m.State() == Resumed(c, r, before[t])
              && KeptAround(before, after, m.mem[..], t, t + 3)
  {
    ghost var c, before := m.State(), m.mem[..];
    ghost var h := Handle(k, EntryRegs(c), before[t + 3..t + 7], world);
    HandleKeepsRest(k, EntryRegs(c), before[t + 3..t + 7], world);
    var regs;
    ghost var saved;
    regs, saved := CallHandler(m, t, afterCall);
    trapped, world' := RunHandler(k, m, regs, world, after, c, before, saved, t, afterCall);
    if !trapped {
      ghost var mem := m.mem[..];
      assert mem[t] == before[t] by {
        assert mem[t..t + 3][0] == before[t..t + 3][0];
      }
      ReturnFromHandler(m, t, afterCall, c, h.regs);
    }
  }

  /** Cells lo..hi are as before, the other cells from lo on, and those more than fourteen
      below it, as foreign code left them. */
  ghost predicate KeptAround(before: seq<Word>, after: seq<Word>, mem: seq<Word>, lo: nat, hi: nat)
    requires |before| == |after| == |mem| && 14 <= lo <= hi <= |mem|
  {
    && mem[lo..hi] == before[lo..hi]
    && mem[hi..] == after[hi..]
    && mem[..lo - 14] == after[..lo - 14]
  }

  /** The call of the C function pushes below the struct. */
  lemma CalledStruct(b: seq<Word>, saved: seq<Word>, t: nat, ret: Word)
    requires 14 <= t && t + 7 <= |b| == |saved| && Readable(saved, t - 13)
    ensures var mem := saved[t - 14 := ret];
            && At(mem, t - 13) == At(saved, t - 13)
            && Readable(mem, t - 13)
            && (t + 3 <= FirstStackArg(At(mem, t - 13).rsp) ==>
                StackOf(mem, t - 13) == StackOf(saved, t - 13))
  {
  }

  lemma AfterCall(before: seq<Word>, saved: seq<Word>, after: seq<Word>, mem: seq<Word>, c: Cpu,
                  t: nat, ret: Word, r: Regs)
    requires 14 <= t && t + 7 <= |before| == |after| == |saved| && c.rsp == 8 * t
    requires Pushed(before, t, SavedWords(c), 0, saved)
    requires mem == FrameAfter(saved[t - 14 := ret], after, t - 13, r)
    ensures At(mem, t - 13) == r && mem[t - 14] == ret && mem[t - 1] == c.rbp
    ensures KeptAround(before, after, mem, t, t + 3)
  {
    SavedStruct(before, c, t, saved);
    var left := Overlay(saved[t - 14 := ret], after, t - 14, t + 3);
    StoredAt(left, t - 13, r);
    assert mem[t - 1..] == left[t - 1..];
    assert mem[..t - 13] == left[..t - 13];
    assert mem[t - 14] == mem[..t - 13][t - 14];
    assert mem[t - 1] == mem[t - 1..][0];
    assert saved[t..] == before[t..];
    assert mem[t..t + 3] == mem[t - 1..][1..4] == left[t..t + 3] == saved[t..][..3];
  }
}
