/** The x86_64 libc stubs of SYS.h, from the first instruction to the return to their
    caller. Cell s holds the stub's return address; the caller's stack arguments follow. */
module Stubs {
  import opened Words
  import opened X86
  import RegisterFrame
  import opened SyscallNumbers
  import SyscallTypes
  import opened Dispatch
  import AsmBridge
  import opened ThreadErrors

  /** What a stub entered in state c makes the bridge save: the constructed number in %rax,
      %rcx copied to %r10, and a stack pointer three words further down. */
  function StubRegs(c: Cpu, number: nat): RegisterFrame.Regs
    requires c.rsp >= 24 && number < 0x100_0000
  {
    RegisterFrame.Regs(UnixNumber(number), c.rdi, c.rsi, c.rdx, c.rcx, c.r8, c.r9, c.rcx, c.r11, c.rflag,
         c.rsp - 24, c.rsp - 24)
  }

  function UnixNumber(number: nat): Word
    requires number < 0x100_0000
  {
    ConstructValue(SYSCALL_CLASS_UNIX, number);
    Construct(SYSCALL_CLASS_UNIX, number)
  }

  datatype StubRun<W> =
    | Crash
    | Success(rax: Word, rdx: Word, rflag: Word, world: W)
    | Failure(error: Int32, world: W)

  /** The run of a stub as its caller sees it. */
  function RunStub<W>(k: SyscallTypes.Emulation<W>, c: Cpu, stack: StackArgs, number: nat, world: W): StubRun<W>
    requires c.rsp >= 24 && number < 0x100_0000
  {
    match Handle(k, StubRegs(c, number), stack, world)
    case Trap => Crash
    case Handled(r, _, w) =>
      if Carry(r.rflag) then Failure(ToInt32(r.rax), w) else Success(r.rax, r.rdx, r.rflag, w)
  }

  /** UNIX_SYSCALL_SYSCALL up to the call: the frame push that the bridge's constant offset
      to the stack arguments relies on. */
  method EnterStub(m: Machine, number: nat, ghost s: nat, afterBridge: Word)
    requires number < 0x100_0000
    requires m.rsp == 8 * s && 16 <= s < m.mem.Length
    modifies m`rax, m`r10, m`rbp, m`rsp, m.mem
    ensures m.rsp == 8 * (s - 2) && m.rbp == 8 * (s - 1)
    ensures AsmBridge.EntryRegs(m.State()) == StubRegs(old(m.State()), number)
    ensures m.mem[..] == old(m.mem[..])[s - 1 := old(m.rbp)][s - 2 := afterBridge]
  {
    m.rax := UnixNumber(number);
    m.r10 := m.rcx;
    m.Push(m.rbp, s);
    m.rbp := m.rsp;
    m.Push(afterBridge, s - 1);
  }

  /** The bridge as the stub uses it: back in the stub with its %rbp and %rsp, and with the
      carry flag as popfq loaded it, because neither `ret` nor `pop` touches the flags. */
  method UnixSyscall<W>(k: SyscallTypes.Emulation<W>, m: Machine, number: nat, ghost s: nat, afterBridge: Word,
                        afterCall: Word, world: W, after: seq<Word>)
    returns (trapped: bool, world': W)
    requires number < 0x100_0000
    requires m.rsp == 8 * s && 16 <= s && s + 5 <= m.mem.Length == |after| < ADDRESSABLE_CELLS
    modifies m, m.mem
    ensures var c, before := old(m.State()), old(m.mem[..]);
            match Handle(k, StubRegs(c, number), before[s + 1..s + 5], world)
            case Trap => trapped
            case Handled(r, _, w) =>
              && !trapped && world' == w
              && m.State() == c.(rax := r.rax, rdx := r.rdx, rflag := r.rflag, r10 := c.rcx,
                                 rip := afterBridge)
              && CallerView(before, after, m.mem[..], s)
  {
    ghost var c, before := m.State(), m.mem[..];
    EnterStub(m, number, s, afterBridge);
    ghost var entered := m.mem[..];
    assert entered[s + 1..s + 5] == before[s + 1..s + 5];
    trapped, world' := AsmBridge.Bridge(k, m, s - 2, afterCall, world, after);
    if !trapped {
      assert m.rip == afterBridge;
      StubView(before, after, entered, m.mem[..], s, c.rbp, afterBridge);
      m.rbp := m.Pop(s - 1);
    }
  }

  /** What a stub's caller can tell of memory: the return address is in place, every cell
      above it is as the handler left it, and so is every cell more than sixteen below. */
  ghost predicate CallerView(before: seq<Word>, after: seq<Word>, mem: seq<Word>, s: nat)
    requires |before| == |after| == |mem| && 16 <= s < |mem|
  {
    && mem[s] == before[s]
    && mem[s + 1..] == after[s + 1..]
    && mem[..s - 16] == after[..s - 16]
  }

  lemma StubView(before: seq<Word>, after: seq<Word>, entered: seq<Word>, mem: seq<Word>, s: nat,
                 rbp: Word, ret: Word)
    requires |before| == |after| == |mem| && 16 <= s < |mem|
    requires entered == before[s - 1 := rbp][s - 2 := ret]
    requires AsmBridge.KeptAround(entered, after, mem, s - 2, s + 1)
    ensures CallerView(before, after, mem, s) && mem[s - 1] == rbp
  {
    assert mem[s] == mem[s - 2..s + 1][2] && mem[s - 1] == mem[s - 2..s + 1][1];
  }

  datatype Landing = Trap | FellThrough | ReturnedError

  /** UNIX_SYSCALL_NONAME: branch on the carry flag, either on to the code behind the macro
      or, with the error in %rdi, to cerror, which then returns to the stub's caller.
      `afterError` is what cerror leaves below the stack pointer. */
  method UnixSyscallNoname<W>(k: SyscallTypes.Emulation<W>, m: Machine, errs: Errnos, thread: Thread, number: nat,
                              ghost s: nat, sites: (Word, Word), world: W, after: seq<Word>,
                              afterError: seq<Word>)
    returns (landing: Landing, world': W)
    requires number < 0x100_0000
    requires m.rsp == 8 * s && 16 <= s && s + 5 <= m.mem.Length == |after| < ADDRESSABLE_CELLS
    requires |afterError| == m.mem.Length
    modifies m, m.mem, errs
    ensures var c, before := old(m.State()), old(m.mem[..]);
            match RunStub(k, c, before[s + 1..s + 5], number, world)
            case Crash => landing == Landing.Trap
            case Success(rax, rdx, rflag, w) =>
              && landing == FellThrough && world' == w && errs.stored == old(errs.stored)
              && m.State() == c.(rax := rax, rdx := rdx, rflag := rflag, r10 := c.rcx, rip := sites.0)
              && CallerView(before, after, m.mem[..], s)
            case Failure(error, w) =>
              && landing == ReturnedError && world' == w
              && errs.stored == old(errs.stored)[thread := error]
              && m.rax == m.rdx == MAX_WORD && m.rbp == c.rbp
              && m.rsp == c.rsp + 8 && m.rip == before[s]
              && m.mem[s + 1..] == after[s + 1..]
  {
    var trapped;
    trapped, world' := UnixSyscall(k, m, number, s, sites.0, sites.1, world, after);
    if trapped {
      landing := Landing.Trap;
    } else if !Carry(m.rflag) {
      landing := FellThrough;
    } else {
      landing := ReturnedError;
      m.rdi := m.rax;
      JumpToCerror(m, errs, thread, s, afterError);
    }
  }

  /** `jmp cerror` with the error in %edi: the routine returns in the stub's stead. */
  method JumpToCerror(m: Machine, errs: Errnos, thread: Thread, ghost s: nat, afterError: seq<Word>)
    requires m.rsp == 8 * s && s < m.mem.Length == |afterError| && m.mem.Length < ADDRESSABLE_CELLS
    modifies m, m.mem, errs
    ensures errs.stored == old(errs.stored)[thread := ToInt32(old(m.rdi))]
    ensures m.rax == m.rdx == MAX_WORD && m.rbp == old(m.rbp)
    ensures m.rsp == old(m.rsp) + 8 && m.rip == old(m.mem[s])
    ensures m.mem[s..] == old(m.mem[s..])
  {
    var low, high := errs.Cerror(thread, ToInt32(m.rdi));
    m.Scramble(afterError, Cell(m.rsp), m.mem.Length);
    m.rax, m.rdx := low, high;
    m.Ret(s);
  }

  /** __SYSCALL and __SYSCALL2: nothing but a `ret` behind the macro. */
  method SyscallStub<W>(k: SyscallTypes.Emulation<W>, m: Machine, errs: Errnos, thread: Thread, number: nat,
                        ghost s: nat, sites: (Word, Word), world: W, after: seq<Word>,
                        afterError: seq<Word>)
    returns (trapped: bool, world': W)
    requires number < 0x100_0000
    requires m.rsp == 8 * s && 16 <= s && s + 5 <= m.mem.Length == |after| < ADDRESSABLE_CELLS
    requires |afterError| == m.mem.Length
    modifies m, m.mem, errs
    ensures var c, before := old(m.State()), old(m.mem[..]);
            match RunStub(k, c, before[s + 1..s + 5], number, world)
            case Crash => trapped
            case Success(rax, rdx, rflag, w) =>
              && !trapped && world' == w && errs.stored == old(errs.stored)
              && m.State() == c.(rax := rax, rdx := rdx, rflag := rflag, r10 := c.rcx,
                                 rsp := c.rsp + 8, rip := before[s])
              && m.mem[s + 1..] == after[s + 1..]
            case Failure(error, w) =>
              && !trapped && world' == w
              && errs.stored == old(errs.stored)[thread := error]
              && m.rax == m.rdx == MAX_WORD && m.rbp == c.rbp
              && m.rsp == c.rsp + 8 && m.rip == before[s]
              && m.mem[s + 1..] == after[s + 1..]
  {
    var landing;
    landing, world' := UnixSyscallNoname(k, m, errs, thread, number, s, sites, world, after, afterError);
    trapped := landing == Landing.Trap;
    if landing == FellThrough {
      m.Ret(s);
    }
  }
}
