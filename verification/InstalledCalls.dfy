/** What the stubs do with the installed handlers, end to end: from the stub's registers
    through the bridge to the host and back. recvfrom is in RecvfromCalls. */
module InstalledCalls {
  import opened Words
  import opened X86
  import opened SyscallTypes
  import opened SyscallNumbers
  import opened Dispatch
  import opened Stubs
  import opened SystemCalls
  import opened ErrnoConversion
  import opened Handlers
  import PipeStub
  import RegisterFrame

  /** No call through the installed table reaches either trap. */
  lemma InstalledNeverTraps<W(!new)>(p: Platform, host: HostCalls<W>, enosys: Errno,
                                     regs: RegisterFrame.Regs, stack: StackArgs, world: W)
    ensures Handle(Installed(p, host, enosys), regs, stack, world).Handled?
  {
    var k := Installed(p, host, enosys);
    forall n | 0 <= n < UNIX_TABLE_SIZE && k.table[n].Entry?
      ensures k.table[n].argCount <= MAX_ARGS
      ensures forall args, w {:trigger k.table[n].func(n, args, w)} ::
                var h := k.table[n].func(n, args, w);
                IsFailure(h.error) || h.resultType != INVALID
    {
      assert k.table[n] == InstalledEntry(p, host, enosys, n);
    }
    WellBehavedNeverTraps(k, regs, stack, world);
  }

  /** syscall(0, ...) is refused: an indirect call cannot be nested. */
  lemma NestedIndirectFails<W>(p: Platform, host: HostCalls<W>, enosys: Errno, c: Cpu,
                               stack: StackArgs, world: W)
    requires c.rsp >= 24 && Low32(c.rdi) == 0
    ensures RunStub(Installed(p, host, enosys), c, stack, SYS_SYSCALL, world) == Failure(enosys, world)
  {
    var k := Installed(p, host, enosys);
    StubDecodes(c, 0);
    assert k.table[0] == InstalledEntry(p, host, enosys, 0);
    StubOutcome(k, c, stack, 0, world);
  }

  /** The table has write at 4, recvfrom at 29 and pipe at 42; every other number, called
      either way, fails with ENOSYS and leaves the world alone. */
  lemma OtherNumbersFail<W>(p: Platform, host: HostCalls<W>, enosys: Errno, c: Cpu, stack: StackArgs,
                            number: nat, world: W)
    requires c.rsp >= 24 && number < 0x100_0000 && Requested(c, number) !in {4, 29, 42}
    ensures RunStub(Installed(p, host, enosys), c, stack, number, world) == Failure(enosys, world)
  {
    var k, n := Installed(p, host, enosys), Requested(c, number);
    if 0 <= n < UNIX_TABLE_SIZE {
      assert k.table[n] == InstalledEntry(p, host, enosys, n);
    }
    if n == 0 {
      NestedIndirectFails(p, host, enosys, c, stack, world);
    } else {
      UnimplementedFails(k, c, stack, number, world);
    }
  }

  /** A stub for an installed number dispatches to that handler, on its own arguments. */
  lemma InstalledDispatch<W>(p: Platform, host: HostCalls<W>, enosys: Errno, c: Cpu,
                             stack: StackArgs, number: nat, world: W)
    requires c.rsp >= 24 && (number == SYS_WRITE || number == SYS_PIPE)
    ensures var h := if number == SYS_WRITE then WriteResult(p, host, CallArgs(c, stack)[..3], world)
                     else PipeResult(p, host, world);
            Call(Installed(p, host, enosys), c, stack, number, world)
            == Dispatched(h.error, Unix(h.resultType, h.result0, h.result1), h.world)
  {
    var k := Installed(p, host, enosys);
    assert k.table[number] == InstalledEntry(p, host, enosys, number);
    DirectArgs(c, stack, number, CallArgs(c, stack)[..k.table[number].argCount]);
  }

  // ------------------------------------------------------------------------- write

  function HostWrite<W>(host: HostCalls<W>, c: Cpu, world: W): HostResult<W> {
    host.write(ToInt32(c.rdi), c.rsi, ToInt32(c.rdx), world)
  }

  lemma WriteDispatch<W>(p: Platform, host: HostCalls<W>, enosys: Errno, c: Cpu, stack: StackArgs, world: W)
    requires c.rsp >= 24
    ensures var r := HostWrite(host, c, world);
            Call(Installed(p, host, enosys), c, stack, SYS_WRITE, world)
            == if r.ret < 0 then
                 Dispatched(HostError(p, ToInt32(r.ret), r.errno), Unix(SSIZE_T, 0, 0), r.world)
               else
                 Dispatched(0, Unix(SSIZE_T, ToInt32(ToWord(r.ret)), ToInt32(ToWord(r.ret) / 0x1_0000_0000)),
                            r.world)
  {
    InstalledDispatch(p, host, enosys, c, stack, SYS_WRITE, world);
    var args := CallArgs(c, stack)[..3];
    assert args[0] == c.rdi && args[1] == c.rsi && args[2] == c.rdx;
  }

  /** The run of the write stub. */
  function Write<W>(p: Platform, host: HostCalls<W>, enosys: Errno, c: Cpu, stack: StackArgs, world: W)
    : StubRun<W>
    requires c.rsp >= 24
  {
    RunStub(Installed(p, host, enosys), c, stack, SYS_WRITE, world)
  }

  /** Every count the host returns, 64 bits of it, is what write returns to its caller. */
  lemma WriteReturnsCount<W>(p: Platform, host: HostCalls<W>, enosys: Errno, c: Cpu,
                             stack: StackArgs, world: W)
    requires c.rsp >= 24 && HostWrite(host, c, world).ret >= 0
    ensures var run := Write(p, host, enosys, c, stack, world);
            && run.Success? && ToInt64(run.rax) == HostWrite(host, c, world).ret && run.rdx == 0
            && run.world == HostWrite(host, c, world).world
  {
    var k := Installed(p, host, enosys);
    WriteDispatch(p, host, enosys, c, stack, world);
    StubOutcome(k, c, stack, SYS_WRITE, world);
    SuccessRegisters(k, c, stack, SYS_WRITE, world);
    WideTransport(HostWrite(host, c, world).ret, SSIZE_T, UnixNumber(SYS_WRITE));
  }

  /** `syscall(4, fd, mem, len)` is write(fd, mem, len), to the last register. */
  lemma IndirectWrite<W>(p: Platform, host: HostCalls<W>, enosys: Errno, c: Cpu, stack: StackArgs, world: W)
    requires c.rsp >= 24 && ToInt32(c.rdi) == 4
    ensures RunStub(Installed(p, host, enosys), c, stack, 0, world)
            == Write(p, host, enosys, c.(rdi := c.rsi, rsi := c.rdx, rdx := c.rcx), stack, world)
  {
    var k, d := Installed(p, host, enosys), c.(rdi := c.rsi, rsi := c.rdx, rdx := c.rcx);
    assert k.table[4] == InstalledEntry(p, host, enosys, 4);
    WriteDispatch(p, host, enosys, d, stack, world);
    SameTypedRun(k, 4, c.rdi, [c.rsi, c.rdx, c.rcx], world, d, stack, c, stack);
  }

  /** Both calls of a handler with a typed result, from the same flags, give the same run. */
  lemma SameTypedRun<W>(
      k: Emulation<W>, number: nat, tag: Word, args: seq<Word>, world: W,
      direct: Cpu, directStack: StackArgs, indirect: Cpu, indirectStack: StackArgs)
    requires direct.rsp >= 24 && indirect.rsp >= 24 && direct.rflag == indirect.rflag
    requires 0 < number < UNIX_TABLE_SIZE && ToInt32(tag) == number && Implemented(k, number)
    requires |args| == k.table[number].argCount <= MAX_ARGS
    requires args <= CallArgs(direct, directStack)
    requires [tag] + args <= CallArgs(indirect, indirectStack)
    requires TypeOf(Call(k, direct, directStack, number, world)) != NONE
    ensures RunStub(k, indirect, indirectStack, 0, world) == RunStub(k, direct, directStack, number, world)
  {
    SameVisibleResult(k, number, tag, args, world, direct, directStack, indirect, indirectStack);
    if RunStub(k, direct, directStack, number, world).Success? {
      SuccessRegisters(k, direct, directStack, number, world);
      SuccessRegisters(k, indirect, indirectStack, 0, world);
    }
  }

  /** The error a failed host write makes the handler return. */
  function WriteError<W>(p: Platform, host: HostCalls<W>, c: Cpu, world: W): Int32 {
    var r := HostWrite(host, c, world);
    HostError(p, ToInt32(r.ret), r.errno)
  }

  /** A failed write fails with that error, or, when it is one that the bridge does not take
      for a failure, succeeds like a write of 0 bytes. */
  lemma FailedWrite<W>(p: Platform, host: HostCalls<W>, enosys: Errno, c: Cpu, stack: StackArgs, world: W)
    requires c.rsp >= 24 && HostWrite(host, c, world).ret < 0
    ensures var error, after := WriteError(p, host, c, world), HostWrite(host, c, world).world;
            match Write(p, host, enosys, c, stack, world)
            case Crash => false
            case Failure(e, w) => IsFailure(error) && e == error && w == after
            case Success(rax, rdx, _, w) => !IsFailure(error) && rax == 0 && rdx == 0 && w == after
  {
    var k := Installed(p, host, enosys);
    WriteDispatch(p, host, enosys, c, stack, world);
    StubOutcome(k, c, stack, SYS_WRITE, world);
    if RunStub(k, c, stack, SYS_WRITE, world).Success? {
      SuccessRegisters(k, c, stack, SYS_WRITE, world);
    }
  }

  /** The raw result of a failed Linux system call. */
  predicate IsLinuxError(ret: Int64) {
    -4095 <= ret <= -1
  }

  /** On Linux that is the converted raw result, which is negative. */
  lemma LinuxWriteError<W>(p: Platform, host: HostCalls<W>, c: Cpu, world: W)
    requires p.Linux? && IsLinuxError(HostWrite(host, c, world).ret)
    ensures WriteError(p, host, c, world)
            == ErrnoLinuxToBsd(p.translation.errnos, HostWrite(host, c, world).ret) < 0
  {
    var raw := HostWrite(host, c, world).ret;
    assert ToInt32(raw) == raw;
    ConversionKeepsSign(p.translation.errnos, raw);
  }

  /** On Linux a failed write is reported as a failure unless its converted error happens to
      be the bridge's ERESTART or EJUSTRETURN; then it looks like a write of 0 bytes. */
  lemma LinuxWriteFailure<W>(p: Platform, host: HostCalls<W>, enosys: Errno, c: Cpu,
                             stack: StackArgs, world: W)
    requires c.rsp >= 24 && p.Linux? && IsLinuxError(HostWrite(host, c, world).ret)
    ensures var code := ErrnoLinuxToBsd(p.translation.errnos, HostWrite(host, c, world).ret);
            match Write(p, host, enosys, c, stack, world)
            case Crash => false
            case Failure(e, _) => e == code < 0 && code != ERESTART && code != EJUSTRETURN
            case Success(rax, rdx, _, _) => (code == ERESTART || code == EJUSTRETURN) && rax == 0 && rdx == 0
  {
    FailedWrite(p, host, enosys, c, stack, world);
    LinuxWriteError(p, host, c, world);
  }

  /** With Darwin's error numbers the two that are lost are EPERM and ENOENT. */
  lemma LinuxWriteFailureDarwinNumbers<W>(p: Platform, host: HostCalls<W>, enosys: Errno, c: Cpu,
                                          stack: StackArgs, world: W)
    requires c.rsp >= 24 && p.Linux? && p.translation.errnos == DARWIN
    requires IsLinuxError(HostWrite(host, c, world).ret)
    ensures Write(p, host, enosys, c, stack, world).Success?
            <==> -2 <= HostWrite(host, c, world).ret <= -1
  {
    LinuxWriteFailure(p, host, enosys, c, stack, world);
    DarwinSentinels(HostWrite(host, c, world).ret);
  }

  /** The error a caller expects of a failed write: the host's own number for it, converted
      on Linux from the positive Linux code. */
  function ExpectedErrno<W>(p: Platform, host: HostCalls<W>, c: Cpu, world: W): Int32 {
    var r := HostWrite(host, c, world);
    if p.Linux? then ErrnoLinuxToBsd(p.translation.errnos, Negate(ToInt32(r.ret))) else r.errno
  }

  /** The handler converts the raw negative result; that is the negative of what it should be. */
  lemma LinuxWriteErrorIsNegated<W>(p: Platform, host: HostCalls<W>, c: Cpu, world: W)
    requires p.Linux? && IsLinuxError(HostWrite(host, c, world).ret)
    ensures WriteError(p, host, c, world) == -ExpectedErrno(p, host, c, world) < 0
  {
    var raw := HostWrite(host, c, world).ret;
    ConversionIsOdd(p.translation.errnos, raw);
    ConversionKeepsSign(p.translation.errnos, -raw);
    LinuxWriteError(p, host, c, world);
  }

  /** A failed write hands cerror the number its caller expects exactly on the Apple build:
      on Linux it is the negative of it, when there is a failure at all. */
  lemma WriteReportsExpectedErrno<W>(p: Platform, host: HostCalls<W>, enosys: Errno, c: Cpu,
                                     stack: StackArgs, world: W)
    requires c.rsp >= 24 && HostWrite(host, c, world).ret < 0
    requires p.Linux? ==> IsLinuxError(HostWrite(host, c, world).ret)
    ensures var run, expected := Write(p, host, enosys, c, stack, world), ExpectedErrno(p, host, c, world);
            && expected > 0
            && (run.Failure? && run.error == expected <==> p.Apple?)
            && (p.Linux? && run.Failure? ==> run.error == -expected)
  {
    FailedWrite(p, host, enosys, c, stack, world);
    if p.Linux? {
      LinuxWriteErrorIsNegated(p, host, c, world);
    }
  }

  // -------------------------------------------------------------------------- pipe

  /** A stub call of a handler that returns ints. */
  lemma IntOutcome<W>(k: Emulation<W>, c: Cpu, stack: StackArgs, number: nat, world: W, h: HandlerResult<W>)
    requires c.rsp >= 24 && number < 0x100_0000 && h.resultType == INT_T
    requires Call(k, c, stack, number, world)
             == Dispatched(h.error, Unix(h.resultType, h.result0, h.result1), h.world)
    ensures match RunStub(k, c, stack, number, world)
            case Crash => false
            case Failure(e, w) => IsFailure(h.error) && e == h.error && w == h.world
            case Success(rax, rdx, _, w) =>
              && !IsFailure(h.error) && w == h.world
              && rax == ToWord(h.result0) && rdx == ToWord(h.result1)
  {
    StubOutcome(k, c, stack, number, world);
    if RunStub(k, c, stack, number, world).Success? {
      SuccessRegisters(k, c, stack, number, world);
    }
  }

  /** Both descriptors of a new pipe arrive in the stub's registers. When the host's pipe
      fails, so does the call, with the handler's error; or it succeeds with zeros, if the
      bridge takes that error for one of its own. */
  lemma PipeOutcome<W>(p: Platform, host: HostCalls<W>, enosys: Errno, c: Cpu, stack: StackArgs, world: W)
    requires c.rsp >= 24
    ensures var r := host.pipe(world);
            var failed, error := ToInt32(r.ret) < 0, HostError(p, ToInt32(r.ret), r.errno);
            match RunStub(Installed(p, host, enosys), c, stack, SYS_PIPE, world)
            case Crash => false
            case Failure(e, w) => failed && IsFailure(error) && e == error && w == r.world
            case Success(rax, rdx, _, w) =>
              && w == r.world && (failed ==> !IsFailure(error))
              && rax == (if failed then 0 else ToWord(r.fd0))
              && rdx == (if failed then 0 else ToWord(r.fd1))
  {
    InstalledDispatch(p, host, enosys, c, stack, SYS_PIPE, world);
    IntOutcome(Installed(p, host, enosys), c, stack, SYS_PIPE, world, PipeResult(p, host, world));
  }

  /** `syscall(42)` returns what the number 42 does. */
  lemma IndirectPipe<W>(p: Platform, host: HostCalls<W>, enosys: Errno, c: Cpu, stack: StackArgs, world: W)
    requires c.rsp >= 24 && ToInt32(c.rdi) == 42
    ensures RunStub(Installed(p, host, enosys), c, stack, 0, world)
            == RunStub(Installed(p, host, enosys), c, stack, SYS_PIPE, world)
  {
    var k := Installed(p, host, enosys);
    assert k.table[42] == InstalledEntry(p, host, enosys, 42);
    InstalledDispatch(p, host, enosys, c, stack, SYS_PIPE, world);
    SameTypedRun(k, 42, c.rdi, [], world, c, stack, c, stack);
  }

  /** The two ints at address a. */
  function PairAt(mem: seq<Word>, a: nat): (Int32, Int32)
    requires PipeStub.IntAddress(mem, a) && PipeStub.IntAddress(mem, a + 4)
  {
    (ToInt32(PipeStub.HalfAt(mem, a)), ToInt32(PipeStub.HalfAt(mem, a + 4)))
  }

  /** What the stub then stores in its caller's array: after any success it holds the host's
      descriptors, but for a failure that was lost, where it holds zeros. */
  lemma PipeArray<W>(p: Platform, host: HostCalls<W>, enosys: Errno, c: Cpu, stack: StackArgs, world: W,
                     mem: seq<Word>)
    requires c.rsp >= 24 && PipeStub.IntAddress(mem, c.rdi) && PipeStub.IntAddress(mem, c.rdi + 4)
    ensures var r := host.pipe(world);
            var run := RunStub(Installed(p, host, enosys), c, stack, SYS_PIPE, world);
            && (ToInt32(r.ret) >= 0 ==> run.Success?)
            && (run.Success? ==> PairAt(PipeStub.Filled(mem, c.rdi, run.rax, run.rdx), c.rdi)
                                 == if ToInt32(r.ret) >= 0 then (r.fd0, r.fd1) else (0, 0))
  {
    var r := host.pipe(world);
    PipeOutcome(p, host, enosys, c, stack, world);
    FilledPair(mem, c.rdi, r.fd0, r.fd1);
    FilledPair(mem, c.rdi, 0, 0);
  }

  lemma FilledPair(mem: seq<Word>, a: nat, fd0: Int32, fd1: Int32)
    requires PipeStub.IntAddress(mem, a) && PipeStub.IntAddress(mem, a + 4)
    ensures var m := PipeStub.Filled(mem, a, ToWord(fd0), ToWord(fd1));
            |m| == |mem| && PairAt(m, a) == (fd0, fd1)
  {
    PipeStub.PipeFillsPair(mem, a, fd0, fd1, a);
  }
}
