/** What the test programs do: a call through a stub on the machine, and then a look at
    darling_errno or at the memory the call was to fill. */
module Programs {
  import opened Words
  import opened SyscallTypes
  import opened Handlers
  import opened InstalledCalls
  import Dispatch
  import PipeStub
  import Stubs
  import SyscallNumbers
  import SystemCalls
  import ThreadErrors
  import ThreadRuns
  import X86

  /** darling_set_cerror(0), a call of some stub, and darling_get_cerror(), by one thread: the
      errno is 0 after a success, and the call's error after a failure. */
  method CallThenGetCerror<W>(
      k: Emulation<W>, m: X86.Machine, errs: ThreadErrors.Errnos, thread: ThreadErrors.Thread,
      number: nat, ghost s: nat, sites: (Word, Word), world: W, after: seq<Word>, afterError: seq<Word>)
    returns (trapped: bool, world': W, errno: Int32)
    requires number < 0x100_0000
    requires m.rsp == 8 * s && 16 <= s && s + 5 <= m.mem.Length == |after| < X86.ADDRESSABLE_CELLS
    requires |afterError| == m.mem.Length
    modifies m, m.mem, errs
    ensures var run := Stubs.RunStub(k, old(m.State()), old(m.mem[s + 1..s + 5]), number, world);
            && (run.Crash? ==> trapped)
            && (!run.Crash? ==>
                && !trapped && m.rip == old(m.mem[s]) && m.rsp == old(m.rsp) + 8
                && world' == run.world
                && errno == (if run.Failure? then run.error else 0)
                && m.rax == (if run.Failure? then MAX_WORD else run.rax))
  {
    ghost var before := m.mem[..];
    assert before[s + 1..s + 5] == m.mem[s + 1..s + 5];
    errs.SetCerror(thread, 0);
    trapped, world' := Stubs.SyscallStub(k, m, errs, thread, number, s, sites, world, after, afterError);
    errno := errs.GetCerror(thread);
  }

  /** A call of a number without a handler, through its own stub or through syscall(): the
      errno is ENOSYS, -1 is returned and the world is as it was. */
  method UnknownThenGetCerror<W>(
      k: Emulation<W>, m: X86.Machine, errs: ThreadErrors.Errnos, thread: ThreadErrors.Thread,
      number: nat, ghost s: nat, sites: (Word, Word), world: W, after: seq<Word>, afterError: seq<Word>)
    returns (trapped: bool, world': W, errno: Int32)
    requires number < 0x100_0000
    requires m.rsp == 8 * s && 16 <= s && s + 5 <= m.mem.Length == |after| < X86.ADDRESSABLE_CELLS
    requires |afterError| == m.mem.Length
    requires var n := SystemCalls.Requested(m.State(), number); n < 0 || n >= 600 || k.table[n].Unset?
    modifies m, m.mem, errs
    ensures !trapped && errno == k.enosys && ToInt64(m.rax) == -1 && world' == world
    ensures m.rip == old(m.mem[s]) && m.rsp == old(m.rsp) + 8
  {
    ghost var c, stack := m.State(), m.mem[s + 1..s + 5];
    trapped, world', errno := CallThenGetCerror(k, m, errs, thread, number, s, sites, world, after, afterError);
    SystemCalls.UnimplementedFails(k, c, stack, number, world);
  }

  /** A stub's call on the machine is a step of its thread in ThreadRuns, or, when it fails,
      that step and cerror's: the world and the stored errnos are those the steps lead to. */
  method CallRefinesSteps<W>(
      k: Emulation<W>, m: X86.Machine, errs: ThreadErrors.Errnos, ghost state: ThreadRuns.State<W>,
      thread: ThreadErrors.Thread, number: nat, ghost s: nat, sites: (Word, Word), world: W,
      after: seq<Word>, afterError: seq<Word>)
    returns (trapped: bool, world': W)
    requires number < 0x100_0000
    requires m.rsp == 8 * s && 16 <= s && s + 5 <= m.mem.Length == |after| < X86.ADDRESSABLE_CELLS
    requires |afterError| == m.mem.Length
    requires state.world == world && state.errnos == errs.stored && thread !in state.pending
    modifies m, m.mem, errs
    ensures var c, stack := old(m.State()), old(m.mem[s + 1..s + 5]);
            var call := ThreadRuns.CallStub(thread, c, stack, number);
            match Stubs.RunStub(k, c, stack, number, world)
            case Crash => trapped && ThreadRuns.Run(k, state, [call]) == ThreadRuns.Stuck
            case Success(_, _, _, _) =>
              !trapped && ThreadRuns.Run(k, state, [call])
                          == ThreadRuns.At(ThreadRuns.State(world', errs.stored, state.pending))
            case Failure(_, _) =>
              !trapped && ThreadRuns.Run(k, state, [call, ThreadRuns.StoreError(thread)])
                          == ThreadRuns.At(ThreadRuns.State(world', errs.stored, state.pending))
  {
    ghost var c, stack := m.State(), m.mem[s + 1..s + 5];
    ghost var call := ThreadRuns.CallStub(thread, c, stack, number);
    trapped, world' := Stubs.SyscallStub(k, m, errs, thread, number, s, sites, world, after, afterError);
    ThreadRuns.CallSteps(k, state, call);
  }

  /** The same for write. One that succeeds returns the host's count and leaves the errno 0.
      After a failed one the errno is the expected number exactly on the Apple build; on Linux
      it is the negative of it, or still 0, and then the write returned 0 as well. */
  method WriteThenGetCerror<W>(
      p: Platform, host: HostCalls<W>, enosys: Errno, m: X86.Machine, errs: ThreadErrors.Errnos,
      thread: ThreadErrors.Thread, ghost s: nat, sites: (Word, Word), world: W, after: seq<Word>,
      afterError: seq<Word>)
    returns (trapped: bool, world': W, errno: Int32)
    requires m.rsp == 8 * s && 16 <= s && s + 5 <= m.mem.Length == |after| < X86.ADDRESSABLE_CELLS
    requires |afterError| == m.mem.Length
    modifies m, m.mem, errs
    ensures !trapped && m.rip == old(m.mem[s]) && m.rsp == old(m.rsp) + 8
    ensures var c := old(m.State());
            var r := HostWrite(host, c, world);
            && world' == r.world
            && (r.ret >= 0 ==> errno == 0 && ToInt64(m.rax) == r.ret)
            && (IsHostFailure(p, r.ret) ==>
                var expected := ExpectedErrno(p, host, c, world);
                && (errno == expected <==> p.Apple?)
                && (p.Linux? ==> (errno == -expected && ToInt64(m.rax) == -1) || (errno == 0 && m.rax == 0)))
  {
    ghost var c, stack := m.State(), m.mem[s + 1..s + 5];
    trapped, world', errno := CallThenGetCerror(Installed(p, host, enosys), m, errs, thread,
                                                SyscallNumbers.SYS_WRITE, s, sites, world, after, afterError);
    WriteSeen(p, host, enosys, c, stack, world);
    ErrnoSeen(p, host, enosys, c, stack, world);
  }

  lemma ErrnoSeen<W>(p: Platform, host: HostCalls<W>, enosys: Errno, c: X86.Cpu, stack: Dispatch.StackArgs, world: W)
    requires c.rsp >= 24
    ensures var run, expected := Write(p, host, enosys, c, stack, world), ExpectedErrno(p, host, c, world);
            IsHostFailure(p, HostWrite(host, c, world).ret) ==>
              && expected > 0
              && (p.Apple? ==> run.Failure? && run.error == expected)
              && (p.Linux? && run.Failure? ==> run.error == -expected)
  {
    if IsHostFailure(p, HostWrite(host, c, world).ret) {
      WriteReportsExpectedErrno(p, host, enosys, c, stack, world);
    }
  }

  /** A result with which the host reports a failure. */
  predicate IsHostFailure(p: Platform, ret: Int64) {
    if p.Linux? then IsLinuxError(ret) else ret < 0
  }

  /** The run of the write stub, as far as such a program can tell. */
  lemma WriteSeen<W>(p: Platform, host: HostCalls<W>, enosys: Errno, c: X86.Cpu, stack: Dispatch.StackArgs, world: W)
    requires c.rsp >= 24
    ensures var r, run := HostWrite(host, c, world), Write(p, host, enosys, c, stack, world);
            && !run.Crash? && run.world == r.world
            && if r.ret >= 0 then run.Success? && ToInt64(run.rax) == r.ret
               else run.Success? ==> run.rax == 0
  {
    if HostWrite(host, c, world).ret >= 0 {
      WriteReturnsCount(p, host, enosys, c, stack, world);
    } else {
      FailedWrite(p, host, enosys, c, stack, world);
    }
  }

  /** pipe(fildes). When the host's pipe succeeds, 0 is returned, the two ints at fildes are
      the host's descriptors and the errno is untouched. When it fails, -1 is returned and the
      errno is the handler's error; but an error that the bridge takes for one of its own
      leaves 0, two zeros at fildes and the errno as it was. */
  method PipeThenArray<W>(
      p: Platform, host: HostCalls<W>, enosys: Errno, m: X86.Machine, errs: ThreadErrors.Errnos,
      thread: ThreadErrors.Thread, ghost s: nat, sites: (Word, Word), world: W, after: seq<Word>,
      afterError: seq<Word>)
    returns (trapped: bool, world': W)
    requires m.rsp == 8 * s && 16 <= s && s + 5 <= m.mem.Length == |after| < X86.ADDRESSABLE_CELLS
    requires |afterError| == m.mem.Length
    requires PipeStub.PairAddress(m.mem[..], m.rdi, s)
    modifies m, m.mem, errs
    ensures !trapped && m.rip == old(m.mem[s]) && m.rsp == old(m.rsp) + 8
    ensures var r, fildes := host.pipe(world), old(m.rdi);
            var failed, error := ToInt32(r.ret) < 0, HostError(p, ToInt32(r.ret), r.errno);
            && world' == r.world
            && if failed && Dispatch.IsFailure(error) then
                 ToInt64(m.rax) == -1 && errs.stored == old(errs.stored)[thread := error]
               else
                 && m.rax == 0 && errs.stored == old(errs.stored)
                 && PairAt(m.mem[..], fildes) == if failed then (0, 0) else (r.fd0, r.fd1)
  {
    ghost var c, before := m.State(), m.mem[..];
    ghost var stack := before[s + 1..s + 5];
    ghost var returned;
    trapped, world', returned := PipeStub.DarlingPipe(Installed(p, host, enosys), m, errs, thread, s,
                                                      sites, world, after, afterError);
    PipeSeen(p, host, enosys, c, stack, world);
    if m.rax == 0 {
      PipeArray(p, host, enosys, c, stack, world, returned);
    }
  }

  lemma PipeSeen<W>(p: Platform, host: HostCalls<W>, enosys: Errno, c: X86.Cpu, stack: Dispatch.StackArgs, world: W)
    requires c.rsp >= 24
    ensures var r := host.pipe(world);
            var failed, error := ToInt32(r.ret) < 0, HostError(p, ToInt32(r.ret), r.errno);
            var run := Stubs.RunStub(Installed(p, host, enosys), c, stack, SyscallNumbers.SYS_PIPE, world);
            && !run.Crash? && run.world == r.world
            && (run.Failure? <==> failed && Dispatch.IsFailure(error))
            && (run.Failure? ==> run.error == error)
  {
    PipeOutcome(p, host, enosys, c, stack, world);
  }
}
