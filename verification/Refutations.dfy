/** Concrete inputs on which the code does not do what its tests, or the symmetry of its
    functions, suggest. The exact conditions are in InstalledCalls, RecvfromCalls,
    SystemCalls, AddressRoundTrips and Families. */
module Refutations {
  import opened Words
  import X86
  import opened SyscallTypes
  import opened Stubs
  import opened SystemCalls
  import opened ErrnoConversion
  import opened Families
  import opened Handlers
  import InstalledCalls
  import opened RecvfromCalls
  import opened SocketAddresses
  import AddressRoundTrips
  import Dispatch

  const ENTRY: X86.Cpu := X86.Cpu(0, 1, 0, 5, 0, 0, 0, 0, 0, 0, 0, 4096, 0)
  const NO_STACK_ARGS: Dispatch.StackArgs := [0, 0, 0, 0]

  const LINUX_BUILD: Platform := Linux(Host(DARWIN_FAMILIES, DARWIN, p => (0, p), p => (0, p)))

  const NO_SENDER: Address := seq(ADDRESS_SIZE, _ => 0)

  /** A host on which every write fails with the given Linux error. */
  function FailingHost(error: int): HostCalls<int>
    requires 1 <= error <= 4095
  {
    HostCalls((_, _, _, w) => HostResult(-error, 1, w), w => HostPipe(0, 1, 3, 4, w),
              (_, _, _, _, _, _, w) => HostResult(0, 1, w),
              (_, _, _) => (NO_SENDER, 0), (_, _, _, _, w) => w)
  }

  /** A write that the Linux host refuses with EPERM is a success with 0 bytes written. */
  lemma PermissionErrorIsLost()
    ensures var run := InstalledCalls.Write(LINUX_BUILD, FailingHost(1), 78, ENTRY, NO_STACK_ARGS, 0);
            run.Success? && run.rax == 0
  {
    InstalledCalls.LinuxWriteFailure(LINUX_BUILD, FailingHost(1), 78, ENTRY, NO_STACK_ARGS, 0);
    assert DarwinErrno(1) == 1;
  }

  /** A write to a bad descriptor stores -9 in darling_errno on Linux, where the test of it
      expects 9. */
  lemma BadDescriptorIsNegative()
    ensures var run := InstalledCalls.Write(LINUX_BUILD, FailingHost(9), 78, ENTRY, NO_STACK_ARGS, 0);
            run.Failure? && run.error == -9
  {
    BadDescriptorCode();
    InstalledCalls.LinuxWriteFailure(LINUX_BUILD, FailingHost(9), 78, ENTRY, NO_STACK_ARGS, 0);
  }

  /** A write that would block stores Darwin's EAGAIN, 35, negated: Linux's 11 is translated. */
  lemma WouldBlockIsTranslated()
    ensures var run := InstalledCalls.Write(LINUX_BUILD, FailingHost(11), 78, ENTRY, NO_STACK_ARGS, 0);
            run.Failure? && run.error == -35
  {
    WouldBlockCode();
    InstalledCalls.LinuxWriteFailure(LINUX_BUILD, FailingHost(11), 78, ENTRY, NO_STACK_ARGS, 0);
  }

  lemma WouldBlockCode()
    ensures ErrnoLinuxToBsd(DARWIN, -11) == -35
  {
    ConversionByTable(DARWIN, 11);
    assert DarwinErrno(11) == 35;
  }

  lemma BadDescriptorCode()
    ensures ErrnoLinuxToBsd(DARWIN, -9) == -9
  {
    assert DarwinErrno(9) == 9;
  }

  /** A table whose entry 1 is a handler without a result. */
  const UNTYPED: Emulation<int> :=
    Emulation(seq(UNIX_TABLE_SIZE, n => if n == 1 then Entry((_, _, w) => HandlerResult(0, NONE, 0, 0, w), 0)
                                        else Unset), 78)

  /** Called directly and through syscall(1), it returns different values. */
  lemma UntypedResultsDiffer()
    ensures var d, i := RunStub(UNTYPED, ENTRY, NO_STACK_ARGS, 1, 0), RunStub(UNTYPED, ENTRY, NO_STACK_ARGS, 0, 0);
            d.Success? && i.Success? && d.rax != i.rax
  {
    SameVisibleResult(UNTYPED, 1, 1, [], 0, ENTRY, NO_STACK_ARGS, ENTRY, NO_STACK_ARGS);
    IndirectEqualsDirect(UNTYPED, 1, 1, [], 0, ENTRY, NO_STACK_ARGS, ENTRY, NO_STACK_ARGS);
    StubOutcome(UNTYPED, ENTRY, NO_STACK_ARGS, 1, 0);
  }

  // ------------------------------------------------------------------------ recvfrom

  /** recvfrom(3, 0x1000, 100, MSG_WAITALL, 0x2000, 0x3000) through its own stub. */
  const ARGS: seq<Word> := [3, 0x1000, 100, 0x40, 0x2000, 0x3000]
  const RECEIVER: Caller :=
    Caller(false, 0, X86.Cpu(0, 3, 0x1000, 100, 0x40, 0x2000, 0x3000, 0, 0, 0, 0, 4096, 0), NO_STACK_ARGS)

  lemma ReceiverPasses()
    ensures Passes(RECEIVER, ARGS)
  {
    var list := CallArgs(RECEIVER.c, RECEIVER.stack);
    assert list[..6] == ARGS;
  }

  /** A host on which every recvfrom gives the same result and sender. */
  function ReceivingHost(ret: Int64, sender: Address, length: Int32): HostCalls<int> {
    HostCalls((_, _, _, w) => HostResult(0, 1, w), w => HostPipe(0, 1, 3, 4, w),
              (_, _, _, _, _, _, w) => HostResult(ret, 1, w),
              (_, _, _) => (sender, length), (_, _, _, _, w) => w)
  }

  /** vchroot refuses every path with EACCES. */
  const REFUSING_BUILD: Platform := Linux(Host(DARWIN_FAMILIES, DARWIN, p => (-13, p), p => (-13, p)))

  const LOCAL_SENDER: Address := Headed(LINUX_PF_LOCAL, 0, [0x61] + seq(PATH_SIZE - 1, _ => 0))

  /** Seven bytes arrived, but recvfrom returns -13, as a success. */
  lemma RefusedSenderIsNegativeCount()
    ensures var run := Recvfrom(REFUSING_BUILD, ReceivingHost(7, LOCAL_SENDER, 4), 78, RECEIVER, 0);
            run.Success? && ToInt64(run.rax) == -13
  {
    RefusedSenderCount(ReceivingHost(7, LOCAL_SENDER, 4));
  }

  lemma RefusedSenderCount(host: HostCalls<int>)
    requires HostRecvfrom(host, ARGS, 0).ret == 7 && Sender(host, ARGS, 0).0 == LOCAL_SENDER
    ensures var run := Recvfrom(REFUSING_BUILD, host, 78, RECEIVER, 0);
            run.Success? && ToInt64(run.rax) == -13
  {
    ReceiverPasses();
    AccessDenied();
    RefusedPathCount(REFUSING_BUILD, host, 78, RECEIVER, ARGS, 0);
  }

  lemma AccessDenied()
    ensures ErrnoLinuxToBsd(DARWIN, -13) == -13
    ensures AddressRoundTrips.IsLocalLinux(REFUSING_BUILD.translation, LOCAL_SENDER)
  {
    assert DarwinErrno(13) == 13;
  }

  /** 2^31 bytes received on the Apple build come out as a negative count. */
  lemma HugeCountIsNegativeOnApple()
    ensures var run := Recvfrom(Apple, ReceivingHost(0x8000_0000, NO_SENDER, 0), 78, RECEIVER, 0);
            run.Success? && ToInt64(run.rax) == -0x8000_0000
  {
    HugeCount(ReceivingHost(0x8000_0000, NO_SENDER, 0));
  }

  lemma HugeCount(host: HostCalls<int>)
    requires HostRecvfrom(host, ARGS, 0).ret == 0x8000_0000
    ensures var run := Recvfrom(Apple, host, 78, RECEIVER, 0);
            run.Success? && ToInt64(run.rax) == -0x8000_0000
    ensures var run := Recvfrom(LINUX_BUILD, host, 78, RECEIVER, 0);
            run.Failure? && run.error == INT_MIN
  {
    ReceiverPasses();
    assert ToInt32(0x8000_0000) == INT_MIN;
    ConversionIsOdd(DARWIN, INT_MIN);
    RecvfromOutcome(Apple, host, 78, RECEIVER, ARGS, 0);
    RecvfromOutcome(LINUX_BUILD, host, 78, RECEIVER, ARGS, 0);
  }

  /** On Linux they come out as a failure. */
  lemma HugeCountFailsOnLinux()
    ensures var run := Recvfrom(LINUX_BUILD, ReceivingHost(0x8000_0000, NO_SENDER, 0), 78, RECEIVER, 0);
            run.Failure? && run.error == INT_MIN
  {
    HugeCount(ReceivingHost(0x8000_0000, NO_SENDER, 0));
  }

  /** BSD's MSG_WAITALL, 0x40, reaches the Linux host as it is, where it is another flag. */
  lemma WaitallIsRenumbered()
    ensures var run := Recvfrom(LINUX_BUILD, FLAGS_ECHO, 78, RECEIVER, 0);
            var meant := Recvfrom(LINUX_BUILD, TranslatingHost(FLAGS_ECHO), 78, RECEIVER, 0);
            run.Success? && meant.Success? && run.world == 0x40 && meant.world != 0x40
  {
    ReceiverPasses();
    WaitallOfAnyCaller(LINUX_BUILD, 78, RECEIVER, ARGS, 0);
  }

  lemma WaitallOfAnyCaller(p: Platform, enosys: Errno, f: Caller, args: seq<Word>, world: int)
    requires Passes(f, args) && args[3] == 0x40
    ensures var run := Recvfrom(p, FLAGS_ECHO, enosys, f, world);
            var meant := Recvfrom(p, TranslatingHost(FLAGS_ECHO), enosys, f, world);
            run.Success? && meant.Success? && run.world == 0x40 && meant.world != 0x40
  {
    assert ToInt32(args[3]) == 0x40 && Low32(args[3]) == 0x40;
    FlagsSeenThroughStub(p, enosys, f, args, world);
  }

  // ------------------------------------------------------------------- translations

  const LOCAL_BSD: Address := Headed(106, DARWIN_FAMILIES.local, [0x61] + seq(PATH_SIZE - 1, _ => 0))

  /** A buffer that ends with a NUL and holds none before. */
  const USED_BUFFER: Address := seq(ADDRESS_SIZE - 1, _ => 0x62) + [0]

  /** The path "a" of a local BSD address does not come back from Linux, although the copy on
      the way is terminated: the NUL was not copied. */
  lemma LocalPathGrows()
    ensures var h := LINUX_BUILD.translation;
            var there := FromBsd(h, LOCAL_BSD, 3);
            var second := AddressRoundTrips.Copied(there.address, 3, USED_BUFFER);
            && there.ret == 3 && 0 in second[2..]
            && CString(FromLinux(h, second, there.ret).address[2..]) != CString(LOCAL_BSD[2..]) == [0x61]
  {
    var path := [0x61] + seq(PATH_SIZE - 1, _ => 0);
    CStringIs(path, 1);
    assert LOCAL_BSD[2..] == path && path[..1] == [0x61];
    assert USED_BUFFER[ADDRESS_SIZE - 1] == USED_BUFFER[3..][ADDRESS_SIZE - 4] == 0;
    AddressRoundTrips.LocalBsdRoundTrip(LINUX_BUILD.translation, LOCAL_BSD, 3, USED_BUFFER);
  }

  /** On a Darwin host, Linux family 23 comes back as 4: 23 is Darwin's PF_IPX. */
  lemma UntranslatedFamilyCollides()
    ensures SfamilyBsdToLinux(DARWIN_FAMILIES, SfamilyLinuxToBsd(DARWIN_FAMILIES, 23)) == LINUX_PF_IPX
  {
  }
}
