/** recvfrom end to end, called by its own stub or through syscall(29, ...): what its caller
    sees, for every answer of the host, and what differs from the host's call. */
module RecvfromCalls {
  import opened Words
  import opened SyscallTypes
  import opened Dispatch
  import opened Stubs
  import opened SystemCalls
  import ErrnoConversion
  import opened SocketAddresses
  import opened Handlers
  import AddressRoundTrips
  import Bits
  import InstalledCalls
  import MessageFlags
  import SyscallNumbers
  import X86

  /** How recvfrom is called: by which stub, in what state, and for syscall() by what number. */
  datatype Caller = Caller(indirect: bool, tag: Word, c: X86.Cpu, stack: StackArgs)

  /** The six arguments lie where the ABI puts them; the indirect call takes the last of them
      from the stack. */
  predicate Passes(f: Caller, args: seq<Word>) {
    && |args| == 6 && f.c.rsp >= 24
    && if f.indirect then ToInt32(f.tag) == 29 && [f.tag] + args <= CallArgs(f.c, f.stack)
       else args <= CallArgs(f.c, f.stack)
  }

  /** That is, in these registers, and, for the indirect call, in the first stack word. */
  lemma ArgsInRegisters(f: Caller, args: seq<Word>)
    requires Passes(f, args)
    ensures args == if f.indirect then [f.c.rsi, f.c.rdx, f.c.rcx, f.c.r8, f.c.r9, f.stack[0]]
                    else [f.c.rdi, f.c.rsi, f.c.rdx, f.c.rcx, f.c.r8, f.c.r9]
  {
    var list := CallArgs(f.c, f.stack);
    if f.indirect {
      assert args == ([f.tag] + args)[1..] == list[1..7];
    } else {
      assert args == list[..6];
    }
  }

  function Number(f: Caller): (n: nat)
    ensures n < 0x100_0000
  {
    if f.indirect then SyscallNumbers.SYS_SYSCALL else SyscallNumbers.SYS_RECVFROM
  }

  function Recvfrom<W>(p: Platform, host: HostCalls<W>, enosys: Errno, f: Caller, world: W): StubRun<W>
    requires f.c.rsp >= 24
  {
    RunStub(Installed(p, host, enosys), f.c, f.stack, Number(f), world)
  }

  lemma RecvfromDispatch<W>(p: Platform, host: HostCalls<W>, enosys: Errno, f: Caller, args: seq<Word>, world: W)
    requires Passes(f, args)
    ensures var h := RecvfromResult(p, host, args, world);
            Call(Installed(p, host, enosys), f.c, f.stack, Number(f), world)
            == Dispatched(h.error, Unix(h.resultType, h.result0, h.result1), h.world)
  {
    var k, n := Installed(p, host, enosys), SyscallNumbers.SYS_RECVFROM;
    assert k.table[n] == InstalledEntry(p, host, enosys, n);
    if f.indirect {
      IndirectArgs(f.c, f.stack, f.tag, args);
    } else {
      DirectArgs(f.c, f.stack, n, args);
    }
  }

  // --------------------------------------------------------------------- the outcome

  /** The sender's address cannot be translated: vchroot refuses its path, or, for another
      family, the host left a negative length. */
  predicate SenderRefused<W>(p: Platform, host: HostCalls<W>, args: seq<Word>, world: W) {
    && p.Linux? && Arg(args, 4) != 0
    && var (address, length) := Sender(host, args, world);
       if AddressRoundTrips.IsLocalLinux(p.translation, address)
       then p.translation.unexpand(CString(address[2..])).0 < 0
       else length < 0
  }

  /** The sender's address as the call rewrites it, on Linux. */
  function Sent<W>(p: Platform, host: HostCalls<W>, args: seq<Word>, world: W): Fixed {
    var (address, length) := Sender(host, args, world);
    if p.Linux? then FromLinux(p.translation, address, length) else Fixed(length, address)
  }

  lemma SentIsBsdForm<W>(p: Platform, host: HostCalls<W>, args: seq<Word>, world: W)
    requires p.Linux?
    ensures var (address, length) := Sender(host, args, world);
            AddressRoundTrips.BsdForm(p.translation, address, length, Sent(p, host, args, world))
    ensures Arg(args, 4) != 0 ==>
              (SenderRefused(p, host, args, world) <==> Sent(p, host, args, world).ret < 0)
  {
    var (address, length) := Sender(host, args, world);
    AddressRoundTrips.RewriteGivesBsdForm(p.translation, address, length);
    AddressRoundTrips.RewriteFailsIff(p.translation, address, length);
  }

  /** The outcome of recvfrom, with the final world. A result taken for a failure is reported
      with its error, or, when that is one of the bridge's two sentinels, as a success with 0.
      Any other gives the count as an int; but on Linux, for a caller that asked for the
      sender, its address and length are rewritten in place first, and if it is refused the
      negative length takes the place of the count, with the carry flag clear. */
  lemma RecvfromOutcome<W>(p: Platform, host: HostCalls<W>, enosys: Errno, f: Caller, args: seq<Word>, world: W)
    requires Passes(f, args)
    ensures var r := host.recvfrom(ToInt32(args[0]), args[1], args[2], ToInt32(args[3]), args[4], args[5], world);
            var error := HostError(p, ToInt32(r.ret), r.errno);
            match Recvfrom(p, host, enosys, f, world)
            case Crash => false
            case Failure(e, w) => TakenForFailure(p, r.ret) && IsFailure(error) && e == error && w == r.world
            case Success(rax, rdx, _, w) =>
              && rdx == 0
              && if TakenForFailure(p, r.ret) then
                   !IsFailure(error) && rax == 0 && w == r.world
                 else if p.Linux? && args[4] != 0 then
                   var (address, length) := host.loadAddress(args[4], args[5], r.world);
                   var sent := FromLinux(p.translation, address, length);
                   && AddressRoundTrips.BsdForm(p.translation, address, length, sent)
                   && w == host.storeAddress(args[4], args[5], sent.address, sent.ret, r.world)
                   && (SenderRefused(p, host, args, world) <==> sent.ret < 0)
                   && ToInt64(rax) == if sent.ret < 0 then sent.ret else ToInt32(r.ret)
                 else
                   ToInt64(rax) == ToInt32(r.ret) && w == r.world
  {
    var h := RecvfromResult(p, host, args, world);
    RecvfromDispatch(p, host, enosys, f, args, world);
    InstalledCalls.IntOutcome(Installed(p, host, enosys), f.c, f.stack, Number(f), world, h);
    WordRoundTrip(h.result0);
    if p.Linux? {
      SentIsBsdForm(p, host, args, world);
    }
  }

  /** The sender of an IPv4 datagram, Linux family 2: the caller gets the count, and at its
      `from` the host's number for the family, the length in front of it, and the port and
      address bytes unchanged. */
  lemma InternetSender<W>(p: Platform, host: HostCalls<W>, enosys: Errno, f: Caller, args: seq<Word>, world: W)
    requires Passes(f, args) && p.Linux? && args[4] != 0
    requires !TakenForFailure(p, HostRecvfrom(host, args, world).ret)
    requires var (address, length) := host.loadAddress(args[4], args[5], HostRecvfrom(host, args, world).world);
             address[0] == 2 && address[1] == 0 && length >= 0
    ensures var r := host.recvfrom(ToInt32(args[0]), args[1], args[2], ToInt32(args[3]), args[4], args[5], world);
            var (address, length) := host.loadAddress(args[4], args[5], r.world);
            var run := Recvfrom(p, host, enosys, f, world);
            && run.Success? && ToInt64(run.rax) == ToInt32(r.ret)
            && run.world == host.storeAddress(args[4], args[5],
                                              [length % 0x100, p.translation.pf.inet] + address[2..],
                                              length, r.world)
  {
    var (address, length) := Sender(host, args, world);
    RecvfromOutcome(p, host, enosys, f, args, world);
    AddressRoundTrips.FamilyByteToBsd(p.translation, address, length);
    AddressRoundTrips.ThereIsHeaded(p.translation, address, length);
  }

  /** The result is outside what the handler's int can tell from an error: its low half has
      the sign bit. For a real count, at least 2^31 bytes. */
  predicate LooksNegative(ret: Int64) {
    Low32(ret) >= 0x8000_0000
  }

  /** A call that is not taken for a failure succeeds; its count is negative exactly when the
      sender is refused, or on the Apple build when the host's count looks negative as an int. */
  lemma NegativeCountIff<W>(p: Platform, host: HostCalls<W>, enosys: Errno, f: Caller, args: seq<Word>, world: W)
    requires Passes(f, args) && !TakenForFailure(p, HostRecvfrom(host, args, world).ret)
    ensures var run := Recvfrom(p, host, enosys, f, world);
            run.Success? &&
            (ToInt64(run.rax) < 0 <==>
              || SenderRefused(p, host, args, world)
              || (p.Apple? && LooksNegative(HostRecvfrom(host, args, world).ret)))
  {
    RecvfromOutcome(p, host, enosys, f, args, world);
  }

  /** When vchroot refuses the sender's path, the count is vchroot's error as the host numbers
      it, and the stored path is the one that was refused. */
  lemma RefusedPathCount<W>(p: Platform, host: HostCalls<W>, enosys: Errno, f: Caller, args: seq<Word>, world: W)
    requires Passes(f, args) && Rewrites(p, host, args, world)
    requires AddressRoundTrips.IsLocalLinux(p.translation, Sender(host, args, world).0)
    requires p.translation.unexpand(CString(Sender(host, args, world).0[2..])).0 < 0
    ensures var run, sent := Recvfrom(p, host, enosys, f, world), Sent(p, host, args, world);
            var address := Sender(host, args, world).0;
            var refusal := p.translation.unexpand(CString(address[2..])).0;
            && run.Success? && sent.address[2..] == address[2..]
            && ToInt64(run.rax) == sent.ret
               == ErrnoConversion.ErrnoLinuxToBsd(p.translation.errnos, refusal) < 0
            && run.world == host.storeAddress(args[4], args[5], sent.address, sent.ret,
                                              HostRecvfrom(host, args, world).world)
  {
    RecvfromOutcome(p, host, enosys, f, args, world);
    SentIsBsdForm(p, host, args, world);
  }

  /** A call not taken for a failure returns the host's count exactly when no sender is refused and the count
      fits an int. */
  lemma CountArrivesIff<W>(p: Platform, host: HostCalls<W>, enosys: Errno, f: Caller, args: seq<Word>, world: W)
    requires Passes(f, args) && !TakenForFailure(p, HostRecvfrom(host, args, world).ret)
    requires HostRecvfrom(host, args, world).ret >= 0
    ensures var run, count := Recvfrom(p, host, enosys, f, world), HostRecvfrom(host, args, world).ret;
            run.Success? &&
            (ToInt64(run.rax) == count <==> !SenderRefused(p, host, args, world) && count < 0x8000_0000)
  {
    RecvfromOutcome(p, host, enosys, f, args, world);
    NarrowExactIff(HostRecvfrom(host, args, world).ret);
  }

  lemma NarrowExactIff(count: Int64)
    requires count >= 0
    ensures ToInt32(count) == count <==> count < 0x8000_0000
  {
  }

  /** Converted to the host's numbers, a raw result is not one of the bridge's sentinels. */
  predicate NoSentinel(p: Platform, ret: Int64) {
    p.Linux? ==> ErrnoConversion.ErrnoLinuxToBsd(p.translation.errnos, ToInt32(ret)) !in {ERESTART, EJUSTRETURN}
  }

  /** Exactly which results of the host's call are reported as failures. */
  lemma FailureIff<W>(p: Platform, host: HostCalls<W>, enosys: Errno, f: Caller, args: seq<Word>, world: W)
    requires Passes(f, args)
    ensures var r := HostRecvfrom(host, args, world);
            Recvfrom(p, host, enosys, f, world).Failure?
            <==> if p.Linux? then LooksNegative(r.ret) && NoSentinel(p, r.ret) else r.ret < 0
  {
    var ret := HostRecvfrom(host, args, world).ret;
    RecvfromOutcome(p, host, enosys, f, args, world);
    if p.Linux? {
      ErrnoConversion.ConversionKeepsSign(p.translation.errnos, ToInt32(ret));
    }
  }

  /** A failure is reported exactly when the host's call failed: always on the Apple build;
      on Linux if the raw result is an int and no sentinel, and beyond the ints if it either
      keeps its sign when narrowed or becomes a sentinel. */
  lemma FailsWithHostIff<W>(p: Platform, host: HostCalls<W>, enosys: Errno, f: Caller, args: seq<Word>, world: W)
    requires Passes(f, args)
    ensures var ret := HostRecvfrom(host, args, world).ret;
            (Recvfrom(p, host, enosys, f, world).Failure? <==> ret < 0)
            <==> || p.Apple?
                 || (if ret < 0 then LooksNegative(ret) && NoSentinel(p, ret)
                     else LooksNegative(ret) ==> !NoSentinel(p, ret))
  {
    FailureIff(p, host, enosys, f, args, world);
  }

  /** With vchroot as it stands, no sender is refused whose length the kernel reported. */
  lemma IdentityRefusesNoSender<W>(p: Platform, host: HostCalls<W>, args: seq<Word>, world: W)
    requires p.Linux? ==> AddressRoundTrips.IdentityVchroot(p.translation)
    requires Sender(host, args, world).1 >= 0
    ensures !SenderRefused(p, host, args, world)
  {
    if p.Linux? {
      var path := CString(Sender(host, args, world).0[2..]);
      assert p.translation.unexpand(path) == (0, path);
    }
  }

  // ----------------------------------------------------------------------- the flags

  /** The same host, behind a recvfrom that translates the flags it is given. */
  function TranslatingHost<W>(host: HostCalls<W>): HostCalls<W> {
    host.(recvfrom := (fd: Int32, buf: Word, len: Word, flags: Int32, from: Word, socklen: Word, w: W) =>
            host.recvfrom(fd, buf, len, TranslatedFlags(flags), from, socklen, w))
  }

  /** linux_flags = msgflags_bsd_to_linux(flags). */
  function TranslatedFlags(flags: Int32): Int32 {
    ToInt32(MessageFlags.Translate(MessageFlags.BSD_TO_LINUX, Low32(flags)))
  }

  lemma NarrowKeepsLow(x: int)
    ensures Low32(ToInt32(x)) == Low32(x)
  {
  }

  /** The translation is an int for any flags: bits above Linux's MSG_WAITALL are not set. */
  lemma TranslationSmall(flags: nat)
    ensures MessageFlags.Translate(MessageFlags.BSD_TO_LINUX, flags) <= 0x1FF
  {
    var there := MessageFlags.Translate(MessageFlags.BSD_TO_LINUX, flags);
    forall k: nat
      ensures Bits.Has(there, k) <==> Bits.Has(BitAnd(there, 0x1FF), k)
    {
      MessageFlags.LinuxBits(flags, k);
      Bits.HasAnd(there, 0x1FF, k);
      if k < 9 {
        NineOnes(k);
      }
    }
    Bits.SameBits(there, BitAnd(there, 0x1FF));
  }

  lemma NineOnes(k: nat)
    requires k < 9
    ensures Bits.Has(0x1FF, k)
  {
    assert Bits.Has(0x1FF, 0) && Bits.Has(0x1FF, 1) && Bits.Has(0x1FF, 2) && Bits.Has(0x1FF, 3);
    assert Bits.Has(0x1FF, 4) && Bits.Has(0x1FF, 5) && Bits.Has(0x1FF, 6) && Bits.Has(0x1FF, 7);
    assert Bits.Has(0x1FF, 8);
  }

  /** The ints that the translation leaves alone. */
  lemma FlagsUntranslatedIff(flags: Word)
    ensures TranslatedFlags(ToInt32(flags)) == ToInt32(flags) <==> Low32(flags) < 8
  {
    var low := Low32(flags);
    var there := MessageFlags.Translate(MessageFlags.BSD_TO_LINUX, low);
    NarrowKeepsLow(flags);
    TranslationSmall(low);
    MessageFlags.TranslationIsIdentityIff(low);
    assert there == low <==> ToInt32(there) == ToInt32(flags);
  }

  /** A host whose world becomes the flags of the last recvfrom. */
  const FLAGS_ECHO: HostCalls<int> :=
    HostCalls((_, _, _, w) => HostResult(0, 1, w), w => HostPipe(0, 1, 3, 4, w),
              (_, _, _, flags, _, _, _) => HostResult(0, 1, flags),
              (_, _, _) => (seq(ADDRESS_SIZE, _ => 0), 0), (_, _, _, _, w) => w)

  /** recvfrom hands its flags to Linux as they came. On any host that is the same as handing
      over the translated ones exactly when no flag but OOB, PEEK and DONTROUTE is set. */
  lemma FlagsRightIff(p: Platform, args: seq<Word>, world: int)
    requires p.Linux?
    ensures (forall host: HostCalls<int> ::
               RecvfromResult(p, host, args, world) == RecvfromResult(p, TranslatingHost(host), args, world))
            <==> Low32(Arg(args, 3)) < 8
  {
    var flags := Arg(args, 3);
    FlagsUntranslatedIff(flags);
    if Low32(flags) < 8 {
      forall host: HostCalls<int>
        ensures RecvfromResult(p, host, args, world) == RecvfromResult(p, TranslatingHost(host), args, world)
      {
        SmallFlagsRight(p, host, args, world);
      }
    } else {
      EchoTellsFlags(p, args, world);
      assert RecvfromResult(p, FLAGS_ECHO, args, world).world
             != RecvfromResult(p, TranslatingHost(FLAGS_ECHO), args, world).world;
    }
  }

  /** In any world, such flags make no difference. */
  lemma SmallFlagsRight<W>(p: Platform, host: HostCalls<W>, args: seq<Word>, world: W)
    requires Low32(Arg(args, 3)) < 8
    ensures RecvfromResult(p, host, args, world) == RecvfromResult(p, TranslatingHost(host), args, world)
  {
    FlagsUntranslatedIff(Arg(args, 3));
    assert HostRecvfrom(TranslatingHost(host), args, world) == HostRecvfrom(host, args, world);
  }

  lemma EchoTellsFlags(p: Platform, args: seq<Word>, world: int)
    ensures RecvfromResult(p, FLAGS_ECHO, args, world).world == ToInt32(Arg(args, 3))
    ensures RecvfromResult(p, TranslatingHost(FLAGS_ECHO), args, world).world
            == TranslatedFlags(ToInt32(Arg(args, 3)))
  {
  }

  /** A program on that host sees its own flags, and by them whether its recvfrom is the one
      it meant. */
  lemma FlagsSeenThroughStub(p: Platform, enosys: Errno, f: Caller, args: seq<Word>, world: int)
    requires Passes(f, args)
    ensures var run := Recvfrom(p, FLAGS_ECHO, enosys, f, world);
            var meant := Recvfrom(p, TranslatingHost(FLAGS_ECHO), enosys, f, world);
            && run.Success? && meant.Success? && run.world == ToInt32(args[3])
            && (run.world == meant.world <==> Low32(args[3]) < 8)
  {
    FlagsUntranslatedIff(args[3]);
    QuietHostKeepsWorld(p, FLAGS_ECHO, enosys, f, args, world);
    QuietHostKeepsWorld(p, TranslatingHost(FLAGS_ECHO), enosys, f, args, world);
  }

  lemma QuietHostKeepsWorld(p: Platform, host: HostCalls<int>, enosys: Errno, f: Caller, args: seq<Word>, world: int)
    requires Passes(f, args) && HostRecvfrom(host, args, world).ret == 0
    requires forall from, socklen, address, length, w :: host.storeAddress(from, socklen, address, length, w) == w
    ensures var run := Recvfrom(p, host, enosys, f, world);
            run.Success? && run.world == HostRecvfrom(host, args, world).world
  {
    var w, sent := HostRecvfrom(host, args, world).world, Sent(p, host, args, world);
    assert host.storeAddress(args[4], args[5], sent.address, sent.ret, w) == w;
    RecvfromOutcome(p, host, enosys, f, args, world);
  }
}
