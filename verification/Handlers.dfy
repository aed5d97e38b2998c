/** The handlers the UNIX table installs. The host's own calls, and the user memory that
    recvfrom rewrites, are parameters. */
module Handlers {
  import opened Words
  import opened SyscallTypes
  import ErrnoConversion
  import AddressRoundTrips
  import SocketAddresses
  import SyscallNumbers

  /** The two builds: for Linux, with the translations it needs, or for Apple's system. */
  datatype Platform = Linux(translation: SocketAddresses.Host) | Apple

  datatype HostResult<W> = HostResult(ret: Int64, errno: Errno, world: W)

  datatype HostPipe<W> = HostPipe(ret: Int64, errno: Errno, fd0: Int32, fd1: Int32, world: W)

  datatype HostCalls<!W> = HostCalls(
    write: (Int32, Word, Int32, W) -> HostResult<W>,
    pipe: W -> HostPipe<W>,
    recvfrom: (Int32, Word, Word, Int32, Word, Word, W) -> HostResult<W>,
    // The address at `from` and the int at `socklen`, read and written.
    loadAddress: (Word, Word, W) -> (SocketAddresses.Address, Int32),
    storeAddress: (Word, Word, SocketAddresses.Address, Int32, W) -> W)

  /** An element of args->arg; those beyond the table's count are not used. */
  function Arg(args: seq<Word>, i: nat): Word {
    if i < |args| then args[i] else 0
  }

  /** A failed host call's error: the converted raw result, or the host's errno. */
  function HostError(p: Platform, code: Int32, errno: Errno): Int32 {
    if p.Linux? then ErrnoConversion.ErrnoLinuxToBsd(p.translation.errnos, code) else errno
  }

  // ------------------------------------------------------ what each handler returns

  function WriteResult<W>(p: Platform, host: HostCalls<W>, args: seq<Word>, world: W): HandlerResult<W> {
    var r := host.write(ToInt32(Arg(args, 0)), Arg(args, 1), ToInt32(Arg(args, 2)), world);
    if r.ret < 0 then
      HandlerResult(HostError(p, ToInt32(r.ret), r.errno), SSIZE_T, 0, 0, r.world)
    else
      HandlerResult(0, SSIZE_T, ToInt32(ToWord(r.ret)), ToInt32(ToWord(r.ret) / 0x1_0000_0000), r.world)
  }

  function PipeResult<W>(p: Platform, host: HostCalls<W>, world: W): HandlerResult<W> {
    var r := host.pipe(world);
    if ToInt32(r.ret) < 0 then
      HandlerResult(HostError(p, ToInt32(r.ret), r.errno), INT_T, 0, 0, r.world)
    else
      HandlerResult(0, INT_T, r.fd0, r.fd1, r.world)
  }

  /** recvfrom's own test for failure: on Linux the result is narrowed to int before. */
  predicate TakenForFailure(p: Platform, ret: Int64) {
    if p.Linux? then ToInt32(ret) < 0 else ret < 0
  }

  function RecvfromResult<W>(p: Platform, host: HostCalls<W>, args: seq<Word>, world: W): HandlerResult<W> {
    var from, socklen := Arg(args, 4), Arg(args, 5);
    var r := HostRecvfrom(host, args, world);
    if TakenForFailure(p, r.ret) then
      HandlerResult(HostError(p, ToInt32(r.ret), r.errno), INT_T, 0, 0, r.world)
    else if p.Linux? && from != 0 then
      var (address, length) := Sender(host, args, world);
      var fixed := SocketAddresses.FromLinux(p.translation, address, length);
      HandlerResult(0, INT_T, if fixed.ret < 0 then fixed.ret else ToInt32(r.ret), 0,
                    host.storeAddress(from, socklen, fixed.address, fixed.ret, r.world))
    else
      HandlerResult(0, INT_T, ToInt32(r.ret), 0, r.world)
  }

  // -------------------------------------------------------------- the handlers in C

  /** The value of a return-value record and of a handler's own result. */
  function Returned<W>(error: Int32, ret: RetArgs, world: W): HandlerResult<W>
    reads ret
  {
    HandlerResult(error, ret.resultType, ret.result0, ret.result1, world)
  }

  /** A host write that does not fail leaves its 64-bit count in the two ints of the record,
      read together; one that fails leaves them 0 and gives the error. */
  method SysWrite<W>(p: Platform, host: HostCalls<W>, args: seq<Word>, ret: RetArgs, world: W)
    returns (error: Int32, world': W)
    requires ret.result0 == ret.result1 == 0
    modifies ret`resultType, ret`result0, ret`result1
    ensures var r := host.write(ToInt32(Arg(args, 0)), Arg(args, 1), ToInt32(Arg(args, 2)), world);
            && ret.resultType == SSIZE_T && world' == r.world
            && ToInt64(Join(ret.result0, ret.result1)) == (if r.ret >= 0 then r.ret else 0)
            && error == if r.ret >= 0 then 0 else HostError(p, ToInt32(r.ret), r.errno)
    ensures Returned(error, ret, world') == WriteResult(p, host, args, world)
  {
    ret.resultType := SSIZE_T;
    var fd, mem, len := ToInt32(Arg(args, 0)), Arg(args, 1), ToInt32(Arg(args, 2));
    var r := host.write(fd, mem, len, world);
    world' := r.world;
    if r.ret < 0 {
      return HostError(p, ToInt32(r.ret), r.errno), world';
    }
    JoinOfHalves(ToWord(r.ret));
    // The 64-bit store over result[0..1].
    ret.result0, ret.result1 := ToInt32(ToWord(r.ret)), ToInt32(ToWord(r.ret) / 0x1_0000_0000);
    error := 0;
  }

  /** The record holds both descriptors, or zeros beside the error. */
  method SysPipe<W>(p: Platform, host: HostCalls<W>, ret: RetArgs, world: W)
    returns (error: Int32, world': W)
    requires ret.result0 == ret.result1 == 0
    modifies ret`resultType, ret`result0, ret`result1
    ensures var r := host.pipe(world);
            && ret.resultType == INT_T && world' == r.world
            && (ToInt32(r.ret) >= 0 ==>
                error == 0 && [ret.result0, ret.result1] == [r.fd0, r.fd1])
            && (ToInt32(r.ret) < 0 ==>
                error == HostError(p, ToInt32(r.ret), r.errno) && ret.result0 == ret.result1 == 0)
    ensures Returned(error, ret, world') == PipeResult(p, host, world)
  {
    ret.resultType := INT_T;
    var r := host.pipe(world);
    world' := r.world;
    var err := ToInt32(r.ret);
    if err < 0 {
      return HostError(p, err, r.errno), world';
    }
    ret.result0 := r.fd0;
    ret.result1 := r.fd1;
    error := 0;
  }

  /** The host's recvfrom as the handler calls it: with the flags as they came. */
  function HostRecvfrom<W>(host: HostCalls<W>, args: seq<Word>, world: W): HostResult<W> {
    host.recvfrom(ToInt32(Arg(args, 0)), Arg(args, 1), Arg(args, 2), ToInt32(Arg(args, 3)),
                  Arg(args, 4), Arg(args, 5), world)
  }

  /** The sender's address is rewritten: on Linux, after a call that is not taken for a
      failure, if the caller asked for it. */
  predicate Rewrites<W>(p: Platform, host: HostCalls<W>, args: seq<Word>, world: W) {
    p.Linux? && Arg(args, 4) != 0 && !TakenForFailure(p, HostRecvfrom(host, args, world).ret)
  }

  /** The sender's address and its length as the host left them. */
  function Sender<W>(host: HostCalls<W>, args: seq<Word>, world: W): (SocketAddresses.Address, Int32) {
    host.loadAddress(Arg(args, 4), Arg(args, 5), HostRecvfrom(host, args, world).world)
  }

  /** The rewrite, if there is one, stays within memory. */
  predicate SafeSender<W>(p: Platform, host: HostCalls<W>, args: seq<Word>, world: W) {
    Rewrites(p, host, args, world) ==>
      var (address, length) := Sender(host, args, world);
      AddressRoundTrips.SafeToRewrite(p.translation, address, length)
  }

  /** Either the error of the host, or its count with error 0; in the second case the world
      also holds the BSD form of the sender's address and the length of that, and a negative
      length takes the place of the count. */
  method SysRecvfrom<W>(p: Platform, host: HostCalls<W>, args: seq<Word>, ret: RetArgs, world: W)
    returns (error: Int32, world': W, ghost sent: SocketAddresses.Fixed)
    requires ret.result0 == ret.result1 == 0 && SafeSender(p, host, args, world)
    modifies ret`resultType, ret`result0, ret`result1
    ensures var r := host.recvfrom(ToInt32(Arg(args, 0)), Arg(args, 1), Arg(args, 2), ToInt32(Arg(args, 3)),
                                   Arg(args, 4), Arg(args, 5), world);
            && ret.resultType == INT_T && ret.result1 == 0
            && if TakenForFailure(p, r.ret) then
                 error == HostError(p, ToInt32(r.ret), r.errno) && ret.result0 == 0 && world' == r.world
               else if p.Apple? || Arg(args, 4) == 0 then
                 error == 0 && ret.result0 == ToInt32(r.ret) && world' == r.world
               else
                 var (address, length) := host.loadAddress(Arg(args, 4), Arg(args, 5), r.world);
                 && error == 0 && ret.result0 == (if sent.ret < 0 then sent.ret else ToInt32(r.ret))
                 && AddressRoundTrips.BsdForm(p.translation, address, length, sent)
                 && world' == host.storeAddress(Arg(args, 4), Arg(args, 5), sent.address, sent.ret, r.world)
    ensures Returned(error, ret, world') == RecvfromResult(p, host, args, world)
  {
    ret.resultType := INT_T;
    sent := SocketAddresses.Fixed(0, seq(SocketAddresses.ADDRESS_SIZE, _ => 0));
    var fd, buf, len, flags := ToInt32(Arg(args, 0)), Arg(args, 1), Arg(args, 2), ToInt32(Arg(args, 3));
    var from, socklen := Arg(args, 4), Arg(args, 5);
    var r := host.recvfrom(fd, buf, len, flags, from, socklen, world);
    error, world' := 0, r.world;
    if TakenForFailure(p, r.ret) {
      error := HostError(p, ToInt32(r.ret), r.errno);
      return;
    }
    var result := ToInt32(r.ret);
    if p.Linux? && from != 0 {
      var (address, length) := host.loadAddress(from, socklen, world');
      var fixedLength, bytes := RewriteSender(p.translation, address, length);
      sent := SocketAddresses.Fixed(fixedLength, bytes);
      world' := host.storeAddress(from, socklen, bytes, fixedLength, world');
      if fixedLength < 0 {
        result := fixedLength;
      }
    }
    ret.result0 := result;
  }

  /** `sockaddr_fixup_from_linux(fixed, from, *socklen)` where `fixed` is `from`: the rewrite
      in place, which copies the buffer onto itself first. */
  method RewriteSender(h: SocketAddresses.Host, address: SocketAddresses.Address, length: Int32)
    returns (fixedLength: Int32, bytes: SocketAddresses.Address)
    requires AddressRoundTrips.SafeToRewrite(h, address, length)
    ensures AddressRoundTrips.BsdForm(h, address, length, SocketAddresses.Fixed(fixedLength, bytes))
    ensures SocketAddresses.Fixed(fixedLength, bytes) == SocketAddresses.FromLinux(h, address, length)
  {
    var fixed := new Byte[SocketAddresses.ADDRESS_SIZE](i requires 0 <= i < |address| => address[i]);
    assert fixed[..] == address;
    assert address[..length] + fixed[length..] == address;
    fixedLength := SocketAddresses.SockaddrFixupFromLinux(h, fixed, address, length);
    bytes := fixed[..];
    AddressRoundTrips.RewriteGivesBsdForm(h, address, length);
  }

  /** sys_syscall sets no result type. */
  method SysSyscall(enosys: Errno) returns (error: Int32)
    ensures error == enosys
  {
    error := enosys;
  }

  // ------------------------------------------------------------- the installed table

  function InstalledEntry<W>(p: Platform, host: HostCalls<W>, enosys: Errno, n: nat): Entry<W> {
    if n == SyscallNumbers.SYS_SYSCALL then
      Entry((_, _, w) => HandlerResult(enosys, INVALID, 0, 0, w), 0)
    else if n == SyscallNumbers.SYS_WRITE then
      Entry((_, args, w) => WriteResult(p, host, args, w), 3)
    else if n == SyscallNumbers.SYS_RECVFROM then
      Entry((_, args, w) => RecvfromResult(p, host, args, w), 6)
    else if n == SyscallNumbers.SYS_PIPE then
      Entry((_, _, w) => PipeResult(p, host, w), 0)
    else Unset
  }

  function Installed<W>(p: Platform, host: HostCalls<W>, enosys: Errno): Emulation<W> {
    Emulation(seq(UNIX_TABLE_SIZE, (n: nat) => InstalledEntry(p, host, enosys, n)), enosys)
  }

  /** `metadata->func(&builder->args, retargs)` for the installed table: the C handler behind
      each entry computes what the dispatcher's theorems take the entry for. */
  method CallInstalled<W>(p: Platform, host: HostCalls<W>, enosys: Errno, n: nat, args: seq<Word>,
                          ret: RetArgs, world: W)
    returns (error: Int32, world': W)
    requires n < UNIX_TABLE_SIZE && Installed(p, host, enosys).table[n].Entry?
    requires ret.resultType == INVALID && ret.result0 == ret.result1 == 0
    requires n == SyscallNumbers.SYS_RECVFROM ==> SafeSender(p, host, args, world)
    modifies ret`resultType, ret`result0, ret`result1
    ensures Returned(error, ret, world') == Installed(p, host, enosys).table[n].func(n, args, world)
  {
    if n == SyscallNumbers.SYS_SYSCALL {
      error := SysSyscall(enosys);
      world' := world;
    } else if n == SyscallNumbers.SYS_WRITE {
      error, world' := SysWrite(p, host, args, ret, world);
    } else if n == SyscallNumbers.SYS_RECVFROM {
      ghost var sent;
      error, world', sent := SysRecvfrom(p, host, args, ret, world);
    } else {
      error, world' := SysPipe(p, host, ret, world);
    }
  }
}
