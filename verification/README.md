# The x86_64 syscall bridge of the Darling syscall rework, modelled and proved

The repository replaces the `syscall` instruction of Apple's libc stubs by a call into user
space. A stub loads a class-tagged number, pushes a frame and calls an assembly bridge. The
bridge pushes thirteen words, twelve of which are a C struct; C code decodes the number,
fetches register and stack arguments, runs a handler from a table and writes the results
back into the pushed words; the bridge pops everything, the stack pointer included; and the
stub branches on the carry flag that came back through `popfq`, to its caller or to `cerror`.

The project models that path as a machine and proves it from the stub's first instruction
to the return to its caller. It then proves what callers can rely on, for every table,
handler, register content and stack, and treats the translations between Linux and BSD
numbers and socket addresses that the handlers use.

How the model is built:

- `Words`, `Bits`: C's integer widths and conversions, and bitwise operators on numbers,
  with the lemmas that turn masks and shifts into arithmetic.
- `X86`: registers and a word-addressed memory (a class with an array). Foreign code is
  `Scramble`: it may leave anything in caller-saved registers, flags and unreserved memory.
- `SyscallNumbers`, `RegisterFrame`, `SyscallTypes`: the layouts of the headers.
- `Dispatch`: the meaning of a call as functions of the saved registers. `CBridge` holds the
  C code as methods working in place, each proved against those functions. `AsmBridge` and
  `Stubs` hold the assembly, `ThreadErrors` the thread-local errno, `PipeStub` the one stub
  with code behind the branch.
- `SystemCalls`, `ThreadRuns`, `InstalledCalls`, `RecvfromCalls`: the main results. A handler
  is any function of the number it is called under, its arguments and a world W.
- `ErrnoConversion`, `Families`, `MessageFlags`, `SocketAddresses`, `AddressRoundTrips`: the
  translation layer. `Handlers`: the installed handlers for both builds.
- `Programs`: what the test programs do, as methods on the machine. `Refutations`: concrete
  inputs for what turned out not to hold.

In the following the code is not what its tests or its own shape suggest; the model follows
the code.

- On a Linux build, handlers return negative errors, so a stub stores a negative number in
  `darling_errno`. test/sys_write/fail_run.c expects 9 for a bad descriptor; the Linux build
  stores -9. A failed write reports the expected number exactly on the Apple build.
- Also on Linux, the negative errors of EPERM and ENOENT are -1 and -2, which the bridge
  takes for ERESTART and EJUSTRETURN: such a write looks like a success with 0 bytes.
- `recvfrom` computes translated flags but passes on the original ones. That makes
  no difference on any host exactly when the flags are below 8.
- `recvfrom` narrows the host's result to an int and puts the negative length of a sender that
  cannot be translated in its place. The caller gets a successful negative count exactly when
  vchroot refuses the path of a local sender, or another sender came with a negative length,
  or, on the Apple build, the count's low half has the sign bit. On Linux a count with that bit
  is taken for an error although the host's call succeeded. With vchroot as it stands in the repository
  and a length from the kernel, no sender is refused.
- `sockaddr_fixup_from_bsd` returns a local address's length without the NUL of its path,
  `sockaddr_fixup_from_linux` with it. A path survives Linux to BSD to Linux; the other way
  round it survives exactly when the buffer it is copied into has a NUL there, or when the
  path is 103 bytes long.
- The direct stub for a number and `syscall(number, ...)` return the same values unless the
  handler's result type is NONE: then each returns its own stub's number.
- A failed `pipe` whose error the bridge takes for ERESTART or EJUSTRETURN returns 0 and leaves
  two zeros in the caller's array.
- Translating a socket family there and back fails for a number that only the other side
  uses for one of the four translated families.

## Model

| member | source | states |
|---|---|---|
| SyscallNumbers.ConstructThenDecode | include/mach/i386/syscall_sw.h:168-199 | every class and number that a stub packs into its 32-bit constant is recovered by the bridge, whatever the upper half of %rax holds |
| SyscallNumbers.UnixNumbersDecode | include/mach/i386/syscall_sw.h:168-199 | the UNIX number n is constructed as 0x2000000 + n, and that decodes to class UNIX and n |
| SyscallNumbers.DecodeByArithmetic | src/libsystem_kernel/emulation/src/xnu_syscall/syscall_cbridge.c:26-61 | the masks and the arithmetic shift give the low 24 bits and the class byte with its sign |
| SyscallNumbers.ClassBytesRecognised | src/libsystem_kernel/emulation/src/xnu_syscall/syscall_cbridge.c:61-79 | the four cases of the switch are class bytes 1 to 4; bytes with the sign bit set go to the default case |
| X86.CarryBitOnly | src/libsystem_kernel/emulation/src/xnu_syscall/syscall_cbridge.c:17-44 | clearing and setting the carry flag by mask changes bit 0 and no other flag |
| RegisterFrame.StoredAt | src/libsystem_kernel/emulation/include/xnu_syscall/syscall_cbridge.h:9-27 | the struct view of memory and the store of a struct are inverse |
| CBridge.PartialArgsInit | src/libsystem_kernel/emulation/src/xnu_syscall/syscall_cbridge.c:88-104 | number and six register arguments are those of the saved frame, the fourth from %r10 |
| CBridge.CopyStackArgs | src/libsystem_kernel/emulation/src/xnu_syscall/syscall_cbridge.c:175-179 | the loop moves consecutive stack words to consecutive slots and writes no other slot |
| CBridge.FullArgsInit | src/libsystem_kernel/emulation/src/xnu_syscall/syscall_cbridge.c:106-181 | traps exactly when the entry has more than nine arguments, direct or indirect; otherwise the handler's arguments are a window of the caller's list, one further on for an indirect call, and the slots behind them are untouched |
| CBridge.CommonSyscallUnix | src/libsystem_kernel/emulation/src/xnu_syscall/syscall.c:12-41 | the range and null checks, the indirect flag and the handler call refine the dispatch that the results on SystemCalls speak of; a handler runs under the very number that indexes the table, on both paths |
| CBridge.DispatchByClass | src/libsystem_kernel/emulation/src/xnu_syscall/syscall_cbridge.c:46-79 | only the UNIX class dispatches; the others return 0 and leave the reply unset |
| CBridge.SetReturnValues | src/libsystem_kernel/emulation/src/xnu_syscall/syscall_cbridge.c:183-216 | error or typed result goes into the saved words and nothing else in memory changes; the only trap is a missing result type |
| CBridge.HandleSyscall | src/libsystem_kernel/emulation/src/xnu_syscall/syscall_cbridge.c:28-84 | the whole C function: memory afterwards is what foreign code left, with the frame's reserved words kept and the results stored in the struct |
| AsmBridge.SaveFrame | src/libsystem_kernel/emulation/src/xnu_syscall/syscall_asmbridge.S:9-24 | the pushes lay the registers out below the return address, and restore the 16-byte stack alignment the ABI demands for the call of C |
| AsmBridge.SavedStruct | src/libsystem_kernel/emulation/src/xnu_syscall/syscall_asmbridge.S:12-27 | the pushed words are, member by member, the C struct, and 32 bytes above the saved stack pointer the caller's stack arguments start |
| AsmBridge.RestoreFrame | src/libsystem_kernel/emulation/src/xnu_syscall/syscall_asmbridge.S:34-49 | the pops deliver each member to its register, and popping %rsp finds the caller's %rbp next |
| AsmBridge.Bridge | src/libsystem_kernel/emulation/src/xnu_syscall/syscall_asmbridge.S:7-50 | the bridge returns to its caller with %rax, %rdx and flags as the dispatch says, every other register as it was, and no memory changed by it but below its return address |
| Dispatch.HandleKeepsRest | src/libsystem_kernel/emulation/src/xnu_syscall/syscall_cbridge.c:183-216 | of the twelve saved words only rax, rdx and rflag ever change |
| Stubs.UnixSyscall | src/libsystem_kernel/libsyscall/bsdsyscalls/SYS.h:135-140 | back in the stub, %rsp and %rbp are the stub's own, the carry flag is the bridge's, %r10 holds %rcx; the stack arguments seen were those right above the stub's return address |
| Stubs.UnixSyscallNoname | src/libsystem_kernel/libsyscall/bsdsyscalls/SYS.h:179-186 | the branch goes to cerror exactly for the failures of RunStub, with their 32-bit error; otherwise errno is untouched |
| Stubs.SyscallStub | src/libsystem_kernel/libsyscall/bsdsyscalls/SYS.h:193-199 | a stub returns to its caller's return address with the result, or all ones after storing the error for its thread |
| Stubs.JumpToCerror | src/libsystem_kernel/libsyscall/custom/errno.c:24-39 | cerror stores the low half of %rdi for the calling thread only and returns 128 one bits in the stub's stead |
| ThreadErrors.Errnos.Cerror | src/libsystem_kernel/libsyscall/custom/errno.c:14-39 | one thread's errno is set, no other |
| PipeStub.DarlingPipe | src/libsystem_kernel/libsyscall/bsdsyscalls/___pipe.S:43-47 | on success both results are stored through the %rdi the caller passed, 0 is returned and the rest of memory is as the handler left it |
| PipeStub.StoreThenLoad | src/libsystem_kernel/libsyscall/bsdsyscalls/___pipe.S:44-45 | a 32-bit store changes the addressed int and no other |
| PipeStub.PipeFillsPair | src/libsystem_kernel/libsyscall/bsdsyscalls/___pipe.S:43-47 | the caller's array holds both descriptors exactly, wherever it lies |
| SystemCalls.CarryMeansFailure | src/libsystem_kernel/emulation/src/xnu_syscall/syscall_cbridge.c:44-190 | carry is set if and only if the class is UNIX and the error is not 0, ERESTART or EJUSTRETURN, whatever it was before; other flags and registers are kept |
| SystemCalls.OtherClassesDoNothing | src/libsystem_kernel/emulation/src/xnu_syscall/syscall_cbridge.c:58-81 | a call of any other class only clears the carry flag |
| SystemCalls.StubOutcome | src/libsystem_kernel/libsyscall/bsdsyscalls/SYS.h:179-186 | a stub fails, succeeds or crashes as the dispatch says, and the 32-bit error survives %rax and %edi |
| SystemCalls.CrashIff | src/libsystem_kernel/emulation/src/xnu_syscall/syscall_cbridge.c:133-214 | exactly when a run reaches one of the two traps |
| SystemCalls.WellBehavedNeverTraps | src/libsystem_kernel/emulation/src/xnu_syscall/syscall_cbridge.c:133-214 | a table of at most nine arguments an entry, whose handlers type their results, traps for no register content |
| SystemCalls.IndirectEqualsDirect | src/libsystem_kernel/emulation/src/xnu_syscall/syscall_cbridge.c:88-181 | syscall(n, a1..aN) and the stub for n, both placed by the System V convention, run the same handler under the same number on exactly a1..aN |
| SystemCalls.UnimplementedFails | src/libsystem_kernel/emulation/src/xnu_syscall/syscall.c:29-36 | a negative number, one from 600 on and one without an entry fail with ENOSYS and leave the world alone, called by a stub of their own or through syscall() |
| SystemCalls.SameVisibleResult | src/libsystem_kernel/emulation/src/xnu_syscall/syscall_cbridge.c:183-216 | and return the same to the caller; %rax differs if and only if the result type is NONE |
| SystemCalls.TaggedIndirectNumberFails | src/libsystem_kernel/emulation/src/xnu_syscall/syscall.c:22-31 | an indirect number with a class byte gives ENOSYS and leaves the world alone |
| SystemCalls.SuccessRegisters | src/libsystem_kernel/emulation/src/xnu_syscall/syscall_cbridge.c:192-214 | what %rax, %rdx and the flags hold after a success, by result type; for NONE the stub's number and the caller's %rdx |
| SystemCalls.WideTransport | src/libsystem_kernel/emulation/src/xnu_syscall/syscall_cbridge.c:202-209 | any signed 64-bit value stored over the two ints comes back whole, with %rdx 0 |
| SystemCalls.IntPairTransport | src/libsystem_kernel/emulation/src/xnu_syscall/syscall_cbridge.c:194-201 | two ints come back, sign-extended or zero-extended by type |
| ThreadRuns.ErrnoIsLatestError | src/libsystem_kernel/libsyscall/custom/errno.c:14-39 | after any interleaving of calls, cerror steps and explicit sets by any threads, a thread's error is that of its own latest failing call or set, stored or on its way to cerror; each call runs in the world its predecessors left |
| ThreadRuns.WorldIsShared | src/libsystem_kernel/emulation/src/xnu_syscall/bsd/impl/unistd/write.c:30-45 | the world after any interleaving is what its calls, in their order and of whichever thread, make of it one after the other |
| ThreadRuns.StepEffect | src/libsystem_kernel/libsyscall/custom/errno.c:14-39 | a call passes on its world and keeps its error for cerror; a store or a set touches the errno of its own thread alone |
| ThreadRuns.OthersLeaveErrnoAlone | src/libsystem_kernel/libsyscall/custom/errno.c:14-22 | no run of other threads' steps changes a thread's errno |
| ErrnoConversion.ConversionIsOdd | src/libsystem_kernel/emulation/src/conversion/errno.c:97-110 | conversion commutes with negation for every int and table, INT_MIN being fixed |
| ErrnoConversion.ConversionByTable | src/libsystem_kernel/emulation/src/conversion/errno.c:97-110 | a code below 512 with an entry becomes that entry, its negative the negative of that; every other code is kept |
| ErrnoConversion.DarwinRanges | src/libsystem_kernel/emulation/src/conversion/errno.c:8-94 | with Darwin's numbers codes up to 34 but EAGAIN are kept, EAGAIN becomes 35, and the socket errors 88 to 111 but EOPNOTSUPP become 50 less |
| ErrnoConversion.ConversionKeepsSign | src/libsystem_kernel/emulation/src/conversion/errno.c:97-110 | only 0 becomes 0, and only a negative code becomes negative |
| ErrnoConversion.DarwinSentinels | src/libsystem_kernel/emulation/src/conversion/errno.c:8-94 | with Darwin's numbers exactly EPERM and ENOENT become the two sentinels |
| Families.FamilyRoundTrip | src/libsystem_kernel/emulation/src/conversion/network/duct.c:5-37 | for any host numbers, on exactly which families the two switches undo each other, both ways round |
| Families.FamilyNumbersMatch | src/libsystem_kernel/emulation/src/conversion/network/duct.c:5-37 | Linux's 1, 2, 4 and 10 are the host's local, inet, ipx and inet6 in both directions, and any other number is kept |
| MessageFlags.MasksOfHeader | src/libsystem_kernel/emulation/include/conversion/network/duct.h:9-36 | the bit numbers used here are the header's masks |
| MessageFlags.MsgflagsBsdToLinux | src/libsystem_kernel/emulation/src/conversion/network/duct.c:39-61 | the accumulating statements compute the table's translation |
| MessageFlags.MsgflagsLinuxToBsd | src/libsystem_kernel/emulation/src/conversion/network/duct.c:63-85 | likewise for the other direction |
| MessageFlags.TranslateAndBack | src/libsystem_kernel/emulation/src/conversion/network/duct.c:39-85 | any one-to-one table of single bits, applied there and back, keeps exactly the bits it knows |
| MessageFlags.TranslateDistributes | src/libsystem_kernel/emulation/src/conversion/network/duct.c:39-85 | translation distributes over bitwise or |
| MessageFlags.LinuxBits | src/libsystem_kernel/emulation/src/conversion/network/duct.c:43-58 | which BSD flag each Linux flag comes from |
| MessageFlags.BsdRoundTrip | src/libsystem_kernel/emulation/src/conversion/network/duct.c:39-85 | BSD to Linux to BSD is `flags & 0xFF` |
| MessageFlags.LinuxRoundTrip | src/libsystem_kernel/emulation/src/conversion/network/duct.c:39-85 | Linux to BSD to Linux is `flags & 0x1EF` |
| MessageFlags.TranslationIsIdentityIff | src/libsystem_kernel/emulation/src/conversion/network/duct.c:39-61 | the translation leaves flags alone exactly when they are below 8 |
| SocketAddresses.SockaddrFixupFromLinux | src/libsystem_kernel/emulation/src/xnu_syscall/bsd/helper/network/duct.c:44-69 | the in-place rewrite of copied bytes, family, path and length, for any previous buffer content |
| SocketAddresses.SockaddrFixupFromBsd | src/libsystem_kernel/emulation/src/xnu_syscall/bsd/helper/network/duct.c:18-42 | likewise towards Linux |
| AddressRoundTrips.LinuxAddressRoundTrip | src/libsystem_kernel/emulation/src/xnu_syscall/bsd/helper/network/duct.c:18-69 | the bytes of a non-local Linux address, copied on into any second buffer, come back from BSD exactly when its family fits a byte and survives the family maps; the rest of that buffer is kept |
| AddressRoundTrips.BsdAddressRoundTrip | src/libsystem_kernel/emulation/src/xnu_syscall/bsd/helper/network/duct.c:18-69 | the bytes of a non-local BSD address, through any second buffer, come back exactly when its length byte was right and its family survives |
| AddressRoundTrips.FamilyByteToBsd | src/libsystem_kernel/emulation/src/xnu_syscall/bsd/helper/network/duct.c:49 | which family byte BSD reads, from the two bytes Linux stored |
| AddressRoundTrips.FamilyBytesToLinux | src/libsystem_kernel/emulation/src/xnu_syscall/bsd/helper/network/duct.c:23 | which two family bytes Linux reads, from the one BSD stored |
| AddressRoundTrips.OtherBytesToLinux | src/libsystem_kernel/emulation/src/xnu_syscall/bsd/helper/network/duct.c:19-41 | an address that is not local keeps its length and its bytes behind the family |
| AddressRoundTrips.LocalToBsd | src/libsystem_kernel/emulation/src/xnu_syscall/bsd/helper/network/duct.c:51-66 | for any vchroot answer: terminated path cut to 103 bytes, length that fits its byte, or a negative error and an untouched path |
| AddressRoundTrips.LocalToLinux | src/libsystem_kernel/emulation/src/xnu_syscall/bsd/helper/network/duct.c:25-41 | likewise towards Linux, without the NUL in the length; a refused path gives vchroot's converted error |
| AddressRoundTrips.LocalLinuxRoundTrip | src/libsystem_kernel/emulation/src/xnu_syscall/bsd/helper/network/duct.c:18-69 | with vchroot as it stands, a local Linux path of at most 103 bytes comes back from BSD through any second buffer: the length on the way, 3 + strlen, takes the NUL along, and the copy is terminated |
| AddressRoundTrips.LocalBsdRoundTrip | src/libsystem_kernel/emulation/src/xnu_syscall/bsd/helper/network/duct.c:18-69 | a local BSD path comes back from Linux if and only if the second buffer holds a NUL where the path ends, or the path is 103 bytes long, because the length on the way is 2 + strlen; the copy is terminated if and only if the rest of that buffer holds a NUL |
| AddressRoundTrips.KernelAddressSafe | src/libsystem_kernel/emulation/src/xnu_syscall/bsd/impl/network/recvfrom.c:62-65 | when the kernel wrote len bytes over the user's buffer, the rewrite of a local address meets the precondition of SockaddrFixupFromLinux exactly if a NUL is among them or behind them in the buffer |
| AddressRoundTrips.RewriteFootprint | src/libsystem_kernel/emulation/src/xnu_syscall/bsd/helper/network/duct.c:44-69 | a local address whose path vchroot accepts is written in full, 106 bytes, the path and zeros, whatever its length; any other changes in its first two bytes only |
| AddressRoundTrips.RewriteFailsIff | src/libsystem_kernel/emulation/src/xnu_syscall/bsd/helper/network/duct.c:51-68 | the rewrite gives a negative length exactly when vchroot refuses a local path, or the length of another address already was negative |
| AddressRoundTrips.SizeSuffices | src/libsystem_kernel/emulation/src/xnu_syscall/bsd/helper/network/duct.c:14-16 | the size computed beforehand is 106 for a local address and its length otherwise, and bounds the length of the rewritten address, on every host whose PF_LOCAL is 1 like Linux's |
| Handlers.SysWrite | src/libsystem_kernel/emulation/src/xnu_syscall/bsd/impl/unistd/write.c:21-46 | the two ints of the record, read as one 64-bit value, are the host's count beside error 0, or 0 beside the build's error |
| Handlers.SysPipe | src/libsystem_kernel/emulation/src/xnu_syscall/bsd/impl/unistd/pipe.c:7-34 | the record holds the host's two descriptors in order beside error 0, or zeros beside the build's error |
| Handlers.SysRecvfrom | src/libsystem_kernel/emulation/src/xnu_syscall/bsd/impl/network/recvfrom.c:29-81 | calls the host with the six arguments in order and runs the in-place rewrite: the caller's buffer then holds the BSD form of the sender's address (family and length bytes, mapped path) and *socklen its length, and the int result is the count, or that length if it is negative, or 0 beside the build's error |
| Handlers.CallInstalled | src/libsystem_kernel/emulation/src/xnu_syscall/syscall_table.c:8-18 | for each of the four entries the C handler, working on the record, returns what the dispatcher's theorems take the entry for |
| InstalledCalls.InstalledNeverTraps | src/libsystem_kernel/emulation/src/xnu_syscall/syscall_table.c:8-18 | the installed table reaches neither trap, for all register contents |
| InstalledCalls.NestedIndirectFails | src/libsystem_kernel/emulation/src/xnu_syscall/bsd/impl/misc/syscall.c:5-16 | syscall(0, ...) gives ENOSYS |
| InstalledCalls.OtherNumbersFail | src/libsystem_kernel/emulation/src/xnu_syscall/syscall_table.c:8-18 | every number but 4, 29 and 42, called either way, gives ENOSYS |
| InstalledCalls.IndirectWrite | src/libsystem_kernel/emulation/src/xnu_syscall/syscall_table.c:13 | syscall(4, fd, mem, len) gives the run of write(fd, mem, len), register for register |
| InstalledCalls.IndirectPipe | src/libsystem_kernel/emulation/src/xnu_syscall/syscall_table.c:17 | syscall(42) gives the run of pipe |
| InstalledCalls.WriteReturnsCount | src/libsystem_kernel/emulation/src/xnu_syscall/bsd/impl/unistd/write.c:44-45 | the caller of the write stub gets all 64 bits of the host's count |
| InstalledCalls.FailedWrite | src/libsystem_kernel/emulation/src/xnu_syscall/bsd/impl/unistd/write.c:32-39 | on either build, what a caller sees of a failed host write: the handler's error through cerror, or a count of 0 when the bridge takes that error for a sentinel |
| InstalledCalls.LinuxWriteFailure | src/libsystem_kernel/emulation/src/xnu_syscall/bsd/impl/unistd/write.c:32-34 | on Linux a failed write is a failure exactly when its converted error is neither sentinel; otherwise it returns 0 |
| InstalledCalls.LinuxWriteFailureDarwinNumbers | src/libsystem_kernel/emulation/src/xnu_syscall/syscall_cbridge.c:184-190 | with Darwin's numbers it is lost exactly for EPERM and ENOENT |
| InstalledCalls.WriteReportsExpectedErrno | test/sys_write/fail_run.c:10-19 | the expected number being the host's for the positive Linux code, a failed write hands it to cerror if and only if the build is Apple's; on Linux a reported failure carries its negative |
| InstalledCalls.PipeOutcome | src/libsystem_kernel/emulation/src/xnu_syscall/bsd/impl/unistd/pipe.c:7-34 | the stub's registers receive both descriptors; a failed pipe is a failure with the build's error, or, if the bridge takes that for a sentinel, a success with zeros |
| InstalledCalls.PipeArray | src/libsystem_kernel/libsyscall/bsdsyscalls/___pipe.S:43-47 | what the pipe stub then stores: the caller's array holds the host's two descriptors, or zeros after a lost failure |
| RecvfromCalls.RecvfromOutcome | src/libsystem_kernel/emulation/src/xnu_syscall/bsd/impl/network/recvfrom.c:41-80 | called directly or as syscall(29, ...), with the sixth argument on the stack: the host is called with the six arguments in order, and for every answer of it the result, error and world the caller gets are given, with the rewritten sender and its length stored where the caller asked, and no crash |
| RecvfromCalls.ArgsInRegisters | test/indirect_syscall/successful_recvfrom_and_sendto.c:76-77 | in which registers and stack word the six arguments of either form are |
| RecvfromCalls.InternetSender | src/libsystem_kernel/emulation/src/xnu_syscall/bsd/impl/network/recvfrom.c:62-67 | a datagram from an IPv4 sender: the count is returned, and the stored address has the length, the host's family number and the sender's remaining bytes |
| RecvfromCalls.NegativeCountIff | src/libsystem_kernel/emulation/src/xnu_syscall/bsd/impl/network/recvfrom.c:60-67 | a call that is not taken for a failure succeeds, with a negative count if and only if vchroot refuses a local sender's path or another sender has a negative length, or, on the Apple build, the low half of the host's count has the sign bit |
| RecvfromCalls.RefusedPathCount | src/libsystem_kernel/emulation/src/xnu_syscall/bsd/impl/network/recvfrom.c:65-66 | for a refused path the count is vchroot's error in the host's numbers, and the stored path is the refused one |
| RecvfromCalls.CountArrivesIff | src/libsystem_kernel/emulation/src/xnu_syscall/bsd/impl/network/recvfrom.c:79-80 | the host's count is returned exactly when no sender is refused and it fits an int |
| RecvfromCalls.FailureIff | src/libsystem_kernel/emulation/src/xnu_syscall/bsd/impl/network/recvfrom.c:56-75 | for exactly which host results the caller sees a failure: on Linux those whose low half has the sign bit and whose conversion is no sentinel |
| RecvfromCalls.FailsWithHostIff | src/libsystem_kernel/emulation/src/xnu_syscall/bsd/impl/network/recvfrom.c:56-75 | exactly when the caller sees a failure if and only if the host's call failed: always on the Apple build, and on Linux by the sign of the low half and the sentinels |
| RecvfromCalls.IdentityRefusesNoSender | src/libsystem_kernel/emulation/src/xnu_syscall/bsd/impl/network/recvfrom.c:62-67 | with vchroot as it stands no sender with a length of 0 or more is refused |
| RecvfromCalls.FlagsRightIff | src/libsystem_kernel/emulation/src/xnu_syscall/bsd/impl/network/recvfrom.c:49-56 | for every host recvfrom does what it would with the translated flags exactly when the flags are below 8 |
| RecvfromCalls.FlagsSeenThroughStub | src/libsystem_kernel/emulation/src/xnu_syscall/bsd/impl/network/recvfrom.c:49-56 | a program on a host that echoes the flags sees its own flags, and the translated ones exactly when they are below 8 |
| Programs.CallThenGetCerror | test/generic_syscall/fail_out_of_bound_unix_syscall.c:11-28 | darling_set_cerror(0), any stub and darling_get_cerror(): 0 after a success, the call's error and a result of all ones after a failure |
| Programs.UnknownThenGetCerror | test/generic_syscall/fail_out_of_bound_unix_syscall.c:14-28 | a number outside the table or without an entry leaves ENOSYS as the errno, returns -1 and changes nothing else, for 0xFFFF as for 0x2000004 through syscall() |
| Programs.CallRefinesSteps | src/libsystem_kernel/libsyscall/custom/errno.c:14-39 | a stub call on the machine leads to the world and errnos that one step of its thread, or two when it fails, lead to |
| Programs.WriteThenGetCerror | test/sys_write/fail_run.c:10-19 | the write tests on the machine: the host's count and errno 0, or the expected errno exactly on the Apple build and its negative, or a lost failure, on Linux |
| Programs.PipeThenArray | test/sys_pipe/sucessful_run.c:8-12 | the pipe test on the machine: the caller's array in memory holds the host's descriptors and 0 is returned; or the errno is set and -1 returned; or, after a lost failure, the array holds zeros |
| Refutations.PermissionErrorIsLost | src/libsystem_kernel/emulation/src/xnu_syscall/syscall_cbridge.c:13-14 | a write refused with EPERM that looks like a success |
| Refutations.BadDescriptorIsNegative | test/sys_write/fail_run.c:17-18 | the Linux build yields -9 where 9 is expected |
| Refutations.WouldBlockIsTranslated | src/libsystem_kernel/emulation/src/conversion/errno.c:42 | a write that would block yields -35, Darwin's EAGAIN negated, where 35 is expected |
| Refutations.UntypedResultsDiffer | src/libsystem_kernel/emulation/src/xnu_syscall/syscall_cbridge.c:210-211 | a handler whose direct and indirect calls return different values |
| Refutations.RefusedSenderIsNegativeCount | src/libsystem_kernel/emulation/src/xnu_syscall/bsd/impl/network/recvfrom.c:65-66 | seven bytes received from a sender that vchroot refuses: a success with count -13 |
| Refutations.HugeCountIsNegativeOnApple | src/libsystem_kernel/emulation/src/xnu_syscall/bsd/impl/network/recvfrom.c:79 | 2^31 bytes received on the Apple build: a success with a negative count |
| Refutations.HugeCountFailsOnLinux | src/libsystem_kernel/emulation/src/xnu_syscall/bsd/impl/network/recvfrom.c:56-61 | the same on Linux: a failure, although the host's call succeeded |
| Refutations.WaitallIsRenumbered | src/libsystem_kernel/emulation/src/xnu_syscall/bsd/impl/network/recvfrom.c:49-56 | a recvfrom with MSG_WAITALL whose host is given 0x40, another flag than the one translated for it |
| Refutations.LocalPathGrows | src/libsystem_kernel/emulation/src/xnu_syscall/bsd/helper/network/duct.c:38 | a local BSD path that does not come back from Linux through a used buffer |
| Refutations.UntranslatedFamilyCollides | src/libsystem_kernel/emulation/src/conversion/network/duct.c:5-37 | a family that does not survive there and back |

## Left out

- Handlers.SysRecvfrom: requires what the C code's memory operations need of a sender that is rewritten, a length within the struct and a NUL within a local path; RecvfromCalls takes the rewrite as a total function. The address is a value of 106 bytes loaded from and stored back to the world; the copy of the buffer onto itself changes nothing.
- SocketAddresses.SockaddrFixupFromLinux: requires what the C code needs of its caller, a length within the struct and, for a local address, a NUL within the path.
- X86.Machine.Scramble: the C compiler's own code is foreign code that keeps the ABI's promises (%rsp and %rbp preserved, return addresses and the struct not overwritten); %rbx and %r12 to %r15 do not occur.
- Memory is a window of 8-byte cells from address 0 with an aligned stack pointer and room for the pushes and the four possible stack arguments; page faults do not occur.
- pushfq and popfq move the whole flags word; bits that the processor does not let a user program change are not singled out.
- A handler is a function of its number, its arguments and the world, and leaves syscall_type alone; the unused slots of args are not passed on. Table argument counts are not negative.
- The host's E* and PF_* numbers are parameters; Darwin's values appear as instances.
- printf and __simple_printf: output only.
- The Linux syscall instruction, Apple's write, recvfrom and pipe: functions of the world.
- vchroot: an arbitrary map of paths; the repository has stubs that change nothing.
- The MACH, MDEP and DIAG dispatchers beyond returning 0: they are placeholders.
- UNIX_SYSCALL_TRAP on x86_64, and all of i386, arm and arm64: other targets, or not on this path.
- per_thread_wd.h and cancelable.h: their bodies are empty or commented out.
- Restarting a call after ERESTART: the code has no such step.
