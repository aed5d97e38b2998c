/** What callers of the stubs can rely on, for every table, handler, register content and
    stack: which calls fail, which crash, how results travel, and that syscall(n, ...)
    and the direct stub for n are the same call. */
module SystemCalls {
  import opened Words
  import opened X86
  import opened RegisterFrame
  import opened SyscallNumbers
  import opened SyscallTypes
  import opened Dispatch
  import opened Stubs

  // ------------------------------------------------------------- the carry flag

  /** The carry flag a caller sees tells a failed UNIX call from everything else, whatever
      carry the caller came with; the other flags are the caller's. */
  lemma CarryMeansFailure<W>(k: Emulation<W>, regs: Regs, stack: StackArgs, world: W)
    requires Handle(k, regs, stack, world).Handled?
    ensures var h := Handle(k, regs, stack, world);
            && (Carry(h.regs.rflag) <==> ClassOf(regs.rax) == SYSCALL_CLASS_UNIX && h.error !in {0, -1, -2})
            && (Carry(h.regs.rflag) ==> h.regs.rax == ToWord(h.error) && h.regs.rdx == regs.rdx)
            && h.regs.rflag / 2 == regs.rflag / 2
            && SameButResults(h.regs, regs)
  {
    CarryBitOnly(regs.rflag);
    CarryBitOnly(ClearCarry(regs.rflag));
  }

  /** A call of any other class changes no register; it only clears the carry flag. */
  lemma OtherClassesDoNothing<W>(k: Emulation<W>, regs: Regs, stack: StackArgs, world: W)
    requires ClassOf(regs.rax) != SYSCALL_CLASS_UNIX
    ensures Handle(k, regs, stack, world) == Handled(regs.(rflag := regs.rflag - regs.rflag % 2), 0, world)
  {
    ClearsBitZero(regs.rflag);
  }

  // ------------------------------------------------------------------ the stubs

  /** The dispatch of the call a stub makes. */
  function Call<W>(k: Emulation<W>, c: Cpu, stack: StackArgs, number: nat, world: W): Dispatched<W>
    requires c.rsp >= 24 && number < 0x100_0000
  {
    DispatchUnix(k, StubRegs(c, number), stack, world)
  }

  lemma StubDecodes(c: Cpu, number: nat)
    requires c.rsp >= 24 && number < 0x100_0000
    ensures ClassOf(StubRegs(c, number).rax) == SYSCALL_CLASS_UNIX
    ensures GetSysnum(StubRegs(c, number).rax) == number
  {
    ConstructValue(SYSCALL_CLASS_UNIX, number);
    ConstructThenDecode(SYSCALL_CLASS_UNIX, number, UnixNumber(number));
  }

  lemma DispatchIgnoresFlags<W>(k: Emulation<W>, regs: Regs, f: Word, stack: StackArgs, world: W)
    ensures DispatchUnix(k, regs.(rflag := f), stack, world) == DispatchUnix(k, regs, stack, world)
  {
  }

  function TypeOf<W>(d: Dispatched<W>): ResultType {
    if d.Dispatched? && d.reply.Unix? then d.reply.resultType else INVALID
  }

  predicate IsTyped<W>(d: Dispatched<W>) {
    TypeOf(d) != INVALID
  }

  /** A stub's three outcomes, read off the dispatch. The 32-bit error survives the trip
      through %rax and %edi. */
  lemma StubOutcome<W>(k: Emulation<W>, c: Cpu, stack: StackArgs, number: nat, world: W)
    requires c.rsp >= 24 && number < 0x100_0000
    ensures var d, run := Call(k, c, stack, number, world), RunStub(k, c, stack, number, world);
            && (d.Dispatched? && IsFailure(d.error) ==> run == Failure(d.error, d.world))
            && (d.Dispatched? && !IsFailure(d.error) && IsTyped(d) ==> run.Success? && run.world == d.world)
            && (d.Trapped? || (!IsFailure(d.error) && !IsTyped(d)) ==> run == Crash)
  {
    var regs := StubRegs(c, number);
    StubDecodes(c, number);
    DispatchIgnoresFlags(k, regs, ClearCarry(regs.rflag), stack, world);
    if Handle(k, regs, stack, world).Handled? {
      CarryMeansFailure(k, regs, stack, world);
      SignExtensionKeepsInt32(Handle(k, regs, stack, world).error);
    }
  }

  /** Both __builtin_trap calls, and nothing else, crash a stub. */
  lemma CrashIff<W>(k: Emulation<W>, c: Cpu, stack: StackArgs, number: nat, world: W)
    requires c.rsp >= 24 && number < 0x100_0000
    ensures RunStub(k, c, stack, number, world).Crash? <==>
            var regs := StubRegs(c, number);
            var n := Selected(regs);
            && Implemented(k, n)
            && (k.table[n].argCount > 9
                || var h := k.table[n].func(n, Marshalled(regs, stack, k.table[n].argCount), world);
                   !IsFailure(h.error) && h.resultType == INVALID)
  {
    StubOutcome(k, c, stack, number, world);
  }

  /** Every entry takes at most nine arguments and every handler that does not fail says
      what type its result has. */
  ghost predicate WellBehaved<W(!new)>(k: Emulation<W>) {
    forall n | 0 <= n < UNIX_TABLE_SIZE && k.table[n].Entry? ::
      && k.table[n].argCount <= MAX_ARGS
      && forall args, world {:trigger k.table[n].func(n, args, world)} ::
           var h := k.table[n].func(n, args, world);
           IsFailure(h.error) || h.resultType != INVALID
  }

  /** No register content of any class makes such a table trap. */
  lemma WellBehavedNeverTraps<W(!new)>(k: Emulation<W>, regs: Regs, stack: StackArgs, world: W)
    requires WellBehaved(k)
    ensures Handle(k, regs, stack, world).Handled?
  {
    var r := CarryCleared(regs);
    var n := Selected(r);
    if ClassOf(r.rax) == SYSCALL_CLASS_UNIX && Implemented(k, n) {
      var h := k.table[n].func(n, Marshalled(r, stack, k.table[n].argCount), world);
      assert IsFailure(h.error) || h.resultType != INVALID;
    }
  }

  // --------------------------------------------------- direct and indirect calls

  /** The System V argument list of a function entered in state c. */
  function CallArgs(c: Cpu, stack: StackArgs): seq<Word> {
    [c.rdi, c.rsi, c.rdx, c.rcx, c.r8, c.r9] + stack
  }

  lemma StubArgList(c: Cpu, stack: StackArgs, number: nat)
    requires c.rsp >= 24 && number < 0x100_0000
    ensures ArgList(StubRegs(c, number), stack) == CallArgs(c, stack)
  {
  }

  lemma DirectArgs(c: Cpu, stack: StackArgs, number: nat, args: seq<Word>)
    requires c.rsp >= 24 && 0 < number < 0x100_0000
    requires |args| <= MAX_ARGS && args <= CallArgs(c, stack)
    ensures Selected(StubRegs(c, number)) == number
    ensures Marshalled(StubRegs(c, number), stack, |args|) == args
  {
    StubDecodes(c, number);
    StubArgList(c, stack, number);
    assert CallArgs(c, stack)[0..0 + |args|] == args;
  }

  lemma IndirectArgs(c: Cpu, stack: StackArgs, tag: Word, args: seq<Word>)
    requires c.rsp >= 24 && |args| <= MAX_ARGS && [tag] + args <= CallArgs(c, stack)
    ensures Selected(StubRegs(c, 0)) == ToInt32(tag)
    ensures Marshalled(StubRegs(c, 0), stack, |args|) == args
  {
    StubDecodes(c, 0);
    StubArgList(c, stack, 0);
    assert c.rdi == CallArgs(c, stack)[0] == ([tag] + args)[0];
    assert CallArgs(c, stack)[1..1 + |args|] == ([tag] + args)[1..] == args;
  }

  /** `syscall(n, a1, ..., aN)` with those arguments where the ABI puts them, registers first
      and then the stack, dispatches as the direct stub for n does with a1, ..., aN: the
      same handler, once, under the same number, on exactly these arguments. */
  lemma IndirectEqualsDirect<W>(
      k: Emulation<W>, number: nat, tag: Word, args: seq<Word>, world: W,
      direct: Cpu, directStack: StackArgs, indirect: Cpu, indirectStack: StackArgs)
    requires direct.rsp >= 24 && indirect.rsp >= 24
    requires 0 < number < UNIX_TABLE_SIZE && ToInt32(tag) == number
    requires Implemented(k, number) && k.table[number].argCount <= MAX_ARGS
             ==> |args| == k.table[number].argCount
    requires |args| <= MAX_ARGS
    requires args <= CallArgs(direct, directStack)
    requires [tag] + args <= CallArgs(indirect, indirectStack)
    ensures Call(k, direct, directStack, number, world) == Call(k, indirect, indirectStack, 0, world)
    ensures Implemented(k, number) && k.table[number].argCount <= MAX_ARGS ==>
              var h := k.table[number].func(number, args, world);
              Call(k, direct, directStack, number, world)
              == Dispatched(h.error, Unix(h.resultType, h.result0, h.result1), h.world)
  {
    DirectArgs(direct, directStack, number, args);
    IndirectArgs(indirect, indirectStack, tag, args);
  }

  /** A successful call's registers; of the flags only carry is cleared. A handler of type
      NONE leaves the two result registers alone, and then %rax still holds the number the
      stub was entered with. */
  lemma SuccessRegisters<W>(k: Emulation<W>, c: Cpu, stack: StackArgs, number: nat, world: W)
    requires c.rsp >= 24 && number < 0x100_0000
    requires RunStub(k, c, stack, number, world).Success?
    ensures var d, run := Call(k, c, stack, number, world), RunStub(k, c, stack, number, world);
            && IsTyped(d) && !IsFailure(d.error) && run.world == d.world
            && run.rax == ReturnedRax(d.reply, UnixNumber(number))
            && run.rdx == ReturnedRdx(d.reply, c.rdx)
            && run.rflag == c.rflag - c.rflag % 2
            && (TypeOf(d) == NONE ==> run.rax == 0x200_0000 + number && run.rdx == c.rdx)
  {
    var regs := StubRegs(c, number);
    ClearsBitZero(regs.rflag);
    ConstructValue(SYSCALL_CLASS_UNIX, number);
    StubOutcome(k, c, stack, number, world);
    StubDecodes(c, number);
    DispatchIgnoresFlags(k, regs, ClearCarry(regs.rflag), stack, world);
  }

  function ReturnedRax(reply: Reply, kept: Word): Word
    requires reply.Unix?
  {
    match reply.resultType
    case INT_T => ToWord(reply.result0)
    case UINT_T => Low32(reply.result0)
    case NONE | INVALID => kept
    case _ => Join(reply.result0, reply.result1)
  }

  function ReturnedRdx(reply: Reply, kept: Word): Word
    requires reply.Unix?
  {
    match reply.resultType
    case INT_T => ToWord(reply.result1)
    case UINT_T => Low32(reply.result1)
    case NONE | INVALID => kept
    case _ => 0
  }

  /** The caller cannot tell the two calls apart, but for a handler of type NONE: its
      successes return the stub's own number in %rax, which is 0 in the indirect stub and
      n in the direct one. */
  lemma SameVisibleResult<W>(
      k: Emulation<W>, number: nat, tag: Word, args: seq<Word>, world: W,
      direct: Cpu, directStack: StackArgs, indirect: Cpu, indirectStack: StackArgs)
    requires direct.rsp >= 24 && indirect.rsp >= 24
    requires 0 < number < UNIX_TABLE_SIZE && ToInt32(tag) == number
    requires Implemented(k, number) && k.table[number].argCount <= MAX_ARGS
             ==> |args| == k.table[number].argCount
    requires |args| <= MAX_ARGS
    requires args <= CallArgs(direct, directStack)
    requires [tag] + args <= CallArgs(indirect, indirectStack)
    ensures var d, i := RunStub(k, direct, directStack, number, world),
                        RunStub(k, indirect, indirectStack, 0, world);
            match d
            case Crash => i.Crash?
            case Failure(error, w) => i == Failure(error, w)
            case Success(rax, rdx, _, w) =>
              var untyped := TypeOf(Call(k, direct, directStack, number, world)) == NONE;
              && i.Success? && i.world == w
              && (rax == i.rax <==> !untyped)
              && (!untyped ==> rdx == i.rdx)
  {
    IndirectEqualsDirect(k, number, tag, args, world, direct, directStack, indirect, indirectStack);
    StubOutcome(k, direct, directStack, number, world);
    StubOutcome(k, indirect, indirectStack, 0, world);
    if RunStub(k, direct, directStack, number, world).Success? {
      SuccessRegisters(k, direct, directStack, number, world);
      SuccessRegisters(k, indirect, indirectStack, 0, world);
      ConstructValue(SYSCALL_CLASS_UNIX, number);
      ConstructValue(SYSCALL_CLASS_UNIX, 0);
    }
  }

  /** The number a stub's call selects: its own, or for syscall() its first argument. */
  function Requested(c: Cpu, number: nat): int {
    if number == 0 then ToInt32(c.rdi) else number
  }

  /** A number beyond the table, or without an entry, fails with ENOSYS and leaves the world
      alone, whichever way it is called. */
  lemma UnimplementedFails<W>(k: Emulation<W>, c: Cpu, stack: StackArgs, number: nat, world: W)
    requires c.rsp >= 24 && number < 0x100_0000
    requires var n := Requested(c, number); n < 0 || n >= 600 || k.table[n].Unset?
    ensures RunStub(k, c, stack, number, world) == Failure(k.enosys, world)
  {
    StubDecodes(c, number);
    StubOutcome(k, c, stack, number, world);
  }

  /** An indirect number that carries a class byte reaches no handler. */
  lemma TaggedIndirectNumberFails<W>(k: Emulation<W>, c: Cpu, stack: StackArgs, world: W)
    requires c.rsp >= 24
    requires Low32(c.rdi) / 0x100_0000 != 0
    ensures RunStub(k, c, stack, 0, world) == Failure(k.enosys, world)
  {
    StubDecodes(c, 0);
    StubOutcome(k, c, stack, 0, world);
  }

  // ------------------------------------------------------------ result transport

  predicate IsWide(t: ResultType) {
    t in {OFF_T, ADDR_T, SIZE_T, SSIZE_T, UINT64_T}
  }

  /** A signed 64-bit value stored over result[0..1] comes back in %rax bit for bit. */
  lemma WideTransport(v: Int64, t: ResultType, kept: Word)
    requires IsWide(t)
    ensures var reply := Unix(t, ToInt32(ToWord(v)), ToInt32(ToWord(v) / 0x1_0000_0000));
            ToInt64(ReturnedRax(reply, kept)) == v && ReturnedRdx(reply, kept) == 0
  {
    JoinOfHalves(ToWord(v));
    WordRoundTrip(v);
  }

  /** Both ints of a pair come back, sign-extended from INT_T, zero-extended from UINT_T. */
  lemma IntPairTransport(a: Int32, b: Int32, kept: Word)
    ensures var signed, unsigned := Unix(INT_T, a, b), Unix(UINT_T, a, b);
            && ToInt64(ReturnedRax(signed, kept)) == a && ToInt64(ReturnedRdx(signed, kept)) == b
            && ToInt32(ReturnedRax(unsigned, kept)) == a && ReturnedRax(unsigned, kept) < 0x1_0000_0000
            && ToInt32(ReturnedRdx(unsigned, kept)) == b && ReturnedRdx(unsigned, kept) < 0x1_0000_0000
  {
    WordRoundTrip(a);
    WordRoundTrip(b);
  }
}
