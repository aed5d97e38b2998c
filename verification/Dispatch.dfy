/** What a system call means, as a function of the saved registers and of the caller's
    stack arguments: which handler runs, on which arguments, and what the registers hold
    afterwards. The C half of the bridge is proved against these functions in CBridge. */
module Dispatch {
  import opened Words
  import X86
  import opened RegisterFrame
  import opened SyscallNumbers
  import opened SyscallTypes

  const ERESTART: Int32 := -1
  const EJUSTRETURN: Int32 := -2

  /** As many stack words as a call can use: an indirect call with nine arguments. */
  const STACK_ARGS: nat := 4

  type StackArgs = s: seq<Word> | |s| == STACK_ARGS witness [0, 0, 0, 0]

  /** The arguments the registers hold. */
  function RegisterArgs(r: Regs): (list: seq<Word>)
    ensures |list| == 6
  {
    [r.rdi, r.rsi, r.rdx, r.r10, r.r8, r.r9]
  }

  /** The caller's argument list: %rcx travels in %r10, and the list goes on in memory. */
  function ArgList(r: Regs, stack: StackArgs): (list: seq<Word>)
    ensures |list| == 10
  {
    RegisterArgs(r) + stack
  }

  predicate Indirect(r: Regs) {
    GetSysnum(r.rax) == 0
  }

  function Selected(r: Regs): Int32 {
    if Indirect(r) then ToInt32(r.rdi) else GetSysnum(r.rax)
  }

  /** The n arguments of the selected call: an indirect call drops the number in front. */
  function Marshalled(r: Regs, stack: StackArgs, n: nat): (args: seq<Word>)
    requires n <= MAX_ARGS
    ensures |args| == n
  {
    var first := if Indirect(r) then 1 else 0;
    ArgList(r, stack)[first..first + n]
  }

  predicate Implemented<W>(k: Emulation<W>, n: int) {
    0 <= n < UNIX_TABLE_SIZE && k.table[n].Entry?
  }

  datatype Dispatched<W> = Trapped | Dispatched(error: Int32, reply: Reply, world: W)

  function DispatchUnix<W>(k: Emulation<W>, r: Regs, stack: StackArgs, world: W): Dispatched<W> {
    var n := Selected(r);
    if !Implemented(k, n) then
      Dispatched(k.enosys, Unix(INVALID, 0, 0), world)
    else if k.table[n].argCount > MAX_ARGS then
      Trapped
    else
      var h := k.table[n].func(n, Marshalled(r, stack, k.table[n].argCount), world);
      Dispatched(h.error, Unix(h.resultType, h.result0, h.result1), h.world)
  }

  /** Only the UNIX class does anything: the other three dispatchers are placeholders and
      an unknown class is ignored. */
  function DispatchClass<W>(k: Emulation<W>, r: Regs, stack: StackArgs, world: W): Dispatched<W> {
    if ClassOf(r.rax) == SYSCALL_CLASS_UNIX then DispatchUnix(k, r, stack, world)
    else Dispatched(0, NotUnix, world)
  }

  predicate IsFailure(error: Int32) {
    error != 0 && error != ERESTART && error != EJUSTRETURN
  }

  datatype Delivered = BadType | Delivered(regs: Regs)

  /** How an error or a typed result goes back into the saved registers. */
  function Deliver(r: Regs, reply: Reply, error: Int32): Delivered {
    if reply.NotUnix? then Delivered(r)
    else if IsFailure(error) then
      Delivered(r.(rax := ToWord(error), rflag := X86.SetCarry(r.rflag)))
    else match reply.resultType
      case INVALID => BadType
      case NONE => Delivered(r)
      case INT_T => Delivered(r.(rax := ToWord(reply.result0), rdx := ToWord(reply.result1)))
      case UINT_T => Delivered(r.(rax := Low32(reply.result0), rdx := Low32(reply.result1)))
      case _ => Delivered(r.(rax := Join(reply.result0, reply.result1), rdx := 0))
  }

  datatype Handled<W> = Trap | Handled(regs: Regs, error: Int32, world: W)

  function CarryCleared(r: Regs): Regs {
    r.(rflag := X86.ClearCarry(r.rflag))
  }

  /** The whole C half of the bridge. */
  function Handle<W>(k: Emulation<W>, regs: Regs, stack: StackArgs, world: W): Handled<W> {
    var r := CarryCleared(regs);
    match DispatchClass(k, r, stack, world)
    case Trapped => Trap
    case Dispatched(error, reply, world') =>
      match Deliver(r, reply, error)
      case BadType => Trap
      case Delivered(r') => Handled(r', error, world')
  }

  /** Results travel in three registers only: every other saved word, the stack pointer
      above all, is as it was pushed. */
  lemma HandleKeepsRest<W>(k: Emulation<W>, regs: Regs, stack: StackArgs, world: W)
    ensures Handle(k, regs, stack, world).Handled? ==>
              SameButResults(Handle(k, regs, stack, world).regs, regs)
  {
  }
}
