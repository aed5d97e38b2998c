/** The structures shared by the dispatcher and the handlers (syscall_function.h,
    syscall.h, syscall_table.h). W is whatever else a handler can see or change: the host
    system and the user's buffers. */
module SyscallTypes {
  import opened Words

  const UNIX_TABLE_SIZE: nat := 600
  const MAX_ARGS: nat := 9

  /** darling_syscall_retarg_type. */
  datatype ResultType =
    | INVALID | NONE | INT_T | UINT_T | OFF_T | ADDR_T | SIZE_T | SSIZE_T | UINT64_T

  /** An errno value of the host's headers. */
  type Errno = e: int | 0 < e < 0x8000_0000 witness 1

  /** The value of a darling_syscall_retarg: for a class other than UNIX nobody sets it. */
  datatype Reply = NotUnix | Unix(resultType: ResultType, result0: Int32, result1: Int32)

  datatype HandlerResult<W> = HandlerResult(
    error: Int32, resultType: ResultType, result0: Int32, result1: Int32, world: W)

  /** A handler sees the number it is called under, its arguments, and the world. */
  type Handler<!W> = (Int32, seq<Word>, W) -> HandlerResult<W>

  datatype Entry<!W> = Unset | Entry(func: Handler<W>, argCount: nat)

  type Table<!W> = t: seq<Entry<W>> | |t| == UNIX_TABLE_SIZE
    witness seq(UNIX_TABLE_SIZE, _ => Unset)

  /** A build of the emulation: its UNIX table and its ENOSYS. */
  datatype Emulation<!W> = Emulation(table: Table<W>, enosys: Errno)

  /** darling_syscall_args_builder together with the args it holds. */
  class ArgsBuilder {
    var sysnum: Int32
    const arg: array<Word>
    var indirect: bool
    var regs: Word
    var argCount: nat

    constructor (regs: Word)
      ensures fresh(arg) && arg.Length == MAX_ARGS && this.regs == regs
    {
      arg := new Word[MAX_ARGS];
      this.regs := regs;
      sysnum, indirect, argCount := *, *, *;
    }
  }

  /** darling_syscall_retarg. */
  class RetArgs {
    var unix: bool
    var resultType: ResultType
    var result0: Int32
    var result1: Int32

    constructor ()
      ensures Value() == NotUnix && resultType == INVALID
    {
      unix, resultType := false, INVALID;
      result0, result1 := *, *;
    }

    function Value(): Reply
      reads this
    {
      if unix then Unix(resultType, result0, result1) else NotUnix
    }
  }
}
