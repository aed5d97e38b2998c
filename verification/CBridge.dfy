/** The C half of the bridge (syscall_cbridge.c and syscall.c), working in place on the
    builder, on the return-value record and, through the `regs` pointer, on the register
    struct in the machine's memory. */
module CBridge {
  import opened Words
  import opened X86
  import opened RegisterFrame
  import opened SyscallNumbers
  import opened SyscallTypes
  import opened Dispatch

  const PUSH_RSP_SIZE: nat := 8
  const PUSH_RETURN_ADDRESS_SIZE: nat := 8

  /** The cell where the caller's stack arguments start, seen from the saved %rsp. */
  function FirstStackArg(savedRsp: Word): nat {
    Cell(savedRsp + (PUSH_RETURN_ADDRESS_SIZE + PUSH_RSP_SIZE) * 2)
  }

  predicate Readable(mem: seq<Word>, k: nat) {
    k + FRAME_WORDS <= |mem| && FirstStackArg(At(mem, k).rsp) + STACK_ARGS <= |mem|
  }

  function StackOf(mem: seq<Word>, k: nat): StackArgs
    requires Readable(mem, k)
  {
    var first := FirstStackArg(At(mem, k).rsp);
    mem[first..first + STACK_ARGS]
  }

  /** The register struct a builder points to. */
  function FrameOf(m: Machine, b: ArgsBuilder): Regs
    requires Cell(b.regs) + FRAME_WORDS <= m.mem.Length
    reads b, m.mem
  {
    At(m.mem[..], Cell(b.regs))
  }

  method PartialArgsInit(m: Machine, b: ArgsBuilder)
    requires b.arg.Length == MAX_ARGS && b.arg != m.mem
    requires Cell(b.regs) + FRAME_WORDS <= m.mem.Length
    modifies b`sysnum, b.arg
    ensures b.sysnum == GetSysnum(old(FrameOf(m, b)).rax)
    ensures b.arg[..6] == RegisterArgs(old(FrameOf(m, b)))
  {
    var regs := Cell(b.regs);
    b.sysnum := GetSysnum(m.mem[regs + RAX]);
    b.arg[0] := m.mem[regs + RDI];
    b.arg[1] := m.mem[regs + RSI];
    b.arg[2] := m.mem[regs + RDX];
    b.arg[3] := m.mem[regs + R10];
    b.arg[4] := m.mem[regs + R8];
    b.arg[5] := m.mem[regs + R9];
  }

  /** The indirect case: every argument moves one place forward. */
  method ShiftRegisterArgs(m: Machine, b: ArgsBuilder)
    requires b.arg.Length == MAX_ARGS && b.arg != m.mem
    requires Cell(b.regs) + FRAME_WORDS <= m.mem.Length
    modifies b`sysnum, b.arg
    ensures b.sysnum == ToInt32(old(FrameOf(m, b)).rdi)
    ensures b.arg[..] == RegisterArgs(old(FrameOf(m, b)))[1..] + old(b.arg[5..])
  {
    var regs := Cell(b.regs);
    b.sysnum := ToInt32(m.mem[regs + RDI]);
    b.arg[0] := m.mem[regs + RSI];
    b.arg[1] := m.mem[regs + RDX];
    b.arg[2] := m.mem[regs + R10];
    b.arg[3] := m.mem[regs + R8];
    b.arg[4] := m.mem[regs + R9];
  }

  /** The marshalling loop: the words from rspPtr on go to the slots from startingArg on. */
  method CopyStackArgs(m: Machine, b: ArgsBuilder, firstWord: nat, startingArg: nat, paramSize: nat)
    requires b.arg != m.mem
    requires paramSize > 6
    requires startingArg + (paramSize - 6) <= b.arg.Length
    requires firstWord + (paramSize - 6) <= m.mem.Length
    modifies b.arg
    ensures b.arg[..] == old(b.arg[..startingArg])
                         + old(m.mem[firstWord..firstWord + (paramSize - 6)])
                         + old(b.arg[startingArg + (paramSize - 6)..])
  {
    var rspPtr := firstWord;
    var startingParam := 6;
    var i := 0;
    while startingParam + i < paramSize
      invariant 0 <= i <= paramSize - startingParam
      invariant rspPtr == firstWord + i
      invariant forall j | 0 <= j < b.arg.Length && !(startingArg <= j < startingArg + i) ::
                  b.arg[j] == old(b.arg[j])
      invariant forall j | startingArg <= j < startingArg + i ::
                  b.arg[j] == m.mem[firstWord + (j - startingArg)]
    {
      b.arg[startingArg + i] := m.mem[rspPtr];
      i, rspPtr := i + 1, rspPtr + 1;
    }
  }

  lemma RegistersSuffice(list: seq<Word>, args: seq<Word>, first: nat, n: nat)
    requires first + n <= 6 <= |list| && 6 - first <= |args|
    requires args[..6 - first] == list[first..6]
    ensures args[..n] == list[first..first + n]
  {
    assert args[..n] == args[..6 - first][..n];
    assert list[first..first + n] == list[first..6][..n];
  }

  lemma StackWords(mem: seq<Word>, k: nat, count: nat)
    requires Readable(mem, k) && count <= STACK_ARGS
    ensures var first := FirstStackArg(At(mem, k).rsp);
            mem[first..first + count] == ArgList(At(mem, k), StackOf(mem, k))[6..6 + count]
  {
    var list, stack := ArgList(At(mem, k), StackOf(mem, k)), StackOf(mem, k);
    assert list[6..6 + count] == stack[..count];
  }

  lemma StackCompletes(list: seq<Word>, first: nat, n: nat,
                       head: seq<Word>, words: seq<Word>, tail: seq<Word>)
    requires 6 <= first + n <= |list| && first <= 6
    requires head == list[first..6] && words == list[6..first + n]
    ensures (head + words + tail)[..n] == list[first..first + n]
    ensures (head + words + tail)[n..] == tail
  {
    assert list[first..first + n] == list[first..6] + list[6..first + n];
  }

  /** Traps exactly on a table entry with more than nine arguments, in both modes. Otherwise
      the handler's arguments are the caller's. From the sixth slot on, only the slots of
      stack arguments are written. */
  method FullArgsInit(m: Machine, b: ArgsBuilder) returns (trapped: bool)
    requires b.arg.Length == MAX_ARGS && b.arg != m.mem
    requires Readable(m.mem[..], Cell(b.regs))
    requires b.arg[..6] == RegisterArgs(FrameOf(m, b))
    requires b.indirect == Indirect(FrameOf(m, b))
    requires b.sysnum == GetSysnum(FrameOf(m, b).rax)
    modifies b`sysnum, b.arg
    ensures trapped <==> b.argCount > MAX_ARGS
    ensures !trapped ==>
              b.arg[..b.argCount]
              == old(Marshalled(FrameOf(m, b), StackOf(m.mem[..], Cell(b.regs)), b.argCount))
    ensures b.sysnum == old(Selected(FrameOf(m, b)))
    ensures var kept := if trapped || b.argCount < 5 then 5 else b.argCount;
            b.arg[kept..] == old(b.arg[kept..])
  {
    var regs := Cell(b.regs);
    ghost var list, mem := ArgList(FrameOf(m, b), StackOf(m.mem[..], regs)), m.mem[..];
    var paramSize := b.argCount;
    var indirectSyscall := b.indirect;
    if indirectSyscall {
      ShiftRegisterArgs(m, b);
      paramSize := paramSize + 1;
    }
    ghost var first := if indirectSyscall then 1 else 0;
    assert b.arg[..6 - first] == list[first..6];

    if paramSize > 6 {
      var maxParams := b.arg.Length + if indirectSyscall then 1 else 0;
      if paramSize > maxParams {
        return true;
      }
      var startingArg := if indirectSyscall then 5 else 6;
      var firstWord := FirstStackArg(m.mem[regs + RSP]);
      ghost var head, tail := b.arg[..startingArg], b.arg[b.argCount..];
      ghost var words := mem[firstWord..firstWord + (paramSize - 6)];
      CopyStackArgs(m, b, firstWord, startingArg, paramSize);
      assert b.arg[..] == head + words + tail;
      StackWords(mem, regs, paramSize - 6);
      StackCompletes(list, first, b.argCount, head, words, tail);
    } else {
      RegistersSuffice(list, b.arg[..], first, b.argCount);
    }
    trapped := false;
  }

  /** darling_common_syscall_unix. The handler is called under builder->args.sysnum, which
      FullArgsInit re-reads from %rdi in the indirect case. */
  method CommonSyscallUnix<W>(k: Emulation<W>, m: Machine, b: ArgsBuilder, ret: RetArgs, world: W)
    returns (trapped: bool, error: Int32, world': W)
    requires b.arg.Length == MAX_ARGS && b.arg != m.mem
    requires Readable(m.mem[..], Cell(b.regs))
    requires b.arg[..6] == RegisterArgs(FrameOf(m, b))
    requires b.sysnum == GetSysnum(FrameOf(m, b).rax)
    requires ret.resultType == INVALID
    modifies b`sysnum, b`indirect, b`argCount, b.arg, ret
    ensures var r, stack := old(FrameOf(m, b)), old(StackOf(m.mem[..], Cell(b.regs)));
            DispatchUnix(k, r, stack, world)
            == if trapped then Trapped else Dispatched(error, ret.Value(), world')
  {
    ret.unix := true;
    ret.result0 := 0;
    ret.result1 := 0;
    trapped, error, world' := false, k.enosys, world;

    var sysnum := b.sysnum;
    if sysnum == 0 {
      sysnum := ToInt32(b.arg[..6][0]);
      b.indirect := true;
    } else {
      b.indirect := false;
    }
    if sysnum < 0 || sysnum >= UNIX_TABLE_SIZE || k.table[sysnum].Unset? {
      return;
    }
    var metadata := k.table[sysnum];
    b.argCount := metadata.argCount;
    trapped := FullArgsInit(m, b);
    if !trapped {
      var h := metadata.func(b.sysnum, b.arg[..b.argCount], world);
      ret.resultType, ret.result0, ret.result1 := h.resultType, h.result0, h.result1;
      error, world' := h.error, h.world;
    }
  }

  /** Two members of the struct, assigned through the `regs` pointer. */
  method StoreResults(m: Machine, regs: Word, rax: Word, rdx: Word)
    requires Cell(regs) + FRAME_WORDS <= m.mem.Length
    modifies m.mem
    ensures var before := old(m.mem[..]);
            m.mem[..] == Stored(before, Cell(regs), At(before, Cell(regs)).(rax := rax, rdx := rdx))
  {
    ghost var before, f := m.mem[..], Cell(regs);
    StoreRax(before, f, rax);
    ghost var middle := before[f + RAX := rax];
    StoreRdx(middle, f, rdx);
    StoredAt(before, f, At(before, f).(rax := rax));
    StoreTwice(before, f, At(before, f).(rax := rax), At(middle, f).(rdx := rdx));
    m.mem[Cell(regs) + RAX] := rax;
    assert m.mem[..] == middle;
    m.mem[Cell(regs) + RDX] := rdx;
  }

  method StoreError(m: Machine, regs: Word, rax: Word, rflag: Word)
    requires Cell(regs) + FRAME_WORDS <= m.mem.Length
    modifies m.mem
    ensures var before := old(m.mem[..]);
            m.mem[..] == Stored(before, Cell(regs), At(before, Cell(regs)).(rax := rax, rflag := rflag))
  {
    ghost var before, f := m.mem[..], Cell(regs);
    StoreRax(before, f, rax);
    ghost var middle := before[f + RAX := rax];
    StoreRflag(middle, f, rflag);
    StoredAt(before, f, At(before, f).(rax := rax));
    StoreTwice(before, f, At(before, f).(rax := rax), At(middle, f).(rflag := rflag));
    m.mem[Cell(regs) + RAX] := rax;
    assert m.mem[..] == middle;
    m.mem[Cell(regs) + RFLAG] := rflag;
  }

  /** darling_x86_64_syscall_set_return_values. */
  method SetReturnValues(m: Machine, ret: RetArgs, regs: Word, error: Int32) returns (trapped: bool)
    requires Cell(regs) + FRAME_WORDS <= m.mem.Length
    modifies m.mem
    ensures var before := old(m.mem[..]);
            match Deliver(At(before, Cell(regs)), ret.Value(), error)
            case BadType => trapped
            case Delivered(r) => !trapped && m.mem[..] == Stored(before, Cell(regs), r)
  {
    trapped := false;
    StoredAt(m.mem[..], Cell(regs), At(m.mem[..], Cell(regs)));
    if ret.unix {
      if error != 0 && error != ERESTART && error != EJUSTRETURN {
        StoreError(m, regs, ToWord(error), SetCarry(m.mem[Cell(regs) + RFLAG]));
        return;
      }
      match ret.resultType {
        case INT_T =>
          StoreResults(m, regs, ToWord(ret.result0), ToWord(ret.result1));
        case UINT_T =>
          StoreResults(m, regs, Low32(ret.result0), Low32(ret.result1));
        case OFF_T | ADDR_T | SIZE_T | SSIZE_T | UINT64_T =>
          StoreResults(m, regs, Join(ret.result0, ret.result1), 0);
        case NONE =>
        case INVALID => trapped := true;
      }
    }
  }

  // The cells around a struct at cell f that the C code must leave alone: the return
  // address of its own call below, and above the struct the two saved frame pointers
  // and the two return addresses of the bridge and of the stub.
  const BELOW_FRAME: nat := 1
  const ABOVE_FRAME: nat := 16

  /** Memory after the C code: what it left, but the reserved cells as `before` with the
      results r in the struct. */
  function FrameAfter(before: seq<Word>, after: seq<Word>, f: nat, r: Regs): (m: seq<Word>)
    requires |before| == |after| && BELOW_FRAME <= f && f + ABOVE_FRAME <= |before|
    ensures |m| == |before|
  {
    Stored(Overlay(before, after, f - BELOW_FRAME, f + ABOVE_FRAME), f, r)
  }

  lemma ClearedStruct(mem: seq<Word>, f: nat, v: Word)
    requires Readable(mem, f) && f + FRAME_WORDS <= FirstStackArg(At(mem, f).rsp)
    ensures var mem' := mem[f + RFLAG := v];
            && At(mem', f) == At(mem, f).(rflag := v)
            && Readable(mem', f) && StackOf(mem', f) == StackOf(mem, f)
  {
  }

  lemma OverlaidStruct(mem: seq<Word>, after: seq<Word>, f: nat, v: Word)
    requires |mem| == |after| && BELOW_FRAME <= f && f + ABOVE_FRAME <= |mem|
    ensures At(Overlay(mem[f + RFLAG := v], after, f - BELOW_FRAME, f + ABOVE_FRAME), f)
            == At(mem, f).(rflag := v)
  {
  }

  lemma StoredOverlay(mem: seq<Word>, after: seq<Word>, f: nat, v: Word, r: Regs)
    requires |mem| == |after| && BELOW_FRAME <= f && f + ABOVE_FRAME <= |mem|
    ensures Stored(Overlay(mem[f + RFLAG := v], after, f - BELOW_FRAME, f + ABOVE_FRAME), f, r)
            == FrameAfter(mem, after, f, r)
  {
    var left := Overlay(mem[f + RFLAG := v], after, f - BELOW_FRAME, f + ABOVE_FRAME);
    var direct := Overlay(mem, after, f - BELOW_FRAME, f + ABOVE_FRAME);
    assert left[..f] == direct[..f];
    assert left[f + FRAME_WORDS..] == direct[f + FRAME_WORDS..];
  }

  /** The middle of _darling_handle_x86_64_syscall: set up the builder and the
      return-value record, and switch on the class. */
  method DispatchByClass<W>(k: Emulation<W>, m: Machine, regs: Word, world: W)
    returns (trapped: bool, error: Int32, retargs: RetArgs, world': W)
    requires Readable(m.mem[..], Cell(regs))
    ensures fresh(retargs)
    ensures DispatchClass(k, At(m.mem[..], Cell(regs)), StackOf(m.mem[..], Cell(regs)), world)
            == if trapped then Trapped else Dispatched(error, retargs.Value(), world')
  {
    error, world' := 0, world;
    trapped := false;
    ghost var mem := m.mem[..];
    var builder := new ArgsBuilder(regs);
    PartialArgsInit(m, builder);
    retargs := new RetArgs();
    assert m.mem[..] == mem;
    var classMask := ClassOf(m.mem[Cell(regs) + RAX]);
    if classMask == SYSCALL_CLASS_MACH {
      error := PlaceholderDispatcher();
    } else if classMask == SYSCALL_CLASS_UNIX {
      trapped, error, world' := CommonSyscallUnix(k, m, builder, retargs, world);
      assert m.mem[..] == mem;
    } else if classMask == SYSCALL_CLASS_MDEP {
      error := PlaceholderDispatcher();
    } else if classMask == SYSCALL_CLASS_DIAG {
      error := PlaceholderDispatcher();
    } else {
      // An unknown class is ignored.
    }
  }

  /** darling_common_syscall_mach, _machdep and _diag. */
  method PlaceholderDispatcher() returns (error: Int32)
    ensures error == 0
  {
    error := 0;
  }

  /** `regs->rflag &= ~CARRY`, the first thing the C code does. */
  method ClearSavedCarry(m: Machine, regs: Word)
    requires Readable(m.mem[..], Cell(regs))
    requires Cell(regs) + FRAME_WORDS <= FirstStackArg(At(m.mem[..], Cell(regs)).rsp)
    modifies m.mem
    ensures var before, f := old(m.mem[..]), Cell(regs);
            && m.mem[..] == before[f + RFLAG := ClearCarry(before[f + RFLAG])]
            && At(m.mem[..], f) == CarryCleared(At(before, f))
            && Readable(m.mem[..], f) && StackOf(m.mem[..], f) == StackOf(before, f)
  {
    ghost var before := m.mem[..];
    ClearedStruct(before, Cell(regs), ClearCarry(before[Cell(regs) + RFLAG]));
    m.mem[Cell(regs) + RFLAG] := ClearCarry(m.mem[Cell(regs) + RFLAG]);
    assert m.mem[..] == before[Cell(regs) + RFLAG := ClearCarry(before[Cell(regs) + RFLAG])];
  }

  /** The foreign code behind a call, and the delivery of its results. */
  method Finish(m: Machine, ret: RetArgs, regs: Word, error: Int32, after: seq<Word>,
                ghost before: seq<Word>)
    returns (trapped: bool)
    requires BELOW_FRAME <= Cell(regs) && Cell(regs) + ABOVE_FRAME <= m.mem.Length
    requires |after| == |before| == m.mem.Length
    requires m.mem[..] == before[Cell(regs) + RFLAG := ClearCarry(before[Cell(regs) + RFLAG])]
    modifies m, m.mem
    ensures m.rbp == old(m.rbp) && m.rsp == old(m.rsp) && m.rip == old(m.rip)
    ensures match Deliver(CarryCleared(At(before, Cell(regs))), ret.Value(), error)
            case BadType => trapped
            case Delivered(r) => !trapped && m.mem[..] == FrameAfter(before, after, Cell(regs), r)
  {
    m.Scramble(after, Cell(regs) - BELOW_FRAME, Cell(regs) + ABOVE_FRAME);
    ghost var f, v := Cell(regs), ClearCarry(before[Cell(regs) + RFLAG]);
    ghost var left := m.mem[..];
    OverlaidStruct(before, after, f, v);
    assert At(left, f) == CarryCleared(At(before, f));
    trapped := SetReturnValues(m, ret, regs, error);
    if !trapped {
      ghost var r := Deliver(At(left, f), ret.Value(), error).regs;
      StoredOverlay(before, after, f, v, r);
      assert m.mem[..] == Stored(left, f, r);
    }
  }

  /** _darling_handle_x86_64_syscall: `after` is what the handler, and the C code for its
      own variables, left in the cells that are not reserved. */
  method HandleSyscall<W>(k: Emulation<W>, m: Machine, regs: Word, world: W, after: seq<Word>)
    returns (trapped: bool, error: Int32, world': W)
    requires BELOW_FRAME <= Cell(regs) && Cell(regs) + ABOVE_FRAME <= m.mem.Length == |after|
    requires Readable(m.mem[..], Cell(regs))
    requires Cell(regs) + FRAME_WORDS <= FirstStackArg(At(m.mem[..], Cell(regs)).rsp)
    modifies m, m.mem
    ensures m.rbp == old(m.rbp) && m.rsp == old(m.rsp) && m.rip == old(m.rip)
    ensures var before, f := old(m.mem[..]), Cell(regs);
            match Handle(k, At(before, f), StackOf(before, f), world)
            case Trap => trapped
            case Handled(r, e, w) =>
              !trapped && error == e && world' == w && m.mem[..] == FrameAfter(before, after, f, r)
  {
    ghost var before := m.mem[..];
    ClearSavedCarry(m, regs);
    ghost var cleared := m.mem[..];
    var retargs;
    trapped, error, retargs, world' := DispatchByClass(k, m, regs, world);
    if !trapped {
      assert m.mem[..] == cleared;
      trapped := Finish(m, retargs, regs, error, after, before);
    }
  }
}
