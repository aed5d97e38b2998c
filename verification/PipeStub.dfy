/** ___darling_pipe (___pipe.S): the stub that stores both results of the call through the
    caller's %rdi, 32 bits each. */
module PipeStub {
  import opened Words
  import opened X86
  import SyscallTypes
  import opened Stubs
  import ThreadErrors
  import SyscallNumbers

  /** An int sits at a multiple of four, in the low or the high half of a cell. */
  predicate IntAddress(mem: seq<Word>, a: nat) {
    a % 4 == 0 && Cell(a) < |mem|
  }

  function HalfAt(mem: seq<Word>, a: nat): Half
    requires IntAddress(mem, a)
  {
    if a % 8 == 0 then mem[Cell(a)] % 0x1_0000_0000 else mem[Cell(a)] / 0x1_0000_0000
  }

  function WithHalf(mem: seq<Word>, a: nat, v: Half): (m: seq<Word>)
    requires IntAddress(mem, a)
    ensures |m| == |mem|
  {
    var w := mem[Cell(a)];
    mem[Cell(a) := if a % 8 == 0 then w - w % 0x1_0000_0000 + v
                   else w % 0x1_0000_0000 + v * 0x1_0000_0000]
  }

  /** A 32-bit store changes the int it addresses and no other. */
  lemma StoreThenLoad(mem: seq<Word>, a: nat, v: Half, b: nat)
    requires IntAddress(mem, a) && IntAddress(mem, b)
    ensures HalfAt(WithHalf(mem, a, v), b) == if a == b then v else HalfAt(mem, b)
  {
    if Cell(a) == Cell(b) {
      var w := mem[Cell(a)];
      SameCell(a, b);
      HalvesOf(w / 0x1_0000_0000, v);
      HalvesOf(v, w % 0x1_0000_0000);
      assert w - w % 0x1_0000_0000 + v == w / 0x1_0000_0000 * 0x1_0000_0000 + v;
    }
  }

  lemma SameCell(a: nat, b: nat)
    requires a % 4 == 0 && b % 4 == 0 && Cell(a) == Cell(b)
    ensures a == b <==> a % 8 == b % 8
    ensures a % 8 in {0, 4} && b % 8 in {0, 4}
  {
  }

  lemma HalvesOf(high: Half, low: Half)
    ensures (low + high * 0x1_0000_0000) % 0x1_0000_0000 == low
    ensures (low + high * 0x1_0000_0000) / 0x1_0000_0000 == high
  {
  }

  /** `movl v, (a)`. */
  method StoreInt(m: Machine, a: Word, v: Half)
    requires IntAddress(m.mem[..], a)
    modifies m.mem
    ensures m.mem[..] == WithHalf(old(m.mem[..]), a, v)
  {
    var w := m.mem[Cell(a)];
    m.mem[Cell(a)] := if a % 8 == 0 then w - w % 0x1_0000_0000 + v
                      else w % 0x1_0000_0000 + v * 0x1_0000_0000;
  }

  /** The caller's array of two ints, clear of the stub's return address. */
  predicate PairAddress(mem: seq<Word>, a: nat, s: nat) {
    && IntAddress(mem, a) && IntAddress(mem, a + 4)
    && (a + 8 <= 8 * s || 8 * (s + 1) <= a)
  }

  /** The four instructions behind the macro: two stores, `xorl %eax, %eax` and `ret`. */
  method StorePair(m: Machine, ghost s: nat)
    requires m.rsp == 8 * s && s < m.mem.Length < ADDRESSABLE_CELLS
    requires PairAddress(m.mem[..], m.rdi, s)
    modifies m`rax, m`rflag, m`rsp, m`rip, m.mem
    ensures m.rax == 0 && m.rsp == 8 * (s + 1) && m.rip == old(m.mem[s])
    ensures m.mem[..] == Filled(old(m.mem[..]), old(m.rdi), old(m.rax), old(m.rdx))
  {
    ReturnAddressKept(m.mem[..], m.rdi, Low32(m.rax), Low32(m.rdx), s);
    StoreInt(m, m.rdi, Low32(m.rax));
    StoreInt(m, m.rdi + 4, Low32(m.rdx));
    m.rax, m.rflag := 0, *;
    m.Ret(s);
  }

  /** `returned` is memory as the system call left it. */
  method DarlingPipe<W>(k: SyscallTypes.Emulation<W>, m: Machine, errs: ThreadErrors.Errnos,
                        thread: ThreadErrors.Thread, ghost s: nat,
                        sites: (Word, Word), world: W, after: seq<Word>, afterError: seq<Word>)
    returns (trapped: bool, world': W, ghost returned: seq<Word>)
    requires m.rsp == 8 * s && 16 <= s && s + 5 <= m.mem.Length == |after| < ADDRESSABLE_CELLS
    requires |afterError| == m.mem.Length
    requires PairAddress(m.mem[..], m.rdi, s)
    modifies m, m.mem, errs
    ensures var c, before := old(m.State()), old(m.mem[..]);
            match RunStub(k, c, before[s + 1..s + 5], SyscallNumbers.SYS_PIPE, world)
            case Crash => trapped
            case Success(rax, rdx, rflag, w) =>
              && !trapped && world' == w && errs.stored == old(errs.stored)
              && m.rax == 0 && m.rsp == c.rsp + 8 && m.rbp == c.rbp && m.rip == before[s]
              && |returned| == |before| && CallerView(before, after, returned, s)
              && m.mem[..] == Filled(returned, c.rdi, rax, rdx)
            case Failure(error, w) =>
              && !trapped && world' == w
              && errs.stored == old(errs.stored)[thread := error]
              && m.rax == MAX_WORD && m.rsp == c.rsp + 8 && m.rbp == c.rbp && m.rip == before[s]
              && m.mem[s + 1..] == after[s + 1..]
  {
    var landing;
    landing, world' := UnixSyscallNoname(k, m, errs, thread, SyscallNumbers.SYS_PIPE, s, sites,
                                         world, after, afterError);
    returned := m.mem[..];
    trapped := landing == Landing.Trap;
    if landing == FellThrough {
      StorePair(m, s);
    }
  }

  /** Memory with the low halves of two registers stored at a. */
  function Filled(mem: seq<Word>, a: nat, rax: Word, rdx: Word): seq<Word>
    requires IntAddress(mem, a) && IntAddress(mem, a + 4)
  {
    WithHalf(WithHalf(mem, a, Low32(rax)), a + 4, Low32(rdx))
  }

  lemma ReturnAddressKept(mem: seq<Word>, a: nat, v: Half, w: Half, s: nat)
    requires s < |mem| && PairAddress(mem, a, s)
    ensures WithHalf(WithHalf(mem, a, v), a + 4, w)[s] == mem[s]
  {
  }

  /** The caller finds both descriptors in its array, and the rest of memory as the handler
      left it, when the results travelled as INT_T (see SystemCalls.IntPairTransport). */
  lemma PipeFillsPair(mem: seq<Word>, a: nat, fd0: Int32, fd1: Int32, b: nat)
    requires IntAddress(mem, a) && IntAddress(mem, a + 4) && IntAddress(mem, b)
    ensures var m := Filled(mem, a, ToWord(fd0), ToWord(fd1));
            && ToInt32(HalfAt(m, a)) == fd0 && ToInt32(HalfAt(m, a + 4)) == fd1
            && (b != a && b != a + 4 ==> HalfAt(m, b) == HalfAt(mem, b))
  {
    var once := WithHalf(mem, a, Low32(ToWord(fd0)));
    StoreThenLoad(mem, a, Low32(ToWord(fd0)), a);
    StoreThenLoad(mem, a, Low32(ToWord(fd0)), b);
    StoreThenLoad(once, a + 4, Low32(ToWord(fd1)), a);
    StoreThenLoad(once, a + 4, Low32(ToWord(fd1)), a + 4);
    StoreThenLoad(once, a + 4, Low32(ToWord(fd1)), b);
    SignExtensionKeepsInt32(fd0);
    SignExtensionKeepsInt32(fd1);
  }
}
