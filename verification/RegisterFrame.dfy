/** darling_register_x86_64_t: the view of the twelve words at `regs` that the C half of
    the bridge reads its arguments from and writes its results to. */
module RegisterFrame {
  import opened Words

  datatype Regs = Regs(
    rax: Word, rdi: Word, rsi: Word, rdx: Word, rcx: Word, r8: Word, r9: Word,
    r10: Word, r11: Word, rflag: Word, rbp: Word, rsp: Word)
  {
    /** The struct in memory order. */
    function Words(): (s: seq<Word>)
      ensures |s| == FRAME_WORDS
    {
      [rax, rdi, rsi, rdx, rcx, r8, r9, r10, r11, rflag, rbp, rsp]
    }
  }

  const FRAME_WORDS: nat := 12

  // Member positions, in words.
  const RAX: nat := 0
  const RDI: nat := 1
  const RSI: nat := 2
  const RDX: nat := 3
  const R8: nat := 5
  const R9: nat := 6
  const R10: nat := 7
  const RFLAG: nat := 9
  const RSP: nat := 11

  /** The struct that lies at cell k. */
  function At(mem: seq<Word>, k: nat): Regs
    requires k + FRAME_WORDS <= |mem|
  {
    Regs(mem[k], mem[k+1], mem[k+2], mem[k+3], mem[k+4], mem[k+5], mem[k+6], mem[k+7],
         mem[k+8], mem[k+9], mem[k+10], mem[k+11])
  }

  /** Memory with the struct r stored at cell k. */
  function Stored(mem: seq<Word>, k: nat, r: Regs): (m: seq<Word>)
    requires k + FRAME_WORDS <= |mem|
    ensures |m| == |mem|
  {
    mem[..k] + r.Words() + mem[k + FRAME_WORDS..]
  }

  lemma StoredAt(mem: seq<Word>, k: nat, r: Regs)
    requires k + FRAME_WORDS <= |mem|
    ensures At(Stored(mem, k, r), k) == r
    ensures Stored(mem, k, At(mem, k)) == mem
  {
    var m := Stored(mem, k, r);
    assert forall i | 0 <= i < FRAME_WORDS :: m[k + i] == r.Words()[i];
    var q := At(mem, k);
    assert forall i | 0 <= i < FRAME_WORDS :: mem[k + i] == q.Words()[i];
  }

  /** Assigning one member through the pointer updates one word. */
  lemma StoreRax(mem: seq<Word>, k: nat, v: Word)
    requires k + FRAME_WORDS <= |mem|
    ensures mem[k + RAX := v] == Stored(mem, k, At(mem, k).(rax := v))
  {
  }

  lemma StoreRdx(mem: seq<Word>, k: nat, v: Word)
    requires k + FRAME_WORDS <= |mem|
    ensures mem[k + RDX := v] == Stored(mem, k, At(mem, k).(rdx := v))
  {
  }

  lemma StoreRflag(mem: seq<Word>, k: nat, v: Word)
    requires k + FRAME_WORDS <= |mem|
    ensures mem[k + RFLAG := v] == Stored(mem, k, At(mem, k).(rflag := v))
  {
  }

  lemma StoreTwice(mem: seq<Word>, k: nat, r: Regs, q: Regs)
    requires k + FRAME_WORDS <= |mem|
    ensures Stored(Stored(mem, k, r), k, q) == Stored(mem, k, q)
  {
  }

  /** Only `rax`, `rdx` and `rflag` differ. */
  predicate SameButResults(a: Regs, b: Regs) {
    a == b.(rax := a.rax, rdx := a.rdx, rflag := a.rflag)
  }
}
