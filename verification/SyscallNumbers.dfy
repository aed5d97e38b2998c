/** The partition of a 32-bit syscall number into an 8-bit class and a 24-bit
    number (include/mach/i386/syscall_sw.h), and the bridge's decoding of it. */
module SyscallNumbers {
  import opened Words

  const SYSCALL_CLASS_SHIFT: nat := 24
  const SYSCALL_CLASS_MASK: nat := 0xFF00_0000
  const SYSCALL_NUMBER_MASK: nat := 0x00FF_FFFF

  const SYSCALL_CLASS_MACH := 1
  const SYSCALL_CLASS_UNIX := 2
  const SYSCALL_CLASS_MDEP := 3
  const SYSCALL_CLASS_DIAG := 4

  // The UNIX numbers in use (include/sys/syscall.h).
  const SYS_SYSCALL: nat := 0
  const SYS_WRITE: nat := 4
  const SYS_RECVFROM: nat := 29
  const SYS_PIPE: nat := 42

  /** The SYSCALL_CONSTRUCT_ macros. */
  function Construct(syscallClass: nat, number: nat): nat {
    BitOr(Shl(syscallClass, SYSCALL_CLASS_SHIFT), BitAnd(SYSCALL_NUMBER_MASK, number))
  }

  /** get_sysnum: the masked int is never negative. */
  function GetSysnum(reg: Word): (sysnum: Int32)
    ensures 0 <= sysnum < 0x100_0000
  {
    BitAnd(SYSCALL_NUMBER_MASK, Low32(reg))
  }

  /** The switch value: the mask is applied to an int and the shift that follows is
      arithmetic, so the sign bit of the class byte is extended. */
  function ClassOf(rax: Word): Int32 {
    ToInt32(BitAnd(SYSCALL_CLASS_MASK, Low32(rax))) / 0x100_0000
  }

  lemma NumberBits(low: Half)
    ensures BitAnd(SYSCALL_NUMBER_MASK, low) == low % 0x100_0000
  {
    Pow24();
    AndLowMask(low, 24);
  }

  lemma ClassBits(low: Half)
    ensures BitAnd(SYSCALL_CLASS_MASK, low) == low - low % 0x100_0000
  {
    Pow24();
    HighMaskValue(24, 8);
    AndHighMask(low, 24, 8);
  }

  /** The masks and the shift read off the low 24 bits and the signed class byte. */
  lemma DecodeByArithmetic(rax: Word)
    ensures GetSysnum(rax) == Low32(rax) % 0x100_0000
    ensures ClassOf(rax) == SignedByte(Low32(rax) / 0x100_0000)
  {
    var low := Low32(rax);
    NumberBits(low);
    ClassBits(low);
    SignedTopByte(low);
  }

  lemma SignedTopByte(low: Half)
    ensures ToInt32(low - low % 0x100_0000) / 0x100_0000 == SignedByte(low / 0x100_0000)
  {
    assert low - low % 0x100_0000 == low / 0x100_0000 * 0x100_0000;
  }

  function SignedByte(b: Byte): int {
    if b < 0x80 then b else b - 0x100
  }

  /** What a stub constructs, the bridge recovers, whatever the unused upper half of
      %rax holds. */
  lemma ConstructThenDecode(syscallClass: nat, number: nat, rax: Word)
    requires SYSCALL_CLASS_MACH <= syscallClass <= SYSCALL_CLASS_DIAG
    requires number < 0x100_0000
    requires Low32(rax) == Construct(syscallClass, number)
    ensures ClassOf(rax) == syscallClass && GetSysnum(rax) == number
  {
    ConstructValue(syscallClass, number);
    Fields(syscallClass, number);
    DecodeByArithmetic(rax);
  }

  /** A UNIX number n travels as 0x2000000 + n. */
  lemma UnixNumbersDecode(rax: Word, number: nat)
    requires number < 0x100_0000
    ensures Construct(SYSCALL_CLASS_UNIX, number) == 0x200_0000 + number
    ensures Low32(rax) == 0x200_0000 + number ==> ClassOf(rax) == SYSCALL_CLASS_UNIX && GetSysnum(rax) == number
  {
    ConstructValue(SYSCALL_CLASS_UNIX, number);
    if Low32(rax) == 0x200_0000 + number {
      ConstructThenDecode(SYSCALL_CLASS_UNIX, number, rax);
    }
  }

  lemma Fields(high: Byte, low: nat)
    requires low < 0x100_0000
    ensures (high * 0x100_0000 + low) / 0x100_0000 == high
    ensures (high * 0x100_0000 + low) % 0x100_0000 == low
  {
  }

  lemma ConstructValue(syscallClass: nat, number: nat)
    requires number < 0x100_0000
    ensures Construct(syscallClass, number) == syscallClass * 0x100_0000 + number
  {
    NumberBits(number);
    ClassField(syscallClass, number);
    ClassFieldValue(syscallClass);
  }

  lemma ClassField(syscallClass: nat, number: nat)
    requires number < 0x100_0000
    ensures BitOr(Shl(syscallClass, 24), number) == Shl(syscallClass, 24) + number
  {
    Pow24();
    OrDisjoint(syscallClass, number, 24);
  }

  lemma ClassFieldValue(syscallClass: nat)
    ensures Shl(syscallClass, 24) == syscallClass * 0x100_0000
  {
    Pow24();
    ShlValue(syscallClass, 24);
  }

  lemma {:induction false} ShlValue(a: nat, k: nat)
    ensures Shl(a, k) == a * Pow2(k)
  {
    if k > 0 {
      ShlValue(a, k - 1);
      assert 2 * (a * Pow2(k - 1)) == a * (2 * Pow2(k - 1));
    }
  }

  /** The dispatcher's four cases are exactly the class bytes 1 to 4; every other byte,
      including those with the sign bit set, falls to the default case. */
  lemma ClassBytesRecognised(rax: Word)
    ensures SYSCALL_CLASS_MACH <= ClassOf(rax) <= SYSCALL_CLASS_DIAG
            <==> 1 <= Low32(rax) / 0x100_0000 <= 4
    ensures ClassOf(rax) == SYSCALL_CLASS_UNIX <==> Low32(rax) / 0x100_0000 == 2
    ensures -0x80 <= ClassOf(rax) < 0x80
  {
    DecodeByArithmetic(rax);
  }
}
