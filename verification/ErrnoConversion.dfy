/** conversion/errno.c: Linux error codes to those of the host's headers. */
module ErrnoConversion {
  import opened Words

  const TABLE_LENGTH: nat := 512
  const INT_MIN: Int32 := -0x8000_0000

  /** linux_to_darwin. Its entries are E* values of the host, or 0 where nothing is set;
      there is no Linux error 0. */
  type ErrnoTable = t: seq<Int32> | |t| == TABLE_LENGTH && t[0] == 0 && forall i | 0 <= i < |t| :: t[i] >= 0
    witness seq(TABLE_LENGTH, _ => 0)

  /** Negation as int arithmetic does it: INT_MIN is its own negative. */
  function Negate(i: Int32): Int32 {
    if i == INT_MIN then INT_MIN else -i
  }

  /** errno_linux_to_bsd. The bound is a size_t, so a negative v compares as a huge value. */
  function ErrnoLinuxToBsd(table: ErrnoTable, err: Int32): Int32 {
    var v := if err < 0 then Negate(err) else err;
    if ToWord(v) < TABLE_LENGTH && table[v] != 0 then
      if err < 0 then Negate(table[v]) else table[v]
    else err
  }

  /** The conversion commutes with negation, so handlers may convert a raw negative result;
      the one int without a negative is left as it is. */
  lemma ConversionIsOdd(table: ErrnoTable, err: Int32)
    ensures ErrnoLinuxToBsd(table, Negate(err)) == Negate(ErrnoLinuxToBsd(table, err))
    ensures ErrnoLinuxToBsd(table, INT_MIN) == INT_MIN
  {
  }

  /** A code with an entry becomes that entry, and its negative the negative of that; a code
      without one, or beyond the table, is kept. */
  lemma ConversionByTable(table: ErrnoTable, err: Int32)
    requires err > 0
    ensures err < 512 && table[err] != 0 ==>
              ErrnoLinuxToBsd(table, err) == table[err] && ErrnoLinuxToBsd(table, -err) == -table[err]
    ensures err >= 512 || table[err] == 0 ==>
              ErrnoLinuxToBsd(table, err) == err && ErrnoLinuxToBsd(table, -err) == -err
  {
  }

  /** No failure is converted to success, nor to an error of the other sign. */
  lemma ConversionKeepsSign(table: ErrnoTable, err: Int32)
    ensures ErrnoLinuxToBsd(table, err) == 0 <==> err == 0
    ensures ErrnoLinuxToBsd(table, err) < 0 <==> err < 0
  {
  }

  /** The table of a Darwin build, by Linux code. LINUX_ENOTSUP is defined as the host's
      EOPNOTSUPP, 102, which the later LINUX_ENETRESET initialiser overrides. */
  function DarwinErrno(e: nat): (d: Int32)
    ensures 0 <= d <= 102
    ensures e == 0 ==> d == 0
  {
    match e
    case 1 => 1 case 2 => 2 case 3 => 3 case 4 => 4 case 5 => 5 case 6 => 6 case 8 => 8
    case 9 => 9 case 10 => 10 case 11 => 35 case 12 => 12 case 13 => 13 case 14 => 14
    case 15 => 15 case 16 => 16 case 17 => 17 case 18 => 18 case 19 => 19 case 20 => 20
    case 21 => 21 case 22 => 22 case 23 => 23 case 24 => 24 case 25 => 25 case 26 => 26
    case 27 => 27 case 28 => 28 case 29 => 29 case 30 => 30 case 31 => 31 case 32 => 32
    case 33 => 33 case 34 => 34 case 35 => 11 case 36 => 63 case 37 => 77 case 38 => 78
    case 39 => 66 case 40 => 62 case 42 => 91 case 43 => 90 case 60 => 99 case 61 => 96
    case 62 => 101 case 63 => 98 case 66 => 71 case 67 => 97 case 71 => 100 case 72 => 95
    case 74 => 94 case 75 => 84 case 84 => 92 case 87 => 68 case 88 => 38 case 89 => 39
    case 90 => 40 case 91 => 41 case 92 => 42 case 93 => 43 case 94 => 44 case 95 => 102
    case 96 => 46 case 97 => 47 case 98 => 48 case 99 => 49 case 100 => 50 case 101 => 51
    case 102 => 52 case 103 => 53 case 104 => 54 case 105 => 55 case 106 => 56 case 107 => 57
    case 108 => 58 case 109 => 59 case 110 => 60 case 111 => 61 case 112 => 64 case 113 => 65
    case 114 => 37 case 115 => 36 case 116 => 70 case 122 => 69 case 125 => 89
    case _ => 0
  }

  const DARWIN: ErrnoTable := seq(TABLE_LENGTH, (i: nat) => DarwinErrno(i))

  /** Up to 34, but for EAGAIN, Linux and Darwin agree; Linux's socket errors, but for
      EOPNOTSUPP, are 50 above Darwin's. */
  lemma DarwinRanges(err: Int32)
    ensures 1 <= err <= 34 && err != 11 ==> ErrnoLinuxToBsd(DARWIN, err) == err
    ensures 88 <= err <= 111 && err != 95 ==> ErrnoLinuxToBsd(DARWIN, err) == err - 50
    ensures ErrnoLinuxToBsd(DARWIN, 11) == 35
  {
    if 1 <= err <= 34 && err != 11 {
      LowErrnos(err);
    } else if 88 <= err <= 111 && err != 95 {
      SocketErrnos(err);
    }
    assert DarwinErrno(11) == 35;
  }

  lemma LowErrnos(e: nat)
    requires 1 <= e <= 34 && e != 11
    ensures DarwinErrno(e) == if e == 7 then 0 else e
  {
  }

  lemma SocketErrnos(e: nat)
    requires 88 <= e <= 111 && e != 95
    ensures DarwinErrno(e) == e - 50
  {
  }

  lemma DarwinSmall(e: nat)
    ensures 1 <= DarwinErrno(e) <= 2 <==> 1 <= e <= 2
  {
  }

  /** On a Darwin build the Linux errors that become -1 or -2, the bridge's ERESTART and
      EJUSTRETURN, are EPERM and ENOENT. */
  lemma DarwinSentinels(err: Int32)
    ensures -2 <= ErrnoLinuxToBsd(DARWIN, err) <= -1 <==> -2 <= err <= -1
  {
    if INT_MIN < err < 0 {
      DarwinSmall(-err);
      assert DarwinErrno(1) == 1 && DarwinErrno(2) == 2;
    }
  }
}
