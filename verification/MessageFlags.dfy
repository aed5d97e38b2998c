/** conversion/network/duct.c, the message flags. A flag is named by its bit number and the
    flags are the unsigned value of an int, so a negative int is a number above 2^31. */
module MessageFlags {
  import opened Words
  import opened Bits

  datatype Row = Row(from: nat, to: nat)

  type Table = seq<Row>

  /** `if (flags & FROM) oflags |= TO`. */
  function OrIf(flags: nat, row: Row, oflags: nat): nat {
    if BitAnd(flags, Pow2(row.from)) != 0 then BitOr(oflags, Pow2(row.to)) else oflags
  }

  /** One such statement for each row, in order. */
  function Translate(t: Table, flags: nat): nat {
    if t == [] then 0 else OrIf(flags, t[|t| - 1], Translate(t[..|t| - 1], flags))
  }

  function Mirror(t: Table): (m: Table)
    ensures |m| == |t| && forall i | 0 <= i < |t| :: m[i] == Row(t[i].to, t[i].from)
  {
    seq(|t|, i requires 0 <= i < |t| => Row(t[i].to, t[i].from))
  }

  /** No two rows share a source, none a target. */
  ghost predicate OneToOne(t: Table) {
    forall i, j | 0 <= i < j < |t| :: t[i].from != t[j].from && t[i].to != t[j].to
  }

  ghost predicate Known(t: Table, k: nat) {
    exists i | 0 <= i < |t| :: t[i].from == k
  }

  /** A bit is set in the translation just when a row for it has its source bit set. */
  ghost predicate Provided(t: Table, flags: nat, k: nat) {
    exists i | 0 <= i < |t| :: t[i].to == k && Has(flags, t[i].from)
  }

  lemma {:induction false} TranslationBits(t: Table, flags: nat, k: nat)
    ensures Has(Translate(t, flags), k) <==> Provided(t, flags, k)
  {
    if t == [] {
      ZeroHasNone(k);
    } else {
      var n := |t| - 1;
      var init, row := t[..n], t[n];
      TranslationBits(init, flags, k);
      TestBit(flags, row.from);
      HasOr(Translate(init, flags), Pow2(row.to), k);
      SingleHas(row.to, k);
      assert Provided(init, flags, k) <==> exists i | 0 <= i < n :: t[i].to == k && Has(flags, t[i].from) by {
        assert forall i | 0 <= i < n :: init[i] == t[i];
      }
    }
  }

  /** Translating by any one-to-one table and back keeps exactly the flags it knows. */
  lemma TranslateAndBack(t: Table, flags: nat, k: nat)
    requires OneToOne(t)
    ensures Has(Translate(Mirror(t), Translate(t, flags)), k) <==> Has(flags, k) && Known(t, k)
  {
    var m, there := Mirror(t), Translate(t, flags);
    TranslationBits(m, there, k);
    if Provided(m, there, k) {
      var i :| 0 <= i < |m| && m[i].to == k && Has(there, m[i].from);
      TranslationBits(t, flags, t[i].to);
      var j :| 0 <= j < |t| && t[j].to == t[i].to && Has(flags, t[j].from);
      assert i == j;
    }
    if Has(flags, k) && Known(t, k) {
      var i :| 0 <= i < |t| && t[i].from == k;
      TranslationBits(t, flags, t[i].to);
      assert m[i].to == k && Has(there, m[i].from);
    }
  }

  /** Of a union of flags, the union of the translations. */
  lemma TranslateDistributes(t: Table, a: nat, b: nat)
    ensures Translate(t, BitOr(a, b)) == BitOr(Translate(t, a), Translate(t, b))
  {
    forall k: nat
      ensures Has(Translate(t, BitOr(a, b)), k) <==> Has(BitOr(Translate(t, a), Translate(t, b)), k)
    {
      TranslationBits(t, BitOr(a, b), k);
      TranslationBits(t, a, k);
      TranslationBits(t, b, k);
      HasOr(Translate(t, a), Translate(t, b), k);
      forall i | 0 <= i < |t|
        ensures Has(BitOr(a, b), t[i].from) <==> Has(a, t[i].from) || Has(b, t[i].from)
      {
        HasOr(a, b, t[i].from);
      }
    }
    SameBits(Translate(t, BitOr(a, b)), BitOr(Translate(t, a), Translate(t, b)));
  }

  // ------------------------------------------------------------- the two tables

  const LINUX_MSG_OOB: nat := 0
  const LINUX_MSG_PEEK: nat := 1
  const LINUX_MSG_DONTROUTE: nat := 2
  const LINUX_MSG_CTRUNC: nat := 3
  const LINUX_MSG_TRUNC: nat := 5
  const LINUX_MSG_DONTWAIT: nat := 6
  const LINUX_MSG_EOR: nat := 7
  const LINUX_MSG_WAITALL: nat := 8

  const BSD_MSG_OOB: nat := 0
  const BSD_MSG_PEEK: nat := 1
  const BSD_MSG_DONTROUTE: nat := 2
  const BSD_MSG_EOR: nat := 3
  const BSD_MSG_TRUNC: nat := 4
  const BSD_MSG_CTRUNC: nat := 5
  const BSD_MSG_WAITALL: nat := 6
  const BSD_MSG_DONTWAIT: nat := 7

  /** The masks of the header, by bit number. */
  lemma MasksOfHeader()
    ensures Pow2(BSD_MSG_OOB) == 0x1 && Pow2(BSD_MSG_PEEK) == 0x2 && Pow2(BSD_MSG_DONTROUTE) == 0x4
    ensures Pow2(BSD_MSG_EOR) == 0x8 && Pow2(BSD_MSG_TRUNC) == 0x10 && Pow2(BSD_MSG_CTRUNC) == 0x20
    ensures Pow2(BSD_MSG_WAITALL) == 0x40 && Pow2(BSD_MSG_DONTWAIT) == 0x80
    ensures Pow2(LINUX_MSG_OOB) == 0x01 && Pow2(LINUX_MSG_PEEK) == 0x02
    ensures Pow2(LINUX_MSG_DONTROUTE) == 0x04 && Pow2(LINUX_MSG_CTRUNC) == 0x08
    ensures Pow2(LINUX_MSG_TRUNC) == 0x20 && Pow2(LINUX_MSG_DONTWAIT) == 0x40
    ensures Pow2(LINUX_MSG_EOR) == 0x80 && Pow2(LINUX_MSG_WAITALL) == 0x100
  {
  }

  const BSD_TO_LINUX: Table := [
    Row(BSD_MSG_OOB, LINUX_MSG_OOB), Row(BSD_MSG_PEEK, LINUX_MSG_PEEK),
    Row(BSD_MSG_DONTROUTE, LINUX_MSG_DONTROUTE), Row(BSD_MSG_EOR, LINUX_MSG_EOR),
    Row(BSD_MSG_TRUNC, LINUX_MSG_TRUNC), Row(BSD_MSG_CTRUNC, LINUX_MSG_CTRUNC),
    Row(BSD_MSG_WAITALL, LINUX_MSG_WAITALL), Row(BSD_MSG_DONTWAIT, LINUX_MSG_DONTWAIT)]

  const LINUX_TO_BSD: Table := [
    Row(LINUX_MSG_OOB, BSD_MSG_OOB), Row(LINUX_MSG_PEEK, BSD_MSG_PEEK),
    Row(LINUX_MSG_DONTROUTE, BSD_MSG_DONTROUTE), Row(LINUX_MSG_EOR, BSD_MSG_EOR),
    Row(LINUX_MSG_TRUNC, BSD_MSG_TRUNC), Row(LINUX_MSG_CTRUNC, BSD_MSG_CTRUNC),
    Row(LINUX_MSG_WAITALL, BSD_MSG_WAITALL), Row(LINUX_MSG_DONTWAIT, BSD_MSG_DONTWAIT)]

  /** One statement of either function, the one for row i. */
  method Step(t: Table, i: nat, flags: nat, oflags: nat) returns (r: nat)
    requires i < |t| && oflags == Translate(t[..i], flags)
    ensures r == Translate(t[..i + 1], flags)
  {
    assert t[..i + 1][..i] == t[..i];
    r := oflags;
    if BitAnd(flags, Pow2(t[i].from)) != 0 {
      r := BitOr(r, Pow2(t[i].to));
    }
  }

  /** The eight statements of either function. */
  method Msgflags(t: Table, flags: nat) returns (oflags: nat)
    requires |t| == 8
    ensures oflags == Translate(t, flags)
  {
    oflags := 0;
    oflags := Step(t, 0, flags, oflags);
    oflags := Step(t, 1, flags, oflags);
    oflags := Step(t, 2, flags, oflags);
    oflags := Step(t, 3, flags, oflags);
    oflags := Step(t, 4, flags, oflags);
    oflags := Step(t, 5, flags, oflags);
    oflags := Step(t, 6, flags, oflags);
    oflags := Step(t, 7, flags, oflags);
    assert t[..8] == t;
  }

  method MsgflagsBsdToLinux(flags: nat) returns (oflags: nat)
    ensures oflags == Translate(BSD_TO_LINUX, flags)
  {
    oflags := Msgflags(BSD_TO_LINUX, flags);
  }

  method MsgflagsLinuxToBsd(flags: nat) returns (oflags: nat)
    ensures oflags == Translate(LINUX_TO_BSD, flags)
  {
    oflags := Msgflags(LINUX_TO_BSD, flags);
  }

  lemma TablesMirrorEachOther()
    ensures Mirror(BSD_TO_LINUX) == LINUX_TO_BSD && Mirror(LINUX_TO_BSD) == BSD_TO_LINUX
    ensures OneToOne(BSD_TO_LINUX) && OneToOne(LINUX_TO_BSD)
  {
  }

  lemma KnownFlags(k: nat)
    ensures Known(BSD_TO_LINUX, k) <==> k < 8
    ensures Known(LINUX_TO_BSD, k) <==> k < 9 && k != 4
  {
    var b, l := BSD_TO_LINUX, LINUX_TO_BSD;
    assert b[0].from == 0 && b[1].from == 1 && b[2].from == 2 && b[3].from == 3;
    assert b[4].from == 4 && b[5].from == 5 && b[6].from == 6 && b[7].from == 7;
    assert l[0].from == 0 && l[1].from == 1 && l[2].from == 2 && l[3].from == 7;
    assert l[4].from == 5 && l[5].from == 3 && l[6].from == 8 && l[7].from == 6;
  }

  /** From BSD to Linux and back, the low eight flags survive: `flags & 0xFF`. */
  lemma BsdRoundTrip(flags: nat)
    ensures Translate(LINUX_TO_BSD, Translate(BSD_TO_LINUX, flags)) == BitAnd(flags, 0xFF)
  {
    var back := Translate(LINUX_TO_BSD, Translate(BSD_TO_LINUX, flags));
    forall k: nat
      ensures Has(back, k) <==> Has(BitAnd(flags, 0xFF), k)
    {
      TablesMirrorEachOther();
      TranslateAndBack(BSD_TO_LINUX, flags, k);
      KnownFlags(k);
      HasAnd(flags, 0xFF, k);
      LowEight(k);
    }
    SameBits(back, BitAnd(flags, 0xFF));
  }

  lemma LowEight(k: nat)
    ensures Has(0xFF, k) <==> k < 8
  {
    assert Has(0xFF, 0) && Has(0xFF, 1) && Has(0xFF, 2) && Has(0xFF, 3);
    assert Has(0xFF, 4) && Has(0xFF, 5) && Has(0xFF, 6) && Has(0xFF, 7);
    if k >= 8 {
      DropBits(0xFF, 8, k);
    }
  }

  /** Linux's MSG_PROXY, 0x10, and everything above MSG_WAITALL is lost on the way to BSD. */
  lemma LinuxRoundTrip(flags: nat)
    ensures Translate(BSD_TO_LINUX, Translate(LINUX_TO_BSD, flags)) == BitAnd(flags, 0x1EF)
  {
    var back := Translate(BSD_TO_LINUX, Translate(LINUX_TO_BSD, flags));
    forall k: nat
      ensures Has(back, k) <==> Has(BitAnd(flags, 0x1EF), k)
    {
      TablesMirrorEachOther();
      TranslateAndBack(LINUX_TO_BSD, flags, k);
      KnownFlags(k);
      HasAnd(flags, 0x1EF, k);
      LinuxMask(k);
    }
    SameBits(back, BitAnd(flags, 0x1EF));
  }

  lemma LinuxMask(k: nat)
    ensures Has(0x1EF, k) <==> k < 9 && k != 4
  {
    assert Has(0x1EF, 0) && Has(0x1EF, 1) && Has(0x1EF, 2) && Has(0x1EF, 3) && !Has(0x1EF, 4);
    assert Has(0x1EF, 5) && Has(0x1EF, 6) && Has(0x1EF, 7) && Has(0x1EF, 8);
    if k >= 9 {
      DropBits(0x1EF, 9, k);
    }
  }

  lemma {:induction false} DropBits(x: nat, n: nat, k: nat)
    requires x < Pow2(n) && n <= k
    ensures !Has(x, k)
  {
    if n == 0 {
      ZeroHasNone(k);
    } else {
      DropBits(x / 2, n - 1, k - 1);
    }
  }

  /** The flags whose BSD and Linux numbers are the same: the translation of any flags but
      combinations of OOB, PEEK and DONTROUTE differs from them. */
  lemma TranslationIsIdentityIff(flags: nat)
    ensures Translate(BSD_TO_LINUX, flags) == flags <==> flags < 8
  {
    var there := Translate(BSD_TO_LINUX, flags);
    if there == flags {
      forall k: nat
        ensures Has(flags, k) <==> Has(BitAnd(flags, 7), k)
      {
        LinuxBits(flags, k);
        HighFlagsChase(flags);
        HasAnd(flags, 7, k);
        LowThree(k);
      }
      SameBits(flags, BitAnd(flags, 7));
    }
    if flags < 8 {
      forall k: nat
        ensures Has(there, k) <==> Has(flags, k)
      {
        LinuxBits(flags, k);
        NoBitsFrom3(flags);
        if k > 2 {
          DropBits(flags, 3, k);
        }
      }
      SameBits(there, flags);
    }
  }

  lemma LowThree(k: nat)
    ensures Has(7, k) <==> k < 3
  {
    assert Has(7, 0) && Has(7, 1) && Has(7, 2);
    if k >= 3 {
      DropBits(7, 3, k);
    }
  }

  lemma NoBitsFrom3(flags: nat)
    requires flags < 8
    ensures !Has(flags, 3) && !Has(flags, 4) && !Has(flags, 5) && !Has(flags, 6) && !Has(flags, 7)
  {
    DropBits(flags, 3, 3);
    DropBits(flags, 3, 4);
    DropBits(flags, 3, 5);
    DropBits(flags, 3, 6);
    DropBits(flags, 3, 7);
  }

  /** The Linux flags, one by one, from the BSD flags. */
  lemma LinuxBits(flags: nat, k: nat)
    ensures Has(Translate(BSD_TO_LINUX, flags), k) <==>
            || (k < 3 && Has(flags, k)) || (k == 3 && Has(flags, 5)) || (k == 5 && Has(flags, 4))
            || (k == 6 && Has(flags, 7)) || (k == 7 && Has(flags, 3)) || (k == 8 && Has(flags, 6))
  {
    TranslationBits(BSD_TO_LINUX, flags, k);
    var t := BSD_TO_LINUX;
    assert t[0] == Row(0, 0) && t[1] == Row(1, 1) && t[2] == Row(2, 2) && t[3] == Row(3, 7);
    assert t[4] == Row(4, 5) && t[5] == Row(5, 3) && t[6] == Row(6, 8) && t[7] == Row(7, 6);
  }

  lemma HighFlagsChase(flags: nat)
    requires Translate(BSD_TO_LINUX, flags) == flags
    ensures !Has(flags, 3) && !Has(flags, 4) && !Has(flags, 5) && !Has(flags, 6) && !Has(flags, 7)
  {
    LinuxBits(flags, 4);
    LinuxBits(flags, 5);
    LinuxBits(flags, 3);
    LinuxBits(flags, 7);
    LinuxBits(flags, 6);
  }
}
