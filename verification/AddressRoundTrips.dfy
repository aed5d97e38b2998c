/** What the two address rewrites promise each other. */
module AddressRoundTrips {
  import opened Words
  import opened Families
  import ErrnoConversion
  import opened SocketAddresses

  /** Neither rewrite takes the address for a local one. */
  predicate NotLocal(h: Host, a: Address) {
    BsdByte(h, a) != h.pf.local && SfamilyBsdToLinux(h.pf, BsdByte(h, a)) != LINUX_PF_LOCAL
  }

  /** The n bytes that one rewrite hands on, over what the other's buffer held. */
  function Copied(bytes: Address, n: nat, buffer: Address): Address
    requires n <= ADDRESS_SIZE
  {
    bytes[..n] + buffer[n..]
  }

  /** A Linux address of len bytes through BSD and back, into any second buffer: its bytes
      and the length are restored exactly when its family fits BSD's byte and is not a number
      the host uses for another family, although on the way the length overwrites half of
      the family. The rest of the buffer is left alone. */
  lemma LinuxAddressRoundTrip(h: Host, a: Address, len: Int32, buffer: Address)
    requires 2 <= len <= ADDRESS_SIZE && NotLocal(h, a)
    ensures var there := FromLinux(h, a, len);
            var back := FromBsd(h, Copied(there.address, len, buffer), there.ret);
            && there.ret == len && there.address[0] == len
            && back.ret == len && back.address[len..] == buffer[len..]
            && (back.address[..len] == a[..len] <==>
                && LinuxFamily(a) < 0x100
                && (LinuxFamily(a) in LINUX_FAMILIES || LinuxFamily(a) !in h.pf.Numbers()))
  {
    var bsd := BsdByte(h, a);
    var rest := a[2..len] + buffer[len..];
    ThereToBsd(h, a, len);
    CopiedHeaded(len, bsd, a, len, buffer);
    BackToLinux(h, len, bsd, rest);
    SamePrefix(SfamilyBsdToLinux(h.pf, bsd), 0, a, len, buffer);
    FamilySurvives(h, a);
  }

  lemma CopiedHeaded(x: Byte, y: Byte, a: Address, n: nat, buffer: Address)
    requires 2 <= n <= ADDRESS_SIZE
    ensures Copied(Headed(x, y, a[2..]), n, buffer) == Headed(x, y, a[2..n] + buffer[n..])
  {
    assert ([x, y] + a[2..])[..n] == [x, y] + a[2..n];
  }

  lemma SamePrefix(x: Byte, y: Byte, a: Address, n: nat, buffer: Address)
    requires 2 <= n <= ADDRESS_SIZE
    ensures var b := Headed(x, y, a[2..n] + buffer[n..]);
            && b[n..] == buffer[n..]
            && (b[..n] == a[..n] <==> x == a[0] && y == a[1])
  {
    var b := Headed(x, y, a[2..n] + buffer[n..]);
    assert b[..n] == [x, y] + a[2..n];
    assert a[..n] == [a[0], a[1]] + a[2..n];
  }

  /** The family byte a Linux address gets on its way to BSD. */
  function BsdByte(h: Host, a: Address): Byte {
    SfamilyLinuxToBsd(h.pf, LinuxFamily(a)) % 0x100
  }

  lemma ThereToBsd(h: Host, a: Address, len: Int32)
    requires 0 <= len <= ADDRESS_SIZE && NotLocal(h, a)
    ensures FromLinux(h, a, len) == Fixed(len, Headed(len, BsdByte(h, a), a[2..]))
  {
  }

  lemma FamilySurvives(h: Host, a: Address)
    ensures SfamilyBsdToLinux(h.pf, BsdByte(h, a)) == a[0] && a[1] == 0
            <==> && LinuxFamily(a) < 0x100
                 && (LinuxFamily(a) in LINUX_FAMILIES || LinuxFamily(a) !in h.pf.Numbers())
  {
    FamilyRoundTrip(h.pf, LinuxFamily(a));
  }

  lemma BackToLinux(h: Host, len: Byte, bsd: Byte, rest: seq<Byte>)
    requires |rest| == PATH_SIZE && SfamilyBsdToLinux(h.pf, bsd) != LINUX_PF_LOCAL
    ensures FromBsd(h, Headed(len, bsd, rest), len)
            == Fixed(len, Headed(SfamilyBsdToLinux(h.pf, bsd), 0, rest))
  {
    var a := Headed(len, bsd, rest);
    assert a[1] == bsd && a[2..] == rest;
  }

  lemma BackToBsd(h: Host, linux: Byte, rest: seq<Byte>, len: Byte)
    requires |rest| == PATH_SIZE && SfamilyLinuxToBsd(h.pf, linux) != h.pf.local
    ensures FromLinux(h, Headed(linux, 0, rest), len)
            == Fixed(len, Headed(len, SfamilyLinuxToBsd(h.pf, linux), rest))
  {
    var a := Headed(linux, 0, rest);
    assert LinuxFamily(a) == linux && a[2..] == rest;
  }

  /** A BSD address of len bytes through Linux and back, into any second buffer: the length
      byte is set to the true length, so an address is restored when it said so before. */
  lemma BsdAddressRoundTrip(h: Host, a: Address, len: Int32, buffer: Address)
    requires 2 <= len <= ADDRESS_SIZE
    requires var linux := SfamilyBsdToLinux(h.pf, a[1]);
             linux != LINUX_PF_LOCAL && SfamilyLinuxToBsd(h.pf, linux) != h.pf.local
    ensures var there := FromBsd(h, a, len);
            var back := FromLinux(h, Copied(there.address, len, buffer), there.ret);
            && there.ret == len
            && back.ret == len && back.address[len..] == buffer[len..]
            && (back.address[..len] == a[..len] <==>
                && a[0] == len
                && (a[1] in h.pf.Numbers() || a[1] !in LINUX_FAMILIES))
  {
    var linux := SfamilyBsdToLinux(h.pf, a[1]);
    var rest := a[2..len] + buffer[len..];
    FamilyRoundTrip(h.pf, a[1]);
    CopiedHeaded(linux, 0, a, len, buffer);
    BackToBsd(h, linux, rest, len);
    SamePrefix(len, SfamilyLinuxToBsd(h.pf, linux), a, len, buffer);
  }

  /** The family byte that BSD reads, from the two bytes of Linux's family, low byte first. */
  lemma FamilyByteToBsd(h: Host, a: Address, len: Int32)
    ensures FromLinux(h, a, len).address[1] == BsdByte(h, a)
    ensures BsdByte(h, a) == if a[1] == 0 && a[0] == 1 then h.pf.local
                             else if a[1] == 0 && a[0] == 2 then h.pf.inet
                             else if a[1] == 0 && a[0] == 4 then h.pf.ipx
                             else if a[1] == 0 && a[0] == 10 then h.pf.inet6
                             else a[0]
  {
    var family := LinuxFamily(a);
    FamilyNumbersMatch(h.pf, family);
    assert family % 0x100 == a[0];
  }

  /** All of the rewritten address, when it is not local and its length was not negative. */
  lemma ThereIsHeaded(h: Host, a: Address, len: Int32)
    requires len >= 0 && !IsLocalLinux(h, a)
    ensures FromLinux(h, a, len) == Fixed(len, [len % 0x100, BsdByte(h, a)] + a[2..])
  {
  }

  /** The two family bytes that Linux reads, from BSD's one. */
  lemma FamilyBytesToLinux(h: Host, a: Address, len: Int32)
    ensures FromBsd(h, a, len).address[1] == 0
    ensures FromBsd(h, a, len).address[0]
            == if a[1] == h.pf.local then 1 else if a[1] == h.pf.inet then 2
               else if a[1] == h.pf.ipx then 4 else if a[1] == h.pf.inet6 then 10 else a[1]
  {
    FamilyNumbersMatch(h.pf, a[1]);
  }

  /** An address that is not local keeps its other bytes and its length. */
  lemma OtherBytesToLinux(h: Host, a: Address, len: Int32)
    requires FromBsd(h, a, len).address[0] != 1
    ensures FromBsd(h, a, len).ret == len && FromBsd(h, a, len).address[2..] == a[2..]
  {
  }

  // ------------------------------------------------------------- local addresses

  lemma {:induction false} CStringStops(p: seq<Byte>, rest: seq<Byte>)
    requires 0 !in p
    ensures CString(p + [0] + rest) == p
  {
    CStringIs(p + [0] + rest, |p|);
  }

  /** What a mapped path field holds: as much of the answer as fits. */
  lemma FieldHolds(p: seq<Byte>)
    ensures CString(PathField(p)) == Fitting(CString(p))
  {
    var q := CString(p);
    CStringFacts(p);
    if |q| < PATH_SIZE - 1 {
      var zeros := seq(PATH_SIZE - 1 - |q|, _ => 0 as Byte);
      assert PathField(p) == q + [0] + (zeros[1..] + [0]);
      CStringStops(q, zeros[1..] + [0]);
    } else {
      assert PathField(p) == q[..PATH_SIZE - 1] + [0] + [];
      CStringStops(q[..PATH_SIZE - 1], []);
    }
  }

  function Fitting(q: seq<Byte>): seq<Byte> {
    if |q| < PATH_SIZE then q else q[..PATH_SIZE - 1]
  }

  lemma MappedPath(vchroot: PathMap, field: seq<Byte>)
    ensures var (r, path) := vchroot(CString(field));
            match MapPath(vchroot, field)
            case Refused(error) => error == r < 0
            case MappedTo(f, n) => r >= 0 && CString(f) == Fitting(CString(path)) && n == |CString(f)|
  {
    FieldHolds(vchroot(CString(field)).1);
  }

  predicate IsLocalLinux(h: Host, a: Address) {
    BsdByte(h, a) == h.pf.local
  }

  /** Whatever vchroot answers, a local address comes out terminated, holding as much of the
      path as fits, and with a length that its one-byte field can hold; or the result is
      vchroot's error in the host's numbers, still negative, and the path is untouched. */
  lemma LocalToBsd(h: Host, a: Address, len: Int32)
    requires IsLocalLinux(h, a)
    ensures var (r, path) := h.unexpand(CString(a[2..]));
            var f := FromLinux(h, a, len);
            if r < 0 then
              && f.ret == ErrnoConversion.ErrnoLinuxToBsd(h.errnos, r) < 0
              && f.address[2..] == a[2..] && f.address[0] == a[0]
            else && 3 <= f.ret == 3 + |CString(f.address[2..])| <= ADDRESS_SIZE
                 && f.address[0] == f.ret && f.address[1] == h.pf.local
                 && CString(f.address[2..]) == Fitting(CString(path))
  {
    MappedPath(h.unexpand, a[2..]);
    var (r, _) := h.unexpand(CString(a[2..]));
    ErrnoConversion.ConversionKeepsSign(h.errnos, r);
  }

  lemma LocalToLinux(h: Host, a: Address, len: Int32)
    requires SfamilyBsdToLinux(h.pf, a[1]) == LINUX_PF_LOCAL
    ensures var (r, path) := h.expand(CString(a[2..]));
            var f := FromBsd(h, a, len);
            && LinuxFamily(f.address) == LINUX_PF_LOCAL
            && if r < 0 then
                 f.ret == ErrnoConversion.ErrnoLinuxToBsd(h.errnos, r) < 0 && f.address[2..] == a[2..]
               else && 2 <= f.ret == 2 + |CString(f.address[2..])| < ADDRESS_SIZE
                    && CString(f.address[2..]) == Fitting(CString(path))
  {
    MappedPath(h.expand, a[2..]);
    var (r, _) := h.expand(CString(a[2..]));
    ErrnoConversion.ConversionKeepsSign(h.errnos, r);
  }

  /** vchroot_expand and vchroot_unexpand as they stand: success, and the path unchanged. */
  ghost predicate IdentityVchroot(h: Host) {
    forall p :: h.expand(p) == (0, p) && h.unexpand(p) == (0, p)
  }

  /** A local Linux address with a path of at most 103 bytes through BSD and back, into any
      second buffer, keeps the path and the family: the length on the way, 3 + strlen, takes
      the NUL along. The length that comes back is 2 + strlen. */
  lemma LocalLinuxRoundTrip(h: Host, a: Address, len: Int32, buffer: Address)
    requires IdentityVchroot(h) && LinuxFamily(a) == LINUX_PF_LOCAL
    requires |CString(a[2..])| < PATH_SIZE
    ensures var path := CString(a[2..]);
            var there := FromLinux(h, a, len);
            there.ret == 3 + |path| && CString(there.address[2..]) == path &&
            var second := Copied(there.address, there.ret, buffer);
            var back := FromBsd(h, second, there.ret);
            && 0 in second[2..]
            && back.ret == 2 + |path|
            && LinuxFamily(back.address) == LINUX_PF_LOCAL
            && CString(back.address[2..]) == path
  {
    var path := CString(a[2..]);
    CStringFacts(a[2..]);
    CStringIdempotent(path);
    LocalToBsd(h, a, len);
    var there := FromLinux(h, a, len);
    var second := Copied(there.address, there.ret, buffer);
    HandedOn(there.address, path, buffer);
    CStringIs(second[2..], |path|);
    LocalToLinux(h, second, there.ret);
  }

  /** The bytes of a terminated path that are handed on with their NUL. */
  lemma HandedOn(bytes: Address, path: seq<Byte>, buffer: Address)
    requires CString(bytes[2..]) == path && |path| < PATH_SIZE
    ensures var second := Copied(bytes, 3 + |path|, buffer);
            && second[0] == bytes[0] && second[1] == bytes[1]
            && second[2..][..|path|] == path && second[2..][|path|] == 0
            && 0 !in path && 0 in second[2..]
  {
    var second := Copied(bytes, 3 + |path|, buffer);
    CStringFacts(bytes[2..]);
    assert second[2..][..|path|] == bytes[2..][..|path|];
    assert second[2..][|path|] == bytes[2..][|path|];
  }

  /** A local BSD address with such a path through Linux and back. The length on the way,
      2 + strlen, leaves the NUL behind, so the path is followed by what the second buffer
      held: it is restored exactly when that starts with a NUL, or when the path fills the
      field and the cut restores it; and the copy is terminated, as the way back needs it to
      be, exactly when there is a NUL in that part of the buffer at all. */
  lemma LocalBsdRoundTrip(h: Host, a: Address, len: Int32, buffer: Address)
    requires IdentityVchroot(h) && a[1] == h.pf.local
    requires |CString(a[2..])| < PATH_SIZE
    ensures var path := CString(a[2..]);
            var there := FromBsd(h, a, len);
            there.ret == 2 + |path| && CString(there.address[2..]) == path &&
            var second := Copied(there.address, there.ret, buffer);
            var back := FromLinux(h, second, there.ret);
            && (0 in second[2..] <==> 0 in buffer[2 + |path|..])
            && back.address[1] == h.pf.local
            && (CString(back.address[2..]) == path <==>
                buffer[2 + |path|] == 0 || |path| == PATH_SIZE - 1)
            && (back.ret == 3 + |path| <==> buffer[2 + |path|] == 0 || |path| == PATH_SIZE - 1)
  {
    var path := CString(a[2..]);
    CStringFacts(a[2..]);
    CStringIdempotent(path);
    LocalToLinux(h, a, len);
    var there := FromBsd(h, a, len).address;
    HandedOnBare(there, path, buffer);
    BackUnterminated(h, Copied(there, 2 + |path|, buffer), path, buffer[2 + |path|..]);
  }

  lemma HandedOnBare(bytes: Address, path: seq<Byte>, buffer: Address)
    requires CString(bytes[2..]) == path && |path| < PATH_SIZE
    ensures var second := Copied(bytes, 2 + |path|, buffer);
            && second[0] == bytes[0] && second[1] == bytes[1]
            && second[2..] == path + buffer[2 + |path|..]
            && 0 !in path
  {
    CStringFacts(bytes[2..]);
    assert bytes[2..2 + |path|] == bytes[2..][..|path|];
  }

  lemma BackUnterminated(h: Host, second: Address, path: seq<Byte>, tail: seq<Byte>)
    requires IdentityVchroot(h) && LinuxFamily(second) == LINUX_PF_LOCAL
    requires second[2..] == path + tail && 0 !in path && |path| < PATH_SIZE
    ensures 0 in second[2..] <==> 0 in tail
    ensures var back := FromLinux(h, second, 2 + |path|);
            && back.address[1] == h.pf.local
            && (CString(back.address[2..]) == path <==> tail[0] == 0 || |path| == PATH_SIZE - 1)
            && (back.ret == 3 + |path| <==> tail[0] == 0 || |path| == PATH_SIZE - 1)
  {
    CStringConcat(path, tail);
    CStringFacts(second[2..]);
    CStringIdempotent(CString(second[2..]));
    LocalToBsd(h, second, 2 + |path|);
    CStringFacts(tail);
    FittingExtension(path, CString(tail));
  }

  lemma FittingExtension(path: seq<Byte>, more: seq<Byte>)
    requires |path| < PATH_SIZE && |path| + |more| <= PATH_SIZE
    ensures Fitting(path + more) == path <==> more == [] || |path| == PATH_SIZE - 1
    ensures |Fitting(path + more)| == |path| <==> more == [] || |path| == PATH_SIZE - 1
  {
    if |path| == PATH_SIZE - 1 {
      assert Fitting(path + more) == path;
    } else if more == [] {
      assert path + more == path;
    } else {
      assert |Fitting(path + more)| > |path|;
    }
  }

  lemma {:induction false} CStringConcat(p: seq<Byte>, tail: seq<Byte>)
    requires 0 !in p
    ensures CString(p + tail) == p + CString(tail)
  {
    if p == [] {
      assert p + tail == tail;
    } else {
      assert (p + tail)[1..] == p[1..] + tail;
      CStringConcat(p[1..], tail);
    }
  }

  lemma {:induction false} CStringIdempotent(p: seq<Byte>)
    requires 0 !in p
    ensures CString(p) == p
  {
    if p != [] {
      CStringIdempotent(p[1..]);
    }
  }

  /** sockaddr_fixup_size_from_bsd: the buffer a caller has to provide. */
  function SizeFromBsd(h: Host, a: Address, len: Int32): Word {
    if a[1] == h.pf.local then ADDRESS_SIZE else ToWord(len)
  }

  /** It is large enough for what sockaddr_fixup_from_bsd then returns, on a host that has no
      other family numbered like Linux's local one. */
  lemma SizeSuffices(h: Host, a: Address, len: Int32)
    requires len >= 0 && (h.pf.local == LINUX_PF_LOCAL || a[1] != LINUX_PF_LOCAL)
    ensures SizeFromBsd(h, a, len) == if a[1] == h.pf.local then 106 else len
    ensures FromBsd(h, a, len).ret <= SizeFromBsd(h, a, len)
  {
    if SfamilyBsdToLinux(h.pf, a[1]) == LINUX_PF_LOCAL {
      LocalToLinux(h, a, len);
    }
  }

  // ------------------------------------------------------ a rewrite of the user's buffer

  /** What the memory operations of sockaddr_fixup_from_linux need: a length within the
      struct and, for a local address, a NUL within the path. */
  predicate SafeToRewrite(h: Host, bytes: Address, len: Int32) {
    0 <= len <= ADDRESS_SIZE && (IsLocalLinux(h, bytes) ==> 0 in bytes[2..])
  }

  /** When the kernel wrote len bytes over a user's buffer, a local address among them is
      safe to rewrite exactly if it ends with a NUL, or the buffer happens to hold one behind
      it. For an unnamed address, of length 2, only the buffer counts. */
  lemma KernelAddressSafe(h: Host, kernel: Address, len: Int32, user: Address)
    requires 2 <= len <= ADDRESS_SIZE && IsLocalLinux(h, kernel)
    ensures SafeToRewrite(h, Copied(kernel, len, user), len)
            <==> 0 in kernel[2..len] || 0 in user[len..]
  {
    var bytes := Copied(kernel, len, user);
    assert bytes[0] == kernel[0] && bytes[1] == kernel[1];
    assert bytes[2..] == kernel[2..len] + user[len..];
  }

  /** How much of the buffer is written. Two bytes, unless the address is local and vchroot
      accepts its path; then it is all 106, whatever its length: the path, and zeros. */
  lemma RewriteFootprint(h: Host, a: Address, len: Int32)
    ensures var f := FromLinux(h, a, len);
            if IsLocalLinux(h, a) && h.unexpand(CString(a[2..])).0 >= 0
            then forall i | 2 + |CString(f.address[2..])| <= i < ADDRESS_SIZE :: f.address[i] == 0
            else f.address[2..] == a[2..]
  {
    var (r, path) := h.unexpand(CString(a[2..]));
    if IsLocalLinux(h, a) && r >= 0 {
      var f := FromLinux(h, a, len);
      FieldHolds(path);
      var n := |Fitting(CString(path))|;
      forall i | 2 + n <= i < ADDRESS_SIZE
        ensures f.address[i] == 0
      {
        assert f.address[i] == PathField(path)[i - 2];
      }
    }
  }

  /** The BSD form f of a Linux address: family and length in their bytes, and the mapped
      path, or what is left after vchroot refused. */
  predicate BsdForm(h: Host, a: Address, len: Int32, f: Fixed) {
    var (r, path) := h.unexpand(CString(a[2..]));
    && f.address[1] == BsdByte(h, a)
    && if !IsLocalLinux(h, a) then
         && f.ret == len && f.address[2..] == a[2..]
         && f.address[0] == if len >= 0 then len % 0x100 else a[0]
       else if r < 0 then
         f.ret == ErrnoConversion.ErrnoLinuxToBsd(h.errnos, r) < 0 && f.address[2..] == a[2..] && f.address[0] == a[0]
       else
         && CString(f.address[2..]) == Fitting(CString(path))
         && f.address[0] == f.ret == 3 + |Fitting(CString(path))|
  }

  lemma RewriteGivesBsdForm(h: Host, a: Address, len: Int32)
    ensures BsdForm(h, a, len, FromLinux(h, a, len))
  {
    if IsLocalLinux(h, a) {
      LocalToBsd(h, a, len);
    }
  }

  /** The rewrite's result is negative exactly when vchroot refuses a local path, or the
      length of any other address already was. */
  lemma RewriteFailsIff(h: Host, a: Address, len: Int32)
    ensures FromLinux(h, a, len).ret < 0 <==>
            if IsLocalLinux(h, a) then h.unexpand(CString(a[2..])).0 < 0 else len < 0
  {
    RewriteGivesBsdForm(h, a, len);
  }
}
