/** bsd/helper/network/duct.c: rewriting a socket address in place. The two leading bytes
    are Linux's 16-bit family, or BSD's length followed by its family; a local address goes
    on with a path of at most 103 bytes and a NUL. */
module SocketAddresses {
  import opened Words
  import opened Families
  import opened ErrnoConversion

  const PATH_SIZE: nat := 104
  const ADDRESS_SIZE: nat := 106

  /** A struct sockaddr_fixup. */
  type Address = a: seq<Byte> | |a| == ADDRESS_SIZE witness seq(ADDRESS_SIZE, _ => 0)

  /** A vchroot routine: from a path to a result code and a path. */
  type PathMap = seq<Byte> -> (Int32, seq<Byte>)

  datatype Host = Host(pf: HostFamilies, errnos: ErrnoTable, expand: PathMap, unexpand: PathMap)

  datatype Fixed = Fixed(ret: Int32, address: Address)

  /** The C string at the start of s. */
  function CString(s: seq<Byte>): seq<Byte> {
    if s == [] || s[0] == 0 then [] else [s[0]] + CString(s[1..])
  }

  lemma {:induction false} CStringFacts(s: seq<Byte>)
    ensures CString(s) <= s && 0 !in CString(s)
    ensures |CString(s)| < |s| ==> s[|CString(s)|] == 0
  {
    if s != [] && s[0] != 0 {
      CStringFacts(s[1..]);
    }
  }

  lemma {:induction false} CStringIs(s: seq<Byte>, k: nat)
    requires k < |s| && s[k] == 0 && 0 !in s[..k]
    ensures CString(s) == s[..k]
  {
    if k > 0 {
      assert s[0] in s[..k];
      assert s[1..][..k - 1] == s[..k][1..];
      CStringIs(s[1..], k - 1);
      assert s[..k] == [s[0]] + s[1..][..k - 1];
    }
  }

  /** What strncpy of the string p writes into n bytes. */
  function Padded(p: seq<Byte>, n: nat): (s: seq<Byte>)
    ensures |s| == n
  {
    if |p| >= n then p[..n] else p + seq(n - |p|, _ => 0)
  }

  /** sun_path after the copy back from vchroot: cut to 103 bytes and terminated. */
  function PathField(p: seq<Byte>): (s: seq<Byte>)
    ensures |s| == PATH_SIZE
  {
    Padded(CString(p), PATH_SIZE - 1) + [0]
  }

  lemma FieldEnds(p: seq<Byte>)
    ensures 0 in PathField(p) && |CString(PathField(p))| < PATH_SIZE
  {
    var field := PathField(p);
    assert field[PATH_SIZE - 1] == 0;
    CStringFacts(field);
  }

  /** The unsigned short that two bytes overlay. */
  function FamilyWord(low: Byte, high: Byte): int {
    low as int + 0x100 * high as int
  }

  function LinuxFamily(a: Address): int {
    FamilyWord(a[0], a[1])
  }

  /** The address with leading bytes x and y. */
  function Headed(x: Byte, y: Byte, rest: seq<Byte>): (a: Address)
    requires |rest| == PATH_SIZE
    ensures a[0] == x && a[1] == y && a[2..] == rest
  {
    [x, y] + rest
  }

  datatype Mapped = Refused(error: Int32) | MappedTo(field: seq<Byte>, length: nat)

  /** A path through a vchroot routine, back in sun_path, and its length there. */
  function MapPath(vchroot: PathMap, field: seq<Byte>): (m: Mapped)
    ensures m.Refused? ==> m.error < 0
    ensures m.MappedTo? ==> |m.field| == PATH_SIZE && m.length < PATH_SIZE
  {
    var (r, path) := vchroot(CString(field));
    FieldEnds(path);
    if r < 0 then Refused(r) else MappedTo(PathField(path), |CString(PathField(path))|)
  }

  /** sockaddr_fixup_from_linux, from the copied address on: first the family, of which one
      byte is kept, then the path and the length. */
  function FromLinux(h: Host, a: Address, len: Int32): Fixed {
    Relabelled(h, a[0], SfamilyLinuxToBsd(h.pf, LinuxFamily(a)) % 0x100, a[2..], len)
  }

  function Relabelled(h: Host, low: Byte, bsd: Byte, rest: seq<Byte>, len: Int32): Fixed
    requires |rest| == PATH_SIZE
  {
    if bsd == h.pf.local then
      match MapPath(h.unexpand, rest)
      case Refused(r) => Fixed(ErrnoLinuxToBsd(h.errnos, r), Headed(low, bsd, rest))
      case MappedTo(field, n) => Fixed(2 + n + 1, Headed(2 + n + 1, bsd, field))
    else Fixed(len, Headed(if len >= 0 then len % 0x100 else low, bsd, rest))
  }

  /** sockaddr_fixup_from_bsd, from the copied address on. */
  function FromBsd(h: Host, a: Address, len: Int32): Fixed {
    Expanded(h, SfamilyBsdToLinux(h.pf, a[1]), a[2..], len)
  }

  function Expanded(h: Host, linux: Byte, rest: seq<Byte>, len: Int32): Fixed
    requires |rest| == PATH_SIZE
  {
    if linux == LINUX_PF_LOCAL then
      match MapPath(h.expand, rest)
      case Refused(r) => Fixed(ErrnoLinuxToBsd(h.errnos, r), Headed(linux, 0, rest))
      case MappedTo(field, n) => Fixed(2 + n, Headed(linux, 0, field))
    else Fixed(len, Headed(linux, 0, rest))
  }

  // -------------------------------------------------------- the C library's part

  method Memcpy(out: array<Byte>, src: seq<Byte>, n: nat)
    requires n <= |src| && n <= out.Length
    modifies out
    ensures out[..] == src[..n] + old(out[n..])
  {
    var i := 0;
    while i < n
      invariant 0 <= i <= n
      invariant forall j | 0 <= j < i :: out[j] == src[j]
      invariant forall j | i <= j < out.Length :: out[j] == old(out[j])
    {
      out[i] := src[i];
      i := i + 1;
    }
  }

  /** `strcpy(path, out->sun_path)`, with the copy as the result. */
  method Strcpy(field: seq<Byte>) returns (path: seq<Byte>)
    requires 0 in field
    ensures path == CString(field)
  {
    path := [];
    ghost var z :| 0 <= z < |field| && field[z] == 0;
    var i := 0;
    while field[i] != 0
      invariant 0 <= i <= z && path == field[..i] && 0 !in path
      decreases z - i
    {
      path := path + [field[i]];
      i := i + 1;
    }
    CStringIs(field, i);
  }

  method Strlen(s: seq<Byte>) returns (n: nat)
    requires 0 in s
    ensures n == |CString(s)|
  {
    n := 0;
    ghost var z :| 0 <= z < |s| && s[z] == 0;
    while s[n] != 0
      invariant 0 <= n <= z && 0 !in s[..n]
      decreases z - n
    {
      assert s[..n + 1] == s[..n] + [s[n]];
      n := n + 1;
    }
    CStringIs(s, n);
  }

  /** `strncpy(out->sun_path, path, sizeof(out->sun_path) - 1)` and the final NUL. */
  method StorePath(out: array<Byte>, path: seq<Byte>)
    requires out.Length == ADDRESS_SIZE
    modifies out
    ensures out[..] == old(out[..2]) + PathField(path)
  {
    var p := CString(path);
    ghost var padded := Padded(p, PATH_SIZE - 1);
    var i := 0;
    while i < PATH_SIZE - 1
      invariant 0 <= i <= PATH_SIZE - 1
      invariant out[0] == old(out[0]) && out[1] == old(out[1])
      invariant forall j | 2 <= j < 2 + i :: out[j] == padded[j - 2]
    {
      out[2 + i] := if i < |p| then p[i] else 0;
      i := i + 1;
    }
    out[ADDRESS_SIZE - 1] := 0;
    assert out[2..ADDRESS_SIZE - 1] == padded;
    assert out[..] == [out[0], out[1]] + out[2..ADDRESS_SIZE - 1] + [out[ADDRESS_SIZE - 1]];
  }

  /** The path through a vchroot routine: copied out, mapped, copied back and measured. */
  method TranslatePath(out: array<Byte>, vchroot: PathMap) returns (r: Int32, length: nat)
    requires out.Length == ADDRESS_SIZE && 0 in out[2..]
    modifies out
    ensures match MapPath(vchroot, old(out[2..]))
            case Refused(error) => r == error && out[..] == old(out[..])
            case MappedTo(field, n) => r >= 0 && length == n && out[..] == old(out[..2]) + field
  {
    var path := Strcpy(out[2..]);
    var mapped := vchroot(path);
    r, length := mapped.0, 0;
    if r >= 0 {
      StorePath(out, mapped.1);
      FieldEnds(mapped.1);
      assert out[2..] == PathField(mapped.1);
      length := Strlen(out[2..]);
    }
  }

  // ------------------------------------------------------------ the two functions

  /** The address is copied over the front of `out`; a local one must carry a NUL. */
  method SockaddrFixupFromLinux(h: Host, out: array<Byte>, src: seq<Byte>, len: Int32) returns (ret: Int32)
    requires out.Length == ADDRESS_SIZE && 0 <= len <= |src| && len <= ADDRESS_SIZE
    requires var a := src[..len] + out[len..];
             SfamilyLinuxToBsd(h.pf, LinuxFamily(a)) % 0x100 == h.pf.local ==> 0 in a[2..]
    modifies out
    ensures Fixed(ret, out[..]) == FromLinux(h, src[..len] + old(out[len..]), len)
  {
    ret := len;
    Memcpy(out, src, len);
    ghost var a: Address := out[..];
    assert out[2..] == a[2..];
    out[1] := SfamilyLinuxToBsd(h.pf, FamilyWord(out[0], out[1])) % 0x100;
    assert out[..2] == [a[0], out[1]] && out[2..] == a[2..];
    ret := Relabel(h, out, ret);
  }

  /** The rest of sockaddr_fixup_from_linux, once the BSD family is in place. */
  method Relabel(h: Host, out: array<Byte>, len: Int32) returns (ret: Int32)
    requires out.Length == ADDRESS_SIZE && len >= 0
    requires out[1] == h.pf.local ==> 0 in out[2..]
    modifies out
    ensures Fixed(ret, out[..]) == Relabelled(h, old(out[0]), old(out[1]), old(out[2..]), len)
  {
    ghost var low, bsd, rest := out[0], out[1], out[2..];
    assert out[..] == Headed(low, bsd, rest) && out[..2] == [low, bsd];
    ret := len;
    if out[1] == h.pf.local {
      var length;
      ret, length := TranslatePath(out, h.unexpand);
      if ret < 0 {
        assert out[..] == Headed(low, bsd, rest);
        return ErrnoLinuxToBsd(h.errnos, ret);
      }
      ret := 2 + length + 1;
      assert 0 <= ret < 0x100;
      assert out[1] == bsd && out[2..] == MapPath(h.unexpand, rest).field;
    }
    StoreLength(out, ret);
  }

  /** `if (ret >= 0) out->bsd_length = ret`. */
  method StoreLength(out: array<Byte>, ret: Int32)
    requires out.Length == ADDRESS_SIZE
    modifies out
    ensures out[..] == Headed(out[0], old(out[1]), old(out[2..]))
    ensures out[0] == if ret >= 0 then ret % 0x100 else old(out[0])
    ensures 0 <= ret < 0x100 ==> out[0] == ret
  {
    if ret >= 0 {
      out[0] := ret % 0x100;
    }
  }

  method SockaddrFixupFromBsd(h: Host, out: array<Byte>, src: seq<Byte>, len: Int32) returns (ret: Int32)
    requires out.Length == ADDRESS_SIZE && 0 <= len <= |src| && len <= ADDRESS_SIZE
    requires var a := src[..len] + out[len..];
             SfamilyBsdToLinux(h.pf, a[1]) == LINUX_PF_LOCAL ==> 0 in a[2..]
    modifies out
    ensures Fixed(ret, out[..]) == FromBsd(h, src[..len] + old(out[len..]), len)
  {
    ret := len;
    Memcpy(out, src, len);
    ghost var a: Address := out[..];
    assert out[2..] == a[2..];
    var linux := SfamilyBsdToLinux(h.pf, out[1]);
    out[0], out[1] := linux % 0x100, linux / 0x100;
    assert out[..2] == [linux, 0] && out[2..] == a[2..];
    ret := ExpandLocal(h, out, ret);
  }

  /** The rest of sockaddr_fixup_from_bsd, once the Linux family is in place. */
  method ExpandLocal(h: Host, out: array<Byte>, len: Int32) returns (ret: Int32)
    requires out.Length == ADDRESS_SIZE && out[1] == 0
    requires out[0] == LINUX_PF_LOCAL ==> 0 in out[2..]
    modifies out
    ensures Fixed(ret, out[..]) == Expanded(h, old(out[0]), old(out[2..]), len)
  {
    ghost var linux, rest := out[0], out[2..];
    assert out[..] == Headed(linux, 0, rest) && out[..2] == [linux, 0];
    ret := len;
    if FamilyWord(out[0], out[1]) == LINUX_PF_LOCAL {
      var length;
      ret, length := TranslatePath(out, h.expand);
      if ret < 0 {
        return ErrnoLinuxToBsd(h.errnos, ret);
      }
      ret := 2 + length;
    }
  }
}
