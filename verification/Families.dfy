/** conversion/network/duct.c, the socket families. The PF_ values come from the host's
    headers, so they are parameters; Darwin's are given as an instance. */
module Families {
  import opened Words

  const LINUX_PF_LOCAL := 1
  const LINUX_PF_INET := 2
  const LINUX_PF_IPX := 4
  const LINUX_PF_INET6 := 10
  const LINUX_FAMILIES: set<int> := {1, 2, 4, 10}

  datatype FamilyNumbers = FamilyNumbers(local: Byte, inet: Byte, ipx: Byte, inet6: Byte) {
    function Numbers(): set<int> {
      {local, inet, ipx, inet6}
    }
  }

  const DARWIN_FAMILIES := FamilyNumbers(1, 2, 23, 30)

  /** The labels of a C switch are distinct. */
  type HostFamilies = pf: FamilyNumbers |
    && pf.local != pf.inet && pf.local != pf.ipx && pf.local != pf.inet6
    && pf.inet != pf.ipx && pf.inet != pf.inet6 && pf.ipx != pf.inet6
    witness DARWIN_FAMILIES

  function SfamilyLinuxToBsd(pf: HostFamilies, family: int): (r: int)
    ensures 0 <= family < 0x100 ==> 0 <= r < 0x100
  {
    if family == LINUX_PF_LOCAL then pf.local
    else if family == LINUX_PF_INET then pf.inet
    else if family == LINUX_PF_IPX then pf.ipx
    else if family == LINUX_PF_INET6 then pf.inet6
    else family
  }

  function SfamilyBsdToLinux(pf: HostFamilies, family: int): (r: int)
    ensures 0 <= family < 0x100 ==> 0 <= r < 0x100
  {
    if family == pf.local then LINUX_PF_LOCAL
    else if family == pf.inet then LINUX_PF_INET
    else if family == pf.ipx then LINUX_PF_IPX
    else if family == pf.inet6 then LINUX_PF_INET6
    else family
  }

  /** Linux's 1, 2, 4 and 10 are the host's local, inet, ipx and inet6; any other number is
      kept. */
  lemma FamilyNumbersMatch(pf: HostFamilies, family: int)
    ensures SfamilyLinuxToBsd(pf, 1) == pf.local && SfamilyBsdToLinux(pf, pf.local) == 1
    ensures SfamilyLinuxToBsd(pf, 2) == pf.inet && SfamilyBsdToLinux(pf, pf.inet) == 2
    ensures SfamilyLinuxToBsd(pf, 4) == pf.ipx && SfamilyBsdToLinux(pf, pf.ipx) == 4
    ensures SfamilyLinuxToBsd(pf, 10) == pf.inet6 && SfamilyBsdToLinux(pf, pf.inet6) == 10
    ensures family !in {1, 2, 4, 10} ==> SfamilyLinuxToBsd(pf, family) == family
    ensures family !in {pf.local, pf.inet, pf.ipx, pf.inet6} ==> SfamilyBsdToLinux(pf, family) == family
  {
  }

  /** There and back is the identity except on the numbers that mean a translated family on
      the other side only, such as Linux 23 and 30 on a Darwin host. */
  lemma FamilyRoundTrip(pf: HostFamilies, family: int)
    ensures SfamilyBsdToLinux(pf, SfamilyLinuxToBsd(pf, family)) == family
            <==> family in LINUX_FAMILIES || family !in pf.Numbers()
    ensures SfamilyLinuxToBsd(pf, SfamilyBsdToLinux(pf, family)) == family
            <==> family in pf.Numbers() || family !in LINUX_FAMILIES
  {
  }
}
