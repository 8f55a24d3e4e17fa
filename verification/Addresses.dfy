/** Optional values: the source's nil pointers and nil slices. */
module Options {
  datatype Option<+T> = None | Some(value: T)
}

/**
  IP addresses and networks as canonical values.  Go keeps an IPv4 address either as
  4 bytes or as 16 bytes with a fixed prefix; `V4` stands for both (module `IpBytes`
  relates the two).  A mask is the pair that `net.IPMask.Size` reports.
 */
module Addresses {
  import opened Options

  datatype IP = V4(addr: bv32) | V6(bytes: seq<bv8>)

  datatype Mask = Mask(ones: bv8, bits: bv8)

  datatype Net = Net(ip: IP, mask: Mask)

  /** The 32-bit mask with `ones` leading one bits. */
  function PrefixBits(ones: bv8): bv32
    requires ones <= 32
  {
    !((0xffff_ffff as bv32) >> (ones as bv32))
  }

  /** The leading `ones` bits of `a` are those of `base`, and `base` has no others. */
  predicate InPrefix(a: bv32, base: bv32, ones: bv8) {
    ones <= 32 && a & PrefixBits(ones) == base
  }

  /** An IPv4 network as `net.ParseCIDR` returns it: a 32-bit mask and no host bits set. */
  predicate IsCidr4(n: Net) {
    n.ip.V4? && n.mask.bits == 32 && InPrefix(n.ip.addr, n.ip.addr, n.mask.ones)
  }

  /** The IPv4 network of one address (`ipToIpnet` of the IPsec provider). */
  function Host(ip: IP): Net {
    Net(ip, Mask(32, 32))
  }

  predicate Contains(n: Net, a: bv32) {
    n.ip.V4? && n.mask.bits == 32 && InPrefix(a, n.ip.addr, n.mask.ones)
  }

  ghost predicate Disjoint(m: Net, n: Net) {
    forall a: bv32 :: !(Contains(m, a) && Contains(n, a))
  }

  /** A network contains its own base address. */
  lemma BaseContained(n: Net)
    requires IsCidr4(n)
    ensures Contains(n, n.ip.addr)
  {
  }

  /** Disjoint networks have different base addresses. */
  lemma DisjointBases(m: Net, n: Net)
    requires IsCidr4(m) && IsCidr4(n) && Disjoint(m, n)
    ensures m.ip != n.ip
  {
    BaseContained(m);
    BaseContained(n);
  }

  lemma HostBits(a: bv32)
    ensures InPrefix(a, a, 32)
  {
  }

  lemma HostBitsOnly(a: bv32, b: bv32)
    requires InPrefix(a, b, 32)
    ensures a == b
  {
  }

  /** A host network contains exactly its address. */
  lemma HostContains(ip: IP, a: bv32)
    requires ip.V4?
    ensures Contains(Host(ip), a) <==> a == ip.addr
  {
    HostBits(a);
    if Contains(Host(ip), a) {
      HostBitsOnly(a, ip.addr);
    }
  }

  lemma WholeBits(a: bv32, base: bv32)
    requires InPrefix(base, base, 0)
    ensures InPrefix(a, base, 0)
  {
  }

  /** Only the whole address space has no leading one bits, and it overlaps everything. */
  lemma DisjointIsProper(m: Net, n: Net)
    requires IsCidr4(m) && IsCidr4(n) && Disjoint(m, n)
    ensures 0 < n.mask.ones
  {
    BaseContained(m);
    if n.mask.ones == 0 {
      WholeBits(m.ip.addr, n.ip.addr);
    }
  }

  /** The four bytes of an IPv4 address, most significant first. */
  function Octets(a: bv32): (o: seq<bv8>)
    ensures |o| == 4
  {
    [((a >> 24) & 0xff) as bv8, ((a >> 16) & 0xff) as bv8, ((a >> 8) & 0xff) as bv8, (a & 0xff) as bv8]
  }

  function FromOctets(b0: bv8, b1: bv8, b2: bv8, b3: bv8): bv32 {
    ((b0 as bv32) << 24) | ((b1 as bv32) << 16) | ((b2 as bv32) << 8) | (b3 as bv32)
  }

  lemma OctetsRoundTrip(a: bv32, b0: bv8, b1: bv8, b2: bv8, b3: bv8)
    ensures Octets(FromOctets(b0, b1, b2, b3)) == [b0, b1, b2, b3]
    ensures FromOctets(Octets(a)[0], Octets(a)[1], Octets(a)[2], Octets(a)[3]) == a
    ensures Octets(0x0102_0304) == [1, 2, 3, 4]
  {
  }
}
