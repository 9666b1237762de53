/** `is_public_ip`: a block is public when it meets none of the three RFC 1918 blocks. */
module PublicIp {
  import opened Wrappers
  import opened Ipv4

  /** 10.0.0.0/8, 172.16.0.0/12 and 192.168.0.0/16. */
  const PRIVATE_BLOCKS: seq<(nat, nat)> := [(0x0A00_0000, 8), (0xAC10_0000, 12), (0xC0A8_0000, 16)]

  function PrivateNetworks(): (r: seq<NetworkT>)
    ensures |r| == 3
    ensures forall k :: 0 <= k < 3 ==> r[k] == Network(PRIVATE_BLOCKS[k].0, PRIVATE_BLOCKS[k].1)
    ensures forall k :: 0 <= k < 3 ==> r[k].Valid()
  {
    PrivateBlocksAreValid();
    seq(3, k requires 0 <= k < 3 => Network(PRIVATE_BLOCKS[k].0, PRIVATE_BLOCKS[k].1))
  }

  lemma PowersUsed()
    ensures Pow2(16) == 0x1_0000 && Pow2(20) == 0x10_0000 && Pow2(24) == 0x100_0000 && Pow2(32) == 0x1_0000_0000
  {
    assert Pow2(4) == 16;
    Pow2Sum(4, 4);
    Pow2Sum(8, 8);
    Pow2Sum(16, 4);
    Pow2Sum(16, 8);
    Pow2Sum(16, 16);
  }

  lemma PrivateBlocksAreValid()
    ensures forall k :: 0 <= k < 3 ==> Network(PRIVATE_BLOCKS[k].0, PRIVATE_BLOCKS[k].1).Valid()
  {
    PowersUsed();
  }

  /** A private address of section 3 of RFC 1918. */
  predicate IsPrivateAddress(a: int) {
    || 0x0A00_0000 <= a <= 0x0AFF_FFFF
    || 0xAC10_0000 <= a <= 0xAC1F_FFFF
    || 0xC0A8_0000 <= a <= 0xC0A8_FFFF
  }

  /** An address or network text as parsed: the version, the number and the prefix length. */
  datatype IpText = Version4(address: int, prefix: int) | Version6(address: int, prefix: int)

  datatype IpNetwork = Net4(net: NetworkT) | Net6(base: nat, prefix: nat)

  const BITS_6: nat := 128

  predicate WellFormed(ip: IpText) {
    match ip
    case Version4(address, prefix) => IsAddress(address) && 0 <= prefix <= ADDRESS_BITS
    case Version6(address, prefix) => 0 <= address < Pow2(BITS_6) && 0 <= prefix <= BITS_6
  }

  /** `ip_network(ip, strict=False)`: host bits are cleared. */
  function IpNetworkOf(ip: IpText): (r: Result<IpNetwork, NetworkError>)
    ensures r.Ok? && r.value.Net4? ==> r.value.net.Valid()
  {
    match ip
    case Version4(address, prefix) =>
      (match MakeNetwork(address, prefix, false)
       case Err(e) => Err(e)
       case Ok(net) => Ok(Net4(net)))
    case Version6(address, prefix) =>
      if address < 0 || address >= Pow2(BITS_6) || prefix < 0 || prefix > BITS_6 then Err(NotANetwork)
      else
        Pow2Monotone(BITS_6 - prefix, BITS_6);
        Ok(Net6(And(address, Pow2(BITS_6) - Pow2(BITS_6 - prefix)), prefix))
  }

  /** The modelled function: clear the host bits, then test overlap with the private blocks. */
  function IsPublicIp(ip: IpText): Result<bool, NetworkError> {
    match IpNetworkOf(ip)
    case Err(e) => Err(e)
    case Ok(net) => Ok(!MeetsPrivateBlock(net))
  }

  /** A network overlaps no network of the other version: none of its end points is in it. */
  predicate MeetsPrivateBlock(net: IpNetwork)
    requires net.Net4? ==> net.net.Valid()
  {
    net.Net4? && exists k :: 0 <= k < 3 && net.net.Overlaps(PrivateNetworks()[k])
  }

  lemma PrivateBlockAddresses(a: int)
    ensures IsPrivateAddress(a) <==> exists k :: 0 <= k < 3 && a in PrivateNetworks()[k].Addresses()
  {
    PowersUsed();
    var nets := PrivateNetworks();
    assert a in nets[0].Addresses() <==> 0x0A00_0000 <= a <= 0x0AFF_FFFF;
    assert a in nets[1].Addresses() <==> 0xAC10_0000 <= a <= 0xAC1F_FFFF;
    assert a in nets[2].Addresses() <==> 0xC0A8_0000 <= a <= 0xC0A8_FFFF;
  }

  /** The block of an address and a prefix length, host bits cleared, holds no private address. */
  ghost predicate BlockIsPublic(address: int, prefix: int)
    requires IsAddress(address) && 0 <= prefix <= ADDRESS_BITS
  {
    var start := address - address % Size(prefix);
    forall a :: start <= a < start + Size(prefix) ==> !IsPrivateAddress(a)
  }

  /** Overlapping some private block is holding some private address. */
  lemma OverlapIsPrivate(net: NetworkT)
    requires net.Valid()
    ensures MeetsPrivateBlock(Net4(net)) <==> exists a :: a in net.Addresses() && IsPrivateAddress(a)
  {
    var nets := PrivateNetworks();
    if k :| 0 <= k < 3 && net.Overlaps(nets[k]) {
      OverlapsMeaning(net, nets[k]);
      var a :| a in net.Addresses() && a in nets[k].Addresses();
      PrivateBlockAddresses(a);
    }
    if a :| a in net.Addresses() && IsPrivateAddress(a) {
      PrivateBlockAddresses(a);
      var k :| 0 <= k < 3 && a in nets[k].Addresses();
      OverlapsMeaning(net, nets[k]);
    }
  }

  /**
   `is_public_ip` rejects malformed input, says of a version 4 block whether it is public, and
   calls every version 6 block public.
   */
  lemma IsPublicIpMeaning(ip: IpText)
    ensures if !WellFormed(ip) then IsPublicIp(ip).Err?
            else IsPublicIp(ip) == Ok(ip.Version6? || BlockIsPublic(ip.address, ip.prefix))
  {
    if WellFormed(ip) && ip.Version4? {
      OverlapIsPrivate(MakeNetwork(ip.address, ip.prefix, false).value);
    }
  }

  /** The unique local addresses of version 6, fc00::/7, count as public. */
  lemma UniqueLocalIsPublic()
    ensures IsPublicIp(Version6(0xFC00 * Pow2(112), 7)) == Ok(true)
  {
    PowersUsed();
    Pow2Sum(16, 112);
    IsPublicIpMeaning(Version6(0xFC00 * Pow2(112), 7));
  }

  /** Number of addresses of a block, whatever its version. */
  function BlockSize(ip: IpText): nat
    requires WellFormed(ip)
  {
    if ip.Version4? then Size(ip.prefix) else Pow2(BITS_6 - ip.prefix)
  }

  /** The block of one text lies inside that of another: same version, longer prefix, same leading bits. */
  predicate Inside(inner: IpText, outer: IpText)
    requires WellFormed(inner) && WellFormed(outer)
  {
    && inner.Version4? == outer.Version4? && outer.prefix <= inner.prefix
    && inner.address / BlockSize(outer) == outer.address / BlockSize(outer)
  }

  lemma SameBlock(x: int, y: int, size: int)
    requires size > 0 && x / size == y / size
    ensures x - x % size == y - y % size
  {
    assert x == size * (x / size) + x % size && y == size * (y / size) + y % size;
  }

  /** A block inside a public block is public. */
  lemma PublicIsInherited(outer: IpText, inner: IpText)
    requires WellFormed(outer) && WellFormed(inner)
    ensures Inside(inner, outer) && IsPublicIp(outer) == Ok(true) ==> IsPublicIp(inner) == Ok(true)
  {
    IsPublicIpMeaning(outer);
    IsPublicIpMeaning(inner);
    if Inside(inner, outer) && IsPublicIp(outer) == Ok(true) && outer.Version4? {
      SameBlock(inner.address, outer.address, Size(outer.prefix));
      BlockInherits(outer.address, outer.prefix, inner.address, inner.prefix);
    }
  }

  lemma BlockInherits(address: int, prefix: int, inner: int, innerPrefix: int)
    requires IsAddress(address) && IsAddress(inner) && 0 <= prefix <= innerPrefix <= ADDRESS_BITS
    requires inner - inner % Size(prefix) == address - address % Size(prefix)
    requires BlockIsPublic(address, prefix)
    ensures BlockIsPublic(inner, innerPrefix)
  {
    var outer, nested := MakeNetwork(address, prefix, false).value, MakeNetwork(inner, innerPrefix, false).value;
    NestedOrDisjoint(nested, outer);
    assert inner in nested.Addresses() && inner in outer.Addresses();
    forall a | nested.base <= a < nested.base + Size(innerPrefix)
      ensures !IsPrivateAddress(a)
    {
      assert a in nested.Addresses();
      assert a in outer.Addresses();
    }
  }
}
