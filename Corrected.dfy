/**
 * The behaviour the library evidently intends, next to the behaviour it
 * has (modules CIDRmatch, IPv4 and IPv6). Three changes: a spec without `/`
 * takes the family's full width as its mask (128 for IPv6, not 32), the
 * IPv6 prefix test masks the base as well as the query, as the IPv4 test
 * does, and the IPv4 matcher rejects a query text that is not an address.
 */
module Corrected {
  import opened Wrappers
  import opened Text
  import opened AddressText
  import opened RangeSpec
  import IPv4
  import IPv6
  import CIDRmatch

  /** The mask a spec without `/` stands for: the whole address. */
  function DefaultMask(family: Family): nat {
    match family
    case V4 => 32
    case V6 => 128
  }

  /** `explode('/', $cidr)` with the family's full width as the missing mask. */
  function SubnetAndMask(cidr: string, family: Family): (r: (string, Option<int>))
    ensures '/' !in cidr ==> r == (cidr, Some(DefaultMask(family)))
    ensures '/' in cidr ==> r == CIDRmatch.SubnetAndMask(cidr)
  {
    var c := Split(cidr, '/');
    var mask := if |c| >= 2 then CIDRmatch.ParseMask(c[1]) else Some(DefaultMask(family));
    (c[0], mask)
  }

  /**
   * IPv6 containment with the base masked too: a prefix spec holds exactly
   * when the first `p` bits of query and base agree, whatever the base's
   * other bits.
   */
  function ContainsV6(addr: Addr6, spec: RangeSpec<Addr6>): (b: bool)
    requires spec.Prefix? ==> spec.length <= 128
    ensures spec.Bounds? ==> b == IPv6.ContainsV6(addr, spec)
    ensures spec.Prefix? ==>
      (b <==> forall i :: 0 <= i < spec.length ==> (IPv6.Bit(addr, i) <==> IPv6.Bit(spec.base, i)))
  {
    match spec
    case Bounds(_, _) => IPv6.ContainsV6(addr, spec)
    case Prefix(base, p) =>
      var mask := IPv6.IPv6MaskToByteArray(p);
      var network := IPv6.And(base, mask);
      var masked := IPv6.And(addr, mask);
      IPv6.BitsEqual(masked, network);
      masked == network
  }

  /** The IPv6 matcher with the base masked. */
  function IPv6Match(address: string, subnet: string, mask: Option<int>): (b: bool)
    requires ParseV6(address).Some?
    ensures b ==> MaskInRange(mask, 128)
    ensures b ==> ParseV6(BaseText(SplitRange(subnet))).Some?
  {
    match ParseSpec(subnet, mask, 128, ParseV6)
    case None => false
    case Some(spec) => ContainsV6(ParseV6(address).value, spec)
  }

  /** The IPv4 matcher with the query text validated first. */
  function IPv4Match(address: string, subnet: string, mask: Option<int>): (b: bool)
    ensures ParseV4(address).None? ==> !b
    ensures ParseV4(address).Some? ==> b == IPv4.IPv4Match(address, subnet, mask)
  {
    ParseV4(address).Some? && IPv4.IPv4Match(address, subnet, mask)
  }

  /** `match` with the corrections; on a valid IPv4 query it agrees with the library. */
  function Match(ip: string, cidr: string): (b: bool)
    ensures Classify(ip).None? ==> !b
    ensures Classify(ip).Some? && ip == cidr ==> b
    ensures Classify(ip) == Some(V4) && '/' in cidr ==> b == CIDRmatch.Match(ip, cidr)
  {
    match Classify(ip)
    case None => false
    case Some(family) =>
      var (subnet, mask) := SubnetAndMask(cidr, family);
      if ip == cidr then true
      else match family
        case V4 => IPv4Match(ip, subnet, mask)
        case V6 => IPv6Match(ip, subnet, mask)
  }

  /** A bare IPv6 spec matches exactly the address it names. */
  lemma MatchBareV6(ip: string, base: string)
    requires ParseV6(ip).Some? && ParseV6(base).Some?
    ensures Match(ip, base) <==> ParseV6(ip) == ParseV6(base)
  {
    var a, b := ParseV6(ip).value, ParseV6(base).value;
    CIDRmatch.V6Alphabet(base);
    FamiliesDisjoint(ip);
    SplitRangeOfSingle(base);
    assert ParseSpec(base, Some(128), 128, ParseV6) == Some(Prefix(b, 128));
    IPv6.BitsEqual(a, b);
  }

  /** Every valid IPv6 base matches `base/p`, whatever its host bits. */
  lemma MatchOwnBaseV6(base: string, p: nat)
    requires ParseV6(base).Some? && p <= 128
    ensures Match(base, base + "/" + NatToDecimal(p))
  {
    var cidr := base + "/" + NatToDecimal(p);
    CIDRmatch.V6Alphabet(base);
    FamiliesDisjoint(base);
    assert cidr[|base|] == '/';
    CIDRmatch.SubnetAndMaskOfSlash(base, NatToDecimal(p));
    CIDRmatch.ParseMaskDecimal(p);
    SplitRangeOfSingle(base);
    assert ParseSpec(base, Some(p), 128, ParseV6) == Some(Prefix(ParseV6(base).value, p));
  }

}
