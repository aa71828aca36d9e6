/**
 * Concrete inputs and the model's answers: common IPv4 cases, and the
 * library's three discrepancies, each as written and as corrected.
 */
module Examples {
  import opened Wrappers
  import opened Text
  import opened AddressText
  import opened RangeSpec
  import IPv4
  import IPv6
  import CIDRmatch
  import Corrected

  const Zero6: Addr6 := [0, 0, 0, 0, 0, 0, 0, 0, 0, 0, 0, 0, 0, 0, 0, 0]
  const One6: Addr6 := [0, 0, 0, 0, 0, 0, 0, 0, 0, 0, 0, 0, 0, 0, 0, 1]

  lemma ParseOneGroup()
    ensures ParseGroupList("1") == Some([1])
  {
    assert HexDigitsValue("1") == 1 by { assert "1"[..0] == ""; }
    assert ParseGroup("1") == Some(1);
    assert Split("1", ':') == ["1"];
    var ts: seq<string> := ["1"];
    assert ts[0] == "1" && ts[1..] == [];
    assert ParseGroups(ts[1..]) == Some([]);
    var g := ParseGroup(ts[0]);
    var rest := ParseGroups(ts[1..]);
    assert ParseGroups(ts) == Some([g.value] + rest.value);
    assert [g.value] + rest.value == [1];
  }

  lemma GroupBytes()
    ensures GroupsToBytes([0, 0, 0, 0, 0, 0, 0, 1]) == One6
    ensures GroupsToBytes([0, 0, 0, 0, 0, 0, 0, 0]) == Zero6
  {
  }

  /** `::1` is the loopback address. */
  lemma ParseLoopback()
    ensures ParseV6("::1") == Some(One6)
  {
    assert FindDoubleColon("::1") == Some(0);
    assert "::1"[..0] == "";
    assert "::1"[2..] == "1";
    ParseOneGroup();
    var zeros: seq<nat> := seq(7, _ => 0);
    assert [] + zeros + [1] == [0, 0, 0, 0, 0, 0, 0, 1];
    assert ParseCompressed("::1", 0) == Some(GroupsToBytes([0, 0, 0, 0, 0, 0, 0, 1]));
    GroupBytes();
  }

  /** `::` is the all-zero address. */
  lemma ParseUnspecified()
    ensures ParseV6("::") == Some(Zero6)
  {
    assert FindDoubleColon("::") == Some(0);
    assert "::"[..0] == "";
    assert "::"[2..] == "";
    var zeros: seq<nat> := seq(8, _ => 0);
    assert [] + zeros + [] == [0, 0, 0, 0, 0, 0, 0, 0];
    assert ParseCompressed("::", 0) == Some(GroupsToBytes([0, 0, 0, 0, 0, 0, 0, 0]));
    GroupBytes();
  }

  lemma ZeroByteHasNoBits(j: nat)
    requires j < 8
    ensures !IPv6.ByteBit(0, j)
  {
  }

  /** The last bit of `::1` is set. */
  lemma LoopbackLastBit()
    ensures IPv6.Bit(One6, 127)
  {
  }

  lemma ThirtyTwo()
    ensures NatToDecimal(32) == "32"
  {
  }

  /** The first 32 bits of `::1` are zero, so `::/32` holds it. */
  lemma LoopbackInZeroSlash32()
    ensures IPv6.ContainsV6(One6, Prefix(Zero6, 32))
  {
    forall i | 0 <= i < 128
      ensures IPv6.Bit(Zero6, i) <==> i < 32 && IPv6.Bit(One6, i)
    {
      ZeroByteHasNoBits(i % 8);
    }
  }

  /**
   * As written: the bare spec `::` takes the mask 32, so it admits `::1`,
   * a different address.
   */
  lemma BareV6SpecMatchesOtherAddress()
    ensures ParseV6("::1") != ParseV6("::")
    ensures CIDRmatch.Match("::1", "::")
  {
    ParseLoopback();
    ParseUnspecified();
    assert One6[15] != Zero6[15];
    LoopbackInZeroSlash32();
    CIDRmatch.MatchBareV6("::1", "::");
  }

  /** Corrected: the bare spec `::` is the single address `::`. */
  lemma BareV6SpecIsExact()
    ensures !Corrected.Match("::1", "::")
  {
    ParseLoopback();
    ParseUnspecified();
    assert One6[15] != Zero6[15];
    Corrected.MatchBareV6("::1", "::");
  }

  /**
   * As written: `::1/32` has a host bit set in its base, so it matches
   * nothing, not even `::1` itself.
   */
  lemma UnalignedV6SpecMissesItsBase()
    ensures !CIDRmatch.Match("::1", "::1/32")
  {
    ParseLoopback();
    ThirtyTwo();
    LoopbackLastBit();
    var cidr := "::1" + "/" + NatToDecimal(32);
    assert cidr == "::1/32";
    CIDRmatch.UnalignedV6BaseMatchesNothing("::1", "::1", 32, 127);
    assert !CIDRmatch.Match("::1", cidr);
  }

  /** Corrected: `::1/32` is the block `::/32`, which holds `::1`. */
  lemma UnalignedV6SpecHoldsItsBase()
    ensures Corrected.Match("::1", "::1/32")
  {
    ParseLoopback();
    ThirtyTwo();
    var cidr := "::1" + "/" + NatToDecimal(32);
    assert cidr == "::1/32";
    Corrected.MatchOwnBaseV6("::1", 32);
    assert Corrected.Match("::1", cidr);
  }

  /**
   * `10.0.0.5` is in `10.0.0.0/24` and `10.0.1.5` is not, whatever texts
   * spell those addresses (`DottedQuad` gives one, by `ParseDottedQuad`).
   */
  lemma Slash24(ip: string, base: string)
    requires ParseV4(base) == Some(0x0A00_0000)
    ensures ParseV4(ip) == Some(0x0A00_0005) ==> CIDRmatch.Match(ip, base + "/" + NatToDecimal(24))
    ensures ParseV4(ip) == Some(0x0A00_0105) ==> !CIDRmatch.Match(ip, base + "/" + NatToDecimal(24))
  {
    assert IPv4.TopBits(0x0A00_0000, 24) == 0x0A_0000;
    if ParseV4(ip) == Some(0x0A00_0005) {
      CIDRmatch.MatchPrefixV4(ip, base, 24);
      assert IPv4.TopBits(0x0A00_0005, 24) == 0x0A_0000;
    }
    if ParseV4(ip) == Some(0x0A00_0105) {
      CIDRmatch.MatchPrefixV4(ip, base, 24);
      assert IPv4.TopBits(0x0A00_0105, 24) == 0x0A_0001;
    }
  }

  /**
   * `192.168.1.10` is in `192.168.1.1-192.168.1.100` and `192.168.1.200`
   * is not, whatever texts spell those addresses.
   */
  lemma Range192(ip: string, low: string, high: string)
    requires ParseV4(low) == Some(0xC0A8_0101) && ParseV4(high) == Some(0xC0A8_0164)
    ensures ParseV4(ip) == Some(0xC0A8_010A) ==> CIDRmatch.Match(ip, low + "-" + high)
    ensures ParseV4(ip) == Some(0xC0A8_01C8) ==> !CIDRmatch.Match(ip, low + "-" + high)
  {
    CIDRmatch.V4Alphabet(low);
    CIDRmatch.V4Alphabet(high);
    CIDRmatch.ValidTextTrimmed(low);
    CIDRmatch.ValidTextTrimmed(high);
    if ParseV4(ip).Some? {
      CIDRmatch.MatchRangeV4(ip, low, high);
    }
  }

  /**
   * As written: `IPv4Match` called directly with a text that is no address
   * (`not-an-ip`, say) matches `0.0.0.0` (any text that reads as 0, such as
   * `DottedQuad(0, 0, 0, 0)`) under every mask, since `ip2long` gives false
   * and false reads as 0. Corrected: it matches nothing.
   */
  lemma InvalidQueryInZeroNetwork(address: string, base: string, p: nat)
    requires ParseV4(address).None? && ParseV4(base) == Some(0) && p <= 32
    ensures IPv4.IPv4Match(address, base, Some(p))
    ensures !Corrected.IPv4Match(address, base, Some(p))
  {
    CIDRmatch.V4Alphabet(base);
    SplitRangeOfSingle(base);
    IPv4.IPv4MatchInvalidAddress(address, base, p);
    IPv4.ShiftRightZero(32 - p);
  }

  /** `not-an-ip` is no address, so it matches nothing, `10.0.0.0/8` included. */
  lemma NotAnAddress()
    ensures ParseV4("not-an-ip").None? && ParseV6("not-an-ip").None?
    ensures !CIDRmatch.Match("not-an-ip", "10.0.0.0/8")
  {
    assert '.' !in "not-an-ip";
    assert ':' !in "not-an-ip";
  }
}
