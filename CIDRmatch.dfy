/**
 * `CIDRmatch::match($ip, $cidr)`: classify the query address, take the
 * exact-text fast path, then hand the subnet text and the mask to the
 * family's matcher.
 */
module CIDRmatch {
  import opened Wrappers
  import opened Text
  import opened AddressText
  import opened RangeSpec
  import IPv4
  import IPv6

  /**
   * The mask text as an integer: an optional `-` and decimal digits. The
   * empty text and any other text have no value and are rejected by the
   * matchers.
   */
  function ParseMask(text: string): (r: Option<int>)
    ensures text == "" ==> r.None?
    ensures r.Some? ==> |text| >= 1 && (IsDigit(text[0]) || (text[0] == '-' && |text| >= 2))
    ensures r.Some? ==> forall k :: 0 < k < |text| ==> IsDigit(text[k])
  {
    if |text| > 1 && text[0] == '-' && AllDigits(text[1..]) then
      assert forall k :: 0 < k < |text| ==> text[k] == text[1..][k - 1];
      Some(0 - DecimalValue(text[1..]))
    else if |text| > 0 && AllDigits(text) then Some(DecimalValue(text))
    else None
  }

  /** A decimal numeral reads back as its value, and so does a negated one. */
  lemma ParseMaskDecimal(n: nat)
    ensures ParseMask(NatToDecimal(n)) == Some(n)
    ensures ParseMask("-" + NatToDecimal(n)) == Some(0 - n)
  {
    var d := NatToDecimal(n);
    assert ("-" + d)[1..] == d;
  }

  /**
   * `explode('/', $cidr)`: the subnet text is the first piece and the mask
   * the second; pieces after the second are ignored, and without any `/`
   * the mask is 32.
   */
  function SubnetAndMask(cidr: string): (r: (string, Option<int>))
    ensures '/' !in cidr ==> r == (cidr, Some(32))
    ensures '/' !in r.0
  {
    var c := Split(cidr, '/');
    var subnet := c[0];
    var mask := if |c| >= 2 then ParseMask(c[1]) else Some(32);
    (subnet, mask)
  }

  /** A spec written `subnet/mask` splits into its two sides. */
  lemma SubnetAndMaskOfSlash(subnet: string, maskText: string)
    requires '/' !in subnet && '/' !in maskText
    ensures SubnetAndMask(subnet + "/" + maskText) == (subnet, ParseMask(maskText))
  {
    SplitJoin([subnet, maskText], '/');
    assert Join([subnet, maskText], '/') == subnet + "/" + maskText;
  }

  /**
   * `match($ip, $cidr)`. A query that is neither valid IPv4 nor valid IPv6
   * never matches, even when it is the spec text itself; a valid query that
   * is the spec text always does.
   */
  function Match(ip: string, cidr: string): (b: bool)
    ensures Classify(ip).None? ==> !b
    ensures Classify(ip).Some? && ip == cidr ==> b
  {
    var (subnet, mask) := SubnetAndMask(cidr);
    match Classify(ip)
    case None => false
    case Some(family) =>
      if ip == cidr then true
      else match family
        case V4 => IPv4.IPv4Match(ip, subnet, mask)
        case V6 => IPv6.IPv6Match(ip, subnet, mask)
  }

  /** Past the fast path, a valid IPv4 query is the IPv4 matcher's business. */
  lemma MatchV4Unfold(ip: string, cidr: string)
    requires ParseV4(ip).Some? && ip != cidr
    ensures Match(ip, cidr) == IPv4.IPv4Match(ip, SubnetAndMask(cidr).0, SubnetAndMask(cidr).1)
  {
  }

  /** Past the fast path, a valid IPv6 query is the IPv6 matcher's business. */
  lemma MatchV6Unfold(ip: string, cidr: string)
    requires ParseV6(ip).Some? && ip != cidr
    ensures Match(ip, cidr) == IPv6.IPv6Match(ip, SubnetAndMask(cidr).0, SubnetAndMask(cidr).1)
  {
    FamiliesDisjoint(ip);
  }

  /** A valid IPv4 text has no `/`, `-` or `:`, and neither has a valid IPv6 text except `:`. */
  lemma V4Alphabet(s: string)
    requires ParseV4(s).Some?
    ensures '/' !in s && '-' !in s && ':' !in s
  {
    DecimalText(s);
  }

  lemma V6Alphabet(s: string)
    requires ParseV6(s).Some?
    ensures '/' !in s && '-' !in s && ':' in s
  {
    HexText(s);
  }

  /** `trim` leaves a valid address text unchanged. */
  lemma ValidTextTrimmed(s: string)
    requires ParseV4(s).Some? || ParseV6(s).Some?
    ensures Trim(s) == s
  {
    if ParseV4(s).Some? {
      DecimalText(s);
    } else {
      HexText(s);
    }
  }

  /** Text made of hex digits and colons has no `/` or `-`, and `trim` keeps it. */
  lemma HexText(s: string)
    requires forall k :: 0 <= k < |s| ==> IsHexDigit(s[k]) || s[k] == ':'
    ensures '/' !in s && '-' !in s && Trim(s) == s
  {
    forall k | 0 <= k < |s|
      ensures s[k] != '/' && s[k] != '-'
    {
      assert IsHexDigit(s[k]) || s[k] == ':';
    }
    if s != [] {
      assert IsHexDigit(s[0]) || s[0] == ':';
      assert IsHexDigit(s[|s| - 1]) || s[|s| - 1] == ':';
    }
    TrimKeeps(s);
  }

  /** Text made of digits and dots has no `/`, `-` or `:`, and `trim` keeps it. */
  lemma DecimalText(s: string)
    requires forall k :: 0 <= k < |s| ==> IsDigit(s[k]) || s[k] == '.'
    ensures '/' !in s && '-' !in s && ':' !in s && Trim(s) == s
  {
    forall k | 0 <= k < |s|
      ensures s[k] != '/' && s[k] != '-' && s[k] != ':'
    {
      assert IsDigit(s[k]) || s[k] == '.';
    }
    if s != [] {
      assert IsDigit(s[0]) || s[0] == '.';
      assert IsDigit(s[|s| - 1]) || s[|s| - 1] == '.';
    }
    TrimKeeps(s);
  }

  /** `base/p` for a valid IPv4 query and base: true exactly when their top `p` bits agree. */
  lemma MatchPrefixV4(ip: string, base: string, p: nat)
    requires ParseV4(ip).Some? && ParseV4(base).Some? && p <= 32
    ensures Match(ip, base + "/" + NatToDecimal(p)) <==>
      IPv4.TopBits(ParseV4(ip).value, p) == IPv4.TopBits(ParseV4(base).value, p)
  {
    var cidr := base + "/" + NatToDecimal(p);
    V4Alphabet(ip);
    V4Alphabet(base);
    assert cidr[|base|] == '/';
    MatchV4Unfold(ip, cidr);
    SubnetAndMaskOfSlash(base, NatToDecimal(p));
    ParseMaskDecimal(p);
    SplitRangeOfSingle(base);
    IPv4.IPv4MatchPrefix(ip, base, p);
  }

  /** A valid IPv4 base always matches `base/p`, whatever its host bits. */
  lemma MatchOwnBaseV4(base: string, p: nat)
    requires ParseV4(base).Some? && p <= 32
    ensures Match(base, base + "/" + NatToDecimal(p))
  {
    MatchPrefixV4(base, base, p);
  }

  /** `base/0` matches every valid IPv4 query; `base/32` only the same address. */
  lemma MatchPrefixExtremesV4(ip: string, base: string)
    requires ParseV4(ip).Some? && ParseV4(base).Some?
    ensures Match(ip, base + "/" + NatToDecimal(0))
    ensures Match(ip, base + "/" + NatToDecimal(32)) <==> ParseV4(ip) == ParseV4(base)
  {
    MatchPrefixV4(ip, base, 0);
    MatchPrefixV4(ip, base, 32);
    IPv4.PrefixExtremes(ParseV4(ip).value, ParseV4(base).value);
  }

  /** A bare IPv4 spec (no `/`) takes mask 32: it matches exactly the same address. */
  lemma MatchBareV4(ip: string, base: string)
    requires ParseV4(ip).Some? && ParseV4(base).Some?
    ensures Match(ip, base) <==> ParseV4(ip) == ParseV4(base)
  {
    V4Alphabet(base);
    SplitRangeOfSingle(base);
    IPv4.PrefixExtremes(ParseV4(ip).value, ParseV4(base).value);
  }

  /** Gluing two texts around a separator adds no character but the separator. */
  lemma GlueChars(a: string, sep: char, b: string, c: char)
    requires c !in a && c !in b && c != sep
    ensures c !in a + [sep] + b
  {
  }

  /**
   * `low-high` for a valid IPv4 query: when both trimmed sides are valid,
   * an inclusive unsigned comparison (so `low > high` matches nothing).
   */
  lemma MatchRangeV4(ip: string, low: string, high: string)
    requires ParseV4(ip).Some?
    requires '-' !in low && '-' !in high && '/' !in low && '/' !in high
    requires ParseV4(Trim(low)).Some? && ParseV4(Trim(high)).Some?
    ensures Match(ip, low + "-" + high) <==>
      ParseV4(Trim(low)).value <= ParseV4(ip).value <= ParseV4(Trim(high)).value
  {
    var cidr := low + "-" + high;
    V4Alphabet(ip);
    assert cidr[|low|] == '-';
    GlueChars(low, '-', high, '/');
    MatchV4Unfold(ip, cidr);
    SplitRangeOfPair(low, high);
    IPv4.IPv4MatchRange(ip, cidr, Some(32), Trim(low), Trim(high));
  }

  /**
   * `low-high` for a valid IPv6 query: when both trimmed sides are valid,
   * the order of the 128-bit numbers, i.e. byte-lexicographic order.
   */
  lemma MatchRangeV6(ip: string, low: string, high: string)
    requires ParseV6(ip).Some?
    requires '-' !in low && '-' !in high && '/' !in low && '/' !in high
    requires ParseV6(Trim(low)).Some? && ParseV6(Trim(high)).Some?
    ensures Match(ip, low + "-" + high) <==>
      IPv6.Value(ParseV6(Trim(low)).value) <= IPv6.Value(ParseV6(ip).value) <= IPv6.Value(ParseV6(Trim(high)).value)
  {
    var cidr := low + "-" + high;
    V6Alphabet(ip);
    assert cidr[|low|] == '-';
    GlueChars(low, '-', high, '/');
    MatchV6Unfold(ip, cidr);
    SplitRangeOfPair(low, high);
    IPv6.IPv6MatchRange(ip, cidr, Some(32), Trim(low), Trim(high));
  }

  /**
   * A mask outside [0, 32] rejects every IPv4 query, even for a range spec
   * where the mask plays no other part.
   */
  lemma MaskOutOfRangeV4(ip: string, subnet: string, p: nat)
    requires ParseV4(ip).Some? && '/' !in subnet && p > 32
    ensures !Match(ip, subnet + "/" + NatToDecimal(p))
  {
    V4Alphabet(ip);
    var cidr := subnet + "/" + NatToDecimal(p);
    assert cidr[|subnet|] == '/';
    SubnetAndMaskOfSlash(subnet, NatToDecimal(p));
    ParseMaskDecimal(p);
  }

  /** A negative mask rejects every valid query, for either family and any subnet text. */
  lemma NegativeMaskRejects(ip: string, subnet: string, n: nat)
    requires Classify(ip).Some? && '/' !in subnet && n > 0
    ensures !Match(ip, subnet + "/-" + NatToDecimal(n))
  {
    var maskText := "-" + NatToDecimal(n);
    var cidr := subnet + "/" + maskText;
    assert subnet + "/-" + NatToDecimal(n) == cidr;
    assert cidr[|subnet|] == '/';
    ParseMaskDecimal(n);
    assert '/' !in maskText by {
      assert forall k :: 0 < k < |maskText| ==> maskText[k] == NatToDecimal(n)[k - 1];
    }
    SubnetAndMaskOfSlash(subnet, maskText);
    if ParseV4(ip).Some? {
      V4Alphabet(ip);
      MatchV4Unfold(ip, cidr);
    } else {
      V6Alphabet(ip);
      MatchV6Unfold(ip, cidr);
    }
  }

  /** A mask outside [0, 128] rejects every IPv6 query, even for a range spec. */
  lemma MaskOutOfRangeV6(ip: string, subnet: string, p: nat)
    requires ParseV6(ip).Some? && '/' !in subnet && p > 128
    ensures !Match(ip, subnet + "/" + NatToDecimal(p))
  {
    V6Alphabet(ip);
    var cidr := subnet + "/" + NatToDecimal(p);
    assert cidr[|subnet|] == '/';
    SubnetAndMaskOfSlash(subnet, NatToDecimal(p));
    ParseMaskDecimal(p);
    MatchV6Unfold(ip, cidr);
  }

  /**
   * A subnet text with two or more `-` is not a range (the pieces are not
   * two) and is no address either, so it rejects every query but itself.
   */
  lemma ManyDashesReject(ip: string, cidr: string)
    requires ip != cidr && Count(SubnetAndMask(cidr).0, '-') >= 2
    ensures !Match(ip, cidr)
  {
    var subnet := SubnetAndMask(cidr).0;
    assert SplitRange(subnet) == Single(subnet);
    assert '-' in subnet;
    if ParseV4(subnet).Some? {
      V4Alphabet(subnet);
    }
    if ParseV6(subnet).Some? {
      V6Alphabet(subnet);
    }
    if ParseV4(ip).Some? {
      MatchV4Unfold(ip, cidr);
    } else if ParseV6(ip).Some? {
      MatchV6Unfold(ip, cidr);
    }
  }

  /** A range whose high side is not a valid address of the query's family rejects the query. */
  lemma InvalidHighRejects(ip: string, low: string, high: string)
    requires Classify(ip).Some? && ip != low + "-" + high
    requires '-' !in low && '-' !in high && '/' !in low && '/' !in high
    requires ParseV4(ip).Some? ==> ParseV4(Trim(high)).None?
    requires ParseV6(ip).Some? ==> ParseV6(Trim(high)).None?
    ensures !Match(ip, low + "-" + high)
  {
    var cidr := low + "-" + high;
    assert cidr[|low|] == '-';
    GlueChars(low, '-', high, '/');
    SplitRangeOfPair(low, high);
    if ParseV4(ip).Some? {
      MatchV4Unfold(ip, cidr);
    } else {
      MatchV6Unfold(ip, cidr);
    }
  }

  /** A mask text that is empty rejects every query except the spec text itself. */
  lemma EmptyMaskRejects(ip: string, subnet: string)
    requires '/' !in subnet && ip != subnet + "/"
    ensures !Match(ip, subnet + "/")
  {
    var cidr := subnet + "/";
    assert cidr == subnet + "/" + "";
    SubnetAndMaskOfSlash(subnet, "");
    assert SubnetAndMask(cidr) == (subnet, None);
    if ParseV4(ip).Some? {
      MatchV4Unfold(ip, cidr);
    } else if ParseV6(ip).Some? {
      MatchV6Unfold(ip, cidr);
    }
  }

  /** An IPv4 query never matches a spec whose address is IPv6, with or without a mask. */
  lemma FamilyMismatchV4(ip: string, base: string, p: nat)
    requires ParseV4(ip).Some? && ParseV6(base).Some?
    ensures !Match(ip, base + "/" + NatToDecimal(p))
    ensures !Match(ip, base)
  {
    var cidr := base + "/" + NatToDecimal(p);
    V4Alphabet(ip);
    V6Alphabet(base);
    FamiliesDisjoint(base);
    SplitRangeOfSingle(base);
    var k :| 0 <= k < |base| && base[k] == ':';
    assert cidr[k] == ':';
    assert cidr[|base|] == '/';
    SubnetAndMaskOfSlash(base, NatToDecimal(p));
    MatchV4Unfold(ip, cidr);
    MatchV4Unfold(ip, base);
  }

  /** An IPv6 query never matches a spec whose address is IPv4, with or without a mask. */
  lemma FamilyMismatchV6(ip: string, base: string, p: nat)
    requires ParseV6(ip).Some? && ParseV4(base).Some?
    ensures !Match(ip, base + "/" + NatToDecimal(p))
    ensures !Match(ip, base)
  {
    var cidr := base + "/" + NatToDecimal(p);
    V6Alphabet(ip);
    V4Alphabet(base);
    FamiliesDisjoint(base);
    SplitRangeOfSingle(base);
    var k :| 0 <= k < |ip| && ip[k] == ':';
    assert cidr[|base|] == '/';
    SubnetAndMaskOfSlash(base, NatToDecimal(p));
    MatchV6Unfold(ip, cidr);
    MatchV6Unfold(ip, base);
  }

  /**
   * `base/p` for a valid IPv6 query and base: the query's first `p` bits
   * followed by zeros must equal the base. Only the query is masked.
   */
  lemma MatchPrefixV6(ip: string, base: string, p: nat)
    requires ParseV6(ip).Some? && ParseV6(base).Some? && p <= 128
    ensures Match(ip, base + "/" + NatToDecimal(p)) <==>
      forall i :: 0 <= i < 128 ==>
        (IPv6.Bit(ParseV6(base).value, i) <==> i < p && IPv6.Bit(ParseV6(ip).value, i))
  {
    var cidr := base + "/" + NatToDecimal(p);
    V6Alphabet(ip);
    V6Alphabet(base);
    assert cidr[|base|] == '/';
    MatchV6Unfold(ip, cidr);
    SubnetAndMaskOfSlash(base, NatToDecimal(p));
    ParseMaskDecimal(p);
    SplitRangeOfSingle(base);
    IPv6.IPv6MatchPrefix(ip, base, p);
  }

  /**
   * A bare IPv6 spec (no `/`) also takes mask 32, so it matches every query
   * whose first 32 bits it spells, provided its other bits are zero.
   */
  lemma MatchBareV6(ip: string, base: string)
    requires ParseV6(ip).Some? && ParseV6(base).Some? && ip != base
    ensures Match(ip, base) <==> IPv6.ContainsV6(ParseV6(ip).value, Prefix(ParseV6(base).value, 32))
  {
    V6Alphabet(base);
    FamiliesDisjoint(ip);
    SplitRangeOfSingle(base);
  }

  /**
   * An IPv6 base with a bit set beyond its first `p` bits matches no query
   * under `base/p`, not even itself.
   */
  lemma UnalignedV6BaseMatchesNothing(ip: string, base: string, p: nat, i: nat)
    requires ParseV6(ip).Some? && ParseV6(base).Some?
    requires p <= i < 128 && IPv6.Bit(ParseV6(base).value, i)
    ensures !Match(ip, base + "/" + NatToDecimal(p))
  {
    MatchPrefixV6(ip, base, p);
  }

}
