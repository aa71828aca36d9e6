/**
 * Address classification and parsing. The library relies on PHP's
 * `filter_var(.., FILTER_VALIDATE_IP, FILTER_FLAG_IPV4 | _IPV6)`, `ip2long`
 * and `inet_pton`; this module stands in for them with a simplified grammar:
 * IPv4 as four dotted decimal octets (0-255, no leading zeros), IPv6 as eight
 * colon-separated groups of one to four hex digits, at most one `::` run
 * standing for one or more zero groups, and no embedded dotted quad.
 */
module AddressText {
  import opened Wrappers
  import opened Text

  datatype Family = V4 | V6

  /** What `ip2long` yields for a valid IPv4 text: an unsigned 32-bit value. */
  type U32 = n: int | 0 <= n < 0x1_0000_0000

  /** What `inet_pton` yields for a valid IPv6 text: 16 bytes in network order. */
  type Addr6 = s: seq<bv8> | |s| == 16 witness [0, 0, 0, 0, 0, 0, 0, 0, 0, 0, 0, 0, 0, 0, 0, 0]

  /** One dotted-quad octet: one to three digits, no leading zero, at most 255. */
  function ParseOctet(t: string): (r: Option<nat>)
    ensures r.Some? ==> r.value < 256 && AllDigits(t)
  {
    if 1 <= |t| <= 3 && AllDigits(t) && (t[0] != '0' || |t| == 1) && DecimalValue(t) < 256
    then Some(DecimalValue(t))
    else None
  }

  /**
   * A valid IPv4 text and its value (`filter_var` with FILTER_FLAG_IPV4
   * followed by `ip2long`). A valid text is made of digits and dots only.
   */
  function ParseV4(s: string): (r: Option<U32>)
    ensures r.Some? ==> forall k :: 0 <= k < |s| ==> IsDigit(s[k]) || s[k] == '.'
  {
    var parts := Split(s, '.');
    if |parts| != 4 then None
    else
      var o0, o1, o2, o3 := ParseOctet(parts[0]), ParseOctet(parts[1]), ParseOctet(parts[2]), ParseOctet(parts[3]);
      if o0.None? || o1.None? || o2.None? || o3.None? then None
      else
        JoinKeeps(parts, '.', IsDigit);
        Some(((o0.value * 256 + o1.value) * 256 + o2.value) * 256 + o3.value)
  }

  /** The dotted-quad spelling `ip2long`'s inverse `long2ip` produces. */
  function DottedQuad(o0: nat, o1: nat, o2: nat, o3: nat): string {
    NatToDecimal(o0) + "." + NatToDecimal(o1) + "." + NatToDecimal(o2) + "." + NatToDecimal(o3)
  }

  /** Every octet below 256, written in decimal, reads back as itself. */
  lemma OctetRoundTrip(n: nat)
    requires n < 256
    ensures ParseOctet(NatToDecimal(n)) == Some(n)
  {
    if n >= 10 {
      assert |NatToDecimal(n)| == |NatToDecimal(n / 10)| + 1;
      if n >= 100 {
        assert |NatToDecimal(n / 10)| == |NatToDecimal(n / 100)| + 1;
      }
    }
  }

  lemma NoDotInDecimal(n: nat)
    ensures '.' !in NatToDecimal(n)
  {
    var t := NatToDecimal(n);
    assert forall j :: 0 <= j < |t| ==> IsDigit(t[j]);
  }

  lemma JoinQuad(a: string, b: string, c: string, d: string)
    ensures Join([a, b, c, d], '.') == a + "." + b + "." + c + "." + d
  {
    var parts := [a, b, c, d];
    assert parts[1..] == [b, c, d] && parts[1..][1..] == [c, d] && parts[1..][1..][1..] == [d];
    assert Join([c, d], '.') == c + ['.'] + d;
    assert Join([b, c, d], '.') == b + ['.'] + (c + ['.'] + d);
  }

  /** Parsing a dotted quad gives the big-endian value of its four octets. */
  lemma ParseDottedQuad(o0: nat, o1: nat, o2: nat, o3: nat)
    requires o0 < 256 && o1 < 256 && o2 < 256 && o3 < 256
    ensures ParseV4(DottedQuad(o0, o1, o2, o3)) == Some(((o0 * 256 + o1) * 256 + o2) * 256 + o3)
  {
    var parts := [NatToDecimal(o0), NatToDecimal(o1), NatToDecimal(o2), NatToDecimal(o3)];
    NoDotInDecimal(o0);
    NoDotInDecimal(o1);
    NoDotInDecimal(o2);
    NoDotInDecimal(o3);
    SplitJoin(parts, '.');
    JoinQuad(parts[0], parts[1], parts[2], parts[3]);
    assert Split(DottedQuad(o0, o1, o2, o3), '.') == parts;
    OctetRoundTrip(o0);
    OctetRoundTrip(o1);
    OctetRoundTrip(o2);
    OctetRoundTrip(o3);
  }

  predicate IsHexDigit(c: char) {
    '0' <= c <= '9' || 'a' <= c <= 'f' || 'A' <= c <= 'F'
  }

  function HexValue(c: char): (d: nat)
    requires IsHexDigit(c)
    ensures d < 16
  {
    if '0' <= c <= '9' then c as int - '0' as int
    else if 'a' <= c <= 'f' then c as int - 'a' as int + 10
    else c as int - 'A' as int + 10
  }

  function HexDigitsValue(t: string): (v: nat)
    requires forall k :: 0 <= k < |t| ==> IsHexDigit(t[k])
    ensures v < Pow16(|t|)
  {
    if |t| == 0 then 0 else HexDigitsValue(t[..|t| - 1]) * 16 + HexValue(t[|t| - 1])
  }

  function Pow16(n: nat): (r: nat)
    ensures r >= 1
  {
    if n == 0 then 1 else 16 * Pow16(n - 1)
  }

  /** One IPv6 group: one to four hex digits, a 16-bit value. */
  function ParseGroup(t: string): (r: Option<nat>)
    ensures r.Some? ==> r.value < 0x1_0000 && forall k :: 0 <= k < |t| ==> IsHexDigit(t[k])
  {
    if 1 <= |t| <= 4 && forall k :: 0 <= k < |t| ==> IsHexDigit(t[k]) then
      assert Pow16(|t|) <= Pow16(4);
      Some(HexDigitsValue(t))
    else None
  }

  /** Every piece is a group. */
  function ParseGroups(ts: seq<string>): (r: Option<seq<nat>>)
    ensures r.Some? ==> |r.value| == |ts|
    ensures r.Some? ==> forall i :: 0 <= i < |ts| ==> r.value[i] < 0x1_0000
    ensures r.Some? ==> forall i, k :: 0 <= i < |ts| && 0 <= k < |ts[i]| ==> IsHexDigit(ts[i][k])
  {
    if |ts| == 0 then Some([])
    else
      var g := ParseGroup(ts[0]);
      var rest := ParseGroups(ts[1..]);
      if g.None? || rest.None? then None
      else
        assert forall i :: 1 <= i < |ts| ==> ts[i] == ts[1..][i - 1];
        Some([g.value] + rest.value)
  }

  /** The groups of a colon-separated text, or none for the empty text. */
  function ParseGroupList(t: string): (r: Option<seq<nat>>)
    ensures r.Some? ==> forall i :: 0 <= i < |r.value| ==> r.value[i] < 0x1_0000
    ensures r.Some? ==> forall k :: 0 <= k < |t| ==> IsHexDigit(t[k]) || t[k] == ':'
  {
    if t == "" then Some([])
    else
      var parts := Split(t, ':');
      var gs := ParseGroups(parts);
      if gs.None? then None
      else
        JoinKeeps(parts, ':', IsHexDigit);
        gs
  }

  /** Index of the first `::` in `s`. */
  function FindDoubleColon(s: string): (r: Option<nat>)
    ensures r.Some? ==> r.value + 1 < |s| && s[r.value] == ':' && s[r.value + 1] == ':'
    ensures r.None? ==> forall k :: 0 <= k < |s| - 1 ==> !(s[k] == ':' && s[k + 1] == ':')
    decreases |s|
  {
    if |s| < 2 then None
    else if s[0] == ':' && s[1] == ':' then Some(0)
    else
      match FindDoubleColon(s[1..])
      case None => None
      case Some(k) => Some(k + 1)
  }

  /** Eight 16-bit groups as sixteen bytes, most significant byte first. */
  function GroupsToBytes(gs: seq<nat>): (a: Addr6)
    requires |gs| == 8 && forall i :: 0 <= i < 8 ==> gs[i] < 0x1_0000
  {
    seq(16, k requires 0 <= k < 16 => (if k % 2 == 0 then gs[k / 2] / 256 else gs[k / 2] % 256) as bv8)
  }

  /** An IPv6 text without `::`: exactly eight groups. */
  function ParseFull(s: string): (r: Option<Addr6>)
    ensures r.Some? ==> ':' in s
    ensures r.Some? ==> forall k :: 0 <= k < |s| ==> IsHexDigit(s[k]) || s[k] == ':'
  {
    var parts := Split(s, ':');
    var gs := ParseGroups(parts);
    if gs.None? || |gs.value| != 8 then None
    else
      JoinKeeps(parts, ':', IsHexDigit);
      Some(GroupsToBytes(gs.value))
  }

  /** An IPv6 text whose first `::` is at `k`: the run stands for the missing zero groups. */
  function ParseCompressed(s: string, k: nat): (r: Option<Addr6>)
    requires k + 1 < |s| && s[k] == ':' && s[k + 1] == ':'
    ensures r.Some? ==> forall i :: 0 <= i < |s| ==> IsHexDigit(s[i]) || s[i] == ':'
  {
    var left, right := ParseGroupList(s[..k]), ParseGroupList(s[k + 2..]);
    if left.None? || right.None? || |left.value| + |right.value| > 7 then None
    else
      CompressedChars(s, k, s[..k], s[k + 2..]);
      var zeros := seq(8 - |left.value| - |right.value|, _ => 0);
      Some(GroupsToBytes(left.value + zeros + right.value))
  }

  lemma CompressedChars(s: string, k: nat, left: string, right: string)
    requires k + 1 < |s| && s[k] == ':' && s[k + 1] == ':'
    requires left == s[..k] && right == s[k + 2..]
    requires forall i :: 0 <= i < |left| ==> IsHexDigit(left[i]) || left[i] == ':'
    requires forall i :: 0 <= i < |right| ==> IsHexDigit(right[i]) || right[i] == ':'
    ensures forall i :: 0 <= i < |s| ==> IsHexDigit(s[i]) || s[i] == ':'
  {
    forall i | 0 <= i < |s|
      ensures IsHexDigit(s[i]) || s[i] == ':'
    {
      if i < k {
        assert s[i] == left[i];
      } else if i >= k + 2 {
        assert s[i] == right[i - k - 2];
      }
    }
  }

  /**
   * A valid IPv6 text and its bytes (`filter_var` with FILTER_FLAG_IPV6
   * followed by `inet_pton`). A valid text holds a colon and is made of hex
   * digits and colons only.
   */
  function ParseV6(s: string): (r: Option<Addr6>)
    ensures r.Some? ==> ':' in s
    ensures r.Some? ==> forall k :: 0 <= k < |s| ==> IsHexDigit(s[k]) || s[k] == ':'
  {
    match FindDoubleColon(s)
    case None => ParseFull(s)
    case Some(k) => ParseCompressed(s, k)
  }

  /** No text is both a valid IPv4 and a valid IPv6 address. */
  lemma FamiliesDisjoint(s: string)
    ensures !(ParseV4(s).Some? && ParseV6(s).Some?)
  {
  }

  /**
   * The family of a query address: IPv4 is tried first, then IPv6, and a
   * text that is neither has none. No text is valid in both families.
   */
  function Classify(ip: string): (r: Option<Family>)
    ensures r == Some(V4) <==> ParseV4(ip).Some?
    ensures r == Some(V6) <==> ParseV6(ip).Some?
    ensures r == None <==> ParseV4(ip).None? && ParseV6(ip).None?
  {
    if ParseV4(ip).Some? then
      FamiliesDisjoint(ip);
      Some(V4)
    else if ParseV6(ip).Some? then Some(V6)
    else None
  }

}
