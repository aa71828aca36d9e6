/**
 * The IPv4 matcher. `ip2long` yields plain PHP integers, so addresses are
 * integers in [0, 2^32), the mask `-1 << (32 - p)` is the integer
 * -(2^(32 - p)), and `&` is two's-complement AND on integers.
 */
module IPv4 {
  import opened Wrappers
  import opened AddressText
  import opened RangeSpec

  function Pow2(k: nat): (r: nat)
    ensures r >= 1
  {
    if k == 0 then 1 else 2 * Pow2(k - 1)
  }

  lemma {:induction false} Pow2Add(a: nat, b: nat)
    ensures Pow2(a + b) == Pow2(a) * Pow2(b)
  {
    if a > 0 {
      Pow2Add(a - 1, b);
    }
  }

  lemma Pow2Of32()
    ensures Pow2(32) == 0x1_0000_0000
  {
    assert Pow2(8) == 0x100;
    Pow2Add(8, 8);
    Pow2Add(16, 16);
  }

  /** PHP `x << k` for a shift that does not overflow 64 bits. */
  function ShiftLeft(x: int, k: nat): int {
    x * Pow2(k)
  }

  function Abs(x: int): nat {
    if x < 0 then -x else x
  }

  /**
   * PHP `x & y` on integers: bitwise AND of the two's-complement
   * representations (0 and -1 are the all-zeros and all-ones words). Masking
   * a non-negative value never makes it larger or negative.
   */
  function BitAnd(x: int, y: int): (r: int)
    ensures x >= 0 ==> 0 <= r <= x
    decreases Abs(x) + Abs(y)
  {
    if x == 0 || y == 0 then 0
    else if x == -1 then y
    else if y == -1 then x
    else 2 * BitAnd(x / 2, y / 2) + (x % 2) * (y % 2)
  }

  /** The netmask `-1 << (32 - p)`: ones in the top `p` of the low 32 bits and everything above. */
  function MaskV4(p: int): int
    requires 0 <= p <= 32
  {
    ShiftLeft(-1, 32 - p)
  }

  /** `n >> k` for a non-negative `n`: `n` with its low `k` bits dropped. */
  function ShiftRight(n: nat, k: nat): nat {
    if k == 0 then n else ShiftRight(n / 2, k - 1)
  }

  /** ANDing a non-negative value with -(2^k) clears exactly its low `k` bits. */
  lemma {:induction false} AndNegPow2(n: nat, k: nat)
    ensures BitAnd(n, -(Pow2(k) as int)) == ShiftLeft(ShiftRight(n, k), k)
    decreases k
  {
    if n == 0 {
      ShiftRightZero(k);
    } else if k > 0 {
      var half := Pow2(k - 1);
      var x := ShiftRight(n / 2, k - 1);
      AndHalving(n, half);
      AndNegPow2(n / 2, k - 1);
      calc {
        BitAnd(n, -(Pow2(k) as int));
        { assert -(Pow2(k) as int) == -2 * (half as int); }
        BitAnd(n, -2 * (half as int));
        2 * BitAnd(n / 2, -(half as int));
        2 * (x * half);
        { MulTwice(x, half); }
        x * Pow2(k);
        ShiftLeft(ShiftRight(n, k), k);
      }
    }
  }

  lemma MulTwice(x: int, y: int)
    ensures 2 * (x * y) == x * (2 * y)
  {
  }

  /** One step of `&` against an even negative mask: halve both and double the result. */
  lemma AndHalving(n: nat, half: nat)
    requires n > 0 && half >= 1
    ensures BitAnd(n, -2 * (half as int)) == 2 * BitAnd(n / 2, -(half as int))
  {
    var m := -2 * (half as int);
    assert m / 2 == -(half as int) && m % 2 == 0;
  }

  lemma {:induction false} ShiftRightZero(k: nat)
    ensures ShiftRight(0, k) == 0
  {
    if k > 0 {
      ShiftRightZero(k - 1);
    }
  }

  /** A value below 2^k has nothing left after shifting right by `k`. */
  lemma {:induction false} ShiftRightSmall(n: nat, k: nat)
    requires n < Pow2(k)
    ensures ShiftRight(n, k) == 0
  {
    if k > 0 {
      ShiftRightSmall(n / 2, k - 1);
    }
  }

  lemma MulCancel(d: nat, x: int, y: int)
    requires d >= 1
    ensures x * d == y * d <==> x == y
  {
  }

  /** The top `p` bits of a 32-bit value, read as a number: `n >> (32 - p)`. */
  function TopBits(n: U32, p: nat): nat
    requires p <= 32
  {
    ShiftRight(n, 32 - p)
  }

  /**
   * Masking both sides with `-1 << (32 - p)` and comparing is the same as
   * comparing the top `p` bits.
   */
  lemma {:induction false} MaskedEqualIffSamePrefix(a: U32, b: U32, p: nat)
    requires p <= 32
    ensures BitAnd(a, MaskV4(p)) == BitAnd(b, MaskV4(p)) <==> TopBits(a, p) == TopBits(b, p)
  {
    var d := Pow2(32 - p);
    assert MaskV4(p) == -(d as int);
    AndNegPow2(a, 32 - p);
    AndNegPow2(b, 32 - p);
    MulCancel(d, TopBits(a, p), TopBits(b, p));
  }

  /**
   * Containment of an IPv4 address in a validated spec. A range is an
   * inclusive unsigned comparison; a prefix spec masks the query and the base
   * alike, so it holds exactly when their top `p` bits agree.
   */
  function ContainsV4(addr: U32, spec: RangeSpec<U32>): (b: bool)
    requires spec.Prefix? ==> spec.length <= 32
    ensures spec.Bounds? ==> (b <==> spec.low <= addr <= spec.high)
    ensures spec.Prefix? ==> (b <==> TopBits(addr, spec.length) == TopBits(spec.base, spec.length))
  {
    match spec
    case Bounds(low, high) => addr >= low && addr <= high
    case Prefix(base, p) =>
      MaskedEqualIffSamePrefix(addr, base, p);
      var mask := MaskV4(p);
      var network := BitAnd(base, mask);
      BitAnd(addr, mask) == network
  }

  /** With `p = 0` every address is contained; with `p = 32` only the base itself. */
  lemma PrefixExtremes(addr: U32, base: U32)
    ensures ContainsV4(addr, Prefix(base, 0))
    ensures ContainsV4(addr, Prefix(base, 32)) <==> addr == base
  {
    Pow2Of32();
    ShiftRightSmall(addr, 32);
    ShiftRightSmall(base, 32);
  }

  /** PHP's order on booleans: `false < true`. */
  predicate BoolAtLeast(x: bool, y: bool) {
    x || !y
  }

  /**
   * Containment of the value `ip2long` returns for a text it rejects:
   * `false`, which `&` reads as 0 and which PHP compares with an integer by
   * turning the integer into a boolean. So a range holds when its low end is
   * 0, and a prefix spec when the base's top `p` bits are all zero.
   */
  function ContainsFalseV4(spec: RangeSpec<U32>): (b: bool)
    requires spec.Prefix? ==> spec.length <= 32
    ensures spec.Bounds? ==> (b <==> spec.low == 0)
    ensures spec.Prefix? ==> (b <==> TopBits(spec.base, spec.length) == 0)
  {
    match spec
    case Bounds(low, high) => BoolAtLeast(false, low != 0) && BoolAtLeast(high != 0, false)
    case Prefix(base, p) =>
      MaskedEqualIffSamePrefix(0, base, p);
      ShiftRightZero(32 - p);
      var mask := MaskV4(p);
      var network := BitAnd(base, mask);
      BitAnd(0, mask) == network
  }

  /**
   * `IPv4Match($address, $subnetAddress, $subnetMask)`: false unless the
   * spec validates, then containment of the query's value. The query text
   * itself is not validated. A true result implies a mask in [0, 32] and a
   * valid base address.
   */
  function IPv4Match(address: string, subnet: string, mask: Option<int>): (b: bool)
    ensures b ==> MaskInRange(mask, 32)
    ensures b ==> ParseV4(BaseText(SplitRange(subnet))).Some?
    ensures b && SplitRange(subnet).Pair? ==> ParseV4(SplitRange(subnet).high).Some?
  {
    match ParseSpec(subnet, mask, 32, ParseV4)
    case None => false
    case Some(spec) =>
      match ParseV4(address)
      case Some(addr) => ContainsV4(addr, spec)
      case None => ContainsFalseV4(spec)
  }

  /**
   * An invalid query text under a validated prefix spec: it matches exactly
   * when the base's top `p` bits are zero, e.g. under `0.0.0.0/p`.
   */
  lemma IPv4MatchInvalidAddress(address: string, subnet: string, p: nat)
    requires ParseV4(address).None? && ParseV4(subnet).Some? && p <= 32
    requires SplitRange(subnet) == Single(subnet)
    ensures IPv4Match(address, subnet, Some(p)) <==> TopBits(ParseV4(subnet).value, p) == 0
  {
    var spec := Prefix(ParseV4(subnet).value, p);
    ParseSpecOfSingle(subnet, Some(p), 32, ParseV4);
    assert IPv4Match(address, subnet, Some(p)) == ContainsFalseV4(spec);
  }

  /** A validated prefix spec: the query matches exactly when its top `p` bits are the base's. */
  lemma IPv4MatchPrefix(address: string, subnet: string, p: nat)
    requires ParseV4(address).Some? && ParseV4(subnet).Some? && p <= 32
    requires SplitRange(subnet) == Single(subnet)
    ensures IPv4Match(address, subnet, Some(p)) <==>
      TopBits(ParseV4(address).value, p) == TopBits(ParseV4(subnet).value, p)
  {
    var spec := Prefix(ParseV4(subnet).value, p);
    ParseSpecOfSingle(subnet, Some(p), 32, ParseV4);
    assert IPv4Match(address, subnet, Some(p)) == ContainsV4(ParseV4(address).value, spec);
  }

  /** A validated range spec: an inclusive unsigned comparison, whatever the (valid) mask. */
  lemma IPv4MatchRange(address: string, subnet: string, mask: Option<int>, low: string, high: string)
    requires ParseV4(address).Some? && MaskInRange(mask, 32)
    requires SplitRange(subnet) == Pair(low, high) && ParseV4(low).Some? && ParseV4(high).Some?
    ensures IPv4Match(address, subnet, mask) <==>
      ParseV4(low).value <= ParseV4(address).value <= ParseV4(high).value
  {
    var spec := Bounds(ParseV4(low).value, ParseV4(high).value);
    ParseSpecOfPair(subnet, mask, 32, ParseV4, low, high);
    assert IPv4Match(address, subnet, mask) == ContainsV4(ParseV4(address).value, spec);
  }

}
