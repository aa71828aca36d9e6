/**
 * The IPv6 matcher. `inet_pton` yields 16-byte binary strings; PHP compares
 * them byte by byte (`>=`, `<=`, `==`) and ANDs them byte-wise (`&`).
 */
module IPv6 {
  import opened Wrappers
  import opened AddressText
  import opened RangeSpec

  /** Bit `j` of a byte, counting from the most significant (j = 0). */
  predicate ByteBit(x: bv8, j: nat)
    requires j < 8
  {
    (x >> (7 - j)) & 1 == 1
  }

  /** Bit `i` of a byte string, counting from the most significant bit of its first byte. */
  predicate Bit(s: seq<bv8>, i: nat)
    requires i < 8 * |s|
  {
    ByteBit(s[i / 8], i % 8)
  }

  /** Bytes are equal exactly when all their bits are. */
  lemma ByteBitsEqual(x: bv8, y: bv8)
    requires forall j :: 0 <= j < 8 ==> (ByteBit(x, j) <==> ByteBit(y, j))
    ensures x == y
  {
    assert ByteBit(x, 0) <==> ByteBit(y, 0);
    assert ByteBit(x, 1) <==> ByteBit(y, 1);
    assert ByteBit(x, 2) <==> ByteBit(y, 2);
    assert ByteBit(x, 3) <==> ByteBit(y, 3);
    assert ByteBit(x, 4) <==> ByteBit(y, 4);
    assert ByteBit(x, 5) <==> ByteBit(y, 5);
    assert ByteBit(x, 6) <==> ByteBit(y, 6);
    assert ByteBit(x, 7) <==> ByteBit(y, 7);
  }

  /** Byte strings of one length are equal exactly when all their bits are. */
  lemma BitsEqual(a: seq<bv8>, b: seq<bv8>)
    requires |a| == |b|
    ensures a == b <==> forall i :: 0 <= i < 8 * |a| ==> (Bit(a, i) <==> Bit(b, i))
  {
    if forall i :: 0 <= i < 8 * |a| ==> (Bit(a, i) <==> Bit(b, i)) {
      forall k | 0 <= k < |a|
        ensures a[k] == b[k]
      {
        forall j | 0 <= j < 8
          ensures ByteBit(a[k], j) <==> ByteBit(b[k], j)
        {
          var i := 8 * k + j;
          assert i / 8 == k && i % 8 == j;
          assert Bit(a, i) <==> Bit(b, i);
        }
        ByteBitsEqual(a[k], b[k]);
      }
    }
  }

  /** Bit `i` of a string of `n` bytes lies in byte `i / 8`. */
  lemma ByteIndex(i: nat, n: nat)
    requires i < 8 * n
    ensures i / 8 < n
  {
  }

  /** PHP `a & b` on binary strings of one length. */
  function And(a: seq<bv8>, b: seq<bv8>): (r: seq<bv8>)
    requires |a| == |b|
    ensures |r| == |a|
    ensures forall i :: 0 <= i < 8 * |a| ==> (Bit(r, i) <==> Bit(a, i) && Bit(b, i))
  {
    var r := seq(|a|, k requires 0 <= k < |a| => a[k] & b[k]);
    forall i | 0 <= i < 8 * |a|
      ensures Bit(r, i) <==> Bit(a, i) && Bit(b, i)
    {
      ByteIndex(i, |a|);
      ByteAndBit(a[i / 8], b[i / 8], i % 8);
    }
    r
  }

  lemma ByteAndBit(x: bv8, y: bv8, j: nat)
    requires j < 8
    ensures ByteBit(x & y, j) <==> ByteBit(x, j) && ByteBit(y, j)
  {
  }

  // The mask: IPv6MaskToByteArray builds a hex string of p/4 'f' digits, a
  // partial digit for p % 4, right-pads it with '0' to 32 digits and packs it
  // into 16 bytes. The digits are kept here as their values (nibbles).

  /** Bit `t` of a nibble, counting from its most significant bit (t = 0). */
  predicate NibbleBit(v: bv8, t: nat)
    requires t < 4
  {
    (v >> (3 - t)) & 1 == 1
  }

  /** The digit appended for a remainder of 1, 2 or 3: '8', 'c' or 'e'; none for 0. */
  function PartialDigit(rem: nat): (d: seq<bv8>)
    requires rem < 4
    ensures |d| == (if rem == 0 then 0 else 1)
    ensures rem != 0 ==> forall t :: 0 <= t < 4 ==> (NibbleBit(d[0], t) <==> t < rem)
  {
    match rem
    case 0 => []
    case 1 => [0x8]
    case 2 => [0xC]
    case _ => [0xE]
  }

  /** `str_pad(digits, n, '0')`: pads on the right, never truncates. */
  function PadRight(digits: seq<bv8>, n: nat): (r: seq<bv8>)
    ensures |r| == if |digits| < n then n else |digits|
    ensures forall k :: 0 <= k < |r| ==> r[k] == if k < |digits| then digits[k] else 0
  {
    if |digits| < n then digits + seq(n - |digits|, _ => 0) else digits
  }

  /** The 32 hex digits of the mask for prefix length `p`. */
  function MaskDigits(p: nat): (h: seq<bv8>)
    requires p <= 128
    ensures |h| == 32
    ensures forall n :: 0 <= n < 32 ==> h[n] < 16
    ensures forall n, t :: 0 <= n < 32 && 0 <= t < 4 ==> (NibbleBit(h[n], t) <==> 4 * n + t < p)
  {
    var full := seq(p / 4, _ => 0xF);
    var h := PadRight(full + PartialDigit(p % 4), 32);
    forall n, t | 0 <= n < 32 && 0 <= t < 4
      ensures NibbleBit(h[n], t) <==> 4 * n + t < p
    {
      if n < p / 4 {
        assert h[n] == 0xF;
      } else if n == p / 4 && p % 4 != 0 {
        assert h[n] == PartialDigit(p % 4)[0];
      } else {
        assert h[n] == 0;
      }
    }
    h
  }

  /** `pack("H*", ..)`: two hex digits per byte, the first one high. */
  function Pack(h: seq<bv8>): (b: seq<bv8>)
    requires |h| % 2 == 0 && forall n :: 0 <= n < |h| ==> h[n] < 16
    ensures |b| == |h| / 2
    ensures forall i :: 0 <= i < 8 * |b| ==> (Bit(b, i) <==> NibbleBit(h[i / 4], i % 4))
  {
    var b := seq(|h| / 2, k requires 0 <= k < |h| / 2 => PackByte(h[2 * k], h[2 * k + 1]));
    forall i | 0 <= i < 8 * |b|
      ensures Bit(b, i) <==> NibbleBit(h[i / 4], i % 4)
    {
      var k, j := i / 8, i % 8;
      PackBit(h[2 * k], h[2 * k + 1], j);
      if j < 4 {
        assert i / 4 == 2 * k && i % 4 == j;
      } else {
        assert i / 4 == 2 * k + 1 && i % 4 == j - 4;
      }
    }
    b
  }

  /** Two hex digits as one byte. */
  function PackByte(hi: bv8, lo: bv8): bv8 {
    (hi << 4) | lo
  }

  lemma PackBit(hi: bv8, lo: bv8, j: nat)
    requires hi < 16 && lo < 16 && j < 8
    ensures ByteBit(PackByte(hi, lo), j) <==> if j < 4 then NibbleBit(hi, j) else NibbleBit(lo, j - 4)
  {
  }

  /**
   * `IPv6MaskToByteArray(p)`: 16 bytes whose first `p` bits are 1 and whose
   * remaining `128 - p` bits are 0.
   */
  function IPv6MaskToByteArray(p: nat): (m: Addr6)
    requires p <= 128
    ensures forall i :: 0 <= i < 128 ==> (Bit(m, i) <==> i < p)
  {
    var h := MaskDigits(p);
    var m := Pack(h);
    forall i | 0 <= i < 128
      ensures Bit(m, i) <==> i < p
    {
      assert 4 * (i / 4) + i % 4 == i;
    }
    m
  }

  // Ordering: PHP compares two non-numeric strings byte by byte. Byte strings
  // that both spell numbers (PHP compares those numerically) are not modelled.

  /** PHP `a <= b` on binary strings of one length: byte-lexicographic order. */
  function LexLe(a: seq<bv8>, b: seq<bv8>): bool
    requires |a| == |b|
  {
    |a| == 0 || a[0] < b[0] || (a[0] == b[0] && LexLe(a[1..], b[1..]))
  }

  function Pow256(n: nat): (r: nat)
    ensures r >= 1
  {
    if n == 0 then 1 else 256 * Pow256(n - 1)
  }

  /** The unsigned big-endian number a byte string spells. */
  function Value(s: seq<bv8>): (v: nat)
    ensures v < Pow256(|s|)
  {
    if |s| == 0 then 0
    else
      var rest := Value(s[1..]);
      var top := s[0] as int;
      MulStep(top, 255, Pow256(|s| - 1), rest);
      top * Pow256(|s| - 1) + rest
  }

  lemma MulStep(x: nat, bound: nat, p: nat, rest: nat)
    requires x <= bound && rest < p
    ensures x * p + rest < (bound + 1) * p
  {
  }

  lemma ByteOrder(x: bv8, y: bv8)
    ensures x < y <==> x as int < y as int
    ensures x == y <==> x as int == y as int
  {
  }

  /** A larger leading digit outweighs whatever follows it. */
  lemma Dominates(x: nat, y: nat, p: nat, ra: nat, rb: nat)
    requires x < y && ra < p
    ensures x * p + ra < y * p + rb
  {
    MulStep(x, y - 1, p, ra);
  }

  /** Byte-lexicographic order is the order of the numbers the strings spell. */
  lemma {:induction false} LexLeIsNumeric(a: seq<bv8>, b: seq<bv8>)
    requires |a| == |b|
    ensures LexLe(a, b) <==> Value(a) <= Value(b)
    decreases |a|
  {
    if |a| > 0 {
      var p := Pow256(|a| - 1);
      var x, y := a[0] as int, b[0] as int;
      var ra, rb := Value(a[1..]), Value(b[1..]);
      assert Value(a) == x * p + ra;
      assert Value(b) == y * p + rb;
      ByteOrder(a[0], b[0]);
      if x < y {
        Dominates(x, y, p, ra, rb);
      } else if y < x {
        Dominates(y, x, p, rb, ra);
      } else {
        LexLeIsNumeric(a[1..], b[1..]);
      }
    }
  }

  /**
   * Containment of an IPv6 address in a validated spec. A range is the
   * inclusive order of the 128-bit numbers; a prefix spec masks only the
   * query, so it holds exactly when the base equals the query's first `p`
   * bits followed by zeros.
   */
  function ContainsV6(addr: Addr6, spec: RangeSpec<Addr6>): (b: bool)
    requires spec.Prefix? ==> spec.length <= 128
    ensures spec.Bounds? ==> (b <==> Value(spec.low) <= Value(addr) <= Value(spec.high))
    ensures spec.Prefix? ==>
      (b <==> forall i :: 0 <= i < 128 ==> (Bit(spec.base, i) <==> i < spec.length && Bit(addr, i)))
  {
    match spec
    case Bounds(low, high) =>
      LexLeIsNumeric(low, addr);
      LexLeIsNumeric(addr, high);
      LexLe(low, addr) && LexLe(addr, high)
    case Prefix(base, p) =>
      var masked := And(addr, IPv6MaskToByteArray(p));
      BitsEqual(masked, base);
      masked == base
  }

  /** A base with any bit set beyond its first `p` bits contains no address at all. */
  lemma UnalignedBaseMatchesNothing(addr: Addr6, base: Addr6, p: nat, i: nat)
    requires p <= i < 128 && Bit(base, i)
    ensures !ContainsV6(addr, Prefix(base, p))
  {
  }

  /** With an aligned base, containment is agreement on the first `p` bits. */
  lemma AlignedBaseMatchesPrefix(addr: Addr6, base: Addr6, p: nat)
    requires p <= 128
    requires forall i :: p <= i < 128 ==> !Bit(base, i)
    ensures ContainsV6(addr, Prefix(base, p)) <==> forall i :: 0 <= i < p ==> (Bit(addr, i) <==> Bit(base, i))
  {
  }

  /**
   * `IPv6Match($address, $subnetAddress, $subnetMask)` for a valid query
   * address: false unless the spec validates, then containment. A true
   * result implies a mask in [0, 128] and a valid base address.
   */
  function IPv6Match(address: string, subnet: string, mask: Option<int>): (b: bool)
    requires ParseV6(address).Some?
    ensures b ==> MaskInRange(mask, 128)
    ensures b ==> ParseV6(BaseText(SplitRange(subnet))).Some?
    ensures b && SplitRange(subnet).Pair? ==> ParseV6(SplitRange(subnet).high).Some?
  {
    match ParseSpec(subnet, mask, 128, ParseV6)
    case None => false
    case Some(spec) => ContainsV6(ParseV6(address).value, spec)
  }

  lemma MatchOfSpec(address: string, subnet: string, mask: Option<int>, spec: RangeSpec<Addr6>)
    requires ParseV6(address).Some? && ParseSpec(subnet, mask, 128, ParseV6) == Some(spec)
    ensures IPv6Match(address, subnet, mask) == ContainsV6(ParseV6(address).value, spec)
  {
  }

  /** A validated prefix spec: the base must be the query's first `p` bits followed by zeros. */
  lemma IPv6MatchPrefix(address: string, subnet: string, p: nat)
    requires ParseV6(address).Some? && ParseV6(subnet).Some? && p <= 128
    requires SplitRange(subnet) == Single(subnet)
    ensures IPv6Match(address, subnet, Some(p)) == ContainsV6(ParseV6(address).value, Prefix(ParseV6(subnet).value, p))
  {
    var spec := Prefix(ParseV6(subnet).value, p);
    ParseSpecOfSingle(subnet, Some(p), 128, ParseV6);
    MatchOfSpec(address, subnet, Some(p), spec);
  }

  /** A validated range spec: the order of the 128-bit numbers, whatever the (valid) mask. */
  lemma IPv6MatchRange(address: string, subnet: string, mask: Option<int>, low: string, high: string)
    requires ParseV6(address).Some? && MaskInRange(mask, 128)
    requires SplitRange(subnet) == Pair(low, high) && ParseV6(low).Some? && ParseV6(high).Some?
    ensures IPv6Match(address, subnet, mask) <==>
      Value(ParseV6(low).value) <= Value(ParseV6(address).value) <= Value(ParseV6(high).value)
  {
    var spec := Bounds(ParseV6(low).value, ParseV6(high).value);
    ParseSpecOfPair(subnet, mask, 128, ParseV6, low, high);
    MatchOfSpec(address, subnet, mask, spec);
  }

}
