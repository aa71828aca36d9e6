# CIDRmatch in Dafny

A model of the PHP library CIDRmatch: one class, `CIDRmatch\CIDRmatch`, which
decides whether an IP address lies in a subnet written as `address/prefix` or
as an inclusive `low-high` range, for IPv4 and IPv6. The model covers the
whole class:

- `match($ip, $cidr)`: classify the query and split the spec on `/`. A bare
  spec gets the default mask 32. The exact-text fast path comes next, then
  the call to the family's matcher.
- `IPv4Match`: split the subnet on `-` and trim the pieces. Validate the base
  and the mask. Then compare the range numerically, or compare the prefix
  with both sides masked by `-1 << (32 - p)`.
- `IPv6MaskToByteArray`: build the `str_repeat`/`str_pad`/`pack("H*")` mask
  with `p` leading one bits.
- `IPv6Match`: validate the same way. Then compare the range on binary
  strings, or compare the prefix with only the query masked.

Everything is a pure function, as in the library. Bitwise behaviour is
spelled out:

- Addresses are parsed into `U32` values (what `ip2long` gives on 64-bit
  PHP, which the model assumes) or into 16-byte `Addr6` strings (what
  `inet_pton` gives).
- PHP integer `&` is two's-complement AND on unbounded integers (`IPv4.BitAnd`).
- `-1 << k` is `-(2^k)`.
- `<=`, `>=` and `==` on two binary strings are byte-lexicographic order and
  byte equality (`IPv6.LexLe`), which is what PHP does for strings that are
  not numeric.

The proofs connect the bitwise code to what it means:

- masking with `-1 << (32 - p)` compares the top `p` bits;
- the IPv6 mask has exactly `p` leading ones;
- byte order is the order of 128-bit numbers.

On top of these, end-to-end lemmas state what `match` answers for prefix
specs, ranges, bare specs, bad masks and family mismatches.

Module layout:

| file | module | contents |
|---|---|---|
| Wrappers.dfy | Wrappers | `Option` |
| Text.dfy | Text | `explode`/`implode`, `trim`, decimal numerals |
| AddressText.dfy | AddressText | address validation and parsing, `Classify` |
| RangeSpec.dfy | RangeSpec | the shared `-` split and spec validation |
| IPv4.dfy | IPv4 | integer masking, `IPv4Match` |
| IPv6.dfy | IPv6 | bit view of byte strings, the mask, ordering, `IPv6Match` |
| CIDRmatch.dfy | CIDRmatch | `match` and end-to-end properties |
| Corrected.dfy | Corrected | the three corrections listed under Findings |
| Examples.dfy | Examples | concrete instances, including the inputs that show each finding |

The model follows the code, including where it departs from what a reader
might expect:

- A spec without `/` gets mask 32 for both families. It is not the family's
  width (CIDRmatch.php:24-26).
- The subnet text is split on `-` first and every piece is trimmed, but the
  trimmed pieces are used only when there are exactly two (lines 81-85,
  108-112). Otherwise the untrimmed subnet text is validated as it is.
- The IPv4 and IPv6 entry points do not validate the query text (lines 92-93
  and 121).
- The IPv6 base is not masked (line 101).
- The mask is checked against the family's width even when the spec is a
  range (lines 86, 114).

## Model

| member | source | states |
|---|---|---|
| CIDRmatch.Match | CIDRmatch/CIDRmatch.php:19-53 | A query that is neither valid IPv4 nor valid IPv6 never matches, even when it equals the spec text. A valid query that equals the spec text always matches. |
| CIDRmatch.SubnetAndMask | CIDRmatch/CIDRmatch.php:21-26 | Without `/` the subnet is the whole spec and the mask is 32. The subnet never contains `/`. |
| CIDRmatch.SubnetAndMaskOfSlash | CIDRmatch/CIDRmatch.php:21-23 | `subnet/mask` splits back into exactly its two sides. |
| CIDRmatch.ParseMask | CIDRmatch/CIDRmatch.php:86 | The empty mask text has no value. An accepted text is digits after an optional leading `-`. |
| CIDRmatch.ParseMaskDecimal | CIDRmatch/CIDRmatch.php:114 | A decimal numeral, plain or negated, reads back as its value. |
| CIDRmatch.MatchV4Unfold | CIDRmatch/CIDRmatch.php:45-47 | Past the fast path, a valid IPv4 query is decided by `IPv4Match` on the split spec. |
| CIDRmatch.MatchV6Unfold | CIDRmatch/CIDRmatch.php:49-50 | Past the fast path, a valid IPv6 query is decided by `IPv6Match` on the split spec. |
| CIDRmatch.V4Alphabet | CIDRmatch/CIDRmatch.php:28 | A valid IPv4 text contains no `/`, `-` or `:`. |
| CIDRmatch.V6Alphabet | CIDRmatch/CIDRmatch.php:33 | A valid IPv6 text contains a `:` and no `/` or `-`. |
| CIDRmatch.ValidTextTrimmed | CIDRmatch/CIDRmatch.php:108 | `trim` leaves every valid address text unchanged. |
| CIDRmatch.MatchPrefixV4 | CIDRmatch/CIDRmatch.php:19-53 | For valid IPv4 query and base, `match(ip, base/p)` holds iff their top `p` bits agree (`p` in [0, 32]). |
| CIDRmatch.MatchOwnBaseV4 | CIDRmatch/CIDRmatch.php:129-131 | Every valid IPv4 base lies in `base/p`, whatever its host bits. |
| CIDRmatch.MatchPrefixExtremesV4 | CIDRmatch/CIDRmatch.php:129-131 | `base/0` matches every valid IPv4 query. `base/32` matches exactly the addresses equal to the base. |
| CIDRmatch.MatchBareV4 | CIDRmatch/CIDRmatch.php:24-26 | A bare IPv4 spec matches exactly the queries with the same address value. |
| CIDRmatch.MatchRangeV4 | CIDRmatch/CIDRmatch.php:108-127 | `match(ip, low-high)` with valid trimmed sides holds iff low <= ip <= high as unsigned 32-bit values. |
| CIDRmatch.MatchRangeV6 | CIDRmatch/CIDRmatch.php:81-97 | `match(ip, low-high)` with valid trimmed sides holds iff low <= ip <= high as 128-bit numbers. |
| CIDRmatch.MaskOutOfRangeV4 | CIDRmatch/CIDRmatch.php:114 | A mask above 32 rejects every IPv4 query, for any subnet text, ranges included. |
| CIDRmatch.MaskOutOfRangeV6 | CIDRmatch/CIDRmatch.php:86 | A mask above 128 rejects every IPv6 query, for any subnet text. |
| CIDRmatch.NegativeMaskRejects | CIDRmatch/CIDRmatch.php:86 | A negative mask rejects every valid query of either family. |
| CIDRmatch.EmptyMaskRejects | CIDRmatch/CIDRmatch.php:114 | An empty mask after `/` rejects every query except the spec text itself. |
| CIDRmatch.ManyDashesReject | CIDRmatch/CIDRmatch.php:108-115 | A subnet with two or more `-` is neither a range nor an address. It rejects every query except the spec text itself. |
| CIDRmatch.InvalidHighRejects | CIDRmatch/CIDRmatch.php:117-119 | A range whose high side is not a valid address of the query's family rejects the query. |
| CIDRmatch.FamilyMismatchV4 | CIDRmatch/CIDRmatch.php:45-47 | A valid IPv4 query never matches an IPv6 spec, with or without a mask. |
| CIDRmatch.FamilyMismatchV6 | CIDRmatch/CIDRmatch.php:49-50 | A valid IPv6 query never matches an IPv4 spec, with or without a mask. |
| CIDRmatch.MatchPrefixV6 | CIDRmatch/CIDRmatch.php:99-101 | For valid IPv6 query and base, `match(ip, base/p)` holds iff the base equals the query's first `p` bits followed by zeros. |
| CIDRmatch.MatchBareV6 | CIDRmatch/CIDRmatch.php:24-26 | A bare IPv6 spec is read as `base/32`. |
| CIDRmatch.UnalignedV6BaseMatchesNothing | CIDRmatch/CIDRmatch.php:101 | An IPv6 base with any bit set past position `p` matches no query under `base/p`. |
| AddressText.Classify | CIDRmatch/CIDRmatch.php:28-40 | The family is IPv4 iff the text is a valid IPv4 address, and IPv6 iff it is a valid IPv6 address. It is neither iff the text is neither. |
| AddressText.FamiliesDisjoint | CIDRmatch/CIDRmatch.php:28-36 | No text is valid in both families, so the IPv4 test going first decides nothing. |
| AddressText.ParseV4 | CIDRmatch/CIDRmatch.php:121-122 | A valid IPv4 text consists of digits and dots. |
| AddressText.ParseDottedQuad | CIDRmatch/CIDRmatch.php:121 | Every dotted quad of octets below 256 is valid. Its value is the big-endian number of the four octets. |
| AddressText.ParseV6 | CIDRmatch/CIDRmatch.php:92-93 | A valid IPv6 text contains a `:` and consists of hex digits and colons. |
| Text.Split | CIDRmatch/CIDRmatch.php:21 | `explode` gives one more piece than there are separators. No piece holds the separator, and joining the pieces gives back the input. |
| Text.SplitJoin | CIDRmatch/CIDRmatch.php:81 | `explode` undoes `implode` when no piece holds the separator. |
| RangeSpec.SplitRange | CIDRmatch/CIDRmatch.php:108-112 | The subnet is a range iff it holds exactly one `-`. Otherwise the text is kept whole. Neither side of a range holds `-`. |
| RangeSpec.SplitRangeOfPair | CIDRmatch/CIDRmatch.php:81-85 | `low-high` splits into the two trimmed sides. |
| RangeSpec.ParseSpec | CIDRmatch/CIDRmatch.php:114-119 | Validation succeeds iff the mask is in [0, width], the base (or low) text parses, and a range's high text parses. A success carries exactly those parsed values and that mask. |
| RangeSpec.ParseSpecOfSingle | CIDRmatch/CIDRmatch.php:114-115 | A valid bare address with a valid mask validates to its prefix spec. |
| RangeSpec.ParseSpecOfPair | CIDRmatch/CIDRmatch.php:117-119 | A valid pair with a valid mask validates to its bounds spec. |
| IPv4.BitAnd | CIDRmatch/CIDRmatch.php:130-131 | `&` with a non-negative operand stays within [0, that operand]. |
| IPv4.AndNegPow2 | CIDRmatch/CIDRmatch.php:129-130 | AND with `-(2^k)` clears exactly the low `k` bits of a non-negative value. |
| IPv4.MaskedEqualIffSamePrefix | CIDRmatch/CIDRmatch.php:129-131 | Two 32-bit values are equal under mask `-1 << (32 - p)` iff their top `p` bits agree. |
| IPv4.ContainsV4 | CIDRmatch/CIDRmatch.php:124-131 | A range is an inclusive unsigned comparison. A prefix spec holds iff query and base agree on the top `p` bits. |
| IPv4.PrefixExtremes | CIDRmatch/CIDRmatch.php:129-131 | `/0` contains every address. `/32` contains only the base. |
| IPv4.ContainsFalseV4 | CIDRmatch/CIDRmatch.php:121-131 | The `false` that `ip2long` returns for an invalid text is contained in a range iff its low end is 0. It is contained in a prefix spec iff the base's top `p` bits are zero. |
| IPv4.IPv4Match | CIDRmatch/CIDRmatch.php:105-132 | A true result means the mask is in [0, 32], the base parses, and a range's high side parses. |
| IPv4.IPv4MatchPrefix | CIDRmatch/CIDRmatch.php:129-131 | For a valid query and a valid bare base, the result is agreement of the top `p` bits. |
| IPv4.IPv4MatchRange | CIDRmatch/CIDRmatch.php:124-127 | For a valid query and a valid pair, the result is low <= query <= high, whatever the valid mask. |
| IPv4.IPv4MatchInvalidAddress | CIDRmatch/CIDRmatch.php:121-131 | An invalid query text matches `base/p` iff the base's top `p` bits are zero. |
| IPv6.And | CIDRmatch/CIDRmatch.php:101 | Binary-string `&` sets a bit iff both operands set it. |
| IPv6.MaskDigits | CIDRmatch/CIDRmatch.php:58-72 | The padded hex text has 32 digits, and digit bit `t` of digit `n` is set iff `4n + t < p`. |
| IPv6.Pack | CIDRmatch/CIDRmatch.php:73 | `pack("H*")` puts two digits in each byte, high digit first. Bit `i` of the result is bit `i % 4` of digit `i / 4`. |
| IPv6.IPv6MaskToByteArray | CIDRmatch/CIDRmatch.php:56-76 | Bit `i` of the 16-byte mask is set iff `i < p`. |
| IPv6.LexLeIsNumeric | CIDRmatch/CIDRmatch.php:96 | Byte-lexicographic `<=` on equal-length strings is `<=` on the numbers they spell. |
| IPv6.ContainsV6 | CIDRmatch/CIDRmatch.php:94-101 | A range is the order of the 128-bit numbers. A prefix spec holds iff the base's bits are the query's first `p` bits followed by zeros. |
| IPv6.UnalignedBaseMatchesNothing | CIDRmatch/CIDRmatch.php:101 | A base with a set bit past `p` contains no address. |
| IPv6.AlignedBaseMatchesPrefix | CIDRmatch/CIDRmatch.php:99-101 | With an aligned base, containment is agreement on the first `p` bits. |
| IPv6.IPv6Match | CIDRmatch/CIDRmatch.php:79-102 | A true result means the mask is in [0, 128], the base parses, and a range's high side parses. |
| IPv6.MatchOfSpec | CIDRmatch/CIDRmatch.php:92-101 | Once the spec validates, the result is containment of the query in it. |
| IPv6.IPv6MatchPrefix | CIDRmatch/CIDRmatch.php:99-101 | For a valid bare base, the result is prefix containment of the query. |
| IPv6.IPv6MatchRange | CIDRmatch/CIDRmatch.php:94-97 | For a valid pair, the result is low <= query <= high as 128-bit numbers, whatever the valid mask. |
| Corrected.SubnetAndMask | CIDRmatch/CIDRmatch.php:21-26 | Without `/` the mask is the family's full width (32 or 128). With `/` the split is the library's own. |
| Corrected.ContainsV6 | CIDRmatch/CIDRmatch.php:99-101 | With the base masked as well, a prefix spec holds iff the query and the base agree on their first `p` bits. Ranges are unchanged. |
| Corrected.IPv4Match | CIDRmatch/CIDRmatch.php:121 | An invalid query text never matches. A valid one gets the library's answer. |
| Corrected.Match | CIDRmatch/CIDRmatch.php:19-53 | The same fast path and the same rejection of invalid queries as the library. For an IPv4 query and a spec with `/`, it agrees with the library. |
| Corrected.MatchBareV6 | CIDRmatch/CIDRmatch.php:24-26 | With the corrections, a bare IPv6 spec matches exactly the same address. |
| Corrected.MatchOwnBaseV6 | CIDRmatch/CIDRmatch.php:101 | With the corrections, every valid IPv6 base lies in `base/p`. |
| Examples.ParseLoopback | CIDRmatch/CIDRmatch.php:93 | `::1` parses to fifteen zero bytes followed by a 1. |
| Examples.ParseUnspecified | CIDRmatch/CIDRmatch.php:92 | `::` parses to sixteen zero bytes. |
| Examples.BareV6SpecMatchesOtherAddress | CIDRmatch/CIDRmatch.php:24-26 | `::1` and `::` differ, yet `match("::1", "::")` is true. |
| Examples.BareV6SpecIsExact | CIDRmatch/CIDRmatch.php:24-26 | With the corrections, `match("::1", "::")` is false. |
| Examples.UnalignedV6SpecMissesItsBase | CIDRmatch/CIDRmatch.php:101 | `match("::1", "::1/32")` is false. |
| Examples.UnalignedV6SpecHoldsItsBase | CIDRmatch/CIDRmatch.php:101 | With the corrections, `match("::1", "::1/32")` is true. |
| Examples.Slash24 | CIDRmatch/CIDRmatch.php:129-131 | Under the base 10.0.0.0 with `/24`, the address 10.0.0.5 matches and 10.0.1.5 does not. |
| Examples.Range192 | CIDRmatch/CIDRmatch.php:124-127 | Under the range 192.168.1.1-192.168.1.100, the address 192.168.1.10 matches and 192.168.1.200 does not. |
| Examples.InvalidQueryInZeroNetwork | CIDRmatch/CIDRmatch.php:121-131 | An invalid query text matches the base 0.0.0.0 with any prefix length. With the corrections it does not. |
| Examples.NotAnAddress | CIDRmatch/CIDRmatch.php:28-40 | `not-an-ip` is in neither family, so `match("not-an-ip", "10.0.0.0/8")` is false. |

## Left out

- Address grammar: PHP's `filter_var(FILTER_VALIDATE_IP)`, `ip2long` and `inet_pton` belong to the runtime. They are replaced by a simplified grammar. IPv4 is four dotted decimal octets without leading zeros. IPv6 is eight groups of one to four hex digits, or at most one `::` standing for at least one zero group. IPv6 with an embedded dotted quad is not modelled.
- Mask text: PHP compares the mask string with `<` and `>` under its loose numeric coercion. The model reads the mask as an optional `-` followed by decimal digits, so texts such as `" 8"`, `"8abc"`, `"1e1"` or `"8.5"` are rejected rather than coerced.
- Argument types: a non-string `$cidr`, `$ip` or mask, as PHP's dynamic typing would allow, is not modelled.
- IPv6.IPv6Match: requires a valid query address. For an invalid one, `inet_pton` returns `false`, and how `false` behaves under `&` and `>=` on strings depends on the PHP version. `match` only calls it with a valid query.
- IPv6.ContainsV6: numeric binary strings are not modelled. PHP compares two strings that both look like numbers (for example the 16 bytes `"0000000000000010"` and `"00000000000001e1"`, both equal to 10) numerically under `>=`, `<=` and `==` (lines 96, 101). The model always compares `inet_pton` results byte by byte, so for the rare addresses whose 16 bytes spell numeric strings it can answer differently. For example, `match("3030:3030:3030:3030:3030:3030:3030:3130", "3030:3030:3030:3030:3030:3030:3031:6531/128")` is true in PHP but false in the model.
- IPv4.ContainsV4: 32-bit PHP is not modelled. There `ip2long` returns signed values and the range compare at line 126 is signed. The model assumes 64-bit PHP, where the values are unsigned 32-bit numbers.
- IPv4.ShiftLeft: models `-1 << (32 - p)` for `p` in [0, 32] only. That is the only range the guard lets through, so the 64-bit wrap-around of larger shifts is not reachable.
- AddressText.ParseV4: states only the alphabet of a valid text. The value side is stated by `AddressText.ParseDottedQuad` for canonical dotted quads.
- AddressText.ParseV6: states only the alphabet of a valid text. Concrete parses are given for `::` and `::1` (`Examples.ParseUnspecified`, `Examples.ParseLoopback`).
- IPv4 examples with literal texts such as `10.0.0.5` are stated over any text with that parsed value (`Examples.Slash24`, `Examples.Range192`), not over the literal strings.
- The IPv6 examples `2001:db8::1` under `2001:db8::/32` and `10.0.0.1` under `::1/32` are not given as literals. `CIDRmatch.MatchPrefixV6` and `CIDRmatch.FamilyMismatchV4` cover them for all addresses.
- Calling `match` twice gives the same answer because every member is a pure function, so no separate lemma is stated.

## Findings

| source | as written | input that shows it | evidently intended | confidence | as-written member | corrected member |
|---|---|---|---|---|---|---|
| CIDRmatch/CIDRmatch.php:24-26 | A spec without `/` gets mask 32 for IPv6 as well, so a bare IPv6 spec compares only the first 32 bits. | `match("::1", "::")` is true, although `::1` and `::` are different addresses. | A bare spec is an exact match: mask 128 for IPv6. | not executed | Examples.BareV6SpecMatchesOtherAddress | Corrected.MatchBareV6 |
| CIDRmatch/CIDRmatch.php:101 | Only the query is masked; the IPv6 base is compared unmasked. The IPv4 path masks the base (line 130). | `match("::1", "::1/32")` is false, although `::1` lies in its own /32. | Mask the base too, as in the IPv4 matcher. | not executed | Examples.UnalignedV6SpecMissesItsBase | Corrected.MatchOwnBaseV6 |
| CIDRmatch/CIDRmatch.php:121 | The query given to `IPv4Match` is not validated. `ip2long` returns `false`, which `&` reads as 0. | `IPv4Match("not-an-ip", "0.0.0.0", 8)` is true. | A query that is not an IPv4 address never matches. | not executed | Examples.InvalidQueryInZeroNetwork | Corrected.IPv4Match |
