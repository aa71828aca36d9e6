/**
 * The subnet specification shared by both family matchers: the part before
 * `/` is either one address or a `low-high` pair (exactly one `-`, each side
 * trimmed), and the mask is validated against the family's width even when
 * a range makes it irrelevant.
 */
module RangeSpec {
  import opened Wrappers
  import opened Text

  /** The subnet text after `explode('-', ..)`. */
  datatype SpecText = Single(address: string) | Pair(low: string, high: string)

  /** A validated subnet specification over addresses of type `A`. */
  datatype RangeSpec<A> = Prefix(base: A, length: nat) | Bounds(low: A, high: A)

  /**
   * `explode('-', subnet)` with every piece trimmed; it is a range exactly
   * when there are two pieces. Otherwise the untrimmed text is kept whole.
   */
  function SplitRange(subnet: string): (r: SpecText)
    ensures r.Pair? <==> Count(subnet, '-') == 1
    ensures r.Single? ==> r.address == subnet
    ensures r.Pair? ==> '-' !in r.low && '-' !in r.high
  {
    var pieces := Split(subnet, '-');
    if |pieces| == 2 then
      assert '-' !in pieces[0] && '-' !in pieces[1];
      TrimSubsequence(pieces[0]);
      TrimSubsequence(pieces[1]);
      Pair(Trim(pieces[0]), Trim(pieces[1]))
    else Single(subnet)
  }

  lemma TrimSubsequence(s: string)
    ensures forall c :: c in Trim(s) ==> c in s
  {
    var l := TrimLeft(s);
    forall c | c in Trim(s) ensures c in s {
      var k :| 0 <= k < |Trim(s)| && Trim(s)[k] == c;
      assert Trim(s)[k] == l[k] == s[|s| - |l| + k];
    }
  }

  /** A text with exactly one `-` splits into its two trimmed sides. */
  lemma SplitRangeOfPair(low: string, high: string)
    requires '-' !in low && '-' !in high
    ensures SplitRange(low + "-" + high) == Pair(Trim(low), Trim(high))
  {
    SplitJoin([low, high], '-');
    assert Join([low, high], '-') == low + "-" + high;
  }

  /** A text without `-` is a single address, kept as it is. */
  lemma SplitRangeOfSingle(address: string)
    requires '-' !in address
    ensures SplitRange(address) == Single(address)
  {
  }

  /** The address text the mask check and the base parse look at. */
  function BaseText(t: SpecText): string {
    match t
    case Single(a) => a
    case Pair(low, _) => low
  }

  /** The mask is present (neither null nor empty) and within [0, width]. */
  predicate MaskInRange(mask: Option<int>, width: nat) {
    mask.Some? && 0 <= mask.value <= width
  }

  /**
   * The checks both matchers make before comparing anything: the base (or
   * low) address parses in the family, the mask is within [0, width], and a
   * range's high address parses too. On success the result is a prefix spec
   * carrying the parsed base and the mask, or a bounds spec carrying both
   * parsed ends.
   */
  function ParseSpec<A>(subnet: string, mask: Option<int>, width: nat, parse: string -> Option<A>): (r: Option<RangeSpec<A>>)
    ensures r.Some? <==>
      MaskInRange(mask, width) && parse(BaseText(SplitRange(subnet))).Some? &&
      (SplitRange(subnet).Pair? ==> parse(SplitRange(subnet).high).Some?)
    ensures r.Some? ==> (r.value.Bounds? <==> SplitRange(subnet).Pair?)
    ensures r.Some? && r.value.Prefix? ==>
      parse(subnet) == Some(r.value.base) && r.value.length == mask.value <= width
    ensures r.Some? && r.value.Bounds? ==>
      parse(SplitRange(subnet).low) == Some(r.value.low) && parse(SplitRange(subnet).high) == Some(r.value.high)
  {
    var text := SplitRange(subnet);
    var base := parse(BaseText(text));
    if base.None? || !MaskInRange(mask, width) then None
    else match text
      case Single(_) => Some(Prefix(base.value, mask.value))
      case Pair(_, high) =>
        var top := parse(high);
        if top.None? then None else Some(Bounds(base.value, top.value))
  }

  /** A bare address with a valid mask gives the prefix spec of its parse. */
  lemma ParseSpecOfSingle<A>(subnet: string, mask: Option<int>, width: nat, parse: string -> Option<A>)
    requires SplitRange(subnet) == Single(subnet) && parse(subnet).Some? && MaskInRange(mask, width)
    ensures ParseSpec(subnet, mask, width, parse) == Some(Prefix(parse(subnet).value, mask.value))
  {
  }

  /** A valid `low-high` pair with a valid mask gives the bounds spec of the two parses. */
  lemma ParseSpecOfPair<A>(subnet: string, mask: Option<int>, width: nat, parse: string -> Option<A>, low: string, high: string)
    requires SplitRange(subnet) == Pair(low, high) && parse(low).Some? && parse(high).Some? && MaskInRange(mask, width)
    ensures ParseSpec(subnet, mask, width, parse) == Some(Bounds(parse(low).value, parse(high).value))
  {
  }

}
