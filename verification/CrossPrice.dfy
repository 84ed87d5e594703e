/** price-feed/src/cross.rs, arithmetic: pricing a Cross pair from its route's legs in checked 128-bit integers. */
module CrossPrices {
  import opened Arithmetic
  import opened Prelude
  import opened FeedRegistries
  import opened PriceData
  import opened CrossRoutes

  function Pow10(n: nat): (p: nat)
    ensures p >= 1
  {
    if n == 0 then 1 else 10 * Pow10(n - 1)
  }

  lemma {:induction false} Pow10Adds(a: nat, b: nat)
    ensures Pow10(a + b) == Pow10(a) * Pow10(b)
  {
    if a > 0 {
      Pow10Adds(a - 1, b);
      assert Pow10(a) * Pow10(b) == 10 * (Pow10(a - 1) * Pow10(b));
    }
  }

  // ----- Rounding, ties to even -----

  /** `p` is nearest to `n / d`, and even when two are equally near. */
  predicate IsNearestEven(p: int, n: int, d: int) {
    && -d <= 2 * (p * d - n) <= d
    && (2 * (p * d - n) in {d, -d} ==> p % 2 == 0)
  }

  /** The rounding that ends `scaled_price`, from a quotient and its remainder. */
  function Settle(divisor: nat, quotient: nat, remainder: nat): nat
    requires divisor > 0
  {
    if remainder < divisor - remainder then quotient
    else if remainder > divisor - remainder then quotient + 1
    else quotient + quotient % 2
  }

  function RoundHalfEven(n: nat, d: nat): nat
    requires d > 0
  {
    DivisionIsNatural(n, d);
    Settle(d, n / d, n % d)
  }

  lemma NearestEvenIsUnique(p: int, q: int, n: int, d: int)
    requires d > 0 && IsNearestEven(p, n, d) && IsNearestEven(q, n, d)
    ensures p == q
  {
    SmallMultiple(p - q, d, p * d - q * d);
  }

  /** A multiple of `d` of at most `d` is one of -d, 0 and d. */
  lemma SmallMultiple(gap: int, d: int, product: int)
    requires d > 0 && product == gap * d && -d <= product <= d
    ensures gap in {-1, 0, 1}
  {
    if gap >= 2 {
      MulMonotone(2, gap, d);
    } else if gap <= -2 {
      MulMonotone(gap, -2, d);
    }
  }

  lemma RoundHalfEvenIsNearest(n: nat, d: nat, p: int)
    requires d > 0
    ensures IsNearestEven(p, n, d) <==> p == RoundHalfEven(n, d)
  {
    var quotient, remainder, rounded := n / d, n % d, RoundHalfEven(n, d);
    DivisionIsExact(n, d);
    assert (quotient + 1) * d == quotient * d + d;
    assert IsNearestEven(rounded, n, d);
    if IsNearestEven(p, n, d) {
      NearestEvenIsUnique(p, rounded, n, d);
    }
  }

  // ----- scaled_price -----

  /** A negative exponent scales the denominator, in checked arithmetic. */
  predicate DenominatorFits(denominator: nat, exponent: int) {
    exponent >= 0 || (Pow10(-exponent) <= I128_MAX && denominator * Pow10(-exponent) <= I128_MAX)
  }

  function Denominator(denominator: nat, exponent: int): (divisor: nat)
    ensures denominator > 0 <==> divisor > 0
  {
    if exponent < 0 then denominator * Pow10(-exponent) else denominator
  }

  function QuotientAt(numerator: nat, divisor: nat, i: nat): int
    requires divisor > 0
  {
    if i == 0 then numerator / divisor
    else 10 * QuotientAt(numerator, divisor, i - 1) + 10 * RemainderAt(numerator, divisor, i - 1) / divisor
  }

  function RemainderAt(numerator: nat, divisor: nat, i: nat): nat
    requires divisor > 0
  {
    if i == 0 then numerator % divisor else 10 * RemainderAt(numerator, divisor, i - 1) % divisor
  }

  /** Long division: after `i` digits the loop holds the quotient and remainder of `numerator * 10^i`. */
  lemma {:induction false} DigitsAreExact(numerator: nat, divisor: nat, i: nat)
    requires divisor > 0
    ensures QuotientAt(numerator, divisor, i) == numerator * Pow10(i) / divisor
    ensures RemainderAt(numerator, divisor, i) == numerator * Pow10(i) % divisor
  {
    if i > 0 {
      DigitsAreExact(numerator, divisor, i - 1);
      DigitStep(numerator * Pow10(i - 1), divisor);
      assert numerator * Pow10(i) == 10 * (numerator * Pow10(i - 1));
    } else {
      assert numerator * Pow10(0) == numerator;
    }
  }

  lemma {:induction false} QuotientGrows(numerator: nat, divisor: nat, i: nat, j: nat)
    requires divisor > 0 && i <= j
    ensures 0 <= QuotientAt(numerator, divisor, i) <= QuotientAt(numerator, divisor, j)
    decreases j
  {
    if i < j {
      QuotientGrows(numerator, divisor, i, j - 1);
      DivisionIsNatural(10 * RemainderAt(numerator, divisor, j - 1), divisor);
    } else if i > 0 {
      QuotientGrows(numerator, divisor, i - 1, i - 1);
      DivisionIsNatural(10 * RemainderAt(numerator, divisor, i - 1), divisor);
    } else {
      DivisionIsNatural(numerator, divisor);
    }
  }

  /** No partial remainder of the digit loop overflows when it is carried to the next digit. */
  predicate CarriesFit(numerator: nat, divisor: nat, digits: nat)
    requires divisor > 0
  {
    forall i | 0 <= i < digits :: 10 * RemainderAt(numerator, divisor, i) <= I128_MAX
  }

  /** What the loop multiplies out before digit `i + 1`, in closed form. */
  function Carry(numerator: nat, divisor: nat, i: nat): nat
    requires divisor > 0
  {
    10 * (numerator * Pow10(i) % divisor)
  }

  lemma CarriesInClosedForm(numerator: nat, divisor: nat, digits: nat)
    requires divisor > 0
    ensures CarriesFit(numerator, divisor, digits) <==>
            forall i | 0 <= i < digits :: Carry(numerator, divisor, i) <= I128_MAX
  {
    forall i | 0 <= i < digits ensures 10 * RemainderAt(numerator, divisor, i) == Carry(numerator, divisor, i) {
      DigitsAreExact(numerator, divisor, i);
    }
  }

  /** When the code yields a price, and which one. */
  function ScaledPriceOf(numerator: nat, denominator: nat, exponent: int): Option<nat> {
    if denominator == 0 || !DenominatorFits(denominator, exponent) then None
    else
      var digits, divisor := Max(exponent, 0), Denominator(denominator, exponent);
      if CarriesFit(numerator, divisor, digits) && RoundHalfEven(numerator * Pow10(digits), divisor) <= U64_MAX
      then Some(RoundHalfEven(numerator * Pow10(digits), divisor))
      else None
  }

  /** A quotient that left the 64-bit range at some digit never comes back. */
  lemma OutOfRangeStays(numerator: nat, divisor: nat, i: nat, digits: nat)
    requires divisor > 0 && i <= digits && QuotientAt(numerator, divisor, i) > U64_MAX
    ensures RoundHalfEven(numerator * Pow10(digits), divisor) > U64_MAX
  {
    QuotientGrows(numerator, divisor, i, digits);
    DigitsAreExact(numerator, divisor, digits);
  }

  /** One turn of the loop, in checked arithmetic. */
  method NextDigit(numerator: nat, divisor: nat, i: nat, quotient: nat, remainder: nat) returns (r: Option<(nat, nat)>)
    requires divisor > 0
    requires quotient == QuotientAt(numerator, divisor, i) && remainder == RemainderAt(numerator, divisor, i)
    ensures r.Some? ==> r.value == (QuotientAt(numerator, divisor, i + 1), RemainderAt(numerator, divisor, i + 1))
    ensures r.Some? ==> 10 * remainder <= I128_MAX
    ensures r.None? ==> 10 * remainder > I128_MAX || QuotientAt(numerator, divisor, i + 1) > U64_MAX
  {
    var carried := 10 * remainder;
    if carried > I128_MAX {
      return None;
    }
    DivisionIsNatural(carried, divisor);
    var digit := carried / divisor;
    if quotient * 10 > I128_MAX || quotient * 10 + digit > I128_MAX || quotient * 10 + digit > U64_MAX {
      return None;
    }
    return Some((quotient * 10 + digit, carried % divisor));
  }

  /** The digit loop of `scaled_price`: leaving early loses nothing. */
  method DigitLoop(numerator: nat, divisor: nat, digits: nat) returns (r: Option<(nat, nat)>)
    requires divisor > 0
    ensures r.Some? ==> CarriesFit(numerator, divisor, digits)
    ensures r.Some? ==> r.value == (QuotientAt(numerator, divisor, digits), RemainderAt(numerator, divisor, digits))
    ensures r.None? ==>
              !CarriesFit(numerator, divisor, digits) || RoundHalfEven(numerator * Pow10(digits), divisor) > U64_MAX
  {
    QuotientGrows(numerator, divisor, 0, 0);
    var quotient: nat, remainder: nat := numerator / divisor, numerator % divisor;
    for i := 0 to digits
      invariant quotient == QuotientAt(numerator, divisor, i) && remainder == RemainderAt(numerator, divisor, i)
      invariant CarriesFit(numerator, divisor, i)
    {
      var next := NextDigit(numerator, divisor, i, quotient, remainder);
      if next.None? {
        if QuotientAt(numerator, divisor, i + 1) > U64_MAX {
          OutOfRangeStays(numerator, divisor, i + 1, digits);
        }
        return None;
      }
      quotient, remainder := next.value.0, next.value.1;
    }
    return Some((quotient, remainder));
  }

  lemma SettledIsRounded(numerator: nat, divisor: nat, digits: nat)
    requires divisor > 0 && QuotientAt(numerator, divisor, digits) >= 0
    ensures Settle(divisor, QuotientAt(numerator, divisor, digits), RemainderAt(numerator, divisor, digits))
         == RoundHalfEven(numerator * Pow10(digits), divisor)
  {
    DigitsAreExact(numerator, divisor, digits);
  }

  method ScaledPrice(numerator: nat, denominator: nat, exponent: int) returns (r: Option<nat>)
    requires numerator <= I128_MAX && denominator <= I128_MAX
    ensures r == ScaledPriceOf(numerator, denominator, exponent)
  {
    if !DenominatorFits(denominator, exponent) {
      return None;
    }
    var divisor := Denominator(denominator, exponent);
    if divisor == 0 {
      return None;
    }
    var digits := Max(exponent, 0);
    var looped := DigitLoop(numerator, divisor, digits);
    if looped.None? {
      return None;
    }
    SettledIsRounded(numerator, divisor, digits);
    var rounded := Settle(divisor, looped.value.0, looped.value.1);
    return if rounded <= U64_MAX then Some(rounded) else None;
  }

  /** The fraction the code has scaled to, rounded half to even. */
  function Rounded(numerator: nat, denominator: nat, exponent: int): nat
    requires denominator > 0
  {
    RoundHalfEven(numerator * Pow10(Max(exponent, 0)), Denominator(denominator, exponent))
  }

  /** Some partial remainder, carried to the next digit, leaves the 128-bit range. */
  predicate CarryOverflows(numerator: nat, denominator: nat, exponent: int)
    requires denominator > 0
  {
    exists i :: 0 <= i < exponent && Carry(numerator, Denominator(denominator, exponent), i) > I128_MAX
  }

  /** Exactly when a price is given: the scaling fits, no carry overflows, and the rounded value fits 64 bits. */
  lemma ScaledPriceIsExact(numerator: nat, denominator: nat, exponent: int)
    requires denominator > 0
    ensures ScaledPriceOf(numerator, denominator, exponent)
         == if DenominatorFits(denominator, exponent) && !CarryOverflows(numerator, denominator, exponent)
               && Rounded(numerator, denominator, exponent) <= U64_MAX
            then Some(Rounded(numerator, denominator, exponent)) else None
  {
    CarriesInClosedForm(numerator, Denominator(denominator, exponent), Max(exponent, 0));
  }

  /**
   * A divisor of at most a tenth of the 128-bit range never loses a price: it is given exactly when the rounded value
   * fits.
   */
  lemma ScaledPriceIsComplete(numerator: nat, denominator: nat, exponent: int)
    requires denominator > 0 && DenominatorFits(denominator, exponent)
    requires Denominator(denominator, exponent) <= I128_MAX / 10
    ensures ScaledPriceOf(numerator, denominator, exponent)
         == var rounded := Rounded(numerator, denominator, exponent);
            if rounded <= U64_MAX then Some(rounded) else None
  {
    var divisor := Denominator(denominator, exponent);
    ScaledPriceIsExact(numerator, denominator, exponent);
    forall i | 0 <= i < exponent ensures Carry(numerator, divisor, i) <= I128_MAX {
      DivisionIsExact(numerator * Pow10(i), divisor);
    }
  }

  // ----- compute -----

  type PricedLeg = (Leg, PriceFeedData)

  /** The route that the legs walk. */
  function RouteOf(legs: seq<PricedLeg>): Route {
    seq(|legs|, i requires 0 <= i < |legs| => legs[i].0)
  }

  datatype Totals = Totals(numerator: nat, denominator: nat, exponent: int)

  /** One leg multiplied in, unless a product leaves the 128-bit range. */
  function MultiplyIn(totals: Totals, priced: PricedLeg): Option<Totals> {
    var (leg, value) := priced;
    if leg.invert then
      if totals.denominator * value.price > I128_MAX then None
      else Some(Totals(totals.numerator, totals.denominator * value.price, totals.exponent + value.decimals))
    else
      if totals.numerator * value.price > I128_MAX then None
      else Some(Totals(totals.numerator * value.price, totals.denominator, totals.exponent - value.decimals))
  }

  /** The products and exponent after all of `legs`. */
  function Accumulate(decimals: nat, legs: seq<PricedLeg>): Option<Totals> {
    if legs == [] then Some(Totals(1, 1, decimals))
    else
      var before :- Accumulate(decimals, legs[..|legs| - 1]);
      MultiplyIn(before, legs[|legs| - 1])
  }

  // The products and the exponent themselves, unchecked.

  function NumeratorOf(legs: seq<PricedLeg>): nat {
    if legs == [] then 1
    else
      var (leg, value) := legs[|legs| - 1];
      NumeratorOf(legs[..|legs| - 1]) * if leg.invert then 1 else value.price
  }

  function DenominatorOf(legs: seq<PricedLeg>): nat {
    if legs == [] then 1
    else
      var (leg, value) := legs[|legs| - 1];
      DenominatorOf(legs[..|legs| - 1]) * if leg.invert then value.price else 1
  }

  function ExponentOf(decimals: nat, legs: seq<PricedLeg>): int {
    if legs == [] then decimals
    else
      var (leg, value) := legs[|legs| - 1];
      ExponentOf(decimals, legs[..|legs| - 1]) + if leg.invert then value.decimals else 0 - value.decimals
  }

  /** After no leg has a product of prices left the 128-bit range. */
  predicate ProductsFit(legs: seq<PricedLeg>) {
    legs == []
    || (ProductsFit(legs[..|legs| - 1]) && NumeratorOf(legs) <= I128_MAX && DenominatorOf(legs) <= I128_MAX)
  }

  /** The checked products are the products, exactly as long as each of them fits. */
  lemma {:induction false} AccumulateIsExact(decimals: nat, legs: seq<PricedLeg>)
    ensures Accumulate(decimals, legs)
         == if ProductsFit(legs) then Some(Totals(NumeratorOf(legs), DenominatorOf(legs), ExponentOf(decimals, legs)))
            else None
  {
    if legs != [] {
      AccumulateIsExact(decimals, legs[..|legs| - 1]);
    }
  }

  function NewestReceipt(legs: seq<PricedLeg>): nat
    requires legs != []
  {
    if |legs| == 1 then legs[0].1.receivedAt
    else Max(NewestReceipt(legs[..|legs| - 1]), legs[|legs| - 1].1.receivedAt)
  }

  function EarliestExpiry(legs: seq<PricedLeg>): nat
    requires legs != []
  {
    if |legs| == 1 then legs[0].1.validUntil
    else Min(EarliestExpiry(legs[..|legs| - 1]), legs[|legs| - 1].1.validUntil)
  }

  /** The two stamps bound every leg, and each is some leg's own. */
  lemma {:induction false} StampsBoundLegs(legs: seq<PricedLeg>) returns (oldest: nat, newest: nat)
    requires legs != []
    ensures forall i | 0 <= i < |legs| ::
            EarliestExpiry(legs) <= legs[i].1.validUntil && legs[i].1.receivedAt <= NewestReceipt(legs)
    ensures oldest < |legs| && legs[oldest].1.validUntil == EarliestExpiry(legs)
    ensures newest < |legs| && legs[newest].1.receivedAt == NewestReceipt(legs)
  {
    var last := |legs| - 1;
    if last == 0 {
      oldest, newest := 0, 0;
    } else {
      var front := legs[..last];
      oldest, newest := StampsBoundLegs(front);
      forall k | 0 <= k < |legs|
        ensures EarliestExpiry(legs) <= legs[k].1.validUntil && legs[k].1.receivedAt <= NewestReceipt(legs)
      {
        if k < last {
          assert legs[k] == front[k];
        }
      }
      if legs[last].1.validUntil < legs[oldest].1.validUntil {
        oldest := last;
      }
      if legs[last].1.receivedAt > legs[newest].1.receivedAt {
        newest := last;
      }
    }
  }

  function ComputeOf(pair: FeedDefinition, legs: seq<PricedLeg>): Option<PriceFeedData> {
    var totals :- Accumulate(pair.decimals, legs);
    var price :- ScaledPriceOf(totals.numerator, totals.denominator, totals.exponent);
    if price == 0 || legs == [] then None
    else Some(PriceFeedData(pair.id, price, pair.decimals, NewestReceipt(legs), EarliestExpiry(legs)))
  }

  method Compute(pair: FeedDefinition, legs: seq<PricedLeg>) returns (r: Option<PriceFeedData>)
    ensures r == ComputeOf(pair, legs)
  {
    var totals := MultiplyOut(pair.decimals, legs);
    if totals.None? {
      return None;
    }
    var price := ScaledPrice(totals.value.numerator, totals.value.denominator, totals.value.exponent);
    if price.None? || price.value == 0 || legs == [] {
      return None;
    }
    var newest, earliest := Stamps(legs);
    return Some(PriceFeedData(pair.id, price.value, pair.decimals, newest, earliest));
  }

  /** The checked products over the legs. */
  method MultiplyOut(decimals: nat, legs: seq<PricedLeg>) returns (r: Option<Totals>)
    ensures r == Accumulate(decimals, legs)
    ensures r.Some? ==> r.value.numerator <= I128_MAX && r.value.denominator <= I128_MAX
  {
    var totals := Totals(1, 1, decimals);
    for i := 0 to |legs|
      invariant Accumulate(decimals, legs[..i]) == Some(totals)
      invariant totals.numerator <= I128_MAX && totals.denominator <= I128_MAX
    {
      assert legs[..i + 1][..i] == legs[..i];
      var next := MultiplyIn(totals, legs[i]);
      if next.None? {
        AccumulateStops(decimals, legs, i + 1);
        return None;
      }
      totals := next.value;
    }
    assert legs[..|legs|] == legs;
    return Some(totals);
  }

  method Stamps(legs: seq<PricedLeg>) returns (newest: nat, earliest: nat)
    requires legs != []
    ensures newest == NewestReceipt(legs) && earliest == EarliestExpiry(legs)
  {
    newest, earliest := legs[0].1.receivedAt, legs[0].1.validUntil;
    for i := 1 to |legs|
      invariant newest == NewestReceipt(legs[..i]) && earliest == EarliestExpiry(legs[..i])
    {
      assert legs[..i + 1][..i] == legs[..i];
      newest, earliest := Max(newest, legs[i].1.receivedAt), Min(earliest, legs[i].1.validUntil);
    }
    assert legs[..|legs|] == legs;
  }

  lemma {:induction false} AccumulateStops(decimals: nat, legs: seq<PricedLeg>, i: nat)
    requires i <= |legs| && Accumulate(decimals, legs[..i]).None?
    ensures Accumulate(decimals, legs).None?
    decreases |legs|
  {
    if i == |legs| {
      assert legs[..i] == legs;
    } else {
      var front := legs[..|legs| - 1];
      assert front[..i] == legs[..i];
      AccumulateStops(decimals, front, i);
    }
  }

  /** The price of the legs in exact arithmetic. */
  function ExactPrice(decimals: nat, legs: seq<PricedLeg>): nat
    requires DenominatorOf(legs) > 0
  {
    Rounded(NumeratorOf(legs), DenominatorOf(legs), ExponentOf(decimals, legs))
  }

  /** Every product, scaling and carry stays in the 128-bit range. */
  predicate ArithmeticFits(decimals: nat, legs: seq<PricedLeg>)
    requires DenominatorOf(legs) > 0
  {
    && ProductsFit(legs)
    && DenominatorFits(DenominatorOf(legs), ExponentOf(decimals, legs))
    && !CarryOverflows(NumeratorOf(legs), DenominatorOf(legs), ExponentOf(decimals, legs))
  }

  /** For any legs at all: exactly when a route gives a price, and that it is then the exact one. */
  lemma ComputeIsExact(pair: FeedDefinition, legs: seq<PricedLeg>)
    requires legs != []
    ensures ComputeOf(pair, legs).Some? <==>
              && DenominatorOf(legs) > 0 && ArithmeticFits(pair.decimals, legs)
              && 0 < ExactPrice(pair.decimals, legs) <= U64_MAX
    ensures ComputeOf(pair, legs).Some? ==>
              ComputeOf(pair, legs).value.price == ExactPrice(pair.decimals, legs)
  {
    AccumulateIsExact(pair.decimals, legs);
    if DenominatorOf(legs) > 0 {
      ScaledPriceIsExact(NumeratorOf(legs), DenominatorOf(legs), ExponentOf(pair.decimals, legs));
    }
  }

  /** A rate is the pair's own, as new as its freshest leg, and valid as long as its stalest one. */
  lemma RateCarriesLegStamps(pair: FeedDefinition, legs: seq<PricedLeg>)
    requires ComputeOf(pair, legs).Some?
    ensures var rate := ComputeOf(pair, legs).value;
            && rate.feedId == pair.id && rate.decimals == pair.decimals && rate.price > 0
            && (forall leg | leg in legs :: leg.1.receivedAt <= rate.receivedAt && rate.validUntil <= leg.1.validUntil)
            && (exists leg :: leg in legs && leg.1.receivedAt == rate.receivedAt)
            && (exists leg :: leg in legs && leg.1.validUntil == rate.validUntil)
  {
    var oldest, newest := StampsBoundLegs(legs);
    assert legs[oldest] in legs && legs[newest] in legs;
  }

  /** Products that fit and a scaled denominator of at most a tenth of the range lose no price. */
  lemma ComputeIsComplete(pair: FeedDefinition, legs: seq<PricedLeg>)
    requires legs != [] && ProductsFit(legs) && DenominatorOf(legs) > 0
    requires DenominatorFits(DenominatorOf(legs), ExponentOf(pair.decimals, legs))
    requires Denominator(DenominatorOf(legs), ExponentOf(pair.decimals, legs)) <= I128_MAX / 10
    ensures ComputeOf(pair, legs).Some? <==> 0 < ExactPrice(pair.decimals, legs) <= U64_MAX
  {
    AccumulateIsExact(pair.decimals, legs);
    ScaledPriceIsComplete(NumeratorOf(legs), DenominatorOf(legs), ExponentOf(pair.decimals, legs));
  }

  // ----- A price that is lost -----

  const LBTC_USD := FeedDefinition(1, Lbtc, Usd, Direct, 8)
  const USDT_USD := FeedDefinition(2, Usdt, Usd, Direct, 8)
  const EURX_USDT := FeedDefinition(3, Eurx, Usdt, Direct, 8)
  const DEPIX_EURX := FeedDefinition(4, DePix, Eurx, Direct, 8)
  const LBTC_DEPIX := FeedDefinition(5, Lbtc, DePix, Cross, 8)

  const CHAIN := FeedRegistry([LBTC_USD, USDT_USD, EURX_USDT, DEPIX_EURX, LBTC_DEPIX])
  const CHAIN_ROUTE: Route := [Leg(1, false), Leg(2, true), Leg(3, true), Leg(4, true)]

  function Quote(leg: Leg, price: nat): PricedLeg {
    (leg, PriceFeedData(leg.feed, price, 8, 1_000, 1_300))
  }

  /** One direct leg at two million, three reciprocal legs at fifty thousand, all at 8 decimals. */
  function LosingLegs(): seq<PricedLeg> {
    [Quote(Leg(1, false), 200_000_000_000_000), Quote(Leg(2, true), 5_000_000_000_000),
     Quote(Leg(3, true), 5_000_000_000_000), Quote(Leg(4, true), 5_000_000_000_000)]
  }

  /** The legs are ordinary: a candidate route of the pair, at positive 64-bit prices with 8 decimals. */
  ghost predicate Ordinary(registry: FeedRegistry, pair: FeedDefinition, legs: seq<PricedLeg>) {
    && registry.UniqueIds() && CandidatesOf(registry, pair).Ok?
    && RouteOf(legs) in CandidatesOf(registry, pair).value
    && forall leg | leg in legs :: 0 < leg.1.price <= U64_MAX && leg.1.decimals == 8
  }

  /** A carry overflows: the exact price is 2, every product and the scaling fit, and no price is given. */
  lemma CarryOverflowLosesAPrice()
    ensures Ordinary(CHAIN, LBTC_DEPIX, LosingLegs())
    ensures ProductsFit(LosingLegs()) && DenominatorOf(LosingLegs()) > 0
    ensures DenominatorFits(DenominatorOf(LosingLegs()), ExponentOf(8, LosingLegs()))
    ensures ExactPrice(8, LosingLegs()) == 2 && ComputeOf(LBTC_DEPIX, LosingLegs()) == None
  {
    var legs := LosingLegs();
    LosingIsOrdinary();
    LosingTotals();
    AccumulateIsExact(8, legs);
    LateCarry(200_000_000_000_000, 125_000_000_000_000_000_000_000_000_000_000_000_000);
    ComputeIsExact(LBTC_DEPIX, legs);
  }

  lemma LosingIsOrdinary()
    ensures Ordinary(CHAIN, LBTC_DEPIX, LosingLegs())
  {
    ChainRouteIsCandidate();
    assert RouteOf(LosingLegs()) == CHAIN_ROUTE;
  }

  lemma LosingTotals()
    ensures Accumulate(8, LosingLegs())
         == Some(Totals(200_000_000_000_000, 125_000_000_000_000_000_000_000_000_000_000_000_000, 24))
  {
    var legs := LosingLegs();
    var direct, inverted := 200_000_000_000_000, 5_000_000_000_000;
    assert legs[..1] == [legs[0]] && legs[..2][..1] == legs[..1] && legs[..3][..2] == legs[..2];
    assert Accumulate(8, legs[..1]) == Some(Totals(direct, 1, 0));
    assert Accumulate(8, legs[..2]) == Some(Totals(direct, inverted, 8));
    assert Accumulate(8, legs[..3]) == Some(Totals(direct, 25_000_000_000_000_000_000_000_000, 16));
  }

  const USD_USDT := FeedDefinition(12, Usd, Usdt, Direct, 8)
  const USDT_EURX := FeedDefinition(13, Usdt, Eurx, Direct, 8)
  const USDC_DEPIX := FeedDefinition(15, Usdc, DePix, Direct, 8)
  const LBTC_USDC := FeedDefinition(16, Lbtc, Usdc, Cross, 8)

  const LONG := FeedRegistry([LBTC_USD, DEPIX_EURX, USD_USDT, USDT_EURX, USDC_DEPIX, LBTC_USDC])
  const LONG_ROUTE: Route := [Leg(1, false), Leg(12, false), Leg(13, false), Leg(4, true), Leg(15, true)]

  /** Three direct legs and two reciprocal ones, each at a hundred thousand with 8 decimals. */
  function WideLegs(): seq<PricedLeg> {
    [Quote(Leg(1, false), 10_000_000_000_000), Quote(Leg(12, false), 10_000_000_000_000),
     Quote(Leg(13, false), 10_000_000_000_000), Quote(Leg(4, true), 10_000_000_000_000),
     Quote(Leg(15, true), 10_000_000_000_000)]
  }

  /** A product overflows: the exact price is ten million million, scaling and carries fit, and no price is given. */
  lemma ProductOverflowLosesAPrice()
    ensures Ordinary(LONG, LBTC_USDC, WideLegs())
    ensures !ProductsFit(WideLegs()) && DenominatorOf(WideLegs()) > 0
    ensures DenominatorFits(DenominatorOf(WideLegs()), ExponentOf(8, WideLegs()))
    ensures !CarryOverflows(NumeratorOf(WideLegs()), DenominatorOf(WideLegs()), ExponentOf(8, WideLegs()))
    ensures Denominator(DenominatorOf(WideLegs()), ExponentOf(8, WideLegs())) <= I128_MAX / 10
    ensures ExactPrice(8, WideLegs()) == 10_000_000_000_000 && ComputeOf(LBTC_USDC, WideLegs()) == None
  {
    LongRouteIsCandidate();
    var legs := WideLegs();
    assert RouteOf(legs) == LONG_ROUTE;
    WideProducts(legs, 10_000_000_000_000);
    assert !ProductsFit(legs[..3]) && legs[..4][..3] == legs[..3];
    assert !ProductsFit(legs[..4]);
    ComputeIsExact(LBTC_USDC, legs);
  }

  lemma WideProducts(legs: seq<PricedLeg>, price: nat)
    requires legs == WideLegs() && price == 10_000_000_000_000
    ensures NumeratorOf(legs[..3]) == 1_000_000_000_000_000_000_000_000_000_000_000_000_000
    ensures NumeratorOf(legs) == NumeratorOf(legs[..3]) && DenominatorOf(legs) == 100_000_000_000_000_000_000_000_000
    ensures ExponentOf(8, legs) == 0
    ensures ExactPrice(8, legs) == price
  {
    assert legs[..4][..3] == legs[..3] && legs[..3][..2] == legs[..2];
    assert legs[..2][..1] == legs[..1] && legs[..1][..0] == [];
    assert NumeratorOf(legs[..1]) == price && DenominatorOf(legs[..1]) == 1 && ExponentOf(8, legs[..1]) == 0;
    assert NumeratorOf(legs[..2]) == 100_000_000_000_000_000_000_000_000 && DenominatorOf(legs[..2]) == 1;
    assert ExponentOf(8, legs[..2]) == -8 && ExponentOf(8, legs[..3]) == -16 && DenominatorOf(legs[..3]) == 1;
    assert NumeratorOf(legs[..4]) == NumeratorOf(legs[..3]) && DenominatorOf(legs[..4]) == price;
    assert ExponentOf(8, legs[..4]) == -8;
    DivisionIsUnique(NumeratorOf(legs) * 1, DenominatorOf(legs), price, 0);
  }

  lemma LongRouteIsCandidate()
    ensures CandidatesOf(LONG, LBTC_USDC).Ok? && LONG_ROUTE in CandidatesOf(LONG, LBTC_USDC).value
  {
    var stops := [Lbtc, Usd, Usdt, Eurx, DePix, Usdc];
    JoinsDirectly(LONG, 0, LONG_ROUTE[0], Lbtc, Usd);
    JoinsDirectly(LONG, 2, LONG_ROUTE[1], Usd, Usdt);
    JoinsDirectly(LONG, 3, LONG_ROUTE[2], Usdt, Eurx);
    JoinsDirectly(LONG, 1, LONG_ROUTE[3], Eurx, DePix);
    JoinsDirectly(LONG, 4, LONG_ROUTE[4], DePix, Usdc);
    SimpleRouteIsCandidate(LONG, LBTC_USDC, LONG_ROUTE, stops);
  }

  /** 200 million million over 1.25 * 10^38, at 24 digits, is 1.6; its twenty-third remainder is 2 * 10^37. */
  lemma LateCarry(direct: nat, divisor: nat)
    requires direct == 200_000_000_000_000 && divisor == 125_000_000_000_000_000_000_000_000_000_000_000_000
    ensures Rounded(direct, divisor, 24) == 2 && CarryOverflows(direct, divisor, 24)
  {
    var last := direct * Pow10(23);
    assert Pow10(8) == 100_000_000;
    Pow10Adds(8, 8);
    Pow10Adds(16, 7);
    assert last == 20_000_000_000_000_000_000_000_000_000_000_000_000;
    DivisionIsUnique(last, divisor, 0, last);
    assert Carry(direct, Denominator(divisor, 24), 23) > I128_MAX;
    Pow10Adds(23, 1);
    DivisionIsUnique(direct * Pow10(24), divisor, 1, 75_000_000_000_000_000_000_000_000_000_000_000_000);
  }

  lemma ChainRouteIsCandidate()
    ensures CandidatesOf(CHAIN, LBTC_DEPIX).Ok? && CHAIN_ROUTE in CandidatesOf(CHAIN, LBTC_DEPIX).value
  {
    var stops := [Lbtc, Usd, Usdt, Eurx, DePix];
    JoinsDirectly(CHAIN, 0, CHAIN_ROUTE[0], Lbtc, Usd);
    JoinsDirectly(CHAIN, 1, CHAIN_ROUTE[1], Usd, Usdt);
    JoinsDirectly(CHAIN, 2, CHAIN_ROUTE[2], Usdt, Eurx);
    JoinsDirectly(CHAIN, 3, CHAIN_ROUTE[3], Eurx, DePix);
    SimpleRouteIsCandidate(CHAIN, LBTC_DEPIX, CHAIN_ROUTE, stops);
  }

  lemma JoinsDirectly(registry: FeedRegistry, i: nat, leg: Leg, from: Asset, to: Asset)
    requires i < |registry.feeds| && registry.feeds[i].kind.Direct? && Traverses(registry.feeds[i], leg, from, to)
    ensures LegJoins(DirectFeeds(registry.feeds), leg, from, to)
  {
    DirectFeedsFilter(registry.feeds);
    assert registry.feeds[i] in DirectFeeds(registry.feeds);
  }

  // ----- Route independence -----

  /**
   * What one unit of each asset is worth, in a unit common to all of them and small enough to keep every worth whole.
   */
  type Valuation = Asset -> nat

  ghost predicate Positive(worth: Valuation) {
    forall asset :: worth(asset) > 0
  }

  /** The value quotes the feed at the ratio of the worths of its assets. */
  ghost predicate QuotesWorth(feed: FeedDefinition, value: PriceFeedData, worth: Valuation) {
    value.price * worth(feed.quote) == Pow10(value.decimals) * worth(feed.base)
  }

  ghost predicate LegQuotesWorth(direct: seq<FeedDefinition>, priced: PricedLeg, worth: Valuation) {
    forall feed | feed in direct && feed.id == priced.0.feed :: QuotesWorth(feed, priced.1, worth)
  }

  /** The decimals divided out and multiplied in by the legs so far. */
  function DecimalsOut(legs: seq<PricedLeg>): nat {
    if legs == [] then 0
    else DecimalsOut(legs[..|legs| - 1]) + if legs[|legs| - 1].0.invert then 0 else legs[|legs| - 1].1.decimals
  }

  function DecimalsIn(legs: seq<PricedLeg>): nat {
    if legs == [] then 0
    else DecimalsIn(legs[..|legs| - 1]) + if legs[|legs| - 1].0.invert then legs[|legs| - 1].1.decimals else 0
  }

  /** The products so far, with the decimals they owe, carry `base` to the asset worth `at`. */
  ghost predicate Balanced(n: int, d: int, scaleIn: int, scaleOut: int, at: int, base: int) {
    n * scaleIn * at == d * scaleOut * base
  }

  ghost predicate LegsBalance(totals: Totals, legs: seq<PricedLeg>, at: int, base: int) {
    Balanced(totals.numerator, totals.denominator, Pow10(DecimalsIn(legs)), Pow10(DecimalsOut(legs)), at, base)
  }

  lemma DirectStep(n: int, d: int, scaleIn: int, scaleOut: int, price: int, scale: int,
                   from: int, to: int, base: int, n': int, scaleOut': int)
    requires Balanced(n, d, scaleIn, scaleOut, from, base) && price * to == scale * from
    requires n' == n * price && scaleOut' == scaleOut * scale
    ensures Balanced(n', d, scaleIn, scaleOut', to, base)
  {
    calc {
      (n * price) * scaleIn * to;
      (n * scaleIn) * (price * to);
      (n * scaleIn) * (scale * from);
      (n * scaleIn * from) * scale;
      (d * scaleOut * base) * scale;
      d * (scaleOut * scale) * base;
    }
  }

  lemma InvertedStep(n: int, d: int, scaleIn: int, scaleOut: int, price: int, scale: int,
                     from: int, to: int, base: int, d': int, scaleIn': int)
    requires Balanced(n, d, scaleIn, scaleOut, from, base) && price * from == scale * to
    requires d' == d * price && scaleIn' == scaleIn * scale
    ensures Balanced(n, d', scaleIn', scaleOut, to, base)
  {
    calc {
      n * (scaleIn * scale) * to;
      (n * scaleIn) * (scale * to);
      (n * scaleIn) * (price * from);
      (n * scaleIn * from) * price;
      (d * scaleOut * base) * price;
      (d * price) * scaleOut * base;
    }
  }

  /** Along a route the products telescope to the worths of its ends. */
  lemma {:induction false} RouteTelescopes(decimals: nat, direct: seq<FeedDefinition>, legs: seq<PricedLeg>,
                                           stops: seq<Asset>, worth: Valuation)
    requires |stops| == |legs| + 1 && Accumulate(decimals, legs).Some?
    requires forall i | 0 <= i < |legs| ::
             LegJoins(direct, legs[i].0, stops[i], stops[i + 1]) && LegQuotesWorth(direct, legs[i], worth)
    ensures Accumulate(decimals, legs).value.exponent == decimals + DecimalsIn(legs) - DecimalsOut(legs)
    ensures LegsBalance(Accumulate(decimals, legs).value, legs, worth(stops[|legs|]), worth(stops[0]))
  {
    if legs != [] {
      var last := |legs| - 1;
      RouteTelescopes(decimals, direct, legs[..last], stops[..last + 1], worth);
      LastLegBalances(decimals, direct, legs, stops[last], stops[last + 1], worth, worth(stops[0]));
    }
  }

  lemma LastLegBalances(decimals: nat, direct: seq<FeedDefinition>, legs: seq<PricedLeg>, from: Asset, to: Asset,
                        worth: Valuation, base: int)
    requires legs != [] && Accumulate(decimals, legs).Some?
    requires LegJoins(direct, legs[|legs| - 1].0, from, to) && LegQuotesWorth(direct, legs[|legs| - 1], worth)
    requires LegsBalance(Accumulate(decimals, legs[..|legs| - 1]).value, legs[..|legs| - 1], worth(from), base)
    ensures LegsBalance(Accumulate(decimals, legs).value, legs, worth(to), base)
  {
    var front := legs[..|legs| - 1];
    var before, after := Accumulate(decimals, front).value, Accumulate(decimals, legs).value;
    var (leg, value) := legs[|legs| - 1];
    var feed :| feed in direct && Traverses(feed, leg, from, to);
    assert QuotesWorth(feed, value, worth);
    var scaleIn, scaleOut := Pow10(DecimalsIn(front)), Pow10(DecimalsOut(front));
    if leg.invert {
      Pow10Adds(DecimalsIn(front), value.decimals);
      InvertedStep(before.numerator, before.denominator, scaleIn, scaleOut, value.price, Pow10(value.decimals),
                   worth(from), worth(to), base, after.denominator, Pow10(DecimalsIn(legs)));
    } else {
      Pow10Adds(DecimalsOut(front), value.decimals);
      DirectStep(before.numerator, before.denominator, scaleIn, scaleOut, value.price, Pow10(value.decimals),
                 worth(from), worth(to), base, after.numerator, Pow10(DecimalsOut(legs)));
    }
  }

  /** Scaling settles the owed decimals: what is left is the worth of the pair. */
  lemma ScaledQuotientIsWorth(totals: Totals, decimals: nat, legs: seq<PricedLeg>, base: nat, quote: nat)
    requires totals.exponent == decimals + DecimalsIn(legs) - DecimalsOut(legs)
    requires LegsBalance(totals, legs, quote, base)
    ensures totals.numerator * Pow10(Max(totals.exponent, 0)) * quote
         == Denominator(totals.denominator, totals.exponent) * (Pow10(decimals) * base)
  {
    var n, d, p := totals.numerator, totals.denominator, Pow10(decimals);
    var scaleIn, scaleOut := Pow10(DecimalsIn(legs)), Pow10(DecimalsOut(legs));
    Pow10Adds(decimals, DecimalsIn(legs));
    if totals.exponent >= 0 {
      Pow10Adds(totals.exponent, DecimalsOut(legs));
      ScaleUp(n, d, p, Pow10(totals.exponent), scaleIn, scaleOut, base, quote);
    } else {
      Pow10Adds(-totals.exponent, decimals + DecimalsIn(legs));
      ScaleDown(n, d, p, Pow10(-totals.exponent), scaleIn, scaleOut, base, quote);
    }
  }

  lemma ScaleUp(n: int, d: int, p: int, e: int, scaleIn: int, scaleOut: int, base: int, quote: int)
    requires scaleOut > 0 && Balanced(n, d, scaleIn, scaleOut, quote, base)
    requires e * scaleOut == p * scaleIn
    ensures n * e * quote == d * (p * base)
  {
    assert (n * e * quote) * scaleOut == (n * quote) * (e * scaleOut);
    assert (n * quote) * (p * scaleIn) == p * (n * scaleIn * quote);
    assert p * (d * scaleOut * base) == (d * (p * base)) * scaleOut;
    CancelFactor(n * e * quote, d * (p * base), scaleOut);
  }

  lemma ScaleDown(n: int, d: int, p: int, e: int, scaleIn: int, scaleOut: int, base: int, quote: int)
    requires scaleIn > 0 && Balanced(n, d, scaleIn, scaleOut, quote, base)
    requires scaleOut == e * (p * scaleIn)
    ensures n * 1 * quote == (d * e) * (p * base)
  {
    assert (n * quote) * scaleIn == n * scaleIn * quote;
    assert d * (e * (p * scaleIn)) * base == ((d * e) * (p * base)) * scaleIn;
    CancelFactor(n * quote, (d * e) * (p * base), scaleIn);
  }

  lemma CancelFactor(a: int, b: int, factor: int)
    requires factor > 0 && a * factor == b * factor
    ensures a == b
  {
    if a < b {
      MulMonotone(a + 1, b, factor);
    } else if a > b {
      MulMonotone(b + 1, a, factor);
    }
  }

  /** Equal fractions round alike. */
  lemma EqualFractionsRoundAlike(p: int, n: int, d: int, n': int, d': int)
    requires d > 0 && d' > 0 && n * d' == d * n' && IsNearestEven(p, n, d)
    ensures IsNearestEven(p, n', d')
  {
    OffsetsScale(p, n, d, n', d');
    RatioKept(2 * (p * d - n), d, 2 * (p * d' - n'), d');
  }

  lemma OffsetsScale(p: int, n: int, d: int, n': int, d': int)
    requires n * d' == d * n'
    ensures (2 * (p * d - n)) * d' == (2 * (p * d' - n')) * d
  {
    calc {
      (2 * (p * d - n)) * d';
      2 * (p * d * d' - n * d');
      2 * (p * d * d' - d * n');
      (2 * (p * d' - n')) * d;
    }
  }

  lemma RatioKept(x: int, d: int, x': int, d': int)
    requires d > 0 && d' > 0 && x * d' == x' * d && -d <= x <= d
    ensures -d' <= x' <= d'
    ensures (x' == d' ==> x == d) && (x' == -d' ==> x == -d)
  {
    MulMonotone(-d, x, d');
    MulMonotone(x, d, d');
    if x' > d' {
      MulMonotone(d' + 1, x', d);
    } else if x' < -d' {
      MulMonotone(x', -d' - 1, d);
    } else if x' == d' {
      CancelFactor(x, d, d');
    } else if x' == -d' {
      CancelFactor(x, -d, d');
    }
  }

  /** If the legs quote one positive valuation, the price of any simple route is the rounded worth of the pair. */
  lemma RoutePriceIsPairWorth(direct: seq<FeedDefinition>, pair: FeedDefinition, legs: seq<PricedLeg>,
                              stops: seq<Asset>, worth: Valuation)
    requires Positive(worth)
    requires |stops| == |legs| + 1 && stops[0] == pair.base && stops[|legs|] == pair.quote
    requires forall i | 0 <= i < |legs| ::
             LegJoins(direct, legs[i].0, stops[i], stops[i + 1]) && LegQuotesWorth(direct, legs[i], worth)
    requires ComputeOf(pair, legs).Some?
    ensures IsNearestEven(ComputeOf(pair, legs).value.price, Pow10(pair.decimals) * worth(pair.base), worth(pair.quote))
  {
    var totals := Accumulate(pair.decimals, legs).value;
    RouteTelescopes(pair.decimals, direct, legs, stops, worth);
    ScaledQuotientIsWorth(totals, pair.decimals, legs, worth(pair.base), worth(pair.quote));
    var price := ScaledPriceOf(totals.numerator, totals.denominator, totals.exponent).value;
    var dividend, divisor := totals.numerator * Pow10(Max(totals.exponent, 0)),
        Denominator(totals.denominator, totals.exponent);
    RoundHalfEvenIsNearest(dividend, divisor, price);
    EqualFractionsRoundAlike(price, dividend, divisor, Pow10(pair.decimals) * worth(pair.base), worth(pair.quote));
  }

  /**
   * The legs walk a candidate route of the pair, each at a value that quotes the valuation; other feeds do not
   * matter.
   */
  ghost predicate QuotesRoute(registry: FeedRegistry, pair: FeedDefinition, legs: seq<PricedLeg>, worth: Valuation) {
    && CandidatesOf(registry, pair).Ok? && RouteOf(legs) in CandidatesOf(registry, pair).value
    && forall i | 0 <= i < |legs| :: LegQuotesWorth(DirectFeeds(registry.feeds), legs[i], worth)
  }

  lemma CandidatePriceIsPairWorth(registry: FeedRegistry, pair: FeedDefinition, legs: seq<PricedLeg>, worth: Valuation)
    requires Positive(worth) && QuotesRoute(registry, pair, legs, worth)
    requires ComputeOf(pair, legs).Some?
    ensures ComputeOf(pair, legs).value.price
         == RoundHalfEven(Pow10(pair.decimals) * worth(pair.base), worth(pair.quote))
  {
    var direct := DirectFeeds(registry.feeds);
    CandidatesAreExact(registry, pair, RouteOf(legs));
    var stops :| SimpleRoute(direct, pair.base, pair.quote, RouteOf(legs), stops);
    forall i | 0 <= i < |legs| ensures LegJoins(direct, legs[i].0, stops[i], stops[i + 1]) {
      assert LegJoins(direct, RouteOf(legs)[i], stops[i], stops[i + 1]);
    }
    RoutePriceIsPairWorth(direct, pair, legs, stops, worth);
    RoundHalfEvenIsNearest(Pow10(pair.decimals) * worth(pair.base), worth(pair.quote),
        ComputeOf(pair, legs).value.price);
  }

  /** Any two candidate routes that both yield a price yield the same price: the rounded worth of the pair. */
  lemma RoutesAgree(registry: FeedRegistry, pair: FeedDefinition, a: seq<PricedLeg>, b: seq<PricedLeg>,
                    worth: Valuation)
    requires Positive(worth) && QuotesRoute(registry, pair, a, worth) && QuotesRoute(registry, pair, b, worth)
    requires ComputeOf(pair, a).Some? && ComputeOf(pair, b).Some?
    ensures ComputeOf(pair, a).value.price == ComputeOf(pair, b).value.price
         == RoundHalfEven(Pow10(pair.decimals) * worth(pair.base), worth(pair.quote))
  {
    CandidatePriceIsPairWorth(registry, pair, a, worth);
    CandidatePriceIsPairWorth(registry, pair, b, worth);
  }
}
