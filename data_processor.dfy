/**
 * The commission and stock processor: turns a catalog entry, and the detail
 * record when it has arrived, into the display record, and formats the
 * commission for display.
 */
module DataProcessing {
  import opened Wrappers
  import opened Strings
  import opened Seqs
  import opened Text
  import opened Types

  /** The catalog label that marks a product as unavailable. */
  const OUT_OF_STOCK_LABEL := "out_of_stock"

  /** The one local currency the processor converts to. */
  const LOCAL_CURRENCY := "INR"

  // ---------------------------------------------------------------------
  // Rounding

  /** `Math.round(x * 100) / 100`: two decimals, halves rounded up. */
  function Round2(x: real): (r: real)
    ensures (r * 100.0).Floor as real == r * 100.0
  {
    ((x * 100.0 + 0.5).Floor as real) / 100.0
  }

  /** Rounding moves a value by at most half a cent, and never down by exactly half. */
  lemma Round2Bounds(x: real)
    ensures x - 0.005 < Round2(x) <= x + 0.005
  {
  }

  /** Rounding keeps the sign: a positive result comes from a positive value, a negative from a negative. */
  lemma Round2Sign(x: real)
    ensures Round2(x) > 0.0 ==> x > 0.0
    ensures Round2(x) < 0.0 ==> x < 0.0
    ensures x == 0.0 ==> Round2(x) == 0.0
  {
    Round2Bounds(x);
  }

  // ---------------------------------------------------------------------
  // Per-package commission

  /** `parseInt(pkg.value)` yields a positive number, so dividing by it is defined. */
  predicate HasFaceValue(p: Package) {
    var v := ParseInt(p.value);
    v.Some? && v.value > 0
  }

  function FaceValue(p: Package): (v: int)
    requires HasFaceValue(p)
    ensures v > 0
  {
    ParseInt(p.value).value
  }

  /** Every package of the detail record, if there are any, has a positive face value. */
  predicate PackagesPriced(details: Option<ProductDetails>) {
    details.Some? && details.value.packages.Some? ==>
      forall i :: 0 <= i < |details.value.packages.value| ==> HasFaceValue(details.value.packages.value[i])
  }

  /** The markup of a cost over a positive face value, in percent: `(cost - v) / v * 100`. */
  function Markup(cost: real, v: real): (m: real)
    requires v > 0.0
    ensures m * v == (cost - v) * 100.0
  {
    (cost - v) / v * 100.0
  }

  /** The markup has the sign of `cost - v`. */
  lemma MarkupSign(cost: real, v: real)
    requires v > 0.0
    ensures Markup(cost, v) > 0.0 <==> cost > v
    ensures Markup(cost, v) < 0.0 <==> cost < v
  {
  }

  /**
   * The entry of a package of face value `v` that costs `cost` local units: the
   * markup in percent and the cost, both rounded to two decimals.
   */
  function Entry(v: int, cost: real): (d: CommissionDetail)
    requires v > 0
    ensures d.packageValue == v
    ensures (d.commissionRate * 100.0).Floor as real == d.commissionRate * 100.0
    ensures (d.usdPriceInINR * 100.0).Floor as real == d.usdPriceInINR * 100.0
  {
    CommissionDetail(v, Round2(Markup(cost, v as real)), Round2(cost))
  }

  /** One package's entry: its USD price converted at `k` local units per dollar. */
  function PackageCommission(p: Package, k: real): (d: CommissionDetail)
    requires HasFaceValue(p)
    ensures ParseInt(p.value) == Some(d.packageValue) && d.packageValue > 0
  {
    Entry(FaceValue(p), p.usdPrice * k)
  }

  /**
   * What an entry's numbers mean: the rate is the markup of the cost over the face
   * value to within half a hundredth of a percent, it is positive only for a markup
   * and negative only for a discount, and zero when cost and face value agree; the
   * stored cost is the cost to within half a cent.
   */
  lemma EntryMeaning(v: int, cost: real)
    requires v > 0
    ensures var d := Entry(v, cost);
      && d.packageValue == v
      && Markup(cost, v as real) - 0.005 < d.commissionRate <= Markup(cost, v as real) + 0.005
      && (d.commissionRate > 0.0 ==> cost > v as real)
      && (d.commissionRate < 0.0 ==> cost < v as real)
      && (cost == v as real ==> d.commissionRate == 0.0)
      && cost - 0.005 < d.usdPriceInINR <= cost + 0.005
  {
    Round2Bounds(Markup(cost, v as real));
    Round2Sign(Markup(cost, v as real));
    Round2Bounds(cost);
    MarkupSign(cost, v as real);
    if cost == v as real {
      assert Markup(cost, v as real) == 0.0;
    }
  }

  predicate AllPriced(pkgs: seq<Package>) {
    forall i :: 0 <= i < |pkgs| ==> HasFaceValue(pkgs[i])
  }

  /** The entry of one package at rate `k`, as a function of the package. */
  function EntryAt(k: real): Package --> CommissionDetail {
    (p: Package) requires HasFaceValue(p) => PackageCommission(p, k)
  }

  /** The entries the `for` loop pushes, one per package, in package order. */
  function PackageCommissions(pkgs: seq<Package>, k: real): seq<CommissionDetail>
    requires AllPriced(pkgs)
  {
    Map(pkgs, EntryAt(k))
  }

  lemma PackageCommissionsSpec(pkgs: seq<Package>, k: real)
    requires AllPriced(pkgs)
    ensures |PackageCommissions(pkgs, k)| == |pkgs|
    ensures forall i :: 0 <= i < |pkgs| ==> PackageCommissions(pkgs, k)[i] == PackageCommission(pkgs[i], k)
  {
    MapSpec(pkgs, EntryAt(k));
  }

  /** `commissions.map(c => c.commissionRate)`. */
  function Rates(ds: seq<CommissionDetail>): (r: seq<real>)
    ensures |r| == |ds| && forall i :: 0 <= i < |ds| ==> r[i] == ds[i].commissionRate
  {
    if |ds| == 0 then [] else Rates(ds[..|ds| - 1]) + [ds[|ds| - 1].commissionRate]
  }

  /** The collapse rule: a single distinct rate becomes the string `${rate}%`, otherwise the list stays. */
  function Collapse(ds: seq<CommissionDetail>): (c: Commission)
    requires |ds| > 0
    ensures !c.NA?
    ensures c.Uniform? ==> c.rate == ds[0].commissionRate
    ensures c.PerPackage? ==> c.details == ds
  {
    if |Dedup(Rates(ds))| == 1 then Uniform(ds[0].commissionRate) else PerPackage(ds)
  }

  /** The packages of a detail record, or none when the record or its list is missing. */
  function PackagesOf(details: Option<ProductDetails>): seq<Package> {
    if details.Some? && details.value.packages.Some? then details.value.packages.value else []
  }

  /** `calculateCommission`: 'N/A' without packages, otherwise the collapsed per-package entries. */
  function CommissionOf(details: Option<ProductDetails>, k: real): (c: Commission)
    requires PackagesPriced(details)
    ensures c.NA? <==> |PackagesOf(details)| == 0
    ensures c.PerPackage? ==> |c.details| == |PackagesOf(details)|
  {
    var pkgs := PackagesOf(details);
    if |pkgs| == 0 then NA
    else
      PackageCommissionsSpec(pkgs, k);
      Collapse(PackageCommissions(pkgs, k))
  }

  /** The commission is 'N/A' exactly when there is no detail record, no package list or an empty one. */
  lemma CommissionNAIff(details: Option<ProductDetails>, k: real)
    requires PackagesPriced(details)
    ensures CommissionOf(details, k) == NA <==>
      details.None? || details.value.packages.None? || |details.value.packages.value| == 0
  {
  }

  /**
   * The collapse rule on its own: a single percentage exactly when all rates agree,
   * and then the first rate; otherwise the list unchanged, with two distinct rates in it.
   */
  lemma CollapseCases(ds: seq<CommissionDetail>)
    requires |ds| > 0
    ensures Collapse(ds).Uniform? <==> forall i :: 0 <= i < |ds| ==> ds[i].commissionRate == ds[0].commissionRate
    ensures Collapse(ds).Uniform? ==> Collapse(ds).rate == ds[0].commissionRate
    ensures Collapse(ds).PerPackage? ==>
      Collapse(ds).details == ds && exists j :: 0 < j < |ds| && ds[j].commissionRate != ds[0].commissionRate
  {
    var rs := Rates(ds);
    DedupSingleton(rs);
    if !Collapse(ds).Uniform? {
      var j :| 0 <= j < |rs| && rs[j] != rs[0];
      assert j != 0;
    }
  }

  /**
   * The commission is a single percentage exactly when there are packages and all
   * their rounded rates agree; the percentage is then the first package's rate.
   */
  lemma CommissionUniformIff(details: Option<ProductDetails>, k: real)
    requires PackagesPriced(details)
    ensures var pkgs := PackagesOf(details);
      CommissionOf(details, k).Uniform? <==>
        |pkgs| > 0 && forall i :: 0 <= i < |pkgs| ==>
          PackageCommission(pkgs[i], k).commissionRate == PackageCommission(pkgs[0], k).commissionRate
    ensures CommissionOf(details, k).Uniform? ==>
      CommissionOf(details, k).rate == PackageCommission(PackagesOf(details)[0], k).commissionRate
  {
    var pkgs := PackagesOf(details);
    if |pkgs| > 0 {
      PackageCommissionsSpec(pkgs, k);
      CollapseCases(PackageCommissions(pkgs, k));
    }
  }

  /**
   * Otherwise the commission is the list itself: one entry per package, in package
   * order, with at least two distinct rates among them.
   */
  lemma CommissionPerPackage(details: Option<ProductDetails>, k: real)
    requires PackagesPriced(details)
    ensures var c := CommissionOf(details, k);
      var pkgs := PackagesOf(details);
      c.PerPackage? ==>
        && |c.details| == |pkgs| >= 2
        && (forall i :: 0 <= i < |pkgs| ==> c.details[i] == PackageCommission(pkgs[i], k))
        && exists j :: 0 < j < |pkgs| && c.details[j].commissionRate != c.details[0].commissionRate
  {
    var pkgs := PackagesOf(details);
    if |pkgs| > 0 {
      PackageCommissionsSpec(pkgs, k);
      CollapseCases(PackageCommissions(pkgs, k));
    }
  }

  // ---------------------------------------------------------------------
  // Stock

  /** 'Out of Stock' when the catalog label says so, or else when the detail record says so. */
  function StockStatusOf(card: GiftCard, details: Option<ProductDetails>): (s: StockStatus)
    ensures s == OutOfStock <==>
      card.stockLabel == OUT_OF_STOCK_LABEL || (details.Some? && details.value.outOfStock)
  {
    if card.stockLabel == OUT_OF_STOCK_LABEL then OutOfStock
    else if details.Some? && details.value.outOfStock then OutOfStock
    else InStock
  }

  /** The label wins regardless of the detail record; without a record and without the label the card is in stock. */
  lemma StockStatusCases(card: GiftCard, details: Option<ProductDetails>)
    ensures card.stockLabel == OUT_OF_STOCK_LABEL ==> StockStatusOf(card, details) == OutOfStock
    ensures card.stockLabel != OUT_OF_STOCK_LABEL && details.None? ==> StockStatusOf(card, details) == InStock
  {
  }

  // ---------------------------------------------------------------------
  // The display record

  /** `processGiftCard`, as a value: the catalog fields copied, the rate, the commission and the stock status. */
  function Processed(card: GiftCard, details: Option<ProductDetails>, k: real): (r: ProcessedGiftCard)
    requires PackagesPriced(details)
    ensures r.commission.NA? <==> |PackagesOf(details)| == 0
    ensures r.stockStatus == OutOfStock <==>
      card.stockLabel == OUT_OF_STOCK_LABEL || (details.Some? && details.value.outOfStock)
  {
    ProcessedGiftCard(
      card.name, card.priceRange, k, CommissionOf(details, k), StockStatusOf(card, details),
      card.ratingValue, card.reviewCount, card.categories, card.iconPreview, card.logoPreview)
  }

  /**
   * The catalog entry's descriptive fields pass through unchanged, and two cards
   * processed by one processor carry the same rate, whatever their details.
   */
  lemma ProcessedCopies(card: GiftCard, d1: Option<ProductDetails>, other: GiftCard, d2: Option<ProductDetails>, k: real)
    requires PackagesPriced(d1) && PackagesPriced(d2)
    ensures var r := Processed(card, d1, k);
      && r.productName == card.name && r.priceRange == card.priceRange
      && r.ratingValue == card.ratingValue && r.reviewCount == card.reviewCount
      && r.categories == card.categories
      && r.iconPreview == card.iconPreview && r.logoPreview == card.logoPreview
    ensures Processed(card, d1, k).usdRate == Processed(other, d2, k).usdRate == k
  {
  }

  /** The detail record changes only the commission and the stock status. */
  lemma ProcessedWithoutDetails(card: GiftCard, details: Option<ProductDetails>, k: real)
    requires PackagesPriced(details)
    ensures var basic := Processed(card, None, k);
      Processed(card, details, k) == basic.(commission := CommissionOf(details, k), stockStatus := StockStatusOf(card, details))
    ensures Processed(card, None, k).commission == NA
  {
  }

  class DataProcessor {
    const fxRates: FxRates
    /** Local units per US dollar. */
    const inrToUsdRate: real

    constructor (fx: FxRates)
      requires LOCAL_CURRENCY in fx && fx[LOCAL_CURRENCY].usd > 0.0
      ensures fxRates == fx && inrToUsdRate == 1.0 / fx[LOCAL_CURRENCY].usd
      ensures inrToUsdRate > 0.0
    {
      fxRates := fx;
      inrToUsdRate := 1.0 / fx[LOCAL_CURRENCY].usd;
    }

    /** `calculateCommission`: pushes one entry per package, then applies the collapse rule. */
    method CalculateCommission(details: Option<ProductDetails>) returns (c: Commission)
      requires PackagesPriced(details)
      ensures c == CommissionOf(details, inrToUsdRate)
    {
      if details.None? || details.value.packages.None? || |details.value.packages.value| == 0 {
        return NA;
      }
      var pkgs := details.value.packages.value;
      var commissions: seq<CommissionDetail> := [];
      for i := 0 to |pkgs|
        invariant commissions == PackageCommissions(pkgs[..i], inrToUsdRate)
      {
        commissions := commissions + [PackageCommission(pkgs[i], inrToUsdRate)];
        assert pkgs[..i + 1][..i] == pkgs[..i];
      }
      assert pkgs[..|pkgs|] == pkgs;
      var uniqueRates := Dedup(Rates(commissions));
      if |uniqueRates| == 1 {
        return Uniform(commissions[0].commissionRate);
      }
      return PerPackage(commissions);
    }

    /** `processGiftCard`. */
    method ProcessGiftCard(card: GiftCard, details: Option<ProductDetails>) returns (r: ProcessedGiftCard)
      requires PackagesPriced(details)
      ensures r == Processed(card, details, inrToUsdRate)
    {
      var usdRate := inrToUsdRate;
      var commission := CalculateCommission(details);
      var stockStatus := StockStatusOf(card, details);
      r := ProcessedGiftCard(
        card.name, card.priceRange, usdRate, commission, stockStatus,
        card.ratingValue, card.reviewCount, card.categories, card.iconPreview, card.logoPreview);
    }
  }

  // ---------------------------------------------------------------------
  // Display text

  /** The text of the two string forms of the commission. */
  function CommissionString(c: Commission): Text
    requires !c.PerPackage?
  {
    match c
    case NA => [Lit("N/A")]
    case Uniform(r) => [Num(r), Lit("%")]
  }

  function EntryText(d: CommissionDetail): Text {
    [Num(d.packageValue as real), Lit("₹: "), Num(d.commissionRate), Lit("%")]
  }

  function EntryTexts(ds: seq<CommissionDetail>): (r: seq<Text>)
    ensures |r| == |ds| && forall i :: 0 <= i < |ds| ==> r[i] == EntryText(ds[i])
  {
    seq(|ds|, i requires 0 <= i < |ds| => EntryText(ds[i]))
  }

  /** `formatCommission`. */
  function FormatCommission(c: Commission): Text {
    match c
    case NA => CommissionString(c)
    case Uniform(_) => CommissionString(c)
    case PerPackage(ds) =>
      if |ds| == 0 then [Lit("N/A")]
      else if |ds| == 1 then [Num(ds[0].commissionRate), Lit("%")]
      else Join(EntryTexts(ds), ", ")
  }

  /** The face values and rates of the entries, in entry order. */
  function ValuesAndRates(ds: seq<CommissionDetail>): seq<real> {
    if |ds| == 0 then [] else [ds[0].packageValue as real, ds[0].commissionRate] + ValuesAndRates(ds[1..])
  }

  /** An entry's text shows its face value, then its rate. */
  lemma EntryTextNumbers(d: CommissionDetail)
    ensures Numbers(EntryText(d)) == [d.packageValue as real, d.commissionRate]
  {
    var t := EntryText(d);
    assert t[1..][1..][1..][1..] == [];
    assert Numbers(t[1..][1..][1..]) == [];
    assert Numbers(t[1..][1..]) == [d.commissionRate];
  }

  lemma {:induction false} EntryTextsNumbers(ds: seq<CommissionDetail>)
    ensures FlattenNumbers(EntryTexts(ds)) == ValuesAndRates(ds)
  {
    if |ds| > 0 {
      EntryTextsNumbers(ds[1..]);
      EntryTextNumbers(ds[0]);
      assert EntryTexts(ds)[1..] == EntryTexts(ds[1..]);
      assert EntryTexts(ds)[0] == EntryText(ds[0]);
    }
  }

  /**
   * A string is shown as it is; an empty list as 'N/A'; a one-entry list like the
   * string of its rate.
   */
  lemma FormatCommissionShort(c: Commission, d: CommissionDetail)
    ensures !c.PerPackage? ==> FormatCommission(c) == CommissionString(c)
    ensures FormatCommission(PerPackage([])) == FormatCommission(NA)
    ensures FormatCommission(PerPackage([d])) == FormatCommission(Uniform(d.commissionRate))
  {
  }

  /**
   * A list of two or more entries is shown as one `${value}₹: ${rate}%` item per
   * entry, separated by ", ", in entry order: splitting the text at the separators
   * gives back the items, and its numbers read value, rate, value, rate, ...
   */
  lemma FormatCommissionList(ds: seq<CommissionDetail>)
    requires |ds| >= 2
    ensures Split(FormatCommission(PerPackage(ds)), ", ") == EntryTexts(ds)
    ensures Numbers(FormatCommission(PerPackage(ds))) == ValuesAndRates(ds)
  {
    SplitJoin(EntryTexts(ds), ", ");
    NumbersJoin(EntryTexts(ds), ", ");
    EntryTextsNumbers(ds);
  }

  function TooltipLine(d: CommissionDetail): Text {
    [Num(d.packageValue as real), Lit("₹ package: "), Num(d.usdPriceInINR), Lit("₹ ("),
     Num(d.commissionRate), Lit("% commission)")]
  }

  function TooltipLines(ds: seq<CommissionDetail>): (r: seq<Text>)
    ensures |r| == |ds| && forall i :: 0 <= i < |ds| ==> r[i] == TooltipLine(ds[i])
  {
    seq(|ds|, i requires 0 <= i < |ds| => TooltipLine(ds[i]))
  }

  /** `getCommissionTooltip`. */
  function CommissionTooltip(c: Commission): Text {
    match c
    case NA => CommissionString(c)
    case Uniform(_) => CommissionString(c)
    case PerPackage(ds) =>
      if |ds| == 0 then [Lit("No package data available")] else Join(TooltipLines(ds), "\n")
  }

  /**
   * The tooltip shows a string as it is, an empty list as 'No package data
   * available', and otherwise exactly one line per entry, in entry order.
   */
  lemma CommissionTooltipLines(c: Commission)
    ensures !c.PerPackage? ==> CommissionTooltip(c) == CommissionString(c)
    ensures c == PerPackage([]) ==> CommissionTooltip(c) == [Lit("No package data available")]
    ensures c.PerPackage? && |c.details| > 0 ==>
      Split(CommissionTooltip(c), "\n") == TooltipLines(c.details) && |Split(CommissionTooltip(c), "\n")| == |c.details|
  {
    if c.PerPackage? && |c.details| > 0 {
      SplitJoin(TooltipLines(c.details), "\n");
    }
  }

  // ---------------------------------------------------------------------
  // Worked examples

  function ExamplePackage(value: string, usdPrice: real): Package {
    Package(value, usdPrice, 0.0, 0.0, 0.0)
  }

  /** A value already in whole cents is left as it is by rounding. */
  lemma Round2Whole(x: real, cents: int)
    requires x * 100.0 == cents as real
    ensures Round2(x) == x
  {
    assert x * 100.0 + 0.5 == cents as real + 0.5;
    assert (cents as real + 0.5).Floor == cents;
  }

  /** A package whose value is the numeral of a positive number has that face value. */
  lemma FaceValueOfNumeral(p: Package, n: nat)
    requires p.value == Decimal(n) && n > 0
    ensures HasFaceValue(p) && FaceValue(p) == n
  {
    ParseIntDecimal(n, "");
    assert Decimal(n) + "" == Decimal(n);
  }

  lemma ExampleNumerals()
    ensures Decimal(100) == "100" && Decimal(500) == "500"
  {
    assert Decimal(1) == "1" && Decimal(5) == "5";
    assert Decimal(10) == Decimal(1) + "0" && Decimal(50) == Decimal(5) + "0";
    assert Decimal(100) == Decimal(10) + "0" && Decimal(500) == Decimal(50) + "0";
  }

  /** The package "100" priced at 101.20 rupees' worth of dollars carries 1.2%. */
  lemma ExampleEntryMarkup()
    ensures HasFaceValue(ExamplePackage("100", 101.2 / 88.3))
    ensures PackageCommission(ExamplePackage("100", 101.2 / 88.3), 88.3) == CommissionDetail(100, 1.2, 101.2)
  {
    ExampleNumerals();
    FaceValueOfNumeral(ExamplePackage("100", 101.2 / 88.3), 100);
    var cost := 101.2 / 88.3 * 88.3;
    assert cost == 101.2;
    assert Markup(cost, 100.0) == 1.2;
    Round2Whole(1.2, 120);
    Round2Whole(101.2, 10120);
  }

  /** The package "500" priced at exactly 500 rupees' worth of dollars carries 0%. */
  lemma ExampleEntryFlat()
    ensures HasFaceValue(ExamplePackage("500", 500.0 / 88.3))
    ensures PackageCommission(ExamplePackage("500", 500.0 / 88.3), 88.3) == CommissionDetail(500, 0.0, 500.0)
  {
    ExampleNumerals();
    FaceValueOfNumeral(ExamplePackage("500", 500.0 / 88.3), 500);
    var cost := 500.0 / 88.3 * 88.3;
    assert cost == 500.0;
    assert Markup(cost, 500.0) == 0.0;
    Round2Whole(0.0, 0);
    Round2Whole(500.0, 50000);
  }
}
