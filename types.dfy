/** The records exchanged between the API layer, the processor and the views. */
module Types {
  import opened Wrappers

  /** A catalog entry as the product listing returns it. */
  datatype GiftCard = GiftCard(
    id: string,
    name: string,
    baseName: string,
    priceRange: string,
    ratingValue: real,
    reviewCount: int,
    currency: string,
    countryCode: string,
    stockLabel: string,  // the `label` field
    categories: seq<string>,
    iconPreview: Option<string>,
    logoPreview: Option<string>)

  /** One denomination of a product; `value` is the face value as text. */
  datatype Package = Package(value: string, usdPrice: real, eurPrice: real, amount: real, eurValue: real)

  /**
   * The per-product detail record. `packages` is optional because the processor
   * checks for its absence.
   */
  datatype ProductDetails = ProductDetails(
    id: string,
    name: string,
    baseName: string,
    priceRange: string,
    ratingValue: real,
    reviewCount: int,
    currency: string,
    countryCode: string,
    stockLabel: string,  // the `label` field
    categories: seq<string>,
    packages: Option<seq<Package>>,
    outOfStock: bool,
    iconPreview: Option<string>,
    logoPreview: Option<string>)

  /** The exchange multipliers of one currency. */
  datatype FxRate = FxRate(usd: real, eur: real, btc: real)

  /** The rate table, keyed by currency code. */
  type FxRates = map<string, FxRate>

  datatype CommissionDetail = CommissionDetail(packageValue: int, commissionRate: real, usdPriceInINR: real)

  /**
   * The `string | CommissionDetail[]` commission field: `NA` is the string 'N/A',
   * `Uniform(r)` is the string `${r}%`, `PerPackage(ds)` is the array `ds`.
   */
  datatype Commission = NA | Uniform(rate: real) | PerPackage(details: seq<CommissionDetail>)

  datatype StockStatus = InStock | OutOfStock

  /** The display record built by the processor. */
  datatype ProcessedGiftCard = ProcessedGiftCard(
    productName: string,
    priceRange: string,
    usdRate: real,
    commission: Commission,
    stockStatus: StockStatus,
    ratingValue: real,
    reviewCount: int,
    categories: seq<string>,
    iconPreview: Option<string>,
    logoPreview: Option<string>)

  /** A display record with the favourite flag the application adds to it. */
  datatype Card = Card(record: ProcessedGiftCard, isFavorite: bool)
}
