# Bitrefill India gift-card commission tracker — a Dafny model

The application lists the Indian-rupee gift cards sold by Bitrefill. For each card it
shows the commission Bitrefill charges over the voucher's face value: a package's US-dollar
price is converted to rupees, and the commission is compared with the package's face
value. The user can favourite cards. Favourites are pinned to the top of a table that can
be searched, filtered by category and stock, and sorted.

This project models the application's core in Dafny:

- **The processor** (`data_processor.dfy`). A class whose conversion factor is fixed when
  it is built. It can:
  - compute a card's commission. This is 'N/A', one percentage, or a per-package list,
    where each rate and cost is rounded to two decimals.
  - decide its stock status.
  - build the display record.
  - format a commission for the badge and for the tooltip.
- **The brand-logo resolver** (`brand_logos.dfy`). A table of 25 brand domains and an
  exact lookup. When the lookup misses, the resolver falls back to a case-insensitive
  substring search.
- **The API layer** (`api.dfy`).
  - The response-error interceptor.
  - The two proxy strategies and their unwrap steps.
  - The fallback loop across the strategies.
  - The three endpoints.
- **The table component** (`gift_card_table.dfy`).
  - The category list, the statistics panel, the search/category/stock filter and the
    sort comparator.
  - The sort itself: an in-place sort on an array in `sorting.dfy`.
  - The sort-header state, the price-breakdown sort and the commission colour.
- **The application state** (`app.dfy`).
  - The favourites list and its toggle.
  - The effect that re-derives every card's favourite flag.
  - A refresh, in which the listing and rates are fetched first and the details of each
    card arrive afterwards in any order, with favourite clicks in between.

Shared pieces:

- `strings.dfy`: ASCII lower-casing, `includes`, JavaScript's `<` on strings (which
  compares UTF-16 code units, so a character above U+FFFF sorts by its surrogate pair),
  and `parseInt`.
- `seqs.dfy`: `filter`, `flatMap` and order-keeping deduplication.
- `text.dfy`: text with numbers left abstract, and `join`/`split`.
- `types.dfy`: the records.
- `wrappers.dfy`: `Option` and `Result`.

The network, the clock and `JSON.parse` are parameters:

- a request's outcome is an input, one per proxy strategy;
- the detail records and the order in which they arrive are inputs;
- `now` is an input;
- `JSON.parse` is a function argument.

Three facts of the code that shape the model:

- No code sets a deal score, yet the table sorts by a "Value Score" column and shows a
  "Deal Score" label for it (src/components/GiftCardTable.tsx:302-303, 344, 394-395).
  Every record's `bestDealScore` is undefined and reads as 0. Sorting by that column
  therefore leaves favourites first and everything else in listing order
  (`DefaultOrder`), and the "best deal" is the first in-stock card (`StatsBestDeal`).
- `calculateCommission` divides by `parseInt(pkg.value)` with no guard
  (src/utils/dataProcessor.ts:44, 51). The model requires every package value to parse
  to a positive integer.
- Rupee costs are `usdPrice` times the conversion factor (src/utils/dataProcessor.ts:48).
  Only INR is handled.

The doc comment of `getHighResLogo` gives "Zomato India" matching "Zomato" as an example.
The fuzzy search checks whether a table key occurs inside the product name, and the table
holds only the key "Zomato India". So the name "Zomato" resolves to nothing
(`ZomatoAlone`), while "Zomato India Extra Pack" resolves to the zomato.com logo
(`ZomatoExtraPack`).

## Model

| member | source | states |
|---|---|---|
| DataProcessing.DataProcessor.constructor | src/utils/dataProcessor.ts:7-11 | keeps the rate table and fixes the conversion factor at 1 / INR.USD, which is positive |
| DataProcessing.Round2 | src/utils/dataProcessor.ts:55-56 | the rounded value is a whole number of hundredths |
| DataProcessing.Round2Bounds | src/utils/dataProcessor.ts:55-56 | `Math.round(x * 100) / 100` differs from x by at most half a hundredth, and by exactly half only upwards |
| DataProcessing.Round2Sign | src/utils/dataProcessor.ts:55-56 | a positive rounded value comes from a positive value, a negative from a negative, and 0 stays 0 |
| DataProcessing.Markup | src/utils/dataProcessor.ts:51 | the markup m of a cost over face value v satisfies m · v = (cost − v) · 100 |
| DataProcessing.MarkupSign | src/utils/dataProcessor.ts:51 | `(cost - v) / v * 100` is positive exactly when the cost exceeds the face value and negative exactly when it is below it |
| DataProcessing.Entry | src/utils/dataProcessor.ts:43-57 | an entry keeps the package's face value, and its rate and rupee cost are whole hundredths |
| DataProcessing.PackageCommission | src/utils/dataProcessor.ts:43-57 | a package's entry carries the positive face value that `parseInt` reads from the package's value |
| DataProcessing.EntryMeaning | src/utils/dataProcessor.ts:43-57 | an entry keeps the face value; its rate is the markup to within 0.005, positive only for a markup, negative only for a discount, 0 when cost equals value; its cost is the rupee cost to within half a paisa |
| DataProcessing.PackageCommissionsSpec | src/utils/dataProcessor.ts:43-58 | one entry per package, in package order |
| DataProcessing.Rates | src/utils/dataProcessor.ts:61 | the rates of the entries, one per entry, in order |
| DataProcessing.Collapse | src/utils/dataProcessor.ts:60-67 | the collapse never gives 'N/A'; a single percentage is the first rate, and a list is the entries unchanged |
| DataProcessing.CommissionOf | src/utils/dataProcessor.ts:36-68 | the commission is 'N/A' exactly when there are no packages, and a list has one entry per package |
| DataProcessing.CommissionNAIff | src/utils/dataProcessor.ts:37-39 | the commission is 'N/A' exactly when there is no detail record, no package list, or an empty one |
| DataProcessing.CollapseCases | src/utils/dataProcessor.ts:60-67 | a list collapses to one percentage exactly when all its rates are equal, and that percentage is the first rate; otherwise the list is returned unchanged and holds two distinct rates |
| DataProcessing.CommissionUniformIff | src/utils/dataProcessor.ts:60-64 | the commission is one percentage exactly when there are packages and all their rounded rates agree; it is then the first package's rate |
| DataProcessing.CommissionPerPackage | src/utils/dataProcessor.ts:66-67 | a list commission has one entry per package in order, at least two entries, and two distinct rates |
| DataProcessing.DataProcessor.CalculateCommission | src/utils/dataProcessor.ts:36-68 | the loop over the packages yields the commission characterised by the three lemmas above, at the processor's factor |
| DataProcessing.StockStatusOf | src/utils/dataProcessor.ts:70-82 | 'Out of Stock' exactly when the catalog label is `out_of_stock` or the detail record says it is out of stock |
| DataProcessing.StockStatusCases | src/utils/dataProcessor.ts:70-82 | the label alone decides "out"; without a detail record an unlabelled card is in stock |
| DataProcessing.Processed | src/utils/dataProcessor.ts:13-30 | the record's commission is 'N/A' exactly when there are no packages, and it is out of stock exactly under the label-or-detail test |
| DataProcessing.ProcessedCopies | src/utils/dataProcessor.ts:13-30 | the record copies the card's name, price range, rating, review count, categories and images, and carries the same conversion factor for every card |
| DataProcessing.ProcessedWithoutDetails | src/utils/dataProcessor.ts:13-30 | the record built with a detail record differs from the one built without it only in commission and stock status; without one the commission is 'N/A' |
| DataProcessing.DataProcessor.ProcessGiftCard | src/utils/dataProcessor.ts:13-30 | the method builds exactly the display record those lemmas describe |
| DataProcessing.EntryTextNumbers | src/utils/dataProcessor.ts:98 | an item shows the entry's face value, then its rate |
| DataProcessing.EntryTextsNumbers | src/utils/dataProcessor.ts:98 | the items' numbers read value, rate, value, rate, … in entry order |
| DataProcessing.FormatCommissionShort | src/utils/dataProcessor.ts:84-95 | a string commission is shown as it is; an empty list as 'N/A'; a one-entry list as its rate followed by '%' |
| DataProcessing.FormatCommissionList | src/utils/dataProcessor.ts:97-98 | for two or more entries, splitting the badge text at ", " gives back each entry's item, and its numbers are the face values and rates in order |
| DataProcessing.FormatCommission | src/utils/dataProcessor.ts:84-99 | the badge text of a commission; its cases are stated by FormatCommissionShort and FormatCommissionList |
| DataProcessing.CommissionTooltipLines | src/utils/dataProcessor.ts:101-112 | a string is shown as it is; an empty list says 'No package data available'; otherwise the text splits at newlines into exactly one line per entry |
| DataProcessing.CommissionTooltip | src/utils/dataProcessor.ts:101-113 | the tooltip text of a commission; its cases are stated by CommissionTooltipLines |
| DataProcessing.Round2Whole | src/utils/dataProcessor.ts:55-56 | a value already in whole hundredths is not changed by rounding |
| DataProcessing.FaceValueOfNumeral | src/utils/dataProcessor.ts:44 | a package whose value is a decimal numeral has that number as its face value |
| DataProcessing.ExampleEntryMarkup | src/utils/dataProcessor.ts:43-57 | a ₹100 voucher costing ₹101.2 gets rate 1.2 and cost 101.2 |
| DataProcessing.ExampleEntryFlat | src/utils/dataProcessor.ts:43-57 | a ₹500 voucher costing exactly ₹500 gets rate 0 |
| Text.SplitJoin | src/utils/dataProcessor.ts:98 | splitting a join at a separator that no part contains recovers the parts |
| Text.NumbersJoin | src/utils/dataProcessor.ts:98 | the numbers of a join are the parts' numbers in order |
| Strings.ParseIntDecimal | src/utils/dataProcessor.ts:44 | `parseInt` of a decimal numeral followed by anything that does not start with a digit is that numeral's value |
| Strings.ParseInt | src/utils/dataProcessor.ts:44 | `parseInt` without a radix: skip leading white space, read an optional sign, then the leading decimal digits, or hex digits after 0x/0X; `None` for NaN; `ParseIntDecimal` states the read-back |
| BrandLogos.LogoUrl | src/utils/brandLogos.ts:58-60 | the logo address is never empty |
| BrandLogos.LogoUrlInjective | src/utils/brandLogos.ts:58-60 | different domains give different logo addresses |
| BrandLogos.Lookup | src/utils/brandLogos.ts:45 | the exact lookup misses exactly when no key equals the name; a hit is an entry with that key |
| BrandLogos.FuzzyFindSpec | src/utils/brandLogos.ts:48-53 | the fuzzy search finds nothing exactly when no lower-cased key occurs in the lower-cased name; otherwise it finds the first such entry in table order |
| BrandLogos.FuzzyFindFirst | src/utils/brandLogos.ts:48-53 | the first matching entry's domain is the one returned |
| BrandLogos.ResolveAsWritten | src/utils/brandLogos.ts:43-56 | the resolver with the exact lookup as written: own keys first, then members inherited from `Object.prototype`, then the fuzzy search |
| BrandLogos.GetHighResLogo | src/utils/brandLogos.ts:43-56 | for a brand name or a name that is not inherited it is the own-key resolver; an inherited name that is not a brand gives a logo built from the inherited member |
| BrandLogos.ResolveExact | src/utils/brandLogos.ts:44-46 | in a table of distinct keys and non-empty domains, a key resolves to its own domain's logo |
| BrandLogos.ResolveFuzzy | src/utils/brandLogos.ts:48-55 | a name that is not a key resolves through the first matching key, or to "" when none matches |
| BrandLogos.ResolveEmptyIff | src/utils/brandLogos.ts:43-56 | the result is "" exactly when no key occurs in the name, ignoring case |
| BrandLogos.ResolveFromTable | src/utils/brandLogos.ts:43-56 | a non-empty result is the logo of a domain in the table |
| BrandLogos.ResolveShortName | src/utils/brandLogos.ts:48-55 | a name shorter than every key resolves to "" |
| BrandLogos.KeysDistinct | src/utils/brandLogos.ts:8-35 | the 25 brand names are distinct |
| BrandLogos.DomainsNonEmpty | src/utils/brandLogos.ts:8-35 | every domain in the table is non-empty |
| BrandLogos.KeysAtLeastTen | src/utils/brandLogos.ts:8-35 | every brand name has at least ten characters |
| BrandLogos.ExactBrandLogo | src/utils/brandLogos.ts:43-46 | each listed brand name resolves to its own domain's logo |
| BrandLogos.ZomatoAlone | src/utils/brandLogos.ts:39-55 | "Zomato" alone resolves to "", because the search only looks for keys inside the name |
| BrandLogos.InheritedNamesStartLower | src/utils/brandLogos.ts:45 | every name inherited from `Object.prototype` starts with a lower-case letter or '_', so no capitalised name reaches the inherited path |
| BrandLogos.ZomatoIndiaSuffixed | src/utils/brandLogos.ts:39-55 | "Zomato India" followed by more text made of the letters of "zomato india extra pack" is no brand, contains "Zomato India" and no earlier brand, and resolves to the zomato.com logo |
| BrandLogos.ZomatoExtraPack | src/utils/brandLogos.ts:39-55 | "Zomato India Extra Pack" resolves to the zomato.com logo |
| BrandLogos.ResolveAsWrittenAgrees | src/utils/brandLogos.ts:45-46 | for any name that is not an `Object.prototype` member, the lookup as written agrees with the own-key lookup |
| BrandLogos.ResolveAsWrittenInherited | src/utils/brandLogos.ts:45-46 | as written, a name that is not a key but is an inherited member resolves to a "logo" built from that member's string form |
| BrandLogos.ToStringInherited | src/utils/brandLogos.ts:45-46 | `toString` is inherited, and it prints as its native function text |
| BrandLogos.ToStringAsWritten | src/utils/brandLogos.ts:45-46 | as written, "toString" yields a favicon address for a function's source text; the own-key resolver returns "" |
| Api.Intercept | src/services/api.ts:29-40 | a network failure becomes the connection message; otherwise a status of 400 or more becomes "API error: status text"; any other error is passed on unchanged |
| Api.ApiErrorStatusReadBack | src/services/api.ts:36 | the status can be read back from an API error message with `parseInt` |
| Api.InterceptDistinguishesStatus | src/services/api.ts:35-37 | two error responses with the same message have the same status |
| Api.Wrap | src/services/api.ts:9-21 | the proxy address of each strategy; WrapInjective states that no two coincide |
| Api.WrapInjective | src/services/api.ts:9-21 | different strategies or targets never share a proxy address |
| Api.Unwrap | src/services/api.ts:12-19 | the first strategy passes the body through; the second yields the parsed `contents` string, a parse failure, or 'allorigins returned no contents' |
| Api.Attempt | src/services/api.ts:50-52 | one strategy: a request error passes through the interceptor, a response through the strategy's unwrap; FetchViaProxy states the loop over it |
| Api.FetchViaProxy | src/services/api.ts:46-60 | strategies are tried in order; the first success is returned and no later strategy is tried; when all fail the last error is thrown, and the generic message only when there was no strategy |
| Api.GetGiftCards | src/services/api.ts:63-68 | a failure is passed on; a response without products gives none; otherwise exactly the INR products, each as often as in the response, as a subsequence of it |
| Api.GetGiftCardsAllInr | src/services/api.ts:67 | a listing that is all INR comes back whole |
| Api.GetProductDetails | src/services/api.ts:70-77 | a failed fetch becomes `null`; a successful one is returned as fetched |
| Api.GetFxRates | src/services/api.ts:79-81 | the rate fetch's result, failure included, is passed on unchanged |
| GiftCardTable.Categories | src/components/GiftCardTable.tsx:62-65 | the list starts with 'all' |
| GiftCardTable.CategoriesSpec | src/components/GiftCardTable.tsx:62-65 | after 'all' come exactly the cards' categories, each once, in first-appearance order |
| Seqs.FlattenMembers | src/components/GiftCardTable.tsx:63 | `flatMap` holds exactly the elements of the inner lists |
| Seqs.DedupSpec | src/components/GiftCardTable.tsx:64 | `Array.from(new Set(...))` keeps each element once, and an element comes before another exactly as its first occurrence does |
| Seqs.Dedup | src/components/GiftCardTable.tsx:64 | the set-and-back de-duplication; its properties are stated by DedupSpec |
| Seqs.Filter | src/components/GiftCardTable.tsx:68 | `Array.prototype.filter`; its properties are stated by FilterMembers, FilterSpec and FilterCount |
| Seqs.FilterMembers | src/components/GiftCardTable.tsx:68 | the filter holds exactly the elements of the input that pass |
| Seqs.FilterSpec | src/components/GiftCardTable.tsx:91-96 | the filter keeps exactly the passing elements, each as often as in the input, as a subsequence |
| Seqs.FilterCount | src/components/GiftCardTable.tsx:68 | the filter's length is the number of positions whose element passes |
| GiftCardTable.StatsActive | src/components/GiftCardTable.tsx:67-88 | the active count is the number of in-stock cards: 0 exactly when none is, the whole list exactly when all are; with none, the average is 0 and the best deal 'N/A' |
| GiftCardTable.ComputeStats | src/components/GiftCardTable.tsx:67-88 | the statistics panel; its figures are stated by StatsActive, StatsAverageBounds and StatsBestDeal |
| GiftCardTable.StatValue | src/components/GiftCardTable.tsx:71-77 | a card's figure in the average: 0 for 'N/A', the rate, or the first package's rate; ColorAgreesWithSortKey ties it to the sort key |
| GiftCardTable.SumBounds | src/components/GiftCardTable.tsx:71-79 | the sum of figures between lo and hi lies between n·lo and n·hi |
| GiftCardTable.AverageBetween | src/components/GiftCardTable.tsx:69-79 | dividing such a sum by a positive count gives a figure between lo and hi |
| GiftCardTable.StatsAverageBounds | src/components/GiftCardTable.tsx:67-79 | with some card in stock, the average commission lies between the least and the greatest in-stock figure |
| GiftCardTable.StatsBestDeal | src/components/GiftCardTable.tsx:81-86 | with the deal score never set, the best deal is the first in-stock card |
| Sorting.SortSeqNoneBefore | src/components/GiftCardTable.tsx:81 | a comparator that never returns a negative number leaves the order unchanged |
| GiftCardTable.FilterSpecView | src/components/GiftCardTable.tsx:91-96 | the shown cards are exactly those matching the search, the category and the stock toggle, each as often as listed, in listing order |
| GiftCardTable.Matches | src/components/GiftCardTable.tsx:91-95 | the search, category and stock conditions a shown card meets |
| GiftCardTable.FilterNeutral | src/components/GiftCardTable.tsx:91-96 | with no search text, 'all' categories and out-of-stock cards allowed, nothing is filtered out |
| Strings.AsciiLower | src/components/GiftCardTable.tsx:92 | lower-casing keeps the length and maps each character on its own |
| Strings.AsciiLowerIdempotent | src/components/GiftCardTable.tsx:92 | lower-casing twice is lower-casing once, and leaves no capital letter |
| Strings.Includes | src/components/GiftCardTable.tsx:92 | `includes` holds exactly when the pattern occurs at some position |
| Strings.IncludesSelf | src/components/GiftCardTable.tsx:92 | every name includes itself and the empty search text |
| Strings.IncludesShorter | src/utils/brandLogos.ts:50 | a string never includes a longer one |
| GiftCardTable.KeySameKind | src/components/GiftCardTable.tsx:102-114 | both keys of one sort field are of the same kind: strings, numbers or undefined |
| GiftCardTable.Key | src/components/GiftCardTable.tsx:102-114 | the value `a[sortField]` the comparator reads, with the commission's 99-for-'N/A' figure; KeySameKind states that both keys of a field are of one kind |
| GiftCardTable.CommissionKey | src/components/GiftCardTable.tsx:105-113 | the commission sort figure: 99 for 'N/A' or an empty list, else the first rate |
| Strings.LexLessIrreflexive | src/components/GiftCardTable.tsx:116-117 | no string is below itself under `<`, which compares UTF-16 code units |
| Strings.LexLessAsymmetric | src/components/GiftCardTable.tsx:116-117 | `<` on strings, comparing UTF-16 code units, is asymmetric |
| Strings.LexLessTransitive | src/components/GiftCardTable.tsx:116-117 | `<` on strings, comparing UTF-16 code units, is transitive |
| Strings.LexLessTotal | src/components/GiftCardTable.tsx:116-117 | of two different strings, one is below the other: different strings have different UTF-16 code units |
| Strings.CharUnits | src/components/GiftCardTable.tsx:116-117 | a character is one UTF-16 code unit below U+10000 and a surrogate pair above |
| Strings.UnitsLessTransitive | src/components/GiftCardTable.tsx:116-117 | the lexicographic order on code units is transitive |
| Strings.UnitsLessTotal | src/components/GiftCardTable.tsx:116-117 | of two different code-unit sequences, one is below the other |
| Strings.CodeUnitsInjective | src/components/GiftCardTable.tsx:116-117 | different strings have different UTF-16 code units |
| Strings.SurrogatePairSortsLow | src/components/GiftCardTable.tsx:116-117 | `<` is not the code-point order: U+10000 sorts before U+FFFF |
| GiftCardTable.KeyLessAsymmetric | src/components/GiftCardTable.tsx:116-117 | `<` on sort keys is asymmetric |
| GiftCardTable.KeyLessTransitive | src/components/GiftCardTable.tsx:116-117 | `<` on sort keys is transitive |
| GiftCardTable.KeyLessNegativeTransitive | src/components/GiftCardTable.tsx:116-117 | for keys of one kind, a < c implies a < b or b < c |
| GiftCardTable.CompareMeaning | src/components/GiftCardTable.tsx:98-118 | the comparator is negative exactly when a is a favourite and b is not, or both are in the same group and a's key precedes b's in the chosen direction |
| GiftCardTable.CompareAntisymmetric | src/components/GiftCardTable.tsx:98-118 | swapping the arguments negates the result, which is always -1, 0 or 1 |
| GiftCardTable.CompareTies | src/components/GiftCardTable.tsx:98-118 | cards in the same group with equal keys compare as 0, as do any two under the unset deal score |
| GiftCardTable.Compare | src/components/GiftCardTable.tsx:98-118 | the comparator; CompareMeaning, CompareAntisymmetric and CompareTies state its results |
| GiftCardTable.CardBeforeIsOrder | src/components/GiftCardTable.tsx:98-118 | "compares negative" is a strict weak order, so the sort's result is well defined |
| Sorting.InsertionSort | src/components/GiftCardTable.tsx:98 | the in-place sort leaves the array holding the stable sort of its old contents |
| Sorting.SortSeqPermutation | src/components/GiftCardTable.tsx:98 | the sorted sequence is a permutation of the input |
| Sorting.SortSeqSorted | src/components/GiftCardTable.tsx:98 | under a strict weak order, no element of the sorted sequence is preceded by a later one |
| Sorting.SortSeqTwoClasses | src/components/GiftCardTable.tsx:99-100 | when a comparator only separates two classes, the first class comes first and each keeps its order |
| Sorting.SortSeq | src/components/GiftCardTable.tsx:98 | the stable insertion sort as a value; SortSeqPermutation and SortSeqSorted state that it sorts |
| Sorting.InsertAt | src/components/GiftCardTable.tsx:98 | one insertion step on the array: the prefix up to i becomes the old prefix with the old a[i] inserted, and the rest is unchanged |
| GiftCardTable.FilteredAndSortedCards | src/components/GiftCardTable.tsx:90-120 | the shown list is the filtered list, sorted in place by the comparator |
| GiftCardTable.ShownCards | src/components/GiftCardTable.tsx:90-120 | the shown list is a permutation of the matching cards, favourites first, and within each group the keys follow the sort direction |
| GiftCardTable.DefaultOrder | src/components/GiftCardTable.tsx:98-118 | sorting by deal score gives the favourites, then the others, each in listing order, in either direction |
| GiftCardTable.SortBreakdown | src/components/GiftCardTable.tsx:181 | the price breakdown sorts the record's own package list in place |
| GiftCardTable.BreakdownOrder | src/components/GiftCardTable.tsx:181 | the breakdown lists the same entries in ascending face value |
| GiftCardTable.NextSort | src/components/GiftCardTable.tsx:122-129 | clicking the current field flips the direction; clicking another field selects it, ascending only for the product name |
| GiftCardTable.NextSortTwice | src/components/GiftCardTable.tsx:122-129 | clicking the same header twice restores the order |
| GiftCardTable.SortState.constructor | src/components/GiftCardTable.tsx:45-46 | the table starts sorted by deal score, descending |
| GiftCardTable.SortState.HandleSort | src/components/GiftCardTable.tsx:122-129 | a header click moves the state to the next sort |
| GiftCardTable.CommissionColor | src/components/GiftCardTable.tsx:131-140 | no class exactly for 'N/A'; 'low' up to 2, 'medium' above 2 up to 5, 'high' above 5 |
| GiftCardTable.ColorValue | src/components/GiftCardTable.tsx:133-136 | the colour figure: the rate, or the first package's rate, 5 for an empty list |
| GiftCardTable.ColorMonotone | src/components/GiftCardTable.tsx:137-139 | a higher commission never gets a lower colour class |
| GiftCardTable.ColorAgreesWithSortKey | src/components/GiftCardTable.tsx:133-136 | apart from an empty list, the colour, the commission sort key and the average use the same figure |
| Application.Toggle | src/App.tsx:27-31 | `handleToggleFavorite`'s update; ToggleMembership, ToggleShape and ToggleTwice state what it does |
| Application.ToggleMembership | src/App.tsx:27-31 | toggling flips the name's membership and no other name's |
| Application.ToggleShape | src/App.tsx:27-31 | removing keeps the other names in order, each as often as before, and drops every copy of the name; adding appends the name |
| Application.ToggleTwice | src/App.tsx:27-31 | adding a name and toggling it again restores the list |
| Application.Resync | src/App.tsx:88-93 | the records are kept and every flag says whether the card's name is a favourite |
| Application.ResyncFacts | src/App.tsx:88-93 | resyncing cards already in sync changes nothing; two resyncs equal one with the later list |
| Application.ResyncSameRecords | src/App.tsx:88-93 | the resync reads only the records and the favourites, so tables with the same records resync alike |
| Application.InitialCards | src/App.tsx:48-51 | the first table has one card per listed product |
| Application.InitialCardsSpec | src/App.tsx:48-51 | the first table keeps listing order, shows every commission as 'N/A' and takes its flags from the favourites captured at the start |
| Application.Step | src/App.tsx:62-77 | corrected arrival (the Finding's corrected half): an arrival with a record replaces only its card's slot, flagged from the current favourites, and the shown table is the local copy resynced to the favourites; a `null` record changes nothing; a toggle changes the favourites and resyncs the shown table, and the local copy stays |
| Application.Run | src/App.tsx:60-77 | the corrected refresh after a sequence of events keeps one slot per card throughout |
| Application.RunSpec | src/App.tsx:60-93 | corrected refresh: in any order of events, the table is the local copy flagged from the current favourites, and each slot holds its card processed with its detail exactly when that has arrived |
| Application.RunComplete | src/App.tsx:60-79 | corrected refresh: once every detail has arrived, each card shows its processed record with a correct flag, whatever the order of arrival |
| Application.StepAsWritten | src/App.tsx:62-77 | an arrival with a record replaces only its slot, flagged from the favourites captured at the start, and shows the local copy as it is; a `null` record changes nothing; a click toggles the favourites and resyncs the table |
| Application.RunAsWritten | src/App.tsx:60-77 | the refresh as written after a sequence of events keeps one slot per card |
| Application.RunAsWrittenSpec | src/App.tsx:60-93 | as written, each slot holds its card processed with its detail exactly when that has arrived, flagged from the captured favourites; the table holds the same records, either as the local copy or resynced to the current favourites; without clicks the table is the local copy |
| Application.RunAsWrittenWithoutClicks | src/App.tsx:60-93 | without clicks during loading, the code as written and the corrected refresh give the same state |
| Application.RunAsWrittenComplete | src/App.tsx:60-79 | once every detail has arrived, as written, each card shows its processed record, flagged from the captured or the current favourites; without clicks the flags are correct |
| Application.StaleFlagAsWritten | src/App.tsx:66-73 | as written, a card favourited before its detail arrives is shown as not a favourite although its name is in the list |
| Application.App.constructor | src/App.tsx:12-21 | favourites as saved, an empty table, loading, no error, no time and no rate yet |
| Application.App.HandleToggleFavorite | src/App.tsx:27-31 | a click toggles the favourite and the effect resyncs every flag; nothing else changes |
| Application.App.BeginRefresh | src/App.tsx:34-37 | a refresh starts loading, with no detail fetches pending, no error and an empty table; favourites, time and rate unchanged |
| Application.App.ShowInitial | src/App.tsx:53-59 | the first cards are shown at once, with the first card's rate (kept when there is none) and the time; loading ends and the detail fetches are pending |
| Application.App.AwaitDetails | src/App.tsx:60-77 | requires the details phase (loading over, details loading); the settling details and clicks leave the table as the refresh as written gives it |
| Application.App.FetchData | src/App.tsx:33-86 | starts through `BeginRefresh`, shows the first table through `ShowInitial` and waits in the details phase; a failed fetch, or rates without INR, sets the error and clears the table; otherwise the time and rate are set, each card shows its processed record, the flags agree with the captured or the current favourites, and with no clicks they are correct; both loading flags end false |

## Left out

- Rendering: the JSX, the image placeholders, the view-mode switch and the tooltip's
  open/closed state (`activeTooltip`). The category label's capitalisation is also left
  out.
- `processor.getBestPackage` (GiftCardTable.tsx:146) is not defined by `DataProcessor`.
  So a badge cannot render as written, and the "Best:" tag and the best-row highlight
  have no model.
- The breakdown sort at GiftCardTable.tsx:181 reorders the card record's own commission
  list. That permanently changes `commission[0]`, which the sort key, the colour and the
  statistics read. `SortBreakdown` models the sort on one array. The sharing of that
  array with the record is not modelled.
- `localStorage`: the model takes the saved favourites as the constructor's argument. It
  does not model writing them back, or `JSON.parse` of a corrupt saved value.
- Concurrency: `Promise.all`, `Promise.allSettled` and React's batching of state updates
  are not modelled. A refresh is a sequence of events in an order given as input, and a
  second refresh started while one is running is not modelled.
- Floating point: numbers are exact reals. IEEE rounding of `usdPrice * rate`, of the
  division and of `Math.round` is not modelled.
- Number-to-text conversion (template literals, `toFixed`) is left abstract. Texts hold
  numbers as numbers, so `Uniform(r)` stands for the string `${r}%`. `parseFloat` of that
  string is taken to give back r.
- `encodeURIComponent` is left out: the proxy addresses take the already-encoded target.
- axios is not modelled: its configuration, its 12-second timeout and its error
  objects. A failed request is just an error code and an optional status.
- Console output is left out.
- The typed views of untyped JSON are not modelled (`as T`, and the product and rate
  records read from a response). The endpoints take the fetch result already at its
  type.
- How each error becomes the message `fetchData` shows is not modelled.
  - `FetchData` takes the message of the rejection.
  - For rates without an INR entry that message is the `TypeError` of reading `USD` of
    `undefined`, in the V8 engine's wording (`MISSING_RATE_MESSAGE`); other engines word
    it differently.
  - Errors thrown here are all `Error` instances, so the fallback text 'Failed to fetch
    data' is never reached.
- Application.App.FetchData: requires INR.USD to be positive when INR is present. A rate
  of 0 makes the factor Infinity, and a negative rate gives negative costs. The model
  also requires every card's detail to arrive; `Promise.allSettled` waits for all of them.
- DataProcessing.DataProcessor.CalculateCommission: requires every package value to
  parse to a positive integer. A value of 0 or one that does not parse makes the source
  divide by 0 or by NaN, and those packages are not modelled.
- BrandLogos.InheritedMember: the texts of the inherited native functions
  ("function toString() { [native code] }" and the like) are the V8 engine's rendering.
  ECMAScript fixes only their general shape, and other engines lay them out differently.
- Strings.AsciiLower: lower-cases only ASCII letters. `toLowerCase` also maps other
  Unicode letters.
- The statistics' `toFixed(2)` is left out: the average is the exact quotient. The
  worked example of a two-package commission list is not stated as a lemma.
- A category literally named 'all' would appear twice in the category list. This is not
  excluded, and not stated.
- `Header`, `ErrorMessage` and `LoadingSpinner` only display state and are not part of
  this model.

## Findings

| source | as written | input that shows it | evidently intended | confidence | as-written member | corrected member |
|---|---|---|---|---|---|---|
| src/utils/brandLogos.ts:45-46 | `BRAND_DOMAINS[name]` on a plain object also finds members inherited from `Object.prototype` | the product name "toString": the lookup yields a function, and `logoUrl` builds a favicon address from its source text | only the 25 listed brands resolve exactly; every other name goes through the fuzzy search, so "toString" gives "" | not executed | BrandLogos.ToStringAsWritten | BrandLogos.ResolveFromTable |
| src/App.tsx:66-73 | a detail arrival flags its card from the `favorites` captured when `fetchData` was created. It then shows the whole local copy, and the resync effect does not run again | one card that is not a favourite; the user favourites it before its detail arrives; after the arrival its name is in `favorites` but the table shows it as not a favourite | every shown flag follows the current favourites, as the resync effect at App.tsx:88-93 keeps them | not executed | Application.StaleFlagAsWritten | Application.RunSpec |
