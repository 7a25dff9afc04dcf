/**
 * The table view's logic: the category choices, the summary statistics, the
 * search/category/stock filter, the sort with favourites first, the sort
 * header's state machine and the commission colour classes.
 */
module GiftCardTable {
  import opened Strings
  import opened Seqs
  import opened Sorting
  import opened Types

  // ---------------------------------------------------------------------
  // Categories

  function CardCategories(c: Card): seq<string> {
    c.record.categories
  }

  /** `['all', ...Array.from(new Set(giftCards.flatMap(c => c.categories)))]`. */
  function Categories(cards: seq<Card>): (r: seq<string>)
    ensures |r| > 0 && r[0] == "all"
  {
    ["all"] + Dedup(Flatten(Map(cards, CardCategories)))
  }

  /**
   * After "all", every category of every card appears exactly once, in the order
   * of first occurrence, and nothing else appears.
   */
  lemma CategoriesSpec(cards: seq<Card>)
    ensures var rest := Categories(cards)[1..];
      forall x :: x in rest <==> exists i :: 0 <= i < |cards| && x in cards[i].record.categories
    ensures NoDuplicates(Categories(cards)[1..])
    ensures FirstOccurrenceOrder(Categories(cards)[1..], Flatten(Map(cards, CardCategories)))
    ensures IsSubseq(Categories(cards)[1..], Flatten(Map(cards, CardCategories)))
  {
    var ss := Map(cards, CardCategories);
    MapSpec(cards, CardCategories);
    FlattenMembers(ss);
    DedupSpec(Flatten(ss));
    assert Categories(cards)[1..] == Dedup(Flatten(ss));
  }

  // ---------------------------------------------------------------------
  // Statistics

  predicate IsInStock(c: Card) {
    c.record.stockStatus == InStock
  }

  /**
   * The figure a card contributes to the average: 0 for 'N/A', the rate of a
   * uniform commission, the first package's rate for a list (0 when empty).
   */
  function StatValue(c: Commission): real {
    match c
    case NA => 0.0
    case Uniform(r) => r
    case PerPackage(ds) => if |ds| > 0 then ds[0].commissionRate else 0.0
  }

  /** The `reduce` over the in-stock cards. */
  function Sum(s: seq<Card>): real {
    if |s| == 0 then 0.0 else Sum(s[..|s| - 1]) + StatValue(s[|s| - 1].record.commission)
  }

  /** `c.bestDealScore || 0`: the records never carry a deal score. */
  function DealScore(c: Card): real {
    0.0
  }

  /** The best-deal comparator `(a, b) => (b.bestDealScore || 0) - (a.bestDealScore || 0)`, negative. */
  predicate ScoreBefore(a: Card, b: Card) {
    DealScore(b) - DealScore(a) < 0.0
  }

  datatype Stats = Stats(avgCommission: real, activeProducts: nat, bestDeal: string)

  /** The sum divided by the count, or by 1 when the count is 0 (`inStock.length || 1`). */
  function Average(sum: real, count: nat): real {
    sum / (if count == 0 then 1 else count) as real
  }

  /** `bestDeal?.productName || 'N/A'` for the first of the ranked cards. */
  function BestDealName(ranked: seq<Card>): string {
    if |ranked| > 0 && |ranked[0].record.productName| > 0 then ranked[0].record.productName else "N/A"
  }

  /**
   * The summary: the average over the in-stock cards, their number, and the
   * name of the best-ranked one.
   */
  function ComputeStats(cards: seq<Card>): Stats {
    var inStock := Filter(cards, IsInStock);
    Stats(Average(Sum(inStock), |inStock|), |inStock|, BestDealName(SortSeq(inStock, ScoreBefore)))
  }

  /**
   * The active count is the number of in-stock cards: 0 exactly when none is in
   * stock, the whole list exactly when all are; with none, the average is 0 and
   * the best deal "N/A".
   */
  lemma StatsActive(cards: seq<Card>)
    ensures var st := ComputeStats(cards);
      && st.activeProducts == |Positions(cards, IsInStock)|
      && (st.activeProducts == 0 <==> forall i :: 0 <= i < |cards| ==> !IsInStock(cards[i]))
      && (st.activeProducts == |cards| <==> forall i :: 0 <= i < |cards| ==> IsInStock(cards[i]))
      && (st.activeProducts == 0 ==> st.avgCommission == 0.0 && st.bestDeal == "N/A")
  {
    var inStock := Filter(cards, IsInStock);
    var st := ComputeStats(cards);
    assert st.activeProducts == |inStock|;
    assert st.activeProducts == |Positions(cards, IsInStock)| by {
      FilterCount(cards, IsInStock);
    }
    assert st.activeProducts == 0 <==> forall i :: 0 <= i < |cards| ==> !IsInStock(cards[i]) by {
      FilterEmptyIff(cards, IsInStock);
    }
    assert st.activeProducts == |cards| <==> forall i :: 0 <= i < |cards| ==> IsInStock(cards[i]) by {
      FilterFullIff(cards, IsInStock);
    }
    if |inStock| == 0 {
      SortSeqPermutation(inStock, ScoreBefore);
      assert SortSeq(inStock, ScoreBefore) == [];
    }
  }

  lemma {:induction false} SumBounds(s: seq<Card>, lo: real, hi: real)
    requires forall i :: 0 <= i < |s| ==> lo <= StatValue(s[i].record.commission) <= hi
    ensures (|s| as real) * lo <= Sum(s) <= (|s| as real) * hi
  {
    if |s| > 0 {
      var n := |s| as real;
      var init := s[..|s| - 1];
      SumBounds(init, lo, hi);
      var x := StatValue(s[|s| - 1].record.commission);
      assert Sum(s) == Sum(init) + x;
      assert lo <= x <= hi;
      assert (|init| as real) == n - 1.0;
      assert n * lo == (n - 1.0) * lo + lo;
      assert n * hi == (n - 1.0) * hi + hi;
    }
  }

  lemma AverageBetween(sum: real, count: nat, lo: real, hi: real)
    requires count > 0
    requires (count as real) * lo <= sum <= (count as real) * hi
    ensures lo <= Average(sum, count) <= hi
  {
    var n := count as real;
    var q := sum / n;
    assert q * n == sum;
    assert (q - lo) * n >= 0.0;
    assert (hi - q) * n >= 0.0;
  }

  /** The average lies between the smallest and the largest in-stock figure. */
  lemma StatsAverageBounds(cards: seq<Card>, lo: real, hi: real)
    requires forall c :: c in cards && IsInStock(c) ==> lo <= StatValue(c.record.commission) <= hi
    requires exists i :: 0 <= i < |cards| && IsInStock(cards[i])
    ensures lo <= ComputeStats(cards).avgCommission <= hi
  {
    var inStock := Filter(cards, IsInStock);
    assert |inStock| > 0 by {
      FilterEmptyIff(cards, IsInStock);
    }
    assert (|inStock| as real) * lo <= Sum(inStock) <= (|inStock| as real) * hi by {
      FilterMembers(cards, IsInStock);
      forall k | 0 <= k < |inStock| ensures lo <= StatValue(inStock[k].record.commission) <= hi {
        assert inStock[k] in inStock;
      }
      SumBounds(inStock, lo, hi);
    }
    AverageBetween(Sum(inStock), |inStock|, lo, hi);
  }

  /**
   * The best deal is the first in-stock card in list order (the ranking by a
   * score that is never set keeps that order), or "N/A" when its name is empty.
   */
  lemma StatsBestDeal(cards: seq<Card>, i: int)
    requires 0 <= i < |cards| && IsInStock(cards[i])
    requires forall k :: 0 <= k < i ==> !IsInStock(cards[k])
    ensures ComputeStats(cards).bestDeal == BestDealName([cards[i]])
  {
    var inStock := Filter(cards, IsInStock);
    FilterMembers(cards, IsInStock);
    assert cards[i] in inStock;
    SortSeqNoneBefore(inStock, ScoreBefore);
    var j := FilterFirst(cards, IsInStock);
    assert j == i;
  }

  // ---------------------------------------------------------------------
  // Filtering

  datatype SortField = ProductName | RatingValue | ReviewCount | CommissionField | BestDealScore

  datatype SortDirection = Asc | Desc

  /** The table's controls: search box, category, stock toggle, and the sort header state. */
  datatype View = View(
    searchTerm: string,
    selectedCategory: string,
    hideOutOfStock: bool,
    sortField: SortField,
    sortDirection: SortDirection)

  /** The three conditions a card must meet to be shown. */
  predicate Matches(v: View, c: Card) {
    && Includes(AsciiLower(c.record.productName), AsciiLower(v.searchTerm))
    && (v.selectedCategory == "all" || v.selectedCategory in c.record.categories)
    && (!v.hideOutOfStock || IsInStock(c))
  }

  function MatchesView(v: View): Card -> bool {
    c => Matches(v, c)
  }

  /** The filter keeps exactly the matching cards, each as often as it is listed, in their order. */
  lemma FilterSpecView(cards: seq<Card>, v: View)
    ensures forall c :: c in Filter(cards, MatchesView(v)) <==> c in cards && Matches(v, c)
    ensures forall c :: multiset(Filter(cards, MatchesView(v)))[c] == if Matches(v, c) then multiset(cards)[c] else 0
    ensures IsSubseq(Filter(cards, MatchesView(v)), cards)
  {
    FilterSpec(cards, MatchesView(v));
  }

  /** With no search text, every category and out-of-stock cards shown, nothing is filtered out. */
  lemma FilterNeutral(cards: seq<Card>, v: View)
    requires v.searchTerm == "" && v.selectedCategory == "all" && !v.hideOutOfStock
    ensures Filter(cards, MatchesView(v)) == cards
  {
    forall i | 0 <= i < |cards| ensures MatchesView(v)(cards[i]) {
      IncludesSelf(AsciiLower(cards[i].record.productName));
    }
    FilterAll(cards, MatchesView(v));
  }

  // ---------------------------------------------------------------------
  // Sorting

  /** A sort key as `a[sortField]` yields it: a number, a string, or `undefined`. */
  datatype SortKey = KNum(x: real) | KStr(s: string) | KUndefined

  /** The commission key: 99 for 'N/A', the rate, the first package's rate, 99 for an empty list. */
  function CommissionKey(c: Commission): real {
    match c
    case NA => 99.0
    case Uniform(r) => r
    case PerPackage(ds) => if |ds| > 0 then ds[0].commissionRate else 99.0
  }

  function Key(c: Card, f: SortField): SortKey {
    match f
    case ProductName => KStr(c.record.productName)
    case RatingValue => KNum(c.record.ratingValue)
    case ReviewCount => KNum(c.record.reviewCount as real)
    case CommissionField => KNum(CommissionKey(c.record.commission))
    case BestDealScore => KUndefined
  }

  /** JavaScript `<` on two keys of one field; comparisons with `undefined` are false. */
  predicate KeyLess(a: SortKey, b: SortKey) {
    if a.KNum? && b.KNum? then a.x < b.x
    else if a.KStr? && b.KStr? then LexLess(a.s, b.s)
    else false
  }

  /** The comparator passed to `filtered.sort`. */
  function Compare(a: Card, b: Card, f: SortField, d: SortDirection): int {
    if a.isFavorite && !b.isFavorite then -1
    else if !a.isFavorite && b.isFavorite then 1
    else
      var ka, kb := Key(a, f), Key(b, f);
      if KeyLess(ka, kb) then (if d == Asc then -1 else 1)
      else if KeyLess(kb, ka) then (if d == Asc then 1 else -1)
      else 0
  }

  function CardBefore(f: SortField, d: SortDirection): (Card, Card) -> bool {
    (a, b) => Compare(a, b, f, d) < 0
  }

  /** `a < b` in the chosen direction. */
  predicate Ordered(ka: SortKey, kb: SortKey, d: SortDirection) {
    if d == Asc then KeyLess(ka, kb) else KeyLess(kb, ka)
  }

  predicate SameKind(a: SortKey, b: SortKey) {
    (a.KNum? && b.KNum?) || (a.KStr? && b.KStr?) || (a.KUndefined? && b.KUndefined?)
  }

  lemma KeySameKind(a: Card, b: Card, f: SortField)
    ensures SameKind(Key(a, f), Key(b, f))
  {
  }

  lemma KeyLessAsymmetric(a: SortKey, b: SortKey)
    ensures KeyLess(a, b) ==> !KeyLess(b, a)
  {
    if a.KStr? && b.KStr? {
      LexLessAsymmetric(a.s, b.s);
    }
  }

  lemma KeyLessTransitive(a: SortKey, b: SortKey, c: SortKey)
    requires KeyLess(a, b) && KeyLess(b, c)
    ensures KeyLess(a, c)
  {
    if a.KStr? {
      LexLessTransitive(a.s, b.s, c.s);
    }
  }

  /** Keys of one kind are totally ordered, so incomparable keys are equal keys. */
  lemma KeyLessNegativeTransitive(a: SortKey, b: SortKey, c: SortKey)
    requires SameKind(a, b) && SameKind(b, c)
    requires KeyLess(a, c)
    ensures KeyLess(a, b) || KeyLess(b, c)
  {
    if a.KStr? && !KeyLess(a, b) {
      LexLessTotal(a.s, b.s);
      if a != b {
        LexLessTransitive(b.s, a.s, c.s);
      }
    }
  }

  /** What the comparator's sign means: favourites first, then the key in the chosen direction. */
  lemma CompareMeaning(a: Card, b: Card, f: SortField, d: SortDirection)
    ensures Compare(a, b, f, d) < 0 <==>
      (a.isFavorite && !b.isFavorite) || (a.isFavorite == b.isFavorite && Ordered(Key(a, f), Key(b, f), d))
  {
    KeyLessAsymmetric(Key(a, f), Key(b, f));
  }

  /** The comparator is consistent, as `Array.prototype.sort` requires: swapping the arguments negates it. */
  lemma CompareAntisymmetric(a: Card, b: Card, f: SortField, d: SortDirection)
    ensures Compare(a, b, f, d) == -Compare(b, a, f, d)
    ensures Compare(a, b, f, d) in {-1, 0, 1}
  {
    KeyLessAsymmetric(Key(a, f), Key(b, f));
  }

  /** Cards in the same favourite group with equal keys, or any under the unset deal score, compare as 0. */
  lemma CompareTies(a: Card, b: Card, f: SortField, d: SortDirection)
    requires a.isFavorite == b.isFavorite
    requires f == BestDealScore || Key(a, f) == Key(b, f)
    ensures Compare(a, b, f, d) == 0
  {
    if f != BestDealScore && Key(a, f).KStr? {
      LexLessIrreflexive(Key(a, f).s);
    }
  }

  /** The comparator orders cards consistently, so sorting by it is well defined. */
  lemma CardBeforeIsOrder(f: SortField, d: SortDirection)
    ensures StrictWeakOrder(CardBefore(f, d))
  {
    var before := CardBefore(f, d);
    forall a | true ensures !before(a, a) {
      CompareTies(a, a, f, d);
    }
    forall a, b, c | before(a, b) && before(b, c) ensures before(a, c) {
      CompareMeaning(a, b, f, d);
      CompareMeaning(b, c, f, d);
      CompareMeaning(a, c, f, d);
      var ka, kb, kc := Key(a, f), Key(b, f), Key(c, f);
      if a.isFavorite == b.isFavorite == c.isFavorite {
        if d == Asc {
          KeyLessTransitive(ka, kb, kc);
        } else {
          KeyLessTransitive(kc, kb, ka);
        }
      }
    }
    forall a, b, c | before(a, c) ensures before(a, b) || before(b, c) {
      CompareMeaning(a, b, f, d);
      CompareMeaning(b, c, f, d);
      CompareMeaning(a, c, f, d);
      var ka, kb, kc := Key(a, f), Key(b, f), Key(c, f);
      KeySameKind(a, b, f);
      KeySameKind(b, c, f);
      if a.isFavorite == b.isFavorite == c.isFavorite {
        if d == Asc {
          KeyLessNegativeTransitive(ka, kb, kc);
        } else {
          KeyLessNegativeTransitive(kc, kb, ka);
        }
      }
    }
  }

  /** `filteredAndSortedCards`: the filter, then the in-place sort of the fresh filtered array. */
  method FilteredAndSortedCards(cards: seq<Card>, v: View) returns (r: seq<Card>)
    ensures r == SortSeq(Filter(cards, MatchesView(v)), CardBefore(v.sortField, v.sortDirection))
  {
    var filtered := Filter(cards, MatchesView(v));
    var a := new Card[|filtered|](i requires 0 <= i < |filtered| => filtered[i]);
    assert a[..] == filtered;
    InsertionSort(a, CardBefore(v.sortField, v.sortDirection));
    r := a[..];
  }

  /**
   * The shown list: exactly the matching cards, each as often as in the input;
   * every favourite before every other card; within each group, keys in the
   * chosen direction.
   */
  lemma ShownCards(cards: seq<Card>, v: View)
    ensures var r := SortSeq(Filter(cards, MatchesView(v)), CardBefore(v.sortField, v.sortDirection));
      && multiset(r) == multiset(Filter(cards, MatchesView(v)))
      && (forall c :: c in r <==> c in cards && Matches(v, c))
      && (forall i, j :: 0 <= i < j < |r| && r[j].isFavorite ==> r[i].isFavorite)
      && (forall i, j :: 0 <= i < j < |r| && r[i].isFavorite == r[j].isFavorite ==>
            !Ordered(Key(r[j], v.sortField), Key(r[i], v.sortField), v.sortDirection))
  {
    var f, d := v.sortField, v.sortDirection;
    var filtered := Filter(cards, MatchesView(v));
    var r := SortSeq(filtered, CardBefore(f, d));
    SortSeqPermutation(filtered, CardBefore(f, d));
    FilterSpecView(cards, v);
    assert forall c :: c in r <==> c in multiset(r);
    CardBeforeIsOrder(f, d);
    SortSeqSorted(filtered, CardBefore(f, d));
    forall i, j | 0 <= i < j < |r| ensures
      && (r[j].isFavorite ==> r[i].isFavorite)
      && (r[i].isFavorite == r[j].isFavorite ==> !Ordered(Key(r[j], f), Key(r[i], f), d))
    {
      CompareMeaning(r[j], r[i], f, d);
    }
  }

  function IsFavorite(c: Card): bool {
    c.isFavorite
  }

  /**
   * Under the default field, whose key is never set, the sort only moves the
   * favourites to the front: each group keeps its original order.
   */
  lemma DefaultOrder(cards: seq<Card>, d: SortDirection)
    ensures SortSeq(cards, CardBefore(BestDealScore, d)) == Filter(cards, IsFavorite) + Filter(cards, Not(IsFavorite))
  {
    forall a, b ensures CardBefore(BestDealScore, d)(a, b) <==> IsFavorite(a) && !IsFavorite(b) {
      CompareMeaning(a, b, BestDealScore, d);
    }
    SortSeqTwoClasses(cards, CardBefore(BestDealScore, d), IsFavorite);
  }

  // ---------------------------------------------------------------------
  // The price breakdown's package order

  /** `commission.sort((a, b) => a.packageValue - b.packageValue)`, negative. */
  predicate ByPackageValue(a: CommissionDetail, b: CommissionDetail) {
    a.packageValue - b.packageValue < 0
  }

  /** The breakdown sorts the record's package list in place, by face value. */
  method SortBreakdown(a: array<CommissionDetail>)
    modifies a
    ensures a[..] == SortSeq(old(a[..]), ByPackageValue)
  {
    InsertionSort(a, ByPackageValue);
  }

  /** The breakdown lists the same packages in ascending face value. */
  lemma BreakdownOrder(ds: seq<CommissionDetail>)
    ensures multiset(SortSeq(ds, ByPackageValue)) == multiset(ds)
    ensures var r := SortSeq(ds, ByPackageValue);
      forall i, j :: 0 <= i < j < |r| ==> r[i].packageValue <= r[j].packageValue
  {
    SortSeqPermutation(ds, ByPackageValue);
    SortSeqSorted(ds, ByPackageValue);
  }

  // ---------------------------------------------------------------------
  // The sort header

  /**
   * `handleSort` as a transition: the current field flips the direction; a new
   * field is selected ascending for the name and descending otherwise.
   */
  function NextSort(field: SortField, dir: SortDirection, clicked: SortField): (r: (SortField, SortDirection))
    ensures clicked == field ==> r.0 == field && r.1 != dir
    ensures clicked != field ==> r.0 == clicked && (r.1 == Asc <==> clicked == ProductName)
  {
    if field == clicked then (field, if dir == Asc then Desc else Asc)
    else (clicked, if clicked == ProductName then Asc else Desc)
  }

  /** Clicking the same header twice restores the order. */
  lemma NextSortTwice(field: SortField, dir: SortDirection)
    ensures var (f1, d1) := NextSort(field, dir, field); NextSort(f1, d1, field) == (field, dir)
  {
  }

  /** The header's two state cells. */
  class SortState {
    var field: SortField
    var direction: SortDirection

    /** The initial order: by deal score, descending. */
    constructor()
      ensures field == BestDealScore && direction == Desc
    {
      field := BestDealScore;
      direction := Desc;
    }

    method HandleSort(clicked: SortField)
      modifies this
      ensures (field, direction) == NextSort(old(field), old(direction), clicked)
    {
      if field == clicked {
        direction := if direction == Asc then Desc else Asc;
      } else {
        field := clicked;
        direction := if clicked == ProductName then Asc else Desc;
      }
    }
  }

  // ---------------------------------------------------------------------
  // Commission colour

  /** The figure the colour is chosen by: the rate, or the first package's rate, 5 for an empty list. */
  function ColorValue(c: Commission): real
    requires !c.NA?
  {
    match c
    case Uniform(r) => r
    case PerPackage(ds) => if |ds| > 0 then ds[0].commissionRate else 5.0
  }

  function Bucket(x: real): string {
    if x <= 2.0 then "low" else if x <= 5.0 then "medium" else "high"
  }

  /** `getCommissionColor`: no class for 'N/A'; otherwise the bucket of the colour figure. */
  function CommissionColor(c: Commission): (cls: string)
    ensures cls == "" <==> c.NA?
    ensures cls == "low" <==> !c.NA? && ColorValue(c) <= 2.0
    ensures cls == "medium" <==> !c.NA? && 2.0 < ColorValue(c) <= 5.0
    ensures cls == "high" <==> !c.NA? && ColorValue(c) > 5.0
  {
    if c.NA? then "" else Bucket(ColorValue(c))
  }

  function BucketRank(cls: string): int {
    if cls == "low" then 0 else if cls == "medium" then 1 else 2
  }

  /** A higher commission never gets a lower colour class. */
  lemma ColorMonotone(a: Commission, b: Commission)
    requires !a.NA? && !b.NA? && ColorValue(a) <= ColorValue(b)
    ensures BucketRank(CommissionColor(a)) <= BucketRank(CommissionColor(b))
  {
  }

  /** Except for an empty package list, the colour and the sort go by the same figure. */
  lemma ColorAgreesWithSortKey(c: Commission)
    requires !c.NA? && !(c.PerPackage? && |c.details| == 0)
    ensures ColorValue(c) == CommissionKey(c) == StatValue(c)
  {
  }
}
