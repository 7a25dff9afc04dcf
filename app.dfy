/**
 * The application's bookkeeping: the favourites list and the `isFavorite`
 * flags it drives, and a refresh: the listing and the rates fetched together,
 * the table shown at once with every commission 'N/A', then each card's detail
 * record replacing that card's slot as it arrives. Arrivals happen in any
 * order and favourites may be toggled between them; the order is an input.
 */
module Application {
  import opened Wrappers
  import opened Seqs
  import opened Types
  import opened DataProcessing

  // ---------------------------------------------------------------------
  // Favourites

  function NotName(name: string): string -> bool {
    f => f != name
  }

  /** `handleToggleFavorite`: remove every occurrence of a listed name, or append an unlisted one. */
  function Toggle(favs: seq<string>, name: string): seq<string> {
    if name in favs then Filter(favs, NotName(name)) else favs + [name]
  }

  /** Toggling flips the name's membership and leaves every other name's as it was. */
  lemma ToggleMembership(favs: seq<string>, name: string)
    ensures name in Toggle(favs, name) <==> name !in favs
    ensures forall x :: x != name ==> (x in Toggle(favs, name) <==> x in favs)
  {
    FilterMembers(favs, NotName(name));
  }

  /** Removing keeps the other names, each as often as before, in their order; adding puts the name last. */
  lemma ToggleShape(favs: seq<string>, name: string)
    ensures name in favs ==> IsSubseq(Toggle(favs, name), favs) && |Toggle(favs, name)| < |favs|
    ensures name in favs ==>
      forall x :: multiset(Toggle(favs, name))[x] == if x == name then 0 else multiset(favs)[x]
    ensures name !in favs ==> Toggle(favs, name) == favs + [name]
  {
    if name in favs {
      FilterSpec(favs, NotName(name));
      FilterFullIff(favs, NotName(name));
      var i :| 0 <= i < |favs| && favs[i] == name;
      assert !NotName(name)(favs[i]);
    }
  }

  /** Adding an unlisted name and toggling it again gives back the list exactly. */
  lemma ToggleTwice(favs: seq<string>, name: string)
    requires name !in favs
    ensures Toggle(Toggle(favs, name), name) == favs
  {
    FilterAppend(favs, [name], NotName(name));
    FilterAll(favs, NotName(name));
    assert Filter([name], NotName(name)) == [];
  }

  // ---------------------------------------------------------------------
  // The `isFavorite` resync

  /** Every card's flag says whether its name is a favourite. */
  ghost predicate InSync(cards: seq<Card>, favs: seq<string>) {
    forall i :: 0 <= i < |cards| ==> (cards[i].isFavorite <==> cards[i].record.productName in favs)
  }

  /** The resync effect: each card's flag set from the favourites, nothing else changed. */
  function Resync(cards: seq<Card>, favs: seq<string>): (r: seq<Card>)
    ensures |r| == |cards|
    ensures forall i :: 0 <= i < |cards| ==> r[i].record == cards[i].record
    ensures InSync(r, favs)
  {
    seq(|cards|, i requires 0 <= i < |cards| => Card(cards[i].record, cards[i].record.productName in favs))
  }

  /** Resyncing cards already in sync changes nothing; resyncing twice is resyncing with the later list. */
  lemma ResyncFacts(cards: seq<Card>, f1: seq<string>, f2: seq<string>)
    ensures InSync(cards, f1) ==> Resync(cards, f1) == cards
    ensures Resync(Resync(cards, f1), f2) == Resync(cards, f2)
  {
    if InSync(cards, f1) {
      forall i | 0 <= i < |cards| ensures Resync(cards, f1)[i] == cards[i] {
      }
    }
  }

  /** Cards holding the same records, slot by slot, resync to the same table. */
  lemma ResyncSameRecords(a: seq<Card>, b: seq<Card>, favs: seq<string>)
    requires |a| == |b| && forall i :: 0 <= i < |a| ==> a[i].record == b[i].record
    ensures Resync(a, favs) == Resync(b, favs)
  {
  }

  // ---------------------------------------------------------------------
  // A refresh, as a function of its inputs

  /** A detail fetch settling for card `index`, or a click on a favourite button. */
  datatype Event = Arrival(index: nat) | ToggleFavorite(name: string)

  /** What a refresh works from: the listing, each card's detail record (`None` for `null`), the rate, the favourites it captured. */
  datatype Refresh = Refresh(catalog: seq<GiftCard>, details: seq<Option<ProductDetails>>, k: real, favorites: seq<string>)

  predicate ValidRefresh(r: Refresh) {
    && |r.details| == |r.catalog|
    && forall i :: 0 <= i < |r.details| ==> PackagesPriced(r.details[i])
  }

  predicate ValidEvents(r: Refresh, events: seq<Event>) {
    forall t :: 0 <= t < |events| ==> events[t].Arrival? ==> events[t].index < |r.catalog|
  }

  /** The processed record of card `i`, flagged from `favs`. */
  function Slot(r: Refresh, i: int, detail: Option<ProductDetails>, favs: seq<string>): Card
    requires 0 <= i < |r.catalog| && PackagesPriced(detail)
  {
    var p := Processed(r.catalog[i], detail, r.k);
    Card(p, p.productName in favs)
  }

  /** The table shown before any detail arrives. */
  function InitialCards(r: Refresh): (cards: seq<Card>)
    ensures |cards| == |r.catalog|
  {
    seq(|r.catalog|, i requires 0 <= i < |r.catalog| => Slot(r, i, None, r.favorites))
  }

  /** The first table has the listing's length and order, every commission 'N/A', flags from the captured favourites. */
  lemma InitialCardsSpec(r: Refresh)
    ensures var cards := InitialCards(r);
      forall i :: 0 <= i < |cards| ==>
        && cards[i].record.productName == r.catalog[i].name
        && cards[i].record.commission == NA
        && cards[i].record == Processed(r.catalog[i], None, r.k)
    ensures InSync(InitialCards(r), r.favorites)
  {
  }

  /**
   * The refresh's state between events: the local copy the arrivals write into,
   * the table on screen, and the favourites.
   */
  datatype Screen = Screen(updated: seq<Card>, shown: seq<Card>, favorites: seq<string>)

  // ---------------------------------------------------------------------
  // The refresh as intended: every shown flag follows the current favourites

  /**
   * One event, with the arrival corrected. An arrival with a record replaces its
   * slot of the local copy and shows the copy with every flag read from the
   * current favourites; a `null` record changes nothing. A toggle changes the
   * favourites and resyncs the table.
   */
  function Step(r: Refresh, s: Screen, e: Event): (s': Screen)
    requires ValidRefresh(r) && |s.updated| == |r.catalog|
    requires e.Arrival? ==> e.index < |r.catalog|
    ensures |s'.updated| == |r.catalog|
    ensures e.Arrival? && r.details[e.index].None? ==> s' == s
    ensures e.Arrival? ==> forall j :: 0 <= j < |r.catalog| && j != e.index ==> s'.updated[j] == s.updated[j]
    ensures e.Arrival? && r.details[e.index].Some? ==>
      s'.updated[e.index].record == Processed(r.catalog[e.index], r.details[e.index], r.k)
    ensures e.Arrival? ==> s'.favorites == s.favorites
    ensures e.Arrival? && r.details[e.index].Some? ==> s'.shown == Resync(s'.updated, s'.favorites)
    ensures e.ToggleFavorite? ==> s'.favorites == Toggle(s.favorites, e.name) && s'.updated == s.updated
    ensures e.ToggleFavorite? ==> s'.shown == Resync(s.shown, s'.favorites)
  {
    match e
    case Arrival(i) =>
      if r.details[i].Some? then
        var u := s.updated[i := Slot(r, i, r.details[i], s.favorites)];
        Screen(u, Resync(u, s.favorites), s.favorites)
      else s
    case ToggleFavorite(name) =>
      var favs := Toggle(s.favorites, name);
      Screen(s.updated, Resync(s.shown, favs), favs)
  }

  /** The state after a sequence of events under the corrected arrival, from the first table. */
  function Run(r: Refresh, events: seq<Event>): (s: Screen)
    requires ValidRefresh(r) && ValidEvents(r, events)
    ensures |s.updated| == |r.catalog|
  {
    if |events| == 0 then Screen(InitialCards(r), InitialCards(r), r.favorites)
    else Step(r, Run(r, events[..|events| - 1]), events[|events| - 1])
  }

  /** Every prefix of valid events is valid, and extends by the next event. */
  lemma EventsPrefix(r: Refresh, events: seq<Event>, t: nat)
    requires ValidEvents(r, events) && t < |events|
    ensures ValidEvents(r, events[..t]) && ValidEvents(r, events[..t + 1])
    ensures events[..t + 1] == events[..t] + [events[t]]
  {
    assert forall u :: 0 <= u < t + 1 ==> events[..t + 1][u] == events[u];
  }

  /** Whether card `i`'s detail has arrived among `events`. */
  predicate Arrived(events: seq<Event>, i: nat) {
    Arrival(i) in events
  }

  /** The record of card `i`: processed with its detail once that has arrived, without it before. */
  function RecordAfter(r: Refresh, events: seq<Event>, i: nat): ProcessedGiftCard
    requires ValidRefresh(r) && i < |r.catalog|
  {
    Processed(r.catalog[i], if Arrived(events, i) then r.details[i] else None, r.k)
  }

  /**
   * Whatever the order of events: the table is the local copy with every flag
   * read from the current favourites, and each slot holds its card's record,
   * with its detail exactly when that has arrived.
   */
  lemma {:induction false} RunSpec(r: Refresh, events: seq<Event>)
    requires ValidRefresh(r) && ValidEvents(r, events)
    ensures var s := Run(r, events);
      && s.shown == Resync(s.updated, s.favorites)
      && forall i :: 0 <= i < |r.catalog| ==> s.updated[i].record == RecordAfter(r, events, i)
  {
    if |events| == 0 {
      InitialCardsSpec(r);
      ResyncFacts(InitialCards(r), r.favorites, r.favorites);
    } else {
      var init, e := events[..|events| - 1], events[|events| - 1];
      EventsPrefix(r, events, |events| - 1);
      assert events[..|events|] == events;
      RunSpec(r, init);
      var s := Run(r, init);
      assert Run(r, events) == Step(r, s, e);
      assert forall x :: x in events <==> x in init || x == e;
      if e.ToggleFavorite? {
        ResyncFacts(s.updated, s.favorites, Toggle(s.favorites, e.name));
      }
    }
  }

  /** With the corrected arrival, once every detail has arrived, each card shows its detail and a correct flag. */
  lemma RunComplete(r: Refresh, events: seq<Event>)
    requires ValidRefresh(r) && ValidEvents(r, events)
    requires forall i :: 0 <= i < |r.catalog| ==> Arrived(events, i)
    ensures var s := Run(r, events);
      && |s.shown| == |r.catalog|
      && InSync(s.shown, s.favorites)
      && forall i :: 0 <= i < |r.catalog| ==> s.shown[i].record == Processed(r.catalog[i], r.details[i], r.k)
  {
    RunSpec(r, events);
  }

  // ---------------------------------------------------------------------
  // The arrival as written

  /**
   * The arrival as written: the slot is flagged from the favourites captured
   * when the refresh began, and the whole local copy is shown as it is, with no
   * resync. A click toggles the favourites and resyncs the table, as in `Step`.
   */
  function StepAsWritten(r: Refresh, s: Screen, e: Event): (s': Screen)
    requires ValidRefresh(r) && |s.updated| == |r.catalog|
    requires e.Arrival? ==> e.index < |r.catalog|
    ensures |s'.updated| == |r.catalog|
    ensures e.Arrival? && r.details[e.index].None? ==> s' == s
    ensures e.Arrival? ==> forall j :: 0 <= j < |r.catalog| && j != e.index ==> s'.updated[j] == s.updated[j]
    ensures e.Arrival? && r.details[e.index].Some? ==>
      && s'.updated[e.index] == Slot(r, e.index, r.details[e.index], r.favorites)
      && s'.shown == s'.updated
    ensures e.Arrival? ==> s'.favorites == s.favorites
    ensures e.ToggleFavorite? ==>
      s'.favorites == Toggle(s.favorites, e.name) && s'.updated == s.updated && s'.shown == Resync(s.shown, s'.favorites)
  {
    match e
    case Arrival(i) =>
      if r.details[i].Some? then
        var u := s.updated[i := Slot(r, i, r.details[i], r.favorites)];
        Screen(u, u, s.favorites)
      else s
    case ToggleFavorite(name) =>
      var favs := Toggle(s.favorites, name);
      Screen(s.updated, Resync(s.shown, favs), favs)
  }

  /** The state after a sequence of events under the arrival as written, from the first table. */
  function RunAsWritten(r: Refresh, events: seq<Event>): (s: Screen)
    requires ValidRefresh(r) && ValidEvents(r, events)
    ensures |s.updated| == |r.catalog|
  {
    if |events| == 0 then Screen(InitialCards(r), InitialCards(r), r.favorites)
    else StepAsWritten(r, RunAsWritten(r, events[..|events| - 1]), events[|events| - 1])
  }

  /** No favourite was clicked while the details loaded. */
  predicate NoClicks(events: seq<Event>) {
    forall t :: 0 <= t < |events| ==> events[t].Arrival?
  }

  /**
   * What the code as written shows, whatever the order of events: each slot of
   * the local copy holds its card's record, with its detail exactly when that
   * has arrived, flagged from the captured favourites; the table holds the same
   * records, flagged either as the local copy is (after an arrival) or from the
   * current favourites (after a click). Without clicks the favourites do not
   * change and the table is the local copy, in sync.
   */
  lemma {:induction false} RunAsWrittenSpec(r: Refresh, events: seq<Event>)
    requires ValidRefresh(r) && ValidEvents(r, events)
    ensures var s := RunAsWritten(r, events);
      && |s.shown| == |r.catalog|
      && (forall i :: 0 <= i < |r.catalog| ==>
            s.updated[i] == Card(RecordAfter(r, events, i), r.catalog[i].name in r.favorites))
      && (forall i :: 0 <= i < |r.catalog| ==> s.shown[i].record == s.updated[i].record)
      && (s.shown == s.updated || s.shown == Resync(s.updated, s.favorites))
      && (NoClicks(events) ==> s.favorites == r.favorites && s.shown == s.updated)
  {
    if |events| == 0 {
      InitialCardsSpec(r);
    } else {
      var init, e := events[..|events| - 1], events[|events| - 1];
      EventsPrefix(r, events, |events| - 1);
      assert events[..|events|] == events;
      RunAsWrittenSpec(r, init);
      var s := RunAsWritten(r, init);
      assert RunAsWritten(r, events) == StepAsWritten(r, s, e);
      assert forall x :: x in events <==> x in init || x == e;
      assert NoClicks(events) ==> NoClicks(init) by {
        if NoClicks(events) {
          forall t | 0 <= t < |init| ensures init[t].Arrival? {
            assert init[t] == events[t];
          }
        }
      }
      if e.ToggleFavorite? {
        var favs := Toggle(s.favorites, e.name);
        ResyncSameRecords(s.shown, s.updated, favs);
        assert !NoClicks(events) by {
          assert !events[|events| - 1].Arrival?;
        }
      } else if r.details[e.index].Some? {
        ProcessedCopies(r.catalog[e.index], r.details[e.index], r.catalog[e.index], r.details[e.index], r.k);
      }
    }
  }

  /** Without clicks, the code as written and the corrected refresh show the same tables. */
  lemma {:induction false} RunAsWrittenWithoutClicks(r: Refresh, events: seq<Event>)
    requires ValidRefresh(r) && ValidEvents(r, events) && NoClicks(events)
    ensures RunAsWritten(r, events) == Run(r, events)
  {
    if |events| > 0 {
      var init, e := events[..|events| - 1], events[|events| - 1];
      EventsPrefix(r, events, |events| - 1);
      assert events[..|events|] == events;
      assert NoClicks(init) by {
        forall t | 0 <= t < |init| ensures init[t].Arrival? {
          assert init[t] == events[t];
        }
      }
      RunAsWrittenWithoutClicks(r, init);
      RunAsWrittenSpec(r, init);
      var s := Run(r, init);
      assert e.Arrival?;
      if r.details[e.index].Some? {
        var u := s.updated[e.index := Slot(r, e.index, r.details[e.index], r.favorites)];
        forall i | 0 <= i < |u| ensures u[i].isFavorite <==> u[i].record.productName in s.favorites {
          ProcessedCopies(r.catalog[i], r.details[i], r.catalog[i], r.details[i], r.k);
          ProcessedCopies(r.catalog[i], None, r.catalog[i], None, r.k);
        }
        ResyncFacts(u, s.favorites, s.favorites);
      }
    }
  }

  /**
   * Once every detail has arrived, the code as written shows each card processed
   * with its detail, flagged either from the captured favourites or from the
   * current ones; with no clicks, the flags are correct.
   */
  lemma RunAsWrittenComplete(r: Refresh, events: seq<Event>)
    requires ValidRefresh(r) && ValidEvents(r, events)
    requires forall i :: 0 <= i < |r.catalog| ==> Arrived(events, i)
    ensures var s := RunAsWritten(r, events);
      && |s.shown| == |r.catalog|
      && (forall i :: 0 <= i < |r.catalog| ==> s.shown[i].record == Processed(r.catalog[i], r.details[i], r.k))
      && (InSync(s.shown, r.favorites) || InSync(s.shown, s.favorites))
      && (NoClicks(events) ==> s.favorites == r.favorites && InSync(s.shown, s.favorites))
  {
    RunAsWrittenSpec(r, events);
    var s := RunAsWritten(r, events);
    forall i | 0 <= i < |r.catalog| ensures s.updated[i].record.productName == r.catalog[i].name {
      ProcessedCopies(r.catalog[i], r.details[i], r.catalog[i], r.details[i], r.k);
    }
  }

  /**
   * A card favourited while details load loses its flag when its detail
   * arrives: the favourites list holds its name, the table says it is not a
   * favourite, and the resync does not run again until the list changes.
   */
  lemma StaleFlagAsWritten(r: Refresh)
    requires ValidRefresh(r) && |r.catalog| == 1 && r.details[0].Some?
    requires r.catalog[0].name !in r.favorites
    ensures var name := r.catalog[0].name;
      var s0 := Screen(InitialCards(r), InitialCards(r), r.favorites);
      var s1 := StepAsWritten(r, s0, ToggleFavorite(name));
      var s2 := StepAsWritten(r, s1, Arrival(0));
      && name in s2.favorites
      && !s2.shown[0].isFavorite
      && !InSync(s2.shown, s2.favorites)
  {
    var name := r.catalog[0].name;
    ToggleMembership(r.favorites, name);
    ProcessedCopies(r.catalog[0], r.details[0], r.catalog[0], r.details[0], r.k);
  }

  // ---------------------------------------------------------------------
  // The component's state

  /**
   * The message of the TypeError `new DataProcessor` throws for rates without an
   * INR entry, in the wording of the V8 engine; other engines word it differently.
   */
  const MISSING_RATE_MESSAGE := "Cannot read properties of undefined (reading 'USD')"

  class App {
    var giftCards: seq<Card>
    var favorites: seq<string>
    var loading: bool
    var loadingDetails: bool
    var error: Option<string>
    var lastUpdated: Option<int>
    var usdRate: Option<real>

    /** The first render: favourites as saved, loading, nothing else yet. */
    constructor (saved: seq<string>)
      ensures giftCards == [] && favorites == saved
      ensures loading && !loadingDetails && error == None && lastUpdated == None && usdRate == None
    {
      giftCards := [];
      favorites := saved;
      loading := true;
      loadingDetails := false;
      error := None;
      lastUpdated := None;
      usdRate := None;
    }

    /** A click on a favourite button, followed by the resync effect it triggers. */
    method HandleToggleFavorite(name: string)
      modifies this
      ensures favorites == Toggle(old(favorites), name)
      ensures giftCards == Resync(old(giftCards), favorites)
      ensures loading == old(loading) && loadingDetails == old(loadingDetails) && error == old(error)
      ensures lastUpdated == old(lastUpdated) && usdRate == old(usdRate)
    {
      favorites := Toggle(favorites, name);
      giftCards := Resync(giftCards, favorites);
    }

    /**
     * `fetchData`. `fetched` is how the parallel fetch of the listing and the
     * rates settled (a failure carries the message of the rejection); `details`
     * holds each card's detail record; `events` are the arrivals, each card at
     * least once, and the clicks in between, in the order they happen; `now`
     * is the clock.
     */
    method FetchData(fetched: Result<(seq<GiftCard>, FxRates), string>,
                     details: seq<Option<ProductDetails>>, events: seq<Event>, now: int)
      modifies this
      requires fetched.Ok? ==> |details| == |fetched.value.0|
      requires forall i :: 0 <= i < |details| ==> PackagesPriced(details[i])
      requires fetched.Ok? && LOCAL_CURRENCY in fetched.value.1 ==> fetched.value.1[LOCAL_CURRENCY].usd > 0.0
      requires fetched.Ok? ==> forall t :: 0 <= t < |events| ==> events[t].Arrival? ==> events[t].index < |details|
      requires fetched.Ok? ==> forall i :: 0 <= i < |details| ==> Arrived(events, i)
      ensures !loading && !loadingDetails
      ensures fetched.Err? ==>
        error == Some(fetched.error) && giftCards == [] && favorites == old(favorites) &&
        lastUpdated == old(lastUpdated) && usdRate == old(usdRate)
      ensures fetched.Ok? && LOCAL_CURRENCY !in fetched.value.1 ==>
        error == Some(MISSING_RATE_MESSAGE) && giftCards == [] && favorites == old(favorites) &&
        lastUpdated == old(lastUpdated) && usdRate == old(usdRate)
      ensures fetched.Ok? && LOCAL_CURRENCY in fetched.value.1 ==>
        var k := 1.0 / fetched.value.1[LOCAL_CURRENCY].usd;
        var s := RunAsWritten(Refresh(fetched.value.0, details, k, old(favorites)), events);
        && error == None && lastUpdated == Some(now)
        && usdRate == (if |fetched.value.0| > 0 then Some(k) else old(usdRate))
        && giftCards == s.shown && favorites == s.favorites
        && |giftCards| == |fetched.value.0|
        && (forall i :: 0 <= i < |giftCards| ==> giftCards[i].record == Processed(fetched.value.0[i], details[i], k))
        && (InSync(giftCards, old(favorites)) || InSync(giftCards, favorites))
        && (NoClicks(events) ==> favorites == old(favorites) && InSync(giftCards, favorites))
    {
      BeginRefresh();
      if fetched.Err? {
        error := Some(fetched.error);
        loading := false;
        loadingDetails := false;
        return;
      }
      var (catalog, fx) := fetched.value;
      if LOCAL_CURRENCY !in fx {
        error := Some(MISSING_RATE_MESSAGE);
        loading := false;
        loadingDetails := false;
        return;
      }
      var processor := new DataProcessor(fx);
      var r := Refresh(catalog, details, processor.inrToUsdRate, favorites);
      var initial := InitialCards(r);
      ShowInitial(initial, now);

      var updated := new Card[|initial|](i requires 0 <= i < |initial| => initial[i]);
      assert updated[..] == initial;
      AwaitDetails(processor, r, updated, events);
      RunAsWrittenComplete(r, events);
      loadingDetails := false;
    }

    /** The start of `fetchData`: loading, no detail fetches pending, no error, an empty table. */
    method BeginRefresh()
      modifies this
      ensures loading && !loadingDetails && error == None && giftCards == []
      ensures favorites == old(favorites) && lastUpdated == old(lastUpdated) && usdRate == old(usdRate)
    {
      loading := true;
      loadingDetails := false;
      error := None;
      giftCards := [];
    }

    /**
     * The table shown at once with the first cards: the rate of the first card,
     * the time, loading over and the detail fetches pending.
     */
    method ShowInitial(initial: seq<Card>, now: int)
      modifies this
      ensures giftCards == initial && lastUpdated == Some(now)
      ensures usdRate == (if |initial| > 0 then Some(initial[0].record.usdRate) else old(usdRate))
      ensures !loading && loadingDetails && error == old(error) && favorites == old(favorites)
    {
      if |initial| > 0 {
        usdRate := Some(initial[0].record.usdRate);
      }
      giftCards := initial;
      lastUpdated := Some(now);
      loading := false;
      loadingDetails := true;
    }

    /**
     * The detail fetches of `fetchData` settling, one event at a time: each
     * arrival processes its card with its record, flags it from the favourites
     * captured in `r`, writes the local copy and shows a copy of it; each click
     * toggles a favourite.
     */
    method AwaitDetails(processor: DataProcessor, r: Refresh, updated: array<Card>, events: seq<Event>)
      requires ValidRefresh(r) && ValidEvents(r, events) && r.k == processor.inrToUsdRate
      requires updated[..] == InitialCards(r) && giftCards == InitialCards(r) && favorites == r.favorites
      requires !loading && loadingDetails
      modifies this, updated
      ensures RunAsWritten(r, events) == Screen(updated[..], giftCards, favorites)
      ensures loading == old(loading) && loadingDetails == old(loadingDetails) && error == old(error)
      ensures lastUpdated == old(lastUpdated) && usdRate == old(usdRate)
    {
      for t := 0 to |events|
        invariant RunAsWritten(r, events[..t]) == Screen(updated[..], giftCards, favorites)
        invariant loading == old(loading) && loadingDetails == old(loadingDetails) && error == old(error)
        invariant lastUpdated == old(lastUpdated) && usdRate == old(usdRate)
      {
        EventsPrefix(r, events, t);
        match events[t]
        case Arrival(i) =>
          if r.details[i].Some? {
            var p := processor.ProcessGiftCard(r.catalog[i], r.details[i]);
            updated[i] := Card(p, p.productName in r.favorites);
            giftCards := updated[..];
          }
        case ToggleFavorite(name) =>
          HandleToggleFavorite(name);
      }
      assert events[..|events|] == events;
    }
  }
}
