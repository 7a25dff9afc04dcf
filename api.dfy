/**
 * The API layer: every request goes through a list of CORS proxy strategies,
 * tried in order until one both answers and unwraps; failed requests are
 * classified by a response interceptor; the three endpoints shape what comes
 * back. The network itself is an input: one request outcome per strategy.
 */
module Api {
  import opened Wrappers
  import opened Strings
  import opened Seqs
  import opened Types

  /** A JSON value as a response body or `JSON.parse` yields it. */
  datatype Json =
    | JNull
    | JBool(b: bool)
    | JNum(x: real)
    | JStr(s: string)
    | JArr(items: seq<Json>)
    | JObj(fields: map<string, Json>)

  /** How a rejected request reaches the interceptor: axios's error code and the response, if any. */
  datatype Failure = Failure(code: string, response: Option<HttpResponse>)

  datatype HttpResponse = HttpResponse(status: nat, statusText: string)

  /** What a failed attempt throws. */
  datatype Error =
    | Message(text: string)      // a `new Error(text)`
    | Rethrown(failure: Failure) // the request's own error, passed on unchanged
    | ParseError(text: string)   // `JSON.parse` rejected `text`

  // ---------------------------------------------------------------------
  // The response-error interceptor

  const NETWORK_MESSAGE := "Network error - please check your internet connection"
  const API_ERROR_PREFIX := "API error: "

  /** The message for an HTTP error status, with the status written in decimal. */
  function ApiErrorText(resp: HttpResponse): string {
    API_ERROR_PREFIX + Decimal(resp.status) + " " + resp.statusText
  }

  /**
   * The interceptor: a network failure first, then an error status (400 or more),
   * otherwise the error itself.
   */
  function Intercept(f: Failure): (e: Error)
    ensures f.code == "ERR_NETWORK" ==> e == Message(NETWORK_MESSAGE)
    ensures f.code != "ERR_NETWORK" && f.response.Some? && f.response.value.status >= 400 ==>
      e == Message(ApiErrorText(f.response.value))
    ensures e.Rethrown? <==>
      f.code != "ERR_NETWORK" && (f.response.None? || f.response.value.status < 400)
    ensures e.Rethrown? ==> e.failure == f
  {
    if f.code == "ERR_NETWORK" then Message(NETWORK_MESSAGE)
    else if f.response.Some? && f.response.value.status >= 400 then Message(ApiErrorText(f.response.value))
    else Rethrown(f)
  }

  /** The status can be read back from an API error message: `parseInt` of what follows the prefix. */
  lemma ApiErrorStatusReadBack(resp: HttpResponse)
    requires resp.status >= 400
    ensures var t := ApiErrorText(resp);
      t[..|API_ERROR_PREFIX|] == API_ERROR_PREFIX && ParseInt(t[|API_ERROR_PREFIX|..]) == Some(resp.status as int)
  {
    var t := ApiErrorText(resp);
    var rest := Decimal(resp.status) + (" " + resp.statusText);
    assert t == API_ERROR_PREFIX + rest;
    assert t[|API_ERROR_PREFIX|..] == rest;
    ParseIntDecimal(resp.status, " " + resp.statusText);
  }

  /** Two error responses that produce the same message carry the same status. */
  lemma InterceptDistinguishesStatus(f1: Failure, f2: Failure)
    requires f1.code != "ERR_NETWORK" && f2.code != "ERR_NETWORK"
    requires f1.response.Some? && f1.response.value.status >= 400
    requires f2.response.Some? && f2.response.value.status >= 400
    requires Intercept(f1) == Intercept(f2)
    ensures f1.response.value.status == f2.response.value.status
  {
    ApiErrorStatusReadBack(f1.response.value);
    ApiErrorStatusReadBack(f2.response.value);
  }

  // ---------------------------------------------------------------------
  // Proxy strategies

  datatype Strategy = CorsProxy | AllOrigins

  /** The strategies, in the order they are tried. */
  const PROXY_STRATEGIES: seq<Strategy> := [CorsProxy, AllOrigins]

  const NO_CONTENTS_MESSAGE := "allorigins returned no contents"

  /** The proxy address for a target, given the target already URI-encoded. */
  function Wrap(s: Strategy, encodedTarget: string): string {
    match s
    case CorsProxy => "https://corsproxy.io/?" + encodedTarget
    case AllOrigins => "https://api.allorigins.win/get?url=" + encodedTarget
  }

  /** Different strategies or different targets never share a proxy address. */
  lemma WrapInjective(s1: Strategy, t1: string, s2: Strategy, t2: string)
    ensures Wrap(s1, t1) == Wrap(s2, t2) ==> s1 == s2 && t1 == t2
  {
    if Wrap(s1, t1) == Wrap(s2, t2) {
      assert s1 == s2 by {
        assert Wrap(s1, t1)[8] == Wrap(s2, t2)[8];
      }
      var n := |Wrap(s1, t1)| - |t1|;
      assert Wrap(s1, t1)[n..] == t1;
      assert Wrap(s2, t2)[n..] == t2;
    }
  }

  /**
   * A strategy's unwrap. The first passes the body through; the second needs an
   * object whose `contents` is a string and yields that string parsed, where
   * `parse` stands for `JSON.parse` (`None` when it throws).
   */
  function Unwrap(s: Strategy, data: Json, parse: string -> Option<Json>): (r: Result<Json, Error>)
    ensures s == CorsProxy ==> r == Ok(data)
    ensures s == AllOrigins && r.Ok? ==>
      data.JObj? && "contents" in data.fields && data.fields["contents"].JStr? &&
      parse(data.fields["contents"].s) == Some(r.value)
    ensures s == AllOrigins && !(data.JObj? && "contents" in data.fields && data.fields["contents"].JStr?) ==>
      r == Err(Message(NO_CONTENTS_MESSAGE))
  {
    match s
    case CorsProxy => Ok(data)
    case AllOrigins =>
      if data.JObj? && "contents" in data.fields && data.fields["contents"].JStr? then
        var text := data.fields["contents"].s;
        match parse(text)
        case Some(j) => Ok(j)
        case None => Err(ParseError(text))
      else Err(Message(NO_CONTENTS_MESSAGE))
  }

  /** One attempt: the request's outcome, then either the interceptor's error or the unwrap. */
  function Attempt(s: Strategy, outcome: Result<Json, Failure>, parse: string -> Option<Json>): Result<Json, Error> {
    match outcome
    case Err(f) => Err(Intercept(f))
    case Ok(data) => Unwrap(s, data, parse)
  }

  /** The error thrown when there are no strategies to try. */
  function AllFailedText(targetUrl: string): string {
    "All CORS proxies failed for: " + targetUrl
  }

  /**
   * `fetchViaProxy`: strategy `i` gets `outcomes[i]` as its request's outcome.
   * The loop returns the first successful attempt; strategies after it are not
   * attempted. When all fail, the last error is thrown, and the generic message
   * only when there was no strategy at all.
   */
  method FetchViaProxy(strategies: seq<Strategy>, outcomes: seq<Result<Json, Failure>>,
                       parse: string -> Option<Json>, targetUrl: string)
    returns (r: Result<Json, Error>, attempted: nat)
    requires |outcomes| == |strategies|
    ensures attempted <= |strategies|
    ensures forall i :: 0 <= i < attempted - 1 ==> Attempt(strategies[i], outcomes[i], parse).Err?
    ensures r.Ok? ==> 0 < attempted && r == Attempt(strategies[attempted - 1], outcomes[attempted - 1], parse)
    ensures r.Err? ==> attempted == |strategies|
    ensures r.Err? && attempted > 0 ==>
      Attempt(strategies[attempted - 1], outcomes[attempted - 1], parse) == r
    ensures r.Err? && attempted == 0 ==> r == Err(Message(AllFailedText(targetUrl)))
  {
    var lastError: Option<Error> := None;
    var i := 0;
    while i < |strategies|
      invariant 0 <= i <= |strategies|
      invariant forall k :: 0 <= k < i ==> Attempt(strategies[k], outcomes[k], parse).Err?
      invariant i == 0 <==> lastError.None?
      invariant i > 0 ==> Err(lastError.value) == Attempt(strategies[i - 1], outcomes[i - 1], parse)
    {
      var attempt := Attempt(strategies[i], outcomes[i], parse);
      if attempt.Ok? {
        return attempt, i + 1;
      }
      lastError := Some(attempt.error);
      i := i + 1;
    }
    attempted := i;
    r := match lastError
      case Some(e) => Err(e)
      case None => Err(Message(AllFailedText(targetUrl)));
  }

  // ---------------------------------------------------------------------
  // The endpoints, on the fetch result already viewed at its type

  /**
   * `getGiftCards`: the products whose currency is "INR", in their order; a
   * response without `products` gives none; a failed fetch is passed on.
   */
  function GetGiftCards(fetched: Result<Option<seq<GiftCard>>, Error>): (r: Result<seq<GiftCard>, Error>)
    ensures fetched.Err? ==> r == Err(fetched.error)
    ensures fetched.Ok? && fetched.value.None? ==> r == Ok([])
    ensures fetched.Ok? && fetched.value.Some? ==> r.Ok?
    ensures fetched.Ok? && fetched.value.Some? ==>
      forall c :: c in r.value <==> c in fetched.value.value && c.currency == "INR"
    ensures fetched.Ok? && fetched.value.Some? ==>
      forall c :: multiset(r.value)[c] == if c.currency == "INR" then multiset(fetched.value.value)[c] else 0
    ensures fetched.Ok? && fetched.value.Some? ==> IsSubseq(r.value, fetched.value.value)
  {
    match fetched
    case Err(e) => Err(e)
    case Ok(products) =>
      var all := match products case Some(ps) => ps case None => [];
      FilterSpec(all, IsInr);
      Ok(Filter(all, IsInr))
  }

  predicate IsInr(c: GiftCard) {
    c.currency == "INR"
  }

  /** A listing that is all INR comes back whole. */
  lemma GetGiftCardsAllInr(products: seq<GiftCard>)
    requires forall i :: 0 <= i < |products| ==> products[i].currency == "INR"
    ensures GetGiftCards(Ok(Some(products))) == Ok(products)
  {
    FilterAll(products, IsInr);
  }

  /** `getProductDetails`: never fails; a failed fetch becomes `null` (`None`). */
  function GetProductDetails(fetched: Result<ProductDetails, Error>): (r: Option<ProductDetails>)
    ensures r.None? <==> fetched.Err?
    ensures r.Some? ==> r.value == fetched.value
  {
    match fetched
    case Ok(d) => Some(d)
    case Err(_) => None
  }

  /** `getFXRates`: the fetch result, failure included, is passed on as it is. */
  function GetFxRates(fetched: Result<FxRates, Error>): (r: Result<FxRates, Error>)
    ensures r.Err? <==> fetched.Err?
    ensures r.Err? ==> r.error == fetched.error
    ensures r.Ok? ==> r.value == fetched.value
  {
    fetched
  }
}
