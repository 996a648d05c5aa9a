/**
  The exchange-rate providers of `exchange/exchange_provider.py`.

  Each provider object is built with a vendor name and a currency pair and owns one slot,
  `pair`, that `get_rate` may fill with a `SellBuy`. The network call is replaced by its
  answer, a `Reply` carrying the HTTP status and the decoded JSON body as a sequence of
  typed entries in the order the JSON lists them. `get_rate` becomes a function from the
  object's state and the reply to an `Attempt`: the state after the call and the exception
  it raised, if any. Keeping the state after an exception matters because the loops assign
  the slot entry by entry.
 */
module Provider {
  import opened Wrappers
  import Scan

  /** The `ExchangeCodes` enum: ISO 4217 alpha code to numeric code. */
  function NumericCode(alpha: string): (n: Option<int>)
    ensures n.Some? <==> alpha in {"USD", "EUR", "UAH"}
    ensures n == Some(840) <==> alpha == "USD"
    ensures n == Some(978) <==> alpha == "EUR"
    ensures n == Some(980) <==> alpha == "UAH"
  {
    if alpha == "USD" then Some(840)
    else if alpha == "EUR" then Some(978)
    else if alpha == "UAH" then Some(980)
    else None
  }

  /** The enum read the other way round: numeric code to alpha code (the program itself only reads it by name). */
  function AlphaCode(n: int): (alpha: Option<string>)
    ensures alpha.Some? <==> n in {840, 978, 980}
    ensures alpha == Some("USD") <==> n == 840
    ensures alpha == Some("EUR") <==> n == 978
    ensures alpha == Some("UAH") <==> n == 980
  {
    if n == 840 then Some("USD")
    else if n == 978 then Some("EUR")
    else if n == 980 then Some("UAH")
    else None
  }

  /** A sell/buy quote, in currency_b per unit of currency_a. */
  datatype SellBuy = SellBuy(sell: real, buy: real)

  /** The state of an `ExchangeBase` object. */
  datatype Exchange = Exchange(vendor: string, currencyA: string, currencyB: string, pair: Option<SellBuy>)

  /** The constructor: the slot starts empty. */
  function NewExchange(vendor: string, currencyA: string, currencyB: string): (ex: Exchange)
    ensures ex.pair.None?
    ensures ex.vendor == vendor && ex.currencyA == currencyA && ex.currencyB == currencyB
  {
    Exchange(vendor, currencyA, currencyB, None)
  }

  /** What an HTTP GET answered: the status code and the decoded body. */
  datatype Reply<B> = Reply(status: int, body: B)

  /** `raise_for_status` raises for client errors (4xx) and server errors (5xx). */
  predicate HttpError(status: int) {
    400 <= status < 600
  }

  /** The exceptions `get_rate` can raise on a well-formed body. */
  datatype FetchError =
    | UnknownCurrency(code: string)   // KeyError from `ExchangeCodes[...]`
    | HttpStatus(status: int)         // HTTPError from `raise_for_status`
    | DivisionByZero                  // ZeroDivisionError from `1 / rate`

  /** The object's state after `get_rate`, and the exception it raised, if any. */
  datatype Attempt = Attempt(state: Exchange, raised: Option<FetchError>)

  /** The call as a caller sees it: the filled slot, or the exception. */
  function Outcome(at: Attempt): (r: Result<Option<SellBuy>, FetchError>)
    ensures r.Failure? <==> at.raised.Some?
    ensures at.raised.Some? ==> r == Failure(at.raised.value)
    ensures r.Success? ==> r.value == at.state.pair
  {
    match at.raised
    case Some(e) => Failure(e)
    case None => Success(at.state.pair)
  }

  /** `get_rate` assigns only the slot: vendor and currency pair keep their constructor values. */
  predicate SameSetup(ex: Exchange, ex': Exchange) {
    ex.vendor == ex'.vendor && ex.currencyA == ex'.currencyA && ex.currencyB == ex'.currencyB
  }

  // ---------------------------------------------------------------------------
  // Mono: ISO numeric codes, first matching entry wins.

  datatype MonoEntry = MonoEntry(currencyCodeA: int, currencyCodeB: int, rateSell: real, rateBuy: real)

  /** The entry quotes the requested pair, both codes translated through the enum. */
  predicate MonoMatches(ex: Exchange, e: MonoEntry) {
    NumericCode(ex.currencyA) == Some(e.currencyCodeA) && NumericCode(ex.currencyB) == Some(e.currencyCodeB)
  }

  function MonoPick(aCode: int, bCode: int): MonoEntry -> Option<SellBuy> {
    (e: MonoEntry) => if e.currencyCodeA == aCode && e.currencyCodeB == bCode then Some(SellBuy(e.rateSell, e.rateBuy)) else None
  }

  function MonoGetRate(ex: Exchange, reply: Reply<seq<MonoEntry>>): (r: Attempt)
    ensures SameSetup(ex, r.state)
    ensures NumericCode(ex.currencyA).None? ==> r == Attempt(ex, Some(UnknownCurrency(ex.currencyA)))
    ensures NumericCode(ex.currencyA).Some? && NumericCode(ex.currencyB).None? ==>
              r == Attempt(ex, Some(UnknownCurrency(ex.currencyB)))
    ensures NumericCode(ex.currencyA).Some? && NumericCode(ex.currencyB).Some? && HttpError(reply.status) ==>
              r == Attempt(ex, Some(HttpStatus(reply.status)))
    ensures r.raised.None? <==>
              NumericCode(ex.currencyA).Some? && NumericCode(ex.currencyB).Some? && !HttpError(reply.status)
    ensures r.raised.None? && (forall i | 0 <= i < |reply.body| :: !MonoMatches(ex, reply.body[i])) ==>
              r.state.pair == ex.pair
    ensures r.raised.None? ==>
              forall i | 0 <= i < |reply.body| && MonoMatches(ex, reply.body[i])
                         && (forall j | 0 <= j < i :: !MonoMatches(ex, reply.body[j])) ::
                r.state.pair == Some(SellBuy(reply.body[i].rateSell, reply.body[i].rateBuy))
  {
    match (NumericCode(ex.currencyA), NumericCode(ex.currencyB))
    case (None, _) => Attempt(ex, Some(UnknownCurrency(ex.currencyA)))
    case (_, None) => Attempt(ex, Some(UnknownCurrency(ex.currencyB)))
    case (Some(aCode), Some(bCode)) =>
      if HttpError(reply.status) then Attempt(ex, Some(HttpStatus(reply.status)))
      else
        var pick := MonoPick(aCode, bCode);
        var pair := Scan.ScanFirst(reply.body, pick, ex.pair);
        assert forall e :: pick(e).Some? <==> MonoMatches(ex, e);
        assert forall i | Scan.IsFirstHit(reply.body, pick, i) ::
          pair == Some(SellBuy(reply.body[i].rateSell, reply.body[i].rateBuy)) by {
          forall i | Scan.IsFirstHit(reply.body, pick, i)
            ensures pair == Some(SellBuy(reply.body[i].rateSell, reply.body[i].rateBuy))
          {
            Scan.FirstHitDecides(reply.body, pick, ex.pair, i);
          }
        }
        Attempt(ex.(pair := pair), None)
  }

  // ---------------------------------------------------------------------------
  // Privat: ISO alpha codes on both sides, last matching entry wins.

  datatype PrivatEntry = PrivatEntry(ccy: string, baseCcy: string, buy: real, sale: real)

  predicate PrivatMatches(ex: Exchange, e: PrivatEntry) {
    e.ccy == ex.currencyA && e.baseCcy == ex.currencyB
  }

  function PrivatPick(ex: Exchange): PrivatEntry -> Option<SellBuy> {
    (e: PrivatEntry) => if PrivatMatches(ex, e) then Some(SellBuy(e.sale, e.buy)) else None
  }

  function PrivatGetRate(ex: Exchange, reply: Reply<seq<PrivatEntry>>): (r: Attempt)
    ensures SameSetup(ex, r.state)
    ensures HttpError(reply.status) ==> r == Attempt(ex, Some(HttpStatus(reply.status)))
    ensures !HttpError(reply.status) ==> r.raised.None?
    ensures !HttpError(reply.status) && (forall i | 0 <= i < |reply.body| :: !PrivatMatches(ex, reply.body[i])) ==>
              r.state.pair == ex.pair
    ensures !HttpError(reply.status) ==>
              forall i | 0 <= i < |reply.body| && PrivatMatches(ex, reply.body[i])
                         && (forall j | i < j < |reply.body| :: !PrivatMatches(ex, reply.body[j])) ::
                r.state.pair == Some(SellBuy(reply.body[i].sale, reply.body[i].buy))
  {
    if HttpError(reply.status) then Attempt(ex, Some(HttpStatus(reply.status)))
    else
      var pick := PrivatPick(ex);
      var pair := Scan.ScanLast(reply.body, pick, ex.pair);
      assert forall e :: pick(e).Some? <==> PrivatMatches(ex, e);
      assert forall i | Scan.IsLastHit(reply.body, pick, i) ::
        pair == Some(SellBuy(reply.body[i].sale, reply.body[i].buy)) by {
        forall i | Scan.IsLastHit(reply.body, pick, i)
          ensures pair == Some(SellBuy(reply.body[i].sale, reply.body[i].buy))
        {
          Scan.LastHitDecides(reply.body, pick, ex.pair, i);
        }
      }
      Attempt(ex.(pair := pair), None)
  }

  // ---------------------------------------------------------------------------
  // Vkurse: a JSON object keyed by currency name; only currency_a is looked at.

  /** One key of the response object with its `buy` and `sale` fields. */
  datatype VkurseEntry = VkurseEntry(name: string, buy: real, sale: real)

  /** The names this provider uses for the alpha codes it knows. */
  function VkurseName(alpha: string): (name: Option<string>)
    ensures name.Some? <==> alpha in {"USD", "EUR"}
    ensures name == Some("Dollar") <==> alpha == "USD"
    ensures name == Some("Euro") <==> alpha == "EUR"
  {
    if alpha == "USD" then Some("Dollar")
    else if alpha == "EUR" then Some("Euro")
    else None
  }

  predicate VkurseMatches(currencyA: string, e: VkurseEntry) {
    VkurseName(currencyA) == Some(e.name)
  }

  /** The provider's `buy` becomes the slot's `sell` and its `sale` the slot's `buy`. */
  function VkursePick(currencyA: string): VkurseEntry -> Option<SellBuy> {
    (e: VkurseEntry) => if VkurseMatches(currencyA, e) then Some(SellBuy(e.buy, e.sale)) else None
  }

  function VkurseGetRate(ex: Exchange, reply: Reply<seq<VkurseEntry>>): (r: Attempt)
    ensures SameSetup(ex, r.state)
    ensures HttpError(reply.status) ==> r == Attempt(ex, Some(HttpStatus(reply.status)))
    ensures !HttpError(reply.status) ==> r.raised.None?
    ensures !HttpError(reply.status) && ex.currencyA !in {"USD", "EUR"} ==> r.state.pair == ex.pair
    ensures !HttpError(reply.status) && (forall i | 0 <= i < |reply.body| :: !VkurseMatches(ex.currencyA, reply.body[i])) ==>
              r.state.pair == ex.pair
    ensures !HttpError(reply.status) ==>
              forall i | 0 <= i < |reply.body| && VkurseMatches(ex.currencyA, reply.body[i])
                         && (forall j | i < j < |reply.body| :: !VkurseMatches(ex.currencyA, reply.body[j])) ::
                r.state.pair == Some(SellBuy(reply.body[i].buy, reply.body[i].sale))
  {
    if HttpError(reply.status) then Attempt(ex, Some(HttpStatus(reply.status)))
    else
      var pick := VkursePick(ex.currencyA);
      var pair := Scan.ScanLast(reply.body, pick, ex.pair);
      assert forall e :: pick(e).Some? <==> VkurseMatches(ex.currencyA, e);
      assert forall i | Scan.IsLastHit(reply.body, pick, i) ::
        pair == Some(SellBuy(reply.body[i].buy, reply.body[i].sale)) by {
        forall i | Scan.IsLastHit(reply.body, pick, i)
          ensures pair == Some(SellBuy(reply.body[i].buy, reply.body[i].sale))
        {
          Scan.LastHitDecides(reply.body, pick, ex.pair, i);
        }
      }
      Attempt(ex.(pair := pair), None)
  }

  // ---------------------------------------------------------------------------
  // NBU: one published rate per currency against UAH, inverted when UAH is the base.

  datatype NbuEntry = NbuEntry(cc: string, rate: real)

  /** The first branch: the entry publishes currency_a itself. */
  predicate NbuDirect(ex: Exchange, e: NbuEntry) {
    e.cc == ex.currencyA
  }

  /** The second branch, tried only when the first does not apply. */
  predicate NbuInverse(ex: Exchange, e: NbuEntry) {
    !NbuDirect(ex, e) && ex.currencyA == "UAH" && e.cc == ex.currencyB
  }

  predicate NbuMatches(ex: Exchange, e: NbuEntry) {
    NbuDirect(ex, e) || NbuInverse(ex, e)
  }

  /** Inverting a zero rate raises `ZeroDivisionError` and ends the loop. */
  predicate NbuFaults(ex: Exchange, e: NbuEntry) {
    NbuInverse(ex, e) && e.rate == 0.0
  }

  /** The quote a matching entry writes into the slot. */
  function NbuQuote(ex: Exchange, e: NbuEntry): (q: SellBuy)
    requires NbuMatches(ex, e) && !NbuFaults(ex, e)
    ensures q.sell == q.buy
    ensures NbuDirect(ex, e) ==> q.sell == e.rate
    ensures NbuInverse(ex, e) ==> q.sell * e.rate == 1.0
  {
    if NbuDirect(ex, e) then SellBuy(e.rate, e.rate) else SellBuy(1.0 / e.rate, 1.0 / e.rate)
  }

  function NbuPick(ex: Exchange): NbuEntry -> Option<SellBuy> {
    (e: NbuEntry) => if NbuMatches(ex, e) && !NbuFaults(ex, e) then Some(NbuQuote(ex, e)) else None
  }

  /** Entry `i` was handled without an exception: no entry up to and including it faulted. */
  ghost predicate NbuProcessed(ex: Exchange, body: seq<NbuEntry>, i: int) {
    0 <= i < |body| && forall j | 0 <= j <= i :: !NbuFaults(ex, body[j])
  }

  function NbuGetRate(ex: Exchange, reply: Reply<seq<NbuEntry>>): (r: Attempt)
    ensures SameSetup(ex, r.state)
    ensures HttpError(reply.status) ==> r == Attempt(ex, Some(HttpStatus(reply.status)))
    ensures !HttpError(reply.status) ==>
              (r.raised.None? <==> forall i | 0 <= i < |reply.body| :: !NbuFaults(ex, reply.body[i]))
    ensures !HttpError(reply.status) ==> r.raised.None? || r.raised == Some(DivisionByZero)
    ensures !HttpError(reply.status) &&
            (forall i | NbuProcessed(ex, reply.body, i) :: !NbuMatches(ex, reply.body[i])) ==>
              r.state.pair == ex.pair
    ensures !HttpError(reply.status) ==>
              forall i | NbuProcessed(ex, reply.body, i) && NbuMatches(ex, reply.body[i])
                         && (forall j | i < j && NbuProcessed(ex, reply.body, j) :: !NbuMatches(ex, reply.body[j])) ::
                r.state.pair == Some(NbuQuote(ex, reply.body[i]))
  {
    if HttpError(reply.status) then Attempt(ex, Some(HttpStatus(reply.status)))
    else
      var body := reply.body;
      var k := Scan.FirstWhere(body, (e: NbuEntry) => NbuFaults(ex, e));
      var pick := NbuPick(ex);
      var pair := Scan.ScanLast(body[..k], pick, ex.pair);
      assert forall i | 0 <= i < |body| :: NbuProcessed(ex, body, i) <==> i < k;
      assert forall i | 0 <= i < k :: body[..k][i] == body[i];
      assert forall i | NbuProcessed(ex, body, i) && NbuMatches(ex, body[i])
                        && (forall j | i < j && NbuProcessed(ex, body, j) :: !NbuMatches(ex, body[j])) ::
        pair == Some(NbuQuote(ex, body[i])) by {
        forall i | NbuProcessed(ex, body, i) && NbuMatches(ex, body[i])
                   && (forall j | i < j && NbuProcessed(ex, body, j) :: !NbuMatches(ex, body[j]))
          ensures pair == Some(NbuQuote(ex, body[i]))
        {
          assert Scan.IsLastHit(body[..k], pick, i);
          Scan.LastHitDecides(body[..k], pick, ex.pair, i);
        }
      }
      Attempt(ex.(pair := pair), if k < |body| then Some(DivisionByZero) else None)
  }

  // ---------------------------------------------------------------------------
  // CurrencyAPI: a `data` object keyed by alpha code; only currency_a is looked at.

  /** One key of the `data` object with its `value` field. */
  datatype CurrencyApiEntry = CurrencyApiEntry(code: string, value: real)

  function CurrencyApiPick(currencyA: string): CurrencyApiEntry -> Option<SellBuy> {
    (e: CurrencyApiEntry) => if e.code == currencyA then Some(SellBuy(e.value, e.value)) else None
  }

  function CurrencyApiGetRate(ex: Exchange, reply: Reply<seq<CurrencyApiEntry>>): (r: Attempt)
    ensures SameSetup(ex, r.state)
    ensures HttpError(reply.status) ==> r == Attempt(ex, Some(HttpStatus(reply.status)))
    ensures !HttpError(reply.status) ==> r.raised.None?
    ensures !HttpError(reply.status) && (forall i | 0 <= i < |reply.body| :: reply.body[i].code != ex.currencyA) ==>
              r.state.pair == ex.pair
    ensures !HttpError(reply.status) ==>
              forall i | 0 <= i < |reply.body| && reply.body[i].code == ex.currencyA
                         && (forall j | i < j < |reply.body| :: reply.body[j].code != ex.currencyA) ::
                r.state.pair == Some(SellBuy(reply.body[i].value, reply.body[i].value))
  {
    if HttpError(reply.status) then Attempt(ex, Some(HttpStatus(reply.status)))
    else
      var pick := CurrencyApiPick(ex.currencyA);
      var pair := Scan.ScanLast(reply.body, pick, ex.pair);
      assert forall e :: pick(e).Some? <==> e.code == ex.currencyA;
      assert forall i | Scan.IsLastHit(reply.body, pick, i) ::
        pair == Some(SellBuy(reply.body[i].value, reply.body[i].value)) by {
        forall i | Scan.IsLastHit(reply.body, pick, i)
          ensures pair == Some(SellBuy(reply.body[i].value, reply.body[i].value))
        {
          Scan.LastHitDecides(reply.body, pick, ex.pair, i);
        }
      }
      Attempt(ex.(pair := pair), None)
  }
}
