# Exchange-rate providers and best-rate conversion, modelled in Dafny

This project models the decision logic of a small Django service that collects
currency rates from five providers and converts amounts at the best stored rate.
It covers two parts:

- **The provider adapters** (`exchange/exchange_provider.py`): `MonoExchange`,
  `PrivatExchange`, `VkurseExchange`, `NBUExchange` and `CurrencyAPIExchange`.
  Each adapter is built with a vendor name and a currency pair. Its `get_rate`
  scans the provider's decoded JSON answer for that pair and fills the object's
  `pair` slot with a `SellBuy(sell, buy)`.
- **The conversion view** `display` (`exchange/views.py`). It finds the first
  conversion button the POST carries. It filters today's stored `Rate` rows by
  `currency_a`. It takes the row with the highest `buy` ("USD to UAH",
  "EUR to UAH") or the lowest `sell` ("UAH to USD", "UAH to EUR"). It answers
  `{vendor: amount * buy}` or `{vendor: amount / sell}`.

Files:

| file | module | content |
|---|---|---|
| `wrappers.dfy` | `Wrappers` | `Option` and `Result` |
| `scan.dfy` | `Scan` | the two loop shapes of the adapters: stop at the first hit (`ScanFirst`), or let the last hit overwrite the slot (`ScanLast`); `FirstWhere` is the point where an exception ends a loop |
| `provider.dfy` | `Provider` | `ExchangeCodes`, `SellBuy`, the object state `Exchange`, and one `…GetRate` per adapter |
| `provider_facts.dfy` | `ProviderFacts` | lemmas relating several adapter calls |
| `best_rate.dfy` | `BestRate` | stored `Record`s, buttons, candidate filter, max-buy / min-sell selection, `Convert`, `Display` |
| `best_rate_facts.dfy` | `BestRateFacts` | lemmas about `order_by`, ties, button priority, worked cases |

How the system's inputs are represented:

- **Network call.** It becomes a `Reply(status, body)` parameter. The body is
  the decoded JSON as a sequence of typed entries, in JSON order.
- **HTTP errors.** `raise_for_status` fails for 400 ≤ status < 600.
- **`get_rate`.** It is a pure function from the object's state and the reply
  to an `Attempt`: the state after the call, plus the exception raised, if any.
  The state is kept after an exception because the loops write the slot entry
  by entry. A call on an object whose slot is already filled keeps the old
  quote when nothing matches. `Outcome` gives the caller's view:
  `Result<Option<SellBuy>, FetchError>`.
- **`display`.** The `Rate` table becomes `seq<Record>` and
  `datetime.date.today()` becomes a `today` parameter. The request is reduced
  to its method, its posted field names and the parsed `amount`.
- **Numbers.** Rates and amounts are `real`.

Behaviour of the code worth knowing:

- Only Mono keeps the first matching entry. Privat, Vkurse, NBU and CurrencyAPI
  keep the last one, because their loops have no early exit.
- The best-rate view does not filter on `currency_b`. `OtherQuoteCurrencyCompetes`
  shows that a USD/EUR row can win "UAH to USD".
- An empty candidate set is an `IndexError` in the code. It is modelled as
  `NoRateAvailable`, and a zero or default amount is never produced.
- Inverting a zero NBU rate, and dividing by a zero best `sell` in the view,
  raise `ZeroDivisionError`. Both are modelled as `DivisionByZero`.

## Model

| member | source | states |
|---|---|---|
| Provider.NumericCode | exchange/exchange_provider.py:8-11 | USD maps to 840, EUR to 978, UAH to 980, and no other name has a code |
| Provider.AlphaCode | exchange/exchange_provider.py:8-11 | 840 maps to USD, 978 to EUR, 980 to UAH, and no other number has a name; no code path of the program reads the enum by value, so this is the table read backwards |
| ProviderFacts.CodeTableIsBijective | exchange/exchange_provider.py:8-11 | the enum read by name and read by value are inverse to each other |
| Provider.NewExchange | exchange/exchange_provider.py:25-29 | a new provider keeps vendor, currency_a and currency_b as given, with an empty slot |
| Provider.MonoGetRate | exchange/exchange_provider.py:36-48 | an unknown currency_a, then an unknown currency_b, raises before anything else; then an HTTP error leaves the object unchanged; otherwise the first entry whose two numeric codes equal the translated pair sets sell=rateSell, buy=rateBuy; with no such entry the slot keeps its content; vendor, currency_a and currency_b never change |
| ProviderFacts.MonoCodesCheckedFirst | exchange/exchange_provider.py:38-41 | with an unknown code the outcome does not depend on the provider's answer at all |
| ProviderFacts.MonoKeepsEarlier | exchange/exchange_provider.py:42-48 | once a matching entry is reached, later matching entries are ignored |
| Provider.PrivatGetRate | exchange/exchange_provider.py:51-59 | an HTTP error leaves the object unchanged; otherwise the last entry with ccy=currency_a and base_ccy=currency_b sets sell=sale, buy=buy; with none the slot keeps its content; no exception on a good status |
| ProviderFacts.PrivatKeepsLater | exchange/exchange_provider.py:57-59 | a matching entry followed only by non-matching ones decides the slot, whatever came before |
| Provider.VkurseName | exchange/exchange_provider.py:68-73 | USD is named "Dollar", EUR "Euro", and no other currency has a name |
| Provider.VkurseGetRate | exchange/exchange_provider.py:62-77 | an HTTP error leaves the object unchanged; a currency_a other than USD/EUR leaves the slot as it was; otherwise the last key naming currency_a sets sell from the provider's buy and buy from its sale |
| ProviderFacts.VkurseIgnoresCurrencyB | exchange/exchange_provider.py:67-77 | changing currency_b changes neither the slot nor the exception |
| ProviderFacts.VkurseIsLookup | exchange/exchange_provider.py:67-77 | with distinct keys, as in a JSON object, the slot is the entry named for currency_a, buy and sale swapped |
| Provider.NbuQuote | exchange/exchange_provider.py:88-91 | sell equals buy; the direct branch gives the published rate; the inverted branch gives a value whose product with the rate is 1 |
| Provider.NbuGetRate | exchange/exchange_provider.py:80-91 | an HTTP error leaves the object unchanged; otherwise DivisionByZero is raised exactly when some entry would invert a zero rate; among the entries handled before that, the last one that matches (cc=currency_a first, else base UAH and cc=currency_b) sets the slot; with none the slot keeps its content |
| ProviderFacts.NbuInversion | exchange/exchange_provider.py:87-91 | with one published USD rate R≠0 and no UAH entry, USD/UAH yields sell=buy=R and UAH/USD yields sell=buy=1/R, both as successful outcomes |
| ProviderFacts.NbuDirectBranchFirst | exchange/exchange_provider.py:88-90 | when an entry satisfies both branches, the direct rate is used, not its inverse |
| ProviderFacts.NbuZeroRateStopsTheLoop | exchange/exchange_provider.py:87-91 | a zero rate in the inverted branch raises, later entries are never read, and the slot holds what the earlier entries wrote |
| ProviderFacts.NbuIgnoresCurrencyBUnlessUah | exchange/exchange_provider.py:88-90 | when currency_a is not UAH, currency_b influences neither slot nor exception |
| Provider.CurrencyApiGetRate | exchange/exchange_provider.py:94-105 | an HTTP error leaves the object unchanged; otherwise the last `data` key equal to currency_a sets sell=buy=value; with none the slot keeps its content |
| ProviderFacts.CurrencyApiIgnoresCurrencyB | exchange/exchange_provider.py:101-105 | changing currency_b changes neither the slot nor the exception |
| ProviderFacts.CurrencyApiIsLookup | exchange/exchange_provider.py:101-105 | with distinct keys the slot is `data[currency_a]["value"]` on both sides |
| ProviderFacts.AbsentPairIsNotAnError | exchange/exchange_provider.py:29 | on a good status with no matching entry, a fresh Privat, Vkurse or CurrencyAPI object reports the pair absent and raises nothing |
| Scan.ScanFirst | exchange/exchange_provider.py:42-48 | with no hit the slot keeps its prior content; otherwise the result is what the first hitting entry yields |
| Scan.ScanLast | exchange/exchange_provider.py:57-59 | with no hit the slot keeps its prior content; otherwise the result is what the last hitting entry yields |
| Scan.FirstWhere | exchange/exchange_provider.py:87-91 | the index where the loop is interrupted: no earlier entry raises, and the entry there does |
| Scan.LastHitDecides | exchange/exchange_provider.py:57-59 | whatever the slot held before, the last hit alone decides the result |
| Scan.FirstHitDecides | exchange/exchange_provider.py:45-48 | whatever the slot held before, the first hit alone decides the result |
| Scan.ScanLastPointwise | exchange/exchange_provider.py:87-91 | two entry tests that agree on every scanned entry give the same result |
| Provider.Outcome | exchange/exchange_provider.py:36-105 | the caller sees a failure carrying the raised exception exactly when one was raised, and otherwise the slot |
| BestRate.Pressed | exchange/views.py:43-79 | the chosen button is posted and no button earlier in the order USD→UAH, EUR→UAH, UAH→USD, UAH→EUR is; no button is chosen exactly when none is posted |
| BestRate.Candidates | exchange/views.py:45-50 | the query holds each row dated today with the button's currency_a exactly as often as it is stored, and nothing else; currency_b is not consulted |
| BestRate.CandidatesMembership | exchange/views.py:57-62 | a row is a candidate iff it is stored, dated today, and has the requested currency_a |
| BestRate.BestBuyIndex | exchange/views.py:49-52 | the selected row's buy is at least every candidate's buy; among equal buys the later row is taken |
| BestRate.BestSellIndex | exchange/views.py:73-76 | the selected row's sell is at most every candidate's sell; among equal sells the earlier row is taken |
| BestRate.SelectedIsBest | exchange/views.py:61-64 | the selected row is stored, eligible, and extreme among all eligible stored rows |
| BestRate.BestOffersAgree | exchange/views.py:85-88 | two best offers for one button have the same deciding rate |
| BestRate.Best | exchange/views.py:69-76 | a winner exists exactly when some eligible row is stored, and the winner is a best offer |
| BestRate.Convert | exchange/views.py:44-90 | NoRateAvailable exactly when no eligible row exists; DivisionByZero exactly when a from-UAH button's best sell is 0; otherwise vendor and amount come from one best row: amount*buy towards UAH, amount/sell from UAH |
| BestRate.Display | exchange/views.py:39-93 | the form page exactly when the request is not a POST with amount ≥ 0.01; no answer exactly when such a POST names no button; otherwise the answer or exception of the first posted button's conversion |
| BestRateFacts.ArrangementMembers | exchange/views.py:45-50 | any reordering of the query result holds exactly the eligible rows |
| BestRateFacts.OrderByBuyTakesBest | exchange/views.py:49-53 | the last row of any ascending-by-buy order of the candidates is a best offer, and the answered amount is amount times its buy |
| BestRateFacts.OrderBySellTakesBest | exchange/views.py:73-77 | the first row of any ascending-by-sell order of the candidates is a best offer; division by zero happens exactly when its sell is 0, and otherwise the answered amount is amount divided by its sell |
| BestRateFacts.SameRateSameResult | exchange/views.py:53-77 | the formula depends only on the deciding rate of the row |
| BestRateFacts.ResultFromAnyBestOffer | exchange/views.py:51-53 | the converted amount is the same for every best offer, so ties change at most the vendor name |
| BestRateFacts.FirstButtonWins | exchange/views.py:43-54 | a valid POST naming "USD to UAH" is answered by that conversion, whatever other buttons it names |
| BestRateFacts.NothingStoredIsNoRate | exchange/views.py:51-52 | with no row for today, a valid POST naming a button ends in NoRateAvailable, never in a zero amount |
| BestRateFacts.UsdToUahExample | exchange/views.py:43-54 | 100 USD with stored buys 36.5 (vendorA) and 36.9 (vendorB) is answered {vendorB: 3690} |
| BestRateFacts.OtherQuoteCurrencyCompetes | exchange/views.py:69-77 | a stored USD/EUR row with sell 1.1 beats a USD/UAH row with sell 37 for "UAH to USD" |

## Left out

- Network I/O: `requests.get`, the endpoint URLs and the API key. The answer is a `Reply` parameter.
- Transport exceptions other than `raise_for_status` (connection errors, timeouts) are not modelled.
- Malformed answers are not modelled. This covers a missing field (`KeyError`), a non-numeric string passed to `float()` (`ValueError`) and a body of the wrong JSON type. Entries are typed records with the fields present.
- Floating point is not modelled: `float`, `Decimal` → `float` conversion, rounding, infinities and NaN. Rates and amounts are `real`.
- The abstract `ExchangeBase.get_rate` raising `NotImplementedError` is not modelled: the base class is never used on its own.
- `index`, `heroku_start`, the pass-through JSON views (`privat`, `monobank`, `vkurse`, `currencyapi`, `nbu`), `DecimalAsFloatJSONEncoder`, JSON response encoding, template rendering and URL routing are not modelled. They only relay or present data.
- `ExchangeForm` is reduced to "an amount of at least 0.01 was parsed"; field parsing and error messages are not modelled.
- The code that writes fetched rates into the `Rate` table is not part of the modelled files; `display` reads that table, which is given as a `seq<Record>`.
- A provider registry, concurrent fetching and per-provider failure isolation do not exist in this code and are not modelled.
- BestRate.BestBuyIndex: the database does not fix the order of rows with equal `buy`, so the row the code picks among ties is not determined. The model takes the last tied row in storage order. `OrderByBuyTakesBest` and `ResultFromAnyBestOffer` show that any order gives a best row and the same amount, so only the vendor name among tied rows is a modelling choice.
- BestRate.BestSellIndex: likewise for equal `sell`. The model takes the first tied row in storage order, and `OrderBySellTakesBest` covers any order.
- Duplicate keys in a JSON object: Vkurse and CurrencyAPI answers are modelled as entry sequences, which can repeat a key. `VkurseIsLookup` and `CurrencyApiIsLookup` give the behaviour for distinct keys, which is what a real JSON object has.
