/**
  The conversion view `display` of `exchange/views.py`.

  The stored `Rate` rows become a sequence of `Record`s and the current date a parameter.
  A POST request names the pressed button among its fields; the view converts the form's
  amount at the best rate stored for today and answers `{vendor: result}`.
 */
module BestRate {
  import opened Wrappers

  /** A calendar day; only equality with "today" is ever used. */
  type Date = int

  /** One stored `Rate` row. */
  datatype Record = Record(id: int, date: Date, vendor: string, currencyA: string, currencyB: string, sell: real, buy: real)

  /** The four submit buttons of the conversion form, in the order the view tests them. */
  datatype Button = UsdToUah | EurToUah | UahToUsd | UahToEur {

    /** The name the button posts. */
    function Label(): string {
      match this
      case UsdToUah => "USD to UAH"
      case EurToUah => "EUR to UAH"
      case UahToUsd => "UAH to USD"
      case UahToEur => "UAH to EUR"
    }

    /** Position in the view's `if`/`elif` chain. */
    function Rank(): nat {
      match this
      case UsdToUah => 0
      case EurToUah => 1
      case UahToUsd => 2
      case UahToEur => 3
    }

    /** The foreign currency whose rows are consulted: the rows' `currency_a`. */
    function Source(): string {
      if this == UsdToUah || this == UahToUsd then "USD" else "EUR"
    }

    /** The customer sells the foreign currency for UAH: best is the highest `buy`. */
    predicate ToUah() {
      this == UsdToUah || this == EurToUah
    }
  }

  /** The first button, in the view's order, whose label the request carries. */
  function Pressed(fields: set<string>): (b: Option<Button>)
    ensures b.Some? ==> b.value.Label() in fields
    ensures b.Some? ==> forall c: Button | c.Rank() < b.value.Rank() :: c.Label() !in fields
    ensures b.None? <==> forall c: Button :: c.Label() !in fields
  {
    if UsdToUah.Label() in fields then Some(UsdToUah)
    else if EurToUah.Label() in fields then Some(EurToUah)
    else if UahToUsd.Label() in fields then Some(UahToUsd)
    else if UahToEur.Label() in fields then Some(UahToEur)
    else None
  }

  /** The filter of the query: today's rows whose `currency_a` is `source`; `currency_b` plays no part. */
  predicate Eligible(r: Record, today: Date, source: string) {
    r.date == today && r.currencyA == source
  }

  /** The rows the query returns, in storage order, each as often as it is stored. */
  function Candidates(rows: seq<Record>, today: Date, source: string): (c: seq<Record>)
    ensures forall x :: multiset(c)[x] == if Eligible(x, today, source) then multiset(rows)[x] else 0
    ensures forall x | x in c :: Eligible(x, today, source)
  {
    if |rows| == 0 then []
    else
      var rest := Candidates(rows[1..], today, source);
      assert rows == [rows[0]] + rows[1..];
      if Eligible(rows[0], today, source) then [rows[0]] + rest else rest
  }

  /**
    The row `order_by("buy")` puts last: a row with the highest `buy`. Among rows with equal
    `buy` the database order is not fixed; this takes the last one in storage order.
   */
  function BestBuyIndex(c: seq<Record>): (k: nat)
    requires |c| > 0
    ensures k < |c|
    ensures forall i | 0 <= i < |c| :: c[i].buy <= c[k].buy
    ensures forall i | k < i < |c| :: c[i].buy < c[k].buy
  {
    if |c| == 1 then 0
    else
      var k := BestBuyIndex(c[1..]) + 1;
      assert forall i | 1 <= i < |c| :: c[i] == c[1..][i - 1];
      if c[0].buy > c[k].buy then 0 else k
  }

  /**
    The row `order_by("sell")` puts first: a row with the lowest `sell`. Among rows with equal
    `sell` this takes the first one in storage order.
   */
  function BestSellIndex(c: seq<Record>): (k: nat)
    requires |c| > 0
    ensures k < |c|
    ensures forall i | 0 <= i < |c| :: c[k].sell <= c[i].sell
    ensures forall i | 0 <= i < k :: c[k].sell < c[i].sell
  {
    if |c| == 1 then 0
    else
      var k := BestSellIndex(c[1..]) + 1;
      assert forall i | 1 <= i < |c| :: c[i] == c[1..][i - 1];
      if c[0].sell <= c[k].sell then 0 else k
  }

  /** What the view answers with: `{vendor: result}`. */
  datatype Quote = Quote(vendor: string, result: real)

  /** Why a conversion ends in an exception instead of an answer. */
  datatype ConvertError =
    | NoRateAvailable   // IndexError: no row for today, `list(...)[-1]` / `[0]` on an empty list
    | DivisionByZero    // ZeroDivisionError: the best `sell` is zero

  /** A row is the best offer for the button among today's rows. */
  predicate IsBest(b: Button, rows: seq<Record>, today: Date, x: Record) {
    && x in rows
    && Eligible(x, today, b.Source())
    && if b.ToUah() then
         forall y | y in rows && Eligible(y, today, b.Source()) :: y.buy <= x.buy
       else
         forall y | y in rows && Eligible(y, today, b.Source()) :: x.sell <= y.sell
  }

  /** The filtered query holds exactly the eligible rows. */
  lemma CandidatesMembership(rows: seq<Record>, today: Date, source: string)
    ensures forall x :: x in Candidates(rows, today, source) <==> x in rows && Eligible(x, today, source)
  {
    var c := Candidates(rows, today, source);
    forall x ensures x in c <==> x in rows && Eligible(x, today, source) {
      assert x in c <==> multiset(c)[x] > 0;
      assert x in rows <==> multiset(rows)[x] > 0;
    }
  }

  /** The row `BestBuyIndex` or `BestSellIndex` selects is a best offer among today's rows. */
  lemma SelectedIsBest(b: Button, rows: seq<Record>, today: Date)
    requires |Candidates(rows, today, b.Source())| > 0
    ensures var c := Candidates(rows, today, b.Source());
            IsBest(b, rows, today, c[if b.ToUah() then BestBuyIndex(c) else BestSellIndex(c)])
  {
    var c := Candidates(rows, today, b.Source());
    CandidatesMembership(rows, today, b.Source());
    var k := if b.ToUah() then BestBuyIndex(c) else BestSellIndex(c);
    forall y | y in rows && Eligible(y, today, b.Source())
      ensures if b.ToUah() then y.buy <= c[k].buy else c[k].sell <= y.sell
    {
      var j :| 0 <= j < |c| && c[j] == y;
    }
  }

  /** Best offers may differ in vendor but not in the rate that decides them. */
  lemma BestOffersAgree(b: Button, rows: seq<Record>, today: Date, x: Record, y: Record)
    requires IsBest(b, rows, today, x) && IsBest(b, rows, today, y)
    ensures b.ToUah() ==> x.buy == y.buy
    ensures !b.ToUah() ==> x.sell == y.sell
  {
  }

  /** The row the view reads the coefficient and the vendor from, if today has any row to offer. */
  function Best(b: Button, rows: seq<Record>, today: Date): (w: Option<Record>)
    ensures w.None? <==> forall x | x in rows :: !Eligible(x, today, b.Source())
    ensures w.Some? ==> IsBest(b, rows, today, w.value)
  {
    var c := Candidates(rows, today, b.Source());
    CandidatesMembership(rows, today, b.Source());
    if |c| == 0 then None
    else
      assert c[0] in rows;
      SelectedIsBest(b, rows, today);
      Some(c[if b.ToUah() then BestBuyIndex(c) else BestSellIndex(c)])
  }

  /** The view's formula: `num * float(cof)` towards UAH, `num * 1 / float(cof)` from UAH. */
  function Apply(b: Button, amount: real, x: Record): real
    requires b.ToUah() || x.sell != 0.0
  {
    if b.ToUah() then amount * x.buy else amount / x.sell
  }

  /** One button's branch of the view, from the filtered query to the converted amount. */
  function Convert(b: Button, amount: real, rows: seq<Record>, today: Date): (r: Result<Quote, ConvertError>)
    ensures r == Failure(NoRateAvailable) <==> forall x | x in rows :: !Eligible(x, today, b.Source())
    ensures r == Failure(DivisionByZero) <==> !b.ToUah() && exists x :: IsBest(b, rows, today, x) && x.sell == 0.0
    ensures r.Success? && b.ToUah() ==>
              exists x :: IsBest(b, rows, today, x) && r.value == Quote(x.vendor, amount * x.buy)
    ensures r.Success? && !b.ToUah() ==>
              exists x :: IsBest(b, rows, today, x) && x.sell != 0.0 && r.value == Quote(x.vendor, amount / x.sell)
  {
    match Best(b, rows, today)
    case None => Failure(NoRateAvailable)
    case Some(x) =>
      assert forall y | IsBest(b, rows, today, y) :: !b.ToUah() ==> y.sell == x.sell by {
        forall y | IsBest(b, rows, today, y) ensures !b.ToUah() ==> y.sell == x.sell {
          BestOffersAgree(b, rows, today, x, y);
        }
      }
      if !b.ToUah() && x.sell == 0.0 then Failure(DivisionByZero)
      else Success(Quote(x.vendor, Apply(b, amount, x)))
  }

  /** The posted request: method, submitted field names, and the form's `amount` if it parsed. */
  datatype Request = Request(isPost: bool, fields: set<string>, amount: Option<real>)

  /** `ExchangeForm`: an `amount` of at least 0.01. */
  predicate FormValid(amount: Option<real>) {
    amount.Some? && amount.value >= 0.01
  }

  /** What `display` produces. */
  datatype Page =
    | FormPage                     // renders `index.html` with an empty form
    | Answer(quote: Quote)         // the JSON answer `{vendor: result}`
    | NoAnswer                     // a valid POST with no known button: the view returns `None`
    | Crash(error: ConvertError)   // an exception escapes the view

  /** The view: form handling, then the branch of the first posted button. */
  function Display(req: Request, rows: seq<Record>, today: Date): (p: Page)
    ensures p == FormPage <==> !(req.isPost && FormValid(req.amount))
    ensures p == NoAnswer <==> req.isPost && FormValid(req.amount) && forall c: Button :: c.Label() !in req.fields
    ensures p.Answer? || p.Crash? ==>
              exists b: Button ::
                && b.Label() in req.fields
                && (forall c: Button | c.Rank() < b.Rank() :: c.Label() !in req.fields)
                && Convert(b, req.amount.value, rows, today) == (if p.Answer? then Success(p.quote) else Failure(p.error))
  {
    if !(req.isPost && FormValid(req.amount)) then FormPage
    else
      match Pressed(req.fields)
      case None => NoAnswer
      case Some(b) =>
        match Convert(b, req.amount.value, rows, today)
        case Success(q) => Answer(q)
        case Failure(e) => Crash(e)
  }
}
