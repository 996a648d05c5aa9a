/** Properties of `display` that relate several calls or pin down concrete cases. */
module BestRateFacts {
  import opened Wrappers
  import opened BestRate

  /** Any arrangement of the query's rows holds exactly the eligible rows. */
  lemma ArrangementMembers(sorted: seq<Record>, rows: seq<Record>, today: Date, source: string)
    requires multiset(sorted) == multiset(Candidates(rows, today, source))
    ensures forall x :: x in sorted <==> x in rows && Eligible(x, today, source)
  {
    var c := Candidates(rows, today, source);
    CandidatesMembership(rows, today, source);
    forall x ensures x in sorted <==> x in c {
      assert x in sorted <==> multiset(sorted)[x] > 0;
      assert x in c <==> multiset(c)[x] > 0;
    }
  }

  /**
    `order_by("buy")` followed by `[-1]`: whatever order the database gives rows with equal
    `buy`, the last row of an ascending arrangement of the candidates is a best offer, and
    the converted amount is the one `Convert` returns.
   */
  lemma OrderByBuyTakesBest(b: Button, amount: real, rows: seq<Record>, today: Date, sorted: seq<Record>)
    requires b.ToUah()
    requires multiset(sorted) == multiset(Candidates(rows, today, b.Source()))
    requires |sorted| > 0
    requires forall i, j | 0 <= i < j < |sorted| :: sorted[i].buy <= sorted[j].buy
    ensures IsBest(b, rows, today, sorted[|sorted| - 1])
    ensures Convert(b, amount, rows, today).Success?
    ensures Convert(b, amount, rows, today).value.result == amount * sorted[|sorted| - 1].buy
  {
    ArrangementMembers(sorted, rows, today, b.Source());
    var last := sorted[|sorted| - 1];
    forall y | y in rows && Eligible(y, today, b.Source()) ensures y.buy <= last.buy {
      assert y in sorted;
      var j :| 0 <= j < |sorted| && sorted[j] == y;
    }
    assert IsBest(b, rows, today, last);
    ResultFromAnyBestOffer(b, amount, rows, today, last);
  }

  /** `order_by("sell")` followed by `[0]`: the first row of any ascending arrangement is a best offer. */
  lemma OrderBySellTakesBest(b: Button, amount: real, rows: seq<Record>, today: Date, sorted: seq<Record>)
    requires !b.ToUah()
    requires multiset(sorted) == multiset(Candidates(rows, today, b.Source()))
    requires |sorted| > 0
    requires forall i, j | 0 <= i < j < |sorted| :: sorted[i].sell <= sorted[j].sell
    ensures IsBest(b, rows, today, sorted[0])
    ensures Convert(b, amount, rows, today) == Failure(DivisionByZero) <==> sorted[0].sell == 0.0
    ensures sorted[0].sell != 0.0 ==>
              Convert(b, amount, rows, today).Success? && Convert(b, amount, rows, today).value.result == amount / sorted[0].sell
  {
    ArrangementMembers(sorted, rows, today, b.Source());
    forall y | y in rows && Eligible(y, today, b.Source()) ensures sorted[0].sell <= y.sell {
      assert y in sorted;
      var j :| 0 <= j < |sorted| && sorted[j] == y;
    }
    assert IsBest(b, rows, today, sorted[0]);
    forall x | IsBest(b, rows, today, x) ensures x.sell == sorted[0].sell {
      BestOffersAgree(b, rows, today, x, sorted[0]);
    }
    if sorted[0].sell != 0.0 {
      ResultFromAnyBestOffer(b, amount, rows, today, sorted[0]);
    }
  }

  /** The view's formula reads nothing of a row but the rate it multiplies or divides by. */
  lemma SameRateSameResult(b: Button, amount: real, w: Record, x: Record)
    requires b.ToUah() || x.sell != 0.0
    requires if b.ToUah() then w.buy == x.buy else w.sell == x.sell
    ensures b.ToUah() || w.sell != 0.0
    ensures Apply(b, amount, w) == Apply(b, amount, x)
  {
  }

  /** The amount a button yields depends only on the best rate, never on which tied vendor is named. */
  lemma ResultFromAnyBestOffer(b: Button, amount: real, rows: seq<Record>, today: Date, x: Record)
    requires IsBest(b, rows, today, x)
    requires b.ToUah() || x.sell != 0.0
    ensures Convert(b, amount, rows, today).Success?
    ensures Convert(b, amount, rows, today).value.result == Apply(b, amount, x)
  {
    assert Best(b, rows, today).Some?;
    var w := Best(b, rows, today).value;
    BestOffersAgree(b, rows, today, w, x);
    SameRateSameResult(b, amount, w, x);
    assert Convert(b, amount, rows, today) == Success(Quote(w.vendor, Apply(b, amount, w)));
  }

  /** Buttons are tried in a fixed order: "USD to UAH" wins over any other button posted with it. */
  lemma FirstButtonWins(req: Request, rows: seq<Record>, today: Date)
    requires req.isPost && FormValid(req.amount)
    requires UsdToUah.Label() in req.fields
    ensures Display(req, rows, today) ==
            match Convert(UsdToUah, req.amount.value, rows, today)
            case Success(q) => Answer(q)
            case Failure(e) => Crash(e)
  {
  }

  /** With nothing stored for today, a conversion fails as `NoRateAvailable`, never as a zero amount. */
  lemma NothingStoredIsNoRate(req: Request, rows: seq<Record>, today: Date)
    requires req.isPost && FormValid(req.amount)
    requires exists c: Button :: c.Label() in req.fields
    requires forall x | x in rows :: x.date != today
    ensures Display(req, rows, today) == Crash(NoRateAvailable)
  {
    var b := Pressed(req.fields).value;
    assert Convert(b, req.amount.value, rows, today) == Failure(NoRateAvailable);
  }

  /** Worked case: 100 USD sold at the higher of two `buy` rates, 36.9, gives 3690 UAH from vendor B. */
  lemma UsdToUahExample()
    ensures Display(Request(true, {"USD to UAH"}, Some(100.0)),
                    [Record(1, 7, "vendorA", "USD", "UAH", 37.0, 36.5),
                     Record(2, 7, "vendorB", "USD", "UAH", 37.2, 36.9)], 7)
            == Answer(Quote("vendorB", 3690.0))
  {
    var rows := [Record(1, 7, "vendorA", "USD", "UAH", 37.0, 36.5),
                 Record(2, 7, "vendorB", "USD", "UAH", 37.2, 36.9)];
    assert Candidates(rows[1..], 7, "USD") == rows[1..] by {
      assert rows[1..][1..] == [];
    }
    assert Candidates(rows, 7, "USD") == rows;
    assert BestBuyIndex(rows) == 1;
  }

  /**
    Because `currency_b` is not filtered, a USD/EUR row competes with USD/UAH rows: its small
    `sell` wins "UAH to USD", and the amount is divided by a USD/EUR rate.
   */
  lemma OtherQuoteCurrencyCompetes()
    ensures Convert(UahToUsd, 100.0, [Record(1, 7, "bank", "USD", "UAH", 37.0, 36.5),
                                      Record(2, 7, "mono", "USD", "EUR", 1.1, 1.2)], 7)
            == Success(Quote("mono", 100.0 / 1.1))
  {
    var rows := [Record(1, 7, "bank", "USD", "UAH", 37.0, 36.5),
                 Record(2, 7, "mono", "USD", "EUR", 1.1, 1.2)];
    assert Candidates(rows[1..], 7, "USD") == rows[1..] by {
      assert rows[1..][1..] == [];
    }
    assert Candidates(rows, 7, "USD") == rows;
    assert BestSellIndex(rows) == 1;
  }
}
