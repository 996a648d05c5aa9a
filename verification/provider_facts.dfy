/** Properties of the provider adapters that relate several calls or several inputs. */
module ProviderFacts {
  import opened Wrappers
  import Scan
  import opened Provider

  /** The `ExchangeCodes` enum is a bijection between its names and its values. */
  lemma CodeTableIsBijective(alpha: string, n: int)
    ensures NumericCode(alpha) == Some(n) <==> AlphaCode(n) == Some(alpha)
  {
  }

  /**
    Mono translates both codes before it requests anything: an unknown currency raises the
    same error whatever the provider would have answered.
   */
  lemma MonoCodesCheckedFirst(ex: Exchange, reply: Reply<seq<MonoEntry>>, other: Reply<seq<MonoEntry>>)
    requires NumericCode(ex.currencyA).None? || NumericCode(ex.currencyB).None?
    ensures MonoGetRate(ex, reply) == MonoGetRate(ex, other)
    ensures MonoGetRate(ex, reply).raised.value.UnknownCurrency?
  {
  }

  /** Of two entries quoting the requested pair, Mono keeps the earlier one. */
  lemma MonoKeepsEarlier(ex: Exchange, status: int, before: seq<MonoEntry>, first: MonoEntry, rest: seq<MonoEntry>)
    requires NumericCode(ex.currencyA).Some? && NumericCode(ex.currencyB).Some? && !HttpError(status)
    requires forall i | 0 <= i < |before| :: !MonoMatches(ex, before[i])
    requires MonoMatches(ex, first)
    ensures MonoGetRate(ex, Reply(status, before + [first] + rest)).state.pair == Some(SellBuy(first.rateSell, first.rateBuy))
  {
    var body := before + [first] + rest;
    assert body[|before|] == first;
    assert forall j | 0 <= j < |before| :: body[j] == before[j];
  }

  /** Of two entries quoting the requested pair, Privat keeps the later one. */
  lemma PrivatKeepsLater(ex: Exchange, status: int, before: seq<PrivatEntry>, last: PrivatEntry, after: seq<PrivatEntry>)
    requires !HttpError(status)
    requires PrivatMatches(ex, last)
    requires forall i | 0 <= i < |after| :: !PrivatMatches(ex, after[i])
    ensures PrivatGetRate(ex, Reply(status, before + [last] + after)).state.pair == Some(SellBuy(last.sale, last.buy))
  {
    var body := before + [last] + after;
    assert body[|before|] == last;
    assert forall j | |before| < j < |body| :: body[j] == after[j - |before| - 1];
  }

  /** Vkurse never looks at `currency_b`. */
  lemma VkurseIgnoresCurrencyB(ex: Exchange, reply: Reply<seq<VkurseEntry>>, currencyB: string)
    ensures VkurseGetRate(ex.(currencyB := currencyB), reply).state.pair == VkurseGetRate(ex, reply).state.pair
    ensures VkurseGetRate(ex.(currencyB := currencyB), reply).raised == VkurseGetRate(ex, reply).raised
  {
  }

  /** CurrencyAPI never looks at `currency_b`. */
  lemma CurrencyApiIgnoresCurrencyB(ex: Exchange, reply: Reply<seq<CurrencyApiEntry>>, currencyB: string)
    ensures CurrencyApiGetRate(ex.(currencyB := currencyB), reply).state.pair == CurrencyApiGetRate(ex, reply).state.pair
    ensures CurrencyApiGetRate(ex.(currencyB := currencyB), reply).raised == CurrencyApiGetRate(ex, reply).raised
  {
  }

  /** NBU consults `currency_b` only when the base is UAH. */
  lemma NbuIgnoresCurrencyBUnlessUah(ex: Exchange, reply: Reply<seq<NbuEntry>>, currencyB: string)
    requires ex.currencyA != "UAH"
    ensures NbuGetRate(ex.(currencyB := currencyB), reply).state.pair == NbuGetRate(ex, reply).state.pair
    ensures NbuGetRate(ex.(currencyB := currencyB), reply).raised == NbuGetRate(ex, reply).raised
  {
    var ex' := ex.(currencyB := currencyB);
    if !HttpError(reply.status) {
      var body := reply.body;
      var k := Scan.FirstWhere(body, (e: NbuEntry) => NbuFaults(ex, e));
      var k' := Scan.FirstWhere(body, (e: NbuEntry) => NbuFaults(ex', e));
      assert k == |body| && k' == |body|;
      assert forall i | 0 <= i < |body[..k]| :: NbuPick(ex)(body[..k][i]) == NbuPick(ex')(body[..k][i]);
      Scan.ScanLastPointwise(body[..k], NbuPick(ex), NbuPick(ex'), ex.pair);
    }
  }

  /**
    The inversion: with one published USD rate `rate` and no UAH entry, asking for USD/UAH
    gives `rate` on both sides and asking for UAH/USD gives its reciprocal.
   */
  lemma NbuInversion(vendor: string, status: int, body: seq<NbuEntry>, k: int)
    requires !HttpError(status)
    requires 0 <= k < |body| && body[k].cc == "USD" && body[k].rate != 0.0
    requires forall j | 0 <= j < |body| && j != k :: body[j].cc != "USD" && body[j].cc != "UAH"
    ensures Outcome(NbuGetRate(NewExchange(vendor, "USD", "UAH"), Reply(status, body)))
            == Success(Some(SellBuy(body[k].rate, body[k].rate)))
    ensures Outcome(NbuGetRate(NewExchange(vendor, "UAH", "USD"), Reply(status, body)))
            == Success(Some(SellBuy(1.0 / body[k].rate, 1.0 / body[k].rate)))
  {
    var direct := NewExchange(vendor, "USD", "UAH");
    var inverse := NewExchange(vendor, "UAH", "USD");
    assert NbuProcessed(direct, body, k) && NbuProcessed(inverse, body, k);
  }

  /** Within one entry the first branch wins: asking for UAH/UAH never inverts. */
  lemma NbuDirectBranchFirst(vendor: string, status: int, rate: real)
    requires !HttpError(status)
    ensures Outcome(NbuGetRate(NewExchange(vendor, "UAH", "UAH"), Reply(status, [NbuEntry("UAH", rate)])))
            == Success(Some(SellBuy(rate, rate)))
  {
    assert NbuProcessed(NewExchange(vendor, "UAH", "UAH"), [NbuEntry("UAH", rate)], 0);
  }

  /**
    Inverting a zero rate raises `ZeroDivisionError`; the slot keeps what the entries before
    it wrote, and no later entry is looked at.
   */
  lemma NbuZeroRateStopsTheLoop(ex: Exchange, status: int, before: seq<NbuEntry>, zero: NbuEntry, after: seq<NbuEntry>)
    requires !HttpError(status)
    requires NbuFaults(ex, zero)
    requires forall i | 0 <= i < |before| :: !NbuFaults(ex, before[i])
    ensures NbuGetRate(ex, Reply(status, before + [zero] + after)).raised == Some(DivisionByZero)
    ensures NbuGetRate(ex, Reply(status, before + [zero] + after)).state.pair
            == NbuGetRate(ex, Reply(status, before)).state.pair
  {
    var body := before + [zero] + after;
    var k := Scan.FirstWhere(body, (e: NbuEntry) => NbuFaults(ex, e));
    assert body[|before|] == zero;
    assert forall j | 0 <= j < |before| :: body[j] == before[j];
    assert k == |before|;
    assert body[..k] == before;
    var k0 := Scan.FirstWhere(before, (e: NbuEntry) => NbuFaults(ex, e));
    assert k0 == |before|;
    assert before[..k0] == before;
  }

  /** Response objects have distinct keys: no two entries share a name. */
  ghost predicate DistinctVkurseKeys(body: seq<VkurseEntry>) {
    forall i, j | 0 <= i < j < |body| :: body[i].name != body[j].name
  }

  /** With distinct keys the scan is a lookup: `r["Dollar"]` for USD, `r["Euro"]` for EUR. */
  lemma VkurseIsLookup(ex: Exchange, status: int, body: seq<VkurseEntry>, i: int)
    requires !HttpError(status) && DistinctVkurseKeys(body)
    requires 0 <= i < |body| && VkurseName(ex.currencyA) == Some(body[i].name)
    ensures VkurseGetRate(ex, Reply(status, body)).state.pair == Some(SellBuy(body[i].buy, body[i].sale))
  {
  }

  ghost predicate DistinctCurrencyApiKeys(data: seq<CurrencyApiEntry>) {
    forall i, j | 0 <= i < j < |data| :: data[i].code != data[j].code
  }

  /** With distinct keys the scan is the lookup `data[currency_a]["value"]`. */
  lemma CurrencyApiIsLookup(ex: Exchange, status: int, data: seq<CurrencyApiEntry>, i: int)
    requires !HttpError(status) && DistinctCurrencyApiKeys(data)
    requires 0 <= i < |data| && data[i].code == ex.currencyA
    ensures CurrencyApiGetRate(ex, Reply(status, data)).state.pair == Some(SellBuy(data[i].value, data[i].value))
  {
  }

  /** An answer without the pair is not an error: a fresh object reports the pair absent. */
  lemma AbsentPairIsNotAnError(vendor: string, a: string, b: string, status: int,
                               privat: seq<PrivatEntry>, vkurse: seq<VkurseEntry>, data: seq<CurrencyApiEntry>)
    requires !HttpError(status)
    ensures (forall i | 0 <= i < |privat| :: !PrivatMatches(NewExchange(vendor, a, b), privat[i])) ==>
              Outcome(PrivatGetRate(NewExchange(vendor, a, b), Reply(status, privat))) == Success(None)
    ensures (forall i | 0 <= i < |vkurse| :: !VkurseMatches(a, vkurse[i])) ==>
              Outcome(VkurseGetRate(NewExchange(vendor, a, b), Reply(status, vkurse))) == Success(None)
    ensures (forall i | 0 <= i < |data| :: data[i].code != a) ==>
              Outcome(CurrencyApiGetRate(NewExchange(vendor, a, b), Reply(status, data))) == Success(None)
  {
  }
}
