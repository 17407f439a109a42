/** The polling loop of app/Program.cs: for every pair, the gap between the
    futures mark price and the last price is computed, and `gaplist` counts
    the polls in a row, after the first, at which the gap has stayed at or
    above one percent. The market-data requests are inputs; prices are exact
    reals. */
module MarketPriceGap {
  import opened Wrappers
  import opened Exceptions

  /** The alert threshold, in percent. */
  const Threshold: real := 1.0

  const Int32Max := 0x7fff_ffff
  const Int32Min := -0x8000_0000
  type int32 = x: int | Int32Min <= x <= Int32Max

  /** `gaplist[pair]++` in C#'s default unchecked arithmetic. */
  function Increment(x: int32): (r: int32)
    ensures x < Int32Max ==> r == x + 1
    ensures x == Int32Max ==> r == Int32Min
  {
    if x == Int32Max then Int32Min else x + 1
  }

  /** The last-price request for one pair: `None` when it throws (or its
      `Data` is null), otherwise the returned price. */
  type PriceFetch = Option<real>

  /** `GetPrice` as written: the request is sent twice, once for the zero test
      and once for the value returned; a throwing request gives 1. It can
      only return 0 when the second request sees a zero price, and never
      when both requests see the same answer. */
  function GetPriceAsWritten(first: PriceFetch, second: PriceFetch): (r: real)
    ensures first.None? || first.value == 0.0 ==> r == 1.0
    ensures first.Some? && first.value != 0.0 ==> r == (if second.None? then 1.0 else second.value)
    ensures r == 0.0 ==> second == Some(0.0) && first != second
  {
    if first.None? || first.value == 0.0 then 1.0
    else if second.None? then 1.0
    else second.value
  }

  /** The second request may return zero although the first did not. */
  lemma GetPriceAsWrittenCanReturnZero()
    ensures GetPriceAsWritten(Some(2.0), Some(0.0)) == 0.0
  {
  }

  /** `GetPrice` with one request: a failed request or a zero price becomes 1,
      so the result is never zero and can always be divided by. */
  function GetPrice(fetch: PriceFetch): (r: real)
    ensures r != 0.0
    ensures fetch.Some? && fetch.value != 0.0 ==> r == fetch.value
    ensures fetch.None? || fetch.value == 0.0 ==> r == 1.0
  {
    if fetch.None? || fetch.value == 0.0 then 1.0 else fetch.value
  }

  /** When both requests of the as-written `GetPrice` see the same answer, it
      agrees with the single-request `GetPrice`. */
  lemma GetPriceAgreesWhenStable(fetch: PriceFetch)
    ensures GetPriceAsWritten(fetch, fetch) == GetPrice(fetch)
  {
  }

  function Abs(x: real): (r: real)
  {
    if x < 0.0 then -x else x
  }

  /** `GetPrcentAbs(pair, value1, value2)`: how far `value1` is from `value2`,
      in percent of `value2`. The `decimal` division throws on a zero
      divisor. */
  function GetPrcentAbs(value1: real, value2: real): (r: Result<real, Exception>)
    ensures r.Failure? <==> value2 == 0.0
    ensures r.Failure? ==> r.error == DivideByZeroException
    ensures r.Success? ==>
      && r.value >= 0.0
      && (r.value == 0.0 <==> value1 == value2)
      && r.value * Abs(value2) == 100.0 * Abs(value1 - value2)
  {
    if value2 == 0.0 then Failure(DivideByZeroException)
    else
      var percentage := value1 / value2 * 100.0 - 100.0;
      assert percentage == (value1 - value2) / value2 * 100.0;
      assert percentage * value2 == (value1 - value2) * 100.0;
      Success(if percentage < 0.0 then percentage * -1.0 else percentage)
  }

  /** The update of `gaplist` for one pair whose gap is `gapPercent`, and
      whether an alert is sent. */
  function UpdateGap(gaplist: map<string, int32>, pair: string, gapPercent: real)
    : (r: (map<string, int32>, bool))
    ensures gapPercent < Threshold ==> r.0 == gaplist - {pair} && !r.1
    ensures gapPercent >= Threshold && pair !in gaplist ==> r.0 == gaplist[pair := 0] && !r.1
    ensures gapPercent >= Threshold && pair in gaplist ==>
      && r.0 == gaplist[pair := Increment(gaplist[pair])]
      && (r.1 <==> Increment(gaplist[pair]) > 1)
  {
    if gapPercent >= Threshold then
      if pair !in gaplist then (gaplist[pair := 0], false)
      else
        var count := Increment(gaplist[pair]);
        (gaplist[pair := count], count > 1)
    else
      (if pair in gaplist then gaplist - {pair} else gaplist, false)
  }

  /** The state of `gaplist` and the alert flag of each poll, for a run of
      consecutive polls of one pair with the gaps `gaps`. */
  function Streak(gaplist: map<string, int32>, pair: string, gaps: seq<real>): (r: (map<string, int32>, seq<bool>))
  {
    if gaps == [] then (gaplist, [])
    else
      var before := Streak(gaplist, pair, gaps[..|gaps| - 1]);
      var after := UpdateGap(before.0, pair, gaps[|gaps| - 1]);
      (after.0, before.1 + [after.1])
  }

  /** After `k` consecutive polls at or above the threshold, starting from a
      pair not being tracked, the count is `k - 1`, nothing else has changed,
      and poll `i` (from 0) alerted exactly when `i >= 2`: the first alert is
      sent on the third poll and every later poll alerts too (until the
      counter would wrap, after 2^31 polls). */
  lemma {:induction false} ConsecutiveGapsAlertFromThirdPoll(gaplist: map<string, int32>, pair: string, gaps: seq<real>)
    requires pair !in gaplist && 0 < |gaps| <= Int32Max + 1
    requires forall i :: 0 <= i < |gaps| ==> gaps[i] >= Threshold
    ensures var s := Streak(gaplist, pair, gaps);
      && s.0 == gaplist[pair := |gaps| - 1]
      && |s.1| == |gaps|
      && forall i :: 0 <= i < |gaps| ==> (s.1[i] <==> i >= 2)
  {
    if |gaps| > 1 {
      var init := gaps[..|gaps| - 1];
      ConsecutiveGapsAlertFromThirdPoll(gaplist, pair, init);
      var before := Streak(gaplist, pair, init);
      assert before.0[pair] == |gaps| - 2;
      assert gaps[|gaps| - 1] >= Threshold;
      var s := Streak(gaplist, pair, gaps);
      forall i | 0 <= i < |gaps| ensures s.1[i] <==> i >= 2 {
        if i < |gaps| - 1 {
          assert s.1[i] == before.1[i];
        }
      }
    }
  }

  /** One poll below the threshold forgets the pair, whatever its count. */
  lemma BelowThresholdResets(gaplist: map<string, int32>, pair: string, gap: real, gaps: seq<real>)
    requires gap < Threshold && 0 < |gaps| <= Int32Max + 1
    requires forall i :: 0 <= i < |gaps| ==> gaps[i] >= Threshold
    ensures Streak(UpdateGap(gaplist, pair, gap).0, pair, gaps).0[pair] == |gaps| - 1
  {
    ConsecutiveGapsAlertFromThirdPoll(UpdateGap(gaplist, pair, gap).0, pair, gaps);
  }

  /** The requests of a poll for one pair: the mark price (`null` when it
      fails) and the two last-price requests `GetPrice` sends. */
  datatype Quote = Quote(market: Option<real>, firstPrice: PriceFetch, secondPrice: PriceFetch)

  /** The message sent for an alert. */
  datatype Alert = Alert(pair: string, price: real, gapPercent: real)

  /** The body of the `foreach` for one pair: skipped without a mark price;
      otherwise it fails exactly when `GetPrice` returned 0, with the
      `DivideByZeroException` of `GetPrcentAbs`. */
  function Observe(gaplist: map<string, int32>, pair: string, quote: Quote)
    : (r: Result<(map<string, int32>, Option<Alert>), Exception>)
    ensures quote.market.None? ==> r == Success((gaplist, None))
    ensures r.Failure? <==>
      quote.market.Some? && GetPriceAsWritten(quote.firstPrice, quote.secondPrice) == 0.0
    ensures r.Failure? ==> r.error == DivideByZeroException
    ensures quote.market.Some? && r.Success? ==>
      var price := GetPriceAsWritten(quote.firstPrice, quote.secondPrice);
      var gap := GetPrcentAbs(quote.market.value, price).value;
      && r.value.0 == UpdateGap(gaplist, pair, gap).0
      && (r.value.1.Some? <==> UpdateGap(gaplist, pair, gap).1)
      && (r.value.1.Some? ==> r.value.1.value == Alert(pair, price, gap))
  {
    match quote.market
    case None => Success((gaplist, None))
    case Some(market) =>
      var price := GetPriceAsWritten(quote.firstPrice, quote.secondPrice);
      var gap :- GetPrcentAbs(market, price);
      var (updated, alert) := UpdateGap(gaplist, pair, gap);
      Success((updated, if alert then Some(Alert(pair, price, gap)) else None))
  }

  /** Where a poll stands: `gaplist`, the alerts sent so far, and the
      exception that ended the process, if one did. */
  datatype PollState = PollState(gaplist: map<string, int32>, alerts: seq<Alert>, crash: Option<Exception>)

  /** The effect of the first `n` iterations of the `foreach` over `pairs`.
      An exception escapes `Main`, so nothing runs after it. */
  function Poll(pairs: seq<string>, quotes: seq<Quote>, gaplist: map<string, int32>, n: nat): (state: PollState)
    requires n <= |pairs| == |quotes|
  {
    if n == 0 then PollState(gaplist, [], None)
    else
      var before := Poll(pairs, quotes, gaplist, n - 1);
      if before.crash.Some? then before
      else
        match Observe(before.gaplist, pairs[n - 1], quotes[n - 1])
        case Failure(e) => PollState(before.gaplist, before.alerts, Some(e))
        case Success(step) =>
          PollState(step.0, before.alerts + (if step.1.Some? then [step.1.value] else []), None)
  }

  /** Once the process has crashed, later iterations change nothing. */
  lemma {:induction false} CrashIsFinal(pairs: seq<string>, quotes: seq<Quote>, gaplist: map<string, int32>, n: nat, m: nat)
    requires n <= m <= |pairs| == |quotes|
    requires Poll(pairs, quotes, gaplist, n).crash.Some?
    ensures Poll(pairs, quotes, gaplist, m) == Poll(pairs, quotes, gaplist, n)
    decreases m
  {
    if m > n {
      CrashIsFinal(pairs, quotes, gaplist, n, m - 1);
    }
  }

  /** A quote whose two last-price requests see the same answer. */
  predicate Stable(quote: Quote)
  {
    quote.firstPrice == quote.secondPrice
  }

  /** When every last price is read consistently, the poll never crashes and
      each observed gap is the one the single-request `GetPrice` gives. */
  lemma {:induction false} StableQuotesNeverCrash(pairs: seq<string>, quotes: seq<Quote>, gaplist: map<string, int32>, n: nat)
    requires n <= |pairs| == |quotes|
    requires forall i :: 0 <= i < |quotes| ==> Stable(quotes[i])
    ensures Poll(pairs, quotes, gaplist, n).crash.None?
  {
    if n > 0 {
      StableQuotesNeverCrash(pairs, quotes, gaplist, n - 1);
      var q := quotes[n - 1];
      assert Stable(q);
      GetPriceAgreesWhenStable(q.firstPrice);
    }
  }

  predicate Distinct(pairs: seq<string>)
  {
    forall i, j :: 0 <= i < j < |pairs| ==> pairs[i] != pairs[j]
  }

  /** The entry of `gaplist` for `pair`, `None` when the pair is not tracked. */
  function Entry(gaplist: map<string, int32>, pair: string): (entry: Option<int32>)
  {
    if pair in gaplist then Some(gaplist[pair]) else None
  }

  /** Whether observing a pair fails does not depend on `gaplist`; a
      successful observation touches no other entry, and its own new entry
      depends only on its old one. */
  lemma ObserveIsLocal(m1: map<string, int32>, m2: map<string, int32>, pair: string, quote: Quote)
    ensures Observe(m1, pair, quote).Success? <==> Observe(m2, pair, quote).Success?
    ensures Observe(m1, pair, quote).Success? ==>
      forall p :: p != pair ==> Entry(Observe(m1, pair, quote).value.0, p) == Entry(m1, p)
    ensures Observe(m1, pair, quote).Success? && Entry(m1, pair) == Entry(m2, pair) ==>
      Entry(Observe(m1, pair, quote).value.0, pair) == Entry(Observe(m2, pair, quote).value.0, pair)
  {
  }

  /** With distinct pairs, in a poll that did not crash, each entry of
      `gaplist` is updated from its own old value and quote only, and entries
      of other pairs are untouched. */
  lemma {:induction false} PollUpdatesEachPairIndependently(
    pairs: seq<string>, quotes: seq<Quote>, gaplist: map<string, int32>, n: nat)
    requires n <= |pairs| == |quotes| && Distinct(pairs)
    ensures Poll(pairs, quotes, gaplist, n).crash.None? ==>
      forall p :: p !in pairs[..n] ==> Entry(Poll(pairs, quotes, gaplist, n).gaplist, p) == Entry(gaplist, p)
    ensures Poll(pairs, quotes, gaplist, n).crash.None? ==>
      forall i :: 0 <= i < n ==>
        Observe(gaplist, pairs[i], quotes[i]).Success? &&
        Entry(Poll(pairs, quotes, gaplist, n).gaplist, pairs[i]) == Entry(Observe(gaplist, pairs[i], quotes[i]).value.0, pairs[i])
  {
    if n > 0 && Poll(pairs, quotes, gaplist, n).crash.None? {
      PollUpdatesEachPairIndependently(pairs, quotes, gaplist, n - 1);
      var before := Poll(pairs, quotes, gaplist, n - 1);
      assert before.crash.None?;
      var pair := pairs[n - 1];
      ObserveIsLocal(before.gaplist, gaplist, pair, quotes[n - 1]);
      assert pairs[..n] == pairs[..n - 1] + [pair];
      forall i | 0 <= i < n - 1
        ensures pairs[i] in pairs[..n - 1] && pairs[i] != pair
      {
        assert pairs[..n - 1][i] == pairs[i];
      }
      assert pair !in pairs[..n - 1];
    }
  }

  /** One polling tick, `gaplist` updated in place as the `foreach` goes:
      `ContainsKey`, `Add`, `++` and `Remove` on the dictionary. A zero
      divisor in `GetPrcentAbs` ends the tick (and the process) at once. */
  method Tick(pairs: seq<string>, quotes: seq<Quote>, gaplist0: map<string, int32>)
    returns (gaplist: map<string, int32>, alerts: seq<Alert>, crash: Option<Exception>)
    requires |quotes| == |pairs|
    ensures PollState(gaplist, alerts, crash) == Poll(pairs, quotes, gaplist0, |pairs|)
    ensures forall p :: p !in pairs ==> (p in gaplist <==> p in gaplist0) && (p in gaplist ==> gaplist[p] == gaplist0[p])
  {
    gaplist := gaplist0;
    alerts := [];
    crash := None;
    var i := 0;
    while i < |pairs|
      invariant 0 <= i <= |pairs|
      invariant PollState(gaplist, alerts, None) == Poll(pairs, quotes, gaplist0, i)
      invariant crash == None
      invariant forall p :: p !in pairs ==> (p in gaplist <==> p in gaplist0) && (p in gaplist ==> gaplist[p] == gaplist0[p])
    {
      ghost var step := Observe(gaplist, pairs[i], quotes[i]);
      ghost var sent := alerts;
      var pair := pairs[i];
      var quote := quotes[i];
      i := i + 1;
      if quote.market.None? {
        assert step == Success((gaplist, None)) && sent + [] == alerts;
        continue;
      }
      var price := GetPriceAsWritten(quote.firstPrice, quote.secondPrice);
      var gapPercent := GetPrcentAbs(quote.market.value, price);
      if gapPercent.Failure? {
        crash := Some(gapPercent.error);
        CrashIsFinal(pairs, quotes, gaplist0, i, |pairs|);
        return;
      }
      if gapPercent.value >= Threshold {
        if pair !in gaplist {
          gaplist := gaplist[pair := 0];
        } else {
          gaplist := gaplist[pair := Increment(gaplist[pair])];
          if gaplist[pair] > 1 {
            alerts := alerts + [Alert(pair, price, gapPercent.value)];
          }
        }
      } else {
        if pair in gaplist {
          gaplist := gaplist - {pair};
        }
      }
      assert gaplist == step.value.0 && alerts == sent + (if step.value.1.Some? then [step.value.1.value] else []);
    }
  }
}
