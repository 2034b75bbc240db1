/**
 * The exchange-rate service: conversion with the newest stored rate, and the refresh that
 * resolves every ascending currency pair for the latest bank day, reusing a stored row
 * when one exists and otherwise asking the Riksbank and saving the rate with its inverse.
 *
 * The service's effects are described by pure functions over Effects (stored rows,
 * number of saveAll calls, log of cross-rate requests); the methods of the class are
 * proved to have exactly those effects, and the lemmas state what the functions promise.
 */
module RateService {
  import opened Currencies
  import opened Domain
  import opened Decimal32
  import opened RiksbankApi
  import opened RateRepository

  const NoRateMessage: string := "No exchange rate found, please update to latest exchange rates"

  /** What the service has done to the world: the stored rows, the saveAll calls, the cross-rate requests. */
  datatype Effects = Effects(rows: seq<ExchangeRate>, saveAllCalls: nat, apiCalls: seq<Pair>)

  /** The effects after a step, and its value or the exception it throws. */
  datatype Outcome<T> = Outcome(effects: Effects, out: Result<T>)

  // ---------------------------------------------------------------------------------
  // Inverse rates
  // ---------------------------------------------------------------------------------

  /**
   * createInverseExchangeRate: the opposite direction on the same day, with rate 1 / rate
   * rounded to seven significant digits; a zero rate makes the division throw.
   */
  function CreateInverseExchangeRate(rate: ExchangeRate): (r: Result<ExchangeRate>)
    ensures r.Failure? <==> rate.conversionRate == 0.0
    ensures r.Failure? ==> r.error == DivisionByZero
    ensures r.Success? ==>
      r.value.fromCurrency == rate.toCurrency && r.value.toCurrency == rate.fromCurrency &&
      r.value.rateDate == rate.rateDate
    ensures r.Success? ==> r.value.conversionRate == Round7(1.0 / rate.conversionRate)
    ensures r.Success? ==>
      Abs(r.value.conversionRate - 1.0 / rate.conversionRate) <= Abs(1.0 / rate.conversionRate) * RelativeError
    ensures r.Success? ==> (r.value.conversionRate > 0.0 <==> rate.conversionRate > 0.0)
  {
    if rate.conversionRate == 0.0 then Failure(DivisionByZero)
    else
      var inverse := Round7(1.0 / rate.conversionRate);
      ReciprocalSign(rate.conversionRate);
      Success(ExchangeRate(rate.toCurrency, rate.fromCurrency, inverse, rate.rateDate))
  }

  /** 1 / c has the sign of c. */
  lemma ReciprocalSign(c: real)
    requires c != 0.0
    ensures 1.0 / c > 0.0 <==> c > 0.0
  {
  }

  /** A value within the rounding error of 1 / r multiplies with r to within that error of 1. */
  lemma ReciprocalError(r: real, y: real)
    requires r != 0.0
    requires Abs(y - 1.0 / r) <= Abs(1.0 / r) * RelativeError
    ensures Abs(y * r - 1.0) <= RelativeError
  {
    var d := y - 1.0 / r;
    assert y * r - 1.0 == d * r;
    if r > 0.0 {
      assert Abs(1.0 / r) == 1.0 / r;
      MulNonNegative((1.0 / r) * RelativeError - Abs(d), r);
      assert Abs(d) * r <= RelativeError;
      assert Abs(d * r) == Abs(d) * r;
    } else {
      assert Abs(1.0 / r) == -1.0 / r;
      MulNonNegative((-1.0 / r) * RelativeError - Abs(d), -r);
      assert Abs(d) * -r <= RelativeError;
      assert Abs(d * r) == Abs(d) * -r;
    }
  }

  /** A rate times its inverse is one, to within the rounding error. */
  lemma InverseTimesRate(rate: ExchangeRate, inverse: ExchangeRate)
    requires CreateInverseExchangeRate(rate) == Success(inverse)
    ensures Abs(inverse.conversionRate * rate.conversionRate - 1.0) <= RelativeError
  {
    ReciprocalError(rate.conversionRate, inverse.conversionRate);
  }

  /** Inverting twice gives back the original direction and day. */
  lemma InverseOfInverse(rate: ExchangeRate)
    requires rate.conversionRate != 0.0
    ensures CreateInverseExchangeRate(CreateInverseExchangeRate(rate).value).Success?
    ensures var back := CreateInverseExchangeRate(CreateInverseExchangeRate(rate).value).value;
      back.fromCurrency == rate.fromCurrency && back.toCurrency == rate.toCurrency &&
      back.rateDate == rate.rateDate && (back.conversionRate > 0.0 <==> rate.conversionRate > 0.0)
  {
  }

  // ---------------------------------------------------------------------------------
  // The effects of one pair and of a refresh, as functions
  // ---------------------------------------------------------------------------------

  /**
   * createAndSaveExchangeRateAndInverseBasedOnRiksbankenApi: one cross-rate request; the
   * first quote becomes the forward row and is saved with its inverse in one saveAll call.
   */
  function CreateAndSave(quotes: QuoteSource, from: Currency, to: Currency, e: Effects): Outcome<ExchangeRate>
  {
    var requested := e.(apiCalls := e.apiCalls + [(from, to)]);
    match quotes(from, to)
    case Failure(err) => Outcome(requested, Failure(err))
    case Success(quotes) =>
      if quotes == [] then Outcome(requested, Failure(NoSuchElement))
      else
        var forward := ExchangeRate(from, to, quotes[0].value, quotes[0].date);
        match CreateInverseExchangeRate(forward)
        case Failure(err) => Outcome(requested, Failure(err))
        case Success(inverse) =>
          Outcome(requested.(rows := e.rows + [forward, inverse], saveAllCalls := e.saveAllCalls + 1), Success(forward))
  }

  /**
   * fetchOrCreateExchangeRateWithInverse: the stored row for (from, to, date) when there is
   * exactly one, a fresh row from the Riksbank when there is none, and in both cases the
   * row followed by its inverse.
   */
  function FetchOrCreate(quotes: QuoteSource, from: Currency, to: Currency, date: Day, e: Effects): Outcome<seq<ExchangeRate>>
  {
    var found :=
      match FindExact(e.rows, from, to, date)
      case Duplicated => Outcome(e, Failure(IncorrectResultSize))
      case Unique(row) => Outcome(e, Success(row))
      case Absent => CreateAndSave(quotes, from, to, e);
    match found.out
    case Failure(err) => Outcome(found.effects, Failure(err))
    case Success(row) =>
      match CreateInverseExchangeRate(row)
      case Failure(err) => Outcome(found.effects, Failure(err))
      case Success(inverse) => Outcome(found.effects, Success([row, inverse]))
  }

  /**
   * The pairs the nested loops over values() have handed on once the inner loop has
   * reached j in round i of the outer loop: (from, to) in loop order, kept when the
   * ordinal of from is below that of to.
   */
  function Visited(i: nat, j: nat): seq<Pair>
    requires i < |Values()| || (i == |Values()| && j == 0)
    requires j <= |Values()|
    decreases i, j
  {
    if j > 0 then
      var from, to := Values()[i], Values()[j - 1];
      Visited(i, j - 1) + (if Ordinal(from) < Ordinal(to) then [(from, to)] else [])
    else if i > 0 then Visited(i - 1, |Values()|)
    else []
  }

  /** The pairs a refresh visits, in visiting order. */
  function AscendingPairs(): seq<Pair>
  {
    Visited(|Values()|, 0)
  }

  /**
   * The refresh over the given pairs: each pair in turn, the results concatenated; the
   * first failure ends the refresh with everything done before it kept.
   */
  function Run(quotes: QuoteSource, pairs: seq<Pair>, date: Day, e: Effects): Outcome<seq<ExchangeRate>>
  {
    if pairs == [] then Outcome(e, Success([]))
    else
      var before := Run(quotes, pairs[..|pairs| - 1], date, e);
      match before.out
      case Failure(_) => before
      case Success(rates) =>
        var p := pairs[|pairs| - 1];
        var step := FetchOrCreate(quotes, p.0, p.1, date, before.effects);
        match step.out
        case Failure(err) => Outcome(step.effects, Failure(err))
        case Success(two) => Outcome(step.effects, Success(rates + two))
  }

  // ---------------------------------------------------------------------------------
  // The service
  // ---------------------------------------------------------------------------------

  class ExchangeRateService {
    const riksbankApiService: RiksbankApiService
    const exchangeRateRepository: ExchangeRateRepository

    constructor (riksbankApiService: RiksbankApiService, exchangeRateRepository: ExchangeRateRepository)
      ensures this.riksbankApiService == riksbankApiService
      ensures this.exchangeRateRepository == exchangeRateRepository
    {
      this.riksbankApiService := riksbankApiService;
      this.exchangeRateRepository := exchangeRateRepository;
    }

    /** The service's current effects. */
    ghost function Current(): Effects
      reads exchangeRateRepository, riksbankApiService
    {
      Effects(exchangeRateRepository.rows, exchangeRateRepository.saveAllCalls, riksbankApiService.crossRateRequests)
    }

    /**
     * convertAmount: the amount itself between equal currencies; otherwise the amount
     * times the rate of a stored row of the pair with the latest date, and an error when
     * the pair has no row.
     */
    function ConvertAmount(request: ConversionRequest): (r: Result<real>)
      reads exchangeRateRepository
      ensures request.fromCurrency == request.toCurrency ==> r == Success(request.amount)
      ensures request.fromCurrency != request.toCurrency ==>
        (r.Failure? <==> forall i :: 0 <= i < |exchangeRateRepository.rows| ==>
          !IsFor(exchangeRateRepository.rows[i], request.fromCurrency, request.toCurrency))
      ensures r.Failure? ==> r.error == IllegalArgument(NoRateMessage)
      ensures request.fromCurrency != request.toCurrency && r.Success? ==>
        exists i :: 0 <= i < |exchangeRateRepository.rows| &&
          var rate := exchangeRateRepository.rows[i];
          IsFor(rate, request.fromCurrency, request.toCurrency) &&
          r.value == rate.conversionRate * request.amount &&
          forall j :: 0 <= j < |exchangeRateRepository.rows| ==>
            (IsFor(exchangeRateRepository.rows[j], request.fromCurrency, request.toCurrency) ==>
               exchangeRateRepository.rows[j].rateDate <= rate.rateDate)
    {
      if request.fromCurrency == request.toCurrency then Success(request.amount)
      else
        match FindLatest(exchangeRateRepository.rows, request.fromCurrency, request.toCurrency)
        case None => Failure(IllegalArgument(NoRateMessage))
        case Some(rate) => Success(rate.conversionRate * request.amount)
    }

    /** createAndSaveExchangeRateAndInverseBasedOnRiksbankenApi. */
    method CreateAndSaveExchangeRateAndInverse(from: Currency, to: Currency) returns (r: Result<ExchangeRate>)
      modifies exchangeRateRepository, riksbankApiService
      ensures Outcome(Current(), r) == CreateAndSave(riksbankApiService.latestCrossRates, from, to, old(Current()))
    {
      var crossRates := riksbankApiService.RequestLatestCrossRates(from, to);
      if crossRates.Failure? {
        return Failure(crossRates.error);
      }
      if crossRates.value == [] {
        return Failure(NoSuchElement);
      }
      var rateFromApi := ExchangeRate(from, to, crossRates.value[0].value, crossRates.value[0].date);
      var inverseRate := CreateInverseExchangeRate(rateFromApi);
      if inverseRate.Failure? {
        return Failure(inverseRate.error);
      }
      exchangeRateRepository.SaveAll([rateFromApi, inverseRate.value]);
      return Success(rateFromApi);
    }

    /** fetchOrCreateExchangeRateWithInverse. */
    method FetchOrCreateExchangeRateWithInverse(from: Currency, to: Currency, latestBankDate: Day)
      returns (r: Result<seq<ExchangeRate>>)
      modifies exchangeRateRepository, riksbankApiService
      ensures Outcome(Current(), r) == FetchOrCreate(riksbankApiService.latestCrossRates, from, to, latestBankDate, old(Current()))
    {
      var exchangeRate: ExchangeRate;
      match FindExact(exchangeRateRepository.rows, from, to, latestBankDate) {
        case Duplicated =>
          return Failure(IncorrectResultSize);
        case Unique(row) =>
          exchangeRate := row;
        case Absent =>
          var created := CreateAndSaveExchangeRateAndInverse(from, to);
          if created.Failure? {
            return Failure(created.error);
          }
          exchangeRate := created.value;
      }
      var inverse := CreateInverseExchangeRate(exchangeRate);
      if inverse.Failure? {
        return Failure(inverse.error);
      }
      return Success([exchangeRate, inverse.value]);
    }

    /**
     * updateAndFetchLatestExchangeRates: for every pair of currencies in declaration
     * order whose first precedes the second, the pair's rate and its inverse.
     */
    method UpdateAndFetchLatestExchangeRates() returns (r: Result<seq<ExchangeRate>>)
      modifies exchangeRateRepository, riksbankApiService
      ensures Outcome(Current(), r) ==
        Run(riksbankApiService.latestCrossRates, AscendingPairs(), LatestBankDay(riksbankApiService.env.now), old(Current()))
    {
      var allRates: seq<ExchangeRate> := [];
      var latestBankDay := LatestBankDay(riksbankApiService.env.now);
      var currencies := Values();
      ghost var quotes := riksbankApiService.latestCrossRates;
      ghost var start := Current();
      ghost var visited: seq<Pair> := [];
      for i := 0 to |currencies|
        invariant visited == Visited(i, 0)
        invariant Run(quotes, visited, latestBankDay, start) == Outcome(Current(), Success(allRates))
      {
        for j := 0 to |currencies|
          invariant visited == Visited(i, j)
          invariant Run(quotes, visited, latestBankDay, start) == Outcome(Current(), Success(allRates))
        {
          var fromCurrency, toCurrency := currencies[i], currencies[j];
          if Ordinal(fromCurrency) < Ordinal(toCurrency) {
            ghost var before := Current();
            var rateAndInverse := FetchOrCreateExchangeRateWithInverse(fromCurrency, toCurrency, latestBankDay);
            RunOneMore(quotes, visited, (fromCurrency, toCurrency), latestBankDay, start, before, allRates, Outcome(Current(), rateAndInverse));
            visited := visited + [(fromCurrency, toCurrency)];
            if rateAndInverse.Failure? {
              VisitedIsPrefix(i, j + 1);
              RunStopsAtFailure(quotes, visited, AscendingPairs(), latestBankDay, start);
              return Failure(rateAndInverse.error);
            }
            allRates := allRates + rateAndInverse.value;
          }
        }
      }
      return Success(allRates);
    }
  }

  // ---------------------------------------------------------------------------------
  // The pairs a refresh visits
  // ---------------------------------------------------------------------------------

  /** Whatever the loops have visited so far is a prefix of what the whole refresh visits. */
  lemma {:induction false} VisitedIsPrefix(i: nat, j: nat)
    requires i < |Values()| || (i == |Values()| && j == 0)
    requires j <= |Values()|
    ensures Visited(i, j) <= AscendingPairs()
    decreases |Values()| - i, |Values()| - j
  {
  }

  lemma PrefixTransitive<T>(x: seq<T>, y: seq<T>, z: seq<T>)
    requires x <= y && y <= z
    ensures x <= z
  {
  }

  /** A refresh that has succeeded so far takes the next pair's step. */
  lemma RunOneMore(quotes: QuoteSource, pairs: seq<Pair>, p: Pair, date: Day, e: Effects,
                   before: Effects, rates: seq<ExchangeRate>, step: Outcome<seq<ExchangeRate>>)
    requires Run(quotes, pairs, date, e) == Outcome(before, Success(rates))
    requires step == FetchOrCreate(quotes, p.0, p.1, date, before)
    ensures Run(quotes, pairs + [p], date, e) ==
      if step.out.Success? then Outcome(step.effects, Success(rates + step.out.value))
      else Outcome(step.effects, Failure(step.out.error))
  {
    assert (pairs + [p])[..|pairs|] == pairs;
  }

  /** A failed refresh stays failed, with the same effects, whatever pairs follow. */
  lemma {:induction false} RunStopsAtFailure(quotes: QuoteSource, pairs: seq<Pair>, all: seq<Pair>, date: Day, e: Effects)
    requires pairs <= all
    requires Run(quotes, pairs, date, e).out.Failure?
    ensures Run(quotes, all, date, e) == Run(quotes, pairs, date, e)
    decreases |all|
  {
    if |pairs| < |all| {
      RunStopsAtFailure(quotes, pairs, all[..|all| - 1], date, e);
    } else {
      assert pairs == all;
    }
  }
}
