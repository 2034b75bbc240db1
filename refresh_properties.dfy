/**
 * What a refresh promises: which pairs it visits, what one pair's step does to the store
 * and to the Riksbank, the shape of the returned list, what a refresh of a store without
 * rows for the bank day does, and that a second refresh on the same bank day is served
 * from the store when every quote carries that day.
 */
module RefreshProperties {
  import opened Currencies
  import opened Domain
  import opened RiksbankApi
  import opened RateRepository
  import opened RateService

  // ---------------------------------------------------------------------------------
  // The visited pairs
  // ---------------------------------------------------------------------------------

  /** Every pair goes from a currency to one declared after it. */
  predicate Ascending(pairs: seq<Pair>)
  {
    forall k :: 0 <= k < |pairs| ==> Ordinal(pairs[k].0) < Ordinal(pairs[k].1)
  }

  /** No pair occurs twice. */
  predicate Distinct(pairs: seq<Pair>)
  {
    forall k, l :: 0 <= k < l < |pairs| ==> pairs[k] != pairs[l]
  }

  /** The refresh visits SEK->EUR, SEK->USD and EUR->USD, in that order. */
  lemma AscendingPairsListed()
    ensures AscendingPairs() == [(SEK, EUR), (SEK, USD), (EUR, USD)]
  {
  }

  /** A pair is visited exactly when its first currency is declared before its second. */
  lemma AscendingPairsAreTheOrderedPairs(a: Currency, b: Currency)
    ensures (a, b) in AscendingPairs() <==> Ordinal(a) < Ordinal(b)
    ensures Ascending(AscendingPairs()) && Distinct(AscendingPairs())
  {
    AscendingPairsListed();
  }

  /** The last pair of an ascending list without repeats appears neither earlier nor reversed. */
  lemma LastIsNew(pairs: seq<Pair>)
    requires |pairs| > 0 && Ascending(pairs) && Distinct(pairs)
    ensures var prefix, p := pairs[..|pairs| - 1], pairs[|pairs| - 1];
      p !in prefix && (p.1, p.0) !in prefix && Ascending(prefix) && Distinct(prefix)
  {
  }

  /** Extending a paired list by one pair, its rate and the rate's inverse keeps it paired. */
  lemma PairedRatesExtend(pairs: seq<Pair>, p: Pair, rates: seq<ExchangeRate>, row: ExchangeRate, inverse: ExchangeRate)
    requires PairedRates(pairs, rates)
    requires IsFor(row, p.0, p.1) && CreateInverseExchangeRate(row) == Success(inverse)
    ensures PairedRates(pairs + [p], rates + [row, inverse])
  {
  }

  // ---------------------------------------------------------------------------------
  // One pair
  // ---------------------------------------------------------------------------------

  /** The quote answer a forward row can be made from: a non-empty list whose first rate is not zero. */
  predicate Usable(answer: Result<seq<CrossRate>>)
  {
    answer.Success? && answer.value != [] && answer.value[0].value != 0.0
  }

  /** Several stored rows for the key make the lookup throw; nothing else happens. */
  lemma FetchOrCreateDuplicated(quotes: QuoteSource, from: Currency, to: Currency, date: Day, e: Effects)
    requires FindExact(e.rows, from, to, date).Duplicated?
    ensures FetchOrCreate(quotes, from, to, date, e) == Outcome(e, Failure(IncorrectResultSize))
  {
  }

  /** A stored row is reused: no request, no save, the row followed by its inverse. */
  lemma FetchOrCreateHit(quotes: QuoteSource, from: Currency, to: Currency, date: Day, e: Effects)
    requires FindExact(e.rows, from, to, date).Unique?
    ensures var row := FindExact(e.rows, from, to, date).row;
      var r := FetchOrCreate(quotes, from, to, date, e);
      r.effects == e &&
      (r.out.Success? <==> row.conversionRate != 0.0) &&
      (r.out.Failure? ==> r.out.error == DivisionByZero) &&
      (r.out.Success? ==> r.out.value == [row, CreateInverseExchangeRate(row).value])
  {
  }

  /**
   * Without a stored row the Riksbank is asked once; a usable answer gives a forward row
   * from the first quote, saved with its inverse in one call and returned with it, and
   * anything else fails with nothing saved.
   */
  lemma FetchOrCreateMiss(quotes: QuoteSource, from: Currency, to: Currency, date: Day, e: Effects)
    requires FindExact(e.rows, from, to, date).Absent?
    ensures var r := FetchOrCreate(quotes, from, to, date, e);
      r.effects.apiCalls == e.apiCalls + [(from, to)] &&
      (r.out.Success? <==> Usable(quotes(from, to)))
    ensures var r := FetchOrCreate(quotes, from, to, date, e);
      r.out.Failure? ==>
        r.effects.rows == e.rows && r.effects.saveAllCalls == e.saveAllCalls &&
        var answer := quotes(from, to);
        r.out.error ==
          if answer.Failure? then answer.error
          else if answer.value == [] then NoSuchElement
          else DivisionByZero
    ensures var r := FetchOrCreate(quotes, from, to, date, e);
      r.out.Success? ==>
        var q := quotes(from, to).value[0];
        r.out.value[0] == ExchangeRate(from, to, q.value, q.date) &&
        r.effects.rows == e.rows + r.out.value &&
        r.effects.saveAllCalls == e.saveAllCalls + 1
  {
  }

  /** A successful step returns a row of the pair followed by that row's inverse. */
  lemma FetchOrCreateShape(quotes: QuoteSource, from: Currency, to: Currency, date: Day, e: Effects)
    ensures var r := FetchOrCreate(quotes, from, to, date, e);
      r.out.Success? ==>
        |r.out.value| == 2 && IsFor(r.out.value[0], from, to) &&
        CreateInverseExchangeRate(r.out.value[0]) == Success(r.out.value[1])
  {
  }

  /**
   * A step keeps the stored rows as a prefix, adds at most two, each of the pair or of
   * its reverse, and never takes back a request or a save.
   */
  lemma FetchOrCreateAppends(quotes: QuoteSource, from: Currency, to: Currency, date: Day, e: Effects)
    ensures var r := FetchOrCreate(quotes, from, to, date, e).effects;
      e.rows <= r.rows &&
      (forall i :: |e.rows| <= i < |r.rows| ==> IsFor(r.rows[i], from, to) || IsFor(r.rows[i], to, from)) &&
      e.saveAllCalls <= r.saveAllCalls && e.apiCalls <= r.apiCalls
  {
    if FindExact(e.rows, from, to, date).Absent? {
      FetchOrCreateMiss(quotes, from, to, date, e);
      FetchOrCreateShape(quotes, from, to, date, e);
    }
  }

  // ---------------------------------------------------------------------------------
  // The list a refresh returns, and what it leaves in the store
  // ---------------------------------------------------------------------------------

  /** The k-th pair's rate sits at 2k and its inverse right after it. */
  predicate PairedRates(pairs: seq<Pair>, rates: seq<ExchangeRate>)
  {
    |rates| == 2 * |pairs| &&
    forall k :: 0 <= k < |pairs| ==>
      IsFor(rates[2 * k], pairs[k].0, pairs[k].1) &&
      CreateInverseExchangeRate(rates[2 * k]) == Success(rates[2 * k + 1])
  }

  /** A successful refresh returns two rows per pair: the pair's rate, then its inverse. */
  lemma {:induction false} RunShape(quotes: QuoteSource, pairs: seq<Pair>, date: Day, e: Effects)
    ensures Run(quotes, pairs, date, e).out.Success? ==>
      PairedRates(pairs, Run(quotes, pairs, date, e).out.value)
  {
    if pairs != [] {
      var prefix, p := pairs[..|pairs| - 1], pairs[|pairs| - 1];
      assert pairs == prefix + [p];
      var before := Run(quotes, prefix, date, e);
      RunShape(quotes, prefix, date, e);
      if before.out.Success? {
        var step := FetchOrCreate(quotes, p.0, p.1, date, before.effects);
        RunOneMore(quotes, prefix, p, date, e, before.effects, before.out.value, step);
        FetchOrCreateShape(quotes, p.0, p.1, date, before.effects);
        if step.out.Success? {
          assert step.out.value == [step.out.value[0], step.out.value[1]];
          PairedRatesExtend(prefix, p, before.out.value, step.out.value[0], step.out.value[1]);
        }
      }
    }
  }

  /** The row concerns one of the pairs, in either direction. */
  predicate Touches(row: ExchangeRate, pairs: seq<Pair>)
  {
    (row.fromCurrency, row.toCurrency) in pairs || (row.toCurrency, row.fromCurrency) in pairs
  }

  /**
   * A refresh, successful or not, only appends to the store, and only rows of its pairs or
   * their reverses; requests and saves are only added.
   */
  lemma {:induction false} RunOnlyAppends(quotes: QuoteSource, pairs: seq<Pair>, date: Day, e: Effects)
    ensures var r := Run(quotes, pairs, date, e).effects;
      e.rows <= r.rows &&
      (forall i :: |e.rows| <= i < |r.rows| ==> Touches(r.rows[i], pairs)) &&
      e.saveAllCalls <= r.saveAllCalls && e.apiCalls <= r.apiCalls
  {
    if pairs != [] {
      var prefix, p := pairs[..|pairs| - 1], pairs[|pairs| - 1];
      assert pairs == prefix + [p];
      var before := Run(quotes, prefix, date, e);
      RunOnlyAppends(quotes, prefix, date, e);
      if before.out.Success? {
        var b := before.effects;
        var r := FetchOrCreate(quotes, p.0, p.1, date, b).effects;
        assert Run(quotes, pairs, date, e).effects == r;
        FetchOrCreateAppends(quotes, p.0, p.1, date, b);
        PrefixTransitive(e.rows, b.rows, r.rows);
        PrefixTransitive(e.apiCalls, b.apiCalls, r.apiCalls);
        forall i | |e.rows| <= i < |r.rows|
          ensures Touches(r.rows[i], pairs)
        {
          if i < |b.rows| {
            assert r.rows[i] == b.rows[i];
            assert Touches(b.rows[i], prefix);
          } else {
            assert p in pairs;
          }
        }
      } else {
        forall i | |e.rows| <= i < |before.effects.rows|
          ensures Touches(before.effects.rows[i], pairs)
        {
          assert Touches(before.effects.rows[i], prefix);
        }
      }
    }
  }

  /** A refresh does not change what the exact lookup finds for a pair it neither visits nor inverts. */
  lemma RunKeepsOtherLookups(quotes: QuoteSource, pairs: seq<Pair>, date: Day, e: Effects, from: Currency, to: Currency)
    requires (from, to) !in pairs && (to, from) !in pairs
    ensures FindExact(Run(quotes, pairs, date, e).effects.rows, from, to, date) == FindExact(e.rows, from, to, date)
  {
    var rows := Run(quotes, pairs, date, e).effects.rows;
    RunOnlyAppends(quotes, pairs, date, e);
    var extra := rows[|e.rows|..];
    assert rows == e.rows + extra;
    forall i | 0 <= i < |extra|
      ensures !IsKeyed(extra[i], from, to, date)
    {
      assert Touches(rows[|e.rows| + i], pairs);
    }
    FindExactIgnoresOtherKeys(e.rows, extra, from, to, date);
  }

  // ---------------------------------------------------------------------------------
  // A refresh of a store without rows for the bank day
  // ---------------------------------------------------------------------------------

  /** No pair has a stored row for the day. */
  predicate NoneStored(rows: seq<ExchangeRate>, pairs: seq<Pair>, date: Day)
  {
    forall k :: 0 <= k < |pairs| ==> FindExact(rows, pairs[k].0, pairs[k].1, date).Absent?
  }

  /** Every pair's quote answer is usable. */
  predicate AllUsable(quotes: QuoteSource, pairs: seq<Pair>)
  {
    forall k :: 0 <= k < |pairs| ==> Usable(quotes(pairs[k].0, pairs[k].1))
  }

  /**
   * When nothing is stored for the day, a refresh succeeds exactly when every quote answer
   * is usable; it then asks for every pair once, saves once per pair, and the store grows
   * by exactly the returned list.
   */
  lemma {:induction false} RunOnEmptyStore(quotes: QuoteSource, pairs: seq<Pair>, date: Day, e: Effects)
    requires Ascending(pairs) && Distinct(pairs)
    requires NoneStored(e.rows, pairs, date)
    ensures Run(quotes, pairs, date, e).out.Success? <==> AllUsable(quotes, pairs)
    ensures var r := Run(quotes, pairs, date, e);
      r.out.Success? ==>
        r.effects.rows == e.rows + r.out.value &&
        r.effects.saveAllCalls == e.saveAllCalls + |pairs| &&
        r.effects.apiCalls == e.apiCalls + pairs
  {
    if pairs == [] {
      assert e.rows + [] == e.rows && e.apiCalls + [] == e.apiCalls;
    } else {
      var prefix, p := pairs[..|pairs| - 1], pairs[|pairs| - 1];
      assert pairs == prefix + [p];
      LastIsNew(pairs);
      NoneStoredSplit(e.rows, pairs, date);
      AllUsableSplit(quotes, pairs);
      RunOnEmptyStore(quotes, prefix, date, e);
      var before := Run(quotes, prefix, date, e);
      if before.out.Success? {
        var b := before.effects;
        RunKeepsOtherLookups(quotes, prefix, date, e, p.0, p.1);
        var step := FetchOrCreate(quotes, p.0, p.1, date, b);
        RunOneMore(quotes, prefix, p, date, e, b, before.out.value, step);
        FetchOrCreateMiss(quotes, p.0, p.1, date, b);
        if step.out.Success? {
          assert b.rows + step.out.value == e.rows + (before.out.value + step.out.value);
        }
      }
    }
  }

  /** Splitting NoneStored at the last pair. */
  lemma NoneStoredSplit(rows: seq<ExchangeRate>, pairs: seq<Pair>, date: Day)
    requires |pairs| > 0
    ensures var prefix, p := pairs[..|pairs| - 1], pairs[|pairs| - 1];
      NoneStored(rows, pairs, date) <==> NoneStored(rows, prefix, date) && FindExact(rows, p.0, p.1, date).Absent?
  {
  }

  /** Splitting AllUsable at the last pair. */
  lemma AllUsableSplit(quotes: QuoteSource, pairs: seq<Pair>)
    requires |pairs| > 0
    ensures var prefix, p := pairs[..|pairs| - 1], pairs[|pairs| - 1];
      AllUsable(quotes, pairs) <==> AllUsable(quotes, prefix) && Usable(quotes(p.0, p.1))
  {
    var prefix := pairs[..|pairs| - 1];
    assert forall k :: 0 <= k < |prefix| ==> prefix[k] == pairs[k];
  }

  /**
   * A refresh of a store without rows for the bank day, whose quote answers are all
   * usable, returns six rows, calls saveAll three times, asks for each ascending pair once,
   * and afterwards every conversion between two different currencies finds a rate.
   */
  lemma RefreshOfEmptyStore(quotes: QuoteSource, date: Day, e: Effects)
    requires NoneStored(e.rows, AscendingPairs(), date)
    requires AllUsable(quotes, AscendingPairs())
    ensures var r := Run(quotes, AscendingPairs(), date, e);
      r.out.Success? && |r.out.value| == 6 &&
      r.effects.saveAllCalls == e.saveAllCalls + 3 &&
      r.effects.apiCalls == e.apiCalls + [(SEK, EUR), (SEK, USD), (EUR, USD)] &&
      forall a: Currency, b: Currency :: a != b ==> FindLatest(r.effects.rows, a, b).Some?
  {
    AscendingPairsListed();
    AscendingPairsAreTheOrderedPairs(SEK, EUR);
    RunOnEmptyStore(quotes, AscendingPairs(), date, e);
    RunShape(quotes, AscendingPairs(), date, e);
    var r := Run(quotes, AscendingPairs(), date, e);
    var rates := r.out.value;
    forall a: Currency, b: Currency | a != b
      ensures FindLatest(r.effects.rows, a, b).Some?
    {
      var pairs := AscendingPairs();
      var k: nat, i: nat;
      if Ordinal(a) < Ordinal(b) {
        k :| k < 3 && pairs[k] == (a, b);
        i := 2 * k;
      } else {
        OrdinalInjective(a, b);
        k :| k < 3 && pairs[k] == (b, a);
        i := 2 * k + 1;
      }
      assert IsFor(rates[2 * k], pairs[k].0, pairs[k].1);
      assert r.effects.rows[|e.rows| + i] == rates[i];
      assert IsFor(r.effects.rows[|e.rows| + i], a, b);
    }
  }

  // ---------------------------------------------------------------------------------
  // A second refresh on the same bank day
  // ---------------------------------------------------------------------------------

  /** Every pair has exactly one stored row for the day, and its rate is not zero. */
  predicate AllStored(rows: seq<ExchangeRate>, pairs: seq<Pair>, date: Day)
  {
    forall k :: 0 <= k < |pairs| ==>
      FindExact(rows, pairs[k].0, pairs[k].1, date).Unique? &&
      FindExact(rows, pairs[k].0, pairs[k].1, date).row.conversionRate != 0.0
  }

  /** The list a refresh served from the store returns: each stored row followed by its inverse. */
  function StoredRates(rows: seq<ExchangeRate>, pairs: seq<Pair>, date: Day): (rates: seq<ExchangeRate>)
    requires AllStored(rows, pairs, date)
    ensures PairedRates(pairs, rates)
  {
    if pairs == [] then []
    else
      var prefix, p := pairs[..|pairs| - 1], pairs[|pairs| - 1];
      AllStoredSplit(rows, pairs, date);
      var rest := StoredRates(rows, prefix, date);
      var row := FindExact(rows, p.0, p.1, date).row;
      var inverse := CreateInverseExchangeRate(row).value;
      PairedRatesExtend(prefix, p, rest, row, inverse);
      assert prefix + [p] == pairs;
      rest + [row, inverse]
  }

  /** Splitting AllStored at the last pair. */
  lemma AllStoredSplit(rows: seq<ExchangeRate>, pairs: seq<Pair>, date: Day)
    requires |pairs| > 0
    ensures var prefix, p := pairs[..|pairs| - 1], pairs[|pairs| - 1];
      AllStored(rows, pairs, date) <==>
        AllStored(rows, prefix, date) &&
        FindExact(rows, p.0, p.1, date).Unique? && FindExact(rows, p.0, p.1, date).row.conversionRate != 0.0
  {
  }

  /** When every pair is stored, the refresh asks nothing, saves nothing and returns the stored rows with their inverses. */
  lemma {:induction false} ReplayRuns(quotes: QuoteSource, pairs: seq<Pair>, date: Day, e: Effects)
    requires AllStored(e.rows, pairs, date)
    ensures Run(quotes, pairs, date, e) == Outcome(e, Success(StoredRates(e.rows, pairs, date)))
  {
    if pairs != [] {
      var prefix, p := pairs[..|pairs| - 1], pairs[|pairs| - 1];
      assert pairs == prefix + [p];
      AllStoredSplit(e.rows, pairs, date);
      ReplayRuns(quotes, prefix, date, e);
      var step := FetchOrCreate(quotes, p.0, p.1, date, e);
      RunOneMore(quotes, prefix, p, date, e, e, StoredRates(e.rows, prefix, date), step);
      FetchOrCreateHit(quotes, p.0, p.1, date, e);
    }
  }

  /** Lookups that agree on every pair give the same stored rates. */
  lemma {:induction false} StoredRatesFrame(rows: seq<ExchangeRate>, rows': seq<ExchangeRate>, pairs: seq<Pair>, date: Day)
    requires AllStored(rows, pairs, date)
    requires forall k :: 0 <= k < |pairs| ==>
      FindExact(rows', pairs[k].0, pairs[k].1, date) == FindExact(rows, pairs[k].0, pairs[k].1, date)
    ensures AllStored(rows', pairs, date)
    ensures StoredRates(rows', pairs, date) == StoredRates(rows, pairs, date)
  {
    if pairs != [] {
      var prefix, p := pairs[..|pairs| - 1], pairs[|pairs| - 1];
      AllStoredSplit(rows, pairs, date);
      AllStoredSplit(rows', pairs, date);
      assert forall k :: 0 <= k < |prefix| ==> prefix[k] == pairs[k];
      StoredRatesFrame(rows, rows', prefix, date);
    }
  }

  /** Every quote answer, when usable, is dated on the given day. */
  predicate QuotesDatedOn(quotes: QuoteSource, date: Day)
  {
    forall a: Currency, b: Currency :: Usable(quotes(a, b)) ==> quotes(a, b).value[0].date == date
  }

  /**
   * After a successful refresh whose quotes carry the bank day, every pair has exactly one
   * row for that day, and the refresh returned exactly those rows with their inverses.
   */
  lemma {:induction false} RunLeavesReplay(quotes: QuoteSource, pairs: seq<Pair>, date: Day, e: Effects)
    requires Ascending(pairs) && Distinct(pairs)
    requires QuotesDatedOn(quotes, date)
    requires Run(quotes, pairs, date, e).out.Success?
    ensures var r := Run(quotes, pairs, date, e);
      AllStored(r.effects.rows, pairs, date) &&
      r.out.value == StoredRates(r.effects.rows, pairs, date)
  {
    if pairs != [] {
      var prefix, p := pairs[..|pairs| - 1], pairs[|pairs| - 1];
      assert pairs == prefix + [p];
      LastIsNew(pairs);
      var before := Run(quotes, prefix, date, e);
      var b := before.effects;
      var step := FetchOrCreate(quotes, p.0, p.1, date, b);
      RunOneMore(quotes, prefix, p, date, e, b, before.out.value, step);
      RunLeavesReplay(quotes, prefix, date, e);
      var rows := step.effects.rows;
      if FindExact(b.rows, p.0, p.1, date).Absent? {
        FetchOrCreateMiss(quotes, p.0, p.1, date, b);
        FetchOrCreateShape(quotes, p.0, p.1, date, b);
        var forward, inverse := step.out.value[0], step.out.value[1];
        assert rows == b.rows + [forward, inverse];
        FindExactAfterFirstSave(b.rows, forward, inverse, p.0, p.1, date);
        SaveKeepsOtherPairs(b.rows, forward, inverse, p, prefix, date);
      } else {
        FetchOrCreateHit(quotes, p.0, p.1, date, b);
      }
      StoredRatesFrame(b.rows, rows, prefix, date);
      AllStoredSplit(rows, pairs, date);
    }
  }

  /** Saving a pair's row and its inverse leaves the lookups of other ascending pairs as they were. */
  lemma SaveKeepsOtherPairs(rows: seq<ExchangeRate>, forward: ExchangeRate, inverse: ExchangeRate, p: Pair, others: seq<Pair>, date: Day)
    requires IsFor(forward, p.0, p.1) && IsFor(inverse, p.1, p.0)
    requires p !in others && (p.1, p.0) !in others
    ensures forall k :: 0 <= k < |others| ==>
      FindExact(rows + [forward, inverse], others[k].0, others[k].1, date) == FindExact(rows, others[k].0, others[k].1, date)
  {
    forall k | 0 <= k < |others|
      ensures FindExact(rows + [forward, inverse], others[k].0, others[k].1, date) == FindExact(rows, others[k].0, others[k].1, date)
    {
      var extra := [forward, inverse];
      assert forall i :: 0 <= i < |extra| ==> !IsKeyed(extra[i], others[k].0, others[k].1, date);
      FindExactIgnoresOtherKeys(rows, extra, others[k].0, others[k].1, date);
    }
  }

  /**
   * When every quote carries the bank day, a second refresh right after a successful one
   * asks the Riksbank nothing, saves nothing and returns the same list.
   */
  lemma RefreshIsIdempotent(quotes: QuoteSource, date: Day, e: Effects)
    requires QuotesDatedOn(quotes, date)
    requires Run(quotes, AscendingPairs(), date, e).out.Success?
    ensures var first := Run(quotes, AscendingPairs(), date, e);
      Run(quotes, AscendingPairs(), date, first.effects) == first
  {
    AscendingPairsAreTheOrderedPairs(SEK, EUR);
    RunLeavesReplay(quotes, AscendingPairs(), date, e);
    ReplayRuns(quotes, AscendingPairs(), date, Run(quotes, AscendingPairs(), date, e).effects);
  }

  /**
   * A refresh of a store holding one row per ascending pair for the bank day asks the
   * Riksbank nothing, saves nothing and still returns six rows.
   */
  lemma RefreshOfStockedStore(quotes: QuoteSource, date: Day, e: Effects)
    requires AllStored(e.rows, AscendingPairs(), date)
    ensures var r := Run(quotes, AscendingPairs(), date, e);
      r.effects == e && r.out.Success? && |r.out.value| == 6
  {
    AscendingPairsListed();
    ReplayRuns(quotes, AscendingPairs(), date, e);
  }

  /** The worked conversion: 10 SEK at a stored SEK->USD rate of 0.11 is 1.1 USD. */
  lemma ConvertsWithStoredRate(service: ExchangeRateService, date: Day)
    requires service.exchangeRateRepository.rows == [ExchangeRate(SEK, USD, 0.11, date)]
    ensures service.ConvertAmount(ConversionRequest(SEK, USD, 10.0)) == Success(1.1)
  {
  }

  /**
   * The store is keyed by the bank day but the saved row carries the quote's date: when
   * the two differ, asking again for the same pair and day requests and saves again, and
   * the quote's date then has two rows for the pair.
   */
  lemma StaleQuoteIsFetchedAgain(quotes: QuoteSource, from: Currency, to: Currency, date: Day, e: Effects)
    requires FindExact(e.rows, from, to, date).Absent?
    requires Usable(quotes(from, to)) && quotes(from, to).value[0].date != date
    ensures var first := FetchOrCreate(quotes, from, to, date, e);
      var second := FetchOrCreate(quotes, from, to, date, first.effects);
      second.out == first.out &&
      second.effects.apiCalls == e.apiCalls + [(from, to), (from, to)] &&
      second.effects.saveAllCalls == e.saveAllCalls + 2 &&
      FindExact(second.effects.rows, from, to, quotes(from, to).value[0].date).Duplicated?
  {
    var first := FetchOrCreate(quotes, from, to, date, e);
    FetchOrCreateMiss(quotes, from, to, date, e);
    var forward := first.out.value[0];
    var inverse := first.out.value[1];
    assert !IsKeyed(forward, from, to, date) && !IsKeyed(inverse, from, to, date);
    FindExactIgnoresOtherKeys(e.rows, [forward, inverse], from, to, date);
    FetchOrCreateMiss(quotes, from, to, date, first.effects);
    var rows := FetchOrCreate(quotes, from, to, date, first.effects).effects.rows;
    var n := |e.rows|;
    assert rows[n] == forward && rows[n + 2] == forward;
    var found := FindExact(rows, from, to, forward.rateDate);
    assert IsKeyed(rows[n], from, to, forward.rateDate) && IsKeyed(rows[n + 2], from, to, forward.rateDate);
    assert !found.Absent?;
    assert !found.Unique?;
  }
}
