/**
 * The exchange-rate store: an append-only list of rows with the two derived queries the
 * service uses. Nothing in the store keeps (from, to, date) unique.
 */
module RateRepository {
  import opened Currencies
  import opened Domain

  /** The row converts from `from` to `to`. */
  predicate IsFor(row: ExchangeRate, from: Currency, to: Currency)
  {
    row.fromCurrency == from && row.toCurrency == to
  }

  /** The row converts from `from` to `to` on `date`. */
  predicate IsKeyed(row: ExchangeRate, from: Currency, to: Currency, date: Day)
  {
    IsFor(row, from, to) && row.rateDate == date
  }

  /**
   * Outcome of a single-result query: no row, one row, or several rows (for which the
   * query throws IncorrectResultSizeDataAccessException).
   */
  datatype Lookup = Absent | Unique(row: ExchangeRate) | Duplicated

  /** findByFromCurrencyAndToCurrencyAndRateDate. */
  function FindExact(rows: seq<ExchangeRate>, from: Currency, to: Currency, date: Day): (r: Lookup)
    ensures r.Absent? <==> forall i :: 0 <= i < |rows| ==> !IsKeyed(rows[i], from, to, date)
    ensures r.Unique? ==>
      exists i :: 0 <= i < |rows| && rows[i] == r.row && IsKeyed(r.row, from, to, date) &&
        forall j :: 0 <= j < |rows| && IsKeyed(rows[j], from, to, date) ==> j == i
    ensures r.Duplicated? ==>
      exists i, j :: 0 <= i < j < |rows| && IsKeyed(rows[i], from, to, date) && IsKeyed(rows[j], from, to, date)
  {
    if rows == [] then Absent
    else
      var last := rows[|rows| - 1];
      var before := FindExact(rows[..|rows| - 1], from, to, date);
      if !IsKeyed(last, from, to, date) then before
      else if before.Absent? then Unique(last)
      else Duplicated
  }

  /**
   * findFirstByFromCurrencyAndToCurrencyOrderByRateDateDesc: a row of the pair with the
   * greatest date, or nothing when the pair has no row. Which of several rows sharing the
   * greatest date is returned is not promised.
   */
  function FindLatest(rows: seq<ExchangeRate>, from: Currency, to: Currency): (r: Option<ExchangeRate>)
    ensures r.None? <==> forall i :: 0 <= i < |rows| ==> !IsFor(rows[i], from, to)
    ensures r.Some? ==>
      r.value in rows && IsFor(r.value, from, to) &&
      forall i :: 0 <= i < |rows| && IsFor(rows[i], from, to) ==> rows[i].rateDate <= r.value.rateDate
  {
    if rows == [] then None
    else
      var last := rows[|rows| - 1];
      var before := FindLatest(rows[..|rows| - 1], from, to);
      if IsFor(last, from, to) && (before.None? || before.value.rateDate <= last.rateDate) then Some(last)
      else before
  }

  /** Rows stored under other keys do not change what an exact lookup finds. */
  lemma {:induction false} FindExactIgnoresOtherKeys(rows: seq<ExchangeRate>, extra: seq<ExchangeRate>, from: Currency, to: Currency, date: Day)
    requires forall i :: 0 <= i < |extra| ==> !IsKeyed(extra[i], from, to, date)
    ensures FindExact(rows + extra, from, to, date) == FindExact(rows, from, to, date)
  {
    if extra == [] {
      assert rows + extra == rows;
    } else {
      var n := |extra| - 1;
      assert (rows + extra)[..|rows + extra| - 1] == rows + extra[..n];
      assert (rows + extra)[|rows + extra| - 1] == extra[n];
      FindExactIgnoresOtherKeys(rows, extra[..n], from, to, date);
    }
  }

  /** After saving a row under a key that had none, the exact lookup finds that row. */
  lemma FindExactAfterFirstSave(rows: seq<ExchangeRate>, saved: ExchangeRate, other: ExchangeRate, from: Currency, to: Currency, date: Day)
    requires FindExact(rows, from, to, date).Absent?
    requires IsKeyed(saved, from, to, date) && !IsKeyed(other, from, to, date)
    ensures FindExact(rows + [saved, other], from, to, date) == Unique(saved)
  {
  }

  /** The repository as the service sees it: its rows and how often saveAll was called. */
  class ExchangeRateRepository {
    var rows: seq<ExchangeRate>
    var saveAllCalls: nat

    constructor (initial: seq<ExchangeRate>)
      ensures rows == initial && saveAllCalls == 0
    {
      rows := initial;
      saveAllCalls := 0;
    }

    /** saveAll: appends the rows in order. */
    method SaveAll(batch: seq<ExchangeRate>)
      modifies this
      ensures rows == old(rows) + batch
      ensures saveAllCalls == old(saveAllCalls) + 1
    {
      rows := rows + batch;
      saveAllCalls := saveAllCalls + 1;
    }
  }
}
