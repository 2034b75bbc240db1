# Currency exchange: rates from the Riksbank, cached per bank day

This project models the core of a small currency-exchange service for SEK, EUR and USD.
It has two operations:

- `convertAmount` multiplies an amount by the newest stored rate of the currency pair.
- `updateAndFetchLatestExchangeRates` works through every ascending pair (SEK->EUR, SEK->USD,
  EUR->USD) for the latest bank day. For each pair it reuses a stored row if there is one.
  Otherwise it asks the Riksbank's cross-rate endpoint and saves the rate together with its
  inverse. The inverse is 1 / rate, rounded to seven significant digits with ties to even
  (`MathContext.DECIMAL32`).

The Riksbank client decides which day the latest rates belong to. The cutoff is 16:15 local
time. The client resolves that day through the calendar endpoint, builds the request URLs
and rejects empty answers.

Files:

- `currencies.dfy`: the `Currency` enum, with its series ids, ids, ordinals and `values()`.
- `domain.dfy`: rows, quotes, calendar entries, requests, and the exceptions as an `Error`
  datatype inside `Result`.
- `decimal32.dfy`: exact decimal rounding to seven significant digits, ties to even.
- `riksbank_api.dfy`: the bank-day rule, calendar selection, URLs and the cross-rate body
  check.
  - The HTTP exchange is an oracle from URL to response.
  - The client object holds the answers of `getLatestCrossRates` and logs every request in a
    ghost field.
- `rate_repository.dfy`: the two repository queries as functions over the stored rows, and
  the repository object with `saveAll`.
  - A single-result query that matches several rows yields `Duplicated`. Spring Data throws
    `IncorrectResultSizeDataAccessException` there.
- `rate_service.dfy`: the service class, plus pure functions that describe one pair's step
  (`FetchOrCreate`) and a whole refresh (`Run`).
  - The functions work on the stored rows, the number of `saveAll` calls and the log of
    cross-rate requests.
  - The class methods are proved to have exactly those effects. The refresh method keeps
    the source's nested loops over `values()` with the ordinal filter.
- `refresh_properties.dfy`: what a refresh promises.
  - Which pairs it visits, and the shape of the returned list.
  - Cache hits and misses, and that the store is only appended to.
  - A refresh of a store without rows for the day.
  - Idempotence on the same bank day.

The cache is looked up by the bank day, but the saved row carries the date of the Riksbank
quote. A second refresh on the same bank day is served entirely from the store only when every
quote is dated on that bank day (`RefreshIsIdempotent`, under `QuotesDatedOn`). If a quote
carries another date, the pair is requested and saved again on every refresh, and the quote's
date ends up with two rows for the pair (`StaleQuoteIsFetchedAgain`). The model follows the
code on this point. It does not model an unconditional promise of idempotence.

The code resolves the calendar day again for every cross-rate request. It does not resolve
the day once per refresh. The model does the same: `GetLatestCrossRates` consults the calendar
endpoint for each pair.

## Model

| member | source | states |
|---|---|---|
| `Currencies.Values` | src/main/java/com/rn/currencyexchange/model/Currency.java:3-6 | values() holds exactly three currencies, each once, and every currency is among them |
| `Currencies.OrdinalsInDeclarationOrder` | src/main/java/com/rn/currencyexchange/model/Currency.java:3-6 | values() is SEK, EUR, USD and their ordinals are 0, 1, 2 |
| `Currencies.OrdinalIsPosition` | src/main/java/com/rn/currencyexchange/model/Currency.java:3-6 | a currency's ordinal is its index in values() |
| `Currencies.OrdinalInjective` | src/main/java/com/rn/currencyexchange/model/Currency.java:3-6 | two currencies share an ordinal exactly when they are the same |
| `Currencies.SeriesIdInjective` | src/main/java/com/rn/currencyexchange/model/Currency.java:4-6 | series ids are pairwise distinct and contain no '/' |
| `Currencies.IdAgreesWithOrdinal` | src/main/java/com/rn/currencyexchange/model/Currency.java:4-9 | the id is ordinal + 1, so ids order the currencies as ordinals do |
| `Decimal32.RoundHalfEven` | src/main/java/com/rn/currencyexchange/service/ExchangeRateService.java:86 | the result is within one half of the input, and is even when exactly one half away |
| `Decimal32.RoundHalfEvenUnique` | src/main/java/com/rn/currencyexchange/service/ExchangeRateService.java:86 | those two properties single out the rounded integer |
| `Decimal32.Normalize` | src/main/java/com/rn/currencyexchange/service/ExchangeRateService.java:86 | a positive value equals m * 10^e for a coefficient m with seven integer digits |
| `Decimal32.RoundMagnitude` | src/main/java/com/rn/currencyexchange/service/ExchangeRateService.java:86 | a positive value rounds to n * 10^e for its seven-digit exponent e, with n of seven digits, at most 10^e / 2 away and n even on a tie |
| `Decimal32.Round7` | src/main/java/com/rn/currencyexchange/service/ExchangeRateService.java:86 | DECIMAL32 rounding keeps the sign and 0, errs by at most 5 * 10^-7 of the magnitude, and yields n * 10^e with a seven-digit n at most half a unit 10^e / 2 away, n even on a tie |
| `Decimal32.NearestEvenAtNegated` | src/main/java/com/rn/currencyexchange/service/ExchangeRateService.java:86 | rounding at a fixed digit is symmetric in the sign |
| `Decimal32.Round7IsNearestEven` | src/main/java/com/rn/currencyexchange/service/ExchangeRateService.java:86 | Round7(x) is n * 10^e for every integer n nearest to x / 10^e (the even one on a tie): the rounding is determined |
| `Decimal32.RoundReciprocalOfElevenHundredths` | src/main/java/com/rn/currencyexchange/service/ExchangeRateService.java:86 | 1 / 0.11 rounds to 9.090909 |
| `RiksbankApi.LatestBankDay` | src/main/java/com/rn/currencyexchange/service/RiksbankApiService.java:30-36 | the bank day is today or yesterday, and it is today exactly when the clock is at or past 16:15 |
| `RiksbankApi.LatestBankDayAtCutoff` | src/main/java/com/rn/currencyexchange/service/RiksbankApiService.java:23-36 | at 16:15:00 the day is today; one second earlier it is yesterday |
| `RiksbankApi.LatestBankDayMonotone` | src/main/java/com/rn/currencyexchange/service/RiksbankApiService.java:30-36 | a later clock reading never yields an earlier bank day |
| `RiksbankApi.FirstBankDayIndex` | src/main/java/com/rn/currencyexchange/service/RiksbankApiService.java:67-70 | the index of the first bank-day entry: no earlier entry is a bank day |
| `RiksbankApi.SelectBankDay` | src/main/java/com/rn/currencyexchange/service/RiksbankApiService.java:63-70 | a null or empty body is the "No bank days" error; otherwise it succeeds exactly when some entry is a bank day, returns the first such entry, and otherwise fails with "No valid Swedish bank day" |
| `RiksbankApi.CalendarDaysUrl` | src/main/java/com/rn/currencyexchange/service/RiksbankApiService.java:59 | the calendar URL is the endpoint path followed by exactly the date text |
| `RiksbankApi.CalendarDaysUrlInjective` | src/main/java/com/rn/currencyexchange/service/RiksbankApiService.java:59 | different dates never share a calendar URL |
| `RiksbankApi.CrossRatesUrlParts` | src/main/java/com/rn/currencyexchange/service/RiksbankApiService.java:44-47 | the cross-rate URL reads back as the endpoint path, the from series id, '/', the to series id, '/', and the calendar date |
| `RiksbankApi.GetLatestCalendarBankDate` | src/main/java/com/rn/currencyexchange/service/RiksbankApiService.java:58-71 | asks the calendar URL for the latest bank day; a transport failure propagates, a received body is judged by SelectBankDay |
| `RiksbankApi.CheckCrossRates` | src/main/java/com/rn/currencyexchange/service/RiksbankApiService.java:51-55 | a null or empty cross-rate body is an error naming the pair; any other body is returned as it is |
| `RiksbankApi.GetLatestCrossRates` | src/main/java/com/rn/currencyexchange/service/RiksbankApiService.java:38-56 | a calendar failure propagates; otherwise the cross-rate URL for the pair and the resolved day is asked, a transport failure is a RestClientError and a received body is judged by CheckCrossRates, so a success is exactly the body that URL returned |
| `RiksbankApi.CrossRatesNeverEmpty` | src/main/java/com/rn/currencyexchange/service/RiksbankApiService.java:51-55 | a successful cross-rate answer holds at least one quote |
| `RiksbankApi.CrossRatesUrlInjective` | src/main/java/com/rn/currencyexchange/service/RiksbankApiService.java:44-47 | different pairs or calendar dates never share a cross-rate URL |
| `RiksbankApi.RiksbankApiService.RequestLatestCrossRates` | src/main/java/com/rn/currencyexchange/service/RiksbankApiService.java:38-56 | returns the client's answer for the pair and logs exactly one request for it |
| `RateRepository.FindExact` | src/main/java/com/rn/currencyexchange/repository/ExchangeRateRepository.java:14 | nothing exactly when no row has the key; a unique row when exactly one has; duplicated when two do |
| `RateRepository.FindLatest` | src/main/java/com/rn/currencyexchange/repository/ExchangeRateRepository.java:16 | nothing exactly when the pair has no row; otherwise a stored row of the pair whose date no other row of the pair exceeds |
| `RateRepository.FindExactIgnoresOtherKeys` | src/main/java/com/rn/currencyexchange/repository/ExchangeRateRepository.java:14 | appending rows under other keys leaves the exact lookup unchanged |
| `RateRepository.FindExactAfterFirstSave` | src/main/java/com/rn/currencyexchange/repository/ExchangeRateRepository.java:14 | after saving a row under a key that had none, the lookup finds exactly that row |
| `RateRepository.ExchangeRateRepository.SaveAll` | src/main/java/com/rn/currencyexchange/service/ExchangeRateService.java:106 | appends the batch in order and counts one call |
| `RateService.CreateInverseExchangeRate` | src/main/java/com/rn/currencyexchange/service/ExchangeRateService.java:85-89 | fails exactly for a zero rate (division by zero); otherwise the reversed pair on the same day, with 1 / rate rounded to seven digits, within the rounding error of 1 / rate and of the same sign |
| `RateService.InverseTimesRate` | src/main/java/com/rn/currencyexchange/service/ExchangeRateService.java:85-89 | a rate times its inverse is 1 to within 5 * 10^-7 |
| `RateService.InverseOfInverse` | src/main/java/com/rn/currencyexchange/service/ExchangeRateService.java:85-89 | inverting twice succeeds and gives back the original pair, day and sign |
| `RateService.ExchangeRateService.ConvertAmount` | src/main/java/com/rn/currencyexchange/service/ExchangeRateService.java:33-43 | equal currencies give the amount itself; otherwise it fails with the "No exchange rate found" message exactly when the pair has no row, and else gives the amount times the rate of a row of the pair with the greatest date |
| `RateService.ExchangeRateService.CreateAndSaveExchangeRateAndInverse` | src/main/java/com/rn/currencyexchange/service/ExchangeRateService.java:91-109 | its result, stored rows, saveAll count and request log are exactly those CreateAndSave describes |
| `RateService.ExchangeRateService.FetchOrCreateExchangeRateWithInverse` | src/main/java/com/rn/currencyexchange/service/ExchangeRateService.java:78-83 | its result and effects are exactly those FetchOrCreate describes |
| `RateService.ExchangeRateService.UpdateAndFetchLatestExchangeRates` | src/main/java/com/rn/currencyexchange/service/ExchangeRateService.java:51-67 | the nested loops have exactly the result and effects of Run over the ascending pairs for the latest bank day |
| `RateService.VisitedIsPrefix` | src/main/java/com/rn/currencyexchange/service/ExchangeRateService.java:56-64 | the pairs the loops have handed on so far are a prefix of all pairs they visit |
| `RateService.RunOneMore` | src/main/java/com/rn/currencyexchange/service/ExchangeRateService.java:60-61 | one more pair appends its two rows to a successful refresh, or ends it with the pair's exception |
| `RateService.RunStopsAtFailure` | src/main/java/com/rn/currencyexchange/service/ExchangeRateService.java:60 | once a pair fails, the refresh fails with the same effects whatever pairs follow; earlier saves stay |
| `RefreshProperties.AscendingPairsListed` | src/main/java/com/rn/currencyexchange/service/ExchangeRateService.java:56-64 | the refresh visits SEK->EUR, SEK->USD, EUR->USD in that order |
| `RefreshProperties.AscendingPairsAreTheOrderedPairs` | src/main/java/com/rn/currencyexchange/service/ExchangeRateService.java:59 | a pair is visited exactly when its first currency's ordinal is below its second's, and none twice |
| `RefreshProperties.FetchOrCreateDuplicated` | src/main/java/com/rn/currencyexchange/service/ExchangeRateService.java:79 | several stored rows for the key make the lookup throw, with no other effect |
| `RefreshProperties.FetchOrCreateHit` | src/main/java/com/rn/currencyexchange/service/ExchangeRateService.java:78-83 | a stored row is reused with no request and no save, and is returned with its inverse |
| `RefreshProperties.FetchOrCreateMiss` | src/main/java/com/rn/currencyexchange/service/ExchangeRateService.java:78-109 | without a stored row the pair is requested once. It succeeds exactly when the answer is usable, and then the first quote's row and its inverse are saved in one call and returned. Otherwise the exception passes through and nothing is saved |
| `RefreshProperties.FetchOrCreateShape` | src/main/java/com/rn/currencyexchange/service/ExchangeRateService.java:82 | a successful step returns a row of the pair followed by its inverse |
| `RefreshProperties.FetchOrCreateAppends` | src/main/java/com/rn/currencyexchange/service/ExchangeRateService.java:78-109 | a step only appends rows of the pair or its reverse, and only adds requests and saves |
| `RefreshProperties.PairedRatesExtend` | src/main/java/com/rn/currencyexchange/service/ExchangeRateService.java:61 | adding a pair's rate and inverse to a paired list keeps it paired |
| `RefreshProperties.RunShape` | src/main/java/com/rn/currencyexchange/service/ExchangeRateService.java:51-67 | a successful refresh returns two rows per pair: the pair's rate at 2k, its inverse at 2k+1 |
| `RefreshProperties.RunOnlyAppends` | src/main/java/com/rn/currencyexchange/service/ExchangeRateService.java:51-67 | a refresh, failed or not, keeps the old rows as a prefix and adds only rows of its pairs or their reverses |
| `RefreshProperties.RunKeepsOtherLookups` | src/main/java/com/rn/currencyexchange/service/ExchangeRateService.java:51-67 | a refresh leaves the exact lookup of any pair it neither visits nor inverts unchanged |
| `RefreshProperties.RunOnEmptyStore` | src/main/java/com/rn/currencyexchange/service/ExchangeRateService.java:51-109 | with no rows for the day, a refresh succeeds exactly when every answer is usable, and then requests each pair once, saves once per pair and stores exactly the returned list |
| `RefreshProperties.RefreshOfEmptyStore` | src/test/java/com/rn/currencyexchange/service/ExchangeRateServiceTest.java:70-79 | from an empty cache with usable answers: six rows, three saveAll calls, the three ascending pairs requested, and every conversion between different currencies then finds a rate |
| `RefreshProperties.ReplayRuns` | src/main/java/com/rn/currencyexchange/service/ExchangeRateService.java:78-83 | when every pair has one stored nonzero row, a refresh has no effect and returns those rows with their inverses |
| `RefreshProperties.RefreshOfStockedStore` | src/test/java/com/rn/currencyexchange/service/ExchangeRateServiceTest.java:81-98 | with the three pairs stored for the day: six rows returned, no request and no save |
| `RefreshProperties.StoredRatesFrame` | src/main/java/com/rn/currencyexchange/service/ExchangeRateService.java:79 | stores that agree on every pair's lookup yield the same cached answer |
| `RefreshProperties.RunLeavesReplay` | src/main/java/com/rn/currencyexchange/service/ExchangeRateService.java:51-109 | after a successful refresh whose quotes carry the bank day, every pair has exactly one row for that day, and the refresh returned those rows with their inverses |
| `RefreshProperties.RefreshIsIdempotent` | src/main/java/com/rn/currencyexchange/service/ExchangeRateService.java:69-83 | with quotes dated on the bank day, a second refresh right after a successful one has no effect and returns the same list |
| `RefreshProperties.StaleQuoteIsFetchedAgain` | src/main/java/com/rn/currencyexchange/service/ExchangeRateService.java:79-100 | a quote dated off the bank day is requested and saved again on the next call, and its date then holds two rows of the pair |
| `RefreshProperties.ConvertsWithStoredRate` | src/test/java/com/rn/currencyexchange/service/ExchangeRateServiceTest.java:41-56 | 10 SEK at a stored SEK->USD rate of 0.11 converts to 1.1 |

## Left out

- HTTP is not modelled: request headers, the subscription key, the `RestTemplate` and status codes. Every transport-level failure is one `RestClientError`.
- The clock is read once, as `Environment.now`. The source reads `LocalDateTime.now()` again inside every `getLatestCrossRates` call. A refresh that straddles 16:15 is therefore not modelled.
- The client's cross-rate answers are fixed when the client is built. Upstream data does not change during the life of one client.
- The calendar requests made inside `getLatestCrossRates` are not logged. Only the cross-rate requests are counted.
- `LocalDate.toString` is the `dateText` parameter of the environment. `LocalDate.parse` of a quote's date is taken as already done: a quote's date is a day number, so malformed dates and parse errors are not modelled.
- `CalendarDay.java` is not part of this model. It is taken as a calendar date string and a bank-day flag.
- BigDecimal is an exact rational. Scale, precision and `equals` versus `compareTo` are not modelled.
- `null` fields of requests and rows are not modelled. They belong to the web layer, as do the controller and the exception handler.
- Persistence ids are not modelled. Nor are transactions and concurrent refreshes: two overlapping refreshes could both miss and save.
- RateRepository.FindLatest: the query's choice between rows of the pair that share the greatest date is database-dependent. The contract only promises some such row.
