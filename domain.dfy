/** Value types shared by the services: rows, quotes, calendar entries, requests and errors. */
module Domain {
  import opened Currencies

  /** A calendar date as a day number; consecutive days differ by one. */
  type Day = int

  datatype Option<T> = None | Some(value: T)

  /** The outcome of an operation that may throw one of the exceptions in Error. */
  datatype Result<T> = Success(value: T) | Failure(error: Error)

  /** The exceptions the core can raise or let through. */
  datatype Error =
    | RiksbankApiError(message: string)   // RiksbankApiException
    | RestClientError                     // transport failure or non-2xx answer of the HTTP client
    | IllegalArgument(message: string)    // IllegalArgumentException
    | NoSuchElement                       // Optional.orElseThrow() on an empty Optional
    | DivisionByZero                      // ArithmeticException from BigDecimal.divide
    | IncorrectResultSize                 // a single-result repository query matched several rows

  /** A stored exchange rate row (the persistence id is not modelled). */
  datatype ExchangeRate = ExchangeRate(
    fromCurrency: Currency,
    toCurrency: Currency,
    conversionRate: real,
    rateDate: Day)

  /** One quote of the cross-rate endpoint; its date is taken as already parsed. */
  datatype CrossRate = CrossRate(date: Day, value: real)

  /** One entry of the calendar endpoint. */
  datatype CalendarDay = CalendarDay(calendarDate: string, isSwedishBankday: bool)

  /** A conversion request from the web layer. */
  datatype ConversionRequest = ConversionRequest(
    fromCurrency: Currency,
    toCurrency: Currency,
    amount: real)
}
