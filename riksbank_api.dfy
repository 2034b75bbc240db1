/**
 * The rules of the Riksbank client that do not depend on the network: which day the latest
 * rates belong to, which calendar entry is the bank day, how request URLs are built, and
 * when a response body counts as an error. The HTTP exchange itself is an oracle from URL to
 * response.
 */
module RiksbankApi {
  import opened Currencies
  import opened Domain

  const BaseUrl: string := "https://api.riksbank.se/swea/v1/"

  /** Rates for a day are published at 16:15; times are seconds after midnight. */
  const PublishTime: int := 16 * 3600 + 15 * 60

  type SecondOfDay = s: int | 0 <= s < 86400

  /** The local clock reading, truncated to whole seconds. */
  datatype LocalDateTime = LocalDateTime(date: Day, time: SecondOfDay)

  /** What the HTTP client yields: a transport failure, or a body that may be null. */
  datatype Response<T> = TransportFailure | Received(body: Option<seq<T>>)

  /** The upstream endpoints, indexed by request URL. */
  datatype Upstream = Upstream(
    calendarDays: string -> Response<CalendarDay>,
    crossRates: string -> Response<CrossRate>)

  const NoBankDaysMessage: string := "No bank days found in Riksbank API response"
  const NoValidBankDayMessage: string := "No valid Swedish bank day found"

  function NoCrossRatesMessage(from: Currency, to: Currency): string
  {
    "No cross rates returned from Riksbank for " + Name(from) + " to " + Name(to)
  }

  /**
   * The day whose rates are the latest published: today once the clock has reached
   * 16:15, yesterday before that.
   */
  function LatestBankDay(now: LocalDateTime): (day: Day)
    ensures day == now.date || day == now.date - 1
    ensures day == now.date <==> now.time >= PublishTime
  {
    if now.time < PublishTime then now.date - 1 else now.date
  }

  /** At 16:15:00 sharp the comparison is no longer "before", so today is returned. */
  lemma LatestBankDayAtCutoff(today: Day)
    ensures LatestBankDay(LocalDateTime(today, PublishTime)) == today
    ensures LatestBankDay(LocalDateTime(today, PublishTime - 1)) == today - 1
  {
  }

  /** A later clock reading never yields an earlier bank day. */
  lemma LatestBankDayMonotone(a: LocalDateTime, b: LocalDateTime)
    requires a.date < b.date || (a.date == b.date && a.time <= b.time)
    ensures LatestBankDay(a) <= LatestBankDay(b)
  {
  }

  const CalendarDaysPrefix: string := BaseUrl + "CalendarDays/"
  const CrossRatesPrefix: string := BaseUrl + "CrossRates/"

  /** The calendar request for a day: the date text follows the endpoint path and nothing else. */
  function CalendarDaysUrl(dateText: string): (url: string)
    ensures |url| == |CalendarDaysPrefix| + |dateText|
    ensures url[..|CalendarDaysPrefix|] == CalendarDaysPrefix
    ensures url[|CalendarDaysPrefix|..] == dateText
  {
    CalendarDaysPrefix + dateText
  }

  /** The pieces of x + "/" + s can be read back at their positions. */
  lemma JoinedParts(x: string, s: string)
    ensures var u := x + ("/" + s);
      |u| == |x| + 1 + |s| && u[..|x|] == x && u[|x|] == '/' && u[|x| + 1..] == s
  {
  }

  /**
   * The cross-rate request for a pair on a day.
   */
  function CrossRatesUrl(from: Currency, to: Currency, calendarDate: string): string
  {
    CrossRatesPrefix + (SeriesId(from) + ("/" + (SeriesId(to) + ("/" + calendarDate))))
  }

  /**
   * The cross-rate URL reads back: the endpoint path, the from series id, '/', the to
   * series id, '/', and the calendar date.
   */
  lemma CrossRatesUrlParts(from: Currency, to: Currency, calendarDate: string)
    ensures var url := CrossRatesUrl(from, to, calendarDate);
      |url| == |CrossRatesPrefix| + |SeriesId(from)| + 1 + |SeriesId(to)| + 1 + |calendarDate| &&
      url[..|CrossRatesPrefix|] == CrossRatesPrefix
    ensures var path := CrossRatesUrl(from, to, calendarDate)[|CrossRatesPrefix|..];
      |path| > |SeriesId(from)| && path[..|SeriesId(from)|] == SeriesId(from) && path[|SeriesId(from)|] == '/'
    ensures var rest := CrossRatesUrl(from, to, calendarDate)[|CrossRatesPrefix| + |SeriesId(from)| + 1..];
      |rest| > |SeriesId(to)| && rest[..|SeriesId(to)|] == SeriesId(to) && rest[|SeriesId(to)|] == '/' &&
      rest[|SeriesId(to)| + 1..] == calendarDate
  {
    var rest := SeriesId(to) + ("/" + calendarDate);
    var path := SeriesId(from) + ("/" + rest);
    JoinedParts(SeriesId(to), calendarDate);
    JoinedParts(SeriesId(from), rest);
    assert (CrossRatesPrefix + path)[|CrossRatesPrefix|..] == path;
    assert (CrossRatesPrefix + path)[|CrossRatesPrefix| + |SeriesId(from)| + 1..] == rest;
  }

  /** Different dates never share a calendar URL. */
  lemma CalendarDaysUrlInjective(d: string, d': string)
    requires CalendarDaysUrl(d) == CalendarDaysUrl(d')
    ensures d == d'
  {
    assert d == CalendarDaysUrl(d)[|CalendarDaysPrefix|..];
  }

  /** Index of the first entry flagged as a Swedish bank day, |days| when there is none. */
  function FirstBankDayIndex(days: seq<CalendarDay>): (k: nat)
    ensures k <= |days|
    ensures forall j :: 0 <= j < k ==> !days[j].isSwedishBankday
    ensures k < |days| ==> days[k].isSwedishBankday
  {
    if days == [] then 0
    else if days[0].isSwedishBankday then 0
    else 1 + FirstBankDayIndex(days[1..])
  }

  /**
   * The bank day chosen from a calendar response: an error for a null or empty body,
   * otherwise the first entry flagged as a bank day, and an error when none is.
   */
  function SelectBankDay(body: Option<seq<CalendarDay>>): (r: Result<CalendarDay>)
    ensures (body.None? || body.value == []) ==> r == Failure(RiksbankApiError(NoBankDaysMessage))
    ensures body.Some? && body.value != [] ==>
      (r.Success? <==> exists i :: 0 <= i < |body.value| && body.value[i].isSwedishBankday)
    ensures body.Some? && body.value != [] && r.Failure? ==>
      r.error == RiksbankApiError(NoValidBankDayMessage)
    ensures r.Success? ==>
      exists i :: 0 <= i < |body.value| && body.value[i] == r.value && r.value.isSwedishBankday &&
        forall j :: 0 <= j < i ==> !body.value[j].isSwedishBankday
  {
    if body.None? || body.value == [] then Failure(RiksbankApiError(NoBankDaysMessage))
    else
      var k := FirstBankDayIndex(body.value);
      if k == |body.value| then Failure(RiksbankApiError(NoValidBankDayMessage))
      else Success(body.value[k])
  }

  /**
   * What the client reads besides its arguments: the clock, the text form of a date
   * (LocalDate.toString) and the two endpoints.
   */
  datatype Environment = Environment(now: LocalDateTime, dateText: Day -> string, upstream: Upstream)

  /** getLatestCalendarBankDate: asks the calendar endpoint about the latest bank day. */
  /** The calendar request for the latest bank day as the clock gives it. */
  function LatestCalendarUrl(env: Environment): string
  {
    CalendarDaysUrl(env.dateText(LatestBankDay(env.now)))
  }

  /** getLatestCalendarBankDate: asks the calendar endpoint about the latest bank day. */
  function GetLatestCalendarBankDate(env: Environment): (r: Result<CalendarDay>)
    ensures var resp := env.upstream.calendarDays(LatestCalendarUrl(env));
      (resp.TransportFailure? ==> r == Failure(RestClientError)) &&
      (resp.Received? ==> r == SelectBankDay(resp.body))
  {
    match env.upstream.calendarDays(LatestCalendarUrl(env))
    case TransportFailure => Failure(RestClientError)
    case Received(body) => SelectBankDay(body)
  }

  /** The check on a cross-rate body: null or empty is an error naming the pair. */
  function CheckCrossRates(from: Currency, to: Currency, body: Option<seq<CrossRate>>): (r: Result<seq<CrossRate>>)
    ensures (body.None? || body.value == []) ==> r == Failure(RiksbankApiError(NoCrossRatesMessage(from, to)))
    ensures body.Some? && body.value != [] ==> r == Success(body.value)
  {
    if body.None? || body.value == [] then Failure(RiksbankApiError(NoCrossRatesMessage(from, to)))
    else Success(body.value)
  }

  /**
   * getLatestCrossRates: resolves the bank day through the calendar endpoint, then asks
   * for the pair's cross rates on that day.
   */
  function GetLatestCrossRates(from: Currency, to: Currency, env: Environment): (r: Result<seq<CrossRate>>)
    ensures var day := GetLatestCalendarBankDate(env);
      day.Failure? ==> r == Failure(day.error)
    ensures var day := GetLatestCalendarBankDate(env);
      day.Success? ==>
        var resp := env.upstream.crossRates(CrossRatesUrl(from, to, day.value.calendarDate));
        (resp.TransportFailure? ==> r == Failure(RestClientError)) &&
        (resp.Received? ==> r == CheckCrossRates(from, to, resp.body))
    ensures r.Success? ==>
      var bankDay := GetLatestCalendarBankDate(env).value;
      env.upstream.crossRates(CrossRatesUrl(from, to, bankDay.calendarDate)) == Received(Some(r.value))
  {
    match GetLatestCalendarBankDate(env)
    case Failure(e) => Failure(e)
    case Success(bankDay) =>
      match env.upstream.crossRates(CrossRatesUrl(from, to, bankDay.calendarDate))
      case TransportFailure => Failure(RestClientError)
      case Received(body) => CheckCrossRates(from, to, body)
  }

  /** A successful answer always holds at least one quote. */
  lemma CrossRatesNeverEmpty(from: Currency, to: Currency, env: Environment)
    ensures GetLatestCrossRates(from, to, env).Success? ==> GetLatestCrossRates(from, to, env).value != []
  {
  }

  /** Position of the first '/' in a string, its length when there is none. */
  function SeparatorIndex(u: string): nat
  {
    if u == [] || u[0] == '/' then 0 else 1 + SeparatorIndex(u[1..])
  }

  lemma {:induction false} SeparatorPosition(x: string, s: string)
    requires '/' !in x
    ensures SeparatorIndex(x + ("/" + s)) == |x|
  {
    if x != [] {
      assert (x + ("/" + s))[1..] == x[1..] + ("/" + s);
      SeparatorPosition(x[1..], s);
    }
  }

  /** Two names without the separator joined by '/' can be split back apart. */
  lemma {:induction false} SplitAtSeparator(x: string, y: string, s: string, t: string)
    requires '/' !in x && '/' !in y
    requires x + ("/" + s) == y + ("/" + t)
    ensures x == y && s == t
  {
    var u := x + ("/" + s);
    SeparatorPosition(x, s);
    SeparatorPosition(y, t);
    assert x == u[..|x|] && y == u[..|y|];
    assert s == u[|x| + 1..] && t == u[|y| + 1..];
  }

  /** A path prefix followed by two '/'-terminated names and a tail determines all three. */
  lemma {:induction false} SplitPath(p: string, x: string, y: string, d: string, x': string, y': string, d': string)
    requires '/' !in x && '/' !in y && '/' !in x' && '/' !in y'
    requires p + (x + ("/" + (y + ("/" + d)))) == p + (x' + ("/" + (y' + ("/" + d'))))
    ensures x == x' && y == y' && d == d'
  {
    var s, s' := x + ("/" + (y + ("/" + d))), x' + ("/" + (y' + ("/" + d')));
    assert s == (p + s)[|p|..] && s' == (p + s')[|p|..];
    SplitAtSeparator(x, x', y + ("/" + d), y' + ("/" + d'));
    SplitAtSeparator(y, y', d, d');
  }

  /** Different pairs or days never share a cross-rate URL. */
  lemma {:induction false} CrossRatesUrlInjective(a: Currency, b: Currency, d: string, a': Currency, b': Currency, d': string)
    requires CrossRatesUrl(a, b, d) == CrossRatesUrl(a', b', d')
    ensures a == a' && b == b' && d == d'
  {
    SeriesIdInjective(a, a');
    SeriesIdInjective(b, b');
    SeriesIdInjective(a', a);
    SeriesIdInjective(b', b);
    SplitPath(CrossRatesPrefix, SeriesId(a), SeriesId(b), d, SeriesId(a'), SeriesId(b'), d');
  }

  /** The answers of getLatestCrossRates, pair by pair. */
  type QuoteSource = (Currency, Currency) -> Result<seq<CrossRate>>

  /**
   * The client as the exchange-rate service holds it: its answers for the environment it
   * was built with. The log of cross-rate requests is ghost: it records what a test double
   * would count.
   */
  class RiksbankApiService {
    const env: Environment
    const latestCrossRates: QuoteSource
    ghost var crossRateRequests: seq<Pair>

    constructor (env: Environment)
      ensures this.env == env && crossRateRequests == []
      ensures forall a, b :: latestCrossRates(a, b) == GetLatestCrossRates(a, b, env)
    {
      this.env := env;
      latestCrossRates := (a, b) => GetLatestCrossRates(a, b, env);
      crossRateRequests := [];
    }

    /** getLatestCrossRates, recording the request. */
    method RequestLatestCrossRates(from: Currency, to: Currency) returns (r: Result<seq<CrossRate>>)
      modifies this
      ensures r == latestCrossRates(from, to)
      ensures crossRateRequests == old(crossRateRequests) + [(from, to)]
    {
      r := latestCrossRates(from, to);
      crossRateRequests := crossRateRequests + [(from, to)];
    }
  }
}
