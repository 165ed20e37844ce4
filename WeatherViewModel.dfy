/**
  WeatherViewModel (MainActivity.kt): validation of the user's input, the
  choice between the historical average, the archive endpoint and the
  forecast endpoint, the handling of the reply, and the write-back into the
  weather_data table.

  The clock is the parameter `today`. Each HTTP exchange is the parameter
  `reply`, the outcome the endpoint would deliver to the callback; the
  request the view model sends is returned, so that "no request" is
  observable. Coroutines and callbacks run to completion in order.
*/
module ViewModel {
  import opened Wrappers
  import opened Calendar
  import opened IsoDateText
  import opened Coordinates
  import opened Entries
  import opened Dao

  // ---------------------------------------------------------------------------
  // Data received from and sent to the endpoints

  /** The daily series of a reply: dates, maxima and minima. */
  datatype Daily = Daily(time: seq<string>, temperatureMax: seq<real>, temperatureMin: seq<real>)

  /** The body of a reply; the metadata the view model never reads is not modelled. */
  datatype WeatherData = WeatherData(latitude: real, longitude: real, daily: Daily)

  /** What a call delivers: onFailure, a non-2xx response, or a 2xx response with a body or none. */
  datatype Reply = Failure | NonSuccess | Success(body: Option<WeatherData>)

  datatype Endpoint = Archive | Forecast {
    function Url(): string {
      match this
      case Archive => "https://archive-api.open-meteo.com/v1/archive"
      case Forecast => "https://api.open-meteo.com/v1/forecast"
    }
  }

  /** A GET request with its query parameters. */
  datatype Request = Request(endpoint: Endpoint, latitude: real, longitude: real,
                             startDate: string, endDate: string, daily: string)

  const DailyMetrics: string := "temperature_2m_max,temperature_2m_min"

  const InvalidDateMessage: string := "Invalid input. Please enter a valid date (MM-DD) and year."
  const FetchErrorMessage: string := "Error fetching weather data. Please try again later."
  const NoTemperatureDataMessage: string := "Error occurred, temperature data not available for the specified date"
  const NetworkErrorMessage: string := "Network error. Please check your internet connection."
  const NoHistoricalDataMessage: string := "No historical data available to calculate averages."
  const HistoricalFetchErrorMessage: string := "Error fetching historical data. Please try again."
  const InvalidCoordinatesResult: string := "Invalid coordinates. Please enter valid latitude and longitude."
  const StoredResult: string := "Historical data fetched and stored successfully."

  /** The observable state of a view model: the error, the weather data and the table. */
  datatype State = State(error: Option<string>, weatherData: Option<WeatherData>, table: Table)

  // ---------------------------------------------------------------------------
  // Validation and routing

  /** The message of the first failing input check: the date, then the coordinates. */
  function InputError(date: string, latitude: Option<real>, longitude: Option<real>): (r: Option<string>)
    ensures r.None? <==> IsValidDate(date) && ValidateCoordinates(latitude, longitude).None?
    ensures !IsValidDate(date) ==> r == Some(InvalidDateMessage)
    ensures IsValidDate(date) && ValidateCoordinates(latitude, longitude).Some? ==>
      r == Some(ValidateCoordinates(latitude, longitude).value.Message())
  {
    if !IsValidDate(date) then Some(InvalidDateMessage)
    else match ValidateCoordinates(latitude, longitude)
      case Some(e) => Some(e.Message())
      case None => None
  }

  datatype Route = FutureAverage | Remote(endpoint: Endpoint)

  /**
    The branch fetchWeatherData takes for a requested date, stated by
    distance in days: after today averages, more than ten days before today
    goes to the archive, today and the ten days before it go to the forecast.
  */
  function RouteFor(requested: Date, today: Date): (r: Route)
    requires WellFormed(requested) && WellFormed(today)
    ensures r == FutureAverage <==> DayIndex(requested) > DayIndex(today)
    ensures r == Remote(Archive) <==> DayIndex(requested) < DayIndex(today) - 10
    ensures r == Remote(Forecast) <==> DayIndex(today) - 10 <= DayIndex(requested) <= DayIndex(today)
  {
    BeforeIffIndexLess(today, requested);
    BeforeIffIndexLess(requested, MinusDays(today, 10));
    MinusDaysIndex(today, 10);
    if After(requested, today) then FutureAverage
    else if Before(requested, MinusDays(today, 10)) then Remote(Archive)
    else Remote(Forecast)
  }

  /** Today and each of the ten days before it go to the forecast; the eleventh goes to the archive. */
  lemma ForecastWindow(today: Date, k: nat)
    requires WellFormed(today)
    ensures k <= 10 ==> RouteFor(MinusDays(today, k), today) == Remote(Forecast)
    ensures k > 10 ==> RouteFor(MinusDays(today, k), today) == Remote(Archive)
  {
    MinusDaysIndex(today, k);
  }

  // ---------------------------------------------------------------------------
  // Replies of the archive and forecast endpoints

  /** A 2xx reply with a body whose maxima and minima are both non-empty. */
  predicate HasTemperatures(reply: Reply) {
    reply.Success? && reply.body.Some?
    && |reply.body.value.daily.temperatureMax| > 0 && |reply.body.value.daily.temperatureMin| > 0
  }

  /** The row written back after a usable reply: the request's date, rounded coordinates, element 0. */
  function ReplyEntry(date: string, latitude: real, longitude: real, reply: Reply): WeatherEntry
    requires HasTemperatures(reply)
  {
    WeatherEntry(date, RoundToTwoDecimals(latitude), RoundToTwoDecimals(longitude),
                 reply.body.value.daily.temperatureMax[0], reply.body.value.daily.temperatureMin[0])
  }

  /** The message a reply without temperatures leaves. */
  function ReplyError(reply: Reply): string
    requires !HasTemperatures(reply)
  {
    match reply
    case Failure => NetworkErrorMessage
    case NonSuccess => FetchErrorMessage
    case Success(_) => NoTemperatureDataMessage
  }

  /** The state after the callback of an archive or forecast call. */
  function AfterReply(s: State, date: string, latitude: real, longitude: real, reply: Reply): State {
    if HasTemperatures(reply) then
      State(None, Some(reply.body.value), Inserted(s.table, ReplyEntry(date, latitude, longitude, reply)))
    else
      s.(error := Some(ReplyError(reply)))
  }

  // ---------------------------------------------------------------------------
  // The historical average

  /** The requested month and day in another year. */
  function InYear(date: Date, year: int): Date {
    Date(year, date.month, date.day)
  }

  /** The dates getHistoricalDates builds, or None where LocalDate.of throws. */
  function HistoricalDates(date: Date, currentYear: int): Option<seq<Date>> {
    if forall y :: currentYear - 10 <= y < currentYear ==> ValidDate(InYear(date, y))
    then Some(seq(10, i requires 0 <= i < 10 => InYear(date, currentYear - 10 + i)))
    else None
  }

  /**
    Ten dates with the requested month and day, in the years currentYear - 10
    to currentYear - 1 in ascending order; none when one of them does not
    exist. The requested year plays no part.
  */
  lemma HistoricalDatesShape(date: Date, other: Date, currentYear: int)
    requires other.month == date.month && other.day == date.day
    ensures HistoricalDates(date, currentYear) == HistoricalDates(other, currentYear)
    ensures HistoricalDates(date, currentYear).None? <==>
      exists y :: currentYear - 10 <= y < currentYear && !ValidDate(InYear(date, y))
    ensures HistoricalDates(date, currentYear).Some? ==>
      var ds := HistoricalDates(date, currentYear).value;
      && |ds| == 10
      && (forall i :: 0 <= i < 10 ==>
            ds[i].year == currentYear - 10 + i && ds[i].month == date.month && ds[i].day == date.day
            && ValidDate(ds[i]))
      && (forall i, j :: 0 <= i < j < 10 ==> Before(ds[i], ds[j]))
  {
    assert forall y :: InYear(date, y) == InYear(other, y);
    var mine := seq(10, i requires 0 <= i < 10 => InYear(date, currentYear - 10 + i));
    var theirs := seq(10, i requires 0 <= i < 10 => InYear(other, currentYear - 10 + i));
    assert forall i :: 0 <= i < 10 ==> mine[i] == theirs[i];
    assert mine == theirs;
    if HistoricalDates(date, currentYear).Some? {
      var ds := HistoricalDates(date, currentYear).value;
      forall i | 0 <= i < 10 ensures ValidDate(ds[i]) {
        assert ds[i] == InYear(date, currentYear - 10 + i);
      }
    }
  }

  /** What getWeatherFromDatabase returns: nothing for invalid input, else the row under the rounded key. */
  function CachedWeather(t: Table, date: string, latitude: real, longitude: real): Option<WeatherEntry> {
    if InputError(date, Some(latitude), Some(longitude)).Some? then None
    else Lookup(t, date, RoundToTwoDecimals(latitude), RoundToTwoDecimals(longitude))
  }

  /** Every date of ds exists. */
  predicate AllValid(ds: seq<Date>) {
    forall i :: 0 <= i < |ds| ==> ValidDate(ds[i])
  }

  /** The ISO texts of the dates, in order. */
  function DateTexts(ds: seq<Date>): (r: seq<string>)
    requires AllValid(ds)
    ensures |r| == |ds|
  {
    seq(|ds|, i requires 0 <= i < |ds| => FormatIsoDate(ds[i]))
  }

  /** Every text passes isValidDate. */
  predicate AllDateTexts(texts: seq<string>) {
    forall i :: 0 <= i < |texts| ==> IsValidDate(texts[i])
  }

  /** The rows getWeatherFromDatabase finds for the date texts, in order. */
  function Hits(t: Table, texts: seq<string>, latitude: real, longitude: real): seq<WeatherEntry>
    decreases |texts|
  {
    if texts == [] then []
    else
      var earlier := Hits(t, texts[..|texts| - 1], latitude, longitude);
      match CachedWeather(t, texts[|texts| - 1], latitude, longitude)
      case Some(e) => earlier + [e]
      case None => earlier
  }

  datatype Extreme = Highest | Lowest

  function Temperature(e: WeatherEntry, which: Extreme): real {
    if which == Highest then e.maxTemperature else e.minTemperature
  }

  /** The sum of the maxima or of the minima. */
  function Sum(es: seq<WeatherEntry>, which: Extreme): real
    decreases |es|
  {
    if es == [] then 0.0 else Sum(es[..|es| - 1], which) + Temperature(es[|es| - 1], which)
  }

  /** What calculateAndDisplayAverageTemperatures produces. */
  datatype Averages =
    | HistoryUnavailable          // LocalDate.of threw while building the dates
    | NoHistory                   // no historical date had a cached row
    | Mean(maxTemperature: real, minTemperature: real)

  /**
    The averages of a run of hits: none without hits, otherwise the means of
    the maxima and of the minima, each on whole hundredths and within half a
    hundredth of the exact mean.
  */
  function MeanOf(hits: seq<WeatherEntry>): (r: Averages)
    ensures !r.HistoryUnavailable?
    ensures r.NoHistory? <==> |hits| == 0
    ensures r.Mean? ==>
      var n := |hits| as real;
      && OnGrid(r.maxTemperature) && OnGrid(r.minTemperature)
      && Sum(hits, Highest) / n - 0.005 <= r.maxTemperature <= Sum(hits, Highest) / n + 0.005
      && Sum(hits, Lowest) / n - 0.005 <= r.minTemperature <= Sum(hits, Lowest) / n + 0.005
  {
    if |hits| == 0 then NoHistory
    else
      RoundingIsNearest(Sum(hits, Highest) / (|hits| as real));
      RoundingIsNearest(Sum(hits, Lowest) / (|hits| as real));
      Mean(RoundToTwoDecimals(Sum(hits, Highest) / (|hits| as real)),
           RoundToTwoDecimals(Sum(hits, Lowest) / (|hits| as real)))
  }

  function AverageOutcome(t: Table, date: Date, currentYear: int, latitude: real, longitude: real): Averages {
    match HistoricalDates(date, currentYear)
    case None => HistoryUnavailable
    case Some(ds) =>
      assert AllValid(ds) by { HistoricalDatesShape(date, date, currentYear); }
      MeanOf(Hits(t, DateTexts(ds), latitude, longitude))
  }

  /** A valid date's own ISO text passes isValidDate. */
  lemma FormattedDateIsValid(d: Date)
    requires ValidDate(d)
    ensures IsValidDate(FormatIsoDate(d))
  {
    FormatParseRoundTrip(d);
  }

  lemma DateTextsAreValid(ds: seq<Date>)
    requires AllValid(ds)
    ensures AllDateTexts(DateTexts(ds))
  {
    forall i | 0 <= i < |ds| ensures IsValidDate(DateTexts(ds)[i]) {
      FormattedDateIsValid(ds[i]);
    }
  }

  /** The next text adds its row, if it has one, at the end of the hits. */
  lemma HitsStep(t: Table, texts: seq<string>, i: nat, latitude: real, longitude: real)
    requires i < |texts|
    ensures Hits(t, texts[..i + 1], latitude, longitude) ==
      match CachedWeather(t, texts[i], latitude, longitude)
      case Some(e) => Hits(t, texts[..i], latitude, longitude) + [e]
      case None => Hits(t, texts[..i], latitude, longitude)
  {
    assert texts[..i + 1][..i] == texts[..i];
  }

  lemma SumSnoc(es: seq<WeatherEntry>, e: WeatherEntry, which: Extreme)
    ensures Sum(es + [e], which) == Sum(es, which) + Temperature(e, which)
  {
    assert (es + [e])[..|es|] == es;
  }

  /** Every hit is what getWeatherFromDatabase returns for one of the texts. */
  lemma {:induction false} HitsAreRowsOfTheDates(t: Table, texts: seq<string>, latitude: real, longitude: real)
    ensures |Hits(t, texts, latitude, longitude)| <= |texts|
    ensures forall e :: e in Hits(t, texts, latitude, longitude) ==>
      exists i :: 0 <= i < |texts| && CachedWeather(t, texts[i], latitude, longitude) == Some(e)
    decreases |texts|
  {
    if texts != [] {
      var front := texts[..|texts| - 1];
      HitsAreRowsOfTheDates(t, front, latitude, longitude);
      forall e | e in Hits(t, texts, latitude, longitude)
        ensures exists i :: 0 <= i < |texts| && CachedWeather(t, texts[i], latitude, longitude) == Some(e)
      {
        if e in Hits(t, front, latitude, longitude) {
          var i :| 0 <= i < |front| && CachedWeather(t, front[i], latitude, longitude) == Some(e);
          assert texts[i] == front[i];
        } else {
          assert CachedWeather(t, texts[|texts| - 1], latitude, longitude) == Some(e);
        }
      }
    }
  }

  /** For a valid date text getWeatherFromDatabase answers by the coordinates alone. */
  lemma CachedWeatherOfValidDate(t: Table, date: string, latitude: real, longitude: real)
    requires IsValidDate(date)
    ensures InputError(date, Some(latitude), Some(longitude)).None? <==>
      ValidateCoordinates(Some(latitude), Some(longitude)).None?
    ensures CachedWeather(t, date, latitude, longitude) ==
      if ValidateCoordinates(Some(latitude), Some(longitude)).Some? then None
      else Lookup(t, date, RoundToTwoDecimals(latitude), RoundToTwoDecimals(longitude))
  {
  }

  /** What getWeatherFromDatabase returns for each text, in order. */
  function Answers(t: Table, texts: seq<string>, latitude: real, longitude: real): (r: seq<Option<WeatherEntry>>)
    ensures |r| == |texts|
  {
    seq(|texts|, i requires 0 <= i < |texts| => CachedWeather(t, texts[i], latitude, longitude))
  }

  /** The rows among a run of answers, in order. */
  function Found(answers: seq<Option<WeatherEntry>>): seq<WeatherEntry>
    decreases |answers|
  {
    if answers == [] then []
    else
      var earlier := Found(answers[..|answers| - 1]);
      match answers[|answers| - 1]
      case Some(e) => earlier + [e]
      case None => earlier
  }

  /** The hits are the rows among the answers for the texts. */
  lemma {:induction false} HitsAreFound(t: Table, texts: seq<string>, latitude: real, longitude: real)
    ensures Hits(t, texts, latitude, longitude) == Found(Answers(t, texts, latitude, longitude))
    decreases |texts|
  {
    if texts != [] {
      var front := texts[..|texts| - 1];
      HitsAreFound(t, front, latitude, longitude);
      var answers := Answers(t, texts, latitude, longitude);
      assert answers[..|front|] == Answers(t, front, latitude, longitude);
    }
  }

  /** Every row among the answers is found. */
  lemma {:induction false} FoundContainsRows(answers: seq<Option<WeatherEntry>>)
    ensures forall i :: 0 <= i < |answers| && answers[i].Some? ==> answers[i].value in Found(answers)
    decreases |answers|
  {
    if answers != [] {
      var front := answers[..|answers| - 1];
      FoundContainsRows(front);
      assert forall e :: e in Found(front) ==> e in Found(answers);
      assert forall i :: 0 <= i < |front| ==> front[i] == answers[i];
    }
  }

  /** One row is found per answer that has one. */
  lemma {:induction false} FoundCount(answers: seq<Option<WeatherEntry>>)
    ensures |Found(answers)| == |set i | 0 <= i < |answers| && answers[i].Some?|
    decreases |answers|
  {
    var rows := set i | 0 <= i < |answers| && answers[i].Some?;
    if answers == [] {
      assert rows == {};
    } else {
      var front, n := answers[..|answers| - 1], |answers| - 1;
      FoundCount(front);
      var earlier := set i | 0 <= i < |front| && front[i].Some?;
      assert forall i :: 0 <= i < |front| ==> front[i] == answers[i];
      assert n !in earlier;
      if answers[n].Some? {
        assert rows == earlier + {n};
      } else {
        assert rows == earlier;
      }
    }
  }

  /** Every row getWeatherFromDatabase finds for one of the texts is among the hits. */
  lemma {:induction false} FoundRowsAreHits(t: Table, texts: seq<string>, latitude: real, longitude: real)
    ensures forall i :: 0 <= i < |texts| && CachedWeather(t, texts[i], latitude, longitude).Some? ==>
      CachedWeather(t, texts[i], latitude, longitude).value in Hits(t, texts, latitude, longitude)
  {
    var answers := Answers(t, texts, latitude, longitude);
    HitsAreFound(t, texts, latitude, longitude);
    FoundContainsRows(answers);
    forall i | 0 <= i < |texts| && CachedWeather(t, texts[i], latitude, longitude).Some?
      ensures CachedWeather(t, texts[i], latitude, longitude).value in Hits(t, texts, latitude, longitude)
    {
      assert answers[i] == CachedWeather(t, texts[i], latitude, longitude);
    }
  }

  /** The loop counts one hit per text that has a row: the hits are as many as those texts. */
  lemma {:induction false} HitsCountFoundTexts(t: Table, texts: seq<string>, latitude: real, longitude: real)
    ensures |Hits(t, texts, latitude, longitude)| ==
      |set i | 0 <= i < |texts| && CachedWeather(t, texts[i], latitude, longitude).Some?|
  {
    var answers := Answers(t, texts, latitude, longitude);
    HitsAreFound(t, texts, latitude, longitude);
    FoundCount(answers);
    assert (set i | 0 <= i < |answers| && answers[i].Some?) ==
           (set i | 0 <= i < |texts| && CachedWeather(t, texts[i], latitude, longitude).Some?);
  }

  /** Under valid coordinates there is no hit exactly when no text has a row at the rounded coordinates. */
  lemma {:induction false} HitsEmptyIff(t: Table, texts: seq<string>, latitude: real, longitude: real)
    requires AllDateTexts(texts)
    requires ValidateCoordinates(Some(latitude), Some(longitude)).None?
    ensures Hits(t, texts, latitude, longitude) == [] <==>
      forall i :: 0 <= i < |texts| ==>
        Lookup(t, texts[i], RoundToTwoDecimals(latitude), RoundToTwoDecimals(longitude)).None?
    decreases |texts|
  {
    if texts != [] {
      var front, last := texts[..|texts| - 1], texts[|texts| - 1];
      assert forall i :: 0 <= i < |front| ==> front[i] == texts[i];
      HitsEmptyIff(t, front, latitude, longitude);
      CachedWeatherOfValidDate(t, last, latitude, longitude);
    }
  }

  /** Invalid coordinates find nothing. */
  lemma {:induction false} HitsOfInvalidCoordinates(t: Table, texts: seq<string>, latitude: real, longitude: real)
    requires ValidateCoordinates(Some(latitude), Some(longitude)).Some?
    ensures Hits(t, texts, latitude, longitude) == []
    decreases |texts|
  {
    if texts != [] {
      HitsOfInvalidCoordinates(t, texts[..|texts| - 1], latitude, longitude);
    }
  }

  /**
    The average fails with no history exactly when the coordinates are
    invalid or none of the ten historical dates has a row at the rounded
    coordinates.
  */
  lemma AverageFailsIffNoHits(t: Table, date: Date, currentYear: int, latitude: real, longitude: real)
    requires HistoricalDates(date, currentYear).Some?
    ensures var ds := HistoricalDates(date, currentYear).value;
      AverageOutcome(t, date, currentYear, latitude, longitude) == NoHistory <==>
      ValidateCoordinates(Some(latitude), Some(longitude)).Some? ||
      forall i :: 0 <= i < 10 ==>
        Lookup(t, FormatIsoDate(ds[i]), RoundToTwoDecimals(latitude), RoundToTwoDecimals(longitude)).None?
  {
    var ds := HistoricalDates(date, currentYear).value;
    HistoricalDatesShape(date, date, currentYear);
    assert AllValid(ds);
    var texts := DateTexts(ds);
    if ValidateCoordinates(Some(latitude), Some(longitude)).Some? {
      HitsOfInvalidCoordinates(t, texts, latitude, longitude);
    } else {
      DateTextsAreValid(ds);
      HitsEmptyIff(t, texts, latitude, longitude);
      assert forall i :: 0 <= i < 10 ==> texts[i] == FormatIsoDate(ds[i]);
    }
  }

  /** Every hit carries a temperature within the bounds of all rows of the table. */
  lemma {:induction false} HitsWithinBounds(t: Table, texts: seq<string>, latitude: real, longitude: real,
                                             which: Extreme, lo: real, hi: real)
    requires forall k :: k in t ==> lo <= Temperature(t[k], which) <= hi
    ensures forall e :: e in Hits(t, texts, latitude, longitude) ==> lo <= Temperature(e, which) <= hi
    decreases |texts|
  {
    if texts != [] {
      var front, last := texts[..|texts| - 1], texts[|texts| - 1];
      HitsWithinBounds(t, front, latitude, longitude, which, lo, hi);
      match CachedWeather(t, last, latitude, longitude) {
        case Some(e) =>
          assert e == t[Key(last, RoundToTwoDecimals(latitude), RoundToTwoDecimals(longitude))];
        case None =>
      }
    }
  }

  lemma {:induction false} SumBounds(es: seq<WeatherEntry>, which: Extreme, lo: real, hi: real)
    requires forall i :: 0 <= i < |es| ==> lo <= Temperature(es[i], which) <= hi
    ensures lo * (|es| as real) <= Sum(es, which) <= hi * (|es| as real)
    decreases |es|
  {
    if es != [] {
      var front := es[..|es| - 1];
      assert forall i :: 0 <= i < |front| ==> front[i] == es[i];
      SumBounds(front, which, lo, hi);
      assert Sum(es, which) == Sum(front, which) + Temperature(es[|es| - 1], which);
      var n := |front| as real;
      assert |es| as real == n + 1.0;
      assert lo * (n + 1.0) == lo * n + lo;
      assert hi * (n + 1.0) == hi * n + hi;
    }
  }

  /** The mean of values within bounds lies within those bounds. */
  lemma MeanBounds(es: seq<WeatherEntry>, which: Extreme, lo: real, hi: real)
    requires es != []
    requires forall e :: e in es ==> lo <= Temperature(e, which) <= hi
    ensures lo <= Sum(es, which) / (|es| as real) <= hi
  {
    assert forall i :: 0 <= i < |es| ==> es[i] in es;
    SumBounds(es, which, lo, hi);
    LowerDiv(Sum(es, which), |es| as real, lo);
    UpperDiv(Sum(es, which), |es| as real, hi);
  }

  lemma LowerDiv(x: real, n: real, lo: real)
    requires n > 0.0 && lo * n <= x
    ensures lo <= x / n
  {
    var q := x / n;
    assert q * n == x;
    if q < lo {
      assert (lo - q) * n > 0.0;
    }
  }

  lemma UpperDiv(x: real, n: real, hi: real)
    requires n > 0.0 && x <= hi * n
    ensures x / n <= hi
  {
    var q := x / n;
    assert q * n == x;
    if q > hi {
      assert (q - hi) * n > 0.0;
    }
  }

  /**
    When all rows of the table have their maxima and minima within bounds,
    the averages lie within the rounded bounds.
  */
  lemma AverageWithinRowBounds(t: Table, date: Date, currentYear: int, latitude: real, longitude: real,
                               loMax: real, hiMax: real, loMin: real, hiMin: real)
    requires forall k :: k in t ==> loMax <= t[k].maxTemperature <= hiMax && loMin <= t[k].minTemperature <= hiMin
    requires AverageOutcome(t, date, currentYear, latitude, longitude).Mean?
    ensures var m := AverageOutcome(t, date, currentYear, latitude, longitude);
      && RoundToTwoDecimals(loMax) <= m.maxTemperature <= RoundToTwoDecimals(hiMax)
      && RoundToTwoDecimals(loMin) <= m.minTemperature <= RoundToTwoDecimals(hiMin)
  {
    var ds := HistoricalDates(date, currentYear).value;
    HistoricalDatesShape(date, date, currentYear);
    assert AllValid(ds);
    var texts := DateTexts(ds);
    HitsWithinBounds(t, texts, latitude, longitude, Highest, loMax, hiMax);
    HitsWithinBounds(t, texts, latitude, longitude, Lowest, loMin, hiMin);
    MeanWithinBounds(Hits(t, texts, latitude, longitude), loMax, hiMax, loMin, hiMin);
  }

  lemma MeanWithinBounds(hits: seq<WeatherEntry>, loMax: real, hiMax: real, loMin: real, hiMin: real)
    requires |hits| > 0
    requires forall e :: e in hits ==> loMax <= Temperature(e, Highest) <= hiMax
    requires forall e :: e in hits ==> loMin <= Temperature(e, Lowest) <= hiMin
    ensures var m := MeanOf(hits);
      && RoundToTwoDecimals(loMax) <= m.maxTemperature <= RoundToTwoDecimals(hiMax)
      && RoundToTwoDecimals(loMin) <= m.minTemperature <= RoundToTwoDecimals(hiMin)
  {
    MeanBounds(hits, Highest, loMax, hiMax);
    MeanBounds(hits, Lowest, loMin, hiMin);
    var n := |hits| as real;
    RoundingMonotone(loMax, Sum(hits, Highest) / n);
    RoundingMonotone(Sum(hits, Highest) / n, hiMax);
    RoundingMonotone(loMin, Sum(hits, Lowest) / n);
    RoundingMonotone(Sum(hits, Lowest) / n, hiMin);
  }

  /** The maxima 10, 12, 14, ... over n hits add up to n * (n + 9). */
  lemma {:induction false} SumOfEvenSeries(es: seq<WeatherEntry>)
    requires forall i :: 0 <= i < |es| ==> es[i].maxTemperature == 10.0 + 2.0 * (i as real)
    ensures Sum(es, Highest) == (|es| * (|es| + 9)) as real
    decreases |es|
  {
    if es != [] {
      var front := es[..|es| - 1];
      assert forall i :: 0 <= i < |front| ==> front[i] == es[i];
      SumOfEvenSeries(front);
      var n := |es|;
      assert Sum(es, Highest) == Sum(front, Highest) + es[n - 1].maxTemperature;
      assert ((n - 1) * (n + 8)) as real + 10.0 + 2.0 * ((n - 1) as real) == (n * (n + 9)) as real;
    }
  }

  /** Ten hits with maxima 10, 12, ..., 28 average to a maximum of 19.00. */
  lemma TenHitsAverage(hits: seq<WeatherEntry>)
    requires |hits| == 10
    requires forall i :: 0 <= i < 10 ==> hits[i].maxTemperature == 10.0 + 2.0 * (i as real)
    ensures MeanOf(hits).Mean? && MeanOf(hits).maxTemperature == 19.0
  {
    SumOfEvenSeries(hits);
    assert Sum(hits, Highest) / 10.0 == 19.0;
    RoundingFixesGrid(19.0);
  }

  /**
    Under valid coordinates, when every text has a row at the rounded
    coordinates, the hits are exactly those rows, one per text, in order.
  */
  lemma {:induction false} HitsAllFound(t: Table, texts: seq<string>, latitude: real, longitude: real)
    requires AllDateTexts(texts)
    requires ValidateCoordinates(Some(latitude), Some(longitude)).None?
    requires forall i :: 0 <= i < |texts| ==>
      Lookup(t, texts[i], RoundToTwoDecimals(latitude), RoundToTwoDecimals(longitude)).Some?
    ensures |Hits(t, texts, latitude, longitude)| == |texts|
    ensures forall i :: 0 <= i < |texts| ==>
      Lookup(t, texts[i], RoundToTwoDecimals(latitude), RoundToTwoDecimals(longitude))
        == Some(Hits(t, texts, latitude, longitude)[i])
    decreases |texts|
  {
    if texts != [] {
      var front, last := texts[..|texts| - 1], texts[|texts| - 1];
      assert forall i :: 0 <= i < |front| ==> front[i] == texts[i];
      HitsAllFound(t, front, latitude, longitude);
      CachedWeatherOfValidDate(t, last, latitude, longitude);
      var hits, earlier := Hits(t, texts, latitude, longitude), Hits(t, front, latitude, longitude);
      assert hits == earlier + [CachedWeather(t, last, latitude, longitude).value];
      assert forall i :: 0 <= i < |front| ==> hits[i] == earlier[i];
    }
  }

  /**
    A table holding a row at the rounded coordinates for each of the ten
    historical dates, with maxima 10, 12, ..., 28 in year order, averages to a
    maximum of 19.00.
  */
  lemma TenYearAverage(t: Table, date: Date, currentYear: int, latitude: real, longitude: real)
    requires HistoricalDates(date, currentYear).Some?
    requires ValidateCoordinates(Some(latitude), Some(longitude)).None?
    requires var ds := HistoricalDates(date, currentYear).value;
      forall i :: 0 <= i < 10 ==>
        var row := Lookup(t, FormatIsoDate(ds[i]), RoundToTwoDecimals(latitude), RoundToTwoDecimals(longitude));
        row.Some? && row.value.maxTemperature == 10.0 + 2.0 * (i as real)
    ensures var avg := AverageOutcome(t, date, currentYear, latitude, longitude);
      avg.Mean? && avg.maxTemperature == 19.0
  {
    var ds := HistoricalDates(date, currentYear).value;
    HistoricalDatesShape(date, date, currentYear);
    TenRowsAverage(t, ds, latitude, longitude);
  }

  /** The ten-row average of TenYearAverage, for any ten existing dates. */
  lemma TenRowsAverage(t: Table, ds: seq<Date>, latitude: real, longitude: real)
    requires |ds| == 10 && AllValid(ds)
    requires ValidateCoordinates(Some(latitude), Some(longitude)).None?
    requires forall i :: 0 <= i < 10 ==>
      var row := Lookup(t, FormatIsoDate(ds[i]), RoundToTwoDecimals(latitude), RoundToTwoDecimals(longitude));
      row.Some? && row.value.maxTemperature == 10.0 + 2.0 * (i as real)
    ensures var avg := MeanOf(Hits(t, DateTexts(ds), latitude, longitude));
      avg.Mean? && avg.maxTemperature == 19.0
  {
    var texts := DateTexts(ds);
    DateTextsAreValid(ds);
    HitsAllFound(t, texts, latitude, longitude);
    var hits := Hits(t, texts, latitude, longitude);
    forall i | 0 <= i < 10 ensures hits[i].maxTemperature == 10.0 + 2.0 * (i as real) {
      assert texts[i] == FormatIsoDate(ds[i]);
    }
    TenHitsAverage(hits);
  }

  /**
    The state fetchWeatherData leaves on the future-date branch. The table is
    never written. Without history the fetch error is shown over the old
    weather data; with averages the error is cleared and the weather data is
    one day, the requested date, holding the two means at the coordinates.
  */
  function AfterAverage(s: State, date: string, latitude: real, longitude: real, avg: Averages): (r: State)
    ensures r.table == s.table
    ensures avg.HistoryUnavailable? ==> r == s
    ensures avg.NoHistory? ==> r.error == Some(FetchErrorMessage) && r.weatherData == s.weatherData
    ensures avg.Mean? ==>
      && r.error.None? && r.weatherData.Some?
      && r.weatherData.value.latitude == latitude && r.weatherData.value.longitude == longitude
      && r.weatherData.value.daily.time == [date]
      && r.weatherData.value.daily.temperatureMax == [avg.maxTemperature]
      && r.weatherData.value.daily.temperatureMin == [avg.minTemperature]
  {
    match avg
    case HistoryUnavailable => s
    case NoHistory => s.(error := Some(FetchErrorMessage))
    case Mean(mx, mn) => s.(error := None, weatherData := Some(WeatherData(latitude, longitude, Daily([date], [mx], [mn]))))
  }

  // ---------------------------------------------------------------------------
  // fetchWeatherData

  /** The state fetchWeatherData leaves and the request it sends. */
  function AfterFetch(s: State, date: string, latitude: Option<real>, longitude: Option<real>,
                      today: Date, reply: Reply): (State, Option<Request>)
    requires WellFormed(today)
  {
    match InputError(date, latitude, longitude)
    case Some(msg) => (s.(error := Some(msg)), None)
    case None => AfterRoute(s, date, ParseIsoDate(date).value, latitude.value, longitude.value, today, reply)
  }

  /** What fetchWeatherData does with valid input, by the route of the parsed date. */
  function AfterRoute(s: State, date: string, requested: Date, latitude: real, longitude: real,
                      today: Date, reply: Reply): (State, Option<Request>)
    requires WellFormed(requested) && WellFormed(today)
  {
    match RouteFor(requested, today)
    case FutureAverage =>
      (AfterAverage(s, date, latitude, longitude, AverageOutcome(s.table, requested, today.year, latitude, longitude)),
       None)
    case Remote(ep) =>
      (AfterReply(s, date, latitude, longitude, reply), Some(Request(ep, latitude, longitude, date, date, DailyMetrics)))
  }

  /** Invalid input sets the error and stops: no request, no change to the table or the data. */
  lemma FetchRejectsInvalidInput(s: State, date: string, latitude: Option<real>, longitude: Option<real>,
                                 today: Date, reply: Reply)
    requires WellFormed(today)
    requires InputError(date, latitude, longitude).Some?
    ensures var (s', sent) := AfterFetch(s, date, latitude, longitude, today, reply);
      && sent.None? && s'.table == s.table && s'.weatherData == s.weatherData
      && s'.error == InputError(date, latitude, longitude)
  {
  }

  /** A date after today is answered from the table alone: no request, no write. */
  lemma FutureDateOnlyReadsCache(s: State, date: string, latitude: Option<real>, longitude: Option<real>,
                                 today: Date, reply: Reply)
    requires WellFormed(today)
    requires InputError(date, latitude, longitude).None?
    requires DayIndex(ParseIsoDate(date).value) > DayIndex(today)
    ensures var (s', sent) := AfterFetch(s, date, latitude, longitude, today, reply);
      sent.None? && s'.table == s.table
  {
    var requested := ParseIsoDate(date).value;
    assert AfterFetch(s, date, latitude, longitude, today, reply) ==
           AfterRoute(s, date, requested, latitude.value, longitude.value, today, reply);
  }

  /**
    A date up to today sends exactly one request, for that date alone, to the
    archive when it is more than ten days ago and to the forecast otherwise.
  */
  lemma PastDateSendsOneRequest(s: State, date: string, latitude: Option<real>, longitude: Option<real>,
                                today: Date, reply: Reply)
    requires WellFormed(today)
    requires InputError(date, latitude, longitude).None?
    requires DayIndex(ParseIsoDate(date).value) <= DayIndex(today)
    ensures var (s', sent) := AfterFetch(s, date, latitude, longitude, today, reply);
      var ep := if DayIndex(ParseIsoDate(date).value) < DayIndex(today) - 10 then Archive else Forecast;
      && sent == Some(Request(ep, latitude.value, longitude.value, date, date, DailyMetrics))
      && s' == AfterReply(s, date, latitude.value, longitude.value, reply)
  {
    var requested := ParseIsoDate(date).value;
    assert AfterFetch(s, date, latitude, longitude, today, reply) ==
           AfterRoute(s, date, requested, latitude.value, longitude.value, today, reply);
  }

  /**
    A reply with temperatures writes exactly one row, under the request's
    date and rounded coordinates, holding element 0 of each series; it
    clears the error, and getWeatherFromDatabase for the same input then
    finds that row. Any other reply writes nothing and leaves its message.
  */
  lemma ReplyWriteBack(s: State, date: string, latitude: real, longitude: real, reply: Reply)
    requires InputError(date, Some(latitude), Some(longitude)).None?
    ensures var s' := AfterReply(s, date, latitude, longitude, reply);
      if HasTemperatures(reply) then
        var e := WeatherEntry(date, RoundToTwoDecimals(latitude), RoundToTwoDecimals(longitude),
                              reply.body.value.daily.temperatureMax[0], reply.body.value.daily.temperatureMin[0]);
        && s'.error.None? && s'.weatherData == reply.body
        && s'.table.Keys == s.table.Keys + {KeyOf(e)}
        && (forall k :: k != KeyOf(e) ==> At(s'.table, k) == At(s.table, k))
        && CachedWeather(s'.table, date, latitude, longitude) == Some(e)
      else
        && s'.table == s.table && s'.weatherData == s.weatherData
        && s'.error == Some(match reply
                            case Failure => NetworkErrorMessage
                            case NonSuccess => FetchErrorMessage
                            case Success(_) => NoTemperatureDataMessage)
  {
  }

  /** Two inputs that round to the same hundredths read the same row. */
  lemma RoundedInputsShareRow(t: Table, date: string, lat1: real, lon1: real, lat2: real, lon2: real)
    requires InputError(date, Some(lat1), Some(lon1)).None? && InputError(date, Some(lat2), Some(lon2)).None?
    requires RoundToTwoDecimals(lat1) == RoundToTwoDecimals(lat2)
    requires RoundToTwoDecimals(lon1) == RoundToTwoDecimals(lon2)
    ensures CachedWeather(t, date, lat1, lon1) == CachedWeather(t, date, lat2, lon2)
  {
  }

  // ---------------------------------------------------------------------------
  // fetchAndStoreHistoricalData

  /** How many days of the series the insert loop stores before an index runs out. */
  function StoredDays(daily: Daily): (n: nat)
    ensures n <= |daily.time| && n <= |daily.temperatureMax| && n <= |daily.temperatureMin|
    ensures n == |daily.time| || n == |daily.temperatureMax| || n == |daily.temperatureMin|
    ensures n == |daily.time| <==> |daily.temperatureMax| >= |daily.time| && |daily.temperatureMin| >= |daily.time|
  {
    var n := |daily.time|;
    var n := if |daily.temperatureMax| < n then |daily.temperatureMax| else n;
    if |daily.temperatureMin| < n then |daily.temperatureMin| else n
  }

  /** The rows of the bulk path: index i pairs time[i] with the maximum and minimum at i, unrounded coordinates. */
  function BulkEntries(daily: Daily, latitude: real, longitude: real): (es: seq<WeatherEntry>)
    ensures |es| == StoredDays(daily)
  {
    seq(StoredDays(daily), i requires 0 <= i < StoredDays(daily) =>
      WeatherEntry(daily.time[i], latitude, longitude, daily.temperatureMax[i], daily.temperatureMin[i]))
  }

  /** The start and the end of the bulk range: ten years before ten days ago, and ten days ago. */
  function BulkRequest(latitude: real, longitude: real, today: Date): (r: Request)
    requires WellFormed(today)
    ensures r.endpoint == Archive && r.latitude == latitude && r.longitude == longitude
    ensures r.daily == DailyMetrics
  {
    var end := MinusDays(today, 10);
    Request(Archive, latitude, longitude, FormatIsoDate(MinusYears(end, 10)), FormatIsoDate(end), DailyMetrics)
  }

  /**
    The bulk range read back through ISO_LOCAL_DATE: the end is minusDays(10)
    of today, exactly ten days earlier, and the start is minusYears(10) of the
    end, whose contract gives the same month and the day clamped to it.
  */
  lemma BulkRangeReadsBack(latitude: real, longitude: real, today: Date)
    requires ValidDate(today) && today.year >= MinYear + 20
    ensures ParseIsoDate(BulkRequest(latitude, longitude, today).endDate) == Some(MinusDays(today, 10))
    ensures DayIndex(MinusDays(today, 10)) == DayIndex(today) - 10
    ensures ParseIsoDate(BulkRequest(latitude, longitude, today).startDate) == Some(MinusYears(MinusDays(today, 10), 10))
  {
    MinusDaysIndex(today, 10);
    ShiftedDatesReadBack(today, 10, 10);
  }

  /** The texts of today.minusDays(n) and of its minusYears(m) parse back, while the years stay in range. */
  lemma ShiftedDatesReadBack(today: Date, n: nat, m: nat)
    requires ValidDate(today) && today.year - n - m >= MinYear
    ensures ParseIsoDate(FormatIsoDate(MinusDays(today, n))) == Some(MinusDays(today, n))
    ensures ParseIsoDate(FormatIsoDate(MinusYears(MinusDays(today, n), m))) == Some(MinusYears(MinusDays(today, n), m))
  {
    MinusDaysYear(today, n);
    FormatParseRoundTrip(MinusDays(today, n));
    FormatParseRoundTrip(MinusYears(MinusDays(today, n), m));
  }

  /**
    The state the launched block of fetchAndStoreHistoricalData leaves once
    the reply to the range request is in: the rows of the series inserted,
    and the error set when the request failed or the series ran short.
  */
  function AfterBulkReply(s: State, latitude: real, longitude: real, reply: Reply): State {
    match reply
    case Failure => s.(error := Some(HistoricalFetchErrorMessage))
    case NonSuccess => s
    case Success(None) => s
    case Success(Some(body)) =>
      var daily := body.daily;
      var stored := s.(table := InsertAll(s.table, BulkEntries(daily, latitude, longitude)));
      if StoredDays(daily) < |daily.time| then stored.(error := Some(HistoricalFetchErrorMessage)) else stored
  }

  /** The state fetchAndStoreHistoricalData leaves, the text it returns and the request it sends. */
  function AfterStore(s: State, latitude: Option<real>, longitude: Option<real>, today: Date, reply: Reply)
    : (State, string, Option<Request>)
    requires WellFormed(today)
  {
    match ValidateCoordinates(latitude, longitude)
    case Some(e) => (s.(error := Some(e.Message())), InvalidCoordinatesResult, None)
    case None =>
      (AfterBulkReply(s.(error := None), latitude.value, longitude.value, reply), StoredResult,
       Some(BulkRequest(latitude.value, longitude.value, today)))
  }

  /**
    After the bulk path each date of the series holds the last row the series
    gave for it, at the coordinates as typed; every other key is unchanged.
  */
  lemma BulkLastWriteWins(t: Table, daily: Daily, latitude: real, longitude: real, k: Key)
    ensures var es := BulkEntries(daily, latitude, longitude);
      At(InsertAll(t, es), k) == if LastWithKey(es, k).Some? then LastWithKey(es, k) else At(t, k)
    ensures k.latitude != latitude || k.longitude != longitude ==>
      At(InsertAll(t, BulkEntries(daily, latitude, longitude)), k) == At(t, k)
  {
    var es := BulkEntries(daily, latitude, longitude);
    InsertAllAt(t, es, k);
  }

  /**
    Rows stored by the bulk path are looked up by getWeatherFromDatabase only
    when the typed coordinates are already whole hundredths: the bulk path
    stores them unrounded, the lookup rounds.
  */
  lemma BulkRowsHiddenUnlessRounded(t: Table, daily: Daily, latitude: real, longitude: real,
                                    date: string, lat: real, lon: real)
    requires !OnGrid(latitude) || !OnGrid(longitude)
    ensures CachedWeather(InsertAll(t, BulkEntries(daily, latitude, longitude)), date, lat, lon)
         == CachedWeather(t, date, lat, lon)
  {
    var k := Key(date, RoundToTwoDecimals(lat), RoundToTwoDecimals(lon));
    RoundingIsNearest(lat);
    RoundingIsNearest(lon);
    BulkLastWriteWins(t, daily, latitude, longitude, k);
  }

  // ---------------------------------------------------------------------------
  // The view model

  class WeatherViewModel {
    var error: Option<string>
    var weatherData: Option<WeatherData>
    const dao: WeatherDao

    ghost predicate Valid()
      reads this, dao
    {
      dao.Valid()
    }

    ghost function Snapshot(): State
      reads this, dao
    {
      State(error, weatherData, dao.table)
    }

    constructor (dao: WeatherDao)
      requires dao.Valid()
      ensures Valid() && this.dao == dao
      ensures error.None? && weatherData.None?
    {
      this.dao := dao;
      error := None;
      weatherData := None;
    }

    /** getWeatherFromDatabase: validate, then look up the row under the rounded coordinates. */
    method GetWeatherFromDatabase(date: string, latitude: real, longitude: real) returns (r: Option<WeatherEntry>)
      requires Valid()
      modifies this
      ensures Valid()
      ensures r == CachedWeather(dao.table, date, latitude, longitude)
      ensures weatherData == old(weatherData)
      ensures error == if InputError(date, Some(latitude), Some(longitude)).Some?
                       then InputError(date, Some(latitude), Some(longitude)) else old(error)
    {
      if !IsValidDate(date) {
        error := Some(InvalidDateMessage);
        return None;
      }
      // latitude.toString() reads back as latitude.
      var e := ValidateCoordinates(Some(latitude), Some(longitude));
      if e.Some? {
        error := Some(e.value.Message());
        return None;
      }
      r := dao.GetWeatherByDate(date, RoundToTwoDecimals(latitude), RoundToTwoDecimals(longitude));
    }

    /** getHistoricalDates: the requested month and day in each of the ten years before this one. */
    method GetHistoricalDates(date: Date, today: Date) returns (r: Option<seq<Date>>)
      ensures r == HistoricalDates(date, today.year)
    {
      var dates: seq<Date> := [];
      var currentYear := today.year;
      for year := currentYear - 10 to currentYear
        invariant |dates| == year - (currentYear - 10)
        invariant forall i :: 0 <= i < |dates| ==> dates[i] == InYear(date, currentYear - 10 + i)
        invariant forall y :: currentYear - 10 <= y < year ==> ValidDate(InYear(date, y))
      {
        var d := Date(year, date.month, date.day);
        if !ValidDate(d) {
          // LocalDate.of throws a DateTimeException
          assert !ValidDate(InYear(date, year));
          return None;
        }
        dates := dates + [d];
      }
      assert dates == seq(10, i requires 0 <= i < 10 => InYear(date, currentYear - 10 + i));
      r := Some(dates);
    }

    /** calculateAndDisplayAverageTemperatures: average the cached rows of the historical dates. */
    method CalculateAndDisplayAverageTemperatures(date: Date, latitude: real, longitude: real, today: Date)
      returns (r: Averages)
      requires Valid()
      modifies this
      ensures Valid()
      ensures r == AverageOutcome(dao.table, date, today.year, latitude, longitude)
      ensures weatherData == old(weatherData)
      ensures error == if r.NoHistory? then Some(NoHistoricalDataMessage) else old(error)
    {
      var historicalDates := GetHistoricalDates(date, today);
      if historicalDates.None? {
        return HistoryUnavailable;
      }
      var ds := historicalDates.value;
      HistoricalDatesShape(date, date, today.year);
      assert AllValid(ds);
      // Each date is formatted with ISO_LOCAL_DATE; formatting has no effect, so it is done up front.
      var texts := DateTexts(ds);
      DateTextsAreValid(ds);
      var totalMaxTemp, totalMinTemp, count := SumCachedRows(texts, latitude, longitude);
      if count > 0 {
        r := Mean(RoundToTwoDecimals(totalMaxTemp / count as real), RoundToTwoDecimals(totalMinTemp / count as real));
      } else {
        error := Some(NoHistoricalDataMessage);
        r := NoHistory;
      }
    }

    /**
      The loop of calculateAndDisplayAverageTemperatures: the totals and the
      number of the rows getWeatherFromDatabase finds for the date texts.
    */
    method SumCachedRows(texts: seq<string>, latitude: real, longitude: real)
      returns (totalMaxTemp: real, totalMinTemp: real, count: nat)
      requires Valid() && AllDateTexts(texts)
      modifies this
      ensures Valid() && weatherData == old(weatherData) && dao.table == old(dao.table)
      ensures var hits := Hits(dao.table, texts, latitude, longitude);
        totalMaxTemp == Sum(hits, Highest) && totalMinTemp == Sum(hits, Lowest) && count == |hits|
      ensures count > 0 ==> error == old(error)
    {
      ghost var coordinatesOk := ValidateCoordinates(Some(latitude), Some(longitude)).None?;
      ghost var t := dao.table;
      totalMaxTemp, totalMinTemp, count := 0.0, 0.0, 0;
      ghost var hits: seq<WeatherEntry> := [];
      for i := 0 to |texts|
        invariant Valid() && weatherData == old(weatherData) && dao.table == t
        invariant hits == Hits(t, texts[..i], latitude, longitude)
        invariant totalMaxTemp == Sum(hits, Highest) && totalMinTemp == Sum(hits, Lowest) && count == |hits|
        invariant coordinatesOk ==> error == old(error)
        invariant !coordinatesOk ==> count == 0
      {
        HitsStep(t, texts, i, latitude, longitude);
        var weatherEntry := GetWeatherFromDatabase(texts[i], latitude, longitude);
        if weatherEntry.Some? {
          SumSnoc(hits, weatherEntry.value, Highest);
          SumSnoc(hits, weatherEntry.value, Lowest);
          hits := hits + [weatherEntry.value];
          totalMaxTemp := totalMaxTemp + weatherEntry.value.maxTemperature;
          totalMinTemp := totalMinTemp + weatherEntry.value.minTemperature;
          count := count + 1;
        }
      }
      assert texts[..|texts|] == texts;
    }

    /** The onResponse and onFailure callbacks of the archive and forecast calls. */
    method OnResponse(date: string, latitude: real, longitude: real, reply: Reply)
      requires Valid()
      modifies this, dao
      ensures Valid()
      ensures Snapshot() == AfterReply(old(Snapshot()), date, latitude, longitude, reply)
    {
      match reply {
        case Failure =>
          error := Some(NetworkErrorMessage);
        case NonSuccess =>
          error := Some(FetchErrorMessage);
        case Success(body) =>
          if body.Some? && |body.value.daily.temperatureMax| > 0 && |body.value.daily.temperatureMin| > 0 {
            weatherData := body;
            error := None;
            var weatherEntry := WeatherEntry(date, RoundToTwoDecimals(latitude), RoundToTwoDecimals(longitude),
                                             body.value.daily.temperatureMax[0], body.value.daily.temperatureMin[0]);
            dao.InsertWeatherData(weatherEntry);
          } else {
            error := Some(NoTemperatureDataMessage);
          }
      }
    }

    /** fetchWeatherData: validate, route by date, and handle the reply. */
    method FetchWeatherData(date: string, latitude: Option<real>, longitude: Option<real>, today: Date, reply: Reply)
      returns (sent: Option<Request>)
      requires Valid() && ValidDate(today)
      modifies this, dao
      ensures Valid()
      ensures (Snapshot(), sent) == AfterFetch(old(Snapshot()), date, latitude, longitude, today, reply)
    {
      if !IsValidDate(date) {
        error := Some(InvalidDateMessage);
        return None;
      }
      var e := ValidateCoordinates(latitude, longitude);
      if e.Some? {
        error := Some(e.value.Message());
        return None;
      }
      var tenDaysAgo := MinusDays(today, 10);
      var requestedDate := ParseIsoDate(date).value;
      if After(requestedDate, today) {
        var avgTemps := CalculateAndDisplayAverageTemperatures(requestedDate, latitude.value, longitude.value, today);
        match avgTemps {
          case Mean(mx, mn) =>
            error := None;
            weatherData := Some(WeatherData(latitude.value, longitude.value, Daily([date], [mx], [mn])));
          case NoHistory =>
            error := Some(FetchErrorMessage);
          case HistoryUnavailable =>
            // the exception ends the coroutine
        }
        return None;
      }
      if Before(requestedDate, tenDaysAgo) {
        sent := Some(Request(Archive, latitude.value, longitude.value, date, date, DailyMetrics));
      } else {
        sent := Some(Request(Forecast, latitude.value, longitude.value, date, date, DailyMetrics));
      }
      OnResponse(date, latitude.value, longitude.value, reply);
    }

    /**
      The insert loop of fetchAndStoreHistoricalData: one row per index of
      time, until an index runs past the maxima or the minima.
    */
    method InsertDays(dailyData: Daily, lat: real, lon: real) returns (complete: bool)
      requires Valid()
      modifies dao
      ensures Valid()
      ensures dao.table == InsertAll(old(dao.table), BulkEntries(dailyData, lat, lon))
      ensures complete <==> StoredDays(dailyData) == |dailyData.time|
    {
      ghost var es := BulkEntries(dailyData, lat, lon);
      var day := 0;
      while day < |dailyData.time|
        invariant 0 <= day <= StoredDays(dailyData)
        invariant Valid()
        invariant dao.table == InsertAll(old(dao.table), es[..day])
      {
        if day >= |dailyData.temperatureMax| || day >= |dailyData.temperatureMin| {
          assert day == StoredDays(dailyData);
          assert es[..day] == es;
          return false;
        }
        var weatherEntry := WeatherEntry(dailyData.time[day], lat, lon,
                                         dailyData.temperatureMax[day], dailyData.temperatureMin[day]);
        assert es[..day + 1] == es[..day] + [weatherEntry];
        InsertAllSnoc(old(dao.table), es[..day], weatherEntry);
        dao.InsertWeatherData(weatherEntry);
        day := day + 1;
      }
      assert es[..day] == es;
      return true;
    }

    /** fetchAndStoreHistoricalData: fetch ten years of the archive and insert one row per day. */
    method FetchAndStoreHistoricalData(latitude: Option<real>, longitude: Option<real>, today: Date, reply: Reply)
      returns (message: string, sent: Option<Request>)
      requires Valid() && ValidDate(today)
      modifies this, dao
      ensures Valid()
      ensures (Snapshot(), message, sent) == AfterStore(old(Snapshot()), latitude, longitude, today, reply)
    {
      error := None;
      var e := ValidateCoordinates(latitude, longitude);
      if e.Some? {
        error := Some(e.value.Message());
        return InvalidCoordinatesResult, None;
      }
      var lat, lon := latitude.value, longitude.value;
      var tenDaysAgo := MinusDays(today, 10);
      var tenYearsAgo := MinusYears(tenDaysAgo, 10);
      sent := Some(Request(Archive, lat, lon, FormatIsoDate(tenYearsAgo), FormatIsoDate(tenDaysAgo), DailyMetrics));
      StoreBulkReply(lat, lon, reply);
      message := StoredResult;
    }

    /** The launched block of fetchAndStoreHistoricalData, from the reply on. */
    method StoreBulkReply(lat: real, lon: real, reply: Reply)
      requires Valid()
      modifies this, dao
      ensures Valid()
      ensures Snapshot() == AfterBulkReply(old(Snapshot()), lat, lon, reply)
    {
      match reply {
        case Failure =>
          // the IOException of execute() is caught
          error := Some(HistoricalFetchErrorMessage);
        case NonSuccess =>
        case Success(body) =>
          if body.Some? {
            var complete := InsertDays(body.value.daily, lat, lon);
            if !complete {
              // the IndexOutOfBoundsException is caught
              error := Some(HistoricalFetchErrorMessage);
            }
          }
      }
    }
  }
}
