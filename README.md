# Weather view model: routing, cache and historical average

This project models the core of an Android weather app. `WeatherViewModel`
(in `MainActivity.kt`) validates a date and a pair of coordinates typed by the
user. It then routes the request to one of three places. A date after today is
answered with the average of the cached rows for the same month and day in the
ten years before the current year. A date more than ten days ago goes to the
Open-Meteo archive endpoint. Any other date goes to the forecast endpoint.
After a reply that carries temperatures, the view model writes one row back
into the `weather_data` table, keyed by the date and the rounded coordinates.
A second path, `fetchAndStoreHistoricalData`, asks the archive for ten years of
days and inserts one row per day.

The modules follow the source:

- `Entries` (`WeatherEntry.dfy`): the `WeatherEntry` record and its primary key (date, latitude, longitude).
- `Dao` (`WeatherDao.dfy`): the table as a map from key to row, insert with REPLACE, exact-key lookup. `WeatherDao` is a class whose methods update the map.
- `Coordinates`: `validateCoordinates` and `roundToTwoDecimals`. Coordinates are reals, and rounding is half-up to hundredths.
- `Calendar`: `LocalDate` as year, month and day, with `isBefore`, `isAfter`, `minusDays`, `minusYears` and `LocalDate.of` validity. `DayIndex` numbers days consecutively and is the independent reference for the ordering and the day arithmetic.
- `IsoDateText`: `DateTimeFormatter.ISO_LOCAL_DATE`, both formatting and strict parsing. `isValidDate` is "the text parses". The two are proved to round-trip.
- `ViewModel` (`WeatherViewModel.dfy`): the `WeatherViewModel` class, with fields `error` and `weatherData` and its DAO. Beside it are the specification functions its methods are proved against: `AfterFetch`, `AfterReply`, `AverageOutcome` and `AfterStore`.

The environment is made explicit:

- The clock is the parameter `today`.
- Each HTTP exchange is a parameter `reply`, one of `Failure` (onFailure or an IOException), `NonSuccess` (non-2xx), or `Success(body)`.
- The request the view model would send is returned, so "no request" can be observed.
- A coordinate typed as text is represented by what `toDoubleOrNull` makes of it: `None` when the text is not a number.
- Coroutines and callbacks are taken to run to completion, in order.

On these points the code behaves as follows, and the model with it:

- **Cache before fetch.** The cache is checked by the button handler of the UI (`MainActivity.kt` lines 116-123), which calls `fetchWeatherData` only when `getWeatherFromDatabase` finds nothing. `fetchWeatherData` itself does not look in the cache: for a date up to today it always sends the request. After a reply that carries temperatures, it writes the row back. The UI handler is not part of this model.
- **Years of the average.** The ten historical dates use the years before the *current* year, not before the requested year.
- **Rounding.** `String.format("%.2f")` rounds half-up. It does not truncate.
- **Bulk rows are unrounded.** The bulk path stores coordinates as typed, so its rows use unrounded keys. `BulkRowsHiddenUnlessRounded` states the consequence.
- **Error after zero hits.** When no historical row is found, `calculateAndDisplayAverageTemperatures` sets "No historical data available to calculate averages." Its caller in `fetchWeatherData` then replaces that message with "Error fetching weather data. Please try again later." That second message is the one the model leaves (`AfterAverage`).

## Model

| member | source | states |
|---|---|---|
| Entries.EntryEquality | app/src/main/java/com/weatherapp/fast/WeatherEntry.kt:5-12 | Entries are equal exactly when all five fields are. Two entries share a key exactly when date, latitude and longitude agree, whatever their temperatures. |
| Dao.Inserted | app/src/main/java/com/weatherapp/fast/WeatherDao.kt:10-11 | Insert with REPLACE keeps every row stored under its own primary key. |
| Dao.LookupAfterInsert | app/src/main/java/com/weatherapp/fast/WeatherDao.kt:10-14 | After insertWeatherData(e), getWeatherByDate(e.date, e.latitude, e.longitude) returns e. |
| Dao.InsertReplaces | app/src/main/java/com/weatherapp/fast/WeatherDao.kt:10 | A second insert under the same key replaces the first: the last write wins. |
| Dao.InsertLeavesOtherKeys | app/src/main/java/com/weatherapp/fast/WeatherDao.kt:10-11 | An insert leaves every other key as it was. |
| Dao.InsertIdempotent | app/src/main/java/com/weatherapp/fast/WeatherDao.kt:10 | Inserting the same entry twice gives the same table as inserting it once. |
| Dao.LookupIsExact | app/src/main/java/com/weatherapp/fast/WeatherDao.kt:13-14 | A found row has exactly the queried date, latitude and longitude. Nothing is found exactly when no row has that key. |
| Dao.LastWithKey | app/src/main/java/com/weatherapp/fast/WeatherDao.kt:10 | The entry of a run that a run of inserts leaves under a key: an entry of the run with that key, at a position after which no entry has that key. It is none exactly when no entry of the run has that key. |
| Dao.InsertAllAt | app/src/main/java/com/weatherapp/fast/WeatherDao.kt:10-11 | After a run of inserts, each key holds the last entry of the run with that key. A key the run never uses holds what it held before. |
| Dao.InsertAllWellKeyed | app/src/main/java/com/weatherapp/fast/WeatherDao.kt:10-11 | A run of inserts keeps every row under its own key. |
| Dao.WeatherDao.InsertWeatherData | app/src/main/java/com/weatherapp/fast/WeatherDao.kt:10-11 | The new table is the old table with the entry stored under its key, replacing any row there. |
| Dao.WeatherDao.GetWeatherByDate | app/src/main/java/com/weatherapp/fast/WeatherDao.kt:13-14 | Returns the row under exactly (date, latitude, longitude), or none. A returned row is in the table and has that key. |
| Coordinates.ValidateCoordinates | app/src/main/java/com/weatherapp/fast/MainActivity.kt:569-587 | Returns none exactly when both numbers parse and lie in [-90, 90] and [-180, 180], bounds inclusive. Otherwise it returns the first failure in the order latitude format, longitude format, latitude range, longitude range. Each direction is stated as an if-and-only-if. |
| Coordinates.HalfUpBounds | app/src/main/java/com/weatherapp/fast/MainActivity.kt:589-591 | Half-up rounding of a non-negative value lands on whole hundredths, within half a hundredth. |
| Coordinates.RoundingIsNearest | app/src/main/java/com/weatherapp/fast/MainActivity.kt:589-591 | roundToTwoDecimals lands on a whole number of hundredths, within 0.005 of the input. A tie goes away from zero: a non-negative input is never rounded down by a full 0.005, and a negative input is never rounded up by a full 0.005. |
| Coordinates.RoundingFixesGrid | app/src/main/java/com/weatherapp/fast/MainActivity.kt:589-591 | A value that is already whole hundredths is returned unchanged. |
| Coordinates.RoundingIdempotent | app/src/main/java/com/weatherapp/fast/MainActivity.kt:589-591 | Rounding twice equals rounding once. |
| Coordinates.RoundingMonotone | app/src/main/java/com/weatherapp/fast/MainActivity.kt:589-591 | Rounding never reverses the order of two values. |
| Coordinates.RoundingKeepsRange | app/src/main/java/com/weatherapp/fast/MainActivity.kt:569-591 | Coordinates that pass validation still pass it after rounding. |
| Coordinates.NearbyInputsShareRoundedCoordinates | app/src/main/java/com/weatherapp/fast/MainActivity.kt:589-591 | 40.7128 and 40.71278 both round to 40.71, and -74.0059 and -74.00591 both round to -74.01. |
| Calendar.DaysInMonth | app/src/main/java/com/weatherapp/fast/MainActivity.kt:468 | A month has 28 to 31 days. It has 29 exactly for February of a leap year, which bounds the days LocalDate.of accepts. |
| Calendar.MinusDays | app/src/main/java/com/weatherapp/fast/MainActivity.kt:294 | minusDays gives a well-formed date. |
| Calendar.MinusDaysIndex | app/src/main/java/com/weatherapp/fast/MainActivity.kt:294 | minusDays(n) is exactly n days earlier, measured against the reference day numbering. |
| Calendar.PrevDayIndex | app/src/main/java/com/weatherapp/fast/MainActivity.kt:294 | The previous day is well formed and one day earlier, across month and year ends. |
| Calendar.MinusDaysYear | app/src/main/java/com/weatherapp/fast/MainActivity.kt:483 | minusDays(n) moves back at most n years and never forward. |
| Calendar.MinusYears | app/src/main/java/com/weatherapp/fast/MainActivity.kt:484 | minusYears keeps the month, subtracts n from the year, and clamps the day to the end of the month when it does not exist (29 February). |
| Calendar.BeforeIffIndexLess | app/src/main/java/com/weatherapp/fast/MainActivity.kt:296-330 | isBefore (and so isAfter) agrees with the order of day numbers, in both directions. |
| Calendar.DayIndexInjective | app/src/main/java/com/weatherapp/fast/MainActivity.kt:296 | Two well-formed dates have the same day number exactly when they are equal. |
| IsoDateText.FormatIsoDate | app/src/main/java/com/weatherapp/fast/MainActivity.kt:442 | The ISO text of a date has at least ten characters. It ends in '-', the two digits of the month, '-' and the two digits of the day. |
| IsoDateText.ParseIsoDate | app/src/main/java/com/weatherapp/fast/MainActivity.kt:593-601 | A text the strict ISO_LOCAL_DATE parser accepts names an existing date. |
| IsoDateText.FormatParseRoundTrip | app/src/main/java/com/weatherapp/fast/MainActivity.kt:593-601 | Parsing the ISO_LOCAL_DATE text of any existing date gives back that date. |
| IsoDateText.MonthDayRoundTrip | app/src/main/java/com/weatherapp/fast/MainActivity.kt:593-601 | The "-MM-dd" text of an existing date reads back as that month and day in the given year. |
| IsoDateText.YearRoundTrip | app/src/main/java/com/weatherapp/fast/MainActivity.kt:593-601 | The year parser reads back the printed year field, including sign and padding, for every year LocalDate supports. |
| IsoDateText.ReadYearDigits | app/src/main/java/com/weatherapp/fast/MainActivity.kt:593-601 | With 4 to 10 digits, the year field is refused for '+' with only 4 digits, for no sign with more than 4, and for '-' with value 0. Otherwise it reads the signed value. |
| IsoDateText.ParseUnsignedYear | app/src/main/java/com/weatherapp/fast/MainActivity.kt:593-601 | Four unsigned digits read as their value. |
| IsoDateText.ParsePlusYear | app/src/main/java/com/weatherapp/fast/MainActivity.kt:593-601 | '+' followed by five to ten digits reads as their value. |
| IsoDateText.ParseMinusYear | app/src/main/java/com/weatherapp/fast/MainActivity.kt:593-601 | '-' followed by four to ten digits, not all zero, reads as the negated value. |
| IsoDateText.AcceptsLeapDay | app/src/main/java/com/weatherapp/fast/MainActivity.kt:593-601 | "2024-02-29" parses as 29 February 2024. |
| IsoDateText.RefusesLeapDayOfCommonYear | app/src/main/java/com/weatherapp/fast/MainActivity.kt:593-601 | isValidDate refuses "2023-02-29". |
| IsoDateText.RefusesOneDigitMonth | app/src/main/java/com/weatherapp/fast/MainActivity.kt:593-601 | isValidDate refuses "2024-2-29". |
| IsoDateText.RefusesTrailingTime | app/src/main/java/com/weatherapp/fast/MainActivity.kt:593-601 | isValidDate refuses "2024-06-01T00:00". |
| IsoDateText.RefusesUnsignedLongYear | app/src/main/java/com/weatherapp/fast/MainActivity.kt:593-601 | isValidDate refuses a five-digit year without '+'. |
| IsoDateText.RefusesPlusShortYear | app/src/main/java/com/weatherapp/fast/MainActivity.kt:593-601 | isValidDate refuses a four-digit year with '+'. |
| IsoDateText.RefusesMinusZeroYear | app/src/main/java/com/weatherapp/fast/MainActivity.kt:593-601 | isValidDate refuses "-0000-01-01". |
| ViewModel.InputError | app/src/main/java/com/weatherapp/fast/MainActivity.kt:284-292 | The input is accepted exactly when the date is valid and the coordinates validate. An invalid date gives the date message first. Otherwise the coordinate message is given. |
| ViewModel.RouteFor | app/src/main/java/com/weatherapp/fast/MainActivity.kt:293-330 | The route, measured in days: the average exactly when the date is after today, the archive exactly when it is more than ten days before today, the forecast exactly for today and the ten days before it. |
| ViewModel.ForecastWindow | app/src/main/java/com/weatherapp/fast/MainActivity.kt:293-330 | Today minus k days goes to the forecast for k <= 10, so exactly ten days ago counts as forecast. It goes to the archive for k > 10. |
| ViewModel.HistoricalDatesShape | app/src/main/java/com/weatherapp/fast/MainActivity.kt:464-471 | The result is exactly 10 dates with the requested month and day, ascending, in years currentYear-10 to currentYear-1. It does not depend on the requested year. There is no result exactly when one of those dates does not exist. |
| ViewModel.FormattedDateIsValid | app/src/main/java/com/weatherapp/fast/MainActivity.kt:440-444 | The ISO text of a historical date always passes the date check of getWeatherFromDatabase. |
| ViewModel.CachedWeatherOfValidDate | app/src/main/java/com/weatherapp/fast/MainActivity.kt:261-280 | For a valid date text, getWeatherFromDatabase rejects exactly the coordinates that fail validation. Otherwise it returns the row under the rounded coordinates. |
| ViewModel.FoundRowsAreHits | app/src/main/java/com/weatherapp/fast/MainActivity.kt:440-451 | Every row getWeatherFromDatabase finds for one of the dates is among the hits. |
| ViewModel.HitsCountFoundTexts | app/src/main/java/com/weatherapp/fast/MainActivity.kt:440-451 | The number of hits, which is the loop's count, equals the number of dates for which getWeatherFromDatabase finds a row. |
| ViewModel.HitsAreFound | app/src/main/java/com/weatherapp/fast/MainActivity.kt:440-451 | The hits are the non-null answers of getWeatherFromDatabase for the dates, in order. |
| ViewModel.FoundCount | app/src/main/java/com/weatherapp/fast/MainActivity.kt:447-451 | Keeping the non-null answers keeps one row per non-null answer. |
| ViewModel.FoundContainsRows | app/src/main/java/com/weatherapp/fast/MainActivity.kt:447-451 | Every non-null answer's row is kept. |
| ViewModel.HitsAreRowsOfTheDates | app/src/main/java/com/weatherapp/fast/MainActivity.kt:436-452 | The loop never counts more hits than there are dates. Every hit is the row getWeatherFromDatabase returns for one of the dates. |
| ViewModel.HitsEmptyIff | app/src/main/java/com/weatherapp/fast/MainActivity.kt:436-452 | With valid coordinates, there are no hits exactly when no date has a row at the rounded coordinates. |
| ViewModel.HitsOfInvalidCoordinates | app/src/main/java/com/weatherapp/fast/MainActivity.kt:436-452 | Invalid coordinates give no hits. |
| ViewModel.AverageFailsIffNoHits | app/src/main/java/com/weatherapp/fast/MainActivity.kt:429-462 | The average fails for lack of history exactly when the coordinates are invalid or none of the ten dates has a row at the rounded coordinates. |
| ViewModel.AverageWithinRowBounds | app/src/main/java/com/weatherapp/fast/MainActivity.kt:454-457 | The average maximum and minimum lie between the rounded least and greatest temperatures of the table. |
| ViewModel.MeanWithinBounds | app/src/main/java/com/weatherapp/fast/MainActivity.kt:454-457 | The rounded means of the hits lie between the rounded bounds of their temperatures. |
| ViewModel.MeanOf | app/src/main/java/com/weatherapp/fast/MainActivity.kt:454-460 | No hits give no history, and any hit gives averages. The two averages lie on whole hundredths, within half a hundredth of the exact means of the maxima and of the minima. |
| ViewModel.HitsAllFound | app/src/main/java/com/weatherapp/fast/MainActivity.kt:440-452 | With valid coordinates and a row at the rounded coordinates for every date, the hits are exactly those rows, one per date, in date order. |
| ViewModel.TenYearAverage | app/src/main/java/com/weatherapp/fast/MainActivity.kt:429-460 | A table with a row at the rounded coordinates for each of the ten historical dates, with maxima 10, 12, ..., 28 in year order, averages to a maximum of 19.00. |
| ViewModel.TenRowsAverage | app/src/main/java/com/weatherapp/fast/MainActivity.kt:436-460 | The same average for any ten existing dates whose rows have those maxima. |
| ViewModel.TenHitsAverage | app/src/main/java/com/weatherapp/fast/MainActivity.kt:454-457 | Ten hits with maxima 10, 12, ..., 28 average to a maximum of 19.00. |
| ViewModel.SumOfEvenSeries | app/src/main/java/com/weatherapp/fast/MainActivity.kt:447-451 | The accumulated maxima 10, 12, 14, ... over n hits total n * (n + 9). |
| ViewModel.AfterAverage | app/src/main/java/com/weatherapp/fast/MainActivity.kt:303-324 | The future-date branch never writes the table. When the dates cannot be built, the state is unchanged. Without history the fetch error is set and the weather data kept. With averages the error is cleared and the weather data is one day: the requested date, the coordinates and the two means. |
| ViewModel.FetchRejectsInvalidInput | app/src/main/java/com/weatherapp/fast/MainActivity.kt:284-292 | Invalid input sends no request, writes nothing, keeps the weather data, and leaves the validation message. |
| ViewModel.FutureDateOnlyReadsCache | app/src/main/java/com/weatherapp/fast/MainActivity.kt:296-329 | A date after today sends no request and leaves the table unchanged. |
| ViewModel.PastDateSendsOneRequest | app/src/main/java/com/weatherapp/fast/MainActivity.kt:330-392 | A date up to today sends exactly one request with start and end equal to the date. It goes to the archive when the date is more than ten days ago, and to the forecast otherwise. The state is then the reply's. |
| ViewModel.ReplyWriteBack | app/src/main/java/com/weatherapp/fast/MainActivity.kt:346-377 | A reply with non-empty maxima and minima clears the error and writes one row: the date, the rounded coordinates, and element 0 of each series. getWeatherFromDatabase then finds that row. Any other reply writes nothing and leaves the network, non-2xx or empty-data message. The forecast callback at lines 395-424 is the same. |
| ViewModel.RoundedInputsShareRow | app/src/main/java/com/weatherapp/fast/MainActivity.kt:275-279 | Two coordinate pairs that round to the same hundredths read the same row. |
| ViewModel.StoredDays | app/src/main/java/com/weatherapp/fast/MainActivity.kt:492-506 | The insert loop stores the length of the shortest of the three series. It stores every date exactly when maxima and minima are at least as long as the dates. |
| ViewModel.BulkEntries | app/src/main/java/com/weatherapp/fast/MainActivity.kt:492-506 | The bulk path writes one row per stored day. |
| ViewModel.BulkRequest | app/src/main/java/com/weatherapp/fast/MainActivity.kt:483-490 | The bulk request goes to the archive with the typed coordinates and the daily maximum and minimum metrics. |
| ViewModel.BulkRangeReadsBack | app/src/main/java/com/weatherapp/fast/MainActivity.kt:483-490 | The end of the bulk range reads back as today.minusDays(10), exactly ten days before today. The start reads back as minusYears(10) of that end. |
| ViewModel.ShiftedDatesReadBack | app/src/main/java/com/weatherapp/fast/MainActivity.kt:483-489 | The ISO texts of a date moved back by days and then by years read back as those dates while the year stays in range. |
| ViewModel.BulkLastWriteWins | app/src/main/java/com/weatherapp/fast/MainActivity.kt:492-506 | After the bulk inserts, each key holds the last row the series gave for it. Every key at other coordinates is unchanged. |
| ViewModel.BulkRowsHiddenUnlessRounded | app/src/main/java/com/weatherapp/fast/MainActivity.kt:498-504 | When the typed coordinates are not whole hundredths, the bulk rows change nothing getWeatherFromDatabase can find. |
| ViewModel.WeatherViewModel.constructor | app/src/main/java/com/weatherapp/fast/MainActivity.kt:250-258 | A new view model has no error and no weather data. |
| ViewModel.WeatherViewModel.GetWeatherFromDatabase | app/src/main/java/com/weatherapp/fast/MainActivity.kt:261-280 | Returns nothing and sets the first input message for invalid input. Otherwise it returns the row under the rounded coordinates. The weather data is untouched. |
| ViewModel.WeatherViewModel.GetHistoricalDates | app/src/main/java/com/weatherapp/fast/MainActivity.kt:464-471 | The loop builds exactly HistoricalDates, whose shape HistoricalDatesShape states. |
| ViewModel.WeatherViewModel.CalculateAndDisplayAverageTemperatures | app/src/main/java/com/weatherapp/fast/MainActivity.kt:429-462 | Returns AverageOutcome: the rounded means of the hits, or no history. In the no-history case it sets "No historical data", and otherwise the error is untouched. The table and the weather data are untouched. |
| ViewModel.WeatherViewModel.SumCachedRows | app/src/main/java/com/weatherapp/fast/MainActivity.kt:436-452 | The totals are the sums of the hits' maxima and minima, and the count is the number of hits. The table is unchanged. |
| ViewModel.WeatherViewModel.OnResponse | app/src/main/java/com/weatherapp/fast/MainActivity.kt:346-377 | The new state is AfterReply, whose content ReplyWriteBack states. |
| ViewModel.WeatherViewModel.FetchWeatherData | app/src/main/java/com/weatherapp/fast/MainActivity.kt:282-427 | The new state and the request sent are AfterFetch. The fetch lemmas above state its branches. |
| ViewModel.WeatherViewModel.InsertDays | app/src/main/java/com/weatherapp/fast/MainActivity.kt:492-506 | The table becomes the old table with the bulk rows inserted in order. The loop completes exactly when maxima and minima are at least as long as the dates. |
| ViewModel.WeatherViewModel.StoreBulkReply | app/src/main/java/com/weatherapp/fast/MainActivity.kt:481-511 | The new state is AfterBulkReply. A failed call gives the historical-fetch error, and so does a series that runs short; rows inserted before the short index stay. |
| ViewModel.WeatherViewModel.FetchAndStoreHistoricalData | app/src/main/java/com/weatherapp/fast/MainActivity.kt:473-514 | The error is cleared and the coordinates are validated. When they are invalid, it returns the invalid-coordinates text and sends nothing. Otherwise it requests the archive from ten years before ten days ago to ten days ago, stores the reply as AfterBulkReply, and returns the success text. |

## Left out

- The Compose UI, the activity lifecycle, and the temperature formatting for display are left out. They are presentation only.
- Retrofit, Gson and `fetchHistoricalDataRange` are left out. Each call is the `reply` parameter, and the request is returned as a value. Gson can leave `daily`, or a list inside it, null; the model's `daily` and its lists are never null. In the source, a null `daily` in a successful archive or forecast reply makes `onResponse` throw (`MainActivity.kt` lines 349 and 398, which read `temperature_2m_max` without a check, and at 398 `temperature_2m_min` too), and the app crashes. In the bulk path, a null `daily` is skipped by `?.daily?.let` (line 492), so nothing is stored and no error is set. A null list there throws inside the loop, and the `catch` at lines 509-511 sets the historical-fetch error.
- Coroutines, `enqueue` callbacks and the concurrency between them are left out. Each handler runs to completion in order. `fetchAndStoreHistoricalData` returns its success text before its coroutine has run. The model runs the whole block before returning, so the text is the same but the ordering is not modelled.
- The `WeatherDatabase` singleton and a null `weatherDao` are left out. The view model always holds a table. With a null DAO the source finds nothing and writes nothing.
- Floating point is left out. Temperatures and coordinates are reals: there is no NaN or Infinity, divisions are exact, and the rounding has no binary representation error. The locale that `%.2f` would use is not modelled either.
- The fields of `WeatherData` that the view model never reads are left out: generation time, offset, timezone, elevation and units.
- `LocalDate.now()` is called more than once in the source. The model uses one `today` for all calls.
- `LocalDate.of` throwing in `getHistoricalDates` (29 February, or a year out of range) is not caught in the coroutine launched at line 297 of `MainActivity.kt`, so the app crashes. The model has no crash: it returns `HistoryUnavailable`, and the fetch stops with the state as it was. `minusDays` and `minusYears` overflowing the year range are not modelled.
- ViewModel.BulkRangeReadsBack: stated only for years at least 20 above the least year `LocalDate` holds, where every date of the range exists.
- The formatting of the historical dates is done before the loop in `CalculateAndDisplayAverageTemperatures`, not inside it. Formatting has no effect, so the results are the same.
- `SumCachedRows`, `InsertDays` and `StoreBulkReply` are the loops and the launched block of the source, written as methods of their own.
- Calendar.MinusDays: its own contract states only that the result is well formed. How far back it goes is stated by `MinusDaysIndex`.
- IsoDateText.ParseIsoDate: its own contract states only that an accepted date exists. Which texts it accepts is stated by the round trip and the example lemmas.
