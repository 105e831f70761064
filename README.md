# Weather station plugin: ingestion and graph assembly

This project models the two halves of the weather-data path of a WordPress
weather-station plugin and proves properties of them.

The first half is the HTTP endpoint that stations POST their readings to
(`post-weather-data.php`). It does five things:

1. It requires all seven fields: station id, passkey, temperature, humidity,
   pressure, wind speed and rain in inches.
2. It checks each measure against a closed range. It collects one message per
   violated rule, in a fixed order. A pressure of exactly 0 is exempt from the
   pressure rule.
3. It authenticates the station id and passkey pair against the stations table.
4. It refuses a post that comes less than 3600 seconds after that station's
   latest stored reading.
5. It inserts one row.

Each of these steps ends with a specific HTTP status (400, 403, 429, 200 or 500)
and a specific message. `Ingestion.Decide` is the specification of the whole
handler as a function of:

- the stations table,
- the stored readings,
- the posted fields,
- the current time,
- whether the database insert succeeds.

`Ingestion.WeatherDb.Ingest` is the imperative handler over a mutable table of
readings, and it is proved against `Decide`. Every sequence of accepted posts
keeps the same-station spacing invariant `Spaced`: two rows of one station are
at least an hour apart.

The second half is the browser-side graph handler (`weather-graph-handler.js`):

- `parseDateString` splits a stored `YYYY-MM-DD HH:MM:SS` stamp on `-`, space
  and `:`, and builds a date with a 0-based month.
- The success handler turns the server's rows into parallel label and value
  arrays. It keeps exactly the rows whose date and measure both parse, in their
  original order.
- It then replaces the page's chart. When there is no data, it destroys the
  chart without drawing a new one.

The JavaScript built-ins `parseInt`, `parseFloat` and `new Date(...)` are
parameters of the model (`GraphHandler.Parsers`). The properties therefore
hold whatever those functions return.

The handler validates the ranges before it authenticates the station.
`Ingestion.ValidationPrecedesAuthentication` proves the consequence: an
out-of-range post gets 400 whatever the stations table holds.

The graph handler shows "no data" only when the response is unsuccessful or
holds no rows; it tests this before any row is parsed. So a response whose rows all
fail to parse still draws an empty chart, and the model does the same.

## Model

| member | source | states |
|---|---|---|
| Ingestion.Present | core/includes/classes/post-weather-data.php:20-36 | The fields are read exactly when all seven are present, and each carries the posted value; one missing field stops the handler. |
| Ingestion.MissingFieldRejected | core/includes/classes/post-weather-data.php:31-36 | Any missing field gives 400 "Bad Request: Missing required fields" and nothing is stored, whatever the tables hold. |
| Ingestion.CheckedExactly | core/includes/classes/post-weather-data.php:39-54 | After the first k range checks, the error list holds exactly the violated rules among those k, each once, in check order. |
| Ingestion.Violations | core/includes/classes/post-weather-data.php:39-54 | A rule is in the error list if and only if the reading violates it; the list follows the order temperature, humidity, pressure, wind speed, precipitation. |
| Ingestion.RangeErrors | core/includes/classes/post-weather-data.php:39-54 | The five sequential checks build exactly the list `Violations` describes, and it is empty if and only if every measure lies within its closed range. |
| Ingestion.InBoundsIffNoViolation | core/includes/classes/post-weather-data.php:40-54 | No rule is violated if and only if temperature is in [-50, 150], humidity in [0, 100], pressure 0 or in [800, 1100], wind in [0, 200] and rain in [0, 100]. |
| Ingestion.BoundaryValuesAccepted | core/includes/classes/post-weather-data.php:40-54 | Each rule accepts its own bounds whatever the other fields hold: the comparisons are strict, so the ranges are inclusive. |
| Ingestion.PressureZeroExempt | core/includes/classes/post-weather-data.php:46-48 | A pressure of exactly zero never produces the pressure error. |
| Ingestion.Messages | core/includes/classes/post-weather-data.php:41-53 | There is one message per violated rule, position by position, each the rule's fixed text. |
| Ingestion.Join | core/includes/classes/post-weather-data.php:57 | `implode` of a non-empty list has the length of all the strings plus one separator between each neighbouring pair, and starts with the first string; of an empty list it is empty. |
| Ingestion.OutOfRangeMessage | core/includes/classes/post-weather-data.php:57 | The message starts with "Data out of range: " and is longer than that prefix exactly when some rule was violated. |
| Ingestion.JoinContainsEach | core/includes/classes/post-weather-data.php:57 | The comma-joined error text contains every individual message. |
| Ingestion.OutOfRangeMentionsAll | core/includes/classes/post-weather-data.php:56-62 | Any violated rule makes the reply 400 and stores nothing. The reply message is exactly "Data out of range: " followed by the violated rules' messages joined with ", ", and it contains that rule's message after the prefix. |
| Ingestion.ValidationPrecedesAuthentication | core/includes/classes/post-weather-data.php:39-73 | With a range violation, the outcome does not depend on the stations table and is always 400. |
| Ingestion.UnknownStationOutOfRangeIs400 | core/includes/classes/post-weather-data.php:39-73 | Even a station absent from an empty table gets 400, not 403, for out-of-range data. |
| Ingestion.Lookup | core/includes/classes/post-weather-data.php:64-73 | A station row is found if and only if the id and passkey pair is registered, and the found row is that pair. |
| Ingestion.AuthenticationFailureIndistinguishable | core/includes/classes/post-weather-data.php:67-73 | Two valid posts with unregistered credentials get the same 403 "Invalid station ID or passkey" outcome whatever their values, so the reply does not reveal whether the id or the passkey was wrong. |
| Ingestion.LatestTime | core/includes/classes/post-weather-data.php:75-82 | There is no latest entry if and only if the station has no stored row; otherwise the result is the date of one of its rows and no row of that station is later. |
| Ingestion.TooSoon | core/includes/classes/post-weather-data.php:84-99 | A post is too soon exactly when some stored row of the same station is less than 3600 seconds older than now; comparing with the latest row alone decides the same thing. |
| Ingestion.FirstReportProceeds | core/includes/classes/post-weather-data.php:84-100 | A station with no stored reading is never rate-limited. |
| Ingestion.TooSoonRefused | core/includes/classes/post-weather-data.php:84-99 | An authenticated, in-range post less than 3600 seconds after any stored reading of the same station gets 429 "Post too soon. Please wait an hour." and nothing is stored. |
| Ingestion.IntervalElapsedProceeds | core/includes/classes/post-weather-data.php:84-127 | When every stored reading of the station is at least 3600 seconds old, the post reaches the insert: 200 "Data received successfully" if it succeeds, 500 "Failed to insert data" if not. |
| Ingestion.InsertExactlyOnSuccess | core/includes/classes/post-weather-data.php:102-122 | A row is stored if and only if the reply is 200, at most one row is stored, and that row carries the station id, the current time, the four measures and the rain reading as precipitation. |
| Ingestion.InsertFailureIs500 | core/includes/classes/post-weather-data.php:119-127 | A failed insert of an otherwise accepted post gives 500 "Failed to insert data" and stores nothing. |
| Ingestion.SpacingPreserved | core/includes/classes/post-weather-data.php:75-113 | If every two rows of one station are at least an hour apart, that still holds after any post is handled. |
| Ingestion.AcceptThenTooSoon | core/includes/classes/post-weather-data.php:84-122 | After any post is accepted with 200 and its row stored, the same post again less than 3600 seconds later gets 429 "Post too soon. Please wait an hour." and stores nothing. |
| Ingestion.StationFiveScenario | core/includes/classes/post-weather-data.php:19-127 | Station 5 with passkey "abc" and no stored row has its reading accepted with 200 and stored as that row; the same post ten minutes later gets 429. |
| Ingestion.Decide | core/includes/classes/post-weather-data.php:19-127 | Every post ends with one of the statuses 400, 403, 429, 500 or 200; the reply reports success, and a row is stored, exactly when the status is 200; a stored row belongs to the posting station and carries the current time. |
| Ingestion.WeatherDb.Ingest | core/includes/classes/post-weather-data.php:19-127 | The handler replies with the status and message `Decide` prescribes, appends exactly the row `Decide` stores and nothing else, and keeps the per-station spacing invariant. |
| GraphHandler.Split | core/includes/assets/js/weather-graph-handler.js:33 | Splitting on `-`, space and `:` yields one more piece than there are separators, and no piece contains a separator. |
| GraphHandler.SplitThenInterleave | core/includes/assets/js/weather-graph-handler.js:33 | Re-joining the pieces with the separators that were found rebuilds the original string. |
| GraphHandler.InterleaveThenSplit | core/includes/assets/js/weather-graph-handler.js:33 | Splitting separator-free pieces joined by separators gives back exactly those pieces and separators. |
| GraphHandler.StoredStampSplits | core/includes/assets/js/weather-graph-handler.js:33 | A stored `Y-M-D h:m:s` stamp with separator-free components splits into exactly those six components. |
| GraphHandler.DateFields | core/includes/assets/js/weather-graph-handler.js:34-41 | Date fields exist if and only if at least six pieces exist and the first six all parse as integers; they are then pieces 0 to 5 parsed, with one subtracted from the month. |
| GraphHandler.ParseDateString | core/includes/assets/js/weather-graph-handler.js:32-42 | A string with fewer than five separators gives no date. If the first six pieces of the split string parse, the result is exactly what `new Date` gives for those fields; if not, there is no date. |
| GraphHandler.ParseStoredStamp | core/includes/assets/js/weather-graph-handler.js:32-42 | Parsing a stored stamp builds the date from year, month minus one, day, hour, minute and second when all six parse, and fails otherwise. |
| GraphHandler.FilterMap | core/includes/assets/js/weather-graph-handler.js:74-91 | Keeping only the defined results never lengthens the series. |
| GraphHandler.FilterIsSubsequence | core/includes/assets/js/weather-graph-handler.js:74-91 | The kept results are, in order, the results at a strictly increasing list of input positions. |
| GraphHandler.FilterIndicesExactly | core/includes/assets/js/weather-graph-handler.js:85-90 | A position is kept if and only if its result is defined. |
| GraphHandler.FilterMapConcat | core/includes/assets/js/weather-graph-handler.js:74-91 | Filtering two consecutive stretches of rows gives the concatenation of their filtered results. |
| GraphHandler.KeptIsParsedSubsequence | core/includes/assets/js/weather-graph-handler.js:74-91 | The plotted points are, in original order, the points of exactly the rows whose date string parses through `parseDateString` and whose measure column parses through `parseFloat` (a missing column never does); each point is that row's date with that value, and there are no more of them than rows. |
| GraphHandler.RowKeptExactlyWhenParsed | core/includes/assets/js/weather-graph-handler.js:85-90 | A malformed row is dropped without affecting the rows around it; a well-formed row contributes its point in place. |
| GraphHandler.AssembleSeries | core/includes/assets/js/weather-graph-handler.js:70-91 | The loop produces label and value arrays of equal length whose k-th entries are the k-th kept point. |
| GraphHandler.DestroyIfAny | core/includes/assets/js/weather-graph-handler.js:156-158 | A chart, if there is one, becomes destroyed with its measure and data unchanged and, in the no-data branch, stays referenced; without a chart nothing happens. |
| GraphHandler.AfterResponse | core/includes/assets/js/weather-graph-handler.js:66-159 | A successful response with rows always leaves a live chart of the requested measure whose k-th label and value are the k-th kept point, no more points than rows. Otherwise no live chart remains, and a previous chart stays referenced but destroyed with its measure and data unchanged. |
| GraphHandler.GraphView.OnResponse | core/includes/assets/js/weather-graph-handler.js:63-159 | The page's chart after the success handler is the chart `AfterResponse` prescribes from the previous chart and the response. When a new chart is drawn over an existing one, that one is destroyed first (:103-105) and recorded, destroyed, as replaced; otherwise nothing is recorded. |
| GraphHandler.GraphView.Refresh | core/includes/assets/js/weather-graph-handler.js:45-165 | Unless station, measure and time range are all selected and non-empty, nothing is requested and the chart is unchanged. Otherwise those three values are sent; an AJAX error only logs and replaces nothing, and a delivered response changes the chart and the replaced charts as `OnResponse` prescribes. |

## Left out

- HTTP and WordPress plumbing is not modelled: the `ABSPATH` guard, the POST-method guard, the time-zone setting, `wp-load.php` and `error_log`. The status passed to `http_response_code` and the `wp_send_json_*` call are modelled together as a `Reply` of status, success flag and message.
- A failed read query is not modelled. On a database error `$wpdb->get_row` returns null, which the handler reads as "no row": a failed station lookup answers 403, and a failed last-entry read skips the rate limit. The sequence tables of the model cannot fail, so neither path exists in it.
- The database is modelled as two sequences: station rows as (id, passkey) pairs, and reading rows. SQL, prepared statements and table prefixes are not modelled.
- The row timestamp the database assigns and the server's current time are the single parameter `now`, in seconds.
- The America/Denver time zone is not modelled. Both times are taken as absolute seconds, as `getTimestamp()` returns them.
- PHP's loose comparison of string POST values with numbers is not modelled. A present field is taken as its numeric value, so a present but non-numeric field (including an empty string) is outside the model.
- Ingestion.WeatherDb.Ingest: handles one post at a time. Two concurrent posts of one station can both pass the rate-limit read before either inserts; that race is not modelled.
- Ingestion.RangeErrors: returns the list of violated rules rather than the message strings. `Ingestion.Messages` maps each rule to its exact text, and `Ingestion.OutOfRangeMessage` joins the texts as the reply does.
- Ingestion.Lookup: returns the matched (id, passkey) pair rather than the whole station row, because the handler only tests whether a row exists. It also compares passkeys exactly. The query compares `passkey = %s` under the stations table's collation; that table's definition is not part of this model, and WordPress's default case-insensitive collations would also match a passkey differing in letter case or trailing spaces.
- Ingestion.InsertExactlyOnSuccess: states that the measures are stored exactly as posted. The insert formats them with `%f`, which writes six decimals, and the column type may round further; that formatting is not modelled.
- The JavaScript built-ins `parseInt`, `parseFloat` and `new Date(...)` are uninterpreted fields of the `Parsers` parameter. A `None` stands for NaN or an invalid date, and JavaScript's `Infinity` has no counterpart in `real`.
- A data row without a `date_time` field makes the JavaScript throw in `split`. Every modelled row carries a date string.
- GraphHandler.GraphView.Refresh: treats the AJAX call as synchronous. Overlapping requests, and responses arriving out of order, are not modelled.
- The DOM is not modelled: the debug output, the console logging, the chart's Chart.js options and the canvas context.
- The station dropdown population (lines 2-29 of the graph handler) is not part of this model.
- The shortcode and other plugin classes are not part of this model.
