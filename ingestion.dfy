/**
 * The telemetry ingestion endpoint of the weather station plugin: one POST
 * handler that checks that all seven fields are present, validates their
 * physical ranges (collecting every violation), authenticates the station by
 * id and passkey, refuses a report that comes within an hour of the
 * station's latest stored reading, and otherwise appends one reading row.
 *
 * The two database tables are abstract sequences owned by a `WeatherDb`
 * object; the database clock is the `now` parameter (integer seconds) and
 * whether the insert succeeds is the `insertOk` parameter.
 */
module Ingestion {
  import opened Wrappers

  // ---------------------------------------------------------------------------
  // Data model
  // ---------------------------------------------------------------------------

  /** The POST body as received: a field the client did not send is None. */
  datatype RawPost = RawPost(
    stationId: Option<int>,
    passkey: Option<string>,
    temperature: Option<real>,
    humidity: Option<real>,
    pressure: Option<real>,
    windSpeed: Option<real>,
    rainInches: Option<real>)

  /** A report whose seven fields are all present. */
  datatype Reading = Reading(
    stationId: int,
    passkey: string,
    temperature: real,
    humidity: real,
    pressure: real,
    windSpeed: real,
    rainInches: real)

  /** A row of the stations table: station id and passkey. */
  type StationRow = (int, string)

  /** A row of the weather data table; `dateTime` is in seconds. */
  datatype Row = Row(
    stationId: int,
    dateTime: int,
    temperature: real,
    humidity: real,
    pressure: real,
    windSpeed: real,
    precipitation: real)

  /** The HTTP status, the JSON envelope's success flag and its message. */
  datatype Reply = Reply(status: int, success: bool, message: string)

  /** What one request does: its reply, and the row it inserts, if any. */
  datatype Outcome = Outcome(reply: Reply, inserted: Option<Row>)

  /** The five range rules, in the order the handler checks them. */
  datatype Violation = Temperature | Humidity | Pressure | WindSpeed | Precipitation

  const BadRequest := 400
  const Forbidden := 403
  const TooManyRequests := 429
  const Ok := 200
  const ServerError := 500

  /** Minimum number of seconds between two stored reports of one station. */
  const MinInterval := 3600

  const MissingFieldsMessage := "Bad Request: Missing required fields"
  const OutOfRangePrefix := "Data out of range: "
  const ViolationSeparator := ", "
  const InvalidStationMessage := "Invalid station ID or passkey"
  const TooSoonMessage := "Post too soon. Please wait an hour."
  const SuccessMessage := "Data received successfully"
  const InsertFailedMessage := "Failed to insert data"

  // ---------------------------------------------------------------------------
  // Step 1: presence
  // ---------------------------------------------------------------------------

  predicate AllPresent(raw: RawPost) {
    && raw.stationId.Some? && raw.passkey.Some? && raw.temperature.Some?
    && raw.humidity.Some? && raw.pressure.Some? && raw.windSpeed.Some?
    && raw.rainInches.Some?
  }

  /** The typed report, defined exactly when no field is missing. */
  function Present(raw: RawPost): (r: Option<Reading>)
    ensures r.Some? <==> AllPresent(raw)
    ensures r.Some? ==> r.value.stationId == raw.stationId.value && r.value.passkey == raw.passkey.value
    ensures r.Some? ==> r.value.temperature == raw.temperature.value && r.value.humidity == raw.humidity.value
    ensures r.Some? ==> r.value.pressure == raw.pressure.value && r.value.windSpeed == raw.windSpeed.value
    ensures r.Some? ==> r.value.rainInches == raw.rainInches.value
  {
    var stationId :- raw.stationId;
    var passkey :- raw.passkey;
    var temperature :- raw.temperature;
    var humidity :- raw.humidity;
    var pressure :- raw.pressure;
    var windSpeed :- raw.windSpeed;
    var rainInches :- raw.rainInches;
    Some(Reading(stationId, passkey, temperature, humidity, pressure, windSpeed, rainInches))
  }

  // ---------------------------------------------------------------------------
  // Step 2: range validation
  // ---------------------------------------------------------------------------

  /** Position of a rule in the order the handler checks them. */
  function Rank(v: Violation): nat {
    match v
    case Temperature => 0
    case Humidity => 1
    case Pressure => 2
    case WindSpeed => 3
    case Precipitation => 4
  }

  /** The text the handler appends to its error list for a rule. */
  function Message(v: Violation): string {
    match v
    case Temperature => "Temperature out of range (-50 to 150 °F)"
    case Humidity => "Humidity out of range (0 to 100 %)"
    case Pressure => "Pressure out of range (0 or 800 to 1100 hPa)"
    case WindSpeed => "Wind speed out of range (0 to 200 mph)"
    case Precipitation => "Precipitation out of range (0 to 100 inches)"
  }

  /** Whether rule `v` rejects the report; pressure 0 means "no sensor". */
  predicate Violates(v: Violation, m: Reading) {
    match v
    case Temperature => m.temperature < -50.0 || m.temperature > 150.0
    case Humidity => m.humidity < 0.0 || m.humidity > 100.0
    case Pressure => m.pressure != 0.0 && (m.pressure < 800.0 || m.pressure > 1100.0)
    case WindSpeed => m.windSpeed < 0.0 || m.windSpeed > 200.0
    case Precipitation => m.rainInches < 0.0 || m.rainInches > 100.0
  }

  /** The closed intervals the plugin accepts, stated independently of `Violates`. */
  predicate InBounds(m: Reading) {
    && -50.0 <= m.temperature <= 150.0
    && 0.0 <= m.humidity <= 100.0
    && (m.pressure == 0.0 || 800.0 <= m.pressure <= 1100.0)
    && 0.0 <= m.windSpeed <= 200.0
    && 0.0 <= m.rainInches <= 100.0
  }

  /** The rules in the order the handler checks them; a rule's index is its `Rank`. */
  const ValidationOrder: seq<Violation> := [Temperature, Humidity, Pressure, WindSpeed, Precipitation]

  function IfViolates(v: Violation, m: Reading): seq<Violation> {
    if Violates(v, m) then [v] else []
  }

  /** The violations found after running the first `k` checks. */
  function Checked(k: nat, m: Reading): seq<Violation>
    requires k <= |ValidationOrder|
  {
    if k == 0 then [] else Checked(k - 1, m) + IfViolates(ValidationOrder[k - 1], m)
  }

  /** The first `k` checks find exactly the violated rules of rank below `k`, in rank order. */
  lemma {:induction false} CheckedExactly(k: nat, m: Reading)
    requires k <= |ValidationOrder|
    ensures forall v :: v in Checked(k, m) <==> Rank(v) < k && Violates(v, m)
    ensures forall i :: 0 <= i < |Checked(k, m)| ==> Rank(Checked(k, m)[i]) < k
    ensures forall i, j :: 0 <= i < j < |Checked(k, m)| ==> Rank(Checked(k, m)[i]) < Rank(Checked(k, m)[j])
  {
    if k > 0 {
      CheckedExactly(k - 1, m);
      var rule := ValidationOrder[k - 1];
      assert Rank(rule) == k - 1;
      forall v ensures v in Checked(k, m) <==> Rank(v) < k && Violates(v, m) {
        assert Rank(v) == k - 1 ==> v == rule;
      }
    }
  }

  /** Every violated rule, each once, in the handler's checking order. */
  function Violations(m: Reading): (vs: seq<Violation>)
    ensures forall v :: v in vs <==> Violates(v, m)
    ensures forall i, j :: 0 <= i < j < |vs| ==> Rank(vs[i]) < Rank(vs[j])
  {
    CheckedExactly(|ValidationOrder|, m);
    Checked(|ValidationOrder|, m)
  }

  function Messages(vs: seq<Violation>): (ms: seq<string>)
    ensures |ms| == |vs|
    ensures forall k :: 0 <= k < |vs| ==> ms[k] == Message(vs[k])
  {
    if vs == [] then [] else [Message(vs[0])] + Messages(vs[1..])
  }

  /** The total length of a list of strings. */
  function TotalLength(xs: seq<string>): nat {
    if xs == [] then 0 else |xs[0]| + TotalLength(xs[1..])
  }

  /**
   * PHP's `implode`: the strings with `sep` between neighbours, so the result
   * holds every string and one separator fewer than strings, and starts with
   * the first string.
   */
  function Join(xs: seq<string>, sep: string): (r: string)
    ensures xs == [] ==> r == ""
    ensures xs != [] ==> |r| == TotalLength(xs) + (|xs| - 1) * |sep|
    ensures xs != [] ==> r[..|xs[0]|] == xs[0]
  {
    if |xs| == 0 then ""
    else if |xs| == 1 then xs[0]
    else xs[0] + sep + Join(xs[1..], sep)
  }

  /**
   * The 400 message for a non-empty error list: the fixed prefix followed by
   * the joined messages, so it is longer than the prefix exactly when some
   * rule was violated.
   */
  function OutOfRangeMessage(vs: seq<Violation>): (r: string)
    ensures |r| >= |OutOfRangePrefix| && r[..|OutOfRangePrefix|] == OutOfRangePrefix
    ensures vs == [] <==> |r| == |OutOfRangePrefix|
  {
    var ms := Messages(vs);
    assert ms != [] ==> TotalLength(ms) >= |ms[0]| > 0;
    OutOfRangePrefix + Join(ms, ViolationSeparator)
  }

  /** Whether `a` occurs in `b` at some offset. */
  predicate OccursAt(a: string, b: string, i: int) {
    0 <= i && i + |a| <= |b| && b[i..i + |a|] == a
  }

  // ---------------------------------------------------------------------------
  // Step 3: station lookup, step 4: last entry
  // ---------------------------------------------------------------------------

  /**
   * The first stations row matching both the id and the passkey, as the
   * `WHERE station_id = %d AND passkey = %s` query returns it.
   */
  function Lookup(stations: seq<StationRow>, id: int, passkey: string): (r: Option<StationRow>)
    ensures r.Some? <==> (id, passkey) in stations
    ensures r.Some? ==> r.value == (id, passkey)
  {
    if |stations| == 0 then None
    else if stations[0].0 == id && stations[0].1 == passkey then Some(stations[0])
    else Lookup(stations[1..], id, passkey)
  }

  /**
   * The latest `date_time` among the station's rows (the query ordered by
   * `date_time DESC LIMIT 1`), None when the station has no row.
   */
  function LatestTime(readings: seq<Row>, id: int): (r: Option<int>)
    ensures r.None? <==> forall k :: 0 <= k < |readings| ==> readings[k].stationId != id
    ensures r.Some? ==> exists k :: 0 <= k < |readings| && readings[k].stationId == id && readings[k].dateTime == r.value
    ensures r.Some? ==> forall k :: 0 <= k < |readings| && readings[k].stationId == id ==> readings[k].dateTime <= r.value
  {
    if |readings| == 0 then None
    else
      var n := |readings| - 1;
      var earlier := LatestTime(readings[..n], id);
      if readings[n].stationId != id then earlier
      else if earlier.Some? && earlier.value > readings[n].dateTime then earlier
      else Some(readings[n].dateTime)
  }

  /**
   * The rate limit: a station's report within the interval of its latest row,
   * which is the same as within the interval of any of its rows.
   */
  predicate TooSoon(readings: seq<Row>, id: int, now: int)
    ensures TooSoon(readings, id, now) <==>
      exists k :: 0 <= k < |readings| && readings[k].stationId == id && now - readings[k].dateTime < MinInterval
  {
    var last := LatestTime(readings, id);
    last.Some? && now - last.value < MinInterval
  }

  // ---------------------------------------------------------------------------
  // The whole request
  // ---------------------------------------------------------------------------

  function Reject(status: int, message: string): Outcome {
    Outcome(Reply(status, false, message), None)
  }

  /** The handler's steps in its own order, each stopping the request on failure. */
  function Decide(stations: seq<StationRow>, readings: seq<Row>, raw: RawPost, now: int, insertOk: bool): (o: Outcome)
    ensures o.reply.status in {BadRequest, Forbidden, TooManyRequests, ServerError, Ok}
    ensures o.reply.success <==> o.reply.status == Ok
    ensures o.inserted.Some? <==> o.reply.status == Ok
    ensures o.inserted.Some? ==> AllPresent(raw) && o.inserted.value.stationId == raw.stationId.value
    ensures o.inserted.Some? ==> o.inserted.value.dateTime == now
  {
    match Present(raw)
    case None => Reject(BadRequest, MissingFieldsMessage)
    case Some(m) =>
      var vs := Violations(m);
      if vs != [] then Reject(BadRequest, OutOfRangeMessage(vs))
      else if Lookup(stations, m.stationId, m.passkey).None? then Reject(Forbidden, InvalidStationMessage)
      else if TooSoon(readings, m.stationId, now) then Reject(TooManyRequests, TooSoonMessage)
      else if !insertOk then Reject(ServerError, InsertFailedMessage)
      else
        // The database stamps the inserted row with `now`; rain is stored as precipitation.
        var row := Row(m.stationId, now, m.temperature, m.humidity, m.pressure, m.windSpeed, m.rainInches);
        Outcome(Reply(Ok, true, SuccessMessage), Some(row))
  }

  /** The rows an outcome adds to the data table. */
  function Inserted(o: Outcome): seq<Row> {
    if o.inserted.Some? then [o.inserted.value] else []
  }

  /** Any two rows of one station are at least the rate-limit interval apart, in insertion order. */
  ghost predicate Spaced(readings: seq<Row>) {
    forall i, j :: 0 <= i < j < |readings| && readings[i].stationId == readings[j].stationId ==>
      readings[i].dateTime + MinInterval <= readings[j].dateTime
  }

  /**
   * The handler's range checks, appending each violated rule to an initially
   * empty error list (the rule stands for its `Message`).
   */
  method RangeErrors(m: Reading) returns (errors: seq<Violation>)
    ensures errors == Violations(m)
    ensures errors == [] <==> InBounds(m)
  {
    errors := [];
    if m.temperature < -50.0 || m.temperature > 150.0 {
      errors := errors + [Temperature];
    }
    assert errors == Checked(1, m);
    if m.humidity < 0.0 || m.humidity > 100.0 {
      errors := errors + [Humidity];
    }
    assert errors == Checked(2, m);
    if m.pressure != 0.0 && (m.pressure < 800.0 || m.pressure > 1100.0) {
      errors := errors + [Pressure];
    }
    assert errors == Checked(3, m);
    if m.windSpeed < 0.0 || m.windSpeed > 200.0 {
      errors := errors + [WindSpeed];
    }
    assert errors == Checked(4, m);
    if m.rainInches < 0.0 || m.rainInches > 100.0 {
      errors := errors + [Precipitation];
    }
    InBoundsIffNoViolation(m);
  }

  // ---------------------------------------------------------------------------
  // The handler as an object over the two tables
  // ---------------------------------------------------------------------------

  class WeatherDb {
    var stations: seq<StationRow>
    var readings: seq<Row>

    constructor (stations: seq<StationRow>, readings: seq<Row>)
      ensures this.stations == stations && this.readings == readings
    {
      this.stations := stations;
      this.readings := readings;
    }

    /** Handles one POST, appending to `readings` only when the report is accepted and stored. */
    method Ingest(raw: RawPost, now: int, insertOk: bool) returns (reply: Reply)
      modifies this`readings
      ensures reply == Decide(stations, old(readings), raw, now, insertOk).reply
      ensures readings == old(readings) + Inserted(Decide(stations, old(readings), raw, now, insertOk))
      ensures Spaced(old(readings)) ==> Spaced(readings)
    {
      if raw.stationId.None? || raw.passkey.None? || raw.temperature.None? || raw.humidity.None?
        || raw.pressure.None? || raw.windSpeed.None? || raw.rainInches.None?
      {
        return Reply(BadRequest, false, MissingFieldsMessage);
      }
      var stationId, passkey := raw.stationId.value, raw.passkey.value;
      var temperature, humidity, pressure := raw.temperature.value, raw.humidity.value, raw.pressure.value;
      var windSpeed, rainInches := raw.windSpeed.value, raw.rainInches.value;
      var reading := Reading(stationId, passkey, temperature, humidity, pressure, windSpeed, rainInches);
      assert Present(raw) == Some(reading);

      var errors := RangeErrors(reading);
      if errors != [] {
        return Reply(BadRequest, false, OutOfRangeMessage(errors));
      }

      var station := Lookup(stations, stationId, passkey);
      if station.None? {
        return Reply(Forbidden, false, InvalidStationMessage);
      }

      var lastEntry := LatestTime(readings, stationId);
      if lastEntry.Some? && now - lastEntry.value < MinInterval {
        return Reply(TooManyRequests, false, TooSoonMessage);
      }

      var row := Row(stationId, now, temperature, humidity, pressure, windSpeed, rainInches);
      if Spaced(readings) {
        SpacingPreserved(stations, readings, raw, now, insertOk);
      }
      if insertOk {
        readings := readings + [row];
        reply := Reply(Ok, true, SuccessMessage);
      } else {
        reply := Reply(ServerError, false, InsertFailedMessage);
      }
    }
  }

  // ---------------------------------------------------------------------------
  // Properties of the pipeline
  // ---------------------------------------------------------------------------

  /** A missing field gives 400 and no insert, whatever the tables, clock or database say. */
  lemma MissingFieldRejected(stations: seq<StationRow>, readings: seq<Row>, raw: RawPost, now: int, insertOk: bool)
    requires !AllPresent(raw)
    ensures Decide(stations, readings, raw, now, insertOk) == Outcome(Reply(400, false, "Bad Request: Missing required fields"), None)
  {
  }

  /** No violation exactly when every field lies in its closed interval (pressure may be 0). */
  lemma InBoundsIffNoViolation(m: Reading)
    ensures Violations(m) == [] <==> InBounds(m)
  {
    if Violations(m) == [] {
      assert !Violates(Temperature, m) && !Violates(Humidity, m) && !Violates(Pressure, m);
      assert !Violates(WindSpeed, m) && !Violates(Precipitation, m);
    } else {
      var v := Violations(m)[0];
      assert Violates(v, m);
    }
  }

  /** Each rule accepts its own boundary values, whatever the other fields hold. */
  lemma BoundaryValuesAccepted(m: Reading)
    ensures m.temperature == -50.0 || m.temperature == 150.0 ==> Temperature !in Violations(m)
    ensures m.humidity == 0.0 || m.humidity == 100.0 ==> Humidity !in Violations(m)
    ensures m.pressure == 0.0 || m.pressure == 800.0 || m.pressure == 1100.0 ==> Pressure !in Violations(m)
    ensures m.windSpeed == 0.0 || m.windSpeed == 200.0 ==> WindSpeed !in Violations(m)
    ensures m.rainInches == 0.0 || m.rainInches == 100.0 ==> Precipitation !in Violations(m)
  {
  }

  /** Pressure exactly 0 never yields a pressure violation. */
  lemma PressureZeroExempt(m: Reading)
    requires m.pressure == 0.0
    ensures Pressure !in Violations(m)
  {
  }

  /** `Join` contains each of its parts at some offset. */
  lemma {:induction false} JoinContainsEach(xs: seq<string>, sep: string, k: nat)
    requires k < |xs|
    ensures exists i :: OccursAt(xs[k], Join(xs, sep), i)
  {
    if |xs| == 1 {
      assert OccursAt(xs[0], Join(xs, sep), 0);
    } else if k == 0 {
      assert Join(xs, sep)[0..|xs[0]|] == xs[0];
      assert OccursAt(xs[0], Join(xs, sep), 0);
    } else {
      JoinContainsEach(xs[1..], sep, k - 1);
      var i :| OccursAt(xs[1..][k - 1], Join(xs[1..], sep), i);
      var off := |xs[0]| + |sep|;
      var whole := Join(xs, sep);
      assert whole == xs[0] + sep + Join(xs[1..], sep);
      assert whole[off + i..off + i + |xs[k]|] == Join(xs[1..], sep)[i..i + |xs[k]|];
      assert OccursAt(xs[k], whole, off + i);
    }
  }

  /** An out-of-range report gets 400 with a message naming every violated rule. */
  lemma OutOfRangeMentionsAll(stations: seq<StationRow>, readings: seq<Row>, raw: RawPost, now: int, insertOk: bool, v: Violation)
    requires AllPresent(raw) && Violates(v, Present(raw).value)
    ensures Decide(stations, readings, raw, now, insertOk).reply.status == 400
    ensures Decide(stations, readings, raw, now, insertOk).inserted.None?
    ensures Decide(stations, readings, raw, now, insertOk).reply.message ==
      OutOfRangePrefix + Join(Messages(Violations(Present(raw).value)), ViolationSeparator)
    ensures var msg := Decide(stations, readings, raw, now, insertOk).reply.message;
      exists i :: |OutOfRangePrefix| <= i && OccursAt(Message(v), msg, i)
  {
    var m := Present(raw).value;
    var vs := Violations(m);
    assert Decide(stations, readings, raw, now, insertOk) == Reject(BadRequest, OutOfRangeMessage(vs));
    var k :| 0 <= k < |vs| && vs[k] == v;
    var ms := Messages(vs);
    JoinContainsEach(ms, ViolationSeparator, k);
    var i :| OccursAt(ms[k], Join(ms, ViolationSeparator), i);
    OccursAfterPrefix(ms[k], OutOfRangePrefix, Join(ms, ViolationSeparator), i);
  }

  lemma OccursAfterPrefix(a: string, p: string, s: string, i: int)
    requires OccursAt(a, s, i)
    ensures OccursAt(a, p + s, |p| + i)
  {
    assert (p + s)[|p| + i..|p| + i + |a|] == s[i..i + |a|];
  }

  /** Range validation comes before authentication: the stations table plays no part in a 400. */
  lemma ValidationPrecedesAuthentication(stations1: seq<StationRow>, stations2: seq<StationRow>, readings: seq<Row>,
                                         raw: RawPost, now: int, insertOk: bool)
    requires AllPresent(raw) && Violations(Present(raw).value) != []
    ensures Decide(stations1, readings, raw, now, insertOk) == Decide(stations2, readings, raw, now, insertOk)
    ensures Decide(stations1, readings, raw, now, insertOk).reply.status == 400
  {
  }

  /** An out-of-range report from an unknown station is a 400, not a 403. */
  lemma UnknownStationOutOfRangeIs400(readings: seq<Row>, raw: RawPost, now: int, insertOk: bool)
    requires AllPresent(raw) && Violations(Present(raw).value) != []
    ensures Decide([], readings, raw, now, insertOk).reply.status == 400
  {
  }

  /**
   * An unknown station id and a known id with a wrong passkey yield the
   * identical 403 reply: for valid reports whose (id, passkey) pair is not in
   * the table, the reply does not depend on the id or the passkey.
   */
  lemma AuthenticationFailureIndistinguishable(stations: seq<StationRow>, readings: seq<Row>,
                                               raw1: RawPost, raw2: RawPost, now: int, insertOk: bool)
    requires AllPresent(raw1) && Violations(Present(raw1).value) == []
    requires AllPresent(raw2) && Violations(Present(raw2).value) == []
    requires (raw1.stationId.value, raw1.passkey.value) !in stations
    requires (raw2.stationId.value, raw2.passkey.value) !in stations
    ensures Decide(stations, readings, raw1, now, insertOk) == Decide(stations, readings, raw2, now, insertOk)
    ensures Decide(stations, readings, raw1, now, insertOk) == Outcome(Reply(403, false, "Invalid station ID or passkey"), None)
  {
  }

  /** A report within the interval of the station's latest row gets 429 and no insert. */
  lemma TooSoonRefused(stations: seq<StationRow>, readings: seq<Row>, raw: RawPost, now: int, insertOk: bool, k: nat)
    requires AllPresent(raw) && Violations(Present(raw).value) == []
    requires (raw.stationId.value, raw.passkey.value) in stations
    requires k < |readings| && readings[k].stationId == raw.stationId.value
    requires now - readings[k].dateTime < 3600
    ensures Decide(stations, readings, raw, now, insertOk) == Outcome(Reply(429, false, "Post too soon. Please wait an hour."), None)
  {
  }

  /** Exactly the interval, or more, since every row of the station lets the report through the limit. */
  lemma IntervalElapsedProceeds(stations: seq<StationRow>, readings: seq<Row>, raw: RawPost, now: int)
    requires AllPresent(raw) && Violations(Present(raw).value) == []
    requires (raw.stationId.value, raw.passkey.value) in stations
    requires forall k :: 0 <= k < |readings| && readings[k].stationId == raw.stationId.value ==>
      now - readings[k].dateTime >= 3600
    ensures Decide(stations, readings, raw, now, true).reply == Reply(200, true, "Data received successfully")
    ensures Decide(stations, readings, raw, now, false).reply == Reply(500, false, "Failed to insert data")
  {
    var last := LatestTime(readings, raw.stationId.value);
    if last.Some? {
      var k :| 0 <= k < |readings| && readings[k].stationId == raw.stationId.value && readings[k].dateTime == last.value;
    }
  }

  /** A station with no stored row is never rate-limited. */
  lemma FirstReportProceeds(stations: seq<StationRow>, readings: seq<Row>, raw: RawPost, now: int, insertOk: bool)
    requires AllPresent(raw)
    requires forall k :: 0 <= k < |readings| ==> readings[k].stationId != raw.stationId.value
    ensures !TooSoon(readings, raw.stationId.value, now)
  {
  }

  /**
   * Exactly one row is stored, carrying the station id, the four measures
   * and the rain reading as precipitation, precisely when the reply is 200.
   */
  lemma InsertExactlyOnSuccess(stations: seq<StationRow>, readings: seq<Row>, raw: RawPost, now: int, insertOk: bool)
    ensures var o := Decide(stations, readings, raw, now, insertOk);
      (o.reply.status == 200 <==> o.inserted.Some?) && |Inserted(o)| <= 1
    ensures var o := Decide(stations, readings, raw, now, insertOk);
      o.inserted.Some? ==>
        && o.inserted.value == Row(raw.stationId.value, now, raw.temperature.value, raw.humidity.value,
                                   raw.pressure.value, raw.windSpeed.value, raw.rainInches.value)
        && o.reply == Reply(200, true, "Data received successfully")
  {
  }

  /** A failed insert is a 500 and leaves the table as it was. */
  lemma InsertFailureIs500(stations: seq<StationRow>, readings: seq<Row>, raw: RawPost, now: int)
    requires AllPresent(raw) && Violations(Present(raw).value) == []
    requires (raw.stationId.value, raw.passkey.value) in stations
    requires !TooSoon(readings, raw.stationId.value, now)
    ensures Decide(stations, readings, raw, now, false) == Outcome(Reply(500, false, "Failed to insert data"), None)
  {
  }

  /** Accepting a report keeps any two rows of one station an interval apart. */
  lemma SpacingPreserved(stations: seq<StationRow>, readings: seq<Row>, raw: RawPost, now: int, insertOk: bool)
    requires Spaced(readings)
    ensures Spaced(readings + Inserted(Decide(stations, readings, raw, now, insertOk)))
  {
    var o := Decide(stations, readings, raw, now, insertOk);
    if o.inserted.Some? {
      var row := o.inserted.value;
      var after := readings + [row];
      forall i, j | 0 <= i < j < |after| && after[i].stationId == after[j].stationId
        ensures after[i].dateTime + MinInterval <= after[j].dateTime
      {
        if j == |readings| {
          var last := LatestTime(readings, row.stationId);
          assert last.Some?;
          assert readings[i].dateTime <= last.value;
        }
      }
    }
  }

  /**
   * Any accepted report is followed by a refusal: the same report sent again
   * within the interval, after the first one was stored, gets 429.
   */
  lemma AcceptThenTooSoon(stations: seq<StationRow>, readings: seq<Row>, raw: RawPost, now: int, later: int)
    requires Decide(stations, readings, raw, now, true).reply.status == 200
    requires later < now + MinInterval
    ensures var after := readings + Inserted(Decide(stations, readings, raw, now, true));
      Decide(stations, after, raw, later, true) == Outcome(Reply(429, false, "Post too soon. Please wait an hour."), None)
  {
    var m := Present(raw).value;
    assert Violations(m) == [] && Lookup(stations, m.stationId, m.passkey).Some?;
    var after := readings + Inserted(Decide(stations, readings, raw, now, true));
    assert after[|readings|] == Row(m.stationId, now, m.temperature, m.humidity, m.pressure, m.windSpeed, m.rainInches);
    TooSoonRefused(stations, after, raw, later, true, |readings|);
  }

  /**
   * End-to-end scenario: station 5 with passkey "abc" and no stored row
   * reports a reading and is accepted; the same report ten minutes later is
   * refused with 429.
   */
  lemma StationFiveScenario(now: int)
    ensures var raw := RawPost(Some(5), Some("abc"), Some(72.5), Some(40.0), Some(1013.0), Some(5.0), Some(0.0));
      var first := Decide([(5, "abc")], [], raw, now, true);
      && first.reply.status == 200
      && first.inserted == Some(Row(5, now, 72.5, 40.0, 1013.0, 5.0, 0.0))
      && Decide([(5, "abc")], Inserted(first), raw, now + 600, true).reply.status == 429
  {
    var raw := RawPost(Some(5), Some("abc"), Some(72.5), Some(40.0), Some(1013.0), Some(5.0), Some(0.0));
    var m := Present(raw).value;
    InBoundsIffNoViolation(m);
    assert Violations(m) == [];
    assert Lookup([(5, "abc")], 5, "abc").Some?;
    var r := Row(5, now, 72.5, 40.0, 1013.0, 5.0, 0.0);
    assert LatestTime([r], 5) == Some(now);
  }
}
