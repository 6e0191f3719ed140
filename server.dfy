/**
 * server.py's configuration and form handling: the Redis host/port read from the
 * environment and the series list a report request selects. The environment is a
 * parameter (a map from variable names to values).
 */
module Server {
  import opened Wrappers
  import opened Seqs
  import Text
  import Report

  const DefaultRedisPort := 6379

  /** `os.environ.get('REDIS_URL', os.environ.get('REDIS_HOSTNAME', 'localhost'))`. */
  function RedisSetting(env: map<string, string>): string
  {
    if "REDIS_URL" in env then env["REDIS_URL"]
    else if "REDIS_HOSTNAME" in env then env["REDIS_HOSTNAME"]
    else "localhost"
  }

  /**
   * The host is the first ':'-separated field of the setting; the port is `int()` of the
   * second field when there is one (ValueError when it is not a number), else 6379.
   */
  function RedisAddress(env: map<string, string>): (r: Result<(string, int)>)
    ensures r.Success? ==> ':' !in r.value.0 && r.value.0 <= RedisSetting(env)
    ensures ':' !in RedisSetting(env) ==> r == Success((RedisSetting(env), DefaultRedisPort))
    ensures ':' in RedisSetting(env) && r.Success? ==> r.value.0 + ":" <= RedisSetting(env)
    ensures ':' in RedisSetting(env) ==>
              |Text.Split(RedisSetting(env), ':')| > 1 &&
              (r.Success? <==> Text.ParseInt(Text.Split(RedisSetting(env), ':')[1]).Some?) &&
              (r.Success? ==> r.value.1 == Text.ParseInt(Text.Split(RedisSetting(env), ':')[1]).value)
  {
    var fields := Text.Split(RedisSetting(env), ':');
    Text.SplitHead(RedisSetting(env), ':');
    if |fields[1..]| > 0 then
      match Text.ParseInt(fields[1..][0])
      case Some(port) => Success((fields[0], port))
      case None => Failure("ValueError")
    else Success((fields[0], DefaultRedisPort))
  }

  /** `host:port` for any port number reads back as that host and port. */
  lemma RedisAddressHostPort(env: map<string, string>, host: string, port: nat)
    requires ':' !in host && RedisSetting(env) == host + ":" + Text.ShowNat(port)
    ensures RedisAddress(env) == Success((host, port))
  {
    var p := Text.ShowNat(port);
    assert forall k :: 0 <= k < |p| ==> p[k] != ':';
    Text.SplitNoSeparator(host, ':');
    Text.SplitNoSeparator(p, ':');
    Text.SplitAtSeparator(host, p, ':');
    Text.ParseShowNat(port);
  }

  /**
   * A URL with a scheme (`redis://host:port`) does not parse: the second field is
   * `//host`, which is not a number.
   */
  lemma RedisAddressRejectsScheme(env: map<string, string>, host: string, port: nat)
    requires ':' !in host && RedisSetting(env) == "redis://" + host + ":" + Text.ShowNat(port)
    ensures RedisAddress(env).Failure?
  {
    var field := "//" + host;
    var tail := ":" + Text.ShowNat(port);
    var rest := field + tail;
    assert RedisSetting(env) == "redis" + [':'] + rest;
    Text.SplitFirst("redis", rest, ':');
    assert ':' !in field;
    Text.FirstPiece(field, tail, ':');
    var fields := Text.Split(RedisSetting(env), ':');
    assert fields[1..][0] == field;
    assert !Text.IsDigit(field[0]) && field[0] != '-' && field[0] != '+';
    assert Text.ParseInt(field).None?;
  }

  /**
   * generate's `series`: the known series names, in their fixed order, whose form value is
   * exactly 'true'.
   */
  function SeriesFromForm(form: map<string, string>): seq<string>
  {
    Filter(Report.SeriesNames, (k: string) => k in form && form[k] == "true")
  }

  /**
   * The list keeps the order temperature, humidity, light, movement, rssi and holds a name
   * iff the form sends 'true' for it.
   */
  lemma SeriesFromFormSpec(form: map<string, string>)
    ensures IsSubsequence(SeriesFromForm(form), Report.SeriesNames)
    ensures forall j :: 0 <= j < |Report.SeriesNames| ==>
      (Report.SeriesNames[j] in SeriesFromForm(form) <==>
       Report.SeriesNames[j] in form && form[Report.SeriesNames[j]] == "true")
    ensures forall k :: k in SeriesFromForm(form) ==> k in Report.SeriesNames
  {
    FilterIsSubsequence(Report.SeriesNames, (k: string) => k in form && form[k] == "true");
  }

  /**
   * The plots a request produces: with at least one ticked box, exactly the ticked series
   * in canonical order; with none, only the movement and signal plots.
   */
  lemma FormSelectsPlots(form: map<string, string>)
    ensures var series := SeriesFromForm(form);
      (|series| > 0 ==> forall j :: 0 <= j < |Report.Types| ==>
        (Report.Types[j] in Report.SelectTypes(series) <==>
         Report.SeriesNames[j] in form && form[Report.SeriesNames[j]] == "true")) &&
      (|series| == 0 ==> Report.SelectTypes(series) == Report.Types[3..])
  {
    var series := SeriesFromForm(form);
    SeriesFromFormSpec(form);
    if |series| > 0 {
      Report.SelectTypesListed(series);
    }
  }
}
