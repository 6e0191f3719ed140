/**
 * uploads.py's Redis host setting: `REDIS_URL`, or '://' followed by `REDIS_HOSTNAME`
 * (default 'localhost'); the host is the second ':'-separated field with its first two
 * characters (the `//` of a URL) dropped. The environment is a parameter.
 */
module Uploads {
  import opened Wrappers
  import Text

  function RedisSetting(env: map<string, string>): string
  {
    if "REDIS_URL" in env then env["REDIS_URL"]
    else "://" + (if "REDIS_HOSTNAME" in env then env["REDIS_HOSTNAME"] else "localhost")
  }

  /** Python's `s[2:]`: empty when `s` is shorter than two characters. */
  function DropTwo(s: string): (r: string)
    ensures |r| == if |s| < 2 then 0 else |s| - 2
    ensures |s| >= 2 ==> s == s[..2] + r
  {
    if |s| < 2 then "" else s[2..]
  }

  /** `host.split(':')[1][2:]`; a setting without ':' has no second field (IndexError). */
  function RedisHost(env: map<string, string>): (r: Result<string>)
    ensures r.Failure? <==> ':' !in RedisSetting(env)
    ensures r.Success? ==> ':' !in r.value
  {
    var fields := Text.Split(RedisSetting(env), ':');
    Text.SplitHead(RedisSetting(env), ':');
    if |fields| < 2 then Failure("IndexError") else Success(DropTwo(fields[1]))
  }

  /** A URL `<scheme>://<host>` names `host`, and so does `<scheme>://<host>:<port>`. */
  lemma RedisHostOfUrl(env: map<string, string>, scheme: string, host: string, port: Option<string>)
    requires ':' !in scheme && ':' !in host && (port.Some? ==> ':' !in port.value)
    requires RedisSetting(env) == scheme + "://" + host + (if port.Some? then ":" + port.value else "")
    ensures RedisHost(env) == Success(host)
  {
    var tail := if port.Some? then ":" + port.value else "";
    var field := "//" + host;
    var rest := field + tail;
    assert RedisSetting(env) == scheme + [':'] + rest;
    Text.SplitFirst(scheme, rest, ':');
    assert ':' !in field;
    Text.FirstPiece(field, tail, ':');
    assert Text.Split(RedisSetting(env), ':')[1] == field;
    assert field[2..] == host;
  }

  /** Without REDIS_URL the '://' prefix makes the host the hostname variable, or 'localhost'. */
  lemma RedisHostDefault(env: map<string, string>)
    requires "REDIS_URL" !in env
    requires "REDIS_HOSTNAME" in env ==> ':' !in env["REDIS_HOSTNAME"]
    ensures RedisHost(env) == Success(if "REDIS_HOSTNAME" in env then env["REDIS_HOSTNAME"] else "localhost")
  {
    var name := if "REDIS_HOSTNAME" in env then env["REDIS_HOSTNAME"] else "localhost";
    RedisHostOfUrl(env, "", name, None);
  }
}
