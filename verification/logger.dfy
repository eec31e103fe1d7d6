/**
 * The logger factory: the host entry the Elasticsearch client is built
 * with, the index the handler writes to, and the handler it wires up.
 */
module Logging {
  import opened Wrappers
  import opened Decimal
  import opened Values
  import opened Elasticsearch
  import opened Handlers

  /** Why the factory stops: a required key is missing, or the index is not string-like. */
  datatype ConfigError =
    | MissingKey(key: string)
    | IndexTypeError(given: Value)

  const DefaultHost: string := "127.0.0.1"
  const DefaultScheme: string := "https"
  const DefaultPort: int := 9200

  /** The keys of the host entry handed to the client builder. */
  const HostKeys: set<string> := {"user", "pass", "host", "scheme", "port"}

  /**
   * The host entry: `user` and `pass` copied as they are (reading a missing
   * one raises), `host`, `scheme` and `port` taken from the configuration
   * when set and defaulted otherwise.
   */
  function HostEntry(config: Record): (r: Result<Record, ConfigError>)
    ensures r.Err? <==> "user" !in config || "pass" !in config
    ensures r.Err? ==> r.error == MissingKey(if "user" !in config then "user" else "pass")
    ensures r.Ok? ==> r.value.Keys == HostKeys
    ensures r.Ok? ==> r.value["user"] == config["user"] && r.value["pass"] == config["pass"]
    ensures r.Ok? ==> forall key | key in {"host", "scheme", "port"} && IsSet(config, key) ::
      r.value[key] == config[key]
    ensures r.Ok? && !IsSet(config, "host") ==> r.value["host"] == Str(DefaultHost)
    ensures r.Ok? && !IsSet(config, "scheme") ==> r.value["scheme"] == Str(DefaultScheme)
    ensures r.Ok? && !IsSet(config, "port") ==> r.value["port"] == Int(DefaultPort)
    ensures r.Ok? ==> forall key | key in r.value && r.value[key] == Null :: key == "user" || key == "pass"
  {
    if "user" !in config then Err(MissingKey("user"))
    else if "pass" !in config then Err(MissingKey("pass"))
    else
      Ok(map[
        "user" := config["user"],
        "pass" := config["pass"],
        "host" := Coalesce(config, "host", Str(DefaultHost)),
        "scheme" := Coalesce(config, "scheme", Str(DefaultScheme)),
        "port" := Coalesce(config, "port", Int(DefaultPort))])
  }

  /**
   * A value passed for the handler's `string $index` parameter, as PHP's
   * coercive typing converts it: strings as they are, integers in decimal,
   * booleans as "1" and "", anything else raises a type error.
   */
  function StringArgument(v: Value): (r: Result<string, ConfigError>)
    ensures r.Err? <==> !(v.Str? || v.Int? || v.Bool?)
    ensures r.Err? ==> r.error == IndexTypeError(v)
    ensures v.Str? ==> r == Ok(v.s)
    ensures v.Int? && v.i >= 0 ==>
      && r.Ok? && |r.value| >= 1 && AllDigits(r.value) && ValueOf(r.value) == v.i
      && (|r.value| > 1 ==> r.value[0] != '0')
    ensures v.Int? && v.i < 0 ==>
      && r.Ok? && |r.value| >= 2 && r.value[0] == '-'
      && AllDigits(r.value[1..]) && ValueOf(r.value[1..]) == -v.i
      && (|r.value| > 2 ==> r.value[1] != '0')
    ensures v.Bool? ==> r.Ok? && (r.value == "1" <==> v.b) && (r.value == "" <==> !v.b)
  {
    match v
    case Str(s) => Ok(s)
    case Int(i) => Ok(IntText(i))
    case Bool(b) => Ok(if b then "1" else "")
    case _ => Err(IndexTypeError(v))
  }

  /** The index the handler is constructed with: `config['index']` as a string. */
  function HandlerIndex(config: Record): (r: Result<string, ConfigError>)
    ensures "index" !in config ==> r == Err(MissingKey("index"))
    ensures "index" in config ==> r == StringArgument(config["index"])
    ensures "index" in config && config["index"].Str? ==> r == Ok(config["index"].s)
    ensures "index" in config && config["index"].Null? ==> r == Err(IndexTypeError(Null))
  {
    if "index" !in config then Err(MissingKey("index")) else StringArgument(config["index"])
  }

  /**
   * The factory's wiring: a client bound to the one host entry, and a
   * handler for the configured index with the default level and bubbling.
   * Errors surface in the order the configuration is read.
   */
  method Invoke(config: Record) returns (r: Result<ElasticSearchHandler, ConfigError>)
    ensures HostEntry(config).Err? ==> r == Err(HostEntry(config).error)
    ensures HostEntry(config).Ok? && HandlerIndex(config).Err? ==> r == Err(HandlerIndex(config).error)
    ensures r.Ok? <==> HostEntry(config).Ok? && HandlerIndex(config).Ok?
    ensures r.Ok? ==>
      && fresh(r.value) && fresh(r.value.client)
      && r.value.client.hosts == [HostEntry(config).value]
      && r.value.index == HandlerIndex(config).value
      && r.value.level == Info && r.value.bubble
      && r.value.written == [] && r.value.sentBefore == [] && r.value.Valid()
  {
    var host := HostEntry(config);
    if host.Err? {
      return Err(host.error);
    }
    var client := new Client([host.value]);
    var index := HandlerIndex(config);
    if index.Err? {
      return Err(index.error);
    }
    var handler := new ElasticSearchHandler(client, index.value);
    r := Ok(handler);
  }
}
