# Elasticsearch log shipping: a Dafny model

This project models the core of a Laravel logging channel that ships log
records to Elasticsearch:

- the Monolog handler `ElasticSearchHandler`, whose `format` turns a log
  record into the document to index (a `DateTimeInterface` value under
  `datetime` becomes W3C text under `@timestamp`), and whose `write`/`send`
  hand exactly one `{index, type, body}` request per record to the
  Elasticsearch client;
- the channel factory `ElasticSearchLogger::__invoke`, which builds the
  client's host entry from the channel configuration with the defaults
  `127.0.0.1`, `https` and `9200`, and constructs the handler for
  `config['index']`.

Records, configuration arrays and documents are PHP arrays with string keys,
modelled as `map<string, Value>` (`values.dfy`). A date/time value is its
broken-down local date and time, down to the microsecond a record's
creation time carries, plus its UTC offset in seconds (`date_times.dfy`); its W3C rendering `Y-m-d\TH:i:sP` is written out as
PHP's formatter writes those fields (`%04d`-style padding, sign and
`%02d:%02d` for the offset), and a reader of that text is given as its
inverse. The pattern has no fraction of a second, so the text keeps the
time only to the whole second: two records logged within the same second
get the same `@timestamp`. The Elasticsearch client is a class that keeps the requests handed
to its `index` operation (`elasticsearch.dfy`); the handler is a class whose
object invariant says that, after whatever the client had sent before the
handler was made, the client's requests are exactly the requests for the
records it has written, in order (`handler.dfy`). The factory is in
`logger.dfy`; decimal text is in `decimal.dfy`.

Reading a missing `user`, `pass` or `index` makes PHP emit a notice (PHP 7)
or a warning (PHP 8) and yield null; Laravel's error handler turns that
notice or warning into an `ErrorException`, so inside the application the
factory stops at the first missing key. The model assumes that handler is
installed and returns `Err(MissingKey(key))` for the first missing key read,
in source order. Passing `config['index']` to the handler's `string $index`
parameter follows PHP's coercive typing (the file does not declare strict
types): strings pass, integers and booleans are converted, anything else is
a type error. A failure of the client's `index` call comes back from
`Write` unchanged, after the one request was handed over.

## Model

| member | source | states |
|---|---|---|
| Handlers.Format | app/Logging/Handlers/ElasticSearchHandler.php:60-68 | when `datetime` holds a date/time value the document has no `datetime`, has `@timestamp` equal to its W3C text (overwriting any earlier one) and the key set is the old one minus `datetime` plus `@timestamp`; otherwise the document is the record itself; in both cases every other key keeps its presence and value, and no date/time value is left under `datetime` |
| Handlers.Rename | app/Logging/Handlers/ElasticSearchHandler.php:63-64 | storing under `@timestamp` and unsetting `datetime` removes `datetime`, sets `@timestamp` and leaves every other key as it was |
| Handlers.FormatIdempotent | app/Logging/Handlers/ElasticSearchHandler.php:62-67 | formatting a document a second time changes nothing |
| Handlers.FormatKeepsDateTime | app/Logging/Handlers/ElasticSearchHandler.php:62-64 | for a date in the 25-character range, the `@timestamp` text reads back to the record's date/time with its microseconds set to zero: formatting keeps the instant to the whole second and drops only the fraction |
| Handlers.FormatExample | app/Logging/Handlers/ElasticSearchHandler.php:62-64 | the record `{message: "x", level: 200, datetime: 2024-01-15 10:30:00 UTC}` becomes `{message: "x", level: 200, "@timestamp": "2024-01-15T10:30:00+00:00"}` |
| Handlers.HasDateTime | app/Logging/Handlers/ElasticSearchHandler.php:62 | the `isset` and `instanceof DateTimeInterface` test holds exactly when `datetime` is present and holds a date/time value (a date/time value is never null, so the `isset` adds nothing) |
| Values.IsSet | app/Logging/Handlers/ElasticSearchHandler.php:62 | PHP's `isset` on an array key: false for an absent key, and for a present key true exactly when it does not hold null |
| Values.Coalesce | app/Logging/ElasticSearchLogger.php:23-25 | `$m[key] ?? default` is the stored value when the key is set and not null, and the default otherwise (absent or null) |
| Handlers.RequestsFor | app/Logging/Handlers/ElasticSearchHandler.php:45-52 | the request history for a sequence of records has one request per record, each with the handler's index, the type `weird-deprecated-but-mandatory` and a body with no raw creation time |
| Handlers.RequestsForSnoc | app/Logging/Handlers/ElasticSearchHandler.php:45-52 | one more written record adds exactly its request at the end of the history |
| Handlers.ElasticSearchHandler.constructor | app/Logging/Handlers/ElasticSearchHandler.php:30-40 | stores the client and the index verbatim; level defaults to `Logger::INFO` (200) and bubbling to true; it remembers the client's earlier requests, so the invariant holds over any client, used or not |
| Handlers.ElasticSearchHandler.Write | app/Logging/Handlers/ElasticSearchHandler.php:45-52 | appends exactly one request `{index, type: "weird-deprecated-but-mandatory", body: Format(record)}` to the client's requests, keeps the index, the client and the client's earlier requests, keeps the invariant, and returns the client's answer unchanged |
| Handlers.ElasticSearchHandler.Send | app/Logging/Handlers/ElasticSearchHandler.php:76-79 | hands the request to the client once and returns the client's answer |
| Elasticsearch.Client.Index | app/Logging/Handlers/ElasticSearchHandler.php:78 | the client records the request it is given and answers as the backend does |
| Elasticsearch.Client.constructor | app/Logging/ElasticSearchLogger.php:28-30 | a built client is bound to the given host entries and has sent nothing |
| DateTimes.W3C | app/Logging/Handlers/ElasticSearchHandler.php:63 | the `Y-m-d\TH:i:sP` text is at least 25 characters long; its exact shape and its inverse are the lemmas `W3CShape`, `ParseW3CInvertsW3C` and `W3CInvertsParseW3C` below |
| DateTimes.W3CShape | app/Logging/Handlers/ElasticSearchHandler.php:63 | the W3C text of a date with a four-digit year and a whole-minute offset below 100 hours is 25 characters `YYYY-MM-DDTHH:MM:SS±HH:MM` |
| DateTimes.ParseW3CInvertsW3C | app/Logging/Handlers/ElasticSearchHandler.php:63 | reading back the W3C text of such a date gives the date cut to the whole second (microseconds zero) |
| DateTimes.W3CInvertsParseW3C | app/Logging/Handlers/ElasticSearchHandler.php:63 | every text the reader accepts is the W3C text of the date it reads |
| DateTimes.W3CInjective | app/Logging/Handlers/ElasticSearchHandler.php:63 | distinct dates in that range with the same fraction of a second get distinct `@timestamp` texts |
| DateTimes.W3CDropsMicroseconds | app/Logging/Handlers/ElasticSearchHandler.php:63 | changing only the microseconds of a date leaves its W3C text unchanged |
| DateTimes.SameSecondExample | app/Logging/Handlers/ElasticSearchHandler.php:63 | 2024-01-15 10:30:00.000000 and 10:30:00.500000 at offset 0 are distinct dates with the same text `2024-01-15T10:30:00+00:00` |
| DateTimes.W3CExample | app/Logging/Handlers/ElasticSearchHandler.php:63 | 2024-01-15 10:30:00 at offset 0 is written `2024-01-15T10:30:00+00:00` (the offset is numeric, never `Z`) |
| Decimal.PadLeft | app/Logging/Handlers/ElasticSearchHandler.php:63 | a zero-padded field is all digits, denotes the number, and is exactly `width` long when the number fits |
| Decimal.PadLeftValueOf | app/Logging/Handlers/ElasticSearchHandler.php:63 | padding the value of a digit string back to its length gives the string |
| Logging.HostEntry | app/Logging/ElasticSearchLogger.php:20-26 | fails with the first missing key of `user`, `pass` exactly when one is missing; otherwise the entry has exactly the keys `user`, `pass`, `host`, `scheme`, `port`; `user` and `pass` are copied as they are (null included); a set `host`, `scheme` or `port` is used verbatim and an absent or null one becomes `127.0.0.1`, `https` or `9200`, so only `user` and `pass` can be null |
| Logging.StringArgument | app/Logging/ElasticSearchLogger.php:33 | strings pass unchanged, integers become their canonical decimal text (non-empty, no leading zero unless it is `0`, a minus sign before the digits when negative, reading back to the integer), booleans become `"1"` or `""`, and every other value is a type error |
| Decimal.IntText | app/Logging/ElasticSearchLogger.php:33 | an integer's text is non-empty and canonical: for a non-negative integer, digits with no leading zero unless the text is `0` that read back to the integer; for a negative one, `-` then such digits reading back to its absolute value |
| Logging.HandlerIndex | app/Logging/ElasticSearchLogger.php:33 | a missing `index` is an error; otherwise the index is `config['index']` converted to a string |
| Logging.Invoke | app/Logging/ElasticSearchLogger.php:18-40 | fails exactly when the host entry or the index fails, host entry first; otherwise returns a new handler over a new client bound to the one host entry, with the configured index, level INFO, bubbling on, no requests sent and its invariant established |

## Left out

- Monolog's `AbstractProcessingHandler` machinery (level filtering, bubbling, processors, the `handle` entry point) is library code; the handler only stores its level and bubble flag. A level given by name (`'debug'`) is not converted; levels are integers.
- The Monolog `Logger` the factory returns, its name `env('APP_NAME')` and `pushHandler` are not modelled; `Logging.Invoke` returns the handler it would push.
- The Elasticsearch client's transport, retries and connection handling are not modelled: the client only records the requests handed to it, and the backend's answer is the client's `failure` field, set by the environment.
- Converting an instant to local calendar fields (time zones, daylight saving) is done by PHP's date library; a date/time value is given by its local fields and offset.
- `DateTimes.ParseW3CInvertsW3C`: the round trip is stated for years 0 to 9999 and offsets of whole minutes below 100 hours; outside that range the rendering (a minus sign or a fifth year digit, dropped offset seconds) is modelled but not read back.
- Handlers.ElasticSearchHandler.Write: when two handlers share one client, a write through one adds a request the other's invariant does not account for, so the model does not let the other handler write afterwards (a new handler over the same client can be made, since the constructor remembers the client's earlier requests).
- Without Laravel's error handler, plain PHP reads a missing `user` or `pass` as null and carries on, and a missing `index` reaches the `string $index` parameter as null and raises a `TypeError`; `Logging.Invoke` follows the behaviour under Laravel instead.
- The key order of PHP arrays is not modelled: a new `@timestamp` goes last in PHP, and maps have no order. Integer keys are not modelled.
- Floats, resources and objects with `__toString` are not among the modelled values; PHP integers are unbounded here, which matters only for the decimal text of an integer index.
