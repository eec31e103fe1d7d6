/**
 * The Monolog handler that ships log records to Elasticsearch: the
 * record-to-document formatting and the one request sent per record.
 */
module Handlers {
  import opened Wrappers
  import opened DateTimes
  import opened Values
  import opened Elasticsearch

  /** The record key the logging pipeline stores the creation time under. */
  const DatetimeKey: string := "datetime"
  /** The document key Elasticsearch reads the timestamp from. */
  const TimestampKey: string := "@timestamp"
  /** The mapping type the older index API requires on every request. */
  const DocumentType: string := "weird-deprecated-but-mandatory"
  /** Monolog's `Logger::INFO` level. */
  const Info: int := 200

  /** `isset($record["datetime"]) && $record["datetime"] instanceof DateTimeInterface`. */
  predicate HasDateTime(record: Record): (h: bool)
    ensures h <==> DatetimeKey in record && record[DatetimeKey].Date?
  {
    IsSet(record, DatetimeKey) && record[DatetimeKey].Date?
  }

  /**
   * The document indexed for a record: a creation time held under
   * "datetime" moves to "@timestamp" as W3C text; anything else is left as is.
   */
  function Format(record: Record): (doc: Record)
    ensures HasDateTime(record) ==>
      && DatetimeKey !in doc
      && TimestampKey in doc
      && doc[TimestampKey] == Str(W3C(record[DatetimeKey].d))
      && doc.Keys == record.Keys - {DatetimeKey} + {TimestampKey}
    ensures !HasDateTime(record) ==> doc == record
    ensures forall k :: k in record && k != DatetimeKey ==> k in doc
    ensures forall k :: k in doc && k != TimestampKey ==> k in record && doc[k] == record[k]
    ensures !HasDateTime(doc)
  {
    if HasDateTime(record) then
      var stamp := Str(W3C(record[DatetimeKey].d));
      Rename(record, stamp);
      record[TimestampKey := stamp] - {DatetimeKey}
    else record
  }

  /** Storing a value under "@timestamp" and dropping "datetime" touches no other key. */
  lemma Rename(record: Record, stamp: Value)
    requires stamp.Str?
    ensures var doc := record[TimestampKey := stamp] - {DatetimeKey};
      && DatetimeKey !in doc && TimestampKey in doc && doc[TimestampKey] == stamp
      && doc.Keys == record.Keys - {DatetimeKey} + {TimestampKey}
      && (forall k :: k in record && k != DatetimeKey ==> k in doc)
      && (forall k :: k in doc && k != TimestampKey ==> k in record && doc[k] == record[k])
      && !HasDateTime(doc)
  {
    assert DatetimeKey[0] != TimestampKey[0];
  }

  /** Formatting a document again changes nothing. */
  lemma FormatIdempotent(record: Record)
    ensures Format(Format(record)) == Format(record)
  {
  }

  /**
   * The instant survives formatting to the second: for a creation time with
   * the 25-character W3C form, the "@timestamp" text reads back to that
   * date-time with its microseconds dropped.
   */
  lemma FormatKeepsDateTime(record: Record)
    requires HasDateTime(record) && Renderable(record[DatetimeKey].d)
    ensures TimestampKey in Format(record) && Format(record)[TimestampKey].Str?
    ensures ParseW3C(Format(record)[TimestampKey].s) == Some(record[DatetimeKey].d.(microsecond := 0))
  {
    ParseW3CInvertsW3C(record[DatetimeKey].d);
  }

  /** The documented example: the creation time becomes "2024-01-15T10:30:00+00:00". */
  lemma FormatExample()
    ensures var d := DateTime(2024, 1, 15, 10, 30, 0, 0, 0);
      Format(map["message" := Str("x"), "level" := Int(200), DatetimeKey := Date(d)])
      == map["message" := Str("x"), "level" := Int(200), TimestampKey := Str("2024-01-15T10:30:00+00:00")]
  {
    W3CExample();
  }

  /**
   * The requests a handler for `index` sends for `records`, in order: each
   * targets that index with the fixed type and holds no raw creation time.
   */
  function RequestsFor(index: string, records: seq<Record>): (reqs: seq<Request>)
    ensures |reqs| == |records|
    ensures forall req | req in reqs ::
      req.index == index && req.docType == DocumentType && !HasDateTime(req.body)
  {
    seq(|records|, i requires 0 <= i < |records| => Request(index, DocumentType, Format(records[i])))
  }

  /** Writing one more record adds its request at the end of the history. */
  lemma RequestsForSnoc(index: string, records: seq<Record>, record: Record)
    ensures RequestsFor(index, records + [record])
      == RequestsFor(index, records) + [Request(index, DocumentType, Format(record))]
  {
    var rs := records + [record];
    assert forall i | 0 <= i < |records| :: rs[i] == records[i];
  }

  class ElasticSearchHandler {
    /** The index the logs are stored in. */
    var index: string
    var client: Client
    /** Minimum level and bubbling flag, kept for the pipeline's base handler. */
    var level: int
    var bubble: bool
    /** The records written so far, oldest first. */
    ghost var written: seq<Record>
    /** The requests the client had already been given when this handler was made. */
    ghost var sentBefore: seq<Request>

    /**
     * After what the client had sent before, its requests are exactly those
     * this handler made for the records it wrote.
     */
    ghost predicate Valid()
      reads this, client
    {
      client.log == sentBefore + RequestsFor(index, written)
    }

    constructor (client: Client, index: string, level: int := Info, bubble: bool := true)
      ensures this.client == client && this.index == index
      ensures this.level == level && this.bubble == bubble
      ensures written == [] && sentBefore == client.log
      ensures Valid()
    {
      this.client := client;
      this.index := index;
      this.level := level;
      this.bubble := bubble;
      written := [];
      sentBefore := client.log;
    }

    /** Hands one request to the client; the client's answer is passed on unchanged. */
    method Send(data: Request) returns (outcome: Outcome<string>)
      modifies client`log
      ensures client.log == old(client.log) + [data]
      ensures outcome == client.Answer()
    {
      outcome := client.Index(data);
    }

    /**
     * Sends exactly one request for the record: this handler's index, the
     * fixed type, and the record's document. A failure of the client comes
     * back as it is, after that single attempt.
     */
    method Write(record: Record) returns (outcome: Outcome<string>)
      requires Valid()
      modifies this`written, client`log
      ensures Valid()
      ensures index == old(index) && client == old(client) && sentBefore == old(sentBefore)
      ensures written == old(written) + [record]
      ensures client.log == old(client.log) + [Request(index, DocumentType, Format(record))]
      ensures outcome == client.Answer()
    {
      outcome := Send(Request(index, DocumentType, Format(record)));
      written := written + [record];
      RequestsForSnoc(index, old(written), record);
      assert client.log == sentBefore + (RequestsFor(index, old(written)) + [Request(index, DocumentType, Format(record))]);
    }
  }
}
