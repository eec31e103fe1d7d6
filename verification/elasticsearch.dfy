/**
 * The part of the Elasticsearch PHP client the handler relies on: a client
 * bound to its hosts, whose `index` operation takes one request. The
 * network is not modelled; the client keeps the requests handed to it.
 */
module Elasticsearch {
  import opened Wrappers
  import opened Values

  /** The parameters of one `index` call: target index, mapping type, document body. */
  datatype Request = Request(index: string, docType: string, body: Record)

  class Client {
    /** The host entries given to the client builder. */
    const hosts: seq<Record>
    /**
     * How the backend answers the next `index` calls: None accepts them,
     * Some(e) makes them raise e. This stands for the network and the
     * remote server, which are not modelled.
     */
    var failure: Option<string>
    /** Every request handed to `index`, oldest first. */
    ghost var log: seq<Request>

    /** `ClientBuilder::create()->setHosts(hosts)->build()`. */
    constructor (hosts: seq<Record>)
      ensures this.hosts == hosts && failure == None && log == []
    {
      this.hosts := hosts;
      failure := None;
      log := [];
    }

    /** The answer the backend currently gives to an `index` call. */
    function Answer(): Outcome<string>
      reads this
    {
      match failure
      case None => Pass
      case Some(e) => Fail(e)
    }

    /** `Client::index($params)`: one request goes out; the backend's answer comes back. */
    method Index(params: Request) returns (outcome: Outcome<string>)
      modifies this`log
      ensures log == old(log) + [params]
      ensures outcome == Answer()
    {
      log := log + [params];
      outcome := Answer();
    }
  }
}
