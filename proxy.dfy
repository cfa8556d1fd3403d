/**
 * One client connection of the proxy, with the sockets replaced by values: the request
 * line the client sends (or end of input), and the lines the origin server answers with.
 */
module Proxy {
  import opened Wrappers
  import opened CStrings
  import opened HttpCodec
  import opened ProxyCache

  /** The lines `Rio_readlineb` delivers: each holds at least one byte and no NUL. */
  predicate UpstreamLines(response: seq<string>)
  {
    forall k :: 0 <= k < |response| ==> response[k] != [] && NulFree(response[k])
  }

  /**
   * `forward_request`: build the request, pick the host name to connect to, relay every
   * response line to the client in order while summing their sizes, and fill the cache
   * block with the whole response only when its total size stays below MAX_OBJECT_SIZE;
   * otherwise mark the block empty.
   */
  method ForwardRequest(httpMethod: string, host: string, filename: string, response: seq<string>, blk: Block)
    returns (request: string, hostname: Option<string>, written: seq<string>, cached: Block)
    requires UpstreamLines(response)
    ensures request == BuildRequest(httpMethod, host, filename)
    ensures hostname == ConnectHost(host)
    ensures written == response
    ensures |Concat(response)| < MaxObjectSize ==> cached == blk.(content := Concat(response))
    ensures |Concat(response)| >= MaxObjectSize ==> cached == blk.(isEmpty := true)
  {
    request := BuildRequest(httpMethod, host, filename);
    hostname := ConnectHost(host);
    var total := 0;
    var buf := "";
    written := [];
    var k := 0;
    while k < |response|
      invariant 0 <= k <= |response|
      invariant total == |Concat(response[..k])|
      invariant total < MaxObjectSize ==> buf == Concat(response[..k])
      invariant written == response[..k]
    {
      assert response[..k + 1][..k] == response[..k];
      total := total + |response[k]|;
      if total < MaxObjectSize {
        buf := buf + response[k];
      }
      written := written + [response[k]];
      k := k + 1;
    }
    assert response[..k] == response;
    if total < MaxObjectSize {
      cached := blk.(content := buf);
    } else {
      cached := blk.(isEmpty := true);
    }
  }

  /** What the client gets for its request. */
  datatype Reply =
    | NoRequest
    | Rejected(error: RequestError)
    | Served(slot: nat, body: string)
    | Forwarded(request: string, hostname: Option<string>, port: string, relayed: seq<string>)

  /** The block `handle_request` stores after a miss: keyed by the URI, its body kept only when small enough. */
  function MissBlock(uri: string, response: seq<string>): (blk: Block)
    ensures blk.uri == uri && blk.lru == 0
    ensures blk.isEmpty <==> |Concat(response)| >= MaxObjectSize
    ensures !blk.isEmpty ==> blk.content == Concat(response)
    ensures UpstreamLines(response) ==> Storable(blk)
  {
    assert UpstreamLines(response) ==> NulFree(Concat(response)) by {
      if UpstreamLines(response) {
        ConcatNulFree(response);
      }
    }
    if |Concat(response)| < MaxObjectSize then Block(Concat(response), uri, 0, false)
    else Block("", uri, 0, true)
  }

  /**
   * The request lines `handle_request` processes without undefined behaviour and reads as
   * C does: no NUL (where `strstr` and `sscanf` would stop), a method field, a URI field
   * after GET, and a URI `parse_uri` can split whenever it gets that far.
   */
  predicate Handleable(line: string, slots: seq<Block>)
  {
    && NulFree(line)
    && ReadableRequestLine(line)
    && (ParseRequestLine(line).Ok? && FindCached(slots, ParseRequestLine(line).value.uri).None?
        ==> ParsableUri(ParseRequestLine(line).value.uri))
  }

  /**
   * The miss path of `handle_request`: split the URI, forward the request, relay the
   * response, and offer the block to the first empty slot. The cache invariant holds
   * afterwards, a small response is found by the next lookup of its URI, and other URIs'
   * lookups are not disturbed.
   */
  method ForwardAndStore(cache: ObjectCache, request: RequestLine, response: seq<string>) returns (reply: Reply)
    requires cache.Valid()
    requires ParsableUri(request.uri) && FindCached(cache.slots[..], request.uri).None?
    requires UpstreamLines(response)
    modifies cache.slots
    ensures cache.Valid()
    ensures var parts := ParseUri(request.uri);
      reply == Forwarded(BuildRequest(request.httpMethod, parts.host, parts.filename),
                         ConnectHost(parts.host), parts.port, response)
    ensures cache.slots[..] == Inserted(old(cache.slots[..]), MissBlock(request.uri, response))
    ensures |Concat(response)| < MaxObjectSize && FirstEmpty(old(cache.slots[..])).Some? ==>
      && FindCached(cache.slots[..], request.uri) == FirstEmpty(old(cache.slots[..]))
      && cache.slots[FirstEmpty(old(cache.slots[..])).value].content == Concat(response)
    ensures forall uri :: uri != request.uri ==>
      FindCached(cache.slots[..], uri) == FindCached(old(cache.slots[..]), uri)
  {
    var blk := Block("", request.uri, 0, false);
    var parts := ParseUri(request.uri);
    var sent, hostname, written, cached := ForwardRequest(request.httpMethod, parts.host, parts.filename, response, blk);
    assert cached == MissBlock(request.uri, response);
    ghost var before := cache.slots[..];
    InsertPreservesInvariant(before, cached);
    if !cached.isEmpty && FirstEmpty(before).Some? {
      InsertThenLookup(before, cached);
    }
    forall uri | uri != request.uri
      ensures FindCached(Inserted(before, cached), uri) == FindCached(before, uri)
    {
      InsertKeepsOtherLookups(before, cached, uri);
    }
    cache.Insert(cached);
    reply := Forwarded(sent, hostname, parts.port, written);
  }

  /**
   * `handle_request` for one connection: end of input does nothing; a method other than
   * GET is refused; a cached URI is answered from its slot; anything else is forwarded and
   * its response offered to the first empty slot. The cache invariant holds throughout,
   * a small response is found by the next lookup of its URI, and other URIs' lookups are
   * not disturbed.
   */
  method HandleRequest(cache: ObjectCache, line: Option<string>, response: seq<string>) returns (reply: Reply)
    requires cache.Valid()
    requires line.Some? ==> Handleable(line.value, cache.slots[..])
    requires UpstreamLines(response)
    modifies cache.slots
    ensures cache.Valid()
    ensures line.None? ==> reply == NoRequest && unchanged(cache.slots)
    ensures line.Some? && ParseRequestLine(line.value).Err? ==>
      reply == Rejected(NotImplemented) && unchanged(cache.slots)
    ensures line.Some? && ParseRequestLine(line.value).Ok? ==>
      var request := ParseRequestLine(line.value).value;
      match FindCached(old(cache.slots[..]), request.uri)
      case Some(i) =>
        reply == Served(i, old(cache.slots[i]).content) && unchanged(cache.slots)
      case None =>
        var parts := ParseUri(request.uri);
        && reply == Forwarded(BuildRequest(request.httpMethod, parts.host, parts.filename),
                              ConnectHost(parts.host), parts.port, response)
        && cache.slots[..] == Inserted(old(cache.slots[..]), MissBlock(request.uri, response))
        && (|Concat(response)| < MaxObjectSize && FirstEmpty(old(cache.slots[..])).Some? ==>
              && FindCached(cache.slots[..], request.uri) == FirstEmpty(old(cache.slots[..]))
              && cache.slots[FirstEmpty(old(cache.slots[..])).value].content == Concat(response))
        && forall uri :: uri != request.uri ==>
             FindCached(cache.slots[..], uri) == FindCached(old(cache.slots[..]), uri)
  {
    if line.None? {
      return NoRequest;
    }
    var parsed := ParseRequestLine(line.value);
    if parsed.Err? {
      return Rejected(NotImplemented);
    }
    var request := parsed.value;
    var i := cache.Lookup(request.uri);
    if i != -1 {
      return Served(i, cache.slots[i].content);
    }
    reply := ForwardAndStore(cache, request, response);
  }
}
