/** The asyncio version of the proxy, the `Proxy` class of Project1/Proxy.py. It sends
    the same texts as the blocking proxy, through a StreamWriter: every call on the
    client's writer (`write`, `drain`, `close`, `wait_closed`) becomes one `WriterOp`,
    in the order the code makes them. Whether the cache file exists, what reading it
    yields, the origin server's response and whether writing the cache file raises are
    inputs. */
module AsyncProxy {
  import opened Builtins
  import Proxy

  /** One call on the client's StreamWriter. */
  datatype WriterOp = Write(text: string) | Drain | Close | WaitClosed

  /** The texts a sequence of writer calls sends, in order. */
  function Written(ops: seq<WriterOp>): seq<string>
  {
    if ops == [] then []
    else if ops[0].Write? then [ops[0].text] + Written(ops[1..])
    else Written(ops[1..])
  }

  lemma {:induction false} WrittenAppend(a: seq<WriterOp>, b: seq<WriterOp>)
    ensures Written(a + b) == Written(a) + Written(b)
  {
    if a == [] {
      assert a + b == b;
    } else {
      assert (a + b)[1..] == a[1..] + b;
      WrittenAppend(a[1..], b);
    }
  }

  /** Each text written, with no drain in between. */
  function WriteAll(texts: seq<string>): (ops: seq<WriterOp>)
    ensures Written(ops) == texts
    ensures forall k :: 0 <= k < |ops| ==> ops[k].Write?
  {
    if texts == [] then []
    else
      var rest := WriteAll(texts[1..]);
      assert ([Write(texts[0])] + rest)[1..] == rest;
      [Write(texts[0])] + rest
  }

  /** A drain writes no text. */
  lemma WrittenAfterDrain(ops: seq<WriterOp>)
    ensures Written([Drain] + ops) == Written(ops)
  {
    assert ([Drain] + ops)[1..] == ops;
  }

  /** A writer that is closed only at the end of the first part writes nothing after
      a close when the second part writes nothing. */
  lemma NoWriteAfterCloseAppend(a: seq<WriterOp>, b: seq<WriterOp>)
    requires NoWriteAfterClose(a)
    requires forall k :: 0 <= k < |b| ==> !b[k].Write?
    ensures NoWriteAfterClose(a + b)
  {
  }

  /** No text is written once the writer has been closed. */
  predicate NoWriteAfterClose(ops: seq<WriterOp>)
  {
    forall i, j :: 0 <= i < j < |ops| && ops[i].Close? ==> !ops[j].Write?
  }

  /** Each text written and then drained, the pattern `readFromCache` and the response
      handlers follow. */
  function WriteDrained(texts: seq<string>): (ops: seq<WriterOp>)
    ensures Written(ops) == texts
    ensures forall k :: 0 <= k < |ops| ==> ops[k].Write? || ops[k].Drain?
  {
    if texts == [] then []
    else
      var rest := WriteDrained(texts[1..]);
      assert ([Write(texts[0]), Drain] + rest)[1..][1..] == rest;
      [Write(texts[0]), Drain] + rest
  }

  // ---------------------------------------------------------------------------
  // Validating the request line

  /** A failed check: drain the writer, then write the complaint. */
  function Complain(texts: seq<string>): (r: (bool, seq<WriterOp>))
    ensures !r.0 && Written(r.1) == texts
    ensures r.1 != [] && r.1[0] == Drain
    ensures forall k :: 0 <= k < |r.1| ==> r.1[k].Write? || r.1[k].Drain?
  {
    WrittenAfterDrain(WriteAll(texts));
    (false, [Drain] + WriteAll(texts))
  }

  /** `Proxy.validURI`: each failed check drains the writer and then writes the same
      complaint as the blocking proxy. */
  function ValidUri(uri: seq<string>): (r: (bool, seq<WriterOp>))
    ensures r.0 == Proxy.ValidUri(uri).valid
    ensures Written(r.1) == Proxy.ValidUri(uri).sent
    ensures r.0 <==> r.1 == []
    ensures !r.0 ==> r.1[0] == Drain
    ensures forall k :: 0 <= k < |r.1| ==> r.1[k].Write? || r.1[k].Drain?
  {
    if |uri| != 3 then Complain([Proxy.ArityError])
    else if uri[0] != "GET" then Complain([Proxy.MethodError])
    else if !StartsWith(uri[1], "http://") then Complain([Proxy.SchemeError, Proxy.SchemeHint])
    else if uri[2] != "HTTP/1.1" then Complain([Proxy.VersionError])
    else (true, [])
  }

  /** `Proxy.handleInvalidRequest`. */
  function HandleInvalidRequest(): (ops: seq<WriterOp>)
    ensures Written(ops) == [Proxy.InvalidRequestError]
    ensures ops != [] && ops[|ops| - 1] == Close && NoWriteAfterClose(ops)
  {
    assert [Write(Proxy.InvalidRequestError), Close][1..] == [Close];
    assert [Close][1..] == [];
    [Write(Proxy.InvalidRequestError), Close]
  }

  // ---------------------------------------------------------------------------
  // Serving from the cache

  /** `Proxy.readFromCache`, given what reading and decoding the cache file yields
      (None when either raised): the cached reply, each part drained; or, when the
      read raised, the writer closed and awaited. */
  function ReadFromCache(cached: Option<string>): (ops: seq<WriterOp>)
    ensures Written(ops) == if cached.Some? then Proxy.CacheReply(cached.value) else []
    ensures cached.Some? ==> forall k :: 0 <= k < |ops| ==> ops[k].Write? || ops[k].Drain?
    ensures cached.None? ==> ops == [Close, WaitClosed]
  {
    match cached
    case Some(text) => WriteDrained(Proxy.CacheReply(text))
    case None => [Close, WaitClosed]
  }

  // ---------------------------------------------------------------------------
  // Relaying the origin server's response

  /** What relaying one origin response does: the text stored in the cache file, if
      any, and the writer calls. */
  datatype Relay = Relay(cacheWrite: Option<string>, ops: seq<WriterOp>)

  /** `Proxy.handleOriginResponse` and its handlers. The handlers write what the
      blocking proxy sends, each part drained; a failed cache write is logged and the
      reply still goes out. */
  function HandleOriginResponse(response: string, cacheWriteFails: bool): (r: Result<Relay>)
    ensures r.Err? <==> Proxy.HandleOriginResponse(response).Err?
    ensures r.Err? ==> r.error == Proxy.HandleOriginResponse(response).error
    ensures r.Ok? ==> Written(r.value.ops) == Proxy.HandleOriginResponse(response).value.sent
    ensures r.Ok? ==> forall k :: 0 <= k < |r.value.ops| ==> r.value.ops[k].Write? || r.value.ops[k].Drain?
    ensures r.Ok? ==>
      r.value.cacheWrite == if cacheWriteFails then None else Proxy.HandleOriginResponse(response).value.cacheWrite
  {
    match Proxy.ParseResponse(response)
    case Err(e) => Err(e)
    case Ok(p) =>
      var relay := Proxy.Dispatch(p);
      Ok(Relay(if cacheWriteFails then None else relay.cacheWrite, WriteDrained(relay.sent)))
  }

  /** The client gets the same reply whether or not the cache write raised. */
  lemma RepliesDespiteCacheFailure(response: string)
    requires HandleOriginResponse(response, true).Ok?
    ensures HandleOriginResponse(response, false).Ok?
    ensures HandleOriginResponse(response, true).value.ops == HandleOriginResponse(response, false).value.ops
  {
  }

  // ---------------------------------------------------------------------------
  // Handling one client

  /** An exception that escapes `handleClient`: `extractRequestData` raised (a URL
      whose port is not a number, say), the origin response failed to parse, or
      fetching it failed (its error text then reaches `decode`, or its `finally`
      touches a writer that was never opened). */
  datatype Escape = BadRequestData | Unparsable(error: Exception) | OriginUnavailable

  /** What one client connection amounts to: the writer calls, the text stored in the
      cache, and the exception that escaped, if any. */
  datatype Session = Session(ops: seq<WriterOp>, cacheWrite: Option<string>, escaped: Option<Escape>)

  /** The invalid-request path of `handleClient`: the failed check's complaint,
      `handleInvalidRequest`, and the close of the `finally`. */
  function InvalidSession(checkOps: seq<WriterOp>): (r: Session)
    requires forall k :: 0 <= k < |checkOps| ==> checkOps[k].Write? || checkOps[k].Drain?
    ensures r.ops != [] && r.ops[|r.ops| - 1] == Close
    ensures NoWriteAfterClose(r.ops)
    ensures Written(r.ops) == Written(checkOps) + [Proxy.InvalidRequestError]
    ensures r.cacheWrite.None? && r.escaped.None?
  {
    var ops := checkOps + HandleInvalidRequest() + [Close];
    WrittenAppend(checkOps + HandleInvalidRequest(), [Close]);
    WrittenAppend(checkOps, HandleInvalidRequest());
    assert Written([Close]) == [] by {
      assert [Close][1..] == [];
    }
    NoWriteAfterCloseAppend(checkOps + HandleInvalidRequest(), [Close]);
    Session(ops, None, None)
  }

  /** The cache-hit path of `handleClient`: `readFromCache`, then the close of the
      `finally`. */
  function CacheSession(cacheRead: Option<string>): (r: Session)
    ensures r.ops != [] && r.ops[|r.ops| - 1] == Close
    ensures NoWriteAfterClose(r.ops)
    ensures Written(r.ops) == if cacheRead.Some? then Proxy.CacheReply(cacheRead.value) else []
    ensures r.cacheWrite.None? && r.escaped.None?
  {
    WrittenAppend(ReadFromCache(cacheRead), [Close]);
    assert Written([Close]) == [] by {
      assert [Close][1..] == [];
    }
    NoWriteAfterCloseAppend(ReadFromCache(cacheRead), [Close]);
    Session(ReadFromCache(cacheRead) + [Close], None, None)
  }

  /** The cache-miss path of `handleClient`: fetch, relay, then the close of the
      `finally`; an exception from the fetch or the parse escapes after the close. */
  function OriginSession(origin: Option<string>, cacheWriteFails: bool): (r: Session)
    ensures r.ops != [] && r.ops[|r.ops| - 1] == Close
    ensures NoWriteAfterClose(r.ops)
    ensures r.escaped.Some? <==> origin.None? || Proxy.HandleOriginResponse(origin.value).Err?
    ensures r.escaped.Some? ==> Written(r.ops) == []
    ensures r.escaped.None? ==> Written(r.ops) == Proxy.HandleOriginResponse(origin.value).value.sent
    ensures r.cacheWrite.Some? ==>
      && !cacheWriteFails && origin.Some? && Proxy.HandleOriginResponse(origin.value).Ok?
      && r.cacheWrite == Proxy.HandleOriginResponse(origin.value).value.cacheWrite
  {
    assert Written([Close]) == [] by {
      assert [Close][1..] == [];
    }
    match origin
    case None => Session([Close], None, Some(OriginUnavailable))
    case Some(response) =>
      match HandleOriginResponse(response, cacheWriteFails)
      case Err(e) => Session([Close], None, Some(Unparsable(e)))
      case Ok(relay) => RelayedSession(relay)
  }

  /** A relayed response followed by the close of the `finally`. */
  function RelayedSession(relay: Relay): (r: Session)
    requires forall k :: 0 <= k < |relay.ops| ==> relay.ops[k].Write? || relay.ops[k].Drain?
    ensures r.ops != [] && r.ops[|r.ops| - 1] == Close
    ensures NoWriteAfterClose(r.ops)
    ensures Written(r.ops) == Written(relay.ops)
    ensures r.cacheWrite == relay.cacheWrite && r.escaped.None?
  {
    WrittenAppend(relay.ops, [Close]);
    assert Written([Close]) == [] by {
      assert [Close][1..] == [];
    }
    NoWriteAfterCloseAppend(relay.ops, [Close]);
    Session(relay.ops + [Close], relay.cacheWrite, None)
  }

  /** `Proxy.handleClient` for the request tokens `uri`. `requestData` is whether
      `extractRequestData` returns rather than raises, `inCache` whether the cache
      file exists, `cacheRead` what reading it yields, `origin` the origin server's
      response (None when fetching it fails). The `finally` always closes the writer. */
  function HandleClient(uri: seq<string>, requestData: bool, inCache: bool, cacheRead: Option<string>,
                        origin: Option<string>, cacheWriteFails: bool): (r: Session)
    // the writer is always closed last, and nothing is written after a close
    ensures r.ops != [] && r.ops[|r.ops| - 1] == Close
    ensures NoWriteAfterClose(r.ops)
    // an invalid request gets its complaint, then the usage text
    ensures !Proxy.ValidUri(uri).valid ==>
      Written(r.ops) == Proxy.ValidUri(uri).sent + [Proxy.InvalidRequestError]
    // a valid request for a cached file is served from the cache
    ensures Proxy.ValidUri(uri).valid && requestData && inCache ==>
      Written(r.ops) == if cacheRead.Some? then Proxy.CacheReply(cacheRead.value) else []
    // otherwise the origin's response is relayed as the blocking proxy relays it
    ensures Proxy.ValidUri(uri).valid && requestData && !inCache && origin.Some? && Proxy.HandleOriginResponse(origin.value).Ok? ==>
      Written(r.ops) == Proxy.HandleOriginResponse(origin.value).value.sent
    // an exception escapes only from a valid request: from `extractRequestData` or from the origin path
    ensures r.escaped == Some(BadRequestData) <==> Proxy.ValidUri(uri).valid && !requestData
    ensures r.escaped.Some? <==>
      && Proxy.ValidUri(uri).valid
      && (!requestData || (!inCache && (origin.None? || Proxy.HandleOriginResponse(origin.value).Err?)))
    ensures r.escaped.Some? ==> Written(r.ops) == []
    // the cache is written only for a fetched 200 response, when the write succeeds
    ensures r.cacheWrite.Some? ==>
      && Proxy.ValidUri(uri).valid && requestData && !inCache && !cacheWriteFails && origin.Some?
      && Proxy.HandleOriginResponse(origin.value).Ok?
      && r.cacheWrite == Proxy.HandleOriginResponse(origin.value).value.cacheWrite
  {
    var (valid, checkOps) := ValidUri(uri);
    if !valid then InvalidSession(checkOps)
    else if !requestData then Session([Close], None, Some(BadRequestData))
    else if inCache then CacheSession(cacheRead)
    else OriginSession(origin, cacheWriteFails)
  }

  /** An invalid request is answered without consulting the cache or the origin. */
  lemma InvalidRequestIgnoresCacheAndOrigin(uri: seq<string>,
                                            data: bool, inCache: bool, cacheRead: Option<string>, origin: Option<string>, fails: bool,
                                            data': bool, inCache': bool, cacheRead': Option<string>, origin': Option<string>, fails': bool)
    requires !Proxy.ValidUri(uri).valid
    ensures HandleClient(uri, data, inCache, cacheRead, origin, fails) == HandleClient(uri, data', inCache', cacheRead', origin', fails')
  {
  }

  /** A cached file is served without contacting the origin. */
  lemma CacheHitIgnoresOrigin(uri: seq<string>, cacheRead: Option<string>,
                              origin: Option<string>, fails: bool, origin': Option<string>, fails': bool)
    requires Proxy.ValidUri(uri).valid
    ensures HandleClient(uri, true, true, cacheRead, origin, fails) == HandleClient(uri, true, true, cacheRead, origin', fails')
  {
  }
}
